/**
 * The manual edits of the roll and the submitted summary: setting one
 * slot (handleRadioChange), marking everyone present (handleAllPresent),
 * clearing the roll (handleClearAttendance), and the attendance record
 * built on submission (handleAttendance): the percentage present and the
 * absentees in class order, or a single "All Present" marker.
 */
module Summary {
  import opened AttendanceTypes

  /** Slot i of the roll holds Present; slots past its end never do. */
  predicate PresentAt(attendance: seq<Status>, i: nat)
  {
    i < |attendance| && attendance[i] == Present
  }

  /** The number of Present slots of the roll (the length of its Present filter). */
  function PresentCount(attendance: seq<Status>): (n: nat)
    ensures n <= |attendance|
    ensures n == 0 <==> forall i :: 0 <= i < |attendance| ==> attendance[i] != Present
    ensures n == |attendance| <==> forall i :: 0 <= i < |attendance| ==> attendance[i] == Present
    decreases |attendance|
  {
    if |attendance| == 0 then 0
    else
      var m := |attendance| - 1;
      PresentCount(attendance[..m]) + (if attendance[m] == Present then 1 else 0)
  }

  /**
   * The positions below n whose slot is not Present, in increasing order:
   * the positions the absentee filter keeps.
   */
  function AbsentIndices(n: nat, attendance: seq<Status>): (ix: seq<nat>)
    ensures forall k :: 0 <= k < |ix| ==> ix[k] < n && !PresentAt(attendance, ix[k])
    ensures forall k, l :: 0 <= k < l < |ix| ==> ix[k] < ix[l]
    ensures forall i {:trigger i in ix} :: 0 <= i < n && !PresentAt(attendance, i) ==> i in ix
    decreases n
  {
    if n == 0 then []
    else AbsentIndices(n - 1, attendance) + (if PresentAt(attendance, n - 1) then [] else [n - 1])
  }

  /** One entry of the submitted absentee list. */
  datatype AbsenteeItem = Absentee(name: string, rollno: string) | AllPresentMarker

  /** The record handed to both stores on submission. */
  datatype AttendanceRecord = AttendanceRecord(date: string, absentees: seq<AbsenteeItem>, attendancePercentage: real)

  /**
   * The absentee list: `{name, rollno}` for every student whose slot is not
   * Present, in class order, or the single marker when nobody is absent.
   */
  function AbsenteeList(students: seq<Student>, attendance: seq<Status>): (r: seq<AbsenteeItem>)
    ensures r == [AllPresentMarker] <==> forall i :: 0 <= i < |students| ==> PresentAt(attendance, i)
    ensures r != [AllPresentMarker] ==>
      var ix := AbsentIndices(|students|, attendance);
      && |r| == |ix|
      && forall k :: 0 <= k < |r| ==> r[k] == Absentee(students[ix[k]].name, students[ix[k]].id)
  {
    var ix := AbsentIndices(|students|, attendance);
    var listed := seq(|ix|, k requires 0 <= k < |ix| => Absentee(students[ix[k]].name, students[ix[k]].id));
    if |listed| == 0 then
      NoAbsenteesAllPresent(|students|, attendance);
      [AllPresentMarker]
    else
      assert listed[0].Absentee? && !PresentAt(attendance, ix[0]);
      listed
  }

  /** An empty absentee list means every class position below n holds Present. */
  lemma NoAbsenteesAllPresent(n: nat, attendance: seq<Status>)
    requires |AbsentIndices(n, attendance)| == 0
    ensures forall i :: 0 <= i < n ==> PresentAt(attendance, i)
  {
    forall i | 0 <= i < n
      ensures PresentAt(attendance, i)
    {
      assert !PresentAt(attendance, i) ==> i in AbsentIndices(n, attendance);
    }
  }

  /** The percentage present, before its formatting to two decimals. */
  function Percentage(presentCount: nat, total: nat): (pct: real)
    requires total > 0
    ensures pct * total as real == presentCount as real * 100.0
    ensures pct >= 0.0
  {
    presentCount as real / total as real * 100.0
  }

  /** A percentage of a part of the class lies between 0 and 100. */
  lemma PercentageBounds(presentCount: nat, total: nat)
    requires 0 < total && presentCount <= total
    ensures 0.0 <= Percentage(presentCount, total) <= 100.0
    ensures Percentage(presentCount, total) == 100.0 <==> presentCount == total
  {
    if presentCount == total {
      var t := total as real;
      assert t / t == 1.0;
    }
  }

  /**
   * On a roll no longer than the class list, the Present slots and the
   * absentees partition the class.
   */
  lemma {:induction false} PresentAndAbsentPartition(attendance: seq<Status>, n: nat)
    requires |attendance| <= n
    ensures PresentCount(attendance) + |AbsentIndices(n, attendance)| == n
    decreases n
  {
    if n == 0 {
      assert attendance == [];
    } else if n > |attendance| {
      PresentAndAbsentPartition(attendance, n - 1);
      PartitionPastEnd(attendance, n);
    } else {
      var earlier := attendance[..n - 1];
      PresentAndAbsentPartition(earlier, n - 1);
      PartitionLastSlot(attendance, earlier);
    }
  }

  /** Partition step for a class position past the roll's end: it is an absentee. */
  lemma PartitionPastEnd(attendance: seq<Status>, n: nat)
    requires |attendance| < n
    requires PresentCount(attendance) + |AbsentIndices(n - 1, attendance)| == n - 1
    ensures PresentCount(attendance) + |AbsentIndices(n, attendance)| == n
  {
    AbsentIndicesLast(attendance, n);
  }

  /** Partition step for the roll's last slot: it is counted present or listed absent. */
  lemma PartitionLastSlot(attendance: seq<Status>, earlier: seq<Status>)
    requires |attendance| > 0 && earlier == attendance[..|attendance| - 1]
    requires PresentCount(earlier) + |AbsentIndices(|earlier|, earlier)| == |earlier|
    ensures PresentCount(attendance) + |AbsentIndices(|attendance|, attendance)| == |attendance|
  {
    var m := |attendance| - 1;
    AbsentIndicesOfPrefix(attendance, m);
    AbsentIndicesLast(attendance, m + 1);
    PresentCountLast(attendance);
    var p := if attendance[m] == Present then 1 else 0;
    var q := if PresentAt(attendance, m) then 0 else 1;
    assert p + q == 1;
    calc {
      PresentCount(attendance) + |AbsentIndices(|attendance|, attendance)|;
      PresentCount(earlier) + p + (|AbsentIndices(m, attendance)| + q);
      PresentCount(earlier) + |AbsentIndices(|earlier|, earlier)| + 1;
      |attendance|;
    }
  }

  /** One unfolding of AbsentIndices: position n - 1 joins the list when its slot is not Present. */
  lemma AbsentIndicesLast(attendance: seq<Status>, n: nat)
    requires n > 0
    ensures |AbsentIndices(n, attendance)| ==
              |AbsentIndices(n - 1, attendance)| + (if PresentAt(attendance, n - 1) then 0 else 1)
  {
  }

  /** One unfolding of PresentCount: the last slot adds one when it is Present. */
  lemma PresentCountLast(attendance: seq<Status>)
    requires |attendance| > 0
    ensures PresentCount(attendance) ==
              PresentCount(attendance[..|attendance| - 1]) + (if attendance[|attendance| - 1] == Present then 1 else 0)
  {
  }

  /** The absentee positions below m are those of the roll's first m slots. */
  lemma AbsentIndicesOfPrefix(attendance: seq<Status>, m: nat)
    requires m <= |attendance|
    ensures AbsentIndices(m, attendance[..m]) == AbsentIndices(m, attendance)
  {
    var earlier := attendance[..m];
    forall i | 0 <= i < m
      ensures PresentAt(attendance, i) == PresentAt(earlier, i)
    {
      assert earlier[i] == attendance[i];
    }
    AbsentIndicesAgree(attendance, earlier, m);
  }

  /** The absentee positions below n depend only on which of those slots are Present. */
  lemma {:induction false} AbsentIndicesAgree(a1: seq<Status>, a2: seq<Status>, n: nat)
    requires forall i :: 0 <= i < n ==> PresentAt(a1, i) == PresentAt(a2, i)
    ensures AbsentIndices(n, a1) == AbsentIndices(n, a2)
    decreases n
  {
    if n > 0 {
      AbsentIndicesAgree(a1, a2, n - 1);
    }
  }

  /**
   * handleAttendance: the record submitted for the date. On a roll no longer
   * than the class list the percentage lies between 0 and 100, and it is 100
   * exactly when the absentee list is the "All Present" marker.
   */
  function HandleAttendance(students: seq<Student>, attendance: seq<Status>, date: string): (rec: AttendanceRecord)
    requires |students| > 0
    ensures rec.date == date
    ensures rec.absentees == AbsenteeList(students, attendance)
    ensures rec.attendancePercentage == Percentage(PresentCount(attendance), |students|)
    ensures |attendance| <= |students| ==> 0.0 <= rec.attendancePercentage <= 100.0
    ensures |attendance| <= |students| ==>
      (rec.attendancePercentage == 100.0 <==> rec.absentees == [AllPresentMarker])
  {
    var presentCount := PresentCount(attendance);
    var total := |students|;
    var rec := AttendanceRecord(date, AbsenteeList(students, attendance), Percentage(presentCount, total));
    if |attendance| <= total then
      PresentAndAbsentPartition(attendance, total);
      PercentageBounds(presentCount, total);
      var ix := AbsentIndices(total, attendance);
      assert |ix| > 0 ==> !PresentAt(attendance, ix[0]);
      assert (rec.absentees == [AllPresentMarker]) == (|ix| == 0);
      rec
    else
      rec
  }

  /** handleAllPresent: one Present slot per student of the class list. */
  function HandleAllPresent(students: seq<Student>): (roll: seq<Status>)
    ensures |roll| == |students|
    ensures PresentCount(roll) == |students|
  {
    seq(|students|, _ => Present)
  }

  /** handleClearAttendance: the empty roll. */
  function HandleClearAttendance(): (roll: seq<Status>)
    ensures |roll| == 0
  {
    []
  }

  /** After "All Present" the class is at 100 percent and the absentees are the marker alone. */
  lemma AllPresentSummary(students: seq<Student>, date: string)
    requires |students| > 0
    ensures HandleAttendance(students, HandleAllPresent(students), date).attendancePercentage == 100.0
    ensures HandleAttendance(students, HandleAllPresent(students), date).absentees == [AllPresentMarker]
  {
  }

  /** With no slot Present, every position below n is an absentee position. */
  lemma {:induction false} AbsentIndicesOfEmptyRoll(n: nat)
    ensures AbsentIndices(n, []) == seq(n, i => i)
    decreases n
  {
    if n > 0 {
      AbsentIndicesOfEmptyRoll(n - 1);
    }
  }

  /** After "Clear All" the class is at 0 percent and every student is listed absent, in class order. */
  lemma ClearSummary(students: seq<Student>, date: string)
    requires |students| > 0
    ensures HandleAttendance(students, HandleClearAttendance(), date).attendancePercentage == 0.0
    ensures HandleAttendance(students, HandleClearAttendance(), date).absentees ==
              seq(|students|, i requires 0 <= i < |students| => Absentee(students[i].name, students[i].id))
  {
    AbsentIndicesOfEmptyRoll(|students|);
  }

  /**
   * The roll after handleRadioChange(index, value): slot `index` holds
   * `value`; a roll too short for it is first extended with never-written
   * slots; every other slot keeps its value.
   */
  function WithMark(attendance: seq<Status>, index: nat, value: Status): (updated: seq<Status>)
    ensures |updated| == if index < |attendance| then |attendance| else index + 1
    ensures updated[index] == value
    ensures forall j :: 0 <= j < |updated| && j != index ==>
              updated[j] == if j < |attendance| then attendance[j] else Unmarked
  {
    if index < |attendance| then attendance[index := value]
    else attendance + seq(index - |attendance|, _ => Unmarked) + [value]
  }

  /** handleRadioChange: copy the roll into a fresh array and assign one slot. */
  method HandleRadioChange(attendance: seq<Status>, index: nat, value: Status) returns (updated: seq<Status>)
    ensures updated == WithMark(attendance, index, value)
  {
    var size := if index < |attendance| then |attendance| else index + 1;
    var updatedAttendance := new Status[size](j => if 0 <= j < |attendance| then attendance[j] else Unmarked);
    updatedAttendance[index] := value;
    updated := updatedAttendance[..];
  }

  lemma {:induction false} PresentCountAppend(attendance: seq<Status>, s: Status)
    ensures PresentCount(attendance + [s]) == PresentCount(attendance) + (if s == Present then 1 else 0)
  {
    assert (attendance + [s])[..|attendance|] == attendance;
  }

  lemma {:induction false} PresentCountUnmarkedTail(attendance: seq<Status>, k: nat)
    ensures PresentCount(attendance + seq(k, _ => Unmarked)) == PresentCount(attendance)
    decreases k
  {
    if k == 0 {
      assert attendance + seq(k, _ => Unmarked) == attendance;
    } else {
      var tail := seq(k, _ => Unmarked);
      assert attendance + tail == (attendance + seq(k - 1, _ => Unmarked)) + [Unmarked];
      PresentCountUnmarkedTail(attendance, k - 1);
      PresentCountAppend(attendance + seq(k - 1, _ => Unmarked), Unmarked);
    }
  }

  lemma {:induction false} PresentCountUpdate(attendance: seq<Status>, index: nat, value: Status)
    requires index < |attendance|
    ensures PresentCount(attendance[index := value]) ==
              PresentCount(attendance) - (if attendance[index] == Present then 1 else 0) + (if value == Present then 1 else 0)
    decreases |attendance|
  {
    var m := |attendance| - 1;
    if index < m {
      PresentCountUpdate(attendance[..m], index, value);
      UpdateBeforeLastSlot(attendance, index, value);
    } else {
      UpdateLastSlot(attendance, value);
    }
  }

  /** Updating a slot before the last one: the last slot's contribution is unchanged. */
  lemma UpdateBeforeLastSlot(attendance: seq<Status>, index: nat, value: Status)
    requires index < |attendance| - 1
    requires PresentCount(attendance[..|attendance| - 1][index := value]) ==
              PresentCount(attendance[..|attendance| - 1]) - (if attendance[index] == Present then 1 else 0) + (if value == Present then 1 else 0)
    ensures PresentCount(attendance[index := value]) ==
              PresentCount(attendance) - (if attendance[index] == Present then 1 else 0) + (if value == Present then 1 else 0)
  {
    var m := |attendance| - 1;
    var updated := attendance[index := value];
    PresentCountLast(attendance);
    PresentCountLast(updated);
    assert updated[..m] == attendance[..m][index := value];
  }

  /** Updating the last slot: only its own contribution changes. */
  lemma UpdateLastSlot(attendance: seq<Status>, value: Status)
    requires |attendance| > 0
    ensures PresentCount(attendance[|attendance| - 1 := value]) ==
              PresentCount(attendance) - (if attendance[|attendance| - 1] == Present then 1 else 0) + (if value == Present then 1 else 0)
  {
    var m := |attendance| - 1;
    var updated := attendance[m := value];
    PresentCountLast(attendance);
    PresentCountLast(updated);
    assert updated[..m] == attendance[..m];
  }

  /**
   * A radio change moves the present count by at most one: it loses the
   * slot's old Present, if any, and gains the new one, if any.
   */
  lemma RadioChangePresentCount(attendance: seq<Status>, index: nat, value: Status)
    ensures PresentCount(WithMark(attendance, index, value)) ==
              PresentCount(attendance) - (if PresentAt(attendance, index) then 1 else 0) + (if value == Present then 1 else 0)
  {
    if index < |attendance| {
      PresentCountUpdate(attendance, index, value);
    } else {
      PresentCountUnmarkedTail(attendance, index - |attendance|);
      PresentCountAppend(attendance + seq(index - |attendance|, _ => Unmarked), value);
    }
  }
}
