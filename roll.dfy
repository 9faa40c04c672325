/**
 * The automatic roll built from a group photo (handleFaceBasedAttendance):
 * the guards that abandon the run, and the roll that starts all Absent and
 * marks Present the class-list position of every detected face's match.
 * The class list (what the page displays) and the face roster (what the
 * faces are matched against) are separate inputs, joined by student id.
 */
module Roll {
  import opened AttendanceTypes
  import opened Matcher

  /** Array.prototype.findIndex on the class list by id: the first position holding `id`, or -1. */
  function IndexOfId(students: seq<Student>, id: string): (r: int)
    ensures -1 <= r < |students|
    ensures r == -1 <==> forall j :: 0 <= j < |students| ==> students[j].id != id
    ensures 0 <= r ==> students[r].id == id && forall j :: 0 <= j < r ==> students[j].id != id
    decreases |students|
  {
    if |students| == 0 then -1
    else if students[0].id == id then 0
    else
      var r := IndexOfId(students[1..], id);
      if r == -1 then -1 else r + 1
  }

  /** Every detected descriptor is comparable with the roster. */
  predicate AllComparable(detections: seq<Descriptor>, roster: seq<Enrolled>)
  {
    forall t :: 0 <= t < |detections| ==> Comparable(detections[t], roster)
  }

  /**
   * The class-list position one detected face marks Present: the position of
   * its match's id, or -1 when it has no match or the match's id is not in
   * the class list.
   */
  function MatchedIndex(students: seq<Student>, roster: seq<Enrolled>, d: Descriptor, threshold: real): (r: int)
    requires Comparable(d, roster)
    ensures -1 <= r < |students|
    ensures r == -1 <==>
      || Match(d, roster, threshold).None?
      || forall j :: 0 <= j < |students| ==> students[j].id != roster[Match(d, roster, threshold).value].id
    ensures r != -1 ==>
      && Match(d, roster, threshold).Some?
      && students[r].id == roster[Match(d, roster, threshold).value].id
      && forall j :: 0 <= j < r ==> students[j].id != students[r].id
  {
    match Match(d, roster, threshold)
    case None => -1
    case Some(k) => IndexOfId(students, roster[k].id)
  }

  /** The roll after processing the detections in order, starting from all Absent. */
  function MarkedRoll(students: seq<Student>, roster: seq<Enrolled>, detections: seq<Descriptor>, threshold: real): (roll: seq<Status>)
    requires AllComparable(detections, roster)
    ensures |roll| == |students|
    decreases |detections|
  {
    if |detections| == 0 then seq(|students|, _ => Absent)
    else
      var n := |detections| - 1;
      var prev := MarkedRoll(students, roster, detections[..n], threshold);
      var idx := MatchedIndex(students, roster, detections[n], threshold);
      if idx == -1 then prev else prev[idx := Present]
  }

  /** Some detected face matches the student at class-list position i. */
  ghost predicate MatchedBySome(students: seq<Student>, roster: seq<Enrolled>, detections: seq<Descriptor>, threshold: real, i: int)
    requires AllComparable(detections, roster)
  {
    exists t :: 0 <= t < |detections| && MatchedIndex(students, roster, detections[t], threshold) == i
  }

  lemma MatchedBySomeLast(students: seq<Student>, roster: seq<Enrolled>, detections: seq<Descriptor>, threshold: real, i: int)
    requires AllComparable(detections, roster) && |detections| > 0
    ensures AllComparable(detections[..|detections| - 1], roster)
    ensures MatchedBySome(students, roster, detections, threshold, i) <==>
      || MatchedBySome(students, roster, detections[..|detections| - 1], threshold, i)
      || MatchedIndex(students, roster, detections[|detections| - 1], threshold) == i
  {
    MatchedBySomeSplit(students, roster, detections, threshold, i);
    MatchedBySomeExtend(students, roster, detections, threshold, i);
  }

  /** A position some face marks is marked by an earlier face or by the last one. */
  lemma MatchedBySomeSplit(students: seq<Student>, roster: seq<Enrolled>, detections: seq<Descriptor>, threshold: real, i: int)
    requires AllComparable(detections, roster) && |detections| > 0
    ensures AllComparable(detections[..|detections| - 1], roster)
    ensures MatchedBySome(students, roster, detections, threshold, i) ==>
      || MatchedBySome(students, roster, detections[..|detections| - 1], threshold, i)
      || MatchedIndex(students, roster, detections[|detections| - 1], threshold) == i
  {
    var n := |detections| - 1;
    var earlier := detections[..n];
    if MatchedBySome(students, roster, detections, threshold, i) {
      var t :| 0 <= t < |detections| && MatchedIndex(students, roster, detections[t], threshold) == i;
      if t < n {
        assert earlier[t] == detections[t];
        assert MatchedIndex(students, roster, earlier[t], threshold) == i;
      } else {
        assert detections[t] == detections[n];
      }
    }
  }

  /** A position an earlier face or the last face marks is marked by some face. */
  lemma MatchedBySomeExtend(students: seq<Student>, roster: seq<Enrolled>, detections: seq<Descriptor>, threshold: real, i: int)
    requires AllComparable(detections, roster) && |detections| > 0
    ensures AllComparable(detections[..|detections| - 1], roster)
    ensures
      || MatchedBySome(students, roster, detections[..|detections| - 1], threshold, i)
      || MatchedIndex(students, roster, detections[|detections| - 1], threshold) == i
      ==> MatchedBySome(students, roster, detections, threshold, i)
  {
    var n := |detections| - 1;
    var earlier := detections[..n];
    if MatchedBySome(students, roster, earlier, threshold, i) {
      var t :| 0 <= t < n && MatchedIndex(students, roster, earlier[t], threshold) == i;
      assert detections[t] == earlier[t];
    }
  }

  /**
   * Completeness of the automatic roll: every position of the class list is
   * Present or Absent, and Present exactly when some detected face matches
   * the student at that position.
   */
  lemma {:induction false} MarkedRollPresentIff(students: seq<Student>, roster: seq<Enrolled>, detections: seq<Descriptor>, threshold: real)
    requires AllComparable(detections, roster)
    ensures forall i :: 0 <= i < |students| ==>
      (MarkedRoll(students, roster, detections, threshold)[i] == Present <==>
         MatchedBySome(students, roster, detections, threshold, i))
    ensures forall i :: 0 <= i < |students| ==>
      MarkedRoll(students, roster, detections, threshold)[i] != Unmarked
    decreases |detections|
  {
    if |detections| > 0 {
      var n := |detections| - 1;
      MarkedRollPresentIff(students, roster, detections[..n], threshold);
      forall i | 0 <= i < |students|
        ensures MarkedRoll(students, roster, detections, threshold)[i] == Present <==>
                MatchedBySome(students, roster, detections, threshold, i)
      {
        MatchedBySomeLast(students, roster, detections, threshold, i);
      }
    }
  }

  /**
   * A further face whose match lands on a student an earlier face already
   * marked (or on nobody) changes nothing: marking a student twice is a no-op.
   */
  lemma RepeatedDetectionIsNoOp(students: seq<Student>, roster: seq<Enrolled>, detections: seq<Descriptor>, d: Descriptor, threshold: real)
    requires AllComparable(detections, roster)
    requires Comparable(d, roster)
    requires MatchedIndex(students, roster, d, threshold) == -1 ||
      exists t :: 0 <= t < |detections| && MatchedIndex(students, roster, detections[t], threshold) == MatchedIndex(students, roster, d, threshold)
    ensures AllComparable(detections + [d], roster)
    ensures MarkedRoll(students, roster, detections + [d], threshold) == MarkedRoll(students, roster, detections, threshold)
  {
    var more := detections + [d];
    assert more[..|detections|] == detections;
    var idx := MatchedIndex(students, roster, d, threshold);
    if idx != -1 {
      MarkedRollPresentIff(students, roster, detections, threshold);
    }
  }

  /**
   * The roll depends only on which faces were detected, not on their order
   * or repetition.
   */
  lemma DetectionOrderIrrelevant(students: seq<Student>, roster: seq<Enrolled>, ds1: seq<Descriptor>, ds2: seq<Descriptor>, threshold: real)
    requires AllComparable(ds1, roster) && AllComparable(ds2, roster)
    requires forall d :: d in ds1 <==> d in ds2
    ensures MarkedRoll(students, roster, ds1, threshold) == MarkedRoll(students, roster, ds2, threshold)
  {
    MarkedRollPresentIff(students, roster, ds1, threshold);
    MarkedRollPresentIff(students, roster, ds2, threshold);
    var r1 := MarkedRoll(students, roster, ds1, threshold);
    var r2 := MarkedRoll(students, roster, ds2, threshold);
    forall i | 0 <= i < |students|
      ensures r1[i] == r2[i]
    {
      MatchedBySomeSubset(students, roster, ds1, ds2, threshold, i);
      MatchedBySomeSubset(students, roster, ds2, ds1, threshold, i);
    }
  }

  /** A face list containing every face of another matches every position the other matches. */
  lemma MatchedBySomeSubset(students: seq<Student>, roster: seq<Enrolled>, ds1: seq<Descriptor>, ds2: seq<Descriptor>, threshold: real, i: int)
    requires AllComparable(ds1, roster) && AllComparable(ds2, roster)
    requires forall d :: d in ds1 ==> d in ds2
    ensures MatchedBySome(students, roster, ds1, threshold, i) ==> MatchedBySome(students, roster, ds2, threshold, i)
  {
    if MatchedBySome(students, roster, ds1, threshold, i) {
      var t :| 0 <= t < |ds1| && MatchedIndex(students, roster, ds1[t], threshold) == i;
      assert ds1[t] in ds2;
      var u :| 0 <= u < |ds2| && ds2[u] == ds1[t];
      assert MatchedIndex(students, roster, ds2[u], threshold) == i;
    }
  }

  /** Why a photo-based run stops without producing a roll. */
  datatype FaceAttendanceError = ModelsNotLoaded | NoGroupPhoto | NoStudents | NoFacesDetected

  /**
   * The photo-based run as a value: the guards in the page's order, then the
   * automatic roll under the default threshold.
   */
  function Reconcile(modelsLoaded: bool, photoUploaded: bool, students: seq<Student>,
                     detections: seq<Descriptor>, roster: seq<Enrolled>): (r: Result<seq<Status>, FaceAttendanceError>)
    requires AllComparable(detections, roster)
    ensures !modelsLoaded ==> r == Failure(ModelsNotLoaded)
    ensures modelsLoaded && !photoUploaded ==> r == Failure(NoGroupPhoto)
    ensures modelsLoaded && photoUploaded && |students| == 0 ==> r == Failure(NoStudents)
    ensures modelsLoaded && photoUploaded && |students| > 0 && |detections| == 0 ==> r == Failure(NoFacesDetected)
    ensures r.Success? <==> modelsLoaded && photoUploaded && |students| > 0 && |detections| > 0
    ensures r.Success? ==> |r.value| == |students|
    ensures r.Success? ==> forall i :: 0 <= i < |students| ==>
      && r.value[i] != Unmarked
      && (r.value[i] == Present <==>
            exists t :: 0 <= t < |detections| && MatchedIndex(students, roster, detections[t], DefaultThreshold) == i)
  {
    if !modelsLoaded then Failure(ModelsNotLoaded)
    else if !photoUploaded then Failure(NoGroupPhoto)
    else if |students| == 0 then Failure(NoStudents)
    else if |detections| == 0 then Failure(NoFacesDetected)
    else
      MarkedRollPresentIff(students, roster, detections, DefaultThreshold);
      Success(MarkedRoll(students, roster, detections, DefaultThreshold))
  }

  /**
   * handleFaceBasedAttendance after face detection: the guards, then an
   * array filled with Absent that each detected face's match marks Present
   * in place.
   */
  method HandleFaceBasedAttendance(modelsLoaded: bool, photoUploaded: bool, students: seq<Student>,
                                   detections: seq<Descriptor>, roster: seq<Enrolled>)
    returns (r: Result<seq<Status>, FaceAttendanceError>)
    requires AllComparable(detections, roster)
    ensures r == Reconcile(modelsLoaded, photoUploaded, students, detections, roster)
  {
    if !modelsLoaded {
      return Failure(ModelsNotLoaded);
    }
    if !photoUploaded {
      return Failure(NoGroupPhoto);
    }
    if |students| == 0 {
      return Failure(NoStudents);
    }
    if |detections| == 0 {
      return Failure(NoFacesDetected);
    }
    var autoAttendance := new Status[|students|](_ => Absent);
    var t := 0;
    while t < |detections|
      invariant 0 <= t <= |detections|
      invariant autoAttendance[..] == MarkedRoll(students, roster, detections[..t], DefaultThreshold)
    {
      assert detections[..t + 1][..t] == detections[..t];
      var matched := FindBestMatch(detections[t], roster, DefaultThreshold);
      if matched.Some? {
        var idx := IndexOfId(students, roster[matched.value].id);
        if idx != -1 {
          autoAttendance[idx] := Present;
        }
      }
      t := t + 1;
    }
    assert detections[..t] == detections;
    r := Success(autoAttendance[..]);
  }
}
