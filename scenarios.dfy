/**
 * End-to-end runs of the photo flow followed by submission, on a two-student
 * class whose enrolled descriptors are far apart.
 */
module Scenarios {
  import opened AttendanceTypes
  import opened Distance
  import opened Matcher
  import opened Roll
  import opened Summary

  const Class: seq<Student> := [Student("1", "A"), Student("2", "B")]
  const Faces: seq<Enrolled> := [Enrolled("1", "A", [0.0, 0.0]), Enrolled("2", "B", [10.0, 10.0])]

  /** A face close to A's descriptor (distance about 0.14) marks A present and leaves B absent. */
  lemma FaceNearFirstStudent()
    ensures AllComparable([[0.1, 0.1]], Faces)
    ensures Reconcile(true, true, Class, [[0.1, 0.1]], Faces) == Success([Present, Absent])
  {
    var d: Descriptor := [0.1, 0.1];
    assert SqDist(d, Faces[0].faceDescriptor) == 0.02;
    assert SqDist(d, Faces[1].faceDescriptor) == 196.02;
    assert Best(d, Faces) == Some(0);
    assert Match(d, Faces, DefaultThreshold) == Some(0);
    assert MatchedIndex(Class, Faces, d, DefaultThreshold) == 0;
    assert MarkedRoll(Class, Faces, [d], DefaultThreshold) == [Present, Absent];
  }

  /** Submitting that roll records 50 percent with B as the one absentee. */
  lemma HalfPresentSubmission(date: string)
    ensures HandleAttendance(Class, [Present, Absent], date) == AttendanceRecord(date, [Absentee("B", "2")], 50.0)
  {
    assert AbsentIndices(2, [Present, Absent]) == [1];
    assert PresentCount([Present, Absent]) == 1;
  }

  /** A face far from every descriptor matches nobody: the roll is all absent. */
  lemma FaceNearNobody(date: string)
    ensures AllComparable([[5.0, 5.0]], Faces)
    ensures Reconcile(true, true, Class, [[5.0, 5.0]], Faces) == Success([Absent, Absent])
    ensures HandleAttendance(Class, [Absent, Absent], date).attendancePercentage == 0.0
  {
    var d: Descriptor := [5.0, 5.0];
    assert SqDist(d, Faces[0].faceDescriptor) == 50.0;
    assert SqDist(d, Faces[1].faceDescriptor) == 50.0;
    assert Match(d, Faces, DefaultThreshold) == None;
    assert MarkedRoll(Class, Faces, [d], DefaultThreshold) == [Absent, Absent];
  }
}
