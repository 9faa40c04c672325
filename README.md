# Photo-based attendance: a Dafny model

This project models the attendance logic of the teacher's Attendance page
(`src/Features/Teachers/Attendance/Attendance.js`). The page:

- compares the face descriptors found in a group photo with the descriptors
  enrolled for the class;
- marks the nearest enrolled student within the distance threshold (0.6)
  present on a roll that starts all absent;
- lets the teacher edit that roll one slot at a time, mark everyone present or
  clear it;
- on submission, builds a record with the percentage present and the
  absentees in class order, or the single marker "All Present".

Modules, one per component:

- `AttendanceTypes` (`types.dfy`): descriptors as `seq<real>`; a class-list row
  `Student(id, name)`; a roster record `Enrolled(id, name, faceDescriptor)`;
  the roll slot `Status = Present | Absent | Unmarked`; `Option` and `Result`.
- `Distance` (`distance.dfy`): the squared Euclidean distance. There is a
  specification function `SqDist` and the accumulating loop
  `SquaredDistance`. The threshold test `Within` works on squares.
- `Matcher` (`matcher.dfy`): `findBestMatch`. `Best` is the scan, with its
  first-wins tie-break. `Match` adds the inclusive threshold test.
  `FindBestMatch` is the loop.
- `Roll` (`roll.dfy`): the automatic roll and the guards of
  `handleFaceBasedAttendance`. `MarkedRoll` specifies the roll, `Reconcile`
  is the guarded run as a value, and `HandleFaceBasedAttendance` fills an
  array in place.
- `Summary` (`summary.dfy`): `handleRadioChange`, `handleAllPresent`,
  `handleClearAttendance` and `handleAttendance`.
- `Scenarios` (`scenarios.dfy`): concrete runs on a two-student class.

Modelling choices:

- Distances are compared squared. The square root is monotone, and for a
  distance `d >= 0`, `d <= t` holds exactly when `t >= 0 && d*d <= t*t`. So
  the argmin and the threshold decision are unchanged, for negative
  thresholds as well.
- The class list (`students`, the rows shown and indexed) and the face roster
  (`parallelStudents`, the records matched against) are separate inputs. They
  are joined by `id` through `findIndex` (`IndexOfId`).
- `findBestMatch` returns the roster record in the source. Here it returns
  that record's index in the roster, which also identifies the tie-break
  winner.
- A hole left when one slot is assigned past the roll's end is `Unmarked`.
  Positions past the end of a shorter roll (such as the empty roll after
  "Clear All") are not stored at all; `PresentAt` reads them as not Present.
  The filters treat both as not Present, as the source's `!== 'Present'`
  does.
- The photo flow always uses the default threshold 0.6, as the page does.
  `Match` and `FindBestMatch` take the threshold as a parameter.

Further notes on the code:

- The "no students" guard (Attendance.js:132) tests the displayed class
  list, not the roster with descriptors. An empty or descriptor-less roster
  is not an error; it yields an all-absent roll.
- `euclideanDistance` runs over the detected descriptor's length
  (Attendance.js:96, with the detected descriptor as `a` at line 108). A
  longer stored descriptor is compared on that prefix only; a shorter one
  gives NaN, and since `NaN < bestDistance` is false (line 109) that
  candidate is silently never chosen. Neither case is reported as an error.
  The model requires every stored descriptor to have the detected length
  (`Comparable`).
- The roll is positional: slot `i` belongs to row `i` of the class list, not
  to an id.

## Model

| member | source | states |
|---|---|---|
| Distance.SqDist | src/Features/Teachers/Attendance/Attendance.js:94-101 | the squared distance between two equal-length descriptors is never negative |
| Distance.SquaredDistance | src/Features/Teachers/Attendance/Attendance.js:94-99 | the loop that accumulates squared component differences ends with exactly the squared distance |
| Distance.SqDistSymmetric | src/Features/Teachers/Attendance/Attendance.js:94-101 | the distance does not depend on the order of its two arguments |
| Distance.SqDistSelf | src/Features/Teachers/Attendance/Attendance.js:94-101 | a descriptor is at distance zero from itself |
| Matcher.Best | src/Features/Teachers/Attendance/Attendance.js:103-113 | the scan finds nothing exactly when no candidate has a non-empty descriptor; otherwise it finds a candidate with a descriptor that is no farther than any other candidate with a descriptor, and every earlier such candidate is strictly farther (first wins ties) |
| Matcher.Match | src/Features/Teachers/Attendance/Attendance.js:103-118 | no match exactly when no candidate with a descriptor lies within the threshold (distance at most the threshold, so the bound itself is accepted); a match is the first nearest candidate and lies within the threshold |
| Matcher.FindBestMatch | src/Features/Teachers/Attendance/Attendance.js:103-118 | the loop with its running best and strict `<` returns exactly the match specified by Match |
| Matcher.ThresholdBoundaryAccepted | src/Features/Teachers/Attendance/Attendance.js:114-117 | a candidate at exactly the threshold distance guarantees a match, and the matched candidate is no farther than it |
| Roll.IndexOfId | src/Features/Teachers/Attendance/Attendance.js:166-167 | findIndex gives -1 exactly when no row has the id; otherwise the first row that has it |
| Roll.MatchedIndex | src/Features/Teachers/Attendance/Attendance.js:163-167 | one detected face marks nothing (-1) exactly when it has no match or its match's id is in no row of the class list; otherwise it marks the first row holding the matched roster record's id |
| Roll.MarkedRoll | src/Features/Teachers/Attendance/Attendance.js:159 | the automatic roll has exactly one slot per row of the class list, whatever the detections |
| Roll.MarkedRollPresentIff | src/Features/Teachers/Attendance/Attendance.js:159-171 | every slot of the automatic roll is Present or Absent, and Present exactly when some detected face's match has the id first found at that row; matches whose id is not in the class list mark nothing |
| Roll.RepeatedDetectionIsNoOp | src/Features/Teachers/Attendance/Attendance.js:161-171 | a further face, different or not, whose match lands on a student an earlier face already marked, or on nobody, leaves the roll unchanged (writing Present twice is a no-op) |
| Roll.DetectionOrderIrrelevant | src/Features/Teachers/Attendance/Attendance.js:161-171 | two detection lists with the same faces, in any order or multiplicity, give the same roll |
| Roll.Reconcile | src/Features/Teachers/Attendance/Attendance.js:124-149 | the run fails with models-not-loaded, no-photo, no-students or no-faces in that order of precedence, and only then; otherwise it gives a roll with one slot per student, each Present or Absent, Present exactly when some face matches that row |
| Roll.HandleFaceBasedAttendance | src/Features/Teachers/Attendance/Attendance.js:120-173 | the guards followed by the in-place marking loop over an all-Absent array produce exactly the outcome Reconcile specifies |
| Summary.PresentCount | src/Features/Teachers/Attendance/Attendance.js:196-198 | the present count is at most the roll's length, zero exactly when no slot is Present, and the full length exactly when every slot is Present |
| Summary.AbsentIndices | src/Features/Teachers/Attendance/Attendance.js:205-207 | the absentee positions are strictly increasing, each is a class position whose slot is not Present (including positions past the roll's end), and every such position is among them |
| Summary.AbsenteeList | src/Features/Teachers/Attendance/Attendance.js:205-214 | the list is the single "All Present" marker exactly when every student's slot is Present; otherwise it holds `{name, rollno: id}` of the absentee positions, in class order |
| Summary.Percentage | src/Features/Teachers/Attendance/Attendance.js:199-200 | the percentage, before its two-decimal formatting, is non-negative and is the present count over the class size times 100 (percentage times class size equals present count times 100) |
| Summary.PercentageBounds | src/Features/Teachers/Attendance/Attendance.js:199-202 | a present count of at most the class size gives a percentage between 0 and 100, and 100 exactly when everyone is counted |
| Summary.PresentAndAbsentPartition | src/Features/Teachers/Attendance/Attendance.js:196-207 | on a roll no longer than the class, the present count and the number of absentees add up to the class size |
| Summary.HandleAttendance | src/Features/Teachers/Attendance/Attendance.js:194-221 | the record carries the date, the absentee list and presentCount / total * 100; on a roll no longer than the class the percentage is within 0 to 100, and it is 100 exactly when the absentees are the marker |
| Summary.HandleAllPresent | src/Features/Teachers/Attendance/Attendance.js:188-191 | "All Present" gives a roll with one slot per student in which every slot is counted present |
| Summary.AllPresentSummary | src/Features/Teachers/Attendance/Attendance.js:188-191 | after "All Present" the submitted percentage is 100 and the absentees are the marker alone |
| Summary.HandleClearAttendance | src/Features/Teachers/Attendance/Attendance.js:183-185 | "Clear All" leaves an empty roll, so every slot reads as never written |
| Summary.ClearSummary | src/Features/Teachers/Attendance/Attendance.js:183-185 | after "Clear All" the submitted percentage is 0 and every student is listed absent, in class order |
| Summary.WithMark | src/Features/Teachers/Attendance/Attendance.js:82-86 | after a radio change the slot at the index holds the chosen value, the roll is extended with never-written slots when it was too short, and every other slot is unchanged |
| Summary.HandleRadioChange | src/Features/Teachers/Attendance/Attendance.js:82-86 | copying the roll into a new array and assigning one slot yields exactly WithMark |
| Summary.RadioChangePresentCount | src/Features/Teachers/Attendance/Attendance.js:82-86 | a radio change moves the present count by removing the slot's old Present, if any, and adding the new one, if any |
| Scenarios.FaceNearFirstStudent | src/Features/Teachers/Attendance/Attendance.js:159-171 | a face at distance about 0.14 from A and about 14 from B marks A present and B absent |
| Scenarios.HalfPresentSubmission | src/Features/Teachers/Attendance/Attendance.js:194-214 | submitting the roll Present, Absent records 50 percent with B as the only absentee |
| Scenarios.FaceNearNobody | src/Features/Teachers/Attendance/Attendance.js:114-117 | a face farther than the threshold from every descriptor matches nobody; the roll is all absent and the percentage is 0 |

## Left out

- Face detection and descriptor extraction (face-api.js model loading, `bufferToImage`, `detectAllFaces` with landmarks and descriptors) are an external library. Detections are a given sequence of descriptors, and "models loaded" and "photo chosen" are boolean inputs.
- The HTTP fetch of the face roster is not modelled; the roster is a parameter. A failed request, a thrown error and the catch-all toast are not modelled either.
- Submission plumbing is not modelled: the write to the main API and the silent write to the second store (`Attndnce`, `parallelBackendApi.js`). Neither is the Express/Mongo backend (`face_attendance_backend/index.js`). The record `HandleAttendance` builds is what they would receive.
- The Mongoose schemas, the student-registration form and its validation schema, and `capacitor.config.ts` hold no attendance logic. They are not part of this model.
- Rendering, toasts, `getLabelColor` and the formatting of today's date are UI. The date is a string parameter.
- Floating point is not modelled: `Math.sqrt`, the `Infinity` start value (a missing best is `None`), and NaN from an empty class (`HandleAttendance` requires a non-empty class list). Arithmetic is exact over `real`.
- Stored descriptors whose length differs from the detected one are excluded by the `Comparable` precondition. In the code a longer one is compared on its prefix and a shorter one yields NaN and is never chosen; neither behaviour is modelled.
- The photo-based run is treated as atomic. In the code, radio or "All Present" edits made while it awaits image loading, detection and the roster fetch (Attendance.js:138-156) are overwritten by `setAttendance(autoAttendance)` at line 173; the model does not capture that interleaving.
- `toFixed(2)` turns the percentage into a two-decimal string; the model keeps the exact ratio.
- A class list that is still loading (`undefined`) is treated like an empty one.
- A missing and an empty `faceDescriptor` are both the empty sequence; the matcher skips both alike.
- Distance.SqDistSelf: only "equal descriptors are at distance zero" is stated. The converse (distance zero only for equal descriptors) needs strict positivity of real squares, which this model does not prove.
