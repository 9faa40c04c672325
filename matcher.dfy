/**
 * Nearest-neighbour matching of one detected face against the class's face
 * roster (findBestMatch): candidates without a descriptor are skipped, the
 * first candidate at the strictly smallest distance is kept, and it is
 * accepted only when its distance is within the threshold.
 */
module Matcher {
  import opened AttendanceTypes
  import opened Distance

  /** The threshold the page always uses. */
  const DefaultThreshold: real := 0.6

  /** A roster record takes part in matching only with a non-empty descriptor. */
  predicate HasDescriptor(c: Enrolled)
  {
    |c.faceDescriptor| > 0
  }

  /** Every candidate that has a descriptor has the detected descriptor's length. */
  predicate Comparable(d: Descriptor, cs: seq<Enrolled>)
  {
    forall j :: 0 <= j < |cs| && HasDescriptor(cs[j]) ==> |cs[j].faceDescriptor| == |d|
  }

  /**
   * Candidate k is the nearest candidate with a descriptor, and every
   * candidate with a descriptor before it is strictly farther.
   */
  ghost predicate IsFirstNearest(d: Descriptor, cs: seq<Enrolled>, k: nat)
    requires Comparable(d, cs)
  {
    && k < |cs|
    && HasDescriptor(cs[k])
    && (forall j :: 0 <= j < |cs| && HasDescriptor(cs[j]) ==>
          SqDist(d, cs[k].faceDescriptor) <= SqDist(d, cs[j].faceDescriptor))
    && (forall j :: 0 <= j < k && HasDescriptor(cs[j]) ==>
          SqDist(d, cs[j].faceDescriptor) > SqDist(d, cs[k].faceDescriptor))
  }

  /**
   * The candidate the scan settles on before the threshold test: each
   * candidate with a descriptor replaces the current best only when it is
   * strictly nearer.
   */
  function Best(d: Descriptor, cs: seq<Enrolled>): (r: Option<nat>)
    requires Comparable(d, cs)
    ensures r.None? <==> forall j :: 0 <= j < |cs| ==> !HasDescriptor(cs[j])
    ensures r.Some? ==> IsFirstNearest(d, cs, r.value)
    decreases |cs|
  {
    if |cs| == 0 then None
    else
      var n := |cs| - 1;
      var prev := Best(d, cs[..n]);
      if !HasDescriptor(cs[n]) then prev
      else if prev.None? || SqDist(d, cs[n].faceDescriptor) < SqDist(d, cs[prev.value].faceDescriptor) then Some(n)
      else prev
  }

  /**
   * The outcome of findBestMatch, as an index into the candidates: no match
   * exactly when no candidate with a descriptor lies within the threshold;
   * otherwise the first nearest candidate, which lies within it.
   */
  function Match(d: Descriptor, cs: seq<Enrolled>, threshold: real): (r: Option<nat>)
    requires Comparable(d, cs)
    ensures r.None? <==> forall j :: 0 <= j < |cs| && HasDescriptor(cs[j]) ==>
                           !Within(SqDist(d, cs[j].faceDescriptor), threshold)
    ensures r.Some? ==> IsFirstNearest(d, cs, r.value) && Within(SqDist(d, cs[r.value].faceDescriptor), threshold)
  {
    var b := Best(d, cs);
    if b.Some? && Within(SqDist(d, cs[b.value].faceDescriptor), threshold) then b else None
  }

  /** findBestMatch: one pass over the candidates keeping the best so far. */
  method FindBestMatch(descriptor: Descriptor, candidates: seq<Enrolled>, threshold: real) returns (matched: Option<nat>)
    requires Comparable(descriptor, candidates)
    ensures matched == Match(descriptor, candidates, threshold)
  {
    var best: Option<nat> := None;
    var bestDistance := 0.0;
    var i := 0;
    while i < |candidates|
      invariant 0 <= i <= |candidates|
      invariant best == Best(descriptor, candidates[..i])
      invariant best.Some? ==> best.value < i && bestDistance == SqDist(descriptor, candidates[best.value].faceDescriptor)
    {
      var stu := candidates[i];
      assert candidates[..i + 1][..i] == candidates[..i];
      if HasDescriptor(stu) {
        var dist := SquaredDistance(descriptor, stu.faceDescriptor);
        if best.None? || dist < bestDistance {
          best := Some(i);
          bestDistance := dist;
        }
      }
      i := i + 1;
    }
    assert candidates[..i] == candidates;
    if best.Some? && Within(bestDistance, threshold) {
      matched := best;
    } else {
      matched := None;
    }
  }

  /**
   * The threshold is inclusive: a candidate at exactly the threshold
   * distance guarantees a match, and whichever candidate is matched is no
   * farther than it.
   */
  lemma ThresholdBoundaryAccepted(d: Descriptor, cs: seq<Enrolled>, threshold: real, k: nat)
    requires Comparable(d, cs)
    requires k < |cs| && HasDescriptor(cs[k]) && threshold >= 0.0
    requires SqDist(d, cs[k].faceDescriptor) == threshold * threshold
    ensures Match(d, cs, threshold).Some?
    ensures SqDist(d, cs[Match(d, cs, threshold).value].faceDescriptor) <= SqDist(d, cs[k].faceDescriptor)
  {
    assert Within(SqDist(d, cs[k].faceDescriptor), threshold);
  }
}
