/**
 * Distance between two face descriptors. The page computes the Euclidean
 * distance as the square root of the summed squared differences; the square
 * root is monotone, so the model works with the squared distance and moves
 * the square into the threshold instead (see the predicate Within).
 */
module Distance {
  import opened AttendanceTypes

  /** Sum of the squared component differences, accumulated left to right. */
  function SqDist(a: Descriptor, b: Descriptor): (r: real)
    requires |a| == |b|
    ensures r >= 0.0
    decreases |a|
  {
    if |a| == 0 then 0.0
    else
      var n := |a| - 1;
      SqDist(a[..n], b[..n]) + (a[n] - b[n]) * (a[n] - b[n])
  }

  /** The loop of euclideanDistance, before its final square root. */
  method SquaredDistance(a: Descriptor, b: Descriptor) returns (sum: real)
    requires |a| == |b|
    ensures sum == SqDist(a, b)
  {
    sum := 0.0;
    var i := 0;
    while i < |a|
      invariant 0 <= i <= |a|
      invariant sum == SqDist(a[..i], b[..i])
    {
      var diff := a[i] - b[i];
      sum := sum + diff * diff;
      assert a[..i + 1][..i] == a[..i] && b[..i + 1][..i] == b[..i];
      i := i + 1;
    }
    assert a[..i] == a && b[..i] == b;
  }

  lemma {:induction false} SqDistSymmetric(a: Descriptor, b: Descriptor)
    requires |a| == |b|
    ensures SqDist(a, b) == SqDist(b, a)
  {
    if |a| > 0 {
      var n := |a| - 1;
      SqDistSymmetric(a[..n], b[..n]);
      assert (a[n] - b[n]) * (a[n] - b[n]) == (b[n] - a[n]) * (b[n] - a[n]);
    }
  }

  /** A descriptor is at distance zero from itself. */
  lemma {:induction false} SqDistSelf(a: Descriptor)
    ensures SqDist(a, a) == 0.0
  {
    if |a| > 0 {
      SqDistSelf(a[..|a| - 1]);
    }
  }

  /**
   * The threshold test on squared distances: the distance (the square root
   * of `sq`) is at most `threshold`. The square root is not computed: for a
   * non-negative distance d, `d <= threshold` holds exactly when the
   * threshold is non-negative and `d * d <= threshold * threshold`.
   */
  predicate Within(sq: real, threshold: real)
  {
    threshold >= 0.0 && sq <= threshold * threshold
  }
}
