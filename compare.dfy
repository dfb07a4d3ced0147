/** The histogram comparator: histogram intersection, the sum over the
    first histogram's buckets of the smaller of the two bucket values. */
module Compare {
  import opened Histogram

  /** Go's `min(a, b float64)`: `a` when `a < b`, otherwise `b`. */
  function Min(a: real, b: real): (m: real)
    ensures m <= a && m <= b
    ensures m == a || m == b
  {
    if a < b then a else b
  }

  /** The intersection over the first `n` buckets. */
  function IntersectionTo(h1: seq<real>, h2: seq<real>, n: nat): real
    requires n <= |h1| && n <= |h2|
  {
    if n == 0 then 0.0 else IntersectionTo(h1, h2, n - 1) + Min(h1[n - 1], h2[n - 1])
  }

  /** The loop reads `h2[i]` for every index of `h1`, so `h2` must be at least
      as long as `h1` (a shorter `h2` makes Go panic). */
  function Intersection(h1: seq<real>, h2: seq<real>): real
    requires |h1| <= |h2|
  {
    IntersectionTo(h1, h2, |h1|)
  }

  /** `compareHistograms`, accumulating the intersection in a loop. */
  method CompareHistograms(h1: Histo, h2: Histo) returns (intersection: real)
    requires |h1.buckets| <= |h2.buckets|
    ensures intersection == Intersection(h1.buckets, h2.buckets)
  {
    intersection := 0.0;
    for i := 0 to |h1.buckets|
      invariant intersection == IntersectionTo(h1.buckets, h2.buckets, i)
    {
      intersection := intersection + Min(h1.buckets[i], h2.buckets[i]);
    }
  }

  lemma {:induction false} IntersectionToSymmetric(h1: seq<real>, h2: seq<real>, n: nat)
    requires n <= |h1| && n <= |h2|
    ensures IntersectionTo(h1, h2, n) == IntersectionTo(h2, h1, n)
  {
    if n > 0 {
      IntersectionToSymmetric(h1, h2, n - 1);
    }
  }

  /** For histograms of the same shape the argument order does not matter. */
  lemma IntersectionSymmetric(h1: seq<real>, h2: seq<real>)
    requires |h1| == |h2|
    ensures Intersection(h1, h2) == Intersection(h2, h1)
  {
    IntersectionToSymmetric(h1, h2, |h1|);
  }

  lemma {:induction false} IntersectionToBounds(h1: seq<real>, h2: seq<real>, n: nat)
    requires n <= |h1| && n <= |h2|
    requires NonNegative(h1) && NonNegative(h2)
    ensures 0.0 <= IntersectionTo(h1, h2, n)
    ensures IntersectionTo(h1, h2, n) <= SumTo(h1, n)
    ensures IntersectionTo(h1, h2, n) <= SumTo(h2, n)
  {
    if n > 0 {
      IntersectionToBounds(h1, h2, n - 1);
    }
  }

  /** The score is non-negative and at most the mass of either histogram. */
  lemma IntersectionBounds(h1: seq<real>, h2: seq<real>)
    requires |h1| == |h2| && NonNegative(h1) && NonNegative(h2)
    ensures 0.0 <= Intersection(h1, h2) <= Sum(h1)
    ensures Intersection(h1, h2) <= Sum(h2)
  {
    IntersectionToBounds(h1, h2, |h1|);
  }

  lemma {:induction false} IntersectionToSelf(h: seq<real>, n: nat)
    requires n <= |h|
    ensures IntersectionTo(h, h, n) == SumTo(h, n)
  {
    if n > 0 {
      IntersectionToSelf(h, n - 1);
    }
  }

  /** A histogram compared with itself scores its own mass: 1 for a
      normalised histogram. */
  lemma IntersectionSelf(h: seq<real>)
    ensures Intersection(h, h) == Sum(h)
    ensures IsDistribution(h) ==> Intersection(h, h) == 1.0
  {
    IntersectionToSelf(h, |h|);
  }

  lemma {:induction false} IntersectionToDisjoint(h1: seq<real>, h2: seq<real>, n: nat)
    requires n <= |h1| && n <= |h2|
    requires NonNegative(h1) && NonNegative(h2)
    requires forall i | 0 <= i < n :: h1[i] == 0.0 || h2[i] == 0.0
    ensures IntersectionTo(h1, h2, n) == 0.0
  {
    if n > 0 {
      IntersectionToDisjoint(h1, h2, n - 1);
    }
  }

  /** A zero score over the first `n` buckets leaves no bucket shared. */
  lemma {:induction false} IntersectionToZero(h1: seq<real>, h2: seq<real>, n: nat)
    requires n <= |h1| && n <= |h2|
    requires NonNegative(h1) && NonNegative(h2)
    requires IntersectionTo(h1, h2, n) == 0.0
    ensures forall i | 0 <= i < n :: h1[i] == 0.0 || h2[i] == 0.0
  {
    if n > 0 {
      IntersectionToBounds(h1, h2, n - 1);
      IntersectionToZero(h1, h2, n - 1);
    }
  }

  /** Non-negative histograms score 0 exactly when they share no non-empty
      bucket. */
  lemma IntersectionDisjoint(h1: seq<real>, h2: seq<real>)
    requires |h1| == |h2| && NonNegative(h1) && NonNegative(h2)
    ensures Intersection(h1, h2) == 0.0 <==> forall i | 0 <= i < |h1| :: h1[i] == 0.0 || h2[i] == 0.0
  {
    if forall i | 0 <= i < |h1| :: h1[i] == 0.0 || h2[i] == 0.0 {
      IntersectionToDisjoint(h1, h2, |h1|);
    }
    if Intersection(h1, h2) == 0.0 {
      IntersectionToZero(h1, h2, |h1|);
    }
  }


  /** What each histogram's mass exceeds the intersection by, bucket by bucket. */
  lemma {:induction false} IntersectionGap(h1: seq<real>, h2: seq<real>, n: nat, k: nat)
    requires n <= |h1| && n <= |h2| && k < n
    requires NonNegative(h1) && NonNegative(h2)
    ensures SumTo(h1, n) - IntersectionTo(h1, h2, n) >= h1[k] - Min(h1[k], h2[k])
  {
    IntersectionToBounds(h1, h2, n - 1);
    if k < n - 1 {
      IntersectionGap(h1, h2, n - 1, k);
    }
  }

  /** Two distributions of the same shape score exactly 1 if and only if they
      are identical. */
  lemma IntersectionOneIffEqual(h1: seq<real>, h2: seq<real>)
    requires |h1| == |h2| && IsDistribution(h1) && IsDistribution(h2)
    ensures Intersection(h1, h2) == 1.0 <==> h1 == h2
  {
    if h1 == h2 {
      IntersectionSelf(h1);
    } else if Intersection(h1, h2) == 1.0 {
      var k :| 0 <= k < |h1| && h1[k] != h2[k];
      IntersectionGap(h1, h2, |h1|, k);
      IntersectionToSymmetric(h1, h2, |h1|);
      IntersectionGap(h2, h1, |h1|, k);
      assert false;
    }
  }
}
