/** The histogram extractor: one pass over the decoded image counting pixels
    per quantised colour, then an in-place division of every bucket by the
    pixel count. */
module Histogram {
  import opened Wrappers
  import opened Seqs
  import opened Quantize
  import opened Arith

  /** A decoded raster, row by row: `rows[y][x]` is the pixel the extractor
      reads as `img.At(x, y)`. */
  datatype Image = Image(rows: seq<seq<Pixel>>)

  /** A named histogram (Go's `Histo`). */
  datatype Histo = Histo(name: string, buckets: seq<real>)

  datatype HistogramError = EmptyImage

  /** The pixels in the order the nested `y`/`x` loops visit them. */
  function Pixels(img: Image): seq<Pixel>
  {
    Flatten(img.rows)
  }

  /** How many of `px` fall into bucket `index`. */
  function Count(px: seq<Pixel>, depth: Depth, index: nat): nat
  {
    if |px| == 0 then 0
    else Count(px[..|px| - 1], depth, index) + (if BucketIndex(px[|px| - 1], depth) == index then 1 else 0)
  }

  /** The bucket counts after the scan. */
  function Counts(px: seq<Pixel>, depth: Depth): seq<nat>
  {
    seq(BucketCount(depth), (i: int) requires 0 <= i => Count(px, depth, i))
  }

  /** The bucket counts as the scan's `float64` array holds them. */
  function RealCounts(px: seq<Pixel>, depth: Depth): seq<real>
  {
    seq(BucketCount(depth), (i: int) requires 0 <= i => Count(px, depth, i) as real)
  }

  /** Every count divided by the pixel total. */
  function Normalize(counts: seq<nat>, total: nat): seq<real>
    requires total > 0
  {
    seq(|counts|, i requires 0 <= i < |counts| => counts[i] as real / total as real)
  }

  /** What `computeHistogram` returns for a decoded image. An image without
      pixels is an error here (see README). */
  function HistogramOf(name: string, img: Image, depth: Depth): (r: Result<Histo, HistogramError>)
    ensures r.Failure? <==> |Pixels(img)| == 0
    ensures r.Success? ==>
      && r.value.name == name
      && |r.value.buckets| == BucketCount(depth)
  {
    var px := Pixels(img);
    if |px| == 0 then Failure(EmptyImage)
    else Success(Histo(name, Normalize(Counts(px, depth), |px|)))
  }

  function IntSumTo(s: seq<nat>, n: nat): nat
    requires n <= |s|
  {
    if n == 0 then 0 else IntSumTo(s, n - 1) + s[n - 1]
  }

  function SumTo(s: seq<real>, n: nat): real
    requires n <= |s|
  {
    if n == 0 then 0.0 else SumTo(s, n - 1) + s[n - 1]
  }

  /** The total mass of a histogram. */
  function Sum(s: seq<real>): real
  {
    SumTo(s, |s|)
  }

  ghost predicate NonNegative(s: seq<real>)
  {
    forall i | 0 <= i < |s| :: 0.0 <= s[i]
  }

  /** A discrete probability distribution. */
  ghost predicate IsDistribution(s: seq<real>)
  {
    NonNegative(s) && Sum(s) == 1.0
  }

  /** The extractor, as the Go code runs it: the counters live in a float
      array that is first incremented per pixel and then divided in place. */
  method ComputeHistogram(name: string, img: Image, depth: Depth) returns (res: Result<Histo, HistogramError>)
    ensures res == HistogramOf(name, img, depth)
  {
    var histogram := new real[BucketCount(depth)](_ => 0.0);
    assert histogram[..] == RealCounts([], depth);
    var totalPixels := 0;
    var y := 0;
    while y < |img.rows|
      invariant 0 <= y <= |img.rows|
      invariant totalPixels == |Flatten(img.rows[..y])|
      invariant histogram[..] == RealCounts(Flatten(img.rows[..y]), depth)
    {
      var row := img.rows[y];
      totalPixels := CountRow(histogram, row, depth, Flatten(img.rows[..y]), totalPixels);
      assert img.rows[..y + 1] == img.rows[..y] + [row];
      FlattenSnoc(img.rows[..y], row);
      y := y + 1;
    }
    assert img.rows[..y] == img.rows;
    if totalPixels == 0 {
      return Failure(EmptyImage);
    }
    DivideAll(histogram, totalPixels as real);
    ghost var px := Pixels(img);
    assert histogram[..] == Normalize(Counts(px, depth), |px|);
    res := Success(Histo(name, histogram[..]));
  }

  /** The inner loop of the scan: every pixel of one row bumps its bucket
      and the pixel total. */
  method CountRow(histogram: array<real>, row: seq<Pixel>, depth: Depth, ghost done: seq<Pixel>, totalIn: int)
    returns (total: int)
    requires histogram[..] == RealCounts(done, depth)
    modifies histogram
    ensures histogram[..] == RealCounts(done + row, depth)
    ensures total == totalIn + |row|
  {
    total := totalIn;
    var x := 0;
    assert done + row[..x] == done;
    while x < |row|
      invariant 0 <= x <= |row|
      invariant total == totalIn + x
      invariant histogram[..] == RealCounts(done + row[..x], depth)
    {
      var index := BucketIndex(row[x], depth);
      RealCountsSnoc(done + row[..x], row[x], depth);
      AppendNext(done, row, x);
      histogram[index] := histogram[index] + 1.0;
      total := total + 1;
      x := x + 1;
    }
    assert row[..x] == row;
  }

  /** The normalisation pass: every bucket divided, in place, by the total. */
  method DivideAll(histogram: array<real>, total: real)
    requires total > 0.0
    modifies histogram
    ensures forall j | 0 <= j < histogram.Length :: histogram[j] == old(histogram[j]) / total
  {
    for i := 0 to histogram.Length
      invariant forall j | 0 <= j < i :: histogram[j] == old(histogram[j]) / total
      invariant forall j | i <= j < histogram.Length :: histogram[j] == old(histogram[j])
    {
      histogram[i] := histogram[i] / total;
    }
  }

  /** Adding a pixel to the scanned ones bumps exactly its own bucket. */
  lemma RealCountsSnoc(px: seq<Pixel>, p: Pixel, depth: Depth)
    ensures var index := BucketIndex(p, depth);
      RealCounts(px + [p], depth) == RealCounts(px, depth)[index := RealCounts(px, depth)[index] + 1.0]
  {
    CountSnoc(px, p, depth);
  }

  /** One more pixel adds one to its own bucket and nothing to the others. */
  lemma CountSnoc(px: seq<Pixel>, p: Pixel, depth: Depth)
    ensures forall j: nat :: Count(px + [p], depth, j) == Count(px, depth, j) + (if BucketIndex(p, depth) == j then 1 else 0)
  {
    assert (px + [p])[..|px|] == px;
  }

  /** Adding one to a single bucket adds one to the total. */
  lemma {:induction false} SumBumped(c1: seq<nat>, c2: seq<nat>, index: nat, n: nat)
    requires |c1| == |c2| && n <= |c1|
    requires forall i | 0 <= i < |c1| :: c2[i] == c1[i] + (if i == index then 1 else 0)
    ensures IntSumTo(c2, n) == IntSumTo(c1, n) + (if index < n then 1 else 0)
  {
    if n > 0 {
      SumBumped(c1, c2, index, n - 1);
    }
  }

  lemma {:induction false} ZeroSum(c: seq<nat>, n: nat)
    requires n <= |c| && forall i | 0 <= i < |c| :: c[i] == 0
    ensures IntSumTo(c, n) == 0
  {
    if n > 0 {
      ZeroSum(c, n - 1);
    }
  }

  /** Each pixel adds exactly one to exactly one bucket, so the counts sum to
      the number of pixels. */
  lemma {:induction false} CountsSumToPixels(px: seq<Pixel>, depth: Depth)
    ensures IntSumTo(Counts(px, depth), BucketCount(depth)) == |px|
  {
    if |px| == 0 {
      ZeroSum(Counts(px, depth), BucketCount(depth));
    } else {
      var init := px[..|px| - 1];
      CountsSumToPixels(init, depth);
      SumBumped(Counts(init, depth), Counts(px, depth), BucketIndex(px[|px| - 1], depth), BucketCount(depth));
    }
  }

  lemma {:induction false} CountAtMostPixels(px: seq<Pixel>, depth: Depth, index: nat)
    ensures Count(px, depth, index) <= |px|
  {
    if |px| > 0 {
      CountAtMostPixels(px[..|px| - 1], depth, index);
    }
  }

  lemma {:induction false} NormalizeSum(counts: seq<nat>, total: nat, n: nat)
    requires total > 0 && n <= |counts|
    ensures SumTo(Normalize(counts, total), n) == IntSumTo(counts, n) as real / total as real
  {
    if n > 0 {
      NormalizeSum(counts, total, n - 1);
      var t := total as real;
      var a := IntSumTo(counts, n - 1) as real;
      var b := counts[n - 1] as real;
      RealDivAdd(a, b, t);
    }
  }

  /** The normalised buckets each lie in [0, 1]. */
  lemma BucketsInUnitInterval(px: seq<Pixel>, depth: Depth)
    requires |px| > 0
    ensures forall i | 0 <= i < BucketCount(depth) :: 0.0 <= Normalize(Counts(px, depth), |px|)[i] <= 1.0
  {
    forall i | 0 <= i < BucketCount(depth) ensures 0.0 <= Normalize(Counts(px, depth), |px|)[i] <= 1.0 {
      CountAtMostPixels(px, depth, i);
      var c := Count(px, depth, i) as real;
      var t := |px| as real;
      RealDivUnit(c, t);
    }
  }

  lemma {:induction false} NormalizeTotal(counts: seq<nat>, total: nat)
    requires total > 0 && IntSumTo(counts, |counts|) == total
    ensures Sum(Normalize(counts, total)) == 1.0
  {
    NormalizeSum(counts, total, |counts|);
    RealDivSelf(total as real);
  }

  /** The normalised counts of a non-empty image sum to exactly 1. */
  lemma NormalizedSumsToOne(px: seq<Pixel>, depth: Depth)
    requires |px| > 0
    ensures Sum(Normalize(Counts(px, depth), |px|)) == 1.0
  {
    CountsSumToPixels(px, depth);
    NormalizeTotal(Counts(px, depth), |px|);
  }

  /** A successfully extracted histogram has `1 << (3 * depth)` buckets, each
      in [0, 1], summing to exactly 1; extraction fails exactly when the image
      has no pixels. */
  lemma HistogramIsDistribution(name: string, img: Image, depth: Depth)
    ensures HistogramOf(name, img, depth).Failure? <==> |Pixels(img)| == 0
    ensures HistogramOf(name, img, depth).Success? ==>
      var h := HistogramOf(name, img, depth).value;
      && h.name == name
      && |h.buckets| == BucketCount(depth)
      && (forall i | 0 <= i < |h.buckets| :: 0.0 <= h.buckets[i] <= 1.0)
      && IsDistribution(h.buckets)
  {
    var px := Pixels(img);
    if |px| > 0 {
      BucketsInUnitInterval(px, depth);
      NormalizedSumsToOne(px, depth);
    }
  }

  /** Bucket `i` of a successfully extracted histogram is the fraction of the
      image's pixels whose quantised index is `i`. */
  lemma BucketsAreFractions(name: string, img: Image, depth: Depth)
    ensures HistogramOf(name, img, depth).Success? ==>
      forall i | 0 <= i < BucketCount(depth) ::
        HistogramOf(name, img, depth).value.buckets[i] == Count(Pixels(img), depth, i) as real / |Pixels(img)| as real
  {
  }
}
