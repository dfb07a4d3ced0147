/** The dataset partitioner `divideDataset`: a loop that steps `i` by the
    stride `n / k` and cuts `files[i : min(i + n / k, n)]`. */
module Partition {
  import opened Wrappers
  import opened Seqs
  import opened Arith

  /** The slices a stride loop cuts from `files`: consecutive pieces of
      `stride` entries, the last one holding what remains. */
  function Chunks<T>(files: seq<T>, stride: nat): seq<seq<T>>
    requires stride > 0
    decreases |files|
  {
    if |files| == 0 then []
    else if |files| <= stride then [files]
    else [files[..stride]] + Chunks(files[stride..], stride)
  }

  /** The slices concatenate, in order, to the input. */
  lemma {:induction false} ChunksFlatten<T>(files: seq<T>, stride: nat)
    requires stride > 0
    ensures Flatten(Chunks(files, stride)) == files
    decreases |files|
  {
    if |files| == 0 {
    } else if |files| <= stride {
      FlattenCons(files, []);
    } else {
      ChunksFlatten(files[stride..], stride);
      FlattenCons(files[..stride], Chunks(files[stride..], stride));
      assert files[..stride] + files[stride..] == files;
    }
  }

  /** Every slice but the last has exactly `stride` entries, the last has
      between 1 and `stride`, and there are `ceil(n / stride)` of them. */
  lemma {:induction false} ChunksShape<T>(files: seq<T>, stride: nat)
    requires stride > 0
    ensures var c := Chunks(files, stride);
      && |c| == (|files| + stride - 1) / stride
      && (forall j | 0 <= j < |c| - 1 :: |c[j]| == stride)
      && (|c| > 0 ==> 1 <= |c[|c| - 1]| <= stride)
    decreases |files|
  {
    var n := |files|;
    if n == 0 {
    } else if n <= stride {
      DivOne(n + stride - 1, stride);
    } else {
      var rest := files[stride..];
      ChunksShape(rest, stride);
      DivStep(n - stride + stride - 1, stride);
      assert [files[..stride]] + Chunks(rest, stride) == Chunks(files, stride);
    }
  }

  lemma DivOne(x: nat, d: nat)
    requires d > 0 && d <= x < 2 * d
    ensures x / d == 1
  {
  }

  function MinInt(a: int, b: int): int
  {
    if a < b then a else b
  }

  /** One turn of the stride loop: the slice it cuts and where it resumes. */
  lemma ChunkStep<T>(files: seq<T>, i: nat, stride: nat)
    requires stride > 0 && i < |files|
    ensures Chunks(files[i..], stride)
      == [files[i..MinInt(i + stride, |files|)]] + Chunks(files[MinInt(i + stride, |files|)..], stride)
  {
    var rest := files[i..];
    if |rest| <= stride {
      assert files[|files|..] == [];
      assert files[i..|files|] == rest;
    } else {
      assert rest[..stride] == files[i..i + stride];
      assert rest[stride..] == files[i + stride..];
    }
  }

  /** `divideDataset` as written, for the inputs on which its loop ends: an
      empty listing, or `1 <= k <= n` (for `0 < n < k` see `DivideLoopHangs`). */
  method DivideDataset<T>(files: seq<T>, k: int) returns (slices: seq<seq<T>>)
    requires |files| == 0 || 1 <= k <= |files|
    ensures |files| == 0 ==> slices == []
    ensures |files| > 0 ==> slices == Chunks(files, |files| / k)
    ensures Flatten(slices) == files
  {
    slices := [];
    var n := |files|;
    var i := 0;
    while i < n
      invariant 0 <= i
      invariant n == 0 ==> slices == []
      invariant n > 0 ==> slices + Chunks(files[MinInt(i, n)..], n / k) == Chunks(files, n / k)
      decreases n - i
    {
      var end := i + n / k;
      if end > n {
        end := n;
      }
      ChunkStep(files, i, n / k);
      slices := slices + [files[i..end]];
      i := i + n / k;
    }
    if n > 0 {
      assert files[MinInt(i, n)..] == [];
      ChunksFlatten(files, n / k);
    }
  }

  /** The stride loop of `divideDataset` from position `i`, run for at most
      `fuel` turns: `None` when it has not finished by then. Unlike the
      method it is defined for every `k >= 1`, including the inputs on which
      the loop never ends. */
  function DivideLoop<T>(files: seq<T>, k: int, i: nat, fuel: nat): (r: Option<seq<seq<T>>>)
    requires k >= 1
    ensures r.Some? ==> Flatten(r.value) == files[MinInt(i, |files|)..]
    decreases fuel
  {
    var n := |files|;
    if i >= n then Some([])
    else if fuel == 0 then None
    else
      match DivideLoop(files, k, i + n / k, fuel - 1)
      case None => None
      case Some(rest) =>
        var j := MinInt(i + n / k, n);
        FlattenCons(files[i..j], rest);
        assert files[i..j] + files[j..] == files[i..];
        Some([files[i..j]] + rest)
  }

  /** With fewer files than workers the stride `n / k` is 0, `i` never moves
      and no number of turns finishes the loop: with the hard-coded `k = 256`
      any directory of 1 to 255 entries hangs. */
  lemma {:induction false} DivideLoopHangs<T>(files: seq<T>, k: int, fuel: nat)
    requires 0 < |files| < k
    ensures DivideLoop(files, k, 0, fuel) == None
    decreases fuel
  {
    assert |files| / k == 0;
    if fuel > 0 {
      DivideLoopHangs(files, k, fuel - 1);
    }
  }

  /** With `1 <= k <= n` the loop finishes from position `i` within `n - i`
      turns and cuts the stride-`n / k` chunks of the rest. */
  lemma {:induction false} DivideLoopFinishes<T>(files: seq<T>, k: int, i: nat, fuel: nat)
    requires 1 <= k <= |files| && fuel >= |files| - i
    ensures DivideLoop(files, k, i, fuel) == Some(Chunks(files[MinInt(i, |files|)..], |files| / k))
    decreases fuel
  {
    var n := |files|;
    if i >= n {
      assert files[MinInt(i, n)..] == [];
    } else {
      DivideLoopFinishes(files, k, i + n / k, fuel - 1);
      ChunkStep(files, i, n / k);
      if i + n / k >= n {
        assert files[MinInt(i + n / k, n)..] == files[n..];
      }
    }
  }

  /** The method and the loop model agree wherever the loop ends. */
  lemma DivideDatasetTerminates<T>(files: seq<T>, k: int)
    requires 1 <= k <= |files|
    ensures DivideLoop(files, k, 0, |files|) == Some(Chunks(files, |files| / k))
  {
    DivideLoopFinishes(files, k, 0, |files|);
    assert files[MinInt(0, |files|)..] == files;
  }

  /** The stride rounds down, so the slice count can exceed the worker count:
      10 files and 3 workers make 4 slices. */
  lemma MoreSlicesThanWorkers()
    ensures var files := seq(10, i => i);
      |Chunks(files, |files| / 3)| == 4
  {
    var files := seq(10, i => i);
    ChunksShape(files, 3);
  }

  /** The stride rounded up, `ceil(n / k)`. It ends for every `k >= 1` and
      gives at most `k` slices, not always exactly `k` (9 entries and 4
      workers give 3 slices of 3), so it meets the comment "divides the
      dataset into K slices" only as an upper bound. */
  function CeilStride(n: nat, k: nat): nat
    requires k >= 1
  {
    (n + k - 1) / k
  }

  lemma CeilStrideCovers(n: nat, k: nat)
    requires k >= 1 && n > 0
    ensures CeilStride(n, k) >= 1
    ensures CeilStride(n, k) * k >= n
    ensures (n + CeilStride(n, k) - 1) / CeilStride(n, k) <= k
  {
    var s := CeilStride(n, k);
    assert s * k + (n + k - 1) % k == n + k - 1;
    assert s >= 1 by {
      if s == 0 {
        assert false;
      }
    }
    assert n + s - 1 < s * (k + 1);
    DivBelow(n + s - 1, s, k + 1);
  }

  /** `divideDataset` with the stride rounded up: it ends for every `k >= 1`,
      cuts at most `k` non-empty slices of at most `ceil(n / k)` entries, and
      they concatenate to the input. */
  method DivideDatasetFixed<T>(files: seq<T>, k: int) returns (slices: seq<seq<T>>)
    requires k >= 1
    ensures Flatten(slices) == files
    ensures |slices| <= k
    ensures forall j | 0 <= j < |slices| :: 1 <= |slices[j]| <= CeilStride(|files|, k)
    ensures |files| > 0 ==> slices == Chunks(files, CeilStride(|files|, k))
  {
    slices := [];
    var n := |files|;
    if n == 0 {
      assert files == [];
      return;
    }
    var stride := CeilStride(n, k);
    CeilStrideCovers(n, k);
    var i := 0;
    while i < n
      invariant 0 <= i
      invariant slices + Chunks(files[MinInt(i, n)..], stride) == Chunks(files, stride)
      decreases n - i
    {
      var end := i + stride;
      if end > n {
        end := n;
      }
      ChunkStep(files, i, stride);
      slices := slices + [files[i..end]];
      i := i + stride;
    }
    assert files[MinInt(i, n)..] == [];
    assert slices == Chunks(files, stride);
    CeilChunks(files, k);
  }

  /** The chunks of the rounded-up stride: at most `k` of them, none empty,
      none longer than the stride, concatenating to the listing. */
  lemma CeilChunks<T>(files: seq<T>, k: int)
    requires k >= 1 && |files| > 0
    ensures var c := Chunks(files, CeilStride(|files|, k));
      && Flatten(c) == files
      && |c| <= k
      && forall j | 0 <= j < |c| :: 1 <= |c[j]| <= CeilStride(|files|, k)
  {
    var stride := CeilStride(|files|, k);
    CeilStrideCovers(|files|, k);
    ChunksFlatten(files, stride);
    ChunksShape(files, stride);
  }
}
