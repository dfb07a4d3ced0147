/** The whole similarity search: the query histogram, the directory listing,
    the partition into worker slices, the fan-in of the workers' histograms,
    the score map and the top-5 ranking. Every entry point of the program
    drives this same sequence; they differ in where the worker count `k`
    comes from. */
module Pipeline {
  import opened Wrappers
  import opened Seqs
  import opened Quantize
  import opened Histogram
  import opened Partition
  import opened Worker
  import opened Rank

  datatype SearchError =
    | QueryHistogramFailed  // "Failed to compute histogram for query image"
    | DirectoryUnreadable   // "Failed to read dataset directory"
    | InvalidK              // "<k> must be a positive integer"

  /** What a run prints: the ranking, and the names of the dataset files
      whose histogram could not be computed. */
  datatype SearchReport = SearchReport(top: seq<Pair>, failures: seq<string>)

  /** The worker count hard-coded in the top-level program. */
  const FixedWorkers: int := 256

  /** No two entries of a listing share a name, as in one directory. */
  predicate EntryNamesDistinct(files: seq<DirEntry>)
  {
    forall i, j | 0 <= i < j < |files| :: files[i].name != files[j].name
  }

  /** The outcome a run must have for the query `query` (named `queryName`),
      the listing `listing` and the decoder `decode`. */
  ghost predicate SearchOutcome(queryName: string, query: Option<Image>, listing: Option<seq<DirEntry>>,
                                decode: Decoder, res: Result<SearchReport, SearchError>)
  {
    var q := ExtractImage(queryName, query, PipelineDepth);
    && (res == Failure(QueryHistogramFailed) <==> q.None?)
    && (res == Failure(DirectoryUnreadable) <==> q.Some? && listing.None?)
    && (res.Success? <==> q.Some? && listing.Some?)
    && (res.Success? ==>
          var files := listing.value;
          && Comparable(q.value, Emitted(files, decode, PipelineDepth))
          && IsTopRanking(res.value.top, ScoreMap(q.value, Emitted(files, decode, PipelineDepth)))
          && res.value.failures == Failed(files, decode, PipelineDepth))
  }

  /** `runSimilaritySearch`: stops at the first of the two fatal errors, and
      otherwise ranks every histogram the workers emit. The slices are cut
      with the corrected stride (`DivideDatasetFixed`); wherever the
      original stride loop ends its slices concatenate to the same listing,
      so the workers emit the same histograms. */
  method RunSimilaritySearch(queryName: string, query: Option<Image>, listing: Option<seq<DirEntry>>,
                             decode: Decoder, k: int)
    returns (res: Result<SearchReport, SearchError>)
    requires k >= 1
    ensures SearchOutcome(queryName, query, listing, decode, res)
  {
    if query.None? {
      return Failure(QueryHistogramFailed);
    }
    var queryRes := ComputeHistogram(queryName, query.value, PipelineDepth);
    if queryRes.Failure? {
      return Failure(QueryHistogramFailed);
    }
    var queryHisto := queryRes.value;
    HistogramIsDistribution(queryName, query.value, PipelineDepth);
    if listing.None? {
      return Failure(DirectoryUnreadable);
    }
    var files := listing.value;
    var slices := DivideDatasetFixed(files, k);
    var histos, failed := CollectHistograms(slices, decode, PipelineDepth);
    EmittedAreDistributions(files, decode, PipelineDepth);
    var top := RankScores(queryHisto, histos);
    res := Success(SearchReport(top, failed));
  }

  /** The ranking stage: the score map, its entries copied into an array,
      sorted in place, and the first five kept. */
  method RankScores(queryHisto: Histo, histos: seq<Histo>) returns (top: seq<Pair>)
    requires Comparable(queryHisto, histos)
    ensures IsTopRanking(top, ScoreMap(queryHisto, histos))
  {
    var similarityScores := Aggregate(queryHisto, histos);
    var pairs := MapToPairs(similarityScores);
    var arr := new Pair[|pairs|](i requires 0 <= i < |pairs| => pairs[i]);
    assert arr[..] == pairs;
    SortByScore(arr);
    top := TopResults(arr[..]);
    SortedPrefixIsTopRanking(pairs, arr[..], top, similarityScores);
  }

  /** The version that reads `k` from the command line: a `k` that is not a
      number or out of `int` range for `strconv.Atoi` (`None`, or a value
      above `MaxInt64`) or not positive stops the run before anything else. */
  method SearchWithArgument(kArg: Option<int>, queryName: string, query: Option<Image>,
                            listing: Option<seq<DirEntry>>, decode: Decoder)
    returns (res: Result<SearchReport, SearchError>)
    ensures res == Failure(InvalidK) <==> kArg.None? || !(1 <= kArg.value <= MaxInt64)
    ensures kArg.Some? && 1 <= kArg.value <= MaxInt64 ==> SearchOutcome(queryName, query, listing, decode, res)
  {
    if kArg.None? || kArg.value <= 0 || kArg.value > MaxInt64 {
      return Failure(InvalidK);
    }
    res := RunSimilaritySearch(queryName, query, listing, decode, kArg.value);
  }

  /** The names of the emitted histograms are names of distinct entries. */
  lemma {:induction false} EmittedNamesDistinct(files: seq<DirEntry>, decode: Decoder, depth: Depth)
    requires EntryNamesDistinct(files)
    ensures HistoNamesDistinct(Emitted(files, decode, depth))
  {
    if |files| > 0 {
      var n := |files| - 1;
      var init := files[..n];
      EmittedNamesDistinct(init, decode, depth);
      var before := Emitted(init, decode, depth);
      forall h | h in before ensures h.name != files[n].name {
        EmittedExactly(init, decode, depth, h);
        var j :| EmitsAt(init, j, decode, depth, h);
        assert files[j] == init[j];
      }
    }
  }

  /** The ranking does not depend on the order in which the workers deliver
      their histograms: any reordering of what they emit gives the same
      score map. */
  lemma DeliveryOrderIrrelevant(query: Histo, files: seq<DirEntry>, decode: Decoder, delivered: seq<Histo>)
    requires |query.buckets| <= BucketCount(PipelineDepth)
    requires EntryNamesDistinct(files)
    requires multiset(delivered) == multiset(Emitted(files, decode, PipelineDepth))
    ensures Comparable(query, delivered) && Comparable(query, Emitted(files, decode, PipelineDepth))
    ensures ScoreMap(query, delivered) == ScoreMap(query, Emitted(files, decode, PipelineDepth))
  {
    var emitted := Emitted(files, decode, PipelineDepth);
    EmittedAreDistributions(files, decode, PipelineDepth);
    EmittedNamesDistinct(files, decode, PipelineDepth);
    PermutedComparable(query, emitted, delivered);
    PermutedHistosDistinct(emitted, delivered);
    ScoreMapOrderFree(query, delivered, emitted);
  }

  /** The top-level program: the same search with 256 workers. */
  method SearchWithFixedWorkers(queryName: string, query: Option<Image>, listing: Option<seq<DirEntry>>,
                                decode: Decoder)
    returns (res: Result<SearchReport, SearchError>)
    ensures SearchOutcome(queryName, query, listing, decode, res)
  {
    res := RunSimilaritySearch(queryName, query, listing, decode, FixedWorkers);
  }

  // ---------------------------------------------------------------------
  // The timing experiment: one search per worker count in a schedule.

  /** Go's `int` on the 64-bit platforms the program targets. */
  const MaxInt64: int := 0x7FFF_FFFF_FFFF_FFFF
  const MinInt64: int := -0x8000_0000_0000_0000

  /** Two's-complement 64-bit wrap-around of a mathematical integer. */
  function Wrap64(x: int): (r: int)
    ensures MinInt64 <= r <= MaxInt64
    ensures MinInt64 <= x <= MaxInt64 ==> r == x
    ensures (x - r) % 0x1_0000_0000_0000_0000 == 0
  {
    (x - MinInt64) % 0x1_0000_0000_0000_0000 + MinInt64
  }

  /** The worker counts as the experiment computes them, with its `int`
      multiplications wrapping. */
  function KScheduleAsWritten(initialK: int): (ks: seq<int>)
    ensures |ks| == 4 && ks[0] == initialK
    ensures forall i | 1 <= i < 4 :: MinInt64 <= ks[i] <= MaxInt64
  {
    [initialK, Wrap64(initialK * 2), Wrap64(initialK * 4), Wrap64(initialK * 8)]
  }

  /** A start value the argument check accepts still yields worker counts
      that are not positive: with `initialK` = 2^61 the third count wraps to
      -2^63 and the fourth to 0. */
  lemma KScheduleWraps()
    ensures var k := 0x2000_0000_0000_0000;
      && 1 <= k <= MaxInt64
      && KScheduleAsWritten(k)[2] == MinInt64
      && KScheduleAsWritten(k)[3] == 0
  {
  }

  /** The schedule with the overflow ruled out: start values whose eightfold
      does not fit an `int` are rejected like non-positive ones. Where it is
      defined it agrees with the experiment's own schedule, and it doubles
      at every step. */
  function KSchedule(initialK: int): (r: Result<seq<int>, SearchError>)
    ensures r.Success? <==> 1 <= initialK <= MaxInt64 / 8
    ensures r.Failure? ==> r.error == InvalidK
    ensures r.Success? ==>
      && r.value == KScheduleAsWritten(initialK)
      && (forall i | 0 <= i < |r.value| :: 1 <= r.value[i] <= MaxInt64)
      && (forall i | 0 < i < |r.value| :: r.value[i] == 2 * r.value[i - 1])
  {
    if initialK <= 0 || initialK > MaxInt64 / 8 then Failure(InvalidK)
    else Success([initialK, initialK * 2, initialK * 4, initialK * 8])
  }

  /** The timing experiment: the `k` argument is parsed as an `int` (a value
      outside the 64-bit range does not parse), checked, turned into the
      schedule, and the search runs once per worker count on the same query
      and directory. The outcome of each run is the one `SearchOutcome`
      fixes, which does not involve the worker count. */
  method RunExperiment(kArg: Option<int>, queryName: string, query: Option<Image>,
                       listing: Option<seq<DirEntry>>, decode: Decoder)
    returns (res: Result<seq<Result<SearchReport, SearchError>>, SearchError>)
    ensures res.Failure? <==> kArg.None? || !(1 <= kArg.value <= MaxInt64 / 8)
    ensures res.Failure? ==> res.error == InvalidK
    ensures res.Success? ==>
      && |res.value| == 4
      && (forall i | 0 <= i < 4 :: SearchOutcome(queryName, query, listing, decode, res.value[i]))
  {
    if kArg.None? || kArg.value <= 0 || kArg.value > MaxInt64 {
      return Failure(InvalidK);
    }
    var schedule := KSchedule(kArg.value);
    if schedule.Failure? {
      return Failure(schedule.error);
    }
    var ks := schedule.value;
    var runs: seq<Result<SearchReport, SearchError>> := [];
    for i := 0 to |ks|
      invariant |runs| == i
      invariant forall j | 0 <= j < i :: SearchOutcome(queryName, query, listing, decode, runs[j])
    {
      var run := RunSimilaritySearch(queryName, query, listing, decode, ks[i]);
      runs := runs + [run];
    }
    res := Success(runs);
  }
}
