/** The worker side of the pipeline: `processSlice` filters its slice of the
    directory listing and extracts one histogram per eligible file; the
    fan-out over all slices and the fan-in through the channel are modelled
    as running the slices one after the other and concatenating what they
    emit. */
module Worker {
  import opened Wrappers
  import opened Seqs
  import opened Quantize
  import opened Histogram

  /** A directory entry as `os.ReadDir` lists it. */
  datatype DirEntry = DirEntry(name: string, isDir: bool)

  /** Opening and decoding the file of a given entry name; `None` when
      `os.Open` or `image.Decode` fails. */
  type Decoder = string -> Option<Image>

  /** `filepath.Ext`: the suffix of `path` from the final `.` of its last
      element, or "" when that element has no dot. */
  function Ext(path: string): string
  {
    ExtBefore(path, |path|)
  }

  /** The extension is empty or a suffix of the path that starts with a dot. */
  lemma ExtIsDotSuffix(path: string)
    ensures Ext(path) == "" || (Ext(path)[0] == '.' && exists j | 0 <= j < |path| :: Ext(path) == path[j..])
  {
    ExtBeforeStartsWithDot(path, |path|);
  }

  /** A non-empty result of the scan starts at the dot it stopped on. */
  lemma {:induction false} ExtBeforeStartsWithDot(path: string, i: nat)
    requires i <= |path|
    ensures ExtBefore(path, i) != "" ==> ExtBefore(path, i)[0] == '.'
  {
    if i > 0 && path[i - 1] != '/' && path[i - 1] != '.' {
      ExtBeforeStartsWithDot(path, i - 1);
    }
  }

  /** The scan of `filepath.Ext` from index `i - 1` down to 0. */
  function ExtBefore(path: string, i: nat): (e: string)
    requires i <= |path|
    ensures e == "" || exists j :: 0 <= j < i && e == path[j..]
  {
    if i == 0 || path[i - 1] == '/' then ""
    else if path[i - 1] == '.' then path[i - 1..]
    else ExtBefore(path, i - 1)
  }

  /** The extension test is an exact, case-sensitive "ends with .jpg". */
  lemma ExtIsJpg(name: string)
    ensures Ext(name) == ".jpg" <==> |name| >= 4 && name[|name| - 4..] == ".jpg"
  {
    if |name| >= 4 && name[|name| - 4..] == ".jpg" {
      JpgSuffixIsExtension(name);
    }
    JpgExtensionIsSuffix(name);
  }

  /** An ordinary character is skipped by the backward scan. */
  lemma ExtStep(path: string, i: nat)
    requires 0 < i <= |path| && path[i - 1] != '/' && path[i - 1] != '.'
    ensures ExtBefore(path, i) == ExtBefore(path, i - 1)
  {
  }

  lemma JpgSuffixIsExtension(name: string)
    requires |name| >= 4 && name[|name| - 4..] == ".jpg"
    ensures Ext(name) == ".jpg"
  {
    var n := |name|;
    assert name[n - 1] == 'g' && name[n - 2] == 'p' && name[n - 3] == 'j' && name[n - 4] == '.';
    ExtStep(name, n);
    ExtStep(name, n - 1);
    ExtStep(name, n - 2);
  }

  lemma JpgExtensionIsSuffix(name: string)
    ensures Ext(name) == ".jpg" ==> |name| >= 4 && name[|name| - 4..] == ".jpg"
  {
    var e := Ext(name);
    if e == ".jpg" {
      var j :| 0 <= j < |name| && e == name[j..];
      assert |e| == |name| - j;
    }
  }

  lemma UpperCaseExtensionSkipped()
    ensures Ext("photo.JPG") != ".jpg"
    ensures Ext("photo.tar.jpg") == ".jpg"
  {
    ExtIsJpg("photo.JPG");
    ExtIsJpg("photo.tar.jpg");
  }

  /** The filter of `processSlice`: a regular entry with extension `.jpg`. */
  predicate Eligible(e: DirEntry)
  {
    !e.isDir && Ext(e.name) == ".jpg"
  }

  /** An entry passes the filter exactly when it is not a directory and its
      name ends in `.jpg`. */
  lemma EligibleIsJpgFile(e: DirEntry)
    ensures Eligible(e) <==> !e.isDir && |e.name| >= 4 && e.name[|e.name| - 4..] == ".jpg"
  {
    ExtIsJpg(e.name);
  }

  /** `computeHistogram` on a file that `os.Open` and `image.Decode` turned
      into `img` (`None` when either failed): `None` also when the image has
      no pixels. */
  function ExtractImage(name: string, img: Option<Image>, depth: Depth): (r: Option<Histo>)
    ensures r.Some? ==> r.value.name == name
  {
    match img
    case None => None
    case Some(i) =>
      match HistogramOf(name, i, depth)
      case Success(h) => Some(h)
      case Failure(_) => None
  }

  /** `computeHistogram(filepath.Join(dir, name), depth)` for an entry; the
      histogram is named after the entry (`filepath.Base` of the joined path). */
  function Extract(e: DirEntry, decode: Decoder, depth: Depth): Option<Histo>
  {
    ExtractImage(e.name, decode(e.name), depth)
  }

  /** What one entry contributes to the channel: its histogram, if it is
      eligible and its extraction succeeds. */
  function Produce(e: DirEntry, decode: Decoder, depth: Depth): seq<Histo>
  {
    if Eligible(e) && Extract(e, decode, depth).Some? then [Extract(e, decode, depth).value] else []
  }

  /** The histograms a slice sends to the channel, in slice order. */
  function Emitted(slice: seq<DirEntry>, decode: Decoder, depth: Depth): seq<Histo>
  {
    if |slice| == 0 then []
    else Emitted(slice[..|slice| - 1], decode, depth) + Produce(slice[|slice| - 1], decode, depth)
  }

  /** Entry `j` of `files` is eligible and extracts to `h`. */
  predicate EmitsAt(files: seq<DirEntry>, j: int, decode: Decoder, depth: Depth, h: Histo)
  {
    0 <= j < |files| && Eligible(files[j]) && Extract(files[j], decode, depth) == Some(h)
  }

  /** What one entry contributes to the error report: its name, if it is
      eligible and its extraction fails. */
  function Report(e: DirEntry, decode: Decoder, depth: Depth): seq<string>
  {
    if Eligible(e) && Extract(e, decode, depth).None? then [e.name] else []
  }

  /** The names reported as "Error computing histogram for image". */
  function Failed(slice: seq<DirEntry>, decode: Decoder, depth: Depth): seq<string>
  {
    if |slice| == 0 then []
    else Failed(slice[..|slice| - 1], decode, depth) + Report(slice[|slice| - 1], decode, depth)
  }

  /** `processSlice`: one histogram per eligible entry whose extraction
      succeeds; a failure is reported and the loop goes on. */
  method ProcessSlice(slice: seq<DirEntry>, decode: Decoder, depth: Depth)
    returns (emitted: seq<Histo>, failed: seq<string>)
    ensures emitted == Emitted(slice, decode, depth)
    ensures failed == Failed(slice, decode, depth)
  {
    emitted, failed := [], [];
    for i := 0 to |slice|
      invariant emitted == Emitted(slice[..i], decode, depth)
      invariant failed == Failed(slice[..i], decode, depth)
    {
      assert slice[..i + 1][..i] == slice[..i];
      var file := slice[i];
      if !file.isDir && Ext(file.name) == ".jpg" {
        var img := decode(file.name);
        if img.None? {
          failed := failed + [file.name];
          continue;
        }
        var histo := ComputeHistogram(file.name, img.value, depth);
        if histo.Failure? {
          failed := failed + [file.name];
          continue;
        }
        emitted := emitted + [histo.value];
      }
    }
    assert slice[..|slice|] == slice;
  }

  lemma {:induction false} EmittedConcat(a: seq<DirEntry>, b: seq<DirEntry>, decode: Decoder, depth: Depth)
    ensures Emitted(a + b, decode, depth) == Emitted(a, decode, depth) + Emitted(b, decode, depth)
    decreases |b|
  {
    if |b| == 0 {
      assert a + b == a;
    } else {
      var b' := b[..|b| - 1];
      assert (a + b)[..|a + b| - 1] == a + b';
      assert (a + b)[|a + b| - 1] == b[|b| - 1];
      EmittedConcat(a, b', decode, depth);
    }
  }

  lemma {:induction false} FailedConcat(a: seq<DirEntry>, b: seq<DirEntry>, decode: Decoder, depth: Depth)
    ensures Failed(a + b, decode, depth) == Failed(a, decode, depth) + Failed(b, decode, depth)
    decreases |b|
  {
    if |b| == 0 {
      assert a + b == a;
    } else {
      var b' := b[..|b| - 1];
      assert (a + b)[..|a + b| - 1] == a + b';
      assert (a + b)[|a + b| - 1] == b[|b| - 1];
      FailedConcat(a, b', decode, depth);
    }
  }

  /** All workers together over a partition of the listing: each slice's
      output is appended to the sink in slice order. */
  method CollectHistograms(slices: seq<seq<DirEntry>>, decode: Decoder, depth: Depth)
    returns (all: seq<Histo>, failed: seq<string>)
    ensures all == Emitted(Flatten(slices), decode, depth)
    ensures failed == Failed(Flatten(slices), decode, depth)
  {
    all, failed := [], [];
    for j := 0 to |slices|
      invariant all == Emitted(Flatten(slices[..j]), decode, depth)
      invariant failed == Failed(Flatten(slices[..j]), decode, depth)
    {
      var out, bad := ProcessSlice(slices[j], decode, depth);
      ghost var done := Flatten(slices[..j]);
      assert Flatten(slices[..j + 1]) == done + slices[j] by {
        assert slices[..j + 1] == slices[..j] + [slices[j]];
        FlattenSnoc(slices[..j], slices[j]);
      }
      EmittedConcat(done, slices[j], decode, depth);
      FailedConcat(done, slices[j], decode, depth);
      all := all + out;
      failed := failed + bad;
    }
    assert slices[..|slices|] == slices;
  }

  /** A histogram is emitted exactly when it is the successful extraction of
      some eligible entry. */
  lemma {:induction false} EmittedExactly(files: seq<DirEntry>, decode: Decoder, depth: Depth, h: Histo)
    ensures h in Emitted(files, decode, depth) <==> exists j :: EmitsAt(files, j, decode, depth, h)
  {
    if |files| > 0 {
      var n := |files| - 1;
      var init := files[..n];
      EmittedExactly(init, decode, depth, h);
      assert Emitted(files, decode, depth) == Emitted(init, decode, depth) + Produce(files[n], decode, depth);
      ProduceIsEmitsAt(files, n, decode, depth, h);
      forall j | EmitsAt(init, j, decode, depth, h) ensures EmitsAt(files, j, decode, depth, h) {
        assert files[j] == init[j];
      }
      forall j | EmitsAt(files, j, decode, depth, h) && j != n ensures EmitsAt(init, j, decode, depth, h) {
        assert files[j] == init[j];
      }
    }
  }

  /** What entry `n` contributes is exactly what it emits. */
  lemma ProduceIsEmitsAt(files: seq<DirEntry>, n: nat, decode: Decoder, depth: Depth, h: Histo)
    requires n < |files|
    ensures h in Produce(files[n], decode, depth) <==> EmitsAt(files, n, decode, depth, h)
  {
  }

  /** Every eligible entry is either emitted or reported as failed, so no more
      histograms are emitted than there are entries. */
  lemma {:induction false} EmittedAtMostFiles(files: seq<DirEntry>, decode: Decoder, depth: Depth)
    ensures |Emitted(files, decode, depth)| + |Failed(files, decode, depth)| <= |files|
  {
    if |files| > 0 {
      EmittedAtMostFiles(files[..|files| - 1], decode, depth);
    }
  }

  /** Every emitted histogram has the shape fixed by the depth and is a
      probability distribution. */
  lemma {:induction false} EmittedAreDistributions(files: seq<DirEntry>, decode: Decoder, depth: Depth)
    ensures forall h | h in Emitted(files, decode, depth) ::
      |h.buckets| == BucketCount(depth) && IsDistribution(h.buckets)
  {
    if |files| > 0 {
      var e := files[|files| - 1];
      EmittedAreDistributions(files[..|files| - 1], decode, depth);
      if Eligible(e) && Extract(e, decode, depth).Some? {
        HistogramIsDistribution(e.name, decode(e.name).value, depth);
      }
    }
  }
}
