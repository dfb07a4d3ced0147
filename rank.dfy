/** The ranker: scores collected into a map keyed by image name (the last
    write for a name wins), the map's entries copied into `pairs`, sorted by
    descending score in place, and the first five reported. */
module Rank {
  import opened Histogram
  import opened Compare

  /** Go's `nameScorePair`. */
  datatype Pair = Pair(name: string, score: real)

  /** How many results are printed. */
  const TopCount: nat := 5

  /** Every collected histogram is at least as long as the query, so
      `compareHistograms(queryHisto, histo)` stays in range. */
  predicate Comparable(query: Histo, hs: seq<Histo>)
  {
    forall i | 0 <= i < |hs| :: |query.buckets| <= |hs[i].buckets|
  }

  function Score(query: Histo, h: Histo): real
    requires |query.buckets| <= |h.buckets|
  {
    Intersection(query.buckets, h.buckets)
  }

  /** `similarityScores` after the channel has delivered `hs` in this order. */
  function ScoreMap(query: Histo, hs: seq<Histo>): map<string, real>
    requires Comparable(query, hs)
  {
    if |hs| == 0 then map[]
    else ScoreMap(query, hs[..|hs| - 1])[hs[|hs| - 1].name := Score(query, hs[|hs| - 1])]
  }

  /** The position of the last histogram named `name`. */
  function LastIndex(hs: seq<Histo>, name: string): (j: int)
    ensures -1 <= j < |hs|
    ensures j >= 0 ==> hs[j].name == name
    ensures forall i | j < i < |hs| :: hs[i].name != name
  {
    if |hs| == 0 then -1
    else if hs[|hs| - 1].name == name then |hs| - 1
    else LastIndex(hs[..|hs| - 1], name)
  }

  /** The map holds exactly the collected names, each with the score of the
      last histogram collected under that name. */
  lemma {:induction false} ScoreMapLastWins(query: Histo, hs: seq<Histo>)
    requires Comparable(query, hs)
    ensures forall name :: name in ScoreMap(query, hs) <==> LastIndex(hs, name) >= 0
    ensures forall name | name in ScoreMap(query, hs) ::
      ScoreMap(query, hs)[name] == Score(query, hs[LastIndex(hs, name)])
  {
    if |hs| > 0 {
      var init := hs[..|hs| - 1];
      ScoreMapLastWins(query, init);
      forall name | LastIndex(hs, name) >= 0 && hs[|hs| - 1].name != name
        ensures LastIndex(hs, name) == LastIndex(init, name) && hs[LastIndex(hs, name)] == init[LastIndex(init, name)]
      {
      }
    }
  }

  predicate HistoNamesDistinct(hs: seq<Histo>)
  {
    forall i, j | 0 <= i < j < |hs| :: hs[i].name != hs[j].name
  }

  /** With distinct names every collected histogram keeps its own score. */
  lemma ScoreMapDistinct(query: Histo, hs: seq<Histo>)
    requires Comparable(query, hs) && HistoNamesDistinct(hs)
    ensures forall name :: name in ScoreMap(query, hs) <==> exists i :: 0 <= i < |hs| && hs[i].name == name
    ensures forall i | 0 <= i < |hs| :: ScoreMap(query, hs)[hs[i].name] == Score(query, hs[i])
  {
    ScoreMapLastWins(query, hs);
    forall i | 0 <= i < |hs| ensures LastIndex(hs, hs[i].name) == i {
    }
  }

  /** Every entry of the map built from `hs1` is in the map built from a
      reordering `hs2`, with the same score. */
  lemma ScoreMapIncluded(query: Histo, hs1: seq<Histo>, hs2: seq<Histo>)
    requires Comparable(query, hs1) && Comparable(query, hs2)
    requires HistoNamesDistinct(hs1) && HistoNamesDistinct(hs2)
    requires multiset(hs1) == multiset(hs2)
    ensures forall name | name in ScoreMap(query, hs1) ::
      name in ScoreMap(query, hs2) && ScoreMap(query, hs2)[name] == ScoreMap(query, hs1)[name]
  {
    var m1, m2 := ScoreMap(query, hs1), ScoreMap(query, hs2);
    ScoreMapDistinct(query, hs1);
    ScoreMapDistinct(query, hs2);
    forall name | name in m1 ensures name in m2 && m2[name] == m1[name] {
      var i :| 0 <= i < |hs1| && hs1[i].name == name;
      assert hs1[i] in multiset(hs2);
      var j :| 0 <= j < |hs2| && hs2[j] == hs1[i];
      assert m1[name] == Score(query, hs1[i]);
      assert m2[name] == Score(query, hs2[j]);
    }
  }

  /** The channel delivers the histograms in an order that depends on the
      scheduling of the workers. When the names are distinct, as the names of
      one directory are, every delivery order gives the same map. */
  lemma ScoreMapOrderFree(query: Histo, hs1: seq<Histo>, hs2: seq<Histo>)
    requires Comparable(query, hs1) && Comparable(query, hs2)
    requires HistoNamesDistinct(hs1) && HistoNamesDistinct(hs2)
    requires multiset(hs1) == multiset(hs2)
    ensures ScoreMap(query, hs1) == ScoreMap(query, hs2)
  {
    ScoreMapIncluded(query, hs1, hs2);
    ScoreMapIncluded(query, hs2, hs1);
  }

  /** The collection loop over the channel. */
  method Aggregate(query: Histo, hs: seq<Histo>) returns (similarityScores: map<string, real>)
    requires Comparable(query, hs)
    ensures similarityScores == ScoreMap(query, hs)
  {
    similarityScores := map[];
    for i := 0 to |hs|
      invariant similarityScores == ScoreMap(query, hs[..i])
    {
      assert hs[..i + 1][..i] == hs[..i];
      var score := CompareHistograms(query, hs[i]);
      similarityScores := similarityScores[hs[i].name := score];
    }
    assert hs[..|hs|] == hs;
  }

  predicate NamesDistinct(pairs: seq<Pair>)
  {
    forall i, j | 0 <= i < j < |pairs| :: pairs[i].name != pairs[j].name
  }

  /** `pairs` lists every entry of `m` exactly once. */
  predicate EntriesOf(pairs: seq<Pair>, m: map<string, real>)
  {
    && |pairs| == |m|
    && NamesDistinct(pairs)
    && (forall i | 0 <= i < |pairs| :: pairs[i].name in m && m[pairs[i].name] == pairs[i].score)
    && (forall name | name in m :: exists i :: 0 <= i < |pairs| && pairs[i].name == name)
  }

  /** `for name, score := range similarityScores`: Go visits the map in no
      fixed order, so the key taken next is any one not yet taken. */
  method MapToPairs(m: map<string, real>) returns (pairs: seq<Pair>)
    ensures EntriesOf(pairs, m)
  {
    pairs := [];
    var rest := m.Keys;
    while rest != {}
      invariant rest <= m.Keys
      invariant |pairs| + |rest| == |m|
      invariant NamesDistinct(pairs)
      invariant forall i | 0 <= i < |pairs| :: pairs[i].name in m && pairs[i].name !in rest && m[pairs[i].name] == pairs[i].score
      invariant forall name | name in m && name !in rest :: exists i :: 0 <= i < |pairs| && pairs[i].name == name
      decreases rest
    {
      var name :| name in rest;
      ghost var before := pairs;
      pairs := pairs + [Pair(name, m[name])];
      rest := rest - {name};
      forall n | n in m && n !in rest ensures exists i :: 0 <= i < |pairs| && pairs[i].name == n {
        if n == name {
          assert pairs[|pairs| - 1].name == n;
        } else {
          var i :| 0 <= i < |before| && before[i].name == n;
          assert pairs[i].name == n;
        }
      }
    }
  }

  /** Non-increasing by score. Ties may come in any order: `sort.Slice` is
      not stable. */
  ghost predicate SortedByScore(s: seq<Pair>)
  {
    forall i, j | 0 <= i < j < |s| :: s[i].score >= s[j].score
  }

  method SwapAdjacent(a: array<Pair>, j: int)
    requires 0 < j < a.Length
    modifies a
    ensures a[j - 1] == old(a[j]) && a[j] == old(a[j - 1])
    ensures forall k | 0 <= k < a.Length && k != j - 1 && k != j :: a[k] == old(a[k])
    ensures multiset(a[..]) == multiset(old(a[..]))
  {
    a[j - 1], a[j] := a[j], a[j - 1];
  }

  /** `sort.Slice(pairs, func(i, j int) bool { return pairs[i].Score > pairs[j].Score })`,
      as an insertion sort: the result is a permutation of the input in
      non-increasing score order. */
  method SortByScore(a: array<Pair>)
    modifies a
    ensures SortedByScore(a[..])
    ensures multiset(a[..]) == multiset(old(a[..]))
  {
    for i := 0 to a.Length
      invariant SortedByScore(a[..i])
      invariant multiset(a[..]) == multiset(old(a[..]))
    {
      InsertLast(a, i);
    }
    assert a[..a.Length] == a[..];
  }

  /** One pass of the insertion sort: `a[i]` moves left past every lower
      score, so the sorted prefix grows by one. */
  method InsertLast(a: array<Pair>, i: int)
    requires 0 <= i < a.Length && SortedByScore(a[..i])
    modifies a
    ensures SortedByScore(a[..i + 1])
    ensures multiset(a[..]) == multiset(old(a[..]))
    ensures a[i + 1..] == old(a[i + 1..])
  {
    var j := i;
    while j > 0 && a[j - 1].score < a[j].score
      invariant 0 <= j <= i
      invariant forall p, q | 0 <= p < q <= i && p != j && q != j :: a[p].score >= a[q].score
      invariant forall q | j < q <= i :: a[j].score > a[q].score
      invariant multiset(a[..]) == multiset(old(a[..]))
      invariant a[i + 1..] == old(a[i + 1..])
    {
      SwapAdjacent(a, j);
      j := j - 1;
    }
  }


  function MinNat(a: nat, b: nat): nat
  {
    if a < b then a else b
  }

  /** The printing loop `for i := 0; i < len(pairs) && i < 5; i++`: the first
      `min(len(pairs), 5)` pairs; when `pairs` is sorted no pair left out
      scores higher than one shown. */
  method TopResults(pairs: seq<Pair>) returns (shown: seq<Pair>)
    ensures |shown| == MinNat(|pairs|, TopCount)
    ensures shown == pairs[..|shown|]
    ensures SortedByScore(pairs) ==>
      forall i, j | 0 <= i < |shown| <= j < |pairs| :: pairs[j].score <= shown[i].score
  {
    shown := [];
    var i := 0;
    while i < |pairs| && i < TopCount
      invariant 0 <= i <= MinNat(|pairs|, TopCount)
      invariant shown == pairs[..i]
    {
      shown := shown + [pairs[i]];
      i := i + 1;
    }
  }

  /** The reported ranking of the score map `m`: `min(|m|, 5)` distinct
      entries of `m`, best first, and no entry left out scores higher than
      one reported. */
  ghost predicate IsTopRanking(top: seq<Pair>, m: map<string, real>)
  {
    && |top| == MinNat(|m|, TopCount)
    && SortedByScore(top)
    && NamesDistinct(top)
    && (forall i | 0 <= i < |top| :: top[i].name in m && m[top[i].name] == top[i].score)
    && (forall name | name in m && (forall i | 0 <= i < |top| :: top[i].name != name) ::
          forall i | 0 <= i < |top| :: m[name] <= top[i].score)
  }

  lemma TwoIndicesCount<T>(t: seq<T>, i: int, j: int)
    requires 0 <= i < j < |t| && t[i] == t[j]
    ensures multiset(t)[t[i]] >= 2
  {
    assert t == t[..j] + t[j..];
    assert t[..j][i] == t[i];
    assert t[j..][0] == t[j];
  }

  lemma CountTwoIndices<T>(s: seq<T>, x: T) returns (a: int, b: int)
    requires multiset(s)[x] >= 2
    ensures 0 <= a < b < |s| && s[a] == x && s[b] == x
  {
    assert x in multiset(s);
    a :| 0 <= a < |s| && s[a] == x;
    assert s == s[..a] + [s[a]] + s[a + 1..];
    assert multiset(s)[x] == multiset(s[..a])[x] + 1 + multiset(s[a + 1..])[x];
    if x in multiset(s[..a]) {
      var c :| 0 <= c < a && s[..a][c] == x;
      a, b := c, a;
    } else {
      assert x in multiset(s[a + 1..]);
      var c :| 0 <= c < |s| - a - 1 && s[a + 1..][c] == x;
      b := a + 1 + c;
    }
  }

  /** Reordering the entries of a map keeps them distinct. */
  lemma PermutedEntriesDistinct(pairs: seq<Pair>, sorted: seq<Pair>, m: map<string, real>)
    requires EntriesOf(pairs, m) && multiset(sorted) == multiset(pairs)
    ensures forall i | 0 <= i < |sorted| :: sorted[i].name in m && m[sorted[i].name] == sorted[i].score
    ensures NamesDistinct(sorted)
  {
    forall i | 0 <= i < |sorted| ensures sorted[i].name in m && m[sorted[i].name] == sorted[i].score {
      assert sorted[i] in multiset(pairs);
    }
    forall i, j | 0 <= i < j < |sorted| ensures sorted[i].name != sorted[j].name {
      if sorted[i].name == sorted[j].name {
        assert sorted[i] == sorted[j];
        TwoIndicesCount(sorted, i, j);
        var a, b := CountTwoIndices(pairs, sorted[i]);
        assert false;
      }
    }
  }

  /** Reordering histograms with distinct names keeps the names distinct. */
  lemma PermutedHistosDistinct(hs: seq<Histo>, perm: seq<Histo>)
    requires HistoNamesDistinct(hs) && multiset(perm) == multiset(hs)
    ensures HistoNamesDistinct(perm)
  {
    forall i, j | 0 <= i < j < |perm| ensures perm[i].name != perm[j].name {
      if perm[i].name == perm[j].name {
        assert perm[i] in multiset(hs) && perm[j] in multiset(hs);
        var a :| 0 <= a < |hs| && hs[a] == perm[i];
        var b :| 0 <= b < |hs| && hs[b] == perm[j];
        if a == b {
          TwoIndicesCount(perm, i, j);
          var a', b' := CountTwoIndices(hs, perm[i]);
        }
        assert false;
      }
    }
  }

  /** Reordering the collected histograms keeps them comparable with the query. */
  lemma PermutedComparable(query: Histo, hs: seq<Histo>, perm: seq<Histo>)
    requires Comparable(query, hs) && multiset(perm) == multiset(hs)
    ensures Comparable(query, perm)
  {
    forall i | 0 <= i < |perm| ensures |query.buckets| <= |perm[i].buckets| {
      assert perm[i] in multiset(hs);
    }
  }

  /** A prefix of the sorted entries is sorted, and lists distinct entries
      of `m` with their scores. */
  lemma PrefixOfEntries(sorted: seq<Pair>, top: seq<Pair>, m: map<string, real>)
    requires SortedByScore(sorted) && NamesDistinct(sorted)
    requires forall i | 0 <= i < |sorted| :: sorted[i].name in m && m[sorted[i].name] == sorted[i].score
    requires |top| <= |sorted| && top == sorted[..|top|]
    ensures SortedByScore(top) && NamesDistinct(top)
    ensures forall i | 0 <= i < |top| :: top[i].name in m && m[top[i].name] == top[i].score
  {
    forall i | 0 <= i < |top| ensures top[i] == sorted[i] {
    }
  }

  /** An entry of `m` missing from a sorted prefix scores no higher than any
      entry in it. */
  lemma LeftOutScoresLower(pairs: seq<Pair>, sorted: seq<Pair>, top: seq<Pair>, m: map<string, real>)
    requires EntriesOf(pairs, m) && multiset(sorted) == multiset(pairs) && SortedByScore(sorted)
    requires |top| <= |sorted| && top == sorted[..|top|]
    ensures forall name | name in m && (forall i | 0 <= i < |top| :: top[i].name != name) ::
      forall i | 0 <= i < |top| :: m[name] <= top[i].score
  {
    forall name | name in m && (forall i | 0 <= i < |top| :: top[i].name != name)
      ensures forall i | 0 <= i < |top| :: m[name] <= top[i].score
    {
      var p :| 0 <= p < |pairs| && pairs[p].name == name;
      assert pairs[p] in multiset(sorted);
      var j :| 0 <= j < |sorted| && sorted[j] == pairs[p];
      if j < |top| {
        assert false;
      }
    }
  }

  /** Sorting the map's entries and keeping the first five gives the
      reported ranking. */
  lemma SortedPrefixIsTopRanking(pairs: seq<Pair>, sorted: seq<Pair>, top: seq<Pair>, m: map<string, real>)
    requires EntriesOf(pairs, m) && multiset(sorted) == multiset(pairs) && SortedByScore(sorted)
    requires |top| == MinNat(|sorted|, TopCount) && top == sorted[..|top|]
    ensures IsTopRanking(top, m)
  {
    PermutedEntriesDistinct(pairs, sorted, m);
    assert |sorted| == |multiset(sorted)| == |pairs|;
    PrefixOfEntries(sorted, top, m);
    LeftOutScoresLower(pairs, sorted, top, m);
  }
}
