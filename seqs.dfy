/** Concatenation of a sequence of sequences, shared by the partitioner,
    the worker fan-in and the row-by-row scan of an image. */
module Seqs {

  /** The elements of `ss`, in order: `ss[0] + ss[1] + ...`. */
  function Flatten<T>(ss: seq<seq<T>>): seq<T>
  {
    if |ss| == 0 then [] else Flatten(ss[..|ss| - 1]) + ss[|ss| - 1]
  }

  lemma {:induction false} FlattenConcat<T>(a: seq<seq<T>>, b: seq<seq<T>>)
    ensures Flatten(a + b) == Flatten(a) + Flatten(b)
    decreases |b|
  {
    if |b| == 0 {
      assert a + b == a;
    } else {
      var b' := b[..|b| - 1];
      assert (a + b)[..|a + b| - 1] == a + b';
      FlattenConcat(a, b');
    }
  }

  lemma FlattenCons<T>(s: seq<T>, ss: seq<seq<T>>)
    ensures Flatten([s] + ss) == s + Flatten(ss)
  {
    FlattenConcat([s], ss);
    assert [s][..0] == [];
  }

  lemma FlattenSnoc<T>(ss: seq<seq<T>>, s: seq<T>)
    ensures Flatten(ss + [s]) == Flatten(ss) + s
  {
    assert (ss + [s])[..|ss|] == ss;
  }

  /** Extending a prefix of `row` by one element, after `done`. */
  lemma AppendNext<T>(done: seq<T>, row: seq<T>, x: nat)
    requires x < |row|
    ensures done + row[..x + 1] == (done + row[..x]) + [row[x]]
  {
    assert row[..x + 1] == row[..x] + [row[x]];
  }
}
