/** Concatenation of a sequence of runs, used both for the chain of delete
    blocks and for the document blocks forwarded by the aggregation buffer. */
module Seqs {

  /** The runs of `ss`, one after the other, in order. */
  function Flatten<T>(ss: seq<seq<T>>): seq<T>
  {
    if ss == [] then [] else Flatten(ss[..|ss| - 1]) + ss[|ss| - 1]
  }

  lemma FlattenSnoc<T>(ss: seq<seq<T>>, s: seq<T>)
    ensures Flatten(ss + [s]) == Flatten(ss) + s
  {
    assert (ss + [s])[..|ss|] == ss;
  }

  /** Flattening distributes over any cut of the sequence of runs. */
  lemma {:induction false} FlattenSplit<T>(ss: seq<seq<T>>, i: nat)
    requires i <= |ss|
    ensures Flatten(ss) == Flatten(ss[..i]) + Flatten(ss[i..])
  {
    if i == |ss| {
      assert ss[..i] == ss;
      assert ss[i..] == [];
    } else {
      var n := |ss|;
      var init := ss[..n - 1];
      FlattenSplit(init, i);
      assert init[..i] == ss[..i];
      assert ss[i..][..|ss[i..]| - 1] == init[i..];
    }
  }

  /** Flattening `ss[..i + 1]` gives the flattening of `ss[..i]` followed by
      the run `ss[i]`. */
  lemma FlattenStep<T>(ss: seq<seq<T>>, i: nat)
    requires i < |ss|
    ensures Flatten(ss[..i + 1]) == Flatten(ss[..i]) + ss[i]
  {
    assert ss[..i + 1][..i] == ss[..i];
  }

  /** Element `p` of run `i` sits in the flattened sequence right after the
      runs that precede run `i`. */
  lemma FlattenAt<T>(ss: seq<seq<T>>, i: nat, p: nat)
    requires i < |ss| && p < |ss[i]|
    ensures |Flatten(ss[..i])| + p < |Flatten(ss)|
    ensures Flatten(ss)[|Flatten(ss[..i])| + p] == ss[i][p]
  {
    FlattenSplit(ss, i + 1);
    FlattenStep(ss, i);
  }

  /** Every run ends within the flattened sequence. */
  lemma FlattenWithin<T>(ss: seq<seq<T>>, i: nat)
    requires i < |ss|
    ensures |Flatten(ss[..i])| + |ss[i]| <= |Flatten(ss)|
  {
    FlattenSplit(ss, i + 1);
    FlattenStep(ss, i);
  }
}
