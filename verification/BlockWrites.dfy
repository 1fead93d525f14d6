/** Sequences of single-block writes, and what any prefix of them leaves on a disk. */
module BlockWrites {
  import opened Bytes

  datatype Write<T> = Write(at: nat, data: T)

  /** Carrying out the writes in order; a write outside the disk is lost. */
  function Apply<T>(blocks: seq<T>, ws: seq<Write<T>>): (r: seq<T>)
    ensures |r| == |blocks|
  {
    if ws == [] then blocks
    else
      var before, w := Apply(blocks, ws[..|ws| - 1]), ws[|ws| - 1];
      if w.at < |before| then before[w.at := w.data] else before
  }

  /** Consecutive writes of `extent` from block `at` on. */
  function Extent<T>(at: nat, extent: seq<T>): (ws: seq<Write<T>>)
    ensures |ws| == |extent| && forall b :: 0 <= b < |ws| ==> ws[b] == Write(at + b, extent[b])
  {
    seq(|extent|, b requires 0 <= b < |extent| => Write(at + b, extent[b]))
  }

  /** The write order of `write_file`: the extent block by block, then block 0. */
  function Commit<T>(at: nat, extent: seq<T>, block0: T): (ws: seq<Write<T>>)
    ensures |ws| == |extent| + 1
  {
    Extent(at, extent) + [Write(0, block0)]
  }

  lemma {:induction false} ApplyExtent<T>(blocks: seq<T>, at: nat, extent: seq<T>, k: nat)
    requires k <= |extent| && at + k <= |blocks|
    ensures Apply(blocks, Extent(at, extent)[..k]) == Splice(blocks, at, extent[..k])
  {
    if k > 0 {
      ApplyExtent(blocks, at, extent, k - 1);
      assert Extent(at, extent)[..k][..k - 1] == Extent(at, extent)[..k - 1];
    }
  }

  /** After `k` writes the first `k` blocks of the extent are down, and block 0 only after all the others. */
  lemma {:induction false} ApplyCommit<T>(blocks: seq<T>, at: nat, extent: seq<T>, block0: T, k: nat)
    requires 0 < at && k <= |extent| + 1 && at + Min(k, |extent|) <= |blocks|
    ensures var after := Apply(blocks, Commit(at, extent, block0)[..k]);
      after == if k <= |extent| then Splice(blocks, at, extent[..k]) else Splice(blocks, at, extent)[0 := block0]
  {
    var ws, es := Commit(at, extent, block0), Extent(at, extent);
    if k <= |extent| {
      assert ws[..k] == es[..k];
      ApplyExtent(blocks, at, extent, k);
    } else {
      assert ws[..k] == ws && ws[..|ws| - 1] == es == es[..|es|] && extent[..|extent|] == extent;
      ApplyExtent(blocks, at, extent, |extent|);
    }
  }

  /** Rewriting block 0 with what it holds leaves only the extent to see. */
  lemma {:induction false} ApplyRecommit<T>(blocks: seq<T>, at: nat, extent: seq<T>, k: nat)
    requires 0 < at && at + |extent| <= |blocks| && k <= |extent| + 1
    ensures Apply(blocks, Commit(at, extent, blocks[0])[..k]) == Splice(blocks, at, extent[..Min(k, |extent|)])
  {
    ApplyCommit(blocks, at, extent, blocks[0], k);
    assert extent[..|extent|] == extent;
  }
}
