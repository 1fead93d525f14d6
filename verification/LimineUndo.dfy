/** The undo journal of the installer: byte ranges with the content they had before being overwritten. */
module LimineUndo {
  import opened Bytes

  datatype Entry = Entry(loc: nat, data: seq<byte>) {
    predicate Covers(x: nat) { loc <= x < loc + |data| }
  }

  /** Overwriting `image` from `loc` on, as far as it reaches. */
  function Put(image: seq<byte>, e: Entry): (r: seq<byte>)
    ensures |r| == |image|
  {
    var lo, hi := Min(e.loc, |image|), Min(e.loc + |e.data|, |image|);
    image[..lo] + e.data[..hi - lo] + image[hi..]
  }

  lemma PutBytes(image: seq<byte>, e: Entry)
    ensures forall x :: 0 <= x < |image| ==>
      Put(image, e)[x] == if e.Covers(x) then e.data[x - e.loc] else image[x]
  {}

  lemma PutNothing(image: seq<byte>, loc: nat)
    ensures Put(image, Entry(loc, [])) == image
  {}

  /** Writing a range in two parts. */
  lemma PutPut(image: seq<byte>, loc: nat, data: seq<byte>, i: nat, j: nat)
    requires i <= j <= |data|
    ensures Put(Put(image, Entry(loc, data[..i])), Entry(loc + i, data[i..j])) == Put(image, Entry(loc, data[..j]))
  {
    hide Put;
    PutBytes(image, Entry(loc, data[..i]));
    PutBytes(Put(image, Entry(loc, data[..i])), Entry(loc + i, data[i..j]));
    PutBytes(image, Entry(loc, data[..j]));
  }

  /** Bytes beyond the end of the image make no difference. */
  lemma PutClipped(image: seq<byte>, loc: nat, data: seq<byte>, i: nat)
    requires i <= |data| && loc + i >= |image|
    ensures Put(image, Entry(loc, data[..i])) == Put(image, Entry(loc, data))
  {}

  function Replay(image: seq<byte>, log: seq<Entry>): (r: seq<byte>)
    ensures |r| == |image|
  {
    if log == [] then image else Put(Replay(image, log[..|log| - 1]), log[|log| - 1])
  }

  function Reverse<T>(s: seq<T>): (r: seq<T>)
    ensures |r| == |s|
    ensures forall i :: 0 <= i < |s| ==> r[i] == s[|s| - 1 - i]
  {
    if s == [] then [] else Reverse(s[1..]) + [s[0]]
  }

  predicate Covered(log: seq<Entry>, x: nat)
  {
    log != [] && (log[0].Covers(x) || Covered(log[1..], x))
  }

  /** The byte the oldest entry covering `x` saved. */
  function Oldest(log: seq<Entry>, x: nat): byte
    requires Covered(log, x)
  {
    if log[0].Covers(x) then log[0].data[x - log[0].loc] else Oldest(log[1..], x)
  }

  /** The oldest saved value of every logged byte is its original one. */
  ghost predicate Saves(orig: seq<byte>, log: seq<Entry>)
  {
    forall x :: 0 <= x < |orig| && Covered(log, x) ==> Oldest(log, x) == orig[x]
  }

  /** Every byte that is not logged still has its original value in `image`. */
  ghost predicate Keeps(orig: seq<byte>, log: seq<Entry>, image: seq<byte>)
  {
    |image| == |orig| && forall x :: 0 <= x < |orig| && !Covered(log, x) ==> image[x] == orig[x]
  }

  /** Replaying a journal newest entry first leaves, at each logged byte, the oldest saved value. */
  lemma {:induction false} ReplayReversedAt(image: seq<byte>, log: seq<Entry>, x: nat)
    requires x < |image|
    ensures Replay(image, Reverse(log))[x] == if Covered(log, x) then Oldest(log, x) else image[x]
  {
    if log != [] {
      ReplayReversedAt(image, log[1..], x);
      var r := Reverse(log);
      assert r[..|r| - 1] == Reverse(log[1..]);
      PutBytes(Replay(image, Reverse(log[1..])), log[0]);
    }
  }

  /** Undo is independent of what the logged bytes contain when it starts. */
  lemma {:induction false} UndoRestores(orig: seq<byte>, log: seq<Entry>, image: seq<byte>)
    requires Saves(orig, log) && Keeps(orig, log, image)
    ensures Replay(image, Reverse(log)) == orig
  {
    var r := Replay(image, Reverse(log));
    forall x | 0 <= x < |orig| ensures r[x] == orig[x] {
      ReplayReversedAt(image, log, x);
    }
  }

  /** Undo brings back the original exactly if every byte that was changed is covered by the journal. */
  lemma UndoRestoresIff(orig: seq<byte>, log: seq<Entry>, image: seq<byte>)
    requires Saves(orig, log) && |image| == |orig|
    ensures Replay(image, Reverse(log)) == orig <==> Keeps(orig, log, image)
  {
    if Keeps(orig, log, image) {
      UndoRestores(orig, log, image);
    } else {
      var x :| 0 <= x < |orig| && !Covered(log, x) && image[x] != orig[x];
      ReplayReversedAt(image, log, x);
    }
  }

  lemma {:induction false} CoveredAppend(log: seq<Entry>, e: Entry, x: nat)
    ensures Covered(log + [e], x) <==> Covered(log, x) || e.Covers(x)
    ensures Covered(log, x) ==> Oldest(log + [e], x) == Oldest(log, x)
    ensures !Covered(log, x) && e.Covers(x) ==> Oldest(log + [e], x) == e.data[x - e.loc]
  {
    if log == [] {
      assert [e][1..] == [];
    } else {
      assert (log + [e])[1..] == log[1..] + [e];
      CoveredAppend(log[1..], e, x);
    }
  }

  /**
  One journaled write keeps the journal complete: the entry saves what the image held, and afterwards
  disk and image differ from before only inside the entry or by bytes of the old image.
  */
  lemma WriteKeepsJournal(orig: seq<byte>, log: seq<Entry>, disk: seq<byte>, image: seq<byte>,
                          e: Entry, disk': seq<byte>, image': seq<byte>)
    requires Saves(orig, log) && Keeps(orig, log, disk) && Keeps(orig, log, image)
    requires |disk'| == |image'| == |orig|
    requires forall x :: 0 <= x < |orig| && e.Covers(x) ==> e.data[x - e.loc] == image[x]
    requires forall x :: 0 <= x < |orig| && !e.Covers(x) ==>
      image'[x] == image[x] && (disk'[x] == disk[x] || disk'[x] == image[x])
    ensures Saves(orig, log + [e]) && Keeps(orig, log + [e], disk') && Keeps(orig, log + [e], image')
  {
    forall x | 0 <= x < |orig|
      ensures Covered(log + [e], x) ==> Oldest(log + [e], x) == orig[x]
      ensures !Covered(log + [e], x) ==> disk'[x] == orig[x] && image'[x] == orig[x]
    {
      CoveredAppend(log, e, x);
    }
  }

  lemma PutTwice(image: seq<byte>, e: Entry)
    ensures Put(Put(image, e), e) == Put(image, e)
  {}

  /** A range written in part and then in full. */
  lemma PutOver(image: seq<byte>, e: Entry, n: nat)
    requires n <= |e.data|
    ensures Put(Put(image, Entry(e.loc, e.data[..n])), e) == Put(image, e)
  {
    hide Put;
    PutBytes(image, Entry(e.loc, e.data[..n]));
    PutBytes(Put(image, Entry(e.loc, e.data[..n])), e);
    PutBytes(image, e);
  }

  lemma ReplayNext(image: seq<byte>, log: seq<Entry>, i: nat)
    requires i < |log|
    ensures Replay(image, log[..i + 1]) == Put(Replay(image, log[..i]), log[i])
  {
    assert log[..i + 1][..i] == log[..i];
  }
}
