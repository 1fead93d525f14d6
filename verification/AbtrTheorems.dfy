/** What creating, overwriting and reading do to the files of a formatted partition, crashes included. */
module AbtrTheorems {
  import opened Bytes
  import opened AbtrFormat
  import opened AbtrLayout
  import opened BlockWrites
  import opened AbtrPlan

  /** A partition that mounts and whose used region is a chain of files. It may claim more blocks than there are. */
  predicate Formatted(blocks: seq<Block>)
  {
    && |blocks| > 0
    && PartMagic(blocks[0]) == PARTITION_MAGIC
    && FreeBlocks(blocks[0]) < TotalBlocks(blocks[0]) <= MAX_TOTAL
    && Tiled(blocks, 1, Used(blocks[0]))
  }

  /** The files a fresh mount finds. */
  function View(blocks: seq<Block>): seq<File>
    requires Formatted(blocks)
  {
    Files(blocks, 1, Used(blocks[0]))
  }

  /** The block of the `i`-th file's header. */
  function HeaderOf(blocks: seq<Block>, i: nat): (p: nat)
    requires Formatted(blocks) && i < |View(blocks)|
    ensures 1 <= p < Used(blocks[0]) <= |blocks| && GoodHeader(blocks[p], p, Used(blocks[0]))
    ensures p + 1 + SectionCount(blocks[p]) <= Used(blocks[0])
    ensures |View(blocks)[i].content| == TotalSize(blocks[p])
  {
    FilesAtHeaders(blocks, 1, Used(blocks[0]), i);
    Headers(blocks, 1, Used(blocks[0]))[i]
  }

  // ----- reading -----

  /** Byte `x` of the payload of `sections` blocks at block `at`; behind the last block there are zeros. */
  predicate HasByte(d: Disk, at: nat, sections: nat, x: nat, value: byte)
  {
    if x / 4096 < sections then at + x / 4096 < |d.blocks| && value == d.blocks[at + x / 4096][x % 4096]
    else value == 0
  }

  /** The size a header records. */
  function Recorded(h: Block): nat { if SectionCount(h) == 0 then 0 else (SectionCount(h) - 1) * 4096 + LastSize(h) }

  /**
  Reading with any header, sound or not: nothing from its recorded size on; an error exactly if one of its blocks
  that hold requested bytes cannot be read; otherwise the bytes up to the limit, if there is one, or the end.
  */
  lemma ReadAtMeans(d: Disk, h: Block, offset: nat, limit: nat)
    ensures var (r, total, at) := (ReadAt(d, h, offset, limit), Recorded(h), PayloadOffset(h));
      if offset >= total then r == Ok([])
      else
        var n := if limit == 0 || limit > total - offset then total - offset else limit;
        var first, last := at + offset / 4096, at + (offset + n - 1) / 4096;
        if exists b :: first <= b <= last && b < at + SectionCount(h) && !d.Readable(b) then r == Err(IOError)
        else
          && r.Ok? && |r.value| == n
          && forall x :: 0 <= x < n ==> HasByte(d, at, SectionCount(h), offset + x, r.value[x])
  {
    hide FromLE, BytesFrom, SectionCount, PayloadOffset, LastSize;
    if offset < TotalSize(h) {
      var at, n := PayloadOffset(h), ReadCount(TotalSize(h), offset, limit);
      var r := ReadAt(d, h, offset, limit);
      if r.Ok? {
        forall x | 0 <= x < n ensures HasByte(d, at, SectionCount(h), offset + x, r.value[x]) {
          if (offset + x) / 4096 < SectionCount(h) {
            assert d.Readable(at + (offset + x) / 4096);
          }
        }
      }
    }
  }

  /** `read_file` on a readable file is a flat slice of its content, for every offset and limit. */
  lemma ReadRefinesSlice(d: Disk, p: nat, used: nat, offset: nat, limit: nat)
    requires used <= |d.blocks| && p < used && GoodHeader(d.blocks[p], p, used)
    requires forall b :: p < b <= p + SectionCount(d.blocks[p]) ==> d.Readable(b)
    ensures ReadAt(d, d.blocks[p], offset, limit) == Ok(SliceOf(ContentAt(d.blocks, p, used), offset, limit))
  {
    hide FromLE, NameOf, Flat;
    var h := d.blocks[p];
    var c := ContentAt(d.blocks, p, used);
    if offset < |c| {
      var n := ReadCount(|c|, offset, limit);
      var s := BytesFrom(d, p + 1, SectionCount(h), offset, n);
      forall i | 0 <= i < n ensures s[i] == SliceOf(c, offset, limit)[i] {
        FlatAt(d.blocks[p + 1..p + 1 + SectionCount(h)], offset + i);
      }
      assert s == SliceOf(c, offset, limit);
    }
  }

  // ----- creation -----

  /** The content after the first `k` blocks of new bytes `e` have replaced those of a file with bytes `c`. */
  function Torn(c: seq<byte>, e: seq<byte>, k: nat): (t: seq<byte>)
    requires |c| == |e|
    ensures |t| == |c|
  {
    var m := Min(k * BLOCK, |c|);
    e[..m] + c[m..]
  }

  lemma BlocksSuffice(size: nat)
    ensures size <= BLOCK * BlocksFor(size)
  {}

  lemma TornPayload(before: seq<Block>, e: seq<byte>, n: nat, k: nat)
    requires |before| == BlocksFor(|e|) && k <= |before| && n <= |e|
    ensures n <= |Flat(before)| && n <= |Flat(Splice(before, 0, Payload(e)[..k]))|
    ensures Flat(Splice(before, 0, Payload(e)[..k]))[..n] == Torn(Flat(before)[..n], e[..n], k)
  {
    var after := Splice(before, 0, Payload(e)[..k]);
    BlocksSuffice(|e|);
    hide *;
    var was, now, torn := Flat(before)[..n], Flat(after)[..n], Torn(Flat(before)[..n], e[..n], k);
    forall i | 0 <= i < n ensures now[i] == torn[i] {
      TornByte(before, after, e, k, i);
      TornAt(was, e[..n], k, i);
    }
  }

  lemma TornAt(c: seq<byte>, e: seq<byte>, k: nat, i: nat)
    requires |c| == |e| && i < |c|
    ensures Torn(c, e, k)[i] == if i < k * BLOCK then e[i] else c[i]
  {}

  lemma TornByte(before: seq<Block>, after: seq<Block>, e: seq<byte>, k: nat, i: nat)
    requires |before| == |after| == BlocksFor(|e|) && k <= |before| && i < |e|
    requires after == Splice(before, 0, Payload(e)[..k])
    ensures Flat(after)[i] == if i < k * BLOCK then e[i] else Flat(before)[i]
  {
    hide Flat, Payload, PayloadBlock, Splice;
    var b := i / BLOCK;
    FlatAt(after, i);
    FlatAt(before, i);
    if b < k {
      assert after[b] == Payload(e)[b] == PayloadBlock(e, b);
    } else {
      assert after[b] == before[b];
    }
  }

  /** Zero-padded blocks of `e`, read back to back, start with `e`. */
  lemma PayloadReadsBack(e: seq<byte>)
    ensures Flat(Payload(e))[..|e|] == e
  {
    TornPayload(Payload(e), e, |e|, BlocksFor(|e|));
    var n := BlocksFor(|e|);
    assert e[..|e|] == e;
    assert Splice(Payload(e), 0, Payload(e)[..n]) == Payload(e);
    assert Torn(Flat(Payload(e))[..|e|], e, n) == e;
  }

  lemma SizesAgree(size: nat)
    requires size > 0
    ensures (BlocksFor(size) - 1) * BLOCK + LastSizeFor(size) == size
    ensures 1 <= BlocksFor(size) && 1 <= LastSizeFor(size) <= BLOCK
  {}

  lemma NoFiles(blocks: seq<Block>, used: nat)
    requires used <= |blocks|
    ensures Tiled(blocks, used, used) && Files(blocks, used, used) == []
  {}

  lemma CreatedContent(blocks: seq<Block>, at: nat, used: nat, e: seq<byte>)
    requires 0 < |e| && at < used <= |blocks|
    requires GoodHeader(blocks[at], at, used) && used == at + 1 + SectionCount(blocks[at])
    requires SectionCount(blocks[at]) == BlocksFor(|e|) && LastSize(blocks[at]) == LastSizeFor(|e|)
    requires blocks[at + 1..used] == Payload(e)
    ensures FileAt(blocks, at, used) == File(NameOf(PathField(blocks[at])), e)
  {
    hide FromLE, NameOf, Flat, Payload, IsFile, LastSizeFor, Tiled, Files;
    SizesAgree(|e|);
    PayloadReadsBack(e);
  }

  /** A good header and its payload, with nothing behind, are a chain of one file. */
  lemma CreatedRegion(blocks: seq<Block>, at: nat, used: nat, e: seq<byte>)
    requires 0 < |e| && at < used <= |blocks|
    requires GoodHeader(blocks[at], at, used) && used == at + 1 + SectionCount(blocks[at])
    requires SectionCount(blocks[at]) == BlocksFor(|e|) && LastSize(blocks[at]) == LastSizeFor(|e|)
    requires blocks[at + 1..used] == Payload(e)
    ensures Tiled(blocks, at, used)
    ensures Files(blocks, at, used) == [File(NameOf(PathField(blocks[at])), e)]
  {
    CreatedContent(blocks, at, used, e);
    hide FromLE, NameOf, ContentAt, FileAt, Payload, GoodHeader, Skip, LastSizeFor;
    GoodSkip(blocks[at], at, used);
    NoFiles(blocks, used);
  }

  lemma NewHeaderIsGood(part: Block, path: Path, size: nat)
    requires 0 < size && 0 <= Used(part) && Used(part) + 1 + BlocksFor(size) <= MAX_TOTAL
    ensures var h := NewHeader(part, path, size);
      && GoodHeader(h, Used(part), Used(part) + 1 + BlocksFor(size))
      && SectionCount(h) == BlocksFor(size) && LastSize(h) == LastSizeFor(size)
      && NameOf(PathField(h)) == NameOf(StoredPath(path))
  {
    SizesAgree(size);
    StoredPathName(path);
    BuiltHeaderReadsBack(BlocksFor(size), LastSizeFor(size), StoredPath(path), Used(part) + 1);
  }

  /** The committed creation, for any good header and its payload. */
  lemma CommittedFile(blocks: seq<Block>, h: Block, e: seq<byte>, block0: Block)
    requires Formatted(blocks) && 0 < |e|
    requires PartMagic(block0) == PARTITION_MAGIC && TotalBlocks(block0) == TotalBlocks(blocks[0])
    requires FreeBlocks(block0) == FreeBlocks(blocks[0]) - 1 - BlocksFor(|e|)
    requires var at := Used(blocks[0]);
      at + 1 + BlocksFor(|e|) <= |blocks| && GoodHeader(h, at, at + 1 + BlocksFor(|e|))
    requires SectionCount(h) == BlocksFor(|e|) && LastSize(h) == LastSizeFor(|e|)
    ensures var after := Splice(blocks, Used(blocks[0]), [h] + Payload(e))[0 := block0];
      && Formatted(after) && View(after) == View(blocks) + [File(NameOf(PathField(h)), e)]
  {
    hide FromLE, NameOf, Flat, Payload, Splice, Tiled, Files, GoodHeader;
    var at := Used(blocks[0]);
    var used := at + 1 + BlocksFor(|e|);
    var after := Splice(blocks, at, [h] + Payload(e))[0 := block0];
    TiledPosition(blocks, 1, at);
    TiledFrame(blocks, after, 1, at);
    assert after[at] == h;
    assert after[at + 1..used] == Payload(e);
    CreatedRegion(after, at, used, e);
    TiledAppend(after, 1, at, used);
  }

  /**
  Creating a file is crash-atomic: whatever prefix of its block writes reaches the disk, a fresh mount
  finds exactly the old files, or, once the last write is down, those and the complete new one. On a disk
  smaller than its partition only a prefix that fits can be written.
  */
  lemma CreateIsCrashAtomic(blocks: seq<Block>, path: Path, e: seq<byte>, k: nat)
    requires Formatted(blocks) && 0 < |e| && 1 + BlocksFor(|e|) <= FreeBlocks(blocks[0])
    requires Used(blocks[0]) + Min(k, 1 + BlocksFor(|e|)) <= |blocks|
    ensures var ws := CreatePlan(blocks[0], path, e).Writes();
      var after := Apply(blocks, ws[..Min(k, |ws|)]);
      && Formatted(after)
      && TotalBlocks(after[0]) == TotalBlocks(blocks[0])
      && View(after) == View(blocks) + if k < |ws| then [] else [File(NameOf(StoredPath(path)), e)]
  {
    hide FromLE, NameOf, WithFree, StoredPath, NewHeader, Payload, Splice, Apply, Tiled, Files, GoodHeader, Commit;
    var part := blocks[0];
    var plan := CreatePlan(part, path, e);
    ApplyCommit(blocks, plan.at, plan.extent, plan.block0, Min(k, |plan.Writes()|));
    TiledPosition(blocks, 1, Used(part));
    if k < |plan.Writes()| {
      TiledFrame(blocks, Splice(blocks, plan.at, plan.extent[..k]), 1, Used(part));
    } else {
      NewHeaderIsGood(part, path, |e|);
      WithFreeReadsBack(part, plan.free);
      CommittedFile(blocks, NewHeader(part, path, |e|), e, plan.block0);
    }
  }

  // ----- overwriting -----

  /** A header's payload may change without affecting the rest of the chain. */
  lemma {:induction false} PayloadFrame(a: seq<Block>, b: seq<Block>, p: nat, used: nat, i: nat)
    requires Tiled(a, p, used) && i < |Headers(a, p, used)| && used <= |b|
    requires var h := Headers(a, p, used)[i];
      forall x :: p <= x < used && !(h < x <= h + SectionCount(a[h])) ==> a[x] == b[x]
    ensures Tiled(b, p, used) && Headers(b, p, used) == Headers(a, p, used)
    ensures var h := Headers(a, p, used)[i];
      Files(b, p, used) == Files(a, p, used)[i := FileAt(b, h, used)]
    decreases used - p
  {
    hide GoodHeader, Skip, FileAt;
    GoodSkip(a[p], p, used);
    var q := p + Skip(a[p]);
    if i == 0 {
      TiledFrame(a, b, q, used);
    } else {
      assert Headers(a, p, used)[i] == Headers(a, q, used)[i - 1];
      FileFrame(a, b, p, used);
      PayloadFrame(a, b, q, used, i - 1);
    }
  }

  lemma TornContent(blocks: seq<Block>, p: nat, used: nat, e: seq<byte>, k: nat)
    requires p < used <= |blocks| && GoodHeader(blocks[p], p, used)
    requires TotalSize(blocks[p]) <= |e| && k <= |Payload(e)| == SectionCount(blocks[p])
    ensures var after := Splice(blocks, p + 1, Payload(e)[..k]);
      var c := ContentAt(blocks, p, used);
      FileAt(after, p, used) == File(FileAt(blocks, p, used).name, Torn(c, e[..|c|], k))
  {
    hide FromLE, NameOf, Flat, Torn, Payload, IsFile;
    var n := SectionCount(blocks[p]);
    var before := blocks[p + 1..p + 1 + n];
    var after := Splice(blocks, p + 1, Payload(e)[..k]);
    assert after[p + 1..p + 1 + n] == Splice(before, 0, Payload(e)[..k]);
    TornPayload(before, e, TotalSize(blocks[p]), k);
  }

  /**
  An overwrite that adds no block, cut off after `k` block writes: a mount still finds every file, all others
  unchanged; the overwritten one keeps its length, and exactly its first `k` blocks are new.
  */
  lemma OverwritePrefix(blocks: seq<Block>, i: nat, e: seq<byte>, k: nat)
    requires Formatted(blocks) && i < |View(blocks)| && |View(blocks)[i].content| <= |e|
    requires var h := blocks[HeaderOf(blocks, i)];
      BlocksFor(|e|) == SectionCount(h)
    ensures var ws := OverwritePlan(blocks[0], blocks[HeaderOf(blocks, i)], e).Writes();
      var after := Apply(blocks, ws[..Min(k, |ws|)]);
      var f := View(blocks)[i];
      && Formatted(after) && after[0] == blocks[0]
      && View(after) == View(blocks)[i := File(f.name, Torn(f.content, e[..|f.content|], k))]
  {
    hide FromLE, NameOf, Flat, ContentAt, Torn, Payload, Apply, OverwritePlan;
    var used := Used(blocks[0]);
    var p := Headers(blocks, 1, used)[i];
    FilesAtHeaders(blocks, 1, used, i);
    var done := Min(k, SectionCount(blocks[p]));
    InPlaceWrites(blocks, p, used, e, k);
    TornContent(blocks, p, used, e, done);
    TornAll(View(blocks)[i].content, e[..|View(blocks)[i].content|], done, k);
    PayloadFrame(blocks, Splice(blocks, p + 1, Payload(e)[..done]), 1, used, i);
  }

  lemma InPlaceWrites(blocks: seq<Block>, p: nat, used: nat, e: seq<byte>, k: nat)
    requires p < used <= |blocks| && GoodHeader(blocks[p], p, used) && 0 < |blocks|
    requires BlocksFor(|e|) == SectionCount(blocks[p])
    ensures var ws := OverwritePlan(blocks[0], blocks[p], e).Writes();
      Apply(blocks, ws[..Min(k, |ws|)]) == Splice(blocks, p + 1, Payload(e)[..Min(k, |Payload(e)|)])
  {
    hide FromLE, NameOf, PayloadBlock, WithFree, Apply, Commit, Splice, Payload;
    WithSameFree(blocks[0]);
    ApplyRecommit(blocks, p + 1, Payload(e), Min(k, |Payload(e)| + 1));
  }

  lemma TornAll(c: seq<byte>, e: seq<byte>, j: nat, k: nat)
    requires |c| == |e| && (j == k || (j <= k && BlocksFor(|e|) <= j))
    ensures Torn(c, e, k) == Torn(c, e, j)
  {}

  // ----- when an overwrite is atomic -----

  /** All bytes that change lie in one block. */
  predicate OneBlock(c: seq<byte>, e: seq<byte>)
    requires |c| == |e|
  {
    forall i, j :: 0 <= i < j < |c| && c[i] != e[i] && c[j] != e[j] ==> i / BLOCK == j / BLOCK
  }

  lemma TornOneBlock(c: seq<byte>, e: seq<byte>, k: nat)
    requires |c| == |e| && OneBlock(c, e)
    ensures Torn(c, e, k) == c || Torn(c, e, k) == e
  {
    var t := Torn(c, e, k);
    if t != c && t != e {
      var i :| 0 <= i < |c| && t[i] != c[i];
      var j :| 0 <= j < |c| && t[j] != e[j];
      TornAt(c, e, k, i);
      TornAt(c, e, k, j);
      assert false;
    }
  }

  lemma TornTwoBlocks(c: seq<byte>, e: seq<byte>, i: nat, j: nat)
    requires |c| == |e| && i < j < |c| && c[i] != e[i] && c[j] != e[j] && i / BLOCK != j / BLOCK
    ensures Torn(c, e, i / BLOCK + 1) != c && Torn(c, e, i / BLOCK + 1) != e
  {
    TornAt(c, e, i / BLOCK + 1, i);
    TornAt(c, e, i / BLOCK + 1, j);
  }

  /** Content is old or new at every moment of an overwrite exactly if the changed bytes lie in one block. */
  lemma TornAtomicIff(c: seq<byte>, e: seq<byte>)
    requires |c| == |e|
    ensures (forall k: nat :: Torn(c, e, k) == c || Torn(c, e, k) == e) <==> OneBlock(c, e)
  {
    if OneBlock(c, e) {
      forall k: nat ensures Torn(c, e, k) == c || Torn(c, e, k) == e {
        TornOneBlock(c, e, k);
      }
    } else {
      var i, j :| 0 <= i < j < |c| && c[i] != e[i] && c[j] != e[j] && i / BLOCK != j / BLOCK;
      TornTwoBlocks(c, e, i, j);
    }
  }

  /** The disk after the first `k` of the writes. */
  function After(blocks: seq<Block>, ws: seq<Write<Block>>, k: nat): seq<Block>
    requires k <= |ws|
  {
    Apply(blocks, ws[..k])
  }

  /** A mount finds the files of `before` or those of the completed call. */
  predicate OldOrNew(blocks: seq<Block>, ws: seq<Write<Block>>, k: nat)
    requires Formatted(blocks) && k <= |ws|
  {
    && Formatted(After(blocks, ws, k)) && Formatted(After(blocks, ws, |ws|))
    && (View(After(blocks, ws, k)) == View(blocks) || View(After(blocks, ws, k)) == View(After(blocks, ws, |ws|)))
  }

  /** Replacing one file's content gives the same files exactly if it is the same content. */
  lemma SameFilesIff(fs: seq<File>, i: nat, a: seq<byte>, b: seq<byte>)
    requires i < |fs|
    ensures fs[i := File(fs[i].name, a)] == fs[i := File(fs[i].name, b)] <==> a == b
    ensures fs[i := File(fs[i].name, a)] == fs <==> a == fs[i].content
  {
    var x, y := fs[i := File(fs[i].name, a)], fs[i := File(fs[i].name, b)];
    assert x[i] == File(fs[i].name, a) && y[i] == File(fs[i].name, b);
    if a == fs[i].content {
      assert x == fs;
    }
  }

  /**
  An overwrite that adds no block is crash-atomic exactly if the bytes it changes lie in one block.
  */
  lemma OverwriteAtomicIff(blocks: seq<Block>, i: nat, e: seq<byte>)
    requires Formatted(blocks) && i < |View(blocks)| && |View(blocks)[i].content| <= |e|
    requires BlocksFor(|e|) == SectionCount(blocks[HeaderOf(blocks, i)])
    ensures var ws := OverwritePlan(blocks[0], blocks[HeaderOf(blocks, i)], e).Writes();
      var c := View(blocks)[i].content;
      (forall k: nat :: k <= |ws| ==> OldOrNew(blocks, ws, k)) <==> OneBlock(c, e[..|c|])
  {
    hide FromLE, NameOf, Flat, Payload, Apply, Tiled, Files, Headers, Torn, OneBlock;
    var h := blocks[HeaderOf(blocks, i)];
    var ws := OverwritePlan(blocks[0], h, e).Writes();
    var c := View(blocks)[i].content;
    var e' := e[..|c|];
    TornLate(c, e', |ws|);
    OverwritePrefix(blocks, i, e, |ws|);
    forall k: nat | k <= |ws| ensures OldOrNew(blocks, ws, k) <==> Torn(c, e', k) == c || Torn(c, e', k) == e' {
      OverwritePrefix(blocks, i, e, k);
      SameFilesIff(View(blocks), i, Torn(c, e', k), e');
    }
    forall k: nat | k > |ws| ensures Torn(c, e', k) == e' {
      TornLate(c, e', k);
    }
    TornAtomicIff(c, e');
  }

  lemma TornLate(c: seq<byte>, e: seq<byte>, k: nat)
    requires |c| == |e| && BlocksFor(|e|) <= k
    ensures Torn(c, e, k) == e
  {}

  /** A write whose bytes lie in one block is such an overwrite. */
  lemma SmallWriteIsAtomic(c: seq<byte>, offset: nat, data: seq<byte>)
    requires data == [] || offset / BLOCK == (offset + |data| - 1) / BLOCK
    ensures OneBlock(c, Expanded(c, Max(offset + |data|, |c|), offset, data)[..|c|])
  {
    var e := Expanded(c, Max(offset + |data|, |c|), offset, data)[..|c|];
    forall i, j | 0 <= i < j < |c| && c[i] != e[i] && c[j] != e[j] ensures i / BLOCK == j / BLOCK {
      assert offset <= i < j < offset + |data|;
    }
  }

  /** A write of 4097 bytes over as many zeros that is cut off after one block is neither old nor new. */
  lemma TwoBlocksTear(blocks: seq<Block>, i: nat, e: seq<byte>)
    requires Formatted(blocks) && i < |View(blocks)| && View(blocks)[i].content == Zeros(BLOCK + 1)
    requires e == seq(BLOCK + 1, _ => 1)
    requires BlocksFor(|e|) == SectionCount(blocks[HeaderOf(blocks, i)])
    ensures var ws := OverwritePlan(blocks[0], blocks[HeaderOf(blocks, i)], e).Writes();
      |ws| == 3 && !OldOrNew(blocks, ws, 1)
  {
    hide FromLE, NameOf, Flat, Payload, Apply, Tiled, Files, Headers, Torn, PayloadBlock;
    var h := blocks[HeaderOf(blocks, i)];
    var c := View(blocks)[i].content;
    var ws := OverwritePlan(blocks[0], h, e).Writes();
    assert e[..|c|] == e;
    TornTwoBlocks(c, e, 0, BLOCK);
    TornLate(c, e, 3);
    OverwritePrefix(blocks, i, e, 1);
    OverwritePrefix(blocks, i, e, 3);
    SameFilesIff(View(blocks), i, Torn(c, e, 1), e);
  }

  // ----- writing past the recorded end -----

  /** A scan that found a header finds it again on a disk that agrees up to that header. */
  lemma {:induction false} ScanStable(a: Disk, b: Disk, path: Path, p: nat, used: nat, used': nat, r: nat)
    requires Scan(a, path, p, used) == Some(r) && used <= used'
    requires forall x :: p <= x <= r && a.Readable(x) ==> b.Readable(x) && a.blocks[x] == b.blocks[x]
    ensures Scan(b, path, p, used') == Some(r)
    decreases used - p
  {
    hide FromLE, NameOf;
    if p != r {
      ScanStable(a, b, path, p + Skip(a.blocks[p]), used, used', r);
    }
  }
}
