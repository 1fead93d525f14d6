/**
Writes to existing files on a disk that fails no request, past their recorded end too. The header block is
never rewritten, so the file keeps its length; added blocks run into what lies behind.
*/
module AbtrGrowth {
  import opened Bytes
  import opened AbtrFormat
  import opened AbtrLayout
  import opened BlockWrites
  import opened AbtrPlan
  import opened AbtrTheorems
  import opened AbtrRuns

  /** The call writes to the `i`-th file, there are free blocks for it, and the disk has all of them. */
  predicate Overwrites(blocks: seq<Block>, path: Path, data: seq<byte>, offset: nat, i: nat)
  {
    && Formatted(blocks) && HasSegment(path) && Find(View(blocks), NameOf(path)) == Some(i)
    && var size := |View(blocks)[i].content|;
       var n := BlocksFor(Max(offset + |data|, size));
       n <= BlocksFor(size) + FreeBlocks(blocks[0]) && HeaderOf(blocks, i) + 1 + n <= |blocks|
  }

  /** The disk after the call. */
  function Overwritten(blocks: seq<Block>, path: Path, data: seq<byte>, offset: nat, i: nat): seq<Block>
    requires Overwrites(blocks, path, data, offset, i)
  {
    match PlanWrite(Healthy(blocks), Healthy(blocks), blocks[0], path, data, offset)
    case Err(_) => blocks
    case Ok(plan) => Apply(blocks, plan.Writes())
  }

  /**
  `after` is `blocks` with new bytes `e` behind the header at `p`, which stays as it is, and the used mark
  moved up by the blocks added.
  */
  predicate Grown(blocks: seq<Block>, after: seq<Block>, p: nat, e: seq<byte>)
    requires 0 < p < |blocks|
  {
    && TotalSize(blocks[p]) <= |e| && SectionCount(blocks[p]) <= BlocksFor(|e|)
    && |after| == |blocks| && p + 1 + BlocksFor(|e|) <= |blocks|
    && PartMagic(after[0]) == PartMagic(blocks[0]) && TotalBlocks(after[0]) == TotalBlocks(blocks[0])
    && FreeBlocks(after[0]) == FreeBlocks(blocks[0]) - (BlocksFor(|e|) - SectionCount(blocks[p])) >= 0
    && (forall b :: 0 < b <= p ==> after[b] == blocks[b])
    && (forall b :: 0 <= b < BlocksFor(|e|) ==> after[p + 1 + b] == PayloadBlock(e, b))
    && (forall b :: p + 1 + BlocksFor(|e|) <= b < |blocks| ==> after[b] == blocks[b])
  }

  lemma PlanIs(blocks: seq<Block>, path: Path, data: seq<byte>, offset: nat, i: nat)
    requires Overwrites(blocks, path, data, offset, i)
    ensures var h := blocks[HeaderOf(blocks, i)];
      var e := Wanted(View(blocks)[i].content, data, offset);
      && BlocksFor(|View(blocks)[i].content|) == SectionCount(h)
      && SectionCount(h) <= BlocksFor(|e|) <= SectionCount(h) + FreeBlocks(blocks[0])
      && HeaderOf(blocks, i) + 1 + BlocksFor(|e|) <= |blocks|
      && PlanWrite(Healthy(blocks), Healthy(blocks), blocks[0], path, data, offset)
           == Ok(OverwritePlan(blocks[0], h, e))
  {
    hide FromLE, NameOf, HasSegment, Tiled, Files, Scan, IndexOf, IsFile, Expanded, ContentAt, ReadFile, OverwritePlan;
    ScanIsFind(blocks, path);
    ReadFileRefines(blocks, path, 0, 0);
    FilesAtHeaders(blocks, 1, Used(blocks[0]), i);
    SizesAgree(|View(blocks)[i].content|);
    assert View(blocks)[i].content[..|View(blocks)[i].content|] == View(blocks)[i].content;
    BlocksGrow(|View(blocks)[i].content|, |Wanted(View(blocks)[i].content, data, offset)|);
  }

  /** Such calls are exactly those that succeed and stay on the disk. */
  lemma OverwritesIff(blocks: seq<Block>, path: Path, data: seq<byte>, offset: nat, i: nat)
    requires Formatted(blocks) && HasSegment(path) && Find(View(blocks), NameOf(path)) == Some(i)
    ensures var plan := PlanWrite(Healthy(blocks), Healthy(blocks), blocks[0], path, data, offset);
      Overwrites(blocks, path, data, offset, i) <==> plan.Ok? && plan.value.at + |plan.value.extent| <= |blocks|
  {
    ScanIsFind(blocks, path);
    PlanTo(blocks, path, data, offset, HeaderOf(blocks, i));
    SizesAgree(|View(blocks)[i].content|);
    hide FromLE, NameOf, HasSegment, Tiled, Files, Scan, Find, IsFile, ContentAt, PlanWrite, LastSize, LastSizeFor;
  }

  lemma PlanTo(blocks: seq<Block>, path: Path, data: seq<byte>, offset: nat, p: nat)
    requires blocks != [] && 0 <= Used(blocks[0]) && HasSegment(path)
    requires Scan(Healthy(blocks), path, 1, Used(blocks[0])) == Some(p)
    ensures var plan := PlanWrite(Healthy(blocks), Healthy(blocks), blocks[0], path, data, offset);
      var n := BlocksFor(Max(offset + |data|, TotalSize(blocks[p])));
      && (plan.Ok? <==> 0 < n <= SectionCount(blocks[p]) + FreeBlocks(blocks[0]))
      && (plan.Ok? ==> plan.value.at == PayloadOffset(blocks[p]) && |plan.value.extent| == n)
  {
    hide FromLE, NameOf, HasSegment, Scan, TotalSize, OldBytes, WithFree, Expanded;
  }

  lemma CommitGrows(blocks: seq<Block>, p: nat, e: seq<byte>)
    requires Formatted(blocks) && 0 < p < Used(blocks[0]) && GoodHeader(blocks[p], p, Used(blocks[0]))
    requires SectionCount(blocks[p]) <= BlocksFor(|e|) <= SectionCount(blocks[p]) + FreeBlocks(blocks[0])
    requires TotalSize(blocks[p]) <= |e| && p + 1 + BlocksFor(|e|) <= |blocks|
    ensures Grown(blocks, Apply(blocks, OverwritePlan(blocks[0], blocks[p], e).Writes()), p, e)
  {
    hide FromLE, NameOf, IsFile, Tiled, Payload, PayloadBlock, Apply, WithFree, Commit, TotalSize, BlocksFor;
    var plan := OverwritePlan(blocks[0], blocks[p], e);
    assert plan.Writes()[..|plan.Writes()|] == plan.Writes();
    ApplyCommit(blocks, plan.at, plan.extent, plan.block0, |plan.Writes()|);
    WithFreeReadsBack(blocks[0], plan.free);
  }

  lemma OverwrittenIsGrown(blocks: seq<Block>, path: Path, data: seq<byte>, offset: nat, i: nat)
    requires Overwrites(blocks, path, data, offset, i)
    ensures Grown(blocks, Overwritten(blocks, path, data, offset, i), HeaderOf(blocks, i),
                  Wanted(View(blocks)[i].content, data, offset))
  {
    PlanIs(blocks, path, data, offset, i);
    hide FromLE, NameOf, HasSegment, Tiled, Files, Find, IsFile, PlanWrite, HeaderOf, Payload, Apply, WithFree, Commit,
      Grown, BlocksFor, TotalSize, Expanded;
    CommitGrows(blocks, HeaderOf(blocks, i), Wanted(View(blocks)[i].content, data, offset));
  }

  // ----- what the writer reads afterwards -----

  lemma GrownPayload(blocks: seq<Block>, after: seq<Block>, p: nat, used: nat, e: seq<byte>)
    requires 0 < p < used <= |blocks| && GoodHeader(blocks[p], p, used) && Grown(blocks, after, p, e)
    ensures ReadAt(Healthy(after), after[p], 0, 0) == Ok(e[..TotalSize(blocks[p])])
  {
    hide FromLE, NameOf;
    var n := TotalSize(blocks[p]);
    var s := BytesFrom(Healthy(after), p + 1, SectionCount(blocks[p]), 0, n);
    forall i | 0 <= i < n ensures s[i] == e[i] {
      assert after[p + 1 + i / BLOCK] == PayloadBlock(e, i / BLOCK);
    }
    assert s == e[..n];
  }

  lemma GrownReads(blocks: seq<Block>, after: seq<Block>, path: Path, i: nat, e: seq<byte>)
    requires Formatted(blocks) && HasSegment(path) && Find(View(blocks), NameOf(path)) == Some(i)
    requires Grown(blocks, after, HeaderOf(blocks, i), e)
    ensures Used(after[0]) >= 0
    ensures ReadFile(Healthy(after), after[0], path, 0, 0) == Ok(e[..|View(blocks)[i].content|])
  {
    hide FromLE, NameOf, HasSegment, Tiled, Files, Find, Scan, IsFile, ReadAt, PayloadBlock;
    var p, used := HeaderOf(blocks, i), Used(blocks[0]);
    ScanIsFind(blocks, path);
    ScanStable(Healthy(blocks), Healthy(after), path, 1, used, Used(after[0]), p);
    GrownPayload(blocks, after, p, used, e);
  }

  /**
  After a write to an existing file, with or without growth, the next read returns the first bytes of the
  intended content, as many as the file had before.
  */
  lemma OverwriteKeepsLength(blocks: seq<Block>, path: Path, data: seq<byte>, offset: nat, i: nat)
    requires Overwrites(blocks, path, data, offset, i)
    ensures var after := Overwritten(blocks, path, data, offset, i);
      var c := View(blocks)[i].content;
      && Used(after[0]) >= 0
      && ReadFile(Healthy(after), after[0], path, 0, 0) == Ok(Wanted(c, data, offset)[..|c|])
  {
    OverwrittenIsGrown(blocks, path, data, offset, i);
    var after := Overwritten(blocks, path, data, offset, i);
    hide FromLE, NameOf, PlanWrite, Grown, Overwritten, ReadFile, Tiled, Files, Find, Wanted;
    GrownReads(blocks, after, path, i, Wanted(View(blocks)[i].content, data, offset));
  }

  /** So the intended content reads back exactly if the write stays within the recorded size. */
  lemma OverwriteReadsBackIff(blocks: seq<Block>, path: Path, data: seq<byte>, offset: nat, i: nat)
    requires Overwrites(blocks, path, data, offset, i)
    ensures var after := Overwritten(blocks, path, data, offset, i);
      var c := View(blocks)[i].content;
      && Used(after[0]) >= 0
      && (ReadFile(Healthy(after), after[0], path, 0, 0) == Ok(Wanted(c, data, offset))
          <==> offset + |data| <= |c|)
  {
    OverwriteKeepsLength(blocks, path, data, offset, i);
    hide FromLE, NameOf, PlanWrite, Overwrites, Overwritten, ReadFile, Tiled, Files, Expanded;
    var c := View(blocks)[i].content;
    var e := Wanted(c, data, offset);
    assert |e| == |c| ==> e[..|c|] == e;
  }

  // ----- what the other files read afterwards -----

  /** The same files but for the content of the `i`-th. */
  predicate OthersKept(fs: seq<File>, after: seq<File>, i: nat)
    requires i < |fs|
  {
    |after| == |fs| && after[i].name == fs[i].name && forall j :: 0 <= j < |fs| && j != i ==> after[j] == fs[j]
  }

  lemma {:induction false} FootprintOthersKept(fs: seq<File>, after: seq<File>, i: nat)
    requires i < |fs| && OthersKept(fs, after, i)
    requires BlocksFor(|after[i].content|) == BlocksFor(|fs[i].content|)
    ensures Footprint(after) == Footprint(fs)
  {
    hide BlocksFor;
    if i > 0 {
      FootprintOthersKept(fs[1..], after[1..], i - 1);
    } else {
      assert after[1..] == fs[1..];
    }
  }

  lemma {:induction false} IndexOfOthersKept(fs: seq<File>, after: seq<File>, i: nat, name: seq<byte>)
    requires i < |fs| && OthersKept(fs, after, i)
    ensures IndexOf(after, name) == IndexOf(fs, name)
  {
    if i > 0 {
      IndexOfOthersKept(fs[1..], after[1..], i - 1, name);
    } else {
      assert after[1..] == fs[1..];
    }
  }

  lemma ChainKept(blocks: seq<Block>, path: Path, data: seq<byte>, offset: nat, i: nat)
    requires Overwrites(blocks, path, data, offset, i)
    requires BlocksFor(offset + |data|) <= BlocksFor(|View(blocks)[i].content|)
    ensures var after := Overwritten(blocks, path, data, offset, i);
      Formatted(after) && OthersKept(View(blocks), View(after), i)
  {
    PlanIs(blocks, path, data, offset, i);
    var e := Wanted(View(blocks)[i].content, data, offset);
    WantedBlocks(View(blocks)[i].content, data, offset);
    hide *;
    var plan := OverwritePlan(blocks[0], blocks[HeaderOf(blocks, i)], e);
    CommittedKeeps(blocks, i, e);
    WritesOf(blocks, path, data, offset, i, plan);
  }

  lemma WritesOf(blocks: seq<Block>, path: Path, data: seq<byte>, offset: nat, i: nat, plan: Plan)
    requires Overwrites(blocks, path, data, offset, i)
    ensures PlanWrite(Healthy(blocks), Healthy(blocks), blocks[0], path, data, offset) == Ok(plan) ==>
      Overwritten(blocks, path, data, offset, i) == Apply(blocks, plan.Writes())
  {
    hide PlanWrite, Apply, Formatted;
  }

  lemma CommittedKeeps(blocks: seq<Block>, i: nat, e: seq<byte>)
    requires Formatted(blocks) && i < |View(blocks)|
    ensures |View(blocks)[i].content| <= |e| && BlocksFor(|e|) == SectionCount(blocks[HeaderOf(blocks, i)]) ==>
      var after := Apply(blocks, OverwritePlan(blocks[0], blocks[HeaderOf(blocks, i)], e).Writes());
      Formatted(after) && OthersKept(View(blocks), View(after), i)
  {
    hide FromLE, NameOf, Tiled, Files, Torn, Payload, Apply, WithFree, Flat, HeaderOf, Commit;
    if |View(blocks)[i].content| <= |e| && BlocksFor(|e|) == SectionCount(blocks[HeaderOf(blocks, i)]) {
      var ws := OverwritePlan(blocks[0], blocks[HeaderOf(blocks, i)], e).Writes();
      assert ws[..|ws|] == ws;
      OverwritePrefix(blocks, i, e, |ws|);
    }
  }

  /** A chain that ends elsewhere cannot hold the same number of blocks. */
  lemma ChainBroken(blocks: seq<Block>, after: seq<Block>, path: Path, i: nat, e: seq<byte>)
    requires Formatted(blocks) && HasSegment(path) && Find(View(blocks), NameOf(path)) == Some(i)
    requires Grown(blocks, after, HeaderOf(blocks, i), e)
    requires SectionCount(blocks[HeaderOf(blocks, i)]) < BlocksFor(|e|)
    ensures !(Formatted(after) && OthersKept(View(blocks), View(after), i))
  {
    if Formatted(after) && OthersKept(View(blocks), View(after), i) {
      GrownReads(blocks, after, path, i, e);
      ReadFileRefines(after, path, 0, 0);
      IndexOfOthersKept(View(blocks), View(after), i, NameOf(path));
      hide FromLE, NameOf, HasSegment, Tiled, Files, ReadFile, PayloadBlock, OthersKept, IndexOf, Footprint;
      assert |View(after)[i].content| == |View(blocks)[i].content|;
      FootprintOthersKept(View(blocks), View(after), i);
      TilingAccounts(blocks, 1, Used(blocks[0]));
      TilingAccounts(after, 1, Used(after[0]));
      assert false;
    }
  }

  /**
  A successful write leaves a mountable chain with all other files as they were exactly if it adds no block
  to its file.
  */
  lemma ChainKeptIff(blocks: seq<Block>, path: Path, data: seq<byte>, offset: nat, i: nat)
    requires Overwrites(blocks, path, data, offset, i)
    ensures var after := Overwritten(blocks, path, data, offset, i);
      var kept := Formatted(after) && OthersKept(View(blocks), View(after), i);
      kept <==> BlocksFor(offset + |data|) <= BlocksFor(|View(blocks)[i].content|)
  {
    OverwrittenIsGrown(blocks, path, data, offset, i);
    PlanIs(blocks, path, data, offset, i);
    var after := Overwritten(blocks, path, data, offset, i);
    var c := View(blocks)[i].content;
    hide FromLE, NameOf, HasSegment, Tiled, Files, Find, PlanWrite, Overwritten, Grown, Expanded, OthersKept;
    if BlocksFor(offset + |data|) <= BlocksFor(|c|) {
      ChainKept(blocks, path, data, offset, i);
    } else {
      ChainBroken(blocks, after, path, i, Wanted(c, data, offset));
    }
  }

  lemma {:induction false} HeadersApart(blocks: seq<Block>, p: nat, used: nat, i: nat, j: nat)
    requires Tiled(blocks, p, used) && i < j < |Headers(blocks, p, used)|
    ensures var hs := Headers(blocks, p, used); hs[i] + 1 + SectionCount(blocks[hs[i]]) <= hs[j]
    decreases used - p
  {
    hide FromLE, NameOf, IsFile;
    GoodSkip(blocks[p], p, used);
    if i > 0 {
      HeadersApart(blocks, p + Skip(blocks[p]), used, i - 1, j - 1);
    }
  }

  /** Where no block is added, no header block changes. */
  lemma HeaderKept(blocks: seq<Block>, after: seq<Block>, i: nat, e: seq<byte>, j: nat)
    requires Formatted(blocks) && i < |View(blocks)| && j < |View(blocks)|
    requires Grown(blocks, after, HeaderOf(blocks, i), e)
    requires SectionCount(blocks[HeaderOf(blocks, i)]) == BlocksFor(|e|)
    ensures after[HeaderOf(blocks, j)] == blocks[HeaderOf(blocks, j)]
  {
    hide FromLE, NameOf, IsFile, PayloadBlock, Flat, Tiled, Headers, Files, TotalSize, BlocksFor;
    if i < j {
      HeadersApart(blocks, 1, Used(blocks[0]), i, j);
    } else if j < i {
      HeadersApart(blocks, 1, Used(blocks[0]), j, i);
    }
  }

  /** A successful write keeps the used mark and every header block exactly if it adds no block to its file. */
  lemma MarkAndHeadersKeptIff(blocks: seq<Block>, path: Path, data: seq<byte>, offset: nat, i: nat)
    requires Overwrites(blocks, path, data, offset, i)
    ensures var after := Overwritten(blocks, path, data, offset, i);
      var kept := Used(after[0]) == Used(blocks[0])
        && forall j :: 0 <= j < |View(blocks)| ==> after[HeaderOf(blocks, j)] == blocks[HeaderOf(blocks, j)];
      kept <==> BlocksFor(offset + |data|) <= BlocksFor(|View(blocks)[i].content|)
  {
    OverwrittenIsGrown(blocks, path, data, offset, i);
    PlanIs(blocks, path, data, offset, i);
    var c := View(blocks)[i].content;
    var after, e := Overwritten(blocks, path, data, offset, i), Wanted(c, data, offset);
    WantedBlocks(c, data, offset);
    hide FromLE, NameOf, HasSegment, Tiled, Files, Find, PlanWrite, Overwritten, PayloadBlock, Wanted, HeaderOf,
      BlocksFor, Flat;
    if BlocksFor(offset + |data|) <= BlocksFor(|c|) {
      forall j | 0 <= j < |View(blocks)| ensures after[HeaderOf(blocks, j)] == blocks[HeaderOf(blocks, j)] {
        HeaderKept(blocks, after, i, e, j);
      }
    }
  }

  // ----- where added blocks go -----

  lemma {:induction false} NextHeader(blocks: seq<Block>, p: nat, used: nat, i: nat)
    requires Tiled(blocks, p, used) && i + 1 < |Headers(blocks, p, used)|
    ensures var hs := Headers(blocks, p, used); hs[i + 1] == hs[i] + 1 + SectionCount(blocks[hs[i]])
    decreases used - p
  {
    hide FromLE, NameOf;
    if i > 0 {
      NextHeader(blocks, p + Skip(blocks[p]), used, i - 1);
    }
  }

  lemma {:induction false} LastHeader(blocks: seq<Block>, p: nat, used: nat)
    requires Tiled(blocks, p, used) && p < used
    ensures var hs := Headers(blocks, p, used);
      hs != [] && hs[|hs| - 1] + 1 + SectionCount(blocks[hs[|hs| - 1]]) == used
    decreases used - p
  {
    hide FromLE, NameOf;
    GoodSkip(blocks[p], p, used);
    var q := p + Skip(blocks[p]);
    if q < used {
      LastHeader(blocks, q, used);
    }
  }

  /** The block behind the `i`-th file: the next file's header, or the used mark. */
  function BlockBehind(blocks: seq<Block>, i: nat): (b: nat)
    requires Formatted(blocks) && i < |View(blocks)|
    ensures b == if i + 1 < |View(blocks)| then HeaderOf(blocks, i + 1) else Used(blocks[0])
  {
    BehindIs(blocks, i);
    HeaderOf(blocks, i) + 1 + SectionCount(blocks[HeaderOf(blocks, i)])
  }

  lemma BehindIs(blocks: seq<Block>, i: nat)
    requires Formatted(blocks) && i < |View(blocks)|
    ensures HeaderOf(blocks, i) + 1 + SectionCount(blocks[HeaderOf(blocks, i)])
         == if i + 1 < |View(blocks)| then HeaderOf(blocks, i + 1) else Used(blocks[0])
  {
    hide FromLE, NameOf, IsFile, Flat, Tiled, Headers, Files, TotalSize;
    if i + 1 < |View(blocks)| {
      NextHeader(blocks, 1, Used(blocks[0]), i);
    } else {
      assert 1 <= HeaderOf(blocks, i) < Used(blocks[0]);
      LastHeader(blocks, 1, Used(blocks[0]));
    }
  }

  lemma AddedIsPayload(blocks: seq<Block>, after: seq<Block>, i: nat, e: seq<byte>)
    requires Formatted(blocks) && i < |View(blocks)| && Grown(blocks, after, HeaderOf(blocks, i), e)
    requires SectionCount(blocks[HeaderOf(blocks, i)]) < BlocksFor(|e|)
    ensures BlockBehind(blocks, i) < |after|
    ensures after[BlockBehind(blocks, i)] == PayloadBlock(e, SectionCount(blocks[HeaderOf(blocks, i)]))
  {
    hide FromLE, NameOf, IsFile, PayloadBlock, Flat, Tiled, Headers, Files, TotalSize, BlocksFor;
  }

  /** Growth by whole blocks puts payload where the next file's header is, or behind the used mark. */
  lemma GrowthOverwritesNext(blocks: seq<Block>, path: Path, data: seq<byte>, offset: nat, i: nat)
    requires Overwrites(blocks, path, data, offset, i)
    requires BlocksFor(offset + |data|) > BlocksFor(|View(blocks)[i].content|)
    ensures var c := View(blocks)[i].content;
      var after := Overwritten(blocks, path, data, offset, i);
      && BlockBehind(blocks, i) < |after|
      && after[BlockBehind(blocks, i)] == PayloadBlock(Wanted(c, data, offset), BlocksFor(|c|))
  {
    OverwrittenIsGrown(blocks, path, data, offset, i);
    PlanIs(blocks, path, data, offset, i);
    WantedBlocks(View(blocks)[i].content, data, offset);
    OverwritesMeans(blocks, path, data, offset, i);
    hide *;
    var e := Wanted(View(blocks)[i].content, data, offset);
    AddedIsPayload(blocks, Overwritten(blocks, path, data, offset, i), i, e);
  }

  lemma WantedBlocks(c: seq<byte>, data: seq<byte>, offset: nat)
    ensures BlocksFor(|c|) <= BlocksFor(|Wanted(c, data, offset)|)
    ensures BlocksFor(|c|) < BlocksFor(|Wanted(c, data, offset)|) <==> BlocksFor(|c|) < BlocksFor(offset + |data|)
  {}

  /** Over a chain without the name a scan goes on to whatever lies behind. */
  lemma {:induction false} ScanPasses(d: Disk, path: Path, p: nat, mid: nat, mark: nat)
    requires Tiled(d.blocks, p, mid) && mid <= mark && d.unreadable == {}
    requires forall f :: f in Files(d.blocks, p, mid) ==> f.name != NameOf(path)
    ensures Scan(d, path, p, mark) == Scan(d, path, mid, mark)
    decreases mid - p
  {
    hide FromLE, NameOf, ContentAt, IsFile;
    if p < mid {
      GoodSkip(d.blocks[p], p, mid);
      assert FileAt(d.blocks, p, mid) in Files(d.blocks, p, mid);
      ScanPasses(d, path, p + Skip(d.blocks[p]), mid, mark);
    }
  }

  lemma GoodNarrower(b: Block, p: nat, used: nat, mid: nat)
    requires GoodHeader(b, p, used) && p + Skip(b) <= mid
    ensures GoodHeader(b, p, mid)
  {}

  lemma FileName(blocks: seq<Block>, p: nat, used: nat)
    requires p < used <= |blocks| && GoodHeader(blocks[p], p, used)
    ensures FileAt(blocks, p, used).name == NameOf(PathField(blocks[p]))
  {}

  /** A chain up to and including its `i`-th file, whose payload may be anything, is a chain of the same names. */
  lemma {:induction false} ChainUpTo(blocks: seq<Block>, after: seq<Block>, name: seq<byte>, p: nat, used: nat,
                                     i: nat, h: nat)
    requires Tiled(blocks, p, used) && i < |Headers(blocks, p, used)| && h == Headers(blocks, p, used)[i] < used
    requires |after| == |blocks| && forall b :: p <= b <= h ==> after[b] == blocks[b]
    requires forall j :: 0 <= j <= i ==> Files(blocks, p, used)[j].name != name
    ensures p <= h && Tiled(after, p, h + Skip(blocks[h]))
    ensures forall f :: f in Files(after, p, h + Skip(blocks[h])) ==> f.name != name
    decreases used - p
  {
    hide FromLE, NameOf, ContentAt, FileAt, GoodHeader, Skip;
    var q, mid := p + Skip(blocks[p]), h + Skip(blocks[h]);
    GoodSkip(blocks[p], p, used);
    GoodSkip(blocks[h], h, used);
    assert after[p] == blocks[p] && Files(blocks, p, used)[0].name != name;
    FileName(blocks, p, used);
    if i == 0 {
      GoodNarrower(blocks[p], p, used, mid);
      assert Tiled(after, mid, mid);
    } else {
      forall j | 0 <= j <= i - 1 ensures Files(blocks, q, used)[j].name != name {
        assert Files(blocks, q, used)[j] == Files(blocks, p, used)[j + 1];
      }
      ChainUpTo(blocks, after, name, q, used, i - 1, h);
      GoodNarrower(blocks[p], p, used, mid);
    }
    FileName(after, p, mid);
  }

  lemma AddedIsScanned(blocks: seq<Block>, after: seq<Block>, i: nat, e: seq<byte>, other: Path)
    requires Formatted(blocks) && i < |View(blocks)|
    requires forall j :: 0 <= j <= i ==> View(blocks)[j].name != NameOf(other)
    ensures var p, added := HeaderOf(blocks, i), BlockBehind(blocks, i);
      Grown(blocks, after, p, e) && SectionCount(blocks[p]) < BlocksFor(|e|) ==>
      && Used(after[0]) > added && |after| == |blocks| > added
      && (Scan(Healthy(after), other, 1, Used(after[0])) == Some(added)
          <==> IsFile(after[added]) && PathEqual(other, PathField(after[added])))
  {
    hide FromLE, NameOf, IsFile, PathEqual, PayloadBlock, Tiled, Headers, Files, TotalSize, BlocksFor, GoodHeader;
    var p, used := HeaderOf(blocks, i), Used(blocks[0]);
    var mid := BlockBehind(blocks, i);
    if Grown(blocks, after, p, e) && SectionCount(blocks[p]) < BlocksFor(|e|) {
      ChainUpTo(blocks, after, NameOf(other), 1, used, i, p);
      GoodSkip(blocks[p], p, used);
      ScanPasses(Healthy(after), other, 1, mid, Used(after[0]));
      hide Skip, SectionCount;
      ScanHere(Healthy(after), other, mid, Used(after[0]));
    }
  }

  lemma OverwritesMeans(blocks: seq<Block>, path: Path, data: seq<byte>, offset: nat, i: nat)
    requires Overwrites(blocks, path, data, offset, i)
    ensures Formatted(blocks) && i < |View(blocks)|
  {
    hide PlanWrite, Formatted;
  }

  lemma ScanHere(d: Disk, path: Path, p: nat, used: nat)
    requires p < used && d.Readable(p)
    ensures Scan(d, path, p, used) == Some(p) <==> IsFile(d.blocks[p]) && PathEqual(path, PathField(d.blocks[p]))
  {
    hide FromLE, NameOf, IsFile, PathEqual;
  }

  /**
  Growth by whole blocks, of the last file too: the first block added lies where the scan expects the next
  header. A look-up of a name not found before it takes that payload for a header exactly if it looks like
  one with that name.
  */
  lemma GrowthIsScanned(blocks: seq<Block>, path: Path, data: seq<byte>, offset: nat, i: nat, other: Path)
    requires Overwrites(blocks, path, data, offset, i)
    requires BlocksFor(offset + |data|) > BlocksFor(|View(blocks)[i].content|)
    requires forall j :: 0 <= j <= i ==> View(blocks)[j].name != NameOf(other)
    ensures var added := BlockBehind(blocks, i);
      var after := Overwritten(blocks, path, data, offset, i);
      && Used(after[0]) > added && |after| == |blocks| > added
      && (Scan(Healthy(after), other, 1, Used(after[0])) == Some(added)
          <==> IsFile(after[added]) && PathEqual(other, PathField(after[added])))
  {
    OverwrittenIsGrown(blocks, path, data, offset, i);
    PlanIs(blocks, path, data, offset, i);
    WantedBlocks(View(blocks)[i].content, data, offset);
    var after := Overwritten(blocks, path, data, offset, i);
    OverwritesMeans(blocks, path, data, offset, i);
    hide *;
    AddedIsScanned(blocks, after, i, Wanted(View(blocks)[i].content, data, offset), other);
  }

  /** A file before the grown one is read as before. */
  lemma EarlierReads(blocks: seq<Block>, after: seq<Block>, i: nat, e: seq<byte>, other: Path, j: nat,
                     from: nat, limit: nat)
    requires Formatted(blocks) && i < |View(blocks)| && Grown(blocks, after, HeaderOf(blocks, i), e)
    requires Find(View(blocks), NameOf(other)) == Some(j) && j < i
    ensures Used(after[0]) >= 0
    ensures ReadFile(Healthy(after), after[0], other, from, limit) == AbsRead(View(blocks), other, from, limit)
  {
    hide FromLE, NameOf, HasSegment, Tiled, Files, Find, IsFile, ReadAt, PayloadBlock, Flat, SliceOf, TotalSize,
      BlocksFor, Scan;
    var p, used := HeaderOf(blocks, j), Used(blocks[0]);
    HeadersApart(blocks, 1, used, j, i);
    ScanIsFind(blocks, other);
    ScanStable(Healthy(blocks), Healthy(after), other, 1, used, Used(after[0]), p);
    FilesAtHeaders(blocks, 1, used, j);
    FileFrame(blocks, after, p, used);
    ReadRefinesSlice(Healthy(after), p, used, from, limit);
  }

  /** After a write to an existing file, growth included, every file before it is read as before. */
  lemma EarlierFilesKeep(blocks: seq<Block>, path: Path, data: seq<byte>, offset: nat, i: nat, other: Path, j: nat,
                         from: nat, limit: nat)
    ensures Overwrites(blocks, path, data, offset, i) && Find(View(blocks), NameOf(other)) == Some(j) && j < i ==>
      var after := Overwritten(blocks, path, data, offset, i);
      && Used(after[0]) >= 0
      && ReadFile(Healthy(after), after[0], other, from, limit) == AbsRead(View(blocks), other, from, limit)
  {
    if Overwrites(blocks, path, data, offset, i) && Find(View(blocks), NameOf(other)) == Some(j) && j < i {
      OverwrittenIsGrown(blocks, path, data, offset, i);
      OverwritesMeans(blocks, path, data, offset, i);
      hide *;
      var e := Wanted(View(blocks)[i].content, data, offset);
      EarlierReads(blocks, Overwritten(blocks, path, data, offset, i), i, e, other, j, from, limit);
    }
  }

  /** Over blocks that do not begin with the magic number a scan goes one by one. */
  lemma {:induction false} ScanUnmarked(d: Disk, path: Path, p: nat, q: nat, mark: nat)
    requires p <= q <= mark && forall x :: p <= x < q ==> d.Readable(x) && !Marked(d.blocks[x])
    ensures Scan(d, path, p, mark) == Scan(d, path, q, mark)
    decreases q - p
  {
    if p < q {
      ScanStep(d, path, p, mark);
      hide Scan, Marked, PathEqual;
      ScanUnmarked(d, path, p + 1, q, mark);
    }
  }

  lemma NamesBefore(fs: seq<File>, name: seq<byte>, j: nat, i: nat)
    requires Find(fs, name) == Some(j) && i < j
    ensures i < |fs| && forall k :: 0 <= k <= i ==> fs[k].name != name
  {
    hide IndexOf;
  }

  /** A scan passes the files up to the `i`-th, whose payload may be anything, if none of them has the name. */
  lemma PassesUpTo(blocks: seq<Block>, after: seq<Block>, other: Path, i: nat, mark: nat)
    requires Formatted(blocks) && i < |View(blocks)| && |after| == |blocks| && BlockBehind(blocks, i) <= mark
    requires forall b :: 0 < b <= HeaderOf(blocks, i) ==> after[b] == blocks[b]
    requires forall k :: 0 <= k <= i ==> View(blocks)[k].name != NameOf(other)
    ensures Scan(Healthy(after), other, 1, mark) == Scan(Healthy(after), other, BlockBehind(blocks, i), mark)
  {
    hide FromLE, NameOf, IsFile, PathEqual, Tiled, Headers, Files, TotalSize, GoodHeader;
    var p, used := HeaderOf(blocks, i), Used(blocks[0]);
    ChainUpTo(blocks, after, NameOf(other), 1, used, i, p);
    GoodSkip(blocks[p], p, used);
    ScanPasses(Healthy(after), other, 1, BlockBehind(blocks, i), mark);
  }

  lemma HeaderInside(blocks: seq<Block>, i: nat, j: nat)
    requires Formatted(blocks) && i < j < |View(blocks)|
    ensures 0 < HeaderOf(blocks, i) < BlockBehind(blocks, i) <= HeaderOf(blocks, j) < Used(blocks[0]) <= |blocks|
    ensures j == i + 1 ==> BlockBehind(blocks, i) == HeaderOf(blocks, j)
  {
    hide FromLE, NameOf, IsFile, Tiled, Headers, Files, TotalSize, BlocksFor;
    HeadersApart(blocks, 1, Used(blocks[0]), i, j);
  }

  lemma FoundAt(blocks: seq<Block>, other: Path, j: nat)
    requires Formatted(blocks) && Find(View(blocks), NameOf(other)) == Some(j)
    ensures Scan(Healthy(blocks), other, 1, Used(blocks[0])) == Some(HeaderOf(blocks, j))
  {
    ScanIsFind(blocks, other);
    hide Scan, Find;
  }

  /** From the `m`-th header on, the chain leads to the `j`-th file, the first of its name. */
  lemma ScanFromHeader(blocks: seq<Block>, other: Path, m: nat, j: nat)
    requires Formatted(blocks) && Find(View(blocks), NameOf(other)) == Some(j) && 0 < m <= j
    ensures HeaderOf(blocks, m) <= HeaderOf(blocks, j)
    ensures Scan(Healthy(blocks), other, HeaderOf(blocks, m), Used(blocks[0])) == Some(HeaderOf(blocks, j))
  {
    FoundAt(blocks, other, j);
    NamesBefore(View(blocks), NameOf(other), j, m - 1);
    hide *;
    HeaderInside(blocks, m - 1, m);
    if m < j {
      HeaderInside(blocks, m, j);
    }
    PassesUpTo(blocks, blocks, other, m - 1, Used(blocks[0]));
  }

  /** Behind the grown file: the blocks up to the `m`-th header, which survives, do not begin with the magic number. */
  ghost predicate Bridged(blocks: seq<Block>, after: seq<Block>, i: nat, e: seq<byte>, m: nat)
    requires Formatted(blocks) && i < m < |View(blocks)| && |after| == |blocks|
  {
    && HeaderOf(blocks, i) + 1 + BlocksFor(|e|) <= HeaderOf(blocks, m)
    && forall x :: BlockBehind(blocks, i) <= x < HeaderOf(blocks, m) ==> !Marked(after[x])
  }

  /** What of all that the scan needs. */
  lemma GrownFacts(blocks: seq<Block>, after: seq<Block>, i: nat, e: seq<byte>, m: nat)
    requires Formatted(blocks) && i < m < |View(blocks)|
    ensures Grown(blocks, after, HeaderOf(blocks, i), e) && Bridged(blocks, after, i, e, m) ==>
      && |after| == |blocks| && Used(after[0]) >= Used(blocks[0]) > 0
      && (forall b :: 0 < b <= HeaderOf(blocks, i) ==> after[b] == blocks[b])
      && (forall x :: BlockBehind(blocks, i) <= x < HeaderOf(blocks, m) ==> !Marked(after[x]))
      && (forall x :: HeaderOf(blocks, m) <= x < |blocks| ==> after[x] == blocks[x])
  {
    hide FromLE, NameOf, IsFile, PayloadBlock, Tiled, Headers, Files, TotalSize, BlocksFor, Marked;
  }

  lemma LaterFound(blocks: seq<Block>, after: seq<Block>, i: nat, e: seq<byte>, other: Path, m: nat, j: nat)
    requires Formatted(blocks) && i < m <= j < |View(blocks)|
    ensures var found := Find(View(blocks), NameOf(other)) == Some(j);
      found && Grown(blocks, after, HeaderOf(blocks, i), e) && Bridged(blocks, after, i, e, m) ==>
      && Used(after[0]) >= Used(blocks[0])
      && Scan(Healthy(after), other, 1, Used(after[0])) == Some(HeaderOf(blocks, j))
  {
    var found := Find(View(blocks), NameOf(other)) == Some(j);
    if found && Grown(blocks, after, HeaderOf(blocks, i), e) && Bridged(blocks, after, i, e, m) {
      GrownFacts(blocks, after, i, e, m);
      NamesBefore(View(blocks), NameOf(other), j, i);
      hide *;
      var used, mark := Used(blocks[0]), Used(after[0]);
      HeaderInside(blocks, i, m);
      ScanFromHeader(blocks, other, m, j);
      PassesUpTo(blocks, after, other, i, mark);
      HealthyBlocks(after);
      HealthyBlocks(blocks);
      ScanUnmarked(Healthy(after), other, BlockBehind(blocks, i), HeaderOf(blocks, m), mark);
      ScanWithin(blocks, other, m, j);
      ScanStable(Healthy(blocks), Healthy(after), other, HeaderOf(blocks, m), used, mark, HeaderOf(blocks, j));
    }
  }

  lemma HealthyBlocks(blocks: seq<Block>)
    ensures Healthy(blocks).blocks == blocks && forall x: nat :: Healthy(blocks).Readable(x) <==> x < |blocks|
  {}

  lemma ScanWithin(blocks: seq<Block>, other: Path, m: nat, j: nat)
    requires Formatted(blocks) && m < |View(blocks)| && j < |View(blocks)|
    ensures HeaderOf(blocks, j) < |blocks|
  {
    hide FromLE, NameOf, Tiled, Headers, Files;
  }

  /** A file whose blocks have stayed, found where it was, is read as before. */
  lemma FoundReads(blocks: seq<Block>, after: seq<Block>, other: Path, j: nat, from: nat, limit: nat)
    requires Formatted(blocks) && j < |View(blocks)| && |after| == |blocks| && Used(after[0]) >= 0
    ensures var p, found := HeaderOf(blocks, j), Find(View(blocks), NameOf(other)) == Some(j);
      && found && Scan(Healthy(after), other, 1, Used(after[0])) == Some(p)
      && (forall x :: p <= x < BlockBehind(blocks, j) ==> after[x] == blocks[x]) ==>
      ReadFile(Healthy(after), after[0], other, from, limit) == AbsRead(View(blocks), other, from, limit)
  {
    hide FromLE, NameOf, HasSegment, Tiled, Files, Find, IsFile, ReadAt, Flat, SliceOf, TotalSize, BlocksFor, Scan,
      Headers;
    var p, used := HeaderOf(blocks, j), Used(blocks[0]);
    FilesAtHeaders(blocks, 1, used, j);
    if forall x :: p <= x < BlockBehind(blocks, j) ==> after[x] == blocks[x] {
      FileFrame(blocks, after, p, used);
      ReadRefinesSlice(Healthy(after), p, used, from, limit);
    }
  }

  lemma LaterReads(blocks: seq<Block>, after: seq<Block>, i: nat, e: seq<byte>, other: Path, m: nat, j: nat,
                   from: nat, limit: nat)
    requires Formatted(blocks) && i < m <= j < |View(blocks)|
    ensures var found := Find(View(blocks), NameOf(other)) == Some(j);
      found && Grown(blocks, after, HeaderOf(blocks, i), e) && Bridged(blocks, after, i, e, m) ==>
      && Used(after[0]) >= 0
      && ReadFile(Healthy(after), after[0], other, from, limit) == AbsRead(View(blocks), other, from, limit)
  {
    hide *;
    HeaderInside(blocks, i, m);
    if Find(View(blocks), NameOf(other)) == Some(j) && Grown(blocks, after, HeaderOf(blocks, i), e) {
      SameLength(blocks, after, HeaderOf(blocks, i), e);
      if Bridged(blocks, after, i, e, m) {
        GrownFacts(blocks, after, i, e, m);
        BehindFits(blocks, j);
        if m < j {
          HeaderInside(blocks, m, j);
        }
        LaterFound(blocks, after, i, e, other, m, j);
        FoundReads(blocks, after, other, j, from, limit);
      }
    }
  }

  lemma BehindFits(blocks: seq<Block>, j: nat)
    requires Formatted(blocks) && j < |View(blocks)|
    ensures BlockBehind(blocks, j) <= Used(blocks[0]) <= |blocks|
  {
    hide FromLE, NameOf, Tiled, Headers, Files;
  }

  /**
  After a growing write the files behind those it has overwritten are found where they are and read as before, if
  no block from the first added one up to the next header that is left begins with the magic number.
  */
  lemma LaterFilesKeep(blocks: seq<Block>, path: Path, data: seq<byte>, offset: nat, i: nat, other: Path,
                       m: nat, j: nat, from: nat, limit: nat)
    requires Overwrites(blocks, path, data, offset, i) && i < m <= j < |View(blocks)|
    ensures var after, e := Overwritten(blocks, path, data, offset, i), Wanted(View(blocks)[i].content, data, offset);
      && |after| == |blocks|
      && (Find(View(blocks), NameOf(other)) == Some(j) && Bridged(blocks, after, i, e, m) ==>
            && Used(after[0]) >= 0
            && Scan(Healthy(after), other, 1, Used(after[0])) == Some(HeaderOf(blocks, j))
            && ReadFile(Healthy(after), after[0], other, from, limit) == AbsRead(View(blocks), other, from, limit))
  {
    OverwrittenIsGrown(blocks, path, data, offset, i);
    OverwritesMeans(blocks, path, data, offset, i);
    var after, e := Overwritten(blocks, path, data, offset, i), Wanted(View(blocks)[i].content, data, offset);
    SameLength(blocks, after, HeaderOf(blocks, i), e);
    hide *;
    if Find(View(blocks), NameOf(other)) == Some(j) && Bridged(blocks, after, i, e, m) {
      LaterFound(blocks, after, i, e, other, m, j);
      LaterReads(blocks, after, i, e, other, m, j, from, limit);
    }
  }

  lemma SameLength(blocks: seq<Block>, after: seq<Block>, p: nat, e: seq<byte>)
    requires 0 < p < |blocks| && Grown(blocks, after, p, e)
    ensures |after| == |blocks|
  {}

  // ----- cut off before block 0 is written -----

  lemma GrownByte(blocks: seq<Block>, after: seq<Block>, p: nat, n: nat, e: seq<byte>, k: nat, x: nat)
    requires p + 1 + n <= |blocks| == |after| && x < BLOCK * n && x < |e|
    requires k <= BlocksFor(|e|) && p + 1 + k <= |blocks| && after == Splice(blocks, p + 1, Payload(e)[..k])
    ensures Flat(after[p + 1..p + 1 + n])[x] == if x < k * BLOCK then e[x] else Flat(blocks[p + 1..p + 1 + n])[x]
  {
    hide Flat, Payload, PayloadBlock, Splice;
    var b := x / BLOCK;
    FlatAt(after[p + 1..p + 1 + n], x);
    FlatAt(blocks[p + 1..p + 1 + n], x);
    assert after[p + 1 + b] == if b < k then PayloadBlock(e, b) else blocks[p + 1 + b];
  }

  lemma GrownTorn(blocks: seq<Block>, after: seq<Block>, p: nat, used: nat, e: seq<byte>, k: nat)
    requires p < used <= |blocks| == |after| && GoodHeader(blocks[p], p, used) && TotalSize(blocks[p]) <= |e|
    requires k <= BlocksFor(|e|) && p + 1 + k <= |blocks| && after == Splice(blocks, p + 1, Payload(e)[..k])
    ensures after[p] == blocks[p]
    ensures var c := ContentAt(blocks, p, used);
      FileAt(after, p, used) == File(FileAt(blocks, p, used).name, Torn(c, e[..|c|], k))
  {
    hide FromLE, NameOf, Flat, Torn, Payload, IsFile, Splice, BlocksFor;
    var n := SectionCount(blocks[p]);
    var c, d := ContentAt(blocks, p, used), ContentAt(after, p, used);
    forall x | 0 <= x < |c| ensures d[x] == Torn(c, e[..|c|], k)[x] {
      GrownByte(blocks, after, p, n, e, k, x);
      TornAt(c, e[..|c|], k, x);
    }
  }

  lemma CommitCut(blocks: seq<Block>, p: nat, e: seq<byte>, k: nat)
    requires Formatted(blocks) && 0 < p < Used(blocks[0]) && GoodHeader(blocks[p], p, Used(blocks[0]))
    requires SectionCount(blocks[p]) <= BlocksFor(|e|) <= SectionCount(blocks[p]) + FreeBlocks(blocks[0])
    requires p + 1 + BlocksFor(|e|) <= |blocks| && k <= BlocksFor(|e|)
    ensures var ws := OverwritePlan(blocks[0], blocks[p], e).Writes();
      k < |ws| && Apply(blocks, ws[..k]) == Splice(blocks, p + 1, Payload(e)[..k])
  {
    hide FromLE, NameOf, IsFile, Tiled, Payload, PayloadBlock, Apply, WithFree, Commit, TotalSize, BlocksFor, Splice;
    var plan := OverwritePlan(blocks[0], blocks[p], e);
    ApplyCommit(blocks, plan.at, plan.extent, plan.block0, k);
  }

  lemma CutKeeps(blocks: seq<Block>, after: seq<Block>, i: nat, e: seq<byte>, k: nat)
    requires Formatted(blocks) && i < |View(blocks)| && |View(blocks)[i].content| <= |e|
    requires k <= BlocksFor(|e|) && HeaderOf(blocks, i) + 1 + BlocksFor(|e|) <= |blocks|
    requires k <= SectionCount(blocks[HeaderOf(blocks, i)]) || i + 1 == |View(blocks)|
    requires after == Splice(blocks, HeaderOf(blocks, i) + 1, Payload(e)[..k])
    ensures var f := View(blocks)[i];
      && Formatted(after) && after[0] == blocks[0]
      && View(after) == View(blocks)[i := File(f.name, Torn(f.content, e[..|f.content|], k))]
  {
    hide FromLE, NameOf, IsFile, Flat, Tiled, Headers, Files, TotalSize, BlocksFor, Payload, ContentAt, Torn;
    var p, used := HeaderOf(blocks, i), Used(blocks[0]);
    BehindIs(blocks, i);
    GrownTorn(blocks, after, p, used, e, k);
    FilesAtHeaders(blocks, 1, used, i);
    PayloadFrame(blocks, after, 1, used, i);
  }

  /** Bytes `e` for the `i`-th file have their blocks free and on the disk. */
  predicate Room(blocks: seq<Block>, i: nat, e: seq<byte>)
    requires Formatted(blocks) && i < |View(blocks)|
  {
    var p := HeaderOf(blocks, i);
    && |View(blocks)[i].content| <= |e|
    && SectionCount(blocks[p]) <= BlocksFor(|e|) <= SectionCount(blocks[p]) + FreeBlocks(blocks[0])
    && p + 1 + BlocksFor(|e|) <= |blocks|
  }

  /**
  A growing write cut off before block 0: as long as it has not come to the next file's header, or for the
  last file at any point, a mount finds every file, all others unchanged, and its own of the old length.
  */
  lemma GrowthCutKeeps(blocks: seq<Block>, i: nat, e: seq<byte>, k: nat)
    requires Formatted(blocks) && i < |View(blocks)| && Room(blocks, i, e) && k <= BlocksFor(|e|)
    requires k <= SectionCount(blocks[HeaderOf(blocks, i)]) || i + 1 == |View(blocks)|
    ensures var ws := OverwritePlan(blocks[0], blocks[HeaderOf(blocks, i)], e).Writes();
      var f := View(blocks)[i];
      && k < |ws| && Formatted(After(blocks, ws, k)) && After(blocks, ws, k)[0] == blocks[0]
      && View(After(blocks, ws, k)) == View(blocks)[i := File(f.name, Torn(f.content, e[..|f.content|], k))]
  {
    hide FromLE, NameOf, IsFile, Flat, Tiled, Headers, Files, TotalSize, BlocksFor, Payload, Torn, Apply, Splice,
      OverwritePlan, HeaderOf;
    var ws := OverwritePlan(blocks[0], blocks[HeaderOf(blocks, i)], e).Writes();
    CommitCut(blocks, HeaderOf(blocks, i), e, k);
    CutKeeps(blocks, After(blocks, ws, k), i, e, k);
  }

  /** Beyond that point the next file's header is payload already, while block 0 is still the old one. */
  lemma GrowthCutOverwritesNext(blocks: seq<Block>, i: nat, e: seq<byte>, k: nat)
    requires Formatted(blocks) && i + 1 < |View(blocks)| && Room(blocks, i, e)
    requires SectionCount(blocks[HeaderOf(blocks, i)]) < k <= BlocksFor(|e|)
    ensures var n := SectionCount(blocks[HeaderOf(blocks, i)]);
      var ws := OverwritePlan(blocks[0], blocks[HeaderOf(blocks, i)], e).Writes();
      && k < |ws| && After(blocks, ws, k)[0] == blocks[0]
      && After(blocks, ws, k)[HeaderOf(blocks, i + 1)] == PayloadBlock(e, n)
  {
    hide FromLE, NameOf, IsFile, Flat, Tiled, Headers, Files, TotalSize, Payload, PayloadBlock, Apply, OverwritePlan,
      HeaderOf;
    BehindIs(blocks, i);
    CommitCut(blocks, HeaderOf(blocks, i), e, k);
  }
}
