/**
AbtrFS over whole runs. The simple model is a list of named byte strings; every run of writes on a
formatted disk, with crashes, write errors and read errors anywhere, is a run of that list.
*/
module AbtrRuns {
  import opened Bytes
  import opened AbtrFormat
  import opened AbtrLayout
  import opened BlockWrites
  import opened AbtrPlan
  import opened AbtrTheorems

  /** A disk on which no request fails. */
  function Healthy(blocks: seq<Block>): Disk { Disk(blocks, {}, {}) }

  // ----- the simple model -----

  function Find(fs: seq<File>, name: seq<byte>): (i: Option<nat>)
    ensures i.Some? ==> i.value < |fs| && fs[i.value].name == name
  {
    if |name| <= 254 then IndexOf(fs, name) else None
  }

  function AbsRead(fs: seq<File>, path: Path, offset: nat, limit: nat): Result<seq<byte>>
  {
    if !HasSegment(path) then Err(InvalidPath)
    else match Find(fs, NameOf(path))
      case None => Err(FileNotFound)
      case Some(i) => Ok(SliceOf(fs[i].content, offset, limit))
  }

  /**
  One write call and what happened to it: how many of its block writes were carried out before a crash or
  a write error, if not all; whether the scan could read all headers up to the file; and whether the second
  look-up, for the old content, could read them again and the payload.
  */
  datatype Op = Op(path: Path, data: seq<byte>, offset: nat, cut: nat, scanned: bool, kept: bool) {
    function End(): nat { offset + |data| }
  }

  /** The file the call takes itself to write to. */
  function Seen(fs: seq<File>, op: Op): (i: Option<nat>)
    ensures i.Some? ==> i.value < |fs| && fs[i.value].name == NameOf(op.path)
  {
    if op.scanned then Find(fs, NameOf(op.path)) else None
  }

  /** The call adds no block to the file it writes to, if there is one. */
  predicate Fits(fs: seq<File>, op: Op)
  {
    var i := Seen(fs, op);
    i.Some? ==> BlocksFor(op.End()) <= BlocksFor(|fs[i.value].content|)
  }

  function AbsCreate(fs: seq<File>, total: nat, op: Op): seq<File>
  {
    var n := BlocksFor(op.End());
    if op.End() == 0 || 1 + Footprint(fs) + 1 + n > total || op.cut < n + 2 then fs
    else fs + [File(NameOf(StoredPath(op.path)), Zeros(op.offset) + op.data)]
  }

  /** The bytes a write to a file with content `c` is to leave, were its size written too. */
  function Wanted(c: seq<byte>, data: seq<byte>, offset: nat): (e: seq<byte>)
    ensures |e| == Max(offset + |data|, |c|)
  {
    Expanded(c, Max(offset + |data|, |c|), offset, data)
  }

  /** Those a call leaves: if it cannot read the old content, it takes zeros for it. */
  function Intended(c: seq<byte>, op: Op): (e: seq<byte>)
    ensures |e| == Max(op.End(), |c|)
  {
    Wanted(if op.kept then c else Zeros(|c|), op.data, op.offset)
  }

  lemma NothingIsZeros(n: nat, size: nat, offset: nat, data: seq<byte>)
    requires n <= size && offset + |data| <= size
    ensures Expanded([], size, offset, data) == Expanded(Zeros(n), size, offset, data)
  {
    assert [] + Zeros(size) == Zeros(n) + Zeros(size - n);
  }

  function AbsStep(fs: seq<File>, total: nat, op: Op): seq<File>
    requires Fits(fs, op)
  {
    if !HasSegment(op.path) then fs
    else match Seen(fs, op)
      case None => AbsCreate(fs, total, op)
      case Some(i) =>
        var c := fs[i].content;
        fs[i := File(fs[i].name, Torn(c, Intended(c, op)[..|c|], op.cut))]
  }

  predicate AllFit(fs: seq<File>, total: nat, ops: seq<Op>)
    decreases |ops|
  {
    ops == [] || (Fits(fs, ops[0]) && AllFit(AbsStep(fs, total, ops[0]), total, ops[1..]))
  }

  function AbsRun(fs: seq<File>, total: nat, ops: seq<Op>): seq<File>
    requires AllFit(fs, total, ops)
    decreases |ops|
  {
    if ops == [] then fs else AbsRun(AbsStep(fs, total, ops[0]), total, ops[1..])
  }

  // ----- the disk -----

  /** The same call on the disk, by a file system object that has just mounted it. */
  function Step(d: Disk, later: Disk, op: Op): seq<Block>
    requires Formatted(d.blocks)
  {
    match PlanWrite(d, later, d.blocks[0], op.path, op.data, op.offset)
    case Err(_) => d.blocks
    case Ok(plan) => After(d.blocks, plan.Writes(), Min(op.cut, |plan.Writes()|))
  }

  predicate PayloadReadable(d: Disk, p: nat)
    requires p < |d.blocks|
  {
    RangeReadable(d, p + 1, p + 1 + SectionCount(d.blocks[p]))
  }

  /** The call's account of read errors is that of the disk, at its first look-up and at its second. */
  predicate ReadsAs(d: Disk, later: Disk, op: Op)
    requires Formatted(d.blocks) && later.blocks == d.blocks
  {
    var i, hs := Find(View(d.blocks), NameOf(op.path)), Headers(d.blocks, 1, Used(d.blocks[0]));
    i.Some? ==>
      && (op.scanned <==> AllReadable(d, hs, i.value + 1))
      && (op.kept <==> AllReadable(later, hs, i.value + 1) && PayloadReadable(later, hs[i.value]))
  }

  /** The disk carries out no write it refuses. */
  predicate WritesAs(d: Disk, later: Disk, op: Op)
    requires Formatted(d.blocks)
  {
    var plan := PlanWrite(d, later, d.blocks[0], op.path, op.data, op.offset);
    plan.Ok? ==> Min(op.cut, |plan.value.Writes()|) <= Accepted(d, plan.value.Writes())
  }

  predicate Happens(d: Disk, later: Disk, op: Op)
    requires Formatted(d.blocks) && later.blocks == d.blocks
  {
    ReadsAs(d, later, op) && WritesAs(d, later, op)
  }

  /** Before each call, and between its two look-ups, the device may come to refuse or to serve any blocks. */
  ghost predicate Reaches(blocks: seq<Block>, ops: seq<Op>, after: seq<Block>)
    decreases |ops|
  {
    if ops == [] then after == blocks
    else
      && Formatted(blocks)
      && exists d: Disk, later: Disk ::
           && d.blocks == later.blocks == blocks && Happens(d, later, ops[0])
           && Reaches(Step(d, later, ops[0]), ops[1..], after)
  }

  // ----- refinement -----

  /** The scan finds what the call sees. */
  lemma ScanIsSeen(d: Disk, later: Disk, op: Op)
    requires Formatted(d.blocks) && later.blocks == d.blocks && ReadsAs(d, later, op)
    ensures var i := Seen(View(d.blocks), op);
      Scan(d, op.path, 1, Used(d.blocks[0])) ==
        if i.Some? then Some(Headers(d.blocks, 1, Used(d.blocks[0]))[i.value]) else None
  {
    hide FromLE, NameOf, AllReadable;
    ScanCorrect(d, op.path, 1, Used(d.blocks[0]));
    TilingAccounts(d.blocks, 1, Used(d.blocks[0]));
  }

  lemma ScanIsFind(blocks: seq<Block>, path: Path)
    requires Formatted(blocks)
    ensures var i := Find(View(blocks), NameOf(path));
      Scan(Healthy(blocks), path, 1, Used(blocks[0])) ==
        if i.Some? then Some(Headers(blocks, 1, Used(blocks[0]))[i.value]) else None
  {
    hide FromLE, NameOf;
    ScanCorrect(Healthy(blocks), path, 1, Used(blocks[0]));
    TilingAccounts(blocks, 1, Used(blocks[0]));
  }

  /** On a healthy formatted disk `read_file` reads the simple model, for every path, offset and limit. */
  lemma ReadFileRefines(blocks: seq<Block>, path: Path, offset: nat, limit: nat)
    requires Formatted(blocks)
    ensures ReadFile(Healthy(blocks), blocks[0], path, offset, limit) == AbsRead(View(blocks), path, offset, limit)
  {
    hide FromLE, NameOf, HasSegment, ReadAt, SliceOf;
    var used := Used(blocks[0]);
    var i := Find(View(blocks), NameOf(path));
    ScanIsFind(blocks, path);
    if i.Some? {
      FilesAtHeaders(blocks, 1, used, i.value);
      ReadRefinesSlice(Healthy(blocks), Headers(blocks, 1, used)[i.value], used, offset, limit);
    }
  }

  lemma CreatedBytes(offset: nat, data: seq<byte>)
    ensures Expanded([], offset + |data|, offset, data) == Zeros(offset) + data
  {}

  /** Only writes to blocks the disk has can have been carried out. */
  lemma AcceptedOnDisk(d: Disk, plan: Plan)
    requires plan.at <= |d.blocks|
    ensures plan.at + Min(Accepted(d, plan.Writes()), |plan.extent|) <= |d.blocks|
  {
    hide Accepted;
    var ws := plan.Writes();
    var k := Min(Accepted(d, ws), |plan.extent|);
    if k > 0 {
      assert ws[k - 1] == Extent(plan.at, plan.extent)[k - 1];
      assert d.Writable(ws[k - 1].at);
    }
  }

  lemma StepCreates(d: Disk, later: Disk, op: Op)
    requires Formatted(d.blocks) && later.blocks == d.blocks && Happens(d, later, op)
    requires HasSegment(op.path) && Seen(View(d.blocks), op).None?
    ensures var after := Step(d, later, op);
      && Formatted(after) && TotalBlocks(after[0]) == TotalBlocks(d.blocks[0])
      && View(after) == AbsCreate(View(d.blocks), TotalBlocks(d.blocks[0]), op)
  {
    hide FromLE, NameOf, HasSegment, StoredPath, NewHeader, WithFree, Payload, Apply, Expanded, Scan, Tiled,
      Files, Find, ReadsAs, Accepted, Commit;
    var blocks, size := d.blocks, op.End();
    ScanIsSeen(d, later, op);
    TilingAccounts(blocks, 1, Used(blocks[0]));
    TiledPosition(blocks, 1, Used(blocks[0]));
    if size > 0 && 1 + BlocksFor(size) <= FreeBlocks(blocks[0]) {
      var e := Expanded([], size, op.offset, op.data);
      CreatedBytes(op.offset, op.data);
      AcceptedOnDisk(d, CreatePlan(blocks[0], op.path, e));
      CreateIsCrashAtomic(blocks, op.path, e, op.cut);
    }
  }

  /** With any read errors, reading a whole file gives its content or fails. */
  lemma ReadsWhole(d: Disk, path: Path, i: nat)
    requires Formatted(d.blocks) && HasSegment(path) && Find(View(d.blocks), NameOf(path)) == Some(i)
    ensures var hs := Headers(d.blocks, 1, Used(d.blocks[0]));
      var r := ReadFile(d, d.blocks[0], path, 0, 0);
      if AllReadable(d, hs, i + 1) && PayloadReadable(d, hs[i]) then r == Ok(View(d.blocks)[i].content) else r.Err?
  {
    hide FromLE, NameOf, AllReadable, Tiled, Files, Headers, Flat, IsFile, HasSegment;
    var used := Used(d.blocks[0]);
    TiledPosition(d.blocks, 1, used);
    TilingAccounts(d.blocks, 1, used);
    ScanCorrect(d, path, 1, used);
    FilesAtHeaders(d.blocks, 1, used, i);
    var p := Headers(d.blocks, 1, used)[i];
    SizesAgree(|View(d.blocks)[i].content|);
    if PayloadReadable(d, p) {
      ReadRefinesSlice(d, p, used, 0, 0);
    }
  }

  /** The plan of a call to an existing file, if it adds no block. */
  lemma PlanOverwrites(d: Disk, later: Disk, op: Op, i: nat)
    requires Formatted(d.blocks) && later.blocks == d.blocks && ReadsAs(d, later, op) && Fits(View(d.blocks), op)
    requires HasSegment(op.path) && Seen(View(d.blocks), op) == Some(i)
    ensures var h := d.blocks[HeaderOf(d.blocks, i)];
      var e := Intended(View(d.blocks)[i].content, op);
      && BlocksFor(|e|) == SectionCount(h)
      && PlanWrite(d, later, d.blocks[0], op.path, op.data, op.offset) == Ok(OverwritePlan(d.blocks[0], h, e))
  {
    hide FromLE, NameOf, HasSegment, Tiled, Files, Headers, Scan, IndexOf, ContentAt, IsFile, AllReadable, Expanded,
      ReadFile, OverwritePlan;
    ScanIsSeen(d, later, op);
    FilesAtHeaders(d.blocks, 1, Used(d.blocks[0]), i);
    ReadsWhole(later, op.path, i);
    var c := View(d.blocks)[i].content;
    assert c[..|c|] == c;
    NothingIsZeros(|c|, Max(op.End(), |c|), op.offset, op.data);
    SizesAgree(|c|);
  }

  lemma StepOverwrites(d: Disk, later: Disk, op: Op, i: nat)
    requires Formatted(d.blocks) && later.blocks == d.blocks && Happens(d, later, op) && Fits(View(d.blocks), op)
    ensures HasSegment(op.path) && Seen(View(d.blocks), op) == Some(i) ==>
      var after := Step(d, later, op);
      && Formatted(after) && after[0] == d.blocks[0]
      && View(after) == AbsStep(View(d.blocks), TotalBlocks(d.blocks[0]), op)
  {
    hide HasSegment, Find;
    if HasSegment(op.path) && Seen(View(d.blocks), op) == Some(i) {
      PlanOverwrites(d, later, op, i);
      hide FromLE, NameOf, Tiled, Files, Scan, IsFile, ReadsAs, WritesAs, Payload, Apply, WithFree,
        Torn, PlanWrite, Intended, Flat, BlocksFor, PathEqual, HeaderOf, Commit, OverwritePlan;
      OverwritePrefix(d.blocks, i, Intended(View(d.blocks)[i].content, op), op.cut);
    }
  }

  lemma BlocksGrow(m: nat, n: nat)
    requires m <= n
    ensures BlocksFor(m) <= BlocksFor(n)
  {}

  /** One write call, whatever fails during it, does to the files what it does to the simple model. */
  lemma StepRefines(d: Disk, later: Disk, op: Op)
    requires Formatted(d.blocks) && later.blocks == d.blocks && Happens(d, later, op) && Fits(View(d.blocks), op)
    ensures var after := Step(d, later, op);
      && Formatted(after) && TotalBlocks(after[0]) == TotalBlocks(d.blocks[0])
      && View(after) == AbsStep(View(d.blocks), TotalBlocks(d.blocks[0]), op)
  {
    hide FromLE, NameOf, ReadsAs, WritesAs;
    if HasSegment(op.path) {
      match Seen(View(d.blocks), op)
      case None => StepCreates(d, later, op);
      case Some(i) => StepOverwrites(d, later, op, i);
    }
  }

  /** Every run, with failures anywhere, keeps the disk formatted and refines the simple model. */
  lemma {:induction false} RunRefines(blocks: seq<Block>, ops: seq<Op>, after: seq<Block>)
    requires Formatted(blocks) && AllFit(View(blocks), TotalBlocks(blocks[0]), ops)
    requires Reaches(blocks, ops, after)
    ensures Formatted(after) && TotalBlocks(after[0]) == TotalBlocks(blocks[0])
    ensures View(after) == AbsRun(View(blocks), TotalBlocks(blocks[0]), ops)
    decreases |ops|
  {
    hide FromLE, Step, Happens;
    if ops != [] {
      var d: Disk, later: Disk :|
        && d.blocks == later.blocks == blocks && Happens(d, later, ops[0])
        && Reaches(Step(d, later, ops[0]), ops[1..], after);
      StepRefines(d, later, ops[0]);
      RunRefines(Step(d, later, ops[0]), ops[1..], after);
    }
  }

  /** `format`: a mountable partition with no files, on a device of any size. */
  lemma FormatIsEmpty(blocks: seq<Block>)
    requires blocks != []
    ensures var after := blocks[0 := FormattedHeader(DEFAULT_TOTAL)];
      Formatted(after) && View(after) == [] && TotalBlocks(after[0]) == DEFAULT_TOTAL
  {
    hide FromLE, FormattedHeader;
    FormattedHeaderReadsBack(DEFAULT_TOTAL);
  }

  /**
  From `format` on: after any run, every read returns the slice of the simple model, and the blocks
  of all files, the partition header and the free blocks add up to the partition.
  */
  lemma RunsFromFormat(blocks: seq<Block>, ops: seq<Op>, after: seq<Block>, path: Path, offset: nat, limit: nat)
    requires blocks != [] && AllFit([], DEFAULT_TOTAL, ops)
    ensures Reaches(blocks[0 := FormattedHeader(DEFAULT_TOTAL)], ops, after) ==>
      var fs := AbsRun([], DEFAULT_TOTAL, ops);
      && Formatted(after)
      && ReadFile(Healthy(after), after[0], path, offset, limit) == AbsRead(fs, path, offset, limit)
      && 1 + Footprint(fs) + FreeBlocks(after[0]) == DEFAULT_TOTAL
  {
    hide FromLE, FormattedHeader, ReadFile, AbsRead;
    FormatIsEmpty(blocks);
    var formatted := blocks[0 := FormattedHeader(DEFAULT_TOTAL)];
    if Reaches(formatted, ops, after) {
      RunRefines(formatted, ops, after);
      ReadFileRefines(after, path, offset, limit);
      TilingAccounts(after, 1, Used(after[0]));
    }
  }

  // ----- what a single successful write promises its caller -----

  /** A new file reads back as zeros up to the offset and then the data, exactly if its name fits. */
  lemma CreateReadsBackIff(fs: seq<File>, total: nat, op: Op)
    requires HasSegment(op.path) && Find(fs, NameOf(op.path)).None?
    requires AbsCreate(fs, total, op) != fs
    ensures AbsRead(AbsCreate(fs, total, op), op.path, 0, 0) == Ok(Zeros(op.offset) + op.data)
       <==> |NameOf(op.path)| <= 254
  {
    hide FromLE, NameOf, HasSegment, StoredPath;
    StoredPathName(op.path);
    var name := NameOf(op.path);
    if |name| <= 254 {
      var f := File(name, Zeros(op.offset) + op.data);
      assert name[..|name|] == name;
      IndexOfAppend(fs, f, name);
    }
  }

  lemma {:induction false} IndexOfAppend(fs: seq<File>, f: File, name: seq<byte>)
    ensures IndexOf(fs + [f], name) ==
      if IndexOf(fs, name).Some? then IndexOf(fs, name) else if f.name == name then Some(|fs|) else None
  {
    if fs != [] {
      assert (fs + [f])[1..] == fs[1..] + [f];
      IndexOfAppend(fs[1..], f, name);
    }
  }

  lemma {:induction false} IndexOfRenamed(fs: seq<File>, i: nat, f: File, name: seq<byte>)
    requires i < |fs| && f.name == fs[i].name
    ensures IndexOf(fs[i := f], name) == IndexOf(fs, name)
  {
    if i > 0 {
      assert fs[i := f][1..] == fs[1..][i - 1 := f];
      IndexOfRenamed(fs[1..], i - 1, f, name);
    }
  }

  /** No write, complete or cut off, changes what any other path reads. */
  lemma OtherPathsKeep(fs: seq<File>, total: nat, op: Op, path: Path, offset: nat, limit: nat)
    requires Fits(fs, op) && NameOf(path) != NameOf(op.path)
    ensures AbsRead(AbsStep(fs, total, op), path, offset, limit) == AbsRead(fs, path, offset, limit)
  {
    hide FromLE, NameOf, HasSegment, StoredPath, SliceOf, Torn, Intended;
    StoredPathName(op.path);
    var i := Seen(fs, op);
    if HasSegment(op.path) && i.Some? {
      IndexOfRenamed(fs, i.value, AbsStep(fs, total, op)[i.value], NameOf(path));
    } else {
      IndexOfAppend(fs, File(NameOf(StoredPath(op.path)), Zeros(op.offset) + op.data), NameOf(path));
    }
  }

  /** A write whose old content cannot be read intends what it should exactly if that is zero outside the data. */
  lemma UnreadableLosesIff(c: seq<byte>, op: Op)
    ensures Intended(c, op.(kept := false))[..|c|] == Intended(c, op.(kept := true))[..|c|]
       <==> forall x :: 0 <= x < |c| && !(op.offset <= x < op.End()) ==> c[x] == 0
  {
    var lost, kept := Intended(c, op.(kept := false)), Intended(c, op.(kept := true));
    if lost[..|c|] == kept[..|c|] {
      forall x | 0 <= x < |c| && !(op.offset <= x < op.End()) ensures c[x] == 0 {
        assert lost[..|c|][x] == lost[x] == 0 && kept[..|c|][x] == kept[x] == c[x];
      }
    }
  }

  // ----- read errors -----

  lemma PlanAt(d: Disk, later: Disk, path: Path, data: seq<byte>, offset: nat)
    requires d.blocks != [] && 0 <= Used(d.blocks[0])
    ensures var plan := PlanWrite(d, later, d.blocks[0], path, data, offset);
      plan.Ok? ==> plan.value.at == match Scan(d, path, 1, Used(d.blocks[0]))
        case None => Used(d.blocks[0])
        case Some(p) => PayloadOffset(d.blocks[p])
  {
    hide FromLE, NameOf, HasSegment, Scan, OldBytes, Expanded;
  }

  /**
  A read error during the scan is taken for "no such file": a write to an existing file allocates a
  second file of that name exactly if some header up to the existing one cannot be read.
  */
  lemma DuplicatesIffUnreadable(d: Disk, later: Disk, path: Path, data: seq<byte>, offset: nat, i: nat)
    requires Formatted(d.blocks) && HasSegment(path) && Find(View(d.blocks), NameOf(path)) == Some(i)
    requires offset + |data| > 0
    ensures var plan := PlanWrite(d, later, d.blocks[0], path, data, offset);
      var unreadable := !AllReadable(d, Headers(d.blocks, 1, Used(d.blocks[0])), i + 1);
      plan.Ok? ==> (plan.value.at == Used(d.blocks[0]) <==> unreadable)
  {
    hide FromLE, NameOf, HasSegment, AllReadable, PlanWrite, Scan;
    PlanAt(d, later, path, data, offset);
    var used := Used(d.blocks[0]);
    ScanCorrect(d, path, 1, used);
    FilesAtHeaders(d.blocks, 1, used, i);
  }
}
