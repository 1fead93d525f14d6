/**
Calls as the virtual file system makes them: every call mounts the partition afresh. The block-by-block
driver, with read and write errors at any block, does to the files what the simple model says.
*/
module AbtrSession {
  import opened Bytes
  import opened AbtrFormat
  import opened AbtrLayout
  import opened BlockWrites
  import opened AbtrPlan
  import opened AbtrTheorems
  import opened AbtrRuns
  import opened AbtrDriver

  /** At least as many block writes as any call makes. */
  const ALL_WRITES := MAX_TOTAL

  /** A call during which nothing fails. */
  function Call(path: Path, data: seq<byte>, offset: nat): Op { Op(path, data, offset, ALL_WRITES, true, true) }

  /** The result of a call none of whose block writes is refused. */
  function AbsStatus(fs: seq<File>, total: nat, op: Op): ErrorCode
    requires Fits(fs, op)
  {
    if !HasSegment(op.path) then InvalidPath
    else if Seen(fs, op).Some? then Success
    else if op.End() == 0 then InvalidParameters
    else if 1 + Footprint(fs) + 1 + BlocksFor(op.End()) > total then NoSpaceLeft
    else Success
  }

  // ----- what a disk makes of a call -----

  /** The call with the read errors it meets. */
  ghost function Faced(d: Disk, later: Disk, call: Op): (op: Op)
    requires Formatted(d.blocks) && later.blocks == d.blocks && call.scanned && call.kept
    ensures ReadsAs(d, later, op) && op == call.(scanned := op.scanned, kept := op.kept)
    ensures d.unreadable == later.unreadable == {} ==> op == call
  {
    hide FromLE, NameOf, Tiled, Files, Find, Headers, BlocksFor, AllReadable, PayloadReadable;
    var i := Find(View(d.blocks), NameOf(call.path));
    if i.None? then call
    else
      var op := call.(scanned := AllReadable(d, Headers(d.blocks, 1, Used(d.blocks[0])), i.value + 1),
                      kept := AllReadable(later, Headers(d.blocks, 1, Used(d.blocks[0])), i.value + 1)
                        && PayloadReadable(later, HeaderOf(d.blocks, i.value)));
      assert d.unreadable == later.unreadable == {} ==> op == call by {
        AllServed(d, i.value);
        AllServed(later, i.value);
      }
      op
  }

  lemma FacedFits(d: Disk, later: Disk, call: Op)
    requires Formatted(d.blocks) && later.blocks == d.blocks && call.scanned && call.kept
    requires Fits(View(d.blocks), call)
    ensures Fits(View(d.blocks), Faced(d, later, call))
  {
    hide FromLE, NameOf, Tiled, Files, Find, Headers, BlocksFor, AllReadable, PayloadReadable;
  }

  lemma AllServed(d: Disk, i: nat)
    requires Formatted(d.blocks) && i < |View(d.blocks)|
    ensures d.unreadable == {} ==>
      AllReadable(d, Headers(d.blocks, 1, Used(d.blocks[0])), i + 1) && PayloadReadable(d, HeaderOf(d.blocks, i))
  {
    hide FromLE, NameOf, Tiled, Files, Flat;
    TiledPosition(d.blocks, 1, Used(d.blocks[0]));
  }

  /** The call with the writes that the disk carries out. */
  ghost function Carried(d: Disk, later: Disk, call: Op): (op: Op)
    requires Formatted(d.blocks)
    ensures WritesAs(d, later, op) && op == call.(cut := op.cut)
  {
    var plan := PlanWrite(d, later, d.blocks[0], call.path, call.data, call.offset);
    call.(cut := if plan.Ok? && Accepted(d, plan.value.Writes()) < |plan.value.Writes()|
                 then Accepted(d, plan.value.Writes()) else ALL_WRITES)
  }

  lemma CreatedAt(d: Disk, later: Disk, op: Op)
    requires Formatted(d.blocks) && later.blocks == d.blocks && ReadsAs(d, later, op)
    ensures var plan := PlanWrite(d, later, d.blocks[0], op.path, op.data, op.offset);
      plan.Ok? && Seen(View(d.blocks), op).None? ==>
        && plan.value.at == Used(d.blocks[0]) && |plan.value.extent| == 1 + BlocksFor(op.End())
        && 1 + BlocksFor(op.End()) <= FreeBlocks(d.blocks[0])
  {
    hide FromLE, NameOf, HasSegment, WithFree, NewHeader, Expanded, Scan, Tiled, Files, ReadsAs, Find;
    ScanIsSeen(d, later, op);
  }

  /** The outcome of planning a call, and where its writes are. */
  lemma PlanOutcome(d: Disk, later: Disk, op: Op)
    requires Formatted(d.blocks) && later.blocks == d.blocks && ReadsAs(d, later, op) && Fits(View(d.blocks), op)
    ensures var plan := PlanWrite(d, later, d.blocks[0], op.path, op.data, op.offset);
      var total := TotalBlocks(d.blocks[0]);
      var status := AbsStatus(View(d.blocks), total, op);
      match plan
      case Err(e) => status == e && e !in {Success, WriteFailed, DeviceNotMounted}
      case Ok(p) =>
        && status == Success && |p.Writes()| <= ALL_WRITES
        && p.at + |p.extent| <= if Seen(View(d.blocks), op).Some? then |d.blocks| else total
  {
    hide FromLE, NameOf, HasSegment, ReadAt, WithFree, NewHeader, Payload, Expanded, Scan, Tiled, Files, Flat, IsFile,
      ReadsAs, Find, OldBytes;
    var i := Seen(View(d.blocks), op);
    ScanIsSeen(d, later, op);
    TilingAccounts(d.blocks, 1, Used(d.blocks[0]));
    if HasSegment(op.path) && i.Some? {
      PlanOverwrites(d, later, op, i.value);
      hide PlanWrite, Intended, BlocksFor;
      var p := HeaderOf(d.blocks, i.value);
      assert PayloadOffset(d.blocks[p]) == p + 1;
    } else {
      CreatedAt(d, later, op);
    }
  }

  lemma AllAccepted(d: Disk, plan: Plan)
    requires d.unwritable == {} && 0 < |d.blocks| && plan.at + |plan.extent| <= |d.blocks|
    ensures Accepted(d, plan.Writes()) == |plan.Writes()|
  {
    hide Accepted;
    var ws := plan.Writes();
    forall j | 0 <= j < |ws| ensures d.Writable(ws[j].at) {
      assert j < |plan.extent| ==> ws[j] == Extent(plan.at, plan.extent)[j];
    }
    AcceptedIs(d, ws, |ws|);
  }

  /** On a healthy device a call is cut only where the device ends, and is then as if the partition ended there. */
  lemma CapacityStep(d: Disk, later: Disk, call: Op)
    requires Formatted(d.blocks) && later.blocks == d.blocks
    requires d.unreadable == later.unreadable == d.unwritable == {} && Fits(View(d.blocks), call)
    requires call == Call(call.path, call.data, call.offset)
    ensures var total := TotalBlocks(d.blocks[0]);
      AbsStep(View(d.blocks), total, Carried(d, later, call)) == AbsStep(View(d.blocks), Min(total, |d.blocks|), call)
  {
    hide FromLE, NameOf, HasSegment, PlanWrite, Accepted, Tiled, Files, Find, Torn, Intended, StoredPath;
    assert Faced(d, later, call) == call;
    PlanOutcome(d, later, call);
    TilingAccounts(d.blocks, 1, Used(d.blocks[0]));
    var plan := PlanWrite(d, later, d.blocks[0], call.path, call.data, call.offset);
    CreatedAt(d, later, call);
    TiledPosition(d.blocks, 1, Used(d.blocks[0]));
    if plan.Ok? && plan.value.at + |plan.value.extent| <= |d.blocks| {
      AllAccepted(d, plan.value);
    } else if plan.Ok? {
      AcceptedOnDisk(d, plan.value);
    }
  }

  /** Carrying out what was planned does to the files what the call does, with the result that says so. */
  predicate ComesOut(d: Disk, plan: Result<Plan>, op: Op)
    requires Formatted(d.blocks) && Fits(View(d.blocks), op)
  {
    var fs, total := View(d.blocks), TotalBlocks(d.blocks[0]);
    match plan
    case Err(e) => op.cut == ALL_WRITES && e == AbsStatus(fs, total, op) && fs == AbsStep(fs, total, op)
    case Ok(p) =>
      var after := After(d.blocks, p.Writes(), Accepted(d, p.Writes()));
      && Formatted(after) && TotalBlocks(after[0]) == total && View(after) == AbsStep(fs, total, op)
      && if Accepted(d, p.Writes()) == |p.Writes()| then op.cut == ALL_WRITES && AbsStatus(fs, total, op) == Success
         else op.cut < ALL_WRITES
  }

  lemma WriteOutcome(d: Disk, later: Disk, call: Op)
    requires Formatted(d.blocks) && later.blocks == d.blocks
    requires Fits(View(d.blocks), call) && call == Call(call.path, call.data, call.offset)
    ensures var op := Carried(d, later, Faced(d, later, call));
      && ReadsAs(d, later, op) && Fits(View(d.blocks), op)
      && ComesOut(d, PlanWrite(d, later, d.blocks[0], call.path, call.data, call.offset), op)
      && (d.unreadable == later.unreadable == d.unwritable == {} ==>
            AbsStep(View(d.blocks), TotalBlocks(d.blocks[0]), op)
              == AbsStep(View(d.blocks), Min(TotalBlocks(d.blocks[0]), |d.blocks|), call))
  {
    hide FromLE, NameOf, HasSegment, Tiled, Files, PlanWrite, AbsStep, AbsStatus, Accepted, Apply, Fits, ReadsAs,
      Faced;
    var faced := Faced(d, later, call);
    FacedFits(d, later, call);
    if d.unreadable == later.unreadable == d.unwritable == {} {
      CapacityStep(d, later, call);
    }
    var op := Carried(d, later, faced);
    PlanOutcome(d, later, faced);
    SameReads(d, later, faced, op.cut);
    StepRefines(d, later, op);
  }

  /**
  Mounting and writing a file, on a device that may refuse any request. The files are those of the simple
  model for the read errors met and the writes carried out, and the result says what happened; on a healthy
  device nothing is cut but by its end.
  */
  method Write(device: Device, path: Path, data: seq<byte>, offset: nat) returns (r: ErrorCode, ghost op: Op)
    requires Formatted(device.disk.blocks) && Fits(View(device.disk.blocks), Call(path, data, offset))
    requires offset + |data| <= U64 - BLOCK
    modifies device
    ensures device.disk.unwritable == old(device.disk.unwritable) && device.later == old(device.later)
    ensures device.disk.unreadable == old(device.disk.unreadable) || device.disk.unreadable == old(device.later)
    ensures Formatted(device.disk.blocks) && |device.disk.blocks| == old(|device.disk.blocks|)
    ensures TotalBlocks(device.disk.blocks[0]) == old(TotalBlocks(device.disk.blocks[0]))
    ensures op == Op(path, data, offset, op.cut, op.scanned, op.kept) && Fits(old(View(device.disk.blocks)), op)
    ensures old(ReadsAs(device.disk, device.Later(), op))
    ensures 0 !in old(device.disk.unreadable) ==>
      op == old(Carried(device.disk, device.Later(),
                        Faced(device.disk, device.Later(), Call(path, data, offset))))
    ensures View(device.disk.blocks) == old(AbsStep(View(device.disk.blocks), TotalBlocks(device.disk.blocks[0]), op))
    ensures r == if 0 in old(device.disk.unreadable) then DeviceNotMounted
                 else if op.cut < ALL_WRITES then WriteFailed
                 else old(AbsStatus(View(device.disk.blocks), TotalBlocks(device.disk.blocks[0]), op))
    ensures old(device.disk.unreadable == device.later == device.disk.unwritable == {}) ==>
      var total := old(TotalBlocks(device.disk.blocks[0]));
      View(device.disk.blocks)
        == old(AbsStep(View(device.disk.blocks), Min(total, |device.disk.blocks|), Call(path, data, offset)))
  {
    hide FromLE, NameOf, HasSegment, Tiled, Files, PlanWrite, AbsStep, AbsStatus, Accepted, Apply, Fits, Straight,
      ReadsAs, WritesAs, Carried, Faced, Find, Seen, FreeBlocks, TotalBlocks, PartMagic, WithFree;
    ghost var d, later, call := device.disk, device.Later(), Call(path, data, offset);
    op := Faced(d, later, call);
    FacedFits(d, later, call);
    WriteOutcome(d, later, call);
    TiledIsStraight(d, 1, Used(d.blocks[0]));
    TiledIsStraight(later, 1, Used(d.blocks[0]));
    var fs := new AbtrFS(device);
    var mounted := fs.Mount();
    r := fs.WriteFile(path, data, offset);
    if !mounted {
      SameReads(d, later, op, 0);
      op := op.(cut := 0);
      NothingDone(d, op);
      return;
    }
    op := Carried(d, later, op);
  }

  /** The account of reads does not depend on how many writes there are. */
  lemma SameReads(d: Disk, later: Disk, op: Op, cut: nat)
    requires Formatted(d.blocks) && later.blocks == d.blocks && ReadsAs(d, later, op) && Fits(View(d.blocks), op)
    ensures ReadsAs(d, later, op.(cut := cut)) && Fits(View(d.blocks), op.(cut := cut))
    ensures AbsStatus(View(d.blocks), TotalBlocks(d.blocks[0]), op.(cut := cut))
         == AbsStatus(View(d.blocks), TotalBlocks(d.blocks[0]), op)
  {
    hide FromLE, NameOf, HasSegment, Tiled, Files;
  }

  lemma NothingDone(d: Disk, op: Op)
    requires Formatted(d.blocks) && op.cut == 0 && Fits(View(d.blocks), op)
    ensures AbsStep(View(d.blocks), TotalBlocks(d.blocks[0]), op) == View(d.blocks)
  {
    hide FromLE, NameOf, HasSegment, Tiled, Files, Intended, Find, Torn;
    var i := Seen(View(d.blocks), op);
    if i.Some? {
      var c := View(d.blocks)[i.value].content;
      TornNone(c, Intended(c, op)[..|c|]);
      SameFilesIff(View(d.blocks), i.value, c, c);
    }
  }

  lemma TornNone(c: seq<byte>, e: seq<byte>)
    requires |c| == |e|
    ensures Torn(c, e, 0) == c
  {}

  // ----- reading -----

  lemma {:induction false} ScanHealthy(d: Disk, path: Path, p: nat, used: nat)
    requires d.unreadable == {}
    ensures Scan(d, path, p, used) == Scan(Healthy(d.blocks), path, p, used)
    decreases used - p
  {
    hide FromLE, NameOf;
    if p < used && p < |d.blocks| {
      ScanHealthy(d, path, p + Skip(d.blocks[p]), used);
    }
  }

  lemma ReadHealthy(d: Disk, h: Block, offset: nat, limit: nat)
    requires d.unreadable == {}
    ensures ReadAt(d, h, offset, limit) == ReadAt(Healthy(d.blocks), h, offset, limit)
  {
    hide FromLE;
    if offset < TotalSize(h) {
      var n, po, count := ReadCount(TotalSize(h), offset, limit), PayloadOffset(h), SectionCount(h);
      var lo, hi := po + offset / BLOCK, po + Min((offset + n - 1) / BLOCK + 1, count);
      assert forall b :: d.Readable(b) <==> Healthy(d.blocks).Readable(b);
      assert RangeReadable(d, lo, hi) <==> RangeReadable(Healthy(d.blocks), lo, hi);
      assert BytesFrom(d, po, count, offset, n) == BytesFrom(Healthy(d.blocks), po, count, offset, n);
    }
  }

  /** Mounting and reading a file. */
  method Read(device: Device, path: Path, offset: nat, limit: nat) returns (r: Result<seq<byte>>)
    requires device.disk.unreadable == {} && Formatted(device.disk.blocks)
    ensures r == AbsRead(View(device.disk.blocks), path, offset, limit)
  {
    hide FromLE, NameOf, HasSegment, Tiled, Files, Scan, ReadAt, AbsRead, Straight;
    ghost var d := device.disk;
    TiledIsStraight(d, 1, Used(d.blocks[0]));
    TiledIsStraight(device.Later(), 1, Used(d.blocks[0]));
    var fs := new AbtrFS(device);
    var mounted := fs.Mount();
    r := fs.ReadFile(path, offset, limit);
    ScanHealthy(d, path, 1, Used(d.blocks[0]));
    ghost var at := Scan(d, path, 1, Used(d.blocks[0]));
    if at.Some? {
      ReadHealthy(d, d.blocks[at.value], offset, limit);
    }
    ReadFileRefines(d.blocks, path, offset, limit);
  }

  // ----- sessions -----

  /** The calls of a session meet no errors. */
  predicate Uncut(ops: seq<Op>)
  {
    forall i :: 0 <= i < |ops| ==>
      ops[i] == Call(ops[i].path, ops[i].data, ops[i].offset) && ops[i].End() <= U64 - BLOCK
  }

  /**
  Formatting a healthy device of any size and then any writes on it: the driver does what the simple model
  does in the smaller of partition and device.
  */
  method Session(device: Device, ops: seq<Op>) returns (ok: bool)
    requires device.disk.blocks != [] && device.disk.unreadable == device.later == device.disk.unwritable == {}
    requires AllFit([], Min(DEFAULT_TOTAL, |device.disk.blocks|), ops) && Uncut(ops)
    modifies device
    ensures ok && device.disk.unreadable == {} && Formatted(device.disk.blocks)
    ensures |device.disk.blocks| == old(|device.disk.blocks|)
    ensures View(device.disk.blocks) == AbsRun([], Min(DEFAULT_TOTAL, |device.disk.blocks|), ops)
  {
    hide FromLE, FormattedHeader, Tiled, Files, AbsStep, Fits;
    FormatIsEmpty(device.disk.blocks);
    var fs := new AbtrFS(device);
    ok := fs.Format();
    var i := 0;
    ghost var size := Min(DEFAULT_TOTAL, |device.disk.blocks|);
    assert ops[0..] == ops;
    while i < |ops|
      invariant 0 <= i <= |ops| && device.disk.unreadable == device.later == device.disk.unwritable == {}
      invariant |device.disk.blocks| == old(|device.disk.blocks|)
      invariant Formatted(device.disk.blocks) && TotalBlocks(device.disk.blocks[0]) == DEFAULT_TOTAL
      invariant AllFit(View(device.disk.blocks), size, ops[i..])
      invariant AbsRun(View(device.disk.blocks), size, ops[i..]) == AbsRun([], size, ops)
    {
      var op := ops[i];
      assert ops[i..][0] == op && ops[i..][1..] == ops[i + 1..];
      assert op == Call(op.path, op.data, op.offset);
      var r;
      ghost var faced;
      r, faced := Write(device, op.path, op.data, op.offset);
      i := i + 1;
    }
    assert ops[i..] == [];
  }
}
