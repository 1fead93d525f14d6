/** The AbtrFS object and its block-by-block algorithms, proved to carry out the plans of AbtrPlan. */
module AbtrDriver {
  import opened Bytes
  import opened AbtrFormat
  import opened AbtrLayout
  import opened BlockWrites
  import opened AbtrPlan
  import opened AbtrPaths

  /**
  The block device behind `read_block` and `write_block`. Which reads it fails may change between two look-ups;
  within one no block is read twice.
  */
  class Device {
    var disk: Disk
    var later: set<nat>

    constructor (disk: Disk, later: set<nat>)
      ensures this.disk == disk && this.later == later
    {
      this.disk, this.later := disk, later;
    }

    /** The disk with the read errors that come next. */
    function Later(): Disk
      reads this
    {
      disk.(unreadable := later)
    }

    method Turn()
      modifies this
      ensures disk == old(Later()) && later == old(later)
    {
      disk := disk.(unreadable := later);
    }

    method ReadBlock(b: nat) returns (r: Option<Block>)
      ensures r == if disk.Readable(b) then Some(disk.blocks[b]) else None
    {
      r := if b < |disk.blocks| && b !in disk.unreadable then Some(disk.blocks[b]) else None;
    }

    method WriteBlock(b: nat, data: Block) returns (ok: bool)
      modifies this
      ensures ok == old(disk.Writable(b))
      ensures disk == if ok then old(disk).(blocks := old(disk.blocks)[b := data]) else old(disk)
      ensures later == old(later)
    {
      ok := b < |disk.blocks| && b !in disk.unwritable;
      if ok {
        disk := disk.(blocks := disk.blocks[b := data]);
      }
    }
  }

  lemma AcceptedIs(d: Disk, ws: seq<Write<Block>>, k: nat)
    requires k <= |ws| && forall j :: 0 <= j < k ==> d.Writable(ws[j].at)
    requires k < |ws| ==> !d.Writable(ws[k].at)
    ensures Accepted(d, ws) == k
  {}

  lemma ApplyNext(blocks: seq<Block>, ws: seq<Write<Block>>, k: nat)
    requires k < |ws| && ws[k].at < |blocks|
    ensures Apply(blocks, ws[..k + 1]) == Apply(blocks, ws[..k])[ws[k].at := ws[k].data]
  {
    assert ws[..k + 1][..k] == ws[..k];
  }

  lemma BytePosition(b: nat, r: nat)
    requires r < BLOCK
    ensures (b * BLOCK + r) / BLOCK == b && (b * BLOCK + r) % BLOCK == r
  {}

  lemma ByteOfBlock(d: Disk, po: nat, count: nat, b: nat, r: nat)
    requires b < count && po + b < |d.blocks| && r < BLOCK
    ensures ByteAt(d, po, count, b * BLOCK + r) == d.blocks[po + b][r]
  {
    BytePosition(b, r);
  }

  lemma ByteBehind(d: Disk, po: nat, count: nat, i: nat)
    requires i >= count * BLOCK
    ensures ByteAt(d, po, count, i) == 0
  {}

  lemma ApplyNone(blocks: seq<Block>, ws: seq<Write<Block>>)
    ensures Apply(blocks, ws[..0]) == blocks
  {}

  /** The writes from `done` on are an extent and then block 0; this is the `b`-th of them. */
  lemma CommitAt(ws: seq<Write<Block>>, done: nat, po: nat, extent: seq<Block>, block0: Block, b: nat)
    requires done <= |ws| && ws[done..] == Commit(po, extent, block0) && b <= |extent|
    ensures |ws| == done + |extent| + 1
    ensures ws[done + b] == if b < |extent| then Write(po + b, extent[b]) else Write(0, block0)
  {
    assert ws[done + b] == ws[done..][b];
  }

  lemma CreateWrites(at: nat, header: Block, extent: seq<Block>, block0: Block)
    ensures var ws := Commit(at, [header] + extent, block0);
      ws[0] == Write(at, header) && ws[1..] == Commit(at + 1, extent, block0)
  {
    var ws := Commit(at, [header] + extent, block0);
    assert ws[0] == Extent(at, [header] + extent)[0];
    assert ws[1..] == Commit(at + 1, extent, block0);
  }

  class AbtrFS {
    var isMounted: bool
    var part: Block
    const device: Device

    constructor (device: Device)
      ensures this.device == device && !isMounted
    {
      this.device := device;
      isMounted, part := false, Zeros(BLOCK);
    }

    /** A mounted partition may hold anything, as long as the 64-bit arithmetic on its headers does not wrap. */
    predicate Valid()
      reads this, device
    {
      isMounted ==>
        && FreeBlocks(part) <= TotalBlocks(part) <= MAX_TOTAL
        && Straight(device.disk, 1, Used(part)) && Straight(device.Later(), 1, Used(part))
    }

    /** `mount`. */
    method Mount() returns (ok: bool)
      modifies this
      ensures ok == isMounted
      ensures ok <==> device.disk.Readable(0) && PartMagic(device.disk.blocks[0]) == PARTITION_MAGIC
      ensures ok ==> part == device.disk.blocks[0]
    {
      var block := device.ReadBlock(0);
      if block.None? {
        isMounted := false;
        return false;
      }
      part := block.value;
      isMounted := PartMagic(part) == PARTITION_MAGIC;
      return isMounted;
    }

    /** `format`. */
    method Format() returns (ok: bool)
      modifies this, device
      ensures ok == old(device.disk.Writable(0))
      ensures device.disk == if ok
        then old(device.disk).(blocks := old(device.disk.blocks)[0 := FormattedHeader(DEFAULT_TOTAL)])
        else old(device.disk)
      ensures part == FormattedHeader(DEFAULT_TOTAL) && isMounted == (ok || old(isMounted))
      ensures device.later == old(device.later)
    {
      part := FormattedHeader(DEFAULT_TOTAL);
      ok := device.WriteBlock(0, part);
      if ok {
        isMounted := true;
      }
    }

    /** `find_file_header`: the scan's header block, together with its position. */
    method FindFileHeader(path: Path) returns (r: Option<nat>)
      requires Valid() && isMounted
      ensures r == Scan(device.disk, path, 1, Used(part))
    {
      hide FromLE, NameOf;
      var used := TotalBlocks(part) - FreeBlocks(part);
      var curr := 1;
      while curr < used
        invariant Straight(device.disk, curr, used)
        invariant Scan(device.disk, path, 1, used) == Scan(device.disk, path, curr, used)
        decreases used - curr
      {
        var header := device.ReadBlock(curr);
        if header.None? {
          return None;
        }
        var equal := IsPathEqual(path, PathField(header.value));
        if IsFile(header.value) && equal {
          return Some(curr);
        }
        assert curr + Skip(header.value) < U64;
        curr := curr + Skip(header.value);
      }
      return None;
    }

    /** `exists`. */
    method Exists(path: Path) returns (r: ErrorCode)
      requires Valid()
      ensures r == if !isMounted then DeviceNotMounted else if !HasSegment(path) then InvalidPath
                   else if Scan(device.disk, path, 1, Used(part)).Some? then Success else FileNotFound
    {
      if !isMounted {
        return DeviceNotMounted;
      }
      var segments := ChopPath(path);
      if segments == [] {
        return InvalidPath;
      }
      var found := FindFileHeader(path);
      return if found.Some? then Success else FileNotFound;
    }

    /** `read_file`. */
    method ReadFile(path: Path, offset: nat, limit: nat) returns (r: Result<seq<byte>>)
      requires Valid()
      ensures r == if !isMounted then Err(DeviceNotMounted)
                   else AbtrPlan.ReadFile(device.disk, part, path, offset, limit)
    {
      hide FromLE, NameOf, HasSegment, Straight;
      if !isMounted {
        return Err(DeviceNotMounted);
      }
      var segments := ChopPath(path);
      if segments == [] {
        return Err(InvalidPath);
      }
      var found := FindFileHeader(path);
      if found.None? {
        return Err(FileNotFound);
      }
      r := ReadPayload(device.disk.blocks[found.value], offset, limit);
    }

    /** The copying part of `read_file`, once the header is known. */
    method ReadPayload(h: Block, offset: nat, limit: nat) returns (r: Result<seq<byte>>)
      ensures r == ReadAt(device.disk, h, offset, limit)
    {
      hide FromLE, SectionCount, PayloadOffset, TotalSize, BytesFrom, ByteAt;
      var total := TotalSize(h);
      var po := PayloadOffset(h);
      if offset >= total {
        return Ok([]);
      }
      var n := total - offset;
      if limit > 0 && limit < n {
        n := limit;
      }
      var target := new byte[n](_ => 0);
      var start := offset / BLOCK;
      var copied := 0;
      var b := start;
      ghost var d := device.disk;
      while b < SectionCount(h) && copied < n
        invariant start <= b && 0 <= copied <= n
        invariant copied == Max(0, Min(b * BLOCK - offset, n))
        invariant RangeReadable(d, po + start, po + b)
        invariant Copied(target[..], copied, d, po, SectionCount(h), offset)
      {
        var block := device.ReadBlock(po + b);
        if block.None? {
          assert !d.Readable(po + b);
          assert b <= (offset + n - 1) / BLOCK;
          return Err(IOError);
        }
        var from := if b == start then offset % BLOCK else 0;
        copied := CopyBlock(block.value, target, copied, from, d, po, SectionCount(h), offset, b);
        b := b + 1;
      }
      forall i | copied <= i < n ensures target[i] == ByteAt(d, po, SectionCount(h), offset + i) {
        ByteBehind(d, po, SectionCount(h), offset + i);
      }
      assert target[..] == BytesFrom(d, po, SectionCount(h), offset, n);
      return Ok(target[..]);
    }

    /** The first `c` bytes have been copied, and the others are still zero. */
    static ghost predicate Copied(target: seq<byte>, c: nat, d: Disk, po: nat, count: nat, offset: nat)
    {
      forall i :: 0 <= i < |target| ==> target[i] == if i < c then ByteAt(d, po, count, offset + i) else 0
    }

    /** Copying from the payload's block `b`. */
    static method CopyBlock(block: Block, target: array<byte>, copied: nat, from: nat, ghost d: Disk, ghost po: nat,
                            ghost count: nat, ghost offset: nat, ghost b: nat) returns (c: nat)
      requires b < count && po + b < |d.blocks| && block == d.blocks[po + b]
      requires copied <= target.Length && from < BLOCK && offset + copied == b * BLOCK + from
      requires Copied(target[..], copied, d, po, count, offset)
      modifies target
      ensures c == Min(copied + BLOCK - from, target.Length) && Copied(target[..], c, d, po, count, offset)
    {
      hide ByteAt;
      c := CopyOut(block, target, copied, from);
      forall i | copied <= i < c ensures target[i] == ByteAt(d, po, count, offset + i) {
        ByteOfBlock(d, po, count, b, from + i - copied);
      }
    }

    /** Copying a block from byte `from` on until it or the target ends. */
    static method CopyOut(block: Block, target: array<byte>, copied: nat, from: nat) returns (c: nat)
      requires copied <= target.Length && from <= BLOCK
      modifies target
      ensures c == Min(copied + BLOCK - from, target.Length)
      ensures forall i :: 0 <= i < target.Length ==>
        target[i] == if copied <= i < c then block[from + i - copied] else old(target[i])
    {
      c := copied;
      var k := from;
      while k < BLOCK && c < target.Length
        invariant from <= k <= BLOCK && copied <= c <= target.Length && c - copied == k - from
        invariant forall i :: 0 <= i < target.Length ==>
          target[i] == if copied <= i < c then block[from + i - copied] else old(target[i])
      {
        target[c] := block[k];
        c := c + 1;
        k := k + 1;
      }
    }

    /** `write_file`. Sizes whose 64-bit arithmetic would wrap cannot be allocated and are excluded. */
    method WriteFile(path: Path, data: seq<byte>, offset: nat) returns (r: ErrorCode)
      requires Valid() && offset + |data| <= U64 - BLOCK
      modifies this, device
      ensures !old(isMounted) ==> r == DeviceNotMounted && device.disk == old(device.disk)
      ensures isMounted == old(isMounted) && device.later == old(device.later)
      ensures device.disk.unreadable == old(device.disk.unreadable) || device.disk.unreadable == old(device.later)
      ensures old(isMounted) ==>
        match PlanWrite(old(device.disk), old(device.Later()), old(part), path, data, offset)
        case Err(e) => r == e && SameBut(old(device.disk), old(device.disk.blocks)) && part == old(part)
        case Ok(plan) => Done(old(device.disk), old(part), plan, r)
    {
      hide FromLE, ToLE, NameOf, HasSegment, Straight, Scan, ReadAt, WithFree, Apply, Accepted, PathEqual, Payload,
        Expanded, OldBytes, CreatePlan, OverwritePlan, Done;
      if !isMounted {
        return DeviceNotMounted;
      }
      var segments := ChopPath(path);
      if segments == [] {
        return InvalidPath;
      }
      var found := FindFileHeader(path);
      var existing := 0;
      if found.Some? {
        var h := device.disk.blocks[found.value];
        if SectionCount(h) > 0 {
          existing := (SectionCount(h) - 1) * BLOCK + LastSize(h);
        }
      }
      var end := offset + |data|;
      var size := if end > existing then end else existing;
      if size == 0 {
        return InvalidParameters;
      }
      var expanded := ExpandData(path, found, size, offset, data);
      if found.None? {
        r := CreateFile(path, expanded);
      } else {
        ghost var h, part0 := device.disk.blocks[found.value], part;
        r := OverwriteFile(device.disk.blocks[found.value], expanded);
        if BlocksFor(|expanded|) <= SectionCount(h) + FreeBlocks(part0) {
          DoneTurned(old(device.disk), old(device.later), part0, OverwritePlan(part0, h, expanded), r);
        }
      }
    }

    /** Allocating and writing a new file with bytes `e`. */
    method CreateFile(path: Path, e: seq<byte>) returns (r: ErrorCode)
      requires Valid() && isMounted
      modifies this, device
      ensures isMounted && device.later == old(device.later)
      ensures device.disk.unreadable == old(device.disk.unreadable)
      ensures if 1 + BlocksFor(|e|) > FreeBlocks(old(part))
              then r == NoSpaceLeft && device.disk == old(device.disk) && part == old(part)
              else Done(old(device.disk), old(part), CreatePlan(old(part), path, e), r)
    {
      hide FromLE, ToLE, NameOf, Straight, WithFree, Apply, Accepted, Payload, StoredPath, BuildHeader, Commit, Extent;
      var required := (|e| + BLOCK - 1) / BLOCK;
      var at := TotalBlocks(part) - FreeBlocks(part);
      ghost var d := device.disk;
      if FreeBlocks(part) < 1 + required || at + 1 + required > TotalBlocks(part) {
        return NoSpaceLeft;
      }
      ghost var plan := CreatePlan(part, path, e);
      ghost var ws := plan.Writes();
      part := WithFree(part, FreeBlocks(part) - (1 + required));
      var field := StorePath(path);
      var header := BuildHeader(required, LastSizeFor(|e|), field, at + 1);
      CreateWrites(plan.at, header, Payload(e), plan.block0);
      ApplyNone(d.blocks, ws);
      var ok := device.WriteBlock(at, header);
      if !ok {
        AcceptedIs(d, ws, 0);
        return WriteFailed;
      }
      ApplyNext(d.blocks, ws, 0);
      r := WritePayload(at + 1, e, d, ws, 1);
    }

    /** Writing bytes `e` over the file with header `h`, whose blocks on disk may be too few. */
    method OverwriteFile(h: Block, e: seq<byte>) returns (r: ErrorCode)
      requires Valid() && isMounted
      modifies this, device
      ensures isMounted && device.later == old(device.later)
      ensures device.disk.unreadable == old(device.disk.unreadable)
      ensures if BlocksFor(|e|) > SectionCount(h) + FreeBlocks(old(part))
              then r == NoSpaceLeft && device.disk == old(device.disk) && part == old(part)
              else Done(old(device.disk), old(part), OverwritePlan(old(part), h, e), r)
    {
      hide FromLE, ToLE, NameOf, Straight, WithFree, Apply, Accepted, Payload;
      var required := (|e| + BLOCK - 1) / BLOCK;
      ghost var d, part0 := device.disk, part;
      if required > SectionCount(h) {
        var extra := required - SectionCount(h);
        if FreeBlocks(part) < extra {
          return NoSpaceLeft;
        }
        part := WithFree(part, FreeBlocks(part) - extra);
      }
      WithSameFree(part0);
      ghost var ws := OverwritePlan(part0, h, e).Writes();
      assert ws[0..] == ws;
      ApplyNone(d.blocks, ws);
      r := WritePayload(PayloadOffset(h), e, d, ws, 0);
    }

    /** The device has these blocks, and refuses the same writes. */
    predicate SameBut(d: Disk, blocks: seq<Block>)
      reads this, device
    {
      device.disk == d.(blocks := blocks, unreadable := device.disk.unreadable)
    }

    /** The plan has been carried out as far as the device allowed, with `r` reporting how far. */
    predicate Done(d: Disk, part0: Block, plan: Plan, r: ErrorCode)
      reads this, device
    {
      var ws := plan.Writes();
      var k := Accepted(d, ws);
      && SameBut(d, Apply(d.blocks, ws[..k]))
      && part == WithFree(part0, plan.free)
      && r == if k == |ws| then Success else WriteFailed
    }

    /** Which reads fail does not matter for the writes. */
    lemma DoneTurned(d: Disk, unreadable: set<nat>, part0: Block, plan: Plan, r: ErrorCode)
      requires Done(d.(unreadable := unreadable), part0, plan, r)
      ensures Done(d, part0, plan, r)
    {
      hide Accepted, Apply, WithFree;
      AcceptedIs(d, plan.Writes(), Accepted(d.(unreadable := unreadable), plan.Writes()));
    }

    /**
    Filling `expanded_data`: prior content first, as a second look-up reads it, then the caller's bytes at the
    offset.
    */
    method ExpandData(path: Path, found: Option<nat>, size: nat, offset: nat, data: seq<byte>)
      returns (e: seq<byte>)
      requires Valid() && isMounted && offset + |data| <= size
      modifies device
      ensures Valid() && isMounted && device.later == old(device.later)
      ensures device.disk == if found.Some? then old(device.Later()) else old(device.disk)
      ensures e == Expanded(if found.Some? then OldBytes(old(device.Later()), part, path, size) else [],
                            size, offset, data)
    {
      hide FromLE, NameOf, HasSegment, Straight, Scan, ReadAt, PathEqual;
      var expanded := new byte[size](_ => 0);
      assert expanded[..] == Zeros(size);
      ghost var prior: seq<byte> := [];
      if found.Some? {
        device.Turn();
        prior := OldBytes(device.disk, part, path, size);
        var content := ReadFile(path, 0, 0);
        if content.Ok? {
          Overlay(expanded, 0, content.value[..Min(|content.value|, size)]);
        }
      }
      assert expanded[..] == prior + Zeros(size - |prior|);
      Overlay(expanded, offset, data);
      return expanded[..];
    }

    /** The copy loops of `write_file`. */
    static method Overlay(target: array<byte>, offset: nat, data: seq<byte>)
      requires offset + |data| <= target.Length
      modifies target
      ensures target[..] == Splice(old(target[..]), offset, data)
    {
      var i := 0;
      while i < |data|
        invariant 0 <= i <= |data|
        invariant forall j :: 0 <= j < target.Length ==>
          target[j] == if offset <= j < offset + i then data[j - offset] else old(target[j])
      {
        target[offset + i] := data[i];
        i := i + 1;
      }
      assert target[..] == Splice(old(target[..]), offset, data);
    }

    /** Copying a path into a zeroed header field. */
    method StorePath(path: Path) returns (field: seq<byte>)
      ensures field == StoredPath(path)
    {
      var f := new byte[PATH_FIELD](_ => 0);
      var i := 0;
      ghost var name := NameOf(path);
      hide NameOf;
      while i < PATH_SIZE && path[i] != 0 && i < 255
        invariant 0 <= i <= Min(|name|, 255)
        invariant f[..] == name[..i] + Zeros(PATH_FIELD - i)
      {
        f[i] := path[i];
        i := i + 1;
      }
      f[i] := 0;
      return f[..];
    }

    /**
    The payload loop and the final write of block 0, after the first `done` writes of `ws` have been
    carried out on `d`.
    */
    method WritePayload(po: nat, e: seq<byte>, ghost d: Disk, ghost ws: seq<Write<Block>>, ghost done: nat)
      returns (r: ErrorCode)
      requires done <= |ws| && ws[done..] == Commit(po, Payload(e), part)
      requires forall j :: 0 <= j < done ==> d.Writable(ws[j].at)
      requires device.disk == d.(blocks := Apply(d.blocks, ws[..done]))
      modifies device
      ensures device.later == old(device.later)
      ensures var k := Accepted(d, ws);
        && device.disk == d.(blocks := Apply(d.blocks, ws[..k]))
        && r == if k == |ws| then Success else WriteFailed
    {
      hide FromLE, Apply, Accepted, Payload, Commit;
      var buffer := new byte[BLOCK];
      var b := 0;
      var n := (|e| + BLOCK - 1) / BLOCK;
      while b < n
        invariant 0 <= b <= n
        invariant forall j :: 0 <= j < done + b ==> d.Writable(ws[j].at)
        invariant device.disk == d.(blocks := Apply(d.blocks, ws[..done + b])) && device.later == old(device.later)
      {
        FillBuffer(buffer, e, b);
        CommitAt(ws, done, po, Payload(e), part, b);
        var ok := device.WriteBlock(po + b, buffer[..]);
        if !ok {
          AcceptedIs(d, ws, done + b);
          return WriteFailed;
        }
        ApplyNext(d.blocks, ws, done + b);
        b := b + 1;
      }
      CommitAt(ws, done, po, Payload(e), part, n);
      var ok := device.WriteBlock(0, part);
      if !ok {
        AcceptedIs(d, ws, done + n);
        return WriteFailed;
      }
      ApplyNext(d.blocks, ws, done + n);
      AcceptedIs(d, ws, |ws|);
      return Success;
    }

    /** Zeroing the block buffer and copying the `b`-th chunk into it. */
    static method FillBuffer(buffer: array<byte>, e: seq<byte>, b: nat)
      requires buffer.Length == BLOCK && b * BLOCK < |e|
      modifies buffer
      ensures buffer[..] == PayloadBlock(e, b)
    {
      var k := 0;
      while k < BLOCK
        invariant 0 <= k <= BLOCK && forall j :: 0 <= j < k ==> buffer[j] == 0
      {
        buffer[k] := 0;
        k := k + 1;
      }
      var start := b * BLOCK;
      k := 0;
      while k < BLOCK && start + k < |e|
        invariant 0 <= k <= BLOCK && start + k <= |e|
        invariant forall j :: 0 <= j < BLOCK ==> buffer[j] == if j < k then e[start + j] else 0
      {
        buffer[k] := e[start + k];
        k := k + 1;
      }
    }
  }
}
