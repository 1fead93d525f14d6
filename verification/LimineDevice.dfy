/** The installer's device: a one-block write-back cache over the disk, with an undo journal. */
module LimineDevice {
  import opened Bytes
  import opened LimineUndo

  const UNINSTALL_DATA_MAX := 256

  /** The cached block after the cache has been discarded: no block has this number. */
  const NO_BLOCK := -1

  // Block arithmetic. Only the lemmas of this section look inside these functions.

  function BlockOf(x: nat, bs: nat): nat
    requires bs > 0
  {
    x / bs
  }

  function OffsetIn(x: nat, bs: nat): (o: nat)
    requires bs > 0
    ensures o < bs
  {
    x % bs
  }

  /** The first byte of a block. */
  function Base(block: nat, bs: nat): nat { block * bs }

  lemma BlockBounds(x: nat, bs: nat)
    requires bs > 0
    ensures x == Base(BlockOf(x, bs), bs) + OffsetIn(x, bs)
  {}

  lemma BaseMonotone(a: nat, b: nat, bs: nat)
    requires a < b
    ensures Base(a, bs) + bs <= Base(b, bs)
  {
    assert (b - a - 1) * bs >= 0;
    assert b * bs == a * bs + bs + (b - a - 1) * bs;
  }

  /** On a device of whole blocks a block is on the device as soon as one of its bytes is. */
  lemma WholeBlocks(x: nat, bs: nat, size: nat)
    requires bs > 0 && OffsetIn(size, bs) == 0
    ensures x < size <==> Base(BlockOf(x, bs), bs) + bs <= size
  {
    hide BlockOf, OffsetIn, Base;
    BlockBounds(x, bs);
    BlockBounds(size, bs);
    if BlockOf(x, bs) < BlockOf(size, bs) {
      BaseMonotone(BlockOf(x, bs), BlockOf(size, bs), bs);
    } else if BlockOf(x, bs) > BlockOf(size, bs) {
      BaseMonotone(BlockOf(size, bs), BlockOf(x, bs), bs);
    }
  }

  datatype Op = ReadOp(loc: nat, count: nat) | WriteOp(loc: nat, data: seq<byte>) | FlushOp

  /** The range lies in one block. */
  predicate InOneBlock(loc: nat, count: nat, bs: nat)
    requires bs > 0
  {
    OffsetIn(loc, bs) + count <= bs
  }

  /** The access is no write, or a write inside one block. */
  predicate Indivisible(op: Op, bs: nat)
    requires bs > 0
  {
    op.WriteOp? ==> InOneBlock(op.loc, |op.data|, bs)
  }

  predicate AllIndivisible(ops: seq<Op>, bs: nat)
    requires bs > 0
  {
    forall i :: 0 <= i < |ops| ==> Indivisible(ops[i], bs)
  }

  /** The access stays on a device of `size` bytes. */
  predicate OnDevice(op: Op, size: nat)
  {
    match op
    case ReadOp(loc, count) => count == 0 || loc + count <= size
    case WriteOp(loc, data) => InRange(Entry(loc, data), size)
    case FlushOp => true
  }

  /** What a sequence of accesses writes, in order. */
  function Writes(ops: seq<Op>): seq<Entry>
  {
    if ops == [] then []
    else
      var op := ops[|ops| - 1];
      Writes(ops[..|ops| - 1]) + if op.WriteOp? then [Entry(op.loc, op.data)] else []
  }

  lemma WritesNext(ops: seq<Op>, k: nat, image: seq<byte>)
    requires k < |ops|
    ensures var before, op := Replay(image, Writes(ops[..k])), ops[k];
      Replay(image, Writes(ops[..k + 1])) == if op.WriteOp? then Put(before, Entry(op.loc, op.data)) else before
  {
    assert ops[..k + 1][..k] == ops[..k];
    var rest := Writes(ops[..k]);
    if ops[k].WriteOp? {
      assert (rest + [Entry(ops[k].loc, ops[k].data)])[..|rest|] == rest;
    } else {
      assert rest + [] == rest;
    }
  }

  /** The accesses stay on the device and the journal, with `count` entries before, has room for the writes. */
  predicate Doable(ops: seq<Op>, size: nat, count: nat)
  {
    (forall i :: 0 <= i < |ops| ==> OnDevice(ops[i], size)) && count + |Writes(ops)| <= 256
  }

  lemma {:induction false} DoablePrefix(ops: seq<Op>, k: nat, size: nat, count: nat)
    requires k <= |ops| && Doable(ops, size, count)
    ensures Doable(ops[..k], size, count)
  {
    if k < |ops| {
      DoablePrefix(ops[..|ops| - 1], k, size, count);
      assert ops[..|ops| - 1][..k] == ops[..k];
    } else {
      assert ops[..k] == ops;
    }
  }

  lemma NothingDoable(size: nat, count: nat, image: seq<byte>)
    requires count <= UNINSTALL_DATA_MAX
    ensures Doable([], size, count) && |Writes([])| == 0 && Replay(image, Writes([])) == image
  {}

  lemma DoableNext(ops: seq<Op>, k: nat, size: nat, count: nat)
    requires k < |ops|
    ensures |Writes(ops[..k + 1])| == |Writes(ops[..k])| + if ops[k].WriteOp? then 1 else 0
    ensures Doable(ops[..k + 1], size, count) <==>
      var room := count + |Writes(ops[..k])| < UNINSTALL_DATA_MAX;
      Doable(ops[..k], size, count) && OnDevice(ops[k], size) && (ops[k].WriteOp? ==> room)
  {
    assert ops[..k + 1][..k] == ops[..k];
    assert forall i :: 0 <= i < k ==> ops[..k + 1][i] == ops[..k][i];
    assert ops[..k + 1][k] == ops[k];
  }

  /** None of the requests from `from` on, before `to`, fails. */
  ghost predicate Quiet(faults: nat -> bool, from: nat, to: nat) { forall t :: from <= t < to ==> !faults(t) }

  /** At most one of them does. */
  ghost predicate OneFault(faults: nat -> bool, from: nat, to: nat)
  {
    forall s, t :: from <= s < t < to ==> !(faults(s) && faults(t))
  }

  lemma Narrower(faults: nat -> bool, from: nat, mid: nat, to: nat)
    requires from <= mid <= to
    ensures Quiet(faults, from, to) ==> Quiet(faults, from, mid) && Quiet(faults, mid, to)
    ensures OneFault(faults, from, to) ==> OneFault(faults, from, mid) && OneFault(faults, mid, to)
  {}

  lemma NothingReplayed(image: seq<byte>, log: seq<Entry>, size: nat)
    ensures Replay(image, log[..0]) == image && AllInRange(log[..0], size)
  {}

  lemma LastQuiet(faults: nat -> bool, mid: nat, to: nat)
    requires mid <= to <= mid + 1 && (mid < to ==> !faults(to - 1))
    ensures Quiet(faults, mid, to)
  {}

  class Device {
    /** Whether the device fails its `t`-th request, other than for being off its end; `clock` counts them. */
    const faults: nat -> bool
    var clock: nat
    var disk: seq<byte>
    const blockSize: nat
    const cache: array<byte>
    var cachedBlock: int
    var dirty: bool
    /** A read into the cache has failed; what is in it then is not known. */
    ghost var garbled: bool
    var uninstalling: bool
    const undo: array<Entry>
    const undoRev: array<Entry>
    var undoCount: nat

    /** `device_init` on a disk of whole blocks: block 0 is cached. */
    constructor (disk: seq<byte>, blockSize: nat, faults: nat -> bool)
      requires 0 < blockSize <= |disk| && OffsetIn(|disk|, blockSize) == 0
      ensures Valid() && this.disk == disk && this.blockSize == blockSize && this.faults == faults
      ensures !dirty && !garbled && !uninstalling && undoCount == 0
      ensures fresh(cache) && fresh(undo) && fresh(undoRev)
    {
      this.disk, this.blockSize, this.faults, clock := disk, blockSize, faults, 0;
      cache := new byte[blockSize](i requires 0 <= i < blockSize => disk[i]);
      cachedBlock, dirty, garbled, uninstalling, undoCount := 0, false, false, false, 0;
      undo := new Entry[UNINSTALL_DATA_MAX](_ => Entry(0, []));
      undoRev := new Entry[UNINSTALL_DATA_MAX](_ => Entry(0, []));
      new;
      assert cache[..] == disk[0..blockSize];
    }

    /** No request since the `from`-th has failed. */
    ghost predicate Calm(from: nat)
      reads this
    {
      Quiet(faults, from, clock)
    }

    /** At most one has. */
    ghost predicate Mild(from: nat)
      reads this
    {
      OneFault(faults, from, clock)
    }

    ghost predicate Valid()
      reads this, cache
    {
      && blockSize > 0 && OffsetIn(|disk|, blockSize) == 0 && cache.Length == blockSize
      && undo.Length == undoRev.Length == UNINSTALL_DATA_MAX && undo != undoRev
      && undoCount <= UNINSTALL_DATA_MAX
      && (cachedBlock == NO_BLOCK ==> !dirty)
      && (cachedBlock != NO_BLOCK ==> 0 <= cachedBlock && Base(cachedBlock, blockSize) + blockSize <= |disk|)
      && (cachedBlock != NO_BLOCK && !dirty && !garbled ==>
            cache[..] == disk[Base(cachedBlock, blockSize)..Base(cachedBlock, blockSize) + blockSize])
    }

    /** The device as its users see it: the disk with the cached block, where it has been changed, laid over it. */
    ghost function Image(): (i: seq<byte>)
      requires Valid()
      reads this, cache
      ensures |i| == |disk|
      ensures !dirty ==> i == disk
    {
      if !dirty then disk
      else
        Overlaid();
        Splice(disk, Base(cachedBlock, blockSize), cache[..])
    }

    lemma Overlaid()
      requires Valid() && cachedBlock != NO_BLOCK
      ensures 0 <= cachedBlock && Base(cachedBlock, blockSize) + |cache[..]| <= |disk|
      ensures !dirty && !garbled ==> Splice(disk, Base(cachedBlock, blockSize), cache[..]) == disk
    {
      hide BlockOf, OffsetIn, Base;
    }

    ghost function Log(): (l: seq<Entry>)
      requires Valid()
      reads this, cache, undo
      ensures |l| == undoCount
    {
      undo[..undoCount]
    }

    /** `device_flush_cache`. When it fails, part of the block may have been written; the cache stays dirty. */
    method FlushCache() returns (ok: bool)
      requires Valid()
      modifies this`clock, this`disk, this`dirty
      ensures clock >= old(clock)
      ensures Valid() && Image() == old(Image()) && |disk| == old(|disk|)
      ensures Between(disk, old(disk), old(Image()), 0, 0)
      ensures if ok then !dirty && disk == Image() else dirty
      ensures (ok <==> Calm(old(clock))) && clock <= old(clock) + 1
    {
      hide BlockOf, OffsetIn, Base;
      if !dirty {
        return true;
      }
      Overlaid();
      ghost var base, before := Base(cachedBlock, blockSize), disk;
      clock := clock + 1;
      if faults(clock - 1) {
        var n: nat := *;
        disk := PartlyWritten(n);
        return false;
      }
      disk := Splice(disk, Base(cachedBlock, blockSize), cache[..]);
      dirty := false;
      assert cache[..] == disk[base..base + blockSize];
      return true;
    }

    /** The disk when writing back stops after at most `n` bytes. */
    function PartlyWritten(n: nat): (d: seq<byte>)
      requires Valid() && dirty
      reads this, cache
      ensures |d| == |disk| && Between(d, disk, Image(), 0, 0)
      ensures Splice(d, Base(cachedBlock, blockSize), cache[..]) == Image()
    {
      hide BlockOf, OffsetIn, Base;
      Overlaid();
      Splice(disk, Base(cachedBlock, blockSize), cache[..Min(n, cache.Length)])
    }

    /** `device_cache_block`. A failed read may leave anything in the cache, which still passes for its old block. */
    method CacheBlock(block: nat) returns (ok: bool)
      requires Valid()
      modifies this`clock, this`disk, this`dirty, this`cachedBlock, this`garbled, cache
      ensures clock >= old(clock)
      ensures Valid() && Image() == old(Image()) && |disk| == old(|disk|)
      ensures Between(disk, old(disk), old(Image()), 0, 0)
      ensures old(cachedBlock) == block ==> ok && clock == old(clock)
      ensures ok ==> cachedBlock == block && Base(block, blockSize) + blockSize <= |disk|
      ensures Calm(old(clock)) && !ok ==> Base(block, blockSize) + blockSize > |disk|
      ensures !old(garbled) && (ok || Calm(old(clock))) ==> !garbled
    {
      hide BlockOf, OffsetIn, Base;
      if cachedBlock == block {
        return true;
      }
      if dirty {
        var flushed := FlushCache();
        if !flushed {
          return false;
        }
      }
      var base := Base(block, blockSize);
      clock := clock + 1;
      if base + blockSize > |disk| || faults(clock - 1) {
        if faults(clock - 1) {
          Garble();
        }
        return false;
      }
      LoadBlock(block, base);
      return true;
    }

    /** A read into the clean cache that stops somewhere. */
    method Garble()
      requires Valid() && !dirty
      modifies this`garbled, cache
      ensures Valid()
    {
      hide BlockOf, OffsetIn, Base;
      garbled := true;
      var k := 0;
      while k < cache.Length
        invariant k <= cache.Length && garbled && Valid()
      {
        cache[k] := *;
        k := k + 1;
      }
    }

    /** Reading a block that is on the device into the clean cache. */
    method LoadBlock(block: nat, base: nat)
      requires Valid() && !dirty && base == Base(block, blockSize) && base + blockSize <= |disk|
      modifies this`cachedBlock, this`garbled, cache
      ensures Valid() && Image() == disk && cachedBlock == block && !garbled
    {
      hide BlockOf, OffsetIn, Base;
      forall k | 0 <= k < blockSize {
        cache[k] := disk[base + k];
      }
      cachedBlock, garbled := block, false;
      assert cache[..] == disk[base..base + blockSize];
    }

    lemma CacheSize()
      requires Valid()
      ensures cache.Length == blockSize > 0
    {}

    /** Where byte `at` of the image is cached, and how far the image and the cache agree from there. */
    lemma CachedRange(at: nat, n: nat)
      requires Valid() && cachedBlock != NO_BLOCK && BlockOf(at, blockSize) == cachedBlock
      requires n <= blockSize - OffsetIn(at, blockSize)
      ensures cachedBlock >= 0 && at == Base(cachedBlock, blockSize) + OffsetIn(at, blockSize) && at + n <= |disk|
      ensures !garbled ==> Image()[at..at + n] == cache[OffsetIn(at, blockSize)..OffsetIn(at, blockSize) + n]
    {
      hide BlockOf, OffsetIn, Base;
      BlockBounds(at, blockSize);
      Overlaid();
    }

    /** How far a transfer at `loc` can go inside one block. */
    function Chunk(loc: nat, left: nat): nat
      requires blockSize > 0
    {
      Min(left, blockSize - OffsetIn(loc, blockSize))
    }

    lemma ChunkFits(loc: nat, left: nat)
      requires blockSize > 0 && left > 0
      ensures 0 < Chunk(loc, left) <= left
    {}

    lemma OneChunk(loc: nat, count: nat)
      requires blockSize > 0 && InOneBlock(loc, count, blockSize)
      ensures Chunk(loc, count) == count
    {}

    /** Caching the block a byte lies in. */
    method CacheFor(at: nat) returns (ok: bool)
      requires Valid()
      modifies this`clock, this`disk, this`dirty, this`cachedBlock, this`garbled, cache
      ensures clock >= old(clock)
      ensures Valid() && Image() == old(Image()) && |disk| == old(|disk|)
      ensures Between(disk, old(disk), old(Image()), 0, 0)
      ensures ok ==> at < |disk| && cachedBlock == BlockOf(at, blockSize)
      ensures Calm(old(clock)) && !ok ==> at >= |disk|
      ensures !old(garbled) && (ok || Calm(old(clock))) ==> !garbled
    {
      hide BlockOf, OffsetIn, Base;
      WholeBlocks(at, blockSize, |disk|);
      ok := CacheBlock(BlockOf(at, blockSize));
    }

    /** One round of `_device_read`: the part of the buffer from `progress` on that lies in one block. */
    method ReadChunk(buffer: array<byte>, loc: nat, progress: nat) returns (ok: bool)
      requires Valid() && buffer != cache && progress < buffer.Length
      modifies this`clock, this`disk, this`dirty, this`cachedBlock, this`garbled, cache, buffer
      ensures clock >= old(clock)
      ensures Valid() && Image() == old(Image()) && |disk| == old(|disk|)
      ensures Between(disk, old(disk), old(Image()), 0, 0)
      ensures Calm(old(clock)) && !ok ==> loc + progress >= |disk|
      ensures !old(garbled) && (ok || Calm(old(clock))) ==> !garbled
      ensures ok ==> var at, chunk := loc + progress, Chunk(loc + progress, buffer.Length - progress);
        && at + chunk <= |disk|
        && (!garbled ==> buffer[..] == Splice(old(buffer[..]), progress, Image()[at..at + chunk]))
    {
      hide BlockOf, OffsetIn, Base, Splice, Valid, Image;
      var at := loc + progress;
      ghost var before := buffer[..];
      CacheSize();
      ok := CacheFor(at);
      assert buffer[..] == before;
      if ok {
        var chunk := Chunk(at, buffer.Length - progress);
        CachedRange(at, chunk);
        CopyOut(buffer, progress, OffsetIn(at, blockSize), chunk);
      }
    }

    method CopyOut(buffer: array<byte>, progress: nat, offset: nat, chunk: nat)
      requires buffer != cache && progress + chunk <= buffer.Length && offset + chunk <= cache.Length
      modifies buffer
      ensures buffer[..] == Splice(old(buffer[..]), progress, cache[offset..offset + chunk])
    {
      forall k | 0 <= k < chunk {
        buffer[progress + k] := cache[offset + k];
      }
      assert buffer[..] == Splice(old(buffer[..]), progress, cache[offset..offset + chunk]);
    }

    /** `_device_read` into a caller's buffer. */
    method Read(buffer: array<byte>, loc: nat) returns (ok: bool)
      requires Valid() && buffer != cache
      modifies this`clock, this`disk, this`dirty, this`cachedBlock, this`garbled, cache, buffer
      ensures clock >= old(clock)
      ensures Valid() && Image() == old(Image()) && |disk| == old(|disk|)
      ensures Between(disk, old(disk), old(Image()), 0, 0)
      ensures ok ==> buffer.Length == 0 || loc + buffer.Length <= |disk|
      ensures Calm(old(clock)) && !ok ==> buffer.Length > 0 && loc + buffer.Length > |disk|
      ensures !old(garbled) && (ok || Calm(old(clock))) ==> !garbled
      ensures ok && buffer.Length > 0 && !old(garbled) ==> buffer[..] == Image()[loc..loc + buffer.Length]
    {
      hide BlockOf, OffsetIn, Base, Splice, Valid, Image;
      var progress := 0;
      CacheSize();
      while progress < buffer.Length
        invariant Valid() && Image() == old(Image()) && |disk| == old(|disk|) && clock >= old(clock)
        invariant Between(disk, old(disk), old(Image()), 0, 0)
        invariant progress <= buffer.Length && (progress > 0 ==> loc + progress <= |disk|)
        invariant !old(garbled) ==> !garbled
        invariant progress > 0 && !old(garbled) ==> buffer[..progress] == Image()[loc..loc + progress]
      {
        ghost var before := buffer[..];
        var read := ReadChunk(buffer, loc, progress);
        if !read {
          return false;
        }
        ghost var chunk := Chunk(loc + progress, buffer.Length - progress);
        if !garbled && !old(garbled) {
          Extend(buffer[..], before, Image(), loc, progress, chunk);
        }
        progress := progress + Chunk(loc + progress, buffer.Length - progress);
      }
      assert buffer[..progress] == buffer[..];
      return true;
    }

    /** One round of `_device_write`. */
    method WriteChunk(data: seq<byte>, loc: nat, progress: nat) returns (ok: bool)
      requires Valid() && progress < |data|
      modifies this`clock, this`disk, this`dirty, this`cachedBlock, this`garbled, cache
      ensures clock >= old(clock)
      ensures Valid() && |disk| == old(|disk|)
      ensures Between(disk, old(disk), old(Image()), 0, 0)
      ensures Calm(old(clock)) && !ok ==> loc + progress >= |disk|
      ensures !ok ==> Image() == old(Image())
      ensures !old(garbled) && (ok || Calm(old(clock))) ==> !garbled
      ensures ok ==> var chunk := Chunk(loc + progress, |data| - progress);
        && loc + progress + chunk <= |disk|
        && (!garbled ==> Image() == Put(old(Image()), Entry(loc + progress, data[progress..progress + chunk])))
    {
      hide BlockOf, OffsetIn, Base, Put, Valid, Image;
      var at := loc + progress;
      CacheSize();
      ok := CacheFor(at);
      if ok {
        var offset, chunk := OffsetIn(at, blockSize), Chunk(at, |data| - progress);
        CachedRange(at, chunk);
        CopyIn(data[progress..progress + chunk], offset);
      }
    }

    /** The `memcpy` into the cache that makes it dirty. */
    method CopyIn(bytes: seq<byte>, offset: nat)
      requires Valid() && cachedBlock >= 0 && offset + |bytes| <= blockSize
      modifies this`dirty, cache
      ensures Valid()
      ensures !garbled ==> Image() == Put(old(Image()), Entry(Base(cachedBlock, blockSize) + offset, bytes))
    {
      hide BlockOf, OffsetIn, Base, Put, Splice;
      Overlaid();
      ghost var before := cache[..];
      forall k | 0 <= k < |bytes| {
        cache[offset + k] := bytes[k];
      }
      dirty := true;
      assert cache[..] == Splice(before, offset, bytes);
      SplicePut(disk, Base(cachedBlock, blockSize), before, offset, bytes);
    }

    /** The chunk loop of `_device_write`. When it fails, the first `done` bytes have been written. */
    method WriteChunks(data: seq<byte>, loc: nat) returns (ok: bool, ghost done: nat)
      requires Valid()
      modifies this`clock, this`disk, this`dirty, this`cachedBlock, this`garbled, cache
      ensures clock >= old(clock)
      ensures Valid() && |disk| == old(|disk|)
      ensures done <= |data| && (!old(garbled) ==> Image() == Put(old(Image()), Entry(loc, data[..done])))
      ensures !old(garbled) ==> Between(disk, old(disk), old(Image()), loc, loc + done)
      ensures !old(garbled) && (ok || Calm(old(clock))) ==> !garbled
      ensures ok ==> done == |data| && InRange(Entry(loc, data), |disk|)
      ensures Calm(old(clock)) && !ok ==> !InRange(Entry(loc, data), |disk|)
      ensures Calm(old(clock)) && !ok && !old(garbled) ==> Image() == Put(old(Image()), Entry(loc, data))
      ensures !ok && InOneBlock(loc, |data|, blockSize) ==> done == 0
    {
      hide BlockOf, OffsetIn, Base, Put, InOneBlock, Between, Valid, Image, Chunk;
      CacheSize();
      BetweenSame(disk, Image(), loc, loc);
      ghost var one := InOneBlock(loc, |data|, blockSize);
      if one {
        OneChunk(loc, |data|);
      }
      var progress := 0;
      PutNothing(Image(), loc);
      while progress < |data|
        invariant Valid() && |disk| == old(|disk|) && clock >= old(clock)
        invariant progress <= |data| && (progress > 0 ==> loc + progress <= |disk|)
        invariant !old(garbled) ==> !garbled && Image() == Put(old(Image()), Entry(loc, data[..progress]))
        invariant !old(garbled) ==> Between(disk, old(disk), old(Image()), loc, loc + progress)
        invariant one ==> progress == 0 || progress == |data|
      {
        ChunkFits(loc + progress, |data| - progress);
        ghost var next := progress + Chunk(loc + progress, |data| - progress);
        ghost var disk1, image1 := disk, Image();
        PutPut(old(Image()), loc, data, progress, next);
        var written := WriteChunk(data, loc, progress);
        if !old(garbled) {
          BetweenStep(disk, disk1, old(disk), image1, old(Image()), loc, data, progress,
                      if written then next else progress);
        }
        if !written {
          if Calm(old(clock)) {
            PutClipped(old(Image()), loc, data, progress);
          }
          return false, progress;
        }
        progress := progress + Chunk(loc + progress, |data| - progress);
      }
      assert data[..progress] == data;
      return true, progress;
    }

    /**
    `_device_write`. Outside `uninstall` it first journals what it is about to overwrite. When it fails,
    nothing is journaled, and the first `done` bytes have been written; on a device without faults that
    happens only when the journal is full or the range is not on the device, and then none have been. Nor have
    any on any device if the range lies in one block.
    */
    method Write(data: seq<byte>, loc: nat) returns (ok: bool, ghost done: nat)
      requires Valid()
      modifies this`clock, this`disk, this`dirty, this`cachedBlock, this`garbled, this`undoCount, cache, undo
      ensures clock >= old(clock)
      ensures Valid() && |disk| == old(|disk|)
      ensures done <= |data| && (!old(garbled) ==> Image() == Put(old(Image()), Entry(loc, data[..done])))
      ensures !old(garbled) ==> Between(disk, old(disk), old(Image()), loc, loc + done)
      ensures !old(garbled) && (ok || Calm(old(clock))) ==> !garbled
      ensures ok ==>
        done == |data| && InRange(Entry(loc, data), |disk|) && (uninstalling || old(undoCount) < UNINSTALL_DATA_MAX)
      ensures Calm(old(clock)) && !ok ==>
        !InRange(Entry(loc, data), |disk|) || (!uninstalling && old(undoCount) >= UNINSTALL_DATA_MAX)
      ensures Calm(old(clock)) && !ok && !old(garbled) ==>
        if uninstalling then Image() == Put(old(Image()), Entry(loc, data)) else done == 0
      ensures !ok && InOneBlock(loc, |data|, blockSize) ==> done == 0
      ensures !ok || uninstalling ==> Log() == old(Log())
      ensures ok && !uninstalling && !old(garbled) ==>
        Log() == old(Log()) + [Saved(old(Image()), Entry(loc, data))]
    {
      hide BlockOf, OffsetIn, Base, Put, Between;
      BetweenSame(disk, Image(), loc, loc);
      PutNothing(Image(), loc);
      assert data[..0] == [];
      ghost var disk0 := disk;
      if !uninstalling {
        var journaled := Journal(loc, data);
        BetweenNone(disk, disk0, Image(), loc);
        if !journaled {
          return false, 0;
        }
      }
      ghost var disk1 := disk;
      ok, done := WriteChunks(data, loc);
      if !old(garbled) {
        BetweenTrans(disk, disk1, disk0, old(Image()), loc, loc + done);
      }
      if ok && !uninstalling {
        undoCount := undoCount + 1;
      }
    }

    /** Saving the bytes about to be overwritten in the next free journal slot. */
    method Journal(loc: nat, data: seq<byte>) returns (ok: bool)
      requires Valid()
      modifies this`clock, this`disk, this`dirty, this`cachedBlock, this`garbled, cache, undo
      ensures clock >= old(clock)
      ensures Valid() && Image() == old(Image()) && Log() == old(Log())
      ensures Between(disk, old(disk), old(Image()), 0, 0)
      ensures ok ==> undoCount < UNINSTALL_DATA_MAX && InRange(Entry(loc, data), |disk|)
      ensures Calm(old(clock)) && !ok ==> undoCount >= UNINSTALL_DATA_MAX || !InRange(Entry(loc, data), |disk|)
      ensures !old(garbled) && (ok || Calm(old(clock))) ==> !garbled
      ensures ok && !old(garbled) ==> undo[undoCount] == Saved(Image(), Entry(loc, data))
    {
      hide BlockOf, OffsetIn, Base;
      if undoCount >= UNINSTALL_DATA_MAX {
        return false;
      }
      var saved := new byte[|data|];
      ok := Read(saved, loc);
      if ok {
        undo[undoCount] := Entry(loc, saved[..]);
      }
    }

    /** `reverse_uninstall_data`: copying backwards into a second table and back. */
    method ReverseUninstallData()
      requires Valid()
      modifies undo, undoRev
      ensures Valid() && Image() == old(Image())
      ensures Log() == Reverse(old(Log()))
    {
      ghost var log := Log();
      var i, j := 0, undoCount - 1;
      while i < undoCount
        invariant 0 <= i <= undoCount && j == undoCount - 1 - i
        invariant undo[..undoCount] == log
        invariant forall k :: undoCount - i <= k < undoCount ==> undoRev[k] == log[undoCount - 1 - k]
      {
        undoRev[j] := undo[i];
        i, j := i + 1, j - 1;
      }
      forall k | 0 <= k < undoCount {
        undo[k] := undoRev[k];
      }
      assert undo[..undoCount] == Reverse(log);
    }

    /**
    `uninstall`: the cache is discarded, dirty or not, and the journal replayed in its order. An entry that
    cannot be written is retried once after a flush. If that fails too, or some flush does, the result is false;
    when it is true, the journal has been replayed in full. It is true if every entry is on the device and only one
    request fails, other than the last.
    */
    method Uninstall() returns (ok: bool)
      requires Valid()
      modifies this`clock, this`disk, this`dirty, this`cachedBlock, this`garbled, this`uninstalling, this`undoCount,
        cache, undo
      ensures clock >= old(clock)
      ensures Valid() && Log() == old(Log()) && |disk| == old(|disk|)
      ensures ok || Calm(old(clock)) ==> !dirty && disk == Image() == Replay(old(disk), Log())
      ensures ok ==> AllInRange(Log(), |disk|)
      ensures Calm(old(clock)) && !ok ==> !AllInRange(Log(), |disk|)
      ensures Mild(old(clock)) && AllInRange(Log(), |disk|) && (clock > old(clock) ==> !faults(clock - 1)) ==> ok
    {
      hide BlockOf, OffsetIn, Base, Put, Between, Valid, Image, InRange, Replay, AllInRange, Quiet, OneFault;
      StartUninstall();
      ok := ReplayJournal();
      ghost var now := clock;
      var flushed := FlushCache();
      Narrower(faults, old(clock), now, clock);
      if now < clock ==> !faults(clock - 1) {
        LastQuiet(faults, now, clock);
      }
      ok := ok && flushed;
    }

    /** The loop over the journal. */
    method ReplayJournal() returns (ok: bool)
      requires Valid() && uninstalling && !garbled
      modifies this`clock, this`disk, this`dirty, this`cachedBlock, this`garbled, this`undoCount, cache, undo
      ensures clock >= old(clock)
      ensures Valid() && Log() == old(Log()) && |disk| == old(|disk|)
      ensures ok || Calm(old(clock)) ==> !garbled && Image() == Replay(old(Image()), Log())
      ensures ok ==> AllInRange(Log(), |disk|)
      ensures Calm(old(clock)) && !ok ==> !AllInRange(Log(), |disk|)
      ensures Mild(old(clock)) && AllInRange(Log(), |disk|) ==> ok
    {
      ghost var log := Log();
      hide *;
      NothingReplayed(Image(), log, |disk|);
      ok := true;
      var i := 0;
      while i < undoCount
        invariant Valid() && uninstalling && |disk| == old(|disk|) && i <= undoCount && Log() == log
        invariant clock >= old(clock)
        invariant ok || Calm(old(clock)) ==> !garbled && Image() == Replay(old(Image()), log[..i])
        invariant ok ==> AllInRange(log[..i], |disk|)
        invariant Calm(old(clock)) && !ok ==> !AllInRange(log[..i], |disk|)
        invariant Mild(old(clock)) && AllInRange(log[..i], |disk|) ==> ok
      {
        ghost var now := clock;
        var restored := Restore(i);
        Narrower(faults, old(clock), now, clock);
        ok := ok && restored;
        ReplayNext(old(Image()), log, i);
        AllInRangeNext(log, i, |disk|);
        i := i + 1;
      }
      assert log[..i] == log;
    }

    /** Forgetting the cached block, written back or not. */
    method DropCache()
      requires Valid()
      modifies this`dirty, this`cachedBlock, this`garbled
      ensures Valid() && !dirty && !garbled && Log() == old(Log()) && Image() == disk
    {
      dirty, cachedBlock, garbled := false, NO_BLOCK, false;
    }

    method StartUninstall()
      requires Valid()
      modifies this`uninstalling, this`dirty, this`cachedBlock, this`garbled
      ensures Valid() && !dirty && !garbled && uninstalling && Log() == old(Log()) && Image() == disk
    {
      uninstalling := true;
      DropCache();
    }

    /** One round of `uninstall`: an attempt and, after a flush, a second one. */
    method Restore(i: nat) returns (restored: bool)
      requires Valid() && uninstalling && i < undoCount
      modifies this`clock, this`disk, this`dirty, this`cachedBlock, this`garbled, this`undoCount, cache, undo
      ensures clock >= old(clock)
      ensures Valid() && |disk| == old(|disk|) && Log() == old(Log())
      ensures !old(garbled) && (restored || Calm(old(clock))) ==> !garbled && Image() == Put(old(Image()), Log()[i])
      ensures restored ==> InRange(Log()[i], |disk|)
      ensures Calm(old(clock)) && !restored ==> !InRange(Log()[i], |disk|)
      ensures !old(garbled) && Mild(old(clock)) && InRange(Log()[i], |disk|) ==> restored
    {
      hide BlockOf, OffsetIn, Base, Put, Between;
      var e := undo[i];
      ghost var image := Image();
      ghost var done;
      restored, done := Write(e.data, e.loc);
      assert e.data[..|e.data|] == e.data;
      if !restored {
        if !old(garbled) {
          PutOver(image, e, done);
          PutTwice(image, e);
        }
        var flushed := FlushCache();
        DropCache();
        restored, done := Write(e.data, e.loc);
        restored := restored && flushed;
      }
    }

    // ----- whole installations -----

    /** The journal can bring the disk back to `orig`, whatever the cache does from here on. */
    ghost predicate Journaled(orig: seq<byte>)
      reads this, cache, undo
    {
      && Valid() && !uninstalling
      && Saves(orig, Log()) && Keeps(orig, Log(), disk) && Keeps(orig, Log(), Image())
      && AllInRange(Log(), |disk|)
    }

    /**
    One device access of the installer. The journal can still bring the disk back, unless the access is a
    failed write on a device with faults that goes beyond one block: such a write may stop halfway, and the
    journal knows nothing about it.
    */
    method Perform(op: Op, ghost orig: seq<byte>) returns (ok: bool, ghost whole: bool)
      requires Journaled(orig) && !garbled
      modifies this`clock, this`disk, this`dirty, this`cachedBlock, this`garbled, this`undoCount, cache, undo
      ensures clock >= old(clock)
      ensures Valid() && |disk| == old(|disk|) && (whole ==> Journaled(orig))
      ensures ok || Calm(old(clock)) || Indivisible(op, blockSize) ==> whole
      ensures !whole ==> op.WriteOp? && !ok
      ensures ok || Calm(old(clock)) ==> !garbled
      ensures old(NoneEmpty(Log())) && (op.WriteOp? ==> op.data != []) ==> NoneEmpty(Log())
      ensures undoCount == old(undoCount) + if ok && op.WriteOp? then 1 else 0
      ensures ok ==> Image() == if op.WriteOp? then Put(old(Image()), Entry(op.loc, op.data)) else old(Image())
      ensures ok && op.FlushOp? ==> disk == Image()
      ensures ok ==> OnDevice(op, |disk|) && (op.WriteOp? ==> old(undoCount) < UNINSTALL_DATA_MAX)
      ensures Calm(old(clock)) && !ok ==> !OnDevice(op, |disk|) || (op.WriteOp? && old(undoCount) >= UNINSTALL_DATA_MAX)
    {
      hide BlockOf, OffsetIn, Base, Put, Between, Saves, Keeps, Valid, Image, InRange, AllInRange, Saved, NoneEmpty;
      ghost var log, disk0, image0 := Log(), disk, Image();
      whole := true;
      match op
      case ReadOp(loc, count) =>
        var buffer := new byte[count];
        ok := Read(buffer, loc);
        BetweenKeeps(orig, log, disk0, image0, disk, 0);
      case WriteOp(loc, data) =>
        ghost var done;
        ok, done := Write(data, loc);
        whole := ok || done == 0;
        assert data[..|data|] == data && data[..0] == [];
        if !ok {
          if whole {
            PutNothing(image0, loc);
            BetweenKeeps(orig, log, disk0, image0, disk, loc);
          }
        } else {
          SavedInRange(Entry(loc, data), image0);
          AllInRangeAppend(log, Saved(image0, Entry(loc, data)), |disk|);
          NoneEmptyAppend(log, Entry(loc, data), image0);
          WriteJournaled(orig, log, disk0, image0, Entry(loc, data), disk, Image());
        }
      case FlushOp =>
        ok := FlushCache();
        BetweenKeeps(orig, log, disk0, image0, disk, 0);
    }

    /** The device accesses of an installation, up to the first that fails. */
    method PerformAll(ops: seq<Op>, ghost orig: seq<byte>) returns (ok: bool, ghost whole: bool)
      requires Journaled(orig) && !garbled && NoneEmpty(Log())
      modifies this`clock, this`disk, this`dirty, this`cachedBlock, this`garbled, this`undoCount, cache, undo
      ensures clock >= old(clock)
      ensures Valid() && |disk| == old(|disk|) && (whole ==> Journaled(orig))
      ensures ok || Calm(old(clock)) || AllIndivisible(ops, blockSize) ==> whole
      ensures ok ==> !garbled
      ensures NoEmptyWrites(ops) ==> NoneEmpty(Log())
      ensures ok ==> Image() == Replay(old(Image()), Writes(ops))
      ensures ok ==> Doable(ops, |disk|, old(undoCount))
      ensures Calm(old(clock)) && !ok ==> !Doable(ops, |disk|, old(undoCount))
    {
      CacheSize();
      hide BlockOf, OffsetIn, Base, Saves, Keeps, Valid, Image, AllInRange, NoneEmpty, Log, Indivisible;
      hide Doable, Writes, OnDevice, Put, Replay;
      ok, whole := true, true;
      var i := 0;
      ghost var size, count := |disk|, undoCount;
      NothingDoable(size, count, Image());
      assert ops[..0] == [];
      while i < |ops| && ok
        invariant Valid() && |disk| == old(|disk|) && clock >= old(clock) && (ok ==> !garbled)
        invariant i <= |ops| && (NoEmptyWrites(ops) ==> NoneEmpty(Log()))
        invariant ok ==> Doable(ops[..i], size, count) && undoCount == count + |Writes(ops[..i])|
        invariant !ok && Calm(old(clock)) ==> !Doable(ops[..i], size, count)
        invariant ok ==> Image() == Replay(old(Image()), Writes(ops[..i]))
        invariant (whole ==> Journaled(orig)) && (ok || Calm(old(clock)) || AllIndivisible(ops, blockSize) ==> whole)
      {
        DoableNext(ops, i, size, count);
        WritesNext(ops, i, old(Image()));
        ok, whole := Perform(ops[i], orig);
        i := i + 1;
      }
      assert ops[..|ops|] == ops;
      if !ok && Doable(ops, size, count) {
        DoablePrefix(ops, i, size, count);
      }
    }

    /** Reversing the journal prepares it for bringing the disk back. */
    method PrepareUndo(ghost orig: seq<byte>, ghost whole: bool)
      requires Valid() && (whole ==> Journaled(orig))
      modifies undo, undoRev
      ensures Valid() && Image() == old(Image()) && Log() == Reverse(old(Log()))
      ensures whole ==> AllInRange(Log(), |disk|) && Replay(disk, Log()) == orig
    {
      hide BlockOf, OffsetIn, Base, Saves, Keeps, Valid, Image, InRange, AllInRange;
      ghost var log := Log();
      if whole {
        UndoRestores(orig, log, disk);
        ReverseInRange(log, |disk|);
      }
      ReverseUninstallData();
    }

    /**
    An installation up to its cleanup: the device accesses, then the flush at its end, and the reversal of the
    journal. It is given up at the first access that fails, and without a flush where the program's own checks
    say so, which is what `finish` decides.
    */
    method Attempt(ops: seq<Op>, finish: bool) returns (installed: bool, ghost whole: bool)
      requires Valid() && !dirty && !garbled && !uninstalling && undoCount == 0
      modifies this`clock, this`disk, this`dirty, this`cachedBlock, this`garbled, this`undoCount, cache, undo, undoRev
      ensures clock >= old(clock)
      ensures Valid() && |disk| == old(|disk|)
      ensures installed || Calm(old(clock)) || AllIndivisible(ops, blockSize) ==> whole
      ensures whole ==> AllInRange(Log(), |disk|) && Replay(disk, Log()) == old(disk)
      ensures NoEmptyWrites(ops) ==> NoneEmpty(Log())
      ensures installed ==> finish && Doable(ops, |disk|, 0) && disk == Replay(old(disk), Writes(ops))
      ensures Calm(old(clock)) && finish && Doable(ops, |disk|, 0) ==> installed
    {
      FreshJournal(disk);
      assert NoneEmpty(Log());
      hide BlockOf, OffsetIn, Base, Saves, Keeps, Valid, Image, AllInRange, NoneEmpty, NoEmptyWrites, Doable;
      installed, whole := PerformAll(ops, disk);
      if installed && finish {
        installed, whole := Perform(FlushOp, old(disk));
      } else {
        installed := false;
      }
      ReversedNoneEmpty(Log());
      PrepareUndo(old(disk), whole);
    }

    /**
    An installation that is given up, by a failed access or by the program's own checks after any successful
    ones, and however the cache was evicted: if the roll-back reports success, the physical disk is as it was
    found, on every device if no write goes beyond one block, and for any writes if no request fails. Then the
    roll-back always succeeds, and so it does if a single request fails, unless that is its last.
    */
    method InstallAndRollBack(ops: seq<Op>, finish: bool) returns (ok: bool, ghost whole: bool)
      requires Valid() && !dirty && !garbled && !uninstalling && undoCount == 0
      modifies this`clock, this`disk, this`dirty, this`cachedBlock, this`garbled, this`uninstalling, this`undoCount,
        cache, undo, undoRev
      ensures clock >= old(clock)
      ensures Valid() && (ok && (Calm(old(clock)) || AllIndivisible(ops, blockSize)) ==> disk == old(disk))
      ensures Calm(old(clock)) ==> ok
      ensures whole && Mild(old(clock)) && (clock > 0 ==> !faults(clock - 1)) ==> ok
      ensures (ok && whole ==> disk == old(disk)) && (Calm(old(clock)) || AllIndivisible(ops, blockSize) ==> whole)
    {
      hide BlockOf, OffsetIn, Base, Valid, Image, AllInRange, Replay, Quiet, OneFault;
      var installed;
      installed, whole := Attempt(ops, finish);
      ghost var now := clock;
      ok := Uninstall();
      Narrower(faults, old(clock), now, clock);
    }

    /** Filling the journal of a device from what was stored. */
    method LoadJournal(log: seq<Entry>)
      requires Valid() && |log| <= UNINSTALL_DATA_MAX
      modifies this`undoCount, undo
      ensures Valid() && Log() == log && Image() == old(Image())
    {
      forall k | 0 <= k < |log| {
        undo[k] := log[k];
      }
      undoCount := |log|;
      assert undo[..undoCount] == log;
    }
  }

  predicate NoneEmpty(log: seq<Entry>) { forall i :: 0 <= i < |log| ==> log[i].data != [] }

  predicate NoEmptyWrites(ops: seq<Op>) { forall i :: 0 <= i < |ops| && ops[i].WriteOp? ==> ops[i].data != [] }

  lemma ReversedNoneEmpty(log: seq<Entry>)
    ensures NoneEmpty(log) ==> NoneEmpty(Reverse(log))
  {}

  lemma NoneEmptyAppend(log: seq<Entry>, e: Entry, image: seq<byte>)
    requires InRange(e, |image|)
    ensures NoneEmpty(log) && e.data != [] ==> NoneEmpty(log + [Saved(image, e)])
  {}

  /** A write across a block border of which only the first block arrived, with nothing journaled, stays. */
  lemma FirstBlockStays(orig: seq<byte>, loc: nat, data: seq<byte>, bs: nat)
    requires bs > 0 && InRange(Entry(loc, data), |orig|) && !InOneBlock(loc, |data|, bs)
    requires data[0] != orig[loc]
    ensures var image := Put(orig, Entry(loc, data[..bs - OffsetIn(loc, bs)]));
      Saves(orig, []) && !Keeps(orig, [], image) && Replay(image, Reverse([])) != orig
  {
    var first := Entry(loc, data[..bs - OffsetIn(loc, bs)]);
    PutBytes(orig, first);
    assert Put(orig, first)[loc] == data[0];
    UndoRestoresIff(orig, [], Put(orig, first));
  }

  lemma SplicePut(disk: seq<byte>, base: nat, cached: seq<byte>, offset: nat, bytes: seq<byte>)
    requires base + |cached| <= |disk| && offset + |bytes| <= |cached|
    ensures Splice(disk, base, Splice(cached, offset, bytes))
         == Put(Splice(disk, base, cached), Entry(base + offset, bytes))
  {
    hide Put;
    PutBytes(Splice(disk, base, cached), Entry(base + offset, bytes));
  }

  lemma FreshJournal(orig: seq<byte>)
    ensures Saves(orig, []) && Keeps(orig, [], orig) && AllInRange([], |orig|)
  {}

  lemma BetweenKeeps(orig: seq<byte>, log: seq<Entry>, disk: seq<byte>, image: seq<byte>, disk': seq<byte>,
                     at: nat)
    requires Keeps(orig, log, disk) && Keeps(orig, log, image) && Between(disk', disk, image, at, at)
    ensures Keeps(orig, log, disk')
  {}

  /** The journal entry for overwriting a range of `image`. */
  function Saved(image: seq<byte>, e: Entry): Entry
    requires InRange(e, |image|)
  {
    Entry(e.loc, if e.data == [] then [] else image[e.loc..e.loc + |e.data|])
  }

  lemma SavedInRange(e: Entry, image: seq<byte>)
    requires InRange(e, |image|)
    ensures InRange(Saved(image, e), |image|)
  {}

  lemma WriteJournaled(orig: seq<byte>, log: seq<Entry>, disk: seq<byte>, image: seq<byte>,
                       e: Entry, disk': seq<byte>, image': seq<byte>)
    requires Saves(orig, log) && Keeps(orig, log, disk) && Keeps(orig, log, image)
    requires InRange(e, |image|) && image' == Put(image, e)
    requires Between(disk', disk, image, e.loc, e.loc + |e.data|)
    ensures var saved := Saved(image, e);
      Saves(orig, log + [saved]) && Keeps(orig, log + [saved], disk') && Keeps(orig, log + [saved], image')
  {
    hide Put, Saves, Covered;
    PutBytes(image, e);
    var saved := Saved(image, e);
    WriteKeepsJournal(orig, log, disk, image, saved, disk', image');
  }

  lemma Extend(after: seq<byte>, before: seq<byte>, image: seq<byte>, loc: nat, progress: nat, chunk: nat)
    requires progress + chunk <= |before| && loc + progress + chunk <= |image|
    requires after == Splice(before, progress, image[loc + progress..loc + progress + chunk])
    requires progress > 0 ==> before[..progress] == image[loc..loc + progress]
    ensures after[..progress + chunk] == image[loc..loc + progress + chunk]
  {
    assert image[loc..loc + progress + chunk]
        == image[loc..loc + progress] + image[loc + progress..loc + progress + chunk];
  }

  lemma BetweenTrans(d2: seq<byte>, d1: seq<byte>, d0: seq<byte>, image: seq<byte>, lo: nat, hi: nat)
    requires Between(d1, d0, image, 0, 0) && Between(d2, d1, image, lo, hi)
    ensures Between(d2, d0, image, lo, hi)
  {}

  /** What one more chunk may do to the disk, relative to the disk and image before the first. */
  lemma BetweenStep(d2: seq<byte>, d1: seq<byte>, d0: seq<byte>, image1: seq<byte>, image0: seq<byte>,
                    loc: nat, data: seq<byte>, i: nat, j: nat)
    requires i <= j && i <= |data| && image1 == Put(image0, Entry(loc, data[..i]))
    requires Between(d1, d0, image0, loc, loc + i) && Between(d2, d1, image1, 0, 0)
    ensures Between(d2, d0, image0, loc, loc + j)
  {
    PutBytes(image0, Entry(loc, data[..i]));
    hide Put;
  }

  lemma BetweenNone(d1: seq<byte>, d0: seq<byte>, image: seq<byte>, at: nat)
    requires Between(d1, d0, image, 0, 0)
    ensures Between(d1, d0, image, at, at)
  {}

  lemma BetweenSame(d: seq<byte>, image: seq<byte>, lo: nat, hi: nat)
    requires |d| == |image|
    ensures Between(d, d, image, lo, hi)
  {}

  /** The range is on a device of `size` bytes; an empty range always is. */
  predicate InRange(e: Entry, size: nat) { e.data == [] || e.loc + |e.data| <= size }

  predicate AllInRange(log: seq<Entry>, size: nat) { forall i :: 0 <= i < |log| ==> InRange(log[i], size) }

  lemma AllInRangeNext(log: seq<Entry>, i: nat, size: nat)
    requires i < |log|
    ensures AllInRange(log[..i + 1], size) <==> AllInRange(log[..i], size) && InRange(log[i], size)
  {
    assert forall k :: 0 <= k < i ==> log[..i][k] == log[..i + 1][k];
  }

  lemma AllInRangeAppend(log: seq<Entry>, e: Entry, size: nat)
    ensures AllInRange(log + [e], size) <==> AllInRange(log, size) && InRange(e, size)
  {
    AllInRangeNext(log + [e], |log|, size);
    assert (log + [e])[..|log|] == log && (log + [e])[..|log| + 1] == log + [e];
  }

  lemma ReverseInRange(log: seq<Entry>, size: nat)
    requires AllInRange(log, size)
    ensures AllInRange(Reverse(log), size)
  {}

  /** Outside [lo, hi) every byte of `disk'` is one of `disk` or of `image`. */
  ghost predicate Between(disk': seq<byte>, disk: seq<byte>, image: seq<byte>, lo: nat, hi: nat)
  {
    && |disk'| == |disk| == |image|
    && forall x :: 0 <= x < |disk| && !(lo <= x < hi) ==> disk'[x] == disk[x] || disk'[x] == image[x]
  }
}
