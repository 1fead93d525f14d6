/**
The block writes and results of `write_file` and `read_file`, as functions of the disk. The methods of
module AbtrFS are proved to perform exactly these; the theorems of AbtrTheorems are about them.
*/
module AbtrPlan {
  import opened Bytes
  import opened AbtrFormat
  import opened AbtrLayout
  import opened BlockWrites

  datatype ErrorCode =
    | Success | InvalidParameters | IOError | NoSpaceLeft | FileNotFound
    | DeviceNotMounted | InvalidPath | WriteFailed

  datatype Result<+T> = Ok(value: T) | Err(error: ErrorCode)

  const SLASH: byte := 47

  /** A path has at least one segment: some byte before its NUL is not a slash. */
  predicate HasSegment(path: Path) { exists i :: 0 <= i < |NameOf(path)| && NameOf(path)[i] != SLASH }

  function Used(part: Block): int { TotalBlocks(part) - FreeBlocks(part) }

  // ----- reading -----

  predicate RangeReadable(d: Disk, lo: nat, hi: nat) { forall b :: lo <= b < hi ==> d.Readable(b) }

  /** How many bytes a read at `offset` with limit `limit` copies from a file of `total` bytes. */
  function ReadCount(total: nat, offset: nat, limit: nat): nat
    requires offset < total
  {
    if 0 < limit < total - offset then limit else total - offset
  }

  /**
  Reading the file whose header block is `h`. A header may claim more bytes than its payload blocks have;
  these read as zeros.
  */
  function ReadAt(d: Disk, h: Block, offset: nat, limit: nat): Result<seq<byte>>
  {
    if offset >= TotalSize(h) then Ok([])
    else
      var n := ReadCount(TotalSize(h), offset, limit);
      var po := PayloadOffset(h);
      var end := Min((offset + n - 1) / BLOCK + 1, SectionCount(h));
      if !RangeReadable(d, po + offset / BLOCK, po + end) then Err(IOError)
      else Ok(BytesFrom(d, po, SectionCount(h), offset, n))
  }

  /** The `n` bytes from byte `offset` of the payload of `count` blocks at block `po`. */
  function BytesFrom(d: Disk, po: nat, count: nat, offset: nat, n: nat): (s: seq<byte>)
    ensures |s| == n && forall i :: 0 <= i < n ==> s[i] == ByteAt(d, po, count, offset + i)
  {
    if n == 0 then [] else BytesFrom(d, po, count, offset, n - 1) + [ByteAt(d, po, count, offset + n - 1)]
  }

  function ByteAt(d: Disk, po: nat, count: nat, i: nat): byte
  {
    if i / BLOCK < count && po + i / BLOCK < |d.blocks| then d.blocks[po + i / BLOCK][i % BLOCK] else 0
  }

  function ReadFile(d: Disk, part: Block, path: Path, offset: nat, limit: nat): Result<seq<byte>>
    requires Used(part) >= 0
  {
    if !HasSegment(path) then Err(InvalidPath)
    else match Scan(d, path, 1, Used(part))
      case None => Err(FileNotFound)
      case Some(p) => ReadAt(d, d.blocks[p], offset, limit)
  }

  // ----- writing -----

  /** The new bytes of a file: the prior ones, zero-extended to `size`, with `data` laid over them. */
  function Expanded(prior: seq<byte>, size: nat, offset: nat, data: seq<byte>): (e: seq<byte>)
    requires |prior| <= size && offset + |data| <= size
    ensures |e| == size
  {
    Splice(prior + Zeros(size - |prior|), offset, data)
  }

  /** The `b`-th payload block of a file with bytes `e`, zero-padded. */
  function PayloadBlock(e: seq<byte>, b: nat): (r: Block)
    requires b * BLOCK < |e|
    ensures forall k :: 0 <= k < BLOCK ==> r[k] == if b * BLOCK + k < |e| then e[b * BLOCK + k] else 0
  {
    var chunk := e[b * BLOCK..Min((b + 1) * BLOCK, |e|)];
    chunk + Zeros(BLOCK - |chunk|)
  }

  function Payload(e: seq<byte>): (bs: seq<Block>)
    ensures |bs| == BlocksFor(|e|)
    ensures forall b :: 0 <= b < |bs| ==> b * BLOCK < |e| && bs[b] == PayloadBlock(e, b)
  {
    PayloadUpTo(e, BlocksFor(|e|))
  }

  function PayloadUpTo(e: seq<byte>, n: nat): (bs: seq<Block>)
    requires n <= BlocksFor(|e|)
    ensures |bs| == n
    ensures forall b :: 0 <= b < n ==> b * BLOCK < |e| && bs[b] == PayloadBlock(e, b)
  {
    if n == 0 then [] else PayloadUpTo(e, n - 1) + [PayloadBlock(e, n - 1)]
  }

  /** The size recorded for the last payload block. */
  function LastSizeFor(size: nat): nat { if size % BLOCK == 0 then BLOCK else size % BLOCK }

  /** One `write_file` call: an extent of blocks, then block 0; and the free count it leaves in memory. */
  datatype Plan = Plan(at: nat, extent: seq<Block>, block0: Block, free: nat) {
    function Writes(): seq<Write<Block>> { Commit(at, extent, block0) }
  }

  function NewHeader(part: Block, path: Path, size: nat): Block
    requires Used(part) >= 0
  {
    BuildHeader(BlocksFor(size), LastSizeFor(size), StoredPath(path), Used(part) + 1)
  }

  function CreatePlan(part: Block, path: Path, e: seq<byte>): Plan
    requires 1 + BlocksFor(|e|) <= FreeBlocks(part) <= TotalBlocks(part)
  {
    var free := FreeBlocks(part) - (1 + BlocksFor(|e|));
    Plan(Used(part), [NewHeader(part, path, |e|)] + Payload(e), WithFree(part, free), free)
  }

  function OverwritePlan(part: Block, h: Block, e: seq<byte>): Plan
    requires BlocksFor(|e|) <= SectionCount(h) + FreeBlocks(part)
  {
    var n := BlocksFor(|e|);
    var free := if n > SectionCount(h) then FreeBlocks(part) - (n - SectionCount(h)) else FreeBlocks(part);
    Plan(PayloadOffset(h), Payload(e), WithFree(part, free), free)
  }

  /**
  What the new bytes of an existing file are laid over: what a second look-up reads of it, as far as it fits,
  or nothing if that meets a read error.
  */
  function OldBytes(d: Disk, part: Block, path: Path, size: nat): (b: seq<byte>)
    requires Used(part) >= 0
    ensures |b| <= size
  {
    match ReadFile(d, part, path, 0, 0)
    case Ok(bytes) => bytes[..Min(|bytes|, size)]
    case Err(_) => []
  }

  /** `later` is the disk as the second look-up finds it: a block may fail one read and not the other. */
  function PlanWrite(d: Disk, later: Disk, part: Block, path: Path, data: seq<byte>, offset: nat): Result<Plan>
    requires 0 <= Used(part)
  {
    if !HasSegment(path) then Err(InvalidPath)
    else
      var at := Scan(d, path, 1, Used(part));
      var existing := if at.Some? then TotalSize(d.blocks[at.value]) else 0;
      var size := Max(offset + |data|, existing);
      if size == 0 then Err(InvalidParameters)
      else match at
        case None =>
          if 1 + BlocksFor(size) > FreeBlocks(part) then Err(NoSpaceLeft)
          else Ok(CreatePlan(part, path, Expanded([], size, offset, data)))
        case Some(p) =>
          var h := d.blocks[p];
          if BlocksFor(size) > SectionCount(h) + FreeBlocks(part) then Err(NoSpaceLeft)
          else Ok(OverwritePlan(part, h, Expanded(OldBytes(later, part, path, size), size, offset, data)))
  }

  /** How many of the writes the device carries out before it first refuses one. */
  function Accepted(d: Disk, ws: seq<Write<Block>>): (k: nat)
    ensures k <= |ws|
    ensures forall j :: 0 <= j < k ==> d.Writable(ws[j].at)
    ensures k < |ws| ==> !d.Writable(ws[k].at)
  {
    if ws == [] then 0
    else
      var k := Accepted(d, ws[..|ws| - 1]);
      if k == |ws| - 1 && d.Writable(ws[k].at) then k + 1 else k
  }
}
