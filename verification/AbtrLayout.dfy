/**
What the blocks of a partition mean: the chain of files, the scan that looks a path up in it,
and why that scan is sound and complete.
*/
module AbtrLayout {
  import opened Bytes
  import opened AbtrFormat

  /** A block device; requests for the blocks in `unreadable` / `unwritable` are answered with an error. */
  datatype Disk = Disk(blocks: seq<Block>, unreadable: set<nat>, unwritable: set<nat>) {
    predicate Readable(b: nat) { b < |blocks| && b !in unreadable }

    predicate Writable(b: nat) { b < |blocks| && b !in unwritable }
  }

  /** A file as its users see it. */
  datatype File = File(name: seq<byte>, content: seq<byte>)

  // ----- names -----

  /** The bytes before the first NUL. */
  function NameOf(s: seq<byte>): (n: seq<byte>)
    ensures |n| <= |s| && n == s[..|n|] && 0 !in n
    ensures |n| < |s| ==> s[|n|] == 0
  {
    if s == [] || s[0] == 0 then [] else
      var n := NameOf(s[1..]);
      assert s == [s[0]] + s[1..];
      [s[0]] + n
  }

  lemma {:induction false} NameOfUnique(s: seq<byte>, n: nat)
    requires n < |s| && s[n] == 0 && 0 !in s[..n]
    ensures NameOf(s) == s[..n]
  {
    assert NameOf(s) == s[..|NameOf(s)|];
  }

  /** What the copy loop leaves in a zeroed 256-byte path field: at most 255 bytes and a NUL. */
  function StoredPath(path: Path): (f: seq<byte>)
    ensures |f| == PATH_FIELD && f[PATH_FIELD - 1] == 0
  {
    var n := NameOf(path);
    var kept := Min(|n|, 255);
    n[..kept] + Zeros(PATH_FIELD - kept)
  }

  lemma StoredPathName(path: Path)
    ensures NameOf(StoredPath(path)) == NameOf(path)[..Min(|NameOf(path)|, 255)]
    ensures |NameOf(StoredPath(path))| < PATH_FIELD
  {
    var n := NameOf(path);
    var kept := Min(|n|, 255);
    assert StoredPath(path)[..kept] == n[..kept];
    NameOfUnique(StoredPath(path), kept);
  }

  /** `is_path_equal`: equal names, provided the NUL comes within the first 255 bytes. */
  predicate PathEqual(path: Path, field: seq<byte>)
    requires |field| == PATH_FIELD
  {
    |NameOf(path)| <= 254 && NameOf(field) == NameOf(path)
  }

  // ----- the chain of files -----

  predicate IsFile(h: Block) { Magic(h) == FILE_MAGIC && (Flags(h) / IS_FILE) % 2 == 1 }

  /** How far the scan moves past block `h`. */
  function Skip(h: Block): nat
  {
    if Magic(h) == FILE_MAGIC && SectionCount(h) > 0 then 1 + SectionCount(h) else 1
  }

  /** A header block at `p` describing a file that ends at or before `used`. */
  predicate GoodHeader(h: Block, p: nat, used: nat)
  {
    && IsFile(h)
    && SectionCount(h) >= 1
    && 1 <= LastSize(h) <= BLOCK
    && PayloadOffset(h) == p + 1
    && |NameOf(PathField(h))| < PATH_FIELD
    && p + 1 + SectionCount(h) <= used
  }

  /** From block `p` on, headers and payloads tile the blocks up to `used` exactly. */
  predicate Tiled(blocks: seq<Block>, p: nat, used: nat)
    decreases used - p
  {
    used <= |blocks| &&
    (p == used || (p < used && GoodHeader(blocks[p], p, used) && Tiled(blocks, p + Skip(blocks[p]), used)))
  }

  function TotalSize(h: Block): nat
  {
    if SectionCount(h) > 0 then (SectionCount(h) - 1) * BLOCK + LastSize(h) else 0
  }

  function Flat(blocks: seq<Block>): (s: seq<byte>)
    ensures |s| == BLOCK * |blocks|
  {
    if blocks == [] then [] else blocks[0] + Flat(blocks[1..])
  }

  lemma {:induction false} FlatAt(blocks: seq<Block>, i: nat)
    requires i < BLOCK * |blocks|
    ensures Flat(blocks)[i] == blocks[i / BLOCK][i % BLOCK]
  {
    if i >= BLOCK {
      FlatAt(blocks[1..], i - BLOCK);
      assert (i - BLOCK) / BLOCK == i / BLOCK - 1 && (i - BLOCK) % BLOCK == i % BLOCK;
    }
  }

  /** The bytes of the file whose header is at `p`. */
  function ContentAt(blocks: seq<Block>, p: nat, used: nat): (c: seq<byte>)
    requires used <= |blocks| && p < used && GoodHeader(blocks[p], p, used)
    ensures |c| == TotalSize(blocks[p])
  {
    Flat(blocks[p + 1..p + 1 + SectionCount(blocks[p])])[..TotalSize(blocks[p])]
  }

  function FileAt(blocks: seq<Block>, p: nat, used: nat): File
    requires used <= |blocks| && p < used && GoodHeader(blocks[p], p, used)
  {
    File(NameOf(PathField(blocks[p])), ContentAt(blocks, p, used))
  }

  /** The files of a tiled region, in block order. */
  function Files(blocks: seq<Block>, p: nat, used: nat): (fs: seq<File>)
    requires Tiled(blocks, p, used)
    decreases used - p
  {
    if p == used then [] else [FileAt(blocks, p, used)] + Files(blocks, p + Skip(blocks[p]), used)
  }

  /** The header positions of a tiled region, in block order. */
  function Headers(blocks: seq<Block>, p: nat, used: nat): (hs: seq<nat>)
    requires Tiled(blocks, p, used)
    ensures |hs| == |Files(blocks, p, used)|
    ensures forall i :: 0 <= i < |hs| ==>
      p <= hs[i] < used && GoodHeader(blocks[hs[i]], hs[i], used)
    decreases used - p
  {
    if p == used then [] else [p] + Headers(blocks, p + Skip(blocks[p]), used)
  }

  lemma GoodSkip(h: Block, p: nat, used: nat)
    requires GoodHeader(h, p, used)
    ensures Skip(h) == 1 + SectionCount(h) && p + Skip(h) <= used
  {}

  /** The `i`-th file is the one described by the `i`-th header. */
  lemma {:induction false} FilesAtHeaders(blocks: seq<Block>, p: nat, used: nat, i: nat)
    requires Tiled(blocks, p, used) && i < |Headers(blocks, p, used)|
    ensures var h := Headers(blocks, p, used)[i];
      && Files(blocks, p, used)[i] == FileAt(blocks, h, used)
      && h + 1 + SectionCount(blocks[h]) <= used
    decreases used - p
  {
    hide FromLE, NameOf, Flat, ContentAt;
    if i > 0 {
      FilesAtHeaders(blocks, p + Skip(blocks[p]), used, i - 1);
    }
  }

  /** A file depends on its own blocks only. */
  lemma FileFrame(a: seq<Block>, b: seq<Block>, p: nat, used: nat)
    requires used <= |a| && used <= |b| && p < used && GoodHeader(a[p], p, used)
    requires forall x :: p <= x <= p + SectionCount(a[p]) ==> a[x] == b[x]
    ensures FileAt(b, p, used) == FileAt(a, p, used)
  {
    hide FromLE, NameOf, Flat;
    assert a[p + 1..p + 1 + SectionCount(a[p])] == b[p + 1..p + 1 + SectionCount(a[p])];
  }

  /** The blocks a file takes, and what a list of files takes. */
  function BlocksFor(size: nat): nat { (size + BLOCK - 1) / BLOCK }

  function Footprint(fs: seq<File>): nat
  {
    if fs == [] then 0 else 1 + BlocksFor(|fs[0].content|) + Footprint(fs[1..])
  }

  /** Accounting: headers and payloads of the listed files are exactly the blocks of the region. */
  lemma {:induction false} TilingAccounts(blocks: seq<Block>, p: nat, used: nat)
    requires Tiled(blocks, p, used)
    ensures p + Footprint(Files(blocks, p, used)) == used
    ensures forall f :: f in Files(blocks, p, used) ==> |f.content| >= 1 && |f.name| < PATH_FIELD
    decreases used - p
  {
    if p < used {
      var h := blocks[p];
      var rest := Files(blocks, p + Skip(h), used);
      TilingAccounts(blocks, p + Skip(h), used);
      assert Files(blocks, p, used) == [FileAt(blocks, p, used)] + rest;
      assert Files(blocks, p, used)[1..] == rest;
      assert BlocksFor(TotalSize(h)) == SectionCount(h);
    }
  }

  // ----- the scan -----

  /** Larger partitions would overflow the 64-bit byte arithmetic; `format` makes 204800 blocks. */
  const MAX_TOTAL := 0x8_0000_0000_0000

  /** The 64-bit arithmetic on a header's block counts, byte sizes and sector addresses does not wrap. */
  predicate Unwrapped(h: Block)
  {
    SectionCount(h) * BLOCK + 0x1_0000 <= U64 && PayloadOffset(h) + SectionCount(h) <= U64 / 16
  }

  /** No header the scan can come to from block `p` on makes its arithmetic wrap; otherwise anything goes. */
  predicate Straight(d: Disk, p: nat, used: nat)
    decreases used - p
  {
    p >= used || !d.Readable(p)
    || ((Magic(d.blocks[p]) == FILE_MAGIC ==> Unwrapped(d.blocks[p]))
        && Straight(d, p + Skip(d.blocks[p]), used))
  }

  /** In 64 bits the scan does not get past a header exactly if its section count is the largest there is. */
  lemma StandsStillIff(h: Block, p: nat)
    requires p < U64
    ensures (p + Skip(h)) % U64 == p <==> Magic(h) == FILE_MAGIC && SectionCount(h) == U64 - 1
  {
    FromLEBound(h[92..100]);
    Pow256Widths();
    hide FromLE, Pow256;
    assert 1 <= Skip(h) <= U64;
    if Skip(h) < U64 {
      assert p + Skip(h) < U64 ==> (p + Skip(h)) % U64 == p + Skip(h);
      assert p + Skip(h) >= U64 ==> (p + Skip(h)) % U64 == p + Skip(h) - U64;
    }
  }

  lemma StandsStill(p: nat)
    requires p < U64
    ensures (p + Skip(BuildHeader(U64 - 1, 1, Zeros(PATH_FIELD), 0))) % U64 == p
  {
    BuiltHeaderReadsBack(U64 - 1, 1, Zeros(PATH_FIELD), 0);
    StandsStillIff(BuildHeader(U64 - 1, 1, Zeros(PATH_FIELD), 0), p);
  }

  lemma {:induction false} TiledIsStraight(d: Disk, p: nat, used: nat)
    requires Tiled(d.blocks, p, used) && used <= MAX_TOTAL
    ensures Straight(d, p, used)
    decreases used - p
  {
    hide FromLE, NameOf;
    if p < used {
      GoodSkip(d.blocks[p], p, used);
      TiledIsStraight(d, p + Skip(d.blocks[p]), used);
    }
  }

  /** `find_file_header`: the block of the header it stops at. A read error ends the scan as "not found". */
  function Scan(d: Disk, path: Path, p: nat, used: nat): (r: Option<nat>)
    ensures r.Some? ==> p <= r.value < used && d.Readable(r.value)
    decreases used - p
  {
    if p >= used || !d.Readable(p) then None
    else if IsFile(d.blocks[p]) && PathEqual(path, PathField(d.blocks[p])) then Some(p)
    else Scan(d, path, p + Skip(d.blocks[p]), used)
  }

  /**
  One step of the scan in terms of the bytes of the block: a file header of that name ends it, from any other
  block with the magic number it goes on behind as many blocks as that claims, and from all others at the next block.
  */
  lemma ScanStep(d: Disk, path: Path, p: nat, used: nat)
    requires p < used && d.Readable(p)
    ensures var b, r := d.blocks[p], Scan(d, path, p, used);
      if !Marked(b) then r == Scan(d, path, p + 1, used)
      else if b[2] / 8 % 2 == 1 && PathEqual(path, PathField(b)) then r == Some(p)
      else r == Scan(d, path, p + 1 + SectionCount(b), used)
  {
    MarkedIff(d.blocks[p]);
    FileFlagIff(d.blocks[p]);
    hide Magic, Flags, SectionCount, PathEqual, Marked;
  }

  /** The index of the first file called `name`. */
  function IndexOf(fs: seq<File>, name: seq<byte>): (i: Option<nat>)
    ensures i.None? ==> forall j :: 0 <= j < |fs| ==> fs[j].name != name
    ensures i.Some? ==> i.value < |fs| && fs[i.value].name == name
    ensures i.Some? ==> forall j :: 0 <= j < i.value ==> fs[j].name != name
  {
    if fs == [] then None
    else if fs[0].name == name then Some(0)
    else match IndexOf(fs[1..], name) case None => None case Some(i) => Some(i + 1)
  }

  /** The first `n` of the listed blocks can be read. */
  predicate AllReadable(d: Disk, hs: seq<nat>, n: nat)
    requires n <= |hs|
  {
    forall j :: 0 <= j < n ==> d.Readable(hs[j])
  }

  /** The headers a complete scan has to read: up to the named file, or all of them. */
  predicate ScanReadable(d: Disk, hs: seq<nat>, i: Option<nat>)
    requires i.Some? ==> i.value < |hs|
  {
    AllReadable(d, hs, if i.Some? then i.value + 1 else |hs|)
  }

  /**
  The scan is sound and complete on a tiled region: it stops exactly at the header of the first file
  with the path's name, provided the name has at most 254 bytes and every header up to that file can
  be read. In all other cases it reports "not found".
  */
  lemma {:induction false} ScanCorrect(d: Disk, path: Path, p: nat, used: nat)
    requires Tiled(d.blocks, p, used)
    ensures var hs, i := Headers(d.blocks, p, used), IndexOf(Files(d.blocks, p, used), NameOf(path));
      Scan(d, path, p, used) ==
        if i.Some? && |NameOf(path)| <= 254 && ScanReadable(d, hs, i) then Some(hs[i.value]) else None
    decreases used - p
  {
    if p < used {
      var q := p + Skip(d.blocks[p]);
      ScanCorrect(d, path, q, used);
      var fs, hs := Files(d.blocks, p, used), Headers(d.blocks, p, used);
      var fs', hs' := Files(d.blocks, q, used), Headers(d.blocks, q, used);
      assert fs == [fs[0]] + fs' && hs == [p] + hs';
      IndexOfCons(fs[0], fs', NameOf(path));
      var i' := IndexOf(fs', NameOf(path));
      if fs[0].name == NameOf(path) {
        AllReadableCons(d, p, hs', 0);
      } else if i'.Some? {
        AllReadableCons(d, p, hs', i'.value + 1);
      }
    }
  }

  lemma IndexOfCons(f: File, fs: seq<File>, name: seq<byte>)
    ensures IndexOf([f] + fs, name) ==
      if f.name == name then Some(0)
      else match IndexOf(fs, name) case None => None case Some(i) => Some(i + 1)
  {
    assert ([f] + fs)[1..] == fs;
  }

  lemma AllReadableCons(d: Disk, p: nat, hs: seq<nat>, n: nat)
    requires n <= |hs|
    ensures AllReadable(d, [p] + hs, n + 1) <==> d.Readable(p) && AllReadable(d, hs, n)
  {
    var all := [p] + hs;
    if AllReadable(d, all, n + 1) {
      assert d.Readable(all[0]);
      forall j | 0 <= j < n ensures d.Readable(hs[j]) {
        assert d.Readable(all[j + 1]);
      }
    }
  }

  /** What the scan finds in a tiled region is the header of one of its files. */
  lemma {:induction false} ScanFindsHeader(d: Disk, path: Path, p: nat, used: nat)
    requires Tiled(d.blocks, p, used) && Scan(d, path, p, used).Some?
    ensures var r := Scan(d, path, p, used).value; GoodHeader(d.blocks[r], r, used)
    decreases used - p
  {
    hide FromLE, NameOf, GoodHeader;
    if Scan(d, path, p, used).value != p {
      ScanFindsHeader(d, path, p + Skip(d.blocks[p]), used);
    }
  }

  // ----- reading -----

  /** The slice a read at `offset` with limit `limit` (0: no limit) is to return. */
  function SliceOf<T>(c: seq<T>, offset: nat, limit: nat): (s: seq<T>)
  {
    if offset >= |c| then []
    else if 0 < limit < |c| - offset then c[offset..offset + limit]
    else c[offset..]
  }

  // ----- frame -----

  /** A tiled region depends on its own blocks only. */
  lemma {:induction false} TiledFrame(a: seq<Block>, b: seq<Block>, p: nat, used: nat)
    requires Tiled(a, p, used) && used <= |b|
    requires forall i :: p <= i < used ==> a[i] == b[i]
    ensures Tiled(b, p, used) && Files(b, p, used) == Files(a, p, used)
    ensures Headers(b, p, used) == Headers(a, p, used)
    decreases used - p
  {
    hide GoodHeader, Skip, FileAt, SectionCount;
    if p < used {
      GoodSkip(a[p], p, used);
      var q := p + Skip(a[p]);
      TiledFrame(a, b, q, used);
      FileFrame(a, b, p, used);
      assert Tiled(b, p, used);
      assert Files(a, p, used) == [FileAt(a, p, used)] + Files(a, q, used);
      assert Headers(a, p, used) == [p] + Headers(a, q, used);
    }
  }

  lemma GoodWider(blocks: seq<Block>, p: nat, mid: nat, used: nat)
    requires p < mid <= used <= |blocks| && GoodHeader(blocks[p], p, mid)
    ensures GoodHeader(blocks[p], p, used) && FileAt(blocks, p, used) == FileAt(blocks, p, mid)
  {}

  lemma Associates<T>(a: seq<T>, b: seq<T>, c: seq<T>)
    ensures (a + b) + c == a + (b + c)
  {}

  /** Two tiled regions in a row are one, and their files are listed one after the other. */
  lemma {:induction false} TiledAppend(blocks: seq<Block>, p: nat, mid: nat, used: nat)
    requires Tiled(blocks, p, mid) && Tiled(blocks, mid, used) && p <= mid <= used
    ensures Tiled(blocks, p, used)
    ensures Files(blocks, p, used) == Files(blocks, p, mid) + Files(blocks, mid, used)
    decreases mid - p
  {
    hide GoodHeader, Skip, FileAt;
    if p < mid {
      GoodSkip(blocks[p], p, mid);
      GoodWider(blocks, p, mid, used);
      var q := p + Skip(blocks[p]);
      TiledAppend(blocks, q, mid, used);
      Associates([FileAt(blocks, p, used)], Files(blocks, q, mid), Files(blocks, mid, used));
    }
  }

  lemma TiledPosition(blocks: seq<Block>, p: nat, used: nat)
    requires Tiled(blocks, p, used)
    ensures p <= used <= |blocks|
  {}
}
