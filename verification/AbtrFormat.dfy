/**
The on-disk layout of AbtrFS, byte for byte: block 0 holds the partition header,
a file is one header block followed by its payload blocks.
*/
module AbtrFormat {
  import opened Bytes

  const BLOCK := 4096
  const PARTITION_MAGIC := 0xABF4
  const FILE_MAGIC := 0xABF5
  const IS_FILE := 8
  const DEFAULT_TOTAL := 204800
  const PATH_SIZE := 2048
  const PATH_FIELD := 256

  type Block = b: seq<byte> | |b| == BLOCK witness Zeros(BLOCK)
  type Path = p: seq<byte> | |p| == PATH_SIZE witness Zeros(PATH_SIZE)

  // ----- file header fields, at their packed offsets -----

  function Magic(b: Block): nat { FromLE(b[0..2]) }
  function Flags(b: Block): nat { FromLE(b[2..6]) }
  function SectionCount(b: Block): nat { FromLE(b[92..100]) }
  function PathField(b: Block): (f: seq<byte>) ensures |f| == PATH_FIELD { b[124..380] }
  function LastSize(b: Block): nat { FromLE(b[764..766]) }
  function PayloadOffset(b: Block): nat { FromLE(b[774..782]) }

  /** The header `write_file` builds for a new file: the seven assignments into a zeroed struct. */
  function BuildHeader(sections: nat, lastSize: nat, pathField: seq<byte>, payload: nat): Block
    requires |pathField| == PATH_FIELD
  {
    var h := Splice(Splice(Zeros(BLOCK), 0, ToLE(FILE_MAGIC, 2)), 2, ToLE(IS_FILE, 4));
    var h := Splice(Splice(h, 92, ToLE(sections, 8)), 764, ToLE(lastSize, 2));
    Splice(Splice(Splice(h, 766, ToLE(BLOCK, 8)), 124, pathField), 774, ToLE(payload, 8))
  }

  lemma BuiltHeaderReadsBack(sections: nat, lastSize: nat, pathField: seq<byte>, payload: nat)
    requires |pathField| == PATH_FIELD && sections < U64 && lastSize < 0x1_0000 && payload < U64
    ensures var h := BuildHeader(sections, lastSize, pathField, payload);
            && Magic(h) == FILE_MAGIC && Flags(h) == IS_FILE && SectionCount(h) == sections
            && PathField(h) == pathField && LastSize(h) == lastSize && PayloadOffset(h) == payload
  {
    HeaderSlices(Zeros(BLOCK), ToLE(FILE_MAGIC, 2), ToLE(IS_FILE, 4), ToLE(sections, 8),
                 ToLE(lastSize, 2), ToLE(BLOCK, 8), pathField, ToLE(payload, 8));
    Pow256Widths();
    LERoundTrip(FILE_MAGIC, 2);
    LERoundTrip(IS_FILE, 4);
    LERoundTrip(sections, 8);
    LERoundTrip(lastSize, 2);
    LERoundTrip(payload, 8);
  }

  lemma HeaderSlices(h0: Block, m: seq<byte>, f: seq<byte>, c: seq<byte>, l: seq<byte>, bs: seq<byte>,
                     p: seq<byte>, po: seq<byte>)
    requires |m| == 2 && |f| == 4 && |c| == 8 && |l| == 2 && |bs| == 8 && |p| == PATH_FIELD && |po| == 8
    ensures var h := Splice(Splice(h0, 0, m), 2, f);
            var h := Splice(Splice(h, 92, c), 764, l);
            var h := Splice(Splice(Splice(h, 766, bs), 124, p), 774, po);
            && h[0..2] == m && h[2..6] == f && h[92..100] == c && h[124..380] == p
            && h[764..766] == l && h[774..782] == po
  {
    var h1 := Splice(h0, 0, m);
    var h2 := Splice(h1, 2, f);
    var h3 := Splice(h2, 92, c);
    var h4 := Splice(h3, 764, l);
    var h5 := Splice(h4, 766, bs);
    var h6 := Splice(h5, 124, p);
    var h7 := Splice(h6, 774, po);
    assert h7[0..2] == m;
    assert h7[2..6] == f;
    assert h7[92..100] == c;
    assert h7[124..380] == p;
    assert h7[764..766] == l;
    assert h7[774..782] == po;
  }

  // ----- the bytes of a file header -----

  /** The block begins with the magic number 0xABF5, low byte first. */
  predicate Marked(b: Block) { b[0] == 0xF5 && b[1] == 0xAB }

  lemma LowWord(s: seq<byte>)
    requires |s| == 2
    ensures FromLE(s) == s[0] + 256 * (s[1] as int)
  {
    assert s[1..] == [s[1]] && s[1..][1..] == [];
    assert FromLE(s[1..]) == s[1] + 256 * FromLE([]);
  }

  lemma MarkedIff(b: Block)
    ensures Magic(b) == FILE_MAGIC <==> Marked(b)
  {
    LowWord(b[0..2]);
    hide FromLE;
  }

  /** The flag that says "file" is bit 3 of the first flag byte. */
  lemma FileFlagIff(b: Block)
    ensures Flags(b) / IS_FILE % 2 == 1 <==> b[2] / 8 % 2 == 1
  {
    var s := b[2..6];
    assert FromLE(s) == s[0] + 256 * FromLE(s[1..]) && s[0] == b[2];
    hide FromLE;
    var n := FromLE(s[1..]);
    assert (b[2] + 256 * n) / 8 == b[2] / 8 + 32 * n;
  }

  /** The whole header block of a new file, byte by byte. */
  lemma BuiltHeaderBytes(sections: nat, lastSize: nat, pathField: seq<byte>, payload: nat, i: nat)
    requires |pathField| == PATH_FIELD && i < 4096
    ensures var h := BuildHeader(sections, lastSize, pathField, payload);
      h[i] == if i < 2 then [0xF5, 0xAB][i]
              else if i == 2 then 8
              else if 92 <= i < 100 then ToLE(sections, 8)[i - 92]
              else if 124 <= i < 380 then pathField[i - 124]
              else if 764 <= i < 766 then ToLE(lastSize, 2)[i - 764]
              else if i == 767 then 0x10
              else if 774 <= i < 782 then ToLE(payload, 8)[i - 774]
              else 0
  {
    FixedBytes();
    hide ToLE;
  }

  lemma FixedBytes()
    ensures ToLE(FILE_MAGIC, 2) == [0xF5, 0xAB] && ToLE(IS_FILE, 4) == [8, 0, 0, 0]
    ensures ToLE(BLOCK, 8) == [0, 0x10, 0, 0, 0, 0, 0, 0] && ToLE(1, 4) == [1, 0, 0, 0]
  {
    EightBytes(0, 0x10, 0);
    ZeroBytes(3);
  }

  lemma FormatBytes()
    ensures ToLE(PARTITION_MAGIC, 8) == [0xF4, 0xAB, 0, 0, 0, 0, 0, 0]
    ensures ToLE(DEFAULT_TOTAL, 8) == [0, 0x20, 3, 0, 0, 0, 0, 0]
    ensures ToLE(DEFAULT_TOTAL - 1, 8) == [0xFF, 0x1F, 3, 0, 0, 0, 0, 0]
  {
    EightBytes(0xF4, 0xAB, 0);
    EightBytes(0, 0x20, 3);
    EightBytes(0xFF, 0x1F, 3);
  }

  lemma {:induction false} ZeroBytes(n: nat)
    ensures ToLE(0, n) == Zeros(n)
  {
    if n > 0 {
      ZeroBytes(n - 1);
    }
  }

  /** An eight-byte field of a value below 2^24. */
  lemma EightBytes(a: byte, b: byte, c: byte)
    ensures ToLE(a + 256 * (b + 256 * c), 8) == [a, b, c, 0, 0, 0, 0, 0]
  {
    ZeroBytes(5);
    assert ToLE(c, 6) == [c] + ToLE(0, 5);
    assert ToLE(b + 256 * c, 7) == [b] + ToLE(c, 6);
    assert ToLE(a + 256 * (b + 256 * c), 8) == [a] + ToLE(b + 256 * c, 7);
  }

  // ----- partition header fields -----

  function PartMagic(b: Block): nat { FromLE(b[0..8]) }
  function TotalBlocks(b: Block): nat { FromLE(b[16..24]) }
  function FreeBlocks(b: Block): nat { FromLE(b[32..40]) }

  /** The header `format` writes. */
  function FormattedHeader(total: nat): Block
    requires total >= 1
  {
    var h := Splice(Splice(Zeros(BLOCK), 0, ToLE(PARTITION_MAGIC, 8)), 8, ToLE(BLOCK, 8));
    Splice(Splice(Splice(h, 16, ToLE(total, 8)), 32, ToLE(total - 1, 8)), 40, ToLE(1, 4))
  }

  /** Assigning `free_blocks_count` in the in-memory copy of the header. */
  function WithFree(b: Block, free: nat): Block { Splice(b, 32, ToLE(free, 8)) }

  /** The partition header of `format`, byte by byte. */
  lemma FormattedHeaderBytes(i: nat)
    requires i < 4096
    ensures FormattedHeader(DEFAULT_TOTAL)[i] ==
      if i < 2 then [0xF4, 0xAB][i]
      else if i == 9 then 0x10
      else if 16 <= i < 19 then [0, 0x20, 3][i - 16]
      else if 32 <= i < 35 then [0xFF, 0x1F, 3][i - 32]
      else if i == 40 then 1
      else 0
  {
    FixedBytes();
    FormatBytes();
    hide ToLE;
  }

  lemma FormattedHeaderReadsBack(total: nat)
    requires 1 <= total < U64
    ensures var h := FormattedHeader(total);
            PartMagic(h) == PARTITION_MAGIC && TotalBlocks(h) == total && FreeBlocks(h) == total - 1
  {
    hide ToLE, FromLE;
    var h := FormattedHeader(total);
    Pow256Widths();
    assert h[0..8] == ToLE(PARTITION_MAGIC, 8);
    assert h[16..24] == ToLE(total, 8);
    assert h[32..40] == ToLE(total - 1, 8);
    LERoundTrip(PARTITION_MAGIC, 8);
    LERoundTrip(total, 8);
    LERoundTrip(total - 1, 8);
  }

  lemma WithFreeReadsBack(b: Block, free: nat)
    requires free < U64
    ensures FreeBlocks(WithFree(b, free)) == free
    ensures PartMagic(WithFree(b, free)) == PartMagic(b) && TotalBlocks(WithFree(b, free)) == TotalBlocks(b)
  {
    var h := WithFree(b, free);
    Pow256Widths();
    assert h[32..40] == ToLE(free, 8);
    assert h[0..8] == b[0..8] && h[16..24] == b[16..24];
    LERoundTrip(free, 8);
  }

  /** Storing the count a header already holds changes nothing. */
  lemma WithSameFree(b: Block)
    ensures WithFree(b, FreeBlocks(b)) == b
  {
    FromLEInverse(b[32..40]);
  }

  lemma {:induction false} FromLEInverse(s: seq<byte>)
    ensures ToLE(FromLE(s), |s|) == s
  {
    if s != [] {
      FromLEInverse(s[1..]);
      assert FromLE(s) % 256 == s[0] && FromLE(s) / 256 == FromLE(s[1..]);
    }
  }
}
