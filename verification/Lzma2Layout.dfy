/** The chunks of LZMA2 byte by byte, as the table at the top of Lzma2Dec.c gives them. */
module Lzma2Layout {
  import opened Bytes
  import opened LzmaModel
  import opened LzmaRun
  import opened Lzma2Model
  import opened Lzma2Run
  import opened Lzma2Reset
  import opened Lzma2Enc

  // ---------- What is written ----------

  /** At most 2^16 bytes make one copy chunk; the first one of a stream resets the dictionary. */
  lemma CopyLayout(srcPos: nat, data: seq<byte>)
    requires 0 < |data| <= 0x1_0000
    ensures CopyChunks(srcPos, data) == [if srcPos == 0 then 1 else 2, (|data| - 1) / 0x100, (|data| - 1) % 0x100] + data
  {
    var piece := CopyPiece(data);
    assert piece == data && data[|data|..] == [];
    assert CopyChunks(srcPos + |data|, []) == [];
  }

  /** More bytes make full chunks first. */
  lemma CopiesLayout(srcPos: nat, data: seq<byte>)
    requires |data| > 0x1_0000
    ensures CopyChunks(srcPos, data) ==
            [if srcPos == 0 then 1 else 2, 0xFF, 0xFF] + data[..0x1_0000] + CopyChunks(srcPos + 0x1_0000, data[0x1_0000..])
  {
    hide CopyChunks;
    CopyStep(srcPos, data);
  }

  lemma CopyStep(srcPos: nat, data: seq<byte>)
    requires |data| > 0x1_0000
    ensures var piece := data[..0x1_0000];
            CopyChunks(srcPos, data) == [CopyControl(srcPos)] + SizeBytes(0x1_0000) + piece + CopyChunks(srcPos + 0x1_0000, data[0x1_0000..])
  {
  }

  /** An LZMA chunk: what is reset, 21 bits of the size of the data less one, 16 bits of that of the packed bytes less one. */
  lemma LzmaLayout(p: Enc, propsByte: byte, s: Sub)
    requires SubOk(s) && s.coded.Packed2? && |s.coded.bytes| <= 0x1_0000 && EncOk(p)
    ensures var u, k := |s.data| - 1, |s.coded.bytes| - 1;
            var control := if p.srcPos == 0 then 0xE0 else if p.needInitState then 0xC0 else 0x80;
            LzmaChunk(p, propsByte, s) ==
              [control + u / 0x1_0000, u / 0x100 % 0x100, u % 0x100, k / 0x100, k % 0x100] +
              (if p.needInitProp then [propsByte] else []) + s.coded.bytes
  {
    var u, k := |s.data| - 1, |s.coded.bytes| - 1;
    assert 0 <= u / 0x1_0000 < 0x20 && k / 0x100 < 0x100;
  }

  /** A subblock is copied if that takes no more bytes, or if its packed bytes do not fit a chunk. */
  lemma CopiedWhen(s: Sub)
    requires SubOk(s)
    ensures UsesCopy(s) <==> s.coded.OutputEof? || |s.coded.bytes| + 2 >= |s.data| || |s.coded.bytes| > 0x1_0000
  {
  }

  // ---------- What is read ----------

  /** Which control bytes a decoder takes: at first, after a dictionary reset of a copy chunk, and with the coder set up. */
  lemma ControlsTaken(c: byte)
    ensures Accepted(0xE0, [c]) <==> c == 1 || c >= 0xE0
    ensures Accepted(0xC0, [c]) <==> c == 1 || c == 2 || c >= 0xC0
    ensures Accepted(0, [c]) <==> c == 1 || c == 2 || c >= 0x80
  {
    assert [c][1..] == [];
  }

  lemma FirstLevel(dicSize: nat)
    ensures Initial(dicSize).level == 0xE0 && Initial(dicSize).phase == Control && Initial(dicSize).out == []
  {
  }

  /** The sizes of an LZMA chunk, from its five header bytes. */
  lemma SizesRead(z: Lz2, c: byte, a: byte, b: byte, d: byte, e: byte)
    requires z.phase == Control && c >= 0x80 && c >= z.level && z.unpack == 0
    ensures var f := UpdateState(UpdateState(UpdateState(UpdateState(UpdateState(z, c), a), b), d), e);
            && f.unpack == c % 0x20 * 0x1_0000 + a * 0x100 + b + 1 && f.pack == d * 0x100 + e + 1 && f.control == c
            && f.phase == if c >= 0xC0 then PropByte else Data
  {
  }

  lemma CopySizeRead(z: Lz2, c: byte, a: byte, b: byte)
    requires z.phase == Control && (c == 1 || (c == 2 && z.level != 0xE0)) && z.unpack == 0
    ensures var f := UpdateState(UpdateState(UpdateState(z, c), a), b);
            f.unpack == a * 0x100 + b + 1 && f.phase == Data && f.control == c
  {
  }

  /** What the control byte of a chunk resets: the dictionary, and the coder. */
  lemma ResetsOf(z: Lz2)
    requires z.phase == Data
    ensures ChunkStart(z).hist == if z.control == 1 || z.control >= 0xE0 then [] else z.dec.hist
    ensures z.control == 1 || z.control >= 0xA0 ==> ChunkStart(z) == Blank(z.dec.props, ChunkStart(z).hist)
    ensures (z.control == 2 || 0x80 <= z.control < 0xA0) && z.level == 0 ==>
              ChunkStart(z) == z.dec.(remain := ChunkStart(z).remain)
  {
  }
}
