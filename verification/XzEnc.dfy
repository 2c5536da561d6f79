/** The .xz container that XzEnc.c writes. */
module XzEnc {
  import opened Bytes
  import opened Wrappers
  import opened XzFormat

  // ---------- What is written ----------

  function RecordBytes(r: Record): (s: seq<byte>)
    ensures |s| >= 2
  {
    VarInt(r.unpadded) + VarInt(r.unpacked)
  }

  function RecordsBytes(records: seq<Record>): (s: seq<byte>) {
    if records == [] then [] else RecordBytes(records[0]) + RecordsBytes(records[1..])
  }

  /** The index without its CRC32: XzEncIndex_WriteFooter up to there. */
  function IndexBody(records: seq<Record>): (s: seq<byte>)
    ensures |s| % 4 == 0 && |s| > 0
  {
    var s := [0] + VarInt(|records|) + RecordsBytes(records);
    s + Zeros(PadSize(|s|))
  }

  function IndexBytes(records: seq<Record>, crc: Checksum): seq<byte> {
    IndexBody(records) + Le32(crc(IndexBody(records)))
  }

  function FooterFields(size: nat, flags: seq<byte>): (s: seq<byte>)
    requires |flags| == 2
    ensures |s| == 6
  {
    Le32(size / 4) + flags
  }

  /** The footer after an index of size bytes and its CRC32. */
  function FooterBytes(size: nat, flags: seq<byte>, crc: Checksum): (s: seq<byte>)
    requires |flags| == 2
    ensures |s| == 12
  {
    Le32(crc(FooterFields(size, flags))) + FooterFields(size, flags) + [0x59, 0x5A]
  }

  function HeaderBytes(flags: seq<byte>, crc: Checksum): (s: seq<byte>)
    requires |flags| == 2
    ensures |s| == 12
  {
    MAGIC + flags + Le32(crc(flags))
  }

  /** XzFlags_GetCheckSize */
  function CheckSize(check: nat): (n: nat)
    requires check < 16
    ensures n % 4 == 0
  {
    if check == 0 then 0
    else
      var k := (check - 1) / 3;
      if k == 0 then 4 else if k == 1 then 8 else if k == 2 then 16 else if k == 3 then 32 else 64
  }

  /** They are those of the format. */
  lemma CheckSizes(check: nat)
    requires check < 16
    ensures CheckSize(check) == CHECK_LENGTHS[check]
  {
  }

  // ---------- The block header ----------

  function FilterBytes(f: Filter): seq<byte> { VarInt(f.id) + VarInt(|f.props|) + f.props }

  function FiltersBytes(filters: seq<Filter>): seq<byte> {
    if filters == [] then [] else FilterBytes(filters[0]) + FiltersBytes(filters[1..])
  }

  function SizeBytes(size: Option<nat>): seq<byte> { if size.Some? then VarInt(size.value) else [] }

  /** What XzBlock_WriteHeader can be given. */
  predicate HeaderOk(h: BlockHeader) {
    && 1 <= |h.filters| <= 4
    && (forall i :: 0 <= i < |h.filters| ==> h.filters[i].id < 0x8000_0000_0000_0000 && |h.filters[i].props| <= 20)
    && (h.packSize.Some? ==> h.packSize.value < 0x8000_0000_0000_0000)
    && (h.unpackSize.Some? ==> h.unpackSize.value < 0x8000_0000_0000_0000)
  }

  function Flags(h: BlockHeader): byte
    requires HeaderOk(h)
  {
    |h.filters| - 1 + (if h.packSize.Some? then 0x40 else 0) + (if h.unpackSize.Some? then 0x80 else 0)
  }

  function Fields(h: BlockHeader): seq<byte> { SizeBytes(h.packSize) + SizeBytes(h.unpackSize) + FiltersBytes(h.filters) }

  function HeaderBody(h: BlockHeader): (s: seq<byte>)
    requires HeaderOk(h)
    ensures |s| % 4 == 0 && 4 <= |s| < 0x400
  {
    FieldsShort(h);
    var n := 2 + |Fields(h)|;
    var pos := n + PadSize(n);
    [pos / 4, Flags(h)] + Fields(h) + Zeros(PadSize(n))
  }

  function BlockHeaderBytes(h: BlockHeader, crc: Checksum): (s: seq<byte>)
    requires HeaderOk(h)
    ensures |s| % 4 == 0 && |s| >= 8
  {
    HeaderBody(h) + Le32(crc(HeaderBody(h)))
  }

  lemma VarIntShort(v: nat)
    requires v < 0x8000_0000_0000_0000
    ensures |VarInt(v)| <= 9
  {
    NineBytes();
    VarIntLength(v, VARINT_MAX);
  }

  lemma {:induction false} FiltersShort(filters: seq<Filter>)
    requires forall i :: 0 <= i < |filters| ==> filters[i].id < 0x8000_0000_0000_0000 && |filters[i].props| <= 20
    ensures |FiltersBytes(filters)| <= 38 * |filters|
  {
    if filters != [] {
      VarIntShort(filters[0].id);
      VarIntShort(|filters[0].props|);
      FiltersShort(filters[1..]);
    }
  }

  lemma FieldsShort(h: BlockHeader)
    requires HeaderOk(h)
    ensures |Fields(h)| <= 170
  {
    FiltersShort(h.filters);
    if h.packSize.Some? {
      VarIntShort(h.packSize.value);
    }
    if h.unpackSize.Some? {
      VarIntShort(h.unpackSize.value);
    }
  }

  // ---------- It is read back ----------

  ghost predicate Checks(crc: Checksum) { forall s :: crc(s) < WORD }

  lemma SizeReads(size: Option<nat>, rest: seq<byte>)
    requires size.Some? ==> size.value < 0x8000_0000_0000_0000
    ensures ReadSize(SizeBytes(size) + rest, size.Some?) == Read(size, rest)
  {
    if size.Some? {
      VarIntRead(size.value, rest);
    } else {
      assert SizeBytes(size) + rest == rest;
    }
  }

  lemma {:induction false} FiltersRead(filters: seq<Filter>, rest: seq<byte>)
    requires forall i :: 0 <= i < |filters| ==> filters[i].id < 0x8000_0000_0000_0000 && |filters[i].props| <= 20
    ensures ReadFilters(FiltersBytes(filters) + rest, |filters|) == Read(filters, rest)
    decreases |filters|
  {
    hide VarInt, ReadVarInt, Take;
    if filters == [] {
      assert [] + rest == rest;
    } else {
      var f := filters[0];
      var more := FiltersBytes(filters[1..]) + rest;
      assert FiltersBytes(filters) + rest == VarInt(f.id) + (VarInt(|f.props|) + (f.props + more));
      VarIntRead(f.id, VarInt(|f.props|) + (f.props + more));
      VarIntRead(|f.props|, f.props + more);
      TakeJoin(f.props, more);
      FiltersRead(filters[1..], rest);
      assert filters == [f] + filters[1..];
    }
  }

  /** A block header says what it was given to say, and how long it is; a packed size of 0 is not allowed. */
  lemma BlockHeaderRead(h: BlockHeader, crc: Checksum, rest: seq<byte>)
    requires HeaderOk(h) && crc(HeaderBody(h)) < WORD
    ensures ReadBlockHeader(BlockHeaderBytes(h, crc) + rest, crc) == if h.packSize == Some(0) then Bad else Read(h, rest)
  {
    hide Fields, ReadSize, ReadFilters, FromLe32, Le32, Zeros;
    FieldsShort(h);
    var body := HeaderBody(h);
    var n := 2 + |Fields(h)|;
    var zeros := Zeros(PadSize(n));
    var s := BlockHeaderBytes(h, crc) + rest;
    var size := |body| + 4;
    assert s[0] as int == |body| / 4 && 4 * (s[0] as int + 1) == size;
    assert s[..size - 4] == body && s[size - 4..size] == Le32(crc(body)) && s[size..] == rest;
    Le32Read(crc(body));
    assert body[1] == Flags(h) && body[2..] == Fields(h) + zeros;
    FieldsRead(h, zeros);
    FlagsRead(h);
  }

  lemma FlagsRead(h: BlockHeader)
    requires HeaderOk(h)
    ensures var f := Flags(h);
            && f % 0x40 / 4 == 0 && (f / 0x40 % 2 == 1) == h.packSize.Some? && (f / 0x80 == 1) == h.unpackSize.Some?
            && f % 4 + 1 == |h.filters|
  {
  }

  lemma FieldsRead(h: BlockHeader, zeros: seq<byte>)
    requires HeaderOk(h)
    ensures var a := ReadSize(Fields(h) + zeros, h.packSize.Some?);
            a.Read? && a.value == h.packSize &&
            var b := ReadSize(a.rest, h.unpackSize.Some?);
            b.Read? && b.value == h.unpackSize && ReadFilters(b.rest, |h.filters|) == Read(h.filters, zeros)
  {
    hide ReadSize, ReadFilters, SizeBytes, FiltersBytes;
    var more := FiltersBytes(h.filters) + zeros;
    assert Fields(h) + zeros == SizeBytes(h.packSize) + (SizeBytes(h.unpackSize) + more);
    SizeReads(h.packSize, SizeBytes(h.unpackSize) + more);
    SizeReads(h.unpackSize, more);
    FiltersRead(h.filters, zeros);
  }

  // ---------- The index is read back ----------

  predicate RecordsOk(records: seq<Record>) {
    && |records| < 0x8000_0000_0000_0000
    && forall i :: 0 <= i < |records| ==>
         UNPADDED_MIN <= records[i].unpadded < 0x8000_0000_0000_0000 && records[i].unpacked < 0x8000_0000_0000_0000
  }

  lemma {:induction false} RecordsRead(records: seq<Record>, rest: seq<byte>)
    requires RecordsOk(records)
    ensures ReadRecords(RecordsBytes(records) + rest, |records|) == Read(records, rest)
    decreases |records|
  {
    hide VarInt, ReadVarInt;
    if records == [] {
      assert [] + rest == rest;
    } else {
      var r := records[0];
      var more := RecordsBytes(records[1..]) + rest;
      assert RecordsBytes(records) + rest == VarInt(r.unpadded) + (VarInt(r.unpacked) + more);
      VarIntRead(r.unpadded, VarInt(r.unpacked) + more);
      VarIntRead(r.unpacked, more);
      RecordsRead(records[1..], rest);
      assert records == [r] + records[1..];
    }
  }

  lemma IndexRead(records: seq<Record>, crc: Checksum, rest: seq<byte>)
    requires RecordsOk(records) && crc(IndexBody(records)) < WORD
    ensures ReadIndex(IndexBytes(records, crc) + rest, crc) == Read(records, rest)
  {
    hide VarInt, ReadVarInt, ReadRecords, RecordsBytes, FromLe32, Le32, Zeros, Take;
    var count, all := VarInt(|records|), RecordsBytes(records);
    var front := [0] + count + all;
    var zeros := Zeros(PadSize(|front|));
    var body := IndexBody(records);
    var sum := Le32(crc(body));
    var s := IndexBytes(records, crc) + rest;
    assert s[0] == 0 && s[1..] == count + (all + (zeros + (sum + rest)));
    VarIntRead(|records|, all + (zeros + (sum + rest)));
    RecordsRead(records, zeros + (sum + rest));
    assert |s| - |zeros + (sum + rest)| == |front|;
    TakeJoin(zeros, sum + rest);
    TakeJoin(sum, rest);
    assert s[..|s| - |sum + rest|] == body;
    Le32Read(crc(body));
  }

  lemma FooterRead(size: nat, flags: seq<byte>, crc: Checksum)
    requires |flags| == 2 && size % 4 == 0 && crc(FooterFields(size, flags)) < WORD
    ensures ReadFooter(FooterBytes(size, flags, crc), crc) == Some(Footer(size + 4, flags)) <==> size / 4 < WORD && FlagsOk(flags)
  {
    hide FromLe32, Le32;
    var fields := FooterFields(size, flags);
    var s := FooterBytes(size, flags, crc);
    assert s[..4] == Le32(crc(fields)) && s[4..10] == fields && s[10..12] == [0x59, 0x5A];
    assert s[4..8] == fields[..4] == Le32(size / 4) && s[8..10] == flags;
    Le32Read(crc(fields));
    Le32Read(size / 4);
  }

  // ---------- Blocks and their sizes ----------

  /** A block: its header, the bytes of the LZMA2 encoder, the check, and the size of the data it stands for. */
  datatype Block = Block(header: seq<byte>, packed: seq<byte>, check: seq<byte>, unpacked: nat)

  function BlockBytes(b: Block): seq<byte> {
    b.header + b.packed + Zeros(PadSize(|b.packed|)) + b.check
  }

  /** The padding is not counted. */
  function RecordOf(b: Block): Record { Record(|b.header| + |b.packed| + |b.check|, b.unpacked) }

  function BlocksBytes(blocks: seq<Block>): seq<byte> {
    if blocks == [] then [] else BlockBytes(blocks[0]) + BlocksBytes(blocks[1..])
  }

  function RecordsOf(blocks: seq<Block>): (r: seq<Record>)
    ensures |r| == |blocks|
  {
    if blocks == [] then [] else [RecordOf(blocks[0])] + RecordsOf(blocks[1..])
  }

  function Pieces(blocks: seq<Block>): (r: seq<seq<byte>>)
    ensures |r| == |blocks|
  {
    if blocks == [] then [] else [BlockBytes(blocks[0])] + Pieces(blocks[1..])
  }

  predicate Framed(b: Block) { |b.header| % 4 == 0 && |b.header| >= 8 && |b.check| % 4 == 0 }

  /** A block takes as many bytes as its unpadded size, filled up to a multiple of four. */
  lemma BlockSize(b: Block)
    requires Framed(b)
    ensures |BlockBytes(b)| == Padded(RecordOf(b).unpadded) && RecordOf(b).unpadded >= 8
  {
  }

  lemma {:induction false} BlocksCut(blocks: seq<Block>)
    requires forall i :: 0 <= i < |blocks| ==> Framed(blocks[i])
    ensures |BlocksBytes(blocks)| == Total(RecordsOf(blocks))
    ensures Cut(BlocksBytes(blocks), RecordsOf(blocks)) == Pieces(blocks)
    decreases |blocks|
  {
    hide Padded, BlockBytes, RecordOf, Framed;
    if blocks != [] {
      BlockSize(blocks[0]);
      BlocksCut(blocks[1..]);
      var s, first, rest := BlocksBytes(blocks), BlockBytes(blocks[0]), BlocksBytes(blocks[1..]);
      assert RecordsOf(blocks)[1..] == RecordsOf(blocks[1..]);
      assert s[..|first|] == first && s[|first|..] == rest;
    }
  }

  /** The whole stream. */
  function StreamBytes(blocks: seq<Block>, flags: seq<byte>, crc: Checksum): seq<byte>
    requires |flags| == 2
  {
    var records := RecordsOf(blocks);
    HeaderBytes(flags, crc) + BlocksBytes(blocks) + IndexBytes(records, crc) + FooterBytes(|IndexBody(records)|, flags, crc)
  }

  ghost predicate StreamOk(blocks: seq<Block>, crc: Checksum) {
    && (forall i :: 0 <= i < |blocks| ==> Framed(blocks[i])) && RecordsOk(RecordsOf(blocks))
    && Checks(crc) && |IndexBody(RecordsOf(blocks))| / 4 < WORD
  }

  lemma HeaderRead(flags: seq<byte>, crc: Checksum, rest: seq<byte>)
    requires |flags| == 2 && Checks(crc)
    ensures ReadStreamHeader(HeaderBytes(flags, crc) + rest, crc) == if FlagsOk(flags) then Read(flags, rest) else Bad
  {
    hide FromLe32, Le32;
    var s := HeaderBytes(flags, crc) + rest;
    assert s[..6] == MAGIC && s[6..8] == flags && s[8..12] == Le32(crc(flags)) && s[12..] == rest;
    Le32Read(crc(flags));
  }

  /**
   Read from its end, the stream gives back the flags, the sizes of all blocks, and the blocks
   themselves, and nothing is left over between the header and the index.
   */
  lemma StreamRead(blocks: seq<Block>, flags: seq<byte>, crc: Checksum)
    requires FlagsOk(flags) && StreamOk(blocks, crc)
    ensures ReadStream(StreamBytes(blocks, flags, crc), crc) == Some(Stream(flags, RecordsOf(blocks), Pieces(blocks)))
  {
    hide HeaderBytes, BlocksBytes, IndexBytes, FooterBytes, ReadStreamHeader, ReadFooter, ReadIndex, Cut, Total,
      IndexBody, RecordsOk, RecordsOf, Framed;
    var records := RecordsOf(blocks);
    var body := BlocksBytes(blocks);
    var index := IndexBytes(records, crc);
    var size := |IndexBody(records)|;
    var footer := FooterBytes(size, flags, crc);
    var s := StreamBytes(blocks, flags, crc);
    IndexSize(records, crc);
    var n := |s| - 12;
    var i := 12 + |body|;
    assert s == HeaderBytes(flags, crc) + (body + index + footer);
    HeaderRead(flags, crc, body + index + footer);
    assert s[n..] == footer && s[i..n] == index && s[12..i] == body;
    FooterRead(size, flags, crc);
    assert index + [] == index;
    IndexRead(records, crc, []);
    BlocksCut(blocks);
  }

  lemma IndexSize(records: seq<Record>, crc: Checksum)
    ensures |IndexBytes(records, crc)| == |IndexBody(records)| + 4 && |IndexBody(records)| % 4 == 0
  {
  }

  // ---------- The writers ----------

  /** Xz_WriteVarInt: every byte gets its top bit, which the last one then loses. */
  method WriteVarInt(buf: array<byte>, at: nat, v: nat) returns (n: nat)
    requires at + |VarInt(v)| <= buf.Length
    modifies buf
    ensures n == |VarInt(v)| && at + n <= buf.Length && buf[at..at + n] == VarInt(v)
    ensures buf[..at] == old(buf[..at]) && buf[at + n..] == old(buf[at + n..])
  {
    ghost var last: nat := v;
    buf[at] := 0x80 + v % 0x80;
    n := 1;
    var w := v / 0x80;
    while w != 0
      invariant n >= 1 && at + n - 1 + |VarInt(last)| <= buf.Length && w == last / 0x80
      invariant VarInt(v) == buf[at..at + n - 1] + VarInt(last) && buf[at + n - 1] == 0x80 + last % 0x80
      invariant buf[..at] == old(buf[..at]) && buf[at + n..] == old(buf[at + n..])
      decreases w
    {
      ghost var done := buf[at..at + n];
      assert done == buf[at..at + n - 1] + [buf[at + n - 1]];
      assert VarInt(last) == [0x80 + last % 0x80] + VarInt(w);
      buf[at + n] := 0x80 + w % 0x80;
      last := w;
      assert buf[at..at + n] == done;
      n := n + 1;
      w := w / 0x80;
    }
    ghost var done := buf[at..at + n - 1];
    buf[at + n - 1] := buf[at + n - 1] - 0x80;
    assert buf[at..at + n] == done + [buf[at + n - 1]];
  }

  lemma RecordShort(r: Record)
    requires r.unpadded < 0x1_0000_0000_0000_0000 && r.unpacked < 0x1_0000_0000_0000_0000
    ensures |VarInt(r.unpadded)| <= 10 && |VarInt(r.unpacked)| <= 10
  {
    NineBytes();
    assert Pow128(10) == 0x80 * Pow128(VARINT_MAX);
    VarIntLength(r.unpadded, 10);
    VarIntLength(r.unpacked, 10);
  }

  lemma {:induction false} RecordsMore(records: seq<Record>, r: Record)
    ensures RecordsBytes(records + [r]) == RecordsBytes(records) + RecordBytes(r)
  {
    hide RecordBytes;
    if records == [] {
      assert [] + [r] == [r];
    } else {
      assert (records + [r])[1..] == records[1..] + [r];
      RecordsMore(records[1..], r);
    }
  }

  method WriteRecord(unpackSize: nat, totalSize: nat) returns (buf: array<byte>, pos: nat)
    requires unpackSize < 0x1_0000_0000_0000_0000 && totalSize < 0x1_0000_0000_0000_0000
    ensures fresh(buf) && pos <= 20 < buf.Length && buf[..pos] == RecordBytes(Record(totalSize, unpackSize))
  {
    hide VarInt;
    RecordShort(Record(totalSize, unpackSize));
    buf := new byte[32];
    pos := WriteVarInt(buf, 0, totalSize);
    ghost var first := buf[..pos];
    assert buf[0..pos] == first;
    var more := WriteVarInt(buf, pos, unpackSize);
    assert buf[..pos + more] == first + buf[pos..pos + more];
    pos := pos + more;
  }

  class XzEncIndex {
    var blocks: array<byte>
    var size: nat
    var numBlocks: nat
    ghost var records: seq<Record>

    constructor ()
      ensures Valid() && records == [] && fresh(blocks)
    {
      blocks := new byte[0];
      size := 0;
      numBlocks := 0;
      records := [];
    }

    ghost predicate Valid()
      reads this, blocks
    {
      size <= blocks.Length && blocks[..size] == RecordsBytes(records) && numBlocks == |records|
    }

    /** XzEncIndex_ReAlloc */
    method ReAlloc(newSize: nat)
      requires Valid() && size <= newSize
      modifies this`blocks
      ensures Valid() && fresh(blocks) && blocks.Length == newSize
    {
      var nb := new byte[newSize];
      forall i | 0 <= i < size {
        nb[i] := blocks[i];
      }
      assert nb[..size] == blocks[..size];
      blocks := nb;
    }

    /** XzEncIndex_AddIndexRecord; the new size is always enough. */
    method AddIndexRecord(unpackSize: nat, totalSize: nat)
      requires Valid() && unpackSize < 0x1_0000_0000_0000_0000 && totalSize < 0x1_0000_0000_0000_0000
      modifies this, blocks
      ensures Valid() && records == old(records) + [Record(totalSize, unpackSize)]
      ensures blocks == old(blocks) || fresh(blocks)
    {
      hide RecordBytes, RecordsBytes, VarInt;
      var buf, pos := WriteRecord(unpackSize, totalSize);
      if pos > blocks.Length - size {
        ReAlloc(blocks.Length * 2 + 16 * 2);
      }
      Append(buf, pos);
      RecordsMore(records, Record(totalSize, unpackSize));
      records := records + [Record(totalSize, unpackSize)];
      numBlocks := numBlocks + 1;
    }

    method Append(buf: array<byte>, pos: nat)
      requires pos <= buf.Length && size + pos <= blocks.Length && buf != blocks
      modifies this`size, blocks
      ensures size == old(size) + pos && blocks[..size] == old(blocks[..size]) + buf[..pos]
    {
      forall i | 0 <= i < pos {
        blocks[size + i] := buf[i];
      }
      size := size + pos;
    }

    /** XzEncIndex_WriteFooter: the index, and the footer behind it. */
    method WriteFooter(flags: seq<byte>, crc: Checksum) returns (out: seq<byte>)
      requires Valid() && |flags| == 2 && numBlocks < 0x1_0000_0000_0000_0000
      ensures out == IndexBytes(records, crc) + FooterBytes(|IndexBody(records)|, flags, crc)
    {
      RecordShort(Record(numBlocks, 0));
      var buf := new byte[32];
      var pos := WriteVarInt(buf, 1, numBlocks);
      out := [0] + buf[1..1 + pos] + blocks[..size];
      var globalPos := 1 + pos + size;
      out := out + Zeros(PadSize(globalPos));
      globalPos := globalPos + PadSize(globalPos);
      assert out == IndexBody(records);
      out := out + Le32(crc(out));
      var fields := Le32(globalPos / 4) + flags;
      assert fields == FooterFields(|IndexBody(records)|, flags);
      out := out + (Le32(crc(fields)) + fields + [0x59, 0x5A]);
    }
  }

  /** What Xz_CompressBlock reports. */
  datatype BlockInfo = BlockInfo(unpackSize: nat, totalSize: nat, headerSize: nat)

  /** The input of one block: the bytes that the LZMA2 encoder makes of it, its check, and its size. */
  datatype Chunk = Chunk(packed: seq<byte>, check: seq<byte>, unpacked: nat)

  /** The block of a chunk, with the sizes in its header or not. */
  function BlockOf(c: Chunk, filters: seq<Filter>, sizes: bool, crc: Checksum): Block
    requires HeaderOk(HeaderOf(c, filters, sizes))
  {
    Block(BlockHeaderBytes(HeaderOf(c, filters, sizes), crc), c.packed, c.check, c.unpacked)
  }

  function HeaderOf(c: Chunk, filters: seq<Filter>, sizes: bool): BlockHeader {
    if sizes then BlockHeader(Some(|c.packed|), Some(c.unpacked), filters) else BlockHeader(None, None, filters)
  }

  /** Xz_CompressBlock: written at once, or with the sizes in the header, which is then written last. */
  method CompressBlock(c: Chunk, filters: seq<Filter>, sizes: bool, crc: Checksum)
      returns (header: seq<byte>, data: seq<byte>, info: BlockInfo)
    requires HeaderOk(HeaderOf(c, filters, sizes)) && |c.check| % 4 == 0
    ensures var b := BlockOf(c, filters, sizes, crc);
            && Framed(b) && header + data == BlockBytes(b)
            && info == BlockInfo(b.unpacked, RecordOf(b).unpadded, |b.header|)
            && |data| == Padded(info.totalSize) - info.headerSize
  {
    hide BlockHeaderBytes, Padded;
    var processed: nat := 0;
    header, data := [], [];
    var headerSize: nat := 0;
    if !sizes {
      header := BlockHeaderBytes(HeaderOf(c, filters, false), crc);
      processed := |header|;
      headerSize := |header|;
    }
    data := c.packed;
    processed := processed + |c.packed|;
    var padSize := PadSize(processed);
    var packSize := processed;
    data := data + Zeros(padSize) + c.check;
    processed := processed + padSize + |c.check|;
    var totalSize := processed - padSize;
    if sizes {
      header := BlockHeaderBytes(BlockHeader(Some(packSize), Some(c.unpacked), filters), crc);
      headerSize := |header|;
      totalSize := totalSize + |header|;
    }
    info := BlockInfo(c.unpacked, totalSize, headerSize);
    BlockSize(BlockOf(c, filters, sizes, crc));
  }

  /** XzFlags_GetCheckType */
  function Kind(flags: seq<byte>): (k: nat)
    requires |flags| == 2
    ensures k < 16
  {
    flags[1] % 0x10
  }

  /** The check has the size of its kind. */
  ghost predicate ChunkOk(c: Chunk, filters: seq<Filter>, sizes: bool, kind: nat, crc: Checksum) {
    && HeaderOk(HeaderOf(c, filters, sizes)) && kind < 16 && |c.check| == CheckSize(kind)
    && RecordOf(BlockOf(c, filters, sizes, crc)).unpadded < 0x8000_0000_0000_0000 && c.unpacked < 0x8000_0000_0000_0000
  }

  ghost predicate ChunksOk(chunks: seq<Chunk>, filters: seq<Filter>, sizes: bool, kind: nat, crc: Checksum) {
    |chunks| < 0x8000_0000_0000_0000 && forall i :: 0 <= i < |chunks| ==> ChunkOk(chunks[i], filters, sizes, kind, crc)
  }

  /** The blocks of the first n chunks. */
  ghost function BlocksOf(chunks: seq<Chunk>, filters: seq<Filter>, sizes: bool, kind: nat, crc: Checksum): (r: seq<Block>)
    requires ChunksOk(chunks, filters, sizes, kind, crc)
    ensures |r| == |chunks|
  {
    seq(|chunks|, i requires 0 <= i < |chunks| => assert ChunkOk(chunks[i], filters, sizes, kind, crc); BlockOf(chunks[i], filters, sizes, crc))
  }

  lemma {:induction false} BlocksMore(blocks: seq<Block>, b: Block)
    ensures BlocksBytes(blocks + [b]) == BlocksBytes(blocks) + BlockBytes(b)
    ensures RecordsOf(blocks + [b]) == RecordsOf(blocks) + [RecordOf(b)]
  {
    hide BlockBytes, RecordOf;
    if blocks == [] {
      assert [] + [b] == [b];
    } else {
      assert (blocks + [b])[1..] == blocks[1..] + [b];
      BlocksMore(blocks[1..], b);
    }
  }

  /** XzEnc_Encode, one block after the other. */
  method Encode(chunks: seq<Chunk>, filters: seq<Filter>, sizes: bool, flags: seq<byte>, crc: Checksum) returns (out: seq<byte>)
    requires |flags| == 2 && ChunksOk(chunks, filters, sizes, Kind(flags), crc)
    ensures out == StreamBytes(BlocksOf(chunks, filters, sizes, Kind(flags), crc), flags, crc)
  {
    hide BlockBytes, RecordOf, BlockOf, HeaderBytes, IndexBytes, FooterBytes, IndexBody, HeaderOk, HeaderOf, Padded,
      Framed, Kind, ChunkOk;
    ghost var kind := Kind(flags);
    var index := new XzEncIndex();
    ghost var all := BlocksOf(chunks, filters, sizes, kind, crc);
    out := HeaderBytes(flags, crc);
    assert all[..0] == [];
    for i := 0 to |chunks|
      invariant index.Valid() && index.records == RecordsOf(all[..i]) && fresh(index) && fresh(index.blocks)
      invariant out == HeaderBytes(flags, crc) + BlocksBytes(all[..i])
    {
      assert ChunkOk(chunks[i], filters, sizes, kind, crc);
      ChunkBounds(chunks[i], filters, sizes, kind, crc);
      var header, data, info := CompressBlock(chunks[i], filters, sizes, crc);
      out := out + (header + data);
      index.AddIndexRecord(info.unpackSize, info.totalSize);
      BlocksMore(all[..i], all[i]);
      RecordIs(all[i], info.totalSize, info.unpackSize);
      assert all[..i + 1] == all[..i] + [all[i]];
    }
    assert all[..|chunks|] == all;
    var end := index.WriteFooter(flags, crc);
    StreamIs(all, flags, crc);
    out := out + end;
  }

  lemma ChunkBounds(c: Chunk, filters: seq<Filter>, sizes: bool, kind: nat, crc: Checksum)
    requires ChunkOk(c, filters, sizes, kind, crc)
    ensures HeaderOk(HeaderOf(c, filters, sizes)) && |c.check| % 4 == 0
    ensures RecordOf(BlockOf(c, filters, sizes, crc)).unpadded < 0x8000_0000_0000_0000
    ensures BlockOf(c, filters, sizes, crc).unpacked < 0x8000_0000_0000_0000
  {
  }

  lemma RecordIs(b: Block, unpadded: nat, unpacked: nat)
    requires unpadded == RecordOf(b).unpadded && unpacked == b.unpacked
    ensures RecordOf(b) == Record(unpadded, unpacked)
  {
  }

  lemma StreamIs(blocks: seq<Block>, flags: seq<byte>, crc: Checksum)
    requires |flags| == 2
    ensures var records := RecordsOf(blocks);
            StreamBytes(blocks, flags, crc) ==
            HeaderBytes(flags, crc) + BlocksBytes(blocks) +
            (IndexBytes(records, crc) + FooterBytes(|IndexBody(records)|, flags, crc))
  {
    hide HeaderBytes, BlocksBytes, IndexBytes, FooterBytes, IndexBody;
  }

  lemma {:induction false} RecordsAt(blocks: seq<Block>, i: nat)
    requires i < |blocks|
    ensures RecordsOf(blocks)[i] == RecordOf(blocks[i]) && Pieces(blocks)[i] == BlockBytes(blocks[i])
  {
    hide RecordOf, BlockBytes;
    if i > 0 {
      RecordsAt(blocks[1..], i - 1);
    }
  }

  lemma ChunkFramed(c: Chunk, filters: seq<Filter>, sizes: bool, kind: nat, crc: Checksum)
    requires ChunkOk(c, filters, sizes, kind, crc)
    ensures Framed(BlockOf(c, filters, sizes, crc))
  {
    hide BlockHeaderBytes;
  }

  /** What is behind the header of a block, and what its record says. */
  lemma BlockReads(c: Chunk, filters: seq<Filter>, sizes: bool, kind: nat, crc: Checksum)
    requires ChunkOk(c, filters, sizes, kind, crc) && Checks(crc) && (sizes ==> c.packed != [])
    ensures var b := BlockOf(c, filters, sizes, crc);
            && ReadBlockHeader(BlockBytes(b), crc) == Read(HeaderOf(c, filters, sizes), c.packed + Zeros(PadSize(|c.packed|)) + c.check)
            && RecordOf(b) == Record(|BlockBytes(b)| - PadSize(|c.packed|), c.unpacked) && |c.check| == CHECK_LENGTHS[kind]
  {
    hide BlockHeaderBytes, HeaderOk, HeaderBody;
    var b := BlockOf(c, filters, sizes, crc);
    var rest := c.packed + Zeros(PadSize(|c.packed|)) + c.check;
    BlockHeaderRead(HeaderOf(c, filters, sizes), crc, rest);
    CheckSizes(kind);
    assert BlockBytes(b) == b.header + rest;
  }

  lemma HeaderSizes(c: Chunk, filters: seq<Filter>, sizes: bool)
    ensures var h := HeaderOf(c, filters, sizes);
            (h.packSize.Some? ==> h.packSize.value == |c.packed|) && (h.unpackSize.Some? ==> h.unpackSize.value == c.unpacked)
  {
  }

  /** With its record, a block gives back its header, its packed bytes and its check. */
  lemma BlockRead(c: Chunk, filters: seq<Filter>, sizes: bool, kind: nat, crc: Checksum)
    requires ChunkOk(c, filters, sizes, kind, crc) && Checks(crc) && (sizes ==> c.packed != [])
    ensures var b := BlockOf(c, filters, sizes, crc);
            ReadBlock(BlockBytes(b), RecordOf(b), kind, crc) == Some(BlockParts(HeaderOf(c, filters, sizes), c.packed, c.check))
  {
    hide BlockBytes, BlockOf, HeaderOf, RecordOf, ReadBlockHeader, Zeros;
    BlockReads(c, filters, sizes, kind, crc);
    HeaderSizes(c, filters, sizes);
    var n := |c.packed|;
    var pad := PadSize(n);
    var rest := c.packed + Zeros(pad) + c.check;
    assert rest[..n] == c.packed && rest[n..n + pad] == Zeros(pad) && rest[n + pad..] == c.check;
  }

  /**
   What XzEnc_Encode writes is read back: for every chunk its unpacked size, and by its record,
   the header of its block and the kind of check its packed bytes and its check.  The LZMA2
   encoder never leaves a block without bytes, because it ends it with its end mark.
   */
  lemma EncodedRead(chunks: seq<Chunk>, filters: seq<Filter>, sizes: bool, flags: seq<byte>, crc: Checksum)
    requires FlagsOk(flags) && ChunksOk(chunks, filters, sizes, Kind(flags), crc) && Checks(crc)
    requires sizes ==> forall i :: 0 <= i < |chunks| ==> chunks[i].packed != []
    requires |IndexBody(RecordsOf(BlocksOf(chunks, filters, sizes, Kind(flags), crc)))| / 4 < WORD
    ensures var r := ReadStream(StreamBytes(BlocksOf(chunks, filters, sizes, Kind(flags), crc), flags, crc), crc);
            && r.Some? && r.value.flags == flags && |r.value.records| == |r.value.blocks| == |chunks|
            && forall i :: 0 <= i < |chunks| ==> ChunkRead(r.value, i, chunks[i], filters, sizes, crc)
  {
    hide IndexBody, BlockOf, StreamBytes, ReadStream, ChunkOk, ChunkRead;
    var kind := Kind(flags);
    var blocks := BlocksOf(chunks, filters, sizes, kind, crc);
    forall i | 0 <= i < |blocks|
      ensures Framed(blocks[i])
    {
      assert ChunkOk(chunks[i], filters, sizes, kind, crc);
      ChunkFramed(chunks[i], filters, sizes, kind, crc);
    }
    BlocksRecorded(chunks, filters, sizes, kind, crc);
    StreamRead(blocks, flags, crc);
    var stream := Stream(flags, RecordsOf(blocks), Pieces(blocks));
    forall i | 0 <= i < |chunks|
      ensures ChunkRead(stream, i, chunks[i], filters, sizes, crc)
    {
      assert ChunkOk(chunks[i], filters, sizes, kind, crc);
      RecordsAt(blocks, i);
      ChunkReads(stream, i, chunks[i], filters, sizes, kind, crc);
    }
  }

  /** Block i of the stream stands for the chunk. */
  ghost predicate ChunkRead(stream: Stream, i: nat, c: Chunk, filters: seq<Filter>, sizes: bool, crc: Checksum) {
    && i < |stream.records| && i < |stream.blocks| && FlagsOk(stream.flags) && stream.records[i].unpacked == c.unpacked
    && ReadBlock(stream.blocks[i], stream.records[i], stream.flags[1], crc) ==
       Some(BlockParts(HeaderOf(c, filters, sizes), c.packed, c.check))
  }

  lemma ChunkReads(stream: Stream, i: nat, c: Chunk, filters: seq<Filter>, sizes: bool, kind: nat, crc: Checksum)
    requires ChunkOk(c, filters, sizes, kind, crc) && Checks(crc) && i < |stream.records| && i < |stream.blocks|
    requires FlagsOk(stream.flags) && kind == stream.flags[1] && (sizes ==> c.packed != [])
    requires stream.records[i] == RecordOf(BlockOf(c, filters, sizes, crc))
    requires stream.blocks[i] == BlockBytes(BlockOf(c, filters, sizes, crc))
    ensures ChunkRead(stream, i, c, filters, sizes, crc)
  {
    BlockRead(c, filters, sizes, kind, crc);
    hide ReadBlock, BlockBytes, HeaderOf, ChunkOk, BlockHeaderBytes;
  }

  lemma BlocksRecorded(chunks: seq<Chunk>, filters: seq<Filter>, sizes: bool, kind: nat, crc: Checksum)
    requires ChunksOk(chunks, filters, sizes, kind, crc)
    ensures RecordsOk(RecordsOf(BlocksOf(chunks, filters, sizes, kind, crc)))
  {
    hide BlockOf, ChunkOk, RecordOf, Framed;
    var blocks := BlocksOf(chunks, filters, sizes, kind, crc);
    forall i | 0 <= i < |blocks|
      ensures UNPADDED_MIN <= RecordsOf(blocks)[i].unpadded < 0x8000_0000_0000_0000 && RecordsOf(blocks)[i].unpacked < 0x8000_0000_0000_0000
    {
      assert ChunkOk(chunks[i], filters, sizes, kind, crc);
      RecordsAt(blocks, i);
      ChunkBounds(chunks[i], filters, sizes, kind, crc);
      ChunkFramed(chunks[i], filters, sizes, kind, crc);
      BlockSize(blocks[i]);
      RecordIs(blocks[i], RecordOf(blocks[i]).unpadded, blocks[i].unpacked);
    }
  }
}
