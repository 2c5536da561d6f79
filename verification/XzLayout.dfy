/** Where the bytes of an .xz stream are, in the numbers of The .xz File Format. */
module XzLayout {
  import opened Bytes
  import opened Wrappers
  import opened XzFormat
  import opened XzEnc

  // ---------- Numbers, sections 1.1 and 1.2 ----------

  /** The seven low bits of each byte, the first byte counting for the least. */
  function SevenBits(s: seq<byte>): (v: nat) {
    if s == [] then 0 else
      var low: int := s[0];
      low % 0x80 + 0x80 * SevenBits(s[1..])
  }

  /** The bytes are seven bits each, all but the last one marked, and the last one not 0 unless it is alone. */
  lemma {:induction false} VarIntDigits(v: nat)
    ensures SevenBits(VarInt(v)) == v
    ensures forall i :: 0 <= i < |VarInt(v)| - 1 ==> VarInt(v)[i] >= 0x80
    ensures VarInt(v)[|VarInt(v)| - 1] < 0x80 && (|VarInt(v)| > 1 ==> VarInt(v)[|VarInt(v)| - 1] > 0)
    decreases v
  {
    if v < 0x80 {
      assert [v][1..] == [];
    } else {
      var rest := VarInt(v / 0x80);
      VarIntDigits(v / 0x80);
      assert VarInt(v) == [0x80 + v % 0x80] + rest;
      assert ([0x80 + v % 0x80] + rest)[1..] == rest;
    }
  }

  /** The bytes of a 32-bit number, the first one counting for the least. */
  predicate LittleEndian(s: seq<byte>, v: nat) {
    |s| == 4 &&
    (var a: int, b: int, c: int, d: int := s[0], s[1], s[2], s[3];
     a + 0x100 * b + 0x1_0000 * c + 0x100_0000 * d == v % 0x1_0000_0000)
  }

  lemma Le32Is(v: nat)
    ensures LittleEndian(Le32(v), v)
  {
    Le32Read(v);
  }

  // ---------- The stream header and the footer, section 2.1 ----------

  lemma HeaderLayout(flags: seq<byte>, crc: Checksum)
    requires |flags| == 2
    ensures var h := HeaderBytes(flags, crc);
            && |h| == 12 && h[..6] == [0xFD, 0x37, 0x7A, 0x58, 0x5A, 0x00] && h[6..8] == flags
            && LittleEndian(h[8..12], crc(h[6..8]))
  {
    hide LittleEndian, Le32;
    Le32Is(crc(flags));
    var h := HeaderBytes(flags, crc);
    assert h[6..8] == flags && h[8..12] == Le32(crc(flags));
  }

  /** The backward size counts the whole index with its CRC32. */
  lemma FooterLayout(records: seq<Record>, flags: seq<byte>, crc: Checksum)
    requires |flags| == 2
    ensures var f := FooterBytes(|IndexBody(records)|, flags, crc);
            && |f| == 12 && LittleEndian(f[..4], crc(f[4..10])) && LittleEndian(f[4..8], |IndexBytes(records, crc)| / 4 - 1)
            && f[8..10] == flags && f[10..] == [0x59, 0x5A]
  {
    hide LittleEndian, Le32;
    var n := |IndexBody(records)|;
    var f := FooterBytes(n, flags, crc);
    var fields := FooterFields(n, flags);
    Le32Is(crc(fields));
    Le32Is(n / 4);
    assert f[..4] == Le32(crc(fields)) && f[4..10] == fields && f[4..8] == Le32(n / 4);
    assert f[8..10] == flags && f[10..] == [0x59, 0x5A];
  }

  // ---------- Blocks and index, sections 3 and 4 ----------

  /** A block of one LZMA2 filter without sizes: eight bytes and the CRC32. */
  lemma Lzma2Header(dictSize: byte, crc: Checksum)
    ensures var b := BlockHeaderBytes(BlockHeader(None, None, [Filter(0x21, [dictSize])]), crc);
            && |b| == 12 && b[..8] == [2, 0x00, 0x21, 1, dictSize, 0, 0, 0] && LittleEndian(b[8..], crc(b[..8]))
  {
    hide LittleEndian, Le32;
    var h := BlockHeader(None, None, [Filter(0x21, [dictSize])]);
    OneFilter(Filter(0x21, [dictSize]));
    var body := HeaderBody(h);
    Le32Is(crc(body));
    assert body == [2, 0x00, 0x21, 1, dictSize, 0, 0, 0];
    var b := BlockHeaderBytes(h, crc);
    assert b[..8] == body && b[8..] == Le32(crc(body));
  }

  lemma OneFilter(f: Filter)
    requires f.id < 0x80 && |f.props| < 0x80
    ensures FiltersBytes([f]) == [f.id, |f.props|] + f.props
  {
    assert [f][1..] == [];
  }

  /** With both sizes, here of one byte each: first the packed one, then the unpacked one. */
  lemma SizedHeader(packed: byte, unpacked: byte, dictSize: byte, crc: Checksum)
    requires packed < 0x80 && unpacked < 0x80
    ensures var b := BlockHeaderBytes(BlockHeader(Some(packed), Some(unpacked), [Filter(0x21, [dictSize])]), crc);
            && |b| == 12 && b[..8] == [2, 0xC0, packed, unpacked, 0x21, 1, dictSize, 0] && LittleEndian(b[8..], crc(b[..8]))
  {
    hide LittleEndian, Le32;
    var h := BlockHeader(Some(packed), Some(unpacked), [Filter(0x21, [dictSize])]);
    OneFilter(Filter(0x21, [dictSize]));
    var body := HeaderBody(h);
    Le32Is(crc(body));
    assert body == [2, 0xC0, packed, unpacked, 0x21, 1, dictSize, 0];
    var b := BlockHeaderBytes(h, crc);
    assert b[..8] == body && b[8..] == Le32(crc(body));
  }

  /** The index: a zero byte, the number of records, the records, zero bytes, and the CRC32 of all of it. */
  lemma IndexLayout(records: seq<Record>, crc: Checksum)
    ensures var s := IndexBytes(records, crc);
            var front := [0] + VarInt(|records|) + RecordsBytes(records);
            && |s| % 4 == 0 && |front| <= |s| - 4 < |front| + 4 && s[..|front|] == front
            && (forall i :: |front| <= i < |s| - 4 ==> s[i] == 0)
            && LittleEndian(s[|s| - 4..], crc(s[..|s| - 4]))
  {
    hide LittleEndian, Le32;
    var front := [0] + VarInt(|records|) + RecordsBytes(records);
    var body := IndexBody(records);
    Le32Is(crc(body));
    var s := IndexBytes(records, crc);
    assert body == front + Zeros(PadSize(|front|));
    assert s[|s| - 4..] == Le32(crc(body)) && s[..|s| - 4] == body;
  }

  /** Each record: the unpadded size, then the uncompressed size. */
  lemma RecordLayout(b: Block, more: seq<Block>)
    ensures RecordsBytes(RecordsOf([b] + more)) ==
            VarInt(|b.header| + |b.packed| + |b.check|) + VarInt(b.unpacked) + RecordsBytes(RecordsOf(more))
  {
    var r := RecordsOf([b] + more);
    assert ([b] + more)[1..] == more && r == [RecordOf(b)] + RecordsOf(more);
    assert r[1..] == RecordsOf(more);
  }

  /** The order of a stream, and that of a block. */
  lemma StreamLayout(b: Block, more: seq<Block>, flags: seq<byte>, crc: Checksum)
    requires |flags| == 2
    ensures var blocks := [b] + more;
            StreamBytes(blocks, flags, crc) ==
              HeaderBytes(flags, crc) + (b.header + b.packed + Zeros(PadSize(|b.packed|)) + b.check + BlocksBytes(more)) +
              IndexBytes(RecordsOf(blocks), crc) + FooterBytes(|IndexBody(RecordsOf(blocks))|, flags, crc)
  {
    hide HeaderBytes, IndexBytes, FooterBytes, IndexBody, RecordsOf;
    assert ([b] + more)[1..] == more;
  }
}
