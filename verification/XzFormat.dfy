/** Reading an .xz stream, after The .xz File Format. */
module XzFormat {
  import opened Bytes
  import opened Wrappers

  /** What is read at the front of some bytes, and the bytes behind it. */
  datatype Read<T> = Bad | Read(value: T, rest: seq<byte>)

  function Zeros(n: nat): (s: seq<byte>)
    ensures |s| == n
  {
    seq(n, _ => 0)
  }

  /** The bytes that fill up to a multiple of four. */
  function PadSize(n: nat): (p: nat)
    ensures p < 4 && (n + p) % 4 == 0
  {
    (4 - n % 4) % 4
  }

  function Least(a: nat, b: nat): nat { if a < b then a else b }

  /** The first n bytes. */
  function Take(s: seq<byte>, n: nat): (r: Read<seq<byte>>)
    ensures r.Read? <==> n <= |s|
    ensures r.Read? ==> r.value + r.rest == s && |r.value| == n
  {
    if n <= |s| then Read(s[..n], s[n..]) else Bad
  }

  lemma TakeJoin(a: seq<byte>, b: seq<byte>)
    ensures Take(a + b, |a|) == Read(a, b)
  {
  }

  // ---------- Multibyte integers, section 1.2 ----------

  /** At most max bytes; no last byte but the first is zero. */
  function ReadVarInt(s: seq<byte>, max: nat, first: bool): Read<nat> {
    if s == [] || max == 0 then Bad
    else if s[0] < 0x80 then (if s[0] == 0 && !first then Bad else Read(s[0], s[1..]))
    else
      match ReadVarInt(s[1..], max - 1, false)
      case Bad => Bad
      case Read(v, rest) => Read(s[0] - 0x80 + 0x80 * v, rest)
  }

  /** Nine bytes hold 63 bits. */
  const VARINT_MAX: nat := 9

  function Pow128(n: nat): (p: nat)
    ensures p >= 1
  {
    if n == 0 then 1 else 0x80 * Pow128(n - 1)
  }

  lemma NineBytes()
    ensures Pow128(VARINT_MAX) == 0x8000_0000_0000_0000
  {
    assert Pow128(3) == 0x20_0000;
    assert Pow128(6) == 0x80 * (0x80 * (0x80 * Pow128(3)));
    assert Pow128(9) == 0x80 * (0x80 * (0x80 * Pow128(6)));
  }

  /** Xz_WriteVarInt */
  function VarInt(v: nat): (s: seq<byte>)
    ensures |s| >= 1
  {
    if v < 0x80 then [v] else [0x80 + v % 0x80] + VarInt(v / 0x80)
  }

  lemma {:induction false} VarIntReads(v: nat, max: nat, first: bool, rest: seq<byte>)
    requires (first || v > 0) && (max > 0 || v > 0)
    ensures ReadVarInt(VarInt(v) + rest, max, first) == if v < Pow128(max) then Read(v, rest) else Bad
    decreases v
  {
    var s := VarInt(v) + rest;
    if max == 0 {
    } else if v < 0x80 {
      assert s[1..] == rest;
    } else {
      assert s[1..] == VarInt(v / 0x80) + rest;
      VarIntReads(v / 0x80, max - 1, false, rest);
      assert v / 0x80 < Pow128(max - 1) <==> v < 0x80 * Pow128(max - 1);
    }
  }

  /** A number is read back if and only if it has no more than 63 bits. */
  lemma VarIntRead(v: nat, rest: seq<byte>)
    ensures ReadVarInt(VarInt(v) + rest, VARINT_MAX, true) == if v < 0x8000_0000_0000_0000 then Read(v, rest) else Bad
  {
    NineBytes();
    VarIntReads(v, VARINT_MAX, true, rest);
  }

  lemma {:induction false} VarIntLength(v: nat, n: nat)
    requires v < Pow128(n) && n > 0
    ensures |VarInt(v)| <= n
    decreases n
  {
    if v >= 0x80 {
      assert n > 1;
      assert v / 0x80 < Pow128(n - 1);
      VarIntLength(v / 0x80, n - 1);
    }
  }

  // ---------- Fixed-size numbers ----------

  /** SetUi32 */
  function Le32(v: nat): (s: seq<byte>)
    ensures |s| == 4
  {
    [v % 0x100, v / 0x100 % 0x100, v / 0x1_0000 % 0x100, v / 0x100_0000 % 0x100]
  }

  function FromLe32(s: seq<byte>): (v: nat)
    requires |s| == 4
  {
    var a: int, b: int, c: int, d: int := s[0], s[1], s[2], s[3];
    a + 0x100 * b + 0x1_0000 * c + 0x100_0000 * d
  }

  lemma Le32Read(v: nat)
    ensures FromLe32(Le32(v)) == v % WORD
  {
    var a, b, c := v / 0x100, v / 0x1_0000, v / 0x100_0000;
    assert b == a / 0x100 && c == b / 0x100;
    assert v == 0x100 * a + v % 0x100 && a == 0x100 * b + a % 0x100 && b == 0x100 * c + b % 0x100;
    assert c == 0x100 * (c / 0x100) + c % 0x100;
    assert v == WORD * (c / 0x100) + FromLe32(Le32(v));
  }

  // ---------- The index, section 4 ----------

  datatype Record = Record(unpadded: nat, unpacked: nat)

  /** A block header takes at least eight bytes, and no smaller size than this is allowed. */
  const UNPADDED_MIN: nat := 5

  function ReadRecords(s: seq<byte>, n: nat): Read<seq<Record>>
    decreases n
  {
    if n == 0 then Read([], s)
    else
      match ReadVarInt(s, VARINT_MAX, true)
      case Bad => Bad
      case Read(unpadded, rest) =>
        match ReadVarInt(rest, VARINT_MAX, true)
        case Bad => Bad
        case Read(unpacked, more) =>
          if unpadded < UNPADDED_MIN then Bad
          else
            match ReadRecords(more, n - 1)
            case Bad => Bad
            case Read(records, end) => Read([Record(unpadded, unpacked)] + records, end)
  }

  type Checksum = seq<byte> -> nat

  /** An index indicator, the number of records, the records, zeros up to a multiple of four, and a CRC32. */
  function ReadIndex(s: seq<byte>, crc: Checksum): Read<seq<Record>> {
    if s == [] || s[0] != 0 then Bad
    else
      match ReadVarInt(s[1..], VARINT_MAX, true)
      case Bad => Bad
      case Read(n, rest) =>
        match ReadRecords(rest, n)
        case Bad => Bad
        case Read(records, more) =>
          if |more| > |s| then Bad
          else
            var pad := PadSize(|s| - |more|);
            match Take(more, pad)
            case Bad => Bad
            case Read(zeros, end) =>
              if zeros != Zeros(pad) || |end| > |s| then Bad
              else
                match Take(end, 4)
                case Bad => Bad
                case Read(sum, after) => if FromLe32(sum) == crc(s[..|s| - |end|]) then Read(records, after) else Bad
  }

  // ---------- The block header, section 3.1 ----------

  datatype Filter = Filter(id: nat, props: seq<byte>)

  /** The sizes are there or not, as the flags say. */
  datatype BlockHeader = BlockHeader(packSize: Option<nat>, unpackSize: Option<nat>, filters: seq<Filter>)

  function ReadFilters(s: seq<byte>, n: nat): Read<seq<Filter>>
    decreases n
  {
    if n == 0 then Read([], s)
    else
      match ReadVarInt(s, VARINT_MAX, true)
      case Bad => Bad
      case Read(id, rest) =>
        match ReadVarInt(rest, VARINT_MAX, true)
        case Bad => Bad
        case Read(size, more) =>
          match Take(more, size)
          case Bad => Bad
          case Read(props, next) =>
            match ReadFilters(next, n - 1)
            case Bad => Bad
            case Read(filters, end) => Read([Filter(id, props)] + filters, end)
  }

  function ReadSize(s: seq<byte>, present: bool): Read<Option<nat>> {
    if !present then Read(None, s)
    else match ReadVarInt(s, VARINT_MAX, true) case Bad => Bad case Read(v, rest) => Read(Some(v), rest)
  }

  /** The size of the header in its first byte, the flags, the sizes, the filters, zeros, and a CRC32. */
  function ReadBlockHeader(s: seq<byte>, crc: Checksum): Read<BlockHeader> {
    if s == [] || s[0] == 0 || |s| < 4 * (s[0] as int + 1) then Bad
    else
      var size := 4 * (s[0] as int + 1);
      var body := s[..size - 4];
      if FromLe32(s[size - 4..size]) != crc(body) || body[1] % 0x40 / 4 != 0 then Bad
      else
        match ReadSize(body[2..], body[1] / 0x40 % 2 == 1)
        case Bad => Bad
        case Read(packSize, rest) =>
          if packSize == Some(0) then Bad else
          match ReadSize(rest, body[1] / 0x80 == 1)
          case Bad => Bad
          case Read(unpackSize, more) =>
            match ReadFilters(more, body[1] % 4 + 1)
            case Bad => Bad
            case Read(filters, zeros) =>
              if zeros != Zeros(|zeros|) then Bad else Read(BlockHeader(packSize, unpackSize, filters), s[size..])
  }

  // ---------- The stream flags and the footer, section 2.1 ----------

  const MAGIC: seq<byte> := [0xFD, 0x37, 0x7A, 0x58, 0x5A, 0]

  /** All bits but those of the kind of check are reserved. */
  predicate FlagsOk(flags: seq<byte>) {
    |flags| == 2 && flags[0] == 0 && flags[1] < 16
  }

  function ReadStreamHeader(s: seq<byte>, crc: Checksum): Read<seq<byte>> {
    if |s| < 12 || s[..6] != MAGIC || FromLe32(s[8..12]) != crc(s[6..8]) || !FlagsOk(s[6..8]) then Bad
    else Read(s[6..8], s[12..])
  }

  datatype Footer = Footer(backward: nat, flags: seq<byte>)

  /** The stored backward size is the real size of the index, divided by four, less one. */
  function ReadFooter(s: seq<byte>, crc: Checksum): Option<Footer>
    requires |s| == 12
  {
    if FromLe32(s[..4]) != crc(s[4..10]) || s[10..12] != [0x59, 0x5A] || !FlagsOk(s[8..10]) then None
    else Some(Footer(4 * (FromLe32(s[4..8]) + 1), s[8..10]))
  }

  // ---------- A block, section 3 ----------

  /** The length of the check, for each of its 16 kinds: section 2.1.1.2. */
  const CHECK_LENGTHS: seq<nat> := [0, 4, 4, 4, 8, 8, 8, 16, 16, 16, 32, 32, 32, 64, 64, 64]

  datatype BlockParts = BlockParts(header: BlockHeader, packed: seq<byte>, check: seq<byte>)

  /** The record says where the packed bytes end, and must agree with the sizes in the header. */
  function ReadBlock(s: seq<byte>, r: Record, kind: nat, crc: Checksum): Option<BlockParts>
    requires kind < 16
  {
    match ReadBlockHeader(s, crc)
    case Bad => None
    case Read(h, rest) =>
      var around := |s| - |rest| + CHECK_LENGTHS[kind];
      if r.unpadded < around then None
      else
        var n: nat := r.unpadded - around;
        var pad := PadSize(n);
        if |rest| != n + pad + CHECK_LENGTHS[kind] || rest[n..n + pad] != Zeros(pad) then None
        else if (h.packSize.Some? && h.packSize.value != n) || (h.unpackSize.Some? && h.unpackSize.value != r.unpacked) then None
        else Some(BlockParts(h, rest[..n], rest[n + pad..]))
  }

  // ---------- A whole stream, from its end ----------

  function Padded(n: nat): nat { n + PadSize(n) }

  function Total(records: seq<Record>): nat {
    if records == [] then 0 else Padded(records[0].unpadded) + Total(records[1..])
  }

  /** The blocks, as the records of the index cut them up. */
  function Cut(s: seq<byte>, records: seq<Record>): (r: seq<seq<byte>>)
    requires Total(records) <= |s|
    decreases |records|
  {
    if records == [] then []
    else
      var n := Padded(records[0].unpadded);
      [s[..n]] + Cut(s[n..], records[1..])
  }

  datatype Stream = Stream(flags: seq<byte>, records: seq<Record>, blocks: seq<seq<byte>>)

  /** The footer leads to the index, and the index to the blocks; everything in between must be accounted for. */
  function ReadStream(s: seq<byte>, crc: Checksum): Option<Stream> {
    if |s| < 24 then None
    else
      var n := |s| - 12;
      var header := ReadStreamHeader(s, crc);
      var footer := ReadFooter(s[n..], crc);
      if header.Bad? || footer.None? || header.value != footer.value.flags || footer.value.backward > n - 12 then None
      else
        var i := n - footer.value.backward;
        match ReadIndex(s[i..n], crc)
        case Bad => None
        case Read(records, rest) =>
          if rest != [] || Total(records) != i - 12 then None
          else Some(Stream(header.value, records, Cut(s[12..i], records)))
  }
}
