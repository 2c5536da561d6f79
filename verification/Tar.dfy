/** The ustar archives that replay_export.c writes and main.js reads. */
module Tar {
  import opened Arithmetic
  import opened Bytes
  import opened Wrappers

  const BLOCK: nat := 512

  function Zeros(n: nat): (s: seq<byte>)
    ensures |s| == n
  {
    seq(n, _ => 0)
  }

  function Spaces(n: nat): (s: seq<byte>)
    ensures |s| == n
  {
    seq(n, _ => 32)
  }

  // ---------- Octal numbers ----------

  /** 8^n */
  function Pow8(n: nat): (p: nat)
    ensures p >= 1
  {
    if n == 0 then 1 else 8 * Pow8(n - 1)
  }

  /** The last n octal digits of v. */
  function Digits(n: nat, v: nat): (s: seq<byte>)
    ensures |s| == n && forall i :: 0 <= i < n ==> 48 <= s[i] < 56
  {
    if n == 0 then [] else Digits(n - 1, v / 8) + [Digit(v % 8)]
  }

  function Digit(d: int): (b: byte)
    requires 0 <= d < 8
    ensures 48 <= b < 56 && b == 48 + d
  {
    48 + d
  }

  predicate IsDigit(b: byte) { 48 <= b < 56 }

  /** The value of octal digits. */
  function Value(s: seq<byte>): (v: nat)
    requires forall i :: 0 <= i < |s| ==> IsDigit(s[i])
  {
    if s == [] then 0 else
      assert IsDigit(s[|s| - 1]);
      8 * Value(s[..|s| - 1]) + (s[|s| - 1] as int - 48)
  }

  lemma {:induction false} ValueOfDigits(n: nat, v: nat)
    ensures Value(Digits(n, v)) == v % Pow8(n)
  {
    if n > 0 {
      var s := Digits(n, v);
      assert s[..n - 1] == Digits(n - 1, v / 8);
      ValueOfDigits(n - 1, v / 8);
      var m := Pow8(n - 1);
      var q := v / 8 / m;
      DivisionParts(v / 8, m);
      ScaleProduct(8, m, q);
      RemainderIs(v, 8 * m, q, 8 * (v / 8 % m) + v % 8);
    }
  }

  /** octal_field: digits, then a zero byte. */
  function Octal(len: nat, v: nat): (s: seq<byte>)
    requires len > 0
    ensures |s| == len
  {
    Digits(len - 1, v) + [0]
  }

  // ---------- Writing ----------

  /** memcpy of a piece to an offset. */
  function Splice(s: seq<byte>, at: nat, piece: seq<byte>): (r: seq<byte>)
    requires at + |piece| <= |s|
    ensures |r| == |s|
    ensures r[at..at + |piece|] == piece
  {
    var r := s[..at] + piece + s[at + |piece|..];
    assert r[at..at + |piece|] == piece;
    r
  }

  /** The bytes elsewhere stay. */
  lemma SpliceElsewhere(s: seq<byte>, at: nat, piece: seq<byte>, from: nat, to: nat)
    requires at + |piece| <= |s| && from <= to <= |s| && (to <= at || at + |piece| <= from)
    ensures Splice(s, at, piece)[from..to] == s[from..to]
  {
    var r := Splice(s, at, piece);
    assert forall k :: from <= k < to ==> r[k] == s[k];
  }

  const MAGIC: seq<byte> := [117, 115, 116, 97, 114, 0, 48, 48]

  /** The header with spaces for its checksum. */
  function Unsummed(name: seq<byte>, size: nat, mtime: nat): (h: seq<byte>)
    requires |name| <= 100
    ensures |h| == BLOCK
  {
    var h := Splice(Zeros(BLOCK), 0, name);
    var h := Splice(h, 100, Octal(8, 420));
    var h := Splice(h, 108, Octal(8, 0));
    var h := Splice(h, 116, Octal(8, 0));
    var h := Splice(h, 124, Octal(12, size));
    var h := Splice(h, 136, Octal(12, mtime));
    var h := Splice(h, 148, Spaces(8));
    var h := Splice(h, 156, [48]);
    Splice(h, 257, MAGIC)
  }

  function Sum(s: seq<byte>): (n: nat)
    ensures n <= 255 * |s|
  {
    if s == [] then 0 else Sum(s[..|s| - 1]) + s[|s| - 1]
  }

  /** Six octal digits, a zero byte and a space. */
  function Check(sum: nat): (s: seq<byte>)
    ensures |s| == 8
  {
    Digits(6, sum) + [0, 32]
  }

  function Header(name: seq<byte>, size: nat, mtime: nat): (h: seq<byte>)
    requires |name| <= 100
    ensures |h| == BLOCK
  {
    var u := Unsummed(name, size, mtime);
    Splice(u, 148, Check(Sum(u)))
  }

  /** What fills the last block up. */
  function Padding(size: nat): (n: nat)
    ensures n < BLOCK && (size + n) % BLOCK == 0
  {
    if size % BLOCK == 0 then 0 else BLOCK - size % BLOCK
  }

  datatype Entry = Entry(name: seq<byte>, data: seq<byte>)

  /** tar_add_entry */
  function EntryBytes(e: Entry, mtime: nat): (s: seq<byte>)
    requires |e.name| <= 100
    ensures |s| == BLOCK + |e.data| + Padding(|e.data|)
  {
    Header(e.name, |e.data|, mtime) + e.data + Zeros(Padding(|e.data|))
  }

  predicate Short(entries: seq<Entry>) {
    forall i :: 0 <= i < |entries| ==> |entries[i].name| <= 100
  }

  function Written(entries: seq<Entry>, mtime: nat): (s: seq<byte>)
    requires Short(entries)
  {
    if entries == [] then [] else EntryBytes(entries[0], mtime) + Written(entries[1..], mtime)
  }

  /** tar_add_entry of each entry, then tar_finish. */
  function Archive(entries: seq<Entry>, mtime: nat): (s: seq<byte>)
    requires Short(entries)
  {
    Written(entries, mtime) + Zeros(2 * BLOCK)
  }

  lemma {:induction false} WrittenAppend(entries: seq<Entry>, e: Entry, mtime: nat)
    requires Short(entries) && |e.name| <= 100
    ensures Short(entries + [e]) && Written(entries + [e], mtime) == Written(entries, mtime) + EntryBytes(e, mtime)
  {
    hide EntryBytes;
    var all := entries + [e];
    if entries == [] {
      assert all[1..] == [];
    } else {
      assert all[1..] == entries[1..] + [e];
      WrittenAppend(entries[1..], e, mtime);
    }
  }

  // ---------- Reading ----------

  /** An entry as it is read; a size that is no number is None. */
  datatype Parsed = Parsed(name: seq<byte>, size: Option<nat>, magicOk: bool, data: seq<byte>)

  /** The bytes up to the first one that ends the field. */
  function Field(s: seq<byte>): (r: seq<byte>)
    ensures |r| <= |s|
  {
    if s == [] || s[0] == 0 || s[0] == 32 then [] else [s[0]] + Field(s[1..])
  }

  /** The octal digits that s starts with. */
  function Leading(s: seq<byte>): (r: seq<byte>)
    ensures forall i :: 0 <= i < |r| ==> IsDigit(r[i])
  {
    if s == [] || !IsDigit(s[0]) then [] else [s[0]] + Leading(s[1..])
  }

  /** The characters below 256 that count as white space in JavaScript. */
  predicate White(b: byte) { 9 <= b <= 13 || b == 32 || b == 160 }

  function Trimmed(s: seq<byte>): seq<byte> {
    if s != [] && White(s[0]) then Trimmed(s[1..]) else s
  }

  /** parseInt(s, 8) of text without a minus sign; None is NaN. */
  function ParseInt8(s: seq<byte>): Option<nat> {
    var t := Trimmed(s);
    var u := if t != [] && t[0] == 43 then t[1..] else t;
    if Leading(u) == [] then None else Some(Value(Leading(u)))
  }

  /** parseOctalField */
  function OctalValue(s: seq<byte>): Option<nat> {
    if Field(s) == [] then Some(0) else ParseInt8(Field(s))
  }

  /** The name ends at the first zero byte. */
  function NameEnd(s: seq<byte>): (n: nat)
    ensures n <= |s|
  {
    if s == [] || s[0] == 0 then 0 else 1 + NameEnd(s[1..])
  }

  function Least(a: int, b: int): int { if a < b then a else b }

  /** parseTar from an offset on. */
  function ParseFrom(bytes: seq<byte>, off: nat): (r: seq<Parsed>)
    decreases |bytes| - off
  {
    if off + BLOCK > |bytes| then []
    else
      var header := bytes[off..off + BLOCK];
      if header == Zeros(BLOCK) then []
      else
        var name := header[..100][..NameEnd(header[..100])];
        var magicOk := header[257..265] == MAGIC;
        match OctalValue(header[124..136])
        case None => [Parsed(name, None, magicOk, [])]
        case Some(size) =>
          var data := bytes[off + BLOCK..Least(off + BLOCK + size, |bytes|)];
          [Parsed(name, Some(size), magicOk, data)] + ParseFrom(bytes, off + BLOCK + size + Padding(size))
  }

  /** Reading one entry. */
  lemma ParseStep(bytes: seq<byte>, off: nat)
    requires off + BLOCK <= |bytes|
    ensures var header := bytes[off..off + BLOCK];
            ParseFrom(bytes, off) ==
            if header == Zeros(BLOCK) then []
            else
              var name := header[..100][..NameEnd(header[..100])];
              var magicOk := header[257..265] == MAGIC;
              var size := OctalValue(header[124..136]);
              if size.None? then [Parsed(name, None, magicOk, [])]
              else
                [Parsed(name, size, magicOk, bytes[off + BLOCK..Least(off + BLOCK + size.value, |bytes|)])] +
                ParseFrom(bytes, off + BLOCK + size.value + Padding(size.value))
  {
    hide OctalValue, NameEnd, Padding;
  }

  // ---------- The round trip ----------

  predicate NoZero(s: seq<byte>) { forall i :: 0 <= i < |s| ==> s[i] != 0 }

  lemma {:induction false} NameOf(name: seq<byte>, n: nat)
    requires NoZero(name)
    ensures NameEnd(name + Zeros(n)) == |name|
  {
    if name != [] {
      assert (name + Zeros(n))[1..] == name[1..] + Zeros(n);
      NameOf(name[1..], n);
    }
  }

  lemma {:induction false} FieldOfDigits(s: seq<byte>, b: byte, rest: seq<byte>)
    requires (b == 0 || b == 32) && forall i :: 0 <= i < |s| ==> IsDigit(s[i])
    ensures Field(s + [b] + rest) == s && Leading(s) == s
  {
    var all := s + [b] + rest;
    if s != [] {
      assert all[1..] == s[1..] + [b] + rest;
      FieldOfDigits(s[1..], b, rest);
    }
  }

  /** A number that is written is read as its remainder by 8^digits. */
  lemma OctalRead(n: nat, v: nat, rest: seq<byte>)
    requires n > 0
    ensures OctalValue(Digits(n, v) + [0] + rest) == Some(v % Pow8(n))
  {
    FieldOfDigits(Digits(n, v), 0, rest);
    ValueOfDigits(n, v);
  }

  /** So it is read back exactly if it has no more octal digits than the field. */
  lemma OctalReadExactly(len: nat, v: nat)
    requires len > 1
    ensures OctalValue(Octal(len, v)) == Some(v) <==> v < Pow8(len - 1)
  {
    assert Octal(len, v) == Digits(len - 1, v) + [0] + [];
    OctalRead(len - 1, v, []);
    if v < Pow8(len - 1) {
      RemainderIs(v, Pow8(len - 1), 0, v);
    }
  }

  /** The parts of a header that are read. */
  lemma HeaderFields(name: seq<byte>, size: nat, mtime: nat)
    requires |name| <= 100
    ensures var h := Header(name, size, mtime);
            && h[..100] == name + Zeros(100 - |name|) && h[124..136] == Octal(12, size) && h[257..265] == MAGIC
            && h[148..156] == Check(Sum(Unsummed(name, size, mtime)))
            && Splice(h, 148, Spaces(8)) == Unsummed(name, size, mtime)
  {
    hide Octal, Check, Sum, Splice;
    var h0 := Splice(Zeros(BLOCK), 0, name);
    var h1 := Splice(h0, 100, Octal(8, 420));
    var h2 := Splice(h1, 108, Octal(8, 0));
    var h3 := Splice(h2, 116, Octal(8, 0));
    var h4 := Splice(h3, 124, Octal(12, size));
    var h5 := Splice(h4, 136, Octal(12, mtime));
    var h6 := Splice(h5, 148, Spaces(8));
    var h7 := Splice(h6, 156, [48]);
    var u := Splice(h7, 257, MAGIC);
    var h := Splice(u, 148, Check(Sum(u)));
    NameSpliced(name);
    SpliceElsewhere(h0, 100, Octal(8, 420), 0, 100);
    SpliceElsewhere(h1, 108, Octal(8, 0), 0, 100);
    SpliceElsewhere(h2, 116, Octal(8, 0), 0, 100);
    SpliceElsewhere(h3, 124, Octal(12, size), 0, 100);
    SpliceElsewhere(h4, 136, Octal(12, mtime), 0, 100);
    SpliceElsewhere(h5, 148, Spaces(8), 0, 100);
    SpliceElsewhere(h6, 156, [48], 0, 100);
    SpliceElsewhere(h7, 257, MAGIC, 0, 100);
    SpliceElsewhere(u, 148, Check(Sum(u)), 0, 100);
    SpliceElsewhere(h4, 136, Octal(12, mtime), 124, 136);
    SpliceElsewhere(h5, 148, Spaces(8), 124, 136);
    SpliceElsewhere(h6, 156, [48], 124, 136);
    SpliceElsewhere(h7, 257, MAGIC, 124, 136);
    SpliceElsewhere(u, 148, Check(Sum(u)), 124, 136);
    SpliceElsewhere(u, 148, Check(Sum(u)), 257, 265);
    SpliceElsewhere(h6, 156, [48], 148, 156);
    SpliceElsewhere(h7, 257, MAGIC, 148, 156);
    SpliceBack(u, 148, Check(Sum(u)), Spaces(8));
    assert h[0..100] == h[..100];
  }

  lemma NameSpliced(name: seq<byte>)
    requires |name| <= 100
    ensures Splice(Zeros(BLOCK), 0, name)[0..100] == name + Zeros(100 - |name|)
  {
  }

  /** Putting back what was there undoes a splice. */
  lemma SpliceBack(s: seq<byte>, at: nat, piece: seq<byte>, was: seq<byte>)
    requires |piece| == |was| && at + |piece| <= |s| && s[at..at + |piece|] == was
    ensures Splice(Splice(s, at, piece), at, was) == s
  {
    var r := Splice(Splice(s, at, piece), at, was);
    forall k | 0 <= k < |s|
      ensures r[k] == s[k]
    {
      if at <= k < at + |piece| {
        assert s[k] == s[at..at + |piece|][k - at];
      }
    }
  }

  /** The checksum is that of the standard: the sum of the header with spaces in its place. */
  lemma ChecksumReads(name: seq<byte>, size: nat, mtime: nat)
    requires |name| <= 100
    ensures var h := Header(name, size, mtime);
            OctalValue(h[148..156]) == Some(Sum(Splice(h, 148, Spaces(8)))) && Sum(Splice(h, 148, Spaces(8))) < Pow8(6)
  {
    HeaderFields(name, size, mtime);
    var sum := Sum(Unsummed(name, size, mtime));
    assert Check(sum) == Digits(6, sum) + [0] + [32];
    OctalRead(6, sum, [32]);
    assert Pow8(3) == 512 && Pow8(6) == 8 * (8 * (8 * Pow8(3)));
    RemainderIs(sum, Pow8(6), 0, sum);
  }

  lemma NotZero(h: seq<byte>)
    requires |h| == BLOCK && h[257..265] == MAGIC
    ensures h != Zeros(BLOCK)
  {
    assert h[257] == h[257..265][0];
  }

  lemma PaddingIs(size: nat)
    ensures Padding(size) == if size % BLOCK == 0 then 0 else BLOCK - size % BLOCK
  {
  }

  lemma ThreeParts(was: seq<byte>, h: seq<byte>, data: seq<byte>, pad: seq<byte>)
    ensures was + h + data + pad == was + (h + data + pad)
    ensures data == [] ==> was + h + data == was + h
    ensures pad == [] ==> was + h + data + pad == was + h + data
  {
  }

  lemma Slices(before: seq<byte>, h: seq<byte>, data: seq<byte>, pad: seq<byte>, after: seq<byte>)
    ensures var s := before + (h + data + pad) + after;
            var i := |before| + |h|;
            s[|before|..i] == h && i + |data| <= |s| && s[i..i + |data|] == data
  {
    var s := before + (h + data + pad) + after;
    assert s == before + h + (data + pad + after);
    assert s == before + h + data + (pad + after);
  }

  /** What a header says. */
  lemma HeaderReads(name: seq<byte>, size: nat, mtime: nat)
    requires |name| <= 100 && NoZero(name) && size < Pow8(11)
    ensures var h := Header(name, size, mtime);
            && h != Zeros(BLOCK) && h[257..265] == MAGIC && OctalValue(h[124..136]) == Some(size)
            && h[..100][..NameEnd(h[..100])] == name
  {
    hide Unsummed, Octal, OctalValue, Header, Splice, Check, Sum, Pow8;
    var h := Header(name, size, mtime);
    HeaderFields(name, size, mtime);
    NotZero(h);
    NameOf(name, 100 - |name|);
    OctalReadExactly(12, size);
  }

  /** One step of the parse, when the header and the data are known. */
  lemma ParseOne(bytes: seq<byte>, off: nat, h: seq<byte>, name: seq<byte>, data: seq<byte>)
    requires off + BLOCK + |data| <= |bytes| && bytes[off..off + BLOCK] == h
    requires bytes[off + BLOCK..off + BLOCK + |data|] == data
    requires h != Zeros(BLOCK) && h[257..265] == MAGIC && OctalValue(h[124..136]) == Some(|data|)
    requires h[..100][..NameEnd(h[..100])] == name
    ensures ParseFrom(bytes, off) ==
            [Parsed(name, Some(|data|), true, data)] + ParseFrom(bytes, off + BLOCK + |data| + Padding(|data|))
  {
    hide OctalValue, ParseFrom, NameEnd, Padding, Zeros;
    ParseStep(bytes, off);
  }

  /** Reading one entry that was written. */
  lemma EntryRead(bytes: seq<byte>, before: seq<byte>, e: Entry, after: seq<byte>, mtime: nat)
    requires |e.name| <= 100 && NoZero(e.name) && |e.data| < Pow8(11)
    requires bytes == before + EntryBytes(e, mtime) + after
    ensures ParseFrom(bytes, |before|) ==
            [Parsed(e.name, Some(|e.data|), true, e.data)] + ParseFrom(bytes, |before| + |EntryBytes(e, mtime)|)
  {
    hide OctalValue, ParseFrom, Header, NameEnd, Padding, Pow8, Zeros, NoZero, EntryBytes;
    EntryIs(e, mtime);
    Slices(before, Header(e.name, |e.data|, mtime), e.data, Zeros(Padding(|e.data|)), after);
    HeaderReads(e.name, |e.data|, mtime);
    ParseOne(bytes, |before|, Header(e.name, |e.data|, mtime), e.name, e.data);
  }

  lemma EntryIs(e: Entry, mtime: nat)
    requires |e.name| <= 100
    ensures EntryBytes(e, mtime) == Header(e.name, |e.data|, mtime) + e.data + Zeros(Padding(|e.data|))
  {
  }

  function Reads(entries: seq<Entry>): (r: seq<Parsed>)
    ensures |r| == |entries|
  {
    seq(|entries|, i requires 0 <= i < |entries| => Parsed(entries[i].name, Some(|entries[i].data|), true, entries[i].data))
  }

  lemma EndRead(before: seq<byte>)
    ensures ParseFrom(before + Zeros(2 * BLOCK), |before|) == []
  {
    hide ParseFrom, Zeros;
    var bytes := before + Zeros(2 * BLOCK);
    ZerosPart(2 * BLOCK, BLOCK);
    assert bytes[|before|..|before| + BLOCK] == Zeros(2 * BLOCK)[..BLOCK];
    ParseStep(bytes, |before|);
  }

  lemma ZerosPart(n: nat, m: nat)
    requires m <= n
    ensures Zeros(n)[..m] == Zeros(m)
  {
  }

  predicate Storable(entries: seq<Entry>) {
    Short(entries) && forall i :: 0 <= i < |entries| ==> NoZero(entries[i].name) && |entries[i].data| < Pow8(11)
  }

  lemma {:induction false} WrittenRead(before: seq<byte>, entries: seq<Entry>, mtime: nat)
    requires Storable(entries)
    ensures ParseFrom(before + Archive(entries, mtime), |before|) == Reads(entries)
    decreases |entries|
  {
    hide EntryBytes, ParseFrom, Zeros;
    if entries == [] {
      assert before + Archive(entries, mtime) == before + Zeros(2 * BLOCK);
      EndRead(before);
    } else {
      var e := entries[0];
      var rest := entries[1..];
      var first := EntryBytes(e, mtime);
      var bytes := before + Archive(entries, mtime);
      assert bytes == before + first + Archive(rest, mtime);
      assert bytes == (before + first) + Archive(rest, mtime);
      EntryRead(bytes, before, e, Archive(rest, mtime), mtime);
      assert Storable(rest);
      WrittenRead(before + first, rest, mtime);
      assert Reads(entries) == [Parsed(e.name, Some(|e.data|), true, e.data)] + Reads(rest);
    }
  }

  /** What is written is read back. */
  lemma ArchiveRead(entries: seq<Entry>, mtime: nat)
    requires Storable(entries)
    ensures ParseFrom(Archive(entries, mtime), 0) == Reads(entries)
  {
    WrittenRead([], entries, mtime);
    assert [] + Archive(entries, mtime) == Archive(entries, mtime);
  }

  predicate Sized(entries: seq<Entry>) {
    forall i :: 0 <= i < |entries| ==> |entries[i].data| < Pow8(11)
  }

  /** The size of an entry of 8 GB or more is read as another one. */
  lemma LargeEntry(bytes: seq<byte>, before: seq<byte>, e: Entry, after: seq<byte>, mtime: nat)
    requires |e.name| <= 100 && |e.data| >= Pow8(11) && bytes == before + EntryBytes(e, mtime) + after
    ensures var r := ParseFrom(bytes, |before|); r != [] && r[0].size != Some(|e.data|)
  {
    hide OctalValue, ParseFrom, Header, NameEnd, Padding, Pow8, Zeros, EntryBytes, Octal;
    EntryIs(e, mtime);
    Slices(before, Header(e.name, |e.data|, mtime), e.data, Zeros(Padding(|e.data|)), after);
    HeaderFields(e.name, |e.data|, mtime);
    NotZero(Header(e.name, |e.data|, mtime));
    OctalReadExactly(12, |e.data|);
    ParseStep(bytes, |before|);
  }

  lemma {:induction false} ReadIsSized(before: seq<byte>, entries: seq<Entry>, mtime: nat)
    requires Short(entries) && (forall i :: 0 <= i < |entries| ==> NoZero(entries[i].name))
    requires ParseFrom(before + Archive(entries, mtime), |before|) == Reads(entries)
    ensures Sized(entries)
    decreases |entries|
  {
    hide EntryBytes, ParseFrom, Zeros, NoZero, Pow8;
    if entries != [] {
      var e := entries[0];
      var rest := entries[1..];
      var first := EntryBytes(e, mtime);
      var bytes := before + Archive(entries, mtime);
      assert bytes == before + first + Archive(rest, mtime);
      assert bytes == (before + first) + Archive(rest, mtime);
      var one := Parsed(e.name, Some(|e.data|), true, e.data);
      assert Reads(entries) == [one] + Reads(rest);
      if |e.data| >= Pow8(11) {
        LargeEntry(bytes, before, e, Archive(rest, mtime), mtime);
        assert false;
      }
      EntryRead(bytes, before, e, Archive(rest, mtime), mtime);
      assert ([one] + Reads(rest))[1..] == Reads(rest) == ParseFrom(bytes, |before + first|);
      ReadIsSized(before + first, rest, mtime);
    }
  }

  /** The archive is read back if and only if every size fits its eleven octal digits. */
  lemma ArchiveReadExactly(entries: seq<Entry>, mtime: nat)
    requires Short(entries) && forall i :: 0 <= i < |entries| ==> NoZero(entries[i].name)
    ensures ParseFrom(Archive(entries, mtime), 0) == Reads(entries) <==> Sized(entries)
  {
    assert [] + Archive(entries, mtime) == Archive(entries, mtime);
    hide Archive, ParseFrom, Pow8, NoZero, Reads;
    if Sized(entries) {
      ArchiveRead(entries, mtime);
    } else if ParseFrom(Archive(entries, mtime), 0) == Reads(entries) {
      ReadIsSized([], entries, mtime);
    }
  }

  lemma {:induction false} ArchiveBlocks(entries: seq<Entry>, mtime: nat)
    requires Short(entries)
    ensures |Archive(entries, mtime)| % BLOCK == 0
  {
    hide EntryBytes;
    if entries != [] {
      ArchiveBlocks(entries[1..], mtime);
    }
  }

  // ---------- The two implementations ----------

  /** octal_field, in a header. */
  method OctalField(field: array<byte>, at: nat, len: nat, value: nat)
    requires 0 < len && at + len <= field.Length
    modifies field
    ensures field[..] == Splice(old(field[..]), at, Octal(len, value))
  {
    var digits := len - 1;
    var v := value;
    field[at + digits] := 0;
    var i := digits;
    while i > 0
      invariant 0 <= i <= digits
      invariant Digits(digits, value) == Digits(i, v) + field[at + i..at + digits]
      invariant field[at + digits] == 0
      invariant field[..at] == old(field[..at]) && field[at + len..] == old(field[at + len..])
    {
      i := i - 1;
      field[at + i] := Digit(v % 8);
      v := v / 8;
    }
    assert field[..] == field[..at] + field[at..at + digits] + [field[at + digits]] + field[at + len..];
  }

  /** memcpy of bytes into a header. */
  method Copy(dest: array<byte>, at: nat, bytes: seq<byte>)
    requires at + |bytes| <= dest.Length
    modifies dest
    ensures dest[..] == Splice(old(dest[..]), at, bytes)
  {
    forall i | 0 <= i < |bytes| {
      dest[at + i] := bytes[i];
    }
  }

  /** The header that tar_add_entry makes. */
  method MakeHeader(name: seq<byte>, size: nat, mtime: nat) returns (header: array<byte>)
    requires |name| <= 100
    ensures fresh(header) && header[..] == Header(name, size, mtime)
  {
    hide Splice, Octal, Sum, Check;
    header := new byte[BLOCK](_ => 0);
    assert header[..] == Zeros(BLOCK);
    Copy(header, 0, name);
    OctalField(header, 100, 8, 420);
    OctalField(header, 108, 8, 0);
    OctalField(header, 116, 8, 0);
    OctalField(header, 124, 12, size);
    OctalField(header, 136, 12, mtime);
    Copy(header, 148, Spaces(8));
    Copy(header, 156, [48]);
    Copy(header, 257, MAGIC);
    var sum := SumOf(header);
    Copy(header, 148, Check(sum));
  }

  method SumOf(header: array<byte>) returns (sum: nat)
    ensures sum == Sum(header[..])
  {
    sum := 0;
    for i := 0 to header.Length
      invariant sum == Sum(header[..i])
    {
      assert header[..i + 1][..i] == header[..i];
      sum := sum + header[i];
    }
    assert header[..header.Length] == header[..];
  }

  /** The builder of an archive: buf has room for more than the len bytes in use. */
  class TarBuilder {
    var buf: array<byte>
    var len: nat

    constructor ()
      ensures Valid() && Contents() == [] && fresh(buf)
    {
      buf := new byte[0];
      len := 0;
    }

    ghost predicate Valid()
      reads this
    {
      len <= buf.Length
    }

    ghost function Contents(): (s: seq<byte>)
      requires Valid()
      reads this, buf
    {
      buf[..len]
    }

    /** tar_ensure */
    method Ensure(extra: nat)
      requires Valid()
      modifies this
      ensures Valid() && Contents() == old(Contents()) && len == old(len) && len + extra <= buf.Length
      ensures buf == old(buf) || fresh(buf)
    {
      if len + extra <= buf.Length {
        return;
      }
      var newcap: nat := if buf.Length > 0 then buf.Length else 65536;
      while newcap < len + extra
        invariant newcap > 0
        decreases len + extra - newcap
      {
        newcap := newcap * 2;
      }
      var nb := new byte[newcap];
      forall i | 0 <= i < len {
        nb[i] := buf[i];
      }
      buf := nb;
    }

    /** tar_append_bytes */
    method Append(data: seq<byte>)
      requires Valid() && len + |data| <= buf.Length
      modifies this`len, buf
      ensures Valid() && Contents() == old(Contents()) + data && buf == old(buf)
    {
      Copy(buf, len, data);
      len := len + |data|;
    }

    /** tar_add_entry */
    method AddEntry(name: seq<byte>, data: seq<byte>, mtime: nat) returns (rc: int)
      requires Valid()
      modifies this, buf
      ensures Valid() && (buf == old(buf) || fresh(buf))
      ensures rc == if |name| <= 100 then 0 else -1
      ensures Contents() == old(Contents()) + if |name| <= 100 then EntryBytes(Entry(name, data), mtime) else []
    {
      if |name| > 100 {
        return -1;
      }
      hide Header, Zeros, EntryBytes, Padding;
      var size := |data|;
      ghost var was := Contents();
      var header := MakeHeader(name, size, mtime);
      Ensure(BLOCK);
      Append(header[..]);
      if size > 0 {
        Ensure(size);
        Append(data);
      }
      var rem := size % BLOCK;
      if rem != 0 {
        Ensure(BLOCK - rem);
        Append(Zeros(BLOCK - rem));
      }
      EntryIs(Entry(name, data), mtime);
      PaddingIs(size);
      ThreeParts(was, header[..], data, Zeros(Padding(size)));
      rc := 0;
    }

    /** tar_finish */
    method Finish()
      requires Valid()
      modifies this, buf
      ensures Valid() && Contents() == old(Contents()) + Zeros(2 * BLOCK) && (buf == old(buf) || fresh(buf))
    {
      Ensure(2 * BLOCK);
      Append(Zeros(2 * BLOCK));
    }

    /**
     The tar step of replay_export_battle: from an empty buffer, each entry until one is refused,
     and then the end.
     */
    method Build(entries: seq<Entry>, mtime: nat) returns (rc: int)
      requires Valid() && len == 0
      modifies this, buf
      ensures Valid() && (rc == 0 <==> Short(entries))
      ensures rc == 0 ==> Contents() == Archive(entries, mtime)
    {
      hide EntryBytes, Zeros, Written;
      WrittenNone(mtime);
      for i := 0 to |entries|
        invariant Valid() && (buf == old(buf) || fresh(buf))
        invariant Short(entries[..i]) && Contents() == Written(entries[..i], mtime)
      {
        var r := AddEntry(entries[i].name, entries[i].data, mtime);
        if r != 0 {
          return -14 - i;
        }
        assert entries[i] == Entry(entries[i].name, entries[i].data);
        assert entries[..i + 1] == entries[..i] + [entries[i]];
        WrittenAppend(entries[..i], entries[i], mtime);
      }
      assert entries[..|entries|] == entries;
      Finish();
      rc := 0;
    }
  }

  /** parseOctalField */
  method ParseOctalField(bytes: seq<byte>) returns (v: Option<nat>)
    ensures v == OctalValue(bytes)
  {
    var s: seq<byte> := [];
    var i := 0;
    while i < |bytes|
      invariant 0 <= i <= |bytes| && Field(bytes) == s + Field(bytes[i..])
    {
      if bytes[i] == 0 || bytes[i] == 32 { break; }
      s := s + [bytes[i]];
      i := i + 1;
    }
    assert s == Field(bytes);
    v := if |s| > 0 then ParseInt8(s) else Some(0);
  }

  method FindNameEnd(nameBytes: seq<byte>) returns (nameEnd: nat)
    ensures nameEnd == NameEnd(nameBytes)
  {
    nameEnd := 0;
    while nameEnd < |nameBytes| && nameBytes[nameEnd] != 0
      invariant 0 <= nameEnd <= |nameBytes| && NameEnd(nameBytes) == nameEnd + NameEnd(nameBytes[nameEnd..])
    {
      nameEnd := nameEnd + 1;
    }
  }

  /** parseTar */
  method ParseTar(bytes: seq<byte>) returns (entries: seq<Parsed>)
    ensures entries == ParseFrom(bytes, 0)
  {
    hide ParseFrom, OctalValue, Zeros, NameEnd;
    entries := [];
    var off: nat := 0;
    assert [] + ParseFrom(bytes, 0) == ParseFrom(bytes, 0);
    while off + BLOCK <= |bytes|
      invariant entries + ParseFrom(bytes, off) == ParseFrom(bytes, 0)
    {
      ParseStep(bytes, off);
      var header := bytes[off..off + BLOCK];
      if header == Zeros(BLOCK) { return; }
      var nameBytes := header[..100];
      var nameEnd := FindNameEnd(nameBytes);
      var parsed := ParseOctalField(header[124..136]);
      var magicOk := header[257..265] == MAGIC;
      if parsed.None? {
        entries := entries + [Parsed(nameBytes[..nameEnd], None, magicOk, [])];
        return;
      }
      var size := parsed.value;
      off := off + BLOCK;
      var data := bytes[off..Least(off + size, |bytes|)];
      entries := entries + [Parsed(nameBytes[..nameEnd], parsed, magicOk, data)];
      off := off + size;
      if size % BLOCK != 0 {
        off := off + (BLOCK - size % BLOCK);
      }
    }
    ParseEnd(bytes, off);
  }

  lemma WrittenNone(mtime: nat)
    ensures Written([], mtime) == []
  {
  }

  /** A battle that is exported and loaded again: what the JavaScript reader finds in what the C code built. */
  method ExportAndLoad(entries: seq<Entry>, mtime: nat) returns (rc: int, loaded: seq<Parsed>)
    ensures rc == 0 <==> Short(entries)
    ensures Storable(entries) ==> loaded == Reads(entries)
  {
    hide Storable, Written, ParseFrom;
    var tar := new TarBuilder();
    loaded := [];
    rc := tar.Build(entries, mtime);
    if rc == 0 {
      loaded := ParseTar(tar.buf[..tar.len]);
    }
    if Storable(entries) {
      StorableShort(entries);
      ArchiveRead(entries, mtime);
    }
  }

  lemma StorableShort(entries: seq<Entry>)
    requires Storable(entries)
    ensures Short(entries)
  {
  }

  const MANIFEST_NAME: seq<byte> := [109, 97, 110, 105, 102, 101, 115, 116, 46, 106, 115, 111, 110]
  const REPLAY_NAME: seq<byte> := [114, 101, 112, 108, 97, 121, 46, 100, 98]
  const BATTLE_NAME: seq<byte> := [98, 97, 116, 116, 108, 101, 46, 100, 98]

  /** The three files of an exported battle. */
  function ExportEntries(manifest: seq<byte>, replay: seq<byte>, battle: seq<byte>): seq<Entry> {
    [Entry(MANIFEST_NAME, manifest), Entry(REPLAY_NAME, replay), Entry(BATTLE_NAME, battle)]
  }

  /** They are never refused, and are read back if and only if each has less than 8 GB. */
  lemma ExportRead(manifest: seq<byte>, replay: seq<byte>, battle: seq<byte>, mtime: nat)
    ensures Short(ExportEntries(manifest, replay, battle))
    ensures ParseFrom(Archive(ExportEntries(manifest, replay, battle), mtime), 0) == Reads(ExportEntries(manifest, replay, battle))
            <==> |manifest| < Pow8(11) && |replay| < Pow8(11) && |battle| < Pow8(11)
  {
    hide Pow8, Archive, ParseFrom, Reads;
    var entries := ExportEntries(manifest, replay, battle);
    assert Sized(entries) <==> |entries[0].data| < Pow8(11) && |entries[1].data| < Pow8(11) && |entries[2].data| < Pow8(11);
    ArchiveReadExactly(entries, mtime);
  }

  lemma ParseEnd(bytes: seq<byte>, off: nat)
    requires off + BLOCK > |bytes|
    ensures ParseFrom(bytes, off) == []
  {
  }
}
