/** Where the fields of a ustar header are, byte by byte, and the numbers that are read from them. */
module TarLayout {
  import opened Bytes
  import opened Wrappers
  import opened Tar

  /** A piece that is put behind some zero bytes, where only zero bytes follow. */
  lemma SpliceNext(prefix: seq<byte>, gap: nat, piece: seq<byte>)
    requires |prefix| + gap + |piece| <= 512
    ensures Splice(prefix + Zeros(512 - |prefix|), |prefix| + gap, piece) ==
            prefix + Zeros(gap) + piece + Zeros(512 - |prefix| - gap - |piece|)
  {
    var s := prefix + Zeros(512 - |prefix|);
    var at := |prefix| + gap;
    assert s[..at] == prefix + Zeros(gap);
    assert s[at + |piece|..] == Zeros(512 - at - |piece|);
  }

  lemma SpliceInside(before: seq<byte>, was: seq<byte>, after: seq<byte>, piece: seq<byte>)
    requires |piece| == |was|
    ensures Splice(before + was + after, |before|, piece) == before + piece + after
  {
    var s := before + was + after;
    assert s[..|before|] == before && s[|before| + |piece|..] == after;
  }

  /** The header up to the checksum: name, mode, user, group, size and time. */
  function Front(name: seq<byte>, size: nat, mtime: nat): (s: seq<byte>)
    requires |name| <= 100
    ensures |s| == 148
  {
    name + Zeros(100 - |name|) + [48, 48, 48, 48, 54, 52, 52, 0] + [48, 48, 48, 48, 48, 48, 48, 0] +
    [48, 48, 48, 48, 48, 48, 48, 0] + Octal(12, size) + Octal(12, mtime)
  }

  /** The header behind the checksum: an ordinary file, no link, ustar and 00. */
  function Back(): (s: seq<byte>)
    ensures |s| == 356
  {
    [48] + Zeros(100) + [117, 115, 116, 97, 114, 0, 48, 48] + Zeros(247)
  }

  lemma ModeDigits()
    ensures Octal(8, 420) == [48, 48, 48, 48, 54, 52, 52, 0] && Octal(8, 0) == [48, 48, 48, 48, 48, 48, 48, 0]
  {
  }

  lemma NoGap(s: seq<byte>)
    ensures s + Zeros(0) == s
  {
  }

  lemma UnsummedLayout(name: seq<byte>, size: nat, mtime: nat)
    requires |name| <= 100
    ensures Unsummed(name, size, mtime) == Front(name, size, mtime) + Spaces(8) + Back()
  {
    hide Octal, Splice;
    ModeDigits();
    var a, b := Octal(8, 420), Octal(8, 0);
    var p0: seq<byte> := [];
    assert p0 + Zeros(512) == Zeros(512) && p0 + Zeros(0) + name == name;
    SpliceNext(p0, 0, name);
    SpliceNext(name, 100 - |name|, a);
    var p1 := name + Zeros(100 - |name|) + a;
    SpliceNext(p1, 0, b);
    NoGap(p1);
    var p2 := p1 + b;
    SpliceNext(p2, 0, b);
    NoGap(p2);
    var p3 := p2 + b;
    SpliceNext(p3, 0, Octal(12, size));
    NoGap(p3);
    var p4 := p3 + Octal(12, size);
    SpliceNext(p4, 0, Octal(12, mtime));
    NoGap(p4);
    assert p4 + Octal(12, mtime) == Front(name, size, mtime);
    UnsummedBack(Front(name, size, mtime));
  }

  lemma UnsummedBack(front: seq<byte>)
    requires |front| == 148
    ensures var h := Splice(front + Zeros(364), 148, Spaces(8));
            Splice(Splice(h, 156, [48]), 257, MAGIC) == front + Spaces(8) + Back()
  {
    hide Splice, Zeros, Spaces;
    SpliceNext(front, 0, Spaces(8));
    NoGap(front);
    var p6 := front + Spaces(8);
    SpliceNext(p6, 0, [48]);
    NoGap(p6);
    SpliceNext(p6 + [48], 100, MAGIC);
    assert p6 + [48] + Zeros(100) + MAGIC + Zeros(247) == p6 + ([48] + Zeros(100) + MAGIC + Zeros(247));
  }

  /** The checksum is that of the header with spaces for it: six digits, a zero byte and a space. */
  lemma HeaderLayout(name: seq<byte>, size: nat, mtime: nat)
    requires |name| <= 100
    ensures var sum := Sum(Front(name, size, mtime) + Spaces(8) + Back());
            Header(name, size, mtime) == Front(name, size, mtime) + (Digits(6, sum) + [0, 32]) + Back()
  {
    hide Splice, Sum, Digits, Octal;
    UnsummedLayout(name, size, mtime);
    var sum := Sum(Front(name, size, mtime) + Spaces(8) + Back());
    SpliceInside(Front(name, size, mtime), Spaces(8), Back(), Check(sum));
  }

  lemma SumIs(s: seq<byte>, b: byte)
    ensures Sum([]) == 0 && Sum(s + [b]) == Sum(s) + b
  {
    assert (s + [b])[..|s|] == s;
  }

  lemma DigitsAre(n: nat, v: nat)
    ensures Digits(0, v) == [] && Digits(n + 1, v) == Digits(n, v / 8) + [48 + v % 8]
  {
  }

  /** An entry: its header, its data, and zero bytes up to a multiple of 512; an archive ends with 1024 of them. */
  lemma ArchiveLayout(e: Entry, more: seq<Entry>, mtime: nat)
    requires |e.name| <= 100 && Short(more)
    ensures var pad := (512 - |e.data| % 512) % 512;
            Short([e] + more) && Archive([e] + more, mtime) ==
              Header(e.name, |e.data|, mtime) + e.data + Zeros(pad) + Archive(more, mtime)
    ensures Archive([], mtime) == Zeros(1024)
  {
    hide Header;
    assert ([e] + more)[1..] == more;
    assert Written([e] + more, mtime) == EntryBytes(e, mtime) + Written(more, mtime);
  }

  /** One character of a field at a time. */
  lemma FieldNext(b: byte, s: seq<byte>)
    ensures Field([]) == [] && Field([b] + s) == if b == 0 || b == 32 then [] else [b] + Field(s)
  {
    assert ([b] + s)[1..] == s;
  }

  lemma LeadingNext(b: byte, s: seq<byte>)
    ensures Leading([]) == [] && Leading([b] + s) == if 48 <= b < 56 then [b] + Leading(s) else []
  {
    assert ([b] + s)[1..] == s;
  }

  lemma TrimmedNext(b: byte, s: seq<byte>)
    ensures Trimmed([]) == [] && Trimmed([b] + s) == if 9 <= b <= 13 || b == 32 || b == 160 then Trimmed(s) else [b] + s
  {
    assert ([b] + s)[1..] == s;
  }

  /** The number read: white space, a plus sign, and the octal digits that follow; an empty field is 0. */
  lemma NumberRead(field: seq<byte>)
    ensures var s := Trimmed(Field(field));
            var t := if |s| > 0 && s[0] == 43 then s[1..] else s;
            OctalValue(field) ==
            if Field(field) == [] then Some(0) else if Leading(t) == [] then None else Some(Value(Leading(t)))
  {
  }

  /** The value of digits, the last one counting for the least. */
  lemma ValueNext(s: seq<byte>, b: byte)
    requires (forall i :: 0 <= i < |s| ==> 48 <= s[i] < 56) && 48 <= b < 56
    ensures Value([]) == 0 && Value(s + [b]) == 8 * Value(s) + (b - 48)
  {
    assert (s + [b])[..|s|] == s;
  }
}
