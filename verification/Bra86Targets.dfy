/** What the x86 converter is for: calls to one target get the same bytes wherever they stand. */
module Bra86Targets {
  import opened Arithmetic
  import opened Bytes
  import opened Bra86

  /** A near displacement: 24 bits, and the sign in the last byte. */
  function Displacement(s: seq<byte>): int
    requires |s| == 4
  {
    var a: int, b: int, c: int, d: int := s[0], s[1], s[2], s[3];
    a + 0x100 * b + 0x1_0000 * c + 0x100_0000 * (d % 2)
  }

  lemma WordMeans(s: seq<byte>)
    requires |s| == 4
    ensures WordOf(s) % 0x200_0000 == Displacement(s)
  {
    var a: int, b: int, c: int, d: int := s[0], s[1], s[2], s[3];
    assert WordOf(s) == Displacement(s) + 0x200_0000 * (d / 2);
  }

  lemma BytesMean(v: word)
    ensures var r := BytesOf(v); (r[3] == 0 || r[3] == 0xFF) && Displacement(r) == v % 0x200_0000
  {
    var w := v % 0x200_0000;
    LowPart(v, 1, 0x100, 0x2_0000, 0x200_0000);
    LowPart(v, 0x100, 0x100, 0x200, 0x200_0000);
    LowPart(v, 0x1_0000, 0x100, 2, 0x200_0000);
    LowPart(v, 0x100_0000, 2, 1, 0x200_0000);
    PartsOf(w);
    BytesAre(v);
    hide BytesOf;
  }

  lemma BytesAre(v: word)
    ensures var r := BytesOf(v);
            && r[0] as int == v % 0x100 && r[1] as int == v / 0x100 % 0x100 && r[2] as int == v / 0x1_0000 % 0x100
            && (r[3] == 0 || r[3] == 0xFF) && r[3] as int % 2 == v / 0x100_0000 % 2
  {
  }

  lemma PartsOf(w: int)
    requires 0 <= w < 0x200_0000
    ensures w == w % 0x100 + 0x100 * (w / 0x100 % 0x100) + 0x1_0000 * (w / 0x1_0000 % 0x100) + 0x100_0000 * (w / 0x100_0000)
  {
    assert w / 0x1_0000 == w / 0x100 / 0x100 && w / 0x100_0000 == w / 0x1_0000 / 0x100;
  }

  lemma MovedMeans(v: word, cur: word, encoding: bool)
    ensures Moved(v, cur, encoding) % 0x200_0000 ==
            (if encoding then v % 0x200_0000 + cur else v % 0x200_0000 - cur) % 0x200_0000
  {
    var t := if encoding then v + cur else v - cur;
    assert t == WORD * (t / WORD) + t % WORD;
    assert t % WORD == t - 0x200_0000 * (0x80 * (t / WORD));
    assert v == 0x200_0000 * (v / 0x200_0000) + v % 0x200_0000;
  }

  /** Encoding adds the address behind the instruction to what it holds, decoding takes it off again. */
  lemma ConvertedMeans(s: seq<byte>, cur: word, encoding: bool)
    requires |s| == 4
    ensures var r := Converted(s, cur, 0, encoding);
            && (r[3] == 0 || r[3] == 0xFF)
            && Displacement(r) == (if encoding then Displacement(s) + cur else Displacement(s) - cur) % 0x200_0000
  {
    hide Moved, BytesOf, WordOf, Displacement;
    WordMeans(s);
    MovedMeans(WordOf(s), cur, encoding);
    BytesMean(Moved(WordOf(s), cur, encoding));
  }

  // ---------- In a buffer ----------

  /** The run converts at p, where the mask is m. */
  predicate Converts(s: seq<byte>, mask: nat, p: nat, m: nat)
    decreases |s|
  {
    |s| >= 5 && mask < 8 &&
    var move := MoveAt(s, mask);
    if p == 0 then move.Convert? && m == mask
    else p >= Width(move) && Converts(s[Width(move)..], NextMask(mask, move), p - Width(move), m)
  }

  /** A converted instruction keeps its first byte, and holds what it held plus or minus the address behind it. */
  predicate Holds(s: seq<byte>, out: seq<byte>, p: nat, cur: int, encoding: bool) {
    && p + 5 <= |s| == |out| && out[p] == s[p] && (s[p] == 0xE8 || s[p] == 0xE9)
    && (out[p + 4] == 0 || out[p + 4] == 0xFF)
    && var from := Displacement(s[p + 1..p + 5]);
       Displacement(out[p + 1..p + 5]) == (if encoding then from + cur + p else from - cur - p) % 0x200_0000
  }

  lemma FirstMeans(s: seq<byte>, cur: word, encoding: bool)
    requires |s| >= 5 && MoveAt(s, 0).Convert?
    ensures Holds(s, Run(s, cur, 0, encoding).out, 0, cur, encoding)
  {
    assert s[0] == 0xE8 || s[0] == 0xE9;
    hide Converted, Displacement, Run, Tail, MoveAt, NextMask;
    RunParts(s, cur, 0, encoding);
    ConvertedMeans(s[1..5], cur, encoding);
    var out := Run(s, cur, 0, encoding).out;
    assert out[..5] == s[..1] + Converted(s[1..5], cur, 0, encoding);
    assert out[1..5] == out[..5][1..];
    assert out[4] == out[..5][4];
  }

  lemma HoldsLater(s: seq<byte>, out: seq<byte>, w: nat, p: nat, cur: word, encoding: bool)
    requires w <= p && w <= |s| == |out| && Holds(s[w..], out[w..], p - w, (cur + w) % WORD, encoding)
    ensures Holds(s, out, p, cur, encoding)
  {
    hide Displacement;
    Later(s, out, w, p);
    WrapsAway(Displacement(s[p + 1..p + 5]), cur, w, p, encoding);
  }

  /** Every conversion with nothing marked before it moves a displacement to its target, or back. */
  lemma {:induction false} ConvertsMeans(s: seq<byte>, cur: word, mask: nat, p: nat, encoding: bool)
    requires mask < 8 && Converts(s, mask, p, 0)
    ensures Holds(s, Run(s, cur, mask, encoding).out, p, cur, encoding)
    decreases |s|
  {
    hide MoveAt, NextMask, Run, Tail, Holds, Head;
    if p == 0 {
      FirstMeans(s, cur, encoding);
    } else {
      RunParts(s, cur, mask, encoding);
      var move := MoveAt(s, mask);
      var w := Width(move);
      ConvertsMeans(s[w..], (cur + w) % WORD, NextMask(mask, move), p - w, encoding);
      HoldsLater(s, Run(s, cur, mask, encoding).out, w, p, cur, encoding);
    }
  }

  lemma Later(s: seq<byte>, out: seq<byte>, w: nat, p: nat)
    requires w <= p && p + 5 <= |s| == |out|
    ensures s[w..][p - w + 1..p - w + 5] == s[p + 1..p + 5] && out[w..][p - w + 1..p - w + 5] == out[p + 1..p + 5]
    ensures s[w..][p - w] == s[p] && out[w..][p - w] == out[p] && out[w..][p - w + 4] == out[p + 4]
  {
  }

  lemma WrapsAway(from: int, cur: word, w: nat, p: nat, encoding: bool)
    requires w <= p
    ensures var next := (cur + w) % WORD;
            (if encoding then from + next + (p - w) else from - next - (p - w)) % 0x200_0000 ==
            (if encoding then from + cur + p else from - cur - p) % 0x200_0000
  {
    var k := (cur + w) / WORD;
    assert cur + w == WORD * k + (cur + w) % WORD;
    if encoding {
      Multiple(from + cur + p, -0x80 * k);
    } else {
      Multiple(from - cur - p, 0x80 * k);
    }
  }

  lemma Multiple(a: int, k: int)
    ensures (a + 0x200_0000 * k) % 0x200_0000 == a % 0x200_0000
  {
    var q := a / 0x200_0000;
    assert a + 0x200_0000 * k == 0x200_0000 * (q + k) + a % 0x200_0000;
  }

  /** The bytes of a converted displacement are told by its number. */
  lemma SameNumber(s: seq<byte>, t: seq<byte>)
    requires |s| == |t| == 4 && (s[3] == 0 || s[3] == 0xFF) && (t[3] == 0 || t[3] == 0xFF) && Displacement(s) == Displacement(t)
    ensures s == t
  {
    DigitsOf(s);
    DigitsOf(t);
    hide Displacement;
    assert s == [s[0], s[1], s[2], s[3]] && t == [t[0], t[1], t[2], t[3]];
  }

  lemma DigitsOf(s: seq<byte>)
    requires |s| == 4
    ensures var n := Displacement(s);
            && s[0] as int == n % 0x100 && s[1] as int == n / 0x100 % 0x100 && s[2] as int == n / 0x1_0000 % 0x100
            && s[3] as int % 2 == n / 0x100_0000
  {
    var a: int, b: int, c: int, d: int := s[0], s[1], s[2], s[3];
    var n := Displacement(s);
    QuotientIs(n, 0x100, b + 0x100 * c + 0x1_0000 * (d % 2));
    QuotientIs(n, 0x1_0000, c + 0x100 * (d % 2));
    QuotientIs(n, 0x100_0000, d % 2);
  }

  /** Two calls to the same target, at p and at q, are encoded as the same bytes: that is what helps the compressor. */
  lemma SameTarget(s: seq<byte>, cur: word, mask: nat, p: nat, q: nat)
    requires mask < 8 && Converts(s, mask, p, 0) && Converts(s, mask, q, 0)
    requires p + 5 <= |s| && q + 5 <= |s|
    requires (Displacement(s[p + 1..p + 5]) + p) % 0x200_0000 == (Displacement(s[q + 1..q + 5]) + q) % 0x200_0000
    ensures var out := Run(s, cur, mask, true).out; out[p + 1..p + 5] == out[q + 1..q + 5]
  {
    hide Run, Converts, Displacement;
    ConvertsMeans(s, cur, mask, p, true);
    ConvertsMeans(s, cur, mask, q, true);
    var a, b := Displacement(s[p + 1..p + 5]) + p, Displacement(s[q + 1..q + 5]) + q;
    SameLow(a, b, cur);
    var out := Run(s, cur, mask, true).out;
    SameNumber(out[p + 1..p + 5], out[q + 1..q + 5]);
  }

  lemma SameLow(a: int, b: int, c: int)
    requires a % 0x200_0000 == b % 0x200_0000
    ensures (a + c) % 0x200_0000 == (b + c) % 0x200_0000
  {
    Multiple(a % 0x200_0000 + c, a / 0x200_0000);
    Multiple(b % 0x200_0000 + c, b / 0x200_0000);
  }

  /** The first call or jump of a buffer is converted if its last byte is a sign, and nothing before it changes. */
  lemma {:induction false} FirstCall(s: seq<byte>, cur: word, p: nat, encoding: bool)
    requires p + 5 <= |s| && (s[p] == 0xE8 || s[p] == 0xE9) && (s[p + 4] == 0 || s[p + 4] == 0xFF)
    requires forall k :: 0 <= k < p ==> s[k] != 0xE8 && s[k] != 0xE9
    ensures Converts(s, 0, p, 0) && Run(s, cur, 0, encoding).out[..p] == s[..p]
    decreases p
  {
    hide MoveAt, NextMask, Converted, Tail, Run, Head, After;
    RunParts(s, cur, 0, encoding);
    MoveTable(s, 0);
    if p > 0 {
      FirstCall(s[1..], (cur + 1) % WORD, p - 1, encoding);
      var out := Run(s, cur, 0, encoding).out;
      assert out[..p] == out[..1] + out[1..][..p - 1];
      assert s[..p] == s[..1] + s[1..][..p - 1];
    }
  }

  /** Code without calls and jumps stays as it is. */
  lemma {:induction false} NoCalls(s: seq<byte>, cur: word, mask: nat, encoding: bool)
    requires mask < 8 && forall k :: 0 <= k < |s| - 4 ==> s[k] != 0xE8 && s[k] != 0xE9
    ensures Run(s, cur, mask, encoding).out == s
    decreases |s|
  {
    hide MoveAt, NextMask, Converted, Tail;
    if |s| >= 5 {
      MoveTable(s, mask);
      RunParts(s, cur, mask, encoding);
      NoCalls(s[1..], (cur + 1) % WORD, NextMask(mask, Skip), encoding);
      assert s == s[..1] + s[1..];
    }
  }

  // ---------- The mask ----------

  /** The moves and masks, spelled out. */
  lemma MoveTable(s: seq<byte>, mask: nat)
    requires |s| >= 5 && mask < 8
    ensures var guard := if mask == 1 then s[1] else if mask == 2 then s[2] else s[3];
            MoveAt(s, mask) ==
            if s[0] != 0xE8 && s[0] != 0xE9 then Skip
            else if s[4] != 0 && s[4] != 0xFF then Mark
            else if mask == 0 then Convert
            else if mask == 3 || mask >= 5 || guard == 0 || guard == 0xFF then Mark
            else Convert
    ensures NextMask(mask, Skip) == [0, 0, 1, 1, 2, 2, 3, 3][mask] && NextMask(mask, Mark) == [4, 4, 5, 5, 6, 6, 7, 7][mask]
    ensures NextMask(mask, Convert) == 0
  {
  }

  /** The correction inverts the bits up to those of the guarded byte. */
  lemma Corrections(v: word)
    ensures Flipped(v, 1) == v / 0x100 * 0x100 + (0xFF - v % 0x100) && GuardedByte(v, 1) == v % 0x100
    ensures Flipped(v, 2) == v / 0x1_0000 * 0x1_0000 + (0xFFFF - v % 0x1_0000) && GuardedByte(v, 2) == v / 0x100 % 0x100
    ensures Flipped(v, 4) == v / 0x100_0000 * 0x100_0000 + (0xFF_FFFF - v % 0x100_0000) && GuardedByte(v, 4) == v / 0x1_0000 % 0x100
  {
    hide Flipped, GuardedByte;
    FirstCorrection(v);
    SecondCorrection(v);
    ThirdCorrection(v);
  }

  lemma FirstCorrection(v: word)
    ensures Flipped(v, 1) == v / 0x100 * 0x100 + (0xFF - v % 0x100) && GuardedByte(v, 1) == v % 0x100
  {
  }

  lemma SecondCorrection(v: word)
    ensures Flipped(v, 2) == v / 0x1_0000 * 0x1_0000 + (0xFFFF - v % 0x1_0000) && GuardedByte(v, 2) == v / 0x100 % 0x100
  {
    assert v % 0x1_0000 / 0x100 == v / 0x100 % 0x100;
  }

  lemma ThirdCorrection(v: word)
    ensures Flipped(v, 4) == v / 0x100_0000 * 0x100_0000 + (0xFF_FFFF - v % 0x100_0000) && GuardedByte(v, 4) == v / 0x1_0000 % 0x100
  {
    assert v % 0x100_0000 / 0x1_0000 == v / 0x1_0000 % 0x100;
  }
}
