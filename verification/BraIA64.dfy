/** IA64_Convert of BraIA64.c: calls in bundles of three instructions. */
module BraIA64 {
  import opened Arithmetic
  import opened Bytes

  /** 1 << m, for the bit m at which an instruction begins in its bytes. */
  function Bit(m: nat): (b: int)
    requires 2 <= m <= 4
    ensures b == 4 || b == 8 || b == 16
  {
    if m == 2 then 4 else if m == 3 then 8 else 16
  }

  predicate IsBit(b: int) { b == 4 || b == 8 || b == 16 }

  const LOW: int := 0x10_0000
  const FIELD: int := 0x20_0000

  // ---------- One instruction ----------

  /** v & 0x8FFFFF */
  function Kept(v: int): int { v % LOW + v / 0x80_0000 % 2 * 0x80_0000 }

  /** The 21 bits of the address, in bundles: (v & 0xFFFFF) | ((v & (1 << 23)) >> 3). */
  function Address(v: int): (a: int)
    ensures 0 <= a < FIELD
  {
    v % LOW + v / 0x80_0000 % 2 * LOW
  }

  /** The address back in its place: (a + 0x700000) & 0x8FFFFF. */
  function Spread(a: int): int { Kept(a + 0x70_0000) }

  /** v <<= 4, plus or minus the address of the bundle, v >>= 4, v &= 0x1FFFFF. */
  function Moved(a: int, d: int): (r: int)
    ensures 0 <= r < FIELD
  {
    (a * 16 + d) % WORD / 16 % FIELD
  }

  lemma MovedIs(a: int, d: int)
    ensures Moved(a, d) == (a + d / 16) % FIELD
  {
    var t := a * 16 + d;
    var q := t / WORD;
    assert t == WORD * q + t % WORD;
    assert t / 16 == 0x1000_0000 * q + t % WORD / 16 == a + d / 16;
    RemainderShift(t % WORD / 16, 0x80 * q, FIELD);
  }

  lemma NegatedPart(d: int)
    ensures -d / 16 == if d % 16 == 0 then -(d / 16) else -(d / 16) - 1
  {
  }

  lemma MovedBack(a: int, d: int)
    requires 0 <= a < FIELD
    ensures Moved(Moved(a, d), -d) == a <==> d % 16 == 0
  {
    hide Moved;
    MovedIs(a, d);
    MovedIs(Moved(a, d), -d);
    NegatedPart(d);
    var s := a + d / 16;
    var q := s / FIELD;
    assert s == FIELD * q + s % FIELD;
    var e := -d / 16;
    assert s % FIELD + e == a + (if d % 16 == 0 then 0 else -1) - FIELD * q;
    RemainderShift(a + (if d % 16 == 0 then 0 else -1), -q, FIELD);
  }

  lemma SpreadIs(a: int)
    requires 0 <= a < FIELD
    ensures Spread(a) == a % LOW + a / LOW * 0x80_0000
  {
    assert a == a / LOW * LOW + a % LOW;
    if a < LOW {
      assert (a + 0x70_0000) / 0x80_0000 == 0;
      assert a + 0x70_0000 == LOW * 7 + a;
      RemainderIs(a + 0x70_0000, LOW, 7, a);
    } else {
      assert (a + 0x70_0000) / 0x80_0000 == 1;
      assert a + 0x70_0000 == LOW * 8 + (a - LOW);
      RemainderIs(a + 0x70_0000, LOW, 8, a - LOW);
    }
  }

  /** The instruction v with another address. */
  function With(v: int, a: int): int { v - Kept(v) + Spread(a) }

  /** The other bits of the instruction stay. */
  lemma WithParts(v: int, a: int)
    requires 0 <= a < FIELD && v >= 0
    ensures With(v, a) >= 0 && Address(With(v, a)) == a && With(v, a) / 0x100_0000 == v / 0x100_0000
    ensures With(v, a) - Kept(With(v, a)) == v - Kept(v)
  {
    SpreadIs(a);
    var f, mid, b, top := v % LOW, v / LOW % 8, v / 0x80_0000 % 2, v / 0x100_0000;
    assert v / LOW == v / 0x80_0000 * 8 + mid && v / 0x80_0000 == top * 2 + b;
    assert v == f + LOW * mid + 0x80_0000 * b + 0x100_0000 * top;
    var g, c := a % LOW, a / LOW;
    Digits(g, mid, c, top);
    assert With(v, a) == g + LOW * mid + 0x80_0000 * c + 0x100_0000 * top;
  }

  lemma Digits(f: int, mid: int, b: int, top: int)
    requires 0 <= f < LOW && 0 <= mid < 8 && 0 <= b < 2
    ensures var v := f + LOW * mid + 0x80_0000 * b + 0x100_0000 * top;
            v % LOW == f && v / 0x80_0000 % 2 == b && v / 0x100_0000 == top
  {
    var v := f + LOW * mid + 0x80_0000 * b + 0x100_0000 * top;
    RemainderIs(v, LOW, mid + 8 * b + 16 * top, f);
    QuotientIs(v, 0x80_0000, b + 2 * top);
    QuotientIs(v, 0x100_0000, top);
  }

  lemma AddressBack(v: int)
    requires v >= 0
    ensures With(v, Address(v)) == v
  {
    var b := v / 0x80_0000 % 2;
    SpreadIs(Address(v));
    assert Address(v) / LOW == b && Address(v) % LOW == v % LOW;
  }

  lemma WithOther(v: int, a: int, c: int)
    requires 0 <= a < FIELD && 0 <= c < FIELD && v >= 0
    ensures With(With(v, a), c) == With(v, c)
  {
    WithParts(v, a);
  }

  lemma WithInjective(v: int, a: int)
    requires 0 <= a < FIELD && v >= 0 && With(v, a) == v
    ensures a == Address(v)
  {
    WithParts(v, a);
  }

  // ---------- The bytes of an instruction ----------

  function Join(s: seq<byte>): (v: word)
    requires |s| == 5
  {
    var a: int, b: int, c: int, d: int := s[1], s[2], s[3], s[4];
    a + 0x100 * b + 0x1_0000 * c + 0x100_0000 * d
  }

  function Split(first: byte, v: word): (s: seq<byte>)
    ensures |s| == 5
  {
    [first, v % 0x100, v / 0x100 % 0x100, v / 0x1_0000 % 0x100, v / 0x100_0000]
  }

  lemma JoinSplit(first: byte, v: word)
    ensures Join(Split(first, v)) == v
  {
    assert v / 0x100 / 0x100 == v / 0x1_0000 && v / 0x1_0000 / 0x100 == v / 0x100_0000;
  }

  lemma SplitJoin(s: seq<byte>)
    requires |s| == 5
    ensures Split(s[0], Join(s)) == s
  {
    var v: int := Join(s);
    var a: int, b: int, c: int, d: int := s[1], s[2], s[3], s[4];
    assert v / 0x100 == b + 0x100 * c + 0x1_0000 * d;
    assert v / 0x1_0000 == c + 0x100 * d;
    assert v / 0x100_0000 == d;
  }

  /** A call or branch: ((p[3] >> m) & 15) == 5 && (((p[-1] | (p[0] << 8)) >> m) & 0x70) == 0. */
  predicate Selected(s: seq<byte>, bit: int)
    requires |s| == 5 && IsBit(bit)
  {
    s[4] / bit % 16 == 5 && Guard(s[0], s[1], bit) == 0
  }

  function Guard(before: int, first: int, bit: int): int
    requires IsBit(bit)
  {
    (before + 0x100 * first) / bit / 16 % 8
  }

  /** The instruction's bytes with the address moved. */
  function Replaced(s: seq<byte>, bit: int, d: int): (r: seq<byte>)
    requires |s| == 5 && IsBit(bit)
    ensures |r| == 5
  {
    RawFits(Join(s), bit, Moved(Address(Join(s) / bit), d));
    Split(s[0], Raw(Join(s), bit, Moved(Address(Join(s) / bit), d)))
  }

  /** The bits below the instruction, and the instruction with another address. */
  function Raw(raw: int, bit: int, a: int): int
    requires IsBit(bit)
  {
    raw % bit + bit * With(raw / bit, a)
  }

  lemma RawFits(raw: word, bit: int, a: int)
    requires IsBit(bit) && 0 <= a < FIELD
    ensures 0 <= Raw(raw, bit, a) < WORD
    ensures Raw(raw, bit, a) % bit == raw % bit && Raw(raw, bit, a) / bit == With(raw / bit, a)
  {
    hide With;
    var v := raw / bit;
    WithParts(v, a);
    var u := With(v, a);
    assert u < 0x100_0000 * (u / 0x100_0000) + 0x100_0000;
    if bit == 4 {
      assert u / 0x100_0000 < 0x40;
    } else if bit == 8 {
      assert u / 0x100_0000 < 0x20;
    } else {
      assert u / 0x100_0000 < 0x10;
    }
    QuotientIs(raw % bit + bit * u, bit, u);
    RemainderIs(raw % bit + bit * u, bit, u, raw % bit);
  }

  lemma TopSame(raw: word, raw': word, bit: int)
    requires IsBit(bit) && raw / bit / 0x100_0000 == raw' / bit / 0x100_0000
    ensures raw / 0x100_0000 / bit == raw' / 0x100_0000 / bit
  {
    if bit == 4 {
      assert raw / 4 / 0x100_0000 == raw / 0x400_0000 == raw / 0x100_0000 / 4;
      assert raw' / 4 / 0x100_0000 == raw' / 0x400_0000 == raw' / 0x100_0000 / 4;
    } else if bit == 8 {
      assert raw / 8 / 0x100_0000 == raw / 0x800_0000 == raw / 0x100_0000 / 8;
      assert raw' / 8 / 0x100_0000 == raw' / 0x800_0000 == raw' / 0x100_0000 / 8;
    } else {
      assert raw / 16 / 0x100_0000 == raw / 0x1000_0000 == raw / 0x100_0000 / 16;
      assert raw' / 16 / 0x100_0000 == raw' / 0x1000_0000 == raw' / 0x100_0000 / 16;
    }
  }

  /** The guarding bits are below the address. */
  lemma GuardSame(before: int, x: int, y: int, bit: int)
    requires IsBit(bit) && x % bit == y % bit
    ensures Guard(before, x, bit) == Guard(before, y, bit)
  {
    GuardLow(before, x, bit);
    GuardLow(before, y, bit);
  }

  lemma GuardLow(before: int, x: int, bit: int)
    requires IsBit(bit)
    ensures Guard(before, x, bit) == Guard(before, x % bit, bit)
  {
    var q := x / bit;
    DivisionParts(x, bit);
    var low := before + 0x100 * (x % bit);
    if bit == 4 {
      Divided(low, q, 4, 0x400);
    } else if bit == 8 {
      Divided(low, q, 8, 0x800);
    } else {
      Divided(low, q, 16, 0x1000);
    }
  }

  lemma Divided(low: int, q: int, bit: int, k: int)
    requires IsBit(bit) && k == 0x100 * bit
    ensures (low + k * q) / bit / 16 % 8 == low / bit / 16 % 8
  {
    var c := low / bit;
    DivisionParts(low, bit);
    assert low + k * q == bit * (c + 0x100 * q) + low % bit by { ScaleProduct(bit, 0x100, q); }
    QuotientIs(low + k * q, bit, c + 0x100 * q);
    QuotientIs(c + 0x100 * q, 16, c / 16 + 0x10 * q);
    RemainderShift(c / 16, 2 * q, 8);
  }

  lemma LowByte(raw: word, bit: int)
    requires IsBit(bit)
    ensures raw % 0x100 % bit == raw % bit
  {
    var q := raw / 0x100;
    DivisionParts(raw, 0x100);
    if bit == 4 {
      RemainderShift(raw % 0x100, 0x40 * q, 4);
    } else if bit == 8 {
      RemainderShift(raw % 0x100, 0x20 * q, 8);
    } else {
      RemainderShift(raw % 0x100, 0x10 * q, 16);
    }
  }

  function Window(s: seq<byte>, bit: int, x: int, encoding: bool): (r: seq<byte>)
    requires |s| == 5 && IsBit(bit)
    ensures |r| == 5
  {
    if Selected(s, bit) then Replaced(s, bit, if encoding then x else -x) else s
  }

  lemma ReplacedSelected(s: seq<byte>, bit: int, d: int)
    requires |s| == 5 && IsBit(bit) && Selected(s, bit)
    ensures Selected(Replaced(s, bit, d), bit)
    ensures Join(Replaced(s, bit, d)) == Raw(Join(s), bit, Moved(Address(Join(s) / bit), d)) && Replaced(s, bit, d)[0] == s[0]
  {
    hide With, Moved, Address, Guard, Raw;
    var raw := Join(s);
    var a := Moved(Address(raw / bit), d);
    RawFits(raw, bit, a);
    WithParts(raw / bit, a);
    var raw' := Raw(raw, bit, a);
    JoinSplit(s[0], raw');
    SplitJoin(s);
    TopSame(raw, raw', bit);
    LowByte(raw, bit);
    LowByte(raw', bit);
    GuardSame(s[0], raw % 0x100, raw' % 0x100, bit);
  }

  lemma RawTwice(raw: word, bit: int, a: int, c: int)
    requires IsBit(bit) && 0 <= a < FIELD && 0 <= c < FIELD
    ensures 0 <= Raw(raw, bit, a) < WORD && Raw(Raw(raw, bit, a), bit, c) == Raw(raw, bit, c)
    ensures Address(Raw(raw, bit, a) / bit) == a
  {
    hide With, Address;
    RawFits(raw, bit, a);
    WithParts(raw / bit, a);
    WithOther(raw / bit, a, c);
  }

  lemma RawSame(raw: word, bit: int, a: int)
    requires IsBit(bit) && 0 <= a < FIELD
    ensures Raw(raw, bit, a) == raw <==> a == Address(raw / bit)
  {
    hide With, Address;
    RawFits(raw, bit, a);
    AddressBack(raw / bit);
    DivisionParts(raw, bit);
    if With(raw / bit, a) == raw / bit {
      WithInjective(raw / bit, a);
    }
  }

  /** An instruction is restored exactly if it is no call, or the bundle's address is a multiple of 16. */
  lemma WindowBack(s: seq<byte>, bit: int, x: int, encoding: bool)
    requires |s| == 5 && IsBit(bit)
    ensures Window(Window(s, bit, x, encoding), bit, x, !encoding) == s <==> (!Selected(s, bit) || x % 16 == 0)
  {
    hide Selected, Replaced, Raw, Moved, Address, Join, Split;
    if Selected(s, bit) {
      var d := if encoding then x else -x;
      var raw := Join(s);
      var a := Address(raw / bit);
      var t := Replaced(s, bit, d);
      ReplacedSelected(s, bit, d);
      ReplacedSelected(t, bit, -d);
      RawTwice(raw, bit, Moved(a, d), Moved(Moved(a, d), -d));
      RawSame(raw, bit, Moved(Moved(a, d), -d));
      MovedBack(a, d);
      SplitJoin(s);
      SplitJoin(Replaced(t, bit, -d));
      MultipleNegated(x);
    }
  }

  lemma MultipleNegated(x: int)
    ensures -x % 16 == 0 <==> x % 16 == 0
  {
  }

  lemma IsCall(s: seq<byte>, bit: int)
    requires |s| == 5 && IsBit(bit)
    requires s[4] / bit % 16 == 5 && (s[0] + 0x100 * (s[1] as int)) / bit / 16 % 8 == 0
    ensures Selected(s, bit)
  {
  }

  /** The address and the other bits of an instruction, spelled out. */
  lemma FieldsAre(v: int, w: int, d: int)
    requires Address(w) == (Address(v) + d) % FIELD && w - Kept(w) == v - Kept(v)
    ensures var from := v % 0x10_0000 + v / 0x80_0000 % 2 * 0x10_0000;
            && w % 0x10_0000 + w / 0x80_0000 % 2 * 0x10_0000 == (from + d) % 0x20_0000
            && w - w % 0x10_0000 - w / 0x80_0000 % 2 * 0x80_0000 == v - v % 0x10_0000 - v / 0x80_0000 % 2 * 0x80_0000
  {
  }

  lemma NegatedBundles(x: int)
    requires x % 16 == 0
    ensures -x / 16 == -(x / 16)
  {
  }

  /**
   A call holds how many bundles away its target is; converted, it holds the target itself: 21
   bits, the top one apart from the others.  Nothing else of the instruction changes.
   */
  lemma CallMeans(s: seq<byte>, bit: int, x: int, encoding: bool)
    requires |s| == 5 && IsBit(bit) && x % 16 == 0
    requires s[4] / bit % 16 == 5 && (s[0] + 0x100 * (s[1] as int)) / bit / 16 % 8 == 0
    ensures var r := Window(s, bit, x, encoding);
            var v, w := Join(s) / bit, Join(r) / bit;
            var from := v % 0x10_0000 + v / 0x80_0000 % 2 * 0x10_0000;
            && w % 0x10_0000 + w / 0x80_0000 % 2 * 0x10_0000 == (if encoding then from + x / 16 else from - x / 16) % 0x20_0000
            && r[0] == s[0] && Join(r) % bit == Join(s) % bit
            && w - w % 0x10_0000 - w / 0x80_0000 % 2 * 0x80_0000 == v - v % 0x10_0000 - v / 0x80_0000 % 2 * 0x80_0000
  {
    hide With, Moved, Raw, Join, Replaced, Split, Selected, Address, Kept;
    var d := if encoding then x else -x;
    var raw: word := Join(s);
    var a := Moved(Address(raw / bit), d);
    IsCall(s, bit);
    ReplacedSelected(s, bit, d);
    RawFits(raw, bit, a);
    WithParts(raw / bit, a);
    MovedIs(Address(raw / bit), d);
    NegatedBundles(x);
    FieldsAre(raw / bit, With(raw / bit, a), d / 16);
  }

  // ---------- A bundle ----------

  /** (0x334B0000 >> (template & 0x1E)) & 3 */
  function First(template: byte): (m: nat)
    ensures m <= 3
  {
    FIRST[template / 2 % 16]
  }

  const FIRST: seq<nat> := [0, 0, 0, 0, 0, 0, 0, 0, 3, 2, 0, 1, 3, 0, 3, 0]

  const POWERS: seq<nat> := [1, 4, 0x10, 0x40, 0x100, 0x400, 0x1000, 0x4000, 0x1_0000, 0x4_0000, 0x10_0000, 0x40_0000,
                             0x100_0000, 0x400_0000, 0x1000_0000, 0x4000_0000]

  /** The constant 0x334B0000 says just that. */
  lemma FirstIs(template: byte)
    ensures First(template) == 0x334B_0000 / Pow2(template % 0x20 - template % 2) % 4
  {
    hide Pow2;
    var k := template / 2 % 16;
    assert template % 0x20 - template % 2 == 2 * k;
    Powers(k);
    assert 0x334B_0000 / 1 % 4 == 0;
    assert 0x334B_0000 / 4 % 4 == 0;
    assert 0x334B_0000 / 16 % 4 == 0;
    assert 0x334B_0000 / 64 % 4 == 0;
    assert 0x334B_0000 / 256 % 4 == 0;
    assert 0x334B_0000 / 1024 % 4 == 0;
    assert 0x334B_0000 / 4096 % 4 == 0;
    assert 0x334B_0000 / 16384 % 4 == 0;
    assert 0x334B_0000 / 65536 % 4 == 3;
    assert 0x334B_0000 / 262144 % 4 == 2;
    assert 0x334B_0000 / 1048576 % 4 == 0;
    assert 0x334B_0000 / 4194304 % 4 == 1;
    assert 0x334B_0000 / 16777216 % 4 == 3;
    assert 0x334B_0000 / 67108864 % 4 == 0;
    assert 0x334B_0000 / 268435456 % 4 == 3;
    assert 0x334B_0000 / 1073741824 % 4 == 0;
  }

  lemma {:induction false} Powers(k: nat)
    requires k < 16
    ensures Pow2(2 * k) == POWERS[k]
  {
    if k > 0 {
      Powers(k - 1);
      assert Pow2(2 * k) == 2 * Pow2(2 * k - 1) == 4 * Pow2(2 * (k - 1));
    }
  }

  /** The bytes of instruction m - 1 of a bundle, and the byte before them. */
  function Slice(s: seq<byte>, m: nat): (r: seq<byte>)
    requires |s| == 16 && 2 <= m <= 4
    ensures |r| == 5
  {
    s[5 * m - 9..5 * m - 4]
  }

  /** Where the instructions of a bundle are, behind its template: 41 bits each, five bits on. */
  lemma SlicesAt(s: seq<byte>)
    requires |s| == 16
    ensures Slice(s, 2) == s[1..6] && Slice(s, 3) == s[6..11] && Slice(s, 4) == s[11..16]
    ensures Bit(2) == 4 && Bit(3) == 8 && Bit(4) == 16
  {
  }

  /** The instruction m - 1 after the conversion of the instructions before m'. */
  function Part(s: seq<byte>, m: nat, m': nat, x: int, encoding: bool): (r: seq<byte>)
    requires |s| == 16 && 2 <= m <= 4
    ensures |r| == 5
  {
    if m < m' && 0 < First(s[0]) < m then Window(Slice(s, m), Bit(m), x, encoding) else Slice(s, m)
  }

  function Partly(s: seq<byte>, m: nat, x: int, encoding: bool): (r: seq<byte>)
    requires |s| == 16
    ensures |r| == 16
  {
    s[..1] + Part(s, 2, m, x, encoding) + Part(s, 3, m, x, encoding) + Part(s, 4, m, x, encoding)
  }

  function Bundle(s: seq<byte>, x: int, encoding: bool): (r: seq<byte>)
    requires |s| == 16
    ensures |r| == 16
  {
    Partly(s, 5, x, encoding)
  }

  /** Instruction m - 1 is a call that is converted. */
  predicate Calls(s: seq<byte>, m: nat)
    requires |s| == 16 && 2 <= m <= 4
  {
    0 < First(s[0]) < m && Selected(Slice(s, m), Bit(m))
  }

  predicate HasCall(s: seq<byte>)
    requires |s| == 16
  {
    Calls(s, 2) || Calls(s, 3) || Calls(s, 4)
  }

  lemma PartlySlices(s: seq<byte>, m: nat, x: int, encoding: bool)
    requires |s| == 16
    ensures var r := Partly(s, m, x, encoding);
            && r[0] == s[0] && Slice(r, 2) == Part(s, 2, m, x, encoding)
            && Slice(r, 3) == Part(s, 3, m, x, encoding) && Slice(r, 4) == Part(s, 4, m, x, encoding)
  {
    hide Part, First;
  }

  lemma SlicesMake(s: seq<byte>, t: seq<byte>)
    requires |s| == |t| == 16 && s[0] == t[0]
    ensures s == t <==> Slice(s, 2) == Slice(t, 2) && Slice(s, 3) == Slice(t, 3) && Slice(s, 4) == Slice(t, 4)
  {
    assert s == s[..1] + Slice(s, 2) + Slice(s, 3) + Slice(s, 4);
    assert t == t[..1] + Slice(t, 2) + Slice(t, 3) + Slice(t, 4);
    assert s[..1] == t[..1];
  }

  lemma PartBack(s: seq<byte>, t: seq<byte>, m: nat, x: int, encoding: bool)
    requires |s| == |t| == 16 && 2 <= m <= 4 && s[0] == t[0] && Slice(t, m) == Part(s, m, 5, x, encoding)
    ensures Part(t, m, 5, x, !encoding) == Slice(s, m) <==> (!Calls(s, m) || x % 16 == 0)
  {
    hide First, Window, Slice, Selected;
    if 0 < First(s[0]) < m {
      WindowBack(Slice(s, m), Bit(m), x, encoding);
    }
  }

  lemma BundleBack(s: seq<byte>, x: int, encoding: bool)
    requires |s| == 16
    ensures Bundle(Bundle(s, x, encoding), x, !encoding) == s <==> (x % 16 == 0 || !HasCall(s))
  {
    hide Part, Slice, Partly, Calls;
    var t := Bundle(s, x, encoding);
    PartlySlices(s, 5, x, encoding);
    PartBack(s, t, 2, x, encoding);
    PartBack(s, t, 3, x, encoding);
    PartBack(s, t, 4, x, encoding);
    PartlySlices(t, 5, x, !encoding);
    SlicesMake(Bundle(t, x, !encoding), s);
  }

  // ---------- A buffer ----------

  function Filtered(s: seq<byte>, x: int, encoding: bool): (r: seq<byte>)
    ensures |r| == |s|
  {
    if |s| < 16 then s else Bundle(s[..16], x, encoding) + Filtered(s[16..], x + 16, encoding)
  }

  predicate Plain(s: seq<byte>) {
    |s| < 16 || (!HasCall(s[..16]) && Plain(s[16..]))
  }

  /** Converting back restores the buffer if and only if the address is a multiple of 16, or there is no call. */
  lemma {:induction false} FilteredBack(s: seq<byte>, x: int, encoding: bool)
    ensures Filtered(Filtered(s, x, encoding), x, !encoding) == s <==> (x % 16 == 0 || Plain(s))
  {
    hide Bundle, HasCall;
    if |s| >= 16 {
      var t := Filtered(s, x, encoding);
      var head, tail := Bundle(s[..16], x, encoding), Filtered(s[16..], x + 16, encoding);
      assert t[..16] == head && t[16..] == tail;
      BundleBack(s[..16], x, encoding);
      FilteredBack(s[16..], x + 16, encoding);
      assert s == s[..16] + s[16..];
      var u := Filtered(t, x, !encoding);
      assert u == Bundle(head, x, !encoding) + Filtered(tail, x + 16, !encoding);
      assert u[..16] == Bundle(head, x, !encoding) && u[16..] == Filtered(tail, x + 16, !encoding);
    }
  }

  /** A buffer converted in pieces of whole bundles is converted as a whole. */
  lemma {:induction false} FilteredPieces(a: seq<byte>, b: seq<byte>, x: int, encoding: bool)
    requires |a| % 16 == 0
    ensures Filtered(a + b, x, encoding) == Filtered(a, x, encoding) + Filtered(b, x + |a|, encoding)
  {
    hide Bundle;
    if a == [] {
      assert a + b == b;
    } else {
      assert (a + b)[..16] == a[..16] && (a + b)[16..] == a[16..] + b;
      FilteredPieces(a[16..], b, x + 16, encoding);
    }
  }

  // ---------- In place ----------

  lemma FilteredNext(s: seq<byte>, i: nat, x: int, encoding: bool)
    requires i + 16 <= |s| && i % 16 == 0
    ensures Filtered(s[..i + 16], x, encoding) == Filtered(s[..i], x, encoding) + Bundle(s[i..i + 16], x + i, encoding)
  {
    hide Bundle;
    var one := s[i..i + 16];
    assert s[..i + 16] == s[..i] + one;
    FilteredPieces(s[..i], one, x, encoding);
    assert one[..16] == one;
    assert Filtered(one, x + i, encoding) == Bundle(one, x + i, encoding) + Filtered(one[16..], x + i + 16, encoding);
  }

  /** Before the first instruction that counts, nothing changes. */
  lemma PartlyStart(s: seq<byte>, x: int, encoding: bool)
    requires |s| == 16
    ensures Partly(s, First(s[0]) + 1, x, encoding) == s
    ensures First(s[0]) == 0 ==> Bundle(s, x, encoding) == s
  {
    hide First, Window, Slice;
    SlicesMake(s, s);
    assert s[..1] + Slice(s, 2) + Slice(s, 3) + Slice(s, 4) == s by { hide *; SlicesAll(s); }
  }

  lemma SlicesAll(s: seq<byte>)
    requires |s| == 16
    ensures s[..1] + Slice(s, 2) + Slice(s, 3) + Slice(s, 4) == s
  {
  }

  /** One more instruction converted. */
  lemma PartlyNext(s: seq<byte>, m: nat, x: int, encoding: bool)
    requires |s| == 16 && 2 <= m <= 4 && 0 < First(s[0]) < m
    ensures var r := Partly(s, m, x, encoding);
            Partly(s, m + 1, x, encoding) ==
            r[..5 * m - 9] + Window(Slice(r, m), Bit(m), x, encoding) + r[5 * m - 4..]
  {
    hide First, Window;
    var r := Partly(s, m, x, encoding);
    PartlySlices(s, m, x, encoding);
    var t := Partly(s, m + 1, x, encoding);
    PartlySlices(s, m + 1, x, encoding);
    var u := r[..5 * m - 9] + Window(Slice(r, m), Bit(m), x, encoding) + r[5 * m - 4..];
    assert Slice(u, m) == Window(Slice(r, m), Bit(m), x, encoding);
    assert m != 2 ==> Slice(u, 2) == Slice(r, 2);
    assert m != 3 ==> Slice(u, 3) == Slice(r, 3);
    assert m != 4 ==> Slice(u, 4) == Slice(r, 4);
    SlicesMake(t, u);
  }

  method Put(data: array<byte>, at: nat, r: seq<byte>)
    requires |r| == 5 && at + 5 <= data.Length
    modifies data
    ensures data[..] == old(data[..])[..at] + r + old(data[..])[at + 5..]
  {
    data[at], data[at + 1], data[at + 2], data[at + 3], data[at + 4] := r[0], r[1], r[2], r[3], r[4];
  }

  /** The bundle at i, in place. */
  method ConvertBundle(data: array<byte>, i: nat, x: int, encoding: bool, ghost before: seq<byte>, ghost s: seq<byte>, ghost after: seq<byte>)
    requires data[..] == before + s + after && |before| == i && |s| == 16
    modifies data
    ensures data[..] == before + Bundle(s, x, encoding) + after
  {
    hide First, Bundle, Window, Partly, Slice, Bit;
    PartlyStart(s, x, encoding);
    FirstBound(s[0]);
    InBundleFirst(before, s, after);
    var m := First(data[i]);
    if m != 0 {
      m := m + 1;
      while m <= 4
        invariant 0 < First(s[0]) < m <= 5
        invariant data[..] == before + Partly(s, m, x, encoding) + after
      {
        ConvertSlot(data, i, m, x, encoding, before, Partly(s, m, x, encoding), after);
        PartlyNext(s, m, x, encoding);
        m := m + 1;
      }
      BundleIs(s, x, encoding);
    }
  }

  /** One instruction of the bundle r at i, in place. */
  method ConvertSlot(data: array<byte>, i: nat, m: nat, x: int, encoding: bool, ghost before: seq<byte>, ghost r: seq<byte>, ghost after: seq<byte>)
    requires data[..] == before + r + after && |before| == i && |r| == 16 && 2 <= m <= 4
    modifies data
    ensures data[..] == before + (r[..5 * m - 9] + Window(Slice(r, m), Bit(m), x, encoding) + r[5 * m - 4..]) + after
  {
    hide Window, Slice, Bit;
    BitBit(m);
    var at := i + 5 * m - 9;
    ghost var d := data[..];
    InBundle(d, at, before, r, after, m);
    var w := Window(data[at..at + 5], Bit(m), x, encoding);
    InBundlePut(d, at, before, r, after, m, w);
    Put(data, at, w);
  }

  lemma InBundleFirst(before: seq<byte>, s: seq<byte>, after: seq<byte>)
    requires |s| == 16
    ensures (before + s + after)[|before|] == s[0]
  {
  }

  lemma FirstBound(template: byte)
    ensures First(template) <= 3
  {
  }

  lemma BundleIs(s: seq<byte>, x: int, encoding: bool)
    requires |s| == 16
    ensures Bundle(s, x, encoding) == Partly(s, 5, x, encoding)
  {
  }

  lemma BitBit(m: nat)
    requires 2 <= m <= 4
    ensures IsBit(Bit(m))
  {
  }

  lemma InBundle(d: seq<byte>, at: nat, before: seq<byte>, r: seq<byte>, after: seq<byte>, m: nat)
    requires d == before + r + after && |r| == 16 && 2 <= m <= 4 && at == |before| + 5 * m - 9
    ensures at + 5 <= |d| && d[at..at + 5] == Slice(r, m)
  {
  }

  lemma InBundlePut(d: seq<byte>, at: nat, before: seq<byte>, r: seq<byte>, after: seq<byte>, m: nat, w: seq<byte>)
    requires d == before + r + after && |r| == 16 && 2 <= m <= 4 && |w| == 5 && at == |before| + 5 * m - 9
    ensures d[..at] + w + d[at + 5..] == before + (r[..5 * m - 9] + w + r[5 * m - 4..]) + after
  {
  }

  /** The first i bytes are converted, the others are as they were. */
  ghost predicate OnTheWay(d: seq<byte>, was: seq<byte>, i: nat, x: int, encoding: bool) {
    i <= |was| && i % 16 == 0 && d == Filtered(was[..i], x, encoding) + was[i..]
  }

  lemma WayStart(d: seq<byte>, x: int, encoding: bool)
    ensures OnTheWay(d, d, 0, x, encoding)
  {
    assert d[..0] == [] && d == [] + d[0..];
  }

  lemma WayParts(d: seq<byte>, was: seq<byte>, i: nat, x: int, encoding: bool)
    requires OnTheWay(d, was, i, x, encoding) && i + 16 <= |was|
    ensures |Filtered(was[..i], x, encoding)| == i
    ensures d == Filtered(was[..i], x, encoding) + was[i..i + 16] + was[i + 16..]
  {
    hide Filtered;
    assert was[i..] == was[i..i + 16] + was[i + 16..];
  }

  lemma WayNext(was: seq<byte>, i: nat, x: int, encoding: bool)
    requires i + 16 <= |was| && i % 16 == 0
    ensures OnTheWay(Filtered(was[..i], x, encoding) + Bundle(was[i..i + 16], x + i, encoding) + was[i + 16..],
                     was, i + 16, x, encoding)
  {
    hide Filtered, Bundle;
    FilteredNext(was, i, x, encoding);
  }

  method IA64Convert(data: array<byte>, size: nat, ip: word, encoding: bool) returns (processed: nat)
    requires size <= data.Length
    modifies data
    ensures processed == size - size % 16
    ensures data[..] == Filtered(old(data[..processed]), ip, encoding) + old(data[processed..])
  {
    hide Bundle, Filtered, OnTheWay;
    var i: nat := 0;
    ghost var was := data[..];
    WayStart(was, ip, encoding);
    if size >= 16 {
      while i <= size - 16
        invariant i <= size && i % 16 == 0 && OnTheWay(data[..], was, i, ip, encoding)
      {
        WayParts(data[..], was, i, ip, encoding);
        ConvertBundle(data, i, ip + i, encoding, Filtered(was[..i], ip, encoding), was[i..i + 16], was[i + 16..]);
        WayNext(was, i, ip, encoding);
        i := i + 16;
      }
    }
    processed := i;
    WayEnd(data[..], was, i, ip, encoding);
    assert old(data[..processed]) == was[..processed] && old(data[processed..]) == was[processed..];
  }

  lemma WayEnd(d: seq<byte>, was: seq<byte>, i: nat, x: int, encoding: bool)
    requires OnTheWay(d, was, i, x, encoding)
    ensures i <= |was| && d == Filtered(was[..i], x, encoding) + was[i..]
  {
  }
}
