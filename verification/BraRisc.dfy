/** The branch converters of Bra.c for processors with four-byte instructions: ARM, PPC and SPARC. */
module BraRisc {
  import opened Bytes

  datatype Cpu = ARM | PPC | SPARC

  // ---------- Words ----------

  function Join(a: byte, b: byte, c: byte, d: byte): (v: word) {
    a + 0x100 * b + 0x1_0000 * c + 0x100_0000 * d
  }

  /** GetUi32 for ARM, GetBe32 for the others. */
  function Load(cpu: Cpu, s: seq<byte>): (v: word)
    requires |s| == 4
  {
    if cpu.ARM? then Join(s[0], s[1], s[2], s[3]) else Join(s[3], s[2], s[1], s[0])
  }

  /** SetUi32, SetBe32 */
  function Store(cpu: Cpu, v: word): (s: seq<byte>)
    ensures |s| == 4
  {
    var a, b, c, d := v % 0x100, v / 0x100 % 0x100, v / 0x1_0000 % 0x100, v / 0x100_0000;
    if cpu.ARM? then [a, b, c, d] else [d, c, b, a]
  }

  lemma DigitsOfJoin(a: byte, b: byte, c: byte, d: byte)
    ensures var v: int := Join(a, b, c, d);
            v % 0x100 == a && v / 0x100 % 0x100 == b && v / 0x1_0000 % 0x100 == c && v / 0x100_0000 == d
  {
    var v: int := Join(a, b, c, d);
    assert v / 0x100 == b + 0x100 * c + 0x1_0000 * d;
    assert v / 0x1_0000 == c + 0x100 * d;
  }

  lemma StoreLoad(cpu: Cpu, s: seq<byte>)
    requires |s| == 4
    ensures Store(cpu, Load(cpu, s)) == s
  {
    DigitsOfJoin(s[0], s[1], s[2], s[3]);
    DigitsOfJoin(s[3], s[2], s[1], s[0]);
  }

  lemma LoadStore(cpu: Cpu, v: word)
    ensures Load(cpu, Store(cpu, v)) == v
  {
    assert v / 0x100 / 0x100 == v / 0x1_0000 && v / 0x1_0000 / 0x100 == v / 0x100_0000;
  }

  // ---------- Which instructions are branches ----------

  predicate Selected(cpu: Cpu, s: seq<byte>)
    requires |s| == 4
  {
    match cpu
    case ARM => s[3] == 0xEB
    case PPC => s[0] / 4 * 4 == 0x48 && s[3] % 4 == 1
    case SPARC => (s[0] == 0x40 && s[1] < 0x40) || (s[0] == 0x7F && s[1] >= 0xC0)
  }

  /** The same, of the word. */
  predicate IsBranch(cpu: Cpu, v: word) {
    match cpu
    case ARM => v / 0x100_0000 == 0xEB
    case PPC => v / 0x400_0000 == 0x12 && v % 4 == 1
    case SPARC => v / 0x40_0000 == 0x100 || v / 0x40_0000 == 0x1FF
  }

  lemma SelectedIsBranch(cpu: Cpu, s: seq<byte>)
    requires |s| == 4
    ensures Selected(cpu, s) <==> IsBranch(cpu, Load(cpu, s))
  {
  }

  // ---------- The address ----------

  /** Shift up by two, add, shift down, keep 24 bits, and put the opcode back. */
  function Arm(v: word, d: int): word {
    (v * 4 + d) % WORD / 4 % 0x100_0000 + 0xEB00_0000
  }

  function Ppc(v: word, d: int): word {
    (v + d) % WORD % 0x400_0000 + 0x4800_0000
  }

  /** v ^ 0xFF000000 */
  function FlipTop(v: word): word {
    v % 0x100_0000 + (0xFF - v / 0x100_0000) * 0x100_0000
  }

  function Sparc(v: word, d: int): word {
    FlipTop(((v * 4 + d) % WORD % 0x200_0000 - 0x100_0000) % WORD) / 4 + 0x4000_0000
  }

  /** The converted instruction: d is the address, or its negation when decoding. */
  function Target(cpu: Cpu, v: word, d: int): word {
    match cpu
    case ARM => Arm(v, d)
    case PPC => Ppc(v, d)
    case SPARC => Sparc(v, d)
  }

  /** Of an address that is added above the last two bits, only its quarter counts. */
  lemma FourTimes(v: int, d: int)
    ensures (v * 4 + d) / 4 == v + d / 4
  {
  }

  lemma NegatedQuarter(d: int)
    ensures -d / 4 == if d % 4 == 0 then -(d / 4) else -(d / 4) - 1
  {
  }

  lemma Dropped24(t: int)
    ensures t % WORD / 4 % 0x100_0000 == t / 4 % 0x100_0000
  {
    var q := t / WORD;
    assert t == WORD * q + t % WORD;
    assert t / 4 == 0x4000_0000 * q + t % WORD / 4;
  }

  lemma ArmIs(v: word, d: int)
    ensures Arm(v, d) == (v + d / 4) % 0x100_0000 + 0xEB00_0000
  {
    Dropped24(v * 4 + d);
    FourTimes(v, d);
  }

  lemma ArmBack(v: word, d: int)
    requires IsBranch(ARM, v)
    ensures IsBranch(ARM, Arm(v, d)) && (Arm(Arm(v, d), -d) == v <==> d % 4 == 0)
  {
    hide Arm;
    ArmIs(v, d);
    ArmIs(Arm(v, d), -d);
    NegatedQuarter(d);
  }

  lemma PpcIs(v: word, d: int)
    ensures Ppc(v, d) == (v + d) % 0x400_0000 + 0x4800_0000
  {
    var t: int := v + d;
    assert t == WORD * (t / WORD) + t % WORD;
    assert t % WORD == t - 0x400_0000 * (0x40 * (t / WORD));
  }

  lemma PpcBack(v: word, d: int)
    requires IsBranch(PPC, v)
    ensures IsBranch(PPC, Ppc(v, d)) <==> d % 4 == 0
    ensures d % 4 == 0 ==> Ppc(Ppc(v, d), -d) == v
  {
    hide Ppc, IsBranch;
    PpcIs(v, d);
    PpcIs(Ppc(v, d), -d);
    PpcLastTwo(v, d);
    PpcSumBack(v, d);
  }

  lemma PpcLastTwo(v: word, d: int)
    requires IsBranch(PPC, v)
    ensures IsBranch(PPC, (v + d) % 0x400_0000 + 0x4800_0000) <==> d % 4 == 0
  {
    var f := (v + d) % 0x400_0000;
    SameLastTwo(v + d, (v + d) / 0x400_0000, f);
    SameLastTwo(f + 0x4800_0000, 0, f + 0x4800_0000);
    TwelveFirst(f);
    OneMore(v, d);
  }

  lemma SameLastTwo(t: int, q: int, f: int)
    requires t == 0x400_0000 * q + f
    ensures t % 4 == f % 4 && (f + 0x4800_0000) % 4 == f % 4
  {
  }

  lemma TwelveFirst(f: int)
    requires 0 <= f < 0x400_0000
    ensures (f + 0x4800_0000) / 0x400_0000 == 0x12
  {
  }

  lemma OneMore(v: int, d: int)
    requires v % 4 == 1
    ensures (v + d) % 4 == 1 <==> d % 4 == 0
  {
  }

  lemma PpcSumBack(v: word, d: int)
    requires IsBranch(PPC, v)
    ensures ((v + d) % 0x400_0000 + 0x4800_0000 - d) % 0x400_0000 + 0x4800_0000 == v
  {
    var q, f := (v + d) / 0x400_0000, (v + d) % 0x400_0000;
    assert v + d == 0x400_0000 * q + f;
    assert f + 0x4800_0000 - d == v - 0x400_0000 * q + 0x4800_0000;
    assert v == 0x4800_0000 + v % 0x400_0000;
  }

  /** A number of 23 bits, its top bit repeated, in a SPARC call or branch. */
  function Extended(f: int): word {
    var g := f % 0x80_0000;
    if g < 0x40_0000 then 0x4000_0000 + g else 0x7F80_0000 + g
  }

  lemma FlipSpread(u: int)
    requires 0 <= u < 0x200_0000
    ensures FlipTop((u - 0x100_0000) % WORD) / 4 + 0x4000_0000 == Extended(u / 4)
  {
    if u < 0x100_0000 {
      assert (u - 0x100_0000) % WORD == u + 0xFF00_0000;
      assert FlipTop(u + 0xFF00_0000) == u;
    } else {
      assert (u - 0x100_0000) % WORD == u - 0x100_0000;
      assert FlipTop(u - 0x100_0000) == u - 0x100_0000 + 0xFF00_0000;
    }
  }

  lemma Dropped25(t: int)
    ensures t % WORD % 0x200_0000 / 4 == t / 4 % 0x80_0000
  {
    var q := t / WORD;
    assert t == WORD * q + t % WORD;
    assert t % WORD % 0x200_0000 == t % 0x200_0000;
    var r := t / 0x200_0000;
    assert t == 0x200_0000 * r + t % 0x200_0000;
    assert t / 4 == 0x80_0000 * r + t % 0x200_0000 / 4;
  }

  lemma ExtendedLow(f: int)
    ensures Extended(f % 0x80_0000) == Extended(f)
  {
  }

  lemma SparcIs(v: word, d: int)
    ensures Sparc(v, d) == Extended(v + d / 4)
  {
    hide FlipTop, Extended;
    var t: int := v * 4 + d;
    FlipSpread(t % WORD % 0x200_0000);
    Dropped25(t);
    FourTimes(v, d);
    ExtendedLow(v + d / 4);
  }

  lemma ExtendedSum(f: int, g: int)
    ensures IsBranch(SPARC, Extended(f)) && Extended(Extended(f) + g) == Extended(f + g)
  {
  }

  lemma BranchIsExtended(v: word)
    requires IsBranch(SPARC, v)
    ensures Extended(v) == v && Extended(v - 1) != v
  {
  }

  lemma SparcBack(v: word, d: int)
    requires IsBranch(SPARC, v)
    ensures IsBranch(SPARC, Sparc(v, d)) && (Sparc(Sparc(v, d), -d) == v <==> d % 4 == 0)
  {
    hide Sparc, Extended, IsBranch;
    SparcIs(v, d);
    SparcIs(Sparc(v, d), -d);
    NegatedQuarter(d);
    ExtendedSum(v + d / 4, -d / 4);
    BranchIsExtended(v);
  }

  /** A branch is restored exactly if its address is a multiple of four; otherwise what the sum drops is lost. */
  lemma TargetBack(cpu: Cpu, v: word, d: int)
    requires IsBranch(cpu, v)
    ensures var w := Target(cpu, v, d);
            d % 4 == 0 <==> (if IsBranch(cpu, w) then Target(cpu, w, -d) else w) == v
  {
    hide Arm, Ppc, Sparc, IsBranch;
    match cpu
    case ARM => ArmBack(v, d);
    case PPC => PpcBack(v, d);
    case SPARC => SparcBack(v, d);
  }

  // ---------- One instruction ----------

  function Converted(cpu: Cpu, s: seq<byte>, x: int, encoding: bool): (r: seq<byte>)
    requires |s| == 4
    ensures |r| == 4
  {
    if Selected(cpu, s) then Store(cpu, Target(cpu, Load(cpu, s), if encoding then x else -x)) else s
  }

  lemma ConvertedBack(cpu: Cpu, s: seq<byte>, x: int, encoding: bool)
    requires |s| == 4
    ensures Converted(cpu, Converted(cpu, s, x, encoding), x, !encoding) == s <==> (!Selected(cpu, s) || x % 4 == 0)
  {
    hide Load, Store, Target, IsBranch, Selected;
    SelectedIsBranch(cpu, s);
    if Selected(cpu, s) {
      var d := if encoding then x else -x;
      var v := Load(cpu, s);
      var w := Target(cpu, v, d);
      StoreLoad(cpu, s);
      LoadStore(cpu, w);
      LoadStore(cpu, Target(cpu, w, -d));
      SelectedIsBranch(cpu, Store(cpu, w));
      TargetBack(cpu, v, d);
      NegatedMultiple(x);
    }
  }

  lemma NegatedMultiple(x: int)
    ensures -x % 4 == 0 <==> x % 4 == 0
  {
  }

  // ---------- A buffer ----------

  /** The buffer converted; x is the address that its first instruction counts from. */
  function Filtered(cpu: Cpu, s: seq<byte>, x: int, encoding: bool): (r: seq<byte>)
    ensures |r| == |s|
  {
    if |s| < 4 then s else Converted(cpu, s[..4], x, encoding) + Filtered(cpu, s[4..], x + 4, encoding)
  }

  /** No instruction of the buffer is a branch. */
  predicate Plain(cpu: Cpu, s: seq<byte>) {
    |s| < 4 || (!Selected(cpu, s[..4]) && Plain(cpu, s[4..]))
  }

  /**
   Converting back restores the buffer if and only if the start address is a multiple of four,
   or there was nothing to convert.
   */
  lemma {:induction false} FilteredBack(cpu: Cpu, s: seq<byte>, x: int, encoding: bool)
    ensures Filtered(cpu, Filtered(cpu, s, x, encoding), x, !encoding) == s <==> (x % 4 == 0 || Plain(cpu, s))
  {
    hide Converted, Selected;
    if |s| >= 4 {
      var t := Filtered(cpu, s, x, encoding);
      var head, tail := Converted(cpu, s[..4], x, encoding), Filtered(cpu, s[4..], x + 4, encoding);
      assert t[..4] == head && t[4..] == tail;
      ConvertedBack(cpu, s[..4], x, encoding);
      FilteredBack(cpu, s[4..], x + 4, encoding);
      assert s == s[..4] + s[4..];
      var u := Filtered(cpu, t, x, !encoding);
      assert u == Converted(cpu, head, x, !encoding) + Filtered(cpu, tail, x + 4, !encoding);
      assert u[..4] == Converted(cpu, head, x, !encoding) && u[4..] == Filtered(cpu, tail, x + 4, !encoding);
    }
  }

  /** A buffer converted in pieces of whole instructions is converted as a whole. */
  lemma {:induction false} FilteredPieces(cpu: Cpu, a: seq<byte>, b: seq<byte>, x: int, encoding: bool)
    requires |a| % 4 == 0
    ensures Filtered(cpu, a + b, x, encoding) == Filtered(cpu, a, x, encoding) + Filtered(cpu, b, x + |a|, encoding)
  {
    hide Converted;
    if a == [] {
      assert a + b == b;
    } else {
      assert (a + b)[..4] == a[..4] && (a + b)[4..] == a[4..] + b;
      FilteredPieces(cpu, a[4..], b, x + 4, encoding);
    }
  }

  // ---------- What the conversion is for ----------

  /** The instructions of the buffer, each with its own address. */
  lemma {:induction false} FilteredAt(cpu: Cpu, s: seq<byte>, x: int, encoding: bool, i: nat)
    requires 4 * i + 4 <= |s|
    ensures Filtered(cpu, s, x, encoding)[4 * i..4 * i + 4] == Converted(cpu, s[4 * i..4 * i + 4], x + 4 * i, encoding)
    decreases i
  {
    hide Converted;
    var r := Filtered(cpu, s, x, encoding);
    var head, tail := Converted(cpu, s[..4], x, encoding), Filtered(cpu, s[4..], x + 4, encoding);
    assert r == head + tail;
    if i > 0 {
      FilteredAt(cpu, s[4..], x + 4, encoding, i - 1);
      assert r[4 * i..4 * i + 4] == tail[4 * (i - 1)..4 * (i - 1) + 4];
      assert s[4..][4 * (i - 1)..4 * (i - 1) + 4] == s[4 * i..4 * i + 4];
    }
  }

  /** The bytes as a number, the first one lowest or highest. */
  function Low(s: seq<byte>): int
    requires |s| == 4
  {
    var a: int, b: int, c: int, d: int := s[0], s[1], s[2], s[3];
    a + 0x100 * b + 0x1_0000 * c + 0x100_0000 * d
  }

  function High(s: seq<byte>): int
    requires |s| == 4
  {
    var a: int, b: int, c: int, d: int := s[0], s[1], s[2], s[3];
    d + 0x100 * c + 0x1_0000 * b + 0x100_0000 * a
  }

  /** A branch holds where it leads from its address; converted, it holds where it leads to. */
  lemma ArmMeans(s: seq<byte>, x: int, encoding: bool)
    requires |s| == 4 && x % 4 == 0
    ensures var r := Converted(ARM, s, x, encoding);
            if s[3] == 0xEB then
              r[3] == 0xEB && (Low(r) - (if encoding then Low(s) + x / 4 else Low(s) - x / 4)) % 0x100_0000 == 0
            else r == s
  {
    if s[3] == 0xEB {
      var v, d := Load(ARM, s), if encoding then x else -x;
      SelectedIsBranch(ARM, s);
      LoadStore(ARM, Arm(v, d));
      ArmIs(v, d);
      hide Arm, Store;
      assert -x / 4 == -(x / 4);
      ArmSum(v, d / 4);
      DigitsOfJoin(Store(ARM, Arm(v, d))[0], Store(ARM, Arm(v, d))[1], Store(ARM, Arm(v, d))[2], Store(ARM, Arm(v, d))[3]);
    }
  }

  lemma ArmSum(v: int, q: int)
    ensures var w := (v + q) % 0x100_0000 + 0xEB00_0000; (w - (v + q)) % 0x100_0000 == 0 && w / 0x100_0000 == 0xEB
  {
    var k := (v + q) / 0x100_0000;
    assert v + q == 0x100_0000 * k + (v + q) % 0x100_0000;
  }

  lemma PpcMeans(s: seq<byte>, x: int, encoding: bool)
    requires |s| == 4
    ensures High(Converted(PPC, s, x, encoding)) ==
            if 0x48 <= s[0] < 0x4C && s[3] % 4 == 1 then 0x4800_0000 + (if encoding then High(s) + x else High(s) - x) % 0x400_0000
            else High(s)
  {
    if 0x48 <= s[0] < 0x4C && s[3] % 4 == 1 {
      var v, d := Load(PPC, s), if encoding then x else -x;
      LoadStore(PPC, Ppc(v, d));
      PpcIs(v, d);
    }
    hide Ppc, Store;
  }

  /** A number of 23 bits whose top bit is the sign. */
  lemma SparcMeans(s: seq<byte>, x: int, encoding: bool)
    requires |s| == 4 && x % 4 == 0
    ensures var to := (if encoding then High(s) + x / 4 else High(s) - x / 4) % 0x80_0000;
            High(Converted(SPARC, s, x, encoding)) ==
            if (s[0] == 0x40 && s[1] < 0x40) || (s[0] == 0x7F && s[1] >= 0xC0) then
              if to < 0x40_0000 then 0x4000_0000 + to else 0x7F80_0000 + to
            else High(s)
  {
    if (s[0] == 0x40 && s[1] < 0x40) || (s[0] == 0x7F && s[1] >= 0xC0) {
      var v, d := Load(SPARC, s), if encoding then x else -x;
      LoadStore(SPARC, Sparc(v, d));
      SparcIs(v, d);
      assert -x / 4 == -(x / 4);
    }
    hide Sparc, Store;
  }

  /** What the source adds to ip + (p - data) once p is behind the instruction. */
  function Ahead(cpu: Cpu): int { if cpu.ARM? then 8 else 0 }

  /** ARM_Convert, PPC_Convert and SPARC_Convert */
  method Convert(cpu: Cpu, data: array<byte>, size: nat, ip: word, encoding: bool) returns (processed: nat)
    requires size <= data.Length
    modifies data
    ensures processed == size - size % 4
    ensures data[..] == Filtered(cpu, old(data[..processed]), ip + (if cpu.ARM? then 8 else 0), encoding) + old(data[processed..])
  {
    hide Converted;
    var lim := size - size % 4;
    var p := 0;
    ghost var was := data[..];
    ghost var x := ip + Ahead(cpu);
    while p < lim
      invariant 0 <= p <= lim && p % 4 == 0 && |was| == data.Length
      invariant data[..] == Filtered(cpu, was[..p], x, encoding) + was[p..]
    {
      var s := data[p..p + 4];
      FilteredNext(cpu, was, p, x, encoding);
      assert s == was[p..][..4];
      var r := ConvertOne(cpu, s, ip, p, encoding);
      Put(data, p, r);
      Tail(was, p);
      p := p + 4;
    }
    processed := p;
  }

  lemma Tail(s: seq<byte>, p: nat)
    requires p + 4 <= |s|
    ensures s[p..][4..] == s[p + 4..]
  {
  }

  method Put(data: array<byte>, p: nat, r: seq<byte>)
    requires |r| == 4 && p + 4 <= data.Length
    modifies data
    ensures data[..] == old(data[..])[..p] + r + old(data[..])[p..][4..]
  {
    data[p], data[p + 1], data[p + 2], data[p + 3] := r[0], r[1], r[2], r[3];
  }

  /** One instruction, where it is a branch. */
  method ConvertOne(cpu: Cpu, s: seq<byte>, ip: word, p: nat, encoding: bool) returns (r: seq<byte>)
    requires |s| == 4
    ensures r == Converted(cpu, s, ip + Ahead(cpu) + p, encoding)
  {
    if !Selected(cpu, s) {
      return s;
    }
    var v := Load(cpu, s);
    var address := ip + Ahead(cpu) + p;
    r := Store(cpu, Target(cpu, v, if encoding then address else -address));
  }

  lemma FilteredNext(cpu: Cpu, s: seq<byte>, p: nat, x: int, encoding: bool)
    requires p + 4 <= |s| && p % 4 == 0
    ensures Filtered(cpu, s[..p + 4], x, encoding) ==
            Filtered(cpu, s[..p], x, encoding) + Converted(cpu, s[p..][..4], x + p, encoding)
  {
    hide Converted;
    var one := s[p..][..4];
    assert s[..p + 4] == s[..p] + one;
    FilteredPieces(cpu, s[..p], one, x, encoding);
    assert one[..4] == one;
    assert Filtered(cpu, one, x + p, encoding) == Converted(cpu, one, x + p, encoding) + Filtered(cpu, one[4..], x + p + 4, encoding);
  }
}
