/** CRC64 of XzCrc64.c and XzCrc64Opt.c: the same argument as for CRC32, in 64 bits and 32-bit words. */
module Crc64 {

  /** kCrc64Poly */
  const POLY: bv64 := 0xC96C_5795_D787_0F42

  function Xor(a: bv64, b: bv64): bv64 { a ^ b }

  function Half(r: bv64): bv64 { r >> 1 }

  /** kCrc64Poly & (0 - (r & 1)) */
  function OddPoly(r: bv64): bv64 { POLY & (0 - (r & 1)) }

  /** One step of the division: the next bit is a zero. */
  function Step(r: bv64): bv64 {
    Xor(Half(r), OddPoly(r))
  }

  function Steps(r: bv64, n: nat): bv64 {
    if n == 0 then r else Step(Steps(r, n - 1))
  }

  /** The effect of one zero byte. */
  function Zero(r: bv64): bv64 { Steps(r, 8) }

  function Zeros(r: bv64, n: nat): bv64 {
    if n == 0 then r else Zero(Zeros(r, n - 1))
  }

  function Wide(b: bv8): bv64 { b as bv64 }

  /** The CRC register after data: each byte is added to it and then divided out. */
  function Crc(v: bv64, data: seq<bv8>): bv64
    decreases |data|
  {
    if data == [] then v else Crc(Zero(Xor(v, Wide(data[0]))), data[1..])
  }

  // ---------- Linearity ----------

  lemma OddPolyIs(r: bv64)
    ensures OddPoly(r) == if r & 1 == 1 then POLY else 0
  {
    assert 0xC96C_5795_D787_0F42 & (0 - (r & 1)) == if r & 1 == 1 then 0xC96C_5795_D787_0F42 else 0;
  }

  lemma HalfXor(a: bv64, b: bv64)
    ensures Half(Xor(a, b)) == Xor(Half(a), Half(b))
  {
  }

  lemma OddPolyXor(a: bv64, b: bv64)
    ensures OddPoly(Xor(a, b)) == Xor(OddPoly(a), OddPoly(b))
  {
    OddPolyIs(a);
    OddPolyIs(b);
    OddPolyIs(Xor(a, b));
    hide OddPoly;
  }

  lemma XorAssoc(a: bv64, b: bv64, c: bv64)
    ensures Xor(a, Xor(b, c)) == Xor(Xor(a, b), c)
  {
  }

  lemma XorComm(a: bv64, b: bv64)
    ensures Xor(a, b) == Xor(b, a)
  {
  }

  lemma XorMove(a: bv64, b: bv64, c: bv64)
    ensures Xor(Xor(a, b), c) == Xor(Xor(a, c), b)
  {
    hide Xor;
    XorAssoc(a, b, c);
    XorComm(b, c);
    XorAssoc(a, c, b);
  }

  lemma XorSwap(a: bv64, b: bv64, c: bv64, d: bv64)
    ensures Xor(Xor(a, b), Xor(c, d)) == Xor(Xor(a, c), Xor(b, d))
  {
    hide Xor;
    XorAssoc(Xor(a, b), c, d);
    XorMove(a, b, c);
    XorAssoc(Xor(a, c), b, d);
  }

  lemma StepXor(a: bv64, b: bv64)
    ensures Step(Xor(a, b)) == Xor(Step(a), Step(b))
  {
    hide Xor, Half, OddPoly;
    HalfXor(a, b);
    OddPolyXor(a, b);
    XorSwap(Half(a), Half(b), OddPoly(a), OddPoly(b));
  }

  lemma {:induction false} StepsXor(a: bv64, b: bv64, n: nat)
    ensures Steps(Xor(a, b), n) == Xor(Steps(a, n), Steps(b, n))
  {
    hide Xor, Step;
    if n > 0 {
      StepsXor(a, b, n - 1);
      StepXor(Steps(a, n - 1), Steps(b, n - 1));
    }
  }

  lemma {:induction false} ZerosXor(a: bv64, b: bv64, n: nat)
    ensures Zeros(Xor(a, b), n) == Xor(Zeros(a, n), Zeros(b, n))
  {
    hide Xor, Steps;
    if n > 0 {
      ZerosXor(a, b, n - 1);
      StepsXor(Zeros(a, n - 1), Zeros(b, n - 1), 8);
    }
  }

  function Low(v: bv64): bv64 { v & 0xFF }
  function High(v: bv64): bv64 { v & 0xFFFF_FFFF_FFFF_FF00 }
  function Down(v: bv64): bv64 { v >> 8 }

  lemma EightSteps(y: bv64)
    requires y & 0xFF == 0
    ensures Step(Step(Step(Step(Step(Step(Step(Step(y)))))))) == Down(y)
  {
  }

  /** A zero low byte is shifted out. */
  lemma ZeroShifts(y: bv64)
    requires y & 0xFF == 0
    ensures Zero(y) == Down(y)
  {
    EightSteps(y);
    hide Step, Down;
    assert Steps(y, 1) == Step(y);
    assert Steps(y, 3) == Step(Step(Step(y)));
    assert Steps(y, 5) == Step(Step(Step(Step(Step(y)))));
    assert Steps(y, 7) == Step(Step(Step(Step(Step(Step(Step(y)))))));
  }

  lemma Halves(v: bv64)
    ensures v == Xor(Low(v), High(v)) && High(v) & 0xFF == 0 && Down(High(v)) == Down(v)
  {
  }

  /** CRC64_UPDATE_BYTE_2: only the low byte needs the table. */
  lemma ZeroSplit(v: bv64)
    ensures Zero(v) == Xor(Zero(Low(v)), Down(v))
  {
    hide Xor, Steps, Low, High, Down;
    Halves(v);
    StepsXor(Low(v), High(v), 8);
    ZeroShifts(High(v));
  }

  // ---------- Whole words ----------

  function Up(v: bv64): bv64 { v << 8 }

  lemma UpFacts(c: bv64)
    requires c < 0x100_0000
    ensures Up(c) & 0xFF == 0 && Down(Up(c)) == c
  {
  }

  /** Bytes above the one divided out only move down. */
  lemma ZeroAdd(v: bv64, c: bv64)
    requires c < 0x100_0000
    ensures Zero(Xor(v, Up(c))) == Xor(Zero(v), c)
  {
    hide Xor, Steps, Up, Down;
    UpFacts(c);
    StepsXor(v, Up(c), 8);
    ZeroShifts(Up(c));
  }

  /** *(const UInt32 *)p in little-endian order. */
  function Load(s: seq<bv8>): bv64
    requires |s| == 4
  {
    Xor(Wide(s[0]), Up(Load3(s[1..])))
  }

  function Load3(s: seq<bv8>): bv64
    requires |s| == 3
  {
    Xor(Wide(s[0]), Up(Xor(Wide(s[1]), Up(Wide(s[2])))))
  }

  lemma SmallXor(a: bv8, c: bv64)
    ensures Wide(a) < 0x100
    ensures c < 0x100 ==> Xor(Wide(a), Up(c)) < 0x1_0000
    ensures c < 0x1_0000 ==> Xor(Wide(a), Up(c)) < 0x100_0000
  {
  }

  lemma FourZeros(w: bv64)
    ensures Zeros(w, 4) == Zero(Zero(Zero(Zero(w))))
  {
    hide Steps;
    assert Zeros(w, 1) == Zero(w);
    assert Zeros(w, 3) == Zero(Zero(Zero(w)));
  }

  lemma CrcFour(v: bv64, s: seq<bv8>)
    requires |s| == 4
    ensures Crc(v, s) == Zero(Xor(Zero(Xor(Zero(Xor(Zero(Xor(v, Wide(s[0]))), Wide(s[1]))), Wide(s[2]))), Wide(s[3])))
  {
    hide Xor, Steps, Wide;
    var v1 := Zero(Xor(v, Wide(s[0])));
    var v2 := Zero(Xor(v1, Wide(s[1])));
    var v3 := Zero(Xor(v2, Wide(s[2])));
    var s1 := s[1..];
    var s2 := s1[1..];
    var s3 := s2[1..];
    assert s1[0] == s[1] && s2[0] == s[2] && s3[0] == s[3] && s3[1..] == [];
    assert Crc(v, s) == Crc(v1, s1);
    assert Crc(v1, s1) == Crc(v2, s2);
    assert Crc(v2, s2) == Crc(v3, s3);
    assert Crc(v3, s3) == Crc(Zero(Xor(v3, Wide(s[3]))), []);
  }

  lemma LoadIs(s: seq<bv8>)
    requires |s| == 4
    ensures Load(s) == Xor(Wide(s[0]), Up(Xor(Wide(s[1]), Up(Xor(Wide(s[2]), Up(Wide(s[3])))))))
  {
    assert s[1..][0] == s[1] && s[1..][1] == s[2] && s[1..][2] == s[3];
    hide Xor, Up, Wide;
  }

  /** Four bytes at once are four zero bytes after the word has been added. */
  lemma WordCrc(v: bv64, s: seq<bv8>)
    requires |s| == 4
    ensures Crc(v, s) == Zeros(Xor(v, Load(s)), 4)
  {
    hide Xor, Steps, Up, Wide, Crc, Load;
    var a, b, c, d := Wide(s[0]), Wide(s[1]), Wide(s[2]), Wide(s[3]);
    var e := Xor(c, Up(d));
    var f := Xor(b, Up(e));
    SmallXor(s[3], 0);
    SmallXor(s[2], d);
    SmallXor(s[1], e);
    LoadIs(s);
    XorAssoc(v, a, Up(f));
    ZeroAdd(Xor(v, a), f);
    var v1 := Zero(Xor(v, a));
    XorAssoc(v1, b, Up(e));
    ZeroAdd(Xor(v1, b), e);
    var v2 := Zero(Xor(v1, b));
    XorAssoc(v2, c, Up(d));
    ZeroAdd(Xor(v2, c), d);
    FourZeros(Xor(v, Load(s)));
    CrcFour(v, s);
  }

  lemma {:induction false} CrcAppend(v: bv64, a: seq<bv8>, b: seq<bv8>)
    ensures Crc(v, a + b) == Crc(Crc(v, a), b)
    decreases |a|
  {
    hide Xor, Steps;
    if a == [] {
      assert a + b == b;
    } else {
      assert (a + b)[1..] == a[1..] + b;
      CrcAppend(Zero(Xor(v, Wide(a[0]))), a[1..], b);
    }
  }

  /** What the tables hold: the effect of n zero bytes on each byte of the word. */
  lemma {:induction false} ZerosSplit(w: bv64, n: nat)
    requires n > 0
    ensures Zeros(w, n) == Xor(Zeros(Low(w), n), Zeros(Down(w), n - 1))
  {
    hide Xor, Steps, Low, Down;
    ZerosLast(w, n - 1);
    ZeroSplit(w);
    ZerosXor(Zero(Low(w)), Down(w), n - 1);
    ZerosLast(Low(w), n - 1);
  }

  lemma {:induction false} ZerosLast(w: bv64, n: nat)
    ensures Zeros(w, n + 1) == Zeros(Zero(w), n)
  {
    hide Steps;
    if n > 0 {
      ZerosLast(w, n - 1);
    }
  }

  // ---------- The tables ----------

  /** (UInt32)i */
  function Byte(i: nat): bv64
    requires i < 0x100
  {
    Wide(i as bv8)
  }

  function Index(w: bv64): nat { w as nat }

  lemma IndexRange(w: bv64)
    requires w < 0x100
    ensures Index(w) < 0x100
  {
  }

  lemma WideNarrow(w: bv64)
    requires w < 0x100
    ensures Wide(w as bv8) == w && (w as bv8) as nat == Index(w)
  {
  }

  lemma NatNarrow(b: bv8)
    ensures (b as nat) as bv8 == b
  {
  }

  lemma ByteOfIndex(w: bv64)
    requires w < 0x100
    ensures Index(w) < 0x100 && Byte(Index(w)) == w
  {
    WideNarrow(w);
    var b := w as bv8;
    NatNarrow(b);
    IndexRange(w);
    hide Index, Wide;
  }

  /** Table k / 256 holds, at k % 256, the effect of k / 256 + 1 zero bytes. */
  function Entry(k: nat): bv64 { Zeros(Byte(k % 0x100), k / 0x100 + 1) }

  ghost predicate TableOk(t: seq<bv64>, n: nat) {
    |t| >= n && forall k :: 0 <= k < n ==> t[k] == Entry(k)
  }

  lemma Looked(t: seq<bv64>, n: nat, j: nat, w: bv64)
    requires TableOk(t, n) && 0x100 * (j + 1) <= n && w < 0x100
    ensures Index(w) < 0x100 && t[0x100 * j + Index(w)] == Zeros(w, j + 1)
  {
    ByteOfIndex(w);
    var k := 0x100 * j + Index(w);
    hide Index, Byte, Zeros;
    assert k % 0x100 == Index(w) && k / 0x100 == j;
    assert t[k] == Entry(k);
  }

  lemma LowIsByte(w: bv64)
    ensures Low(w) < 0x100
  {
  }

  lemma NextEntry(k: nat)
    ensures Entry(k + 0x100) == Xor(Zero(Low(Entry(k))), Down(Entry(k)))
  {
    assert (k + 0x100) % 0x100 == k % 0x100 && (k + 0x100) / 0x100 == k / 0x100 + 1;
    ZeroSplit(Entry(k));
    hide Xor, Steps, Low, Down, Byte;
  }

  /** Crc64GenerateTable, up to the reordering for big-endian machines. */
  method GenerateTable(table: array<bv64>)
    requires table.Length >= 0x100 && table.Length % 0x100 == 0
    modifies table
    ensures TableOk(table[..], table.Length)
  {
    hide Xor, Half, OddPoly, Zeros, Entry, Byte, Low, Down, Index;
    var i := 0;
    while i < 0x100
      invariant i <= 0x100
      invariant forall k :: 0 <= k < i ==> table[k] == Entry(k)
    {
      var r := Byte(i);
      var j := 0;
      while j < 8
        invariant j <= 8 && r == Steps(Byte(i), j)
      {
        r := Xor(Half(r), OddPoly(r));
        j := j + 1;
      }
      FirstEntry(i);
      table[i] := r;
      i := i + 1;
    }
    while i < table.Length
      invariant 0x100 <= i <= table.Length
      invariant forall k :: 0 <= k < i ==> table[k] == Entry(k)
    {
      var r := table[i - 0x100];
      LowIsByte(r);
      Looked(table[..], i, 0, Low(r));
      NextEntry(i - 0x100);
      OneZero(Low(r));
      table[i] := Xor(table[Index(Low(r))], Down(r));
      i := i + 1;
    }
  }

  lemma FirstEntry(i: nat)
    requires i < 0x100
    ensures Entry(i) == Steps(Byte(i), 8)
  {
    hide Steps, Byte, Zeros;
    OneZero(Byte(i));
    assert i % 0x100 == i && i / 0x100 == 0;
  }

  lemma OneZero(w: bv64)
    ensures Zeros(w, 1) == Zero(w)
  {
    hide Steps;
  }

  // ---------- One byte at a time ----------

  lemma UpdateByte(v: bv64, b: bv8)
    ensures Low(Xor(v, Wide(b))) < 0x100 && Down(Xor(v, Wide(b))) == Down(v)
  {
  }

  /** CRC64_UPDATE_BYTE_2 */
  method UpdateByte2(v: bv64, b: bv8, table: array<bv64>) returns (r: bv64)
    requires TableOk(table[..], 0x100)
    ensures r == Zero(Xor(v, Wide(b)))
  {
    hide Xor, Zeros, Steps, Low, Down, Wide, Index, TableOk;
    var w := Low(Xor(v, Wide(b)));
    UpdateByte(v, b);
    TableLength(table[..], 0x100);
    Looked(table[..], 0x100, 0, w);
    OneZero(w);
    ZeroSplit(Xor(v, Wide(b)));
    r := Xor(table[Index(w)], Down(v));
  }

  lemma TableLength(t: seq<bv64>, n: nat)
    requires TableOk(t, n)
    ensures n <= |t| && forall m: nat :: m <= n ==> TableOk(t, m)
  {
  }

  lemma CrcLast(v: bv64, s: seq<bv8>, i: nat)
    requires i < |s|
    ensures Crc(v, s[..i + 1]) == Zero(Xor(Crc(v, s[..i]), Wide(s[i])))
  {
    assert s[..i + 1] == s[..i] + [s[i]];
    CrcAppend(v, s[..i], [s[i]]);
    hide Xor, Steps, Wide;
    var c := Crc(v, s[..i]);
    assert Crc(c, [s[i]]) == Crc(Zero(Xor(c, Wide(s[i]))), [s[i]][1..]);
  }

  lemma CrcNone(v: bv64)
    ensures Crc(v, []) == v
  {
  }

  // ---------- Four bytes at a time ----------

  function Byte1(w: bv64): bv64 { (w >> 8) & 0xFF }
  function Byte2(w: bv64): bv64 { (w >> 16) & 0xFF }
  function Byte3(w: bv64): bv64 { (w >> 24) & 0xFF }
  function Rest(w: bv64): bv64 { w >> 32 }

  lemma BytesDown(w: bv64)
    ensures Low(Down(w)) == Byte1(w) && Low(Down(Down(w))) == Byte2(w) && Low(Down(Down(Down(w)))) == Byte3(w)
    ensures Down(Down(Down(Down(w)))) == Rest(w)
    ensures Low(w) < 0x100 && Byte1(w) < 0x100 && Byte2(w) < 0x100 && Byte3(w) < 0x100
  {
  }

  /** The effect of four zero bytes, byte by byte. */
  lemma FourParts(w: bv64)
    ensures Zeros(w, 4) ==
            Xor(Xor(Xor(Xor(Rest(w), Zeros(Low(w), 4)), Zeros(Byte1(w), 3)), Zeros(Byte2(w), 2)), Zeros(Byte3(w), 1))
  {
    hide Xor, Zeros, Low, Down, Byte1, Byte2, Byte3, Rest;
    var a, b, c, d := Zeros(Low(w), 4), Zeros(Byte1(w), 3), Zeros(Byte2(w), 2), Zeros(Byte3(w), 1);
    NoZeros(Rest(w));
    BytesDown(w);
    ZerosSplit(w, 4);
    ZerosSplit(Down(w), 3);
    ZerosSplit(Down(Down(w)), 2);
    ZerosSplit(Down(Down(Down(w))), 1);
    XorRotate(a, b, c, d, Rest(w));
  }

  lemma NoZeros(w: bv64)
    ensures Zeros(w, 0) == w
  {
  }

  lemma XorRotate(a: bv64, b: bv64, c: bv64, d: bv64, e: bv64)
    ensures Xor(a, Xor(b, Xor(c, Xor(d, e)))) == Xor(Xor(Xor(Xor(e, a), b), c), d)
  {
    hide Xor;
    XorAssoc(a, b, Xor(c, Xor(d, e)));
    XorAssoc(Xor(a, b), c, Xor(d, e));
    XorAssoc(Xor(Xor(a, b), c), d, e);
    XorMove(Xor(Xor(a, b), c), d, e);
    XorMove(Xor(a, b), c, e);
    XorMove(a, b, e);
    XorComm(a, e);
  }

  /** (UInt32)v */
  function Half32(v: bv64): bv64 { v & 0xFFFF_FFFF }

  lemma RestXor(v: bv64, x: bv64)
    requires x < 0x1_0000_0000
    ensures Rest(v) == Rest(Xor(v, x))
  {
  }

  lemma HalfBytes(v: bv64)
    ensures Low(Half32(v)) == Low(v) && Byte1(Half32(v)) == Byte1(v) && Byte2(Half32(v)) == Byte2(v) && Byte3(Half32(v)) == Byte3(v)
  {
  }

  /** v's low half with the next four bytes added has the bytes of v with them added. */
  lemma LowHalf(v: bv64, x: bv64)
    requires x < 0x1_0000_0000
    ensures var d, w := Xor(Half32(v), x), Xor(v, x);
            && Low(d) == Low(w) && Byte1(d) == Byte1(w) && Byte2(d) == Byte2(w) && Byte3(d) == Byte3(w) && Rest(v) == Rest(w)
  {
    hide Xor, Low, Byte1, Byte2, Byte3, Rest, Half32;
    HalfBytes(v);
    RestXor(v, x);
    BytesXor(Half32(v), x);
    BytesXor(v, x);
  }

  lemma LoadSmall(s: seq<bv8>)
    requires |s| == 4
    ensures Load(s) < 0x1_0000_0000
  {
    LoadedSmall(s[0], s[1], s[2], s[3]);
  }

  lemma LoadedSmall(a: bv8, b: bv8, c: bv8, d: bv8)
    ensures Xor(Wide(a), Up(Xor(Wide(b), Up(Xor(Wide(c), Up(Wide(d))))))) < 0x1_0000_0000
  {
  }

  /** Bytes up to an address that is a multiple of unit, or up to the end. */
  method UpdateBytes(v: bv64, data: array<bv8>, start: nat, address: nat, unit: nat, table: array<bv64>, ghost v0: bv64)
    returns (r: bv64, p: nat)
    requires TableOk(table[..], 0x100) && start <= data.Length && v == Crc(v0, data[..start])
    ensures start <= p <= data.Length && r == Crc(v0, data[..p])
    ensures unit == 0 ==> p == data.Length
  {
    hide Xor, Zeros, Steps, Wide, TableOk, Crc;
    r, p := v, start;
    while p < data.Length && (unit == 0 || (address + p) % unit != 0)
      invariant start <= p <= data.Length && r == Crc(v0, data[..p])
      decreases data.Length - p
    {
      CrcLast(v0, data[..], p);
      assert data[..][..p] == data[..p] && data[..][..p + 1] == data[..p + 1];
      r := UpdateByte2(r, data[p], table);
      p := p + 1;
    }
  }

  lemma CrcWord(v0: bv64, s: seq<bv8>, p: nat)
    requires p + 4 <= |s|
    ensures Crc(v0, s[..p + 4]) == Zeros(Xor(Crc(v0, s[..p]), Load(s[p..p + 4])), 4)
  {
    assert s[..p + 4] == s[..p] + s[p..p + 4];
    CrcAppend(v0, s[..p], s[p..p + 4]);
    WordCrc(Crc(v0, s[..p]), s[p..p + 4]);
  }

  /** One pass of the loop of XzCrc64UpdateT4: x is the next word. */
  method UpdateWord(v: bv64, x: bv64, table: array<bv64>) returns (r: bv64)
    requires TableOk(table[..], 0x400) && x < 0x1_0000_0000
    ensures r == Zeros(Xor(v, x), 4)
  {
    hide Xor, Zeros, Low, Byte1, Byte2, Byte3, Rest, Index, TableOk, Half32;
    var d := Xor(Half32(v), x);
    LowHalf(v, x);
    ghost var t, w := table[..], Xor(v, x);
    BytesDown(w);
    FourParts(w);
    TableLength(t, 0x400);
    Looked(t, 0x400, 3, Low(w));
    Looked(t, 0x400, 2, Byte1(w));
    Looked(t, 0x400, 1, Byte2(w));
    Looked(t, 0x400, 0, Byte3(w));
    r := Xor(Xor(Xor(Xor(Rest(v), table[0x300 + Index(Low(d))]), table[0x200 + Index(Byte1(d))]),
                 table[0x100 + Index(Byte2(d))]), table[Index(Byte3(d))]);
  }

  /** XzCrc64UpdateT4, for data at any address. */
  method Crc64UpdateT4(v: bv64, data: array<bv8>, address: nat, table: array<bv64>) returns (r: bv64)
    requires TableOk(table[..], 0x400)
    ensures r == Crc(v, data[..])
  {
    hide Xor, Zeros, TableOk, Crc, Load;
    CrcNone(v);
    assert data[..0] == [];
    TableLength(table[..], 0x400);
    var p;
    r, p := UpdateBytes(v, data, 0, address, 4, table, v);
    while data.Length - p >= 4
      invariant p <= data.Length && r == Crc(v, data[..p])
    {
      CrcWord(v, data[..], p);
      assert data[..][..p] == data[..p] && data[..][..p + 4] == data[..p + 4] && data[..][p..p + 4] == data[p..p + 4];
      LoadSmall(data[p..p + 4]);
      r := UpdateWord(r, Load(data[p..p + 4]), table);
      p := p + 4;
    }
    r, p := UpdateBytes(r, data, p, address, 0, table, v);
    assert data[..p] == data[..];
  }

  // ---------- Big-endian machines ----------

  /** CRC_UINT64_SWAP */
  function Swap(v: bv64): bv64 {
    (v >> 56) | ((v >> 40) & 0xFF00) | ((v >> 24) & 0xFF_0000) | ((v >> 8) & 0xFF00_0000) |
    ((v << 8) & 0xFF_0000_0000) | ((v << 24) & 0xFF00_0000_0000) | ((v << 40) & 0xFF_0000_0000_0000) | (v << 56)
  }

  /** The first byte of the other byte order. */
  function TopByte(v: bv64): bv64 { v >> 56 }

  lemma SwapXor(a: bv64, b: bv64)
    ensures Swap(Xor(a, b)) == Xor(Swap(a), Swap(b))
  {
  }

  lemma SwapTwice(v: bv64)
    ensures Swap(Swap(v)) == v
  {
  }

  lemma SwapBytes(w: bv64)
    ensures TopByte(Swap(w)) == Low(w) && Swap(Down(w)) == Up(Swap(w))
  {
    SwapTop(w);
    SwapDown(w);
    hide Swap, TopByte, Low, Up, Down;
  }

  lemma SwapTop(w: bv64)
    ensures TopByte(Swap(w)) == Low(w)
  {
  }

  lemma SwapDown(w: bv64)
    ensures Swap(Down(w)) == Up(Swap(w))
  {
    hide Swap;
    SwapShifted(w);
  }

  lemma SwapShifted(w: bv64)
    ensures Swap(w >> 8) == Swap(w) << 8
  {
  }

  /** The tables follow one unused table, each entry in the other byte order. */
  ghost predicate SwappedOk(t: seq<bv64>, n: nat) {
    |t| >= 0x100 + n && forall k :: 0 <= k < n ==> t[0x100 + k] == Swap(Entry(k))
  }

  lemma SwappedLength(t: seq<bv64>, n: nat)
    requires SwappedOk(t, n)
    ensures 0x100 + n <= |t| && forall m: nat :: m <= n ==> SwappedOk(t, m)
  {
  }

  lemma LookedSwapped(t: seq<bv64>, n: nat, j: nat, w: bv64)
    requires SwappedOk(t, n) && 0x100 * (j + 1) <= n && w < 0x100
    ensures Index(w) < 0x100 && t[0x100 + (0x100 * j + Index(w))] == Swap(Zeros(w, j + 1))
  {
    ByteOfIndex(w);
    var k := 0x100 * j + Index(w);
    hide Index, Byte, Zeros, Swap;
    assert k % 0x100 == Index(w) && k / 0x100 == j;
    assert t[0x100 + k] == Swap(Entry(k));
  }

  /** Crc64GenerateTable, the reordering for big-endian machines. */
  method SwapTable(table: array<bv64>)
    requires table.Length >= 0x100 && TableOk(table[..], table.Length)
    modifies table
    ensures SwappedOk(table[..], table.Length - 0x100)
  {
    hide Swap, Entry;
    var i := table.Length - 1;
    while i >= 0x100
      invariant 0xFF <= i < table.Length
      invariant forall k :: 0 <= k <= i ==> table[k] == Entry(k)
      invariant forall k: nat :: i < k < table.Length ==> table[k] == Swap(Entry(k - 0x100))
    {
      var x := table[i - 0x100];
      table[i] := Swap(x);
      i := i - 1;
    }
  }

  /** CRC64_UPDATE_BYTE_2_BE: r and v are CRC registers in the other byte order. */
  method UpdateByte2Be(v: bv64, b: bv8, table: array<bv64>) returns (r: bv64)
    requires SwappedOk(table[..], 0x100)
    ensures r == Swap(Zero(Xor(Swap(v), Wide(b))))
  {
    hide Xor, Zeros, Steps, Low, Down, Up, Wide, Index, SwappedOk, Swap, TopByte;
    ghost var u := Xor(Swap(v), Wide(b));
    var w := Xor(TopByte(v), Wide(b));
    UpdateByte(Swap(v), b);
    UpdateByteBe(v, b);
    SwappedLength(table[..], 0x100);
    LookedSwapped(table[..], 0x100, 0, w);
    OneZero(w);
    ZeroSplit(u);
    SwapXor(Zero(w), Down(u));
    SwapBytes(Swap(v));
    SwapTwice(v);
    r := Xor(table[0x100 + Index(w)], Up(v));
  }

  lemma UpdateByteBe(v: bv64, b: bv8)
    ensures Xor(TopByte(v), Wide(b)) == Low(Xor(Swap(v), Wide(b)))
  {
  }

  /** *(const UInt32 *)p in big-endian order. */
  function LoadBe(s: seq<bv8>): bv64
    requires |s| == 4
  {
    (Wide(s[0]) << 24) | (Wide(s[1]) << 16) | (Wide(s[2]) << 8) | Wide(s[3])
  }

  lemma BytesXor(a: bv64, b: bv64)
    ensures Low(Xor(a, b)) == Xor(Low(a), Low(b)) && Byte1(Xor(a, b)) == Xor(Byte1(a), Byte1(b))
    ensures Byte2(Xor(a, b)) == Xor(Byte2(a), Byte2(b)) && Byte3(Xor(a, b)) == Xor(Byte3(a), Byte3(b))
  {
    LowXor(a, b);
    Byte1Xor(a, b);
    Byte2Xor(a, b);
    Byte3Xor(a, b);
    hide *;
  }

  lemma LowXor(a: bv64, b: bv64)
    ensures Low(Xor(a, b)) == Xor(Low(a), Low(b))
  {
  }

  lemma Byte1Xor(a: bv64, b: bv64)
    ensures Byte1(Xor(a, b)) == Xor(Byte1(a), Byte1(b))
  {
  }

  lemma Byte2Xor(a: bv64, b: bv64)
    ensures Byte2(Xor(a, b)) == Xor(Byte2(a), Byte2(b))
  {
  }

  lemma Byte3Xor(a: bv64, b: bv64)
    ensures Byte3(Xor(a, b)) == Xor(Byte3(a), Byte3(b))
  {
  }

  lemma SwappedHalf(v: bv64)
    ensures Low(Rest(v)) == Byte3(Swap(v)) && Byte1(Rest(v)) == Byte2(Swap(v))
    ensures Byte2(Rest(v)) == Byte1(Swap(v)) && Byte3(Rest(v)) == Low(Swap(v))
  {
  }

  lemma LoadedParts(a: bv8, b: bv8, c: bv8, d: bv8)
    ensures var x := Xor(Wide(a), Up(Xor(Wide(b), Up(Xor(Wide(c), Up(Wide(d)))))));
            Low(x) == Wide(a) && Byte1(x) == Wide(b) && Byte2(x) == Wide(c) && Byte3(x) == Wide(d)
  {
    hide Xor, Wide, Up, Low, Byte1, Byte2, Byte3;
    var e := Xor(Wide(c), Up(Wide(d)));
    var f := Xor(Wide(b), Up(e));
    BytesXor(Wide(a), Up(f));
    BytesXor(Wide(b), Up(e));
    BytesXor(Wide(c), Up(Wide(d)));
    UpBytes(f);
    UpBytes(e);
    UpBytes(Wide(d));
    WideBytes(a);
    WideBytes(b);
    WideBytes(c);
    WideBytes(d);
    XorNone(Wide(a));
    XorNone(Wide(b));
    XorNone(Wide(c));
    XorNone(Wide(d));
    XorNone(0);
  }

  lemma UpBytes(v: bv64)
    ensures Low(Up(v)) == 0 && Byte1(Up(v)) == Low(v) && Byte2(Up(v)) == Byte1(v) && Byte3(Up(v)) == Byte2(v)
  {
  }

  lemma WideBytes(a: bv8)
    ensures Low(Wide(a)) == Wide(a) && Byte1(Wide(a)) == 0 && Byte2(Wide(a)) == 0 && Byte3(Wide(a)) == 0
  {
  }

  lemma XorNone(v: bv64)
    ensures Xor(v, 0) == v && Xor(0, v) == v
  {
  }

  lemma LoadedPartsBe(a: bv8, b: bv8, c: bv8, d: bv8)
    ensures var y := (Wide(a) << 24) | (Wide(b) << 16) | (Wide(c) << 8) | Wide(d);
            Low(y) == Wide(d) && Byte1(y) == Wide(c) && Byte2(y) == Wide(b) && Byte3(y) == Wide(a)
  {
  }

  lemma LoadBeParts(s: seq<bv8>)
    requires |s| == 4
    ensures var y := LoadBe(s);
            Low(y) == Wide(s[3]) && Byte1(y) == Wide(s[2]) && Byte2(y) == Wide(s[1]) && Byte3(y) == Wide(s[0])
  {
    LoadedPartsBe(s[0], s[1], s[2], s[3]);
    hide Low, Byte1, Byte2, Byte3, Wide;
  }

  /** The word of the big-endian loop has the bytes of the little-endian one, in the other order. */
  lemma WordBe(v: bv64, s: seq<bv8>)
    requires |s| == 4
    ensures var e, w := Xor(Rest(v), LoadBe(s)), Xor(Swap(v), Load(s));
            Low(e) == Byte3(w) && Byte1(e) == Byte2(w) && Byte2(e) == Byte1(w) && Byte3(e) == Low(w)
  {
    hide Xor, Low, Byte1, Byte2, Byte3, Rest, Swap, Wide, Up, Load, LoadBe;
    LoadIs(s);
    LoadedParts(s[0], s[1], s[2], s[3]);
    LoadBeParts(s);
    var x, y := Load(s), LoadBe(s);
    SwappedHalf(v);
    BytesXor(Rest(v), y);
    BytesXor(Swap(v), x);
  }

  lemma SwapFive(e: bv64, a: bv64, b: bv64, c: bv64, d: bv64)
    ensures Swap(Xor(Xor(Xor(Xor(e, a), b), c), d)) == Xor(Xor(Xor(Xor(Swap(e), Swap(d)), Swap(c)), Swap(b)), Swap(a))
  {
    SwapXor(Xor(Xor(Xor(e, a), b), c), d);
    SwapXor(Xor(Xor(e, a), b), c);
    SwapXor(Xor(e, a), b);
    SwapXor(e, a);
    XorOrder(Swap(e), Swap(a), Swap(b), Swap(c), Swap(d));
    hide Swap, Xor;
  }

  lemma XorOrder(e: bv64, a: bv64, b: bv64, c: bv64, d: bv64)
    ensures Xor(Xor(Xor(Xor(e, a), b), c), d) == Xor(Xor(Xor(Xor(e, d), c), b), a)
  {
    hide Xor;
    XorMove(Xor(Xor(e, a), b), c, d);
    XorMove(Xor(e, a), b, d);
    XorMove(e, a, d);
    XorMove(Xor(Xor(e, d), a), b, c);
    XorMove(Xor(e, d), a, c);
    XorMove(Xor(Xor(e, d), c), a, b);
  }

  function Raised(v: bv64): bv64 { v << 32 }

  /** One pass of the loop of XzCrc64UpdateT1_BeT4: v is the register in the other byte order. */
  method UpdateWordBe(v: bv64, s: seq<bv8>, table: array<bv64>) returns (r: bv64)
    requires SwappedOk(table[..], 0x400) && |s| == 4
    ensures r == Swap(Zeros(Xor(Swap(v), Load(s)), 4))
  {
    hide Xor, Zeros, Low, Byte1, Byte2, Byte3, Rest, Index, SwappedOk, Swap, Load, LoadBe, Raised;
    var d := Xor(Rest(v), LoadBe(s));
    var high := Raised(v);
    ghost var t, w := table[..], Xor(Swap(v), Load(s));
    WordBe(v, s);
    LoadSmall(s);
    RestBe(v, Load(s));
    BytesDown(w);
    FourParts(w);
    SwappedLength(t, 0x400);
    LookedSwapped(t, 0x400, 3, Low(w));
    LookedSwapped(t, 0x400, 2, Byte1(w));
    LookedSwapped(t, 0x400, 1, Byte2(w));
    LookedSwapped(t, 0x400, 0, Byte3(w));
    SwapFive(Rest(w), Zeros(Low(w), 4), Zeros(Byte1(w), 3), Zeros(Byte2(w), 2), Zeros(Byte3(w), 1));
    r := Xor(Xor(Xor(Xor(high, table[0x100 + Index(Low(d))]), table[0x200 + Index(Byte1(d))]),
                 table[0x300 + Index(Byte2(d))]), table[0x400 + Index(Byte3(d))]);
  }

  lemma RestBe(v: bv64, x: bv64)
    requires x < 0x1_0000_0000
    ensures Swap(Rest(Xor(Swap(v), x))) == Raised(v)
  {
  }

  method UpdateBytesBe(v: bv64, data: array<bv8>, start: nat, address: nat, unit: nat, table: array<bv64>, ghost v0: bv64)
    returns (r: bv64, p: nat)
    requires SwappedOk(table[..], 0x100) && start <= data.Length && Swap(v) == Crc(v0, data[..start])
    ensures start <= p <= data.Length && Swap(r) == Crc(v0, data[..p])
    ensures unit == 0 ==> p == data.Length
  {
    hide Xor, Zeros, Steps, Wide, SwappedOk, Crc, Swap;
    r, p := v, start;
    while p < data.Length && (unit == 0 || (address + p) % unit != 0)
      invariant start <= p <= data.Length && Swap(r) == Crc(v0, data[..p])
      decreases data.Length - p
    {
      CrcLast(v0, data[..], p);
      assert data[..][..p] == data[..p] && data[..][..p + 1] == data[..p + 1];
      r := UpdateByte2Be(r, data[p], table);
      SwapTwice(Zero(Xor(Crc(v0, data[..p]), Wide(data[p]))));
      p := p + 1;
    }
  }

  /** XzCrc64UpdateT1_BeT4, for data at any address. */
  method Crc64UpdateT1BeT4(v: bv64, data: array<bv8>, address: nat, table: array<bv64>) returns (r: bv64)
    requires SwappedOk(table[..], 0x400)
    ensures r == Crc(v, data[..])
  {
    hide Xor, Zeros, SwappedOk, Crc, Load, Swap;
    CrcNone(v);
    SwapTwice(v);
    assert data[..0] == [];
    SwappedLength(table[..], 0x400);
    var p;
    r, p := UpdateBytesBe(Swap(v), data, 0, address, 4, table, v);
    while data.Length - p >= 4
      invariant p <= data.Length && Swap(r) == Crc(v, data[..p])
    {
      CrcWord(v, data[..], p);
      assert data[..][..p] == data[..p] && data[..][..p + 4] == data[..p + 4] && data[..][p..p + 4] == data[p..p + 4];
      r := UpdateWordBe(r, data[p..p + 4], table);
      SwapTwice(Crc(v, data[..p + 4]));
      p := p + 4;
    }
    r, p := UpdateBytesBe(r, data, p, address, 0, table, v);
    assert data[..p] == data[..];
    r := Swap(r);
  }

  // ---------- The polynomial ----------

  /** Dividing out one bit. */
  lemma StepIs(r: bv64)
    ensures Step(r) == if r & 1 == 1 then (r >> 1) ^ 0xC96C_5795_D787_0F42 else r >> 1
  {
    OddPolyIs(r);
  }

  /** Crc64Calc */
  function Calc(data: seq<bv8>): bv64 {
    Xor(Crc(0xFFFF_FFFF_FFFF_FFFF, data), 0xFFFF_FFFF_FFFF_FFFF)
  }

  /** The register after each byte of 123456789. */
  lemma Registers()
    ensures Zero(Xor(0xFFFF_FFFF_FFFF_FFFF, Wide(0x31))) == 0xD5D0_F17A_6B6A_3512
    ensures Zero(Xor(0xD5D0_F17A_6B6A_3512, Wide(0x32))) == 0xFBE2_9281_D80D_A6A7
    ensures Zero(Xor(0xFBE2_9281_D80D_A6A7, Wide(0x33))) == 0xCFDC_D7BB_F8E3_3A9E
    ensures Zero(Xor(0xCFDC_D7BB_F8E3_3A9E, Wide(0x34))) == 0x31B1_786C_9947_3CD7
    ensures Zero(Xor(0x31B1_786C_9947_3CD7, Wide(0x35))) == 0xA258_B900_5AFB_A316
  {
  }

  lemma RegistersLater()
    ensures Zero(Xor(0xA258_B900_5AFB_A316, Wide(0x36))) == 0xFB95_1AC9_A23C_3731
    ensures Zero(Xor(0xFB95_1AC9_A23C_3731, Wide(0x37))) == 0x8FAF_60C9_9E6D_C25F
    ensures Zero(Xor(0x8FAF_60C9_9E6D_C25F, Wide(0x38))) == 0xA374_7FB7_D453_87F6
    ensures Zero(Xor(0xA374_7FB7_D453_87F6, Wide(0x39))) == 0x66A2_3644_20E6_C605
  {
  }

  lemma CrcNext(v: bv64, data: seq<bv8>, r: bv64)
    requires data != [] && Zero(Xor(v, Wide(data[0]))) == r
    ensures Crc(v, data) == Crc(r, data[1..])
  {
  }

  lemma CalcIs(data: seq<bv8>)
    requires Crc(0xFFFF_FFFF_FFFF_FFFF, data) == 0x66A2_3644_20E6_C605
    ensures Calc(data) == 0x995D_C9BB_DF19_39FA
  {
  }

  lemma CrcFirst()
    ensures Crc(0xFFFF_FFFF_FFFF_FFFF, [0x31, 0x32, 0x33, 0x34, 0x35]) == 0xA258_B900_5AFB_A316
  {
    hide Zero, Crc, Xor, Wide;
    var s: seq<bv8> := [0x31, 0x32, 0x33, 0x34, 0x35];
    Registers();
    CrcNext(0xFFFF_FFFF_FFFF_FFFF, s, 0xD5D0_F17A_6B6A_3512);
    CrcNext(0xD5D0_F17A_6B6A_3512, s[1..], 0xFBE2_9281_D80D_A6A7);
    CrcNext(0xFBE2_9281_D80D_A6A7, s[2..], 0xCFDC_D7BB_F8E3_3A9E);
    CrcNext(0xCFDC_D7BB_F8E3_3A9E, s[3..], 0x31B1_786C_9947_3CD7);
    CrcNext(0x31B1_786C_9947_3CD7, s[4..], 0xA258_B900_5AFB_A316);
    CrcNone(0xA258_B900_5AFB_A316);
    assert s[5..] == [];
  }

  lemma CrcLater()
    ensures Crc(0xA258_B900_5AFB_A316, [0x36, 0x37, 0x38, 0x39]) == 0x66A2_3644_20E6_C605
  {
    hide Zero, Crc, Xor, Wide;
    var s: seq<bv8> := [0x36, 0x37, 0x38, 0x39];
    RegistersLater();
    CrcNext(0xA258_B900_5AFB_A316, s, 0xFB95_1AC9_A23C_3731);
    CrcNext(0xFB95_1AC9_A23C_3731, s[1..], 0x8FAF_60C9_9E6D_C25F);
    CrcNext(0x8FAF_60C9_9E6D_C25F, s[2..], 0xA374_7FB7_D453_87F6);
    CrcNext(0xA374_7FB7_D453_87F6, s[3..], 0x66A2_3644_20E6_C605);
    CrcNone(0x66A2_3644_20E6_C605);
    assert s[4..] == [];
  }

  /** The check value by which this CRC is known: that of 123456789. */
  lemma KnownAnswer()
    ensures Calc([0x31, 0x32, 0x33, 0x34, 0x35, 0x36, 0x37, 0x38, 0x39]) == 0x995D_C9BB_DF19_39FA
  {
    hide Crc, Xor, Calc;
    var a: seq<bv8>, b: seq<bv8> := [0x31, 0x32, 0x33, 0x34, 0x35], [0x36, 0x37, 0x38, 0x39];
    CrcFirst();
    CrcLater();
    CrcAppend(0xFFFF_FFFF_FFFF_FFFF, a, b);
    assert a + b == [0x31, 0x32, 0x33, 0x34, 0x35, 0x36, 0x37, 0x38, 0x39];
    CalcIs(a + b);
  }
}
