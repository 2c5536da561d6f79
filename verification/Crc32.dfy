/** CRC32 of 7zCrc.c and 7zCrcOpt.c: the table-driven forms against division by the polynomial, bit by bit. */
module Crc32 {

  /** kCrcPoly */
  const POLY: bv32 := 0xEDB8_8320

  function Xor(a: bv32, b: bv32): bv32 { a ^ b }

  function Half(r: bv32): bv32 { r >> 1 }

  /** kCrcPoly & (0 - (r & 1)) */
  function OddPoly(r: bv32): bv32 { POLY & (0 - (r & 1)) }

  /** One step of the division: the next bit is a zero. */
  function Step(r: bv32): bv32 {
    Xor(Half(r), OddPoly(r))
  }

  function Steps(r: bv32, n: nat): bv32 {
    if n == 0 then r else Step(Steps(r, n - 1))
  }

  /** The effect of one zero byte. */
  function Zero(r: bv32): bv32 { Steps(r, 8) }

  function Zeros(r: bv32, n: nat): bv32 {
    if n == 0 then r else Zero(Zeros(r, n - 1))
  }

  function Wide(b: bv8): bv32 { b as bv32 }

  /** The CRC register after data: each byte is added to it and then divided out. */
  function Crc(v: bv32, data: seq<bv8>): bv32
    decreases |data|
  {
    if data == [] then v else Crc(Zero(Xor(v, Wide(data[0]))), data[1..])
  }

  // ---------- Linearity ----------

  lemma OddPolyIs(r: bv32)
    ensures OddPoly(r) == if r & 1 == 1 then POLY else 0
  {
    assert 0xEDB8_8320 & (0 - (r & 1)) == if r & 1 == 1 then 0xEDB8_8320 else 0;
  }

  lemma HalfXor(a: bv32, b: bv32)
    ensures Half(Xor(a, b)) == Xor(Half(a), Half(b))
  {
  }

  lemma OddPolyXor(a: bv32, b: bv32)
    ensures OddPoly(Xor(a, b)) == Xor(OddPoly(a), OddPoly(b))
  {
    OddPolyIs(a);
    OddPolyIs(b);
    OddPolyIs(Xor(a, b));
    hide OddPoly;
  }

  lemma XorAssoc(a: bv32, b: bv32, c: bv32)
    ensures Xor(a, Xor(b, c)) == Xor(Xor(a, b), c)
  {
  }

  lemma XorComm(a: bv32, b: bv32)
    ensures Xor(a, b) == Xor(b, a)
  {
  }

  lemma XorMove(a: bv32, b: bv32, c: bv32)
    ensures Xor(Xor(a, b), c) == Xor(Xor(a, c), b)
  {
    hide Xor;
    XorAssoc(a, b, c);
    XorComm(b, c);
    XorAssoc(a, c, b);
  }

  lemma XorSwap(a: bv32, b: bv32, c: bv32, d: bv32)
    ensures Xor(Xor(a, b), Xor(c, d)) == Xor(Xor(a, c), Xor(b, d))
  {
    hide Xor;
    XorAssoc(Xor(a, b), c, d);
    XorMove(a, b, c);
    XorAssoc(Xor(a, c), b, d);
  }

  lemma StepXor(a: bv32, b: bv32)
    ensures Step(Xor(a, b)) == Xor(Step(a), Step(b))
  {
    hide Xor, Half, OddPoly;
    HalfXor(a, b);
    OddPolyXor(a, b);
    XorSwap(Half(a), Half(b), OddPoly(a), OddPoly(b));
  }

  lemma {:induction false} StepsXor(a: bv32, b: bv32, n: nat)
    ensures Steps(Xor(a, b), n) == Xor(Steps(a, n), Steps(b, n))
  {
    hide Xor, Step;
    if n > 0 {
      StepsXor(a, b, n - 1);
      StepXor(Steps(a, n - 1), Steps(b, n - 1));
    }
  }

  lemma {:induction false} ZerosXor(a: bv32, b: bv32, n: nat)
    ensures Zeros(Xor(a, b), n) == Xor(Zeros(a, n), Zeros(b, n))
  {
    hide Xor, Steps;
    if n > 0 {
      ZerosXor(a, b, n - 1);
      StepsXor(Zeros(a, n - 1), Zeros(b, n - 1), 8);
    }
  }

  function Low(v: bv32): bv32 { v & 0xFF }
  function High(v: bv32): bv32 { v & 0xFFFF_FF00 }
  function Down(v: bv32): bv32 { v >> 8 }

  lemma EightSteps(y: bv32)
    requires y & 0xFF == 0
    ensures Step(Step(Step(Step(Step(Step(Step(Step(y)))))))) == Down(y)
  {
  }

  /** A zero low byte is shifted out. */
  lemma ZeroShifts(y: bv32)
    requires y & 0xFF == 0
    ensures Zero(y) == Down(y)
  {
    EightSteps(y);
    hide Step, Down;
    assert Steps(y, 1) == Step(y);
    assert Steps(y, 3) == Step(Step(Step(y)));
    assert Steps(y, 5) == Step(Step(Step(Step(Step(y)))));
    assert Steps(y, 7) == Step(Step(Step(Step(Step(Step(Step(y)))))));
  }

  lemma Halves(v: bv32)
    ensures v == Xor(Low(v), High(v)) && High(v) & 0xFF == 0 && Down(High(v)) == Down(v)
  {
  }

  /** CRC_UPDATE_BYTE_2: only the low byte needs the table. */
  lemma ZeroSplit(v: bv32)
    ensures Zero(v) == Xor(Zero(Low(v)), Down(v))
  {
    hide Xor, Steps, Low, High, Down;
    Halves(v);
    StepsXor(Low(v), High(v), 8);
    ZeroShifts(High(v));
  }

  // ---------- Whole words ----------

  function Up(v: bv32): bv32 { v << 8 }

  lemma UpFacts(c: bv32)
    requires c < 0x100_0000
    ensures Up(c) & 0xFF == 0 && Down(Up(c)) == c
  {
  }

  /** Bytes above the one divided out only move down. */
  lemma ZeroAdd(v: bv32, c: bv32)
    requires c < 0x100_0000
    ensures Zero(Xor(v, Up(c))) == Xor(Zero(v), c)
  {
    hide Xor, Steps, Up, Down;
    UpFacts(c);
    StepsXor(v, Up(c), 8);
    ZeroShifts(Up(c));
  }

  /** *(const UInt32 *)p in little-endian order. */
  function Load(s: seq<bv8>): bv32
    requires |s| == 4
  {
    Xor(Wide(s[0]), Up(Load3(s[1..])))
  }

  function Load3(s: seq<bv8>): bv32
    requires |s| == 3
  {
    Xor(Wide(s[0]), Up(Xor(Wide(s[1]), Up(Wide(s[2])))))
  }

  lemma SmallXor(a: bv8, c: bv32)
    ensures Wide(a) < 0x100
    ensures c < 0x100 ==> Xor(Wide(a), Up(c)) < 0x1_0000
    ensures c < 0x1_0000 ==> Xor(Wide(a), Up(c)) < 0x100_0000
  {
  }

  lemma FourZeros(w: bv32)
    ensures Zeros(w, 4) == Zero(Zero(Zero(Zero(w))))
  {
    hide Steps;
    assert Zeros(w, 1) == Zero(w);
    assert Zeros(w, 3) == Zero(Zero(Zero(w)));
  }

  lemma CrcFour(v: bv32, s: seq<bv8>)
    requires |s| == 4
    ensures Crc(v, s) == Zero(Xor(Zero(Xor(Zero(Xor(Zero(Xor(v, Wide(s[0]))), Wide(s[1]))), Wide(s[2]))), Wide(s[3])))
  {
    hide Xor, Steps, Wide;
    var v1 := Zero(Xor(v, Wide(s[0])));
    var v2 := Zero(Xor(v1, Wide(s[1])));
    var v3 := Zero(Xor(v2, Wide(s[2])));
    var s1 := s[1..];
    var s2 := s1[1..];
    var s3 := s2[1..];
    assert s1[0] == s[1] && s2[0] == s[2] && s3[0] == s[3] && s3[1..] == [];
    assert Crc(v, s) == Crc(v1, s1);
    assert Crc(v1, s1) == Crc(v2, s2);
    assert Crc(v2, s2) == Crc(v3, s3);
    assert Crc(v3, s3) == Crc(Zero(Xor(v3, Wide(s[3]))), []);
  }

  lemma LoadIs(s: seq<bv8>)
    requires |s| == 4
    ensures Load(s) == Xor(Wide(s[0]), Up(Xor(Wide(s[1]), Up(Xor(Wide(s[2]), Up(Wide(s[3])))))))
  {
    assert s[1..][0] == s[1] && s[1..][1] == s[2] && s[1..][2] == s[3];
    hide Xor, Up, Wide;
  }

  /** Four bytes at once are four zero bytes after the word has been added. */
  lemma WordCrc(v: bv32, s: seq<bv8>)
    requires |s| == 4
    ensures Crc(v, s) == Zeros(Xor(v, Load(s)), 4)
  {
    hide Xor, Steps, Up, Wide, Crc, Load;
    var a, b, c, d := Wide(s[0]), Wide(s[1]), Wide(s[2]), Wide(s[3]);
    var e := Xor(c, Up(d));
    var f := Xor(b, Up(e));
    SmallXor(s[3], 0);
    SmallXor(s[2], d);
    SmallXor(s[1], e);
    LoadIs(s);
    XorAssoc(v, a, Up(f));
    ZeroAdd(Xor(v, a), f);
    var v1 := Zero(Xor(v, a));
    XorAssoc(v1, b, Up(e));
    ZeroAdd(Xor(v1, b), e);
    var v2 := Zero(Xor(v1, b));
    XorAssoc(v2, c, Up(d));
    ZeroAdd(Xor(v2, c), d);
    FourZeros(Xor(v, Load(s)));
    CrcFour(v, s);
  }

  lemma {:induction false} CrcAppend(v: bv32, a: seq<bv8>, b: seq<bv8>)
    ensures Crc(v, a + b) == Crc(Crc(v, a), b)
    decreases |a|
  {
    hide Xor, Steps;
    if a == [] {
      assert a + b == b;
    } else {
      assert (a + b)[1..] == a[1..] + b;
      CrcAppend(Zero(Xor(v, Wide(a[0]))), a[1..], b);
    }
  }

  /** What the tables hold: the effect of n zero bytes on each byte of the word. */
  lemma {:induction false} ZerosSplit(w: bv32, n: nat)
    requires n > 0
    ensures Zeros(w, n) == Xor(Zeros(Low(w), n), Zeros(Down(w), n - 1))
  {
    hide Xor, Steps, Low, Down;
    ZerosLast(w, n - 1);
    ZeroSplit(w);
    ZerosXor(Zero(Low(w)), Down(w), n - 1);
    ZerosLast(Low(w), n - 1);
  }

  lemma {:induction false} ZerosLast(w: bv32, n: nat)
    ensures Zeros(w, n + 1) == Zeros(Zero(w), n)
  {
    hide Steps;
    if n > 0 {
      ZerosLast(w, n - 1);
    }
  }

  // ---------- The tables ----------

  /** (UInt32)i */
  function Byte(i: nat): bv32
    requires i < 0x100
  {
    Wide(i as bv8)
  }

  function Index(w: bv32): nat { w as nat }

  lemma IndexRange(w: bv32)
    requires w < 0x100
    ensures Index(w) < 0x100
  {
  }

  lemma WideNarrow(w: bv32)
    requires w < 0x100
    ensures Wide(w as bv8) == w && (w as bv8) as nat == Index(w)
  {
  }

  lemma NatNarrow(b: bv8)
    ensures (b as nat) as bv8 == b
  {
  }

  lemma ByteOfIndex(w: bv32)
    requires w < 0x100
    ensures Index(w) < 0x100 && Byte(Index(w)) == w
  {
    WideNarrow(w);
    var b := w as bv8;
    NatNarrow(b);
    IndexRange(w);
    hide Index, Wide;
  }

  /** Table k / 256 holds, at k % 256, the effect of k / 256 + 1 zero bytes. */
  function Entry(k: nat): bv32 { Zeros(Byte(k % 0x100), k / 0x100 + 1) }

  ghost predicate TableOk(t: seq<bv32>, n: nat) {
    |t| >= n && forall k :: 0 <= k < n ==> t[k] == Entry(k)
  }

  lemma Looked(t: seq<bv32>, n: nat, j: nat, w: bv32)
    requires TableOk(t, n) && 0x100 * (j + 1) <= n && w < 0x100
    ensures Index(w) < 0x100 && t[0x100 * j + Index(w)] == Zeros(w, j + 1)
  {
    ByteOfIndex(w);
    var k := 0x100 * j + Index(w);
    hide Index, Byte, Zeros;
    assert k % 0x100 == Index(w) && k / 0x100 == j;
    assert t[k] == Entry(k);
  }

  lemma LowIsByte(w: bv32)
    ensures Low(w) < 0x100
  {
  }

  lemma NextEntry(k: nat)
    ensures Entry(k + 0x100) == Xor(Zero(Low(Entry(k))), Down(Entry(k)))
  {
    assert (k + 0x100) % 0x100 == k % 0x100 && (k + 0x100) / 0x100 == k / 0x100 + 1;
    ZeroSplit(Entry(k));
    hide Xor, Steps, Low, Down, Byte;
  }

  /** CrcGenerateTable, up to the reordering for big-endian machines. */
  method GenerateTable(table: array<bv32>)
    requires table.Length >= 0x100 && table.Length % 0x100 == 0
    modifies table
    ensures TableOk(table[..], table.Length)
  {
    hide Xor, Half, OddPoly, Zeros, Entry, Byte, Low, Down, Index;
    var i := 0;
    while i < 0x100
      invariant i <= 0x100
      invariant forall k :: 0 <= k < i ==> table[k] == Entry(k)
    {
      var r := Byte(i);
      var j := 0;
      while j < 8
        invariant j <= 8 && r == Steps(Byte(i), j)
      {
        r := Xor(Half(r), OddPoly(r));
        j := j + 1;
      }
      FirstEntry(i);
      table[i] := r;
      i := i + 1;
    }
    while i < table.Length
      invariant 0x100 <= i <= table.Length
      invariant forall k :: 0 <= k < i ==> table[k] == Entry(k)
    {
      var r := table[i - 0x100];
      LowIsByte(r);
      Looked(table[..], i, 0, Low(r));
      NextEntry(i - 0x100);
      OneZero(Low(r));
      table[i] := Xor(table[Index(Low(r))], Down(r));
      i := i + 1;
    }
  }

  lemma FirstEntry(i: nat)
    requires i < 0x100
    ensures Entry(i) == Steps(Byte(i), 8)
  {
    hide Steps, Byte, Zeros;
    OneZero(Byte(i));
    assert i % 0x100 == i && i / 0x100 == 0;
  }

  lemma OneZero(w: bv32)
    ensures Zeros(w, 1) == Zero(w)
  {
    hide Steps;
  }

  // ---------- One byte at a time ----------

  lemma UpdateByte(v: bv32, b: bv8)
    ensures Low(Xor(v, Wide(b))) < 0x100 && Down(Xor(v, Wide(b))) == Down(v)
  {
  }

  /** CRC_UPDATE_BYTE_2 */
  method UpdateByte2(v: bv32, b: bv8, table: array<bv32>) returns (r: bv32)
    requires TableOk(table[..], 0x100)
    ensures r == Zero(Xor(v, Wide(b)))
  {
    hide Xor, Zeros, Steps, Low, Down, Wide, Index, TableOk;
    var w := Low(Xor(v, Wide(b)));
    UpdateByte(v, b);
    TableLength(table[..], 0x100);
    Looked(table[..], 0x100, 0, w);
    OneZero(w);
    ZeroSplit(Xor(v, Wide(b)));
    r := Xor(table[Index(w)], Down(v));
  }

  lemma TableLength(t: seq<bv32>, n: nat)
    requires TableOk(t, n)
    ensures n <= |t| && forall m: nat :: m <= n ==> TableOk(t, m)
  {
  }

  lemma CrcLast(v: bv32, s: seq<bv8>, i: nat)
    requires i < |s|
    ensures Crc(v, s[..i + 1]) == Zero(Xor(Crc(v, s[..i]), Wide(s[i])))
  {
    assert s[..i + 1] == s[..i] + [s[i]];
    CrcAppend(v, s[..i], [s[i]]);
    hide Xor, Steps, Wide;
    var c := Crc(v, s[..i]);
    assert Crc(c, [s[i]]) == Crc(Zero(Xor(c, Wide(s[i]))), [s[i]][1..]);
  }

  /** CrcUpdateT1 */
  method CrcUpdateT1(v: bv32, data: array<bv8>, table: array<bv32>) returns (r: bv32)
    requires TableOk(table[..], 0x100)
    ensures r == Crc(v, data[..])
  {
    hide Xor, Zeros, Steps, Wide, TableOk, Crc;
    r := v;
    var p := 0;
    CrcNone(v);
    assert data[..0] == [];
    while p != data.Length
      invariant p <= data.Length && r == Crc(v, data[..p])
    {
      CrcLast(v, data[..], p);
      assert data[..][..p] == data[..p] && data[..][..p + 1] == data[..p + 1];
      r := UpdateByte2(r, data[p], table);
      p := p + 1;
    }
    assert data[..p] == data[..];
  }

  lemma CrcNone(v: bv32)
    ensures Crc(v, []) == v
  {
  }

  // ---------- Four and eight bytes at a time ----------

  function Byte1(w: bv32): bv32 { (w >> 8) & 0xFF }
  function Byte2(w: bv32): bv32 { (w >> 16) & 0xFF }
  function Byte3(w: bv32): bv32 { w >> 24 }

  lemma BytesDown(w: bv32)
    ensures Low(Down(w)) == Byte1(w) && Low(Down(Down(w))) == Byte2(w) && Down(Down(Down(w))) == Byte3(w)
    ensures Low(w) < 0x100 && Byte1(w) < 0x100 && Byte2(w) < 0x100 && Byte3(w) < 0x100
  {
  }

  /** The effect of zero bytes on a word, byte by byte. */
  lemma FourParts(w: bv32, n: nat)
    ensures Zeros(w, n + 4) ==
            Xor(Xor(Xor(Zeros(Low(w), n + 4), Zeros(Byte1(w), n + 3)), Zeros(Byte2(w), n + 2)), Zeros(Byte3(w), n + 1))
  {
    hide Xor, Zeros, Low, Down, Byte1, Byte2, Byte3;
    BytesDown(w);
    ZerosSplit(w, n + 4);
    ZerosSplit(Down(w), n + 3);
    ZerosSplit(Down(Down(w)), n + 2);
    var a, b, c, d := Zeros(Low(w), n + 4), Zeros(Byte1(w), n + 3), Zeros(Byte2(w), n + 2), Zeros(Byte3(w), n + 1);
    XorAssoc(a, b, Xor(c, d));
    XorAssoc(Xor(a, b), c, d);
  }

  /** The four table look-ups for the word w, in the four tables from table n on. */
  method LookUp(w: bv32, table: array<bv32>, n: nat) returns (r: bv32)
    requires TableOk(table[..], 0x100 * n + 0x400)
    ensures r == Zeros(w, n + 4)
  {
    hide Xor, Zeros, Low, Byte1, Byte2, Byte3, Index, TableOk;
    ghost var t, size := table[..], 0x100 * n + 0x400;
    BytesDown(w);
    FourParts(w, n);
    TableLength(t, size);
    Looked(t, size, n + 3, Low(w));
    Looked(t, size, n + 2, Byte1(w));
    Looked(t, size, n + 1, Byte2(w));
    Looked(t, size, n, Byte3(w));
    var base := 0x100 * n;
    r := Xor(Xor(Xor(table[base + 0x300 + Index(Low(w))], table[base + 0x200 + Index(Byte1(w))]),
                 table[base + 0x100 + Index(Byte2(w))]), table[base + Index(Byte3(w))]);
  }

  /** Bytes up to an address that is a multiple of unit, or up to the end. */
  method UpdateBytes(v: bv32, data: array<bv8>, start: nat, address: nat, unit: nat, table: array<bv32>, ghost v0: bv32)
    returns (r: bv32, p: nat)
    requires TableOk(table[..], 0x100) && start <= data.Length && v == Crc(v0, data[..start])
    ensures start <= p <= data.Length && r == Crc(v0, data[..p])
    ensures unit == 0 ==> p == data.Length
  {
    hide Xor, Zeros, Steps, Wide, TableOk, Crc;
    r, p := v, start;
    while p < data.Length && (unit == 0 || (address + p) % unit != 0)
      invariant start <= p <= data.Length && r == Crc(v0, data[..p])
      decreases data.Length - p
    {
      CrcLast(v0, data[..], p);
      assert data[..][..p] == data[..p] && data[..][..p + 1] == data[..p + 1];
      r := UpdateByte2(r, data[p], table);
      p := p + 1;
    }
  }

  lemma CrcWord(v0: bv32, s: seq<bv8>, p: nat)
    requires p + 4 <= |s|
    ensures Crc(v0, s[..p + 4]) == Zeros(Xor(Crc(v0, s[..p]), Load(s[p..p + 4])), 4)
  {
    assert s[..p + 4] == s[..p] + s[p..p + 4];
    CrcAppend(v0, s[..p], s[p..p + 4]);
    WordCrc(Crc(v0, s[..p]), s[p..p + 4]);
  }

  /** CrcUpdateT4, for data at any address. */
  method CrcUpdateT4(v: bv32, data: array<bv8>, address: nat, table: array<bv32>) returns (r: bv32)
    requires TableOk(table[..], 0x400)
    ensures r == Crc(v, data[..])
  {
    hide Xor, Zeros, TableOk, Crc, Load;
    CrcNone(v);
    assert data[..0] == [];
    TableLength(table[..], 0x400);
    var p;
    r, p := UpdateBytes(v, data, 0, address, 4, table, v);
    while data.Length - p >= 4
      invariant p <= data.Length && r == Crc(v, data[..p])
    {
      CrcWord(v, data[..], p);
      assert data[..][..p] == data[..p] && data[..][..p + 4] == data[..p + 4] && data[..][p..p + 4] == data[p..p + 4];
      r := Xor(r, Load(data[p..p + 4]));
      r := LookUp(r, table, 0);
      p := p + 4;
    }
    r, p := UpdateBytes(r, data, p, address, 0, table, v);
    assert data[..p] == data[..];
  }

  lemma {:induction false} ZerosAgain(w: bv32, m: nat, n: nat)
    ensures Zeros(Zeros(w, m), n) == Zeros(w, m + n)
  {
    hide Steps;
    if n > 0 {
      ZerosAgain(w, m, n - 1);
    }
  }

  lemma CrcTwoWords(v0: bv32, s: seq<bv8>, p: nat)
    requires p + 8 <= |s|
    ensures Crc(v0, s[..p + 8]) ==
            Xor(Zeros(Xor(Crc(v0, s[..p]), Load(s[p..p + 4])), 8), Zeros(Load(s[p + 4..p + 8]), 4))
  {
    hide Crc, Xor, Zeros, Load;
    CrcWord(v0, s, p);
    CrcWord(v0, s, p + 4);
    var w := Xor(Crc(v0, s[..p]), Load(s[p..p + 4]));
    ZerosXor(Zeros(w, 4), Load(s[p + 4..p + 8]), 4);
    ZerosAgain(w, 4, 4);
  }

  /** CrcUpdateT8, for data at any address. */
  method CrcUpdateT8(v: bv32, data: array<bv8>, address: nat, table: array<bv32>) returns (r: bv32)
    requires TableOk(table[..], 0x800)
    ensures r == Crc(v, data[..])
  {
    hide Xor, Zeros, TableOk, Crc, Load;
    CrcNone(v);
    assert data[..0] == [];
    TableLength(table[..], 0x800);
    var p;
    r, p := UpdateBytes(v, data, 0, address, 8, table, v);
    while data.Length - p >= 8
      invariant p <= data.Length && r == Crc(v, data[..p])
    {
      CrcTwoWords(v, data[..], p);
      assert data[..][..p] == data[..p] && data[..][..p + 8] == data[..p + 8];
      assert data[..][p..p + 4] == data[p..p + 4] && data[..][p + 4..p + 8] == data[p + 4..p + 8];
      r := Xor(r, Load(data[p..p + 4]));
      r := LookUp(r, table, 4);
      var d := LookUp(Load(data[p + 4..p + 8]), table, 0);
      r := Xor(r, d);
      p := p + 8;
    }
    r, p := UpdateBytes(r, data, p, address, 0, table, v);
    assert data[..p] == data[..];
  }

  // ---------- Big-endian machines ----------

  /** CRC_UINT32_SWAP */
  function Swap(v: bv32): bv32 {
    (v >> 24) | ((v >> 8) & 0xFF00) | ((v << 8) & 0xFF_0000) | (v << 24)
  }

  lemma SwapXor(a: bv32, b: bv32)
    ensures Swap(Xor(a, b)) == Xor(Swap(a), Swap(b))
  {
  }

  lemma SwapTwice(v: bv32)
    ensures Swap(Swap(v)) == v
  {
  }

  lemma SwapBytes(w: bv32)
    ensures Low(Swap(w)) == Byte3(w) && Byte1(Swap(w)) == Byte2(w) && Byte2(Swap(w)) == Byte1(w) && Byte3(Swap(w)) == Low(w)
    ensures Swap(Down(w)) == Up(Swap(w))
  {
  }

  /** The tables follow one unused table, each entry in the other byte order. */
  ghost predicate SwappedOk(t: seq<bv32>, n: nat) {
    |t| >= 0x100 + n && forall k :: 0 <= k < n ==> t[0x100 + k] == Swap(Entry(k))
  }

  lemma SwappedLength(t: seq<bv32>, n: nat)
    requires SwappedOk(t, n)
    ensures 0x100 + n <= |t| && forall m: nat :: m <= n ==> SwappedOk(t, m)
  {
  }

  lemma LookedSwapped(t: seq<bv32>, n: nat, j: nat, w: bv32)
    requires SwappedOk(t, n) && 0x100 * (j + 1) <= n && w < 0x100
    ensures Index(w) < 0x100 && t[0x100 + (0x100 * j + Index(w))] == Swap(Zeros(w, j + 1))
  {
    ByteOfIndex(w);
    var k := 0x100 * j + Index(w);
    hide Index, Byte, Zeros, Swap;
    assert k % 0x100 == Index(w) && k / 0x100 == j;
    assert t[0x100 + k] == Swap(Entry(k));
  }

  /** CrcGenerateTable, the reordering for big-endian machines. */
  method SwapTable(table: array<bv32>)
    requires table.Length >= 0x100 && TableOk(table[..], table.Length)
    modifies table
    ensures SwappedOk(table[..], table.Length - 0x100)
  {
    hide Swap, Entry;
    var i := table.Length - 1;
    while i >= 0x100
      invariant 0xFF <= i < table.Length
      invariant forall k :: 0 <= k <= i ==> table[k] == Entry(k)
      invariant forall k: nat :: i < k < table.Length ==> table[k] == Swap(Entry(k - 0x100))
    {
      var x := table[i - 0x100];
      table[i] := Swap(x);
      i := i - 1;
    }
  }

  /** CRC_UPDATE_BYTE_2_BE: r and v are CRC registers in the other byte order. */
  method UpdateByte2Be(v: bv32, b: bv8, table: array<bv32>) returns (r: bv32)
    requires SwappedOk(table[..], 0x100)
    ensures r == Swap(Zero(Xor(Swap(v), Wide(b))))
  {
    hide Xor, Zeros, Steps, Low, Down, Up, Wide, Index, SwappedOk, Swap, Byte3;
    ghost var u := Xor(Swap(v), Wide(b));
    var w := Xor(Byte3(v), Wide(b));
    UpdateByte(Swap(v), b);
    UpdateByteBe(v, b);
    SwappedLength(table[..], 0x100);
    LookedSwapped(table[..], 0x100, 0, w);
    OneZero(w);
    ZeroSplit(u);
    SwapXor(Zero(w), Down(u));
    SwapBytes(Swap(v));
    SwapTwice(v);
    r := Xor(table[0x100 + Index(w)], Up(v));
  }

  lemma UpdateByteBe(v: bv32, b: bv8)
    ensures Xor(Byte3(v), Wide(b)) == Low(Xor(Swap(v), Wide(b)))
  {
  }

  /** The look-ups for the word w, which is in the other byte order, in the swapped tables from table n on. */
  method LookUpBe(w: bv32, table: array<bv32>, n: nat) returns (r: bv32)
    requires SwappedOk(table[..], 0x100 * n + 0x400)
    ensures r == Swap(Zeros(Swap(w), n + 4))
  {
    hide Xor, Zeros, Low, Byte1, Byte2, Byte3, Index, SwappedOk, Swap, Up, Down;
    ghost var t, size, u := table[..], 0x100 * n + 0x400, Swap(w);
    SwapTwice(w);
    SwapBytes(u);
    BytesDown(u);
    BytesDown(w);
    FourParts(u, n);
    SwappedLength(t, size);
    LookedSwapped(t, size, n + 3, Low(u));
    LookedSwapped(t, size, n + 2, Byte1(u));
    LookedSwapped(t, size, n + 1, Byte2(u));
    LookedSwapped(t, size, n, Byte3(u));
    ghost var a, b, c, d := Zeros(Low(u), n + 4), Zeros(Byte1(u), n + 3), Zeros(Byte2(u), n + 2), Zeros(Byte3(u), n + 1);
    SwapXor(Xor(Xor(a, b), c), d);
    SwapXor(Xor(a, b), c);
    SwapXor(a, b);
    XorReverse(Swap(a), Swap(b), Swap(c), Swap(d));
    var base := 0x100 + 0x100 * n;
    r := Xor(Xor(Xor(table[base + Index(Low(w))], table[base + 0x100 + Index(Byte1(w))]),
                 table[base + 0x200 + Index(Byte2(w))]), table[base + 0x300 + Index(Byte3(w))]);
  }

  lemma XorReverse(a: bv32, b: bv32, c: bv32, d: bv32)
    ensures Xor(Xor(Xor(a, b), c), d) == Xor(Xor(Xor(d, c), b), a)
  {
    hide Xor;
    XorMove(Xor(a, b), c, d);
    XorMove(a, b, d);
    XorComm(a, d);
    XorMove(Xor(d, a), b, c);
    XorMove(d, a, c);
    XorMove(Xor(d, c), a, b);
  }

  function Or4(a: bv8, b: bv8, c: bv8, d: bv8): bv32 {
    (Wide(a) << 24) | (Wide(b) << 16) | (Wide(c) << 8) | Wide(d)
  }

  /** *(const UInt32 *)p in big-endian order. */
  function LoadBe(s: seq<bv8>): bv32
    requires |s| == 4
  {
    Or4(s[0], s[1], s[2], s[3])
  }

  lemma LoadSwapped(s: seq<bv8>)
    requires |s| == 4
    ensures LoadBe(s) == Swap(Load(s))
  {
    hide Xor, Wide, Up, Swap, Load, Or4;
    LoadIs(s);
    LoadedBytes(s[0], s[1], s[2], s[3]);
  }

  lemma LoadedBytes(a: bv8, b: bv8, c: bv8, d: bv8)
    ensures Or4(a, b, c, d) ==
            Swap(Xor(Wide(a), Up(Xor(Wide(b), Up(Xor(Wide(c), Up(Wide(d))))))))
  {
  }

  method UpdateBytesBe(v: bv32, data: array<bv8>, start: nat, address: nat, unit: nat, table: array<bv32>, ghost v0: bv32)
    returns (r: bv32, p: nat)
    requires SwappedOk(table[..], 0x100) && start <= data.Length && Swap(v) == Crc(v0, data[..start])
    ensures start <= p <= data.Length && Swap(r) == Crc(v0, data[..p])
    ensures unit == 0 ==> p == data.Length
  {
    hide Xor, Zeros, Steps, Wide, SwappedOk, Crc, Swap;
    r, p := v, start;
    while p < data.Length && (unit == 0 || (address + p) % unit != 0)
      invariant start <= p <= data.Length && Swap(r) == Crc(v0, data[..p])
      decreases data.Length - p
    {
      CrcLast(v0, data[..], p);
      assert data[..][..p] == data[..p] && data[..][..p + 1] == data[..p + 1];
      r := UpdateByte2Be(r, data[p], table);
      SwapTwice(Zero(Xor(Crc(v0, data[..p]), Wide(data[p]))));
      p := p + 1;
    }
  }

  /** CrcUpdateT1_BeT4, for data at any address. */
  method CrcUpdateT1BeT4(v: bv32, data: array<bv8>, address: nat, table: array<bv32>) returns (r: bv32)
    requires SwappedOk(table[..], 0x400)
    ensures r == Crc(v, data[..])
  {
    hide Xor, Zeros, SwappedOk, Crc, Load, LoadBe, Swap;
    CrcNone(v);
    SwapTwice(v);
    assert data[..0] == [];
    SwappedLength(table[..], 0x400);
    var p;
    r, p := UpdateBytesBe(Swap(v), data, 0, address, 4, table, v);
    while data.Length - p >= 4
      invariant p <= data.Length && Swap(r) == Crc(v, data[..p])
    {
      CrcWord(v, data[..], p);
      assert data[..][..p] == data[..p] && data[..][..p + 4] == data[..p + 4] && data[..][p..p + 4] == data[p..p + 4];
      LoadSwapped(data[p..p + 4]);
      SwapTwice(Load(data[p..p + 4]));
      SwapXor(r, LoadBe(data[p..p + 4]));
      r := Xor(r, LoadBe(data[p..p + 4]));
      r := LookUpBe(r, table, 0);
      SwapTwice(Crc(v, data[..p + 4]));
      p := p + 4;
    }
    r, p := UpdateBytesBe(r, data, p, address, 0, table, v);
    assert data[..p] == data[..];
    r := Swap(r);
  }

  /** CrcUpdateT1_BeT8, for data at any address. */
  method CrcUpdateT1BeT8(v: bv32, data: array<bv8>, address: nat, table: array<bv32>) returns (r: bv32)
    requires SwappedOk(table[..], 0x800)
    ensures r == Crc(v, data[..])
  {
    hide Xor, Zeros, SwappedOk, Crc, Load, LoadBe, Swap;
    CrcNone(v);
    SwapTwice(v);
    assert data[..0] == [];
    SwappedLength(table[..], 0x800);
    var p;
    r, p := UpdateBytesBe(Swap(v), data, 0, address, 8, table, v);
    while data.Length - p >= 8
      invariant p <= data.Length && Swap(r) == Crc(v, data[..p])
    {
      CrcTwoWords(v, data[..], p);
      assert data[..][..p] == data[..p] && data[..][..p + 8] == data[..p + 8];
      assert data[..][p..p + 4] == data[p..p + 4] && data[..][p + 4..p + 8] == data[p + 4..p + 8];
      ghost var w, w2 := Load(data[p..p + 4]), Load(data[p + 4..p + 8]);
      LoadSwapped(data[p..p + 4]);
      LoadSwapped(data[p + 4..p + 8]);
      SwapTwice(w);
      SwapTwice(w2);
      SwapXor(r, LoadBe(data[p..p + 4]));
      ghost var a, b := Zeros(Xor(Swap(r), w), 8), Zeros(w2, 4);
      r := Xor(r, LoadBe(data[p..p + 4]));
      r := LookUpBe(r, table, 4);
      var d := LookUpBe(LoadBe(data[p + 4..p + 8]), table, 0);
      r := Xor(r, d);
      SwapXor(a, b);
      SwapTwice(Xor(a, b));
      p := p + 8;
    }
    r, p := UpdateBytesBe(r, data, p, address, 0, table, v);
    assert data[..p] == data[..];
    r := Swap(r);
  }

  // ---------- The polynomial ----------

  /** Dividing out one bit. */
  lemma StepIs(r: bv32)
    ensures Step(r) == if r & 1 == 1 then (r >> 1) ^ 0xEDB8_8320 else r >> 1
  {
    OddPolyIs(r);
  }

  /** CrcCalc */
  function Calc(data: seq<bv8>): bv32 {
    Xor(Crc(0xFFFF_FFFF, data), 0xFFFF_FFFF)
  }

  /** The register after each byte of 123456789. */
  lemma Registers()
    ensures Zero(Xor(0xFFFF_FFFF, Wide(0x31))) == 0x7C23_1048
    ensures Zero(Xor(0x7C23_1048, Wide(0x32))) == 0xB0AC_BB32
    ensures Zero(Xor(0xB0AC_BB32, Wide(0x33))) == 0x77B7_9C2D
    ensures Zero(Xor(0x77B7_9C2D, Wide(0x34))) == 0x641C_1F5C
    ensures Zero(Xor(0x641C_1F5C, Wide(0x35))) == 0x340A_C5E3
  {
  }

  lemma RegistersLater()
    ensures Zero(Xor(0x340A_C5E3, Wide(0x36))) == 0xF68D_2C9E
    ensures Zero(Xor(0xF68D_2C9E, Wide(0x37))) == 0xAFFC_9660
    ensures Zero(Xor(0xAFFC_9660, Wide(0x38))) == 0x651F_2550
    ensures Zero(Xor(0x651F_2550, Wide(0x39))) == 0x340B_C6D9
  {
  }

  lemma CrcNext(v: bv32, data: seq<bv8>, r: bv32)
    requires data != [] && Zero(Xor(v, Wide(data[0]))) == r
    ensures Crc(v, data) == Crc(r, data[1..])
  {
  }

  lemma CalcIs(data: seq<bv8>)
    requires Crc(0xFFFF_FFFF, data) == 0x340B_C6D9
    ensures Calc(data) == 0xCBF4_3926
  {
  }

  lemma CrcFirst()
    ensures Crc(0xFFFF_FFFF, [0x31, 0x32, 0x33, 0x34, 0x35]) == 0x340A_C5E3
  {
    hide Zero, Crc, Xor, Wide;
    var s: seq<bv8> := [0x31, 0x32, 0x33, 0x34, 0x35];
    Registers();
    CrcNext(0xFFFF_FFFF, s, 0x7C23_1048);
    CrcNext(0x7C23_1048, s[1..], 0xB0AC_BB32);
    CrcNext(0xB0AC_BB32, s[2..], 0x77B7_9C2D);
    CrcNext(0x77B7_9C2D, s[3..], 0x641C_1F5C);
    CrcNext(0x641C_1F5C, s[4..], 0x340A_C5E3);
    CrcNone(0x340A_C5E3);
    assert s[5..] == [];
  }

  lemma CrcLater()
    ensures Crc(0x340A_C5E3, [0x36, 0x37, 0x38, 0x39]) == 0x340B_C6D9
  {
    hide Zero, Crc, Xor, Wide;
    var s: seq<bv8> := [0x36, 0x37, 0x38, 0x39];
    RegistersLater();
    CrcNext(0x340A_C5E3, s, 0xF68D_2C9E);
    CrcNext(0xF68D_2C9E, s[1..], 0xAFFC_9660);
    CrcNext(0xAFFC_9660, s[2..], 0x651F_2550);
    CrcNext(0x651F_2550, s[3..], 0x340B_C6D9);
    CrcNone(0x340B_C6D9);
    assert s[4..] == [];
  }

  /** The check value by which this CRC is known: that of 123456789. */
  lemma KnownAnswer()
    ensures Calc([0x31, 0x32, 0x33, 0x34, 0x35, 0x36, 0x37, 0x38, 0x39]) == 0xCBF4_3926
  {
    hide Crc, Xor, Calc;
    var a: seq<bv8>, b: seq<bv8> := [0x31, 0x32, 0x33, 0x34, 0x35], [0x36, 0x37, 0x38, 0x39];
    CrcFirst();
    CrcLater();
    CrcAppend(0xFFFF_FFFF, a, b);
    assert a + b == [0x31, 0x32, 0x33, 0x34, 0x35, 0x36, 0x37, 0x38, 0x39];
    CalcIs(a + b);
  }
}
