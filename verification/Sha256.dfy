/** SHA-256 of Sha256.c, against FIPS 180-4: one block at a time, and in any pieces. */
module Sha256 {
  import opened Arithmetic

  // ---------- The functions of section 4.1.2 ----------

  function BigSigma0(x: bv32): bv32 { x.RotateRight(2) ^ x.RotateRight(13) ^ x.RotateRight(22) }
  function BigSigma1(x: bv32): bv32 { x.RotateRight(6) ^ x.RotateRight(11) ^ x.RotateRight(25) }
  function Sigma0(x: bv32): bv32 { x.RotateRight(7) ^ x.RotateRight(18) ^ (x >> 3) }
  function Sigma1(x: bv32): bv32 { x.RotateRight(17) ^ x.RotateRight(19) ^ (x >> 10) }
  function Choice(x: bv32, y: bv32, z: bv32): bv32 { (x & y) ^ (!x & z) }
  function Majority(x: bv32, y: bv32, z: bv32): bv32 { (x & y) ^ (x & z) ^ (y & z) }

  /** The rotations as the source writes them, with shifts. */
  lemma Sigma0Is(x: bv32)
    ensures Sigma0(x) == ((x >> 7) | (x << 25)) ^ ((x >> 18) | (x << 14)) ^ (x >> 3)
  {
  }

  lemma Sigma1Is(x: bv32)
    ensures Sigma1(x) == ((x >> 17) | (x << 15)) ^ ((x >> 19) | (x << 13)) ^ (x >> 10)
  {
  }

  lemma BigSigma0Is(x: bv32)
    ensures BigSigma0(x) == ((x >> 2) | (x << 30)) ^ ((x >> 13) | (x << 19)) ^ ((x >> 22) | (x << 10))
  {
  }

  lemma BigSigma1Is(x: bv32)
    ensures BigSigma1(x) == ((x >> 6) | (x << 26)) ^ ((x >> 11) | (x << 21)) ^ ((x >> 25) | (x << 7))
  {
  }

  /** The source writes two of them differently. */
  function Ch(x: bv32, y: bv32, z: bv32): bv32 { z ^ (x & (y ^ z)) }
  function Maj(x: bv32, y: bv32, z: bv32): bv32 { (x & y) | (z & (x | y)) }

  lemma ChBits(x: bv32, y: bv32, z: bv32)
    ensures Ch(x, y, z) == (x & y) ^ (!x & z)
  {
  }

  lemma ChIsChoice(x: bv32, y: bv32, z: bv32)
    ensures Ch(x, y, z) == Choice(x, y, z)
  {
    hide Ch;
    ChBits(x, y, z);
  }

  lemma MajBits(x: bv32, y: bv32, z: bv32)
    ensures Maj(x, y, z) == (x & y) ^ (x & z) ^ (y & z)
  {
  }

  lemma MajIsMajority(x: bv32, y: bv32, z: bv32)
    ensures Maj(x, y, z) == Majority(x, y, z)
  {
    hide Maj;
    MajBits(x, y, z);
  }

  const K_FIRST: seq<bv32> := [
    0x428a_2f98, 0x7137_4491, 0xb5c0_fbcf, 0xe9b5_dba5, 0x3956_c25b, 0x59f1_11f1, 0x923f_82a4, 0xab1c_5ed5,
    0xd807_aa98, 0x1283_5b01, 0x2431_85be, 0x550c_7dc3, 0x72be_5d74, 0x80de_b1fe, 0x9bdc_06a7, 0xc19b_f174
  ]

  const K_SECOND: seq<bv32> := [
    0xe49b_69c1, 0xefbe_4786, 0x0fc1_9dc6, 0x240c_a1cc, 0x2de9_2c6f, 0x4a74_84aa, 0x5cb0_a9dc, 0x76f9_88da,
    0x983e_5152, 0xa831_c66d, 0xb003_27c8, 0xbf59_7fc7, 0xc6e0_0bf3, 0xd5a7_9147, 0x06ca_6351, 0x1429_2967
  ]

  const K_THIRD: seq<bv32> := [
    0x27b7_0a85, 0x2e1b_2138, 0x4d2c_6dfc, 0x5338_0d13, 0x650a_7354, 0x766a_0abb, 0x81c2_c92e, 0x9272_2c85,
    0xa2bf_e8a1, 0xa81a_664b, 0xc24b_8b70, 0xc76c_51a3, 0xd192_e819, 0xd699_0624, 0xf40e_3585, 0x106a_a070
  ]

  const K_FOURTH: seq<bv32> := [
    0x19a4_c116, 0x1e37_6c08, 0x2748_774c, 0x34b0_bcb5, 0x391c_0cb3, 0x4ed8_aa4a, 0x5b9c_ca4f, 0x682e_6ff3,
    0x748f_82ee, 0x78a5_636f, 0x84c8_7814, 0x8cc7_0208, 0x90be_fffa, 0xa450_6ceb, 0xbef9_a3f7, 0xc671_78f2
  ]

  const K: seq<bv32> := K_FIRST + K_SECOND + K_THIRD + K_FOURTH

  const INIT: seq<bv32> := [
    0x6a09_e667, 0xbb67_ae85, 0x3c6e_f372, 0xa54f_f53a, 0x510e_527f, 0x9b05_688c, 0x1f83_d9ab, 0x5be0_cd19
  ]

  lemma TableSizes()
    ensures |K| == 64 && |INIT| == 8
  {
  }

  /** Sums modulo 2^32, in the order in which they are taken. */
  function Add(a: bv32, b: bv32): bv32 { a + b }

  // ---------- The hash computation of section 6.2.2 ----------

  /** Word t of the message schedule of a block of 16 words. */
  function Schedule(m: seq<bv32>, t: nat): bv32
    requires |m| == 16
  {
    if t < 16 then m[t]
    else Add(Schedule(m, t - 16), Add(Add(Sigma1(Schedule(m, t - 2)), Schedule(m, t - 7)), Sigma0(Schedule(m, t - 15))))
  }

  /** One round on the working variables a .. h. */
  function Round(v: seq<bv32>, k: bv32, w: bv32): (r: seq<bv32>)
    requires |v| == 8
    ensures |r| == 8
  {
    var t1 := Add(v[7], Add(Add(Add(BigSigma1(v[4]), Choice(v[4], v[5], v[6])), k), w));
    var t2 := Add(BigSigma0(v[0]), Majority(v[0], v[1], v[2]));
    [Add(t1, t2), v[0], v[1], v[2], Add(v[3], t1), v[4], v[5], v[6]]
  }

  /** The working variables after t rounds. */
  function Rounds(v: seq<bv32>, m: seq<bv32>, t: nat): (r: seq<bv32>)
    requires |v| == 8 && |m| == 16 && t <= 64
    ensures |r| == 8
  {
    if t == 0 then v else TableSizes(); Round(Rounds(v, m, t - 1), K[t - 1], Schedule(m, t - 1))
  }

  function Sums(a: seq<bv32>, b: seq<bv32>): (r: seq<bv32>)
    requires |a| == |b|
    ensures |r| == |a|
  {
    seq(|a|, i requires 0 <= i < |a| => Add(a[i], b[i]))
  }

  /** GetBe32 */
  function Word(s: seq<bv8>): bv32
    requires |s| == 4
  {
    ((s[0] as bv32) << 24) | ((s[1] as bv32) << 16) | ((s[2] as bv32) << 8) | (s[3] as bv32)
  }

  /** SetBe32 */
  function Bytes4(w: bv32): (s: seq<bv8>)
    ensures |s| == 4
  {
    [(w >> 24) as bv8, ((w >> 16) & 0xFF) as bv8, ((w >> 8) & 0xFF) as bv8, (w & 0xFF) as bv8]
  }

  function Words(block: seq<bv8>): (m: seq<bv32>)
    requires |block| == 64
    ensures |m| == 16
  {
    seq(16, i requires 0 <= i < 16 => Word(block[4 * i..4 * i + 4]))
  }

  /** The hash value after one more block. */
  function Compress(h: seq<bv32>, block: seq<bv8>): (r: seq<bv32>)
    requires |h| == 8 && |block| == 64
    ensures |r| == 8
  {
    Sums(h, Rounds(h, Words(block), 64))
  }

  /** The hash value after all whole blocks of s. */
  function Blocks(h: seq<bv32>, s: seq<bv8>): (r: seq<bv32>)
    requires |h| == 8
    ensures |r| == 8
    decreases |s|
  {
    if |s| < 64 then h else Blocks(Compress(h, s[..64]), s[64..])
  }

  lemma {:induction false} BlocksJoin(h: seq<bv32>, a: seq<bv8>, b: seq<bv8>)
    requires |h| == 8 && |a| % 64 == 0
    ensures Blocks(h, a + b) == Blocks(Blocks(h, a), b)
    decreases |a|
  {
    hide Compress;
    if a == [] {
      assert a + b == b;
    } else {
      assert (a + b)[..64] == a[..64] && (a + b)[64..] == a[64..] + b;
      BlocksJoin(Compress(h, a[..64]), a[64..], b);
    }
  }

  /** One more block is one more compression. */
  lemma BlocksLast(h: seq<bv32>, s: seq<bv8>, block: seq<bv8>)
    requires |h| == 8 && |s| % 64 == 0 && |block| == 64
    ensures Blocks(h, []) == h && Blocks(h, s + block) == Compress(Blocks(h, s), block)
  {
    hide Compress;
    BlocksJoin(h, s, block);
    assert block[..64] == block && block[64..] == [];
  }

  // ---------- Padding and digest, sections 5.1.1 and 6.2.2 ----------

  function Zeros(n: nat): (s: seq<bv8>)
    ensures |s| == n
  {
    seq(n, _ => 0)
  }

  function Byte(n: nat): bv8 { (n % 256) as bv8 }

  /** The number of bits, as a 64-bit big-endian number. */
  function Length(bytes: nat): (s: seq<bv8>)
    ensures |s| == 8
  {
    var n := 8 * bytes;
    [Byte(n / 0x100_0000_0000_0000), Byte(n / 0x1_0000_0000_0000), Byte(n / 0x100_0000_0000), Byte(n / 0x1_0000_0000),
     Byte(n / 0x100_0000), Byte(n / 0x1_0000), Byte(n / 0x100), Byte(n)]
  }

  /** The number that digits from 0 to 255 stand for, the first one counting for the most. */
  function BigEndian(s: seq<nat>): nat {
    if s == [] then 0 else 0x100 * BigEndian(s[..|s| - 1]) + s[|s| - 1]
  }

  lemma Horner(n: nat, m: nat, s: seq<nat>, p: nat)
    requires p > 0 && m == n / 0x100 && BigEndian(s) == m % p
    ensures BigEndian(s + [n % 0x100]) == n % (0x100 * p)
  {
    hide BigEndian;
    BigEndianMore(s, n % 0x100);
    HornerStep(n, m, p);
  }

  lemma HornerStep(n: nat, m: nat, p: nat)
    requires p > 0 && m == n / 0x100
    ensures n % (0x100 * p) == 0x100 * (m % p) + n % 0x100
  {
    DivisionParts(n, 0x100);
    DivisionParts(m, p);
    ScaleProduct(0x100, p, m / p);
    RemainderIs(n, 0x100 * p, m / p, 0x100 * (m % p) + n % 0x100);
  }

  lemma BigEndianMore(s: seq<nat>, b: nat)
    ensures BigEndian(s + [b]) == 0x100 * BigEndian(s) + b
  {
    assert (s + [b])[..|s|] == s;
  }

  /** The length is written as the digits of the number of bits modulo 2^64. */
  lemma LengthValue(bytes: nat) returns (digits: seq<nat>)
    ensures |digits| == 8 && BigEndian(digits) == 8 * bytes % 0x1_0000_0000_0000_0000
    ensures forall i :: 0 <= i < 8 ==> digits[i] < 0x100 && Length(bytes)[i] == Byte(digits[i])
  {
    hide Length, Byte, BigEndian;
    var n := 8 * bytes;
    digits := LengthDigits(n);
    LengthIs(bytes);
    BytesOfDigits(n / 0x100_0000_0000_0000, n / 0x1_0000_0000_0000, n / 0x100_0000_0000, n / 0x1_0000_0000,
      n / 0x100_0000, n / 0x1_0000, n / 0x100, n, Length(bytes), digits);
  }

  lemma LengthIs(bytes: nat)
    ensures var n := 8 * bytes;
            Length(bytes) ==
              [Byte(n / 0x100_0000_0000_0000), Byte(n / 0x1_0000_0000_0000), Byte(n / 0x100_0000_0000), Byte(n / 0x1_0000_0000),
               Byte(n / 0x100_0000), Byte(n / 0x1_0000), Byte(n / 0x100), Byte(n)]
  {
    hide Byte;
  }

  lemma BytesOfDigits(a: nat, b: nat, c: nat, d: nat, e: nat, f: nat, g: nat, h: nat, s: seq<bv8>, digits: seq<nat>)
    requires s == [Byte(a), Byte(b), Byte(c), Byte(d), Byte(e), Byte(f), Byte(g), Byte(h)]
    requires digits == [a % 0x100, b % 0x100, c % 0x100, d % 0x100, e % 0x100, f % 0x100, g % 0x100, h % 0x100]
    ensures forall i :: 0 <= i < 8 ==> digits[i] < 0x100 && s[i] == Byte(digits[i])
  {
    hide Byte;
    SameByte(a, b, c, d);
    SameByte(e, f, g, h);
  }

  lemma SameByte(a: nat, b: nat, c: nat, d: nat)
    ensures Byte(a % 0x100) == Byte(a) && Byte(b % 0x100) == Byte(b) && Byte(c % 0x100) == Byte(c) && Byte(d % 0x100) == Byte(d)
  {
    Remainders(a);
    Remainders(b);
    Remainders(c);
    Remainders(d);
  }

  lemma Remainders(n: nat)
    ensures n % 0x100 % 0x100 == n % 0x100
  {
  }

  lemma LengthDigits(n: nat) returns (digits: seq<nat>)
    ensures BigEndian(digits) == n % 0x1_0000_0000_0000_0000
    ensures digits == [n / 0x100_0000_0000_0000 % 0x100, n / 0x1_0000_0000_0000 % 0x100, n / 0x100_0000_0000 % 0x100,
                       n / 0x1_0000_0000 % 0x100, n / 0x100_0000 % 0x100, n / 0x1_0000 % 0x100, n / 0x100 % 0x100, n % 0x100]
  {
    hide BigEndian;
    assert BigEndian([]) == 0 by { NoBytes(); }
    var a, b, c, d := n / 0x100_0000_0000_0000, n / 0x1_0000_0000_0000, n / 0x100_0000_0000, n / 0x1_0000_0000;
    var e, f, g := n / 0x100_0000, n / 0x1_0000, n / 0x100;
    var s: seq<nat> := [];
    Horner(a, a / 0x100, s, 1);
    s := s + [a % 0x100];
    Horner(b, a, s, 0x100);
    s := s + [b % 0x100];
    Horner(c, b, s, 0x1_0000);
    s := s + [c % 0x100];
    Horner(d, c, s, 0x100_0000);
    s := s + [d % 0x100];
    Horner(e, d, s, 0x1_0000_0000);
    s := s + [e % 0x100];
    Horner(f, e, s, 0x100_0000_0000);
    s := s + [f % 0x100];
    Horner(g, f, s, 0x1_0000_0000_0000);
    s := s + [g % 0x100];
    Horner(n, g, s, 0x100_0000_0000_0000);
    digits := s + [n % 0x100];
  }

  lemma NoBytes()
    ensures BigEndian([]) == 0
  {
  }

  /** The least number of zero bytes that fills the last block up. */
  function ZeroCount(bytes: nat): (n: nat)
    ensures n < 64 && (bytes + 1 + n + 8) % 64 == 0
  {
    (119 - bytes % 64) % 64
  }

  function Padded(message: seq<bv8>): (s: seq<bv8>)
    ensures |s| % 64 == 0
  {
    message + [0x80] + Zeros(ZeroCount(|message|)) + Length(|message|)
  }

  function Output(h: seq<bv32>): (s: seq<bv8>)
    requires |h| == 8
  {
    Bytes4(h[0]) + Bytes4(h[1]) + Bytes4(h[2]) + Bytes4(h[3]) + Bytes4(h[4]) + Bytes4(h[5]) + Bytes4(h[6]) + Bytes4(h[7])
  }

  /** The digest of a message. */
  function Digest(message: seq<bv8>): seq<bv8> {
    TableSizes();
    Output(Blocks(INIT, Padded(message)))
  }

  // ---------- The rotating registers and the ring of 16 words ----------

  /** T[(n - i) & 7] */
  function Slot(n: nat, i: nat): (k: nat)
    requires n < 8 && i <= 16
    ensures k < 8
  {
    (n + 16 - i) % 8
  }

  /** The working variables that the registers hold after i rounds. */
  function View(regs: seq<bv32>, i: nat): (v: seq<bv32>)
    requires |regs| == 8 && i <= 16
    ensures |v| == 8
  {
    [regs[Slot(0, i)], regs[Slot(1, i)], regs[Slot(2, i)], regs[Slot(3, i)],
     regs[Slot(4, i)], regs[Slot(5, i)], regs[Slot(6, i)], regs[Slot(7, i)]]
  }

  lemma ViewFull(regs: seq<bv32>)
    requires |regs| == 8
    ensures View(regs, 16) == View(regs, 0) == regs
  {
  }

  lemma SlotNext(n: nat, i: nat)
    requires n < 8 && i < 16
    ensures Slot(n, i + 1) == if n == 0 then Slot(7, i) else Slot(n - 1, i)
  {
    if n == 0 {
      var t := 15 - i;
      assert (t + 8) % 8 == t % 8;
    }
  }

  lemma SlotsDiffer(n: nat, m: nat, i: nat)
    requires n < 8 && m < 8 && i <= 16 && Slot(n, i) == Slot(m, i)
    ensures n == m
  {
    var p, q := (n + 16 - i) / 8, (m + 16 - i) / 8;
    assert n - m == 8 * (p - q);
  }

  /** Two registers change, and all of them change their names. */
  lemma ViewNext(regs: seq<bv32>, i: nat, h: bv32, d: bv32)
    requires |regs| == 8 && i < 16
    ensures var v := View(regs, i);
            View(regs[Slot(7, i) := h][Slot(3, i) := d], i + 1) == [h, v[0], v[1], v[2], d, v[4], v[5], v[6]]
  {
    hide Slot;
    var r := regs[Slot(7, i) := h][Slot(3, i) := d];
    forall n: nat | n < 8
      ensures r[Slot(n, i)] == if n == 7 then h else if n == 3 then d else regs[Slot(n, i)]
    {
      if Slot(n, i) == Slot(7, i) {
        SlotsDiffer(n, 7, i);
      }
      if Slot(n, i) == Slot(3, i) {
        SlotsDiffer(n, 3, i);
      }
      if Slot(3, i) == Slot(7, i) {
        SlotsDiffer(3, 7, i);
      }
    }
    var next := i + 1;
    forall n: nat | n < 8
      ensures Slot(n, next) == if n == 0 then Slot(7, i) else Slot(n - 1, i)
    {
      SlotNext(n, i);
    }
  }

  /** The ring before round i of the group of rounds that begins with j. */
  ghost predicate Ring(w: seq<bv32>, m: seq<bv32>, j: nat, i: nat) {
    |w| == |m| == 16 && forall k: nat :: k < 16 ==> w[k] == Schedule(m, Holds(k, j, i))
  }

  /** The word of the schedule in place k of the ring. */
  function Holds(k: nat, j: nat, i: nat): nat
    requires k < 16
  {
    if j == 0 || k < i then j + k else if j < 16 then k else j - 16 + k
  }

  lemma HoldsBack(j: nat, i: nat)
    requires i < 16 && j >= 16
    ensures Holds(i, j, i) == j + i - 16 && Holds((i + 14) % 16, j, i) == j + i - 2
    ensures Holds((i + 9) % 16, j, i) == j + i - 7 && Holds((i + 1) % 16, j, i) == j + i - 15
  {
  }

  /** Only place i holds another word after round i. */
  lemma HoldsNext(k: nat, j: nat, i: nat)
    requires k < 16 && i < 16 && j >= 16
    ensures Holds(k, j, i + 1) == if k == i then j + i else Holds(k, j, i)
  {
  }

  lemma ScheduleNext(m: seq<bv32>, t: nat)
    requires |m| == 16 && t >= 16
    ensures Schedule(m, t) ==
            Add(Schedule(m, t - 16), Add(Add(Sigma1(Schedule(m, t - 2)), Schedule(m, t - 7)), Sigma0(Schedule(m, t - 15))))
  {
    hide Sigma0, Sigma1;
  }

  lemma RingNext(w: seq<bv32>, m: seq<bv32>, j: nat, i: nat)
    requires Ring(w, m, j, i) && i < 16 && j >= 16 && j % 16 == 0
    ensures var x := Add(w[i], Add(Add(Sigma1(w[(i + 14) % 16]), w[(i + 9) % 16]), Sigma0(w[(i + 1) % 16])));
            x == Schedule(m, j + i) && Ring(w[i := x], m, j, i + 1)
  {
    hide Sigma0, Sigma1, Add, Schedule, Holds;
    HoldsBack(j, i);
    ScheduleNext(m, j + i);
    forall k: nat | k < 16
      ensures Holds(k, j, i + 1) == if k == i then j + i else Holds(k, j, i)
    {
      HoldsNext(k, j, i);
    }
  }

  lemma RingFirst(w: seq<bv32>, m: seq<bv32>, i: nat)
    requires Ring(w, m, 0, i) && i < 16
    ensures w[i] == Schedule(m, i) && Ring(w, m, 0, i + 1)
  {
    assert Holds(i, 0, i) == i;
  }

  lemma RingGroup(w: seq<bv32>, m: seq<bv32>, j: nat)
    requires Ring(w, m, j, 16) && j % 16 == 0
    ensures Ring(w, m, j + 16, 0)
  {
    forall k: nat | k < 16
      ensures w[k] == Schedule(m, Holds(k, j + 16, 0))
    {
      assert Holds(k, j + 16, 0) == Holds(k, j, 16);
    }
  }

  lemma RingStart(m: seq<bv32>)
    requires |m| == 16
    ensures Ring(m, m, 0, 0)
  {
  }

  // ---------- The compression as it is done ----------

  /** R(i): T1 is added to the register h, then to d; then T2 to h. */
  method RoundInPlace(regs: array<bv32>, i: nat, k: bv32, w: bv32)
    requires regs.Length == 8 && i < 16
    modifies regs
    ensures View(regs[..], i + 1) == Round(View(old(regs[..]), i), k, w)
  {
    hide Add, BigSigma0, BigSigma1, Ch, Maj, Choice, Majority;
    ghost var was: seq<bv32> := regs[..];
    ghost var v := View(was, i);
    var a, b, c, d := regs[Slot(0, i)], regs[Slot(1, i)], regs[Slot(2, i)], regs[Slot(3, i)];
    var e, f, g, h := regs[Slot(4, i)], regs[Slot(5, i)], regs[Slot(6, i)], regs[Slot(7, i)];
    ChIsChoice(e, f, g);
    MajIsMajority(a, b, c);
    var s := Add(Add(Add(BigSigma1(e), Ch(e, f, g)), k), w);
    var t1 := Add(h, s);
    regs[Slot(7, i)] := t1;
    regs[Slot(3, i)] := Add(d, t1);
    regs[Slot(7, i)] := Add(t1, Add(BigSigma0(a), Maj(a, b, c)));
    ViewNext(was, i, Add(t1, Add(BigSigma0(a), Maj(a, b, c))), Add(d, t1));
    assert regs[..] == was[Slot(7, i) := Add(t1, Add(BigSigma0(a), Maj(a, b, c)))][Slot(3, i) := Add(d, t1)];
  }

  /** GetBe32 of the 16 words. */
  method LoadWords(buffer: array<bv8>) returns (w: array<bv32>)
    requires buffer.Length == 64
    ensures fresh(w) && w.Length == 16 && w[..] == Words(buffer[..])
  {
    hide Word;
    w := new bv32[16];
    for j := 0 to 16
      invariant forall k :: 0 <= k < j ==> w[k] == Word(buffer[..][4 * k..4 * k + 4])
    {
      w[j] := Word(buffer[..][4 * j..4 * j + 4]);
    }
  }

  /** The 64 rounds. */
  method RunRounds(regs: array<bv32>, w: array<bv32>, ghost v: seq<bv32>, ghost m: seq<bv32>)
    requires regs.Length == 8 && w.Length == 16 && regs != w && |v| == 8 && |m| == 16 && regs[..] == v && w[..] == m
    modifies regs, w
    ensures regs[..] == Rounds(v, m, 64)
  {
    hide Round, Ring, Schedule, View, Add, Rounds;
    var j: nat := 0;
    RingStart(m);
    RoundsStart(v, m);
    while j < 64
      invariant j <= 64 && j % 16 == 0
      invariant regs[..] == Rounds(v, m, j) && Ring(w[..], m, j, 0)
    {
      ViewFull(regs[..]);
      for i := 0 to 16
        invariant View(regs[..], i) == Rounds(v, m, j + i) && Ring(w[..], m, j, i)
      {
        OneRound(regs, w, v, m, j, i);
      }
      ViewFull(regs[..]);
      RingGroup(w[..], m, j);
      j := j + 16;
    }
  }

  /** R(i), with blk0(i) or blk2(i). */
  method OneRound(regs: array<bv32>, w: array<bv32>, ghost v: seq<bv32>, ghost m: seq<bv32>, j: nat, i: nat)
    requires regs.Length == 8 && w.Length == 16 && regs != w && |v| == 8 && |m| == 16 && j < 64 && j % 16 == 0 && i < 16
    requires View(regs[..], i) == Rounds(v, m, j + i) && Ring(w[..], m, j, i)
    modifies regs, w
    ensures View(regs[..], i + 1) == Rounds(v, m, j + i + 1) && Ring(w[..], m, j, i + 1)
  {
    hide Round, Ring, Schedule, Sigma0, Sigma1, View, Add, Rounds;
    ghost var was: seq<bv32> := w[..];
    if j != 0 {
      RingNext(was, m, j, i);
      var x := Add(w[i], Add(Add(Sigma1(w[(i + 14) % 16]), w[(i + 9) % 16]), Sigma0(w[(i + 1) % 16])));
      w[i] := x;
      assert w[..] == was[i := x];
    } else {
      RingFirst(was, m, i);
    }
    RoundsNext(v, m, j + i);
    RoundInPlace(regs, i, K[i + j], w[i]);
  }

  lemma RoundsStart(v: seq<bv32>, m: seq<bv32>)
    requires |v| == 8 && |m| == 16
    ensures Rounds(v, m, 0) == v
  {
  }

  lemma RoundsNext(v: seq<bv32>, m: seq<bv32>, t: nat)
    requires |v| == 8 && |m| == 16 && t < 64
    ensures |K| == 64 && Rounds(v, m, t + 1) == Round(Rounds(v, m, t), K[t], Schedule(m, t))
  {
    TableSizes();
  }

  // ---------- The running hash ----------

  class Hasher {
    const state: array<bv32>
    const buffer: array<bv8>
    var count: nat
    /** The bytes hashed so far. */
    ghost var message: seq<bv8>

    constructor ()
      ensures Valid() && message == [] && fresh(state) && fresh(buffer)
    {
      TableSizes();
      state := new bv32[8](i requires 0 <= i < 8 => INIT[i]);
      buffer := new bv8[64](_ => 0);
      count := 0;
      message := [];
      new;
      assert state[..] == INIT;
    }

    /** The whole blocks are in the state, the others in the buffer. */
    ghost predicate Valid()
      reads this, state, buffer
    {
      Shape() && count == |message| && Held(message, state[..], buffer[..], count % 64)
    }

    predicate Shape() {
      |INIT| == 8 && state.Length == 8 && buffer.Length == 64
    }

    /** Sha256_Init */
    method Init()
      requires Shape()
      modifies this, state
      ensures Valid() && message == []
    {
      forall i | 0 <= i < 8 {
        state[i] := INIT[i];
      }
      count := 0;
      message := [];
      assert state[..] == INIT;
    }

    /** Sha256_WriteByteBlock */
    method WriteByteBlock()
      requires Shape()
      modifies state
      ensures state[..] == Compress(old(state[..]), buffer[..])
    {
      hide Rounds, Words;
      ghost var v, block := state[..], buffer[..];
      ghost var m := Words(block);
      var w := LoadWords(buffer);
      var regs := new bv32[8];
      forall j | 0 <= j < 8 {
        regs[j] := state[j];
      }
      assert regs[..] == state[..] && w[..] == m;
      RunRounds(regs, w, v, m);
      for j := 0 to 8
        invariant forall k :: 0 <= k < j ==> state[k] == Add(v[k], regs[k])
        invariant forall k :: j <= k < 8 ==> state[k] == v[k]
        invariant regs[..] == Rounds(v, m, 64)
      {
        state[j] := Add(state[j], regs[j]);
      }
      assert state[..] == Sums(v, regs[..]) && buffer[..] == block;
    }

    method Fill(pos: nat, data: seq<bv8>)
      requires Shape() && pos + |data| <= 64
      modifies buffer
      ensures buffer[..] == old(buffer[..])[..pos] + data + old(buffer[..])[pos + |data|..]
    {
      forall i | 0 <= i < |data| {
        buffer[pos + i] := data[i];
      }
    }

    /** memcpy into the buffer */
    method Push(ghost s: seq<bv8>, pos: nat, data: seq<bv8>)
      requires Shape() && Held(s, state[..], buffer[..], pos) && pos + |data| <= 64
      modifies buffer
      ensures Held(s + data, state[..], buffer[..], pos + |data|)
    {
      hide Held;
      HeldMore(s, data, state[..], buffer[..], pos);
      Fill(pos, data);
    }

    method Flush(ghost s: seq<bv8>)
      requires Shape() && Held(s, state[..], buffer[..], 64)
      modifies state
      ensures Held(s, state[..], buffer[..], 0)
    {
      hide Held, Compress;
      HeldFull(s, state[..], buffer[..]);
      WriteByteBlock();
    }

    /** Sha256_Update */
    method Update(data: seq<bv8>)
      requires Valid()
      modifies this, state, buffer
      ensures Valid() && message == old(message) + data
    {
      hide Held, Compress;
      ghost var before := message;
      var size := |data|;
      if size == 0 {
        assert message + data == message;
        return;
      }
      var pos := count % 64;
      count := count + size;
      message := message + data;
      var num := 64 - pos;
      if num > size {
        Push(before, pos, data);
        HeldLength(before + data, state[..], buffer[..], pos + size);
        return;
      }
      size := size - num;
      Push(before, pos, data[..num]);
      var from: nat := num;
      while true
        invariant Shape() && from + size == |data| && from <= |data| && message == before + data && count == |message|
        invariant Held(before + data[..from], state[..], buffer[..], 64)
        decreases size
      {
        Flush(before + data[..from]);
        if size < 64 {
          break;
        }
        size := size - 64;
        Push(before + data[..from], 0, data[from..from + 64]);
        NextPiece(before, data, from, from + 64);
        from := from + 64;
      }
      NextPiece(before, data, from, |data|);
      if size != 0 {
        Push(before + data[..from], 0, data[from..]);
      }
      HeldLength(message, state[..], buffer[..], size);
    }

    /** Sha256_Final */
    method Final() returns (digest: seq<bv8>)
      requires Valid()
      modifies this, state, buffer
      ensures digest == Digest(old(message)) && Valid() && message == []
    {
      hide Held, Output, Length, Zeros, Digest;
      var pos: nat := count % 64;
      ghost var q := message + [0x80];
      Push(message, pos, [0x80]);
      pos := pos + 1;
      ghost var k: nat := 0;
      PadStart(message);
      while pos != 64 - 8
        invariant Shape() && 0 < pos <= 64 && count == |message| && message == old(message)
        invariant q == message + [0x80] + Zeros(k) && Held(q, state[..], buffer[..], pos)
        invariant k + ToGo(pos) == ZeroCount(|message|)
        decreases ToGo(pos)
      {
        pos := pos % 64;
        if pos == 0 {
          Flush(q);
        }
        Push(q, pos, [0]);
        pos := pos + 1;
        PadMore(message, k);
        q, k := q + [0], k + 1;
      }
      Push(q, pos, Length(count));
      Flush(q + Length(count));
      digest := Output(state[..]);
      DigestIs(message, k, q, state[..], buffer[..]);
      Init();
    }
  }

  /**
   Of the bytes of s, the last pos are in the buffer, and the whole blocks before them in the
   state.
   */
  ghost predicate Held(s: seq<bv8>, state: seq<bv32>, buffer: seq<bv8>, pos: nat) {
    && |INIT| == 8 && |buffer| == 64 && pos <= 64 && pos <= |s| && (|s| - pos) % 64 == 0
    && state == Blocks(INIT, s[..|s| - pos]) && buffer[..pos] == s[|s| - pos..]
  }

  lemma HeldMore(s: seq<bv8>, more: seq<bv8>, state: seq<bv32>, buffer: seq<bv8>, pos: nat)
    requires Held(s, state, buffer, pos) && pos + |more| <= 64
    ensures |buffer| == 64 && Held(s + more, state, buffer[..pos] + more + buffer[pos + |more|..], pos + |more|)
  {
    hide Blocks;
    var t := s + more;
    var n := |s| - pos;
    assert t[..n] == s[..n] && t[n..] == s[n..] + more;
    assert (buffer[..pos] + more + buffer[pos + |more|..])[..pos + |more|] == buffer[..pos] + more;
  }

  /** A full buffer goes into the state. */
  lemma HeldFull(s: seq<bv8>, state: seq<bv32>, buffer: seq<bv8>)
    requires Held(s, state, buffer, 64)
    ensures |state| == 8 && |buffer| == 64 && Held(s, Compress(state, buffer), buffer, 0)
  {
    hide Compress;
    var n := |s| - 64;
    BlocksJoin(INIT, s[..n], s[n..]);
    assert s[..n] + s[n..] == s && s[..|s|] == s;
    assert s[n..][..64] == s[n..] && buffer[..64] == buffer && s[n..][64..] == [];
    assert Blocks(state, s[n..]) == Blocks(Compress(state, buffer), []);
  }

  lemma HeldLength(s: seq<bv8>, state: seq<bv32>, buffer: seq<bv8>, pos: nat)
    requires Held(s, state, buffer, pos)
    ensures pos < 64 ==> pos == |s| % 64
  {
    hide Blocks;
  }

  lemma NextPiece(before: seq<bv8>, data: seq<bv8>, from: nat, to: nat)
    requires from <= to <= |data|
    ensures before + data[..from] + data[from..to] == before + data[..to]
    ensures data[from..|data|] == data[from..] && data[..|data|] == data
  {
    assert data[..from] + data[from..to] == data[..to];
  }

  function ToGo(pos: nat): int { if pos <= 56 then 56 - pos else 120 - pos }

  lemma PadStart(message: seq<bv8>)
    ensures message + [0x80] == message + [0x80] + Zeros(0)
    ensures ToGo(|message| % 64 + 1) == ZeroCount(|message|)
  {
  }

  lemma PadMore(message: seq<bv8>, k: nat)
    ensures message + [0x80] + Zeros(k) + [0] == message + [0x80] + Zeros(k + 1)
  {
    assert Zeros(k) + [0] == Zeros(k + 1);
  }

  lemma DigestIs(message: seq<bv8>, k: nat, q: seq<bv8>, state: seq<bv32>, buffer: seq<bv8>)
    requires k == ZeroCount(|message|) && q == message + [0x80] + Zeros(k)
    requires Held(q + Length(|message|), state, buffer, 0)
    ensures |state| == 8 && Output(state) == Digest(message)
  {
    hide Output, Length, Zeros, Blocks;
    var s := q + Length(|message|);
    assert s[..|s|] == s && s == Padded(message);
  }
}
