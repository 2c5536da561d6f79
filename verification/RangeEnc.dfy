/**
 The range encoder of LzmaEnc.c against the range decoder.  On values the encoder keeps one
 number, low, as long as it likes; the class keeps 33 bits of it and delays the bytes that a
 carry may still change.
 */
module RangeEnc {
  import opened Arithmetic
  import opened Bytes
  import opened RangeCoder

  // ---------- Numbers as bytes ----------

  function Pow256(n: nat): (p: nat)
    ensures p >= 1
  {
    if n == 0 then 1 else 0x100 * Pow256(n - 1)
  }

  /** The bytes as one number, the first one highest. */
  function Num(s: seq<byte>): nat {
    if s == [] then 0 else Num(s[..|s| - 1]) * 0x100 + s[|s| - 1]
  }

  /** The last n bytes of the number v. */
  function BigEndian(v: nat, n: nat): (s: seq<byte>)
    ensures |s| == n
  {
    if n == 0 then [] else BigEndian(v / 0x100, n - 1) + [v % 0x100]
  }

  lemma NumNext(s: seq<byte>, b: byte)
    ensures Num(s + [b]) == Num(s) * 0x100 + b
  {
    assert (s + [b])[..|s|] == s;
  }

  lemma {:induction false} NumOfBytes(v: nat, n: nat)
    requires v < Pow256(n)
    ensures Num(BigEndian(v, n)) == v
  {
    if n > 0 {
      NumNext(BigEndian(v / 0x100, n - 1), v % 0x100);
      NumOfBytes(v / 0x100, n - 1);
    }
  }

  lemma {:induction false} BytesOfNum(s: seq<byte>)
    ensures Num(s) < Pow256(|s|) && BigEndian(Num(s), |s|) == s
  {
    if s != [] {
      var t := s[..|s| - 1];
      BytesOfNum(t);
      assert s == t + [s[|s| - 1]];
    }
  }

  // ---------- The encoder on values ----------

  /** The interval [low, low + range), after shifts shifts by one byte. */
  datatype Interval = Interval(low: nat, range: nat, shifts: nat)

  predicate IntervalOk(e: Interval) {
    TOP <= e.range < WORD && e.low + e.range <= Pow256(e.shifts + 4)
  }

  /** RC_NORM */
  function Shifted(e: Interval): Interval {
    if e.range < TOP then Interval(e.low * 0x100, e.range * 0x100, e.shifts + 1) else e
  }

  /** The part of the interval for a bit of probability p. */
  function Narrowed(e: Interval, p: int, bit: bool): Interval
    requires TOP <= e.range < WORD && ProbOk(p)
  {
    var bound := Bound(e.range, p);
    if bit then e.(low := e.low + bound, range := e.range - bound) else e.(range := bound)
  }

  /** The half of the interval for a direct bit. */
  function Halved(e: Interval, bit: bool): Interval {
    var half := e.range / 2;
    if bit then e.(low := e.low + half, range := half) else e.(range := half)
  }

  lemma NarrowedOk(e: Interval, p: int, bit: bool)
    requires IntervalOk(e) && ProbOk(p)
    ensures IntervalOk(Shifted(Narrowed(e, p, bit)))
  {
    assert Pow256(e.shifts + 5) == 0x100 * Pow256(e.shifts + 4);
    hide Bound, Pow256;
  }

  lemma HalvedOk(e: Interval, bit: bool)
    requires IntervalOk(e)
    ensures IntervalOk(Shifted(Halved(e, bit)))
  {
    assert Pow256(e.shifts + 5) == 0x100 * Pow256(e.shifts + 4);
    hide Pow256;
  }

  // ---------- The decoder inside the interval ----------

  /** The bytes of x read so far name a number of the interval. */
  predicate Inside(e: Interval, x: seq<byte>) {
    5 + e.shifts <= |x| && e.low <= Num(x[..5 + e.shifts]) < e.low + e.range
  }

  /** The decoder's registers there. */
  function Registers(e: Interval, x: seq<byte>): Rc
    requires Inside(e, x)
  {
    Rc(e.range, Num(x[..5 + e.shifts]) - e.low, x[5 + e.shifts..])
  }

  /** A shift of the encoder is a shift of the decoder. */
  lemma ShiftFollows(e: Interval, x: seq<byte>)
    requires Inside(Shifted(e), x) && 0x10000 <= e.range < WORD
    ensures Inside(e, x) && RcOk(Registers(e, x)) && !NeedsByte(Registers(e, x))
    ensures Normalize(Registers(e, x)) == Registers(Shifted(e), x)
  {
    if e.range < TOP {
      var k := 5 + e.shifts;
      assert x[..k + 1] == x[..k] + [x[k]];
      NumNext(x[..k], x[k]);
      var code := Num(x[..k]) - e.low;
      assert x[k..][0] == x[k] && x[k..][1..] == x[k + 1..];
      assert 0 <= code * 0x100 + x[k] < e.range * 0x100;
    }
  }

  /** A bit of the encoder is the bit that the decoder finds. */
  lemma NarrowFollows(e: Interval, p: int, bit: bool, x: seq<byte>)
    requires TOP <= e.range < WORD && ProbOk(p) && Inside(Narrowed(e, p, bit), x)
    ensures Inside(e, x) && Normal(Registers(e, x)) && ModelBit(Registers(e, x), p) == bit
    ensures AfterModelBit(Registers(e, x), p) == Registers(Narrowed(e, p, bit), x)
  {
    hide Num, Bound;
  }

  lemma HalfFollows(e: Interval, bit: bool, x: seq<byte>)
    requires TOP <= e.range < WORD && Inside(Halved(e, bit), x)
    ensures Inside(e, x) && Normal(Registers(e, x)) && DirectBit(Registers(e, x)) == bit
    ensures AfterDirectBit(Registers(e, x)) == Registers(Halved(e, bit), x)
  {
    hide Num;
  }

  // ---------- The encoder with delayed bytes ----------

  const CARRY := 0x1_0000_0000

  /** What the bytes put out, the byte held back, the 0xFF bytes behind it and low stand for. */
  function Value(buf: seq<byte>, cache: nat, cacheSize: nat, low: nat): nat {
    ((Num(buf) * 0x100 + cache) * Pow256(cacheSize) + (Pow256(cacheSize) - 1)) * CARRY + low
  }

  /** A carry out of low + room can still be taken up by the byte held back. */
  predicate Absorbs(cache: nat, low: nat, room: nat) {
    cache < 0x100 && low + room <= 2 * CARRY && (low + room > CARRY ==> cache < 0xFF)
  }

  function Copies(b: byte, n: nat): (s: seq<byte>)
    ensures |s| == n
  {
    seq(n, _ => b)
  }

  lemma {:induction false} NumCopies(s: seq<byte>, b: byte, n: nat)
    requires b == 0 || b == 0xFF
    ensures Num(s + Copies(b, n)) == Num(s) * Pow256(n) + (if b == 0 then 0 else Pow256(n) - 1)
  {
    if n == 0 {
      assert s + Copies(b, 0) == s;
    } else {
      NumCopies(s, b, n - 1);
      assert s + Copies(b, n) == s + Copies(b, n - 1) + [b];
      NumNext(s + Copies(b, n - 1), b);
      ScaleProduct(0x100, Num(s), Pow256(n - 1));
    }
  }

  /** A byte more that may still change. */
  lemma HeldBack(buf: seq<byte>, cache: nat, cacheSize: nat, low: nat)
    requires 0xFF00_0000 <= low < CARRY
    ensures Value(buf, cache, cacheSize + 1, low % 0x100_0000 * 0x100) == 0x100 * Value(buf, cache, cacheSize, low)
  {
    var a, q := Num(buf) * 0x100 + cache, Pow256(cacheSize);
    ScaleProduct(0x100, a, q);
    assert Pow256(cacheSize + 1) == 0x100 * q;
    assert a * (0x100 * q) == 0x100 * (a * q);
    hide Num, Pow256;
    HeldBackSum(a * q, q, low);
  }

  lemma HeldBackSum(aq: nat, q: nat, low: nat)
    requires 0xFF00_0000 <= low < CARRY && q >= 1
    ensures (0x100 * aq + (0x100 * q - 1)) * CARRY + low % 0x100_0000 * 0x100 == 0x100 * ((aq + (q - 1)) * CARRY + low)
  {
  }

  /** The bytes held back, with the carry or without it. */
  lemma PutOut(buf: seq<byte>, cache: nat, cacheSize: nat, low: nat, out: seq<byte>)
    requires low < 2 * CARRY && cache + low / CARRY < 0x100
    requires out == buf + [cache + low / CARRY] + Copies(if low / CARRY == 0 then 0xFF else 0, cacheSize)
    ensures Value(out, low % CARRY / 0x100_0000, 0, low % 0x100_0000 * 0x100) == 0x100 * Value(buf, cache, cacheSize, low)
  {
    var high := low / CARRY;
    var b: byte := cache + high;
    NumCopies(buf + [b], if high == 0 then 0xFF else 0, cacheSize);
    NumNext(buf, b);
    var a, q := Num(buf) * 0x100 + cache, Pow256(cacheSize);
    assert (a + high) * q == a * q + high * q;
    assert Num(out) == a * q + (q - 1) + high;
    assert Pow256(0) == 1;
    hide Num, Pow256, Copies;
    PutOutSum(a * q + (q - 1), low);
  }

  lemma PutOutSum(v: nat, low: nat)
    requires low < 2 * CARRY
    ensures (v + low / CARRY) * 0x100 * CARRY + low % CARRY / 0x100_0000 * CARRY + low % 0x100_0000 * 0x100 == 0x100 * (v * CARRY + low)
  {
  }

  class RangeEncoder {
    var range: nat
    var low: nat
    var cache: nat
    var cacheSize: nat
    var buf: seq<byte>
    ghost var exact: Interval

    /** RangeEnc_Init */
    constructor ()
      ensures Valid() && exact == Interval(0, 0xFFFF_FFFF, 0)
    {
      range, low, cache, cacheSize, buf := 0xFFFF_FFFF, 0, 0, 0, [];
      exact := Interval(0, 0xFFFF_FFFF, 0);
    }

    ghost predicate Holds()
      reads this
    {
      Value(buf, cache, cacheSize, low) == exact.low && |buf| + cacheSize == exact.shifts
    }

    ghost predicate Valid()
      reads this
    {
      Holds() && range == exact.range && TOP <= range < WORD && Absorbs(cache, low, range)
    }

    /** RangeEnc_ShiftLow */
    method ShiftLow(ghost room: nat)
      requires Holds() && 1 <= room <= TOP && Absorbs(cache, low, room)
      modifies this
      ensures Holds() && exact == Interval(old(exact).low * 0x100, old(exact).range, old(exact).shifts + 1) && range == old(range)
      ensures low < CARRY && low == old(low) % 0x100_0000 * 0x100 && Absorbs(cache, low, room * 0x100)
      ensures old(low) < 0xFF00_0000 ==> cacheSize == 0 && cache == old(low) / 0x100_0000
    {
      hide Value, Num;
      ghost var was := exact;
      var low32 := low % CARRY;
      var high := low / CARRY;
      if low32 < 0xFF00_0000 || high != 0 {
        ghost var before, c, n := buf, cache, cacheSize;
        buf := buf + [cache + high];
        var more: byte := (high + 0xFF) % 0x100;
        ghost var first := buf;
        assert first + Copies(more, 0) == first;
        while cacheSize != 0
          invariant cacheSize <= n && buf == first + Copies(more, n - cacheSize)
          invariant low == old(low) && cache == c && range == old(range) && exact == was
        {
          assert Copies(more, n - cacheSize) + [more] == Copies(more, n - cacheSize + 1);
          buf := buf + [more];
          cacheSize := cacheSize - 1;
        }
        PutOut(before, c, n, low, buf);
        cache := low32 / 0x100_0000;
        low := low32 % 0x100_0000 * 0x100;
        assert low == old(low) % 0x100_0000 * 0x100;
      } else {
        HeldBack(buf, cache, cacheSize, low);
        low := low32 % 0x100_0000 * 0x100;
        cacheSize := cacheSize + 1;
      }
      exact := Interval(was.low * 0x100, was.range, was.shifts + 1);
    }

    /** RC_NORM */
    method Norm()
      requires Holds() && range == exact.range && 0x10000 <= range < WORD && Absorbs(cache, low, range)
      modifies this
      ensures Valid() && exact == Shifted(old(exact))
    {
      if range < TOP {
        ShiftLow(range);
        range := range * 0x100;
        exact := exact.(range := range);
      }
    }

    /** RC_BIT; the new probability is that of the decoder. */
    method EncodeBit(prob: nat, bit: bool) returns (newProb: nat)
      requires Valid() && ProbOk(prob)
      modifies this
      ensures Valid() && exact == Shifted(Narrowed(old(exact), prob, bit)) && newProb == Adapted(prob, bit)
    {
      hide Value;
      var newBound := range / MODEL_TOTAL * prob;
      assert newBound == Bound(range, prob);
      hide Bound;
      exact := Narrowed(exact, prob, bit);
      if bit {
        low := low + newBound;
        range := range - newBound;
        newProb := prob - prob / 32;
      } else {
        range := newBound;
        newProb := prob + (MODEL_TOTAL - prob) / 32;
      }
      assert Holds() by { ValueMoves(buf, cache, cacheSize, old(low), low); }
      Norm();
    }

    /** One direct bit. */
    method EncodeDirect(bit: bool)
      requires Valid()
      modifies this
      ensures Valid() && exact == Shifted(Halved(old(exact), bit))
    {
      hide Value;
      exact := Halved(exact, bit);
      range := range / 2;
      if bit {
        low := low + range;
      }
      assert Holds() by { ValueMoves(buf, cache, cacheSize, old(low), low); }
      Norm();
    }

    /** RangeEnc_FlushData: what has been put out then is low, in bytes. */
    method FlushData()
      requires Valid()
      modifies this
      ensures buf == BigEndian(old(exact).low, old(exact).shifts + 5) && cacheSize == 0
    {
      hide Value, Num;
      ghost var was := exact;
      for i := 0 to 5
        invariant Holds() && Absorbs(cache, low, 1)
        invariant exact == Interval(was.low * Pow256(i), was.range, was.shifts + i)
        invariant i > 0 ==> low < CARRY && Cleared(low, i)
        invariant i == 5 ==> cache == 0 && cacheSize == 0
      {
        ClearedNext(low, i);
        ghost var v := exact.low;
        assert Pow256(i + 1) == 0x100 * Pow256(i);
        ScaleProduct(0x100, was.low, Pow256(i));
        hide Pow256;
        ShiftLow(1);
      }
      FlushedIs(buf, was.low);
    }
  }

  /** The last i of the four bytes of low are zero. */
  predicate Cleared(low: nat, i: nat) {
    if i == 0 then true
    else if i == 1 then low % 0x100 == 0
    else if i == 2 then low % 0x1_0000 == 0
    else if i == 3 then low % 0x100_0000 == 0
    else low == 0
  }

  lemma ClearedNext(low: nat, i: nat)
    requires Cleared(low, i) && (i > 0 ==> low < CARRY)
    ensures Cleared(low % 0x100_0000 * 0x100, i + 1)
  {
  }

  lemma ValueMoves(buf: seq<byte>, cache: nat, cacheSize: nat, low: nat, low': nat)
    ensures Value(buf, cache, cacheSize, low') - Value(buf, cache, cacheSize, low) == low' - low
  {
  }

  lemma FlushedIs(buf: seq<byte>, v: nat)
    requires Value(buf, 0, 0, 0) == v * Pow256(5)
    ensures buf == BigEndian(v, |buf|)
  {
    assert Pow256(0) == 1 && Pow256(5) == 0x100 * CARRY;
    assert Num(buf) == v;
    BytesOfNum(buf);
  }
}
