/** ARMT_Convert of Bra.c: calls in ARM Thumb code, which take two half-words. */
module BraThumb {
  import opened Arithmetic
  import opened Bytes

  /** The second byte of the first half-word of a call. */
  predicate First(b: byte) { 0xF0 <= b < 0xF8 }

  /** The second byte of the second half-word. */
  predicate Second(b: byte) { 0xF8 <= b }

  /** (b3 & (b1 ^ 8)) >= 0xF8 */
  predicate IsCall(s: seq<byte>)
    requires |s| >= 4
  {
    First(s[1]) && Second(s[3])
  }

  const FIELD: int := 0x40_0000

  /** The distance: 22 bits, in half-words. */
  function Distance(s: seq<byte>): (v: int)
    requires |s| == 4
    ensures 0 <= v < FIELD
  {
    var a: int, b: int, c: int, d: int := s[0], s[1] % 8, s[2], s[3] % 8;
    b * 0x8_0000 + d * 0x100 + a * 0x800 + c
  }

  /** A call over a distance; only its low 22 bits count. */
  function Call(v: int): (s: seq<byte>)
    ensures |s| == 4 && IsCall(s)
  {
    [v / 0x800 % 0x100, 0xF0 + v / 0x8_0000 % 8, v % 0x100, 0xF8 + v / 0x100 % 8]
  }

  lemma CallOfDistance(s: seq<byte>)
    requires |s| == 4 && IsCall(s)
    ensures Call(Distance(s)) == s
  {
    var v := Distance(s);
    var a: int, b: int, c: int, d: int := s[0], s[1] % 8, s[2], s[3] % 8;
    assert v / 0x100 == b * 0x800 + d + a * 8;
    assert v / 0x800 == b * 0x100 + a;
    assert v / 0x8_0000 == b;
  }

  lemma LowParts(v: int)
    ensures var w := v % FIELD;
            && v % 0x100 == w % 0x100 && v / 0x100 % 8 == w / 0x100 % 8
            && v / 0x800 % 0x100 == w / 0x800 % 0x100 && v / 0x8_0000 % 8 == w / 0x8_0000
  {
    LowPart(v, 1, 0x100, 0x4000, FIELD);
    LowPart(v, 0x100, 8, 0x800, FIELD);
    LowPart(v, 0x800, 0x100, 8, FIELD);
    LowPart(v, 0x8_0000, 8, 1, FIELD);
  }

  lemma PartsSum(w: int)
    requires 0 <= w < FIELD
    ensures w / 0x8_0000 * 0x8_0000 + w / 0x100 % 8 * 0x100 + w / 0x800 % 0x100 * 0x800 + w % 0x100 == w
  {
    assert w / 0x800 == w / 0x100 / 8 && w / 0x8_0000 == w / 0x800 / 0x100;
  }

  lemma DistanceOfCall(v: int)
    ensures Distance(Call(v)) == v % FIELD
  {
    LowParts(v);
    PartsSum(v % FIELD);
    CallBytes(v);
  }

  lemma CallBytes(v: int)
    ensures var s := Call(v);
            && s[0] as int == v / 0x800 % 0x100 && s[1] as int % 8 == v / 0x8_0000 % 8
            && s[2] as int == v % 0x100 && s[3] as int % 8 == v / 0x100 % 8
  {
  }

  lemma CallLow(v: int)
    ensures Call(v % FIELD) == Call(v)
  {
    DistanceOfCall(v);
    hide Call, Distance;
    CallOfDistance(Call(v));
  }

  /** The address that follows the call, in half-words. */
  function Here(x: int): int { x % WORD / 2 }

  function Moved(s: seq<byte>, x: int, encoding: bool): (r: seq<byte>)
    requires |s| == 4
    ensures |r| == 4 && IsCall(r)
  {
    Call(if encoding then Distance(s) + Here(x) else Distance(s) - Here(x))
  }

  lemma LowSum(a: int, d: int)
    ensures ((a + d) % FIELD - d) % FIELD == a % FIELD
  {
    var q := (a + d) / FIELD;
    assert a + d == FIELD * q + (a + d) % FIELD;
    assert (a + d) % FIELD - d == a - FIELD * q;
  }

  /** A call is restored, whatever the address is. */
  lemma MovedBack(s: seq<byte>, x: int, encoding: bool)
    requires |s| == 4 && IsCall(s)
    ensures Moved(Moved(s, x, encoding), x, !encoding) == s
  {
    hide Call, Distance, IsCall, Here;
    var v := Distance(s);
    var d := if encoding then Here(x) else -Here(x);
    DistanceOfCall(v + d);
    LowSum(v, d);
    CallLow((v + d) % FIELD - d);
    CallOfDistance(s);
  }

  /** The 22 bits of a call, the lower three bits of its second byte highest. */
  function Bits(s: seq<byte>): int
    requires |s| >= 4
  {
    var a: int, b: int, c: int, d: int := s[0], s[1], s[2], s[3];
    b % 8 * 0x8_0000 + a * 0x800 + d % 8 * 0x100 + c
  }

  /**
   A call holds how far away its target is, in half-words; converted, it holds the target itself:
   22 bits in two half-words, and nothing else of them changes.
   */
  lemma CallMeans(s: seq<byte>, x: int, encoding: bool)
    requires |s| >= 4 && 0xF0 <= s[1] < 0xF8 && 0xF8 <= s[3]
    ensures var r := Filtered(s, x, encoding);
            var here := (x + 4) % WORD / 2;
            && 0xF0 <= r[1] < 0xF8 && 0xF8 <= r[3]
            && Bits(r) == (if encoding then Bits(s) + here else Bits(s) - here) % 0x40_0000
            && r[4..] == Filtered(s[4..], x + 4, encoding)
  {
    var head := Moved(s[..4], x + 4, encoding);
    var r := Filtered(s, x, encoding);
    assert r == head + Filtered(s[4..], x + 4, encoding);
    var v := if encoding then Distance(s[..4]) + Here(x + 4) else Distance(s[..4]) - Here(x + 4);
    DistanceOfCall(v);
    hide Call;
  }

  // ---------- A buffer ----------

  /** The code converted; x is the address of its first byte. */
  function Filtered(s: seq<byte>, x: int, encoding: bool): (r: seq<byte>)
    ensures |r| == |s|
    decreases |s|
  {
    if |s| < 4 then s
    else if IsCall(s[..4]) then Moved(s[..4], x + 4, encoding) + Filtered(s[4..], x + 4, encoding)
    else s[..2] + Filtered(s[2..], x + 2, encoding)
  }

  /** How far the scan goes. */
  function Reach(s: seq<byte>): (n: nat)
    ensures n <= |s|
    decreases |s|
  {
    if |s| < 4 then 0 else if IsCall(s[..4]) then 4 + Reach(s[4..]) else 2 + Reach(s[2..])
  }

  /** Converting does not change what the second byte of a half-word stands for. */
  lemma {:induction false} FirstStays(s: seq<byte>, x: int, encoding: bool)
    requires |s| >= 2
    ensures var r := Filtered(s, x, encoding);
            First(r[1]) == First(s[1]) && Second(r[1]) == Second(s[1])
  {
    hide Moved;
  }

  /** So the same half-words are calls afterwards. */
  lemma SameCalls(s: seq<byte>, x: int, encoding: bool)
    requires |s| >= 4
    ensures IsCall(Filtered(s, x, encoding)[..4]) == IsCall(s[..4])
  {
    hide Moved;
    var r := Filtered(s, x, encoding);
    if !IsCall(s[..4]) {
      FirstStays(s[2..], x + 2, encoding);
      assert r[3] == Filtered(s[2..], x + 2, encoding)[1] && r[1] == s[1];
    }
  }

  /** For any code and any address, converting back restores the code, and the scan goes equally far. */
  lemma {:induction false} FilteredBack(s: seq<byte>, x: int, encoding: bool)
    ensures var r := Filtered(s, x, encoding);
            Filtered(r, x, !encoding) == s && Reach(r) == Reach(s)
    decreases |s|
  {
    hide Moved, IsCall;
    if |s| >= 4 {
      var r := Filtered(s, x, encoding);
      SameCalls(s, x, encoding);
      if IsCall(s[..4]) {
        var head, tail := Moved(s[..4], x + 4, encoding), Filtered(s[4..], x + 4, encoding);
        assert r[..4] == head && r[4..] == tail;
        MovedBack(s[..4], x + 4, encoding);
        FilteredBack(s[4..], x + 4, encoding);
        assert s == s[..4] + s[4..];
      } else {
        var tail := Filtered(s[2..], x + 2, encoding);
        assert r[..2] == s[..2] && r[2..] == tail;
        FilteredBack(s[2..], x + 2, encoding);
        assert s == s[..2] + s[2..];
      }
    }
  }

  // ---------- In place ----------

  method Put(data: array<byte>, p: nat, r: seq<byte>)
    requires |r| == 4 && p + 4 <= data.Length
    modifies data
    ensures data[..] == old(data[..])[..p] + r + old(data[..])[p + 4..]
  {
    data[p], data[p + 1], data[p + 2], data[p + 3] := r[0], r[1], r[2], r[3];
  }

  /** What is done and what is still to do make up the whole. */
  ghost predicate OnTheWay(whole: seq<byte>, reach: nat, data: seq<byte>, lim: nat, p: nat, ip: word, encoding: bool) {
    && p <= lim <= |data| && (lim - p) % 2 == 0
    && whole == data[..p] + Filtered(data[p..lim], ip + p, encoding) + data[lim..]
    && reach == p + Reach(data[p..lim])
  }

  lemma StepOver(whole: seq<byte>, reach: nat, data: seq<byte>, lim: nat, p: nat, ip: word, encoding: bool)
    requires OnTheWay(whole, reach, data, lim, p, ip, encoding) && p + 4 <= lim && !IsCall(data[p..p + 4])
    ensures OnTheWay(whole, reach, data, lim, p + 2, ip, encoding)
  {
    hide Moved;
    var s := data[p..lim];
    assert s[..4] == data[p..p + 4] && s[2..] == data[p + 2..lim] && data[..p + 2] == data[..p] + s[..2];
    var x: int := ip + p;
    assert whole == data[..p] + (s[..2] + Filtered(s[2..], x + 2, encoding)) + data[lim..];
  }

  lemma StepCall(whole: seq<byte>, reach: nat, data: seq<byte>, lim: nat, p: nat, ip: word, encoding: bool)
    requires OnTheWay(whole, reach, data, lim, p, ip, encoding) && p + 4 <= lim && IsCall(data[p..p + 4])
    ensures var next := data[..p] + Moved(data[p..p + 4], ip + p + 4, encoding) + data[p + 4..];
            OnTheWay(whole, reach, next, lim, p + 4, ip, encoding)
  {
    hide Moved;
    var s := data[p..lim];
    var r := Moved(data[p..p + 4], ip + p + 4, encoding);
    var next := data[..p] + r + data[p + 4..];
    assert s[..4] == data[p..p + 4] && s[4..] == data[p + 4..lim];
    assert next[..p + 4] == data[..p] + r && next[p + 4..lim] == s[4..] && next[lim..] == data[lim..];
    var x: int := ip + p;
    assert whole == data[..p] + (r + Filtered(s[4..], x + 4, encoding)) + data[lim..];
  }

  method ARMTConvert(data: array<byte>, size: nat, ip: word, encoding: bool) returns (processed: nat)
    requires size <= data.Length
    modifies data
    ensures var lim := size - size % 2;
            && data[..] == Filtered(old(data[..lim]), ip, encoding) + old(data[lim..])
            && processed == Reach(old(data[..lim]))
  {
    hide Filtered, Reach, OnTheWay, Call, Distance;
    var lim := size - size % 2;
    var p := 0;
    ghost var whole := Filtered(data[..lim], ip, encoding) + data[lim..];
    ghost var reach := Reach(data[..lim]);
    Begin(data[..], lim, ip, encoding);
    while p + 4 <= lim
      invariant 0 <= p <= lim && OnTheWay(whole, reach, data[..], lim, p, ip, encoding)
    {
      if !(First(data[p + 1]) && Second(data[p + 3])) {
        StepOver(whole, reach, data[..], lim, p, ip, encoding);
        p := p + 2;
      } else {
        StepCall(whole, reach, data[..], lim, p, ip, encoding);
        var v := Distance(data[p..p + 4]);
        var cur := (ip + p + 4) % WORD / 2;
        Put(data, p, Call(if encoding then v + cur else v - cur));
        p := p + 4;
      }
    }
    Finish(whole, reach, data[..], lim, p, ip, encoding);
    processed := p;
  }

  lemma Begin(data: seq<byte>, lim: nat, ip: word, encoding: bool)
    requires lim <= |data| && lim % 2 == 0
    ensures OnTheWay(Filtered(data[..lim], ip, encoding) + data[lim..], Reach(data[..lim]), data, lim, 0, ip, encoding)
  {
    hide Filtered, Reach;
    assert data[0..lim] == data[..lim];
    assert data[..0] + Filtered(data[..lim], ip, encoding) == Filtered(data[..lim], ip, encoding);
  }

  lemma Finish(whole: seq<byte>, reach: nat, data: seq<byte>, lim: nat, p: nat, ip: word, encoding: bool)
    requires OnTheWay(whole, reach, data, lim, p, ip, encoding) && p + 4 > lim
    ensures data == whole && p == reach
  {
    assert data == data[..p] + data[p..lim] + data[lim..];
  }
}
