/** The bits of LZMA's packets in numbers: what a reader of the format's tables would expect. */
module LzmaFormat {
  import opened Arithmetic
  import opened Bytes
  import opened RangeCoder
  import opened RangeEnc
  import opened LzmaSymbol
  import opened LzmaModel
  import opened LzmaNames
  import opened LzmaCoins
  import opened LzmaPackets

  function BitsOf(coins: seq<Coin>): (bits: seq<bool>)
    ensures |bits| == |coins|
  {
    seq(|coins|, i requires 0 <= i < |coins| => coins[i].bit)
  }

  /** A binary number, its highest bit first. */
  function HighFirst(bits: seq<bool>): nat {
    if bits == [] then 0 else BitValue(bits[0]) * Pow2(|bits| - 1) + HighFirst(bits[1..])
  }

  /** A binary number, its lowest bit first. */
  function LowFirst(bits: seq<bool>): nat {
    if bits == [] then 0 else BitValue(bits[0]) + 2 * LowFirst(bits[1..])
  }

  lemma BitsJoin(a: seq<Coin>, b: seq<Coin>)
    ensures BitsOf(a + b) == BitsOf(a) + BitsOf(b)
  {
  }

  lemma BitsNext(coin: Coin, more: seq<Coin>)
    ensures BitsOf([coin] + more)[0] == coin.bit && BitsOf([coin] + more)[1..] == BitsOf(more)
  {
    var all := [coin] + more;
    assert all[0] == coin && forall i :: 0 <= i < |more| ==> all[i + 1] == more[i];
  }

  lemma {:induction false} TreeBits(t: Tree, i: nat, left: nat, v: nat)
    requires v < Pow2(left)
    ensures |TreeCoins(t, i, left, v)| == left && HighFirst(BitsOf(TreeCoins(t, i, left, v))) == v
    decreases left
  {
    if left > 0 {
      var bit := v >= Pow2(left - 1);
      var rest := if bit then v - Pow2(left - 1) else v;
      HalvesMeet(i, left, v);
      TreeBits(t, 2 * i + BitValue(bit), left - 1, rest);
      BitsNext(Model(At(t, i), bit), TreeCoins(t, 2 * i + BitValue(bit), left - 1, rest));
    }
  }

  lemma PowerZero()
    ensures Pow2(0) == 1
  {
  }

  lemma {:induction false} MatchedBits(slot: nat, i: nat, left: nat, v: nat, agree: bool, matchByte: nat)
    requires v < Pow2(left)
    ensures var coins := MatchedCoins(slot, i, left, v, agree, matchByte); |coins| == left && HighFirst(BitsOf(coins)) == v
    decreases left
  {
    hide MatchedAt, Guess, Pow2;
    if left == 0 {
      PowerZero();
    } else {
      var bit := v >= Pow2(left - 1);
      var rest := if bit then v - Pow2(left - 1) else v;
      HalvesMeet(i, left, v);
      var more := MatchedCoins(slot, 2 * i + BitValue(bit), left - 1, rest, agree && Guess(matchByte) == bit, 2 * matchByte);
      MatchedBits(slot, 2 * i + BitValue(bit), left - 1, rest, agree && Guess(matchByte) == bit, 2 * matchByte);
      BitsNext(Model(MatchedAt(slot, i, agree, matchByte), bit), more);
    }
  }

  lemma {:induction false} SpecBits(slot: nat, k: nat, seen: nat, n: nat, v: nat)
    requires v < Pow2(n)
    ensures |SpecCoins(slot, k, seen, n, v)| == n && LowFirst(BitsOf(SpecCoins(slot, k, seen, n, v))) == v
    decreases n
  {
    if n > 0 {
      var bit := v % 2 == 1;
      HalfBelow(n, v);
      SpecBits(slot, k + 1, WithBit(k, seen, bit), n - 1, v / 2);
      BitsNext(Model(SpecN(slot, k, seen), bit), SpecCoins(slot, k + 1, WithBit(k, seen, bit), n - 1, v / 2));
    }
  }

  lemma {:induction false} AlignBits(k: nat, seen: nat, n: nat, v: nat)
    requires v < Pow2(n)
    ensures |AlignCoins(k, seen, n, v)| == n && LowFirst(BitsOf(AlignCoins(k, seen, n, v))) == v
    decreases n
  {
    if n > 0 {
      var bit := v % 2 == 1;
      HalfBelow(n, v);
      AlignBits(k + 1, WithBit(k, seen, bit), n - 1, v / 2);
      BitsNext(Model(AlignN(k, seen), bit), AlignCoins(k + 1, WithBit(k, seen, bit), n - 1, v / 2));
    }
  }

  lemma {:induction false} DirectBits(left: nat, v: nat)
    requires v < Pow2(left)
    ensures |DirectCoins(left, v)| == left && HighFirst(BitsOf(DirectCoins(left, v))) == v
    decreases left
  {
    if left > 0 {
      var bit := v >= Pow2(left - 1);
      var rest := if bit then v - Pow2(left - 1) else v;
      HalvesMeet(0, left, v);
      DirectBits(left - 1, rest);
      BitsNext(Half(bit), DirectCoins(left - 1, rest));
    }
  }

  // ---------- Lengths ----------

  /** Lengths 2..9, 10..17 and 18..273, with their prefixes 0, 10 and 11. */
  lemma LengthBits(rep: bool, posState: nat, length: nat)
    requires 2 <= length <= 273
    ensures var b := BitsOf(LenCoins(rep, posState, length - 2));
            if length < 10 then |b| == 4 && !b[0] && HighFirst(b[1..]) + 2 == length
            else if length < 18 then |b| == 5 && b[0] && !b[1] && HighFirst(b[2..]) + 10 == length
            else |b| == 10 && b[0] && b[1] && HighFirst(b[2..]) + 18 == length
  {
    hide TreeCoins, Pow2, HighFirst;
    SmallPowers();
    EightBits();
    var v: nat := length - 2;
    var tree := if v < 8 then LowTree(rep, posState) else if v < 16 then MidTree(rep, posState) else HighTree(rep);
    var n := if v < 16 then 3 else 8;
    var u := if v < 8 then v else if v < 16 then v - 8 else v - 16;
    TreeBits(tree, 1, n, u);
    var coins := TreeCoins(tree, 1, n, u);
    if v < 8 {
      BitsNext(Model(ChoiceN(rep), false), coins);
    } else {
      var second := Model(Choice2N(rep), v >= 16);
      BitsNext(second, coins);
      BitsNext(Model(ChoiceN(rep), true), [second] + coins);
      assert [Model(ChoiceN(rep), true)] + ([second] + coins) == [Model(ChoiceN(rep), true), second] + coins;
      TwoOff(BitsOf([Model(ChoiceN(rep), true), second] + coins));
    }
  }

  lemma TwoOff(b: seq<bool>)
    requires |b| >= 2
    ensures b[1..][1..] == b[2..] && b[1..][0] == b[1]
  {
  }

  // ---------- Distances ----------

  /** The first distance of each slot, counted from 0: the powers of two, and half as much more. */
  function FirstOf(slot: nat): nat {
    if slot < 4 then slot
    else if slot % 2 == 0 then Pow2(slot / 2)
    else Pow2(slot / 2) + Pow2(slot / 2 - 1)
  }

  lemma SlotBases(slot: nat)
    ensures SlotBase(slot) == FirstOf(slot)
  {
    if slot >= 4 {
      HalfPowers(slot / 2);
    }
    hide Pow2;
  }

  /** Six bits for the slot, and the bits behind it, of which the last ones come lowest first. */
  lemma DistanceBits(lenState: nat, distance: nat)
    requires 1 <= distance <= 0x1_0000_0000
    ensures var b := BitsOf(DistanceCoins(lenState, distance - 1));
            |b| >= 6 &&
            var slot := HighFirst(b[..6]);
            && slot < 64 && |b| == 6 + (if slot < 4 then 0 else slot / 2 - 1)
            && distance - 1 == FirstOf(slot) +
               if slot < 14 then LowFirst(b[6..]) else 16 * HighFirst(b[6..|b| - 4]) + LowFirst(b[|b| - 4..])
  {
    hide TreeCoins, Pow2, HighFirst, LowFirst, SpecCoins, DirectCoins, AlignCoins, PosSlotOf, SlotBase, BitsOf;
    var dist: nat := distance - 1;
    var slot := PosSlotOf(dist);
    EightBits();
    TreeBits(SlotTree(lenState), 1, 6, slot);
    SlotBases(slot);
    var tree := TreeCoins(SlotTree(lenState), 1, 6, slot);
    if slot < 4 {
      assert DistanceCoins(lenState, dist) == tree + [];
      BitsParts(tree, []);
      SlotBases(dist);
      NoBits();
    } else {
      var n: nat := slot / 2 - 1;
      var v: nat := dist - SlotBase(slot);
      if slot < 14 {
        SpecBits(slot, 0, 0, n, v);
        BitsParts(tree, SpecCoins(slot, 0, 0, n, v));
      } else {
        SmallPowers();
        HighPart(n, v);
        DirectBits(n - 4, v / 16);
        AlignBits(0, 0, 4, v % 16);
        BitsParts(tree, DirectCoins(n - 4, v / 16) + AlignCoins(0, 0, 4, v % 16));
        BitsParts(DirectCoins(n - 4, v / 16), AlignCoins(0, 0, 4, v % 16));
        var b := BitsOf(DistanceCoins(lenState, dist));
        LastFour(b, n);
      }
    }
  }

  lemma NoBits()
    ensures LowFirst(BitsOf([])) == 0
  {
  }

  lemma LastFour(b: seq<bool>, n: nat)
    requires n >= 4 && |b| == 6 + n
    ensures b[6..][..n - 4] == b[6..|b| - 4] && b[6..][n - 4..] == b[|b| - 4..]
  {
  }

  lemma BitsParts(a: seq<Coin>, b: seq<Coin>)
    ensures BitsOf(a + b)[..|a|] == BitsOf(a) && BitsOf(a + b)[|a|..] == BitsOf(b)
  {
    BitsJoin(a, b);
  }

  // ---------- Packets and states ----------

  lemma LiteralPrefix(coin: Coin, coins: seq<Coin>, value: byte)
    requires !coin.bit && |coins| == 8 && HighFirst(BitsOf(coins)) == value
    ensures var b := BitsOf([coin] + coins); |b| == 9 && !b[0] && HighFirst(b[1..]) == value
  {
    BitsNext(coin, coins);
  }

  lemma PrefixBits(a: seq<Coin>, b: seq<Coin>)
    ensures BitsOf(a) <= BitsOf(a + b)
  {
    BitsJoin(a, b);
  }

  lemma LiteralBits(p: Props, e: Enc, pk: Packet)
    requires EncFits(p, e) && pk.Literal?
    ensures var b := BitsOf(PacketCoins(p, e, pk)); |b| == 9 && !b[0] && HighFirst(b[1..]) == pk.value
  {
    EightBits();
    hide TreeCoins, MatchedCoins, HighFirst, BitsOf, Pow2, SlotHere;
    var s, ps, slot := e.state, |e.hist| % Pow2(p.pb), SlotHere(p, e.hist);
    var v: nat := pk.value;
    if s < 7 {
      TreeBits(LiteralTree(slot), 1, 8, v);
      LiteralPrefix(Model(IsMatchN(s, ps), false), TreeCoins(LiteralTree(slot), 1, 8, v), pk.value);
    } else {
      var mb := e.hist[|e.hist| - e.reps[0]];
      MatchedBits(slot, 1, 8, v, true, mb);
      LiteralPrefix(Model(IsMatchN(s, ps), false), MatchedCoins(slot, 1, 8, v, true, mb), pk.value);
    }
  }

  lemma RepBits(s: nat, ps: nat, which: nat, long: bool)
    requires which < 4 && (which > 0 ==> long)
    ensures var b := BitsOf([Model(IsMatchN(s, ps), true), Model(IsRepN(s), true)] + RepCoins(s, ps, which, long));
            b == if which == 0 then [true, true, false, long]
                 else [[], [true, true, true, false], [true, true, true, true, false], [true, true, true, true, true]][which]
  {
  }

  /** How each kind of packet begins. */
  lemma PacketPrefixes(p: Props, e: Enc, pk: Packet)
    requires EncFits(p, e) && PacketOk(p, e.hist, pk)
    ensures var b := BitsOf(PacketCoins(p, e, pk));
            match pk
            case Literal(value) => |b| == 9 && !b[0] && HighFirst(b[1..]) == value
            case Match(_, _) => [true, false] <= b
            case LongRep(which, _) =>
              [[true, true, false, true], [true, true, true, false], [true, true, true, true, false], [true, true, true, true, true]][which] <= b
            case ShortRep => b == [true, true, false, false]
  {
    hide LenCoins, DistanceCoins, BitsOf, RepCoins, HighFirst, Pow2, RepsFit;
    var s, ps := e.state, |e.hist| % Pow2(p.pb);
    match pk
    case Literal(_) => LiteralBits(p, e, pk);
    case Match(distance, length) =>
      var two := [Model(IsMatchN(s, ps), true), Model(IsRepN(s), false)];
      TwoBits(two);
      assert PacketCoins(p, e, pk) == two + (LenCoins(false, ps, length - 2) + DistanceCoins(LenState(length), distance - 1));
      PrefixBits(two, LenCoins(false, ps, length - 2) + DistanceCoins(LenState(length), distance - 1));
    case LongRep(which, length) =>
      RepBits(s, ps, which, true);
      PrefixBits([Model(IsMatchN(s, ps), true), Model(IsRepN(s), true)] + RepCoins(s, ps, which, true), LenCoins(true, ps, length - 2));
    case ShortRep => RepBits(s, ps, 0, false);
  }

  lemma TwoBits(two: seq<Coin>)
    requires |two| == 2
    ensures BitsOf(two) == [two[0].bit, two[1].bit]
  {
  }

  /** The twelve states, as the encoder's tables have them and as the decoder reckons them. */
  lemma StateTables(d: Dec, b: byte, len: nat, dist: nat, which: nat)
    requires d.state < 12 && dist != END_MARK && 1 <= d.rep0 <= |d.hist|
    ensures Applied(d, LitSym(b)).state == [0, 0, 0, 0, 1, 2, 3, 4, 5, 6, 4, 5][d.state] == LITERAL_NEXT[d.state]
    ensures Applied(d, MatchSym(len, dist)).state == [7, 7, 7, 7, 7, 7, 7, 10, 10, 10, 10, 10][d.state] == MATCH_NEXT[d.state]
    ensures Applied(d, RepSym(which, len)).state == [8, 8, 8, 8, 8, 8, 8, 11, 11, 11, 11, 11][d.state] == REP_NEXT[d.state]
    ensures Applied(d, ShortRepSym).state == [9, 9, 9, 9, 9, 9, 9, 11, 11, 11, 11, 11][d.state] == SHORT_REP_NEXT[d.state]
  {
  }

  // ---------- Contexts and numbers of the coder ----------

  /** The table of a literal: the lowest lp bits of the position before the highest lc bits of the byte before. */
  lemma LiteralContext(p: Props, e: Enc, value: byte)
    requires EncFits(p, e)
    ensures var coins := PacketCoins(p, e, Literal(value));
            var slot := if e.hist == [] then 0
                        else |e.hist| % Pow2(p.lp) * Pow2(p.lc) + e.hist[|e.hist| - 1] / Pow2(8 - p.lc);
            && coins[0] == Model(IsMatchN(e.state, |e.hist| % Pow2(p.pb)), false)
            && if e.state < 7 then coins[1..] == TreeCoins(LiteralTree(slot), 1, 8, value)
               else coins[1..] == MatchedCoins(slot, 1, 8, value, true, e.hist[|e.hist| - e.reps[0]])
  {
    EightBits();
    hide TreeCoins, MatchedCoins, Pow2;
  }

  /** The tables of a match: those of its length and its distance. */
  lemma MatchContext(p: Props, e: Enc, distance: nat, length: nat)
    requires EncFits(p, e) && PacketOk(p, e.hist, Match(distance, length))
    ensures var ps := |e.hist| % Pow2(p.pb);
            PacketCoins(p, e, Match(distance, length)) ==
              [Model(IsMatchN(e.state, ps), true), Model(IsRepN(e.state), false)] + LenCoins(false, ps, length - 2) +
              DistanceCoins(if length == 2 then 0 else if length == 3 then 1 else if length == 4 then 2 else 3, distance - 1)
  {
    hide LenCoins, DistanceCoins, Pow2;
  }

  /** The arithmetic of the decoder: eleven bits of probability, five of adaptation, and a byte at a time. */
  lemma CoderNumbers(prob: int, rc: Rc)
    requires ProbOk(prob) && RcOk(rc)
    ensures Adapted(prob, false) == prob + (2048 - prob) / 32 && Adapted(prob, true) == prob - prob / 32
    ensures rc.range >= 0x100_0000 ==>
              && Bound(rc.range, prob) == rc.range / 2048 * prob
              && (ModelBit(rc, prob) <==> rc.code >= rc.range / 2048 * prob)
    ensures rc.range < 0x100_0000 && rc.rest != [] ==>
              Normalize(rc) == Rc(0x100 * rc.range, 0x100 * rc.code % 0x1_0000_0000 + rc.rest[0], rc.rest[1..])
    ensures PROB_INIT == 1024 && FULL == Interval(0, 0xFFFF_FFFF, 0)
  {
  }
}
