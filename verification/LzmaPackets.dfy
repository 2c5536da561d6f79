/**
 LZMA streams as lists of packets: what they mean, and how LzmaEnc.c codes them.  Whatever
 packets the encoder chooses, the decoder puts out their meaning.
 */
module LzmaPackets {
  import opened Arithmetic
  import opened Bytes
  import opened RangeCoder
  import opened RangeEnc
  import opened LzmaSymbol
  import opened LzmaModel
  import opened LzmaNames
  import opened LzmaCoins

  // ---------- What packets mean ----------

  /** A byte, or bytes that are there already: at a distance, or at one of the last four distances. */
  datatype Packet = Literal(value: byte) | Match(distance: nat, length: nat) | LongRep(which: nat, length: nat) | ShortRep

  const MIN_LENGTH: nat := 2
  const MAX_LENGTH: nat := 273

  /** How far back the dictionary reaches. */
  function Window(p: Props, hist: seq<byte>): nat { if |hist| < p.dicSize then |hist| else p.dicSize }

  /** What the encoder may choose. */
  predicate PacketOk(p: Props, hist: seq<byte>, pk: Packet) {
    match pk
    case Literal(_) => true
    case Match(distance, length) => 1 <= distance <= Window(p, hist) && MIN_LENGTH <= length <= MAX_LENGTH
    case LongRep(which, length) => hist != [] && which < 4 && MIN_LENGTH <= length <= MAX_LENGTH
    case ShortRep => hist != []
  }

  /** The last four distances, the latest first. */
  predicate RepsFit(p: Props, hist: seq<byte>, reps: seq<nat>) {
    |reps| == 4 && if hist == [] then reps == [1, 1, 1, 1] else forall i :: 0 <= i < 4 ==> 1 <= reps[i] <= Window(p, hist)
  }

  /** The bytes after a packet. */
  function Expanded(p: Props, hist: seq<byte>, reps: seq<nat>, pk: Packet): (r: seq<byte>)
    requires RepsFit(p, hist, reps) && PacketOk(p, hist, pk)
    ensures hist < r
  {
    match pk
    case Literal(value) => hist + [value]
    case Match(distance, length) => Repeat(hist, distance, length)
    case LongRep(which, length) => Repeat(hist, reps[which], length)
    case ShortRep => Repeat(hist, reps[0], 1)
  }

  /** A distance used moves to the front. */
  function RepsAfter(reps: seq<nat>, pk: Packet): (r: seq<nat>)
    requires |reps| == 4 && (pk.LongRep? ==> pk.which < 4)
    ensures |r| == 4
  {
    match pk
    case Match(distance, _) => [distance] + reps[..3]
    case LongRep(which, _) => [reps[which]] + reps[..which] + reps[which + 1..]
    case _ => reps
  }

  lemma RepsStay(p: Props, hist: seq<byte>, reps: seq<nat>, pk: Packet)
    requires PropsOk(p) && RepsFit(p, hist, reps) && PacketOk(p, hist, pk)
    ensures RepsFit(p, Expanded(p, hist, reps, pk), RepsAfter(reps, pk))
  {
  }

  /** The bytes after all packets, and whether each of them may be chosen when its turn comes. */
  predicate PacketsOk(p: Props, hist: seq<byte>, reps: seq<nat>, packets: seq<Packet>)
    requires PropsOk(p) && RepsFit(p, hist, reps)
    decreases |packets|
  {
    packets == [] ||
    (PacketOk(p, hist, packets[0]) &&
     (RepsStay(p, hist, reps, packets[0]);
      PacketsOk(p, Expanded(p, hist, reps, packets[0]), RepsAfter(reps, packets[0]), packets[1..])))
  }

  function Expansion(p: Props, hist: seq<byte>, reps: seq<nat>, packets: seq<Packet>): (r: seq<byte>)
    requires PropsOk(p) && RepsFit(p, hist, reps) && PacketsOk(p, hist, reps, packets)
    ensures hist <= r
    decreases |packets|
  {
    if packets == [] then hist
    else
      RepsStay(p, hist, reps, packets[0]);
      Expansion(p, Expanded(p, hist, reps, packets[0]), RepsAfter(reps, packets[0]), packets[1..])
  }

  // ---------- How they are coded ----------

  // kLiteralNextStates, kMatchNextStates, kRepNextStates, kShortRepNextStates
  const LITERAL_NEXT: seq<nat> := [0, 0, 0, 0, 1, 2, 3, 4, 5, 6, 4, 5]
  const MATCH_NEXT: seq<nat> := [7, 7, 7, 7, 7, 7, 7, 10, 10, 10, 10, 10]
  const REP_NEXT: seq<nat> := [8, 8, 8, 8, 8, 8, 8, 11, 11, 11, 11, 11]
  const SHORT_REP_NEXT: seq<nat> := [9, 9, 9, 9, 9, 9, 9, 11, 11, 11, 11, 11]

  type prob = p: int | ProbOk(p) witness 1024

  /** The encoder's own probabilities: those that are not in the map are still PROB_INIT. */
  type Probs = map<Name, prob>

  function ProbOf(m: Probs, n: Name): prob { if n in m then m[n] else PROB_INIT }

  datatype Enc = Enc(state: nat, reps: seq<nat>, probs: Probs, hist: seq<byte>)

  predicate EncFits(p: Props, e: Enc) {
    PropsOk(p) && e.state < 12 && RepsFit(p, e.hist, e.reps) && (e.hist == [] ==> e.state == 0)
  }

  lemma MaskedHigh(pos: nat, prev: int, a: nat)
    requires a >= 1 && 0 <= prev < 0x100
    ensures (pos * 0x100 + prev) % (0x100 * a) == 0x100 * (pos % a) + prev
  {
    var q, r := pos / a, pos % a;
    DivisionParts(pos, a);
    var m := a * q;
    assert (0x100 * a) * q == 0x100 * m by { ScaleProduct(0x100, a, q); }
    assert 0 <= 0x100 * r + prev < 0x100 * a;
    RemainderIs(pos * 0x100 + prev, 0x100 * a, q, 0x100 * r + prev);
  }

  lemma MaskedLow(pos: nat, prev: int, b: nat, h: nat)
    requires h >= 1 && b * h == 0x100 && prev >= 0
    ensures (pos * 0x100 + prev) % h == prev % h
  {
    assert pos * 0x100 == h * (pos * b) by { assert pos * (b * h) == h * (pos * b); }
    RemainderShift(prev, pos * b, h);
  }

  lemma MaskedTimes(r: nat, prev: int, b: nat, h: nat)
    requires h >= 1 && b * h == 0x100 && prev >= 0
    ensures 3 * ((0x100 * r + prev - prev % h) * b) == LIT_SIZE * (r * b + prev / h)
  {
    DivisionParts(prev, h);
    var q := prev / h;
    var hq := h * q;
    assert (0x100 * r + hq) * b == 0x100 * (r * b) + hq * b;
    assert hq * b == (b * h) * q;
  }

  lemma MaskedSum(pos: nat, prev: int, a: nat, b: nat, h: nat)
    requires a >= 1 && h >= 1 && b * h == 0x100 && 0 <= prev < 0x100
    ensures var x := pos * 0x100 + prev;
            3 * ((x % (0x100 * a) - x % h) * b) == LIT_SIZE * (pos % a * b + prev / h)
  {
    MaskedHigh(pos, prev, a);
    MaskedLow(pos, prev, b, h);
    MaskedTimes(pos % a, prev, b, h);
  }

  /** The lowest bits of the position before the highest bits of the byte. */
  function PlainSlot(pos: nat, prev: byte, a: nat, b: nat, h: nat): nat
    requires a >= 1 && h >= 1
  {
    pos % a * b + prev / h
  }

  /** ((pos << 8) + prev) & lpMask: the mask covers the lowest bits of the position and the highest of the byte. */
  function Masked(p: Props, pos: nat, prev: byte): int
    requires PropsOk(p)
  {
    var x := pos * 0x100 + prev;
    x % Pow2(8 + p.lp) - x % Pow2(8 - p.lc)
  }

  /** The table of a literal, counted in probabilities. */
  lemma LiteralOffset(p: Props, pos: nat, prev: byte)
    requires PropsOk(p)
    ensures 3 * (Masked(p, pos, prev) * Pow2(p.lc)) == LIT_SIZE * PlainSlot(pos, prev, Pow2(p.lp), Pow2(p.lc), Pow2(8 - p.lc))
  {
    hide Pow2;
    EightBits();
    Pow2Split(8, p.lp);
    Pow2Split(p.lc, 8 - p.lc);
    MaskedSum(pos, prev, Pow2(p.lp), Pow2(p.lc), Pow2(8 - p.lc));
  }

  /** LIT_PROBS, divided by the size of a table. */
  function LiteralSlot(p: Props, pos: nat, prev: byte): (slot: nat)
    requires PropsOk(p)
    ensures slot == PlainSlot(pos, prev, Pow2(p.lp), Pow2(p.lc), Pow2(8 - p.lc))
  {
    hide Pow2, Masked, PlainSlot;
    LiteralOffset(p, pos, prev);
    WholeTables(3 * (Masked(p, pos, prev) * Pow2(p.lc)), PlainSlot(pos, prev, Pow2(p.lp), Pow2(p.lc), Pow2(8 - p.lc)));
    3 * (Masked(p, pos, prev) * Pow2(p.lc)) / LIT_SIZE
  }

  lemma WholeTables(offset: int, slot: int)
    requires offset == LIT_SIZE * slot
    ensures offset / LIT_SIZE == slot
  {
  }

  function SlotHere(p: Props, hist: seq<byte>): nat
    requires PropsOk(p)
  {
    if hist == [] then 0 else LiteralSlot(p, |hist|, hist[|hist| - 1])
  }

  /** GetLenToPosState */
  function LenState(length: nat): nat
    requires length >= 2
  {
    if length < 5 then length - 2 else 3
  }

  /** The bits that choose one of the last distances. */
  function RepCoins(s: nat, ps: nat, which: nat, long: bool): seq<Coin> {
    if which == 0 then [Model(IsRepG0N(s), false), Model(IsRep0LongN(s, ps), long)]
    else if which == 1 then [Model(IsRepG0N(s), true), Model(IsRepG1N(s), false)]
    else [Model(IsRepG0N(s), true), Model(IsRepG1N(s), true), Model(IsRepG2N(s), which == 3)]
  }

  /** A match with a new distance, which counts from 0. */
  function MatchCoins(s: nat, ps: nat, dist: nat, length: nat): seq<Coin>
    requires dist < WORD && MIN_LENGTH <= length <= MAX_LENGTH
  {
    [Model(IsMatchN(s, ps), true), Model(IsRepN(s), false)] + LenCoins(false, ps, length - 2) + DistanceCoins(LenState(length), dist)
  }

  /** One turn of LzmaEnc_CodeOneBlock. */
  function PacketCoins(p: Props, e: Enc, pk: Packet): seq<Coin>
    requires EncFits(p, e) && PacketOk(p, e.hist, pk)
  {
    var s, ps := e.state, |e.hist| % Pow2(p.pb);
    match pk
    case Literal(value) =>
      EightBits();
      [Model(IsMatchN(s, ps), false)] +
      if s < 7 then TreeCoins(LiteralTree(SlotHere(p, e.hist)), 1, 8, value)
      else MatchedCoins(SlotHere(p, e.hist), 1, 8, value, true, e.hist[|e.hist| - e.reps[0]])
    case Match(distance, length) => MatchCoins(s, ps, distance - 1, length)
    case LongRep(which, length) =>
      [Model(IsMatchN(s, ps), true), Model(IsRepN(s), true)] + RepCoins(s, ps, which, true) + LenCoins(true, ps, length - 2)
    case ShortRep => [Model(IsMatchN(s, ps), true), Model(IsRepN(s), true)] + RepCoins(s, ps, 0, false)
  }

  function StateAfter(s: nat, pk: Packet): (r: nat)
    requires s < 12
    ensures r < 12
  {
    match pk
    case Literal(_) => LITERAL_NEXT[s]
    case Match(_, _) => MATCH_NEXT[s]
    case LongRep(_, _) => REP_NEXT[s]
    case ShortRep => SHORT_REP_NEXT[s]
  }

  /** The probabilities after the coins. */
  function Learned(m: Probs, coins: seq<Coin>): Probs
    decreases |coins|
  {
    if coins == [] then m
    else
      match coins[0]
      case Half(_) => Learned(m, coins[1..])
      case Model(n, bit) => Learned(m[n := Adapted(ProbOf(m, n), bit)], coins[1..])
  }

  /** The interval after the coins. */
  function Narrow(iv: Interval, m: Probs, coins: seq<Coin>): (r: Interval)
    requires IntervalOk(iv)
    ensures IntervalOk(r)
    decreases |coins|
  {
    if coins == [] then iv
    else
      match coins[0]
      case Half(bit) =>
        HalvedOk(iv, bit);
        Narrow(Shifted(Halved(iv, bit)), m, coins[1..])
      case Model(n, bit) =>
        NarrowedOk(iv, ProbOf(m, n), bit);
        Narrow(Shifted(Narrowed(iv, ProbOf(m, n), bit)), m[n := Adapted(ProbOf(m, n), bit)], coins[1..])
  }

  function AfterPacket(p: Props, e: Enc, pk: Packet): (r: Enc)
    requires EncFits(p, e) && PacketOk(p, e.hist, pk)
    ensures EncFits(p, r)
  {
    RepsStay(p, e.hist, e.reps, pk);
    Enc(StateAfter(e.state, pk), RepsAfter(e.reps, pk), Learned(e.probs, PacketCoins(p, e, pk)), Expanded(p, e.hist, e.reps, pk))
  }

  function AfterPackets(p: Props, e: Enc, packets: seq<Packet>): (r: Enc)
    requires EncFits(p, e) && PacketsOk(p, e.hist, e.reps, packets)
    ensures EncFits(p, r)
    decreases |packets|
  {
    if packets == [] then e else AfterPackets(p, AfterPacket(p, e, packets[0]), packets[1..])
  }

  function Coded(p: Props, e: Enc, iv: Interval, packets: seq<Packet>): (r: Interval)
    requires EncFits(p, e) && PacketsOk(p, e.hist, e.reps, packets) && IntervalOk(iv)
    ensures IntervalOk(r)
    decreases |packets|
  {
    if packets == [] then iv
    else Coded(p, AfterPacket(p, e, packets[0]), Narrow(iv, e.probs, PacketCoins(p, e, packets[0])), packets[1..])
  }

  lemma {:induction false} ExpansionIs(p: Props, e: Enc, packets: seq<Packet>)
    requires EncFits(p, e) && PacketsOk(p, e.hist, e.reps, packets)
    ensures AfterPackets(p, e, packets).hist == Expansion(p, e.hist, e.reps, packets)
    decreases |packets|
  {
    if packets != [] {
      ExpansionIs(p, AfterPacket(p, e, packets[0]), packets[1..]);
    }
  }

  const FULL: Interval := Interval(0, 0xFFFF_FFFF, 0)

  /** WriteEndMarker: the largest distance, with the shortest length. */
  function MarkCoins(p: Props, e: Enc): seq<Coin>
    requires EncFits(p, e)
  {
    MatchCoins(e.state, |e.hist| % Pow2(p.pb), END_MARK, MIN_LENGTH)
  }

  /** What the range encoder leaves after its flush. */
  function Flushed(iv: Interval): seq<byte> { BigEndian(iv.low, iv.shifts + 5) }

  lemma FullOk()
    ensures IntervalOk(FULL)
  {
    assert Pow256(4) == 0x1_0000_0000;
  }

  /** The bytes of the packets, with an end mark or without it. */
  function PacketBytes(p: Props, e: Enc, packets: seq<Packet>, mark: bool): seq<byte>
    requires EncFits(p, e) && PacketsOk(p, e.hist, e.reps, packets)
  {
    FullOk();
    var iv := Coded(p, e, FULL, packets);
    var end := AfterPackets(p, e, packets);
    Flushed(if mark then Narrow(iv, end.probs, MarkCoins(p, end)) else iv)
  }
}
