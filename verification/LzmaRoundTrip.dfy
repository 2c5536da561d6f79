/** What LzmaEnc.c codes, LzmaDec.c decodes: the bytes of packets run to their meaning. */
module LzmaRoundTrip {
  import opened Arithmetic
  import opened Bytes
  import opened RangeCoder
  import opened RangeEnc
  import opened LzmaSymbol
  import opened LzmaModel
  import opened LzmaRun
  import opened LzmaNames
  import opened LzmaCoins
  import opened LzmaPackets

  // ---------- The probabilities of both sides ----------

  /** The decoder's array holds the encoder's probabilities, each in its place. */
  ghost predicate Mirrors(p: Props, m: Probs, probs: seq<int>) {
    |probs| == NumProbs(p) && forall n :: NameOk(p, n) ==> Place(n) < |probs| && probs[Place(n)] == ProbOf(m, n)
  }

  lemma FreshMirrors(p: Props, probs: seq<int>)
    requires PropsOk(p) && probs == FreshProbs(NumProbs(p))
    ensures Mirrors(p, map[], probs)
  {
    forall n | NameOk(p, n)
      ensures Place(n) < |probs| && probs[Place(n)] == ProbOf(map[], n)
    {
      PlaceFits(p, n);
    }
  }

  /** Adapting a probability on both sides. */
  lemma MirrorsStay(p: Props, m: Probs, probs: seq<int>, n: Name, q: prob)
    requires Mirrors(p, m, probs) && NameOk(p, n)
    ensures Mirrors(p, m[n := q], probs[Place(n) := q])
  {
    hide NameOk, Place, NumProbs;
    forall n' | NameOk(p, n')
      ensures Place(n') < |probs| && probs[Place(n) := q][Place(n')] == ProbOf(m[n := q], n')
    {
      if Place(n') == Place(n) {
        PlacesDiffer(p, n', n);
      }
    }
  }

  // ---------- One walk ----------

  /** If the bytes are inside the interval after the coins, they are inside the one before. */
  lemma {:induction false} InsideBefore(iv: Interval, m: Probs, coins: seq<Coin>, x: seq<byte>)
    requires IntervalOk(iv) && Inside(Narrow(iv, m, coins), x)
    ensures Inside(iv, x)
    decreases |coins|
  {
    hide Inside, Pow256, Narrowed, Halved;
    if coins != [] {
      match coins[0]
      case Half(bit) =>
        HalvedOk(iv, bit);
        InsideBefore(Shifted(Halved(iv, bit)), m, coins[1..], x);
        HalfInside(iv, bit, x);
      case Model(n, bit) =>
        NarrowedOk(iv, ProbOf(m, n), bit);
        InsideBefore(Shifted(Narrowed(iv, ProbOf(m, n), bit)), m[n := Adapted(ProbOf(m, n), bit)], coins[1..], x);
        ModelInside(iv, ProbOf(m, n), bit, x);
    }
  }

  lemma ModelInside(iv: Interval, p: int, bit: bool, x: seq<byte>)
    requires IntervalOk(iv) && ProbOk(p) && Inside(Shifted(Narrowed(iv, p, bit)), x)
    ensures Inside(iv, x) && Normal(Registers(iv, x)) && ModelBit(Registers(iv, x), p) == bit
    ensures var a := AfterModelBit(Registers(iv, x), p);
            RcOk(a) && !NeedsByte(a) && Normalize(a) == Registers(Shifted(Narrowed(iv, p, bit)), x)
  {
    hide Num, Bound, Pow256;
    ShiftFollows(Narrowed(iv, p, bit), x);
    NarrowFollows(iv, p, bit, x);
    hide Shifted;
  }

  lemma HalfInside(iv: Interval, bit: bool, x: seq<byte>)
    requires IntervalOk(iv) && Inside(Shifted(Halved(iv, bit)), x)
    ensures Inside(iv, x) && Normal(Registers(iv, x)) && DirectBit(Registers(iv, x)) == bit
    ensures var a := AfterDirectBit(Registers(iv, x));
            RcOk(a) && !NeedsByte(a) && Normalize(a) == Registers(Shifted(Halved(iv, bit)), x)
  {
    hide Num, Pow256;
    ShiftFollows(Halved(iv, bit), x);
    HalfFollows(iv, bit, x);
    hide Shifted;
  }

  /** The decoder stands where the encoder was. */
  predicate StandsAt(w: Walk, iv: Interval, x: seq<byte>) {
    Inside(iv, x) && RcOk(w.rc) && !NeedsByte(w.rc) && Normalize(w.rc) == Registers(iv, x)
  }

  /** One coin: the decoder reads its bit, and learns what the encoder learned. */
  lemma CoinRead(p: Props, c: Ctx, w: Walk, m: Probs, coin: Coin, iv: Interval, x: seq<byte>)
    requires WalkOk(c, w) && Fits(p, c, w.n, coin) && Mirrors(p, m, w.probs) && IntervalOk(iv) && StandsAt(w, iv, x)
    requires coin.Model? ==> Inside(Shifted(Narrowed(iv, ProbOf(m, coin.name), coin.bit)), x)
    requires coin.Half? ==> Inside(Shifted(Halved(iv, coin.bit)), x)
    ensures CanStep(c, w)
    ensures var s := Step(c, w, true);
            && s.n == Next(c, w.n, coin.bit)
            && (match coin
                case Half(bit) => Mirrors(p, m, s.probs) && StandsAt(s, Shifted(Halved(iv, bit)), x)
                case Model(n, bit) => Mirrors(p, m[n := Adapted(ProbOf(m, n), bit)], s.probs) &&
                                      StandsAt(s, Shifted(Narrowed(iv, ProbOf(m, n), bit)), x))
  {
    match coin
    case Half(bit) =>
      HalfInside(iv, bit, x);
      hide NodeOk, Next, Mirrors, Inside, Registers, Normalize, Halved, Shifted, DirectBit, AfterDirectBit, ProbsOk;
    case Model(n, bit) =>
      ModelInside(iv, ProbOf(m, n), bit, x);
      assert w.probs[Place(n)] == ProbOf(m, n);
      MirrorsStay(p, m, w.probs, n, Adapted(ProbOf(m, n), bit));
      hide NodeOk, Next, Mirrors, Inside, Registers, Normalize, Narrowed, Shifted, ModelBit, AfterModelBit, Index,
        Place, NameOk, Adapted;
  }

  /** The coins of a symbol decode to it. */
  lemma {:induction false} CoinsRead(p: Props, c: Ctx, w: Walk, m: Probs, coins: seq<Coin>, sym: Symbol, iv: Interval,
      x: seq<byte>)
    requires WalkOk(c, w) && Leads(p, c, w.n, coins, Done(sym)) && Mirrors(p, m, w.probs)
    requires IntervalOk(iv) && StandsAt(w, iv, x) && Inside(Narrow(iv, m, coins), x)
    ensures var r := Decode(c, w, true);
            && r.Decoded? && r.sym == sym && r.rc == Registers(Narrow(iv, m, coins), x)
            && Mirrors(p, Learned(m, coins), r.probs)
    decreases |coins|
  {
    hide Inside, Pow256, Narrowed, Halved, Mirrors, Fits, Registers, Normalize, Next, NodeOk, Step, Shifted, ProbsOk, CtxOk;
    if coins != [] {
      var more := coins[1..];
      match coins[0]
      case Half(bit) =>
        HalvedOk(iv, bit);
        InsideBefore(Shifted(Halved(iv, bit)), m, more, x);
        CoinRead(p, c, w, m, coins[0], iv, x);
        CoinsRead(p, c, Step(c, w, true), m, more, sym, Shifted(Halved(iv, bit)), x);
      case Model(n, bit) =>
        NarrowedOk(iv, ProbOf(m, n), bit);
        var learned := m[n := Adapted(ProbOf(m, n), bit)];
        InsideBefore(Shifted(Narrowed(iv, ProbOf(m, n), bit)), learned, more, x);
        CoinRead(p, c, w, m, coins[0], iv, x);
        CoinsRead(p, c, Step(c, w, true), learned, more, sym, Shifted(Narrowed(iv, ProbOf(m, n), bit)), x);
    }
  }

  // ---------- One packet ----------

  /** The coder of both sides is the same. */
  ghost predicate InStep(e: Enc, d: Dec) {
    && EncFits(d.props, e) && CoderOk(d) && e.hist == d.hist && e.state == d.state
    && e.reps == [d.rep0, d.rep1, d.rep2, d.rep3] && Mirrors(d.props, e.probs, d.probs)
  }

  function SymbolOf(pk: Packet): Symbol
    requires pk.Match? ==> pk.distance >= 1
    requires pk.Match? || pk.LongRep? ==> pk.length >= MIN_LENGTH
  {
    match pk
    case Literal(value) => LitSym(value)
    case Match(distance, length) => MatchSym(length - 2, distance - 1)
    case LongRep(which, length) => RepSym(which, length - 2)
    case ShortRep => ShortRepSym
  }

  /** What the walk depends on is what the encoder sees. */
  lemma CtxIs(e: Enc, d: Dec)
    requires InStep(e, d)
    ensures var c := CtxOf(d);
            && c.state == e.state && c.posState == 16 * (|e.hist| % Pow2(d.props.pb)) && c.posState / 16 < 16
            && LiteralCtx(d.props, c, SlotHere(d.props, e.hist))
            && (e.state >= 7 ==> c.matchByte == e.hist[|e.hist| - e.reps[0]])
  {
    var p := d.props;
    hide Pow2, LiteralSlot, Mirrors, NumProbs, LitSlot, SlotOf;
    SlotIs(p, d.hist);
  }

  lemma SlotIs(p: Props, hist: seq<byte>)
    requires PropsOk(p)
    ensures SlotHere(p, hist) < Pow2(p.lc + p.lp) && LitTable(p, hist) == LITERAL + LIT_SIZE * SlotHere(p, hist)
  {
    if hist != [] {
      assert SlotHere(p, hist) == LitSlot(p, hist) by { hide LiteralSlot, Pow2; }
    }
    hide LitSlot, LiteralSlot;
  }

  lemma FirstCoins(p: Props, c: Ctx, s: nat, ps: nat)
    requires CtxOk(c) && s == c.state && c.posState == 16 * ps
    ensures && Fits(p, c, IsMatch, Model(IsMatchN(s, ps), false)) && Fits(p, c, IsMatch, Model(IsMatchN(s, ps), true))
            && Next(c, IsMatch, true) == IsRep && Next(c, IsMatch, false) == (if s < 7 then Lit(1, 8) else MatchedLit(1, 8, 0x100, c.matchByte))
            && Fits(p, c, IsRep, Model(IsRepN(s), false)) && Fits(p, c, IsRep, Model(IsRepN(s), true))
            && Next(c, IsRep, true) == RepG0 && Next(c, IsRep, false) == LenChoice(ForMatch)
  {
  }

  lemma LeadsTwo(p: Props, c: Ctx, n: Node, a: Coin, b: Coin, r: Node)
    requires CtxOk(c) && NodeOk(n) && Fits(p, c, n, a) && Fits(p, c, Next(c, n, a.bit), b) && r == Next(c, Next(c, n, a.bit), b.bit)
    ensures NodeOk(r) && Leads(p, c, n, [a, b], r)
  {
    hide Fits, Next, NodeOk;
    LeadsNone(p, c, r);
    LeadsStep(p, c, Next(c, n, a.bit), b, [], r);
    LeadsStep(p, c, n, a, [b], r);
    assert [b] + [] == [b] && [a] + [b] == [a, b];
  }

  lemma LiteralPacketLeads(p: Props, c: Ctx, slot: nat, s: nat, ps: nat, value: byte, matchByte: byte)
    requires LiteralCtx(p, c, slot) && s == c.state && c.posState == 16 * ps && (s >= 7 ==> c.matchByte == matchByte) && value < Pow2(8)
    ensures Leads(p, c, IsMatch,
                  [Model(IsMatchN(s, ps), false)] +
                  (if s < 7 then TreeCoins(LiteralTree(slot), 1, 8, value) else MatchedCoins(slot, 1, 8, value, true, matchByte)),
                  Done(LitSym(value)))
  {
    hide Leads, TreeCoins, MatchedCoins, Pow2, Fits, Next, NodeOk, CtxOk, InTree;
    var first := Model(IsMatchN(s, ps), false);
    EightBits();
    RootInTree(8);
    FirstCoins(p, c, s, ps);
    assert NodeOk(IsMatch) by { IsMatchOk(); }
    if s < 7 {
      TreeLeads(p, c, LiteralBranch(slot), 1, 8, value);
      LeadsStep(p, c, IsMatch, first, TreeCoins(LiteralTree(slot), 1, 8, value), Done(LitSym(value)));
    } else {
      MatchedLeads(p, c, slot, 1, 8, value, true, matchByte);
      LeadsStep(p, c, IsMatch, first, MatchedCoins(slot, 1, 8, value, true, matchByte), Done(LitSym(value)));
    }
  }

  lemma IsMatchOk()
    ensures NodeOk(IsMatch)
  {
  }

  lemma MatchPacketLeads(p: Props, c: Ctx, s: nat, ps: nat, dist: nat, length: nat)
    requires CtxOk(c) && s == c.state && c.posState == 16 * ps && dist < WORD && MIN_LENGTH <= length <= MAX_LENGTH
    ensures NodeOk(Done(MatchSym(length - 2, dist))) && Leads(p, c, IsMatch, MatchCoins(s, ps, dist, length), Done(MatchSym(length - 2, dist)))
  {
    hide Leads, LenCoins, DistanceCoins, Pow2, Fits, Next, NodeOk, CtxOk;
    var two := [Model(IsMatchN(s, ps), true), Model(IsRepN(s), false)];
    var len: nat := length - 2;
    var end := Done(MatchSym(len, dist));
    IsMatchOk();
    FirstCoins(p, c, s, ps);
    LeadsTwo(p, c, IsMatch, two[0], two[1], LenChoice(ForMatch));
    LengthLeads(p, c, false, 0, len);
    assert AfterLen(ForMatch, len) == PosSlot(len, 1, 6) && LenState(length) == MinLen3(len);
    LeadsOn(p, c, IsMatch, two, LenChoice(ForMatch), LenCoins(false, ps, len), PosSlot(len, 1, 6));
    DistanceLeads(p, c, len, dist);
    LeadsOn(p, c, IsMatch, two + LenCoins(false, ps, len), PosSlot(len, 1, 6), DistanceCoins(LenState(length), dist), end);
    MatchOk(len, dist);
  }

  lemma MatchOk(len: nat, dist: nat)
    requires len < 272 && dist < WORD
    ensures NodeOk(Done(MatchSym(len, dist)))
  {
  }

  lemma RepCoinsLead(p: Props, c: Ctx, s: nat, ps: nat, which: nat, long: bool)
    requires CtxOk(c) && s == c.state && c.posState == 16 * ps && which < 4 && (which > 0 ==> long)
    ensures var r := if long then LenChoice(ForRep(which)) else Done(ShortRepSym);
            NodeOk(r) && NodeOk(RepG0) && Leads(p, c, RepG0, RepCoins(s, ps, which, long), r)
  {
    var r := if long then LenChoice(ForRep(which)) else Done(ShortRepSym);
    hide Leads;
    if which == 0 {
      LeadsTwo(p, c, RepG0, Model(IsRepG0N(s), false), Model(IsRep0LongN(s, ps), long), r);
    } else if which == 1 {
      LeadsTwo(p, c, RepG0, Model(IsRepG0N(s), true), Model(IsRepG1N(s), false), r);
    } else {
      var a, b, g := Model(IsRepG0N(s), true), Model(IsRepG1N(s), true), Model(IsRepG2N(s), which == 3);
      LeadsTwo(p, c, RepG1, b, g, r);
      LeadsStep(p, c, RepG0, a, [b, g], r);
      assert [a] + [b, g] == [a, b, g];
    }
  }

  lemma RepPacketLeads(p: Props, c: Ctx, s: nat, ps: nat, which: nat, length: nat)
    requires CtxOk(c) && s == c.state && c.posState == 16 * ps && which < 4 && MIN_LENGTH <= length <= MAX_LENGTH
    ensures Leads(p, c, IsMatch,
                  [Model(IsMatchN(s, ps), true), Model(IsRepN(s), true)] + RepCoins(s, ps, which, true) + LenCoins(true, ps, length - 2),
                  Done(RepSym(which, length - 2)))
  {
    hide Leads, LenCoins, RepCoins, Pow2, Fits, Next, NodeOk, CtxOk;
    var two := [Model(IsMatchN(s, ps), true), Model(IsRepN(s), true)];
    var len: nat := length - 2;
    IsMatchOk();
    FirstCoins(p, c, s, ps);
    LeadsTwo(p, c, IsMatch, two[0], two[1], RepG0);
    RepCoinsLead(p, c, s, ps, which, true);
    LeadsOn(p, c, IsMatch, two, RepG0, RepCoins(s, ps, which, true), LenChoice(ForRep(which)));
    LengthLeads(p, c, true, which, len);
    assert AfterLen(ForRep(which), len) == Done(RepSym(which, len));
    LeadsOn(p, c, IsMatch, two + RepCoins(s, ps, which, true), LenChoice(ForRep(which)), LenCoins(true, ps, len), Done(RepSym(which, len)));
  }

  lemma ShortPacketLeads(p: Props, c: Ctx, s: nat, ps: nat)
    requires CtxOk(c) && s == c.state && c.posState == 16 * ps
    ensures Leads(p, c, IsMatch, [Model(IsMatchN(s, ps), true), Model(IsRepN(s), true)] + RepCoins(s, ps, 0, false), Done(ShortRepSym))
  {
    hide Leads, RepCoins, Pow2, Fits, Next, NodeOk, CtxOk;
    var two := [Model(IsMatchN(s, ps), true), Model(IsRepN(s), true)];
    IsMatchOk();
    FirstCoins(p, c, s, ps);
    LeadsTwo(p, c, IsMatch, two[0], two[1], RepG0);
    RepCoinsLead(p, c, s, ps, 0, false);
    LeadsOn(p, c, IsMatch, two, RepG0, RepCoins(s, ps, 0, false), Done(ShortRepSym));
  }

  /** The coins of a packet lead through the walk to its symbol. */
  lemma PacketLeads(e: Enc, d: Dec, pk: Packet)
    requires InStep(e, d) && PacketOk(d.props, e.hist, pk)
    ensures Leads(d.props, CtxOf(d), IsMatch, PacketCoins(d.props, e, pk), Done(SymbolOf(pk)))
  {
    hide Leads, LenCoins, RepCoins, Pow2, CtxOf, TreeCoins, MatchedCoins, MatchCoins, SlotHere, Mirrors, CoderOk, LiteralCtx;
    CtxIs(e, d);
    var p, c, s, ps := d.props, CtxOf(d), e.state, |e.hist| % Pow2(d.props.pb);
    EightBits();
    match pk
    case Literal(value) =>
      LiteralPacketLeads(p, c, SlotHere(p, e.hist), s, ps, value, if s >= 7 then e.hist[|e.hist| - e.reps[0]] else 0);
    case Match(distance, length) => MatchPacketLeads(p, c, s, ps, distance - 1, length);
    case LongRep(which, length) => RepPacketLeads(p, c, s, ps, which, length);
    case ShortRep => ShortPacketLeads(p, c, s, ps);
  }

  // ---------- The run over packets ----------

  /** The decoder stands where the encoder was, with rest unread. */
  predicate Meets(d: Dec, rest: seq<byte>, iv: Interval, x: seq<byte>) {
    IntervalOk(iv) && Inside(iv, x) && Registers(iv, x) == Rc(d.range, d.code, rest)
  }

  lemma MeetsStands(d: Dec, rest: seq<byte>, iv: Interval, x: seq<byte>)
    requires Ready(d) && Meets(d, rest, iv, x)
    ensures StandsAt(StartWalk(d, rest), iv, x)
  {
    hide Num, CtxOf, WalkOk;
  }

  lemma SymbolRead(e: Enc, d: Dec, rest: seq<byte>, coins: seq<Coin>, sym: Symbol, iv: Interval, x: seq<byte>)
    requires Ready(d) && InStep(e, d) && Meets(d, rest, iv, x)
    requires Leads(d.props, CtxOf(d), IsMatch, coins, Done(sym)) && Inside(Narrow(iv, e.probs, coins), x)
    ensures var r := NextSymbol(d, rest);
            && r.Decoded? && r.sym == sym && r.rc == Registers(Narrow(iv, e.probs, coins), x)
            && Mirrors(d.props, Learned(e.probs, coins), r.probs)
  {
    MeetsStands(d, rest, iv, x);
    hide Inside, Leads, Mirrors, Decode, CtxOf, NumProbs, WalkOk, IntervalOk, StandsAt, Registers, Normalize;
    CoinsRead(d.props, CtxOf(d), StartWalk(d, rest), e.probs, coins, sym, iv, x);
  }

  /** The decoder after a packet. */
  function Moved(d: Dec, p: Props, state: nat, reps: seq<nat>, pk: Packet, rc: Rc, probs: seq<int>): Dec
    requires RepsFit(p, d.hist, reps) && PacketOk(p, d.hist, pk) && state < 12
  {
    var r := RepsAfter(reps, pk);
    d.(range := rc.range, code := rc.code, probs := probs, state := StateAfter(state, pk),
       rep0 := r[0], rep1 := r[1], rep2 := r[2], rep3 := r[3], hist := Expanded(p, d.hist, reps, pk), remain := 0)
  }

  /** What holds of the decoder before a packet. */
  predicate Prepared(d: Dec, p: Props, state: nat, reps: seq<nat>, pk: Packet) {
    && RepsFit(p, d.hist, reps) && PacketOk(p, d.hist, pk) && state < 12 && p.dicSize < WORD
    && d.state == state && reps == [d.rep0, d.rep1, d.rep2, d.rep3] && d.remain == 0
    && (d.hist != [] ==> 1 <= d.rep0 <= |d.hist|)
  }

  /** Its symbol, with the match copied, makes of it what the packet means. */
  predicate Moves(d: Dec, p: Props, state: nat, reps: seq<nat>, pk: Packet, rc: Rc, probs: seq<int>, limit: nat)
    requires Prepared(d, p, state, reps, pk)
  {
    var f := Applied(WithCoder(d, rc, probs), SymbolOf(pk));
    f.remain < FINISHED && (Copying(f) ==> 1 <= f.rep0 <= |f.hist|) && Flush(f, limit) == Moved(d, p, state, reps, pk, rc, probs)
  }

  lemma LiteralMoves(d: Dec, p: Props, state: nat, reps: seq<nat>, pk: Packet, rc: Rc, probs: seq<int>, limit: nat)
    requires Prepared(d, p, state, reps, pk) && pk.Literal?
    ensures Moves(d, p, state, reps, pk, rc, probs, limit)
  {
  }

  lemma ShortMoves(d: Dec, p: Props, state: nat, reps: seq<nat>, pk: Packet, rc: Rc, probs: seq<int>, limit: nat)
    requires Prepared(d, p, state, reps, pk) && pk.ShortRep?
    ensures Moves(d, p, state, reps, pk, rc, probs, limit)
  {
    assert Repeat(d.hist, d.rep0, 1) == Repeat(d.hist + [d.hist[|d.hist| - d.rep0]], d.rep0, 0);
  }

  lemma MatchMoves(d: Dec, p: Props, state: nat, reps: seq<nat>, pk: Packet, rc: Rc, probs: seq<int>, limit: nat)
    requires Prepared(d, p, state, reps, pk) && pk.Match?
    requires |Expanded(p, d.hist, reps, pk)| <= limit
    ensures Moves(d, p, state, reps, pk, rc, probs, limit)
  {
    hide Repeat;
    assert reps[..3] == [d.rep0, d.rep1, d.rep2];
    hide RepsFit;
  }

  lemma LongRepMoves(d: Dec, p: Props, state: nat, reps: seq<nat>, pk: Packet, rc: Rc, probs: seq<int>, limit: nat)
    requires Prepared(d, p, state, reps, pk) && pk.LongRep?
    requires |Expanded(p, d.hist, reps, pk)| <= limit
    ensures Moves(d, p, state, reps, pk, rc, probs, limit)
  {
    hide Repeat;
    var r := RepsAfter(reps, pk);
    assert r == if pk.which == 0 then [d.rep0, d.rep1, d.rep2, d.rep3]
                else if pk.which == 1 then [d.rep1, d.rep0, d.rep2, d.rep3]
                else if pk.which == 2 then [d.rep2, d.rep0, d.rep1, d.rep3]
                else [d.rep3, d.rep0, d.rep1, d.rep2];
    assert 1 <= reps[pk.which] <= |d.hist|;
    hide RepsFit, RepsAfter;
  }

  /** What a symbol does to the decoder is what its packet means. */
  lemma AppliedMoves(d: Dec, p: Props, state: nat, reps: seq<nat>, pk: Packet, rc: Rc, probs: seq<int>, limit: nat)
    requires Prepared(d, p, state, reps, pk) && |Expanded(p, d.hist, reps, pk)| <= limit
    ensures Moves(d, p, state, reps, pk, rc, probs, limit)
  {
    hide Moves, Prepared, Expanded;
    match pk
    case Literal(_) => LiteralMoves(d, p, state, reps, pk, rc, probs, limit);
    case Match(_, _) => MatchMoves(d, p, state, reps, pk, rc, probs, limit);
    case LongRep(_, _) => LongRepMoves(d, p, state, reps, pk, rc, probs, limit);
    case ShortRep => ShortMoves(d, p, state, reps, pk, rc, probs, limit);
  }

  lemma SymbolReachable(e: Enc, d: Dec, pk: Packet)
    requires InStep(e, d) && PacketOk(d.props, e.hist, pk)
    ensures !Unreachable(d, SymbolOf(pk)) && SymbolOk(SymbolOf(pk)) && (d.hist == [] ==> pk.Literal?)
  {
    hide Mirrors, NumProbs;
  }

  lemma InStepMoves(e: Enc, d: Dec, pk: Packet, rc: Rc, probs: seq<int>)
    requires Ready(d) && InStep(e, d) && PacketOk(d.props, e.hist, pk)
    requires Mirrors(d.props, Learned(e.probs, PacketCoins(d.props, e, pk)), probs)
    requires CoderOk(Moved(d, d.props, e.state, e.reps, pk, rc, probs))
    ensures InStep(AfterPacket(d.props, e, pk), Moved(d, d.props, e.state, e.reps, pk, rc, probs))
  {
    hide Mirrors, NumProbs, PacketCoins, Learned, Expanded, RepsAfter, CoderOk, RepsFit;
  }

  lemma IsPrepared(e: Enc, d: Dec, pk: Packet)
    requires Ready(d) && InStep(e, d) && PacketOk(d.props, e.hist, pk)
    ensures Prepared(d, d.props, e.state, e.reps, pk) && (pk.ShortRep? ==> 1 <= d.rep0 <= |d.hist|)
    ensures (pk.Match? ==> pk.distance >= 1) && (pk.Match? || pk.LongRep? ==> pk.length >= MIN_LENGTH)
  {
    hide Mirrors, NumProbs;
  }

  /** The decoder after the packet's symbol, f, and after its match has been copied, d'. */
  lemma AppliedMeans(e: Enc, d: Dec, pk: Packet, r: SymbolResult, limit: nat) returns (f: Dec, d': Dec)
    requires Ready(d) && InStep(e, d) && PacketOk(d.props, e.hist, pk) && r.Decoded? && Normal(r.rc) && r.sym == SymbolOf(pk)
    requires Mirrors(d.props, Learned(e.probs, PacketCoins(d.props, e, pk)), r.probs)
    requires forall i :: 0 <= i < |r.probs| ==> ProbOk(r.probs[i])
    requires |AfterPacket(d.props, e, pk).hist| <= limit
    ensures !Unreachable(d, r.sym) && (d.hist == [] ==> r.sym.LitSym?) && (r.sym.ShortRepSym? ==> 1 <= d.rep0 <= |d.hist|)
    ensures f == Applied(WithCoder(d, r.rc, r.probs), r.sym) && DecOk(f) && f.remain < FINISHED && d' == Flush(f, limit)
    ensures Ready(d') && InStep(AfterPacket(d.props, e, pk), d') && d'.range == r.rc.range && d'.code == r.rc.code && d'.props == d.props
  {
    hide Mirrors, NumProbs, PacketCoins, Learned, Repeat, Applied, Flush, Unreachable, PacketOk, Expanded, DecOk,
      CoderOk, Prepared;
    IsPrepared(e, d, pk);
    MirrorsSize(d.props, Learned(e.probs, PacketCoins(d.props, e, pk)), r.probs);
    MirrorsSize(d.props, e.probs, d.probs);
    SymbolReachable(e, d, pk);
    AppliedMoves(d, d.props, e.state, e.reps, pk, r.rc, r.probs, limit);
    AppliedIsOk(d, pk, r.rc, r.probs, limit);
    InStepMoves(e, d, pk, r.rc, r.probs);
    f := Applied(WithCoder(d, r.rc, r.probs), r.sym);
    d' := Flush(f, limit);
  }

  lemma AppliedIsOk(d: Dec, pk: Packet, rc: Rc, probs: seq<int>, limit: nat)
    requires Ready(d) && Normal(rc) && (pk.Match? ==> pk.distance >= 1) && (pk.Match? || pk.LongRep? ==> pk.length >= MIN_LENGTH)
    requires pk.ShortRep? ==> 1 <= d.rep0 <= |d.hist|
    requires !Unreachable(d, SymbolOf(pk)) && SymbolOk(SymbolOf(pk)) && (d.hist == [] ==> pk.Literal?)
    requires |probs| == |d.probs| && forall i :: 0 <= i < |probs| ==> ProbOk(probs[i])
    ensures var f := Applied(WithCoder(d, rc, probs), SymbolOf(pk));
            && DecOk(f) && f.remain <= FINISHED
            && (f.remain < FINISHED && (Copying(f) ==> 1 <= f.rep0 <= |f.hist|) ==>
                  DecOk(Flush(f, limit)) && (Flush(f, limit).remain == 0 ==> CoderOk(Flush(f, limit))))
  {
    hide NumProbs, Applied, Flush, Unreachable, DecOk, CoderOk;
    AppliedOk(d, SymbolOf(pk), rc, probs);
    var f := Applied(WithCoder(d, rc, probs), SymbolOf(pk));
    if f.remain < FINISHED && (Copying(f) ==> 1 <= f.rep0 <= |f.hist|) {
      FlushOk(f, limit);
      ReadyIsCoded(Flush(f, limit));
    }
  }

  lemma ReadyIsCoded(e: Dec)
    requires DecOk(e)
    ensures e.remain == 0 ==> CoderOk(e)
  {
  }

  lemma MirrorsSize(p: Props, m: Probs, probs: seq<int>)
    requires Mirrors(p, m, probs)
    ensures |probs| == NumProbs(p)
  {
  }

  /** A packet is a step of the run. */
  lemma PacketRuns(e: Enc, d: Dec, rest: seq<byte>, pk: Packet, iv: Interval, x: seq<byte>, limit: nat, fin: bool)
    returns (d': Dec, rest': seq<byte>)
    requires Ready(d) && InStep(e, d) && Meets(d, rest, iv, x) && PacketOk(d.props, e.hist, pk)
    requires Inside(Narrow(iv, e.probs, PacketCoins(d.props, e, pk)), x) && |AfterPacket(d.props, e, pk).hist| <= limit
    ensures Ready(d') && d'.props == d.props && InStep(AfterPacket(d.props, e, pk), d')
    ensures Meets(d', rest', Narrow(iv, e.probs, PacketCoins(d.props, e, pk)), x)
    ensures Run(d, rest, limit, fin) == Run(d', rest', limit, fin)
  {
    hide Inside, Registers, Narrow, PacketCoins, Learned, Mirrors, NextSymbol, DecOk, Run, Flush, CtxOf, Leads,
      NumProbs, IntervalOk,
      PacketOk, CoderOk, Applied, StateAfter, RepsAfter;
    PacketLeads(e, d, pk);
    SymbolRead(e, d, rest, PacketCoins(d.props, e, pk), SymbolOf(pk), iv, x);
    var r := NextSymbol(d, rest);
    NextSymbolOk(d, rest);
    var f;
    f, d' := AppliedMeans(e, d, pk, r, limit);
    NotBadStart(d, rest);
    RunSymbol(d, rest, limit, fin);
    RunFlush(f, r.rc.rest, limit, limit, fin);
    rest' := r.rc.rest;
  }

  lemma NextSymbolOk(d: Dec, x: seq<byte>)
    requires Ready(d) && NextSymbol(d, x).Decoded?
    ensures var r := NextSymbol(d, x); Normal(r.rc) && forall i :: 0 <= i < |r.probs| ==> ProbOk(r.probs[i])
  {
    hide Decode, CtxOf;
  }

  lemma NotBadStart(d: Dec, x: seq<byte>)
    requires Ready(d) && NextSymbol(d, x).Decoded?
    requires d.hist == [] ==> NextSymbol(d, x).sym.LitSym? || NextSymbol(d, x).sym.MatchSym?
    ensures !BadStart(d)
  {
    if d.hist == [] {
      FirstSymbol(d, x);
    }
    hide NextSymbol, DecOk;
  }

  lemma {:induction false} CodedInside(p: Props, e: Enc, iv: Interval, packets: seq<Packet>, x: seq<byte>)
    requires EncFits(p, e) && PacketsOk(p, e.hist, e.reps, packets) && IntervalOk(iv) && Inside(Coded(p, e, iv, packets), x)
    ensures Inside(iv, x)
    decreases |packets|
  {
    hide Inside, IntervalOk, Narrow, PacketCoins, Expanded, RepsAfter, Learned;
    if packets != [] {
      var coins := PacketCoins(p, e, packets[0]);
      CodedInside(p, AfterPacket(p, e, packets[0]), Narrow(iv, e.probs, coins), packets[1..], x);
      InsideBefore(iv, e.probs, coins, x);
    }
  }

  lemma AfterGrows(p: Props, e: Enc, packets: seq<Packet>)
    requires EncFits(p, e) && PacketsOk(p, e.hist, e.reps, packets)
    ensures |e.hist| <= |AfterPackets(p, e, packets).hist|
    ensures packets != [] ==> PacketOk(p, e.hist, packets[0]) && |AfterPacket(p, e, packets[0]).hist| <= |AfterPackets(p, e, packets).hist|
  {
    ExpansionIs(p, e, packets);
    if packets != [] {
      ExpansionIs(p, AfterPacket(p, e, packets[0]), packets[1..]);
    }
    hide Expanded;
  }

  /** The run over the packets ends where the encoder ended. */
  lemma {:induction false} PacketsRun(e: Enc, d: Dec, rest: seq<byte>, packets: seq<Packet>, iv: Interval,
      x: seq<byte>, limit: nat, fin: bool)
    returns (d': Dec, rest': seq<byte>)
    requires Ready(d) && InStep(e, d) && Meets(d, rest, iv, x) && PacketsOk(d.props, e.hist, e.reps, packets)
    requires Inside(Coded(d.props, e, iv, packets), x) && |AfterPackets(d.props, e, packets).hist| <= limit
    ensures Ready(d') && d'.props == d.props && InStep(AfterPackets(d.props, e, packets), d')
    ensures Meets(d', rest', Coded(d.props, e, iv, packets), x)
    ensures Run(d, rest, limit, fin) == Run(d', rest', limit, fin)
    decreases |packets|
  {
    hide Inside, Registers, Narrow, PacketCoins, Mirrors, DecOk, Run, CoderOk, AfterPacket, PacketOk;
    if packets == [] {
      d', rest' := d, rest;
    } else {
      var pk, more := packets[0], packets[1..];
      var next := AfterPacket(d.props, e, pk);
      var iv' := Narrow(iv, e.probs, PacketCoins(d.props, e, pk));
      NextPackets(d.props, e, iv, packets);
      CodedInside(d.props, next, iv', more, x);
      var d1, rest1 := PacketRuns(e, d, rest, pk, iv, x, limit, fin);
      d', rest' := PacketsRun(next, d1, rest1, more, iv', x, limit, fin);
    }
  }

  lemma NextPackets(p: Props, e: Enc, iv: Interval, packets: seq<Packet>)
    requires EncFits(p, e) && PacketsOk(p, e.hist, e.reps, packets) && IntervalOk(iv) && packets != []
    ensures PacketOk(p, e.hist, packets[0])
    ensures var next := AfterPacket(p, e, packets[0]);
            var iv' := Narrow(iv, e.probs, PacketCoins(p, e, packets[0]));
            && PacketsOk(p, next.hist, next.reps, packets[1..])
            && AfterPackets(p, e, packets) == AfterPackets(p, next, packets[1..])
            && Coded(p, e, iv, packets) == Coded(p, next, iv', packets[1..])
            && |next.hist| <= |AfterPackets(p, e, packets).hist|
  {
    AfterGrows(p, e, packets);
    hide Narrow, PacketCoins, Expanded, RepsAfter, Learned;
  }

  // ---------- From the first byte ----------

  /** A decoder that is to be started, and the encoder that starts with it. */
  ghost predicate Joined(e: Enc, d: Dec) {
    && DecOk(d) && d.remain > FINISHED && e.hist == d.hist
    && if d.remain == NEED_INIT_STATE then e.state == 0 && e.reps == [1, 1, 1, 1] && e.probs == map[] else InStep(e, d)
  }

  lemma JoinedStarts(e: Enc, d: Dec, x: seq<byte>)
    requires Joined(e, d) && Inside(FULL, x)
    ensures |x| >= RC_INIT_SIZE && x[0] == 0
    ensures var s := Started(d, x);
            Ready(s) && s.props == d.props && InStep(e, s) && Meets(s, x[RC_INIT_SIZE..], FULL, x)
  {
    FirstFive(x);
    StartedOk(d, x);
    FullOk();
    StartedInStep(e, d, x);
    hide Mirrors, NumProbs, CoderOk, DecOk, Num, InStep, Inside;
  }

  lemma StartedInStep(e: Enc, d: Dec, x: seq<byte>)
    requires Joined(e, d) && |x| >= RC_INIT_SIZE && DecOk(Started(d, x)) && Started(d, x).remain == 0
    ensures InStep(e, Started(d, x))
  {
    hide NumProbs;
    if d.remain == NEED_INIT_STATE {
      FreshMirrors(d.props, Started(d, x).probs);
    }
    hide Mirrors;
  }

  lemma FirstFive(x: seq<byte>)
    requires Inside(FULL, x)
    ensures |x| >= RC_INIT_SIZE && x[0] == 0 && Num(x[..5]) == BigEndian32(x[1], x[2], x[3], x[4])
  {
    assert x[..5][..4] == x[..4] && x[..4][..3] == x[..3] && x[..3][..2] == x[..2] && x[..2][..1] == x[..1] && x[..1][..0] == [];
    var a: int, b: int, c: int, d: int, e: int := x[0], x[1], x[2], x[3], x[4];
    assert Num(x[..1]) == a;
    assert Num(x[..2]) == a * 0x100 + b;
    assert Num(x[..3]) == Num(x[..2]) * 0x100 + c;
    assert Num(x[..4]) == Num(x[..3]) * 0x100 + d;
    assert Num(x[..5]) == Num(x[..4]) * 0x100 + e;
  }

  /** What the encoder leaves is inside its last interval. */
  lemma FlushedInside(iv: Interval, y: seq<byte>)
    requires IntervalOk(iv)
    ensures var x := Flushed(iv) + y; Inside(iv, x) && Registers(iv, x) == Rc(iv.range, 0, y)
  {
    assert Pow256(iv.shifts + 5) == 0x100 * Pow256(iv.shifts + 4);
    NumOfBytes(iv.low, iv.shifts + 5);
    var x, n := Flushed(iv) + y, 5 + iv.shifts;
    assert x[..n] == Flushed(iv) && x[n..] == y;
    hide Pow256, Num, BigEndian;
  }

  /**
   The bytes of the packets are read to their end, and leave the decoder with their meaning in
   its history, with the coder of the encoder, and with the code 0.
   */
  lemma PacketsDecode(e: Enc, d: Dec, packets: seq<Packet>, y: seq<byte>, limit: nat, fin: bool) returns (d': Dec)
    requires Joined(e, d) && EncFits(d.props, e) && PacketsOk(d.props, e.hist, e.reps, packets)
    requires |AfterPackets(d.props, e, packets).hist| <= limit
    ensures Ready(d') && d'.props == d.props && d'.code == 0 && InStep(AfterPackets(d.props, e, packets), d')
    ensures d'.hist == Expansion(d.props, e.hist, e.reps, packets)
    ensures Run(d, PacketBytes(d.props, e, packets, false) + y, limit, fin) == Run(d', y, limit, fin)
  {
    hide Inside, Registers, Narrow, Mirrors, DecOk, Run, CoderOk, AfterPackets, Started, Coded, Flushed, PacketsOk, RepsFit;
    FullOk();
    var iv := Coded(d.props, e, FULL, packets);
    var x := PacketBytes(d.props, e, packets, false) + y;
    FlushedInside(iv, y);
    CodedInside(d.props, e, FULL, packets, x);
    JoinedStarts(e, d, x);
    RunStarts(d, x, limit, fin);
    var rest';
    d', rest' := PacketsRun(e, Started(d, x), x[RC_INIT_SIZE..], packets, FULL, x, limit, fin);
    ExpansionIs(d.props, e, packets);
  }

  /** To the limit they run without an end mark, and every byte is used. */
  lemma PacketsEnd(e: Enc, d: Dec, packets: seq<Packet>) returns (d': Dec)
    requires Joined(e, d) && EncFits(d.props, e) && PacketsOk(d.props, e.hist, e.reps, packets)
    ensures var limit := |Expansion(d.props, e.hist, e.reps, packets)|;
            Run(d, PacketBytes(d.props, e, packets, false), limit, true) == Paused(d', [])
    ensures d'.hist == Expansion(d.props, e.hist, e.reps, packets) && d'.remain == 0 && d'.code == 0
    ensures d'.props == d.props && InStep(AfterPackets(d.props, e, packets), d')
  {
    hide Run, DecOk, CoderOk, PacketBytes, Mirrors, AfterPackets, Expansion, RepsFit, PacketsOk;
    ExpansionIs(d.props, e, packets);
    var limit := |Expansion(d.props, e.hist, e.reps, packets)|;
    d' := PacketsDecode(e, d, packets, [], limit, true);
    var x := PacketBytes(d.props, e, packets, false);
    assert x + [] == x;
    RunStops(d', [], limit, true);
  }

  /** With an end mark they run to it, whatever follows, below any later limit. */
  lemma MarkedDecode(e: Enc, d: Dec, packets: seq<Packet>, y: seq<byte>, limit: nat, fin: bool) returns (d': Dec)
    requires Joined(e, d) && EncFits(d.props, e) && PacketsOk(d.props, e.hist, e.reps, packets)
    requires |AfterPackets(d.props, e, packets).hist| < limit
    ensures d'.hist == Expansion(d.props, e.hist, e.reps, packets) && d'.remain == FINISHED
    ensures Run(d, PacketBytes(d.props, e, packets, true) + y, limit, fin) == Paused(d', y)
  {
    hide Inside, Registers, Narrow, Mirrors, DecOk, Run, CoderOk, AfterPackets, Started, Coded, Flushed, PacketsOk,
      RepsFit, MarkCoins;
    FullOk();
    var p := d.props;
    var iv := Coded(p, e, FULL, packets);
    var end := AfterPackets(p, e, packets);
    var last := Narrow(iv, end.probs, MarkCoins(p, end));
    var x := PacketBytes(p, e, packets, true) + y;
    FlushedInside(last, y);
    InsideBefore(iv, end.probs, MarkCoins(p, end), x);
    CodedInside(p, e, FULL, packets, x);
    JoinedStarts(e, d, x);
    RunStarts(d, x, limit, fin);
    var d1, rest1 := PacketsRun(e, Started(d, x), x[RC_INIT_SIZE..], packets, FULL, x, limit, fin);
    ExpansionIs(p, e, packets);
    d' := MarkRuns(end, d1, rest1, iv, x, limit, fin);
  }

  /** The end mark ends the run. */
  lemma MarkRuns(e: Enc, d: Dec, rest: seq<byte>, iv: Interval, x: seq<byte>, limit: nat, fin: bool) returns (d': Dec)
    requires Ready(d) && InStep(e, d) && Meets(d, rest, iv, x) && |d.hist| < limit
    requires var last := Narrow(iv, e.probs, MarkCoins(d.props, e)); Inside(last, x) && Registers(last, x).code == 0
    ensures d'.hist == d.hist && d'.remain == FINISHED
    ensures Run(d, rest, limit, fin) == Paused(d', Registers(Narrow(iv, e.probs, MarkCoins(d.props, e)), x).rest)
  {
    hide Inside, Registers, Narrow, Learned, Mirrors, NextSymbol, DecOk, Run, CtxOf, Leads, NumProbs, IntervalOk,
      CoderOk, LiteralCtx,
      MatchCoins, Pow2;
    CtxIs(e, d);
    MatchPacketLeads(d.props, CtxOf(d), e.state, |e.hist| % Pow2(d.props.pb), END_MARK, MIN_LENGTH);
    SymbolRead(e, d, rest, MarkCoins(d.props, e), MatchSym(0, END_MARK), iv, x);
    var r := NextSymbol(d, rest);
    NotBadStart(d, rest);
    RunSymbol(d, rest, limit, fin);
    d' := Applied(WithCoder(d, r.rc, r.probs), r.sym);
    RunStops(d', r.rc.rest, limit, fin);
  }
}
