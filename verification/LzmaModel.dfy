/**
 The LZMA decoder as a run over values: an unbounded history instead of the circular
 dictionary, and the unread input instead of the carry buffer.
 */
module LzmaModel {
  import opened Arithmetic
  import opened Bytes
  import opened RangeCoder
  import opened LzmaSymbol
  import opened LzmaSymbolFacts

  datatype Props = Props(lc: nat, lp: nat, pb: nat, dicSize: nat)

  predicate PropsOk(p: Props) {
    p.lc <= 8 && p.lp <= 4 && p.pb <= 4 && 0x1000 <= p.dicSize < WORD
  }

  /** LzmaProps_GetNumProbs */
  function NumProbs(p: Props): nat {
    LITERAL + LIT_SIZE * Pow2(p.lc + p.lp)
  }

  // Values of remainLen; 1..273 is a match still to be copied.
  const FINISHED := 274
  const NEED_INIT_RC := 275
  const NEED_INIT_STATE := 276

  const RC_INIT_SIZE := 5
  const PROB_INIT := 1024
  const RANGE_INIT := 0xFFFF_FFFF
  const END_MARK := 0xFFFF_FFFF

  /** kBadRepCode: codes that would start a stream with a repeated match. */
  const BAD_REP_CODE := 0xBFFF_FC00

  datatype Dec = Dec(props: Props, probs: seq<int>, state: nat,
                     rep0: nat, rep1: nat, rep2: nat, rep3: nat,
                     range: nat, code: nat, remain: nat, hist: seq<byte>)

  /** How far back a distance may reach. */
  function Reach(d: Dec): nat {
    if |d.hist| < d.props.dicSize then |d.hist| else d.props.dicSize
  }

  predicate RepsOk(d: Dec) {
    if d.hist == [] then
      d.rep0 == d.rep1 == d.rep2 == d.rep3 == 1
    else
      1 <= d.rep0 <= Reach(d) && 1 <= d.rep1 <= Reach(d) && 1 <= d.rep2 <= Reach(d) && 1 <= d.rep3 <= Reach(d)
  }

  /** The probabilities, the state and the four distances. */
  predicate CoderOk(d: Dec) {
    && PropsOk(d.props)
    && |d.probs| == NumProbs(d.props)
    && (forall i :: 0 <= i < |d.probs| ==> ProbOk(d.probs[i]))
    && d.state < 12
    && RepsOk(d)
    && (d.hist == [] && d.remain != FINISHED ==> d.state == 0 && d.probs[IS_MATCH] == d.probs[IS_REP] == PROB_INIT)
  }

  /** The range coder registers, once initialized. */
  predicate RegistersOk(d: Dec) {
    && TOP <= d.range < WORD && d.code < WORD
    && (d.hist == [] ==> d.remain == 0 || d.remain == FINISHED)
    && (d.hist == [] && d.remain == 0 ==> d.range == RANGE_INIT)
  }

  predicate DecOk(d: Dec) {
    && PropsOk(d.props)
    && |d.probs| == NumProbs(d.props)
    && d.remain <= NEED_INIT_STATE
    && (d.remain <= NEED_INIT_RC ==> CoderOk(d))
    && (d.remain <= FINISHED ==> RegistersOk(d))
  }

  predicate Ready(d: Dec) {
    DecOk(d) && d.remain == 0
  }

  // ---------- One symbol ----------

  lemma SlotFits(q: int, a: int, t: int, b: int)
    requires 0 <= q < a && 0 <= t < b
    ensures 0 <= q * b + t < a * b
  {
    MulGrows(b, q + 1, a);
    ScaleProduct(b, q, 1);
  }

  /** The low bits of the position n and the high bits of the last byte. */
  function SlotOf(n: nat, a: nat, last: nat, h: nat, b: nat): (slot: nat)
    requires a > 0 && b > 0 && h > 0 && last < b * h
    ensures slot < a * b
  {
    QuotientBelow(last, h, b);
    SlotFits(n % a, a, last / h, b);
    n % a * b + last / h
  }

  /** Which literal table decodes the byte after hist. */
  function LitSlot(p: Props, hist: seq<byte>): (slot: nat)
    requires PropsOk(p) && hist != []
    ensures slot < Pow2(p.lc + p.lp)
  {
    assert Pow2(8) == 0x100 by { TreeBounds(8, 8, 1); }
    Pow2Split(p.lc, 8 - p.lc);
    Pow2Split(p.lp, p.lc);
    hide Pow2, SlotOf;
    SlotOf(|hist|, Pow2(p.lp), hist[|hist| - 1], Pow2(8 - p.lc), Pow2(p.lc))
  }

  function LitTable(p: Props, hist: seq<byte>): (lit: nat)
    requires PropsOk(p)
    ensures LITERAL <= lit && lit + LIT_SIZE <= NumProbs(p)
  {
    hide LitSlot;
    if hist == [] then LITERAL else LITERAL + LIT_SIZE * LitSlot(p, hist)
  }

  lemma QuotientBelow(x: nat, d: nat, q: nat)
    requires d > 0 && x < q * d
    ensures x / d < q
  {
    if q <= x / d {
      MulGrows(d, q, x / d);
    }
  }

  lemma {:induction false} Pow2Split(a: nat, b: nat)
    ensures Pow2(a + b) == Pow2(a) * Pow2(b)
  {
    if a > 0 {
      Pow2Split(a - 1, b);
      ScaleProduct(2, Pow2(a - 1), Pow2(b));
    }
  }

  function MatchByte(d: Dec): byte
    requires CoderOk(d)
  {
    if d.state < 7 || d.hist == [] then 0 else d.hist[|d.hist| - d.rep0]
  }

  function CtxOf(d: Dec): (c: Ctx)
    requires CoderOk(d)
    ensures CtxOk(c) && ProbsOk(c, d.probs)
  {
    hide LitTable;
    assert Pow2(d.props.pb) <= 16 by {
      Pow2Grows(d.props.pb, 4);
      assert Pow2(1) == 2 && Pow2(2) == 4 && Pow2(3) == 8 && Pow2(4) == 16;
    }
    Ctx(d.state, |d.hist| % Pow2(d.props.pb) * 16, LitTable(d.props, d.hist), MatchByte(d))
  }

  function StartWalk(d: Dec, x: seq<byte>): (w: Walk)
    requires Ready(d)
    ensures WalkOk(CtxOf(d), w)
  {
    hide CtxOf;
    Walk(IsMatch, Rc(d.range, d.code, x), d.probs)
  }

  /** The next symbol of the input x. */
  function NextSymbol(d: Dec, x: seq<byte>): SymbolResult
    requires Ready(d)
  {
    hide WalkOk, CoderOk, RegistersOk;
    Decode(CtxOf(d), StartWalk(d, x), true)
  }

  function LitState(s: nat): nat {
    if s < 4 then 0 else if s < 10 then s - 3 else s - 6
  }

  predicate BadStart(d: Dec) {
    d.hist == [] && d.code >= BAD_REP_CODE
  }

  /** A distance the dictionary cannot hold. */
  predicate Unreachable(d: Dec, sym: Symbol) {
    sym.MatchSym? && sym.dist != END_MARK && sym.dist >= Reach(d)
  }

  /** The state after the symbol; a match is still to be copied. */
  function Applied(d: Dec, sym: Symbol): Dec
    requires sym.ShortRepSym? ==> 1 <= d.rep0 <= |d.hist|
  {
    match sym
    case LitSym(b) => d.(hist := d.hist + [b], state := LitState(d.state))
    case ShortRepSym =>
      d.(hist := d.hist + [d.hist[|d.hist| - d.rep0]], state := if d.state < 7 then 9 else 11)
    case RepSym(k, len) =>
      var e := d.(state := if d.state < 7 then 8 else 11, remain := len + 2);
      if k == 0 then e
      else if k == 1 then e.(rep0 := d.rep1, rep1 := d.rep0)
      else if k == 2 then e.(rep0 := d.rep2, rep1 := d.rep0, rep2 := d.rep1)
      else e.(rep0 := d.rep3, rep1 := d.rep0, rep2 := d.rep1, rep3 := d.rep2)
    case MatchSym(len, dist) =>
      if dist == END_MARK then d.(remain := FINISHED)
      else d.(state := if d.state < 7 then 7 else 10, remain := len + 2,
              rep0 := dist + 1, rep1 := d.rep0, rep2 := d.rep1, rep3 := d.rep2)
  }

  function WithCoder(d: Dec, rc: Rc, probs: seq<int>): Dec {
    d.(range := rc.range, code := rc.code, probs := probs)
  }

  // ---------- Copying ----------

  /** n bytes more, each a repetition of the byte dist before it. */
  function Repeat(hist: seq<byte>, dist: nat, n: nat): (r: seq<byte>)
    requires 1 <= dist <= |hist|
    ensures |r| == |hist| + n && hist <= r
    decreases n
  {
    if n == 0 then hist else Repeat(hist + [hist[|hist| - dist]], dist, n - 1)
  }

  lemma {:induction false} RepeatRepeats(hist: seq<byte>, dist: nat, n: nat, i: nat)
    requires 1 <= dist <= |hist| <= i < |hist| + n
    ensures Repeat(hist, dist, n)[i] == Repeat(hist, dist, n)[i - dist]
    decreases n
  {
    var h := hist + [hist[|hist| - dist]];
    assert h <= Repeat(h, dist, n - 1);
    if i > |hist| {
      RepeatRepeats(h, dist, n - 1, i);
    } else {
      assert h[i] == h[i - dist];
    }
  }

  lemma {:induction false} RepeatSplit(hist: seq<byte>, dist: nat, m: nat, n: nat)
    requires 1 <= dist <= |hist|
    ensures Repeat(Repeat(hist, dist, m), dist, n) == Repeat(hist, dist, m + n)
    decreases m
  {
    if m > 0 {
      RepeatSplit(hist + [hist[|hist| - dist]], dist, m - 1, n);
    }
  }

  predicate Copying(d: Dec) {
    0 < d.remain < FINISHED
  }

  /** Copies the pending match, as far as the limit. */
  function Flush(d: Dec, limit: nat): Dec
    requires Copying(d) ==> 1 <= d.rep0 <= |d.hist|
  {
    if Copying(d) && |d.hist| < limit then
      var n := if d.remain < limit - |d.hist| then d.remain else limit - |d.hist|;
      d.(hist := Repeat(d.hist, d.rep0, n), remain := d.remain - n)
    else
      d
  }

  // ---------- The run ----------

  function BigEndian32(a: int, b: int, c: int, d: int): int {
    a * 0x100_0000 + b * 0x1_0000 + c * 0x100 + d
  }

  function FreshProbs(n: nat): (p: seq<int>)
    ensures |p| == n && forall i :: 0 <= i < n ==> p[i] == PROB_INIT
  {
    seq(n, i => PROB_INIT)
  }

  /** LzmaDec_DecodeToDic, the part before the first symbol. */
  function Started(d: Dec, x: seq<byte>): Dec
    requires |x| >= RC_INIT_SIZE
  {
    var e := if d.remain == NEED_INIT_STATE then
               d.(probs := FreshProbs(|d.probs|), state := 0, rep0 := 1, rep1 := 1, rep2 := 1, rep3 := 1)
             else d;
    e.(range := RANGE_INIT, remain := 0,
       code := BigEndian32(x[1], x[2], x[3], x[4]))
  }

  datatype Outcome = Failed | Paused(dec: Dec, rest: seq<byte>)

  /** What the symbol leads to: a next state, or a data error. */
  function AfterSymbol(d: Dec, r: SymbolResult): (e: Outcome)
    requires Ready(d) && r.Decoded?
    requires d.hist == [] ==> BadStart(d) || r.sym.LitSym? || r.sym.MatchSym?
  {
    if BadStart(d) || Unreachable(d, r.sym) then Failed
    else Paused(Applied(WithCoder(d, r.rc, r.probs), r.sym), r.rc.rest)
  }

  /** At the output limit: stop, or with fin accept nothing but the end marker. */
  function AtLimit(d: Dec, x: seq<byte>, fin: bool): Outcome
    requires DecOk(d) && d.remain < FINISHED
  {
    if !fin || (d.remain == 0 && d.code == 0) then Paused(d, x)
    else if d.remain != 0 then Failed
    else
      var r := NextSymbol(d, x);
      if r.OutOfInput? then Paused(d, x)
      else if BadStart(d) || !r.sym.MatchSym? || r.sym.dist != END_MARK || r.rc.code != 0 then Failed
      else Paused(Applied(WithCoder(d, r.rc, r.probs), r.sym), r.rc.rest)
  }

  /**
   Decodes the unread input x until the history has limit bytes, the input runs out in the
   middle of a symbol, or the end marker is read.  fin is LZMA_FINISH_END.
   */
  function Run(d: Dec, x: seq<byte>, limit: nat, fin: bool): (r: Outcome)
    requires DecOk(d)
    ensures r.Paused? ==> DecOk(r.dec)
    decreases if d.remain > FINISHED then 1 else 0, if |d.hist| < limit then limit - |d.hist| else 0,
              if d.remain == 0 then 1 else 0
  {
    if d.remain > FINISHED then
      if x != [] && x[0] != 0 then Failed
      else if |x| < RC_INIT_SIZE then Paused(d, x)
      else
        StartedOk(d, x);
        hide DecOk, Started;
        Run(Started(d, x), x[RC_INIT_SIZE..], limit, fin)
    else if d.remain == FINISHED then
      if d.code != 0 then Failed else Paused(d, x)
    else
      FlushOk(d, limit);
      hide DecOk;
      var e := Flush(d, limit);
      if |e.hist| >= limit then
        AtLimitOk(e, x, fin);
        hide Flush, AtLimit;
        AtLimit(e, x, fin)
      else
        var r := NextSymbol(e, x);
        if r.OutOfInput? then Paused(e, x)
        else
          AfterSymbolOk(e, x);
          var f := AfterSymbol(e, r);
          hide NextSymbol, AfterSymbol;
          if f.Failed? then Failed else Run(f.dec, f.rest, limit, fin)
  }

  lemma StartedOk(d: Dec, x: seq<byte>)
    requires DecOk(d) && d.remain > FINISHED && |x| >= RC_INIT_SIZE
    ensures DecOk(Started(d, x)) && Started(d, x).remain == 0 && Started(d, x).hist == d.hist
  {
    hide Pow2;
    assert NumProbs(d.props) >= LITERAL by { ProductPositive(LIT_SIZE, Pow2(d.props.lc + d.props.lp)); }
  }

  lemma FlushOk(d: Dec, limit: nat)
    requires DecOk(d) && d.remain < FINISHED
    ensures var e := Flush(d, limit);
            DecOk(e) && e.remain < FINISHED && (|e.hist| < limit ==> e.remain == 0) && |d.hist| <= |e.hist|
    ensures d.remain == 0 ==> Flush(d, limit) == d
    ensures d.remain != 0 && |d.hist| < limit ==> |d.hist| < |Flush(d, limit).hist|
  {
  }

  lemma AppliedOk(d: Dec, sym: Symbol, rc: Rc, probs: seq<int>)
    requires Ready(d) && SymbolOk(sym) && Normal(rc) && !Unreachable(d, sym)
    requires |probs| == |d.probs| && forall i :: 0 <= i < |probs| ==> ProbOk(probs[i])
    requires d.hist == [] ==> sym.LitSym? || sym.MatchSym?
    ensures var e := Applied(WithCoder(d, rc, probs), sym);
            DecOk(e) && e.remain <= FINISHED && |d.hist| <= |e.hist| && (e.remain == 0 ==> |e.hist| == |d.hist| + 1)
  {
    hide NumProbs;
  }

  lemma AtLimitOk(d: Dec, x: seq<byte>, fin: bool)
    requires DecOk(d) && d.remain < FINISHED
    ensures var r := AtLimit(d, x, fin); r.Paused? ==> DecOk(r.dec)
  {
    if d.remain == 0 {
      var r := NextSymbol(d, x);
      hide NextSymbol;
      if r.Decoded? && r.sym.MatchSym? && r.sym.dist == END_MARK {
        AppliedOk(d, r.sym, r.rc, r.probs);
        hide Applied, DecOk;
      }
    }
  }

  lemma AfterSymbolOk(d: Dec, x: seq<byte>)
    requires Ready(d) && NextSymbol(d, x).Decoded?
    ensures var r := NextSymbol(d, x);
            && (d.hist == [] ==> BadStart(d) || r.sym.LitSym? || r.sym.MatchSym?)
            && var f := AfterSymbol(d, r);
               f.Paused? ==> DecOk(f.dec) && f.dec.remain <= FINISHED && f.rest == r.rc.rest &&
                             (f.dec.remain == 0 ==> |f.dec.hist| == |d.hist| + 1) && |d.hist| <= |f.dec.hist|
  {
    if d.hist == [] {
      FirstSymbol(d, x);
    }
    var r := NextSymbol(d, x);
    hide NextSymbol;
    if AfterSymbol(d, r).Paused? {
      AppliedOk(d, r.sym, r.rc, r.probs);
      hide Applied, DecOk;
    }
  }

  // ---------- The first symbol ----------

  /** What every walk from n ends in. */
  predicate EndsAs(n: Node, s: Symbol) {
    match n
    case Lit(_, _) => s.LitSym?
    case MatchedLit(_, _, _, _) => s.LitSym?
    case LenChoice(o) => OwnedBy(o, s)
    case LenChoice2(o) => OwnedBy(o, s)
    case LenTree(o, _, _, _) => OwnedBy(o, s)
    case PosSlot(_, _, _) => s.MatchSym?
    case Spec(_, _, _, _, _) => s.MatchSym?
    case Direct(_, _, _) => s.MatchSym?
    case Align(_, _, _, _, _) => s.MatchSym?
    case Done(t) => s == t
    case Rep0Long => s.ShortRepSym? || s.RepSym?
    case RepG0 => s.ShortRepSym? || s.RepSym?
    case RepG1 => s.RepSym?
    case RepG2 => s.RepSym?
    case _ => true
  }

  predicate OwnedBy(o: LenOwner, s: Symbol) {
    match o
    case ForMatch => s.MatchSym?
    case ForRep(k) => s.RepSym? && s.which == k
  }

  lemma NextEndsAs(c: Ctx, n: Node, bit: bool, s: Symbol)
    requires CtxOk(c) && NodeOk(n) && !n.Done? && EndsAs(Next(c, n, bit), s)
    ensures EndsAs(n, s)
  {
    hide Pow2;
  }

  /** The class of a symbol is settled by the first bits of its walk. */
  lemma {:induction false} WalkEndsAs(c: Ctx, w: Walk, adapt: bool)
    requires WalkOk(c, w) && Decode(c, w, adapt).Decoded?
    ensures EndsAs(w.n, Decode(c, w, adapt).sym)
    decreases Fuel(w.n)
  {
    if !w.n.Done? {
      WalkEndsAs(c, Step(c, w, adapt), adapt);
      NextEndsAs(c, w.n, StepBit(c, w), Decode(c, w, adapt).sym);
    }
  }

  /** kBadRepCode is exact: a fresh stream starts with a repeated match iff its code is at least that. */
  lemma FirstSymbol(d: Dec, x: seq<byte>)
    requires Ready(d) && d.hist == []
    ensures var r := NextSymbol(d, x);
            r.Decoded? ==> (BadStart(d) <==> !(r.sym.LitSym? || r.sym.MatchSym?))
  {
    var c, w := CtxOf(d), StartWalk(d, x);
    assert Index(c, IsMatch) == IS_MATCH;
    assert Bound(RANGE_INIT, PROB_INIT) == 0x7FFF_FC00;
    if Decode(c, w, true).Decoded? {
      var v := Step(c, w, true);
      WalkEndsAs(c, v, true);
      if StepBit(c, w) {
        assert v.n == IsRep && v.rc == Rc(0x8000_03FF, d.code - 0x7FFF_FC00, x);
        assert Index(c, IsRep) == IS_REP && v.probs[IS_REP] == PROB_INIT;
        assert Bound(0x8000_03FF, PROB_INIT) == 0x4000_0000;
        WalkEndsAs(c, Step(c, v, true), true);
      }
    }
  }
}
