/** The one case in which the division into calls can be observed, reached from the decoder's first byte. */
module Lzma2Witness {
  import opened Arithmetic
  import opened Bytes
  import opened RangeCoder
  import opened LzmaSymbol
  import opened LzmaSymbolFacts
  import opened LzmaModel
  import opened LzmaRun
  import opened Lzma2Model
  import opened Lzma2Run
  import opened Lzma2Enc

  /** A chunk of one byte whose packed size is 7, and 6 of its packed bytes. */
  const HEADER: seq<byte> := [0xE0, 0, 0, 0, 6, 0]
  const PACKED: seq<byte> := [0, 0, 0, 0, 1, 0]

  /** The probability of a zero bit after one zero bit at probability one half. */
  const PROB_ONCE := 1056

  /** Nothing from lo on has been adapted, and before it everything at most once. */
  ghost predicate FreshFrom(probs: seq<int>, lo: nat) {
    && (forall i :: 0 <= i < |probs| ==> probs[i] <= PROB_ONCE)
    && forall i :: lo <= i < |probs| ==> probs[i] == PROB_INIT
  }

  ghost predicate Low(probs: seq<int>) {
    forall i :: 0 <= i < |probs| ==> probs[i] <= PROB_ONCE
  }

  lemma DecodeStep(c: Ctx, w: Walk, adapt: bool)
    requires CanStep(c, w)
    ensures Decode(c, w, adapt) == Decode(c, Step(c, w, adapt), adapt)
  {
    hide Step, NodeOk, ProbsOk;
  }

  /** A code below every bound decodes a zero. */
  lemma ZeroBit(c: Ctx, w: Walk)
    requires CanStep(c, w) && !w.n.Direct? && Normalize(w.rc).code < 0x10000
    ensures var a, k := Normalize(w.rc), Index(c, w.n);
            Step(c, w, true) ==
            Walk(Next(c, w.n, false), a.(range := Bound(a.range, w.probs[k])), w.probs[k := Adapted(w.probs[k], false)])
  {
    hide Next, Index, NodeOk, Normalize, Adapted;
  }

  // ---------- The symbol that is decoded ----------

  lemma LitStep(c: Ctx, w: Walk)
    requires CanStep(c, w) && w.n.Lit? && FreshFrom(w.probs, c.lit + w.n.sym) && Normalize(w.rc).code < 0x10000
    ensures var a, s := Normalize(w.rc), Step(c, w, true);
            && s.n == LitNext(w.n.sym, w.n.left, false) && s.rc == a.(range := a.range / MODEL_TOTAL * PROB_INIT)
            && FreshFrom(s.probs, c.lit + 2 * w.n.sym)
  {
    ZeroBit(c, w);
    TreeBounds(8, w.n.left, w.n.sym);
    assert Index(c, w.n) == c.lit + w.n.sym;
    hide Step, Normalize, LitNext, InTree, Pow2;
  }

  lemma HalvedRange(left: nat)
    requires 1 <= left <= 8
    ensures (Pow2(left + 13) - 1) * PROB_INIT / MODEL_TOTAL * PROB_INIT == (Pow2(left + 12) - 1) * PROB_INIT
    ensures left > 1 ==> (Pow2(left + 13) - 1) * PROB_INIT >= TOP
    ensures left == 1 ==> (Pow2(left + 13) - 1) * PROB_INIT == 0xFF_FC00
  {
    assert Pow2(left + 13) == 2 * Pow2(left + 12);
    Pow2Grows(13, left + 12);
    assert Pow2(5) == 32;
    assert Pow2(10) == 0x400;
    assert Pow2(13) == 0x2000 && Pow2(14) == 0x4000;
    assert left > 1 ==> Pow2(left + 12) >= 0x4000 by {
      if left > 1 {
        Pow2Grows(14, left + 12);
      }
    }
  }

  lemma LastZero(c: Ctx, w: Walk)
    requires WalkOk(c, w) && w.n == Lit(0x80, 1) && FreshFrom(w.probs, c.lit + 0x80)
    requires w.rc == Rc(0xFF_FC00, 1, [0])
    ensures var r := Decode(c, w, true);
            r.Decoded? && r.sym == LitSym(0) && r.rc == Rc(0x7FFE_0000, 0x100, []) && Low(r.probs)
  {
    assert [0][1..] == [];
    assert Normalize(w.rc) == Rc(0xFFFC_0000, 0x100, []);
    LitStep(c, w);
    TreeBounds(8, 1, 0x80);
    var s := Step(c, w, true);
    assert s.n == Done(LitSym(0)) && s.rc == Rc(0x7FFE_0000, 0x100, []);
    hide Step, Next, NodeOk;
    assert Decode(c, w, true) == Decode(c, s, true);
  }

  lemma LitShape(n: Node)
    requires NodeOk(n) && n.Lit? && n.sym == Pow2(8 - n.left)
    ensures 1 <= n.left <= 8 && (n.left == 1 ==> n == Lit(0x80, 1))
  {
    TreeBounds(8, 8, 1);
    assert Pow2(8) == 2 * Pow2(7);
  }

  /** A zero bit that needs no byte. */
  lemma ZeroLitStep(c: Ctx, w: Walk) returns (s: Walk)
    requires WalkOk(c, w) && w.n.Lit? && w.n.left > 1 && w.n.sym == Pow2(8 - w.n.left) && FreshFrom(w.probs, c.lit + w.n.sym)
    requires w.rc == Rc((Pow2(w.n.left + 13) - 1) * PROB_INIT, 1, [0])
    ensures WalkOk(c, s) && s.n == Lit(Pow2(8 - (w.n.left - 1)), w.n.left - 1) && FreshFrom(s.probs, c.lit + s.n.sym)
    ensures s.rc == Rc((Pow2(w.n.left + 12) - 1) * PROB_INIT, 1, [0])
    ensures Decode(c, w, true) == Decode(c, s, true)
  {
    hide FreshFrom, Step, Decode, NodeOk, ProbsOk;
    LitShape(w.n);
    HalvedRange(w.n.left);
    LitStep(c, w);
    s := Step(c, w, true);
    DecodeStep(c, w, true);
  }

  /** Zero bits at probability one half; only the last of them shifts a byte in. */
  lemma {:induction false} ZeroLiteral(c: Ctx, w: Walk)
    requires WalkOk(c, w) && w.n.Lit? && w.n.sym == Pow2(8 - w.n.left) && FreshFrom(w.probs, c.lit + w.n.sym)
    requires w.rc == Rc((Pow2(w.n.left + 13) - 1) * PROB_INIT, 1, [0])
    ensures var r := Decode(c, w, true);
            r.Decoded? && r.sym == LitSym(0) && r.rc == Rc(0x7FFE_0000, 0x100, []) && Low(r.probs)
    decreases w.n.left
  {
    hide FreshFrom, Step, Decode, NodeOk, ProbsOk, Pow2;
    LitShape(w.n);
    HalvedRange(w.n.left);
    if w.n.left > 1 {
      var s := ZeroLitStep(c, w);
      ZeroLiteral(c, s);
    } else {
      LastZero(c, w);
    }
  }

  /** From fresh probabilities the first symbol is the literal 0, and leaves a code that is not 0. */
  lemma FirstZero(c: Ctx, w: Walk)
    requires WalkOk(c, w) && w.n.IsMatch? && c == Ctx(0, 0, LITERAL, 0) && w.rc == Rc(RANGE_INIT, 1, [0])
    requires forall i :: 0 <= i < |w.probs| ==> w.probs[i] == PROB_INIT
    ensures var r := Decode(c, w, true);
            r.Decoded? && r.sym == LitSym(0) && r.rc == Rc(0x7FFE_0000, 0x100, []) && Low(r.probs)
  {
    assert Pow2(21) == 0x20_0000 && Pow2(0) == 1 by { Pow2Values(); assert Pow2(21) == 2 * Pow2(20); }
    assert Index(c, w.n) == IS_MATCH;
    assert Bound(RANGE_INIT, PROB_INIT) == 0x1F_FFFF * PROB_INIT;
    ZeroBit(c, w);
    var s := Step(c, w, true);
    assert s.n == Lit(1, 8) && FreshFrom(s.probs, c.lit + 1);
    hide Step, Next, NodeOk, Pow2, FreshFrom;
    ZeroLiteral(c, s);
    assert Decode(c, w, true) == Decode(c, s, true);
  }

  // ---------- The symbol after it ----------

  /** How large a range may be for left more zero bits to need a byte. */
  function Cap(left: nat): (m: nat)
    ensures m >= TOP - 1
  {
    if left == 0 then TOP - 1 else Cap(left - 1) * 7 / 4
  }

  lemma CapEight()
    ensures Cap(8) >= 0x41FE_F800
  {
    assert Cap(4) >= 157_000_000;
    assert Cap(8) >= 0x41FE_F800;
  }

  /** One zero bit at a probability of hardly more than one half. */
  lemma BoundShrinks(range: nat, p: int)
    requires TOP <= range < WORD && ProbOk(p) && p <= PROB_ONCE
    ensures 64 * Bound(range, p) <= 33 * range
  {
    ScaleBetween(range / MODEL_TOTAL, 0, p, PROB_ONCE);
  }

  /** A zero bit of the look-ahead. */
  lemma LowStep(c: Ctx, w: Walk)
    requires CanStep(c, w) && !w.n.Direct? && Low(w.probs) && w.rc.code == 0x100 && w.rc.rest == []
    ensures var s := Step(c, w, false);
            && s.n == Next(c, w.n, false) && s.probs == w.probs
            && s.rc.code == 0x100 && s.rc.rest == [] && 64 * s.rc.range <= 33 * w.rc.range
  {
    ZeroBit(c, w);
    BoundShrinks(w.rc.range, w.probs[Index(c, w.n)]);
    hide Next, Index, NodeOk, Bound, Adapted;
  }

  /** The literal runs out of input before it is decoded. */
  lemma {:induction false} LiteralStarves(c: Ctx, w: Walk)
    requires WalkOk(c, w) && w.n.Lit? && Low(w.probs) && w.rc.range <= Cap(w.n.left) && w.rc.code == 0x100 && w.rc.rest == []
    ensures Decode(c, w, false).OutOfInput?
    decreases w.n.left
  {
    if !NeedsByte(w.rc) {
      LowStep(c, w);
      var s := Step(c, w, false);
      assert s.n == LitNext(w.n.sym, w.n.left, false) && s.rc.range <= Cap(w.n.left - 1);
      assert if w.n.left > 1 then s.n.Lit? && s.n.left == w.n.left - 1 else s.n.Done? && NeedsByte(s.rc);
      hide Step, Cap, Low, LitNext, Next, InTree;
      assert Decode(c, w, false) == Decode(c, s, false);
      if w.n.left > 1 {
        LiteralStarves(c, s);
      }
    }
  }

  lemma LiteralNext(c: Ctx)
    requires c.state < 7
    ensures Next(c, IsMatch, false) == Lit(1, 8)
  {
  }

  /** With a code of 0x100, a range below 2^31 and nothing to read, the look-ahead finds no symbol. */
  lemma NextStarves(c: Ctx, w: Walk)
    requires WalkOk(c, w) && w.n.IsMatch? && c.state < 7 && Low(w.probs)
    requires w.rc == Rc(0x7FFE_0000, 0x100, [])
    ensures Decode(c, w, false).OutOfInput?
  {
    hide Step, Cap, Low, NodeOk, ProbsOk, Decode, Next;
    LowStep(c, w);
    CapEight();
    var s := Step(c, w, false);
    assert Next(c, IsMatch, false) == Lit(1, 8) by { LiteralNext(c); }
    LiteralStarves(c, s);
    DecodeStep(c, w, false);
  }

  /** And so neither does the decoder. */
  lemma NextSymbolStarves(d: Dec)
    requires Ready(d) && d.state == 0 && Low(d.probs) && d.range == 0x7FFE_0000 && d.code == 0x100
    ensures NextSymbol(d, []).OutOfInput?
  {
    var c, w := CtxOf(d), StartWalk(d, []);
    assert w == Walk(IsMatch, Rc(0x7FFE_0000, 0x100, []), d.probs) && w.(probs := d.probs) == w && c.state == 0 by {
      hide Low, NumProbs, DecOk, LitTable, MatchByte;
    }
    hide CtxOf, Decode, Low, ProbsOk, DecOk, StartWalk;
    NextStarves(c, w);
    LookAheadAgrees(c, w, d.probs);
  }

  // ---------- The two calls ----------

  /** The decoder after the header. */
  function InChunk1(dicSize: nat): Lz2 {
    Lz2(Data, 0xE0, 0, 7, 1, Blank(Props(0, 0, 0, dicSize), []), [])
  }

  lemma ControlFed(dicSize: nat) returns (z1: Lz2)
    ensures z1 == Initial(dicSize).(phase := Unpack0, control := 0xE0, level := 0)
    ensures HeaderBytes(Initial(dicSize), [0xE0]) && Fed(Initial(dicSize), [0xE0]) == z1
  {
    FedOne(Initial(dicSize), 0xE0);
    hide Fed, HeaderBytes, Blank;
    z1 := UpdateState(Initial(dicSize), 0xE0);
  }

  lemma PropsFed(z: Lz2, dicSize: nat)
    requires z == Initial(dicSize).(phase := PropByte, control := 0xE0, level := 0, unpack := 1, pack := 7)
    ensures HeaderBytes(z, [0]) && Fed(z, [0]) == InChunk1(dicSize)
  {
    FedOne(z, 0);
    BlankFields(Props(LCLP_MAX, 0, 0, dicSize), []);
    hide Fed, HeaderBytes, Blank;
  }

  lemma HeaderFed(dicSize: nat)
    ensures HeaderBytes(Initial(dicSize), HEADER) && Fed(Initial(dicSize), HEADER) == InChunk1(dicSize)
  {
    assert SizeBytes(1) == [0, 0] && SizeBytes(7) == [0, 6];
    assert [0xE0] + [0, 0] + [0, 6] + [0] == HEADER;
    assert Initial(dicSize).unpack == 0;
    hide Fed, HeaderBytes, UpdateState, Blank, SizeBytes, Initial, InChunk1;
    var z := Initial(dicSize);
    var z1 := ControlFed(dicSize);
    var z2 := z1.(phase := Pack0, unpack := 1);
    var z3 := z2.(phase := PropByte, pack := 7);
    UnpackFed(z1, 1);
    PackFed(z2, 7);
    PropsFed(z3, dicSize);
    FedTwice(z, [0xE0], [0, 0]);
    FedTwice(z, [0xE0] + [0, 0], [0, 6]);
    FedTwice(z, [0xE0] + [0, 0] + [0, 6], [0]);
  }

  /** The header is accepted byte by byte. */
  lemma HeaderTaken(dicSize: nat, y: seq<byte>)
    requires 0x1000 <= dicSize < WORD
    ensures Lz2Ok(Initial(dicSize)) && Lz2Ok(InChunk1(dicSize))
    ensures RunChunks(Initial(dicSize), HEADER + y, 1, false) == RunChunks(InChunk1(dicSize), y, 1, false)
  {
    hide Fed, HeaderBytes, UpdateState, Lz2Ok, RunChunks, Blank, Initial;
    InitialOk(dicSize);
    HeaderFed(dicSize);
    HeaderRead(Initial(dicSize), HEADER, y, 1, false);
  }

  /** The decoder of the chunk at its first symbol. */
  function AtFirst(dicSize: nat): Dec {
    Started(Blank(Props(0, 0, 0, dicSize), []), PACKED)
  }

  lemma AtFirstIs(dicSize: nat)
    requires 0x1000 <= dicSize < WORD
    ensures var d := AtFirst(dicSize);
            && Ready(d) && d.hist == [] && d.state == 0 && d.range == RANGE_INIT && d.code == 1
            && d.props == Props(0, 0, 0, dicSize)
            && (forall i :: 0 <= i < |d.probs| ==> d.probs[i] == PROB_INIT) && CtxOf(d) == Ctx(0, 0, LITERAL, 0)
  {
    var b := Blank(Props(0, 0, 0, dicSize), []);
    BlankOk(b.props, []);
    StartedOk(b, PACKED);
    hide DecOk, NumProbs;
    assert Pow2(0) == 1;
  }

  /** The first symbol as a step of the chunk's run. */
  lemma FirstSymbolRuns(d: Dec) returns (e: Dec)
    requires Ready(d) && d.hist == [] && d.state == 0 && d.range == RANGE_INIT && d.code == 1
    requires (forall i :: 0 <= i < |d.probs| ==> d.probs[i] == PROB_INIT) && CtxOf(d) == Ctx(0, 0, LITERAL, 0)
    ensures DecOk(e) && e.remain == 0 && e.state == 0 && e.hist == [0] && Low(e.probs) && e.range == 0x7FFE_0000 && e.code == 0x100
    ensures Run(d, [0], 1, true) == Run(e, [], 1, true)
  {
    var w := StartWalk(d, [0]);
    FirstZero(CtxOf(d), w);
    hide Run, DecOk, Low, CtxOf;
    RunSymbol(d, [0], 1, true);
    hide Decode, StartWalk;
    e := AfterSymbol(d, NextSymbol(d, [0])).dec;
  }

  /** One byte is decoded, and there the packed bytes end. */
  lemma PackedRuns(dicSize: nat) returns (e: Dec)
    requires 0x1000 <= dicSize < WORD
    ensures var d := Blank(Props(0, 0, 0, dicSize), []);
            DecOk(d) && DecOk(e) && Run(d, PACKED, 1, true) == Paused(e, []) && e.hist == [0] && e.remain == 0 && e.code == 0x100
  {
    hide DecOk, Blank, NumProbs, Run, CtxOf, NextSymbol, Low;
    var b := Blank(Props(0, 0, 0, dicSize), []);
    BlankOk(Props(0, 0, 0, dicSize), []);
    BlankFields(Props(0, 0, 0, dicSize), []);
    AtFirstIs(dicSize);
    assert PACKED[RC_INIT_SIZE..] == [0];
    RunStarts(b, PACKED, 1, true);
    hide Started, AtFirst;
    e := FirstSymbolRuns(AtFirst(dicSize));
    NextSymbolStarves(e);
    RunStops(e, [], 1, true);
  }

  /** The first call puts out its one byte and stops overfull. */
  lemma OverfullHappens(dicSize: nat)
    requires 0x1000 <= dicSize < WORD
    ensures Lz2Ok(Initial(dicSize)) && Initial(dicSize).out == []
    ensures Overfull(RunChunks(Initial(dicSize), HEADER + PACKED, 1, false), 1, false)
  {
    hide Run, Lz2Ok, DecOk, RunChunks, Blank, Initial, MidChunk, MidUnread;
    InitialOk(dicSize);
    HeaderTaken(dicSize, PACKED);
    var z := InChunk1(dicSize);
    BlankFields(Props(0, 0, 0, dicSize), []);
    var e := PackedRuns(dicSize);
    assert ChunkStart(z) == Blank(Props(0, 0, 0, dicSize), []);
    ChunkRunValue(z, PACKED, 1);
    assert Packed(z, PACKED) == PACKED && ChunkLimit(z, 1) == 1 && Fits(z, 1);
    RunLzma(z, PACKED, 1, false);
    MidFields(z, PACKED, [], 1, 1);
  }

  /**
   A decoder fed in two calls with room for one byte answers otherwise than one fed in a single
   call, whatever bytes y the second call brings.
   */
  lemma SplitShows(dicSize: nat, y: seq<byte>)
    requires 0x1000 <= dicSize < WORD
    ensures Lz2Ok(Initial(dicSize)) && Initial(dicSize).out == []
    ensures var first := RunChunks(Initial(dicSize), HEADER + PACKED, 1, false);
            && first.Paused2? && first.status == NeedsMoreInput && |first.state.out| == 1
            && RunChunks(Initial(dicSize), HEADER + PACKED + y, 1, false) != RunChunks(first.state, first.rest + y, 1, false)
  {
    hide Lz2Ok, RunChunks, Initial;
    OverfullHappens(dicSize);
    ChunksSplit(Initial(dicSize), HEADER + PACKED, y, 1, false, 1, false);
  }
}
