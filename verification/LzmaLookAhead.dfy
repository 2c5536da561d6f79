/** The parts of one symbol as LzmaDec_TryDummy looks ahead over them. */
module LzmaLookAhead {
  import opened Bytes
  import opened RangeCoder
  import opened LzmaSymbol
  import opened LzmaBits
  import opened LzmaReader

  /** The look-ahead stands at v, and what it will find is still goal. */
  ghost predicate Peeking(probs: array<int>, src: seq<byte>, r: Regs, c: Ctx, v: Walk, goal: SymbolResult)
    reads probs
  {
    WalkOk(c, v) && At(probs[..], src, r, v) && Decode(c, v, false) == goal
  }

  lemma PeekStep(c: Ctx, v: Walk)
    requires WalkOk(c, v) && !v.n.Done?
    ensures !CanStep(c, v) ==> Decode(c, v, false).OutOfInput?
    ensures CanStep(c, v) ==> Decode(c, Step(c, v, false), false) == Decode(c, v, false)
  {
  }

  /** GET_BIT2_CHECK at any modelled node. */
  method PeekBit(probs: array<int>, k: nat, src: seq<byte>, r: Regs, ghost c: Ctx, ghost v: Walk, ghost goal: SymbolResult)
    returns (ok: bool, r': Regs, bit: bool, ghost v': Walk)
    requires Peeking(probs, src, r, c, v, goal) && !v.n.Done? && !v.n.Direct? && k == Index(c, v.n)
    ensures !ok ==> goal.OutOfInput?
    ensures ok ==> Peeking(probs, src, r', c, v', goal) && v'.n == Next(c, v.n, bit)
  {
    PeekStep(c, v);
    hide NodeOk, Index, Next, Decode;
    ok, r', bit := CheckBit(probs, k, src, r, c, v);
    v' := if ok then Step(c, v, false) else v;
    hide Step, At, ProbsOk;
  }

  method PeekDirectBit(probs: array<int>, src: seq<byte>, r: Regs, ghost c: Ctx, ghost v: Walk, ghost goal: SymbolResult)
    returns (ok: bool, r': Regs, ghost v': Walk)
    requires Peeking(probs, src, r, c, v, goal) && v.n.Direct?
    ensures !ok ==> goal.OutOfInput?
    ensures ok ==> Peeking(probs, src, r', c, v', goal) && (v'.n == Next(c, v.n, true) || v'.n == Next(c, v.n, false))
  {
    PeekStep(c, v);
    hide NodeOk, Index, Next, Decode;
    ok, r' := CheckDirectBit(probs, src, r, c, v);
    v' := if ok then Step(c, v, false) else v;
  }

  lemma LitStep(c: Ctx, symbol: nat, left: nat, bit: bool)
    requires CtxOk(c) && NodeOk(Lit(symbol, left))
    ensures var s := 2 * symbol + BitValue(bit);
            && (left == 1 ==> 0x100 <= s < 0x200)
            && (left > 1 ==> s < 0x100)
            && Index(c, Lit(symbol, left)) == c.lit + symbol
            && Next(c, Lit(symbol, left), bit) == (if left == 1 then Done(LitSym(s - 0x100)) else Lit(s, left - 1))
  {
    TreeStep(8, left, symbol, bit);
    if left > 1 {
      TreeBounds(8, left - 1, 2 * symbol + BitValue(bit));
    }
    hide Pow2;
  }

  /** do { GET_BIT_CHECK(prob + symbol, symbol) } while (symbol < 0x100) */
  method PeekLiteral(probs: array<int>, prob: nat, src: seq<byte>, r: Regs, ghost c: Ctx, ghost v: Walk, ghost goal: SymbolResult)
    returns (ok: bool, r': Regs, ghost v': Walk)
    requires Peeking(probs, src, r, c, v, goal) && v.n == Lit(1, 8) && prob == c.lit
    ensures !ok ==> goal.OutOfInput?
    ensures ok ==> Peeking(probs, src, r', c, v', goal) && v'.n.Done? && v'.n.result.LitSym?
  {
    hide NodeOk, Index, Next, At, Decode, ProbsOk;
    var symbol: nat := 1;
    ok, r', v' := true, r, v;
    ghost var left: nat := 8;
    while symbol < 0x100
      invariant symbol >= 1 && left <= 8 && ok
      invariant Peeking(probs, src, r', c, v', goal)
      invariant if symbol < 0x100 then left >= 1 && v'.n == Lit(symbol, left) else v'.n.Done? && v'.n.result.LitSym?
      decreases left
    {
      LitStep(c, symbol, left, true);
      LitStep(c, symbol, left, false);
      var bit;
      ok, r', bit, v' := PeekBit(probs, prob + symbol, src, r', c, v', goal);
      if !ok {
        return;
      }
      symbol := symbol + symbol + (if bit then 1 else 0);
      left := left - 1;
    }
  }

  method PeekMatchedLiteral(probs: array<int>, prob: nat, matchByte: byte, src: seq<byte>, r: Regs,
                            ghost c: Ctx, ghost v: Walk, ghost goal: SymbolResult)
    returns (ok: bool, r': Regs, ghost v': Walk)
    requires Peeking(probs, src, r, c, v, goal) && v.n == MatchedLit(1, 8, 0x100, matchByte) && prob == c.lit
    ensures !ok ==> goal.OutOfInput?
    ensures ok ==> Peeking(probs, src, r', c, v', goal) && v'.n.Done? && v'.n.result.LitSym?
  {
    hide NodeOk, Index, Next, MaskedBit, At, Decode, ProbsOk;
    var mb: nat, offs: nat, symbol: nat := matchByte, 0x100, 1;
    ok, r', v' := true, r, v;
    ghost var left: nat := 8;
    while symbol < 0x100
      invariant symbol >= 1 && left <= 8 && ok && (offs == 0 || offs == 0x100)
      invariant Peeking(probs, src, r', c, v', goal)
      invariant if symbol < 0x100 then left >= 1 && v'.n == MatchedLit(symbol, left, offs, mb)
                else v'.n.Done? && v'.n.result.LitSym?
      decreases left
    {
      MatchedLitStep(c, symbol, left, offs, mb, true);
      MatchedLitStep(c, symbol, left, offs, mb, false);
      mb := mb + mb;
      var bitMask := offs;
      offs := if mb / 0x100 % 2 == 1 then offs else 0;
      var probLit := prob + (offs + bitMask + symbol);
      var bit;
      ok, r', bit, v' := PeekBit(probs, probLit, src, r', c, v', goal);
      if !ok {
        return;
      }
      if bit {
        symbol := symbol + symbol + 1;
      } else {
        symbol := symbol + symbol;
        offs := if offs == bitMask then 0 else bitMask;
      }
      left := left - 1;
    }
  }

  /** TREE_DECODE_CHECK over the segment of a length coder chosen before it. */
  method PeekLenTree(probs: array<int>, probLen: nat, limit: nat, src: seq<byte>, r: Regs,
                     ghost o: LenOwner, ghost seg: nat, ghost c: Ctx, ghost v: Walk, ghost goal: SymbolResult)
    returns (ok: bool, r': Regs, len: nat, ghost v': Walk)
    requires Peeking(probs, src, r, c, v, goal) && seg < 3 && v.n == LenTree(o, seg, 1, SegBits(seg))
    requires OwnerOk(o) && probLen == LenBase(o) + SegBase(c, seg) && limit == if seg < 2 then 8 else 0x100
    ensures !ok ==> goal.OutOfInput?
    ensures ok ==> Peeking(probs, src, r', c, v', goal) && len + 8 * seg < 272 && v'.n == AfterLen(o, len + 8 * seg)
  {
    hide NodeOk, Index, Next, At, Decode, ProbsOk, AfterLen;
    var i: nat := 1;
    ok, r', len, v' := true, r, 0, v;
    ghost var left := SegBits(seg);
    while i < limit
      invariant i >= 1 && left <= SegBits(seg) && ok
      invariant Peeking(probs, src, r', c, v', goal)
      invariant if i < limit then left >= 1 && v'.n == LenTree(o, seg, i, left)
                else i - limit + 8 * seg < 272 && v'.n == AfterLen(o, i - limit + 8 * seg)
      decreases left
    {
      LenTreeStep(c, o, seg, i, left, true);
      LenTreeStep(c, o, seg, i, left, false);
      LenTreeBelow(o, seg, i, left);
      var bit;
      ok, r', bit, v' := PeekBit(probs, probLen + i, src, r', c, v', goal);
      if !ok {
        return;
      }
      i := i + i + (if bit then 1 else 0);
      left := left - 1;
    }
    len := i - limit;
  }

  /** The loop guard i < limit counts the levels of the tree. */
  lemma LenTreeBelow(o: LenOwner, seg: nat, i: nat, left: nat)
    requires seg < 3 && NodeOk(LenTree(o, seg, i, left))
    ensures left > 1 ==> 2 * i + 1 < if seg < 2 then 8 else 0x100
    ensures left == 1 ==> 2 * i >= if seg < 2 then 8 else 0x100
  {
    TreeStep(SegBits(seg), left, i, true);
    TreeStep(SegBits(seg), left, i, false);
    if left > 1 {
      TreeBounds(SegBits(seg), left - 1, 2 * i + 1);
    }
    hide Pow2;
  }

  method PeekLen(probs: array<int>, prob: nat, posState: nat, src: seq<byte>, r: Regs,
                 ghost o: LenOwner, ghost c: Ctx, ghost v: Walk, ghost goal: SymbolResult)
    returns (ok: bool, r': Regs, len: nat, ghost v': Walk)
    requires Peeking(probs, src, r, c, v, goal) && v.n == LenChoice(o)
    requires OwnerOk(o) && prob == LenBase(o) && posState == c.posState
    ensures !ok ==> goal.OutOfInput?
    ensures ok ==> Peeking(probs, src, r', c, v', goal) && len < 272 && v'.n == AfterLen(o, len)
  {
    LenChoiceSteps(c, o);
    assert SegBase(c, 0) == posState && SegBase(c, 1) == posState + 8 && SegBase(c, 2) == LEN_HIGH;
    assert SegBits(0) == SegBits(1) == 3 && SegBits(2) == 8;
    hide *;
    len := 0;
    var bit;
    ok, r', bit, v' := PeekBit(probs, prob, src, r, c, v, goal);
    if !ok {
      return;
    }
    var probLen, offset, limit;
    ghost var seg: nat;
    if !bit {
      probLen, offset, limit, seg := prob + posState, 0, 8, 0;
    } else {
      assert v'.n == LenChoice2(o);
      ok, r', bit, v' := PeekBit(probs, prob + LEN_CHOICE2, src, r', c, v', goal);
      if !ok {
        return;
      }
      if !bit {
        probLen, offset, limit, seg := prob + posState + 8, 8, 8, 1;
      } else {
        probLen, offset, limit, seg := prob + LEN_HIGH, 16, 0x100, 2;
      }
    }
    ok, r', len, v' := PeekLenTree(probs, probLen, limit, src, r', o, seg, c, v', goal);
    len := len + offset;
  }

  /** TREE_DECODE_CHECK(prob, 1 << kNumPosSlotBits, posSlot) */
  method PeekPosSlot(probs: array<int>, prob: nat, len: nat, src: seq<byte>, r: Regs,
                     ghost c: Ctx, ghost v: Walk, ghost goal: SymbolResult)
    returns (ok: bool, r': Regs, slot: nat, ghost v': Walk)
    requires Peeking(probs, src, r, c, v, goal) && v.n == PosSlot(len, 1, 6)
    requires len < 272 && prob == POS_SLOT + MinLen3(len) * 64
    ensures !ok ==> goal.OutOfInput?
    ensures ok ==> Peeking(probs, src, r', c, v', goal) && slot < 64 && v'.n == AfterSlot(len, slot)
  {
    hide NodeOk, Index, Next, At, Decode, ProbsOk, AfterSlot;
    var i: nat := 1;
    ok, r', slot, v' := true, r, 0, v;
    ghost var left: nat := 6;
    while i < 64
      invariant i >= 1 && left <= 6 && ok
      invariant Peeking(probs, src, r', c, v', goal)
      invariant if i < 64 then left >= 1 && v'.n == PosSlot(len, i, left)
                else i < 128 && v'.n == AfterSlot(len, i - 64)
      decreases left
    {
      PosSlotStep(c, len, i, left, true);
      PosSlotStep(c, len, i, left, false);
      PosSlotBelow(len, i, left);
      var bit;
      ok, r', bit, v' := PeekBit(probs, prob + i, src, r', c, v', goal);
      if !ok {
        return;
      }
      i := i + i + (if bit then 1 else 0);
      left := left - 1;
    }
    slot := i - 64;
  }

  lemma PosSlotBelow(len: nat, i: nat, left: nat)
    requires NodeOk(PosSlot(len, i, left))
    ensures left > 1 ==> 2 * i + 1 < 64
    ensures left == 1 ==> 2 * i >= 64
  {
    TreeStep(6, left, i, true);
    TreeStep(6, left, i, false);
    if left > 1 {
      TreeBounds(6, left - 1, 2 * i + 1);
    }
    hide Pow2;
  }

  /** The reverse bits at the end of a distance: REV_BIT_CHECK, for both kinds of distance. */
  method PeekReverse(probs: array<int>, prob: nat, bits: nat, src: seq<byte>, r: Regs,
                     ghost c: Ctx, ghost v: Walk, ghost goal: SymbolResult)
    returns (ok: bool, r': Regs, ghost v': Walk)
    requires Peeking(probs, src, r, c, v, goal) && bits >= 1
    requires (v.n.Spec? && prob == SPEC_POS + v.n.base) || (v.n.Align? && prob == ALIGN)
    requires v.n.i == v.n.m == 1 && v.n.left == bits
    ensures !ok ==> goal.OutOfInput?
    ensures ok ==> Peeking(probs, src, r', c, v', goal) && v'.n.Done? && v'.n.result.MatchSym?
  {
    hide NodeOk, Index, Next, At, Decode, ProbsOk;
    var i: nat, m: nat, left := 1, 1, bits;
    ok, r', v' := true, r, v;
    while left != 0
      invariant ok && left <= bits && m >= 1
      invariant Peeking(probs, src, r', c, v', goal)
      invariant if left == 0 then v'.n.Done? && v'.n.result.MatchSym?
                else (v'.n.Spec? && prob == SPEC_POS + v'.n.base) || (v'.n.Align? && prob == ALIGN)
      invariant left != 0 ==> v'.n.i == i && v'.n.m == m && v'.n.left == left
    {
      if v'.n.Spec? {
        SpecStep(c, v'.n, true);
        SpecStep(c, v'.n, false);
      } else {
        AlignStep(c, v'.n, true);
        AlignStep(c, v'.n, false);
      }
      var bit;
      ok, r', bit, v' := PeekBit(probs, prob + i, src, r', c, v', goal);
      if !ok {
        return;
      }
      if bit {
        m := m + m;
        i := i + m;
      } else {
        i := i + m;
        m := m + m;
      }
      left := left - 1;
    }
  }

  method PeekDirect(probs: array<int>, bits: nat, src: seq<byte>, r: Regs,
                    ghost c: Ctx, ghost v: Walk, ghost goal: SymbolResult)
    returns (ok: bool, r': Regs, ghost v': Walk)
    requires Peeking(probs, src, r, c, v, goal) && bits >= 1 && v.n.Direct? && v.n.left == bits
    ensures !ok ==> goal.OutOfInput?
    ensures ok ==> Peeking(probs, src, r', c, v', goal) && v'.n.Align? && v'.n.i == v'.n.m == 1 && v'.n.left == 4
  {
    hide NodeOk, Index, Next, At, Decode, ProbsOk;
    var left := bits;
    ok, r', v' := true, r, v;
    while left != 0
      invariant ok && left <= bits
      invariant Peeking(probs, src, r', c, v', goal)
      invariant if left == 0 then v'.n.Align? && v'.n.i == v'.n.m == 1 && v'.n.left == 4
                else v'.n.Direct? && v'.n.left == left
    {
      DirectStep(c, v'.n, true);
      DirectStep(c, v'.n, false);
      ok, r', v' := PeekDirectBit(probs, src, r', c, v', goal);
      if !ok {
        return;
      }
      left := left - 1;
    }
  }

  /** From the length of a match to its last bit. */
  method PeekDistance(probs: array<int>, len: nat, src: seq<byte>, r: Regs,
                      ghost c: Ctx, ghost v: Walk, ghost goal: SymbolResult)
    returns (ok: bool, r': Regs, ghost v': Walk)
    requires Peeking(probs, src, r, c, v, goal) && len < 272 && v.n == AfterLen(ForMatch, len)
    ensures !ok ==> goal.OutOfInput?
    ensures ok ==> Peeking(probs, src, r', c, v', goal) && v'.n.Done? && v'.n.result.MatchSym?
  {
    assert v.n == PosSlot(len, 1, 6);
    hide NodeOk, Index, Next, At, Decode, ProbsOk, AfterSlot, AfterLen;
    var prob := POS_SLOT + (if len < 3 then len else 3) * 64;
    var posSlot;
    ok, r', posSlot, v' := PeekPosSlot(probs, prob, len, src, r, c, v, goal);
    if !ok {
      return;
    }
    AfterSlotCases(len, posSlot);
    if posSlot >= 4 {
      var numDirectBits := posSlot / 2 - 1;
      if posSlot < 14 {
        prob := SPEC_POS + (2 + posSlot % 2) * Pow2(numDirectBits);
      } else {
        numDirectBits := numDirectBits - 4;
        ok, r', v' := PeekDirect(probs, numDirectBits, src, r', c, v', goal);
        if !ok {
          return;
        }
        prob := ALIGN;
        numDirectBits := 4;
      }
      ok, r', v' := PeekReverse(probs, prob, numDirectBits, src, r', c, v', goal);
    }
  }
}
