/** The parts of one symbol as LzmaDec_DecodeReal_3 reads them. */
module LzmaReader {
  import opened Bytes
  import opened RangeCoder
  import opened LzmaSymbol
  import opened LzmaBits

  /** The decoder stands at v, and the symbol it is in the middle of is still goal. */
  ghost predicate Heading(probs: array<int>, src: seq<byte>, r: Regs, c: Ctx, v: Walk, goal: SymbolResult)
    reads probs
  {
    WalkOk(c, v) && At(probs[..], src, r, v) && goal.Decoded? && Decode(c, v, true) == goal
  }

  /** GET_BIT2 at any modelled node. */
  method ReadBit(probs: array<int>, k: nat, src: seq<byte>, r: Regs, ghost c: Ctx, ghost v: Walk, ghost goal: SymbolResult)
    returns (r': Regs, bit: bool, ghost v': Walk)
    requires Heading(probs, src, r, c, v, goal) && !v.n.Done? && !v.n.Direct? && k == Index(c, v.n)
    modifies probs
    ensures Heading(probs, src, r', c, v', goal) && |v'.probs| == |v.probs| && r.buf <= r'.buf && v'.n == Next(c, v.n, bit)
  {
    Advance(c, v, true);
    hide NodeOk, Index, Next, Decode;
    r', bit := GetBit(probs, k, src, r, c, v);
    v' := Step(c, v, true);
    hide Step, At, ProbsOk;
  }

  method ReadDirectBit(probs: array<int>, src: seq<byte>, r: Regs, ghost c: Ctx, ghost v: Walk, ghost goal: SymbolResult)
    returns (r': Regs, bit: bool, ghost v': Walk)
    requires Heading(probs, src, r, c, v, goal) && v.n.Direct?
    ensures Heading(probs, src, r', c, v', goal) && |v'.probs| == |v.probs| && r.buf <= r'.buf && v'.n == Next(c, v.n, bit)
  {
    Advance(c, v, true);
    hide NodeOk, Index, Next, Decode;
    r', bit := GetDirectBit(probs, src, r, c, v);
    v' := Step(c, v, true);
  }

  /** NORMAL_LITER_DEC eight times; prob is the literal table. */
  method ReadLiteral(probs: array<int>, prob: nat, src: seq<byte>, r: Regs, ghost c: Ctx, ghost v: Walk, ghost goal: SymbolResult)
    returns (r': Regs, symbol: nat, ghost v': Walk)
    requires Heading(probs, src, r, c, v, goal) && v.n == Lit(1, 8) && prob == c.lit
    modifies probs
    ensures Heading(probs, src, r', c, v', goal) && |v'.probs| == |v.probs| && r.buf <= r'.buf
    ensures 0x100 <= symbol < 0x200 && v'.n == Done(LitSym(symbol - 0x100))
  {
    symbol := 1;
    r', v' := r, v;
    var i := 0;
    while i < 8
      invariant i <= 8
      invariant Heading(probs, src, r', c, v', goal) && |v'.probs| == |v.probs| && r.buf <= r'.buf
      invariant if i < 8 then v'.n == Lit(symbol, 8 - i)
                else 0x100 <= symbol < 0x200 && v'.n == Done(LitSym(symbol - 0x100))
    {
      var bit;
      assert Index(c, v'.n) == prob + symbol;
      TreeStep(8, 8 - i, symbol, true);
      TreeStep(8, 8 - i, symbol, false);
      r', bit, v' := ReadBit(probs, prob + symbol, src, r', c, v', goal);
      hide Heading, InTree, Pow2;
      symbol := symbol + symbol + (if bit then 1 else 0);
      i := i + 1;
    }
  }

  lemma MatchedLitStep(c: Ctx, symbol: nat, left: nat, offs: nat, mb: nat, bit: bool)
    requires CtxOk(c) && NodeOk(MatchedLit(symbol, left, offs, mb))
    ensures var masked := if (mb + mb) / 0x100 % 2 == 1 then offs else 0;
            var s := 2 * symbol + BitValue(bit);
            && (left == 1 ==> 0x100 <= s < 0x200)
            && (left > 1 ==> s < 0x100)
            && Index(c, MatchedLit(symbol, left, offs, mb)) == c.lit + masked + offs + symbol
            && Next(c, MatchedLit(symbol, left, offs, mb), bit) ==
                 (if left == 1 then Done(LitSym(s - 0x100))
                  else MatchedLit(s, left - 1, if bit then masked else if masked == offs then 0 else offs, mb + mb))
  {
    TreeStep(8, left, symbol, bit);
    if left > 1 {
      TreeBounds(8, left - 1, 2 * symbol + BitValue(bit));
    }
    hide Pow2;
  }

  /** MATCHED_LITER_DEC eight times; offs, bit and matchByte are single-bit masks in 0x100. */
  method ReadMatchedLiteral(probs: array<int>, prob: nat, matchByte: byte, src: seq<byte>, r: Regs,
                            ghost c: Ctx, ghost v: Walk, ghost goal: SymbolResult)
    returns (r': Regs, symbol: nat, ghost v': Walk)
    requires Heading(probs, src, r, c, v, goal) && v.n == MatchedLit(1, 8, 0x100, matchByte) && prob == c.lit
    modifies probs
    ensures Heading(probs, src, r', c, v', goal) && |v'.probs| == |v.probs| && r.buf <= r'.buf
    ensures 0x100 <= symbol < 0x200 && v'.n == Done(LitSym(symbol - 0x100))
  {
    hide NodeOk, Index, Next, MaskedBit, At, Decode, ProbsOk;
    var mb: nat, offs := matchByte, 0x100;
    symbol := 1;
    r', v' := r, v;
    var i := 0;
    while i < 8
      invariant i <= 8 && (offs == 0 || offs == 0x100)
      invariant Heading(probs, src, r', c, v', goal) && |v'.probs| == |v.probs| && r.buf <= r'.buf
      invariant if i < 8 then v'.n == MatchedLit(symbol, 8 - i, offs, mb)
                else 0x100 <= symbol < 0x200 && v'.n == Done(LitSym(symbol - 0x100))
    {
      MatchedLitStep(c, symbol, 8 - i, offs, mb, true);
      MatchedLitStep(c, symbol, 8 - i, offs, mb, false);
      mb := mb + mb;
      var bitMask := offs;
      offs := if mb / 0x100 % 2 == 1 then offs else 0;
      var probLit := prob + (offs + bitMask + symbol);
      var bit;
      r', bit, v' := ReadBit(probs, probLit, src, r', c, v', goal);
      if bit {
        symbol := symbol + symbol + 1;
      } else {
        symbol := symbol + symbol;
        offs := if offs == bitMask then 0 else bitMask;
      }
      i := i + 1;
    }
  }

  lemma LenTreeStep(c: Ctx, o: LenOwner, seg: nat, i: nat, left: nat, bit: bool)
    requires CtxOk(c) && NodeOk(LenTree(o, seg, i, left))
    ensures var j := 2 * i + BitValue(bit);
            && Index(c, LenTree(o, seg, i, left)) == LenBase(o) + SegBase(c, seg) + i
            && (left > 1 ==> Next(c, LenTree(o, seg, i, left), bit) == LenTree(o, seg, j, left - 1))
            && (left == 1 ==>
                  var len := if seg == 0 then j - 8 else if seg == 1 then j else j - 256 + 16;
                  0 <= len < 272 && Next(c, LenTree(o, seg, i, left), bit) == AfterLen(o, len))
  {
    TreeStep(SegBits(seg), left, i, bit);
    hide Pow2, AfterLen, LenBase, SegBase;
  }

  /** TREE_GET_BIT over one segment of a length coder; i starts at 1. */
  method ReadLenTree(probs: array<int>, probLen: nat, bits: nat, src: seq<byte>, r: Regs,
                     ghost o: LenOwner, ghost seg: nat, ghost c: Ctx, ghost v: Walk, ghost goal: SymbolResult)
    returns (r': Regs, i: nat, ghost v': Walk)
    requires Heading(probs, src, r, c, v, goal) && v.n == LenTree(o, seg, 1, bits)
    requires seg < 3 && OwnerOk(o) && probLen == LenBase(o) + SegBase(c, seg) && bits == SegBits(seg)
    modifies probs
    ensures Heading(probs, src, r', c, v', goal) && |v'.probs| == |v.probs| && r.buf <= r'.buf
    ensures var len := if seg == 0 then i - 8 else if seg == 1 then i else i - 256 + 16;
            0 <= len < 272 && v'.n == AfterLen(o, len)
  {
    hide NodeOk, Index, Next, At, Decode, ProbsOk, AfterLen;
    i := 1;
    r', v' := r, v;
    var k := 0;
    while k < bits
      invariant k <= bits
      invariant Heading(probs, src, r', c, v', goal) && |v'.probs| == |v.probs| && r.buf <= r'.buf
      invariant k < bits ==> v'.n == LenTree(o, seg, i, bits - k)
      invariant k == bits ==> var len := if seg == 0 then i - 8 else if seg == 1 then i else i - 256 + 16;
                              0 <= len < 272 && v'.n == AfterLen(o, len)
    {
      LenTreeStep(c, o, seg, i, bits - k, true);
      LenTreeStep(c, o, seg, i, bits - k, false);
      var bit;
      r', bit, v' := ReadBit(probs, probLen + i, src, r', c, v', goal);
      i := i + i + (if bit then 1 else 0);
      k := k + 1;
    }
  }

  lemma LenChoiceSteps(c: Ctx, o: LenOwner)
    requires CtxOk(c) && OwnerOk(o)
    ensures Index(c, LenChoice(o)) == LenBase(o) && Index(c, LenChoice2(o)) == LenBase(o) + LEN_CHOICE2
    ensures Next(c, LenChoice(o), false) == LenTree(o, 0, 1, 3) && Next(c, LenChoice(o), true) == LenChoice2(o)
    ensures Next(c, LenChoice2(o), false) == LenTree(o, 1, 1, 3) && Next(c, LenChoice2(o), true) == LenTree(o, 2, 1, 8)
  {
  }

  /** The length coder at prob. */
  method ReadLen(probs: array<int>, prob: nat, posState: nat, src: seq<byte>, r: Regs,
                 ghost o: LenOwner, ghost c: Ctx, ghost v: Walk, ghost goal: SymbolResult)
    returns (r': Regs, len: nat, ghost v': Walk)
    requires Heading(probs, src, r, c, v, goal) && v.n == LenChoice(o)
    requires OwnerOk(o) && prob == LenBase(o) && posState == c.posState
    modifies probs
    ensures Heading(probs, src, r', c, v', goal) && |v'.probs| == |v.probs| && r.buf <= r'.buf
    ensures len < 272 && v'.n == AfterLen(o, len)
  {
    LenChoiceSteps(c, o);
    hide NodeOk, Index, Next, At, Decode, ProbsOk, AfterLen;
    var bit;
    r', bit, v' := ReadBit(probs, prob, src, r, c, v, goal);
    if !bit {
      r', len, v' := ReadLenTree(probs, prob + posState, 3, src, r', o, 0, c, v', goal);
      len := len - 8;
    } else {
      r', bit, v' := ReadBit(probs, prob + LEN_CHOICE2, src, r', c, v', goal);
      if !bit {
        r', len, v' := ReadLenTree(probs, prob + posState + 8, 3, src, r', o, 1, c, v', goal);
      } else {
        r', len, v' := ReadLenTree(probs, prob + LEN_HIGH, 8, src, r', o, 2, c, v', goal);
        len := len - 0x100 + 16;
      }
    }
  }

  lemma PosSlotStep(c: Ctx, len: nat, i: nat, left: nat, bit: bool)
    requires CtxOk(c) && NodeOk(PosSlot(len, i, left))
    ensures var j := 2 * i + BitValue(bit);
            && Index(c, PosSlot(len, i, left)) == POS_SLOT + MinLen3(len) * 64 + i
            && (left > 1 ==> Next(c, PosSlot(len, i, left), bit) == PosSlot(len, j, left - 1))
            && (left == 1 ==> 0 <= j - 64 < 64 && Next(c, PosSlot(len, i, left), bit) == AfterSlot(len, j - 64))
  {
    TreeStep(6, left, i, bit);
    hide Pow2, AfterSlot;
  }

  /** TREE_6_DECODE */
  method ReadPosSlot(probs: array<int>, prob: nat, len: nat, src: seq<byte>, r: Regs,
                     ghost c: Ctx, ghost v: Walk, ghost goal: SymbolResult)
    returns (r': Regs, slot: nat, ghost v': Walk)
    requires Heading(probs, src, r, c, v, goal) && v.n == PosSlot(len, 1, 6)
    requires len < 272 && prob == POS_SLOT + MinLen3(len) * 64
    modifies probs
    ensures Heading(probs, src, r', c, v', goal) && |v'.probs| == |v.probs| && r.buf <= r'.buf
    ensures slot < 64 && v'.n == AfterSlot(len, slot)
  {
    hide NodeOk, Index, Next, At, Decode, ProbsOk, AfterSlot;
    var i := 1;
    r', v' := r, v;
    var k := 0;
    while k < 6
      invariant k <= 6 && i >= 1
      invariant Heading(probs, src, r', c, v', goal) && |v'.probs| == |v.probs| && r.buf <= r'.buf
      invariant k < 6 ==> v'.n == PosSlot(len, i, 6 - k)
      invariant k == 6 ==> 0 <= i - 64 < 64 && v'.n == AfterSlot(len, i - 64)
    {
      PosSlotStep(c, len, i, 6 - k, true);
      PosSlotStep(c, len, i, 6 - k, false);
      var bit;
      r', bit, v' := ReadBit(probs, prob + i, src, r', c, v', goal);
      i := i + i + (if bit then 1 else 0);
      k := k + 1;
    }
    slot := i - 64;
  }

  lemma SpecStep(c: Ctx, n: Node, bit: bool)
    requires CtxOk(c) && NodeOk(n) && n.Spec?
    ensures var j := RevStep(n.i, n.m, bit);
            && Index(c, n) == SPEC_POS + n.base + n.i
            && (n.left > 1 ==> Next(c, n, bit) == Spec(n.len, n.base, j, 2 * n.m, n.left - 1))
            && (n.left == 1 ==> n.base + j >= 2 * n.m && Next(c, n, bit) == Done(MatchSym(n.len, n.base + j - 2 * n.m)))
  {
    hide Pow2;
  }

  /** REV_BIT_VAR: distance enters as base + 1 and m as 1. */
  method ReadSpec(probs: array<int>, base: nat, bits: nat, src: seq<byte>, r: Regs,
                  ghost len: nat, ghost c: Ctx, ghost v: Walk, ghost goal: SymbolResult)
    returns (r': Regs, distance: nat, ghost v': Walk)
    requires Heading(probs, src, r, c, v, goal) && bits >= 1 && v.n == Spec(len, base, 1, 1, bits)
    modifies probs
    ensures Heading(probs, src, r', c, v', goal) && |v'.probs| == |v.probs| && r.buf <= r'.buf
    ensures v'.n == Done(MatchSym(len, distance))
  {
    hide NodeOk, Index, Next, At, Decode, ProbsOk;
    var m := 1;
    var dist := base + 1;
    r', v' := r, v;
    var k := 0;
    while k < bits
      invariant k <= bits && m >= 1
      invariant Heading(probs, src, r', c, v', goal) && |v'.probs| == |v.probs| && r.buf <= r'.buf
      invariant k < bits ==> dist >= base && v'.n == Spec(len, base, dist - base, m, bits - k)
      invariant k == bits ==> dist >= m && v'.n == Done(MatchSym(len, dist - m))
    {
      SpecStep(c, v'.n, true);
      SpecStep(c, v'.n, false);
      var bit;
      r', bit, v' := ReadBit(probs, SPEC_POS + dist, src, r', c, v', goal);
      if bit {
        m := m + m;
        dist := dist + m;
      } else {
        dist := dist + m;
        m := m + m;
      }
      k := k + 1;
    }
    distance := dist - m;
  }

  lemma DirectStep(c: Ctx, n: Node, bit: bool)
    requires CtxOk(c) && NodeOk(n) && n.Direct?
    ensures var d := 2 * n.dist + BitValue(bit);
            Next(c, n, bit) == if n.left > 1 then Direct(n.len, d, n.left - 1) else Align(n.len, 16 * d, 1, 1, 4)
  {
    hide Pow2;
  }

  /** The direct bits of a long distance. */
  method ReadDirect(probs: array<int>, start: nat, bits: nat, src: seq<byte>, r: Regs,
                    ghost len: nat, ghost c: Ctx, ghost v: Walk, ghost goal: SymbolResult)
    returns (r': Regs, distance: nat, ghost v': Walk)
    requires Heading(probs, src, r, c, v, goal) && bits >= 1 && v.n == Direct(len, start, bits)
    ensures Heading(probs, src, r', c, v', goal) && |v'.probs| == |v.probs| && r.buf <= r'.buf
    ensures v'.n == Align(len, 16 * distance, 1, 1, 4)
  {
    hide NodeOk, Index, Next, At, Decode, ProbsOk;
    distance := start;
    r', v' := r, v;
    var k := 0;
    while k < bits
      invariant k <= bits
      invariant Heading(probs, src, r', c, v', goal) && |v'.probs| == |v.probs| && r.buf <= r'.buf
      invariant v'.n == if k < bits then Direct(len, distance, bits - k) else Align(len, 16 * distance, 1, 1, 4)
    {
      DirectStep(c, v'.n, true);
      DirectStep(c, v'.n, false);
      var bit;
      r', bit, v' := ReadDirectBit(probs, src, r', c, v', goal);
      distance := distance + distance + (if bit then 1 else 0);
      k := k + 1;
    }
  }

  lemma AlignStep(c: Ctx, n: Node, bit: bool)
    requires CtxOk(c) && NodeOk(n) && n.Align?
    ensures var j := RevStep(n.i, n.m, bit);
            && Index(c, n) == ALIGN + n.i && n.m <= 8
            && (n.left > 1 ==> Next(c, n, bit) == Align(n.len, n.dist, j, 2 * n.m, n.left - 1))
            && (n.left == 1 ==> j >= 2 * n.m && Next(c, n, bit) == Done(MatchSym(n.len, n.dist + j - 2 * n.m)))
  {
    AlignBounds(n.m, n.left);
    hide Pow2;
  }

  /** REV_BIT_CONST three times, REV_BIT_LAST once. */
  method ReadAlign(probs: array<int>, distance: nat, src: seq<byte>, r: Regs,
                   ghost len: nat, ghost c: Ctx, ghost v: Walk, ghost goal: SymbolResult)
    returns (r': Regs, i: nat, ghost v': Walk)
    requires Heading(probs, src, r, c, v, goal) && v.n == Align(len, distance, 1, 1, 4)
    modifies probs
    ensures Heading(probs, src, r', c, v', goal) && |v'.probs| == |v.probs| && r.buf <= r'.buf
    ensures v'.n == Done(MatchSym(len, distance + i))
  {
    hide NodeOk, Index, Next, At, Decode, ProbsOk;
    var k: nat, m: nat, left: nat := 1, 1, 4;
    r', v' := r, v;
    while left > 1
      invariant 1 <= left <= 4 && m == (if left == 4 then 1 else if left == 3 then 2 else if left == 2 then 4 else 8)
      invariant Heading(probs, src, r', c, v', goal) && |v'.probs| == |v.probs| && r.buf <= r'.buf
      invariant v'.n == Align(len, distance, k, m, left)
    {
      AlignStep(c, v'.n, true);
      AlignStep(c, v'.n, false);
      var bit;
      r', bit, v' := ReadBit(probs, ALIGN + k, src, r', c, v', goal);
      k := if bit then k + m * 2 else k + m;
      m := m + m;
      left := left - 1;
    }
    AlignStep(c, v'.n, true);
    AlignStep(c, v'.n, false);
    var bit;
    r', bit, v' := ReadBit(probs, ALIGN + k, src, r', c, v', goal);
    i := if bit then k else k - 8;
  }

  lemma AfterSlotCases(len: nat, slot: nat)
    requires len < 272 && slot < 64
    ensures slot < 4 ==> AfterSlot(len, slot) == Done(MatchSym(len, slot))
    ensures 4 <= slot < 14 ==>
              AfterSlot(len, slot) == Spec(len, (2 + slot % 2) * Pow2(slot / 2 - 1), 1, 1, slot / 2 - 1)
    ensures 14 <= slot ==> AfterSlot(len, slot) == Direct(len, 2 + slot % 2, slot / 2 - 5)
  {
    hide Pow2;
  }

  /** Direct bits, then four aligned bits. */
  method ReadLongDistance(probs: array<int>, start: nat, bits: nat, ghost len: nat, src: seq<byte>, r: Regs,
                          ghost c: Ctx, ghost v: Walk, ghost goal: SymbolResult)
    returns (r': Regs, distance: nat, ghost v': Walk)
    requires Heading(probs, src, r, c, v, goal) && bits >= 1 && v.n == Direct(len, start, bits)
    modifies probs
    ensures Heading(probs, src, r', c, v', goal) && |v'.probs| == |v.probs| && r.buf <= r'.buf
    ensures v'.n == Done(MatchSym(len, distance))
  {
    hide *;
    r', distance, v' := ReadDirect(probs, start, bits, src, r, len, c, v, goal);
    distance := distance * 16;
    var i;
    r', i, v' := ReadAlign(probs, distance, src, r', len, c, v', goal);
    distance := distance + i;
  }

  /** The distance of a match, after its length. */
  method ReadDistance(probs: array<int>, len: nat, src: seq<byte>, r: Regs,
                      ghost c: Ctx, ghost v: Walk, ghost goal: SymbolResult)
    returns (r': Regs, distance: nat, ghost v': Walk)
    requires Heading(probs, src, r, c, v, goal) && len < 272 && v.n == AfterLen(ForMatch, len)
    modifies probs
    ensures Heading(probs, src, r', c, v', goal) && |v'.probs| == |v.probs| && r.buf <= r'.buf
    ensures v'.n == Done(MatchSym(len, distance))
  {
    assert v.n == PosSlot(len, 1, 6);
    hide NodeOk, Index, Next, At, Decode, ProbsOk, AfterSlot, AfterLen;
    var prob := POS_SLOT + (if len < 4 then len else 3) * 64;
    var posSlot;
    r', posSlot, v' := ReadPosSlot(probs, prob, len, src, r, c, v, goal);
    AfterSlotCases(len, posSlot);
    if posSlot < 4 {
      distance := posSlot;
    } else {
      var numDirectBits := posSlot / 2 - 1;
      distance := 2 + posSlot % 2;
      if posSlot < 14 {
        distance := distance * Pow2(numDirectBits);
        r', distance, v' := ReadSpec(probs, distance, numDirectBits, src, r', len, c, v', goal);
      } else {
        r', distance, v' := ReadLongDistance(probs, distance, numDirectBits - 4, len, src, r', c, v', goal);
      }
    }
  }
}
