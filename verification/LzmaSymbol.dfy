/**
 One LZMA symbol as a walk over bits.  A node says which probability (or direct bit)
 comes next; the bit chooses the next node; Done carries the symbol.  Both the decoder
 and the look-ahead of LzmaDec.c are proved to follow this walk.
 */
module LzmaSymbol {
  import opened Bytes
  import opened RangeCoder

  // The layout of the probability array, counted from its first element.
  const SPEC_POS := 0
  const IS_REP0_LONG := 128
  const REP_LEN_CODER := 384
  const LEN_CODER := 896
  const IS_MATCH := 1408
  const ALIGN := 1664
  const IS_REP := 1680
  const IS_REP_G0 := 1692
  const IS_REP_G1 := 1704
  const IS_REP_G2 := 1716
  const POS_SLOT := 1728
  const LITERAL := 1984
  const LIT_SIZE := 0x300

  const LEN_CHOICE2 := 8
  const LEN_HIGH := 256

  /** What a symbol's walk depends on besides the bits: state, posState, literal table, match byte. */
  datatype Ctx = Ctx(state: nat, posState: nat, lit: nat, matchByte: byte)

  predicate CtxOk(c: Ctx) {
    c.state < 12 && c.posState < 0x100 && c.posState % 16 == 0 && LITERAL <= c.lit
  }

  datatype LenOwner = ForMatch | ForRep(which: nat)

  /** Lengths are still without kMatchMinLen; a distance counts from 0. */
  datatype Symbol =
    | LitSym(value: byte)
    | ShortRepSym
    | RepSym(which: nat, len: nat)
    | MatchSym(len: nat, dist: nat)

  datatype Node =
    | IsMatch
    | Lit(sym: nat, left: nat)
    | MatchedLit(sym: nat, left: nat, offs: nat, matchByte: nat)
    | IsRep
    | RepG0
    | Rep0Long
    | RepG1
    | RepG2
    | LenChoice(owner: LenOwner)
    | LenChoice2(owner: LenOwner)
    | LenTree(owner: LenOwner, seg: nat, i: nat, left: nat)
    | PosSlot(len: nat, i: nat, left: nat)
    | Spec(len: nat, base: nat, i: nat, m: nat, left: nat)
    | Direct(len: nat, dist: nat, left: nat)
    | Align(len: nat, dist: nat, i: nat, m: nat, left: nat)
    | Done(result: Symbol)

  /** i is a node of depth n - left in a bit tree of n levels whose root is 1. */
  predicate InTree(n: nat, left: nat, i: nat) {
    1 <= left <= n && Pow2(n - left) <= i < 2 * Pow2(n - left)
  }

  function SegBits(seg: nat): nat { if seg < 2 then 3 else 8 }

  predicate OwnerOk(o: LenOwner) { o.ForRep? ==> o.which < 4 }

  predicate SymbolOk(s: Symbol) {
    match s
    case LitSym(_) => true
    case ShortRepSym => true
    case RepSym(k, len) => k < 4 && len < 272
    case MatchSym(len, dist) => len < 272 && dist < WORD
  }

  predicate NodeOk(n: Node) {
    match n
    case Lit(sym, left) => left <= 8 && InTree(8, left, sym)
    case MatchedLit(sym, left, offs, mb) => left <= 8 && InTree(8, left, sym) && (offs == 0 || offs == 0x100)
    case LenChoice(o) => OwnerOk(o)
    case LenChoice2(o) => OwnerOk(o)
    case LenTree(o, seg, i, left) => OwnerOk(o) && seg < 3 && InTree(SegBits(seg), left, i)
    case PosSlot(len, i, left) => len < 272 && InTree(6, left, i)
    case Spec(len, base, i, m, left) =>
      len < 272 && 1 <= left <= 5 && 1 <= m <= i < 2 * m && base + m * Pow2(left) <= 128
    case Direct(len, dist, left) => len < 272 && 1 <= left <= 26 && (dist + 1) * Pow2(left) <= 0x1000_0000
    case Align(len, dist, i, m, left) =>
      len < 272 && 1 <= left <= 4 && m == Pow2(4 - left) && m <= i < 2 * m && dist % 16 == 0 && dist + 16 <= WORD
    case Done(s) => SymbolOk(s)
    case _ => true
  }

  /** Bounds the number of bits still to come. */
  function Fuel(n: Node): nat {
    match n
    case IsMatch => 100
    case IsRep => 90
    case RepG0 => 80
    case RepG1 => 75
    case RepG2 => 72
    case Rep0Long => 70
    case LenChoice(_) => 63
    case LenChoice2(_) => 62
    case LenTree(_, _, _, left) => 50 + left
    case PosSlot(_, _, left) => 40 + left
    case Direct(_, _, left) => 10 + left
    case Lit(_, left) => left
    case MatchedLit(_, left, _, _) => left
    case Spec(_, _, _, _, left) => left
    case Align(_, _, _, _, left) => left
    case Done(_) => 0
  }

  function MinLen3(len: nat): nat { if len < 3 then len else 3 }

  function LenBase(o: LenOwner): nat { if o.ForMatch? then LEN_CODER else REP_LEN_CODER }

  function SegBase(c: Ctx, seg: nat): nat {
    if seg == 0 then c.posState else if seg == 1 then c.posState + 8 else LEN_HIGH
  }

  /** The bit of the doubled match byte that selects the literal sub-table (offs & matchByte). */
  function MaskedBit(offs: nat, matchByte: nat): (r: nat)
    ensures r == 0 || (r == 0x100 && offs == 0x100)
  {
    if offs == 0x100 && matchByte / 0x80 % 2 == 1 then 0x100 else 0
  }

  /** The probability a modelled node reads. */
  function Index(c: Ctx, n: Node): (i: nat)
    requires CtxOk(c) && NodeOk(n) && !n.Done? && !n.Direct?
    ensures i < c.lit + LIT_SIZE
  {
    match n
    case IsMatch => IS_MATCH + c.posState + c.state
    case Lit(sym, left) => TreeBounds(8, left, sym); c.lit + sym
    case MatchedLit(sym, left, offs, mb) => TreeBounds(8, left, sym); c.lit + MaskedBit(offs, mb) + offs + sym
    case IsRep => IS_REP + c.state
    case RepG0 => IS_REP_G0 + c.state
    case Rep0Long => IS_REP0_LONG + c.posState + c.state
    case RepG1 => IS_REP_G1 + c.state
    case RepG2 => IS_REP_G2 + c.state
    case LenChoice(o) => LenBase(o)
    case LenChoice2(o) => LenBase(o) + LEN_CHOICE2
    case LenTree(o, seg, i, left) => TreeBounds(SegBits(seg), left, i); LenBase(o) + SegBase(c, seg) + i
    case PosSlot(len, i, left) => TreeBounds(6, left, i); POS_SLOT + MinLen3(len) * 64 + i
    case Spec(_, base, i, m, left) => SpecBounds(base, i, m, left); SPEC_POS + base + i
    case Align(_, _, i, m, left) => AlignBounds(m, left); ALIGN + i
  }

  lemma TreeBounds(n: nat, left: nat, i: nat)
    requires n <= 8 && InTree(n, left, i)
    ensures 1 <= i < Pow2(n) && Pow2(3) == 8 && Pow2(6) == 64 && Pow2(8) == 256
  {
    Pow2Grows(n - left, n - 1);
    assert Pow2(1) == 2 && Pow2(2) == 4 && Pow2(3) == 8 && Pow2(4) == 16 && Pow2(5) == 32;
    assert Pow2(6) == 64 && Pow2(7) == 128 && Pow2(8) == 256;
  }

  lemma {:induction false} Pow2Grows(a: nat, b: nat)
    requires a <= b
    ensures Pow2(a) <= Pow2(b)
    decreases b - a
  {
    if a < b {
      Pow2Grows(a + 1, b);
    }
  }

  lemma SpecBounds(base: nat, i: nat, m: nat, left: nat)
    requires left >= 1 && i < 2 * m && base + m * Pow2(left) <= 128
    ensures base + i < 128
  {
    assert Pow2(left) >= 2;
    assert m * 2 <= m * Pow2(left);
  }

  lemma AlignBounds(m: nat, left: nat)
    requires 1 <= left <= 4 && m == Pow2(4 - left)
    ensures m <= 8
  {
    Pow2Grows(4 - left, 3);
    assert Pow2(1) == 2 && Pow2(2) == 4 && Pow2(3) == 8;
  }

  /** Where the walk goes from the bit tree of the length coder. */
  function AfterLen(o: LenOwner, len: nat): (r: Node)
    requires OwnerOk(o) && len < 272
    ensures NodeOk(r) && Fuel(r) <= 46
  {
    match o
    case ForMatch => assert Pow2(0) == 1; PosSlot(len, 1, 6)
    case ForRep(k) => Done(RepSym(k, len))
  }

  /** Where the walk goes from the position slot. */
  function AfterSlot(len: nat, slot: nat): (r: Node)
    requires len < 272 && slot < 64
    ensures NodeOk(r) && Fuel(r) <= 36
  {
    if slot < 4 then
      Done(MatchSym(len, slot))
    else
      var n := slot / 2 - 1;
      var d := 2 + slot % 2;
      if slot < 14 then
        SmallPow2(n);
        Spec(len, d * Pow2(n), 1, 1, n)
      else
        Pow2Values();
        Pow2Grows(n - 4, 26);
        Direct(len, d, n - 4)
  }

  lemma SmallPow2(n: nat)
    requires 1 <= n <= 5
    ensures Pow2(n) <= 32 && (n < 5 ==> Pow2(n) <= 16) && (n < 4 ==> Pow2(n) <= 8)
  {
    assert Pow2(1) == 2 && Pow2(2) == 4 && Pow2(3) == 8 && Pow2(4) == 16 && Pow2(5) == 32;
  }

  lemma Pow2Values()
    ensures Pow2(10) == 0x400 && Pow2(20) == 0x10_0000 && Pow2(26) == 0x400_0000 && Pow2(32) == WORD
  {
    assert Pow2(5) == 32;
    assert Pow2(10) == 0x400;
    assert Pow2(15) == 0x8000;
    assert Pow2(20) == 0x10_0000;
    assert Pow2(25) == 0x200_0000;
    assert Pow2(26) == 0x400_0000;
    assert Pow2(30) == 0x4000_0000;
  }

  function BitValue(bit: bool): nat { if bit then 1 else 0 }

  lemma TreeStep(n: nat, left: nat, i: nat, bit: bool)
    requires n <= 8 && InTree(n, left, i)
    ensures left > 1 ==> InTree(n, left - 1, 2 * i + BitValue(bit))
    ensures left == 1 ==> Pow2(n) <= 2 * i + BitValue(bit) < 2 * Pow2(n)
    ensures Pow2(3) == 8 && Pow2(6) == 64 && Pow2(8) == 256
  {
    TreeBounds(n, left, i);
    assert Pow2(n - left + 1) == 2 * Pow2(n - left);
  }

  function LitNext(sym: nat, left: nat, bit: bool): (r: Node)
    requires left <= 8 && InTree(8, left, sym)
    ensures NodeOk(r) && Fuel(r) == left - 1
  {
    TreeStep(8, left, sym, bit);
    var s := 2 * sym + BitValue(bit);
    if left == 1 then Done(LitSym(s - 0x100)) else Lit(s, left - 1)
  }

  function MatchedLitNext(sym: nat, left: nat, offs: nat, matchByte: nat, bit: bool): (r: Node)
    requires left <= 8 && InTree(8, left, sym) && (offs == 0 || offs == 0x100)
    ensures NodeOk(r) && Fuel(r) == left - 1
  {
    TreeStep(8, left, sym, bit);
    var s := 2 * sym + BitValue(bit);
    var masked := MaskedBit(offs, matchByte);
    // offs ^= bit on a decoded 0
    var offs' := if bit then masked else if offs == masked then 0 else offs;
    if left == 1 then Done(LitSym(s - 0x100)) else MatchedLit(s, left - 1, offs', 2 * matchByte)
  }

  function LenTreeNext(o: LenOwner, seg: nat, i: nat, left: nat, bit: bool): (r: Node)
    requires OwnerOk(o) && seg < 3 && InTree(SegBits(seg), left, i)
    ensures NodeOk(r) && Fuel(r) < 50 + left
  {
    TreeStep(SegBits(seg), left, i, bit);
    var j := 2 * i + BitValue(bit);
    if left > 1 then LenTree(o, seg, j, left - 1)
    else AfterLen(o, if seg == 0 then j - 8 else if seg == 1 then j else j - 256 + 16)
  }

  function PosSlotNext(len: nat, i: nat, left: nat, bit: bool): (r: Node)
    requires len < 272 && InTree(6, left, i)
    ensures NodeOk(r) && Fuel(r) < 40 + left
  {
    TreeStep(6, left, i, bit);
    var j := 2 * i + BitValue(bit);
    if left > 1 then PosSlot(len, j, left - 1) else AfterSlot(len, j - 64)
  }

  /** Reverse bit trees: i grows by m or 2m. */
  function RevStep(i: nat, m: nat, bit: bool): nat { if bit then i + 2 * m else i + m }

  lemma DoubleThenHalve(m: nat, left: nat)
    requires left >= 1
    ensures (2 * m) * Pow2(left - 1) == m * Pow2(left)
  {
    var p := Pow2(left - 1);
    assert Pow2(left) == 2 * p;
    assert (2 * m) * p == m * (2 * p);
  }

  function SpecNext(len: nat, base: nat, i: nat, m: nat, left: nat, bit: bool): (r: Node)
    requires NodeOk(Spec(len, base, i, m, left))
    ensures NodeOk(r) && Fuel(r) == left - 1
  {
    DoubleThenHalve(m, left);
    SpecBounds(base, i, m, left);
    var j := RevStep(i, m, bit);
    if left > 1 then Spec(len, base, j, 2 * m, left - 1) else Done(MatchSym(len, base + j - 2 * m))
  }

  lemma DirectHalves(dist: nat, left: nat, bit: bool)
    requires left >= 1 && (dist + 1) * Pow2(left) <= 0x1000_0000
    ensures (2 * dist + BitValue(bit) + 1) * Pow2(left - 1) <= 0x1000_0000
    ensures left == 1 ==> 2 * dist + BitValue(bit) + 1 <= 0x1000_0000
  {
    DoubleThenHalve(dist + 1, left);
    var p := Pow2(left - 1);
    assert (2 * dist + BitValue(bit) + 1) * p <= (2 * (dist + 1)) * p;
    assert left == 1 ==> p == 1;
  }

  function DirectNext(len: nat, dist: nat, left: nat, bit: bool): (r: Node)
    requires NodeOk(Direct(len, dist, left))
    ensures NodeOk(r) && Fuel(r) < 10 + left
  {
    var d := 2 * dist + BitValue(bit);
    DirectHalves(dist, left, bit);
    if left > 1 then Direct(len, d, left - 1)
    else
      assert Pow2(0) == 1 && Pow2(1) == 2;
      Align(len, 16 * d, 1, 1, 4)
  }

  function AlignNext(len: nat, dist: nat, i: nat, m: nat, left: nat, bit: bool): (r: Node)
    requires NodeOk(Align(len, dist, i, m, left))
    ensures NodeOk(r) && Fuel(r) == left - 1
  {
    AlignBounds(m, left);
    var j := RevStep(i, m, bit);
    if left > 1 then
      assert Pow2(4 - (left - 1)) == 2 * Pow2(4 - left);
      Align(len, dist, j, 2 * m, left - 1)
    else Done(MatchSym(len, dist + j - 2 * m))
  }

  predicate InsideTree(n: Node) {
    n.Lit? || n.MatchedLit? || n.LenTree? || n.PosSlot? || n.Spec? || n.Direct? || n.Align?
  }

  function TreeNext(n: Node, bit: bool): (r: Node)
    requires NodeOk(n) && InsideTree(n)
    ensures NodeOk(r) && Fuel(r) < Fuel(n)
  {
    hide Pow2, LitNext, MatchedLitNext, LenTreeNext, PosSlotNext, SpecNext, DirectNext, AlignNext;
    match n
    case Lit(sym, left) => LitNext(sym, left, bit)
    case MatchedLit(sym, left, offs, mb) => MatchedLitNext(sym, left, offs, mb, bit)
    case LenTree(o, seg, i, left) => LenTreeNext(o, seg, i, left, bit)
    case PosSlot(len, i, left) => PosSlotNext(len, i, left, bit)
    case Spec(len, base, i, m, left) => SpecNext(len, base, i, m, left, bit)
    case Direct(len, dist, left) => DirectNext(len, dist, left, bit)
    case Align(len, dist, i, m, left) => AlignNext(len, dist, i, m, left, bit)
  }

  function PlainNext(c: Ctx, n: Node, bit: bool): (r: Node)
    requires NodeOk(n) && !InsideTree(n) && !n.Done?
    ensures NodeOk(r) && Fuel(r) < Fuel(n)
  {
    assert Pow2(0) == 1;
    match n
    case IsMatch =>
      if bit then IsRep
      else if c.state < 7 then Lit(1, 8)
      else MatchedLit(1, 8, 0x100, c.matchByte)
    case IsRep => if bit then RepG0 else LenChoice(ForMatch)
    case RepG0 => if bit then RepG1 else Rep0Long
    case Rep0Long => if bit then LenChoice(ForRep(0)) else Done(ShortRepSym)
    case RepG1 => if bit then RepG2 else LenChoice(ForRep(1))
    case RepG2 => LenChoice(ForRep(if bit then 3 else 2))
    case LenChoice(o) => if bit then LenChoice2(o) else LenTree(o, 0, 1, 3)
    case LenChoice2(o) => if bit then LenTree(o, 2, 1, 8) else LenTree(o, 1, 1, 3)
  }

  function Next(c: Ctx, n: Node, bit: bool): (r: Node)
    requires NodeOk(n) && !n.Done?
    ensures NodeOk(r) && Fuel(r) < Fuel(n)
  {
    hide NodeOk, Fuel, TreeNext, PlainNext;
    if InsideTree(n) then TreeNext(n, bit) else PlainNext(c, n, bit)
  }

  predicate ProbsOk(c: Ctx, probs: seq<int>) {
    c.lit + LIT_SIZE <= |probs| && forall i :: 0 <= i < |probs| ==> ProbOk(probs[i])
  }

  /** A decoder in the middle of a symbol. */
  datatype Walk = Walk(n: Node, rc: Rc, probs: seq<int>)

  predicate WalkOk(c: Ctx, w: Walk) {
    CtxOk(c) && NodeOk(w.n) && RcOk(w.rc) && ProbsOk(c, w.probs)
  }

  predicate CanStep(c: Ctx, w: Walk) {
    WalkOk(c, w) && !w.n.Done? && !NeedsByte(w.rc)
  }

  /** The bit read at the node of w. */
  predicate StepBit(c: Ctx, w: Walk)
    requires CanStep(c, w)
  {
    var a := Normalize(w.rc);
    if w.n.Direct? then DirectBit(a) else ModelBit(a, w.probs[Index(c, w.n)])
  }

  function StepRc(c: Ctx, w: Walk): (r: Rc)
    requires CanStep(c, w)
    ensures RcOk(r) && r.rest == Normalize(w.rc).rest
  {
    var a := Normalize(w.rc);
    if w.n.Direct? then AfterDirectBit(a) else AfterModelBit(a, w.probs[Index(c, w.n)])
  }

  function StepProbs(c: Ctx, w: Walk): (r: seq<int>)
    requires CanStep(c, w)
    ensures |r| == |w.probs| && ProbsOk(c, r)
  {
    hide NodeOk;
    if w.n.Direct? then w.probs else
    var k := Index(c, w.n);
    w.probs[k := Adapted(w.probs[k], StepBit(c, w))]
  }

  /** One bit of the walk; with adapt, the probability read is updated. */
  function Step(c: Ctx, w: Walk, adapt: bool): (r: Walk)
    requires CanStep(c, w)
    ensures WalkOk(c, r) && Fuel(r.n) < Fuel(w.n) && |r.probs| == |w.probs|
  {
    hide NodeOk, Next, StepRc, StepProbs, StepBit, Fuel;
    Walk(Next(c, w.n, StepBit(c, w)), StepRc(c, w), if adapt then StepProbs(c, w) else w.probs)
  }

  datatype SymbolResult = OutOfInput | Decoded(sym: Symbol, rc: Rc, probs: seq<int>)

  /** The rest of the walk, up to the final shift. */
  function Decode(c: Ctx, w: Walk, adapt: bool): (r: SymbolResult)
    requires WalkOk(c, w)
    ensures r.Decoded? ==> SymbolOk(r.sym) && Normal(r.rc) && ProbsOk(c, r.probs) && |r.probs| == |w.probs|
    decreases Fuel(w.n)
  {
    hide Step, Normalize, RcOk, Fuel, ProbsOk;
    if NeedsByte(w.rc) then OutOfInput
    else if w.n.Done? then Decoded(w.n.result, Normalize(w.rc), w.probs)
    else Decode(c, Step(c, w, adapt), adapt)
  }
}
