/** What holds of every walk over an LZMA symbol: look-ahead, the 20-byte bound, growth of the input. */
module LzmaSymbolFacts {
  import opened Arithmetic
  import opened Bytes
  import opened RangeCoder
  import opened LzmaSymbol

  // ---------- The look-ahead without probability updates ----------

  function LenRank(o: int): int {
    if o == 0 then 0 else if o == LEN_CHOICE2 then 1 else if o >= LEN_HIGH then 2 + (o - LEN_HIGH) else 2 + o % 8
  }

  /** The order in which one symbol can meet the probabilities. */
  function Rank(c: Ctx, k: int): int {
    if k < IS_REP0_LONG then 9000 + k
    else if k < REP_LEN_CODER then 3000
    else if k < LEN_CODER then 6000 + LenRank(k - REP_LEN_CODER)
    else if k < IS_MATCH then 6000 + LenRank(k - LEN_CODER)
    else if k < ALIGN then 0
    else if k < IS_REP then 9000 + (k - ALIGN)
    else if k < IS_REP_G0 then 1000
    else if k < IS_REP_G1 then 2000
    else if k < IS_REP_G2 then 4000
    else if k < POS_SLOT then 5000
    else if k < LITERAL then 7000 + k % 64
    else 500 + (k - c.lit) % 0x100
  }

  function NodeRank(n: Node): int {
    match n
    case IsMatch => 0
    case Lit(sym, _) => 500 + sym
    case MatchedLit(sym, _, _, _) => 500 + sym
    case IsRep => 1000
    case RepG0 => 2000
    case Rep0Long => 3000
    case RepG1 => 4000
    case RepG2 => 5000
    case LenChoice(_) => 6000
    case LenChoice2(_) => 6001
    case LenTree(_, seg, i, _) => 6002 + i
    case PosSlot(_, i, _) => 7000 + i
    case Direct(_, _, left) => 8000 - left
    case Spec(_, base, i, _, _) => 9000 + base + i
    case Align(_, _, i, _, _) => 9000 + i
    case Done(_) => 10000
  }

  lemma LiteralRank(c: Ctx, sym: nat, o: nat)
    requires CtxOk(c) && sym < 0x100 && (o == 0 || o == 0x100 || o == 0x200)
    ensures Rank(c, c.lit + o + sym) == 500 + sym
  {
    assert (c.lit + o + sym - c.lit) % 0x100 == sym;
  }

  lemma LenTreeRank(c: Ctx, seg: nat, i: nat)
    requires CtxOk(c) && seg < 3 && 1 <= i < Pow2(SegBits(seg))
    ensures LenRank(SegBase(c, seg) + i) == 2 + i && SegBase(c, seg) + i < 512
  {
    assert Pow2(3) == 8 && Pow2(8) == 256 by { TreeBounds(8, 8, 1); }
    var q := c.posState / 16;
    assert c.posState == 8 * (2 * q);
    if seg < 2 {
      assert (8 * (2 * q + seg) + i) % 8 == i;
    }
  }

  lemma LiteralIndexRank(c: Ctx, n: Node)
    requires CtxOk(c) && NodeOk(n) && (n.Lit? || n.MatchedLit?)
    ensures Rank(c, Index(c, n)) == NodeRank(n)
  {
    TreeBounds(8, n.left, n.sym);
    LiteralRank(c, n.sym, if n.Lit? then 0 else MaskedBit(n.offs, n.matchByte) + n.offs);
    hide Rank, Pow2;
  }

  lemma LenTreeIndexRank(c: Ctx, n: Node)
    requires CtxOk(c) && NodeOk(n) && n.LenTree?
    ensures Rank(c, Index(c, n)) == NodeRank(n)
  {
    TreeBounds(SegBits(n.seg), n.left, n.i);
    LenTreeRank(c, n.seg, n.i);
    hide LenRank, Pow2, SegBase;
  }

  lemma PosSlotIndexRank(c: Ctx, n: Node)
    requires CtxOk(c) && NodeOk(n) && n.PosSlot?
    ensures Rank(c, Index(c, n)) == NodeRank(n)
  {
    TreeBounds(6, n.left, n.i);
    assert (64 * (27 + MinLen3(n.len)) + n.i) % 64 == n.i;
    hide LenRank, Pow2;
  }

  lemma ReverseIndexRank(c: Ctx, n: Node)
    requires CtxOk(c) && NodeOk(n) && (n.Spec? || n.Align?)
    ensures Rank(c, Index(c, n)) == NodeRank(n)
  {
    if n.Spec? {
      SpecBounds(n.base, n.i, n.m, n.left);
    } else {
      AlignBounds(n.m, n.left);
    }
    hide LenRank, Pow2;
  }

  lemma IndexRank(c: Ctx, n: Node)
    requires CtxOk(c) && NodeOk(n) && !n.Done? && !n.Direct?
    ensures Rank(c, Index(c, n)) == NodeRank(n)
  {
    if InsideTree(n) {
      hide Rank, Index, NodeRank, NodeOk;
      if n.Lit? || n.MatchedLit? {
        LiteralIndexRank(c, n);
      } else if n.LenTree? {
        LenTreeIndexRank(c, n);
      } else if n.PosSlot? {
        PosSlotIndexRank(c, n);
      } else {
        ReverseIndexRank(c, n);
      }
    }
  }

  lemma LiteralRankGrows(c: Ctx, n: Node, bit: bool)
    requires CtxOk(c) && NodeOk(n) && (n.Lit? || n.MatchedLit?)
    ensures NodeRank(n) < NodeRank(Next(c, n, bit))
  {
    TreeBounds(8, n.left, n.sym);
    hide Pow2, InTree;
  }

  lemma LenRankGrows(c: Ctx, n: Node, bit: bool)
    requires CtxOk(c) && NodeOk(n) && n.LenTree?
    ensures NodeRank(n) < NodeRank(Next(c, n, bit))
  {
    TreeStep(SegBits(n.seg), n.left, n.i, bit);
    TreeBounds(SegBits(n.seg), n.left, n.i);
    hide Pow2, InTree;
  }

  lemma AfterSlotRank(len: nat, slot: nat)
    requires len < 272 && slot < 64
    ensures NodeRank(AfterSlot(len, slot)) > 7100
  {
  }

  lemma SlotRankGrows(c: Ctx, n: Node, bit: bool)
    requires CtxOk(c) && NodeOk(n) && n.PosSlot?
    ensures NodeRank(n) < NodeRank(Next(c, n, bit))
  {
    TreeStep(6, n.left, n.i, bit);
    TreeBounds(6, n.left, n.i);
    if n.left == 1 {
      AfterSlotRank(n.len, 2 * n.i + BitValue(bit) - 64);
    }
    hide Pow2, InTree, AfterSlot;
  }

  lemma ReverseRankGrows(c: Ctx, n: Node, bit: bool)
    requires CtxOk(c) && NodeOk(n) && (n.Spec? || n.Direct? || n.Align?)
    ensures NodeRank(n) < NodeRank(Next(c, n, bit))
  {
    match n
    case Spec(_, base, i, m, left) => SpecBounds(base, i, m, left);
    case Direct(_, _, _) =>
    case Align(_, _, i, m, left) => AlignBounds(m, left);
  }

  lemma RankGrows(c: Ctx, n: Node, bit: bool)
    requires CtxOk(c) && NodeOk(n) && !n.Done?
    ensures NodeRank(n) < NodeRank(Next(c, n, bit))
  {
    if InsideTree(n) {
      hide Next, NodeRank, NodeOk;
      if n.Lit? || n.MatchedLit? {
        LiteralRankGrows(c, n, bit);
      } else if n.LenTree? {
        LenRankGrows(c, n, bit);
      } else if n.PosSlot? {
        SlotRankGrows(c, n, bit);
      } else {
        ReverseRankGrows(c, n, bit);
      }
    }
  }

  /** p and q agree on every probability a walk from n can still meet. */
  ghost predicate AgreeFrom(c: Ctx, n: Node, p: seq<int>, q: seq<int>) {
    |p| == |q| && forall k :: 0 <= k < |p| && NodeRank(n) <= Rank(c, k) ==> p[k] == q[k]
  }

  predicate SameSymbol(a: SymbolResult, b: SymbolResult) {
    match (a, b)
    case (Decoded(s, r, _), Decoded(t, u, _)) => s == t && r == u
    case (OutOfInput, OutOfInput) => true
    case _ => false
  }

  /** No symbol reads a probability twice, so skipping the updates changes nothing it can see. */
  lemma {:induction false} LookAheadAgrees(c: Ctx, w: Walk, q: seq<int>)
    requires WalkOk(c, w) && ProbsOk(c, q) && AgreeFrom(c, w.n, w.probs, q)
    ensures SameSymbol(Decode(c, w, true), Decode(c, w.(probs := q), false))
    decreases Fuel(w.n)
  {
    if CanStep(c, w) {
      StepAgrees(c, w, q);
      hide Step;
      LookAheadAgrees(c, Step(c, w, true), q);
    }
  }

  lemma StepAgrees(c: Ctx, w: Walk, q: seq<int>)
    requires CanStep(c, w) && ProbsOk(c, q) && AgreeFrom(c, w.n, w.probs, q)
    ensures var s := Step(c, w, true);
            Step(c, w.(probs := q), false) == s.(probs := q) && AgreeFrom(c, s.n, s.probs, q)
  {
    hide NodeOk, Next, Index, Rank, Normalize, ModelBit, DirectBit, AfterModelBit, AfterDirectBit, Adapted, NodeRank;
    if !w.n.Direct? {
      IndexRank(c, w.n);
    }
    RankGrows(c, w.n, StepBit(c, w));
  }

  // ---------- At most 20 bytes per symbol ----------

  function Pow(b: nat, e: nat): (p: nat)
    requires b >= 1
    ensures p >= 1
  {
    if e == 0 then 1 else b * Pow(b, e - 1)
  }

  function OwnerModel(o: LenOwner): nat { if o.ForMatch? then 10 else 0 }

  function OwnerDirect(o: LenOwner): nat { if o.ForMatch? then 26 else 0 }

  /** Modelled bits still to come on a heaviest walk. */
  function ModelBits(n: Node): nat {
    match n
    case IsMatch => 22
    case IsRep => 21
    case RepG0 => 13
    case RepG1 => 12
    case RepG2 => 11
    case Rep0Long => 11
    case LenChoice(o) => 10 + OwnerModel(o)
    case LenChoice2(o) => 9 + OwnerModel(o)
    case LenTree(o, _, _, left) => left + OwnerModel(o)
    case PosSlot(_, _, left) => 4 + left
    case Direct(_, _, _) => 4
    case Lit(_, left) => left
    case MatchedLit(_, left, _, _) => left
    case Spec(_, _, _, _, left) => left
    case Align(_, _, _, _, left) => left
    case Done(_) => 0
  }

  /** Direct bits still to come on a heaviest walk. */
  function DirectBits(n: Node): (d: nat)
    requires NodeOk(n)
    ensures d <= 26
  {
    match n
    case IsMatch => 26
    case IsRep => 26
    case LenChoice(o) => OwnerDirect(o)
    case LenChoice2(o) => OwnerDirect(o)
    case LenTree(o, _, _, _) => OwnerDirect(o)
    case PosSlot(_, _, _) => 26
    case Direct(_, _, left) => left
    case _ => 0
  }

  /**
   How far the range can still shrink: 67 per modelled bit (2048/31 and the truncation),
   2.01 per direct bit; scaled by 100^26 to stay in the integers.
   */
  function Shrink(m: nat, d: nat): (w: int)
    requires d <= 26
    ensures w >= 1
  {
    hide Pow;
    ProductPositive(Pow(201, d), Pow(100, 26 - d));
    ProductPositive(Pow(67, m), Pow(201, d) * Pow(100, 26 - d));
    Pow(67, m) * (Pow(201, d) * Pow(100, 26 - d))
  }

  lemma ShrinkModel(m: nat, d: nat)
    requires d <= 26
    ensures Shrink(m + 1, d) == 67 * Shrink(m, d)
  {
    ScaleProduct(67, Pow(67, m), Pow(201, d) * Pow(100, 26 - d));
  }

  lemma ShrinkDirect(m: nat, d: nat)
    requires d < 26
    ensures 100 * Shrink(m, d + 1) == 201 * Shrink(m, d)
  {
    var a, b, e := Pow(67, m), Pow(201, d), Pow(100, 25 - d);
    assert Pow(201, d + 1) == 201 * b && Pow(100, 26 - d) == 100 * e;
    ScaleProduct(201, b, e);
    ScaleProduct(201, a, b * e);
    ScaleProduct(100, b, e);
    ScaleProduct(100, a, b * e);
  }

  lemma {:induction false} ShrinkGrows(m: nat, d: nat, m': nat, d': nat)
    requires m <= m' && d <= d' <= 26
    ensures Shrink(m, d) <= Shrink(m', d')
    decreases m' - m + d' - d
  {
    hide Shrink;
    if d < d' {
      ShrinkDirect(m, d);
      ShrinkGrows(m, d + 1, m', d');
    } else if m < m' {
      ShrinkModel(m, d);
      ShrinkGrows(m + 1, d, m', d');
    }
  }

  function Weight(n: Node): (w: int)
    requires NodeOk(n)
    ensures w >= 1
  {
    hide Shrink;
    Shrink(ModelBits(n), DirectBits(n))
  }

  lemma HeaviestNumbers()
    ensures Pow(100, 26) == 10000000000000000000000000000000000000000000000000000
    ensures Pow(201, 26) == 764007273092176420933524184336236482241458595793540813005201
    ensures Pow(67, 22) == 14915769363385151583217201855136979828889
    ensures Pow(0x100, 20) == 1461501637330902918203684832716283019655932542976
  {
    assert Pow(100, 5) == 10000000000;
    PowProduct(100, 5, 5, 10000000000, 10000000000, 100000000000000000000);
    assert Pow(100, 3) == 1000000;
    PowProduct(100, 10, 3, 100000000000000000000, 1000000, 100000000000000000000000000);
    PowProduct(100, 13, 13, 100000000000000000000000000, 100000000000000000000000000, 10000000000000000000000000000000000000000000000000000);
    assert Pow(201, 5) == 328080401001;
    PowProduct(201, 5, 5, 328080401001, 328080401001, 107636749520976961802001);
    assert Pow(201, 3) == 8120601;
    PowProduct(201, 10, 3, 107636749520976961802001, 8120601, 874075095796795036986291122601);
    PowProduct(201, 13, 13, 874075095796795036986291122601, 874075095796795036986291122601, 764007273092176420933524184336236482241458595793540813005201);
    assert Pow(67, 5) == 1350125107;
    PowProduct(67, 5, 5, 1350125107, 1350125107, 1822837804551761449);
    assert Pow(67, 1) == 67;
    PowProduct(67, 10, 1, 1822837804551761449, 67, 122130132904968017083);
    PowProduct(67, 11, 11, 122130132904968017083, 122130132904968017083, 14915769363385151583217201855136979828889);
    assert Pow(0x100, 5) == 1099511627776;
    PowProduct(0x100, 5, 5, 1099511627776, 1099511627776, 1208925819614629174706176);
    PowProduct(0x100, 10, 10, 1208925819614629174706176, 1208925819614629174706176, 1461501637330902918203684832716283019655932542976);
  }

  lemma PowProduct(b: nat, e: nat, f: nat, x: int, y: int, z: int)
    requires b >= 1 && Pow(b, e) == x && Pow(b, f) == y && x * y == z
    ensures Pow(b, e + f) == z
  {
    PowSplit(b, e, f);
  }

  lemma {:induction false} PowSplit(b: nat, e: nat, f: nat)
    requires b >= 1
    ensures Pow(b, e + f) == Pow(b, e) * Pow(b, f)
  {
    if e > 0 {
      PowSplit(b, e - 1, f);
      ScaleProduct(b, Pow(b, e - 1), Pow(b, f));
    }
  }

  /** k more bytes pay for every range a walk of weight w can still reach. */
  predicate Covered(w: int, range: int, k: nat) {
    w * TOP <= range * (Pow(0x100, k) * Pow(100, 26))
  }

  lemma CoveredShift(w: int, range: nat, k: nat)
    requires k > 0 && Covered(w, range, k)
    ensures Covered(w, range * 0x100, k - 1)
  {
    var p, s := Pow(0x100, k - 1), Pow(100, 26);
    ScaleProduct(0x100, p, s);
    ScaleProduct(0x100, range, p * s);
  }

  /** A bit divides the range by at most a/b and the weight by at least a/b. */
  lemma CoveredBit(w: int, w': int, r: int, r': int, k: nat, a: nat, b: nat)
    requires Covered(w, r, k) && a > 0 && b > 0 && w > 0 && r > 0
    requires a * w' <= b * w && b * r <= a * r'
    ensures Covered(w', r', k)
  {
    var q := Pow(0x100, k) * Pow(100, 26);
    ProductPositive(Pow(0x100, k), Pow(100, 26));
    calc {
      a * (w' * TOP);
    <=
      (b * w) * TOP;
    ==  { ScaleProduct(b, w, TOP); }
      b * (w * TOP);
    <=  { MulGrows(b, w * TOP, r * q); }
      b * (r * q);
    ==  { ScaleProduct(b, r, q); }
      (b * r) * q;
    <=  { MulGrows(q, b * r, a * r'); }
      (a * r') * q;
    ==  { ScaleProduct(a, r', q); }
      a * (r' * q);
    }
    MulCancels(a, w' * TOP, r' * q);
  }

  lemma MulCancels(k: int, x: int, y: int)
    requires k > 0 && k * x <= k * y
    ensures x <= y
  {
    if y < x {
      MulGrowsStrictly(k, y, x);
    }
  }

  lemma MulGrowsStrictly(k: int, x: int, y: int)
    requires k > 0 && x < y
    ensures k * x < k * y
  {
  }

  lemma CoveredNotStarved(w: int, range: nat, k: nat)
    requires Covered(w, range, k) && w >= Pow(100, 26) && range < TOP
    ensures k > 0
  {
    if k == 0 {
      assert Pow(0x100, 0) == 1;
      hide Pow;
      HeavierThan(w, range, Pow(100, 26));
    }
  }

  lemma HeavierThan(w: int, range: nat, s: int)
    requires w >= s >= 1 && range < TOP
    ensures range * s < w * TOP
  {
    MulGrowsStrictly(s, range, TOP);
    MulGrows(TOP, s, w);
  }

  lemma WeightFloor(n: Node)
    requires NodeOk(n)
    ensures Weight(n) >= Pow(100, 26)
  {
    ShrinkGrows(0, 0, ModelBits(n), DirectBits(n));
    assert Shrink(0, 0) == Pow(100, 26);
  }

  /** A modelled bit costs the weight at least 67, a direct bit at least 2.01. */
  predicate Drops(n: Node, r: Node)
    requires NodeOk(n) && NodeOk(r)
  {
    if n.Direct? then 201 * Weight(r) <= 100 * Weight(n) else 67 * Weight(r) <= Weight(n)
  }

  lemma WeightDrops(c: Ctx, n: Node, bit: bool)
    requires NodeOk(n) && !n.Done?
    ensures Drops(n, Next(c, n, bit))
  {
    BitsDrop(c, n, bit);
    hide NodeOk, Next;
    FewerBitsWeighLess(n, Next(c, n, bit));
    hide *;
  }

  lemma FewerBitsWeighLess(n: Node, r: Node)
    requires NodeOk(n) && NodeOk(r) && FewerBits(n, r)
    ensures Drops(n, r)
  {
    hide NodeOk, Shrink;
    if n.Direct? {
      ShrinkDirect(4, n.left - 1);
      ShrinkGrows(ModelBits(r), DirectBits(r), 4, n.left - 1);
    } else if n.PosSlot? && r.Spec? {
      SpecFits();
      ShrinkGrows(ModelBits(r), 0, 5, 0);
      ShrinkModel(5, 0);
    } else {
      ShrinkModel(ModelBits(r), DirectBits(r));
      ShrinkGrows(ModelBits(r) + 1, DirectBits(r), ModelBits(n), DirectBits(n));
    }
  }

  predicate FewerBits(n: Node, r: Node)
    requires NodeOk(n) && NodeOk(r)
  {
    if n.Direct? then
      ModelBits(n) == 4 && DirectBits(n) == n.left >= 1 && ModelBits(r) <= 4 && DirectBits(r) <= n.left - 1
    else if n.PosSlot? && r.Spec? then
      ModelBits(n) == 5 && DirectBits(n) == 26 && ModelBits(r) <= 5 && DirectBits(r) == 0
    else
      ModelBits(r) + 1 <= ModelBits(n) && DirectBits(r) <= DirectBits(n)
  }

  lemma SpecFits()
    ensures Shrink(6, 0) <= Shrink(5, 26)
  {
    HeaviestNumbers();
    ShrinkModel(5, 0);
    assert Pow(201, 0) == 1 && Pow(100, 0) == 1;
    ScaleProduct(67, Pow(67, 5), Pow(100, 26));
    MulGrows(Pow(67, 5), 67 * Pow(100, 26), Pow(201, 26));
    hide Pow;
  }

  lemma BitsDrop(c: Ctx, n: Node, bit: bool)
    requires NodeOk(n) && !n.Done?
    ensures FewerBits(n, Next(c, n, bit))
  {
    hide Next, NodeOk, FewerBits;
    if n.PosSlot? {
      SlotBitsDrop(c, n, bit);
    } else if n.LenTree? {
      LenBitsDrop(c, n, bit);
    } else if InsideTree(n) {
      InsideBitsDrop(c, n, bit);
    } else {
      PlainBitsDrop(c, n, bit);
    }
  }

  lemma InsideBitsDrop(c: Ctx, n: Node, bit: bool)
    requires NodeOk(n) && !n.Done? && !n.PosSlot? && !n.LenTree? && InsideTree(n)
    ensures FewerBits(n, Next(c, n, bit))
  {
    hide PlainNext, LenTreeNext, PosSlotNext, Pow2;
  }

  lemma PlainBitsDrop(c: Ctx, n: Node, bit: bool)
    requires NodeOk(n) && !n.Done? && !n.PosSlot? && !n.LenTree? && !InsideTree(n)
    ensures FewerBits(n, Next(c, n, bit))
  {
    hide TreeNext, LenTreeNext, PosSlotNext, Pow2;
  }

  lemma LenBitsDrop(c: Ctx, n: Node, bit: bool)
    requires NodeOk(n) && n.LenTree?
    ensures FewerBits(n, Next(c, n, bit))
  {
    TreeStep(SegBits(n.seg), n.left, n.i, bit);
    hide Pow2;
  }

  lemma SlotBitsDrop(c: Ctx, n: Node, bit: bool)
    requires NodeOk(n) && n.PosSlot?
    ensures FewerBits(n, Next(c, n, bit))
  {
    TreeStep(6, n.left, n.i, bit);
    hide Pow2, InTree;
    if n.left == 1 {
      AfterSlotBits(n, 2 * n.i + BitValue(bit) - 64);
      hide AfterSlot;
    }
  }

  lemma AfterSlotBits(n: Node, slot: nat)
    requires NodeOk(n) && n.PosSlot? && n.left == 1 && slot < 64
    ensures FewerBits(n, AfterSlot(n.len, slot))
  {
    var r := AfterSlot(n.len, slot);
    assert slot < 4 ==> r.Done?;
    assert 4 <= slot < 14 ==> r.Spec? && r.left == slot / 2 - 1 <= 5;
    assert 14 <= slot ==> r.Direct? && r.left == slot / 2 - 5 <= 26;
  }

  lemma CoveredNormalizes(w: int, rc: Rc)
    requires w >= Pow(100, 26) && RcOk(rc) && Covered(w, rc.range, |rc.rest|)
    ensures !NeedsByte(rc) && Covered(w, Normalize(rc).range, |Normalize(rc).rest|)
  {
    hide Covered, Pow;
    if rc.range < TOP {
      CoveredNotStarved(w, rc.range, |rc.rest|);
      CoveredShift(w, rc.range, |rc.rest|);
    }
  }

  /** A walk whose weight is covered never runs out of input. */
  lemma {:induction false} CoveredDecodes(c: Ctx, w: Walk, adapt: bool)
    requires WalkOk(c, w) && Covered(Weight(w.n), w.rc.range, |w.rc.rest|)
    ensures Decode(c, w, adapt).Decoded?
    decreases Fuel(w.n)
  {
    WeightFloor(w.n);
    CoveredNormalizes(Weight(w.n), w.rc);
    if !w.n.Done? {
      CoveredStep(c, w, adapt);
      hide Step, Weight, Covered;
      CoveredDecodes(c, Step(c, w, adapt), adapt);
    }
  }

  lemma CoveredStep(c: Ctx, w: Walk, adapt: bool)
    requires CanStep(c, w) && Covered(Weight(w.n), Normalize(w.rc).range, |Normalize(w.rc).rest|)
    ensures var s := Step(c, w, adapt); Covered(Weight(s.n), s.rc.range, |s.rc.rest|)
  {
    var a := Normalize(w.rc);
    var s := Step(c, w, adapt);
    WeightDrops(c, w.n, StepBit(c, w));
    hide NodeOk, Next, Weight, Covered, Index, Adapted, Bound, ModelBit, DirectBit, Normalize;
    if w.n.Direct? {
      CoveredBit(Weight(w.n), Weight(s.n), a.range, s.rc.range, |a.rest|, 201, 100);
    } else {
      CoveredBit(Weight(w.n), Weight(s.n), a.range, s.rc.range, |a.rest|, 67, 1);
    }
  }

  /** LZMA_REQUIRED_INPUT_MAX: twenty bytes are enough for any symbol from any normalized state. */
  const REQUIRED_INPUT_MAX := 20

  lemma TwentyBytesSuffice(c: Ctx, w: Walk, adapt: bool)
    requires WalkOk(c, w) && w.n.IsMatch? && Normal(w.rc) && |w.rc.rest| >= REQUIRED_INPUT_MAX
    ensures Decode(c, w, adapt).Decoded?
  {
    HeaviestNumbers();
    PowGrows(0x100, REQUIRED_INPUT_MAX, |w.rc.rest|);
    var s := Pow(100, 26);
    var q := Pow(0x100, |w.rc.rest|) * s;
    assert Weight(IsMatch) == Pow(67, 22) * (Pow(201, 26) * 1);
    MulGrows(s, Pow(0x100, 20), Pow(0x100, |w.rc.rest|));
    MulGrows(TOP, Weight(IsMatch), q);
    MulGrows(q, TOP, w.rc.range);
    hide Pow, Weight;
    CoveredDecodes(c, w, adapt);
  }

  lemma {:induction false} PowGrows(b: nat, e: nat, f: nat)
    requires b >= 1 && e <= f
    ensures Pow(b, e) <= Pow(b, f)
    decreases f - e
  {
    if e < f {
      PowGrows(b, e + 1, f);
      MulGrows(Pow(b, e), 1, b);
    }
  }

  // ---------- More input ----------

  function Wider(rc: Rc, more: seq<byte>): Rc {
    rc.(rest := rc.rest + more)
  }

  lemma WiderNormalizes(rc: Rc, more: seq<byte>)
    requires RcOk(rc) && !NeedsByte(rc)
    ensures !NeedsByte(Wider(rc, more)) && Normalize(Wider(rc, more)) == Wider(Normalize(rc), more)
  {
  }

  lemma WiderStep(c: Ctx, w: Walk, adapt: bool, more: seq<byte>)
    requires CanStep(c, w)
    ensures var wide := w.(rc := Wider(w.rc, more)); var s := Step(c, w, adapt);
            CanStep(c, wide) && Step(c, wide, adapt) == s.(rc := Wider(s.rc, more))
  {
    hide Next, NodeOk, Index, Adapted, Bound, Normalize, ProbsOk;
    WiderNormalizes(w.rc, more);
  }

  /** Bytes after the ones a symbol reads do not matter to it. */
  lemma {:induction false} MoreInput(c: Ctx, w: Walk, adapt: bool, more: seq<byte>)
    requires WalkOk(c, w) && Decode(c, w, adapt).Decoded?
    ensures var d := Decode(c, w, adapt);
            Decode(c, w.(rc := Wider(w.rc, more)), adapt) == d.(rc := Wider(d.rc, more))
    decreases Fuel(w.n)
  {
    if w.n.Done? {
      WiderNormalizes(w.rc, more);
    } else {
      WiderStep(c, w, adapt, more);
      hide Step;
      MoreInput(c, Step(c, w, adapt), adapt, more);
    }
  }

  predicate IsSuffix(a: seq<byte>, b: seq<byte>) {
    |a| <= |b| && a == b[|b| - |a|..]
  }

  /** The input left over is a suffix of the input. */
  lemma {:induction false} DecodeConsumes(c: Ctx, w: Walk, adapt: bool)
    requires WalkOk(c, w) && Decode(c, w, adapt).Decoded?
    ensures IsSuffix(Decode(c, w, adapt).rc.rest, w.rc.rest)
    decreases Fuel(w.n)
  {
    assert IsSuffix(Normalize(w.rc).rest, w.rc.rest);
    if !w.n.Done? {
      assert Step(c, w, adapt).rc.rest == Normalize(w.rc).rest;
      hide Step, Normalize;
      DecodeConsumes(c, Step(c, w, adapt), adapt);
    }
  }

  /** The bound behind bufLimit = src + inSize - 20. */
  lemma AtMostTwentyBytes(c: Ctx, w: Walk, adapt: bool)
    requires WalkOk(c, w) && w.n.IsMatch? && Normal(w.rc) && Decode(c, w, adapt).Decoded?
    ensures |w.rc.rest| - |Decode(c, w, adapt).rc.rest| <= REQUIRED_INPUT_MAX
  {
    if |w.rc.rest| > REQUIRED_INPUT_MAX {
      var head, tail := w.rc.rest[..REQUIRED_INPUT_MAX], w.rc.rest[REQUIRED_INPUT_MAX..];
      var short := w.(rc := w.rc.(rest := head));
      TwentyBytesSuffice(c, short, adapt);
      MoreInput(c, short, adapt, tail);
      assert head + tail == w.rc.rest;
    }
  }

  /** A symbol that starved on a prefix of the input reads past that prefix. */
  lemma {:induction false} StarvedReadsOn(c: Ctx, w: Walk, adapt: bool, more: seq<byte>)
    requires WalkOk(c, w) && Decode(c, w, adapt).OutOfInput?
    requires Decode(c, w.(rc := Wider(w.rc, more)), adapt).Decoded?
    ensures |Decode(c, w.(rc := Wider(w.rc, more)), adapt).rc.rest| < |more|
    decreases Fuel(w.n)
  {
    var wide := w.(rc := Wider(w.rc, more));
    if NeedsByte(w.rc) {
      assert |Normalize(wide.rc).rest| < |more|;
      if !w.n.Done? {
        DecodeConsumes(c, Step(c, wide, adapt), adapt);
        assert Step(c, wide, adapt).rc.rest == Normalize(wide.rc).rest;
      }
    } else if !w.n.Done? {
      WiderStep(c, w, adapt, more);
      hide Step;
      StarvedReadsOn(c, Step(c, w, adapt), adapt, more);
    }
  }
}
