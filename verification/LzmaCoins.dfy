/** The bits of LZMA's literals, lengths and distances as LzmaEnc.c codes them, against the decoder's walk. */
module LzmaCoins {
  import opened Arithmetic
  import opened Bytes
  import opened RangeCoder
  import opened LzmaSymbol
  import opened LzmaModel
  import opened LzmaNames

  /** A bit to be coded, under a probability or as it is. */
  datatype Coin = Model(name: Name, bit: bool) | Half(bit: bool)

  // ---------- Trees ----------

  datatype Tree = LiteralTree(slot: nat) | LowTree(rep: bool, posState: nat) | MidTree(rep: bool, posState: nat)
                | HighTree(rep: bool) | SlotTree(lenState: nat)

  function At(t: Tree, i: nat): Name {
    match t
    case LiteralTree(slot) => LiteralN(slot, i)
    case LowTree(rep, ps) => LowN(rep, ps, i)
    case MidTree(rep, ps) => MidN(rep, ps, i)
    case HighTree(rep) => HighN(rep, i)
    case SlotTree(ls) => SlotN(ls, i)
  }

  /** The lower left bits of v, the highest first, from node i on. */
  function TreeCoins(t: Tree, i: nat, left: nat, v: nat): seq<Coin>
    requires v < Pow2(left)
    decreases left
  {
    if left == 0 then []
    else
      var bit := v >= Pow2(left - 1);
      [Model(At(t, i), bit)] + TreeCoins(t, 2 * i + BitValue(bit), left - 1, if bit then v - Pow2(left - 1) else v)
  }

  /** LitEnc_EncodeMatched: as long as the bits agree, those of the match byte choose the tree. */
  function MatchedCoins(slot: nat, i: nat, left: nat, v: nat, agree: bool, matchByte: nat): seq<Coin>
    requires v < Pow2(left)
    decreases left
  {
    if left == 0 then []
    else
      var bit := v >= Pow2(left - 1);
      [Model(MatchedAt(slot, i, agree, matchByte), bit)] +
      MatchedCoins(slot, 2 * i + BitValue(bit), left - 1, if bit then v - Pow2(left - 1) else v,
                   agree && Guess(matchByte) == bit, 2 * matchByte)
  }

  /** The next bit of the match byte. */
  predicate Guess(matchByte: nat) { matchByte / 0x80 % 2 == 1 }

  function MatchedAt(slot: nat, i: nat, agree: bool, matchByte: nat): Name {
    LiteralN(slot, i + if agree then 0x100 + (if Guess(matchByte) then 0x100 else 0) else 0)
  }

  /** One more bit behind the k bits seen. */
  function WithBit(k: nat, seen: nat, bit: bool): nat { seen + BitValue(bit) * Pow2(k) }

  /** All bits of v behind them. */
  function WithBits(k: nat, seen: nat, v: nat): nat { seen + v * Pow2(k) }

  /** RcTree_ReverseEncode over the distances of a slot: n bits of v, the lowest first. */
  function SpecCoins(slot: nat, k: nat, seen: nat, n: nat, v: nat): seq<Coin>
    decreases n
  {
    if n == 0 then []
    else
      var bit := v % 2 == 1;
      [Model(SpecN(slot, k, seen), bit)] + SpecCoins(slot, k + 1, WithBit(k, seen, bit), n - 1, v / 2)
  }

  /** The same for the last four bits of a large distance. */
  function AlignCoins(k: nat, seen: nat, n: nat, v: nat): seq<Coin>
    decreases n
  {
    if n == 0 then []
    else
      var bit := v % 2 == 1;
      [Model(AlignN(k, seen), bit)] + AlignCoins(k + 1, WithBit(k, seen, bit), n - 1, v / 2)
  }

  /** Direct bits, the highest first. */
  function DirectCoins(left: nat, v: nat): seq<Coin>
    requires v < Pow2(left)
    decreases left
  {
    if left == 0 then []
    else
      var bit := v >= Pow2(left - 1);
      [Half(bit)] + DirectCoins(left - 1, if bit then v - Pow2(left - 1) else v)
  }

  // ---------- Lengths and distances ----------

  /** LenEnc_Encode; v is the length less two. */
  function LenCoins(rep: bool, posState: nat, v: nat): seq<Coin>
    requires v < 272
  {
    SmallPowers();
    assert Pow2(8) == 256 by { TreeBounds(8, 8, 1); }
    if v < 8 then [Model(ChoiceN(rep), false)] + TreeCoins(LowTree(rep, posState), 1, 3, v)
    else if v < 16 then [Model(ChoiceN(rep), true), Model(Choice2N(rep), false)] + TreeCoins(MidTree(rep, posState), 1, 3, v - 8)
    else [Model(ChoiceN(rep), true), Model(Choice2N(rep), true)] + TreeCoins(HighTree(rep), 1, 8, v - 16)
  }

  /** GetPosSlot: twice the number of the highest bit, and the bit behind it. */
  function PosSlotOf(dist: nat): (slot: nat)
    requires dist < WORD
    ensures slot < 64
    ensures if slot < 4 then slot == dist else SlotBase(slot) <= dist < SlotBase(slot) + Pow2(slot / 2 - 1)
  {
    if dist < 4 then dist
    else
      var k := HighBit(dist);
      HalfPowers(k);
      if dist < 3 * Pow2(k - 1) then
        assert (2 * k) / 2 - 1 == k - 1 && 2 * k % 2 == 0;
        2 * k
      else
        assert (2 * k + 1) / 2 - 1 == k - 1 && (2 * k + 1) % 2 == 1;
        2 * k + 1
  }

  lemma HalfPowers(k: nat)
    requires k >= 1
    ensures Pow2(k) == 2 * Pow2(k - 1) && Pow2(k + 1) == 4 * Pow2(k - 1)
  {
  }

  /** BitScanReverse */
  function HighBit(v: nat): (k: nat)
    requires 0 < v < WORD
    ensures Pow2(k) <= v < Pow2(k + 1) && k < 32 && (v >= 4 ==> k >= 2)
  {
    Pow2Values();
    HighBitFrom(v, 31)
  }

  function HighBitFrom(v: nat, k: nat): (r: nat)
    requires 0 < v && k < 32 && v < Pow2(k + 1)
    ensures Pow2(r) <= v < Pow2(r + 1) && r <= k && (v >= 4 ==> r >= 2)
  {
    SmallPowers();
    if v >= Pow2(k) then k else HighBitFrom(v, k - 1)
  }

  /** The slot, and the bits behind it: dist counts from 0, lenState is what GetLenToPosState gives. */
  function DistanceCoins(lenState: nat, dist: nat): seq<Coin>
    requires dist < WORD
  {
    var slot := PosSlotOf(dist);
    assert Pow2(6) == 64 by { TreeBounds(6, 6, 1); }
    TreeCoins(SlotTree(lenState), 1, 6, slot) +
    if slot < 4 then []
    else
      var n := slot / 2 - 1;
      var v := dist - SlotBase(slot);
      if slot < 14 then SpecCoins(slot, 0, 0, n, v)
      else
        HighPart(n, v);
        DirectCoins(n - 4, v / 16) + AlignCoins(0, 0, 4, v % 16)
  }

  lemma HighPart(n: nat, v: nat)
    requires n >= 4 && v < Pow2(n)
    ensures v / 16 < Pow2(n - 4) && Pow2(n) == 16 * Pow2(n - 4)
  {
    assert Pow2(n) == 2 * Pow2(n - 1) && Pow2(n - 1) == 2 * Pow2(n - 2) && Pow2(n - 2) == 2 * Pow2(n - 3) && Pow2(n - 3) == 2 * Pow2(n - 4);
  }

  // ---------- The decoder's walk over them ----------

  /** The coin is one for this node. */
  predicate Fits(p: Props, c: Ctx, n: Node, coin: Coin)
    requires CtxOk(c) && NodeOk(n)
  {
    match coin
    case Half(_) => n.Direct?
    case Model(name, _) => !n.Done? && !n.Direct? && NameOk(p, name) && Place(name) == Index(c, n)
  }

  /** From n, the bits of the coins lead to r, and every coin is read with its own probability. */
  predicate Leads(p: Props, c: Ctx, n: Node, coins: seq<Coin>, r: Node)
    requires CtxOk(c) && NodeOk(n)
    decreases |coins|
  {
    if coins == [] then n == r
    else Fits(p, c, n, coins[0]) && Leads(p, c, Next(c, n, coins[0].bit), coins[1..], r)
  }

  lemma LeadsStep(p: Props, c: Ctx, n: Node, coin: Coin, more: seq<Coin>, r: Node)
    requires CtxOk(c) && NodeOk(n) && Fits(p, c, n, coin) && Leads(p, c, Next(c, n, coin.bit), more, r)
    ensures Leads(p, c, n, [coin] + more, r)
  {
    assert ([coin] + more)[1..] == more;
    hide Fits, Next, NodeOk;
  }

  lemma {:induction false} LeadsOn(p: Props, c: Ctx, n: Node, a: seq<Coin>, m: Node, b: seq<Coin>, r: Node)
    requires CtxOk(c) && NodeOk(n) && Leads(p, c, n, a, m)
    ensures NodeOk(m) && (Leads(p, c, m, b, r) ==> Leads(p, c, n, a + b, r))
    decreases |a|
  {
    hide Fits, Next, NodeOk;
    if a == [] {
      assert a + b == b;
    } else {
      assert (a + b)[1..] == a[1..] + b;
      LeadsOn(p, c, Next(c, n, a[0].bit), a[1..], m, b, r);
    }
  }

  lemma LeadsNone(p: Props, c: Ctx, n: Node)
    requires CtxOk(c) && NodeOk(n)
    ensures Leads(p, c, n, [], n)
  {
  }

  // ---------- Down a tree ----------

  predicate LiteralCtx(p: Props, c: Ctx, slot: nat) {
    CtxOk(c) && slot < Pow2(p.lc + p.lp) && c.lit == LITERAL + LIT_SIZE * slot
  }

  /** The trees of the walk. */
  datatype Branch = LiteralBranch(slot: nat) | LengthBranch(owner: LenOwner, seg: nat) | SlotBranch(len: nat)

  predicate BranchOk(p: Props, c: Ctx, b: Branch) {
    CtxOk(c) &&
    match b
    case LiteralBranch(slot) => LiteralCtx(p, c, slot)
    case LengthBranch(o, seg) => OwnerOk(o) && seg < 3
    case SlotBranch(len) => len < 272
  }

  function Depth(b: Branch): nat {
    match b
    case LiteralBranch(_) => 8
    case LengthBranch(_, seg) => SegBits(seg)
    case SlotBranch(_) => 6
  }

  function NodeAt(b: Branch, i: nat, left: nat): Node {
    match b
    case LiteralBranch(_) => Lit(i, left)
    case LengthBranch(o, seg) => LenTree(o, seg, i, left)
    case SlotBranch(len) => PosSlot(len, i, left)
  }

  /** Where the walk goes from the leaf j. */
  function Leaf(p: Props, c: Ctx, b: Branch, j: nat): (r: Node)
    requires BranchOk(p, c, b) && Pow2(Depth(b)) <= j < 2 * Pow2(Depth(b))
    ensures NodeOk(r)
  {
    assert Pow2(8) == 256 && Pow2(6) == 64 && Pow2(3) == 8 by { TreeBounds(8, 8, 1); }
    match b
    case LiteralBranch(_) => Done(LitSym(j - 0x100))
    case LengthBranch(o, seg) => AfterLen(o, if seg == 0 then j - 8 else if seg == 1 then j else j - 256 + 16)
    case SlotBranch(len) => AfterSlot(len, j - 64)
  }

  /** The encoder's tree for it. */
  function TreeOf(c: Ctx, b: Branch): Tree {
    match b
    case LiteralBranch(slot) => LiteralTree(slot)
    case LengthBranch(o, seg) =>
      if seg == 0 then LowTree(o.ForRep?, c.posState / 16)
      else if seg == 1 then MidTree(o.ForRep?, c.posState / 16)
      else HighTree(o.ForRep?)
    case SlotBranch(len) => SlotTree(MinLen3(len))
  }

  /** A bit of the encoder's tree is a step of the walk. */
  predicate StepsDown(p: Props, c: Ctx, b: Branch, i: nat, left: nat, bit: bool)
    requires BranchOk(p, c, b) && InTree(Depth(b), left, i)
  {
    var j := 2 * i + BitValue(bit);
    && NodeOk(NodeAt(b, i, left)) && Fits(p, c, NodeAt(b, i, left), Model(At(TreeOf(c, b), i), bit))
    && (if left == 1 then
          Pow2(Depth(b)) <= j < 2 * Pow2(Depth(b)) && Next(c, NodeAt(b, i, left), bit) == Leaf(p, c, b, j)
        else InTree(Depth(b), left - 1, j) && Next(c, NodeAt(b, i, left), bit) == NodeAt(b, j, left - 1))
  }

  lemma LiteralStep(p: Props, c: Ctx, b: Branch, i: nat, left: nat, bit: bool)
    requires BranchOk(p, c, b) && b.LiteralBranch? && InTree(8, left, i)
    ensures StepsDown(p, c, b, i, left, bit)
  {
    TreeStep(8, left, i, bit);
    TreeBounds(8, left, i);
    hide Pow2, InTree;
  }

  lemma LengthStep(p: Props, c: Ctx, b: Branch, i: nat, left: nat, bit: bool)
    requires BranchOk(p, c, b) && b.LengthBranch? && InTree(SegBits(b.seg), left, i)
    ensures StepsDown(p, c, b, i, left, bit)
  {
    TreeStep(SegBits(b.seg), left, i, bit);
    TreeBounds(SegBits(b.seg), left, i);
    hide Pow2, InTree, AfterLen;
  }

  lemma SlotStep(p: Props, c: Ctx, b: Branch, i: nat, left: nat, bit: bool)
    requires BranchOk(p, c, b) && b.SlotBranch? && InTree(6, left, i)
    ensures StepsDown(p, c, b, i, left, bit)
  {
    TreeStep(6, left, i, bit);
    TreeBounds(6, left, i);
    hide Pow2, InTree, AfterSlot;
  }

  lemma DownStep(p: Props, c: Ctx, b: Branch, i: nat, left: nat, bit: bool)
    requires BranchOk(p, c, b) && InTree(Depth(b), left, i)
    ensures StepsDown(p, c, b, i, left, bit)
  {
    hide StepsDown, BranchOk, InTree;
    match b
    case LiteralBranch(_) => LiteralStep(p, c, b, i, left, bit);
    case LengthBranch(_, _) => LengthStep(p, c, b, i, left, bit);
    case SlotBranch(_) => SlotStep(p, c, b, i, left, bit);
  }

  lemma {:induction false} LeafBounds(n: nat, i: nat, left: nat, v: nat)
    requires InTree(n, left, i) && v < Pow2(left)
    ensures Pow2(n) <= i * Pow2(left) + v < 2 * Pow2(n)
  {
    Pow2Split(n - left, left);
    MulGrows(Pow2(left), Pow2(n - left), i);
    MulGrows(Pow2(left), i + 1, 2 * Pow2(n - left));
    hide Pow2;
  }

  /** One bit of v. */
  lemma NextNode(t: Tree, i: nat, left: nat, v: nat) returns (bit: bool, j: nat, rest: nat)
    requires left >= 1 && v < Pow2(left)
    ensures j == 2 * i + BitValue(bit) && rest < Pow2(left - 1) && j * Pow2(left - 1) + rest == i * Pow2(left) + v
    ensures TreeCoins(t, i, left, v) == [Model(At(t, i), bit)] + TreeCoins(t, j, left - 1, rest)
    ensures left == 1 ==> rest == 0 && j == i * Pow2(left) + v && TreeCoins(t, j, left - 1, rest) == []
  {
    hide Pow2, At;
    bit := v >= Pow2(left - 1);
    j, rest := 2 * i + BitValue(bit), if bit then v - Pow2(left - 1) else v;
    HalvesMeet(i, left, v);
  }

  lemma HalvesMeet(i: nat, left: nat, v: nat)
    requires left >= 1 && v < Pow2(left)
    ensures var bit := v >= Pow2(left - 1);
            var rest := if bit then v - Pow2(left - 1) else v;
            rest < Pow2(left - 1) && (2 * i + BitValue(bit)) * Pow2(left - 1) + rest == i * Pow2(left) + v
    ensures left == 1 ==> Pow2(left - 1) == 1
  {
    var q := Pow2(left - 1);
    assert Pow2(left) == 2 * q && Pow2(0) == 1;
    hide Pow2;
    assert (2 * i) * q == i * (2 * q);
    assert (2 * i + 1) * q == (2 * i) * q + q;
  }

  lemma InTreeLeft(n: nat, left: nat, i: nat)
    requires InTree(n, left, i)
    ensures left >= 1
  {
  }

  /** The coins of a tree lead down it. */
  lemma {:induction false} TreeLeads(p: Props, c: Ctx, b: Branch, i: nat, left: nat, v: nat)
    requires BranchOk(p, c, b) && InTree(Depth(b), left, i) && v < Pow2(left)
    ensures NodeOk(NodeAt(b, i, left)) && Pow2(Depth(b)) <= i * Pow2(left) + v < 2 * Pow2(Depth(b))
    ensures Leads(p, c, NodeAt(b, i, left), TreeCoins(TreeOf(c, b), i, left, v), Leaf(p, c, b, i * Pow2(left) + v))
    decreases left
  {
    hide Next, NodeOk, Fits, InTree, Leads, Leaf, TreeOf, NodeAt, Depth, At, TreeCoins, Pow2, CtxOk;
    LeafBounds(Depth(b), i, left, v);
    var t := TreeOf(c, b);
    InTreeLeft(Depth(b), left, i);
    var bit, j, rest := NextNode(t, i, left, v);
    DownStep(p, c, b, i, left, bit);
    var end := Leaf(p, c, b, i * Pow2(left) + v);
    if left > 1 {
      TreeLeads(p, c, b, j, left - 1, rest);
    } else {
      LeadsNone(p, c, end);
    }
    LeadsStep(p, c, NodeAt(b, i, left), Model(At(t, i), bit), TreeCoins(t, j, left - 1, rest), end);
  }

  // ---------- Literals after a match ----------

  function OffsOf(agree: bool): nat { if agree then 0x100 else 0 }

  predicate MatchedStepsDown(p: Props, c: Ctx, slot: nat, i: nat, left: nat, agree: bool, matchByte: nat, bit: bool)
    requires LiteralCtx(p, c, slot) && InTree(8, left, i)
  {
    var j := 2 * i + BitValue(bit);
    var n := MatchedLit(i, left, OffsOf(agree), matchByte);
    && NodeOk(n) && Fits(p, c, n, Model(MatchedAt(slot, i, agree, matchByte), bit))
    && (if left == 1 then 0x100 <= j < 0x200 && Next(c, n, bit) == Done(LitSym(j - 0x100))
        else InTree(8, left - 1, j) && Next(c, n, bit) == MatchedLit(j, left - 1, OffsOf(agree && Guess(matchByte) == bit), 2 * matchByte))
  }

  lemma MatchedStep(p: Props, c: Ctx, slot: nat, i: nat, left: nat, agree: bool, matchByte: nat, bit: bool)
    requires LiteralCtx(p, c, slot) && InTree(8, left, i)
    ensures MatchedStepsDown(p, c, slot, i, left, agree, matchByte, bit)
  {
    TreeStep(8, left, i, bit);
    TreeBounds(8, left, i);
    hide Pow2, InTree;
  }

  lemma MatchedNextNode(slot: nat, i: nat, left: nat, v: nat, agree: bool, matchByte: nat) returns (bit: bool, j: nat,
      rest: nat)
    requires left >= 1 && v < Pow2(left)
    ensures j == 2 * i + BitValue(bit) && rest < Pow2(left - 1) && j * Pow2(left - 1) + rest == i * Pow2(left) + v
    ensures var next := MatchedCoins(slot, j, left - 1, rest, agree && Guess(matchByte) == bit, 2 * matchByte);
            && MatchedCoins(slot, i, left, v, agree, matchByte) == [Model(MatchedAt(slot, i, agree, matchByte), bit)] + next
            && (left == 1 ==> rest == 0 && j == i * Pow2(left) + v && next == [])
  {
    hide Pow2, MatchedAt, Guess;
    bit := v >= Pow2(left - 1);
    j, rest := 2 * i + BitValue(bit), if bit then v - Pow2(left - 1) else v;
    HalvesMeet(i, left, v);
  }

  lemma EightBits()
    ensures Pow2(8) == 0x100 && Pow2(6) == 64
  {
    TreeBounds(8, 8, 1);
  }

  lemma {:induction false} MatchedLeads(p: Props, c: Ctx, slot: nat, i: nat, left: nat, v: nat, agree: bool, matchByte: nat)
    requires LiteralCtx(p, c, slot) && InTree(8, left, i) && v < Pow2(left)
    ensures NodeOk(MatchedLit(i, left, OffsOf(agree), matchByte)) && 0x100 <= i * Pow2(left) + v < 0x200
    ensures Leads(p, c, MatchedLit(i, left, OffsOf(agree), matchByte), MatchedCoins(slot, i, left, v, agree, matchByte),
                  Done(LitSym(i * Pow2(left) + v - 0x100)))
    decreases left
  {
    hide Next, NodeOk, Fits, InTree, Leads, MatchedCoins, Pow2, CtxOk, OffsOf, Guess, MatchedAt;
    EightBits();
    LeafBounds(8, i, left, v);
    InTreeLeft(8, left, i);
    var bit, j, rest := MatchedNextNode(slot, i, left, v, agree, matchByte);
    MatchedStep(p, c, slot, i, left, agree, matchByte, bit);
    var agree' := agree && Guess(matchByte) == bit;
    var end := Done(LitSym(i * Pow2(left) + v - 0x100));
    if left > 1 {
      MatchedLeads(p, c, slot, j, left - 1, rest, agree', 2 * matchByte);
    } else {
      DoneOk(end);
      LeadsNone(p, c, end);
    }
    LeadsStep(p, c, MatchedLit(i, left, OffsOf(agree), matchByte), Model(MatchedAt(slot, i, agree, matchByte), bit),
              MatchedCoins(slot, j, left - 1, rest, agree', 2 * matchByte), end);
  }

  lemma DoneOk(n: Node)
    requires n.Done? && n.result.LitSym?
    ensures NodeOk(n)
  {
  }

  // ---------- Distances ----------

  lemma PowerStep(k: nat, seen: nat, v: nat, bit: bool)
    requires bit == (v % 2 == 1)
    ensures WithBits(k + 1, WithBit(k, seen, bit), v / 2) == WithBits(k, seen, v)
    ensures v / 2 == 0 ==> WithBit(k, seen, bit) == WithBits(k, seen, v)
    ensures seen < Pow2(k) ==> WithBit(k, seen, bit) < Pow2(k + 1)
  {
    var q, h := Pow2(k), v / 2;
    assert Pow2(k + 1) == 2 * q;
    hide Pow2;
    assert h * (2 * q) == (2 * h) * q;
    assert (2 * h + 1) * q == (2 * h) * q + q;
  }

  lemma {:induction false} SpecLeads(p: Props, c: Ctx, slot: nat, len: nat, k: nat, seen: nat, n: nat, v: nat)
    requires CtxOk(c) && 4 <= slot < 14 && len < 272 && n >= 1 && k + n == slot / 2 - 1 && seen < Pow2(k) && v < Pow2(n)
    ensures NodeOk(Spec(len, SlotBase(slot), Pow2(k) + seen, Pow2(k), n)) && SymbolOk(MatchSym(len, SlotBase(slot) + WithBits(k, seen, v)))
    ensures Leads(p, c, Spec(len, SlotBase(slot), Pow2(k) + seen, Pow2(k), n), SpecCoins(slot, k, seen, n, v),
                  Done(MatchSym(len, SlotBase(slot) + WithBits(k, seen, v))))
    decreases n
  {
    hide Next, Fits, Leads, CtxOk, NodeOk, Pow2, SlotBase, WithBit, WithBits;
    var bit := v % 2 == 1;
    var seen' := WithBit(k, seen, bit);
    SpecStep(p, c, slot, len, k, seen, n, bit);
    PowerStep(k, seen, v, bit);
    HalfBelow(n, v);
    var end := Done(MatchSym(len, SlotBase(slot) + WithBits(k, seen, v)));
    if n > 1 {
      SpecLeads(p, c, slot, len, k + 1, seen', n - 1, v / 2);
    } else {
      LeadsNone(p, c, end);
    }
    LeadsStep(p, c, Spec(len, SlotBase(slot), Pow2(k) + seen, Pow2(k), n), Model(SpecN(slot, k, seen), bit),
              SpecCoins(slot, k + 1, seen', n - 1, v / 2), end);
  }

  lemma HalfBelow(n: nat, v: nat)
    requires n >= 1 && v < Pow2(n)
    ensures v / 2 < Pow2(n - 1) && (n == 1 ==> v / 2 == 0)
  {
  }

  lemma SpecStep(p: Props, c: Ctx, slot: nat, len: nat, k: nat, seen: nat, n: nat, bit: bool)
    requires CtxOk(c) && 4 <= slot < 14 && len < 272 && n >= 1 && k + n == slot / 2 - 1 && seen < Pow2(k)
    ensures var node := Spec(len, SlotBase(slot), Pow2(k) + seen, Pow2(k), n);
            var seen' := WithBit(k, seen, bit);
            && NodeOk(node) && Fits(p, c, node, Model(SpecN(slot, k, seen), bit)) && SlotBase(slot) + seen' < 128
            && Next(c, node, bit) == (if n > 1 then Spec(len, SlotBase(slot), Pow2(k + 1) + seen', Pow2(k + 1), n - 1)
                                      else Done(MatchSym(len, SlotBase(slot) + seen')))
            && (n == 1 ==> NodeOk(Done(MatchSym(len, SlotBase(slot) + seen'))))
  {
    SpecPlace(slot, k, seen);
    Pow2Split(k, n);
    assert Pow2(k + 1) == 2 * Pow2(k);
    assert k < slot / 2 - 1;
    SpecBelow(slot, k, seen, bit);
    hide Pow2, SlotBase, Fuel;
  }

  lemma SpecBelow(slot: nat, k: nat, seen: nat, bit: bool)
    requires 4 <= slot < 14 && k < slot / 2 - 1 && seen < Pow2(k)
    ensures SlotBase(slot) + WithBit(k, seen, bit) < 128
  {
    SpecPlace(slot, k, seen);
    Pow2Grows(k + 1, slot / 2 - 1);
    assert Pow2(k + 1) == 2 * Pow2(k);
    hide Pow2, SlotBase;
  }

  lemma AlignStep(p: Props, c: Ctx, len: nat, dist: nat, k: nat, seen: nat, bit: bool)
    requires CtxOk(c) && len < 272 && k < 4 && seen < Pow2(k) && dist % 16 == 0 && dist + 16 <= WORD
    ensures var node := Align(len, dist, Pow2(k) + seen, Pow2(k), 4 - k);
            var seen' := WithBit(k, seen, bit);
            && NodeOk(node) && Fits(p, c, node, Model(AlignN(k, seen), bit)) && seen' < 16
            && Next(c, node, bit) == (if k < 3 then Align(len, dist, Pow2(k + 1) + seen', Pow2(k + 1), 3 - k) else Done(MatchSym(len, dist + seen')))
            && (k == 3 ==> NodeOk(Done(MatchSym(len, dist + seen'))))
  {
    SmallPowers();
  }

  lemma {:induction false} AlignLeads(p: Props, c: Ctx, len: nat, dist: nat, k: nat, seen: nat, v: nat)
    requires CtxOk(c) && len < 272 && k < 4 && seen < Pow2(k) && v < Pow2(4 - k) && dist % 16 == 0 && dist + 16 <= WORD
    ensures NodeOk(Align(len, dist, Pow2(k) + seen, Pow2(k), 4 - k))
    ensures Leads(p, c, Align(len, dist, Pow2(k) + seen, Pow2(k), 4 - k), AlignCoins(k, seen, 4 - k, v),
                  Done(MatchSym(len, dist + WithBits(k, seen, v))))
    decreases 4 - k
  {
    hide Next, Fits, Leads, CtxOk, NodeOk, Pow2, WithBit, WithBits;
    var bit := v % 2 == 1;
    var seen' := WithBit(k, seen, bit);
    AlignStep(p, c, len, dist, k, seen, bit);
    PowerStep(k, seen, v, bit);
    HalfBelow(4 - k, v);
    var end := Done(MatchSym(len, dist + WithBits(k, seen, v)));
    if k < 3 {
      AlignLeads(p, c, len, dist, k + 1, seen', v / 2);
    } else {
      LeadsNone(p, c, end);
    }
    LeadsStep(p, c, Align(len, dist, Pow2(k) + seen, Pow2(k), 4 - k), Model(AlignN(k, seen), bit), AlignCoins(k + 1, seen', 3 - k, v / 2), end);
  }

  lemma DirectStep(p: Props, c: Ctx, len: nat, dist: nat, left: nat, bit: bool)
    requires CtxOk(c) && NodeOk(Direct(len, dist, left))
    ensures var d := 2 * dist + BitValue(bit);
            && Fits(p, c, Direct(len, dist, left), Half(bit))
            && Next(c, Direct(len, dist, left), bit) == (if left > 1 then Direct(len, d, left - 1) else Align(len, 16 * d, 1, 1, 4))
            && (left > 1 ==> NodeOk(Direct(len, d, left - 1)))
  {
    DirectHalves(dist, left, bit);
  }

  lemma DirectNext(dist: nat, left: nat, v: nat) returns (bit: bool, d: nat, rest: nat)
    requires left >= 1 && v < Pow2(left)
    ensures d == 2 * dist + BitValue(bit) && rest < Pow2(left - 1) && d * Pow2(left - 1) + rest == dist * Pow2(left) + v
    ensures DirectCoins(left, v) == [Half(bit)] + DirectCoins(left - 1, rest)
    ensures left == 1 ==> rest == 0 && d == dist * Pow2(left) + v && DirectCoins(left - 1, rest) == []
  {
    hide Pow2;
    bit := v >= Pow2(left - 1);
    d, rest := 2 * dist + BitValue(bit), if bit then v - Pow2(left - 1) else v;
    HalvesMeet(dist, left, v);
  }

  lemma {:induction false} DirectLeads(p: Props, c: Ctx, len: nat, dist: nat, left: nat, v: nat)
    requires CtxOk(c) && NodeOk(Direct(len, dist, left)) && v < Pow2(left)
    ensures Leads(p, c, Direct(len, dist, left), DirectCoins(left, v), Align(len, 16 * (dist * Pow2(left) + v), 1, 1, 4))
    decreases left
  {
    hide Next, Fits, Leads, CtxOk, NodeOk, Pow2, DirectCoins;
    DirectLeft(len, dist, left);
    var bit, d, rest := DirectNext(dist, left, v);
    DirectStep(p, c, len, dist, left, bit);
    var end := Align(len, 16 * (dist * Pow2(left) + v), 1, 1, 4);
    if left > 1 {
      DirectLeads(p, c, len, d, left - 1, rest);
    } else {
      NextOk(c, Direct(len, dist, left), bit);
      LeadsNone(p, c, end);
    }
    LeadsStep(p, c, Direct(len, dist, left), Half(bit), DirectCoins(left - 1, rest), end);
  }

  lemma DirectLeft(len: nat, dist: nat, left: nat)
    requires NodeOk(Direct(len, dist, left))
    ensures left >= 1
  {
  }

  lemma NextOk(c: Ctx, n: Node, bit: bool)
    requires NodeOk(n) && !n.Done?
    ensures NodeOk(Next(c, n, bit))
  {
  }

  // ---------- Whole lengths and distances ----------

  function OwnerOf(rep: bool, which: nat): LenOwner { if rep then ForRep(which) else ForMatch }

  lemma ChoiceSteps(p: Props, c: Ctx, rep: bool, which: nat)
    requires CtxOk(c) && which < 4
    ensures var o := OwnerOf(rep, which);
            && NodeOk(LenChoice(o)) && NodeOk(LenChoice2(o))
            && Fits(p, c, LenChoice(o), Model(ChoiceN(rep), false)) && Fits(p, c, LenChoice(o), Model(ChoiceN(rep), true))
            && Fits(p, c, LenChoice2(o), Model(Choice2N(rep), false)) && Fits(p, c, LenChoice2(o), Model(Choice2N(rep), true))
            && Next(c, LenChoice(o), false) == LenTree(o, 0, 1, 3) && Next(c, LenChoice(o), true) == LenChoice2(o)
            && Next(c, LenChoice2(o), false) == LenTree(o, 1, 1, 3) && Next(c, LenChoice2(o), true) == LenTree(o, 2, 1, 8)
  {
  }

  /** The tree that a length is in, and the length in it. */
  lemma LengthTree(p: Props, c: Ctx, rep: bool, which: nat, seg: nat, u: nat)
    requires CtxOk(c) && which < 4 && seg < 3 && u < (if seg < 2 then 8 else 256)
    ensures var o := OwnerOf(rep, which);
            && u < Pow2(SegBits(seg)) && NodeOk(LenTree(o, seg, 1, SegBits(seg)))
            && Leads(p, c, LenTree(o, seg, 1, SegBits(seg)), TreeCoins(TreeOf(c, LengthBranch(o, seg)), 1, SegBits(seg), u),
                     AfterLen(o, if seg == 0 then u else if seg == 1 then u + 8 else u + 16))
  {
    var b := LengthBranch(OwnerOf(rep, which), seg);
    EightBits();
    SmallPowers();
    hide Leads, TreeCoins, TreeOf, AfterLen, Pow2, InTree, Fits;
    RootInTree(SegBits(seg));
    TreeLeads(p, c, b, 1, SegBits(seg), u);
  }

  /** A length leads to what comes behind it. */
  lemma LengthLeads(p: Props, c: Ctx, rep: bool, which: nat, v: nat)
    requires CtxOk(c) && v < 272 && which < 4
    ensures var o := OwnerOf(rep, which);
            NodeOk(LenChoice(o)) && Leads(p, c, LenChoice(o), LenCoins(rep, c.posState / 16, v), AfterLen(o, v))
  {
    hide Leads, TreeCoins, AfterLen, Pow2, Fits, Next, NodeOk, CtxOk;
    var o := OwnerOf(rep, which);
    var seg := if v < 8 then 0 else if v < 16 then 1 else 2;
    var u := if v < 8 then v else if v < 16 then v - 8 else v - 16;
    var end := AfterLen(o, v);
    LengthTree(p, c, rep, which, seg, u);
    ChoiceSteps(p, c, rep, which);
    var tree := TreeCoins(TreeOf(c, LengthBranch(o, seg)), 1, SegBits(seg), u);
    if seg == 0 {
      LeadsStep(p, c, LenChoice(o), Model(ChoiceN(rep), false), tree, end);
    } else {
      var first, second := Model(ChoiceN(rep), true), Model(Choice2N(rep), seg == 2);
      LeadsStep(p, c, LenChoice2(o), second, tree, end);
      LeadsStep(p, c, LenChoice(o), first, [second] + tree, end);
      assert [first] + ([second] + tree) == [first, second] + tree;
    }
  }

  /** A distance leads to the match. */
  lemma DistanceLeads(p: Props, c: Ctx, len: nat, dist: nat)
    requires CtxOk(c) && len < 272 && dist < WORD
    ensures NodeOk(PosSlot(len, 1, 6)) && SymbolOk(MatchSym(len, dist))
    ensures Leads(p, c, PosSlot(len, 1, 6), DistanceCoins(MinLen3(len), dist), Done(MatchSym(len, dist)))
  {
    hide Leads, Fits, Next, TreeCoins, SpecCoins, AlignCoins, DirectCoins, Pow2, SlotBase, PosSlotOf, AfterSlot, Leaf,
      NodeOk, CtxOk,
      InTree;
    var slot := PosSlotOf(dist);
    SlotLeaf(p, c, len, slot);
    RootInTree(6);
    TreeLeads(p, c, SlotBranch(len), 1, 6, slot);
    var tree := TreeCoins(SlotTree(MinLen3(len)), 1, 6, slot);
    var end := Done(MatchSym(len, dist));
    assert Leads(p, c, PosSlot(len, 1, 6), tree, AfterSlot(len, slot));
    if slot < 4 {
      SmallDistance(len, dist);
    } else {
      var rest := FootLeads(p, c, len, dist);
      LeadsOn(p, c, PosSlot(len, 1, 6), tree, AfterSlot(len, slot), rest, end);
    }
  }

  lemma SmallDistance(len: nat, dist: nat)
    requires len < 272 && dist < WORD && PosSlotOf(dist) < 4
    ensures DistanceCoins(MinLen3(len), dist) == TreeCoins(SlotTree(MinLen3(len)), 1, 6, PosSlotOf(dist)) && PosSlotOf(dist) == dist
  {
    hide TreeCoins, PosSlotOf;
  }

  lemma RootInTree(n: nat)
    requires n >= 1
    ensures InTree(n, n, 1)
  {
  }

  lemma SlotLeaf(p: Props, c: Ctx, len: nat, slot: nat)
    requires CtxOk(c) && len < 272 && slot < 64
    ensures Pow2(6) == 64 && Leaf(p, c, SlotBranch(len), 1 * Pow2(6) + slot) == AfterSlot(len, slot)
    ensures slot < 4 ==> AfterSlot(len, slot) == Done(MatchSym(len, slot))
    ensures 4 <= slot < 14 ==> AfterSlot(len, slot) == Spec(len, SlotBase(slot), 1, 1, slot / 2 - 1)
    ensures 14 <= slot ==> AfterSlot(len, slot) == Direct(len, 2 + slot % 2, slot / 2 - 5)
  {
    EightBits();
  }

  lemma FootIs(len: nat, dist: nat) returns (rest: seq<Coin>)
    requires len < 272 && dist < WORD && PosSlotOf(dist) >= 4
    ensures var slot := PosSlotOf(dist);
            var n, v := slot / 2 - 1, dist - SlotBase(slot);
            && DistanceCoins(MinLen3(len), dist) == TreeCoins(SlotTree(MinLen3(len)), 1, 6, slot) + rest
            && 0 <= v < Pow2(n) && n >= 1
            && (slot < 14 ==> rest == SpecCoins(slot, 0, 0, n, v))
            && (slot >= 14 ==> v / 16 < Pow2(n - 4) && rest == DirectCoins(n - 4, v / 16) + AlignCoins(0, 0, 4, v % 16))
  {
    hide TreeCoins, SpecCoins, AlignCoins, DirectCoins, Pow2, SlotBase, PosSlotOf;
    var slot := PosSlotOf(dist);
    var n: nat := slot / 2 - 1;
    var v: nat := dist - SlotBase(slot);
    if slot < 14 {
      rest := SpecCoins(slot, 0, 0, n, v);
    } else {
      HighPart(n, v);
      rest := DirectCoins(n - 4, v / 16) + AlignCoins(0, 0, 4, v % 16);
    }
  }

  lemma FootLeads(p: Props, c: Ctx, len: nat, dist: nat) returns (rest: seq<Coin>)
    requires CtxOk(c) && len < 272 && dist < WORD && PosSlotOf(dist) >= 4
    ensures var slot := PosSlotOf(dist);
            && NodeOk(AfterSlot(len, slot)) && Leads(p, c, AfterSlot(len, slot), rest, Done(MatchSym(len, dist)))
            && DistanceCoins(MinLen3(len), dist) == TreeCoins(SlotTree(MinLen3(len)), 1, 6, slot) + rest
  {
    hide Leads, Fits, Next, TreeCoins, SpecCoins, AlignCoins, DirectCoins, Pow2, SlotBase, PosSlotOf, AfterSlot,
      NodeOk, CtxOk,
      DistanceCoins;
    var slot := PosSlotOf(dist);
    var n: nat := slot / 2 - 1;
    var v: nat := dist - SlotBase(slot);
    rest := FootIs(len, dist);
    SlotLeaf(p, c, len, slot);
    SmallPowers();
    if slot < 14 {
      SpecLeads(p, c, slot, len, 0, 0, n, v);
    } else {
      LargeLeads(p, c, len, slot, v, dist);
    }
  }

  lemma LargeLeads(p: Props, c: Ctx, len: nat, slot: nat, v: nat, dist: nat)
    requires CtxOk(c) && len < 272 && 14 <= slot < 64 && dist == SlotBase(slot) + v && dist < WORD && v < Pow2(slot / 2 - 1)
    requires v / 16 < Pow2(slot / 2 - 5)
    ensures NodeOk(Direct(len, 2 + slot % 2, slot / 2 - 5))
    ensures Leads(p, c, Direct(len, 2 + slot % 2, slot / 2 - 5), DirectCoins(slot / 2 - 5, v / 16) + AlignCoins(0, 0, 4, v % 16),
                  Done(MatchSym(len, dist)))
  {
    hide Leads, Fits, Next, AlignCoins, DirectCoins, Pow2, SlotBase, AfterSlot, NodeOk, CtxOk;
    LargeBase(slot, v, dist);
    SlotLeaf(p, c, len, slot);
    NodeAfterSlot(len, slot);
    SmallPowers();
    var n: nat := slot / 2 - 5;
    var d := 16 * ((2 + slot % 2) * Pow2(n) + v / 16);
    DirectLeads(p, c, len, 2 + slot % 2, n, v / 16);
    AlignLeads(p, c, len, d, 0, 0, v % 16);
    assert Leads(p, c, Align(len, d, 1, 1, 4), AlignCoins(0, 0, 4, v % 16), Done(MatchSym(len, dist)));
    LeadsOn(p, c, Direct(len, 2 + slot % 2, n), DirectCoins(n, v / 16), Align(len, d, 1, 1, 4), AlignCoins(0, 0, 4, v % 16),
            Done(MatchSym(len, dist)));
  }

  lemma NodeAfterSlot(len: nat, slot: nat)
    requires len < 272 && slot < 64
    ensures NodeOk(AfterSlot(len, slot))
  {
  }

  /** The direct bits and the last four make up the bits behind the slot. */
  lemma LargeBase(slot: nat, v: nat, dist: nat)
    requires 14 <= slot < 64 && dist == SlotBase(slot) + v && dist < WORD && v < Pow2(slot / 2 - 1)
    ensures var d := 16 * ((2 + slot % 2) * Pow2(slot / 2 - 5) + v / 16);
            d % 16 == 0 && d + v % 16 == dist && d + 16 <= WORD
  {
    hide Pow2, SlotBase;
    var a, q := 2 + slot % 2, Pow2(slot / 2 - 5);
    BaseIs(slot, v);
    assert a * (16 * q) == 16 * (a * q);
    LargeSum(a * q, v, dist);
  }

  lemma BaseIs(slot: nat, v: nat)
    requires 14 <= slot < 64 && v < Pow2(slot / 2 - 1)
    ensures SlotBase(slot) == (2 + slot % 2) * (16 * Pow2(slot / 2 - 5))
  {
    hide Pow2;
    HighPart(slot / 2 - 1, v);
  }

  lemma LargeSum(aq: nat, v: nat, dist: nat)
    requires dist == 16 * aq + v && dist < WORD
    ensures var d := 16 * (aq + v / 16); d % 16 == 0 && d + v % 16 == dist && d + 16 <= WORD
  {
  }
}
