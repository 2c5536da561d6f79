/**
 The probabilities of the LZMA format by name, as the arrays of LzmaEnc.c have them, and where
 LzmaDec.c keeps each of them in its one array.
 */
module LzmaNames {
  import opened Bytes
  import opened RangeCoder
  import opened LzmaSymbol
  import opened LzmaModel

  /**
   Tree nodes are counted from 1 at the root.  A node of a reverse tree is named by the bits that
   lead to it: k of them, with the value seen.
   */
  datatype Name =
    | IsMatchN(state: nat, posState: nat)
    | IsRepN(state: nat)
    | IsRepG0N(state: nat)
    | IsRep0LongN(state: nat, posState: nat)
    | IsRepG1N(state: nat)
    | IsRepG2N(state: nat)
    | LiteralN(slot: nat, i: nat)
    | ChoiceN(rep: bool)
    | Choice2N(rep: bool)
    | LowN(rep: bool, posState: nat, i: nat)
    | MidN(rep: bool, posState: nat, i: nat)
    | HighN(rep: bool, i: nat)
    | SlotN(lenState: nat, i: nat)
    | SpecN(slot: nat, k: nat, seen: nat)
    | AlignN(k: nat, seen: nat)

  /** A distance with this slot starts at it, and the bits behind the slot count from there. */
  function SlotBase(slot: nat): nat {
    if slot < 4 then slot else (2 + slot % 2) * Pow2(slot / 2 - 1)
  }

  predicate NameOk(p: Props, n: Name) {
    match n
    case IsMatchN(s, ps) => s < 12 && ps < 16
    case IsRepN(s) => s < 12
    case IsRepG0N(s) => s < 12
    case IsRep0LongN(s, ps) => s < 12 && ps < 16
    case IsRepG1N(s) => s < 12
    case IsRepG2N(s) => s < 12
    case LiteralN(slot, i) => slot < Pow2(p.lc + p.lp) && i < LIT_SIZE
    case ChoiceN(_) => true
    case Choice2N(_) => true
    case LowN(_, ps, i) => ps < 16 && 1 <= i < 8
    case MidN(_, ps, i) => ps < 16 && 1 <= i < 8
    case HighN(_, i) => 1 <= i < 256
    case SlotN(ls, i) => ls < 4 && 1 <= i < 64
    case SpecN(slot, k, seen) => 4 <= slot < 14 && k < slot / 2 - 1 && seen < Pow2(k)
    case AlignN(k, seen) => k < 4 && seen < Pow2(k)
  }

  function CoderBase(rep: bool): nat { if rep then REP_LEN_CODER else LEN_CODER }

  /** Where the decoder keeps it. */
  function Place(n: Name): nat {
    match n
    case IsMatchN(s, ps) => IS_MATCH + 16 * ps + s
    case IsRepN(s) => IS_REP + s
    case IsRepG0N(s) => IS_REP_G0 + s
    case IsRep0LongN(s, ps) => IS_REP0_LONG + 16 * ps + s
    case IsRepG1N(s) => IS_REP_G1 + s
    case IsRepG2N(s) => IS_REP_G2 + s
    case LiteralN(slot, i) => LITERAL + LIT_SIZE * slot + i
    case ChoiceN(rep) => CoderBase(rep)
    case Choice2N(rep) => CoderBase(rep) + LEN_CHOICE2
    case LowN(rep, ps, i) => CoderBase(rep) + 16 * ps + i
    case MidN(rep, ps, i) => CoderBase(rep) + 16 * ps + 8 + i
    case HighN(rep, i) => CoderBase(rep) + LEN_HIGH + i
    case SlotN(ls, i) => POS_SLOT + 64 * ls + i
    case SpecN(slot, k, seen) => SPEC_POS + SlotBase(slot) + Pow2(k) + seen
    case AlignN(k, seen) => ALIGN + Pow2(k) + seen
  }

  lemma SmallPowers()
    ensures Pow2(0) == 1 && Pow2(1) == 2 && Pow2(2) == 4 && Pow2(3) == 8 && Pow2(4) == 16 && Pow2(5) == 32
  {
  }

  lemma SpecPlace(slot: nat, k: nat, seen: nat)
    requires 4 <= slot < 14 && k < slot / 2 - 1 && seen < Pow2(k)
    ensures SlotBase(slot) < SlotBase(slot) + Pow2(k) + seen < SlotBase(slot) + Pow2(slot / 2 - 1) <= 128
  {
    SmallPowers();
  }

  /** The slots follow each other. */
  lemma SlotsApart(a: nat, b: nat)
    requires 4 <= a < b < 14
    ensures SlotBase(a) + Pow2(a / 2 - 1) <= SlotBase(b)
  {
    SmallPowers();
  }

  lemma LiteralPlace(slot: nat, i: nat, slots: nat)
    requires slot < slots && i < LIT_SIZE
    ensures LIT_SIZE * slot + i < LIT_SIZE * slots
  {
  }

  lemma PlaceFits(p: Props, n: Name)
    requires PropsOk(p) && NameOk(p, n)
    ensures Place(n) < NumProbs(p)
  {
    match n
    case SpecN(slot, k, seen) => SpecPlace(slot, k, seen);
    case AlignN(k, seen) => SmallPowers();
    case LiteralN(slot, i) => LiteralPlace(slot, i, Pow2(p.lc + p.lp));
    case _ =>
  }

  /** A reverse tree's node is told by its place. */
  lemma ReversePlaces(k: nat, seen: nat, k': nat, seen': nat)
    requires seen < Pow2(k) && seen' < Pow2(k') && Pow2(k) + seen == Pow2(k') + seen'
    ensures k == k' && seen == seen'
  {
    if k < k' {
      Pow2Grows(k + 1, k');
    } else if k' < k {
      Pow2Grows(k' + 1, k);
    }
  }

  lemma LiteralPlaces(slot: nat, i: nat, slot': nat, i': nat)
    requires i < LIT_SIZE && i' < LIT_SIZE && LIT_SIZE * slot + i == LIT_SIZE * slot' + i'
    ensures slot == slot' && i == i'
  {
  }

  function Group(n: Name): nat {
    match n
    case IsMatchN(_, _) => 0
    case IsRepN(_) => 1
    case IsRepG0N(_) => 2
    case IsRep0LongN(_, _) => 3
    case IsRepG1N(_) => 4
    case IsRepG2N(_) => 5
    case LiteralN(_, _) => 6
    case SlotN(_, _) => 7
    case SpecN(_, _, _) => 8
    case AlignN(_, _) => 9
    case ChoiceN(rep) => if rep then 10 else 11
    case Choice2N(rep) => if rep then 10 else 11
    case LowN(rep, _, _) => if rep then 10 else 11
    case MidN(rep, _, _) => if rep then 10 else 11
    case HighN(rep, _) => if rep then 10 else 11
  }

  function GroupStart(g: nat): nat
    requires g < 12
  {
    [IS_MATCH, IS_REP, IS_REP_G0, IS_REP0_LONG, IS_REP_G1, IS_REP_G2, LITERAL, POS_SLOT, SPEC_POS, ALIGN, REP_LEN_CODER, LEN_CODER][g]
  }

  lemma GroupPlace(p: Props, n: Name)
    requires NameOk(p, n)
    ensures var g := Group(n);
            && GroupStart(g) <= Place(n)
            && Place(n) < (if g == 6 then Place(n) + 1 else [1664, 1692, 1704, 384, 1716, 1728, 0, 1984, 128, 1680, 896, 1408][g])
  {
    if n.SpecN? {
      SpecPlace(n.slot, n.k, n.seen);
    }
    SmallPowers();
  }

  lemma SameGroup(p: Props, a: Name, b: Name)
    requires NameOk(p, a) && NameOk(p, b) && Place(a) == Place(b)
    ensures Group(a) == Group(b)
  {
    GroupPlace(p, a);
    GroupPlace(p, b);
    hide Place, NameOk;
  }

  lemma LengthPlaces(p: Props, a: Name, b: Name)
    requires NameOk(p, a) && NameOk(p, b) && Place(a) == Place(b) && Group(a) == Group(b) >= 10
    ensures a == b
  {
    hide Pow2;
  }

  lemma SpecPlaces(a: Name, b: Name)
    requires a.SpecN? && 4 <= a.slot < 14 && a.k < a.slot / 2 - 1 && a.seen < Pow2(a.k)
    requires b.SpecN? && 4 <= b.slot < 14 && b.k < b.slot / 2 - 1 && b.seen < Pow2(b.k)
    requires Place(a) == Place(b)
    ensures a == b
  {
    SpecPlace(a.slot, a.k, a.seen);
    SpecPlace(b.slot, b.k, b.seen);
    hide Pow2, SlotBase;
    if a.slot < b.slot {
      SlotsApart(a.slot, b.slot);
    } else if b.slot < a.slot {
      SlotsApart(b.slot, a.slot);
    } else {
      ReversePlaces(a.k, a.seen, b.k, b.seen);
    }
  }

  /** No two probabilities share a place. */
  lemma PlacesDiffer(p: Props, a: Name, b: Name)
    requires NameOk(p, a) && NameOk(p, b) && Place(a) == Place(b)
    ensures a == b
  {
    SameGroup(p, a, b);
    if Group(a) >= 10 {
      LengthPlaces(p, a, b);
    } else if a.SpecN? {
      SpecPlaces(a, b);
    } else if a.AlignN? {
      ReversePlaces(a.k, a.seen, b.k, b.seen);
    } else if a.LiteralN? {
      LiteralPlaces(a.slot, a.i, b.slot, b.i);
    }
    hide Pow2, SlotBase, CoderBase;
  }
}
