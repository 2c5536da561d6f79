/** The hash tables of the match finder and the trees that they root: what every position keeps. */
module MatchTables {
  import opened Bytes
  import opened MatchTree
  import opened MatchArray
  import opened MatchWalk
  import opened MatchHash

  // ---------- One tree ----------

  /** The trees do not depend on cells of other places. */
  lemma {:induction false} TreeSame(son: seq<nat>, son': seq<nat>, w: Window, ref: nat)
    requires WindowOk(w) && |son| == |son'| == 2 * w.size
    requires forall j :: 0 <= j < |son| && Owner(w, j) in Places(TreeOf(son, w, ref)) ==> son'[j] == son[j]
    ensures TreeOf(son', w, ref) == TreeOf(son, w, ref)
    decreases ref
  {
    hide TreeAt, CellTree, Live, Owner, Slot;
    TreeStep(son, w, ref, |son|, Leaf);
    TreeStep(son', w, ref, |son|, Leaf);
    if IsNode(w, ref) {
      CellSame(son, son', w, ref, false);
      CellSame(son, son', w, ref, true);
    }
  }

  lemma CellSame(son: seq<nat>, son': seq<nat>, w: Window, ref: nat, right: bool)
    requires WindowOk(w) && |son| == |son'| == 2 * w.size && IsNode(w, ref)
    requires forall j :: 0 <= j < |son| && Owner(w, j) in Places(TreeOf(son, w, ref)) ==> son'[j] == son[j]
    ensures var i := ChildCell(w, ref, right);
            CellTree(son', w, i, ref, |son|, Leaf) == CellTree(son, w, i, ref, |son|, Leaf)
    decreases ref, 0
  {
    hide TreeAt, CellTree, Live, Owner, Slot;
    var i := ChildCell(w, ref, right);
    TreeStep(son, w, ref, |son|, Leaf);
    NodePlace(son, w, ref);
    OwnerOfSlot(w, ref);
    PutPlaces(TreeOf(son, w, ref), right, Leaf);
    CellStep(son, w, i, ref, |son|, Leaf);
    CellStep(son', w, i, ref, |son|, Leaf);
    assert son'[i] == son[i];
    if son[i] < ref {
      TreeSame(son, son', w, son[i]);
    }
  }

  /** The window one position further on. */
  function Next(w: Window): Window
    requires WindowOk(w)
  {
    Window(w.pos + 1, if w.cyc + 1 == w.size then 0 else w.cyc + 1, w.size, w.c + 1)
  }

  lemma NextRef(w: Window, ref: nat)
    requires WindowOk(w) && ref <= w.pos
    ensures WindowOk(Next(w)) && Place(Next(w), ref) == Place(w, ref)
    ensures Live(Next(w), ref) == (Live(w, ref) && Place(w, ref) >= w.c + 2 - w.size)
    ensures Live(Next(w), ref) ==> Slot(Next(w), ref) == Slot(w, ref)
  {
  }

  /** When the window moves on, a tree loses exactly the place that leaves the window. */
  lemma {:induction false} TreeMovesOn(son: seq<nat>, w: Window, ref: nat)
    requires WindowOk(w) && |son| == 2 * w.size && ref <= w.pos
    requires forall y :: y in Places(TreeOf(son, w, ref)) ==> y <= w.c
    ensures WindowOk(Next(w))
    ensures TreeOf(son, Next(w), ref) == Pruned(TreeOf(son, w, ref), w.c + 2 - w.size)
    decreases ref
  {
    hide TreeAt, CellTree, Live, Owner, Slot;
    NextRef(w, ref);
    TreeStep(son, w, ref, |son|, Leaf);
    TreeStep(son, Next(w), ref, |son|, Leaf);
    BrokenPlace(w);
    if IsNode(w, ref) {
      NodePlace(son, w, ref);
      if Live(Next(w), ref) {
        CellMovesOn(son, w, ref, false);
        CellMovesOn(son, w, ref, true);
      }
    }
  }

  lemma CellMovesOn(son: seq<nat>, w: Window, ref: nat, right: bool)
    requires WindowOk(w) && |son| == 2 * w.size && ref <= w.pos && IsNode(w, ref) && WindowOk(Next(w))
    requires forall y :: y in Places(TreeOf(son, w, ref)) ==> y <= w.c
    ensures var i := ChildCell(w, ref, right);
            CellTree(son, Next(w), i, ref, |son|, Leaf) == Pruned(CellTree(son, w, i, ref, |son|, Leaf), w.c + 2 - w.size)
    decreases ref, 0
  {
    hide TreeAt, CellTree, Live, Owner, Slot, Pruned;
    var i := ChildCell(w, ref, right);
    TreeStep(son, w, ref, |son|, Leaf);
    NodePlace(son, w, ref);
    PutPlaces(TreeOf(son, w, ref), right, Leaf);
    CellStep(son, w, i, ref, |son|, Leaf);
    CellStep(son, Next(w), i, ref, |son|, Leaf);
    BrokenPlace(w);
    TreeMovesOn(son, w, son[i]);
  }

  // ---------- Moving the block ----------

  /** The same tree, d places earlier. */
  function Shifted(t: Tree, d: nat): Tree {
    if t.Leaf? || t.at < d then Leaf else Node(Shifted(t.left, d), t.at - d, Shifted(t.right, d))
  }

  function Earlier(w: Window, d: nat): Window
    requires d <= w.c
  {
    w.(c := w.c - d)
  }

  lemma EarlierRef(w: Window, d: nat, ref: nat)
    requires WindowOk(w) && d <= w.c
    ensures WindowOk(Earlier(w, d)) && Place(Earlier(w, d), ref) == Place(w, ref) - d
    ensures Live(Earlier(w, d), ref) == Live(w, ref)
    ensures Live(w, ref) ==> Slot(Earlier(w, d), ref) == Slot(w, ref)
  {
  }

  /** When the bytes of the window move by d, so do the places of a tree. */
  lemma {:induction false} TreeShifts(son: seq<nat>, w: Window, d: nat, ref: nat)
    requires WindowOk(w) && |son| == 2 * w.size && d <= w.c
    requires forall y :: y in Places(TreeOf(son, w, ref)) ==> d <= y <= w.c
    ensures WindowOk(Earlier(w, d)) && TreeOf(son, Earlier(w, d), ref) == Shifted(TreeOf(son, w, ref), d)
    decreases ref
  {
    hide TreeAt, CellTree, Live, Owner, Slot;
    EarlierRef(w, d, ref);
    TreeStep(son, w, ref, |son|, Leaf);
    TreeStep(son, Earlier(w, d), ref, |son|, Leaf);
    BrokenPlace(w);
    if IsNode(w, ref) {
      NodePlace(son, w, ref);
      CellShifts(son, w, d, ref, false);
      CellShifts(son, w, d, ref, true);
    }
  }

  lemma CellShifts(son: seq<nat>, w: Window, d: nat, ref: nat, right: bool)
    requires WindowOk(w) && |son| == 2 * w.size && d <= w.c && IsNode(w, ref) && WindowOk(Earlier(w, d))
    requires forall y :: y in Places(TreeOf(son, w, ref)) ==> d <= y <= w.c
    ensures var i := ChildCell(w, ref, right);
            CellTree(son, Earlier(w, d), i, ref, |son|, Leaf) == Shifted(CellTree(son, w, i, ref, |son|, Leaf), d)
    decreases ref, 0
  {
    hide TreeAt, CellTree, Live, Owner, Slot, Shifted;
    var i := ChildCell(w, ref, right);
    TreeStep(son, w, ref, |son|, Leaf);
    NodePlace(son, w, ref);
    PutPlaces(TreeOf(son, w, ref), right, Leaf);
    CellStep(son, w, i, ref, |son|, Leaf);
    CellStep(son, Earlier(w, d), i, ref, |son|, Leaf);
    BrokenPlace(w);
    if son[i] < ref {
      TreeShifts(son, w, d, son[i]);
    }
  }

  lemma BelowShifts(text: seq<byte>, d: nat, a: nat, b: nat, limit: nat, strict: bool)
    requires d <= a && d <= b && d <= |text| && Below(text, a, b, limit, strict)
    ensures Below(text[d..], a - d, b - d, limit, strict)
  {
    if Shares(text, a, b, limit) {
      SharesShifts(text, d, a, b, limit);
    }
    if Less(text, a, b, limit) {
      var n: nat :| n < limit && DiffersAt(text, a, b, n);
      SharesShifts(text, d, a, b, n);
      assert DiffersAt(text[d..], a - d, b - d, n);
    }
  }

  lemma SharesShifts(text: seq<byte>, d: nat, a: nat, b: nat, n: nat)
    requires d <= a && d <= b && d <= |text| && Shares(text, a, b, n)
    ensures Shares(text[d..], a - d, b - d, n)
  {
    var later, x, y := text[d..], a - d, b - d;
    forall i: nat | i < n
      ensures SameByte(later, x, y, i)
    {
      assert SameByte(text, a, b, i);
    }
  }

  /** Each place of the shifted tree was d places later before. */
  ghost predicate From(t: Tree, d: nat, u: Tree) {
    forall z: nat :: z in Places(u) ==> Was(t, d, z)
  }

  ghost predicate Was(t: Tree, d: nat, z: nat) { z + d in Places(t) }

  lemma {:induction false} ShiftedPlaces(t: Tree, d: nat)
    ensures From(t, d, Shifted(t, d))
  {
    if t.Node? && t.at >= d {
      PutPlaces(t, true, Leaf);
      ShiftedPlaces(t.left, d);
      ShiftedPlaces(t.right, d);
    }
  }

  lemma SideShifts(text: seq<byte>, d: nat, t: Tree, limit: nat, strict: bool, right: bool)
    requires d <= |text| && t.Node? && t.at >= d && Ordered(text, t, limit, strict)
    requires forall y :: y in Places(t) ==> y >= d
    ensures forall z: nat :: z in Places(Shifted(Child(t, right), d)) ==>
              && z < t.at - d
              && if right then Below(text[d..], t.at - d, z, limit, strict) else Below(text[d..], z, t.at - d, limit, strict)
  {
    hide Below, Shifted;
    var u := Child(t, right);
    PutPlaces(t, right, Leaf);
    ShiftedPlaces(u, d);
    forall z: nat | z in Places(Shifted(u, d))
      ensures z < t.at - d
      ensures if right then Below(text[d..], t.at - d, z, limit, strict) else Below(text[d..], z, t.at - d, limit, strict)
    {
      assert Was(u, d, z);
      if right {
        BelowShifts(text, d, t.at, z + d, limit, strict);
      } else {
        BelowShifts(text, d, z + d, t.at, limit, strict);
      }
    }
  }

  lemma ApartShifts(t: Tree, d: nat)
    requires t.Node? && Places(t.left) !! Places(t.right)
    ensures Places(Shifted(t.left, d)) !! Places(Shifted(t.right, d))
  {
    hide Shifted, Places;
    ShiftedPlaces(t.left, d);
    ShiftedPlaces(t.right, d);
    var a, b := Places(Shifted(t.left, d)), Places(Shifted(t.right, d));
    forall z: nat | z in a
      ensures z !in b
    {
      assert Was(t.left, d, z) && (z in b ==> Was(t.right, d, z));
    }
  }

  lemma {:induction false} OrderedShifts(text: seq<byte>, d: nat, t: Tree, limit: nat, strict: bool)
    requires d <= |text| && Ordered(text, t, limit, strict) && forall y :: y in Places(t) ==> y >= d
    ensures Ordered(text[d..], Shifted(t, d), limit, strict)
  {
    hide Below;
    if t.Node? {
      PutPlaces(t, true, Leaf);
      assert t.at in Places(t);
      OrderedShifts(text, d, t.left, limit, strict);
      OrderedShifts(text, d, t.right, limit, strict);
      SideShifts(text, d, t, limit, strict, false);
      SideShifts(text, d, t, limit, strict, true);
      ApartShifts(t, d);
    }
  }

  // ---------- Renormalization ----------

  /** MatchFinder_Normalize3 of one reference. */
  function Normal(ref: nat, sub: nat): nat { if ref <= sub then 0 else ref - sub }

  function Normals(s: seq<nat>, sub: nat): (r: seq<nat>)
    ensures |r| == |s| && forall i :: 0 <= i < |s| ==> r[i] == Normal(s[i], sub)
  {
    seq(|s|, i requires 0 <= i < |s| => Normal(s[i], sub))
  }

  function Lower(w: Window, sub: nat): Window
    requires sub + w.size <= w.pos
  {
    w.(pos := w.pos - sub)
  }

  /** A reference in the window keeps its distance, any other stays outside. */
  lemma NormalRef(w: Window, sub: nat, ref: nat)
    requires WindowOk(w) && sub + w.size <= w.pos && ref <= w.pos
    ensures WindowOk(Lower(w, sub)) && Live(Lower(w, sub), Normal(ref, sub)) == Live(w, ref)
    ensures Live(w, ref) ==>
              && Place(Lower(w, sub), Normal(ref, sub)) == Place(w, ref)
              && Slot(Lower(w, sub), Normal(ref, sub)) == Slot(w, ref)
              && sub < ref
  {
  }

  /** So renormalization cannot be seen in a tree. */
  lemma {:induction false} TreeNormal(son: seq<nat>, w: Window, sub: nat, ref: nat)
    requires WindowOk(w) && |son| == 2 * w.size && sub + w.size <= w.pos && ref <= w.pos
    ensures WindowOk(Lower(w, sub))
    ensures TreeOf(Normals(son, sub), Lower(w, sub), Normal(ref, sub)) == TreeOf(son, w, ref)
    decreases ref
  {
    hide TreeAt, CellTree, Live, Owner, Slot, Normal;
    NormalRef(w, sub, ref);
    TreeStep(son, w, ref, |son|, Leaf);
    TreeStep(Normals(son, sub), Lower(w, sub), Normal(ref, sub), |son|, Leaf);
    if IsNode(w, ref) {
      CellNormal(son, w, sub, ref, false);
      CellNormal(son, w, sub, ref, true);
    }
  }

  lemma CellNormal(son: seq<nat>, w: Window, sub: nat, ref: nat, right: bool)
    requires WindowOk(w) && |son| == 2 * w.size && sub + w.size <= w.pos && ref <= w.pos && IsNode(w, ref)
    requires WindowOk(Lower(w, sub))
    ensures var i := ChildCell(w, ref, right);
            CellTree(Normals(son, sub), Lower(w, sub), i, Normal(ref, sub), |son|, Leaf) == CellTree(son, w, i, ref, |son|, Leaf)
    decreases ref, 0
  {
    hide TreeAt, CellTree, Live, Owner, Slot, Normal;
    var i := ChildCell(w, ref, right);
    CellStep(son, w, i, ref, |son|, Leaf);
    CellStep(Normals(son, sub), Lower(w, sub), i, Normal(ref, sub), |son|, Leaf);
    NormalRef(w, sub, ref);
    NormalOrder(son[i], ref, sub);
    if son[i] < ref {
      TreeNormal(son, w, sub, son[i]);
    }
  }

  lemma NormalOrder(a: nat, b: nat, sub: nat)
    requires sub < b
    ensures Normal(a, sub) < Normal(b, sub) <==> a < b
  {
  }

  // ---------- All tables ----------

  /** What is fixed for a match finder: the table crc, and hashMask + 1. */
  datatype Setup = Setup(crc: seq<nat>, size4: nat)

  /** The entry h of the first table: while it is in the window, a position with this hash value. */
  ghost predicate Hit2(text: seq<byte>, w: Window, s: Setup, ref: nat, h: nat) {
    && ref < w.pos
    && (Live(w, ref) ==>
          Place(w, ref) >= 0 && Hashable(text, s.crc, Place(w, ref)) && Hash2(text, s.crc, Place(w, ref)) == h)
  }

  /** The same for the second table. */
  ghost predicate Hit3(text: seq<byte>, w: Window, s: Setup, ref: nat, h: nat) {
    && ref < w.pos
    && (Live(w, ref) ==>
          Place(w, ref) >= 0 && Hashable(text, s.crc, Place(w, ref)) && Hash3(text, s.crc, Place(w, ref)) == h)
  }

  /** All places of the tree have the hash value h. */
  ghost predicate Hashed(text: seq<byte>, s: Setup, t: Tree, h: nat) {
    s.size4 > 0 && forall y :: y in Places(t) ==> Hashable(text, s.crc, y) && Hash4(text, s.crc, s.size4, y) == h
  }

  /** The entry h of the main table: the root of a search tree of earlier positions with this hash value. */
  ghost predicate Rooted(text: seq<byte>, w: Window, s: Setup, son: seq<nat>, ref: nat, h: nat, limit: nat)
    requires WindowOk(w) && |son| == 2 * w.size
  {
    && ref < w.pos
    && Ordered(text, TreeOf(son, w, ref), limit, false) && Room(text, TreeOf(son, w, ref), w.c, limit)
    && Hashed(text, s, TreeOf(son, w, ref), h)
  }

  function Cell2(hash: seq<nat>, h: nat): nat
    requires h < HASH2_SIZE <= |hash|
  {
    hash[h]
  }

  function Cell3(hash: seq<nat>, h: nat): nat
    requires h < HASH3_SIZE && FIX4 <= |hash|
  {
    hash[HASH2_SIZE + h]
  }

  function Cell4(hash: seq<nat>, h: nat): nat
    requires FIX4 + h < |hash|
  {
    hash[FIX4 + h]
  }

  ghost predicate Sizes(w: Window, s: Setup, hash: seq<nat>, son: seq<nat>) {
    && WindowOk(w) && |son| == 2 * w.size && |s.crc| == 0x100 && s.size4 > 0 && |hash| == FIX4 + s.size4
  }

  ghost predicate Tables(text: seq<byte>, w: Window, s: Setup, hash: seq<nat>, son: seq<nat>, limit: nat) {
    && Sizes(w, s, hash, son) && w.c + limit <= |text|
    && (forall h: nat :: h < HASH2_SIZE ==> Hit2(text, w, s, Cell2(hash, h), h))
    && (forall h: nat :: h < HASH3_SIZE ==> Hit3(text, w, s, Cell3(hash, h), h))
    && (forall h: nat :: h < s.size4 ==> Rooted(text, w, s, son, Cell4(hash, h), h, limit))
  }

  // ---------- To the next position ----------

  lemma HitsMoveOn(text: seq<byte>, w: Window, s: Setup, ref: nat, h: nat)
    requires WindowOk(w)
    ensures Hit2(text, w, s, ref, h) ==> Hit2(text, Next(w), s, ref, h)
    ensures Hit3(text, w, s, ref, h) ==> Hit3(text, Next(w), s, ref, h)
  {
    hide Hash2, Hash3, Hashable, Live;
    if ref < w.pos {
      NextRef(w, ref);
    }
  }

  /** The position just inserted. */
  lemma HitsNew(text: seq<byte>, w: Window, s: Setup)
    requires WindowOk(w) && Hashable(text, s.crc, w.c)
    ensures Hit2(text, Next(w), s, w.pos, Hash2(text, s.crc, w.c))
    ensures Hit3(text, Next(w), s, w.pos, Hash3(text, s.crc, w.c))
  {
    hide Hash2, Hash3, Hashable;
  }

  lemma RootMovesOn(text: seq<byte>, w: Window, s: Setup, son: seq<nat>, ref: nat, h: nat, limit: nat, less: nat)
    requires WindowOk(w) && |son| == 2 * w.size && ref <= w.pos && less <= limit && w.c + 1 + less <= |text|
    requires var t := TreeOf(son, w, ref);
             Ordered(text, t, limit, false) && Hashed(text, s, t, h) && forall y :: y in Places(t) ==> y <= w.c
    ensures Rooted(text, Next(w), s, son, ref, h, less)
  {
    hide TreeOf, Ordered, Places, Pruned, Hashable;
    var t := TreeOf(son, w, ref);
    TreeMovesOn(son, w, ref);
    PrunedPlaces(text, t, w.c + 2 - w.size, limit, false);
    OrderedShorter(text, Pruned(t, w.c + 2 - w.size), limit, less, false);
  }

  lemma NotRootedElsewhere(text: seq<byte>, s: Setup, t: Tree, h: nat, u: Tree, k: nat)
    requires Hashed(text, s, t, h) && Hashed(text, s, u, k) && h != k
    ensures Places(t) !! Places(u)
  {
    hide Places, Hash4;
  }

  /** A root that is left alone while c is inserted below another one. */
  lemma OtherRoot(text: seq<byte>, w: Window, s: Setup, son: seq<nat>, ref: nat, h: nat, limit: nat, less: nat,
      son': seq<nat>, t: Tree, k: nat)
    requires WindowOk(w) && |son| == |son'| == 2 * w.size && less <= limit && w.c + 1 + less <= |text|
    requires Rooted(text, w, s, son, ref, h, limit) && Hashed(text, s, t, k) && h != k
    requires forall j :: 0 <= j < |son| && Owner(w, j) !in Places(t) + {w.c} ==> son'[j] == son[j]
    ensures Rooted(text, Next(w), s, son', ref, h, less)
  {
    hide TreeOf, Ordered, Places, Hashable, Owner;
    var u := TreeOf(son, w, ref);
    NotRootedElsewhere(text, s, u, h, t, k);
    TreeSame(son, son', w, ref);
    RootMovesOn(text, w, s, son', ref, h, limit, less);
  }

  /** The root that becomes c. */
  lemma NewRoot(text: seq<byte>, w: Window, s: Setup, son: seq<nat>, ref: nat, h: nat, limit: nat, less: nat, cut: nat)
    requires WindowOk(w) && |son| == 2 * w.size && less <= limit && w.c + 1 + less <= |text|
    requires Rooted(text, w, s, son, ref, h, limit) && w.c + limit <= |text|
    requires Hashable(text, s.crc, w.c) && s.size4 > 0 && Hash4(text, s.crc, s.size4, w.c) == h
    ensures var r := Walk(text, w, son, limit, ref, 2 * w.cyc + 1, 2 * w.cyc, cut);
            Rooted(text, Next(w), s, r, w.pos, h, less)
  {
    hide TreeOf, Ordered, Places, Owner, Walk, Insert, Hash4;
    var t := TreeOf(son, w, ref);
    RootInserted(text, w, son, limit, ref, cut, 0);
    RootedOrdered(text, w.c, limit, t, cut, 0, false);
    var r := Walk(text, w, son, limit, ref, 2 * w.cyc + 1, 2 * w.cyc, cut);
    RootMovesOn(text, w, s, r, w.pos, h, limit, less);
  }

  /** The hash tables once c is entered. */
  function Entered(text: seq<byte>, w: Window, s: Setup, hash: seq<nat>): (r: seq<nat>)
    requires Hashable(text, s.crc, w.c) && s.size4 > 0 && |hash| == FIX4 + s.size4
    ensures |r| == |hash|
  {
    hash[Hash2(text, s.crc, w.c) := w.pos]
        [HASH2_SIZE + Hash3(text, s.crc, w.c) := w.pos]
        [FIX4 + Hash4(text, s.crc, s.size4, w.c) := w.pos]
  }

  /** The array son once c is inserted. */
  function Grown(text: seq<byte>, w: Window, s: Setup, hash: seq<nat>, son: seq<nat>, limit: nat, cut: nat): (r: seq<nat>)
    requires Hashable(text, s.crc, w.c) && Sizes(w, s, hash, son) && w.c + limit <= |text|
    ensures |r| == |son|
  {
    Walk(text, w, son, limit, Cell4(hash, Hash4(text, s.crc, s.size4, w.c)), 2 * w.cyc + 1, 2 * w.cyc, cut)
  }

  lemma EnteredAt(text: seq<byte>, w: Window, s: Setup, hash: seq<nat>)
    requires Hashable(text, s.crc, w.c) && s.size4 > 0 && |hash| == FIX4 + s.size4
    ensures var r := Entered(text, w, s, hash);
            && (forall h: nat :: h < HASH2_SIZE ==> Cell2(r, h) == if h == Hash2(text, s.crc, w.c) then w.pos else Cell2(hash, h))
            && (forall h: nat :: h < HASH3_SIZE ==>
                  Cell3(r, h) == if h == Hash3(text, s.crc, w.c) then w.pos else Cell3(hash, h))
            && (forall h: nat :: h < s.size4 ==>
                  Cell4(r, h) == if h == Hash4(text, s.crc, s.size4, w.c) then w.pos else Cell4(hash, h))
  {
    hide Hash2, Hash3, Hash4, Hashable;
  }

  /** Entering a position, and moving on, keeps the tables. */
  lemma TablesEnter(text: seq<byte>, w: Window, s: Setup, hash: seq<nat>, son: seq<nat>, limit: nat, less: nat, cut: nat)
    requires Tables(text, w, s, hash, son, limit) && limit >= 4 && less <= limit && w.c + 1 + less <= |text|
    ensures Hashable(text, s.crc, w.c)
    ensures Tables(text, Next(w), s, Entered(text, w, s, hash), Grown(text, w, s, hash, son, limit, cut), less)
  {
    hide Hash2, Hash3, Hash4, Hit2, Hit3, Rooted, Walk, Next, Entered, Hashed;
    var r := Entered(text, w, s, hash);
    var g := Grown(text, w, s, hash, son, limit, cut);
    var k := Hash4(text, s.crc, s.size4, w.c);
    var root := Cell4(hash, k);
    NextSizes(w, s, hash, son, r, g);
    EnteredAt(text, w, s, hash);
    HitsNew(text, w, s);
    forall h: nat | h < HASH2_SIZE
      ensures Hit2(text, Next(w), s, Cell2(r, h), h)
    {
      HitsMoveOn(text, w, s, Cell2(hash, h), h);
    }
    forall h: nat | h < HASH3_SIZE
      ensures Hit3(text, Next(w), s, Cell3(r, h), h)
    {
      HitsMoveOn(text, w, s, Cell3(hash, h), h);
    }
    assert Rooted(text, w, s, son, root, k, limit);
    RootedTree(text, w, s, son, root, k, limit);
    RootInserted(text, w, son, limit, root, cut, 0);
    NewRoot(text, w, s, son, root, k, limit, less, cut);
    forall h: nat | h < s.size4
      ensures Rooted(text, Next(w), s, g, Cell4(r, h), h, less)
    {
      if h != k {
        OtherRoot(text, w, s, son, Cell4(hash, h), h, limit, less, g, TreeOf(son, w, root), k);
      }
    }
  }

  lemma RootedTree(text: seq<byte>, w: Window, s: Setup, son: seq<nat>, ref: nat, h: nat, limit: nat)
    requires WindowOk(w) && |son| == 2 * w.size && Rooted(text, w, s, son, ref, h, limit)
    ensures ref < w.pos && Ordered(text, TreeOf(son, w, ref), limit, false) && Room(text, TreeOf(son, w, ref), w.c, limit)
    ensures Hashed(text, s, TreeOf(son, w, ref), h)
  {
  }

  lemma NextSizes(w: Window, s: Setup, hash: seq<nat>, son: seq<nat>, hash': seq<nat>, son': seq<nat>)
    requires Sizes(w, s, hash, son) && |hash'| == |hash| && |son'| == |son|
    ensures Sizes(Next(w), s, hash', son') && Next(w).c == w.c + 1
  {
  }

  /** So does passing a position that is too near the end to be entered. */
  lemma TablesPass(text: seq<byte>, w: Window, s: Setup, hash: seq<nat>, son: seq<nat>, limit: nat, less: nat)
    requires Tables(text, w, s, hash, son, limit) && less <= limit && w.c + 1 + less <= |text|
    ensures Tables(text, Next(w), s, hash, son, less)
  {
    hide Hit2, Hit3, Rooted, Next, Hashed, Ordered, Places;
    NextSizes(w, s, hash, son, hash, son);
    forall h: nat | h < HASH2_SIZE
      ensures Hit2(text, Next(w), s, Cell2(hash, h), h)
    {
      HitsMoveOn(text, w, s, Cell2(hash, h), h);
    }
    forall h: nat | h < HASH3_SIZE
      ensures Hit3(text, Next(w), s, Cell3(hash, h), h)
    {
      HitsMoveOn(text, w, s, Cell3(hash, h), h);
    }
    forall h: nat | h < s.size4
      ensures Rooted(text, Next(w), s, son, Cell4(hash, h), h, less)
    {
      RootedTree(text, w, s, son, Cell4(hash, h), h, limit);
      RootMovesOn(text, w, s, son, Cell4(hash, h), h, limit, less);
    }
  }

  // ---------- More text ----------

  lemma HashesMore(text: seq<byte>, more: seq<byte>, s: Setup, y: nat)
    requires Hashable(text, s.crc, y) && s.size4 > 0
    ensures Hashable(text + more, s.crc, y)
    ensures Hash2(text + more, s.crc, y) == Hash2(text, s.crc, y)
    ensures Hash3(text + more, s.crc, y) == Hash3(text, s.crc, y)
    ensures Hash4(text + more, s.crc, s.size4, y) == Hash4(text, s.crc, s.size4, y)
  {
    hide Hash2, Hash3, Hash4;
    assert (text + more)[y..y + 4] == text[y..y + 4];
    HashMoves(text, s.crc, s.size4, y, text + more, y);
  }

  lemma HitsMore(text: seq<byte>, more: seq<byte>, w: Window, s: Setup, ref: nat, h: nat)
    requires s.size4 > 0
    ensures Hit2(text, w, s, ref, h) ==> Hit2(text + more, w, s, ref, h)
    ensures Hit3(text, w, s, ref, h) ==> Hit3(text + more, w, s, ref, h)
  {
    hide Hash2, Hash3, Hash4, Hashable;
    if Live(w, ref) && Place(w, ref) >= 0 && Hashable(text, s.crc, Place(w, ref)) {
      HashesMore(text, more, s, Place(w, ref));
    }
  }

  lemma RootMore(text: seq<byte>, more: seq<byte>, w: Window, s: Setup, son: seq<nat>, ref: nat, h: nat, limit: nat)
    requires WindowOk(w) && |son| == 2 * w.size && Rooted(text, w, s, son, ref, h, limit)
    ensures Rooted(text + more, w, s, son, ref, h, limit)
  {
    hide TreeOf, Ordered, Places, Hash4, Hashable;
    var t := TreeOf(son, w, ref);
    OrderedMore(text, more, t, limit, false);
    forall y | y in Places(t)
      ensures Hashable(text + more, s.crc, y) && Hash4(text + more, s.crc, s.size4, y) == h
    {
      HashesMore(text, more, s, y);
    }
  }

  /** Reading more keeps the tables. */
  lemma TablesMore(text: seq<byte>, more: seq<byte>, w: Window, s: Setup, hash: seq<nat>, son: seq<nat>, limit: nat)
    requires Tables(text, w, s, hash, son, limit)
    ensures Tables(text + more, w, s, hash, son, limit)
  {
    hide Hit2, Hit3, Rooted, Hashed, Ordered, Places;
    forall h: nat | h < HASH2_SIZE
      ensures Hit2(text + more, w, s, Cell2(hash, h), h)
    {
      HitsMore(text, more, w, s, Cell2(hash, h), h);
    }
    forall h: nat | h < HASH3_SIZE
      ensures Hit3(text + more, w, s, Cell3(hash, h), h)
    {
      HitsMore(text, more, w, s, Cell3(hash, h), h);
    }
    forall h: nat | h < s.size4
      ensures Rooted(text + more, w, s, son, Cell4(hash, h), h, limit)
    {
      RootMore(text, more, w, s, son, Cell4(hash, h), h, limit);
    }
  }

  // ---------- The block moves ----------

  lemma HashesShift(text: seq<byte>, d: nat, s: Setup, y: nat)
    requires Hashable(text, s.crc, y) && s.size4 > 0 && d <= y
    ensures Hashable(text[d..], s.crc, y - d)
    ensures Hash2(text[d..], s.crc, y - d) == Hash2(text, s.crc, y)
    ensures Hash3(text[d..], s.crc, y - d) == Hash3(text, s.crc, y)
    ensures Hash4(text[d..], s.crc, s.size4, y - d) == Hash4(text, s.crc, s.size4, y)
  {
    hide Hash2, Hash3, Hash4;
    assert text[d..][y - d..y - d + 4] == text[y..y + 4];
    HashMoves(text, s.crc, s.size4, y, text[d..], y - d);
  }

  lemma HitsShift(text: seq<byte>, d: nat, w: Window, s: Setup, ref: nat, h: nat)
    requires WindowOk(w) && s.size4 > 0 && d + w.size <= w.c && d <= |text|
    ensures Hit2(text, w, s, ref, h) ==> Hit2(text[d..], Earlier(w, d), s, ref, h)
    ensures Hit3(text, w, s, ref, h) ==> Hit3(text[d..], Earlier(w, d), s, ref, h)
  {
    hide Hash2, Hash3, Hash4, Hashable;
    if Live(w, ref) && Place(w, ref) >= 0 && Hashable(text, s.crc, Place(w, ref)) {
      HashesShift(text, d, s, Place(w, ref));
    }
  }

  lemma {:induction false} LivePlaces(son: seq<nat>, w: Window, ref: nat)
    requires WindowOk(w) && |son| == 2 * w.size
    ensures forall y :: y in Places(TreeOf(son, w, ref)) ==> y > w.c - w.size
    decreases ref
  {
    hide TreeAt, CellTree, Owner, Slot, Places;
    TreeStep(son, w, ref, |son|, Leaf);
    if IsNode(w, ref) {
      var i, j := ChildCell(w, ref, false), ChildCell(w, ref, true);
      CellStep(son, w, i, ref, |son|, Leaf);
      CellStep(son, w, j, ref, |son|, Leaf);
      if son[i] < ref {
        LivePlaces(son, w, son[i]);
      }
      if son[j] < ref {
        LivePlaces(son, w, son[j]);
      }
      PutPlaces(TreeOf(son, w, ref), true, Leaf);
    }
    BrokenOnly(w);
  }

  lemma BrokenOnly(w: Window)
    ensures Places(Broken(w)) == {w.c + 1} && Places(Leaf) == {}
  {
    assert Places(Leaf) == {};
  }

  lemma RootShifts(text: seq<byte>, d: nat, w: Window, s: Setup, son: seq<nat>, ref: nat, h: nat, limit: nat)
    requires WindowOk(w) && |son| == 2 * w.size && Rooted(text, w, s, son, ref, h, limit) && d + w.size <= w.c
    ensures WindowOk(Earlier(w, d)) && d <= |text| && Rooted(text[d..], Earlier(w, d), s, son, ref, h, limit)
  {
    hide TreeOf, Ordered, Places, Hash4, Hashable, Shifted;
    var t := TreeOf(son, w, ref);
    LivePlaces(son, w, ref);
    TreeShifts(son, w, d, ref);
    OrderedShifts(text, d, t, limit, false);
    ShiftedPlaces(t, d);
    forall z: nat | z in Places(Shifted(t, d))
      ensures z < w.c - d && Hashable(text[d..], s.crc, z) && Hash4(text[d..], s.crc, s.size4, z) == h
    {
      assert Was(t, d, z);
      HashesShift(text, d, s, z + d);
    }
  }

  /** Moving the block keeps the tables. */
  lemma TablesShift(text: seq<byte>, d: nat, w: Window, s: Setup, hash: seq<nat>, son: seq<nat>, limit: nat)
    requires Tables(text, w, s, hash, son, limit) && d + w.size <= w.c
    ensures d <= |text| && Tables(text[d..], Earlier(w, d), s, hash, son, limit)
  {
    hide Hit2, Hit3, Rooted, Hashed, Ordered, Places;
    var v := Earlier(w, d);
    forall h: nat | h < HASH2_SIZE
      ensures Hit2(text[d..], v, s, Cell2(hash, h), h)
    {
      HitsShift(text, d, w, s, Cell2(hash, h), h);
    }
    forall h: nat | h < HASH3_SIZE
      ensures Hit3(text[d..], v, s, Cell3(hash, h), h)
    {
      HitsShift(text, d, w, s, Cell3(hash, h), h);
    }
    forall h: nat | h < s.size4
      ensures Rooted(text[d..], v, s, son, Cell4(hash, h), h, limit)
    {
      RootShifts(text, d, w, s, son, Cell4(hash, h), h, limit);
    }
  }

  // ---------- The references are renormalized ----------

  lemma HitsNormal(text: seq<byte>, w: Window, s: Setup, sub: nat, ref: nat, h: nat)
    requires WindowOk(w) && sub + w.size <= w.pos
    ensures Hit2(text, w, s, ref, h) ==> Hit2(text, Lower(w, sub), s, Normal(ref, sub), h)
    ensures Hit3(text, w, s, ref, h) ==> Hit3(text, Lower(w, sub), s, Normal(ref, sub), h)
  {
    hide Hash2, Hash3, Hashable;
  }

  lemma RootNormal(text: seq<byte>, w: Window, s: Setup, son: seq<nat>, sub: nat, ref: nat, h: nat, limit: nat)
    requires WindowOk(w) && |son| == 2 * w.size && Rooted(text, w, s, son, ref, h, limit) && sub + w.size <= w.pos
    ensures WindowOk(Lower(w, sub)) && Rooted(text, Lower(w, sub), s, Normals(son, sub), Normal(ref, sub), h, limit)
  {
    hide TreeOf, Ordered, Places, Hashed;
    TreeNormal(son, w, sub, ref);
  }

  /** Renormalization keeps the tables, over the same places. */
  lemma TablesNormal(text: seq<byte>, w: Window, s: Setup, hash: seq<nat>, son: seq<nat>, sub: nat, limit: nat)
    requires Tables(text, w, s, hash, son, limit) && sub + w.size <= w.pos
    ensures Tables(text, Lower(w, sub), s, Normals(hash, sub), Normals(son, sub), limit)
  {
    hide Hit2, Hit3, Rooted, Hashed, Ordered, Places, Normal;
    var v := Lower(w, sub);
    var r := Normals(hash, sub);
    forall h: nat | h < HASH2_SIZE
      ensures Hit2(text, v, s, Cell2(r, h), h)
    {
      HitsNormal(text, w, s, sub, Cell2(hash, h), h);
    }
    forall h: nat | h < HASH3_SIZE
      ensures Hit3(text, v, s, Cell3(r, h), h)
    {
      HitsNormal(text, w, s, sub, Cell3(hash, h), h);
    }
    forall h: nat | h < s.size4
      ensures Rooted(text, v, s, Normals(son, sub), Cell4(r, h), h, limit)
    {
      RootNormal(text, w, s, son, sub, Cell4(hash, h), h, limit);
    }
  }

  // ---------- Empty tables ----------

  /** MatchFinder_Init: empty hash tables, and son as it may be. */
  lemma TablesEmpty(text: seq<byte>, s: Setup, hash: seq<nat>, son: seq<nat>, size: nat, limit: nat)
    requires var w := Window(size, 0, size, 0); size > 0 && Sizes(w, s, hash, son) && limit <= |text|
    requires forall i :: 0 <= i < |hash| ==> hash[i] == 0
    ensures Tables(text, Window(size, 0, size, 0), s, hash, son, limit)
  {
    hide Hash2, Hash3, Hash4;
    var w := Window(size, 0, size, 0);
    EmptyRef(son, w, 0);
  }
}
