/** The trees of LzFind.c as they are kept in the cyclic array son. */
module MatchArray {
  import opened Bytes
  import opened MatchTree

  /**
   The window while the suffix at c of the text is inserted: pos is its reference, cyc its place
   in the cyclic array, which has room for size positions.
   */
  datatype Window = Window(pos: nat, cyc: nat, size: nat, c: nat)

  predicate WindowOk(w: Window) {
    w.cyc < w.size <= w.pos
  }

  /** The reference is to a position still in the window. */
  predicate Live(w: Window, ref: nat) {
    ref <= w.pos && w.pos - ref < w.size
  }

  /** _cyclicBufferPos - delta + (delta > _cyclicBufferPos ? _cyclicBufferSize : 0) */
  function Slot(w: Window, ref: nat): (s: nat)
    requires WindowOk(w) && Live(w, ref)
    ensures s < w.size
  {
    var delta := w.pos - ref;
    if delta > w.cyc then w.cyc - delta + w.size else w.cyc - delta
  }

  /** The place in the text that a reference stands for. */
  function Place(w: Window, ref: nat): int {
    w.c - (w.pos - ref)
  }

  /** The place whose pair of children cell i belongs to. */
  function Owner(w: Window, i: nat): int {
    var s := i / 2;
    if s > w.cyc then w.c - (w.cyc - s + w.size) else w.c - (w.cyc - s)
  }

  lemma OwnerOfSlot(w: Window, ref: nat)
    requires WindowOk(w) && Live(w, ref)
    ensures Owner(w, 2 * Slot(w, ref)) == Owner(w, 2 * Slot(w, ref) + 1) == Place(w, ref)
  {
  }

  // ---------- The tree below a reference, and below a cell ----------

  /** Stands for a reference that is not older than its parent, or not in the text: no place can be like this. */
  function Broken(w: Window): Tree {
    Node(Leaf, w.c + 1, Leaf)
  }

  /** The tree of ref, where the cell hole is taken to hold the tree fill. */
  function TreeAt(son: seq<nat>, w: Window, ref: nat, hole: nat, fill: Tree): Tree
    requires WindowOk(w) && |son| == 2 * w.size
    decreases ref, 1
  {
    if !Live(w, ref) then Leaf
    else if Place(w, ref) < 0 then Broken(w)
    else
      var i := 2 * Slot(w, ref);
      Node(CellTree(son, w, i, ref, hole, fill), Place(w, ref), CellTree(son, w, i + 1, ref, hole, fill))
  }

  /** The tree that cell i holds; its references are older than bound. */
  function CellTree(son: seq<nat>, w: Window, i: nat, bound: nat, hole: nat, fill: Tree): Tree
    requires WindowOk(w) && |son| == 2 * w.size && i < |son|
    decreases bound, 0
  {
    if i == hole then fill else if son[i] < bound then TreeAt(son, w, son[i], hole, fill) else Broken(w)
  }

  /** The tree of ref as it stands. */
  function TreeOf(son: seq<nat>, w: Window, ref: nat): Tree
    requires WindowOk(w) && |son| == 2 * w.size
  {
    TreeAt(son, w, ref, |son|, Leaf)
  }

  predicate IsNode(w: Window, ref: nat) {
    Live(w, ref) && Place(w, ref) >= 0
  }

  /** One step down the tree. */
  lemma TreeStep(son: seq<nat>, w: Window, ref: nat, hole: nat, fill: Tree)
    requires WindowOk(w) && |son| == 2 * w.size
    ensures !IsNode(w, ref) ==> TreeAt(son, w, ref, hole, fill) == if Live(w, ref) then Broken(w) else Leaf
    ensures IsNode(w, ref) ==>
              var i := 2 * Slot(w, ref);
              && Place(w, ref) >= 0 && Owner(w, i) == Owner(w, i + 1) == Place(w, ref)
              && TreeAt(son, w, ref, hole, fill) ==
                 Node(CellTree(son, w, i, ref, hole, fill), Place(w, ref), CellTree(son, w, i + 1, ref, hole, fill))
  {
  }

  lemma CellStep(son: seq<nat>, w: Window, i: nat, bound: nat, hole: nat, fill: Tree)
    requires WindowOk(w) && |son| == 2 * w.size && i < |son|
    ensures CellTree(son, w, i, bound, hole, fill) ==
            if i == hole then fill else if son[i] < bound then TreeAt(son, w, son[i], hole, fill) else Broken(w)
  {
  }

  /** Places of the tree outside the hole. */
  ghost function Outer(son: seq<nat>, w: Window, ref: nat, hole: nat): set<nat>
    requires WindowOk(w) && |son| == 2 * w.size
  {
    Places(TreeAt(son, w, ref, hole, Leaf))
  }

  ghost function CellOuter(son: seq<nat>, w: Window, i: nat, bound: nat, hole: nat): set<nat>
    requires WindowOk(w) && |son| == 2 * w.size && i < |son|
  {
    Places(CellTree(son, w, i, bound, hole, Leaf))
  }

  lemma OuterStep(son: seq<nat>, w: Window, ref: nat, hole: nat)
    requires WindowOk(w) && |son| == 2 * w.size
    ensures IsNode(w, ref) ==>
              var i := 2 * Slot(w, ref);
              && Place(w, ref) >= 0
              && Outer(son, w, ref, hole) ==
                 CellOuter(son, w, i, ref, hole) + {Place(w, ref) as nat} + CellOuter(son, w, i + 1, ref, hole)
  {
    TreeStep(son, w, ref, hole, Leaf);
    hide TreeAt, CellTree, Slot, Live, Owner;
  }

  lemma CellOuterStep(son: seq<nat>, w: Window, i: nat, bound: nat, hole: nat)
    requires WindowOk(w) && |son| == 2 * w.size && i < |son|
    ensures i == hole ==> CellOuter(son, w, i, bound, hole) == {}
    ensures i != hole && son[i] < bound ==> CellOuter(son, w, i, bound, hole) == Outer(son, w, son[i], hole)
  {
    CellStep(son, w, i, bound, hole, Leaf);
    hide TreeAt, CellTree, Slot, Live, Owner;
  }

  /** A cell that belongs to no place of the tree may be changed. */
  lemma {:induction false} TreeChange(son: seq<nat>, w: Window, ref: nat, hole: nat, fill: Tree, j: nat, v: nat)
    requires WindowOk(w) && |son| == 2 * w.size && j < |son|
    requires Owner(w, j) !in Outer(son, w, ref, hole)
    ensures TreeAt(son[j := v], w, ref, hole, fill) == TreeAt(son, w, ref, hole, fill)
    decreases ref, 1
  {
    hide TreeAt, CellTree, Live, Outer, CellOuter, Owner, Slot;
    TreeStep(son, w, ref, hole, fill);
    TreeStep(son[j := v], w, ref, hole, fill);
    OuterStep(son, w, ref, hole);
    if IsNode(w, ref) {
      var i := 2 * Slot(w, ref);
      CellChange(son, w, i, ref, hole, fill, j, v);
      CellChange(son, w, i + 1, ref, hole, fill, j, v);
    }
  }

  lemma CellChange(son: seq<nat>, w: Window, i: nat, bound: nat, hole: nat, fill: Tree, j: nat, v: nat)
    requires WindowOk(w) && |son| == 2 * w.size && j < |son| && i < |son| && i != j
    requires Owner(w, j) !in CellOuter(son, w, i, bound, hole)
    ensures CellTree(son[j := v], w, i, bound, hole, fill) == CellTree(son, w, i, bound, hole, fill)
    decreases bound, 0
  {
    hide TreeAt, CellTree, Live, Outer, CellOuter, Owner, Slot;
    CellStep(son, w, i, bound, hole, fill);
    CellStep(son[j := v], w, i, bound, hole, fill);
    CellOuterStep(son, w, i, bound, hole);
    if i != hole && son[i] < bound {
      TreeChange(son, w, son[i], hole, fill, j, v);
    }
  }

  // ---------- Filling the hole ----------

  /** The next hole is a cell of a place outside the tree, or none. */
  predicate HoleOutside(son: seq<nat>, w: Window, outer: set<nat>, q: nat)
    requires WindowOk(w) && |son| == 2 * w.size
  {
    q == |son| || Owner(w, q) !in outer
  }

  /**
   The hole p receives the reference x: the tree is then the one in which p held x's tree, with
   the hole q that x's tree has.
   */
  lemma {:induction false} TreeFill(son: seq<nat>, w: Window, ref: nat, p: nat, x: nat, q: nat, fill: Tree, xTree: Tree)
    requires WindowOk(w) && |son| == 2 * w.size && p < |son| && q <= |son|
    requires xTree == TreeAt(son[p := x], w, x, q, fill) && Place(w, x) < Owner(w, p)
    requires HoleOutside(son, w, Outer(son, w, ref, p), q)
    ensures TreeAt(son[p := x], w, ref, q, fill) == TreeAt(son, w, ref, p, xTree)
    decreases ref, 1
  {
    hide TreeAt, CellTree, Live, Outer, CellOuter, Owner, Slot;
    TreeStep(son, w, ref, p, xTree);
    TreeStep(son[p := x], w, ref, q, fill);
    OuterStep(son, w, ref, p);
    if IsNode(w, ref) {
      var i := 2 * Slot(w, ref);
      CellFill(son, w, i, ref, p, x, q, fill, xTree);
      CellFill(son, w, i + 1, ref, p, x, q, fill, xTree);
    }
  }

  lemma CellFill(son: seq<nat>, w: Window, i: nat, bound: nat, p: nat, x: nat, q: nat, fill: Tree, xTree: Tree)
    requires WindowOk(w) && |son| == 2 * w.size && p < |son| && q <= |son| && i < |son|
    requires xTree == TreeAt(son[p := x], w, x, q, fill) && Place(w, x) < Owner(w, p)
    requires HoleOutside(son, w, CellOuter(son, w, i, bound, p), q) && i != q && Owner(w, i) == Place(w, bound)
    ensures CellTree(son[p := x], w, i, bound, q, fill) == CellTree(son, w, i, bound, p, xTree)
    decreases bound, 0
  {
    hide TreeAt, CellTree, Live, Outer, CellOuter, Owner, Slot;
    CellStep(son, w, i, bound, p, xTree);
    CellStep(son[p := x], w, i, bound, q, fill);
    CellOuterStep(son, w, i, bound, p);
    if i != p && son[i] < bound {
      TreeFill(son, w, son[i], p, x, q, fill, xTree);
    }
  }

  /** What a tree put into the hole adds to the places. */
  lemma {:induction false} TreeFilledPlaces(son: seq<nat>, w: Window, ref: nat, p: nat, fill: Tree)
    requires WindowOk(w) && |son| == 2 * w.size
    ensures Places(TreeAt(son, w, ref, p, fill)) <= Outer(son, w, ref, p) + Places(fill)
    ensures Outer(son, w, ref, p) <= Places(TreeAt(son, w, ref, p, fill))
    decreases ref, 1
  {
    hide TreeAt, CellTree, Live, Outer, CellOuter, Owner, Slot;
    TreeStep(son, w, ref, p, fill);
    TreeStep(son, w, ref, p, Leaf);
    OuterIs(son, w, ref, p);
    if IsNode(w, ref) {
      var i := 2 * Slot(w, ref);
      OuterStep(son, w, ref, p);
      CellFilledPlaces(son, w, i, ref, p, fill);
      CellFilledPlaces(son, w, i + 1, ref, p, fill);
    }
  }

  lemma CellFilledPlaces(son: seq<nat>, w: Window, i: nat, bound: nat, p: nat, fill: Tree)
    requires WindowOk(w) && |son| == 2 * w.size && i < |son|
    ensures Places(CellTree(son, w, i, bound, p, fill)) <= CellOuter(son, w, i, bound, p) + Places(fill)
    ensures CellOuter(son, w, i, bound, p) <= Places(CellTree(son, w, i, bound, p, fill))
    decreases bound, 0
  {
    hide TreeAt, CellTree, Live, Outer, CellOuter, Owner, Slot;
    CellStep(son, w, i, bound, p, fill);
    CellStep(son, w, i, bound, p, Leaf);
    CellOuterIs(son, w, i, bound, p);
    CellOuterStep(son, w, i, bound, p);
    if i != p && son[i] < bound {
      TreeFilledPlaces(son, w, son[i], p, fill);
    }
  }

  lemma OuterIs(son: seq<nat>, w: Window, ref: nat, hole: nat)
    requires WindowOk(w) && |son| == 2 * w.size
    ensures Outer(son, w, ref, hole) == Places(TreeAt(son, w, ref, hole, Leaf))
  {
  }

  lemma CellOuterIs(son: seq<nat>, w: Window, i: nat, bound: nat, hole: nat)
    requires WindowOk(w) && |son| == 2 * w.size && i < |son|
    ensures CellOuter(son, w, i, bound, hole) == Places(CellTree(son, w, i, bound, hole, Leaf))
  {
  }

  /** A hole that no place of the tree has makes no difference. */
  lemma {:induction false} TreeWithout(son: seq<nat>, w: Window, ref: nat, hole: nat, fill: Tree)
    requires WindowOk(w) && |son| == 2 * w.size
    requires hole < |son| ==> Owner(w, hole) !in Places(TreeOf(son, w, ref))
    ensures TreeAt(son, w, ref, hole, fill) == TreeAt(son, w, ref, |son|, Leaf)
    decreases ref, 1
  {
    hide TreeAt, CellTree, Live, Owner, Slot;
    TreeStep(son, w, ref, hole, fill);
    TreeStep(son, w, ref, |son|, Leaf);
    if IsNode(w, ref) {
      var i := 2 * Slot(w, ref);
      CellWithout(son, w, i, ref, hole, fill);
      CellWithout(son, w, i + 1, ref, hole, fill);
    }
  }

  lemma CellWithout(son: seq<nat>, w: Window, i: nat, bound: nat, hole: nat, fill: Tree)
    requires WindowOk(w) && |son| == 2 * w.size && i < |son| && i != hole
    requires hole < |son| ==> Owner(w, hole) !in Places(CellTree(son, w, i, bound, |son|, Leaf))
    ensures CellTree(son, w, i, bound, hole, fill) == CellTree(son, w, i, bound, |son|, Leaf)
    decreases bound, 0
  {
    hide TreeAt, CellTree, Live, Owner, Slot;
    CellStep(son, w, i, bound, hole, fill);
    CellStep(son, w, i, bound, |son|, Leaf);
    if son[i] < bound {
      TreeWithout(son, w, son[i], hole, fill);
    }
  }
}
