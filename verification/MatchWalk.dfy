/** The walk of GetMatchesSpec1 and SkipMatchesSpec down a tree, on the values of the array son. */
module MatchWalk {
  import opened Bytes
  import opened MatchTree
  import opened MatchArray

  /**
   What the walk makes of son: ref is the next node, the cells p1 and p0 wait for the rest of
   the smaller and of the greater suffixes.
   */
  function Walk(text: seq<byte>, w: Window, son: seq<nat>, limit: nat, ref: nat, p0: nat, p1: nat, cut: nat): (r: seq<nat>)
    requires WindowOk(w) && |son| == 2 * w.size && p0 < |son| && p1 < |son| && w.c + limit <= |text|
    ensures |r| == |son|
    decreases cut
  {
    if cut == 0 || !Live(w, ref) || Place(w, ref) < 0 then son[p1 := 0][p0 := 0]
    else
      var at := Place(w, ref);
      var pair := 2 * Slot(w, ref);
      var len := Common(text, at, w.c, limit);
      if len == limit then
        var s := son[p1 := son[pair]];
        s[p0 := s[pair + 1]]
      else if text[at + len] < text[w.c + len] then
        var s := son[p1 := ref];
        Walk(text, w, s, limit, s[pair + 1], p0, pair + 1, cut - 1)
      else
        var s := son[p0 := ref];
        Walk(text, w, s, limit, s[pair], pair, p1, cut - 1)
  }

  // ---------- One side of the walk ----------

  /**
   Cell i of the new root leads, by way of places in seen only, to the cell p that waits for the
   rest.
   */
  ghost predicate Side(son: seq<nat>, w: Window, i: nat, p: nat, seen: set<nat>)
    requires WindowOk(w) && |son| == 2 * w.size
  {
    && i < |son| && p < |son| && i / 2 == w.cyc
    && CellOuter(son, w, i, w.pos, p) <= seen
    && (p == i || Owner(w, p) in seen) && w.c !in seen
  }

  /** The tree with one of its subtrees replaced. */
  function Put(t: Tree, right: bool, fill: Tree): Tree
    requires t.Node?
  {
    if right then Node(t.left, t.at, fill) else Node(fill, t.at, t.right)
  }

  function Child(t: Tree, right: bool): Tree
    requires t.Node?
  {
    if right then t.right else t.left
  }

  function ChildCell(w: Window, ref: nat, right: bool): (i: nat)
    requires WindowOk(w) && Live(w, ref)
    ensures i < 2 * w.size
  {
    2 * Slot(w, ref) + if right then 1 else 0
  }

  /** A tree whose subtrees do not share places with each other or with the root. */
  ghost predicate Apart(t: Tree) {
    t.Node? && t.at !in Places(t.left) && t.at !in Places(t.right) && Places(t.left) !! Places(t.right)
  }

  lemma RootOwner(w: Window, i: nat)
    requires WindowOk(w) && i / 2 == w.cyc
    ensures Owner(w, i) == w.c == Place(w, w.pos)
  {
  }

  lemma PutPlaces(t: Tree, right: bool, fill: Tree)
    requires t.Node?
    ensures Places(Put(t, right, fill)) == Places(Child(t, !right)) + {t.at} + Places(fill)
    ensures Places(t) == Places(Child(t, right)) + {t.at} + Places(Child(t, !right))
  {
  }

  /** The node x, written to a cell of another place, with a hole for one of its children. */
  lemma NodeWithHole(son: seq<nat>, w: Window, x: nat, p: nat, right: bool, fill: Tree)
    requires WindowOk(w) && |son| == 2 * w.size && p < |son| && IsNode(w, x)
    requires Owner(w, p) !in Places(TreeOf(son, w, x)) && Apart(TreeOf(son, w, x))
    ensures TreeAt(son[p := x], w, x, ChildCell(w, x, right), fill) == Put(TreeOf(son, w, x), right, fill)
  {
    hide TreeAt, CellTree, Live, Slot, Owner;
    var q := ChildCell(w, x, right);
    var other := ChildCell(w, x, !right);
    TreeStep(son, w, x, |son|, Leaf);
    TreeStep(son[p := x], w, x, q, fill);
    CellStep(son[p := x], w, q, x, q, fill);
    CellWithout(son, w, other, x, q, fill);
    CellFilledPlaces(son, w, other, x, q, fill);
    CellChange(son, w, other, x, q, fill, p, x);
  }

  lemma SideAdvance(son: seq<nat>, w: Window, i: nat, p: nat, seen: set<nat>, x: nat, right: bool, fill: Tree)
    requires WindowOk(w) && |son| == 2 * w.size && Side(son, w, i, p, seen) && IsNode(w, x)
    requires Place(w, x) < Owner(w, p) && Apart(TreeOf(son, w, x))
    requires seen !! Places(TreeOf(son, w, x)) && w.c !in Places(TreeOf(son, w, x))
    ensures var t := TreeOf(son, w, x);
            var q := ChildCell(w, x, right);
            && Side(son[p := x], w, i, q, seen + Places(Child(t, !right)) + {t.at})
            && CellTree(son[p := x], w, i, w.pos, q, fill) == CellTree(son, w, i, w.pos, p, Put(t, right, fill))
  {
    hide TreeAt, CellTree, Live, Slot, TreeOf, Owner;
    var t := TreeOf(son, w, x);
    var q := ChildCell(w, x, right);
    RootOwner(w, i);
    NodePlace(son, w, x);
    OwnerOfSlot(w, x);
    NodeWithHole(son, w, x, p, right, fill);
    NodeWithHole(son, w, x, p, right, Leaf);
    PutPlaces(t, right, Leaf);
    CellFill(son, w, i, w.pos, p, x, q, fill, Put(t, right, fill));
    CellFill(son, w, i, w.pos, p, x, q, Leaf, Put(t, right, Leaf));
    CellFilledPlaces(son, w, i, w.pos, p, Put(t, right, Leaf));
    CellOuterIs(son[p := x], w, i, w.pos, q);
  }

  lemma NodePlace(son: seq<nat>, w: Window, x: nat)
    requires WindowOk(w) && |son| == 2 * w.size && IsNode(w, x)
    ensures TreeOf(son, w, x).Node? && TreeOf(son, w, x).at == Place(w, x) && Place(w, x) in Places(TreeOf(son, w, x))
  {
    hide CellTree;
  }

  /** The other side is not touched. */
  lemma SideKept(son: seq<nat>, w: Window, i: nat, p: nat, seen: set<nat>, j: nat, v: nat, fill: Tree)
    requires WindowOk(w) && |son| == 2 * w.size && Side(son, w, i, p, seen) && j < |son| && j != i
    requires Owner(w, j) !in seen
    ensures Side(son[j := v], w, i, p, seen)
    ensures CellTree(son[j := v], w, i, w.pos, p, fill) == CellTree(son, w, i, w.pos, p, fill)
  {
    hide TreeAt, CellTree, Live, Slot, TreeOf, Owner;
    CellChange(son, w, i, w.pos, p, fill, j, v);
    CellChange(son, w, i, w.pos, p, Leaf, j, v);
    CellOuterIs(son, w, i, w.pos, p);
    CellOuterIs(son[j := v], w, i, w.pos, p);
  }

  /** The side ends with the tree of x. */
  lemma SideEnds(son: seq<nat>, w: Window, i: nat, p: nat, seen: set<nat>, x: nat)
    requires WindowOk(w) && |son| == 2 * w.size && Side(son, w, i, p, seen)
    requires Place(w, x) < Owner(w, p)
    requires Owner(w, p) !in Places(TreeOf(son, w, x))
    ensures CellTree(son[p := x], w, i, w.pos, |son|, Leaf) == CellTree(son, w, i, w.pos, p, TreeOf(son, w, x))
    ensures Places(CellTree(son[p := x], w, i, w.pos, |son|, Leaf)) <= seen + Places(TreeOf(son, w, x))
  {
    hide TreeAt, CellTree, Live, Slot, Owner;
    RootOwner(w, i);
    TreeChange(son, w, x, |son|, Leaf, p, x);
    CellFill(son, w, i, w.pos, p, x, |son|, Leaf, TreeOf(son, w, x));
    CellFilledPlaces(son, w, i, w.pos, p, TreeOf(son, w, x));
  }

  // ---------- Both sides ----------

  /** A walk under way: a and b are the places already left of and right of it. */
  ghost predicate Walking(text: seq<byte>, w: Window, son: seq<nat>, limit: nat, ref: nat, p0: nat, p1: nat,
      a: set<nat>, b: set<nat>)
    requires WindowOk(w) && |son| == 2 * w.size
  {
    var t := TreeOf(son, w, ref);
    && Side(son, w, 2 * w.cyc, p1, a) && Side(son, w, 2 * w.cyc + 1, p0, b)
    && Ordered(text, t, limit, false) && Room(text, t, w.c, limit)
    && a !! b && (a + b) !! Places(t)
    && (t.Node? ==> t.at < Owner(w, p0) && t.at < Owner(w, p1))
  }

  lemma WalkingCells(text: seq<byte>, w: Window, son: seq<nat>, limit: nat, ref: nat, p0: nat, p1: nat, a: set<nat>,
      b: set<nat>)
    requires WindowOk(w) && |son| == 2 * w.size && Walking(text, w, son, limit, ref, p0, p1, a, b)
    ensures p0 < |son| && p1 < |son| && w.c + limit <= |text| && p0 != 2 * w.cyc && p1 != 2 * w.cyc + 1
    ensures Owner(w, p1) !in b && Owner(w, p0) !in a && w.c !in a && w.c !in b
    ensures var t := TreeOf(son, w, ref);
            Owner(w, p0) !in Places(t) && Owner(w, p1) !in Places(t) && w.c !in Places(t)
    ensures Owner(w, p0) in b + {w.c} && Owner(w, p1) in a + {w.c}
  {
    hide TreeAt, CellTree, Live, Slot, TreeOf, Owner, Ordered;
    RootOwner(w, 2 * w.cyc);
    RootOwner(w, 2 * w.cyc + 1);
  }

  lemma BrokenPlace(w: Window)
    ensures w.c + 1 in Places(Broken(w))
  {
  }

  /** What the walk has found at ref. */
  lemma WalkingTree(text: seq<byte>, w: Window, son: seq<nat>, limit: nat, ref: nat, p0: nat, p1: nat, a: set<nat>,
      b: set<nat>)
    requires WindowOk(w) && |son| == 2 * w.size && Walking(text, w, son, limit, ref, p0, p1, a, b)
    ensures var t := TreeOf(son, w, ref);
            && t.Node? == Live(w, ref) == IsNode(w, ref)
            && (t.Node? ==>
                  && Apart(t) && t.at == Place(w, ref) && t.at < w.c && t.at + limit <= |text|
                  && t.at < Owner(w, p0) && t.at < Owner(w, p1))
  {
    hide Below, CellTree, Slot, Owner;
    var t := TreeOf(son, w, ref);
    BrokenPlace(w);
    if IsNode(w, ref) {
      NodeParts(text, t, w.c, limit, false);
    }
  }

  /** The walk goes on to a child of ref. */
  lemma NextNode(text: seq<byte>, w: Window, son: seq<nat>, limit: nat, ref: nat, p: nat, right: bool)
    requires WindowOk(w) && |son| == 2 * w.size && p < |son| && IsNode(w, ref)
    requires Room(text, TreeOf(son, w, ref), w.c, limit) && Owner(w, p) !in Places(TreeOf(son, w, ref))
    ensures var j := ChildCell(w, ref, right);
            var t := TreeOf(son, w, ref);
            && j != p && t.Node? && son[j] < ref && TreeOf(son, w, son[j]) == Child(t, right)
            && TreeOf(son[p := ref], w, son[j]) == Child(t, right)
  {
    hide TreeAt, CellTree, Live, Slot, Owner;
    var j := ChildCell(w, ref, right);
    TreeStep(son, w, ref, |son|, Leaf);
    CellStep(son, w, j, ref, |son|, Leaf);
    NodePlace(son, w, ref);
    OwnerOfSlot(w, ref);
    var t := TreeOf(son, w, ref);
    PutPlaces(t, right, Leaf);
    BrokenPlace(w);
    TreeChange(son, w, son[j], |son|, Leaf, p, ref);
  }

  /** Once its order is known, a subtree is all the walk needs. */
  lemma ChildKept(text: seq<byte>, t: Tree, c: nat, limit: nat, right: bool)
    requires t.Node? && Ordered(text, t, limit, false) && Room(text, t, c, limit)
    ensures var u := Child(t, right);
            && Ordered(text, u, limit, false) && Room(text, u, c, limit) && Places(u) <= Places(t) && Apart(t)
            && t.at !in Places(u) && Places(u) !! Places(Child(t, !right)) && Places(Child(t, !right)) <= Places(t)
            && (u.Node? ==> u.at < t.at)
  {
    hide Below;
    NodeParts(text, t, c, limit, false);
    var u := Child(t, right);
    assert u.Node? ==> u.at in Places(u);
  }

  lemma WalkRight(text: seq<byte>, w: Window, son: seq<nat>, limit: nat, ref: nat, p0: nat, p1: nat, a: set<nat>,
      b: set<nat>)
    requires WindowOk(w) && |son| == 2 * w.size && Walking(text, w, son, limit, ref, p0, p1, a, b) && Live(w, ref)
    ensures p1 < |son| && TreeOf(son, w, ref).Node?
    ensures var t := TreeOf(son, w, ref);
            var q := ChildCell(w, ref, true);
            var s := son[p1 := ref];
            && s[q] < ref && TreeOf(s, w, s[q]) == t.right
            && Walking(text, w, s, limit, s[q], p0, q, a + Places(t.left) + {t.at}, b)
  {
    hide TreeAt, CellTree, Live, Slot, TreeOf, Owner, Side, Ordered;
    var t := TreeOf(son, w, ref);
    var q := ChildCell(w, ref, true);
    WalkingCells(text, w, son, limit, ref, p0, p1, a, b);
    WalkingTree(text, w, son, limit, ref, p0, p1, a, b);
    NextNode(text, w, son, limit, ref, p1, true);
    ChildKept(text, t, w.c, limit, true);
    SideAdvance(son, w, 2 * w.cyc, p1, a, ref, true, Leaf);
    SideKept(son, w, 2 * w.cyc + 1, p0, b, p1, ref, Leaf);
    OwnerOfSlot(w, ref);
  }

  lemma WalkLeft(text: seq<byte>, w: Window, son: seq<nat>, limit: nat, ref: nat, p0: nat, p1: nat, a: set<nat>, b: set<nat>)
    requires WindowOk(w) && |son| == 2 * w.size && Walking(text, w, son, limit, ref, p0, p1, a, b) && Live(w, ref)
    ensures p0 < |son| && TreeOf(son, w, ref).Node?
    ensures var t := TreeOf(son, w, ref);
            var q := ChildCell(w, ref, false);
            var s := son[p0 := ref];
            && s[q] < ref && TreeOf(s, w, s[q]) == t.left
            && Walking(text, w, s, limit, s[q], q, p1, a, b + Places(t.right) + {t.at})
  {
    hide TreeAt, CellTree, Live, Slot, TreeOf, Owner, Side, Ordered;
    var t := TreeOf(son, w, ref);
    var q := ChildCell(w, ref, false);
    WalkingCells(text, w, son, limit, ref, p0, p1, a, b);
    WalkingTree(text, w, son, limit, ref, p0, p1, a, b);
    NextNode(text, w, son, limit, ref, p0, false);
    ChildKept(text, t, w.c, limit, false);
    SideAdvance(son, w, 2 * w.cyc + 1, p0, b, ref, false, Leaf);
    SideKept(son, w, 2 * w.cyc, p1, a, p0, ref, Leaf);
    OwnerOfSlot(w, ref);
  }

  // ---------- The walk inserts ----------

  /** Both cells receive their last tree. */
  lemma BothEnd(w: Window, son: seq<nat>, p0: nat, p1: nat, a: set<nat>, b: set<nat>, x: nat, y: nat)
    requires WindowOk(w) && |son| == 2 * w.size && Side(son, w, 2 * w.cyc, p1, a) && Side(son, w, 2 * w.cyc + 1, p0, b)
    requires p0 != 2 * w.cyc && p1 != 2 * w.cyc + 1 && Owner(w, p1) !in b && Owner(w, p0) !in a
    requires Place(w, x) < Owner(w, p1) && Place(w, y) < Owner(w, p0)
    requires var tx := Places(TreeOf(son, w, x));
             var ty := Places(TreeOf(son, w, y));
             Owner(w, p1) !in tx && Owner(w, p1) !in ty && Owner(w, p0) !in tx && Owner(w, p0) !in ty
    ensures var r := son[p1 := x][p0 := y];
            && CellTree(r, w, 2 * w.cyc, w.pos, |son|, Leaf) ==
               CellTree(son, w, 2 * w.cyc, w.pos, p1, TreeOf(son, w, x))
            && CellTree(r, w, 2 * w.cyc + 1, w.pos, |son|, Leaf) ==
               CellTree(son, w, 2 * w.cyc + 1, w.pos, p0, TreeOf(son, w, y))
  {
    hide TreeAt, CellTree, Live, Slot, Owner;
    var s := son[p1 := x];
    SideEnds(son, w, 2 * w.cyc, p1, a, x);
    CellChange(s, w, 2 * w.cyc, w.pos, |son|, Leaf, p0, y);
    SideKept(son, w, 2 * w.cyc + 1, p0, b, p1, x, TreeOf(son, w, y));
    TreeChange(son, w, y, |son|, Leaf, p1, x);
    SideEnds(s, w, 2 * w.cyc + 1, p0, b, y);
  }

  /** The reference 0 is never live. */
  lemma EmptyRef(son: seq<nat>, w: Window, p: nat)
    requires WindowOk(w) && |son| == 2 * w.size && p < |son|
    ensures !Live(w, 0) && TreeOf(son, w, 0) == Leaf && Place(w, 0) < Owner(w, p)
  {
  }

  ghost predicate Inserted(w: Window, son: seq<nat>, r: seq<nat>, p0: nat, p1: nat, s: Split, touched: set<nat>)
    requires WindowOk(w) && |son| == |r| == 2 * w.size
  {
    && CellTree(r, w, 2 * w.cyc, w.pos, |r|, Leaf) == CellTree(son, w, 2 * w.cyc, w.pos, p1, s.left)
    && CellTree(r, w, 2 * w.cyc + 1, w.pos, |r|, Leaf) == CellTree(son, w, 2 * w.cyc + 1, w.pos, p0, s.right)
    && forall j :: 0 <= j < |r| && Owner(w, j) !in touched ==> r[j] == son[j]
  }

  lemma WalkStops(text: seq<byte>, w: Window, son: seq<nat>, limit: nat, ref: nat, p0: nat, p1: nat, a: set<nat>,
      b: set<nat>)
    requires WindowOk(w) && |son| == 2 * w.size && Walking(text, w, son, limit, ref, p0, p1, a, b)
    ensures p0 < |son| && p1 < |son|
    ensures Inserted(w, son, son[p1 := 0][p0 := 0], p0, p1, Split(Leaf, Leaf, []), a + b + {w.c})
  {
    hide TreeAt, CellTree, Live, Slot, Owner, Side, Ordered, TreeOf, Room;
    WalkingCells(text, w, son, limit, ref, p0, p1, a, b);
    EmptyRef(son, w, p0);
    EmptyRef(son, w, p1);
    BothEnd(w, son, p0, p1, a, b, 0, 0);
  }

  lemma WalkMatches(text: seq<byte>, w: Window, son: seq<nat>, limit: nat, ref: nat, p0: nat, p1: nat, a: set<nat>,
      b: set<nat>, found: seq<Match>)
    requires WindowOk(w) && |son| == 2 * w.size && Walking(text, w, son, limit, ref, p0, p1, a, b) && Live(w, ref)
    ensures p0 < |son| && p1 < |son| && TreeOf(son, w, ref).Node?
    ensures var t := TreeOf(son, w, ref);
            var i := ChildCell(w, ref, false);
            var j := ChildCell(w, ref, true);
            && p1 != j
            && Inserted(w, son, son[p1 := son[i]][p0 := son[j]], p0, p1, Split(t.left, t.right, found), a + b + {w.c})
  {
    hide TreeAt, CellTree, Live, Slot, Owner, Side, Ordered, TreeOf, Room;
    var t := TreeOf(son, w, ref);
    WalkingCells(text, w, son, limit, ref, p0, p1, a, b);
    WalkingTree(text, w, son, limit, ref, p0, p1, a, b);
    NextNode(text, w, son, limit, ref, p1, true) by { RoomOf(text, w, son, limit, ref, p0, p1, a, b); }
    NextNode(text, w, son, limit, ref, p1, false) by { RoomOf(text, w, son, limit, ref, p0, p1, a, b); }
    PutPlaces(t, true, Leaf);
    BothEnd(w, son, p0, p1, a, b, son[ChildCell(w, ref, false)], son[ChildCell(w, ref, true)]);
  }

  lemma RoomOf(text: seq<byte>, w: Window, son: seq<nat>, limit: nat, ref: nat, p0: nat, p1: nat, a: set<nat>, b: set<nat>)
    requires WindowOk(w) && |son| == 2 * w.size && Walking(text, w, son, limit, ref, p0, p1, a, b)
    ensures Room(text, TreeOf(son, w, ref), w.c, limit)
  {
  }

  lemma InsertedFrom(w: Window, son: seq<nat>, step: seq<nat>, r: seq<nat>, p: nat, v: nat, p0: nat, p1: nat, q0: nat,
      q1: nat,
      s: Split, s': Split, touched: set<nat>, touched': set<nat>)
    requires WindowOk(w) && |son| == |r| == 2 * w.size && p < |son| && step == son[p := v] && touched' <= touched
    requires Owner(w, p) in touched && Inserted(w, step, r, q0, q1, s', touched')
    requires CellTree(step, w, 2 * w.cyc, w.pos, q1, s'.left) == CellTree(son, w, 2 * w.cyc, w.pos, p1, s.left)
    requires CellTree(step, w, 2 * w.cyc + 1, w.pos, q0, s'.right) == CellTree(son, w, 2 * w.cyc + 1, w.pos, p0, s.right)
    ensures Inserted(w, son, r, p0, p1, s, touched)
  {
    hide TreeAt, CellTree, Live, Slot, Owner;
  }

  lemma RightInserted(text: seq<byte>, w: Window, son: seq<nat>, limit: nat, ref: nat, p0: nat, p1: nat,
      a: set<nat>, b: set<nat>, r: seq<nat>, s: Split, found: seq<Match>)
    requires WindowOk(w) && |son| == |r| == 2 * w.size
    requires Walking(text, w, son, limit, ref, p0, p1, a, b) && Live(w, ref)
    requires p0 < |son| && p1 < |son| && TreeOf(son, w, ref).Node?
    requires var t := TreeOf(son, w, ref);
             Inserted(w, son[p1 := ref], r, p0, ChildCell(w, ref, true), s, a + Places(t.left) + {t.at} + b + {w.c} + Places(t.right))
    ensures var t := TreeOf(son, w, ref);
            Inserted(w, son, r, p0, p1, Split(Node(t.left, t.at, s.left), s.right, found), a + b + {w.c} + Places(t))
  {
    hide TreeAt, CellTree, Live, Slot, Owner, Side, Ordered, TreeOf, Room, Inserted;
    var t := TreeOf(son, w, ref);
    WalkingCells(text, w, son, limit, ref, p0, p1, a, b);
    WalkingTree(text, w, son, limit, ref, p0, p1, a, b);
    PutPlaces(t, true, Leaf);
    SideAdvance(son, w, 2 * w.cyc, p1, a, ref, true, s.left);
    SideKept(son, w, 2 * w.cyc + 1, p0, b, p1, ref, s.right);
    InsertedFrom(w, son, son[p1 := ref], r, p1, ref, p0, p1, p0, ChildCell(w, ref, true),
      Split(Node(t.left, t.at, s.left), s.right, found), s,
      a + b + {w.c} + Places(t), a + Places(t.left) + {t.at} + b + {w.c} + Places(t.right));
  }

  lemma LeftInserted(text: seq<byte>, w: Window, son: seq<nat>, limit: nat, ref: nat, p0: nat, p1: nat,
      a: set<nat>, b: set<nat>, r: seq<nat>, s: Split, found: seq<Match>)
    requires WindowOk(w) && |son| == |r| == 2 * w.size
    requires Walking(text, w, son, limit, ref, p0, p1, a, b) && Live(w, ref)
    requires p0 < |son| && p1 < |son| && TreeOf(son, w, ref).Node?
    requires var t := TreeOf(son, w, ref);
             Inserted(w, son[p0 := ref], r, ChildCell(w, ref, false), p1, s, a + (b + Places(t.right) + {t.at}) + {w.c} + Places(t.left))
    ensures var t := TreeOf(son, w, ref);
            Inserted(w, son, r, p0, p1, Split(s.left, Node(s.right, t.at, t.right), found), a + b + {w.c} + Places(t))
  {
    hide TreeAt, CellTree, Live, Slot, Owner, Side, Ordered, TreeOf, Room, Inserted;
    var t := TreeOf(son, w, ref);
    WalkingCells(text, w, son, limit, ref, p0, p1, a, b);
    WalkingTree(text, w, son, limit, ref, p0, p1, a, b);
    PutPlaces(t, false, Leaf);
    SideAdvance(son, w, 2 * w.cyc + 1, p0, b, ref, false, s.right);
    SideKept(son, w, 2 * w.cyc, p1, a, p0, ref, s.left);
    InsertedFrom(w, son, son[p0 := ref], r, p0, ref, p0, p1, ChildCell(w, ref, false), p1,
      Split(s.left, Node(s.right, t.at, t.right), found), s,
      a + b + {w.c} + Places(t), a + (b + Places(t.right) + {t.at}) + {w.c} + Places(t.left));
  }

  /** The step of Walk at a node. */
  lemma WalkStep(text: seq<byte>, w: Window, son: seq<nat>, limit: nat, ref: nat, p0: nat, p1: nat, cut: nat)
    requires WindowOk(w) && |son| == 2 * w.size && p0 < |son| && p1 < |son| && w.c + limit <= |text|
    ensures cut == 0 || !IsNode(w, ref) ==>
              Walk(text, w, son, limit, ref, p0, p1, cut) == son[p1 := 0][p0 := 0]
    ensures cut > 0 && IsNode(w, ref) ==>
              var at: nat := Place(w, ref);
              var i := ChildCell(w, ref, false);
              var j := ChildCell(w, ref, true);
              var len := Common(text, at, w.c, limit);
              Walk(text, w, son, limit, ref, p0, p1, cut) ==
              if len == limit then son[p1 := son[i]][p0 := son[p1 := son[i]][j]]
              else if text[at + len] < text[w.c + len] then
                Walk(text, w, son[p1 := ref], limit, son[p1 := ref][j], p0, j, cut - 1)
              else
                Walk(text, w, son[p0 := ref], limit, son[p0 := ref][i], i, p1, cut - 1)
  {
    hide Common;
  }

  lemma InsertedMore(w: Window, son: seq<nat>, r: seq<nat>, p0: nat, p1: nat, s: Split, s': Split, touched: set<nat>,
      more: set<nat>)
    requires WindowOk(w) && |son| == |r| == 2 * w.size && Inserted(w, son, r, p0, p1, s, touched) && touched <= more
    requires s.left == s'.left && s.right == s'.right
    ensures Inserted(w, son, r, p0, p1, s', more)
  {
    hide TreeAt, CellTree, Live, Slot, Owner;
  }

  /** Below the new root, the walk leaves the trees that Insert makes. */
  lemma {:induction false} WalkInserts(text: seq<byte>, w: Window, son: seq<nat>, limit: nat, ref: nat, p0: nat, p1: nat,
      cut: nat, maxLen: nat, a: set<nat>, b: set<nat>)
    requires WindowOk(w) && |son| == 2 * w.size && Walking(text, w, son, limit, ref, p0, p1, a, b)
    ensures p0 < |son| && p1 < |son| && w.c + limit <= |text|
    ensures Inserted(w, son, Walk(text, w, son, limit, ref, p0, p1, cut), p0, p1,
                     Insert(text, w.c, limit, TreeOf(son, w, ref), cut, maxLen),
                     a + b + {w.c} + Places(TreeOf(son, w, ref)))
    decreases cut
  {
    hide TreeAt, CellTree, Live, Slot, Owner, Side, Ordered, TreeOf, Room, Inserted, Walking, Walk, Insert, Common,
      ChildCell, Places;
    var t := TreeOf(son, w, ref);
    WalkingCells(text, w, son, limit, ref, p0, p1, a, b);
    WalkingTree(text, w, son, limit, ref, p0, p1, a, b);
    WalkStep(text, w, son, limit, ref, p0, p1, cut);
    InsertStep(text, w.c, limit, t, cut, maxLen);
    var s := Insert(text, w.c, limit, t, cut, maxLen);
    var touched := a + b + {w.c} + Places(t);
    if cut == 0 || t.Leaf? {
      WalkStops(text, w, son, limit, ref, p0, p1, a, b);
      InsertedMore(w, son, son[p1 := 0][p0 := 0], p0, p1, Split(Leaf, Leaf, []), s, a + b + {w.c}, touched);
    } else {
      var len := Common(text, t.at, w.c, limit);
      if len == limit {
        WalkMatches(text, w, son, limit, ref, p0, p1, a, b, s.found);
        InsertedMore(w, son, Walk(text, w, son, limit, ref, p0, p1, cut), p0, p1, s, s, a + b + {w.c}, touched);
      } else if text[t.at + len] < text[w.c + len] {
        var q := ChildCell(w, ref, true);
        var step := son[p1 := ref];
        WalkRight(text, w, son, limit, ref, p0, p1, a, b);
        WalkInserts(text, w, step, limit, step[q], p0, q, cut - 1, Longer(maxLen, len), a + Places(t.left) + {t.at}, b);
        RightInserted(text, w, son, limit, ref, p0, p1, a, b, Walk(text, w, son, limit, ref, p0, p1, cut),
          Insert(text, w.c, limit, t.right, cut - 1, Longer(maxLen, len)), s.found);
      } else {
        var q := ChildCell(w, ref, false);
        var step := son[p0 := ref];
        WalkLeft(text, w, son, limit, ref, p0, p1, a, b);
        WalkInserts(text, w, step, limit, step[q], q, p1, cut - 1, Longer(maxLen, len), a, b + Places(t.right) + {t.at});
        LeftInserted(text, w, son, limit, ref, p0, p1, a, b, Walk(text, w, son, limit, ref, p0, p1, cut),
          Insert(text, w.c, limit, t.left, cut - 1, Longer(maxLen, len)), s.found);
      }
    }
  }

  /** A fresh walk, from the root ref. */
  lemma WalkStarts(text: seq<byte>, w: Window, son: seq<nat>, limit: nat, ref: nat)
    requires WindowOk(w) && |son| == 2 * w.size
    requires Ordered(text, TreeOf(son, w, ref), limit, false) && Room(text, TreeOf(son, w, ref), w.c, limit)
    ensures Walking(text, w, son, limit, ref, 2 * w.cyc + 1, 2 * w.cyc, {}, {})
  {
    hide Ordered, TreeAt, Below;
    var t := TreeOf(son, w, ref);
    assert t.Node? ==> t.at in Places(t);
  }

  /** The tree of the new position, once the walk is done: c over the two parts of the old tree. */
  lemma RootInserted(text: seq<byte>, w: Window, son: seq<nat>, limit: nat, ref: nat, cut: nat, maxLen: nat)
    requires WindowOk(w) && |son| == 2 * w.size
    requires Ordered(text, TreeOf(son, w, ref), limit, false) && Room(text, TreeOf(son, w, ref), w.c, limit)
    ensures w.c + limit <= |text|
    ensures var t := TreeOf(son, w, ref);
            var r := Walk(text, w, son, limit, ref, 2 * w.cyc + 1, 2 * w.cyc, cut);
            var s := Insert(text, w.c, limit, t, cut, maxLen);
            && TreeOf(r, w, w.pos) == Node(s.left, w.c, s.right)
            && forall j :: 0 <= j < |r| && Owner(w, j) !in Places(t) + {w.c} ==> r[j] == son[j]
  {
    hide Ordered, TreeAt, CellTree, Below, Walk, Insert, Room, Walking, Places, Owner;
    WalkStarts(text, w, son, limit, ref);
    WalkInserts(text, w, son, limit, ref, 2 * w.cyc + 1, 2 * w.cyc, cut, maxLen, {}, {});
    var t := TreeOf(son, w, ref);
    var r := Walk(text, w, son, limit, ref, 2 * w.cyc + 1, 2 * w.cyc, cut);
    var s := Insert(text, w.c, limit, t, cut, maxLen);
    assert {} + {} + {w.c} + Places(t) == Places(t) + {w.c};
    TreeStep(r, w, w.pos, |r|, Leaf);
    CellStep(son, w, 2 * w.cyc, w.pos, 2 * w.cyc, s.left);
    CellStep(son, w, 2 * w.cyc + 1, w.pos, 2 * w.cyc + 1, s.right);
  }
}
