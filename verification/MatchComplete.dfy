/** The other half of what the match finder keeps: no position passed is missing from its tables. */
module MatchComplete {
  import opened Bytes
  import opened MatchTree
  import opened MatchArray
  import opened MatchWalk
  import opened MatchHash
  import opened MatchTables

  /** An earlier place that a match may start at, with the four bytes to be hashed. */
  predicate Within(text: seq<byte>, w: Window, y: nat) {
    y < w.c && w.c - y < w.size && y + 4 <= |text|
  }

  /** The reference to the place y. */
  function RefOf(w: Window, y: nat): int {
    w.pos - (w.c - y)
  }

  /** The place y is in the tables: nothing older is where y belongs. If the trees are whole, y is in its tree. */
  ghost predicate Known(text: seq<byte>, w: Window, s: Setup, hash: seq<nat>, son: seq<nat>, limit: nat, whole: bool, y: nat)
    requires Sizes(w, s, hash, son) && y + 4 <= |text|
  {
    && Cell2(hash, Hash2(text, s.crc, y)) >= RefOf(w, y)
    && Cell3(hash, Hash3(text, s.crc, y)) >= RefOf(w, y)
    && Cell4(hash, Hash4(text, s.crc, s.size4, y)) >= RefOf(w, y)
    && (whole ==> Holds(text, TreeOf(son, w, Cell4(hash, Hash4(text, s.crc, s.size4, y))), y, limit))
  }

  ghost predicate Complete(text: seq<byte>, w: Window, s: Setup, hash: seq<nat>, son: seq<nat>, limit: nat, whole: bool) {
    && Sizes(w, s, hash, son)
    && forall y: nat :: Within(text, w, y) ==> Known(text, w, s, hash, son, limit, whole, y)
  }

  // ---------- To the next position ----------

  lemma SharesLess(text: seq<byte>, a: nat, b: nat, n: nat, less: nat)
    requires Shares(text, a, b, n) && less <= n
    ensures Shares(text, a, b, less)
  {
  }

  /** What the window still reaches stays in the tree. */
  lemma HoldsMovesOn(text: seq<byte>, w: Window, son: seq<nat>, ref: nat, limit: nat, less: nat, y: nat)
    requires WindowOk(w) && |son| == 2 * w.size && ref <= w.pos && less <= limit && y >= w.c + 2 - w.size
    requires var t := TreeOf(son, w, ref);
             Ordered(text, t, limit, false) && Holds(text, t, y, limit) && forall z :: z in Places(t) ==> z <= w.c
    ensures WindowOk(Next(w)) && Holds(text, TreeOf(son, Next(w), ref), y, less)
  {
    hide TreeOf, Ordered, Places, Pruned, Shares;
    var t := TreeOf(son, w, ref);
    TreeMovesOn(son, w, ref);
    PrunedPlaces(text, t, w.c + 2 - w.size, limit, false);
    var z :| z in Places(t) && StandsFor(text, z, y, limit);
    SharesLess(text, z, y, limit, less);
    assert StandsFor(text, z, y, less) && z in Places(Pruned(t, w.c + 2 - w.size));
  }

  lemma BeforeC(text: seq<byte>, t: Tree, c: nat, limit: nat)
    requires Room(text, t, c, limit)
    ensures forall z :: z in Places(t) ==> z <= c
  {
  }

  /** The places of the tree of c once it is entered. */
  lemma NewTree(text: seq<byte>, w: Window, s: Setup, son: seq<nat>, ref: nat, h: nat, limit: nat, cut: nat)
    requires WindowOk(w) && |son| == 2 * w.size && Rooted(text, w, s, son, ref, h, limit)
    ensures w.c + limit <= |text|
    ensures var r := Walk(text, w, son, limit, ref, 2 * w.cyc + 1, 2 * w.cyc, cut);
            var split := Insert(text, w.c, limit, TreeOf(son, w, ref), cut, 0);
            var root := Node(split.left, w.c, split.right);
            && TreeOf(r, w, w.pos) == root && Ordered(text, root, limit, false)
            && (forall z :: z in Places(root) ==> z <= w.c)
            && (forall j :: 0 <= j < |r| && Owner(w, j) !in Places(TreeOf(son, w, ref)) + {w.c} ==> r[j] == son[j])
  {
    hide TreeOf, Ordered, Places, Owner, Walk, Insert, Hash4, Hashable;
    var t := TreeOf(son, w, ref);
    RootInserted(text, w, son, limit, ref, cut, 0);
    RootedOrdered(text, w.c, limit, t, cut, 0, false);
    BeforeC(text, t, w.c, limit);
  }

  /** A place known before in the tree that c is put into. */
  lemma SameTreeKnown(text: seq<byte>, w: Window, s: Setup, son: seq<nat>, ref: nat, h: nat, limit: nat, less: nat,
      cut: nat, y: nat)
    requires WindowOk(w) && |son| == 2 * w.size && Rooted(text, w, s, son, ref, h, limit) && less <= limit && w.c + limit <= |text|
    requires w.c + 2 - w.size <= y <= w.c
    requires y < w.c ==> Holds(text, TreeOf(son, w, ref), y, limit) && !GivenUp(text, w.c, limit, TreeOf(son, w, ref), cut)
    ensures var r := Walk(text, w, son, limit, ref, 2 * w.cyc + 1, 2 * w.cyc, cut);
            WindowOk(Next(w)) && Holds(text, TreeOf(r, Next(w), w.pos), y, less)
  {
    hide TreeOf, Ordered, Places, Owner, Walk, Insert, Hash4, Hashable, GivenUp, Hashed, Shares, Holds;
    var t := TreeOf(son, w, ref);
    NewTree(text, w, s, son, ref, h, limit, cut);
    var split := Insert(text, w.c, limit, t, cut, 0);
    if y < w.c {
      HoldsInserted(text, w.c, limit, t, cut, 0, false, y);
    } else {
      HoldsItself(text, split.left, w.c, split.right, limit);
    }
    var r := Walk(text, w, son, limit, ref, 2 * w.cyc + 1, 2 * w.cyc, cut);
    HoldsMovesOn(text, w, r, w.pos, limit, less, y);
  }

  lemma HoldsItself(text: seq<byte>, left: Tree, c: nat, right: Tree, limit: nat)
    requires c + limit <= |text|
    ensures Holds(text, Node(left, c, right), c, limit)
  {
    assert StandsFor(text, c, c, limit) && c in Places(Node(left, c, right));
  }

  /** A place known before in any other tree. */
  lemma OtherTreeKnown(text: seq<byte>, w: Window, s: Setup, son: seq<nat>, ref: nat, h: nat, limit: nat, less: nat,
      son': seq<nat>, t: Tree, k: nat, y: nat)
    requires WindowOk(w) && |son| == |son'| == 2 * w.size && less <= limit
    requires Rooted(text, w, s, son, ref, h, limit) && Hashed(text, s, t, k) && h != k
    requires forall j :: 0 <= j < |son| && Owner(w, j) !in Places(t) + {w.c} ==> son'[j] == son[j]
    requires y >= w.c + 2 - w.size && Holds(text, TreeOf(son, w, ref), y, limit)
    ensures WindowOk(Next(w)) && Holds(text, TreeOf(son', Next(w), ref), y, less)
  {
    hide TreeOf, Ordered, Places, Hashable, Owner, Shares, Holds;
    var u := TreeOf(son, w, ref);
    NotRootedElsewhere(text, s, u, h, t, k);
    TreeSame(son, son', w, ref);
    HoldsMovesOn(text, w, son', ref, limit, less, y);
  }

  lemma WithinNext(text: seq<byte>, w: Window, y: nat)
    requires WindowOk(w) && Within(text, Next(w), y)
    ensures y == w.c || Within(text, w, y)
    ensures w.c + 2 - w.size <= y <= w.c && RefOf(Next(w), y) == RefOf(w, y) <= w.pos
  {
  }

  /** The root of the tree that c is put into. */
  function Root(text: seq<byte>, w: Window, s: Setup, hash: seq<nat>): nat
    requires Hashable(text, s.crc, w.c) && s.size4 > 0 && |hash| == FIX4 + s.size4
  {
    Cell4(hash, Hash4(text, s.crc, s.size4, w.c))
  }

  lemma EnterKnown(text: seq<byte>, w: Window, s: Setup, hash: seq<nat>, son: seq<nat>, limit: nat, less: nat,
      cut: nat, whole: bool, y: nat)
    requires Tables(text, w, s, hash, son, limit) && Complete(text, w, s, hash, son, limit, whole)
    requires Hashable(text, s.crc, w.c) && less <= limit && Within(text, Next(w), y)
    requires whole ==> !GivenUp(text, w.c, limit, TreeOf(son, w, Root(text, w, s, hash)), cut)
    ensures Sizes(Next(w), s, Entered(text, w, s, hash), Grown(text, w, s, hash, son, limit, cut))
    ensures Known(text, Next(w), s, Entered(text, w, s, hash), Grown(text, w, s, hash, son, limit, cut), less, whole, y)
  {
    hide Hash2, Hash3, Hash4, Rooted, Hit2, Hit3, Walk, Next, Entered, Hashed, TreeOf, Holds, GivenUp, Within;
    WithinText(text, Next(w), y);
    var r, g := Entered(text, w, s, hash), Grown(text, w, s, hash, son, limit, cut);
    var k, h := Hash4(text, s.crc, s.size4, w.c), Hash4(text, s.crc, s.size4, y);
    NextSizes(w, s, hash, son, r, g);
    WithinNext(text, w, y);
    EnteredAt(text, w, s, hash);
    assert y < w.c ==> Known(text, w, s, hash, son, limit, whole, y);
    assert Rooted(text, w, s, son, Cell4(hash, k), k, limit) && Rooted(text, w, s, son, Cell4(hash, h), h, limit);
    if whole {
      if h == k {
        SameTreeKnown(text, w, s, son, Cell4(hash, k), k, limit, less, cut, y);
      } else {
        NewTree(text, w, s, son, Cell4(hash, k), k, limit, cut);
        RootedTree(text, w, s, son, Cell4(hash, k), k, limit);
        OtherTreeKnown(text, w, s, son, Cell4(hash, h), h, limit, less, g, TreeOf(son, w, Cell4(hash, k)), k, y);
      }
    }
  }

  /** Entering a position, and moving on, leaves none out. The trees stay whole if the walk is not given up. */
  lemma CompleteEnter(text: seq<byte>, w: Window, s: Setup, hash: seq<nat>, son: seq<nat>, limit: nat, less: nat,
      cut: nat, whole: bool)
    requires Tables(text, w, s, hash, son, limit) && Complete(text, w, s, hash, son, limit, whole)
    requires Hashable(text, s.crc, w.c) && less <= limit
    requires whole ==> !GivenUp(text, w.c, limit, TreeOf(son, w, Root(text, w, s, hash)), cut)
    ensures Complete(text, Next(w), s, Entered(text, w, s, hash), Grown(text, w, s, hash, son, limit, cut), less, whole)
  {
    hide Tables, Known, Entered, Grown, Next, GivenUp, Complete, Within, TreeOf, Hashable;
    TablesSizes(text, w, s, hash, son, limit);
    var r, g := Entered(text, w, s, hash), Grown(text, w, s, hash, son, limit, cut);
    NextSizes(w, s, hash, son, r, g);
    forall y: nat | Within(text, Next(w), y)
      ensures y + 4 <= |text| && Known(text, Next(w), s, r, g, less, whole, y)
    {
      WithinText(text, Next(w), y);
      EnterKnown(text, w, s, hash, son, limit, less, cut, whole, y);
    }
    CompleteAll(text, Next(w), s, r, g, less, whole);
  }

  lemma TablesSizes(text: seq<byte>, w: Window, s: Setup, hash: seq<nat>, son: seq<nat>, limit: nat)
    requires Tables(text, w, s, hash, son, limit)
    ensures Sizes(w, s, hash, son) && w.c + limit <= |text|
  {
  }

  lemma WithinText(text: seq<byte>, w: Window, y: nat)
    requires Within(text, w, y)
    ensures y + 4 <= |text|
  {
  }

  lemma CompleteAll(text: seq<byte>, w: Window, s: Setup, hash: seq<nat>, son: seq<nat>, limit: nat, whole: bool)
    requires Sizes(w, s, hash, son)
    requires forall y: nat :: Within(text, w, y) ==> y + 4 <= |text| && Known(text, w, s, hash, son, limit, whole, y)
    ensures Complete(text, w, s, hash, son, limit, whole)
  {
    hide Known;
  }

  /** Passing a position with fewer than four bytes left, and moving on, leaves none out. */
  lemma CompletePass(text: seq<byte>, w: Window, s: Setup, hash: seq<nat>, son: seq<nat>, limit: nat, less: nat, whole: bool)
    requires Tables(text, w, s, hash, son, limit) && Complete(text, w, s, hash, son, limit, whole)
    requires less <= limit && w.c + 4 > |text|
    ensures Complete(text, Next(w), s, hash, son, less, whole)
  {
    hide Hash2, Hash3, Hash4, Rooted, Hit2, Hit3, Next, Hashed, TreeOf, Holds, Ordered, Places;
    NextSizes(w, s, hash, son, hash, son);
    forall y: nat | Within(text, Next(w), y)
      ensures Known(text, Next(w), s, hash, son, less, whole, y)
    {
      WithinNext(text, w, y);
      assert Known(text, w, s, hash, son, limit, whole, y);
      var h := Hash4(text, s.crc, s.size4, y);
      if whole {
        RootedTree(text, w, s, son, Cell4(hash, h), h, limit);
        HoldsMovesOn(text, w, son, Cell4(hash, h), limit, less, y);
      }
    }
  }

  lemma CompleteLess(text: seq<byte>, w: Window, s: Setup, hash: seq<nat>, son: seq<nat>, limit: nat, whole: bool,
      less: bool)
    requires Complete(text, w, s, hash, son, limit, whole) && (less ==> whole)
    ensures Complete(text, w, s, hash, son, limit, less)
  {
    hide Hash2, Hash3, Hash4, TreeOf, Holds;
    forall y: nat | Within(text, w, y)
      ensures Known(text, w, s, hash, son, limit, less, y)
    {
      assert Known(text, w, s, hash, son, limit, whole, y);
    }
  }

  // ---------- More text, and the block moves ----------

  lemma HoldsMore(text: seq<byte>, more: seq<byte>, t: Tree, y: nat, limit: nat)
    requires Holds(text, t, y, limit)
    ensures Holds(text + more, t, y, limit)
  {
    var z :| z in Places(t) && StandsFor(text, z, y, limit);
    forall i: nat | i < limit
      ensures SameByte(text + more, z, y, i)
    {
      assert SameByte(text, z, y, i);
    }
    assert StandsFor(text + more, z, y, limit);
  }

  /** Reading more leaves none out, if it is read before the last three bytes are passed. */
  lemma CompleteMore(text: seq<byte>, more: seq<byte>, w: Window, s: Setup, hash: seq<nat>, son: seq<nat>, limit: nat,
      whole: bool)
    requires Complete(text, w, s, hash, son, limit, whole) && (w.c == 0 || w.c + 3 <= |text|)
    ensures Complete(text + more, w, s, hash, son, limit, whole)
  {
    hide Hash2, Hash3, Hash4, TreeOf, Holds;
    forall y: nat | Within(text + more, w, y)
      ensures Known(text + more, w, s, hash, son, limit, whole, y)
    {
      assert Within(text, w, y) && Known(text, w, s, hash, son, limit, whole, y);
      HashesMore(text, more, s, y);
      if whole {
        HoldsMore(text, more, TreeOf(son, w, Cell4(hash, Hash4(text, s.crc, s.size4, y))), y, limit);
      }
    }
  }

  lemma {:induction false} ShiftedHas(t: Tree, d: nat, z: nat)
    requires z in Places(t) && forall y :: y in Places(t) ==> y >= d
    ensures z - d in Places(Shifted(t, d))
  {
    assert t.at in Places(t);
    if z in Places(t.left) {
      ShiftedHas(t.left, d, z);
    } else if z in Places(t.right) {
      ShiftedHas(t.right, d, z);
    }
  }

  lemma HoldsShifts(text: seq<byte>, d: nat, t: Tree, y: nat, limit: nat)
    requires Holds(text, t, y, limit) && d <= y && d <= |text| && forall z :: z in Places(t) ==> z >= d
    ensures Holds(text[d..], Shifted(t, d), y - d, limit)
  {
    hide Shares, Places, Shifted;
    var z :| z in Places(t) && StandsFor(text, z, y, limit);
    ShiftedHas(t, d, z);
    SharesShifts(text, d, z, y, limit);
    assert StandsFor(text[d..], z - d, y - d, limit);
  }

  lemma ShiftKnown(text: seq<byte>, d: nat, w: Window, s: Setup, hash: seq<nat>, son: seq<nat>, limit: nat,
      whole: bool, y: nat)
    requires Tables(text, w, s, hash, son, limit) && Complete(text, w, s, hash, son, limit, whole) && d + w.size <= w.c
    requires d <= |text| && Within(text[d..], Earlier(w, d), y)
    ensures Sizes(Earlier(w, d), s, hash, son) && Known(text[d..], Earlier(w, d), s, hash, son, limit, whole, y)
  {
    hide Hash2, Hash3, Hash4, TreeOf, Holds, Rooted, Hit2, Hit3, Places, Hashed, Ordered;
    assert Within(text, w, y + d) && Known(text, w, s, hash, son, limit, whole, y + d);
    HashesShift(text, d, s, y + d);
    if whole {
      var h := Hash4(text, s.crc, s.size4, y + d);
      var ref := Cell4(hash, h);
      assert Rooted(text, w, s, son, ref, h, limit);
      RootedTree(text, w, s, son, ref, h, limit);
      LivePlaces(son, w, ref);
      BeforeC(text, TreeOf(son, w, ref), w.c, limit);
      TreeShifts(son, w, d, ref);
      HoldsShifts(text, d, TreeOf(son, w, ref), y + d, limit);
    }
  }

  /** Moving the block leaves none out. */
  lemma CompleteShift(text: seq<byte>, d: nat, w: Window, s: Setup, hash: seq<nat>, son: seq<nat>, limit: nat, whole: bool)
    requires Tables(text, w, s, hash, son, limit) && Complete(text, w, s, hash, son, limit, whole) && d + w.size <= w.c
    ensures d <= |text| && Complete(text[d..], Earlier(w, d), s, hash, son, limit, whole)
  {
    hide Tables, Known, Complete;
    TablesSizes(text, w, s, hash, son, limit);
    forall y: nat | Within(text[d..], Earlier(w, d), y)
      ensures y + 4 <= |text[d..]| && Known(text[d..], Earlier(w, d), s, hash, son, limit, whole, y)
    {
      ShiftKnown(text, d, w, s, hash, son, limit, whole, y);
    }
    CompleteAll(text[d..], Earlier(w, d), s, hash, son, limit, whole);
  }

  // ---------- The references are renormalized, and empty tables ----------

  lemma NormalKeepsUp(w: Window, sub: nat, ref: nat, y: nat)
    requires WindowOk(w) && sub + w.size <= w.pos && y < w.c && w.c - y < w.size && ref >= RefOf(w, y)
    ensures Normal(ref, sub) >= RefOf(Lower(w, sub), y)
  {
  }

  /** Renormalization leaves none out. */
  lemma CompleteNormal(text: seq<byte>, w: Window, s: Setup, hash: seq<nat>, son: seq<nat>, sub: nat, limit: nat,
      whole: bool)
    requires Tables(text, w, s, hash, son, limit) && Complete(text, w, s, hash, son, limit, whole) && sub + w.size <= w.pos
    ensures Complete(text, Lower(w, sub), s, Normals(hash, sub), Normals(son, sub), limit, whole)
  {
    hide Hash2, Hash3, Hash4, TreeOf, Holds, Normal, Rooted, Hit2, Hit3;
    var v, r := Lower(w, sub), Normals(hash, sub);
    forall y: nat | Within(text, v, y)
      ensures Known(text, v, s, r, Normals(son, sub), limit, whole, y)
    {
      assert Within(text, w, y) && Known(text, w, s, hash, son, limit, whole, y);
      var h2, h3, h4 := Hash2(text, s.crc, y), Hash3(text, s.crc, y), Hash4(text, s.crc, s.size4, y);
      NormalKeepsUp(w, sub, Cell2(hash, h2), y);
      NormalKeepsUp(w, sub, Cell3(hash, h3), y);
      NormalKeepsUp(w, sub, Cell4(hash, h4), y);
      assert Cell4(r, h4) == Normal(Cell4(hash, h4), sub);
      assert Rooted(text, w, s, son, Cell4(hash, h4), h4, limit);
      RootedTree(text, w, s, son, Cell4(hash, h4), h4, limit);
      TreeNormal(son, w, sub, Cell4(hash, h4));
    }
  }

  /** Before the first position there is nothing to leave out. */
  lemma CompleteEmpty(text: seq<byte>, w: Window, s: Setup, hash: seq<nat>, son: seq<nat>, limit: nat, whole: bool)
    requires Sizes(w, s, hash, son) && w.c == 0
    ensures Complete(text, w, s, hash, son, limit, whole)
  {
  }
}
