/** The binary search trees over suffixes of LzFind.c, on values. */
module MatchTree {
  import opened Bytes

  // ---------- Suffixes ----------

  /** Byte i of the suffixes at a and b. */
  predicate SameByte(text: seq<byte>, a: nat, b: nat, i: nat) {
    a + i < |text| && b + i < |text| && text[a + i] == text[b + i]
  }

  /** The suffixes at a and b have the same first n bytes. */
  predicate Shares(text: seq<byte>, a: nat, b: nat, n: nat) {
    a + n <= |text| && b + n <= |text| && forall i: nat :: i < n ==> SameByte(text, a, b, i)
  }

  /** The suffix at a is less than the one at b, because of byte n. */
  predicate DiffersAt(text: seq<byte>, a: nat, b: nat, n: nat) {
    a + n < |text| && b + n < |text| && Shares(text, a, b, n) && text[a + n] < text[b + n]
  }

  /** The order of suffixes cut off after limit bytes. */
  ghost predicate Less(text: seq<byte>, a: nat, b: nat, limit: nat) {
    exists n: nat :: n < limit && DiffersAt(text, a, b, n)
  }

  /** Less, or the same as far as limit where that is allowed. */
  ghost predicate Below(text: seq<byte>, a: nat, b: nat, limit: nat, strict: bool) {
    Less(text, a, b, limit) || (!strict && Shares(text, a, b, limit))
  }

  lemma SharesBack(text: seq<byte>, a: nat, b: nat, n: nat)
    requires Shares(text, a, b, n)
    ensures Shares(text, b, a, n)
  {
    forall i: nat | i < n
      ensures SameByte(text, b, a, i)
    {
      assert SameByte(text, a, b, i);
    }
  }

  lemma SharesOn(text: seq<byte>, a: nat, b: nat, c: nat, n: nat)
    requires Shares(text, a, b, n) && Shares(text, b, c, n)
    ensures Shares(text, a, c, n)
  {
    forall i: nat | i < n
      ensures SameByte(text, a, c, i)
    {
      assert SameByte(text, a, b, i) && SameByte(text, b, c, i);
    }
  }

  lemma LessTransitive(text: seq<byte>, a: nat, b: nat, c: nat, limit: nat)
    requires Less(text, a, b, limit) || Shares(text, a, b, limit)
    requires Less(text, b, c, limit) || Shares(text, b, c, limit)
    ensures Less(text, a, c, limit) || (Shares(text, a, b, limit) && Shares(text, b, c, limit))
  {
    if Less(text, a, b, limit) || Less(text, b, c, limit) {
      var m: nat, n: nat := limit, limit;
      if Less(text, a, b, limit) {
        m :| m < limit && DiffersAt(text, a, b, m);
      }
      if Less(text, b, c, limit) {
        n :| n < limit && DiffersAt(text, b, c, n);
      }
      var k := if m < n then m else n;
      SharesOn(text, a, b, c, k);
      assert k < n ==> SameByte(text, b, c, k);
      assert k < m ==> SameByte(text, a, b, k);
      assert DiffersAt(text, a, c, k);
    }
  }

  lemma BelowTransitive(text: seq<byte>, a: nat, b: nat, c: nat, limit: nat, strict: bool)
    requires Below(text, a, b, limit, false) && Below(text, b, c, limit, false)
    requires Below(text, a, b, limit, strict) || Below(text, b, c, limit, strict)
    ensures Below(text, a, c, limit, strict)
  {
    LessTransitive(text, a, b, c, limit);
    if Shares(text, a, b, limit) && Shares(text, b, c, limit) {
      SharesOn(text, a, b, c, limit);
      if strict {
        SharedNotLess(text, a, b, limit);
        SharedNotLess(text, b, c, limit);
      }
    }
  }

  lemma SharedNotLess(text: seq<byte>, a: nat, b: nat, limit: nat)
    requires Shares(text, a, b, limit)
    ensures !Less(text, a, b, limit)
  {
    forall n: nat | n < limit
      ensures !DiffersAt(text, a, b, n)
    {
      assert SameByte(text, a, b, n);
    }
  }

  /** A shorter limit keeps the order, but not its strictness. */
  lemma BelowShorter(text: seq<byte>, a: nat, b: nat, limit: nat, shorter: nat, strict: bool)
    requires Below(text, a, b, limit, strict) && shorter <= limit
    ensures Below(text, a, b, shorter, false)
  {
    if Less(text, a, b, limit) {
      var n: nat :| n < limit && DiffersAt(text, a, b, n);
      assert n < shorter || Shares(text, a, b, shorter);
    }
  }

  /** A suffix between two that share n bytes with c shares them too. */
  lemma BetweenShares(text: seq<byte>, low: nat, x: nat, high: nat, c: nat, n: nat, limit: nat)
    requires Below(text, low, x, limit, false) && Below(text, x, high, limit, false) && n <= limit
    requires Shares(text, low, c, n) && Shares(text, high, c, n)
    ensures Shares(text, x, c, n)
  {
    var m: nat, k: nat := limit, limit;
    if Less(text, low, x, limit) {
      m :| m < limit && DiffersAt(text, low, x, m);
    }
    if Less(text, x, high, limit) {
      k :| k < limit && DiffersAt(text, x, high, k);
    }
    assert m < n ==> SameByte(text, low, c, m) && SameByte(text, high, c, m);
    assert k < n ==> SameByte(text, low, c, k) && SameByte(text, high, c, k);
    assert k < m ==> SameByte(text, low, x, k);
    assert m < k ==> SameByte(text, x, high, m);
    assert n <= m;
    SharesBack(text, low, x, n);
    SharesOn(text, x, low, c, n);
  }

  /** The number of common bytes, counted no further than limit. */
  function Common(text: seq<byte>, a: nat, b: nat, limit: nat): (n: nat)
    requires a + limit <= |text| && b + limit <= |text|
    ensures n <= limit && Shares(text, a, b, n) && (n < limit ==> text[a + n] != text[b + n])
  {
    CommonFrom(text, a, b, 0, limit)
  }

  function CommonFrom(text: seq<byte>, a: nat, b: nat, from: nat, limit: nat): (n: nat)
    requires from <= limit && a + limit <= |text| && b + limit <= |text| && Shares(text, a, b, from)
    ensures from <= n <= limit && Shares(text, a, b, n) && (n < limit ==> text[a + n] != text[b + n])
    decreases limit - from
  {
    if from == limit || text[a + from] != text[b + from] then from
    else
      assert SameByte(text, a, b, from);
      CommonFrom(text, a, b, from + 1, limit)
  }

  lemma CommonIs(text: seq<byte>, a: nat, b: nat, limit: nat, n: nat)
    requires a + limit <= |text| && b + limit <= |text| && n <= limit && Shares(text, a, b, n)
    requires n < limit ==> text[a + n] != text[b + n]
    ensures Common(text, a, b, limit) == n
  {
    var m := Common(text, a, b, limit);
    assert m < n ==> SameByte(text, a, b, m);
    assert n < m ==> SameByte(text, a, b, n);
  }

  /** A suffix further away in order has no more in common. */
  lemma FartherShares(text: seq<byte>, y: nat, x: nat, c: nat, limit: nat)
    requires y + limit <= |text| && x + limit <= |text| && c + limit <= |text|
    requires (Below(text, y, x, limit, false) && Below(text, x, c, limit, false)) ||
             (Below(text, c, x, limit, false) && Below(text, x, y, limit, false))
    ensures Common(text, y, c, limit) <= Common(text, x, c, limit)
  {
    var n := Common(text, y, c, limit);
    SharesBack(text, y, c, n);
    assert Shares(text, c, c, n);
    if Below(text, y, x, limit, false) && Below(text, x, c, limit, false) {
      BetweenShares(text, y, x, c, c, n, limit);
    } else {
      BetweenShares(text, c, x, y, c, n, limit);
    }
    var m := Common(text, x, c, limit);
    assert m < n ==> SameByte(text, x, c, m);
  }

  /** The byte after the common ones decides the order. */
  lemma CommonDecides(text: seq<byte>, x: nat, c: nat, limit: nat)
    requires x + limit <= |text| && c + limit <= |text|
    ensures var n := Common(text, x, c, limit);
            if n == limit then Shares(text, x, c, limit) && Shares(text, c, x, limit)
            else if text[x + n] < text[c + n] then Less(text, x, c, limit)
            else Less(text, c, x, limit)
  {
    var n := Common(text, x, c, limit);
    SharesBack(text, x, c, n);
    if n < limit {
      assert DiffersAt(text, x, c, n) || DiffersAt(text, c, x, n);
    }
  }

  // ---------- Trees ----------

  /** Smaller suffixes to the left; the place of a suffix in the text identifies it. */
  datatype Tree = Leaf | Node(left: Tree, at: nat, right: Tree)

  ghost function Places(t: Tree): set<nat> {
    if t.Leaf? then {} else Places(t.left) + {t.at} + Places(t.right)
  }

  /** A search tree whose children are older than their parents. */
  ghost predicate Ordered(text: seq<byte>, t: Tree, limit: nat, strict: bool) {
    t.Node? ==>
      && Ordered(text, t.left, limit, strict) && Ordered(text, t.right, limit, strict)
      && (forall y :: y in Places(t.left) ==> y < t.at && Below(text, y, t.at, limit, strict))
      && (forall y :: y in Places(t.right) ==> y < t.at && Below(text, t.at, y, limit, strict))
      && Places(t.left) !! Places(t.right)
  }

  /** Every place in the tree leaves room for limit bytes, and is before c. */
  ghost predicate Room(text: seq<byte>, t: Tree, c: nat, limit: nat) {
    c + limit <= |text| && forall y :: y in Places(t) ==> y < c
  }

  /** A match of length bytes with what is back + 1 bytes before. */
  datatype Match = Match(length: nat, back: nat)

  /** What inserting c makes of the tree t: its parts left and right of c, and the matches found. */
  datatype Split = Split(left: Tree, right: Tree, found: seq<Match>)

  /**
   GetMatchesSpec1 on values: walks down from the root, giving up after cut nodes; the longest
   match so far has maxLen bytes.
   */
  function Insert(text: seq<byte>, c: nat, limit: nat, t: Tree, cut: nat, maxLen: nat): Split
    requires c + limit <= |text|
    decreases t
  {
    if cut == 0 || t.Leaf? || t.at >= c then Split(Leaf, Leaf, [])
    else
      var len := Common(text, t.at, c, limit);
      var found := if maxLen < len then [Match(len, c - t.at - 1)] else [];
      var best := if maxLen < len then len else maxLen;
      if len == limit then Split(t.left, t.right, found)
      else if text[t.at + len] < text[c + len] then
        var s := Insert(text, c, limit, t.right, cut - 1, best);
        Split(Node(t.left, t.at, s.left), s.right, found + s.found)
      else
        var s := Insert(text, c, limit, t.left, cut - 1, best);
        Split(s.left, Node(s.right, t.at, t.right), found + s.found)
  }

  // ---------- The tree stays a search tree ----------

  lemma NodeParts(text: seq<byte>, t: Tree, c: nat, limit: nat, strict: bool)
    requires t.Node? && Ordered(text, t, limit, strict) && Room(text, t, c, limit)
    ensures t.at < c && t.at + limit <= |text| && c + limit <= |text|
    ensures Ordered(text, t.left, limit, strict) && Ordered(text, t.right, limit, strict)
    ensures Room(text, t.left, c, limit) && Room(text, t.right, c, limit)
    ensures Places(t.left) <= Places(t) && Places(t.right) <= Places(t) && t.at in Places(t)
    ensures t.at !in Places(t.left) && t.at !in Places(t.right) && Places(t.left) !! Places(t.right)
    ensures Places(t) == Places(t.left) + {t.at} + Places(t.right)
  {
    hide Below;
    assert t.at in Places(t);
  }

  /** A subtree may be replaced by one with fewer places. */
  lemma OrderedWith(text: seq<byte>, t: Tree, left: Tree, right: Tree, limit: nat, strict: bool)
    requires t.Node? && Ordered(text, t, limit, strict)
    requires Ordered(text, left, limit, strict) && Ordered(text, right, limit, strict)
    requires Places(left) <= Places(t.left) && Places(right) <= Places(t.right)
    ensures Ordered(text, Node(left, t.at, right), limit, strict) && Places(Node(left, t.at, right)) <= Places(t)
  {
    hide Below;
  }

  /** The length of the longest match after a node with len bytes in common. */
  function Longer(maxLen: nat, len: nat): nat { if maxLen < len then len else maxLen }

  /** The step of Insert at a node. */
  lemma InsertStep(text: seq<byte>, c: nat, limit: nat, t: Tree, cut: nat, maxLen: nat)
    requires c + limit <= |text|
    ensures cut == 0 || t.Leaf? ==> Insert(text, c, limit, t, cut, maxLen) == Split(Leaf, Leaf, [])
    ensures cut > 0 && t.Node? && t.at < c ==>
              var len := Common(text, t.at, c, limit);
              var found := if maxLen < len then [Match(len, c - t.at - 1)] else [];
              Insert(text, c, limit, t, cut, maxLen) ==
              if len == limit then Split(t.left, t.right, found)
              else if text[t.at + len] < text[c + len] then
                var s := Insert(text, c, limit, t.right, cut - 1, Longer(maxLen, len));
                Split(Node(t.left, t.at, s.left), s.right, found + s.found)
              else
                var s := Insert(text, c, limit, t.left, cut - 1, Longer(maxLen, len));
                Split(s.left, Node(s.right, t.at, t.right), found + s.found)
  {
    hide Common;
  }

  lemma {:induction false} InsertOrdered(text: seq<byte>, c: nat, limit: nat, t: Tree, cut: nat, maxLen: nat, strict: bool)
    requires Ordered(text, t, limit, strict) && Room(text, t, c, limit)
    ensures var s := Insert(text, c, limit, t, cut, maxLen);
            && Ordered(text, s.left, limit, strict) && Ordered(text, s.right, limit, strict)
            && Places(s.left) <= Places(t) && Places(s.right) <= Places(t) && Places(s.left) !! Places(s.right)
    decreases t
  {
    hide Common, Below, Insert, Room;
    assert c + limit <= |text| by { RoomEnd(text, t, c, limit); }
    InsertStep(text, c, limit, t, cut, maxLen);
    if cut > 0 && t.Node? {
      NodeParts(text, t, c, limit, strict);
      var len := Common(text, t.at, c, limit);
      if len < limit {
        if text[t.at + len] < text[c + len] {
          InsertOrdered(text, c, limit, t.right, cut - 1, Longer(maxLen, len), strict);
          OrderedWith(text, t, t.left, Insert(text, c, limit, t.right, cut - 1, Longer(maxLen, len)).left, limit, strict);
        } else {
          InsertOrdered(text, c, limit, t.left, cut - 1, Longer(maxLen, len), strict);
          OrderedWith(text, t, Insert(text, c, limit, t.left, cut - 1, Longer(maxLen, len)).right, t.right, limit, strict);
        }
      }
    }
  }

  lemma RoomEnd(text: seq<byte>, t: Tree, c: nat, limit: nat)
    requires Room(text, t, c, limit)
    ensures c + limit <= |text|
  {
  }

  /** Every place of the tree is below c, if its root is and c is not in the subtree that could be above. */
  lemma SideOfRoot(text: seq<byte>, t: Tree, c: nat, limit: nat, strict: bool)
    requires t.Node? && Ordered(text, t, limit, strict)
    ensures Below(text, t.at, c, limit, false) ==> forall y :: y in Places(t.left) ==> Below(text, y, c, limit, strict)
    ensures Below(text, c, t.at, limit, false) ==> forall y :: y in Places(t.right) ==> Below(text, c, y, limit, strict)
  {
    hide Below;
    forall y | y in Places(t.left) && Below(text, t.at, c, limit, false)
      ensures Below(text, y, c, limit, strict)
    {
      Weaken(text, y, t.at, limit, strict);
      BelowTransitive(text, y, t.at, c, limit, strict);
    }
    forall y | y in Places(t.right) && Below(text, c, t.at, limit, false)
      ensures Below(text, c, y, limit, strict)
    {
      Weaken(text, t.at, y, limit, strict);
      BelowTransitive(text, c, t.at, y, limit, strict);
    }
  }

  lemma Weaken(text: seq<byte>, a: nat, b: nat, limit: nat, strict: bool)
    requires Below(text, a, b, limit, strict)
    ensures Below(text, a, b, limit, false)
  {
  }

  ghost predicate AllBelow(text: seq<byte>, t: Tree, c: nat, limit: nat, strict: bool) {
    forall y :: y in Places(t) ==> Below(text, y, c, limit, strict)
  }

  ghost predicate AllAbove(text: seq<byte>, t: Tree, c: nat, limit: nat, strict: bool) {
    forall y :: y in Places(t) ==> Below(text, c, y, limit, strict)
  }

  /** The parts are to the left and to the right of c. */
  lemma {:induction false} InsertSides(text: seq<byte>, c: nat, limit: nat, t: Tree, cut: nat, maxLen: nat, strict: bool)
    requires Ordered(text, t, limit, strict) && Room(text, t, c, limit)
    ensures var s := Insert(text, c, limit, t, cut, maxLen);
            AllBelow(text, s.left, c, limit, strict) && AllAbove(text, s.right, c, limit, strict)
    decreases t
  {
    hide Common, Below, Insert, Room, Shares;
    assert c + limit <= |text| by { RoomEnd(text, t, c, limit); }
    InsertStep(text, c, limit, t, cut, maxLen);
    if cut > 0 && t.Node? {
      NodeParts(text, t, c, limit, strict);
      SideOfRoot(text, t, c, limit, strict);
      Decided(text, t.at, c, limit, strict);
      var len := Common(text, t.at, c, limit);
      if len < limit {
        if text[t.at + len] < text[c + len] {
          InsertSides(text, c, limit, t.right, cut - 1, Longer(maxLen, len), strict);
        } else {
          InsertSides(text, c, limit, t.left, cut - 1, Longer(maxLen, len), strict);
        }
      }
    }
  }

  lemma Decided(text: seq<byte>, x: nat, c: nat, limit: nat, strict: bool)
    requires x + limit <= |text| && c + limit <= |text|
    ensures var n := Common(text, x, c, limit);
            if n == limit then Below(text, x, c, limit, false) && Below(text, c, x, limit, false)
            else if text[x + n] < text[c + n] then Below(text, x, c, limit, strict) && Below(text, x, c, limit, false)
            else Below(text, c, x, limit, strict) && Below(text, c, x, limit, false)
  {
    CommonDecides(text, x, c, limit);
    hide Common, Less, Shares;
  }

  // ---------- The matches ----------

  /** Each match is a true one, as long as it can be, longer than any before it and further back. */
  ghost predicate Genuine(text: seq<byte>, t: Tree, c: nat, limit: nat, maxLen: nat, found: seq<Match>)
    requires c + limit <= |text|
  {
    && (forall i :: 0 <= i < |found| ==> TrueMatch(text, t, c, limit, found[i]) && maxLen < found[i].length)
    && (forall i, j :: 0 <= i < j < |found| ==> found[i].length < found[j].length && found[i].back < found[j].back)
  }

  ghost predicate TrueMatch(text: seq<byte>, t: Tree, c: nat, limit: nat, m: Match)
    requires c + limit <= |text|
  {
    m.back < c && c - m.back - 1 in Places(t) && m.length == Common(text, c - m.back - 1, c, limit)
  }

  lemma Deeper(text: seq<byte>, t: Tree, sub: Tree, c: nat, limit: nat, m: Match)
    requires t.Node? && t.at < c && c + limit <= |text| && Places(sub) <= Places(t)
    requires forall y :: y in Places(sub) ==> y < t.at
    requires TrueMatch(text, sub, c, limit, m)
    ensures TrueMatch(text, t, c, limit, m) && c - t.at - 1 < m.back
  {
    hide Common;
  }

  lemma AllDeeper(text: seq<byte>, t: Tree, sub: Tree, c: nat, limit: nat, maxLen: nat, found: seq<Match>)
    requires t.Node? && t.at < c && c + limit <= |text| && Places(sub) <= Places(t)
    requires forall y :: y in Places(sub) ==> y < t.at
    requires Genuine(text, sub, c, limit, maxLen, found)
    ensures Genuine(text, t, c, limit, maxLen, found)
    ensures forall i :: 0 <= i < |found| ==> c - t.at - 1 < found[i].back
  {
    hide Common, Places, TrueMatch;
    forall i | 0 <= i < |found|
      ensures TrueMatch(text, t, c, limit, found[i]) && c - t.at - 1 < found[i].back
    {
      Deeper(text, t, sub, c, limit, found[i]);
    }
  }

  lemma GenuineFirst(text: seq<byte>, t: Tree, c: nat, limit: nat, maxLen: nat, m: Match, found: seq<Match>)
    requires c + limit <= |text| && TrueMatch(text, t, c, limit, m) && maxLen < m.length
    requires Genuine(text, t, c, limit, m.length, found) && forall i :: 0 <= i < |found| ==> m.back < found[i].back
    ensures Genuine(text, t, c, limit, maxLen, [m] + found)
  {
    hide Common, Places, TrueMatch;
    var all := [m] + found;
    assert forall i :: 0 < i < |all| ==> all[i] == found[i - 1];
  }

  lemma GenuineNode(text: seq<byte>, t: Tree, sub: Tree, c: nat, limit: nat, maxLen: nat, found: seq<Match>)
    requires t.Node? && t.at < c && c + limit <= |text| && Places(sub) <= Places(t) && t.at in Places(t)
    requires forall y :: y in Places(sub) ==> y < t.at
    requires Genuine(text, sub, c, limit, Longer(maxLen, Common(text, t.at, c, limit)), found)
    ensures var len := Common(text, t.at, c, limit);
            var first := if maxLen < len then [Match(len, c - t.at - 1)] else [];
            Genuine(text, t, c, limit, maxLen, first + found)
  {
    hide Common, Places, Genuine;
    var len := Common(text, t.at, c, limit);
    AllDeeper(text, t, sub, c, limit, Longer(maxLen, len), found);
    if maxLen < len {
      GenuineFirst(text, t, c, limit, maxLen, Match(len, c - t.at - 1), found);
    } else {
      assert [] + found == found;
    }
  }

  lemma {:induction false} InsertGenuine(text: seq<byte>, c: nat, limit: nat, t: Tree, cut: nat, maxLen: nat, strict: bool)
    requires Ordered(text, t, limit, strict) && Room(text, t, c, limit)
    ensures c + limit <= |text|
    ensures Genuine(text, t, c, limit, maxLen, Insert(text, c, limit, t, cut, maxLen).found)
    decreases t
  {
    hide Common, Below, Insert, Room, Genuine;
    RoomEnd(text, t, c, limit);
    InsertStep(text, c, limit, t, cut, maxLen);
    NoMatches(text, t, c, limit, maxLen);
    if cut > 0 && t.Node? {
      NodeParts(text, t, c, limit, strict);
      var len := Common(text, t.at, c, limit);
      if len == limit {
        NoMatches(text, t.left, c, limit, Longer(maxLen, len));
        GenuineNode(text, t, t.left, c, limit, maxLen, []);
        assert Insert(text, c, limit, t, cut, maxLen).found + [] == Insert(text, c, limit, t, cut, maxLen).found;
      } else {
        var sub := if text[t.at + len] < text[c + len] then t.right else t.left;
        InsertGenuine(text, c, limit, sub, cut - 1, Longer(maxLen, len), strict);
        GenuineNode(text, t, sub, c, limit, maxLen, Insert(text, c, limit, sub, cut - 1, Longer(maxLen, len)).found);
      }
    }
  }

  lemma NoMatches(text: seq<byte>, t: Tree, c: nat, limit: nat, maxLen: nat)
    requires c + limit <= |text|
    ensures Genuine(text, t, c, limit, maxLen, [])
  {
  }

  /** The walk was given up with nodes still to visit. */
  predicate GivenUp(text: seq<byte>, c: nat, limit: nat, t: Tree, cut: nat)
    requires c + limit <= |text|
    decreases t
  {
    t.Node? && t.at < c &&
    (cut == 0 ||
     (var len := Common(text, t.at, c, limit);
      len < limit && GivenUp(text, c, limit, if text[t.at + len] < text[c + len] then t.right else t.left, cut - 1)))
  }

  /** Given up after cut nodes, so there are more than cut places between low and the root. */
  lemma {:induction false} GivenUpDeep(text: seq<byte>, c: nat, limit: nat, t: Tree, cut: nat, strict: bool, low: int)
    requires c + limit <= |text| && GivenUp(text, c, limit, t, cut) && Ordered(text, t, limit, strict)
    requires forall y :: y in Places(t) ==> y > low
    ensures t.Node? && t.at < c && cut < t.at - low
    decreases t
  {
    hide Common, Below;
    assert t.at in Places(t);
    if cut > 0 {
      var len := Common(text, t.at, c, limit);
      var sub := if text[t.at + len] < text[c + len] then t.right else t.left;
      GivenUpDeep(text, c, limit, sub, cut - 1, strict, low);
      assert sub.at in Places(sub);
    }
  }

  /** The length of the last match. */
  function Best(maxLen: nat, found: seq<Match>): nat {
    if found == [] then maxLen else found[|found| - 1].length
  }

  lemma NotGivenUp(text: seq<byte>, c: nat, limit: nat, t: Tree, cut: nat)
    requires c + limit <= |text| && t.Node? && t.at < c && !GivenUp(text, c, limit, t, cut)
    ensures cut > 0
    ensures var len := Common(text, t.at, c, limit);
            len < limit ==>
              !GivenUp(text, c, limit, if text[t.at + len] < text[c + len] then t.right else t.left, cut - 1)
  {
    hide Common;
  }

  /** No place of the tree has more than best bytes in common with c. */
  ghost predicate NoneLonger(text: seq<byte>, t: Tree, c: nat, limit: nat, best: nat)
    requires c + limit <= |text|
  {
    forall y :: y in Places(t) ==> y + limit <= |text| && Common(text, y, c, limit) <= best
  }

  lemma BestOfBoth(maxLen: nat, m: Match, found: seq<Match>)
    ensures Best(maxLen, [m] + found) == Best(m.length, found) && Best(maxLen, [] + found) == Best(maxLen, found)
  {
    assert [] + found == found;
  }

  lemma NoneLongerNode(text: seq<byte>, t: Tree, c: nat, limit: nat, len: nat, best: nat)
    requires t.Node? && c + limit <= |text| && t.at + limit <= |text| && len == Common(text, t.at, c, limit) <= best
    requires NoneLonger(text, t.left, c, limit, best) && NoneLonger(text, t.right, c, limit, best)
    ensures NoneLonger(text, t, c, limit, best)
  {
    hide Common;
  }

  lemma NoneLongerThan(text: seq<byte>, t: Tree, c: nat, limit: nat, len: nat, best: nat)
    requires c + limit <= |text| && NoneLonger(text, t, c, limit, len) && len <= best
    ensures NoneLonger(text, t, c, limit, best)
  {
    hide Common;
  }

  /** Unless the walk is given up, the last match is as long as any suffix in the tree allows. */
  lemma {:induction false} InsertLongest(text: seq<byte>, c: nat, limit: nat, t: Tree, cut: nat, maxLen: nat, strict: bool)
    requires Ordered(text, t, limit, strict) && Room(text, t, c, limit)
    requires c + limit <= |text| && !GivenUp(text, c, limit, t, cut)
    ensures var best := Best(maxLen, Insert(text, c, limit, t, cut, maxLen).found);
            maxLen <= best && NoneLonger(text, t, c, limit, best)
    decreases t
  {
    hide Common, Below, Insert, Room, GivenUp, Ordered, NoneLonger, Best, Places;
    InsertStep(text, c, limit, t, cut, maxLen);
    if t.Node? {
      NodeParts(text, t, c, limit, strict);
      NotGivenUp(text, c, limit, t, cut);
      var len := Common(text, t.at, c, limit);
      var m := Match(len, c - t.at - 1);
      if len < limit {
        var goRight := text[t.at + len] < text[c + len];
        var sub := if goRight then t.right else t.left;
        InsertLongest(text, c, limit, sub, cut - 1, Longer(maxLen, len), strict);
        var s := Insert(text, c, limit, sub, cut - 1, Longer(maxLen, len));
        BestOfBoth(maxLen, m, s.found);
        var best := Best(Longer(maxLen, len), s.found);
        FarSide(text, t, c, limit, strict);
        NoneLongerThan(text, if goRight then t.left else t.right, c, limit, len, best);
        NoneLongerNode(text, t, c, limit, len, best);
      } else {
        BestOfBoth(maxLen, m, []);
        BestNone(maxLen, len);
        assert [m] + [] == [m];
        InTree(text, t, c, limit);
        NoneLongerThan(text, t, c, limit, limit, Longer(maxLen, len));
      }
    } else {
      BestNone(maxLen, maxLen);
      NoneLongerLeaf(text, t, c, limit, maxLen);
    }
  }

  lemma BestNone(maxLen: nat, len: nat)
    ensures Best(maxLen, []) == maxLen && Best(len, []) == len
  {
  }

  lemma NoneLongerLeaf(text: seq<byte>, t: Tree, c: nat, limit: nat, best: nat)
    requires t.Leaf? && c + limit <= |text|
    ensures NoneLonger(text, t, c, limit, best)
  {
  }

  lemma InTree(text: seq<byte>, t: Tree, c: nat, limit: nat)
    requires Room(text, t, c, limit)
    ensures c + limit <= |text| && NoneLonger(text, t, c, limit, limit)
  {
    hide Common;
  }

  /** Beyond the root, seen from c, nothing has more in common with c than the root. */
  lemma FarSide(text: seq<byte>, t: Tree, c: nat, limit: nat, strict: bool)
    requires t.Node? && Ordered(text, t, limit, strict) && Room(text, t, c, limit) && t.at < c && c + limit <= |text|
    ensures var len := Common(text, t.at, c, limit);
            len < limit ==>
              NoneLonger(text, if text[t.at + len] < text[c + len] then t.left else t.right, c, limit, len)
  {
    hide Common, Below, Less, Shares;
    NodeParts(text, t, c, limit, strict);
    var len := Common(text, t.at, c, limit);
    Decided(text, t.at, c, limit, strict);
    if len < limit {
      var far := if text[t.at + len] < text[c + len] then t.left else t.right;
      forall y | y in Places(far)
        ensures y + limit <= |text| && Common(text, y, c, limit) <= len
      {
        if text[t.at + len] < text[c + len] {
          Weaken(text, y, t.at, limit, strict);
        } else {
          Weaken(text, t.at, y, limit, strict);
        }
        FartherShares(text, y, t.at, c, limit);
      }
    }
  }

  // ---------- The nearest matches ----------

  /** Some match is at least as long as what y has in common with c, and no further back than y. */
  ghost predicate Reached(text: seq<byte>, c: nat, limit: nat, y: nat, found: seq<Match>)
    requires c + limit <= |text| && y + limit <= |text|
  {
    exists i :: 0 <= i < |found| && found[i].length >= Common(text, y, c, limit) && found[i].back <= c - y - 1
  }

  /** So it is for each place of the tree with more than floor bytes in common with c. */
  ghost predicate Covered(text: seq<byte>, t: Tree, c: nat, limit: nat, floor: nat, found: seq<Match>)
    requires c + limit <= |text|
  {
    forall y :: y in Places(t) ==> y + limit <= |text| && (Common(text, y, c, limit) <= floor || Reached(text, c, limit, y, found))
  }

  lemma ReachedLater(text: seq<byte>, c: nat, limit: nat, y: nat, first: seq<Match>, found: seq<Match>)
    requires c + limit <= |text| && y + limit <= |text| && Reached(text, c, limit, y, found)
    ensures Reached(text, c, limit, y, first + found)
  {
    hide Common;
    var i :| 0 <= i < |found| && found[i].length >= Common(text, y, c, limit) && found[i].back <= c - y - 1;
    assert (first + found)[|first| + i] == found[i];
  }

  /** A root with len bytes in common covers what is below it as far as that. */
  lemma CoveredBelow(text: seq<byte>, u: Tree, at: nat, c: nat, limit: nat, maxLen: nat, len: nat, rest: seq<Match>)
    requires c + limit <= |text| && at < c && (forall y :: y in Places(u) ==> y <= at)
    requires Covered(text, u, c, limit, Longer(maxLen, len), rest)
    ensures var first := if maxLen < len then [Match(len, c - at - 1)] else [];
            Covered(text, u, c, limit, maxLen, first + rest)
  {
    hide Common, Places, Reached;
    var first := if maxLen < len then [Match(len, c - at - 1)] else [];
    forall y | y in Places(u)
      ensures y + limit <= |text| && (Common(text, y, c, limit) <= maxLen || Reached(text, c, limit, y, first + rest))
    {
      if Common(text, y, c, limit) > Longer(maxLen, len) {
        ReachedLater(text, c, limit, y, first, rest);
      } else if maxLen < len {
        ReachedAtRoot(text, c, limit, y, Match(len, c - at - 1), rest);
      }
    }
  }

  lemma ReachedAtRoot(text: seq<byte>, c: nat, limit: nat, y: nat, m: Match, rest: seq<Match>)
    requires c + limit <= |text| && y + limit <= |text| && Common(text, y, c, limit) <= m.length && m.back <= c - y - 1
    ensures Reached(text, c, limit, y, [m] + rest)
  {
    hide Common;
    assert ([m] + rest)[0] == m;
  }

  lemma CoveredNode(text: seq<byte>, t: Tree, c: nat, limit: nat, maxLen: nat, found: seq<Match>)
    requires t.Node? && c + limit <= |text| && t.at + limit <= |text|
    requires Covered(text, t.left, c, limit, maxLen, found) && Covered(text, t.right, c, limit, maxLen, found)
    requires Covered(text, Node(Leaf, t.at, Leaf), c, limit, maxLen, found)
    ensures Covered(text, t, c, limit, maxLen, found)
  {
    hide Common, Reached;
    OneLonger(text, t.at, c, limit);
    forall y | y in Places(t)
      ensures y + limit <= |text| && (Common(text, y, c, limit) <= maxLen || Reached(text, c, limit, y, found))
    {
      assert y in Places(t.left) || y in Places(t.right) || y in Places(Node(Leaf, t.at, Leaf));
    }
  }

  lemma CoveredShort(text: seq<byte>, t: Tree, c: nat, limit: nat, floor: nat, best: nat, found: seq<Match>)
    requires c + limit <= |text| && NoneLonger(text, t, c, limit, best) && best <= floor
    ensures Covered(text, t, c, limit, floor, found)
  {
    hide Common, Reached;
  }

  lemma OneLonger(text: seq<byte>, at: nat, c: nat, limit: nat)
    requires c + limit <= |text| && at + limit <= |text|
    ensures NoneLonger(text, Node(Leaf, at, Leaf), c, limit, Common(text, at, c, limit))
    ensures Places(Node(Leaf, at, Leaf)) == {at}
  {
    hide Common;
    assert Places(Leaf) == {};
  }

  /** Unless the walk is given up, no place of the tree is nearer than a match and has more in common with c. */
  lemma {:induction false} InsertCovers(text: seq<byte>, c: nat, limit: nat, t: Tree, cut: nat, maxLen: nat, strict: bool)
    requires Ordered(text, t, limit, strict) && Room(text, t, c, limit)
    requires c + limit <= |text| && !GivenUp(text, c, limit, t, cut)
    ensures Covered(text, t, c, limit, maxLen, Insert(text, c, limit, t, cut, maxLen).found)
    decreases t
  {
    hide Common, Below, Insert, Room, GivenUp, Ordered, NoneLonger, Covered, Places;
    InsertStep(text, c, limit, t, cut, maxLen);
    if t.Node? {
      NodeParts(text, t, c, limit, strict);
      NotGivenUp(text, c, limit, t, cut);
      OlderBelow(text, t, limit, strict);
      var len := Common(text, t.at, c, limit);
      var first := if maxLen < len then [Match(len, c - t.at - 1)] else [];
      var rest: seq<Match> := [];
      if len < limit {
        var goRight := text[t.at + len] < text[c + len];
        var sub := if goRight then t.right else t.left;
        InsertCovers(text, c, limit, sub, cut - 1, Longer(maxLen, len), strict);
        rest := Insert(text, c, limit, sub, cut - 1, Longer(maxLen, len)).found;
        FarSide(text, t, c, limit, strict);
        CoveredShort(text, if goRight then t.left else t.right, c, limit, Longer(maxLen, len), len, rest);
      } else {
        InTree(text, t.left, c, limit);
        InTree(text, t.right, c, limit);
        CoveredShort(text, t.left, c, limit, Longer(maxLen, len), limit, rest);
        CoveredShort(text, t.right, c, limit, Longer(maxLen, len), limit, rest);
        assert first + rest == first;
      }
      OneLonger(text, t.at, c, limit);
      CoveredShort(text, Node(Leaf, t.at, Leaf), c, limit, Longer(maxLen, len), len, rest);
      CoveredBelow(text, t.left, t.at, c, limit, maxLen, len, rest);
      CoveredBelow(text, t.right, t.at, c, limit, maxLen, len, rest);
      CoveredBelow(text, Node(Leaf, t.at, Leaf), t.at, c, limit, maxLen, len, rest);
      CoveredNode(text, t, c, limit, maxLen, first + rest);
    } else {
      CoveredLeaf(text, t, c, limit, maxLen, Insert(text, c, limit, t, cut, maxLen).found);
    }
  }

  lemma CoveredLeaf(text: seq<byte>, t: Tree, c: nat, limit: nat, maxLen: nat, found: seq<Match>)
    requires t.Leaf? && c + limit <= |text|
    ensures Covered(text, t, c, limit, maxLen, found)
  {
  }

  lemma OlderBelow(text: seq<byte>, t: Tree, limit: nat, strict: bool)
    requires t.Node? && Ordered(text, t, limit, strict)
    ensures forall y :: y in Places(t.left) ==> y <= t.at
    ensures forall y :: y in Places(t.right) ==> y <= t.at
  {
    hide Below;
  }

  // ---------- What stands for what ----------

  /** The place y is in the tree, or a later one that has the same bytes as far as limit. */
  ghost predicate Holds(text: seq<byte>, t: Tree, y: nat, limit: nat) {
    exists z :: z in Places(t) && StandsFor(text, z, y, limit)
  }

  predicate StandsFor(text: seq<byte>, z: nat, y: nat, limit: nat) {
    y <= z && Shares(text, z, y, limit)
  }

  /** Unless the walk is given up, only a place that c stands for is dropped. */
  lemma {:induction false} InsertKeeps(text: seq<byte>, c: nat, limit: nat, t: Tree, cut: nat, maxLen: nat,
      strict: bool, y: nat)
    requires Ordered(text, t, limit, strict) && Room(text, t, c, limit) && y in Places(t)
    requires c + limit <= |text| && !GivenUp(text, c, limit, t, cut)
    ensures var s := Insert(text, c, limit, t, cut, maxLen);
            y in Places(s.left) || y in Places(s.right) || StandsFor(text, c, y, limit)
    decreases t
  {
    hide Common, Below, Insert, Room, GivenUp, Ordered, Shares;
    InsertStep(text, c, limit, t, cut, maxLen);
    NodeParts(text, t, c, limit, strict);
    NotGivenUp(text, c, limit, t, cut);
    var len := Common(text, t.at, c, limit);
    if len == limit {
      SharesBack(text, t.at, c, limit);
    } else {
      var sub := if text[t.at + len] < text[c + len] then t.right else t.left;
      if y in Places(sub) {
        InsertKeeps(text, c, limit, sub, cut - 1, Longer(maxLen, len), strict, y);
      }
    }
  }

  /** So what was held still is. */
  lemma HoldsInserted(text: seq<byte>, c: nat, limit: nat, t: Tree, cut: nat, maxLen: nat, strict: bool, y: nat)
    requires Ordered(text, t, limit, strict) && Room(text, t, c, limit) && Holds(text, t, y, limit)
    requires c + limit <= |text| && !GivenUp(text, c, limit, t, cut)
    ensures var s := Insert(text, c, limit, t, cut, maxLen);
            Holds(text, Node(s.left, c, s.right), y, limit)
  {
    hide Insert, Room, GivenUp, Ordered, Shares;
    var z :| z in Places(t) && StandsFor(text, z, y, limit);
    InsertKeeps(text, c, limit, t, cut, maxLen, strict, z);
    var s := Insert(text, c, limit, t, cut, maxLen);
    var root := Node(s.left, c, s.right);
    assert c in Places(root);
    if StandsFor(text, c, z, limit) {
      SharesOn(text, c, z, y, limit);
      assert StandsFor(text, c, y, limit);
    } else {
      assert z in Places(root);
    }
  }

  // ---------- The new tree ----------

  /** The new root c: a search tree again, over no other places than the old one and c. */
  lemma RootedOrdered(text: seq<byte>, c: nat, limit: nat, t: Tree, cut: nat, maxLen: nat, strict: bool)
    requires Ordered(text, t, limit, strict) && Room(text, t, c, limit)
    ensures var s := Insert(text, c, limit, t, cut, maxLen);
            var root := Node(s.left, c, s.right);
            Ordered(text, root, limit, strict) && Places(root) <= Places(t) + {c}
  {
    InsertOrdered(text, c, limit, t, cut, maxLen, strict);
    InsertSides(text, c, limit, t, cut, maxLen, strict);
    hide Insert, Below;
  }

  /** A shorter limit keeps a search tree one, but without its strictness. */
  lemma {:induction false} OrderedShorter(text: seq<byte>, t: Tree, limit: nat, shorter: nat, strict: bool)
    requires Ordered(text, t, limit, strict) && shorter <= limit
    ensures Ordered(text, t, shorter, false)
  {
    hide Below;
    if t.Node? {
      OrderedShorter(text, t.left, limit, shorter, strict);
      OrderedShorter(text, t.right, limit, shorter, strict);
      forall y | y in Places(t.left)
        ensures Below(text, y, t.at, shorter, false)
      {
        BelowShorter(text, y, t.at, limit, shorter, strict);
      }
      forall y | y in Places(t.right)
        ensures Below(text, t.at, y, shorter, false)
      {
        BelowShorter(text, t.at, y, limit, shorter, strict);
      }
    }
  }

  lemma BelowMore(text: seq<byte>, more: seq<byte>, a: nat, b: nat, limit: nat, strict: bool)
    requires Below(text, a, b, limit, strict)
    ensures Below(text + more, a, b, limit, strict)
  {
    forall n: nat | Shares(text, a, b, n)
      ensures Shares(text + more, a, b, n)
    {
      forall i: nat | i < n
        ensures SameByte(text + more, a, b, i)
      {
        assert SameByte(text, a, b, i);
      }
    }
    if Less(text, a, b, limit) {
      var n: nat :| n < limit && DiffersAt(text, a, b, n);
      assert DiffersAt(text + more, a, b, n);
    }
  }

  /** More text does not disturb the order. */
  lemma {:induction false} OrderedMore(text: seq<byte>, more: seq<byte>, t: Tree, limit: nat, strict: bool)
    requires Ordered(text, t, limit, strict)
    ensures Ordered(text + more, t, limit, strict)
  {
    hide Below;
    if t.Node? {
      OrderedMore(text, more, t.left, limit, strict);
      OrderedMore(text, more, t.right, limit, strict);
      forall y | y in Places(t.left)
        ensures Below(text + more, y, t.at, limit, strict)
      {
        BelowMore(text, more, y, t.at, limit, strict);
      }
      forall y | y in Places(t.right)
        ensures Below(text + more, t.at, y, limit, strict)
      {
        BelowMore(text, more, t.at, y, limit, strict);
      }
    }
  }

  /** The tree without the places before oldest, and without what hangs below them. */
  function Pruned(t: Tree, oldest: int): Tree {
    if t.Leaf? || t.at < oldest then Leaf else Node(Pruned(t.left, oldest), t.at, Pruned(t.right, oldest))
  }

  /** When the window moves on, the trees lose exactly the places that leave it. */
  lemma {:induction false} PrunedPlaces(text: seq<byte>, t: Tree, oldest: int, limit: nat, strict: bool)
    requires Ordered(text, t, limit, strict)
    ensures Places(Pruned(t, oldest)) == (set y | y in Places(t) && y >= oldest)
    ensures Ordered(text, Pruned(t, oldest), limit, strict)
  {
    hide Below;
    if t.Node? && t.at >= oldest {
      PrunedPlaces(text, t.left, oldest, limit, strict);
      PrunedPlaces(text, t.right, oldest, limit, strict);
    }
  }
}
