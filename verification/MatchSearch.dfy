/** The inner loops of the match finder: GetMatchesSpec1 and SkipMatchesSpec of LzFind.c. */
module MatchSearch {
  import opened Bytes
  import opened MatchTree
  import opened MatchArray
  import opened MatchWalk

  // ---------- What two neighbours tell about the common bytes ----------

  /** Each place of t is above low, which has len1 bytes in common with c, and below high, which has len0. */
  ghost predicate Between(text: seq<byte>, c: nat, limit: nat, t: Tree, low: nat, len1: nat, high: nat, len0: nat) {
    && len0 < limit && len1 < limit
    && (len1 > 0 ==> Shares(text, low, c, len1) && forall y :: y in Places(t) ==> Below(text, low, y, limit, false))
    && (len0 > 0 ==> Shares(text, high, c, len0) && forall y :: y in Places(t) ==> Below(text, y, high, limit, false))
  }

  /** So the smaller number of bytes need not be compared again. */
  lemma BetweenCommon(text: seq<byte>, c: nat, limit: nat, t: Tree, low: nat, len1: nat, high: nat, len0: nat)
    requires Between(text, c, limit, t, low, len1, high, len0) && t.Node? && c + limit <= |text| && t.at < c
    ensures Shares(text, t.at, c, if len0 < len1 then len0 else len1)
  {
    hide Below, Shares;
    assert t.at in Places(t);
    var len := if len0 < len1 then len0 else len1;
    if len == 0 {
      SharesNone(text, t.at, c);
    } else {
      SharesFewer(text, low, c, len1, len);
      SharesFewer(text, high, c, len0, len);
      BetweenShares(text, low, t.at, high, c, len, limit);
    }
  }

  lemma SharesNone(text: seq<byte>, a: nat, b: nat)
    requires a <= |text| && b <= |text|
    ensures Shares(text, a, b, 0)
  {
  }

  lemma SharesFewer(text: seq<byte>, a: nat, b: nat, n: nat, m: nat)
    requires Shares(text, a, b, n) && m <= n
    ensures Shares(text, a, b, m)
  {
  }

  lemma SharesMore(text: seq<byte>, a: nat, b: nat, n: nat)
    requires Shares(text, a, b, n) && a + n < |text| && b + n < |text| && text[a + n] == text[b + n]
    ensures Shares(text, a, b, n + 1)
  {
    forall i: nat | i < n + 1
      ensures SameByte(text, a, b, i)
    {
      assert i < n ==> SameByte(text, a, b, i);
    }
  }

  /** On the way to a child, the root is one of the neighbours. */
  lemma BetweenChild(text: seq<byte>, c: nat, limit: nat, t: Tree, low: nat, len1: nat, high: nat, len0: nat)
    requires Between(text, c, limit, t, low, len1, high, len0) && t.Node? && Ordered(text, t, limit, false)
    requires c + limit <= |text| && t.at + limit <= |text|
    ensures var len := Common(text, t.at, c, limit);
            len < limit ==>
              && Between(text, c, limit, t.right, t.at, len, high, len0)
              && Between(text, c, limit, t.left, low, len1, t.at, len)
  {
    hide Below, Shares, Common;
  }

  /** The bytes after the first len are compared until they differ, or limit is reached. */
  method CountOn(text: seq<byte>, a: nat, c: nat, len: nat, limit: nat) returns (n: nat)
    requires a + limit <= |text| && c + limit <= |text| && len < limit && Shares(text, a, c, len + 1)
    ensures n == Common(text, a, c, limit)
  {
    n := len + 1;
    while n != limit
      invariant len < n <= limit && Shares(text, a, c, n)
    {
      if text[a + n] != text[c + n] { break; }
      SharesMore(text, a, c, n);
      n := n + 1;
    }
    CommonIs(text, a, c, limit, n);
  }

  /** The common bytes of a node, given that the first len are known to be the same. */
  method CountFrom(text: seq<byte>, a: nat, c: nat, len: nat, limit: nat) returns (n: nat)
    requires a + limit <= |text| && c + limit <= |text| && len < limit && Shares(text, a, c, len)
    ensures n == Common(text, a, c, limit)
  {
    n := len;
    if text[a + n] == text[c + n] {
      SharesMore(text, a, c, n);
      n := CountOn(text, a, c, n, limit);
    } else {
      CommonIs(text, a, c, limit, n);
    }
  }

  // ---------- The walk as it is done ----------

  /** The walk that is under way will end as the whole walk does. */
  ghost predicate OnTheWay(text: seq<byte>, w: Window, limit: nat, r: seq<nat>, son: seq<nat>, ref: nat, p0: nat,
      p1: nat, cut: nat,
      a: set<nat>, b: set<nat>, low: nat, len1: nat, high: nat, len0: nat)
  {
    && WindowOk(w) && |son| == 2 * w.size && p0 < |son| && p1 < |son| && w.c + limit <= |text|
    && Walking(text, w, son, limit, ref, p0, p1, a, b)
    && Between(text, w.c, limit, TreeOf(son, w, ref), low, len1, high, len0)
    && Walk(text, w, son, limit, ref, p0, p1, cut) == r
  }

  lemma Starts(text: seq<byte>, w: Window, limit: nat, son: seq<nat>, ref: nat, cut: nat)
    requires WindowOk(w) && |son| == 2 * w.size && 0 < limit && w.c + limit <= |text|
    requires Ordered(text, TreeOf(son, w, ref), limit, false) && Room(text, TreeOf(son, w, ref), w.c, limit)
    ensures OnTheWay(text, w, limit, Walk(text, w, son, limit, ref, 2 * w.cyc + 1, 2 * w.cyc, cut),
                     son, ref, 2 * w.cyc + 1, 2 * w.cyc, cut, {}, {}, 0, 0, 0, 0)
  {
    hide Walk, Walking, Ordered, Room, TreeOf;
    WalkStarts(text, w, son, limit, ref);
  }

  /** What is known where the walk is. */
  lemma AtNode(text: seq<byte>, w: Window, limit: nat, r: seq<nat>, son: seq<nat>, ref: nat, p0: nat, p1: nat, cut: nat,
      a: set<nat>, b: set<nat>, low: nat, len1: nat, high: nat, len0: nat)
    requires OnTheWay(text, w, limit, r, son, ref, p0, p1, cut, a, b, low, len1, high, len0)
    ensures WindowOk(w) && |son| == 2 * w.size && p0 < |son| && p1 < |son| && w.c + limit <= |text|
    ensures len0 < limit && len1 < limit
    ensures var t := TreeOf(son, w, ref);
            && t.Node? == Live(w, ref) == IsNode(w, ref)
            && (cut == 0 || !Live(w, ref) ==> r == son[p1 := 0][p0 := 0])
            && (t.Node? ==>
                  && t.at == Place(w, ref) && t.at < w.c && t.at + limit <= |text|
                  && Shares(text, t.at, w.c, if len0 < len1 then len0 else len1))
            && (t.Node? && cut > 0 && Common(text, t.at, w.c, limit) == limit ==>
                  var s := son[p1 := son[2 * Slot(w, ref)]];
                  r == s[p0 := s[2 * Slot(w, ref) + 1]])
  {
    hide Walk, Walking, TreeOf, Between, Live, Common, Slot;
    WalkingTree(text, w, son, limit, ref, p0, p1, a, b);
    WalkStep(text, w, son, limit, ref, p0, p1, cut);
    var t := TreeOf(son, w, ref);
    if t.Node? {
      BetweenCommon(text, w.c, limit, t, low, len1, high, len0);
    }
    BetweenLengths(text, w.c, limit, t, low, len1, high, len0);
  }

  lemma BetweenLengths(text: seq<byte>, c: nat, limit: nat, t: Tree, low: nat, len1: nat, high: nat, len0: nat)
    requires Between(text, c, limit, t, low, len1, high, len0)
    ensures len0 < limit && len1 < limit
  {
  }

  lemma TreeKnown(text: seq<byte>, w: Window, son: seq<nat>, limit: nat, ref: nat, p0: nat, p1: nat, a: set<nat>,
      b: set<nat>)
    requires WindowOk(w) && |son| == 2 * w.size && Walking(text, w, son, limit, ref, p0, p1, a, b)
    ensures Ordered(text, TreeOf(son, w, ref), limit, false) && Room(text, TreeOf(son, w, ref), w.c, limit)
  {
  }

  /** The places seen once the walk has left t for a child. */
  ghost function Passed(seen: set<nat>, t: Tree, other: Tree): set<nat> {
    if t.Node? then seen + Places(other) + {t.at} else seen
  }

  lemma GoesRight(text: seq<byte>, w: Window, limit: nat, r: seq<nat>, son: seq<nat>, ref: nat, p0: nat, p1: nat, cut: nat,
      a: set<nat>, b: set<nat>, low: nat, len1: nat, high: nat, len0: nat)
    requires OnTheWay(text, w, limit, r, son, ref, p0, p1, cut, a, b, low, len1, high, len0)
    requires cut > 0 && Live(w, ref) && IsNode(w, ref) && Place(w, ref) + limit <= |text|
    requires var len := Common(text, Place(w, ref), w.c, limit);
             len < limit && text[Place(w, ref) + len] < text[w.c + len]
    ensures var t := TreeOf(son, w, ref);
            var s := son[p1 := ref];
            var q := 2 * Slot(w, ref) + 1;
            && t.Node? && TreeOf(s, w, s[q]) == t.right
            && OnTheWay(text, w, limit, r, s, s[q], p0, q, cut - 1, Passed(a, t, t.left), b,
                        t.at, Common(text, t.at, w.c, limit), high, len0)
  {
    hide Walk, Walking, TreeOf, Between, Live, Common, Slot, Places, Ordered, Room;
    WalkingTree(text, w, son, limit, ref, p0, p1, a, b);
    WalkStep(text, w, son, limit, ref, p0, p1, cut);
    TreeKnown(text, w, son, limit, ref, p0, p1, a, b);
    BetweenChild(text, w.c, limit, TreeOf(son, w, ref), low, len1, high, len0);
    WalkRight(text, w, son, limit, ref, p0, p1, a, b);
  }

  lemma GoesLeft(text: seq<byte>, w: Window, limit: nat, r: seq<nat>, son: seq<nat>, ref: nat, p0: nat, p1: nat, cut: nat,
      a: set<nat>, b: set<nat>, low: nat, len1: nat, high: nat, len0: nat)
    requires OnTheWay(text, w, limit, r, son, ref, p0, p1, cut, a, b, low, len1, high, len0)
    requires cut > 0 && Live(w, ref) && IsNode(w, ref) && Place(w, ref) + limit <= |text|
    requires var len := Common(text, Place(w, ref), w.c, limit);
             len < limit && text[Place(w, ref) + len] >= text[w.c + len]
    ensures var t := TreeOf(son, w, ref);
            var s := son[p0 := ref];
            var q := 2 * Slot(w, ref);
            && t.Node? && TreeOf(s, w, s[q]) == t.left
            && OnTheWay(text, w, limit, r, s, s[q], q, p1, cut - 1, a, Passed(b, t, t.right),
                        low, len1, t.at, Common(text, t.at, w.c, limit))
  {
    hide Walk, Walking, TreeOf, Between, Live, Common, Slot, Places, Ordered, Room;
    WalkingTree(text, w, son, limit, ref, p0, p1, a, b);
    WalkStep(text, w, son, limit, ref, p0, p1, cut);
    TreeKnown(text, w, son, limit, ref, p0, p1, a, b);
    BetweenChild(text, w.c, limit, TreeOf(son, w, ref), low, len1, high, len0);
    WalkLeft(text, w, son, limit, ref, p0, p1, a, b);
  }

  /** *cell = ref */
  method Store(son: array<nat>, cell: nat, ref: nat)
    requires cell < son.Length
    modifies son
    ensures son[..] == old(son[..])[cell := ref]
  {
    son[cell] := ref;
  }

  /** SkipMatchesSpec: inserts c into the tree of curMatch. */
  method SkipMatchesSpec(text: seq<byte>, w: Window, son: array<nat>, lenLimit: nat, curMatch: nat, cutValue: nat)
    requires WindowOk(w) && son.Length == 2 * w.size && 0 < lenLimit && w.c + lenLimit <= |text|
    requires Ordered(text, TreeOf(son[..], w, curMatch), lenLimit, false)
    requires Room(text, TreeOf(son[..], w, curMatch), w.c, lenLimit)
    modifies son
    ensures son[..] == Walk(text, w, old(son[..]), lenLimit, curMatch, 2 * w.cyc + 1, 2 * w.cyc, cutValue)
  {
    hide OnTheWay, Passed, Walk, Ordered, Room, TreeOf, Common, Shares, Places;
    var ptr0: nat, ptr1: nat := 2 * w.cyc + 1, 2 * w.cyc;
    var ref: nat, cut: nat := curMatch, cutValue;
    var len0: nat, len1: nat := 0, 0;
    ghost var r := Walk(text, w, son[..], lenLimit, curMatch, ptr0, ptr1, cut);
    ghost var a: set<nat>, b: set<nat>, low: nat, high: nat := {}, {}, 0, 0;
    Starts(text, w, lenLimit, son[..], curMatch, cutValue);
    while true
      invariant OnTheWay(text, w, lenLimit, r, son[..], ref, ptr0, ptr1, cut, a, b, low, len1, high, len0)
      decreases cut
    {
      AtNode(text, w, lenLimit, r, son[..], ref, ptr0, ptr1, cut, a, b, low, len1, high, len0);
      if cut == 0 || !Live(w, ref) {
        Store(son, ptr1, 0);
        Store(son, ptr0, 0);
        return;
      }
      var pair := 2 * Slot(w, ref);
      var at: nat := Place(w, ref);
      var len := if len0 < len1 then len0 else len1;
      len := CountFrom(text, at, w.c, len, lenLimit);
      if len == lenLimit {
        Store(son, ptr1, son[pair]);
        Store(son, ptr0, son[pair + 1]);
        return;
      }
      ghost var t := TreeOf(son[..], w, ref);
      ghost var was: seq<nat> := son[..];
      if text[at + len] < text[w.c + len] {
        GoesRight(text, w, lenLimit, r, son[..], ref, ptr0, ptr1, cut, a, b, low, len1, high, len0);
        Store(son, ptr1, ref);
        ptr1 := pair + 1;
        ref := son[ptr1];
        len1 := len;
        low, a := t.at, Passed(a, t, t.left);
      } else {
        GoesLeft(text, w, lenLimit, r, son[..], ref, ptr0, ptr1, cut, a, b, low, len1, high, len0);
        Store(son, ptr0, ref);
        ptr0 := pair;
        ref := son[ptr0];
        len0 := len;
        high, b := t.at, Passed(b, t, t.right);
      }
      cut := cut - 1;
    }
  }

  /** The matches reported so far, and those that the rest of the walk will report. */
  ghost predicate Reports(text: seq<byte>, c: nat, limit: nat, all: seq<Match>, distances: seq<Match>, t: Tree,
      cut: nat, maxLen: nat) {
    c + limit <= |text| && distances + Insert(text, c, limit, t, cut, maxLen).found == all
  }

  lemma ReportsStart(text: seq<byte>, c: nat, limit: nat, t: Tree, cut: nat, maxLen: nat)
    requires c + limit <= |text|
    ensures Reports(text, c, limit, Insert(text, c, limit, t, cut, maxLen).found, [], t, cut, maxLen)
  {
  }

  /** The matches after a node with len common bytes, back + 1 bytes before. */
  function Added(distances: seq<Match>, maxLen: nat, len: nat, back: nat): seq<Match> {
    if maxLen < len then distances + [Match(len, back)] else distances
  }

  lemma ReportsDone(text: seq<byte>, c: nat, limit: nat, all: seq<Match>, distances: seq<Match>, t: Tree, cut: nat,
      maxLen: nat)
    requires Reports(text, c, limit, all, distances, t, cut, maxLen) && (cut == 0 || t.Leaf?)
    ensures distances == all
  {
  }

  lemma ReportsLast(text: seq<byte>, c: nat, limit: nat, all: seq<Match>, distances: seq<Match>, t: Tree, cut: nat,
      maxLen: nat)
    requires Reports(text, c, limit, all, distances, t, cut, maxLen) && cut > 0 && t.Node? && t.at < c && c + limit <= |text|
    requires Common(text, t.at, c, limit) == limit
    ensures Added(distances, maxLen, limit, c - t.at - 1) == all
  {
    hide Common, Insert;
    InsertStep(text, c, limit, t, cut, maxLen);
  }

  lemma ReportsRight(text: seq<byte>, c: nat, limit: nat, all: seq<Match>, distances: seq<Match>, t: Tree, cut: nat,
      maxLen: nat, len: nat)
    requires Reports(text, c, limit, all, distances, t, cut, maxLen) && cut > 0 && t.Node? && t.at < c && c + limit <= |text|
    requires len == Common(text, t.at, c, limit) < limit && text[t.at + len] < text[c + len]
    ensures Reports(text, c, limit, all, Added(distances, maxLen, len, c - t.at - 1), t.right, cut - 1, Longer(maxLen, len))
  {
    hide Common, Insert;
    InsertStep(text, c, limit, t, cut, maxLen);
    var rest := Insert(text, c, limit, t.right, cut - 1, Longer(maxLen, len)).found;
    assert distances + ([Match(len, c - t.at - 1)] + rest) == distances + [Match(len, c - t.at - 1)] + rest;
    assert distances + ([] + rest) == distances + rest;
  }

  lemma ReportsLeft(text: seq<byte>, c: nat, limit: nat, all: seq<Match>, distances: seq<Match>, t: Tree, cut: nat,
      maxLen: nat, len: nat)
    requires Reports(text, c, limit, all, distances, t, cut, maxLen) && cut > 0 && t.Node? && t.at < c && c + limit <= |text|
    requires len == Common(text, t.at, c, limit) < limit && text[t.at + len] >= text[c + len]
    ensures Reports(text, c, limit, all, Added(distances, maxLen, len, c - t.at - 1), t.left, cut - 1, Longer(maxLen, len))
  {
    hide Common, Insert;
    InsertStep(text, c, limit, t, cut, maxLen);
    var rest := Insert(text, c, limit, t.left, cut - 1, Longer(maxLen, len)).found;
    assert distances + ([Match(len, c - t.at - 1)] + rest) == distances + [Match(len, c - t.at - 1)] + rest;
    assert distances + ([] + rest) == distances + rest;
  }

  /** GetMatchesSpec1: inserts c into the tree of curMatch and reports the matches met on the way. */
  method GetMatchesSpec1(text: seq<byte>, w: Window, son: array<nat>, lenLimit: nat, curMatch: nat, cutValue: nat, bestLen: nat)
    returns (distances: seq<Match>)
    requires WindowOk(w) && son.Length == 2 * w.size && bestLen < lenLimit && w.c + lenLimit <= |text|
    requires Ordered(text, TreeOf(son[..], w, curMatch), lenLimit, false)
    requires Room(text, TreeOf(son[..], w, curMatch), w.c, lenLimit)
    modifies son
    ensures son[..] == Walk(text, w, old(son[..]), lenLimit, curMatch, 2 * w.cyc + 1, 2 * w.cyc, cutValue)
    ensures distances == Insert(text, w.c, lenLimit, TreeOf(old(son[..]), w, curMatch), cutValue, bestLen).found
  {
    hide OnTheWay, Passed, Walk, Ordered, Room, TreeOf, Common, Shares, Places, Insert, Slot, Live, Reports, IsNode;
    var ptr0: nat, ptr1: nat := 2 * w.cyc + 1, 2 * w.cyc;
    var ref: nat, cut: nat, maxLen: nat := curMatch, cutValue, bestLen;
    var len0: nat, len1: nat := 0, 0;
    distances := [];
    ghost var r := Walk(text, w, son[..], lenLimit, curMatch, ptr0, ptr1, cut);
    ghost var all := Insert(text, w.c, lenLimit, TreeOf(son[..], w, ref), cut, maxLen).found;
    ghost var a: set<nat>, b: set<nat>, low: nat, high: nat := {}, {}, 0, 0;
    Starts(text, w, lenLimit, son[..], curMatch, cutValue);
    ReportsStart(text, w.c, lenLimit, TreeOf(son[..], w, ref), cut, maxLen);
    while true
      invariant OnTheWay(text, w, lenLimit, r, son[..], ref, ptr0, ptr1, cut, a, b, low, len1, high, len0)
      invariant len0 <= maxLen && len1 <= maxLen < lenLimit && w.c + lenLimit <= |text|
      invariant Reports(text, w.c, lenLimit, all, distances, TreeOf(son[..], w, ref), cut, maxLen)
      decreases cut
    {
      AtNode(text, w, lenLimit, r, son[..], ref, ptr0, ptr1, cut, a, b, low, len1, high, len0);
      ghost var t := TreeOf(son[..], w, ref);
      ghost var was := distances;
      ghost var best := maxLen;
      if cut == 0 || !Live(w, ref) {
        ReportsDone(text, w.c, lenLimit, all, distances, t, cut, maxLen);
        Store(son, ptr1, 0);
        Store(son, ptr0, 0);
        return;
      }
      var pair := 2 * Slot(w, ref);
      var at: nat := Place(w, ref);
      var len := if len0 < len1 then len0 else len1;
      if text[at + len] == text[w.c + len] {
        SharesMore(text, at, w.c, len);
        len := CountOn(text, at, w.c, len, lenLimit);
        if maxLen < len {
          maxLen := len;
          distances := distances + [Match(len, w.c - at - 1)];
          if len == lenLimit {
            ReportsLast(text, w.c, lenLimit, all, was, t, cut, best);
            Store(son, ptr1, son[pair]);
            Store(son, ptr0, son[pair + 1]);
            return;
          }
        }
      } else {
        CommonIs(text, at, w.c, lenLimit, len);
      }
      assert distances == Added(was, best, len, w.c - at - 1) && maxLen == Longer(best, len);
      if text[at + len] < text[w.c + len] {
        ReportsRight(text, w.c, lenLimit, all, was, t, cut, best, len);
        GoesRight(text, w, lenLimit, r, son[..], ref, ptr0, ptr1, cut, a, b, low, len1, high, len0);
        Store(son, ptr1, ref);
        ptr1 := pair + 1;
        ref := son[ptr1];
        len1 := len;
        low, a := t.at, Passed(a, t, t.left);
      } else {
        ReportsLeft(text, w.c, lenLimit, all, was, t, cut, best, len);
        GoesLeft(text, w, lenLimit, r, son[..], ref, ptr0, ptr1, cut, a, b, low, len1, high, len0);
        Store(son, ptr0, ref);
        ptr0 := pair;
        ref := son[ptr0];
        len0 := len;
        high, b := t.at, Passed(b, t, t.right);
      }
      cut := cut - 1;
    }
  }
}
