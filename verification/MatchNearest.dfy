/** What the match finder finds: the matches of one position, said of the text alone. */
module MatchNearest {
  import opened Bytes
  import opened MatchTree
  import opened MatchArray
  import opened MatchWalk
  import opened MatchHash
  import opened MatchTables
  import opened MatchComplete

  // ---------- The last place with a hash value ----------

  /** The suffixes at y and c have the same value of h2, h3 or hv, with n bytes hashed. */
  predicate SameHash(text: seq<byte>, s: Setup, n: nat, y: nat, c: nat) {
    && Hashable(text, s.crc, y) && Hashable(text, s.crc, c)
    && if n == 2 then Hash2(text, s.crc, y) == Hash2(text, s.crc, c)
       else if n == 3 then Hash3(text, s.crc, y) == Hash3(text, s.crc, c)
       else s.size4 > 0 && Hash4(text, s.crc, s.size4, y) == Hash4(text, s.crc, s.size4, c)
  }

  /** The last place before c, and in a window of size, with c's hash value. */
  ghost predicate Newest(text: seq<byte>, s: Setup, n: nat, c: nat, size: nat, y: nat) {
    && y < c && c - y < size && SameHash(text, s, n, y, c)
    && forall z: nat :: y < z < c ==> !SameHash(text, s, n, z, c)
  }

  /** Full tables: sound for every entry, and with no position left out. */
  ghost predicate Full(text: seq<byte>, w: Window, s: Setup, hash: seq<nat>, son: seq<nat>, limit: nat, whole: bool) {
    Tables(text, w, s, hash, son, limit) && Complete(text, w, s, hash, son, limit, whole) && limit >= 4
  }

  lemma IsWithin(text: seq<byte>, w: Window, s: Setup, y: nat)
    requires Hashable(text, s.crc, w.c) && y < w.c && w.c - y < w.size
    ensures Within(text, w, y) && Hashable(text, s.crc, y)
  {
  }

  /** The entries of the first two tables are the last places with these hash values. */
  lemma LiveIsNewest2(text: seq<byte>, w: Window, s: Setup, hash: seq<nat>, son: seq<nat>, limit: nat, whole: bool)
    requires Full(text, w, s, hash, son, limit, whole)
    ensures Hashable(text, s.crc, w.c) && Sizes(w, s, hash, son)
    ensures var ref := Cell2(hash, Hash2(text, s.crc, w.c));
            && ref < w.pos
            && (Live(w, ref) ==> Place(w, ref) >= 0 && Newest(text, s, 2, w.c, w.size, Place(w, ref)))
  {
    hide Hash2, Hash3, Hash4, Hit3, Rooted, Holds, TreeOf;
    var h := Hash2(text, s.crc, w.c);
    var ref := Cell2(hash, h);
    assert Hit2(text, w, s, ref, h);
    if Live(w, ref) {
      var y := Place(w, ref);
      IsWithin(text, w, s, y);
      forall z: nat | y < z < w.c
        ensures !SameHash(text, s, 2, z, w.c)
      {
        assert Within(text, w, z) && Known(text, w, s, hash, son, limit, whole, z);
      }
    }
  }

  lemma LiveIsNewest3(text: seq<byte>, w: Window, s: Setup, hash: seq<nat>, son: seq<nat>, limit: nat, whole: bool)
    requires Full(text, w, s, hash, son, limit, whole)
    ensures Hashable(text, s.crc, w.c) && Sizes(w, s, hash, son)
    ensures var ref := Cell3(hash, Hash3(text, s.crc, w.c));
            && ref < w.pos
            && (Live(w, ref) ==> Place(w, ref) >= 0 && Newest(text, s, 3, w.c, w.size, Place(w, ref)))
  {
    hide Hash2, Hash3, Hash4, Hit2, Rooted, Holds, TreeOf;
    var h := Hash3(text, s.crc, w.c);
    var ref := Cell3(hash, h);
    assert Hit3(text, w, s, ref, h);
    if Live(w, ref) {
      var y := Place(w, ref);
      IsWithin(text, w, s, y);
      forall z: nat | y < z < w.c
        ensures !SameHash(text, s, 3, z, w.c)
      {
        assert Within(text, w, z) && Known(text, w, s, hash, son, limit, whole, z);
      }
    }
  }

  lemma Newest2IsLive(text: seq<byte>, w: Window, s: Setup, hash: seq<nat>, son: seq<nat>, limit: nat, whole: bool, y: nat)
    requires Full(text, w, s, hash, son, limit, whole) && Newest(text, s, 2, w.c, w.size, y)
    ensures Sizes(w, s, hash, son)
    ensures Hashable(text, s.crc, w.c) && Cell2(hash, Hash2(text, s.crc, w.c)) == RefOf(w, y)
  {
    hide Hash2, Hash3, Hash4, Hit3, Rooted, Holds, TreeOf;
    assert Within(text, w, y) && Known(text, w, s, hash, son, limit, whole, y);
    var h := Hash2(text, s.crc, w.c);
    assert Hit2(text, w, s, Cell2(hash, h), h);
    assert SameHash(text, s, 2, Place(w, Cell2(hash, h)), w.c);
  }

  lemma Newest3IsLive(text: seq<byte>, w: Window, s: Setup, hash: seq<nat>, son: seq<nat>, limit: nat, whole: bool, y: nat)
    requires Full(text, w, s, hash, son, limit, whole) && Newest(text, s, 3, w.c, w.size, y)
    ensures Sizes(w, s, hash, son)
    ensures Hashable(text, s.crc, w.c) && Cell3(hash, Hash3(text, s.crc, w.c)) == RefOf(w, y)
  {
    hide Hash2, Hash3, Hash4, Hit2, Rooted, Holds, TreeOf;
    assert Within(text, w, y) && Known(text, w, s, hash, son, limit, whole, y);
    var h := Hash3(text, s.crc, w.c);
    assert Hit3(text, w, s, Cell3(hash, h), h);
    assert SameHash(text, s, 3, Place(w, Cell3(hash, h)), w.c);
  }

  /** The root of the tree is the last place with its hash value. */
  lemma Newest4IsRoot(text: seq<byte>, w: Window, s: Setup, hash: seq<nat>, son: seq<nat>, limit: nat, whole: bool, y: nat)
    requires Full(text, w, s, hash, son, limit, whole) && Newest(text, s, 4, w.c, w.size, y)
    ensures Sizes(w, s, hash, son)
    ensures Hashable(text, s.crc, w.c)
    ensures var t := TreeOf(son, w, Root(text, w, s, hash)); t.Node? && t.at == y
  {
    hide Hash2, Hash3, Hash4, Hit2, Hit3, Holds, CellTree, Ordered;
    assert Within(text, w, y) && Known(text, w, s, hash, son, limit, whole, y);
    var h := Hash4(text, s.crc, s.size4, w.c);
    var ref := Cell4(hash, h);
    assert Rooted(text, w, s, son, ref, h, limit);
    var t := TreeOf(son, w, ref);
    assert t.at in Places(t);
    assert SameHash(text, s, 4, t.at, w.c);
  }

  // ---------- The same bytes have the same hash values ----------

  lemma FourBytes(text: seq<byte>, s: Setup, y: nat, c: nat, n: nat)
    requires Shares(text, y, c, n) && n >= 4 && |s.crc| == 0x100 && s.size4 > 0
    ensures Hashable(text, s.crc, y) && Hashable(text, s.crc, c)
    ensures Hash2(text, s.crc, y) == Hash2(text, s.crc, c) && Hash3(text, s.crc, y) == Hash3(text, s.crc, c)
    ensures Hash4(text, s.crc, s.size4, y) == Hash4(text, s.crc, s.size4, c)
  {
    hide Hash2, Hash3, Hash4;
    assert SameByte(text, y, c, 0) && SameByte(text, y, c, 1) && SameByte(text, y, c, 2) && SameByte(text, y, c, 3);
    assert text[y..y + 4] == [text[y], text[y + 1], text[y + 2], text[y + 3]];
    assert text[c..c + 4] == [text[c], text[c + 1], text[c + 2], text[c + 3]];
    HashMoves(text, s.crc, s.size4, c, text, y);
  }

  // ---------- What is found ----------

  /** The suffixes at y and c have the same first byte. */
  predicate Begins(text: seq<byte>, y: nat, c: nat) { y < c < |text| && text[y] == text[c] }

  /** The last place with c's value of h3 begins like c, and is not y. */
  ghost predicate Beaten(text: seq<byte>, s: Setup, c: nat, size: nat, y: nat) {
    exists z: nat :: z != y && Newest(text, s, 3, c, size, z) && Begins(text, z, c)
  }

  /** The last place with c's value of h3, if it begins like c, is reported with all it has in common with c. */
  ghost predicate Finds3(text: seq<byte>, s: Setup, c: nat, limit: nat, size: nat, found: seq<Match>)
    requires c + limit <= |text|
  {
    forall y: nat :: Newest(text, s, 3, c, size, y) && Begins(text, y, c) ==> Match(Common(text, y, c, limit), c - y - 1) in found
  }

  /** So is the last place with c's value of h2, but as two bytes only where another one is reported for h3. */
  ghost predicate Finds2(text: seq<byte>, s: Setup, c: nat, limit: nat, size: nat, found: seq<Match>)
    requires c + limit <= |text|
  {
    forall y: nat :: Newest(text, s, 2, c, size, y) && Begins(text, y, c) ==>
      Match(if Beaten(text, s, c, size, y) then 2 else Common(text, y, c, limit), c - y - 1) in found
  }

  /** For the last place with c's hash value there is a match at least as long and no further back. */
  ghost predicate Finds4(text: seq<byte>, s: Setup, c: nat, limit: nat, size: nat, found: seq<Match>)
    requires c + limit <= |text|
  {
    forall y: nat :: Newest(text, s, 4, c, size, y) && Common(text, y, c, limit) >= 4 ==> Reached(text, c, limit, y, found)
  }

  /** For every place of the window there is one. */
  ghost predicate FindsAll(text: seq<byte>, c: nat, limit: nat, size: nat, found: seq<Match>)
    requires c + limit <= |text|
  {
    forall y: nat :: y < c && c - y < size && Common(text, y, c, limit) >= 4 ==> Reached(text, c, limit, y, found)
  }

  /** What is reported of a place is all it has in common with c, but for two bytes of the last place with c's value of h2. */
  ghost predicate OnlyThese(text: seq<byte>, s: Setup, c: nat, limit: nat, size: nat, found: seq<Match>)
    requires c + limit <= |text|
  {
    forall i :: 0 <= i < |found| ==> Fully(text, s, c, limit, size, found[i])
  }

  ghost predicate Fully(text: seq<byte>, s: Setup, c: nat, limit: nat, size: nat, m: Match)
    requires c + limit <= |text|
  {
    m.back < c && (m.length == Common(text, c - m.back - 1, c, limit) || (m.length == 2 && Newest(text, s, 2, c, size, c - m.back - 1)))
  }

  // ---------- The matches of the short hashes ----------

  /** The length of the last match, or the least that is looked for in the tree. */
  function Longest(found: seq<Match>): nat {
    if found == [] || found[|found| - 1].length < 3 then 3 else found[|found| - 1].length
  }

  /** A position of the window whose first byte is that of c. */
  predicate Hits(text: seq<byte>, w: Window, ref: nat) {
    ref < w.pos && w.pos - ref < w.size && Place(w, ref) >= 0 && w.c < |text| && text[Place(w, ref)] == text[w.c]
  }

  /** All that the position of ref has in common with c. */
  function WholeMatch(text: seq<byte>, w: Window, limit: nat, ref: nat): Match
    requires w.c + limit <= |text| && Hits(text, w, ref)
  {
    Match(Common(text, Place(w, ref), w.c, limit), w.pos - ref - 1)
  }

  /** What the entries of the first two tables give. */
  function ShortOf(text: seq<byte>, w: Window, limit: nat, ref2: nat, ref3: nat): seq<Match>
    requires w.c + limit <= |text|
  {
    if Hits(text, w, ref3) then
      (if Hits(text, w, ref2) && ref2 != ref3 then [Match(2, w.pos - ref2 - 1)] else []) + [WholeMatch(text, w, limit, ref3)]
    else if Hits(text, w, ref2) then [WholeMatch(text, w, limit, ref2)]
    else []
  }

  /** What ShortOf is of. */
  ghost predicate Entries(text: seq<byte>, w: Window, s: Setup, hash: seq<nat>, ref2: nat, ref3: nat) {
    && Hashable(text, s.crc, w.c) && s.size4 > 0 && |hash| == FIX4 + s.size4
    && ref2 == Cell2(hash, Hash2(text, s.crc, w.c)) && ref3 == Cell3(hash, Hash3(text, s.crc, w.c))
  }

  lemma HitsNewest(text: seq<byte>, w: Window, s: Setup, hash: seq<nat>, son: seq<nat>, limit: nat, whole: bool,
      ref2: nat, ref3: nat)
    requires Full(text, w, s, hash, son, limit, whole) && Entries(text, w, s, hash, ref2, ref3)
    ensures w.c + limit <= |text|
    ensures Hits(text, w, ref2) ==> Newest(text, s, 2, w.c, w.size, Place(w, ref2)) && text[Place(w, ref2)] == text[w.c]
    ensures Hits(text, w, ref3) ==> Newest(text, s, 3, w.c, w.size, Place(w, ref3)) && text[Place(w, ref3)] == text[w.c]
  {
    hide Hash2, Hash3, Newest, Full;
    assert w.c + limit <= |text| by { FullRoom(text, w, s, hash, son, limit, whole); }
    LiveIsNewest2(text, w, s, hash, son, limit, whole);
    LiveIsNewest3(text, w, s, hash, son, limit, whole);
  }

  lemma FullRoom(text: seq<byte>, w: Window, s: Setup, hash: seq<nat>, son: seq<nat>, limit: nat, whole: bool)
    requires Full(text, w, s, hash, son, limit, whole)
    ensures w.c + limit <= |text| && Hashable(text, s.crc, w.c) && Sizes(w, s, hash, son)
  {
  }

  lemma ShortFinds3(text: seq<byte>, w: Window, s: Setup, hash: seq<nat>, son: seq<nat>, limit: nat, whole: bool,
      ref2: nat, ref3: nat)
    requires Full(text, w, s, hash, son, limit, whole) && Entries(text, w, s, hash, ref2, ref3)
    ensures w.c + limit <= |text| && Finds3(text, s, w.c, limit, w.size, ShortOf(text, w, limit, ref2, ref3))
  {
    hide Hash2, Hash3, Full, Common;
    FullRoom(text, w, s, hash, son, limit, whole);
    forall y: nat | Newest(text, s, 3, w.c, w.size, y) && Begins(text, y, w.c)
      ensures Match(Common(text, y, w.c, limit), w.c - y - 1) in ShortOf(text, w, limit, ref2, ref3)
    {
      Newest3IsLive(text, w, s, hash, son, limit, whole, y);
      assert Hits(text, w, ref3) && Place(w, ref3) == y;
    }
  }

  lemma ShortFinds2(text: seq<byte>, w: Window, s: Setup, hash: seq<nat>, son: seq<nat>, limit: nat, whole: bool,
      ref2: nat, ref3: nat)
    requires Full(text, w, s, hash, son, limit, whole) && Entries(text, w, s, hash, ref2, ref3)
    ensures w.c + limit <= |text| && Finds2(text, s, w.c, limit, w.size, ShortOf(text, w, limit, ref2, ref3))
  {
    hide Hash2, Hash3, Full, Common;
    FullRoom(text, w, s, hash, son, limit, whole);
    HitsNewest(text, w, s, hash, son, limit, whole, ref2, ref3);
    forall y: nat | Newest(text, s, 2, w.c, w.size, y) && Begins(text, y, w.c)
      ensures Match(if Beaten(text, s, w.c, w.size, y) then 2 else Common(text, y, w.c, limit), w.c - y - 1)
                in ShortOf(text, w, limit, ref2, ref3)
    {
      Newest2IsLive(text, w, s, hash, son, limit, whole, y);
      assert Hits(text, w, ref2) && Place(w, ref2) == y;
      if Beaten(text, s, w.c, w.size, y) {
        var z: nat :| z != y && Newest(text, s, 3, w.c, w.size, z) && Begins(text, z, w.c);
        Newest3IsLive(text, w, s, hash, son, limit, whole, z);
        assert Hits(text, w, ref3) && Place(w, ref3) == z;
      } else {
        assert Hits(text, w, ref3) ==> Place(w, ref3) == y;
      }
    }
  }

  lemma ShortOnly(text: seq<byte>, w: Window, s: Setup, hash: seq<nat>, son: seq<nat>, limit: nat, whole: bool,
      ref2: nat, ref3: nat)
    requires Full(text, w, s, hash, son, limit, whole) && Entries(text, w, s, hash, ref2, ref3)
    ensures w.c + limit <= |text| && OnlyThese(text, s, w.c, limit, w.size, ShortOf(text, w, limit, ref2, ref3))
  {
    hide Full, Common, Newest;
    FullRoom(text, w, s, hash, son, limit, whole);
    HitsNewest(text, w, s, hash, son, limit, whole, ref2, ref3);
  }

  /** What the short hashes have, as far as their last match goes, is as near as any place of the window with as much in common. */
  lemma ShortReaches(text: seq<byte>, w: Window, s: Setup, hash: seq<nat>, son: seq<nat>, limit: nat, whole: bool,
      ref2: nat, ref3: nat, y: nat)
    requires Full(text, w, s, hash, son, limit, whole) && Entries(text, w, s, hash, ref2, ref3)
    requires w.c + limit <= |text| && y < w.c && w.c - y < w.size
    requires 4 <= Common(text, y, w.c, limit) <= Longest(ShortOf(text, w, limit, ref2, ref3))
    ensures Reached(text, w.c, limit, y, ShortOf(text, w, limit, ref2, ref3))
  {
    hide Hash2, Hash3, Hash4, Common, Tables, Holds, TreeOf;
    FourBytes(text, s, y, w.c, Common(text, y, w.c, limit));
    assert Within(text, w, y) && Known(text, w, s, hash, son, limit, whole, y);
    var first := ShortOf(text, w, limit, ref2, ref3);
    var i := |first| - 1;
    assert first[i].back <= w.c - y - 1;
  }

  // ---------- All matches ----------

  /** Of a tree with y in it, or what stands for y, the matches reach y. */
  lemma HeldReached(text: seq<byte>, t: Tree, c: nat, limit: nat, found: seq<Match>, y: nat)
    requires c + limit <= |text| && y < c && Holds(text, t, y, limit) && Common(text, y, c, limit) >= 4
    requires Covered(text, t, c, limit, 3, found)
    ensures Reached(text, c, limit, y, found)
  {
    hide Common, Shares;
    var z :| z in Places(t) && StandsFor(text, z, y, limit);
    var n := Common(text, y, c, limit);
    SharesLess(text, z, y, limit, n);
    SharesOn(text, z, y, c, n);
    SharesCommon(text, z, c, limit, n);
  }

  lemma SharesCommon(text: seq<byte>, a: nat, b: nat, limit: nat, n: nat)
    requires a + limit <= |text| && b + limit <= |text| && n <= limit && Shares(text, a, b, n)
    ensures Common(text, a, b, limit) >= n
  {
    var m := Common(text, a, b, limit);
    assert m < n ==> SameByte(text, a, b, m);
  }

  lemma ReachedSooner(text: seq<byte>, c: nat, limit: nat, y: nat, first: seq<Match>, found: seq<Match>)
    requires c + limit <= |text| && y + limit <= |text| && Reached(text, c, limit, y, first)
    ensures Reached(text, c, limit, y, first + found)
  {
    hide Common;
    var i :| 0 <= i < |first| && first[i].length >= Common(text, y, c, limit) && first[i].back <= c - y - 1;
    assert (first + found)[i] == first[i];
  }

  /** What the tree covers beyond the short hashes, both cover. */
  lemma CoveredByBoth(text: seq<byte>, w: Window, s: Setup, hash: seq<nat>, son: seq<nat>, limit: nat, whole: bool,
      ref2: nat, ref3: nat, found: seq<Match>)
    requires Full(text, w, s, hash, son, limit, whole) && Entries(text, w, s, hash, ref2, ref3)
    requires w.c + limit <= |text| && Sizes(w, s, hash, son)
    requires var t := TreeOf(son, w, Root(text, w, s, hash));
             Covered(text, t, w.c, limit, Longest(ShortOf(text, w, limit, ref2, ref3)), found)
    ensures Covered(text, TreeOf(son, w, Root(text, w, s, hash)), w.c, limit, 3, ShortOf(text, w, limit, ref2, ref3) + found)
  {
    hide Hash2, Hash3, Hash4, Common, Full, TreeOf, ShortOf, Longest, Reached, Places, Entries;
    RootRoom(text, w, s, hash, son, limit, whole);
    var ref, t := Root(text, w, s, hash), TreeOf(son, w, Root(text, w, s, hash));
    var first := ShortOf(text, w, limit, ref2, ref3);
    LivePlaces(son, w, ref);
    forall y | y in Places(t)
      ensures y + limit <= |text| && (Common(text, y, w.c, limit) <= 3 || Reached(text, w.c, limit, y, first + found))
    {
      if Common(text, y, w.c, limit) > 3 {
        if Common(text, y, w.c, limit) <= Longest(first) {
          ShortReaches(text, w, s, hash, son, limit, whole, ref2, ref3, y);
          ReachedSooner(text, w.c, limit, y, first, found);
        } else {
          ReachedLater(text, w.c, limit, y, first, found);
        }
      }
    }
  }

  lemma RootRoom(text: seq<byte>, w: Window, s: Setup, hash: seq<nat>, son: seq<nat>, limit: nat, whole: bool)
    requires Full(text, w, s, hash, son, limit, whole)
    ensures Hashable(text, s.crc, w.c) && Sizes(w, s, hash, son) && w.c + limit <= |text|
    ensures var t := TreeOf(son, w, Root(text, w, s, hash));
            Ordered(text, t, limit, false) && Room(text, t, w.c, limit) && forall y :: y in Places(t) ==> y < w.c
  {
    hide Hash2, Hash3, Hash4, TreeOf, Ordered, Hit2, Hit3, Complete;
    var h := Hash4(text, s.crc, s.size4, w.c);
    assert Rooted(text, w, s, son, Cell4(hash, h), h, limit);
  }

  /** If the trees are whole, and this walk was not given up, no place of the window is missed. */
  lemma AllFound(text: seq<byte>, w: Window, s: Setup, hash: seq<nat>, son: seq<nat>, limit: nat, found: seq<Match>)
    requires Full(text, w, s, hash, son, limit, true) && w.c + limit <= |text| && Sizes(w, s, hash, son)
    requires Hashable(text, s.crc, w.c) && Covered(text, TreeOf(son, w, Root(text, w, s, hash)), w.c, limit, 3, found)
    ensures FindsAll(text, w.c, limit, w.size, found)
  {
    hide Hash2, Hash3, Hash4, Common, Tables, TreeOf, Reached, Holds, Covered;
    forall y: nat | y < w.c && w.c - y < w.size && Common(text, y, w.c, limit) >= 4
      ensures Reached(text, w.c, limit, y, found)
    {
      FourBytes(text, s, y, w.c, Common(text, y, w.c, limit));
      assert Within(text, w, y) && Known(text, w, s, hash, son, limit, true, y);
      HeldReached(text, TreeOf(son, w, Root(text, w, s, hash)), w.c, limit, found, y);
    }
  }

  /** The root of the tree is always compared, if any node is. */
  lemma RootFound(text: seq<byte>, c: nat, limit: nat, t: Tree, cut: nat, maxLen: nat)
    requires c + limit <= |text| && t.Node? && t.at < c && cut > 0 && Common(text, t.at, c, limit) > maxLen
    ensures Reached(text, c, limit, t.at, Insert(text, c, limit, t, cut, maxLen).found)
  {
    hide Common, Insert;
    InsertStep(text, c, limit, t, cut, maxLen);
    var len := Common(text, t.at, c, limit);
    var found := Insert(text, c, limit, t, cut, maxLen).found;
    assert found[0] == Match(len, c - t.at - 1);
  }

  /** The matches of the tree that is walked, or none where the short hashes reach limit. */
  ghost predicate TreePart(text: seq<byte>, w: Window, s: Setup, hash: seq<nat>, son: seq<nat>, limit: nat, cut: nat,
      first: seq<Match>, found: seq<Match>) {
    && Hashable(text, s.crc, w.c) && Sizes(w, s, hash, son) && w.c + limit <= |text|
    && if Longest(first) == limit && first != [] then found == []
       else found == Insert(text, w.c, limit, TreeOf(son, w, Root(text, w, s, hash)), cut, Longest(first)).found
  }

  lemma RootReached(text: seq<byte>, w: Window, s: Setup, hash: seq<nat>, son: seq<nat>, limit: nat, whole: bool,
      cut: nat, ref2: nat, ref3: nat, found: seq<Match>)
    requires Full(text, w, s, hash, son, limit, whole) && Entries(text, w, s, hash, ref2, ref3) && w.c + limit <= |text| && cut > 0
    requires TreePart(text, w, s, hash, son, limit, cut, ShortOf(text, w, limit, ref2, ref3), found)
    ensures Finds4(text, s, w.c, limit, w.size, ShortOf(text, w, limit, ref2, ref3) + found)
  {
    hide Hash2, Hash3, Hash4, Common, Full, TreeOf, ShortOf, Longest, Reached, Entries, Insert;
    var t := TreeOf(son, w, Root(text, w, s, hash));
    var first := ShortOf(text, w, limit, ref2, ref3);
    forall y: nat | Newest(text, s, 4, w.c, w.size, y) && Common(text, y, w.c, limit) >= 4
      ensures Reached(text, w.c, limit, y, first + found)
    {
      Newest4Window(text, s, w.c, w.size, y);
      if Common(text, y, w.c, limit) <= Longest(first) {
        ShortReaches(text, w, s, hash, son, limit, whole, ref2, ref3, y);
        ReachedSooner(text, w.c, limit, y, first, found);
      } else {
        Newest4IsRoot(text, w, s, hash, son, limit, whole, y);
        RootFound(text, w.c, limit, t, cut, Longest(first));
        ReachedLater(text, w.c, limit, y, first, found);
      }
    }
  }

  lemma Newest4Window(text: seq<byte>, s: Setup, c: nat, size: nat, y: nat)
    requires Newest(text, s, 4, c, size, y)
    ensures y < c && c - y < size
  {
  }

  lemma TreeReached(text: seq<byte>, w: Window, s: Setup, hash: seq<nat>, son: seq<nat>, limit: nat, cut: nat,
      ref2: nat, ref3: nat, found: seq<Match>)
    requires Full(text, w, s, hash, son, limit, true) && Entries(text, w, s, hash, ref2, ref3) && w.c + limit <= |text|
    requires TreePart(text, w, s, hash, son, limit, cut, ShortOf(text, w, limit, ref2, ref3), found)
    requires !GivenUp(text, w.c, limit, TreeOf(son, w, Root(text, w, s, hash)), cut)
    ensures FindsAll(text, w.c, limit, w.size, ShortOf(text, w, limit, ref2, ref3) + found)
  {
    hide Common, Full, TreeOf, ShortOf, Longest, Entries, Insert, Covered, GivenUp, Ordered, Room, Places, Root, Hashable;
    RootRoom(text, w, s, hash, son, limit, true);
    var t := TreeOf(son, w, Root(text, w, s, hash));
    var first := ShortOf(text, w, limit, ref2, ref3);
    if Longest(first) == limit && first != [] {
      InTree(text, t, w.c, limit);
      CoveredShort(text, t, w.c, limit, limit, limit, found);
    } else {
      InsertCovers(text, w.c, limit, t, cut, Longest(first), false);
    }
    CoveredByBoth(text, w, s, hash, son, limit, true, ref2, ref3, found);
    AllFound(text, w, s, hash, son, limit, first + found);
  }

  lemma TreeOnly(text: seq<byte>, w: Window, s: Setup, hash: seq<nat>, son: seq<nat>, limit: nat, whole: bool,
      cut: nat, first: seq<Match>, found: seq<Match>)
    requires Full(text, w, s, hash, son, limit, whole) && TreePart(text, w, s, hash, son, limit, cut, first, found)
    requires w.c + limit <= |text| && OnlyThese(text, s, w.c, limit, w.size, first)
    ensures OnlyThese(text, s, w.c, limit, w.size, first + found)
  {
    hide Common, Full, TreeOf, Longest, Insert, Ordered, Room, Places, Root, Hashable, Newest;
    RootRoom(text, w, s, hash, son, limit, whole);
    var t := TreeOf(son, w, Root(text, w, s, hash));
    InsertGenuine(text, w.c, limit, t, cut, Longest(first), false);
    forall i | 0 <= i < |first + found|
      ensures Fully(text, s, w.c, limit, w.size, (first + found)[i])
    {
      if i >= |first| {
        assert (first + found)[i] == found[i - |first|];
      }
    }
  }

  // ---------- The result ----------

  /** What the matches of one position are to say about the positions before it. */
  ghost predicate Found(text: seq<byte>, s: Setup, c: nat, limit: nat, size: nat, cut: nat, whole: bool, found: seq<Match>) {
    && c + limit <= |text|
    && Finds3(text, s, c, limit, size, found) && Finds2(text, s, c, limit, size, found)
    && (cut > 0 ==> Finds4(text, s, c, limit, size, found))
    && (whole ==> FindsAll(text, c, limit, size, found))
    && OnlyThese(text, s, c, limit, size, found)
  }

  lemma FoundByBoth(text: seq<byte>, w: Window, s: Setup, hash: seq<nat>, son: seq<nat>, limit: nat, whole: bool,
      cut: nat, ref2: nat, ref3: nat, found: seq<Match>)
    requires Full(text, w, s, hash, son, limit, whole) && Entries(text, w, s, hash, ref2, ref3) && w.c + limit <= |text|
    requires TreePart(text, w, s, hash, son, limit, cut, ShortOf(text, w, limit, ref2, ref3), found)
    ensures Found(text, s, w.c, limit, w.size, cut,
              whole && !GivenUp(text, w.c, limit, TreeOf(son, w, Root(text, w, s, hash)), cut),
              ShortOf(text, w, limit, ref2, ref3) + found)
  {
    hide Common, Full, TreeOf, ShortOf, Entries, Insert, GivenUp, Root, Hashable, Fully, OnlyThese, FindsAll, Finds4,
      Newest, Beaten, TreePart;
    var first := ShortOf(text, w, limit, ref2, ref3);
    ShortFinds2(text, w, s, hash, son, limit, whole, ref2, ref3);
    ShortFinds3(text, w, s, hash, son, limit, whole, ref2, ref3);
    ShortOnly(text, w, s, hash, son, limit, whole, ref2, ref3);
    FullRoom(text, w, s, hash, son, limit, whole);
    TreeOnly(text, w, s, hash, son, limit, whole, cut, first, found);
    if cut > 0 {
      RootReached(text, w, s, hash, son, limit, whole, cut, ref2, ref3, found);
    }
    if whole && !GivenUp(text, w.c, limit, TreeOf(son, w, Root(text, w, s, hash)), cut) {
      TreeReached(text, w, s, hash, son, limit, cut, ref2, ref3, found);
    }
  }

  /** A walk that may visit historySize nodes is never given up. */
  lemma NeverGivenUp(text: seq<byte>, w: Window, s: Setup, hash: seq<nat>, son: seq<nat>, limit: nat, whole: bool, cut: nat)
    requires Full(text, w, s, hash, son, limit, whole)
    ensures Hashable(text, s.crc, w.c) && Sizes(w, s, hash, son) && w.c + limit <= |text|
    ensures cut + 1 >= w.size ==> !GivenUp(text, w.c, limit, TreeOf(son, w, Root(text, w, s, hash)), cut)
  {
    hide Full, Hashable, TreeOf, Ordered, Room, Root, GivenUp;
    RootRoom(text, w, s, hash, son, limit, whole);
    var t := TreeOf(son, w, Root(text, w, s, hash));
    LivePlaces(son, w, Root(text, w, s, hash));
    if GivenUp(text, w.c, limit, t, cut) {
      GivenUpDeep(text, w.c, limit, t, cut, false, w.c - w.size);
    }
  }

  // ---------- In the input ----------

  lemma HashesInput(input: seq<byte>, o: nat, s: Setup, y: nat)
    requires o <= |input|
    ensures Hashable(input[o..], s.crc, y) <==> Hashable(input, s.crc, o + y)
    ensures Hashable(input, s.crc, o + y) ==>
              Hash2(input, s.crc, o + y) == Hash2(input[o..], s.crc, y) && Hash3(input, s.crc, o + y) == Hash3(input[o..], s.crc, y)
    ensures Hashable(input, s.crc, o + y) && s.size4 > 0 ==>
              Hash4(input, s.crc, s.size4, o + y) == Hash4(input[o..], s.crc, s.size4, y)
  {
    hide Hash2, Hash3, Hash4;
    if Hashable(input, s.crc, o + y) {
      assert input[o..][y..y + 4] == input[o + y..o + y + 4];
      HashMoves(input, s.crc, if s.size4 > 0 then s.size4 else 1, o + y, input[o..], y);
    }
  }

  lemma CommonInput(input: seq<byte>, o: nat, y: nat, c: nat, limit: nat)
    requires o <= |input| && o + y + limit <= |input| && o + c + limit <= |input|
    ensures Common(input, o + y, o + c, limit) == Common(input[o..], y, c, limit)
  {
    var n := Common(input[o..], y, c, limit);
    var a, b := o + y, o + c;
    forall i: nat | i < n
      ensures SameByte(input, a, b, i)
    {
      assert SameByte(input[o..], y, c, i);
    }
    CommonIs(input, o + y, o + c, limit, n);
  }

  /** Places of the window are in the text that is left of the input. */
  predicate Reaches(o: nat, c: nat, size: nat) { o == 0 || c >= size }

  lemma SameInput(input: seq<byte>, o: nat, s: Setup, n: nat, y: nat, c: nat)
    requires o <= |input|
    ensures SameHash(input, s, n, o + y, o + c) <==> SameHash(input[o..], s, n, y, c)
  {
    hide Hash2, Hash3, Hash4;
    HashesInput(input, o, s, y);
    HashesInput(input, o, s, c);
  }

  lemma NewestInput(input: seq<byte>, o: nat, s: Setup, n: nat, c: nat, size: nat, y: nat)
    requires o <= |input| && o <= y
    ensures Newest(input, s, n, o + c, size, y) <==> Newest(input[o..], s, n, c, size, y - o)
  {
    hide SameHash;
    SameInput(input, o, s, n, y - o, c);
    if Newest(input, s, n, o + c, size, y) {
      forall z: nat | y - o < z < c
        ensures !SameHash(input[o..], s, n, z, c)
      {
        SameInput(input, o, s, n, z, c);
      }
    }
    if Newest(input[o..], s, n, c, size, y - o) {
      var p := o + c;
      forall z: nat | y < z < p
        ensures !SameHash(input, s, n, z, p)
      {
        SameInput(input, o, s, n, z - o, c);
      }
    }
  }

  lemma InWindow(o: nat, c: nat, size: nat, y: nat)
    requires Reaches(o, c, size) && y < o + c && o + c - y < size
    ensures o <= y
  {
  }

  lemma ReachedInput(input: seq<byte>, o: nat, c: nat, limit: nat, y: nat, found: seq<Match>)
    requires o <= |input| && o <= y < o + c && o + c + limit <= |input| && Reached(input[o..], c, limit, y - o, found)
    ensures Reached(input, o + c, limit, y, found)
  {
    hide Common;
    CommonInput(input, o, y - o, c, limit);
  }

  lemma BeatenInput(input: seq<byte>, o: nat, s: Setup, c: nat, size: nat, y: nat)
    requires o <= |input| && Reaches(o, c, size) && o <= y
    ensures Beaten(input, s, o + c, size, y) <==> Beaten(input[o..], s, c, size, y - o)
  {
    hide Newest;
    if Beaten(input, s, o + c, size, y) {
      var z: nat :| z != y && Newest(input, s, 3, o + c, size, z) && Begins(input, z, o + c);
      NewestIn(input, s, 3, o + c, size, z);
      InWindow(o, c, size, z);
      NewestInput(input, o, s, 3, c, size, z);
      var u: nat := z - o;
      assert u != y - o && Newest(input[o..], s, 3, c, size, u) && Begins(input[o..], u, c);
    }
    if Beaten(input[o..], s, c, size, y - o) {
      var z: nat :| z != y - o && Newest(input[o..], s, 3, c, size, z) && Begins(input[o..], z, c);
      NewestInput(input, o, s, 3, c, size, o + z);
      assert Begins(input, o + z, o + c);
    }
  }

  lemma NewestIn(text: seq<byte>, s: Setup, n: nat, c: nat, size: nat, y: nat)
    requires Newest(text, s, n, c, size, y)
    ensures y < c < |text| && c - y < size
  {
  }

  lemma Finds3Input(input: seq<byte>, o: nat, s: Setup, c: nat, limit: nat, size: nat, found: seq<Match>)
    requires o <= |input| && Reaches(o, c, size) && o + c + limit <= |input| && Finds3(input[o..], s, c, limit, size, found)
    ensures Finds3(input, s, o + c, limit, size, found)
  {
    hide Newest, Common;
    var p := o + c;
    forall y: nat | Newest(input, s, 3, p, size, y) && Begins(input, y, p)
      ensures Match(Common(input, y, p, limit), p - y - 1) in found
    {
      NewestIn(input, s, 3, p, size, y);
      InWindow(o, c, size, y);
      NewestInput(input, o, s, 3, c, size, y);
      CommonInput(input, o, y - o, c, limit);
    }
  }

  lemma Finds2Input(input: seq<byte>, o: nat, s: Setup, c: nat, limit: nat, size: nat, found: seq<Match>)
    requires o <= |input| && Reaches(o, c, size) && o + c + limit <= |input| && Finds2(input[o..], s, c, limit, size, found)
    ensures Finds2(input, s, o + c, limit, size, found)
  {
    hide Newest, Common, Beaten;
    var p := o + c;
    forall y: nat | Newest(input, s, 2, p, size, y) && Begins(input, y, p)
      ensures Match(if Beaten(input, s, p, size, y) then 2 else Common(input, y, p, limit), p - y - 1) in found
    {
      NewestIn(input, s, 2, p, size, y);
      InWindow(o, c, size, y);
      NewestInput(input, o, s, 2, c, size, y);
      BeatenInput(input, o, s, c, size, y);
      CommonInput(input, o, y - o, c, limit);
    }
  }

  lemma Finds4Input(input: seq<byte>, o: nat, s: Setup, c: nat, limit: nat, size: nat, found: seq<Match>)
    requires o <= |input| && Reaches(o, c, size) && o + c + limit <= |input| && Finds4(input[o..], s, c, limit, size, found)
    ensures Finds4(input, s, o + c, limit, size, found)
  {
    hide Common, Reached, SameHash;
    var p := o + c;
    forall y: nat | Newest(input, s, 4, p, size, y) && Common(input, y, p, limit) >= 4
      ensures Reached(input, p, limit, y, found)
    {
      InWindow(o, c, size, y);
      NewestInput(input, o, s, 4, c, size, y);
      CommonInput(input, o, y - o, c, limit);
      ReachedInput(input, o, c, limit, y, found);
    }
  }

  lemma FindsAllInput(input: seq<byte>, o: nat, c: nat, limit: nat, size: nat, found: seq<Match>)
    requires o <= |input| && Reaches(o, c, size) && o + c + limit <= |input| && FindsAll(input[o..], c, limit, size, found)
    ensures FindsAll(input, o + c, limit, size, found)
  {
    hide Common, Reached;
    var p := o + c;
    forall y: nat | y < p && p - y < size && Common(input, y, p, limit) >= 4
      ensures Reached(input, p, limit, y, found)
    {
      InWindow(o, c, size, y);
      CommonInput(input, o, y - o, c, limit);
      ReachedInput(input, o, c, limit, y, found);
    }
  }

  lemma OnlyInput(input: seq<byte>, o: nat, s: Setup, c: nat, limit: nat, size: nat, found: seq<Match>)
    requires o <= |input| && o + c + limit <= |input| && OnlyThese(input[o..], s, c, limit, size, found)
    ensures OnlyThese(input, s, o + c, limit, size, found)
  {
    hide Common, Newest;
    forall i | 0 <= i < |found|
      ensures Fully(input, s, o + c, limit, size, found[i])
    {
      assert Fully(input[o..], s, c, limit, size, found[i]);
      var y := c - found[i].back - 1;
      CommonInput(input, o, y, c, limit);
      NewestInput(input, o, s, 2, c, size, o + y);
    }
  }

  /** What is found in the bytes that are still in the buffer is what is to be found in the input. */
  lemma FoundInput(input: seq<byte>, o: nat, s: Setup, c: nat, limit: nat, size: nat, cut: nat, whole: bool,
      found: seq<Match>)
    requires o <= |input| && Reaches(o, c, size) && Found(input[o..], s, c, limit, size, cut, whole, found)
    ensures Found(input, s, o + c, limit, size, cut, whole, found)
  {
    hide Finds2, Finds3, Finds4, FindsAll, OnlyThese;
    Finds3Input(input, o, s, c, limit, size, found);
    Finds2Input(input, o, s, c, limit, size, found);
    if cut > 0 {
      Finds4Input(input, o, s, c, limit, size, found);
    }
    if whole {
      FindsAllInput(input, o, c, limit, size, found);
    }
    OnlyInput(input, o, s, c, limit, size, found);
  }
}
