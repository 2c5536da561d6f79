/** The match finder Bt4 of LzFind.c: hash tables, binary trees and a window that slides over the input. */
module MatchFinder {
  import opened Bytes
  import opened MatchTree
  import opened MatchArray
  import opened MatchWalk
  import opened MatchHash
  import opened MatchTables
  import opened MatchComplete
  import opened MatchNearest
  import opened MatchSearch

  // ---------- What the matches of one position are ----------

  /** A match of at least 2 and at most limit bytes, less than size bytes back. */
  ghost predicate MatchAt(text: seq<byte>, c: nat, limit: nat, size: nat, m: Match) {
    2 <= m.length <= limit && m.back + 1 <= c && m.back + 1 < size && Shares(text, c - m.back - 1, c, m.length)
  }

  /** True matches in the window, each longer than the one before. */
  ghost predicate MatchesAt(text: seq<byte>, c: nat, limit: nat, size: nat, found: seq<Match>) {
    && (forall i :: 0 <= i < |found| ==> MatchAt(text, c, limit, size, found[i]))
    && (forall i, j :: 0 <= i < j < |found| ==> found[i].length < found[j].length)
  }

  lemma MatchesNone(text: seq<byte>, c: nat, limit: nat, size: nat)
    ensures MatchesAt(text, c, limit, size, [])
  {
  }

  lemma MatchesOne(text: seq<byte>, c: nat, limit: nat, size: nat, found: seq<Match>, m: Match)
    requires MatchesAt(text, c, limit, size, found) && MatchAt(text, c, limit, size, m)
    requires found == [] || found[|found| - 1].length < m.length
    ensures MatchesAt(text, c, limit, size, found + [m])
  {
    hide MatchAt;
    var all := found + [m];
    assert forall i :: 0 <= i < |found| ==> all[i] == found[i];
  }

  lemma TreeMatch(text: seq<byte>, w: Window, son: seq<nat>, ref: nat, limit: nat, m: Match)
    requires WindowOk(w) && |son| == 2 * w.size && w.c + limit <= |text|
    requires TrueMatch(text, TreeOf(son, w, ref), w.c, limit, m) && m.length >= 2
    ensures MatchAt(text, w.c, limit, w.size, m)
  {
    hide TreeOf, Places, Shares;
    LivePlaces(son, w, ref);
  }

  /** The matches of the tree follow those of the short hashes. */
  lemma MatchesJoin(text: seq<byte>, w: Window, son: seq<nat>, ref: nat, limit: nat, first: seq<Match>, maxLen: nat,
      found: seq<Match>)
    requires WindowOk(w) && |son| == 2 * w.size && w.c + limit <= |text| && maxLen >= 3
    requires MatchesAt(text, w.c, limit, w.size, first) && (first == [] || first[|first| - 1].length <= maxLen)
    requires Genuine(text, TreeOf(son, w, ref), w.c, limit, maxLen, found)
    ensures MatchesAt(text, w.c, limit, w.size, first + found)
  {
    hide TreeOf, Places, MatchAt, TrueMatch, Shares;
    var all := first + found;
    forall i | 0 <= i < |all|
      ensures MatchAt(text, w.c, limit, w.size, all[i])
    {
      if i < |first| {
        assert all[i] == first[i];
      } else {
        assert all[i] == found[i - |first|];
        TreeMatch(text, w, son, ref, limit, found[i - |first|]);
      }
    }
    forall i, j | 0 <= i < j < |all|
      ensures all[i].length < all[j].length
    {
      if j < |first| {
        assert all[i] == first[i] && all[j] == first[j];
      } else if i >= |first| {
        assert all[i] == found[i - |first|] && all[j] == found[j - |first|];
      } else {
        assert all[i] == first[i] && all[j] == found[j - |first|];
        assert i < |first| - 1 ==> first[i].length < first[|first| - 1].length;
      }
    }
  }

  /** An entry of a short hash, and a first byte that is the same, make a match. */
  lemma HitIsMatch(text: seq<byte>, w: Window, s: Setup, limit: nat, ref: nat)
    requires WindowOk(w) && ref < w.pos && w.pos - ref < w.size && Hashable(text, s.crc, w.c)
    ensures Hit2(text, w, s, ref, Hash2(text, s.crc, w.c)) ==>
              && 0 <= Place(w, ref) < w.c && Place(w, ref) + 4 <= |text|
              && (text[Place(w, ref)] == text[w.c] ==> Shares(text, Place(w, ref), w.c, 2))
    ensures Hit3(text, w, s, ref, Hash3(text, s.crc, w.c)) ==>
              && 0 <= Place(w, ref) < w.c && Place(w, ref) + 4 <= |text|
              && (text[Place(w, ref)] == text[w.c] ==> Shares(text, Place(w, ref), w.c, 3))
  {
    hide Hash2, Hash3, Shares;
    if Place(w, ref) >= 0 && Hashable(text, s.crc, Place(w, ref)) && text[Place(w, ref)] == text[w.c] {
      if Hash2(text, s.crc, Place(w, ref)) == Hash2(text, s.crc, w.c) {
        Hash2Genuine(text, s.crc, Place(w, ref), w.c);
      }
      if Hash3(text, s.crc, Place(w, ref)) == Hash3(text, s.crc, w.c) {
        Hash3Genuine(text, s.crc, Place(w, ref), w.c);
      }
    }
  }

  /** What the tables say about the position to be entered. */
  lemma TablesAt(text: seq<byte>, w: Window, s: Setup, hash: seq<nat>, son: seq<nat>, limit: nat)
    requires Tables(text, w, s, hash, son, limit) && limit >= 4
    ensures Sizes(w, s, hash, son) && w.c + limit <= |text| && Hashable(text, s.crc, w.c)
    ensures var ref := hash[Hash2(text, s.crc, w.c)];
            Hit2(text, w, s, ref, Hash2(text, s.crc, w.c)) && ref < w.pos
    ensures var ref := hash[HASH2_SIZE + Hash3(text, s.crc, w.c)];
            Hit3(text, w, s, ref, Hash3(text, s.crc, w.c)) && ref < w.pos
    ensures var ref := hash[FIX4 + Hash4(text, s.crc, s.size4, w.c)];
            && Ordered(text, TreeOf(son, w, ref), limit, false) && Room(text, TreeOf(son, w, ref), w.c, limit)
  {
    hide Hash2, Hash3, Hash4, Ordered, Room, TreeOf, Hashed;
    assert Hit2(text, w, s, Cell2(hash, Hash2(text, s.crc, w.c)), Hash2(text, s.crc, w.c));
    assert Hit3(text, w, s, Cell3(hash, Hash3(text, s.crc, w.c)), Hash3(text, s.crc, w.c));
    assert Rooted(text, w, s, son, Cell4(hash, Hash4(text, s.crc, s.size4, w.c)), Hash4(text, s.crc, s.size4, w.c), limit);
  }

  /** UPDATE_maxLen: a match is followed as far as it goes. */
  method UpdateMaxLen(text: seq<byte>, a: nat, c: nat, len: nat, limit: nat) returns (n: nat)
    requires a + limit <= |text| && c + limit <= |text| && len <= limit && Shares(text, a, c, len)
    ensures n == Common(text, a, c, limit) && n >= len
  {
    n := len;
    while n != limit
      invariant len <= n <= limit && Shares(text, a, c, n)
    {
      if text[a + n] != text[c + n] { break; }
      SharesMore(text, a, c, n);
      n := n + 1;
    }
    CommonIs(text, a, c, limit, n);
  }

  /** The matches of the short hashes: first those with two and three bytes, then how far the last one goes. */
  method ShortMatches(text: seq<byte>, w: Window, limit: nat, ref2: nat, ref3: nat, ghost s: Setup) returns (distances: seq<Match>, maxLen: nat)
    requires WindowOk(w) && w.c + limit <= |text| && limit >= 4 && Hashable(text, s.crc, w.c) && ref2 < w.pos && ref3 < w.pos
    requires Hit2(text, w, s, ref2, Hash2(text, s.crc, w.c)) && Hit3(text, w, s, ref3, Hash3(text, s.crc, w.c))
    ensures MatchesAt(text, w.c, limit, w.size, distances) && maxLen <= limit
    ensures if distances == [] then maxLen == 0 else distances[|distances| - 1].length == maxLen
    ensures Longest(distances) == if maxLen < 3 then 3 else maxLen
    ensures Hits(text, w, ref3) && (ref2 == ref3 || !Hits(text, w, ref2)) ==> distances == [Match(maxLen, w.pos - ref3 - 1)]
    ensures Hits(text, w, ref2) && !Hits(text, w, ref3) ==> distances == [Match(maxLen, w.pos - ref2 - 1)]
    ensures Hits(text, w, ref2) && Hits(text, w, ref3) && ref2 != ref3 ==>
              distances == [Match(2, w.pos - ref2 - 1), Match(maxLen, w.pos - ref3 - 1)]
    ensures !Hits(text, w, ref2) && !Hits(text, w, ref3) ==> distances == []
    ensures distances != [] ==>
              var at := w.c - distances[|distances| - 1].back - 1;
              0 <= at && at + limit <= |text| && maxLen == Common(text, at, w.c, limit)
    ensures distances == ShortOf(text, w, limit, ref2, ref3)
  {
    hide Hit2, Hit3, Hash2, Hash3, Shares, MatchesAt, Common;
    var d2: nat, d3 := w.pos - ref2, w.pos - ref3;
    maxLen := 0;
    distances := [];
    MatchesNone(text, w.c, limit, w.size);
    if d2 < w.size {
      HitIsMatch(text, w, s, limit, ref2);
    }
    if d3 < w.size {
      HitIsMatch(text, w, s, limit, ref3);
    }
    if d2 < w.size && text[w.c - d2] == text[w.c] {
      maxLen := 2;
      MatchesOne(text, w.c, limit, w.size, distances, Match(2, d2 - 1));
      distances := distances + [Match(2, d2 - 1)];
    }
    ghost var before := distances;
    if d2 != d3 && d3 < w.size && text[w.c - d3] == text[w.c] {
      maxLen := 3;
      distances := distances + [Match(3, d3 - 1)];
      d2 := d3;
    } else if distances != [] {
      before := [];
    }
    if |distances| != 0 {
      maxLen := UpdateMaxLen(text, w.c - d2, w.c, maxLen, limit);
      distances := distances[|distances| - 1 := Match(maxLen, d2 - 1)];
      MatchesNone(text, w.c, limit, w.size);
      MatchesOne(text, w.c, limit, w.size, before, Match(maxLen, d2 - 1));
      assert distances == before + [Match(maxLen, d2 - 1)];
    }
  }

  /** Unless the walk is given up, no place of the tree has more in common with c than the last match. */
  lemma FoundInTree(text: seq<byte>, w: Window, son: seq<nat>, ref: nat, limit: nat, cut: nat, first: seq<Match>,
      maxLen: nat, found: seq<Match>)
    requires WindowOk(w) && |son| == 2 * w.size && w.c + limit <= |text|
    requires Ordered(text, TreeOf(son, w, ref), limit, false) && Room(text, TreeOf(son, w, ref), w.c, limit)
    requires found == Insert(text, w.c, limit, TreeOf(son, w, ref), cut, maxLen).found
    requires MatchesAt(text, w.c, limit, w.size, first) && maxLen == Longest(first)
    ensures MatchesAt(text, w.c, limit, w.size, first + found)
    ensures !GivenUp(text, w.c, limit, TreeOf(son, w, ref), cut) ==>
              NoneLonger(text, TreeOf(son, w, ref), w.c, limit, Longest(first + found))
  {
    hide Ordered, Room, TreeOf, Insert, GivenUp, NoneLonger, MatchAt, TrueMatch;
    var t := TreeOf(son, w, ref);
    InsertGenuine(text, w.c, limit, t, cut, maxLen, false);
    MatchesJoin(text, w, son, ref, limit, first, maxLen, found);
    if !GivenUp(text, w.c, limit, t, cut) {
      InsertLongest(text, w.c, limit, t, cut, maxLen, false);
      assert Longest(first + found) == Best(maxLen, found);
    }
  }

  /** Matches in the buffer are matches in the input. */
  lemma MatchesInInput(input: seq<byte>, text: seq<byte>, c: nat, limit: nat, size: nat, found: seq<Match>)
    requires Ends(input, text) && MatchesAt(text, c, limit, size, found)
    ensures MatchesAt(input, |input| - |text| + c, limit, size, found)
  {
    hide Shares;
    var o := |input| - |text|;
    forall i | 0 <= i < |found|
      ensures MatchAt(input, o + c, limit, size, found[i])
    {
      assert MatchAt(text, c, limit, size, found[i]);
      SharesInInput(input, text, c - found[i].back - 1, c, found[i].length);
    }
  }

  lemma SharesInInput(input: seq<byte>, text: seq<byte>, a: nat, b: nat, n: nat)
    requires Ends(input, text) && Shares(text, a, b, n)
    ensures Shares(input, |input| - |text| + a, |input| - |text| + b, n)
  {
    var x, y := |input| - |text| + a, |input| - |text| + b;
    forall i: nat | i < n
      ensures SameByte(input, x, y, i)
    {
      assert SameByte(text, a, b, i);
    }
  }

  // ---------- The input ----------

  /** ISeqInStream: a read delivers some of the bytes asked for, and none only at the end. */
  class InStream {
    var rest: seq<byte>

    constructor (data: seq<byte>)
      ensures rest == data
    {
      rest := data;
    }

    method Read(dest: array<byte>, at: nat, size: nat) returns (n: nat)
      requires at + size <= dest.Length
      modifies this, dest
      ensures n <= size && n <= |old(rest)| && rest == old(rest)[n..]
      ensures n == 0 ==> size == 0 || rest == []
      ensures dest[..at + n] == old(dest[..at]) + old(rest)[..n]
    {
      assert size <= |rest| || |rest| <= size;
      var least := if size == 0 || rest == [] then 0 else 1;
      n :| least <= n <= size && n <= |rest|;
      for i := 0 to n
        invariant rest == old(rest)
        invariant dest[..at + i] == old(dest[..at]) + rest[..i]
      {
        dest[at + i] := rest[i];
      }
      rest := rest[n..];
    }
  }

  /** MatchFinder_Normalize3 */
  method Normalize3(subValue: nat, items: array<nat>)
    modifies items
    ensures items[..] == Normals(old(items[..]), subValue)
  {
    for i := 0 to items.Length
      invariant forall k :: 0 <= k < i ==> items[k] == Normal(old(items[k]), subValue)
      invariant forall k :: i <= k < items.Length ==> items[k] == old(items[k])
    {
      items[i] := if items[i] <= subValue then 0 else items[i] - subValue;
    }
  }

  /** MatchFinder_Init_LowHash and MatchFinder_Init_HighHash */
  method ClearRefs(items: array<nat>)
    modifies items
    ensures forall k :: 0 <= k < items.Length ==> items[k] == 0
  {
    for i := 0 to items.Length
      invariant forall k :: 0 <= k < i ==> items[k] == 0
    {
      items[i] := 0;
    }
  }

  const MAX_POS: nat := 0xFFFF_FFFF
  const NORMALIZE_STEP: nat := 0x400
  const MAX_HISTORY: nat := 0xE000_0000

  function Min(a: nat, b: nat): nat { if a < b then a else b }

  /** MatchFinder_GetSubValue leaves the whole window above 0. */
  lemma SubValue(pos: nat, historySize: nat)
    requires pos > historySize
    ensures var x := pos - historySize - 1;
            0 <= x - x % NORMALIZE_STEP && x - x % NORMALIZE_STEP + (historySize + 1) <= pos
            && (pos == MAX_POS && historySize <= MAX_HISTORY ==> x - x % NORMALIZE_STEP > 0)
  {
  }

  /** The text is what the input ends with. */
  ghost predicate Ends(input: seq<byte>, text: seq<byte>) {
    |text| <= |input| && text == input[|input| - |text|..]
  }

  lemma EndsMore(input: seq<byte>, text: seq<byte>, more: seq<byte>)
    requires Ends(input, text)
    ensures Ends(input + more, text + more)
  {
    assert (input + more)[|input| - |text|..] == input[|input| - |text|..] + more;
  }

  lemma EndsLater(input: seq<byte>, text: seq<byte>, d: nat)
    requires Ends(input, text) && d <= |text|
    ensures Ends(input, text[d..])
  {
    assert input[|input| - |text| + d..] == input[|input| - |text|..][d..];
  }

  // ---------- The match finder ----------

  class Bt4 {
    const setup: Setup
    const historySize: nat
    const matchMaxLen: nat
    const keepSizeBefore: nat
    const keepSizeAfter: nat
    const cutValue: nat
    const hash: array<nat>
    const son: array<nat>
    const bufferBase: array<byte>
    const stream: InStream
    var buffer: nat
    var pos: nat
    var posLimit: nat
    var streamPos: nat
    var lenLimit: nat
    var cyclicBufferPos: nat
    var streamEndWasReached: bool
    /** All bytes read so far. */
    ghost var input: seq<byte>
    /** No walk down a tree has been given up. */
    ghost var whole: bool

    /** What MatchFinder_Create sets up. */
    ghost predicate Created() {
      && hash != son && |setup.crc| == 0x100 && setup.size4 > 0 && hash.Length == FIX4 + setup.size4
      && son.Length == 2 * (historySize + 1) && historySize <= MAX_HISTORY
      && keepSizeBefore > historySize && keepSizeAfter >= matchMaxLen
      && bufferBase.Length > keepSizeBefore + keepSizeAfter
    }

    /** MatchFinder_Create */
    constructor (historySize: nat, keepAddBufferBefore: nat, matchMaxLen: nat, keepAddBufferAfter: nat, cutValue: nat,
        setup: Setup, stream: InStream)
      requires historySize <= MAX_HISTORY && |setup.crc| == 0x100 && setup.size4 > 0
      ensures Created() && fresh(hash) && fresh(son) && fresh(bufferBase)
      ensures this.historySize == historySize && this.matchMaxLen == matchMaxLen && this.cutValue == cutValue
      ensures this.setup == setup && this.stream == stream
    {
      this.historySize := historySize;
      this.matchMaxLen := matchMaxLen;
      this.cutValue := cutValue;
      this.setup := setup;
      this.stream := stream;
      var sizeReserv := historySize / 2;
      if historySize >= 0xC000_0000 {
        sizeReserv := historySize / 8;
      } else if historySize >= 0x8000_0000 {
        sizeReserv := historySize / 4;
      }
      sizeReserv := sizeReserv + (keepAddBufferBefore + matchMaxLen + keepAddBufferAfter) / 2 + 0x8_0000;
      keepSizeBefore := historySize + keepAddBufferBefore + 1;
      keepSizeAfter := matchMaxLen + keepAddBufferAfter;
      bufferBase := new byte[historySize + keepAddBufferBefore + 1 + (matchMaxLen + keepAddBufferAfter) + sizeReserv];
      hash := new nat[FIX4 + setup.size4];
      son := new nat[2 * (historySize + 1)];
    }

    /** The bytes in the buffer are the last ones read. */
    ghost predicate Sliding()
      reads this`pos, this`streamPos, this`buffer, this`input, bufferBase
    {
      && pos <= streamPos && buffer + (streamPos - pos) <= bufferBase.Length
      && Ends(input, Text()) && Reaches(|input| - |Text()|, buffer, historySize + 1)
    }

    function Text(): seq<byte>
      requires pos <= streamPos && buffer + (streamPos - pos) <= bufferBase.Length
      reads this`pos, this`streamPos, this`buffer, bufferBase
    {
      bufferBase[..buffer + (streamPos - pos)]
    }

    /** The number of bytes passed. */
    ghost function Passed(): int
      reads this`pos, this`streamPos, this`input
    {
      |input| - (streamPos - pos)
    }

    function Win(): Window
      reads this`pos, this`buffer, this`cyclicBufferPos
    {
      Window(pos, if cyclicBufferPos == historySize + 1 then 0 else cyclicBufferPos, historySize + 1, buffer)
    }

    /** What MatchFinder_SetLimits leaves. */
    ghost predicate Limited()
      reads this`pos, this`streamPos, this`posLimit, this`lenLimit, this`cyclicBufferPos, this`streamEndWasReached
    {
      && historySize < pos <= posLimit <= MAX_POS && posLimit - pos <= historySize + 1 - cyclicBufferPos && cyclicBufferPos <= historySize
      && pos <= streamPos && lenLimit == Min(streamPos - pos, matchMaxLen)
      && (!streamEndWasReached ==> streamPos - pos > keepSizeAfter)
      && (pos < streamPos ==> pos < posLimit && (posLimit == pos + 1 || posLimit + keepSizeAfter <= streamPos))
    }

    /** No position before that of the window is missing from the tables. */
    ghost predicate Filled(w: Window, limit: nat)
      requires pos <= streamPos && buffer + (streamPos - pos) <= bufferBase.Length
      reads this`pos, this`streamPos, this`buffer, this`whole, hash, son, bufferBase
    {
      matchMaxLen >= 4 ==> Complete(Text(), w, setup, hash[..], son[..], limit, whole)
    }

    ghost predicate Valid()
      reads this, hash, son, bufferBase
    {
      Created() && Sliding() && Limited() && Tables(Text(), Win(), setup, hash[..], son[..], lenLimit) && Filled(Win(), lenLimit)
    }

    /** The end is taken for reached only when nothing is left to be read. */
    ghost predicate Ended()
      reads this`streamEndWasReached, stream
    {
      streamEndWasReached ==> stream.rest == []
    }

    /** How far matches are looked for: matchMaxLen bytes, or what is left of the stream. */
    ghost function Ahead(): int
      reads this`pos, this`streamPos, this`input, stream
    {
      if |input| + |stream.rest| - Passed() < matchMaxLen then |input| + |stream.rest| - Passed() else matchMaxLen
    }

    /** The tables know the positions before this one. */
    ghost predicate Tabled(limit: nat)
      reads this`pos, this`streamPos, this`buffer, this`input, this`cyclicBufferPos, this`whole, hash, son, bufferBase
    {
      && Created() && Sliding() && historySize < pos <= MAX_POS && cyclicBufferPos <= historySize + 1
      && Tables(Text(), Win(), setup, hash[..], son[..], limit) && Filled(Win(), limit)
    }

    /** On the way from one position to the next. */
    ghost predicate Moving()
      reads this, hash, son, bufferBase
    {
      && pos <= streamPos && Tabled(Min(streamPos - pos, matchMaxLen))
      && (!streamEndWasReached ==> streamPos - pos >= keepSizeAfter)
    }

    /** MatchFinder_Normalize */
    method Normalize()
      requires Moving() && pos == MAX_POS
      modifies this`pos, this`streamPos, this`posLimit, hash, son
      ensures Moving() && pos < MAX_POS && Passed() == old(Passed()) && streamPos - pos == old(streamPos - pos)
    {
      hide Tables, Ends, Complete;
      SubValue(pos, historySize);
      var x := pos - historySize - 1;
      var subValue: nat := x - x % NORMALIZE_STEP;
      ghost var text, w, limit, refs, was := Text(), Win(), Min(streamPos - pos, matchMaxLen), hash[..], son[..];
      TablesNormal(text, w, setup, refs, was, subValue, limit);
      if matchMaxLen >= 4 {
        CompleteNormal(text, w, setup, refs, was, subValue, limit, whole);
      }
      Normalize3(subValue, hash);
      Normalize3(subValue, son);
      posLimit := if posLimit < subValue then 0 else posLimit - subValue;
      pos := pos - subValue;
      streamPos := streamPos - subValue;
      assert Win() == Lower(w, subValue) && Text() == text;
      assert hash[..] == Normals(refs, subValue) && son[..] == Normals(was, subValue);
    }

    /** MatchFinder_MoveBlock */
    method MoveBlock()
      requires Moving() && buffer >= keepSizeBefore
      modifies this`buffer, bufferBase
      ensures Moving() && buffer == keepSizeBefore
    {
      hide Tables, Ends, Complete;
      ghost var w, text, limit := Win(), Text(), Min(streamPos - pos, matchMaxLen);
      var d := buffer - keepSizeBefore;
      TablesShift(text, d, w, setup, hash[..], son[..], limit);
      if matchMaxLen >= 4 {
        CompleteShift(text, d, w, setup, hash[..], son[..], limit, whole);
      }
      var n := streamPos - pos + keepSizeBefore;
      forall i | 0 <= i < n {
        bufferBase[i] := bufferBase[d + i];
      }
      buffer := keepSizeBefore;
      assert Text() == text[d..];
      assert Win() == Earlier(w, d);
      EndsLater(input, text, d);
      assert hash[..] == old(hash[..]) && son[..] == old(son[..]);
    }

    /** One ISeqInStream_Read of MatchFinder_ReadBlock. */
    method ReadOnce(ghost limit: nat) returns (read: nat)
      requires Tabled(limit) && (matchMaxLen >= 4 ==> buffer == 0 || streamPos - pos >= 3)
      modifies this`streamPos, this`input, stream, bufferBase
      ensures Tabled(limit) && Passed() == old(Passed()) && input + stream.rest == old(input) + old(stream.rest) && old(input) <= input
      ensures streamPos == old(streamPos) + read && |stream.rest| == |old(stream.rest)| - read
      ensures read == 0 && stream.rest != [] ==> buffer + (streamPos - pos) == bufferBase.Length
    {
      hide Tables, Ends, Complete;
      ghost var text, more, was := Text(), stream.rest, input;
      var dest := buffer + (streamPos - pos);
      read := stream.Read(bufferBase, dest, bufferBase.Length - dest);
      input := input + more[..read];
      streamPos := streamPos + read;
      assert Text() == text + more[..read];
      EndsMore(was, text, more[..read]);
      TablesMore(text, more[..read], Win(), setup, hash[..], son[..], limit);
      if matchMaxLen >= 4 {
        CompleteMore(text, more[..read], Win(), setup, hash[..], son[..], limit, whole);
      }
    }

    /** MatchFinder_ReadBlock */
    method ReadBlock(ghost limit: nat)
      requires Tabled(limit) && Ended() && (matchMaxLen >= 4 && !streamEndWasReached ==> buffer == 0 || streamPos - pos >= 3)
      modifies this`streamPos, this`streamEndWasReached, this`input, stream, bufferBase
      ensures Ended()
      ensures Tabled(limit) && Passed() == old(Passed()) && input + stream.rest == old(input) + old(stream.rest) && old(input) <= input
      ensures streamPos >= old(streamPos) && (old(streamEndWasReached) ==> streamPos == old(streamPos) && streamEndWasReached)
      ensures !streamEndWasReached && bufferBase.Length - buffer > keepSizeAfter ==> streamPos - pos > keepSizeAfter
    {
      hide Tables, Ends, Complete;
      if streamEndWasReached {
        return;
      }
      while true
        invariant Tabled(limit) && Passed() == old(Passed())
        invariant input + stream.rest == old(input) + old(stream.rest) && old(input) <= input
        invariant !streamEndWasReached && streamPos >= old(streamPos)
        invariant pos == old(pos) && buffer == old(buffer)
        decreases |stream.rest|
      {
        if buffer + (streamPos - pos) == bufferBase.Length {
          return;
        }
        var read := ReadOnce(limit);
        if read == 0 {
          streamEndWasReached := true;
          return;
        }
        if streamPos - pos > keepSizeAfter {
          return;
        }
      }
    }

    /** MatchFinder_SetLimits */
    method SetLimits()
      requires Moving() && pos < MAX_POS && cyclicBufferPos <= historySize
      requires !streamEndWasReached ==> streamPos - pos > keepSizeAfter
      modifies this`posLimit, this`lenLimit
      ensures Valid()
    {
      hide Tables, Ends, Complete;
      var limit := MAX_POS - pos;
      var limit2 := historySize + 1 - cyclicBufferPos;
      if limit2 < limit {
        limit := limit2;
      }
      limit2 := streamPos - pos;
      if limit2 <= keepSizeAfter {
        if limit2 > 0 {
          limit2 := 1;
        }
      } else {
        limit2 := limit2 - keepSizeAfter;
      }
      if limit2 < limit {
        limit := limit2;
      }
      lenLimit := streamPos - pos;
      if lenLimit > matchMaxLen {
        lenLimit := matchMaxLen;
      }
      posLimit := pos + limit;
    }

    /** MatchFinder_CheckAndMoveAndRead */
    method CheckAndMoveAndRead()
      requires Moving() && !streamEndWasReached && streamPos - pos == keepSizeAfter
      modifies this`streamPos, this`streamEndWasReached, this`input, this`buffer, stream, bufferBase
      ensures Ended()
      ensures Moving() && Passed() == old(Passed()) && input + stream.rest == old(input) + old(stream.rest) && old(input) <= input
      ensures !streamEndWasReached ==> streamPos - pos > keepSizeAfter
    {
      hide Tables, Ends, Complete;
      if bufferBase.Length - buffer <= keepSizeAfter {
        MoveBlock();
      }
      ReadBlock(Min(streamPos - pos, matchMaxLen));
    }

    /** MatchFinder_CheckLimits */
    method CheckLimits()
      requires Moving() && Ended()
      modifies this, stream, hash, son, bufferBase
      ensures Ended() && whole == old(whole)
      ensures Valid() && Passed() == old(Passed()) && input + stream.rest == old(input) + old(stream.rest) && old(input) <= input
    {
      hide Tables, Ends, Complete, Bt4.Sliding, Bt4.Created, Min;
      if pos == MAX_POS {
        Normalize();
      }
      if !streamEndWasReached && keepSizeAfter == streamPos - pos {
        CheckAndMoveAndRead();
      }
      if cyclicBufferPos == historySize + 1 {
        cyclicBufferPos := 0;
      }
      SetLimits();
    }

    /** MatchFinder_Init */
    method Init()
      requires Created()
      modifies this, stream, hash, bufferBase
      ensures Valid() && Passed() == 0 && input + stream.rest == old(stream.rest)
      ensures Ended() && lenLimit == Ahead() && whole
    {
      hide Tables, Ends, Complete;
      ClearRefs(hash);
      cyclicBufferPos := 0;
      buffer := 0;
      pos := historySize + 1;
      streamPos := historySize + 1;
      streamEndWasReached := false;
      input := [];
      whole := true;
      assert input + stream.rest == stream.rest;
      InitTables(0);
      ReadBlock(0);
      InitTables(Min(streamPos - pos, matchMaxLen));
      SetLimits();
      LimitIsAhead();
    }

    ghost method LimitIsAhead()
      requires Valid() && Ended()
      ensures lenLimit == Ahead() && (pos < streamPos <==> Passed() < |input| + |stream.rest|)
    {
      hide Tables, Ends, Complete;
    }

    ghost method InitTables(limit: nat)
      requires Created() && Sliding() && pos == historySize + 1 && cyclicBufferPos == buffer == 0 && limit <= streamPos - pos
      requires forall k :: 0 <= k < hash.Length ==> hash[k] == 0
      ensures Tabled(limit)
    {
      TablesEmpty(Text(), setup, hash[..], son[..], historySize + 1, limit);
      CompleteEmpty(Text(), Win(), setup, hash[..], son[..], limit, whole);
    }

    /** The tables know this position too. */
    ghost predicate Entering()
      reads this, hash, son, bufferBase
    {
      && Created() && Sliding() && Limited() && pos < streamPos
      && Tables(Text(), Next(Win()), setup, hash[..], son[..], Min(streamPos - pos - 1, matchMaxLen))
      && Filled(Next(Win()), Min(streamPos - pos - 1, matchMaxLen))
    }

    /** MOVE_POS */
    method MovePos()
      requires Entering() && Ended()
      modifies this, stream, hash, son, bufferBase
      ensures Ended() && lenLimit == Ahead() && whole == old(whole)
      ensures Valid() && Passed() == old(Passed()) + 1 && input + stream.rest == old(input) + old(stream.rest) && old(input) <= input
    {
      hide Tables, Ends, Complete;
      ghost var w, text := Win(), Text();
      cyclicBufferPos := cyclicBufferPos + 1;
      buffer := buffer + 1;
      pos := pos + 1;
      assert Text() == text && Win() == Next(w);
      if pos == posLimit {
        CheckLimits();
      }
      LimitIsAhead();
    }

    /** The tables when this position has been entered. */
    ghost predicate Enters(hash0: seq<nat>, son0: seq<nat>, whole0: bool)
      requires pos <= streamPos && buffer + (streamPos - pos) <= bufferBase.Length
      reads this, hash, son, bufferBase
    {
      && lenLimit >= 4 && Full(Text(), Win(), setup, hash0, son0, lenLimit, whole0) && Hashable(Text(), setup.crc, buffer)
      && hash[..] == Entered(Text(), Win(), setup, hash0)
      && son[..] == Grown(Text(), Win(), setup, hash0, son0, lenLimit, cutValue)
      && whole == (whole0 && !GivenUp(Text(), buffer, lenLimit, TreeOf(son0, Win(), Root(Text(), Win(), setup, hash0)), cutValue))
    }

    ghost method EnteringNow(hash0: seq<nat>, son0: seq<nat>, whole0: bool)
      requires Created() && Sliding() && Limited() && lenLimit >= 4 && Enters(hash0, son0, whole0)
      ensures Entering()
      ensures cutValue >= historySize && whole0 ==> whole
    {
      hide Ends, Entered, Grown, Tables;
      var less := Min(streamPos - pos - 1, matchMaxLen);
      TablesEnter(Text(), Win(), setup, hash0, son0, lenLimit, less, cutValue);
      CompleteLess(Text(), Win(), setup, hash0, son0, lenLimit, whole0, whole);
      CompleteEnter(Text(), Win(), setup, hash0, son0, lenLimit, less, cutValue, whole);
      NeverGivenUp(Text(), Win(), setup, hash0, son0, lenLimit, whole0, cutValue);
    }

    ghost method EnteringPassed()
      requires Valid() && pos < streamPos && lenLimit < 4
      ensures Entering()
    {
      hide Ends, Tables;
      TablesPass(Text(), Win(), setup, hash[..], son[..], lenLimit, Min(streamPos - pos - 1, matchMaxLen));
      if matchMaxLen >= 4 {
        CompletePass(Text(), Win(), setup, hash[..], son[..], lenLimit, Min(streamPos - pos - 1, matchMaxLen), whole);
      }
    }

    /** The tree that this position will be inserted into. */
    ghost function TreeHere(): Tree
      requires Valid() && lenLimit >= 4
      reads this, hash, son, bufferBase
    {
      TablesAt(Text(), Win(), setup, hash[..], son[..], lenLimit);
      TreeOf(son[..], Win(), hash[FIX4 + Hash4(Text(), setup.crc, setup.size4, buffer)])
    }

    /** One step of Bt4_MatchFinder_Skip, as far as the tables go. */
    method Enter()
      requires Valid() && lenLimit >= 4
      modifies this`whole, hash, son
      ensures Enters(old(hash[..]), old(son[..]), old(whole))
    {
      hide Tables, Ends, Complete, Hash2, Hash3, Hash4, Ordered, Room, TreeOf, Hashable, Walk;
      var text, w := Text(), Win();
      TablesAt(text, w, setup, hash[..], son[..], lenLimit);
      var h2, h3 := Hash2(text, setup.crc, buffer), Hash3(text, setup.crc, buffer);
      var hv := Hash4(text, setup.crc, setup.size4, buffer);
      var curMatch := hash[FIX4 + hv];
      ghost var was, refs := son[..], hash[..];
      hash[h2] := pos;
      hash[HASH2_SIZE + h3] := pos;
      hash[FIX4 + hv] := pos;
      SkipMatchesSpec(text, w, son, lenLimit, curMatch, cutValue);
      assert curMatch == Root(text, w, setup, refs);
      whole := whole && !GivenUp(text, w.c, lenLimit, TreeOf(was, w, curMatch), cutValue);
    }

    /** Bt4_MatchFinder_GetMatches, before it moves on. */
    method Find() returns (distances: seq<Match>)
      requires Valid() && lenLimit >= 4
      modifies this`whole, hash, son
      ensures Enters(old(hash[..]), old(son[..]), old(whole))
      ensures MatchesAt(Text(), buffer, lenLimit, historySize + 1, distances)
      ensures buffer + lenLimit <= |Text()|
      ensures !GivenUp(Text(), buffer, lenLimit, old(TreeHere()), cutValue) ==>
                NoneLonger(Text(), old(TreeHere()), buffer, lenLimit, Longest(distances))
      ensures Found(Text(), setup, buffer, lenLimit, historySize + 1, cutValue, whole, distances)
    {
      hide Tables, Ends, Complete, Hash2, Hash3, Hash4, Hit2, Hit3, Ordered, Room, TreeOf, Hashable, Walk, Insert,
        MatchesAt, GivenUp, NoneLonger, Genuine, Hits, Longest, Common, Found, ShortOf;
      var text, w := Text(), Win();
      TablesAt(text, w, setup, hash[..], son[..], lenLimit);
      var h2, h3 := Hash2(text, setup.crc, buffer), Hash3(text, setup.crc, buffer);
      var hv := Hash4(text, setup.crc, setup.size4, buffer);
      var ref2, ref3, curMatch := hash[h2], hash[HASH2_SIZE + h3], hash[FIX4 + hv];
      ghost var was, refs, whole0 := son[..], hash[..], whole;
      hash[h2] := pos;
      hash[HASH2_SIZE + h3] := pos;
      hash[FIX4 + hv] := pos;
      var maxLen: nat;
      distances, maxLen := ShortMatches(text, w, lenLimit, ref2, ref3, setup);
      assert curMatch == Root(text, w, setup, refs) && Entries(text, w, setup, refs, ref2, ref3);
      whole := whole && !GivenUp(text, w.c, lenLimit, TreeOf(was, w, curMatch), cutValue);
      if maxLen == lenLimit {
        SkipMatchesSpec(text, w, son, lenLimit, curMatch, cutValue);
        InTree(text, TreeOf(was, w, curMatch), buffer, lenLimit);
        assert distances + [] == distances;
        FoundByBoth(text, w, setup, refs, was, lenLimit, whole0, cutValue, ref2, ref3, []);
        assert Text() == text && Win() == w;
        return;
      }
      if maxLen < 3 {
        maxLen := 3;
      }
      var found := GetMatchesSpec1(text, w, son, lenLimit, curMatch, cutValue, maxLen);
      FoundInTree(text, w, was, curMatch, lenLimit, cutValue, distances, maxLen, found);
      FoundByBoth(text, w, setup, refs, was, lenLimit, whole0, cutValue, ref2, ref3, found);
      distances := distances + found;
      assert Text() == text && Win() == w;
    }

    ghost method ValidParts()
      requires Valid()
      ensures Created() && Sliding() && Limited() && pos <= streamPos && buffer + (streamPos - pos) <= bufferBase.Length
      ensures Ends(input, Text()) && |input| - |Text()| + buffer == Passed() >= 0
      ensures Reaches(|input| - |Text()|, buffer, historySize + 1)
    {
      hide Tables, Complete;
    }

    /** Bt4_MatchFinder_GetMatches */
    method GetMatches() returns (distances: seq<Match>)
      requires Valid() && Ended() && pos < streamPos
      modifies this, stream, hash, son, bufferBase
      ensures Valid() && Ended() && Passed() == old(Passed()) + 1 && lenLimit == Ahead()
      ensures input + stream.rest == old(input) + old(stream.rest) && old(input) <= input
      ensures MatchesAt(old(input), old(Passed()), old(lenLimit), historySize + 1, distances)
      ensures old(lenLimit) >= 4 && !GivenUp(old(Text()), old(buffer), old(lenLimit), old(TreeHere()), cutValue) ==>
                NoneLonger(old(Text()), old(TreeHere()), old(buffer), old(lenLimit), Longest(distances))
      ensures if old(lenLimit) >= 4 then Found(old(input), setup, old(Passed()), old(lenLimit), historySize + 1, cutValue, whole, distances)
              else distances == []
      ensures cutValue >= historySize && old(whole) ==> whole
    {
      hide GivenUp, NoneLonger, Longest, Found, Reaches;
      hide Tables, MatchesAt, Ends, Bt4.Valid, Bt4.Limited, Bt4.Sliding, Bt4.Entering, Bt4.Enters, Bt4.Created,
        Bt4.Ended, Bt4.Ahead;
      distances := [];
      ValidParts();
      MatchesNone(input, Passed(), lenLimit, historySize + 1);
      if lenLimit < 4 {
        EnteringPassed();
        MovePos();
        return;
      }
      ghost var hash0, son0, whole0 := hash[..], son[..], whole;
      distances := Find();
      MatchesInInput(input, Text(), buffer, lenLimit, historySize + 1, distances);
      FoundInBuffer(distances);
      EnteringNow(hash0, son0, whole0);
      MovePos();
    }

    ghost method FoundInBuffer(distances: seq<Match>)
      requires pos <= streamPos && buffer + (streamPos - pos) <= bufferBase.Length
      requires Ends(input, Text()) && |input| - |Text()| + buffer == Passed() && Reaches(|input| - |Text()|, buffer, historySize + 1)
      requires Found(Text(), setup, buffer, lenLimit, historySize + 1, cutValue, whole, distances)
      ensures Found(input, setup, Passed(), lenLimit, historySize + 1, cutValue, whole, distances)
    {
      hide Found, Reaches;
      FoundInput(input, |input| - |Text()|, setup, buffer, lenLimit, historySize + 1, cutValue, whole, distances);
    }

    /** Bt4_MatchFinder_Skip */
    method Skip(num: nat)
      requires Valid() && Ended() && 0 < num <= streamPos - pos
      modifies this, stream, hash, son, bufferBase
      ensures Valid() && Ended() && Passed() == old(Passed()) + num && lenLimit == Ahead()
      ensures input + stream.rest == old(input) + old(stream.rest) && old(input) <= input
      ensures matchMaxLen >= 4 ==> Complete(Text(), Win(), setup, hash[..], son[..], lenLimit, whole)
      ensures cutValue >= historySize && old(whole) ==> whole
    {
      hide Tables, Ends, Complete;
      for i := 0 to num
        invariant Valid() && Ended() && Passed() == old(Passed()) + i
        invariant i > 0 ==> lenLimit == Ahead()
        invariant input + stream.rest == old(input) + old(stream.rest) && old(input) <= input
        invariant cutValue >= historySize && old(whole) ==> whole
      {
        if lenLimit < 4 {
          EnteringPassed();
        } else {
          ghost var hash0, son0, whole0 := hash[..], son[..], whole;
          Enter();
          EnteringNow(hash0, son0, whole0);
        }
        MovePos();
      }
    }
  }
}
