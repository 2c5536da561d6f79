/** Whole LZMA2 runs: how far the division into calls can be observed. */
module Lzma2Run {
  import opened Bytes
  import opened RangeCoder
  import opened LzmaSymbol
  import opened LzmaSymbolFacts
  import opened LzmaModel
  import opened LzmaRun
  import opened Lzma2Model

  predicate InData(z: Lz2) {
    z.phase == Data || z.phase == DataCont
  }

  predicate Later(l1: nat, fin1: bool, l2: nat, fin2: bool) {
    l1 <= l2 && (!fin1 || (l1 == l2 && fin2))
  }

  // ---------- One LZMA chunk ----------

  /** The part of the added input that belongs to the chunk. */
  function AddedPart(z: Lz2, x: seq<byte>, y: seq<byte>): (r: seq<byte>)
    ensures r <= y
  {
    if |x| >= z.pack then [] else if |x| + |y| <= z.pack then y else y[..z.pack - |x|]
  }

  lemma PackedMore(z: Lz2, x: seq<byte>, y: seq<byte>)
    ensures Packed(z, x + y) == Packed(z, x) + AddedPart(z, x, y)
  {
  }

  lemma LaterLimits(z: Lz2, l1: nat, fin1: bool, l2: nat, fin2: bool)
    requires |z.out| <= l1 && Later(l1, fin1, l2, fin2)
    ensures Later(ChunkLimit(z, l1), Fits(z, l1), ChunkLimit(z, l2), Fits(z, l2))
    ensures l1 == l2 ==> ChunkLimit(z, l1) == ChunkLimit(z, l2)
  {
  }

  /** The chunk seen from the state f that a first call left, with its unread input. */
  lemma SeenFrom(z: Lz2, x: seq<byte>, y: seq<byte>, e: Dec, rest: seq<byte>, limit: nat)
    requires Leaves(z, Packed(z, x), e, rest) && IsSuffix(rest, Packed(z, x))
    requires |AfterRun(z, Packed(z, x), e, rest).out| <= limit
    ensures var f := AfterRun(z, Packed(z, x), e, rest);
            && ChunkStart(f) == e && Packed(f, Unread(z, x, rest) + y) == rest + AddedPart(z, x, y)
            && |z.out| <= limit && ChunkLimit(f, limit) == ChunkLimit(z, limit) && Fits(f, limit) == Fits(z, limit)
            && (|Unread(z, x, rest) + y| >= f.pack <==> |x + y| >= z.pack)
  {
    hide ChunkStart, DecOk;
    AfterRunFields(z, Packed(z, x), e, rest);
    var f := AfterRun(z, Packed(z, x), e, rest);
    assert ChunkStart(f) == e by { ChunkStartCont(f); }
    var u := Unread(z, x, rest);
    assert u == rest + x[|Packed(z, x)|..];
    hide AfterRun;
  }

  lemma ChunkStartCont(f: Lz2)
    ensures f.phase == DataCont ==> ChunkStart(f) == f.dec
  {
  }

  /** Going on from f decodes the chunk further exactly as starting over would. */
  lemma AfterTwoRuns(z: Lz2, s: seq<byte>, e: Dec, rest: seq<byte>, t: seq<byte>, e2: Dec, rest2: seq<byte>)
    requires Leaves(z, s, e, rest) && Leaves(AfterRun(z, s, e, rest), rest + t, e2, rest2)
    ensures Leaves(z, s + t, e2, rest2)
    ensures AfterRun(AfterRun(z, s, e, rest), rest + t, e2, rest2) == AfterRun(z, s + t, e2, rest2)
  {
    hide DecOk, ChunkStart;
    var f := AfterRun(z, s, e, rest);
    ChunkStartCont(f);
    var h := ChunkStart(z).hist;
    assert e2.hist[|h|..] == e.hist[|h|..] + e2.hist[|e.hist|..];
  }

  lemma UnreadTwice(z: Lz2, x: seq<byte>, y: seq<byte>, e: Dec, rest: seq<byte>, rest2: seq<byte>)
    requires Leaves(z, Packed(z, x), e, rest) && IsSuffix(rest, Packed(z, x))
    requires |rest2| <= |rest + AddedPart(z, x, y)|
    ensures var f := AfterRun(z, Packed(z, x), e, rest);
            var u := Unread(z, x, rest) + y;
            |rest2| <= |Packed(f, u)| && |rest2| <= |Packed(z, x + y)| && Unread(f, u, rest2) == Unread(z, x + y, rest2)
  {
    hide ChunkStart, DecOk;
    AfterRunFields(z, Packed(z, x), e, rest);
    PackedMore(z, x, y);
    var f := AfterRun(z, Packed(z, x), e, rest);
    hide AfterRun;
    var s, u := Packed(z, x), Unread(z, x, rest) + y;
    assert u == (x + y)[|s| - |rest|..];
  }

  /** The state a call leaves in the middle of a chunk. */
  function MidChunk(z: Lz2, x: seq<byte>, limit: nat): (f: Lz2)
    requires Lz2Ok(z) && InData(z) && z.control >= 0x80 && |z.out| <= limit && ChunkRun(z, x, limit).Paused?
    ensures Lz2Ok(f) && InData(f) && f.control >= 0x80 && |f.out| <= limit
  {
    var r := ChunkRun(z, x, limit);
    ChunkRunLeaves(z, x, limit);
    AfterRunOk(z, Packed(z, x), r.dec, r.rest);
    AfterRunFields(z, Packed(z, x), r.dec, r.rest);
    hide ChunkRun, Lz2Ok, ChunkStart;
    AfterRun(z, Packed(z, x), r.dec, r.rest)
  }

  function MidUnread(z: Lz2, x: seq<byte>, limit: nat): seq<byte>
    requires Lz2Ok(z) && InData(z) && z.control >= 0x80 && |z.out| <= limit && ChunkRun(z, x, limit).Paused?
  {
    ChunkRunLeaves(z, x, limit);
    Unread(z, x, ChunkRun(z, x, limit).rest)
  }

  lemma ChunkRunEnds(z: Lz2, x: seq<byte>, limit: nat)
    requires Lz2Ok(z) && InData(z) && |z.out| <= limit && ChunkRun(z, x, limit).Paused?
    ensures var r := ChunkRun(z, x, limit);
            IsSuffix(r.rest, Packed(z, x)) && Leaves(z, Packed(z, x), r.dec, r.rest)
    ensures |AfterRun(z, Packed(z, x), ChunkRun(z, x, limit).dec, ChunkRun(z, x, limit).rest).out| <= limit
  {
    hide Run, DecOk, Lz2Ok, IsSuffix;
    ChunkStartOk(z);
    RunExtends(ChunkStart(z), Packed(z, x), ChunkLimit(z, limit), Fits(z, limit));
    ChunkRunLeaves(z, x, limit);
  }

  /** With more input and a later limit, the chunk's decoder goes on from where it stopped. */
  lemma ChunkRunMore(z: Lz2, x: seq<byte>, y: seq<byte>, l1: nat, fin1: bool, l2: nat, fin2: bool)
    requires Lz2Ok(z) && InData(z) && z.control >= 0x80 && |z.out| <= l1 && Later(l1, fin1, l2, fin2)
    ensures ChunkRun(z, x, l1).Failed? ==> ChunkRun(z, x + y, l2) == Failed
    ensures ChunkRun(z, x, l1).Paused? ==>
              ChunkRun(z, x + y, l2) == ChunkRun(MidChunk(z, x, l1), MidUnread(z, x, l1) + y, l2)
  {
    hide Run, DecOk, Lz2Ok, ChunkStart, Leaves, Packed, AddedPart, ChunkLimit, Fits;
    var d := ChunkStart(z);
    ChunkStartOk(z);
    PackedMore(z, x, y);
    LaterLimits(z, l1, fin1, l2, fin2);
    RunSplit(d, Packed(z, x), AddedPart(z, x, y), ChunkLimit(z, l1), Fits(z, l1), ChunkLimit(z, l2), Fits(z, l2));
    var r := ChunkRun(z, x, l1);
    if r.Paused? {
      ChunkRunEnds(z, x, l1);
      SeenFrom(z, x, y, r.dec, r.rest, l2);
    }
  }

  lemma AfterRunIs(z: Lz2, s: seq<byte>, e: Dec, rest: seq<byte>)
    requires Leaves(z, s, e, rest)
    ensures var h := ChunkStart(z).hist;
            h <= e.hist && AfterRun(z, s, e, rest) ==
            Lz2(DataCont, z.control, z.level, z.pack - (|s| - |rest|), z.unpack - (|e.hist| - |h|), e, z.out + e.hist[|h|..])
  {
    hide ChunkStart, DecOk;
  }

  lemma MidIs(z: Lz2, x: seq<byte>, limit: nat)
    requires Lz2Ok(z) && InData(z) && z.control >= 0x80 && |z.out| <= limit && ChunkRun(z, x, limit).Paused?
    ensures var r := ChunkRun(z, x, limit);
            && Leaves(z, Packed(z, x), r.dec, r.rest) && |r.rest| <= |Packed(z, x)|
            && MidChunk(z, x, limit) == AfterRun(z, Packed(z, x), r.dec, r.rest)
            && MidUnread(z, x, limit) == Unread(z, x, r.rest) && Lz2Ok(MidChunk(z, x, limit))
  {
    ChunkRunLeaves(z, x, limit);
    hide ChunkRun, Lz2Ok, ChunkStart, AfterRun;
  }

  /** The same turn, taken from the state in the middle of the chunk. */
  lemma LzmaTurnFrom(z: Lz2, x: seq<byte>, y: seq<byte>, l1: nat, fin1: bool, l2: nat, fin2: bool)
    requires Lz2Ok(z) && InData(z) && z.control >= 0x80 && |z.out| <= l1 && Later(l1, fin1, l2, fin2)
    ensures ChunkRun(z, x, l1).Failed? ==> LzmaTurn(z, x + y, l2, fin2) == Stop(Failed2)
    ensures ChunkRun(z, x, l1).Paused? ==>
              LzmaTurn(z, x + y, l2, fin2) == LzmaTurn(MidChunk(z, x, l1), MidUnread(z, x, l1) + y, l2, fin2)
  {
    hide Run, DecOk, Lz2Ok, ChunkStart, Leaves, Packed, AddedPart, ChunkLimit, Fits, ChunkRun, AfterRun, Unread;
    ChunkRunMore(z, x, y, l1, fin1, l2, fin2);
    var r := ChunkRun(z, x, l1);
    if r.Paused? {
      var f, u := MidChunk(z, x, l1), MidUnread(z, x, l1) + y;
      ChunkRunEnds(z, x, l1);
      SeenFrom(z, x, y, r.dec, r.rest, l2);
      PackedMore(z, x, y);
      var q := ChunkRun(f, u, l2);
      if q.Paused? {
        ChunkRunLeaves(f, u, l2);
        AfterTwoRuns(z, Packed(z, x), r.dec, r.rest, AddedPart(z, x, y), q.dec, q.rest);
        LeavesBound(f, Packed(f, u), q.dec, q.rest);
        UnreadTwice(z, x, y, r.dec, r.rest, q.rest);
      }
    }
  }

  lemma LeavesBound(z: Lz2, s: seq<byte>, e: Dec, rest: seq<byte>)
    requires Leaves(z, s, e, rest)
    ensures |rest| <= |s|
  {
  }

  /** The chunk's decoder cannot go on from f: the turn only looks at how the chunk ended. */
  lemma StayTurn(f: Lz2, u: seq<byte>, limit: nat, fin: bool)
    requires Lz2Ok(f) && f.phase == DataCont && f.control >= 0x80 && |f.out| <= limit
    requires ChunkRun(f, u, limit) == Paused(f.dec, Packed(f, u))
    ensures LzmaTurn(f, u, limit, fin) ==
            match EndOf(f, u, f, limit, fin)
            case Bad => Stop(Failed2)
            case Wait(status) => Stop(Paused2(f, u, status))
            case NextChunk => Go(f.(phase := Control), u)
  {
    hide DecOk, Lz2Ok, ChunkRun, EndOf;
    ChunkStartCont(f);
    var s := Packed(f, u);
    ChunkRunLeaves(f, u, limit);
    assert f.out + f.dec.hist[|f.dec.hist|..] == f.out;
    assert AfterRun(f, s, f.dec, s) == f;
    assert Unread(f, u, s) == u;
    hide AfterRun, Unread, Packed, ChunkStart;
  }

  /** What a decoder that stopped for another reason than missing input does next: nothing. */
  lemma StoppedStays(e: Dec, x: seq<byte>, c1: nat, f1: bool, c2: nat, f2: bool)
    requires DecOk(e) && StatusOf(e, c1, f1) != NeedsMoreInput && (e.remain == FINISHED ==> e.code == 0)
    requires e.remain == FINISHED || (c1 == c2 && f1 == f2)
    ensures Run(e, x, c2, f2) == Paused(e, x) && StatusOf(e, c2, f2) == StatusOf(e, c1, f1)
  {
    hide Run, DecOk, NextSymbol;
    RunStops(e, x, c2, f2);
  }

  /** A decoder that ended at the end marker did so with code 0. */
  lemma FinishedCode(d: Dec, x: seq<byte>, limit: nat, fin: bool)
    requires DecOk(d) && Run(d, x, limit, fin).Paused?
    ensures var e := Run(d, x, limit, fin).dec; e.remain == FINISHED ==> e.code == 0
  {
    hide Run, DecOk, NextSymbol;
    PieceOfRun(d, x, limit, fin, limit, fin);
    var r := Run(d, x, limit, fin);
    RunStops(r.dec, r.rest, limit, fin);
  }

  /** When the chunk's decoder is stopped for good, as far as this chunk's input and limits go. */
  lemma ChunkStays(z: Lz2, x: seq<byte>, y: seq<byte>, l1: nat, fin1: bool, l2: nat, fin2: bool)
    requires Lz2Ok(z) && InData(z) && z.control >= 0x80 && |z.out| <= l1 && Later(l1, fin1, l2, fin2)
    requires |z.out| < l1 || fin1
    requires ChunkRun(z, x, l1).Paused?
    requires var st := StatusOf(ChunkRun(z, x, l1).dec, ChunkLimit(z, l1), Fits(z, l1));
             if st == NeedsMoreInput then |x| >= z.pack
             else ChunkRun(z, x, l1).dec.remain == FINISHED || l1 == l2 || Fits(z, l1)
    ensures var f, u := MidChunk(z, x, l1), MidUnread(z, x, l1) + y;
            && f.dec == ChunkRun(z, x, l1).dec && f.phase == DataCont
            && ChunkRun(f, u, l2) == Paused(f.dec, Packed(f, u))
            && ChunkLimit(f, l2) == ChunkLimit(z, l2) && Fits(f, l2) == Fits(z, l2)
            && StatusOf(f.dec, ChunkLimit(f, l2), Fits(f, l2)) == StatusOf(f.dec, ChunkLimit(z, l1), Fits(z, l1))
  {
    var d, r, f, u := ChunkStart(z), ChunkRun(z, x, l1), MidChunk(z, x, l1), MidUnread(z, x, l1) + y;
    var c1, f1, c2, f2 := ChunkLimit(z, l1), Fits(z, l1), ChunkLimit(z, l2), Fits(z, l2);
    ChunkStartOk(z);
    ChunkRunEnds(z, x, l1);
    SeenFrom(z, x, y, r.dec, r.rest, l2);
    LaterLimits(z, l1, fin1, l2, fin2);
    assert r == Run(d, Packed(z, x), c1, f1);
    AfterRunFields(z, Packed(z, x), r.dec, r.rest);
    assert l1 == l2 ==> c1 == c2 && f1 == f2;
    assert ChunkRun(f, u, l2) == Run(f.dec, Packed(f, u), c2, f2);
    var st := StatusOf(r.dec, c1, f1);
    if st == NeedsMoreInput {
      assert AddedPart(z, x, y) == [] && r.rest + [] == r.rest;
      NeedsMoreBelow(z, x, l1, fin1);
      hide Run, DecOk, Lz2Ok, ChunkStart, ChunkRun, Leaves, AfterRun;
      PieceOfRun(d, Packed(z, x), c1, f1, c2, f2);
    } else {
      hide Run, DecOk, Lz2Ok, ChunkStart, ChunkRun, Leaves, AfterRun;
      FinishedCode(d, Packed(z, x), c1, f1);
      StoppedStays(r.dec, Packed(f, u), c1, f1, c2, f2);
    }
  }

  /** A chunk's decoder short of input is below its limit, or has reached the end of the chunk's output. */
  lemma NeedsMoreBelow(z: Lz2, x: seq<byte>, limit: nat, fin: bool)
    requires Lz2Ok(z) && InData(z) && z.control >= 0x80 && |z.out| <= limit && (|z.out| < limit || fin)
    requires ChunkRun(z, x, limit).Paused?
    requires StatusOf(ChunkRun(z, x, limit).dec, ChunkLimit(z, limit), Fits(z, limit)) == NeedsMoreInput
    ensures |ChunkRun(z, x, limit).dec.hist| < ChunkLimit(z, limit) || Fits(z, limit) || fin
  {
    hide Run, Lz2Ok, DecOk;
    var d, r, c, fits := ChunkStart(z), ChunkRun(z, x, limit), ChunkLimit(z, limit), Fits(z, limit);
    if |r.dec.hist| >= c && !fits {
      assert r.dec.remain > FINISHED;
      ChunkStartOk(z);
      NotStarted(d, Packed(z, x), c, fits);
    }
  }

  lemma NotStarted(d: Dec, x: seq<byte>, limit: nat, fin: bool)
    requires DecOk(d) && Run(d, x, limit, fin).Paused? && Run(d, x, limit, fin).dec.remain > FINISHED
    ensures Run(d, x, limit, fin).dec == d
  {
    hide Run, DecOk, Started;
    RunExtends(d, x, limit, fin);
    RunStarts(d, x, limit, fin);
    if |x| >= RC_INIT_SIZE && x[0] == 0 {
      RunExtends(Started(d, x), x[RC_INIT_SIZE..], limit, fin);
    }
  }

  // ---------- One turn, and the whole run ----------

  /** A second call continues where the first stopped. */
  predicate Continues2(first: Outcome2, whole: Outcome2, y: seq<byte>, limit: nat, fin: bool)
    requires first.Paused2? ==> Lz2Ok(first.state) && |first.state.out| <= limit
  {
    match first
    case Failed2 => whole == Failed2
    case Paused2(f, rest, _) => whole == RunChunks(f, rest + y, limit, fin)
  }

  /**
   The first call filled the output space, yet asks for more input: the chunk has produced all
   its bytes without coming to an end.
   */
  predicate Overfull(first: Outcome2, limit: nat, fin: bool) {
    first.Paused2? && first.status == NeedsMoreInput && |first.state.out| >= limit && !fin
  }

  function Unroll(t: Turn, limit: nat, fin: bool): Outcome2
    requires t.Go? ==> Lz2Ok(t.state) && |t.state.out| <= limit
  {
    match t
    case Stop(o) => o
    case Go(f, rest) => RunChunks(f, rest, limit, fin)
  }

  lemma RunIsTurn(z: Lz2, x: seq<byte>, limit: nat, fin: bool)
    requires Lz2Ok(z) && |z.out| <= limit
    ensures TurnOk(z, x, limit, TurnOf(z, x, limit, fin))
    ensures RunChunks(z, x, limit, fin) == Unroll(TurnOf(z, x, limit, fin), limit, fin)
  {
    hide TurnOf, Lz2Ok;
  }

  /** The whole run, from what the first turn of the first call led to. */
  predicate Onward(t: Turn, whole: Outcome2, y: seq<byte>, limit: nat, fin: bool)
    requires t.Go? ==> Lz2Ok(t.state) && |t.state.out| <= limit
    requires t.Stop? && t.outcome.Paused2? ==> Lz2Ok(t.outcome.state) && |t.outcome.state.out| <= limit
  {
    match t
    case Stop(o) => Continues2(o, whole, y, limit, fin)
    case Go(f, rest) => whole == RunChunks(f, rest + y, limit, fin)
  }

  predicate StopsOverfull(t: Turn, limit: nat, fin: bool) {
    t.Stop? && Overfull(t.outcome, limit, fin)
  }

  lemma HeaderOnward(z: Lz2, x: seq<byte>, y: seq<byte>, l1: nat, fin1: bool, l2: nat, fin2: bool)
    requires Lz2Ok(z) && Header(z.phase) && |z.out| <= l1 && Later(l1, fin1, l2, fin2) && (|z.out| < l1 || fin1)
    ensures var t := HeaderTurn(z, x, l1);
            TurnOk(z, x, l2, t) && Onward(t, RunChunks(z, x + y, l2, fin2), y, l2, fin2) && !StopsOverfull(t, l2, fin2)
  {
    hide RunChunks, Lz2Ok, UpdateState, PhaseRank;
    RunIsTurn(z, x + y, l2, fin2);
    if x == [] {
      assert x + y == y == [] + y;
    } else {
      assert (x + y)[1..] == x[1..] + y;
      HeaderOk(z, x[0]);
    }
  }

  lemma CopyTwice(z: Lz2, s: seq<byte>, t: seq<byte>)
    requires |s| + |t| <= z.unpack && t != []
    ensures AfterCopy(AfterCopy(z, s), t) == AfterCopy(z, s + t)
  {
    var d := ChunkStart(z);
    assert d.hist + s + t == d.hist + (s + t);
    assert z.out + s + t == z.out + (s + t);
  }

  lemma CopyOnward(z: Lz2, x: seq<byte>, y: seq<byte>, l1: nat, fin1: bool, l2: nat, fin2: bool)
    requires Lz2Ok(z) && InData(z) && z.control < 0x80 && |z.out| <= l1 && Later(l1, fin1, l2, fin2)
    requires |z.out| < l1 || fin1
    ensures var t := CopyTurn(z, x, l1);
            TurnOk(z, x, l2, t) && Onward(t, RunChunks(z, x + y, l2, fin2), y, l2, fin2) && !StopsOverfull(t, l2, fin2)
  {
    RunIsTurn(z, x + y, l2, fin2);
    assert z.unpack > 0;
    hide RunChunks, Lz2Ok, AfterCopy;
    if x == [] {
      assert x + y == y == [] + y;
    } else if CopyShare(z, x, l1) > 0 {
      CopyGoesOn(z, x, y, l1, l2, fin2);
    }
  }

  lemma CopyRuns(z: Lz2, x: seq<byte>, limit: nat, fin: bool)
    requires Lz2Ok(z) && InData(z) && z.control < 0x80 && |z.out| <= limit && CopyShare(z, x, limit) > 0
    ensures var n := CopyShare(z, x, limit);
            var f := AfterCopy(z, x[..n]);
            Lz2Ok(f) && |f.out| <= limit && RunChunks(z, x, limit, fin) == RunChunks(f, x[n..], limit, fin)
  {
    hide Lz2Ok, AfterCopy;
    RunIsTurn(z, x, limit, fin);
    hide RunChunks;
  }

  lemma Slices(x: seq<byte>, y: seq<byte>, n: nat, n2: nat)
    requires n <= |x| && n <= n2 <= |x + y|
    ensures var s, rest := x + y, x[n..] + y;
            && s[..n] == x[..n] && s[n..] == rest && rest[..n2 - n] == s[n..n2] && rest[n2 - n..] == s[n2..]
            && s[..n2] == x[..n] + s[n..n2]
  {
  }

  /** Copying what one call can is a step on the way of copying what a later one can. */
  lemma CopyGoesOn(z: Lz2, x: seq<byte>, y: seq<byte>, l1: nat, l2: nat, fin: bool)
    requires Lz2Ok(z) && InData(z) && z.control < 0x80 && |z.out| <= l1 <= l2 && CopyShare(z, x, l1) > 0
    ensures var n := CopyShare(z, x, l1);
            var f := AfterCopy(z, x[..n]);
            Lz2Ok(f) && |f.out| <= l2 && RunChunks(z, x + y, l2, fin) == RunChunks(f, x[n..] + y, l2, fin)
  {
    hide RunChunks, Lz2Ok, AfterCopy;
    var n, n2 := CopyShare(z, x, l1), CopyShare(z, x + y, l2);
    var s, rest, f := x + y, x[n..] + y, AfterCopy(z, x[..n]);
    Slices(x, y, n, n2);
    CopyOk(z, x[..n]);
    CopyFields(z, x[..n]);
    CopyRuns(z, s, l2, fin);
    if n < n2 {
      assert CopyShare(f, rest, l2) == n2 - n;
      CopyRuns(f, rest, l2, fin);
      CopyTwice(z, x[..n], s[n..n2]);
    }
  }

  lemma CopyFields(z: Lz2, s: seq<byte>)
    requires |s| <= z.unpack
    ensures var f := AfterCopy(z, s);
            && f.unpack == z.unpack - |s| && |f.out| == |z.out| + |s| && f.control == z.control
            && f.phase == if |s| == z.unpack then Control else DataCont
  {
  }

  lemma TurnEnd(z: Lz2, x: seq<byte>, limit: nat, fin: bool)
    requires Lz2Ok(z) && InData(z) && z.control >= 0x80 && |z.out| <= limit
    ensures LzmaTurn(z, x, limit, fin) ==
            if ChunkRun(z, x, limit).Failed? then Stop(Failed2)
            else
              var f, u := MidChunk(z, x, limit), MidUnread(z, x, limit);
              match EndOf(z, x, f, limit, fin)
              case Bad => Stop(Failed2)
              case Wait(status) => Stop(Paused2(f, u, status))
              case NextChunk => Go(f.(phase := Control), u)
  {
    hide Lz2Ok, ChunkRun, AfterRun, Leaves, ChunkStart, EndOf;
  }

  lemma MidFields(z: Lz2, x: seq<byte>, y: seq<byte>, l1: nat, l2: nat)
    requires Lz2Ok(z) && InData(z) && z.control >= 0x80 && |z.out| <= l1 <= l2 && ChunkRun(z, x, l1).Paused?
    ensures var f, e := MidChunk(z, x, l1), ChunkRun(z, x, l1).dec;
            && f.phase == DataCont && f.dec == e && |z.out| <= |f.out| && |f.out| + f.unpack == |z.out| + z.unpack
            && |f.out| - |z.out| == |e.hist| - |ChunkStart(z).hist|
            && ChunkLimit(f, l2) == ChunkLimit(z, l2) && Fits(f, l2) == Fits(z, l2)
            && (|MidUnread(z, x, l1) + y| >= f.pack <==> |x + y| >= z.pack)
  {
    var r := ChunkRun(z, x, l1);
    ChunkRunEnds(z, x, l1);
    SeenFrom(z, x, y, r.dec, r.rest, l2);
    AfterRunFields(z, Packed(z, x), r.dec, r.rest);
    hide Lz2Ok, ChunkRun, AfterRun, Leaves, ChunkStart;
  }

  /** A chunk that ended, well or badly, ends that way in the later call too. */
  lemma EndedStays(z: Lz2, x: seq<byte>, y: seq<byte>, l1: nat, fin1: bool, l2: nat, fin2: bool)
    requires Lz2Ok(z) && InData(z) && z.control >= 0x80 && |z.out| <= l1 && Later(l1, fin1, l2, fin2)
    requires (|z.out| < l1 || fin1) && ChunkRun(z, x, l1).Paused?
    requires EndOf(z, x, MidChunk(z, x, l1), l1, fin1) != Wait(NeedsMoreInput)
    requires EndOf(z, x, MidChunk(z, x, l1), l1, fin1).Wait? ==> |MidChunk(z, x, l1).out| >= l2 && !fin2
    ensures var f, u := MidChunk(z, x, l1), MidUnread(z, x, l1) + y;
            LzmaTurn(f, u, l2, fin2) ==
            match EndOf(z, x, f, l1, fin1)
            case Bad => Stop(Failed2)
            case Wait(_) => Stop(Paused2(f, u, NotFinished))
            case NextChunk => Go(f.(phase := Control), u)
  {
    MidFields(z, x, y, l1, l2);
    hide Lz2Ok, ChunkRun, AfterRun, Leaves, ChunkStart;
    ChunkStays(z, x, y, l1, fin1, l2, fin2);
    StayTurn(MidChunk(z, x, l1), MidUnread(z, x, l1) + y, l2, fin2);
  }

  /** Where a run stops at once. */
  lemma RunIdles(z: Lz2, x: seq<byte>, limit: nat, fin: bool)
    requires Lz2Ok(z) && |z.out| <= limit
    ensures z.phase == Error ==> RunChunks(z, x, limit, fin) == Failed2
    ensures z.phase == Finished ==> RunChunks(z, x, limit, fin) == Paused2(z, x, FinishedWithMark)
    ensures z.phase != Error && z.phase != Finished && |z.out| >= limit && !fin ==>
              RunChunks(z, x, limit, fin) == Paused2(z, x, NotFinished)
    ensures (Header(z.phase) || (InData(z) && z.control < 0x80)) && (|z.out| < limit || fin) && x == [] ==>
              RunChunks(z, x, limit, fin) == Paused2(z, x, NeedsMoreInput)
    ensures InData(z) && z.control < 0x80 && |z.out| >= limit && fin && x != [] ==>
              RunChunks(z, x, limit, fin) == Failed2
  {
    hide Lz2Ok, RunChunks, AfterCopy;
    RunIsTurn(z, x, limit, fin);
  }

  lemma RunHeader(z: Lz2, x: seq<byte>, limit: nat, fin: bool)
    requires Lz2Ok(z) && Header(z.phase) && |z.out| <= limit && (|z.out| < limit || fin) && x != []
    ensures var next := UpdateState(z, x[0]);
            && Lz2Ok(next) && next.out == z.out
            && RunChunks(z, x, limit, fin) ==
               if next.phase == Error || (|z.out| >= limit && next.phase != Finished) then Failed2
               else RunChunks(next, x[1..], limit, fin)
  {
    hide Lz2Ok, RunChunks;
    HeaderOk(z, x[0]);
    RunIsTurn(z, x, limit, fin);
  }

  /** What a pass over the data of an LZMA chunk means for the run. */
  lemma RunLzma(z: Lz2, x: seq<byte>, limit: nat, fin: bool)
    requires Lz2Ok(z) && InData(z) && z.control >= 0x80 && |z.out| <= limit && (|z.out| < limit || fin)
    ensures ChunkRun(z, x, limit).Failed? ==> RunChunks(z, x, limit, fin) == Failed2
    ensures ChunkRun(z, x, limit).Paused? ==>
              var f, u := MidChunk(z, x, limit), MidUnread(z, x, limit);
              var st := StatusOf(f.dec, ChunkLimit(z, limit), Fits(z, limit));
              && f.dec == ChunkRun(z, x, limit).dec
              && (st == NeedsMoreInput ==>
                    RunChunks(z, x, limit, fin) == if |x| >= z.pack then Failed2 else Paused2(f, u, NeedsMoreInput))
              && (st != NeedsMoreInput ==> RunChunks(z, x, limit, fin) == RunChunks(f, u, limit, fin))
              && (st != NeedsMoreInput && |f.out| == |z.out| ==>
                    if st == MaybeFinishedWithoutMark && f.unpack == 0 && f.pack == 0 then
                      Lz2Ok(f.(phase := Control)) && RunChunks(z, x, limit, fin) == RunChunks(f.(phase := Control), u, limit, fin)
                    else RunChunks(z, x, limit, fin) == Failed2)
  {
    hide Lz2Ok, RunChunks, ChunkRun, MidChunk, MidUnread, LzmaTurn, ChunkLimit, Fits, ChunkStart;
    RunIsTurn(z, x, limit, fin);
    TurnEnd(z, x, limit, fin);
    if ChunkRun(z, x, limit).Paused? {
      MidFields(z, x, [], limit, limit);
      var st := StatusOf(ChunkRun(z, x, limit).dec, ChunkLimit(z, limit), Fits(z, limit));
      hide StatusOf;
      if st != NeedsMoreInput {
        LzmaProgress(z, x, limit, fin);
      }
    }
  }

  /** Passes of the loop that only make progress inside a chunk do not change the run. */
  lemma LzmaProgress(z: Lz2, x: seq<byte>, limit: nat, fin: bool)
    requires Lz2Ok(z) && InData(z) && z.control >= 0x80 && |z.out| <= limit && (|z.out| < limit || fin)
    requires ChunkRun(z, x, limit).Paused?
    requires StatusOf(ChunkRun(z, x, limit).dec, ChunkLimit(z, limit), Fits(z, limit)) != NeedsMoreInput
    ensures RunChunks(z, x, limit, fin) == RunChunks(MidChunk(z, x, limit), MidUnread(z, x, limit), limit, fin)
  {
    MidFields(z, x, [], limit, limit);
    var f, u := MidChunk(z, x, limit), MidUnread(z, x, limit);
    assert u + [] == u;
    hide RunChunks, Lz2Ok, ChunkRun, ChunkStart, LzmaTurn, MidChunk, MidUnread, ChunkLimit, Fits;
    assert EndOf(z, x, f, limit, fin) != Wait(NeedsMoreInput);
    assert EndOf(z, x, f, limit, fin).Wait? ==> |f.out| >= limit && !fin;
    hide EndOf;
    RunIsTurn(z, x, limit, fin);
    RunIsTurn(f, u, limit, fin);
    TurnEnd(z, x, limit, fin);
    WaitStatus(z, x, f, limit, fin);
    EndedStays(z, x, [], limit, fin, limit, fin);
  }

  /** An LZMA chunk's turn: the later call decodes on unless the first one stopped overfull. */
  lemma LzmaOnward(z: Lz2, x: seq<byte>, y: seq<byte>, l1: nat, fin1: bool, l2: nat, fin2: bool)
    requires Lz2Ok(z) && InData(z) && z.control >= 0x80 && |z.out| <= l1 && Later(l1, fin1, l2, fin2)
    requires |z.out| < l1 || fin1
    ensures var t := LzmaTurn(z, x, l1, fin1);
            && TurnOk(z, x, l2, t)
            && (Onward(t, RunChunks(z, x + y, l2, fin2), y, l2, fin2) <==> !StopsOverfull(t, l2, fin2))
  {
    hide RunChunks, Lz2Ok, ChunkRun, ChunkStart, LzmaTurn, EndOf, MidChunk, MidUnread, ChunkLimit, Fits;
    RunIsTurn(z, x + y, l2, fin2);
    LzmaTurnFrom(z, x, y, l1, fin1, l2, fin2);
    TurnEnd(z, x, l1, fin1);
    if ChunkRun(z, x, l1).Paused? {
      var f, u := MidChunk(z, x, l1), MidUnread(z, x, l1) + y;
      MidFields(z, x, y, l1, l2);
      RunIsTurn(f, u, l2, fin2);
      var end := EndOf(z, x, f, l1, fin1);
      if end == Wait(NeedsMoreInput) && |f.out| >= l2 && !fin2 {
        OverfullDiffers(z, x, y, l1, fin1, l2);
      } else if !end.Wait? || (|f.out| >= l2 && !fin2) {
        WaitStatus(z, x, f, l1, fin1);
        EndedStays(z, x, y, l1, fin1, l2, fin2);
      }
    }
  }

  lemma WaitStatus(z: Lz2, x: seq<byte>, f: Lz2, limit: nat, fin: bool)
    requires |z.out| <= limit
    ensures var end := EndOf(z, x, f, limit, fin); end.Wait? ==> end.status == NeedsMoreInput || end.status == NotFinished
  {
  }

  lemma SameLimits(z: Lz2, l1: nat, l2: nat)
    requires |z.out| <= l1 == l2
    ensures ChunkLimit(z, l1) == ChunkLimit(z, l2) && Fits(z, l1) == Fits(z, l2)
  {
  }

  /** Stopped overfull, a second call returns at once, while one call would have looked for the chunk's end. */
  lemma OverfullDiffers(z: Lz2, x: seq<byte>, y: seq<byte>, l1: nat, fin1: bool, l2: nat)
    requires Lz2Ok(z) && InData(z) && z.control >= 0x80 && |z.out| < l1 && Later(l1, fin1, l2, false)
    requires ChunkRun(z, x, l1).Paused? && |MidChunk(z, x, l1).out| >= l2
    requires EndOf(z, x, MidChunk(z, x, l1), l1, fin1) == Wait(NeedsMoreInput)
    ensures var f, u := MidChunk(z, x, l1), MidUnread(z, x, l1) + y;
            var t := LzmaTurn(f, u, l2, false);
            t.Stop? && t.outcome != Paused2(f, u, NotFinished)
  {
    hide Lz2Ok, ChunkRun, ChunkStart, MidChunk, MidUnread, LzmaTurn, ChunkLimit, Fits, StatusOf;
    MidFields(z, x, y, l1, l2);
    SameLimits(z, l1, l2);
    var f, u := MidChunk(z, x, l1), MidUnread(z, x, l1) + y;
    TurnEnd(f, u, l2, false);
    if ChunkRun(f, u, l2).Paused? {
      MidFields(f, u, [], l2, l2);
    }
  }

  /**
   The division of the input and of the output space into calls cannot be observed, except in
   one case, and in that case always: when the first call stops overfull.
   */
  lemma {:induction false} ChunksSplit(z: Lz2, x: seq<byte>, y: seq<byte>, l1: nat, fin1: bool, l2: nat, fin2: bool)
    requires Lz2Ok(z) && |z.out| <= l1 && Later(l1, fin1, l2, fin2)
    ensures var first := RunChunks(z, x, l1, fin1);
            Continues2(first, RunChunks(z, x + y, l2, fin2), y, l2, fin2) <==> !Overfull(first, l2, fin2)
    decreases |x|, PhaseRank(z.phase)
  {
    hide RunChunks, Lz2Ok, HeaderTurn, CopyTurn, LzmaTurn, UpdateState;
    RunIsTurn(z, x, l1, fin1);
    RunIsTurn(z, x + y, l2, fin2);
    if z.phase != Error && z.phase != Finished && (|z.out| < l1 || fin1) {
      if Header(z.phase) {
        HeaderOnward(z, x, y, l1, fin1, l2, fin2);
      } else if z.control < 0x80 {
        CopyOnward(z, x, y, l1, fin1, l2, fin2);
      } else {
        LzmaOnward(z, x, y, l1, fin1, l2, fin2);
      }
      match TurnOf(z, x, l1, fin1)
      case Stop(_) =>
      case Go(f, rest) => ChunksSplit(f, rest, y, l1, fin1, l2, fin2);
    }
  }

  lemma ChunkRunValue(z: Lz2, x: seq<byte>, limit: nat)
    requires Lz2Ok(z) && InData(z) && |z.out| <= limit
    ensures DecOk(ChunkStart(z)) &&
            ChunkRun(z, x, limit) == Run(ChunkStart(z), Packed(z, x), ChunkLimit(z, limit), Fits(z, limit))
  {
    ChunkStartOk(z);
    hide Run, Lz2Ok;
  }
}
