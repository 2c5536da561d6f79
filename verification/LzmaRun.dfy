/** Whole runs of the decoder: how the input and the output space are divided does not matter. */
module LzmaRun {
  import opened Bytes
  import opened RangeCoder
  import opened LzmaSymbol
  import opened LzmaSymbolFacts
  import opened LzmaModel

  lemma FlushTwice(d: Dec, l1: nat, l2: nat)
    requires DecOk(d) && d.remain < FINISHED && l1 <= l2
    ensures Flush(Flush(d, l1), l2) == Flush(d, l2)
  {
    if Copying(d) && |d.hist| < l1 {
      var n1 := |Flush(d, l1).hist| - |d.hist|;
      var n2 := |Flush(d, l2).hist| - |d.hist|;
      RepeatSplit(d.hist, d.rep0, n1, n2 - n1);
    }
  }

  /** Copying part of a match early does not change the run. */
  lemma RunFlush(d: Dec, x: seq<byte>, l1: nat, l2: nat, fin: bool)
    requires DecOk(d) && d.remain < FINISHED && l1 <= l2
    ensures DecOk(Flush(d, l1)) && Run(Flush(d, l1), x, l2, fin) == Run(d, x, l2, fin)
  {
    FlushOk(d, l1);
    FlushTwice(d, l1, l2);
    hide Flush, AtLimit, NextSymbol, AfterSymbol;
  }

  lemma MoreInputForSymbol(d: Dec, x: seq<byte>, y: seq<byte>)
    requires Ready(d) && NextSymbol(d, x).Decoded?
    ensures var r := NextSymbol(d, x); NextSymbol(d, x + y) == r.(rc := Wider(r.rc, y))
  {
    MoreInput(CtxOf(d), StartWalk(d, x), true, y);
    hide Decode;
  }

  /** One call after another: e continues where the first call stopped. */
  predicate Continues(first: Outcome, whole: Outcome, y: seq<byte>, limit: nat, fin: bool)
    requires first.Paused? ==> DecOk(first.dec)
  {
    match first
    case Failed => whole == Failed
    case Paused(e, rest) => whole == Run(e, rest + y, limit, fin)
  }

  lemma RunAtLimit(d: Dec, x: seq<byte>, limit: nat, fin: bool)
    requires DecOk(d) && d.remain < FINISHED && |d.hist| >= limit
    ensures Run(d, x, limit, fin) == AtLimit(d, x, fin)
  {
    hide AtLimit;
  }

  /** A symbol lengthens the history, leaves a match to copy, or ends the stream. */
  predicate Grows(d: Dec, e: Dec) {
    DecOk(e) && e.remain <= FINISHED && |d.hist| <= |e.hist| && (e.remain == 0 ==> |d.hist| < |e.hist|)
  }

  lemma RunSymbol(d: Dec, x: seq<byte>, limit: nat, fin: bool)
    requires Ready(d) && |d.hist| < limit
    ensures var r := NextSymbol(d, x);
            if r.OutOfInput? then Run(d, x, limit, fin) == Paused(d, x)
            else
              (d.hist == [] ==> BadStart(d) || r.sym.LitSym? || r.sym.MatchSym?) &&
              var f := AfterSymbol(d, r);
              if f.Failed? then Run(d, x, limit, fin) == Failed
              else Grows(d, f.dec) && f.rest == r.rc.rest && Run(d, x, limit, fin) == Run(f.dec, f.rest, limit, fin)
  {
    if NextSymbol(d, x).Decoded? {
      AfterSymbolOk(d, x);
    }
    assert Flush(d, limit) == d;
    hide NextSymbol, AfterSymbol, DecOk;
  }

  lemma AtLimitSplit(d: Dec, x: seq<byte>, y: seq<byte>, limit: nat)
    requires DecOk(d) && d.remain < FINISHED && |d.hist| >= limit
    ensures AtLimit(d, x, true).Paused? ==> DecOk(AtLimit(d, x, true).dec)
    ensures Continues(AtLimit(d, x, true), AtLimit(d, x + y, true), y, limit, true)
  {
    AtLimitOk(d, x, true);
    RunAtLimit(d, x + y, limit, true);
    if d.remain == 0 && NextSymbol(d, x).Decoded? {
      MoreInputForSymbol(d, x, y);
    }
    hide NextSymbol, DecOk;
  }

  lemma SymbolSplit(d: Dec, x: seq<byte>, y: seq<byte>)
    requires Ready(d) && NextSymbol(d, x).Decoded?
    ensures NextSymbol(d, x + y).Decoded? && NextSymbol(d, x + y).sym == NextSymbol(d, x).sym
    ensures d.hist == [] ==> var r := NextSymbol(d, x); BadStart(d) || r.sym.LitSym? || r.sym.MatchSym?
    ensures var f, g := AfterSymbol(d, NextSymbol(d, x)), AfterSymbol(d, NextSymbol(d, x + y));
            if f.Failed? then g == Failed else g == Paused(f.dec, f.rest + y)
  {
    MoreInputForSymbol(d, x, y);
    AfterSymbolOk(d, x);
    hide NextSymbol, DecOk;
  }

  /**
   A run over x + y to limit l2 is the run over x to an earlier limit, continued with what it
   left and y: the division of the compressed bytes and of the output space is unobservable.
   */
  lemma {:induction false} RunSplit(d: Dec, x: seq<byte>, y: seq<byte>, l1: nat, fin1: bool, l2: nat, fin2: bool)
    requires DecOk(d) && l1 <= l2
    requires !fin1 || (l1 == l2 && fin2)
    ensures Continues(Run(d, x, l1, fin1), Run(d, x + y, l2, fin2), y, l2, fin2)
    decreases if d.remain > FINISHED then 1 else 0, if |d.hist| < l1 then l1 - |d.hist| else 0,
              if d.remain == 0 then 1 else 0, 1
  {
    if d.remain > FINISHED {
      if |x| >= RC_INIT_SIZE {
        StartedOk(d, x);
        assert Started(d, x + y) == Started(d, x);
        assert (x + y)[RC_INIT_SIZE..] == x[RC_INIT_SIZE..] + y;
        hide DecOk, Started;
        if x[0] == 0 {
          RunSplit(Started(d, x), x[RC_INIT_SIZE..], y, l1, fin1, l2, fin2);
        }
      }
    } else if d.remain < FINISHED {
      RunFlush(d, x, l1, l1, fin1);
      RunFlush(d, x + y, l1, l2, fin2);
      FlushOk(d, l1);
      hide Flush, DecOk, Run;
      RunSplitFlushed(Flush(d, l1), x, y, l1, fin1, l2, fin2);
    }
  }

  lemma RunSplitAtLimit(d: Dec, x: seq<byte>, y: seq<byte>, l1: nat, fin1: bool, l2: nat, fin2: bool)
    requires DecOk(d) && d.remain < FINISHED && l1 <= l2 && |d.hist| >= l1
    requires !fin1 || (l1 == l2 && fin2)
    ensures Continues(Run(d, x, l1, fin1), Run(d, x + y, l2, fin2), y, l2, fin2)
  {
    RunAtLimit(d, x, l1, fin1);
    hide Run;
    if fin1 {
      AtLimitSplit(d, x, y, l1);
      RunAtLimit(d, x + y, l1, true);
      hide AtLimit;
    }
  }

  lemma {:induction false} RunSplitFlushed(d: Dec, x: seq<byte>, y: seq<byte>, l1: nat, fin1: bool, l2: nat, fin2: bool)
    requires DecOk(d) && d.remain < FINISHED && l1 <= l2 && (|d.hist| < l1 ==> d.remain == 0)
    requires !fin1 || (l1 == l2 && fin2)
    ensures Continues(Run(d, x, l1, fin1), Run(d, x + y, l2, fin2), y, l2, fin2)
    decreases 0, if |d.hist| < l1 then l1 - |d.hist| else 0, if d.remain == 0 then 1 else 0, 0
  {
    if |d.hist| >= l1 {
      RunSplitAtLimit(d, x, y, l1, fin1, l2, fin2);
    } else {
      RunSymbol(d, x, l1, fin1);
      if NextSymbol(d, x).Decoded? {
        SymbolSplit(d, x, y);
        RunSymbol(d, x + y, l2, fin2);
        var f := AfterSymbol(d, NextSymbol(d, x));
        hide NextSymbol, AfterSymbol, DecOk, Run;
        if f.Paused? {
          RunSplit(f.dec, f.rest, y, l1, fin1, l2, fin2);
        }
      }
    }
  }

  /** The history only grows; the properties are never changed. */
  predicate Extends(d: Dec, e: Dec) {
    e.props == d.props && d.hist <= e.hist
  }

  lemma FlushExtends(d: Dec, limit: nat)
    requires DecOk(d) && d.remain < FINISHED
    ensures Extends(d, Flush(d, limit)) && (|d.hist| <= limit ==> |Flush(d, limit).hist| <= limit)
  {
    hide NumProbs;
  }

  lemma SymbolExtends(d: Dec, x: seq<byte>)
    requires Ready(d) && NextSymbol(d, x).Decoded? && (d.hist == [] ==> BadStart(d) || NextSymbol(d, x).sym.LitSym? || NextSymbol(d, x).sym.MatchSym?)
    ensures var f := AfterSymbol(d, NextSymbol(d, x));
            f.Paused? ==> Extends(d, f.dec) && |f.dec.hist| <= |d.hist| + 1
  {
    hide NextSymbol, NumProbs;
  }

  /** The state after one symbol, its match copied as far as the limit. */
  function AfterOne(d: Dec, x: seq<byte>, limit: nat): (e: Dec)
    requires Ready(d) && NextSymbol(d, x).Decoded?
    requires !BadStart(d) && !Unreachable(d, NextSymbol(d, x).sym)
  {
    AfterSymbolOk(d, x);
    Flush(AfterSymbol(d, NextSymbol(d, x)).dec, limit)
  }

  lemma AfterOneOk(d: Dec, x: seq<byte>, limit: nat)
    requires Ready(d) && NextSymbol(d, x).Decoded? && !BadStart(d) && !Unreachable(d, NextSymbol(d, x).sym)
    ensures var e := AfterOne(d, x, limit);
            && DecOk(e) && e.remain <= FINISHED && d.hist <= e.hist
            && (|d.hist| < limit ==> |d.hist| < |e.hist| || e.remain == FINISHED)
            && (|e.hist| < limit && e.remain != FINISHED ==> e.remain == 0)
            && (e.hist == [] ==> e.remain == FINISHED)
  {
    AfterSymbolOk(d, x);
    SymbolExtends(d, x);
    var f := AfterSymbol(d, NextSymbol(d, x)).dec;
    hide NextSymbol;
    if f.remain != FINISHED {
      FlushOk(f, limit);
      FlushExtends(f, limit);
    }
  }

  /** One symbol is one step of every run that reaches at least as far. */
  lemma OneSymbolRun(d: Dec, x: seq<byte>, y: seq<byte>, near: nat, limit: nat, fin: bool)
    requires Ready(d) && !BadStart(d) && NextSymbol(d, x).Decoded? && |d.hist| < near <= limit
    ensures var r := NextSymbol(d, x);
            if Unreachable(d, r.sym) then Run(d, x + y, limit, fin) == Failed
            else
              DecOk(AfterOne(d, x, near)) &&
              Run(d, x + y, limit, fin) == Run(AfterOne(d, x, near), r.rc.rest + y, limit, fin)
  {
    var r := NextSymbol(d, x);
    MoreInputForSymbol(d, x, y);
    AfterSymbolOk(d, x);
    RunSymbol(d, x + y, limit, fin);
    hide NextSymbol, DecOk, Run;
    if !Unreachable(d, r.sym) {
      AfterOneOk(d, x, near);
      var f := AfterSymbol(d, r).dec;
      if f.remain == FINISHED {
        assert Flush(f, near) == f;
      } else {
        RunFlush(f, r.rc.rest + y, near, limit, fin);
      }
    }
  }

  /** At the limit only the end marker is a step. */
  lemma EndMarkRun(d: Dec, x: seq<byte>, y: seq<byte>, limit: nat)
    requires Ready(d) && !BadStart(d) && d.code != 0 && NextSymbol(d, x).Decoded? && |d.hist| >= limit
    ensures var r := NextSymbol(d, x);
            if r.sym.MatchSym? && r.sym.dist == END_MARK then
              DecOk(AfterOne(d, x, limit)) &&
              Run(d, x + y, limit, true) == Run(AfterOne(d, x, limit), r.rc.rest + y, limit, true)
            else Run(d, x + y, limit, true) == Failed
  {
    MoreInputForSymbol(d, x, y);
    RunAtLimit(d, x + y, limit, true);
    var r := NextSymbol(d, x);
    if r.sym.MatchSym? && r.sym.dist == END_MARK {
      AfterOneOk(d, x, limit);
      assert AfterOne(d, x, limit) == Applied(WithCoder(d, r.rc, r.probs), r.sym);
    }
    hide NextSymbol, DecOk;
  }

  lemma BadStartFails(d: Dec, x: seq<byte>, y: seq<byte>, limit: nat, fin: bool)
    requires Ready(d) && BadStart(d) && NextSymbol(d, x).Decoded? && (|d.hist| < limit || fin)
    ensures Run(d, x + y, limit, fin) == Failed
  {
    MoreInputForSymbol(d, x, y);
    if |d.hist| < limit {
      RunSymbol(d, x + y, limit, fin);
    } else {
      RunAtLimit(d, x + y, limit, fin);
    }
    hide NextSymbol, DecOk;
  }

  lemma OnlyMatchesAtLimit(d: Dec, x: seq<byte>, y: seq<byte>, limit: nat)
    requires Ready(d) && d.code != 0 && NextSymbol(d, x).Decoded? && !NextSymbol(d, x).sym.MatchSym? && |d.hist| >= limit
    ensures Run(d, x + y, limit, true) == Failed
  {
    MoreInputForSymbol(d, x, y);
    RunAtLimit(d, x + y, limit, true);
    hide NextSymbol, DecOk;
  }

  /** The carried bytes starve the symbol; with the bytes after them it reads past the carried ones. */
  lemma CarryIsUsed(d: Dec, carried: seq<byte>, added: seq<byte>)
    requires Ready(d) && NextSymbol(d, carried).OutOfInput? && NextSymbol(d, carried + added).Decoded?
    ensures |NextSymbol(d, carried + added).rc.rest| < |added|
    ensures var rest := NextSymbol(d, carried + added).rc.rest; rest == added[|added| - |rest|..]
  {
    StarvedReadsOn(CtxOf(d), StartWalk(d, carried), true, added);
    DecodeConsumes(CtxOf(d), StartWalk(d, carried + added), true);
    hide Decode;
    var x, rest := carried + added, NextSymbol(d, carried + added).rc.rest;
    assert rest == x[|x| - |rest|..];
  }

  /** ELzmaStatus */
  datatype Status = NotSpecified | FinishedWithMark | NotFinished | NeedsMoreInput | MaybeFinishedWithoutMark

  /** Why a run paused. */
  function StatusOf(d: Dec, limit: nat, fin: bool): Status {
    if d.remain > FINISHED then NeedsMoreInput
    else if d.remain == FINISHED then FinishedWithMark
    else if |d.hist| >= limit then
      if d.remain == 0 && d.code == 0 then MaybeFinishedWithoutMark
      else if fin then NeedsMoreInput else NotFinished
    else NeedsMoreInput
  }

  /** Where a run stops. */
  lemma RunStops(d: Dec, x: seq<byte>, limit: nat, fin: bool)
    requires DecOk(d)
    ensures d.remain == FINISHED ==> Run(d, x, limit, fin) == if d.code != 0 then Failed else Paused(d, x)
    ensures d.remain < FINISHED && |d.hist| >= limit && (!fin || (d.remain == 0 && d.code == 0)) ==>
              Run(d, x, limit, fin) == Paused(d, x)
    ensures d.remain < FINISHED && |d.hist| >= limit && fin && d.remain != 0 ==> Run(d, x, limit, fin) == Failed
    ensures Ready(d) && NextSymbol(d, x).OutOfInput? && (|d.hist| < limit || (fin && d.code != 0)) ==>
              Run(d, x, limit, fin) == Paused(d, x)
  {
    if d.remain < FINISHED {
      if |d.hist| >= limit {
        RunAtLimit(d, x, limit, fin);
        hide Run, NextSymbol;
      } else if d.remain == 0 {
        RunSymbol(d, x, limit, fin);
        hide Run;
      }
    }
  }

  /** The run before the first symbol. */
  lemma RunStarts(d: Dec, x: seq<byte>, limit: nat, fin: bool)
    requires DecOk(d) && d.remain > FINISHED
    ensures x != [] && x[0] != 0 ==> Run(d, x, limit, fin) == Failed
    ensures |x| < RC_INIT_SIZE && (x != [] ==> x[0] == 0) ==> Run(d, x, limit, fin) == Paused(d, x)
    ensures |x| >= RC_INIT_SIZE && x[0] == 0 ==>
              DecOk(Started(d, x)) && Started(d, x) == Started(d, x[..RC_INIT_SIZE]) && Started(d, x).remain == 0 &&
              Run(d, x, limit, fin) == Run(Started(d, x), x[RC_INIT_SIZE..], limit, fin)
  {
    if |x| >= RC_INIT_SIZE {
      StartedOk(d, x);
    }
    hide DecOk;
  }

  lemma AtLimitExtends(d: Dec, x: seq<byte>, fin: bool)
    requires DecOk(d) && d.remain < FINISHED
    ensures AtLimit(d, x, fin).Paused? ==>
              Extends(d, AtLimit(d, x, fin).dec) && |AtLimit(d, x, fin).dec.hist| == |d.hist| && AtLimit(d, x, fin).dec.remain <= FINISHED
    ensures AtLimit(d, x, fin).Paused? ==> IsSuffix(AtLimit(d, x, fin).rest, x)
  {
    if d.remain == 0 {
      SymbolEnds(d, x);
    }
    hide NextSymbol, NumProbs;
  }

  lemma SuffixOfSuffix(rest: seq<byte>, mid: seq<byte>, x: seq<byte>)
    requires IsSuffix(rest, mid) && IsSuffix(mid, x)
    ensures IsSuffix(rest, x)
  {
  }

  lemma SymbolEnds(d: Dec, x: seq<byte>)
    requires Ready(d)
    ensures NextSymbol(d, x).Decoded? ==> IsSuffix(NextSymbol(d, x).rc.rest, x)
  {
    if NextSymbol(d, x).Decoded? {
      DecodeConsumes(CtxOf(d), StartWalk(d, x), true);
    }
    hide Decode, CtxOf;
  }

  /**
   What a run keeps: the history before it is a prefix of the one after it, which is within the
   limit, and the input left is the end of the input given.
   */
  lemma {:induction false} RunExtends(d: Dec, x: seq<byte>, limit: nat, fin: bool)
    requires DecOk(d) && Run(d, x, limit, fin).Paused?
    ensures var e := Run(d, x, limit, fin).dec;
            && Extends(d, e) && (|d.hist| <= limit ==> |e.hist| <= limit) && IsSuffix(Run(d, x, limit, fin).rest, x)
            && (d.remain <= FINISHED ==> e.remain <= FINISHED)
    decreases if d.remain > FINISHED then 1 else 0, if |d.hist| < limit then limit - |d.hist| else 0,
              if d.remain == 0 then 1 else 0, 1
  {
    if d.remain > FINISHED {
      RunStarts(d, x, limit, fin);
      if |x| >= RC_INIT_SIZE {
        StartedOk(d, x);
        assert Extends(d, Started(d, x));
        hide Run, DecOk, Started;
        RunExtends(Started(d, x), x[RC_INIT_SIZE..], limit, fin);
        SuffixOfSuffix(Run(d, x, limit, fin).rest, x[RC_INIT_SIZE..], x);
      }
    } else if d.remain < FINISHED {
      RunFlush(d, x, limit, limit, fin);
      FlushOk(d, limit);
      FlushExtends(d, limit);
      hide Flush, DecOk, Run;
      RunExtendsFlushed(Flush(d, limit), x, limit, fin);
    }
  }

  lemma {:induction false} RunExtendsFlushed(d: Dec, x: seq<byte>, limit: nat, fin: bool)
    requires DecOk(d) && d.remain < FINISHED && (|d.hist| < limit ==> d.remain == 0)
    requires Run(d, x, limit, fin).Paused?
    ensures var e := Run(d, x, limit, fin).dec;
            && Extends(d, e) && (|d.hist| <= limit ==> |e.hist| <= limit) && IsSuffix(Run(d, x, limit, fin).rest, x)
            && (d.remain <= FINISHED ==> e.remain <= FINISHED)
    decreases 0, if |d.hist| < limit then limit - |d.hist| else 0, if d.remain == 0 then 1 else 0, 0
  {
    if |d.hist| >= limit {
      RunAtLimit(d, x, limit, fin);
      AtLimitExtends(d, x, fin);
    } else {
      RunSymbol(d, x, limit, fin);
      if NextSymbol(d, x).Decoded? {
        SymbolExtends(d, x);
        SymbolEnds(d, x);
        var f := AfterSymbol(d, NextSymbol(d, x));
        hide NextSymbol, AfterSymbol, DecOk, Run, IsSuffix;
        RunExtends(f.dec, f.rest, limit, fin);
        SuffixOfSuffix(Run(d, x, limit, fin).rest, f.rest, x);
      }
    }
  }

  /** Nothing more can be decoded from x, however much output space there is. */
  predicate Stuck(d: Dec, x: seq<byte>)
    requires DecOk(d)
  {
    if d.remain > FINISHED then |x| < RC_INIT_SIZE && (x != [] ==> x[0] == 0)
    else if d.remain == FINISHED then d.code == 0
    else d.remain == 0 && NextSymbol(d, x).OutOfInput?
  }

  lemma StuckStays(d: Dec, x: seq<byte>, limit: nat, fin: bool)
    requires DecOk(d) && Stuck(d, x) && |d.hist| < limit
    ensures Run(d, x, limit, fin) == Paused(d, x)
  {
    if d.remain > FINISHED {
      RunStarts(d, x, limit, fin);
    } else {
      RunStops(d, x, limit, fin);
    }
  }

  /** A run that pauses below its limit is stuck. */
  lemma {:induction false} PausedBelow(d: Dec, x: seq<byte>, limit: nat, fin: bool)
    requires DecOk(d) && Run(d, x, limit, fin).Paused? && |Run(d, x, limit, fin).dec.hist| < limit
    ensures Stuck(Run(d, x, limit, fin).dec, Run(d, x, limit, fin).rest)
    decreases if d.remain > FINISHED then 1 else 0, if |d.hist| < limit then limit - |d.hist| else 0,
              if d.remain == 0 then 1 else 0, 1
  {
    if d.remain > FINISHED {
      RunStarts(d, x, limit, fin);
      if |x| >= RC_INIT_SIZE {
        StartedOk(d, x);
        hide Run, DecOk, Started, Stuck;
        PausedBelow(Started(d, x), x[RC_INIT_SIZE..], limit, fin);
      }
    } else if d.remain < FINISHED {
      RunFlush(d, x, limit, limit, fin);
      FlushOk(d, limit);
      hide Flush, DecOk, Run, Stuck;
      PausedBelowFlushed(Flush(d, limit), x, limit, fin);
    }
  }

  lemma {:induction false} PausedBelowFlushed(d: Dec, x: seq<byte>, limit: nat, fin: bool)
    requires DecOk(d) && d.remain < FINISHED && (|d.hist| < limit ==> d.remain == 0)
    requires Run(d, x, limit, fin).Paused? && |Run(d, x, limit, fin).dec.hist| < limit
    ensures Stuck(Run(d, x, limit, fin).dec, Run(d, x, limit, fin).rest)
    decreases 0, if |d.hist| < limit then limit - |d.hist| else 0, if d.remain == 0 then 1 else 0, 0
  {
    if |d.hist| >= limit {
      RunAtLimit(d, x, limit, fin);
      AtLimitExtends(d, x, fin);
    } else {
      RunSymbol(d, x, limit, fin);
      if NextSymbol(d, x).Decoded? {
        var f := AfterSymbol(d, NextSymbol(d, x));
        hide NextSymbol, AfterSymbol, DecOk, Run, Stuck;
        PausedBelow(f.dec, f.rest, limit, fin);
      }
    }
  }

  /**
   A call that stops at an earlier limit, as a piece of a run to a later one.  When it stops
   below its own limit, or at the end of the later one, the run is over.
   */
  lemma PieceOfRun(d: Dec, x: seq<byte>, l1: nat, fin1: bool, l2: nat, fin2: bool)
    requires DecOk(d) && l1 <= l2 && (!fin1 || (l1 == l2 && fin2))
    ensures Run(d, x, l1, fin1).Failed? ==> Run(d, x, l2, fin2) == Failed
    ensures Run(d, x, l1, fin1).Paused? ==>
              var Paused(e, rest) := Run(d, x, l1, fin1);
              && DecOk(e) && Run(d, x, l2, fin2) == Run(e, rest, l2, fin2)
              && (|e.hist| < l1 || (l1 == l2 && fin1 == fin2) ==>
                    Run(e, rest, l2, fin2) == Paused(e, rest) && StatusOf(e, l1, fin1) == StatusOf(e, l2, fin2))
  {
    assert x + [] == x;
    RunSplit(d, x, [], l1, fin1, l2, fin2);
    var r := Run(d, x, l1, fin1);
    assert r.Paused? ==> r.rest + [] == r.rest && DecOk(r.dec);
    if r.Paused? && |r.dec.hist| < l1 {
      PausedBelow(d, x, l1, fin1);
      StuckStays(r.dec, r.rest, l2, fin2);
    }
    hide Run, DecOk, Stuck;
  }
}
