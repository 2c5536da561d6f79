/** The roster and the corpses of replay_worker.c, brought from one tick to another. */
module Roster {
  import opened Wrappers

  const MAX_AGENT_SLOTS: nat := 1025

  /** The tick that stands for "synced to nothing": the largest of the 64-bit numbers. */
  const NEVER: int := 0x7FFF_FFFF_FFFF_FFFF

  datatype RosterEntry = RosterEntry(active: bool, isHuman: bool, team: int, spawnEventId: int)

  const ABSENT := RosterEntry(false, false, 0, 0)

  datatype Corpse<Place> = Corpse(x: Place, y: Place, team: int)

  /** A row of the events that are read: spawns and kills, in the order of their ids. */
  datatype Row<Place> = Row(tick: int, isSpawn: bool, agentRef: int, isHuman: int, team: Option<string>,
                            spawnEventId: int, deadId: int, x: Place, y: Place)

  datatype Span = Span(startTick: int, endTick: int)

  /** parse_team */
  function ParseTeam(text: Option<string>): int {
    if text == Some("0") then 0 else if text == Some("1") then 1 else -1
  }

  // ---------- The fold ----------

  datatype State<Place> = State(roster: seq<RosterEntry>, corpses: seq<Corpse<Place>>)

  predicate Shaped<Place>(s: State<Place>) { |s.roster| == MAX_AGENT_SLOTS }

  predicate InRange(id: int) { 0 <= id < MAX_AGENT_SLOTS }

  function Empty<Place>(): (s: State<Place>)
    ensures Shaped(s)
  {
    State(seq(MAX_AGENT_SLOTS, _ => ABSENT), [])
  }

  /** What one event does. */
  function Apply<Place>(s: State<Place>, row: Row<Place>): (r: State<Place>)
    requires Shaped(s)
    ensures Shaped(r)
  {
    if !InRange(row.agentRef) then s
    else if row.isSpawn then
      s.(roster := s.roster[row.agentRef := RosterEntry(true, row.isHuman != 0, ParseTeam(row.team), row.spawnEventId)])
    else if !InRange(row.deadId) then s
    else s.(corpses := s.corpses + [Corpse(row.x, row.y, s.roster[row.deadId].team)])
  }

  /** The team of an agent: that of the text, which is 0 or 1, or none. */
  lemma TeamIs(text: Option<string>)
    ensures ParseTeam(text) == match text
                               case Some(t) => if t == "0" then 0 else if t == "1" then 1 else -1
                               case None => -1
  {
  }

  /** A spawn fills the slot of its agent, and changes nothing else. */
  lemma SpawnFills<Place>(s: State<Place>, row: Row<Place>, k: nat)
    requires Shaped(s) && row.isSpawn && k < 1025
    ensures var r := Apply(s, row);
            && r.corpses == s.corpses
            && r.roster[k] == if k == row.agentRef then RosterEntry(true, row.isHuman != 0, ParseTeam(row.team), row.spawnEventId)
                              else s.roster[k]
  {
  }

  /** A kill leaves a corpse of the team of the one who died, and the roster as it is; unknown agents leave nothing. */
  lemma KillLeaves<Place>(s: State<Place>, row: Row<Place>)
    requires Shaped(s) && !row.isSpawn
    ensures var r := Apply(s, row);
            && r.roster == s.roster
            && r.corpses == s.corpses + if 0 <= row.agentRef < 1025 && 0 <= row.deadId < 1025
                                        then [Corpse(row.x, row.y, s.roster[row.deadId].team)] else []
  {
  }

  /** Nobody is in the roster at first. */
  lemma EmptyIs<Place>(k: nat)
    requires k < 1025
    ensures !Empty<Place>().roster[k].active && |Empty<Place>().roster| == 1025 && Empty<Place>().corpses == []
  {
  }

  function Fold<Place>(s: State<Place>, rows: seq<Row<Place>>): (r: State<Place>)
    requires Shaped(s)
    ensures Shaped(r)
    decreases |rows|
  {
    if rows == [] then s else Fold(Apply(s, rows[0]), rows[1..])
  }

  lemma {:induction false} FoldAppend<Place>(s: State<Place>, a: seq<Row<Place>>, b: seq<Row<Place>>)
    requires Shaped(s)
    ensures Fold(s, a + b) == Fold(Fold(s, a), b)
    decreases |a|
  {
    hide Apply;
    if a == [] {
      assert a + b == b;
    } else {
      assert (a + b)[1..] == a[1..] + b;
      FoldAppend(Apply(s, a[0]), a[1..], b);
    }
  }

  // ---------- The events between two ticks ----------

  /** The rows with a tick in (from, to]. */
  function Between<Place>(rows: seq<Row<Place>>, from: int, to: int): (r: seq<Row<Place>>) {
    if rows == [] then []
    else (if from < rows[0].tick <= to then [rows[0]] else []) + Between(rows[1..], from, to)
  }

  /** The ids of the events are in the order of their ticks. */
  predicate InOrder<Place>(rows: seq<Row<Place>>) {
    forall i, j :: 0 <= i < j < |rows| ==> rows[i].tick <= rows[j].tick
  }

  lemma {:induction false} BetweenNone<Place>(rows: seq<Row<Place>>, from: int, to: int)
    requires from >= to || forall i :: 0 <= i < |rows| ==> rows[i].tick > to
    ensures Between(rows, from, to) == []
  {
    if rows != [] {
      BetweenNone(rows[1..], from, to);
    }
  }

  /** They are all rows with such ticks, each as often as it occurs, and in the same order. */
  lemma {:induction false} BetweenPicks<Place>(rows: seq<Row<Place>>, from: int, to: int, row: Row<Place>)
    ensures multiset(Between(rows, from, to))[row] == if from < row.tick <= to then multiset(rows)[row] else 0
    ensures InOrder(rows) ==> InOrder(Between(rows, from, to))
    decreases |rows|
  {
    if rows != [] {
      assert rows == [rows[0]] + rows[1..];
      BetweenPicks(rows[1..], from, to, row);
      if InOrder(rows) {
        OrderKept(rows, from, to);
      }
    }
  }

  lemma {:induction false} OrderKept<Place>(rows: seq<Row<Place>>, from: int, to: int)
    requires InOrder(rows)
    ensures InOrder(Between(rows, from, to))
    ensures rows != [] ==> forall i :: 0 <= i < |Between(rows, from, to)| ==> rows[0].tick <= Between(rows, from, to)[i].tick
    decreases |rows|
  {
    if rows != [] {
      var rest := Between(rows[1..], from, to);
      OrderKept(rows[1..], from, to);
      assert |rows| > 1 ==> rows[0].tick <= rows[1..][0].tick;
      assert rows[1..] == [] ==> rest == [];
      assert Between(rows, from, to) == (if from < rows[0].tick <= to then [rows[0]] else []) + rest;
    }
  }

  /** In that order, two adjoining ranges follow each other. */
  lemma {:induction false} BetweenSplits<Place>(rows: seq<Row<Place>>, from: int, mid: int, to: int)
    requires InOrder(rows) && from <= mid <= to
    ensures Between(rows, from, to) == Between(rows, from, mid) + Between(rows, mid, to)
  {
    hide Between;
    if rows == [] {
      BetweenNone(rows, from, mid);
      BetweenNone(rows, mid, to);
      BetweenNone(rows, from, to);
    } else {
      BetweenFirst(rows, from, mid);
      BetweenFirst(rows, mid, to);
      BetweenFirst(rows, from, to);
      BetweenSplits(rows[1..], from, mid, to);
      if rows[0].tick > mid {
        BetweenNone(rows[1..], from, mid);
      }
    }
  }

  lemma BetweenFirst<Place>(rows: seq<Row<Place>>, from: int, to: int)
    requires rows != []
    ensures Between(rows, from, to) ==
            (if from < rows[0].tick <= to then [rows[0]] + Between(rows[1..], from, to) else Between(rows[1..], from, to))
  {
  }

  /** An order that is not that of the ticks: rows that two steps swap. */
  lemma StepsSwap<Place>(late: Row<Place>, early: Row<Place>)
    requires early.tick < late.tick
    ensures var rows := [late, early];
            var from, mid, to := early.tick - 1, early.tick, late.tick;
            && Between(rows, from, to) == [late, early]
            && Between(rows, from, mid) + Between(rows, mid, to) == [early, late]
  {
    assert [late, early][1..] == [early];
    assert Between([early], early.tick - 1, late.tick) == [early];
    assert Between([early], early.tick, late.tick) == [];
    assert Between([early], early.tick - 1, early.tick) == [early];
  }

  /**
   The order is needed: of two spawns of one agent, one step leaves the one with the larger id
   in the roster, and two steps leave the one with the later tick.
   */
  lemma OrderMatters<Place>(s: State<Place>, late: Row<Place>, early: Row<Place>)
    requires Shaped(s) && early.tick < late.tick && late.isSpawn && early.isSpawn
    requires late.agentRef == early.agentRef && InRange(late.agentRef) && late.spawnEventId < early.spawnEventId
    ensures var rows := [late, early];
            var from, mid, to := early.tick - 1, early.tick, late.tick;
            var once, twice := Fold(s, Between(rows, from, to)), Fold(Fold(s, Between(rows, from, mid)), Between(rows, mid, to));
            && once.roster[late.agentRef].spawnEventId == early.spawnEventId
            && twice.roster[late.agentRef].spawnEventId == late.spawnEventId && once != twice
  {
    StepsSwap(late, early);
    var rows := [late, early];
    FoldAppend(s, Between(rows, early.tick - 1, early.tick), Between(rows, early.tick, late.tick));
    hide Between, Apply;
    FoldTwo(s, late, early);
    FoldTwo(s, early, late);
    SpawnSpawn(s, late, early);
    SpawnSpawn(s, early, late);
  }

  lemma FoldOne<Place>(s: State<Place>, a: Row<Place>)
    requires Shaped(s)
    ensures Fold(s, [a]) == Apply(s, a)
  {
    hide Apply;
    assert [a][1..] == [];
  }

  lemma FoldTwo<Place>(s: State<Place>, a: Row<Place>, b: Row<Place>)
    requires Shaped(s)
    ensures Fold(s, [a, b]) == Apply(Apply(s, a), b)
  {
    FoldAppend(s, [a], [b]);
    assert [a] + [b] == [a, b];
    FoldOne(s, a);
    FoldOne(Apply(s, a), b);
    hide Apply, Fold;
  }

  /** Of two spawns the second one stays. */
  lemma SpawnSpawn<Place>(s: State<Place>, a: Row<Place>, b: Row<Place>)
    requires Shaped(s) && a.isSpawn && b.isSpawn && a.agentRef == b.agentRef && InRange(a.agentRef)
    ensures Apply(Apply(s, a), b).roster[b.agentRef].spawnEventId == b.spawnEventId
  {
  }

  // ---------- The battles ----------

  /** find_match_for_tick: the first battle with the tick. */
  function FindMatch(spans: seq<Span>, tick: int): (i: int)
    ensures -1 <= i < |spans|
    ensures i >= 0 ==> spans[i].startTick <= tick <= spans[i].endTick
    ensures forall k :: 0 <= k < (if i >= 0 then i else |spans|) ==> !(spans[k].startTick <= tick <= spans[k].endTick)
  {
    FindFrom(spans, tick, 0)
  }

  function FindFrom(spans: seq<Span>, tick: int, from: nat): (i: int)
    requires from <= |spans| && forall k :: 0 <= k < from ==> !(spans[k].startTick <= tick <= spans[k].endTick)
    ensures -1 <= i < |spans|
    ensures i >= 0 ==> spans[i].startTick <= tick <= spans[i].endTick
    ensures forall k :: 0 <= k < (if i >= 0 then i else |spans|) ==> !(spans[k].startTick <= tick <= spans[k].endTick)
    decreases |spans| - from
  {
    if from == |spans| then -1
    else if spans[from].startTick <= tick <= spans[from].endTick then from
    else FindFrom(spans, tick, from + 1)
  }

  /** The tick after which a battle's events begin. */
  function LowerBound(spans: seq<Span>, i: int): int
    requires -1 <= i < |spans|
  {
    if i >= 0 then spans[i].startTick - 2 else -1
  }

  /** The roster and the corpses at a tick: all events of its battle up to it, from an empty roster. */
  function At<Place>(rows: seq<Row<Place>>, spans: seq<Span>, tick: int): (s: State<Place>)
    ensures Shaped(s)
  {
    Fold(Empty(), Between(rows, LowerBound(spans, FindMatch(spans, tick)), tick))
  }

  /** The events of a battle count from the tick before its first one; without a battle all of them do. */
  lemma AtIs<Place>(rows: seq<Row<Place>>, spans: seq<Span>, tick: int)
    ensures var i := FindMatch(spans, tick);
            At(rows, spans, tick) == Fold(Empty(), Between(rows, if i >= 0 then spans[i].startTick - 2 else -1, tick))
  {
  }

  /** Going on inside a battle adds what happened in between. */
  lemma AtLater<Place>(rows: seq<Row<Place>>, spans: seq<Span>, was: int, tick: int)
    requires InOrder(rows) && was <= tick && FindMatch(spans, was) == FindMatch(spans, tick)
    requires FindMatch(spans, was) < 0 ==> -1 <= was
    ensures At(rows, spans, tick) == Fold(At(rows, spans, was), Between(rows, was, tick))
  {
    hide Fold, FindMatch;
    var from := LowerBound(spans, FindMatch(spans, was));
    BetweenSplits(rows, from, was, tick);
    FoldAppend(Empty(), Between(rows, from, was), Between(rows, was, tick));
  }

  // ---------- The worker's state ----------

  class Cursor<Place> {
    /** The database: events in id order, and the battles found in it. */
    var rows: seq<Row<Place>>
    var spans: seq<Span>
    const roster: array<RosterEntry>
    var corpses: array<Corpse<Place>>
    var corpseCount: nat
    var syncedTick: int
    var active: int
    const nowhere: Place

    constructor (rows: seq<Row<Place>>, spans: seq<Span>, nowhere: Place)
      requires InOrder(rows) && forall i :: 0 <= i < |spans| ==> spans[i].startTick >= 0
      ensures Valid() && fresh(roster) && fresh(corpses)
      ensures this.rows == rows && this.spans == spans
    {
      this.rows := rows;
      this.spans := spans;
      this.nowhere := nowhere;
      roster := new RosterEntry[MAX_AGENT_SLOTS](_ => ABSENT);
      corpses := new Corpse<Place>[0](_ => Corpse(nowhere, nowhere, 0));
      corpseCount := 0;
      syncedTick := -1;
      active := -1;
      new;
      BetweenNone(rows, -1, -1);
      assert roster[..] == Empty<Place>().roster;
    }

    ghost function Now(): State<Place>
      reads this, roster, corpses
      requires corpseCount <= corpses.Length
    {
      State(roster[..], corpses[..corpseCount])
    }

    ghost predicate Loaded()
      reads this
    {
      && InOrder(rows) && (forall i :: 0 <= i < |spans| ==> spans[i].startTick >= 0)
      && roster.Length == MAX_AGENT_SLOTS && corpseCount <= corpses.Length
    }

    /** Either nothing is known, or what is known is right for the tick synced to. */
    ghost predicate Valid()
      reads this, roster, corpses
    {
      && Loaded() && -1 <= syncedTick <= NEVER
      && (syncedTick == NEVER || (active == FindMatch(spans, syncedTick) && Now() == At(rows, spans, syncedTick)))
    }

    /** corpse_list_add */
    method AddCorpse(x: Place, y: Place, team: int)
      requires corpseCount <= corpses.Length
      modifies this`corpses, this`corpseCount, corpses
      ensures corpseCount <= corpses.Length && (corpses == old(corpses) || fresh(corpses))
      ensures corpses[..corpseCount] == old(corpses[..corpseCount]) + [Corpse(x, y, team)]
    {
      if corpseCount >= corpses.Length {
        var newCap := if corpses.Length > 0 then corpses.Length * 2 else 256;
        var nc := new Corpse<Place>[newCap](_ => Corpse(nowhere, nowhere, 0));
        forall i | 0 <= i < corpseCount {
          nc[i] := corpses[i];
        }
        corpses := nc;
      }
      corpses[corpseCount] := Corpse(x, y, team);
      corpseCount := corpseCount + 1;
    }

    /** apply_roster_delta */
    method ApplyDelta(from: int, to: int)
      requires Loaded()
      modifies this`corpses, this`corpseCount, roster, corpses
      ensures Loaded() && (corpses == old(corpses) || fresh(corpses))
      ensures Now() == Fold(old(Now()), Between(rows, from, to))
    {
      hide Fold, InOrder, Between;
      ghost var start := Now();
      assert rows[0..] == rows;
      for i := 0 to |rows|
        invariant Loaded() && (corpses == old(corpses) || fresh(corpses))
        invariant Fold(start, Between(rows, from, to)) == Fold(Now(), Between(rows[i..], from, to))
      {
        var row := rows[i];
        ghost var was := Now();
        if from < row.tick <= to && InRange(row.agentRef) {
          if row.isSpawn {
            roster[row.agentRef] := RosterEntry(true, row.isHuman != 0, ParseTeam(row.team), row.spawnEventId);
          } else if InRange(row.deadId) {
            AddCorpse(row.x, row.y, roster[row.deadId].team);
          }
        }
        FoldNext(was, rows, i, from, to);
        assert Now() == if from < row.tick <= to then Apply(was, row) else was;
      }
      FoldDone(Now(), rows, from, to);
    }

    method ClearRoster()
      requires roster.Length == MAX_AGENT_SLOTS
      modifies roster
      ensures roster[..] == Empty<Place>().roster
    {
      for i := 0 to roster.Length
        invariant forall k :: 0 <= k < i ==> roster[k] == ABSENT
      {
        roster[i] := ABSENT;
      }
    }

    /** resync_roster_to: from whatever tick, the roster is that of the target. */
    method ResyncTo(target: int)
      requires Valid() && 0 <= target < NEVER
      modifies this`corpses, this`corpseCount, this`syncedTick, this`active, roster, corpses
      ensures Valid() && syncedTick == target && active == FindMatch(spans, target)
      ensures Now() == At(rows, spans, target) && (corpses == old(corpses) || fresh(corpses))
    {
      hide Fold, InOrder, Between, FindMatch;
      var targetMatch := FindMatch(spans, target);
      var from: int;
      if targetMatch != active || target < syncedTick {
        ClearRoster();
        corpseCount := 0;
        active := targetMatch;
        from := if targetMatch >= 0 then spans[targetMatch].startTick - 2 else -1;
        assert Now() == Empty();
      } else {
        from := syncedTick;
        AtLater(rows, spans, syncedTick, target);
      }
      if target > from {
        ApplyDelta(from, target);
      } else {
        BetweenNone(rows, from, target);
        FoldNothing(Now());
      }
      syncedTick := target;
    }

    /** replay_invalidate_caches_after_revert: the database may be any other. */
    method Reverted(newRows: seq<Row<Place>>, newSpans: seq<Span>)
      requires Valid() && InOrder(newRows) && forall i :: 0 <= i < |newSpans| ==> newSpans[i].startTick >= 0
      modifies this`rows, this`spans, this`syncedTick, this`active
      ensures Valid() && rows == newRows && spans == newSpans && syncedTick == NEVER && active == -1
    {
      rows := newRows;
      spans := newSpans;
      syncedTick := NEVER;
      active := -1;
    }
  }

  lemma FoldNext<Place>(s: State<Place>, rows: seq<Row<Place>>, i: nat, from: int, to: int)
    requires Shaped(s) && i < |rows|
    ensures Fold(s, Between(rows[i..], from, to)) ==
            Fold(if from < rows[i].tick <= to then Apply(s, rows[i]) else s, Between(rows[i + 1..], from, to))
  {
    hide Apply;
    assert rows[i..][1..] == rows[i + 1..];
    var rest := Between(rows[i + 1..], from, to);
    if from < rows[i].tick <= to {
      assert Between(rows[i..], from, to) == [rows[i]] + rest;
      assert ([rows[i]] + rest)[0] == rows[i] && ([rows[i]] + rest)[1..] == rest;
      assert Fold(s, [rows[i]] + rest) == Fold(Apply(s, rows[i]), rest);
    } else {
      assert Between(rows[i..], from, to) == rest;
    }
  }

  lemma FoldDone<Place>(s: State<Place>, rows: seq<Row<Place>>, from: int, to: int)
    requires Shaped(s)
    ensures Fold(s, Between(rows[|rows|..], from, to)) == s
  {
  }

  lemma FoldNothing<Place>(s: State<Place>)
    requires Shaped(s)
    ensures Fold(s, []) == s
  {
  }
}
