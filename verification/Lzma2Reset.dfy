/** The reset discipline of LZMA2, over whole runs of the decoder. */
module Lzma2Reset {
  import opened Bytes
  import opened LzmaModel
  import opened LzmaRun
  import opened Lzma2Model
  import opened Lzma2Run

  // ---------- Sequences of control bytes ----------

  /** The control bytes of a stream's chunks are accepted one after another, starting from level. */
  predicate Accepted(level: nat, controls: seq<byte>)
    decreases |controls|
  {
    controls == [] ||
    var c := controls[0];
    c != 0 &&
    (if c == COPY_RESET_DIC then Accepted(LEVEL_PROP, controls[1..])
     else if c < 0x80 then c == 2 && level != LEVEL_DIC && Accepted(level, controls[1..])
     else level <= c && Accepted(0, controls[1..]))
  }

  /** A control byte is accepted by the decoder exactly as Accepted says, with the level it leaves. */
  lemma ControlAccepted(z: Lz2, c: byte)
    requires Lz2Ok(z) && z.phase == Control && c != 0
    ensures UpdateState(z, c).phase != Error <==> Accepted(z.level, [c])
    ensures UpdateState(z, c).phase != Error ==>
              UpdateState(z, c).level == if c == COPY_RESET_DIC then LEVEL_PROP else if c < 0x80 then z.level else 0
  {
    hide DecOk, CoderOk, NumProbs, Blank;
    assert [c][1..] == [];
  }

  predicate ResetsDic(c: byte) {
    c == COPY_RESET_DIC || c >= 0xE0
  }

  /** What has been seen of a stream: a dictionary reset, and properties since the last one. */
  predicate Seen(level: nat, controls: seq<byte>) {
    && (level != LEVEL_DIC ==> exists r :: 0 <= r < |controls| && ResetsDic(controls[r]))
    && (level == 0 ==> exists j :: 0 <= j < |controls| && controls[j] >= 0xC0 && NoResetAfter(controls, j))
  }

  predicate NoResetAfter(controls: seq<byte>, j: nat) {
    forall k :: j < k < |controls| ==> controls[k] != COPY_RESET_DIC
  }

  /** The level after the controls; done and more together are accepted. */
  lemma {:induction false} LevelMeans(level: nat, done: seq<byte>, more: seq<byte>, i: nat)
    requires level == 0 || level == LEVEL_PROP || level == LEVEL_DIC
    requires Seen(level, done) && Accepted(level, more) && i < |more| && more[i] >= 0x80
    ensures var all := done + more[..i + 1];
            (exists r :: 0 <= r < |all| && ResetsDic(all[r])) &&
            exists j :: 0 <= j < |all| && all[j] >= 0xC0 && NoResetAfter(all, j)
    decreases |more|
  {
    var c := more[0];
    var next := done + [c];
    var after := if c == COPY_RESET_DIC then LEVEL_PROP else if c < 0x80 then level else 0;
    SeenNext(level, done, c, after);
    if i == 0 {
      assert more[..1] == [c];
    } else {
      LevelMeans(after, next, more[1..], i - 1);
      assert next + more[1..][..i] == done + more[..i + 1];
    }
  }

  lemma SeenNext(level: nat, done: seq<byte>, c: byte, after: nat)
    requires level == 0 || level == LEVEL_PROP || level == LEVEL_DIC
    requires Seen(level, done) && (c == COPY_RESET_DIC || (c == 2 && level != LEVEL_DIC) || (c >= 0x80 && level <= c))
    requires after == if c == COPY_RESET_DIC then LEVEL_PROP else if c < 0x80 then level else 0
    ensures Seen(after, done + [c])
  {
    var next := done + [c];
    assert next[|done|] == c;
    if level != LEVEL_DIC {
      var r :| 0 <= r < |done| && ResetsDic(done[r]);
      assert ResetsDic(next[r]);
    }
    if level == 0 {
      var j :| 0 <= j < |done| && done[j] >= 0xC0 && NoResetAfter(done, j);
      assert next[j] >= 0xC0 && (c != COPY_RESET_DIC ==> NoResetAfter(next, j));
    }
    if c >= 0xC0 {
      assert NoResetAfter(next, |done|);
    }
  }

  /**
   No LZMA chunk is accepted before the dictionary has been reset, nor without new properties
   since its last reset by a copy chunk.
   */
  lemma AcceptedResets(controls: seq<byte>, i: nat)
    requires Accepted(LEVEL_DIC, controls) && i < |controls| && controls[i] >= 0x80
    ensures exists r :: 0 <= r <= i && ResetsDic(controls[r])
    ensures exists j :: 0 <= j <= i && controls[j] >= 0xC0 && forall k :: j < k <= i ==> controls[k] != COPY_RESET_DIC
  {
    LevelMeans(LEVEL_DIC, [], controls, i);
    var all := [] + controls[..i + 1];
    var r :| 0 <= r < |all| && ResetsDic(all[r]);
    assert ResetsDic(controls[r]);
    var j :| 0 <= j < |all| && all[j] >= 0xC0 && NoResetAfter(all, j);
    assert controls[j] >= 0xC0;
    assert forall k :: j < k <= i ==> all[k] == controls[k];
  }

  // ---------- The control bytes of a run ----------

  /** The control byte of a chunk, if the next turn reads one. */
  function TakenControl(z: Lz2, x: seq<byte>): seq<byte> {
    if z.phase == Control && x != [] && x[0] != 0 then [x[0]] else []
  }

  /** A run from z over x comes through the state f, having read the control bytes seen. */
  ghost predicate Reaches(z: Lz2, x: seq<byte>, limit: nat, fin: bool, f: Lz2, seen: seq<byte>)
    requires Lz2Ok(z) && |z.out| <= limit
    decreases |x|, PhaseRank(z.phase)
  {
    (f == z && seen == []) ||
    match TurnOf(z, x, limit, fin)
    case Stop(Failed2) => false
    case Stop(Paused2(g, _, _)) => f == g && seen == []
    case Go(g, rest) =>
      var c := TakenControl(z, x);
      c <= seen && Reaches(g, rest, limit, fin, f, seen[|c|..])
  }

  /** Only control bytes change the level, and a chunk keeps its control byte. */
  lemma TurnLevel(z: Lz2, x: seq<byte>, limit: nat, fin: bool)
    requires Lz2Ok(z) && |z.out| <= limit && z.phase != Control
    ensures match TurnOf(z, x, limit, fin)
            case Stop(Failed2) => true
            case Stop(Paused2(g, _, _)) => g.level == z.level && g.control == z.control && (InChunk(g.phase) ==> InChunk(z.phase))
            case Go(g, _) => g.level == z.level && g.control == z.control && (InChunk(g.phase) ==> InChunk(z.phase))
  {
    hide Lz2Ok, Blank, ChunkStart;
  }

  /** The level that the control bytes leave. */
  function LevelAfter(level: nat, controls: seq<byte>): nat
    decreases |controls|
  {
    if controls == [] then level
    else LevelAfter(if controls[0] == COPY_RESET_DIC then LEVEL_PROP else if controls[0] < 0x80 then level else 0, controls[1..])
  }

  /** A turn between chunks reads a control byte, which Accepted admits, or stops where it is. */
  lemma ControlTurn(z: Lz2, x: seq<byte>, limit: nat, fin: bool)
    requires Lz2Ok(z) && |z.out| <= limit && z.phase == Control
    ensures match TurnOf(z, x, limit, fin)
            case Stop(Failed2) => true
            case Stop(Paused2(g, _, _)) => g == z
            case Go(g, _) =>
              && x != []
              && if x[0] == 0 then !InChunk(g.phase) && g.level == z.level && g.control == 0
                 else Accepted(z.level, [x[0]]) && g.level == LevelAfter(z.level, [x[0]]) && InChunk(g.phase) && g.control == x[0]
  {
    hide Lz2Ok, Blank;
    if x != [] && x[0] != 0 {
      ControlAccepted(z, x[0]);
      assert [x[0]][1..] == [];
    }
    hide Accepted;
  }

  /** One control byte after another. */
  lemma {:induction false} AcceptedAppend(level: nat, a: seq<byte>, b: seq<byte>)
    ensures Accepted(level, a + b) <==> Accepted(level, a) && Accepted(LevelAfter(level, a), b)
    ensures LevelAfter(level, a + b) == LevelAfter(LevelAfter(level, a), b)
    decreases |a|
  {
    if a == [] {
      assert a + b == b;
    } else {
      assert (a + b)[1..] == a[1..] + b;
      AcceptedAppend(if a[0] == COPY_RESET_DIC then LEVEL_PROP else if a[0] < 0x80 then level else 0, a[1..], b);
    }
  }

  /** The last control byte read, or that of the chunk the run began in. */
  function LastControl(z: Lz2, seen: seq<byte>): byte {
    if seen == [] then z.control else seen[|seen| - 1]
  }

  /** What a run has read at a state it comes through. */
  predicate Arrived(z: Lz2, f: Lz2, seen: seq<byte>) {
    && Lz2Ok(f) && Accepted(z.level, seen) && f.level == LevelAfter(z.level, seen)
    && (InChunk(f.phase) ==> f.control == LastControl(z, seen) && (InChunk(z.phase) || seen != []))
  }

  /** The control bytes that a run reads are accepted, and the state knows the level they leave. */
  lemma {:induction false} ReachesAccepted(z: Lz2, x: seq<byte>, limit: nat, fin: bool, f: Lz2, seen: seq<byte>)
    requires Lz2Ok(z) && |z.out| <= limit && Reaches(z, x, limit, fin, f, seen)
    ensures Arrived(z, f, seen)
    decreases |x|, PhaseRank(z.phase)
  {
    hide TurnOf, Lz2Ok;
    if z.phase == Control {
      ControlTurn(z, x, limit, fin);
    } else {
      TurnLevel(z, x, limit, fin);
    }
    match TurnOf(z, x, limit, fin) {
      case Stop(_) =>
      case Go(g, rest) =>
        if !(f == z && seen == []) {
          var c := TakenControl(z, x);
          ReachesAccepted(g, rest, limit, fin, f, seen[|c|..]);
          AcceptedAppend(z.level, c, seen[|c|..]);
          assert c + seen[|c|..] == seen;
        }
    }
  }

  // ---------- The discipline ----------

  /**
   In a run of a new decoder, no state of an LZMA chunk is reached before the dictionary has been
   reset, nor without new properties since its last reset by a copy chunk.
   */
  lemma ResetDiscipline(z: Lz2, x: seq<byte>, limit: nat, fin: bool, f: Lz2, seen: seq<byte>)
    requires Lz2Ok(z) && |z.out| <= limit && z.phase == Control && z.level == LEVEL_DIC
    requires Reaches(z, x, limit, fin, f, seen) && InChunk(f.phase) && f.control >= 0x80
    ensures seen != [] && seen[|seen| - 1] == f.control
    ensures exists r :: 0 <= r < |seen| && ResetsDic(seen[r])
    ensures exists j :: 0 <= j < |seen| && seen[j] >= 0xC0 && forall k :: j < k < |seen| ==> seen[k] != COPY_RESET_DIC
  {
    hide Lz2Ok, Reaches;
    ReachesAccepted(z, x, limit, fin, f, seen);
    AcceptedResets(seen, |seen| - 1);
  }

  /** Between chunks the next control byte is refused exactly when it breaks the discipline. */
  lemma NextControl(z: Lz2, x: seq<byte>, limit: nat, fin: bool, f: Lz2, seen: seq<byte>, c: byte, y: seq<byte>)
    requires Lz2Ok(z) && |z.out| <= limit && Reaches(z, x, limit, fin, f, seen) && f.phase == Control && c != 0
    ensures Lz2Ok(f)
    ensures UpdateState(f, c).phase == Error <==> !Accepted(z.level, seen + [c])
    ensures !Accepted(z.level, seen + [c]) && |f.out| < limit ==> RunChunks(f, [c] + y, limit, fin) == Failed2
  {
    hide Lz2Ok, Reaches, RunChunks, UpdateState;
    ReachesAccepted(z, x, limit, fin, f, seen);
    AcceptedAppend(z.level, seen, [c]);
    ControlAccepted(f, c);
    if |f.out| < limit {
      RunHeader(f, [c] + y, limit, fin);
    }
  }
}
