/** Whole LZMA2 streams whose LZMA chunks are coded from packets: the oracle of Lzma2Enc, made real. */
module Lzma2Stream {
  import opened Bytes
  import opened LzmaModel
  import opened LzmaRun
  import opened Lzma2Model
  import opened Lzma2Run
  import opened Lzma2Enc
  import opened LzmaRoundTrip
  import L = LzmaPackets

  /** A new block, or a subblock: the packets chosen for it, and whether their bytes found room. */
  datatype Choice = Block | Subblock(packets: seq<L.Packet>, room: bool)

  const NO_REPS: seq<nat> := [1, 1, 1, 1]

  /** The coder of a subblock: LzmaEnc_Init is called if needInitState is set. */
  function CoderOf(p: Enc, e: L.Enc): L.Enc {
    if p.needInitState then L.Enc(0, NO_REPS, map[], e.hist) else e
  }

  function SubOf(props: Props, c: L.Enc, s: Choice): Sub
    requires s.Subblock? && L.EncFits(props, c) && L.PacketsOk(props, c.hist, c.reps, s.packets)
  {
    Sub(L.Expansion(props, c.hist, c.reps, s.packets)[|c.hist|..],
        if s.room then Packed2(L.PacketBytes(props, c, s.packets, false)) else OutputEof)
  }

  /** The coder after a subblock; a copy block restores what the coder was before. */
  function CoderAfter(props: Props, p: Enc, e: L.Enc, s: Choice): (r: L.Enc)
    requires s.Subblock? && L.EncFits(props, CoderOf(p, e)) && L.PacketsOk(props, e.hist, CoderOf(p, e).reps, s.packets)
  {
    var c := CoderOf(p, e);
    var sub := SubOf(props, c, s);
    if UsesCopy(sub) then e.(hist := e.hist + sub.data) else L.AfterPackets(props, c, s.packets)
  }

  predicate ChoicesOk(props: Props, p: Enc, e: L.Enc, choices: seq<Choice>)
    decreases |choices|
  {
    choices == [] ||
    match choices[0]
    case Block => ChoicesOk(props, Start(), e.(hist := []), choices[1..])
    case Subblock(packets, _) =>
      && L.EncFits(props, CoderOf(p, e)) && L.PacketsOk(props, e.hist, CoderOf(p, e).reps, packets)
      && var sub := SubOf(props, CoderOf(p, e), choices[0]);
      && 0 < |sub.data| <= UNPACK_MAX
      && ChoicesOk(props, AfterSub(p, sub), CoderAfter(props, p, e, choices[0]), choices[1..])
  }

  function EventsOf(props: Props, p: Enc, e: L.Enc, choices: seq<Choice>): (r: seq<Event>)
    requires ChoicesOk(props, p, e, choices)
    ensures |r| == |choices| && EventsOk(r)
    decreases |choices|
  {
    if choices == [] then []
    else
      match choices[0]
      case Block => [NewBlock] + EventsOf(props, Start(), e.(hist := []), choices[1..])
      case Subblock(_, _) =>
        var sub := SubOf(props, CoderOf(p, e), choices[0]);
        [Write(sub)] + EventsOf(props, AfterSub(p, sub), CoderAfter(props, p, e, choices[0]), choices[1..])
  }

  // ---------- Both sides together ----------

  /** The decoder between chunks knows what the encoder knows. */
  ghost predicate Tied(props: Props, p: Enc, e: L.Enc, z: Lz2) {
    && Synced(p, z) && SmallProps(props) && z.dec.props.dicSize == props.dicSize
    && (if p.srcPos == 0 then e.hist == [] else e.hist == z.dec.hist)
    && (!p.needInitState ==> z.dec.props == props && InStep(e, z.dec))
  }

  lemma ControlKinds(p: Enc, n: nat)
    requires EncOk(p) && 0 < n <= UNPACK_MAX
    ensures var c := LzmaControl(p, n);
            && (p.srcPos == 0 ==> c >= 0xE0) && (p.srcPos > 0 && p.needInitState ==> 0xA0 <= c < 0xE0)
            && (p.srcPos > 0 && !p.needInitState ==> c < 0xA0) && c != COPY_RESET_DIC
  {
    ControlBits(p, n);
  }

  /** The chunk's decoder starts with the subblock's coder. */
  lemma ChunkJoins(props: Props, p: Enc, e: L.Enc, z: Lz2, propsByte: byte, s: Sub)
    requires Tied(props, p, e, z) && SubOk(s) && !UsesCopy(s) && props == PropsOfByte(propsByte, props.dicSize)
    ensures var d := ChunkStart(LzmaHeader(z, p, propsByte, s));
            Joined(CoderOf(p, e), d) && d.props == props
  {
    var h := LzmaHeader(z, p, propsByte, s);
    ControlKinds(p, |s.data|);
    BlankOk(props, []);
    BlankOk(props, z.dec.hist);
    BlankFields(props, []);
    BlankFields(props, z.dec.hist);
    hide Blank, DecOk, SizeBytes, LzmaControl;
    if !p.needInitState {
      RestartInStep(e, z.dec);
    }
    hide InStep, Lz2Ok;
  }

  lemma RestartInStep(e: L.Enc, d: Dec)
    requires InStep(e, d) && DecOk(d) && d.hist != []
    ensures var r := d.(remain := NEED_INIT_RC); InStep(e, r) && DecOk(r)
  {
    hide Mirrors, NumProbs;
  }

  /** An LZMA chunk decodes to its data, and leaves both sides tied. */
  lemma ChunkTied(props: Props, p: Enc, e: L.Enc, z: Lz2, propsByte: byte, s: Choice)
    requires Tied(props, p, e, z) && s.Subblock? && L.EncFits(props, CoderOf(p, e)) && L.PacketsOk(props, e.hist, CoderOf(p, e).reps, s.packets)
    requires props == PropsOfByte(propsByte, props.dicSize) && PropsByteOk(propsByte)
    requires var sub := SubOf(props, CoderOf(p, e), s); SubOk(sub) && !UsesCopy(sub)
    ensures var sub := SubOf(props, CoderOf(p, e), s);
            && CodesTo(ChunkStart(LzmaHeader(z, p, propsByte, sub)), sub.coded.bytes, sub.data)
            && Tied(props, AfterSub(p, sub), CoderAfter(props, p, e, s), AfterLzma(z, p, propsByte, sub))
  {
    hide L.Expansion, L.PacketBytes, L.AfterPackets, L.PacketsOk, L.RepsFit, LzmaHeader, ChunkStart, Run, DecOk,
      Lz2Ok, InStep, LzmaControl,
      RunChunks, LzmaChunk, Joined;
    var c := CoderOf(p, e);
    var sub := SubOf(props, c, s);
    ChunkJoins(props, p, e, z, propsByte, sub);
    var d := ChunkStart(LzmaHeader(z, p, propsByte, sub));
    JoinedHist(c, d);
    var d' := PacketsEnd(c, d, s.packets);
    var whole := L.Expansion(props, c.hist, c.reps, s.packets);
    assert d.hist + whole[|d.hist|..] == whole;
    LzmaChunkRead(p, z, propsByte, sub, [], |z.out| + |sub.data|, true);
    AfterLzmaIs(p, z, propsByte, sub);
    InStepHist(L.AfterPackets(props, c, s.packets), d');
  }

  lemma JoinedHist(e: L.Enc, d: Dec)
    requires Joined(e, d)
    ensures e.hist == d.hist && DecOk(d)
  {
  }

  lemma InStepHist(e: L.Enc, d: Dec)
    requires InStep(e, d)
    ensures e.hist == d.hist
  {
  }

  // ---------- Copy chunks ----------

  /** Copy chunks leave the coder alone. */
  lemma {:induction false} CopiesKeep(z: Lz2, srcPos: nat, data: seq<byte>)
    ensures var f := AfterCopies(z, srcPos, data);
            && f.dec.props == z.dec.props && f.dec.hist == (if srcPos == 0 && data != [] then data else z.dec.hist + data)
            && (srcPos > 0 && z.level == 0 && data != [] ==> f.dec == z.dec.(remain := NEED_INIT_RC, hist := z.dec.hist + data))
    decreases |data|
  {
    hide FreshProbs, NumProbs, AfterCopies, AfterCopy, CopyHeader;
    CopiesStep(z, srcPos, data);
    if data == [] {
      assert z.dec.hist + [] == z.dec.hist;
    } else {
      var piece := CopyPiece(data);
      var f := AfterCopy(CopyHeader(z, CopyControl(srcPos), |piece|), piece);
      var rest := data[|piece|..];
      OneCopyKeeps(z, srcPos, piece);
      CopiesKeep(f, srcPos + |piece|, rest);
      CopiesStep(f, srcPos + |piece|, rest);
      assert piece + rest == data;
      assert z.dec.hist + piece + rest == z.dec.hist + data;
      assert rest == [] ==> piece == data;
    }
  }

  lemma CopiesStep(z: Lz2, srcPos: nat, data: seq<byte>)
    ensures data == [] ==> AfterCopies(z, srcPos, data) == z
    ensures data != [] ==>
              var piece := CopyPiece(data);
              var h := CopyHeader(z, CopyControl(srcPos), |piece|);
              |piece| <= h.unpack && AfterCopies(z, srcPos, data) == AfterCopies(AfterCopy(h, piece), srcPos + |piece|, data[|piece|..])
  {
    hide FreshProbs, NumProbs, AfterCopy, Blank;
  }

  lemma OneCopyKeeps(z: Lz2, srcPos: nat, piece: seq<byte>)
    requires piece != []
    ensures var h := CopyHeader(z, CopyControl(srcPos), |piece|);
            |piece| <= h.unpack &&
            var f := AfterCopy(h, piece);
            && f.dec.props == z.dec.props && f.dec.hist == (if srcPos == 0 then piece else z.dec.hist + piece)
            && (srcPos > 0 && z.level == 0 ==> f.level == 0 && f.dec == z.dec.(remain := NEED_INIT_RC, hist := z.dec.hist + piece))
  {
    hide FreshProbs, NumProbs;
    assert [] + piece == piece;
  }

  lemma CopyInStep(e: L.Enc, d: Dec, data: seq<byte>)
    requires InStep(e, d) && d.hist != []
    ensures InStep(e.(hist := e.hist + data), d.(remain := NEED_INIT_RC, hist := d.hist + data))
  {
    hide Mirrors, NumProbs;
  }

  lemma CopiesTied(props: Props, p: Enc, e: L.Enc, z: Lz2, propsByte: byte, s: Choice)
    requires Tied(props, p, e, z) && s.Subblock? && L.EncFits(props, CoderOf(p, e)) && L.PacketsOk(props, e.hist, CoderOf(p, e).reps, s.packets)
    requires PropsByteOk(propsByte)
    requires var sub := SubOf(props, CoderOf(p, e), s); SubOk(sub) && UsesCopy(sub)
    ensures var sub := SubOf(props, CoderOf(p, e), s);
            Tied(props, AfterSub(p, sub), CoderAfter(props, p, e, s), AfterCopies(z, p.srcPos, sub.data))
  {
    hide L.Expansion, L.PacketBytes, L.AfterPackets, L.PacketsOk, L.EncFits, AfterCopies, RunChunks, InStep, CopyChunks;
    var sub := SubOf(props, CoderOf(p, e), s);
    CopiesKeep(z, p.srcPos, sub.data);
    WriteRead(p, z, propsByte, sub, [], |z.out| + |sub.data|, true);
    if !p.needInitState {
      CopyInStep(e, z.dec, sub.data);
    }
    assert [] + sub.data == sub.data;
    hide Lz2Ok;
  }

  // ---------- Whole streams ----------

  /** No oracle is left: chunks coded from packets always decode to their data. */
  lemma {:induction false} ChoicesFaithful(props: Props, p: Enc, e: L.Enc, z: Lz2, propsByte: byte, choices: seq<Choice>)
    requires Tied(props, p, e, z) && props == PropsOfByte(propsByte, props.dicSize) && PropsByteOk(propsByte)
    requires ChoicesOk(props, p, e, choices)
    ensures Faithful(p, z, propsByte, EventsOf(props, p, e, choices))
    decreases |choices|
  {
    hide Tied, SubOf, CoderAfter, L.EncFits, L.PacketsOk, LzmaHeader, ChunkStart, CodesTo, AfterLzma, AfterCopies,
      PropsOfByte;
    if choices != [] {
      var rest := choices[1..];
      match choices[0]
      case Block =>
        BlockTied(props, p, e, z);
        ChoicesFaithful(props, Start(), e.(hist := []), z, propsByte, rest);
        assert EventsOf(props, p, e, choices)[1..] == EventsOf(props, Start(), e.(hist := []), rest);
      case Subblock(_, _) =>
        var sub := SubOf(props, CoderOf(p, e), choices[0]);
        var p', e' := AfterSub(p, sub), CoderAfter(props, p, e, choices[0]);
        SubIsOk(props, CoderOf(p, e), choices[0]);
        if UsesCopy(sub) {
          CopiesTied(props, p, e, z, propsByte, choices[0]);
        } else {
          ChunkTied(props, p, e, z, propsByte, choices[0]);
        }
        ChoicesFaithful(props, p', e', AfterWrite(z, p, propsByte, sub), propsByte, rest);
        assert EventsOf(props, p, e, choices)[1..] == EventsOf(props, p', e', rest);
    }
  }

  lemma SubIsOk(props: Props, c: L.Enc, s: Choice)
    requires s.Subblock? && L.EncFits(props, c) && L.PacketsOk(props, c.hist, c.reps, s.packets)
    requires 0 < |SubOf(props, c, s).data| <= UNPACK_MAX
    ensures SubOk(SubOf(props, c, s))
  {
    hide L.Expansion, L.EncFits, L.PacketsOk;
  }

  lemma BlockTied(props: Props, p: Enc, e: L.Enc, z: Lz2)
    requires Tied(props, p, e, z)
    ensures Tied(props, Start(), e.(hist := []), z)
  {
    hide InStep, Lz2Ok;
  }

  /** The data that the choices stand for. */
  function DataOf(props: Props, p: Enc, e: L.Enc, choices: seq<Choice>): seq<byte>
    requires ChoicesOk(props, p, e, choices)
  {
    StreamData(EventsOf(props, p, e, choices))
  }

  /** LzmaEnc_WriteProperties, its first byte. */
  function PropsByteOf(p: Props): byte
    requires SmallProps(p)
  {
    (p.pb * 5 + p.lp) * 9 + p.lc
  }

  /** The properties are read as they were written. */
  lemma PropsRead(p: Props)
    requires SmallProps(p)
    ensures PropsByteOk(PropsByteOf(p)) && PropsOfByte(PropsByteOf(p), p.dicSize) == p
  {
    var y := p.pb * 5 + p.lp;
    var b: int := PropsByteOf(p);
    assert b == y * 9 + p.lc;
    ByNine(b, y, p.lc);
    ByFive(y, p.pb, p.lp);
  }

  lemma ByNine(b: int, y: nat, lc: nat)
    requires b == y * 9 + lc && lc < 9
    ensures b % 9 == lc && b / 9 == y
  {
  }

  lemma ByFive(y: int, pb: nat, lp: nat)
    requires y == pb * 5 + lp && lp < 5
    ensures y % 5 == lp && y / 5 == pb
  {
  }

  /**
   Whatever packets are chosen, and whichever subblocks are sent as they are, the LZMA2 stream
   with its end mark is accepted by a new decoder and decodes to the data.
   */
  lemma StreamDecodes(props: Props, choices: seq<Choice>)
    requires SmallProps(props) && ChoicesOk(props, Start(), L.Enc(0, NO_REPS, map[], []), choices)
    ensures Lz2Ok(Initial(props.dicSize)) && Initial(props.dicSize).out == []
    ensures var events := EventsOf(props, Start(), L.Enc(0, NO_REPS, map[], []), choices);
            var r := RunChunks(Initial(props.dicSize), StreamBytes(Start(), PropsByteOf(props), events) + [0], |StreamData(events)|, true);
            r.Paused2? && r.status == FinishedWithMark && r.rest == [] && r.state.out == StreamData(events)
  {
    hide RunChunks, Faithful, StreamBytes, StreamData, EventsOf, ChoicesOk, Initial, Lz2Ok, PropsOfByte, PropsByteOf,
      PropsByteOk;
    var e := L.Enc(0, NO_REPS, map[], []);
    PropsRead(props);
    InitialOk(props.dicSize);
    InitialTied(props, e);
    ChoicesFaithful(props, Start(), e, Initial(props.dicSize), PropsByteOf(props), choices);
    EncodeDecode(props.dicSize, PropsByteOf(props), EventsOf(props, Start(), e, choices));
  }

  lemma InitialTied(props: Props, e: L.Enc)
    requires SmallProps(props) && e.hist == [] && Synced(Start(), Initial(props.dicSize))
    ensures Tied(props, Start(), e, Initial(props.dicSize))
  {
    hide Lz2Ok, FreshProbs;
  }
}
