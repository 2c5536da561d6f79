/** The LZMA2 decoder as a run over values: chunk headers around runs of the LZMA decoder. */
module Lzma2Model {
  import opened Bytes
  import opened LzmaModel
  import opened LzmaRun

  /** ELzma2State */
  datatype Phase = Control | Unpack0 | Unpack1 | Pack0 | Pack1 | PropByte | Data | DataCont | Finished | Error

  const COPY_RESET_DIC := 1
  const LCLP_MAX := 4
  const LEVEL_DIC := 0xE0
  const LEVEL_PROP := 0xC0
  const PACK_MAX := 0x1_0000
  const UNPACK_MAX := 0x20_0000

  /**
   pack and unpack count what is left of the chunk; dec is the LZMA decoder, out everything
   decoded so far, of which dec.hist is what the last dictionary reset left reachable.
   */
  datatype Lz2 = Lz2(phase: Phase, control: byte, level: nat, pack: nat, unpack: nat, dec: Dec, out: seq<byte>)

  /** A decoder whose coder is still to be set up. */
  function Blank(p: Props, hist: seq<byte>): Dec {
    Dec(p, FreshProbs(NumProbs(p)), 0, 1, 1, 1, 1, 0, 0, NEED_INIT_STATE, hist)
  }

  /** A chunk header is being read. */
  predicate Header(p: Phase) {
    p != Data && p != DataCont && p != Finished && p != Error
  }

  predicate InHeader(p: Phase) {
    Header(p) && p != Control
  }

  predicate InChunk(p: Phase) {
    InHeader(p) || p == Data || p == DataCont
  }

  /** A header or data phase of a chunk that starts by resetting the coder. */
  predicate WillReset(z: Lz2) {
    (InHeader(z.phase) || z.phase == Data) && z.control >= 0xA0
  }

  predicate SmallProps(p: Props) {
    PropsOk(p) && p.lc + p.lp <= LCLP_MAX
  }

  /** The chunk sizes, as far as the header has been read. */
  predicate SizesOk(z: Lz2) {
    match z.phase
    case Control => z.unpack == 0
    case Unpack0 => z.unpack % 0x1_0000 == 0 && z.unpack <= UNPACK_MAX - 0x1_0000 && (z.control < 0x80 ==> z.unpack == 0)
    case Unpack1 => z.unpack % 0x100 == 0 && z.unpack <= UNPACK_MAX - 0x100
    case Pack1 => z.control >= 0x80 && z.unpack > 0 && z.pack % 0x100 == 0 && z.pack <= PACK_MAX - 0x100
    case Pack0 => z.control >= 0x80 && z.unpack > 0
    case PropByte => z.control >= 0xC0 && z.unpack > 0 && z.pack > 0
    case Data => z.unpack > 0 && (z.control >= 0x80 ==> z.pack > 0)
    case DataCont => z.unpack > 0 || (z.control >= 0x80 && z.dec.hist != [])
    case _ => true
  }

  /**
   The reset discipline: after the first chunk, and unless the coming chunk resets the coder,
   level 0 means that the coder has been set up since the last dictionary reset.
   */
  predicate Lz2Ok(z: Lz2) {
    && SmallProps(z.dec.props) && DecOk(z.dec) && SizesOk(z)
    && (z.level == 0 || z.level == LEVEL_PROP || z.level == LEVEL_DIC)
    && (InChunk(z.phase) ==>
          (z.control >= 0x80 && z.level == 0) || (z.control == COPY_RESET_DIC && z.level == LEVEL_PROP) || z.control == 2)
    && (z.phase == DataCont && z.control < 0x80 ==> z.dec.remain > FINISHED)
    && (z.level == 0 && z.phase != Error && !WillReset(z) && !(z.phase == DataCont && z.control >= 0x80) ==>
          CoderOk(z.dec) && z.dec.hist != [] && z.dec.remain <= NEED_INIT_RC)
    && (z.level != 0 ==> z.dec == Blank(z.dec.props, z.dec.hist))
  }

  /** Lzma2Dec_UpdateState; the sizes are built from disjoint bits, so that | is +. */
  function UpdateState(z: Lz2, b: byte): Lz2 {
    match z.phase
    case Control =>
      var c := z.(control := b);
      if b == 0 then c.(phase := Finished)
      else if b < 0x80 then
        if b == COPY_RESET_DIC then c.(phase := Unpack0, level := LEVEL_PROP, dec := Blank(z.dec.props, z.dec.hist))
        else if b > 2 || z.level == LEVEL_DIC then c.(phase := Error)
        else c.(phase := Unpack0)
      else if b < z.level then c.(phase := Error)
      else c.(phase := Unpack0, level := 0, unpack := b % 0x20 * 0x1_0000)
    case Unpack0 => z.(phase := Unpack1, unpack := z.unpack + b * 0x100)
    case Unpack1 => z.(phase := if z.control < 0x80 then Data else Pack0, unpack := z.unpack + b + 1)
    case Pack0 => z.(phase := Pack1, pack := b * 0x100)
    case Pack1 => z.(phase := if z.control / 0x40 % 2 == 1 then PropByte else Data, pack := z.pack + b + 1)
    case PropByte =>
      if b >= 9 * 5 * 5 then z.(phase := Error)
      else
        var lc, lp, pb := b % 9, b / 9 % 5, b / 9 / 5;
        if lc + lp > LCLP_MAX then z.(phase := Error)
        else z.(phase := Data, dec := Blank(Props(lc, lp, pb, z.dec.props.dicSize), z.dec.hist))
    case _ => z.(phase := Error)
  }

  /** What LzmaDec_InitDicAndState makes of the decoder at the start of a chunk's data. */
  function ChunkStart(z: Lz2): Dec {
    var d := z.dec;
    if z.phase != Data then d
    else if z.control == COPY_RESET_DIC || z.control >= 0xE0 then Blank(d.props, [])
    else if z.control >= 0xA0 then Blank(d.props, d.hist)
    else if z.level != 0 then d
    else d.(remain := NEED_INIT_RC)
  }

  lemma BlankOk(p: Props, hist: seq<byte>)
    requires SmallProps(p)
    ensures DecOk(Blank(p, hist))
  {
    hide NumProbs;
  }

  lemma ChunkStartOk(z: Lz2)
    requires Lz2Ok(z) && (z.phase == Data || z.phase == DataCont)
    ensures DecOk(ChunkStart(z)) && ChunkStart(z).props == z.dec.props
    ensures z.control < 0x80 ==> ChunkStart(z).remain > FINISHED || z.phase == DataCont
  {
    BlankOk(z.dec.props, z.dec.hist);
    BlankOk(z.dec.props, []);
    hide NumProbs, SizesOk;
  }

  /** The state after n bytes of a copy chunk. */
  function AfterCopy(z: Lz2, s: seq<byte>): Lz2
    requires |s| <= z.unpack
  {
    var d := ChunkStart(z);
    z.(phase := if |s| == z.unpack then Control else DataCont, unpack := z.unpack - |s|,
       dec := d.(hist := d.hist + s), out := z.out + s)
  }

  lemma ControlOk(z: Lz2, b: byte)
    requires Lz2Ok(z) && z.phase == Control
    ensures Lz2Ok(UpdateState(z, b)) && UpdateState(z, b).phase != Control
  {
    hide NumProbs, CoderOk, DecOk, Blank, SmallProps;
    BlankOk(z.dec.props, z.dec.hist);
    assert Blank(z.dec.props, z.dec.hist).props == z.dec.props && Blank(z.dec.props, z.dec.hist).hist == z.dec.hist by {
      BlankFields(z.dec.props, z.dec.hist);
    }
  }

  lemma BlankFields(p: Props, hist: seq<byte>)
    ensures var d := Blank(p, hist); d.props == p && d.hist == hist && d.remain == NEED_INIT_STATE
  {
  }

  lemma PropOk(z: Lz2, b: byte)
    requires Lz2Ok(z) && z.phase == PropByte
    ensures Lz2Ok(UpdateState(z, b)) && UpdateState(z, b).phase != Control
  {
    if b < 225 && b % 9 + b / 9 % 5 <= LCLP_MAX {
      var p := Props(b % 9, b / 9 % 5, b / 9 / 5, z.dec.props.dicSize);
      BlankOk(p, z.dec.hist);
      BlankFields(p, z.dec.hist);
    }
    hide NumProbs, CoderOk, DecOk, Blank;
  }

  lemma HeaderOk(z: Lz2, b: byte)
    requires Lz2Ok(z) && Header(z.phase)
    ensures Lz2Ok(UpdateState(z, b)) && UpdateState(z, b).phase != Control
  {
    hide NumProbs, CoderOk, DecOk, Blank, SmallProps;
    if z.phase == Control {
      ControlOk(z, b);
    } else if z.phase == PropByte {
      PropOk(z, b);
    }
  }

  lemma AppendOk(d: Dec, s: seq<byte>)
    requires DecOk(d) && d.remain > FINISHED && (d.remain == NEED_INIT_RC ==> d.hist != [])
    ensures DecOk(d.(hist := d.hist + s))
    ensures CoderOk(d) && d.hist != [] ==> CoderOk(d.(hist := d.hist + s)) && d.hist + s != []
  {
    hide NumProbs;
  }

  lemma CopyOk(z: Lz2, s: seq<byte>)
    requires Lz2Ok(z) && (z.phase == Data || z.phase == DataCont) && z.control < 0x80 && |s| <= z.unpack
    ensures Lz2Ok(AfterCopy(z, s))
  {
    hide NumProbs, CoderOk, DecOk, Blank, SmallProps, FreshProbs;
    var d := ChunkStart(z);
    ChunkStartOk(z);
    BlankFields(z.dec.props, z.dec.hist);
    BlankFields(z.dec.props, []);
    BlankAppend(z.dec.props, z.dec.hist, s);
    BlankAppend(z.dec.props, [], s);
    if z.level == 0 {
      RestartOk(z.dec);
    }
    AppendOk(d, s);
  }

  lemma RestartOk(d: Dec)
    requires CoderOk(d) && d.hist != []
    ensures CoderOk(d.(remain := NEED_INIT_RC))
  {
  }

  lemma BlankAppend(p: Props, hist: seq<byte>, s: seq<byte>)
    ensures Blank(p, hist).(hist := hist + s) == Blank(p, hist + s)
  {
  }

  // ---------- The data of an LZMA chunk ----------

  /** The input of the chunk that is there. */
  function Packed(z: Lz2, x: seq<byte>): (s: seq<byte>)
    ensures s <= x
  {
    if |x| <= z.pack then x else x[..z.pack]
  }

  /** How many bytes the chunk may produce now. */
  function Share(z: Lz2, limit: nat): nat
    requires |z.out| <= limit
  {
    if limit - |z.out| < z.unpack then limit - |z.out| else z.unpack
  }

  /** The rest of the chunk fits: then it must end as the whole of an LZMA stream without mark. */
  predicate Fits(z: Lz2, limit: nat) {
    |z.out| + z.unpack <= limit
  }

  function ChunkLimit(z: Lz2, limit: nat): nat
    requires |z.out| <= limit
  {
    |ChunkStart(z).hist| + Share(z, limit)
  }

  function ChunkRun(z: Lz2, x: seq<byte>, limit: nat): Outcome
    requires Lz2Ok(z) && (z.phase == Data || z.phase == DataCont) && |z.out| <= limit
  {
    ChunkStartOk(z);
    Run(ChunkStart(z), Packed(z, x), ChunkLimit(z, limit), Fits(z, limit))
  }

  /** e and rest are what a run leaves of the chunk's decoder and of its input s. */
  predicate Leaves(z: Lz2, s: seq<byte>, e: Dec, rest: seq<byte>) {
    && DecOk(e) && Extends(ChunkStart(z), e) && |e.hist| <= |ChunkStart(z).hist| + z.unpack
    && |rest| <= |s| <= z.pack
  }

  function AfterRun(z: Lz2, s: seq<byte>, e: Dec, rest: seq<byte>): Lz2
    requires Leaves(z, s, e, rest)
  {
    var h := ChunkStart(z).hist;
    z.(phase := DataCont, dec := e, out := z.out + e.hist[|h|..],
       pack := z.pack - (|s| - |rest|), unpack := z.unpack - (|e.hist| - |h|))
  }

  lemma ChunkRunLeaves(z: Lz2, x: seq<byte>, limit: nat)
    requires Lz2Ok(z) && (z.phase == Data || z.phase == DataCont) && |z.out| <= limit
    requires ChunkRun(z, x, limit).Paused?
    ensures var r := ChunkRun(z, x, limit); Leaves(z, Packed(z, x), r.dec, r.rest)
    ensures var r := ChunkRun(z, x, limit); |AfterRun(z, Packed(z, x), r.dec, r.rest).out| <= limit
  {
    hide Run, DecOk, Lz2Ok;
    ChunkStartOk(z);
    RunExtends(ChunkStart(z), Packed(z, x), ChunkLimit(z, limit), Fits(z, limit));
    assert DecOk(ChunkRun(z, x, limit).dec);
  }

  lemma AfterRunOk(z: Lz2, s: seq<byte>, e: Dec, rest: seq<byte>)
    requires Lz2Ok(z) && (z.phase == Data || z.phase == DataCont) && z.control >= 0x80 && Leaves(z, s, e, rest)
    ensures Lz2Ok(AfterRun(z, s, e, rest))
    ensures var f := AfterRun(z, s, e, rest); f.unpack == 0 && e.remain == 0 ==> Lz2Ok(f.(phase := Control))
  {
    hide DecOk, Blank, SmallProps, NumProbs;
    ChunkStartOk(z);
    if e.remain == 0 {
      ReadyIsCoded(e);
    }
    hide CoderOk;
  }

  lemma ReadyIsCoded(e: Dec)
    requires DecOk(e) && e.remain == 0
    ensures CoderOk(e)
  {
  }

  // ---------- The run ----------

  datatype Outcome2 = Failed2 | Paused2(state: Lz2, rest: seq<byte>, status: Status)

  function PhaseRank(p: Phase): nat {
    if p == DataCont then 1 else if p == Data then 2 else 0
  }

  /** How many bytes of a copy chunk are there and fit. */
  function CopyShare(z: Lz2, x: seq<byte>, limit: nat): (n: nat)
    requires |z.out| <= limit
    ensures n <= |x| && n <= Share(z, limit)
  {
    if |x| < Share(z, limit) then |x| else Share(z, limit)
  }

  /** Where the data of an LZMA chunk leads to, when it did not end in an error. */
  datatype ChunkEnd = Bad | Wait(status: Status) | NextChunk

  function EndOf(z: Lz2, x: seq<byte>, f: Lz2, limit: nat, fin: bool): ChunkEnd
    requires |z.out| <= limit
  {
    var st := StatusOf(f.dec, ChunkLimit(z, limit), Fits(z, limit));
    if st == NeedsMoreInput then
      if |x| >= z.pack then Bad else Wait(NeedsMoreInput)
    else if |f.out| >= limit && !fin then Wait(NotFinished)
    else if st == MaybeFinishedWithoutMark && f.unpack == 0 && f.pack == 0 then NextChunk
    else Bad
  }

  /** The rest of x after its chunk's part, of which rest is unread. */
  function Unread(z: Lz2, x: seq<byte>, rest: seq<byte>): (r: seq<byte>)
    requires |rest| <= |Packed(z, x)|
    ensures |r| <= |x|
  {
    x[|Packed(z, x)| - |rest|..]
  }

  /** One pass of the loop of Lzma2Dec_DecodeToDic: the run stops, or goes on. */
  datatype Turn = Stop(outcome: Outcome2) | Go(state: Lz2, rest: seq<byte>)

  predicate TurnOk(z: Lz2, x: seq<byte>, limit: nat, t: Turn) {
    match t
    case Stop(Failed2) => true
    case Stop(Paused2(f, rest, _)) => Lz2Ok(f) && |f.out| <= limit && |rest| <= |x|
    case Go(f, rest) =>
      && Lz2Ok(f) && |f.out| <= limit
      && (|rest| < |x| || (|rest| == |x| && PhaseRank(f.phase) < PhaseRank(z.phase)))
  }

  function HeaderTurn(z: Lz2, x: seq<byte>, limit: nat): (t: Turn)
    requires Lz2Ok(z) && |z.out| <= limit && Header(z.phase)
    ensures TurnOk(z, x, limit, t)
  {
    hide Lz2Ok;
    if x == [] then Stop(Paused2(z, x, NeedsMoreInput))
    else
      var next := UpdateState(z, x[0]);
      if next.phase == Error || (|z.out| >= limit && next.phase != Finished) then Stop(Failed2)
      else
        HeaderOk(z, x[0]);
        Go(next, x[1..])
  }

  function CopyTurn(z: Lz2, x: seq<byte>, limit: nat): (t: Turn)
    requires Lz2Ok(z) && |z.out| <= limit && (z.phase == Data || z.phase == DataCont) && z.control < 0x80
    ensures TurnOk(z, x, limit, t)
  {
    hide Lz2Ok, ChunkStart;
    if x == [] then Stop(Paused2(z, x, NeedsMoreInput))
    else
      var n := CopyShare(z, x, limit);
      if n == 0 then Stop(Failed2)
      else
        CopyOk(z, x[..n]);
        Go(AfterCopy(z, x[..n]), x[n..])
  }

  function LzmaTurn(z: Lz2, x: seq<byte>, limit: nat, fin: bool): (t: Turn)
    requires Lz2Ok(z) && |z.out| <= limit && (z.phase == Data || z.phase == DataCont) && z.control >= 0x80
    ensures TurnOk(z, x, limit, t)
  {
    hide Lz2Ok, AfterRun, ChunkRun, ChunkStart, Leaves;
    var r := ChunkRun(z, x, limit);
    if r.Failed? then Stop(Failed2)
    else
      ChunkRunLeaves(z, x, limit);
      AfterRunOk(z, Packed(z, x), r.dec, r.rest);
      AfterRunFields(z, Packed(z, x), r.dec, r.rest);
      var f := AfterRun(z, Packed(z, x), r.dec, r.rest);
      match EndOf(z, x, f, limit, fin)
      case Bad => Stop(Failed2)
      case Wait(status) => Stop(Paused2(f, Unread(z, x, r.rest), status))
      case NextChunk => Go(f.(phase := Control), Unread(z, x, r.rest))
  }

  lemma AfterRunFields(z: Lz2, s: seq<byte>, e: Dec, rest: seq<byte>)
    requires Leaves(z, s, e, rest)
    ensures |rest| <= |s| <= z.pack && |ChunkStart(z).hist| <= |e.hist| <= |ChunkStart(z).hist| + z.unpack
    ensures var f := AfterRun(z, s, e, rest);
            && f.phase == DataCont && f.dec == e && f.control == z.control && f.level == z.level
            && f.pack == z.pack - (|s| - |rest|) && f.unpack == z.unpack - (|e.hist| - |ChunkStart(z).hist|)
            && |f.out| == |z.out| + (|e.hist| - |ChunkStart(z).hist|)
  {
    hide ChunkStart, DecOk;
  }

  function TurnOf(z: Lz2, x: seq<byte>, limit: nat, fin: bool): (t: Turn)
    requires Lz2Ok(z) && |z.out| <= limit
    ensures TurnOk(z, x, limit, t)
  {
    hide Lz2Ok, HeaderTurn, CopyTurn, LzmaTurn;
    if z.phase == Error then Stop(Failed2)
    else if z.phase == Finished then Stop(Paused2(z, x, FinishedWithMark))
    else if |z.out| >= limit && !fin then Stop(Paused2(z, x, NotFinished))
    else if Header(z.phase) then HeaderTurn(z, x, limit)
    else if z.control < 0x80 then CopyTurn(z, x, limit)
    else LzmaTurn(z, x, limit, fin)
  }

  /**
   Lzma2Dec_DecodeToDic on values: reads chunks of the unread input x until limit bytes have
   been produced, the input runs out, or the end mark is read.  fin is LZMA_FINISH_END.
   */
  function RunChunks(z: Lz2, x: seq<byte>, limit: nat, fin: bool): (r: Outcome2)
    requires Lz2Ok(z) && |z.out| <= limit
    ensures r.Paused2? ==> Lz2Ok(r.state) && |r.state.out| <= limit
    decreases |x|, PhaseRank(z.phase)
  {
    hide Lz2Ok, TurnOf;
    match TurnOf(z, x, limit, fin)
    case Stop(o) => o
    case Go(f, rest) => RunChunks(f, rest, limit, fin)
  }
}
