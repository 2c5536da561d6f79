/** CLzma2Dec: the LZMA2 decoder, updated in place around an LZMA decoder. */
module Lzma2Dec {
  import opened Arithmetic
  import opened Bytes
  import opened LzmaSymbol
  import opened LzmaSymbolFacts
  import opened LzmaModel
  import opened LzmaRun
  import opened LzmaDec
  import opened Lzma2Model
  import opened Lzma2Run

  /** The decoder's state, without what a pending reset will overwrite. */
  function Norm(d: Dec): Dec {
    if d.remain == NEED_INIT_STATE then Blank(d.props, d.hist) else d
  }

  function NormOutcome(r: Outcome): Outcome {
    match r
    case Failed => Failed
    case Paused(e, rest) => Paused(Norm(e), rest)
  }

  lemma NormOk(d: Dec)
    requires PropsOk(d.props) && |d.probs| == NumProbs(d.props)
    ensures DecOk(Norm(d)) <==> DecOk(d)
    ensures Norm(d).remain == d.remain && Norm(d).hist == d.hist && Norm(d).props == d.props
    ensures d.remain < NEED_INIT_STATE ==> Norm(d) == d
  {
    hide NumProbs;
  }

  /** What a pending reset will overwrite does not matter. */
  lemma NormRun(d: Dec, x: seq<byte>, limit: nat, fin: bool)
    requires DecOk(d)
    ensures DecOk(Norm(d)) && Run(Norm(d), x, limit, fin) == NormOutcome(Run(d, x, limit, fin))
  {
    hide DecOk, Run, Started, NumProbs;
    assert PropsOk(d.props) && |d.probs| == NumProbs(d.props) by { DecSizes(d); }
    NormOk(d);
    if Run(d, x, limit, fin).Paused? {
      RunStaysNormal(d, x, limit, fin);
    }
    if d.remain == NEED_INIT_STATE {
      RunStarts(d, x, limit, fin);
      RunStarts(Norm(d), x, limit, fin);
      if |x| >= RC_INIT_SIZE && x[0] == 0 {
        SameStart(d, x);
      }
    }
  }

  lemma DecSizes(d: Dec)
    requires DecOk(d)
    ensures PropsOk(d.props) && |d.probs| == NumProbs(d.props)
  {
  }

  lemma SameStart(d: Dec, x: seq<byte>)
    requires |d.probs| == NumProbs(d.props) && d.remain == NEED_INIT_STATE && |x| >= RC_INIT_SIZE
    ensures Started(Norm(d), x) == Started(d, x)
  {
    hide NumProbs;
  }

  /** A run that starts ends with its coder set up. */
  lemma RunStaysNormal(d: Dec, x: seq<byte>, limit: nat, fin: bool)
    requires DecOk(d) && Run(d, x, limit, fin).Paused?
    ensures var e := Run(d, x, limit, fin).dec; if d.remain <= FINISHED || |x| >= RC_INIT_SIZE then e.remain <= FINISHED else e == d
  {
    hide DecOk, Run, Started;
    RunExtends(d, x, limit, fin);
    if d.remain > FINISHED {
      RunStarts(d, x, limit, fin);
      if |x| >= RC_INIT_SIZE && x[0] == 0 {
        RunExtends(Started(d, x), x[RC_INIT_SIZE..], limit, fin);
      }
    }
  }

  /** LzmaProps_GetNumProbs for lc + lp == 4: what Lzma2Dec_AllocateProbs allocates. */
  const PROBS_MAX := 14272

  lemma SmallProbs(p: Props)
    requires SmallProps(p)
    ensures NumProbs(p) <= PROBS_MAX
  {
    Pow2Grows(p.lc + p.lp, 4);
    assert Pow2(1) == 2 && Pow2(2) == 4 && Pow2(3) == 8 && Pow2(4) == 16;
    hide Pow2;
  }

  class Lzma2Decoder {
    const decoder: Decoder
    var state: Phase
    var control: byte
    var needInitLevel: nat
    var packSize: nat
    var unpackSize: nat
    ghost var dec: Dec
    ghost var out: seq<byte>

    /** The bytes taken from the input and not yet decoded. */
    ghost function Carried(): seq<byte>
      requires decoder.tempBufSize <= decoder.tempBuf.Length
      reads decoder`tempBufSize, decoder.tempBuf
    {
      decoder.tempBuf[..decoder.tempBufSize]
    }

    ghost function Model(): Lz2
      reads this, decoder`tempBufSize
    {
      Lz2(state, control, needInitLevel, packSize + decoder.tempBufSize, unpackSize, dec, out)
    }

    /** The decoder has the history and the properties that dec has. */
    ghost predicate Linked()
      reads this`dec, decoder, decoder.dic
    {
      && decoder.Valid() && PROBS_MAX <= decoder.probs.Length && decoder.tempBuf.Length == REQUIRED_INPUT_MAX
      && dec.props == decoder.prop && dec.hist == decoder.hist
    }

    /** The coder is what dec says it is. */
    ghost predicate CoderLive()
      reads this, decoder`tempBufSize
    {
      needInitLevel == 0 && !WillReset(Model())
    }

    ghost predicate InLzma()
      reads this`state, this`control
    {
      state == DataCont && control >= 0x80
    }

    ghost predicate Valid()
      reads this, decoder, decoder.probs, decoder.dic, decoder.tempBuf
    {
      && Linked() && decoder.tempBufSize < REQUIRED_INPUT_MAX && Lz2Ok(Model())
      && (CoderLive() ==> Norm(decoder.Abs()) == dec)
      && (if InLzma() then decoder.Carry() && (decoder.tempBufSize > 0 && unpackSize == 0 ==> !(dec.remain == 0 && dec.code == 0))
          else decoder.tempBufSize == 0)
    }

    /** Lzma2Dec_Allocate, whose properties stand for the largest tables, and Lzma2Dec_Init */
    constructor (dicSize: nat)
      requires 0x1000 <= dicSize < WORD
      ensures Valid() && fresh(decoder) && fresh(decoder.probs) && fresh(decoder.dic) && fresh(decoder.tempBuf)
      ensures Model() == Lz2(Control, 0, LEVEL_DIC, 0, 0, Blank(Props(LCLP_MAX, 0, 0, dicSize), []), [])
    {
      state, control, needInitLevel, packSize, unpackSize := Control, 0, LEVEL_DIC, 0, 0;
      var d := new Decoder(Props(LCLP_MAX, 0, 0, dicSize));
      decoder := d;
      dec := Blank(Props(LCLP_MAX, 0, 0, dicSize), []);
      out := [];
      new;
      BlankOk(decoder.prop, []);
      assert Pow2(1) == 2 && Pow2(2) == 4 && Pow2(3) == 8 && Pow2(4) == 16;
    }

    /** Lzma2Dec_UpdateState */
    method UpdateState(b: byte)
      requires Valid() && Header(state)
      modifies this`state, this`control, this`needInitLevel, this`packSize, this`unpackSize, this`dec, decoder`prop
      ensures state == Error <==> Lzma2Model.UpdateState(old(Model()), b).phase == Error
      ensures state != Error ==> Valid() && Model() == Lzma2Model.UpdateState(old(Model()), b)
    {
      hide *;
      HeaderPhases();
      if state == Control {
        UpdateControl(b);
      } else if state == PropByte {
        UpdateProps(b);
      } else {
        UpdateSizes(b);
      }
    }

    lemma HeaderPhases()
      requires Header(state)
      ensures state == Control || state == PropByte || state == Unpack0 || state == Unpack1 || state == Pack0 || state == Pack1
    {
    }

    /** The bytes of the two sizes. */
    method UpdateSizes(b: byte)
      requires Valid() && (state == Unpack0 || state == Unpack1 || state == Pack0 || state == Pack1)
      modifies this`state, this`packSize, this`unpackSize
      ensures state == Error <==> Lzma2Model.UpdateState(old(Model()), b).phase == Error
      ensures state != Error ==> Valid() && Model() == Lzma2Model.UpdateState(old(Model()), b)
    {
      hide Lz2Ok, Norm, Blank, DictOk, Linked, Valid;
      Parts();
      HeaderOk(Model(), b);
      if state == Unpack0 {
        unpackSize := unpackSize + b * 0x100;
        state := Unpack1;
      } else if state == Unpack1 {
        unpackSize := unpackSize + b;
        unpackSize := unpackSize + 1;
        state := if control < 0x80 then Data else Pack0;
      } else if state == Pack0 {
        packSize := b * 0x100;
        state := Pack1;
      } else {
        packSize := packSize + b;
        packSize := packSize + 1;
        state := if control / 0x40 % 2 == 1 then PropByte else Data;
      }
      Whole();
    }

    /** Valid, taken apart for the phases between the data of LZMA chunks. */
    lemma Parts()
      requires Valid()
      ensures Linked() && Lz2Ok(Model()) && decoder.tempBufSize < REQUIRED_INPUT_MAX && decoder.Shape()
      ensures CoderLive() ==> Norm(decoder.Abs()) == dec
      ensures !InLzma() ==> decoder.tempBufSize == 0
    {
      hide Lz2Ok, Norm, DictOk;
    }

    lemma Whole()
      requires Linked() && Lz2Ok(Model()) && decoder.tempBufSize == 0 && !InLzma()
      requires CoderLive() ==> decoder.Shape() && Norm(decoder.Abs()) == dec
      ensures Valid()
    {
      hide Lz2Ok, Norm, DictOk;
    }

    /** LZMA2_STATE_CONTROL */
    method UpdateControl(b: byte)
      requires Valid() && state == Control
      modifies this`state, this`control, this`needInitLevel, this`unpackSize, this`dec
      ensures state == Error <==> Lzma2Model.UpdateState(old(Model()), b).phase == Error
      ensures state != Error ==> Valid() && Model() == Lzma2Model.UpdateState(old(Model()), b)
    {
      HeaderOk(Model(), b);
      BlankFields(dec.props, dec.hist);
      hide Lz2Ok, Norm, Blank, DictOk;
      control := b;
      if b == 0 {
        state := Finished;
      } else if b < 0x80 {
        if b == COPY_RESET_DIC {
          needInitLevel := LEVEL_PROP;
          dec := Blank(dec.props, dec.hist);
        } else if b > 2 || needInitLevel == LEVEL_DIC {
          state := Error;
          return;
        }
        state := Unpack0;
      } else if b < needInitLevel {
        state := Error;
      } else {
        needInitLevel := 0;
        unpackSize := b % 0x20 * 0x1_0000;
        state := Unpack0;
      }
    }

    /** LZMA2_STATE_PROP */
    method UpdateProps(b: byte)
      requires Valid() && state == PropByte
      modifies this`state, this`dec, decoder`prop
      ensures state == Error <==> Lzma2Model.UpdateState(old(Model()), b).phase == Error
      ensures state != Error ==> Valid() && Model() == Lzma2Model.UpdateState(old(Model()), b)
    {
      HeaderOk(Model(), b);
      hide DecOk, CoderOk, NumProbs, Blank, FreshProbs, DictOk;
      if b >= 9 * 5 * 5 {
        state := Error;
        return;
      }
      var lc := b % 9;
      var b1 := b / 9;
      var pb := b1 / 5;
      decoder.prop := decoder.prop.(pb := pb);
      var lp := b1 % 5;
      if lc + lp > LCLP_MAX {
        state := Error;
        return;
      }
      decoder.prop := decoder.prop.(lc := lc);
      decoder.prop := decoder.prop.(lp := lp);
      dec := Blank(decoder.prop, dec.hist);
      BlankFields(decoder.prop, decoder.hist);
      SmallProbs(decoder.prop);
      state := Data;
    }

    /** LzmaDec_InitDicAndState, as called at the start of a chunk's data. */
    method StartChunk(initDic: bool, initState: bool)
      requires Valid() && state == Data
      requires initDic <==> (control == COPY_RESET_DIC || control >= 0xE0)
      requires initState <==> control >= 0xA0
      modifies this`state, this`dec, decoder`remainLen, decoder`tempBufSize, decoder`processedPos, decoder`checkDicSize,
               decoder`hist
      ensures Linked() && decoder.tempBufSize == 0 && state == DataCont && dec == ChunkStart(old(Model()))
      ensures needInitLevel == 0 ==> Norm(decoder.Abs()) == dec
    {
      Starts(decoder.Abs());
      hide Lz2Ok, DictOk, Blank, FreshProbs, NumProbs;
      BlankFields(dec.props, dec.hist);
      BlankFields(dec.props, []);
      decoder.InitDicAndState(initDic, initState);
      dec := ChunkStart(Model());
      state := DataCont;
    }

    lemma Starts(d: Dec)
      requires Valid() && state == Data && d == decoder.Abs()
      ensures Linked() && d.props == dec.props && d.hist == dec.hist && decoder.tempBufSize == 0
      ensures needInitLevel == 0 && control < 0xA0 ==> d == dec && dec.remain <= NEED_INIT_RC && control != COPY_RESET_DIC
      ensures control == COPY_RESET_DIC ==> needInitLevel != 0
    {
      hide NumProbs, DictOk, CoderOk, DecOk;
    }

    /** Before the bytes of a copy chunk. */
    method StartCopying()
      requires Valid() && (state == Data || state == DataCont) && control < 0x80
      modifies this`state, this`dec, decoder`remainLen, decoder`tempBufSize, decoder`processedPos, decoder`checkDicSize,
               decoder`hist
      ensures Linked() && decoder.Shape() && decoder.tempBufSize == 0 && state == DataCont && dec == ChunkStart(old(Model()))
      ensures needInitLevel == 0 ==> Norm(decoder.Abs()) == dec && dec.remain == NEED_INIT_RC
    {
      hide Valid, Lz2Ok, Norm, Blank, DictOk, ChunkStart, NumProbs;
      Parts();
      CopyStarts();
      if state == Data {
        StartChunk(control == COPY_RESET_DIC, false);
      } else {
        ChunkStartCont(Model());
      }
    }

    /** The bytes s of a copy chunk. */
    method CopyData(s: seq<byte>)
      requires Valid() && (state == Data || state == DataCont) && control < 0x80
      requires s != [] && |s| <= unpackSize && decoder.dicPos + |s| <= decoder.dic.Length
      modifies this`state, this`unpackSize, this`dec, this`out, decoder`remainLen, decoder`tempBufSize,
               decoder`processedPos, decoder`checkDicSize, decoder`hist, decoder`dicPos, decoder.dic
      ensures Valid() && Model() == AfterCopy(old(Model()), s) && decoder.dicPos == old(decoder.dicPos) + |s|
    {
      hide Valid, Lz2Ok, Norm, Blank, DictOk, ChunkStart, NumProbs, Lzma2Decoder.Linked, Lzma2Decoder.Valid;
      Parts();
      CopyOk(Model(), s);
      StartCopying();
      AppendBytes(s);
      out := out + s;
      unpackSize := unpackSize - |s|;
      state := if unpackSize == 0 then Control else DataCont;
      Whole();
    }

    method AppendBytes(s: seq<byte>)
      requires Linked() && decoder.dicPos + |s| <= decoder.dic.Length
      requires needInitLevel == 0 ==> Norm(decoder.Abs()) == dec && dec.remain == NEED_INIT_RC
      modifies this`dec, decoder`processedPos, decoder`checkDicSize, decoder`hist, decoder`dicPos, decoder.dic
      ensures Linked() && decoder.Shape() && dec == old(dec).(hist := old(dec).hist + s)
      ensures decoder.dicPos == old(decoder.dicPos) + |s|
      ensures needInitLevel == 0 ==> Norm(decoder.Abs()) == dec
    {
      hide Norm, Blank, DictOk, NumProbs;
      ghost var d := decoder.Abs();
      NormAppend(d, s);
      decoder.UpdateWithUncompressed(s);
      assert decoder.Abs() == d.(hist := d.hist + s);
      dec := dec.(hist := dec.hist + s);
    }

    /** The decoder is in the middle of an LZMA chunk's data. */
    ghost predicate Decoding()
      reads this`dec, this`unpackSize, decoder, decoder.probs, decoder.dic, decoder.tempBuf
    {
      && Linked() && decoder.tempBufSize < REQUIRED_INPUT_MAX && DecOk(dec) && Norm(decoder.Abs()) == dec && decoder.Carry()
      && (decoder.tempBufSize > 0 && unpackSize == 0 ==> !(dec.remain == 0 && dec.code == 0))
    }

    /** Before the data of an LZMA chunk. */
    method StartLzma()
      requires Valid() && (state == Data || state == DataCont) && control >= 0x80
      modifies this`state, this`dec, decoder`remainLen, decoder`tempBufSize, decoder`processedPos, decoder`checkDicSize,
               decoder`hist
      ensures Decoding() && state == DataCont && dec == ChunkStart(old(Model())) && Carried() == old(Carried())
      ensures decoder.tempBufSize == old(decoder.tempBufSize)
    {
      ChunkStartOk(Model());
      LzmaStarts();
      hide Valid, Lz2Ok, Norm, Blank, DictOk, ChunkStart, NumProbs, DecOk, Linked;
      if state == Data {
        StartChunk(control >= 0xE0, control >= 0xA0);
        StartedParts();
      } else {
        ChunkStartCont(Model());
      }
    }

    lemma LzmaStarts()
      requires Valid() && (state == Data || state == DataCont) && control >= 0x80
      ensures needInitLevel == 0 && decoder.tempBufSize < REQUIRED_INPUT_MAX && decoder.Shape()
      ensures state == Data ==> decoder.tempBufSize == 0
      ensures state == DataCont ==> Decoding()
    {
      hide DictOk, CoderOk, NumProbs, NextSymbol;
    }

    lemma StartedParts()
      requires Linked() && decoder.tempBufSize == 0 && Norm(decoder.Abs()) == dec && DecOk(dec)
      ensures Decoding()
    {
      NormOk(decoder.Abs());
      hide DictOk, CoderOk, NumProbs, NextSymbol;
    }

    /** The decoder's own run, as the run of dec. */
    lemma DecodingRuns(x: seq<byte>, limit: nat, fin: bool)
      requires Decoding()
      ensures decoder.Valid() && DecOk(decoder.Abs()) && decoder.Carry() && DecOk(dec)
      ensures dec.hist == decoder.hist && dec.props == decoder.prop && PROBS_MAX <= decoder.probs.Length
      ensures decoder.tempBufSize < REQUIRED_INPUT_MAX && dec == Norm(decoder.Abs())
      ensures decoder.tempBufSize > 0 && unpackSize == 0 ==> !(dec.remain == 0 && dec.code == 0)
      ensures Run(dec, x, limit, fin) == NormOutcome(Run(decoder.Abs(), x, limit, fin))
    {
      NormOk(decoder.Abs());
      hide DictOk, CoderOk, NumProbs, NextSymbol, Run, Norm;
      NormRun(decoder.Abs(), x, limit, fin);
    }

    lemma StillDecoding()
      requires decoder.Valid() && decoder.prop == dec.props && PROBS_MAX <= decoder.probs.Length
      requires decoder.tempBufSize < REQUIRED_INPUT_MAX && DecOk(decoder.Abs()) && decoder.Carry()
      requires dec == Norm(decoder.Abs())
      requires decoder.tempBufSize > 0 && unpackSize == 0 ==> !(dec.remain == 0 && dec.code == 0)
      ensures Decoding() && dec.hist == decoder.hist
    {
      NormOk(decoder.Abs());
      hide DictOk, CoderOk, NumProbs, NextSymbol, Norm;
    }

    /** LzmaDec_DecodeToDic on the part s of the chunk's input that is there. */
    method DecodeChunk(s: seq<byte>, outCur: nat, curFin: bool) returns (res: SRes, used: nat, status: Status)
      requires Decoding() && |s| <= packSize && outCur <= unpackSize && (curFin <==> outCur == unpackSize)
      requires decoder.dicPos + outCur <= decoder.dic.Length
      modifies this`dec, this`out, this`packSize, this`unpackSize,
               decoder`rep0, decoder`rep1, decoder`rep2, decoder`rep3, decoder`state, decoder`dicPos, decoder`processedPos,
               decoder`checkDicSize, decoder`remainLen, decoder`hist, decoder`range, decoder`code, decoder`buf,
               decoder`tempBufSize, decoder.probs, decoder.dic, decoder.tempBuf
      ensures used <= |s| && packSize == old(packSize) - used
      ensures old(decoder.dicPos) <= decoder.dicPos <= old(decoder.dicPos) + outCur
      ensures unpackSize == old(unpackSize) - (decoder.dicPos - old(decoder.dicPos))
      ensures res != ErrorFail
      ensures res == ErrorData ==> Run(old(dec), old(Carried()) + s, |old(dec).hist| + outCur, curFin) == Failed
      ensures res == Ok ==>
                && Decoding()
                && Run(old(dec), old(Carried()) + s, |old(dec).hist| + outCur, curFin) == Paused(dec, Carried() + s[used..])
                && |dec.hist| - |old(dec).hist| == decoder.dicPos - old(decoder.dicPos)
                && old(dec).hist <= dec.hist && out == old(out) + dec.hist[|old(dec).hist|..]
                && status == StatusOf(dec, |old(dec).hist| + outCur, curFin)
                && (status == NeedsMoreInput ==> used == |s|)
                && (status != NeedsMoreInput ==>
                      decoder.tempBufSize == 0 || (used == 0 && dec == old(dec)))
    {
      hide Run, Norm, DecOk, Decoding, Linked, StatusOf, Decoder.Valid, Decoder.Carry, Decoder.Kept, Decoder.Abs;
      DecodingSizes();
      ghost var d, x, limit := dec, Carried() + s, |dec.hist| + outCur;
      DecodingRuns(x, limit, curFin);
      var dicPos := decoder.dicPos;
      ghost var h := decoder.hist;
      res, used, status := decoder.DecodeToDic(dicPos + outCur, s, curFin);
      decoder.KeptParts(h, dicPos, dicPos + outCur);
      packSize := packSize - used;
      unpackSize := unpackSize - (decoder.dicPos - dicPos);
      if res == Ok {
        decoder.ValidParts();
        CarrySmall();
        dec := Norm(decoder.Abs());
        out := out + decoder.hist[|h|..];
        NormFields(decoder.Abs(), limit, curFin);
        StatusMeans(dec, limit, curFin);
        assert status == StatusOf(dec, limit, curFin);
        assert unpackSize == 0 ==> |dec.hist| >= limit;
        assert decoder.tempBufSize > 0 && status != NeedsMoreInput ==> dec == d && unpackSize == old(unpackSize);
        StillDecoding();
      }
    }

    lemma DecodingSizes()
      requires Decoding()
      ensures decoder.tempBufSize < REQUIRED_INPUT_MAX == decoder.tempBuf.Length
    {
    }

    lemma CarrySmall()
      requires decoder.Shape() && decoder.Carry()
      ensures decoder.tempBufSize < REQUIRED_INPUT_MAX && decoder.Abs().hist == decoder.hist
      ensures decoder.Abs().props == decoder.prop
    {
    }

    /** Valid, put together inside the data of an LZMA chunk. */
    lemma InLzmaWhole()
      requires Decoding() && InLzma() && Lz2Ok(Model())
      ensures Valid()
    {
      hide Lz2Ok, Norm, DictOk, DecOk;
    }

    /** A pass of the loop over the data of an LZMA chunk. */
    method LzmaData(src: seq<byte>, pos: nat, dicLimit: nat, ghost limit: nat)
      returns (res: SRes, used: nat, made: nat, status: Status)
      requires Valid() && (state == Data || state == DataCont) && control >= 0x80 && pos <= |src|
      requires decoder.dicPos <= dicLimit <= decoder.dic.Length && limit == |out| + (dicLimit - decoder.dicPos)
      modifies this`state, this`dec, this`out, this`packSize, this`unpackSize,
               decoder`rep0, decoder`rep1, decoder`rep2, decoder`rep3, decoder`state, decoder`dicPos, decoder`processedPos,
               decoder`checkDicSize, decoder`remainLen, decoder`hist, decoder`range, decoder`code, decoder`buf,
               decoder`tempBufSize, decoder.probs, decoder.dic, decoder.tempBuf
      ensures pos + used <= |src| && made == decoder.dicPos - old(decoder.dicPos)
      ensures old(decoder.dicPos) <= decoder.dicPos <= dicLimit && res != ErrorFail
      ensures var z, x := old(Model()), old(Carried()) + src[pos..];
              && (res == ErrorData ==> ChunkRun(z, x, limit).Failed?)
              && (res == Ok ==>
                    && ChunkRun(z, x, limit).Paused? && Valid() && Model() == MidChunk(z, x, limit)
                    && Carried() + src[pos + used..] == MidUnread(z, x, limit)
                    && limit == |out| + (dicLimit - decoder.dicPos)
                    && status == StatusOf(dec, ChunkLimit(z, limit), Fits(z, limit))
                    && (status == NeedsMoreInput ==> (packSize == 0 <==> |x| >= z.pack))
                    && (status != NeedsMoreInput ==> decoder.tempBufSize == 0 || (used == 0 && dec == ChunkStart(z)))
                    && state == DataCont && (decoder.tempBufSize > 0 && unpackSize == 0 ==> !(dec.remain == 0 && dec.code == 0)))
    {
      hide Valid, Lz2Ok, ChunkRun, MidChunk, MidUnread, ChunkStart, Decoding, AfterRun, Run, DecOk, Packed, Unread, Leaves,
        IsSuffix;
      LzmaModelOk();
      ghost var z, x, h := Model(), Carried() + src[pos..], ChunkStart(Model()).hist;
      ChunkStartOk(z);
      var dicPos := decoder.dicPos;
      var inCur := |src| - pos;
      var outCur := dicLimit - dicPos;
      var curFin := false;
      if outCur >= unpackSize {
        outCur := unpackSize;
        curFin := true;
      }
      StartLzma();
      if inCur > packSize {
        inCur := packSize;
      }
      ghost var carried := Carried();
      ChunkInput(z, carried, src, pos, inCur);
      assert outCur == Share(z, limit) && curFin == Fits(z, limit);
      ChunkRunValue(z, x, limit);
      res, used, status := DecodeChunk(src[pos..pos + inCur], outCur, curFin);
      made := decoder.dicPos - dicPos;
      if res == Ok {
        DecodingSizes();
        Landed(z, x, limit, carried, Carried(), src, pos, inCur, used, Model());
        DecodingCode();
        InLzmaWhole();
      }
    }

    lemma LzmaModelOk()
      requires Valid()
      ensures Lz2Ok(Model()) && decoder.tempBufSize <= decoder.tempBuf.Length
    {
      hide Lz2Ok, Norm, DictOk;
    }

    lemma DecodingCode()
      requires Decoding()
      ensures decoder.tempBufSize > 0 && unpackSize == 0 ==> !(dec.remain == 0 && dec.code == 0)
    {
      hide Lz2Ok, Norm, DictOk, DecOk;
    }

    /** The end of a pass without progress: the next chunk, or an error. */
    method FinishChunk(status: Status, ghost z: Lz2, ghost limit: nat) returns (ok: bool)
      requires Valid() && InLzma() && |z.out| <= limit
      requires status == StatusOf(dec, ChunkLimit(z, limit), Fits(z, limit)) && status != NeedsMoreInput
      requires decoder.tempBufSize > 0 && unpackSize == 0 ==> !(dec.remain == 0 && dec.code == 0)
      requires status == MaybeFinishedWithoutMark && Model().unpack == 0 && Model().pack == 0 ==>
                 Lz2Ok(Model().(phase := Control))
      modifies this`state
      ensures ok <==> status == MaybeFinishedWithoutMark && old(Model()).unpack == 0 && old(Model()).pack == 0
      ensures ok ==> Valid() && Model() == old(Model()).(phase := Control) && state == Control && decoder.tempBufSize == 0
    {
      hide Valid, Lz2Ok, Norm, Linked;
      MaybeMeans(dec, ChunkLimit(z, limit), Fits(z, limit));
      FinishParts();
      if status != MaybeFinishedWithoutMark || unpackSize != 0 || packSize != 0 {
        return false;
      }
      state := Control;
      Whole();
      return true;
    }

    lemma FinishParts()
      requires Valid() && InLzma()
      ensures Linked() && decoder.Shape() && Norm(decoder.Abs()) == dec
    {
      hide DictOk, Norm, DecOk, CoderOk;
    }

    /** What every pass of the loop keeps: how far the run has come with src from srcLen on. */
    ghost predicate Reached(src: seq<byte>, srcLen: nat, dicLimit: nat, limit: nat, fin: bool, goal: Outcome2)
      reads this, decoder, decoder.probs, decoder.dic, decoder.tempBuf
    {
      && Valid() && srcLen <= |src| && decoder.dicPos <= dicLimit <= decoder.dic.Length
      && limit == |out| + (dicLimit - decoder.dicPos)
      && RunChunks(Model(), Carried() + src[srcLen..], limit, fin) == goal
    }

    lemma ReachedParts(src: seq<byte>, srcLen: nat, dicLimit: nat, limit: nat, fin: bool, goal: Outcome2)
      requires Reached(src, srcLen, dicLimit, limit, fin, goal)
      ensures Valid() && srcLen <= |src| && decoder.dicPos <= dicLimit <= decoder.dic.Length
      ensures limit == |out| + (dicLimit - decoder.dicPos)
      ensures Lz2Ok(Model()) && decoder.tempBufSize <= decoder.tempBuf.Length && |Model().out| <= limit
      ensures RunChunks(Model(), Carried() + src[srcLen..], limit, fin) == goal
    {
      ModelOk();
      hide Valid, RunChunks;
    }

    /** One byte of a chunk header. */
    method HeaderPass(src: seq<byte>, pos: nat, dicLimit: nat, fin: bool, ghost limit: nat, ghost goal: Outcome2)
      returns (ok: bool)
      requires Reached(src, pos, dicLimit, limit, fin, goal) && pos < |src| && (decoder.dicPos < dicLimit || fin)
      requires state != Data && state != DataCont && state != Finished && state != Error
      modifies this`state, this`control, this`needInitLevel, this`packSize, this`unpackSize, this`dec, decoder`prop
      ensures ok ==> Reached(src, pos + 1, dicLimit, limit, fin, goal) && state != Error
      ensures !ok ==> goal == Failed2
    {
      hide Valid, RunChunks, Lz2Ok, Carried, Model, Lzma2Model.UpdateState;
      ModelOk();
      ghost var z, x := Model(), src[pos..];
      assert Carried() + src[pos..] == x;
      RunHeader(z, x, limit, fin);
      var dicPos := decoder.dicPos;
      UpdateState(src[pos]);
      if state == Error || (dicPos == dicLimit && state != Finished) {
        if state != Error {
          ModelOk();
        }
        return false;
      }
      ModelOk();
      assert [] + src[pos + 1..] == x[1..];
      return true;
    }

    /** The bytes of a copy chunk that are there and fit. */
    method CopyPass(src: seq<byte>, pos: nat, dicLimit: nat, fin: bool, ghost limit: nat, ghost goal: Outcome2)
      returns (ok: bool, next: nat)
      requires Reached(src, pos, dicLimit, limit, fin, goal) && pos < |src| && (decoder.dicPos < dicLimit || fin)
      requires (state == Data || state == DataCont) && control < 0x80
      modifies this`state, this`unpackSize, this`dec, this`out, decoder`remainLen, decoder`tempBufSize,
               decoder`processedPos, decoder`checkDicSize, decoder`hist, decoder`dicPos, decoder.dic
      ensures ok ==> Reached(src, next, dicLimit, limit, fin, goal) && pos < next && old(decoder.dicPos) <= decoder.dicPos
      ensures ok ==> state != Error
      ensures !ok ==> goal == Failed2 && decoder.dicPos == old(decoder.dicPos) && next == pos
    {
      hide Valid, RunChunks, Lz2Ok, Carried, Model, AfterCopy;
      ModelOk();
      ghost var z, x := Model(), src[pos..];
      assert Carried() + src[pos..] == x;
      RunIdles(z, x, limit, fin);
      CopyShareIs(z, x, limit);
      CopyUnpack();
      var inCur, outCur := |src| - pos, dicLimit - decoder.dicPos;
      if outCur >= unpackSize {
        outCur := unpackSize;
      }
      if inCur > outCur {
        inCur := outCur;
      }
      next := pos;
      if inCur == 0 {
        return false, pos;
      }
      CopyRuns(z, x, limit, fin);
      assert x[..inCur] == src[pos..pos + inCur];
      CopyFields(z, x[..inCur]);
      CopyData(src[pos..pos + inCur]);
      ModelOk();
      assert [] + src[pos + inCur..] == x[inCur..];
      return true, pos + inCur;
    }

    lemma CopyUnpack()
      requires Valid() && (state == Data || state == DataCont) && control < 0x80
      ensures unpackSize > 0
    {
      hide DecOk, CoderOk, DictOk;
    }

    /** Lzma2Dec_DecodeToDic: the outcome is that of the run over the carried bytes and src. */
    method DecodeToDic(dicLimit: nat, src: seq<byte>, fin: bool) returns (res: SRes, srcLen: nat, status: Status)
      requires Valid() && decoder.dicPos <= dicLimit <= decoder.dic.Length
      modifies this`state, this`control, this`needInitLevel, this`packSize, this`unpackSize, this`dec, this`out,
               decoder, decoder.probs, decoder.dic, decoder.tempBuf
      ensures res != ErrorFail && srcLen <= |src| && old(decoder.dicPos) <= decoder.dicPos <= dicLimit
      ensures var z, x, limit := old(Model()), old(Carried()) + src, old(|out| + (dicLimit - decoder.dicPos));
              && (res == ErrorData ==> RunChunks(z, x, limit, fin) == Failed2 && state == Error)
              && (res == Ok ==>
                    && Valid() && RunChunks(z, x, limit, fin) == Paused2(Model(), Carried() + src[srcLen..], status)
                    && limit == |out| + (dicLimit - decoder.dicPos))
    {
      hide *;
      ModelOk();
      ghost var limit := |out| + (dicLimit - decoder.dicPos);
      ghost var goal := RunChunks(Model(), Carried() + src, limit, fin);
      srcLen, status := 0, NotSpecified;
      res := ErrorData;
      assert src[0..] == src;
      MakeReached(src, 0, dicLimit, limit, fin, goal);
      RunIdles(Model(), Carried() + src, limit, fin);
      while state != Error
        invariant state == Error ==> goal == Failed2
        invariant Reached(src, srcLen, dicLimit, limit, fin, goal) && srcLen <= |src| && res == ErrorData
        invariant old(decoder.dicPos) <= decoder.dicPos <= dicLimit
        decreases |src| - srcLen + (dicLimit - decoder.dicPos), PhaseRank(state)
      {
        ReachedParts(src, srcLen, dicLimit, limit, fin, goal);
        ModelOk();
        RunIdles(Model(), Carried() + src[srcLen..], limit, fin);
        if state == Finished {
          return Ok, srcLen, FinishedWithMark;
        }
        if decoder.dicPos == dicLimit && !fin {
          return Ok, srcLen, NotFinished;
        }
        if state != Data && state != DataCont {
          if srcLen == |src| {
            return Ok, srcLen, NeedsMoreInput;
          }
          srcLen := srcLen + 1;
          var ok := HeaderPass(src, srcLen - 1, dicLimit, fin, limit, goal);
          if !ok {
            break;
          }
        } else if control < 0x80 {
          if srcLen == |src| {
            return Ok, srcLen, NeedsMoreInput;
          }
          var ok;
          ok, srcLen := CopyPass(src, srcLen, dicLimit, fin, limit, goal);
          if !ok {
            break;
          }
          ReachedParts(src, srcLen, dicLimit, limit, fin, goal);
        } else {
          var pass;
          pass, srcLen := LzmaPass(src, srcLen, dicLimit, fin, limit, goal);
          if pass == Broken {
            break;
          }
          if pass == Starving {
            return Ok, srcLen, NeedsMoreInput;
          }
          ReachedParts(src, srcLen, dicLimit, limit, fin, goal);
        }
      }
      status := NotSpecified;
      state := Error;
    }

    lemma MakeReached(src: seq<byte>, srcLen: nat, dicLimit: nat, limit: nat, fin: bool, goal: Outcome2)
      requires Valid() && srcLen <= |src| && decoder.dicPos <= dicLimit <= decoder.dic.Length
      requires limit == |out| + (dicLimit - decoder.dicPos) && |out| <= limit
      requires decoder.tempBufSize <= decoder.tempBuf.Length && Lz2Ok(Model()) && Model().out == out
      requires RunChunks(Model(), Carried() + src[srcLen..], limit, fin) == goal
      ensures Reached(src, srcLen, dicLimit, limit, fin, goal)
    {
      hide Valid, RunChunks;
    }

    /** A pass over the data of an LZMA chunk. */
    method LzmaPass(src: seq<byte>, pos: nat, dicLimit: nat, fin: bool, ghost limit: nat, ghost goal: Outcome2)
      returns (pass: Feed, next: nat)
      requires Reached(src, pos, dicLimit, limit, fin, goal) && (decoder.dicPos < dicLimit || fin)
      requires (state == Data || state == DataCont) && control >= 0x80
      modifies this`state, this`dec, this`out, this`packSize, this`unpackSize,
               decoder`rep0, decoder`rep1, decoder`rep2, decoder`rep3, decoder`state, decoder`dicPos, decoder`processedPos,
               decoder`checkDicSize, decoder`remainLen, decoder`hist, decoder`range, decoder`code, decoder`buf,
               decoder`tempBufSize, decoder.probs, decoder.dic, decoder.tempBuf
      ensures next <= |src| && old(decoder.dicPos) <= decoder.dicPos <= dicLimit && pass != InternalError
      ensures pass == Broken ==> goal == Failed2
      ensures pass == Starving ==>
                Valid() && limit == |out| + (dicLimit - decoder.dicPos) && decoder.tempBufSize <= decoder.tempBuf.Length &&
                goal == Paused2(Model(), Carried() + src[next..], NeedsMoreInput)
      ensures pass == Advanced ==>
                Reached(src, next, dicLimit, limit, fin, goal) && pos <= next && (state == Control || state == DataCont) &&
                (next == pos && decoder.dicPos == old(decoder.dicPos) ==> state == Control)
    {
      hide *;
      ReachedParts(src, pos, dicLimit, limit, fin, goal);
      ModelOk();
      ghost var z, x := Model(), Carried() + src[pos..];
      RunLzma(z, x, limit, fin);
      var res, used, made, status;
      res, used, made, status := LzmaData(src, pos, dicLimit, limit);
      next := pos + used;
      if res != Ok {
        return Broken, next;
      }
      ModelOk();
      if status == NeedsMoreInput {
        if packSize == 0 {
          return Broken, next;
        }
        return Starving, next;
      }
      if used == 0 && made == 0 {
        var ok := FinishChunk(status, z, limit);
        if !ok {
          return Broken, next;
        }
        ModelOk();
      }
      MakeReached(src, next, dicLimit, limit, fin, goal);
      return Advanced, next;
    }

    lemma ModelOk()
      requires Valid()
      ensures Lz2Ok(Model()) && decoder.tempBufSize <= decoder.tempBuf.Length && Model().out == out && Model().phase == state
      ensures Model().dec == dec
      ensures Model().control == control && (Header(state) <==> state != Data && state != DataCont && state != Finished && state != Error)
      ensures !(state == DataCont && control >= 0x80) ==> decoder.tempBufSize == 0 && Carried() == []
      ensures Model().unpack == unpackSize && (state == DataCont && control >= 0x80 <==> InLzma())
      ensures InData(Model()) <==> state == Data || state == DataCont
      ensures PhaseRank(Control) < PhaseRank(DataCont) < PhaseRank(Data)
    {
      hide Lz2Ok, Norm, DictOk;
    }

    /** In a copy chunk a coder that is set up waits for its range coder to be initialized. */
    lemma CopyStarts()
      requires Valid() && (state == Data || state == DataCont) && control < 0x80
      ensures decoder.tempBufSize == 0 && (CoderLive() <==> needInitLevel == 0)
      ensures needInitLevel == 0 && state == DataCont ==> dec.remain == NEED_INIT_RC
      ensures needInitLevel == 0 && state == Data ==> ChunkStart(Model()).remain == NEED_INIT_RC
    {
      hide NumProbs, DictOk, CoderOk, DecOk;
    }
  }

  lemma ChunkInput(z: Lz2, carried: seq<byte>, src: seq<byte>, pos: nat, inCur: nat)
    requires pos <= |src| && |carried| <= z.pack
    requires inCur == if |src| - pos > z.pack - |carried| then z.pack - |carried| else |src| - pos
    ensures Packed(z, carried + src[pos..]) == carried + src[pos..pos + inCur]
  {
  }

  lemma ChunkRest(z: Lz2, x: seq<byte>, packed: seq<byte>, rest: seq<byte>, carried: seq<byte>, src: seq<byte>,
                  pos: nat, inCur: nat, used: nat)
    requires pos + inCur <= |src| && used <= inCur && packed == Packed(z, x) && IsSuffix(rest, packed)
    requires x == packed + src[pos + inCur..] && rest == carried + src[pos..pos + inCur][used..]
    ensures Unread(z, x, rest) == carried + src[pos + used..]
  {
    assert x[|packed| - |rest|..] == rest + src[pos + inCur..];
    assert src[pos..pos + inCur][used..] + src[pos + inCur..] == src[pos + used..];
  }

  /** The model's state after a pass over a chunk's data, from what the decoder's call left. */
  lemma Landed(z: Lz2, x: seq<byte>, limit: nat, carried: seq<byte>, left: seq<byte>, src: seq<byte>, pos: nat, inCur: nat,
               used: nat, m: Lz2)
    requires Lz2Ok(z) && InData(z) && z.control >= 0x80 && |z.out| <= limit
    requires pos + inCur <= |src| && used <= inCur && x == carried + src[pos..]
    requires Packed(z, x) == carried + src[pos..pos + inCur] && |carried| <= z.pack
    requires ChunkRun(z, x, limit) == Paused(m.dec, left + src[pos..pos + inCur][used..])
    requires m.phase == DataCont && m.control == z.control && m.level == z.level
    requires m.pack + |carried| + used == z.pack + |left|
    requires ChunkStart(z).hist <= m.dec.hist && m.unpack + |m.dec.hist| == z.unpack + |ChunkStart(z).hist|
    requires m.out == z.out + m.dec.hist[|ChunkStart(z).hist|..]
    ensures m == MidChunk(z, x, limit) && Lz2Ok(m) && left + src[pos + used..] == MidUnread(z, x, limit)
    ensures |m.out| - |z.out| == |m.dec.hist| - |ChunkStart(z).hist|
  {
    hide Lz2Ok, ChunkRun, MidChunk, MidUnread, ChunkStart, AfterRun, Run, DecOk, Packed, Unread, Leaves, IsSuffix;
    var rest := left + src[pos..pos + inCur][used..];
    ChunkRunEnds(z, x, limit);
    AfterRunIs(z, Packed(z, x), m.dec, rest);
    assert x == Packed(z, x) + src[pos + inCur..];
    ChunkRest(z, x, Packed(z, x), rest, left, src, pos, inCur, used);
    MidIs(z, x, limit);
  }

  lemma NormFields(d: Dec, limit: nat, fin: bool)
    ensures var e := Norm(d);
            e.hist == d.hist && e.props == d.props && e.remain == d.remain && StatusOf(e, limit, fin) == StatusOf(d, limit, fin)
  {
  }

  lemma CopyShareIs(z: Lz2, x: seq<byte>, limit: nat)
    requires |z.out| <= limit
    ensures var room := if limit - |z.out| >= z.unpack then z.unpack else limit - |z.out|;
            CopyShare(z, x, limit) == if |x| > room then room else |x|
  {
  }

  lemma MaybeMeans(d: Dec, limit: nat, fin: bool)
    ensures StatusOf(d, limit, fin) == MaybeFinishedWithoutMark ==> d.remain == 0 && d.code == 0
  {
  }

  lemma StatusMeans(d: Dec, limit: nat, fin: bool)
    ensures |d.hist| >= limit && StatusOf(d, limit, fin) == NeedsMoreInput ==> !(d.remain == 0 && d.code == 0)
  {
  }

  lemma NormAppend(d: Dec, s: seq<byte>)
    ensures Norm(d).remain == NEED_INIT_RC ==> Norm(d.(hist := d.hist + s)) == Norm(d).(hist := Norm(d).hist + s)
  {
  }
}
