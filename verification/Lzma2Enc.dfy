/** The chunk writer of Lzma2Enc.c, with the LZMA coder as an oracle, against the LZMA2 decoder. */
module Lzma2Enc {
  import opened Bytes
  import opened LzmaModel
  import opened LzmaRun
  import opened Lzma2Model
  import opened Lzma2Run

  const COPY_NO_RESET := 2
  const COPY_CHUNK_SIZE := 0x1_0000

  /** What LzmaEnc_CodeOneMemBlock made of a block: packed bytes, no room for them, or another error. */
  datatype Coded = Packed2(bytes: seq<byte>) | OutputEof | CoderError(code: int)

  /** CLzma2EncInt, without the coder. */
  datatype Enc = Enc(srcPos: nat, needInitState: bool, needInitProp: bool)

  datatype Sub = Sub(data: seq<byte>, coded: Coded)

  predicate SubOk(s: Sub) {
    0 < |s.data| <= UNPACK_MAX && !s.coded.CoderError? && (s.coded.Packed2? ==> s.coded.bytes != [])
  }

  /** useCopyBlock */
  predicate UsesCopy(s: Sub) {
    s.coded.OutputEof? || (s.coded.Packed2? && (|s.coded.bytes| + 2 >= |s.data| || |s.coded.bytes| > PACK_MAX))
  }

  // ---------- What is written ----------

  function SizeBytes(n: nat): (r: seq<byte>)
    requires 0 < n
    ensures |r| == 2
  {
    [(n - 1) / 0x100 % 0x100, (n - 1) % 0x100]
  }

  function CopyPiece(data: seq<byte>): seq<byte> {
    if |data| < COPY_CHUNK_SIZE then data else data[..COPY_CHUNK_SIZE]
  }

  function CopyControl(srcPos: nat): byte {
    if srcPos == 0 then COPY_RESET_DIC else COPY_NO_RESET
  }

  /** data as copy chunks. */
  function CopyChunks(srcPos: nat, data: seq<byte>): seq<byte>
    decreases |data|
  {
    if data == [] then []
    else
      var piece := CopyPiece(data);
      [CopyControl(srcPos)] + SizeBytes(|piece|) + piece + CopyChunks(srcPos + |piece|, data[|piece|..])
  }

  function Mode(p: Enc): (m: nat)
    ensures m < 4
  {
    if p.srcPos == 0 then 3 else if p.needInitState then if p.needInitProp then 2 else 1 else 0
  }

  function LzmaControl(p: Enc, n: nat): byte
    requires 0 < n
  {
    0x80 + Mode(p) * 0x20 + (n - 1) / 0x1_0000 % 0x20
  }

  function HeaderOf(p: Enc, propsByte: byte, s: Sub): seq<byte>
    requires SubOk(s) && s.coded.Packed2?
  {
    [LzmaControl(p, |s.data|)] + SizeBytes(|s.data|) + SizeBytes(|s.coded.bytes|) + (if p.needInitProp then [propsByte] else [])
  }

  function LzmaChunk(p: Enc, propsByte: byte, s: Sub): seq<byte>
    requires SubOk(s) && s.coded.Packed2?
  {
    HeaderOf(p, propsByte, s) + s.coded.bytes
  }

  function SubBytes(p: Enc, propsByte: byte, s: Sub): seq<byte>
    requires SubOk(s)
  {
    if UsesCopy(s) then CopyChunks(p.srcPos, s.data) else LzmaChunk(p, propsByte, s)
  }

  function AfterSub(p: Enc, s: Sub): Enc {
    if UsesCopy(s) then p.(srcPos := p.srcPos + |s.data|)
    else Enc(p.srcPos + |s.data|, false, false)
  }

  /** Both flags are set and cleared together, and are set at the start of a block. */
  predicate EncOk(p: Enc) {
    p.needInitState == p.needInitProp && (p.srcPos == 0 ==> p.needInitProp)
  }

  // ---------- One copy chunk ----------

  /** The decoder after the header of a copy chunk of n bytes. */
  function CopyHeader(z: Lz2, control: byte, n: nat): Lz2 {
    if control == COPY_RESET_DIC then
      z.(phase := Data, control := control, unpack := n, level := LEVEL_PROP, dec := Blank(z.dec.props, z.dec.hist))
    else z.(phase := Data, control := control, unpack := n)
  }

  lemma SizeRead(n: nat, high: nat)
    requires 0 < n
    ensures var a: int, b: int := SizeBytes(n)[0], SizeBytes(n)[1];
            (n - 1) / 0x1_0000 == high ==> high * 0x1_0000 + a * 0x100 + b + 1 == n
  {
  }

  /** One header byte as a step of the run. */
  lemma HeaderByte(z: Lz2, b: byte, y: seq<byte>, limit: nat, fin: bool)
    requires Lz2Ok(z) && Header(z.phase) && |z.out| < limit
    requires UpdateState(z, b).phase != Error
    ensures Lz2Ok(UpdateState(z, b)) && UpdateState(z, b).out == z.out
    ensures RunChunks(z, [b] + y, limit, fin) == RunChunks(UpdateState(z, b), y, limit, fin)
  {
    assert ([b] + y)[1..] == y;
    hide Lz2Ok, RunChunks, UpdateState;
    RunHeader(z, [b] + y, limit, fin);
  }

  /** All of s is read as header bytes. */
  predicate HeaderBytes(z: Lz2, s: seq<byte>)
    decreases |s|
  {
    s == [] || (Header(z.phase) && UpdateState(z, s[0]).phase != Error && HeaderBytes(UpdateState(z, s[0]), s[1..]))
  }

  function Fed(z: Lz2, s: seq<byte>): Lz2
    decreases |s|
  {
    if s == [] then z else Fed(UpdateState(z, s[0]), s[1..])
  }

  lemma {:induction false} HeaderRead(z: Lz2, s: seq<byte>, y: seq<byte>, limit: nat, fin: bool)
    requires Lz2Ok(z) && |z.out| < limit && HeaderBytes(z, s)
    ensures Lz2Ok(Fed(z, s)) && Fed(z, s).out == z.out
    ensures RunChunks(z, s + y, limit, fin) == RunChunks(Fed(z, s), y, limit, fin)
    decreases |s|
  {
    hide Lz2Ok, RunChunks, UpdateState;
    if s == [] {
      assert s + y == y;
    } else {
      assert s + y == [s[0]] + (s[1..] + y);
      HeaderByte(z, s[0], s[1..] + y, limit, fin);
      HeaderRead(UpdateState(z, s[0]), s[1..], y, limit, fin);
    }
  }

  lemma {:induction false} FedTwice(z: Lz2, s: seq<byte>, t: seq<byte>)
    ensures Fed(z, s + t) == Fed(Fed(z, s), t)
    ensures HeaderBytes(z, s) && HeaderBytes(Fed(z, s), t) ==> HeaderBytes(z, s + t)
    decreases |s|
  {
    if s == [] {
      assert s + t == t;
    } else {
      assert (s + t)[1..] == s[1..] + t;
      hide UpdateState;
      FedTwice(UpdateState(z, s[0]), s[1..], t);
    }
  }

  lemma FedOne(z: Lz2, b: byte)
    ensures Fed(z, [b]) == UpdateState(z, b)
    ensures Header(z.phase) && UpdateState(z, b).phase != Error ==> HeaderBytes(z, [b])
  {
    assert [b][1..] == [];
    hide UpdateState;
  }

  lemma FedPair(z: Lz2, s: seq<byte>)
    requires |s| == 2
    ensures Fed(z, s) == UpdateState(UpdateState(z, s[0]), s[1])
    ensures Header(z.phase) && Header(UpdateState(z, s[0]).phase) && Fed(z, s).phase != Error ==> HeaderBytes(z, s)
  {
    assert s == [s[0]] + [s[1]];
    FedTwice(z, [s[0]], [s[1]]);
    FedOne(z, s[0]);
    FedOne(UpdateState(z, s[0]), s[1]);
    hide UpdateState, Fed, HeaderBytes;
  }

  lemma UnpackFed(z: Lz2, n: nat)
    requires z.phase == Unpack0 && 0 < n && z.unpack == (n - 1) / 0x1_0000 * 0x1_0000
    ensures HeaderBytes(z, SizeBytes(n)) &&
            Fed(z, SizeBytes(n)) == z.(phase := if z.control < 0x80 then Data else Pack0, unpack := n)
  {
    FedPair(z, SizeBytes(n));
    SizeRead(n, (n - 1) / 0x1_0000);
    hide Fed, HeaderBytes;
  }

  lemma PackFed(z: Lz2, n: nat)
    requires z.phase == Pack0 && 0 < n <= PACK_MAX
    ensures HeaderBytes(z, SizeBytes(n)) &&
            Fed(z, SizeBytes(n)) == z.(phase := if z.control / 0x40 % 2 == 1 then PropByte else Data, pack := n)
  {
    FedPair(z, SizeBytes(n));
    SizeRead(n, 0);
    hide Fed, HeaderBytes;
  }

  lemma CopyHeaderFed(z: Lz2, control: byte, n: nat)
    requires z.phase == Control && z.unpack == 0 && 0 < n <= COPY_CHUNK_SIZE
    requires control == COPY_RESET_DIC || (control == COPY_NO_RESET && z.level != LEVEL_DIC)
    ensures var s := [control] + SizeBytes(n); HeaderBytes(z, s) && Fed(z, s) == CopyHeader(z, control, n)
  {
    FedOne(z, control);
    UnpackFed(UpdateState(z, control), n);
    FedTwice(z, [control], SizeBytes(n));
    hide Fed, HeaderBytes, SizeBytes, Blank;
  }

  lemma CopyHeaderRead(z: Lz2, control: byte, n: nat, y: seq<byte>, limit: nat, fin: bool)
    requires Lz2Ok(z) && z.phase == Control && |z.out| < limit && 0 < n <= COPY_CHUNK_SIZE
    requires control == COPY_RESET_DIC || (control == COPY_NO_RESET && z.level != LEVEL_DIC)
    ensures Lz2Ok(CopyHeader(z, control, n))
    ensures RunChunks(z, [control] + SizeBytes(n) + y, limit, fin) == RunChunks(CopyHeader(z, control, n), y, limit, fin)
  {
    assert z.unpack == 0;
    hide Lz2Ok, RunChunks, Fed, HeaderBytes, CopyHeader;
    CopyHeaderFed(z, control, n);
    HeaderRead(z, [control] + SizeBytes(n), y, limit, fin);
  }

  /** A copy chunk puts its bytes out, whatever follows it. */
  lemma CopyChunkRead(z: Lz2, control: byte, piece: seq<byte>, y: seq<byte>, limit: nat, fin: bool)
    requires Lz2Ok(z) && z.phase == Control && 0 < |piece| <= COPY_CHUNK_SIZE && |z.out| + |piece| <= limit
    requires control == COPY_RESET_DIC || (control == COPY_NO_RESET && z.level != LEVEL_DIC)
    ensures var h := CopyHeader(z, control, |piece|);
            var f := AfterCopy(h, piece);
            && Lz2Ok(f) && f.phase == Control && f.out == z.out + piece && f.level == h.level
            && RunChunks(z, [control] + SizeBytes(|piece|) + piece + y, limit, fin) == RunChunks(f, y, limit, fin)
  {
    var h := CopyHeader(z, control, |piece|);
    assert h.unpack == |piece| && h.out == z.out && InData(h) && h.control < 0x80;
    hide Lz2Ok, RunChunks, CopyHeader;
    CopyHeaderRead(z, control, |piece|, piece + y, limit, fin);
    assert [control] + SizeBytes(|piece|) + piece + y == [control] + SizeBytes(|piece|) + (piece + y);
    assert (piece + y)[..|piece|] == piece && (piece + y)[|piece|..] == y;
    assert CopyShare(h, piece + y, limit) == |piece|;
    CopyRuns(h, piece + y, limit, fin);
  }

  /** The decoder after data sent as copy chunks. */
  function AfterCopies(z: Lz2, srcPos: nat, data: seq<byte>): Lz2
    decreases |data|
  {
    if data == [] then z
    else
      var piece := CopyPiece(data);
      var h := CopyHeader(z, CopyControl(srcPos), |piece|);
      if |piece| <= h.unpack then AfterCopies(AfterCopy(h, piece), srcPos + |piece|, data[|piece|..]) else z
  }

  lemma CopyChunksSteps(z: Lz2, srcPos: nat, data: seq<byte>, y: seq<byte>)
    ensures data == [] ==> CopyChunks(srcPos, data) == [] && AfterCopies(z, srcPos, data) == z
    ensures data != [] ==>
              var piece := CopyPiece(data);
              var h := CopyHeader(z, CopyControl(srcPos), |piece|);
              && 0 < |piece| <= COPY_CHUNK_SIZE && piece + data[|piece|..] == data
              && h.unpack == |piece| && h.level == (if srcPos == 0 then LEVEL_PROP else z.level)
              && AfterCopies(z, srcPos, data) == AfterCopies(AfterCopy(h, piece), srcPos + |piece|, data[|piece|..])
              && CopyChunks(srcPos, data) + y ==
                 [CopyControl(srcPos)] + SizeBytes(|piece|) + piece + (CopyChunks(srcPos + |piece|, data[|piece|..]) + y)
  {
    hide AfterCopy, Blank;
  }

  /** Data sent as copy chunks decodes to itself, however long it is; no oracle is involved. */
  lemma {:induction false} CopiesRead(z: Lz2, srcPos: nat, data: seq<byte>, y: seq<byte>, limit: nat, fin: bool)
    requires Lz2Ok(z) && z.phase == Control && |z.out| + |data| <= limit
    requires srcPos > 0 ==> z.level != LEVEL_DIC
    ensures var f := AfterCopies(z, srcPos, data);
            && Lz2Ok(f) && f.phase == Control && f.out == z.out + data
            && f.level == (if srcPos == 0 && data != [] then LEVEL_PROP else z.level)
            && RunChunks(z, CopyChunks(srcPos, data) + y, limit, fin) == RunChunks(f, y, limit, fin)
    decreases |data|
  {
    hide Lz2Ok, RunChunks, AfterCopies, AfterCopy, CopyChunks, CopyHeader;
    CopyChunksSteps(z, srcPos, data, y);
    if data == [] {
      assert [] + y == y && z.out + [] == z.out;
    } else {
      var piece := CopyPiece(data);
      var h := CopyHeader(z, CopyControl(srcPos), |piece|);
      var rest := data[|piece|..];
      var f := AfterCopy(h, piece);
      CopyChunkRead(z, CopyControl(srcPos), piece, CopyChunks(srcPos + |piece|, rest) + y, limit, fin);
      CopiesRead(f, srcPos + |piece|, rest, y, limit, fin);
      assert z.out + piece + rest == z.out + data;
    }
  }

  // ---------- One LZMA chunk ----------

  predicate PropsByteOk(b: byte) {
    b < 9 * 5 * 5 && b % 9 + b / 9 % 5 <= LCLP_MAX
  }

  function PropsOfByte(b: byte, dicSize: nat): Props {
    Props(b % 9, b / 9 % 5, b / 9 / 5, dicSize)
  }

  /** The decoder after the header of an LZMA chunk. */
  function LzmaHeader(z: Lz2, p: Enc, propsByte: byte, s: Sub): Lz2
    requires SubOk(s) && s.coded.Packed2?
  {
    var h := z.(phase := Data, control := LzmaControl(p, |s.data|), level := 0, unpack := |s.data|, pack := |s.coded.bytes|);
    if p.needInitProp then h.(dec := Blank(PropsOfByte(propsByte, z.dec.props.dicSize), z.dec.hist)) else h
  }

  /** What the chunks written so far leave the decoder ready for. */
  predicate Synced(p: Enc, z: Lz2) {
    && EncOk(p) && Lz2Ok(z) && z.phase == Control
    && (p.srcPos > 0 ==> z.level != LEVEL_DIC) && (!p.needInitProp ==> z.level == 0)
  }

  lemma ControlBits(p: Enc, n: nat)
    requires EncOk(p) && 0 < n <= UNPACK_MAX
    ensures var c := LzmaControl(p, n);
            && c % 0x20 == (n - 1) / 0x1_0000 && (c / 0x40 % 2 == 1 <==> p.needInitProp)
            && (p.srcPos == 0 ==> c >= 0xE0) && (p.needInitProp ==> c >= 0xC0) && (!p.needInitProp ==> c < 0xA0) && c >= 0x80
  {
  }

  lemma LzmaSizesFed(z: Lz2, p: Enc, n: nat, k: nat)
    requires EncOk(p) && z.phase == Control && 0 < n <= UNPACK_MAX && 0 < k <= PACK_MAX
    requires (p.srcPos > 0 ==> z.level <= LEVEL_PROP) && (!p.needInitProp ==> z.level == 0) && z.level <= LEVEL_DIC
    ensures var s := [LzmaControl(p, n)] + SizeBytes(n) + SizeBytes(k);
            HeaderBytes(z, s) &&
            Fed(z, s) == z.(phase := if p.needInitProp then PropByte else Data, control := LzmaControl(p, n), level := 0,
                            unpack := n, pack := k)
  {
    var c, a, b := LzmaControl(p, n), SizeBytes(n), SizeBytes(k);
    ControlBits(p, n);
    var z1 := UpdateState(z, c);
    hide Fed, HeaderBytes, SizeBytes, LzmaControl;
    FedOne(z, c);
    UnpackFed(z1, n);
    FedTwice(z, [c], a);
    PackFed(Fed(z1, a), k);
    FedTwice(z, [c] + a, b);
  }

  lemma LzmaHeaderFed(z: Lz2, p: Enc, propsByte: byte, s: Sub)
    requires Synced(p, z) && SubOk(s) && !UsesCopy(s) && PropsByteOk(propsByte)
    ensures var t := HeaderOf(p, propsByte, s); HeaderBytes(z, t) && Fed(z, t) == LzmaHeader(z, p, propsByte, s)
  {
    var n, k := |s.data|, |s.coded.bytes|;
    var t := [LzmaControl(p, n)] + SizeBytes(n) + SizeBytes(k);
    assert z.level == 0 || z.level == LEVEL_PROP || z.level == LEVEL_DIC;
    hide Fed, HeaderBytes, SizeBytes, LzmaControl, Blank, Lz2Ok;
    LzmaSizesFed(z, p, n, k);
    if p.needInitProp {
      FedTwice(z, t, [propsByte]);
      FedOne(Fed(z, t), propsByte);
    } else {
      assert t + [] == t;
    }
  }

  /** The oracle: from the state d, the packed bytes decode to data and to nothing else. */
  predicate CodesTo(d: Dec, packed: seq<byte>, data: seq<byte>) {
    && DecOk(d)
    && var r := Run(d, packed, |d.hist| + |data|, true);
       r.Paused? && r.rest == [] && r.dec.hist == d.hist + data && r.dec.remain == 0 && r.dec.code == 0
  }

  /** The decoder after an LZMA chunk. */
  function AfterLzma(z: Lz2, p: Enc, propsByte: byte, s: Sub): Lz2
    requires SubOk(s) && s.coded.Packed2?
  {
    var h := LzmaHeader(z, p, propsByte, s);
    var d := ChunkStart(h);
    if DecOk(d) && Run(d, s.coded.bytes, |d.hist| + |s.data|, true).Paused? then
      h.(phase := Control, pack := 0, unpack := 0, out := z.out + s.data,
         dec := Run(d, s.coded.bytes, |d.hist| + |s.data|, true).dec)
    else z
  }

  lemma LzmaDataRead(h: Lz2, packed: seq<byte>, data: seq<byte>, y: seq<byte>, limit: nat, fin: bool)
    requires Lz2Ok(h) && h.phase == Data && h.control >= 0x80 && h.pack == |packed| && h.unpack == |data|
    requires |h.out| < limit && |h.out| + |data| <= limit && (|h.out| + |data| < limit || fin)
    requires CodesTo(ChunkStart(h), packed, data)
    ensures var d := ChunkStart(h);
            var f := h.(phase := Control, pack := 0, unpack := 0, out := h.out + data,
                        dec := Run(d, packed, |d.hist| + |data|, true).dec);
            Lz2Ok(f) && RunChunks(h, packed + y, limit, fin) == RunChunks(f, y, limit, fin)
  {
    hide Run, Lz2Ok, DecOk, RunChunks, ChunkStart, AfterRun, LzmaTurn, MidChunk, MidUnread;
    var d, x := ChunkStart(h), packed + y;
    var e := Run(d, packed, |d.hist| + |data|, true).dec;
    assert Packed(h, x) == packed && Share(h, limit) == |data| && Fits(h, limit);
    ChunkRunValue(h, x, limit);
    assert ChunkRun(h, x, limit) == Paused(e, []);
    hide ChunkRun;
    ChunkRunEnds(h, x, limit);
    AfterRunIs(h, packed, e, []);
    MidIs(h, x, limit);
    assert (d.hist + data)[|d.hist|..] == data;
    assert Unread(h, x, []) == y;
    RunIsTurn(h, x, limit, fin);
    TurnEnd(h, x, limit, fin);
  }

  /** An LZMA chunk is accepted, and yields its data. */
  lemma LzmaChunkRead(p: Enc, z: Lz2, propsByte: byte, s: Sub, y: seq<byte>, limit: nat, fin: bool)
    requires Synced(p, z) && SubOk(s) && !UsesCopy(s) && PropsByteOk(propsByte)
    requires |z.out| + |s.data| <= limit && (|z.out| + |s.data| < limit || fin)
    requires CodesTo(ChunkStart(LzmaHeader(z, p, propsByte, s)), s.coded.bytes, s.data)
    ensures var f := AfterLzma(z, p, propsByte, s);
            && Lz2Ok(f) && f.phase == Control && f.out == z.out + s.data && f.level == 0
            && RunChunks(z, LzmaChunk(p, propsByte, s) + y, limit, fin) == RunChunks(f, y, limit, fin)
  {
    hide Run, Lz2Ok, DecOk, RunChunks, ChunkStart, Fed, HeaderBytes, LzmaHeader, AfterLzma, CodesTo, Synced, LzmaChunk,
      SizeBytes, LzmaControl;
    var h, packed, t := LzmaHeader(z, p, propsByte, s), s.coded.bytes, HeaderOf(p, propsByte, s);
    LzmaHeaderFields(p, z, propsByte, s);
    LzmaHeaderFed(z, p, propsByte, s);
    HeaderRead(z, t, packed + y, limit, fin);
    LzmaDataRead(h, packed, s.data, y, limit, fin);
    AfterLzmaIs(p, z, propsByte, s);
    assert t + packed + y == t + (packed + y);
  }

  lemma LzmaHeaderFields(p: Enc, z: Lz2, propsByte: byte, s: Sub)
    requires Synced(p, z) && SubOk(s) && !UsesCopy(s)
    ensures var h := LzmaHeader(z, p, propsByte, s);
            && Lz2Ok(z) && z.phase == Control && 0 < |s.data| && LzmaChunk(p, propsByte, s) == HeaderOf(p, propsByte, s) + s.coded.bytes
            && h.phase == Data && h.control >= 0x80 && h.pack == |s.coded.bytes| && h.unpack == |s.data| && h.out == z.out
            && h.level == 0
  {
    ControlBits(p, |s.data|);
    hide Lz2Ok, SizeBytes, LzmaControl, Blank;
  }

  lemma AfterLzmaIs(p: Enc, z: Lz2, propsByte: byte, s: Sub)
    requires SubOk(s) && s.coded.Packed2?
    requires CodesTo(ChunkStart(LzmaHeader(z, p, propsByte, s)), s.coded.bytes, s.data)
    ensures var h := LzmaHeader(z, p, propsByte, s);
            var d := ChunkStart(h);
            && DecOk(d)
            && AfterLzma(z, p, propsByte, s) ==
               h.(phase := Control, pack := 0, unpack := 0, out := z.out + s.data,
                  dec := Run(d, s.coded.bytes, |d.hist| + |s.data|, true).dec)
  {
    hide Run, DecOk, ChunkStart, LzmaHeader;
  }

  // ---------- Whole streams ----------

  /** A new block starts with a dictionary reset; blocks are written as sub-blocks. */
  datatype Event = NewBlock | Write(sub: Sub)

  function Start(): Enc {
    Enc(0, true, true)
  }

  function AfterEvent(p: Enc, e: Event): Enc {
    match e
    case NewBlock => Start()
    case Write(s) => AfterSub(p, s)
  }

  predicate EventsOk(events: seq<Event>) {
    forall i :: 0 <= i < |events| && events[i].Write? ==> SubOk(events[i].sub)
  }

  function StreamBytes(p: Enc, propsByte: byte, events: seq<Event>): seq<byte>
    requires EventsOk(events)
    decreases |events|
  {
    if events == [] then []
    else
      (if events[0].Write? then SubBytes(p, propsByte, events[0].sub) else []) +
      StreamBytes(AfterEvent(p, events[0]), propsByte, events[1..])
  }

  function StreamData(events: seq<Event>): seq<byte> {
    if events == [] then []
    else (if events[0].Write? then events[0].sub.data else []) + StreamData(events[1..])
  }

  function AfterWrite(z: Lz2, p: Enc, propsByte: byte, s: Sub): Lz2
    requires SubOk(s)
  {
    if UsesCopy(s) then AfterCopies(z, p.srcPos, s.data) else AfterLzma(z, p, propsByte, s)
  }

  /** The oracle, for a whole stream: every LZMA chunk decodes to its data from where the decoder is. */
  predicate Faithful(p: Enc, z: Lz2, propsByte: byte, events: seq<Event>)
    requires EventsOk(events)
    decreases |events|
  {
    events == [] ||
    match events[0]
    case NewBlock => Faithful(Start(), z, propsByte, events[1..])
    case Write(s) =>
      && (!UsesCopy(s) ==> CodesTo(ChunkStart(LzmaHeader(z, p, propsByte, s)), s.coded.bytes, s.data))
      && Faithful(AfterSub(p, s), AfterWrite(z, p, propsByte, s), propsByte, events[1..])
  }

  lemma WriteRead(p: Enc, z: Lz2, propsByte: byte, s: Sub, y: seq<byte>, limit: nat, fin: bool)
    requires Synced(p, z) && SubOk(s) && PropsByteOk(propsByte)
    requires |z.out| + |s.data| <= limit && (|z.out| + |s.data| < limit || fin)
    requires !UsesCopy(s) ==> CodesTo(ChunkStart(LzmaHeader(z, p, propsByte, s)), s.coded.bytes, s.data)
    ensures var f := AfterWrite(z, p, propsByte, s);
            && Synced(AfterSub(p, s), f) && f.out == z.out + s.data
            && RunChunks(z, SubBytes(p, propsByte, s) + y, limit, fin) == RunChunks(f, y, limit, fin)
  {
    hide Lz2Ok, RunChunks, CodesTo, LzmaHeader, AfterLzma, AfterCopies, LzmaChunk, CopyChunks, ChunkStart;
    if UsesCopy(s) {
      CopiesRead(z, p.srcPos, s.data, y, limit, fin);
    } else {
      LzmaChunkRead(p, z, propsByte, s, y, limit, fin);
    }
  }

  /** Every chunk written is accepted, and what comes out is what went in. */
  lemma {:induction false} StreamRead(p: Enc, z: Lz2, propsByte: byte, events: seq<Event>, y: seq<byte>, limit: nat,
      fin: bool)
    returns (f: Lz2)
    requires Synced(p, z) && EventsOk(events) && PropsByteOk(propsByte) && Faithful(p, z, propsByte, events)
    requires |z.out| + |StreamData(events)| <= limit && (|z.out| + |StreamData(events)| < limit || fin)
    ensures Lz2Ok(f) && f.phase == Control && f.out == z.out + StreamData(events)
    ensures RunChunks(z, StreamBytes(p, propsByte, events) + y, limit, fin) == RunChunks(f, y, limit, fin)
    decreases |events|
  {
    hide Lz2Ok, RunChunks, CodesTo, LzmaHeader, AfterWrite, ChunkStart, SubBytes, AfterSub;
    if events == [] {
      f := z;
      assert [] + y == y && z.out + [] == z.out;
    } else {
      var rest := events[1..];
      var more := StreamBytes(AfterEvent(p, events[0]), propsByte, rest);
      match events[0]
      case NewBlock =>
        assert StreamBytes(p, propsByte, events) == [] + more && [] + more == more;
        f := StreamRead(Start(), z, propsByte, rest, y, limit, fin);
      case Write(s) =>
        WriteRead(p, z, propsByte, s, more + y, limit, fin);
        f := StreamRead(AfterSub(p, s), AfterWrite(z, p, propsByte, s), propsByte, rest, y, limit, fin);
        assert StreamBytes(p, propsByte, events) + y == SubBytes(p, propsByte, s) + (more + y);
        assert z.out + s.data + StreamData(rest) == z.out + StreamData(events);
    }
  }

  /** The decoder before its first byte. */
  function Initial(dicSize: nat): Lz2 {
    Lz2(Control, 0, LEVEL_DIC, 0, 0, Blank(Props(LCLP_MAX, 0, 0, dicSize), []), [])
  }

  lemma InitialOk(dicSize: nat)
    requires 0x1000 <= dicSize < WORD
    ensures Synced(Start(), Initial(dicSize)) && Initial(dicSize).out == []
  {
    BlankOk(Props(LCLP_MAX, 0, 0, dicSize), []);
    hide DecOk, Blank;
  }

  /** A whole stream, ended by its end mark, decodes to the data that was encoded. */
  lemma EncodeDecode(dicSize: nat, propsByte: byte, events: seq<Event>)
    requires 0x1000 <= dicSize < WORD && EventsOk(events) && PropsByteOk(propsByte)
    requires Faithful(Start(), Initial(dicSize), propsByte, events)
    ensures Lz2Ok(Initial(dicSize)) && Initial(dicSize).out == []
    ensures var r := RunChunks(Initial(dicSize), StreamBytes(Start(), propsByte, events) + [0], |StreamData(events)|, true);
            r.Paused2? && r.status == FinishedWithMark && r.rest == [] && r.state.out == StreamData(events)
  {
    hide Lz2Ok, RunChunks, Faithful, StreamBytes, StreamData, Initial;
    InitialOk(dicSize);
    var z, limit := Initial(dicSize), |StreamData(events)|;
    var f := StreamRead(Start(), z, propsByte, events, [0], limit, true);
    assert f.out == StreamData(events);
    RunHeader(f, [0], limit, true);
    assert [0][1..] == [];
    RunIdles(UpdateState(f, 0), [], limit, true);
  }

  /** Without an oracle: streams of copy chunks alone. */
  lemma {:induction false} CopiesFaithful(p: Enc, z: Lz2, propsByte: byte, events: seq<Event>)
    requires EventsOk(events) && forall i :: 0 <= i < |events| && events[i].Write? ==> UsesCopy(events[i].sub)
    ensures Faithful(p, z, propsByte, events)
    decreases |events|
  {
    if events != [] {
      match events[0]
      case NewBlock => CopiesFaithful(Start(), z, propsByte, events[1..]);
      case Write(s) => CopiesFaithful(AfterSub(p, s), AfterWrite(z, p, propsByte, s), propsByte, events[1..]);
    }
  }

  // ---------- The writer ----------

  /** SZ_OK, SZ_ERROR_OUTPUT_EOF, and what else the block coder returns. */
  datatype WriteRes = Written | NoRoom | OtherError(code: int)

  /** The pieces of a copy block are written one at a time: each fits on its own, or all fit together. */
  predicate CopyFits(srcPos: nat, data: seq<byte>, limit: nat, streaming: bool) {
    if streaming then |CopyPiece(data)| + 3 <= limit else |CopyChunks(srcPos, data)| <= limit
  }

  class Writer {
    var srcPos: nat
    var needInitState: bool
    var needInitProp: bool
    var propsByte: byte

    ghost function State(): Enc
      reads this
    {
      Enc(srcPos, needInitState, needInitProp)
    }

    /** Lzma2EncInt_InitBlock */
    method InitBlock()
      modifies this
      ensures State() == Start() && EncOk(State()) && propsByte == old(propsByte)
    {
      srcPos := 0;
      needInitState := true;
      needInitProp := true;
    }

    /** One copy chunk, written to the buffer. */
    method PutPiece(outBuf: array<byte>, destPos: nat, piece: seq<byte>)
      requires destPos + 3 + |piece| <= outBuf.Length && piece != []
      modifies outBuf
      ensures outBuf[..destPos + 3 + |piece|] ==
              old(outBuf[..destPos]) + ([CopyControl(srcPos)] + SizeBytes(|piece|) + piece)
    {
      var u := |piece|;
      ghost var before, chunk := outBuf[..destPos], [CopyControl(srcPos)] + SizeBytes(u) + piece;
      outBuf[destPos] := if srcPos == 0 then COPY_RESET_DIC else COPY_NO_RESET;
      outBuf[destPos + 1] := (u - 1) / 0x100 % 0x100;
      outBuf[destPos + 2] := (u - 1) % 0x100;
      forall i | 0 <= i < u {
        outBuf[destPos + 3 + i] := piece[i];
      }
      assert outBuf[..destPos] == before;
      assert outBuf[destPos..destPos + 3 + u] == chunk;
      hide SizeBytes, CopyControl;
      assert outBuf[..destPos + 3 + u] == outBuf[..destPos] + outBuf[destPos..destPos + 3 + u];
    }

    /** The copy block of Lzma2EncInt_EncodeSubblock. */
    method WriteCopies(outBuf: array<byte>, packSizeLimit: nat, data: seq<byte>, streaming: bool)
      returns (res: WriteRes, packSizeRes: nat, stream: seq<byte>)
      requires packSizeLimit <= outBuf.Length && data != []
      modifies this`srcPos, outBuf
      ensures res == if CopyFits(old(srcPos), data, packSizeLimit, streaming) then Written else NoRoom
      ensures res == Written ==>
                packSizeRes == |CopyChunks(old(srcPos), data)| && srcPos == old(srcPos) + |data| &&
                (if streaming then stream == CopyChunks(old(srcPos), data)
                 else packSizeRes <= outBuf.Length && outBuf[..packSizeRes] == CopyChunks(old(srcPos), data))
    {
      hide CopyChunks, SizeBytes, CopyControl, CopyPiece;
      var destPos: nat := 0;
      var left := data;
      packSizeRes, stream := 0, [];
      ghost var start, done := srcPos, [];
      while left != []
        invariant srcPos + |left| == start + |data| && |left| <= |data|
        invariant CopyChunks(start, data) == done + CopyChunks(srcPos, left)
        invariant destPos <= packSizeLimit && done == stream + outBuf[..destPos] && packSizeRes == |done|
        invariant if streaming then destPos == 0 else stream == []
        invariant left == data || (streaming ==> |CopyPiece(data)| + 3 <= packSizeLimit)
        decreases |left|
      {
        CopyChunksNext(srcPos, left);
        PieceSmaller(left, data);
        var piece := CopyPiece(left);
        var u := |piece|;
        if packSizeLimit - destPos < u + 3 {
          return NoRoom, packSizeRes, stream;
        }
        PutPiece(outBuf, destPos, piece);
        DoneNext(stream, outBuf[..destPos + 3 + u], done, [CopyControl(srcPos)] + SizeBytes(u) + piece,
                 CopyChunks(srcPos + u, left[u..]));
        done := stream + outBuf[..destPos + 3 + u];
        left := left[u..];
        destPos := destPos + 3 + u;
        srcPos := srcPos + u;
        if streaming {
          packSizeRes := packSizeRes + destPos;
          stream := stream + outBuf[..destPos];
          destPos := 0;
        } else {
          packSizeRes := destPos;
        }
      }
      CopyChunksNone(srcPos);
      res := Written;
    }

    /** The header of an LZMA chunk, before the packed bytes that are already in the buffer. */
    method PutHeader(outBuf: array<byte>, s: Sub) returns (destPos: nat)
      requires SubOk(s) && s.coded.Packed2?
      requires 5 + (if needInitProp then 1 else 0) <= outBuf.Length
      modifies outBuf
      ensures destPos == |HeaderOf(State(), propsByte, s)| == 5 + (if needInitProp then 1 else 0)
      ensures outBuf[..destPos] == HeaderOf(State(), propsByte, s) && outBuf[destPos..] == old(outBuf[destPos..])
    {
      var u, pm := |s.data| - 1, |s.coded.bytes| - 1;
      var mode := if srcPos == 0 then 3 else if needInitState then if needInitProp then 2 else 1 else 0;
      ghost var tail := outBuf[5 + (if needInitProp then 1 else 0)..];
      outBuf[0] := 0x80 + mode * 0x20 + u / 0x1_0000 % 0x20;
      outBuf[1] := u / 0x100 % 0x100;
      outBuf[2] := u % 0x100;
      outBuf[3] := pm / 0x100 % 0x100;
      outBuf[4] := pm % 0x100;
      destPos := 5;
      if needInitProp {
        outBuf[5] := propsByte;
        destPos := 6;
      }
      assert outBuf[destPos..] == tail;
      assert outBuf[..destPos] == HeaderOf(State(), propsByte, s);
    }

    /**
     Lzma2EncInt_EncodeSubblock: the oracle's packed bytes if they are worth it, and copy chunks
     otherwise.  The bytes go to the buffer, or from there to the stream; an error of the coder is
     returned as it is, and nothing written.
     */
    method EncodeSubblock(outBuf: array<byte>, packSizeLimit: nat, s: Sub, streaming: bool)
      returns (res: WriteRes, packSizeRes: nat, stream: seq<byte>)
      requires packSizeLimit <= outBuf.Length && |s.data| <= UNPACK_MAX
      requires s.coded.Packed2? ==> s.coded.bytes != []
      requires s.coded.Packed2? && packSizeLimit >= 5 + (if needInitProp then 1 else 0) ==>
                 5 + (if needInitProp then 1 else 0) + |s.coded.bytes| <= packSizeLimit
      modifies this, outBuf
      ensures propsByte == old(propsByte)
      ensures res == NoRoom <==>
                packSizeLimit < 5 + (if old(needInitProp) then 1 else 0) ||
                (if s.data == [] then s.coded.OutputEof?
                 else UsesCopy(s) && !CopyFits(old(srcPos), s.data, packSizeLimit, streaming))
      ensures res.OtherError? <==> packSizeLimit >= 5 + (if old(needInitProp) then 1 else 0) && s.coded.CoderError?
      ensures res.OtherError? ==> res.code == s.coded.code
      ensures s.data == [] || res.OtherError? ==> packSizeRes == 0 && stream == [] && State() == old(State())
      ensures res == Written && s.data != [] ==>
                State() == AfterSub(old(State()), s) && packSizeRes == |SubBytes(old(State()), propsByte, s)| &&
                (if streaming then stream == SubBytes(old(State()), propsByte, s)
                 else packSizeRes <= outBuf.Length && outBuf[..packSizeRes] == SubBytes(old(State()), propsByte, s))
    {
      hide CopyChunks, SizeBytes, CopyControl, CopyPiece, HeaderOf;
      packSizeRes, stream := 0, [];
      var lzHeaderSize := 5 + (if needInitProp then 1 else 0);
      if packSizeLimit < lzHeaderSize {
        return NoRoom, 0, [];
      }
      if s.data == [] {
        res := match s.coded case Packed2(_) => Written case OutputEof => NoRoom case CoderError(code) => OtherError(code);
        return;
      }
      if s.coded.CoderError? {
        return OtherError(s.coded.code), 0, [];
      }
      if s.coded.OutputEof? || |s.coded.bytes| + 2 >= |s.data| || |s.coded.bytes| > PACK_MAX {
        res, packSizeRes, stream := WriteCopies(outBuf, packSizeLimit, s.data, streaming);
        return;
      }
      var packed := s.coded.bytes;
      forall i | 0 <= i < |packed| {
        outBuf[lzHeaderSize + i] := packed[i];
      }
      assert outBuf[lzHeaderSize..][..|packed|] == packed;
      var destPos := PutHeader(outBuf, s);
      ghost var header := HeaderOf(State(), propsByte, s);
      assert outBuf[..destPos + |packed|] == outBuf[..destPos] + outBuf[destPos..][..|packed|];
      needInitProp := false;
      needInitState := false;
      destPos := destPos + |packed|;
      srcPos := srcPos + |s.data|;
      if streaming {
        stream := outBuf[..destPos];
      }
      res, packSizeRes := Written, destPos;
    }
  }

  lemma DoneNext(stream: seq<byte>, buf: seq<byte>, done: seq<byte>, chunk: seq<byte>, more: seq<byte>)
    requires |chunk| <= |buf| && done == stream + buf[..|buf| - |chunk|] && buf == buf[..|buf| - |chunk|] + chunk
    ensures done + (chunk + more) == stream + buf + more && |done| + |chunk| == |stream + buf|
  {
  }

  lemma PieceSmaller(left: seq<byte>, data: seq<byte>)
    ensures |left| <= |data| ==> |CopyPiece(left)| <= |CopyPiece(data)|
  {
  }

  lemma CopyChunksNext(srcPos: nat, data: seq<byte>)
    requires data != []
    ensures var piece := CopyPiece(data);
            && 0 < |piece| <= |data| && |SizeBytes(|piece|)| == 2
            && CopyChunks(srcPos, data) ==
               [CopyControl(srcPos)] + SizeBytes(|piece|) + piece + CopyChunks(srcPos + |piece|, data[|piece|..])
  {
  }

  lemma CopyChunksNone(srcPos: nat)
    ensures CopyChunks(srcPos, []) == []
  {
  }
}
