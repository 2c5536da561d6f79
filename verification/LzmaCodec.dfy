/** The packet coder of LzmaEnc.c, and a whole stream through the encoder and the decoder. */
module LzmaCodec {
  import opened Bytes
  import opened RangeCoder
  import opened RangeEnc
  import opened LzmaModel
  import opened LzmaRun
  import opened LzmaNames
  import opened LzmaCoins
  import opened LzmaPackets
  import opened LzmaRoundTrip
  import opened LzmaDec

  /** Each bit to the range coder, with its probability, which is adapted. */
  method EncodeCoins(rc: RangeEncoder, probs: Probs, coins: seq<Coin>) returns (learned: Probs)
    requires rc.Valid() && IntervalOk(rc.exact)
    modifies rc
    ensures rc.Valid() && rc.exact == Narrow(old(rc.exact), probs, coins) && learned == Learned(probs, coins)
  {
    hide Narrowed, Halved, Shifted, Pow256, Value;
    learned := probs;
    ghost var whole := Narrow(rc.exact, probs, coins);
    assert coins[0..] == coins;
    for i := 0 to |coins|
      invariant rc.Valid() && IntervalOk(rc.exact)
      invariant Narrow(rc.exact, learned, coins[i..]) == whole && Learned(learned, coins[i..]) == Learned(probs, coins)
    {
      assert coins[i..][0] == coins[i] && coins[i..][1..] == coins[i + 1..];
      match coins[i]
      case Half(bit) =>
        HalvedOk(rc.exact, bit);
        rc.EncodeDirect(bit);
      case Model(name, bit) =>
        NarrowedOk(rc.exact, ProbOf(learned, name), bit);
        var q := rc.EncodeBit(ProbOf(learned, name), bit);
        learned := learned[name := q];
    }
  }

  /** LzmaEnc_CodeOneBlock, for packets that have been chosen, and its Flush. */
  method EncodePackets(p: Props, e: Enc, packets: seq<Packet>, mark: bool) returns (bytes: seq<byte>, end: Enc)
    requires EncFits(p, e) && PacketsOk(p, e.hist, e.reps, packets)
    ensures bytes == PacketBytes(p, e, packets, mark)
    ensures end.hist == Expansion(p, e.hist, e.reps, packets) && (!mark ==> end == AfterPackets(p, e, packets))
  {
    hide Narrow, Learned, PacketCoins, Pow256, Value, Expanded, StateAfter, RepsAfter, Expansion, BigEndian, MarkCoins;
    var rc := new RangeEncoder();
    FullOk();
    end := e;
    assert packets[0..] == packets;
    for i := 0 to |packets|
      invariant rc.Valid() && fresh(rc) && IntervalOk(rc.exact)
      invariant EncFits(p, end) && PacketsOk(p, end.hist, end.reps, packets[i..])
      invariant Coded(p, end, rc.exact, packets[i..]) == Coded(p, e, FULL, packets)
      invariant AfterPackets(p, end, packets[i..]) == AfterPackets(p, e, packets)
    {
      assert packets[i..][0] == packets[i] && packets[i..][1..] == packets[i + 1..];
      NextPackets(p, end, rc.exact, packets[i..]);
      var probs := EncodeCoins(rc, end.probs, PacketCoins(p, end, packets[i]));
      RepsStay(p, end.hist, end.reps, packets[i]);
      end := Enc(StateAfter(end.state, packets[i]), RepsAfter(end.reps, packets[i]), probs,
                 Expanded(p, end.hist, end.reps, packets[i]));
    }
    assert packets[|packets|..] == [];
    ExpansionIs(p, e, packets);
    if mark {
      var probs := EncodeCoins(rc, end.probs, MarkCoins(p, end));
      end := end.(probs := probs);
    }
    rc.FlushData();
    bytes := rc.buf;
  }

  const START: Enc := Enc(0, [1, 1, 1, 1], map[], [])

  /**
   A whole stream: whatever packets are chosen, and with an end mark or without it, the decoder
   puts their meaning into dest.
   */
  method CodeAndDecode(p: Props, packets: seq<Packet>, mark: bool, dest: array<byte>) returns (res: SRes, destLen: nat, status: Status)
    requires PropsOk(p) && PacketsOk(p, [], [1, 1, 1, 1], packets)
    requires var n := |Expansion(p, [], [1, 1, 1, 1], packets)|; if mark then n < dest.Length else n == dest.Length
    modifies dest
    ensures res == Ok && destLen <= dest.Length && dest[..destLen] == Expansion(p, [], [1, 1, 1, 1], packets)
    ensures status == if mark then FinishedWithMark else MaybeFinishedWithoutMark
  {
    hide Expansion, PacketsOk, PacketBytes, AfterPackets, Run, DecOk, InStep, NumProbs;
    var bytes, _ := EncodePackets(p, START, packets, mark);
    var decoder := new Decoder(p);
    ghost var d := decoder.Abs();
    NewJoined(decoder);
    var srcLen;
    res, destLen, srcLen, status := decoder.DecodeToBuf(dest, dest.Length, bytes, true);
    assert [] + bytes == bytes && bytes + [] == bytes;
    ExpansionIs(p, START, packets);
    if mark {
      var d' := MarkedDecode(START, d, packets, [], dest.Length, true);
    } else {
      var d' := PacketsEnd(START, d, packets);
    }
  }

  lemma NewJoined(decoder: Decoder)
    requires decoder.Valid() && DecOk(decoder.Abs()) && decoder.hist == [] && decoder.Abs().remain == NEED_INIT_STATE
    ensures Joined(START, decoder.Abs()) && EncFits(decoder.prop, START) && decoder.Abs().props == decoder.prop && decoder.Abs().hist == []
  {
  }
}
