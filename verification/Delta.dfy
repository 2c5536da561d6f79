/** The delta filter of Delta.c: each byte less the one that is delta bytes before it. */
module Delta {
  import opened Bytes

  const STATE_SIZE: nat := 256

  /** The bytes put out, and the last delta bytes of the plain data, oldest first. */
  datatype Out = Out(data: seq<byte>, history: seq<byte>)

  function Less(a: byte, b: byte): byte { (if a < b then 0x100 else 0) + a - b }

  function More(a: byte, b: byte): byte { if a + b < 0x100 then a + b else a + b - 0x100 }

  function Pushed(h: seq<byte>, b: byte): (r: seq<byte>)
    requires h != []
    ensures |r| == |h|
  {
    h[1..] + [b]
  }

  function Encoded(h: seq<byte>, s: seq<byte>): (r: Out)
    requires h != []
    ensures |r.data| == |s| && |r.history| == |h|
    decreases |s|
  {
    if s == [] then Out([], h)
    else
      var r := Encoded(Pushed(h, s[0]), s[1..]);
      Out([Less(s[0], h[0])] + r.data, r.history)
  }

  function Decoded(h: seq<byte>, s: seq<byte>): (r: Out)
    requires h != []
    ensures |r.data| == |s| && |r.history| == |h|
    decreases |s|
  {
    if s == [] then Out([], h)
    else
      var b := More(h[0], s[0]);
      var r := Decoded(Pushed(h, b), s[1..]);
      Out([b] + r.data, r.history)
  }

  /** Decoding undoes encoding, and both end with the same history. */
  lemma {:induction false} EncodedBack(h: seq<byte>, s: seq<byte>)
    requires h != []
    ensures Decoded(h, Encoded(h, s).data) == Out(s, Encoded(h, s).history)
    decreases |s|
  {
    if s != [] {
      var e := Encoded(h, s).data;
      assert e[1..] == Encoded(Pushed(h, s[0]), s[1..]).data;
      assert More(h[0], e[0]) == s[0];
      EncodedBack(Pushed(h, s[0]), s[1..]);
      assert s == [s[0]] + s[1..];
    }
  }

  /** Each byte becomes its difference to the byte that many places before it. */
  lemma {:induction false} EncodedAt(h: seq<byte>, s: seq<byte>, i: nat)
    requires h != [] && i < |s|
    ensures Encoded(h, s).data[i] as int == (s[i] as int - (h + s)[i] as int) % 0x100
    ensures Encoded(h, s).history == (h + s)[|s|..]
    decreases |s|
  {
    var g := Pushed(h, s[0]);
    assert g + s[1..] == (h + s)[1..];
    if |s| == 1 {
      assert Encoded(g, []) == Out([], g);
      assert (h + s)[1..] == g;
    } else {
      EncodedAt(g, s[1..], if i > 0 then i - 1 else 0);
      assert (h + s)[1..][|s| - 1..] == (h + s)[|s|..];
      if i > 0 {
        assert (g + s[1..])[i - 1] == (h + s)[i];
      }
    }
  }

  // ---------- In pieces ----------

  function Joined(a: Out, b: Out): Out { Out(a.data + b.data, b.history) }

  lemma {:induction false} EncodedPieces(h: seq<byte>, a: seq<byte>, b: seq<byte>)
    requires h != []
    ensures Encoded(h, a + b) == Joined(Encoded(h, a), Encoded(Encoded(h, a).history, b))
    decreases |a|
  {
    if a == [] {
      assert a + b == b;
    } else {
      assert (a + b)[1..] == a[1..] + b;
      EncodedPieces(Pushed(h, a[0]), a[1..], b);
    }
  }

  lemma {:induction false} DecodedPieces(h: seq<byte>, a: seq<byte>, b: seq<byte>)
    requires h != []
    ensures Decoded(h, a + b) == Joined(Decoded(h, a), Decoded(Decoded(h, a).history, b))
    decreases |a|
  {
    if a == [] {
      assert a + b == b;
    } else {
      assert (a + b)[1..] == a[1..] + b;
      DecodedPieces(Pushed(h, More(h[0], a[0])), a[1..], b);
    }
  }

  function Concat(pieces: seq<seq<byte>>): seq<byte> {
    if pieces == [] then [] else pieces[0] + Concat(pieces[1..])
  }

  /** One call for each piece, with the state carried on. */
  function EncodedEach(h: seq<byte>, pieces: seq<seq<byte>>): (r: Out)
    requires h != []
    decreases |pieces|
  {
    if pieces == [] then Out([], h)
    else Joined(Encoded(h, pieces[0]), EncodedEach(Encoded(h, pieces[0]).history, pieces[1..]))
  }

  function DecodedEach(h: seq<byte>, pieces: seq<seq<byte>>): (r: Out)
    requires h != []
    decreases |pieces|
  {
    if pieces == [] then Out([], h)
    else Joined(Decoded(h, pieces[0]), DecodedEach(Decoded(h, pieces[0]).history, pieces[1..]))
  }

  lemma {:induction false} EncodedEachIs(h: seq<byte>, pieces: seq<seq<byte>>)
    requires h != []
    ensures EncodedEach(h, pieces) == Encoded(h, Concat(pieces))
    decreases |pieces|
  {
    if pieces != [] {
      EncodedEachIs(Encoded(h, pieces[0]).history, pieces[1..]);
      EncodedPieces(h, pieces[0], Concat(pieces[1..]));
    }
  }

  lemma {:induction false} DecodedEachIs(h: seq<byte>, pieces: seq<seq<byte>>)
    requires h != []
    ensures DecodedEach(h, pieces) == Decoded(h, Concat(pieces))
    decreases |pieces|
  {
    if pieces != [] {
      DecodedEachIs(Decoded(h, pieces[0]).history, pieces[1..]);
      DecodedPieces(h, pieces[0], Concat(pieces[1..]));
    }
  }

  /** The two passes may cut the data up independently of each other. */
  lemma DecodedAnySplit(h: seq<byte>, plain: seq<seq<byte>>, coded: seq<seq<byte>>)
    requires h != [] && Concat(coded) == EncodedEach(h, plain).data
    ensures DecodedEach(h, coded).data == Concat(plain)
    ensures DecodedEach(h, coded).history == EncodedEach(h, plain).history
  {
    EncodedEachIs(h, plain);
    DecodedEachIs(h, coded);
    EncodedBack(h, Concat(plain));
  }

  // ---------- In place ----------

  /** The history that the rotating buffer holds. */
  function Rotated(buf: seq<byte>, j: nat): (h: seq<byte>)
    requires j <= |buf|
    ensures |h| == |buf|
  {
    buf[j..] + buf[..j]
  }

  lemma RotatedNext(buf: seq<byte>, j: nat, b: byte)
    requires j < |buf|
    ensures Rotated(buf, j)[0] == buf[j] && Rotated(buf[j := b], j + 1) == Pushed(Rotated(buf, j), b)
  {
  }

  lemma RotatedFull(buf: seq<byte>)
    ensures Rotated(buf, |buf|) == Rotated(buf, 0) == buf
  {
  }

  /** What is done, and what is still to do, make up the whole. */
  ghost predicate Encoding(whole: Out, data: seq<byte>, size: nat, i: nat, h: seq<byte>) {
    && h != [] && i <= size <= |data| && whole == Joined(Out(data[..i], h), Encoded(h, data[i..size]))
  }

  ghost predicate Decoding(whole: Out, data: seq<byte>, size: nat, i: nat, h: seq<byte>) {
    && h != [] && i <= size <= |data| && whole == Joined(Out(data[..i], h), Decoded(h, data[i..size]))
  }

  lemma EncodingStep(whole: Out, data: seq<byte>, size: nat, i: nat, h: seq<byte>)
    requires Encoding(whole, data, size, i, h) && i < size
    ensures Encoding(whole, data[i := Less(data[i], h[0])], size, i + 1, Pushed(h, data[i]))
  {
    var s := data[i..size];
    var next := data[i := Less(data[i], h[0])];
    assert s[1..] == next[i + 1..size];
    assert next[..i + 1] == data[..i] + [next[i]];
  }

  lemma DecodingStep(whole: Out, data: seq<byte>, size: nat, i: nat, h: seq<byte>)
    requires Decoding(whole, data, size, i, h) && i < size
    ensures var b := More(h[0], data[i]);
            Decoding(whole, data[i := b], size, i + 1, Pushed(h, b))
  {
    var s := data[i..size];
    var next := data[i := More(h[0], data[i])];
    assert s[1..] == next[i + 1..size];
    assert next[..i + 1] == data[..i] + [next[i]];
  }

  lemma Starts(data: seq<byte>, size: nat, h: seq<byte>)
    requires h != [] && size <= |data|
    ensures Encoding(Encoded(h, data[..size]), data, size, 0, h)
    ensures Decoding(Decoded(h, data[..size]), data, size, 0, h)
  {
    assert data[0..size] == data[..size];
  }

  /** MyMemCpy of the state, and back with the oldest byte first. */
  method SaveState(state: array<byte>, buf: array<byte>, j: nat)
    requires j < buf.Length <= state.Length && state != buf
    modifies state
    ensures state[..buf.Length] == Rotated(buf[..], j) && state[buf.Length..] == old(state[buf.Length..])
  {
    var delta := buf.Length;
    forall i | 0 <= i < delta - j {
      state[i] := buf[j + i];
    }
    assert state[..delta - j] == buf[j..];
    forall i | 0 <= i < j {
      state[delta - j + i] := buf[i];
    }
    assert state[delta - j..delta] == buf[..j] && state[..delta - j] == buf[j..];
    assert state[..delta] == state[..delta - j] + state[delta - j..delta];
  }

  /** Delta_Encode */
  method Encode(state: array<byte>, delta: nat, data: array<byte>, size: nat)
    requires 1 <= delta <= STATE_SIZE == state.Length && size <= data.Length && state != data
    modifies state, data
    ensures Out(data[..size], state[..delta]) == Encoded(old(state[..delta]), old(data[..size]))
    ensures data[size..] == old(data[size..]) && state[delta..] == old(state[delta..])
  {
    hide Encoding, Encoded, Pushed, Rotated;
    var buf := new byte[delta](i requires 0 <= i < delta reads state => state[i]);
    assert buf[..] == state[..delta];
    ghost var whole := Encoded(buf[..], data[..size]);
    var i, j: nat := 0, 0;
    Starts(data[..], size, buf[..]);
    RotatedFull(buf[..]);
    while i < size
      invariant 0 <= i <= size && j <= delta
      invariant Encoding(whole, data[..], size, i, Rotated(buf[..], j))
      invariant data[size..] == old(data[size..]) && state[..] == old(state[..])
      invariant i < size ==> j == 0 || j == delta
    {
      RotatedFull(buf[..]);
      j := 0;
      ghost var from := i;
      while j < delta && i < size
        invariant 0 <= j <= delta && 0 <= i <= size
        invariant Encoding(whole, data[..], size, i, Rotated(buf[..], j))
        invariant data[size..] == old(data[size..]) && state[..] == old(state[..])
        invariant i == from + j
        decreases delta - j
      {
        var b := data[i];
        ghost var was, kept := data[..], buf[..];
        RotatedNext(kept, j, b);
        EncodingStep(whole, was, size, i, Rotated(kept, j));
        data[i] := Less(b, buf[j]);
        buf[j] := b;
        assert data[..] == was[i := Less(b, kept[j])] && buf[..] == kept[j := b];
        i, j := i + 1, j + 1;
      }
    }
    EncodingDone(whole, data[..], size, Rotated(buf[..], j));
    RotatedFull(buf[..]);
    if j == delta {
      j := 0;
    }
    SaveState(state, buf, j);
  }

  lemma EncodingDone(whole: Out, data: seq<byte>, size: nat, h: seq<byte>)
    requires Encoding(whole, data, size, size, h)
    ensures whole == Out(data[..size], h)
  {
  }

  lemma DecodingDone(whole: Out, data: seq<byte>, size: nat, h: seq<byte>)
    requires Decoding(whole, data, size, size, h)
    ensures whole == Out(data[..size], h)
  {
  }

  /** Delta_Decode */
  method Decode(state: array<byte>, delta: nat, data: array<byte>, size: nat)
    requires 1 <= delta <= STATE_SIZE == state.Length && size <= data.Length && state != data
    modifies state, data
    ensures Out(data[..size], state[..delta]) == Decoded(old(state[..delta]), old(data[..size]))
    ensures data[size..] == old(data[size..]) && state[delta..] == old(state[delta..])
  {
    hide Decoding, Decoded, Pushed, Rotated;
    var buf := new byte[delta](i requires 0 <= i < delta reads state => state[i]);
    assert buf[..] == state[..delta];
    ghost var whole := Decoded(buf[..], data[..size]);
    var i, j: nat := 0, 0;
    Starts(data[..], size, buf[..]);
    RotatedFull(buf[..]);
    while i < size
      invariant 0 <= i <= size && j <= delta
      invariant Decoding(whole, data[..], size, i, Rotated(buf[..], j))
      invariant data[size..] == old(data[size..]) && state[..] == old(state[..])
      invariant i < size ==> j == 0 || j == delta
    {
      RotatedFull(buf[..]);
      j := 0;
      ghost var from := i;
      while j < delta && i < size
        invariant 0 <= j <= delta && 0 <= i <= size
        invariant Decoding(whole, data[..], size, i, Rotated(buf[..], j))
        invariant data[size..] == old(data[size..]) && state[..] == old(state[..])
        invariant i == from + j
        decreases delta - j
      {
        ghost var was, kept := data[..], buf[..];
        var b := More(buf[j], data[i]);
        RotatedNext(kept, j, b);
        DecodingStep(whole, was, size, i, Rotated(kept, j));
        data[i] := b;
        buf[j] := b;
        assert data[..] == was[i := b] && buf[..] == kept[j := b];
        i, j := i + 1, j + 1;
      }
    }
    DecodingDone(whole, data[..], size, Rotated(buf[..], j));
    RotatedFull(buf[..]);
    if j == delta {
      j := 0;
    }
    SaveState(state, buf, j);
  }
}
