/** The circular dictionary of LzmaDec.c against the unbounded history it stands for. */
module LzmaDictionary {
  import opened Bytes
  import opened LzmaModel

  /** dicPos - distance, wrapped once: where the byte distance back is kept. */
  function Slot(dicPos: int, distance: int, size: int): int {
    dicPos - distance + (if dicPos < distance then size else 0)
  }

  /** Byte j of the history is where the decoder looks for it. */
  predicate HeldAt(dic: seq<byte>, dicPos: nat, hist: seq<byte>, j: nat)
    requires j < |hist|
  {
    var slot := Slot(dicPos, |hist| - j, |dic|);
    0 <= slot < |dic| && hist[j] == dic[slot]
  }

  /**
   As much of the history as fits is in the buffer, ending just before dicPos; only a buffer of
   at least dicSize bytes may be used around its end.
   */
  predicate Holds(dic: seq<byte>, dicPos: nat, hist: seq<byte>, dicSize: nat) {
    && dicPos <= |dic|
    && (dicSize <= |dic| || |hist| <= dicPos)
    && forall j :: 0 <= j < |hist| && |hist| - |dic| <= j ==> HeldAt(dic, dicPos, hist, j)
  }

  /** A byte written at dicPos extends the history and overwrites nothing that is still reachable. */
  lemma HoldsAppend(dic: seq<byte>, dicPos: nat, hist: seq<byte>, dicSize: nat, b: byte)
    requires Holds(dic, dicPos, hist, dicSize) && dicPos < |dic|
    ensures Holds(dic[dicPos := b], dicPos + 1, hist + [b], dicSize)
  {
    var dic', next, hist' := dic[dicPos := b], dicPos + 1, hist + [b];
    forall j | 0 <= j < |hist'| && |hist'| - |dic'| <= j
      ensures HeldAt(dic', next, hist', j)
    {
      if j < |hist| {
        assert HeldAt(dic, dicPos, hist, j);
      }
    }
  }

  /** Callers may restart a full buffer at its beginning. */
  lemma HoldsWrap(dic: seq<byte>, hist: seq<byte>, dicSize: nat)
    requires Holds(dic, |dic|, hist, dicSize) && dicSize <= |dic|
    ensures Holds(dic, 0, hist, dicSize)
  {
    forall j | 0 <= j < |hist| && |hist| - |dic| <= j
      ensures HeldAt(dic, 0, hist, j)
    {
      assert HeldAt(dic, |dic|, hist, j);
    }
  }

  lemma HeldByte(dic: seq<byte>, dicPos: nat, hist: seq<byte>, dicSize: nat, distance: nat)
    requires Holds(dic, dicPos, hist, dicSize) && 1 <= distance <= |hist| && distance <= dicSize
    ensures 0 <= Slot(dicPos, distance, |dic|) < |dic|
    ensures dic[Slot(dicPos, distance, |dic|)] == hist[|hist| - distance]
  {
    assert HeldAt(dic, dicPos, hist, |hist| - distance);
  }

  /** The bytes written last are a slice of the buffer. */
  lemma HeldSlice(dic: seq<byte>, dicPos: nat, hist: seq<byte>, dicSize: nat, n: nat)
    requires Holds(dic, dicPos, hist, dicSize) && n <= |hist| && n <= dicPos
    ensures dic[dicPos - n..dicPos] == hist[|hist| - n..]
  {
    var written, last := dic[dicPos - n..dicPos], hist[|hist| - n..];
    forall i | 0 <= i < n
      ensures written[i] == last[i]
    {
      assert HeldAt(dic, dicPos, hist, |hist| - n + i);
    }
  }

  lemma RepeatOneMore(hist: seq<byte>, dist: nat, n: nat)
    requires 1 <= dist <= |hist|
    ensures var h := Repeat(hist, dist, n); Repeat(hist, dist, n + 1) == h + [h[|h| - dist]]
  {
    RepeatSplit(hist, dist, n, 1);
    var h := Repeat(hist, dist, n);
    assert Repeat(h, dist, 1) == Repeat(h + [h[|h| - dist]], dist, 0);
  }

  /** The byte at a distance is copied to dicPos: one step of every copy loop of the decoder. */
  lemma CopyStep(dic: seq<byte>, dicPos: nat, hist: seq<byte>, dicSize: nat, dist: nat, n: nat)
    requires 1 <= dist <= |hist| && dist <= dicSize && dicPos < |dic|
    requires Holds(dic, dicPos, Repeat(hist, dist, n), dicSize)
    ensures 0 <= Slot(dicPos, dist, |dic|) < |dic|
    ensures Holds(dic[dicPos := dic[Slot(dicPos, dist, |dic|)]], dicPos + 1, Repeat(hist, dist, n + 1), dicSize)
  {
    var h := Repeat(hist, dist, n);
    RepeatOneMore(hist, dist, n);
    HeldByte(dic, dicPos, h, dicSize, dist);
    HoldsAppend(dic, dicPos, h, dicSize, dic[Slot(dicPos, dist, |dic|)]);
  }

  /** The fast copy: the source does not wrap, and may overlap the bytes just written. */
  method CopyForward(dic: array<byte>, dicPos: nat, src: int, curLen: nat,
                     ghost rep0: nat, ghost hist: seq<byte>, ghost dicSize: nat)
    returns (newPos: nat)
    requires Holds(dic[..], dicPos, hist, dicSize)
    requires 1 <= rep0 <= |hist| && rep0 <= dicSize && 0 < curLen && dicPos + curLen <= dic.Length
    requires dicPos + src == Slot(dicPos, rep0, dic.Length) && dicPos + src + curLen <= dic.Length
    modifies dic
    ensures newPos == dicPos + curLen
    ensures Holds(dic[..], newPos, Repeat(hist, rep0, curLen), dicSize)
  {
    assert Repeat(hist, rep0, 0) == hist;
    hide Holds, Repeat;
    var dest := dicPos;
    var lim := dest + curLen;
    newPos := dicPos + curLen;
    while dest != lim
      invariant dicPos <= dest <= lim
      invariant Holds(dic[..], dest, Repeat(hist, rep0, dest - dicPos), dicSize)
      decreases lim - dest
    {
      assert Slot(dest, rep0, dic.Length) == dest + src;
      ghost var before := dic[..];
      CopyStep(before, dest, hist, dicSize, rep0, dest - dicPos);
      dic[dest] := dic[dest + src];
      assert dic[..] == before[dest := before[dest + src]];
      dest := dest + 1;
    }
  }

  /** The other copy: the source wraps to the beginning of the buffer. */
  method CopyAround(dic: array<byte>, dicPos: nat, start: nat, curLen: nat,
                    ghost rep0: nat, ghost hist: seq<byte>, ghost dicSize: nat)
    returns (newPos: nat)
    requires Holds(dic[..], dicPos, hist, dicSize)
    requires 1 <= rep0 <= |hist| && rep0 <= dicSize && 0 < curLen && dicPos + curLen <= dic.Length
    requires start == Slot(dicPos, rep0, dic.Length)
    modifies dic
    ensures newPos == dicPos + curLen
    ensures Holds(dic[..], newPos, Repeat(hist, rep0, curLen), dicSize)
  {
    assert Repeat(hist, rep0, 0) == hist;
    hide Holds, Repeat;
    newPos := dicPos;
    var pos := start;
    var left := curLen;
    while left != 0
      invariant left <= curLen && newPos == dicPos + curLen - left
      invariant left != 0 ==> pos == Slot(newPos, rep0, dic.Length)
      invariant Holds(dic[..], newPos, Repeat(hist, rep0, curLen - left), dicSize)
    {
      ghost var before := dic[..];
      CopyStep(before, newPos, hist, dicSize, rep0, curLen - left);
      dic[newPos] := dic[pos];
      assert dic[..] == before[newPos := before[pos]];
      newPos := newPos + 1;
      pos := pos + 1;
      if pos == dic.Length {
        pos := 0;
      }
      left := left - 1;
    }
  }

  /** The copy of LzmaDec_DecodeReal_3: curLen bytes at distance rep0. */
  method CopyMatch(dic: array<byte>, dicPos: nat, rep0: nat, curLen: nat, ghost hist: seq<byte>, ghost dicSize: nat)
    returns (newPos: nat)
    requires Holds(dic[..], dicPos, hist, dicSize)
    requires 1 <= rep0 <= |hist| && rep0 <= dicSize && 0 < curLen && dicPos + curLen <= dic.Length
    modifies dic
    ensures newPos == dicPos + curLen
    ensures Holds(dic[..], newPos, Repeat(hist, rep0, curLen), dicSize)
  {
    HeldByte(dic[..], dicPos, hist, dicSize, rep0);
    hide Holds, Repeat;
    var pos := dicPos - rep0 + (if dicPos < rep0 then dic.Length else 0);
    if curLen <= dic.Length - pos {
      newPos := CopyForward(dic, dicPos, pos - dicPos, curLen, rep0, hist, dicSize);
    } else {
      newPos := CopyAround(dic, dicPos, pos, curLen, rep0, hist, dicSize);
    }
  }
}
