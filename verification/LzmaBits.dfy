/** The bit-reading macros of LzmaDec.c: with probability updates, and checked without them. */
module LzmaBits {
  import opened Bytes
  import opened RangeCoder
  import opened LzmaSymbol

  /** The local copies of range, code and the read position. */
  datatype Regs = Regs(range: nat, code: nat, buf: nat)

  /** The registers over src and the probabilities in use are those of the walk w. */
  predicate At(probs: seq<int>, src: seq<byte>, r: Regs, w: Walk) {
    && r.buf <= |src|
    && w.rc == Rc(r.range, r.code, src[r.buf..])
    && w.probs <= probs
  }

  /** One bit further, the symbol to come is the same. */
  lemma Advance(c: Ctx, w: Walk, adapt: bool)
    requires WalkOk(c, w) && !w.n.Done? && Decode(c, w, adapt).Decoded?
    ensures CanStep(c, w) && Decode(c, Step(c, w, adapt), adapt) == Decode(c, w, adapt)
  {
  }

  /** At the end of the walk only the final shift is left. */
  lemma Arrive(c: Ctx, w: Walk, adapt: bool)
    requires WalkOk(c, w) && w.n.Done?
    ensures Decode(c, w, adapt) ==
              if NeedsByte(w.rc) then OutOfInput else Decoded(w.n.result, Normalize(w.rc), w.probs)
  {
  }

  /** IF_BIT_0 with UPDATE_0 and UPDATE_1. */
  method GetBit(probs: array<int>, k: nat, src: seq<byte>, r: Regs, ghost c: Ctx, ghost w: Walk)
    returns (r': Regs, bit: bool)
    requires CanStep(c, w) && At(probs[..], src, r, w) && !w.n.Direct? && k == Index(c, w.n)
    modifies probs
    ensures bit == StepBit(c, w) && At(probs[..], src, r', Step(c, w, true)) && r.buf <= r'.buf
  {
    hide NodeOk, Index, Next;
    var ttt := probs[k];
    var range, code, buf := r.range, r.code, r.buf;
    if range < TOP {
      range := range * 0x100;
      code := code * 0x100 % WORD + src[buf];
      assert src[buf..][1..] == src[buf + 1..];
      buf := buf + 1;
    }
    assert Normalize(w.rc) == Rc(range, code, src[buf..]);
    var bound := range / MODEL_TOTAL * ttt;
    assert bound == Bound(range, ttt);
    bit := code >= bound;
    if code < bound {
      range := bound;
      probs[k] := ttt + (MODEL_TOTAL - ttt) / 32;
    } else {
      range := range - bound;
      code := code - bound;
      probs[k] := ttt - ttt / 32;
    }
    r' := Regs(range, code, buf);
  }

  /** One direct bit of a distance: the sign of code - range decides. */
  method GetDirectBit(probs: array<int>, src: seq<byte>, r: Regs, ghost c: Ctx, ghost w: Walk)
    returns (r': Regs, bit: bool)
    requires CanStep(c, w) && At(probs[..], src, r, w) && w.n.Direct?
    ensures bit == StepBit(c, w) && At(probs[..], src, r', Step(c, w, true)) && r.buf <= r'.buf
  {
    hide NodeOk, Next;
    var range, code, buf := r.range, r.code, r.buf;
    if range < TOP {
      range := range * 0x100;
      code := code * 0x100 % WORD + src[buf];
      assert src[buf..][1..] == src[buf + 1..];
      buf := buf + 1;
    }
    assert Normalize(w.rc) == Rc(range, code, src[buf..]);
    range := range / 2;
    code := (code - range) % WORD;
    bit := code < 0x8000_0000;
    if !bit {
      code := (code + range) % WORD;
    }
    r' := Regs(range, code, buf);
  }

  /** IF_BIT_0_CHECK with UPDATE_0_CHECK and UPDATE_1_CHECK. */
  method CheckBit(probs: array<int>, k: nat, src: seq<byte>, r: Regs, ghost c: Ctx, ghost w: Walk)
    returns (ok: bool, r': Regs, bit: bool)
    requires WalkOk(c, w) && At(probs[..], src, r, w) && !w.n.Done? && !w.n.Direct? && k == Index(c, w.n)
    ensures ok == CanStep(c, w)
    ensures ok ==> bit == StepBit(c, w) && At(probs[..], src, r', Step(c, w, false))
  {
    hide NodeOk, Index, Next;
    var ttt := probs[k];
    var range, code, buf := r.range, r.code, r.buf;
    if range < TOP {
      if buf >= |src| {
        return false, r, false;
      }
      range := range * 0x100;
      code := code * 0x100 % WORD + src[buf];
      assert src[buf..][1..] == src[buf + 1..];
      buf := buf + 1;
    }
    assert Normalize(w.rc) == Rc(range, code, src[buf..]);
    var bound := range / MODEL_TOTAL * ttt;
    assert bound == Bound(range, ttt);
    bit := code >= bound;
    if code < bound {
      range := bound;
    } else {
      range := range - bound;
      code := code - bound;
    }
    return true, Regs(range, code, buf), bit;
  }

  lemma SubtractAddBack(code: nat, half: nat)
    requires code < WORD && half < WORD
    ensures ((code - half) % WORD + half) % WORD == code
  {
    if code < half {
      assert (code - half) % WORD == code - half + WORD;
    }
  }

  /** The checked direct bit: code -= range & (((code - range) >> 31) - 1). */
  method CheckDirectBit(probs: array<int>, src: seq<byte>, r: Regs, ghost c: Ctx, ghost w: Walk)
    returns (ok: bool, r': Regs)
    requires WalkOk(c, w) && At(probs[..], src, r, w) && w.n.Direct?
    ensures ok == CanStep(c, w)
    ensures ok ==> At(probs[..], src, r', Step(c, w, false))
  {
    hide NodeOk, Next;
    var range, code, buf := r.range, r.code, r.buf;
    if range < TOP {
      if buf >= |src| {
        return false, r;
      }
      range := range * 0x100;
      code := code * 0x100 % WORD + src[buf];
      assert src[buf..][1..] == src[buf + 1..];
      buf := buf + 1;
    }
    assert Normalize(w.rc) == Rc(range, code, src[buf..]);
    range := range / 2;
    SubtractAddBack(code, range);
    var mask := if (code - range) % WORD < 0x8000_0000 then range else 0;
    code := (code - mask) % WORD;
    return true, Regs(range, code, buf);
  }
}
