/** CLzmaDec: the decoder with its circular dictionary and its carry buffer, updated in place. */
module LzmaDec {
  import opened Arithmetic
  import opened Bytes
  import opened RangeCoder
  import opened LzmaSymbol
  import opened LzmaSymbolFacts
  import opened LzmaModel
  import opened LzmaRun
  import opened LzmaDictionary
  import opened LzmaBits
  import opened LzmaReader
  import opened LzmaLookAhead

  /** How one step of the driver ended; InternalError stands for SZ_ERROR_FAIL. */
  datatype Feed = Starving | Broken | Advanced | InternalError

  /** SZ_OK, SZ_ERROR_DATA, SZ_ERROR_FAIL */
  datatype SRes = Ok | ErrorData | ErrorFail

  /** ELzmaDummy: what the look-ahead found. */
  datatype Dummy = DummyError | DummyLit | DummyMatch | DummyRep

  function DummyClass(r: SymbolResult): Dummy {
    match r
    case OutOfInput => DummyError
    case Decoded(s, _, _) => if s.LitSym? then DummyLit else if s.MatchSym? then DummyMatch else DummyRep
  }

  lemma RemainderTwice(n: nat, m: nat, a: nat, b: nat)
    requires a > 0 && b > 0 && a * b == m
    ensures m > 0 && n % m % a == n % a
  {
    ProductPositive(a, b);
    var k := n / a - b * (n / m);
    ScaleProduct(a, b, n / m);
    assert a * k == a * (n / a) - a * (b * (n / m));
    RemainderIs(n % m, a, k, n % a);
  }

  lemma WordSum(m: nat, n: nat)
    ensures (m % WORD + n) % WORD == (m + n) % WORD
  {
  }

  /** The 32-bit position has the low bits of the unbounded one. */
  lemma PositionLowBits(n: nat, k: nat)
    requires k <= 4
    ensures n % WORD % Pow2(k) == n % Pow2(k)
  {
    Pow2Split(k, 32 - k);
    Pow2Values();
    hide Pow2;
    RemainderTwice(n, WORD, Pow2(k), Pow2(32 - k));
  }

  lemma LitSlotOfWord(p: Props, hist: seq<byte>, last: byte)
    requires PropsOk(p) && hist != [] && last == hist[|hist| - 1]
    ensures |hist| % WORD % Pow2(p.lp) * Pow2(p.lc) + last / Pow2(8 - p.lc) == LitSlot(p, hist)
  {
    PositionLowBits(|hist|, p.lp);
    hide Pow2;
  }

  /** 3 * ((((processedPos << 8) + last) & lpMask) << lc), where lpMask is (0x100 << lp) - (0x100 >> lc). */
  function MaskedTable(p: Props, processedPos: nat, last: byte): int
    requires PropsOk(p)
  {
    var x := processedPos * 0x100 % WORD + last;
    3 * ((x % Pow2(8 + p.lp) - x % Pow2(8 - p.lc)) * Pow2(p.lc))
  }

  lemma MaskedSlot(p: Props, hist: seq<byte>, last: byte)
    requires PropsOk(p) && hist != [] && last == hist[|hist| - 1]
    ensures MaskedTable(p, |hist| % WORD, last) == LIT_SIZE * LitSlot(p, hist)
  {
    var a, b, h := Pow2(p.lp), Pow2(p.lc), Pow2(8 - p.lc);
    assert Pow2(8) == 0x100 && Pow2(4) == 16 by { TreeBounds(8, 8, 1); }
    Pow2Split(8, p.lp);
    Pow2Split(p.lc, 8 - p.lc);
    Pow2Split(p.lp, 24 - p.lp);
    Pow2Split(20, 4);
    Pow2Values();
    hide Pow2;
    PositionLowBits(|hist|, p.lp);
    var pp := |hist| % WORD;
    RemainderTwice(pp, 0x100_0000, a, Pow2(24 - p.lp));
    MaskedArithmetic(pp, a, b, h, last);
  }

  lemma MaskedArithmetic(pp: nat, a: nat, b: nat, h: nat, last: byte)
    requires 0 < a && 0 < b && 0 < h && b * h == 0x100 && pp < WORD
    requires pp % 0x100_0000 % a == pp % a
    ensures var x := pp * 0x100 % WORD + last;
            3 * ((x % (0x100 * a) - x % h) * b) == LIT_SIZE * (pp % a * b + last / h)
  {
    var m := pp % 0x100_0000;
    assert pp * 0x100 % WORD == 0x100 * m;
    KeepLow(m, a, last);
    DropHigh(m, b, h, last);
    var low, high := pp % a, last / h;
    var x := pp * 0x100 % WORD + last;
    assert x % (0x100 * a) == 0x100 * low + last && x % h == last % h;
    DivisionParts(last, h);
    MaskedProduct(low, h, high, b);
    assert x % (0x100 * a) - x % h == 0x100 * low + h * high;
  }

  lemma KeepLow(m: nat, a: nat, last: byte)
    requires a > 0
    ensures 0x100 * a > 0 && (0x100 * m + last) % (0x100 * a) == 0x100 * (m % a) + last
  {
    var k, low := m / a, m % a;
    DivisionParts(m, a);
    ScaleProduct(0x100, a, k);
    RemainderIs(0x100 * m + last, 0x100 * a, k, 0x100 * low + last);
  }

  lemma DropHigh(m: nat, b: nat, h: nat, last: byte)
    requires b > 0 && h > 0 && b * h == 0x100
    ensures (0x100 * m + last) % h == last % h
  {
    ScaleProduct(h, b, m);
    ScaleProduct(b, h, m);
    DivisionParts(last, h);
    assert h * (b * m + last / h) == h * (b * m) + h * (last / h);
    RemainderIs(0x100 * m + last, h, b * m + last / h, last % h);
  }

  lemma MaskedProduct(low: int, h: int, high: int, b: int)
    requires b * h == 0x100
    ensures (0x100 * low + h * high) * b == 0x100 * (low * b + high)
  {
    ScaleProduct(h, high, b);
    assert (0x100 * low + h * high) * b == (0x100 * low) * b + (h * high) * b;
    ScaleProduct(0x100, low, b);
    ScaleProduct(b, h, high);
  }

  /** A repeated match copied as far as the limit. */
  function RepTaken(e: Dec, which: nat, len: nat, limit: nat): Dec
    requires e.hist != [] && RepsOk(e) && which < 4
  {
    Flush(Applied(e, RepSym(which, len)), limit)
  }

  /** A match copied as far as the limit. */
  function MatchTaken(e: Dec, len: nat, distance: nat, limit: nat): Dec
    requires distance < Reach(e) && distance != END_MARK
  {
    Flush(Applied(e, MatchSym(len, distance)), limit)
  }

  /** A symbol the dictionary and the output space can take. */
  predicate SymbolFits(d: Dec, sym: Symbol, room: bool) {
    sym.MatchSym? ==> sym.dist == END_MARK || (sym.dist < Reach(d) && room)
  }

  predicate SymbolPossible(d: Dec, sym: Symbol) {
    (sym.ShortRepSym? || sym.RepSym? ==> d.hist != [] && RepsOk(d)) && (sym.RepSym? ==> sym.which < 4)
  }

  /** The state d after the symbol, its match copied as far as the limit. */
  function Landing(d: Dec, goal: SymbolResult, limit: nat): Dec
    requires goal.Decoded? && SymbolFits(d, goal.sym, true)
    requires SymbolPossible(d, goal.sym)
  {
    var e := WithCoder(d, goal.rc, goal.probs);
    match goal.sym
    case LitSym(b) => e.(hist := e.hist + [b], state := LitState(e.state))
    case ShortRepSym => Applied(e, ShortRepSym)
    case RepSym(which, len) => RepTaken(e, which, len, limit)
    case MatchSym(len, distance) =>
      if distance == END_MARK then e.(remain := FINISHED) else MatchTaken(e, len, distance, limit)
  }

  predicate DictOk(dic: seq<byte>, dicPos: nat, hist: seq<byte>, dicSize: nat, processedPos: nat, checkDicSize: nat) {
    && Holds(dic, dicPos, hist, dicSize)
    && processedPos == |hist| % WORD
    && (checkDicSize == 0 || checkDicSize == dicSize)
    && (if checkDicSize == 0 then |hist| <= dicSize else dicSize <= |hist|)
  }

  lemma DictAppend(dic: seq<byte>, dicPos: nat, hist: seq<byte>, dicSize: nat, processedPos: nat, checkDicSize: nat, b: byte)
    requires DictOk(dic, dicPos, hist, dicSize, processedPos, checkDicSize) && dicPos < |dic|
    requires checkDicSize == 0 ==> |hist| < dicSize
    ensures DictOk(dic[dicPos := b], dicPos + 1, hist + [b], dicSize, (processedPos + 1) % WORD, checkDicSize)
  {
    HoldsAppend(dic, dicPos, hist, dicSize, b);
    WordSum(|hist|, 1);
    hide Holds;
  }

  function Overwritten(dic: seq<byte>, pos: nat, src: seq<byte>): (r: seq<byte>)
    requires pos + |src| <= |dic|
    ensures |r| == |dic|
  {
    dic[..pos] + src + dic[pos + |src|..]
  }

  lemma {:induction false} HoldsOverwritten(dic: seq<byte>, dicPos: nat, hist: seq<byte>, dicSize: nat, src: seq<byte>)
    requires Holds(dic, dicPos, hist, dicSize) && dicPos + |src| <= |dic|
    ensures Holds(Overwritten(dic, dicPos, src), dicPos + |src|, hist + src, dicSize)
    decreases |src|
  {
    hide Holds;
    if src == [] {
      assert Overwritten(dic, dicPos, src) == dic && hist + src == hist;
    } else {
      HoldsAppend(dic, dicPos, hist, dicSize, src[0]);
      HoldsOverwritten(dic[dicPos := src[0]], dicPos + 1, hist + [src[0]], dicSize, src[1..]);
      assert Overwritten(dic, dicPos, src) == Overwritten(dic[dicPos := src[0]], dicPos + 1, src[1..]);
      assert hist + src == hist + [src[0]] + src[1..];
    }
  }

  lemma UncompressedOk(dic: seq<byte>, dicPos: nat, hist: seq<byte>, dicSize: nat, processedPos: nat, checkDicSize: nat,
                       src: seq<byte>)
    requires DictOk(dic, dicPos, hist, dicSize, processedPos, checkDicSize) && dicPos + |src| <= |dic| && dicSize < WORD
    requires checkDicSize == 0 ==> |hist| < dicSize
    ensures var check := if checkDicSize == 0 && dicSize - processedPos <= |src| then dicSize else checkDicSize;
            && DictOk(Overwritten(dic, dicPos, src), dicPos + |src|, hist + src, dicSize, (processedPos + |src|) % WORD, check)
            && (check == 0 ==> |hist + src| < dicSize)
  {
    HoldsOverwritten(dic, dicPos, hist, dicSize, src);
    WordSum(|hist|, |src|);
    SmallPosition(|hist|);
    hide Holds;
  }

  /** LzmaDec_Allocate: the dictionary buffer is a little larger than the dictionary. */
  function DicBufSize(dicSize: nat): (size: nat)
    ensures dicSize <= size < dicSize + 0x40_0000
    ensures dicSize >= 0x1000 ==> size % 0x1000 == 0
  {
    var unit := if dicSize >= 0x4000_0000 then 0x40_0000 else if dicSize >= 0x40_0000 then 0x10_0000 else 0x1000;
    (dicSize + unit - 1) / unit * unit
  }

  class Decoder {
    var prop: Props
    const probs: array<int>
    const dic: array<byte>
    const tempBuf: array<byte>
    var dicPos: nat
    var buf: nat
    var range: nat
    var code: nat
    var processedPos: nat
    var checkDicSize: nat
    var rep0: nat
    var rep1: nat
    var rep2: nat
    var rep3: nat
    var state: nat
    var remainLen: nat
    var tempBufSize: nat
    ghost var hist: seq<byte>

    ghost predicate Shape()
      reads this`prop
    {
      && PropsOk(prop)
      && NumProbs(prop) <= probs.Length
      && tempBuf.Length == REQUIRED_INPUT_MAX
      && dic != tempBuf
    }

    /** The state on values; the carry buffer is not part of it. */
    ghost function Abs(): Dec
      requires Shape()
      reads this`prop, this`state, this`rep0, this`rep1, this`rep2, this`rep3, this`range, this`code, this`remainLen,
            this`hist, probs
    {
      Dec(prop, probs[..NumProbs(prop)], state, rep0, rep1, rep2, rep3, range, code, remainLen, hist)
    }

    /** The dictionary, the 32-bit position and the distance limit all stand for the history. */
    ghost predicate Dictionary()
      reads this`prop, this`dicPos, this`processedPos, this`checkDicSize, this`hist, dic
    {
      DictOk(dic[..], dicPos, hist, prop.dicSize, processedPos, checkDicSize)
    }

    ghost predicate Valid()
      reads this`prop, this`dicPos, this`processedPos, this`checkDicSize, this`hist, dic
    {
      Shape() && Dictionary() && (checkDicSize == 0 ==> |hist| < prop.dicSize)
    }

    /** The byte before dicPos. */
    method LastByte() returns (b: byte)
      requires Shape() && Dictionary() && hist != []
      ensures b == hist[|hist| - 1]
    {
      HeldByte(dic[..], dicPos, hist, prop.dicSize, 1);
      b := dic[(if dicPos == 0 then dic.Length else dicPos) - 1];
    }

    method ByteAt(rep: nat) returns (b: byte)
      requires Shape() && Dictionary() && 1 <= rep <= |hist| && rep <= prop.dicSize
      ensures b == hist[|hist| - rep]
    {
      HeldByte(dic[..], dicPos, hist, prop.dicSize, rep);
      b := dic[dicPos - rep + (if dicPos < rep then dic.Length else 0)];
    }

    lemma DictPosition()
      requires Shape() && Dictionary()
      ensures PropsOk(prop) && processedPos == |hist| % WORD
      ensures checkDicSize != 0 || processedPos != 0 <==> hist != []
    {
      SmallPosition(|hist|);
      hide Holds, NumProbs;
    }

    /** The literal table as the look-ahead computes it. */
    method DummyLitTable() returns (prob: nat)
      requires Shape() && Dictionary()
      ensures prob == LitTable(prop, hist)
    {
      DictPosition();
      LitTableIs(prop, hist);
      hide Dictionary, DictOk, Holds, LitTable, LitSlot, NumProbs, Pow2;
      prob := LITERAL;
      if checkDicSize != 0 || processedPos != 0 {
        var last := LastByte();
        LitSlotOfWord(prop, hist, last);
        prob := prob + LIT_SIZE * (processedPos % Pow2(prop.lp) * Pow2(prop.lc) + last / Pow2(8 - prop.lc));
      }
    }

    method PeekLiteralSymbol(src: seq<byte>, r: Regs, ghost c: Ctx, ghost v: Walk, ghost goal: SymbolResult)
      returns (ok: bool, r': Regs, ghost v': Walk)
      requires Shape() && Dictionary() && Ready(Abs()) && c == CtxOf(Abs())
      requires Peeking(probs, src, r, c, v, goal) && v.n == Next(c, IsMatch, false)
      ensures !ok ==> goal.OutOfInput?
      ensures ok ==> Peeking(probs, src, r', c, v', goal) && v'.n.Done? && v'.n.result.LitSym?
    {
      hide Decode, LitTable, Holds, Peeking;
      var prob := DummyLitTable();
      if state < 7 {
        ok, r', v' := PeekLiteral(probs, prob, src, r, c, v, goal);
      } else {
        var matchByte := ByteAt(rep0);
        ok, r', v' := PeekMatchedLiteral(probs, prob, matchByte, src, r, c, v, goal);
      }
    }

    /** LzmaDec_TryDummy finds what the decoder would, touching nothing. */
    method TryDummy(src: seq<byte>) returns (res: Dummy)
      requires Shape() && Dictionary() && Ready(Abs())
      ensures res == DummyClass(NextSymbol(Abs(), src))
    {
      ghost var c, v := CtxOf(Abs()), StartWalk(Abs(), src);
      ghost var goal := Decode(c, v, false);
      LookAheadAgrees(c, v, v.probs);
      PositionLowBits(|hist|, prop.pb);
      var posState := processedPos % Pow2(prop.pb) * 16;
      assert Index(c, IsMatch) == IS_MATCH + posState + state;
      assert v.probs <= probs[..];
      assert Peeking(probs, src, Regs(range, code, 0), c, v, goal);
      hide Decode, NodeOk, Index, Next, DecOk, Holds;
      var r := Regs(range, code, 0);
      var ok, bit;
      ok, r, bit, v := PeekBit(probs, IS_MATCH + posState + state, src, r, c, v, goal);
      if !ok {
        return DummyError;
      }
      if !bit {
        res := DummyLit;
        ok, r, v := PeekLiteralSymbol(src, r, c, v, goal);
      } else {
        ok, r, res, v := PeekMatchSymbol(state, posState, src, r, c, v, goal);
      }
      if !ok {
        return DummyError;
      }
      Arrive(c, v, false);
      if r.range < TOP && r.buf >= |src| {
        return DummyError;
      }
    }

    /** The look-ahead over everything but a literal. */
    method PeekMatchSymbol(state: nat, posState: nat, src: seq<byte>, r: Regs,
                           ghost c: Ctx, ghost v: Walk, ghost goal: SymbolResult)
      returns (ok: bool, r': Regs, res: Dummy, ghost v': Walk)
      requires Peeking(probs, src, r, c, v, goal) && v.n == IsRep && c.state == state && c.posState == posState
      ensures !ok ==> goal.OutOfInput?
      ensures ok ==> Peeking(probs, src, r', c, v', goal) && v'.n.Done? &&
                     res == (if v'.n.result.MatchSym? then DummyMatch else DummyRep) && !v'.n.result.LitSym?
    {
      RepSteps(c);
      hide Decode, NodeOk, Index, Next, At, ProbsOk;
      var bit, len;
      res := DummyMatch;
      ok, r', bit, v' := PeekBit(probs, IS_REP + state, src, r, c, v, goal);
      if !ok {
        return;
      }
      if !bit {
        ok, r', len, v' := PeekLen(probs, LEN_CODER, posState, src, r', ForMatch, c, v', goal);
        if !ok {
          return;
        }
        ok, r', v' := PeekDistance(probs, len, src, r', c, v', goal);
      } else {
        res := DummyRep;
        ok, r', v' := PeekRep(probs, state, posState, src, r', c, v', goal);
      }
    }

    // ---------- The decoder ----------

    /** The literal table as the decoder computes it; & lpMask keeps the bits from 8 - lc to 7 + lp. */
    method RealLitTable() returns (prob: nat)
      requires Shape() && Dictionary()
      ensures prob == LitTable(prop, hist)
    {
      DictPosition();
      LitTableIs(prop, hist);
      hide Dictionary, DictOk, Holds, LitTable, LitSlot, NumProbs, Pow2;
      prob := LITERAL;
      if processedPos != 0 || checkDicSize != 0 {
        var last := LastByte();
        MaskedSlot(prop, hist, last);
        hide MaskedTable;
        prob := prob + MaskedTable(prop, processedPos, last);
      }
    }

    /** The registers and fields stand for d, with a shift perhaps still to come, and x is unread. */
    ghost predicate Stands(src: seq<byte>, d: Dec, x: seq<byte>)
      reads this, probs
    {
      && Shape() && buf <= |src|
      && var rc := Rc(range, code, src[buf..]);
         RcOk(rc) && !NeedsByte(rc) &&
         d == WithCoder(Abs(), Normalize(rc), Abs().probs) && x == Normalize(rc).rest
    }

    /** A bit reads the same before and after the pending shift. */
    lemma PendingShift(src: seq<byte>, d: Dec, x: seq<byte>)
      requires Stands(src, d, x) && Ready(d) && NextSymbol(d, x).Decoded?
      ensures var v := Walk(IsMatch, Rc(range, code, src[buf..]), Abs().probs);
              Heading(probs, src, Regs(range, code, buf), CtxOf(d), v, NextSymbol(d, x)) && |v.probs| == NumProbs(prop)
    {
      var c := CtxOf(d);
      var v := Walk(IsMatch, Rc(range, code, src[buf..]), Abs().probs);
      var u := StartWalk(d, x);
      assert Normalize(u.rc) == u.rc == Normalize(v.rc);
      assert Step(c, v, true) == Step(c, u, true);
    }

    method StoreRegs(r: Regs)
      modifies this`range, this`code, this`buf
      ensures range == r.range && code == r.code && buf == r.buf
    {
      range, code, buf := r.range, r.code, r.buf;
    }

    method ReadLiteralSymbol(src: seq<byte>, r: Regs, ghost d: Dec, ghost v: Walk, ghost goal: SymbolResult)
      returns (r': Regs, symbol: byte, ghost v': Walk)
      requires Shape() && Dictionary() && Ready(d) && d.hist == hist && d.props == prop && d.state == state && d.rep0 == rep0
      requires Heading(probs, src, r, CtxOf(d), v, goal) && v.n == Next(CtxOf(d), IsMatch, false)
      modifies probs
      ensures Heading(probs, src, r', CtxOf(d), v', goal) && |v'.probs| == |v.probs| && r.buf <= r'.buf
      ensures v'.n == Done(LitSym(symbol))
    {
      hide *;
      LiteralNode(d);
      ghost var c := CtxOf(d);
      var prob := RealLitTable();
      var s;
      if state < 7 {
        r', s, v' := ReadLiteral(probs, prob, src, r, c, v, goal);
      } else {
        var matchByte := ByteAt(rep0);
        r', s, v' := ReadMatchedLiteral(probs, prob, matchByte, src, r, c, v, goal);
      }
      symbol := s - 0x100;
    }

    /** dic[dicPos++] = symbol */
    method PutByte(b: byte)
      requires Shape() && Dictionary() && dicPos < dic.Length
      requires checkDicSize == 0 ==> |hist| < prop.dicSize
      modifies this`dicPos, this`processedPos, this`hist, dic
      ensures Dictionary() && hist == old(hist) + [b] && dicPos == old(dicPos) + 1
    {
      DictAppend(dic[..], dicPos, hist, prop.dicSize, processedPos, checkDicSize, b);
      hide DictOk, NumProbs, PropsOk;
      ghost var before := dic[..];
      dic[dicPos] := b;
      assert dic[..] == before[dicPos := b];
      dicPos := dicPos + 1;
      processedPos := (processedPos + 1) % WORD;
      hist := hist + [b];
    }

    /** The most recent distance moves to the front. */
    method RotateReps(which: nat)
      requires which < 4
      modifies this`rep0, this`rep1, this`rep2, this`rep3
      ensures which == 0 ==> rep0 == old(rep0) && rep1 == old(rep1) && rep2 == old(rep2) && rep3 == old(rep3)
      ensures which == 1 ==> rep0 == old(rep1) && rep1 == old(rep0) && rep2 == old(rep2) && rep3 == old(rep3)
      ensures which == 2 ==> rep0 == old(rep2) && rep1 == old(rep0) && rep2 == old(rep1) && rep3 == old(rep3)
      ensures which == 3 ==> rep0 == old(rep3) && rep1 == old(rep0) && rep2 == old(rep1) && rep3 == old(rep2)
    {
      if which != 0 {
        var distance;
        if which == 1 {
          distance := rep1;
        } else {
          if which == 2 {
            distance := rep2;
          } else {
            distance := rep3;
            rep3 := rep2;
          }
          rep2 := rep1;
        }
        rep1 := rep0;
        rep0 := distance;
      }
    }

    /** The copy at the end of a match of length len, as far as limit; the rest stays in remainLen. */
    method StartCopy(len: nat, limit: nat)
      requires Shape() && Dictionary() && dicPos < limit <= dic.Length && 1 <= rep0 <= Reach(Abs()) && len > 0
      requires checkDicSize == 0 ==> |hist| + (limit - dicPos) <= prop.dicSize
      modifies this`dicPos, this`processedPos, this`remainLen, this`hist, dic
      ensures Dictionary() && dicPos <= limit && |hist| - dicPos == old(|hist| - dicPos)
      ensures var n := if old(limit - dicPos) < len then old(limit - dicPos) else len;
              hist == Repeat(old(hist), rep0, n) && remainLen == len - n
    {
      var rem := limit - dicPos;
      var curLen := if rem < len then rem else len;
      WordSum(|hist|, curLen);
      assert Holds(dic[..], dicPos, hist, prop.dicSize) && dicPos + curLen <= dic.Length;
      hide Holds, Repeat, NumProbs;
      processedPos := (processedPos + curLen) % WORD;
      remainLen := len - curLen;
      dicPos := CopyMatch(dic, dicPos, rep0, curLen, hist, prop.dicSize);
      hist := Repeat(hist, rep0, curLen);
    }

    /** A repeated match, after its IsRep bit. */
    method ReadRepSymbol(src: seq<byte>, r: Regs, posState: nat, ghost c: Ctx, ghost v: Walk, ghost goal: SymbolResult)
      returns (r': Regs, short: bool, which: nat, len: nat, ghost v': Walk)
      requires Heading(probs, src, r, c, v, goal) && v.n == RepG0 && c.state == state && c.posState == posState
      modifies probs
      ensures Heading(probs, src, r', c, v', goal) && |v'.probs| == |v.probs| && r.buf <= r'.buf && which < 4
      ensures v'.n == Done(if short then ShortRepSym else RepSym(which, len)) && len < 272
    {
      RepSteps(c);
      assert CtxOk(c) && LenBase(ForRep(0)) == REP_LEN_CODER;
      hide *;
      var bit;
      which, len, short := 0, 0, false;
      r', bit, v' := ReadBit(probs, IS_REP_G0 + state, src, r, c, v, goal);
      if !bit {
        r', bit, v' := ReadBit(probs, IS_REP0_LONG + posState + state, src, r', c, v', goal);
        if !bit {
          short := true;
          return;
        }
      } else {
        r', bit, v' := ReadBit(probs, IS_REP_G1 + state, src, r', c, v', goal);
        which := 1;
        if bit {
          r', bit, v' := ReadBit(probs, IS_REP_G2 + state, src, r', c, v', goal);
          which := if bit then 3 else 2;
        }
      }
      r', len, v' := ReadLen(probs, REP_LEN_CODER, posState, src, r', ForRep(which), c, v', goal);
      AfterRepLen(which, len);
    }

    /** With the registers stored, the fields stand for the state after the symbol's bits. */
    lemma SymbolRead(src: seq<byte>, r: Regs, c: Ctx, v: Walk, goal: SymbolResult)
      requires Shape() && Heading(probs, src, r, c, v, goal) && v.n.Done? && |v.probs| == NumProbs(prop)
      requires range == r.range && code == r.code && buf == r.buf
      ensures goal == Decoded(v.n.result, Normalize(v.rc), v.probs)
      ensures Stands(src, WithCoder(Abs(), goal.rc, goal.probs), goal.rc.rest)
    {
      Arrive(c, v, true);
    }

    /** A literal, after its bits: the state and the byte. */
    method TakeLiteral(src: seq<byte>, b: byte, ghost e: Dec, ghost x: seq<byte>)
      requires Stands(src, e, x) && Dictionary() && dicPos < dic.Length
      requires checkDicSize == 0 ==> |hist| < prop.dicSize
      modifies this`state, this`dicPos, this`processedPos, this`hist, dic
      ensures Dictionary() && Stands(src, e.(hist := e.hist + [b], state := LitState(e.state)), x)
      ensures dicPos == old(dicPos) + 1 && |hist| == |old(hist)| + 1
    {
      hide Holds, Normalize, NumProbs;
      if state < 7 {
        state := state - (if state < 4 then state else 3);
      } else {
        state := state - (if state < 10 then 3 else 6);
      }
      PutByte(b);
    }

    /** A short repeated match: one byte. */
    method TakeShortRep(src: seq<byte>, ghost e: Dec, ghost x: seq<byte>)
      requires Stands(src, e, x) && Dictionary() && dicPos < dic.Length && 1 <= rep0 <= Reach(e)
      requires checkDicSize == 0 ==> |hist| < prop.dicSize
      modifies this`state, this`dicPos, this`processedPos, this`hist, dic
      ensures Dictionary() && Stands(src, Applied(e, ShortRepSym), x)
      ensures dicPos == old(dicPos) + 1 && |hist| == |old(hist)| + 1
    {
      hide Holds, Normalize, NumProbs;
      var b := ByteAt(rep0);
      PutByte(b);
      state := if state < 7 then 9 else 11;
    }

    /** The copy of a match whose distances and state are already stored. */
    method CopyTaken(src: seq<byte>, len: nat, limit: nat, ghost f: Dec, ghost x: seq<byte>)
      requires Stands(src, f.(remain := 0), x) && f.remain == len && 0 < len < FINISHED
      requires Dictionary() && dicPos < limit <= dic.Length && 1 <= f.rep0 <= Reach(f)
      requires checkDicSize == 0 ==> |hist| + (limit - dicPos) <= prop.dicSize
      modifies this`dicPos, this`processedPos, this`remainLen, this`hist, dic
      ensures Dictionary() && dicPos <= limit && |hist| - dicPos == old(|hist| - dicPos)
      ensures Stands(src, Flush(f, |f.hist| + (limit - old(dicPos))), x)
    {
      hide Holds, Normalize, NumProbs, Repeat;
      StartCopy(len, limit);
    }

    method StoreRep(src: seq<byte>, which: nat, len: nat, ghost e: Dec, ghost x: seq<byte>)
      requires Stands(src, e, x) && e.remain == 0 && which < 4
      modifies this`rep0, this`rep1, this`rep2, this`rep3, this`state
      ensures Stands(src, Applied(e, RepSym(which, len)).(remain := 0), x)
    {
      hide Normalize, NumProbs;
      RotateReps(which);
      state := if state < 7 then 8 else 11;
    }

    method StoreMatch(src: seq<byte>, len: nat, distance: nat, ghost e: Dec, ghost x: seq<byte>)
      requires Stands(src, e, x) && e.remain == 0 && distance != END_MARK
      modifies this`rep0, this`rep1, this`rep2, this`rep3, this`state
      ensures Stands(src, Applied(e, MatchSym(len, distance)).(remain := 0), x)
    {
      hide Normalize, NumProbs;
      rep3 := rep2;
      rep2 := rep1;
      rep1 := rep0;
      rep0 := distance + 1;
      state := if state < 7 then 7 else 10;
    }

    /** A repeated match of len + 2 bytes. */
    method TakeRep(src: seq<byte>, which: nat, len: nat, limit: nat, ghost e: Dec, ghost x: seq<byte>)
      requires Stands(src, e, x) && Dictionary() && dicPos < limit <= dic.Length && which < 4
      requires e.remain == 0 && len < 272 && e.hist != [] && RepsOk(e)
      requires checkDicSize == 0 ==> |hist| + (limit - dicPos) <= prop.dicSize
      modifies this`rep0, this`rep1, this`rep2, this`rep3, this`state, this`dicPos, this`processedPos,
               this`remainLen, this`hist, dic
      ensures Dictionary() && dicPos <= limit && |hist| - dicPos == old(|hist| - dicPos)
      ensures Stands(src, RepTaken(e, which, len, |e.hist| + (limit - old(dicPos))), x)
    {
      ghost var f := Applied(e, RepSym(which, len));
      assert f.remain == len + 2 && 1 <= f.rep0 <= Reach(f) && f.hist == e.hist;
      hide Applied, Holds, Normalize, NumProbs, RepsOk, Flush;
      StoreRep(src, which, len, e, x);
      CopyTaken(src, len + 2, limit, f, x);
    }

    /** A match: the distance is checked after it is stored, and the end marker stores none. */
    method TakeMatch(src: seq<byte>, len: nat, distance: nat, limit: nat, ghost e: Dec, ghost x: seq<byte>)
      returns (ok: bool)
      requires Stands(src, e, x) && Dictionary() && dicPos <= limit <= dic.Length
      requires e.remain == 0 && len < 272
      requires checkDicSize == 0 ==> |hist| + (limit - dicPos) <= prop.dicSize
      modifies this`rep0, this`rep1, this`rep2, this`rep3, this`state, this`dicPos, this`processedPos,
               this`remainLen, this`hist, dic
      ensures ok <==> distance == END_MARK || (distance < Reach(e) && old(dicPos) < limit)
      ensures Dictionary() && dicPos <= limit && |hist| - dicPos == old(|hist| - dicPos) && (!ok ==> hist == old(hist))
      ensures ok && distance == END_MARK ==> Stands(src, e.(remain := FINISHED), x)
      ensures ok && distance != END_MARK ==>
                Stands(src, MatchTaken(e, len, distance, |e.hist| + (limit - old(dicPos))), x)
    {
      ghost var f := Applied(e, MatchSym(len, distance));
      assert distance != END_MARK ==> f.remain == len + 2 && f.rep0 == distance + 1 && f.hist == e.hist && Reach(f) == Reach(e);
      assert Reach(e) == if checkDicSize == 0 then processedPos else checkDicSize by { SmallPosition(|hist|); }
      hide Applied, Holds, Normalize, NumProbs, RepsOk, Flush;
      if distance == END_MARK {
        remainLen := FINISHED;
        return true;
      }
      StoreMatch(src, len, distance, e, x);
      if distance >= (if checkDicSize == 0 then processedPos else checkDicSize) {
        return false;
      }
      if limit - dicPos == 0 {
        return false;
      }
      CopyTaken(src, len + 2, limit, f, x);
      return true;
    }

    /** The fields outside the range coder are those of d. */
    ghost predicate Same(d: Dec)
      reads this
    {
      && Shape()
      && d.props == prop && d.state == state && d.remain == remainLen && d.hist == hist
      && d.rep0 == rep0 && d.rep1 == rep1 && d.rep2 == rep2 && d.rep3 == rep3
    }

    /** SymbolRead, for fields that are those of d. */
    lemma SameRead(src: seq<byte>, r: Regs, d: Dec, c: Ctx, v: Walk, goal: SymbolResult)
      requires Same(d) && Heading(probs, src, r, c, v, goal) && v.n.Done? && |v.probs| == NumProbs(prop)
      requires range == r.range && code == r.code && buf == r.buf
      ensures goal.Decoded? && goal.sym == v.n.result
      ensures Stands(src, WithCoder(d, goal.rc, goal.probs), goal.rc.rest)
    {
      SymbolRead(src, r, c, v, goal);
    }

    method OneLiteral(src: seq<byte>, r: Regs, ghost limit: nat, ghost d: Dec, ghost v: Walk, ghost goal: SymbolResult)
      requires Same(d) && Ready(d) && Dictionary() && dicPos < dic.Length
      requires Heading(probs, src, r, CtxOf(d), v, goal) && v.n == Next(CtxOf(d), IsMatch, false)
      requires |v.probs| == NumProbs(prop) && (checkDicSize == 0 ==> |hist| < prop.dicSize)
      modifies this`state, this`dicPos, this`processedPos, this`hist, this`range, this`code, this`buf, probs, dic
      ensures goal.Decoded? && goal.sym.LitSym? && Dictionary()
      ensures dicPos == old(dicPos) + 1 && |hist| == |old(hist)| + 1
      ensures Stands(src, Landing(d, goal, limit), goal.rc.rest) && r.buf <= buf
    {
      hide Heading, Holds, Normalize, NumProbs, Decode, Next, LitTable;
      var r', symbol;
      ghost var v';
      r', symbol, v' := ReadLiteralSymbol(src, r, d, v, goal);
      StoreRegs(r');
      SameRead(src, r', d, CtxOf(d), v', goal);
      hide CtxOf, Ready;
      TakeLiteral(src, symbol, WithCoder(d, goal.rc, goal.probs), goal.rc.rest);
    }

    /** The bits of a match, after its IsRep bit. */
    method MatchBits(src: seq<byte>, r: Regs, posState: nat, ghost d: Dec, ghost v: Walk, ghost goal: SymbolResult)
      returns (len: nat, distance: nat)
      requires Same(d) && Ready(d)
      requires Heading(probs, src, r, CtxOf(d), v, goal) && v.n == LenChoice(ForMatch) && posState == CtxOf(d).posState
      requires |v.probs| == NumProbs(prop)
      modifies this`range, this`code, this`buf, probs
      ensures goal.Decoded? && goal.sym == MatchSym(len, distance) && len < 272
      ensures Stands(src, WithCoder(d, goal.rc, goal.probs), goal.rc.rest) && r.buf <= buf
    {
      hide Heading, Normalize, NumProbs, Decode, CtxOf, AfterLen;
      var r';
      ghost var v';
      r', len, v' := ReadLen(probs, LEN_CODER, posState, src, r, ForMatch, CtxOf(d), v, goal);
      r', distance, v' := ReadDistance(probs, len, src, r', CtxOf(d), v', goal);
      StoreRegs(r');
      SameRead(src, r', d, CtxOf(d), v', goal);
    }

    method OneMatch(src: seq<byte>, r: Regs, posState: nat, limit: nat, ghost d: Dec, ghost v: Walk, ghost goal: SymbolResult)
      returns (ok: bool)
      requires Same(d) && Ready(d) && Dictionary() && dicPos <= limit <= dic.Length
      requires Heading(probs, src, r, CtxOf(d), v, goal) && v.n == LenChoice(ForMatch) && posState == CtxOf(d).posState
      requires |v.probs| == NumProbs(prop) && (checkDicSize == 0 ==> |hist| + (limit - dicPos) <= prop.dicSize)
      modifies this`rep0, this`rep1, this`rep2, this`rep3, this`state, this`dicPos, this`processedPos,
               this`remainLen, this`hist, this`range, this`code, this`buf, probs, dic
      ensures goal.Decoded? && goal.sym.MatchSym?
      ensures ok <==> SymbolFits(d, goal.sym, old(dicPos) < limit)
      ensures Dictionary() && dicPos <= limit && |hist| - dicPos == old(|hist| - dicPos) && (!ok ==> hist == old(hist))
      ensures ok ==> Stands(src, Landing(d, goal, |d.hist| + (limit - old(dicPos))), goal.rc.rest) && r.buf <= buf
    {
      hide Holds, Normalize, NumProbs, Decode, CtxOf, Applied, Flush;
      var len, distance := MatchBits(src, r, posState, d, v, goal);
      ok := TakeMatch(src, len, distance, limit, WithCoder(d, goal.rc, goal.probs), goal.rc.rest);
      assert goal.sym == MatchSym(len, distance);
    }

    /** The bits of a repeated match, after its IsRep bit. */
    method RepBits(src: seq<byte>, r: Regs, posState: nat, ghost d: Dec, ghost v: Walk, ghost goal: SymbolResult)
      returns (short: bool, which: nat, len: nat)
      requires Same(d) && Ready(d)
      requires Heading(probs, src, r, CtxOf(d), v, goal) && v.n == RepG0 && posState == CtxOf(d).posState
      requires |v.probs| == NumProbs(prop)
      modifies this`range, this`code, this`buf, probs
      ensures goal.Decoded? && goal.sym == (if short then ShortRepSym else RepSym(which, len)) && which < 4 && len < 272
      ensures Stands(src, WithCoder(d, goal.rc, goal.probs), goal.rc.rest) && r.buf <= buf
    {
      assert CtxOf(d).state == state;
      hide Heading, Normalize, NumProbs, Decode, CtxOf;
      var r';
      ghost var v';
      r', short, which, len, v' := ReadRepSymbol(src, r, posState, CtxOf(d), v, goal);
      StoreRegs(r');
      SameRead(src, r', d, CtxOf(d), v', goal);
    }

    method OneRep(src: seq<byte>, r: Regs, posState: nat, limit: nat, ghost d: Dec, ghost v: Walk, ghost goal: SymbolResult)
      requires Same(d) && Ready(d) && d.hist != [] && Dictionary() && dicPos < limit <= dic.Length
      requires Heading(probs, src, r, CtxOf(d), v, goal) && v.n == RepG0 && posState == CtxOf(d).posState
      requires |v.probs| == NumProbs(prop) && (checkDicSize == 0 ==> |hist| + (limit - dicPos) <= prop.dicSize)
      modifies this`rep0, this`rep1, this`rep2, this`rep3, this`state, this`dicPos, this`processedPos,
               this`remainLen, this`hist, this`range, this`code, this`buf, probs, dic
      ensures goal.Decoded? && (goal.sym.ShortRepSym? || goal.sym.RepSym?)
      ensures Dictionary() && dicPos <= limit && |hist| - dicPos == old(|hist| - dicPos)
      ensures SymbolPossible(d, goal.sym) && r.buf <= buf
      ensures Stands(src, Landing(d, goal, |d.hist| + (limit - old(dicPos))), goal.rc.rest)
    {
      hide Holds, Normalize, NumProbs, Decode, CtxOf, Heading;
      var short, which, len := RepBits(src, r, posState, d, v, goal);
      ghost var e := WithCoder(d, goal.rc, goal.probs);
      assert e.remain == 0 && RepsOk(e) && e.hist == hist && 1 <= rep0 <= Reach(e);
      hide Stands, Reach, WithCoder, Ready, RepsOk;
      if short {
        TakeShortRep(src, e, goal.rc.rest);
      } else {
        hide Applied, Flush;
        TakeRep(src, which, len, limit, e, goal.rc.rest);
      }
    }

    /**
     The body of the symbol loop.  d and x are the state and the unread input once a pending
     shift is done; the new fields stand for the state after the symbol, copied up to limit.
     */
    method DecodeOne(src: seq<byte>, limit: nat, ghost d: Dec, ghost x: seq<byte>) returns (ok: bool)
      requires Stands(src, d, x) && Ready(d) && !BadStart(d) && NextSymbol(d, x).Decoded?
      requires Dictionary() && dicPos <= limit <= dic.Length
      requires dicPos == limit ==> NextSymbol(d, x).sym.MatchSym?
      requires checkDicSize == 0 ==> |hist| + (limit - dicPos) <= prop.dicSize
      modifies this`rep0, this`rep1, this`rep2, this`rep3, this`state, this`dicPos, this`processedPos,
               this`remainLen, this`hist, this`range, this`code, this`buf, probs, dic
      ensures ok <==> SymbolFits(d, NextSymbol(d, x).sym, old(dicPos) < limit)
      ensures Dictionary() && dicPos <= limit && |hist| - dicPos == old(|hist| - dicPos) && (!ok ==> hist == old(hist))
      ensures ok ==> Stands(src, AfterOne(d, x, |d.hist| + (limit - old(dicPos))), NextSymbol(d, x).rc.rest) && old(buf) <= buf
    {
      hide *;
      AfterOneIs(d, x, |d.hist| + (limit - dicPos));
      ClassOf(d, x);
      var r, posState;
      ghost var c, v;
      r, posState, c, v := LoadRegs(src, d, x);
      ok := OneSymbol(src, r, posState, limit, d, c, v, NextSymbol(d, x));
    }

    /** From the IsMatch bit on. */
    method OneSymbol(src: seq<byte>, r0: Regs, posState: nat, limit: nat,
                     ghost d: Dec, ghost c: Ctx, ghost v0: Walk, ghost goal: SymbolResult)
      returns (ok: bool)
      requires Same(d) && d.state == state && Ready(d) && Dictionary() && dicPos <= limit <= dic.Length
      requires c == CtxOf(d) && Heading(probs, src, r0, c, v0, goal) && v0.n == IsMatch && posState == c.posState
      requires |v0.probs| == NumProbs(prop) && (checkDicSize == 0 ==> |hist| + (limit - dicPos) <= prop.dicSize)
      requires goal.Decoded? && (dicPos == limit ==> goal.sym.MatchSym?)
      requires d.hist == [] ==> goal.sym.LitSym? || goal.sym.MatchSym?
      modifies this`rep0, this`rep1, this`rep2, this`rep3, this`state, this`dicPos, this`processedPos,
               this`remainLen, this`hist, this`range, this`code, this`buf, probs, dic
      ensures SymbolPossible(d, goal.sym)
      ensures ok <==> SymbolFits(d, goal.sym, old(dicPos) < limit)
      ensures Dictionary() && dicPos <= limit && |hist| - dicPos == old(|hist| - dicPos) && (!ok ==> hist == old(hist))
      ensures ok ==> Stands(src, Landing(d, goal, |d.hist| + (limit - old(dicPos))), goal.rc.rest) && r0.buf <= buf
    {
      hide *;
      ghost var v := v0;
      SymbolNodes(d);
      PossibleSymbols(d, goal.sym);
      var r, bit;
      r, bit, v := ReadBit(probs, IS_MATCH + posState + state, src, r0, c, v, goal);
      HeadingEnds(src, r, c, v, goal);
      if !bit {
        OneLiteral(src, r, |d.hist| + (limit - dicPos), d, v, goal);
        ok := true;
      } else {
        r, bit, v := ReadBit(probs, IS_REP + state, src, r, c, v, goal);
        HeadingEnds(src, r, c, v, goal);
        if !bit {
          ok := OneMatch(src, r, posState, limit, d, v, goal);
        } else {
          OneRep(src, r, posState, limit, d, v, goal);
          ok := true;
        }
      }
    }

    method LoadRegs(src: seq<byte>, ghost d: Dec, ghost x: seq<byte>) returns (r: Regs, posState: nat, ghost c: Ctx, ghost v: Walk)
      requires Stands(src, d, x) && Ready(d) && NextSymbol(d, x).Decoded? && Dictionary()
      ensures c == CtxOf(d) && Heading(probs, src, r, c, v, NextSymbol(d, x))
      ensures v.n == IsMatch && |v.probs| == NumProbs(prop)
      ensures posState == c.posState && Same(d) && d.state == state && r.buf == buf
    {
      c := CtxOf(d);
      PendingShift(src, d, x);
      PositionLowBits(|hist|, prop.pb);
      hide Decode, Normalize, Holds, LitTable, Pow2;
      r := Regs(range, code, buf);
      posState := processedPos % Pow2(prop.pb) * 16;
      v := Walk(IsMatch, Rc(range, code, src[buf..]), Abs().probs);
    }

    lemma HeadingEnds(src: seq<byte>, r: Regs, c: Ctx, v: Walk, goal: SymbolResult)
      requires Heading(probs, src, r, c, v, goal)
      ensures (v.n.Lit? || v.n.MatchedLit? ==> goal.sym.LitSym?) && (v.n == RepG0 ==> goal.sym.ShortRepSym? || goal.sym.RepSym?)
    {
      WalkEndsAs(c, v, true);
    }

    // ---------- The symbol loop ----------

    /** Since the history was h0 and dicPos was pos0, bytes were only appended, in the dictionary too. */
    ghost predicate Kept(h0: seq<byte>, pos0: nat, limit: nat)
      reads this`prop, this`dicPos, this`processedPos, this`checkDicSize, this`hist, dic
    {
      Dictionary() && h0 <= hist && pos0 <= dicPos <= limit && |hist| - dicPos == |h0| - pos0
    }

    lemma MakeKept(h0: seq<byte>, pos0: nat, limit: nat)
      requires Dictionary() && h0 <= hist && dicPos <= limit && |hist| - dicPos == |h0| - pos0
      ensures Kept(h0, pos0, limit)
    {
      hide Holds;
    }

    lemma KeptParts(h0: seq<byte>, pos0: nat, limit: nat)
      requires Kept(h0, pos0, limit)
      ensures h0 <= hist && Dictionary() && pos0 <= dicPos <= limit && |hist| - dicPos == |h0| - pos0
    {
      hide Holds;
    }

    /** A call of the symbol loop may start: its first symbol is complete in src. */
    ghost predicate CanDecode(src: seq<byte>, limit: nat)
      reads this, probs, dic
    {
      && Shape() && Dictionary() && Ready(Abs()) && buf <= |src| && dicPos <= limit <= dic.Length
      && NextSymbol(Abs(), src[buf..]).Decoded?
    }

    /** What holds after the symbol loop, and between its calls. */
    ghost predicate Stopped(src: seq<byte>, limit: nat)
      reads this, probs, dic
    {
      && Shape() && Dictionary() && DecOk(Abs()) && remainLen <= FINISHED && buf <= |src| && dicPos <= limit <= dic.Length
      && (remainLen == 0 || remainLen == FINISHED || dicPos == limit)
      && (hist == [] ==> remainLen == FINISHED)
    }

    /** With the registers normalized, the fields stand for themselves. */
    ghost method Current(src: seq<byte>, limit: nat) returns (d: Dec, x: seq<byte>)
      requires CanDecode(src, limit)
      ensures Stands(src, d, x) && d == Abs() && x == src[buf..] && d.hist == hist && d.remain == remainLen && d.code == code
      ensures Shape() && Dictionary() && Ready(d) && NextSymbol(d, x).Decoded? && DecOk(d)
      ensures dicPos <= limit <= dic.Length && buf <= |src|
    {
      d, x := Abs(), src[buf..];
      hide Decode, CtxOf, NumProbs;
    }

    lemma StandsFields(src: seq<byte>, d: Dec, x: seq<byte>)
      requires Stands(src, d, x)
      ensures Shape() && d.hist == hist && d.remain == remainLen
    {
    }

    /** More than 20 bytes beyond a pending shift are enough for the next symbol. */
    lemma EnoughLeft(src: seq<byte>, d: Dec, x: seq<byte>, bufLimit: nat)
      requires Stands(src, d, x) && Ready(d) && buf < bufLimit && bufLimit + REQUIRED_INPUT_MAX <= |src|
      ensures NextSymbol(d, x).Decoded?
    {
      TwentyBytesSuffice(CtxOf(d), StartWalk(d, x), true);
    }

    lemma NowStopped(src: seq<byte>, limit: nat, d: Dec)
      requires Shape() && Dictionary() && Abs() == d && DecOk(d) && remainLen <= FINISHED && buf <= |src|
      requires dicPos <= limit <= dic.Length && (remainLen == 0 || remainLen == FINISHED || dicPos == limit)
      requires hist == [] ==> remainLen == FINISHED
      ensures Stopped(src, limit)
    {
      hide DecOk, Holds;
    }

    /** The shift left pending by the last symbol. */
    method Settle(src: seq<byte>, ghost d: Dec, ghost x: seq<byte>)
      requires Stands(src, d, x)
      modifies this`range, this`code, this`buf
      ensures Shape() && Abs() == d && buf <= |src| && src[buf..] == x && old(buf) <= buf
    {
      hide NumProbs;
      if range < TOP {
        range := range * 0x100;
        code := code * 0x100 % WORD + src[buf];
        assert src[buf..][1..] == src[buf + 1..];
        buf := buf + 1;
      }
    }

    /**
     LzmaDec_DecodeReal_3: at least one symbol, more while bufLimit leaves 20 bytes.  Whatever
     follows src (more), and however far the run is meant to go (to), the run is continued.
     */
    method DecodeReal3(src: seq<byte>, limit: nat, bufLimit: nat, ghost more: seq<byte>, ghost to: nat, ghost fin: bool)
      returns (ok: bool)
      requires CanDecode(src, limit) && !BadStart(Abs())
      requires bufLimit <= buf || bufLimit + REQUIRED_INPUT_MAX <= |src|
      requires |hist| + (limit - dicPos) <= to
      requires checkDicSize == 0 ==> |hist| + (limit - dicPos) <= prop.dicSize
      requires dicPos == limit ==> |hist| == to && fin && code != 0 && NextSymbol(Abs(), src[buf..]).sym.MatchSym?
      modifies this`rep0, this`rep1, this`rep2, this`rep3, this`state, this`dicPos, this`processedPos,
               this`remainLen, this`hist, this`range, this`code, this`buf, probs, dic
      ensures !ok ==> Run(old(Abs()), old(src[buf..]) + more, to, fin) == Failed
      ensures ok ==> Stopped(src, limit)
      ensures ok ==> Run(old(Abs()), old(src[buf..]) + more, to, fin) == Run(Abs(), src[buf..] + more, to, fin)
      ensures Kept(old(hist), old(dicPos), limit)
      ensures ok ==> |hist| - dicPos == old(|hist| - dicPos)
      ensures ok ==> old(dicPos) < dicPos || remainLen == FINISHED
      ensures ok ==> old(buf) <= buf && checkDicSize == old(checkDicSize)
      ensures ok && bufLimit <= old(buf) ==> src[buf..] == old(NextSymbol(Abs(), src[buf..])).rc.rest
    {
      hide *;
      ghost var d, x := Current(src, limit);
      ghost var d0, x0, start, first := d, x, NextSymbol(d, x), true;
      ok := true;
      var go := true;
      while go
        invariant Shape() && Dictionary() && Stands(src, d, x) && d.hist == hist && d.remain == remainLen
        invariant dicPos <= limit <= dic.Length && |hist| - dicPos == old(|hist| - dicPos)
        invariant checkDicSize == old(checkDicSize) && old(buf) <= buf && old(hist) <= hist
        invariant DecOk(d) && Run(d0, x0 + more, to, fin) == Run(d, x + more, to, fin)
        invariant go ==> Ready(d) && !BadStart(d) && NextSymbol(d, x).Decoded?
        invariant go && first ==> dicPos == old(dicPos) && buf == old(buf) && d.code == old(code) && NextSymbol(d, x) == start
        invariant go && !first ==> dicPos < limit && buf < bufLimit
        invariant !first ==> old(dicPos) < dicPos || remainLen == FINISHED
        invariant !first && bufLimit <= old(buf) ==> !go && x == start.rc.rest
        invariant !go ==> !first && remainLen <= FINISHED && (hist == [] ==> remainLen == FINISHED)
        invariant !go ==> remainLen == 0 || remainLen == FINISHED || dicPos == limit
        decreases if go then 1 + limit - dicPos else 0
      {
        ghost var near := |d.hist| + (limit - dicPos);
        StepFacts(d, x, more, near, to, fin, dicPos < limit);
        ghost var pos := dicPos;
        ok := DecodeOne(src, limit, d, x);
        if !ok {
          MakeKept(old(hist), old(dicPos), limit);
          return;
        }
        d, x := AfterOne(d, x, near), NextSymbol(d, x).rc.rest;
        StandsFields(src, d, x);
        first := false;
        go := remainLen != FINISHED && dicPos < limit && buf < bufLimit;
        if go {
          EnoughLeft(src, d, x, bufLimit);
        }
      }
      // NORMALIZE
      Settle(src, d, x);
      NowStopped(src, limit, d);
      MakeKept(old(hist), old(dicPos), limit);
    }

    // ---------- The driver ----------

    /** LzmaDec_WriteRem: the part of a match that earlier limits cut off. */
    method WriteRem(limit: nat)
      requires Valid() && DecOk(Abs()) && dicPos <= limit <= dic.Length
      modifies this`dicPos, this`processedPos, this`checkDicSize, this`remainLen, this`hist, dic
      ensures Valid() && Abs() == Flush(old(Abs()), old(|hist| + (limit - dicPos)))
      ensures dicPos <= limit && |hist| - dicPos == old(|hist| - dicPos) && old(hist) <= hist
    {
      if remainLen != 0 && remainLen < FINISHED {
        RemReach();
        hide DecOk, Dictionary, NumProbs, Repeat, PropsOk;
        ghost var d := Abs();
        var len := remainLen;
        var rem := limit - dicPos;
        if rem < len {
          len := rem;
        }
        CopyRem(len);
        assert hist == Repeat(d.hist, d.rep0, len);
        assert Abs() == d.(hist := hist, remain := remainLen);
      }
    }

    lemma RemReach()
      requires Valid() && DecOk(Abs()) && Copying(Abs())
      ensures 1 <= rep0 <= |hist| && rep0 <= prop.dicSize
    {
    }

    /** Copies len bytes at distance rep0. */
    method CopyBytes(len: nat, ghost h: seq<byte>, ghost size: nat)
      requires Holds(dic[..], dicPos, h, size) && 1 <= rep0 <= |h| && rep0 <= size && dicPos + len <= dic.Length
      modifies this`dicPos, dic
      ensures dicPos == old(dicPos) + len && Holds(dic[..], dicPos, Repeat(h, rep0, len), size)
    {
      assert Repeat(h, rep0, 0) == h;
      hide Holds, Repeat, Slot, NumProbs, PropsOk;
      var left: nat := len;
      while left != 0
        invariant left <= len && dicPos == old(dicPos) + len - left
        invariant Holds(dic[..], dicPos, Repeat(h, rep0, len - left), size)
      {
        ghost var before := dic[..];
        CopyStep(before, dicPos, h, size, rep0, len - left);
        SlotIs(dicPos, rep0, dic.Length);
        left := left - 1;
        dic[dicPos] := dic[dicPos - rep0 + (if dicPos < rep0 then dic.Length else 0)];
        assert dic[..] == before[dicPos := before[Slot(dicPos, rep0, dic.Length)]];
        dicPos := dicPos + 1;
      }
    }

    /** Copies len bytes of the pending match, and notes when the dictionary has filled up. */
    method CopyRem(len: nat)
      requires Valid() && len <= remainLen < FINISHED && dicPos + len <= dic.Length
      requires 1 <= rep0 <= |hist| && rep0 <= prop.dicSize
      modifies this`dicPos, this`processedPos, this`checkDicSize, this`remainLen, this`hist, dic
      ensures Valid() && hist == Repeat(old(hist), rep0, len) && remainLen == old(remainLen) - len
      ensures dicPos == old(dicPos) + len && |hist| == |old(hist)| + len
    {
      ghost var h, size := hist, prop.dicSize;
      assert checkDicSize == 0 ==> processedPos == |hist| by { SmallPosition(|hist|); }
      assert PropsOk(prop) && Holds(dic[..], dicPos, h, size);
      WordSum(|hist|, len);
      hide Holds, Repeat, NumProbs;
      if checkDicSize == 0 && prop.dicSize - processedPos <= len {
        checkDicSize := prop.dicSize;
      }
      processedPos := (processedPos + len) % WORD;
      remainLen := remainLen - len;
      CopyBytes(len, h, size);
      hist := Repeat(h, rep0, len);
    }

    /** How far the symbol loop may go before the distance limit changes; and the check of a first code. */
    method SplitLimit(limit: nat) returns (bad: bool, limit2: nat)
      requires Valid() && DecOk(Abs()) && dicPos <= limit <= dic.Length
      ensures bad <==> BadStart(Abs())
      ensures dicPos <= limit2 <= limit && (dicPos < limit ==> dicPos < limit2)
      ensures checkDicSize == 0 ==> |hist| + (limit2 - dicPos) <= prop.dicSize
    {
      SmallPosition(|hist|);
      hide Holds, NumProbs, CoderOk, RegistersOk;
      bad := false;
      limit2 := limit;
      if checkDicSize == 0 {
        var rem := prop.dicSize - processedPos;
        if limit - dicPos > rem {
          limit2 := dicPos + rem;
        }
        if processedPos == 0 {
          bad := code >= BAD_REP_CODE;
        }
      }
    }

    /** The distance limit follows the history once the dictionary is full. */
    method NoteFull()
      requires Shape() && Dictionary()
      modifies this`checkDicSize
      ensures Valid()
    {
      SmallPosition(|hist|);
      hide Holds, NumProbs;
      if checkDicSize == 0 && processedPos >= prop.dicSize {
        checkDicSize := prop.dicSize;
      }
    }

    lemma WhenStopped(src: seq<byte>, limit: nat)
      requires Stopped(src, limit)
      ensures Shape() && Dictionary() && DecOk(Abs()) && remainLen <= FINISHED && buf <= |src| && dicPos <= limit
      ensures remainLen == 0 || remainLen == FINISHED || dicPos == limit
      ensures hist == [] ==> remainLen == FINISHED
      ensures Abs().hist == hist && Abs().remain == remainLen
    {
      hide DecOk, Holds;
    }

    lemma WhenCan(src: seq<byte>, limit: nat)
      requires CanDecode(src, limit)
      ensures Shape() && buf <= |src| && Ready(Abs()) && NextSymbol(Abs(), src[buf..]).Decoded?
    {
      hide NextSymbol, DecOk, Holds;
    }

    lemma DecodeNear(src: seq<byte>, limit: nat, limit2: nat)
      requires CanDecode(src, limit) && dicPos <= limit2 <= limit
      ensures CanDecode(src, limit2)
    {
      hide NextSymbol, DecOk, Holds;
    }

    /** Between two calls of the symbol loop: the dictionary may have filled up, and a match may be cut off. */
    method Resume(src: seq<byte>, limit2: nat, limit: nat, ghost more: seq<byte>, ghost to: nat, ghost fin: bool)
      requires Stopped(src, limit2) && limit2 <= limit <= dic.Length && to == |hist| + (limit - dicPos)
      modifies this`dicPos, this`processedPos, this`checkDicSize, this`remainLen, this`hist, dic
      ensures Valid() && Stopped(src, limit) && |hist| - dicPos == old(|hist| - dicPos)
      ensures old(hist) <= hist && old(dicPos) <= dicPos && (old(remainLen) == FINISHED ==> remainLen == FINISHED)
      ensures Run(old(Abs()), src[buf..] + more, to, fin) == Run(Abs(), src[buf..] + more, to, fin)
    {
      hide *;
      WhenStopped(src, limit2);
      ghost var d := Abs();
      NoteFull();
      WriteRem(limit);
      RunFlushed(d, src[buf..] + more, to, fin);
      ValidParts();
      FlushedFields();
      assert Abs() == Flush(d, to);
      assert dicPos == limit <==> |hist| == to;
      assert remainLen == 0 || remainLen == FINISHED || dicPos == limit;
      assert hist == [] ==> remainLen == FINISHED;
      NowStopped(src, limit, Abs());
    }

    lemma FlushedFields()
      requires Shape()
      ensures Abs().hist == hist && Abs().remain == remainLen
    {
    }

    lemma EnoughNow(src: seq<byte>, limit: nat, bufLimit: nat)
      requires Stopped(src, limit) && buf < bufLimit && bufLimit + REQUIRED_INPUT_MAX <= |src|
      requires dicPos < limit && remainLen < FINISHED
      ensures CanDecode(src, limit)
    {
      TwentyBytesSuffice(CtxOf(Abs()), StartWalk(Abs(), src[buf..]), true);
      hide Decode, CtxOf, NumProbs, Holds;
    }

    /**
     LzmaDec_DecodeReal2: the symbol loop, split where the dictionary first fills up so that the
     distance limit is right for every symbol.
     */
    method DecodeReal2(src: seq<byte>, limit: nat, bufLimit: nat, ghost more: seq<byte>, ghost fin: bool)
      returns (ok: bool)
      requires CanDecode(src, limit) && Valid()
      requires bufLimit <= buf || bufLimit + REQUIRED_INPUT_MAX <= |src|
      requires dicPos == limit ==> fin && code != 0 && NextSymbol(Abs(), src[buf..]).sym.MatchSym?
      modifies this`rep0, this`rep1, this`rep2, this`rep3, this`state, this`dicPos, this`processedPos, this`checkDicSize,
               this`remainLen, this`hist, this`range, this`code, this`buf, probs, dic
      ensures Kept(old(hist), old(dicPos), limit)
      ensures var to := old(|hist| + (limit - dicPos));
              && (!ok ==> Run(old(Abs()), old(src[buf..]) + more, to, fin) == Failed)
              && (ok ==> Stopped(src, limit) && Valid() && |hist| - dicPos == old(|hist| - dicPos))
              && (ok ==> Run(old(Abs()), old(src[buf..]) + more, to, fin) == Run(Abs(), src[buf..] + more, to, fin))
      ensures ok ==> (old(dicPos) < dicPos || remainLen == FINISHED) && old(buf) <= buf
      ensures ok && bufLimit <= old(buf) ==> src[buf..] == old(NextSymbol(Abs(), src[buf..])).rc.rest
    {
      hide *;
      ghost var to := |hist| + (limit - dicPos);
      ghost var d0, x0 := Current(src, limit);
      ghost var d, x, start, first := d0, x0, NextSymbol(d0, x0), true;
      ok := true;
      var go := true;
      while go
        invariant Valid() && Shape() && buf <= |src| && d == Abs() && x == src[buf..] && d.hist == hist
        invariant dicPos <= limit <= dic.Length && to == |hist| + (limit - dicPos)
        invariant |hist| - dicPos == old(|hist| - dicPos) && old(hist) <= hist
        invariant DecOk(d) && Run(d0, x0 + more, to, fin) == Run(d, x + more, to, fin)
        invariant go ==> CanDecode(src, limit)
        invariant go && first ==> dicPos == old(dicPos) && buf == old(buf) && code == old(code) && d == d0 && x == x0
        invariant go && !first ==> dicPos < limit && buf < bufLimit
        invariant !first ==> (old(dicPos) < dicPos || remainLen == FINISHED) && old(buf) <= buf
        invariant !first && bufLimit <= old(buf) ==> !go && x == start.rc.rest
        invariant !go ==> !first && Stopped(src, limit)
        decreases if go then 1 + limit - dicPos else 0
      {
        WhenCan(src, limit);
        var bad, limit2 := SplitLimit(limit);
        if bad {
          BadStartFails(d, x, more, to, fin);
          ValidParts();
          MakeKept(old(hist), old(dicPos), limit);
          return false;
        }
        DecodeNear(src, limit, limit2);
        ghost var h, pos := hist, dicPos;
        ok := DecodeReal3(src, limit2, bufLimit, more, to, fin);
        KeptParts(h, pos, limit2);
        if !ok {
          MakeKept(old(hist), old(dicPos), limit);
          return;
        }
        WhenStopped(src, limit2);
        Resume(src, limit2, limit, more, to, fin);
        WhenStopped(src, limit);
        first := false;
        d, x := Abs(), src[buf..];
        go := dicPos < limit && buf < bufLimit && remainLen < FINISHED;
        if go {
          EnoughNow(src, limit, bufLimit);
        }
      }
      ValidParts();
      MakeKept(old(hist), old(dicPos), limit);
    }

    /** The carry buffer holds the start of a symbol, or of the range coder, that the input cut off. */
    ghost predicate Carry()
      requires Shape()
      reads this`prop, this`state, this`rep0, this`rep1, this`rep2, this`rep3, this`range, this`code, this`remainLen,
            this`hist, this`tempBufSize, probs, tempBuf
    {
      && tempBufSize < REQUIRED_INPUT_MAX
      && (remainLen > FINISHED ==> tempBufSize < RC_INIT_SIZE && (tempBufSize > 0 ==> tempBuf[0] == 0))
      && (remainLen <= FINISHED && tempBufSize > 0 ==>
            Ready(Abs()) && NextSymbol(Abs(), tempBuf[..tempBufSize]).OutOfInput?)
    }

    /** The five bytes before the first symbol, as far as the input has them. */
    method CollectInit(src: seq<byte>) returns (bad: bool, used: nat)
      requires Shape() && tempBufSize < RC_INIT_SIZE && (tempBufSize > 0 ==> tempBuf[0] == 0)
      modifies this`tempBufSize, tempBuf
      ensures used <= |src| && tempBufSize <= RC_INIT_SIZE && (tempBufSize < RC_INIT_SIZE ==> used == |src|)
      ensures tempBuf[..tempBufSize] == old(tempBuf[..tempBufSize]) + src[..used]
      ensures bad <==> tempBufSize != 0 && tempBuf[0] != 0
    {
      used := 0;
      while used < |src| && tempBufSize < RC_INIT_SIZE
        invariant used <= |src| && tempBufSize <= RC_INIT_SIZE
        invariant tempBuf[..tempBufSize] == old(tempBuf[..tempBufSize]) + src[..used]
        decreases RC_INIT_SIZE - tempBufSize
      {
        ghost var before := tempBuf[..tempBufSize];
        tempBuf[tempBufSize] := src[used];
        assert tempBuf[..tempBufSize] == before;
        assert tempBuf[..tempBufSize + 1] == before + [src[used]];
        assert src[..used + 1] == src[..used] + [src[used]];
        tempBufSize := tempBufSize + 1;
        used := used + 1;
      }
      bad := tempBufSize != 0 && tempBuf[0] != 0;
    }

    /** After a state reset: the probabilities, the distances and the state. */
    method ResetCoder()
      requires Shape()
      modifies this`rep0, this`rep1, this`rep2, this`rep3, this`state, probs
      ensures probs[..NumProbs(prop)] == FreshProbs(NumProbs(prop)) && rep0 == rep1 == rep2 == rep3 == 1 && state == 0
    {
      var numProbs := NumProbs(prop);
      hide NumProbs;
      var i := 0;
      while i < numProbs
        invariant i <= numProbs
        invariant forall k :: 0 <= k < i ==> probs[k] == PROB_INIT
      {
        probs[i] := PROB_INIT;
        i := i + 1;
      }
      assert probs[..numProbs] == FreshProbs(numProbs);
      rep0, rep1, rep2, rep3 := 1, 1, 1, 1;
      state := 0;
    }

    /** Initializes the range coder from the five carried bytes, and the coder if it was reset. */
    method StartDecoder()
      requires Shape() && NEED_INIT_RC <= remainLen <= NEED_INIT_STATE && tempBufSize == RC_INIT_SIZE
      modifies this`code, this`range, this`tempBufSize, this`rep0, this`rep1, this`rep2, this`rep3, this`state,
               this`remainLen, probs
      ensures Abs() == Started(old(Abs()), old(tempBuf[..RC_INIT_SIZE])) && tempBufSize == 0
    {
      hide NumProbs, FreshProbs;
      code := BigEndian32(tempBuf[1], tempBuf[2], tempBuf[3], tempBuf[4]);
      range := RANGE_INIT;
      tempBufSize := 0;
      if remainLen > NEED_INIT_RC {
        ResetCoder();
      }
      remainLen := 0;
    }

    lemma ValidParts()
      requires Valid()
      ensures Shape() && Dictionary() && tempBuf.Length == REQUIRED_INPUT_MAX && dic != tempBuf
      ensures Abs().hist == hist && Abs().code == code && Abs().remain == remainLen
    {
    }

    /** memcpy(tempBuf, src, inSize) */
    method SaveTail(src: seq<byte>, pos: nat)
      requires Shape() && pos <= |src| && |src| - pos < REQUIRED_INPUT_MAX
      modifies this`tempBufSize, tempBuf
      ensures tempBufSize == |src| - pos && tempBuf[..tempBufSize] == src[pos..]
    {
      forall i | 0 <= i < |src| - pos {
        tempBuf[i] := src[pos + i];
      }
      tempBufSize := |src| - pos;
    }

    lemma DummyMeans(d: Dec, x: seq<byte>, y: seq<byte>, limit: nat)
      requires Ready(d)
      ensures |x| >= REQUIRED_INPUT_MAX ==> NextSymbol(d, x).Decoded?
      ensures DummyClass(NextSymbol(d, x)) == DummyError <==> NextSymbol(d, x).OutOfInput?
      ensures DummyClass(NextSymbol(d, x)) == DummyMatch <==> NextSymbol(d, x).Decoded? && NextSymbol(d, x).sym.MatchSym?
      ensures d.code != 0 && NextSymbol(d, x).Decoded? && !NextSymbol(d, x).sym.MatchSym? && |d.hist| >= limit ==>
                Run(d, x + y, limit, true) == Failed
    {
      if |x| >= REQUIRED_INPUT_MAX {
        TwentyBytesSuffice(CtxOf(d), StartWalk(d, x), true);
      }
      hide Decode, CtxOf;
      if d.code != 0 && NextSymbol(d, x).Decoded? && !NextSymbol(d, x).sym.MatchSym? && |d.hist| >= limit {
        OnlyMatchesAtLimit(d, x, y, limit);
      }
      hide NextSymbol, Run;
    }

    lemma MayDecode(src: seq<byte>, limit: nat)
      requires Valid() && Ready(Abs()) && buf <= |src| && dicPos <= limit <= dic.Length
      requires NextSymbol(Abs(), src[buf..]).Decoded?
      ensures CanDecode(src, limit)
    {
      hide NextSymbol, Holds, Ready;
    }

    /** The decoder reads straight from src, from pos on. */
    method FeedSource(src: seq<byte>, pos: nat, dicLimit: nat, checkEnd: bool, ghost fin: bool)
      returns (res: Feed, next: nat)
      requires Valid() && Ready(Abs()) && dicPos <= dicLimit <= dic.Length && pos <= |src| && tempBufSize == 0
      requires checkEnd == (dicPos == dicLimit) && (checkEnd ==> fin && code != 0)
      modifies this`rep0, this`rep1, this`rep2, this`rep3, this`state, this`dicPos, this`processedPos, this`checkDicSize,
               this`remainLen, this`hist, this`range, this`code, this`buf, this`tempBufSize, probs, dic, tempBuf
      ensures next <= |src| && Kept(old(hist), old(dicPos), dicLimit)
      ensures res == Broken ==>
                Run(old(Abs()), src[pos..], old(|hist| + (dicLimit - dicPos)), fin) == Failed
      ensures res == Starving ==>
                Valid() && Abs() == old(Abs()) && next == |src| && tempBufSize < REQUIRED_INPUT_MAX &&
                tempBuf[..tempBufSize] == src[pos..] && NextSymbol(Abs(), src[pos..]).OutOfInput?
      ensures res != InternalError
      ensures res == Advanced ==>
                Valid() && DecOk(Abs()) && remainLen <= FINISHED && dicPos <= dicLimit && tempBufSize == 0 && pos <= next <= |src| &&
                (remainLen == 0 || remainLen == FINISHED || dicPos == dicLimit) &&
                Run(old(Abs()), src[pos..], old(|hist| + (dicLimit - dicPos)), fin) ==
                Run(Abs(), src[next..], old(|hist| + (dicLimit - dicPos)), fin)
      ensures res != Broken ==> |hist| - dicPos == old(|hist| - dicPos)
      ensures res == Advanced ==> old(dicPos) < dicPos || remainLen == FINISHED
    {
      hide *;
      ValidParts();
      MakeKept(hist, dicPos, dicLimit);
      ghost var d, x, to := Abs(), src[pos..], |hist| + (dicLimit - dicPos);
      DummyMeans(d, x, [], to);
      assert x + [] == x;
      var bufLimit := pos;
      if |src| - pos < REQUIRED_INPUT_MAX || checkEnd {
        var dummyRes := TryDummy(src[pos..]);
        if dummyRes == DummyError {
          SaveTail(src, pos);
          return Starving, |src|;
        }
        if checkEnd && dummyRes != DummyMatch {
          return Broken, pos;
        }
      } else {
        bufLimit := |src| - REQUIRED_INPUT_MAX;
      }
      buf := pos;
      MayDecode(src, dicLimit);
      var ok := DecodeReal2(src, dicLimit, bufLimit, [], fin);
      if !ok {
        return Broken, pos;
      }
      WhenStopped(src, dicLimit);
      assert src[buf..] + [] == src[buf..];
      return Advanced, buf;
    }

    /** tempBuf[rem++] = src[lookAhead++] */
    method TopUp(src: seq<byte>, pos: nat) returns (lookAhead: nat)
      requires Shape() && tempBufSize < REQUIRED_INPUT_MAX && pos <= |src|
      modifies this`tempBufSize, tempBuf
      ensures pos + lookAhead <= |src| && tempBufSize == old(tempBufSize) + lookAhead <= REQUIRED_INPUT_MAX
      ensures tempBuf[..tempBufSize] == old(tempBuf[..tempBufSize]) + src[pos..pos + lookAhead]
      ensures tempBufSize < REQUIRED_INPUT_MAX ==> pos + lookAhead == |src|
    {
      var rem := tempBufSize;
      lookAhead := 0;
      while rem < REQUIRED_INPUT_MAX && lookAhead < |src| - pos
        invariant pos + lookAhead <= |src| && rem == old(tempBufSize) + lookAhead <= REQUIRED_INPUT_MAX
        invariant tempBuf[..rem] == old(tempBuf[..tempBufSize]) + src[pos..pos + lookAhead]
        decreases REQUIRED_INPUT_MAX - rem
      {
        ghost var before := tempBuf[..rem];
        tempBuf[rem] := src[pos + lookAhead];
        assert tempBuf[..rem] == before;
        assert tempBuf[..rem + 1] == before + [src[pos + lookAhead]];
        assert src[pos..pos + lookAhead + 1] == src[pos..pos + lookAhead] + [src[pos + lookAhead]];
        rem := rem + 1;
        lookAhead := lookAhead + 1;
      }
      tempBufSize := rem;
    }

    /** The carried bytes, topped up from src, hold the next symbol: just that one is decoded. */
    method FeedCarry(src: seq<byte>, pos: nat, dicLimit: nat, checkEnd: bool, ghost fin: bool)
      returns (res: Feed, next: nat)
      requires Valid() && Ready(Abs()) && dicPos <= dicLimit <= dic.Length && pos <= |src|
      requires 0 < tempBufSize < REQUIRED_INPUT_MAX && NextSymbol(Abs(), tempBuf[..tempBufSize]).OutOfInput?
      requires checkEnd == (dicPos == dicLimit) && (checkEnd ==> fin && code != 0)
      modifies this`rep0, this`rep1, this`rep2, this`rep3, this`state, this`dicPos, this`processedPos, this`checkDicSize,
               this`remainLen, this`hist, this`range, this`code, this`buf, this`tempBufSize, probs, dic, tempBuf
      ensures res != InternalError && next <= |src| && Kept(old(hist), old(dicPos), dicLimit)
      ensures res == Broken ==>
                Run(old(Abs()), old(tempBuf[..tempBufSize]) + src[pos..], old(|hist| + (dicLimit - dicPos)), fin) == Failed
      ensures res == Starving ==>
                Valid() && Abs() == old(Abs()) && next == |src| && tempBufSize < REQUIRED_INPUT_MAX &&
                tempBuf[..tempBufSize] == old(tempBuf[..tempBufSize]) + src[pos..] &&
                NextSymbol(Abs(), tempBuf[..tempBufSize]).OutOfInput?
      ensures res == Advanced ==>
                Valid() && DecOk(Abs()) && remainLen <= FINISHED && dicPos <= dicLimit && tempBufSize == 0 && pos <= next <= |src| &&
                Run(old(Abs()), old(tempBuf[..tempBufSize]) + src[pos..], old(|hist| + (dicLimit - dicPos)), fin) ==
                Run(Abs(), src[next..], old(|hist| + (dicLimit - dicPos)), fin)
      ensures res == Advanced ==> remainLen == 0 || remainLen == FINISHED || dicPos == dicLimit
      ensures res != Broken ==> |hist| - dicPos == old(|hist| - dicPos)
      ensures res == Advanced ==> old(dicPos) < dicPos || remainLen == FINISHED
    {
      hide *;
      ValidParts();
      MakeKept(hist, dicPos, dicLimit);
      ghost var d, to, carried := Abs(), |hist| + (dicLimit - dicPos), tempBuf[..tempBufSize];
      var lookAhead := TopUp(src, pos);
      var rem := tempBufSize;
      var x := tempBuf[..rem];
      ghost var added, after := src[pos..pos + lookAhead], src[pos + lookAhead..];
      assert carried + src[pos..] == x + after;
      DummyMeans(d, x, after, to);
      if rem < REQUIRED_INPUT_MAX || checkEnd {
        var dummyRes := TryDummy(x);
        if dummyRes == DummyError {
          return Starving, pos + lookAhead;
        }
        if checkEnd && dummyRes != DummyMatch {
          return Broken, pos;
        }
      }
      CarryIsUsed(d, carried, added);
      buf := 0;
      assert x[0..] == x;
      MayDecode(x, dicLimit);
      var ok := DecodeReal2(x, dicLimit, 0, after, fin);
      if !ok {
        return Broken, pos;
      }
      WhenStopped(x, dicLimit);
      var kkk := buf;
      if rem < kkk {
        return InternalError, pos;
      }
      rem := rem - kkk;
      if lookAhead < rem {
        return InternalError, pos;
      }
      lookAhead := lookAhead - rem;
      assert x[kkk..] + after == src[pos + lookAhead..];
      tempBufSize := 0;
      return Advanced, pos + lookAhead;
    }

    lemma CarryParts()
      requires Shape() && DecOk(Abs()) && Carry()
      ensures tempBufSize < REQUIRED_INPUT_MAX && (remainLen == 0 ==> Ready(Abs()))
      ensures remainLen <= FINISHED && tempBufSize > 0 ==>
                remainLen == 0 && Ready(Abs()) && NextSymbol(Abs(), tempBuf[..tempBufSize]).OutOfInput?
    {
      hide NextSymbol;
    }

    lemma MakeCarry()
      requires Shape() && tempBufSize < REQUIRED_INPUT_MAX && remainLen <= FINISHED
      requires tempBufSize > 0 ==> Ready(Abs()) && NextSymbol(Abs(), tempBuf[..tempBufSize]).OutOfInput?
      ensures Carry()
    {
      hide NextSymbol, DecOk;
    }

    lemma StatusHere(to: nat, fin: bool)
      requires Shape()
      ensures remainLen > FINISHED ==> StatusOf(Abs(), to, fin) == NeedsMoreInput
      ensures remainLen == FINISHED ==> StatusOf(Abs(), to, fin) == FinishedWithMark
      ensures remainLen < FINISHED && |hist| < to ==> StatusOf(Abs(), to, fin) == NeedsMoreInput
      ensures remainLen == 0 && |hist| >= to && code == 0 ==> StatusOf(Abs(), to, fin) == MaybeFinishedWithoutMark
      ensures remainLen < FINISHED && |hist| >= to && !(remainLen == 0 && code == 0) ==>
                StatusOf(Abs(), to, fin) == if fin then NeedsMoreInput else NotFinished
    {
    }

    /** The bytes before the first symbol; done tells that the range coder is initialized. */
    method Begin(src: seq<byte>, ghost to: nat, ghost fin: bool) returns (bad: bool, done: bool, used: nat)
      requires Valid() && DecOk(Abs()) && Carry() && remainLen > FINISHED
      modifies this`code, this`range, this`tempBufSize, this`rep0, this`rep1, this`rep2, this`rep3, this`state,
               this`remainLen, probs, tempBuf
      ensures bad ==> Run(old(Abs()), old(tempBuf[..tempBufSize]) + src, to, fin) == Failed
      ensures used <= |src| && (!bad ==> Valid() && DecOk(Abs()) && Carry() && (done ==> remainLen == 0 && remainLen <= FINISHED && tempBufSize == 0))
      ensures !bad && !done ==>
                remainLen > FINISHED && used == |src| &&
                Run(old(Abs()), old(tempBuf[..tempBufSize]) + src, to, fin) == Paused(Abs(), tempBuf[..tempBufSize] + src[used..])
      ensures !bad && done ==>
                Run(old(Abs()), old(tempBuf[..tempBufSize]) + src, to, fin) == Run(Abs(), src[used..], to, fin)
    {
      ValidParts();
      hide Valid, Shape, Dictionary, Abs, DecOk, Ready, NextSymbol, Run, Started, NumProbs;
      ghost var d, x := Abs(), tempBuf[..tempBufSize] + src;
      done := false;
      bad, used := CollectInit(src);
      ghost var carried := tempBuf[..tempBufSize];
      assert x == carried + src[used..];
      RunStarts(d, x, to, fin);
      if bad || tempBufSize < RC_INIT_SIZE {
        return;
      }
      assert x[..RC_INIT_SIZE] == carried && x[RC_INIT_SIZE..] == src[used..];
      InitRange();
      StartDecoder();
      done := true;
    }

    lemma InitRange()
      requires Shape() && DecOk(Abs()) && remainLen > FINISHED
      ensures NEED_INIT_RC <= remainLen <= NEED_INIT_STATE
    {
    }

    /** One step of the driver: the next symbol comes from src, or from the carried bytes. */
    method FeedOne(src: seq<byte>, pos: nat, dicLimit: nat, checkEnd: bool, ghost fin: bool)
      returns (res: Feed, next: nat)
      requires Valid() && Ready(Abs()) && Carry() && dicPos <= dicLimit <= dic.Length && pos <= |src|
      requires checkEnd == (dicPos == dicLimit) && (checkEnd ==> fin && code != 0)
      modifies this`rep0, this`rep1, this`rep2, this`rep3, this`state, this`dicPos, this`processedPos, this`checkDicSize,
               this`remainLen, this`hist, this`range, this`code, this`buf, this`tempBufSize, probs, dic, tempBuf
      ensures res != InternalError && next <= |src| && Kept(old(hist), old(dicPos), dicLimit)
      ensures res == Broken ==>
                Run(old(Abs()), old(tempBuf[..tempBufSize]) + src[pos..], old(|hist| + (dicLimit - dicPos)), fin) == Failed
      ensures res != Broken ==>
                Valid() && DecOk(Abs()) && remainLen <= FINISHED && Carry() && tempBufSize < REQUIRED_INPUT_MAX &&
                next <= |src| && dicPos <= dicLimit && |hist| - dicPos == old(|hist| - dicPos)
      ensures (res == Starving ==> next == |src|) && (res == Advanced ==> tempBufSize == 0)
      ensures res == Starving ==>
                Abs() == old(Abs()) && tempBuf[..tempBufSize] + src[next..] == old(tempBuf[..tempBufSize]) + src[pos..] &&
                NextSymbol(Abs(), tempBuf[..tempBufSize] + src[next..]).OutOfInput?
      ensures res == Advanced ==>
                (remainLen == 0 || remainLen == FINISHED || dicPos == dicLimit) &&
                (old(dicPos) < dicPos || remainLen == FINISHED) &&
                Run(old(Abs()), old(tempBuf[..tempBufSize]) + src[pos..], old(|hist| + (dicLimit - dicPos)), fin) ==
                Run(Abs(), tempBuf[..tempBufSize] + src[next..], old(|hist| + (dicLimit - dicPos)), fin)
    {
      hide *;
      ValidParts();
      ReadyParts();
      CarryParts();
      if tempBufSize == 0 {
        assert tempBuf[..tempBufSize] + src[pos..] == src[pos..];
        res, next := FeedSource(src, pos, dicLimit, checkEnd, fin);
      } else {
        res, next := FeedCarry(src, pos, dicLimit, checkEnd, fin);
      }
      if res == Starving || res == Advanced {
        ValidParts();
        if res == Starving {
          ReadyParts();
          assert src[next..] == [];
          assert tempBuf[..tempBufSize] + src[next..] == tempBuf[..tempBufSize];
        } else {
          assert tempBuf[..tempBufSize] + src[next..] == src[next..];
        }
        MakeCarry();
      }
    }

    lemma ReadyParts()
      requires Shape() && Ready(Abs())
      ensures DecOk(Abs()) && remainLen == 0 && remainLen <= FINISHED
    {
      hide DecOk;
    }

    /** The loop of LzmaDec_DecodeToDic. */
    method Drive(src: seq<byte>, start: nat, dicLimit: nat, fin: bool, ghost to: nat)
      returns (res: SRes, srcLen: nat, status: Status)
      requires Valid() && DecOk(Abs()) && remainLen <= FINISHED && Carry() && start <= |src|
      requires dicPos <= dicLimit <= dic.Length && to == |hist| + (dicLimit - dicPos)
      requires remainLen == 0 || remainLen == FINISHED || dicPos == dicLimit
      modifies this`rep0, this`rep1, this`rep2, this`rep3, this`state, this`dicPos, this`processedPos, this`checkDicSize,
               this`remainLen, this`hist, this`range, this`code, this`buf, this`tempBufSize, probs, dic, tempBuf
      ensures res != ErrorFail && srcLen <= |src| && Kept(old(hist), old(dicPos), dicLimit)
      ensures res == ErrorData ==> Run(old(Abs()), old(tempBuf[..tempBufSize]) + src[start..], to, fin) == Failed
      ensures res == Ok ==>
                srcLen <= |src| && Valid() && DecOk(Abs()) && Carry() &&
                dicPos <= dicLimit && |hist| - dicPos == old(|hist| - dicPos) &&
                Run(old(Abs()), old(tempBuf[..tempBufSize]) + src[start..], to, fin) ==
                Paused(Abs(), tempBuf[..tempBufSize] + src[srcLen..]) &&
                status == StatusOf(Abs(), to, fin) && (status == NeedsMoreInput ==> srcLen == |src|)
      ensures res == Ok && status != NeedsMoreInput ==>
                tempBufSize == 0 || (Abs() == old(Abs()) && tempBufSize == old(tempBufSize) && srcLen == start)
    {
      hide *;
      ValidParts();
      MakeKept(hist, dicPos, dicLimit);
      CarryParts();
      srcLen := start;
      ghost var d0, x0 := Abs(), tempBuf[..tempBufSize] + src[start..];
      while remainLen != FINISHED
        invariant Valid() && Shape() && DecOk(Abs()) && remainLen <= FINISHED && srcLen <= |src|
        invariant dicPos <= dicLimit <= dic.Length && to == |hist| + (dicLimit - dicPos)
        invariant |hist| - dicPos == old(|hist| - dicPos) && old(hist) <= hist && Kept(old(hist), old(dicPos), dicLimit)
        invariant remainLen == 0 || remainLen == FINISHED || dicPos == dicLimit
        invariant tempBufSize < REQUIRED_INPUT_MAX && Carry()
        invariant tempBufSize == 0 || (Abs() == d0 && tempBufSize == old(tempBufSize) && srcLen == start)
        invariant Run(d0, x0, to, fin) == Run(Abs(), tempBuf[..tempBufSize] + src[srcLen..], to, fin)
        decreases if remainLen == FINISHED then 0 else 1 + dicLimit - dicPos
      {
        ValidParts();
        ghost var d, x := Abs(), tempBuf[..tempBufSize] + src[srcLen..];
        RunStops(d, x, to, fin);
        StatusHere(to, fin);
        var checkEndMarkNow := false;
        if dicPos >= dicLimit {
          if remainLen == 0 && code == 0 {
            return Ok, srcLen, MaybeFinishedWithoutMark;
          }
          if !fin {
            return Ok, srcLen, NotFinished;
          }
          if remainLen != 0 {
            return ErrorData, srcLen, NotFinished;
          }
          checkEndMarkNow := true;
        }
        CarryParts();
        var fed;
        ghost var h, pos := hist, dicPos;
        fed, srcLen := FeedOne(src, srcLen, dicLimit, checkEndMarkNow, fin);
        KeptParts(h, pos, dicLimit);
        MakeKept(old(hist), old(dicPos), dicLimit);
        match fed
        case InternalError =>
          return ErrorFail, srcLen, NotSpecified;
        case Broken =>
          return ErrorData, srcLen, NotSpecified;
        case Starving =>
          return Ok, srcLen, NeedsMoreInput;
        case Advanced =>
      }
      ValidParts();
      RunStops(Abs(), tempBuf[..tempBufSize] + src[srcLen..], to, fin);
      StatusHere(to, fin);
      if code != 0 {
        return ErrorData, srcLen, NotSpecified;
      }
      return Ok, srcLen, FinishedWithMark;
    }

    /**
     LzmaDec_DecodeToDic: whatever was carried over, the outcome is that of the run over the
     carried bytes and src.
     */
    method DecodeToDic(dicLimit: nat, src: seq<byte>, fin: bool) returns (res: SRes, srcLen: nat, status: Status)
      requires Valid() && DecOk(Abs()) && Carry() && dicPos <= dicLimit <= dic.Length
      modifies this`rep0, this`rep1, this`rep2, this`rep3, this`state, this`dicPos, this`processedPos, this`checkDicSize,
               this`remainLen, this`hist, this`range, this`code, this`buf, this`tempBufSize, probs, dic, tempBuf
      ensures res != ErrorFail && srcLen <= |src| && Kept(old(hist), old(dicPos), dicLimit)
      ensures res == ErrorData ==>
                Run(old(Abs()), old(tempBuf[..tempBufSize]) + src, old(|hist| + (dicLimit - dicPos)), fin) == Failed
      ensures res == Ok ==>
                srcLen <= |src| && Valid() && DecOk(Abs()) && Carry() &&
                dicPos <= dicLimit && |hist| - dicPos == old(|hist| - dicPos) &&
                Run(old(Abs()), old(tempBuf[..tempBufSize]) + src, old(|hist| + (dicLimit - dicPos)), fin) ==
                Paused(Abs(), tempBuf[..tempBufSize] + src[srcLen..]) &&
                status == StatusOf(Abs(), old(|hist| + (dicLimit - dicPos)), fin) &&
                (status == NeedsMoreInput ==> srcLen == |src|)
      ensures res == Ok && status != NeedsMoreInput ==>
                tempBufSize == 0 || (Abs() == old(Abs()) && tempBufSize == old(tempBufSize) && srcLen == 0)
    {
      hide *;
      ValidParts();
      CarryParts();
      ghost var d0, x0, to := Abs(), tempBuf[..tempBufSize] + src, |hist| + (dicLimit - dicPos);
      srcLen, status := 0, NotSpecified;
      assert src[0..] == src;
      MakeKept(hist, dicPos, dicLimit);
      if remainLen > FINISHED {
        var bad, done;
        bad, done, srcLen := Begin(src, to, fin);
        if bad {
          return ErrorData, srcLen, status;
        }
        ValidParts();
        if !done {
          StatusHere(to, fin);
          return Ok, srcLen, NeedsMoreInput;
        }
      }
      ValidParts();
      CarryParts();
      ghost var d1, x1 := Abs(), tempBuf[..tempBufSize] + src[srcLen..];
      assert tempBufSize == 0 ==> x1 == src[srcLen..];
      WriteRem(dicLimit);
      ValidParts();
      RunFlushed(d1, x1, to, fin);
      MakeCarry();
      ghost var h, pos := hist, dicPos;
      res, srcLen, status := Drive(src, srcLen, dicLimit, fin, to);
      KeptParts(h, pos, dicLimit);
      MakeKept(old(hist), old(dicPos), dicLimit);
    }

    /** A full buffer is used again from its beginning. */
    method WrapDic()
      requires Valid() && prop.dicSize <= dic.Length
      modifies this`dicPos
      ensures Valid() && dicPos < dic.Length && (old(dicPos) != dic.Length ==> dicPos == old(dicPos))
    {
      hide NumProbs;
      if dicPos == dic.Length {
        HoldsWrap(dic[..], hist, prop.dicSize);
        hide Holds;
        dicPos := 0;
      }
    }

    lemma WrittenLast(n: nat)
      requires Dictionary() && n <= |hist| && n <= dicPos
      ensures dicPos <= dic.Length && dic[..][dicPos - n..dicPos] == hist[|hist| - n..]
    {
      HeldSlice(dic[..], dicPos, hist, prop.dicSize, n);
    }

    /** memcpy of the bytes decoded since the history was h: dest holds all bytes from index first on. */
    method CopyOut(dest: array<byte>, at: nat, start: nat, ghost first: nat, ghost h: seq<byte>, ghost limit: nat)
      requires Kept(h, start, limit) && at + (dicPos - start) <= dest.Length && dest != dic
      requires |h| == first + at && dest[..at] == h[first..]
      modifies dest
      ensures dest[..at + (dicPos - start)] == hist[first..]
      ensures dest[at + (dicPos - start)..] == old(dest[at + (dicPos - start)..])
    {
      hide *;
      KeptParts(h, start, limit);
      var made := dicPos - start;
      WrittenLast(made);
      forall i | 0 <= i < made {
        dest[at + i] := dic[start + i];
      }
      assert dest[..at] == old(dest[..at]);
      assert dest[at..at + made] == dic[start..start + made] == dic[..][start..start + made];
      assert dest[..][..at] == h[first..];
      assert dest[..][at..at + made] == hist[|hist| - made..];
      Appended(dest[..], at, made, first, h, hist);
    }

    /**
     LzmaDec_DecodeToBuf: however often the dictionary is used around, dest receives the bytes
     the run appends, and the outcome is that of the one run to outSize more bytes.
     */
    method DecodeToBuf(dest: array<byte>, outSize: nat, src: seq<byte>, fin: bool)
      returns (res: SRes, destLen: nat, srcLen: nat, status: Status)
      requires Valid() && DecOk(Abs()) && Carry() && prop.dicSize <= dic.Length
      requires outSize <= dest.Length && dest != dic && dest != tempBuf
      modifies this`rep0, this`rep1, this`rep2, this`rep3, this`state, this`dicPos, this`processedPos, this`checkDicSize,
               this`remainLen, this`hist, this`range, this`code, this`buf, this`tempBufSize, probs, dic, tempBuf, dest
      ensures res != ErrorFail && srcLen <= |src| && destLen <= outSize
      ensures old(hist) <= hist && dest[..destLen] == hist[|old(hist)|..] && dest[destLen..] == old(dest[destLen..])
      ensures res == ErrorData ==>
                Run(old(Abs()), old(tempBuf[..tempBufSize]) + src, |old(hist)| + outSize, fin) == Failed
      ensures res == Ok ==>
                Valid() && DecOk(Abs()) && Carry() &&
                Run(old(Abs()), old(tempBuf[..tempBufSize]) + src, |old(hist)| + outSize, fin) ==
                Paused(Abs(), tempBuf[..tempBufSize] + src[srcLen..]) &&
                status == StatusOf(Abs(), |old(hist)| + outSize, fin)
    {
      hide *;
      ValidParts();
      CarryParts();
      ghost var d0, x0, total := Abs(), tempBuf[..tempBufSize] + src, |hist| + outSize;
      destLen, srcLen := 0, 0;
      var left: nat := outSize;
      assert src[0..] == src;
      while true
        invariant Valid() && Shape() && DecOk(Abs()) && Carry() && tempBufSize < REQUIRED_INPUT_MAX && Abs().hist == hist
        invariant prop == old(prop) && prop.dicSize <= dic.Length && srcLen <= |src| && destLen + left == outSize
        invariant old(hist) <= hist && |hist| == |old(hist)| + destLen
        invariant dest[..destLen] == hist[|old(hist)|..] && dest[destLen..] == old(dest[destLen..])
        invariant Run(d0, x0, total, fin) == Run(Abs(), tempBuf[..tempBufSize] + src[srcLen..], total, fin)
        decreases left
      {
        WrapDic();
        ValidParts();
        var start := dicPos;
        var limit := dic.Length;
        var curFin := false;
        if left <= dic.Length - start {
          limit := start + left;
          curFin := fin;
        }
        ghost var h, d, x := hist, Abs(), tempBuf[..tempBufSize] + src[srcLen..];
        PieceOfRun(d, x, |hist| + (limit - dicPos), curFin, total, fin);
        var used;
        res, used, status := DecodeToDic(limit, src[srcLen..], curFin);
        KeptParts(h, start, limit);
        assert src[srcLen..][used..] == src[srcLen + used..];
        srcLen := srcLen + used;
        var made := dicPos - start;
        ghost var tail := dest[destLen..];
        CopyOut(dest, destLen, start, |old(hist)|, h, limit);
        assert dest[destLen + made..] == tail[made..];
        left := left - made;
        destLen := destLen + made;
        if res != Ok {
          return;
        }
        ValidParts();
        CarryParts();
        if made == 0 || left == 0 {
          return;
        }
      }
    }

    // ---------- Setting up ----------

    /** LzmaDec_Allocate and LzmaDec_Init */
    constructor (p: Props)
      requires PropsOk(p)
      ensures Valid() && DecOk(Abs()) && Carry() && tempBufSize == 0 && dicPos == 0 && hist == [] && prop == p
      ensures probs.Length == NumProbs(p) && dic.Length == DicBufSize(p.dicSize) && Abs().remain == NEED_INIT_STATE
      ensures fresh(probs) && fresh(dic) && fresh(tempBuf)
    {
      hide NumProbs, DicBufSize;
      prop := p;
      probs := new int[NumProbs(p)];
      dic := new byte[DicBufSize(p.dicSize)];
      tempBuf := new byte[REQUIRED_INPUT_MAX];
      new;
      Init();
    }

    /** LzmaDec_InitDicAndState */
    method InitDicAndState(initDic: bool, initState: bool)
      requires Valid()
      modifies this`remainLen, this`tempBufSize, this`processedPos, this`checkDicSize, this`hist
      ensures Valid() && tempBufSize == 0 && hist == (if initDic then [] else old(hist))
      ensures Abs() == old(Abs()).(hist := hist, remain := if initDic || initState then NEED_INIT_STATE else NEED_INIT_RC)
    {
      hide NumProbs;
      remainLen := NEED_INIT_RC;
      tempBufSize := 0;
      if initDic {
        processedPos := 0;
        checkDicSize := 0;
        remainLen := NEED_INIT_STATE;
        hist := [];
      }
      if initState {
        remainLen := NEED_INIT_STATE;
      }
    }

    /** LzmaDec_Init */
    method Init()
      requires Shape() && 0x1000 <= prop.dicSize
      modifies this`dicPos, this`remainLen, this`tempBufSize, this`processedPos, this`checkDicSize, this`hist
      ensures Valid() && DecOk(Abs()) && Carry() && tempBufSize == 0 && dicPos == 0 && hist == []
      ensures Abs().remain == NEED_INIT_STATE
    {
      hide NumProbs;
      dicPos, hist, processedPos, checkDicSize := 0, [], 0, 0;
      InitDicAndState(true, true);
    }

    /** memcpy(dic + dicPos, src, size) */
    method Blit(src: seq<byte>)
      requires dicPos + |src| <= dic.Length
      modifies dic
      ensures dic[..] == Overwritten(old(dic[..]), dicPos, src)
    {
      forall i | 0 <= i < |src| {
        dic[dicPos + i] := src[i];
      }
    }

    /** LzmaDec_UpdateWithUncompressed: the bytes join the history without the coder. */
    method UpdateWithUncompressed(src: seq<byte>)
      requires Valid() && dicPos + |src| <= dic.Length
      modifies this`dicPos, this`processedPos, this`checkDicSize, this`hist, dic
      ensures Valid() && hist == old(hist) + src && dicPos == old(dicPos) + |src|
    {
      UncompressedOk(dic[..], dicPos, hist, prop.dicSize, processedPos, checkDicSize, src);
      hide DictOk, NumProbs, PropsOk, Overwritten;
      Blit(src);
      dicPos := dicPos + |src|;
      if checkDicSize == 0 && prop.dicSize - processedPos <= |src| {
        checkDicSize := prop.dicSize;
      }
      processedPos := (processedPos + |src|) % WORD;
      hist := hist + src;
    }
  }

  /** The bytes received so far, and made more. */
  lemma Appended(dest: seq<byte>, at: nat, made: nat, from: nat, h1: seq<byte>, h2: seq<byte>)
    requires at + made <= |dest| && h1 <= h2 && |h1| == from + at && |h2| == |h1| + made
    requires dest[..at] == h1[from..] && dest[at..at + made] == h2[|h2| - made..]
    ensures dest[..at + made] == h2[from..]
  {
    assert dest[..at + made] == dest[..at] + dest[at..at + made];
    assert h2[from..] == h1[from..] + h2[|h1|..];
  }

  lemma RunFlushed(d: Dec, x: seq<byte>, limit: nat, fin: bool)
    requires DecOk(d) && d.remain <= FINISHED
    ensures Copying(d) ==> 1 <= d.rep0 <= |d.hist|
    ensures var e := Flush(d, limit);
            && DecOk(e) && e.remain <= FINISHED && Run(d, x, limit, fin) == Run(e, x, limit, fin)
            && |d.hist| <= |e.hist| && (d.remain == FINISHED <==> e.remain == FINISHED)
            && (|e.hist| < limit && e.remain != FINISHED ==> e.remain == 0) && (d.remain == 0 ==> e == d)
            && (|d.hist| >= limit ==> e == d)
  {
    if d.remain != FINISHED {
      FlushOk(d, limit);
      RunFlush(d, x, limit, limit, fin);
      hide Run;
    }
  }

  /** One pass of the symbol loop as a step of the run. */
  lemma StepFacts(d: Dec, x: seq<byte>, y: seq<byte>, near: nat, to: nat, fin: bool, room: bool)
    requires Ready(d) && !BadStart(d) && NextSymbol(d, x).Decoded? && near <= to
    requires if room then |d.hist| < near else |d.hist| == near == to && fin && d.code != 0
    ensures var r := NextSymbol(d, x);
            if SymbolFits(d, r.sym, room) && (room || r.sym.MatchSym?) then
              !Unreachable(d, r.sym) &&
              var e := AfterOne(d, x, near);
              && DecOk(e) && e.remain <= FINISHED && d.hist <= e.hist
              && (room ==> |d.hist| < |e.hist| || e.remain == FINISHED)
              && (!room ==> e.remain == FINISHED)
              && (|e.hist| < near && e.remain != FINISHED ==> Ready(e) && e.remain == 0)
              && (e.hist == [] ==> e.remain == FINISHED) && (e.hist != [] ==> !BadStart(e))
              && Run(d, x + y, to, fin) == Run(e, r.rc.rest + y, to, fin)
            else
              Run(d, x + y, to, fin) == Failed
  {
    var r := NextSymbol(d, x);
    if room {
      OneSymbolRun(d, x, y, near, to, fin);
    } else {
      EndMarkRun(d, x, y, to);
    }
    if SymbolFits(d, r.sym, room) {
      AfterOneOk(d, x, near);
    }
    hide NextSymbol, Run, DecOk;
  }

  lemma SymbolNodes(d: Dec)
    requires Ready(d)
    ensures var c := CtxOf(d);
            && c.state == d.state
            && NodeOk(IsMatch) && NodeOk(IsRep)
            && Index(c, IsMatch) == IS_MATCH + c.posState + c.state && Index(c, IsRep) == IS_REP + c.state
            && (Next(c, IsMatch, false).Lit? || Next(c, IsMatch, false).MatchedLit?)
            && Next(c, IsMatch, true) == IsRep
            && Next(c, IsRep, false) == LenChoice(ForMatch) && Next(c, IsRep, true) == RepG0
  {
  }

  lemma PossibleSymbols(d: Dec, sym: Symbol)
    ensures sym.LitSym? || sym.MatchSym? ==> SymbolPossible(d, sym)
    ensures !sym.MatchSym? ==> SymbolFits(d, sym, true) && SymbolFits(d, sym, false)
    ensures SymbolFits(d, sym, false) ==> SymbolFits(d, sym, true)
  {
  }

  /** In a fresh stream that passed the check of its code, the first symbol is no repetition. */
  lemma ClassOf(d: Dec, x: seq<byte>)
    requires Ready(d) && !BadStart(d) && NextSymbol(d, x).Decoded?
    ensures d.hist == [] ==> NextSymbol(d, x).sym.LitSym? || NextSymbol(d, x).sym.MatchSym?
  {
    if d.hist == [] {
      FirstSymbol(d, x);
    }
  }

  lemma AfterOneIs(d: Dec, x: seq<byte>, limit: nat)
    requires Ready(d) && !BadStart(d) && NextSymbol(d, x).Decoded?
    ensures var r := NextSymbol(d, x);
            && SymbolPossible(d, r.sym)
            && (SymbolFits(d, r.sym, false) ==> SymbolFits(d, r.sym, true))
            && (SymbolFits(d, r.sym, true) <==> !Unreachable(d, r.sym))
            && (!Unreachable(d, r.sym) ==> AfterOne(d, x, limit) == Landing(d, r, limit))
  {
    ClassOf(d, x);
    hide NextSymbol;
  }

  lemma LitTableIs(p: Props, hist: seq<byte>)
    requires PropsOk(p)
    ensures LitTable(p, hist) == LITERAL + (if hist == [] then 0 else LIT_SIZE * LitSlot(p, hist))
    ensures Pow2(p.lc) >= 1 && Pow2(p.lp) >= 1 && Pow2(8 - p.lc) >= 1 && Pow2(8 + p.lp) >= 1
  {
    hide LitSlot, Pow2;
  }

  lemma SlotIs(dicPos: int, distance: int, size: int)
    ensures Slot(dicPos, distance, size) == dicPos - distance + (if dicPos < distance then size else 0)
  {
  }

  lemma SmallPosition(n: nat)
    ensures n < WORD ==> n % WORD == n
  {
  }

  /** The first node of a literal. */
  lemma LiteralNode(d: Dec)
    requires Ready(d)
    ensures CoderOk(d)
    ensures var c := CtxOf(d);
            && c.lit == LitTable(d.props, d.hist) && NodeOk(IsMatch)
            && (d.state < 7 ==> Next(c, IsMatch, false) == Lit(1, 8))
            && (d.state >= 7 ==>
                  1 <= d.rep0 <= |d.hist| && d.rep0 <= d.props.dicSize &&
                  Next(c, IsMatch, false) == MatchedLit(1, 8, 0x100, d.hist[|d.hist| - d.rep0]))
  {
    hide LitTable, NumProbs;
  }

  /** The nodes of a repeated match. */
  lemma RepSteps(c: Ctx)
    requires CtxOk(c)
    ensures Index(c, IsRep) == IS_REP + c.state && Index(c, RepG0) == IS_REP_G0 + c.state
    ensures Index(c, RepG1) == IS_REP_G1 + c.state && Index(c, RepG2) == IS_REP_G2 + c.state
    ensures Index(c, Rep0Long) == IS_REP0_LONG + c.posState + c.state
    ensures Next(c, IsRep, false) == LenChoice(ForMatch) && Next(c, IsRep, true) == RepG0
    ensures Next(c, RepG0, false) == Rep0Long && Next(c, RepG0, true) == RepG1
    ensures Next(c, Rep0Long, false) == Done(ShortRepSym) && Next(c, Rep0Long, true) == LenChoice(ForRep(0))
    ensures Next(c, RepG1, false) == LenChoice(ForRep(1)) && Next(c, RepG1, true) == RepG2
    ensures Next(c, RepG2, false) == LenChoice(ForRep(2)) && Next(c, RepG2, true) == LenChoice(ForRep(3))
  {
  }

  /** The look-ahead over which older distance is repeated. */
  method PeekOlder(probs: array<int>, state: nat, src: seq<byte>, r: Regs, ghost c: Ctx, ghost v: Walk, ghost goal: SymbolResult)
    returns (ok: bool, r': Regs, ghost v': Walk, ghost which: nat)
    requires Peeking(probs, src, r, c, v, goal) && v.n == RepG1 && c.state == state && CtxOk(c)
    ensures !ok ==> goal.OutOfInput?
    ensures ok ==> Peeking(probs, src, r', c, v', goal) && 1 <= which < 4 && v'.n == LenChoice(ForRep(which))
  {
    RepSteps(c);
    hide *;
    which := 1;
    var bit;
    ok, r', bit, v' := PeekBit(probs, IS_REP_G1 + state, src, r, c, v, goal);
    if !ok || !bit {
      return;
    }
    ok, r', bit, v' := PeekBit(probs, IS_REP_G2 + state, src, r', c, v', goal);
    which := if bit then 3 else 2;
  }

  /** The look-ahead over a repeated match. */
  method PeekRep(probs: array<int>, state: nat, posState: nat, src: seq<byte>, r: Regs,
                 ghost c: Ctx, ghost v: Walk, ghost goal: SymbolResult)
    returns (ok: bool, r': Regs, ghost v': Walk)
    requires Peeking(probs, src, r, c, v, goal) && v.n == RepG0 && c.state == state && c.posState == posState
    ensures !ok ==> goal.OutOfInput?
    ensures ok ==> Peeking(probs, src, r', c, v', goal) && v'.n.Done? && (v'.n.result.ShortRepSym? || v'.n.result.RepSym?)
  {
    RepSteps(c);
    assert CtxOk(c);
    hide *;
    var bit, len;
    ghost var which: nat := 0;
    ok, r', bit, v' := PeekBit(probs, IS_REP_G0 + state, src, r, c, v, goal);
    if !ok {
      return;
    }
    if !bit {
      ok, r', bit, v' := PeekBit(probs, IS_REP0_LONG + posState + state, src, r', c, v', goal);
      if !ok || !bit {
        return;
      }
    } else {
      ok, r', v', which := PeekOlder(probs, state, src, r', c, v', goal);
      if !ok {
        return;
      }
    }
    RepOwner(which);
    ok, r', len, v' := PeekLen(probs, REP_LEN_CODER, posState, src, r', ForRep(which), c, v', goal);
    if ok {
      AfterRepLen(which, len);
    }
  }

  lemma RepOwner(which: nat)
    requires which < 4
    ensures LenBase(ForRep(which)) == REP_LEN_CODER && OwnerOk(ForRep(which))
  {
  }

  lemma AfterRepLen(which: nat, len: nat)
    requires which < 4 && len < 272
    ensures AfterLen(ForRep(which), len) == Done(RepSym(which, len))
  {
  }
}
