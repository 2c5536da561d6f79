/** The x86 branch converter (BCJ) of Bra86.c. */
module Bra86 {
  import opened Arithmetic
  import opened Bytes

  /** Test86MSByte: a sign byte of a near displacement. */
  predicate SignByte(b: byte) {
    b == 0 || b == 0xFF
  }

  /** CALL or JMP with a 32-bit displacement: (b & 0xFE) == 0xE8. */
  predicate Opcode(b: byte) {
    b == 0xE8 || b == 0xE9
  }

  // ---------- The displacement ----------

  function Moved(v: int, cur: word, encoding: bool): word {
    (if encoding then v + cur else v - cur) % WORD
  }

  /** 0x100 << sh, where sh == (mask & 6) << 2. */
  function Span(mask: nat): nat {
    if mask < 2 then 0x100 else if mask < 4 then 0x1_0000 else 0x100_0000
  }

  /** The byte that an earlier opcode byte would take for its sign byte: (Byte)(v >> sh). */
  function GuardedByte(v: int, mask: nat): byte {
    v % Span(mask) / (Span(mask) / 0x100)
  }

  /** v ^ (span - 1) */
  function Flipped(v: word, mask: nat): (r: word) {
    v - v % Span(mask) + (Span(mask) - 1 - v % Span(mask))
  }

  /** The converted address, corrected so that the guarded byte is no sign byte. */
  function Address(v: word, cur: word, mask: nat, encoding: bool): word {
    var u := Moved(v, cur, encoding);
    if mask != 0 && SignByte(GuardedByte(u, mask)) then Moved(Flipped(u, mask), cur, encoding) else u
  }

  // ---------- Conversion and its inverse ----------

  lemma MovedBack(v: word, cur: word, encoding: bool)
    ensures Moved(Moved(v, cur, encoding), cur, !encoding) == v
  {
  }

  predicate IsSpan(m: nat) {
    m == 0x100 || m == 0x1_0000 || m == 0x100_0000 || m == 0x200_0000
  }

  /** Low bits of a 32-bit result depend on low bits only. */
  lemma LowBitsOfWord(x: int, m: nat)
    requires IsSpan(m)
    ensures x % WORD % m == x % m
  {
    var k := WORD / m;
    assert m * k == WORD;
    DivisionParts(x, WORD);
    ScaleProduct(k, m, x / WORD);
    RemainderShift(x, -(k * (x / WORD)), m);
  }

  lemma SameLowBits(a: int, b: int, c: int, m: nat)
    requires m > 0 && a % m == b % m
    ensures (a + c) % m == (b + c) % m && (a - c) % m == (b - c) % m
  {
    DivisionParts(a, m);
    DivisionParts(b, m);
    var k: int := a / m - b / m;
    assert a == b + m * k;
    RemainderShift(b + c, k, m);
    RemainderShift(b - c, k, m);
  }

  lemma LowMoved(a: int, b: int, cur: word, m: nat, encoding: bool)
    requires IsSpan(m) && a % m == b % m
    ensures Moved(a, cur, encoding) % m == Moved(b, cur, encoding) % m
  {
    var w: int := cur;
    var c: int := if encoding then w else -w;
    SameLowBits(a, b, c, m);
    LowBitsOfWord(a + c, m);
    LowBitsOfWord(b + c, m);
  }

  lemma Negated(u: int, m: int)
    requires m > 0
    ensures (-1 - u) % m == m - 1 - u % m
  {
    DivisionParts(u, m);
    assert m * (-1 - u / m) == -m - m * (u / m);
    RemainderIs(-1 - u, m, -1 - u / m, m - 1 - u % m);
  }

  /** On the low bits, flipping is the negation -1 - u. */
  lemma FlippedLow(u: word, mask: nat)
    ensures Flipped(u, mask) % Span(mask) == (-1 - u) % Span(mask)
    ensures Flipped(Flipped(u, mask), mask) == u
  {
    var m := Span(mask);
    Negated(u, m);
    DivisionParts(u, m);
    RemainderIs(Flipped(u, mask), m, u / m, m - 1 - u % m);
  }

  lemma MovedNegation(v: word, cur: word, mask: nat, encoding: bool)
    ensures Moved(-1 - Moved(v, cur, encoding), cur, encoding) % Span(mask) == (-1 - v) % Span(mask)
  {
    var m := Span(mask);
    var w: int := cur;
    var c: int := if encoding then w else -w;
    var u := Moved(v, cur, encoding);
    LowBitsOfWord(v + c, m);
    LowBitsOfWord(-1 - u + c, m);
    SameLowBits(u, v + c, -c, m);
    Negated(u - c, m);
    Negated(v, m);
  }

  lemma SignOfNegation(v: int, mask: nat)
    ensures SignByte(GuardedByte(-1 - v, mask)) == SignByte(GuardedByte(v, mask))
  {
    var m, h := Span(mask), Span(mask) / 0x100;
    Negated(v, m);
    DivisionParts(v % m, h);
    var q := v % m / h;
    assert h * (0xFF - q) == h * 0xFF - h * q && 0x100 * h == m;
    QuotientIs(m - 1 - v % m, h, 0xFF - q);
  }

  /**
   The correction makes the conversion a bijection, and keeps the guarded byte from looking
   like a sign byte.
   */
  lemma AddressBack(v: word, cur: word, mask: nat, encoding: bool)
    requires mask != 0 ==> !SignByte(GuardedByte(v, mask))
    ensures Address(Address(v, cur, mask, encoding), cur, mask, !encoding) == v
    ensures mask != 0 ==> !SignByte(GuardedByte(Address(v, cur, mask, encoding), mask))
  {
    var u: int, m := Moved(v, cur, encoding), Span(mask);
    MovedBack(v, cur, encoding);
    if mask != 0 && SignByte(GuardedByte(u, mask)) {
      var flipped := Flipped(u, mask);
      MovedBack(flipped, cur, encoding);
      FlippedLow(u, mask);
      SignOfNegation(u, mask);
      LowMoved(flipped, -1 - u, cur, m, encoding);
      MovedNegation(v, cur, mask, encoding);
      SignOfNegation(v, mask);
      hide Moved, Flipped, SignByte, Span;
      assert GuardedByte(flipped, mask) == GuardedByte(-1 - u, mask);
      assert GuardedByte(Moved(flipped, cur, encoding), mask) == GuardedByte(-1 - v, mask);
    }
  }

  // ---------- The four bytes ----------

  /** 2^25: bits 0 to 24 are kept, and bit 24 fills the last byte. */
  const KEPT := 0x200_0000

  function TopByte(v: word): byte {
    if v / 0x100_0000 % 2 == 1 then 0xFF else 0
  }

  function BytesOf(v: word): (s: seq<byte>)
    ensures |s| == 4
  {
    [v % 0x100, v / 0x100 % 0x100, v / 0x1_0000 % 0x100, TopByte(v)]
  }

  function WordOf(s: seq<byte>): word
    requires |s| == 4
  {
    var a: int, b: int, c: int, d: int := s[0], s[1], s[2], s[3];
    a + b * 0x100 + c * 0x1_0000 + d * 0x100_0000
  }

  /** v by its bytes, as far as bit 24. */
  lemma Low25(v: word)
    ensures v % KEPT ==
              v % 0x100 + v / 0x100 % 0x100 * 0x100 + v / 0x1_0000 % 0x100 * 0x1_0000 + v / 0x100_0000 % 2 * 0x100_0000
  {
    var v1, v2, v3, v4 := v / 0x100, v / 0x1_0000, v / 0x100_0000, v / KEPT;
    assert v2 == v1 / 0x100;
    assert v3 == v2 / 0x100;
    assert v4 == v3 / 2;
  }

  lemma BytesOfSum(a: byte, b: byte, c: byte, t: byte)
    ensures var v: int := a + b * 0x100 + c * 0x1_0000 + t * 0x100_0000;
            v % 0x100 == a && v / 0x100 % 0x100 == b && v / 0x1_0000 % 0x100 == c && v / 0x100_0000 == t
  {
    var v: int := a + b * 0x100 + c * 0x1_0000 + t * 0x100_0000;
    assert v / 0x100 == b + c * 0x100 + t * 0x1_0000;
    assert v / 0x1_0000 == c + t * 0x100;
  }

  lemma WordOfBytes(v: word)
    ensures WordOf(BytesOf(v)) % KEPT == v % KEPT && SignByte(BytesOf(v)[3])
  {
    Low25(v);
    Low25(WordOf(BytesOf(v)));
    var s := BytesOf(v);
    BytesOfSum(s[0], s[1], s[2], s[3]);
  }

  lemma SameDigits(a: byte, b: byte, c: byte, t: nat, a': byte, b': byte, c': byte, t': nat)
    requires a + b * 0x100 + c * 0x1_0000 + t * 0x100_0000 == a' + b' * 0x100 + c' * 0x1_0000 + t' * 0x100_0000
    ensures a == a' && b == b' && c == c' && t == t'
  {
    assert a == a';
    assert b == b';
  }

  lemma BytesOfWord(s: seq<byte>, v: word)
    requires |s| == 4 && SignByte(s[3]) && v % KEPT == WordOf(s) % KEPT
    ensures BytesOf(v) == s
  {
    Low25(v);
    Low25(WordOf(s));
    BytesOfSum(s[0], s[1], s[2], s[3]);
    SameDigits(v % 0x100, v / 0x100 % 0x100, v / 0x1_0000 % 0x100, v / 0x100_0000 % 2, s[0], s[1], s[2], s[3] % 2);
  }

  lemma KeptLow(a: word, b: word, mask: nat)
    requires a % KEPT == b % KEPT
    ensures a == b + KEPT * (a / KEPT - b / KEPT)
    ensures a % Span(mask) == b % Span(mask)
  {
    var m, k: int := Span(mask), a / KEPT - b / KEPT;
    DivisionParts(a, KEPT);
    DivisionParts(b, KEPT);
    RemainderShift(b, KEPT / m * k, m);
    ScaleProduct(KEPT / m, m, k);
  }

  lemma FlipKept(a: word, b: word, mask: nat)
    requires a % KEPT == b % KEPT
    ensures Flipped(a, mask) % KEPT == Flipped(b, mask) % KEPT
    ensures GuardedByte(a, mask) == GuardedByte(b, mask)
  {
    KeptLow(a, b, mask);
    var k: int := a / KEPT - b / KEPT;
    assert Flipped(a, mask) == Flipped(b, mask) + KEPT * k;
    RemainderShift(Flipped(b, mask), k, KEPT);
  }

  lemma AddressKept(a: word, b: word, cur: word, mask: nat, encoding: bool)
    requires a % KEPT == b % KEPT
    ensures Address(a, cur, mask, encoding) % KEPT == Address(b, cur, mask, encoding) % KEPT
  {
    var ua, ub := Moved(a, cur, encoding), Moved(b, cur, encoding);
    LowMoved(a, b, cur, KEPT, encoding);
    FlipKept(ua, ub, mask);
    LowMoved(Flipped(ua, mask), Flipped(ub, mask), cur, KEPT, encoding);
    hide Moved, Flipped, GuardedByte;
  }

  /** p[1..5] of a converted instruction; cur is the address after it. */
  function Converted(s: seq<byte>, cur: word, mask: nat, encoding: bool): (r: seq<byte>)
    requires |s| == 4
    ensures |r| == 4
  {
    BytesOf(Address(WordOf(s), cur, mask, encoding))
  }

  /** The byte that the opcode byte marked by mask would take for its sign byte. */
  lemma GuardIsByte(s: seq<byte>, mask: nat)
    requires |s| == 4 && mask <= 4
    ensures GuardedByte(WordOf(s), mask) == s[mask / 2]
  {
    var v, a: int, b: int, c: int, t: int := WordOf(s), s[0], s[1], s[2], s[3];
    RemainderIs(v, 0x100, b + 0x100 * c + 0x1_0000 * t, a);
    RemainderIs(v, 0x1_0000, c + 0x100 * t, a + 0x100 * b);
    RemainderIs(v, 0x100_0000, t, a + 0x100 * b + 0x1_0000 * c);
  }

  lemma ConvertedBack(s: seq<byte>, cur: word, mask: nat, encoding: bool)
    requires |s| == 4 && SignByte(s[3]) && mask <= 4
    requires mask != 0 ==> !SignByte(s[mask / 2])
    ensures var r := Converted(s, cur, mask, encoding);
            SignByte(r[3]) && (mask != 0 ==> !SignByte(r[mask / 2])) && Converted(r, cur, mask, !encoding) == s
  {
    var v, a := WordOf(s), Address(WordOf(s), cur, mask, encoding);
    var r := BytesOf(a);
    GuardIsByte(s, mask);
    GuardIsByte(r, mask);
    WordOfBytes(a);
    AddressBack(v, cur, mask, encoding);
    AddressKept(WordOf(r), a, cur, mask, !encoding);
    FlipKept(WordOf(r), a, mask);
    BytesOfWord(s, Address(WordOf(r), cur, mask, !encoding));
    hide Address, WordOf, BytesOf, GuardedByte, SignByte, Flipped;
  }

  // ---------- The run ----------

  /** What the converter does at one position. */
  datatype Move = Skip | Mark | Convert

  /**
   mask has a bit for each of the three positions before this one whose opcode byte was left
   alone: 4 for the last, 1 for the third last.
   */
  function MoveAt(s: seq<byte>, mask: nat): Move
    requires |s| >= 5 && mask < 8
  {
    if !Opcode(s[0]) then Skip
    else if mask != 0 && (mask > 4 || mask == 3 || SignByte(s[mask / 2 + 1])) then Mark
    else if SignByte(s[4]) then Convert
    else Mark
  }

  function Width(move: Move): nat {
    if move.Convert? then 5 else 1
  }

  function NextMask(mask: nat, move: Move): (r: nat)
    requires mask < 8
    ensures r < 8
  {
    match move
    case Skip => mask / 2
    case Mark => mask / 2 + 4
    case Convert => 0
  }

  /** The bytes the move is about. */
  function Head(s: seq<byte>, cur: word, mask: nat, move: Move, encoding: bool): (r: seq<byte>)
    requires |s| >= 5
    ensures |r| == Width(move) && r[0] == s[0]
  {
    if move.Convert? then s[..1] + Converted(s[1..5], cur, mask, encoding) else s[..1]
  }

  datatype Result = Result(out: seq<byte>, used: nat, mask: nat, path: seq<Move>)

  function After(done: seq<byte>, move: Move, r: Result): Result {
    Result(done + r.out, |done| + r.used, r.mask, [move] + r.path)
  }

  /** The rest of the buffer after the first move. */
  function Tail(s: seq<byte>, cur: word, mask: nat, encoding: bool): Result
    requires |s| >= 5 && mask < 8
    decreases |s|, 0
  {
    var move := MoveAt(s, mask);
    Run(s[Width(move)..], (cur + Width(move)) % WORD, NextMask(mask, move), encoding)
  }

  /** The buffer s converted from its start; cur is the address 5 bytes on. */
  function Run(s: seq<byte>, cur: word, mask: nat, encoding: bool): (r: Result)
    requires mask < 8
    ensures |r.out| == |s| && r.used <= |s| && r.mask < 8
    ensures r.out[r.used..] == s[r.used..] && |s| < r.used + 5 && (|s| < 5 ==> r == Result(s, 0, mask, []))
    decreases |s|, 1
  {
    if |s| < 5 then Result(s, 0, mask, [])
    else
      hide MoveAt, NextMask;
      var move := MoveAt(s, mask);
      After(Head(s, cur, mask, move, encoding), move, Tail(s, cur, mask, encoding))
  }

  lemma RunParts(s: seq<byte>, cur: word, mask: nat, encoding: bool)
    requires |s| >= 5 && mask < 8
    ensures var r, move, tail := Run(s, cur, mask, encoding), MoveAt(s, mask), Tail(s, cur, mask, encoding);
            && r == After(Head(s, cur, mask, move, encoding), move, tail)
            && tail == Run(s[Width(move)..], (cur + Width(move)) % WORD, NextMask(mask, move), encoding)
            && r.out[0] == s[0] && |tail.out| == |s| - Width(move)
            && r.out[..Width(move)] == Head(s, cur, mask, move, encoding) && r.out[Width(move)..] == tail.out
  {
    hide MoveAt, Converted;
  }

  /** Bit j of the mask. */
  predicate Marked(mask: nat, j: nat) {
    j < 3 && (if j == 0 then mask % 2 == 1 else if j == 1 then mask / 2 % 2 == 1 else mask / 4 % 2 == 1)
  }

  lemma MarkedNext(mask: nat, move: Move)
    requires mask < 8 && !move.Convert?
    ensures forall j: nat :: j > 0 && Marked(mask, j) ==> Marked(NextMask(mask, move), j - 1)
    ensures move.Mark? ==> Marked(NextMask(mask, move), 2)
  {
  }

  /** A marked opcode byte never comes to look like one that is to be converted, nor the reverse. */
  lemma {:induction false} SignBytesStay(s: seq<byte>, cur: word, mask: nat, encoding: bool, j: nat)
    requires mask < 8 && Marked(mask, j) && j + 1 < |s|
    ensures SignByte(Run(s, cur, mask, encoding).out[j + 1]) == SignByte(s[j + 1])
    decreases |s|, 0
  {
    if |s| >= 5 {
      var move := MoveAt(s, mask);
      RunParts(s, cur, mask, encoding);
      if move == Convert {
        ConvertGuards(s, cur, mask, encoding, j);
      } else {
        MarkedNext(mask, move);
        hide Run, MoveAt, SignByte, Marked, NextMask;
        SignStaysLater(s[1..], (cur + 1) % WORD, NextMask(mask, move), encoding, j);
      }
    }
  }

  /** At most one marked opcode byte is near a conversion, and the byte it looks at stays no sign byte. */
  lemma ConvertGuards(s: seq<byte>, cur: word, mask: nat, encoding: bool, j: nat)
    requires |s| >= 5 && mask < 8 && MoveAt(s, mask) == Convert && Marked(mask, j)
    ensures !SignByte(s[j + 1]) && !SignByte(Head(s, cur, mask, Convert, encoding)[j + 1])
  {
    ConvertedBack(s[1..5], cur, mask, encoding);
    hide Converted, SignByte;
  }

  lemma SignStaysLater(s: seq<byte>, cur: word, mask: nat, encoding: bool, j: nat)
    requires mask < 8 && j < |s| && (j > 0 ==> Marked(mask, j - 1))
    ensures SignByte(Run(s, cur, mask, encoding).out[j]) == SignByte(s[j])
    decreases |s|, 1
  {
    if j > 0 {
      SignBytesStay(s, cur, mask, encoding, j - 1);
    } else if |s| >= 5 {
      RunParts(s, cur, mask, encoding);
    }
    hide Run, SignByte;
  }

  lemma SameMove(s: seq<byte>, t: seq<byte>, mask: nat)
    requires |s| == |t| >= 5 && mask < 8 && s[0] == t[0]
    requires MoveAt(s, mask) != Skip ==> SignByte(s[4]) == SignByte(t[4])
    requires MoveAt(s, mask) != Skip && (mask == 1 || mask == 2 || mask == 4) ==>
               SignByte(s[mask / 2 + 1]) == SignByte(t[mask / 2 + 1])
    ensures MoveAt(s, mask) == MoveAt(t, mask)
  {
  }

  lemma HeadSign(s: seq<byte>, cur: word, mask: nat, encoding: bool)
    requires |s| >= 5 && mask < 8 && MoveAt(s, mask) == Convert
    ensures SignByte(s[4]) && SignByte(Head(s, cur, mask, Convert, encoding)[4])
  {
    ConvertedBack(s[1..5], cur, mask, encoding);
    hide Converted, SignByte;
  }

  /** The sign byte of the opcode byte at hand looks the same in the other direction. */
  lemma OwnSignStays(s: seq<byte>, cur: word, mask: nat, encoding: bool)
    requires |s| >= 5 && mask < 8 && MoveAt(s, mask) != Skip
    ensures SignByte(Run(s, cur, mask, encoding).out[4]) == SignByte(s[4])
  {
    hide Run, Tail, MoveAt, SignByte, NextMask, Marked, Head;
    var move, t := MoveAt(s, mask), Run(s, cur, mask, encoding).out;
    RunParts(s, cur, mask, encoding);
    if move == Mark {
      MarkedNext(mask, move);
      SignBytesStay(s[1..], (cur + 1) % WORD, NextMask(mask, move), encoding, 2);
      assert t[4] == t[1..][3];
    } else {
      HeadSign(s, cur, mask, encoding);
      assert t[4] == t[..5][4];
    }
  }

  /** The other direction takes the same first move. */
  lemma MoveBack(s: seq<byte>, cur: word, mask: nat, encoding: bool)
    requires |s| >= 5 && mask < 8
    ensures MoveAt(Run(s, cur, mask, encoding).out, mask) == MoveAt(s, mask)
  {
    hide Run, SignByte, MoveAt;
    FirstByteStays(s, cur, mask, encoding);
    if MoveAt(s, mask) != Skip {
      OwnSignStays(s, cur, mask, encoding);
      if mask == 1 || mask == 2 || mask == 4 {
        SignBytesStay(s, cur, mask, encoding, mask / 2);
      }
    }
    SameMove(s, Run(s, cur, mask, encoding).out, mask);
  }

  lemma FirstByteStays(s: seq<byte>, cur: word, mask: nat, encoding: bool)
    requires |s| >= 5 && mask < 8
    ensures Run(s, cur, mask, encoding).out[0] == s[0]
  {
    RunParts(s, cur, mask, encoding);
  }

  lemma HeadBack(s: seq<byte>, t: seq<byte>, cur: word, mask: nat, encoding: bool)
    requires |s| == |t| >= 5 && mask < 8
    requires var move := MoveAt(s, mask); t[..Width(move)] == Head(s, cur, mask, move, encoding)
    ensures var move := MoveAt(s, mask); Head(t, cur, mask, move, !encoding) == s[..Width(move)]
  {
    if MoveAt(s, mask) == Convert {
      ConvertedBack(s[1..5], cur, mask, encoding);
      assert t[1..5] == t[..5][1..];
      hide Converted;
    }
  }

  lemma AfterBack(head: seq<byte>, move: Move, tail: Result, s: seq<byte>)
    requires |head| <= |s|
    ensures After(s[..|head|], move, tail.(out := s[|head|..])) == After(head, move, tail).(out := s)
  {
    assert s[..|head|] + s[|head|..] == s;
  }

  /** Both directions take the same path, and each undoes the other. */
  lemma {:induction false} RunBack(s: seq<byte>, cur: word, mask: nat, encoding: bool)
    requires mask < 8
    ensures var r := Run(s, cur, mask, encoding); Run(r.out, cur, mask, !encoding) == r.(out := s)
  {
    hide Run, Tail, MoveAt, NextMask, Head, Width, Converted, After;
    if |s| >= 5 {
      var r, move := Run(s, cur, mask, encoding), MoveAt(s, mask);
      var w, head := Width(move), Head(s, cur, mask, move, encoding);
      RunParts(s, cur, mask, encoding);
      WidthOfHead(s, cur, mask, encoding);
      MoveBack(s, cur, mask, encoding);
      HeadBack(s, r.out, cur, mask, encoding);
      RunBack(s[w..], (cur + w) % WORD, NextMask(mask, move), encoding);
      RunParts(r.out, cur, mask, !encoding);
      AfterBack(head, move, Tail(s, cur, mask, encoding), s);
    }
  }

  /** The result q of a second call, continuing where r stopped. */
  function Joined(r: Result, q: Result): Result
    requires r.used <= |r.out|
  {
    Result(r.out[..r.used] + q.out, r.used + q.used, q.mask, r.path + q.path)
  }

  lemma AfterPieces(head: seq<byte>, move: Move, tail: Result, q: Result)
    requires tail.used <= |tail.out|
    ensures var r := After(head, move, tail);
            r.used <= |r.out| && After(head, move, Joined(tail, q)) == Joined(r, q)
  {
  }

  lemma AddressOn(cur: int, w: nat, used: nat)
    ensures ((cur + w) % WORD + used) % WORD == (cur + (w + used)) % WORD
  {
  }

  /** The first move does not look past the first five bytes. */
  lemma MoveOfLonger(x: seq<byte>, y: seq<byte>, cur: word, mask: nat, encoding: bool)
    requires |x| >= 5 && mask < 8
    ensures var s, move := x + y, MoveAt(x, mask);
            var w, head := Width(move), Head(x, cur, mask, move, encoding);
            && s[w..] == x[w..] + y
            && Run(s, cur, mask, encoding) ==
               After(head, move, Run(x[w..] + y, (cur + w) % WORD, NextMask(mask, move), encoding))
  {
    var s, move := x + y, MoveAt(x, mask);
    assert s[0] == x[0] && s[4] == x[4] && (mask <= 4 ==> s[mask / 2 + 1] == x[mask / 2 + 1]);
    assert MoveAt(s, mask) == move;
    assert s[1..5] == x[1..5] && s[..1] == x[..1] && s[Width(move)..] == x[Width(move)..] + y;
    hide MoveAt, Converted, NextMask;
  }

  /** Converting in pieces, with the carried mask, is converting at once. */
  lemma {:induction false} RunPieces(x: seq<byte>, y: seq<byte>, cur: word, mask: nat, encoding: bool)
    requires mask < 8
    ensures var r := Run(x, cur, mask, encoding);
            var q := Run(x[r.used..] + y, (cur + r.used) % WORD, r.mask, encoding);
            Run(x + y, cur, mask, encoding) == Joined(r, q)
  {
    hide Run, Tail, MoveAt, Width, Head, NextMask, After, Joined, Converted;
    if |x| >= 5 {
      var r, move := Run(x, cur, mask, encoding), MoveAt(x, mask);
      var w, head := Width(move), Head(x, cur, mask, move, encoding);
      WidthOfHead(x, cur, mask, encoding);
      MoveOfLonger(x, y, cur, mask, encoding);
      RunParts(x, cur, mask, encoding);
      var tail := Run(x[w..], (cur + w) % WORD, NextMask(mask, move), encoding);
      RunPieces(x[w..], y, (cur + w) % WORD, NextMask(mask, move), encoding);
      AfterFields(head, move, tail);
      assert x[w..][tail.used..] == x[r.used..];
      AddressOn(cur, w, tail.used);
      AfterPieces(head, move, tail, Run(x[r.used..] + y, (cur + r.used) % WORD, r.mask, encoding));
    } else {
      ShortPiece(x, y, cur, mask, encoding);
    }
  }

  lemma ShortPiece(x: seq<byte>, y: seq<byte>, cur: word, mask: nat, encoding: bool)
    requires mask < 8 && |x| < 5
    ensures var r := Run(x, cur, mask, encoding);
            var q := Run(x[r.used..] + y, (cur + r.used) % WORD, r.mask, encoding);
            Run(x + y, cur, mask, encoding) == Joined(r, q)
  {
    var r := Run(x, cur, mask, encoding);
    assert r == Result(x, 0, mask, []);
    hide Run;
    assert x[r.used..] + y == x + y;
    assert (cur + r.used) % WORD == cur;
    var q := Run(x + y, cur, mask, encoding);
    assert r.out[..0] + q.out == q.out && r.path + q.path == q.path;
  }

  lemma AfterFields(head: seq<byte>, move: Move, tail: Result)
    ensures var r := After(head, move, tail); r.used == |head| + tail.used && r.mask == tail.mask
  {
  }

  lemma WidthOfHead(x: seq<byte>, cur: word, mask: nat, encoding: bool)
    requires |x| >= 5 && mask < 8
    ensures var move := MoveAt(x, mask); 1 <= Width(move) <= 5 && |Head(x, cur, mask, move, encoding)| == Width(move)
  {
    hide Converted;
  }

  // ---------- The converter ----------

  /** mask >> d, for three bits. */
  function Shifted(mask: nat, d: nat): nat {
    if d == 0 then mask else if d == 1 then mask / 2 else if d == 2 then mask / 4 else 0
  }

  /** The run over the whole buffer s, when everything before pos is done. */
  predicate Continues(whole: Result, done: seq<byte>, s: seq<byte>, cur: word, mask: nat, encoding: bool)
    requires mask < 8
  {
    var r := Run(s, cur, mask, encoding);
    whole.out == done + r.out && whole.used == |done| + r.used && whole.mask == r.mask
  }

  lemma ContinueMove(whole: Result, done: seq<byte>, s: seq<byte>, cur: word, mask: nat, encoding: bool)
    requires mask < 8 && |s| >= 5 && Continues(whole, done, s, cur, mask, encoding)
    ensures var move := MoveAt(s, mask);
            Continues(whole, done + Head(s, cur, mask, move, encoding), s[Width(move)..],
                      (cur + Width(move)) % WORD, NextMask(mask, move), encoding)
  {
    hide Run, Tail, MoveAt, Head, NextMask, Width;
    RunParts(s, cur, mask, encoding);
    WidthOfHead(s, cur, mask, encoding);
    var head, tail := Head(s, cur, mask, MoveAt(s, mask), encoding), Tail(s, cur, mask, encoding);
    assert done + (head + tail.out) == done + head + tail.out;
  }

  /** The run has come to position p of buf. */
  predicate Reached(whole: Result, buf: seq<byte>, p: nat, ip: word, mask: nat, encoding: bool) {
    mask < 8 && p <= |buf| && Continues(whole, buf[..p], buf[p..], (ip + 5 + p) % WORD, mask, encoding)
  }

  lemma ReachedStart(buf: seq<byte>, ip: word, mask: nat, encoding: bool)
    requires mask < 8
    ensures Reached(Run(buf, (ip + 5) % WORD, mask, encoding), buf, 0, ip, mask, encoding)
  {
    assert buf[..0] + Run(buf, (ip + 5) % WORD, mask, encoding).out == Run(buf, (ip + 5) % WORD, mask, encoding).out;
    assert buf[0..] == buf;
    hide Run;
  }

  lemma ReachedEnd(whole: Result, buf: seq<byte>, p: nat, ip: word, mask: nat, encoding: bool)
    requires Reached(whole, buf, p, ip, mask, encoding) && |buf| < p + 5
    ensures whole.out == buf && whole.used == p && whole.mask == mask
  {
    assert buf[..p] + buf[p..] == buf;
  }

  /** buf after the move at p. */
  function Rewritten(buf: seq<byte>, p: nat, ip: word, mask: nat, move: Move, encoding: bool): (r: seq<byte>)
    requires p + 5 <= |buf|
    ensures |r| == |buf|
  {
    hide Converted;
    if move.Convert? then buf[..p + 1] + Converted(buf[p + 1..p + 5], (ip + 5 + p) % WORD, mask, encoding) + buf[p + 5..]
    else buf
  }

  lemma RewrittenParts(buf: seq<byte>, p: nat, ip: word, mask: nat, encoding: bool)
    requires p + 5 <= |buf| && mask < 8
    ensures var move := MoveAt(buf[p..], mask);
            var next := Rewritten(buf, p, ip, mask, move, encoding);
            && 1 <= Width(move) <= 5
            && next[..p + Width(move)] == buf[..p] + Head(buf[p..], (ip + 5 + p) % WORD, mask, move, encoding)
            && next[p + Width(move)..] == buf[p..][Width(move)..]
  {
    hide MoveAt, Converted;
    assert buf[p..][1..5] == buf[p + 1..p + 5];
  }

  lemma ReachedMove(whole: Result, buf: seq<byte>, p: nat, ip: word, mask: nat, encoding: bool)
    requires Reached(whole, buf, p, ip, mask, encoding) && p + 5 <= |buf|
    ensures var move := MoveAt(buf[p..], mask);
            Reached(whole, Rewritten(buf, p, ip, mask, move, encoding), p + Width(move), ip, NextMask(mask, move), encoding)
  {
    hide MoveAt, Rewritten, Continues, NextMask, Width, Head;
    ContinueMove(whole, buf[..p], buf[p..], (ip + 5 + p) % WORD, mask, encoding);
    RewrittenParts(buf, p, ip, mask, encoding);
    AddressOn(ip + 5, p, Width(MoveAt(buf[p..], mask)));
  }

  /** The bytes before an opcode byte only shift the mask. */
  lemma ReachedSkip(whole: Result, buf: seq<byte>, p: nat, ip: word, mask: nat, d: nat, encoding: bool)
    requires mask < 8 && Reached(whole, buf, p, ip, Shifted(mask, d), encoding) && p + 5 <= |buf| && !Opcode(buf[p])
    ensures Reached(whole, buf, p + 1, ip, Shifted(mask, d + 1), encoding)
  {
    ReachedMove(whole, buf, p, ip, Shifted(mask, d), encoding);
    hide Reached;
    assert MoveAt(buf[p..], Shifted(mask, d)) == Skip;
  }

  /** The first opcode byte at or after pos, as far as limit; the mask shifts along. */
  method Scan(data: array<byte>, pos: nat, limit: nat, ghost buf: seq<byte>, ghost whole: Result,
              ghost ip: word, ghost mask: nat, ghost encoding: bool)
    returns (p: nat)
    requires mask < 8 && limit + 4 == |buf| && buf <= data[..]
    requires Reached(whole, buf, pos, ip, mask, encoding)
    ensures pos <= p && (p < limit ==> Opcode(data[p])) && (pos < limit ==> p <= limit) && (limit <= pos ==> p == pos)
    ensures Reached(whole, buf, p, ip, Shifted(mask, p - pos), encoding)
  {
    hide Reached, Opcode;
    p := pos;
    while p < limit && !Opcode(data[p])
      invariant pos <= p && (pos < limit ==> p <= limit) && (limit <= pos ==> p == pos)
      invariant Reached(whole, buf, p, ip, Shifted(mask, p - pos), encoding)
    {
      assert data[p] == data[..][p] == buf[p];
      ReachedSkip(whole, buf, p, ip, mask, p - pos, encoding);
      p := p + 1;
    }
  }

  /** The four bytes of the displacement at p are rewritten in place. */
  method Rewrite(data: array<byte>, p: nat, cur: word, mask: nat, encoding: bool)
    requires p + 5 <= data.Length
    modifies data
    ensures var d := old(data[..]);
            data[..] == d[..p + 1] + Converted(d[p + 1..p + 5], cur, mask, encoding) + d[p + 5..]
  {
    ghost var s := data[p + 1..p + 5];
    var v := WordOf([data[p + 1], data[p + 2], data[p + 3], data[p + 4]]);
    assert [data[p + 1], data[p + 2], data[p + 3], data[p + 4]] == s;
    v := Moved(v, cur, encoding);
    if mask != 0 {
      if SignByte(GuardedByte(v, mask)) {
        v := Flipped(v, mask);
        v := Moved(v, cur, encoding);
      }
    }
    assert v == Address(WordOf(s), cur, mask, encoding);
    hide Address, WordOf, TopByte;
    data[p + 1] := v % 0x100;
    data[p + 2] := v / 0x100 % 0x100;
    data[p + 3] := v / 0x1_0000 % 0x100;
    data[p + 4] := TopByte(v);
  }

  lemma RewrittenInPlace(data: seq<byte>, size: nat, p: nat, ip: word, mask: nat, encoding: bool)
    requires p + 5 <= size <= |data|
    ensures var x := Converted(data[p + 1..p + 5], (ip + 5 + p) % WORD, mask, encoding);
            var next := data[..p + 1] + x + data[p + 5..];
            next[..size] == Rewritten(data[..size], p, ip, mask, Convert, encoding) && next[size..] == data[size..]
  {
    hide Converted;
    assert data[..size][p + 1..p + 5] == data[p + 1..p + 5];
  }

  /** An opcode byte at p: it is marked, or its displacement converted. */
  method Visit(data: array<byte>, size: nat, p: nat, ghost whole: Result, ip: word, mask: nat, encoding: bool)
    returns (pos: nat, newMask: nat)
    requires size <= data.Length && p + 5 <= size && Opcode(data[p])
    requires Reached(whole, data[..size], p, ip, mask, encoding)
    modifies data
    ensures Reached(whole, data[..size], pos, ip, newMask, encoding) && p < pos <= size && newMask < 8
    ensures data[size..] == old(data[size..])
  {
    hide Run, Reached, MoveAt, SignByte, Opcode, Converted, NextMask, Width, Rewritten, Shifted, Continues, Head;
    ghost var before := data[..];
    ghost var buf := before[..size];
    assert data[..size] == buf;
    ReachedBounds(whole, buf, p, ip, mask, encoding);
    ReachedMove(whole, buf, p, ip, mask, encoding);
    MoveOfOpcode(buf, p, ip, mask, encoding);
    pos, newMask := p + 1, mask / 2 + 4;
    if mask != 0 && (mask > 4 || mask == 3 || SignByte(data[p + mask / 2 + 1])) {
      return;
    }
    if SignByte(data[p + 4]) {
      RewrittenInPlace(before, size, p, ip, mask, encoding);
      Rewrite(data, p, (ip + 5 + p) % WORD, mask, encoding);
      assert data[..][..size] == data[..size] && data[..][size..] == data[size..];
      pos, newMask := p + 5, 0;
    }
  }

  /**
   x86_Convert: the buffer, the bytes processed and the mask carried to the next call are those
   of the run.
   */
  method X86Convert(data: array<byte>, size: nat, ip: word, state: word, encoding: bool)
    returns (processed: nat, newState: word)
    requires size <= data.Length
    modifies data
    ensures var r := Run(old(data[..size]), (ip + 5) % WORD, state % 8, encoding);
            && data[..size] == r.out && processed == r.used
            && newState == (if size < 5 then state else r.mask)
    ensures data[size..] == old(data[size..])
  {
    hide Run, Reached, MoveAt, SignByte, Opcode, Converted, NextMask, Width, Rewritten, Shifted, Continues, Head;
    var mask: nat := state % 8;
    ghost var whole := Run(data[..size], (ip + 5) % WORD, mask, encoding);
    if size < 5 {
      return 0, state;
    }
    ReachedStart(data[..size], ip, mask, encoding);
    var limit := size - 4;
    var pos: nat := 0;
    while true
      invariant data[size..] == old(data[size..]) && pos <= size && mask < 8
      invariant Reached(whole, data[..size], pos, ip, mask, encoding)
      decreases size - pos
    {
      var p := Scan(data, pos, limit, data[..size], whole, ip, mask, encoding);
      var d := p - pos;
      mask := Shifted(mask, d);
      pos := p;
      if p >= limit {
        ReachedBounds(whole, data[..size], p, ip, mask, encoding);
        ReachedEnd(whole, data[..size], p, ip, mask, encoding);
        return pos, mask;
      }
      pos, mask := Visit(data, size, p, whole, ip, mask, encoding);
    }
  }

  lemma ReachedBounds(whole: Result, buf: seq<byte>, p: nat, ip: word, mask: nat, encoding: bool)
    requires Reached(whole, buf, p, ip, mask, encoding)
    ensures mask < 8 && p <= |buf|
  {
  }

  lemma MoveOfOpcode(buf: seq<byte>, p: nat, ip: word, mask: nat, encoding: bool)
    requires p + 5 <= |buf| && mask < 8 && Opcode(buf[p])
    ensures Width(Convert) == 5 && Width(Mark) == 1 && NextMask(mask, Mark) == mask / 2 + 4 && NextMask(mask, Convert) == 0
    ensures Rewritten(buf, p, ip, mask, Mark, encoding) == buf
    ensures MoveAt(buf[p..], mask) ==
            if mask != 0 && (mask > 4 || mask == 3 || SignByte(buf[p + mask / 2 + 1])) then Mark
            else if SignByte(buf[p + 4]) then Convert
            else Mark
  {
  }
}
