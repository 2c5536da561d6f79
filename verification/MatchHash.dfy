/** The hash functions of LzHash.h, on numbers: & (2^n - 1) is the remainder by 2^n. */
module MatchHash {
  import opened Arithmetic
  import opened Bytes
  import opened MatchTree

  const HASH2_SIZE: nat := 0x400
  const HASH3_SIZE: nat := 0x1_0000
  const FIX4: nat := HASH2_SIZE + HASH3_SIZE

  /** The bitwise exclusive or. */
  function Xor(a: nat, b: nat): nat {
    if a == 0 && b == 0 then 0 else 2 * Xor(a / 2, b / 2) + (a % 2 + b % 2) % 2
  }

  lemma XorStep(a: nat, b: nat)
    ensures Xor(a, b) == 2 * Xor(a / 2, b / 2) + (a % 2 + b % 2) % 2
  {
  }

  /** The last n + 1 bits of a number. */
  lemma LastBits(x: nat, half: nat, bit: nat, m: nat)
    requires m > 0 && x == 2 * half + bit && bit < 2
    ensures x % (2 * m) == 2 * (half % m) + bit
  {
    var q := half / m;
    assert half == m * q + half % m;
    assert x == (2 * m) * q + (2 * (half % m) + bit);
    assert half % m < m;
    RemainderIs(x, 2 * m, q, 2 * (half % m) + bit);
  }

  lemma Halves(p: int, b: int, q: int, c: int)
    requires 2 * p + b == 2 * q + c && 0 <= b < 2 && 0 <= c < 2
    ensures p == q && b == c
  {
  }

  lemma BitDecides(k: nat, a: nat, b: nat)
    requires (k + a) % 2 == (k + b) % 2 && k < 2 && a < 2 && b < 2
    ensures a == b
  {
  }

  /** The last n bits of the exclusive or decide those of its second operand. */
  lemma {:induction false} XorDecides(k: nat, a: nat, b: nat, n: nat)
    requires Xor(k, a) % Pow2(n) == Xor(k, b) % Pow2(n)
    ensures a % Pow2(n) == b % Pow2(n)
  {
    if n > 0 {
      hide Xor;
      var m := Pow2(n - 1);
      XorStep(k, a);
      XorStep(k, b);
      XorDecidesStep(Xor(k, a), Xor(k, b), Xor(k / 2, a / 2), Xor(k / 2, b / 2), k % 2, a % 2, b % 2, m);
      XorDecides(k / 2, a / 2, b / 2, n - 1);
      LastBits(a, a / 2, a % 2, m);
      LastBits(b, b / 2, b % 2, m);
    }
  }

  lemma XorDecidesStep(x: nat, y: nat, p: nat, q: nat, k: nat, a: nat, b: nat, m: nat)
    requires m > 0 && k < 2 && a < 2 && b < 2
    requires x == 2 * p + (k + a) % 2 && y == 2 * q + (k + b) % 2 && x % (2 * m) == y % (2 * m)
    ensures p % m == q % m && a == b
  {
    LastBits(x, p, (k + a) % 2, m);
    LastBits(y, q, (k + b) % 2, m);
    Halves(p % m, (k + a) % 2, q % m, (k + b) % 2);
    BitDecides(k, a, b);
  }

  /** Zero bits change nothing. */
  lemma {:induction false} XorLow(a: nat, b: nat, n: nat)
    requires b % Pow2(n) == 0
    ensures Xor(a, b) % Pow2(n) == a % Pow2(n)
  {
    if n > 0 {
      hide Xor;
      var m := Pow2(n - 1);
      XorStep(a, b);
      LastBits(b, b / 2, b % 2, m);
      LastBits(Xor(a, b), Xor(a / 2, b / 2), (a % 2 + b % 2) % 2, m);
      XorLow(a / 2, b / 2, n - 1);
      LastBits(a, a / 2, a % 2, m);
    }
  }

  lemma Powers()
    ensures Pow2(8) == 0x100 && Pow2(10) == HASH2_SIZE && Pow2(16) == HASH3_SIZE
  {
    assert Pow2(4) == 16;
    assert Pow2(8) == 0x100;
    assert Pow2(12) == 0x1000;
  }

  /** The four bytes that are hashed. */
  predicate Hashable(text: seq<byte>, crc: seq<nat>, y: nat) {
    y + 4 <= |text| && |crc| == 0x100
  }

  function Up8(b: int): (r: int)
    ensures b >= 0 ==> r >= 0
  {
    b * 0x100
  }

  function Temp(text: seq<byte>, crc: seq<nat>, y: nat): nat
    requires Hashable(text, crc, y)
  {
    Xor(crc[text[y]], text[y + 1])
  }

  /** h2 of HASH4_CALC. */
  function Hash2(text: seq<byte>, crc: seq<nat>, y: nat): (h: nat)
    requires Hashable(text, crc, y)
    ensures h < HASH2_SIZE
  {
    Temp(text, crc, y) % HASH2_SIZE
  }

  /** h3 of HASH4_CALC. */
  function Hash3(text: seq<byte>, crc: seq<nat>, y: nat): (h: nat)
    requires Hashable(text, crc, y)
    ensures h < HASH3_SIZE
  {
    Xor(Temp(text, crc, y), Up8(text[y + 2])) % HASH3_SIZE
  }

  /** hv of HASH4_CALC, where hashMask is size - 1. */
  function Hash4(text: seq<byte>, crc: seq<nat>, size: nat, y: nat): (h: nat)
    requires Hashable(text, crc, y) && size > 0
    ensures h < size
  {
    Xor(Xor(Temp(text, crc, y), Up8(text[y + 2])), crc[text[y + 3]] * 0x20 % WORD) % size
  }

  /** Two places with the same first byte and the same h2 have the same second byte. */
  lemma Hash2Genuine(text: seq<byte>, crc: seq<nat>, x: nat, y: nat)
    requires Hashable(text, crc, x) && Hashable(text, crc, y)
    requires text[x] == text[y] && Hash2(text, crc, x) == Hash2(text, crc, y)
    ensures Shares(text, x, y, 2)
  {
    hide Xor, Pow2;
    Powers();
    XorDecides(crc[text[x]], text[x + 1], text[y + 1], 10);
    assert SameByte(text, x, y, 0) && SameByte(text, x, y, 1);
  }

  lemma Low8(a: nat, b: nat)
    requires a % HASH3_SIZE == b % HASH3_SIZE
    ensures a % 0x100 == b % 0x100
  {
    DivisionParts(a, HASH3_SIZE);
    DivisionParts(b, HASH3_SIZE);
    RemainderShift(a % HASH3_SIZE, 0x100 * (a / HASH3_SIZE), 0x100);
    RemainderShift(b % HASH3_SIZE, 0x100 * (b / HASH3_SIZE), 0x100);
  }

  lemma High8(a: byte, b: byte)
    requires Up8(a) % HASH3_SIZE == Up8(b) % HASH3_SIZE
    ensures a == b
  {
  }

  /** Two places with the same first byte and the same h3 have the same first three bytes. */
  lemma Hash3Genuine(text: seq<byte>, crc: seq<nat>, x: nat, y: nat)
    requires Hashable(text, crc, x) && Hashable(text, crc, y)
    requires text[x] == text[y] && Hash3(text, crc, x) == Hash3(text, crc, y)
    ensures Shares(text, x, y, 3)
  {
    hide Xor, Pow2;
    Powers();
    var t, u := Temp(text, crc, x), Temp(text, crc, y);
    var a, b := text[x + 2], text[y + 2];
    Low8(Xor(t, Up8(a)), Xor(u, Up8(b)));
    XorLow(t, Up8(a), 8);
    XorLow(u, Up8(b), 8);
    XorDecides(crc[text[x]], text[x + 1], text[y + 1], 8);
    XorDecides(t, Up8(a), Up8(b), 16);
    High8(a, b);
    assert SameByte(text, x, y, 0) && SameByte(text, x, y, 1) && SameByte(text, x, y, 2);
  }

  /** Only the bytes hashed count. */
  lemma HashMoves(text: seq<byte>, crc: seq<nat>, size: nat, y: nat, text': seq<byte>, y': nat)
    requires Hashable(text, crc, y) && Hashable(text', crc, y') && size > 0
    requires text'[y'..y' + 4] == text[y..y + 4]
    ensures Hash2(text', crc, y') == Hash2(text, crc, y) && Hash3(text', crc, y') == Hash3(text, crc, y)
    ensures Hash4(text', crc, size, y') == Hash4(text, crc, size, y)
  {
    hide Xor;
    var s := text[y..y + 4];
    assert text[y] == s[0] && text[y + 1] == s[1] && text[y + 2] == s[2] && text[y + 3] == s[3];
    assert text'[y'] == s[0] && text'[y' + 1] == s[1] && text'[y' + 2] == s[2] && text'[y' + 3] == s[3];
  }

  /** HASH4_CALC in numbers: ten bits, sixteen bits, and the bits of the mask, each of all the bytes so far. */
  lemma HashesAre(text: seq<byte>, crc: seq<nat>, size: nat, y: nat)
    requires Hashable(text, crc, y) && size > 0
    ensures var two := Xor(crc[text[y]], text[y + 1]);
            var third: int := text[y + 2];
            && Hash2(text, crc, y) == two % 0x400
            && Hash3(text, crc, y) == Xor(two, third * 0x100) % 0x1_0000
            && Hash4(text, crc, size, y) == Xor(Xor(two, third * 0x100), crc[text[y + 3]] * 0x20 % 0x1_0000_0000) % size
  {
    hide Xor;
  }
}
