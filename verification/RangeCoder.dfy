/** The adaptive binary range decoder of LzmaDec.c, on values. */
module RangeCoder {
  import opened Bytes

  /** kTopValue: below it the decoder shifts in one byte. */
  const TOP := 0x100_0000

  /** kBitModelTotal: probabilities are 11-bit. */
  const MODEL_TOTAL := 2048

  /** The decoder registers and the input bytes not yet read. */
  datatype Rc = Rc(range: nat, code: nat, rest: seq<byte>)

  /** Between two shifts; holds again after every modelled or direct bit. */
  predicate RcOk(rc: Rc) {
    0x10000 <= rc.range < WORD && rc.code < WORD
  }

  predicate Normal(rc: Rc) {
    RcOk(rc) && TOP <= rc.range
  }

  predicate NeedsByte(rc: Rc) {
    rc.range < TOP && rc.rest == []
  }

  /** NORMALIZE: a single shift always restores range >= 2^24. */
  function Normalize(rc: Rc): (r: Rc)
    requires RcOk(rc) && !NeedsByte(rc)
    ensures Normal(r)
  {
    if rc.range < TOP then
      Rc(rc.range * 0x100, rc.code * 0x100 % WORD + rc.rest[0], rc.rest[1..])
    else
      rc
  }

  predicate ProbOk(p: int) {
    31 <= p <= 2017
  }

  /** UPDATE_0 and UPDATE_1: adaptation never leaves [31, 2017]. */
  function Adapted(p: int, bit: bool): (q: int)
    requires ProbOk(p)
    ensures ProbOk(q)
  {
    if bit then p - p / 32 else p + (MODEL_TOTAL - p) / 32
  }

  function Bound(range: nat, p: int): (b: nat)
    requires TOP <= range < WORD && ProbOk(p)
    ensures 0x10000 <= b && b + 0x10000 <= range
    ensures range <= 67 * b && range <= 67 * (range - b)
  {
    var u := range / MODEL_TOTAL;
    ScaleBetween(u, 31, p, 2017);
    u * p
  }

  lemma ScaleBetween(u: nat, lo: int, p: int, hi: int)
    requires lo <= p <= hi
    ensures u * lo <= u * p <= u * hi
  {
  }

  /** IF_BIT_0: the decoded bit under probability p. */
  predicate ModelBit(rc: Rc, p: int)
    requires Normal(rc) && ProbOk(p)
  {
    rc.code >= Bound(rc.range, p)
  }

  function AfterModelBit(rc: Rc, p: int): (r: Rc)
    requires Normal(rc) && ProbOk(p)
    ensures RcOk(r) && r.rest == rc.rest && rc.range <= 67 * r.range
  {
    var bound := Bound(rc.range, p);
    if rc.code < bound then rc.(range := bound) else Rc(rc.range - bound, rc.code - bound, rc.rest)
  }

  /** One bit at probability one half, decided by the sign of code - range in 32 bits. */
  predicate DirectBit(rc: Rc)
    requires Normal(rc)
  {
    (rc.code - rc.range / 2) % WORD < 0x8000_0000
  }

  function AfterDirectBit(rc: Rc): (r: Rc)
    requires Normal(rc)
    ensures RcOk(r) && r.rest == rc.rest && 100 * rc.range <= 201 * r.range
  {
    var half := rc.range / 2;
    var code := (rc.code - half) % WORD;
    if DirectBit(rc) then Rc(half, code, rc.rest) else Rc(half, (code + half) % WORD, rc.rest)
  }
}
