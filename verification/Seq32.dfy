/** The 32-bit sequence number macros, and when they agree with unbounded numbers. */
module Seq32 {
  import opened Ardp

  const WRAP: int := 0x1_0000_0000
  const HALF: int := 0x8000_0000

  /** SEQ32_LT: the difference, read as a signed 32-bit number, is negative. */
  predicate Lt(a: int, b: int) {
    (a - b) % WRAP >= HALF
  }

  /** IN_RANGE on 32-bit operands. */
  predicate InRange(beg: int, sz: int, p: int) {
    var end := (beg + sz) % WRAP;
    || (end > beg && p >= beg && p < end)
    || (end < beg && !(p < beg && p >= end))
  }

  /** Comparison survives wrap-around iff the numbers are less than half the number space apart. */
  lemma LtExact(a: nat, b: nat)
    requires b - WRAP < a < b + WRAP
    ensures (Lt(a % WRAP, b % WRAP) <==> a < b) <==> (b - HALF <= a < b + HALF)
  {
    WrapDifference(a, b);
    assert (a - b) % WRAP == if a >= b then a - b else a - b + WRAP;
  }

  lemma WrapDifference(a: nat, b: nat)
    ensures (a % WRAP - b % WRAP) % WRAP == (a - b) % WRAP
  {
    var k := a / WRAP - b / WRAP;
    assert a - b == a % WRAP - b % WRAP + WRAP * k;
    assert (a - b) / WRAP == (a % WRAP - b % WRAP) / WRAP + k;
  }

  /** The ACK range test survives wrap-around for any ACK less than a number space away. */
  lemma InRangeExact(beg: nat, sz: nat, p: nat)
    requires 0 < sz < WRAP && beg + sz - WRAP <= p < beg + WRAP
    ensures InRange(beg % WRAP, sz, p % WRAP) <==> beg <= p < beg + sz
  {
    WrapDifference(p, beg);
    assert (p - beg) % WRAP == if p >= beg then p - beg else p - beg + WRAP;
  }

  /** Stepping to the next sequence number steps to the next ring slot except where the number wraps. */
  lemma RingStepExact(s: nat)
    requires s < WRAP
    ensures ((s + 1) % WRAP) % UDP_SEGMAX == (s % UDP_SEGMAX + 1) % UDP_SEGMAX <==> s + 1 < WRAP
  {
  }
}
