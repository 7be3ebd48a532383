/**
 * Round-trip times of the datagram transport: the running mean and deviation, in 32-bit
 * arithmetic as they are computed, and the retransmission timeout drawn from them.
 */
module ArdpRtt {
  import opened Seq32

  const ARDP_MIN_RTO: nat := 100
  const ARDP_MAX_RTO: nat := 64000

  function Wrap(n: int): (r: nat)
    ensures r < WRAP
    ensures 0 <= n < WRAP ==> r == n
  {
    n % WRAP
  }

  /** ABS of a 32-bit word read as a signed number. */
  function AbsSigned(w: nat): nat
    requires w < WRAP
  {
    if w < 0x8000_0000 then w else WRAP - w
  }

  function Max(a: nat, b: nat): nat {
    if a > b then a else b
  }

  function Min(a: nat, b: nat): nat {
    if a < b then a else b
  }

  function Power2(k: nat): (p: nat)
    ensures p > 0
  {
    if k == 0 then 1 else 2 * Power2(k - 1)
  }

  /** The estimate before and after the first sample. */
  datatype Estimate = Estimate(init: bool, mean: nat, variance: nat)

  /** AdjustRTT on values. */
  function Adjusted(e: Estimate, rtt: nat): Estimate {
    var mean := if e.init then e.mean else rtt;
    var variance := if e.init then e.variance else rtt / 2;
    var err := AbsSigned(Wrap(rtt - mean));
    var newMean := Wrap(7 * mean + rtt) / 8;
    var newVariance :=
      if Wrap(rtt + variance) >= newMean then Wrap(3 * variance + err) / 4 else Wrap(31 * variance + err) / 32;
    Estimate(true, newMean, newVariance)
  }

  function AdjustedBy(e: Estimate, rtts: seq<nat>): Estimate {
    if rtts == [] then e else Adjusted(AdjustedBy(e, rtts[..|rtts| - 1]), rtts[|rtts| - 1])
  }

  const UNKNOWN := Estimate(false, 0, 0)

  /** The words of the connection record that these computations read and write. */
  class RttState {
    var rttInit: bool
    var rttMean: nat
    var rttMeanVar: nat
    var backoff: nat
    /** The other side's delayed-acknowledgement timeout. */
    var dackt: nat

    constructor (dackt: nat)
      ensures View() == UNKNOWN && backoff == 0 && this.dackt == dackt
    {
      rttInit, rttMean, rttMeanVar, backoff := false, 0, 0, 0;
      this.dackt := dackt;
    }

    function View(): Estimate
      reads this
    {
      Estimate(rttInit, rttMean, rttMeanVar)
    }

    /** AdjustRTT */
    method AdjustRTT(rtt: nat)
      modifies `rttInit, `rttMean, `rttMeanVar, `backoff
      ensures View() == Adjusted(old(View()), rtt) && backoff == 0
    {
      hide Wrap, AbsSigned;
      if !rttInit {
        rttMean := rtt;
        rttMeanVar := rtt / 2;
        rttInit := true;
      }
      var err := Wrap(rtt - rttMean);
      rttMean := Wrap(7 * rttMean + rtt) / 8;
      if Wrap(rtt + rttMeanVar) >= rttMean {
        rttMeanVar := Wrap(3 * rttMeanVar + AbsSigned(err)) / 4;
      } else {
        rttMeanVar := Wrap(31 * rttMeanVar + AbsSigned(err)) / 32;
      }
      backoff := 0;
    }

    /** GetRTO; a shift by the width of the word or more is not defined in C. */
    method GetRTO() returns (rto: nat)
      requires backoff < 32
      ensures rto == Rto(View(), backoff, dackt) <= ARDP_MAX_RTO
      ensures Base(View()) * Power2(backoff) < WRAP ==>
                rto == Min(Max(Base(View()) * Power2(backoff), dackt), ARDP_MAX_RTO) >= ARDP_MIN_RTO
      ensures rto < ARDP_MIN_RTO <==> dackt < ARDP_MIN_RTO && KeptBits(Base(View()), backoff) < ARDP_MIN_RTO
    {
      RtoBounds(View(), backoff, dackt);
      var ms := Wrap(Max(ARDP_MIN_RTO, Wrap(rttMean + 4 * rttMeanVar)) * Power2(backoff));
      return Min(Max(ms, dackt), ARDP_MAX_RTO);
    }
  }

  function Base(e: Estimate): nat {
    Max(ARDP_MIN_RTO, Wrap(e.mean + 4 * e.variance))
  }

  /** What is left of a word shifted up: its low 32 - backoff bits, in their new place. */
  function KeptBits(base: nat, backoff: nat): nat
    requires backoff <= 32
  {
    base % Power2(32 - backoff) * Power2(backoff)
  }

  function Rto(e: Estimate, backoff: nat, dackt: nat): nat {
    Min(Max(Wrap(Base(e) * Power2(backoff)), dackt), ARDP_MAX_RTO)
  }

  // ---------------------------------------------------------------- bounds over any run

  predicate Bounded(e: Estimate, m: nat, r: nat) {
    e.init ==> m <= e.mean <= r && e.variance <= r
  }

  lemma MeanBounded(mean: nat, rtt: nat, m: nat, r: nat)
    requires m <= rtt <= r < 0x2000_0000 && m <= mean <= r
    ensures m <= Wrap(7 * mean + rtt) / 8 <= r
  {
    assert Wrap(7 * mean + rtt) == 7 * mean + rtt;
  }

  /** Even where 31 times the deviation wraps. */
  lemma VarianceBounded(v: nat, err: nat, r: nat)
    requires v <= r < 0x2000_0000 && err <= r
    ensures Wrap(3 * v + err) / 4 <= r
    ensures Wrap(31 * v + err) / 32 <= r
  {
    assert Wrap(3 * v + err) == 3 * v + err;
  }

  /** One sample between m and r keeps the mean between them and the deviation below r. */
  lemma AdjustKeeps(e: Estimate, rtt: nat, m: nat, r: nat)
    requires m <= rtt <= r < 0x2000_0000 && Bounded(e, m, r)
    ensures Bounded(Adjusted(e, rtt), m, r) && Adjusted(e, rtt).init
  {
    hide Wrap, AbsSigned;
    var mean := if e.init then e.mean else rtt;
    var variance := if e.init then e.variance else rtt / 2;
    ErrorBounded(rtt, mean, r);
    MeanBounded(mean, rtt, m, r);
    VarianceBounded(variance, if rtt >= mean then rtt - mean else mean - rtt, r);
  }

  lemma ErrorBounded(rtt: nat, mean: nat, r: nat)
    requires rtt <= r < 0x2000_0000 && mean <= r
    ensures AbsSigned(Wrap(rtt - mean)) == (if rtt >= mean then rtt - mean else mean - rtt) <= r
  {
    if rtt < mean {
      assert Wrap(rtt - mean) == rtt - mean + WRAP;
    }
  }

  /** Over any run of samples between m and r. */
  lemma {:induction false} RunStaysBounded(rtts: seq<nat>, m: nat, r: nat)
    requires r < 0x2000_0000 && forall i :: 0 <= i < |rtts| ==> m <= rtts[i] <= r
    ensures Bounded(AdjustedBy(UNKNOWN, rtts), m, r)
    ensures AdjustedBy(UNKNOWN, rtts).init <==> rtts != []
  {
    hide Adjusted;
    if rtts != [] {
      var init := rtts[..|rtts| - 1];
      assert forall i :: 0 <= i < |init| ==> init[i] == rtts[i];
      RunStaysBounded(init, m, r);
      AdjustKeeps(AdjustedBy(UNKNOWN, init), rtts[|rtts| - 1], m, r);
    }
  }

  /** The bound on the samples is exact: a first sample is its own mean only below two to the 29. */
  lemma FirstSampleExact(rtt: nat)
    requires rtt < WRAP
    ensures Adjusted(UNKNOWN, rtt).mean == rtt <==> rtt < 0x2000_0000
    ensures Adjusted(UNKNOWN, rtt).mean == rtt % 0x2000_0000
  {
    assert 7 * rtt + rtt == 8 * rtt;
    var q := rtt / 0x2000_0000;
    assert 8 * rtt == q * WRAP + 8 * (rtt % 0x2000_0000);
    Remainder(8 * rtt, q, 8 * (rtt % 0x2000_0000));
  }

  lemma Remainder(n: nat, q: nat, s: nat)
    requires n == q * WRAP + s && s < WRAP
    ensures Wrap(n) == s
  {
  }

  predicate Between(x: nat, a: nat, b: nat) {
    a <= x <= b || b <= x <= a
  }

  function Distance(a: nat, b: nat): nat {
    if a < b then b - a else a - b
  }

  predicate Near(a: nat, b: nat, slack: nat) {
    a <= b + slack && b <= a + slack
  }

  lemma MeanMoves(mean: nat, rtt: nat)
    requires rtt < 0x800_0000 && mean < 0x800_0000
    ensures Between(Wrap(7 * mean + rtt) / 8, mean, rtt)
    ensures Near(8 * Distance(Wrap(7 * mean + rtt) / 8, mean), Distance(mean, rtt), 7)
  {
    assert Wrap(7 * mean + rtt) == 7 * mean + rtt;
  }

  lemma QuarterMoves(v: nat, err: nat)
    requires v < 0x800_0000 && err < 0x800_0000
    ensures Between(Wrap(3 * v + err) / 4, v, err)
    ensures Near(4 * Distance(Wrap(3 * v + err) / 4, v), Distance(err, v), 3)
  {
    assert Wrap(3 * v + err) == 3 * v + err;
  }

  lemma ThirtySecondMoves(v: nat, err: nat)
    requires v < 0x800_0000 && err < 0x800_0000
    ensures Between(Wrap(31 * v + err) / 32, v, err)
    ensures Near(32 * Distance(Wrap(31 * v + err) / 32, v), Distance(err, v), 31)
  {
    assert Wrap(31 * v + err) == 31 * v + err;
  }

  /**
   * A sample draws the mean and the deviation towards itself by an eighth and a quarter of the
   * way, and a sample far below the mean moves the deviation by a thirty-second only.
   */
  lemma AdjustMoves(e: Estimate, rtt: nat, r: nat)
    requires e.init && rtt <= r < 0x800_0000 && e.mean <= r && e.variance <= r
    ensures var a, err := Adjusted(e, rtt), Distance(e.mean, rtt);
            && Between(a.mean, e.mean, rtt) && Between(a.variance, e.variance, err)
            && Near(8 * Distance(a.mean, e.mean), err, 7)
            && if rtt + e.variance >= a.mean then Near(4 * Distance(a.variance, e.variance), Distance(err, e.variance), 3)
               else Near(32 * Distance(a.variance, e.variance), Distance(err, e.variance), 31)
  {
    hide Wrap, Between, Near, AbsSigned;
    ErrorBounded(rtt, e.mean, r);
    WrapSmall(rtt + e.variance);
    MeanMoves(e.mean, rtt);
    QuarterMoves(e.variance, Distance(e.mean, rtt));
    ThirtySecondMoves(e.variance, Distance(e.mean, rtt));
  }

  // ---------------------------------------------------------------- the timeout

  lemma Regroup(q: nat, m: nat, r: nat, p: nat)
    ensures (q * m + r) * p == q * (m * p) + r * p
  {
  }

  lemma DivMod(n: nat, m: nat)
    requires m > 0
    ensures n == n / m * m + n % m && n % m < m
  {
  }

  lemma LowPart(base: nat, p: nat, m: nat)
    requires p > 0 && m > 0 && m * p == WRAP
    ensures Wrap(base * p) == base % m * p
  {
    hide Wrap;
    DivMod(base, m);
    Scales(base % m, m, p);
    Carry(base, base / m, m, base % m, p);
    Remainder(base * p, base / m, base % m * p);
  }

  lemma Carry(base: nat, q: nat, m: nat, r: nat, p: nat)
    requires base == q * m + r && m * p == WRAP
    ensures base * p == q * WRAP + r * p
  {
    Regroup(q, m, r, p);
  }

  /** A shift in 32 bits keeps the low bits only. */
  lemma ShiftKeeps(base: nat, backoff: nat)
    requires backoff <= 32
    ensures Wrap(base * Power2(backoff)) == KeptBits(base, backoff)
  {
    hide Wrap, Power2;
    PowerAdds(32 - backoff, backoff);
    SmallPowers();
    LowPart(base, Power2(backoff), Power2(32 - backoff));
  }

  /**
   * Never above the maximum. Below the minimum exactly when the other side asks for less and
   * the low 32 - backoff bits of the base are too few: from the seventh doubling on, when the
   * base is a multiple of two to the 32 - backoff.
   */
  lemma RtoBounds(e: Estimate, backoff: nat, dackt: nat)
    requires backoff < 32
    ensures Rto(e, backoff, dackt) <= ARDP_MAX_RTO
    ensures Rto(e, backoff, dackt) < ARDP_MIN_RTO <==> dackt < ARDP_MIN_RTO && KeptBits(Base(e), backoff) < ARDP_MIN_RTO
    ensures 7 <= backoff && dackt < ARDP_MIN_RTO ==>
              (Rto(e, backoff, dackt) < ARDP_MIN_RTO <==> Base(e) % Power2(32 - backoff) == 0)
    ensures Base(e) * Power2(backoff) < WRAP ==> ARDP_MIN_RTO <= Rto(e, backoff, dackt)
  {
    hide Wrap, Power2, Base;
    ShiftKeeps(Base(e), backoff);
    BaseLeast(e);
    Grows(Base(e), Power2(backoff));
    if 7 <= backoff {
      PowerMonotone(7, backoff);
      SmallPowers();
      var r := Base(e) % Power2(32 - backoff);
      if r > 0 {
        Grows(Power2(backoff), r);
      }
    }
    WrapSmall(Base(e) * Power2(backoff));
  }

  lemma WrapSmall(n: nat)
    ensures n < WRAP ==> Wrap(n) == n
  {
  }

  lemma BaseLeast(e: Estimate)
    ensures ARDP_MIN_RTO <= Base(e)
  {
  }

  lemma Grows(b: nat, p: nat)
    requires p > 0
    ensures b * p >= b && p * b >= b
  {
  }

  /** While the shift does not overflow, backing off further never shortens the timeout. */
  lemma RtoBacksOff(e: Estimate, backoff: nat, dackt: nat)
    requires Base(e) * Power2(backoff + 1) < WRAP
    ensures Rto(e, backoff, dackt) <= Rto(e, backoff + 1, dackt)
  {
    var b, p := Base(e), Power2(backoff);
    assert b * (2 * p) == 2 * (b * p);
  }

  /** With bounded samples the shift is safe for as many doublings as the bound leaves bits. */
  lemma BoundedRunBacksOffSafely(rtts: seq<nat>, m: nat, k: nat, backoff: nat, dackt: nat)
    requires 7 <= k <= 29 && backoff + k + 3 <= 32
    requires forall i :: 0 <= i < |rtts| ==> m <= rtts[i] < Power2(k)
    ensures var e := AdjustedBy(UNKNOWN, rtts);
            Base(e) * Power2(backoff) < WRAP && ARDP_MIN_RTO <= Rto(e, backoff, dackt) <= ARDP_MAX_RTO
  {
    hide Wrap, Power2, Base, Rto, AdjustedBy;
    var e := AdjustedBy(UNKNOWN, rtts);
    PowerMonotone(k, 29);
    SmallPowers();
    RunStaysBounded(rtts, m, Power2(k) - 1);
    UnknownIsSmall(rtts);
    BaseBounded(e, k);
    PowerAdds(k + 3, backoff);
    PowerMonotone(k + 3 + backoff, 32);
    Scales(Base(e), Power2(k + 3), Power2(backoff));
    RtoBounds(e, backoff, dackt);
  }

  lemma UnknownIsSmall(rtts: seq<nat>)
    ensures rtts == [] ==> AdjustedBy(UNKNOWN, rtts).mean == 0 && AdjustedBy(UNKNOWN, rtts).variance == 0
  {
  }

  lemma BaseBounded(e: Estimate, k: nat)
    requires 7 <= k <= 29 && e.mean < Power2(k) && e.variance < Power2(k)
    ensures Base(e) < Power2(k + 3)
  {
    hide Power2;
    PowerMonotone(k, 29);
    PowerMonotone(7, k);
    SmallPowers();
    EightTimes(k);
    assert Wrap(e.mean + 4 * e.variance) == e.mean + 4 * e.variance;
  }

  lemma EightTimes(k: nat)
    ensures Power2(k + 3) == 8 * Power2(k)
  {
    assert Power2(k + 3) == 2 * Power2(k + 2);
    assert Power2(k + 2) == 2 * Power2(k + 1);
  }

  lemma SmallPowers()
    ensures Power2(7) == 128 && Power2(29) == 0x2000_0000 && Power2(32) == WRAP
  {
    assert Power2(8) == 256 && Power2(16) == 65536 && Power2(24) == 0x100_0000;
  }

  lemma Scales(a: nat, b: nat, p: nat)
    requires a < b && p > 0
    ensures a * p < b * p
  {
  }

  lemma {:induction false} PowerMonotone(a: nat, b: nat)
    requires a <= b
    ensures Power2(a) <= Power2(b)
    decreases b
  {
    if a < b {
      PowerMonotone(a, b - 1);
    }
  }

  lemma {:induction false} PowerAdds(a: nat, b: nat)
    ensures Power2(a + b) == Power2(a) * Power2(b)
    decreases b
  {
    if b > 0 {
      PowerAdds(a, b - 1);
      DoubleProduct(Power2(a), Power2(b - 1));
      assert Power2(a + b) == 2 * Power2(a + (b - 1));
    }
  }

  lemma DoubleProduct(x: nat, y: nat)
    ensures 2 * (x * y) == x * (2 * y)
  {
  }

  /**
   * The overflow is real: one sample of 131072 milliseconds makes a base of five times two to
   * the 16, so from the sixteenth doubling on nothing is left but what the other side asks for.
   */
  lemma OverflowGivesNothing(backoff: nat, dackt: nat)
    requires 16 <= backoff < 32
    ensures Rto(AdjustedBy(UNKNOWN, [0x2_0000]), backoff, dackt) == Min(dackt, ARDP_MAX_RTO)
  {
    hide Wrap, Power2, AdjustedBy, Base, KeptBits;
    SampleOf131072();
    ShiftKeeps(5 * 0x1_0000, backoff);
    NothingKept(backoff);
  }

  lemma NothingKept(backoff: nat)
    requires 16 <= backoff < 32
    ensures KeptBits(5 * 0x1_0000, backoff) == 0
  {
    hide Power2;
    var q, m := Power2(backoff - 16), Power2(32 - backoff);
    PowerAdds(backoff - 16, 32 - backoff);
    SixteenthPower();
    Quotient(5 * 0x1_0000, 5 * q, m) by { FiveTimes(q, m); }
  }

  lemma FiveTimes(q: nat, m: nat)
    ensures 5 * q * m == 5 * (q * m)
  {
  }

  lemma Quotient(n: nat, q: nat, m: nat)
    requires m > 0 && n == q * m
    ensures n % m == 0
  {
    DivMod(n, m);
    var k := n / m;
    if k < q {
      Gap(q, k, m);
    } else if k > q {
      Gap(k, q, m);
    }
  }

  lemma Gap(a: nat, b: nat, m: nat)
    requires b < a
    ensures a * m >= b * m + m
  {
    Grows(m, a - b);
    SplitsUp(b, a - b, m);
  }

  lemma SplitsUp(b: nat, d: nat, m: nat)
    ensures (b + d) * m == b * m + d * m
  {
  }

  lemma SixteenthPower()
    ensures Power2(16) == 0x1_0000
  {
    assert Power2(8) == 256;
  }

  lemma SampleOf131072()
    ensures Base(AdjustedBy(UNKNOWN, [0x2_0000])) == 5 * 0x1_0000
  {
    assert AdjustedBy(UNKNOWN, [0x2_0000]) == Adjusted(UNKNOWN, 0x2_0000);
  }
}
