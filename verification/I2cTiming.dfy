/** The search for the I2C TIMINGR value: prescaler and cycle counts for a bus speed. */
module I2cTiming {
  import opened Common

  const NS := 1_000_000_000

  datatype Speed = Standard | Fast

  /** Minima in nanoseconds, from section 6.1 of the NXP I2C specification UM10204. */
  function Period(s: Speed): int { if s == Standard then 10000 else 2500 }
  function LowMin(s: Speed): int { if s == Standard then 4700 else 1300 }
  function HighMin(s: Speed): int { if s == Standard then 4000 else 600 }
  function Setup(s: Speed): int { if s == Standard then 250 else 100 }

  /** The high time the code aims for. */
  function High(s: Speed): int {
    var rest := if Period(s) > LowMin(s) then Period(s) - LowMin(s) else HighMin(s);
    if rest < HighMin(s) then HighMin(s) else rest
  }

  /** `i2c_hal_ceil_div_u64`. */
  function CeilDiv(n: nat, d: int): (r: nat)
    requires d > 0
  {
    (n + d - 1) / d
  }

  /** The least number of whole units that covers `n`. */
  lemma CeilDivIs(n: nat, d: int)
    requires d > 0
    ensures n <= CeilDiv(n, d) * d < n + d
  {
    var q := (n + d - 1) / d;
    assert n + d - 1 == q * d + (n + d - 1) % d;
  }

  /** It is the least one. */
  lemma CeilDivLeast(n: nat, d: int, k: int)
    requires d > 0
    ensures CeilDiv(n, d) <= k <==> n <= k * d
  {
    CeilDivIs(n, d);
    var q := CeilDiv(n, d);
    MulMono(q, k, d);
    MulMono(k + 1, q, d);
    assert (k + 1) * d == k * d + d;
  }

  /** The five fields; `scll`, `sclh` and `scldel` hold one less than the count of units. */
  datatype Timing = Timing(presc: nat, scldel: nat, sdadel: nat, sclh: nat, scll: nat)

  predicate InFields(t: Timing) {
    t.presc <= 15 && t.scldel <= 15 && t.sdadel <= 15 && t.sclh <= 255 && t.scll <= 255
  }

  /** The word: the fields at bits 28, 20, 16, 8 and 0. As no field reaches into the next, OR
      is addition. */
  function Pack(t: Timing): nat {
    t.presc * 0x1000_0000 + t.scldel * 0x10_0000 + t.sdadel * 0x1_0000 + t.sclh * 0x100 + t.scll
  }

  /** What the peripheral reads back from the word. */
  function Unpack(w: nat): Timing {
    Timing(w / 0x1000_0000, w / 0x10_0000 % 16, w / 0x1_0000 % 16, w / 0x100 % 256, w % 256)
  }

  lemma RoundTrip(t: Timing)
    requires InFields(t)
    ensures Unpack(Pack(t)) == t && Pack(t) < 0x1_0000_0000
    ensures Pack(t) / 0x1000_0000 == t.presc && Pack(t) / 0x10_0000 % 0x10 == t.scldel && Pack(t) / 0x1_0000 % 0x10 == t.sdadel
    ensures Pack(t) / 0x100 % 0x100 == t.sclh && Pack(t) % 0x100 == t.scll
  {
    var w := Pack(t);
    assert w / 0x100 == t.presc * 0x10_0000 + t.scldel * 0x1000 + t.sdadel * 0x100 + t.sclh;
    assert w / 0x1_0000 == t.presc * 0x1000 + t.scldel * 0x10 + t.sdadel;
    assert w / 0x10_0000 == t.presc * 0x100 + t.scldel;
  }

  // ---------------------------------------------------------------------------
  // The search

  /** Cycles of the peripheral clock that cover a time. */
  function Cycles(ns: nat, pclk: nat): nat { CeilDiv(ns * pclk, NS) }

  /** The fields for prescaler `presc`, before the range test. */
  function Candidate(pclk: nat, s: Speed, presc: nat): Timing
    requires pclk > 0
  {
    var d := presc + 1;
    var low, high := CeilDiv(Cycles(LowMin(s), pclk), d), CeilDiv(Cycles(High(s), pclk), d);
    var del := CeilDiv(Cycles(Setup(s), pclk), d);
    Timing(presc, if del > 0 then del - 1 else 0, 0, if high > 0 then high - 1 else 0, if low > 0 then low - 1 else 0)
  }

  /** Every count is at least one, so nothing is lost by storing one less. */
  lemma Positive(ns: nat, pclk: nat, d: int)
    requires 0 < ns && 0 < pclk && d > 0
    ensures Cycles(ns, pclk) > 0 && CeilDiv(Cycles(ns, pclk), d) > 0
  {
    assert ns * pclk > 0;
    CeilDivIs(ns * pclk, NS);
    CeilDivIs(Cycles(ns, pclk), d);
    MulMono(CeilDiv(Cycles(ns, pclk), d), 0, d);
  }

  /** A count fits a field of `max + 1` values exactly when the time is short enough. */
  lemma FitsIff(ns: nat, pclk: nat, d: int, max: nat)
    requires 0 < ns && 0 < pclk && d > 0
    ensures CeilDiv(Cycles(ns, pclk), d) - 1 <= max <==> ns * pclk <= (max + 1) * d * NS
  {
    CeilDivLeast(Cycles(ns, pclk), d, max + 1);
    CeilDivLeast(ns * pclk, NS, (max + 1) * d);
  }

  /** The largest clock for which the largest prescaler is enough. */
  function MaxClock(s: Speed): int { if s == Standard then 772_830_188 else 2_560_000_000 }

  /** Prescaler `presc` works exactly when the three counts fit their fields. */
  lemma CandidateFits(pclk: nat, s: Speed, presc: nat)
    requires pclk > 0
    ensures presc <= 15 ==> (InFields(Candidate(pclk, s, presc)) <==>
      && LowMin(s) * pclk <= 256 * (presc + 1) * NS
      && High(s) * pclk <= 256 * (presc + 1) * NS
      && Setup(s) * pclk <= 16 * (presc + 1) * NS)
  {
    FitsIff(LowMin(s), pclk, presc + 1, 255);
    FitsIff(High(s), pclk, presc + 1, 255);
    FitsIff(Setup(s), pclk, presc + 1, 15);
    Positive(LowMin(s), pclk, presc + 1);
    Positive(High(s), pclk, presc + 1);
    Positive(Setup(s), pclk, presc + 1);
  }

  /** The last prescaler works exactly up to the largest clock. */
  lemma LastFits(pclk: nat, s: Speed)
    requires pclk > 0
    ensures InFields(Candidate(pclk, s, 15)) <==> pclk <= MaxClock(s)
  {
    CandidateFits(pclk, s, 15);
  }

  /** A stored count as a time, in nanoseconds times the clock. */
  function Time(stored: int, presc: int): int { (stored + 1) * ((presc + 1) * NS) }

  /** Low time, high time, period and data setup meet the minima in nanoseconds of section 6.1
      of the NXP I2C specification UM10204. */
  ghost predicate MeetsMinima(t: Timing, pclk: nat, s: Speed) {
    var low, high, setup := Time(t.scll, t.presc), Time(t.sclh, t.presc), Time(t.scldel, t.presc);
    match s
    case Standard => low >= 4700 * pclk && high >= 4000 * pclk && low + high >= 10000 * pclk && setup >= 250 * pclk
    case Fast => low >= 1300 * pclk && high >= 600 * pclk && low + high >= 2500 * pclk && setup >= 100 * pclk
  }

  /** The stored count is the least whose time is long enough. */
  ghost predicate Least(stored: int, presc: int, time: int) {
    Time(stored - 1, presc) < time <= Time(stored, presc)
  }

  /** No count is bigger than it need be for the minimal low time, the rest of the period as
      high time and the minimal data setup. */
  ghost predicate NoLonger(t: Timing, pclk: nat, s: Speed) {
    && Least(t.scll, t.presc, if s == Standard then 4700 * pclk else 1300 * pclk)
    && Least(t.sclh, t.presc, if s == Standard then 5300 * pclk else 1200 * pclk)
    && Least(t.scldel, t.presc, if s == Standard then 250 * pclk else 100 * pclk)
    && t.sdadel == 0
  }

  lemma CandidateMeets(pclk: nat, s: Speed, presc: nat)
    requires pclk > 0
    ensures MeetsMinima(Candidate(pclk, s, presc), pclk, s) && NoLonger(Candidate(pclk, s, presc), pclk, s)
  {
    var low := Covers(LowMin(s), pclk, presc);
    var high := Covers(High(s), pclk, presc);
    var del := Covers(Setup(s), pclk, presc);
    assert Candidate(pclk, s, presc) == Timing(presc, del, 0, high, low);
    LongEnough(Candidate(pclk, s, presc), pclk, s);
  }

  lemma LongEnough(t: Timing, pclk: nat, s: Speed)
    requires NoLonger(t, pclk, s)
    ensures MeetsMinima(t, pclk, s)
  {
    MinimaMet(Time(t.scll, t.presc), Time(t.sclh, t.presc), pclk, s);
  }

  lemma MinimaMet(low: int, high: int, pclk: nat, s: Speed)
    requires if s == Standard then low >= 4700 * pclk && high >= 5300 * pclk else low >= 1300 * pclk && high >= 1200 * pclk
    ensures if s == Standard then high >= 4000 * pclk && low + high >= 10000 * pclk else high >= 600 * pclk && low + high >= 2500 * pclk
  {
  }

  lemma Covers(ns: nat, pclk: nat, presc: nat) returns (stored: int)
    requires 0 < ns && 0 < pclk
    ensures stored == CeilDiv(Cycles(ns, pclk), presc + 1) - 1 >= 0 && Least(stored, presc, ns * pclk)
  {
    var d := presc + 1;
    Positive(ns, pclk, d);
    var c := Cycles(ns, pclk);
    var k := CeilDiv(c, d);
    stored := k - 1;
    CeilDivLeast(c, d, k);
    CeilDivLeast(c, d, k - 1);
    CeilDivLeast(ns * pclk, NS, k * d);
    CeilDivLeast(ns * pclk, NS, (k - 1) * d);
    assert Time(stored, presc) == (k * d) * NS && Time(stored - 1, presc) == ((k - 1) * d) * NS;
  }

  /** The value for 80 MHz that the code falls back on. */
  function Fallback(s: Speed): nat { if s == Standard then 0x10909CEC else 0x00702991 }

  /** At the 80 MHz it is meant for, the fallback has high times of 3925 and 525 ns, short of the
      minima of 4000 and 600 ns. */
  lemma FallbackIsShort()
    ensures Unpack(Fallback(Standard)) == Timing(1, 9, 0, 156, 236) && Unpack(Fallback(Fast)) == Timing(0, 7, 0, 41, 145)
    ensures Time(156, 1) == 3925 * 80_000_000 && Time(41, 0) == 525 * 80_000_000
    ensures forall s :: !MeetsMinima(Unpack(Fallback(s)), 80_000_000, s)
  {
  }

  /** The body of the loop: the fields for one prescaler, and whether they fit. */
  method Try(ghost pclk: nat, ghost s: Speed, lowCycles: nat, highCycles: nat, delCycles: nat, presc: nat) returns (ok: bool, t: Timing)
    requires 0 < pclk && presc <= 15 && delCycles == Cycles(Setup(s), pclk)
    requires lowCycles == Cycles(LowMin(s), pclk) && highCycles == Cycles(High(s), pclk)
    ensures (ok <==> InFields(Candidate(pclk, s, presc))) && (ok ==> t == Candidate(pclk, s, presc))
  {
    var d := presc + 1;
    var scll, sclh := CeilDiv(lowCycles, d), CeilDiv(highCycles, d);
    Positive(LowMin(s), pclk, d);
    Positive(High(s), pclk, d);
    Positive(Setup(s), pclk, d);
    ok, t := false, Timing(presc, 0, 0, 0, 0);
    if scll == 0 || sclh == 0 {
      return;
    }
    var scldel: int := 0;
    if delCycles > 0 {
      scldel := CeilDiv(delCycles, d);
      if scldel == 0 {
        scldel := 1;
      }
      scldel := scldel - 1;
    }
    t := Timing(presc, scldel, 0, sclh - 1, scll - 1);
    ok := t.scll <= 255 && t.sclh <= 255 && t.scldel <= 15;
  }

  /** `i2c_hal_compute_timing`: the least prescaler that fits, or the fallback, which is used
      exactly for a clock of zero or above the largest. */
  method ComputeTiming(pclk: nat, s: Speed) returns (word: nat)
    requires pclk < 0x1_0000_0000
    ensures word < 0x1_0000_0000
    ensures 0 < pclk <= MaxClock(s) ==>
      var t := Unpack(word);
      && InFields(t) && word == Pack(t) && MeetsMinima(t, pclk, s) && NoLonger(t, pclk, s) && t == Candidate(pclk, s, t.presc)
      && forall p :: 0 <= p < t.presc ==> !InFields(Candidate(pclk, s, p))
    ensures pclk == 0 || MaxClock(s) < pclk ==> word == Fallback(s)
  {
    var low := LowMin(s);
    var high := if Period(s) > low then Period(s) - low else HighMin(s);
    if high < HighMin(s) {
      high := HighMin(s);
    }
    if pclk == 0 {
      return Fallback(s);
    }
    var lowCycles, highCycles := CeilDiv(low * pclk, NS), CeilDiv(high * pclk, NS);
    var delCycles := CeilDiv(Setup(s) * pclk, NS);
    var presc := 0;
    while presc <= 15
      invariant 0 <= presc <= 16
      invariant forall p :: 0 <= p < presc ==> !InFields(Candidate(pclk, s, p))
    {
      var ok, t := Try(pclk, s, lowCycles, highCycles, delCycles, presc);
      if ok {
        RoundTrip(t);
        CandidateMeets(pclk, s, presc);
        FoundIff(pclk, s, presc);
        return Pack(t);
      }
      presc := presc + 1;
    }
    LastFits(pclk, s);
    word := Fallback(s);
  }

  /** A clock some prescaler is enough for, the last one is enough for. */
  lemma FoundIff(pclk: nat, s: Speed, presc: nat)
    requires pclk > 0 && presc <= 15 && InFields(Candidate(pclk, s, presc))
    ensures pclk <= MaxClock(s)
  {
    CandidateFits(pclk, s, presc);
    assert (presc + 1) * NS <= 16 * NS;
    LastFits(pclk, s);
    CandidateFits(pclk, s, 15);
  }
}
