/** The compliance limiter of firmware-old/open-servo-math/src/compliance_model.rs: an
effort cap that backs off under sustained over-current and recovers with time. */
module Compliance {
  import opened Basics
  import opened FixedPoint

  const MIN_CAP: int := 3277
  const MAX_CAP: int := 32767

  datatype LimitState = Normal | Limiting | Recovering
  datatype Config = Config(limit: int, hysteresis: int, deglitch: nat, factor: nat, rate: int)
  datatype Limiter = Limiter(cap: int, over: nat, state: LimitState)
  datatype Reading = Reading(current: Option<int>, dt: U32)

  const RESET := Limiter(MAX_CAP, 0, Normal)

  ghost predicate ValidConfig(c: Config) {
    IsI16(c.limit) && IsI16(c.hysteresis) && c.deglitch < 0x100 && c.factor < 0x1_0000 && IsI16(c.rate)
  }

  ghost predicate ValidReading(r: Reading) { r.current.Some? ==> IsI16(r.current.value) }

  ghost predicate ValidLimiter(m: Limiter) { IsI16(m.cap) && m.over < 0x100 }

  /** `saturating_abs`. */
  function Abs16(x: int): int { if x >= 0 then x else if x == I16_MIN then I16_MAX else -x }

  predicate Over(c: Config, r: Reading) { r.current.Some? && Abs16(r.current.value) > c.limit }

  /** Below the limit by the hysteresis, as i16 subtraction computes it. */
  predicate Clear(c: Config, r: Reading) {
    r.current.Some? && Abs16(r.current.value) < Wrap16(c.limit - c.hysteresis)
  }

  function Backoff(c: Config, cap: int): int {
    var cut := Wrap16(cap * c.factor / 256);
    if cut < MIN_CAP then MIN_CAP else cut
  }

  function RecoveryStep(c: Config, dt: U32): int {
    Wrap16(TruncDiv(Wrap32(c.rate * Wrap32(dt)), 1_000_000))
  }

  /** A saturating i16 addition; `Effort::MAX` is i16::MAX. */
  function Recover(c: Config, cap: int, dt: U32): int {
    Clamp(cap + RecoveryStep(c, dt), I16_MIN, I16_MAX)
  }

  function Step(c: Config, m: Limiter, r: Reading): Limiter {
    if r.current.None? then m
    else
      match m.state
      case Normal =>
        if Over(c, r) then
          var over := if m.over >= 0xFF then 0xFF else m.over + 1;
          if over >= c.deglitch then Limiter(Backoff(c, m.cap), 0, Limiting) else m.(over := over)
        else m.(over := 0)
      case Limiting =>
        if Clear(c, r) then m.(state := Recovering)
        else if Over(c, r) then m.(cap := Backoff(c, m.cap))
        else m
      case Recovering =>
        if Over(c, r) then m.(over := 1, state := Normal)
        else if Clear(c, r) then
          var cap := Recover(c, m.cap, r.dt);
          if cap >= MAX_CAP then Limiter(MAX_CAP, 0, Normal) else m.(cap := cap)
        else m
  }

  class ComplianceModel {
    const config: Config
    var effortCap: int
    var overCnt: nat
    var state: LimitState

    ghost function Value(): Limiter reads this { Limiter(effortCap, overCnt, state) }
    ghost predicate Valid() reads this { ValidConfig(config) && ValidLimiter(Value()) }

    constructor (config: Config)
      requires ValidConfig(config)
      ensures Valid() && this.config == config && Value() == RESET
    {
      this.config := config;
      effortCap, overCnt, state := MAX_CAP, 0, Normal;
    }

    method Update(r: Reading) returns (min: int, max: int)
      requires Valid() && ValidReading(r)
      modifies this
      ensures Valid() && Value() == Step(config, old(Value()), r)
      ensures max == effortCap && min == -max
    {
      if r.current.Some? {
        var magnitude := Abs16(r.current.value);
        var threshold := Wrap16(config.limit - config.hysteresis);
        match state {
          case Normal =>
            if magnitude > config.limit {
              overCnt := if overCnt >= 0xFF then 0xFF else overCnt + 1;
              if overCnt >= config.deglitch {
                ApplyBackoff();
                state := Limiting;
                overCnt := 0;
              }
            } else {
              overCnt := 0;
            }
          case Limiting =>
            if magnitude < threshold {
              state := Recovering;
            } else if magnitude > config.limit {
              ApplyBackoff();
            }
          case Recovering =>
            if magnitude > config.limit {
              overCnt := 1;
              state := Normal;
            } else if magnitude < threshold {
              ApplyRecovery(r.dt);
              if effortCap >= MAX_CAP {
                effortCap := MAX_CAP;
                state := Normal;
                overCnt := 0;
              }
            }
        }
      }
      max := effortCap;
      min := -max;
    }

    method ApplyBackoff()
      modifies this`effortCap
      ensures effortCap == Backoff(config, old(effortCap)) && IsI16(effortCap)
    {
      var cut := Wrap16(effortCap * config.factor / 256);
      effortCap := if cut < MIN_CAP then MIN_CAP else cut;
    }

    method ApplyRecovery(dt: U32)
      modifies this`effortCap
      ensures effortCap == Recover(config, old(effortCap), dt) && IsI16(effortCap)
    {
      effortCap := Clamp(effortCap + RecoveryStep(config, dt), I16_MIN, I16_MAX);
    }

    method Reset()
      modifies this
      ensures Value() == RESET
    {
      effortCap, overCnt, state := MAX_CAP, 0, Normal;
    }
  }

  // ---------------------------------------------------------------------
  // Backing off and recovering
  // ---------------------------------------------------------------------

  predicate InBand(cap: int) { 3277 <= cap <= 32767 }

  lemma BackoffNeverRises(c: Config, cap: int)
    requires c.factor <= 256 && InBand(cap)
    ensures MIN_CAP <= Backoff(c, cap) <= cap
    ensures var cut := Backoff(c, cap);
      256 * cut <= cap * c.factor < 256 * cut + 256 || (cut == MIN_CAP && cap * c.factor < 256 * MIN_CAP)
  {
    Scale(c.factor, 256, cap);
    Scale(0, c.factor, cap);
  }

  /** Rate times time, in millionths of an effort unit, modulo 2^32. */
  function Product(rate: int, dt: U32): nat { (rate * dt) % I32_SPAN }

  /** The i32 product, with `dt` itself cast to i32, is the true product modulo 2^32. */
  lemma ProductWraps(rate: int, dt: U32)
    ensures var p := Product(rate, dt);
      Wrap32(rate * Wrap32(dt)) == if p <= I32_MAX then p else p - I32_SPAN
  {
    var w := Wrap32(dt);
    var v := Wrap32(rate * w);
    var j := WrapTurns(dt, 0x8000_0000);
    var k := WrapTurns(rate * w, 0x8000_0000);
    Regroup(rate, w, j, k, v);
    if v >= 0 {
      ModUnique(rate * dt, I32_SPAN, rate * j + k, v);
    } else {
      ModUnique(rate * dt, I32_SPAN, rate * j + k - 1, v + I32_SPAN);
    }
  }

  lemma Regroup(rate: int, w: int, j: int, k: int, v: int)
    requires rate * w == v + k * I32_SPAN
    ensures rate * (w + j * I32_SPAN) == (rate * j + k) * I32_SPAN + v
  {
    assert rate * (j * I32_SPAN) == (rate * j) * I32_SPAN;
  }

  lemma RecoveryStepIs(c: Config, dt: U32)
    ensures var p := Product(c.rate, dt);
      RecoveryStep(c, dt) == if p <= I32_MAX then p / 1_000_000 else -((I32_SPAN - p) / 1_000_000)
  {
    ProductWraps(c.rate, dt);
  }

  /** The product of rate and time stays clear of the negative half of i32. */
  predicate RecoverySafe(c: Config, dt: U32) {
    Product(c.rate, dt) <= I32_MAX || Product(c.rate, dt) > I32_SPAN - 1_000_000
  }

  /** Recovery never lowers the cap if and only if the product is safe. */
  lemma RecoveryNeverFalls(c: Config, cap: int, dt: U32)
    requires InBand(cap)
    ensures Recover(c, cap, dt) >= cap <==> RecoverySafe(c, dt)
  {
    RecoveryStepIs(c, dt);
  }

  /** Recovery raises a cap that is not full if and only if the product, modulo 2^32, is
      a million or more and not negative. */
  lemma RecoveryRises(c: Config, cap: int, dt: U32)
    requires MIN_CAP <= cap < MAX_CAP
    ensures Recover(c, cap, dt) > cap <==> 1_000_000 <= Product(c.rate, dt) <= I32_MAX
  {
    RecoveryStepIs(c, dt);
  }

  // ---------------------------------------------------------------------
  // Whole runs
  // ---------------------------------------------------------------------

  function Run(c: Config, m: Limiter, readings: seq<Reading>): Limiter {
    if readings == [] then m
    else Step(c, Run(c, m, readings[..|readings| - 1]), readings[|readings| - 1])
  }

  ghost predicate SafeRun(c: Config, readings: seq<Reading>) {
    forall i :: 0 <= i < |readings| ==> ValidReading(readings[i]) && RecoverySafe(c, readings[i].dt)
  }

  /** The guard of the failing branch: a recovery whose product is negative as an i32 by
      more than the cap has to give. */
  predicate LeavesBand(c: Config, m: Limiter, r: Reading) {
    && m.state.Recovering? && Clear(c, r) && !Over(c, r)
    && Product(c.rate, r.dt) > I32_MAX
    && (I32_SPAN - Product(c.rate, r.dt)) / 1_000_000 > m.cap - MIN_CAP
  }

  /** One reading takes a cap out of its band exactly in that case. */
  lemma StepBandExact(c: Config, m: Limiter, r: Reading)
    requires c.factor <= 256 && InBand(m.cap)
    ensures InBand(Step(c, m, r).cap) <==> !LeavesBand(c, m, r)
  {
    BackoffNeverRises(c, m.cap);
    RecoveryStepIs(c, r.dt);
  }

  lemma SafeStaysInBand(c: Config, m: Limiter, r: Reading)
    requires InBand(m.cap) && RecoverySafe(c, r.dt)
    ensures !LeavesBand(c, m, r)
  {
  }

  /** No reading of the run takes the cap out of its band. */
  predicate NeverLeaves(c: Config, readings: seq<Reading>) {
    readings != [] ==>
      var n := |readings| - 1;
      NeverLeaves(c, readings[..n]) && !LeavesBand(c, Run(c, RESET, readings[..n]), readings[n])
  }

  /** The cap is in its band before the run and after each of its readings. */
  predicate AlwaysInBand(c: Config, readings: seq<Reading>) {
    && InBand(Run(c, RESET, readings).cap)
    && (readings != [] ==> AlwaysInBand(c, readings[..|readings| - 1]))
  }

  /** A whole run stays in the band if and only if none of its readings is such a step. */
  lemma {:induction false} RunBandExact(c: Config, readings: seq<Reading>)
    requires c.factor <= 256
    ensures AlwaysInBand(c, readings) <==> NeverLeaves(c, readings)
  {
    if readings != [] {
      var n := |readings| - 1;
      var m := Run(c, RESET, readings[..n]);
      RunBandExact(c, readings[..n]);
      if InBand(m.cap) {
        StepBandExact(c, m, readings[n]);
      }
    }
  }

  lemma {:induction false} RunInBand(c: Config, readings: seq<Reading>)
    requires c.factor <= 256 && SafeRun(c, readings)
    ensures InBand(Run(c, RESET, readings).cap)
  {
    if readings != [] {
      var n := |readings| - 1;
      var m := Run(c, RESET, readings[..n]);
      RunInBand(c, readings[..n]);
      SafeStaysInBand(c, m, readings[n]);
      StepBandExact(c, m, readings[n]);
    }
  }

  /** One second at 10% per second overflows: from a new model, an over-limit reading, a
      clear one and a second of recovery leave the cap below its floor. */
  lemma LongStepFalls(c: Config, readings: seq<Reading>)
    requires c == Config(600, 50, 1, 0, 3277)
    requires readings == [Reading(Some(700), 0), Reading(Some(0), 0), Reading(Some(0), 1_000_000)]
    ensures ValidConfig(c) && Run(c, RESET, readings).cap == MIN_CAP - 1017
  {
    assert readings[..2][..1][..0] == [] && readings[..2][..1][0] == readings[0] && readings[..2][1] == readings[1];
    assert Run(c, RESET, readings[..2][..1]) == Limiter(MIN_CAP, 0, Limiting);
    assert Run(c, RESET, readings[..2]) == Limiter(MIN_CAP, 0, Recovering);
    RecoveryStepIs(c, 1_000_000);
  }

  /** The cap falls only on an over-limit reading, at once when already limiting and on
      the reading that exhausts the deglitch count otherwise; it rises only while
      recovering, on a reading clear of the limit by the hysteresis. */
  lemma CapMoves(c: Config, m: Limiter, r: Reading)
    requires ValidConfig(c) && c.factor <= 256 && InBand(m.cap) && RecoverySafe(c, r.dt)
    ensures var next := Step(c, m, r);
      && (next.cap < m.cap ==> Over(c, r) && next.state.Limiting? && (m.state.Normal? ==> m.over + 1 >= c.deglitch))
      && (next.cap > m.cap ==> Clear(c, r) && m.state.Recovering?)
  {
    BackoffNeverRises(c, m.cap);
    RecoveryNeverFalls(c, m.cap, r.dt);
  }

  /** How many present readings in a row, up to the last, were over the limit. */
  function Streak(c: Config, readings: seq<Reading>): nat {
    if readings == [] then 0
    else
      var r := readings[|readings| - 1];
      var before := Streak(c, readings[..|readings| - 1]);
      if r.current.None? then before else if Over(c, r) then before + 1 else 0
  }

  lemma {:induction false} CountWithinStreak(c: Config, readings: seq<Reading>)
    ensures var m := Run(c, RESET, readings);
      m.over <= Streak(c, readings) && (m.state != Normal ==> m.over == 0)
  {
    if readings != [] {
      CountWithinStreak(c, readings[..|readings| - 1]);
    }
  }

  /** A normal limiter cuts the cap only after at least `deglitch` present readings in a
      row over the limit, whatever happened before. */
  lemma FallsOnlyDeglitched(c: Config, readings: seq<Reading>, r: Reading)
    requires ValidConfig(c) && c.factor <= 256 && SafeRun(c, readings) && RecoverySafe(c, r.dt)
    requires var m := Run(c, RESET, readings); m.state.Normal? && Step(c, m, r).cap < m.cap
    ensures Streak(c, readings + [r]) >= c.deglitch
  {
    assert (readings + [r])[..|readings|] == readings;
    CountWithinStreak(c, readings);
    RunInBand(c, readings);
    CapMoves(c, Run(c, RESET, readings), r);
  }

  /** And it does cut: enough over-limit readings in a row always end in limiting. */
  lemma {:induction false} SustainedOverLimits(c: Config, m: Limiter, readings: seq<Reading>)
    requires ValidConfig(c) && c.hysteresis >= 0 && IsI16(c.limit - c.hysteresis)
    requires m.state.Normal? && ValidLimiter(m)
    requires forall i :: 0 <= i < |readings| ==> Over(c, readings[i])
    ensures var end := Run(c, m, readings);
      if readings != [] && m.over + |readings| >= c.deglitch then end.state.Limiting?
      else end == m.(over := m.over + |readings|)
  {
    if readings != [] {
      SustainedOverLimits(c, m, readings[..|readings| - 1]);
    }
  }

  /** Fully recovered, or recovering with a cap of at least `floor`. */
  predicate OnTrack(m: Limiter, floor: int) {
    m == RESET || (m.state.Recovering? && floor <= m.cap <= MAX_CAP)
  }

  /** A clear reading that is not over the limit and lasts for at least `step` units. */
  predicate Restores(c: Config, r: Reading, step: nat) {
    Clear(c, r) && !Over(c, r) && 1_000_000 * step <= Product(c.rate, r.dt) <= I32_MAX
  }

  lemma ClearStep(c: Config, m: Limiter, r: Reading, floor: int, step: nat)
    requires Restores(c, r, step) && OnTrack(m, floor) && MIN_CAP <= floor
    ensures OnTrack(Step(c, m, r), floor + step)
  {
    RecoveryStepIs(c, r.dt);
    assert RecoveryStep(c, r.dt) >= step;
  }

  /** Clear readings that each add at least `step` restore the full cap in time. */
  lemma {:induction false} RecoversWithin(c: Config, m: Limiter, readings: seq<Reading>, step: nat)
    requires InBand(m.cap) && m.state.Recovering?
    requires forall i :: 0 <= i < |readings| ==> Restores(c, readings[i], step)
    ensures OnTrack(Run(c, m, readings), m.cap + |readings| * step)
    ensures m.cap + |readings| * step > MAX_CAP ==> Run(c, m, readings) == RESET
  {
    if readings != [] {
      var n := |readings| - 1;
      RecoversWithin(c, m, readings[..n], step);
      assert Restores(c, readings[n], step);
      OneMore(n, step);
      Scale(0, n, step);
      ClearStep(c, Run(c, m, readings[..n]), readings[n], m.cap + n * step, step);
    }
  }

  /** Less than one effort unit either way. */
  predicate Tiny(c: Config, r: Reading) {
    Product(c.rate, r.dt) < 1_000_000 || Product(c.rate, r.dt) > I32_SPAN - 1_000_000
  }

  lemma TinyStep(c: Config, m: Limiter, r: Reading)
    requires c.factor <= 256 && InBand(m.cap) && Tiny(c, r)
    ensures MIN_CAP <= Step(c, m, r).cap <= m.cap
  {
    BackoffNeverRises(c, m.cap);
    RecoveryStepIs(c, r.dt);
    assert RecoveryStep(c, r.dt) == 0;
  }

  /** With steps under one effort unit nothing is ever recovered: over every run the cap
      only falls. */
  lemma {:induction false} TinyStepsNeverRecover(c: Config, m: Limiter, readings: seq<Reading>)
    requires c.factor <= 256 && InBand(m.cap)
    requires forall i :: 0 <= i < |readings| ==> Tiny(c, readings[i])
    ensures MIN_CAP <= Run(c, m, readings).cap <= m.cap
  {
    if readings != [] {
      var n := |readings| - 1;
      TinyStepsNeverRecover(c, m, readings[..n]);
      TinyStep(c, Run(c, m, readings[..n]), readings[n]);
    }
  }
}
