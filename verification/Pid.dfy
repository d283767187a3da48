/** The fixed-point PID controller of firmware-old/open-servo-math/src/pid.rs.

Gains are Q8.8.  Every i32 operation is written with its wrap-around, so that the
absence of overflow is a theorem and not an assumption. */
module Pid {
  import opened Basics
  import opened FixedPoint

  datatype DerivativeMode = OnError | OnMeasurement

  datatype PidState = PidState(
    hasI: bool, hasD: bool, kp: int, ki: int, kd: int, mode: DerivativeMode,
    integ: int, integMin: int, integMax: int, prevError: int, prevMeas: int, outMin: int, outMax: int)

  /** `new_with_integral_limits`: each pair of limits is put in order. */
  function NewWithIntegralLimits(hasI: bool, hasD: bool, kp: int, ki: int, kd: int, mode: DerivativeMode,
                                 outMin: int, outMax: int, integMin: int, integMax: int): (p: PidState)
    ensures p.outMin <= p.outMax && p.integMin <= p.integMax
  {
    PidState(hasI, hasD, kp, ki, kd, mode, 0, Min(integMin, integMax), Max(integMin, integMax), 0, 0,
             Min(outMin, outMax), Max(outMin, outMax))
  }

  /** `new_auto_anti_windup`: the integrator alone can never exceed the output range. */
  function NewAutoAntiWindup(hasI: bool, hasD: bool, kp: int, ki: int, kd: int, mode: DerivativeMode,
                             outMin: int, outMax: int): (p: PidState)
    ensures IsI16(outMin) && IsI16(outMax) ==> p.integMin == 256 * p.outMin && p.integMax == 256 * p.outMax
  {
    NewWithIntegralLimits(hasI, hasD, kp, ki, kd, mode, outMin, outMax, Sat32(outMin * 256), Sat32(outMax * 256))
  }

  function Reset(p: PidState): PidState {
    p.(integ := 0, prevError := 0, prevMeas := 0)
  }

  function SetLimits(p: PidState, outMin: int, outMax: int): PidState {
    var lo := if outMin <= outMax then outMin else outMax;
    var hi := if outMin <= outMax then outMax else outMin;
    var integMin, integMax := Sat32(lo * 256), Sat32(hi * 256);
    p.(outMin := lo, outMax := hi, integMin := integMin, integMax := integMax,
       integ := Clamp(p.integ, integMin, integMax))
  }

  function Integrated(p: PidState, err: int): int {
    if p.hasI then Clamp(Sat32(p.integ + Wrap32(p.ki * err)), p.integMin, p.integMax) else p.integ
  }

  function DInput(p: PidState, err: int, pv: int): int {
    if p.mode.OnError? then Wrap32(err - p.prevError) else Wrap32(-Wrap32(pv - p.prevMeas))
  }

  function Proportional(p: PidState, err: int): int { Shr8(Wrap32(p.kp * err)) }
  function Integral(p: PidState, integ: int): int { if p.hasI then Shr8(integ) else 0 }
  function Derivative(p: PidState, err: int, pv: int): int {
    if p.hasD then Shr8(Wrap32(p.kd * DInput(p, err, pv))) else 0
  }

  /** The three terms summed and clamped. */
  function Output(p: PidState, prop: int, i: int, d: int): int {
    Clamp(Wrap32(Wrap32(prop + i) + d), p.outMin, p.outMax)
  }

  /** What a step remembers. */
  function Remembered(p: PidState, integ: int, err: int, pv: int): PidState {
    p.(integ := integ,
       prevError := if p.hasD && p.mode.OnError? then err else p.prevError,
       prevMeas := if p.hasD && p.mode.OnMeasurement? then pv else p.prevMeas)
  }

  function StepState(p: PidState, sp: int, pv: int): PidState {
    var err := Wrap32(sp - pv);
    Remembered(p, Integrated(p, err), err, pv)
  }

  function StepOutput(p: PidState, sp: int, pv: int): int {
    var err := Wrap32(sp - pv);
    Output(p, Proportional(p, err), Integral(p, Integrated(p, err)), Derivative(p, err, pv))
  }

  /** One control step: the new state and the output. */
  function Step(p: PidState, sp: int, pv: int): (PidState, int) {
    (StepState(p, sp, pv), StepOutput(p, sp, pv))
  }

  class PidI16 {
    const hasI: bool
    const hasD: bool
    var kp: int
    var ki: int
    var kd: int
    var mode: DerivativeMode
    var integ: int
    var integMin: int
    var integMax: int
    var prevError: int
    var prevMeas: int
    var outMin: int
    var outMax: int

    ghost function Value(): PidState
      reads this
    {
      PidState(hasI, hasD, kp, ki, kd, mode, integ, integMin, integMax, prevError, prevMeas, outMin, outMax)
    }

    constructor WithIntegralLimits(hasI: bool, hasD: bool, kp: int, ki: int, kd: int, mode: DerivativeMode,
                                   lo: int, hi: int, integLo: int, integHi: int)
      ensures Value() == NewWithIntegralLimits(hasI, hasD, kp, ki, kd, mode, lo, hi, integLo, integHi)
    {
      this.hasI, this.hasD, this.kp, this.ki, this.kd, this.mode := hasI, hasD, kp, ki, kd, mode;
      if lo <= hi {
        outMin, outMax := lo, hi;
      } else {
        outMin, outMax := hi, lo;
      }
      if integLo <= integHi {
        integMin, integMax := integLo, integHi;
      } else {
        integMin, integMax := integHi, integLo;
      }
      integ, prevError, prevMeas := 0, 0, 0;
    }

    /** The integral term, with its anti-windup clamp. */
    method Integrate(err: int) returns (i: int)
      modifies this`integ
      ensures integ == Integrated(old(Value()), err) && i == Integral(Value(), integ)
    {
      i := 0;
      if hasI {
        integ := Sat32(integ + Wrap32(ki * err));
        if integ > integMax {
          integ := integMax;
        } else if integ < integMin {
          integ := integMin;
        }
        i := Shr8(integ);
      }
    }

    /** The derivative term and its history. */
    method Differentiate(err: int, pv: int) returns (d: int)
      modifies this`prevError, this`prevMeas
      ensures d == Derivative(old(Value()), err, pv)
      ensures Value() == Remembered(old(Value()), integ, err, pv)
    {
      d := 0;
      if hasD {
        var input;
        match mode {
          case OnError =>
            input := Wrap32(err - prevError);
            prevError := err;
          case OnMeasurement =>
            input := Wrap32(-Wrap32(pv - prevMeas));
            prevMeas := pv;
        }
        d := Shr8(Wrap32(kd * input));
      }
    }

    method StepOnce(sp: int, pv: int) returns (out: int)
      modifies this
      ensures (Value(), out) == Step(old(Value()), sp, pv)
    {
      var err := Wrap32(sp - pv);
      ghost var was := Value();
      var p := Shr8(Wrap32(kp * err));
      var i := Integrate(err);
      ghost var mid := Value();
      var d := Differentiate(err, pv);
      assert mid == was.(integ := Integrated(was, err)) && d == Derivative(was, err, pv);
      assert p == Proportional(was, err) && i == Integral(was, Integrated(was, err));
      assert Value() == Remembered(was, Integrated(was, err), err, pv);
      out := Wrap32(Wrap32(p + i) + d);
      if out > outMax {
        out := outMax;
      } else if out < outMin {
        out := outMin;
      }
    }

    method SetOutputLimitsAutoAntiWindup(lo: int, hi: int)
      modifies this
      ensures Value() == SetLimits(old(Value()), lo, hi)
    {
      outMin, outMax := if lo <= hi then lo else hi, if lo <= hi then hi else lo;
      integMin, integMax := Sat32(outMin * 256), Sat32(outMax * 256);
      integ := Clamp(integ, integMin, integMax);
    }
  }

  // ---------------------------------------------------------------------
  // No overflow, over every run
  // ---------------------------------------------------------------------

  /** The same step on unbounded integers. */
  function IdealInteg(p: PidState, err: int): int {
    if p.hasI then Clamp(p.integ + p.ki * err, p.integMin, p.integMax) else p.integ
  }

  function IdealState(p: PidState, sp: int, pv: int): PidState {
    p.(integ := IdealInteg(p, sp - pv),
       prevError := if p.hasD && p.mode.OnError? then sp - pv else p.prevError,
       prevMeas := if p.hasD && p.mode.OnMeasurement? then pv else p.prevMeas)
  }

  function DerivativeInput(p: PidState, sp: int, pv: int): int {
    if p.mode.OnError? then sp - pv - p.prevError else p.prevMeas - pv
  }

  function IdealOutput(p: PidState, sp: int, pv: int): int {
    var err := sp - pv;
    var i := if p.hasI then Shr8(IdealInteg(p, err)) else 0;
    var d := if p.hasD then Shr8(p.kd * DerivativeInput(p, sp, pv)) else 0;
    Clamp(Shr8(p.kp * err) + i + d, p.outMin, p.outMax)
  }

  function IdealStep(p: PidState, sp: int, pv: int): (PidState, int) {
    (IdealState(p, sp, pv), IdealOutput(p, sp, pv))
  }

  ghost predicate Valid(p: PidState) {
    && IsI16(p.kp) && IsI16(p.ki) && IsI16(p.kd) && IsI16(p.prevMeas)
    && I16_MIN <= p.outMin <= 0 <= p.outMax <= I16_MAX
    && p.integMin == 256 * p.outMin && p.integMax == 256 * p.outMax
    && p.integMin <= p.integ <= p.integMax
  }

  lemma MulMonotone(k: int, x: int, y: int)
    requires k >= 0 && x <= y
    ensures k * x <= k * y
  {
  }

  lemma ProductBound(k: int, n: nat)
    requires IsI16(k) && n <= 0xFFFF
    ensures -0x7FFF_8000 <= n * k <= 0x7FFF_8000
  {
    MulMonotone(n, k, 0x8000);
    MulMonotone(n, -0x8000, k);
    assert n * 0x8000 <= 0x7FFF_8000;
  }

  lemma GainFits(k: int, x: int)
    requires IsI16(k) && -0xFFFF <= x <= 0xFFFF
    ensures -0x7FFF_8000 <= k * x <= 0x7FFF_8000
  {
    if x >= 0 {
      ProductBound(k, x);
    } else {
      ProductBound(k, -x);
      assert k * x == -(-x * k);
    }
  }

  /** Every i32 operation of the step, on unbounded integers, stays within i32.  The
      saturating addition is not one of them. */
  ghost predicate NoOverflow(p: PidState, sp: int, pv: int) {
    var err, input := sp - pv, DerivativeInput(p, sp, pv);
    var prop, i := Shr8(p.kp * err), if p.hasI then Shr8(IdealInteg(p, err)) else 0;
    && IsI32(err) && IsI32(p.kp * err)
    && (p.hasI ==> IsI32(p.ki * err))
    && (p.hasD ==> IsI32(-input) && IsI32(input) && IsI32(p.kd * input))
    && IsI32(prop + i) && IsI32(prop + i + if p.hasD then Shr8(p.kd * input) else 0)
  }

  lemma IntegralIsIdeal(p: PidState, err: int)
    requires Valid(p) && (p.hasI ==> IsI32(p.ki * err))
    ensures Integrated(p, err) == IdealInteg(p, err)
  {
  }

  lemma StateIsIdeal(p: PidState, sp: int, pv: int)
    requires Valid(p) && IsI32(sp - pv) && (p.hasI ==> IsI32(p.ki * (sp - pv)))
    ensures StepState(p, sp, pv) == IdealState(p, sp, pv)
  {
    IntegralIsIdeal(p, sp - pv);
  }

  lemma DerivativeIsIdeal(p: PidState, sp: int, pv: int)
    requires var input := DerivativeInput(p, sp, pv);
      p.hasD ==> IsI32(-input) && IsI32(input) && IsI32(p.kd * input)
    ensures Derivative(p, sp - pv, pv) == if p.hasD then Shr8(p.kd * DerivativeInput(p, sp, pv)) else 0
  {
  }

  lemma FittingStepIsIdeal(p: PidState, sp: int, pv: int)
    requires Valid(p) && NoOverflow(p, sp, pv)
    ensures Step(p, sp, pv) == IdealStep(p, sp, pv)
  {
    var err := sp - pv;
    IntegralIsIdeal(p, err);
    DerivativeIsIdeal(p, sp, pv);
    StateIsIdeal(p, sp, pv);
    SumIsIdeal(p, Shr8(p.kp * err), if p.hasI then Shr8(IdealInteg(p, err)) else 0,
               if p.hasD then Shr8(p.kd * DerivativeInput(p, sp, pv)) else 0);
    assert Wrap32(err) == err && Wrap32(p.kp * err) == p.kp * err;
  }

  lemma SumIsIdeal(p: PidState, prop: int, i: int, d: int)
    requires IsI32(prop + i) && IsI32(prop + i + d)
    ensures Output(p, prop, i, d) == Clamp(prop + i + d, p.outMin, p.outMax)
  {
  }

  /** With derivative on measurement and i16 inputs no intermediate overflows. */
  lemma StepIsIdeal(p: PidState, sp: int, pv: int)
    requires Valid(p) && p.mode.OnMeasurement? && IsI16(sp) && IsI16(pv)
    ensures NoOverflow(p, sp, pv) && Step(p, sp, pv) == IdealStep(p, sp, pv)
    ensures Valid(Step(p, sp, pv).0) && p.outMin <= Step(p, sp, pv).1 <= p.outMax
  {
    var err, input := sp - pv, DerivativeInput(p, sp, pv);
    GainFits(p.kp, err);
    GainFits(p.ki, err);
    GainFits(p.kd, input);
    TermsFit(p, p.kp * err, err, p.kd * input);
    FittingStepIsIdeal(p, sp, pv);
  }

  /** The two sums, given products that fit. */
  lemma TermsFit(p: PidState, prop: int, err: int, der: int)
    requires Valid(p) && -0x7FFF_8000 <= prop <= 0x7FFF_8000 && IsI32(der)
    ensures var i := if p.hasI then Shr8(IdealInteg(p, err)) else 0;
      IsI32(Shr8(prop) + i) && IsI32(Shr8(prop) + i + if p.hasD then Shr8(der) else 0)
  {
  }

  // ---------------------------------------------------------------------
  // Derivative on error
  // ---------------------------------------------------------------------

  /** What every run in this mode keeps, overflow or not. */
  ghost predicate ValidOnError(p: PidState) {
    Valid(p) && p.mode.OnError? && -0xFFFF <= p.prevError <= 0xFFFF
  }

  /** The derivative product of a sample after an error `prev` at gain `kd`. */
  predicate DerivativeFits(kd: int, prev: int, sp: int, pv: int) { IsI32(kd * (sp - pv - prev)) }

  /** With derivative on error a step overflows exactly when its derivative product
      does. */
  lemma OnErrorExact(p: PidState, sp: int, pv: int)
    requires ValidOnError(p) && IsI16(sp) && IsI16(pv)
    ensures NoOverflow(p, sp, pv) <==> (p.hasD ==> DerivativeFits(p.kd, p.prevError, sp, pv))
    ensures NoOverflow(p, sp, pv) ==> Step(p, sp, pv) == IdealStep(p, sp, pv)
    ensures ValidOnError(Step(p, sp, pv).0)
  {
    var err := sp - pv;
    GainFits(p.kp, err);
    GainFits(p.ki, err);
    StateIsIdeal(p, sp, pv);
    if p.hasD ==> DerivativeFits(p.kd, p.prevError, sp, pv) {
      TermsFit(p, p.kp * err, err, if p.hasD then p.kd * DerivativeInput(p, sp, pv) else 0);
      FittingStepIsIdeal(p, sp, pv);
    }
  }

  datatype Event = Sample(sp: int, pv: int) | Limits(lo: int, hi: int) | Clear | Gains(kp: int, ki: int, kd: int)

  predicate Admissible(e: Event) {
    match e
    case Sample(sp, pv) => IsI16(sp) && IsI16(pv)
    case Limits(lo, hi) => IsI16(lo) && IsI16(hi) && ((lo <= 0 <= hi) || (hi <= 0 <= lo))
    case Clear => true
    case Gains(kp, ki, kd) => IsI16(kp) && IsI16(ki) && IsI16(kd)
  }

  function After(p: PidState, e: Event): PidState {
    match e
    case Sample(sp, pv) => StepState(p, sp, pv)
    case Limits(lo, hi) => SetLimits(p, lo, hi)
    case Clear => Reset(p)
    case Gains(kp, ki, kd) => p.(kp := kp, ki := ki, kd := kd)
  }

  function RunAll(p: PidState, events: seq<Event>): PidState {
    if events == [] then p else After(RunAll(p, events[..|events| - 1]), events[|events| - 1])
  }

  /** Every run of samples, limit changes, gain changes and resets stays within the
      current limits: no overflow, output and integrator bounded at every step. */
  lemma {:induction false} RunStaysValid(p: PidState, events: seq<Event>)
    requires Valid(p) && p.mode.OnMeasurement?
    requires forall i :: 0 <= i < |events| ==> Admissible(events[i])
    ensures Valid(RunAll(p, events)) && RunAll(p, events).mode.OnMeasurement?
    ensures forall sp, pv :: IsI16(sp) && IsI16(pv) ==>
      var q := RunAll(p, events);
      Step(q, sp, pv) == IdealStep(q, sp, pv) && q.outMin <= Step(q, sp, pv).1 <= q.outMax
  {
    if events != [] {
      var e, q := events[|events| - 1], RunAll(p, events[..|events| - 1]);
      RunStaysValid(p, events[..|events| - 1]);
      assert Admissible(e);
      if e.Sample? { StepIsIdeal(q, e.sp, e.pv); }
    }
    var q := RunAll(p, events);
    forall sp, pv | IsI16(sp) && IsI16(pv)
      ensures Step(q, sp, pv) == IdealStep(q, sp, pv) && q.outMin <= Step(q, sp, pv).1 <= q.outMax
    {
      StepIsIdeal(q, sp, pv);
    }
  }

  /** The error the next sample's derivative starts from, read off the inputs. */
  function LastError(p: PidState, events: seq<Event>): int {
    if events == [] then p.prevError
    else
      match events[|events| - 1]
      case Sample(sp, pv) => if p.hasD then sp - pv else p.prevError
      case Clear => 0
      case _ => LastError(p, events[..|events| - 1])
  }

  /** The derivative gain in force, read off the inputs. */
  function LastKd(p: PidState, events: seq<Event>): int {
    if events == [] then p.kd
    else if events[|events| - 1].Gains? then events[|events| - 1].kd
    else LastKd(p, events[..|events| - 1])
  }

  /** Sample i of the inputs meets the condition; no controller state is consulted. */
  predicate InputFits(p: PidState, events: seq<Event>, i: nat)
    requires i < |events|
  {
    p.hasD && events[i].Sample? ==>
      DerivativeFits(LastKd(p, events[..i]), LastError(p, events[..i]), events[i].sp, events[i].pv)
  }

  ghost predicate SampleFits(p: PidState, events: seq<Event>, i: nat)
    requires i < |events|
  {
    events[i].Sample? ==> NoOverflow(RunAll(p, events[..i]), events[i].sp, events[i].pv)
  }

  function IdealAfter(p: PidState, e: Event): PidState {
    if e.Sample? then IdealState(p, e.sp, e.pv) else After(p, e)
  }

  function IdealRun(p: PidState, events: seq<Event>): PidState {
    if events == [] then p else IdealAfter(IdealRun(p, events[..|events| - 1]), events[|events| - 1])
  }

  lemma {:induction false} OnErrorTracks(p: PidState, events: seq<Event>)
    requires ValidOnError(p) && forall i :: 0 <= i < |events| ==> Admissible(events[i])
    ensures var q := RunAll(p, events);
      ValidOnError(q) && q.hasD == p.hasD && q.kd == LastKd(p, events)
      && (p.hasD ==> q.prevError == LastError(p, events))
  {
    if events != [] {
      var e, q := events[|events| - 1], RunAll(p, events[..|events| - 1]);
      OnErrorTracks(p, events[..|events| - 1]);
      assert Admissible(e);
      if e.Sample? { OnErrorExact(q, e.sp, e.pv); }
    }
  }

  /** A run with derivative on error overflows nowhere if and only if every sample's
      own derivative product fits, a condition on the inputs alone; and such a run is
      the exact one. */
  lemma {:induction false} OnErrorRunExact(p: PidState, events: seq<Event>)
    requires ValidOnError(p) && forall i :: 0 <= i < |events| ==> Admissible(events[i])
    ensures (forall i :: 0 <= i < |events| ==> SampleFits(p, events, i))
       <==> (forall i :: 0 <= i < |events| ==> InputFits(p, events, i))
    ensures (forall i :: 0 <= i < |events| ==> InputFits(p, events, i)) ==> RunAll(p, events) == IdealRun(p, events)
  {
    forall i | 0 <= i < |events| ensures SampleFits(p, events, i) <==> InputFits(p, events, i) {
      SampleExact(p, events, i);
    }
    if events != [] && forall i :: 0 <= i < |events| ==> InputFits(p, events, i) {
      var n := |events| - 1;
      var init := events[..n];
      forall i | 0 <= i < n ensures InputFits(p, init, i) {
        assert init[..i] == events[..i] && InputFits(p, events, i);
      }
      OnErrorRunExact(p, init);
      assert Admissible(events[n]) && SampleFits(p, events, n);
      OnErrorTracks(p, init);
      if events[n].Sample? {
        OnErrorExact(RunAll(p, init), events[n].sp, events[n].pv);
      }
    }
  }

  lemma SampleExact(p: PidState, events: seq<Event>, i: nat)
    requires ValidOnError(p) && i < |events| && forall j :: 0 <= j < |events| ==> Admissible(events[j])
    ensures SampleFits(p, events, i) <==> InputFits(p, events, i)
  {
    OnErrorTracks(p, events[..i]);
    if events[i].Sample? {
      assert Admissible(events[i]);
      OnErrorExact(RunAll(p, events[..i]), events[i].sp, events[i].pv);
    }
  }

  /** Two legal samples after construction are enough: the setpoint and the measurement
      swap ends, the derivative product wraps, and the output is at the wrong limit. */
  lemma OnErrorOverflows(p: PidState, events: seq<Event>)
    requires p == NewAutoAntiWindup(true, true, 0, 0, 0x7FFF, OnError, -1, 1)
    requires events == [Sample(-0x8000, 0x7FFF)]
    ensures ValidOnError(p) && Admissible(events[0])
    ensures var q := RunAll(p, events);
      && !DerivativeFits(q.kd, q.prevError, 0x7FFF, -0x8000)
      && Step(q, 0x7FFF, -0x8000).1 == -1 && IdealStep(q, 0x7FFF, -0x8000).1 == 1
  {
    assert events[..|events| - 1] == [] && RunAll(p, []) == p;
    FirstSwing(p);
    SecondSwing(RunAll(p, events));
  }

  lemma FirstSwing(p: PidState)
    requires p == NewAutoAntiWindup(true, true, 0, 0, 0x7FFF, OnError, -1, 1)
    ensures ValidOnError(p) && Step(p, -0x8000, 0x7FFF).0 == p.(prevError := -0xFFFF)
  {
  }

  lemma SecondSwing(q: PidState)
    requires q == NewAutoAntiWindup(true, true, 0, 0, 0x7FFF, OnError, -1, 1).(prevError := -0xFFFF)
    ensures Step(q, 0x7FFF, -0x8000).1 == -1 && IdealStep(q, 0x7FFF, -0x8000).1 == 1
  {
    assert Wrap32(0x7FFF * 0x1FFFE) == 0x7FFF * 0x1FFFE - 0x1_0000_0000;
    assert Derivative(q, 0xFFFF, -0x8000) == -768;
  }

  /** Whatever wraps, the clamps hold: the output never leaves its limits. */
  lemma OutputAlwaysClamped(p: PidState, sp: int, pv: int)
    requires p.outMin <= p.outMax && p.integMin <= p.integMax
    ensures p.outMin <= Step(p, sp, pv).1 <= p.outMax
    ensures p.hasI ==> p.integMin <= Step(p, sp, pv).0.integ <= p.integMax
  {
  }

  // ---------------------------------------------------------------------
  // Anti-windup
  // ---------------------------------------------------------------------

  function Samples(p: PidState, inputs: seq<(int, int)>): PidState
    decreases |inputs|
  {
    if inputs == [] then p else Samples(StepState(p, inputs[0].0, inputs[0].1), inputs[1..])
  }

  lemma IntegratorFalls(p: PidState, sp: int, pv: int, e: nat)
    requires Valid(p) && p.hasI && p.ki > 0 && sp - pv + e <= 0
    ensures IdealInteg(p, sp - pv) <= Max(p.integMin, p.integ - p.ki * e)
  {
    MulMonotone(p.ki, sp - pv, 0 - e);
    assert p.ki * (0 - e) == 0 - p.ki * e;
  }

  /** A controller that is being unwound at `rate`. */
  ghost predicate Unwinding(p: PidState, e: nat, rate: nat) {
    Valid(p) && p.hasI && p.ki > 0 && rate == Times(e, p.ki)
  }

  ghost predicate Below(input: (int, int), e: nat) {
    IsI16(input.0) && IsI16(input.1) && input.0 - input.1 + e <= 0
  }

  lemma SampleFalls(p: PidState, input: (int, int), e: nat, rate: nat, q: PidState)
    requires Unwinding(p, e, rate) && Below(input, e) && q == StepState(p, input.0, input.1)
    ensures Unwinding(q, e, rate) && q.integMin == p.integMin && q.integMax == p.integMax
    ensures q.integ <= Max(p.integMin, p.integ - rate)
  {
    GainFits(p.ki, input.0 - input.1);
    StateIsIdeal(p, input.0, input.1);
    IntegratorFalls(p, input.0, input.1, e);
    TimesIsProduct(e, p.ki);
  }

  lemma {:induction false} WindupUnwinds(p: PidState, inputs: seq<(int, int)>, e: nat, rate: nat)
    requires Unwinding(p, e, rate) && forall i :: 0 <= i < |inputs| ==> Below(inputs[i], e)
    ensures var q := Samples(p, inputs);
      && q.integ <= Max(p.integMin, p.integ - Times(|inputs|, rate))
      && Unwinding(q, e, rate) && q.integMin == p.integMin
      && (Times(|inputs|, rate) >= p.integ - p.integMin ==> q.integ == p.integMin)
    decreases |inputs|
  {
    if inputs != [] {
      var q := StepState(p, inputs[0].0, inputs[0].1);
      SampleFalls(p, inputs[0], e, rate, q);
      WindupUnwinds(q, inputs[1..], e, rate);
      var r := Samples(q, inputs[1..]);
      assert Samples(p, inputs) == r && Times(|inputs|, rate) == rate + Times(|inputs| - 1, rate);
      MaxChain(p.integMin, p.integ, q.integ, r.integ, rate, Times(|inputs| - 1, rate));
    }
  }

  lemma MaxChain(lo: int, a: int, b: int, c: int, x: nat, y: nat)
    requires b <= Max(lo, a - x) && c <= Max(lo, b - y)
    ensures c <= Max(lo, a - (x + y))
  {
  }

  /** However long the integrator sat at its upper clamp, an error of at most -e
      brings it to the lower clamp within ceil((max - min) / (ki e)) samples, in either
      derivative mode. */
  lemma SaturationRecovers(p: PidState, inputs: seq<(int, int)>, e: nat)
    requires Valid(p) && p.hasI && p.ki > 0 && e > 0
    requires forall i :: 0 <= i < |inputs| ==> Below(inputs[i], e)
    requires |inputs| * (p.ki * e) >= p.integMax - p.integMin
    ensures Samples(p, inputs).integ == p.integMin
  {
    TimesIsProduct(e, p.ki);
    TimesIsProduct(|inputs|, p.ki * e);
    FallsToClamp(p, inputs, e, p.ki * e);
  }

  lemma FallsToClamp(p: PidState, inputs: seq<(int, int)>, e: nat, rate: nat)
    requires Unwinding(p, e, rate) && forall i :: 0 <= i < |inputs| ==> Below(inputs[i], e)
    requires Times(|inputs|, rate) >= p.integMax - p.integMin
    ensures Samples(p, inputs).integ == p.integMin
  {
    assert p.integ <= p.integMax;
    WindupUnwinds(p, inputs, e, rate);
  }
}
