/** The thermal estimate of firmware-old/open-servo-math/src/thermal.rs: Joule heating
from averaged current, Newton cooling, Q16.16 centidegrees. */
module Thermal {
  import opened Basics
  import opened FixedPoint

  const Q16: int := 0x1_0000
  const MIN_CDEG: int := -4000
  const MAX_CDEG: int := 20000
  const MAX_DT: int := 1_000_000
  const U64_MAX: int := 0xFFFF_FFFF_FFFF_FFFF
  const U16_MAX: int := 0xFFFF
  const I64_MAX: int := 0x7FFF_FFFF_FFFF_FFFF

  /** resistance in milliohm, thermal resistance in centi-°C/W, capacity in centi-J/°C. */
  datatype Params = Params(ohm: int, rth: int, cth: int)
  datatype Estimate = Estimate(temp: int, ambient: int, sum: int, samples: int)

  ghost predicate ValidParams(p: Params) { IsI16(p.ohm) && IsI16(p.rth) && IsI16(p.cth) }

  /** A slow update divides by the thermal resistance. */
  ghost predicate Conductive(p: Params) { ValidParams(p) && p.rth != 0 }

  ghost predicate ValidEstimate(e: Estimate) {
    IsI32(e.temp) && IsI16(e.ambient) && 0 <= e.sum <= 0xFFFF_FFFF_FFFF_FFFF && 0 <= e.samples <= 0xFFFF
  }

  function Wrap64(x: int): int { Wrap(x, I64_MAX + 1) }

  /** The whole centidegrees of a Q16 temperature: an arithmetic shift. */
  function Cdeg(temp: int): int { temp / Q16 }

  function Fast(e: Estimate, current: Option<int>): Estimate {
    match current
    case None => e
    case Some(i) => e.(sum := Min(e.sum + i * i, U64_MAX), samples := Min(e.samples + 1, U16_MAX))
  }

  /** The mean of i² since the last slow update, cast to u32. */
  function MeanSquare(e: Estimate): int
    requires e.samples >= 0
  {
    if e.samples > 0 then (e.sum / e.samples) % 0x1_0000_0000 else 0
  }

  /** Heat lost to ambient, milliwatts. */
  function Cooling(p: Params, temp: int, ambient: int): int
    requires p.rth != 0
  {
    TruncDiv(Clamp(Cdeg(temp) - ambient, I16_MIN, I16_MAX) * 1000, p.rth)
  }

  /** The Q16 change of one slow update at `net` milliwatts. */
  function Change(p: Params, net: int, dt: int): int {
    Clamp(TruncDiv(Wrap64(net * Min(dt, MAX_DT) * Q16), Max(p.cth, 1) * 1000), I32_MIN, I32_MAX)
  }

  /** Heating less cooling, milliwatts. */
  function NetPower(p: Params, e: Estimate, ambient: int): int
    requires p.rth != 0 && e.samples >= 0
  {
    TruncDiv(MeanSquare(e) * p.ohm, 1_000_000) - Cooling(p, e.temp, ambient)
  }

  function Slow(p: Params, e: Estimate, ambient: int, dt: int): Estimate
    requires p.rth != 0 && e.samples >= 0
  {
    var change := Change(p, NetPower(p, e, ambient), dt);
    Estimate(Clamp(Sat32(e.temp + change), MIN_CDEG * Q16, MAX_CDEG * Q16), ambient, 0, 0)
  }

  class ThermalModel {
    const params: Params
    var temp: int
    var ambient: int
    var sum: int
    var samples: int

    ghost function Value(): Estimate reads this { Estimate(temp, ambient, sum, samples) }
    ghost predicate Valid() reads this { ValidParams(params) && ValidEstimate(Value()) }

    constructor (params: Params)
      requires ValidParams(params)
      ensures Valid() && this.params == params && Value() == Estimate(2500 * 0x1_0000, 2500, 0, 0)
    {
      this.params := params;
      temp, ambient, sum, samples := 2500 * Q16, 2500, 0, 0;
    }

    method UpdateFast(current: Option<int>)
      requires Valid() && (current.Some? ==> IsI16(current.value))
      modifies this
      ensures Valid() && Value() == Fast(old(Value()), current)
      ensures current.Some? ==>
        && sum == Min(old(sum) + current.value * current.value, 0xFFFF_FFFF_FFFF_FFFF)
        && samples == Min(old(samples) + 1, 0xFFFF)
    {
      if current.Some? {
        var square := current.value * current.value;
        assert square >= 0;
        sum := Min(sum + square, U64_MAX);
        samples := Min(samples + 1, U16_MAX);
      }
    }

    method UpdateSlow(ambientNow: int, dt: int) returns (cdeg: int)
      requires Valid() && params.rth != 0 && IsI16(ambientNow) && 0 <= dt <= 0xFFFF_FFFF
      modifies this
      ensures Valid() && Value() == Slow(params, old(Value()), ambientNow, dt)
      ensures cdeg == Cdeg(temp) && -4000 <= cdeg <= 20000
    {
      ambient := ambientNow;
      var mean := 0;
      if samples > 0 {
        mean := (sum / samples) % 0x1_0000_0000;
      }
      sum, samples := 0, 0;
      var power := TruncDiv(mean * params.ohm, 1_000_000);
      var delta := Clamp(Cdeg(temp) - ambientNow, I16_MIN, I16_MAX);
      var out := TruncDiv(delta * 1000, params.rth);
      var net := power - out;
      var num := Wrap64(net * Min(dt, MAX_DT) * Q16);
      var denom := Max(params.cth, 1) * 1000;
      var change := Clamp(TruncDiv(num, denom), I32_MIN, I32_MAX);
      temp := Sat32(temp + change);
      temp := Clamp(temp, MIN_CDEG * Q16, MAX_CDEG * Q16);
      cdeg := Cdeg(temp);
    }

    method Init(ambientNow: int)
      requires Valid() && IsI16(ambientNow)
      modifies this
      ensures Valid() && Value() == Estimate(ambientNow * 0x1_0000, ambientNow, 0, 0)
    {
      ambient := ambientNow;
      temp := ambientNow * Q16;
      sum, samples := 0, 0;
    }
  }

  // ---------------------------------------------------------------------
  // Relaxation without current
  // ---------------------------------------------------------------------

  /** Physical parameters, and a step no longer than the time constant R·C. */
  ghost predicate Stable(p: Params, dt: int) {
    Conductive(p) && p.rth > 0 && p.cth > 0 && 0 <= dt && Min(dt, 1_000_000) <= p.rth * p.cth
  }

  /** How far one idle update moves the estimate when it is `gap` centidegrees off. */
  function Drift(p: Params, gap: nat, dt: nat): (x: int)
    requires p.rth > 0 && p.cth > 0
  {
    (gap * 1000 / p.rth * Min(dt, MAX_DT) * Q16) / (p.cth * 1000)
  }

  lemma HeatFits(out: int, step: int)
    requires 0 <= out <= 70_000_000 && 0 <= step <= MAX_DT
    ensures 0 <= out * step * Q16 <= I64_MAX
  {
    Scale(out, 70_000_000, step);
    Scale(step, MAX_DT, 70_000_000);
    Scale(0, out, step);
  }

  /** The drift never exceeds the gap. */
  lemma DriftBounded(p: Params, gap: nat, dt: nat)
    requires Stable(p, dt) && gap <= I16_MAX + 1
    ensures 0 <= Drift(p, gap, dt) <= gap * Q16
    ensures gap * 1000 / p.rth * Min(dt, MAX_DT) * Q16 <= I64_MAX
  {
    var out, step := gap * 1000 / p.rth, Min(dt, MAX_DT);
    QuotientIsLargest(gap * 1000, p.rth, 0);
    QuotientIsLargest(gap * 1000, p.rth, out);
    Scale(1, p.rth, out);
    HeatFits(out, step);
    var heat := out * step * Q16;
    QuotientIsLargest(heat, p.cth * 1000, 0);
    HeatIsLess(p, gap, out, step);
    QuotientIsLargest(heat, p.cth * 1000, gap * Q16 + 1);
  }

  lemma HeatIsLess(p: Params, gap: nat, out: nat, step: nat)
    requires p.rth > 0 && p.cth > 0 && step <= p.rth * p.cth && out * p.rth <= gap * 1000
    ensures out * step * Q16 < (gap * Q16 + 1) * (p.cth * 1000)
  {
    var r, c := p.rth, p.cth;
    Scale(step, r * c, out);
    assert out * (r * c) == (out * r) * c;
    Scale(out * r, gap * 1000, c);
    assert out * step <= gap * 1000 * c;
    assert (gap * Q16 + 1) * (c * 1000) == gap * 1000 * c * Q16 + c * 1000;
  }

  /** An idle update moves the estimate by its drift, toward ambient. */
  lemma SlowIsDrift(p: Params, e: Estimate, ambient: int, dt: nat)
    requires Stable(p, dt) && ValidEstimate(e) && e.sum == 0 && IsI16(ambient)
    ensures var delta := Clamp(Cdeg(e.temp) - ambient, I16_MIN, I16_MAX);
      var moved := if delta >= 0 then e.temp - Drift(p, delta, dt) else e.temp + Min(Drift(p, -delta, dt), I32_MAX);
      Slow(p, e, ambient, dt).temp == Clamp(moved, MIN_CDEG * Q16, MAX_CDEG * Q16)
  {
    var delta := Clamp(Cdeg(e.temp) - ambient, I16_MIN, I16_MAX);
    var gap: nat := if delta >= 0 then delta else -delta;
    assert MeanSquare(e) == 0 && TruncDiv(0 * p.ohm, 1_000_000) == 0;
    DriftBounded(p, gap, dt);
    ChangeIsDrift(p, gap, dt);
    CoolingIsGap(p, e.temp, ambient);
  }

  lemma CoolingIsGap(p: Params, temp: int, ambient: int)
    requires p.rth > 0
    ensures var delta := Clamp(Cdeg(temp) - ambient, I16_MIN, I16_MAX);
      Cooling(p, temp, ambient) == if delta >= 0 then delta * 1000 / p.rth else -(-delta * 1000 / p.rth)
  {
    var delta := Clamp(Cdeg(temp) - ambient, I16_MIN, I16_MAX);
    assert -(delta * 1000) == -delta * 1000;
  }

  lemma ChangeIsDrift(p: Params, gap: nat, dt: nat)
    requires Stable(p, dt) && gap <= I16_MAX + 1
    ensures Change(p, -(gap * 1000 / p.rth), dt) == -Drift(p, gap, dt)
    ensures Change(p, gap * 1000 / p.rth, dt) == Min(Drift(p, gap, dt), I32_MAX)
  {
    DriftBounded(p, gap, dt);
    QuotientIsLargest(gap * 1000, p.rth, 0);
    var out := gap * 1000 / p.rth;
    Scale(0, out, Min(dt, MAX_DT));
    ChangeBothWays(p, out, dt, out * Min(dt, MAX_DT) * Q16, Drift(p, gap, dt));
  }

  lemma Negated(out: int, step: int)
    ensures -out * step * Q16 == -(out * step * Q16)
  {
  }

  /** Equal powers heat and cool by the same amount, short of saturation. */
  lemma ChangeBothWays(p: Params, out: int, dt: nat, heat: int, x: int)
    requires p.cth > 0 && heat == out * Min(dt, MAX_DT) * Q16 && 0 <= heat <= I64_MAX
    requires x == heat / (p.cth * 1000) && 0 <= x <= I32_MAX + 1
    ensures Change(p, -out, dt) == -x && Change(p, out, dt) == Min(x, I32_MAX)
  {
    Negated(out, Min(dt, MAX_DT));
    ChangeUnwrapped(p, out, dt, heat);
    ChangeUnwrapped(p, -out, dt, -heat);
    if heat == 0 {
      QuotientIsLargest(0, p.cth * 1000, 1);
    }
  }

  lemma ChangeUnwrapped(p: Params, net: int, dt: nat, heat: int)
    requires p.cth > 0 && heat == net * Min(dt, MAX_DT) * Q16 && -I64_MAX <= heat <= I64_MAX
    ensures Change(p, net, dt) == Clamp(TruncDiv(heat, p.cth * 1000), I32_MIN, I32_MAX)
  {
    WrapSmall(heat);
  }

  lemma WrapSmall(x: int)
    requires -I64_MAX <= x <= I64_MAX
    ensures Wrap64(x) == x
  {
  }

  /** From `was` to `now` without leaving the side of `goal` it is on. */
  predicate Toward(was: int, now: int, goal: int) {
    (goal <= was ==> goal <= now <= was) && (was <= goal ==> was <= now <= goal)
  }

  lemma RelaxStep(p: Params, e: Estimate, ambient: int, dt: nat)
    requires Stable(p, dt) && ValidEstimate(e) && e.sum == 0 && -4000 <= ambient <= 20000
    ensures Toward(Cdeg(e.temp), Cdeg(Slow(p, e, ambient, dt).temp), ambient)
  {
    var delta := Clamp(Cdeg(e.temp) - ambient, I16_MIN, I16_MAX);
    SlowIsDrift(p, e, ambient, dt);
    DriftBounded(p, if delta >= 0 then delta else -delta, dt);
  }

  // ---------------------------------------------------------------------
  // Whole runs
  // ---------------------------------------------------------------------

  datatype Event = Sample(current: Option<int>) | Tick(ambient: int, dt: int)

  function After(p: Params, e: Estimate, event: Event): Estimate
    requires p.rth != 0 && e.samples >= 0
  {
    match event
    case Sample(current) => Fast(e, current)
    case Tick(ambient, dt) => Slow(p, e, ambient, dt)
  }

  ghost predicate Legal(event: Event) {
    match event
    case Sample(current) => current.Some? ==> IsI16(current.value)
    case Tick(ambient, dt) => IsI16(ambient) && 0 <= dt <= 0xFFFF_FFFF
  }

  lemma AfterValid(p: Params, e: Estimate, event: Event)
    requires Conductive(p) && ValidEstimate(e) && Legal(event)
    ensures ValidEstimate(After(p, e, event))
  {
    if event.Sample? && event.current.Some? {
      Square(event.current.value);
    }
  }

  lemma Square(i: int)
    ensures i * i >= 0
    ensures IsI16(i) ==> i * i <= 0x4000_0000
  {
    var a := if i >= 0 then i else -i;
    assert i * i == a * a;
    Scale(0, a, a);
    if IsI16(i) {
      Scale(a, 0x8000, a);
    }
  }

  ghost function Run(p: Params, e: Estimate, events: seq<Event>): (r: Estimate)
    requires Conductive(p) && ValidEstimate(e) && forall i :: 0 <= i < |events| ==> Legal(events[i])
    ensures ValidEstimate(r)
    decreases |events|
  {
    if events == [] then e
    else
      AfterValid(p, e, events[0]);
      Run(p, After(p, e, events[0]), events[1..])
  }

  ghost predicate InRange(e: Estimate) { -4000 <= Cdeg(e.temp) <= 20000 }

  /** Under any current and any parameters the estimate is in range from the first
      slow update on. */
  lemma {:induction false} RunInRange(p: Params, e: Estimate, events: seq<Event>)
    requires Conductive(p) && ValidEstimate(e) && forall i :: 0 <= i < |events| ==> Legal(events[i])
    requires InRange(e) || exists i :: 0 <= i < |events| && events[i].Tick?
    ensures InRange(Run(p, e, events))
    decreases |events|
  {
    if events != [] {
      AfterValid(p, e, events[0]);
      var next := After(p, e, events[0]);
      if events[0].Sample? && !InRange(e) {
        var i :| 0 <= i < |events| && events[i].Tick?;
        assert events[1..][i - 1].Tick?;
      }
      RunInRange(p, next, events[1..]);
    }
  }

  /** No current, a fixed ambient, and steps within the time constant. */
  ghost predicate Idle(p: Params, ambient: int, event: Event) {
    match event
    case Sample(current) => current.Some? ==> current.value == 0
    case Tick(a, dt) => a == ambient && Stable(p, dt) && dt <= 0xFFFF_FFFF
  }

  /** However slow updates and empty samples interleave, an idle motor's reported
      temperature only moves toward ambient and never crosses it. */
  lemma {:induction false} RelaxRun(p: Params, e: Estimate, ambient: int, events: seq<Event>)
    requires Conductive(p) && ValidEstimate(e) && e.sum == 0 && -4000 <= ambient <= 20000
    requires forall i :: 0 <= i < |events| ==> Legal(events[i]) && Idle(p, ambient, events[i])
    ensures Toward(Cdeg(e.temp), Cdeg(Run(p, e, events).temp), ambient)
    decreases |events|
  {
    if events != [] {
      var next := After(p, e, events[0]);
      AfterValid(p, e, events[0]);
      if events[0].Tick? {
        RelaxStep(p, e, ambient, events[0].dt);
      }
      RelaxRun(p, next, ambient, events[1..]);
      TowardTransitive(Cdeg(e.temp), Cdeg(next.temp), Cdeg(Run(p, next, events[1..]).temp), ambient);
    }
  }

  lemma TowardTransitive(a: int, b: int, c: int, goal: int)
    requires Toward(a, b, goal) && Toward(b, c, goal)
    ensures Toward(a, c, goal)
  {
  }

  /** The time-constant bound is needed: a longer step from a gap of R centidegrees
      lands below ambient. */
  lemma CoarseStepCrosses(p: Params, ambient: int, dt: nat)
    requires Conductive(p) && p.rth > 0 && p.cth > 0 && p.rth * p.cth < Min(dt, 1_000_000)
    requires -4000 < ambient && ambient + p.rth <= 20000
    ensures Cdeg(Slow(p, Estimate((ambient + p.rth) * Q16, ambient, 0, 0), ambient, dt).temp) < ambient
  {
    var e := Estimate((ambient + p.rth) * Q16, ambient, 0, 0);
    CoolingOfR(p, ambient);
    assert MeanSquare(e) * p.ohm == 0 && TruncDiv(0, 1_000_000) == 0;
    CoarseChange(p, dt);
    assert Slow(p, e, ambient, dt).temp < ambient * Q16;
  }

  /** A gap of R centidegrees loses one watt. */
  lemma CoolingOfR(p: Params, ambient: int)
    requires IsI16(p.rth) && p.rth > 0
    ensures Cooling(p, (ambient + p.rth) * Q16, ambient) == 1000
  {
    assert Cdeg((ambient + p.rth) * Q16) == ambient + p.rth;
    QuotientIsLargest(p.rth * 1000, p.rth, 1000);
    QuotientIsLargest(p.rth * 1000, p.rth, 1001);
  }

  lemma CoarseChange(p: Params, dt: nat)
    requires Conductive(p) && p.rth > 0 && p.cth > 0 && p.rth * p.cth < Min(dt, 1_000_000)
    ensures Change(p, -1000, dt) < -(p.rth * Q16)
  {
    var r, c, heat := p.rth, p.cth, 1000 * Min(dt, MAX_DT) * Q16;
    ChangeUnwrapped(p, -1000, dt, -heat);
    Scale(r * c + 1, Min(dt, MAX_DT), 1000 * Q16);
    assert (r * Q16 + 1) * (c * 1000) == r * c * (1000 * Q16) + c * 1000;
    QuotientIsLargest(heat, c * 1000, r * Q16 + 1);
  }

  // ---------------------------------------------------------------------
  // Settling
  // ---------------------------------------------------------------------

  /** n idle updates. */
  function Ticks(p: Params, e: Estimate, ambient: int, dt: nat, n: nat): Estimate
    requires p.rth != 0 && e.samples >= 0
    decreases n
  {
    if n == 0 then e else Ticks(p, Slow(p, e, ambient, dt), ambient, dt, n - 1)
  }

  function Gap(e: Estimate, ambient: int): nat {
    if Cdeg(e.temp) >= ambient then Cdeg(e.temp) - ambient else ambient - Cdeg(e.temp)
  }

  /** Q16 counts the estimate may still travel. */
  function Travel(e: Estimate, ambient: int): nat {
    if e.temp >= ambient * Q16 then e.temp - ambient * Q16 else ambient * Q16 + Q16 - 1 - e.temp
  }

  /** The update is stuck: rounding swallows the whole drift. */
  predicate Stalled(p: Params, gap: nat, dt: nat)
    requires p.rth > 0
  {
    gap * 1000 / p.rth * Min(dt, MAX_DT) * Q16 < p.cth * 1000
  }

  /** An idle update either changes nothing, exactly when it is stalled, or uses up
      some of the travel. */
  lemma TickMoves(p: Params, e: Estimate, ambient: int, dt: nat)
    requires Stable(p, dt) && ValidEstimate(e) && InRange(e) && e.sum == 0 && -4000 <= ambient <= 20000
    requires e.temp <= MAX_CDEG * Q16
    ensures var next := Slow(p, e, ambient, dt);
      if Stalled(p, Gap(e, ambient), dt) then next.temp == e.temp else Travel(next, ambient) < Travel(e, ambient)
  {
    var gap := Gap(e, ambient);
    SlowIsDrift(p, e, ambient, dt);
    DriftBounded(p, gap, dt);
    QuotientIsLargest(gap * 1000 / p.rth * Min(dt, MAX_DT) * Q16, p.cth * 1000, 1);
    RelaxStep(p, e, ambient, dt);
    assert gap == 0 ==> Drift(p, gap, dt) == 0;
  }

  /** Every idle run settles: after as many updates as there are Q16 counts to travel
      the estimate is stalled, and a stalled estimate never moves again. */
  lemma {:induction false} TicksSettle(p: Params, e: Estimate, ambient: int, dt: nat, n: nat)
    requires Stable(p, dt) && ValidEstimate(e) && InRange(e) && e.sum == 0 && -4000 <= ambient <= 20000
    requires e.temp <= MAX_CDEG * Q16 && Travel(e, ambient) <= n
    ensures Stalled(p, Gap(Ticks(p, e, ambient, dt, n), ambient), dt)
    decreases n
  {
    TickMoves(p, e, ambient, dt);
    if n == 0 {
      assert Gap(e, ambient) == 0;
    } else if Stalled(p, Gap(e, ambient), dt) {
      StalledStays(p, e, ambient, dt, n);
    } else {
      TicksSettle(p, Slow(p, e, ambient, dt), ambient, dt, n - 1);
    }
  }

  lemma {:induction false} StalledStays(p: Params, e: Estimate, ambient: int, dt: nat, n: nat)
    requires Stable(p, dt) && ValidEstimate(e) && InRange(e) && e.sum == 0 && -4000 <= ambient <= 20000
    requires e.temp <= MAX_CDEG * Q16 && Stalled(p, Gap(e, ambient), dt)
    ensures Ticks(p, e, ambient, dt, n).temp == e.temp
    decreases n
  {
    if n > 0 {
      TickMoves(p, e, ambient, dt);
      StalledStays(p, Slow(p, e, ambient, dt), ambient, dt, n - 1);
    }
  }

  // ---------------------------------------------------------------------
  // Heating
  // ---------------------------------------------------------------------

  function Squares(currents: seq<int>): int {
    if currents == [] then 0 else currents[0] * currents[0] + Squares(currents[1..])
  }

  function Sampled(e: Estimate, currents: seq<int>): Estimate
    decreases |currents|
  {
    if currents == [] then e else Sampled(Fast(e, Some(currents[0])), currents[1..])
  }

  /** Up to 65535 samples accumulate without saturating or truncating. */
  lemma {:induction false} MeanIsExact(e: Estimate, currents: seq<int>)
    requires forall i :: 0 <= i < |currents| ==> IsI16(currents[i])
    requires 0 <= e.samples && e.samples + |currents| <= 65535 && 0 <= e.sum <= e.samples * 0x4000_0000
    ensures var r := Sampled(e, currents);
      && r.sum == e.sum + Squares(currents) && r.samples == e.samples + |currents|
      && r.sum <= r.samples * 0x4000_0000
      && (r.samples > 0 ==> MeanSquare(r) == r.sum / r.samples <= 0x4000_0000)
    decreases |currents|
  {
    if currents == [] {
      if e.samples > 0 {
        QuotientIsLargest(e.sum, e.samples, 0x4000_0001);
        QuotientIsLargest(e.sum, e.samples, 0);
      }
    } else {
      Square(currents[0]);
      MeanIsExact(Fast(e, Some(currents[0])), currents[1..]);
    }
  }

  /** With an untruncated mean no product of the slow update leaves i64. */
  lemma HeatNeverWraps(p: Params, mean: int, temp: int, ambient: int, dt: nat)
    requires Conductive(p) && 0 <= mean <= 0x4000_0000
    ensures var net := TruncDiv(mean * p.ohm, 1_000_000) - Cooling(p, temp, ambient);
      IsI32(net) && Wrap64(net * Min(dt, MAX_DT) * Q16) == net * Min(dt, MAX_DT) * Q16
  {
    PowerBounded(mean, p.ohm);
    CoolingBounded(Clamp(Cdeg(temp) - ambient, I16_MIN, I16_MAX), p.rth);
    NetFits(TruncDiv(mean * p.ohm, 1_000_000) - Cooling(p, temp, ambient), Min(dt, MAX_DT));
  }

  lemma NetFits(net: int, step: nat)
    requires -70_000_000 <= net <= 70_000_000 && step <= MAX_DT
    ensures Wrap64(net * step * Q16) == net * step * Q16
  {
    HeatFits(if net >= 0 then net else -net, step);
    assert net < 0 ==> -(-net * step * Q16) == net * step * Q16;
    WrapSmall(net * step * Q16);
  }

  lemma PowerBounded(mean: int, ohm: int)
    requires 0 <= mean <= 0x4000_0000 && IsI16(ohm)
    ensures -35_184_373 <= TruncDiv(mean * ohm, 1_000_000) <= 35_184_373
  {
    Scale(ohm, 0x8000, mean);
    Scale(-0x8000, ohm, mean);
  }

  /** The numerator of a slow update, on unbounded integers. */
  function Heat(net: int, dt: nat): int { net * Min(dt, MAX_DT) * Q16 }

  /** Any mean the u32 cast can give keeps the net power in i32, and its heat within one
      turn of i64. */
  lemma NetBounded(p: Params, e: Estimate, ambient: int, dt: nat)
    requires Conductive(p) && ValidEstimate(e)
    ensures var net := NetPower(p, e, ambient);
      -174_000_000 <= net <= 174_000_000 && -12_000_000_000_000_000_000 <= Heat(net, dt) <= 12_000_000_000_000_000_000
    ensures p.ohm >= 0 ==> -I64_MAX <= Heat(NetPower(p, e, ambient), dt)
  {
    var mean := MeanSquare(e);
    Scale(p.ohm, 0x8000, mean);
    Scale(-0x8000, p.ohm, mean);
    CoolingBounded(Clamp(Cdeg(e.temp) - ambient, I16_MIN, I16_MAX), p.rth);
    if p.ohm >= 0 {
      Scale(0, mean, p.ohm);
    }
    HeatBounded(NetPower(p, e, ambient), Min(dt, MAX_DT));
  }

  lemma HeatBounded(net: int, step: nat)
    requires -174_000_000 <= net <= 174_000_000 && step <= MAX_DT
    ensures -12_000_000_000_000_000_000 <= net * step * Q16 <= 12_000_000_000_000_000_000
    ensures -70_000_000 <= net ==> -I64_MAX <= net * step * Q16
  {
    Scale(net, 174_000_000, step);
    Scale(-174_000_000, net, step);
    if -70_000_000 <= net {
      Scale(-70_000_000, net, step);
    }
  }

  /** Heat that leaves i64 turns round and saturates the other way. */
  lemma OverheatSaturates(p: Params, net: int, dt: nat)
    requires IsI16(p.cth) && -12_000_000_000_000_000_000 <= Heat(net, dt) <= 12_000_000_000_000_000_000
    ensures Heat(net, dt) > I64_MAX ==> Change(p, net, dt) == I32_MIN
    ensures Heat(net, dt) < -I64_MAX - 1 ==> Change(p, net, dt) == I32_MAX
  {
    var heat, span, n := Heat(net, dt), 2 * (I64_MAX + 1), Max(p.cth, 1) * 1000;
    if heat > I64_MAX {
      assert Wrap64(heat) == heat - span;
      QuotientIsLargest(span - heat, n, 0x1_0000_0000);
    } else if heat < -I64_MAX - 1 {
      assert Wrap64(heat) == heat + span;
      QuotientIsLargest(heat + span, n, 0x1_0000_0000);
    }
  }

  /** From the same temperature a larger mean square reads at least as hot, if and only if
      its heat fits an i64: if it does not, the reading is the coldest there is. */
  lemma MoreCurrentIsHotter(p: Params, e: Estimate, f: Estimate, ambient: int, dt: nat)
    requires Conductive(p) && p.ohm >= 0 && ValidEstimate(e) && ValidEstimate(f) && e.temp == f.temp
    requires MeanSquare(e) <= MeanSquare(f)
    ensures var x, y := Slow(p, e, ambient, dt).temp, Slow(p, f, ambient, dt).temp;
      if Heat(NetPower(p, f, ambient), dt) <= 0x7FFF_FFFF_FFFF_FFFF then x <= y else y <= x
  {
    var a, b := NetPower(p, e, ambient), NetPower(p, f, ambient);
    Scale(MeanSquare(e), MeanSquare(f), p.ohm);
    PowerGrows(MeanSquare(e) * p.ohm, MeanSquare(f) * p.ohm, 1_000_000);
    NetBounded(p, e, ambient, dt);
    NetBounded(p, f, ambient, dt);
    if Heat(b, dt) <= I64_MAX {
      Scale(a, b, Min(dt, MAX_DT));
      WrapSmall(Heat(a, dt));
      WrapSmall(Heat(b, dt));
      ChangeGrows(p, a, b, dt);
    } else {
      OverheatSaturates(p, b, dt);
    }
  }

  lemma PowerGrows(x: int, y: int, n: int)
    requires x <= y && n > 0
    ensures TruncDiv(x, n) <= TruncDiv(y, n)
  {
    if x >= 0 {
      QuotientIsLargest(y, n, x / n);
      QuotientIsLargest(x, n, x / n);
    } else if y < 0 {
      QuotientIsLargest(-x, n, -y / n);
      QuotientIsLargest(-y, n, -y / n);
    } else {
      QuotientIsLargest(-x, n, 0);
      QuotientIsLargest(y, n, 0);
    }
  }

  lemma ChangeGrows(p: Params, a: int, b: int, dt: nat)
    requires a <= b
    requires var step := Min(dt, MAX_DT);
      Wrap64(a * step * Q16) == a * step * Q16 && Wrap64(b * step * Q16) == b * step * Q16
    ensures Change(p, a, dt) <= Change(p, b, dt)
  {
    var step := Min(dt, MAX_DT);
    Scale(a, b, step);
    PowerGrows(a * step * Q16, b * step * Q16, Max(p.cth, 1) * 1000);
  }

  /** The estimate never falls under net heating nor rises under net cooling, unless the
      heat leaves i64: then it jumps to the far end of its range. */
  lemma HeatBalance(p: Params, e: Estimate, ambient: int, dt: nat)
    requires Conductive(p) && ValidEstimate(e) && MIN_CDEG * Q16 <= e.temp <= MAX_CDEG * Q16
    ensures var net := NetPower(p, e, ambient);
      var heat, now := Heat(net, dt), Slow(p, e, ambient, dt).temp;
      if heat > 0x7FFF_FFFF_FFFF_FFFF then now == -4000 * 0x1_0000
      else if heat < -0x8000_0000_0000_0000 then now == 20000 * 0x1_0000
      else (net >= 0 ==> now >= e.temp) && (net <= 0 ==> now <= e.temp)
  {
    var net := NetPower(p, e, ambient);
    NetBounded(p, e, ambient, dt);
    OverheatSaturates(p, net, dt);
    if -I64_MAX - 1 <= Heat(net, dt) <= I64_MAX {
      assert Change(p, 0, dt) == 0 by { WrapSmall(0); }
      if net >= 0 { ChangeGrows(p, 0, net, dt); } else { ChangeGrows(p, net, 0, dt); }
    }
  }

  lemma CoolingBounded(delta: int, rth: int)
    requires IsI16(delta) && rth != 0
    ensures -32_768_000 <= TruncDiv(delta * 1000, rth) <= 32_768_000
  {
    var a, n := if delta >= 0 then delta * 1000 else -(delta * 1000), if rth > 0 then rth else -rth;
    var q := a / n;
    QuotientIsLargest(a, n, 0);
    QuotientIsLargest(a, n, q);
    Scale(1, n, q);
  }
}
