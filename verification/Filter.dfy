/** The signed low-pass filters of firmware-old/open-servo-math/src/filter.rs.

`FilterI16` and `FilterI32` run the same code at two widths, so one class models
both.  State arithmetic wraps at the width of the state. */
module Filter {
  import opened Basics
  import opened Bits
  import opened FixedPoint

  /** Samples lie in [-sample, sample) and states, of `bits` bits, in [-state, state);
      `maxShift` is the widest shift that leaves room for the difference of two shifted
      samples. */
  datatype Width = Width(sample: int, state: int, bits: nat, maxShift: nat)
  const I16 := Width(0x8000, 0x8000_0000, 32, 15)
  const I32 := Width(0x8000_0000, 0x8000_0000_0000_0000, 64, 31)

  predicate IsWidth(w: Width) { w == I16 || w == I32 }

  /** The release build takes a shift modulo the width. */
  function Masked(shift: nat, bits: nat): (r: nat)
    requires bits > 0
    ensures r < bits && (shift < bits ==> r == shift)
  {
    if shift < bits then shift else Masked(shift - bits, bits)
  }

  /** What `x << shift` and `x >> shift` scale by. */
  function Unit(w: Width, shift: nat): nat
    requires IsWidth(w)
  {
    Pow2(Masked(shift, w.bits))
  }

  /** `1 << shift`, which is negative when it reaches the sign bit. */
  function Divisor(w: Width, shift: nat): (d: int)
    requires IsWidth(w)
    ensures d != 0 && (shift <= w.maxShift ==> Unit(w, shift) == d == Pow2(shift))
  {
    UnitFits(w, shift);
    Wrap(Unit(w, shift), w.state)
  }

  /** The state and output after one sample. */
  function Update(w: Width, shift: nat, state: Option<int>, sample: int): (int, int)
    requires IsWidth(w)
  {
    var u := Unit(w, shift);
    var shifted := Wrap(sample * u, w.state);
    match state
    case None => (shifted, sample)
    case Some(s) =>
      var delta := TruncDiv(Wrap(shifted - s, w.state), Divisor(w, shift));
      var next := Wrap(s + delta, w.state);
      (next, Wrap(next / u, w.sample))
  }

  class LowPass {
    const w: Width
    const shift: nat
    var state: Option<int>

    ghost predicate Valid() reads this { IsWidth(w) }

    constructor (w: Width, shift: nat)
      requires IsWidth(w)
      ensures Valid() && this.w == w && this.shift == shift && state == None
    {
      this.w, this.shift, state := w, shift, None;
    }

    method Sample(sample: int) returns (out: int)
      requires Valid() && Fits(sample, w.sample)
      modifies this`state
      ensures (state, out) == var (s, y) := Update(w, shift, old(state), sample); (Some(s), y)
    {
      var unit := Unit(w, shift);
      if state.None? {
        state := Some(Wrap(sample * unit, w.state));
        out := sample;
      } else {
        var shifted := Wrap(sample * unit, w.state);
        var diff := Wrap(shifted - state.value, w.state);
        var next := Wrap(state.value + TruncDiv(diff, Divisor(w, shift)), w.state);
        state := Some(next);
        out := Wrap(next / unit, w.sample);
      }
    }

    method Reset()
      modifies this`state
      ensures state == None
    {
      state := None;
    }
  }

  // ---------------------------------------------------------------------
  // Without overflow
  // ---------------------------------------------------------------------

  /** One step of the filter on unbounded integers. */
  function Ideal(u: nat, s: int, sample: int): int
    requires u > 0
  {
    s + TruncDiv(sample * u - s, u)
  }

  /** The state lies in the hull of samples within lo..hi. */
  predicate InHull(u: nat, s: int, lo: int, hi: int) { lo * u <= s <= hi * u }

  lemma Pow2Byte(n: nat)
    ensures Pow2(n + 7) == 128 * Pow2(n) && Pow2(n + 8) == 256 * Pow2(n)
  {
    assert Pow2(n + 4) == 2 * Pow2(n + 3) == 4 * Pow2(n + 2) == 8 * Pow2(n + 1) == 16 * Pow2(n);
    assert Pow2(n + 7) == 2 * Pow2(n + 6) == 4 * Pow2(n + 5) == 8 * Pow2(n + 4);
  }

  lemma Pow2AtMax(w: Width)
    requires IsWidth(w)
    ensures Pow2(w.maxShift) == w.sample && Pow2(w.maxShift + 1) == 2 * w.sample
  {
    Pow2Byte(0);
    Pow2Byte(8);
    if w == I32 {
      Pow2Byte(16);
      Pow2Byte(24);
    }
  }

  /** The sign bit is bit `bits - 1`. */
  lemma SignBit(w: Width)
    requires IsWidth(w)
    ensures Pow2(w.bits - 1) == w.state
  {
    Pow2AtMax(I32);
    if w == I32 {
      Pow2Byte(32);
      Pow2Byte(40);
      Pow2Byte(48);
      Pow2Byte(56);
    }
  }

  lemma UnitFits(w: Width, shift: nat)
    requires IsWidth(w)
    ensures 0 < Unit(w, shift) <= w.state
    ensures shift <= w.maxShift ==> Unit(w, shift) == Pow2(shift) < w.state
  {
    SignBit(w);
    PowMonotone(Masked(shift, w.bits), w.bits - 1);
    if shift <= w.maxShift {
      Widths(w, shift);
    }
  }

  lemma Widths(w: Width, shift: nat)
    requires IsWidth(w) && shift <= w.maxShift
    ensures w.sample > 0 && Pow2(shift) <= w.sample && 2 * w.sample * Pow2(shift) <= w.state && Pow2(shift) < w.state
  {
    Pow2AtMax(w);
    PowMonotone(shift, w.maxShift);
    Scale(Pow2(shift), w.sample, 2 * w.sample);
  }

  /** The ideal step goes from the state toward the shifted sample and not past it. */
  lemma IdealBetween(u: nat, s: int, sample: int)
    requires u > 0
    ensures var t := sample * u; var next := Ideal(u, s, sample);
      (s <= t ==> s <= next <= t) && (t <= s ==> t <= next <= s)
  {
    var diff := sample * u - s;
    var a := if diff >= 0 then diff else -diff;
    QuotientIsLargest(a, u, 0);
    QuotientIsLargest(a, u, a / u);
    Scale(1, u, a / u);
  }

  lemma HullKept(u: nat, s: int, sample: int, lo: int, hi: int)
    requires u > 0 && lo <= sample <= hi && InHull(u, s, lo, hi)
    ensures InHull(u, Ideal(u, s, sample), lo, hi)
    ensures lo <= Ideal(u, s, sample) / u <= hi
  {
    var next := Ideal(u, s, sample);
    IdealBetween(u, s, sample);
    Scale(lo, sample, u);
    Scale(sample, hi, u);
    QuotientIsLargest(next, u, lo);
    QuotientIsLargest(next, u, hi + 1);
    assert (hi + 1) * u == hi * u + u;
  }

  /** Up to the maximal shift no step overflows: shift 15 for i16, 31 for i32. */
  lemma UpdateIsIdeal(w: Width, shift: nat, s: int, sample: int)
    requires IsWidth(w) && shift <= w.maxShift && Fits(sample, w.sample)
    requires InHull(Pow2(shift), s, -w.sample, w.sample - 1)
    ensures var u := Pow2(shift); var next := Ideal(u, s, sample);
      && Update(w, shift, Some(s), sample) == (next, next / u)
      && Update(w, shift, None, sample) == (sample * u, sample)
  {
    var u, half := Pow2(shift), w.sample;
    Widths(w, shift);
    HullKept(u, s, sample, -half, half - 1);
    HullFits(w, u, s);
    SampleInHull(u, sample, -half, half - 1);
    HullFits(w, u, sample * u);
    HullFits(w, u, Ideal(u, s, sample));
    UpdateUnwrapped(w, shift, s, sample);
  }

  lemma UpdateUnwrapped(w: Width, shift: nat, s: int, sample: int)
    requires IsWidth(w) && shift <= w.maxShift
    requires var u := Pow2(shift); var next := Ideal(u, s, sample);
      Fits(sample * u, w.state) && Fits(sample * u - s, w.state) && Fits(next, w.state) && Fits(next / u, w.sample)
    ensures var u := Pow2(shift); var next := Ideal(u, s, sample);
      Update(w, shift, Some(s), sample) == (next, next / u) && Update(w, shift, None, sample) == (sample * u, sample)
  {
    var u := Pow2(shift);
    assert Divisor(w, shift) == Unit(w, shift) == u;
    assert Wrap(sample * u, w.state) == sample * u;
    assert Wrap(sample * u - s, w.state) == sample * u - s;
  }

  lemma SampleInHull(u: nat, sample: int, lo: int, hi: int)
    requires lo <= sample <= hi
    ensures InHull(u, sample * u, lo, hi)
  {
    Scale(lo, sample, u);
    Scale(sample, hi, u);
  }

  lemma HullFits(w: Width, u: nat, s: int)
    requires u > 0 && 2 * w.sample * u <= w.state && InHull(u, s, -w.sample, w.sample - 1)
    ensures -w.state <= 2 * s < w.state
  {
    assert 2 * w.sample * u == 2 * (w.sample * u);
    assert -w.sample * u == -(w.sample * u) && (w.sample - 1) * u == w.sample * u - u;
  }

  /** One shift more and the difference of the extreme samples wraps: the least sample
      pushes the state of the greatest up instead of down. */
  lemma WiderShiftWraps(w: Width)
    requires IsWidth(w)
    ensures var top := (w.sample - 1) * (2 * w.sample);
      && Update(w, w.maxShift + 1, None, w.sample - 1).0 == top
      && Update(w, w.maxShift + 1, Some(top), -w.sample).0 == top + 1
  {
    var half, u := w.sample, 2 * w.sample;
    Pow2AtMax(w);
    assert Unit(w, w.maxShift + 1) == u;
    TopFits(w);
    WrapAround(u, w.state);
    assert TruncDiv(u, u) == 1;
    assert Wrap(-half * u - (half - 1) * u, w.state) == u;
  }

  lemma TopFits(w: Width)
    requires IsWidth(w)
    ensures var u := 2 * w.sample;
      0 < u < w.state && (w.sample - 1) * u == w.state - u && -w.sample * u == -w.state
  {
  }

  lemma WrapAround(x: int, half: int)
    requires 0 < x < half
    ensures Wrap(x - 2 * half, half) == x
  {
  }

  // ---------------------------------------------------------------------
  // Whole runs
  // ---------------------------------------------------------------------

  /** The outputs of a run and the state it ends in. */
  function Run(w: Width, shift: nat, state: Option<int>, samples: seq<int>): (seq<int>, Option<int>)
    requires IsWidth(w)
    decreases |samples|
  {
    if samples == [] then ([], state)
    else
      var (s, y) := Update(w, shift, state, samples[0]);
      var (out, last) := Run(w, shift, Some(s), samples[1..]);
      ([y] + out, last)
  }

  /** Since the last reset every output lies between any bounds of the samples, so
      between the least and the greatest. */
  lemma {:induction false} RunInHull(w: Width, shift: nat, state: Option<int>, samples: seq<int>, lo: int, hi: int)
    requires IsWidth(w) && shift <= w.maxShift && Fits(lo, w.sample) && Fits(hi, w.sample)
    requires state.Some? ==> InHull(Pow2(shift), state.value, lo, hi)
    requires forall i :: 0 <= i < |samples| ==> lo <= samples[i] <= hi
    ensures var (out, last) := Run(w, shift, state, samples);
      && |out| == |samples| && (forall i :: 0 <= i < |out| ==> lo <= out[i] <= hi)
      && (last.Some? ==> InHull(Pow2(shift), last.value, lo, hi))
    decreases |samples|
  {
    Widths(w, shift);
    if samples != [] {
      var u, x := Pow2(shift), samples[0];
      SampleInHull(u, x, lo, hi);
      var s := if state.None? then x * u else state.value;
      WiderHull(u, s, lo, hi, -w.sample, w.sample - 1);
      UpdateIsIdeal(w, shift, s, x);
      HullKept(u, s, x, lo, hi);
      RunInHull(w, shift, Some(Update(w, shift, state, x).0), samples[1..], lo, hi);
    }
  }

  lemma WiderHull(u: nat, s: int, lo: int, hi: int, lo': int, hi': int)
    requires InHull(u, s, lo, hi) && lo' <= lo && hi <= hi'
    ensures InHull(u, s, lo', hi')
  {
    Scale(lo', lo, u);
    Scale(hi, hi', u);
  }

  // ---------------------------------------------------------------------
  // Settling on a constant input
  // ---------------------------------------------------------------------

  function Distance(u: nat, s: int, sample: int): nat {
    if s >= sample * u then s - sample * u else sample * u - s
  }

  /** The distance strictly shrinks until it is under one count and then stays, with
      the sample as output from above, and the sample or one less from below. */
  lemma HoldStep(u: nat, s: int, sample: int)
    requires u > 0
    ensures var next := Ideal(u, s, sample);
      if Distance(u, s, sample) < u then
        && next == s
        && s / u == (if s >= sample * u then sample else sample - 1)
      else
        && Distance(u, next, sample) < Distance(u, s, sample)
        && (if s >= sample * u then next >= sample * u else next <= sample * u)
  {
    var d := Distance(u, s, sample);
    QuotientIsLargest(d, u, 1);
    IdealBetween(u, s, sample);
    QuotientIsLargest(s, u, sample);
    QuotientIsLargest(s, u, sample + 1);
    QuotientIsLargest(s, u, sample - 1);
    assert (sample + 1) * u == sample * u + u && (sample - 1) * u == sample * u - u;
    BelowStays(d, u);
  }

  /** From d counts away a step takes d / u of them, never all unless u is one. */
  lemma BelowStays(d: nat, u: nat)
    requires u > 0
    ensures 0 <= d / u <= d && (d < u ==> d / u == 0) && (d / u == d && d > 0 ==> u == 1)
  {
    QuotientIsLargest(d, u, 0);
    QuotientIsLargest(d, u, d / u);
    Scale(1, u, d / u);
    QuotientIsLargest(d, u, 1);
    if d / u == d && d > 0 && u >= 2 {
      Scale(2, u, d);
    }
  }

  function Hold(u: nat, s: int, sample: int, n: nat): int
    requires u > 0
    decreases n
  {
    if n == 0 then s else Hold(u, Ideal(u, s, sample), sample, n - 1)
  }

  /** A constant input settles the filter within as many samples as counts away. */
  lemma {:induction false} HoldSettles(u: nat, s: int, sample: int, n: nat)
    requires u > 0 && Distance(u, s, sample) <= n
    ensures var t := Hold(u, s, sample, n);
      && Distance(u, t, sample) < u && Ideal(u, t, sample) == t
      && (t / u == sample || t / u == sample - 1)
      && (s >= sample * u ==> t / u == sample)
    decreases n
  {
    HoldStep(u, s, sample);
    if n > 0 {
      var next := Ideal(u, s, sample);
      if Distance(u, s, sample) < u {
        HoldStays(u, s, sample, n);
      } else {
        HoldSettles(u, next, sample, n - 1);
      }
    }
  }

  lemma {:induction false} HoldStays(u: nat, s: int, sample: int, n: nat)
    requires u > 0 && Ideal(u, s, sample) == s
    ensures Hold(u, s, sample, n) == s
    decreases n
  {
    if n > 0 {
      HoldStays(u, s, sample, n - 1);
    }
  }

  /** What the code does with a constant input is `Hold`. */
  lemma {:induction false} RunIsHold(w: Width, shift: nat, s: int, samples: seq<int>, x: int)
    requires IsWidth(w) && shift <= w.maxShift && Fits(x, w.sample)
    requires InHull(Pow2(shift), s, -w.sample, w.sample - 1)
    requires forall i :: 0 <= i < |samples| ==> samples[i] == x
    ensures Run(w, shift, Some(s), samples).1 == Some(Hold(Pow2(shift), s, x, |samples|))
    decreases |samples|
  {
    Widths(w, shift);
    if samples != [] {
      UpdateIsIdeal(w, shift, s, x);
      HullKept(Pow2(shift), s, x, -w.sample, w.sample - 1);
      RunIsHold(w, shift, Ideal(Pow2(shift), s, x), samples[1..], x);
    }
  }

  /** The filter itself settles, whatever it was fed before. */
  lemma FilterSettles(w: Width, shift: nat, s: int, samples: seq<int>, x: int)
    requires IsWidth(w) && shift <= w.maxShift && Fits(x, w.sample)
    requires InHull(Pow2(shift), s, -w.sample, w.sample - 1)
    requires forall i :: 0 <= i < |samples| ==> samples[i] == x
    requires Distance(Pow2(shift), s, x) <= |samples|
    ensures var u, last := Pow2(shift), Run(w, shift, Some(s), samples).1;
      && last.Some? && Distance(u, last.value, x) < u
      && (last.value / u == x || last.value / u == x - 1)
      && (s >= x * u ==> last.value / u == x)
  {
    RunIsHold(w, shift, s, samples, x);
    HoldSettles(Pow2(shift), s, x, |samples|);
  }
}
