/** The machine arithmetic of firmware-old/open-servo-math: wrapping, saturating,
shifting, clamping and truncating, each written out. */
module FixedPoint {

  const I16_MIN: int := -0x8000
  const I16_MAX: int := 0x7FFF
  const I32_MIN: int := -0x8000_0000
  const I32_SPAN: int := 0x1_0000_0000
  const I32_MAX: int := 0x7FFF_FFFF

  predicate IsI16(x: int) { I16_MIN <= x <= I16_MAX }
  predicate IsI32(x: int) { I32_MIN <= x <= I32_MAX }

  predicate Fits(x: int, half: int) { -half <= x < half }

  /** Two's complement wrap-around into [-half, half). */
  function Wrap(x: int, half: int): (r: int)
    requires half > 0
    ensures Fits(r, half) && (Fits(x, half) ==> r == x)
    decreases if Fits(x, half) then 0 else if x < 0 then -x else x
  {
    if x >= half then Wrap(x - 2 * half, half) else if x < -half then Wrap(x + 2 * half, half) else x
  }

  function Wrap16(x: int): (r: int)
    ensures IsI16(r) && (IsI16(x) ==> r == x)
  {
    Wrap(x, 0x8000)
  }

  function Wrap32(x: int): (r: int)
    ensures IsI32(r) && (IsI32(x) ==> r == x)
  {
    Wrap(x, 0x8000_0000)
  }

  /** Saturating, where the source asks for it. */
  function Sat32(x: int): int {
    if x < I32_MIN then I32_MIN else if x > I32_MAX then I32_MAX else x
  }

  /** i32 `abs`, which wraps at i32::MIN. */
  function Abs32(x: int): int { if x < 0 then Wrap32(-x) else x }

  /** Arithmetic shift right by the 8 fraction bits. */
  function Shr8(x: int): int { x / 256 }

  function Clamp(x: int, lo: int, hi: int): int {
    if x > hi then hi else if x < lo then lo else x
  }

  /** Division that rounds toward zero. */
  function TruncDiv(x: int, n: int): int
    requires n != 0
    decreases n < 0
  {
    if n < 0 then -TruncDiv(x, -n) else if x >= 0 then x / n else -(-x / n)
  }

  lemma Scale(x: int, y: int, n: int)
    requires x <= y && n >= 0
    ensures x * n <= y * n
  {
    assert (y - x) * n >= 0;
  }

  /** `a / n` is the largest integer whose n-fold is at most a. */
  lemma QuotientIsLargest(a: int, n: int, x: int)
    requires n > 0
    ensures x <= a / n <==> x * n <= a
  {
    var q := a / n;
    assert a == q * n + a % n;
    if x <= q {
      Scale(x, q, n);
    } else {
      Scale(q + 1, x, n);
    }
  }

  lemma OneMore(j: int, span: int)
    ensures (j + 1) * span == j * span + span && (j - 1) * span == j * span - span
  {
  }

  /** n * k by addition. */
  ghost function Times(n: nat, k: nat): nat {
    if n == 0 then 0 else k + Times(n - 1, k)
  }

  lemma {:induction false} TimesIsProduct(n: nat, k: nat)
    ensures Times(n, k) == n * k
  {
    if n > 0 {
      TimesIsProduct(n - 1, k);
      assert n * k == k + (n - 1) * k;
    }
  }

  /** Wrapping moves by whole spans. */
  lemma {:induction false} WrapTurns(x: int, half: int) returns (k: int)
    requires half > 0
    ensures x == Wrap(x, half) + k * (2 * half)
    decreases if Fits(x, half) then 0 else if x < 0 then -x else x
  {
    k := 0;
    if x >= half {
      var j := WrapTurns(x - 2 * half, half);
      OneMore(j, 2 * half);
      k := j + 1;
    } else if x < -half {
      var j := WrapTurns(x + 2 * half, half);
      OneMore(j, 2 * half);
      k := j - 1;
    }
  }
}
