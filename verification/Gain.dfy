/** The gain text format of firmware-old/open-servo-math/src/gain.rs: an i32 scaled by
100, two printers, one parser and the Q8.8 conversion. */
module Gain {
  import opened FixedPoint

  datatype GainError = Empty | Invalid | Overflow
  datatype Parsed = Ok(raw: int) | Err(error: GainError)

  predicate IsDigit(c: char) { '0' <= c <= '9' }

  function DigitOf(c: char): nat
    requires IsDigit(c)
  {
    c as int - '0' as int
  }

  function DigitChar(d: nat): (c: char)
    requires d < 10
    ensures IsDigit(c) && DigitOf(c) == d
  {
    ('0' as int + d) as char
  }

  // ---------------------------------------------------------------------
  // What a text means
  // ---------------------------------------------------------------------

  predicate AllDigits(s: string) { forall i :: 0 <= i < |s| ==> IsDigit(s[i]) }

  /** The number a digit string writes. */
  function Number(s: string): nat
    requires AllDigits(s)
  {
    if s == [] then 0 else 10 * Number(s[..|s| - 1]) + DigitOf(s[|s| - 1])
  }

  predicate Signed(text: string) { text != [] && (text[0] == '-' || text[0] == '+') }
  function Unsigned(text: string): string { if Signed(text) then text[1..] else text }

  predicate HasDot(s: string) { s != [] && (s[|s| - 1] == '.' || HasDot(s[..|s| - 1])) }

  /** What comes before the first dot, and what comes after it. */
  function Whole(s: string): string {
    if s == [] then []
    else if HasDot(s) then Whole(s[..|s| - 1])
    else s
  }

  function Fraction(s: string): string {
    if s == [] || !HasDot(s[..|s| - 1]) then [] else Fraction(s[..|s| - 1]) + [s[|s| - 1]]
  }

  /** Two decimals: the third and later are cut, missing ones are zeros. */
  function Hundredths(f: string): nat
    requires AllDigits(f)
  {
    if |f| == 0 then 0 else if |f| == 1 then 10 * Number(f) else Number(f[..2])
  }

  predicate WellFormed(text: string) {
    var s := Unsigned(text);
    s != [] && AllDigits(Whole(s)) && AllDigits(Fraction(s))
  }

  function Magnitude(text: string): nat
    requires WellFormed(text)
  {
    100 * Number(Whole(Unsigned(text))) + Hundredths(Fraction(Unsigned(text)))
  }

  function Value(text: string): int
    requires WellFormed(text)
  {
    var m: int := Magnitude(text);
    if text[0] == '-' then -m else m
  }

  // ---------------------------------------------------------------------
  // The parser
  // ---------------------------------------------------------------------

  datatype Scan = Running(whole: int, frac: int, digits: nat, dot: bool) | Failed(error: GainError)

  function Feed(scan: Scan, c: char): Scan {
    if scan.Failed? then scan
    else if c == '.' then
      if scan.dot then Failed(Invalid) else scan.(dot := true)
    else if !IsDigit(c) then Failed(Invalid)
    else if !scan.dot then
      if scan.whole * 10 + DigitOf(c) > I32_MAX then Failed(Overflow) else scan.(whole := scan.whole * 10 + DigitOf(c))
    else if scan.digits < 2 then
      if scan.frac * 10 + DigitOf(c) > I32_MAX then Failed(Overflow)
      else scan.(frac := scan.frac * 10 + DigitOf(c), digits := scan.digits + 1)
    else scan
  }

  function Scanned(s: string): Scan {
    if s == [] then Running(0, 0, 0, false) else Feed(Scanned(s[..|s| - 1]), s[|s| - 1])
  }

  function Padded(frac: int, digits: nat): int
    decreases 2 - digits
  {
    if digits < 2 then Padded(frac * 10, digits + 1) else frac
  }

  function Parse(text: string): Parsed {
    if text == [] then Err(Empty)
    else if Unsigned(text) == [] then Err(Invalid)
    else
      match Scanned(Unsigned(text))
      case Failed(e) => Err(e)
      case Running(whole, frac, digits, _) =>
        var scaled := whole * 100 + Padded(frac, digits);
        if scaled > I32_MAX then Err(Overflow) else Ok(if text[0] == '-' then -scaled else scaled)
  }

  /** The scanning loop of `parse_gain_2dp`, over the text without its sign. */
  method ScanDecimal(s: string) returns (r: Scan)
    ensures r == Scanned(s)
  {
    var whole, frac, digits, dot := 0, 0, 0, false;
    for i := 0 to |s|
      invariant 0 <= digits <= 2
      invariant Scanned(s[..i]) == Running(whole, frac, digits, dot)
    {
      var c := s[i];
      ScanStep(s, i);
      ghost var next := Feed(Running(whole, frac, digits, dot), c);
      if c == '.' {
        if dot {
          return Failed(Invalid);
        }
        dot := true;
      } else if !IsDigit(c) {
        return Failed(Invalid);
      } else if !dot {
        if whole * 10 + DigitOf(c) > I32_MAX {
          return Failed(Overflow);
        }
        whole := whole * 10 + DigitOf(c);
      } else if digits < 2 {
        if frac * 10 + DigitOf(c) > I32_MAX {
          return Failed(Overflow);
        }
        frac, digits := frac * 10 + DigitOf(c), digits + 1;
      }
      assert next == Running(whole, frac, digits, dot);
    }
    assert s[..|s|] == s;
    return Running(whole, frac, digits, dot);
  }

  /** `parse_gain_2dp`. */
  method ParseGain2dp(input: string) returns (r: Parsed)
    ensures r == Parse(input)
  {
    if input == [] {
      return Err(Empty);
    }
    var sign, text := 1, input;
    if input[0] == '-' || input[0] == '+' {
      sign, text := if input[0] == '-' then -1 else 1, input[1..];
      if text == [] {
        return Err(Invalid);
      }
    }
    var scan := ScanDecimal(text);
    if scan.Failed? {
      return Err(scan.error);
    }
    var frac := scan.frac;
    var digits: int := scan.digits;
    while digits < 2
      invariant 0 <= digits && Padded(frac, digits) == Padded(scan.frac, scan.digits)
      decreases 2 - digits
    {
      frac, digits := frac * 10, digits + 1;
    }
    var scaled := scan.whole * 100 + frac;
    if scaled > I32_MAX {
      return Err(Overflow);
    }
    return Ok(sign * scaled);
  }

  /** The first error wins. */
  lemma {:induction false} ScanFails(s: string, k: nat)
    requires k <= |s|
    ensures Scanned(s[..k]).Failed? ==> Scanned(s) == Scanned(s[..k])
    decreases |s|
  {
    if k == |s| {
      assert s[..k] == s;
    } else {
      var init := s[..|s| - 1];
      ScanFails(init, k);
      assert init[..k] == s[..k];
    }
  }

  /** One more character, and the end of the scan if it is a bad one. */
  lemma ScanStep(s: string, k: nat)
    requires k < |s|
    ensures var next := Feed(Scanned(s[..k]), s[k]);
      Scanned(s[..k + 1]) == next && (next.Failed? ==> Scanned(s) == next)
  {
    assert s[..k + 1][..k] == s[..k] && s[..k + 1][k] == s[k];
    ScanFails(s, k + 1);
  }

  // ---------------------------------------------------------------------
  // The parser accepts exactly the decimals that fit
  // ---------------------------------------------------------------------

  function Kept(f: string): nat { if |f| < 2 then |f| else 2 }

  lemma DigitsAppend(s: string, c: char)
    ensures AllDigits(s + [c]) <==> AllDigits(s) && IsDigit(c)
    ensures AllDigits(s + [c]) ==> Number(s + [c]) == 10 * Number(s) + DigitOf(c)
  {
    assert (s + [c])[..|s|] == s && (s + [c])[|s|] == c;
    if AllDigits(s + [c]) {
      forall i | 0 <= i < |s| ensures IsDigit(s[i]) { assert (s + [c])[i] == s[i]; }
    }
  }

  /** The scan of a text with whole part w, fraction f and, or not, a dot. */
  ghost predicate Means(scan: Scan, w: string, f: string, dot: bool) {
    if AllDigits(w) && AllDigits(f) && Number(w) <= I32_MAX then
      scan == Running(Number(w), Number(f[..Kept(f)]), Kept(f), dot)
    else scan.Failed?
  }

  lemma {:induction false} ScanMeans(s: string)
    ensures Means(Scanned(s), Whole(s), Fraction(s), HasDot(s))
  {
    if s != [] {
      var init, c := s[..|s| - 1], s[|s| - 1];
      assert s == init + [c];
      ScanMeans(init);
      if HasDot(init) {
        FractionGrows(init, c);
        FractionFeeds(Scanned(init), Whole(init), Fraction(init), c);
      } else {
        NoDot(init);
        WholeFeeds(Scanned(init), init, c);
        if c != '.' {
          NoDot(s);
        }
      }
    }
  }

  lemma WholeFeeds(scan: Scan, w: string, c: char)
    requires Means(scan, w, [], false)
    ensures if c == '.' then Means(Feed(scan, c), w, [], true) else Means(Feed(scan, c), w + [c], [], false)
  {
    DigitsAppend(w, c);
  }

  lemma NoDot(s: string)
    requires !HasDot(s)
    ensures Whole(s) == s && Fraction(s) == []
  {
  }

  lemma FractionGrows(init: string, c: char)
    requires HasDot(init)
    ensures var s := init + [c];
      HasDot(s) && Whole(s) == Whole(init) && Fraction(s) == Fraction(init) + [c]
  {
    var s := init + [c];
    assert s[..|s| - 1] == init && s[|s| - 1] == c;
  }

  lemma FractionFeeds(scan: Scan, w: string, f: string, c: char)
    requires Means(scan, w, f, true)
    ensures Means(Feed(scan, c), w, f + [c], true)
  {
    DigitsAppend(f, c);
    if AllDigits(f) && IsDigit(c) {
      KeptAppend(f, c);
    }
  }

  /** The digits kept of a fraction grow with its first two characters. */
  lemma KeptAppend(f: string, c: char)
    requires AllDigits(f) && IsDigit(c)
    ensures AllDigits(f + [c])
    ensures |f| >= 2 ==> (f + [c])[..Kept(f + [c])] == f[..Kept(f)] && Kept(f + [c]) == Kept(f) == 2
    ensures |f| < 2 ==> Kept(f + [c]) == Kept(f) + 1
    ensures |f| < 2 ==> Number((f + [c])[..Kept(f + [c])]) == 10 * Number(f[..Kept(f)]) + DigitOf(c) <= 99
  {
    DigitsAppend(f, c);
    if |f| >= 2 {
      assert (f + [c])[..2] == f[..2];
    } else {
      assert f[..|f|] == f && (f + [c])[..|f| + 1] == f + [c];
      if |f| == 1 {
        OneDigit(f);
      }
    }
  }

  lemma OneDigit(f: string)
    requires AllDigits(f) && |f| == 1
    ensures Number(f) == DigitOf(f[0]) <= 9
  {
    assert f[..0] == [];
  }

  /** A text is accepted if and only if it is a decimal whose hundredths fit an i32,
      and then the result is its value cut to two decimals. */
  lemma ParseMeans(text: string)
    ensures Parse(text).Ok? <==> WellFormed(text) && Magnitude(text) <= I32_MAX
    ensures Parse(text).Ok? ==> Parse(text).raw == Value(text)
    ensures WellFormed(text) && Magnitude(text) > I32_MAX ==> Parse(text) == Err(Overflow)
  {
    var s := Unsigned(text);
    ScanMeans(s);
    if WellFormed(text) {
      var f := Fraction(s);
      assert f[..Kept(f)] == f || |f| > 2;
      WholeFits(s);
      PaddedHundredths(f);
    }
  }

  lemma PaddedHundredths(f: string)
    requires AllDigits(f)
    ensures Padded(Number(f[..Kept(f)]), Kept(f)) == Hundredths(f)
  {
    if |f| < 2 {
      assert f[..|f|] == f;
    }
  }

  /** A whole part that overflows alone overflows the scan with that error. */
  lemma {:induction false} WholeFits(s: string)
    requires AllDigits(Whole(s)) && AllDigits(Fraction(s))
    ensures Scanned(s).Failed? ==> Scanned(s).error == Overflow
  {
    if s != [] {
      var init, c := s[..|s| - 1], s[|s| - 1];
      assert s == init + [c];
      ScanMeans(init);
      if !HasDot(init) {
        NoDot(init);
        if c != '.' {
          NoDot(s);
          DigitsAppend(init, c);
        }
        WholeFits(init);
      } else {
        DigitsAppend(Fraction(init), c);
        WholeFits(init);
      }
    }
  }

  // ---------------------------------------------------------------------
  // The printers
  // ---------------------------------------------------------------------

  function Show(n: nat): (s: string)
    ensures s != [] && AllDigits(s) && Number(s) == n
  {
    if n < 10 then
      DigitsAppend([], DigitChar(n));
      assert [] + [DigitChar(n)] == [DigitChar(n)];
      [DigitChar(n)]
    else
      DigitsAppend(Show(n / 10), DigitChar(n % 10));
      Show(n / 10) + [DigitChar(n % 10)]
  }

  function ShowInt(x: int): string { if x < 0 then "-" + Show(-x) else Show(x) }

  /** `{:02}`. */
  function ShowPadded(x: int): string { if 0 <= x < 10 then "0" + Show(x) else ShowInt(x) }

  function Sign(raw: int): string { if raw < 0 then "-" else "" }

  function Display(raw: int): string {
    var scaled := Abs32(raw);
    var whole := TruncDiv(scaled, 100);
    Sign(raw) + (ShowInt(whole) + "." + ShowPadded(scaled - 100 * whole))
  }

  function UDisplay(raw: int): string {
    var scaled := Abs32(raw);
    var whole := TruncDiv(scaled, 100);
    var frac := scaled - 100 * whole;
    Sign(raw) + (if frac < 10 then ShowInt(whole) + ".0" + ShowInt(frac) else ShowInt(whole) + "." + ShowInt(frac))
  }

  /** Both printers write the same text for every gain but the least. */
  lemma PrintersAgree(raw: int)
    requires IsI32(raw)
    ensures Display(raw) == UDisplay(raw) <==> raw > I32_MIN
  {
    var scaled := Abs32(raw);
    var whole := TruncDiv(scaled, 100);
    var frac := scaled - 100 * whole;
    if raw == I32_MIN {
      assert scaled == I32_MIN && frac == -48;
      assert |UDisplay(raw)| == |Display(raw)| + 1;
    } else if frac < 10 {
      assert ".0" == "." + "0";
      assert ShowInt(whole) + ".0" + Show(frac) == ShowInt(whole) + "." + ("0" + Show(frac));
    }
  }

  lemma {:induction false} SplitAtDot(ip: string, fp: string)
    requires AllDigits(ip)
    ensures var s := ip + "." + fp; HasDot(s) && Whole(s) == ip && Fraction(s) == fp
    decreases |fp|
  {
    var s := ip + "." + fp;
    if fp == [] {
      assert s[..|s| - 1] == ip && s[|s| - 1] == '.';
      DigitsHaveNoDot(ip);
      NoDot(ip);
    } else {
      var init := fp[..|fp| - 1];
      SplitAtDot(ip, init);
      assert s[..|s| - 1] == ip + "." + init && s[|s| - 1] == fp[|fp| - 1];
      assert fp == init + [fp[|fp| - 1]];
    }
  }

  lemma {:induction false} DigitsHaveNoDot(s: string)
    requires AllDigits(s)
    ensures !HasDot(s)
  {
    if s != [] {
      DigitsHaveNoDot(s[..|s| - 1]);
    }
  }

  lemma PaddedPair(x: int)
    requires 0 <= x < 100
    ensures var f := ShowPadded(x); |f| == 2 && AllDigits(f) && Number(f) == x
  {
    if x < 10 {
      assert Show(x) == [DigitChar(x)];
      DigitsAppend("0", DigitChar(x));
      DigitsAppend("", '0');
      assert "" + ['0'] == "0";
      assert "0" + Show(x) == "0" + [DigitChar(x)];
    } else {
      assert Show(x / 10) == [DigitChar(x / 10)];
      assert Show(x) == [DigitChar(x / 10)] + [DigitChar(x % 10)];
    }
  }

  /** The decimal text of a scaled magnitude. */
  lemma DecimalMeans(n: nat)
    ensures var s := Show(n / 100) + "." + ShowPadded(n % 100);
      && s != [] && !Signed(s) && HasDot(s)
      && AllDigits(Whole(s)) && AllDigits(Fraction(s))
      && 100 * Number(Whole(s)) + Hundredths(Fraction(s)) == n
  {
    var ip, fp := Show(n / 100), ShowPadded(n % 100);
    SplitAtDot(ip, fp);
    PaddedPair(n % 100);
    assert fp[..2] == fp;
    assert (ip + "." + fp)[0] == ip[0];
  }

  lemma PrintedMeans(text: string, raw: int, s: string, n: nat)
    requires n == (if raw < 0 then -raw else raw) && s == Show(n / 100) + "." + ShowPadded(n % 100)
    requires text == Sign(raw) + s
    ensures WellFormed(text) && Magnitude(text) == n && Value(text) == raw
  {
    DecimalMeans(n);
    assert Unsigned(text) == s;
    assert raw >= 0 ==> text[0] == s[0];
  }

  /** A second sign is refused. */
  lemma DoubleSign(text: string)
    requires |text| > 1 && text[0] == '-' && text[1] == '-'
    ensures Parse(text) == Err(Invalid)
  {
    var s := Unsigned(text);
    assert s[..1] == ['-'] && ['-'][..0] == [];
    assert Scanned(s[..1]) == Feed(Scanned([]), '-');
    ScanFails(s, 1);
  }

  /** Parsing a printed gain gives it back, for every gain but the least. */
  lemma RoundTrip(raw: int)
    requires IsI32(raw)
    ensures Parse(Display(raw)) == Ok(raw) <==> raw > I32_MIN
  {
    if raw == I32_MIN {
      LeastHasTwoSigns(raw);
      DoubleSign(Display(raw));
    } else {
      DisplayIsDecimal(raw);
      var n: nat := Abs32(raw);
      PrintedMeans(Display(raw), raw, Show(n / 100) + "." + ShowPadded(n % 100), n);
      ParseMeans(Display(raw));
    }
  }

  lemma LeastHasTwoSigns(raw: int)
    requires raw == I32_MIN
    ensures var text := Display(raw); |text| > 1 && text[0] == '-' && text[1] == '-'
  {
    var whole := TruncDiv(Abs32(raw), 100);
    assert Abs32(raw) == I32_MIN && whole < 0;
    assert ShowInt(whole)[0] == '-';
  }

  lemma DisplayIsDecimal(raw: int)
    requires I32_MIN < raw <= I32_MAX
    ensures var n := Abs32(raw);
      n == (if raw < 0 then -raw else raw) && Display(raw) == Sign(raw) + (Show(n / 100) + "." + ShowPadded(n % 100))
  {
    var n := Abs32(raw);
    assert TruncDiv(n, 100) == n / 100 && n - 100 * (n / 100) == n % 100;
  }

  // ---------------------------------------------------------------------
  // Q8.8
  // ---------------------------------------------------------------------

  /** `to_q8_8`: the clamp before the product keeps it within i32. */
  function ToQ88(raw: int): int {
    Clamp(TruncDiv(Wrap32(Clamp(raw, -838860, 838860) * 256), 100), I16_MIN, I16_MAX)
  }

  /** The early clamp loses nothing: the result is the exact conversion, saturated. */
  lemma ToQ88IsExact(raw: int)
    ensures ToQ88(raw) == Clamp(TruncDiv(raw * 256, 100), I16_MIN, I16_MAX)
  {
    var clamped := Clamp(raw, -838860, 838860);
    assert Wrap32(clamped * 256) == clamped * 256;
  }
}
