/**
 * The value formatter: how the decoder turns unsigned rationals into the
 * display strings it stores (exposure time, aperture, focal length). The
 * original computes with JavaScript doubles; here the arithmetic is exact.
 */
module Format {
  import opened Wrappers

  predicate IsDigit(c: char) { '0' <= c <= '9' }

  function DigitChar(d: nat): (c: char)
    requires d < 10
    ensures IsDigit(c)
  {
    ('0' as int + d) as char
  }

  function DigitValue(c: char): nat
    requires IsDigit(c)
  {
    c as int - '0' as int
  }

  /** The decimal numeral of n, as `${n}` prints an integer. */
  function NatToString(n: nat): (s: string)
    ensures |s| >= 1
    ensures forall k :: 0 <= k < |s| ==> IsDigit(s[k])
    ensures s[0] == '0' ==> n == 0
  {
    if n < 10 then [DigitChar(n)] else NatToString(n / 10) + [DigitChar(n % 10)]
  }

  /** The number a string of decimal digits denotes. */
  function DigitsValue(s: string): nat
    requires forall k :: 0 <= k < |s| ==> IsDigit(s[k])
  {
    if s == [] then 0 else 10 * DigitsValue(s[..|s| - 1]) + DigitValue(s[|s| - 1])
  }

  /** Reading back the numeral of n gives n. */
  lemma {:induction false} NatToStringRoundTrip(n: nat)
    ensures DigitsValue(NatToString(n)) == n
  {
    if n >= 10 {
      var s := NatToString(n);
      assert s[..|s| - 1] == NatToString(n / 10);
      NatToStringRoundTrip(n / 10);
    }
  }

  /** Two numbers print the same numeral only if they are equal. */
  lemma NatToStringInjective(m: nat, n: nat)
    requires NatToString(m) == NatToString(n)
    ensures m == n
  {
    NatToStringRoundTrip(m);
    NatToStringRoundTrip(n);
  }

  /**
   * Math.round(1 / (num / den)) for 0 < num: the integer nearest to den/num,
   * halves rounded up.
   */
  function RoundedReciprocal(num: nat, den: nat): (k: nat)
    requires num > 0
    ensures 2 * k * num <= 2 * den + num < 2 * (k + 1) * num
    ensures num <= den ==> k >= 1
  {
    var q := (2 * den + num) / (2 * num);
    DivBounds(2 * den + num, 2 * num);
    q
  }

  /** The defining inequalities of natural-number division. */
  lemma DivBounds(a: nat, b: nat)
    requires b > 0
    ensures a / b >= 0 && a % b < b
    ensures (a / b) * b <= a < (a / b + 1) * b
  {
  }

  /**
   * (num / den).toFixed(1): the nearest multiple of a tenth, halves rounded
   * up, written with one digit after the point. `tenths` is that multiple.
   */
  function Tenths(num: nat, den: nat): (t: nat)
    requires den > 0
    ensures 2 * t * den <= 20 * num + den < 2 * (t + 1) * den
  {
    DivBounds(20 * num + den, 2 * den);
    (20 * num + den) / (2 * den)
  }

  function Fixed1(num: nat, den: nat): (s: string)
    requires den > 0
  {
    var t := Tenths(num, den);
    NatToString(t / 10) + "." + [DigitChar(t % 10)]
  }

  /** A one-decimal rendering: digits, a point, one digit. */
  predicate OneDecimal(s: string) {
    && |s| >= 3 && s[|s| - 2] == '.' && IsDigit(s[|s| - 1])
    && forall k :: 0 <= k < |s| - 2 ==> IsDigit(s[k])
  }

  /** Reading back a one-decimal rendering: the number of tenths it shows. */
  function TenthsShown(s: string): nat
    requires OneDecimal(s)
  {
    10 * DigitsValue(s[..|s| - 2]) + DigitValue(s[|s| - 1])
  }

  /**
   * Fixed1 shows the tenths nearest to num/den: reading it back gives
   * Tenths, and the integer part has no leading zero.
   */
  lemma Fixed1RoundTrip(num: nat, den: nat)
    requires den > 0
    ensures var s := Fixed1(num, den);
            && OneDecimal(s) && TenthsShown(s) == Tenths(num, den)
            && (s[0] == '0' ==> |s| == 3)
  {
    var t := Tenths(num, den);
    var s := Fixed1(num, den);
    assert s[..|s| - 2] == NatToString(t / 10);
    NatToStringRoundTrip(t / 10);
  }

  /**
   * Up to `k` digits of the decimal expansion of r/den (r < den), stopping
   * early when the expansion terminates.
   */
  function FractionDigits(r: nat, den: nat, k: nat): (s: string)
    requires r < den
    ensures |s| <= k
    ensures forall i :: 0 <= i < |s| ==> IsDigit(s[i])
    decreases k
  {
    if k == 0 || r == 0 then ""
    else
      DivBounds(10 * r, den);
      [DigitChar(10 * r / den)] + FractionDigits(10 * r % den, den, k - 1)
  }

  /** The string without its trailing '0' characters. */
  function StripTrailingZeros(s: string): (r: string)
    ensures |r| <= |s| && r == s[..|r|]
    ensures r == [] || r[|r| - 1] != '0'
    ensures forall i :: |r| <= i < |s| ==> s[i] == '0'
  {
    if s != [] && s[|s| - 1] == '0' then StripTrailingZeros(s[..|s| - 1]) else s
  }

  /** How many fraction digits `${v}` is taken to print at most. */
  const MaxFractionDigits: nat := 16

  /**
   * `${num / den}` for num/den >= 1: the integer part, then, when there is a
   * fractional part, a point and its decimal expansion (at most 16 digits).
   */
  function DecimalText(num: nat, den: nat): string
    requires den > 0
  {
    DecimalUpTo(num, den, MaxFractionDigits)
  }

  /** num/den in decimal with at most k fraction digits, trailing zeros dropped. */
  function DecimalUpTo(num: nat, den: nat, k: nat): string
    requires den > 0
  {
    var r := num % den;
    DivBounds(num, den);
    var fraction := StripTrailingZeros(FractionDigits(r, den, k));
    NatToString(num / den) + (if fraction == "" then "" else "." + fraction)
  }

  function Pow10(n: nat): (p: nat)
    ensures p >= 1
  {
    if n == 0 then 1 else 10 * Pow10(n - 1)
  }

  lemma {:induction false} Pow10Add(a: nat, b: nat)
    ensures Pow10(a) * Pow10(b) == Pow10(a + b)
    decreases a
  {
    if a > 0 {
      Pow10Add(a - 1, b);
      Associate(10, Pow10(a - 1), Pow10(b));
    }
  }

  /** Division by den is unique: a quotient and a remainder below den determine it. */
  lemma DivUnique(a: nat, den: nat, q: nat, m: nat)
    requires den > 0 && m < den && a == q * den + m
    ensures a / den == q
  {
    DivBounds(a, den);
    if a / den + 1 <= q {
      MulMonotone(a / den + 1, q, den);
    }
    if q + 1 <= a / den {
      MulMonotone(q + 1, a / den, den);
    }
  }

  lemma MulMonotone(x: nat, y: nat, c: nat)
    requires x <= y
    ensures x * c <= y * c
  {
  }

  lemma Distribute(x: nat, y: nat, c: nat)
    ensures (x + y) * c == x * c + y * c
  {
  }

  lemma Associate(x: nat, y: nat, c: nat)
    ensures (x * y) * c == x * (y * c)
  {
  }

  /** Adding whole multiples of den to the dividend adds them to the quotient. */
  lemma DivAddMultiple(x: nat, y: nat, den: nat)
    requires den > 0
    ensures (x * den + y) / den == x + y / den
  {
    DivBounds(y, den);
    var q, m := y / den, y % den;
    assert y == q * den + m;
    Distribute(x, q, den);
    DivUnique(x * den + y, den, x + q, m);
  }

  /** A leading digit is worth its value times the power of ten of the digits after it. */
  lemma {:induction false} DigitsValuePrepend(c: char, t: string)
    requires IsDigit(c) && forall k :: 0 <= k < |t| ==> IsDigit(t[k])
    ensures DigitsValue([c] + t) == DigitValue(c) * Pow10(|t|) + DigitsValue(t)
    decreases |t|
  {
    if t != [] {
      var u := [c] + t;
      assert u[..|u| - 1] == [c] + t[..|t| - 1];
      DigitsValuePrepend(c, t[..|t| - 1]);
      var v, w := DigitValue(c) * Pow10(|t| - 1), DigitsValue(t[..|t| - 1]);
      Distribute(v, w, 10);
      Associate(DigitValue(c), Pow10(|t| - 1), 10);
    }
  }

  /** One step of long division: the next digit is below 10 and leaves a remainder below den. */
  lemma DigitStep(r: nat, den: nat)
    requires r < den
    ensures 0 <= 10 * r / den < 10 && 0 <= 10 * r % den < den
    ensures (10 * r / den) * den + 10 * r % den == 10 * r
  {
    DivBounds(10 * r, den);
    if 10 * r / den >= 10 {
      MulMonotone(10, 10 * r / den, den);
    }
  }

  /**
   * The arithmetic of one step of FractionDigitsValue: with digit d and
   * remainder r2 from 10 * r, and the rest t worth vt, padded by pm places,
   * the digits are worth r * 10^k / den.
   */
  lemma FractionStepArith(r: nat, den: nat, d: nat, r2: nat, p: nat, pt: nat, pm: nat, vt: nat)
    requires den > 0 && d * den + r2 == 10 * r
    requires pt * pm == p
    requires vt * pm == r2 * p / den
    ensures (d * pt + vt) * pm == r * (10 * p) / den
  {
    Distribute(d * pt, vt, pm);
    Associate(d, pt, pm);
    DivAddMultiple(d * p, r2 * p, den);
    Associate(d, p, den);
    Associate(p, d, den);
    Distribute(d * den, r2, p);
    Associate(r, 10, p);
  }

  /**
   * The digits FractionDigits writes, padded with zeros to k places, are the
   * first k decimal places of r/den.
   */
  lemma {:induction false} FractionDigitsValue(r: nat, den: nat, k: nat)
    requires r < den
    ensures var s := FractionDigits(r, den, k);
            DigitsValue(s) * Pow10(k - |s|) == r * Pow10(k) / den
    decreases k
  {
    if k == 0 || r == 0 {
      NoDigitsLeft(r, den, k);
    } else {
      DigitStep(r, den);
      var d, r2 := 10 * r / den, 10 * r % den;
      FractionDigitsValue(r2, den, k - 1);
      PrependDigitValue(r, den, k, d, r2, FractionDigits(r2, den, k - 1));
    }
  }

  /** With no places left, or nothing left to divide, r/den has nothing to show in k places. */
  lemma NoDigitsLeft(r: nat, den: nat, k: nat)
    requires r < den && (k == 0 || r == 0)
    ensures r * Pow10(k) / den == 0
  {
    var x := r * Pow10(k);
    if r == 0 {
      assert x == 0;
    } else {
      assert x == r;
    }
    DivUnique(x, den, 0, x);
  }

  /**
   * Long division one place further: digit d with remainder r2 from 10 * r,
   * followed by digits t that show r2/den to k - 1 places, show r/den to k
   * places.
   */
  lemma PrependDigitValue(r: nat, den: nat, k: nat, d: nat, r2: nat, t: string)
    requires den > 0 && k > 0 && d < 10 && d * den + r2 == 10 * r
    requires |t| <= k - 1 && forall i :: 0 <= i < |t| ==> IsDigit(t[i])
    requires DigitsValue(t) * Pow10(k - 1 - |t|) == r2 * Pow10(k - 1) / den
    ensures var s := [DigitChar(d)] + t; DigitsValue(s) * Pow10(k - |s|) == r * Pow10(k) / den
  {
    DigitsValuePrepend(DigitChar(d), t);
    Pow10Add(|t|, k - 1 - |t|);
    FractionStepArith(r, den, d, r2, Pow10(k - 1), Pow10(|t|), Pow10(k - 1 - |t|), DigitsValue(t));
  }

  /** Dropping trailing zeros divides the value by the power of ten of how many were dropped. */
  lemma {:induction false} StripTrailingZerosValue(s: string)
    requires forall k :: 0 <= k < |s| ==> IsDigit(s[k])
    ensures DigitsValue(s) == DigitsValue(StripTrailingZeros(s)) * Pow10(|s| - |StripTrailingZeros(s)|)
    decreases |s|
  {
    if s != [] && s[|s| - 1] == '0' {
      var rest := s[..|s| - 1];
      var stripped := StripTrailingZeros(s);
      assert stripped == StripTrailingZeros(rest);
      StripTrailingZerosValue(rest);
      assert Pow10(|s| - |stripped|) == 10 * Pow10(|rest| - |stripped|);
      Associate(DigitsValue(stripped), Pow10(|rest| - |stripped|), 10);
    }
  }

  /** Regrouping a product of three factors through an intermediate value. */
  lemma Regroup(v: nat, a: nat, b: nat, w: nat, p: nat, x: int)
    requires w == v * a && w * b == x && a * b == p
    ensures v * p == x
  {
    Associate(v, a, b);
  }

  /** Trailing zeros dropped from a digit string padded to k places leave its padded value alone. */
  lemma StrippedPaddedValue(digits: string, k: nat, x: int)
    requires |digits| <= k && forall i :: 0 <= i < |digits| ==> IsDigit(digits[i])
    requires DigitsValue(digits) * Pow10(k - |digits|) == x
    ensures var f := StripTrailingZeros(digits); DigitsValue(f) * Pow10(k - |f|) == x
  {
    var fraction := StripTrailingZeros(digits);
    StripTrailingZerosValue(digits);
    Pow10Add(|digits| - |fraction|, k - |digits|);
    Regroup(DigitsValue(fraction), Pow10(|digits| - |fraction|), Pow10(k - |digits|),
            DigitsValue(digits), Pow10(k - |fraction|), x);
  }

  /** What follows the point at position n of a printed number, if anything does. */
  function AfterPoint(s: string, n: nat): string
  {
    if |s| > n + 1 then s[n + 1..] else ""
  }

  /**
   * s reads back as the integer numeral ip, then (only when there is a
   * fraction) a point and at most k digits with no trailing zero, which,
   * padded with zeros to k places, are worth x.
   */
  predicate ReadsBack(ip: string, s: string, k: nat, x: int) {
    && |ip| <= |s| && s[..|ip|] == ip
    && (|s| > |ip| ==> |s| >= |ip| + 2 && s[|ip|] == '.')
    && var f := AfterPoint(s, |ip|);
       && |f| <= k
       && (forall i :: 0 <= i < |f| ==> IsDigit(f[i]))
       && (f == "" || f[|f| - 1] != '0')
       && DigitsValue(f) * Pow10(k - |f|) == x
  }

  /**
   * A numeral followed by the point and the digits with trailing zeros
   * dropped reads back as the numeral and the padded value of the digits.
   */
  lemma PrintedReadsBack(ip: string, digits: string, k: nat, x: int)
    requires |digits| <= k && forall i :: 0 <= i < |digits| ==> IsDigit(digits[i])
    requires DigitsValue(digits) * Pow10(k - |digits|) == x
    ensures var fraction := StripTrailingZeros(digits);
            ReadsBack(ip, ip + (if fraction == "" then "" else "." + fraction), k, x)
  {
    var fraction := StripTrailingZeros(digits);
    var s := ip + (if fraction == "" then "" else "." + fraction);
    if fraction != "" {
      assert s[|ip| + 1..] == fraction;
    }
    StrippedPaddedValue(digits, k, x);
  }

  /**
   * Reading back `${num / den}` with at most k fraction digits: the integer
   * numeral of num/den, then, when a point follows, digits that, padded with
   * zeros to k places, are the first k decimal places of num/den.
   */
  lemma DecimalUpToReads(num: nat, den: nat, k: nat)
    requires den > 0
    ensures DigitsValue(NatToString(num / den)) == num / den
    ensures ReadsBack(NatToString(num / den), DecimalUpTo(num, den, k), k, (num % den) * Pow10(k) / den)
  {
    NatToStringRoundTrip(num / den);
    FractionReadsBack(NatToString(num / den), num % den, den, k);
  }

  /** The fraction digits of r/den, printed after a numeral, read back as r/den to k places. */
  lemma FractionReadsBack(ip: string, r: nat, den: nat, k: nat)
    requires r < den
    ensures var fraction := StripTrailingZeros(FractionDigits(r, den, k));
            ReadsBack(ip, ip + (if fraction == "" then "" else "." + fraction), k, r * Pow10(k) / den)
  {
    FractionDigitsValue(r, den, k);
    PrintedReadsBack(ip, FractionDigits(r, den, k), k, r * Pow10(k) / den);
  }

  /** A whole quotient prints as the integer numeral, with no point. */
  lemma DecimalTextWhole(num: nat, den: nat)
    requires den > 0 && num % den == 0
    ensures DecimalText(num, den) == NatToString(num / den)
  {
  }

  /**
   * The exposureTime string: "<v> sec" when v = num/den >= 1,
   * "1/<round(1/v)> sec" when 0 < v < 1, and nothing when the denominator or
   * the numerator is zero.
   */
  function ExposureText(num: nat, den: nat): (r: Option<string>)
    ensures r.None? <==> den == 0 || num == 0
    ensures num >= den > 0 ==> r == Some(DecimalText(num, den) + " sec")
  {
    if den == 0 then None
    else if num >= den then Some(DecimalText(num, den) + " sec")
    else if num > 0 then Some("1/" + NatToString(RoundedReciprocal(num, den)) + " sec")
    else None
  }

  /**
   * The aperture string "f/<num/den to one decimal>", nothing for a zero
   * denominator; the integer part has no leading zero.
   */
  function ApertureText(num: nat, den: nat): (r: Option<string>)
    ensures r.None? <==> den == 0
    ensures den > 0 ==> && |r.value| >= 5 && r.value[..2] == "f/"
                        && OneDecimal(r.value[2..]) && TenthsShown(r.value[2..]) == Tenths(num, den)
                        && (r.value[2] == '0' ==> |r.value| == 5)
  {
    if den == 0 then None
    else
      Fixed1RoundTrip(num, den);
      var s := "f/" + Fixed1(num, den);
      assert s[2..] == Fixed1(num, den);
      Some(s)
  }

  /**
   * The focal length string "<num/den to one decimal> mm", nothing for a
   * zero denominator; the integer part has no leading zero.
   */
  function FocalLengthText(num: nat, den: nat): (r: Option<string>)
    ensures r.None? <==> den == 0
    ensures den > 0 ==> var n := |r.value|;
                        && n >= 6 && r.value[n - 3..] == " mm"
                        && OneDecimal(r.value[..n - 3]) && TenthsShown(r.value[..n - 3]) == Tenths(num, den)
                        && (r.value[0] == '0' ==> n == 6)
  {
    if den == 0 then None
    else
      Fixed1RoundTrip(num, den);
      var s := Fixed1(num, den) + " mm";
      assert s[..|s| - 3] == Fixed1(num, den);
      Some(s)
  }

  /**
   * A sub-second exposure is shown as 1/k sec where k is den/num rounded to
   * the nearest integer; k is at least 1.
   */
  lemma ShortExposureShape(num: nat, den: nat)
    requires 0 < num < den
    ensures exists k: nat :: k >= 1 && 2 * k * num <= 2 * den + num < 2 * (k + 1) * num
              && ExposureText(num, den) == Some("1/" + NatToString(k) + " sec")
  {
    var k := RoundedReciprocal(num, den);
    assert ExposureText(num, den) == Some("1/" + NatToString(k) + " sec");
  }

  lemma ExposureExamples()
    ensures ExposureText(1, 250) == Some("1/250 sec")
    ensures ExposureText(2, 1) == Some("2 sec")
    ensures ExposureText(1, 0) == None
    ensures ExposureText(0, 10) == None
  {
    assert RoundedReciprocal(1, 250) == 250;
    assert NatToString(2) == "2";
    assert NatToString(25) == "25";
    assert NatToString(250) == "250";
    assert "1/" + "250" + " sec" == "1/250 sec";
    DecimalTextWhole(2, 1);
    assert "2" + " sec" == "2 sec";
  }

  lemma ApertureExample()
    ensures ApertureText(28, 10) == Some("f/2.8")
    ensures FocalLengthText(50, 1) == Some("50.0 mm")
  {
    assert Tenths(28, 10) == 28;
    assert NatToString(2) == "2";
    assert Fixed1(28, 10) == "2.8";
    assert "f/" + "2.8" == "f/2.8";
    assert Tenths(50, 1) == 500;
    assert NatToString(5) == "5";
    assert NatToString(50) == "50";
    assert Fixed1(50, 1) == "50.0";
    assert "50.0" + " mm" == "50.0 mm";
  }
}
