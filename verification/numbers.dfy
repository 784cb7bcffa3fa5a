/**
 * The decimal subset of `Double.parseDouble` used for an event's value
 * (PayrollServiceImpl.parseLineToEvent, field 7). Values are exact reals.
 */
module Numbers {
  import opened Wrappers
  import opened Text

  /** `f`, `F`, `d` or `D`: the float/double type suffix Java tolerates at the very end. */
  predicate IsTypeSuffix(c: char) {
    c == 'f' || c == 'F' || c == 'd' || c == 'D'
  }

  predicate IsExponentMark(c: char) {
    c == 'e' || c == 'E'
  }

  /** Every character a decimal literal may contain. */
  predicate IsNumberChar(c: char) {
    IsDigit(c) || c == '+' || c == '-' || c == '.' || IsExponentMark(c) || IsTypeSuffix(c)
  }

  /** `x` times 10 raised to the integer power `z`, one decimal place at a time. */
  function Shift(x: real, z: int): (r: real)
    ensures x > 0.0 ==> r > 0.0
    ensures x == 0.0 ==> r == 0.0
    decreases if z >= 0 then z else -z
  {
    if z == 0 then x
    else if z > 0 then Shift(x, z - 1) * 10.0
    else Shift(x, z + 1) / 10.0
  }

  /** Index of the first exponent mark in `s`, or `|s|`. */
  function ExponentIndex(s: string): (i: nat)
    ensures i <= |s|
    ensures i < |s| ==> IsExponentMark(s[i])
    ensures forall j | 0 <= j < i :: !IsExponentMark(s[j])
  {
    if |s| == 0 then 0
    else if IsExponentMark(s[0]) then 0
    else 1 + ExponentIndex(s[1..])
  }

  /** A mantissa `digits.fraction`: all its digits read as one integer, and how many follow the point. */
  datatype Mantissa = Mantissa(digits: nat, fractionLength: nat)

  /** `D+`, `D+ '.' D*` or `'.' D+`. */
  function ParseMantissa(s: string): (r: Option<Mantissa>)
    ensures r.Some? ==> forall i | 0 <= i < |s| :: IsDigit(s[i]) || s[i] == '.'
    ensures r.Some? ==> exists i | 0 <= i < |s| :: IsDigit(s[i])
  {
    var p := IndexOf(s, '.');
    var whole := s[..p];
    var fraction := if p < |s| then s[p + 1..] else "";
    if AllDigits(whole) && AllDigits(fraction) && |whole| + |fraction| >= 1 then
      assert p < |s| ==> s == whole + ['.'] + fraction;
      assert p == |s| ==> s == whole;
      assert |whole| > 0 ==> IsDigit(s[0]);
      assert |whole| == 0 ==> IsDigit(s[1]);
      Some(Mantissa(DigitsValue(whole + fraction), |fraction|))
    else None
  }

  /** An optionally signed exponent `[+-]? D+`. */
  function ParseExponent(s: string): (r: Option<int>)
    ensures r.Some? ==> |s| >= 1 && forall i | 0 <= i < |s| :: IsNumberChar(s[i])
  {
    var negative := |s| > 0 && s[0] == '-';
    var digits := if |s| > 0 && (s[0] == '+' || s[0] == '-') then s[1..] else s;
    if |digits| >= 1 && AllDigits(digits) then
      Some(if negative then -(DigitsValue(digits) as int) else DigitsValue(digits))
    else None
  }

  /** `s` without a leading `+` or `-`. */
  function Unsigned(s: string): (t: string)
    ensures |t| <= |s|
  {
    if |s| > 0 && (s[0] == '+' || s[0] == '-') then s[1..] else s
  }

  /** `t` without a trailing type suffix. */
  function Unsuffixed(t: string): (u: string)
    ensures |u| <= |t|
  {
    if |t| > 0 && IsTypeSuffix(t[|t| - 1]) then t[..|t| - 1] else t
  }

  /**
   * `Double.parseDouble` restricted to decimal notation: an optional sign, a
   * mantissa with at least one digit and at most one point, an optional
   * exponent, and an optional type suffix as the last character. Anything
   * else is a `NumberFormatException`, modelled as `None`.
   */
  function ParseDecimal(s: string): (r: Option<real>)
    ensures r.Some? ==> forall i | 0 <= i < |s| :: IsNumberChar(s[i])
    ensures r.Some? ==> exists i | 0 <= i < |s| :: IsDigit(s[i])
  {
    var magnitude := ParseMagnitude(Unsuffixed(Unsigned(s)));
    if magnitude.None? then None
    else
      LiteralChars(s);
      Some(if |s| > 0 && s[0] == '-' then -magnitude.value else magnitude.value)
  }

  /** The literal without its sign and suffix: a mantissa and an optional exponent. */
  function ParseMagnitude(u: string): (r: Option<real>)
    ensures r.Some? ==> forall j | 0 <= j < |u| :: IsNumberChar(u[j])
    ensures r.Some? ==> exists j | 0 <= j < |u| :: IsDigit(u[j])
    ensures r.Some? ==> r.value >= 0.0
  {
    var k := ExponentIndex(u);
    var mantissa := ParseMantissa(u[..k]);
    var exponent := if k < |u| then ParseExponent(u[k + 1..]) else Some(0);
    if mantissa.Some? && exponent.Some? then
      BodyChars(u, k);
      Some(Shift(mantissa.value.digits as real, exponent.value - mantissa.value.fractionLength))
    else None
  }

  /** The character facts behind `ParseDecimal`'s contract, once the magnitude parsed. */
  lemma LiteralChars(s: string)
    requires ParseMagnitude(Unsuffixed(Unsigned(s))).Some?
    ensures forall i | 0 <= i < |s| :: IsNumberChar(s[i])
    ensures exists i | 0 <= i < |s| :: IsDigit(s[i])
  {
    SuffixChars(Unsigned(s));
    SignChars(s);
  }

  /** A sign is a literal character, and removing it keeps the digits. */
  lemma SignChars(s: string)
    requires forall j | 0 <= j < |Unsigned(s)| :: IsNumberChar(Unsigned(s)[j])
    requires exists j | 0 <= j < |Unsigned(s)| :: IsDigit(Unsigned(s)[j])
    ensures forall i | 0 <= i < |s| :: IsNumberChar(s[i])
    ensures exists i | 0 <= i < |s| :: IsDigit(s[i])
  {
    var t := Unsigned(s);
    var j :| 0 <= j < |t| && IsDigit(t[j]);
    if t != s {
      assert forall i | 1 <= i < |s| :: s[i] == t[i - 1];
      assert IsDigit(s[j + 1]);
    }
  }

  /** A type suffix is a literal character, and removing it keeps the digits. */
  lemma SuffixChars(t: string)
    requires forall j | 0 <= j < |Unsuffixed(t)| :: IsNumberChar(Unsuffixed(t)[j])
    requires exists j | 0 <= j < |Unsuffixed(t)| :: IsDigit(Unsuffixed(t)[j])
    ensures forall i | 0 <= i < |t| :: IsNumberChar(t[i])
    ensures exists i | 0 <= i < |t| :: IsDigit(t[i])
  {
    var u := Unsuffixed(t);
    var j :| 0 <= j < |u| && IsDigit(u[j]);
    if u != t {
      assert forall i | 0 <= i < |u| :: t[i] == u[i];
      assert IsDigit(t[j]);
    }
  }

  /** A mantissa followed by an optional exponent holds only literal characters, and a digit. */
  lemma BodyChars(u: string, k: nat)
    requires k == ExponentIndex(u)
    requires ParseMantissa(u[..k]).Some?
    requires k < |u| ==> ParseExponent(u[k + 1..]).Some?
    ensures forall j | 0 <= j < |u| :: IsNumberChar(u[j])
    ensures exists j | 0 <= j < |u| :: IsDigit(u[j])
  {
    var m := u[..k];
    forall j | 0 <= j < |u| ensures IsNumberChar(u[j]) {
      if j < k {
        assert u[j] == m[j];
      } else if j > k {
        assert u[j] == u[k + 1..][j - k - 1];
      }
    }
    var i :| 0 <= i < |m| && IsDigit(m[i]);
    assert u[i] == m[i];
  }

  /** Decimal notation of an integer, with a minus sign when negative. */
  function FormatInt(n: int): string {
    if n < 0 then "-" + FormatNat(-n) else FormatNat(n)
  }

  /** Integers survive formatting and parsing exactly. */
  lemma ParseFormatInt(n: int)
    ensures ParseDecimal(FormatInt(n)) == Some(n as real)
  {
    if n < 0 {
      ParseFormatNegative(-n);
    } else {
      ParseFormatNatural(n);
    }
  }

  lemma ParseFormatNatural(m: nat)
    ensures ParseDecimal(FormatNat(m)) == Some(m as real)
  {
    var ds := FormatNat(m);
    DigitLiteral(ds);
    MagnitudeOfNatural(ds, m);
    Signed(ds, ds, m as real);
  }

  lemma ParseFormatNegative(m: nat)
    ensures ParseDecimal("-" + FormatNat(m)) == Some(-(m as real))
  {
    var ds := FormatNat(m);
    DigitLiteral(ds);
    MagnitudeOfNatural(ds, m);
    Signed("-" + ds, ds, m as real);
  }

  /** A digit string, bare or after a minus sign, has the digits as its body. */
  lemma DigitLiteral(ds: string)
    requires |ds| >= 1 && AllDigits(ds)
    ensures Unsuffixed(Unsigned(ds)) == ds && ds[0] != '-'
    ensures Unsuffixed(Unsigned("-" + ds)) == ds && ("-" + ds)[0] == '-'
  {
    assert Unsigned("-" + ds) == ds;
  }

  /** A plain digit string is read as the integer it spells. */
  lemma MagnitudeOfNatural(ds: string, m: nat)
    requires |ds| >= 1 && AllDigits(ds) && DigitsValue(ds) == m
    ensures ParseMagnitude(ds) == Some(m as real)
  {
    MagnitudeOfDigits(ds);
    MantissaOfDigits(ds);
  }

  /** The sign of the literal applies to the magnitude of its body. */
  lemma Signed(s: string, body: string, v: real)
    requires Unsuffixed(Unsigned(s)) == body && ParseMagnitude(body) == Some(v)
    ensures ParseDecimal(s) == Some(if |s| > 0 && s[0] == '-' then -v else v)
  {
    var magnitude := ParseMagnitude(Unsuffixed(Unsigned(s)));
    assert magnitude == Some(v);
  }

  /** A plain digit string is a mantissa without exponent: its magnitude is its digits. */
  lemma MagnitudeOfDigits(ds: string)
    requires |ds| >= 1 && AllDigits(ds)
    ensures ParseMantissa(ds[..|ds|]).Some?
    ensures ParseMagnitude(ds) == Some(ParseMantissa(ds[..|ds|]).value.digits as real)
  {
    ExponentFree(ds);
    PointFree(ds);
    assert ds[..|ds|] == ds;
  }

  /** The digits of a plain digit string read as the integer they spell. */
  lemma MantissaOfDigits(ds: string)
    requires |ds| >= 1 && AllDigits(ds)
    ensures ParseMantissa(ds[..|ds|]) == Some(Mantissa(DigitsValue(ds), 0))
  {
    PointFree(ds);
    assert ds[..|ds|] == ds;
    assert ds + "" == ds;
  }

  lemma ExponentFree(s: string)
    requires AllDigits(s)
    ensures ExponentIndex(s) == |s|
  {
    if |s| > 0 {
      ExponentFree(s[1..]);
    }
  }

  lemma PointFree(s: string)
    requires AllDigits(s)
    ensures IndexOf(s, '.') == |s|
  {
    if |s| > 0 {
      PointFree(s[1..]);
    }
  }
  // ---------------------------------------------------------------------------
  // Fractions and exponents.

  /**
   * A decimal with a fixed number of places: an optional minus sign, the
   * whole part, a point and exactly `places` fraction digits (`-12.05`).
   */
  datatype Fixed = Fixed(negative: bool, whole: nat, fraction: nat, places: nat)

  predicate ValidFixed(x: Fixed) {
    x.fraction < Pow10(x.places)
  }

  /** The number a fixed-point decimal denotes. */
  function FixedValue(x: Fixed): real {
    var magnitude := x.whole as real + x.fraction as real / Pow10(x.places) as real;
    if x.negative then -magnitude else magnitude
  }

  /** The digits, the point and the fraction digits of a fixed-point decimal. */
  function FixedBody(x: Fixed): (u: string)
    requires ValidFixed(x)
    ensures |u| >= 2 && IsDigit(u[0])
    ensures forall i | 0 <= i < |u| :: IsDigit(u[i]) || u[i] == '.'
  {
    var w := FormatNat(x.whole);
    var u := w + "." + PadNat(x.fraction, x.places);
    assert u[0] == w[0];
    u
  }

  function FormatFixed(x: Fixed): string
    requires ValidFixed(x)
  {
    (if x.negative then "-" else "") + FixedBody(x)
  }

  /** A fixed-point decimal is read back as exactly the number it denotes. */
  lemma ParseFormatFixed(x: Fixed)
    requires ValidFixed(x)
    ensures ParseDecimal(FormatFixed(x)) == Some(FixedValue(x))
  {
    FixedBodyOf(x);
    SignedFixed(FormatFixed(x), x);
  }

  /** Any literal whose body is that of `x`, and whose sign is that of `x`, denotes `x`. */
  lemma SignedFixed(s: string, x: Fixed)
    requires ValidFixed(x)
    requires Unsuffixed(Unsigned(s)) == FixedBody(x)
    requires |s| > 0 && (s[0] == '-' <==> x.negative)
    ensures ParseDecimal(s) == Some(FixedValue(x))
  {
    MagnitudeOfFixed(x);
    Signed(s, FixedBody(x), x.whole as real + x.fraction as real / Pow10(x.places) as real);
  }

  /** Removing the sign and a type suffix from a fixed-point decimal leaves its body. */
  lemma FixedBodyOf(x: Fixed)
    requires ValidFixed(x)
    ensures Unsuffixed(Unsigned(FormatFixed(x))) == FixedBody(x)
    ensures |FormatFixed(x)| > 0 && (FormatFixed(x)[0] == '-' <==> x.negative)
  {
    var s := FormatFixed(x);
    var u := FixedBody(x);
    assert Unsigned(s) == u by {
      if !x.negative {
        assert s == u;
      }
    }
    assert !x.negative ==> s[0] == u[0];
    assert !IsTypeSuffix(u[|u| - 1]) by {
      assert IsDigit(u[|u| - 1]) || u[|u| - 1] == '.';
    }
  }

  /** The body of a fixed-point decimal has no exponent and a mantissa with `places` fraction digits. */
  lemma MagnitudeOfFixed(x: Fixed)
    requires ValidFixed(x)
    ensures ParseMagnitude(FixedBody(x)) == Some(x.whole as real + x.fraction as real / Pow10(x.places) as real)
  {
    var u := FixedBody(x);
    assert ExponentIndex(u) == |u| by {
      assert forall j | 0 <= j < |u| :: !IsExponentMark(u[j]);
    }
    MantissaOfFixed(x);
    var m := ParseMantissa(u).value;
    assert u[..|u|] == u;
    MagnitudeOfMantissa(u, m);
    FixedShift(x, m);
  }

  /** The mantissa digits of `x`, shifted down by its places, are the magnitude of `x`. */
  lemma FixedShift(x: Fixed, m: Mantissa)
    requires ValidFixed(x)
    requires m.digits as int == x.whole * Pow10(x.places) + x.fraction && m.fractionLength == x.places
    ensures Shift(m.digits as real, -(m.fractionLength as int))
      == x.whole as real + x.fraction as real / Pow10(x.places) as real
  {
    ShiftDown(m.digits as real, x.places);
    Rescale(x.whole, x.fraction, Pow10(x.places));
  }

  /** A literal body without an exponent is its mantissa's digits shifted down by its fraction length. */
  lemma MagnitudeOfMantissa(u: string, m: Mantissa)
    requires ExponentIndex(u) == |u| && ParseMantissa(u[..|u|]) == Some(m)
    ensures ParseMagnitude(u) == Some(Shift(m.digits as real, -(m.fractionLength as int)))
  {
    var k := ExponentIndex(u);
    var mantissa := ParseMantissa(u[..k]);
    var exponent: Option<int> := Some(0);
    assert ParseMagnitude(u) == Some(Shift(mantissa.value.digits as real, exponent.value - mantissa.value.fractionLength));
  }

  /** The mantissa of a fixed-point decimal: whole and fraction digits read together. */
  lemma MantissaOfFixed(x: Fixed)
    requires ValidFixed(x)
    ensures ParseMantissa(FixedBody(x)).Some?
    ensures ParseMantissa(FixedBody(x)).value.digits as int == x.whole * Pow10(x.places) + x.fraction
    ensures ParseMantissa(FixedBody(x)).value.fractionLength == x.places
  {
    var w := FormatNat(x.whole);
    var f := PadNat(x.fraction, x.places);
    var u := FixedBody(x);
    assert u == w + "." + f;
    assert u[|w|] == '.';
    assert forall j | 0 <= j < |w| :: u[j] == w[j];
    assert IndexOf(u, '.') == |w|;
    assert u[..|w|] == w && u[|w| + 1..] == f;
    DigitsAppend(w, f);
  }

  /** Digits written after other digits shift them up by as many places. */
  lemma {:induction false} DigitsAppend(a: string, b: string)
    requires AllDigits(a) && AllDigits(b)
    ensures AllDigits(a + b)
    ensures DigitsValue(a + b) == DigitsValue(a) * Pow10(|b|) + DigitsValue(b)
  {
    if |b| == 0 {
      assert a + b == a;
    } else {
      var front := b[..|b| - 1];
      DigitsAppend(a, front);
      assert (a + b)[..|a + b| - 1] == a + front;
      assert DigitsValue(a + b) == DigitsValue(a + front) * 10 + DigitValue(b[|b| - 1]);
      assert DigitsValue(b) == DigitsValue(front) * 10 + DigitValue(b[|b| - 1]);
      Regroup(DigitsValue(a), Pow10(|front|), DigitsValue(front), DigitValue(b[|b| - 1]));
    }
  }

  /** Dividing a scaled whole part plus a fraction by the scale. */
  lemma Rescale(whole: int, fraction: int, p: int)
    requires p > 0
    ensures (whole * p + fraction) as real / p as real == whole as real + fraction as real / p as real
  {
    assert (whole * p + fraction) as real == whole as real * p as real + fraction as real;
  }

  /** One more digit, with the front's value split into high and low parts. */
  lemma Regroup(high: int, p: int, low: int, digit: int)
    ensures (high * p + low) * 10 + digit == high * (10 * p) + (low * 10 + digit)
  {
  }

  /** A negative shift divides by the matching power of ten. */
  lemma {:induction false} ShiftDown(x: real, k: nat)
    ensures Shift(x, -(k as int)) == x / Pow10(k) as real
  {
    if k > 0 {
      ShiftDown(x, k - 1);
      var p := Pow10(k - 1) as real;
      assert Pow10(k) as real == p * 10.0;
      DivideByTen(x, p);
    }
  }

  lemma DivideByTen(x: real, p: real)
    requires p > 0.0
    ensures (x / p) / 10.0 == x / (p * 10.0)
  {
  }

  /** A positive shift multiplies by the matching power of ten. */
  lemma {:induction false} ShiftUp(x: real, k: nat)
    ensures Shift(x, k) == x * Pow10(k) as real
  {
    if k > 0 {
      ShiftUp(x, k - 1);
      var p := Pow10(k - 1) as real;
      assert Pow10(k) as real == p * 10.0;
      assert (x * p) * 10.0 == x * (p * 10.0);
    }
  }

  /** An integer exponent in decimal is read back as itself. */
  lemma ExponentOfInt(z: int)
    ensures ParseExponent(FormatInt(z)) == Some(z)
  {
    var t := FormatInt(z);
    if z < 0 {
      assert t[1..] == FormatNat(-z);
    } else {
      assert t[0] == FormatNat(z)[0];
    }
  }

  /** `n` followed by `e` and an integer exponent `z` is `n` times ten to the `z`. */
  lemma ParseFormatScientific(n: nat, z: int)
    ensures ParseDecimal(FormatNat(n) + "e" + FormatInt(z)) == Some(ScientificValue(n, z))
  {
    ScientificLiteral(n, z);
    MagnitudeOfScientific(n, z);
    Signed(FormatNat(n) + "e" + FormatInt(z), FormatNat(n) + "e" + FormatInt(z), ScientificValue(n, z));
  }

  /** A scientific literal has neither sign nor suffix. */
  lemma ScientificLiteral(n: nat, z: int)
    ensures Unsuffixed(Unsigned(FormatNat(n) + "e" + FormatInt(z))) == FormatNat(n) + "e" + FormatInt(z)
    ensures (FormatNat(n) + "e" + FormatInt(z))[0] != '-'
  {
    var w := FormatNat(n);
    var t := FormatInt(z);
    var s := w + "e" + t;
    assert s[0] == w[0];
    var digits := FormatNat(if z < 0 then -z else z);
    assert t == digits || t == "-" + digits;
    assert s[|s| - 1] == digits[|digits| - 1];
  }

  /** `n` times ten to the `z`, for a whole `n`. */
  function ScientificValue(n: nat, z: int): real {
    if z >= 0 then n as real * Pow10(z) as real else n as real / Pow10(-z) as real
  }

  /** A whole mantissa with an exponent is shifted by the exponent. */
  lemma MagnitudeOfScientific(n: nat, z: int)
    ensures ParseMagnitude(FormatNat(n) + "e" + FormatInt(z)) == Some(ScientificValue(n, z))
  {
    var w := FormatNat(n);
    var t := FormatInt(z);
    var s := w + "e" + t;
    assert ExponentIndex(s) == |w| by {
      assert s[|w|] == 'e';
      assert forall j | 0 <= j < |w| :: s[j] == w[j];
    }
    assert s[..|w|] == w && s[|w| + 1..] == t;
    MantissaOfDigits(w);
    assert w[..|w|] == w;
    ExponentOfInt(z);
    assert ParseMantissa(s[..|w|]) == Some(Mantissa(n, 0));
    assert ParseExponent(s[|w| + 1..]) == Some(z);
    ShiftScientific(n, z);
  }

  lemma ShiftScientific(n: nat, z: int)
    ensures Shift(n as real, z) == ScientificValue(n, z)
  {
    if z >= 0 {
      ShiftUp(n as real, z);
    } else {
      ShiftDown(n as real, -z);
    }
  }
}
