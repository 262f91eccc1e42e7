/** Numbers as the converter reads and writes them: `int.Parse` on 32-bit integers,
    `double.Parse` / `double.ToString()` on the decimal values of a slicer file,
    and `Convert.ToInt32` for seconds turned into milliseconds.

    A double is modelled by the exact decimal it was written as: `units / 10^scale`.
    Binary rounding is not modelled. */
module Numbers {
  import opened Common
  import opened Text

  const Int32Min: int := -0x8000_0000
  const Int32Max: int := 0x7fff_ffff

  predicate InInt32(n: int) {
    Int32Min <= n <= Int32Max
  }

  /** Splits an optional leading `-` or `+` off a number's text; true means negative. */
  function SplitSign(t: string): (bool, string) {
    if t != [] && t[0] == '-' then (true, t[1..])
    else if t != [] && t[0] == '+' then (false, t[1..])
    else (false, t)
  }

  function Signed(negative: bool, n: nat): int {
    if negative then -(n as int) else n
  }

  /** `int.Parse` with its default style: surrounding white space, an optional sign,
      one or more decimal digits, and a value inside the 32-bit range. None stands
      for the FormatException or OverflowException the call throws. */
  function ParseInt(s: string): (r: Option<int>)
    ensures r.Some? ==> InInt32(r.value)
  {
    var (negative, body) := SplitSign(Trim(s));
    if body != [] && AllDigits(body) && InInt32(Signed(negative, DigitsValue(body))) then
      Some(Signed(negative, DigitsValue(body)))
    else
      None
  }

  /** A string with no white space at either end is its own trimmed form. */
  lemma TrimUntouched(s: string)
    requires s != [] && !IsWhite(s[0]) && !IsWhite(s[|s| - 1])
    ensures Trim(s) == s
  {
    assert TrimStart(s) == s;
  }

  /** Parsing the text `ToString()` writes for a 32-bit integer gives the integer back. */
  lemma ParseIntRoundTrip(n: int)
    requires InInt32(n)
    ensures ParseInt(IntToString(n)) == Some(n)
  {
    var s := IntToString(n);
    var digits := NatToString(if n < 0 then -n else n);
    assert !IsWhite(s[|s| - 1]) by {
      assert s[|s| - 1] == digits[|digits| - 1];
      assert IsDigit(digits[|digits| - 1]);
    }
    assert !IsWhite(s[0]) by {
      if n >= 0 { assert IsDigit(digits[0]); }
    }
    TrimUntouched(s);
    if n < 0 {
      assert SplitSign(s) == (true, digits);
    } else {
      assert IsDigit(digits[0]);
      assert SplitSign(s) == (false, digits);
    }
  }

  // ---------------------------------------------------------------------------
  // Decimal values

  /** The decimal number `units / 10^scale`. */
  datatype Decimal = Decimal(units: int, scale: nat)

  const Zero := Decimal(0, 0)

  ghost function Value(d: Decimal): real {
    d.units as real / Pow10(d.scale) as real
  }

  /** The same number written with `scale` fraction digits. */
  function Rescale(d: Decimal, scale: nat): (r: Decimal)
    requires scale >= d.scale
    ensures r.scale == scale && Value(r) == Value(d)
  {
    var f := Pow10(scale - d.scale);
    Pow10Add(scale - d.scale, d.scale);
    ScaleFraction(d.units, f, Pow10(d.scale));
    Decimal(d.units * f, scale)
  }

  lemma ScaleFraction(u: int, f: nat, p: nat)
    requires f >= 1 && p >= 1
    ensures (u * f) as real / (f * p) as real == u as real / p as real
  {
    assert (u * f) as real == u as real * f as real;
    assert (f * p) as real == f as real * p as real;
  }

  /** `a - b`, exactly. */
  function Sub(a: Decimal, b: Decimal): (r: Decimal)
    ensures Value(r) == Value(a) - Value(b)
  {
    var scale := if a.scale >= b.scale then a.scale else b.scale;
    var a', b' := Rescale(a, scale), Rescale(b, scale);
    SubFraction(a'.units, b'.units, Pow10(scale));
    Decimal(a'.units - b'.units, scale)
  }

  lemma SubFraction(x: int, y: int, p: nat)
    requires p >= 1
    ensures (x - y) as real / p as real == x as real / p as real - y as real / p as real
  {
  }

  /** The shortest form of a decimal: no trailing zero digits after the point. */
  function Normalize(d: Decimal): (r: Decimal)
    ensures Value(r) == Value(d)
    ensures r.scale == 0 || r.units % 10 != 0
    decreases d.scale
  {
    if d.scale > 0 && d.units % 10 == 0 then
      var shorter := Decimal(d.units / 10, d.scale - 1);
      assert Value(shorter) == Value(d) by {
        assert d.units == (d.units / 10) * 10;
        ScaleFraction(d.units / 10, 10, Pow10(d.scale - 1));
      }
      Normalize(shorter)
    else
      d
  }

  /** A number's sign survives normalization. */
  lemma NormalizeSign(d: Decimal)
    ensures Normalize(d).units < 0 <==> d.units < 0
  {
    NegativeValue(d);
    NegativeValue(Normalize(d));
  }

  function Magnitude(u: int): nat {
    if u < 0 then -u else u
  }

  /** The digits before the point of `m / p`. */
  function WholeDigits(m: nat, p: nat): (s: string)
    requires p >= 1
    ensures s != [] && AllDigits(s) && DigitsValue(s) == m / p
  {
    NatToString(m / p)
  }

  /** The `k` digits after the point of `m / p` where `p` is `10^k`, leading zeros kept. */
  function FractionDigits(m: nat, p: nat, k: nat): (s: string)
    requires k >= 1 && p == Pow10(k)
    ensures |s| == k && AllDigits(s) && DigitsValue(s) == m % p
  {
    ZeroPadded(m % p, k)
  }

  /** The whole and fraction digits together spell `m`. */
  lemma DigitsSplit(m: nat, p: nat, k: nat)
    requires k >= 1 && p == Pow10(k)
    ensures AllDigits(WholeDigits(m, p) + FractionDigits(m, p, k))
    ensures DigitsValue(WholeDigits(m, p) + FractionDigits(m, p, k)) == m
  {
    var a, b := WholeDigits(m, p), FractionDigits(m, p, k);
    DigitsValueAppend(a, b);
    DivModParts(m, p, DigitsValue(a), DigitsValue(b));
  }

  lemma DivModParts(m: nat, p: nat, q: nat, r: nat)
    requires p >= 1 && q == m / p && r == m % p
    ensures q * p + r == m
  {
  }

  /** The digits of `m / 10^scale` without a sign: a point and the fraction digits
      appear only when `scale` is positive. */
  function UnsignedText(m: nat, scale: nat): (t: string)
    ensures t != [] && IsDigit(t[0]) && IsDigit(t[|t| - 1])
  {
    var p := Pow10(scale);
    if scale == 0 then
      var t := WholeDigits(m, 1);
      assert IsDigit(t[|t| - 1]);
      t
    else
      var whole, fraction := WholeDigits(m, p), FractionDigits(m, p, scale);
      var t := whole + "." + fraction;
      assert t[0] == whole[0] && IsDigit(whole[0]);
      assert t[|t| - 1] == fraction[scale - 1] && IsDigit(fraction[scale - 1]);
      t
  }

  /** `double.ToString()` of the value: an optional minus sign, the integer digits,
      and a point with the fraction digits when the fraction is not zero. */
  function Render(d: Decimal): (t: string)
    ensures t != [] && (t[0] == '-' <==> Value(d) < 0.0)
  {
    var n := Normalize(d);
    var text := UnsignedText(Magnitude(n.units), n.scale);
    NormalizeSign(d);
    NegativeValue(d);
    SignedText(n.units < 0, text)
  }

  /** Digits with a minus sign before them when `negative`. */
  function SignedText(negative: bool, text: string): string {
    if negative then "-" + text else text
  }

  /** Trimming and splitting the sign off a signed digit text recovers the sign and
      the digits. */
  lemma SignedTextSplits(negative: bool, text: string)
    requires text != [] && IsDigit(text[0]) && IsDigit(text[|text| - 1])
    ensures SplitSign(Trim(SignedText(negative, text))) == (negative, text)
  {
    var s := SignedText(negative, text);
    if negative {
      assert s[1..] == text;
      assert s[|s| - 1] == text[|text| - 1];
    }
    TrimUntouched(s);
  }

  lemma NegativeValue(d: Decimal)
    ensures Value(d) < 0.0 <==> d.units < 0
  {
    var p := Pow10(d.scale) as real;
    assert p > 0.0;
    assert Value(d) == d.units as real / p;
  }

  /** Digits with at most one decimal point and at least one digit, read as a
      non-negative decimal with as many fraction digits as follow the point. */
  function ParseUnsigned(body: string): Option<Decimal> {
    var point := IndexOf(body, '.');
    var whole := if point < 0 then body else body[..point];
    var fraction := if point < 0 then "" else body[point + 1..];
    if whole + fraction != [] && AllDigits(whole) && AllDigits(fraction) then
      DigitsValueAppend(whole, fraction);
      Some(Decimal(DigitsValue(whole + fraction), |fraction|))
    else
      None
  }

  /** `double.Parse` for plain decimal notation: surrounding white space, an optional
      sign, digits with at most one decimal point, at least one digit. None stands for
      the exception the call throws. */
  function ParseDecimal(s: string): Option<Decimal> {
    var (negative, body) := SplitSign(Trim(s));
    match ParseUnsigned(body)
    case None => None
    case Some(u) => Some(Decimal(Signed(negative, u.units), u.scale))
  }

  /** Blank text, or a sign without digits, is rejected, and only a leading minus
      sign gives a negative number. */
  lemma ParseDecimalShape(s: string)
    ensures Trim(s) == [] || Trim(s) == "-" || Trim(s) == "+" ==> ParseDecimal(s) == None
    ensures ParseDecimal(s).Some? && ParseDecimal(s).value.units < 0 ==> Trim(s)[0] == '-'
  {
  }

  lemma {:induction false} UnsignedRoundTrip(m: nat, scale: nat)
    ensures ParseUnsigned(UnsignedText(m, scale)) == Some(Decimal(m, scale))
  {
    var t := UnsignedText(m, scale);
    var p := Pow10(scale);
    if scale == 0 {
      forall i | 0 <= i < |t| ensures t[i] != '.' {
        assert IsDigit(t[i]);
      }
      assert t + "" == t;
      DivModParts(m, 1, m / 1, m % 1);
    } else {
      var whole, fraction := WholeDigits(m, p), FractionDigits(m, p, scale);
      forall i | 0 <= i < |whole| ensures t[i] != '.' {
        assert t[i] == whole[i] && IsDigit(whole[i]);
      }
      IndexOfAt(t, '.', |whole|);
      var point := |whole|;
      assert t[..point] == whole;
      assert t[point + 1..] == fraction;
      DigitsSplit(m, p, scale);
    }
  }

  /** Parsing what `Render` writes gives back the same number, in its shortest form. */
  lemma RenderRoundTrip(d: Decimal)
    ensures ParseDecimal(Render(d)) == Some(Normalize(d))
  {
    var n := Normalize(d);
    var text := UnsignedText(Magnitude(n.units), n.scale);
    SignedTextSplits(n.units < 0, text);
    UnsignedRoundTrip(Magnitude(n.units), n.scale);
    assert Signed(n.units < 0, Magnitude(n.units)) == n.units;
  }

  // ---------------------------------------------------------------------------
  // Milliseconds

  /** `num / den` rounded to the nearest integer, halves to the even neighbour
      (the rounding `Convert.ToInt32(double)` applies). */
  function RoundHalfEven(num: int, den: int): (r: int)
    requires den >= 1
    ensures -den <= 2 * (num - r * den) <= den
    ensures 2 * (num - r * den) == den ==> r % 2 == 0
    ensures 2 * (num - r * den) == -den ==> r % 2 == 0
  {
    var q, rem := num / den, num % den;
    RoundingCandidates(num, den);
    if 2 * rem < den then q
    else if 2 * rem > den then q + 1
    else if q % 2 == 0 then q
    else q + 1
  }

  /** The distances from `num` to the multiples of `den` just below and just above it. */
  lemma RoundingCandidates(num: int, den: int)
    requires den >= 1
    ensures num - (num / den) * den == num % den
    ensures num - (num / den + 1) * den == num % den - den
    ensures 0 <= num % den < den
  {
    var q := num / den;
    assert num == q * den + num % den;
    assert (q + 1) * den == q * den + den;
  }

  /** `Convert.ToInt32(seconds * 1000)`: the number of milliseconds, rounded half to
      even; None stands for the OverflowException outside the 32-bit range. */
  function ToMilliseconds(seconds: Decimal): (r: Option<int>)
    ensures r.Some? <==> InInt32(RoundHalfEven(seconds.units * 1000, Pow10(seconds.scale)))
    ensures r.Some? ==> r.value == RoundHalfEven(seconds.units * 1000, Pow10(seconds.scale))
    ensures r.Some? ==>
      var p: int := Pow10(seconds.scale);
      -p <= 2 * (seconds.units * 1000 - r.value * p) <= p
  {
    var ms := RoundHalfEven(seconds.units * 1000, Pow10(seconds.scale));
    if InInt32(ms) then Some(ms) else None
  }

  /** A duration that is a whole number of milliseconds converts exactly. */
  lemma ExactMilliseconds(seconds: Decimal, ms: int)
    requires seconds.units * 1000 == ms * Pow10(seconds.scale) && InInt32(ms)
    ensures ToMilliseconds(seconds) == Some(ms)
  {
    ExactQuotient(seconds.units * 1000, Pow10(seconds.scale), ms);
  }

  lemma ExactQuotient(num: int, den: int, q: int)
    requires den >= 1 && num == q * den
    ensures num / den == q && num % den == 0
  {
    var d := q - num / den;
    assert d * den == num % den by {
      assert num == (num / den) * den + num % den;
      assert q * den == d * den + (num / den) * den;
    }
    SmallMultiple(d, den);
  }

  lemma SmallMultiple(d: int, den: int)
    requires den >= 1 && 0 <= d * den < den
    ensures d == 0
  {
  }
}
