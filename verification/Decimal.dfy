/**
 Decimal text: digit strings and their values, and the parser that turns a
 decimal option into an integer count of units.
 */
module Decimal {
  import opened Arith

  predicate IsDigit(c: char) { '0' <= c <= '9' }

  predicate AllDigits(text: string) { forall i :: 0 <= i < |text| ==> IsDigit(text[i]) }

  function DigitOf(c: char): nat
    requires IsDigit(c)
  {
    c as int - '0' as int
  }

  function DigitChar(digit: nat): (c: char)
    requires digit < 10
    ensures IsDigit(c) && DigitOf(c) == digit
  {
    (digit + '0' as int) as char
  }

  function Pow10(n: nat): (r: nat)
    ensures r >= 1
  {
    if n == 0 then 1 else 10 * Pow10(n - 1)
  }

  /** The number a digit string denotes. */
  function DigitsValue(digits: string): nat
    requires AllDigits(digits)
  {
    if digits == "" then 0
    else 10 * DigitsValue(digits[..|digits| - 1]) + DigitOf(digits[|digits| - 1])
  }

  /** How many digits a text starts with. */
  function LeadingDigits(text: string): (n: nat)
    ensures n <= |text| && AllDigits(text[..n]) && (n < |text| ==> !IsDigit(text[n]))
  {
    if text == "" || !IsDigit(text[0]) then 0
    else
      var n := LeadingDigits(text[1..]);
      assert forall i :: 0 < i <= n ==> text[i] == text[1..][i - 1];
      n + 1
  }

  datatype Error = Empty | Invalid | TooLarge | MorePrecision
  datatype Result = Ok(value: u64) | Err(error: Error)

  /** The digits after the point, added at ever smaller places while a place is a whole number of units. */
  function Fraction(value: u64, place: nat, digits: string): Result
    requires 0 < place <= U64_MAX && AllDigits(digits)
    decreases |digits|
  {
    if digits == "" then Ok(value)
    else
      var digit := DigitOf(digits[0]);
      if place % 10 != 0 then
        if digit != 0 then Err(MorePrecision) else Fraction(value, place, digits[1..])
      else if value > U64_MAX - digit * (place / 10) then Err(TooLarge)
      else Fraction(value + digit * (place / 10), place / 10, digits[1..])
  }

  /** A decimal of units, stored multiplied by scale. */
  function Parse(text: string, scale: u64): Result
    requires scale > 0
  {
    var n := LeadingDigits(text);
    if text == "" then Err(Empty)
    else if n == 0 then Err(Invalid)
    else if DigitsValue(text[..n]) > U64_MAX / scale then Err(TooLarge)
    else
      ScaledFits(DigitsValue(text[..n]), scale);
      var value: u64 := DigitsValue(text[..n]) * scale;
      if n == |text| then Ok(value)
      else if text[n] != '.' || n + 1 == |text| || !AllDigits(text[n + 1..]) then Err(Invalid)
      else Fraction(value, scale, text[n + 1..])
  }

  lemma ScaledFits(whole: nat, scale: u64)
    requires scale > 0
    ensures 0 <= whole * scale
    ensures whole <= U64_MAX / scale <==> whole * scale <= U64_MAX
  {
    DivisionParts(U64_MAX, scale);
    MulNonNegative(whole, scale);
    FitsByQuotient(whole, scale, U64_MAX / scale, U64_MAX % scale, U64_MAX);
  }

  lemma FitsByQuotient(whole: nat, scale: nat, q: int, r: int, most: int)
    requires most == q * scale + r && 0 <= r < scale
    ensures whole <= q <==> whole * scale <= most
  {
    if whole <= q { MulMonotone(whole, q, scale); }
    if whole > q { MulMonotone(q + 1, whole, scale); }
  }

  /** The run of digits from a place on. */
  method SpanDigits(text: string, from: nat) returns (end: nat)
    requires from <= |text|
    ensures end == from + LeadingDigits(text[from..])
  {
    end := from;
    while end < |text| && IsDigit(text[end])
      invariant from <= end <= |text|
      invariant end + LeadingDigits(text[end..]) == from + LeadingDigits(text[from..])
    {
      assert text[end..][1..] == text[end + 1..];
      end := end + 1;
    }
  }

  method ParseUnsigned(digits: string) returns (ok: bool, value: u64)
    requires AllDigits(digits)
    ensures ok == (digits != "" && DigitsValue(digits) <= U64_MAX)
    ensures ok ==> value == DigitsValue(digits)
  {
    ok, value := digits != "", 0;
    for i := 0 to |digits|
      invariant ok ==> value == DigitsValue(digits[..i])
      invariant !ok ==> digits == "" || DigitsValue(digits[..i]) > U64_MAX
      invariant digits == "" ==> !ok
    {
      assert digits[..i + 1][..i] == digits[..i];
      if ok && 10 * value + DigitOf(digits[i]) <= U64_MAX {
        value := 10 * value + DigitOf(digits[i]);
      } else {
        ok := false;
      }
    }
    assert digits[..|digits|] == digits;
  }

  method ParseScaled(text: string, scale: u64) returns (r: Result)
    requires scale > 0
    ensures r == Parse(text, scale)
  {
    var cursor := SpanDigits(text, 0);
    assert text[0..] == text;
    if text == "" {
      return Err(Empty);
    }
    if cursor == 0 {
      return Err(Invalid);
    }
    var ok, whole := ParseUnsigned(text[..cursor]);
    QuotientAtMost(U64_MAX, scale);
    if !ok || whole > U64_MAX / scale {
      return Err(TooLarge);
    }
    ScaledFits(whole, scale);
    var scaled: u64 := whole * scale;
    if cursor != |text| {
      if text[cursor] != '.' || cursor + 1 == |text| {
        return Err(Invalid);
      }
      var end := SpanDigits(text, cursor + 1);
      EndIffAllDigits(text[cursor + 1..]);
      if end != |text| {
        return Err(Invalid);
      }
      r := AddFraction(text[cursor + 1..], scaled, scale);
      return;
    }
    r := Ok(scaled);
  }

  lemma EndIffAllDigits(text: string)
    ensures LeadingDigits(text) == |text| <==> AllDigits(text)
  {
    assert text[..|text|] == text;
  }

  method AddFraction(digits: string, start: u64, scale: u64) returns (r: Result)
    requires scale > 0 && AllDigits(digits)
    ensures r == Fraction(start, scale, digits)
  {
    var value: u64, place: nat := start, scale;
    for i := 0 to |digits|
      invariant 0 < place <= U64_MAX
      invariant Fraction(value, place, digits[i..]) == Fraction(start, scale, digits)
    {
      var digit := DigitOf(digits[i]);
      assert digits[i..][1..] == digits[i + 1..];
      if place % 10 != 0 {
        if digit != 0 {
          return Err(MorePrecision);
        }
        continue;
      }
      if value > U64_MAX - digit * (place / 10) {
        return Err(TooLarge);
      }
      value := value + digit * (place / 10);
      place := place / 10;
    }
    r := Ok(value);
  }

  // ----- what a text denotes

  lemma {:induction false} ValueOfJoined(a: string, b: string)
    requires AllDigits(a) && AllDigits(b)
    ensures AllDigits(a + b) && DigitsValue(a + b) == DigitsValue(a) * Pow10(|b|) + DigitsValue(b)
  {
    if b == "" {
      assert a + b == a;
    } else {
      var front := b[..|b| - 1];
      ValueOfJoined(a, front);
      assert (a + b)[..|a + b| - 1] == a + front;
      TenTimes(DigitsValue(a), Pow10(|front|));
    }
  }

  lemma {:induction false} PowersJoin(a: nat, b: nat)
    ensures Pow10(a) * Pow10(b) == Pow10(a + b)
  {
    if a == 0 {
    } else {
      PowersJoin(a - 1, b);
      ThreeFactors(10, Pow10(a - 1), Pow10(b));
    }
  }

  lemma ThreeFactors(a: int, b: int, c: int)
    ensures a * b * c == a * (b * c)
  {}

  lemma TenTimes(a: int, p: int)
    ensures a * (10 * p) == 10 * (a * p)
  {}

  /** What digits after the point are worth, in units, when a unit is worth place of the first. */
  function Worth(place: nat, digits: string): nat
    requires AllDigits(digits)
  {
    if digits == "" || place % 10 != 0 then 0
    else DigitOf(digits[0]) * (place / 10) + Worth(place / 10, digits[1..])
  }

  /** Every digit past the last place that is a whole number of units is zero. */
  predicate Storable(place: nat, digits: string)
    requires AllDigits(digits)
  {
    if digits == "" then true
    else if place % 10 != 0 then DigitOf(digits[0]) == 0 && Storable(place, digits[1..])
    else Storable(place / 10, digits[1..])
  }

  /** The fraction's loop is exact: it fails for a digit it cannot store, or when the sum does not fit. */
  lemma {:induction false} FractionIsExact(value: u64, place: nat, digits: string)
    requires 0 < place <= U64_MAX && AllDigits(digits)
    decreases |digits|
    ensures Fraction(value, place, digits).Ok? <==> Storable(place, digits) && value + Worth(place, digits) <= U64_MAX
    ensures Fraction(value, place, digits).Ok? ==> Fraction(value, place, digits).value == value + Worth(place, digits)
    ensures Fraction(value, place, digits) == Err(TooLarge) ==> value + Worth(place, digits) > U64_MAX
    ensures Fraction(value, place, digits) == Err(MorePrecision) ==> !Storable(place, digits)
    ensures Fraction(value, place, digits).Err? ==> Fraction(value, place, digits).error in {TooLarge, MorePrecision}
  {
    if digits == "" {
    } else {
      var digit := DigitOf(digits[0]);
      if place % 10 != 0 {
        FractionIsExact(value, place, digits[1..]);
        WorthOfNothing(place, digits[1..]);
      } else {
        MulNonNegative(digit, place / 10);
        if value + digit * (place / 10) <= U64_MAX {
          FractionIsExact(value + digit * (place / 10), place / 10, digits[1..]);
        }
      }
    }
  }

  lemma WorthOfNothing(place: nat, digits: string)
    requires AllDigits(digits) && place % 10 != 0
    ensures Worth(place, digits) == 0
  {}

  lemma {:induction false} ZerosAreNothing(place: nat, digits: string)
    requires AllDigits(digits) && place % 10 != 0
    ensures Storable(place, digits) <==> DigitsValue(digits) == 0
  {
    if digits == "" {
    } else {
      ZerosAreNothing(place, digits[1..]);
      FirstDigitFirst(digits);
      if DigitOf(digits[0]) > 0 { MulMonotone(1, DigitOf(digits[0]), Pow10(|digits| - 1)); }
    }
  }

  lemma FirstDigitFirst(digits: string)
    requires AllDigits(digits) && digits != ""
    ensures DigitsValue(digits) == DigitOf(digits[0]) * Pow10(|digits| - 1) + DigitsValue(digits[1..])
  {
    var first := digits[..1];
    assert first + digits[1..] == digits;
    assert first[..0] == "";
    ValueOfJoined(first, digits[1..]);
    assert DigitsValue(first) == DigitOf(digits[0]);
  }

  /** The worth of storable digits is exactly the number they denote times a unit's. */
  lemma {:induction false} WorthIsExact(place: nat, digits: string)
    requires AllDigits(digits) && Storable(place, digits)
    ensures Worth(place, digits) * Pow10(|digits|) == DigitsValue(digits) * place
  {
    if digits == "" {
    } else if place % 10 != 0 {
      ZerosAreNothing(place, digits);
    } else {
      var p, d, u := Pow10(|digits| - 1), DigitOf(digits[0]), place / 10;
      var w, v := Worth(u, digits[1..]), DigitsValue(digits[1..]);
      WorthIsExact(u, digits[1..]);
      FirstDigitFirst(digits);
      assert place == 10 * u;
      DigitSplits(d, u, w, p, v);
    }
  }

  lemma DigitSplits(d: nat, u: nat, w: nat, p: nat, v: nat)
    requires w * p == v * u
    ensures (d * u + w) * (10 * p) == (d * p + v) * (10 * u)
  {
    assert (d * u + w) * p == d * u * p + w * p;
    assert (d * p + v) * u == d * p * u + v * u;
    assert d * u * p == d * p * u;
  }

  lemma {:induction false} ValueIsSmall(digits: string)
    requires AllDigits(digits)
    ensures DigitsValue(digits) < Pow10(|digits|)
  {
    if digits == "" {
    } else {
      ValueIsSmall(digits[..|digits| - 1]);
    }
  }

  /** A text that is digits, or digits, a point and digits; and its parts. */
  predicate WellFormed(text: string)
  {
    var n := LeadingDigits(text);
    n > 0 && (n == |text| || (text[n] == '.' && n + 1 < |text| && AllDigits(text[n + 1..])))
  }

  function WholePart(text: string): (r: string)
    ensures AllDigits(r)
  {
    text[..LeadingDigits(text)]
  }

  function FractionPart(text: string): (r: string)
    requires WellFormed(text)
    ensures AllDigits(r)
  {
    var n := LeadingDigits(text);
    if n == |text| then "" else text[n + 1..]
  }

  /** A stored value is the text's number in units: its digits without the point, over a power of ten, times scale. */
  ghost predicate Denotes(text: string, scale: u64, units: int)
    requires WellFormed(text)
  {
    var whole, fraction := WholePart(text), FractionPart(text);
    AllDigits(whole + fraction) && units * Pow10(|fraction|) == DigitsValue(whole + fraction) * scale
  }

  lemma DenotedIsSum(text: string, scale: u64, units: int)
    requires scale > 0 && WellFormed(text) && Storable(scale, FractionPart(text))
    ensures Denotes(text, scale, units)
       <==> units == DigitsValue(WholePart(text)) * scale + Worth(scale, FractionPart(text))
  {
    var whole, fraction := WholePart(text), FractionPart(text);
    var p, w, v := Pow10(|fraction|), DigitsValue(whole), Worth(scale, fraction);
    ValueOfJoined(whole, fraction);
    WorthIsExact(scale, fraction);
    SumDenoted(units, w, scale, p, DigitsValue(fraction), v);
  }

  lemma SumDenoted(units: int, w: int, scale: int, p: nat, f: int, v: int)
    requires v * p == f * scale && p >= 1
    ensures units * p == (w * p + f) * scale <==> units == w * scale + v
  {
    WholePeels(w, scale, p, f);
    Distributes(w * scale, v, p);
    OneMultiple(units, w * scale + v, p);
  }

  lemma WholePeels(w: int, scale: int, p: int, f: int)
    ensures (w * p + f) * scale == w * scale * p + f * scale
  {
    Distributes(w * p, f, scale);
    assert w * p * scale == w * scale * p;
  }

  lemma Distributes(a: int, b: int, c: int)
    ensures (a + b) * c == a * c + b * c
  {}

  lemma OneMultiple(a: int, b: int, p: nat)
    requires p >= 1
    ensures a * p == b * p <==> a == b
  {
    if a < b { MulMonotone(a + 1, b, p); }
    if a > b { MulMonotone(b + 1, a, p); }
  }

  /** The digits before the point, or those and the storable ones after it, are worth too much. */
  predicate ExceedsRange(text: string, scale: u64)
  {
    DigitsValue(WholePart(text)) * scale > U64_MAX
    || (WellFormed(text) && DigitsValue(WholePart(text)) * scale + Worth(scale, FractionPart(text)) > U64_MAX)
  }

  /**
   A text is accepted exactly when it is a decimal, has no nonzero digit past the
   last place that is a whole number of units, and its value fits; and the stored
   value is then the number it denotes, exactly.
   */
  lemma ParseIsExact(text: string, scale: u64)
    requires scale > 0
    ensures Parse(text, scale).Ok? <==>
      WellFormed(text) && Storable(scale, FractionPart(text))
      && DigitsValue(WholePart(text)) * scale + Worth(scale, FractionPart(text)) <= U64_MAX
    ensures Parse(text, scale).Ok? ==> Denotes(text, scale, Parse(text, scale).value)
    ensures Parse(text, scale) == Err(MorePrecision) ==> WellFormed(text) && !Storable(scale, FractionPart(text))
    ensures Parse(text, scale) == Err(TooLarge) ==> ExceedsRange(text, scale)
    ensures Parse(text, scale) == Err(Invalid) ==> text != "" && !WellFormed(text)
    ensures Parse(text, scale) == Err(Empty) <==> text == ""
  {
    ScaledFits(DigitsValue(WholePart(text)), scale);
    if WellFormed(text) {
      if DigitsValue(WholePart(text)) * scale <= U64_MAX {
        FractionIsExact(DigitsValue(WholePart(text)) * scale, scale, FractionPart(text));
      }
      if Storable(scale, FractionPart(text)) && Parse(text, scale).Ok? {
        DenotedIsSum(text, scale, Parse(text, scale).value);
      }
    }
  }

  lemma TensDivide(a: int, q: int)
    requires a == 10 * q
    ensures a % 10 == 0 && a / 10 == q
  {}
}
