/**
 When the parser's "more precision than stored" is the truth: for which scales it
 refuses only numbers that are no whole number of units.
 */
module Precision {
  import opened Arith
  import opened Decimal
  import opened Options

  /** A scale without its factors of ten: the place at which the parser stops taking digits. */
  function Core(scale: nat): (r: nat)
    requires scale > 0
    ensures 0 < r <= scale && r % 10 != 0
  {
    if scale % 10 == 0 then Core(scale / 10) else scale
  }

  function Tens(scale: nat): nat
    requires scale > 0
  {
    if scale % 10 == 0 then Tens(scale / 10) + 1 else 0
  }

  /** A refusal for precision is the truth: no text refused for it denotes a whole number of units. */
  ghost predicate Truthful(scale: u64)
    requires scale > 0
  {
    forall text: string :: Parse(text, scale) == Err(MorePrecision) ==> !DenotesUnits(text, scale)
  }

  ghost predicate DenotesUnits(text: string, scale: u64)
  {
    WellFormed(text) && exists units: int :: Denotes(text, scale, units)
  }

  // ----- scales whose core has no factor of ten's

  predicate NoFactorOfTen(n: nat) { n % 2 != 0 && n % 5 != 0 }

  lemma NoTenthOf(v: nat, c: nat)
    requires NoFactorOfTen(c) && (v * c) % 10 == 0
    ensures v % 10 == 0
  {
    LastDigits(v, c);
    assert c % 10 in {1, 3, 7, 9} by { OddLastDigit(c, c / 10, c % 10); }
    OnlyZeroTimes(v % 10, c % 10);
  }

  lemma OddLastDigit(c: nat, q: nat, r: nat)
    requires NoFactorOfTen(c) && c == 10 * q + r && r < 10
    ensures r in {1, 3, 7, 9}
  {
    assert c % 2 == r % 2 && c % 5 == r % 5;
  }

  lemma OnlyZeroTimes(b: nat, r: nat)
    requires b < 10 && r in {1, 3, 7, 9} && (b * r) % 10 == 0
    ensures b == 0
  {
    if r == 1 {
      assert b * r == b;
    } else if r == 3 {
      assert b * r == 3 * b;
    } else if r == 7 {
      assert b * r == 7 * b;
    } else {
      assert b * r == 9 * b;
    }
  }

  lemma LastDigits(v: nat, c: nat)
    ensures (v * c) % 10 == ((v % 10) * (c % 10)) % 10
  {
    var a, b, q, r := v / 10, v % 10, c / 10, c % 10;
    assert v == 10 * a + b && c == 10 * q + r;
    ProductParts(a, b, q, r);
    TensAreZero(10 * a * q + a * r + b * q, b * r);
  }

  lemma ProductParts(a: int, b: int, q: int, r: int)
    ensures (10 * a + b) * (10 * q + r) == 10 * (10 * a * q + a * r + b * q) + b * r
  {
    assert (10 * a + b) * (10 * q + r) == 10 * a * (10 * q + r) + b * (10 * q + r);
    assert 10 * a * (10 * q + r) == 10 * (10 * a * q) + 10 * (a * r);
    assert b * (10 * q + r) == 10 * (b * q) + b * r;
  }

  lemma TensAreZero(a: int, b: int)
    ensures (10 * a + b) % 10 == b % 10
  {}

  /** A fraction of such a scale is a whole number only when it is nothing. */
  lemma {:induction false} OnlyZeroFits(units: int, v: nat, n: nat, c: nat)
    requires NoFactorOfTen(c) && units * Pow10(n) == v * c && v < Pow10(n)
    ensures v == 0
  {
    if n == 0 {
    } else {
      OneTenth(units, v, c, Pow10(n - 1));
      OnlyZeroFits(units, v / 10, n - 1, c);
    }
  }

  lemma OneTenth(units: int, v: nat, c: nat, p: nat)
    requires NoFactorOfTen(c) && units * (10 * p) == v * c && v < 10 * p
    ensures v % 10 == 0 && units * p == (v / 10) * c && v / 10 < p
  {
    TenTimes(units, p);
    TensAreZero(units * p, 0);
    NoTenthOf(v, c);
    TenthOfProduct(units * p, v / 10, c, v);
  }

  lemma TenthOfProduct(a: int, w: int, c: int, v: int)
    requires v == 10 * w && v * c == 10 * a
    ensures a == w * c
  {
    assert v * c == 10 * (w * c);
  }

  /** At such a scale every exactly stored number is storable. */
  lemma {:induction false} WholeUnitsStore(place: nat, digits: string, units: int)
    requires place > 0 && NoFactorOfTen(Core(place))
    requires AllDigits(digits) && units * Pow10(|digits|) == DigitsValue(digits) * place
    ensures Storable(place, digits)
    decreases |digits|
  {
    if digits == "" {
    } else if place % 10 != 0 {
      ValueIsSmall(digits);
      OnlyZeroFits(units, DigitsValue(digits), |digits|, place);
      ZerosAreNothing(place, digits);
    } else {
      var p, q, d, v := Pow10(|digits| - 1), place / 10, DigitOf(digits[0]), DigitsValue(digits[1..]);
      FirstDigitFirst(digits);
      DigitTakenOff(units, d, q, p, v);
      WholeUnitsStore(q, digits[1..], units - d * q);
    }
  }

  lemma DigitTakenOff(units: int, d: int, q: int, p: int, v: int)
    requires units * (10 * p) == (d * p + v) * (10 * q)
    ensures (units - d * q) * p == v * q
  {
    Tenth(units * p, (d * p + v) * q, units, p, d * p + v, q);
    WholeTakenOff(units, d, q, p, v);
  }

  lemma Tenth(a: int, b: int, units: int, p: int, v: int, q: int)
    requires a == units * p && b == v * q && units * (10 * p) == v * (10 * q)
    ensures a == b
  {
    assert units * (10 * p) == 10 * a;
    assert v * (10 * q) == 10 * b;
  }

  lemma WholeTakenOff(units: int, w: int, scale: int, p: int, f: int)
    requires units * p == (w * p + f) * scale
    ensures (units - w * scale) * p == f * scale
  {
    WholePeels(w, scale, p, f);
    Distributes(units - w * scale, w * scale, p);
  }

  lemma FractionStores(w: nat, fraction: string, scale: u64, units: int)
    requires scale > 0 && NoFactorOfTen(Core(scale)) && AllDigits(fraction)
    requires units * Pow10(|fraction|) == (w * Pow10(|fraction|) + DigitsValue(fraction)) * scale
    ensures Storable(scale, fraction)
  {
    WholeTakenOff(units, w, scale, Pow10(|fraction|), DigitsValue(fraction));
    WholeUnitsStore(scale, fraction, units - w * scale);
  }

  lemma RefusedIsNoWholeNumber(text: string, scale: u64)
    requires scale > 0 && NoFactorOfTen(Core(scale)) && Parse(text, scale) == Err(MorePrecision)
    ensures !DenotesUnits(text, scale)
  {
    ParseIsExact(text, scale);
    if DenotesUnits(text, scale) {
      var units: int :| Denotes(text, scale, units);
      ValueOfJoined(WholePart(text), FractionPart(text));
      FractionStores(DigitsValue(WholePart(text)), FractionPart(text), scale, units);
    }
  }

  // ----- other scales

  function Zeros(n: nat): (r: string)
    ensures |r| == n && AllDigits(r)
  {
    if n == 0 then "" else "0" + Zeros(n - 1)
  }

  /** The digit whose share of a core with a factor of ten's is a whole number. */
  function OddDigit(core: nat): nat { if core % 2 == 0 then 5 else 2 }

  /** A text refused although it is a whole number of units: the first digit past the last whole place. */
  function RefusedText(scale: u64): string
    requires scale > 0
  {
    "0." + Zeros(Tens(scale)) + [DigitChar(OddDigit(Core(scale)))]
  }

  lemma {:induction false} ZerosAddNothing(value: u64, place: nat, last: char)
    requires 0 < place <= U64_MAX && IsDigit(last) && last != '0'
    ensures AllDigits(Zeros(Tens(place)) + [last])
    ensures Fraction(value, place, Zeros(Tens(place)) + [last]) == Err(MorePrecision)
    decreases place
  {
    var digits := Zeros(Tens(place)) + [last];
    if place % 10 != 0 {
      assert digits == [last];
    } else {
      assert digits[1..] == Zeros(Tens(place / 10)) + [last];
      ZerosAddNothing(value, place / 10, last);
      assert DigitOf(digits[0]) == 0;
    }
  }

  lemma {:induction false} ZerosAreZero(n: nat, last: char)
    requires IsDigit(last)
    ensures AllDigits("0" + (Zeros(n) + [last])) && DigitsValue("0" + (Zeros(n) + [last])) == DigitOf(last)
  {
    assert DigitsValue(Zeros(n)) == 0 by { ZerosValue(n); }
    ValueOfJoined(Zeros(n), [last]);
    assert [last][..0] == "";
    ValueOfJoined("0", Zeros(n) + [last]);
    assert "0"[..0] == "";
  }

  lemma {:induction false} ZerosValue(n: nat)
    ensures DigitsValue(Zeros(n)) == 0
  {
    if n == 0 {
    } else {
      ZerosValue(n - 1);
      FirstDigitFirst(Zeros(n));
      assert Zeros(n)[1..] == Zeros(n - 1);
    }
  }

  lemma {:induction false} ScaleParts(scale: nat)
    requires scale > 0
    ensures scale == Core(scale) * Pow10(Tens(scale))
  {
    if scale % 10 != 0 {
    } else {
      ScaleParts(scale / 10);
      TenTimes(Core(scale), Pow10(Tens(scale / 10)));
    }
  }

  lemma RefusedParts(scale: u64)
    requires scale > 0
    ensures var text, fraction := RefusedText(scale), Zeros(Tens(scale)) + [DigitChar(OddDigit(Core(scale)))];
      LeadingDigits(text) == 1 && text[..1] == "0" && text[1] == '.' && text[2..] == fraction && AllDigits(fraction)
  {
    var text := RefusedText(scale);
    assert text[0] == '0' && text[1] == '.';
    assert text[1..][0] == '.';
    assert text[..1] == "0";
    assert text[2..] == Zeros(Tens(scale)) + [DigitChar(OddDigit(Core(scale)))];
  }

  lemma RefusedDenotes(scale: u64)
    requires scale > 0 && !NoFactorOfTen(Core(scale))
    ensures WellFormed(RefusedText(scale))
    ensures Denotes(RefusedText(scale), scale, OddDigit(Core(scale)) * Core(scale) / 10)
  {
    var digit := OddDigit(Core(scale));
    RefusedParts(scale);
    ZerosAreZero(Tens(scale), DigitChar(digit));
    ScaleParts(scale);
    WholeTenth(digit, Core(scale));
    UnitsOfDigit(digit * Core(scale) / 10, digit, Core(scale), Pow10(Tens(scale)), scale);
  }

  lemma WholeTenth(digit: int, core: nat)
    requires !NoFactorOfTen(core) && digit == OddDigit(core)
    ensures digit * core / 10 * 10 == digit * core
  {
    if core % 2 == 0 {
      FiveHalves(core);
      TenthBack(digit * core, core / 2);
    } else {
      TwoFifths(core);
      TenthBack(digit * core, core / 5);
    }
  }

  lemma FiveHalves(core: nat)
    requires core % 2 == 0
    ensures 5 * core == 10 * (core / 2)
  {}

  lemma TwoFifths(core: nat)
    requires core % 5 == 0
    ensures 2 * core == 10 * (core / 5)
  {}

  lemma TenthBack(product: int, tenth: int)
    requires product == 10 * tenth
    ensures product / 10 * 10 == product
  {}

  lemma RefusedIsWhole(scale: u64)
    requires scale > 0 && !NoFactorOfTen(Core(scale))
    ensures WellFormed(RefusedText(scale))
    ensures Parse(RefusedText(scale), scale) == Err(MorePrecision)
    ensures Denotes(RefusedText(scale), scale, OddDigit(Core(scale)) * Core(scale) / 10)
  {
    RefusedDenotes(scale);
    RefusedParts(scale);
    ZerosAddNothing(0, scale, DigitChar(OddDigit(Core(scale))));
    assert DigitsValue("0") == 0 by { assert "0"[..0] == ""; }
  }

  lemma UnitsOfDigit(units: int, digit: int, core: int, p: int, scale: int)
    requires units * 10 == digit * core && scale == core * p
    ensures units * (10 * p) == digit * scale
  {
    assert units * (10 * p) == units * 10 * p;
    assert digit * (core * p) == digit * core * p;
  }

  /**
   A refusal for precision is always the truth exactly when the scale, without its
   factors of ten, has no factor two or five.
   */
  lemma TruthfulIff(scale: u64)
    requires scale > 0
    ensures Truthful(scale) <==> NoFactorOfTen(Core(scale))
  {
    if NoFactorOfTen(Core(scale)) {
      forall text: string | Parse(text, scale) == Err(MorePrecision)
        ensures !DenotesUnits(text, scale)
      {
        RefusedIsNoWholeNumber(text, scale);
      }
    } else {
      RefusedIsWhole(scale);
      assert DenotesUnits(RefusedText(scale), scale);
    }
  }

  /** Of the scales of the option table these are one, a thousand and a million: not minutes, not kilobytes. */
  lemma TruthfulOptions(scale: u64)
    requires OptionScale(scale)
    ensures Truthful(scale) <==> scale in {1, KILOBIT, SECOND}
  {
    TruthfulIff(scale);
    assert Core(1000) == 1 by { assert Core(10) == 1; }
    assert Core(60_000_000) == 6 by { assert Core(60_000) == 6 by { assert Core(60) == 6; } }
    assert Core(1_000_000) == 1 by { assert Core(1000) == 1; }
  }

  // ----- two texts refused

  /** Half a kilobyte is 512 bytes, a whole number of units, and is refused all the same. */
  lemma HalfKilobyteIsRefused()
    ensures Parse("0.5", KILOBYTE) == Err(MorePrecision)
    ensures WellFormed("0.5") && Denotes("0.5", KILOBYTE, 512)
  {
    assert Core(KILOBYTE) == 1024 && Tens(KILOBYTE) == 0;
    assert RefusedText(KILOBYTE) == "0.5";
    RefusedIsWhole(KILOBYTE);
  }

  /** A twenty-millionth of a minute is three microseconds and is refused all the same. */
  lemma ThreeMicrosecondsAreRefused()
    ensures Parse("0.00000005", MINUTE) == Err(MorePrecision)
    ensures WellFormed("0.00000005") && Denotes("0.00000005", MINUTE, 3)
  {
    MinuteParts();
    SevenZeros();
    RefusedIsWhole(MINUTE);
  }

  lemma SevenZeros()
    ensures "0." + Zeros(7) + [DigitChar(5)] == "0.00000005"
  {
    assert Zeros(4) == "0000";
    assert Zeros(7) == "000" + Zeros(4) by { assert Zeros(5) == "0" + Zeros(4); }
  }

  lemma MinuteParts()
    ensures Core(MINUTE) == 6 && Tens(MINUTE) == 7
  {
    assert Core(60) == 6 && Tens(60) == 1;
    assert Core(60_000) == 6 && Tens(60_000) == 4;
  }
}
