/** Printing a stored option, and reading it back. */
module Options {
  import opened Arith
  import opened Decimal

  const KILOBIT: u64 := 1000
  const KILOBYTE: u64 := 1024
  const SECOND: u64 := 1_000_000
  const MINUTE: u64 := 60_000_000
  const PLACES: nat := 6

  /** The scales of the option table. */
  predicate OptionScale(scale: u64)
  {
    scale == 1 || scale == KILOBIT || scale == SECOND || scale == MINUTE || scale == KILOBYTE
  }

  function Digits(value: nat): (r: string)
    ensures AllDigits(r) && r != ""
  {
    if value < 10 then [DigitChar(value)] else Digits(value / 10) + [DigitChar(value % 10)]
  }

  /** The last width digits, with leading zeros. */
  function Padded(value: nat, width: nat): (r: string)
    ensures AllDigits(r) && |r| == width
  {
    if width == 0 then "" else Padded(value / 10, width - 1) + [DigitChar(value % 10)]
  }

  function TrimZeros(text: string): (r: string)
    ensures r <= text
  {
    if text != "" && text[|text| - 1] == '0' then TrimZeros(text[..|text| - 1]) else text
  }

  /** Only zeros are trimmed, and all of them. */
  lemma {:induction false} TrimsAllZeros(text: string)
    ensures var r := TrimZeros(text);
      && (r != "" ==> r[|r| - 1] != '0')
      && forall i :: |r| <= i < |text| ==> text[i] == '0'
  {
    if text == "" || text[|text| - 1] != '0' {
    } else {
      TrimsAllZeros(text[..|text| - 1]);
    }
  }

  function Millionths(value: u64, scale: u64): (r: nat)
    requires OptionScale(scale)
    ensures r <= RATIO_ONE_E6
  {
    var part: u64 := value % scale * RATIO_ONE_E6;
    RoundedDivideNearest(part, scale);
    RoundedDivide(part, scale)
  }

  /** What snprintf prints, before zeros are stripped, and whether they are. */
  function Printed(value: u64, scale: u64): string
    requires OptionScale(scale)
  {
    var whole, millionths := value / scale, Millionths(value, scale);
    if millionths == RATIO_ONE_E6 then Digits(whole + 1)
    else if millionths == 0 then Digits(whole)
    else Digits(whole) + "." + Padded(millionths, PLACES)
  }

  predicate HasPoint(value: u64, scale: u64)
    requires OptionScale(scale)
  {
    0 < Millionths(value, scale) < RATIO_ONE_E6
  }

  /** The text of a value in a buffer with room for it. */
  function Format(value: u64, scale: u64): string
    requires OptionScale(scale)
  {
    if HasPoint(value, scale) then TrimZeros(Printed(value, scale)) else Printed(value, scale)
  }

  /** What a buffer of a size holds: a text that does not fit is cut, with its zeros. */
  function Held(value: u64, scale: u64, size: nat): string
    requires OptionScale(scale) && size > 0
  {
    var printed := Printed(value, scale);
    if |printed| < size then Format(value, scale) else printed[..size - 1]
  }

  const NUL: char := '\0'

  /** snprintf of a whole text: as much as fits, a terminator, and the length it would have. */
  method Print(text: array<char>, printed: string) returns (length: nat)
    requires text.Length > 0
    modifies text
    ensures length == |printed|
    ensures var held := if length < text.Length then length else text.Length - 1;
      text[..held] == printed[..held] && text[held] == NUL
  {
    length := |printed|;
    var held := if length < text.Length then length else text.Length - 1;
    for i := 0 to held
      invariant forall k :: 0 <= k < i ==> text[k] == printed[k]
    {
      text[i] := printed[i];
    }
    text[held] := NUL;
  }

  /** Strips trailing zeros in place. */
  method StripZeros(text: array<char>, length: nat) returns (held: nat)
    requires length < text.Length && text[length] == NUL
    modifies text
    ensures held <= length && text[held] == NUL
    ensures text[..held] == TrimZeros(old(text[..length]))
  {
    held := length;
    while held > 0 && text[held - 1] == '0'
      invariant held <= length && text[held] == NUL
      invariant TrimZeros(text[..held]) == TrimZeros(old(text[..length]))
    {
      ghost var kept := text[..held - 1];
      assert text[..held][..held - 1] == kept;
      held := held - 1;
      text[held] := NUL;
      assert text[..held] == kept;
    }
  }

  /** Formats into a buffer; the returned length is that of the text held. */
  method FormatScaled(value: u64, scale: u64, text: array<char>) returns (held: nat)
    requires OptionScale(scale) && text.Length > 0
    modifies text
    ensures held < text.Length && text[held] == NUL
    ensures text[..held] == Held(value, scale, text.Length)
  {
    var whole: nat := value / scale;
    var millionths := Millionths(value, scale);
    if millionths == RATIO_ONE_E6 {
      whole := whole + 1;
      millionths := 0;
    }
    if millionths == 0 {
      var length := Print(text, Digits(whole));
      held := if length < text.Length then length else text.Length - 1;
      return;
    }
    var printed := Digits(whole) + "." + Padded(millionths, PLACES);
    var length := Print(text, printed);
    assert printed == Printed(value, scale);
    held := if length < text.Length then length else text.Length - 1;
    if length < text.Length {
      assert text[..length] == printed[..length] == printed;
      held := StripZeros(text, length);
    }
  }

  // ----- digits denote what they print

  lemma {:induction false} DigitsDenote(value: nat)
    ensures DigitsValue(Digits(value)) == value
  {
    if value < 10 {
      assert [DigitChar(value)][..0] == "";
    } else {
      var front := Digits(value / 10);
      DigitsDenote(value / 10);
      assert (front + [DigitChar(value % 10)])[..|front|] == front;
    }
  }

  lemma {:induction false} PaddedDenotes(value: nat, width: nat)
    requires value < Pow10(width)
    ensures DigitsValue(Padded(value, width)) == value
  {
    if width == 0 {
    } else {
      var front := Padded(value / 10, width - 1);
      PaddedDenotes(value / 10, width - 1);
      assert (front + [DigitChar(value % 10)])[..|front|] == front;
    }
  }

  /** Stripping zeros divides by tens and leaves a last digit that is not zero. */
  lemma {:induction false} TrimmedDenotes(digits: string)
    requires AllDigits(digits) && DigitsValue(digits) > 0
    ensures var r := TrimZeros(digits);
      && r != "" && AllDigits(r) && r[|r| - 1] != '0'
      && DigitsValue(r) * Pow10(|digits| - |r|) == DigitsValue(digits)
  {
    if digits[|digits| - 1] != '0' {
    } else {
      var front := digits[..|digits| - 1];
      TrimmedDenotes(front);
      var r := TrimZeros(front);
      TenTimes(DigitsValue(r), Pow10(|front| - |r|));
    }
  }

  /** Stripping reaches no further than the digits after the point. */
  lemma {:induction false} TrimStaysBehind(front: string, digits: string)
    requires AllDigits(digits) && DigitsValue(digits) > 0
    ensures TrimZeros(front + digits) == front + TrimZeros(digits)
  {
    assert (front + digits)[|front + digits| - 1] == digits[|digits| - 1];
    if digits[|digits| - 1] != '0' {
    } else {
      TrimStaysBehind(front, digits[..|digits| - 1]);
      assert (front + digits)[..|front + digits| - 1] == front + digits[..|digits| - 1];
    }
  }

  lemma {:induction false} LeadingDigitsOf(digits: string, rest: string)
    requires AllDigits(digits) && (rest == "" || !IsDigit(rest[0]))
    ensures LeadingDigits(digits + rest) == |digits|
  {
    if digits == "" {
      assert digits + rest == rest;
    } else {
      assert (digits + rest)[1..] == digits[1..] + rest;
      LeadingDigitsOf(digits[1..], rest);
    }
  }

  // ----- what a printed text has for its parts

  /** The digits after the point of a text that has one. */
  function Tail(value: u64, scale: u64): string
    requires OptionScale(scale)
  {
    TrimZeros(Padded(Millionths(value, scale), PLACES))
  }

  lemma PowerOfSix()
    ensures Pow10(PLACES) == RATIO_ONE_E6
  {
    assert Pow10(3) == 1000;
    assert Pow10(6) == 1000 * Pow10(3);
  }

  lemma PartsOfWhole(whole: nat)
    ensures var text := Digits(whole); WellFormed(text) && WholePart(text) == text && FractionPart(text) == ""
  {
    assert Digits(whole) + "" == Digits(whole);
    LeadingDigitsOf(Digits(whole), "");
  }

  lemma PartsOfPointed(whole: string, tail: string)
    requires AllDigits(whole) && AllDigits(tail) && whole != "" && tail != ""
    ensures var text := whole + "." + tail; WellFormed(text) && WholePart(text) == whole && FractionPart(text) == tail
  {
    var text := whole + "." + tail;
    assert text == whole + ("." + tail);
    LeadingDigitsOf(whole, "." + tail);
    assert text[|whole| + 1..] == tail;
    assert text[..|whole|] == whole;
  }

  lemma FormatIsPointed(value: u64, scale: u64)
    requires OptionScale(scale) && HasPoint(value, scale)
    ensures Format(value, scale) == Digits(value / scale) + "." + Tail(value, scale)
  {
    var whole, padded := Digits(value / scale), Padded(Millionths(value, scale), PLACES);
    PowerOfSix();
    PaddedDenotes(Millionths(value, scale), PLACES);
    TrimStaysBehind(whole + ".", padded);
  }

  /** The tail over its own power of ten is the millionths over theirs. */
  lemma TailDenotes(value: u64, scale: u64)
    requires OptionScale(scale) && HasPoint(value, scale)
    ensures var tail := Tail(value, scale);
      && 0 < |tail| <= PLACES && AllDigits(tail) && tail[|tail| - 1] != '0'
      && DigitsValue(tail) * Pow10(PLACES - |tail|) == Millionths(value, scale)
  {
    PowerOfSix();
    PaddedDenotes(Millionths(value, scale), PLACES);
    TrimmedDenotes(Padded(Millionths(value, scale), PLACES));
  }

  // ----- reading back what was printed

  lemma {:induction false} StorableWhenDivides(place: nat, digits: string, factor: nat)
    requires AllDigits(digits) && place == factor * Pow10(|digits|)
    ensures Storable(place, digits)
  {
    if digits == "" {
    } else {
      var p := Pow10(|digits| - 1);
      TenTimes(factor, p);
      TensDivide(place, factor * p);
      StorableWhenDivides(place / 10, digits[1..], factor);
    }
  }

  /** Cancelling a power of ten. */
  lemma TailScales(units: int, w: int, m: int, f: int, p: nat, q: nat, scale: int)
    requires p >= 1 && q >= 1 && f * q == m
    requires units * (p * q) == (w * (p * q) + m) * scale
    ensures units * p == (w * p + f) * scale
  {
    assert (w * p + f) * q == w * (p * q) + m by { Distributes(w * p, f, q); assert w * p * q == w * (p * q); }
    assert (w * p + f) * scale * q == (w * p + f) * q * scale;
    assert units * p * q == units * (p * q);
    OneMultiple(units * p, (w * p + f) * scale, q);
  }

  lemma WholeParses(whole: nat, scale: u64)
    requires scale > 0 && whole * scale <= U64_MAX
    ensures Parse(Digits(whole), scale) == Ok(whole * scale)
  {
    var text := Digits(whole);
    PartsOfWhole(whole);
    DigitsDenote(whole);
    ParseIsExact(text, scale);
    DenotedIsSum(text, scale, Parse(text, scale).value);
  }

  lemma PointedParses(w: nat, m: nat, tail: string, scale: u64, units: u64)
    requires AllDigits(tail) && 0 < |tail| <= PLACES && scale > 0
    requires DigitsValue(tail) * Pow10(PLACES - |tail|) == m && Storable(scale, tail)
    requires units * RATIO_ONE_E6 == (w * RATIO_ONE_E6 + m) * scale
    ensures Parse(Digits(w) + "." + tail, scale) == Ok(units)
  {
    var p, q := Pow10(|tail|), Pow10(PLACES - |tail|);
    PowerOfSix();
    PowersJoin(|tail|, PLACES - |tail|);
    assert p * q == RATIO_ONE_E6;
    TailScales(units, w, m, DigitsValue(tail), p, q, scale);
    TextParses(Digits(w), tail, w, scale, units);
  }

  lemma TextParses(whole: string, tail: string, w: nat, scale: u64, units: u64)
    requires AllDigits(whole) && AllDigits(tail) && whole != "" && tail != "" && scale > 0
    requires Storable(scale, tail) && whole == Digits(w)
    requires units * Pow10(|tail|) == (w * Pow10(|tail|) + DigitsValue(tail)) * scale
    ensures Parse(whole + "." + tail, scale) == Ok(units)
  {
    var text := whole + "." + tail;
    PartsOfPointed(whole, tail);
    DigitsDenote(w);
    ValueOfJoined(whole, tail);
    DenotedIsSum(text, scale, units);
    ParseIsExact(text, scale);
    DenotedIsSum(text, scale, Parse(text, scale).value);
  }

  lemma ExactQuotient(part: u64, scale: u64, q: nat)
    requires scale > 0 && part == q * scale
    ensures RoundedDivide(part, scale) == q
  {
    QuotientIs(part, scale, q);
    DivisionParts(part, scale);
  }

  /** At a scale that divides a million the six places hold the value exactly. */
  lemma SixPlacesAreExact(value: u64, scale: u64)
    requires scale == 1 || scale == KILOBIT || scale == SECOND
    ensures Millionths(value, scale) * scale == value % scale * RATIO_ONE_E6
    ensures Millionths(value, scale) < RATIO_ONE_E6
  {
    if scale == 1 {
      ExactQuotient(0, 1, 0);
    } else if scale == KILOBIT {
      ExactQuotient(value % 1000 * RATIO_ONE_E6, 1000, value % 1000 * 1000);
    } else {
      ExactQuotient(value % 1_000_000 * RATIO_ONE_E6, 1_000_000, value % 1_000_000);
    }
  }

  lemma ExactTailStores(value: u64, scale: u64)
    requires scale == 1 || scale == KILOBIT || scale == SECOND
    requires HasPoint(value, scale)
    ensures Storable(scale, Tail(value, scale))
  {
    SixPlacesAreExact(value, scale);
    TailDenotes(value, scale);
    if scale == SECOND {
      MillionthsStore(Tail(value, scale));
    } else if scale == KILOBIT {
      ThousandthsStore(Tail(value, scale), value % KILOBIT);
    }
  }

  lemma MillionthsStore(tail: string)
    requires AllDigits(tail) && |tail| <= PLACES
    ensures Storable(SECOND, tail)
  {
    PowerOfSix();
    PowersJoin(PLACES - |tail|, |tail|);
    StorableWhenDivides(SECOND, tail, Pow10(PLACES - |tail|));
  }

  lemma ThousandthsStore(tail: string, thousandths: int)
    requires AllDigits(tail) && 0 < |tail| <= PLACES && tail[|tail| - 1] != '0'
    requires DigitsValue(tail) * Pow10(PLACES - |tail|) == thousandths * 1000
    ensures Storable(KILOBIT, tail)
  {
    ThreePlaces(thousandths, DigitsValue(tail), |tail|);
    PowersJoin(3 - |tail|, |tail|);
    assert Pow10(3) == 1000;
    StorableWhenDivides(KILOBIT, tail, Pow10(3 - |tail|));
  }

  /** Thousandths need three places. */
  lemma ThreePlaces(thousandths: int, digits: int, places: nat)
    requires 0 < places <= PLACES && digits * Pow10(PLACES - places) == thousandths * 1000
    requires digits % 10 != 0
    ensures places <= 3
  {
    SmallPowers();
    if places > 3 { IsTens(thousandths, digits, Pow10(PLACES - places)); }
  }

  lemma IsTens(thousandths: int, digits: int, q: int)
    requires q == 1 || q == 10 || q == 100
    requires digits * q == thousandths * 1000
    ensures digits % 10 == 0
  {
    if q == 1 {
      assert digits == 10 * (100 * thousandths);
    } else if q == 10 {
      assert digits == 10 * (10 * thousandths);
    } else {
      assert digits == 10 * thousandths;
    }
  }

  lemma SmallPowers()
    ensures Pow10(0) == 1 && Pow10(1) == 10 && Pow10(2) == 100
  {
    assert Pow10(2) == 10 * Pow10(1);
  }

  /** Every value stored in single units, thousandths or millionths reads back as itself. */
  lemma RoundTrip(value: u64, scale: u64)
    requires scale == 1 || scale == KILOBIT || scale == SECOND
    ensures Parse(Format(value, scale), scale) == Ok(value)
  {
    var w, m := value / scale, Millionths(value, scale);
    SixPlacesAreExact(value, scale);
    DivisionParts(value, scale);
    if m == 0 {
      WholeParses(w, scale);
    } else {
      ExactTailStores(value, scale);
      FormatIsPointed(value, scale);
      TailDenotes(value, scale);
      InMillionths(value, w, value % scale, m, scale);
      PointedParses(w, m, Tail(value, scale), scale, value);
    }
  }

  lemma InMillionths(value: int, w: int, rest: int, m: int, scale: int)
    requires value == w * scale + rest && m * scale == rest * RATIO_ONE_E6
    ensures value * RATIO_ONE_E6 == (w * RATIO_ONE_E6 + m) * scale
  {
    assert (w * RATIO_ONE_E6 + m) * scale == w * scale * RATIO_ONE_E6 + m * scale;
  }

  /** The nearest multiple of sixty microseconds. */
  function WholeMillionthsOfAMinute(value: u64): (r: u64)
    ensures -30 <= value - r < 30 && r % 60 == 0
  {
    RoundedDivideNearest(value, 60);
    var r: int := RoundedDivide(value, 60);
    60 * r
  }

  lemma MinuteMillionths(value: u64)
    ensures Millionths(value, MINUTE) == RoundedDivide(value % MINUTE, 60)
    ensures WholeMillionthsOfAMinute(value) == value / MINUTE * MINUTE + 60 * Millionths(value, MINUTE)
    ensures WholeMillionthsOfAMinute(value) == value <==> value % 60 == 0
  {
    var rest: u64 := value % 60_000_000;
    RoundedDivideNearest(rest * RATIO_ONE_E6, MINUTE);
    RoundedDivideNearest(rest, 60);
    RoundedDivideNearest(value, 60);
  }

  /** A time kept in minutes reads back as the nearest multiple of sixty microseconds; so as itself when it is one. */
  lemma MinuteRoundTrip(value: u64)
    ensures Parse(Format(value, MINUTE), MINUTE) == Ok(WholeMillionthsOfAMinute(value))
    ensures Parse(Format(value, MINUTE), MINUTE) == Ok(value) <==> value % 60 == 0
  {
    MinuteMillionths(value);
    var w, m, units := value / MINUTE, Millionths(value, MINUTE), WholeMillionthsOfAMinute(value);
    if m == 0 {
      WholeParses(w, MINUTE);
    } else if m == RATIO_ONE_E6 {
      WholeParses(w + 1, MINUTE);
    } else {
      TailDenotes(value, MINUTE);
      FormatIsPointed(value, MINUTE);
      MinuteTailParses(w, m, Tail(value, MINUTE), units);
    }
  }

  lemma MinuteTailParses(w: nat, m: nat, tail: string, units: u64)
    requires AllDigits(tail) && 0 < |tail| <= PLACES && DigitsValue(tail) * Pow10(PLACES - |tail|) == m
    requires units == w * MINUTE + 60 * m
    ensures Parse(Digits(w) + "." + tail, MINUTE) == Ok(units)
  {
    PowerOfSix();
    PowersJoin(PLACES - |tail|, |tail|);
    TimesSixty(Pow10(PLACES - |tail|), Pow10(|tail|));
    StorableWhenDivides(MINUTE, tail, 60 * Pow10(PLACES - |tail|));
    PointedParses(w, m, tail, MINUTE, units);
  }

  lemma TimesSixty(a: int, b: int)
    requires a * b == RATIO_ONE_E6
    ensures 60 * a * b == MINUTE
  {}

  /** A size kept in kilobytes reads back exactly when it is a whole number of them, and is refused otherwise. */
  lemma KilobyteRoundTrip(value: u64)
    ensures Parse(Format(value, KILOBYTE), KILOBYTE) ==
      (if value % KILOBYTE == 0 then Ok(value) else Err(MorePrecision))
  {
    var part: u64 := value % KILOBYTE * RATIO_ONE_E6;
    RoundedDivideNearest(part, KILOBYTE);
    DivisionParts(value, KILOBYTE);
    if value % KILOBYTE == 0 {
      WholeParses(value / KILOBYTE, KILOBYTE);
    } else {
      var whole, tail := Digits(value / KILOBYTE), Tail(value, KILOBYTE);
      FormatIsPointed(value, KILOBYTE);
      TailDenotes(value, KILOBYTE);
      PartsOfPointed(whole, tail);
      DigitsDenote(value / KILOBYTE);
      FractionRefuses(value / KILOBYTE * KILOBYTE, KILOBYTE, tail);
    }
  }

  /** Past the last whole place zeros are skipped and anything else is refused. */
  lemma {:induction false} FractionRefuses(value: u64, place: nat, digits: string)
    requires 0 < place <= U64_MAX && place % 10 != 0 && AllDigits(digits)
    ensures Fraction(value, place, digits) == (if DigitsValue(digits) == 0 then Ok(value) else Err(MorePrecision))
  {
    if digits == "" {
    } else {
      FirstDigitFirst(digits);
      FractionRefuses(value, place, digits[1..]);
      if DigitOf(digits[0]) > 0 { MulMonotone(1, DigitOf(digits[0]), Pow10(|digits| - 1)); }
    }
  }
}
