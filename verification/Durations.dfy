/** Decimal durations of any length, read exactly as text and rounded half up once. */
module Durations {
  import opened Arith
  import opened Decimal
  import opened Wrappers

  const FRACTION_DIGITS: nat := 6
  const NS_PER_US: u64 := 1_000
  const NS_PER_MS: u64 := 1_000_000
  const NS_PER_SECOND: u64 := 1_000_000_000

  /** a / b to the nearest whole number, half upward. */
  function HalfUp(a: nat, b: nat): nat
    requires b > 0
  {
    (2 * a + b) / (2 * b)
  }

  // ----- six decimals

  /** Six decimals, the next one deciding whether the last goes up. */
  method SixDecimals(digits: string) returns (value: nat)
    requires AllDigits(digits)
    ensures value == HalfUp(DigitsValue(digits) * Pow10(FRACTION_DIGITS), Pow10(|digits|))
  {
    value := 0;
    for index := 0 to FRACTION_DIGITS
      invariant value == LeadingPlaces(digits, index)
    {
      value := value * 10 + (if index < |digits| then DigitOf(digits[index]) else 0);
    }
    if |digits| > FRACTION_DIGITS && digits[FRACTION_DIGITS] >= '5' {
      value := value + 1;
    }
    SixDecimalsRound(digits);
  }

  /** The first places digits after the point as a whole number; missing digits are zeros. */
  function LeadingPlaces(digits: string, places: nat): nat
    requires AllDigits(digits)
  {
    if places == 0 then 0
    else 10 * LeadingPlaces(digits, places - 1) + (if places - 1 < |digits| then DigitOf(digits[places - 1]) else 0)
  }

  lemma {:induction false} PlacesWithin(digits: string, places: nat)
    requires AllDigits(digits) && places <= |digits|
    ensures LeadingPlaces(digits, places) == DigitsValue(digits[..places])
  {
    if places == 0 {
    } else {
      PlacesWithin(digits, places - 1);
      assert digits[..places][..places - 1] == digits[..places - 1];
    }
  }

  lemma {:induction false} PlacesBeyond(digits: string, places: nat)
    requires AllDigits(digits) && places >= |digits|
    ensures LeadingPlaces(digits, places) == DigitsValue(digits) * Pow10(places - |digits|)
  {
    if places == |digits| {
      PlacesWithin(digits, places);
      assert digits[..places] == digits;
    } else {
      PlacesBeyond(digits, places - 1);
      TenTimes(DigitsValue(digits), Pow10(places - 1 - |digits|));
    }
  }

  /** Six places and one more digit decide the rounding of a fraction of any length. */
  lemma SixDecimalsRound(digits: string)
    requires AllDigits(digits)
    ensures HalfUp(DigitsValue(digits) * Pow10(FRACTION_DIGITS), Pow10(|digits|))
         == LeadingPlaces(digits, FRACTION_DIGITS)
            + (if |digits| > FRACTION_DIGITS && digits[FRACTION_DIGITS] >= '5' then 1 else 0)
  {
    var n, million := |digits|, Pow10(FRACTION_DIGITS);
    if n <= FRACTION_DIGITS {
      PlacesBeyond(digits, FRACTION_DIGITS);
      PowersJoin(FRACTION_DIGITS - n, n);
      ThreeFactors(DigitsValue(digits), Pow10(FRACTION_DIGITS - n), Pow10(n));
      WholeRounds(LeadingPlaces(digits, FRACTION_DIGITS), Pow10(n));
    } else {
      var head, tail := digits[..FRACTION_DIGITS], digits[FRACTION_DIGITS..];
      assert digits == head + tail;
      ValueOfJoined(head, tail);
      PlacesWithin(digits, FRACTION_DIGITS);
      PowersJoin(FRACTION_DIGITS, |tail|);
      FirstDigitDecides(tail);
      RestRounds(DigitsValue(head), DigitsValue(tail), Pow10(|tail|), million);
    }
  }

  lemma WholeRounds(whole: nat, b: nat)
    requires b > 0
    ensures HalfUp(whole * b, b) == whole
  {
    ThreeFactors(2, whole, b);
    ThreeFactors(whole, 2, b);
    QuotientIs(2 * (whole * b) + b, 2 * b, whole);
  }

  /** (head + rest / p) rounds by whether the rest is half of p or more. */
  lemma RestRounds(head: nat, rest: nat, p: nat, million: nat)
    requires p > 0 && million > 0 && rest < p
    ensures HalfUp((head * p + rest) * million, million * p) == head + (if 2 * rest >= p then 1 else 0)
  {
    CommonFactor(head * p + rest, p, million);
    WholeAdds(head, rest, p);
    QuotientIs(2 * rest + p, 2 * p, if 2 * rest >= p then 1 else 0);
  }

  lemma CommonFactor(a: nat, b: nat, factor: nat)
    requires b > 0 && factor > 0
    ensures factor * b > 0 && HalfUp(a * factor, factor * b) == HalfUp(a, b)
  {
    MulMonotone(1, factor, b);
    var q := HalfUp(a, b);
    DivisionParts(2 * a + b, 2 * b);
    assert 2 * (a * factor) + factor * b == (2 * a + b) * factor by {
      Distributes(2 * a, b, factor);
      ThreeFactors(2, a, factor);
    }
    assert q * (2 * (factor * b)) == q * (2 * b) * factor by {
      ThreeFactors(2, b, factor);
      ThreeFactors(q, 2 * b, factor);
    }
    var r := (2 * a + b) % (2 * b);
    Distributes(q * (2 * b), r, factor);
    MulNonNegative(r, factor);
    MulMonotone(r + 1, 2 * b, factor);
    Distributes(r, 1, factor);
    ThreeFactors(2, b, factor);
    QuotientIs(2 * (a * factor) + factor * b, 2 * (factor * b), q);
  }

  /** A fraction is half or more exactly when its first digit is five or more. */
  lemma FirstDigitDecides(digits: string)
    requires AllDigits(digits) && digits != ""
    ensures DigitsValue(digits) < Pow10(|digits|)
    ensures 2 * DigitsValue(digits) >= Pow10(|digits|) <==> digits[0] >= '5'
  {
    var d, p := DigitOf(digits[0]), Pow10(|digits| - 1);
    FirstDigitFirst(digits);
    ValueIsSmall(digits);
    ValueIsSmall(digits[1..]);
    if d >= 5 { MulMonotone(5, d, p); } else { MulMonotone(d, 4, p); }
  }

  // ----- fping's round trip, in milliseconds

  /** The nanoseconds of a decimal of milliseconds and where it ends. */
  datatype Parsed = Parsed(ns: u64, end: nat)

  predicate FractionFollows(text: string, n: nat)
    requires n <= |text|
  {
    n < |text| && text[n] == '.'
  }

  method ParseRoundTrip(text: string) returns (r: Option<Parsed>)
    ensures var n := LeadingDigits(text);
      var whole, count := DigitsValue(text[..n]), if FractionFollows(text, n) then LeadingDigits(text[n + 1..]) else 0;
      && (r.Some? <==> n > 0 && whole < U64_MAX / NS_PER_MS && (FractionFollows(text, n) ==> count > 0))
      && (r.Some? ==>
          var fraction := if FractionFollows(text, n) then text[n + 1..n + 1 + count] else "";
          && r.value.end == (if FractionFollows(text, n) then n + 1 + count else n)
          && AllDigits(text[..n] + fraction)
          && r.value.ns == HalfUp(DigitsValue(text[..n] + fraction) * NS_PER_MS, Pow10(|fraction|)))
  {
    var cursor := SpanDigits(text, 0);
    assert text[0..] == text;
    var ok, whole := ParseUnsigned(text[..cursor]);
    if !ok || whole >= U64_MAX / NS_PER_MS {
      return None;
    }
    var fraction, end := 0, cursor;
    ghost var digits := "";
    if cursor < |text| && text[cursor] == '.' {
      end := SpanDigits(text, cursor + 1);
      if end == cursor + 1 {
        return None;
      }
      digits := text[cursor + 1..end];
      assert text[cursor + 1..][..end - (cursor + 1)] == digits;
      fraction := SixDecimals(text[cursor + 1..end]);
    }
    if digits == "" { WholeRounds(0, 1); }
    JoinedRounds(text[..cursor], digits, fraction);
    FractionIsSmall(digits);
    r := Some(Parsed(whole * NS_PER_MS + fraction, end));
  }

  lemma SixIsAMillion()
    ensures Pow10(FRACTION_DIGITS) == NS_PER_MS
  {
    assert Pow10(3) == 1000;
    assert Pow10(6) == 1000 * Pow10(3);
  }

  /** Rounding the fraction alone rounds the whole number. */
  lemma JoinedRounds(whole: string, fraction: string, rounded: nat)
    requires AllDigits(whole) && AllDigits(fraction)
    requires rounded == HalfUp(DigitsValue(fraction) * Pow10(FRACTION_DIGITS), Pow10(|fraction|))
    ensures AllDigits(whole + fraction)
    ensures DigitsValue(whole) * NS_PER_MS + rounded
         == HalfUp(DigitsValue(whole + fraction) * NS_PER_MS, Pow10(|fraction|))
  {
    var w, f, p := DigitsValue(whole), DigitsValue(fraction), Pow10(|fraction|);
    SixIsAMillion();
    ValueOfJoined(whole, fraction);
    assert (w * p + f) * NS_PER_MS == w * NS_PER_MS * p + f * NS_PER_MS by { WholePeels(w, NS_PER_MS, p, f); }
    WholeAdds(w * NS_PER_MS, f * NS_PER_MS, p);
  }

  lemma WholeAdds(whole: nat, part: nat, p: nat)
    requires p > 0
    ensures HalfUp(whole * p + part, p) == whole + HalfUp(part, p)
  {
    ThreeFactors(2, whole, p);
    ThreeFactors(whole, 2, p);
    QuotientSplits(whole, 2 * part + p, 2 * p);
  }

  lemma FractionIsSmall(digits: string)
    requires AllDigits(digits)
    ensures HalfUp(DigitsValue(digits) * Pow10(FRACTION_DIGITS), Pow10(|digits|)) <= NS_PER_MS
  {
    var p := Pow10(|digits|);
    SixIsAMillion();
    ValueIsSmall(digits);
    MulMonotone(DigitsValue(digits), p, NS_PER_MS);
    WholeRounds(NS_PER_MS, p);
    QuotientMonotone(2 * (DigitsValue(digits) * NS_PER_MS) + p, 2 * (NS_PER_MS * p) + p, 2 * p);
  }

  // ----- IRTT's durations, in a unit of its own

  predicate HasUnit(token: string, unit: string)
  {
    unit <= token && (|token| == |unit| || token[|unit|] == ' ' || token[|unit|] == '\t')
  }

  /** Nanoseconds in a unit as a power of ten; the sign for micro is two bytes. */
  function UnitPlaces(token: string): Option<nat>
  {
    if HasUnit(token, "ns") then Some(0)
    else if HasUnit(token, "us") || HasUnit(token, "\U{00C2}\U{00B5}s") then Some(3)
    else if HasUnit(token, "ms") then Some(6)
    else if HasUnit(token, "s") then Some(9)
    else None
  }

  /** A duration's parts: its digits before and after the point, and its unit. */
  datatype Duration = Duration(whole: string, fraction: string, places: nat)
  {
    predicate Valid() { AllDigits(whole) && AllDigits(fraction) && whole != "" && places <= 9 }
  }

  /** Where the digits after a point start and end; both at the end of the whole digits without one. */
  function FractionSpan(text: string): (r: (nat, nat))
    ensures LeadingDigits(text) <= r.0 <= r.1 <= |text| && AllDigits(text[r.0..r.1])
  {
    var n := LeadingDigits(text);
    if FractionFollows(text, n) then
      var count := LeadingDigits(text[n + 1..]);
      assert text[n + 1..][..count] == text[n + 1..n + 1 + count];
      (n + 1, n + 1 + count)
    else (n, n)
  }

  function DurationOf(text: string): (r: Option<Duration>)
    ensures r.Some? ==> r.value.Valid()
  {
    var n, (start, end) := LeadingDigits(text), FractionSpan(text);
    if n == 0 || (start > n && end == start) then None
    else UnitOf(text[..n], text[start..end], text[end..])
  }

  function UnitOf(whole: string, fraction: string, token: string): (r: Option<Duration>)
    requires AllDigits(whole) && AllDigits(fraction) && whole != ""
    ensures r.Some? ==> r.value.Valid()
  {
    match UnitPlaces(token)
    case Some(places) => Some(Duration(whole, fraction, places))
    case None => None
  }

  /** The duration in microseconds, from its exact value. */
  ghost function ExactUs(d: Duration): nat
    requires d.Valid()
  {
    ValueOfJoined(d.whole, d.fraction);
    HalfUp(DigitsValue(d.whole + d.fraction) * Pow10(d.places), Pow10(|d.fraction|) * NS_PER_US)
  }

  method ParseIrttDuration(text: string) returns (us: Option<i64>)
    ensures us.Some? <==> DurationOf(text).Some? && Representable(DurationOf(text).value)
    ensures us.Some? ==> us.value == ExactUs(DurationOf(text).value)
  {
    var split := SplitDuration(text);
    if split.None? {
      return None;
    }
    us := DurationUs(split.value);
  }

  /** The whole units leave room for a fraction of one, and the microseconds fit. */
  ghost predicate Representable(d: Duration)
    requires d.Valid()
  {
    DigitsValue(d.whole) < U64_MAX / Pow10(d.places) && ExactUs(d) <= I64_MAX
  }

  method SplitDuration(text: string) returns (r: Option<Duration>)
    ensures r == DurationOf(text)
  {
    var wholeEnd := SpanDigits(text, 0);
    assert text[0..] == text;
    if wholeEnd == 0 {
      return None;
    }
    var fraction, fractionEnd := SpanFraction(text, wholeEnd);
    if fraction > wholeEnd && fractionEnd == fraction {
      return None;
    }
    r := UnitOf(text[..wholeEnd], text[fraction..fractionEnd], text[fractionEnd..]);
  }

  method SpanFraction(text: string, wholeEnd: nat) returns (start: nat, end: nat)
    requires wholeEnd == LeadingDigits(text)
    ensures (start, end) == FractionSpan(text)
  {
    start, end := wholeEnd, wholeEnd;
    if wholeEnd < |text| && text[wholeEnd] == '.' {
      start := wholeEnd + 1;
      end := SpanDigits(text, start);
    }
  }

  method DurationUs(d: Duration) returns (us: Option<i64>)
    requires d.Valid()
    ensures us.Some? <==> Representable(d)
    ensures us.Some? ==> us.value == ExactUs(d)
  {
    var ok, whole := ParseUnsigned(d.whole);
    UnitFits(d.places);
    var unitNs: u64 := Pow10(d.places);
    NotAbove(DigitsValue(d.whole), unitNs);
    if !ok || whole > U64_MAX / unitNs - 1 {
      return None;
    }
    TruncatedIsExact(d);
    var ns := AddPlaces(whole, d.fraction, d.places);
    NearestThousand(ns);
    var rounded := RoundedDivide(ns, NS_PER_US);
    if rounded > I64_MAX {
      return None;
    }
    us := Some(rounded);
  }

  lemma NearestThousand(ns: u64)
    ensures RoundedDivide(ns, NS_PER_US) == (ns + NS_PER_US / 2) / NS_PER_US
  {}

  /** The whole units and the digits after the point down to a nanosecond. */
  method AddPlaces(whole: u64, fraction: string, places: nat) returns (ns: u64)
    requires AllDigits(fraction) && places <= 9 && whole < U64_MAX / Pow10(places)
    ensures ns == whole * Pow10(places) + Worth(Pow10(places), fraction)
  {
    UnitFits(places);
    WorthIsFloor(places, fraction);
    RoomForOne(whole, Pow10(places));
    ns := whole * Pow10(places);
    ghost var total := ns + Worth(Pow10(places), fraction);
    var unitNs: u64 := Pow10(places);
    ghost var left: int := places;
    assert fraction[0..] == fraction;
    var index := 0;
    while index < |fraction| && unitNs / 10 > 0
      invariant 0 <= left && index <= |fraction| && unitNs == Pow10(left)
      invariant ns + Worth(Pow10(left), fraction[index..]) == total
    {
      PlaceSplitsOff(left, fraction, index);
      unitNs := unitNs / 10;
      ns := ns + DigitOf(fraction[index]) * unitNs;
      left := left - 1;
      index := index + 1;
    }
    if left > 0 { TensDivide(unitNs, Pow10(left - 1)); }
  }

  lemma PlaceSplitsOff(left: nat, fraction: string, index: nat)
    requires AllDigits(fraction) && index < |fraction| && Pow10(left) / 10 > 0
    ensures left > 0 && Pow10(left) / 10 == Pow10(left - 1)
    ensures Worth(Pow10(left), fraction[index..])
         == DigitOf(fraction[index]) * Pow10(left - 1) + Worth(Pow10(left - 1), fraction[index + 1..])
    ensures DigitOf(fraction[index]) * Pow10(left - 1) >= 0
  {
    TensDivide(Pow10(left), Pow10(left - 1));
    assert fraction[index..][1..] == fraction[index + 1..];
    MulNonNegative(DigitOf(fraction[index]), Pow10(left - 1));
  }

  lemma UnitFits(places: nat)
    requires places <= 9
    ensures Pow10(places) <= NS_PER_SECOND
  {
    assert Pow10(3) == 1000;
    assert Pow10(6) == 1000 * Pow10(3);
    assert Pow10(9) == 1000 * Pow10(6);
  }

  lemma NotAbove(value: nat, unitNs: u64)
    requires 0 < unitNs
    ensures value > U64_MAX ==> value >= U64_MAX / unitNs
  {
    QuotientAtMost(U64_MAX, unitNs);
  }

  lemma RoomForOne(whole: nat, unitNs: nat)
    requires unitNs > 0 && whole < U64_MAX / unitNs
    ensures 0 <= whole * unitNs && whole * unitNs + unitNs <= U64_MAX
  {
    DivisionParts(U64_MAX, unitNs);
    MulNonNegative(whole, unitNs);
    MulMonotone(whole + 1, U64_MAX / unitNs, unitNs);
    Distributes(whole, 1, unitNs);
  }

  /** Only nine places are read: they are worth the fraction cut off there. */
  lemma {:induction false} WorthIsFloor(places: nat, digits: string)
    requires AllDigits(digits)
    ensures Worth(Pow10(places), digits) == DigitsValue(digits) * Pow10(places) / Pow10(|digits|)
    ensures Worth(Pow10(places), digits) <= Pow10(places)
    decreases |digits|
  {
    ValueIsSmall(digits);
    if digits == "" {
    } else if places == 0 {
      QuotientIs(DigitsValue(digits), Pow10(|digits|), 0);
    } else {
      var d, v, p, q := DigitOf(digits[0]), DigitsValue(digits[1..]), Pow10(|digits| - 1), Pow10(places - 1);
      FirstDigitFirst(digits);
      TensDivide(Pow10(places), q);
      WorthIsFloor(places - 1, digits[1..]);
      DigitSplitsOff(d, v, p, q);
      MulMonotone(d, 9, q);
    }
  }

  lemma DigitSplitsOff(d: nat, v: nat, p: nat, q: nat)
    requires p > 0
    ensures (d * p + v) * (10 * q) / (10 * p) == d * q + v * q / p
  {
    TenTimes(d * p + v, q);
    WholePeels(d, q, p, v);
    QuotientSplits(d * q, v * q, p);
    NestedQuotient(10 * ((d * p + v) * q), 10, p);
    QuotientIs(10 * ((d * p + v) * q), 10, (d * p + v) * q);
  }

  lemma NestedQuotient(a: nat, b: nat, c: nat)
    requires b > 0 && c > 0
    ensures b * c > 0 && a / (b * c) == a / b / c
  {
    MulMonotone(1, b, c);
    var x := a / b;
    var q := x / c;
    DivisionParts(a, b);
    DivisionParts(x, c);
    ThreeFactors(q, c, b);
    Distributes(q * c, x % c, b);
    MulMonotone(x % c + 1, c, b);
    Distributes(x % c, 1, b);
    MulNonNegative(x % c, b);
    assert q * (b * c) == q * c * b;
    QuotientIs(a, b * c, q);
  }

  /** Truncated nanoseconds round to the microsecond the exact duration rounds to. */
  lemma TruncatedIsExact(d: Duration)
    requires d.Valid()
    ensures (DigitsValue(d.whole) * Pow10(d.places) + Worth(Pow10(d.places), d.fraction) + NS_PER_US / 2) / NS_PER_US
         == ExactUs(d)
  {
    var w, f, p, unit := DigitsValue(d.whole), DigitsValue(d.fraction), Pow10(|d.fraction|), Pow10(d.places);
    WorthIsFloor(d.places, d.fraction);
    ValueOfJoined(d.whole, d.fraction);
    TruncatedRounds(w, f, p, unit);
  }

  lemma TruncatedRounds(w: nat, f: nat, p: nat, unit: nat)
    requires p > 0
    ensures (w * p + f) * unit >= 0
    ensures (w * unit + f * unit / p + NS_PER_US / 2) / NS_PER_US == HalfUp((w * p + f) * unit, p * NS_PER_US)
  {
    WholePeels(w, unit, p, f);
    QuotientSplits(w * unit, f * unit, p);
    MulNonNegative(w * p + f, unit);
    RoundsOnce((w * p + f) * unit, p);
  }

  lemma RoundsOnce(n: nat, p: nat)
    requires p > 0
    ensures HalfUp(n, p * NS_PER_US) == (n / p + NS_PER_US / 2) / NS_PER_US
  {
    var b := p * NS_PER_US;
    assert 2 * n + b == 2 * (n + 500 * p);
    NestedQuotient(2 * n + b, 2, b);
    QuotientIs(2 * (n + 500 * p), 2, n + 500 * p);
    NestedQuotient(n + 500 * p, p, NS_PER_US);
    QuotientSplits(500, n, p);
  }
}
