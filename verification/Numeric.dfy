/**
 The numeric type: the bit fields of its header, and the digit writer of `CopyAppendNumeric`
 with the buffer it allocates, against the number the base-10000 digits stand for.
 */
module Numeric {
  import opened Arithmetic
  import opened Bytes
  import opened Decimal

  const DEC_DIGITS: int := 4

  // ---------------------------------------------------------------- header

  function HeaderWord(buffer: seq<byte>): (h: nat)
    requires |buffer| >= 2
    ensures h < 0x1_0000
  {
    LeValueBound(buffer[..2]);
    assert Pow256(2) == 0x1_0000;
    LeValue(buffer[..2])
  }

  predicate IsSpecial(h: nat) { h / 0x4000 % 4 == 3 }

  predicate IsShort(h: nat) { h / 0x8000 % 2 == 1 }

  function HeaderSize(h: nat): nat { if IsShort(h) then 2 else 4 }

  predicate IsNegative(h: nat) {
    if IsShort(h) then h / 0x2000 % 2 == 1 else h / 0x4000 == 1
  }

  function DisplayScale(h: nat): (d: nat)
    ensures d < 0x4000
  {
    if IsShort(h) then h / 0x80 % 0x40 else h % 0x4000
  }

  function Weight(h: nat, word: nat): (w: int)
    requires word < 0x1_0000
    ensures -0x8000 <= w < 0x8000
  {
    if IsShort(h) then (if h / 0x40 % 2 == 1 then -64 else 0) + h % 0x40
    else Signed(word, 2)
  }

  /** The two header forms PostgreSQL stores. */
  function ShortHeader(negative: bool, dscale: nat, weight: int): (h: nat)
    requires dscale < 64 && -64 <= weight < 64
  {
    0x8000 + (if negative then 0x2000 else 0) + dscale * 0x80 + (if weight < 0 then 0x40 + weight + 64 else weight)
  }

  function LongHeader(negative: bool, dscale: nat): (h: nat)
    requires dscale < 0x4000
  {
    (if negative then 0x4000 else 0) + dscale
  }

  lemma ShortHeaderRoundTrip(negative: bool, dscale: nat, weight: int, word: nat)
    requires dscale < 64 && -64 <= weight < 64 && word < 0x1_0000
    ensures var h := ShortHeader(negative, dscale, weight);
            h < 0x1_0000 && !IsSpecial(h) && IsNegative(h) == negative && DisplayScale(h) == dscale
            && Weight(h, word) == weight && HeaderSize(h) == 2
  {
    var h := ShortHeader(negative, dscale, weight);
    ShortFields(h, if negative then 1 else 0, dscale, if weight < 0 then 1 else 0, weight % 64);
  }

  lemma ShortFields(h: nat, sign: nat, dscale: nat, high: nat, low: nat)
    requires sign < 2 && dscale < 64 && high < 2 && low < 64
    requires h == 0x8000 + 0x2000 * sign + 0x80 * dscale + 0x40 * high + low
    ensures h / 0x8000 == 1 && h / 0x4000 == 2 && h / 0x2000 % 2 == sign
    ensures h / 0x80 % 0x40 == dscale && h / 0x40 % 2 == high && h % 0x40 == low
  {
    Quotient(h, 0x8000, 1);
    Quotient(h, 0x4000, 2);
    Quotient(h, 0x2000, 4 + sign);
    var fields := 0x40 * (4 + sign) + dscale;
    Quotient(h, 0x80, fields);
    Quotient(h, 0x40, 2 * fields + high);
    Quotient(fields, 0x40, 4 + sign);
  }

  lemma LongHeaderRoundTrip(negative: bool, dscale: nat, weight: int)
    requires dscale < 0x4000 && -0x8000 <= weight < 0x8000
    ensures var h := LongHeader(negative, dscale);
            h < 0x1_0000 && !IsSpecial(h) && IsNegative(h) == negative && DisplayScale(h) == dscale
            && Weight(h, Unsigned(weight, 2)) == weight && HeaderSize(h) == 4
  {
    assert Pow256(2) == 0x1_0000;
  }

  // ---------------------------------------------------------------- digits

  predicate IsInt16(dig: int) { -0x8000 <= dig < 0x8000 }

  /** What the code can meet: any stored 16-bit words. */
  predicate AreInt16(digits: seq<int>) {
    forall i :: 0 <= i < |digits| ==> IsInt16(digits[i])
  }

  /** What PostgreSQL stores. */
  predicate IsBase10000(digits: seq<int>) {
    forall i :: 0 <= i < |digits| ==> 0 <= digits[i] < 10000
  }

  lemma Base10000IsInt16(digits: seq<int>)
    requires IsBase10000(digits)
    ensures AreInt16(digits)
  {
  }

  /** The decimal digit at place k of a stored digit, most significant first; C divides towards zero. */
  function Place(dig: int, k: nat): (d: int)
    requires IsInt16(dig)
    ensures -32 <= d <= 32
    ensures 0 <= dig < 10000 ==> 0 <= d < 10
  {
    if dig < 0 then -(PlaceOf(-dig, k) as int) else PlaceOf(dig, k)
  }

  function PlaceOf(dig: nat, k: nat): (d: nat)
    requires dig <= 0x8000
    ensures d <= 32
    ensures dig < 10000 ==> d < 10
  {
    if k == 0 then dig / 1000 else if k == 1 then dig % 1000 / 100 else if k == 2 then dig % 100 / 10 else dig % 10
  }

  function DigitAt(digits: seq<int>, d: int): (dig: int)
    requires AreInt16(digits)
    ensures IsInt16(dig)
    ensures IsBase10000(digits) ==> 0 <= dig < 10000
  {
    if 0 <= d < |digits| then digits[d] else 0
  }

  /** Decimal digit p of the digit string, extended by zeros on both sides. */
  function DecimalAt(digits: seq<int>, p: int): (d: int)
    requires AreInt16(digits)
    ensures -32 <= d <= 32
    ensures IsBase10000(digits) ==> 0 <= d < 10
  {
    Place(DigitAt(digits, p / 4), p % 4)
  }

  function DecimalChar(digits: seq<int>, p: int): (c: byte)
    requires AreInt16(digits)
    ensures 16 <= c <= 80
    ensures IsBase10000(digits) ==> 48 <= c <= 57
  {
    48 + DecimalAt(digits, p)
  }

  /** The decimal digits lo, ..., hi - 1 as text. */
  function Places(digits: seq<int>, lo: int, hi: int): (s: seq<byte>)
    requires AreInt16(digits)
    ensures |s| == if lo <= hi then hi - lo else 0
  {
    seq<byte>(if lo <= hi then hi - lo else 0, (j: int) => DecimalChar(digits, lo + j))
  }

  /** How many decimal zeros the first group suppresses: never all four. */
  function LeadingZeros(dig: int): nat {
    if dig >= 1000 then 0 else if dig >= 100 then 1 else if dig >= 10 then 2 else 3
  }

  function IntegerText(digits: seq<int>, weight: int): (s: seq<byte>)
    requires AreInt16(digits)
  {
    if weight < 0 then [48] else Places(digits, LeadingZeros(DigitAt(digits, 0)), 4 * (weight + 1))
  }

  function FractionText(digits: seq<int>, weight: int, dscale: nat): (s: seq<byte>)
    requires AreInt16(digits)
    ensures |s| == dscale
  {
    Places(digits, 4 * (weight + 1), 4 * (weight + 1) + dscale)
  }

  function PointText(digits: seq<int>, weight: int, dscale: nat): (s: seq<byte>)
    requires AreInt16(digits)
    ensures |s| == if dscale > 0 then dscale + 1 else 0
  {
    if dscale > 0 then [POINT] + FractionText(digits, weight, dscale) else []
  }

  /** The text of a finite numeric. */
  function FiniteText(negative: bool, weight: int, dscale: nat, digits: seq<int>): (s: seq<byte>)
    requires AreInt16(digits)
  {
    (if negative then [MINUS] else []) + IntegerText(digits, weight) + PointText(digits, weight, dscale)
  }

  // ---------------------------------------------------------------- the stored number

  /** The integer with the given base-10000 digits. */
  function Magnitude(digits: seq<int>): (m: int)
    requires IsBase10000(digits)
    ensures m >= 0
  {
    if |digits| == 0 then 0 else 10000 * Magnitude(digits[..|digits| - 1]) + digits[|digits| - 1]
  }

  /** m with the decimal point moved x places to the right, cut to an integer at every place. */
  function Shifted(m: int, x: int): int
    decreases if x < 0 then -x else x
  {
    if x == 0 then m else if x > 0 then 10 * Shifted(m, x - 1) else Shifted(m, x + 1) / 10
  }

  /** The absolute value in units of ten to the -dscale, cut towards zero: the first base-10000
      digit stands for a multiple of 10000 to the weight. */
  function TruncatedValue(digits: seq<int>, weight: int, dscale: nat): int
    requires IsBase10000(digits)
  {
    Shifted(Magnitude(digits), 4 * (weight + 1 - |digits|) + dscale)
  }

  lemma OneMorePlace(digits: seq<int>, lo: int, p: int)
    requires IsBase10000(digits) && lo <= p
    ensures DigitsValue(Places(digits, lo, p + 1)) == 10 * DigitsValue(Places(digits, lo, p)) + DecimalAt(digits, p)
  {
    DigitsValueAppend(Places(digits, lo, p), 48 + DecimalAt(digits, p));
    var s, t := Places(digits, lo, p + 1), Places(digits, lo, p) + [DecimalChar(digits, p)];
    forall j | 0 <= j < |t|
      ensures s[j] == t[j]
    {
      assert s[j] == DecimalChar(digits, lo + j);
    }
    assert s == t;
  }

  lemma {:induction false} LeadingZerosAddNothing(digits: seq<int>, lo: int, first: int, hi: int)
    requires IsBase10000(digits)
    requires lo <= first <= hi
    requires forall p :: lo <= p < first ==> DecimalAt(digits, p) == 0
    ensures DigitsValue(Places(digits, lo, hi)) == DigitsValue(Places(digits, first, hi))
    decreases hi - lo
  {
    hide Places, DecimalAt, IsBase10000;
    Base10000IsInt16(digits);
    if lo < hi {
      OneMorePlace(digits, lo, hi - 1);
      if first == hi {
        LeadingZerosAddNothing(digits, lo, hi - 1, hi - 1);
        assert Places(digits, hi - 1, hi - 1) == [] == Places(digits, hi, hi);
      } else {
        LeadingZerosAddNothing(digits, lo, first, hi - 1);
        OneMorePlace(digits, first, hi - 1);
      }
    }
  }

  lemma PlacesOfPrefix(digits: seq<int>, n: nat)
    requires IsBase10000(digits) && n <= |digits|
    ensures Places(digits[..n], 0, 4 * n) == Places(digits, 0, 4 * n)
  {
    forall p | 0 <= p < 4 * n
      ensures DecimalAt(digits[..n], p) == DecimalAt(digits, p)
    {
    }
  }

  lemma PlacesOfGroup(dig: int)
    requires 0 <= dig < 10000
    ensures dig == 1000 * Place(dig, 0) + 100 * Place(dig, 1) + 10 * Place(dig, 2) + Place(dig, 3)
  {
    RemaindersOf(dig);
  }

  /** The remainders CopyAppendNumeric leaves in `dig` after each subtraction. */
  lemma GroupSteps(dig: int)
    requires IsInt16(dig)
    ensures var r0 := dig - CDiv(dig, 1000) * 1000;
            var r1 := r0 - CDiv(r0, 100) * 100;
            var r2 := r1 - CDiv(r1, 10) * 10;
            CDiv(dig, 1000) == Place(dig, 0) && CDiv(r0, 100) == Place(dig, 1) && CDiv(r1, 10) == Place(dig, 2)
            && r2 == Place(dig, 3)
  {
    RemaindersOf(if dig < 0 then -dig else dig);
  }

  lemma RemaindersOf(dig: nat)
    requires dig <= 0x8000
    ensures var r0 := dig - dig / 1000 * 1000;
            var r1 := r0 - r0 / 100 * 100;
            var r2 := r1 - r1 / 10 * 10;
            && r0 >= 0 && r1 >= 0 && dig / 1000 == PlaceOf(dig, 0) && r0 / 100 == PlaceOf(dig, 1)
            && r1 / 10 == PlaceOf(dig, 2) && r2 == PlaceOf(dig, 3)
  {
    var r0 := dig - dig / 1000 * 1000;
    assert r0 == dig % 1000;
    var r1 := r0 - r0 / 100 * 100;
    assert r1 == r0 % 100;
    RemainderOfRemainder(dig, 10, 100);
    RemainderOfRemainder(dig, 100, 10);
  }

  lemma RemainderOfRemainder(x: nat, k: nat, d: nat)
    requires (k == 10 && d == 100) || (k == 100 && d == 10)
    ensures x % 1000 % d == x % d
  {
    if d == 100 {
      Quotient(x, 100, 10 * (x / 1000) + x % 1000 / 100);
    } else {
      Quotient(x, 10, 100 * (x / 1000) + x % 1000 / 10);
    }
  }

  lemma FourPlaces(digits: seq<int>, lo: int, d: int)
    requires IsBase10000(digits) && lo <= 4 * d
    ensures DigitsValue(Places(digits, lo, 4 * d + 4))
            == 10000 * DigitsValue(Places(digits, lo, 4 * d)) + DigitAt(digits, d)
  {
    hide Places, Place, DigitsValue, IsBase10000;
    Base10000IsInt16(digits);
    OneMorePlace(digits, lo, 4 * d);
    OneMorePlace(digits, lo, 4 * d + 1);
    OneMorePlace(digits, lo, 4 * d + 2);
    OneMorePlace(digits, lo, 4 * d + 3);
    assert 4 * d / 4 == (4 * d + 1) / 4 == (4 * d + 2) / 4 == (4 * d + 3) / 4 == d;
    PlacesOfGroup(DigitAt(digits, d));
  }

  lemma {:induction false} AllPlaces(digits: seq<int>)
    requires IsBase10000(digits)
    ensures DigitsValue(Places(digits, 0, 4 * |digits|)) == Magnitude(digits)
  {
    if |digits| > 0 {
      var n := |digits| - 1;
      AllPlaces(digits[..n]);
      PlacesOfPrefix(digits, n);
      FourPlaces(digits, 0, n);
    }
  }

  lemma {:induction false} PlacesBeyond(digits: seq<int>, k: nat)
    requires IsBase10000(digits)
    ensures DigitsValue(Places(digits, 0, 4 * |digits| + k)) == Shifted(Magnitude(digits), k)
  {
    hide Places, DecimalAt, DigitsValue, Magnitude, IsBase10000;
    Base10000IsInt16(digits);
    if k == 0 {
      AllPlaces(digits);
    } else {
      var p := 4 * |digits| + (k - 1);
      PlacesBeyond(digits, k - 1);
      OneMorePlace(digits, 0, p);
      NoDigitThere(digits, p);
    }
  }

  lemma NoDigitThere(digits: seq<int>, p: int)
    requires IsBase10000(digits) && p >= 4 * |digits|
    ensures DecimalAt(digits, p) == 0
  {
    assert p / 4 >= |digits|;
  }

  lemma {:induction false} PlacesWithin(digits: seq<int>, k: nat)
    requires IsBase10000(digits) && k <= 4 * |digits|
    ensures DigitsValue(Places(digits, 0, 4 * |digits| - k)) == Shifted(Magnitude(digits), 0 - k)
  {
    hide Places, DecimalAt, DigitsValue, Magnitude, IsBase10000;
    Base10000IsInt16(digits);
    if k == 0 {
      AllPlaces(digits);
    } else {
      PlacesWithin(digits, k - 1);
      OneMorePlace(digits, 0, 4 * |digits| - k);
    }
  }

  /** The first t decimal places, for t on either side of the stored ones. */
  lemma FirstPlaces(digits: seq<int>, t: nat)
    requires IsBase10000(digits)
    ensures DigitsValue(Places(digits, 0, t)) == Shifted(Magnitude(digits), t - 4 * |digits|)
  {
    if t >= 4 * |digits| {
      PlacesBeyond(digits, t - 4 * |digits|);
    } else {
      PlacesWithin(digits, 4 * |digits| - t);
    }
  }

  /** Shifting is one multiplication by a power of ten, or one division by it cut towards zero. */
  lemma {:induction false} ShiftedIsScaled(m: int, x: int)
    requires m >= 0
    ensures Shifted(m, x) == if x >= 0 then m * Pow10(x) else m / Pow10(-x)
    decreases if x < 0 then -x else x
  {
    if x > 0 {
      ShiftedIsScaled(m, x - 1);
      ProductAssociates(m, 10, Pow10(x - 1));
      ProductAssociates(10, m, Pow10(x - 1));
    } else if x < 0 {
      ShiftedIsScaled(m, x + 1);
      DivideTwice(m, Pow10(-x - 1), 10);
    }
  }

  lemma PlacesJoin(digits: seq<int>, lo: int, mid: int, hi: int)
    requires AreInt16(digits) && lo <= mid <= hi
    ensures Places(digits, lo, hi) == Places(digits, lo, mid) + Places(digits, mid, hi)
  {
  }

  lemma WholeTextValue(weight: nat, t: int, digits: seq<int>)
    requires IsBase10000(digits) && t >= 4 * (weight + 1)
    ensures DigitsValue(IntegerText(digits, weight) + Places(digits, 4 * (weight + 1), t))
            == Shifted(Magnitude(digits), t - 4 * |digits|)
  {
    var lead := LeadingZeros(DigitAt(digits, 0));
    PlacesJoin(digits, lead, 4 * (weight + 1), t);
    SuppressedAreZero(digits);
    LeadingZerosAddNothing(digits, 0, lead, t);
    FirstPlaces(digits, t);
  }

  lemma FractionOnlyValue(point: int, t: int, digits: seq<int>)
    requires IsBase10000(digits) && point <= 0 && t >= point
    ensures DigitsValue([48] + Places(digits, point, t)) == Shifted(Magnitude(digits), t - 4 * |digits|)
  {
    DigitsValueSkipZero(Places(digits, point, t));
    if t >= 0 {
      NothingBefore(digits, point);
      LeadingZerosAddNothing(digits, point, 0, t);
      FirstPlaces(digits, t);
    } else {
      NothingBeforeTheDigits(digits, point, t);
    }
  }

  lemma NothingBefore(digits: seq<int>, lo: int)
    requires IsBase10000(digits)
    ensures forall p :: lo <= p < 0 ==> DecimalAt(digits, p) == 0
  {
  }

  /** Numeric text denotes the stored number, cut towards zero after dscale places. */
  lemma TextDenotesNumber(weight: int, dscale: nat, digits: seq<int>)
    requires IsBase10000(digits)
    ensures DigitsValue(IntegerText(digits, weight) + FractionText(digits, weight, dscale))
            == TruncatedValue(digits, weight, dscale)
  {
    var point := 4 * (weight + 1);
    assert TruncatedValue(digits, weight, dscale) == Shifted(Magnitude(digits), point + dscale - 4 * |digits|);
    if weight >= 0 {
      WholeTextValue(weight, point + dscale, digits);
    } else {
      FractionOnlyValue(point, point + dscale, digits);
    }
  }

  lemma SuppressedAreZero(digits: seq<int>)
    requires IsBase10000(digits)
    ensures forall p :: 0 <= p < LeadingZeros(DigitAt(digits, 0)) ==> DecimalAt(digits, p) == 0
  {
  }

  lemma NothingBeforeTheDigits(digits: seq<int>, lo: int, t: int)
    requires IsBase10000(digits)
    requires lo <= t < 0
    ensures DigitsValue(Places(digits, lo, t)) == 0 == Shifted(Magnitude(digits), t - 4 * |digits|)
  {
    NothingBefore(digits, lo);
    LeadingZerosAddNothing(digits, lo, t, t);
    FirstPlaces(digits, 0);
    NothingLeft(Magnitude(digits), -4 * |digits|, t - 4 * |digits|);
  }

  lemma {:induction false} NothingLeft(m: int, x: int, y: int)
    requires y <= x <= 0
    requires Shifted(m, x) == 0
    ensures Shifted(m, y) == 0
    decreases x - y
  {
    if y < x {
      NothingLeft(m, x, y + 1);
    }
  }

  lemma FirstShownDigit(digits: seq<int>, dig: int)
    requires IsBase10000(digits) && dig == DigitAt(digits, 0)
    ensures DecimalAt(digits, LeadingZeros(dig)) == Place(dig, LeadingZeros(dig))
    ensures Place(dig, LeadingZeros(dig)) == 0 <==> dig == 0
  {
  }

  lemma PlacesAreDigits(digits: seq<int>, lo: int, hi: int)
    requires IsBase10000(digits)
    ensures AllDigits(Places(digits, lo, hi))
  {
    var s := Places(digits, lo, hi);
    forall j | 0 <= j < |s|
      ensures 48 <= s[j] <= 57
    {
      assert s[j] == DecimalChar(digits, lo + j);
    }
  }

  lemma IntegerTextIsDigits(digits: seq<int>, weight: int)
    requires IsBase10000(digits)
    ensures AllDigits(IntegerText(digits, weight))
  {
    PlacesAreDigits(digits, LeadingZeros(DigitAt(digits, 0)), 4 * (weight + 1));
  }

  /** The integer part is never empty, and has a superfluous leading zero only for an unnormalised number. */
  lemma LeadingZeroExactly(weight: int, digits: seq<int>)
    requires IsBase10000(digits)
    ensures var s := IntegerText(digits, weight);
            |s| > 0 && (|s| > 1 && s[0] == 48 <==> weight > 0 && DigitAt(digits, 0) == 0)
  {
    if weight >= 0 {
      var dig := DigitAt(digits, 0);
      FirstShownDigit(digits, dig);
      assert IntegerText(digits, weight)[0] == DecimalChar(digits, LeadingZeros(dig));
    }
  }

  // ---------------------------------------------------------------- reading the text back

  /** What a decimal numeral says: its sign, its digits as one number, and how many stand behind the point. */
  datatype Numeral = Numeral(negative: bool, digits: int, scale: nat)

  function PointAt(s: seq<byte>): (k: nat)
    ensures k <= |s|
  {
    if |s| == 0 || s[0] == 46 then 0 else 1 + PointAt(s[1..])
  }

  /** Reading a numeral: a minus is 45 in ASCII, a point 46. */
  function ReadNumeral(s: seq<byte>): Numeral {
    var negative := |s| > 0 && s[0] == 45;
    var body := if negative then s[1..] else s;
    var k := PointAt(body);
    var fraction := if k < |body| then body[k + 1..] else [];
    Numeral(negative, DigitsValue(body[..k] + fraction), |fraction|)
  }

  lemma {:induction false} PointBehindDigits(whole: seq<byte>, rest: seq<byte>)
    requires AllDigits(whole) && (|rest| > 0 ==> rest[0] == POINT)
    ensures PointAt(whole + rest) == |whole|
  {
    if |whole| == 0 {
      assert whole + rest == rest;
    } else {
      PointBehindDigits(whole[1..], rest);
      assert (whole + rest)[1..] == whole[1..] + rest;
    }
  }

  lemma NumeralParts(negative: bool, whole: seq<byte>, fraction: seq<byte>)
    requires AllDigits(whole) && |whole| > 0
    ensures ReadNumeral((if negative then [MINUS] else []) + whole + if |fraction| > 0 then [POINT] + fraction else [])
            == Numeral(negative, DigitsValue(whole + fraction), |fraction|)
  {
    hide DigitsValue, PointAt;
    var tail := if |fraction| > 0 then [POINT] + fraction else [];
    var s := (if negative then [MINUS] else []) + whole + tail;
    PointBehindDigits(whole, tail);
    var body := if negative then s[1..] else s;
    assert body == whole + tail;
    assert body[..|whole|] == whole;
    assert |fraction| > 0 ==> body[|whole| + 1..] == fraction;
    assert s[0] == if negative then MINUS else whole[0];
    assert |fraction| == 0 ==> whole + fraction == whole + [];
  }

  lemma FiniteTextParts(negative: bool, weight: int, dscale: nat, digits: seq<int>)
    requires AreInt16(digits)
    ensures var fraction := FractionText(digits, weight, dscale);
            FiniteText(negative, weight, dscale, digits)
            == (if negative then [MINUS] else []) + IntegerText(digits, weight)
               + if |fraction| > 0 then [POINT] + fraction else []
  {
    hide FractionText, IntegerText;
  }

  /** Read back, the text gives the sign, exactly dscale fraction digits, and the magnitude of the stored
      number times 10^dscale cut to an integer: magnitude M of n base-10000 digits, the first worth
      10000^weight, is M times 10^(4 (weight + 1 - n)). */
  lemma TextReadsBack(negative: bool, weight: int, dscale: nat, digits: seq<int>)
    requires IsBase10000(digits)
    ensures var x := 4 * (weight + 1 - |digits|) + dscale;
            var m := Magnitude(digits);
            ReadNumeral(FiniteText(negative, weight, dscale, digits))
            == Numeral(negative, if x >= 0 then m * Pow10(x) else m / Pow10(-x), dscale)
  {
    hide IntegerText, FractionText, FiniteText, Shifted, Magnitude, DigitsValue, ReadNumeral, IsBase10000, AreInt16,
      AllDigits, Pow10;
    Base10000IsInt16(digits);
    FiniteTextParts(negative, weight, dscale, digits);
    IntegerTextIsDigits(digits, weight);
    LeadingZeroExactly(weight, digits);
    NumeralParts(negative, IntegerText(digits, weight), FractionText(digits, weight, dscale));
    TextDenotesNumber(weight, dscale, digits);
    ShiftedIsScaled(Magnitude(digits), 4 * (weight + 1 - |digits|) + dscale);
  }

  // ---------------------------------------------------------------- the writer and its buffer

  /** The size CopyAppendNumeric allocates. */
  function BufferSize(weight: int, dscale: nat): (size: nat) {
    (if DEC_DIGITS * (weight + 1) <= 0 then 1 else DEC_DIGITS * (weight + 1)) + dscale + DEC_DIGITS + 2
  }

  /** A character, if it is put. */
  function CharIf(put: bool, c: byte): (s: seq<byte>)
    ensures |s| == if put then 1 else 0
  {
    if put then [c] else []
  }

  /** The characters of one base-10000 digit; unless `put`, leading zeros but the last are left out. */
  function GroupText(dig: int, put: bool): (s: seq<byte>)
    requires IsInt16(dig)
    ensures |s| <= 4
  {
    var put0 := put || Place(dig, 0) > 0;
    var put1 := put0 || Place(dig, 1) > 0;
    var put2 := put1 || Place(dig, 2) > 0;
    CharIf(put0, 48 + Place(dig, 0)) + CharIf(put1, 48 + Place(dig, 1)) + CharIf(put2, 48 + Place(dig, 2))
    + CharIf(true, 48 + Place(dig, 3))
  }

  lemma GroupIsPlaces(digits: seq<int>, d: int, put: bool, skip: nat)
    requires AreInt16(digits) && skip == if put then 0 else LeadingZeros(DigitAt(digits, d))
    ensures Places(digits, 4 * d + skip, 4 * d + 4) == GroupText(DigitAt(digits, d), put)
  {
    hide DigitAt, LeadingZeros, Place, DecimalChar;
    var dig := DigitAt(digits, d);
    SkippedPlaces(dig);
    CharsOfGroup(digits, d);
  }

  lemma CharsOfGroup(digits: seq<int>, d: int)
    requires AreInt16(digits)
    ensures forall k: nat :: k < 4 ==> DecimalChar(digits, 4 * d + k) == 48 + Place(DigitAt(digits, d), k)
  {
    hide DigitAt, Place;
    forall k: nat | k < 4
      ensures DecimalChar(digits, 4 * d + k) == 48 + Place(DigitAt(digits, d), k)
    {
      Quotient(4 * d + k, 4, d);
    }
  }

  lemma SkippedPlaces(dig: int)
    requires IsInt16(dig)
    ensures LeadingZeros(dig) == if Place(dig, 0) > 0 then 0 else if Place(dig, 1) > 0 then 1
                                 else if Place(dig, 2) > 0 then 2 else 3
  {
  }

  /** From `from` on nothing has been written. */
  twostate predicate Untouched(str: array<byte>, from: nat)
    reads str
  {
    forall k :: from <= k < str.Length ==> str[k] == old(str[k])
  }

  method PutIf(str: array<byte>, at: nat, c: byte, put: bool) returns (cp: nat)
    requires put ==> at < str.Length
    requires at <= str.Length
    modifies str
    ensures cp == at + |CharIf(put, c)| <= str.Length
    ensures str[..cp] == old(str[..at]) + CharIf(put, c)
    ensures Untouched(str, cp)
  {
    cp := at;
    if put {
      str[cp] := c;
      cp := cp + 1;
    }
  }

  /** One base-10000 digit as up to four characters; `putit` false suppresses leading zeros. */
  method PutGroup(str: array<byte>, at: nat, digit: int, put: bool) returns (cp: nat)
    requires IsInt16(digit) && at + 4 <= str.Length
    modifies str
    ensures cp == at + |GroupText(digit, put)| <= at + 4
    ensures str[..cp] == old(str[..at]) + GroupText(digit, put)
    ensures Untouched(str, cp)
  {
    hide Place, CDiv, CharIf;
    GroupSteps(digit);
    var putit := put;
    var dig := digit;
    var d1 := CDiv(dig, 1000);
    dig := dig - d1 * 1000;
    putit := putit || d1 > 0;
    cp := PutIf(str, at, d1 + 48, putit);
    d1 := CDiv(dig, 100);
    dig := dig - d1 * 100;
    putit := putit || d1 > 0;
    cp := PutIf(str, cp, d1 + 48, putit);
    d1 := CDiv(dig, 10);
    dig := dig - d1 * 10;
    putit := putit || d1 > 0;
    cp := PutIf(str, cp, d1 + 48, putit);
    cp := PutIf(str, cp, dig + 48, true);
  }

  /** "Output all digits before the decimal point". */
  method WriteInteger(str: array<byte>, at: nat, weight: int, digits: seq<int>) returns (cp: nat, d: int)
    requires AreInt16(digits)
    requires at + (if weight < 0 then 1 else 4 * (weight + 1)) <= str.Length
    modifies str
    ensures d == weight + 1 && cp == at + |IntegerText(digits, weight)| <= str.Length
    ensures str[..cp] == old(str[..at]) + IntegerText(digits, weight)
    ensures Untouched(str, cp)
  {
    hide GroupText;
    cp := at;
    if weight < 0 {
      d := weight + 1;
      str[cp] := 48;
      cp := cp + 1;
    } else {
      ghost var lead := LeadingZeros(DigitAt(digits, 0));
      d := 0;
      while d <= weight
        invariant 0 <= d <= weight + 1
        invariant cp == at + (if d == 0 then 0 else 4 * d - lead)
        invariant str[..cp] == old(str[..at]) + Places(digits, lead, 4 * d)
        invariant Untouched(str, cp)
      {
        var dig := if d < |digits| then digits[d] else 0;
        cp := PutGroup(str, cp, dig, d > 0);
        GroupIsPlaces(digits, d, d > 0, if d > 0 then 0 else lead);
        if d > 0 {
          PlacesJoin(digits, lead, 4 * d, 4 * d + 4);
        }
        d := d + 1;
      }
    }
  }

  /** The digits after the point: whole groups, up to three characters past the requested end. */
  method WriteFraction(str: array<byte>, at: nat, weight: int, dscale: nat, digits: seq<int>) returns (cp: nat)
    requires AreInt16(digits)
    requires at + dscale + 3 <= str.Length
    modifies str
    ensures cp == at + (dscale + 3) / 4 * 4 <= str.Length
    ensures str[..cp] == old(str[..at]) + FractionText(digits, weight, (dscale + 3) / 4 * 4)
    ensures str[..at + dscale] == old(str[..at]) + FractionText(digits, weight, dscale)
    ensures Untouched(str, cp)
  {
    hide GroupText;
    cp := at;
    ghost var point := 4 * (weight + 1);
    var d, i := weight + 1, 0;
    while i < dscale
      invariant i % 4 == 0 && i < dscale + 4
      invariant 4 * d == point + i
      invariant cp == at + i
      invariant str[..cp] == old(str[..at]) + Places(digits, point, point + i)
      invariant Untouched(str, cp)
    {
      var dig := if 0 <= d < |digits| then digits[d] else 0;
      cp := PutGroup(str, cp, dig, true);
      GroupIsPlaces(digits, d, true, 0);
      PlacesJoin(digits, point, point + i, point + i + 4);
      d, i := d + 1, i + 4;
    }
    PlacesJoin(digits, point, point + dscale, point + i);
    assert str[..at + dscale] == str[..cp][..at + dscale];
  }

  /** The characters of the last group that truncation leaves standing behind the NUL. */
  function Overshoot(weight: int, dscale: nat, digits: seq<int>): (s: seq<byte>)
    requires AreInt16(digits)
  {
    Places(digits, 4 * (weight + 1) + dscale + 1, 4 * (weight + 1) + (dscale + 3) / 4 * 4)
  }

  /** All that a run puts into its buffer, from the first byte on. */
  function Written(negative: bool, weight: int, dscale: nat, digits: seq<int>): (s: seq<byte>)
    requires AreInt16(digits)
  {
    FiniteText(negative, weight, dscale, digits) + [0] + Overshoot(weight, dscale, digits)
  }

  /** At least one byte of the buffer always stays unused, and exactly when only one does. */
  lemma BufferIsTight(negative: bool, weight: int, dscale: nat, digits: seq<int>)
    requires AreInt16(digits)
    ensures var used := |Written(negative, weight, dscale, digits)|;
            used < BufferSize(weight, dscale)
            && (used == BufferSize(weight, dscale) - 1
                <==> negative && dscale % 4 == 1 && (weight < 0 || DigitAt(digits, 0) >= 1000))
    ensures |IntegerText(digits, weight)| <= BufferSize(weight, dscale) - dscale - 6
  {
    hide DigitAt;
    assert |IntegerText(digits, weight)|
           == if weight < 0 then 1 else 4 * (weight + 1) - LeadingZeros(DigitAt(digits, 0));
    assert (dscale + 3) / 4 * 4 == dscale + (4 - dscale % 4) % 4;
  }

  /** Behind the text, the first character past the end gives way to the NUL. */
  lemma OvershootBehind(weight: int, dscale: nat, digits: seq<int>)
    requires AreInt16(digits) && dscale > 0
    ensures var all := FractionText(digits, weight, (dscale + 3) / 4 * 4);
            all[..dscale] == FractionText(digits, weight, dscale)
            && (|all| > dscale ==> all[dscale + 1..] == Overshoot(weight, dscale, digits))
            && (|all| == dscale ==> Overshoot(weight, dscale, digits) == [])
  {
    hide Places;
    var point := 4 * (weight + 1);
    var end := point + (dscale + 3) / 4 * 4;
    PlacesJoin(digits, point, point + dscale, end);
    if end > point + dscale {
      PlacesJoin(digits, point, point + dscale + 1, end);
    }
  }

  lemma NoOvershoot(weight: int, digits: seq<int>)
    requires AreInt16(digits)
    ensures Overshoot(weight, 0, digits) == []
  {
  }

  /** A sequence that agrees with the front, the point and all digits but for a zero behind the fraction. */
  lemma EndOfText(front: seq<byte>, all: seq<byte>, dscale: nat, now: seq<byte>)
    requires dscale <= |all| && |now| == |front| + 1 + if dscale < |all| then |all| else dscale + 1
    requires now[|front| + 1 + dscale] == 0
    requires forall k :: 0 <= k < |now| && k < |front| + 1 + |all| && k != |front| + 1 + dscale
                         ==> now[k] == (front + [POINT] + all)[k]
    ensures now == front + ([POINT] + all[..dscale] + [0] + if dscale < |all| then all[dscale + 1..] else [])
  {
  }

  /** The buffer has room for the sign, the integer part, and what WriteEnd needs. */
  lemma BufferHolds(negative: bool, weight: int, dscale: nat, digits: seq<int>)
    requires AreInt16(digits)
    ensures (if negative then 1 else 0) + (if weight < 0 then 1 else 4 * (weight + 1)) + dscale + 5
            <= BufferSize(weight, dscale)
  {
  }

  /** The point, the fraction cut to dscale places, and the NUL. */
  method WriteEnd(str: array<byte>, at: nat, weight: int, dscale: nat, digits: seq<int>) returns (end: nat)
    requires AreInt16(digits) && at + dscale + 5 <= str.Length
    modifies str
    ensures var tail := PointText(digits, weight, dscale) + [0] + Overshoot(weight, dscale, digits);
            && end == at + |PointText(digits, weight, dscale)| && at + |tail| <= str.Length
            && str[..at + |tail|] == old(str[..at]) + tail && Untouched(str, at + |tail|)
  {
    hide FractionText, Overshoot;
    ghost var front := str[..at];
    if dscale > 0 {
      var cp := PutIf(str, at, POINT, true);
      end := cp + dscale;
      cp := WriteFraction(str, cp, weight, dscale, digits);
      OvershootBehind(weight, dscale, digits);
      ghost var fraction := FractionText(digits, weight, (dscale + 3) / 4 * 4);
      ghost var text := str[..cp];
      assert text == front + [POINT] + fraction;
      str[end] := 0;
      EndOfText(front, fraction, dscale, str[..if end < cp then cp else end + 1]);
    } else {
      end := at;
      str[end] := 0;
      NoOvershoot(weight, digits);
    }
  }

  /** The finite branch of CopyAppendNumeric on the buffer it has allocated: whatever the buffer held, it
      now starts with the text, the NUL and the rest of the last group, and no byte behind has changed. */
  method FillBuffer(str: array<byte>, negative: bool, weight: int, dscale: nat, digits: seq<int>) returns (end: nat)
    requires AreInt16(digits) && str.Length == BufferSize(weight, dscale)
    modifies str
    ensures var written := Written(negative, weight, dscale, digits);
            |written| < str.Length && str[..|written|] == written && Untouched(str, |written|)
    ensures end == |FiniteText(negative, weight, dscale, digits)|
  {
    hide IntegerText, PointText, Overshoot, BufferSize;
    BufferIsTight(negative, weight, dscale, digits);
    BufferHolds(negative, weight, dscale, digits);
    var cp := PutIf(str, 0, MINUS, negative);
    var d;
    cp, d := WriteInteger(str, cp, weight, digits);
    ghost var front := str[..cp];
    end := WriteEnd(str, cp, weight, dscale, digits);
    assert Written(negative, weight, dscale, digits)
           == front + (PointText(digits, weight, dscale) + [0] + Overshoot(weight, dscale, digits));
  }

  method WriteNumeric(negative: bool, weight: int, dscale: nat, digits: seq<int>)
    returns (str: array<byte>, end: nat)
    requires AreInt16(digits)
    ensures fresh(str) && str.Length == BufferSize(weight, dscale)
    ensures end < str.Length && str[end] == 0
    ensures str[..end] == FiniteText(negative, weight, dscale, digits)
  {
    hide FiniteText, BufferSize;
    str := new byte[BufferSize(weight, dscale)];
    end := FillBuffer(str, negative, weight, dscale, digits);
    ghost var written := Written(negative, weight, dscale, digits);
    assert str[end] == written[end] && str[..end] == written[..end];
  }

  // ---------------------------------------------------------------- a whole stored value

  const NUMERIC_NAN: int := 0xC000
  const NUMERIC_PINF: int := 0xD000
  const NUMERIC_NINF: int := 0xF000

  /** The digit array behind the header; an odd last byte is ignored. */
  function DigitArray(s: seq<byte>): (digits: seq<int>)
    ensures |digits| == |s| / 2 && AreInt16(digits)
  {
    if |s| < 2 then [] else [SignedAt(s[..2], 2)] + DigitArray(s[2..])
  }

  function DigitBytes(digits: seq<int>): (s: seq<byte>)
    requires IsBase10000(digits)
    ensures |s| == 2 * |digits|
  {
    if |digits| == 0 then [] else LeBytes(digits[0], 2) + DigitBytes(digits[1..])
  }

  lemma {:induction false} DigitArrayRoundTrip(digits: seq<int>)
    requires IsBase10000(digits)
    ensures DigitArray(DigitBytes(digits)) == digits
  {
    if |digits| > 0 {
      DigitArrayRoundTrip(digits[1..]);
      LeRoundTrip(digits[0], 2);
      assert Pow256(2) == 0x1_0000;
      assert DigitBytes(digits)[..2] == LeBytes(digits[0], 2);
      assert DigitBytes(digits)[2..] == DigitBytes(digits[1..]);
    }
  }

  /** Whether the code stays inside the value: its header is complete. */
  predicate HasHeader(buffer: seq<byte>) {
    |buffer| >= 2 && (IsSpecial(HeaderWord(buffer)) || |buffer| >= HeaderSize(HeaderWord(buffer)))
  }

  function StoredWeight(buffer: seq<byte>): int
    requires |buffer| >= 2 && |buffer| >= HeaderSize(HeaderWord(buffer))
  {
    var h := HeaderWord(buffer);
    Weight(h, if IsShort(h) then 0 else HeaderWord(buffer[2..4]))
  }

  /** The text appended for a stored value; None is the error return for an unknown special. */
  function StoredText(buffer: seq<byte>): Option<seq<byte>>
    requires HasHeader(buffer)
  {
    var h := HeaderWord(buffer);
    if IsSpecial(h) then
      if h == NUMERIC_NINF then Some(Ascii("-Infinity"))
      else if h == NUMERIC_PINF then Some(Ascii("Infinity"))
      else if h == NUMERIC_NAN then Some(Ascii("NaN"))
      else None
    else if |buffer| == HeaderSize(h) then Some([48])
    else Some(FiniteText(IsNegative(h), StoredWeight(buffer), DisplayScale(h), DigitArray(buffer[HeaderSize(h)..])))
  }

  /** A finite number as PostgreSQL stores it, in the form it fits. */
  function StoredNumber(short: bool, negative: bool, weight: int, dscale: nat, digits: seq<int>): (s: seq<byte>)
    requires IsBase10000(digits)
    requires if short then dscale < 64 && -64 <= weight < 64 else dscale < 0x4000 && -0x8000 <= weight < 0x8000
  {
    assert Pow256(2) == 0x1_0000;
    (if short then LeBytes(ShortHeader(negative, dscale, weight), 2)
     else LeBytes(LongHeader(negative, dscale), 2) + LeBytes(Unsigned(weight, 2), 2)) + DigitBytes(digits)
  }

  /** Every header form with digits behind it is printed as its sign, weight, scale and digits say;
      without digits the scale is not printed. */
  lemma StoredNumberText(short: bool, negative: bool, weight: int, dscale: nat, digits: seq<int>)
    requires IsBase10000(digits)
    requires if short then dscale < 64 && -64 <= weight < 64 else dscale < 0x4000 && -0x8000 <= weight < 0x8000
    ensures var s := StoredNumber(short, negative, weight, dscale, digits);
            HasHeader(s)
            && StoredText(s) == Some(if |digits| == 0 then [48] else FiniteText(negative, weight, dscale, digits))
  {
    var s := StoredNumber(short, negative, weight, dscale, digits);
    var h := if short then ShortHeader(negative, dscale, weight) else LongHeader(negative, dscale);
    assert Pow256(2) == 0x1_0000;
    var size := if short then 2 else 4;
    if short {
      ShortHeaderRoundTrip(negative, dscale, weight, 0);
    } else {
      LongHeaderRoundTrip(negative, dscale, weight);
      LeRoundTrip(Unsigned(weight, 2), 2);
      assert s[2..4][..2] == LeBytes(Unsigned(weight, 2), 2);
    }
    LeRoundTrip(h, 2);
    assert s[..2] == LeBytes(h, 2);
    assert HeaderWord(s) == h;
    assert s[size..] == DigitBytes(digits);
    DigitArrayRoundTrip(digits);
  }
}
