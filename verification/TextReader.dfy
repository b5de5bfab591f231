/** Reading the printed texts back, in ASCII codes and without a word of the code that prints them. */
module TextReaders {
  import opened Bytes
  import opened Decimal
  import opened Calendar
  import opened Numeric
  import opened CopyLines

  predicate IsDigit(c: byte) { 48 <= c <= 57 }

  /** How many digits the text starts with. */
  function DigitRun(s: seq<byte>): (k: nat)
    ensures k <= |s|
  {
    if |s| > 0 && IsDigit(s[0]) then 1 + DigitRun(s[1..]) else 0
  }

  /** A number of at least w digits, more only without a leading zero, and what follows it. */
  function ReadNumber(s: seq<byte>, w: nat): Option<(int, seq<byte>)> {
    var k := DigitRun(s);
    if k < w || k == 0 || (k > w && s[0] == 48) then None else Some((DigitsValue(s[..k]), s[k..]))
  }

  /** The same behind a separator. */
  function ReadNumberField(s: seq<byte>, separator: seq<byte>, w: nat): Option<(int, seq<byte>)> {
    if separator <= s then ReadNumber(s[|separator|..], w) else None
  }

  /** A whole number: a minus only before a positive one, and no leading zero. */
  function ReadInt(s: seq<byte>): Option<int> {
    match ReadNumberField(s, if |s| > 0 && s[0] == 45 then [45] else [], 1)
    case None => None
    case Some((n, rest)) =>
      if rest != [] then None else if s[0] != 45 then Some(n) else if n > 0 then Some(-n) else None
  }

  /** Year, month and day with minus signs between. */
  function ReadDateText(s: seq<byte>): Option<(Date, seq<byte>)> {
    match ReadNumberField(s, [], 4)
    case None => None
    case Some((year, s1)) =>
      match ReadNumberField(s1, [45], 2)
      case None => None
      case Some((month, s2)) =>
        match ReadNumberField(s2, [45], 2)
        case None => None
        case Some((day, s3)) => Some((Date(year, month, day), s3))
  }

  /** Microseconds of a day: hours, minutes and seconds with colons between, and six places. */
  function ReadClock(s: seq<byte>): Option<(int, seq<byte>)> {
    match ReadNumberField(s, [], 2)
    case None => None
    case Some((hour, s1)) =>
      match ReadNumberField(s1, [58], 2)
      case None => None
      case Some((minute, s2)) =>
        match ReadNumberField(s2, [58], 2)
        case None => None
        case Some((second, s3)) =>
          match ReadNumberField(s3, [46], 6)
          case None => None
          case Some((usec, s4)) =>
            if hour < 24 && minute < 60 && second < 60 && usec < 1_000_000 then
              Some((3_600_000_000 * hour + 60_000_000 * minute + 1_000_000 * second + usec, s4))
            else None
  }

  /** The end of a date: nothing, or " BC" for the years before 1, of which 0 is 1 BC. */
  function ReadEra(date: Date, s: seq<byte>): Option<Date> {
    if date.year <= 0 then None
    else if s == [] then Some(date)
    else if s == [32, 66, 67] then Some(Date(1 - date.year, date.month, date.day))
    else None
  }

  /** What a printed text says. */
  datatype Meaning =
    | Whole(n: int) | Truth(b: bool) | Words(s: seq<byte>)
    | Day(date: Date) | Moment(date: Date, usec: int)
    | Fraction(numeral: Numeral) | NotANumber | PlusInfinity | MinusInfinity

  function ReadDay(s: seq<byte>): Option<Meaning> {
    match ReadDateText(s)
    case None => None
    case Some((date, s1)) =>
      match ReadEra(date, s1)
      case None => None
      case Some(d) => Some(Day(d))
  }

  /** Date, space, clock, "+00" for a timestamp with time zone, era. */
  function ReadMoment(s: seq<byte>, tz: bool): Option<Meaning> {
    match ReadDateText(s)
    case None => None
    case Some((date, s1)) =>
      if !([32] <= s1) then None
      else
        match ReadClock(s1[1..])
        case None => None
        case Some((usec, s2)) =>
          var zone := if tz then [43, 48, 48] else [];
          if !(zone <= s2) then None
          else
            match ReadEra(date, s2[|zone|..])
            case None => None
            case Some(d) => Some(Moment(d, usec))
  }

  const INFINITY: seq<byte> := [105, 110, 102, 105, 110, 105, 116, 121]

  function ReadDateColumn(s: seq<byte>): Option<Meaning> {
    if s == INFINITY then Some(PlusInfinity) else if s == [45] + INFINITY then Some(MinusInfinity) else ReadDay(s)
  }

  function ReadStampColumn(s: seq<byte>, tz: bool): Option<Meaning> {
    if s == INFINITY then Some(PlusInfinity)
    else if s == [45] + INFINITY then Some(MinusInfinity)
    else ReadMoment(s, tz)
  }

  /** A numeric: NaN, a capitalised infinity, or a numeral. */
  function ReadNumericColumn(s: seq<byte>): Meaning {
    if s == [78, 97, 78] then NotANumber
    else if s == [73] + INFINITY[1..] then PlusInfinity
    else if s == [45, 73] + INFINITY[1..] then MinusInfinity
    else Fraction(ReadNumeral(s))
  }

  function ReadBool(s: seq<byte>): Option<Meaning> {
    if s == [116] then Some(Truth(true)) else if s == [102] then Some(Truth(false)) else None
  }

  // ---------------------------------------------------------------- numbers

  lemma {:induction false} NatTextIsCanonical(n: nat)
    ensures |NatText(n)| > 1 ==> NatText(n)[0] != 48
    ensures n > 0 ==> NatText(n)[0] != 48
  {
    if n >= 10 {
      NatTextIsCanonical(n / 10);
      assert NatText(n)[0] == NatText(n / 10)[0];
    } else {
      assert NatText(n) == [48 + n];
    }
  }

  lemma {:induction false} RunOfDigits(digits: seq<byte>, rest: seq<byte>)
    requires AllDigits(digits) && (|rest| > 0 ==> !IsDigit(rest[0]))
    ensures DigitRun(digits + rest) == |digits|
  {
    if |digits| == 0 {
      assert digits + rest == rest;
    } else {
      assert (digits + rest)[1..] == digits[1..] + rest;
      RunOfDigits(digits[1..], rest);
    }
  }

  lemma {:induction false} ZerosAddNothing(k: nat, s: seq<byte>)
    ensures DigitsValue(seq<byte>(k, _ => 48) + s) == DigitsValue(s)
  {
    var zeros := seq<byte>(k, _ => 48);
    if k == 0 {
      assert zeros + s == s;
    } else {
      ZerosAddNothing(k - 1, s);
      DigitsValueSkipZero(seq<byte>(k - 1, _ => 48) + s);
      assert zeros + s == [48] + (seq<byte>(k - 1, _ => 48) + s);
    }
  }

  /** Padded text is the number with as many digits as asked for, or more of its own. */
  lemma PadIsRead(n: nat, w: nat, rest: seq<byte>)
    requires w > 0 && (|rest| > 0 ==> !IsDigit(rest[0]))
    ensures ReadNumber(PadText(n, w) + rest, w) == Some((n, rest))
  {
    hide DigitsValue, DigitRun;
    var s := PadText(n, w);
    var digits := NatText(n);
    NatTextIsCanonical(n);
    if |digits| < w {
      ZerosAddNothing(w - |digits|, digits);
    }
    assert AllDigits(s) && DigitsValue(s) == n;
    RunOfDigits(s, rest);
    assert (s + rest)[..|s|] == s && (s + rest)[|s|..] == rest;
  }

  lemma NumberFieldIsRead(n: nat, separator: seq<byte>, w: nat, rest: seq<byte>)
    requires w > 0 && (|rest| > 0 ==> !IsDigit(rest[0]))
    ensures ReadNumberField(separator + PadText(n, w) + rest, separator, w) == Some((n, rest))
  {
    hide ReadNumber;
    PadIsRead(n, w, rest);
    var s := separator + PadText(n, w) + rest;
    assert s[|separator|..] == PadText(n, w) + rest;
  }

  lemma IntIsRead(n: int)
    ensures ReadInt(IntText(n)) == Some(n)
  {
    hide ReadNumberField, NatText;
    var m := if n < 0 then -n else n;
    assert PadText(m, 1) == NatText(m);
    NatTextIsCanonical(m);
    if n < 0 {
      NumberFieldIsRead(m, [45], 1, []);
      assert IntText(n) == [45] + PadText(m, 1) + [];
    } else {
      NumberFieldIsRead(m, [], 1, []);
      assert IntText(n) == [] + PadText(m, 1) + [];
      assert IsDigit(NatText(m)[0]);
    }
  }
}
