/** What a column's text says is what was stored: every printed value is read back, and every printed row. */
module Meanings {
  import opened Bytes
  import opened Decimal
  import opened Calendar
  import opened Numeric
  import opened StringInfos
  import opened CopyLines
  import opened Tuples
  import opened Rows
  import opened TextReaders

  // ---------------------------------------------------------------- dates and times

  /** PostgreSQL counts days from 1 January 2000. */
  lemma EpochIs2000()
    ensures EPOCH == DayNumber(Date(2000, 1, 1))
    ensures FIRST_TIMESTAMP == (ORIGIN - DayNumber(Date(2000, 1, 1))) * 86_400_000_000
  {
  }

  /** The date n days after 1 January 2000. */
  function DateAt(n: int): (d: Date)
    requires n >= ORIGIN - DayNumber(Date(2000, 1, 1))
    ensures ValidDate(d) && DayNumber(d) == DayNumber(Date(2000, 1, 1)) + n
  {
    CalendarDayNumber(DayNumber(Date(2000, 1, 1)) + n - ORIGIN);
    CalendarDay(DayNumber(Date(2000, 1, 1)) + n - ORIGIN)
  }

  lemma DateIsRead(date: Date, rest: seq<byte>)
    requires ValidDate(date) && (|rest| > 0 ==> !IsDigit(rest[0]))
    ensures ReadDateText(DateText(date) + rest) == Some((Date(PrintedYear(date.year), date.month, date.day), rest))
  {
    hide ReadNumberField, PadText, ValidDate;
    ValidFields(date);
    var day := [45] + PadText(date.day, 2) + rest;
    var month := [45] + PadText(date.month, 2) + day;
    NumberFieldIsRead(date.day, [45], 2, rest);
    NumberFieldIsRead(date.month, [45], 2, day);
    NumberFieldIsRead(PrintedYear(date.year), [], 4, month);
    assert DateText(date) + rest == [] + PadText(PrintedYear(date.year), 4) + month;
  }

  lemma ValidFields(date: Date)
    requires ValidDate(date)
    ensures date.month >= 0 && date.day >= 0 && PrintedYear(date.year) > 0
  {
  }

  lemma ClockIsRead(usec: nat, rest: seq<byte>)
    requires usec < 86_400_000_000 && (|rest| > 0 ==> !IsDigit(rest[0]))
    ensures ReadClock(ClockText(usec) + rest) == Some((usec, rest))
  {
    hide ReadNumberField, PadText, Ascii;
    var sec := usec / 1_000_000;
    Separators();
    var fraction := [46] + PadText(usec % 1_000_000, 6) + rest;
    var second := [58] + PadText(sec % 60, 2) + fraction;
    var minute := [58] + PadText((sec / 60) % 60, 2) + second;
    NumberFieldIsRead(usec % 1_000_000, [46], 6, rest);
    NumberFieldIsRead(sec % 60, [58], 2, fraction);
    NumberFieldIsRead((sec / 60) % 60, [58], 2, second);
    NumberFieldIsRead(sec / 60 / 60, [], 2, minute);
    assert ClockText(usec) + rest == [] + PadText(sec / 60 / 60, 2) + minute;
  }

  lemma Separators()
    ensures Ascii(":") == [58] && Ascii(".") == [46] && Ascii(" ") == [32]
    ensures Ascii("+00") == [43, 48, 48] && Ascii(" BC") == [32, 66, 67]
  {
  }

  lemma InfinityTexts()
    ensures Ascii("infinity") == INFINITY && Ascii("-infinity") == [45] + INFINITY
    ensures Ascii("Infinity") == [73] + INFINITY[1..] && Ascii("-Infinity") == [45, 73] + INFINITY[1..]
    ensures Ascii("NaN") == [78, 97, 78]
  {
  }

  lemma EraIsRead(date: Date)
    requires ValidDate(date)
    ensures ReadEra(Date(PrintedYear(date.year), date.month, date.day), EraText(date)) == Some(date)
    ensures |EraText(date)| > 0 ==> EraText(date)[0] == 32
  {
    hide Ascii, ValidDate;
    Separators();
  }

  lemma StartsWithDigit(date: Date, rest: seq<byte>)
    requires ValidDate(date)
    ensures var s := DateText(date) + rest; |s| > 0 && IsDigit(s[0])
  {
    hide ValidDate;
    ValidFields(date);
    var digits := NatText(PrintedYear(date.year));
    assert IsDigit(digits[0]);
    assert PadText(PrintedYear(date.year), 4)[0] == if |digits| >= 4 then digits[0] else 48;
  }

  /** A stored date is printed as the date so many days after 1 January 2000, or as its infinity. */
  function DayMeaning(n: int): Meaning
    requires ValidDay(n)
  {
    EpochIs2000();
    if n == -0x8000_0000 then MinusInfinity else if n == 0x7FFF_FFFF then PlusInfinity else Day(DateAt(n))
  }

  lemma DayIsRead(n: int)
    requires ValidDay(n)
    ensures ReadDateColumn(DayValueText(n)) == Some(DayMeaning(n))
  {
    hide DateText, EraText, CalendarDay, ReadDateText, ReadEra, Ascii, DayNumber;
    EpochIs2000();
    InfinityTexts();
    if n != -0x8000_0000 && n != 0x7FFF_FFFF {
      var date := DateAt(n);
      EraIsRead(date);
      DateIsRead(date, EraText(date));
      StartsWithDigit(date, EraText(date));
    }
  }

  /** A stored timestamp is printed as that many microseconds after 1 January 2000. */
  function StampMeaning(n: int): Meaning
    requires ValidStamp(n)
  {
    EpochIs2000();
    if n == -0x8000_0000_0000_0000 then MinusInfinity
    else if n == 0x7FFF_FFFF_FFFF_FFFF then PlusInfinity
    else Moment(DateAt(n / 86_400_000_000), n % 86_400_000_000)
  }

  lemma StampIsRead(n: int, tz: bool)
    requires ValidStamp(n)
    ensures ReadStampColumn(StampValueText(n, tz), tz) == Some(StampMeaning(n))
  {
    hide DateText, EraText, ClockText, CalendarDay, ReadDateText, ReadClock, ReadEra, Ascii, DayNumber;
    EpochIs2000();
    InfinityTexts();
    if n != -0x8000_0000_0000_0000 && n != 0x7FFF_FFFF_FFFF_FFFF {
      FiniteStampIsRead(DateAt(n / 86_400_000_000), n % 86_400_000_000, tz);
      StartsWithDigit(DateAt(n / 86_400_000_000), []);
    }
  }

  lemma FiniteStampIsRead(date: Date, usec: nat, tz: bool)
    requires ValidDate(date) && usec < 86_400_000_000
    ensures var s := DateText(date) + Ascii(" ") + ClockText(usec) + (if tz then Ascii("+00") else []) + EraText(date);
            ReadMoment(s, tz) == Some(Moment(date, usec)) && |s| > 0 && IsDigit(s[0])
  {
    hide DateText, EraText, ClockText, ReadDateText, ReadClock, ReadEra, Ascii, ValidDate;
    Separators();
    ValidFields(date);
    EraIsRead(date);
    var zone := if tz then [43, 48, 48] else [];
    var end := zone + EraText(date);
    var clock := [32] + (ClockText(usec) + end);
    DateIsRead(date, clock);
    ClockIsRead(usec, end);
    StartsWithDigit(date, clock);
    assert DateText(date) + Ascii(" ") + ClockText(usec) + (if tz then Ascii("+00") else []) + EraText(date)
           == DateText(date) + clock;
    assert clock[1..] == ClockText(usec) + end;
    assert end[|zone|..] == EraText(date);
  }

  // ---------------------------------------------------------------- numbers

  /** A number's sign, and its magnitude cut to dscale places. */
  function NumberMeaning(x: Number): Meaning
    requires ValidNumber(x)
  {
    match x
    case NaN => NotANumber
    case PosInfinity => PlusInfinity
    case NegInfinity => MinusInfinity
    case Finite(_, negative, weight, dscale, digits) =>
      if |digits| == 0 then Fraction(Numeral(false, 0, 0))
      else
        var e := 4 * (weight + 1 - |digits|) + dscale;
        var m := Magnitude(digits);
        Fraction(Numeral(negative, if e >= 0 then m * Pow10(e) else m / Pow10(-e), dscale))
  }

  lemma NumberIsReadBack(x: Number)
    requires ValidNumber(x)
    ensures ReadNumericColumn(NumberText(x)) == NumberMeaning(x)
  {
    hide Ascii, FiniteText, ReadNumeral, Pow10, Magnitude;
    InfinityTexts();
    match x
    case Finite(_, negative, weight, dscale, digits) =>
      if |digits| == 0 {
        ZeroIsRead();
      } else {
        TextReadsBack(negative, weight, dscale, digits);
        FiniteTextIsNumeral(negative, weight, dscale, digits);
        NumeralIsNoWord(FiniteText(negative, weight, dscale, digits));
      }
    case _ =>
  }

  lemma ZeroIsRead()
    ensures ReadNumeral([48]) == Numeral(false, 0, 0)
  {
    PointBehindDigits([48], []);
    assert [48] + [] == [48] && [48][..1] == [48] && [48][..0] == [];
    assert DigitsValue([48]) == 10 * DigitsValue([48][..0]);
  }

  lemma NumeralIsNoWord(s: seq<byte>)
    requires AllNumeral(s)
    ensures s != [78, 97, 78] && s != [73] + INFINITY[1..] && s != [45, 73] + INFINITY[1..]
  {
    assert |s| > 1 ==> IsNumeralChar(s[0]) && IsNumeralChar(s[1]);
  }

  // ---------------------------------------------------------------- every value, every row

  function ReadText(ty: ColumnType, s: seq<byte>): Option<Meaning> {
    match ty
    case DateColumn => ReadDateColumn(s)
    case TimestampColumn(tz) => ReadStampColumn(s, tz)
    case BoolColumn => ReadBool(s)
    case CharColumn => Some(Words(Unescape(s)))
    case NameColumn => Some(Words(Unescape(s)))
    case StringColumn => Some(Words(Unescape(s)))
    case NumericColumn => Some(ReadNumericColumn(s))
    case IgnoreColumn => None
    case _ =>
      match ReadInt(s)
      case None => None
      case Some(n) => Some(Whole(n))
  }

  function ContentMeaning(content: Content): Meaning
    requires ValidContent(content)
  {
    match content
    case Characters(s) => Words(TabsToCrs(s))
    case Quantity(x) => NumberMeaning(x)
  }

  /** A value printed as itself, not as a marker for what is stored elsewhere. */
  predicate IsPrinted(v: Value, lib: Library) {
    !v.InMemory? && (v.OnDisk? ==> lib.follow)
  }

  /** What a stored value says; of characters, a tab says a carriage return. */
  function MeaningOf(v: Value, lib: Library): Meaning
    requires ValidValue(v, lib) && IsPrinted(v, lib)
  {
    match v
    case Smallint(n) => Whole(n)
    case Int(n) => Whole(n)
    case Uint(n) => Whole(n)
    case Bigint(n) => Whole(n)
    case DayValue(n) => DayMeaning(n)
    case Stamp(n, _) => StampMeaning(n)
    case Bool(raw) => Truth(raw != 0)
    case Char(c) => Words(TabsToCrs([c]))
    case Name(s) => Words(TabsToCrs(s))
    case Str(_, s) => Words(TabsToCrs(s))
    case Num(_, x) => NumberMeaning(x)
    case OnDisk(content, _, _, _) => ContentMeaning(content)
  }

  /** The printed text of any value says the value, in whatever form it was stored. */
  lemma ValueIsReadBack(v: Value, lib: Library)
    requires ValidValue(v, lib) && IsPrinted(v, lib)
    ensures ReadText(TypeOf(v), ValueText(v, lib)) == Some(MeaningOf(v, lib))
  {
    hide ReadInt, IntText, ReadDateColumn, ReadStampColumn, ReadNumericColumn, DayValueText, StampValueText, NumberText,
      DayMeaning, StampMeaning, NumberMeaning, Escape, Unescape, TabsToCrs, Ascii, FormFits, IsStored, ValidDay,
      ValidStamp;
    match v
    case Smallint(n) => IntIsRead(n);
    case Int(n) => IntIsRead(n);
    case Uint(n) => IntIsRead(n);
    case Bigint(n) => IntIsRead(n);
    case DayValue(n) => DayIsRead(n);
    case Stamp(n, tz) => StampIsRead(n, tz);
    case Bool(_) => BoolTexts();
    case Char(c) => UnescapeEscape([c]);
    case Name(s) => UnescapeEscape(s);
    case Str(_, s) => UnescapeEscape(s);
    case Num(_, x) => NumberIsReadBack(x);
    case OnDisk(content, _, _, _) =>
      if content.Characters? {
        UnescapeEscape(content.s);
      } else {
        NumberIsReadBack(content.x);
      }
  }

  lemma BoolTexts()
    ensures Ascii("t") == [116] && Ascii("f") == [102]
  {
  }

  /** Forming a row, decoding it and reading the line gives back, attribute by attribute, the nulls and what
      the values say. */
  lemma RowIsReadBack(row: Row, types: seq<ColumnType>, nulls: Option<seq<byte>>, addr: nat, tail: seq<byte>,
                      lib: Library)
    requires Describes(types, nulls, row, lib) && EndsWith(types, nulls, |row|, tail)
    requires |row| > 0 && (|row| > 1 && row[0].Some? ==> !IsEmptyText(row[0].value))
    ensures var outcome := DecodeFrom(types, 0, nulls, RowBytes(row, addr, lib) + tail, addr, [], lib);
            outcome.Flushed?
            && var texts := Split(outcome.line);
            |texts| == |row|
            && forall k :: 0 <= k < |row| ==>
                 && (row[k].None? <==> texts[k] == [92, 78])
                 && (row[k].Some? && IsPrinted(row[k].value, lib)
                     ==> ReadText(types[k], texts[k]) == Some(MeaningOf(row[k].value, lib)))
  {
    hide DecodeFrom, RowBytes, Line, Split, RowTexts, ValueText, IsNull, ValidValue, IsEmptyText, ReadText, MeaningOf,
      IsPrinted, TypeOf;
    RowIsSplitBack(row, types, nulls, addr, tail, lib);
    forall k | 0 <= k < |row| && row[k].Some? && IsPrinted(row[k].value, lib)
      ensures ReadText(types[k], RowTexts(row, lib)[k]) == Some(MeaningOf(row[k].value, lib))
    {
      RowTextAt(row, k, lib);
      ValueIsReadBack(row[k].value, lib);
    }
  }
}
