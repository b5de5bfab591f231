/** Decoding a heap tuple by a list of column types (FormatDecode and its callbacks). */
module Tuples {
  import opened Bytes
  import opened Decimal
  import opened Calendar
  import opened Numeric
  import opened StringInfos
  import opened CopyLines
  import Toast

  datatype ColumnType =
    | SmallintColumn | IntColumn | UintColumn | BigintColumn | DateColumn | TimestampColumn(tz: bool)
    | BoolColumn | CharColumn | NameColumn | StringColumn | NumericColumn | IgnoreColumn

  type Negative = code: int | code < 0 witness -1

  /** What a decompressor returns: the bytes, or its error code. */
  datatype Unpacked = Restored(bytes: seq<byte>) | Broken(code: Negative)

  /** What decoding a tuple depends on beyond the tuple: pglz and LZ4 (method, packed bytes and expected size
      to a result), the option to follow pointers into TOAST files, and those files by relation id. */
  datatype Library = Library(unpack: (nat, seq<byte>, nat) -> Unpacked, follow: bool,
                             relation: nat -> Option<seq<seq<Toast.Item>>>)

  const PGLZ: nat := 0
  const LZ4: nat := 1

  /** The switch over the compression method. */
  function Unpack(lib: Library, compression: nat, packed: seq<byte>, size: nat): Unpacked {
    if compression == PGLZ || compression == LZ4 then lib.unpack(compression, packed, size) else Broken(-1)
  }

  /** One callback's outcome: undefined bytes read or a signed overflow, where C defines nothing;
      a negative code; or the bytes used and the text appended. */
  datatype Attempt = Undefined | Failed(code: int) | Done(processed: nat, text: Option<seq<byte>>)

  // ---------------------------------------------------------------- fixed-width callbacks

  predicate IsFixed(ty: ColumnType) {
    !ty.StringColumn? && !ty.NumericColumn? && !ty.IgnoreColumn?
  }

  function Width(ty: ColumnType): (w: nat)
    requires IsFixed(ty)
    ensures w > 0
  {
    match ty
    case SmallintColumn => 2
    case BigintColumn => 8
    case TimestampColumn(_) => 8
    case BoolColumn => 1
    case CharColumn => 1
    case NameColumn => 64
    case _ => 4
  }

  function Alignment(ty: ColumnType): (a: nat)
    requires IsFixed(ty)
    ensures IsAlignment(a)
  {
    match ty
    case SmallintColumn => 2
    case BigintColumn => 8
    case TimestampColumn(_) => 8
    case BoolColumn => 1
    case CharColumn => 1
    case NameColumn => 1
    case _ => 4
  }

  function ShortCode(ty: ColumnType): int {
    if ty.BoolColumn? || ty.NameColumn? then -1 else -2
  }

  function DateText(date: Date): seq<byte>
    requires date.month >= 0 && date.day >= 0
  {
    PadText(PrintedYear(date.year), 4) + [MINUS] + PadText(date.month, 2) + [MINUS] + PadText(date.day, 2)
  }

  function EraText(date: Date): seq<byte> {
    if date.year <= 0 then Ascii(" BC") else []
  }

  function ClockText(usec: nat): seq<byte> {
    var sec := usec / 1_000_000;
    PadText(sec / 60 / 60, 2) + Ascii(":") + PadText((sec / 60) % 60, 2) + Ascii(":") + PadText(sec % 60, 2)
    + Ascii(".") + PadText(usec % 1_000_000, 6)
  }

  /** Days since 2000-01-01; None when the day number leaves the 32-bit range. */
  function DayText(d: int): Option<seq<byte>>
    requires IsInt32(d)
  {
    if d == -0x8000_0000 then Some(Ascii("-infinity"))
    else if d == 0x7FFF_FFFF then Some(Ascii("infinity"))
    else if !IsInt32(d + EPOCH) then None
    else
      var date := JulianToDate(d + EPOCH);
      JulianToDateInRange(d + EPOCH);
      Some(DateText(date) + EraText(date))
  }

  function StampText(stamp: int, tz: bool): seq<byte>
    requires IsInt64(stamp)
  {
    if stamp == DT_NOBEGIN then Ascii("-infinity")
    else if stamp == DT_NOEND then Ascii("infinity")
    else
      var date := JulianToDate(stamp / USECS_PER_DAY + EPOCH);
      JulianToDateInRange(stamp / USECS_PER_DAY + EPOCH);
      DateText(date) + Ascii(" ") + ClockText(stamp % USECS_PER_DAY)
      + (if tz then Ascii("+00") else []) + EraText(date)
  }

  /** The bytes before the first NUL, at most all of them. */
  function UpToNul(s: seq<byte>): seq<byte> {
    if |s| == 0 || s[0] == 0 then [] else [s[0]] + UpToNul(s[1..])
  }

  function FixedText(ty: ColumnType, p: seq<byte>): Option<seq<byte>>
    requires IsFixed(ty) && |p| == Width(ty)
  {
    assert Pow256(4) == 0x1_0000_0000 && Pow256(8) == 0x1_0000_0000_0000_0000;
    match ty
    case SmallintColumn => Some(IntText(SignedAt(p, 2)))
    case IntColumn => Some(IntText(SignedAt(p, 4)))
    case UintColumn => Some(IntText(LeValue(p)))
    case BigintColumn => Some(IntText(SignedAt(p, 8)))
    case DateColumn => DayText(SignedAt(p, 4))
    case TimestampColumn(tz) => Some(StampText(SignedAt(p, 8), tz))
    case BoolColumn => Some(if p[0] != 0 then Ascii("t") else Ascii("f"))
    case CharColumn => Some(Escape(p))
    case NameColumn => Some(Escape(UpToNul(p)))
  }

  function FixedAttempt(ty: ColumnType, data: seq<byte>, addr: nat): (a: Attempt)
    requires IsFixed(ty)
    ensures a.Done? ==> a.processed <= |data|
  {
    var delta := AlignUp(addr, Alignment(ty)) - addr;
    if |data| < delta then Failed(-1)
    else if |data| - delta < Width(ty) then Failed(ShortCode(ty))
    else
      match FixedText(ty, data[delta..delta + Width(ty)])
      case None => Undefined
      case Some(text) => Done(delta + Width(ty), Some(text))
  }

  // ---------------------------------------------------------------- varlena callbacks

  /** parse_value applied to the payload, after which `processed` bytes count as used. */
  function ParseAttempt(numeric: bool, payload: seq<byte>, processed: nat): (a: Attempt)
    ensures a.Done? ==> a.processed == processed
  {
    if !numeric then Done(processed, Some(Escape(payload)))
    else if !HasHeader(payload) then Undefined
    else
      match StoredText(payload)
      case None => Failed(-2)
      case Some(text) => Done(processed, Some(text))
  }

  const TAG_ONDISK: byte := 18

  /** VARSIZE_EXTERNAL on a 64-bit machine. */
  function ExternalSize(tag: byte): nat {
    2 + (if tag == TAG_ONDISK then 16 else if 1 <= tag <= 3 then 8 else 0)
  }

  /** varatt_external. */
  datatype Pointer = Pointer(rawSize: int, extInfo: nat, valueId: nat, relationId: nat)

  function PointerIn(data: seq<byte>): Pointer
    requires |data| >= 18
  {
    Pointer(SignedAt(data[2..6], 4), LeValue(data[6..10]), LeValue(data[10..14]), LeValue(data[14..18]))
  }

  /** VARATT_EXTERNAL_IS_COMPRESSED. */
  predicate IsPacked(p: Pointer) {
    p.extInfo % 0x4000_0000 < U32(p.rawSize - 4)
  }

  /** The marker printed for a pointer that is not followed. */
  function PointerText(p: Pointer): seq<byte> {
    if !IsPacked(p) then Ascii("(TOASTED,uncompressed)")
    else if p.extInfo / 0x4000_0000 == PGLZ then Ascii("(TOASTED,pglz)")
    else if p.extInfo / 0x4000_0000 == LZ4 then Ascii("(TOASTED,lz4)")
    else Ascii("(TOASTED,unknown)")
  }

  /** What ReadStringFromToast looks for; a negative size allocates nothing. */
  function TargetOf(p: Pointer): Toast.Target {
    Toast.Target(p.valueId, p.extInfo % 0x4000_0000, if p.rawSize < 0 then 0 else p.rawSize)
  }

  /** DumpCompressedString: the unpacked bytes are printed as a string, whatever the column's type, and
      bytes of another length than recorded are not printed at all. */
  function UnpackAttempt(stored: seq<byte>, processed: nat, lib: Library): (a: Attempt)
    ensures a.Done? ==> a.processed == processed
  {
    if |stored| < 4 then Undefined
    else
      var info := LeValue(stored[..4]);
      match Unpack(lib, info / 0x4000_0000, stored[4..], info % 0x4000_0000)
      case Broken(code) => Failed(code)
      case Restored(payload) =>
        Done(processed, if |payload| == info % 0x4000_0000 then Some(Escape(payload)) else None)
  }

  /** ReadStringFromToast on an on-disk pointer. */
  function FollowAttempt(numeric: bool, p: Pointer, processed: nat, lib: Library): (a: Attempt)
    ensures a.Done? ==> a.processed == processed
  {
    match lib.relation(p.relationId)
    case None => Failed(-1)
    case Some(blocks) =>
      match Toast.FetchStored(blocks, TargetOf(p))
      case Unread => Undefined
      case Missing => Failed(-1)
      case Fetched(stored) =>
        if IsPacked(p) then UnpackAttempt(stored, processed, lib) else ParseAttempt(numeric, stored, processed)
  }

  function ExternalAttempt(numeric: bool, data: seq<byte>, lib: Library): (a: Attempt)
    requires |data| >= 1
    ensures a.Done? ==> a.processed <= |data|
  {
    if |data| < 2 then Undefined
    else
      var size := ExternalSize(data[1]);
      if size > |data| then Failed(-1)
      else if data[1] != TAG_ONDISK then Done(size, Some(Ascii("(TOASTED IN MEMORY)")))
      else if lib.follow then FollowAttempt(numeric, PointerIn(data), size, lib)
      else Done(size, Some(PointerText(PointerIn(data))))
  }

  /** The 4-byte forms, at an aligned address. */
  function LongAttempt(numeric: bool, data: seq<byte>, padding: nat, lib: Library): (a: Attempt)
    ensures a.Done? ==> a.processed <= padding + |data|
  {
    if |data| >= 4 && data[0] % 4 == 0 then
      var len := LeValue(data[..4]) / 4;
      if len > |data| then Failed(-1)
      else if len < 4 then Undefined
      else ParseAttempt(numeric, data[4..len], padding + len)
    else if |data| >= 8 && data[0] % 4 == 2 then
      var len := LeValue(data[..4]) / 4;
      var info := LeValue(data[4..8]);
      if len > |data| then Failed(-1)
      else if len < 8 then Undefined
      else
        var unpacked := Unpack(lib, info / 0x4000_0000, data[8..len], info % 0x4000_0000);
        if unpacked.Restored? && |unpacked.bytes| == info % 0x4000_0000 then
          ParseAttempt(numeric, unpacked.bytes, padding + len)
        else Done(padding + len, Some(Ascii("(inline compressed, corrupted)")))
    else Failed(-9)
  }

  /** extract_data. */
  function ExtractAttempt(numeric: bool, data: seq<byte>, addr: nat, lib: Library): (a: Attempt)
    requires |data| >= 1
    ensures a.Done? ==> a.processed <= |data|
  {
    if data[0] == 1 then ExternalAttempt(numeric, data, lib)
    else if data[0] % 2 == 1 then
      var len := data[0] / 2;
      if len > |data| then Failed(-1) else ParseAttempt(numeric, data[1..len], len)
    else
      var padding := AlignUp(addr, 4) - addr;
      if padding > |data| then Undefined else LongAttempt(numeric, data[padding..], padding, lib)
  }

  function Attribute(ty: ColumnType, data: seq<byte>, addr: nat, lib: Library): (a: Attempt)
    requires |data| >= 1
    ensures a.Done? ==> a.processed <= |data|
  {
    if ty.IgnoreColumn? then Done(|data|, None)
    else if IsFixed(ty) then FixedAttempt(ty, data, addr)
    else ExtractAttempt(ty.NumericColumn?, data, addr, lib)
  }

  // ---------------------------------------------------------------- the whole tuple

  datatype Outcome =
    | Flushed(line: seq<byte>)
    | NoBytesLeft(partial: seq<byte>)
    | CallbackFailed(number: nat, code: int, partial: seq<byte>)
    | BytesLeft(count: nat, partial: seq<byte>)
    | LineTooLong
    | OutsideC

  /** att_isnull: bit i of the bitmap is clear. */
  predicate IsNull(bits: seq<byte>, i: nat)
    requires i / 8 < |bits|
  {
    BitOf(bits[i / 8], i % 8) == 0
  }

  function BitOf(b: nat, k: nat): nat {
    if k == 0 then b % 2 else BitOf(b / 2, k - 1)
  }

  /** The null bitmap, absent when the tuple has no nulls. */
  predicate CoversTypes(nulls: Option<seq<byte>>, n: nat) {
    nulls.Some? ==> n <= 8 * |nulls.value|
  }

  function DecodeFrom(types: seq<ColumnType>, i: nat, nulls: Option<seq<byte>>, data: seq<byte>, addr: nat,
                      line: seq<byte>, lib: Library): Outcome
    requires i <= |types| && CoversTypes(nulls, |types|)
    decreases |types| - i
  {
    if i == |types| then (if |data| != 0 then BytesLeft(|data|, line) else Flushed(line))
    else if nulls.Some? && IsNull(nulls.value, i) then
      var line' := Extended(line, NULL_TEXT);
      if |line'| >= MAX_ALLOC_SIZE then LineTooLong else DecodeFrom(types, i + 1, nulls, data, addr, line', lib)
    else if |data| == 0 then NoBytesLeft(line)
    else
      match Attribute(types[i], data, addr, lib)
      case Undefined => OutsideC
      case Failed(code) => CallbackFailed(i + 1, code, line)
      case Done(n, text) =>
        var line' := if text.Some? then Extended(line, text.value) else line;
        if |line'| >= MAX_ALLOC_SIZE then LineTooLong
        else DecodeFrom(types, i + 1, nulls, data[n..], addr + n, line', lib)
  }

  // ---------------------------------------------------------------- no text breaks the line

  /** No byte that ends a field or starts an escape. */
  predicate IsClean(b: byte) {
    IsPlain(b) && b != BACKSLASH
  }

  predicate AllClean(s: seq<byte>) {
    forall i :: 0 <= i < |s| ==> IsClean(s[i])
  }

  lemma CleanIsPlain(s: seq<byte>)
    requires AllClean(s)
    ensures AllPlain(s) && s != NULL_TEXT
  {
    assert NULL_TEXT[0] == BACKSLASH;
  }

  predicate Printable(s: string) {
    forall c :: c in s ==> ' ' <= c <= 'z' && c != '\\'
  }

  lemma AsciiIsClean(s: string)
    requires Printable(s)
    ensures AllClean(Ascii(s))
  {
    forall i | 0 <= i < |s|
      ensures IsClean(Ascii(s)[i])
    {
      assert s[i] in s;
    }
  }

  lemma JoinIsClean(a: seq<byte>, b: seq<byte>)
    requires AllClean(a) && AllClean(b)
    ensures AllClean(a + b)
  {
  }

  lemma NothingIsClean()
    ensures AllClean([])
  {
  }

  lemma InfinitiesAreClean()
    ensures AllClean(Ascii("-infinity")) && AllClean(Ascii("infinity"))
  {
    hide AllClean, Ascii;
    AsciiIsClean("-infinity");
    AsciiIsClean("infinity");
  }

  lemma SpecialNamesAreClean()
    ensures AllClean(Ascii("-Infinity")) && AllClean(Ascii("Infinity")) && AllClean(Ascii("NaN"))
  {
    hide AllClean, Ascii;
    AsciiIsClean("-Infinity");
    AsciiIsClean("Infinity");
    AsciiIsClean("NaN");
  }

  lemma FiniteTextIsClean(negative: bool, weight: int, dscale: nat, digits: seq<int>)
    requires AreInt16(digits)
    ensures AllClean(FiniteText(negative, weight, dscale, digits))
  {
    hide DecimalChar;
    PlacesAreClean(digits, LeadingZeros(DigitAt(digits, 0)), 4 * (weight + 1));
    PlacesAreClean(digits, 4 * (weight + 1), 4 * (weight + 1) + dscale);
  }

  lemma PlacesAreClean(digits: seq<int>, lo: int, hi: int)
    requires AreInt16(digits)
    ensures AllClean(Places(digits, lo, hi))
  {
    hide DecimalChar;
    var s := Places(digits, lo, hi);
    forall j | 0 <= j < |s|
      ensures IsClean(s[j])
    {
      assert s[j] == DecimalChar(digits, lo + j);
    }
  }

  lemma DigitsAreClean(s: seq<byte>)
    requires AllDigits(s)
    ensures AllClean(s)
  {
  }

  lemma IntTextIsClean(n: int)
    ensures AllClean(IntText(n))
  {
    DigitsAreClean(NatText(if n < 0 then -n else n));
  }

  lemma PadTextIsClean(n: nat, w: nat)
    ensures AllClean(PadText(n, w))
  {
    DigitsAreClean(NatText(n));
  }

  lemma DateTextIsClean(date: Date)
    requires date.month >= 0 && date.day >= 0
    ensures AllClean(DateText(date)) && AllClean(EraText(date))
  {
    hide PadText;
    PadTextIsClean(PrintedYear(date.year), 4);
    PadTextIsClean(date.month, 2);
    PadTextIsClean(date.day, 2);
  }

  lemma ClockTextIsClean(usec: nat)
    ensures AllClean(ClockText(usec))
  {
    hide PadText;
    var sec := usec / 1_000_000;
    PadTextIsClean(sec / 60 / 60, 2);
    PadTextIsClean((sec / 60) % 60, 2);
    PadTextIsClean(sec % 60, 2);
    PadTextIsClean(usec % 1_000_000, 6);
  }

  lemma DayTextIsClean(d: int)
    requires IsInt32(d)
    ensures DayText(d).Some? ==> AllClean(DayText(d).value)
  {
    hide AllClean, Ascii, DateText, EraText, JulianToDate;
    InfinitiesAreClean();
    if IsInt32(d + EPOCH) {
      JulianToDateInRange(d + EPOCH);
      var date := JulianToDate(d + EPOCH);
      DateTextIsClean(date);
      JoinIsClean(DateText(date), EraText(date));
    }
  }

  lemma StampTextIsClean(stamp: int, tz: bool)
    requires IsInt64(stamp)
    ensures AllClean(StampText(stamp, tz))
  {
    hide AllClean, Ascii, DateText, EraText, ClockText, JulianToDate;
    var jd := stamp / USECS_PER_DAY + EPOCH;
    JulianToDateInRange(jd);
    var date := JulianToDate(jd);
    var zone := if tz then Ascii("+00") else [];
    DateTextIsClean(date);
    ClockTextIsClean(stamp % USECS_PER_DAY);
    InfinitiesAreClean();
    AsciiIsClean(" ");
    AsciiIsClean("+00");
    assert AllClean(zone) by {
      NothingIsClean();
    }
    JoinIsClean(DateText(date), Ascii(" "));
    JoinIsClean(DateText(date) + Ascii(" "), ClockText(stamp % USECS_PER_DAY));
    JoinIsClean(DateText(date) + Ascii(" ") + ClockText(stamp % USECS_PER_DAY), zone);
    JoinIsClean(DateText(date) + Ascii(" ") + ClockText(stamp % USECS_PER_DAY) + zone, EraText(date));
  }

  lemma FixedTextIsPlain(ty: ColumnType, p: seq<byte>)
    requires IsFixed(ty) && |p| == Width(ty)
    ensures var text := FixedText(ty, p);
            text.Some? ==> AllPlain(text.value) && text.value != NULL_TEXT
  {
    hide DayText, StampText, IntText, Escape, AllPlain, AllClean, Ascii, LeValue;
    assert Pow256(4) == 0x1_0000_0000 && Pow256(8) == 0x1_0000_0000_0000_0000;
    var text := FixedText(ty, p);
    if ty.CharColumn? {
      EscapedIsPlain(p);
    } else if ty.NameColumn? {
      EscapedIsPlain(UpToNul(p));
    } else {
      CleanFixedText(ty, p);
      if text.Some? {
        CleanIsPlain(text.value);
      }
    }
  }

  lemma CleanFixedText(ty: ColumnType, p: seq<byte>)
    requires IsFixed(ty) && |p| == Width(ty) && !ty.CharColumn? && !ty.NameColumn?
    ensures FixedText(ty, p).Some? ==> AllClean(FixedText(ty, p).value)
  {
    hide DayText, StampText, IntText, AllClean, Ascii, LeValue;
    assert Pow256(4) == 0x1_0000_0000 && Pow256(8) == 0x1_0000_0000_0000_0000;
    match ty
    case SmallintColumn => IntTextIsClean(SignedAt(p, 2));
    case IntColumn => IntTextIsClean(SignedAt(p, 4));
    case UintColumn => IntTextIsClean(LeValue(p));
    case BigintColumn => IntTextIsClean(SignedAt(p, 8));
    case DateColumn => DayTextIsClean(SignedAt(p, 4));
    case TimestampColumn(tz) => StampTextIsClean(SignedAt(p, 8), tz);
    case BoolColumn =>
      AsciiIsClean("t");
      AsciiIsClean("f");
  }

  lemma MarkersAreClean()
    ensures AllClean(Ascii("(TOASTED IN MEMORY)"))
    ensures AllClean(Ascii("(inline compressed, corrupted)"))
  {
    hide AllClean, Ascii;
    AsciiIsClean("(TOASTED IN MEMORY)");
    AsciiIsClean("(inline compressed, corrupted)");
  }

  lemma PointerTextIsClean(p: Pointer)
    ensures AllClean(PointerText(p))
  {
    hide AllClean, Ascii, IsPacked;
    AsciiIsClean("(TOASTED,uncompressed)");
    AsciiIsClean("(TOASTED,pglz)");
    AsciiIsClean("(TOASTED,lz4)");
    AsciiIsClean("(TOASTED,unknown)");
  }

  // ---------------------------------------------------------------- the code

  /** The string the callbacks print into, between two of their calls. */
  ghost predicate Ready(copyString: StringInfo)
    reads copyString, copyString.data
  {
    copyString.Valid() && NoNul(copyString.Contents())
  }

  // ---------------------------------------------------------------- callbacks

  /** How a callback came back: with its code, by leaving the program, or not in a way C defines. */
  datatype Status = Returned | Exited | Outside

  /** A call that started with the line `before` did what the attempt says. */
  ghost predicate Reports(a: Attempt, status: Status, ret: int, processed: nat, before: seq<byte>, after: seq<byte>) {
    match a
    case Undefined => status == Outside
    case Failed(code) => status == Returned && ret == code && code < 0 && after == before
    case Done(n, text) =>
      var line := if text.Some? then Extended(before, text.value) else before;
      if text.Some? && |line| >= MAX_ALLOC_SIZE then status == Exited
      else status == Returned && ret >= 0 && processed == n && after == line
  }

  method Print(copyString: StringInfo, text: seq<byte>) returns (status: Status)
    requires Ready(copyString) && AllPlain(text)
    modifies copyString, copyString.data
    ensures Ready(copyString) && (copyString.data == old(copyString.data) || fresh(copyString.data))
    ensures Reports(Done(0, Some(text)), status, 0, 0, old(copyString.Contents()), copyString.Contents())
  {
    var ok := CopyAppend(copyString, text);
    status := if ok then Returned else Exited;
  }

  /** CopyAppendNumeric, on any bytes. */
  method CopyAppendNumeric(copyString: StringInfo, buffer: seq<byte>) returns (status: Status, ret: int)
    requires Ready(copyString)
    modifies copyString, copyString.data
    ensures Ready(copyString) && (copyString.data == old(copyString.data) || fresh(copyString.data))
    ensures forall n: nat :: Reports(ParseAttempt(true, buffer, n), status, ret, n,
                                     old(copyString.Contents()), copyString.Contents())
    ensures status == Returned ==> ret <= 0
  {
    hide Extended;
    status, ret := Returned, 0;
    if !HasHeader(buffer) {
      return Outside, 0;
    }
    var h := HeaderWord(buffer);
    if IsSpecial(h) {
      SpecialNamesAreClean();
      if h == NUMERIC_NINF {
        status := Print(copyString, Ascii("-Infinity"));
      } else if h == NUMERIC_PINF {
        status := Print(copyString, Ascii("Infinity"));
      } else if h == NUMERIC_NAN {
        status := Print(copyString, Ascii("NaN"));
      } else {
        ret := -2;
      }
    } else if |buffer| == HeaderSize(h) {
      status := Print(copyString, [48]);
    } else {
      var weight, dscale := StoredWeight(buffer), DisplayScale(h);
      var digits := DigitArray(buffer[HeaderSize(h)..]);
      var str, end := WriteNumeric(IsNegative(h), weight, dscale, digits);
      FiniteTextIsClean(IsNegative(h), weight, dscale, digits);
      status := Print(copyString, str[..end]);
    }
  }

  /** parse_value: CopyAppendEncode or CopyAppendNumeric. */
  method ParseValue(copyString: StringInfo, numeric: bool, payload: seq<byte>) returns (status: Status, ret: int)
    requires Ready(copyString)
    modifies copyString, copyString.data
    ensures Ready(copyString) && (copyString.data == old(copyString.data) || fresh(copyString.data))
    ensures forall n: nat :: Reports(ParseAttempt(numeric, payload, n), status, ret, n,
                                     old(copyString.Contents()), copyString.Contents())
    ensures status == Returned ==> ret <= 0
  {
    if numeric {
      status, ret := CopyAppendNumeric(copyString, payload);
    } else {
      var ok := CopyAppendEncode(copyString, payload);
      status, ret := if ok then Returned else Exited, 0;
    }
  }

  /** DumpCompressedString, which returns how many bytes were restored. */
  method DumpCompressedString(copyString: StringInfo, data: seq<byte>, lib: Library) returns (status: Status, ret: int)
    requires Ready(copyString)
    modifies copyString, copyString.data
    ensures Ready(copyString) && (copyString.data == old(copyString.data) || fresh(copyString.data))
    ensures forall n: nat :: Reports(UnpackAttempt(data, n, lib), status, ret, n,
                                     old(copyString.Contents()), copyString.Contents())
    ensures status == Returned && ret >= 0 ==>
              var info := LeValue(data[..4]);
              var r := Unpack(lib, info / 0x4000_0000, data[4..], info % 0x4000_0000);
              r.Restored? && ret == |r.bytes|
  {
    hide Extended, LeValue;
    if |data| < 4 {
      return Outside, 0;
    }
    var info := LeValue(data[..4]);
    var unpacked := Unpack(lib, info / 0x4000_0000, data[4..], info % 0x4000_0000);
    if unpacked.Broken? {
      return Returned, unpacked.code;
    }
    status, ret := Returned, |unpacked.bytes|;
    if ret == info % 0x4000_0000 {
      var ok := CopyAppendEncode(copyString, unpacked.bytes);
      status := if ok then Returned else Exited;
    }
  }

  /** ReadStringFromToast: the file, the rescans, and the printer the bytes are handed to. */
  method ReadStringFromToast(copyString: StringInfo, numeric: bool, buffer: seq<byte>, lib: Library)
    returns (status: Status, ret: int)
    requires Ready(copyString) && |buffer| >= 2 && |buffer| >= ExternalSize(buffer[1])
    modifies copyString, copyString.data
    ensures Ready(copyString) && (copyString.data == old(copyString.data) || fresh(copyString.data))
    ensures forall n: nat ::
              Reports(if buffer[1] == TAG_ONDISK then FollowAttempt(numeric, PointerIn(buffer), n, lib)
                      else Done(n, Some(Ascii("(TOASTED IN MEMORY)"))),
                      status, ret, n, old(copyString.Contents()), copyString.Contents())
  {
    hide Extended, LeValue, ParseAttempt, UnpackAttempt;
    if buffer[1] != TAG_ONDISK {
      MarkersAreClean();
      status := Print(copyString, Ascii("(TOASTED IN MEMORY)"));
      return status, 0;
    }
    var p := PointerIn(buffer);
    var file := lib.relation(p.relationId);
    if file.None? {
      return Returned, -1;
    }
    var t := TargetOf(p);
    var inside, result, toastData, toastRead, loops := Toast.ReadChunks(file.value, t);
    if !inside {
      return Outside, 0;
    }
    if result != 0 {
      return Returned, result;
    }
    if toastRead < t.ext {
      return Outside, 0;
    }
    assert toastData[..t.ext] == toastData[..toastRead][..t.ext];
    if IsPacked(p) {
      status, ret := DumpCompressedString(copyString, toastData[..t.ext], lib);
    } else {
      status, ret := ParseValue(copyString, numeric, toastData[..t.ext]);
    }
  }

  /** decode_date's text, through j2date. */
  method DecodeDate(d: int) returns (text: Option<seq<byte>>)
    requires IsInt32(d)
    ensures text == DayText(d)
  {
    hide PadText;
    if d == -0x8000_0000 {
      return Some(Ascii("-infinity"));
    }
    if d == 0x7FFF_FFFF {
      return Some(Ascii("infinity"));
    }
    if !IsInt32(d + EPOCH) {
      return None;
    }
    var year, month, day := J2date(d + EPOCH);
    JulianToDateInRange(d + EPOCH);
    text := Some(PadText(if year <= 0 then -year + 1 else year, 4) + [MINUS] + PadText(month, 2) + [MINUS]
                 + PadText(day, 2) + (if year <= 0 then Ascii(" BC") else []));
  }

  /** decode_timestamp_internal's text, through the split into day and time of day. */
  method DecodeStamp(stamp: int, tz: bool) returns (text: seq<byte>)
    requires IsInt64(stamp)
    ensures text == StampText(stamp, tz)
  {
    hide PadText;
    if stamp == DT_NOBEGIN {
      return Ascii("-infinity");
    }
    if stamp == DT_NOEND {
      return Ascii("infinity");
    }
    var p := DecodeTimestamp(stamp);
    JulianToDateInRange(stamp / USECS_PER_DAY + EPOCH);
    var date := PadText(p.year, 4) + [MINUS] + PadText(p.month, 2) + [MINUS] + PadText(p.day, 2);
    var clock := PadText(p.hour, 2) + Ascii(":") + PadText(p.minute, 2) + Ascii(":") + PadText(p.second, 2)
                 + Ascii(".") + PadText(p.usec, 6);
    text := date + Ascii(" ") + clock + (if tz then Ascii("+00") else []) + (if p.bc then Ascii(" BC") else []);
  }

  method FixedTextOf(ty: ColumnType, p: seq<byte>) returns (text: Option<seq<byte>>)
    requires IsFixed(ty) && |p| == Width(ty)
    ensures text == FixedText(ty, p)
  {
    hide DayText, StampText;
    assert Pow256(4) == 0x1_0000_0000 && Pow256(8) == 0x1_0000_0000_0000_0000;
    if ty.DateColumn? {
      text := DecodeDate(SignedAt(p, 4));
    } else if ty.TimestampColumn? {
      var stampText := DecodeStamp(SignedAt(p, 8), ty.tz);
      text := Some(stampText);
    } else {
      text := FixedText(ty, p);
    }
  }

  method DecodeFixed(copyString: StringInfo, ty: ColumnType, data: seq<byte>, addr: nat)
    returns (status: Status, ret: int, processed: nat)
    requires Ready(copyString) && IsFixed(ty)
    modifies copyString, copyString.data
    ensures Ready(copyString) && (copyString.data == old(copyString.data) || fresh(copyString.data))
    ensures Reports(FixedAttempt(ty, data, addr), status, ret, processed,
                    old(copyString.Contents()), copyString.Contents())
    ensures status == Returned ==> ret <= 0
  {
    hide FixedText, Extended, AlignUp, Alignment, Width;
    var delta := AlignUp(addr, Alignment(ty)) - addr;
    if |data| < delta {
      return Returned, -1, 0;
    }
    if |data| - delta < Width(ty) {
      return Returned, ShortCode(ty), 0;
    }
    var text := FixedTextOf(ty, data[delta..delta + Width(ty)]);
    FixedTextIsPlain(ty, data[delta..delta + Width(ty)]);
    if text.None? {
      return Outside, 0, 0;
    }
    status := Print(copyString, text.value);
    ret, processed := 0, Width(ty) + delta;
  }

  method ExtractData(copyString: StringInfo, numeric: bool, buffer: seq<byte>, addr: nat, lib: Library)
    returns (status: Status, ret: int, processed: nat)
    requires Ready(copyString) && |buffer| >= 1
    modifies copyString, copyString.data
    ensures Ready(copyString) && (copyString.data == old(copyString.data) || fresh(copyString.data))
    ensures Reports(ExtractAttempt(numeric, buffer, addr, lib), status, ret, processed,
                    old(copyString.Contents()), copyString.Contents())
    ensures status == Returned && !lib.follow ==> ret <= 0
  {
    ret, processed := 0, 0;
    if buffer[0] == 1 {
      if |buffer| < 2 {
        return Outside, 0, 0;
      }
      var len := ExternalSize(buffer[1]);
      if len > |buffer| {
        return Returned, -1, 0;
      }
      MarkersAreClean();
      if lib.follow {
        status, ret := ReadStringFromToast(copyString, numeric, buffer, lib);
      } else if buffer[1] == TAG_ONDISK {
        PointerTextIsClean(PointerIn(buffer));
        status := Print(copyString, PointerText(PointerIn(buffer)));
      } else {
        status := Print(copyString, Ascii("(TOASTED IN MEMORY)"));
      }
      processed := len;
      return;
    }
    if buffer[0] % 2 == 1 {
      var len := buffer[0] / 2;
      if len > |buffer| {
        return Returned, -1, 0;
      }
      status, ret := ParseValue(copyString, numeric, buffer[1..len]);
      processed := len;
      return;
    }
    var padding := AlignUp(addr, 4) - addr;
    if padding > |buffer| {
      return Outside, 0, 0;
    }
    status, ret, processed := ExtractLong(copyString, numeric, buffer[padding..], padding, lib);
  }

  method ExtractLong(copyString: StringInfo, numeric: bool, buffer: seq<byte>, padding: nat, lib: Library)
    returns (status: Status, ret: int, processed: nat)
    requires Ready(copyString)
    modifies copyString, copyString.data
    ensures Ready(copyString) && (copyString.data == old(copyString.data) || fresh(copyString.data))
    ensures Reports(LongAttempt(numeric, buffer, padding, lib), status, ret, processed,
                    old(copyString.Contents()), copyString.Contents())
    ensures status == Returned ==> ret <= 0
  {
    hide ParseAttempt, Unpack, LeValue, Extended;
    ret, processed := 0, 0;
    if |buffer| >= 4 && buffer[0] % 4 == 0 {
      var len := LeValue(buffer[..4]) / 4;
      if len > |buffer| {
        return Returned, -1, 0;
      }
      if len < 4 {
        return Outside, 0, 0;
      }
      status, ret := ParseValue(copyString, numeric, buffer[4..len]);
      processed := padding + len;
      return;
    }
    if |buffer| >= 8 && buffer[0] % 4 == 2 {
      var len := LeValue(buffer[..4]) / 4;
      var decompressedLen := LeValue(buffer[4..8]) % 0x4000_0000;
      if len > |buffer| {
        return Returned, -1, 0;
      }
      if len < 8 {
        return Outside, 0, 0;
      }
      var result := Unpack(lib, LeValue(buffer[4..8]) / 0x4000_0000, buffer[8..len], decompressedLen);
      if result.Broken? || |result.bytes| != decompressedLen {
        MarkersAreClean();
        status := Print(copyString, Ascii("(inline compressed, corrupted)"));
      } else {
        status, ret := ParseValue(copyString, numeric, result.bytes);
      }
      processed := padding + len;
      return;
    }
    return Returned, -9, 0;
  }

  /** FormatDecode: the columns of one tuple, from the line's clearing to its flushing. */
  method FormatDecode(copyString: StringInfo, types: seq<ColumnType>, nulls: Option<seq<byte>>, tuple: seq<byte>,
                      addr: nat, lib: Library) returns (outcome: Outcome)
    requires Ready(copyString) && CoversTypes(nulls, |types|)
    modifies copyString, copyString.data
    ensures outcome == DecodeFrom(types, 0, nulls, tuple, addr, [], lib)
    ensures Ready(copyString)
  {
    hide Attribute, IsNull, Extended;
    copyString.Reset();
    var data, at, i := tuple, addr, 0;
    while i < |types|
      invariant i <= |types| && Ready(copyString)
      invariant copyString.data == old(copyString.data) || fresh(copyString.data)
      invariant DecodeFrom(types, i, nulls, data, at, copyString.Contents(), lib)
                == DecodeFrom(types, 0, nulls, tuple, addr, [], lib)
    {
      if nulls.Some? && IsNull(nulls.value, i) {
        var status := Print(copyString, NULL_TEXT);
        if status == Exited {
          return LineTooLong;
        }
        i := i + 1;
        continue;
      }
      if |data| == 0 {
        return NoBytesLeft(copyString.Contents());
      }
      var status, ret, processed := DecodeAttribute(copyString, types[i], data, at, lib);
      if status == Outside {
        return OutsideC;
      }
      if status == Exited {
        return LineTooLong;
      }
      if ret < 0 {
        return CallbackFailed(i + 1, ret, copyString.Contents());
      }
      data, at, i := data[processed..], at + processed, i + 1;
    }
    if |data| != 0 {
      return BytesLeft(|data|, copyString.Contents());
    }
    outcome := Flushed(copyString.Contents());
    copyString.Reset();
  }

  /** callbacks[curr_attr](data, size, &processed_size). */
  method DecodeAttribute(copyString: StringInfo, ty: ColumnType, data: seq<byte>, addr: nat, lib: Library)
    returns (status: Status, ret: int, processed: nat)
    requires Ready(copyString) && |data| >= 1
    modifies copyString, copyString.data
    ensures Ready(copyString) && (copyString.data == old(copyString.data) || fresh(copyString.data))
    ensures Reports(Attribute(ty, data, addr, lib), status, ret, processed,
                    old(copyString.Contents()), copyString.Contents())
    ensures status == Returned && ret >= 0 ==> processed <= |data| && |copyString.Contents()| < MAX_ALLOC_SIZE
  {
    if ty.IgnoreColumn? {
      return Returned, 0, |data|;
    }
    if IsFixed(ty) {
      status, ret, processed := DecodeFixed(copyString, ty, data, addr);
    } else {
      status, ret, processed := ExtractData(copyString, ty.NumericColumn?, data, addr, lib);
    }
  }
}
