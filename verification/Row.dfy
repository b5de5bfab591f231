/** Forming a heap tuple's data area from typed values, and decoding it back. */
module Rows {
  import opened Arithmetic
  import opened Bytes
  import opened Decimal
  import opened Calendar
  import opened Numeric
  import opened StringInfos
  import opened CopyLines
  import opened Tuples
  import Toast

  datatype Number = NaN | PosInfinity | NegInfinity
                  | Finite(short: bool, negative: bool, weight: int, dscale: nat, digits: seq<int>)

  /** How a variable-length value is stored. */
  datatype Form = Short | Long | Compressed(compression: nat, packed: seq<byte>)

  /** What a TOAST pointer stands for, and how it was compressed on the way out of the row. */
  datatype Content = Characters(s: seq<byte>) | Quantity(x: Number)

  datatype Packing = Packing(compression: nat, packed: seq<byte>)

  datatype Value =
    | Smallint(n: int) | Int(n: int) | Uint(n: int) | Bigint(n: int)
    | DayValue(n: int) | Stamp(n: int, tz: bool)
    | Bool(raw: byte) | Char(c: byte) | Name(s: seq<byte>)
    | Str(form: Form, s: seq<byte>) | Num(form: Form, x: Number)
    | OnDisk(content: Content, packing: Option<Packing>, valueId: nat, relationId: nat)
    | InMemory(numeric: bool, tag: byte, address: seq<byte>)

  function TypeOf(v: Value): ColumnType {
    match v
    case Smallint(_) => SmallintColumn
    case Int(_) => IntColumn
    case Uint(_) => UintColumn
    case Bigint(_) => BigintColumn
    case DayValue(_) => DateColumn
    case Stamp(_, tz) => TimestampColumn(tz)
    case Bool(_) => BoolColumn
    case Char(_) => CharColumn
    case Name(_) => NameColumn
    case Str(_, _) => StringColumn
    case Num(_, _) => NumericColumn
    case OnDisk(content, _, _, _) => if content.Quantity? then NumericColumn else StringColumn
    case InMemory(numeric, _, _) => if numeric then NumericColumn else StringColumn
  }

  predicate FitsSigned(n: int, size: nat) {
    -(Pow256(size) as int) <= 2 * n < Pow256(size)
  }

  predicate ValidNumber(x: Number) {
    x.Finite? ==>
      && IsBase10000(x.digits)
      && if x.short then x.dscale < 64 && -64 <= x.weight < 64 else x.dscale < 0x4000 && -0x8000 <= x.weight < 0x8000
  }

  function NumberBytes(x: Number): (s: seq<byte>)
    requires ValidNumber(x)
  {
    match x
    case NaN => LeBytes(0xC000, 2)
    case PosInfinity => LeBytes(0xD000, 2)
    case NegInfinity => LeBytes(0xF000, 2)
    case Finite(short, negative, weight, dscale, digits) => StoredNumber(short, negative, weight, dscale, digits)
  }

  function NumberText(x: Number): seq<byte>
    requires ValidNumber(x)
  {
    match x
    case NaN => Ascii("NaN")
    case PosInfinity => Ascii("Infinity")
    case NegInfinity => Ascii("-Infinity")
    case Finite(_, negative, weight, dscale, digits) =>
      if |digits| == 0 then [48] else FiniteText(negative, weight, dscale, digits)
  }

  /** A form fits a payload: short below 127 bytes, and compressed bytes the library unpacks to it. */
  predicate FormFits(form: Form, payload: seq<byte>, lib: Library) {
    match form
    case Short => |payload| <= 126
    case Long => |payload| + 4 < 0x4000_0000
    case Compressed(compression, packed) =>
      && |packed| + 8 < 0x4000_0000 && |payload| < 0x4000_0000
      && Restores(lib, compression, packed, payload)
  }

  /** pglz is method 0 and LZ4 method 1, and the library of that number restores the bytes. */
  predicate Restores(lib: Library, compression: nat, packed: seq<byte>, payload: seq<byte>) {
    (compression == 0 || compression == 1) && lib.unpack(compression, packed, |payload|) == Restored(payload)
  }

  predicate ValidContent(content: Content) {
    content.Quantity? ==> ValidNumber(content.x)
  }

  function Payload(content: Content): seq<byte>
    requires ValidContent(content)
  {
    match content
    case Characters(s) => s
    case Quantity(x) => NumberBytes(x)
  }

  /** The bytes whose chunks the TOAST relation holds: compressed ones behind their method and length. */
  function Stored(content: Content, packing: Option<Packing>): seq<byte>
    requires ValidContent(content)
  {
    match packing
    case None => Payload(content)
    case Some(p) => LeBytes(InfoOf(p.compression, |Payload(content)|), 4) + p.packed
  }

  /** Two bits of method above a 30-bit length. */
  function InfoOf(compression: nat, size: nat): nat {
    compression * 0x4000_0000 + size
  }

  function PointerOf(content: Content, packing: Option<Packing>, valueId: nat, relationId: nat): Pointer
    requires ValidContent(content)
  {
    Pointer(|Payload(content)| + 4,
            InfoOf(if packing.Some? then packing.value.compression else 0, |Stored(content, packing)|),
            valueId, relationId)
  }

  /** A pointer PostgreSQL writes: only what compression made shorter is stored compressed. When pointers
      are followed, the relation holds every chunk of the value, and the library unpacks it. */
  ghost predicate PointerFits(content: Content, packing: Option<Packing>, valueId: nat, relationId: nat, lib: Library) {
    && ValidContent(content) && |Payload(content)| < 0x4000_0000
    && valueId < 0x1_0000_0000 && relationId < 0x1_0000_0000
    && (packing.Some? ==> packing.value.compression < 4 && |Stored(content, packing)| < |Payload(content)|)
    && (lib.follow ==> IsStored(content, packing, valueId, relationId, lib))
  }

  ghost predicate IsStored(content: Content, packing: Option<Packing>, valueId: nat, relationId: nat, lib: Library)
    requires ValidContent(content)
  {
    var stored := Stored(content, packing);
    && lib.relation(relationId).Some?
    && HoldsValue(lib.relation(relationId).value, TargetOf(PointerOf(content, packing, valueId, relationId)), stored)
    && (packing.Some? ==> Restores(lib, packing.value.compression, packing.value.packed, Payload(content)))
  }

  ghost predicate HoldsValue(blocks: seq<seq<Toast.Item>>, t: Toast.Target, stored: seq<byte>) {
    exists labels :: Toast.Labelled(Toast.Flatten(blocks), labels, t, stored)
                     && Toast.Complete(labels, Toast.ChunkCount(|stored|))
  }

  /** A number compressed on its way into the TOAST relation: see PackedNumberIsNeverRight. */
  predicate IsPackedNumber(content: Content, packing: Option<Packing>) {
    packing.Some? && content.Quantity?
  }

  /** From the calendar's origin on; PostgreSQL's own range starts later, at Julian day 0. */
  predicate ValidDay(n: int) {
    n == -0x8000_0000 || n == 0x7FFF_FFFF || (ORIGIN <= n + EPOCH && IsInt32(n + EPOCH))
  }

  predicate ValidStamp(n: int) {
    n == DT_NOBEGIN || n == DT_NOEND || FIRST_TIMESTAMP <= n < DT_NOEND
  }

  ghost predicate ValidValue(v: Value, lib: Library) {
    match v
    case Smallint(n) => FitsSigned(n, 2)
    case Int(n) => FitsSigned(n, 4)
    case Uint(n) => 0 <= n < Pow256(4)
    case Bigint(n) => FitsSigned(n, 8)
    case DayValue(n) => ValidDay(n)
    case Stamp(n, _) => ValidStamp(n)
    case Bool(_) => true
    case Char(_) => true
    case Name(s) => |s| <= 63 && NoNul(s)
    case Str(form, s) => FormFits(form, s, lib)
    case Num(form, x) => ValidNumber(x) && FormFits(form, NumberBytes(x), lib)
    case OnDisk(content, packing, valueId, relationId) =>
      PointerFits(content, packing, valueId, relationId, lib) && (lib.follow ==> !IsPackedNumber(content, packing))
    case InMemory(_, tag, address) => 1 <= tag <= 3 && |address| == 8
  }

  function CalendarText(day: int): seq<byte>
    requires day >= ORIGIN
  {
    CalendarDayNumber(day - ORIGIN);
    DateText(CalendarDay(day - ORIGIN))
  }

  function DayValueText(n: int): seq<byte>
    requires ValidDay(n)
  {
    if n == -0x8000_0000 then Ascii("-infinity")
    else if n == 0x7FFF_FFFF then Ascii("infinity")
    else CalendarText(n + EPOCH) + EraText(CalendarDay(n + EPOCH - ORIGIN))
  }

  function StampValueText(n: int, tz: bool): seq<byte>
    requires ValidStamp(n)
  {
    if n == DT_NOBEGIN then Ascii("-infinity")
    else if n == DT_NOEND then Ascii("infinity")
    else
      var day := n / USECS_PER_DAY + EPOCH;
      CalendarText(day) + Ascii(" ") + ClockText(n % USECS_PER_DAY)
      + (if tz then Ascii("+00") else []) + EraText(CalendarDay(day - ORIGIN))
  }

  function ContentText(content: Content): seq<byte>
    requires ValidContent(content)
  {
    match content
    case Characters(s) => Escape(s)
    case Quantity(x) => NumberText(x)
  }

  function MarkerText(packing: Option<Packing>): seq<byte> {
    if packing.None? then Ascii("(TOASTED,uncompressed)")
    else if packing.value.compression == 0 then Ascii("(TOASTED,pglz)")
    else if packing.value.compression == 1 then Ascii("(TOASTED,lz4)")
    else Ascii("(TOASTED,unknown)")
  }

  /** The text a value stands for: dates come from the calendar, not from the decoder's arithmetic. */
  function ValueText(v: Value, lib: Library): seq<byte>
    requires ValidValue(v, lib)
  {
    match v
    case Smallint(n) => IntText(n)
    case Int(n) => IntText(n)
    case Uint(n) => IntText(n)
    case Bigint(n) => IntText(n)
    case DayValue(n) => DayValueText(n)
    case Stamp(n, tz) => StampValueText(n, tz)
    case Bool(raw) => if raw == 0 then Ascii("f") else Ascii("t")
    case Char(c) => Escape([c])
    case Name(s) => Escape(s)
    case Str(_, s) => Escape(s)
    case Num(_, x) => NumberText(x)
    case OnDisk(content, packing, _, _) => if lib.follow then ContentText(content) else MarkerText(packing)
    case InMemory(_, _, _) => Ascii("(TOASTED IN MEMORY)")
  }

  // ---------------------------------------------------------------- forming

  function FixedBytes(v: Value, lib: Library): (s: seq<byte>)
    requires ValidValue(v, lib) && IsFixed(TypeOf(v))
    ensures |s| == Width(TypeOf(v))
  {
    assert Pow256(4) == 0x1_0000_0000 && Pow256(8) == 0x1_0000_0000_0000_0000;
    match v
    case Smallint(n) => LeBytes(Unsigned(n, 2), 2)
    case Int(n) => LeBytes(Unsigned(n, 4), 4)
    case Uint(n) => LeBytes(n, 4)
    case Bigint(n) => LeBytes(Unsigned(n, 8), 8)
    case DayValue(n) => LeBytes(Unsigned(n, 4), 4)
    case Stamp(n, _) => LeBytes(Unsigned(n, 8), 8)
    case Bool(raw) => [raw]
    case Char(c) => [c]
    case Name(s) => s + Zeros(64 - |s|)
  }

  /** typalign of the column types. */
  function StoredAlignment(v: Value): (a: nat)
    ensures IsAlignment(a)
  {
    match v
    case Smallint(_) => 2
    case Int(_) => 4
    case Uint(_) => 4
    case DayValue(_) => 4
    case Bigint(_) => 8
    case Stamp(_, _) => 8
    case _ => 1
  }

  /** The stored form of a payload; only the 4-byte headers are aligned. */
  function FormBytes(form: Form, payload: seq<byte>, addr: nat, lib: Library): (s: seq<byte>)
    requires FormFits(form, payload, lib)
    ensures |s| > 0
  {
    match form
    case Short => [2 * (|payload| + 1) + 1] + payload
    case Long => Zeros(AlignUp(addr, 4) - addr) + LeBytes(4 * (|payload| + 4), 4) + payload
    case Compressed(compression, packed) =>
      Zeros(AlignUp(addr, 4) - addr) + LeBytes(4 * (|packed| + 8) + 2, 4)
      + LeBytes(InfoOf(compression, |payload|), 4) + packed
  }

  function PointerBytes(p: Pointer): (s: seq<byte>)
    requires p.rawSize >= 0
    ensures |s| == 18
  {
    [1, TAG_ONDISK] + LeBytes(p.rawSize, 4) + LeBytes(p.extInfo, 4) + LeBytes(p.valueId, 4) + LeBytes(p.relationId, 4)
  }

  function ValueBytes(v: Value, addr: nat, lib: Library): (s: seq<byte>)
    requires ValidValue(v, lib)
    ensures |s| > 0
  {
    match v
    case Str(form, s) => FormBytes(form, s, addr, lib)
    case Num(form, x) => FormBytes(form, NumberBytes(x), addr, lib)
    case OnDisk(content, packing, valueId, relationId) => PointerBytes(PointerOf(content, packing, valueId, relationId))
    case InMemory(_, tag, address) => [1, tag] + address
    case _ => Zeros(AlignUp(addr, StoredAlignment(v)) - addr) + FixedBytes(v, lib)
  }

  type Row = seq<Option<Value>>

  ghost predicate ValidRow(row: Row, lib: Library) {
    forall i :: 0 <= i < |row| && row[i].Some? ==> ValidValue(row[i].value, lib)
  }

  function RowBytes(row: Row, addr: nat, lib: Library): seq<byte>
    requires ValidRow(row, lib)
  {
    if |row| == 0 then []
    else if row[0].None? then RowBytes(row[1..], addr, lib)
    else
      var s := ValueBytes(row[0].value, addr, lib);
      s + RowBytes(row[1..], addr + |s|, lib)
  }

  function RowTexts(row: Row, lib: Library): (texts: seq<seq<byte>>)
    requires ValidRow(row, lib)
    ensures |texts| == |row|
  {
    if |row| == 0 then []
    else RowTexts(row[..|row| - 1], lib)
         + [if row[|row| - 1].None? then NULL_TEXT else ValueText(row[|row| - 1].value, lib)]
  }

  /** The bitmap has a bit set for each attribute that is not null. */
  ghost predicate BitmapFor(nulls: Option<seq<byte>>, row: Row) {
    && CoversTypes(nulls, |row|)
    && (nulls.None? ==> forall i :: 0 <= i < |row| ==> row[i].Some?)
    && (nulls.Some? ==> forall i :: 0 <= i < |row| ==> (IsNull(nulls.value, i) <==> row[i].None?))
  }

  // ---------------------------------------------------------------- one value back

  lemma {:induction false} NamePadding(s: seq<byte>, k: nat)
    requires NoNul(s)
    ensures UpToNul(s + Zeros(k)) == s
  {
    var t := s + Zeros(k);
    if |s| > 0 {
      NamePadding(s[1..], k);
      assert t[1..] == s[1..] + Zeros(k);
    } else if k > 0 {
      assert t[0] == 0;
    }
  }

  lemma SignedReadBack(n: int, size: nat)
    requires FitsSigned(n, size)
    ensures SignedAt(LeBytes(Unsigned(n, size), size), size) == n
  {
    LeRoundTrip(Unsigned(n, size), size);
  }

  lemma IntegerReadBack(v: Value, lib: Library)
    requires ValidValue(v, lib) && (v.Smallint? || v.Int? || v.Uint? || v.Bigint?)
    ensures FixedText(TypeOf(v), FixedBytes(v, lib)) == Some(ValueText(v, lib))
  {
    hide LeBytes, LeValue, IntText, Signed, Unsigned;
    match v
    case Smallint(n) => SignedReadBack(n, 2);
    case Int(n) => SignedReadBack(n, 4);
    case Uint(n) => LeRoundTrip(n, 4);
    case Bigint(n) => SignedReadBack(n, 8);
  }

  lemma FixedReadBack(v: Value, lib: Library)
    requires ValidValue(v, lib) && IsFixed(TypeOf(v))
    ensures FixedText(TypeOf(v), FixedBytes(v, lib)) == Some(ValueText(v, lib))
  {
    hide FixedText, FixedBytes, ValueText;
    match v
    case DayValue(n) => DateReadBack(n, lib);
    case Stamp(n, tz) => TimestampReadBack(n, tz, lib);
    case Name(_) => CharactersReadBack(v, lib);
    case Bool(_) => CharactersReadBack(v, lib);
    case Char(_) => CharactersReadBack(v, lib);
    case _ => IntegerReadBack(v, lib);
  }

  lemma CharactersReadBack(v: Value, lib: Library)
    requires ValidValue(v, lib) && (v.Name? || v.Bool? || v.Char?)
    ensures FixedText(TypeOf(v), FixedBytes(v, lib)) == Some(ValueText(v, lib))
  {
    hide Escape, UpToNul;
    if v.Name? {
      NamePadding(v.s, 64 - |v.s|);
    }
  }

  lemma DateReadBack(n: int, lib: Library)
    requires ValidValue(DayValue(n), lib)
    ensures FixedText(DateColumn, FixedBytes(DayValue(n), lib)) == Some(ValueText(DayValue(n), lib))
  {
    hide DayValueText, DayText, LeBytes, LeValue;
    DayIsInt32(n);
    SignedReadBack(n, 4);
    DayReadBack(n);
    var p := FixedBytes(DayValue(n), lib);
    assert p == LeBytes(Unsigned(n, 4), 4);
  }

  lemma DayIsInt32(n: int)
    ensures IsInt32(n) <==> FitsSigned(n, 4)
  {
    assert Pow256(4) == 0x1_0000_0000;
  }

  lemma StampIsInt64(n: int)
    ensures IsInt64(n) <==> FitsSigned(n, 8)
  {
    assert Pow256(8) == 0x1_0000_0000_0000_0000;
  }

  lemma TimestampReadBack(n: int, tz: bool, lib: Library)
    requires ValidValue(Stamp(n, tz), lib)
    ensures FixedText(TimestampColumn(tz), FixedBytes(Stamp(n, tz), lib)) == Some(ValueText(Stamp(n, tz), lib))
  {
    hide StampValueText, StampText, LeBytes, LeValue;
    StampIsInt64(n);
    SignedReadBack(n, 8);
    StampReadBack(n, tz);
    var p := FixedBytes(Stamp(n, tz), lib);
    assert p == LeBytes(Unsigned(n, 8), 8);
  }

  lemma DayReadBack(n: int)
    requires ValidDay(n)
    ensures DayText(n) == Some(DayValueText(n))
  {
    hide JulianToDate, DateText, EraText;
    if n != -0x8000_0000 && n != 0x7FFF_FFFF {
      J2dateIsTheCalendar(n + EPOCH);
    }
  }

  lemma StampReadBack(n: int, tz: bool)
    requires ValidStamp(n)
    ensures StampText(n, tz) == StampValueText(n, tz)
  {
    hide JulianToDate, DateText, EraText, ClockText;
    if FIRST_TIMESTAMP <= n < DT_NOEND {
      J2dateIsTheCalendar(n / USECS_PER_DAY + EPOCH);
    }
  }

  lemma FixedAttemptReads(ty: ColumnType, payload: seq<byte>, addr: nat, rest: seq<byte>, text: seq<byte>)
    requires IsFixed(ty) && |payload| == Width(ty) && FixedText(ty, payload) == Some(text)
    ensures var delta := AlignUp(addr, Alignment(ty)) - addr;
            FixedAttempt(ty, Zeros(delta) + payload + rest, addr) == Done(delta + |payload|, Some(text))
  {
    hide FixedText, Alignment, AlignUp, Width, ShortCode, IsFixed;
    var delta := AlignUp(addr, Alignment(ty)) - addr;
    var data := Zeros(delta) + payload + rest;
    assert data[delta..delta + Width(ty)] == payload;
  }

  lemma FixedAttemptReadsValue(v: Value, addr: nat, rest: seq<byte>, lib: Library)
    requires ValidValue(v, lib) && IsFixed(TypeOf(v))
    ensures var s := ValueBytes(v, addr, lib);
            FixedAttempt(TypeOf(v), s + rest, addr) == Done(|s|, Some(ValueText(v, lib)))
  {
    hide ValidValue, FixedText, FixedBytes, ValueText, ValueBytes, Alignment, AlignUp, Width, TypeOf, FixedAttempt;
    FixedValueBytes(v, addr, lib);
    FixedReadBack(v, lib);
    FixedAttemptReads(TypeOf(v), FixedBytes(v, lib), addr, rest, ValueText(v, lib));
  }

  lemma FixedValueBytes(v: Value, addr: nat, lib: Library)
    requires ValidValue(v, lib) && IsFixed(TypeOf(v))
    ensures ValueBytes(v, addr, lib)
            == Zeros(AlignUp(addr, Alignment(TypeOf(v))) - addr) + FixedBytes(v, lib)
    ensures Alignment(TypeOf(v)) == StoredAlignment(v)
  {
    hide FixedBytes, AlignUp;
  }

  /** Whatever the payload's parser makes of it, the stored form delivers the payload and its length. */
  lemma FormIsExtracted(numeric: bool, form: Form, payload: seq<byte>, addr: nat, rest: seq<byte>, lib: Library)
    requires FormFits(form, payload, lib)
    ensures var s := FormBytes(form, payload, addr, lib);
            ExtractAttempt(numeric, s + rest, addr, lib) == ParseAttempt(numeric, payload, |s|)
  {
    hide ParseAttempt, LeBytes, LeValue, LongAttempt;
    var s := FormBytes(form, payload, addr, lib);
    var data := s + rest;
    var padding := AlignUp(addr, 4) - addr;
    match form
    case Short =>
      assert data[0] == 2 * (|payload| + 1) + 1;
      assert data[1..|payload| + 1] == payload;
    case Long =>
      LongIsExtracted(numeric, payload, padding, rest, lib);
      PaddedIsExtracted(numeric, LeBytes(4 * (|payload| + 4), 4) + payload, addr, rest, lib);
      assert s == Zeros(padding) + (LeBytes(4 * (|payload| + 4), 4) + payload);
    case Compressed(compression, packed) =>
      CompressedIsExtracted(numeric, form, payload, padding, rest, lib);
      var t := LeBytes(4 * (|packed| + 8) + 2, 4) + LeBytes(InfoOf(compression, |payload|), 4) + packed;
      PaddedIsExtracted(numeric, t, addr, rest, lib);
      assert s == Zeros(padding) + t;
  }

  /** Alignment padding is skipped: a zero byte, or an even first header byte, is no short header. */
  lemma PaddedIsExtracted(numeric: bool, s: seq<byte>, addr: nat, rest: seq<byte>, lib: Library)
    requires |s| > 0 && s[0] % 2 == 0
    ensures var padding := AlignUp(addr, 4) - addr;
            ExtractAttempt(numeric, Zeros(padding) + s + rest, addr, lib)
            == LongAttempt(numeric, s + rest, padding, lib)
  {
    hide LongAttempt;
    var padding := AlignUp(addr, 4) - addr;
    var data := Zeros(padding) + s + rest;
    assert data[padding..] == s + rest;
    assert data[0] == if padding > 0 then 0 else s[0];
  }

  lemma InfoWord(high: nat, low: nat)
    requires high < 4 && low < 0x4000_0000
    ensures var v := InfoOf(high, low);
            v < 0x1_0000_0000 && v / 0x4000_0000 == high && v % 0x4000_0000 == low
  {
  }

  lemma LongIsExtracted(numeric: bool, payload: seq<byte>, padding: nat, rest: seq<byte>, lib: Library)
    requires FormFits(Long, payload, lib)
    ensures var s := LeBytes(4 * (|payload| + 4), 4) + payload;
            LongAttempt(numeric, s + rest, padding, lib) == ParseAttempt(numeric, payload, padding + |s|)
            && s[0] % 2 == 0
  {
    hide ParseAttempt, LeBytes, LeValue;
    var v := 4 * (|payload| + 4);
    var data := LeBytes(v, 4) + payload + rest;
    WordRoundTrip(v);
    assert data[..4] == LeBytes(v, 4);
    assert data[0] == LeBytes(v, 4)[0];
    assert data[4..4 + |payload|] == payload;
  }

  lemma CompressedIsExtracted(numeric: bool, form: Form, payload: seq<byte>, padding: nat, rest: seq<byte>,
                              lib: Library)
    requires FormFits(form, payload, lib) && form.Compressed?
    ensures var s := LeBytes(4 * (|form.packed| + 8) + 2, 4)
                     + LeBytes(InfoOf(form.compression, |payload|), 4) + form.packed;
            LongAttempt(numeric, s + rest, padding, lib) == ParseAttempt(numeric, payload, padding + |s|)
            && s[0] % 2 == 0
  {
    hide ParseAttempt, LeBytes, LeValue;
    var v, info := 4 * (|form.packed| + 8) + 2, InfoOf(form.compression, |payload|);
    InfoWord(form.compression, |payload|);
    WordRoundTrip(v);
    WordRoundTrip(info);
    var data := LeBytes(v, 4) + LeBytes(info, 4) + form.packed + rest;
    assert data[0] == LeBytes(v, 4)[0];
    assert data[..4] == LeBytes(v, 4);
    assert data[4..8] == LeBytes(info, 4);
    assert data[8..8 + |form.packed|] == form.packed;
    CompressedAttempt(numeric, data, padding, lib, 8 + |form.packed|, form.compression, payload);
  }

  lemma CompressedAttempt(numeric: bool, data: seq<byte>, padding: nat, lib: Library, len: nat,
                          compression: nat, payload: seq<byte>)
    requires 8 <= len <= |data| && data[0] % 4 == 2 && LeValue(data[..4]) / 4 == len
    requires LeValue(data[4..8]) / 0x4000_0000 == compression && LeValue(data[4..8]) % 0x4000_0000 == |payload|
    requires Restores(lib, compression, data[8..len], payload)
    ensures LongAttempt(numeric, data, padding, lib) == ParseAttempt(numeric, payload, padding + len)
  {
    hide ParseAttempt, LeValue;
  }

  lemma StringIsParsed(s: seq<byte>, processed: nat)
    ensures ParseAttempt(false, s, processed) == Done(processed, Some(Escape(s)))
  {
  }

  lemma NumberIsRead(x: Number, processed: nat)
    requires ValidNumber(x)
    ensures ParseAttempt(true, NumberBytes(x), processed) == Done(processed, Some(NumberText(x)))
  {
    match x
    case Finite(short, negative, weight, dscale, digits) =>
      StoredNumberText(short, negative, weight, dscale, digits);
    case NaN => SpecialWord(NUMERIC_NAN);
    case PosInfinity => SpecialWord(NUMERIC_PINF);
    case NegInfinity => SpecialWord(NUMERIC_NINF);
  }

  lemma SpecialWord(h: nat)
    requires h < 0x1_0000
    ensures HeaderWord(LeBytes(h, 2)) == h
  {
    assert Pow256(2) == 0x1_0000;
    LeRoundTrip(h, 2);
    assert LeBytes(h, 2)[..2] == LeBytes(h, 2);
  }

  lemma PointerIsRead(p: Pointer, rest: seq<byte>)
    requires 0 <= p.rawSize < 0x8000_0000
    requires p.extInfo < 0x1_0000_0000 && p.valueId < 0x1_0000_0000 && p.relationId < 0x1_0000_0000
    ensures var data := PointerBytes(p) + rest;
            data[0] == 1 && data[1] == TAG_ONDISK && PointerIn(data) == p
  {
    hide LeBytes, LeValue;
    var data := PointerBytes(p) + rest;
    assert Pow256(4) == 0x1_0000_0000;
    WordRoundTrip(p.rawSize);
    WordRoundTrip(p.extInfo);
    WordRoundTrip(p.valueId);
    WordRoundTrip(p.relationId);
    assert data[2..6] == LeBytes(p.rawSize, 4);
    assert data[6..10] == LeBytes(p.extInfo, 4);
    assert data[10..14] == LeBytes(p.valueId, 4);
    assert data[14..18] == LeBytes(p.relationId, 4);
  }

  /** The pointer's fields say what was stored, and whether compressed. */
  lemma PointerFields(content: Content, packing: Option<Packing>, valueId: nat, relationId: nat, lib: Library)
    requires PointerFits(content, packing, valueId, relationId, lib)
    ensures var p := PointerOf(content, packing, valueId, relationId);
            && 0 <= p.rawSize < 0x8000_0000 && p.extInfo < 0x1_0000_0000
            && p.extInfo % 0x4000_0000 == |Stored(content, packing)|
            && (packing.Some? ==> p.extInfo / 0x4000_0000 == packing.value.compression)
            && (IsPacked(p) <==> packing.Some?)
  {
    hide InfoOf, NumberBytes, IsStored;
    var stored, size := Stored(content, packing), |Payload(content)|;
    InfoWord(if packing.Some? then packing.value.compression else 0, |stored|);
    NoWrap(size);
  }

  /** Following a pointer prints an uncompressed value as itself and a compressed one as a string. */
  lemma PointerIsFollowed(content: Content, packing: Option<Packing>, valueId: nat, relationId: nat, processed: nat,
                          lib: Library)
    requires PointerFits(content, packing, valueId, relationId, lib) && lib.follow
    ensures FollowAttempt(content.Quantity?, PointerOf(content, packing, valueId, relationId), processed, lib)
            == Done(processed, Some(if packing.Some? then Escape(Payload(content)) else ContentText(content)))
  {
    hide InfoOf, NumberBytes, UnpackAttempt, ParseAttempt, NumberText, IsPacked, Escape;
    var p, stored := PointerOf(content, packing, valueId, relationId), Stored(content, packing);
    PointerFields(content, packing, valueId, relationId, lib);
    var blocks := lib.relation(relationId).value;
    FileIsFetched(blocks, TargetOf(p), stored);
    if packing.Some? {
      PackedIsUnpacked(packing.value, Payload(content), processed, lib);
    } else {
      PayloadIsParsed(content, processed);
    }
  }

  lemma FileIsFetched(blocks: seq<seq<Toast.Item>>, t: Toast.Target, stored: seq<byte>)
    requires HoldsValue(blocks, t, stored)
    ensures Toast.FetchStored(blocks, t) == Toast.Fetched(stored)
  {
    var labels :| Toast.Labelled(Toast.Flatten(blocks), labels, t, stored)
                  && Toast.Complete(labels, Toast.ChunkCount(|stored|));
    Toast.ValueIsFetched(blocks, labels, t, stored);
  }

  lemma PackedIsUnpacked(packing: Packing, payload: seq<byte>, processed: nat, lib: Library)
    requires |payload| < 0x4000_0000 && Restores(lib, packing.compression, packing.packed, payload)
    ensures UnpackAttempt(LeBytes(InfoOf(packing.compression, |payload|), 4) + packing.packed, processed, lib)
            == Done(processed, Some(Escape(payload)))
  {
    hide LeBytes, LeValue, InfoOf;
    var info := InfoOf(packing.compression, |payload|);
    var stored := LeBytes(info, 4) + packing.packed;
    InfoWord(packing.compression, |payload|);
    WordRoundTrip(info);
    assert stored[..4] == LeBytes(info, 4) && stored[4..] == packing.packed;
  }

  lemma PayloadIsParsed(content: Content, processed: nat)
    requires ValidContent(content)
    ensures ParseAttempt(content.Quantity?, Payload(content), processed) == Done(processed, Some(ContentText(content)))
  {
    if content.Quantity? {
      NumberIsRead(content.x, processed);
    }
  }

  /** A relation that holds just the tuples PostgreSQL stores a value in makes its pointer fit. */
  lemma StoredContentFits(content: Content, packing: Option<Packing>, valueId: nat, relationId: nat, addrs: seq<nat>,
                          beyond: seq<seq<byte>>, lib: Library)
    requires PointerFits(content, packing, valueId, relationId, lib.(follow := false)) && |Payload(content)| > 0
    requires |addrs| == |beyond| == Toast.ChunkCount(|Stored(content, packing)|)
    requires lib.relation(relationId)
             == Some([Toast.StoredChunks(valueId, Stored(content, packing), addrs, beyond)])
    requires packing.Some? ==> Restores(lib, packing.value.compression, packing.value.packed, Payload(content))
    ensures PointerFits(content, packing, valueId, relationId, lib)
  {
    hide InfoOf, NumberBytes, Restores;
    var stored, t := Stored(content, packing), TargetOf(PointerOf(content, packing, valueId, relationId));
    PointerFields(content, packing, valueId, relationId, lib.(follow := false));
    Toast.StoredIsFetched(valueId, stored, addrs, beyond, t.size);
    assert t == Toast.Target(valueId, |stored|, t.size);
  }

  // ---------------------------------------------------------------- numbers compressed in the TOAST relation

  lemma {:induction false} EscapeKeeps(s: seq<byte>, i: nat)
    requires i < |s|
    ensures EscapeByte(s[i])[0] in Escape(s)
  {
    hide EscapeByte;
    var n := |s| - 1;
    if i < n {
      EscapeKeeps(s[..n], i);
    } else {
      var e := Escape(s);
      assert e[|Escape(s[..n])|] == EscapeByte(s[n])[0];
    }
  }

  /** A digit, a minus or a point. */
  predicate IsNumeralChar(c: byte) { 45 <= c <= 57 }

  predicate AllNumeral(s: seq<byte>) {
    forall i :: 0 <= i < |s| ==> IsNumeralChar(s[i])
  }

  lemma FiniteTextIsNumeral(negative: bool, weight: int, dscale: nat, digits: seq<int>)
    requires IsBase10000(digits) && AreInt16(digits)
    ensures AllNumeral(FiniteText(negative, weight, dscale, digits))
  {
    IntegerTextIsDigits(digits, weight);
    PlacesAreDigits(digits, 4 * (weight + 1), 4 * (weight + 1) + dscale);
  }

  /** The second byte of a stored number's word: beyond ASCII in a short or special header, below any
      character of a numeral in a digit. */
  lemma HighByte(v: nat)
    requires v < 0x1_0000
    ensures LeBytes(v, 2) == [v % 256, v / 256]
  {
    assert LeBytes(v, 2) == [v % 256] + LeBytes(v / 256, 1);
    assert LeBytes(v / 256, 1) == [v / 256 % 256] + LeBytes(v / 256 / 256, 0);
  }

  lemma RawByteShows(s: seq<byte>, i: nat)
    requires i < |s| && (s[i] < 45 || s[i] >= 128)
    ensures !AllNumeral(Escape(s))
  {
    hide Escape;
    EscapeKeeps(s, i);
    var e := Escape(s);
    var k :| 0 <= k < |e| && e[k] == EscapeByte(s[i])[0];
    assert !IsNumeralChar(e[k]);
  }

  lemma RawNumberShows(short: bool, negative: bool, weight: int, dscale: nat, digits: seq<int>)
    requires ValidNumber(Finite(short, negative, weight, dscale, digits)) && (short || |digits| > 0)
    ensures !AllNumeral(Escape(NumberBytes(Finite(short, negative, weight, dscale, digits))))
  {
    hide Escape, LeBytes, AllNumeral;
    assert Pow256(2) == 0x1_0000;
    var s := NumberBytes(Finite(short, negative, weight, dscale, digits));
    if short {
      var h := ShortHeader(negative, dscale, weight);
      HighByte(h);
      assert s[1] == LeBytes(h, 2)[1];
      RawByteShows(s, 1);
    } else {
      HighByte(digits[0]);
      assert s[5] == DigitBytes(digits)[1] == LeBytes(digits[0], 2)[1];
      RawByteShows(s, 5);
    }
  }

  /** The raw bytes of a number, escaped as a string, never read like the number. */
  lemma PackedNumberIsNeverRight(x: Number)
    requires ValidNumber(x)
    ensures Escape(NumberBytes(x)) != NumberText(x)
  {
    hide Escape, FiniteText, LeBytes;
    var s := NumberBytes(x);
    match x
    case Finite(short, negative, weight, dscale, digits) =>
      if |digits| == 0 && !short {
        assert |s| == 4 && |NumberText(x)| == 1;
      } else {
        RawNumberShows(short, negative, weight, dscale, digits);
        FiniteTextIsNumeral(negative, weight, dscale, digits);
      }
    case _ =>
      HighByte(NUMERIC_NAN);
      HighByte(NUMERIC_PINF);
      HighByte(NUMERIC_NINF);
      EscapeFromFront(s);
      assert Escape(s)[0] == BACKSLASH;
      assert NumberText(x)[0] != BACKSLASH;
  }

  /** Whatever is stored, an uncompressed value and a compressed string are printed as themselves when the
      pointer is followed, and a compressed number never is. */
  lemma FollowedIsRightExactly(content: Content, packing: Option<Packing>, valueId: nat, relationId: nat, addr: nat,
                               rest: seq<byte>, lib: Library)
    requires PointerFits(content, packing, valueId, relationId, lib) && lib.follow
    ensures var s := PointerBytes(PointerOf(content, packing, valueId, relationId));
            Attribute(if content.Quantity? then NumericColumn else StringColumn, s + rest, addr, lib)
            == Done(18, Some(ContentText(content)))
            <==> !IsPackedNumber(content, packing)
  {
    hide PointerOf, PointerIn, FollowAttempt, ContentText, Payload, Escape;
    PointerIsExternal(content, packing, valueId, relationId, addr, rest, lib);
    PointerIsFollowed(content, packing, valueId, relationId, 18, lib);
    TextOfContent(content);
  }

  lemma TextOfContent(content: Content)
    requires ValidContent(content)
    ensures Escape(Payload(content)) == ContentText(content) <==> content.Characters?
  {
    hide Escape, NumberBytes, NumberText;
    if content.Quantity? {
      PackedNumberIsNeverRight(content.x);
    }
  }

  lemma PointerIsExternal(content: Content, packing: Option<Packing>, valueId: nat, relationId: nat, addr: nat,
                          rest: seq<byte>, lib: Library)
    requires PointerFits(content, packing, valueId, relationId, lib)
    ensures var p := PointerOf(content, packing, valueId, relationId);
            ExtractAttempt(content.Quantity?, PointerBytes(p) + rest, addr, lib)
            == (if lib.follow then FollowAttempt(content.Quantity?, p, 18, lib) else Done(18, Some(PointerText(p))))
            && PointerText(p) == MarkerText(packing)
  {
    hide IsStored, PointerOf, PointerIn, FollowAttempt, IsPacked, PointerBytes, ParseAttempt, LongAttempt, Ascii;
    PointerFields(content, packing, valueId, relationId, lib);
    PointerIds(content, packing, valueId, relationId, lib);
    PointerIsRead(PointerOf(content, packing, valueId, relationId), rest);
  }

  /** What the two words of a pointer mean, for every method, size and allocation. */
  lemma PointerMeans(rawSize: int, compression: nat, extSize: nat, valueId: nat, relationId: nat)
    requires -0x8000_0000 <= rawSize < 0x8000_0000 && compression < 4 && extSize < 0x4000_0000
    ensures var p := Pointer(rawSize, compression * 0x4000_0000 + extSize, valueId, relationId);
            && TargetOf(p) == Toast.Target(valueId, extSize, if rawSize > 0 then rawSize else 0)
            && (rawSize >= 4 ==> (IsPacked(p) <==> extSize < rawSize - 4))
            && (rawSize < 4 ==> IsPacked(p))
            && PointerText(p) == MarkerText(if IsPacked(p) then Some(Packing(compression, [])) else None)
  {
    hide Ascii;
    InfoWord(compression, extSize);
    Quotient(rawSize - 4, 0x1_0000_0000, if rawSize >= 4 then 0 else -1);
  }

  /** A pointer into memory: tags 1 to 3 with an 8-byte address, any other with none. */
  lemma AddressIsMarked(numeric: bool, tag: byte, address: seq<byte>, addr: nat, rest: seq<byte>, lib: Library)
    requires tag != 18 && |address| == if 1 <= tag <= 3 then 8 else 0
    ensures ExtractAttempt(numeric, [1, tag] + address + rest, addr, lib)
            == Done(2 + |address|, Some(Ascii("(TOASTED IN MEMORY)")))
  {
    hide Ascii, FollowAttempt, ParseAttempt, LongAttempt;
    var data := [1, tag] + address + rest;
    assert data[0] == 1 && data[1] == tag;
  }

  lemma PointerIds(content: Content, packing: Option<Packing>, valueId: nat, relationId: nat, lib: Library)
    requires PointerFits(content, packing, valueId, relationId, lib)
    ensures var p := PointerOf(content, packing, valueId, relationId);
            p.valueId < 0x1_0000_0000 && p.relationId < 0x1_0000_0000
  {
  }

  /** One attribute: the callback of its type consumes exactly its bytes and appends exactly its text. */
  lemma AttributeRoundTrip(v: Value, addr: nat, rest: seq<byte>, lib: Library)
    requires ValidValue(v, lib)
    ensures var s := ValueBytes(v, addr, lib);
            Attribute(TypeOf(v), s + rest, addr, lib) == Done(|s|, Some(ValueText(v, lib)))
  {
    hide FixedAttempt, ExtractAttempt, ParseAttempt, FollowAttempt, FormBytes, FixedBytes, PointerBytes,
      IsStored, Stored, InfoOf, FormFits, Escape, NumberBytes, NumberText, ContentText, MarkerText,
      PointerText, AlignUp;
    if IsFixed(TypeOf(v)) {
      FixedAttemptReadsValue(v, addr, rest, lib);
    } else {
      match v
      case Str(form, s) =>
        FormIsExtracted(false, form, s, addr, rest, lib);
        StringIsParsed(s, |ValueBytes(v, addr, lib)|);
      case Num(form, x) =>
        FormIsExtracted(true, form, NumberBytes(x), addr, rest, lib);
        NumberIsRead(x, |ValueBytes(v, addr, lib)|);
      case OnDisk(content, packing, valueId, relationId) =>
        PointerIsExternal(content, packing, valueId, relationId, addr, rest, lib);
        if lib.follow {
          PointerIsFollowed(content, packing, valueId, relationId, 18, lib);
          TextOfContent(content);
        }
      case InMemory(numeric, tag, address) => AddressIsMarked(numeric, tag, address, addr, rest, lib);
    }
  }

  // ---------------------------------------------------------------- no value breaks the line

  lemma NumberTextIsClean(x: Number)
    requires ValidNumber(x)
    ensures AllClean(NumberText(x)) && |NumberText(x)| > 0
  {
    hide FiniteText, Ascii;
    SpecialNamesAreClean();
    if x.Finite? {
      FiniteTextIsClean(x.negative, x.weight, x.dscale, x.digits);
      LeadingZeroExactly(x.weight, x.digits);
      FiniteTextParts(x.negative, x.weight, x.dscale, x.digits);
    }
  }

  lemma MarkerTextIsClean(packing: Option<Packing>)
    ensures AllClean(MarkerText(packing))
  {
    hide AllClean, Ascii;
    AsciiIsClean("(TOASTED,uncompressed)");
    AsciiIsClean("(TOASTED,pglz)");
    AsciiIsClean("(TOASTED,lz4)");
    AsciiIsClean("(TOASTED,unknown)");
  }

  /** No value's text holds a byte that separates fields or lines, or reads like a null. */
  lemma ValueTextIsPlain(v: Value, lib: Library)
    requires ValidValue(v, lib)
    ensures AllPlain(ValueText(v, lib)) && ValueText(v, lib) != [92, 78]
  {
    hide AllPlain, AllClean, FixedText, FixedBytes, NumberText, MarkerText, Escape, IsStored, FormFits;
    if IsFixed(TypeOf(v)) {
      FixedReadBack(v, lib);
      FixedTextIsPlain(TypeOf(v), FixedBytes(v, lib));
    } else {
      match v
      case Str(_, s) => EscapedIsPlain(s);
      case Num(_, x) =>
        NumberTextIsClean(x);
        CleanIsPlain(NumberText(x));
      case OnDisk(content, packing, _, _) =>
        MarkerTextIsClean(packing);
        CleanIsPlain(MarkerText(packing));
        if content.Characters? {
          EscapedIsPlain(content.s);
        } else {
          NumberTextIsClean(content.x);
          CleanIsPlain(NumberText(content.x));
        }
      case InMemory(_, _, _) =>
        MarkersAreClean();
        CleanIsPlain(Ascii("(TOASTED IN MEMORY)"));
    }
  }

  /** Only the empty string and the empty name are printed as nothing. */
  predicate IsEmptyText(v: Value) {
    match v
    case Name(s) => s == []
    case Str(_, s) => s == []
    case _ => false
  }

  lemma EmptyTextExactly(v: Value, lib: Library)
    requires ValidValue(v, lib)
    ensures ValueText(v, lib) == [] <==> IsEmptyText(v)
  {
    hide NumberText, MarkerText, DateText, ClockText, EraText, IntText;
    match v
    case Num(_, x) => NumberTextIsClean(x);
    case OnDisk(content, packing, valueId, relationId) =>
      if content.Quantity? {
        NumberTextIsClean(content.x);
      }
      MarkerIsNotEmpty(packing);
      if lib.follow {
        StoredIsNotEmpty(content, packing, valueId, relationId, lib);
      }
    case DayValue(n) => DayValueTextIsNotEmpty(n);
    case Stamp(n, tz) => StampValueTextIsNotEmpty(n, tz);
    case _ =>
  }

  lemma MarkerIsNotEmpty(packing: Option<Packing>)
    ensures |MarkerText(packing)| > 0
  {
  }

  lemma StoredIsNotEmpty(content: Content, packing: Option<Packing>, valueId: nat, relationId: nat, lib: Library)
    requires PointerFits(content, packing, valueId, relationId, lib) && lib.follow
    ensures |Payload(content)| > 0
  {
    hide Toast.Complete, Toast.Flatten, NumberBytes;
  }

  lemma DayValueTextIsNotEmpty(n: int)
    requires ValidDay(n)
    ensures |DayValueText(n)| > 0
  {
    hide PadText;
  }

  lemma StampValueTextIsNotEmpty(n: int, tz: bool)
    requires ValidStamp(n)
    ensures |StampValueText(n, tz)| > 0
  {
    hide DateText, ClockText, EraText;
  }

  // ---------------------------------------------------------------- the whole row back

  /** The column types of a row, and any behind them. */
  ghost predicate TypesFor(types: seq<ColumnType>, row: Row) {
    |types| >= |row| && forall i :: 0 <= i < |row| && row[i].Some? ==> types[i] == TypeOf(row[i].value)
  }

  /** The types end with the row, or with `~` when more bytes follow. */
  predicate EndsWith(types: seq<ColumnType>, nulls: Option<seq<byte>>, n: nat, tail: seq<byte>)
    requires CoversTypes(nulls, |types|)
  {
    if tail == [] then |types| == n
    else |types| == n + 1 && types[n] == IgnoreColumn && (nulls.Some? ==> !IsNull(nulls.value, n))
  }

  lemma {:induction false} LineGrows(texts: seq<seq<byte>>, k: nat)
    requires k <= |texts|
    ensures |Line(texts[..k])| <= |Line(texts)|
    decreases |texts| - k
  {
    if k < |texts| {
      LineGrows(texts, k + 1);
      assert texts[..k + 1][..k] == texts[..k];
    } else {
      assert texts[..k] == texts;
    }
  }

  lemma {:induction false} RowTextAt(row: Row, k: nat, lib: Library)
    requires ValidRow(row, lib) && k < |row|
    ensures RowTexts(row, lib)[k] == if row[k].None? then NULL_TEXT else ValueText(row[k].value, lib)
  {
    if k < |row| - 1 {
      RowTextAt(row[..|row| - 1], k, lib);
    }
  }

  /** The null bitmap and the column types describe the row, and its line fits the string buffer. */
  ghost predicate Describes(types: seq<ColumnType>, nulls: Option<seq<byte>>, row: Row, lib: Library) {
    && ValidRow(row, lib) && TypesFor(types, row)
    && BitmapFor(nulls, row) && CoversTypes(nulls, |types|)
    && |Line(RowTexts(row, lib))| < MAX_ALLOC_SIZE
  }

  /** From attribute k on, with the texts before k on the line, the rest of the row is decoded, and decoding
      goes on behind it. */
  ghost predicate DecodesFrom(types: seq<ColumnType>, k: nat, nulls: Option<seq<byte>>, row: Row, addr: nat,
                              tail: seq<byte>, lib: Library)
    requires Describes(types, nulls, row, lib) && k <= |row|
  {
    var texts := RowTexts(row, lib);
    var s := RowBytes(row[k..], addr, lib);
    DecodeFrom(types, k, nulls, s + tail, addr, Line(texts[..k]), lib)
    == DecodeFrom(types, |row|, nulls, tail, addr + |s|, Line(texts), lib)
  }

  lemma {:induction false} DecodeSuffix(row: Row, k: nat, types: seq<ColumnType>, nulls: Option<seq<byte>>,
                                        addr: nat, tail: seq<byte>, lib: Library)
    requires Describes(types, nulls, row, lib) && k <= |row|
    ensures DecodesFrom(types, k, nulls, row, addr, tail, lib)
    decreases |row| - k
  {
    hide DecodeFrom, Line, IsNull, ValueBytes, ValidValue, TypeOf, RowTexts, DecodesFrom, RowBytes;
    if k == |row| {
      EndOfRow(row, types, nulls, addr, tail, lib);
    } else if row[k].None? {
      DecodeSuffix(row, k + 1, types, nulls, addr, tail, lib);
      NullStep(row, k, types, nulls, addr, tail, lib);
    } else {
      DecodeSuffix(row, k + 1, types, nulls, addr + |ValueBytes(row[k].value, addr, lib)|, tail, lib);
      ValueStep(row, k, types, nulls, addr, tail, lib);
    }
  }

  lemma EndOfRow(row: Row, types: seq<ColumnType>, nulls: Option<seq<byte>>, addr: nat, tail: seq<byte>,
                 lib: Library)
    requires Describes(types, nulls, row, lib)
    ensures DecodesFrom(types, |row|, nulls, row, addr, tail, lib)
  {
    hide DecodeFrom, Line, IsNull, RowTexts, RowBytes, Describes;
    RowIsValid(row, types, nulls, lib);
    var texts := RowTexts(row, lib);
    assert texts[..|row|] == texts;
    RowBytesStep(row, |row|, addr, lib);
    assert [] + tail == tail;
  }

  lemma NullStep(row: Row, k: nat, types: seq<ColumnType>, nulls: Option<seq<byte>>, addr: nat, tail: seq<byte>,
                 lib: Library)
    requires Describes(types, nulls, row, lib) && k < |row| && row[k].None?
    requires DecodesFrom(types, k + 1, nulls, row, addr, tail, lib)
    ensures DecodesFrom(types, k, nulls, row, addr, tail, lib)
  {
    hide DecodeFrom, Line, IsNull, RowBytes, RowTexts, ValidValue;
    var texts := RowTexts(row, lib);
    LineStep(texts, k);
    RowTextAt(row, k, lib);
    RowBytesStep(row, k, addr, lib);
    DecodeNull(types, k, nulls, RowBytes(row[k + 1..], addr, lib) + tail, addr, Line(texts[..k]), lib);
  }

  lemma ValueStep(row: Row, k: nat, types: seq<ColumnType>, nulls: Option<seq<byte>>, addr: nat, tail: seq<byte>,
                  lib: Library)
    requires Describes(types, nulls, row, lib) && k < |row| && row[k].Some?
    requires DecodesFrom(types, k + 1, nulls, row, addr + |ValueBytes(row[k].value, addr, lib)|, tail, lib)
    ensures DecodesFrom(types, k, nulls, row, addr, tail, lib)
  {
    hide DecodeFrom, Line, IsNull, RowBytes, RowTexts, ValidValue, ValueBytes, ValueText, TypeOf, Attribute;
    var texts := RowTexts(row, lib);
    LineStep(texts, k);
    RowTextAt(row, k, lib);
    RowBytesStep(row, k, addr, lib);
    var s := ValueBytes(row[k].value, addr, lib);
    var rest := RowBytes(row[k + 1..], addr + |s|, lib) + tail;
    assert RowBytes(row[k..], addr, lib) + tail == s + rest;
    AttributeRoundTrip(row[k].value, addr, rest, lib);
    DecodeOne(types, k, nulls, s, rest, addr, Line(texts[..k]), texts[k], lib);
  }

  lemma RowBytesStep(row: Row, k: nat, addr: nat, lib: Library)
    requires ValidRow(row, lib) && k <= |row|
    ensures RowBytes(row[k..], addr, lib)
            == if k == |row| then []
               else if row[k].None? then RowBytes(row[k + 1..], addr, lib)
               else var s := ValueBytes(row[k].value, addr, lib);
                    s + RowBytes(row[k + 1..], addr + |s|, lib)
  {
    hide ValueBytes, ValidValue;
    if k < |row| {
      assert row[k..][1..] == row[k + 1..];
    }
  }

  lemma DecodeNull(types: seq<ColumnType>, k: nat, nulls: Option<seq<byte>>, rest: seq<byte>, addr: nat,
                   line: seq<byte>, lib: Library)
    requires k < |types| && CoversTypes(nulls, |types|)
    requires nulls.Some? && IsNull(nulls.value, k)
    requires |Extended(line, NULL_TEXT)| < MAX_ALLOC_SIZE
    ensures DecodeFrom(types, k, nulls, rest, addr, line, lib)
            == DecodeFrom(types, k + 1, nulls, rest, addr, Extended(line, NULL_TEXT), lib)
  {
  }

  lemma LineStep(texts: seq<seq<byte>>, k: nat)
    requires k < |texts|
    ensures Line(texts[..k + 1]) == Extended(Line(texts[..k]), texts[k])
    ensures |Line(texts[..k + 1])| <= |Line(texts)|
  {
    LineGrows(texts, k + 1);
    assert texts[..k + 1][..k] == texts[..k];
  }

  lemma DecodeOne(types: seq<ColumnType>, k: nat, nulls: Option<seq<byte>>, s: seq<byte>, rest: seq<byte>, addr: nat,
                  line: seq<byte>, text: seq<byte>, lib: Library)
    requires k < |types| && CoversTypes(nulls, |types|) && |s| > 0
    requires nulls.Some? ==> !IsNull(nulls.value, k)
    requires Attribute(types[k], s + rest, addr, lib) == Done(|s|, Some(text))
    requires |Extended(line, text)| < MAX_ALLOC_SIZE
    ensures DecodeFrom(types, k, nulls, s + rest, addr, line, lib)
            == DecodeFrom(types, k + 1, nulls, rest, addr + |s|, Extended(line, text), lib)
  {
    hide Attribute, IsNull;
    assert (s + rest)[|s|..] == rest;
  }

  lemma RowIsValid(row: Row, types: seq<ColumnType>, nulls: Option<seq<byte>>, lib: Library)
    requires Describes(types, nulls, row, lib)
    ensures ValidRow(row, lib) && |types| >= |row| && CoversTypes(nulls, |types|)
    ensures |Line(RowTexts(row, lib))| < MAX_ALLOC_SIZE
  {
  }

  /** A formed row is consumed up to its last byte, its texts are on the line, and whatever types and bytes
      follow are decoded from there. */
  lemma RowIsConsumed(row: Row, types: seq<ColumnType>, nulls: Option<seq<byte>>, addr: nat, tail: seq<byte>,
                      lib: Library)
    requires Describes(types, nulls, row, lib)
    ensures var s := RowBytes(row, addr, lib);
            DecodeFrom(types, 0, nulls, s + tail, addr, [], lib)
            == DecodeFrom(types, |row|, nulls, tail, addr + |s|, Line(RowTexts(row, lib)), lib)
  {
    hide DecodeFrom, RowBytes, RowTexts, Describes, IsNull;
    DecodeSuffix(row, 0, types, nulls, addr, tail, lib);
    RowIsValid(row, types, nulls, lib);
    var texts := RowTexts(row, lib);
    assert row[0..] == row;
    assert texts[..0] == [] && Line(texts[..0]) == [];
  }

  /** Forming then decoding is the identity: every byte is consumed and every value's text, or \N,
      appended in order; a final `~` swallows whatever follows without printing it. */
  lemma DecodeFormsBack(row: Row, types: seq<ColumnType>, nulls: Option<seq<byte>>, addr: nat, tail: seq<byte>,
                        lib: Library)
    requires Describes(types, nulls, row, lib) && EndsWith(types, nulls, |row|, tail)
    ensures DecodeFrom(types, 0, nulls, RowBytes(row, addr, lib) + tail, addr, [], lib)
            == Flushed(Line(RowTexts(row, lib)))
  {
    hide RowBytes, RowTexts, Line, IsNull, Describes, DecodeFrom, EndsWith;
    RowIsValid(row, types, nulls, lib);
    RowIsConsumed(row, types, nulls, addr, tail, lib);
    EndsThere(types, |row|, nulls, tail, addr + |RowBytes(row, addr, lib)|, Line(RowTexts(row, lib)), lib);
  }

  lemma EndsThere(types: seq<ColumnType>, n: nat, nulls: Option<seq<byte>>, tail: seq<byte>, addr: nat,
                  line: seq<byte>, lib: Library)
    requires CoversTypes(nulls, |types|) && EndsWith(types, nulls, n, tail) && |line| < MAX_ALLOC_SIZE
    ensures n <= |types| && DecodeFrom(types, n, nulls, tail, addr, line, lib) == Flushed(line)
  {
    hide IsNull;
  }

  /** The printed line falls apart into one text an attribute, and nulls are told from values, exactly when
      there is an attribute and the first of several is not printed as nothing. */
  lemma RowIsSplitBack(row: Row, types: seq<ColumnType>, nulls: Option<seq<byte>>, addr: nat, tail: seq<byte>,
                       lib: Library)
    requires Describes(types, nulls, row, lib) && EndsWith(types, nulls, |row|, tail)
    ensures var outcome := DecodeFrom(types, 0, nulls, RowBytes(row, addr, lib) + tail, addr, [], lib);
            outcome.Flushed?
            && (Split(outcome.line) == RowTexts(row, lib)
                <==> |row| > 0 && (|row| > 1 && row[0].Some? ==> !IsEmptyText(row[0].value)))
    ensures forall k :: 0 <= k < |row| ==> (RowTexts(row, lib)[k] == [92, 78] <==> row[k].None?)
  {
    hide DecodeFrom, RowBytes, Line, Split, RowTexts, ValueText, IsNull, ValidValue, IsEmptyText;
    var texts := RowTexts(row, lib);
    DecodeFormsBack(row, types, nulls, addr, tail, lib);
    forall k | 0 <= k < |row|
      ensures NoTab(texts[k])
      ensures texts[k] == [92, 78] <==> row[k].None?
      ensures texts[k] == [] <==> row[k].Some? && IsEmptyText(row[k].value)
    {
      RowTextAt(row, k, lib);
      if row[k].Some? {
        ValueTextIsPlain(row[k].value, lib);
        EmptyTextExactly(row[k].value, lib);
      }
    }
    LineSplits(texts);
  }

  // ---------------------------------------------------------------- the bitmap, and rows of strings

  function Flag(row: Row, i: nat): int {
    if i < |row| && row[i].Some? then 1 else 0
  }

  /** The flags of attributes i, ..., i + n - 1, the first in the lowest bit. */
  function Flags(row: Row, i: nat, n: nat): (f: nat)
    ensures f < Power2(n)
    decreases n
  {
    if n == 0 then 0 else Flag(row, i) + 2 * Flags(row, i + 1, n - 1)
  }

  function Power2(n: nat): nat {
    if n == 0 then 1 else 2 * Power2(n - 1)
  }

  function BitmapByte(row: Row, i: nat): byte {
    assert Power2(8) == 256;
    Flags(row, i, 8)
  }

  /** The null bitmap of a row: bit i % 8 of byte i / 8 tells that attribute i is present. */
  function Bitmap(row: Row): (bits: seq<byte>)
    ensures |bits| == (|row| + 7) / 8
  {
    seq<byte>((|row| + 7) / 8, (i: nat) => BitmapByte(row, 8 * i))
  }

  lemma {:induction false} BitmapBit(row: Row, i: nat, n: nat, k: nat)
    requires k < n
    ensures BitOf(Flags(row, i, n), k) == Flag(row, i + k)
    decreases n
  {
    var rest := Flags(row, i + 1, n - 1);
    assert (Flag(row, i) + 2 * rest) / 2 == rest;
    if k > 0 {
      BitmapBit(row, i + 1, n - 1, k - 1);
    }
  }

  lemma BitmapDescribesRow(row: Row)
    ensures BitmapFor(Some(Bitmap(row)), row)
  {
    var bits := Bitmap(row);
    forall i | 0 <= i < |row|
      ensures i / 8 < |bits| && (IsNull(bits, i) <==> row[i].None?)
    {
      assert bits[i / 8] == BitmapByte(row, 8 * (i / 8));
      BitmapBit(row, 8 * (i / 8), 8, i % 8);
    }
  }

  function StringRow(fields: seq<Field>, forms: seq<Form>): (row: Row)
    requires |forms| == |fields|
    ensures |row| == |fields|
    ensures forall i :: 0 <= i < |row| ==>
              row[i] == if fields[i].Null? then None else Some(Str(forms[i], fields[i].bytes))
  {
    seq(|fields|, i requires 0 <= i < |fields| =>
      if fields[i].Null? then None else Some(Str(forms[i], fields[i].bytes)))
  }

  /** Storing strings, decoding the tuple and reading the COPY line gives the strings back exactly for
      the recoverable rows, in whatever form and at whatever address each was stored. */
  lemma StringRowSurvives(fields: seq<Field>, forms: seq<Form>, addr: nat, lib: Library)
    requires |forms| == |fields| && ValidRow(StringRow(fields, forms), lib)
    requires |Line(FieldTexts(fields))| < MAX_ALLOC_SIZE
    ensures var row := StringRow(fields, forms);
            var types := seq(|fields|, _ => StringColumn);
            var nulls := Some(Bitmap(row));
            CoversTypes(nulls, |types|)
            && var outcome := DecodeFrom(types, 0, nulls, RowBytes(row, addr, lib), addr, [], lib);
            outcome == Flushed(Line(FieldTexts(fields)))
            && (ReadRow(outcome.line) == fields <==> Recoverable(fields))
  {
    hide DecodeFrom, Line, ReadRow, Bitmap, IsNull, RowBytes, RowTexts, ValidValue, Recoverable;
    var row := StringRow(fields, forms);
    var types := seq(|fields|, _ => StringColumn);
    BitmapDescribesRow(row);
    StringTexts(fields, forms, lib);
    assert TypesFor(types, row);
    DecodeFormsBack(row, types, Some(Bitmap(row)), addr, [], lib);
    assert RowBytes(row, addr, lib) + [] == RowBytes(row, addr, lib);
    RowIsRead(fields);
  }

  lemma StringTexts(fields: seq<Field>, forms: seq<Form>, lib: Library)
    requires |forms| == |fields| && ValidRow(StringRow(fields, forms), lib)
    ensures RowTexts(StringRow(fields, forms), lib) == FieldTexts(fields)
  {
    var row := StringRow(fields, forms);
    forall k | 0 <= k < |row|
      ensures RowTexts(row, lib)[k] == FieldTexts(fields)[k]
    {
      RowTextAt(row, k, lib);
    }
  }
}
