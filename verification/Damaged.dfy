/**
 Tuples that do not fit their column types, are cut short or cannot be unpacked: which error each gives, how
 many bytes or attributes it names, and what is on the line by then.
 */
module DamagedTuples {
  import opened Bytes
  import opened Decimal
  import opened Numeric
  import opened StringInfos
  import opened CopyLines
  import opened Tuples
  import opened Rows
  import Toast

  // ---------------------------------------------------------------- types that do not fit the row

  lemma {:induction false} RowBytesJoin(row: Row, k: nat, addr: nat, lib: Library)
    requires ValidRow(row, lib) && k <= |row|
    ensures var front := RowBytes(row[..k], addr, lib);
            RowBytes(row, addr, lib) == front + RowBytes(row[k..], addr + |front|, lib)
  {
    hide ValueBytes, ValidValue;
    if k == 0 {
      assert row[0..] == row;
    } else {
      assert row[..k][1..] == row[1..][..k - 1] && row[1..][k - 1..] == row[k..];
      if row[0].None? {
        RowBytesJoin(row[1..], k - 1, addr, lib);
      } else {
        RowBytesJoin(row[1..], k - 1, addr + |ValueBytes(row[0].value, addr, lib)|, lib);
      }
    }
  }

  /** With types for the first k attributes only, the bytes of the others are left over and counted; when the
      others are all null there are none, and the short line is printed as if it were whole. */
  lemma TooFewTypes(row: Row, k: nat, types: seq<ColumnType>, nulls: Option<seq<byte>>, addr: nat, lib: Library)
    requires ValidRow(row, lib) && k <= |row| == |types|
    requires Describes(types[..k], nulls, row[..k], lib)
    ensures var at := addr + |RowBytes(row[..k], addr, lib)|;
            var left := |RowBytes(row[k..], at, lib)|;
            var line := Line(RowTexts(row[..k], lib));
            DecodeFrom(types[..k], 0, nulls, RowBytes(row, addr, lib), addr, [], lib)
            == (if left == 0 then Flushed(line) else BytesLeft(left, line))
            && (left == 0 <==> AllNullFrom(row, k))
  {
    hide RowBytes, RowTexts, Line, IsNull, ValidValue, Describes, DecodeFrom, AllNullFrom;
    RowIsValid(row[..k], types[..k], nulls, lib);
    RowBytesJoin(row, k, addr, lib);
    var at := addr + |RowBytes(row[..k], addr, lib)|;
    var rest := RowBytes(row[k..], at, lib);
    RowIsConsumed(row[..k], types[..k], nulls, addr, rest, lib);
    NoTypesLeft(types[..k], nulls, rest, at, Line(RowTexts(row[..k], lib)), lib);
    NoneBehind(row, k, at, lib);
  }

  predicate AllNullFrom(row: Row, k: nat) {
    forall i :: k <= i < |row| ==> row[i].None?
  }

  lemma NoneBehind(row: Row, k: nat, addr: nat, lib: Library)
    requires ValidRow(row, lib) && k <= |row|
    ensures |RowBytes(row[k..], addr, lib)| == 0 <==> AllNullFrom(row, k)
  {
    hide RowBytes, ValidValue;
    NoBytesExactly(row[k..], addr, lib);
    assert forall i :: k <= i < |row| ==> row[k..][i - k] == row[i];
  }

  lemma NoTypesLeft(types: seq<ColumnType>, nulls: Option<seq<byte>>, rest: seq<byte>, addr: nat, line: seq<byte>,
                    lib: Library)
    requires CoversTypes(nulls, |types|)
    ensures DecodeFrom(types, |types|, nulls, rest, addr, line, lib)
            == if |rest| == 0 then Flushed(line) else BytesLeft(|rest|, line)
  {
  }

  lemma {:induction false} NoBytesExactly(row: Row, addr: nat, lib: Library)
    requires ValidRow(row, lib)
    ensures RowBytes(row, addr, lib) == [] <==> forall i :: 0 <= i < |row| ==> row[i].None?
  {
    hide ValueBytes, ValidValue;
    if |row| > 0 {
      if row[0].None? {
        NoBytesExactly(row[1..], addr, lib);
        assert row[0].None? && forall i :: 1 <= i < |row| ==> row[1..][i - 1] == row[i];
      }
    }
  }

  /** A type too many, for an attribute the bitmap does not call null, finds no bytes. */
  lemma TooManyTypes(row: Row, types: seq<ColumnType>, nulls: Option<seq<byte>>, addr: nat, lib: Library)
    requires Describes(types, nulls, row, lib) && |types| > |row|
    requires nulls.Some? ==> !IsNull(nulls.value, |row|)
    ensures DecodeFrom(types, 0, nulls, RowBytes(row, addr, lib), addr, [], lib)
            == NoBytesLeft(Line(RowTexts(row, lib)))
  {
    hide RowBytes, RowTexts, Line, IsNull, Describes, DecodeFrom;
    RowIsValid(row, types, nulls, lib);
    var s := RowBytes(row, addr, lib);
    RowIsConsumed(row, types, nulls, addr, [], lib);
    assert s + [] == s;
    NothingThere(types, |row|, nulls, addr + |s|, Line(RowTexts(row, lib)), lib);
  }

  lemma NothingThere(types: seq<ColumnType>, i: nat, nulls: Option<seq<byte>>, addr: nat, line: seq<byte>,
                     lib: Library)
    requires i < |types| && CoversTypes(nulls, |types|) && (nulls.Some? ==> !IsNull(nulls.value, i))
    ensures DecodeFrom(types, i, nulls, [], addr, line, lib) == NoBytesLeft(line)
  {
    hide IsNull;
  }

  lemma CodeReturned(types: seq<ColumnType>, i: nat, nulls: Option<seq<byte>>, tail: seq<byte>, addr: nat,
                     line: seq<byte>, code: int, lib: Library)
    requires i < |types| && CoversTypes(nulls, |types|) && (nulls.Some? ==> !IsNull(nulls.value, i)) && tail != []
    requires Attribute(types[i], tail, addr, lib) == Failed(code)
    ensures DecodeFrom(types, i, nulls, tail, addr, line, lib) == CallbackFailed(i + 1, code, line)
  {
    hide IsNull, Attribute;
  }

  /** A callback's code ends the decoding, named by the attribute's number from one on, with the texts of the
      attributes before it. */
  lemma CallbackFails(row: Row, types: seq<ColumnType>, nulls: Option<seq<byte>>, addr: nat, tail: seq<byte>,
                      code: int, lib: Library)
    requires Describes(types, nulls, row, lib) && |types| > |row| && tail != []
    requires nulls.Some? ==> !IsNull(nulls.value, |row|)
    requires Attribute(types[|row|], tail, addr + |RowBytes(row, addr, lib)|, lib) == Failed(code)
    ensures DecodeFrom(types, 0, nulls, RowBytes(row, addr, lib) + tail, addr, [], lib)
            == CallbackFailed(|row| + 1, code, Line(RowTexts(row, lib)))
  {
    hide RowBytes, RowTexts, Line, IsNull, Attribute, Describes, DecodeFrom;
    RowIsValid(row, types, nulls, lib);
    RowIsConsumed(row, types, nulls, addr, tail, lib);
    CodeReturned(types, |row|, nulls, tail, addr + |RowBytes(row, addr, lib)|, Line(RowTexts(row, lib)), code, lib);
  }

  // ---------------------------------------------------------------- lines that are too long

  /** The row fits its types and bitmap; nothing is said of the length of its line. */
  ghost predicate Formed(types: seq<ColumnType>, nulls: Option<seq<byte>>, row: Row, lib: Library) {
    ValidRow(row, lib) && TypesFor(types, row) && |types| == |row| && BitmapFor(nulls, row)
  }

  /** The first attribute with which the line reaches the limit of a string. */
  lemma {:induction false} FirstTooLong(texts: seq<seq<byte>>, n: nat) returns (k: nat)
    requires n <= |texts| && |Line(texts[..n])| >= 0x3fff_ffff
    ensures k < n && |Line(texts[..k])| < 0x3fff_ffff <= |Line(texts[..k + 1])|
  {
    assert texts[..0] == [];
    assert n > 0;
    if |Line(texts[..n - 1])| >= 0x3fff_ffff {
      k := FirstTooLong(texts, n - 1);
    } else {
      k := n - 1;
    }
  }

  lemma {:induction false} PrefixTexts(row: Row, k: nat, lib: Library)
    requires ValidRow(row, lib) && k <= |row|
    ensures RowTexts(row[..k], lib) == RowTexts(row, lib)[..k]
  {
    hide ValueText, ValidValue;
    forall i | 0 <= i < k
      ensures RowTexts(row[..k], lib)[i] == RowTexts(row, lib)[i]
    {
      RowTextAt(row[..k], i, lib);
      RowTextAt(row, i, lib);
    }
  }

  /** A formed row is printed exactly when its line stays below 2^30 - 1 bytes; otherwise the program leaves. */
  lemma LongLineLeaves(row: Row, types: seq<ColumnType>, nulls: Option<seq<byte>>, addr: nat, lib: Library)
    requires Formed(types, nulls, row, lib)
    ensures var line := Line(RowTexts(row, lib));
            DecodeFrom(types, 0, nulls, RowBytes(row, addr, lib), addr, [], lib)
            == if |line| < 0x3fff_ffff then Flushed(line) else LineTooLong
  {
    hide RowBytes, RowTexts, Line, IsNull, DecodeFrom, ValidValue;
    var texts := RowTexts(row, lib);
    if |Line(texts)| < 0x3fff_ffff {
      DecodeFormsBack(row, types, nulls, addr, [], lib);
      assert RowBytes(row, addr, lib) + [] == RowBytes(row, addr, lib);
    } else {
      assert texts[..|texts|] == texts;
      var k := FirstTooLong(texts, |texts|);
      PrefixTexts(row, k, lib);
      assert Describes(types, nulls, row[..k], lib);
      RowBytesJoin(row, k, addr, lib);
      var at := addr + |RowBytes(row[..k], addr, lib)|;
      RowIsConsumed(row[..k], types, nulls, addr, RowBytes(row[k..], at, lib), lib);
      StepTooLong(row, k, types, nulls, at, lib);
    }
  }

  lemma StepTooLong(row: Row, k: nat, types: seq<ColumnType>, nulls: Option<seq<byte>>, addr: nat, lib: Library)
    requires Formed(types, nulls, row, lib) && k < |row|
    requires |Line(RowTexts(row, lib)[..k + 1])| >= 0x3fff_ffff
    ensures DecodeFrom(types, k, nulls, RowBytes(row[k..], addr, lib), addr, Line(RowTexts(row, lib)[..k]), lib)
            == LineTooLong
  {
    hide RowBytes, RowTexts, Line, IsNull, ValidValue, ValueBytes, ValueText, TypeOf, Attribute;
    var texts := RowTexts(row, lib);
    LineStep(texts, k);
    RowTextAt(row, k, lib);
    RowBytesStep(row, k, addr, lib);
    if row[k].Some? {
      var s := ValueBytes(row[k].value, addr, lib);
      AttributeRoundTrip(row[k].value, addr, RowBytes(row[k + 1..], addr + |s|, lib), lib);
    }
  }

  // ---------------------------------------------------------------- values cut short

  /** A fixed-width value cut inside its padding gives -1; cut inside its bytes, -1 for bool and name, which
      are not aligned, and -2 for the others. */
  lemma CutFixedValue(v: Value, addr: nat, m: nat, lib: Library)
    requires ValidValue(v, lib) && IsFixed(TypeOf(v)) && m < |ValueBytes(v, addr, lib)|
    ensures var padding := AlignUp(addr, StoredAlignment(v)) - addr;
            FixedAttempt(TypeOf(v), ValueBytes(v, addr, lib)[..m], addr)
            == Failed(if m < padding || v.Bool? || v.Name? then -1 else -2)
  {
    hide FixedBytes, FixedText, AlignUp;
    FixedValueBytes(v, addr, lib);
  }

  /** A short-header value and a pointer cut short give -1; an aligned value gives -1 once its length, and for
      a compressed one its second word, is there, and -9 before. */
  lemma CutForm(numeric: bool, form: Form, payload: seq<byte>, addr: nat, m: nat, lib: Library)
    requires FormFits(form, payload, lib)
    requires 0 < m < |FormBytes(form, payload, addr, lib)|
    requires !form.Short? ==> m >= AlignUp(addr, 4) - addr
    ensures var padding := AlignUp(addr, 4) - addr;
            ExtractAttempt(numeric, FormBytes(form, payload, addr, lib)[..m], addr, lib)
            == Failed(if form.Short? || (form.Long? && m >= padding + 4) || (form.Compressed? && m >= padding + 8)
                      then -1 else -9)
  {
    hide LeBytes, AlignUp, ExtractAttempt, InfoOf, Restores;
    var padding := AlignUp(addr, 4) - addr;
    match form
    case Short => CutShort(numeric, payload, addr, m, lib);
    case Long => CutAligned(numeric, 4 * (|payload| + 4), payload, addr, m, lib);
    case Compressed(compression, packed) =>
      var words := LeBytes(InfoOf(compression, |payload|), 4) + packed;
      assert FormBytes(form, payload, addr, lib) == Zeros(padding) + LeBytes(4 * (|packed| + 8) + 2, 4) + words;
      CutAligned(numeric, 4 * (|packed| + 8) + 2, words, addr, m, lib);
  }

  lemma CutShort(numeric: bool, payload: seq<byte>, addr: nat, m: nat, lib: Library)
    requires |payload| <= 126 && 0 < m < |payload| + 1
    ensures ExtractAttempt(numeric, ([2 * (|payload| + 1) + 1] + payload)[..m], addr, lib) == Failed(-1)
  {
    hide ParseAttempt, LongAttempt, AlignUp;
    var s := ([2 * (|payload| + 1) + 1] + payload)[..m];
    assert s[0] == 2 * (|payload| + 1) + 1;
  }

  lemma CutAligned(numeric: bool, header: nat, rest: seq<byte>, addr: nat, m: nat, lib: Library)
    requires header < 0x1_0000_0000 && header / 4 == |rest| + 4 && (header % 4 == 0 || header % 4 == 2)
    requires var padding := AlignUp(addr, 4) - addr; 0 < m && padding <= m < padding + 4 + |rest|
    ensures var padding := AlignUp(addr, 4) - addr;
            ExtractAttempt(numeric, (Zeros(padding) + LeBytes(header, 4) + rest)[..m], addr, lib)
            == Failed(if m >= padding + (if header % 4 == 0 then 4 else 8) then -1 else -9)
  {
    hide LeBytes, LeValue, AlignUp, LongAttempt;
    var padding := AlignUp(addr, 4) - addr;
    var t := (LeBytes(header, 4) + rest)[..m - padding];
    assert (Zeros(padding) + LeBytes(header, 4) + rest)[..m] == Zeros(padding) + t;
    CutLong(numeric, header, rest, m - padding, padding, lib);
    if |t| > 0 {
      WordRoundTrip(header);
      assert t[0] == LeBytes(header, 4)[0];
      PaddedIsExtracted(numeric, t, addr, [], lib);
      assert Zeros(padding) + t + [] == Zeros(padding) + t && t + [] == t;
    } else {
      assert (Zeros(padding) + t)[padding..] == t;
    }
  }

  lemma CutLong(numeric: bool, header: nat, rest: seq<byte>, m: nat, padding: nat, lib: Library)
    requires header < 0x1_0000_0000 && header / 4 == |rest| + 4 && (header % 4 == 0 || header % 4 == 2)
    requires m < 4 + |rest|
    ensures LongAttempt(numeric, (LeBytes(header, 4) + rest)[..m], padding, lib)
            == Failed(if m >= (if header % 4 == 0 then 4 else 8) then -1 else -9)
  {
    hide ParseAttempt, LeBytes, LeValue;
    var data := (LeBytes(header, 4) + rest)[..m];
    WordRoundTrip(header);
    if m > 0 {
      assert data[0] == LeBytes(header, 4)[0];
    }
    if m >= 4 {
      assert data[..4] == LeBytes(header, 4);
    }
  }

  /** A pointer cut behind its tag. */
  lemma CutPointer(numeric: bool, p: Pointer, addr: nat, m: nat, lib: Library)
    requires p.rawSize >= 0 && 2 <= m < 18
    ensures ExtractAttempt(numeric, PointerBytes(p)[..m], addr, lib) == Failed(-1)
  {
    hide FollowAttempt, LeBytes;
    var s := PointerBytes(p)[..m];
    assert s[0] == 1 && s[1] == 18;
  }

  // ---------------------------------------------------------------- values that cannot be read

  /** Of the special words only NaN and the infinities are printed. */
  lemma UnknownSpecial(h: nat, rest: seq<byte>, processed: nat)
    requires 0xC000 < h < 0x1_0000 && h != 0xD000 && h != 0xF000
    ensures ParseAttempt(true, LeBytes(h, 2) + rest, processed) == Failed(-2)
  {
    hide LeBytes, LeValue;
    var s := LeBytes(h, 2) + rest;
    assert Pow256(2) == 0x1_0000;
    LeRoundTrip(h, 2);
    assert s[..2] == LeBytes(h, 2);
    assert HeaderWord(s) == h;
  }

  /** What the library of a method makes of packed bytes: only pglz, method 0, and LZ4, method 1, are called,
      and only as many bytes as recorded will do. */
  function Restoration(lib: Library, compression: nat, packed: seq<byte>, size: nat): Option<seq<byte>> {
    if compression == 0 || compression == 1 then
      match lib.unpack(compression, packed, size)
      case Restored(bytes) => if |bytes| == size then Some(bytes) else None
      case Broken(_) => None
    else None
  }

  /** A value compressed in the row is printed from what its library restores, or marked as corrupted. */
  lemma InlineCompressed(numeric: bool, compression: nat, packed: seq<byte>, size: nat, padding: nat, rest: seq<byte>,
                         lib: Library)
    requires compression < 4 && size < 0x4000_0000 && |packed| + 8 < 0x4000_0000
    ensures var s := LeBytes(4 * (|packed| + 8) + 2, 4) + LeBytes(InfoOf(compression, size), 4) + packed;
            LongAttempt(numeric, s + rest, padding, lib)
            == match Restoration(lib, compression, packed, size)
               case Some(payload) => ParseAttempt(numeric, payload, padding + |s|)
               case None => Done(padding + |s|, Some(Ascii("(inline compressed, corrupted)")))
  {
    hide ParseAttempt, LeBytes, LeValue, InfoOf, Ascii;
    var header, info := 4 * (|packed| + 8) + 2, InfoOf(compression, size);
    InfoWord(compression, size);
    WordRoundTrip(header);
    WordRoundTrip(info);
    var data := LeBytes(header, 4) + LeBytes(info, 4) + packed + rest;
    assert data[0] == LeBytes(header, 4)[0];
    assert data[..4] == LeBytes(header, 4);
    assert data[4..8] == LeBytes(info, 4);
    assert data[8..8 + |packed|] == packed;
  }

  /** A value compressed in the TOAST relation: a third method gives -1, a library's error its code, and bytes
      of another length than recorded leave no text at all. */
  lemma FollowedCompressed(compression: nat, packed: seq<byte>, size: nat, processed: nat, lib: Library)
    requires compression < 4 && size < 0x4000_0000
    ensures UnpackAttempt(LeBytes(InfoOf(compression, size), 4) + packed, processed, lib)
            == if compression != 0 && compression != 1 then Failed(-1)
               else match lib.unpack(compression, packed, size)
                    case Broken(code) => Failed(code)
                    case Restored(bytes) => Done(processed, if |bytes| == size then Some(Escape(bytes)) else None)
  {
    hide LeBytes, LeValue, InfoOf, Escape;
    var info := InfoOf(compression, size);
    var stored := LeBytes(info, 4) + packed;
    InfoWord(compression, size);
    WordRoundTrip(info);
    assert stored[..4] == LeBytes(info, 4) && stored[4..] == packed;
  }

  /** A pointer whose relation has no file, or a file without some chunk, gives -1. */
  lemma MissingChunk(numeric: bool, p: Pointer, processed: nat, lib: Library, labels: seq<Option<nat>>,
                     stored: seq<byte>)
    requires var file := lib.relation(p.relationId);
             file.None? || (Toast.Labelled(Toast.Flatten(file.value), labels, TargetOf(p), stored)
                            && !Toast.Complete(labels, Toast.ChunkCount(|stored|)))
    ensures FollowAttempt(numeric, p, processed, lib) == Failed(-1)
  {
    hide Toast.Labelled, Toast.Complete, Toast.Flatten, Toast.FetchStored, ParseAttempt, UnpackAttempt, TargetOf;
    var file := lib.relation(p.relationId);
    if file.Some? {
      Toast.ValueIsFetched(file.value, labels, TargetOf(p), stored);
    }
  }
}
