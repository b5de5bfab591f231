/** The COPY line of decode.c: escaped fields joined by tabs in one growable string. */
module CopyLines {
  import opened Bytes
  import opened StringInfos

  const TAB: byte := 9
  const LF: byte := 10
  const CR: byte := 13
  const BACKSLASH: byte := 92
  // The text of a null attribute, \N.
  const NULL_TEXT: seq<byte> := [92, 78]

  // ---------------------------------------------------------------- escaping

  /** The bytes CopyAppendEncode writes for one byte; a tab is written like a carriage return. */
  function EscapeByte(b: byte): (e: seq<byte>)
    ensures 1 <= |e| <= 2
  {
    if b == 0 then [BACKSLASH, 48]
    else if b == CR then [BACKSLASH, 114]
    else if b == LF then [BACKSLASH, 110]
    else if b == TAB then [BACKSLASH, 114]
    else if b == BACKSLASH then [BACKSLASH, BACKSLASH]
    else [b]
  }

  function Escape(s: seq<byte>): (e: seq<byte>)
    ensures |s| <= |e| <= 2 * |s|
  {
    if |s| == 0 then [] else Escape(s[..|s| - 1]) + EscapeByte(s[|s| - 1])
  }

  /** Undoing the escapes from the front, as a reader of the line does, in ASCII codes: backslash 92, then
      0 for NUL, r for carriage return, n for line feed. */
  function Unescape(e: seq<byte>): (s: seq<byte>)
  {
    if |e| == 0 then []
    else if e[0] == 92 && |e| >= 2 then
      [if e[1] == 48 then 0 else if e[1] == 114 then 13 else if e[1] == 110 then 10 else e[1]] + Unescape(e[2..])
    else [e[0]] + Unescape(e[1..])
  }

  function TabsToCrs(s: seq<byte>): (t: seq<byte>)
    ensures |t| == |s|
  {
    seq<byte>(|s|, i requires 0 <= i < |s| => TabToCr(s[i]))
  }

  function TabToCr(b: byte): byte {
    if b == 9 then 13 else b
  }

  predicate IsPlain(b: byte) {
    b != 0 && b != 9 && b != 10 && b != 13
  }

  predicate AllPlain(s: seq<byte>) {
    forall i :: 0 <= i < |s| ==> IsPlain(s[i])
  }

  predicate NoNul(s: seq<byte>) {
    forall i :: 0 <= i < |s| ==> s[i] != 0
  }

  predicate NoTab(s: seq<byte>) {
    forall i :: 0 <= i < |s| ==> s[i] != 9
  }

  lemma {:induction false} EscapeFromFront(s: seq<byte>)
    requires |s| > 0
    ensures Escape(s) == EscapeByte(s[0]) + Escape(s[1..])
  {
    hide EscapeByte;
    var t, last := s[..|s| - 1], EscapeByte(s[|s| - 1]);
    assert Escape(s) == Escape(t) + last;
    if |s| == 1 {
      assert Escape(s[1..]) == [] && Escape(t) == [];
    } else {
      EscapeFromFront(t);
      assert t[1..] == s[1..][..|s| - 2];
      assert Escape(s[1..]) == Escape(t[1..]) + last;
    }
  }

  /** An escaped field has no NUL, tab or line end in it, and is never the null marker. */
  lemma {:induction false} EscapedIsPlain(s: seq<byte>)
    ensures AllPlain(Escape(s))
    ensures Escape(s) != [92, 78]
  {
    if |s| > 0 {
      EscapeFromFront(s);
      EscapedIsPlain(s[1..]);
      assert AllPlain(EscapeByte(s[0]));
      var e := Escape(s);
      if |EscapeByte(s[0])| == 2 {
        assert e[1] == EscapeByte(s[0])[1];
      } else {
        assert e[0] == s[0];
      }
    }
  }

  lemma UnescapeOne(b: byte, rest: seq<byte>)
    ensures Unescape(EscapeByte(b) + rest) == [TabToCr(b)] + Unescape(rest)
  {
    var e := EscapeByte(b);
    assert (e + rest)[|e|..] == rest;
    if |e| == 2 {
      assert (e + rest)[1] == e[1];
    } else if |e + rest| >= 2 {
      assert (e + rest)[0] == b != BACKSLASH;
    }
  }

  /** Unescaping recovers a field with every tab turned into a carriage return. */
  lemma {:induction false} UnescapeEscape(s: seq<byte>)
    ensures Unescape(Escape(s)) == TabsToCrs(s)
  {
    hide EscapeByte, TabToCr;
    if |s| == 0 {
      assert TabsToCrs(s) == [];
    } else {
      hide Escape, Unescape;
      EscapeFromFront(s);
      UnescapeEscape(s[1..]);
      UnescapeOne(s[0], Escape(s[1..]));
      assert TabsToCrs(s) == [TabToCr(s[0])] + TabsToCrs(s[1..]);
    }
  }

  /** Exactly the fields without a tab survive escaping unchanged. */
  lemma EscapeLosesOnlyTabs(s: seq<byte>)
    ensures Unescape(Escape(s)) == s <==> NoTab(s)
  {
    UnescapeEscape(s);
    var t := TabsToCrs(s);
    if t == s {
      forall i | 0 <= i < |s|
        ensures s[i] != TAB
      {
        assert t[i] == TabToCr(s[i]);
      }
    } else {
      var i :| 0 <= i < |s| && t[i] != s[i];
      assert t[i] == TabToCr(s[i]);
    }
  }

  // ---------------------------------------------------------------- the line

  /** The line after CopyAppend: a tab only if something is there already. */
  function Extended(line: seq<byte>, text: seq<byte>): seq<byte> {
    if line == [] then text else line + [TAB] + text
  }

  function Line(texts: seq<seq<byte>>): seq<byte> {
    if |texts| == 0 then [] else Extended(Line(texts[..|texts| - 1]), texts[|texts| - 1])
  }

  function Join(texts: seq<seq<byte>>): seq<byte>
    requires |texts| > 0
  {
    if |texts| == 1 then texts[0] else Join(texts[..|texts| - 1]) + [9] + texts[|texts| - 1]
  }

  function DropLeadingEmpty(texts: seq<seq<byte>>): seq<seq<byte>> {
    if |texts| > 0 && texts[0] == [] then DropLeadingEmpty(texts[1..]) else texts
  }

  /** The fields once one more byte of the line has been read. */
  function Grow(texts: seq<seq<byte>>, c: byte): (r: seq<seq<byte>>)
    requires |texts| > 0
    ensures |r| > 0
  {
    if c == 9 then texts + [[]] else texts[..|texts| - 1] + [texts[|texts| - 1] + [c]]
  }

  /** The tab-separated fields of a line. */
  function Split(line: seq<byte>): (texts: seq<seq<byte>>)
    ensures |texts| > 0
  {
    if |line| == 0 then [[]]
    else Grow(Split(line[..|line| - 1]), line[|line| - 1])
  }

  lemma SplitStep(line: seq<byte>, c: byte)
    ensures Split(line + [c]) == Grow(Split(line), c)
  {
    assert (line + [c])[..|line|] == line;
  }

  lemma LastGrows(texts: seq<seq<byte>>, text: seq<byte>, c: byte)
    requires c != TAB
    ensures Grow(texts + [text], c) == texts + [text + [c]]
  {
    assert (texts + [text])[..|texts|] == texts;
  }

  lemma {:induction false} SplitAfterTab(line: seq<byte>, text: seq<byte>)
    requires NoTab(text)
    ensures Split(line + [TAB] + text) == Split(line) + [text]
  {
    hide Split, Grow;
    if |text| == 0 {
      SplitStep(line, TAB);
      NewField(Split(line));
      assert line + [TAB] + text == line + [TAB];
    } else {
      var t, c := text[..|text| - 1], text[|text| - 1];
      SplitAfterTab(line, t);
      SplitStep(line + [TAB] + t, c);
      LastGrows(Split(line), t, c);
      assert line + [TAB] + text == line + [TAB] + t + [c];
      assert text == t + [c];
    }
  }

  lemma NewField(texts: seq<seq<byte>>)
    requires |texts| > 0
    ensures Grow(texts, TAB) == texts + [[]]
  {
  }

  lemma {:induction false} SplitNoTab(text: seq<byte>)
    requires NoTab(text)
    ensures Split(text) == [text]
  {
    if |text| > 0 {
      SplitNoTab(text[..|text| - 1]);
      assert text[..|text| - 1] + [text[|text| - 1]] == text;
    }
  }

  lemma {:induction false} SplitJoin(texts: seq<seq<byte>>)
    requires |texts| > 0 && forall i :: 0 <= i < |texts| ==> NoTab(texts[i])
    ensures Split(Join(texts)) == texts
  {
    if |texts| == 1 {
      SplitNoTab(texts[0]);
    } else {
      var n := |texts| - 1;
      SplitJoin(texts[..n]);
      SplitAfterTab(Join(texts[..n]), texts[n]);
    }
  }

  lemma {:induction false} DropIsSuffix(texts: seq<seq<byte>>) returns (k: nat)
    ensures k <= |texts| && DropLeadingEmpty(texts) == texts[k..]
    ensures forall i :: 0 <= i < k ==> texts[i] == []
    ensures k < |texts| ==> texts[k] != []
  {
    if |texts| > 0 && texts[0] == [] {
      var j := DropIsSuffix(texts[1..]);
      k := j + 1;
      assert texts[1..][j..] == texts[k..];
    } else {
      k := 0;
    }
  }

  lemma {:induction false} LineFrom(texts: seq<seq<byte>>, k: nat)
    requires k <= |texts|
    requires forall i :: 0 <= i < k ==> texts[i] == []
    requires k < |texts| ==> texts[k] != []
    ensures Line(texts) == if k == |texts| then [] else Join(texts[k..])
    ensures k < |texts| ==> Line(texts) != []
  {
    if |texts| > 0 {
      var n := |texts| - 1;
      assert Line(texts) == Extended(Line(texts[..n]), texts[n]);
      if k < n {
        LineFrom(texts[..n], k);
        assert texts[k..][..n - k] == texts[..n][k..];
        assert Join(texts[k..]) == Join(texts[..n][k..]) + [TAB] + texts[n];
      } else if k == n {
        LineFrom(texts[..n], n);
        assert texts[k..] == [texts[n]];
      } else {
        LineFrom(texts[..n], n);
      }
    }
  }

  /** The finished line is the tab-join of the fields, leading empty ones dropped. */
  lemma LineIsJoin(texts: seq<seq<byte>>)
    ensures var kept := DropLeadingEmpty(texts);
            Line(texts) == (if |kept| == 0 then [] else Join(kept))
            && ((forall i :: 0 <= i < |texts| ==> NoTab(texts[i]))
                ==> Split(Line(texts)) == if |kept| == 0 then [[]] else kept)
  {
    var k := DropIsSuffix(texts);
    LineFrom(texts, k);
    if k < |texts| && forall i :: 0 <= i < |texts| ==> NoTab(texts[i]) {
      SplitJoin(texts[k..]);
    }
  }

  /** A line falls apart into its texts exactly when there is one and the first of several is not empty. */
  lemma LineSplits(texts: seq<seq<byte>>)
    requires forall i :: 0 <= i < |texts| ==> NoTab(texts[i])
    ensures Split(Line(texts)) == texts <==> |texts| > 0 && (|texts| > 1 ==> texts[0] != [])
  {
    hide Split, Line, NoTab;
    LineIsJoin(texts);
    var k := DropIsSuffix(texts);
    if k < |texts| {
      assert |Split(Line(texts))| == |texts| - k;
      assert texts[0..] == texts;
    } else {
      assert |texts| == 1 ==> texts == [[]];
    }
  }

  // ---------------------------------------------------------------- rows

  /** An attribute of a decoded row: a null, or a string. */
  datatype Field = Null | Text(bytes: seq<byte>)

  function FieldText(f: Field): seq<byte> {
    if f.Null? then NULL_TEXT else Escape(f.bytes)
  }

  function FieldTexts(fields: seq<Field>): (texts: seq<seq<byte>>)
    ensures |texts| == |fields|
    ensures forall i :: 0 <= i < |fields| ==> texts[i] == FieldText(fields[i])
  {
    seq(|fields|, i requires 0 <= i < |fields| => FieldText(fields[i]))
  }

  function ReadField(text: seq<byte>): Field {
    if text == [92, 78] then Null else Text(Unescape(text))
  }

  function ReadRow(line: seq<byte>): (fields: seq<Field>) {
    ReadFields(Split(line))
  }

  function ReadFields(texts: seq<seq<byte>>): (fields: seq<Field>)
    ensures |fields| == |texts|
    ensures forall i :: 0 <= i < |texts| ==> fields[i] == ReadField(texts[i])
  {
    seq(|texts|, i requires 0 <= i < |texts| => ReadField(texts[i]))
  }

  /** A reader gets a row back exactly when no field holds a tab and the first field is not an
      empty string with others after it. */
  predicate Recoverable(fields: seq<Field>) {
    && |fields| >= 1
    && (fields[0] == Text([]) ==> |fields| == 1)
    && forall i :: 0 <= i < |fields| && fields[i].Text? ==> NoTab(fields[i].bytes)
  }

  lemma FieldIsRead(f: Field)
    ensures NoTab(FieldText(f))
    ensures ReadField(FieldText(f)) == f <==> (f.Text? ==> NoTab(f.bytes))
    ensures FieldText(f) == [] <==> f == Text([])
  {
    if f.Text? {
      EscapedIsPlain(f.bytes);
      EscapeLosesOnlyTabs(f.bytes);
    }
  }

  lemma RowIsRead(fields: seq<Field>)
    ensures ReadRow(Line(FieldTexts(fields))) == fields <==> Recoverable(fields)
  {
    var texts := FieldTexts(fields);
    forall i | 0 <= i < |fields|
      ensures NoTab(texts[i])
      ensures ReadField(texts[i]) == fields[i] <==> (fields[i].Text? ==> NoTab(fields[i].bytes))
      ensures texts[i] == [] <==> fields[i] == Text([])
    {
      FieldIsRead(fields[i]);
    }
    LineIsJoin(texts);
    var k := DropIsSuffix(texts);
    var got := ReadRow(Line(texts));
    if k == |texts| {
      assert Unescape([]) == [];
      assert got == [Text([])];
    } else if k == 0 {
      assert texts[0..] == texts;
      assert got == ReadFields(texts);
      if got == fields {
        assert forall i :: 0 <= i < |fields| ==> ReadField(texts[i]) == fields[i];
      } else {
        var i :| 0 <= i < |fields| && got[i] != fields[i];
      }
    } else {
      assert |got| == |texts| - k < |fields|;
      assert texts[0] == [];
    }
  }

  // ---------------------------------------------------------------- the printer

  /** CopyAppend; false is the exit of stringinfo.c when the line would reach its size limit. */
  method CopyAppend(copyString: StringInfo, str: seq<byte>) returns (ok: bool)
    requires copyString.Valid() && NoNul(copyString.Contents()) && NoNul(str)
    modifies copyString, copyString.data
    ensures copyString.Valid() && NoNul(copyString.Contents())
    ensures copyString.data == old(copyString.data) || fresh(copyString.data)
    ensures ok <==> |Extended(old(copyString.Contents()), str)| < MAX_ALLOC_SIZE
    ensures ok ==> copyString.Contents() == Extended(old(copyString.Contents()), str)
  {
    assert copyString.len > 0 ==> copyString.Contents()[0] != 0;
    if copyString.data[0] != 0 {
      ok := copyString.Append([TAB]);
      if !ok {
        return;
      }
    }
    ok := copyString.Append(str);
  }

  /** CopyAppendEncode: the escapes are built in a buffer twice the input plus one byte. */
  method CopyAppendEncode(copyString: StringInfo, str: seq<byte>) returns (ok: bool)
    requires copyString.Valid() && NoNul(copyString.Contents())
    modifies copyString, copyString.data
    ensures copyString.Valid() && NoNul(copyString.Contents())
    ensures copyString.data == old(copyString.data) || fresh(copyString.data)
    ensures ok <==> |Extended(old(copyString.Contents()), Escape(str))| < MAX_ALLOC_SIZE
    ensures ok ==> copyString.Contents() == Extended(old(copyString.Contents()), Escape(str))
  {
    var tmp := new byte[2 * |str| + 1];
    var offset, i := 0, 0;
    while i < |str|
      modifies tmp
      invariant 0 <= i <= |str| && 0 <= offset <= 2 * i
      invariant tmp[..offset] == Escape(str[..i])
    {
      offset := PutEscaped(tmp, offset, str[i]);
      assert str[..i + 1][..i] == str[..i];
      i := i + 1;
    }
    ghost var escaped := tmp[..offset];
    tmp[offset] := 0;
    assert tmp[..offset] == escaped;
    assert str[..i] == str;
    EscapedIsPlain(str);
    ok := CopyAppend(copyString, tmp[..offset]);
  }

  /** The body of CopyAppendEncode's loop. */
  method PutEscaped(tmp: array<byte>, at: nat, b: byte) returns (offset: nat)
    requires at + 2 <= tmp.Length
    modifies tmp
    ensures offset == at + |EscapeByte(b)|
    ensures tmp[..offset] == old(tmp[..at]) + EscapeByte(b)
  {
    offset := at;
    if b == 0 {
      tmp[offset], tmp[offset + 1] := BACKSLASH, 48;
      offset := offset + 2;
    } else if b == CR {
      tmp[offset], tmp[offset + 1] := BACKSLASH, 114;
      offset := offset + 2;
    } else if b == LF {
      tmp[offset], tmp[offset + 1] := BACKSLASH, 110;
      offset := offset + 2;
    } else if b == TAB {
      tmp[offset], tmp[offset + 1] := BACKSLASH, 114;
      offset := offset + 2;
    } else if b == BACKSLASH {
      tmp[offset], tmp[offset + 1] := BACKSLASH, BACKSLASH;
      offset := offset + 2;
    } else {
      tmp[offset] := b;
      offset := offset + 1;
    }
  }
}
