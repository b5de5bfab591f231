/** Decimal text, as snprintf's %d and %0Nd write it, and the number it denotes. */
module Decimal {
  import opened Bytes

  const MINUS: byte := 45
  const POINT: byte := 46

  function Pow10(n: nat): (p: nat)
    ensures p >= 1
  {
    if n == 0 then 1 else 10 * Pow10(n - 1)
  }

  predicate AllDigits(s: seq<byte>) {
    forall i :: 0 <= i < |s| ==> 48 <= s[i] <= 57
  }

  /** The number a string of ASCII digits denotes. */
  function DigitsValue(s: seq<byte>): (v: int)
    ensures AllDigits(s) ==> v >= 0
  {
    if |s| == 0 then 0 else 10 * DigitsValue(s[..|s| - 1]) + (s[|s| - 1] as int - 48)
  }

  lemma DigitsValueAppend(s: seq<byte>, c: byte)
    ensures DigitsValue(s + [c]) == 10 * DigitsValue(s) + (c as int - 48)
  {
    assert (s + [c])[..|s|] == s;
  }

  lemma {:induction false} DigitsValueSkipZero(s: seq<byte>)
    ensures DigitsValue([48] + s) == DigitsValue(s)
  {
    if |s| > 0 {
      var t := s[..|s| - 1];
      DigitsValueSkipZero(t);
      assert [48] + s == ([48] + t) + [s[|s| - 1]];
      DigitsValueAppend([48] + t, s[|s| - 1]);
    } else {
      assert DigitsValue([48]) == 10 * DigitsValue([48][..0]);
    }
  }

  function NatText(n: nat): (s: seq<byte>)
    ensures |s| > 0 && AllDigits(s)
    ensures DigitsValue(s) == n
  {
    if n < 10 then
      assert DigitsValue([]) == 0;
      DigitsValueAppend([], 48 + n);
      assert [] + [48 + n] == [48 + n];
      [48 + n]
    else
      DigitsValueAppend(NatText(n / 10), 48 + n % 10);
      NatText(n / 10) + [48 + n % 10]
  }

  function IntText(n: int): (s: seq<byte>)
    ensures |s| > 0
  {
    if n < 0 then [MINUS] + NatText(-n) else NatText(n)
  }

  /** Zero-padded to at least w digits. */
  function PadText(n: nat, w: nat): (s: seq<byte>)
    ensures |s| >= w
  {
    var s := NatText(n);
    if |s| >= w then s else seq(w - |s|, _ => 48) + s
  }

  /** The bytes of a literal of the C source. */
  function Ascii(s: string): (t: seq<byte>)
    ensures |t| == |s|
  {
    seq<byte>(|s|, i requires 0 <= i < |s| => s[i] as int % 256)
  }
}
