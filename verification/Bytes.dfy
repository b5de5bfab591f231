/** Bytes, little-endian integers and two's complement, as every decoder reads them. */
module Bytes {
  import opened Arithmetic

  type byte = b: int | 0 <= b < 256

  datatype Option<+T> = None | Some(value: T)

  function Pow256(n: nat): (p: nat)
    ensures p >= 1
  {
    if n == 0 then 1 else 256 * Pow256(n - 1)
  }

  /** The n-byte little-endian form of v. */
  function LeBytes(v: nat, n: nat): (s: seq<byte>)
    ensures |s| == n
  {
    if n == 0 then [] else [v % 256] + LeBytes(v / 256, n - 1)
  }

  /** The number a little-endian byte string stands for. */
  function LeValue(s: seq<byte>): (v: nat) {
    if |s| == 0 then 0 else s[0] + 256 * LeValue(s[1..])
  }

  lemma {:induction false} LeRoundTrip(v: nat, n: nat)
    requires v < Pow256(n)
    ensures LeValue(LeBytes(v, n)) == v
  {
    if n > 0 {
      LeRoundTrip(v / 256, n - 1);
      assert LeBytes(v, n)[1..] == LeBytes(v / 256, n - 1);
    }
  }

  lemma LowBits(v: nat)
    ensures v % 256 % 4 == v % 4
  {
    Quotient(v, 4, 64 * (v / 256) + v % 256 / 4);
  }

  /** A stored 32-bit word reads back, and its first byte has its low bits. */
  lemma WordRoundTrip(v: nat)
    requires v < 0x1_0000_0000
    ensures LeValue(LeBytes(v, 4)) == v && LeBytes(v, 4)[0] % 4 == v % 4
  {
    assert Pow256(4) == 0x1_0000_0000;
    LeRoundTrip(v, 4);
    LowBits(v);
  }

  lemma {:induction false} LeValueBound(s: seq<byte>)
    ensures LeValue(s) < Pow256(|s|)
  {
    if |s| > 0 {
      LeValueBound(s[1..]);
    }
  }

  /** Two's complement reading of an n-byte unsigned value. */
  function Signed(u: nat, n: nat): int {
    if 2 * u >= Pow256(n) then u - Pow256(n) else u
  }

  /** Two's complement storing of a signed value in n bytes. */
  function Unsigned(v: int, n: nat): (u: nat)
    requires -(Pow256(n) as int) <= 2 * v < Pow256(n)
    ensures u < Pow256(n)
    ensures Signed(u, n) == v
  {
    if v < 0 then v + Pow256(n) else v
  }

  function SignedAt(p: seq<byte>, n: nat): (v: int)
    requires |p| == n
    ensures -(Pow256(n) as int) <= 2 * v < Pow256(n)
  {
    LeValueBound(p);
    Signed(LeValue(p), n)
  }

  predicate IsAlignment(align: nat) {
    align == 1 || align == 2 || align == 4 || align == 8
  }

  /** An address rounded up to a multiple of the alignment (SHORTALIGN, INTALIGN, DOUBLEALIGN). */
  function AlignUp(addr: nat, align: nat): (r: nat)
    requires IsAlignment(align)
    ensures addr <= r < addr + align
    ensures r % align == 0
  {
    addr + (align - addr % align) % align
  }

  function Zeros(n: nat): (s: seq<byte>)
    ensures |s| == n && forall i :: 0 <= i < n ==> s[i] == 0
  {
    seq(n, _ => 0)
  }
}
