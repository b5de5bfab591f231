/** The growable string of stringinfo.c. */
module StringInfos {
  import opened Bytes

  const MAX_ALLOC_SIZE: int := 0x3fff_ffff
  const INITIAL_SIZE: int := 1024

  /** The first of size, 2 * size, 4 * size, ... that is not below `needed`. */
  function Doubled(size: int, needed: int): (r: int)
    requires size > 0
    ensures r >= size && r >= needed
    decreases if needed > size then needed - size else 0
  {
    if needed <= size then size else Doubled(2 * size, needed)
  }

  /** The capacity a string has after holding needed - 1 bytes: no trace of the order of growth. */
  function Capacity(needed: int): int {
    var size := Doubled(INITIAL_SIZE, needed);
    if size > MAX_ALLOC_SIZE then MAX_ALLOC_SIZE else size
  }

  predicate IsDoubling(size: int) {
    size == 1024 || (size > 1024 && size % 2 == 0 && IsDoubling(size / 2))
  }

  lemma DoublingStep(size: int)
    requires IsDoubling(size)
    ensures size >= 1024 && IsDoubling(2 * size)
  {
    assert 2 * size / 2 == size && 2 * size % 2 == 0;
  }

  lemma {:induction false} DoubledIsDoubling(size: int, needed: int)
    requires size > 0 && IsDoubling(size)
    ensures IsDoubling(Doubled(size, needed))
    decreases if needed > size then needed - size else 0
  {
    hide IsDoubling;
    if needed > size {
      DoublingStep(size);
      DoubledIsDoubling(2 * size, needed);
    }
  }

  /** Capacities are 1024 times a power of two, or the limit. */
  lemma CapacityForm(needed: int)
    ensures Capacity(needed) == MAX_ALLOC_SIZE || IsDoubling(Capacity(needed))
  {
    DoubledIsDoubling(INITIAL_SIZE, needed);
  }

  lemma {:induction false} DoubledAgain(size: int, a: int, b: int)
    requires size > 0 && a <= b
    ensures Doubled(Doubled(size, a), b) == Doubled(size, b)
    decreases if b > size then b - size else 0
  {
    if a > size {
      DoubledAgain(2 * size, a, b);
    }
  }

  /** Growing further from a reached capacity gives the capacity of the larger need. */
  lemma GrowthIsHistoryFree(a: int, b: int)
    requires a <= b <= MAX_ALLOC_SIZE && Capacity(a) < b
    ensures var grown := Doubled(2 * Capacity(a), b);
            (if grown > MAX_ALLOC_SIZE then MAX_ALLOC_SIZE else grown) == Capacity(b)
    ensures 2 * Capacity(a) <= MAX_ALLOC_SIZE + 1
  {
    DoubledAgain(INITIAL_SIZE, a, b);
    LimitIsNoMultiple(a);
  }

  lemma LimitIsNoMultiple(a: int)
    requires Capacity(a) < MAX_ALLOC_SIZE
    ensures 2 * Capacity(a) <= MAX_ALLOC_SIZE + 1
  {
    DoubledIsDoubling(INITIAL_SIZE, a);
    OneGigabyteIsDoubling();
    DoublingsLieApart(Capacity(a), MAX_ALLOC_SIZE + 1);
  }

  lemma {:induction false} DoublingsLieApart(a: int, b: int)
    requires IsDoubling(a) && IsDoubling(b) && a < b
    ensures 2 * a <= b
    decreases a
  {
    if a > INITIAL_SIZE {
      DoublingsLieApart(a / 2, b / 2);
    } else {
      DoublingAtLeast(b / 2);
    }
  }

  lemma DoublingAtLeast(a: int)
    requires IsDoubling(a)
    ensures a >= INITIAL_SIZE
  {
  }

  lemma OneGigabyteIsDoubling()
    ensures IsDoubling(MAX_ALLOC_SIZE + 1)
  {
    assert IsDoubling(0x800) && IsDoubling(0x1000) && IsDoubling(0x2000) && IsDoubling(0x4000) && IsDoubling(0x8000);
    assert IsDoubling(0x1_0000) && IsDoubling(0x2_0000) && IsDoubling(0x4_0000) && IsDoubling(0x8_0000);
    assert IsDoubling(0x10_0000) && IsDoubling(0x20_0000) && IsDoubling(0x40_0000) && IsDoubling(0x80_0000);
    assert IsDoubling(0x100_0000) && IsDoubling(0x200_0000) && IsDoubling(0x400_0000) && IsDoubling(0x800_0000);
    assert IsDoubling(0x1000_0000) && IsDoubling(0x2000_0000);
  }

  lemma {:induction false} DoubledIsLeast(size: int, needed: int, c: int)
    requires size > 0 && IsDoubling(size) && IsDoubling(c) && c >= needed && c >= size
    ensures Doubled(size, needed) <= c
    decreases if needed > size then needed - size else 0
  {
    hide IsDoubling;
    if needed > size {
      DoublingStep(size);
      DoublingsLieApart(size, c);
      DoubledIsLeast(2 * size, needed, c);
    }
  }

  /** No smaller doubling would do, and the capacity suffices for everything below the limit. */
  lemma CapacityIsLeast(needed: int, c: int)
    requires needed <= MAX_ALLOC_SIZE
    requires IsDoubling(c) && c >= needed
    ensures needed <= Capacity(needed) <= c
  {
    DoublingAtLeast(c);
    DoubledIsLeast(INITIAL_SIZE, needed, c);
  }

  lemma {:induction false} SameDoubled(size: int, a: int, b: int)
    requires size > 0 && a <= b <= Doubled(size, a)
    ensures Doubled(size, a) == Doubled(size, b)
    decreases if a > size then a - size else 0
  {
    if a > size {
      SameDoubled(2 * size, a, b);
    }
  }

  lemma SameCapacity(a: int, b: int)
    requires a <= b <= Capacity(a)
    ensures Capacity(a) == Capacity(b)
  {
    SameDoubled(INITIAL_SIZE, a, b);
  }

  /** All reallocations together move less than the final capacity. */
  predicate CopiedLess(copied: int, maxlen: int) {
    copied + 1024 <= maxlen || (maxlen == MAX_ALLOC_SIZE && copied + 1023 <= maxlen)
  }

  class StringInfo {
    var data: array<byte>
    var len: nat
    var maxlen: nat
    ghost var peak: nat    // the longest content since creation
    ghost var copied: nat  // bytes moved by all reallocations: the old capacity for each change of buffer

    ghost predicate Valid()
      reads this, data
    {
      && len < maxlen == data.Length <= MAX_ALLOC_SIZE
      && data[len] == 0
      && len <= peak < MAX_ALLOC_SIZE
      && maxlen == Capacity(peak + 1)
      && CopiedLess(copied, maxlen)
    }

    function Contents(): seq<byte>
      reads this, data
      requires len <= data.Length
    {
      data[..len]
    }

    constructor ()
      ensures Valid() && fresh(data)
      ensures Contents() == [] && peak == 0 && copied == 0
    {
      data := new byte[INITIAL_SIZE](_ => 0);
      maxlen := INITIAL_SIZE;
      len := 0;
      peak, copied := 0, 0;
    }

    method Reset()
      requires Valid()
      modifies this`len, data
      ensures Valid() && Contents() == []
    {
      data[0] := 0;
      len := 0;
    }

    /** False is the exit on an out-of-range request. */
    method Enlarge(needed: int) returns (ok: bool)
      requires Valid()
      modifies this
      ensures ok <==> 0 <= needed < MAX_ALLOC_SIZE - len
      ensures len == old(len) < data.Length == maxlen && data[..len] == old(data[..len])
      ensures data == old(data) || fresh(data)
      ensures copied == old(copied) + (if data == old(data) then 0 else old(maxlen))
      ensures !ok ==> Valid()
      ensures ok ==> len + needed < maxlen <= MAX_ALLOC_SIZE
      ensures ok ==> peak == (if old(peak) > len + needed then old(peak) else len + needed)
      ensures ok ==> maxlen == Capacity(peak + 1) && CopiedLess(copied, maxlen)
    {
      if needed < 0 {
        return false;
      }
      if needed >= MAX_ALLOC_SIZE - len {
        return false;
      }
      var total := needed + len + 1;
      ghost var oldPeak := peak;
      if total > peak + 1 {
        peak := total - 1;
      }
      if total <= maxlen {
        SameCapacity(oldPeak + 1, peak + 1);
        return true;
      }
      assert 2 * maxlen < 0x8000_0000;
      var newlen := 2 * maxlen;
      GrowthIsHistoryFree(oldPeak + 1, total);
      ghost var target := Doubled(newlen, total);
      while total > newlen
        invariant newlen > 0 && Doubled(newlen, total) == target
        decreases total - newlen
      {
        newlen := 2 * newlen;
      }
      if newlen > MAX_ALLOC_SIZE {
        newlen := MAX_ALLOC_SIZE;
      }
      var oldData := data;
      var newData := new byte[newlen];
      forall i | 0 <= i < oldData.Length {
        newData[i] := oldData[i];
      }
      copied := copied + maxlen;
      data := newData;
      maxlen := newlen;
      return true;
    }

    method Append(bytes: seq<byte>) returns (ok: bool)
      requires Valid()
      modifies this, data
      ensures Valid() && (data == old(data) || fresh(data))
      ensures copied == old(copied) + (if data == old(data) then 0 else old(maxlen))
      ensures ok <==> |bytes| < MAX_ALLOC_SIZE - old(len)
      ensures Contents() == old(Contents()) + if ok then bytes else []
      ensures ok ==> peak == if old(peak) > len then old(peak) else len
    {
      ok := Enlarge(|bytes|);
      if !ok {
        return;
      }
      ghost var before := data[..len];
      forall i | 0 <= i < |bytes| {
        data[len + i] := bytes[i];
      }
      len := len + |bytes|;
      data[len] := 0;
      assert data[..len] == before + bytes;
    }
  }
}
