/**
 GIN posting lists: item pointers packed into integers, delta-coded in 7-bit groups and cut into
 segments; the decoder that fills a growing array, and the printer that decodes over the page.
 */
module GinPosting {
  import opened Bytes

  datatype ItemPointer = ItemPointer(block: nat, offset: nat)

  // 1 << MaxHeapTuplesPerPageBits
  const OFFSETS: int := 2048
  const BLOCKS: int := 0x1_0000_0000
  // One more than the largest number of seven 7-bit groups.
  const VARBYTE_LIMIT: int := 0x2_0000_0000_0000

  predicate ValidItem(ip: ItemPointer) {
    ip.block < 0x1_0000_0000 && ip.offset < 0x800
  }

  /** itemptr_to_uint64; below 2^11 the or of the offset is an addition. */
  function Pack(ip: ItemPointer): (val: nat) {
    ip.block * OFFSETS + ip.offset
  }

  /** uint64_to_itemptr. */
  function Unpack(val: nat): (ip: ItemPointer) {
    ItemPointer(val / OFFSETS % BLOCKS, val % OFFSETS)
  }

  /** The 43 bits in which PostgreSQL counts items: 32 of block number above 11 of offset. */
  function Packed(ip: ItemPointer): (val: nat) {
    0x800 * ip.block + ip.offset
  }

  lemma PackRoundTrip(ip: ItemPointer)
    requires ValidItem(ip)
    ensures Unpack(Pack(ip)) == ip && Pack(ip) == Packed(ip) < 0x800_0000_0000
    ensures Unpack(Pack(ip) + 0x800_0000_0000) == ip
  {
  }

  predicate Before(a: ItemPointer, b: ItemPointer) {
    a.block < b.block || (a.block == b.block && a.offset < b.offset)
  }

  /** Packing preserves the order of the heap. */
  lemma PackPreservesOrder(a: ItemPointer, b: ItemPointer)
    requires ValidItem(a) && ValidItem(b)
    ensures Before(a, b) <==> Pack(a) < Pack(b)
  {
  }

  // ---------------------------------------------------------------- variable-length integers

  /** Seven bits a byte, low bits first, the high bit of a byte telling that more follow. */
  function EncodeVarbyte(v: nat): (s: seq<byte>)
    ensures |s| > 0
  {
    if v < 128 then [v] else [128 + v % 128] + EncodeVarbyte(v / 128)
  }

  /** A number of at most k groups ends inside s; the k-th group ends it whatever its high bit. */
  predicate Ends(s: seq<byte>, k: nat) {
    |s| > 0 && k > 0 && (s[0] >= 128 && k > 1 ==> Ends(s[1..], k - 1))
  }

  /** The number at the front of s and how many bytes it takes; the k-th group is taken whole. */
  function Varbyte(s: seq<byte>, k: nat): (r: (nat, nat))
    requires Ends(s, k)
    ensures 1 <= r.1 <= |s|
  {
    if k == 1 then (s[0], 1)
    else if s[0] < 128 then (s[0], 1)
    else
      var rest := Varbyte(s[1..], k - 1);
      (s[0] - 128 + 128 * rest.0, 1 + rest.1)
  }

  function Pow128(k: nat): nat {
    if k == 0 then 1 else 128 * Pow128(k - 1)
  }

  lemma {:induction false} VarbyteRoundTrip(v: nat, rest: seq<byte>, k: nat)
    requires k > 0 && v < Pow128(k)
    ensures var s := EncodeVarbyte(v);
            Ends(s + rest, k) && Varbyte(s + rest, k) == (v, |s|)
  {
    assert Pow128(k) == 128 * Pow128(k - 1) && Pow128(0) == 1;
    if v >= 128 {
      VarbyteRoundTrip(v / 128, rest, k - 1);
      assert (EncodeVarbyte(v) + rest)[1..] == EncodeVarbyte(v / 128) + rest;
    }
  }

  lemma SevenGroups()
    ensures Pow128(7) == VARBYTE_LIMIT
  {
  }

  /** No code is the beginning of another, so a run of codes can be cut in one way only. */
  lemma VarbyteIsPrefixFree(a: nat, b: nat, rest: seq<byte>)
    requires a < VARBYTE_LIMIT && b < VARBYTE_LIMIT
    requires EncodeVarbyte(b) == EncodeVarbyte(a) + rest
    ensures a == b && rest == []
  {
    SevenGroups();
    VarbyteRoundTrip(a, rest, 7);
    VarbyteRoundTrip(b, [], 7);
    assert EncodeVarbyte(b) + [] == EncodeVarbyte(b);
  }

  lemma FirstByte(mem: seq<byte>, p: nat, k: nat)
    requires p <= |mem| && Ends(mem[p..], k)
    ensures p < |mem| && (k == 1 ==> Varbyte(mem[p..], k) == (mem[p], 1))
  {
  }

  lemma GroupStep(mem: seq<byte>, p: nat, k: nat)
    requires k > 1 && p < |mem| && Ends(mem[p..], k)
    ensures mem[p] < 128 ==> Varbyte(mem[p..], k) == (mem[p], 1)
    ensures mem[p] >= 128 ==>
              Ends(mem[p + 1..], k - 1) && p + 1 < |mem|
              && Varbyte(mem[p..], k) == (mem[p] - 128 + 128 * Varbyte(mem[p + 1..], k - 1).0,
                                          1 + Varbyte(mem[p + 1..], k - 1).1)
    ensures mem[p] % 128 == if mem[p] < 128 then mem[p] else mem[p] - 128
  {
    assert mem[p..][1..] == mem[p + 1..];
  }

  /** The groups of decode_varbyte from the fourth byte on, with its unmasked seventh byte. */
  method DecodeHighGroups(mem: seq<byte>, ptr: nat, low: nat) returns (val: nat, p: nat)
    requires ptr <= |mem| && Ends(mem[ptr..], 4)
    ensures var high := Varbyte(mem[ptr..], 4); (val, p - ptr) == (low + 0x20_0000 * high.0, high.1)
  {
    hide Varbyte, Ends;
    FirstByte(mem, ptr, 4);
    p := ptr;
    var c: int := mem[p];
    GroupStep(mem, p, 4);
    p := p + 1;
    val := low + c % 128 * 0x20_0000;
    if c >= 128 {
      c := mem[p];
      GroupStep(mem, p, 3);
      p := p + 1;
      val := val + c % 128 * 0x1000_0000;
      if c >= 128 {
        c := mem[p];
        GroupStep(mem, p, 2);
        p := p + 1;
        val := val + c % 128 * 0x8_0000_0000;
        if c >= 128 {
          c := mem[p];
          FirstByte(mem, p, 1);
          p := p + 1;
          val := val + c * 0x400_0000_0000;
        }
      }
    }
  }

  /** decode_varbyte, with its nested tests. */
  method DecodeVarbyte(mem: seq<byte>, ptr: nat) returns (val: nat, p: nat)
    requires ptr <= |mem| && Ends(mem[ptr..], 7)
    ensures (val, p - ptr) == Varbyte(mem[ptr..], 7)
  {
    hide Varbyte, Ends;
    FirstByte(mem, ptr, 7);
    p := ptr;
    var c: int := mem[p];
    GroupStep(mem, p, 7);
    p := p + 1;
    val := c % 128;
    if c >= 128 {
      c := mem[p];
      GroupStep(mem, p, 6);
      p := p + 1;
      val := val + c % 128 * 0x80;
      if c >= 128 {
        c := mem[p];
        GroupStep(mem, p, 5);
        p := p + 1;
        val := val + c % 128 * 0x4000;
        if c >= 128 {
          val, p := DecodeHighGroups(mem, p, val);
        }
      }
    }
  }

  // ---------------------------------------------------------------- segments

  ghost predicate Increasing(items: seq<ItemPointer>) {
    && (forall i :: 0 <= i < |items| ==> ValidItem(items[i]))
    && (forall i :: 0 <= i < |items| - 1 ==> Before(items[i], items[i + 1]))
  }

  /** The differences between neighbours, each as a variable-length integer. */
  ghost function Deltas(first: ItemPointer, items: seq<ItemPointer>): (s: seq<byte>)
    requires Increasing([first] + items)
    ensures |s| >= |items|
    decreases |items|
  {
    if |items| == 0 then []
    else
      assert ([first] + items)[0] == first && ([first] + items)[1] == items[0];
      PackPreservesOrder(first, items[0]);
      DropFirst(first, items);
      EncodeVarbyte(Packed(items[0]) - Packed(first)) + Deltas(items[0], items[1..])
  }

  lemma DropFirst(first: ItemPointer, items: seq<ItemPointer>)
    requires Increasing([first] + items) && |items| > 0
    ensures Increasing([items[0]] + items[1..])
  {
    var all := [first] + items;
    assert [items[0]] + items[1..] == all[1..];
    forall i | 0 <= i < |all[1..]| - 1
      ensures Before(all[1..][i], all[1..][i + 1])
    {
      assert Before(all[i + 1], all[i + 2]);
    }
  }

  /** ItemPointerData: block number high half first, then the offset, each half little-endian. */
  function TidBytes(ip: ItemPointer): (s: seq<byte>)
    ensures |s| == 6
  {
    LeBytes(ip.block / 0x1_0000 % 0x1_0000, 2) + LeBytes(ip.block % 0x1_0000, 2) + LeBytes(ip.offset, 2)
  }

  function ReadTid(s: seq<byte>): ItemPointer
    requires |s| == 6
  {
    ItemPointer(LeValue(s[..2]) * 0x1_0000 + LeValue(s[2..4]), LeValue(s[4..]))
  }

  lemma TidRoundTrip(ip: ItemPointer)
    requires ValidItem(ip)
    ensures ReadTid(TidBytes(ip)) == ip
  {
    hide LeBytes, LeValue;
    var s := TidBytes(ip);
    assert Pow256(2) == 0x1_0000;
    LeRoundTrip(ip.block / 0x1_0000 % 0x1_0000, 2);
    LeRoundTrip(ip.block % 0x1_0000, 2);
    LeRoundTrip(ip.offset, 2);
    assert s[..2] == LeBytes(ip.block / 0x1_0000 % 0x1_0000, 2);
    assert s[2..4] == LeBytes(ip.block % 0x1_0000, 2);
    assert s[4..] == LeBytes(ip.offset, 2);
  }

  ghost predicate ValidSegment(items: seq<ItemPointer>) {
    |items| > 0 && Increasing(items) && [items[0]] + items[1..] == items
    && |Deltas(items[0], items[1..])| < 0x1_0000
  }

  /** GinPostingList with `shown` as its first item: nbytes, the deltas, and padding to an even length. */
  ghost function SegmentBytes(shown: ItemPointer, items: seq<ItemPointer>): (s: seq<byte>)
    requires ValidSegment(items)
    ensures |s| >= 8
  {
    var deltas := Deltas(items[0], items[1..]);
    TidBytes(shown) + LeBytes(|deltas|, 2) + deltas + Zeros(|deltas| % 2)
  }

  ghost predicate ValidSegments(segs: seq<seq<ItemPointer>>) {
    forall i :: 0 <= i < |segs| ==> ValidSegment(segs[i])
  }

  /** The stored posting lists. */
  ghost function Stored(segs: seq<seq<ItemPointer>>): seq<byte>
    requires ValidSegments(segs)
  {
    if |segs| == 0 then [] else SegmentBytes(segs[0][0], segs[0]) + Stored(segs[1..])
  }

  /** The same lists with the last item of each where its first was. */
  ghost function Overwritten(segs: seq<seq<ItemPointer>>): seq<byte>
    requires ValidSegments(segs)
  {
    if |segs| == 0 then []
    else Overwritten(segs[..|segs| - 1]) + SegmentBytes(segs[|segs| - 1][|segs[|segs| - 1]| - 1], segs[|segs| - 1])
  }

  function Items(segs: seq<seq<ItemPointer>>): seq<ItemPointer> {
    if |segs| == 0 then [] else Items(segs[..|segs| - 1]) + segs[|segs| - 1]
  }

  lemma SegmentParts(shown: ItemPointer, items: seq<ItemPointer>, rest: seq<byte>)
    requires ValidSegment(items)
    ensures var s := SegmentBytes(shown, items) + rest;
            var n := |Deltas(items[0], items[1..])|;
            && s[..6] == TidBytes(shown)
            && LeValue(s[6..8]) == n
            && s[8..8 + n] == Deltas(items[0], items[1..])
            && |SegmentBytes(shown, items)| == 8 + n + n % 2
            && s[8 + n + n % 2..] == rest
  {
    var deltas := Deltas(items[0], items[1..]);
    var s := SegmentBytes(shown, items) + rest;
    assert Pow256(2) == 0x1_0000;
    LeRoundTrip(|deltas|, 2);
    assert s[6..8] == LeBytes(|deltas|, 2);
  }

  /** The items of a segment from the j-th on, as the deltas behind item j - 1 hold them. */
  ghost function Rest(items: seq<ItemPointer>, j: nat): (s: seq<byte>)
    requires Increasing(items) && 1 <= j <= |items|
  {
    SuffixIncreasing(items, j);
    Deltas(items[j - 1], items[j..])
  }

  lemma SuffixIncreasing(items: seq<ItemPointer>, j: nat)
    requires Increasing(items) && 1 <= j <= |items|
    ensures Increasing([items[j - 1]] + items[j..])
  {
    var s := [items[j - 1]] + items[j..];
    forall i | 0 <= i < |s| - 1
      ensures Before(s[i], s[i + 1])
    {
      assert s[i] == items[j - 1 + i] && s[i + 1] == items[j + i];
      assert Before(items[j - 1 + i], items[j - 1 + i + 1]);
    }
    forall i | 0 <= i < |s|
      ensures ValidItem(s[i])
    {
      assert s[i] == items[j - 1 + i];
    }
  }

  /** Reading one delta moves from item j - 1 to item j. */
  lemma RestStep(items: seq<ItemPointer>, j: nat, tail: seq<byte>)
    requires Increasing(items) && 1 <= j < |items|
    ensures Ends(Rest(items, j) + tail, 7)
    ensures var r := Varbyte(Rest(items, j) + tail, 7);
            Pack(items[j - 1]) + r.0 == Pack(items[j]) < 0x800_0000_0000 && Unpack(Pack(items[j])) == items[j]
            && Rest(items, j) == EncodeVarbyte(r.0) + Rest(items, j + 1) && r.1 == |EncodeVarbyte(r.0)|
  {
    hide Pack, Unpack, Varbyte, Ends, EncodeVarbyte;
    SuffixIncreasing(items, j);
    assert items[j..][0] == items[j] && items[j..][1..] == items[j + 1..];
    assert Before(items[j - 1], items[j]);
    PackPreservesOrder(items[j - 1], items[j]);
    PackRoundTrip(items[j - 1]);
    PackRoundTrip(items[j]);
    SevenGroups();
    var delta := Pack(items[j]) - Pack(items[j - 1]);
    VarbyteRoundTrip(delta, Rest(items, j + 1) + tail, 7);
    assert Rest(items, j) == EncodeVarbyte(delta) + Rest(items, j + 1);
    assert Rest(items, j) + tail == EncodeVarbyte(delta) + (Rest(items, j + 1) + tail);
  }

  // ---------------------------------------------------------------- unique decodability

  lemma {:induction false} DeltasDetermineItems(first: ItemPointer, a: seq<ItemPointer>, b: seq<ItemPointer>)
    requires Increasing([first] + a) && Increasing([first] + b)
    requires Deltas(first, a) == Deltas(first, b)
    ensures a == b
    decreases |a|
  {
    if |a| > 0 {
      var xs, ys := [first] + a, [first] + b;
      RestStep(xs, 1, []);
      RestStep(ys, 1, []);
      assert xs[1..] == a && ys[1..] == b;
      assert Rest(xs, 1) == Deltas(first, a) && Rest(ys, 1) == Deltas(first, b);
      var used := Varbyte(Rest(xs, 1) + [], 7).1;
      assert Rest(xs, 2) == Rest(xs, 1)[used..] && Rest(ys, 2) == Rest(ys, 1)[used..];
      assert Pack(a[0]) == Pack(b[0]);
      DropFirst(first, a);
      DropFirst(first, b);
      assert xs[2..] == a[1..] && ys[2..] == b[1..];
      DeltasDetermineItems(a[0], a[1..], b[1..]);
      assert a == [a[0]] + a[1..] && b == [b[0]] + b[1..];
    }
  }

  /** Different lists of segments are stored differently. */
  lemma {:induction false} StoredDeterminesSegments(a: seq<seq<ItemPointer>>, b: seq<seq<ItemPointer>>)
    requires ValidSegments(a) && ValidSegments(b) && Stored(a) == Stored(b)
    ensures a == b
  {
    if |a| > 0 && |b| > 0 {
      hide TidBytes, ReadTid, LeBytes, LeValue, Deltas;
      SegmentParts(a[0][0], a[0], Stored(a[1..]));
      SegmentParts(b[0][0], b[0], Stored(b[1..]));
      TidRoundTrip(a[0][0]);
      TidRoundTrip(b[0][0]);
      DeltasDetermineItems(a[0][0], a[0][1..], b[0][1..]);
      assert a[0] == [a[0][0]] + a[0][1..] && b[0] == [b[0][0]] + b[0][1..];
      StoredDeterminesSegments(a[1..], b[1..]);
      assert a == [a[0]] + a[1..] && b == [b[0]] + b[1..];
    }
  }

  // ---------------------------------------------------------------- the array-building decoder

  method EnlargeIfFull(result: array<ItemPointer>, ndecoded: nat) returns (bigger: array<ItemPointer>)
    requires ndecoded <= result.Length && result.Length > 0
    ensures ndecoded < bigger.Length && bigger[..ndecoded] == result[..ndecoded]
    ensures bigger.Length == if ndecoded < result.Length then result.Length else 2 * result.Length
    ensures bigger == result || fresh(bigger)
  {
    bigger := result;
    if ndecoded >= result.Length {
      bigger := new ItemPointer[2 * result.Length];
      forall i | 0 <= i < result.Length {
        bigger[i] := result[i];
      }
    }
  }

  lemma Subslice(s: seq<byte>, a: nat, b: nat, i: nat, j: nat)
    requires a <= b <= |s| && i <= j <= b - a
    ensures s[a..b][i..j] == s[a + i..a + j]
  {
    var t, u := s[a..b][i..j], s[a + i..a + j];
    forall k | 0 <= k < j - i
      ensures t[k] == u[k]
    {
      assert t[k] == s[a..b][i + k] == s[a + i + k];
    }
    assert t == u;
  }

  /** Where a segment's fields lie in memory. */
  lemma SegmentInMemory(mem: seq<byte>, segment: nat, shown: ItemPointer, items: seq<ItemPointer>)
    requires ValidSegment(items) && segment + |SegmentBytes(shown, items)| <= |mem|
    requires mem[segment..segment + |SegmentBytes(shown, items)|] == SegmentBytes(shown, items)
    ensures var n := LeValue(mem[segment + 6..segment + 8]);
            && |SegmentBytes(shown, items)| == 8 + n + n % 2
            && mem[segment..segment + 6] == TidBytes(shown)
            && mem[segment + 8..segment + 8 + n] == Rest(items, 1)
  {
    hide TidBytes, LeValue, LeBytes, Deltas;
    var whole := SegmentBytes(shown, items);
    var end := segment + |whole|;
    SegmentParts(shown, items, []);
    assert whole + [] == whole;
    Subslice(mem, segment, end, 0, 6);
    Subslice(mem, segment, end, 6, 8);
    var n := |Deltas(items[0], items[1..])|;
    Subslice(mem, segment, end, 8, 8 + n);
    assert LeValue(mem[segment + 6..segment + 8]) == n;
    assert Rest(items, 1) == Deltas(items[0], items[1..]);
  }

  lemma SegmentItem(items: seq<ItemPointer>, j: nat)
    requires ValidSegment(items) && j < |items|
    ensures ValidItem(items[j])
  {
  }

  /** Reading one delta in memory. */
  lemma RestInMemory(mem: seq<byte>, ptr: nat, endptr: nat, items: seq<ItemPointer>, j: nat)
    requires Increasing(items) && 1 <= j <= |items| && ptr <= endptr <= |mem| && mem[ptr..endptr] == Rest(items, j)
    ensures ptr < endptr <==> j < |items|
    ensures ptr < endptr ==>
              && Ends(mem[ptr..], 7)
              && var r := Varbyte(mem[ptr..], 7);
              && ptr + r.1 <= endptr && mem[ptr + r.1..endptr] == Rest(items, j + 1)
              && Pack(items[j - 1]) + r.0 == Pack(items[j]) && Unpack(Pack(items[j])) == items[j]
  {
    hide Pack, Unpack, Varbyte, Ends, EncodeVarbyte;
    if j < |items| {
      RestStep(items, j, mem[endptr..]);
      assert mem[ptr..] == Rest(items, j) + mem[endptr..];
      var used := Varbyte(mem[ptr..], 7).1;
      Subslice(mem, ptr, endptr, used, endptr - ptr);
    }
  }

  lemma OneMoreItem(start: seq<ItemPointer>, items: seq<ItemPointer>, j: nat)
    requires j < |items|
    ensures start + items[..j + 1] == start + items[..j] + [items[j]]
  {
  }

  method Put(result: array<ItemPointer>, at: nat, ip: ItemPointer)
    requires at < result.Length
    modifies result
    ensures result[..at + 1] == old(result[..at]) + [ip]
  {
    result[at] := ip;
  }

  /** The body of the segment loop: the first item as stored, the others by adding deltas. */
  method DecodeSegment(mem: seq<byte>, segment: nat, given: array<ItemPointer>, count: nat,
                       ghost items: seq<ItemPointer>)
    returns (result: array<ItemPointer>, ndecoded: nat)
    requires ValidSegment(items) && given.Length > 0 && count <= given.Length
    requires segment + |SegmentBytes(items[0], items)| <= |mem|
    requires mem[segment..segment + |SegmentBytes(items[0], items)|] == SegmentBytes(items[0], items)
    modifies given
    ensures result == given || fresh(result)
    ensures ndecoded == count + |items| <= result.Length && result.Length > 0
    ensures result[..ndecoded] == old(given[..count]) + items
  {
    hide Pack, Unpack, Varbyte, Ends, TidBytes, ReadTid, SegmentBytes, Rest, LeValue, Increasing, ValidItem;
    ghost var start := given[..count];
    SegmentInMemory(mem, segment, items[0], items);
    SegmentItem(items, 0);
    TidRoundTrip(items[0]);
    result := EnlargeIfFull(given, count);
    ndecoded := count;
    var first := ReadTid(mem[segment..segment + 6]);
    Put(result, ndecoded, first);
    ndecoded := ndecoded + 1;
    var val := Pack(first);
    var ptr := segment + 8;
    var endptr := ptr + LeValue(mem[segment + 6..segment + 8]);
    ghost var j := 1;
    RestInMemory(mem, ptr, endptr, items, j);
    while ptr < endptr
      invariant ptr <= endptr <= |mem| && 1 <= j <= |items| && (ptr < endptr <==> j < |items|)
      invariant mem[ptr..endptr] == Rest(items, j) && val == Pack(items[j - 1])
      invariant (result == given || fresh(result)) && ndecoded == count + j <= result.Length
      invariant result[..ndecoded] == start + items[..j]
      decreases endptr - ptr
    {
      RestInMemory(mem, ptr, endptr, items, j);
      result := EnlargeIfFull(result, ndecoded);
      var delta, next := DecodeVarbyte(mem, ptr);
      val, ptr := val + delta, next;
      Put(result, ndecoded, Unpack(val));
      OneMoreItem(start, items, j);
      ndecoded, j := ndecoded + 1, j + 1;
      RestInMemory(mem, ptr, endptr, items, j);
    }
  }

  /** ginPostingListDecodeAllSegmentsItems: the stored lists are decoded to exactly their items. */
  method DecodeAllSegmentsItems(mem: seq<byte>, seg: nat, len: nat, ghost segs: seq<seq<ItemPointer>>)
    returns (result: array<ItemPointer>, ndecoded: nat)
    requires ValidSegments(segs) && |segs| > 0
    requires seg + len <= |mem| && mem[seg..seg + len] == Stored(segs)
    ensures fresh(result) && ndecoded <= result.Length
    ensures result[..ndecoded] == Items(segs)
  {
    hide SegmentBytes, LeValue, Stored, ValidSegment;
    var segment, endseg := seg, seg + len;
    StoredInMemory(mem, segment, endseg, segs, 0);
    var nallocated := LeValue(mem[segment + 6..segment + 8]) * 2 + 1;
    result := new ItemPointer[nallocated];
    ndecoded := 0;
    ghost var i := 0;
    assert segs[0..] == segs;
    while segment < endseg
      invariant seg <= segment <= endseg && i <= |segs|
      invariant mem[segment..endseg] == Stored(segs[i..])
      invariant fresh(result) && result.Length > 0 && ndecoded <= result.Length
      invariant result[..ndecoded] == Items(segs[..i])
      decreases endseg - segment
    {
      StoredInMemory(mem, segment, endseg, segs, i);
      result, ndecoded := DecodeSegment(mem, segment, result, ndecoded, segs[i]);
      var nbytes := LeValue(mem[segment + 6..segment + 8]);
      segment := segment + 8 + nbytes + nbytes % 2;
      OneMoreSegment(segs, i);
      i := i + 1;
    }
    StoredInMemory(mem, segment, endseg, segs, i);
    assert segs[..i] == segs;
  }

  lemma NoItems()
    ensures Items([]) == []
  {
  }

  lemma OneMoreSegment(segs: seq<seq<ItemPointer>>, i: nat)
    requires i < |segs|
    ensures Items(segs[..i + 1]) == Items(segs[..i]) + segs[i]
  {
    assert segs[..i + 1][..i] == segs[..i];
  }

  lemma StoredInMemory(mem: seq<byte>, segment: nat, endseg: nat, segs: seq<seq<ItemPointer>>, i: nat)
    requires ValidSegments(segs) && i <= |segs| && segment <= endseg <= |mem|
    requires mem[segment..endseg] == Stored(segs[i..])
    ensures segment < endseg <==> i < |segs|
    ensures i < |segs| ==>
              && ValidSegment(segs[i]) && |segs[i]| > 0
              && var size := |SegmentBytes(segs[i][0], segs[i])|;
              && segment + size <= endseg && size >= 8
              && mem[segment..segment + size] == SegmentBytes(segs[i][0], segs[i])
              && mem[segment + size..endseg] == Stored(segs[i + 1..])
              && var n := LeValue(mem[segment + 6..segment + 8]);
              && size == 8 + n + n % 2
  {
    hide SegmentBytes, LeValue;
    StoredStep(segs, i, mem[segment..endseg]);
    if i < |segs| {
      var size := |SegmentBytes(segs[i][0], segs[i])|;
      Subslice(mem, segment, endseg, 0, size);
      Subslice(mem, segment, endseg, size, endseg - segment);
      Subslice(mem, segment, endseg, 6, 8);
    }
  }

  lemma StoredStep(segs: seq<seq<ItemPointer>>, i: nat, s: seq<byte>)
    requires ValidSegments(segs) && i <= |segs| && s == Stored(segs[i..])
    ensures |s| > 0 <==> i < |segs|
    ensures i < |segs| ==>
              var size := |SegmentBytes(segs[i][0], segs[i])|;
              var n := |Deltas(segs[i][0], segs[i][1..])|;
              && |s| >= size == 8 + n + n % 2
              && s[..size] == SegmentBytes(segs[i][0], segs[i]) && s[size..] == Stored(segs[i + 1..])
              && LeValue(s[6..8]) == n
  {
    if i < |segs| {
      assert segs[i..][1..] == segs[i + 1..];
      SegmentParts(segs[i][0], segs[i], Stored(segs[i + 1..]));
    }
  }

  // ---------------------------------------------------------------- the printer that overwrites the page

  /** Memory m with the item pointer at `at` replaced. */
  function Patched(m: seq<byte>, at: nat, ip: ItemPointer): (p: seq<byte>)
    requires at + 6 <= |m|
    ensures |p| == |m|
  {
    m[..at] + TidBytes(ip) + m[at + 6..]
  }

  lemma PatchAgain(m: seq<byte>, at: nat, a: ItemPointer, b: ItemPointer)
    requires at + 6 <= |m|
    ensures Patched(Patched(m, at, a), at, b) == Patched(m, at, b)
    ensures Patched(m, at, a)[at..at + 6] == TidBytes(a)
    ensures forall p :: at + 6 <= p <= |m| ==> Patched(m, at, a)[p..] == m[p..]
  {
    hide TidBytes;
    var t := Patched(m, at, a);
    assert t[..at] == m[..at] && t[at + 6..] == m[at + 6..];
    forall p | at + 6 <= p <= |m|
      ensures t[p..] == m[p..]
    {
      assert t[at + 6..][p - at - 6..] == t[p..];
      assert m[at + 6..][p - at - 6..] == m[p..];
    }
  }

  /** uint64_to_itemptr(val, cur) on the page. */
  method WriteTid(page: array<byte>, at: nat, ip: ItemPointer)
    requires at + 6 <= page.Length
    modifies page
    ensures page[..] == Patched(old(page[..]), at, ip)
  {
    var s := TidBytes(ip);
    forall i | 0 <= i < 6 {
      page[at + i] := s[i];
    }
    assert page[..at] == old(page[..at]) && page[at..at + 6] == s && page[at + 6..] == old(page[at + 6..]);
    assert page[..] == page[..at] + page[at..at + 6] + page[at + 6..];
  }

  /** One posting list, printed through `cur`, which points at the list's own first item. */
  method PrintSegment(page: array<byte>, seg: nat, ghost items: seq<ItemPointer>) returns (printed: seq<ItemPointer>)
    requires ValidSegment(items) && seg + |SegmentBytes(items[0], items)| <= page.Length
    requires page[seg..seg + |SegmentBytes(items[0], items)|] == SegmentBytes(items[0], items)
    modifies page
    ensures printed == items
    ensures page[..] == Patched(old(page[..]), seg, items[|items| - 1])
  {
    hide Pack, Unpack, Varbyte, Ends, TidBytes, ReadTid, SegmentBytes, Rest, LeValue, Patched, Increasing, ValidItem;
    ghost var m := page[..];
    assert m[seg..seg + |SegmentBytes(items[0], items)|] == SegmentBytes(items[0], items);
    SegmentInMemory(m, seg, items[0], items);
    SegmentItem(items, 0);
    TidRoundTrip(items[0]);
    assert page[seg..seg + 6] == m[seg..seg + 6] && page[seg + 6..seg + 8] == m[seg + 6..seg + 8];
    SameTid(m, seg, items[0]);
    var ptr := seg + 8;
    var endseg := ptr + LeValue(page[seg + 6..seg + 8]);
    printed := [ReadTid(page[seg..seg + 6])];
    var val := Pack(ReadTid(page[seg..seg + 6]));
    ghost var j := 1;
    RestInMemory(m, ptr, endseg, items, j);
    while ptr < endseg
      invariant seg + 8 <= ptr <= endseg <= |m| && 1 <= j <= |items| && (ptr < endseg <==> j < |items|)
      invariant m[ptr..endseg] == Rest(items, j) && val == Pack(items[j - 1])
      invariant page[..] == Patched(m, seg, items[j - 1])
      invariant printed == items[..j]
      decreases endseg - ptr
    {
      RestInMemory(m, ptr, endseg, items, j);
      PatchAgain(m, seg, items[j - 1], items[j]);
      var delta, next := DecodeVarbyte(page[..], ptr);
      val, ptr := val + delta, next;
      WriteTid(page, seg, Unpack(val));
      PatchAgain(m, seg, items[j], items[j]);
      OneMoreItem([], items, j);
      SegmentItem(items, j);
      TidRoundTrip(items[j]);
      assert page[seg..seg + 6] == page[..][seg..seg + 6];
      printed := printed + [ReadTid(page[seg..seg + 6])];
      j := j + 1;
      RestInMemory(m, ptr, endseg, items, j);
    }
  }

  lemma SameTid(m: seq<byte>, at: nat, ip: ItemPointer)
    requires at + 6 <= |m| && m[at..at + 6] == TidBytes(ip)
    ensures Patched(m, at, ip) == m
  {
    assert m == m[..at] + m[at..at + 6] + m[at + 6..];
  }

  /** The compressed-leaf loop of FormatGinBlock: every item is printed in order, and afterwards the page
      differs only in that each list's first item is its last. */
  method PrintCompressedLeaf(page: array<byte>, start: nat, len: nat, ghost segs: seq<seq<ItemPointer>>)
    returns (printed: seq<ItemPointer>)
    requires ValidSegments(segs)
    requires start + len <= page.Length && page[start..start + len] == Stored(segs)
    modifies page
    ensures printed == Items(segs)
    ensures page[..] == old(page[..start]) + Overwritten(segs) + old(page[start + len..])
  {
    hide SegmentBytes, LeValue, Stored, ValidSegment, Overwritten, Patched, Items, LeafImage;
    ghost var m := page[..];
    assert m[start..start + len] == Stored(segs);
    assert segs[0..] == segs;
    var seg, endptr := start, start + len;
    printed := [];
    ghost var i := 0;
    LeafStart(m, start, segs);
    NoItems();
    while seg < endptr
      invariant start <= seg <= endptr <= |m| && i <= |segs|
      invariant m[seg..endptr] == Stored(segs[i..])
      invariant LeafImage(page[..], m, start, seg, segs, i)
      invariant printed == Items(segs[..i])
      decreases endptr - seg
    {
      StoredInMemory(m, seg, endptr, segs, i);
      ghost var before := page[..];
      ghost var size := |SegmentBytes(segs[i][0], segs[i])|;
      FrontUntouched(m, before, start, seg, size, segs, i);
      assert page[seg..seg + size] == before[seg..seg + size];
      assert page[seg + 6..seg + 8] == before[seg + 6..seg + 8];
      var nbytes := LeValue(page[seg + 6..seg + 8]);
      var list := PrintSegment(page, seg, segs[i]);
      printed := printed + list;
      LeafStep(m, before, start, seg, segs, i);
      OneMoreSegment(segs, i);
      seg := seg + 8 + nbytes + nbytes % 2;
      i := i + 1;
    }
    StoredInMemory(m, seg, endptr, segs, i);
    assert segs[..i] == segs;
    LeafEnd(page[..], m, start, seg, segs, i);
  }

  lemma LeafStart(m: seq<byte>, start: nat, segs: seq<seq<ItemPointer>>)
    requires ValidSegments(segs) && start <= |m|
    ensures LeafImage(m, m, start, start, segs, 0)
  {
    hide Overwritten;
    OverwrittenStep(segs, 0);
    assert m == m[..start] + [] + m[start..];
  }

  lemma LeafEnd(now: seq<byte>, m: seq<byte>, start: nat, seg: nat, segs: seq<seq<ItemPointer>>, i: nat)
    requires ValidSegments(segs) && i <= |segs| && start <= seg <= |m| && LeafImage(now, m, start, seg, segs, i)
    ensures now == m[..start] + Overwritten(segs[..i]) + m[seg..]
  {
    hide Overwritten;
  }

  /** The page while segments 0, ..., i - 1 have been printed and the next starts at `seg`. */
  ghost predicate LeafImage(now: seq<byte>, m: seq<byte>, start: nat, seg: nat, segs: seq<seq<ItemPointer>>, i: nat)
    requires ValidSegments(segs) && i <= |segs| && start <= seg <= |m|
  {
    |Overwritten(segs[..i])| == seg - start && now == m[..start] + Overwritten(segs[..i]) + m[seg..]
  }

  lemma LeafStep(m: seq<byte>, before: seq<byte>, start: nat, seg: nat, segs: seq<seq<ItemPointer>>, i: nat)
    requires ValidSegments(segs) && i < |segs| && |segs[i]| > 0 && start <= seg
    requires var size := |SegmentBytes(segs[i][0], segs[i])|;
             seg + size <= |m| && m[seg..seg + size] == SegmentBytes(segs[i][0], segs[i])
    requires LeafImage(before, m, start, seg, segs, i)
    ensures seg + 6 <= |before|
    ensures LeafImage(Patched(before, seg, segs[i][|segs[i]| - 1]), m, start,
                      seg + |SegmentBytes(segs[i][0], segs[i])|, segs, i + 1)
  {
    hide SegmentBytes, Patched, Overwritten, ValidSegment;
    assert before[seg..] == m[seg..];
    PatchedSegment(m, before, start, seg, segs[i]);
    OverwrittenStep(segs, i + 1);
    assert before[..seg] == m[..start] + Overwritten(segs[..i]);
  }

  lemma OverwrittenStep(segs: seq<seq<ItemPointer>>, i: nat)
    requires ValidSegments(segs) && i <= |segs|
    ensures Overwritten(segs[..i])
            == if i == 0 then []
               else Overwritten(segs[..i - 1]) + SegmentBytes(segs[i - 1][|segs[i - 1]| - 1], segs[i - 1])
  {
    if i > 0 {
      assert segs[..i][..i - 1] == segs[..i - 1];
    }
  }

  lemma FrontUntouched(m: seq<byte>, now: seq<byte>, start: nat, seg: nat, size: nat, segs: seq<seq<ItemPointer>>,
                       i: nat)
    requires ValidSegments(segs) && i <= |segs| && start <= seg && seg + size <= |m| && 8 <= size
    requires LeafImage(now, m, start, seg, segs, i)
    ensures |now| == |m| && now[seg..seg + size] == m[seg..seg + size] && now[seg + 6..seg + 8] == m[seg + 6..seg + 8]
  {
    hide Overwritten;
    assert now[seg..] == m[seg..];
    assert now[seg..][..size] == now[seg..seg + size] && m[seg..][..size] == m[seg..seg + size];
    assert now[seg..][6..8] == now[seg + 6..seg + 8] && m[seg..][6..8] == m[seg + 6..seg + 8];
  }

  /** Patching the first item of the segment at `seg` turns its stored form into its overwritten form. */
  lemma PatchedSegment(m: seq<byte>, before: seq<byte>, start: nat, seg: nat, items: seq<ItemPointer>)
    requires ValidSegment(items) && start <= seg && |m| == |before|
    requires seg + |SegmentBytes(items[0], items)| <= |m|
    requires before[seg..] == m[seg..]
    requires m[seg..seg + |SegmentBytes(items[0], items)|] == SegmentBytes(items[0], items)
    ensures |SegmentBytes(items[|items| - 1], items)| == |SegmentBytes(items[0], items)|
    ensures Patched(before, seg, items[|items| - 1])
            == before[..seg] + SegmentBytes(items[|items| - 1], items)
               + m[seg + |SegmentBytes(items[0], items)|..]
  {
    hide TidBytes, LeBytes, Deltas;
    var whole := SegmentBytes(items[0], items);
    var size := |whole|;
    var tail := whole[6..];
    assert SegmentBytes(items[|items| - 1], items) == TidBytes(items[|items| - 1]) + tail;
    assert before[seg + 6..] == before[seg..][6..] == m[seg..][6..] == m[seg + 6..];
    assert m[seg + 6..] == m[seg + 6..seg + size] + m[seg + size..];
    Subslice(m, seg, seg + size, 6, size);
  }
}
