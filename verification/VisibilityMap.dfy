/** The visibility map analyser: two status bits a heap page, ranges of equal status, and the summaries. */
module VisibilityMap {
  import opened Arithmetic
  import opened Bytes
  import opened RunLength

  const BLCKSZ: int := 8192
  // What a page header of 24 bytes leaves of a block.
  const MAP_SIZE: int := BLCKSZ - AlignUp(24, 8)
  const HEAPBLOCKS_PER_BYTE: int := 4
  const HEAPBLOCKS_PER_PAGE: int := MAP_SIZE * HEAPBLOCKS_PER_BYTE
  const VM_STATUS_OUT_OF_FILE: int := -1
  const VM_STATUS_CORRUPT: int := -2

  datatype VmPage = VmPage(allZero: bool, valid: bool, bitmap: seq<byte>)

  /** Loaded pages hold 8168 bytes, all zero on an all-zero page. */
  predicate Loaded(pages: seq<VmPage>) {
    forall i :: 0 <= i < |pages| ==>
      && |pages[i].bitmap| == 8168
      && (pages[i].allZero ==> forall j :: 0 <= j < 8168 ==> pages[i].bitmap[j] == 0)
  }

  /** Two bits of a byte: (b >> 2k) & 3. */
  function TwoBits(b: int, k: nat): int
    requires k < 4
  {
    (if k == 0 then b else if k == 1 then b / 4 else if k == 2 then b / 16 else b / 64) % 4
  }

  function HeapPageStatus(pages: seq<VmPage>, heapPage: nat): (status: int)
    requires Loaded(pages)
    ensures -2 <= status <= 3
  {
    var vmPage := heapPage / HEAPBLOCKS_PER_PAGE;
    if vmPage >= |pages| then VM_STATUS_OUT_OF_FILE
    else if !pages[vmPage].allZero && !pages[vmPage].valid then VM_STATUS_CORRUPT
    else
      var offset := heapPage % HEAPBLOCKS_PER_PAGE;
      TwoBits(pages[vmPage].bitmap[offset / HEAPBLOCKS_PER_BYTE], offset % HEAPBLOCKS_PER_BYTE)
  }

  predicate HasVisible(status: int) {
    status > 0 && status % 2 == 1
  }

  predicate HasFrozen(status: int) {
    status > 0 && status / 2 % 2 == 1
  }

  // ---------------------------------------------------------------- packing

  /** The status of heap page hp in a list of statuses, none set beyond its end. */
  function StatusAt(statuses: seq<int>, hp: nat): int {
    if hp < |statuses| then statuses[hp] else 0
  }

  predicate AreStatuses(statuses: seq<int>) {
    forall i :: 0 <= i < |statuses| ==> 0 <= statuses[i] <= 3
  }

  function PackByte(statuses: seq<int>, hp: nat): byte
    requires AreStatuses(statuses)
  {
    StatusAt(statuses, hp) + 4 * StatusAt(statuses, hp + 1) + 16 * StatusAt(statuses, hp + 2)
    + 64 * StatusAt(statuses, hp + 3)
  }

  /** Page p of the map of the given statuses. */
  function PackPage(statuses: seq<int>, p: nat): (page: VmPage)
    requires AreStatuses(statuses)
    ensures |page.bitmap| == 8168
  {
    VmPage(false, true, seq<byte>(8168, (j: nat) => PackByte(statuses, p * 32672 + 4 * j)))
  }

  function PackFile(statuses: seq<int>, total: nat): (pages: seq<VmPage>)
    requires AreStatuses(statuses)
    ensures |pages| == total && Loaded(pages)
  {
    seq(total, (p: nat) => PackPage(statuses, p))
  }

  lemma TwoBitsOfPacked(a: int, b: int, c: int, d: int)
    requires 0 <= a <= 3 && 0 <= b <= 3 && 0 <= c <= 3 && 0 <= d <= 3
    ensures var x := a + 4 * b + 16 * c + 64 * d;
            TwoBits(x, 0) == a && TwoBits(x, 1) == b && TwoBits(x, 2) == c && TwoBits(x, 3) == d
  {
    var x := a + 4 * b + 16 * c + 64 * d;
    assert x / 4 == b + 4 * c + 16 * d && x / 16 == c + 4 * d && x / 64 == d;
  }

  lemma ByteOfPacked(statuses: seq<int>, hp: nat, k: nat)
    requires AreStatuses(statuses) && k < 4
    ensures TwoBits(PackByte(statuses, hp), k) == StatusAt(statuses, hp + k)
  {
    TwoBitsOfPacked(StatusAt(statuses, hp), StatusAt(statuses, hp + 1), StatusAt(statuses, hp + 2),
                    StatusAt(statuses, hp + 3));
  }

  lemma HeapPageParts(hp: nat)
    ensures var p, j, k := hp / HEAPBLOCKS_PER_PAGE, hp % HEAPBLOCKS_PER_PAGE / HEAPBLOCKS_PER_BYTE,
                           hp % HEAPBLOCKS_PER_PAGE % HEAPBLOCKS_PER_BYTE;
            j < MAP_SIZE && k < 4 && hp == p * HEAPBLOCKS_PER_PAGE + 4 * j + k
  {
  }

  /** Looking up any heap page of a packed map returns its status; beyond the file it returns out-of-file. */
  lemma PackedStatusIsFound(statuses: seq<int>, total: nat, hp: nat)
    requires AreStatuses(statuses)
    ensures HeapPageStatus(PackFile(statuses, total), hp)
            == if hp < total * 32672 then StatusAt(statuses, hp) else -1
  {
    hide PackByte, TwoBits, StatusAt;
    HeapPageParts(hp);
    var p, j := hp / HEAPBLOCKS_PER_PAGE, hp % HEAPBLOCKS_PER_PAGE / HEAPBLOCKS_PER_BYTE;
    if p < total {
      ByteOfPacked(statuses, p * HEAPBLOCKS_PER_PAGE + 4 * j, hp % HEAPBLOCKS_PER_PAGE % HEAPBLOCKS_PER_BYTE);
      var page := PackFile(statuses, total)[p];
      assert page == PackPage(statuses, p);
      assert page.bitmap[j] == PackByte(statuses, p * HEAPBLOCKS_PER_PAGE + 4 * j);
    }
  }

  /** A heap page whose map page is neither all zero nor valid is corrupt, one on an all-zero page has no bit. */
  lemma DamagedStatus(pages: seq<VmPage>, hp: nat)
    requires Loaded(pages) && hp / 32672 < |pages|
    ensures var page := pages[hp / 32672];
            && (HeapPageStatus(pages, hp) == -2 <==> !page.allZero && !page.valid)
            && (page.allZero ==> HeapPageStatus(pages, hp) == 0)
  {
    HeapPageParts(hp);
  }

  // ---------------------------------------------------------------- ranges

  /** The statuses of the heap pages from..to, none when the range is empty. */
  function Statuses(pages: seq<VmPage>, from: nat, to: int): (s: seq<int>)
    requires Loaded(pages)
    ensures |s| == if to < from then 0 else to - from + 1
    ensures forall i :: 0 <= i < |s| ==> s[i] == HeapPageStatus(pages, from + i)
  {
    seq(if to < from then 0 else to - from + 1, i requires 0 <= i => HeapPageStatus(pages, from + i))
  }

  function StatusPairs(olds: seq<VmPage>, news: seq<VmPage>, from: nat, to: int): (s: seq<(int, int)>)
    requires Loaded(olds) && Loaded(news)
    ensures |s| == if to < from then 0 else to - from + 1
    ensures forall i :: 0 <= i < |s| ==> s[i] == (HeapPageStatus(olds, from + i), HeapPageStatus(news, from + i))
  {
    seq(if to < from then 0 else to - from + 1,
        i requires 0 <= i => (HeapPageStatus(olds, from + i), HeapPageStatus(news, from + i)))
  }

  datatype Options = Options(onlyNotVisible: bool, onlyNotFrozen: bool)

  predicate Shown(options: Options, status: int) {
    !(options.onlyNotVisible && HasVisible(status)) && !(options.onlyNotFrozen && HasFrozen(status))
  }

  /** print_compressed: the ranges left by the filters. */
  method PrintCompressed(compressed: seq<Run<int>>, options: Options) returns (printed: seq<Run<int>>)
    ensures printed == FilterRuns(compressed, status => Shown(options, status))
  {
    printed := [];
    var i := 0;
    assert compressed[..0] == [];
    while i < |compressed|
      invariant i <= |compressed|
      invariant printed == FilterRuns(compressed[..i], status => Shown(options, status))
    {
      var r := compressed[i];
      assert compressed[..i + 1][..i] == compressed[..i];
      i := i + 1;
      if options.onlyNotVisible && HasVisible(r.value) {
        continue;
      }
      if options.onlyNotFrozen && HasFrozen(r.value) {
        continue;
      }
      printed := printed + [r];
    }
    assert compressed[..i] == compressed;
  }

  /** print_expanded: one line a heap page. */
  method PrintExpanded(pages: seq<VmPage>, from: nat, to: int, options: Options) returns (printed: seq<(int, int)>)
    requires Loaded(pages)
    ensures printed == FilterListing(Positions(Statuses(pages, from, to), from), status => Shown(options, status))
  {
    printed := [];
    var hp := from;
    ghost var all := Positions(Statuses(pages, from, to), from);
    PositionsAt(Statuses(pages, from, to), from);
    assert all[..0] == [];
    while hp <= to
      invariant from <= hp && hp - from <= |all|
      invariant printed == FilterListing(all[..hp - from], status => Shown(options, status))
    {
      var status := HeapPageStatus(pages, hp);
      assert all[..hp + 1 - from][..hp - from] == all[..hp - from];
      assert all[hp - from] == (hp, status);
      hp := hp + 1;
      if options.onlyNotVisible && HasVisible(status) {
        continue;
      }
      if options.onlyNotFrozen && HasFrozen(status) {
        continue;
      }
      printed := printed + [(hp - 1, status)];
    }
    assert all[..hp - from] == all;
  }

  /** Whatever the filters, the ranges printed, written out page by page, are the lines of the expanded view. */
  lemma ViewsAgree(pages: seq<VmPage>, from: nat, to: int, compressed: seq<Run<int>>, keep: int -> bool)
    requires Loaded(pages) && Covers(compressed, Statuses(pages, from, to), from)
    ensures Listings(FilterRuns(compressed, keep)) == FilterListing(Positions(Statuses(pages, from, to), from), keep)
  {
    FilterCommutes(compressed, keep);
  }

  // ---------------------------------------------------------------- the dump summary

  function VisibleFlag(status: int): int { if HasVisible(status) then 1 else 0 }

  function FrozenFlag(status: int): int { if HasFrozen(status) then 1 else 0 }

  function CorruptFlag(status: int): int { if status == VM_STATUS_CORRUPT then 1 else 0 }

  function CountRuns<T(==)>(runs: seq<Run<T>>, value: T): nat {
    if |runs| == 0 then 0
    else CountRuns(runs[..|runs| - 1], value) + if runs[|runs| - 1].value == value then 1 else 0
  }

  /** How many stretches of `value` there are. */
  function Stretches<T(==)>(vals: seq<T>, value: T): nat {
    if |vals| == 0 then 0
    else Stretches(vals[..|vals| - 1], value)
         + if vals[|vals| - 1] == value && (|vals| == 1 || vals[|vals| - 2] != value) then 1 else 0
  }

  lemma {:induction false} StretchesBeforeTail<T>(vals: seq<T>, k: nat, value: T)
    requires k < |vals| && forall i :: k <= i < |vals| ==> vals[i] == vals[k]
    ensures Stretches(vals, value)
            == Stretches(vals[..k], value) + if vals[k] == value && (k == 0 || vals[k - 1] != value) then 1 else 0
  {
    var n := |vals| - 1;
    if k < n {
      StretchesBeforeTail(vals[..n], k, value);
      assert vals[..n][..k] == vals[..k];
    }
  }

  lemma {:induction false} RunsAreStretches<T>(runs: seq<Run<T>>, vals: seq<T>, from: int, value: T)
    requires Covers(runs, vals, from) && NeighboursDiffer(runs)
    ensures CountRuns(runs, value) == Stretches(vals, value)
  {
    RunsIfValues(runs, vals, from);
    if |runs| > 0 {
      var n := |runs| - 1;
      LastRun(runs, vals, from);
      RunStartsWithChange(runs, vals, from);
      var k := |vals| - (runs[n].last - runs[n].first + 1);
      RunsAreStretches(runs[..n], vals[..k], from, value);
      StretchesBeforeTail(vals, k, value);
    }
  }

  predicate HasNeighbours(vals: seq<int>, value: int) {
    exists i :: 0 <= i < |vals| - 1 && vals[i] == value && vals[i + 1] == value
  }

  lemma {:induction false} StretchesCountPages(vals: seq<int>)
    ensures Stretches(vals, VM_STATUS_CORRUPT) <= Sum(vals, CorruptFlag)
    ensures Stretches(vals, VM_STATUS_CORRUPT) == Sum(vals, CorruptFlag) <==> !HasNeighbours(vals, VM_STATUS_CORRUPT)
  {
    if |vals| > 0 {
      StretchesCountPages(vals[..|vals| - 1]);
      NeighboursAtEnd(vals, VM_STATUS_CORRUPT);
    }
  }

  lemma NeighboursAtEnd(vals: seq<int>, value: int)
    requires |vals| > 0
    ensures var n := |vals| - 1;
            HasNeighbours(vals, value)
            <==> HasNeighbours(vals[..n], value) || (n > 0 && vals[n - 1] == value && vals[n] == value)
  {
    var n := |vals| - 1;
    if HasNeighbours(vals[..n], value) {
      var i :| 0 <= i < n - 1 && vals[..n][i] == value && vals[..n][i + 1] == value;
      assert vals[i] == value && vals[i + 1] == value;
    }
    if n > 0 && vals[n - 1] == value && vals[n] == value {
      assert vals[n - 1] == value && vals[(n - 1) + 1] == value;
    }
    if HasNeighbours(vals, value) {
      var i :| 0 <= i < n && vals[i] == value && vals[i + 1] == value;
      if i < n - 1 {
        assert vals[..n][i] == value && vals[..n][i + 1] == value;
      }
    }
  }

  /** print_dump_summary over the ranges of from..to: the visible and frozen numbers count heap pages;
      the number printed as error pages counts stretches, the same only where no two corrupt pages touch. */
  method DumpSummary(pages: seq<VmPage>, from: nat, to: int) returns (visible: int, frozen: int, corruptRuns: int)
    requires Loaded(pages)
    ensures var s := Statuses(pages, from, to);
            && visible == Sum(s, VisibleFlag) && frozen == Sum(s, FrozenFlag)
            && corruptRuns <= Sum(s, CorruptFlag)
            && (corruptRuns == Sum(s, CorruptFlag) <==> !HasNeighbours(s, VM_STATUS_CORRUPT))
  {
    hide RunsOf, Covers, NeighboursDiffer;
    var compressed := Compress(Statuses(pages, from, to), from);
    visible, frozen, corruptRuns := 0, 0, 0;
    var i := 0;
    while i < |compressed|
      invariant i <= |compressed|
      invariant visible == SumRuns(compressed[..i], VisibleFlag) && frozen == SumRuns(compressed[..i], FrozenFlag)
      invariant corruptRuns == CountRuns(compressed[..i], VM_STATUS_CORRUPT)
    {
      var r := compressed[i];
      var n := r.last - r.first + 1;
      assert compressed[..i + 1][..i] == compressed[..i];
      if HasVisible(r.value) {
        visible := visible + n;
      }
      if HasFrozen(r.value) {
        frozen := frozen + n;
      }
      if r.value == VM_STATUS_CORRUPT {
        corruptRuns := corruptRuns + 1;
      }
      i := i + 1;
    }
    assert compressed[..i] == compressed;
    ghost var s := Statuses(pages, from, to);
    SumOverRuns(compressed, s, from, VisibleFlag);
    SumOverRuns(compressed, s, from, FrozenFlag);
    RunsAreStretches(compressed, s, from, VM_STATUS_CORRUPT);
    StretchesCountPages(s);
  }

  // ---------------------------------------------------------------- the diff summary

  function Changed(p: (int, int)): int { if p.0 != p.1 then 1 else 0 }

  function GainedVisible(p: (int, int)): int { if !HasVisible(p.0) && HasVisible(p.1) then 1 else 0 }

  function LostVisible(p: (int, int)): int { if HasVisible(p.0) && !HasVisible(p.1) then 1 else 0 }

  function GainedFrozen(p: (int, int)): int { if !HasFrozen(p.0) && HasFrozen(p.1) then 1 else 0 }

  function LostFrozen(p: (int, int)): int { if HasFrozen(p.0) && !HasFrozen(p.1) then 1 else 0 }

  datatype DiffSummary = DiffSummary(changed: int, gainedVisible: int, lostVisible: int, gainedFrozen: int,
                                     lostFrozen: int)

  /** The summary as plain counts over the heap pages of the range. */
  function CountedDiff(pairs: seq<(int, int)>): DiffSummary {
    DiffSummary(Sum(pairs, Changed), Sum(pairs, GainedVisible), Sum(pairs, LostVisible),
                Sum(pairs, GainedFrozen), Sum(pairs, LostFrozen))
  }

  function SummedRuns(runs: seq<Run<(int, int)>>): DiffSummary {
    DiffSummary(SumRuns(runs, Changed), SumRuns(runs, GainedVisible), SumRuns(runs, LostVisible),
                SumRuns(runs, GainedFrozen), SumRuns(runs, LostFrozen))
  }

  function Add(a: DiffSummary, n: int, p: (int, int)): DiffSummary {
    DiffSummary(a.changed + n * Changed(p), a.gainedVisible + n * GainedVisible(p), a.lostVisible + n * LostVisible(p),
                a.gainedFrozen + n * GainedFrozen(p), a.lostFrozen + n * LostFrozen(p))
  }

  lemma OneMoreRun(runs: seq<Run<(int, int)>>, i: nat)
    requires i < |runs|
    ensures SummedRuns(runs[..i + 1])
            == Add(SummedRuns(runs[..i]), runs[i].last - runs[i].first + 1, runs[i].value)
  {
    assert runs[..i + 1][..i] == runs[..i];
  }

  /** The body of print_diff_summary's loop, on a range of n heap pages. */
  method AddRange(d: DiffSummary, n: int, was: int, now: int) returns (r: DiffSummary)
    ensures r == Add(d, n, (was, now))
  {
    hide HasVisible, HasFrozen;
    r := d;
    if was == now {
      return;
    }
    r := r.(changed := r.changed + n);
    if !HasVisible(was) && HasVisible(now) {
      r := r.(gainedVisible := r.gainedVisible + n);
    }
    if HasVisible(was) && !HasVisible(now) {
      r := r.(lostVisible := r.lostVisible + n);
    }
    if !HasFrozen(was) && HasFrozen(now) {
      r := r.(gainedFrozen := r.gainedFrozen + n);
    }
    if HasFrozen(was) && !HasFrozen(now) {
      r := r.(lostFrozen := r.lostFrozen + n);
    }
  }

  lemma SummedIsCounted(runs: seq<Run<(int, int)>>, pairs: seq<(int, int)>, from: int)
    requires Covers(runs, pairs, from)
    ensures SummedRuns(runs) == CountedDiff(pairs)
  {
    SumOverRuns(runs, pairs, from, Changed);
    SumOverRuns(runs, pairs, from, GainedVisible);
    SumOverRuns(runs, pairs, from, LostVisible);
    SumOverRuns(runs, pairs, from, GainedFrozen);
    SumOverRuns(runs, pairs, from, LostFrozen);
  }

  /** print_diff_summary over the ranges of from..to. */
  method PrintDiffSummary(olds: seq<VmPage>, news: seq<VmPage>, from: nat, to: int) returns (d: DiffSummary)
    requires Loaded(olds) && Loaded(news)
    ensures d == CountedDiff(StatusPairs(olds, news, from, to))
  {
    hide RunsOf, Covers, NeighboursDiffer, Add, CountedDiff;
    var compressed := Compress(StatusPairs(olds, news, from, to), from);
    d := DiffSummary(0, 0, 0, 0, 0);
    assert d == SummedRuns(compressed[..0]);
    hide SummedRuns;
    var i := 0;
    while i < |compressed|
      invariant i <= |compressed|
      invariant d == SummedRuns(compressed[..i])
    {
      var r := compressed[i];
      OneMoreRun(compressed, i);
      d := AddRange(d, r.last - r.first + 1, r.value.0, r.value.1);
      i := i + 1;
    }
    assert compressed[..i] == compressed;
    SummedIsCounted(compressed, StatusPairs(olds, news, from, to), from);
  }

  lemma {:induction false} GainsBalance(pairs: seq<(int, int)>, olds: seq<int>, news: seq<int>)
    requires |olds| == |news| == |pairs|
    requires forall i :: 0 <= i < |pairs| ==> pairs[i] == (olds[i], news[i])
    ensures var d := CountedDiff(pairs);
            && d.gainedVisible - d.lostVisible == Sum(news, VisibleFlag) - Sum(olds, VisibleFlag)
            && d.gainedFrozen - d.lostFrozen == Sum(news, FrozenFlag) - Sum(olds, FrozenFlag)
  {
    if |pairs| > 0 {
      var n := |pairs| - 1;
      GainsBalance(pairs[..n], olds[..n], news[..n]);
    }
  }

  /** Gained minus lost is new minus old, for both bits; pages outside a file or on a corrupt page count
      as neither visible nor frozen. */
  lemma DiffSummaryBalances(olds: seq<VmPage>, news: seq<VmPage>, from: nat, to: int)
    requires Loaded(olds) && Loaded(news)
    ensures var d := CountedDiff(StatusPairs(olds, news, from, to));
            var o := Statuses(olds, from, to); var n := Statuses(news, from, to);
            && d.gainedVisible - d.lostVisible == Sum(n, VisibleFlag) - Sum(o, VisibleFlag)
            && d.gainedFrozen - d.lostFrozen == Sum(n, FrozenFlag) - Sum(o, FrozenFlag)
  {
    GainsBalance(StatusPairs(olds, news, from, to), Statuses(olds, from, to), Statuses(news, from, to));
  }

  lemma {:induction false} SwapPairs(a: seq<(int, int)>, b: seq<(int, int)>)
    requires |a| == |b| && forall i :: 0 <= i < |a| ==> b[i] == (a[i].1, a[i].0)
    ensures var d := CountedDiff(a);
            CountedDiff(b) == DiffSummary(d.changed, d.lostVisible, d.gainedVisible, d.lostFrozen, d.gainedFrozen)
  {
    if |a| > 0 {
      SwapPairs(a[..|a| - 1], b[..|a| - 1]);
    }
  }

  /** Exchanging the files exchanges gained and lost. */
  lemma DiffIsAntisymmetric(olds: seq<VmPage>, news: seq<VmPage>, from: nat, to: int)
    requires Loaded(olds) && Loaded(news)
    ensures var d := CountedDiff(StatusPairs(olds, news, from, to));
            CountedDiff(StatusPairs(news, olds, from, to))
            == DiffSummary(d.changed, d.lostVisible, d.gainedVisible, d.lostFrozen, d.gainedFrozen)
  {
    SwapPairs(StatusPairs(olds, news, from, to), StatusPairs(news, olds, from, to));
  }

  // ---------------------------------------------------------------- what the bits mean

  /** What the server records of a heap page. */
  datatype HeapFlags = HeapFlags(visible: bool, frozen: bool)

  const NO_FLAGS: HeapFlags := HeapFlags(false, false)

  /** The flags of heap page hp in a map of `total` pages; nothing is recorded past its end. */
  function FlagsAt(flags: seq<HeapFlags>, total: nat, hp: nat): HeapFlags {
    if hp < |flags| && hp < total * 32672 then flags[hp] else NO_FLAGS
  }

  /** The map the server writes: the low bit of a status is all-visible, the high bit all-frozen. */
  function StatusesOf(flags: seq<HeapFlags>): (statuses: seq<int>)
    ensures |statuses| == |flags| && AreStatuses(statuses)
  {
    seq(|flags|, i requires 0 <= i < |flags| =>
      (if flags[i].visible then 1 else 0) + (if flags[i].frozen then 2 else 0))
  }

  function MapOf(flags: seq<HeapFlags>, total: nat): (pages: seq<VmPage>)
    ensures Loaded(pages) && |pages| == total
  {
    PackFile(StatusesOf(flags), total)
  }

  /** The analyser's bit tests on a looked-up status are the recorded flags. */
  lemma FlagsAreRead(flags: seq<HeapFlags>, total: nat, hp: nat)
    ensures var status := HeapPageStatus(MapOf(flags, total), hp);
            && (HasVisible(status) <==> FlagsAt(flags, total, hp).visible)
            && (HasFrozen(status) <==> FlagsAt(flags, total, hp).frozen)
            && (status == -1 <==> hp >= total * 32672)
  {
    hide PackFile, HeapPageStatus;
    PackedStatusIsFound(StatusesOf(flags), total, hp);
  }

  function RangeLength(from: nat, to: int): nat {
    if to < from then 0 else to - from + 1
  }

  /** The summary's two numbers count the heap pages of the range recorded as visible, and as frozen. */
  lemma {:induction false} SummaryCountsFlags(flags: seq<HeapFlags>, total: nat, from: nat, to: int)
    ensures var s := Statuses(MapOf(flags, total), from, to);
            var n := RangeLength(from, to);
            && Sum(s, VisibleFlag) == CountIf(n, (k: nat) => FlagsAt(flags, total, from + k).visible)
            && Sum(s, FrozenFlag) == CountIf(n, (k: nat) => FlagsAt(flags, total, from + k).frozen)
    decreases RangeLength(from, to)
  {
    hide MapOf, FlagsAt, HasVisible, HasFrozen, HeapPageStatus;
    var pages := MapOf(flags, total);
    var s := Statuses(pages, from, to);
    if from <= to {
      SummaryCountsFlags(flags, total, from, to - 1);
      FlagsAreRead(flags, total, to);
      assert s[..|s| - 1] == Statuses(pages, from, to - 1);
    }
  }

  /** The filters keep exactly the heap pages not recorded as visible, and as frozen. */
  lemma FiltersReadFlags(flags: seq<HeapFlags>, total: nat, hp: nat, options: Options)
    ensures Shown(options, HeapPageStatus(MapOf(flags, total), hp))
            <==> !(options.onlyNotVisible && FlagsAt(flags, total, hp).visible)
                 && !(options.onlyNotFrozen && FlagsAt(flags, total, hp).frozen)
  {
    FlagsAreRead(flags, total, hp);
  }

  /** Changed, gained and lost count heap pages by what the two maps record. */
  lemma {:induction false} DiffCountsFlags(olds: seq<HeapFlags>, oldTotal: nat, news: seq<HeapFlags>, newTotal: nat,
                                           from: nat, to: int)
    ensures var d := CountedDiff(StatusPairs(MapOf(olds, oldTotal), MapOf(news, newTotal), from, to));
            var n := RangeLength(from, to);
            && d.gainedVisible == CountIf(n, (k: nat) => !FlagsAt(olds, oldTotal, from + k).visible
                                                  && FlagsAt(news, newTotal, from + k).visible)
            && d.lostVisible == CountIf(n, (k: nat) => FlagsAt(olds, oldTotal, from + k).visible
                                                && !FlagsAt(news, newTotal, from + k).visible)
            && d.gainedFrozen == CountIf(n, (k: nat) => !FlagsAt(olds, oldTotal, from + k).frozen
                                                 && FlagsAt(news, newTotal, from + k).frozen)
            && d.lostFrozen == CountIf(n, (k: nat) => FlagsAt(olds, oldTotal, from + k).frozen
                                               && !FlagsAt(news, newTotal, from + k).frozen)
            && d.changed == CountIf(n, (k: nat) =>
                 || FlagsAt(olds, oldTotal, from + k) != FlagsAt(news, newTotal, from + k)
                 || (from + k < oldTotal * 32672) != (from + k < newTotal * 32672))
    decreases RangeLength(from, to)
  {
    hide MapOf, FlagsAt, HasVisible, HasFrozen, HeapPageStatus;
    var o, n := MapOf(olds, oldTotal), MapOf(news, newTotal);
    var pairs := StatusPairs(o, n, from, to);
    if from <= to {
      DiffCountsFlags(olds, oldTotal, news, newTotal, from, to - 1);
      FlagsAreRead(olds, oldTotal, to);
      FlagsAreRead(news, newTotal, to);
      SameStatus(olds, oldTotal, news, newTotal, to);
      assert pairs[..|pairs| - 1] == StatusPairs(o, n, from, to - 1);
    }
  }

  /** Two looked-up statuses are equal exactly when both pages are in their maps or neither, with the same flags. */
  lemma SameStatus(olds: seq<HeapFlags>, oldTotal: nat, news: seq<HeapFlags>, newTotal: nat, hp: nat)
    ensures HeapPageStatus(MapOf(olds, oldTotal), hp) == HeapPageStatus(MapOf(news, newTotal), hp)
            <==> FlagsAt(olds, oldTotal, hp) == FlagsAt(news, newTotal, hp)
                 && (hp < oldTotal * 32672) == (hp < newTotal * 32672)
  {
    hide PackFile, HeapPageStatus;
    PackedStatusIsFound(StatusesOf(olds), oldTotal, hp);
    PackedStatusIsFound(StatusesOf(news), newTotal, hp);
  }
}
