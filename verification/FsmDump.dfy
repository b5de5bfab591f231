/** The recursive dump of a free space map against a flat pass over its pages. */
module FsmDump {
  import opened Arithmetic
  import opened Bytes
  import opened RunLength
  import opened FsmTree

  const BLCKSZ: int := 8192
  const FSM_CATEGORIES: int := 256
  const FSM_CAT_STEP: int := BLCKSZ / FSM_CATEGORIES
  // A page header of 24 bytes and one line pointer of 4 are in the way.
  const MAX_HEAP_TUPLE_SIZE: int := BLCKSZ - AlignUp(24 + 4, 8)

  function CatToBytes(cat: byte): int {
    if cat == 255 then MAX_HEAP_TUPLE_SIZE else cat * FSM_CAT_STEP
  }

  /** More bytes exactly for a higher category; with blocks of half the size the last two would tie. */
  lemma CatToBytesIsIncreasing(a: byte, b: byte)
    ensures CatToBytes(a) < CatToBytes(b) <==> a < b
    ensures CatToBytes(0) == 0 && CatToBytes(1) == 32 && CatToBytes(254) == 8128 && CatToBytes(255) == 8160
  {
  }

  // ---------------------------------------------------------------- pages

  datatype HeaderStatus = HeaderOk | WrongPageSize | InvalidHeader

  /** What fill_fsm_page_info keeps of a page; its place in the tree is Classify of its index. */
  datatype FsmPage = FsmPage(allZero: bool, status: HeaderStatus, header: Header, inner: seq<byte>, leaf: seq<byte>) {
    predicate Valid() {
      !allZero && status.HeaderOk?
    }
  }

  /** The fields diff compares: lower, upper, special, flags, version and fp_next_slot; lsn; checksum. */
  datatype Header = Header(layout: seq<nat>, lsn: nat, checksum: nat)

  predicate AllZeroes(s: seq<byte>) {
    forall i :: 0 <= i < |s| ==> s[i] == 0
  }

  /** Loaded pages: node bytes are kept of valid pages only. */
  predicate Loaded(pages: seq<FsmPage>, L: nat) {
    forall i :: 0 <= i < |pages| ==>
      && |pages[i].leaf| == L
      && (!pages[i].Valid() ==> AllZeroes(pages[i].leaf) && AllZeroes(pages[i].inner))
  }

  function LeafAvail(leaf: seq<byte>): int {
    Sum(leaf, CatToBytes)
  }

  lemma {:induction false} ZeroLeafAvail(leaf: seq<byte>)
    requires AllZeroes(leaf)
    ensures LeafAvail(leaf) == 0
  {
    if |leaf| > 0 {
      ZeroLeafAvail(leaf[..|leaf| - 1]);
    }
  }

  // ---------------------------------------------------------------- one leaf page

  /** The highest category and the first slot that has it; no slot when every category is zero. */
  ghost predicate IsFirstMax(leaf: seq<byte>, cat: int, slot: int) {
    && (forall i :: 0 <= i < |leaf| ==> leaf[i] as int <= cat)
    && (if cat == 0 then slot == -1
        else 0 <= slot < |leaf| && leaf[slot] as int == cat && forall i :: 0 <= i < slot ==> leaf[i] as int < cat)
  }

  lemma FirstMaxIsUnique(leaf: seq<byte>, c: int, s: int, d: int, t: int)
    requires IsFirstMax(leaf, c, s) && IsFirstMax(leaf, d, t) && c >= 0 && d >= 0
    ensures c == d && s == t
  {
  }

  method ComputeLeafAgg(leaf: seq<byte>) returns (maxCat: byte, maxSlot: int, totalAvail: int)
    ensures IsFirstMax(leaf, maxCat, maxSlot)
    ensures totalAvail == LeafAvail(leaf)
  {
    maxCat, maxSlot, totalAvail := 0, -1, 0;
    var i := 0;
    while i < |leaf|
      invariant i <= |leaf|
      invariant IsFirstMax(leaf[..i], maxCat, maxSlot)
      invariant totalAvail == LeafAvail(leaf[..i])
    {
      var c := leaf[i];
      assert leaf[..i + 1][..i] == leaf[..i];
      if c > maxCat {
        maxCat := c;
        maxSlot := i;
      }
      totalAvail := totalAvail + CatToBytes(c);
      i := i + 1;
    }
    assert leaf[..i] == leaf;
  }

  /** The same maximum as a function. */
  function FirstMax(leaf: seq<byte>): (m: (byte, int))
    ensures IsFirstMax(leaf, m.0, m.1)
  {
    if |leaf| == 0 then (0, -1)
    else
      var m := FirstMax(leaf[..|leaf| - 1]);
      if leaf[|leaf| - 1] > m.0 then (leaf[|leaf| - 1], |leaf| - 1) else m
  }

  // ---------------------------------------------------------------- statistics

  datatype DumpStats = DumpStats(nRoot: int, nInternal: int, nLeaf: int, nZero: int, nInvalid: int,
                                 maxCat: byte, maxPage: int, maxSlot: int,
                                 totalAvail: int, totalSlots: int, catCount: seq<int>)

  const NO_STATS: DumpStats :=
    DumpStats(0, 0, 0, 0, 0, 0, 0, 0, 0, 0, seq(FSM_CATEGORIES, _ => 0))

  function Occurrences(leaf: seq<byte>, c: byte): int {
    Sum(leaf, b => if b == c then 1 else 0)
  }

  /** A histogram after the slots of one more page. */
  function AddHistogram(counts: seq<int>, leaf: seq<byte>): (r: seq<int>)
    requires |counts| == FSM_CATEGORIES
    ensures |r| == FSM_CATEGORIES
    ensures forall c: byte :: r[c] == counts[c] + Occurrences(leaf, c)
  {
    seq(FSM_CATEGORIES, c requires 0 <= c < FSM_CATEGORIES => counts[c] + Occurrences(leaf, c))
  }

  /** The statistics after one more page, wherever it is met. */
  function Visit(stats: DumpStats, page: FsmPage, id: nat, L: nat): (r: DumpStats)
    requires |stats.catCount| == FSM_CATEGORIES && L > 0
    ensures |r.catCount| == FSM_CATEGORIES
  {
    var level := Classify(id, L).level;
    var s := if level == 0 then stats.(nRoot := stats.nRoot + 1)
             else if level == 1 then stats.(nInternal := stats.nInternal + 1)
             else stats.(nLeaf := stats.nLeaf + 1);
    if page.allZero then s.(nZero := s.nZero + 1)
    else if !page.status.HeaderOk? then s.(nInvalid := s.nInvalid + 1)
    else if level == 2 then VisitLeaf(s, page.leaf, id)
    else s
  }

  function VisitLeaf(s: DumpStats, leaf: seq<byte>, id: nat): (r: DumpStats)
    requires |s.catCount| == FSM_CATEGORIES
    ensures |r.catCount| == FSM_CATEGORIES
  {
    var (cat, slot) := FirstMax(leaf);
    var t := s.(totalAvail := s.totalAvail + LeafAvail(leaf), totalSlots := s.totalSlots + |leaf|,
                catCount := AddHistogram(s.catCount, leaf));
    if cat > s.maxCat then t.(maxCat := cat, maxPage := id, maxSlot := slot) else t
  }

  /** The flat pass: pages lo, ..., hi - 1 in file order. */
  function VisitAll(stats: DumpStats, pages: seq<FsmPage>, lo: nat, hi: nat, L: nat): (r: DumpStats)
    requires |stats.catCount| == FSM_CATEGORIES && L > 0 && lo <= hi <= |pages|
    ensures |r.catCount| == FSM_CATEGORIES
    decreases hi
  {
    if lo == hi then stats else Visit(VisitAll(stats, pages, lo, hi - 1, L), pages[hi - 1], hi - 1, L)
  }

  lemma {:induction false} VisitAllJoins(stats: DumpStats, pages: seq<FsmPage>, lo: nat, mid: nat, hi: nat, L: nat)
    requires |stats.catCount| == FSM_CATEGORIES && L > 0 && lo <= mid <= hi <= |pages|
    ensures VisitAll(VisitAll(stats, pages, lo, mid, L), pages, mid, hi, L) == VisitAll(stats, pages, lo, hi, L)
    decreases hi
  {
    if mid < hi {
      VisitAllJoins(stats, pages, lo, mid, hi - 1, L);
    }
  }

  function Interval(lo: nat, hi: nat): (s: seq<nat>)
    requires lo <= hi
    ensures |s| == hi - lo && forall i :: 0 <= i < |s| ==> s[i] == lo + i
  {
    seq(hi - lo, i requires 0 <= i => lo + i)
  }

  // ---------------------------------------------------------------- what is printed

  /** The display options: header line, node bytes, slots, one line a position instead of ranges, page range,
      free-space range, and for diff only what changed. */
  datatype Options = Options(headers: bool, internal: bool, slots: bool, expand: bool, range: Option<(int, int)>,
                             minAvail: Option<int>, maxAvail: Option<int>, onlyChanged: bool)

  predicate InPageRange(options: Options, id: int) {
    options.range.None? || options.range.value.0 <= id <= options.range.value.1
  }

  const UINT_RANGE: int := 0x1_0000_0000

  /** in_avail_range, its bounds cast to unsigned int. */
  predicate InAvailRange(options: Options, cat: byte) {
    && (options.minAvail.Some? ==> CatToBytes(cat) >= options.minAvail.value % UINT_RANGE)
    && (options.maxAvail.Some? ==> CatToBytes(cat) <= options.maxAvail.value % UINT_RANGE)
  }

  /** Category bytes as ranges, or position by position. */
  datatype Nodes = Ranges(runs: seq<Run<byte>>) | Singles(items: seq<(int, byte)>)

  function WrittenOut(nodes: Nodes): seq<(int, byte)> {
    match nodes
    case Ranges(runs) => Listings(runs)
    case Singles(items) => items
  }

  /** The node bytes of one section, and the slots of a leaf page that the free-space range leaves. */
  function NodesOf(options: Options, nodes: seq<byte>): Nodes {
    if options.expand then Singles(Positions(nodes, 0)) else Ranges(RunsOf(nodes, 0))
  }

  function SlotsOf(options: Options, leaf: seq<byte>, base: nat): Nodes {
    if options.expand then Singles(FilterListing(Positions(leaf, base), c => InAvailRange(options, c)))
    else Ranges(FilterRuns(RunsOf(leaf, base), c => InAvailRange(options, c)))
  }

  datatype LeafReport = LeafReport(maxCat: byte, maxSlot: int, totalAvail: int, slots: Option<Nodes>)

  datatype Report =
    | ZeroPage(id: nat)
    | BadPage(id: nat, status: HeaderStatus, header: bool)
    | ValidPage(id: nat, header: bool, nodes: Option<(Nodes, Nodes)>, leaf: Option<LeafReport>)

  /** What dump_node prints of one page. */
  function ReportOf(options: Options, page: FsmPage, id: nat, L: nat): Report
    requires L > 0
  {
    if page.allZero then ZeroPage(id)
    else if !page.status.HeaderOk? then BadPage(id, page.status, options.headers)
    else
      var tree := Classify(id, L);
      ValidPage(id, options.headers,
                if options.internal then Some((NodesOf(options, page.inner), NodesOf(options, page.leaf))) else None,
                if tree.level < 2 then None
                else Some(LeafReport(FirstMax(page.leaf).0, FirstMax(page.leaf).1, LeafAvail(page.leaf),
                                     if options.slots then Some(SlotsOf(options, page.leaf, tree.logPage * L))
                                     else None)))
  }

  /** The reports on those of the pages lo, ..., hi - 1 that the page range lets through. */
  function Printed(options: Options, pages: seq<FsmPage>, lo: nat, hi: nat, L: nat): seq<Report>
    requires L > 0 && lo <= hi <= |pages|
    decreases hi
  {
    if lo == hi then []
    else Printed(options, pages, lo, hi - 1, L)
         + if InPageRange(options, hi - 1) then [ReportOf(options, pages[hi - 1], hi - 1, L)] else []
  }

  lemma {:induction false} PrintedJoins(options: Options, pages: seq<FsmPage>, lo: nat, mid: nat, hi: nat, L: nat)
    requires L > 0 && lo <= mid <= hi <= |pages|
    ensures Printed(options, pages, lo, mid, L) + Printed(options, pages, mid, hi, L)
            == Printed(options, pages, lo, hi, L)
    decreases hi
  {
    hide ReportOf, InPageRange;
    if mid < hi {
      PrintedJoins(options, pages, lo, mid, hi - 1, L);
    }
  }

  /** A page range lets exactly the pages from its first to its last through, both included. */
  lemma {:induction false} PageRangeSelects(options: Options, pages: seq<FsmPage>, lo: nat, hi: nat, L: nat, id: nat,
                                            first: int, last: int)
    requires L > 0 && lo <= hi <= |pages| && lo <= id < hi && options.range == Some((first, last))
    ensures ReportOf(options, pages[id], id, L) in Printed(options, pages, lo, hi, L) <==> first <= id <= last
    ensures ReportOf(options, pages[id], id, L) in Printed(options.(range := None), pages, lo, hi, L)
    decreases hi
  {
    hide NodesOf, SlotsOf, FirstMax, Classify;
    ReportsAreNamed(options, pages, lo, hi - 1, L);
    RangeChangesNoReport(options, pages[id], id, L);
    if id < hi - 1 {
      PageRangeSelects(options, pages, lo, hi - 1, L, id, first, last);
    }
  }

  lemma RangeChangesNoReport(options: Options, page: FsmPage, id: nat, L: nat)
    requires L > 0
    ensures ReportOf(options.(range := None), page, id, L) == ReportOf(options, page, id, L)
  {
    SameKept(options.(range := None), options, RunsOf(page.leaf, Classify(id, L).logPage * L),
             Positions(page.leaf, Classify(id, L).logPage * L));
  }

  lemma {:induction false} ReportsAreNamed(options: Options, pages: seq<FsmPage>, lo: nat, hi: int, L: nat)
    requires L > 0 && lo <= hi <= |pages|
    ensures forall r :: r in Printed(options, pages, lo, hi, L) ==> lo <= r.id < hi
    decreases hi
  {
    hide NodesOf, SlotsOf, FirstMax, Classify;
    if lo < hi {
      ReportsAreNamed(options, pages, lo, hi - 1, L);
    }
  }

  /** Each display option shows its part of a page and no other. */
  lemma ReportFollowsOptions(options: Options, page: FsmPage, id: nat, L: nat)
    requires L > 0
    ensures var r := ReportOf(options, page, id, L);
            && r.id == id
            && (r.ZeroPage? <==> page.allZero)
            && (r.ValidPage? <==> !page.allZero && page.status == HeaderOk)
            && (!r.ZeroPage? ==> r.header == options.headers)
            && (r.ValidPage? ==> (r.nodes.Some? <==> options.internal))
            && (r.ValidPage? ==> (r.leaf.Some? <==> Classify(id, L).level == 2))
            && (r.ValidPage? && r.leaf.Some? ==> (r.leaf.value.slots.Some? <==> options.slots))
            && (r.BadPage? ==> r.status == page.status)
            && (r.ValidPage? && r.nodes.Some? ==>
                  r.nodes.value == (NodesOf(options, page.inner), NodesOf(options, page.leaf)))
            && (r.ValidPage? && r.leaf.Some? ==>
                  && IsFirstMax(page.leaf, r.leaf.value.maxCat, r.leaf.value.maxSlot)
                  && r.leaf.value.totalAvail == LeafAvail(page.leaf))
  {
    hide NodesOf, SlotsOf, FirstMax, Classify;
  }

  /** The free-space bounds are both included: with a category's own bytes as both, it alone is shown. */
  lemma AvailRangeIsInclusive(options: Options, c: byte, d: byte)
    ensures InAvailRange(options.(minAvail := Some(CatToBytes(c)), maxAvail := None), d) <==> d >= c
    ensures InAvailRange(options.(minAvail := None, maxAvail := Some(CatToBytes(c))), d) <==> d <= c
    ensures InAvailRange(options.(minAvail := Some(CatToBytes(c)), maxAvail := Some(CatToBytes(c))), d) <==> d == c
    ensures InAvailRange(options.(minAvail := None, maxAvail := None), d)
  {
    CatToBytesIsIncreasing(c, d);
    CatToBytesIsIncreasing(d, c);
  }

  /** Bounds wrap around an unsigned int: a negative minimum hides every slot, and what is past the range of
      the type counts from zero again. */
  lemma BoundsWrapAround(options: Options, low: int, c: byte)
    ensures -0x8000_0000 <= low < 0 ==> !InAvailRange(options.(minAvail := Some(low)), c)
    ensures InAvailRange(options.(minAvail := Some(low + 0x1_0000_0000)), c)
            <==> InAvailRange(options.(minAvail := Some(low)), c)
    ensures InAvailRange(options.(maxAvail := Some(low + 0x1_0000_0000)), c)
            <==> InAvailRange(options.(maxAvail := Some(low)), c)
  {
    hide CatToBytes;
    OneWrap(low);
    CategoryBytes(c);
  }

  lemma CategoryBytes(c: byte)
    ensures 0 <= CatToBytes(c) <= 8160
  {
  }

  lemma OneWrap(low: int)
    ensures (low + 0x1_0000_0000) % UINT_RANGE == low % UINT_RANGE
    ensures -0x8000_0000 <= low < 0 ==> low % UINT_RANGE == low + 0x1_0000_0000
  {
    if -0x8000_0000 <= low < 0 {
      Quotient(low, UINT_RANGE, -1);
    }
    var q := low / UINT_RANGE;
    assert low == UINT_RANGE * q + low % UINT_RANGE;
    assert UINT_RANGE * (q + 1) == UINT_RANGE * q + UINT_RANGE;
    Quotient(low + 0x1_0000_0000, UINT_RANGE, q + 1);
  }

  lemma {:induction false} KeptListing(l: seq<(int, byte)>, options: Options, item: (int, byte))
    ensures item in FilterListing(l, c => InAvailRange(options, c)) <==> item in l && InAvailRange(options, item.1)
  {
    if |l| > 0 {
      KeptListing(l[..|l| - 1], options, item);
      assert l == l[..|l| - 1] + [l[|l| - 1]];
    }
  }

  lemma SlotsWrittenOut(options: Options, leaf: seq<byte>, base: nat)
    ensures WrittenOut(SlotsOf(options, leaf, base))
            == FilterListing(Positions(leaf, base), c => InAvailRange(options, c))
  {
    RunsOfIsCompression(leaf, base);
    FilterCommutes(RunsOf(leaf, base), c => InAvailRange(options, c));
  }

  lemma InPositions(leaf: seq<byte>, base: nat, heapPage: nat, c: byte)
    ensures (heapPage, c) in Positions(leaf, base)
            <==> base <= heapPage < base + |leaf| && c == leaf[heapPage - base]
  {
    PositionsAt(leaf, base);
    var l := Positions(leaf, base);
    if base <= heapPage < base + |leaf| {
      assert l[heapPage - base] == (heapPage, leaf[heapPage - base]);
    }
    if (heapPage, c) in l {
      var k :| 0 <= k < |l| && l[k] == (heapPage, c);
    }
  }

  /** The slots printed of a leaf page, in either view, are its heap pages with their categories. */
  lemma SlotsShowHeapPages(options: Options, leaf: seq<byte>, id: nat, L: nat, heapPage: nat, c: byte)
    requires L > 0 && |leaf| == L && Classify(id, L).level == 2
    ensures var (page, slot) := HeapPageToSlot(heapPage, L);
            (heapPage, c) in WrittenOut(SlotsOf(options, leaf, Classify(id, L).logPage * L))
            <==> page == id && c == leaf[slot] && InAvailRange(options, c)
  {
    hide Classify, HeapPageToSlot, InAvailRange, WrittenOut, SlotsOf, Positions, FilterListing;
    var base := Classify(id, L).logPage * L;
    NonNegative(Classify(id, L).logPage, L);
    SlotsWrittenOut(options, leaf, base);
    KeptListing(Positions(leaf, base), options, (heapPage, c));
    InPositions(leaf, base, heapPage, c);
    SlotAddress(heapPage, id, L);
  }

  /** The node bytes printed, in either view, are those of the section, counted from zero. */
  lemma NodesShowPositions(options: Options, nodes: seq<byte>, i: nat, c: byte)
    ensures (i, c) in WrittenOut(NodesOf(options, nodes)) <==> i < |nodes| && c == nodes[i]
  {
    hide RunsOf, Positions;
    RunsOfIsCompression(nodes, 0);
    InPositions(nodes, 0, i, c);
  }

  /** Expanding or not shows the same positions, one by one or as ranges, whatever the free-space range. */
  lemma ExpandingShowsTheSame(options: Options, nodes: seq<byte>, base: nat)
    ensures WrittenOut(SlotsOf(options.(expand := true), nodes, base))
            == WrittenOut(SlotsOf(options.(expand := false), nodes, base))
    ensures WrittenOut(NodesOf(options.(expand := true), nodes))
            == WrittenOut(NodesOf(options.(expand := false), nodes))
    ensures SlotsOf(options, nodes, base).Singles? <==> options.expand
    ensures NodesOf(options, nodes).Singles? <==> options.expand
  {
    var keep := c => InAvailRange(options, c);
    RunsOfIsCompression(nodes, base);
    RunsOfIsCompression(nodes, 0);
    FilterCommutes(RunsOf(nodes, base), keep);
    SameKept(options.(expand := true), options, RunsOf(nodes, base), Positions(nodes, base));
    SameKept(options.(expand := false), options, RunsOf(nodes, base), Positions(nodes, base));
  }

  lemma {:induction false} SameKept(a: Options, b: Options, runs: seq<Run<byte>>, l: seq<(int, byte)>)
    requires a.minAvail == b.minAvail && a.maxAvail == b.maxAvail
    ensures FilterRuns(runs, c => InAvailRange(a, c)) == FilterRuns(runs, c => InAvailRange(b, c))
    ensures FilterListing(l, c => InAvailRange(a, c)) == FilterListing(l, c => InAvailRange(b, c))
    decreases |runs| + |l|
  {
    hide InAvailRange;
    assert forall c: byte :: InAvailRange(a, c) == InAvailRange(b, c) by {
      SameAvailRange(a, b);
    }
    if |runs| > 0 {
      SameKept(a, b, runs[..|runs| - 1], l);
    } else if |l| > 0 {
      SameKept(a, b, runs, l[..|l| - 1]);
    }
  }

  lemma SameAvailRange(a: Options, b: Options)
    requires a.minAvail == b.minAvail && a.maxAvail == b.maxAvail
    ensures forall c: byte :: InAvailRange(a, c) == InAvailRange(b, c)
  {
  }

  /** print_internal_compressed and print_internal_expanded on one section. */
  method PrintNodes(options: Options, nodes: seq<byte>) returns (printed: Nodes)
    ensures printed == NodesOf(options, nodes)
  {
    if options.expand {
      var items := [];
      var i := 0;
      assert nodes[..0] == [];
      while i < |nodes|
        invariant i <= |nodes| && items == Positions(nodes[..i], 0)
      {
        OneMorePosition(nodes, 0, i);
        items := items + [(i, nodes[i])];
        i := i + 1;
      }
      assert nodes[..i] == nodes;
      printed := Singles(items);
    } else {
      var runs := Compress(nodes, 0);
      printed := Ranges(runs);
    }
  }

  /** print_leaf_compressed and print_leaf_expanded. */
  method PrintSlots(options: Options, leaf: seq<byte>, base: nat) returns (printed: Nodes)
    ensures printed == SlotsOf(options, leaf, base)
  {
    hide InAvailRange, RunsOf;
    var i := 0;
    if options.expand {
      var items := [];
      assert leaf[..0] == [];
      while i < |leaf|
        invariant i <= |leaf|
        invariant items == FilterListing(Positions(leaf[..i], base), c => InAvailRange(options, c))
      {
        OneMorePosition(leaf, base, i);
        OneMoreKept(Positions(leaf[..i], base), (base + i, leaf[i]), options);
        if InAvailRange(options, leaf[i]) {
          items := items + [(base + i, leaf[i])];
        }
        i := i + 1;
      }
      assert leaf[..i] == leaf;
      printed := Singles(items);
    } else {
      var compressed := Compress(leaf, base);
      var runs := [];
      assert compressed[..0] == [];
      while i < |compressed|
        invariant i <= |compressed| && runs == FilterRuns(compressed[..i], c => InAvailRange(options, c))
      {
        assert compressed[..i + 1][..i] == compressed[..i];
        if InAvailRange(options, compressed[i].value) {
          runs := runs + [compressed[i]];
        }
        i := i + 1;
      }
      assert compressed[..i] == compressed;
      printed := Ranges(runs);
    }
  }

  lemma OneMoreKept(l: seq<(int, byte)>, item: (int, byte), options: Options)
    ensures FilterListing(l + [item], c => InAvailRange(options, c))
            == FilterListing(l, c => InAvailRange(options, c)) + if InAvailRange(options, item.1) then [item] else []
  {
    assert (l + [item])[..|l|] == l;
  }

  // ---------------------------------------------------------------- the recursive walk

  class Dump {
    const pages: seq<FsmPage>
    const children: seq<seq<nat>>
    const L: nat
    const options: Options
    var stats: DumpStats
    var printed: seq<Report>
    var visited: seq<nat>

    constructor (pages: seq<FsmPage>, children: seq<seq<nat>>, L: nat, options: Options)
      ensures this.pages == pages && this.children == children && this.L == L && this.options == options
      ensures stats == NO_STATS && printed == [] && visited == []
    {
      this.pages, this.children, this.L, this.options := pages, children, L, options;
      stats, printed, visited := NO_STATS, [], [];
    }

    ghost predicate Built() {
      && L > 0 && Loaded(pages, L) && |children| == |pages|
      && forall p :: 0 <= p < |pages| ==> children[p] == Kids(p, |pages|, L)
    }

    method UpdateLeafStats(page: FsmPage, id: nat) returns (maxCat: byte, maxSlot: int, totalAvail: int)
      requires |stats.catCount| == FSM_CATEGORIES
      modifies this`stats
      ensures stats == VisitLeaf(old(stats), page.leaf, id)
      ensures (maxCat, maxSlot) == FirstMax(page.leaf) && totalAvail == LeafAvail(page.leaf)
    {
      maxCat, maxSlot, totalAvail := ComputeLeafAgg(page.leaf);
      FirstMaxIsUnique(page.leaf, maxCat, maxSlot, FirstMax(page.leaf).0, FirstMax(page.leaf).1);
      var counts := stats.catCount;
      var slot := 0;
      while slot < |page.leaf|
        invariant slot <= |page.leaf| && |counts| == FSM_CATEGORIES
        invariant forall c: byte :: counts[c] == stats.catCount[c] + Occurrences(page.leaf[..slot], c)
      {
        var c := page.leaf[slot];
        assert page.leaf[..slot + 1][..slot] == page.leaf[..slot];
        counts := counts[c as int := counts[c] + 1];
        slot := slot + 1;
      }
      assert page.leaf[..slot] == page.leaf;
      assert counts == AddHistogram(stats.catCount, page.leaf);
      var before := stats;
      stats := stats.(totalAvail := stats.totalAvail + totalAvail, totalSlots := stats.totalSlots + |page.leaf|,
                      catCount := counts);
      if maxCat > before.maxCat {
        stats := stats.(maxCat := maxCat, maxPage := id, maxSlot := maxSlot);
      }
    }

    /** The part of dump_node before its children: counters, the page's own statistics, and its report. */
    method DumpPage(id: nat)
      requires Built() && id < |pages| && |stats.catCount| == FSM_CATEGORIES
      modifies this
      ensures stats == Visit(old(stats), pages[id], id, L)
      ensures visited == old(visited) + [id]
      ensures printed == old(printed) + if InPageRange(options, id) then [ReportOf(options, pages[id], id, L)] else []
    {
      hide InPageRange, VisitLeaf, FirstMax, NodesOf, SlotsOf, Classify;
      var page := pages[id];
      var tree := Classify(id, L);
      var show := InPageRange(options, id);
      visited := visited + [id];
      if tree.level == 0 {
        stats := stats.(nRoot := stats.nRoot + 1);
      } else if tree.level == 1 {
        stats := stats.(nInternal := stats.nInternal + 1);
      } else {
        stats := stats.(nLeaf := stats.nLeaf + 1);
      }
      var report;
      if page.allZero {
        stats := stats.(nZero := stats.nZero + 1);
        report := ZeroPage(id);
      } else if page.status == WrongPageSize {
        stats := stats.(nInvalid := stats.nInvalid + 1);
        report := BadPage(id, WrongPageSize, options.headers);
      } else if !page.Valid() {
        stats := stats.(nInvalid := stats.nInvalid + 1);
        report := BadPage(id, page.status, options.headers);
      } else {
        var nodes, leaf := None, None;
        if show && options.internal {
          var inner := PrintNodes(options, page.inner);
          var lower := PrintNodes(options, page.leaf);
          nodes := Some((inner, lower));
        }
        if tree.level == 2 {
          var maxCat, maxSlot, totalAvail := UpdateLeafStats(page, id);
          var slots := None;
          if show && options.slots {
            var kept := PrintSlots(options, page.leaf, tree.logPage * L);
            slots := Some(kept);
          }
          leaf := Some(LeafReport(maxCat, maxSlot, totalAvail, slots));
        }
        report := ValidPage(id, options.headers, nodes, leaf);
      }
      if show {
        printed := printed + [report];
      }
    }

    /** dump_node: the subtree of `id` is the stretch of the file up to its end, met in file order. */
    method DumpNode(id: nat)
      requires Built() && id < |pages| && |stats.catCount| == FSM_CATEGORIES
      modifies this
      ensures id < SubtreeEnd(id, |pages|, L) <= |pages|
      ensures visited == old(visited) + Interval(id, SubtreeEnd(id, |pages|, L))
      ensures printed == old(printed) + Printed(options, pages, id, SubtreeEnd(id, |pages|, L), L)
      ensures stats == VisitAll(old(stats), pages, id, SubtreeEnd(id, |pages|, L), L)
      decreases |pages| - id
    {
      hide Chained, Classify, Kids, SubtreeEnd, Visit, ReportOf, InPageRange, VisitAll, Printed, Interval;
      var n := |pages|;
      EndInFile(id, n, L);
      KidsAreChained(id, n, L);
      DumpPage(id);
      OnePage(old(stats), options, pages, id, L);
      var kids := children[id];
      var i := 0;
      ghost var at := id + 1;
      NextKid(kids, id, n, L, 0);
      while i < |kids|
        invariant i <= |kids| && id < at <= n && Built() && |stats.catCount| == FSM_CATEGORIES
        invariant at == if i < |kids| then kids[i] else SubtreeEnd(id, n, L)
        invariant visited == old(visited) + Interval(id, at)
        invariant printed == old(printed) + Printed(options, pages, id, at, L)
        invariant stats == VisitAll(old(stats), pages, id, at, L)
      {
        ghost var next := SubtreeEnd(kids[i], n, L);
        NextKid(kids, id, n, L, i + 1);
        DumpNode(kids[i]);
        IntervalsJoin(id, at, next);
        PrintedJoins(options, pages, id, at, next, L);
        VisitAllJoins(old(stats), pages, id, at, next, L);
        at := next;
        i := i + 1;
      }
    }
  }

  lemma OnePage(stats: DumpStats, options: Options, pages: seq<FsmPage>, id: nat, L: nat)
    requires |stats.catCount| == FSM_CATEGORIES && L > 0 && id < |pages|
    ensures VisitAll(stats, pages, id, id + 1, L) == Visit(stats, pages[id], id, L)
    ensures Interval(id, id + 1) == [id]
    ensures Printed(options, pages, id, id + 1, L)
            == if InPageRange(options, id) then [ReportOf(options, pages[id], id, L)] else []
  {
    hide Visit, ReportOf, InPageRange;
    assert VisitAll(stats, pages, id, id, L) == stats;
    assert Printed(options, pages, id, id, L) == [];
  }

  lemma IntervalsJoin(lo: nat, mid: nat, hi: nat)
    requires lo <= mid <= hi
    ensures Interval(lo, mid) + Interval(mid, hi) == Interval(lo, hi)
  {
  }

  lemma EndInFile(id: nat, n: nat, L: nat)
    requires L > 0 && id < n
    ensures id < SubtreeEnd(id, n, L) <= n
  {
  }

  /** The i-th child starts where the one before ends; the first right behind its parent. */
  lemma NextKid(kids: seq<nat>, p: nat, n: nat, L: nat, i: nat)
    requires L > 0 && Chained(kids, p, n, L) && i <= |kids|
    ensures (if i == 0 then p + 1 else SubtreeEnd(kids[i - 1], n, L))
            == if i < |kids| then kids[i] else SubtreeEnd(p, n, L)
  {
    hide SubtreeEnd;
    if 0 < i < |kids| {
      assert SubtreeEnd(kids[i - 1], n, L) == kids[(i - 1) + 1];
    }
  }

  // ---------------------------------------------------------------- the whole dump

  /** do_fsm_dump on a loaded file: the tree walk meets every page once, in file order, reports on those the
      page range lets through, and its statistics are those of a flat pass, whatever the options. */
  method DoFsmDump(pages: seq<FsmPage>, L: nat, options: Options)
    returns (stats: DumpStats, visited: seq<nat>, printed: seq<Report>)
    requires L > 0 && |pages| > 0 && Loaded(pages, L)
    ensures visited == Interval(0, |pages|)
    ensures printed == Printed(options, pages, 0, |pages|, L)
    ensures stats == VisitAll(NO_STATS, pages, 0, |pages|, L)
  {
    var children := BuildFsmChildren(|pages|, L);
    var dump := new Dump(pages, children[..], L, options);
    dump.DumpNode(0);
    stats, visited, printed := dump.stats, dump.visited, dump.printed;
  }

  /** The free space sum_leaf_avail counts on one page. */
  function PageAvail(page: FsmPage, id: nat, L: nat): int
    requires L > 0
  {
    if Classify(id, L).level == 2 && (page.allZero || page.Valid()) then LeafAvail(page.leaf) else 0
  }

  function TotalAvail(pages: seq<FsmPage>, n: nat, L: nat): int
    requires L > 0 && n <= |pages|
  {
    if n == 0 then 0 else TotalAvail(pages, n - 1, L) + PageAvail(pages[n - 1], n - 1, L)
  }

  /** sum_leaf_avail. */
  method SumLeafAvail(pages: seq<FsmPage>, L: nat) returns (total: int)
    requires L > 0
    ensures total == TotalAvail(pages, |pages|, L)
  {
    total := 0;
    var i := 0;
    while i < |pages|
      invariant i <= |pages| && total == TotalAvail(pages, i, L)
    {
      if Classify(i, L).level == 2 && (pages[i].allZero || pages[i].Valid()) {
        var maxCat, maxSlot, avail := ComputeLeafAgg(pages[i].leaf);
        total := total + avail;
      }
      i := i + 1;
    }
  }

  // ---------------------------------------------------------------- what the summary means

  predicate HasSlots(pages: seq<FsmPage>, id: nat, L: nat)
    requires L > 0
  {
    id < |pages| && Classify(id, L).level == 2 && pages[id].Valid()
  }

  function Total(counts: seq<int>): int {
    Sum(counts, c => c)
  }

  lemma {:induction false} TotalOfUpdate(counts: seq<int>, i: nat, v: int)
    requires i < |counts|
    ensures Total(counts[i := v]) == Total(counts) - counts[i] + v
  {
    var n := |counts| - 1;
    if i < n {
      TotalOfUpdate(counts[..n], i, v);
      assert counts[i := v][..n] == counts[..n][i := v];
    } else {
      assert counts[i := v][..n] == counts[..n];
    }
  }

  lemma {:induction false} HistogramTotal(counts: seq<int>, leaf: seq<byte>)
    requires |counts| == FSM_CATEGORIES
    ensures Total(AddHistogram(counts, leaf)) == Total(counts) + |leaf|
  {
    if |leaf| == 0 {
      assert AddHistogram(counts, leaf) == counts;
    } else {
      var n := |leaf| - 1;
      var c := leaf[n];
      var h := AddHistogram(counts, leaf[..n]);
      HistogramTotal(counts, leaf[..n]);
      assert AddHistogram(counts, leaf) == h[c as int := h[c] + 1];
      TotalOfUpdate(h, c, h[c] + 1);
    }
  }

  lemma {:induction false} NoCounts(n: nat)
    ensures Total(seq(n, _ => 0)) == 0
  {
    if n > 0 {
      NoCounts(n - 1);
      assert seq(n, _ => 0)[..n - 1] == seq(n - 1, _ => 0);
    }
  }

  function ZeroFlag(page: FsmPage): int { if page.allZero then 1 else 0 }

  function InvalidFlag(page: FsmPage): int { if !page.allZero && !page.status.HeaderOk? then 1 else 0 }

  /** The valid leaf pages below n. */
  function SlottedPages(pages: seq<FsmPage>, n: nat, L: nat): nat
    requires L > 0 && n <= |pages|
  {
    if n == 0 then 0 else SlottedPages(pages, n - 1, L) + if HasSlots(pages, n - 1, L) then 1 else 0
  }

  /** Each level's, the zero and the invalid pages are counted exactly, every slot of a valid leaf page once,
      and the free space is sum_leaf_avail's. */
  ghost predicate Adds(s: DumpStats, pages: seq<FsmPage>, n: nat, L: nat)
    requires L > 0 && n <= |pages|
  {
    && s.nRoot == (if n > 0 then 1 else 0) && s.nInternal == InternalPages(n, L)
    && s.nRoot + s.nInternal + s.nLeaf == n
    && s.nZero == Sum(pages[..n], ZeroFlag) && s.nInvalid == Sum(pages[..n], InvalidFlag)
    && s.totalSlots == L * SlottedPages(pages, n, L) && Total(s.catCount) == s.totalSlots
    && s.totalAvail == TotalAvail(pages, n, L)
  }

  lemma {:induction false} SummaryAddsUp(pages: seq<FsmPage>, n: nat, L: nat)
    requires L > 0 && n <= |pages| && Loaded(pages, L)
    ensures Adds(VisitAll(NO_STATS, pages, 0, n, L), pages, n, L)
  {
    hide Adds, Visit;
    if n == 0 {
      NothingAdds(pages, L);
    } else {
      SummaryAddsUp(pages, n - 1, L);
      PageAdds(VisitAll(NO_STATS, pages, 0, n - 1, L), pages, n - 1, L);
    }
  }

  lemma NothingAdds(pages: seq<FsmPage>, L: nat)
    requires L > 0
    ensures Adds(NO_STATS, pages, 0, L)
  {
    NoCounts(FSM_CATEGORIES);
  }

  lemma PageAdds(s: DumpStats, pages: seq<FsmPage>, n: nat, L: nat)
    requires L > 0 && n < |pages| && Loaded(pages, L) && |s.catCount| == FSM_CATEGORIES && Adds(s, pages, n, L)
    ensures Adds(Visit(s, pages[n], n, L), pages, n + 1, L)
  {
    hide Classify, FirstMax, InternalPages, AddHistogram, Total;
    var page := pages[n];
    LevelAndParent(n, L);
    OneMoreInternal(n, L);
    HistogramTotal(s.catCount, page.leaf);
    assert pages[..n + 1][..n] == pages[..n];
    ProductOfSum(SlottedPages(pages, n, L), 1, L);
    if page.allZero {
      ZeroLeafAvail(page.leaf);
    }
  }

  /** The reported maximum is the highest category of any slot, at the first slot that has it. */
  ghost predicate IsFileMax(s: DumpStats, pages: seq<FsmPage>, n: nat, L: nat)
    requires L > 0 && n <= |pages|
  {
    && (forall p, i :: 0 <= p < n && HasSlots(pages, p, L) && 0 <= i < |pages[p].leaf|
                       ==> pages[p].leaf[i] <= s.maxCat)
    && (s.maxCat > 0 ==>
          && 0 <= s.maxPage < n && HasSlots(pages, s.maxPage, L)
          && IsFirstMax(pages[s.maxPage].leaf, s.maxCat, s.maxSlot)
          && forall p, i :: 0 <= p < s.maxPage && HasSlots(pages, p, L) && 0 <= i < |pages[p].leaf|
                            ==> pages[p].leaf[i] < s.maxCat)
  }

  lemma {:induction false} SummaryFindsMax(pages: seq<FsmPage>, n: nat, L: nat)
    requires L > 0 && n <= |pages| && Loaded(pages, L)
    ensures IsFileMax(VisitAll(NO_STATS, pages, 0, n, L), pages, n, L)
  {
    hide Classify, FirstMax, AddHistogram;
    if n > 0 {
      SummaryFindsMax(pages, n - 1, L);
      assert IsFirstMax(pages[n - 1].leaf, FirstMax(pages[n - 1].leaf).0, FirstMax(pages[n - 1].leaf).1);
    }
  }

  /** Slots of category c on the valid leaf pages below n. */
  function CategorySlots(pages: seq<FsmPage>, n: nat, c: byte, L: nat): int
    requires L > 0 && n <= |pages|
  {
    if n == 0 then 0
    else CategorySlots(pages, n - 1, c, L) + if HasSlots(pages, n - 1, L) then Occurrences(pages[n - 1].leaf, c) else 0
  }

  /** The histogram counts every category exactly. */
  lemma {:induction false} HistogramIsExact(pages: seq<FsmPage>, n: nat, c: byte, L: nat)
    requires L > 0 && n <= |pages|
    ensures VisitAll(NO_STATS, pages, 0, n, L).catCount[c] == CategorySlots(pages, n, c, L)
  {
    hide Classify, FirstMax, Occurrences;
    if n > 0 {
      HistogramIsExact(pages, n - 1, c, L);
    }
  }
}
