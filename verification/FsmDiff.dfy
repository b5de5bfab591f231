/** Comparing two free space maps page by page: exact counts, and conservation of free space. */
module FsmDiff {
  import opened Arithmetic
  import opened Bytes
  import opened RunLength
  import opened FsmTree
  import opened FsmDump

  datatype Status = Same | Changed | Added | Removed | Empty

  function PageAt(pages: seq<FsmPage>, id: nat): Option<FsmPage> {
    if id < |pages| then Some(pages[id]) else None
  }

  function PageStatus(was: Option<FsmPage>, now: Option<FsmPage>): Status {
    var oldOk := was.Some? && was.value.Valid();
    var newOk := now.Some? && now.value.Valid();
    if !oldOk && newOk then Added
    else if oldOk && !newOk then Removed
    else if !oldOk && !newOk then Empty
    else if was.value.inner != now.value.inner || was.value.leaf != now.value.leaf then Changed
    else Same
  }

  function Pairs(a: seq<byte>, b: seq<byte>): (p: seq<(byte, byte)>)
    requires |a| == |b|
    ensures |p| == |a| && forall i :: 0 <= i < |p| ==> p[i] == (a[i], b[i])
  {
    seq(|a|, i requires 0 <= i < |a| => (a[i], b[i]))
  }

  function Differs(p: (byte, byte)): int { if p.0 != p.1 then 1 else 0 }

  function Up(p: (byte, byte)): int { if p.1 > p.0 then 1 else 0 }

  function Down(p: (byte, byte)): int { if p.1 < p.0 then 1 else 0 }

  function Delta(p: (byte, byte)): int { CatToBytes(p.1) - CatToBytes(p.0) }

  // ---------------------------------------------------------------- what one page adds

  datatype LeafDelta = LeafDelta(heapStart: int, heapEnd: int, delta: int)

  /** The records print_leaf_diff pushes for the ranges of a page. */
  function RangeDeltas(runs: seq<Run<(byte, byte)>>): seq<LeafDelta> {
    if |runs| == 0 then []
    else
      var r := runs[|runs| - 1];
      RangeDeltas(runs[..|runs| - 1])
      + if r.value.0 == r.value.1 then [] else [LeafDelta(r.first, r.last, Delta(r.value))]
  }

  function PageDeltas(was: FsmPage, now: FsmPage, id: nat, L: nat): seq<LeafDelta>
    requires L > 0 && |was.leaf| == |now.leaf|
  {
    RangeDeltas(RunsOf(Pairs(was.leaf, now.leaf), Classify(id, L).logPage * L))
  }

  /** Run length times delta, over all records. */
  function DeltaSum(deltas: seq<LeafDelta>): int {
    if |deltas| == 0 then 0
    else
      var d := deltas[|deltas| - 1];
      DeltaSum(deltas[..|deltas| - 1]) + (d.heapEnd - d.heapStart + 1) * d.delta
  }

  lemma {:induction false} DeltaSumJoins(a: seq<LeafDelta>, b: seq<LeafDelta>)
    ensures DeltaSum(a + b) == DeltaSum(a) + DeltaSum(b)
  {
    if |b| == 0 {
      assert a + b == a;
    } else {
      DeltaSumJoins(a, b[..|b| - 1]);
      assert (a + b)[..|a + b| - 1] == a + b[..|b| - 1];
    }
  }

  lemma {:induction false} RangeDeltaSum(runs: seq<Run<(byte, byte)>>)
    ensures DeltaSum(RangeDeltas(runs)) == SumRuns(runs, Delta)
  {
    if |runs| > 0 {
      var n := |runs| - 1;
      var r := runs[n];
      RangeDeltaSum(runs[..n]);
      if r.value.0 == r.value.1 {
        assert (r.last - r.first + 1) * Delta(r.value) == 0;
        assert RangeDeltas(runs) == RangeDeltas(runs[..n]);
      } else {
        var front := RangeDeltas(runs[..n]);
        assert RangeDeltas(runs)[..|front|] == front;
      }
    }
  }

  lemma {:induction false} PairDeltaSum(a: seq<byte>, b: seq<byte>)
    requires |a| == |b|
    ensures Sum(Pairs(a, b), Delta) == LeafAvail(b) - LeafAvail(a)
  {
    if |a| > 0 {
      var n := |a| - 1;
      PairDeltaSum(a[..n], b[..n]);
      assert Pairs(a, b)[..n] == Pairs(a[..n], b[..n]);
    }
  }

  /** A page's records add up to the difference of its free space. */
  lemma PageDeltasAddUp(was: FsmPage, now: FsmPage, id: nat, L: nat)
    requires L > 0 && |was.leaf| == |now.leaf|
    ensures DeltaSum(PageDeltas(was, now, id, L)) == LeafAvail(now.leaf) - LeafAvail(was.leaf)
  {
    var pairs := Pairs(was.leaf, now.leaf);
    var from := Classify(id, L).logPage * L;
    RunsOfIsCompression(pairs, from);
    SumOverRuns(RunsOf(pairs, from), pairs, from, Delta);
    RangeDeltaSum(RunsOf(pairs, from));
    PairDeltaSum(was.leaf, now.leaf);
  }

  datatype DiffStats = DiffStats(pagesChanged: int, headersChanged: int, headersStructural: int,
                                 slotsChanged: int, slotsUp: int, slotsDown: int, pagesAdded: int, pagesRemoved: int)

  const NO_DIFF: DiffStats := DiffStats(0, 0, 0, 0, 0, 0, 0, 0)

  /** Whether diff_node prints a line for a page. */
  predicate IsShown(options: Options, id: nat, status: Status) {
    InPageRange(options, id) && !(options.onlyChanged && (status == Same || status == Empty))
  }

  /** The lines printed for pages lo, ..., hi - 1. */
  function Lines(options: Options, olds: seq<FsmPage>, news: seq<FsmPage>, lo: nat, hi: nat): seq<(nat, Status)>
    requires lo <= hi
    decreases hi
  {
    if lo == hi then []
    else
      var status := PageStatus(PageAt(olds, hi - 1), PageAt(news, hi - 1));
      Lines(options, olds, news, lo, hi - 1) + if IsShown(options, hi - 1, status) then [(hi - 1, status)] else []
  }

  lemma {:induction false} LinesJoin(options: Options, olds: seq<FsmPage>, news: seq<FsmPage>, lo: nat, mid: nat,
                                     hi: nat)
    requires lo <= mid <= hi
    ensures Lines(options, olds, news, lo, mid) + Lines(options, olds, news, mid, hi)
            == Lines(options, olds, news, lo, hi)
    decreases hi
  {
    hide PageStatus, IsShown;
    if mid < hi {
      LinesJoin(options, olds, news, lo, mid, hi - 1);
    }
  }

  /** Counts over the slots of two pages, position by position. */
  function AddSlots(s: DiffStats, pairs: seq<(byte, byte)>): DiffStats {
    s.(slotsChanged := s.slotsChanged + Sum(pairs, Differs), slotsUp := s.slotsUp + Sum(pairs, Up),
       slotsDown := s.slotsDown + Sum(pairs, Down))
  }

  function AddHeader(s: DiffStats, a: Header, b: Header): DiffStats {
    var structural := a.layout != b.layout;
    if structural then s.(headersChanged := s.headersChanged + 1, headersStructural := s.headersStructural + 1)
    else if a.lsn != b.lsn || a.checksum != b.checksum then s.(headersChanged := s.headersChanged + 1)
    else s
  }

  predicate Comparable(was: Option<FsmPage>, now: Option<FsmPage>) {
    was.Some? && now.Some? ==> |was.value.leaf| == |now.value.leaf| && |was.value.inner| == |now.value.inner|
  }

  /** The statistics after one more page. */
  function VisitPair(s: DiffStats, was: Option<FsmPage>, now: Option<FsmPage>, showInternal: bool): DiffStats
    requires Comparable(was, now)
  {
    match PageStatus(was, now)
    case Added => s.(pagesAdded := s.pagesAdded + 1)
    case Removed => s.(pagesRemoved := s.pagesRemoved + 1)
    case Changed =>
      var t := AddHeader(s.(pagesChanged := s.pagesChanged + 1), was.value.header, now.value.header);
      var u := if showInternal then AddSlots(t, Pairs(was.value.inner, now.value.inner)) else t;
      AddSlots(u, Pairs(was.value.leaf, now.value.leaf))
    case _ => s
  }

  function PairDeltas(was: Option<FsmPage>, now: Option<FsmPage>, id: nat, L: nat): seq<LeafDelta>
    requires L > 0 && Comparable(was, now)
  {
    if PageStatus(was, now) == Changed then PageDeltas(was.value, now.value, id, L) else []
  }

  ghost predicate Matched(olds: seq<FsmPage>, news: seq<FsmPage>, L: nat) {
    && L > 0 && Loaded(olds, L) && Loaded(news, L)
    && forall id: nat :: Comparable(PageAt(olds, id), PageAt(news, id))
  }

  /** The flat pass over pages lo, ..., hi - 1 of both files. */
  function VisitPairs(s: DiffStats, olds: seq<FsmPage>, news: seq<FsmPage>, lo: nat, hi: nat, L: nat,
                      showInternal: bool): DiffStats
    requires lo <= hi && forall id: nat :: Comparable(PageAt(olds, id), PageAt(news, id))
    decreases hi
  {
    if lo == hi then s
    else
      assert Comparable(PageAt(olds, hi - 1), PageAt(news, hi - 1));
      VisitPair(VisitPairs(s, olds, news, lo, hi - 1, L, showInternal), PageAt(olds, hi - 1), PageAt(news, hi - 1),
                showInternal)
  }

  function AllDeltas(olds: seq<FsmPage>, news: seq<FsmPage>, lo: nat, hi: nat, L: nat): seq<LeafDelta>
    requires L > 0 && lo <= hi && forall id: nat :: Comparable(PageAt(olds, id), PageAt(news, id))
    decreases hi
  {
    if lo == hi then []
    else
      assert Comparable(PageAt(olds, hi - 1), PageAt(news, hi - 1));
      AllDeltas(olds, news, lo, hi - 1, L) + PairDeltas(PageAt(olds, hi - 1), PageAt(news, hi - 1), hi - 1, L)
  }

  lemma {:induction false} PairsJoin(s: DiffStats, olds: seq<FsmPage>, news: seq<FsmPage>, lo: nat, mid: nat, hi: nat,
                                     L: nat, showInternal: bool)
    requires lo <= mid <= hi && Matched(olds, news, L)
    ensures VisitPairs(VisitPairs(s, olds, news, lo, mid, L, showInternal), olds, news, mid, hi, L, showInternal)
            == VisitPairs(s, olds, news, lo, hi, L, showInternal)
    ensures AllDeltas(olds, news, lo, mid, L) + AllDeltas(olds, news, mid, hi, L) == AllDeltas(olds, news, lo, hi, L)
    decreases hi
  {
    hide VisitPair, PairDeltas, Comparable;
    if mid < hi {
      PairsJoin(s, olds, news, lo, mid, hi - 1, L, showInternal);
    }
  }

  // ---------------------------------------------------------------- the recursive walk

  function AddRuns(s: DiffStats, runs: seq<Run<(byte, byte)>>): DiffStats {
    s.(slotsChanged := s.slotsChanged + SumRuns(runs, Differs), slotsUp := s.slotsUp + SumRuns(runs, Up),
       slotsDown := s.slotsDown + SumRuns(runs, Down))
  }

  lemma RunsAddSlots(s: DiffStats, pairs: seq<(byte, byte)>, from: int)
    ensures AddRuns(s, RunsOf(pairs, from)) == AddSlots(s, pairs)
  {
    RunsOfIsCompression(pairs, from);
    SumOverRuns(RunsOf(pairs, from), pairs, from, Differs);
    SumOverRuns(RunsOf(pairs, from), pairs, from, Up);
    SumOverRuns(RunsOf(pairs, from), pairs, from, Down);
  }

  lemma OneMoreRun(s: DiffStats, runs: seq<Run<(byte, byte)>>, i: nat)
    requires i < |runs|
    ensures var t := AddRuns(s, runs[..i]);
            var n := runs[i].last - runs[i].first + 1;
            AddRuns(s, runs[..i + 1])
            == t.(slotsChanged := t.slotsChanged + n * Differs(runs[i].value),
                  slotsUp := t.slotsUp + n * Up(runs[i].value), slotsDown := t.slotsDown + n * Down(runs[i].value))
    ensures RangeDeltas(runs[..i + 1])
            == RangeDeltas(runs[..i])
               + if runs[i].value.0 == runs[i].value.1 then []
                 else [LeafDelta(runs[i].first, runs[i].last, Delta(runs[i].value))]
  {
    assert runs[..i + 1][..i] == runs[..i];
  }

  class Diff {
    const olds: seq<FsmPage>
    const news: seq<FsmPage>
    const children: seq<seq<nat>>
    const L: nat
    const options: Options
    var stats: DiffStats
    var deltas: seq<LeafDelta>
    var lines: seq<(nat, Status)>

    constructor (olds: seq<FsmPage>, news: seq<FsmPage>, children: seq<seq<nat>>, L: nat, options: Options)
      ensures this.olds == olds && this.news == news && this.children == children && this.L == L
      ensures this.options == options && stats == NO_DIFF && deltas == [] && lines == []
    {
      this.olds, this.news, this.children, this.L, this.options := olds, news, children, L, options;
      stats, deltas, lines := NO_DIFF, [], [];
    }

    function Pages(): nat {
      if |olds| > |news| then |olds| else |news|
    }

    ghost predicate Built() {
      && Matched(olds, news, L) && |children| == Pages()
      && forall p :: 0 <= p < Pages() ==> children[p] == Kids(p, Pages(), L)
    }

    method PrintInternalDiff(was: FsmPage, now: FsmPage)
      requires |was.inner| == |now.inner|
      modifies this`stats
      ensures stats == AddSlots(old(stats), Pairs(was.inner, now.inner))
    {
      hide RunsOf, AddRuns, RangeDeltas;
      var compressed := Compress(Pairs(was.inner, now.inner), 0);
      RunsAddSlots(stats, Pairs(was.inner, now.inner), 0);
      NoRuns(stats);
      assert compressed[..0] == [];
      var i := 0;
      while i < |compressed|
        invariant i <= |compressed| && stats == AddRuns(old(stats), compressed[..i])
      {
        OneMoreRun(old(stats), compressed, i);
        var r := compressed[i];
        i := i + 1;
        if r.value.0 == r.value.1 {
          continue;
        }
        var n := r.last - r.first + 1;
        stats := stats.(slotsChanged := stats.slotsChanged + n);
        if r.value.1 > r.value.0 {
          stats := stats.(slotsUp := stats.slotsUp + n);
        } else {
          stats := stats.(slotsDown := stats.slotsDown + n);
        }
      }
      assert compressed[..i] == compressed;
    }

    method PrintLeafDiff(was: FsmPage, now: FsmPage, id: nat)
      requires L > 0 && |was.leaf| == |now.leaf|
      modifies this`stats, this`deltas
      ensures stats == AddSlots(old(stats), Pairs(was.leaf, now.leaf))
      ensures deltas == old(deltas) + PageDeltas(was, now, id, L)
    {
      hide RunsOf, AddRuns, RangeDeltas, Classify;
      var base := Classify(id, L).logPage * L;
      var compressed := Compress(Pairs(was.leaf, now.leaf), base);
      RunsAddSlots(stats, Pairs(was.leaf, now.leaf), base);
      NoRuns(stats);
      assert compressed[..0] == [];
      var i := 0;
      while i < |compressed|
        invariant i <= |compressed| && stats == AddRuns(old(stats), compressed[..i])
        invariant deltas == old(deltas) + RangeDeltas(compressed[..i])
      {
        OneMoreRun(old(stats), compressed, i);
        var r := compressed[i];
        i := i + 1;
        if r.value.0 == r.value.1 {
          continue;
        }
        var n := r.last - r.first + 1;
        var ob, nb := CatToBytes(r.value.0), CatToBytes(r.value.1);
        CatToBytesIsIncreasing(r.value.0, r.value.1);
        stats := stats.(slotsChanged := stats.slotsChanged + n);
        if nb > ob {
          stats := stats.(slotsUp := stats.slotsUp + n);
        } else {
          stats := stats.(slotsDown := stats.slotsDown + n);
        }
        deltas := deltas + [LeafDelta(r.first, r.last, nb - ob)];
      }
      assert compressed[..i] == compressed;
    }

    method ReportChangedPage(was: FsmPage, now: FsmPage, id: nat)
      requires L > 0 && |was.leaf| == |now.leaf| && |was.inner| == |now.inner|
      requires PageStatus(Some(was), Some(now)) == Changed
      modifies this`stats, this`deltas
      ensures stats == VisitPair(old(stats), Some(was), Some(now), options.internal)
      ensures deltas == old(deltas) + PageDeltas(was, now, id, L)
    {
      hide PageDeltas, AddSlots, Pairs;
      stats := stats.(pagesChanged := stats.pagesChanged + 1);
      var structural := was.header.layout != now.header.layout;
      if structural || was.header.lsn != now.header.lsn || was.header.checksum != now.header.checksum {
        stats := stats.(headersChanged := stats.headersChanged + 1);
        if structural {
          stats := stats.(headersStructural := stats.headersStructural + 1);
        }
      }
      if options.internal {
        PrintInternalDiff(was, now);
      }
      PrintLeafDiff(was, now, id);
    }

    /** The part of diff_node before its children. */
    method DiffApplyStatus(id: nat)
      requires Built()
      modifies this`stats, this`deltas
      ensures Comparable(PageAt(olds, id), PageAt(news, id))
      ensures stats == VisitPair(old(stats), PageAt(olds, id), PageAt(news, id), options.internal)
      ensures deltas == old(deltas) + PairDeltas(PageAt(olds, id), PageAt(news, id), id, L)
    {
      var was, now := PageAt(olds, id), PageAt(news, id);
      assert Comparable(was, now);
      match PageStatus(was, now)
      case Added => stats := stats.(pagesAdded := stats.pagesAdded + 1);
      case Removed => stats := stats.(pagesRemoved := stats.pagesRemoved + 1);
      case Changed => ReportChangedPage(was.value, now.value, id);
      case _ =>
    }

    method DiffPrintStatusLine(id: nat)
      modifies this`lines
      ensures lines == old(lines) + Lines(options, olds, news, id, id + 1)
    {
      var status := PageStatus(PageAt(olds, id), PageAt(news, id));
      assert Lines(options, olds, news, id, id) == [];
      if InPageRange(options, id) && !(options.onlyChanged && (status == Same || status == Empty)) {
        lines := lines + [(id, status)];
      }
    }

    /** diff_node and diff_recurse_children. */
    method DiffNode(id: nat)
      requires Built() && id < Pages()
      modifies this
      ensures id < SubtreeEnd(id, Pages(), L) <= Pages()
      ensures stats == VisitPairs(old(stats), olds, news, id, SubtreeEnd(id, Pages(), L), L, options.internal)
      ensures deltas == old(deltas) + AllDeltas(olds, news, id, SubtreeEnd(id, Pages(), L), L)
      ensures lines == old(lines) + Lines(options, olds, news, id, SubtreeEnd(id, Pages(), L))
      decreases Pages() - id
    {
      hide Chained, Classify, Kids, SubtreeEnd, VisitPair, PairDeltas, Comparable, Lines;
      var n := Pages();
      EndInFile(id, n, L);
      KidsAreChained(id, n, L);
      OnePair(stats, olds, news, id, L, options.internal);
      DiffPrintStatusLine(id);
      DiffApplyStatus(id);
      var kids := children[id];
      var i := 0;
      ghost var at := id + 1;
      NextKid(kids, id, n, L, 0);
      while i < |kids|
        invariant i <= |kids| && id < at <= n && Built()
        invariant at == if i < |kids| then kids[i] else SubtreeEnd(id, n, L)
        invariant stats == VisitPairs(old(stats), olds, news, id, at, L, options.internal)
        invariant deltas == old(deltas) + AllDeltas(olds, news, id, at, L)
        invariant lines == old(lines) + Lines(options, olds, news, id, at)
      {
        ghost var next := SubtreeEnd(kids[i], n, L);
        NextKid(kids, id, n, L, i + 1);
        DiffNode(kids[i]);
        PairsJoin(old(stats), olds, news, id, at, next, L, options.internal);
        LinesJoin(options, olds, news, id, at, next);
        at := next;
        i := i + 1;
      }
    }
  }

  lemma NoRuns(s: DiffStats)
    ensures AddRuns(s, []) == s && RangeDeltas([]) == []
  {
  }

  lemma OnePair(s: DiffStats, olds: seq<FsmPage>, news: seq<FsmPage>, id: nat, L: nat, showInternal: bool)
    requires Matched(olds, news, L)
    ensures Comparable(PageAt(olds, id), PageAt(news, id))
    ensures VisitPairs(s, olds, news, id, id + 1, L, showInternal)
            == VisitPair(s, PageAt(olds, id), PageAt(news, id), showInternal)
    ensures AllDeltas(olds, news, id, id + 1, L) == PairDeltas(PageAt(olds, id), PageAt(news, id), id, L)
  {
    hide VisitPair, PairDeltas, Comparable;
    assert Comparable(PageAt(olds, id), PageAt(news, id));
    assert VisitPairs(s, olds, news, id, id, L, showInternal) == s;
    assert AllDeltas(olds, news, id, id, L) == [];
  }

  /** do_fsm_diff on two loaded files: the tree walk is the flat comparison of all pages of the longer file. */
  method DoFsmDiff(olds: seq<FsmPage>, news: seq<FsmPage>, L: nat, options: Options)
    returns (stats: DiffStats, deltas: seq<LeafDelta>, lines: seq<(nat, Status)>, oldTotal: int, newTotal: int)
    requires Matched(olds, news, L) && |olds| > 0 && |news| > 0
    ensures var n := if |olds| > |news| then |olds| else |news|;
            && stats == VisitPairs(NO_DIFF, olds, news, 0, n, L, options.internal)
            && deltas == AllDeltas(olds, news, 0, n, L)
            && lines == Lines(options, olds, news, 0, n)
    ensures oldTotal == TotalAvail(olds, |olds|, L) && newTotal == TotalAvail(news, |news|, L)
  {
    var total := if |olds| > |news| then |olds| else |news|;
    var children := BuildFsmChildren(total, L);
    var diff := new Diff(olds, news, children[..], L, options);
    diff.DiffNode(0);
    stats, deltas, lines := diff.stats, diff.deltas, diff.lines;
    oldTotal := SumLeafAvail(olds, L);
    newTotal := SumLeafAvail(news, L);
  }

  // ---------------------------------------------------------------- conservation

  /** Free space of a page that may lie past the end of its file. */
  function AvailAt(pages: seq<FsmPage>, id: nat, L: nat): int
    requires L > 0
  {
    if id < |pages| then PageAvail(pages[id], id, L) else 0
  }

  /** What the diff explains of a leaf page: its records, or the whole of an added or removed page. */
  function Explained(was: Option<FsmPage>, now: Option<FsmPage>, id: nat, L: nat): int
    requires L > 0 && Comparable(was, now)
  {
    if Classify(id, L).level < 2 then 0
    else
      match PageStatus(was, now)
      case Changed => DeltaSum(PageDeltas(was.value, now.value, id, L))
      case Added => LeafAvail(now.value.leaf)
      case Removed => -LeafAvail(was.value.leaf)
      case _ => 0
  }

  function AllExplained(olds: seq<FsmPage>, news: seq<FsmPage>, n: nat, L: nat): int
    requires L > 0 && forall id: nat :: Comparable(PageAt(olds, id), PageAt(news, id))
  {
    if n == 0 then 0
    else
      assert Comparable(PageAt(olds, n - 1), PageAt(news, n - 1));
      AllExplained(olds, news, n - 1, L) + Explained(PageAt(olds, n - 1), PageAt(news, n - 1), n - 1, L)
  }

  lemma PageIsExplained(olds: seq<FsmPage>, news: seq<FsmPage>, id: nat, L: nat)
    requires Matched(olds, news, L)
    ensures Comparable(PageAt(olds, id), PageAt(news, id))
    ensures AvailAt(news, id, L) - AvailAt(olds, id, L) == Explained(PageAt(olds, id), PageAt(news, id), id, L)
  {
    hide Classify, PageDeltas;
    var was, now := PageAt(olds, id), PageAt(news, id);
    assert Comparable(was, now);
    if was.Some? && !was.value.Valid() {
      ZeroLeafAvail(was.value.leaf);
    }
    if now.Some? && !now.value.Valid() {
      ZeroLeafAvail(now.value.leaf);
    }
    if PageStatus(was, now) == Changed {
      PageDeltasAddUp(was.value, now.value, id, L);
    }
  }

  function TotalUpTo(pages: seq<FsmPage>, n: nat, L: nat): int
    requires L > 0
  {
    if n == 0 then 0 else TotalUpTo(pages, n - 1, L) + AvailAt(pages, n - 1, L)
  }

  lemma {:induction false} TotalUpToEnd(pages: seq<FsmPage>, n: nat, L: nat)
    requires L > 0
    ensures TotalUpTo(pages, n, L) == TotalAvail(pages, if n <= |pages| then n else |pages|, L)
  {
    if n > 0 {
      TotalUpToEnd(pages, n - 1, L);
    }
  }

  lemma {:induction false} PrefixIsExplained(olds: seq<FsmPage>, news: seq<FsmPage>, n: nat, L: nat)
    requires Matched(olds, news, L)
    ensures TotalUpTo(news, n, L) - TotalUpTo(olds, n, L) == AllExplained(olds, news, n, L)
  {
    hide Explained, AvailAt, Comparable;
    if n > 0 {
      PrefixIsExplained(olds, news, n - 1, L);
      PageIsExplained(olds, news, n - 1, L);
    }
  }

  /** New total minus old total is what the changed leaf pages' records, the added and the removed leaf
      pages account for. */
  lemma DiffConservesFreeSpace(olds: seq<FsmPage>, news: seq<FsmPage>, L: nat)
    requires Matched(olds, news, L)
    ensures var n := if |olds| > |news| then |olds| else |news|;
            TotalAvail(news, |news|, L) - TotalAvail(olds, |olds|, L) == AllExplained(olds, news, n, L)
  {
    var n := if |olds| > |news| then |olds| else |news|;
    TotalUpToEnd(olds, n, L);
    TotalUpToEnd(news, n, L);
    PrefixIsExplained(olds, news, n, L);
  }

  // ---------------------------------------------------------------- records of pages above the leaves

  /** What the records of the root and the internal pages add up to; their slots are no heap pages. */
  function UpperDeltas(olds: seq<FsmPage>, news: seq<FsmPage>, n: nat, L: nat): int
    requires L > 0 && forall id: nat :: Comparable(PageAt(olds, id), PageAt(news, id))
  {
    if n == 0 then 0
    else
      assert Comparable(PageAt(olds, n - 1), PageAt(news, n - 1));
      UpperDeltas(olds, news, n - 1, L)
      + if Classify(n - 1, L).level == 2 then 0
        else DeltaSum(PairDeltas(PageAt(olds, n - 1), PageAt(news, n - 1), n - 1, L))
  }

  predicate IsUpper(olds: seq<FsmPage>, news: seq<FsmPage>, id: nat, L: nat)
    requires L > 0
  {
    Classify(id, L).level < 2 && id < |olds| && id < |news| && olds[id].Valid() && news[id].Valid()
  }

  /** How much more the leaf halves of the root and internal pages valid in both files add up to in the new. */
  function UpperChange(olds: seq<FsmPage>, news: seq<FsmPage>, n: nat, L: nat): int
    requires L > 0
  {
    if n == 0 then 0
    else
      UpperChange(olds, news, n - 1, L)
      + if IsUpper(olds, news, n - 1, L) then LeafAvail(news[n - 1].leaf) - LeafAvail(olds[n - 1].leaf) else 0
  }

  lemma {:induction false} UpperDeltasAreChange(olds: seq<FsmPage>, news: seq<FsmPage>, n: nat, L: nat)
    requires Matched(olds, news, L)
    ensures UpperDeltas(olds, news, n, L) == UpperChange(olds, news, n, L)
  {
    hide Classify, PageDeltas, LeafAvail, Loaded;
    if n > 0 {
      var was, now := PageAt(olds, n - 1), PageAt(news, n - 1);
      assert Comparable(was, now);
      UpperDeltasAreChange(olds, news, n - 1, L);
      if PageStatus(was, now) == Changed {
        PageDeltasAddUp(was.value, now.value, n - 1, L);
      }
    }
  }

  /** Added minus removed leaf pages. */
  function AddedAvail(olds: seq<FsmPage>, news: seq<FsmPage>, n: nat, L: nat): int
    requires L > 0
  {
    if n == 0 then 0
    else
      var id := n - 1;
      AddedAvail(olds, news, n - 1, L)
      + if Classify(id, L).level < 2 then 0
        else match PageStatus(PageAt(olds, id), PageAt(news, id))
             case Added => LeafAvail(news[id].leaf)
             case Removed => -LeafAvail(olds[id].leaf)
             case _ => 0
  }

  lemma {:induction false} DeltasSplit(olds: seq<FsmPage>, news: seq<FsmPage>, n: nat, L: nat)
    requires Matched(olds, news, L)
    ensures DeltaSum(AllDeltas(olds, news, 0, n, L)) + AddedAvail(olds, news, n, L)
            == AllExplained(olds, news, n, L) + UpperDeltas(olds, news, n, L)
  {
    hide Classify, PageDeltas;
    if n > 0 {
      assert Comparable(PageAt(olds, n - 1), PageAt(news, n - 1));
      DeltasSplit(olds, news, n - 1, L);
      DeltaSumJoins(AllDeltas(olds, news, 0, n - 1, L), PairDeltas(PageAt(olds, n - 1), PageAt(news, n - 1), n - 1, L));
    }
  }

  /** The sum over all records is the change of free space exactly when the leaf halves of the root and
      internal pages valid in both files add up to the same in both. */
  lemma AllRecordsConserveExactly(olds: seq<FsmPage>, news: seq<FsmPage>, L: nat)
    requires Matched(olds, news, L)
    ensures var n := if |olds| > |news| then |olds| else |news|;
            DeltaSum(AllDeltas(olds, news, 0, n, L)) + AddedAvail(olds, news, n, L)
            == TotalAvail(news, |news|, L) - TotalAvail(olds, |olds|, L)
            <==> UpperChange(olds, news, n, L) == 0
  {
    var n := if |olds| > |news| then |olds| else |news|;
    DiffConservesFreeSpace(olds, news, L);
    DeltasSplit(olds, news, n, L);
    UpperDeltasAreChange(olds, news, n, L);
  }

  function FirstSlotOne(L: nat): (leaf: seq<byte>)
    requires L > 0
    ensures |leaf| == L
  {
    [1] + Zeros(L - 1)
  }

  lemma {:induction false} FirstSlotAvail(L: nat)
    requires L > 0
    ensures LeafAvail(FirstSlotOne(L)) == CatToBytes(1)
  {
    var leaf := FirstSlotOne(L);
    if L == 1 {
      assert leaf[..0] == [];
      assert LeafAvail(leaf) == LeafAvail([]) + CatToBytes(1);
    } else {
      FirstSlotAvail(L - 1);
      assert leaf[..L - 1] == FirstSlotOne(L - 1);
      assert leaf[L - 1] == 0;
    }
  }

  /** They need not: a root whose first slot rises from category 0 to 1 leaves a record of 32 bytes, whatever
      its header and inner nodes, and no free space has changed. */
  lemma RootLeavesARecord(was: FsmPage, now: FsmPage, L: nat)
    requires L > 0 && was.Valid() && now.Valid() && |was.inner| == |now.inner|
    requires was.leaf == Zeros(L) && now.leaf == FirstSlotOne(L)
    ensures Matched([was], [now], L)
    ensures DeltaSum(AllDeltas([was], [now], 0, 1, L)) == 32
    ensures TotalAvail([now], 1, L) == TotalAvail([was], 1, L) && AddedAvail([was], [now], 1, L) == 0
    ensures UpperChange([was], [now], 1, L) == 32
  {
    hide Matched, Comparable, PageStatus, PageDeltas, DeltaSum, LeafAvail, TotalAvail, AddedAvail, UpperChange,
      AllDeltas, FirstSlotOne, VisitPairs, VisitPair;
    RootPair(was, now, L);
    PageDeltasAddUp(was, now, 0, L);
    ZeroLeafAvail(was.leaf);
    FirstSlotAvail(L);
    OnePair(NO_DIFF, [was], [now], 0, L, false);
    NothingBelowRoot(was, now, L);
  }

  lemma RootPair(was: FsmPage, now: FsmPage, L: nat)
    requires L > 0 && was.Valid() && now.Valid() && |was.inner| == |now.inner|
    requires was.leaf == Zeros(L) && now.leaf == FirstSlotOne(L)
    ensures Matched([was], [now], L)
    ensures PageAt([was], 0) == Some(was) && PageAt([now], 0) == Some(now)
    ensures PageStatus(Some(was), Some(now)) == Changed
  {
    assert was.leaf[0] != now.leaf[0];
  }

  /** A file that is only its root has no free space, and nothing added or removed when both are valid. */
  lemma NothingBelowRoot(was: FsmPage, now: FsmPage, L: nat)
    requires L > 0 && was.Valid() && now.Valid()
    ensures TotalAvail([now], 1, L) == TotalAvail([was], 1, L) == 0 && AddedAvail([was], [now], 1, L) == 0
    ensures UpperChange([was], [now], 1, L) == LeafAvail(now.leaf) - LeafAvail(was.leaf)
  {
    hide LeafAvail;
    assert TotalAvail([was], 0, L) == TotalAvail([now], 0, L) == 0;
    assert AddedAvail([was], [now], 0, L) == 0 && UpperChange([was], [now], 0, L) == 0;
  }

  // ---------------------------------------------------------------- exact, antisymmetric counts

  function Swapped(s: DiffStats): DiffStats {
    s.(slotsUp := s.slotsDown, slotsDown := s.slotsUp, pagesAdded := s.pagesRemoved, pagesRemoved := s.pagesAdded)
  }

  function Negated(deltas: seq<LeafDelta>): (r: seq<LeafDelta>)
    ensures |r| == |deltas|
  {
    if |deltas| == 0 then []
    else Negated(deltas[..|deltas| - 1])
         + [LeafDelta(deltas[|deltas| - 1].heapStart, deltas[|deltas| - 1].heapEnd, -deltas[|deltas| - 1].delta)]
  }

  lemma {:induction false} NegatedJoins(a: seq<LeafDelta>, b: seq<LeafDelta>)
    ensures Negated(a + b) == Negated(a) + Negated(b)
  {
    if |b| == 0 {
      assert a + b == a;
    } else {
      NegatedJoins(a, b[..|b| - 1]);
      assert (a + b)[..|a + b| - 1] == a + b[..|b| - 1];
    }
  }

  lemma {:induction false} SwapSlots(a: seq<byte>, b: seq<byte>)
    requires |a| == |b|
    ensures var p := Pairs(a, b); var q := Pairs(b, a);
            Sum(q, Differs) == Sum(p, Differs) == Sum(p, Up) + Sum(p, Down)
            && Sum(q, Up) == Sum(p, Down) && Sum(q, Down) == Sum(p, Up)
  {
    if |a| > 0 {
      var n := |a| - 1;
      SwapSlots(a[..n], b[..n]);
      assert Pairs(a, b)[..n] == Pairs(a[..n], b[..n]) && Pairs(b, a)[..n] == Pairs(b[..n], a[..n]);
    }
  }

  function SwapRun(r: Run<(byte, byte)>): Run<(byte, byte)> {
    Run(r.first, r.last, (r.value.1, r.value.0))
  }

  function SwapRuns(runs: seq<Run<(byte, byte)>>): (r: seq<Run<(byte, byte)>>)
    ensures |r| == |runs|
  {
    if |runs| == 0 then [] else SwapRuns(runs[..|runs| - 1]) + [SwapRun(runs[|runs| - 1])]
  }

  lemma {:induction false} SwapRunsOf(a: seq<byte>, b: seq<byte>, from: int)
    requires |a| == |b|
    ensures RunsOf(Pairs(b, a), from) == SwapRuns(RunsOf(Pairs(a, b), from))
  {
    if |a| > 0 {
      var n := |a| - 1;
      SwapRunsOf(a[..n], b[..n], from);
      assert Pairs(a, b)[..n] == Pairs(a[..n], b[..n]) && Pairs(b, a)[..n] == Pairs(b[..n], a[..n]);
      var p, q := Pairs(a, b), Pairs(b, a);
      SwapExtended(p, q, from, n, n > 0 && p[n] == p[n - 1]);
    }
  }

  /** RunsOf one step on: the last run grows, or a new one starts. */
  function Grown(runs: seq<Run<(byte, byte)>>, at: int, same: bool, value: (byte, byte)): seq<Run<(byte, byte)>>
    requires same ==> |runs| > 0
  {
    if same then runs[..|runs| - 1] + [Run(runs[|runs| - 1].first, at, runs[|runs| - 1].value)]
    else runs + [Run(at, at, value)]
  }

  lemma SwapGrown(runs: seq<Run<(byte, byte)>>, at: int, same: bool, value: (byte, byte))
    requires same ==> |runs| > 0
    ensures SwapRuns(Grown(runs, at, same, value)) == Grown(SwapRuns(runs), at, same, (value.1, value.0))
  {
    var r := Grown(runs, at, same, value);
    SwapLast(r);
    if same {
      SwapLast(runs);
      assert r[..|r| - 1] == runs[..|runs| - 1];
    } else {
      assert r[..|r| - 1] == runs;
    }
  }

  lemma PairRunsStep(p: seq<(byte, byte)>, from: int)
    requires |p| > 0
    ensures var n := |p| - 1; var same := n > 0 && p[n] == p[n - 1];
            (same ==> |RunsOf(p[..n], from)| > 0)
            && RunsOf(p, from) == Grown(RunsOf(p[..n], from), from + n, same, p[n])
  {
    RunsOfStep(p, from);
  }

  lemma SwapExtended(p: seq<(byte, byte)>, q: seq<(byte, byte)>, from: int, n: nat, same: bool)
    requires |p| == |q| == n + 1 && q[n] == (p[n].1, p[n].0)
    requires same == (n > 0 && p[n] == p[n - 1]) == (n > 0 && q[n] == q[n - 1])
    requires RunsOf(q[..n], from) == SwapRuns(RunsOf(p[..n], from))
    ensures RunsOf(q, from) == SwapRuns(RunsOf(p, from))
  {
    hide RunsOf, SwapRuns, Grown;
    PairRunsStep(p, from);
    PairRunsStep(q, from);
    SwapGrown(RunsOf(p[..n], from), from + n, same, p[n]);
  }

  lemma SwapLast(runs: seq<Run<(byte, byte)>>)
    requires |runs| > 0
    ensures var m := |runs| - 1;
            SwapRuns(runs) == SwapRuns(runs[..m]) + [SwapRun(runs[m])]
            && SwapRuns(runs)[..m] == SwapRuns(runs[..m]) && SwapRuns(runs)[m] == SwapRun(runs[m])
  {
  }

  function OwnDelta(r: Run<(byte, byte)>): seq<LeafDelta> {
    if r.value.0 == r.value.1 then [] else [LeafDelta(r.first, r.last, Delta(r.value))]
  }

  lemma NegatedOwnDelta(r: Run<(byte, byte)>)
    ensures Negated(OwnDelta(r)) == OwnDelta(SwapRun(r))
  {
    assert |OwnDelta(r)| == 1 ==> OwnDelta(r)[..0] == [];
  }

  lemma {:induction false} SwapRangeDeltas(runs: seq<Run<(byte, byte)>>)
    ensures RangeDeltas(SwapRuns(runs)) == Negated(RangeDeltas(runs))
  {
    if |runs| > 0 {
      hide SwapRuns, Negated;
      var n := |runs| - 1;
      SwapRangeDeltas(runs[..n]);
      SwapLast(runs);
      NegatedOwnDelta(runs[n]);
      assert RangeDeltas(runs) == RangeDeltas(runs[..n]) + OwnDelta(runs[n]);
      NegatedJoins(RangeDeltas(runs[..n]), OwnDelta(runs[n]));
    }
  }

  lemma SwapPageDeltas(was: FsmPage, now: FsmPage, id: nat, L: nat)
    requires L > 0 && |was.leaf| == |now.leaf|
    ensures PageDeltas(now, was, id, L) == Negated(PageDeltas(was, now, id, L))
  {
    hide Classify, RunsOf, Pairs, RangeDeltas, SwapRuns;
    var from := Classify(id, L).logPage * L;
    SwapRunsOf(was.leaf, now.leaf, from);
    SwapRangeDeltas(RunsOf(Pairs(was.leaf, now.leaf), from));
  }

  lemma SwapStatus(was: Option<FsmPage>, now: Option<FsmPage>)
    ensures PageStatus(now, was) == match PageStatus(was, now)
                                    case Added => Removed
                                    case Removed => Added
                                    case status => status
  {
  }

  lemma SwapHeader(s: DiffStats, a: Header, b: Header)
    ensures AddHeader(Swapped(s), b, a) == Swapped(AddHeader(s, a, b))
  {
  }

  lemma SwapAddedSlots(s: DiffStats, a: seq<byte>, b: seq<byte>)
    requires |a| == |b|
    ensures AddSlots(Swapped(s), Pairs(b, a)) == Swapped(AddSlots(s, Pairs(a, b)))
  {
    SwapSlots(a, b);
  }

  lemma SwapVisit(s: DiffStats, was: Option<FsmPage>, now: Option<FsmPage>, showInternal: bool)
    requires Comparable(was, now)
    ensures VisitPair(Swapped(s), now, was, showInternal) == Swapped(VisitPair(s, was, now, showInternal))
  {
    hide Pairs, AddSlots, AddHeader, PageStatus;
    SwapStatus(was, now);
    if PageStatus(was, now) == Changed {
      ChangedIsBoth(was, now);
      var t := s.(pagesChanged := s.pagesChanged + 1);
      SwapHeader(t, was.value.header, now.value.header);
      var u := AddHeader(t, was.value.header, now.value.header);
      SwapAddedSlots(u, was.value.inner, now.value.inner);
      SwapAddedSlots(if showInternal then AddSlots(u, Pairs(was.value.inner, now.value.inner)) else u,
                     was.value.leaf, now.value.leaf);
    }
  }

  lemma ChangedIsBoth(was: Option<FsmPage>, now: Option<FsmPage>)
    requires PageStatus(was, now) == Changed
    ensures was.Some? && now.Some?
  {
  }

  lemma SwapPair(s: DiffStats, was: Option<FsmPage>, now: Option<FsmPage>, id: nat, L: nat, showInternal: bool)
    requires L > 0 && Comparable(was, now)
    ensures VisitPair(Swapped(s), now, was, showInternal) == Swapped(VisitPair(s, was, now, showInternal))
    ensures PairDeltas(now, was, id, L) == Negated(PairDeltas(was, now, id, L))
  {
    hide VisitPair, PageDeltas, PageStatus;
    SwapVisit(s, was, now, showInternal);
    SwapStatus(was, now);
    if PageStatus(was, now) == Changed {
      ChangedIsBoth(was, now);
      SwapPageDeltas(was.value, now.value, id, L);
    }
  }

  /** Exchanging the files exchanges gained and lost, added and removed, and negates every record. */
  lemma {:induction false} DiffIsAntisymmetric(olds: seq<FsmPage>, news: seq<FsmPage>, n: nat, L: nat,
                                               showInternal: bool)
    requires Matched(olds, news, L)
    ensures Matched(news, olds, L)
    ensures VisitPairs(NO_DIFF, news, olds, 0, n, L, showInternal)
            == Swapped(VisitPairs(NO_DIFF, olds, news, 0, n, L, showInternal))
    ensures AllDeltas(news, olds, 0, n, L) == Negated(AllDeltas(olds, news, 0, n, L))
  {
    MatchedSwaps(olds, news, L);
    hide VisitPair, PairDeltas, Comparable, Swapped;
    if n == 0 {
      NothingSwaps();
    } else {
      var was, now := PageAt(olds, n - 1), PageAt(news, n - 1);
      assert Comparable(was, now) && Comparable(now, was);
      DiffIsAntisymmetric(olds, news, n - 1, L, showInternal);
      SwapPair(VisitPairs(NO_DIFF, olds, news, 0, n - 1, L, showInternal), was, now, n - 1, L, showInternal);
      NegatedJoins(AllDeltas(olds, news, 0, n - 1, L), PairDeltas(was, now, n - 1, L));
    }
  }

  lemma NothingSwaps()
    ensures Swapped(NO_DIFF) == NO_DIFF
  {
  }

  lemma MatchedSwaps(olds: seq<FsmPage>, news: seq<FsmPage>, L: nat)
    requires Matched(olds, news, L)
    ensures Matched(news, olds, L)
  {
    forall id: nat
      ensures Comparable(PageAt(news, id), PageAt(olds, id))
    {
      assert Comparable(PageAt(olds, id), PageAt(news, id));
    }
  }

  /** Slots of two pages that differ, both valid; inner nodes only when they are shown. */
  function DifferingOnPage(was: Option<FsmPage>, now: Option<FsmPage>, showInternal: bool): int
    requires Comparable(was, now)
  {
    if was.Some? && now.Some? && was.value.Valid() && now.value.Valid() then
      Sum(Pairs(was.value.leaf, now.value.leaf), Differs)
      + if showInternal then Sum(Pairs(was.value.inner, now.value.inner), Differs) else 0
    else 0
  }

  function DifferingSlots(olds: seq<FsmPage>, news: seq<FsmPage>, n: nat, showInternal: bool): int
    requires forall id: nat :: Comparable(PageAt(olds, id), PageAt(news, id))
  {
    if n == 0 then 0
    else
      assert Comparable(PageAt(olds, n - 1), PageAt(news, n - 1));
      DifferingSlots(olds, news, n - 1, showInternal)
      + DifferingOnPage(PageAt(olds, n - 1), PageAt(news, n - 1), showInternal)
  }

  lemma PageCounts(s: DiffStats, was: Option<FsmPage>, now: Option<FsmPage>, showInternal: bool)
    requires Comparable(was, now)
    ensures var t := VisitPair(s, was, now, showInternal);
            var d := DifferingOnPage(was, now, showInternal);
            t.slotsChanged == s.slotsChanged + d
            && t.slotsUp + t.slotsDown == s.slotsUp + s.slotsDown + d
  {
    hide Pairs;
    if was.Some? && now.Some? {
      SwapSlots(was.value.inner, now.value.inner);
      SwapSlots(was.value.leaf, now.value.leaf);
      EqualDoNotDiffer(was.value.inner);
      EqualDoNotDiffer(was.value.leaf);
    }
  }

  /** Gained plus lost is changed, and the changed slots are the positions that differ over all pages
      valid in both files. */
  lemma {:induction false} GainedPlusLostIsChanged(olds: seq<FsmPage>, news: seq<FsmPage>, n: nat, L: nat,
                                                   showInternal: bool)
    requires Matched(olds, news, L)
    ensures var s := VisitPairs(NO_DIFF, olds, news, 0, n, L, showInternal);
            s.slotsUp + s.slotsDown == s.slotsChanged == DifferingSlots(olds, news, n, showInternal)
  {
    hide VisitPair, DifferingOnPage, Comparable;
    if n > 0 {
      var was, now := PageAt(olds, n - 1), PageAt(news, n - 1);
      assert Comparable(was, now);
      GainedPlusLostIsChanged(olds, news, n - 1, L, showInternal);
      PageCounts(VisitPairs(NO_DIFF, olds, news, 0, n - 1, L, showInternal), was, now, showInternal);
    }
  }

  lemma {:induction false} EqualDoNotDiffer(a: seq<byte>)
    ensures Sum(Pairs(a, a), Differs) == 0
  {
    if |a| > 0 {
      EqualDoNotDiffer(a[..|a| - 1]);
      assert Pairs(a, a)[..|a| - 1] == Pairs(a[..|a| - 1], a[..|a| - 1]);
    }
  }

  /** A file does not differ from itself. */
  lemma {:induction false} SelfDiffIsEmpty(pages: seq<FsmPage>, n: nat, L: nat, showInternal: bool)
    requires L > 0 && Loaded(pages, L)
    ensures Matched(pages, pages, L)
    ensures VisitPairs(NO_DIFF, pages, pages, 0, n, L, showInternal) == NO_DIFF
    ensures AllDeltas(pages, pages, 0, n, L) == []
  {
    if n > 0 {
      SelfDiffIsEmpty(pages, n - 1, L, showInternal);
    }
  }

  // ---------------------------------------------------------------- what the summary counts

  predicate ValidAt(pages: seq<FsmPage>, id: nat) {
    id < |pages| && !pages[id].allZero && pages[id].status == HeaderOk
  }

  predicate InBoth(olds: seq<FsmPage>, news: seq<FsmPage>, id: nat) {
    ValidAt(olds, id) && ValidAt(news, id)
  }

  /** Valid in both files, with different node bytes. */
  predicate ChangedAt(olds: seq<FsmPage>, news: seq<FsmPage>, id: nat) {
    InBoth(olds, news, id) && (olds[id].inner != news[id].inner || olds[id].leaf != news[id].leaf)
  }

  lemma StatusMeans(olds: seq<FsmPage>, news: seq<FsmPage>, id: nat)
    ensures PageStatus(PageAt(olds, id), PageAt(news, id))
            == if ChangedAt(olds, news, id) then Changed
               else if InBoth(olds, news, id) then Same
               else if ValidAt(news, id) then Added
               else if ValidAt(olds, id) then Removed
               else Empty
  {
  }

  /** The page counters of the summary, over all pages of the longer file. */
  lemma {:induction false} PagesAreCounted(olds: seq<FsmPage>, news: seq<FsmPage>, n: nat, L: nat, showInternal: bool)
    requires Matched(olds, news, L)
    ensures var s := VisitPairs(NO_DIFF, olds, news, 0, n, L, showInternal);
            && s.pagesAdded == CountIf(n, (id: nat) => ValidAt(news, id) && !ValidAt(olds, id))
            && s.pagesRemoved == CountIf(n, (id: nat) => ValidAt(olds, id) && !ValidAt(news, id))
            && s.pagesChanged == CountIf(n, (id: nat) => ChangedAt(olds, news, id))
            && s.headersChanged
               == CountIf(n, (id: nat) => ChangedAt(olds, news, id) && olds[id].header != news[id].header)
            && s.headersStructural
               == CountIf(n, (id: nat) => ChangedAt(olds, news, id) && olds[id].header.layout != news[id].header.layout)
  {
    hide PageStatus, ValidAt, ChangedAt, InBoth, Comparable, AddSlots, VisitPair;
    if n > 0 {
      PagesAreCounted(olds, news, n - 1, L, showInternal);
      var was, now := PageAt(olds, n - 1), PageAt(news, n - 1);
      assert Comparable(was, now);
      OnePageCounted(VisitPairs(NO_DIFF, olds, news, 0, n - 1, L, showInternal), olds, news, n - 1, showInternal);
      ChangedIsInBoth(olds, news, n - 1);
    }
  }

  lemma ChangedIsInBoth(olds: seq<FsmPage>, news: seq<FsmPage>, id: nat)
    ensures ChangedAt(olds, news, id) ==> id < |olds| && id < |news|
  {
  }

  lemma OnePageCounted(s: DiffStats, olds: seq<FsmPage>, news: seq<FsmPage>, id: nat, showInternal: bool)
    requires Comparable(PageAt(olds, id), PageAt(news, id))
    ensures var t := VisitPair(s, PageAt(olds, id), PageAt(news, id), showInternal);
            var changed := ChangedAt(olds, news, id);
            && t.pagesAdded == s.pagesAdded + (if ValidAt(news, id) && !ValidAt(olds, id) then 1 else 0)
            && t.pagesRemoved == s.pagesRemoved + (if ValidAt(olds, id) && !ValidAt(news, id) then 1 else 0)
            && t.pagesChanged == s.pagesChanged + (if changed then 1 else 0)
            && t.headersChanged
               == s.headersChanged + (if changed && olds[id].header != news[id].header then 1 else 0)
            && t.headersStructural
               == s.headersStructural + (if changed && olds[id].header.layout != news[id].header.layout then 1 else 0)
  {
    hide Pairs;
    StatusMeans(olds, news, id);
  }

  /** Positions at which the byte grew, and at which it shrank. */
  function Grew(was: seq<byte>, now: seq<byte>): nat {
    CountIf(|was|, (i: nat) => i < |was| && i < |now| && now[i] > was[i])
  }

  lemma {:induction false} UpIsGrew(was: seq<byte>, now: seq<byte>)
    requires |was| == |now|
    ensures Sum(Pairs(was, now), Up) == Grew(was, now) && Sum(Pairs(was, now), Down) == Grew(now, was)
  {
    if |was| > 0 {
      var n := |was| - 1;
      UpIsGrew(was[..n], now[..n]);
      assert Pairs(was, now)[..n] == Pairs(was[..n], now[..n]);
      GrewStep(was, now);
      GrewStep(now, was);
    }
  }

  lemma GrewStep(was: seq<byte>, now: seq<byte>)
    requires |was| == |now| > 0
    ensures var n := |was| - 1; Grew(was, now) == Grew(was[..n], now[..n]) + if now[n] > was[n] then 1 else 0
  {
    var n := |was| - 1;
    SameCount(n, (i: nat) => i < |was| && i < |now| && now[i] > was[i],
              (i: nat) => i < |was[..n]| && i < |now[..n]| && now[..n][i] > was[..n][i]);
  }

  lemma {:induction false} SameCount(n: nat, p: nat -> bool, q: nat -> bool)
    requires forall i: nat :: i < n ==> p(i) == q(i)
    ensures CountIf(n, p) == CountIf(n, q)
  {
    if n > 0 {
      SameCount(n - 1, p, q);
    }
  }

  /** Slots whose category grew on pages valid in both files; inner nodes only when they are shown. */
  function SlotsGrown(olds: seq<FsmPage>, news: seq<FsmPage>, n: nat, showInternal: bool): nat {
    if n == 0 then 0
    else
      SlotsGrown(olds, news, n - 1, showInternal)
      + if InBoth(olds, news, n - 1) then
          Grew(olds[n - 1].leaf, news[n - 1].leaf)
          + if showInternal then Grew(olds[n - 1].inner, news[n - 1].inner) else 0
        else 0
  }

  /** A slot counts as gained where the new category is higher, as lost where the old one is. */
  lemma {:induction false} SlotsAreCounted(olds: seq<FsmPage>, news: seq<FsmPage>, n: nat, L: nat, showInternal: bool)
    requires Matched(olds, news, L)
    ensures var s := VisitPairs(NO_DIFF, olds, news, 0, n, L, showInternal);
            && s.slotsUp == SlotsGrown(olds, news, n, showInternal)
            && s.slotsDown == SlotsGrown(news, olds, n, showInternal)
  {
    hide InBoth, Comparable, VisitPair, Grew;
    if n > 0 {
      SlotsAreCounted(olds, news, n - 1, L, showInternal);
      assert Comparable(PageAt(olds, n - 1), PageAt(news, n - 1));
      OnePageSlots(VisitPairs(NO_DIFF, olds, news, 0, n - 1, L, showInternal), olds, news, n - 1, showInternal);
      BothWays(olds, news, n - 1);
    }
  }

  lemma BothWays(olds: seq<FsmPage>, news: seq<FsmPage>, id: nat)
    ensures InBoth(olds, news, id) == InBoth(news, olds, id)
    ensures InBoth(olds, news, id) ==> id < |olds| && id < |news|
  {
  }

  lemma OnePageSlots(s: DiffStats, olds: seq<FsmPage>, news: seq<FsmPage>, id: nat, showInternal: bool)
    requires Comparable(PageAt(olds, id), PageAt(news, id))
    ensures var t := VisitPair(s, PageAt(olds, id), PageAt(news, id), showInternal);
            if InBoth(olds, news, id) then
              var (a, b) := (olds[id], news[id]);
              && t.slotsUp == s.slotsUp + Grew(a.leaf, b.leaf) + (if showInternal then Grew(a.inner, b.inner) else 0)
              && t.slotsDown
                 == s.slotsDown + Grew(b.leaf, a.leaf) + (if showInternal then Grew(b.inner, a.inner) else 0)
            else t.slotsUp == s.slotsUp && t.slotsDown == s.slotsDown
  {
    hide Pairs, Grew;
    StatusMeans(olds, news, id);
    if InBoth(olds, news, id) {
      var a, b := olds[id], news[id];
      UpIsGrew(a.leaf, b.leaf);
      UpIsGrew(a.inner, b.inner);
      if !ChangedAt(olds, news, id) {
        SameDoesNotGrow(a.leaf);
        SameDoesNotGrow(a.inner);
      }
    }
  }

  lemma SameDoesNotGrow(a: seq<byte>)
    ensures Grew(a, a) == 0
  {
    NoneCounted(|a|, (i: nat) => i < |a| && i < |a| && a[i] > a[i]);
  }

  lemma {:induction false} NoneCounted(n: nat, p: nat -> bool)
    requires forall i: nat :: i < n ==> !p(i)
    ensures CountIf(n, p) == 0
  {
    if n > 0 {
      NoneCounted(n - 1, p);
    }
  }

  /** The lines printed are those of the pages in the page range; with --only-changed those valid in both files
      and equal, or in neither, are left out. */
  lemma {:induction false} LinesSelect(options: Options, olds: seq<FsmPage>, news: seq<FsmPage>, lo: nat, hi: nat,
                                       id: nat, status: Status)
    requires lo <= hi
    ensures (id, status) in Lines(options, olds, news, lo, hi)
            <==> && lo <= id < hi && status == PageStatus(PageAt(olds, id), PageAt(news, id))
                 && (options.range.Some? ==> options.range.value.0 <= id <= options.range.value.1)
                 && !(options.onlyChanged && (status == Same || status == Empty))
    decreases hi
  {
    hide PageStatus;
    if lo < hi {
      LinesSelect(options, olds, news, lo, hi - 1, id, status);
    }
  }

  // ---------------------------------------------------------------- which heap pages the records name

  /** The change the records report for a heap page. */
  function DeltaAt(deltas: seq<LeafDelta>, heapPage: int): int {
    if |deltas| == 0 then 0
    else
      var d := deltas[|deltas| - 1];
      DeltaAt(deltas[..|deltas| - 1], heapPage) + if d.heapStart <= heapPage <= d.heapEnd then d.delta else 0
  }

  lemma {:induction false} RangeDeltasAt(runs: seq<Run<(byte, byte)>>, pairs: seq<(byte, byte)>, from: int, h: int)
    requires Covers(runs, pairs, from)
    ensures DeltaAt(RangeDeltas(runs), h) == if from <= h < from + |pairs| then Delta(pairs[h - from]) else 0
  {
    hide Covers;
    RunsIfValues(runs, pairs, from);
    if |runs| > 0 {
      var n := |runs| - 1;
      var r := runs[n];
      LastRun(runs, pairs, from);
      var k := |pairs| - (r.last - r.first + 1);
      RangeDeltasAt(runs[..n], pairs[..k], from, h);
      LastRangeAt(runs, h);
    }
  }

  lemma LastRangeAt(runs: seq<Run<(byte, byte)>>, h: int)
    requires |runs| > 0
    ensures var r := runs[|runs| - 1];
            DeltaAt(RangeDeltas(runs), h)
            == DeltaAt(RangeDeltas(runs[..|runs| - 1]), h) + if r.first <= h <= r.last then Delta(r.value) else 0
  {
    var r := runs[|runs| - 1];
    var front := RangeDeltas(runs[..|runs| - 1]);
    if r.value.0 == r.value.1 {
      assert RangeDeltas(runs) == front;
    } else {
      assert RangeDeltas(runs)[..|front|] == front;
    }
  }

  /** The records of a leaf page report for each of its heap pages the change of its slot, and nothing for any
      other heap page. */
  lemma RecordsNameHeapPages(was: FsmPage, now: FsmPage, id: nat, L: nat, heapPage: nat)
    requires L > 0 && |was.leaf| == |now.leaf| == L && Classify(id, L).level == 2
    ensures var (page, slot) := HeapPageToSlot(heapPage, L);
            DeltaAt(PageDeltas(was, now, id, L), heapPage)
            == if page == id then CatToBytes(now.leaf[slot]) - CatToBytes(was.leaf[slot]) else 0
  {
    hide Classify, HeapPageToSlot, RunsOf, RangeDeltas, CatToBytes;
    var base := Classify(id, L).logPage * L;
    var pairs := Pairs(was.leaf, now.leaf);
    RunsOfIsCompression(pairs, base);
    RangeDeltasAt(RunsOf(pairs, base), pairs, base, heapPage);
    SlotAddress(heapPage, id, L);
  }
}
