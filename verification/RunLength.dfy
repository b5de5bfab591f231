/**
 Run-length compression, as pg_fsm.c does it for bytes and byte pairs and pg_vm.c for page statuses
 and status pairs: four copies of one loop, here one generic method.
 */
module RunLength {

  /** A maximal stretch of positions first..last sharing a value. */
  datatype Run<T> = Run(first: int, last: int, value: T)

  function Listing<T>(first: int, last: int, value: T): (l: seq<(int, T)>)
    ensures |l| == if first <= last then last - first + 1 else 0
    decreases last - first
  {
    if first > last then [] else Listing(first, last - 1, value) + [(last, value)]
  }

  /** The runs written out position by position. */
  function Listings<T>(runs: seq<Run<T>>): seq<(int, T)> {
    if |runs| == 0 then []
    else Listings(runs[..|runs| - 1]) + Listing(runs[|runs| - 1].first, runs[|runs| - 1].last, runs[|runs| - 1].value)
  }

  function Positions<T>(vals: seq<T>, from: int): (l: seq<(int, T)>)
    ensures |l| == |vals|
  {
    if |vals| == 0 then [] else Positions(vals[..|vals| - 1], from) + [(from + |vals| - 1, vals[|vals| - 1])]
  }

  predicate NoneEmpty<T>(runs: seq<Run<T>>) {
    forall i :: 0 <= i < |runs| ==> runs[i].first <= runs[i].last
  }

  /** Runs that list every position of vals once, in order, with its value. */
  predicate Covers<T(==)>(runs: seq<Run<T>>, vals: seq<T>, from: int) {
    && NoneEmpty(runs)
    && Listings(runs) == Positions(vals, from)
  }

  predicate NeighboursDiffer<T(==)>(runs: seq<Run<T>>) {
    forall i :: 0 <= i < |runs| - 1 ==> runs[i].value != runs[i + 1].value
  }

  /** compress_byte_range and its copies: start and value of the open run, closed where the value changes. */
  method Compress<T(==)>(vals: seq<T>, from: int) returns (compressed: seq<Run<T>>)
    ensures Covers(compressed, vals, from) && NeighboursDiffer(compressed)
    ensures compressed == RunsOf(vals, from)
  {
    hide Listing, Positions, Listings, RunsOf, Closed, NeighboursDiffer, NoneEmpty;
    NothingListed<T>();
    compressed := [];
    RunsOfIsCompression(vals, from);
    if |vals| == 0 {
      return;
    }
    var start, val, i := 0, vals[0], 1;
    OneMorePosition(vals, from, 0);
    OneMoreListed(from, from, val);
    while i < |vals|
      invariant 0 <= start < i <= |vals|
      invariant NoneEmpty(compressed) && NeighboursDiffer(compressed)
      invariant |compressed| > 0 ==> compressed[|compressed| - 1].value != val
      invariant Listings(compressed) + Listing(from + start, from + i - 1, val) == Positions(vals[..i], from)
    {
      OneMorePosition(vals, from, i);
      if vals[i] != val {
        ClosedStaysProper(compressed, from + start, from + i - 1, val);
        compressed := Closed(compressed, from + start, from + i - 1, val);
        start, val := i, vals[i];
      }
      OneMoreListed(from + start, from + i, val);
      i := i + 1;
    }
    assert vals[..i] == vals;
    ClosedStaysProper(compressed, from + start, from + i - 1, val);
    compressed := Closed(compressed, from + start, from + i - 1, val);
    CompressionIsUnique(compressed, RunsOf(vals, from), vals, from);
  }

  lemma ClosedStaysProper<T>(runs: seq<Run<T>>, first: int, last: int, value: T)
    requires first <= last && (|runs| > 0 ==> runs[|runs| - 1].value != value)
    requires NoneEmpty(runs) && NeighboursDiffer(runs)
    ensures var r := Closed(runs, first, last, value);
            && |r| > 0 && r[|r| - 1].value == value
            && NoneEmpty(r) && NeighboursDiffer(r)
  {
    hide Listing, Listings;
  }

  lemma NothingListed<T>()
    ensures Listings<T>([]) == [] && NoneEmpty<T>([]) && NeighboursDiffer<T>([])
    ensures forall from :: Positions<T>([], from) == []
  {
  }

  lemma OneMorePosition<T>(vals: seq<T>, from: int, i: nat)
    requires i < |vals|
    ensures Positions(vals[..i + 1], from) == Positions(vals[..i], from) + [(from + i, vals[i])]
    ensures i == 0 ==> Positions(vals[..i], from) == []
  {
    assert vals[..i + 1][..i] == vals[..i];
  }

  lemma OneMoreListed<T>(first: int, last: int, value: T)
    requires first <= last
    ensures Listing(first, last, value) == Listing(first, last - 1, value) + [(last, value)]
    ensures first == last ==> Listing(first, last - 1, value) == []
  {
  }

  function Closed<T>(runs: seq<Run<T>>, first: int, last: int, value: T): (r: seq<Run<T>>)
    ensures Listings(r) == Listings(runs) + Listing(first, last, value)
  {
    var r := runs + [Run(first, last, value)];
    assert r[..|r| - 1] == runs;
    r
  }

  // ---------------------------------------------------------------- what the runs are

  lemma ListingAt<T>(first: int, last: int, value: T)
    ensures forall k {:trigger Listing(first, last, value)[k]} ::
              0 <= k <= last - first ==> Listing(first, last, value)[k] == (first + k, value)
    decreases last - first
  {
    if first <= last {
      ListingAt(first, last - 1, value);
    }
  }

  lemma PositionsAt<T>(vals: seq<T>, from: int)
    ensures forall k {:trigger Positions(vals, from)[k]} ::
              0 <= k < |vals| ==> Positions(vals, from)[k] == (from + k, vals[k])
  {
    if |vals| > 0 {
      PositionsAt(vals[..|vals| - 1], from);
    }
  }

  lemma PositionsPrefix<T>(vals: seq<T>, from: int, k: nat)
    requires k <= |vals|
    ensures Positions(vals[..k], from) == Positions(vals, from)[..k]
  {
    PositionsAt(vals, from);
    PositionsAt(vals[..k], from);
  }

  /** The last run is a constant tail of the values, and the other runs cover what is before it. */
  lemma LastRun<T>(runs: seq<Run<T>>, vals: seq<T>, from: int)
    requires Covers(runs, vals, from) && |runs| > 0
    ensures var r := runs[|runs| - 1]; var k := |vals| - (r.last - r.first + 1);
            && 0 <= k < |vals| && r.first == from + k && r.last == from + |vals| - 1
            && (forall i :: k <= i < |vals| ==> vals[i] == r.value)
            && Covers(runs[..|runs| - 1], vals[..k], from)
  {
    var r := runs[|runs| - 1];
    var k := |vals| - (r.last - r.first + 1);
    var front := Listings(runs[..|runs| - 1]);
    assert Positions(vals, from) == front + Listing(r.first, r.last, r.value);
    ListingAt(r.first, r.last, r.value);
    PositionsAt(vals, from);
    forall i | k <= i < |vals|
      ensures vals[i] == r.value && r.first + (i - k) == from + i
    {
      assert Positions(vals, from)[i] == Listing(r.first, r.last, r.value)[i - k];
    }
    PositionsPrefix(vals, from, k);
    assert front == Positions(vals, from)[..k];
  }

  /** How often neighbouring values change. */
  function Changes<T(==)>(vals: seq<T>): nat {
    if |vals| <= 1 then 0
    else Changes(vals[..|vals| - 1]) + if vals[|vals| - 1] != vals[|vals| - 2] then 1 else 0
  }

  lemma {:induction false} ChangesBeforeTail<T>(vals: seq<T>, k: nat)
    requires k < |vals| && forall i :: k <= i < |vals| ==> vals[i] == vals[k]
    ensures Changes(vals) == Changes(vals[..k]) + if k > 0 && vals[k] != vals[k - 1] then 1 else 0
  {
    var n := |vals| - 1;
    if k < n {
      ChangesBeforeTail(vals[..n], k);
      assert vals[..n][..k] == vals[..k];
    }
  }

  lemma {:induction false} RunsBoundChanges<T>(runs: seq<Run<T>>, vals: seq<T>, from: int)
    requires Covers(runs, vals, from) && |vals| > 0
    ensures |runs| >= Changes(vals) + 1
    ensures NeighboursDiffer(runs) ==> |runs| == Changes(vals) + 1
  {
    var n := |runs| - 1;
    RunsIfValues(runs, vals, from);
    LastRun(runs, vals, from);
    var k := |vals| - (runs[n].last - runs[n].first + 1);
    ChangesBeforeTail(vals, k);
    RunsIfValues(runs[..n], vals[..k], from);
    if k > 0 {
      RunsBoundChanges(runs[..n], vals[..k], from);
      RunStartsWithChange(runs, vals, from);
    }
  }

  lemma RunsIfValues<T>(runs: seq<Run<T>>, vals: seq<T>, from: int)
    requires Covers(runs, vals, from)
    ensures |runs| > 0 <==> |vals| > 0
  {
    if |runs| > 0 {
      LastRun(runs, vals, from);
    }
  }

  lemma RunStartsWithChange<T>(runs: seq<Run<T>>, vals: seq<T>, from: int)
    requires Covers(runs, vals, from) && |runs| > 0
    ensures var k := runs[|runs| - 1].first - from;
            0 <= k < |vals| && (NeighboursDiffer(runs) && k > 0 ==> vals[k - 1] != vals[k])
  {
    var m := |runs| - 1;
    LastRun(runs, vals, from);
    var k := runs[m].first - from;
    RunsIfValues(runs[..m], vals[..k], from);
    if k > 0 {
      LastRun(runs[..m], vals[..k], from);
      assert vals[..k][k - 1] == runs[m - 1].value;
    }
  }

  /** No run list for the same values is shorter, and none as short has equal neighbours. */
  lemma CompressionIsMinimal<T>(runs: seq<Run<T>>, others: seq<Run<T>>, vals: seq<T>, from: int)
    requires Covers(runs, vals, from) && NeighboursDiffer(runs) && Covers(others, vals, from)
    ensures |runs| <= |others|
    ensures NeighboursDiffer(others) ==> runs == others
  {
    RunsIfValues(runs, vals, from);
    if |vals| > 0 {
      RunsBoundChanges(runs, vals, from);
      RunsBoundChanges(others, vals, from);
    }
    if NeighboursDiffer(others) {
      CompressionIsUnique(runs, others, vals, from);
    }
  }

  lemma {:induction false} CompressionIsUnique<T>(runs: seq<Run<T>>, others: seq<Run<T>>, vals: seq<T>, from: int)
    requires Covers(runs, vals, from) && NeighboursDiffer(runs)
    requires Covers(others, vals, from) && NeighboursDiffer(others)
    ensures runs == others
  {
    hide Listing, Listings, Positions;
    RunsIfValues(runs, vals, from);
    RunsIfValues(others, vals, from);
    if |runs| > 0 {
      var m, n := |runs| - 1, |others| - 1;
      LastRun(runs, vals, from);
      LastRun(others, vals, from);
      SameTail(runs, others, vals, from);
      SameTail(others, runs, vals, from);
      var k := |vals| - (runs[m].last - runs[m].first + 1);
      CompressionIsUnique(runs[..m], others[..n], vals[..k], from);
      assert runs[m].value == vals[|vals| - 1] == others[n].value;
      assert runs == runs[..m] + [runs[m]] && others == others[..n] + [others[n]];
    }
  }

  lemma SameTail<T>(runs: seq<Run<T>>, others: seq<Run<T>>, vals: seq<T>, from: int)
    requires Covers(runs, vals, from) && NeighboursDiffer(runs) && |runs| > 0
    requires Covers(others, vals, from) && |others| > 0
    ensures runs[|runs| - 1].first <= others[|others| - 1].first
  {
    RunStartsWithChange(runs, vals, from);
    LastRun(runs, vals, from);
    LastRun(others, vals, from);
  }

  /** The one compression of a list of values. */
  function RunsOf<T(==)>(vals: seq<T>, from: int): (runs: seq<Run<T>>)
    ensures |runs| > 0 <==> |vals| > 0
    ensures |runs| > 0 ==> runs[|runs| - 1].value == vals[|vals| - 1]
  {
    if |vals| == 0 then []
    else
      var n := |vals| - 1;
      var runs := RunsOf(vals[..n], from);
      if n > 0 && vals[n] == vals[n - 1] then
        var r := runs[|runs| - 1];
        runs[..|runs| - 1] + [Run(r.first, from + n, r.value)]
      else runs + [Run(from + n, from + n, vals[n])]
  }

  lemma RunsOfStep<T>(vals: seq<T>, from: int)
    requires |vals| > 0
    ensures var n := |vals| - 1;
            var runs := RunsOf(vals[..n], from);
            RunsOf(vals, from)
            == if n > 0 && vals[n] == vals[n - 1] then
                 runs[..|runs| - 1] + [Run(runs[|runs| - 1].first, from + n, runs[|runs| - 1].value)]
               else runs + [Run(from + n, from + n, vals[n])]
  {
  }

  lemma {:induction false} RunsOfIsCompression<T>(vals: seq<T>, from: int)
    ensures Covers(RunsOf(vals, from), vals, from) && NeighboursDiffer(RunsOf(vals, from))
  {
    if |vals| > 0 {
      var n := |vals| - 1;
      var runs := RunsOf(vals[..n], from);
      RunsOfIsCompression(vals[..n], from);
      if n > 0 && vals[n] == vals[n - 1] {
        LastRunGrows(runs, vals, from);
      } else {
        NewRunStarts(runs, vals, from);
      }
    }
  }

  lemma LastRunGrows<T>(runs: seq<Run<T>>, vals: seq<T>, from: int)
    requires |vals| > 0 && |runs| > 0 && runs[|runs| - 1].value == vals[|vals| - 1]
    requires Covers(runs, vals[..|vals| - 1], from) && NeighboursDiffer(runs)
    ensures var r := runs[|runs| - 1];
            var grown := runs[..|runs| - 1] + [Run(r.first, from + |vals| - 1, r.value)];
            Covers(grown, vals, from) && NeighboursDiffer(grown)
  {
    var n, m := |vals| - 1, |runs| - 1;
    var r := runs[m];
    LastRun(runs, vals[..n], from);
    OneMoreListed(r.first, from + n, r.value);
    hide Listing;
    var grown := Closed(runs[..m], r.first, from + n, r.value);
    assert grown == runs[..m] + [Run(r.first, from + n, r.value)];
  }

  lemma NewRunStarts<T>(runs: seq<Run<T>>, vals: seq<T>, from: int)
    requires |vals| > 0 && (|runs| > 0 ==> runs[|runs| - 1].value != vals[|vals| - 1])
    requires Covers(runs, vals[..|vals| - 1], from) && NeighboursDiffer(runs)
    ensures var n := |vals| - 1; var grown := runs + [Run(from + n, from + n, vals[n])];
            Covers(grown, vals, from) && NeighboursDiffer(grown)
  {
    var n := |vals| - 1;
    OneMoreListed(from + n, from + n, vals[n]);
    hide Listing;
    var grown := Closed(runs, from + n, from + n, vals[n]);
    assert grown == runs + [Run(from + n, from + n, vals[n])];
  }

  // ---------------------------------------------------------------- filtering and summing

  function FilterRuns<T>(runs: seq<Run<T>>, keep: T -> bool): seq<Run<T>> {
    if |runs| == 0 then []
    else FilterRuns(runs[..|runs| - 1], keep) + if keep(runs[|runs| - 1].value) then [runs[|runs| - 1]] else []
  }

  function FilterListing<T>(l: seq<(int, T)>, keep: T -> bool): seq<(int, T)> {
    if |l| == 0 then []
    else FilterListing(l[..|l| - 1], keep) + if keep(l[|l| - 1].1) then [l[|l| - 1]] else []
  }

  lemma {:induction false} FilterJoin<T>(a: seq<(int, T)>, b: seq<(int, T)>, keep: T -> bool)
    ensures FilterListing(a + b, keep) == FilterListing(a, keep) + FilterListing(b, keep)
  {
    if |b| == 0 {
      assert a + b == a;
    } else {
      FilterJoin(a, b[..|b| - 1], keep);
      assert (a + b)[..|a + b| - 1] == a + b[..|b| - 1];
    }
  }

  lemma {:induction false} FilterOneRun<T>(first: int, last: int, value: T, keep: T -> bool)
    ensures FilterListing(Listing(first, last, value), keep) == if keep(value) then Listing(first, last, value) else []
    decreases last - first
  {
    if first <= last {
      FilterOneRun(first, last - 1, value, keep);
    }
  }

  /** Filtering the runs and writing out what is left is the filtered expanded listing. */
  lemma {:induction false} FilterCommutes<T>(runs: seq<Run<T>>, keep: T -> bool)
    ensures Listings(FilterRuns(runs, keep)) == FilterListing(Listings(runs), keep)
  {
    if |runs| > 0 {
      var n := |runs| - 1;
      var r := runs[n];
      FilterCommutes(runs[..n], keep);
      FilterJoin(Listings(runs[..n]), Listing(r.first, r.last, r.value), keep);
      FilterOneRun(r.first, r.last, r.value, keep);
      if keep(r.value) {
        assert FilterRuns(runs, keep) == Closed(FilterRuns(runs[..n], keep), r.first, r.last, r.value);
      } else {
        assert FilterRuns(runs, keep) == FilterRuns(runs[..n], keep);
      }
    }
  }

  function SumRuns<T>(runs: seq<Run<T>>, weight: T -> int): int {
    if |runs| == 0 then 0
    else SumRuns(runs[..|runs| - 1], weight)
         + (runs[|runs| - 1].last - runs[|runs| - 1].first + 1) * weight(runs[|runs| - 1].value)
  }

  function Sum<T>(vals: seq<T>, weight: T -> int): int {
    if |vals| == 0 then 0 else Sum(vals[..|vals| - 1], weight) + weight(vals[|vals| - 1])
  }

  lemma {:induction false} SumBeforeTail<T>(vals: seq<T>, k: nat, value: T, weight: T -> int)
    requires k <= |vals| && forall i :: k <= i < |vals| ==> vals[i] == value
    ensures Sum(vals, weight) == Sum(vals[..k], weight) + (|vals| - k) * weight(value)
  {
    var n := |vals| - 1;
    if k <= n {
      SumBeforeTail(vals[..n], k, value, weight);
      assert vals[..n][..k] == vals[..k];
      assert (n - k) * weight(value) + weight(value) == (n - k + 1) * weight(value);
    } else {
      assert vals[..k] == vals;
    }
  }

  /** Adding up run by run, each weighed by its length, adds up value by value. */
  lemma {:induction false} SumOverRuns<T>(runs: seq<Run<T>>, vals: seq<T>, from: int, weight: T -> int)
    requires Covers(runs, vals, from)
    ensures SumRuns(runs, weight) == Sum(vals, weight)
  {
    if |runs| > 0 {
      var n := |runs| - 1;
      LastRun(runs, vals, from);
      var k := |vals| - (runs[n].last - runs[n].first + 1);
      SumOverRuns(runs[..n], vals[..k], from, weight);
      SumBeforeTail(vals, k, runs[n].value, weight);
    }
  }
}
