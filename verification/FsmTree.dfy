/**
 The free space map as a tree of pages in a file: where a page sits, which page and slot a heap page
 has, and the parent-to-children index. L is LeafNodesPerPage, any positive number.
 */
module FsmTree {
  import opened Arithmetic

  /** A page's level (0 root, 1 internal, 2 leaf), parent and number among its level's pages. */
  datatype TreeInfo = TreeInfo(level: int, parent: int, logPage: nat)

  /** classify_fsm_page. */
  function Classify(page: nat, L: nat): (t: TreeInfo)
    requires L > 0
    ensures 0 <= t.level <= 2
  {
    if page == 0 then TreeInfo(0, -1, 0)
    else
      var group, offset := (page - 1) / (L + 1), (page - 1) % (L + 1);
      if offset == 0 then TreeInfo(1, 0, group)
      else
        NonNegative(group, L);
        TreeInfo(2, 1 + group * (L + 1), group * L + offset - 1)
  }

  /** heap_page_to_fsm_slot. */
  function HeapPageToSlot(heapPage: nat, L: nat): (r: (nat, nat))
    requires L > 0
    ensures r.1 < L
  {
    var leaf := heapPage / L;
    NonNegative(leaf / L, L + 1);
    (leaf / L * (L + 1) + (leaf % L + 1) + 1, heapPage % L)
  }

  /** Looking up a heap page leads to a leaf page and slot that stand for it, under the internal page
      that starts its group. */
  lemma SlotHoldsHeapPage(heapPage: nat, L: nat)
    requires L > 0
    ensures var (page, slot) := HeapPageToSlot(heapPage, L);
            var t := Classify(page, L);
            && t.level == 2 && t.logPage * L + slot == heapPage
            && 0 < t.parent < page <= t.parent + L && Classify(t.parent, L).level == 1
  {
    var leaf := heapPage / L;
    var group, offset := leaf / L, leaf % L + 1;
    DivideBack(group, L + 1, offset);
    DivideBack(group, L + 1, 0);
    assert leaf == L * (leaf / L) + leaf % L;
    assert heapPage == L * leaf + heapPage % L;
    assert group * L == L * group && leaf * L == L * leaf;
  }

  /** Every slot of every leaf page is some heap page's, and leads back to itself. */
  lemma SlotIsFoundBack(page: nat, slot: nat, L: nat)
    requires L > 0 && slot < L && Classify(page, L).level == 2
    ensures Classify(page, L).logPage * L + slot >= 0
    ensures HeapPageToSlot(Classify(page, L).logPage * L + slot, L) == (page, slot)
  {
    var group, offset := (page - 1) / (L + 1), (page - 1) % (L + 1);
    assert page - 1 == (L + 1) * group + offset;
    DivideBack(group, L, offset - 1);
    DivideBack(Classify(page, L).logPage, L, slot);
    assert (L + 1) * group == group * (L + 1);
  }

  /** The heap pages of a leaf page start at its number times L. */
  lemma SlotAddress(heapPage: nat, id: nat, L: nat)
    requires L > 0 && Classify(id, L).level == 2
    ensures var (page, slot) := HeapPageToSlot(heapPage, L); var base := Classify(id, L).logPage * L;
            && (page == id ==> heapPage == base + slot)
            && (base <= heapPage < base + L ==> page == id)
  {
    hide Classify, HeapPageToSlot;
    SlotHoldsHeapPage(heapPage, L);
    var base := Classify(id, L).logPage * L;
    if base <= heapPage < base + L {
      SlotIsFoundBack(id, heapPage - base, L);
    }
  }

  // ---------------------------------------------------------------- parents and groups

  /** Internal pages lie L + 1 apart, and the pages between are the leaf children of the one before. */
  lemma Groups(p: nat, q: nat, L: nat)
    requires L > 0 && p < q
    ensures Classify(q, L).level == 2 ==> (Classify(q, L).parent == p <==> Classify(p, L).level == 1 && q <= p + L)
    ensures Classify(q, L).level == 1 && Classify(p, L).level == 1 ==> q >= p + L + 1
    ensures Classify(p, L).level == 1 ==> Classify(p + L + 1, L).level == 1
    ensures Classify(q, L).parent == p ==> Classify(p, L).level < 2
    ensures q == 1 ==> Classify(q, L).level == 1
  {
    hide Classify;
    Root(L);
    var g, o := Placed(q, L);
    if p > 0 {
      var h, r := Placed(p, L);
      NextGroup(p, h, r, L);
      if h < g {
        Apart(h, g, L + 1);
      } else if h > g {
        Apart(g, h, L + 1);
      }
    }
  }

  lemma Root(L: nat)
    requires L > 0
    ensures Classify(0, L) == TreeInfo(0, -1, 0) && Classify(1, L).level == 1
  {
    Quotient(0, L + 1, 0);
  }

  /** A page behind the root by its group and its place there. */
  lemma Placed(p: nat, L: nat) returns (g: nat, o: nat)
    requires L > 0 && p > 0
    ensures o <= L && p == 1 + g * (L + 1) + o
    ensures Classify(p, L).level == (if o == 0 then 1 else 2)
    ensures Classify(p, L).parent == if o == 0 then 0 else 1 + g * (L + 1)
  {
    g, o := (p - 1) / (L + 1), (p - 1) % (L + 1);
    assert p - 1 == (L + 1) * g + o;
    assert (L + 1) * g == g * (L + 1);
  }

  lemma NextGroup(p: nat, h: nat, r: nat, L: nat)
    requires L > 0 && p == 1 + h * (L + 1) + r
    ensures r == 0 ==> Classify(p + L + 1, L).level == 1
  {
    ProductOfSum(h, 1, L + 1);
    DivideBack(h + 1, L + 1, 0);
  }

  lemma Apart(h: nat, g: nat, G: nat)
    requires h < g
    ensures g * G >= h * G + G
  {
    var a := g - h - 1;
    NonNegative(a, G);
    ProductOfSum(h, a + 1, G);
    ProductOfSum(a, 1, G);
    assert g == h + (a + 1);
  }

  lemma LevelAndParent(p: nat, L: nat)
    requires L > 0
    ensures var t := Classify(p, L);
            && (t.level == 0 <==> p == 0) && (t.level == 0 <==> t.parent == -1)
            && (t.level == 1 <==> t.parent == 0) && (t.level == 2 <==> t.parent > 0)
  {
    if p > 0 {
      NonNegative((p - 1) / (L + 1), L + 1);
    }
  }

  lemma ParentIsBefore(q: nat, L: nat)
    requires L > 0
    ensures Classify(q, L).parent < q
  {
    if Classify(q, L).level == 2 {
      var G := L + 1;
      assert q - 1 == G * ((q - 1) / G) + (q - 1) % G;
      assert G * ((q - 1) / G) == ((q - 1) / G) * G;
    }
  }

  /** Of n pages, how many are internal: one in L + 1 of those behind the root. */
  function InternalPages(n: nat, L: nat): int
    requires L > 0
  {
    if n == 0 then 0 else (n - 1 + L) / (L + 1)
  }

  lemma OneMoreInternal(n: nat, L: nat)
    requires L > 0
    ensures InternalPages(n + 1, L) == InternalPages(n, L) + if Classify(n, L).level == 1 then 1 else 0
  {
    if n > 0 {
      var G := L + 1;
      var q, r := (n - 1) / G, (n - 1) % G;
      assert n - 1 == G * q + r;
      assert G * (q + 1) == G * q + G;
      Quotient(n - 1 + L, G, if r == 0 then q else q + 1);
      Quotient(n + L, G, q + 1);
    } else {
      Quotient(L, L + 1, 0);
    }
  }

  /** How many of the first n pages are on a level. */
  function LevelCount(n: nat, level: int, L: nat): nat
    requires L > 0
  {
    CountIf(n, (p: nat) => Classify(p, L).level == level)
  }

  lemma {:induction false} LevelsAreCounted(n: nat, L: nat)
    requires L > 0
    ensures LevelCount(n, 0, L) == (if n == 0 then 0 else 1)
    ensures LevelCount(n, 1, L) == InternalPages(n, L)
    ensures LevelCount(n, 2, L) == (if n == 0 then 0 else n - 1 - InternalPages(n, L))
  {
    hide Classify, InternalPages;
    NoInternalPages(L);
    if n > 0 {
      LevelsAreCounted(n - 1, L);
      OneMoreInternal(n - 1, L);
      LevelAndParent(n - 1, L);
    }
  }

  lemma NoInternalPages(L: nat)
    requires L > 0
    ensures InternalPages(0, L) == InternalPages(1, L) == 0
  {
    Quotient(L, L + 1, 0);
  }

  /** A page's number is how many pages of its level lie before it in the file. */
  lemma NumberedInFileOrder(page: nat, L: nat)
    requires L > 0
    ensures Classify(page, L).logPage == LevelCount(page, Classify(page, L).level, L)
  {
    hide LevelCount, InternalPages;
    LevelsAreCounted(page, L);
    if page > 0 {
      var group := (page - 1) / (L + 1);
      InternalPagesBefore(page, L);
      assert page - 1 == (L + 1) * group + (page - 1) % (L + 1);
      ProductOfSum(L, 1, group);
      assert L * group == group * L;
    }
  }

  lemma InternalPagesBefore(page: nat, L: nat)
    requires L > 0 && page > 0
    ensures var group, offset := (page - 1) / (L + 1), (page - 1) % (L + 1);
            InternalPages(page, L) == if offset == 0 then group else group + 1
  {
    var G := L + 1;
    var group, offset := (page - 1) / G, (page - 1) % G;
    assert page - 1 == G * group + offset;
    assert G * (group + 1) == G * group + G;
    Quotient(page - 1 + L, G, if offset == 0 then group else group + 1);
  }

  // ---------------------------------------------------------------- the children index

  /** The pages below n whose parent is p, in file order. */
  function Kids(p: nat, n: nat, L: nat): (kids: seq<nat>)
    requires L > 0
    ensures forall i :: 0 <= i < |kids| ==> p < kids[i] < n
    decreases n
  {
    if n == 0 then []
    else
      ParentIsBefore(n - 1, L);
      Kids(p, n - 1, L) + if Classify(n - 1, L).parent == p then [n - 1] else []
  }

  /** build_fsm_children: one list a page, each page pushed onto its parent's. */
  method BuildFsmChildren(total: nat, L: nat) returns (byParent: array<seq<nat>>)
    requires L > 0
    ensures fresh(byParent) && byParent.Length == total
    ensures forall p :: 0 <= p < total ==> byParent[p] == Kids(p, total, L)
  {
    byParent := new seq<nat>[total](_ => []);
    var page := 0;
    while page < total
      invariant page <= total
      invariant forall p :: 0 <= p < total ==> byParent[p] == Kids(p, page, L)
    {
      var parent := Classify(page, L).parent;
      if 0 <= parent < total {
        byParent[parent] := byParent[parent] + [page];
      }
      page := page + 1;
    }
  }

  /** One past the last page of the subtree of p in a file of n pages. */
  function SubtreeEnd(p: nat, n: nat, L: nat): nat
    requires L > 0
  {
    var level := Classify(p, L).level;
    if level == 0 then n else if level == 1 && p + L + 1 <= n then p + L + 1 else if level == 1 then n else p + 1
  }

  /** The children's subtrees, one after another, are what follows p in its own subtree. */
  ghost predicate Chained(kids: seq<nat>, p: nat, n: nat, L: nat)
    requires L > 0
  {
    && (|kids| == 0 ==> SubtreeEnd(p, n, L) == p + 1)
    && (|kids| > 0 ==> kids[0] == p + 1 && SubtreeEnd(kids[|kids| - 1], n, L) == SubtreeEnd(p, n, L))
    && (forall i :: 0 <= i < |kids| - 1 ==> SubtreeEnd(kids[i], n, L) == kids[i + 1])
  }

  lemma {:induction false} KidsAreChained(p: nat, n: nat, L: nat)
    requires L > 0 && p < n
    ensures Chained(Kids(p, n, L), p, n, L)
  {
    hide Chained, Kids;
    if n == p + 1 {
      NoKidsYet(p, L);
    } else {
      KidsAreChained(p, n - 1, L);
      OneMorePage(p, n - 1, L);
    }
  }

  lemma NoKidsYet(p: nat, L: nat)
    requires L > 0
    ensures Chained(Kids(p, p + 1, L), p, p + 1, L)
  {
    hide Classify;
    LevelAndParent(p, L);
  }

  lemma {:induction false} KidLevels(p: nat, n: nat, L: nat)
    requires L > 0
    ensures forall i :: 0 <= i < |Kids(p, n, L)| ==>
              Classify(Kids(p, n, L)[i], L).parent == p
              && Classify(Kids(p, n, L)[i], L).level == Classify(p, L).level + 1
    decreases n
  {
    hide Classify;
    if n > 0 {
      KidLevels(p, n - 1, L);
      if Classify(n - 1, L).parent == p {
        ParentIsBefore(n - 1, L);
        Groups(p, n - 1, L);
        LevelAndParent(n - 1, L);
        LevelAndParent(p, L);
      }
    }
  }

  /** Appending page n to the file keeps every chain: it is the last child of the last page it can follow. */
  lemma OneMorePage(p: nat, n: nat, L: nat)
    requires L > 0 && p < n && Chained(Kids(p, n, L), p, n, L)
    ensures Chained(Kids(p, n + 1, L), p, n + 1, L)
  {
    hide Classify;
    KidLevels(p, n, L);
    Groups(p, n, L);
    LevelAndParent(n, L);
    LevelAndParent(p, L);
    if Classify(p, L).level == 0 {
      OneMoreUnderRoot(n, L);
    } else if Classify(p, L).level == 1 {
      OneMoreUnderInternal(p, n, L);
    }
  }

  lemma OneMoreUnderInternal(p: nat, n: nat, L: nat)
    requires L > 0 && p < n && Chained(Kids(p, n, L), p, n, L) && Classify(p, L).level == 1
    ensures Chained(Kids(p, n + 1, L), p, n + 1, L)
  {
    hide Classify, SubtreeEnd, Kids;
    var kids := Kids(p, n, L);
    NextPageIsKid(p, n, L);
    KidLevels(p, n, L);
    Groups(p, n, L);
    LevelAndParent(n, L);
    LevelAndParent(p, L);
    RootEnd(p, n, L);
    RootEnd(p, n + 1, L);
    LeafEnd(n, n + 1, L);
    forall i | 0 <= i < |kids|
      ensures SubtreeEnd(kids[i], n + 1, L) == SubtreeEnd(kids[i], n, L) == kids[i] + 1
    {
      LeafEnd(kids[i], n, L);
      LeafEnd(kids[i], n + 1, L);
    }
  }

  lemma LeafEnd(k: nat, n: nat, L: nat)
    requires L > 0
    ensures Classify(k, L).level == 2 ==> SubtreeEnd(k, n, L) == k + 1
  {
    hide Classify;
  }

  lemma NextPageIsKid(p: nat, n: nat, L: nat)
    requires L > 0
    ensures Kids(p, n + 1, L) == Kids(p, n, L) + if Classify(n, L).parent == p then [n] else []
  {
    hide Classify;
  }

  lemma RootEnd(k: nat, n: nat, L: nat)
    requires L > 0
    ensures SubtreeEnd(0, n, L) == n
    ensures Classify(k, L).level == 1 ==> SubtreeEnd(k, n, L) == if k + L + 1 <= n then k + L + 1 else n
  {
  }

  /** How page n lies to an internal page k before it, and what that does to the end of k's subtree. */
  lemma AfterInternal(k: nat, n: nat, L: nat)
    requires L > 0 && k < n && Classify(k, L).level == 1
    ensures Classify(n, L).level == 1 ==> n >= k + L + 1
    ensures n == k + L + 1 ==> Classify(n, L).level == 1
    ensures SubtreeEnd(k, n, L) == n ==>
              SubtreeEnd(k, n + 1, L) == if Classify(n, L).level == 1 then n else n + 1
    ensures SubtreeEnd(k, n, L) < n ==> SubtreeEnd(k, n + 1, L) == SubtreeEnd(k, n, L)
  {
    hide Classify;
    Groups(k, n, L);
    RootEnd(k, n, L);
    RootEnd(k, n + 1, L);
  }

  lemma OneMoreUnderRoot(n: nat, L: nat)
    requires L > 0 && 0 < n && Chained(Kids(0, n, L), 0, n, L)
    ensures Chained(Kids(0, n + 1, L), 0, n + 1, L)
  {
    hide Classify, SubtreeEnd, Kids;
    var kids, more := Kids(0, n, L), Kids(0, n + 1, L);
    KidsStep(n, L);
    KidLevels(0, n, L);
    LevelAndParent(0, L);
    LevelAndParent(n, L);
    Groups(0, n, L);
    RootEnd(0, n, L);
    RootEnd(n, n + 1, L);
    forall i | 0 <= i < |kids|
      ensures Classify(kids[i], L).level == 1 && kids[i] < n
      ensures SubtreeEnd(kids[i], n, L) == n ==>
                SubtreeEnd(kids[i], n + 1, L) == if Classify(n, L).level == 1 then n else n + 1
      ensures SubtreeEnd(kids[i], n, L) < n ==> SubtreeEnd(kids[i], n + 1, L) == SubtreeEnd(kids[i], n, L)
    {
      AfterInternal(kids[i], n, L);
    }
    RootEnd(0, n + 1, L);
  }

  lemma KidsStep(n: nat, L: nat)
    requires L > 0 && n > 0
    ensures Kids(0, n + 1, L) == Kids(0, n, L) + if Classify(n, L).level == 1 then [n] else []
  {
    LevelAndParent(n, L);
  }
}
