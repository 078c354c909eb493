/**
  The first-fit page allocator of lab3/kern/mm/default_pmm.c.  The free list is the
  canonical list of the runs of free pages, so it depends on the set of free pages alone.
 */
module FirstFit {
  import opened Options
  import opened FreeRuns
  import opened FrameList
  import opened Coalesce

  ghost function RunsOf(ps: seq<Page>, list: seq<nat>): (bs: seq<Block>)
    requires forall i | 0 <= i < |list| :: list[i] < |ps|
    ensures |bs| == |list| && forall i | 0 <= i < |list| :: bs[i] == Block(list[i], ps[list[i]].run)
  {
    seq(|list|, i requires 0 <= i < |list| && list[i] < |ps| => Block(list[i], ps[list[i]].run))
  }

  /** PG_property marks exactly the pages `heads`. */
  ghost predicate Marked(ps: seq<Page>, heads: set<nat>) {
    forall p | 0 <= p < |ps| - 1 :: ps[p].property <==> p in heads
  }

  ghost function Members(list: seq<nat>): set<nat> {
    set i | 0 <= i < |list| :: list[i]
  }

  ghost predicate InRange(bs: seq<Block>, n: int) {
    forall i | 0 <= i < |bs| :: 0 <= bs[i].base && bs[i].End() <= n
  }

  ghost predicate FreeListOk(ps: seq<Page>, list: seq<nat>) {
    && Chain(ps, list) && Canonical(RunsOf(ps, list)) && InRange(RunsOf(ps, list), |ps| - 1)
    && Marked(ps, Members(list))
  }

  // ---------- first fit, seen from the set of free pages ----------

  ghost predicate AllFree(bs: seq<Block>, base: int, k: int) {
    forall u | base <= u < base + k :: Covers(bs, u)
  }

  /** `k` free pages in a row lie in one run. */
  lemma RowInOneRun(bs: seq<Block>, base: int, k: int) returns (q: nat)
    requires Canonical(bs) && k > 0 && AllFree(bs, base, k)
    ensures q < |bs| && bs[q].base <= base && base + k <= bs[q].End()
  {
    assert Covers(bs, base);
    q :| 0 <= q < |bs| && bs[q].Has(base);
    GapAfter(bs, q);
  }

  lemma GapAfter(bs: seq<Block>, q: nat)
    requires Canonical(bs) && q < |bs|
    ensures !Covers(bs, bs[q].End())
  {
    forall r | 0 <= r < |bs| ensures !bs[r].Has(bs[q].End()) {
      if r != q {
        var lo, hi := if r < q then r else q, if r < q then q else r;
        assert bs[lo].End() < bs[hi].base && bs[q].len > 0;
      }
    }
  }

  lemma LaterRun(bs: seq<Block>, i: nat, q: nat)
    requires Canonical(bs) && i < q < |bs|
    ensures bs[i].base < bs[i].End() < bs[q].base
  {
  }

  lemma EarlierRun(bs: seq<Block>, q: nat, i: nat)
    requires Canonical(bs) && q < |bs| && i < |bs| && bs[q].base < bs[i].base
    ensures q < i
  {
    if i < q {
      LaterRun(bs, i, q);
    }
  }

  /** First fit finds the lowest address that has `k` free pages in a row. */
  lemma FirstFitIsLowest(bs: seq<Block>, i: nat, k: int)
    requires Canonical(bs) && k > 0 && i < |bs| && bs[i].len >= k
    requires forall q | 0 <= q < i :: bs[q].len < k
    ensures AllFree(bs, bs[i].base, k)
    ensures forall base | base < bs[i].base :: !AllFree(bs, base, k)
  {
    forall u | bs[i].base <= u < bs[i].base + k ensures Covers(bs, u) {
      assert bs[i].Has(u);
    }
    forall base | base < bs[i].base ensures !AllFree(bs, base, k) {
      if AllFree(bs, base, k) {
        var q := RowInOneRun(bs, base, k);
        EarlierRun(bs, q, i);
      }
    }
  }

  lemma NoFitNoRow(bs: seq<Block>, k: int)
    requires Canonical(bs) && k > 0 && forall q | 0 <= q < |bs| :: bs[q].len < k
    ensures forall base :: !AllFree(bs, base, k)
  {
    forall base ensures !AllFree(bs, base, k) {
      if AllFree(bs, base, k) {
        var q := RowInOneRun(bs, base, k);
      }
    }
  }

  lemma {:induction false} LenBelowTotal(bs: seq<Block>, i: nat)
    requires Canonical(bs) && i < |bs|
    ensures bs[i].len <= Total(bs)
    decreases |bs|
  {
    var init := bs[..|bs| - 1];
    TotalPositive(init);
    if i < |bs| - 1 {
      LenBelowTotal(init, i);
    }
  }

  lemma {:induction false} TotalPositive(bs: seq<Block>)
    requires Canonical(bs)
    ensures Total(bs) >= 0
  {
    if bs != [] {
      TotalPositive(bs[..|bs| - 1]);
    }
  }

  lemma TotalOne(b: Block)
    ensures Total([b]) == b.len
  {
    assert [b][..0] == [];
  }

  lemma TotalAround(a: seq<Block>, m: Block, c: seq<Block>)
    ensures Total(a + [m] + c) == Total(a) + m.len + Total(c)
  {
    TotalAppend(a + [m], c);
    TotalAppend(a, [m]);
    TotalOne(m);
  }

  lemma TakeParts(bs: seq<Block>, i: nat, k: int)
    requires i < |bs|
    ensures Take(bs, i, k) ==
      if bs[i].len == k then bs[..i] + bs[i + 1..]
      else bs[..i] + [Block(bs[i].base + k, bs[i].len - k)] + bs[i + 1..]
  {
    if bs[i].len == k {
      assert bs[..i] + [] == bs[..i];
    }
  }

  lemma TakeTotal(bs: seq<Block>, i: nat, k: int)
    requires i < |bs|
    ensures Total(Take(bs, i, k)) == Total(bs) - k
  {
    hide Total, Take;
    Around(bs, i);
    TakeParts(bs, i, k);
    TotalAround(bs[..i], bs[i], bs[i + 1..]);
    if bs[i].len == k {
      TotalAppend(bs[..i], bs[i + 1..]);
    } else {
      TotalAround(bs[..i], Block(bs[i].base + k, bs[i].len - k), bs[i + 1..]);
    }
  }

  lemma TotalLast(bs: seq<Block>, a: nat)
    requires a < |bs|
    ensures Total(bs[..a + 1]) == Total(bs[..a]) + bs[a].len
  {
    assert bs[..a + 1][..a] == bs[..a];
  }

  lemma TotalFirst(bs: seq<Block>, j: nat)
    requires j < |bs|
    ensures Total(bs[j..]) == bs[j].len + Total(bs[j + 1..])
  {
    hide Total;
    assert bs[j..] == [bs[j]] + bs[j + 1..];
    TotalAppend([bs[j]], bs[j + 1..]);
    TotalOne(bs[j]);
  }

  lemma TotalSplit(bs: seq<Block>, a: nat, j: nat, c: nat)
    requires a <= j <= c <= |bs| && j - a <= 1 && c - j <= 1
    ensures Total(bs)
      == Total(bs[..a]) + (if a < j then bs[a].len else 0) + (if j < c then bs[j].len else 0) + Total(bs[c..])
  {
    hide Total;
    assert bs == bs[..j] + bs[j..];
    TotalAppend(bs[..j], bs[j..]);
    if a < j { TotalLast(bs, a); }
    if j < c { TotalFirst(bs, j); }
  }

  lemma GiveTotal(bs: seq<Block>, j: nat, b: Block)
    requires j <= |bs|
    ensures Total(Give(bs, j, b)) == Total(bs) + b.len
  {
    hide Total;
    var a, c := if TouchesLow(bs, j, b) then j - 1 else j, if TouchesHigh(bs, j, b) then j + 1 else j;
    TotalAround(bs[..a], Merged(bs, j, b), bs[c..]);
    TotalSplit(bs, a, j, c);
  }

  // ---------- what the steps do to the descriptors ----------

  /** Descriptors change only in what the links do not use. */
  ghost predicate SameLinks(ps: seq<Page>, ps': seq<Page>) {
    |ps| == |ps'| && forall i | 0 <= i < |ps| :: ps'[i].prev == ps[i].prev && ps'[i].next == ps[i].next
  }

  lemma SameLinksChain(ps: seq<Page>, ps': seq<Page>, list: seq<nat>)
    requires Chain(ps, list) && SameLinks(ps, ps')
    ensures Chain(ps', list)
  {
    forall i | 0 <= i <= |list| ensures LinkAt(ps', list, i) {
      ChainAt(ps, list, i);
    }
  }

  lemma ListFacts(ps: seq<Page>, list: seq<nat>)
    requires FreeListOk(ps, list)
    ensures |ps| > 0 && forall i | 0 <= i < |list| :: list[i] < |ps| - 1
    ensures forall i, j | 0 <= i < j < |list| :: list[i] < list[j]
    ensures forall i | 0 <= i < |list| :: ps[list[i]].run > 0 && list[i] + ps[list[i]].run <= |ps| - 1
    ensures Chain(ps, list)
  {
    var bs := RunsOf(ps, list);
    assert forall i | 0 <= i < |list| :: bs[i].len > 0 && bs[i].End() <= |ps| - 1;
  }

  /** Following the links from one entry, or from the head, to the next. */
  lemma NextAt(ps: seq<Page>, list: seq<nat>, i: nat)
    requires Chain(ps, list) && i <= |list|
    ensures Before(list, i, |ps| - 1) < |ps| && ps[Before(list, i, |ps| - 1)].next == At(list, i, |ps| - 1)
    ensures At(list, i, |ps| - 1) == |ps| - 1 <==> i == |list|
  {
    ChainAt(ps, list, i);
  }

  lemma RunAt(ps: seq<Page>, list: seq<nat>, i: nat)
    requires FreeListOk(ps, list) && i < |list|
    ensures list[i] < |ps| - 1 && RunsOf(ps, list)[i] == Block(list[i], ps[list[i]].run)
    ensures ps[list[i]].run > 0
  {
    ListFacts(ps, list);
  }

  lemma ShortRuns(ps: seq<Page>, list: seq<nat>, k: int)
    requires FreeListOk(ps, list) && k > Total(RunsOf(ps, list))
    ensures forall q | 0 <= q < |list| :: RunsOf(ps, list)[q].len < k
  {
    forall q | 0 <= q < |list| ensures RunsOf(ps, list)[q].len < k {
      LenBelowTotal(RunsOf(ps, list), q);
    }
  }

  /** The data that allocating `k` pages from the run at `p` leaves. */
  ghost predicate AllocData(ps: seq<Page>, ps': seq<Page>, p: nat, k: nat)
    requires p < |ps|
  {
    && |ps'| == |ps|
    && forall x | 0 <= x < |ps| :: ps'[x] == ps[x].(
         prev := ps'[x].prev, next := ps'[x].next,
         property := if x == p then false else if ps[p].run > k && x == p + k then true else ps[x].property,
         run := if ps[p].run > k && x == p + k then ps[p].run - k else ps[x].run)
  }

  ghost function AllocList(ps: seq<Page>, list: seq<nat>, i: nat, k: nat): seq<nat>
    requires i < |list| && list[i] < |ps|
  {
    if ps[list[i]].run > k then list[i := list[i] + k] else list[..i] + list[i + 1..]
  }

  lemma AllocRuns(ps: seq<Page>, ps': seq<Page>, list: seq<nat>, i: nat, k: nat)
    requires FreeListOk(ps, list) && i < |list| && list[i] < |ps| - 1 && 0 < k <= ps[list[i]].run
    requires AllocData(ps, ps', list[i], k)
    ensures var list' := AllocList(ps, list, i, k);
      && (forall x | 0 <= x < |list'| :: list'[x] < |ps'| - 1)
      && RunsOf(ps', list') == Take(RunsOf(ps, list), i, k)
  {
    hide Marked, Chain, InRange, Canonical, AllocData, Take, AllocList;
    ListFacts(ps, list);
    AllocLengths(ps, list, i, k);
    var list' := AllocList(ps, list, i, k);
    forall x | 0 <= x < |list'|
      ensures list'[x] < |ps'| - 1 && Block(list'[x], ps'[list'[x]].run) == Take(RunsOf(ps, list), i, k)[x]
    {
      AllocRunAt(ps, ps', list, i, k, x);
    }
    assert RunsOf(ps', list') == Take(RunsOf(ps, list), i, k);
  }

  lemma AllocLengths(ps: seq<Page>, list: seq<nat>, i: nat, k: nat)
    requires i < |list| && (forall x | 0 <= x < |list| :: list[x] < |ps|) && k <= ps[list[i]].run
    ensures |AllocList(ps, list, i, k)| == |Take(RunsOf(ps, list), i, k)|
  {
  }

  lemma TakeAt(bs: seq<Block>, i: nat, n: int, x: nat)
    requires i < |bs| && x < |Take(bs, i, n)|
    ensures Take(bs, i, n)[x] ==
      if bs[i].len == n then bs[if x < i then x else x + 1]
      else if x == i then Block(bs[i].base + n, bs[i].len - n) else bs[x]
  {
  }

  /** The data of a run that is not the one allocated from, and of what that one leaves. */
  lemma AllocDataAt(ps: seq<Page>, ps': seq<Page>, p: nat, k: nat, y: nat)
    requires p < |ps| && AllocData(ps, ps', p, k) && y < |ps|
    ensures |ps'| == |ps|
    ensures ps[p].run <= k || y != p + k ==> ps'[y].run == ps[y].run
    ensures ps[p].run > k && p + k < |ps| ==> ps'[p + k].run == ps[p].run - k
  {
  }

  lemma AllocDataKeeps(ps: seq<Page>, ps': seq<Page>, p: nat, k: nat)
    requires p < |ps| && AllocData(ps, ps', p, k)
    ensures |ps'| == |ps|
    ensures forall x | 0 <= x < |ps| :: ps'[x].reserved == ps[x].reserved && ps'[x].ref == ps[x].ref
  {
  }

  lemma AllocSplitAt(ps: seq<Page>, ps': seq<Page>, list: seq<nat>, i: nat, k: nat, x: nat)
    requires FreeListOk(ps, list) && i < |list| && list[i] < |ps| - 1 && 0 < k < ps[list[i]].run
    requires AllocData(ps, ps', list[i], k) && x < |list|
    ensures list[i] + k < |ps| - 1 && list[x] < |ps| - 1 && |ps'| == |ps|
    ensures x != i ==> ps'[list[x]].run == ps[list[x]].run
    ensures ps'[list[i] + k].run == ps[list[i]].run - k
  {
    hide FreeListOk, AllocData;
    ListFacts(ps, list);
    AllocOff(ps, list, i, k);
    assert list[x] in list;
    AllocDataAt(ps, ps', list[i], k, list[x]);
  }

  lemma AllocExactAt(ps: seq<Page>, ps': seq<Page>, list: seq<nat>, i: nat, x: nat)
    requires FreeListOk(ps, list) && i < |list| && list[i] < |ps| - 1
    requires AllocData(ps, ps', list[i], ps[list[i]].run) && x < |list|
    ensures list[x] < |ps| - 1 && |ps'| == |ps| && ps'[list[x]].run == ps[list[x]].run
  {
    hide FreeListOk, AllocData;
    ListFacts(ps, list);
    AllocDataAt(ps, ps', list[i], ps[list[i]].run, list[x]);
  }

  lemma AllocListAt(ps: seq<Page>, list: seq<nat>, i: nat, k: nat, x: nat)
    requires i < |list| && list[i] < |ps| && k <= ps[list[i]].run && x < |AllocList(ps, list, i, k)|
    ensures var l := AllocList(ps, list, i, k);
      if ps[list[i]].run == k then (if x < i then x else x + 1) < |list| && l[x] == list[if x < i then x else x + 1]
      else x < |list| && l[x] == if x == i then list[i] + k else list[x]
  {
  }

  lemma AllocRunAt(ps: seq<Page>, ps': seq<Page>, list: seq<nat>, i: nat, k: nat, x: nat)
    requires FreeListOk(ps, list) && i < |list| && list[i] < |ps| - 1 && 0 < k <= ps[list[i]].run
    requires AllocData(ps, ps', list[i], k) && x < |AllocList(ps, list, i, k)|
    ensures forall y | 0 <= y < |list| :: list[y] < |ps|
    ensures x < |Take(RunsOf(ps, list), i, k)|
    ensures var l := AllocList(ps, list, i, k);
      l[x] < |ps'| - 1 && Block(l[x], ps'[l[x]].run) == Take(RunsOf(ps, list), i, k)[x]
  {
    hide FreeListOk, Take, AllocData, RunsOf, AllocList;
    ListFacts(ps, list);
    var bs := RunsOf(ps, list);
    AllocLengths(ps, list, i, k);
    AllocListAt(ps, list, i, k, x);
    TakeAt(bs, i, k, x);
    assert bs[i] == Block(list[i], ps[list[i]].run);
    if k < ps[list[i]].run {
      AllocSplitAt(ps, ps', list, i, k, x);
      assert bs[x] == Block(list[x], ps[list[x]].run);
    } else {
      var o := if x < i then x else x + 1;
      AllocExactAt(ps, ps', list, i, o);
      assert bs[o] == Block(list[o], ps[list[o]].run);
    }
  }

  /** The page where a split run goes on heads no other run. */
  lemma AllocOff(ps: seq<Page>, list: seq<nat>, i: nat, k: nat)
    requires FreeListOk(ps, list) && i < |list| && list[i] < |ps| - 1 && 0 < k < ps[list[i]].run
    ensures list[i] + k !in list && list[i] + k < |ps| - 1
    ensures forall j | i < j < |list| :: list[i] + k < list[j]
  {
    var bs := RunsOf(ps, list);
    assert bs[i].End() <= |ps| - 1;
    forall j | i < j < |list| ensures list[i] + k < list[j] {
      assert bs[i].End() < bs[j].base;
    }
    ListFacts(ps, list);
  }

  class FrameAllocator {
    const pages: array<Page>  // the last one stands for free_list
    var nrFree: nat
    ghost var list: seq<nat>

    ghost predicate Valid()
      reads this, pages
    {
      && pages.Length > 0 && FreeListOk(pages[..], list)
      && nrFree == Total(RunsOf(pages[..], list))
    }

    ghost function Runs(): seq<Block>
      reads this, pages
      requires Valid()
    {
      RunsOf(pages[..], list)
    }

    /** The descriptors as page_init leaves them, all reserved, and default_init's empty list. */
    constructor (n: nat)
      ensures Valid() && fresh(pages) && Runs() == [] && pages.Length == n + 1 && nrFree == 0
      ensures forall p | 0 <= p < n :: pages[p].reserved
    {
      pages := new Page[n + 1](_ => Page(0, true, false, 0, n, n));
      nrFree := 0;
      list := [];
      new;
      assert LinkAt(pages[..], list, 0);
    }

    /** default_init_memmap, called once. */
    method InitMemmap(base: nat, k: nat)
      requires Valid() && Runs() == [] && k > 0 && base + k <= pages.Length - 1
      requires forall p | base <= p < base + k :: pages[p].reserved
      modifies this, pages
      ensures Valid() && Runs() == [Block(base, k)] && nrFree == k
      ensures forall p | base <= p < base + k :: !pages[p].reserved && pages[p].ref == 0
      ensures forall p | 0 <= p < pages.Length - 1 && !(base <= p < base + k) ::
        pages[p].reserved == old(pages[p].reserved)
    {
      ghost var ps := pages[..];
      assert list == [];
      for p := base to base + k
        invariant pages.Length == |ps| && list == [] && nrFree == old(nrFree)
        invariant forall x | 0 <= x < |ps| ::
          pages[x] == (if base <= x < p then ps[x].(reserved := false, property := false, run := 0, ref := 0)
            else ps[x])
      {
        assert pages[p].reserved;
        pages[p] := pages[p].(reserved := false, property := false, run := 0, ref := 0);
      }
      pages[base] := pages[base].(run := k, property := true);
      nrFree := nrFree + k;
      SameLinksChain(ps, pages[..], list);
      ListAdd(base, 0);
      assert RunsOf(pages[..], list) == [Block(base, k)];
    }

    method ListDel(p: nat, ghost k: nat)
      requires pages.Length > 0 && Chain(pages[..], list) && k < |list| && list[k] == p
      modifies this`list, pages
      ensures LinkAt(old(pages[..]), old(list), k) && LinkAt(old(pages[..]), old(list), k + 1)
      ensures pages[..] == Unlinked(old(pages[..]), p) && list == old(list)[..k] + old(list)[k + 1..]
      ensures Chain(pages[..], list) && SameData(old(pages[..]), pages[..])
    {
      UnlinkedChain(pages[..], list, k);
      var q, r := pages[p].prev, pages[p].next;
      pages[q] := pages[q].(next := r);
      pages[r] := pages[r].(prev := q);
      list := list[..k] + list[k + 1..];
    }

    /** list_add_before for the entry in position `k` of the list, or for its head. */
    method ListAddBefore(le: nat, e: nat, ghost k: nat)
      requires pages.Length > 0 && Chain(pages[..], list) && k <= |list| && le == At(list, k, pages.Length - 1)
      requires e < pages.Length - 1
      requires forall i | 0 <= i < |list| :: if i < k then list[i] < e else e < list[i]
      modifies this`list, pages
      ensures list == old(list)[..k] + [e] + old(list)[k..]
      ensures Chain(pages[..], list) && SameData(old(pages[..]), pages[..])
    {
      LinkedChain(pages[..], list, k, e);
      var p := pages[le].prev;
      pages[le] := pages[le].(prev := e);
      pages[p] := pages[p].(next := e);
      pages[e] := pages[e].(next := le, prev := p);
      list := list[..k] + [e] + list[k..];
    }
  
    /** default_list_add */
    method ListAdd(e: nat, ghost k: nat)
      requires pages.Length > 0 && Chain(pages[..], list) && e < pages.Length - 1
      requires k <= |list| && forall i | 0 <= i < |list| :: list[i] < pages.Length
      requires forall i | 0 <= i < |list| ::
        if i < k then list[i] < e && list[i] + pages[list[i]].run <= e else e < list[i] && e + pages[e].run <= list[i]
      modifies this`list, pages
      ensures list == old(list)[..k] + [e] + old(list)[k..]
      ensures Chain(pages[..], list) && SameData(old(pages[..]), pages[..])
    {
      hide Chain;
      ghost var ps := pages[..];
      ghost var i: nat := 0;
      var n := pages.Length - 1;
      NextAt(ps, list, 0);
      var le := pages[n].next;
      while le != n
        modifies {}
        invariant i <= k && le == At(list, i, n) && pages[..] == ps && (le == n <==> i == |list|)
        decreases |list| - i
      {
        assert e != le;
        if e < le {
          assert e + pages[e].run <= le;
          break;
        }
        assert le + pages[le].run <= e;
        i := i + 1;
        NextAt(ps, list, i);
        le := pages[le].next;
      }
      ListAddBefore(le, e, k);
    }

    /** The search of default_alloc_pages; the head stands for no page. */
    method FindRun(k: nat) returns (le: nat, ghost i: nat)
      requires Valid()
      ensures i <= |list| && le == At(list, i, pages.Length - 1) && (le == pages.Length - 1 <==> i == |list|)
      ensures forall q | 0 <= q < i :: Runs()[q].len < k
      ensures i < |list| ==> Runs()[i].len >= k
    {
      hide FreeListOk, Chain;
      ghost var ps, bs := pages[..], Runs();
      ListFacts(ps, list);
      var n := pages.Length - 1;
      NextAt(ps, list, 0);
      le, i := pages[n].next, 0;
      while le != n
        modifies {}
        invariant i <= |list| && le == At(list, i, n) && pages[..] == ps && (le == n <==> i == |list|)
        invariant forall q | 0 <= q < i :: bs[q].len < k
        decreases |list| - i
      {
        RunAt(ps, list, i);
        if pages[le].run >= k {
          break;
        }
        i := i + 1;
        NextAt(ps, list, i);
        le := pages[le].next;
      }
    }

    /** default_alloc_pages */
    method AllocPages(k: nat) returns (page: Option<nat>, ghost i: nat)
      requires Valid() && k > 0
      modifies this, pages
      ensures Valid()
      ensures page.None? ==> Runs() == old(Runs()) && forall q | 0 <= q < |Runs()| :: Runs()[q].len < k
      ensures page.Some? ==>
        && i < |old(Runs())| && page.value == old(Runs())[i].base && old(Runs())[i].len >= k
        && (forall q | 0 <= q < i :: old(Runs())[q].len < k)
        && Runs() == Take(old(Runs()), i, k)
      ensures forall p | 0 <= p < pages.Length - 1 ::
        pages[p].reserved == old(pages[p].reserved) && pages[p].ref == old(pages[p].ref)
    {
      hide FreeListOk, Total, Take;
      if k > nrFree {
        ShortRuns(pages[..], list, k);
        return None, 0;
      }
      var le;
      le, i := FindRun(k);
      if le == pages.Length - 1 {
        return None, i;
      }
      RunAt(pages[..], list, i);
      TakeRun(le, k, i);
      page := Some(le);
    }

    /** The remainder of a split run goes where the run was. */
    method LinkRest(p: nat, k: nat, ghost ps: seq<Page>, ghost l: seq<nat>, ghost i: nat)
      requires pages.Length > 0 && FreeListOk(ps, l) && i < |l| && p == l[i] && p < |ps| - 1 && 0 < k < ps[p].run
      requires LinkAt(ps, l, i) && LinkAt(ps, l, i + 1) && pages[..] == Unlinked(ps, p)
      requires list == l[..i] + l[i + 1..] && Chain(pages[..], list) && SameData(ps, pages[..])
      modifies this`list, pages
      ensures list == l[i := p + k] && Chain(pages[..], list)
      ensures SameData(ps[p + k := ps[p + k].(run := ps[p].run - k, property := true)], pages[..])
    {
      hide Chain, FreeListOk, LinkAt, RunsOf, Unlinked, SameData;
      RestFacts(ps, l, i, k, pages[..], list);
      var q := p + k;
      ghost var before := pages[..];
      pages[q] := pages[q].(run := pages[p].run - k, property := true);
      ghost var marked := pages[..];
      SameLinksChain(before, marked, list);
      NextAt(marked, list, i);
      var le := pages[pages[p].prev].next;
      ListAddBefore(le, q, i);
      RestData(ps, before, marked, pages[..], p, q, k);
    }

    /** default_alloc_pages once a run at `p` is found to be long enough. */
    method TakeRun(p: nat, k: nat, ghost i: nat)
      requires Valid() && i < |list| && p == list[i] && p < pages.Length - 1 && 0 < k <= pages[p].run
      modifies this, pages
      ensures Valid() && Runs() == Take(old(Runs()), i, k)
      ensures forall p | 0 <= p < pages.Length - 1 ::
        pages[p].reserved == old(pages[p].reserved) && pages[p].ref == old(pages[p].ref)
    {
      hide FreeListOk, Total, Take, Chain, RunsOf, Canonical, LinkAt, Unlinked;
      ghost var ps, l := pages[..], list;
      ListFacts(ps, l);
      RunAt(ps, l, i);
      TakeTotal(RunsOf(ps, l), i, k);
      FitsTotal(ps, l, i);
      ListDel(p, i);
      if pages[p].run > k {
        LinkRest(p, k, ps, l, i);
      }
      ghost var before := pages[..];
      nrFree := nrFree - k;
      pages[p] := pages[p].(property := false);
      SameLinksChain(before, pages[..], list);
      AllocOk(ps, pages[..], l, i, k);
      AllocDataKeeps(ps, pages[..], p, k);
    }

    /** The freed block is the neighbour below the run `p`: it takes the run's pages. */
    method AbsorbHigh(base: nat, p: nat, ghost k: nat)
      requires pages.Length > 0 && Chain(pages[..], list) && k < |list| && list[k] == p && p < pages.Length - 1
      requires base < pages.Length - 1 && base != p
      modifies this`list, pages
      ensures list == old(list)[..k] + old(list)[k + 1..] && Chain(pages[..], list)
      ensures SameData(old(pages[..])[base := old(pages[base]).(run := old(pages[base].run + pages[p].run))]
                                     [p := old(pages[p]).(property := false)], pages[..])
    {
      ghost var before := pages[..];
      pages[base] := pages[base].(run := pages[base].run + pages[p].run);
      pages[p] := pages[p].(property := false);
      SameLinksChain(before, pages[..], list);
      ListDel(p, k);
    }

    /** The freed block is the neighbour above the run `p`: the run takes it over and leaves the list. */
    method AbsorbLow(base: nat, p: nat, ghost k: nat)
      requires pages.Length > 0 && Chain(pages[..], list) && k < |list| && list[k] == p && p < pages.Length - 1
      requires base < pages.Length - 1 && base != p
      modifies this`list, pages
      ensures list == old(list)[..k] + old(list)[k + 1..] && Chain(pages[..], list)
      ensures SameData(old(pages[..])[p := old(pages[p]).(run := old(pages[base].run + pages[p].run))]
                                     [base := old(pages[base]).(property := false)], pages[..])
    {
      ghost var before := pages[..];
      pages[p] := pages[p].(run := pages[p].run + pages[base].run);
      pages[base] := pages[base].(property := false);
      SameLinksChain(before, pages[..], list);
      ListDel(p, k);
    }

    /** One turn of the loop of default_free_pages, for the run at `p`, the `i`-th. */
    method MergeStep(base: nat, p: nat, ghost ps0: seq<Page>, ghost l0: seq<nat>, ghost j: nat, ghost b: Block,
                     ghost i: nat)
      returns (base': nat)
      requires Freeing(ps0, l0, j, b) && i < |l0| && p == l0[i] && p < |ps0| - 1
      requires pages.Length > 0 && StageOk(ps0, l0, j, b, i, pages[..], list, base)
      modifies this`list, pages
      ensures StageOk(ps0, l0, j, b, i + 1, pages[..], list, base')
    {
      hide Chain, Freeing, StageOk;
      ghost var ps, l := pages[..], list;
      ghost var k := StageFacts(ps0, l0, j, b, i, ps, l, base);
      base' := base;
      if base + pages[base].run == p {
        AbsorbHigh(base, p, k);
        HighStage(ps0, l0, j, b, i, ps, l, base, k, pages[..]);
      } else if p + pages[p].run == base {
        AbsorbLow(base, p, k);
        LowStage(ps0, l0, j, b, i, ps, l, base, k, pages[..]);
        base' := p;
      } else {
        SameStage(ps0, l0, j, b, i, ps, l, base, k);
      }
    }

    /** The loop of default_free_pages: the block at `base0`, not yet in the list, takes in the runs it touches. */
    method MergeNeighbours(base0: nat, ghost j: nat, ghost b: Block) returns (base: nat)
      requires pages.Length > 0 && Chain(pages[..], list) && base0 < pages.Length - 1
      requires Freeing(pages[..], list, j, b) && b.base == base0
      modifies this`list, pages
      ensures StageOk(old(pages[..]), old(list), j, b, |old(list)|, pages[..], list, base)
    {
      hide Chain, Freeing, StageOk;
      ghost var ps0, l0 := pages[..], list;
      ghost var i: nat := 0;
      var n := pages.Length - 1;
      NextAt(pages[..], list, 0);
      base := base0;
      StageStart(ps0, l0, j, b);
      var le := pages[n].next;
      while le != n
        invariant i <= |l0| && le == At(l0, i, n) && (le == n <==> i == |l0|)
        invariant StageOk(ps0, l0, j, b, i, pages[..], list, base)
        decreases |l0| - i
      {
        var p := le;
        FollowNext(ps0, l0, j, b, i, pages[..], list, base);
        le := pages[le].next;
        base := MergeStep(base, p, ps0, l0, j, b, i);
        i := i + 1;
      }
    }

    /** The clearing loop at the start of default_free_pages. */
    method ClearRange(base: nat, k: nat)
      requires pages.Length > 0 && base + k <= pages.Length - 1
      requires forall p | base <= p < base + k :: !pages[p].reserved && !pages[p].property
      modifies pages
      ensures Cleared(old(pages[..]), pages[..], base, k)
    {
      for p := base to base + k
        invariant Cleared(old(pages[..]), pages[..], base, p - base)
      {
        assert !pages[p].reserved && !pages[p].property;
        pages[p] := pages[p].(reserved := false, property := false, ref := 0);
      }
    }

    /** default_free_pages, of pages that are neither free nor reserved. */
    method FreePages(base: nat, k: nat) returns (ghost j: nat)
      requires Valid() && k > 0 && base + k <= pages.Length - 1 && Apart(Runs(), Block(base, k))
      requires forall p | base <= p < base + k :: !pages[p].reserved
      modifies this, pages
      ensures Valid() && Between(old(Runs()), j, Block(base, k)) && Runs() == Give(old(Runs()), j, Block(base, k))
      ensures forall p | base <= p < base + k :: pages[p].ref == 0 && !pages[p].reserved
      ensures forall p | 0 <= p < pages.Length - 1 && !(base <= p < base + k) ::
        pages[p].ref == old(pages[p].ref) && pages[p].reserved == old(pages[p].reserved)
    {
      hide FreeListOk, Total, Give, Chain, RunsOf, Canonical, Cleared, Freeing, StageOk, Between, Apart;
      ghost var ps0, l0, bs, b := pages[..], list, Runs(), Block(base, k);
      j := GapForRange(ps0, l0, base, k);
      ClearRange(base, k);
      ghost var cleared := pages[..];
      pages[base] := pages[base].(run := k, property := true);
      FreeingReady(ps0, cleared, pages[..], l0, j, base, k);
      ghost var ps1 := pages[..];
      var head := MergeNeighbours(base, j, b);
      nrFree := nrFree + k;
      PlaceFacts(ps1, l0, j, b, pages[..], list, head);
      ghost var at := if TouchesLow(bs, j, b) then j - 1 else j;
      ghost var ps2, l2 := pages[..], list;
      ListAdd(head, at);
      FreedOk(ps0, ps1, l0, j, b, ps2, l2, head, pages[..], list);
    }
  }

  ghost predicate Cleared(ps: seq<Page>, ps': seq<Page>, base: nat, k: int) {
    && |ps'| == |ps|
    && forall x | 0 <= x < |ps| ::
         ps'[x] == if base <= x < base + k then ps[x].(reserved := false, property := false, ref := 0) else ps[x]
  }

  lemma HeadsCovered(ps: seq<Page>, list: seq<nat>)
    requires FreeListOk(ps, list)
    ensures forall i | 0 <= i < |list| :: list[i] < |ps| && Covers(RunsOf(ps, list), list[i])
  {
    ListFacts(ps, list);
    forall i | 0 <= i < |list| ensures Covers(RunsOf(ps, list), list[i]) {
      assert RunsOf(ps, list)[i].Has(list[i]);
    }
  }

  lemma NotInList(ps: seq<Page>, list: seq<nat>, p: nat)
    requires FreeListOk(ps, list) && !Covers(RunsOf(ps, list), p) && p < |ps| - 1
    ensures p !in list && !ps[p].property
  {
    HeadsCovered(ps, list);
    MembersAre(list);
  }

  lemma GapForRange(ps: seq<Page>, list: seq<nat>, base: nat, k: nat) returns (j: nat)
    requires FreeListOk(ps, list) && k > 0 && Apart(RunsOf(ps, list), Block(base, k)) && base + k <= |ps| - 1
    ensures Between(RunsOf(ps, list), j, Block(base, k)) && j <= |list|
    ensures forall p | base <= p < base + k :: p !in list && !ps[p].property
  {
    hide Chain, InRange, Marked, Canonical, Between, Covers;
    ListFacts(ps, list);
    j := FindGap(RunsOf(ps, list), Block(base, k));
    BetweenIndex(RunsOf(ps, list), j, Block(base, k));
    forall p | base <= p < base + k ensures p !in list && !ps[p].property {
      assert Block(base, k).Has(p);
      NotInList(ps, list, p);
    }
  }

  /** Clearing and marking the freed block prepares the merging loop and changes no run. */
  lemma FreeingReady(ps0: seq<Page>, ps: seq<Page>, ps1: seq<Page>, list: seq<nat>, j: nat, base: nat, k: nat)
    requires FreeListOk(ps0, list) && k > 0 && base + k <= |ps0| - 1 && Between(RunsOf(ps0, list), j, Block(base, k))
    requires forall p | base <= p < base + k :: p !in list && !ps0[p].property
    requires Cleared(ps0, ps, base, k) && ps1 == ps[base := ps[base].(run := k, property := true)]
    ensures Chain(ps1, list) && Freeing(ps1, list, j, Block(base, k)) && RunsOf(ps1, list) == RunsOf(ps0, list)
  {
    ListFacts(ps0, list);
    SameLinksChain(ps0, ps1, list);
    hide Chain, InRange, Canonical, Between;
    assert RunsOf(ps1, list) == RunsOf(ps0, list);
    MembersAre(list);
  }

  lemma MembersAre(list: seq<nat>)
    ensures forall x :: x in Members(list) <==> x in list
  {
  }

  /** `b` is about to join the runs of the list, between the first `j` and the rest; its own descriptor is ready. */
  ghost predicate Freeing(ps: seq<Page>, list: seq<nat>, j: nat, b: Block) {
    && |ps| > 0 && (forall i | 0 <= i < |list| :: list[i] < |ps| - 1)
    && Canonical(RunsOf(ps, list)) && Between(RunsOf(ps, list), j, b)
    && 0 <= b.base < |ps| - 1 && b.base !in list && StageData(ps, ps, list, b)
  }

  ghost predicate StageOk(ps0: seq<Page>, l0: seq<nat>, j: nat, b: Block, i: nat, ps: seq<Page>, list: seq<nat>,
                          base: nat)
    requires Freeing(ps0, l0, j, b)
  {
    var bs := RunsOf(ps0, l0);
    && base < |ps| - 1 && base == Stage(bs, j, b, i).base
    && Chain(ps, list) && list == StageList(l0, j, TouchesLow(bs, j, b), TouchesHigh(bs, j, b), i)
    && StageData(ps0, ps, list, Stage(bs, j, b, i))
  }

  lemma ChainAscends(ps: seq<Page>, list: seq<nat>)
    requires Chain(ps, list)
    ensures Ascending(list)
  {
  }

  lemma StageStart(ps: seq<Page>, list: seq<nat>, j: nat, b: Block)
    requires Freeing(ps, list, j, b) && Chain(ps, list)
    ensures StageOk(ps, list, j, b, 0, ps, list, b.base)
  {
    hide Chain, Canonical, Between, Stage, StageList, StageData;
    var bs := RunsOf(ps, list);
    BetweenIndex(bs, j, b);
    StageZero(bs, list, j, b);
  }

  lemma StageZero(bs: seq<Block>, list: seq<nat>, j: nat, b: Block)
    requires j <= |bs| == |list|
    ensures Stage(bs, j, b, 0) == b
    ensures (TouchesLow(bs, j, b) ==> j > 0) && (TouchesHigh(bs, j, b) ==> j < |list|)
    ensures StageList(list, j, TouchesLow(bs, j, b), TouchesHigh(bs, j, b), 0) == list
  {
  }

  /** What one turn of the loop finds: the run is in the list, and which test holds is decided by its place. */
  lemma StageFacts(ps0: seq<Page>, l0: seq<nat>, j: nat, b: Block, i: nat, ps: seq<Page>, list: seq<nat>, base: nat)
    returns (k: nat)
    requires Freeing(ps0, l0, j, b) && StageOk(ps0, l0, j, b, i, ps, list, base) && i < |l0|
    ensures k < |list| && list[k] == l0[i] < |ps| - 1 && base < |ps| - 1 && base != l0[i] && Chain(ps, list)
    ensures k == Pos(j, TouchesLow(RunsOf(ps0, l0), j, b), TouchesHigh(RunsOf(ps0, l0), j, b), i)
    ensures base + ps[base].run == l0[i] <==> i == j && TouchesHigh(RunsOf(ps0, l0), j, b)
    ensures l0[i] + ps[l0[i]].run == base <==> i == j - 1 && TouchesLow(RunsOf(ps0, l0), j, b)
  {
    hide Chain, Canonical, Between, StageList, StageData, Stage;
    var bs := RunsOf(ps0, l0);
    BetweenIndex(bs, j, b);
    var low, high := TouchesLow(bs, j, b), TouchesHigh(bs, j, b);
    StageAt(l0, j, low, high, i, |ps| - 1);
    StageTests(bs, j, b, i);
    StageOff(bs, j, b, i);
    StageLooks(ps0, ps, list, Stage(bs, j, b, i), l0[i]);
    k := Pos(j, low, high, i);
  }

  lemma BetweenIndex(bs: seq<Block>, j: nat, b: Block)
    requires Between(bs, j, b)
    ensures j <= |bs| && b.len > 0
  {
  }

  lemma FollowNext(ps0: seq<Page>, l0: seq<nat>, j: nat, b: Block, i: nat, ps: seq<Page>, list: seq<nat>, base: nat)
    requires Freeing(ps0, l0, j, b) && StageOk(ps0, l0, j, b, i, ps, list, base) && i < |l0|
    ensures l0[i] < |ps| - 1 && ps[l0[i]].next == At(l0, i + 1, |ps| - 1)
    ensures At(l0, i + 1, |ps| - 1) == |ps| - 1 <==> i + 1 == |l0|
    ensures |ps| == |ps0|
  {
    hide Canonical, Stage, StageList, Chain;
    var bs := RunsOf(ps0, l0);
    var low, high := TouchesLow(bs, j, b), TouchesHigh(bs, j, b);
    StageAt(l0, j, low, high, i, |ps| - 1);
    NextAt(ps, list, Pos(j, low, high, i) + 1);
  }

  lemma SameStage(ps0: seq<Page>, l0: seq<nat>, j: nat, b: Block, i: nat, ps: seq<Page>, list: seq<nat>, base: nat,
                  k: nat)
    requires Freeing(ps0, l0, j, b) && StageOk(ps0, l0, j, b, i, ps, list, base) && i < |l0|
    requires !(i == j && TouchesHigh(RunsOf(ps0, l0), j, b)) && !(i == j - 1 && TouchesLow(RunsOf(ps0, l0), j, b))
    ensures StageOk(ps0, l0, j, b, i + 1, ps, list, base)
  {
    hide Chain, Canonical, StageList, StageData, Stage;
    var bs := RunsOf(ps0, l0);
    StageStep(l0, j, TouchesLow(bs, j, b), TouchesHigh(bs, j, b), i);
    StageNext(bs, j, b, i);
  }

  lemma HighStage(ps0: seq<Page>, l0: seq<nat>, j: nat, b: Block, i: nat, ps: seq<Page>, list: seq<nat>, base: nat,
                  k: nat, ps': seq<Page>)
    requires Freeing(ps0, l0, j, b) && StageOk(ps0, l0, j, b, i, ps, list, base) && i < |l0|
    requires i == j && TouchesHigh(RunsOf(ps0, l0), j, b)
    requires k < |list| && list[k] == l0[i] < |ps| - 1 && base != l0[i]
    requires k == Pos(j, TouchesLow(RunsOf(ps0, l0), j, b), true, i)
    requires SameData(ps[base := ps[base].(run := ps[base].run + ps[l0[i]].run)]
                        [l0[i] := ps[l0[i]].(property := false)], ps')
    requires Chain(ps', list[..k] + list[k + 1..])
    ensures StageOk(ps0, l0, j, b, i + 1, ps', list[..k] + list[k + 1..], base)
  {
    hide Chain, Canonical, StageList, StageData, Stage;
    var bs := RunsOf(ps0, l0);
    StageStep(l0, j, TouchesLow(bs, j, b), true, i);
    StageNext(bs, j, b, i);
    StagePositive(bs, j, b, i);
    ChainAscends(ps, list);
    StageLooks(ps0, ps, list, Stage(bs, j, b, i), l0[i]);
    HighData(ps0, ps, ps', list, k, Stage(bs, j, b, i), ps[l0[i]].run);
  }

  /** What is known when the run below is met: the block is still as it was freed. */
  lemma LowMet(ps0: seq<Page>, l0: seq<nat>, j: nat, b: Block, i: nat, ps: seq<Page>, list: seq<nat>, base: nat)
    requires Freeing(ps0, l0, j, b) && StageOk(ps0, l0, j, b, i, ps, list, base) && i < |l0|
    requires i == j - 1 && TouchesLow(RunsOf(ps0, l0), j, b)
    ensures base == b.base < |ps| - 1 && Ascending(list) && b.base !in list
    ensures StageData(ps0, ps, list, b) && StageData(ps0, ps0, l0, b)
    ensures var bs := RunsOf(ps0, l0);
      Stage(bs, j, b, i + 1) == Block(l0[i], b.len + bs[i].len) && bs[i].base == l0[i] != b.base
  {
    hide Chain, Canonical, StageList, StageData, Stage;
    var bs := RunsOf(ps0, l0);
    StageNext(bs, j, b, i);
    StageOff(bs, j, b, i);
    TouchesIndex(bs, j, b);
    StageSub(l0, j, true, TouchesHigh(bs, j, b), i, b.base);
    ChainAscends(ps, list);
  }

  lemma LowLeaves(ps0: seq<Page>, l0: seq<nat>, j: nat, b: Block, i: nat, ps: seq<Page>, list: seq<nat>, base: nat)
    requires Freeing(ps0, l0, j, b) && StageOk(ps0, l0, j, b, i, ps, list, base) && i < |l0|
    requires i == j - 1 && TouchesLow(RunsOf(ps0, l0), j, b)
    ensures j <= |l0| && var low, high := true, TouchesHigh(RunsOf(ps0, l0), j, b);
      var k := Pos(j, low, high, i);
      && (high ==> j < |l0|) && 0 <= k < |list|
      && list[..k] + list[k + 1..] == StageList(l0, j, low, high, i + 1)
  {
    hide Chain, Canonical, StageList, StageData, Stage;
    TouchesIndex(RunsOf(ps0, l0), j, b);
    StageStep(l0, j, true, TouchesHigh(RunsOf(ps0, l0), j, b), i);
  }

  lemma LowStage(ps0: seq<Page>, l0: seq<nat>, j: nat, b: Block, i: nat, ps: seq<Page>, list: seq<nat>, base: nat,
                 k: nat, ps': seq<Page>)
    requires Freeing(ps0, l0, j, b) && StageOk(ps0, l0, j, b, i, ps, list, base) && i < |l0|
    requires i == j - 1 && TouchesLow(RunsOf(ps0, l0), j, b)
    requires k < |list| && list[k] == l0[i] < |ps| - 1 && base != l0[i]
    requires k == Pos(j, true, TouchesHigh(RunsOf(ps0, l0), j, b), i)
    requires SameData(ps[l0[i] := ps[l0[i]].(run := ps[base].run + ps[l0[i]].run)]
                        [base := ps[base].(property := false)], ps')
    requires Chain(ps', list[..k] + list[k + 1..])
    ensures StageOk(ps0, l0, j, b, i + 1, ps', list[..k] + list[k + 1..], l0[i])
  {
    hide Chain, Canonical, Between, StageList, StageData, Stage, Freeing, StageOk, SameData, TouchesLow, TouchesHigh,
         Ascending, Pos, RunsOf;
    LowMet(ps0, l0, j, b, i, ps, list, base);
    LowLeaves(ps0, l0, j, b, i, ps, list, base);
    FreeingRange(ps0, l0, j, b);
    LowRuns(ps0, ps, list, l0, b, l0[i]);
    LowData(ps0, ps, ps', list, k, b, ps[l0[i]].run);
    LowLength(ps0, l0, i);
    SameDataLength(ps, l0[i], base, ps');
    StageMade(ps0, l0, j, b, i + 1, ps', list[..k] + list[k + 1..], l0[i]);
  }

  lemma StageMade(ps0: seq<Page>, l0: seq<nat>, j: nat, b: Block, i: nat, ps: seq<Page>, list: seq<nat>, base: nat)
    requires Freeing(ps0, l0, j, b) && j <= |l0| && base < |ps| - 1 && Chain(ps, list)
    requires var bs := RunsOf(ps0, l0);
      && (TouchesLow(bs, j, b) ==> j > 0) && (TouchesHigh(bs, j, b) ==> j < |l0|)
      && base == Stage(bs, j, b, i).base && StageData(ps0, ps, list, Stage(bs, j, b, i))
      && list == StageList(l0, j, TouchesLow(bs, j, b), TouchesHigh(bs, j, b), i)
    ensures StageOk(ps0, l0, j, b, i, ps, list, base)
  {
    hide Chain, StageList, StageData, Stage;
  }

  lemma LowRuns(ps0: seq<Page>, ps: seq<Page>, list: seq<nat>, l0: seq<nat>, b: Block, p: nat)
    requires StageData(ps0, ps, list, b) && StageData(ps0, ps0, l0, b)
    requires p < |ps| - 1 && 0 <= b.base < |ps| - 1 && p != b.base
    ensures |ps| == |ps0| && ps[p].run == ps0[p].run && ps0[b.base].run == b.len
  {
  }

  lemma LowLength(ps0: seq<Page>, l0: seq<nat>, i: nat)
    requires i < |l0| && forall q | 0 <= q < |l0| :: l0[q] < |ps0|
    ensures RunsOf(ps0, l0)[i].len == ps0[l0[i]].run
  {
  }

  lemma SameDataLength(ps: seq<Page>, p: nat, base: nat, ps': seq<Page>)
    requires p < |ps| && base < |ps|
    requires SameData(ps[p := ps[p].(run := ps[base].run + ps[p].run)][base := ps[base].(property := false)], ps')
    ensures |ps'| == |ps|
  {
  }

  lemma StagePositive(bs: seq<Block>, j: nat, b: Block, i: nat)
    requires Canonical(bs) && Between(bs, j, b)
    ensures Stage(bs, j, b, i).len >= 0
  {
    assert j > 0 ==> bs[j - 1].len > 0;
    assert j < |bs| ==> bs[j].len > 0;
  }

  lemma StageLooks(ps0: seq<Page>, ps: seq<Page>, list: seq<nat>, cur: Block, p: nat)
    requires StageData(ps0, ps, list, cur) && p < |ps0| - 1 && 0 <= cur.base < |ps| - 1 && p != cur.base
    ensures |ps0| == |ps| && ps[p].run == ps0[p].run && ps[cur.base].run == cur.len
  {
  }

  lemma PlaceShape(ps1: seq<Page>, l0: seq<nat>, j: nat, b: Block, ps2: seq<Page>, l2: seq<nat>, head: nat)
    requires Freeing(ps1, l0, j, b) && StageOk(ps1, l0, j, b, |l0|, ps2, l2, head)
    ensures var bs := RunsOf(ps1, l0);
      var m := Merged(bs, j, b);
      && head == m.base && head < |ps2| - 1 && Chain(ps2, l2) && StageData(ps1, ps2, l2, m) && |ps2| == |ps1|
      && l2 == l0[..if TouchesLow(bs, j, b) then j - 1 else j] + l0[if TouchesHigh(bs, j, b) then j + 1 else j..]
  {
    hide Chain, Canonical;
    StageEnd(RunsOf(ps1, l0), j, b);
  }

  lemma PlaceOrder(bs: seq<Block>, j: nat, b: Block, i: nat)
    requires Canonical(bs) && Between(bs, j, b) && i < |bs|
    ensures var m := Merged(bs, j, b);
      && (i < (if TouchesLow(bs, j, b) then j - 1 else j) ==> bs[i].base < bs[i].End() < m.base)
      && (i >= (if TouchesHigh(bs, j, b) then j + 1 else j) ==> m.End() < bs[i].base)
      && m.len > 0
  {
    GiveGaps(bs, j, b);
    assert bs[i].len > 0;
    if i < (if TouchesLow(bs, j, b) then j - 1 else j) {
      assert bs[i] == bs[..if TouchesLow(bs, j, b) then j - 1 else j][i];
    }
    if i >= (if TouchesHigh(bs, j, b) then j + 1 else j) {
      assert bs[i]
        == bs[if TouchesHigh(bs, j, b) then j + 1 else j..][i - (if TouchesHigh(bs, j, b) then j + 1 else j)];
    }
  }

  /** After the loop the list is ready for the merged block: what comes before it ends there, and what comes after
    * starts beyond.
    */
  ghost predicate Placeable(ps1: seq<Page>, ps2: seq<Page>, l2: seq<nat>, k: nat, m: Block) {
    && |ps2| == |ps1| && 0 <= m.base < |ps2| - 1 && k <= |l2| && ps2[m.base].run == m.len
    && (forall i | 0 <= i < |l2| :: l2[i] < |ps2| - 1 && ps2[l2[i]].run == ps1[l2[i]].run)
    && (forall i | 0 <= i < |l2| ::
          if i < k then l2[i] < m.base && l2[i] + ps2[l2[i]].run <= m.base
          else m.base < l2[i] && m.End() <= l2[i])
  }

  lemma PlaceFacts(ps1: seq<Page>, l0: seq<nat>, j: nat, b: Block, ps2: seq<Page>, l2: seq<nat>, head: nat)
    requires Freeing(ps1, l0, j, b) && StageOk(ps1, l0, j, b, |l0|, ps2, l2, head)
    ensures Chain(ps2, l2) && j <= |l0| && (TouchesLow(RunsOf(ps1, l0), j, b) ==> j > 0)
    ensures head == Merged(RunsOf(ps1, l0), j, b).base
    ensures Placeable(ps1, ps2, l2, if TouchesLow(RunsOf(ps1, l0), j, b) then j - 1 else j,
      Merged(RunsOf(ps1, l0), j, b))
  {
    hide Chain, Canonical, Between, StageOk, StageData, Merged, TouchesLow, TouchesHigh;
    var bs := RunsOf(ps1, l0);
    BetweenIndex(bs, j, b);
    TouchesIndex(bs, j, b);
    PlaceShape(ps1, l0, j, b, ps2, l2, head);
    var k, c := if TouchesLow(bs, j, b) then j - 1 else j, if TouchesHigh(bs, j, b) then j + 1 else j;
    forall i | 0 <= i < |l2|
      ensures l2[i] < |ps2| - 1 && ps2[l2[i]].run == ps1[l2[i]].run
      ensures if i < k then l2[i] < head && l2[i] + ps2[l2[i]].run <= head
              else head < l2[i] && Merged(bs, j, b).End() <= l2[i]
    {
      var o := if i < k then i else i - k + c;
      assert l2[i] == l0[o];
      PlaceOrder(bs, j, b, o);
      StageLooks(ps1, ps2, l2, Merged(bs, j, b), l0[o]);
    }
    MarkedHead(ps1, ps2, l2, Merged(bs, j, b));
  }

  lemma TouchesIndex(bs: seq<Block>, j: nat, b: Block)
    requires j <= |bs|
    ensures (TouchesLow(bs, j, b) ==> j > 0) && (TouchesHigh(bs, j, b) ==> j < |bs|)
  {
  }

  lemma MarkedHead(ps0: seq<Page>, ps: seq<Page>, list: seq<nat>, cur: Block)
    requires StageData(ps0, ps, list, cur) && 0 <= cur.base < |ps| - 1
    ensures ps[cur.base].run == cur.len
  {
  }

  lemma FreedRunAt(bs: seq<Block>, l0: seq<nat>, l3: seq<nat>, ps3: seq<Page>, a: nat, c: nat, m: Block, head: nat,
                   x: nat)
    requires |bs| == |l0| && a <= c <= |l0| && head == m.base && l3 == l0[..a] + [head] + l0[c..] && x < |l3|
    requires head < |ps3| && ps3[head].run == m.len
    requires forall i | 0 <= i < |l0| && (i < a || c <= i) :: l0[i] < |ps3| && bs[i] == Block(l0[i], ps3[l0[i]].run)
    ensures l3[x] < |ps3| && (bs[..a] + [m] + bs[c..])[x] == Block(l3[x], ps3[l3[x]].run)
  {
    if x < a {
      assert l3[x] == l0[x];
    } else if x > a {
      assert l3[x] == l0[x - a - 1 + c];
    }
  }

  lemma FreedParts(ps1: seq<Page>, l0: seq<nat>, j: nat, b: Block, ps2: seq<Page>, l2: seq<nat>, head: nat,
                   ps3: seq<Page>,
                   a: nat, c: nat)
    requires Freeing(ps1, l0, j, b) && StageOk(ps1, l0, j, b, |l0|, ps2, l2, head) && SameData(ps2, ps3)
    requires j <= |l0| && a == (if TouchesLow(RunsOf(ps1, l0), j, b) then j - 1 else j)
    requires c == if TouchesHigh(RunsOf(ps1, l0), j, b) then j + 1 else j
    ensures a <= c <= |l0| && a <= |l2| && l2[..a] == l0[..a] && l2[a..] == l0[c..]
    ensures head < |ps3| && ps3[head].run == Merged(RunsOf(ps1, l0), j, b).len
      && head == Merged(RunsOf(ps1, l0), j, b).base
    ensures forall i | 0 <= i < |l0| && (i < a || c <= i) :: l0[i] < |ps3| && ps3[l0[i]].run == ps1[l0[i]].run
  {
    hide Chain, Canonical, Between, StageOk, Merged, StageData, TouchesLow, TouchesHigh, RunsOf;
    TouchesIndex(RunsOf(ps1, l0), j, b);
    PlaceShape(ps1, l0, j, b, ps2, l2, head);
    PlaceFacts(ps1, l0, j, b, ps2, l2, head);
    forall i | 0 <= i < |l0| && (i < a || c <= i) ensures l0[i] < |ps3| && ps3[l0[i]].run == ps1[l0[i]].run {
      assert l2[if i < a then i else i - c + a] == l0[i];
    }
  }

  /** The final list is the list of runs with the merged block in its place. */
  lemma FreedRuns(ps1: seq<Page>, l0: seq<nat>, j: nat, b: Block, ps2: seq<Page>, l2: seq<nat>, head: nat,
                  ps3: seq<Page>, l3: seq<nat>)
    requires Freeing(ps1, l0, j, b) && StageOk(ps1, l0, j, b, |l0|, ps2, l2, head) && SameData(ps2, ps3)
    requires j <= |l0| && (TouchesLow(RunsOf(ps1, l0), j, b) ==> j > 0)
    requires var k := if TouchesLow(RunsOf(ps1, l0), j, b) then j - 1 else j;
      k <= |l2| && l3 == l2[..k] + [head] + l2[k..]
    ensures (forall x | 0 <= x < |l3| :: l3[x] < |ps3|) && RunsOf(ps3, l3) == Give(RunsOf(ps1, l0), j, b)
  {
    hide Chain, Canonical, Between, StageOk, Merged, StageData, TouchesLow, TouchesHigh, Freeing, SameData;
    FreeingRange(ps1, l0, j, b);
    var bs := RunsOf(ps1, l0);
    var m := Merged(bs, j, b);
    var a, c := if TouchesLow(bs, j, b) then j - 1 else j, if TouchesHigh(bs, j, b) then j + 1 else j;
    FreedParts(ps1, l0, j, b, ps2, l2, head, ps3, a, c);
    forall x | 0 <= x < |l3|
      ensures l3[x] < |ps3| && Give(bs, j, b)[x] == Block(l3[x], ps3[l3[x]].run)
    {
      FreedRunAt(bs, l0, l3, ps3, a, c, m, head, x);
    }
    assert RunsOf(ps3, l3) == Give(bs, j, b);
  }

  lemma FreeingRange(ps: seq<Page>, list: seq<nat>, j: nat, b: Block)
    requires Freeing(ps, list, j, b)
    ensures forall i | 0 <= i < |list| :: list[i] < |ps|
  {
  }

  lemma FreedMarks(ps1: seq<Page>, l0: seq<nat>, ps2: seq<Page>, l2: seq<nat>, m: Block, head: nat, k: nat,
                   ps3: seq<Page>, l3: seq<nat>)
    requires StageData(ps1, ps2, l2, m) && SameData(ps2, ps3) && head == m.base && k <= |l2|
    requires l3 == l2[..k] + [head] + l2[k..] && |ps1| > 0
    ensures Marked(ps3, Members(l3))
    ensures forall x | 0 <= x < |ps1| - 1 :: ps3[x].ref == ps1[x].ref && ps3[x].reserved == ps1[x].reserved
  {
    MembersAre(l3);
    forall x ensures x in l3 <==> x in l2 || x == head {
      if x in l2 {
        var i :| 0 <= i < |l2| && l2[i] == x;
        assert l3[if i < k then i else i + 1] == x;
      }
      assert l3[k] == head;
    }
  }

  lemma GiveInRange(bs: seq<Block>, j: nat, b: Block, n: int)
    requires InRange(bs, n) && Between(bs, j, b) && 0 <= b.base && b.End() <= n
    ensures InRange(Give(bs, j, b), n)
  {
    var m := Merged(bs, j, b);
    assert 0 <= m.base && m.End() <= n;
  }

  lemma FreedOk(ps0: seq<Page>, ps1: seq<Page>, l0: seq<nat>, j: nat, b: Block, ps2: seq<Page>, l2: seq<nat>, head: nat,
                ps3: seq<Page>, l3: seq<nat>)
    requires FreeListOk(ps0, l0) && Freeing(ps1, l0, j, b) && RunsOf(ps1, l0) == RunsOf(ps0, l0) && |ps0| == |ps1|
    requires StageOk(ps1, l0, j, b, |l0|, ps2, l2, head) && SameData(ps2, ps3) && b.End() <= |ps0| - 1
    requires j <= |l0| && (TouchesLow(RunsOf(ps1, l0), j, b) ==> j > 0)
    requires var k := if TouchesLow(RunsOf(ps1, l0), j, b) then j - 1 else j;
      k <= |l2| && l3 == l2[..k] + [head] + l2[k..]
    requires Chain(ps3, l3)
    ensures FreeListOk(ps3, l3) && RunsOf(ps3, l3) == Give(RunsOf(ps0, l0), j, b) && |ps3| == |ps0|
    ensures Total(RunsOf(ps3, l3)) == Total(RunsOf(ps0, l0)) + b.len
    ensures forall x | 0 <= x < |ps1| - 1 :: ps3[x].ref == ps1[x].ref && ps3[x].reserved == ps1[x].reserved
  {
    hide Chain, Canonical, Between, InRange, Marked, StageOk, StageData, Merged, Total, Give, RunsOf, TouchesLow;
    var bs := RunsOf(ps1, l0);
    ListFacts(ps0, l0);
    FreedRuns(ps1, l0, j, b, ps2, l2, head, ps3, l3);
    PlaceShape(ps1, l0, j, b, ps2, l2, head);
    FreedMarks(ps1, l0, ps2, l2, Merged(bs, j, b), head, if TouchesLow(bs, j, b) then j - 1 else j, ps3, l3);
    GiveCanonical(bs, j, b);
    GiveInRange(bs, j, b, |ps0| - 1);
    GiveTotal(bs, j, b);
  }

  lemma RestFacts(ps: seq<Page>, l: seq<nat>, i: nat, k: nat, ps1: seq<Page>, l1: seq<nat>)
    requires FreeListOk(ps, l) && i < |l| && l[i] < |ps| - 1 && 0 < k < ps[l[i]].run
    requires LinkAt(ps, l, i) && LinkAt(ps, l, i + 1) && ps1 == Unlinked(ps, l[i]) && SameData(ps, ps1)
    requires l1 == l[..i] + l[i + 1..]
    ensures |ps1| == |ps| && l[i] + k < |ps| - 1 && ps1[l[i]].run == ps[l[i]].run
    ensures i <= |l1| && l[i := l[i] + k] == l1[..i] + [l[i] + k] + l1[i..]
    ensures ps1[l[i]].prev == Before(l1, i, |ps| - 1)
    ensures forall x | 0 <= x < |l1| :: if x < i then l1[x] < l[i] + k else l[i] + k < l1[x]
  {
    hide Chain, FreeListOk, LinkAt, Unlinked, RunsOf;
    ListFacts(ps, l);
    AllocOff(ps, l, i, k);
    AfterUnlink(ps, l, i);
    forall x | 0 <= x < |l1| ensures if x < i then l1[x] < l[i] + k else l[i] + k < l1[x] {
      assert l1[x] == l[if x < i then x else x + 1];
    }
  }

  lemma RestData(ps: seq<Page>, ps1: seq<Page>, ps2: seq<Page>, ps3: seq<Page>, p: nat, q: nat, k: nat)
    requires p < |ps| && q < |ps| && p != q && SameData(ps, ps1) && SameData(ps2, ps3) && ps[p].run > k
    requires ps1[p].run == ps[p].run && ps2 == ps1[q := ps1[q].(run := ps1[p].run - k, property := true)]
    ensures SameData(ps[q := ps[q].(run := ps[p].run - k, property := true)], ps3)
  {
  }

  /** The entry just unlinked still knows what was before it, and that now leads to what was after it. */
  lemma AfterUnlink(ps: seq<Page>, list: seq<nat>, i: nat)
    requires Chain(ps, list) && i < |list| && LinkAt(ps, list, i) && LinkAt(ps, list, i + 1)
    ensures Unlinked(ps, list[i])[list[i]].prev == Before(list, i, |ps| - 1)
  {
  }

  lemma FitsTotal(ps: seq<Page>, list: seq<nat>, i: nat)
    requires FreeListOk(ps, list) && i < |list|
    ensures RunsOf(ps, list)[i].len <= Total(RunsOf(ps, list))
  {
    LenBelowTotal(RunsOf(ps, list), i);
  }

  lemma AllocMarks(ps: seq<Page>, ps': seq<Page>, list: seq<nat>, i: nat, k: nat)
    requires FreeListOk(ps, list) && i < |list| && list[i] < |ps| - 1 && 0 < k <= ps[list[i]].run
    requires AllocData(ps, ps', list[i], k)
    ensures Marked(ps', Members(AllocList(ps, list, i, k)))
  {
    hide Chain, Canonical, RunsOf, InRange, AllocList, Members;
    AllocMembers(ps, list, i, k);
    MembersAre(list);
    MembersAre(AllocList(ps, list, i, k));
  }

  lemma AllocMembers(ps: seq<Page>, list: seq<nat>, i: nat, k: nat)
    requires FreeListOk(ps, list) && i < |list| && list[i] < |ps| - 1 && 0 < k <= ps[list[i]].run
    ensures forall x :: x in AllocList(ps, list, i, k) <==>
      (x in list && x != list[i]) || (k < ps[list[i]].run && x == list[i] + k)
    ensures k < ps[list[i]].run ==> list[i] + k !in list
  {
    hide Canonical, RunsOf, InRange, Marked, LinkAt;
    ListFacts(ps, list);
    ChainAscends(ps, list);
    if k < ps[list[i]].run {
      AllocOff(ps, list, i, k);
      SwapOne(list, i, list[i] + k);
    } else {
      DropOne(list, i);
    }
  }

  lemma SwapOne(list: seq<nat>, i: nat, q: nat)
    requires i < |list| && Ascending(list)
    ensures forall x :: x in list[i := q] <==> x == q || (x in list && x != list[i])
  {
    var l := list[i := q];
    assert l[i] == q;
    forall x | x in list && x != list[i] ensures x in l {
      var y :| 0 <= y < |list| && list[y] == x;
      assert l[y] == x;
    }
  }

  lemma AllocOk(ps: seq<Page>, ps': seq<Page>, list: seq<nat>, i: nat, k: nat)
    requires FreeListOk(ps, list) && i < |list| && list[i] < |ps| - 1 && 0 < k <= ps[list[i]].run
    requires |ps'| == |ps| && AllocData(ps, ps', list[i], k) && Chain(ps', AllocList(ps, list, i, k))
    ensures FreeListOk(ps', AllocList(ps, list, i, k))
    ensures RunsOf(ps', AllocList(ps, list, i, k)) == Take(RunsOf(ps, list), i, k)
  {
    hide Chain, Canonical, RunsOf, Marked, Members, AllocData, Take, AllocList;
    ListFacts(ps, list);
    AllocRuns(ps, ps', list, i, k);
    AllocMarks(ps, ps', list, i, k);
    RunAt(ps, list, i);
    TakeCanonical(RunsOf(ps, list), i, k);
    TakeInRange(RunsOf(ps, list), i, k, |ps| - 1);
  }

  lemma TakeInRange(bs: seq<Block>, i: nat, k: int, n: int)
    requires InRange(bs, n) && i < |bs| && 0 < k <= bs[i].len
    ensures InRange(Take(bs, i, k), n)
  {
  }

  /** Freeing what was just allocated restores the very list there was before, so the policy leaves no trace. */
  lemma FreeUndoesAlloc(bs: seq<Block>, i: nat, k: int, j: nat)
    requires Canonical(bs) && i < |bs| && 0 < k <= bs[i].len
    requires Between(Take(bs, i, k), j, Block(bs[i].base, k))
    ensures Give(Take(bs, i, k), j, Block(bs[i].base, k)) == bs
  {
    var b := Block(bs[i].base, k);
    var taken := Take(bs, i, k);
    TakeCanonical(bs, i, k);
    GiveCanonical(taken, j, b);
    forall u ensures Covers(Give(taken, j, b), u) <==> Covers(bs, u) {
      TakeCovers(bs, i, k, u);
      GiveCovers(taken, j, b, u);
      if b.Has(u) {
        assert bs[i].Has(u);
      }
    }
    CanonicalUnique(Give(taken, j, b), bs);
  }
}
