/** Any sequence of alloc_pages and free_pages calls on one page allocator (lab3/kern/mm/default_pmm.c), by a
  * caller that frees only what it was given: the descriptors and the caller's own books go through the
  * states of AllocatorRuns.Run.
  */
module FrameClient {
  import opened FreeRuns
  import opened FirstFit
  import opened AllocatorRuns

  /** The pages handed to the allocator have descriptors and are not reserved. */
  ghost predicate Served(fa: FrameAllocator, obtained: set<int>)
    reads fa, fa.pages
  {
    forall u :: u in obtained ==> 0 <= u < fa.pages.Length - 1 && !fa.pages[u].reserved
  }

  ghost predicate Shows(fa: FrameAllocator, live: map<int, int>, v: View)
    reads fa, fa.pages
  {
    fa.Valid() && fa.Runs() == v.free && live == v.live && Partition(v) && Served(fa, v.obtained)
  }

  /** A block in use can be given to free_pages. */
  lemma MayFree(fa: FrameAllocator, live: map<int, int>, v: View, base: int)
    requires Shows(fa, live, v) && base in live
    ensures live[base] > 0 && 0 <= base && base + live[base] <= fa.pages.Length - 1
    ensures Apart(fa.Runs(), Block(base, live[base]))
    ensures forall p | base <= p < base + live[base] :: !fa.pages[p].reserved
  {
    hide Canonical, Covers, fa.Valid, fa.Runs;
    LiveIsApart(v, base);
    forall p | base <= p < base + live[base] ensures p in v.obtained {
      assert Block(base, live[base]).Has(p);
    }
    assert base in v.obtained && base + live[base] - 1 in v.obtained;
  }

  method Call(fa: FrameAllocator, live: map<int, int>, op: Op, ghost v: View) returns (live': map<int, int>)
    requires Shows(fa, live, v)
    modifies fa, fa.pages
    ensures Shows(fa, live', Step(v, FirstFitIn, op))
  {
    hide Partition, Canonical, Take, Give, Apart, Between, Covers;
    StepPartition(v, FirstFitIn, op);
    live' := live;
    match op
    case Alloc(k) =>
      if k > 0 {
        ghost var i;
        var page;
        page, i := fa.AllocPages(k);
        if page.Some? {
          AllocIsStep(v, i, k);
          live' := live[page.value := k];
        } else {
          AllocIsStep(v, |v.free|, k);
        }
      }
    case Free(base) =>
      if base in live {
        MayFree(fa, live, v, base);
        ghost var j := fa.FreePages(base, live[base]);
        FreeIsStep(v, j, base);
        live' := live - {base};
      }
  }

  /** From page_init on: `n` pages from `base` are handed over once, and then the calls are made in turn. */
  method Serve(size: nat, base: nat, n: nat, ops: seq<Op>) returns (fa: FrameAllocator, live: map<int, int>)
    requires n > 0 && base + n <= size
    ensures fresh(fa) && fresh(fa.pages) && fa.Valid()
    ensures View(fa.Runs(), live, Fresh(base, n).obtained) == Run(Fresh(base, n), FirstFitIn, ops)
  {
    hide Partition, Step;
    fa := new FrameAllocator(size);
    live := map[];
    fa.InitMemmap(base, n);
    ghost var v := Fresh(base, n);
    FreshPartition(base, n);
    var i := 0;
    while i < |ops|
      invariant i <= |ops| && Shows(fa, live, v) && v.obtained == Fresh(base, n).obtained
      invariant Run(v, FirstFitIn, ops[i..]) == Run(Fresh(base, n), FirstFitIn, ops)
      modifies fa, fa.pages
    {
      live := Call(fa, live, ops[i], v);
      StepPartition(v, FirstFitIn, ops[i]);
      v := Step(v, FirstFitIn, ops[i]);
      assert ops[i..][1..] == ops[i + 1..];
      i := i + 1;
    }
  }
}
