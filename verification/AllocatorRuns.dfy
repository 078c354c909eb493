/** Whole runs of the page allocator (lab3/kern/mm/default_pmm.c) on its canonical free list, with the
  * blocks in use recorded beside it. The policy that picks the run to allocate from is a parameter;
  * first fit is one.
  */
module AllocatorRuns {
  import opened FreeRuns

  datatype Op = Alloc(k: int) | Free(base: int)

  type Policy = (seq<Block>, int) -> nat

  /** The first run from position i on that is long enough. */
  function FitFrom(bs: seq<Block>, k: int, i: nat): (r: nat)
    requires i <= |bs|
    ensures i <= r <= |bs| && (r < |bs| ==> bs[r].len >= k) && forall q :: i <= q < r ==> bs[q].len < k
    decreases |bs| - i
  {
    if i == |bs| || bs[i].len >= k then i else FitFrom(bs, k, i + 1)
  }

  /** The choice of default_alloc_pages. */
  function FirstFitIn(bs: seq<Block>, k: int): nat {
    FitFrom(bs, k, 0)
  }

  function PlaceFrom(bs: seq<Block>, base: int, i: nat): (j: nat)
    requires i <= |bs|
    ensures i <= j <= |bs| && (forall q :: i <= q < j ==> bs[q].base < base) && (j < |bs| ==> bs[j].base >= base)
    decreases |bs| - i
  {
    if i == |bs| || bs[i].base >= base then i else PlaceFrom(bs, base, i + 1)
  }

  /** Where in the list a block with this base belongs. */
  function PlaceOf(bs: seq<Block>, base: int): nat {
    PlaceFrom(bs, base, 0)
  }

  /** There is only one such place. */
  lemma BetweenIsPlace(bs: seq<Block>, j: nat, b: Block)
    requires Canonical(bs) && Between(bs, j, b)
    ensures PlaceOf(bs, b.base) == j
  {
    var p := PlaceOf(bs, b.base);
    assert j < |bs| ==> bs[j].base > b.base;
    assert p < |bs| ==> bs[p].base >= b.base && bs[p].len > 0;
  }

  lemma PlaceBetween(bs: seq<Block>, b: Block)
    requires Canonical(bs) && b.len > 0 && Apart(bs, b)
    ensures Between(bs, PlaceOf(bs, b.base), b)
  {
    var j := FindGap(bs, b);
    BetweenIsPlace(bs, j, b);
  }

  /** One call; freeing what is not in use is not a step. */
  function Step(v: View, policy: Policy, op: Op): View {
    match op
    case Alloc(k) =>
      var i := policy(v.free, k);
      if k > 0 && i < |v.free| && v.free[i].len >= k then
        View(Take(v.free, i, k), v.live[v.free[i].base := k], v.obtained)
      else v
    case Free(base) =>
      if base in v.live then
        View(Give(v.free, PlaceOf(v.free, base), Block(base, v.live[base])), v.live - {base}, v.obtained)
      else v
  }

  function Run(v: View, policy: Policy, ops: seq<Op>): View
    decreases |ops|
  {
    if ops == [] then v else Run(Step(v, policy, ops[0]), policy, ops[1..])
  }

  lemma StepPartition(v: View, policy: Policy, op: Op)
    requires Partition(v)
    ensures Partition(Step(v, policy, op)) && Step(v, policy, op).obtained == v.obtained
  {
    hide Partition, Canonical;
    match op
    case Alloc(k) =>
      var i := policy(v.free, k);
      if k > 0 && i < |v.free| && v.free[i].len >= k {
        TakePartition(v, i, k);
      }
    case Free(base) =>
      if base in v.live {
        InUse(v, base);
        LiveIsApart(v, base);
        PlaceBetween(v.free, Block(base, v.live[base]));
        GivePartition(v, base, PlaceOf(v.free, base));
      }
  }

  lemma InUse(v: View, a: int)
    requires Partition(v) && a in v.live
    ensures v.live[a] > 0 && Canonical(v.free)
  {
  }

  /** Every run, under any policy, keeps each page in exactly one place. */
  lemma {:induction false} RunPartition(v: View, policy: Policy, ops: seq<Op>)
    requires Partition(v)
    ensures Partition(Run(v, policy, ops)) && Run(v, policy, ops).obtained == v.obtained
    decreases |ops|
  {
    hide Partition;
    if ops != [] {
      StepPartition(v, policy, ops[0]);
      RunPartition(Step(v, policy, ops[0]), policy, ops[1..]);
    }
  }

  /** The memory after the one init_memmap. */
  ghost function Fresh(base: int, n: nat): View {
    View([Block(base, n)], map[], set u {:trigger Block(base, n).Has(u)} | base <= u < base + n)
  }

  lemma FreshPartition(base: int, n: nat)
    requires n > 0
    ensures Partition(Fresh(base, n))
  {
    forall u ensures Covers([Block(base, n)], u) <==> base <= u < base + n {
      CoversOne(Block(base, n), u);
      assert [Block(base, n)][0] == Block(base, n);
    }
  }

  /** After any two runs that leave the same blocks in use, under whatever policies and in whatever
    * order, the free lists are equal.
    */
  lemma OnlyUseMatters(base: int, n: nat, policy: Policy, ops: seq<Op>, policy': Policy, ops': seq<Op>)
    requires n > 0
    requires Run(Fresh(base, n), policy, ops).live == Run(Fresh(base, n), policy', ops').live
    ensures Run(Fresh(base, n), policy, ops).free == Run(Fresh(base, n), policy', ops').free
  {
    FreshPartition(base, n);
    RunPartition(Fresh(base, n), policy, ops);
    RunPartition(Fresh(base, n), policy', ops');
    SameFree(Run(Fresh(base, n), policy, ops), Run(Fresh(base, n), policy', ops'));
  }

  lemma SameFree(v: View, w: View)
    requires Partition(v) && Partition(w) && v.live == w.live && v.obtained == w.obtained
    ensures v.free == w.free
  {
    hide Canonical, Covers;
    forall u ensures Covers(v.free, u) <==> Covers(w.free, u) {
      assert u in v.obtained <==> Covers(v.free, u) || InLive(v.live, u);
      assert u in w.obtained <==> Covers(w.free, u) || InLive(w.live, u);
    }
    CanonicalUnique(v.free, w.free);
  }

  /** When everything allocated has been freed again, the list is the one run it began as. */
  lemma AllFreedIsFresh(base: int, n: nat, policy: Policy, ops: seq<Op>)
    requires n > 0 && Run(Fresh(base, n), policy, ops).live == map[]
    ensures Run(Fresh(base, n), policy, ops).free == [Block(base, n)]
  {
    FreshPartition(base, n);
    RunPartition(Fresh(base, n), policy, ops);
    SameFree(Run(Fresh(base, n), policy, ops), Fresh(base, n));
  }

  /** What FrameAllocator.AllocPages and FrameAllocator.FreePages are proved to do to the list are
    * steps of such a run, with the first-fit policy.
    */
  lemma AllocIsStep(v: View, i: nat, k: int)
    requires k > 0 && i <= |v.free| && (i < |v.free| ==> v.free[i].len >= k)
    requires forall q :: 0 <= q < i ==> v.free[q].len < k
    ensures Step(v, FirstFitIn, Alloc(k))
            == if i < |v.free| then View(Take(v.free, i, k), v.live[v.free[i].base := k], v.obtained) else v
  {
    assert FirstFitIn(v.free, k) == i;
  }

  lemma FreeIsStep(v: View, j: nat, base: int)
    requires Partition(v) && base in v.live && Between(v.free, j, Block(base, v.live[base]))
    ensures Step(v, FirstFitIn, Free(base))
            == View(Give(v.free, j, Block(base, v.live[base])), v.live - {base}, v.obtained)
  {
    BetweenIsPlace(v.free, j, Block(base, v.live[base]));
  }
}
