/** Any sequence of kmalloc and kfree calls on one heap (lab4/kern/mm/kmalloc.c), by a caller that frees what it was
  * given, over a page allocator that never hands out the same memory twice: no unit is lost and none has two owners.
  */
module HeapClient {
  import opened Options
  import opened FreeRuns
  import opened Kmalloc
  import opened KmallocSafety
  import opened KernelHeap

  /** A call: kmalloc with what the page allocator would answer, or kfree. */
  datatype Request = Ask(size: nat, page: Option<int>, large: Option<int>) | Return(p: int)

  predicate InUnits(page: int, u: int) {
    page <= u < page + PAGE_UNITS
  }

  /** The page is away from the arena, the pages the heap has, and the large blocks in use. */
  predicate NewPage(page: int, arena: int, got: seq<int>, big: seq<BigBlock>) {
    && page > 0 && !InUnits(page, arena - 1) && !InUnits(page, arena) && !InUnits(page, arena + 1)
    && (forall i | 0 <= i < |got| :: page + PAGE_UNITS <= got[i] || got[i] + PAGE_UNITS <= page)
    && forall i | 0 <= i < |big| :: !InUnits(page, big[i].pages)
  }

  predicate NewLarge(large: int, page: Option<int>, arena: int, got: seq<int>, big: seq<BigBlock>) {
    && large > 0 && large % PAGE_UNITS == 0 && large != arena && (page.Some? ==> !InUnits(page.value, large))
    && (forall i | 0 <= i < |got| :: !InUnits(got[i], large))
    && forall i | 0 <= i < |big| :: big[i].pages != large
  }

  /** The heap has the arena and the pages it took, and nothing else. */
  ghost predicate Supplied(obtained: set<int>, arena: int, got: seq<int>) {
    && arena > 0 && (forall i | 0 <= i < |got| :: got[i] > 0)
    && forall u :: u in obtained <==> u == arena || exists i | 0 <= i < |got| :: InUnits(got[i], u)
  }

  /** The blocks in use are the caller's and the records, and no block is both. */
  ghost predicate Owners(live: map<int, int>, big: seq<BigBlock>, held: map<int, int>) {
    && (forall p | p in held :: p - 1 in live && live[p - 1] == held[p] && !IsRecord(big, p - 1))
    && forall a | a in live :: IsRecord(big, a) || a + 1 in held
  }

  /** What the caller holds covers what it asked for, behind the unit of the header. */
  ghost predicate Enough(held: map<int, int>, asked: map<int, nat>) {
    held.Keys == asked.Keys && forall p | p in held :: asked[p] <= 8 * (held[p] - 1)
  }

  ghost predicate Books(h: Heap, held: map<int, int>, got: seq<int>)
    reads h, h.slob
  {
    h.Valid() && Supplied(h.obtained, h.arena, got) && Owners(h.live, h.bigblocks, held)
  }

  /** The comparisons find exactly the pages that hold nothing of the heap's and do not touch the arena ... */
  lemma PageIsNew(h: Heap, held: map<int, int>, got: seq<int>, page: int)
    requires Books(h, held, got)
    ensures NewPage(page, h.arena, got, h.bigblocks) <==> page > 0 && FreshPage(h.Memory(), h.bigblocks, h.arena, page)
  {
    hide Owners, SlobRing.Valid, Partition, Headers, BigOk;
    assert forall u :: u in PageUnits(page) <==> InUnits(page, u);
    if NewPage(page, h.arena, got, h.bigblocks) {
      assert PageUnits(page) !! h.obtained;
    } else if page > 0 && FreshPage(h.Memory(), h.bigblocks, h.arena, page) {
      assert h.arena in h.obtained;
      forall i | 0 <= i < |got| ensures page + PAGE_UNITS <= got[i] || got[i] + PAGE_UNITS <= page {
        var u := if page < got[i] then got[i] else page;
        assert !(InUnits(got[i], u) && InUnits(page, u));
      }
    }
  }

  /** ... and exactly the large pages that are nobody's. */
  lemma LargeIsNew(h: Heap, held: map<int, int>, got: seq<int>, page: Option<int>, large: int)
    requires Books(h, held, got)
    ensures NewLarge(large, page, h.arena, got, h.bigblocks) <==> large > 0 && h.FreshLarge(page, large)
  {
    hide Owners, h.Valid;
    assert page.Some? ==> (large in PageUnits(page.value) <==> InUnits(page.value, large));
  }

  lemma MoreSupplied(obtained: set<int>, arena: int, got: seq<int>, page: int)
    requires Supplied(obtained, arena, got) && page > 0
    ensures Supplied(obtained + PageUnits(page), arena, got + [page])
  {
    var got' := got + [page];
    forall u
      ensures u in obtained + PageUnits(page) <==> u == arena || exists i | 0 <= i < |got'| :: InUnits(got'[i], u)
    {
      assert u in PageUnits(page) <==> InUnits(got'[|got|], u);
      if u in obtained && u != arena {
        var i :| 0 <= i < |got| && InUnits(got[i], u);
        assert InUnits(got'[i], u);
      } else if i :| 0 <= i < |got'| && InUnits(got'[i], u) {
        assert i < |got| ==> InUnits(got[i], u);
      }
    }
  }

  /** A small block more, or a record more. */
  lemma SmallOwned(live: map<int, int>, big: seq<BigBlock>, held: map<int, int>, a: int, n: int)
    requires Owners(live, big, held) && a !in live && !IsRecord(big, a)
    ensures Owners(live[a := n], big, held[a + 1 := n])
  {
    hide IsRecord;
  }

  lemma RecordOwned(live: map<int, int>, big: seq<BigBlock>, held: map<int, int>, b: BigBlock, n: int)
    requires Owners(live, big, held) && b.record !in live
    ensures Owners(live[b.record := n], [b] + big, held)
  {
    var all := [b] + big;
    forall a ensures IsRecord(all, a) <==> a == b.record || IsRecord(big, a) {
      assert all[0] == b;
      if IsRecord(big, a) {
        var i :| 0 <= i < |big| && big[i].record == a;
        assert all[i + 1].record == a;
      }
    }
    hide IsRecord;
  }

  lemma SmallReturned(live: map<int, int>, big: seq<BigBlock>, held: map<int, int>, p: int)
    requires Owners(live, big, held) && p in held
    ensures Owners(live - {p - 1}, big, held - {p})
  {
    hide IsRecord;
  }

  lemma RecordReturned(live: map<int, int>, big: seq<BigBlock>, held: map<int, int>, i: nat)
    requires Owners(live, big, held) && i < |big|
    requires forall j | 0 <= j < |big| && j != i :: big[j].record != big[i].record
    ensures Owners(live - {big[i].record}, big[..i] + big[i + 1..], held)
  {
    var rest := big[..i] + big[i + 1..];
    assert IsRecord(big, big[i].record);
    forall a | a != big[i].record ensures IsRecord(rest, a) <==> IsRecord(big, a) {
      if IsRecord(big, a) {
        var j :| 0 <= j < |big| && big[j].record == a;
        assert rest[if j < i then j else j - 1].record == a;
      }
    }
    hide IsRecord;
  }

  lemma RecordFacts(h: Heap, held: map<int, int>, got: seq<int>)
    requires Books(h, held, got)
    ensures forall i | 0 <= i < |h.bigblocks| :: h.bigblocks[i].record in h.live
    ensures forall i, j | 0 <= i < j < |h.bigblocks| :: h.bigblocks[i].record != h.bigblocks[j].record
    ensures forall p | p in held :: h.Owned(p)
    ensures forall a | IsRecord(h.bigblocks, a) :: a in h.live
  {
  }

  /** When the caller has given everything back, all the memory obtained is free again. */
  lemma AllReturned(h: Heap, held: map<int, int>, got: seq<int>)
    requires Books(h, held, got) && held == map[] && h.bigblocks == []
    ensures h.live == map[] && forall u :: Covers(h.slob.Blocks(), u) <==> u in h.obtained
  {
    assert forall a :: a !in h.live;
    assert forall u :: !InLive(h.live, u);
  }

  method Pages(page: Option<int>, large: Option<int>, arena: int, got: seq<int>, big: seq<BigBlock>)
    returns (page': Option<int>, large': Option<int>)
    ensures page' == if page.Some? && NewPage(page.value, arena, got, big) then page else None
    ensures large' == if large.Some? && NewLarge(large.value, page', arena, got, big) then large else None
  {
    page' := if page.Some? && NewPage(page.value, arena, got, big) then page else None;
    large' := if large.Some? && NewLarge(large.value, page', arena, got, big) then large else None;
  }

  method Alloc(h: Heap, size: nat, page: Option<int>, large: Option<int>, held: map<int, int>,
               got: seq<int>)
    returns (held': map<int, int>, got': seq<int>, reply: Reply)
    requires Books(h, held, got) && 0 < size < 0x1_0000_0000 && h.Fresh(page)
    requires (page.Some? ==> page.value > 0) && (large.Some? ==> h.FreshLarge(page, large.value))
    modifies h, h.slob
    ensures reply != Stopped ==> Books(h, held', got')
    ensures reply == Stopped <==> 4080 <= size < 4088
    ensures held' == if reply.Pointer? && size < 4088 then held[reply.addr := Units(size + UNIT)] else held
    ensures reply.Pointer? && size < 4088 ==>
      reply.addr !in held && 8 * (held'[reply.addr] - 2) < size <= 8 * (held'[reply.addr] - 1)
    ensures reply.Pointer? && size >= 4088 ==>
      && large == Some(reply.addr) && |h.bigblocks| > 0 && h.bigblocks[1..] == old(h.bigblocks)
      && h.bigblocks[0].pages == reply.addr && h.bigblocks[0].order == Orders.Order(Orders.AsInt(size))
    ensures reply == Null ==> page.None? || (size >= 4088 && large.None?)
  {
    hide IsRecord, Supplied, Owners, h.Valid, FreshPage, PageUnits;
    RecordFacts(h, held, got);
    ghost var live, big, obtained := h.live, h.bigblocks, h.obtained;
    var took;
    reply, took := h.Kmalloc(size, page, large);
    held', got' := held, got;
    if took {
      MoreSupplied(obtained, h.arena, got, page.value);
      got' := got + [page.value];
    }
    if reply.Pointer? {
      if size < 4088 {
        SmallOwned(live, big, held, reply.addr - 1, Units(size + UNIT));
        HeldIsLive(live, big, held);
        held' := held[reply.addr := Units(size + UNIT)];
      } else {
        RecordOwned(live, big, held, h.bigblocks[0], RECORD_UNITS);
      }
    }
  }

  lemma HeldIsLive(live: map<int, int>, big: seq<BigBlock>, held: map<int, int>)
    requires Owners(live, big, held)
    ensures forall p | p in held :: p - 1 in live
  {
  }

  method Free(h: Heap, p: int, held: map<int, int>, ghost got: seq<int>) returns (held': map<int, int>)
    requires Books(h, held, got) && h.Owned(p) && (p in held || p == 0 || IsPages(h.bigblocks, p))
    modifies h, h.slob
    ensures Books(h, held', got) && h.obtained == old(h.obtained)
    ensures held' == if p == 0 || IsPages(old(h.bigblocks), p) then held else held - {p}
  {
    hide IsRecord, Supplied, Owners, h.Valid, PageUnits;
    RecordFacts(h, held, got);
    ghost var live, big := h.live, h.bigblocks;
    var pages := h.Kfree(p);
    held' := held;
    if p != 0 {
      if pages.None? {
        SmallReturned(live, big, held, p);
        held' := held - {p};
      } else {
        ghost var i :| 0 <= i < |big| && big[i].pages == p && h.live == live - {big[i].record}
          && h.bigblocks == big[..i] + big[i + 1..];
        RecordReturned(live, big, held, i);
      }
    }
  }

  predicate IsPages(big: seq<BigBlock>, p: int) {
    exists i | 0 <= i < |big| :: big[i].pages == p
  }

  /** One call. Answers that would hand out memory in use are refusals, and only what is held is given back. */
  method Call(h: Heap, held: map<int, int>, asked: map<int, nat>, got: seq<int>, request: Request)
    returns (held': map<int, int>, asked': map<int, nat>, got': seq<int>, stopped: bool)
    requires Books(h, held, got) && Enough(held, asked)
    modifies h, h.slob
    ensures !stopped ==> Books(h, held', got') && Enough(held', asked')
    ensures stopped <==> request.Ask? && 4080 <= request.size < 4088
    ensures request.Ask? && asked' != asked ==>
      request.size < 4080 && exists p :: p !in asked && asked' == asked[p := request.size]
    ensures (request.Ask? && 0 < request.size < 4080 && request.page.Some? && request.page.value > 0
             && old(FreshPage(h.Memory(), h.bigblocks, h.arena, request.page.value))) ==> asked' != asked
    ensures request.Return? ==> asked' == asked - {request.p} && held' == held - {request.p}
  {
    hide IsRecord, Supplied, Owners, FreshPage, PageUnits, NewPage, NewLarge, h.Valid, Heap.Owned;
    held', asked', got', stopped := held, asked, got, false;
    match request
    case Ask(size, page, large) =>
      if 0 < size < 0x1_0000_0000 {
        var page', large' := Pages(page, large, h.arena, got, h.bigblocks);
        if page.Some? {
          PageIsNew(h, held, got, page.value);
        }
        AnswersNew(h, held, got, page', large');
        var reply;
        held', got', reply := Alloc(h, size, page', large', held, got);
        stopped := reply == Stopped;
        if reply.Pointer? && size < 4088 {
          asked' := asked[reply.addr := size];
        }
      }
    case Return(p) =>
      if p in held || p == 0 || IsPages(h.bigblocks, p) {
        MayReturn(h, held, got, p);
        HeldNoPages(h, held, got);
        held' := Free(h, p, held, got);
        asked' := asked - {p};
      }
  }

  lemma HeldNoPages(h: Heap, held: map<int, int>, got: seq<int>)
    requires Books(h, held, got)
    ensures forall p | p in held :: p != 0 && !IsPages(h.bigblocks, p)
  {
    forall p | p in held ensures p != 0 && !IsPages(h.bigblocks, p) {
      NotPages(h.Memory(), h.bigblocks, p);
      LiveHeader(h.live, p - 1);
      assert p - 1 in h.obtained;
    }
  }

  /** From boot on: the calls in turn, until slob_alloc's assert stops the kernel. */
  method Serve(arena: int, requests: seq<Request>)
    returns (h: Heap, held: map<int, int>, asked: map<int, nat>, got: seq<int>, stopped: bool)
    requires arena > 0
    ensures fresh(h) && fresh(h.slob) && h.arena == arena
    ensures !stopped ==> Books(h, held, got) && Enough(held, asked)
    ensures !stopped && held == map[] && h.bigblocks == [] ==>
      forall u :: Covers(h.slob.Blocks(), u) <==> u in h.obtained
    ensures stopped <==> exists i | 0 <= i < |requests| :: Stops(requests[i])
  {
    hide Books;
    h := new Heap(arena);
    held, asked := map[], map[];
    got, stopped := [], false;
    BootBooks(h, arena);
    var i := 0;
    while i < |requests| && !stopped
      invariant i <= |requests| && fresh(h) && fresh(h.slob) && h.arena == arena
      invariant !stopped ==> Books(h, held, got) && Enough(held, asked) && forall j | 0 <= j < i :: !Stops(requests[j])
      invariant stopped ==> exists j | 0 <= j < |requests| :: Stops(requests[j])
    {
      held, asked, got, stopped := Call(h, held, asked, got, requests[i]);
      assert stopped <==> Stops(requests[i]);
      i := i + 1;
    }
    if !stopped && held == map[] && h.bigblocks == [] {
      AllReturned(h, held, got);
    }
  }

  predicate Stops(request: Request) {
    request.Ask? && 4080 <= request.size < 4088
  }

  lemma BootBooks(h: Heap, arena: int)
    requires h.Valid() && h.arena == arena > 0 && h.live == map[] && h.obtained == {arena} && h.bigblocks == []
    ensures Books(h, map[], [])
  {
  }

  lemma MayReturn(h: Heap, held: map<int, int>, got: seq<int>, p: int)
    requires Books(h, held, got) && (p in held || p == 0 || IsPages(h.bigblocks, p))
    ensures h.Owned(p)
  {
    RecordFacts(h, held, got);
  }

  lemma AnswersNew(h: Heap, held: map<int, int>, got: seq<int>, page: Option<int>, large: Option<int>)
    requires Books(h, held, got)
    requires page.Some? ==> NewPage(page.value, h.arena, got, h.bigblocks)
    requires large.Some? ==> NewLarge(large.value, page, h.arena, got, h.bigblocks)
    ensures h.Fresh(page) && (page.Some? ==> page.value > 0) && (large.Some? ==> h.FreshLarge(page, large.value))
  {
    hide FreshPage, Supplied, Owners;
    if page.Some? {
      PageIsNew(h, held, got, page.value);
    }
    if large.Some? {
      LargeIsNew(h, held, got, page, large.value);
    }
  }
}
