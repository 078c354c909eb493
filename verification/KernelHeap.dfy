/** kmalloc and kfree of lab4/kern/mm/kmalloc.c as they change the heap in place. */
module KernelHeap {
  import opened Options
  import opened FreeRuns
  import opened Kmalloc
  import opened KmallocSafety
  import Orders = FindOrder

  /** A bigblock_t: where its record is, and the pages that it stands for. */
  datatype BigBlock = BigBlock(record: int, order: nat, pages: int)

  /** What a call comes back with; Stopped is the failed assert of slob_alloc. */
  datatype Reply = Null | Pointer(addr: int) | Stopped

  const RECORD_SIZE := 12
  const RECORD_UNITS := 2

  /** Records sit in blocks in use, one each, and their pages are none of the heap's. */
  ghost predicate BigOk(big: seq<BigBlock>, v: View) {
    && (forall i | 0 <= i < |big| ::
          && big[i].record in v.live && v.live[big[i].record] == RECORD_UNITS
          && big[i].pages % PAGE_UNITS == 0 && big[i].pages !in v.obtained)
    && (forall i, j | 0 <= i < j < |big| :: big[i].record != big[j].record && big[i].pages != big[j].pages)
  }

  ghost predicate IsRecord(big: seq<BigBlock>, a: int) {
    exists i | 0 <= i < |big| :: big[i].record == a
  }

  /** The headers of the blocks in use say how long they are, except where a record has overwritten them and
    * in the blocks `loose`.
    */
  ghost predicate Headers(units: map<int, int>, live: map<int, int>, big: seq<BigBlock>, loose: set<int>) {
    forall a | a in live ::
      live[a] > 1 && a in units && (a in loose || IsRecord(big, a) || units[a] == live[a])
  }

  ghost predicate FreshPage(v: View, big: seq<BigBlock>, arena: int, page: int) {
    && PageUnits(page) !! v.obtained
    && arena - 1 !in PageUnits(page) && arena + 1 !in PageUnits(page)
    && forall i | 0 <= i < |big| :: big[i].pages !in PageUnits(page)
  }

  lemma ArenaInRing(slob: Slob, arena: int)
    requires slob.Valid() && Block(arena, 1) in slob.Blocks()
    ensures arena in slob.ring && arena in slob.units && slob.units[arena] == 1
  {
    var i :| 0 <= i < |slob.Blocks()| && slob.Blocks()[i] == Block(arena, 1);
    assert slob.ring[i] == arena;
  }

  lemma FreshIsApart(v: View, big: seq<BigBlock>, arena: int, page: int)
    requires Partition(v) && ArenaAlone(v, arena) && FreshPage(v, big, arena, page)
    ensures Apart(v.free, Block(page, PAGE_UNITS))
    ensures page + PAGE_UNITS != arena && arena + 1 != page
  {
    forall u | Block(page, PAGE_UNITS).Has(u) ensures !Covers(v.free, u) {
      assert u in PageUnits(page);
    }
    assert Block(page, PAGE_UNITS).Has(page) && Block(page, PAGE_UNITS).Has(page + PAGE_UNITS - 1);
    assert page in PageUnits(page) && page + PAGE_UNITS - 1 in PageUnits(page);
  }

  lemma GrowStep(v: View, big: seq<BigBlock>, arena: int, j: nat, page: int, bs: seq<Block>)
    requires Partition(v) && ArenaAlone(v, arena) && BigOk(big, v) && FreshPage(v, big, arena, page)
    requires Grown(v.free, j, page, bs)
    ensures var v' := View(bs, v.live, v.obtained + PageUnits(page));
      Partition(v') && ArenaAlone(v', arena) && BigOk(big, v')
  {
    hide Partition;
    GrowPartition(v, j, page, bs);
    FreshIsApart(v, big, arena, page);
    ArenaAfterGive(v, j, Block(page, PAGE_UNITS), arena);
  }

  lemma TakeStep(v: View, big: seq<BigBlock>, arena: int, i: nat, n: int)
    requires Partition(v) && ArenaAlone(v, arena) && BigOk(big, v) && i < |v.free| && 1 < n <= v.free[i].len
    ensures v.free[i].base !in v.live
    ensures var v' := View(Take(v.free, i, n), v.live[v.free[i].base := n], v.obtained);
      Partition(v') && ArenaAlone(v', arena) && BigOk(big, v')
  {
    hide Partition, Take;
    TakePartition(v, i, n);
    ArenaAfterTake(v.free, i, n, arena);
  }

  lemma NotInPage(v: View, page: Option<int>, x: int)
    requires x in v.obtained && (page.Some? ==> PageUnits(page.value) !! v.obtained)
    ensures !InPage(page, x)
  {
    if page.Some? {
      assert x !in PageUnits(page.value);
    }
  }

  lemma HeadersStep(units: map<int, int>, units': map<int, int>, v: View, big: seq<BigBlock>, page: Option<int>,
                    a: int, n: int)
    requires Partition(v) && Headers(units, v.live, big, {}) && Kept(units, units', v.free, page) && n > 1
    requires page.Some? ==> PageUnits(page.value) !! v.obtained
    requires a in units' && units'[a] == n
    ensures Headers(units', v.live[a := n], big, {})
  {
    hide IsRecord;
    forall b | b in v.live && b != a ensures b in units' && units'[b] == units[b] {
      LiveHeader(v.live, b);
      assert !Covers(v.free, b) && b in v.obtained;
      NotInPage(v, page, b);
    }
  }

  /** No free block holds so many bytes. */
  predicate NoneFits(bs: seq<Block>, size: nat) {
    forall i | 0 <= i < |bs| :: 8 * bs[i].len < size
  }

  lemma NothingFits(h: SlobRing.Heap, r: seq<int>, size: nat)
    requires SlobRing.Valid(h, r) && !SomeFits(h, r, Units(size))
    ensures NoneFits(SlobRing.BlocksOf(h, r), size)
  {
    var bs := SlobRing.BlocksOf(h, r);
    forall i | 0 <= i < |bs| ensures bs[i].len < Units(size) {
      assert h.units[r[i]] == bs[i].len;
    }
  }

  class Heap {
    const slob: Slob
    const arena: int
    var bigblocks: seq<BigBlock>
    ghost var live: map<int, int>
    ghost var obtained: set<int>

    ghost function Memory(): View
      reads this, slob
      requires slob.Valid()
    {
      View(slob.Blocks(), live, obtained)
    }

    /** The invariant, but for the headers of the blocks `loose`. */
    ghost predicate Sound(loose: set<int>)
      reads this, slob
    {
      && slob.Valid() && Partition(Memory()) && ArenaAlone(Memory(), arena)
      && Headers(slob.units, live, bigblocks, loose) && BigOk(bigblocks, Memory())
    }

    ghost predicate Valid()
      reads this, slob
    {
      Sound({})
    }

    ghost predicate Fresh(page: Option<int>)
      reads this, slob
      requires slob.Valid()
    {
      page.Some? ==> FreshPage(Memory(), bigblocks, arena, page.value)
    }

    constructor (arena: int)
      ensures Valid() && this.arena == arena && fresh(slob) && live == map[] && obtained == {arena} && bigblocks == []
    {
      slob := new Slob(arena);
      this.arena := arena;
      bigblocks, live, obtained := [], map[], {arena};
      new;
      assert slob.Blocks()[0].Has(arena);
      forall u ensures Covers(slob.Blocks(), u) <==> u == arena {
        CoversOne(Block(arena, 1), u);
      }
    }

    /** A small block for the heap's own use: slob_alloc, with the books kept. `took` says that the page was. */
    method AllocBlock(size: nat, page: Option<int>) returns (block: Option<int>, took: bool)
      requires Valid() && Units(size) > 1 && size + UNIT < PAGE_SIZE && Fresh(page)
      modifies this, slob
      ensures Valid() && bigblocks == old(bigblocks)
      ensures block.None? ==>
        page.None? && live == old(live) && obtained == old(obtained) && slob.Blocks() == old(slob.Blocks())
      ensures block.Some? ==> block.value !in old(live) && live == old(live)[block.value := Units(size)]
      ensures block.Some? ==> 8 * (live[block.value] - 1) < size <= 8 * live[block.value]
      ensures took ==> page.Some?
      ensures took || block.None? ==> NoneFits(old(slob.Blocks()), size)
      ensures obtained == if took then old(obtained) + PageUnits(page.value) else old(obtained)
    {
      hide Partition, ArenaAlone, Headers, BigOk, Take, Give, Kept, Grown, NextFit, SomeFits, PageUnits, FreshPage;
      ghost var before, ring := slob.Memory(), slob.ring;
      ghost var v, units, n := Memory(), slob.units, Units(size);
      ghost var j, bs, i;
      ArenaBlock(v, arena);
      ArenaInRing(slob, arena);
      if page.Some? {
        FreshIsApart(v, bigblocks, arena, page.value);
        FreshDisjoint(v, bigblocks, arena, page.value);
      }
      block, took, j, bs, i := slob.SlobAlloc(size, page, arena);
      if took || block.None? {
        NothingFits(before, ring, size);
      }
      if block.None? {
        return;
      }
      HeadersStep(units, slob.units, v, bigblocks, page, block.value, n);
      if took {
        GrowStep(v, bigblocks, arena, j, page.value, bs);
        obtained := obtained + PageUnits(page.value);
      }
      TakeStep(View(bs, live, obtained), bigblocks, arena, i, n);
      live := live[block.value := n];
    }

    /** slob_free of a block in use that no record sits in; a size of 0 leaves it to the header. */
    method FreeBlock(a: int, size: nat)
      requires Sound(if size == 0 then {} else {a}) && a in live && !IsRecord(bigblocks, a)
      requires size == 0 || Units(size) == live[a]
      modifies this, slob
      ensures Valid() && bigblocks == old(bigblocks) && live == old(live) - {a} && obtained == old(obtained)
      ensures forall u :: Covers(slob.Blocks(), u) <==> Covers(old(slob.Blocks()), u) || Block(a, old(live[a])).Has(u)
    {
      hide Partition, ArenaAlone, Headers, BigOk, Give, Between, Covers, Apart, IsRecord;
      ghost var v, units := Memory(), slob.units;
      ArenaBlock(v, arena);
      ArenaInRing(slob, arena);
      RingStart(slob, arena);
      LiveFacts(units, v, bigblocks, arena, a, size);
      slob.SlobFree(a, size);
      ghost var j: nat :| j <= |v.free| && Between(v.free, j, Block(a, live[a]))
        && slob.Blocks() == Give(v.free, j, Block(a, live[a]));
      FreeStep(v, bigblocks, arena, a, j);
      HeadersAfterFree(units, slob.units, v, bigblocks, a);
      GiveCoversAll(v, j, Block(a, live[a]));
      live := live - {a};
    }

    /** The large pages that the page allocator may answer with. */
    ghost predicate FreshLarge(page: Option<int>, large: int)
      reads this
    {
      && large % PAGE_UNITS == 0 && large !in obtained
      && (page.Some? ==> large !in PageUnits(page.value))
      && forall i | 0 <= i < |bigblocks| :: bigblocks[i].pages != large
    }

    /** bb->order and bb->pages: they lie where the header was. */
    method WriteRecord(bb: int, order: nat, pages: int)
      requires Valid() && bb in live
      modifies slob
      ensures Sound({bb}) && Memory() == old(Memory())
    {
      hide Partition, ArenaAlone, BigOk, IsRecord, Covers, SlobRing.Valid, SlobRing.BlocksOf;
      LiveOffRing(slob, Memory(), bb);
      RecordWrite(slob.Memory(), slob.ring, bb, order, pages);
      slob.units := slob.units[bb := order];
      slob.next := slob.next[bb := pages];
    }

    /** The part of kmalloc for sizes of almost a page and more. */
    method KmallocLarge(size: nat, page: Option<int>, large: Option<int>) returns (reply: Reply, took: bool)
      requires Valid() && size < 0x1_0000_0000 && Fresh(page) && (large.Some? ==> FreshLarge(page, large.value))
      modifies this, slob
      ensures Valid() && reply != Stopped
      ensures reply.Pointer? ==>
        && |bigblocks| > 0 && bigblocks[0].record !in old(live)
        && bigblocks == [BigBlock(bigblocks[0].record, Orders.Order(Orders.AsInt(size)), reply.addr)] + old(bigblocks)
        && live == old(live)[bigblocks[0].record := RECORD_UNITS] && large == Some(reply.addr)
      ensures took ==> page.Some?
      ensures obtained == if took then old(obtained) + PageUnits(page.value) else old(obtained)
      ensures reply == Null ==> live == old(live) && bigblocks == old(bigblocks)
      ensures reply == Null ==> large.None? || (page.None? && NoneFits(old(slob.Blocks()), 12))
      ensures took ==> NoneFits(old(slob.Blocks()), 12)
    {
      hide Partition, ArenaAlone, Headers, BigOk, IsRecord, Covers, PageUnits, FreshPage;
      ghost var before := bigblocks;
      var bb;
      bb, took := AllocBlock(RECORD_SIZE, page);
      if bb.None? {
        return Null, took;
      }
      NewRecord(old(Memory()), before, bb.value);
      var order := Orders.ComputeOrder(Orders.AsInt(size));
      WriteRecord(bb.value, order, if large.Some? then large.value else 0);
      if large.Some? {
        HeadersRecord(slob.units, live, before, BigBlock(bb.value, order, large.value));
        PushRecord(Memory(), before, BigBlock(bb.value, order, large.value));
        bigblocks := [BigBlock(bb.value, order, large.value)] + bigblocks;
        return Pointer(large.value), took;
      }
      FreeBlock(bb.value, RECORD_SIZE);
      assert live == old(live);
      return Null, took;
    }

    /** kmalloc of a positive size.  `page` and `large` are what the page allocator answers if it is asked; `took`
      * says that `page` was.
      */
    method Kmalloc(size: nat, page: Option<int>, large: Option<int>) returns (reply: Reply, took: bool)
      requires Valid() && 0 < size < 0x1_0000_0000 && Fresh(page) && (large.Some? ==> FreshLarge(page, large.value))
      modifies this, slob
      ensures Valid()
      ensures reply == Stopped <==> 4080 <= size < 4088
      ensures reply == Stopped ==> live == old(live) && obtained == old(obtained) && bigblocks == old(bigblocks)
      ensures size < 4088 && reply.Pointer? ==>
        && reply.addr - 1 !in old(live) && live == old(live)[reply.addr - 1 := Units(size + UNIT)]
        && bigblocks == old(bigblocks)
      ensures size < 4088 && reply.Pointer? ==>
        var n := live[reply.addr - 1]; 8 * (n - 2) < size <= 8 * (n - 1)
      ensures size >= 4088 && reply.Pointer? ==>
        && |bigblocks| > 0 && bigblocks[0].record !in old(live)
        && bigblocks == [BigBlock(bigblocks[0].record, Orders.Order(Orders.AsInt(size)), reply.addr)] + old(bigblocks)
        && live == old(live)[bigblocks[0].record := RECORD_UNITS] && large == Some(reply.addr)
      ensures took ==> page.Some?
      ensures obtained == if took then old(obtained) + PageUnits(page.value) else old(obtained)
      ensures reply == Null ==> live == old(live) && bigblocks == old(bigblocks)
      ensures reply == Null && size < 4088 ==> page.None? && NoneFits(old(slob.Blocks()), size + 8)
      ensures reply == Null && size >= 4088 ==> large.None? || (page.None? && NoneFits(old(slob.Blocks()), 12))
      ensures took ==> NoneFits(old(slob.Blocks()), if size < 4088 then size + 8 else 12)
    {
      hide Partition, ArenaAlone, Headers, BigOk, IsRecord, Covers, PageUnits, FreshPage;
      if size < 4096 - UNIT {
        if size + UNIT + UNIT >= 4096 {
          return Stopped, false;
        }
        var m;
        m, took := AllocBlock(size + UNIT, page);
        reply := if m.Some? then Pointer(m.value + 1) else Null;
      } else {
        reply, took := KmallocLarge(size, page, large);
      }
    }

    /** What kfree may be given: null, a small block of the caller's, or the pages of a large one. */
    ghost predicate Owned(p: int)
      reads this
    {
      || p == 0
      || (p - 1 in live && !IsRecord(bigblocks, p - 1))
      || exists i | 0 <= i < |bigblocks| :: bigblocks[i].pages == p
    }

    /** kfree; `pages` comes back with the order of the pages to be returned, if they were a large block. */
    method Kfree(p: int) returns (pages: Option<nat>)
      requires Valid() && Owned(p)
      modifies this, slob
      ensures Valid() && obtained == old(obtained)
      ensures p == 0 ==> live == old(live) && bigblocks == old(bigblocks) && pages == None
      ensures p != 0 && pages.None? ==> p - 1 in old(live) && live == old(live) - {p - 1} && bigblocks == old(bigblocks)
      ensures p != 0 && pages.Some? ==>
        exists i | 0 <= i < |old(bigblocks)| ::
          && old(bigblocks)[i].pages == p && pages == Some(old(bigblocks)[i].order)
          && bigblocks == old(bigblocks)[..i] + old(bigblocks)[i + 1..]
          && live == old(live) - {old(bigblocks)[i].record}
      ensures p != 0 ==> (pages.Some? <==> exists i | 0 <= i < |old(bigblocks)| :: old(bigblocks)[i].pages == p)
    {
      if p == 0 {
        return None;
      }
      if p % PAGE_UNITS == 0 {
        var i := 0;
        while i < |bigblocks|
          invariant 0 <= i <= |bigblocks|
          invariant forall k | 0 <= k < i :: bigblocks[k].pages != p
        {
          if bigblocks[i].pages == p {
            var bb := bigblocks[i];
            DropRecord(Memory(), bigblocks, i);
            HeadersDropped(slob.units, live, bigblocks, i);
            bigblocks := bigblocks[..i] + bigblocks[i + 1..];
            FreeBlock(bb.record, RECORD_SIZE);
            return Some(bb.order);
          }
          i := i + 1;
        }
      }
      NotPages(Memory(), bigblocks, p);
      FreeBlock(p - 1, 0);
      pages := None;
    }
  }

  lemma NewRecord(v: View, big: seq<BigBlock>, a: int)
    requires BigOk(big, v) && a !in v.live
    ensures !IsRecord(big, a)
  {
  }

  lemma PushRecord(v: View, big: seq<BigBlock>, b: BigBlock)
    requires BigOk(big, v) && !IsRecord(big, b.record)
    requires b.record in v.live && v.live[b.record] == RECORD_UNITS && b.pages % PAGE_UNITS == 0
      && b.pages !in v.obtained
    requires forall i | 0 <= i < |big| :: big[i].pages != b.pages
    ensures BigOk([b] + big, v)
  {
  }

  lemma DropRecord(v: View, big: seq<BigBlock>, i: nat)
    requires BigOk(big, v) && i < |big|
    ensures BigOk(big[..i] + big[i + 1..], v) && !IsRecord(big[..i] + big[i + 1..], big[i].record)
    ensures big[i].record in v.live && v.live[big[i].record] == RECORD_UNITS
  {
  }

  /** The pages of a large block are never mistaken for a small block, nor the other way round, whether the
    * small block's address is that of a page or not.
    */
  lemma NotPages(v: View, big: seq<BigBlock>, p: int)
    requires Partition(v) && BigOk(big, v)
    ensures p % PAGE_UNITS != 0 || (p - 1 in v.live && v.live[p - 1] > 1) ==>
      forall i | 0 <= i < |big| :: big[i].pages != p
  {
    if p - 1 in v.live && v.live[p - 1] > 1 {
      assert Block(p - 1, v.live[p - 1]).Has(p);
      assert InLive(v.live, p) && p in v.obtained;
    }
  }

  lemma HeadersRecord(units: map<int, int>, live: map<int, int>, big: seq<BigBlock>, b: BigBlock)
    requires Headers(units, live, big, {b.record})
    ensures Headers(units, live, [b] + big, {})
  {
    var all := [b] + big;
    assert all[0] == b;
    forall a | a in live && IsRecord(big, a) ensures IsRecord(all, a) {
      var i :| 0 <= i < |big| && big[i].record == a;
      assert all[i + 1].record == a;
    }
  }

  lemma HeadersDropped(units: map<int, int>, live: map<int, int>, big: seq<BigBlock>, i: nat)
    requires Headers(units, live, big, {}) && i < |big|
    ensures Headers(units, live, big[..i] + big[i + 1..], {big[i].record})
  {
    var rest := big[..i] + big[i + 1..];
    forall a | a in live && IsRecord(big, a) && a != big[i].record ensures IsRecord(rest, a) {
      var j :| 0 <= j < |big| && big[j].record == a;
      assert rest[if j < i then j else j - 1].record == a;
    }
  }

  lemma LiveOffRing(slob: Slob, v: View, a: int)
    requires slob.Valid() && v.free == slob.Blocks() && Partition(v) && a in v.live
    ensures a !in slob.ring
  {
    LiveHeader(v.live, a);
    RingCovered(slob.Memory(), slob.ring);
  }

  /** Two words written outside the ring leave it as it was. */
  lemma RecordWrite(h: SlobRing.Heap, r: seq<int>, b: int, order: int, pages: int)
    requires SlobRing.Valid(h, r) && b !in r
    ensures var h' := h.(units := h.units[b := order], next := h.next[b := pages]);
            SlobRing.Valid(h', r) && SlobRing.BlocksOf(h', r) == SlobRing.BlocksOf(h, r)
  {
    var h' := h.(units := h.units[b := order], next := h.next[b := pages]);
    forall k | 0 <= k < |r| ensures SlobRing.LinkedAt(h', r, k) {
      assert SlobRing.LinkedAt(h, r, k);
    }
    assert SlobRing.BlocksOf(h', r) == SlobRing.BlocksOf(h, r);
  }

  lemma GiveCoversAll(v: View, j: nat, b: Block)
    requires Partition(v) && Between(v.free, j, b)
    ensures forall u :: Covers(Give(v.free, j, b), u) <==> Covers(v.free, u) || b.Has(u)
  {
    forall u ensures Covers(Give(v.free, j, b), u) <==> Covers(v.free, u) || b.Has(u) {
      GiveCovers(v.free, j, b, u);
    }
  }

  lemma FreeStep(v: View, big: seq<BigBlock>, arena: int, a: int, j: nat)
    requires Partition(v) && ArenaAlone(v, arena) && BigOk(big, v) && a in v.live && !IsRecord(big, a)
    requires Between(v.free, j, Block(a, v.live[a]))
    ensures var v' := View(Give(v.free, j, Block(a, v.live[a])), v.live - {a}, v.obtained);
      Partition(v') && ArenaAlone(v', arena) && BigOk(big, v')
  {
    hide Partition, Give, Between;
    GivePartition(v, a, j);
    LiveOffArena(v, a, arena);
    ArenaAfterGive(v, j, Block(a, v.live[a]), arena);
  }

  lemma HeadersAfterFree(units: map<int, int>, units': map<int, int>, v: View, big: seq<BigBlock>, a: int)
    requires Partition(v) && Headers(units, v.live, big, {a}) && a in v.live
    requires forall x | x in units && x != a && !Covers(v.free, x) :: x in units' && units'[x] == units[x]
    ensures Headers(units', v.live - {a}, big, {})
  {
    hide IsRecord;
    forall b | b in v.live && b != a ensures b in units' && units'[b] == units[b] {
      LiveHeader(v.live, b);
    }
  }

  lemma LiveFacts(units: map<int, int>, v: View, big: seq<BigBlock>, arena: int, a: int, size: nat)
    requires Partition(v) && ArenaAlone(v, arena) && a in v.live && !IsRecord(big, a)
    requires Headers(units, v.live, big, if size == 0 then {} else {a})
    ensures Headers(units, v.live, big, {a}) && (size == 0 ==> units[a] == v.live[a])
    ensures a in units && v.live[a] > 1 && Apart(v.free, Block(a, v.live[a])) && a + v.live[a] != arena
  {
    LiveIsApart(v, a);
    LiveOffArena(v, a, arena);
  }

  lemma RingStart(slob: Slob, arena: int)
    requires slob.Valid() && arena in slob.ring
    ensures |slob.ring| > 1 || slob.ring[0] == arena
  {
  }

  lemma ArenaBlock(v: View, arena: int)
    requires ArenaAlone(v, arena)
    ensures Block(arena, 1) in v.free
  {
  }

  lemma FreshDisjoint(v: View, big: seq<BigBlock>, arena: int, page: int)
    requires FreshPage(v, big, arena, page)
    ensures PageUnits(page) !! v.obtained
  {
  }
}
