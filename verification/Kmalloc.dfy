/**
  The SLOB allocator of lab4/kern/mm/kmalloc.c over the ring of SlobRing, and kmalloc and
  kfree on top.  What the page allocator answers, if it is asked, is a parameter.
 */
module Kmalloc {
  import opened Options
  import opened FreeRuns
  import opened SlobRing

  const UNIT := 8
  const PAGE_SIZE := 4096
  const PAGE_UNITS := 512

  /** SLOB_UNITS */
  function Units(size: nat): nat {
    (size + UNIT - 1) / UNIT
  }

  /** How many links it is from block `i` of a ring of `m` to block `t`. */
  function Distance(i: nat, t: nat, m: nat): nat
    requires i < m && t < m
  {
    if i <= t then t - i else t - i + m
  }

  lemma DistanceStep(i: nat, t: nat, m: nat)
    requires i < m && t < m && i != t
    ensures Distance(Succ(i, m), t, m) == Distance(i, t, m) - 1
    ensures forall q | 0 <= q < m :: Distance(q, t, m) == Distance(i, t, m) ==> q == i
  {
  }

  /** slob_free's scan stops at the block before the gap and nowhere else, wherever it starts. */
  lemma ScanStops(h: Heap, r: seq<int>, j: nat, b: int, k: nat)
    requires SlobRing.Valid(h, r) && Gap(h, r, j, b) && k < |r|
    ensures LinkedAt(h, r, k)
    ensures var cur, next := r[k], h.next[r[k]];
      (cur < b < next || (cur >= next && (b > cur || b < next))) <==> k == Pred(j, |r|)
  {
    RingFacts(h, r);
    GapOrders(h, r, j, b);
    assert LinkedAt(h, r, k);
  }

  class Slob {
    var units: map<int, int>
    var next: map<int, int>
    var slobfree: int
    ghost var ring: seq<int>

    ghost function Memory(): Heap
      reads this
    {
      Heap(units, next, slobfree)
    }

    ghost predicate Valid()
      reads this
    {
      SlobRing.Valid(Memory(), ring)
    }

    ghost function Blocks(): seq<Block>
      reads this
      requires Valid()
    {
      BlocksOf(Memory(), ring)
    }

    constructor (arena: int)
      ensures Valid() && Blocks() == [Block(arena, 1)] && units.Keys == {arena}
    {
      units, next, slobfree := map[arena := 1], map[arena := arena], arena;
      ring := [arena];
      new;
      BootValid(arena);
    }

    /** The scan of slob_free: the block before the gap that `b` belongs in. */
    method FindBefore(b: int, ghost j: nat) returns (cur: int)
      requires Valid() && Gap(Memory(), ring, j, b)
      ensures cur == ring[Pred(j, |ring|)]
    {
      hide Gap, Ring, Canonical, LinkedAt, Headed;
      RingFacts(Memory(), ring);
      NextKnownHere(Memory(), ring, j, b);
      cur := slobfree;
      ghost var k :| 0 <= k < |ring| && ring[k] == cur;
      ScanStops(Memory(), ring, j, b, k);
      NextKnown(Memory(), ring, k);
      while !(b > cur && b < next[cur])
        invariant 0 <= k < |ring| && cur == ring[k]
        invariant cur in next
        invariant (cur < b < next[cur] || (cur >= next[cur] && (b > cur || b < next[cur]))) <==> k == Pred(j, |ring|)
        decreases Distance(k, Pred(j, |ring|), |ring|)
      {
        if cur >= next[cur] && (b > cur || b < next[cur]) {
          break;
        }
        DistanceStep(k, Pred(j, |ring|), |ring|);
        NextOf(Memory(), ring, k);
        cur := next[cur];
        k := Succ(k, |ring|);
        ScanStops(Memory(), ring, j, b, k);
        NextKnown(Memory(), ring, k);
      }
    }

    /** slob_free of a block that has its size in its header: the ring is right afterwards unless the block ends
      * where the only free block starts.
      */
    method LinkBlock(b: int, ghost j: nat)
      requires Valid() && Gap(Memory(), ring, j, b)
      modifies this
      ensures old(|ring| > 1 || !High(Memory(), ring, j, b)) ==>
        Valid() && Blocks() == Give(old(Blocks()), j, Block(b, old(units[b])))
      ensures old(|ring| == 1 && High(Memory(), ring, j, b)) ==>
        !Holds(Memory(), Give(old(Blocks()), j, Block(b, old(units[b]))))
      ensures forall x | x in old(units) && x != b && !Covers(old(Blocks()), x) ::
        x in units && units[x] == old(units[x])
    {
      hide Covers, Gap, Low, High, Ring, Canonical, LinkedAt, Give, GiveRing, Headed, Tested, SlobRing.Valid, Holds;
      ghost var h := Memory();
      RingCovered(h, ring);
      var cur := FindBefore(b, j);
      NextKnownHere(h, ring, j, b);
      ring := LinkedRing(h, ring, j, b);
      var after := next[cur];
      if b + units[b] == after {
        units := units[b := units[b] + units[after]];
        next := next[b := next[after]];
      } else {
        next := next[b := after];
      }
      if cur + units[cur] == b {
        units := units[cur := units[cur] + units[b]];
        next := next[cur := next[b]];
      } else {
        next := next[cur := b];
      }
      slobfree := cur;
      assert Memory() == LinkIn(h, cur, b);
    }

    /** slob_free; a size of 0 means that the header says how long the block is. The block joins the free ones,
      * unless it ends where the only free block starts: then the ring is none for the blocks that are free.
      */
    method SlobFree(block: int, size: nat)
      requires Valid() && (size == 0 ==> block in units)
      requires var n := if size == 0 then units[block] else Units(size); n > 0 && Apart(Blocks(), Block(block, n))
      modifies this
      ensures var b := Block(block, if size == 0 then old(units[block]) else Units(size));
        exists j: nat ::
          && j <= |old(Blocks())| && Between(old(Blocks()), j, b)
          && if old(|ring|) > 1 || b.End() != old(ring[0]) then Valid() && Blocks() == Give(old(Blocks()), j, b)
             else !Holds(Memory(), Give(old(Blocks()), j, b))
      ensures forall x | x in old(units) && x != block && !Covers(old(Blocks()), x) ::
        x in units && units[x] == old(units[x])
    {
      hide Ring, Canonical, LinkedAt, Headed, SlobRing.Valid, Gap, High, Give, Between, Apart, Covers, Holds;
      ghost var n := if size == 0 then units[block] else Units(size);
      ApartIsOff(Memory(), ring, block, n);
      if size != 0 {
        HeaderWrite(Memory(), ring, block, n);
        units := units[block := Units(size)];
      }
      ghost var j := GapFor(Memory(), ring, block);
      LinkBlock(block, j);
    }

    /** slob_alloc once the block at `cur` fits: the ring is right afterwards unless the block was alone on it. */
    method UnlinkBlock(prev: int, cur: int, n: int, ghost i: nat)
      requires Valid() && i < |ring| && cur == ring[i] && prev == ring[Pred(i, |ring|)]
      requires 0 < n && cur in units && n <= units[cur]
      modifies this
      ensures if old(|ring|) > 1 then Valid() && Blocks() == Take(old(Blocks()), i, n)
        else !Holds(Memory(), Take(old(Blocks()), i, n))
      ensures cur in units && units[cur] == n
      ensures Kept(old(units), units, old(Blocks()), None)
    {
      hide Ring, Canonical, LinkedAt, Take, Headed, SlobRing.Valid, Holds;
      ghost var h, r := Memory(), ring;
      NextKnown2(h, r, i);
      BlockCovered(h, r, i);
      ring := UnlinkedRing(h, r, i, n);
      if units[cur] == n {
        next := next[prev := next[cur]];
      } else {
        next := next[prev := cur + n];
        units := units[cur + n := units[cur] - n];
        next := next[cur + n := next[cur]];
        units := units[cur := n];
      }
      slobfree := prev;
      assert Memory() == Unlink(h, prev, cur, n);
    }

    /** Gets the page that slob_alloc asked for into the ring; `anchor` is a block that the page does not touch. */
    method AddPage(page: int, ghost anchor: int) returns (ghost j: nat)
      requires Valid() && anchor in ring && page + PAGE_UNITS != anchor && anchor + units[anchor] != page
      requires Apart(Blocks(), Block(page, PAGE_UNITS))
      modifies this
      ensures Valid() && Grown(old(Blocks()), j, page, Blocks())
      ensures anchor in ring && units[anchor] == old(units[anchor])
      ensures SomeFits(Memory(), ring, PAGE_UNITS)
      ensures Kept(old(units), units, old(Blocks()), Some(page))
    {
      hide Ring, Canonical, LinkedAt, Headed, SlobRing.Valid, Give, Between, Apart, Covers;
      ghost var h, r, bs := Memory(), ring, Blocks();
      AnchorAlone(h, r, anchor);
      SlobFree(page, PAGE_SIZE);
      j :| j <= |bs| && Between(bs, j, Block(page, PAGE_UNITS)) && Blocks() == Give(bs, j, Block(page, PAGE_UNITS));
      KeptInRing(h, r, Memory(), ring, j, Block(page, PAGE_UNITS), anchor);
      PageInRing(h, r, Memory(), ring, j, Block(page, PAGE_UNITS));
    }

    /** slob_alloc with align 0: next fit, with at most one page asked for. */
    method SlobAlloc(size: nat, page: Option<int>, ghost anchor: int)
      returns (block: Option<int>, asked: bool, ghost j: nat, ghost bs: seq<Block>, ghost i: nat)
      requires Valid() && 0 < size && size + UNIT < PAGE_SIZE
      requires anchor in ring && units[anchor] < Units(size)
      requires page.Some? ==>
        && Apart(Blocks(), Block(page.value, PAGE_UNITS))
        && page.value + PAGE_UNITS != anchor && anchor + units[anchor] != page.value
      modifies this
      ensures Valid()
      ensures block.None? ==>
        page.None? && !asked && Memory() == old(Memory()) && ring == old(ring) && !SomeFits(Memory(), ring, Units(size))
      ensures block.Some? ==> if asked
        then page.Some? && !SomeFits(old(Memory()), old(ring), Units(size)) && Grown(old(Blocks()), j, page.value, bs)
        else bs == old(Blocks()) && i < |old(ring)| && NextFit(old(Memory()), old(ring), i, Units(size))
      ensures block.Some? ==>
        && i < |bs| && bs[i].base == block.value && Units(size) <= bs[i].len
        && Blocks() == Take(bs, i, Units(size))
        && block.value in units && units[block.value] == Units(size)
        && 8 * (units[block.value] - 1) < size <= 8 * units[block.value]
      ensures Kept(old(units), units, old(Blocks()), page)
    {
      hide Ring, Canonical, LinkedAt, Headed, SlobRing.Valid, Give, Between, Apart, Covers, Take, Unfit, Distance,
           Succ, SomeFits, Grown, Kept;
      var n := Units(size);
      var prev := slobfree;
      ghost var s: nat := FreeIndex(Memory(), ring);
      StepFacts(Memory(), ring, s);
      var cur := next[prev];
      ghost var k: nat := Succ(s, |ring|);
      asked, j := false, 0;
      bs, i := Blocks(), 0;
      UnfitStart(Memory(), ring, s, n);
      AnchorAlone(Memory(), ring, anchor);
      KeptSelf(units, bs, page);
      while true
        invariant Valid() && bs == Blocks() && s < |ring| && ring[s] == slobfree
        invariant k < |ring| && Pred(k, |ring|) < |ring| && cur == ring[k] && prev == ring[Pred(k, |ring|)]
        invariant Unfit(Memory(), ring, s, k, n)
        invariant !asked ==> Memory() == old(Memory()) && ring == old(ring)
        invariant asked ==>
          && page.Some? && SomeFits(Memory(), ring, n) && !SomeFits(old(Memory()), old(ring), n)
          && Grown(old(Blocks()), j, page.value, bs)
        invariant anchor in ring && anchor in units && units[anchor] < n
        invariant Kept(old(units), units, old(Blocks()), page)
        decreases !asked, Distance(k, s, |ring|)
      {
        NextKnown2(Memory(), ring, k);
        if units[cur] >= n {
          TwoBlocks(Memory(), ring, anchor, k);
          ghost var before := units;
          UnlinkBlock(prev, cur, n, k);
          if asked {
            ValidCanonical(old(Memory()), old(ring));
            KeptThroughPage(old(units), before, units, old(Blocks()), j, page.value, bs);
          } else {
            KeptWeaken(before, units, bs, page);
          }
          block, i := Some(cur), k;
          return;
        }
        if cur == slobfree {
          UnfitAll(Memory(), ring, s, k, n);
          if page.None? {
            block := None;
            return;
          }
          j := AddPage(page.value, anchor);
          cur := slobfree;
          asked := true;
          s := FreeIndex(Memory(), ring);
          k := s;
          bs := Blocks();
          FitsMonotone(Memory(), ring, PAGE_UNITS, n);
          UnfitStart(Memory(), ring, s, n);
          AnchorAlone(Memory(), ring, anchor);
        } else {
          UnfitStep(Memory(), ring, s, k, n);
        }
        StepFacts(Memory(), ring, k);
        prev := cur;
        cur := next[cur];
        k := Succ(k, |ring|);
      }
    }
  }

  ghost predicate InPage(page: Option<int>, x: int) {
    page.Some? && Block(page.value, PAGE_UNITS).Has(x)
  }

  /** No header outside the blocks `bs` and the page is overwritten. */
  ghost predicate Kept(u: map<int, int>, u': map<int, int>, bs: seq<Block>, page: Option<int>) {
    forall x | x in u && !Covers(bs, x) && !InPage(page, x) :: x in u' && u'[x] == u[x]
  }

  lemma KeptThroughPage(u: map<int, int>, v: map<int, int>, w: map<int, int>, bs: seq<Block>, j: nat, page: int,
                        bs': seq<Block>)
    requires Canonical(bs) && Grown(bs, j, page, bs') && Kept(u, v, bs, Some(page)) && Kept(v, w, bs', None)
    ensures Kept(u, w, bs, Some(page))
  {
    forall x | x in u && !Covers(bs, x) && !InPage(Some(page), x) ensures x in w && w[x] == u[x] {
      GiveCovers(bs, j, Block(page, PAGE_UNITS), x);
    }
  }

  lemma KeptWeaken(u: map<int, int>, v: map<int, int>, bs: seq<Block>, page: Option<int>)
    requires Kept(u, v, bs, None)
    ensures Kept(u, v, bs, page)
  {
  }

  lemma KeptSelf(u: map<int, int>, bs: seq<Block>, page: Option<int>)
    ensures Kept(u, u, bs, page)
  {
  }

  lemma ValidCanonical(h: Heap, r: seq<int>)
    requires SlobRing.Valid(h, r)
    ensures Canonical(BlocksOf(h, r))
  {
  }

  /** `bs'` is `bs` with a new page in it. */
  ghost predicate Grown(bs: seq<Block>, j: nat, page: int, bs': seq<Block>) {
    j <= |bs| && Between(bs, j, Block(page, PAGE_UNITS)) && bs' == Give(bs, j, Block(page, PAGE_UNITS))
  }

  ghost predicate SomeFits(h: Heap, r: seq<int>, n: int) {
    exists f | 0 <= f < |r| :: r[f] in h.units && h.units[r[f]] >= n
  }

  /** The blocks passed on the way from the one after block `s` to block `k` are all too small. */
  ghost predicate Unfit(h: Heap, r: seq<int>, s: nat, k: nat, n: int)
    requires s < |r| && k < |r|
  {
    forall q | 0 <= q < |r| && Distance(q, s, |r|) > Distance(k, s, |r|) :: r[q] in h.units && h.units[r[q]] < n
  }

  /** `k` is the first block that fits, counting from the one after slobfree. */
  ghost predicate NextFit(h: Heap, r: seq<int>, k: nat, n: int)
    requires k < |r|
  {
    exists s | 0 <= s < |r| && r[s] == h.free :: Unfit(h, r, s, k, n)
  }

  lemma FitsMonotone(h: Heap, r: seq<int>, m: int, n: int)
    requires SomeFits(h, r, m) && n <= m
    ensures SomeFits(h, r, n)
  {
  }

  lemma UnfitStart(h: Heap, r: seq<int>, s: nat, n: int)
    requires s < |r|
    ensures Succ(s, |r|) < |r| && Unfit(h, r, s, Succ(s, |r|), n)
  {
  }

  lemma UnfitStep(h: Heap, r: seq<int>, s: nat, k: nat, n: int)
    requires SlobRing.Valid(h, r) && s < |r| && k < |r| && Unfit(h, r, s, k, n) && r[k] != r[s]
    requires h.units[r[k]] < n
    ensures Succ(k, |r|) < |r| && Unfit(h, r, s, Succ(k, |r|), n)
    ensures Distance(Succ(k, |r|), s, |r|) < Distance(k, s, |r|)
  {
    DistanceStep(k, s, |r|);
  }

  lemma UnfitAll(h: Heap, r: seq<int>, s: nat, k: nat, n: int)
    requires SlobRing.Valid(h, r) && s < |r| && k < |r| && Unfit(h, r, s, k, n) && r[k] == r[s]
    requires h.units[r[k]] < n
    ensures forall q | 0 <= q < |r| :: BlocksOf(h, r)[q].len < n
    ensures !SomeFits(h, r, n)
  {
    RingFacts(h, r);
    assert k == s;
  }

  lemma TwoBlocks(h: Heap, r: seq<int>, a: int, k: nat)
    requires SlobRing.Valid(h, r) && a in r && k < |r| && h.units[a] != h.units[r[k]]
    ensures |r| > 1
  {
  }

  lemma StepFacts(h: Heap, r: seq<int>, k: nat)
    requires SlobRing.Valid(h, r) && k < |r|
    ensures r[k] in h.next && Succ(k, |r|) < |r| && h.next[r[k]] == r[Succ(k, |r|)]
    ensures r[k] == r[Pred(Succ(k, |r|), |r|)]
  {
    NextOf(h, r, k);
  }

  lemma RingCovered(h: Heap, r: seq<int>)
    requires SlobRing.Valid(h, r)
    ensures |r| > 0 && h.free in r
    ensures forall k | 0 <= k < |r| :: Covers(BlocksOf(h, r), r[k])
  {
    forall k | 0 <= k < |r| ensures Covers(BlocksOf(h, r), r[k]) {
      assert BlocksOf(h, r)[k].Has(r[k]);
    }
  }

  lemma HeaderWrite(h: Heap, r: seq<int>, b: int, n: int)
    requires SlobRing.Valid(h, r) && b !in r
    ensures var h' := h.(units := h.units[b := n]); SlobRing.Valid(h', r) && BlocksOf(h', r) == BlocksOf(h, r)
  {
    var h' := h.(units := h.units[b := n]);
    forall k | 0 <= k < |r| ensures LinkedAt(h', r, k) {
      assert LinkedAt(h, r, k);
    }
    assert BlocksOf(h', r) == BlocksOf(h, r);
  }

  lemma NextOf(h: Heap, r: seq<int>, k: nat)
    requires SlobRing.Valid(h, r) && k < |r|
    ensures r[k] in h.next && h.next[r[k]] == r[Succ(k, |r|)] && Succ(k, |r|) < |r|
  {
    assert LinkedAt(h, r, k);
  }

  lemma NextKnownHere(h: Heap, r: seq<int>, j: nat, b: int)
    requires SlobRing.Valid(h, r) && Gap(h, r, j, b)
    ensures |r| > 0 && Pred(j, |r|) < |r| && j <= |r| && b in h.units && (High(h, r, j, b) ==> j < |r|)
    ensures var cur := r[Pred(j, |r|)];
            cur in h.units && cur in h.next && h.next[cur] in h.units
            && h.next[cur] in h.next
  {
    NextKnownInGap(h, r, j, b);
  }

  lemma NextKnown2(h: Heap, r: seq<int>, i: nat)
    requires SlobRing.Valid(h, r) && i < |r|
    ensures r[i] in h.units && r[i] in h.next && Pred(i, |r|) < |r|
    ensures r[Pred(i, |r|)] in h.units && r[Pred(i, |r|)] in h.next
  {
    NextKnown(h, r, i);
    NextKnown(h, r, Pred(i, |r|));
  }

  lemma BlockCovered(h: Heap, r: seq<int>, i: nat)
    requires SlobRing.Valid(h, r) && i < |r|
    ensures forall u | r[i] <= u < r[i] + h.units[r[i]] :: Covers(BlocksOf(h, r), u)
    ensures h.units[r[i]] > 0
  {
    assert BlocksOf(h, r)[i].len > 0;
    forall u | r[i] <= u < r[i] + h.units[r[i]] ensures Covers(BlocksOf(h, r), u) {
      assert BlocksOf(h, r)[i].Has(u);
    }
  }

  lemma ApartIsOff(h: Heap, r: seq<int>, b: int, n: int)
    requires SlobRing.Valid(h, r) && Apart(BlocksOf(h, r), Block(b, n)) && n > 0
    ensures b !in r
  {
    RingCovered(h, r);
    assert Block(b, n).Has(b);
  }

  lemma GapFor(h: Heap, r: seq<int>, b: int) returns (j: nat)
    requires SlobRing.Valid(h, r) && b in h.units && h.units[b] > 0 && Apart(BlocksOf(h, r), Block(b, h.units[b]))
    ensures Gap(h, r, j, b) && Between(BlocksOf(h, r), j, Block(b, h.units[b]))
    ensures |r| > 0 && (|r| > 1 || (High(h, r, j, b) <==> b + h.units[b] == r[0]))
  {
    RingFacts(h, r);
    j := FindGap(BlocksOf(h, r), Block(b, h.units[b]));
  }

  lemma KeptInRing(h: Heap, r: seq<int>, h': Heap, r': seq<int>, j: nat, b: Block, a: int)
    requires SlobRing.Valid(h, r) && SlobRing.Valid(h', r') && j <= |r|
      && BlocksOf(h', r') == Give(BlocksOf(h, r), j, b)
    requires a in r && b.End() != a && a + h.units[a] != b.base
    ensures a in r' && h'.units[a] == h.units[a]
  {
    var i :| 0 <= i < |r| && r[i] == a;
    GiveKeeps(BlocksOf(h, r), j, b, i);
    assert Block(a, h.units[a]) in BlocksOf(h', r');
  }

  lemma AnchorAlone(h: Heap, r: seq<int>, a: int)
    requires SlobRing.Valid(h, r) && a in r
    ensures |r| > 1 || r[0] == a
    ensures a in h.units
  {
  }

  lemma PageInRing(h: Heap, r: seq<int>, h': Heap, r': seq<int>, j: nat, b: Block)
    requires SlobRing.Valid(h, r) && SlobRing.Valid(h', r') && j <= |r|
      && BlocksOf(h', r') == Give(BlocksOf(h, r), j, b)
    requires Between(BlocksOf(h, r), j, b)
    ensures SomeFits(h', r', b.len)
  {
    var f := GiveHolds(BlocksOf(h, r), j, b);
    assert h'.units[r'[f]] == BlocksOf(h', r')[f].len;
  }

  lemma FreeIndex(h: Heap, r: seq<int>) returns (i: nat)
    requires SlobRing.Valid(h, r)
    ensures i < |r| && r[i] == h.free && Succ(i, |r|) < |r|
  {
    i :| 0 <= i < |r| && r[i] == h.free;
  }
}
