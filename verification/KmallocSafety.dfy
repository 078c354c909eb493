/**
  kmalloc and kfree of lab4/kern/mm/kmalloc.c.  What every call keeps: the free ring and
  the blocks in use partition exactly the memory obtained so far.
 */
module KmallocSafety {
  import opened FreeRuns
  import opened Kmalloc

  /** The arena is a free block of one unit, and nothing obtained touches it. */
  ghost predicate ArenaAlone(v: View, arena: int) {
    Block(arena, 1) in v.free && arena - 1 !in v.obtained && arena + 1 !in v.obtained
  }

  function PageUnits(page: int): set<int> {
    set u {:trigger Block(page, PAGE_UNITS).Has(u)} | page <= u < page + PAGE_UNITS
  }

  lemma GrowPartition(v: View, j: nat, page: int, bs: seq<Block>)
    requires Partition(v) && Grown(v.free, j, page, bs) && PageUnits(page) !! v.obtained
    ensures Partition(View(bs, v.live, v.obtained + PageUnits(page)))
  {
    GiveCanonical(v.free, j, Block(page, PAGE_UNITS));
    forall u
      ensures Covers(bs, u) <==> Covers(v.free, u) || u in PageUnits(page)
    {
      GiveCovers(v.free, j, Block(page, PAGE_UNITS), u);
    }
  }

  // ---------- the arena stays ----------

  lemma ArenaAfterGive(v: View, j: nat, b: Block, arena: int)
    requires Partition(v) && ArenaAlone(v, arena) && Between(v.free, j, b) && b.End() != arena && b.base != arena + 1
    ensures Block(arena, 1) in Give(v.free, j, b)
  {
    var i :| 0 <= i < |v.free| && v.free[i] == Block(arena, 1);
    GiveKeeps(v.free, j, b, i);
  }

  lemma ArenaAfterTake(bs: seq<Block>, i: nat, n: int, arena: int)
    requires Block(arena, 1) in bs && i < |bs| && bs[i] != Block(arena, 1)
    ensures Block(arena, 1) in Take(bs, i, n)
  {
    var k :| 0 <= k < |bs| && bs[k] == Block(arena, 1);
    var d := if bs[i].len == n then 1 else 0;
    assert Take(bs, i, n)[if k < i then k else k - d] == bs[k];
  }

  /** No block in use touches the arena, for the units beside it were never obtained. */
  lemma LiveOffArena(v: View, a: int, arena: int)
    requires Partition(v) && ArenaAlone(v, arena) && a in v.live
    ensures a + v.live[a] != arena && a != arena + 1
  {
    var b := Block(a, v.live[a]);
    assert b.Has(a) && b.Has(a + v.live[a] - 1);
    assert InLive(v.live, a) && InLive(v.live, a + v.live[a] - 1);
  }
}
