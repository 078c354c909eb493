/**
  The page descriptors of lab3/kern/mm/memlayout.h and the doubly linked free list of
  libs/list.h that runs through them.  Descriptor `n`, one past the last page, stands for
  the list head free_list.
 */
module FrameList {
  import opened FreeRuns

  datatype Page = Page(ref: int, reserved: bool, property: bool, run: nat, prev: nat, next: nat)

  /** The entry of the list in position `i`; the head closes the ring. */
  function At(list: seq<nat>, i: nat, n: nat): nat {
    if i < |list| then list[i] else n
  }

  function Before(list: seq<nat>, i: nat, n: nat): nat
    requires i <= |list|
  {
    if i == 0 then n else list[i - 1]
  }

  ghost predicate LinkAt(ps: seq<Page>, list: seq<nat>, i: nat)
    requires |ps| > 0 && i <= |list|
  {
    var n := |ps| - 1;
    var p, q := Before(list, i, n), At(list, i, n);
    p <= n && q <= n && ps[p].next == q && ps[q].prev == p
  }

  /** Going round from the head, the links visit `list` in order, both ways. */
  ghost predicate Chain(ps: seq<Page>, list: seq<nat>) {
    && |ps| > 0 && Ascending(list)
    && (forall i | 0 <= i < |list| :: list[i] < |ps| - 1)
    && (forall i | 0 <= i <= |list| :: LinkAt(ps, list, i))
  }

  /** __list_del */
  function Unlinked(ps: seq<Page>, p: nat): seq<Page>
    requires p < |ps| && ps[p].prev < |ps| && ps[p].next < |ps|
  {
    var q, r := ps[p].prev, ps[p].next;
    var ps1 := ps[q := ps[q].(next := r)];
    ps1[r := ps1[r].(prev := q)]
  }

  /** __list_add */
  function Linked(ps: seq<Page>, e: nat, p: nat, q: nat): seq<Page>
    requires e < |ps| && p < |ps| && q < |ps|
  {
    var ps1 := ps[q := ps[q].(prev := e)];
    var ps2 := ps1[p := ps1[p].(next := e)];
    ps2[e := ps2[e].(next := q, prev := p)]
  }

  /** Only links differ. */
  ghost predicate SameData(ps: seq<Page>, ps': seq<Page>) {
    |ps| == |ps'| && forall i | 0 <= i < |ps| :: ps'[i] == ps[i].(prev := ps'[i].prev, next := ps'[i].next)
  }

  lemma ChainAt(ps: seq<Page>, list: seq<nat>, i: nat)
    requires Chain(ps, list) && i <= |list|
    ensures LinkAt(ps, list, i) && At(list, i, |ps| - 1) < |ps| && Before(list, i, |ps| - 1) < |ps|
  {
  }

  lemma UnlinkedAt(ps: seq<Page>, list: seq<nat>, k: nat, i: nat)
    requires Chain(ps, list) && k < |list| && i < |list|
    requires LinkAt(ps, list, k) && LinkAt(ps, list, k + 1)
    ensures LinkAt(Unlinked(ps, list[k]), list[..k] + list[k + 1..], i)
  {
    var list' := list[..k] + list[k + 1..];
    assert LinkAt(ps, list, if i < k then i else i + 1);
  }

  lemma UnlinkedChain(ps: seq<Page>, list: seq<nat>, k: nat)
    requires Chain(ps, list) && k < |list|
    ensures LinkAt(ps, list, k) && LinkAt(ps, list, k + 1)
    ensures Chain(Unlinked(ps, list[k]), list[..k] + list[k + 1..]) && SameData(ps, Unlinked(ps, list[k]))
  {
    ChainAt(ps, list, k);
    ChainAt(ps, list, k + 1);
    var list' := list[..k] + list[k + 1..];
    var ps' := Unlinked(ps, list[k]);
    forall i | 0 <= i <= |list'| ensures LinkAt(ps', list', i) {
      UnlinkedAt(ps, list, k, i);
    }
  }

  lemma LinkedAt(ps: seq<Page>, list: seq<nat>, k: nat, e: nat, i: nat)
    requires Chain(ps, list) && k <= |list| && e < |ps| - 1 && e !in list && i <= |list| + 1
    requires LinkAt(ps, list, k)
    ensures LinkAt(Linked(ps, e, Before(list, k, |ps| - 1), At(list, k, |ps| - 1)), list[..k] + [e] + list[k..], i)
  {
    var list' := list[..k] + [e] + list[k..];
    if i < k {
      assert LinkAt(ps, list, i);
    } else if i > k + 1 {
      assert LinkAt(ps, list, i - 1);
    }
  }

  lemma LinkedChain(ps: seq<Page>, list: seq<nat>, k: nat, e: nat)
    requires Chain(ps, list) && k <= |list| && e < |ps| - 1
    requires forall i | 0 <= i < |list| :: if i < k then list[i] < e else e < list[i]
    ensures LinkAt(ps, list, k)
    ensures var ps' := Linked(ps, e, Before(list, k, |ps| - 1), At(list, k, |ps| - 1));
      Chain(ps', list[..k] + [e] + list[k..]) && SameData(ps, ps')
  {
    ChainAt(ps, list, k);
    var list' := list[..k] + [e] + list[k..];
    var ps' := Linked(ps, e, Before(list, k, |ps| - 1), At(list, k, |ps| - 1));
    forall i | 0 <= i <= |list'| ensures LinkAt(ps', list', i) {
      LinkedAt(ps, list, k, e, i);
    }
  }
}
