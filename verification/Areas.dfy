/** The virtual memory areas of a process: an ordered list, with the last area found kept aside
  * (lab3/kern/mm/vmm.c).
  */
module Areas {

  class Vma {
    const start: nat
    const end: nat
    var mm: Mm?

    constructor (start: nat, end: nat)
      ensures this.start == start && this.end == end && mm == null
    {
      this.start, this.end, mm := start, end, null;
    }
  }

  predicate Holds(v: Vma, addr: nat) {
    v.start <= addr < v.end
  }

  /** The areas share no address. */
  ghost predicate Apart(v: Vma, w: Vma) {
    forall addr: nat :: !(Holds(v, addr) && Holds(w, addr))
  }

  /** Areas are not empty, lie in order and do not overlap. */
  ghost predicate Sorted(list: seq<Vma>) {
    && (forall i :: 0 <= i < |list| ==> list[i].start < list[i].end)
    && (forall i, j :: 0 <= i < j < |list| ==> list[i].end <= list[j].start)
  }

  /** How many areas from the front start at or below an address. */
  function Before(list: seq<Vma>, start: nat): (k: nat)
    ensures k <= |list|
  {
    if list == [] || list[0].start > start then 0 else 1 + Before(list[1..], start)
  }

  /** The two neighbour checks at position k. */
  predicate Fits(list: seq<Vma>, k: nat, v: Vma)
    requires k <= |list|
  {
    && v.start < v.end
    && (k > 0 ==> list[k - 1].start < list[k - 1].end <= v.start)
    && (k < |list| ==> v.end <= list[k].start < list[k].end)
  }

  lemma {:induction false} BeforeSplits(list: seq<Vma>, start: nat)
    requires Sorted(list)
    ensures var k := Before(list, start);
            (forall i :: 0 <= i < k ==> list[i].start <= start)
              && (forall i :: k <= i < |list| ==> list[i].start > start)
  {
    if list != [] && list[0].start <= start {
      BeforeSplits(list[1..], start);
    }
  }

  /** Checking the two neighbours finds an overlap exactly when there is one anywhere in the list. */
  lemma NeighboursSuffice(list: seq<Vma>, v: Vma)
    requires Sorted(list) && v.start < v.end
    ensures Fits(list, Before(list, v.start), v) <==> forall i :: 0 <= i < |list| ==> Apart(list[i], v)
  {
    BeforeSplits(list, v.start);
    var k := Before(list, v.start);
    if Fits(list, k, v) {
    } else if k > 0 && list[k - 1].end > v.start {
      assert Holds(list[k - 1], v.start) && Holds(v, v.start);
    } else {
      assert Holds(list[k], list[k].start) && Holds(v, list[k].start);
    }
  }

  lemma InsertSorted(list: seq<Vma>, v: Vma)
    requires Sorted(list) && Fits(list, Before(list, v.start), v)
    ensures var k := Before(list, v.start); Sorted(list[..k] + [v] + list[k..])
  {
    var k := Before(list, v.start);
    assert forall i :: 0 <= i < k ==> list[i].end <= v.start;
    assert forall i :: k <= i < |list| ==> v.end <= list[i].start;
    Spliced(list, k, v);
  }

  lemma Spliced(list: seq<Vma>, k: nat, v: Vma)
    requires Sorted(list) && k <= |list| && v.start < v.end
    requires forall i :: 0 <= i < k ==> list[i].end <= v.start
    requires forall i :: k <= i < |list| ==> v.end <= list[i].start
    ensures Sorted(list[..k] + [v] + list[k..])
  {
    var s := list[..k] + [v] + list[k..];
    forall i, j | 0 <= i < j < |s| ensures s[i].end <= s[j].start {
    }
  }

  class Mm {
    var list: seq<Vma>
    var cache: Vma?
    var count: nat

    ghost predicate Valid()
      reads this
    {
      Sorted(list) && count == |list| && (cache != null ==> cache in list)
    }

    constructor ()
      ensures Valid() && list == []
    {
      list, cache, count := [], null, 0;
    }

    /** The walk over the list up to the first area that starts higher. */
    method FindPlace(start: nat) returns (k: nat)
      ensures k == Before(list, start)
    {
      k := 0;
      while k < |list| && list[k].start <= start
        invariant k <= |list| && Before(list, start) == k + Before(list[k..], start)
      {
        assert list[k..][1..] == list[k + 1..];
        k := k + 1;
      }
    }

    /** insert_vma_struct; a failed check stops the kernel, so nothing is inserted then. */
    method Insert(v: Vma) returns (ok: bool)
      requires Valid()
      modifies this, v
      ensures Valid() && cache == old(cache)
      ensures ok <==> v.start < v.end && forall i :: 0 <= i < |old(list)| ==> Apart(old(list)[i], v)
      ensures ok ==>
        v.mm == this && list == old(list)[..Before(old(list), v.start)] + [v] + old(list)[Before(old(list), v.start)..]
      ensures !ok ==> list == old(list) && v.mm == old(v.mm)
    {
      hide Sorted, Before, Apart;
      if v.start >= v.end {
        return false;
      }
      var k := FindPlace(v.start);
      NeighboursSuffice(list, v);
      ok := (k == 0 || (list[k - 1].start < list[k - 1].end && list[k - 1].end <= v.start))
            && (k == |list| || (v.end <= list[k].start && list[k].start < list[k].end));
      if ok {
        InsertSorted(list, v);
        v.mm := this;
        list := list[..k] + [v] + list[k..];
        count := count + 1;
      }
    }

    /** find_vma: the kept area if it holds the address, otherwise a walk over the list. What it finds
      * does not depend on what was kept.
      */
    method Find(addr: nat) returns (v: Vma?)
      requires Valid()
      modifies this`cache
      ensures Valid()
      ensures v != null ==> v in list && Holds(v, addr) && forall w :: w in list && Holds(w, addr) ==> w == v
      ensures v == null <==> forall w :: w in list ==> !Holds(w, addr)
      ensures cache == if v != null then v else old(cache)
    {
      v := cache;
      if v == null || !(v.start <= addr && v.end > addr) {
        var k := 0;
        while k < |list| && !(list[k].start <= addr < list[k].end)
          invariant k <= |list| && forall i :: 0 <= i < k ==> !Holds(list[i], addr)
        {
          k := k + 1;
        }
        v := if k < |list| then list[k] else null;
      }
      if v != null {
        OneHolder(list, addr, v);
        cache := v;
      }
    }
  }

  lemma OneHolder(list: seq<Vma>, addr: nat, v: Vma)
    requires Sorted(list) && v in list && Holds(v, addr)
    ensures forall w :: w in list && Holds(w, addr) ==> w == v
  {
  }
}
