/**
  The free ring of the SLOB allocator (lab4/kern/mm/kmalloc.c) as memory words: each free
  block starts with a header that holds its size and the address of the next one.
  Addresses and sizes are in units of eight bytes.
 */
module SlobRing {
  import opened FreeRuns

  /** The header fields in memory and the pointer slobfree. */
  datatype Heap = Heap(units: map<int, int>, next: map<int, int>, free: int)

  function Succ(i: nat, m: nat): nat {
    if i + 1 == m then 0 else i + 1
  }

  function Pred(i: nat, m: nat): nat
    requires m > 0
  {
    if i == 0 then m - 1 else i - 1
  }

  ghost predicate Headed(h: Heap, r: seq<int>) {
    forall i | 0 <= i < |r| :: r[i] in h.units && r[i] in h.next
  }

  ghost predicate LinkedAt(h: Heap, r: seq<int>, i: nat)
    requires i < |r|
  {
    r[i] in h.units && r[i] in h.next && h.next[r[i]] == r[Succ(i, |r|)]
  }

  /** Starting from its lowest address the ring ascends through `r` and then wraps, once. */
  ghost predicate Ring(h: Heap, r: seq<int>) {
    && |r| > 0 && h.free in r && Ascending(r)
    && (forall i | 0 <= i < |r| :: LinkedAt(h, r, i))
  }

  ghost function BlocksOf(h: Heap, r: seq<int>): (bs: seq<Block>)
    requires Headed(h, r)
    ensures |bs| == |r| && forall i | 0 <= i < |r| :: bs[i] == Block(r[i], h.units[r[i]])
  {
    seq(|r|, i requires 0 <= i < |r| && Headed(h, r) => Block(r[i], h.units[r[i]]))
  }

  ghost predicate Valid(h: Heap, r: seq<int>) {
    Ring(h, r) && Headed(h, r) && Canonical(BlocksOf(h, r))
  }

  // ---------- the pointer writes ----------

  /** slob_alloc once `cur` fits: unlink it, or split it and link the rest; then slobfree = prev. */
  function Unlink(h: Heap, prev: int, cur: int, n: int): Heap
    requires prev in h.units && cur in h.units && prev in h.next && cur in h.next
  {
    if h.units[cur] == n then h.(next := h.next[prev := h.next[cur]], free := prev)
    else
      var rest := cur + n;
      var next := h.next[prev := rest];
      Heap(h.units[rest := h.units[cur] - n][cur := n], next[rest := next[cur]], prev)
  }

  /** slob_free once the insertion point `cur` is found: link `b` in, merging it on both sides; then slobfree = cur. */
  function LinkIn(h: Heap, cur: int, b: int): Heap
    requires cur in h.units && cur in h.next && b in h.units && h.next[cur] in h.units && h.next[cur] in h.next
  {
    var after := h.next[cur];
    var h1 :=
      if b + h.units[b] == after
      then h.(units := h.units[b := h.units[b] + h.units[after]], next := h.next[b := h.next[after]])
      else h.(next := h.next[b := after]);
    if cur + h1.units[cur] == b
    then Heap(h1.units[cur := h1.units[cur] + h1.units[b]], h1.next[cur := h1.next[b]], cur)
    else h1.(next := h1.next[cur := b], free := cur)
  }

  lemma BlockEnds(h: Heap, r: seq<int>, i: nat, j: nat)
    requires Valid(h, r) && i < j < |r|
    ensures h.units[r[i]] > 0 && h.units[r[j]] > 0 && r[i] + h.units[r[i]] < r[j]
  {
    hide Ring;
    assert BlocksOf(h, r)[i].End() < BlocksOf(h, r)[j].base;
    assert BlocksOf(h, r)[i].len > 0 && BlocksOf(h, r)[j].len > 0;
  }

  lemma UnlinkExactAt(h: Heap, r: seq<int>, i: nat, k: nat)
    requires Ring(h, r) && Headed(h, r) && i < |r| && |r| > 1 && k < |r| - 1
    ensures LinkedAt(Unlink(h, r[Pred(i, |r|)], r[i], h.units[r[i]]), r[..i] + r[i + 1..], k)
  {
    var r' := r[..i] + r[i + 1..];
    var o := if k < i then k else k + 1;
    assert LinkedAt(h, r, i) && LinkedAt(h, r, o);
    assert r'[k] == r[o];
    assert r'[Succ(k, |r'|)] == if o == Pred(i, |r|) then r[Succ(i, |r|)] else r[Succ(o, |r|)];
  }

  lemma UnlinkSplitAt(h: Heap, r: seq<int>, i: nat, n: int, k: nat)
    requires Ring(h, r) && Headed(h, r) && i < |r| && |r| > 1 && k < |r|
    requires 0 < n < h.units[r[i]] && r[i] + n !in r
    ensures LinkedAt(Unlink(h, r[Pred(i, |r|)], r[i], n), r[i := r[i] + n], k)
  {
    assert LinkedAt(h, r, i) && LinkedAt(h, r, k);
  }

  lemma SplitAscends(h: Heap, r: seq<int>, i: nat, n: int)
    requires Valid(h, r) && i < |r| && 0 < n < h.units[r[i]]
    ensures r[i] + n !in r && Ascending(r[i := r[i] + n])
  {
    hide Ring, Canonical;
    assert Ascending(r) by { RingFacts(h, r); }
    forall j | i < j < |r| ensures r[i] + n < r[j] {
      BlockEnds(h, r, i, j);
    }
  }

  lemma RingFacts(h: Heap, r: seq<int>)
    requires Ring(h, r)
    ensures |r| > 0 && Ascending(r) && h.free in r
    ensures forall i | 0 <= i < |r| :: LinkedAt(h, r, i)
  {
  }

  /** The ring after block `i` gave up its first `n` units. */
  function TakeRing(r: seq<int>, i: nat, exact: bool, n: int): seq<int>
    requires i < |r|
  {
    if exact then r[..i] + r[i + 1..] else r[i := r[i] + n]
  }

  lemma UnlinkRing(h: Heap, r: seq<int>, i: nat, n: int)
    requires Valid(h, r) && i < |r| && |r| > 1 && 0 < n <= h.units[r[i]]
    ensures Ring(Unlink(h, r[Pred(i, |r|)], r[i], n), TakeRing(r, i, h.units[r[i]] == n, n))
  {
    hide LinkedAt, Canonical, Unlink;
    var h' := Unlink(h, r[Pred(i, |r|)], r[i], n);
    UnlinkFree(h, r[Pred(i, |r|)], r[i], n);
    if h.units[r[i]] == n {
      var r' := r[..i] + r[i + 1..];
      forall k | 0 <= k < |r'| ensures LinkedAt(h', r', k) {
        UnlinkExactAt(h, r, i, k);
      }
      assert h'.free == r'[Pred(i, |r'|)];
    } else {
      var r' := r[i := r[i] + n];
      SplitAscends(h, r, i, n);
      forall k | 0 <= k < |r'| ensures LinkedAt(h', r', k) {
        UnlinkSplitAt(h, r, i, n, k);
      }
      assert h'.free == r'[Pred(i, |r'|)];
    }
  }

  lemma UnlinkFree(h: Heap, prev: int, cur: int, n: int)
    requires prev in h.units && cur in h.units && prev in h.next && cur in h.next
    ensures Unlink(h, prev, cur, n).free == prev
  {
  }

  lemma HeadedFromRing(h: Heap, r: seq<int>)
    requires Ring(h, r)
    ensures Headed(h, r)
  {
    forall i | 0 <= i < |r| ensures r[i] in h.units && r[i] in h.next {
      assert LinkedAt(h, r, i);
    }
  }

  lemma UnlinkBlocks(h: Heap, r: seq<int>, i: nat, n: int)
    requires Valid(h, r) && i < |r| && 0 < n <= h.units[r[i]]
    requires var h' := Unlink(h, r[Pred(i, |r|)], r[i], n); Headed(h', TakeRing(r, i, h.units[r[i]] == n, n))
    ensures var h' := Unlink(h, r[Pred(i, |r|)], r[i], n);
      BlocksOf(h', TakeRing(r, i, h.units[r[i]] == n, n)) == Take(BlocksOf(h, r), i, n)
  {
    hide LinkedAt, Canonical;
    if h.units[r[i]] != n {
      SplitAscends(h, r, i, n);
    }
  }

  /** Taking memory from a ring of two blocks or more leaves a ring, with that memory gone from its block. */
  lemma UnlinkValid(h: Heap, r: seq<int>, i: nat, n: int)
    requires Valid(h, r) && i < |r| && |r| > 1 && 0 < n <= h.units[r[i]]
    ensures var h' := Unlink(h, r[Pred(i, |r|)], r[i], n);
      var r' := TakeRing(r, i, h.units[r[i]] == n, n);
      Valid(h', r') && BlocksOf(h', r') == Take(BlocksOf(h, r), i, n)
  {
    hide Ring, Canonical, Unlink, Take;
    UnlinkRing(h, r, i, n);
    HeadedFromRing(Unlink(h, r[Pred(i, |r|)], r[i], n), TakeRing(r, i, h.units[r[i]] == n, n));
    UnlinkBlocks(h, r, i, n);
    TakeCanonical(BlocksOf(h, r), i, n);
  }

  // ---------- giving back ----------

  /** `b`, whose header says how long it is, fits between the blocks before `j` and those from `j` on. */
  ghost predicate Gap(h: Heap, r: seq<int>, j: nat, b: int) {
    Headed(h, r) && b in h.units && Between(BlocksOf(h, r), j, Block(b, h.units[b]))
  }

  ghost predicate Low(h: Heap, r: seq<int>, j: nat, b: int)
    requires Gap(h, r, j, b)
  {
    TouchesLow(BlocksOf(h, r), j, Block(b, h.units[b]))
  }

  ghost predicate High(h: Heap, r: seq<int>, j: nat, b: int)
    requires Gap(h, r, j, b)
  {
    TouchesHigh(BlocksOf(h, r), j, Block(b, h.units[b]))
  }

  function GiveRing(r: seq<int>, j: nat, b: int, low: bool, high: bool): seq<int>
    requires j <= |r| && (high ==> j < |r|)
  {
    if low then (if high then r[..j] + r[j + 1..] else r)
    else if high then r[j := b]
    else r[..j] + [b] + r[j..]
  }

  /** The state that slob_free's tests find, and their outcome. */
  ghost predicate Tested(h: Heap, r: seq<int>, j: nat, b: int, low: bool, high: bool) {
    && Ring(h, r) && Headed(h, r) && j <= |r| && b in h.units && b !in r && h.units[b] > 0
    && (var c := Pred(j, |r|);
        && LinkedAt(h, r, c)
        && (high <==> b + h.units[b] == r[Succ(c, |r|)]) && (high ==> j < |r|)
        && (low <==> r[c] + h.units[r[c]] == b) && (low ==> j > 0))
  }

  lemma LinkNoneAt(h: Heap, r: seq<int>, j: nat, b: int, k: nat)
    requires Tested(h, r, j, b, false, false) && k <= |r|
    ensures LinkedAt(LinkIn(h, r[Pred(j, |r|)], b), GiveRing(r, j, b, false, false), k)
  {
    var r' := r[..j] + [b] + r[j..];
    var o := if k < j then k else if k == j then Pred(j, |r|) else k - 1;
    assert LinkedAt(h, r, o);
    assert k != j ==> r'[k] == r[o];
  }

  lemma LinkLowAt(h: Heap, r: seq<int>, j: nat, b: int, k: nat)
    requires Tested(h, r, j, b, true, false) && k < |r|
    ensures LinkedAt(LinkIn(h, r[Pred(j, |r|)], b), r, k)
  {
    assert LinkedAt(h, r, k);
  }

  lemma LinkHighAt(h: Heap, r: seq<int>, j: nat, b: int, k: nat)
    requires Tested(h, r, j, b, false, true) && k < |r| && |r| > 1
    ensures LinkedAt(LinkIn(h, r[Pred(j, |r|)], b), r[j := b], k)
  {
    assert LinkedAt(h, r, k) && LinkedAt(h, r, j);
  }

  lemma LinkBothAt(h: Heap, r: seq<int>, j: nat, b: int, k: nat)
    requires Tested(h, r, j, b, true, true) && k < |r| - 1
    ensures LinkedAt(LinkIn(h, r[Pred(j, |r|)], b), r[..j] + r[j + 1..], k)
  {
    var r' := r[..j] + r[j + 1..];
    var o := if k < j then k else k + 1;
    assert LinkedAt(h, r, o) && LinkedAt(h, r, j);
    assert r'[k] == r[o];
  }

  /** The two tests of slob_free tell exactly whether the neighbours touch. */
  lemma TestsSeeNeighbours(h: Heap, r: seq<int>, j: nat, b: int)
    requires Valid(h, r) && Gap(h, r, j, b)
    ensures Tested(h, r, j, b, Low(h, r, j, b), High(h, r, j, b))
  {
    var bs := BlocksOf(h, r);
    assert LinkedAt(h, r, Pred(j, |r|));
    assert forall i | 0 <= i < |r| :: bs[i].len > 0;
    assert j == 0 ==> Block(b, h.units[b]).End() <= bs[0].base <= r[Pred(j, |r|)];
    assert j == |r| ==> bs[0].End() <= b;
  }

  lemma InsertAscends(r: seq<int>, j: nat, b: int, low: bool, high: bool)
    requires j <= |r| && (high ==> j < |r|) && Ascending(r)
    requires forall i | 0 <= i < |r| :: if i < j then r[i] < b else b < r[i]
    ensures Ascending(GiveRing(r, j, b, low, high))
  {
  }

  lemma GapOrders(h: Heap, r: seq<int>, j: nat, b: int)
    requires Valid(h, r) && Gap(h, r, j, b)
    ensures h.units[b] > 0 && Ascending(r)
    ensures forall i | 0 <= i < |r| :: if i < j then r[i] < b else b < r[i]
  {
    hide Ring;
    RingFacts(h, r);
    var bs := BlocksOf(h, r);
    forall i | 0 <= i < |r| ensures if i < j then r[i] < b else b < r[i] {
      assert bs[i].len > 0;
    }
  }

  lemma LinkInRing(h: Heap, r: seq<int>, j: nat, b: int)
    requires Valid(h, r) && Gap(h, r, j, b) && (|r| > 1 || !High(h, r, j, b))
    ensures Tested(h, r, j, b, Low(h, r, j, b), High(h, r, j, b))
    ensures Ring(LinkIn(h, r[Pred(j, |r|)], b), GiveRing(r, j, b, Low(h, r, j, b), High(h, r, j, b)))
  {
    hide Canonical, LinkIn, LinkedAt, Between, TouchesLow, TouchesHigh, Ascending;
    TestsSeeNeighbours(h, r, j, b);
    GapOrders(h, r, j, b);
    InsertAscends(r, j, b, Low(h, r, j, b), High(h, r, j, b));
    NextKnown(h, r, Pred(j, |r|));
    var low, high := Low(h, r, j, b), High(h, r, j, b);
    var h', r' := LinkIn(h, r[Pred(j, |r|)], b), GiveRing(r, j, b, low, high);
    LinkInFree(h, r[Pred(j, |r|)], b);
    forall k | 0 <= k < |r'| ensures LinkedAt(h', r', k) {
      if low {
        if high { LinkBothAt(h, r, j, b, k); } else { LinkLowAt(h, r, j, b, k); }
      } else {
        if high { LinkHighAt(h, r, j, b, k); } else { LinkNoneAt(h, r, j, b, k); }
      }
    }
    FreeStays(r, j, b, low, high);
  }

  lemma LinkInFree(h: Heap, cur: int, b: int)
    requires cur in h.units && cur in h.next && b in h.units && h.next[cur] in h.units && h.next[cur] in h.next
    ensures LinkIn(h, cur, b).free == cur
  {
  }

  lemma FreeStays(r: seq<int>, j: nat, b: int, low: bool, high: bool)
    requires j <= |r| && (high ==> j < |r|) && |r| > 0 && (|r| > 1 || !high) && (low ==> j > 0)
    ensures r[Pred(j, |r|)] in GiveRing(r, j, b, low, high)
  {
    var c := Pred(j, |r|);
    var r' := GiveRing(r, j, b, low, high);
    if j > 0 {
      assert r'[j - 1] == r[j - 1];
    } else {
      assert r'[|r'| - 1] == r[c];
    }
  }

  lemma NextKnown(h: Heap, r: seq<int>, i: nat)
    requires Ring(h, r) && i < |r|
    ensures r[i] in h.units && r[i] in h.next && h.next[r[i]] in h.units && h.next[r[i]] in h.next
  {
    assert LinkedAt(h, r, i) && LinkedAt(h, r, Succ(i, |r|));
  }

  lemma LinkInUnits(h: Heap, cur: int, b: int, x: int)
    requires cur in h.units && cur in h.next && b in h.units && cur != b
    requires h.next[cur] in h.units && h.next[cur] in h.next && x in h.units
    ensures var h' := LinkIn(h, cur, b);
      var low, high := cur + h.units[cur] == b, b + h.units[b] == h.next[cur];
      var grown := h.units[b] + (if high then h.units[h.next[cur]] else 0);
      && x in h'.units
      && (x == b && !low ==> h'.units[x] == grown)
      && (x == cur && low ==> h'.units[x] == h.units[cur] + grown)
      && (x != b && (x != cur || !low) ==> h'.units[x] == h.units[x])
  {
  }

  function GiveIndex(j: nat, low: bool, high: bool, k: nat): int {
    var at := if low then j - 1 else j;
    if k < at then k else k - at - 1 + (if high then j + 1 else j)
  }

  lemma GiveRingAt(r: seq<int>, j: nat, b: int, low: bool, high: bool, k: nat)
    requires j <= |r| && (high ==> j < |r|) && (low ==> j > 0) && k < |GiveRing(r, j, b, low, high)|
    ensures var at := if low then j - 1 else j;
      if k == at then GiveRing(r, j, b, low, high)[k] == (if low then r[j - 1] else b)
      else 0 <= GiveIndex(j, low, high, k) < |r| && GiveRing(r, j, b, low, high)[k] == r[GiveIndex(j, low, high, k)]
           && (low ==> GiveIndex(j, low, high, k) != j - 1)
  {
  }

  lemma GiveAt(bs: seq<Block>, j: nat, b: Block, k: nat)
    requires j <= |bs| && k < |Give(bs, j, b)|
    ensures var low, high := TouchesLow(bs, j, b), TouchesHigh(bs, j, b);
      var at := if low then j - 1 else j;
      Give(bs, j, b)[k] == (if k == at then Merged(bs, j, b) else
        (assert 0 <= GiveIndex(j, low, high, k) < |bs|; bs[GiveIndex(j, low, high, k)]))
  {
  }

  lemma GiveLengths(bs: seq<Block>, r: seq<int>, j: nat, b: Block)
    requires |bs| == |r| && j <= |bs|
    ensures |Give(bs, j, b)| == |GiveRing(r, j, b.base, TouchesLow(bs, j, b), TouchesHigh(bs, j, b))|
  {
  }

  lemma LinkBlockAt(h: Heap, r: seq<int>, j: nat, b: int, k: nat)
    requires Valid(h, r) && Gap(h, r, j, b) && Tested(h, r, j, b, Low(h, r, j, b), High(h, r, j, b))
    requires k < |GiveRing(r, j, b, Low(h, r, j, b), High(h, r, j, b))|
    requires h.next[r[Pred(j, |r|)]] in h.units && h.next[r[Pred(j, |r|)]] in h.next
    ensures var h', r' := LinkIn(h, r[Pred(j, |r|)], b), GiveRing(r, j, b, Low(h, r, j, b), High(h, r, j, b));
      r'[k] in h'.units && Block(r'[k], h'.units[r'[k]]) == Give(BlocksOf(h, r), j, Block(b, h.units[b]))[k]
  {
    hide LinkIn, Give, GiveRing, Canonical, Ring, Between;
    var low, high := Low(h, r, j, b), High(h, r, j, b);
    GiveRingAt(r, j, b, low, high, k);
    GiveLengths(BlocksOf(h, r), r, j, Block(b, h.units[b]));
    GapOrders(h, r, j, b);
    GiveAt(BlocksOf(h, r), j, Block(b, h.units[b]), k);
    LinkInUnits(h, r[Pred(j, |r|)], b, GiveRing(r, j, b, low, high)[k]);
  }

  /**
    Giving memory back to a ring leaves a ring over the old blocks and the new one, merged
    where they touch: always, except when the ring is a single block that starts where the
    memory given back ends.
   */
  lemma LinkInValid(h: Heap, r: seq<int>, j: nat, b: int)
    requires Valid(h, r) && Gap(h, r, j, b) && (|r| > 1 || !High(h, r, j, b))
    ensures Tested(h, r, j, b, Low(h, r, j, b), High(h, r, j, b))
    ensures var h', r' := LinkIn(h, r[Pred(j, |r|)], b), GiveRing(r, j, b, Low(h, r, j, b), High(h, r, j, b));
      Valid(h', r') && BlocksOf(h', r') == Give(BlocksOf(h, r), j, Block(b, h.units[b]))
  {
    hide Ring, Canonical, LinkIn, Give, GiveRing, Between, Tested;
    LinkInRing(h, r, j, b);
    NextKnownInGap(h, r, j, b);
    var h', r' := LinkIn(h, r[Pred(j, |r|)], b), GiveRing(r, j, b, Low(h, r, j, b), High(h, r, j, b));
    HeadedFromRing(h', r');
    GiveLengths(BlocksOf(h, r), r, j, Block(b, h.units[b]));
    forall k | 0 <= k < |r'| ensures BlocksOf(h', r')[k] == Give(BlocksOf(h, r), j, Block(b, h.units[b]))[k] {
      LinkBlockAt(h, r, j, b, k);
    }
    assert BlocksOf(h', r') == Give(BlocksOf(h, r), j, Block(b, h.units[b]));
    GiveCanonical(BlocksOf(h, r), j, Block(b, h.units[b]));
  }

  lemma NextKnownInGap(h: Heap, r: seq<int>, j: nat, b: int)
    requires Ring(h, r) && Gap(h, r, j, b)
    ensures |r| > 0 && Pred(j, |r|) < |r|
    ensures var cur := r[Pred(j, |r|)];
            cur in h.units && cur in h.next && h.next[cur] in h.units
            && h.next[cur] in h.next
  {
    NextKnown(h, r, Pred(j, |r|));
  }

  // ---------- when the code goes wrong ----------

  /** Some ring in memory holds exactly the blocks `bs`, and slobfree is on it. */
  ghost predicate Holds(h: Heap, bs: seq<Block>) {
    exists r :: Valid(h, r) && BlocksOf(h, r) == bs
  }

  /** Where one block is all there is, slobfree and the block's own link both point at it. */
  lemma LoneBlock(h: Heap, bs: seq<Block>)
    requires Holds(h, bs) && |bs| == 1
    ensures h.free == bs[0].base && bs[0].base in h.next && h.next[bs[0].base] == bs[0].base
  {
    var r :| Valid(h, r) && BlocksOf(h, r) == bs;
    assert LinkedAt(h, r, 0) && r[0] == bs[0].base;
  }

  lemma NoBlocks(h: Heap)
    ensures !Holds(h, [])
  {
  }

  /** slob_alloc leaves its free ring intact exactly when the block taken from was not alone on it. */
  lemma UnlinkNeedsCompany(h: Heap, r: seq<int>, i: nat, n: int)
    requires Valid(h, r) && i < |r| && 0 < n <= h.units[r[i]]
    ensures Holds(Unlink(h, r[Pred(i, |r|)], r[i], n), Take(BlocksOf(h, r), i, n)) <==> |r| > 1
  {
    var h' := Unlink(h, r[Pred(i, |r|)], r[i], n);
    var bs' := Take(BlocksOf(h, r), i, n);
    if |r| > 1 {
      UnlinkValid(h, r, i, n);
    } else {
      UnlinkFree(h, r[0], r[0], n);
      NoBlocks(h');
      if Holds(h', bs') && |bs'| == 1 {
        LoneBlock(h', bs');
      }
    }
  }

  /** The ring that slob_alloc leaves, if it leaves one. */
  lemma UnlinkedRing(h: Heap, r: seq<int>, i: nat, n: int) returns (r': seq<int>)
    requires Valid(h, r) && i < |r| && 0 < n <= h.units[r[i]]
    ensures var h', bs' := Unlink(h, r[Pred(i, |r|)], r[i], n), Take(BlocksOf(h, r), i, n);
            if |r| > 1 then Valid(h', r') && BlocksOf(h', r') == bs' else !Holds(h', bs')
  {
    hide Ring, Canonical, Unlink, Take;
    UnlinkNeedsCompany(h, r, i, n);
    r' := r;
    if |r| > 1 {
      UnlinkValid(h, r, i, n);
      r' := TakeRing(r, i, h.units[r[i]] == n, n);
    }
  }

  lemma LinkInBelowLone(h: Heap, r: seq<int>, b: int)
    requires Valid(h, r) && |r| == 1 && Gap(h, r, 0, b) && High(h, r, 0, b)
    ensures LinkedAt(h, r, 0)
    ensures LinkIn(h, r[0], b).next[b] == r[0] > b
    ensures var bs := Give(BlocksOf(h, r), 0, Block(b, h.units[b])); |bs| == 1 && bs[0].base == b
  {
    TestsSeeNeighbours(h, r, 0, b);
  }

  /** slob_free links a block in exactly when it does not end where the only free block starts. */
  lemma LinkInNeedsCompany(h: Heap, r: seq<int>, j: nat, b: int)
    requires Valid(h, r) && Gap(h, r, j, b)
    ensures |r| > 0 && Tested(h, r, j, b, Low(h, r, j, b), High(h, r, j, b))
    ensures Holds(LinkIn(h, r[Pred(j, |r|)], b), Give(BlocksOf(h, r), j, Block(b, h.units[b])))
      <==> |r| > 1 || !High(h, r, j, b)
  {
    hide Ring, Canonical, LinkIn, Give, Between;
    RingFacts(h, r);
    TestsSeeNeighbours(h, r, j, b);
    if |r| > 1 || !High(h, r, j, b) {
      LinkInValid(h, r, j, b);
    } else {
      LinkInBelowLone(h, r, b);
      var h', bs' := LinkIn(h, r[0], b), Give(BlocksOf(h, r), 0, Block(b, h.units[b]));
      if Holds(h', bs') {
        LoneBlock(h', bs');
      }
    }
  }

  /** The ring that slob_free leaves, if it leaves one. */
  lemma LinkedRing(h: Heap, r: seq<int>, j: nat, b: int) returns (r': seq<int>)
    requires Valid(h, r) && Gap(h, r, j, b)
    ensures |r| > 0 && Tested(h, r, j, b, Low(h, r, j, b), High(h, r, j, b))
    ensures var h', bs' := LinkIn(h, r[Pred(j, |r|)], b), Give(BlocksOf(h, r), j, Block(b, h.units[b]));
            if |r| > 1 || !High(h, r, j, b) then Valid(h', r') && BlocksOf(h', r') == bs' else !Holds(h', bs')
  {
    hide Ring, Canonical, LinkIn, Give, Between, Low, High;
    LinkInNeedsCompany(h, r, j, b);
    r' := r;
    if |r| > 1 || !High(h, r, j, b) {
      LinkInValid(h, r, j, b);
      r' := GiveRing(r, j, b, Low(h, r, j, b), High(h, r, j, b));
    }
  }

  /** The rest of a page alone on the ring, as after a kmalloc(0) that took the arena, and a block of eight units
    * just below it.
    */
  function BelowLone(): Heap {
    Heap(map[16 := 4, 8 := 8], map[16 := 16, 8 := 0], 16)
  }

  /** Giving that block back merges the two and puts the sum on the ring beside the old block, which it contains. */
  lemma LinkInOverlaps()
    ensures var h, h' := BelowLone(), LinkIn(BelowLone(), 16, 8);
            && Valid(h, [16]) && Gap(h, [16], 0, 8)
            && h'.free == 16 && h'.next[16] == 8 && h'.next[8] == 16
            && Block(8, h'.units[8]).Has(16) && h'.units[16] == 4
            && !Holds(h', Give(BlocksOf(h, [16]), 0, Block(8, 8)))
  {
    var h := BelowLone();
    assert LinkedAt(h, [16], 0);
    assert BlocksOf(h, [16])[0] == Block(16, 4);
    LinkInNeedsCompany(h, [16], 0, 8);
  }

  /** Before the first page is obtained the ring is the static arena, one unit long. */
  function Boot(arena: int): Heap {
    Heap(map[arena := 1], map[arena := arena], arena)
  }

  lemma BootValid(arena: int)
    ensures Valid(Boot(arena), [arena])
  {
    assert LinkedAt(Boot(arena), [arena], 0);
  }

  /** kmalloc(0) asks for the one unit of the header, gets the arena, and leaves it on the ring for the next caller. */
  lemma ArenaHandedOutTwice(arena: int)
    ensures Unlink(Boot(arena), arena, arena, 1) == Boot(arena)
    ensures !Holds(Unlink(Boot(arena), arena, arena, 1), [])
  {
    NoBlocks(Boot(arena));
  }
}
