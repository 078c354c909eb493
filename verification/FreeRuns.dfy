/**
  Free memory as an address-ordered list of blocks in which no two touch.  Such a list is
  determined by the set of free units, whatever order of operations led to it.
 */
module FreeRuns {
  datatype Block = Block(base: int, len: int) {
    function End(): int {
      base + len
    }

    predicate Has(u: int) {
      base <= u < base + len
    }
  }

  ghost predicate Ascending(list: seq<int>) {
    forall i, j | 0 <= i < j < |list| :: list[i] < list[j]
  }

  ghost predicate Canonical(bs: seq<Block>) {
    && (forall i | 0 <= i < |bs| :: bs[i].len > 0)
    && (forall i, j | 0 <= i < j < |bs| :: bs[i].End() < bs[j].base)
  }

  ghost predicate Covers(bs: seq<Block>, u: int) {
    exists i | 0 <= i < |bs| :: bs[i].Has(u)
  }

  ghost predicate SameCover(a: seq<Block>, b: seq<Block>) {
    forall u :: Covers(a, u) <==> Covers(b, u)
  }

  lemma CoversConcat(a: seq<Block>, b: seq<Block>, u: int)
    ensures Covers(a + b, u) <==> Covers(a, u) || Covers(b, u)
  {
    if i :| 0 <= i < |a + b| && (a + b)[i].Has(u) {
      assert if i < |a| then a[i].Has(u) else b[i - |a|].Has(u);
    }
    if i :| 0 <= i < |a| && a[i].Has(u) {
      assert (a + b)[i].Has(u);
    }
    if i :| 0 <= i < |b| && b[i].Has(u) {
      assert (a + b)[|a| + i].Has(u);
    }
  }

  lemma CoversOne(b: Block, u: int)
    ensures Covers([b], u) <==> b.Has(u)
  {
    if b.Has(u) {
      assert [b][0].Has(u);
    }
  }

  /** All of `a` ends before `x`. */
  ghost predicate Below(a: seq<Block>, x: int) {
    forall i | 0 <= i < |a| :: a[i].End() < x
  }

  /** All of `a` starts after `x`. */
  ghost predicate Above(a: seq<Block>, x: int) {
    forall i | 0 <= i < |a| :: x < a[i].base
  }

  lemma CanonicalAround(a: seq<Block>, m: Block, c: seq<Block>)
    ensures Canonical(a + [m] + c)
      <==> Canonical(a) && Canonical(c) && m.len > 0 && Below(a, m.base) && Above(c, m.End())
  {
    var bs := a + [m] + c;
    if Canonical(bs) {
      assert forall i | 0 <= i < |a| :: a[i] == bs[i];
      assert forall i | 0 <= i < |c| :: c[i] == bs[|a| + 1 + i];
      assert m == bs[|a|];
    }
  }

  lemma CoversTail(bs: seq<Block>, u: int)
    requires bs != []
    ensures Covers(bs, u) <==> bs[0].Has(u) || Covers(bs[1..], u)
  {
    if Covers(bs[1..], u) {
      var i :| 0 <= i < |bs[1..]| && bs[1..][i].Has(u);
      assert bs[i + 1].Has(u);
    }
    if Covers(bs, u) && !bs[0].Has(u) {
      var i :| 0 <= i < |bs| && bs[i].Has(u);
      assert bs[1..][i - 1].Has(u);
    }
  }

  /** The first block of a canonical list starts at the least covered unit and ends at a gap. */
  lemma FirstBlock(bs: seq<Block>)
    requires Canonical(bs) && bs != []
    ensures Covers(bs, bs[0].base) && Covers(bs, bs[0].End() - 1) && !Covers(bs, bs[0].End())
    ensures forall u | u < bs[0].base :: !Covers(bs, u)
    ensures forall u | bs[0].Has(u) :: Covers(bs, u) && !Covers(bs[1..], u)
  {
    assert bs[0].Has(bs[0].base) && bs[0].Has(bs[0].End() - 1);
  }

  /** Two canonical lists over the same units are the same list. */
  lemma {:induction false} CanonicalUnique(a: seq<Block>, b: seq<Block>)
    requires Canonical(a) && Canonical(b) && SameCover(a, b)
    ensures a == b
  {
    if a == [] || b == [] {
      if a != [] { FirstBlock(a); }
      if b != [] { FirstBlock(b); }
    } else {
      FirstBlock(a);
      FirstBlock(b);
      assert a[0].base == b[0].base;
      var _, _ := a[0].Has(b[0].End()), b[0].Has(a[0].End());
      forall u ensures Covers(a[1..], u) <==> Covers(b[1..], u) {
        CoversTail(a, u);
        CoversTail(b, u);
      }
      CanonicalUnique(a[1..], b[1..]);
      assert a == [a[0]] + a[1..] && b == [b[0]] + b[1..];
    }
  }

  function Total(bs: seq<Block>): int {
    if bs == [] then 0 else Total(bs[..|bs| - 1]) + bs[|bs| - 1].len
  }

  lemma {:induction false} TotalAppend(a: seq<Block>, b: seq<Block>)
    ensures Total(a + b) == Total(a) + Total(b)
  {
    if b == [] {
      assert a + b == a;
    } else {
      TotalAppend(a, b[..|b| - 1]);
      assert (a + b)[..|a + b| - 1] == a + b[..|b| - 1];
    }
  }

  // ---------- taking and giving back ----------

  /** Block `i` gives up its first `n` units. */
  function Take(bs: seq<Block>, i: nat, n: int): seq<Block>
    requires i < |bs|
  {
    var rest := if bs[i].len == n then [] else [Block(bs[i].base + n, bs[i].len - n)];
    bs[..i] + rest + bs[i + 1..]
  }

  lemma Around(bs: seq<Block>, i: nat)
    requires i < |bs|
    ensures bs == bs[..i] + [bs[i]] + bs[i + 1..]
  {
  }

  lemma Untouched(a: seq<Block>, x: int, u: int)
    ensures Below(a, x) && u >= x ==> !Covers(a, u)
    ensures Above(a, x) && u <= x ==> !Covers(a, u)
  {
  }

  lemma TakeCanonical(bs: seq<Block>, i: nat, n: int)
    requires Canonical(bs) && i < |bs| && 0 < n <= bs[i].len
    ensures Canonical(Take(bs, i, n))
  {
  }

  lemma TakeCovers(bs: seq<Block>, i: nat, n: int, u: int)
    requires Canonical(bs) && i < |bs| && 0 < n <= bs[i].len
    ensures Covers(Take(bs, i, n), u) <==> Covers(bs, u) && !Block(bs[i].base, n).Has(u)
  {
    hide Canonical, Covers;
    var a, m, c := bs[..i], bs[i], bs[i + 1..];
    Around(bs, i);
    CanonicalAround(a, m, c);
    CoversConcat(a + [m], c, u);
    CoversConcat(a, [m], u);
    CoversOne(m, u);
    Untouched(a, m.base, u);
    Untouched(c, m.End(), u);
    if m.len == n {
      assert a + [] == a;
      CoversConcat(a, c, u);
    } else {
      var rest := Block(m.base + n, m.len - n);
      CoversConcat(a + [rest], c, u);
      CoversConcat(a, [rest], u);
      CoversOne(rest, u);
    }
  }

  /** `b` lies between the blocks before `j` and those from `j` on. */
  ghost predicate Between(bs: seq<Block>, j: nat, b: Block) {
    && j <= |bs| && b.len > 0
    && (forall i | 0 <= i < j :: bs[i].End() <= b.base)
    && (forall i | j <= i < |bs| :: b.End() <= bs[i].base)
  }

  predicate TouchesLow(bs: seq<Block>, j: nat, b: Block)
    requires j <= |bs|
  {
    j > 0 && bs[j - 1].End() == b.base
  }

  predicate TouchesHigh(bs: seq<Block>, j: nat, b: Block)
    requires j <= |bs|
  {
    j < |bs| && b.End() == bs[j].base
  }

  /** `b` with the neighbours that it touches. */
  function Merged(bs: seq<Block>, j: nat, b: Block): Block
    requires j <= |bs|
  {
    var low := if TouchesLow(bs, j, b) then bs[j - 1].len else 0;
    var high := if TouchesHigh(bs, j, b) then bs[j].len else 0;
    Block(b.base - low, low + b.len + high)
  }

  /** `b` joins the list at `j`, merged with the neighbours that it touches. */
  function Give(bs: seq<Block>, j: nat, b: Block): seq<Block>
    requires j <= |bs|
  {
    bs[..if TouchesLow(bs, j, b) then j - 1 else j] + [Merged(bs, j, b)]
      + bs[if TouchesHigh(bs, j, b) then j + 1 else j..]
  }

  lemma SliceCanonical(bs: seq<Block>, i: nat, j: nat)
    requires Canonical(bs) && i <= j <= |bs|
    ensures Canonical(bs[i..j])
  {
  }

  lemma GiveGaps(bs: seq<Block>, j: nat, b: Block)
    requires Canonical(bs) && Between(bs, j, b)
    ensures Below(bs[..if TouchesLow(bs, j, b) then j - 1 else j], Merged(bs, j, b).base)
    ensures Above(bs[if TouchesHigh(bs, j, b) then j + 1 else j..], Merged(bs, j, b).End())
    ensures TouchesLow(bs, j, b) ==> bs[j - 1].len > 0
    ensures TouchesHigh(bs, j, b) ==> bs[j].len > 0
  {
    if !TouchesLow(bs, j, b) && j > 0 {
      assert bs[j - 1].End() < b.base;
    }
    if !TouchesHigh(bs, j, b) && j < |bs| {
      assert b.End() < bs[j].base;
    }
  }

  lemma GiveCanonical(bs: seq<Block>, j: nat, b: Block)
    requires Canonical(bs) && Between(bs, j, b)
    ensures Canonical(Give(bs, j, b))
  {
    hide Canonical, Below, Above;
    GiveGaps(bs, j, b);
    var k, l := if TouchesLow(bs, j, b) then j - 1 else j, if TouchesHigh(bs, j, b) then j + 1 else j;
    SliceCanonical(bs, 0, k);
    SliceCanonical(bs, l, |bs|);
    assert bs[0..k] == bs[..k] && bs[l..|bs|] == bs[l..];
    CanonicalAround(bs[..k], Merged(bs, j, b), bs[l..]);
  }

  lemma CoversNone(u: int)
    ensures !Covers([], u)
  {
  }

  lemma GiveCovers(bs: seq<Block>, j: nat, b: Block, u: int)
    requires Canonical(bs) && Between(bs, j, b)
    ensures Covers(Give(bs, j, b), u) <==> Covers(bs, u) || b.Has(u)
  {
    hide Canonical, Covers;
    GiveGaps(bs, j, b);
    var low, high := TouchesLow(bs, j, b), TouchesHigh(bs, j, b);
    var lo, hi := if low then [bs[j - 1]] else [], if high then [bs[j]] else [];
    var m := Merged(bs, j, b);
    var a, c := bs[..if low then j - 1 else j], bs[if high then j + 1 else j..];
    assert bs == a + lo + hi + c;
    CoversConcat(a + lo + hi, c, u);
    CoversConcat(a + lo, hi, u);
    CoversConcat(a, lo, u);
    CoversConcat(a + [m], c, u);
    CoversConcat(a, [m], u);
    CoversOne(m, u);
    CoversNone(u);
    if low { CoversOne(bs[j - 1], u); }
    if high { CoversOne(bs[j], u); }
  }

  /** `b` shares no unit with the list. */
  ghost predicate Apart(bs: seq<Block>, b: Block) {
    forall u | b.Has(u) :: !Covers(bs, u)
  }

  lemma FindGap(bs: seq<Block>, b: Block) returns (j: nat)
    requires Canonical(bs) && b.len > 0 && Apart(bs, b)
    ensures Between(bs, j, b)
  {
    j := |bs|;
    while j > 0 && bs[j - 1].base >= b.base
      invariant j <= |bs|
      invariant forall i | j <= i < |bs| :: bs[i].base >= b.base
    {
      j := j - 1;
    }
    forall i | 0 <= i < |bs|
      ensures if i < j then bs[i].End() <= b.base else b.End() <= bs[i].base
    {
      assert bs[i].Has(bs[i].base) && bs[i].base <= bs[if i < j then j - 1 else i].base;
      if i < j && bs[i].End() > b.base {
        assert bs[i].Has(b.base) && b.Has(b.base);
      }
      if i >= j && b.End() > bs[i].base {
        assert b.Has(bs[i].base);
      }
    }
  }

  /** A block that `b` does not touch is still there after `b` is given. */
  lemma GiveKeeps(bs: seq<Block>, j: nat, b: Block, i: nat)
    requires j <= |bs| && i < |bs| && bs[i].End() != b.base && b.End() != bs[i].base
    ensures bs[i] in Give(bs, j, b)
  {
    var low, high := TouchesLow(bs, j, b), TouchesHigh(bs, j, b);
    var a, c := if low then j - 1 else j, if high then j + 1 else j;
    assert bs[i] == Give(bs, j, b)[if i < a then i else i - c + a + 1];
  }

  /** Once given, `b` lies in one block of the list. */
  lemma GiveHolds(bs: seq<Block>, j: nat, b: Block) returns (k: nat)
    requires Canonical(bs) && Between(bs, j, b)
    ensures k < |Give(bs, j, b)| && Give(bs, j, b)[k].len >= b.len
  {
    k := if TouchesLow(bs, j, b) then j - 1 else j;
    GiveGaps(bs, j, b);
  }

  // ---------- with the blocks in use ----------

  /** The free list beside the blocks in use: `live` maps the first unit of each to its length, and
    * `obtained` is all memory there is so far.
    */
  datatype View = View(free: seq<Block>, live: map<int, int>, obtained: set<int>)

  ghost predicate InLive(live: map<int, int>, u: int) {
    exists a | a in live :: Block(a, live[a]).Has(u)
  }

  ghost predicate LiveApart(live: map<int, int>) {
    forall a, b, u | a in live && b in live && Block(a, live[a]).Has(u) && Block(b, live[b]).Has(u) :: a == b
  }

  /** Every unit obtained is either free or in exactly one block in use. */
  ghost predicate Partition(v: View) {
    && Canonical(v.free)
    && (forall u :: u in v.obtained <==> Covers(v.free, u) || InLive(v.live, u))
    && (forall u :: !(Covers(v.free, u) && InLive(v.live, u)))
    && LiveApart(v.live)
    && (forall a | a in v.live :: v.live[a] > 0)
  }

  lemma LiveHeader(live: map<int, int>, a: int)
    requires a in live && live[a] > 0
    ensures InLive(live, a)
  {
    assert Block(a, live[a]).Has(a);
  }

  lemma TakePartition(v: View, i: nat, n: int)
    requires Partition(v) && i < |v.free| && 0 < n <= v.free[i].len
    ensures v.free[i].base !in v.live
    ensures Partition(View(Take(v.free, i, n), v.live[v.free[i].base := n], v.obtained))
  {
    var a := v.free[i].base;
    var live := v.live[a := n];
    TakeCanonical(v.free, i, n);
    assert v.free[i].Has(a) && Covers(v.free, a);
    if a in v.live {
      LiveHeader(v.live, a);
    }
    forall u
      ensures Covers(Take(v.free, i, n), u) <==> Covers(v.free, u) && !Block(a, n).Has(u)
      ensures InLive(live, u) <==> InLive(v.live, u) || Block(a, n).Has(u)
      ensures Block(a, n).Has(u) ==> Covers(v.free, u)
    {
      TakeCovers(v.free, i, n, u);
      LiveAdd(v.live, a, n, u);
      if Block(a, n).Has(u) {
        assert v.free[i].Has(u);
      }
    }
  }

  lemma LiveAdd(live: map<int, int>, a: int, n: int, u: int)
    requires a !in live
    ensures InLive(live[a := n], u) <==> InLive(live, u) || Block(a, n).Has(u)
  {
    var live' := live[a := n];
    if InLive(live, u) {
      var b :| b in live && Block(b, live[b]).Has(u);
      assert b in live' && Block(b, live'[b]).Has(u);
    }
    if Block(a, n).Has(u) {
      assert a in live' && Block(a, live'[a]).Has(u);
    }
  }

  lemma GivePartition(v: View, a: int, j: nat)
    requires Partition(v) && a in v.live && Between(v.free, j, Block(a, v.live[a]))
    ensures Partition(View(Give(v.free, j, Block(a, v.live[a])), v.live - {a}, v.obtained))
  {
    var b := Block(a, v.live[a]);
    GiveCanonical(v.free, j, b);
    forall u
      ensures Covers(Give(v.free, j, b), u) <==> Covers(v.free, u) || b.Has(u)
      ensures InLive(v.live - {a}, u) <==> InLive(v.live, u) && !b.Has(u)
    {
      GiveCovers(v.free, j, b, u);
      if InLive(v.live, u) && !b.Has(u) {
        var c :| c in v.live && Block(c, v.live[c]).Has(u);
        assert c in v.live - {a};
      }
    }
  }

  lemma LiveIsApart(v: View, a: int)
    requires Partition(v) && a in v.live
    ensures Apart(v.free, Block(a, v.live[a]))
  {
    forall u | Block(a, v.live[a]).Has(u) ensures !Covers(v.free, u) {
      assert InLive(v.live, u);
    }
  }
}
