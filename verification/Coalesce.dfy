/**
  The merging loop of default_free_pages (lab3/kern/mm/default_pmm.c).  The loop passes
  every free run once; `i` counts the runs passed.  By then the freed block has been merged
  with those of its neighbours that were passed, and they have left the list.
 */
module Coalesce {
  import opened FreeRuns
  import opened FrameList

  /** The freed block after `i` runs were passed. */
  ghost function Stage(bs: seq<Block>, j: nat, b: Block, i: nat): Block
    requires j <= |bs|
  {
    var low := if TouchesLow(bs, j, b) && i >= j then bs[j - 1].len else 0;
    var high := if TouchesHigh(bs, j, b) && i > j then bs[j].len else 0;
    Block(b.base - low, low + b.len + high)
  }

  /** What the two tests of the loop find when run `i` is looked at. */
  lemma StageTests(bs: seq<Block>, j: nat, b: Block, i: nat)
    requires Canonical(bs) && Between(bs, j, b) && i < |bs|
    ensures Stage(bs, j, b, i).End() == bs[i].base <==> i == j && TouchesHigh(bs, j, b)
    ensures bs[i].End() == Stage(bs, j, b, i).base <==> i == j - 1 && TouchesLow(bs, j, b)
  {
    assert bs[i].len > 0;
    if i < j {
      assert i < j - 1 ==> bs[i].End() < bs[j - 1].base;
      assert bs[i].End() <= b.base;
    } else {
      assert b.End() <= bs[i].base;
      assert i > j ==> bs[j].End() < bs[i].base;
    }
  }

  /** When all runs are passed the block is merged with both neighbours. */
  lemma StageEnd(bs: seq<Block>, j: nat, b: Block)
    requires j <= |bs|
    ensures Stage(bs, j, b, |bs|) == Merged(bs, j, b)
  {
  }

  /** The list without the neighbours that were passed and merged. */
  ghost function StageList(list: seq<nat>, j: nat, low: bool, high: bool, i: nat): seq<nat>
    requires j <= |list| && (low ==> j > 0) && (high ==> j < |list|)
  {
    list[..if low && i >= j then j - 1 else j] + list[if high && i > j then j + 1 else j..]
  }

  /** Where run `i` is in the list when it is looked at. */
  function Pos(j: nat, low: bool, high: bool, i: nat): int {
    i - (if low && i >= j then 1 else 0) - (if high && i > j then 1 else 0)
  }

  lemma StageAt(list: seq<nat>, j: nat, low: bool, high: bool, i: nat, n: nat)
    requires j <= |list| && (low ==> j > 0) && (high ==> j < |list|) && i < |list|
    ensures var l, p := StageList(list, j, low, high, i), Pos(j, low, high, i);
      0 <= p < |l| && l[p] == list[i] && At(l, p + 1, n) == At(list, i + 1, n)
  {
  }

  lemma StageStep(list: seq<nat>, j: nat, low: bool, high: bool, i: nat)
    requires j <= |list| && (low ==> j > 0) && (high ==> j < |list|) && i < |list|
    ensures var l, p := StageList(list, j, low, high, i), Pos(j, low, high, i);
      && 0 <= p < |l|
      && StageList(list, j, low, high, i + 1) ==
           if (low && i == j - 1) || (high && i == j) then l[..p] + l[p + 1..] else l
  {
  }

  /** The descriptors after `i` runs were passed: one run has grown, and PG_property marks it and what is in the
    * list.
    */
  ghost predicate StageData(ps0: seq<Page>, ps: seq<Page>, list: seq<nat>, cur: Block) {
    && |ps| == |ps0|
    && forall x | 0 <= x < |ps| - 1 ::
         && ps[x].run == (if x == cur.base then cur.len else ps0[x].run)
         && ps[x].property == (x == cur.base || x in list)
         && ps[x].ref == ps0[x].ref && ps[x].reserved == ps0[x].reserved
  }

  lemma DropOne(list: seq<nat>, p: nat)
    requires Ascending(list) && p < |list|
    ensures forall x :: x in list[..p] + list[p + 1..] <==> x in list && x != list[p]
  {
    var l := list[..p] + list[p + 1..];
    forall x | x in list && x != list[p] ensures x in l {
      var i :| 0 <= i < |list| && list[i] == x;
      assert l[if i < p then i else i - 1] == x;
    }
  }

  lemma StageNext(bs: seq<Block>, j: nat, b: Block, i: nat)
    requires j <= |bs| && i < |bs|
    ensures Stage(bs, j, b, i + 1) ==
      if i == j && TouchesHigh(bs, j, b) then Block(Stage(bs, j, b, i).base, Stage(bs, j, b, i).len + bs[i].len)
      else if i == j - 1 && TouchesLow(bs, j, b) then Block(bs[i].base, Stage(bs, j, b, i).len + bs[i].len)
      else Stage(bs, j, b, i)
  {
  }

  lemma StageSub(list: seq<nat>, j: nat, low: bool, high: bool, i: nat, x: nat)
    requires j <= |list| && (low ==> j > 0) && (high ==> j < |list|) && x !in list
    ensures x !in StageList(list, j, low, high, i)
  {
  }

  lemma StageOff(bs: seq<Block>, j: nat, b: Block, i: nat)
    requires Canonical(bs) && Between(bs, j, b) && i < |bs|
    ensures Stage(bs, j, b, i).base != bs[i].base
    ensures i == j - 1 ==> Stage(bs, j, b, i) == b
  {
    assert bs[i].len > 0;
    assert i >= j > 0 ==> bs[j - 1].End() < bs[i].base && bs[j - 1].len > 0;
  }

  lemma HighData(ps0: seq<Page>, ps: seq<Page>, ps': seq<Page>, list: seq<nat>, k: nat, cur: Block, len: nat)
    requires StageData(ps0, ps, list, cur) && Ascending(list) && k < |list| && 0 <= cur.base < |ps| - 1
    requires list[k] != cur.base && list[k] < |ps| - 1 && cur.len >= 0
    requires SameData(ps[cur.base := ps[cur.base].(run := ps[cur.base].run + len)]
                        [list[k] := ps[list[k]].(property := false)], ps')
    ensures StageData(ps0, ps', list[..k] + list[k + 1..], Block(cur.base, cur.len + len))
  {
    DropOne(list, k);
  }

  lemma LowData(ps0: seq<Page>, ps: seq<Page>, ps': seq<Page>, list: seq<nat>, k: nat, cur: Block, len: nat)
    requires StageData(ps0, ps, list, cur) && Ascending(list) && k < |list| && 0 <= cur.base < |ps| - 1
    requires list[k] != cur.base && list[k] < |ps| - 1 && cur.base !in list && ps0[cur.base].run == cur.len
      && ps[list[k]].run == len
    requires SameData(ps[list[k] := ps[list[k]].(run := ps[cur.base].run + len)]
                        [cur.base := ps[cur.base].(property := false)], ps')
    ensures StageData(ps0, ps', list[..k] + list[k + 1..], Block(list[k], cur.len + len))
  {
    DropOne(list, k);
  }
}
