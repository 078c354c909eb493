/**
  The pointer code of lab6/libs/skew_heap.h.  An entry holds three pointers; the
  comparator gets the two entries and stands for the keys of the structures around
  them, which do not change while the entries are in a heap.
 */
module SkewHeapEntries {
  import opened SkewHeap

  class Entry {
    var parent: Entry?
    var left: Entry?
    var right: Entry?

    constructor ()
      ensures parent == left == right == null
    {
      parent, left, right := null, null, null;
    }
  }

  ghost function Nodes(t: Tree<Entry>): set<Entry> {
    match t
    case Leaf => {}
    case Branch(e, l, r) => {e} + Nodes(l) + Nodes(r)
  }

  /** No entry sits at two nodes of the tree. */
  ghost predicate Distinct(t: Tree<Entry>) {
    match t
    case Leaf => true
    case Branch(e, l, r) =>
      && e !in Nodes(l) && e !in Nodes(r) && Nodes(l) !! Nodes(r)
      && Distinct(l) && Distinct(r)
  }

  /** Below `e` the pointers are exactly those of `t`, and each child points back to its parent. */
  ghost predicate Linked(e: Entry?, t: Tree<Entry>)
    reads Nodes(t)
  {
    match t
    case Leaf => e == null
    case Branch(x, l, r) =>
      && e == x
      && Linked(x.left, l) && Linked(x.right, r)
      && (l.Branch? ==> l.root.parent == x)
      && (r.Branch? ==> r.root.parent == x)
  }

  /** `e` is the root of a heap shaped like `t`: a root has no parent. */
  ghost predicate IsHeap(e: Entry?, t: Tree<Entry>)
    reads Nodes(t)
  {
    Linked(e, t) && Distinct(t) && (t.Branch? ==> t.root.parent == null)
  }

  lemma {:induction false} MergeNodes(a: Tree<Entry>, b: Tree<Entry>, comp: (Entry, Entry) -> int)
    requires Distinct(a) && Distinct(b) && Nodes(a) !! Nodes(b)
    ensures Nodes(Merge(a, b, comp)) == Nodes(a) + Nodes(b) && Distinct(Merge(a, b, comp))
    decreases a, b
  {
    if a.Leaf? || b.Leaf? {
    } else if comp(a.root, b.root) == -1 {
      MergeNodes(a.right, b, comp);
    } else {
      MergeNodes(a, b.right, comp);
    }
  }

  lemma {:induction false} HasIsNode(t: Tree<Entry>, x: Entry)
    ensures Has(t, x) <==> x in Nodes(t)
  {
    if t.Branch? {
      HasIsNode(t.left, x);
      HasIsNode(t.right, x);
    }
  }

  lemma {:induction false} RemoveNodes(t: Tree<Entry>, x: Entry, comp: (Entry, Entry) -> int)
    requires Distinct(t) && x in Nodes(t)
    ensures Nodes(Remove(t, x, comp)) == Nodes(t) - {x} && Distinct(Remove(t, x, comp))
  {
    HasIsNode(t.left, x);
    if t.root == x {
      MergeNodes(t.left, t.right, comp);
    } else if x in Nodes(t.left) {
      RemoveNodes(t.left, x, comp);
    } else {
      RemoveNodes(t.right, x, comp);
    }
  }

  /** The subtree of `t` at the entry `x`. */
  ghost function At(t: Tree<Entry>, x: Entry): (s: Tree<Entry>)
    requires x in Nodes(t)
    ensures s.Branch? && s.root == x && Nodes(s) <= Nodes(t)
  {
    if t.root == x then t
    else if x in Nodes(t.left) then At(t.left, x)
    else At(t.right, x)
  }

  lemma {:induction false} NodesAllocated(t: Tree<Entry>)
    ensures forall n | n in Nodes(t) :: allocated(n)
  {
    if t.Branch? {
      NodesAllocated(t.left);
      NodesAllocated(t.right);
    }
  }

  lemma {:induction false} AtCalls(t: Tree<Entry>, x: Entry, comp: (Entry, Entry) -> int)
    requires Distinct(t) && x in Nodes(t)
    ensures RemoveCalls(t, x, comp) == Calls(At(t, x).left, At(t, x).right, comp)
  {
    HasIsNode(t.left, x);
    if t.root != x {
      AtCalls(if x in Nodes(t.left) then t.left else t.right, x, comp);
    }
  }

  /** The common tail of both branches of the merge: `x` gets `l` and `r` as its children. */
  method Adopt(x: Entry, l: Entry?, r: Entry?, ghost tl: Tree<Entry>, ghost tr: Tree<Entry>)
    requires Linked(l, tl) && Distinct(tl) && Linked(r, tr) && (r != null ==> r.parent == x)
    requires x !in Nodes(tl) && x !in Nodes(tr) && Nodes(tl) !! Nodes(tr)
    modifies x`left, x`right, Nodes(tl)`parent
    ensures Linked(x, Branch(x, tl, tr))
  {
    if l != null {
      assert Linked(l.left, tl.left) && Linked(l.right, tl.right);
    }
    x.left := l;
    x.right := r;
    if l != null {
      l.parent := x;
      assert Linked(l.left, tl.left) && Linked(l.right, tl.right);
    }
  }

  method SkewHeapMerge(a: Entry?, b: Entry?, comp: (Entry, Entry) -> int, ghost ta: Tree<Entry>, ghost tb: Tree<Entry>)
    returns (h: Entry?, ghost calls: nat)
    requires Linked(a, ta) && Distinct(ta) && Linked(b, tb) && Distinct(tb) && Nodes(ta) !! Nodes(tb)
    modifies Nodes(ta) + Nodes(tb)
    ensures Linked(h, Merge(ta, tb, comp))
    ensures h != null ==> h.parent == old(h.parent)
    ensures calls == Calls(ta, tb, comp)
    decreases ta, tb
  {
    if a == null {
      return b, 1;
    } else if b == null {
      return a, 1;
    }
    if comp(a, b) == -1 {
      var r := a.left;
      MergeNodes(ta.right, tb, comp);
      NodesAllocated(ta.left);
      assert Linked(r, ta.left);
      var l, n := SkewHeapMerge(a.right, b, comp, ta.right, tb);
      Adopt(a, l, r, Merge(ta.right, tb, comp), ta.left);
      return a, n + 1;
    } else {
      var r := b.left;
      MergeNodes(ta, tb.right, comp);
      NodesAllocated(tb.left);
      assert Linked(r, tb.left);
      var l, n := SkewHeapMerge(a, b.right, comp, ta, tb.right);
      Adopt(b, l, r, Merge(ta, tb.right, comp), tb.left);
      return b, n + 1;
    }
  }

  method SkewHeapInsert(a: Entry?, b: Entry, comp: (Entry, Entry) -> int, ghost t: Tree<Entry>)
    returns (h: Entry?, ghost calls: nat)
    requires IsHeap(a, t) && b !in Nodes(t)
    modifies Nodes(t) + {b}
    ensures IsHeap(h, Insert(t, b, comp)) && Nodes(Insert(t, b, comp)) == Nodes(t) + {b}
    ensures calls == StepCalls(t, Enter(b), comp)
  {
    b.left, b.right, b.parent := null, null, null;
    ghost var one := Branch(b, Leaf, Leaf);
    assert Nodes(one) == {b} && Distinct(one);
    MergeNodes(t, one, comp);
    h, calls := SkewHeapMerge(a, b, comp, t, one);
  }

  // ---------- removal ----------

  datatype Links = Links(parent: Entry?, left: Entry?, right: Entry?)

  ghost function Snapshot(s: set<Entry>): map<Entry, Links>
    reads s
  {
    map e | e in s :: Links(e.parent, e.left, e.right)
  }

  /** Linked, on recorded pointers. */
  ghost predicate Shaped(m: map<Entry, Links>, e: Entry?, t: Tree<Entry>) {
    match t
    case Leaf => e == null
    case Branch(x, l, r) =>
      && e == x && x in m
      && Shaped(m, m[x].left, l) && Shaped(m, m[x].right, r)
      && (l.Branch? ==> l.root in m && m[l.root].parent == x)
      && (r.Branch? ==> r.root in m && m[r.root].parent == x)
  }

  lemma {:induction false} SnapshotShaped(m: map<Entry, Links>, e: Entry?, t: Tree<Entry>)
    requires forall n | n in Nodes(t) :: n in m && m[n] == Links(n.parent, n.left, n.right)
    ensures Linked(e, t) <==> Shaped(m, e, t)
    decreases t
  {
    if t.Branch? {
      SnapshotShaped(m, t.root.left, t.left);
      SnapshotShaped(m, t.root.right, t.right);
    }
  }

  ghost function Redirect(e: Entry?, b: Entry, rep: Entry?): Entry? {
    if e == b then rep else e
  }

  ghost predicate Redirected(m: map<Entry, Links>, m': map<Entry, Links>, s: set<Entry>, b: Entry, rep: Entry?) {
    forall n | n in s ::
      n in m && n in m' && m'[n] == Links(m[n].parent, Redirect(m[n].left, b, rep), Redirect(m[n].right, b, rep))
  }

  lemma {:induction false} ShapedElsewhere(m: map<Entry, Links>, m': map<Entry, Links>, e: Entry?, t: Tree<Entry>,
                                           b: Entry, rep: Entry?)
    requires Shaped(m, e, t) && b !in Nodes(t) && Redirected(m, m', Nodes(t), b, rep)
    ensures Shaped(m', e, t)
  {
    if t.Branch? {
      ShapedElsewhere(m, m', m[t.root].left, t.left, b, rep);
      ShapedElsewhere(m, m', m[t.root].right, t.right, b, rep);
    }
  }

  /** With `b` replaced by `rep` in its parent, the links below `e` are those of the tree without `b`. */
  lemma {:induction false} Relinked(m: map<Entry, Links>, m': map<Entry, Links>, e: Entry?, t: Tree<Entry>,
                                   b: Entry, rep: Entry?, comp: (Entry, Entry) -> int)
    requires Shaped(m, e, t) && Distinct(t) && b in Nodes(t) && b in m
    requires var s := At(t, b); Shaped(m', rep, Merge(s.left, s.right, comp))
    requires rep != null ==> rep in m' && m'[rep].parent == m[b].parent
    requires Redirected(m, m', Nodes(t) - Nodes(At(t, b)), b, rep)
    ensures Shaped(m', Redirect(e, b, rep), Remove(t, b, comp))
  {
    HasIsNode(t.left, b);
    if e != b {
      var l, r := t.left, t.right;
      if b in Nodes(l) {
        Relinked(m, m', m[e].left, l, b, rep, comp);
        ShapedElsewhere(m, m', m[e].right, r, b, rep);
      } else {
        Relinked(m, m', m[e].right, r, b, rep, comp);
        ShapedElsewhere(m, m', m[e].left, l, b, rep);
      }
    }
  }

  lemma ShapedRoot(m: map<Entry, Links>, e: Entry?, t: Tree<Entry>)
    requires Shaped(m, e, t)
    ensures if t.Leaf? then e == null else e == t.root && e in Nodes(t)
  {
  }

  lemma {:induction false} AtShaped(m: map<Entry, Links>, e: Entry?, t: Tree<Entry>, x: Entry)
    requires Shaped(m, e, t) && Distinct(t) && x in Nodes(t)
    ensures var s := At(t, x);
      && Shaped(m, x, s) && Shaped(m, m[x].left, s.left) && Shaped(m, m[x].right, s.right)
      && Distinct(s.left) && Distinct(s.right) && Nodes(s.left) !! Nodes(s.right)
      && Nodes(s) == {x} + Nodes(s.left) + Nodes(s.right) && x !in Nodes(s.left) + Nodes(s.right)
      && e == t.root
      && (x != t.root ==>
            var p := m[x].parent;
            && p != null && p in Nodes(t) && p !in Nodes(s) && t.root !in Nodes(s)
            && p in m && (m[p].left == x || m[p].right == x))
  {
    if t.root == x {
    } else if x in Nodes(t.left) {
      AtShaped(m, m[e].left, t.left, x);
    } else {
      AtShaped(m, m[e].right, t.right, x);
    }
  }

  lemma {:induction false} OnlyParent(m: map<Entry, Links>, e: Entry?, t: Tree<Entry>, n: Entry, x: Entry)
    requires Shaped(m, e, t) && Distinct(t) && n in Nodes(t)
    ensures n in m
    ensures m[n].left == x ==> x in m && m[x].parent == n && m[n].right != x
    ensures m[n].right == x ==> x in m && m[x].parent == n
  {
    if n != t.root {
      if n in Nodes(t.left) {
        OnlyParent(m, m[t.root].left, t.left, n, x);
      } else {
        OnlyParent(m, m[t.root].right, t.right, n, x);
      }
    }
  }

  /** What the two pointer writes after the merge do, on recorded pointers. */
  ghost function Rehung(m: map<Entry, Links>, p: Entry?, b: Entry, rep: Entry?): map<Entry, Links>
    requires (p != null ==> p in m) && (rep != null ==> rep in m)
  {
    var m' := if rep == null then m else m[rep := m[rep].(parent := p)];
    if p == null then m'
    else if m'[p].left == b then m'[p := m'[p].(left := rep)]
    else m'[p := m'[p].(right := rep)]
  }

  lemma Reparented(m: map<Entry, Links>, m': map<Entry, Links>, e: Entry?, t: Tree<Entry>)
    requires Shaped(m, e, t) && Distinct(t) && Nodes(t) <= m.Keys && Nodes(t) <= m'.Keys
    requires forall n | n in Nodes(t) :: m'[n] == if n == t.root then m[n].(parent := m'[n].parent) else m[n]
    ensures Shaped(m', e, t)
  {
    if t.Branch? {
      ShapedElsewhere(m, m', m[e].left, t.left, e, e);
      ShapedElsewhere(m, m', m[e].right, t.right, e, e);
    }
  }

  lemma RemoveShape(before: map<Entry, Links>, merged: map<Entry, Links>,
                    a: Entry, t: Tree<Entry>, b: Entry, rep: Entry?, comp: (Entry, Entry) -> int)
    requires Shaped(before, a, t) && Distinct(t) && b in Nodes(t) && before[a].parent == null
    requires before.Keys == merged.Keys == Nodes(t)
    requires var s := At(t, b);
      && Shaped(merged, rep, Merge(s.left, s.right, comp))
      && forall n | n in Nodes(t) && n !in Nodes(s.left) + Nodes(s.right) :: merged[n] == before[n]
    ensures var h := if before[b].parent == null then rep else a;
      var p := before[b].parent;
      && (p != null ==> p in Nodes(t)) && (rep != null ==> rep in Nodes(t))
      && var after := Rehung(merged, p, b, rep);
      && Shaped(after, h, Remove(t, b, comp))
      && (h != null ==> after[h].parent == null)
    ensures Nodes(Remove(t, b, comp)) == Nodes(t) - {b} && Distinct(Remove(t, b, comp))
  {
    hide Remove, Merge, Has, Nodes, Distinct, At, Shaped;
    var s, p := At(t, b), before[b].parent;
    var tr := Merge(s.left, s.right, comp);
    AtShaped(before, a, t, b);
    ShapedRoot(merged, rep, tr);
    MergeNodes(s.left, s.right, comp);
    RemoveNodes(t, b, comp);
    var after := Rehung(merged, p, b, rep);
    Reparented(merged, after, rep, tr);
    assert Redirected(before, after, Nodes(t) - Nodes(s), b, rep) by {
      forall n | n in Nodes(t) {
        OnlyParent(before, a, t, n, b);
      }
    }
    Relinked(before, after, a, t, b, rep, comp);
  }

  /** The part of skew_heap_remove after the merge: `rep` takes the place of `b` below `p`. */
  method Rehang(a: Entry, b: Entry, p: Entry?, rep: Entry?, ghost s: set<Entry>) returns (h: Entry?)
    requires (p != null ==> p in s) && (rep != null ==> rep in s)
    modifies s
    ensures Snapshot(s) == Rehung(old(Snapshot(s)), p, b, rep)
    ensures h == if p == null then rep else a
  {
    if rep != null {
      rep.parent := p;
    }
    if p != null {
      if p.left == b {
        p.left := rep;
      } else {
        p.right := rep;
      }
      h := a;
    } else {
      h := rep;
    }
  }

  method SkewHeapRemove(a: Entry, b: Entry, comp: (Entry, Entry) -> int, ghost t: Tree<Entry>)
    returns (h: Entry?, ghost calls: nat)
    requires IsHeap(a, t) && b in Nodes(t)
    modifies Nodes(t)
    ensures IsHeap(h, Remove(t, b, comp)) && Nodes(Remove(t, b, comp)) == Nodes(t) - {b}
    ensures calls == StepCalls(t, Leave(b), comp)
  {
    hide Remove, Merge, Calls, RemoveCalls, Shaped, Has, Distinct, At, Linked, Nodes;
    ghost var s := At(t, b);
    ghost var before := Snapshot(Nodes(t));
    SnapshotShaped(before, a, t);
    ShapedRoot(before, a, t);
    AtShaped(before, a, t, b);
    SnapshotShaped(before, b.left, s.left);
    SnapshotShaped(before, b.right, s.right);
    AtCalls(t, b, comp);
    NodesAllocated(t);
    var p := b.parent;
    var rep;
    rep, calls := SkewHeapMerge(b.left, b.right, comp, s.left, s.right);
    ghost var merged := Snapshot(Nodes(t));
    MergeNodes(s.left, s.right, comp);
    SnapshotShaped(merged, rep, Merge(s.left, s.right, comp));
    RemoveShape(before, merged, a, t, b, rep, comp);
    h := Rehang(a, b, p, rep, Nodes(t));
    ghost var after := Snapshot(Nodes(t));
    SnapshotShaped(after, h, Remove(t, b, comp));
    ShapedRoot(after, h, Remove(t, b, comp));
  }
}
