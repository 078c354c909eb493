/**
  The skew heap of lab6/libs/skew_heap.h as a function on trees: what merge, insert
  and remove leave behind, the heap order, and the amortized cost.  Module
  SkewHeapEntries has the code that rewrites the pointers.

  `comp(x, y) == -1` is the only comparator answer the code looks at, so "x not after y"
  is `comp(y, x) != -1`.
 */
module SkewHeap {
  import opened Logarithms

  datatype Tree<T> = Leaf | Branch(root: T, left: Tree<T>, right: Tree<T>)

  function Size<T>(t: Tree<T>): nat {
    match t
    case Leaf => 0
    case Branch(_, l, r) => 1 + Size(l) + Size(r)
  }

  ghost function Elements<T>(t: Tree<T>): multiset<T> {
    match t
    case Leaf => multiset{}
    case Branch(x, l, r) => multiset{x} + Elements(l) + Elements(r)
  }

  /** `x` sits at some node of `t`. */
  ghost predicate Has<T>(t: Tree<T>, x: T) {
    t.Branch? && (t.root == x || Has(t.left, x) || Has(t.right, x))
  }

  // ---------- the operations ----------

  function Merge<T>(a: Tree<T>, b: Tree<T>, comp: (T, T) -> int): Tree<T>
    decreases a, b
  {
    if a.Leaf? then b
    else if b.Leaf? then a
    else if comp(a.root, b.root) == -1 then Branch(a.root, Merge(a.right, b, comp), a.left)
    else Branch(b.root, Merge(a, b.right, comp), b.left)
  }

  function Insert<T>(t: Tree<T>, x: T, comp: (T, T) -> int): Tree<T> {
    Merge(t, Branch(x, Leaf, Leaf), comp)
  }

  /** The element `x` goes away and its two subtrees, merged, take its place. */
  ghost function Remove<T>(t: Tree<T>, x: T, comp: (T, T) -> int): Tree<T> {
    match t
    case Leaf => Leaf
    case Branch(y, l, r) =>
      if y == x then Merge(l, r, comp)
      else if Has(l, x) then Branch(y, Remove(l, x, comp), r)
      else Branch(y, l, Remove(r, x, comp))
  }

  // ---------- contents ----------

  lemma {:induction false} MergeElements<T>(a: Tree<T>, b: Tree<T>, comp: (T, T) -> int)
    ensures Elements(Merge(a, b, comp)) == Elements(a) + Elements(b)
    decreases a, b
  {
    if a.Leaf? || b.Leaf? {
    } else if comp(a.root, b.root) == -1 {
      MergeElements(a.right, b, comp);
    } else {
      MergeElements(a, b.right, comp);
    }
  }

  /** Removal takes away exactly one occurrence of exactly one element. */
  lemma {:induction false} RemoveElements<T>(t: Tree<T>, x: T, comp: (T, T) -> int)
    requires Has(t, x)
    ensures Elements(Remove(t, x, comp)) + multiset{x} == Elements(t)
  {
    hide Merge;
    var Branch(y, l, r) := t;
    if y == x {
      MergeElements(l, r, comp);
    } else if Has(l, x) {
      RemoveElements(l, x, comp);
    } else {
      RemoveElements(r, x, comp);
    }
  }

  lemma {:induction false} MergeSize<T>(a: Tree<T>, b: Tree<T>, comp: (T, T) -> int)
    ensures Size(Merge(a, b, comp)) == Size(a) + Size(b)
    decreases a, b
  {
    if a.Leaf? || b.Leaf? {
    } else if comp(a.root, b.root) == -1 {
      MergeSize(a.right, b, comp);
    } else {
      MergeSize(a, b.right, comp);
    }
  }

  lemma {:induction false} RemoveSize<T>(t: Tree<T>, x: T, comp: (T, T) -> int)
    requires Has(t, x)
    ensures Size(Remove(t, x, comp)) == Size(t) - 1
  {
    if t.root == x {
      MergeSize(t.left, t.right, comp);
    } else if Has(t.left, x) {
      RemoveSize(t.left, x, comp);
    } else {
      RemoveSize(t.right, x, comp);
    }
  }

  // ---------- heap order ----------

  /** The comparator orders the elements of `s`: a total preorder, ties allowed. */
  ghost predicate TotalPreorder<T>(comp: (T, T) -> int, s: set<T>) {
    && (forall x, y | x in s && y in s :: comp(x, y) != -1 || comp(y, x) != -1)
    && (forall x, y, z | x in s && y in s && z in s && comp(y, x) != -1 && comp(z, y) != -1 :: comp(z, x) != -1)
  }

  ghost predicate Within<T>(t: Tree<T>, s: set<T>) {
    t.Branch? ==> t.root in s && Within(t.left, s) && Within(t.right, s)
  }

  /** No element comes before its parent. */
  ghost predicate Ordered<T>(t: Tree<T>, comp: (T, T) -> int) {
    match t
    case Leaf => true
    case Branch(x, l, r) =>
      && (l.Branch? ==> comp(l.root, x) != -1)
      && (r.Branch? ==> comp(r.root, x) != -1)
      && Ordered(l, comp) && Ordered(r, comp)
  }

  lemma {:induction false} RootIsLeast<T>(t: Tree<T>, comp: (T, T) -> int, x: T, s: set<T>)
    requires Ordered(t, comp) && Within(t, s) && TotalPreorder(comp, s) && Has(t, x)
    ensures x in s && comp(x, t.root) != -1
  {
    if x != t.root {
      RootIsLeast(if Has(t.left, x) then t.left else t.right, comp, x, s);
    }
  }

  lemma {:induction false} MergeOrdered<T>(a: Tree<T>, b: Tree<T>, comp: (T, T) -> int, s: set<T>)
    requires Ordered(a, comp) && Ordered(b, comp)
    requires Within(a, s) && Within(b, s) && TotalPreorder(comp, s)
    ensures Ordered(Merge(a, b, comp), comp) && Within(Merge(a, b, comp), s)
    decreases a, b
  {
    if a.Leaf? || b.Leaf? {
    } else if comp(a.root, b.root) == -1 {
      MergeOrdered(a.right, b, comp, s);
    } else {
      MergeOrdered(a, b.right, comp, s);
    }
  }

  lemma {:induction false} MergeHas<T>(a: Tree<T>, b: Tree<T>, comp: (T, T) -> int, x: T)
    ensures Has(Merge(a, b, comp), x) <==> Has(a, x) || Has(b, x)
    decreases a, b
  {
    if a.Leaf? || b.Leaf? {
    } else if comp(a.root, b.root) == -1 {
      MergeHas(a.right, b, comp, x);
    } else {
      MergeHas(a, b.right, comp, x);
    }
  }

  lemma {:induction false} RemoveKeepsOthers<T>(t: Tree<T>, x: T, comp: (T, T) -> int, y: T)
    requires Has(Remove(t, x, comp), y)
    ensures Has(t, y)
  {
    if t.root == x {
      MergeHas(t.left, t.right, comp, y);
    } else if Has(t.left, x) {
      if Has(Remove(t.left, x, comp), y) { RemoveKeepsOthers(t.left, x, comp, y); }
    } else {
      if Has(Remove(t.right, x, comp), y) { RemoveKeepsOthers(t.right, x, comp, y); }
    }
  }

  lemma {:induction false} RemoveOrdered<T>(t: Tree<T>, x: T, comp: (T, T) -> int, s: set<T>)
    requires Ordered(t, comp) && Within(t, s) && TotalPreorder(comp, s)
    ensures Ordered(Remove(t, x, comp), comp) && Within(Remove(t, x, comp), s)
  {
    match t
    case Leaf =>
    case Branch(y, l, r) =>
      if y == x {
        MergeOrdered(l, r, comp, s);
      } else {
        var sub := if Has(l, x) then l else r;
        var rest := Remove(sub, x, comp);
        RemoveOrdered(sub, x, comp, s);
        if rest.Branch? {
          RemoveKeepsOthers(sub, x, comp, rest.root);
          RootIsLeast(t, comp, rest.root, s);
        }
      }
  }

  // ---------- amortized cost ----------

  /** The calls of skew_heap_merge that one merge makes, itself included. */
  function Calls<T>(a: Tree<T>, b: Tree<T>, comp: (T, T) -> int): nat
    decreases a, b
  {
    if a.Leaf? || b.Leaf? then 1
    else if comp(a.root, b.root) == -1 then 1 + Calls(a.right, b, comp)
    else 1 + Calls(a, b.right, comp)
  }

  predicate RightHeavy<T>(t: Tree<T>) {
    t.Branch? && Size(t.right) > Size(t.left)
  }

  function Heavy<T>(t: Tree<T>): nat {
    if RightHeavy(t) then 1 else 0
  }

  /** The potential: how many nodes have the larger subtree on the right. */
  function Potential<T>(t: Tree<T>): nat {
    match t
    case Leaf => 0
    case Branch(_, l, r) => Heavy(t) + Potential(l) + Potential(r)
  }

  function LightOnRightSpine<T>(t: Tree<T>): nat {
    match t
    case Leaf => 0
    case Branch(_, _, r) => 1 - Heavy(t) + LightOnRightSpine(r)
  }

  function HeavyOnLeftSpine<T>(t: Tree<T>): nat {
    match t
    case Leaf => 0
    case Branch(_, l, _) => Heavy(t) + HeavyOnLeftSpine(l)
  }

  /** Each light node on a right spine halves the size. */
  lemma {:induction false} LightBound<T>(t: Tree<T>)
    ensures Pow2(LightOnRightSpine(t)) <= Size(t) + 1
  {
    if t.Branch? {
      LightBound(t.right);
    }
  }

  /** Each heavy node on a left spine halves the size. */
  lemma {:induction false} HeavyBound<T>(t: Tree<T>)
    ensures Pow2(HeavyOnLeftSpine(t)) <= Size(t) + 1
  {
    if t.Branch? {
      HeavyBound(t.left);
    }
  }

  lemma SpineLogs<T>(t: Tree<T>)
    ensures LightOnRightSpine(t) <= Log2(Size(t) + 1)
    ensures HeavyOnLeftSpine(t) <= Log2(Size(t) + 1)
  {
    hide *;
    LightBound(t);
    HeavyBound(t);
    Log2Greatest(Size(t) + 1, LightOnRightSpine(t));
    Log2Greatest(Size(t) + 1, HeavyOnLeftSpine(t));
  }

  lemma {:induction false} MergePaysForCalls<T>(a: Tree<T>, b: Tree<T>, comp: (T, T) -> int)
    ensures var m := Merge(a, b, comp);
            Calls(a, b, comp) + Potential(m)
            <= Potential(a) + Potential(b) + LightOnRightSpine(a) + LightOnRightSpine(b) + HeavyOnLeftSpine(m) + 1
    decreases a, b
  {
    if a.Leaf? || b.Leaf? {
    } else if comp(a.root, b.root) == -1 {
      MergePaysForCalls(a.right, b, comp);
    } else {
      MergePaysForCalls(a, b.right, comp);
    }
  }

  /** The amortized cost of a merge is logarithmic, whatever the shapes and the comparator. */
  lemma MergeAmortized<T>(a: Tree<T>, b: Tree<T>, comp: (T, T) -> int)
    ensures Calls(a, b, comp) + Potential(Merge(a, b, comp)) - Potential(a) - Potential(b)
            <= Log2(Size(a) + 1) + Log2(Size(b) + 1) + Log2(Size(a) + Size(b) + 1) + 1
  {
    hide *;
    var m := Merge(a, b, comp);
    MergePaysForCalls(a, b, comp);
    MergeSize(a, b, comp);
    SpineLogs(a);
    SpineLogs(b);
    SpineLogs(m);
  }

  /** The calls one removal of `x` makes: those of merging its two subtrees. */
  ghost function RemoveCalls<T>(t: Tree<T>, x: T, comp: (T, T) -> int): nat {
    match t
    case Leaf => 0
    case Branch(y, l, r) =>
      if y == x then Calls(l, r, comp)
      else if Has(l, x) then RemoveCalls(l, x, comp)
      else RemoveCalls(r, x, comp)
  }

  /** Ancestors of `x` that become right-heavy when `x` leaves their left subtree. */
  ghost function Tipped<T>(t: Tree<T>, x: T): nat {
    match t
    case Leaf => 0
    case Branch(y, l, r) =>
      if y == x then 0
      else if Has(l, x) then (if Size(l) == Size(r) then 1 else 0) + Tipped(l, x)
      else Tipped(r, x)
  }

  lemma {:induction false} TippedBound<T>(t: Tree<T>, x: T)
    ensures Pow2(Tipped(t, x)) <= Size(t) + 1
  {
    match t
    case Leaf =>
    case Branch(y, l, r) =>
      TippedBound(l, x);
      TippedBound(r, x);
  }

  lemma SizeOfBranch<T>(t: Tree<T>)
    requires t.Branch?
    ensures Size(t) == 1 + Size(t.left) + Size(t.right)
  {
  }

  ghost predicate RemovalPaid<T>(t: Tree<T>, x: T, comp: (T, T) -> int)
    requires Has(t, x)
  {
    RemoveCalls(t, x, comp) + Potential(Remove(t, x, comp)) <= Potential(t) + 3 * Log2(Size(t)) + 1 + Tipped(t, x)
  }

  lemma RootPaid<T>(t: Tree<T>, comp: (T, T) -> int)
    requires t.Branch?
    ensures RemovalPaid(t, t.root, comp)
  {
    hide Log2, Merge, Calls, Size;
    MergeAmortized(t.left, t.right, comp);
    LogsBelow(Size(t.left), Size(t.right));
    SizeOfBranch(t);
  }

  lemma LeftPaid<T>(t: Tree<T>, x: T, comp: (T, T) -> int)
    requires t.Branch? && t.root != x && Has(t.left, x) && RemovalPaid(t.left, x, comp)
    ensures RemovalPaid(t, x, comp)
  {
    hide Log2, Merge, Calls;
    RemoveSize(t.left, x, comp);
    Log2Monotone(Size(t.left), Size(t));
  }

  lemma RightPaid<T>(t: Tree<T>, x: T, comp: (T, T) -> int)
    requires t.Branch? && t.root != x && !Has(t.left, x) && Has(t.right, x) && RemovalPaid(t.right, x, comp)
    ensures RemovalPaid(t, x, comp)
  {
    hide Log2, Merge, Calls;
    RemoveSize(t.right, x, comp);
    Log2Monotone(Size(t.right), Size(t));
  }

  lemma {:induction false} RemovePaysForCalls<T>(t: Tree<T>, x: T, comp: (T, T) -> int)
    requires Has(t, x)
    ensures RemoveCalls(t, x, comp) + Potential(Remove(t, x, comp))
            <= Potential(t) + 3 * Log2(Size(t)) + 1 + Tipped(t, x)
  {
    hide Log2, Merge, Calls, Remove, RemoveCalls, Tipped, Potential, Size;
    if t.root == x {
      RootPaid(t, comp);
    } else if Has(t.left, x) {
      RemovePaysForCalls(t.left, x, comp);
      LeftPaid(t, x, comp);
    } else {
      RemovePaysForCalls(t.right, x, comp);
      RightPaid(t, x, comp);
    }
  }

  /** Removing any element, however deep, is logarithmic in amortized cost too. */
  lemma RemoveAmortized<T>(t: Tree<T>, x: T, comp: (T, T) -> int)
    requires Has(t, x)
    ensures RemoveCalls(t, x, comp) + Potential(Remove(t, x, comp)) - Potential(t) <= 4 * Log2(Size(t) + 1) + 1
  {
    hide *;
    RemovePaysForCalls(t, x, comp);
    TippedBound(t, x);
    Log2Greatest(Size(t) + 1, Tipped(t, x));
    Log2Monotone(Size(t), Size(t) + 1);
  }

  // ---------- whole runs ----------

  datatype Op<T> = Enter(x: T) | Leave(x: T)

  ghost function Step<T>(t: Tree<T>, op: Op<T>, comp: (T, T) -> int): Tree<T> {
    match op
    case Enter(x) => Insert(t, x, comp)
    case Leave(x) => Remove(t, x, comp)
  }

  ghost function StepCalls<T>(t: Tree<T>, op: Op<T>, comp: (T, T) -> int): nat {
    match op
    case Enter(x) => Calls(t, Branch(x, Leaf, Leaf), comp)
    case Leave(x) => RemoveCalls(t, x, comp)
  }

  /** The heap after a run that starts empty. */
  ghost function After<T>(ops: seq<Op<T>>, comp: (T, T) -> int): Tree<T> {
    if ops == [] then Leaf
    else Step(After(ops[..|ops| - 1], comp), ops[|ops| - 1], comp)
  }

  ghost function TotalCalls<T>(ops: seq<Op<T>>, comp: (T, T) -> int): nat {
    if ops == [] then 0
    else TotalCalls(ops[..|ops| - 1], comp) + StepCalls(After(ops[..|ops| - 1], comp), ops[|ops| - 1], comp)
  }

  /** Only elements that are there leave. */
  ghost predicate Feasible<T>(ops: seq<Op<T>>, comp: (T, T) -> int) {
    ops == [] ||
    (&& Feasible(ops[..|ops| - 1], comp)
     && (ops[|ops| - 1].Leave? ==> Has(After(ops[..|ops| - 1], comp), ops[|ops| - 1].x)))
  }

  lemma {:induction false} RunSize<T>(ops: seq<Op<T>>, comp: (T, T) -> int)
    requires Feasible(ops, comp)
    ensures Size(After(ops, comp)) <= |ops|
  {
    if ops != [] {
      var t := After(ops[..|ops| - 1], comp);
      RunSize(ops[..|ops| - 1], comp);
      match ops[|ops| - 1]
      case Enter(x) => MergeSize(t, Branch(x, Leaf, Leaf), comp);
      case Leave(x) => RemoveSize(t, x, comp);
    }
  }

  lemma SingletonMeasures<T>(x: T)
    ensures Size(Branch(x, Leaf, Leaf)) == 1 && Potential(Branch(x, Leaf, Leaf)) == 0
  {
  }

  lemma EnterPaysForCalls<T>(t: Tree<T>, x: T, comp: (T, T) -> int)
    ensures var one := Branch(x, Leaf, Leaf);
            Calls(t, one, comp) + Potential(Merge(t, one, comp)) <= Potential(t) + 2 * Log2(Size(t) + 2) + 2
  {
    hide *;
    var one := Branch(x, Leaf, Leaf);
    MergeAmortized(t, one, comp);
    SingletonMeasures(x);
    assert Log2(2) == 1 by { Log2OfTwo(); }
    Log2Monotone(Size(t) + 1, Size(t) + 2);
  }

  lemma StepPaysForCalls<T>(t: Tree<T>, op: Op<T>, comp: (T, T) -> int)
    requires op.Leave? ==> Has(t, op.x)
    ensures StepCalls(t, op, comp) + Potential(Step(t, op, comp)) <= Potential(t) + 4 * Log2(Size(t) + 2) + 2
  {
    hide Log2, Merge, Remove, RemoveCalls, Calls, Potential, Size;
    Log2Monotone(Size(t) + 1, Size(t) + 2);
    match op
    case Enter(x) => EnterPaysForCalls(t, x, comp);
    case Leave(x) => RemoveAmortized(t, x, comp);
  }

  lemma {:induction false} RunPaysForCalls<T>(ops: seq<Op<T>>, comp: (T, T) -> int, bound: nat)
    requires Feasible(ops, comp) && |ops| <= bound
    ensures TotalCalls(ops, comp) + Potential(After(ops, comp)) <= |ops| * (4 * Log2(bound + 1) + 2)
  {
    hide Log2, Step, StepCalls, Size;
    if ops == [] {
      assert TotalCalls(ops, comp) == 0 && After(ops, comp) == Leaf;
    } else {
      hide Potential;
      var before := ops[..|ops| - 1];
      var t := After(before, comp);
      RunPaysForCalls(before, comp, bound);
      RunSize(before, comp);
      StepPaysForCalls(t, ops[|ops| - 1], comp);
      Log2Monotone(Size(t) + 2, bound + 1);
      AddOne(|before|, 4 * Log2(bound + 1) + 2);
    }
  }

  lemma AddOne(m: nat, x: nat)
    ensures (m + 1) * x == m * x + x
  {
  }

  /** Any run of m inserts and removals makes at most m * (4 log2(m + 1) + 2) merge calls. */
  lemma RunIsLogarithmic<T>(ops: seq<Op<T>>, comp: (T, T) -> int)
    requires Feasible(ops, comp)
    ensures TotalCalls(ops, comp) <= |ops| * (4 * Log2(|ops| + 1) + 2)
  {
    hide *;
    RunPaysForCalls(ops, comp, |ops|);
  }
}
