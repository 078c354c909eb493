/** stab_binsearch: binary search in a debug table whose entries of the wanted type are ordered by
  * address and mixed with entries of other types (lab1/kern/debug/kdebug.c).
  */
module StabSearch {

  const WORD: nat := 0x1_0000_0000

  type Address = x: int | 0 <= x < WORD

  datatype Stab = Stab(kind: nat, value: Address)

  /** The variables of the search: the range still open, the two results, the address sought. */
  datatype State = State(l: int, r: int, left: int, right: int, addr: Address, matched: bool)

  predicate Matches(t: seq<Stab>, kind: nat, i: int) {
    0 <= i < |t| && t[i].kind == kind
  }

  /** The last entry of the kind in [l, m], or l - 1. */
  function LastIn(t: seq<Stab>, kind: nat, l: int, m: int): (k: int)
    requires 0 <= l && l - 1 <= m < |t|
    ensures l - 1 <= k <= m && (k >= l ==> Matches(t, kind, k))
    ensures forall i :: k < i <= m ==> !Matches(t, kind, i)
    decreases m - l + 1
  {
    if m < l || t[m].kind == kind then m else LastIn(t, kind, l, m - 1)
  }

  predicate InTable(t: seq<Stab>, s: State) {
    0 <= s.l && s.r < |t|
  }

  /** Shrinks with every turn: the exact match leaves the range alone but changes the address. */
  function Measure(t: seq<Stab>, s: State): nat
    requires InTable(t, s)
  {
    if s.l > s.r then 0 else 2 * (s.r - s.l + 1) + (if t[s.l].value == s.addr then 1 else 0)
  }

  /** One turn of the loop. */
  function Turn(t: seq<Stab>, kind: nat, s: State): (s': State)
    requires InTable(t, s) && s.l <= s.r
    ensures InTable(t, s') && Measure(t, s') < Measure(t, s)
  {
    var mid := (s.l + s.r) / 2;
    var m := LastIn(t, kind, s.l, mid);
    if m < s.l then s.(l := mid + 1)
    else if t[m].value < s.addr then s.(left := m, l := mid + 1, matched := true)
    else if t[m].value > s.addr then s.(right := m - 1, r := m - 1, matched := true)
    else s.(left := m, l := m, addr := (s.addr + 1) % WORD, matched := true)
  }

  function Run(t: seq<Stab>, kind: nat, s: State): (s': State)
    requires InTable(t, s)
    ensures InTable(t, s') && s'.l > s'.r
    decreases Measure(t, s)
  {
    if s.l > s.r then s else Run(t, kind, Turn(t, kind, s))
  }

  lemma RunTurn(t: seq<Stab>, kind: nat, s: State)
    requires InTable(t, s) && s.l <= s.r
    ensures Run(t, kind, s) == Run(t, kind, Turn(t, kind, s))
  {
  }

  /** The two results: after the loop the left one moves to the last entry of the kind. */
  function Result(t: seq<Stab>, kind: nat, s: State): (int, int) {
    if !s.matched then (s.left, s.left - 1)
    else if s.right <= s.left then (s.right, s.right)
    else if 0 <= s.left && s.right < |t| then
      var k := LastIn(t, kind, s.left + 1, s.right); (k, s.right)
    else (s.left, s.right)
  }

  function Start(left: int, right: int, addr: Address): State {
    State(left, right, left, right, addr, false)
  }

  /** Walk down from m to the last entry of the kind, stopping below l. */
  method ScanDown(stabs: array<Stab>, kind: nat, l: int, m: int) returns (k: int)
    requires 0 <= l && l - 1 <= m < stabs.Length
    ensures k == LastIn(stabs[..], kind, l, m)
  {
    k := m;
    while k >= l && stabs[k].kind != kind
      invariant l - 1 <= k <= m && LastIn(stabs[..], kind, l, m) == LastIn(stabs[..], kind, l, k)
    {
      k := k - 1;
    }
  }

  method StabBinsearch(stabs: array<Stab>, left: int, right: int, kind: nat, addr: Address) returns (left': int,
                       right': int)
    requires 0 <= left && right < stabs.Length
    ensures (left', right') == Result(stabs[..], kind, Run(stabs[..], kind, Start(left, right, addr)))
  {
    hide Run, Measure, LastIn;
    ghost var t := stabs[..];
    var l, r, a: Address, matched := left, right, addr, false;
    left', right' := left, right;
    while l <= r
      invariant left <= l && r < |t| && left <= left' && right' < |t|
      invariant Run(t, kind, State(l, r, left', right', a, matched)) == Run(t, kind, Start(left, right, addr))
      decreases Measure(t, State(l, r, left', right', a, matched))
    {
      RunTurn(t, kind, State(l, r, left', right', a, matched));
      var mid := (l + r) / 2;
      var m := ScanDown(stabs, kind, l, mid);
      if m < l {
        l := mid + 1;
      } else {
        matched := true;
        if stabs[m].value < a {
          left', l := m, mid + 1;
        } else if stabs[m].value > a {
          right', r := m - 1, m - 1;
        } else {
          left', l, a := m, m, (a + 1) % WORD;
        }
      }
    }
    RunEnds(t, kind, State(l, r, left', right', a, matched));
    if !matched {
      right' := left' - 1;
    } else if right' > left' {
      left' := ScanDown(stabs, kind, left' + 1, right');
    } else {
      left' := right';
    }
  }

  lemma RunEnds(t: seq<Stab>, kind: nat, s: State)
    requires InTable(t, s) && s.l > s.r
    ensures Run(t, kind, s) == s
  {
  }

  // ---- what the search finds ----

  /** Entries of the kind in [lo, hi] are ordered by address. */
  ghost predicate Ordered(t: seq<Stab>, kind: nat, lo: int, hi: int) {
    forall i, j :: lo <= i < j <= hi && Matches(t, kind, i) && Matches(t, kind, j) ==> t[i].value <= t[j].value
  }

  ghost predicate Has(t: seq<Stab>, kind: nat, lo: int, hi: int, v: int) {
    exists i :: lo <= i <= hi && Matches(t, kind, i) && t[i].value == v
  }

  /** No entry of the kind in [lo, hi]. */
  ghost predicate None(t: seq<Stab>, kind: nat, lo: int, hi: int) {
    forall i :: lo <= i <= hi ==> !Matches(t, kind, i)
  }

  /** A linear scan's answer for address k in [lo, hi]: left is the last entry at or below k, right
    * is just before the first entry above k.
    */
  ghost predicate Answers(t: seq<Stab>, kind: nat, lo: int, hi: int, k: int, left: int, right: int) {
    if None(t, kind, lo, hi) then left == lo && right == lo - 1 else
    && lo - 1 <= right <= hi && (right < hi ==> Matches(t, kind, right + 1))
    && (forall i :: lo <= i <= right && Matches(t, kind, i) ==> t[i].value <= k)
    && (forall i :: right < i <= hi && Matches(t, kind, i) ==> t[i].value > k)
    && if None(t, kind, lo, right) then left == (if right >= lo then lo else right)
       else lo <= left <= right && Matches(t, kind, left) && None(t, kind, left + 1, right)
  }

  /** What every turn keeps; `found` tells whether the left result has been set. */
  ghost predicate Inv(t: seq<Stab>, kind: nat, lo: int, hi: int, addr: int, s: State, found: bool) {
    && 0 <= lo <= s.l && s.right == s.r <= hi < |t| && s.l <= s.r + 1 && addr <= s.addr
    && (forall v :: addr <= v < s.addr ==> Has(t, kind, lo, hi, v))
    && (if found then Matches(t, kind, s.left) && lo <= s.left <= s.l && s.left <= s.r && t[s.left].value < s.addr
      && None(t, kind, s.left + 1, s.l - 1)
        else s.left == lo && None(t, kind, lo, s.l - 1) && s.addr == addr)
    && (forall i :: lo <= i < s.l && Matches(t, kind, i) ==> t[i].value < s.addr)
    && (forall i :: s.r < i <= hi && Matches(t, kind, i) ==> t[i].value > Sought(addr, s))
    && (s.r < hi ==> Matches(t, kind, s.r + 1))
    && (s.matched <==> found || s.r < hi)
  }

  /** The address the results are for: one less than the current one after exact matches. */
  function Sought(addr: int, s: State): int {
    if s.addr > addr then s.addr - 1 else addr
  }

  /** Adding one to the address never wraps: an entry at the greatest address does no harm unless it is
    * the one sought, or entries lie one above the address sought.
    */
  ghost predicate NoWrap(t: seq<Stab>, kind: nat, lo: int, hi: int, addr: int) {
    Has(t, kind, lo, hi, WORD - 1) ==> addr < WORD - 1 && !Has(t, kind, lo, hi, addr + 1)
  }

  /** Addresses do not repeat. */
  ghost predicate Strict(t: seq<Stab>, kind: nat, lo: int, hi: int) {
    forall i, j :: lo <= i < j <= hi && Matches(t, kind, i) && Matches(t, kind, j) ==> t[i].value < t[j].value
  }

  /** The tables the results below are about: ordered, without a wrap, and without repeated addresses
    * if an entry lies one above the address sought.
    */
  ghost predicate Table(t: seq<Stab>, kind: nat, lo: int, hi: int, addr: int) {
    && Ordered(t, kind, lo, hi) && NoWrap(t, kind, lo, hi, addr)
    && (Has(t, kind, lo, hi, addr + 1) ==> Strict(t, kind, lo, hi))
  }

  lemma SkipKeeps(t: seq<Stab>, kind: nat, lo: int, hi: int, addr: int, s: State, found: bool, mid: int)
    requires Inv(t, kind, lo, hi, addr, s, found) && s.l <= mid <= s.r && None(t, kind, s.l, mid)
    ensures Inv(t, kind, lo, hi, addr, s.(l := mid + 1), found)
  {
  }

  lemma LowKeeps(t: seq<Stab>, kind: nat, lo: int, hi: int, addr: int, s: State, found: bool, m: int, mid: int)
    requires Inv(t, kind, lo, hi, addr, s, found) && Ordered(t, kind, lo, hi)
    requires s.l <= m <= mid <= s.r && Matches(t, kind, m) && None(t, kind, m + 1, mid) && t[m].value < s.addr
    ensures Inv(t, kind, lo, hi, addr, s.(left := m, l := mid + 1, matched := true), true)
  {
  }

  lemma HighKeeps(t: seq<Stab>, kind: nat, lo: int, hi: int, addr: int, s: State, found: bool, m: int)
    requires Inv(t, kind, lo, hi, addr, s, found) && Ordered(t, kind, lo, hi)
    requires s.l <= m <= s.r && Matches(t, kind, m) && t[m].value > s.addr
    ensures Inv(t, kind, lo, hi, addr, s.(right := m - 1, r := m - 1, matched := true), found)
  {
  }

  lemma ExactKeeps(t: seq<Stab>, kind: nat, lo: int, hi: int, addr: int, s: State, found: bool, m: int)
    requires Inv(t, kind, lo, hi, addr, s, found) && Table(t, kind, lo, hi, addr)
    requires s.l <= m <= s.r && Matches(t, kind, m) && t[m].value == s.addr
    ensures s.addr + 1 < WORD
    ensures Inv(t, kind, lo, hi, addr, s.(left := m, l := m, addr := s.addr + 1, matched := true), true)
  {
    assert Has(t, kind, lo, hi, s.addr);
  }

  /** The entry of the kind that a turn looks at, or l - 1. */
  function Probe(t: seq<Stab>, kind: nat, s: State): (m: int)
    requires InTable(t, s) && s.l <= s.r
    ensures s.l - 1 <= m <= s.r && (m >= s.l ==> Matches(t, kind, m))
  {
    LastIn(t, kind, s.l, (s.l + s.r) / 2)
  }

  predicate Exact(t: seq<Stab>, kind: nat, s: State)
    requires InTable(t, s) && s.l <= s.r
  {
    Probe(t, kind, s) >= s.l && t[Probe(t, kind, s)].value == s.addr
  }

  /** The state in which the entry m is met with its own address. */
  function Raised(p: State, m: int): State {
    p.(left := m, l := m, addr := (p.addr + 1) % WORD, matched := true)
  }

  /** A turn without an exact match keeps everything, in any ordered table. */
  lemma MissKeeps(t: seq<Stab>, kind: nat, lo: int, hi: int, addr: int, s: State, found: bool) returns (found': bool)
    requires InTable(t, s) && s.l <= s.r && Inv(t, kind, lo, hi, addr, s, found) && Ordered(t, kind, lo, hi)
    requires !Exact(t, kind, s)
    ensures Inv(t, kind, lo, hi, addr, Turn(t, kind, s), found') && Turn(t, kind, s).addr == s.addr
  {
    hide Inv, LastIn, Measure, Has;
    var mid := (s.l + s.r) / 2;
    var m := LastIn(t, kind, s.l, mid);
    found' := found || (m >= s.l && t[m].value <= s.addr);
    if m < s.l {
      SkipKeeps(t, kind, lo, hi, addr, s, found, mid);
    } else if t[m].value < s.addr {
      LowKeeps(t, kind, lo, hi, addr, s, found, m, mid);
    } else {
      HighKeeps(t, kind, lo, hi, addr, s, found, m);
    }
  }

  lemma TurnKeeps(t: seq<Stab>, kind: nat, lo: int, hi: int, addr: int, s: State, found: bool) returns (found': bool)
    requires InTable(t, s) && s.l <= s.r && Inv(t, kind, lo, hi, addr, s, found) && Table(t, kind, lo, hi, addr)
    ensures Inv(t, kind, lo, hi, addr, Turn(t, kind, s), found')
  {
    hide Inv, LastIn, Measure, Has;
    if Exact(t, kind, s) {
      found' := true;
      ExactKeeps(t, kind, lo, hi, addr, s, found, Probe(t, kind, s));
    } else {
      found' := MissKeeps(t, kind, lo, hi, addr, s, found);
    }
  }

  lemma {:induction false} RunKeeps(t: seq<Stab>, kind: nat, lo: int, hi: int, addr: int, s: State,
                                    found: bool) returns (found': bool)
    requires InTable(t, s) && Inv(t, kind, lo, hi, addr, s, found) && Table(t, kind, lo, hi, addr)
    ensures Inv(t, kind, lo, hi, addr, Run(t, kind, s), found')
    decreases Measure(t, s)
  {
    hide Inv, Table, Turn;
    found' := found;
    if s.l <= s.r {
      var f := TurnKeeps(t, kind, lo, hi, addr, s, found);
      found' := RunKeeps(t, kind, lo, hi, addr, Turn(t, kind, s), f);
    }
  }

  /** The search answers for some address k from the one sought upwards, where every address from
    * the one sought up to k is in the table if k is above it.
    */
  lemma AnswersAbove(t: seq<Stab>, kind: nat, lo: int, hi: int, addr: Address) returns (k: int)
    requires 0 <= lo <= hi + 1 && hi < |t| && Table(t, kind, lo, hi, addr)
    ensures k >= addr && (k > addr ==> forall v :: addr <= v <= k ==> Has(t, kind, lo, hi, v))
    ensures var (left, right) := Result(t, kind, Run(t, kind, Start(lo, hi, addr)));
            Answers(t, kind, lo, hi, k, left, right)
  {
    hide Has, Run;
    var s0 := Start(lo, hi, addr);
    var found := RunKeeps(t, kind, lo, hi, addr, s0, false);
    var s := Run(t, kind, s0);
    k := Sought(addr, s);
    ResultAnswers(t, kind, lo, hi, addr, s, found);
  }

  lemma ResultAnswers(t: seq<Stab>, kind: nat, lo: int, hi: int, addr: int, s: State, found: bool)
    requires Inv(t, kind, lo, hi, addr, s, found) && s.l > s.r
    ensures var (left, right) := Result(t, kind, s); Answers(t, kind, lo, hi, Sought(addr, s), left, right)
  {
  }

  /** With no entry one above the address sought, and none at it if it is the greatest address, the
    * search is the linear scan for that address.
    */
  lemma AnswersExactly(t: seq<Stab>, kind: nat, lo: int, hi: int, addr: Address)
    requires 0 <= lo <= hi + 1 && hi < |t| && Ordered(t, kind, lo, hi)
    requires !Has(t, kind, lo, hi, addr + 1) && (addr == WORD - 1 ==> !Has(t, kind, lo, hi, addr))
    ensures var (left, right) := Result(t, kind, Run(t, kind, Start(lo, hi, addr)));
            Answers(t, kind, lo, hi, addr, left, right)
  {
    hide Has, Run, Answers;
    var k := AnswersAbove(t, kind, lo, hi, addr);
  }

  /** Two neighbouring entries at addr and addr + 1: the search ends at the wrong one. */
  lemma NeighbourFound(addr: Address)
    requires addr + 2 < WORD
    ensures var t := [Stab(0, addr), Stab(0, addr + 1)];
            Result(t, 0, Run(t, 0, Start(0, 1, addr))) == (1, 1) && !Answers(t, 0, 0, 1, addr, 1, 1)
  {
    var t := [Stab(0, addr), Stab(0, addr + 1)];
    var s0 := Start(0, 1, addr);
    var s1 := State(0, 1, 0, 1, addr + 1, true);
    var s2 := State(1, 1, 0, 1, addr + 1, true);
    var s3 := State(1, 1, 1, 1, addr + 2, true);
    var s4 := State(2, 1, 1, 1, addr + 2, true);
    assert Turn(t, 0, s0) == s1;
    assert Turn(t, 0, s1) == s2;
    assert Turn(t, 0, s2) == s3;
    assert Turn(t, 0, s3) == s4;
    assert Run(t, 0, s0) == Run(t, 0, s1) == Run(t, 0, s2) == Run(t, 0, s3) == s4;
    assert Matches(t, 0, 1) && t[1].value > addr;
  }

  /** Once the address has wrapped to 0, entries above it push the right end below the range. */
  lemma {:induction false} WrappedShrinks(t: seq<Stab>, kind: nat, s: State)
    requires InTable(t, s) && s.l <= s.r && s.addr == 0 && Matches(t, kind, s.l)
    requires forall i :: s.l <= i <= s.r && Matches(t, kind, i) ==> t[i].value > 0
    ensures Run(t, kind, s).right == s.l - 1 && Run(t, kind, s).left == s.left && Run(t, kind, s).matched
    decreases s.r - s.l
  {
    hide Run;
    var m := LastIn(t, kind, s.l, (s.l + s.r) / 2);
    RunTurn(t, kind, s);
    if m > s.l {
      WrappedShrinks(t, kind, Turn(t, kind, s));
    } else {
      RunEnds(t, kind, Turn(t, kind, s));
    }
  }

  lemma {:induction false} TopShrinks(t: seq<Stab>, kind: nat, s: State, e: int)
    requires InTable(t, s) && s.l <= e <= s.r && s.addr == WORD - 1 && Ordered(t, kind, s.l, s.r)
    requires Matches(t, kind, e) && t[e].value == WORD - 1
    ensures Run(t, kind, s).right < s.r && Run(t, kind, s).matched
    decreases s.r - s.l
  {
    hide Run;
    var mid := (s.l + s.r) / 2;
    var m := LastIn(t, kind, s.l, mid);
    RunTurn(t, kind, s);
    if m >= s.l && t[m].value == s.addr {
      WrappedShrinks(t, kind, Turn(t, kind, s));
    } else {
      TopShrinks(t, kind, Turn(t, kind, s), e);
    }
  }

  /** The greatest address is answered for exactly when it is not in the table: if it is, the increment
    * wraps and the entry is lost.
    */
  lemma TopAddress(t: seq<Stab>, kind: nat, lo: int, hi: int)
    requires 0 <= lo <= hi + 1 && hi < |t| && Ordered(t, kind, lo, hi)
    ensures var (left, right) := Result(t, kind, Run(t, kind, Start(lo, hi, WORD - 1)));
            Answers(t, kind, lo, hi, WORD - 1, left, right) <==> !Has(t, kind, lo, hi, WORD - 1)
  {
    hide Run;
    if Has(t, kind, lo, hi, WORD - 1) {
      var e :| lo <= e <= hi && Matches(t, kind, e) && t[e].value == WORD - 1;
      TopShrinks(t, kind, Start(lo, hi, WORD - 1), e);
    } else {
      AnswersExactly(t, kind, lo, hi, WORD - 1);
    }
  }

  // ---- when the search is right, on every ordered table ----

  /** Halve [l, r] with the address untouched: the first entry met that has just this address, and the
    * right end of the range by then; -1 if there is no such entry.
    */
  function Hit(t: seq<Stab>, kind: nat, l: int, r: int, addr: Address): (h: (int, int))
    requires 0 <= l && r < |t|
    ensures h.0 == -1 || (l <= h.0 <= h.1 <= r && Matches(t, kind, h.0) && t[h.0].value == addr)
    decreases r - l
  {
    if l > r then (-1, r) else
    var mid := (l + r) / 2;
    var m := LastIn(t, kind, l, mid);
    if m < l || t[m].value < addr then Hit(t, kind, mid + 1, r, addr)
    else if t[m].value > addr then Hit(t, kind, l, m - 1, addr)
    else (m, r)
  }

  /** An ordered table has nothing at v from l to mid if the last entry there is below v. */
  lemma NoneBelow(t: seq<Stab>, kind: nat, l: int, mid: int, r: int, v: int)
    requires 0 <= l <= mid <= r < |t| && Ordered(t, kind, l, r)
    requires var m := LastIn(t, kind, l, mid); m < l || t[m].value < v
    ensures Has(t, kind, l, r, v) <==> Has(t, kind, mid + 1, r, v)
    ensures Ordered(t, kind, mid + 1, r)
  {
    var m := LastIn(t, kind, l, mid);
    assert m >= l ==> forall i :: l <= i < m && Matches(t, kind, i) ==> t[i].value <= t[m].value;
  }

  lemma NoneAbove(t: seq<Stab>, kind: nat, l: int, m: int, r: int, v: int)
    requires 0 <= l <= m <= r < |t| && Ordered(t, kind, l, r) && Matches(t, kind, m) && t[m].value > v
    ensures Has(t, kind, l, r, v) <==> Has(t, kind, l, m - 1, v)
    ensures Ordered(t, kind, l, m - 1)
  {
    assert forall i :: m < i <= r && Matches(t, kind, i) ==> t[i].value >= t[m].value;
  }

  lemma HitNone(t: seq<Stab>, kind: nat, l: int, r: int, addr: Address)
    requires 0 <= l && r < |t| && l > r
    ensures Hit(t, kind, l, r, addr) == (-1, r)
  {
  }

  lemma HitStep(t: seq<Stab>, kind: nat, l: int, r: int, addr: Address)
    requires 0 <= l <= r < |t|
    ensures var mid := (l + r) / 2;
            var m := LastIn(t, kind, l, mid);
            && l <= mid <= r && l - 1 <= m <= mid && (m >= l ==> Matches(t, kind, m))
            && Hit(t, kind, l, r, addr)
               == if m < l || t[m].value < addr then Hit(t, kind, mid + 1, r, addr)
                  else if t[m].value > addr then Hit(t, kind, l, m - 1, addr)
                  else (m, r)
  {
    hide LastIn, Matches;
  }

  lemma HasOne(t: seq<Stab>, kind: nat, l: int, r: int, v: int)
    ensures l > r ==> !Has(t, kind, l, r, v)
    ensures forall i :: l <= i <= r && Matches(t, kind, i) && t[i].value == v ==> Has(t, kind, l, r, v)
  {
  }

  /** Halving an ordered table finds the address exactly when it is there. */
  lemma {:induction false} HitFinds(t: seq<Stab>, kind: nat, l: int, r: int, addr: Address)
    requires 0 <= l && r < |t| && Ordered(t, kind, l, r)
    ensures Hit(t, kind, l, r, addr).0 == -1 <==> !Has(t, kind, l, r, addr)
    decreases r - l
  {
    hide LastIn, Ordered, Has, Matches, Hit;
    HasOne(t, kind, l, r, addr);
    if l > r {
      HitNone(t, kind, l, r, addr);
    } else {
      HitStep(t, kind, l, r, addr);
      var mid := (l + r) / 2;
      var m := LastIn(t, kind, l, mid);
      if m < l || t[m].value < addr {
        NoneBelow(t, kind, l, mid, r, addr);
        HitFinds(t, kind, mid + 1, r, addr);
      } else if t[m].value > addr {
        NoneAbove(t, kind, l, m, r, addr);
        HitFinds(t, kind, l, m - 1, addr);
      }
    }
  }

  lemma HitTurn(t: seq<Stab>, kind: nat, s: State)
    requires InTable(t, s) && s.l <= s.r
    ensures var s' := Turn(t, kind, s);
            if Exact(t, kind, s) then s' == Raised(s, Probe(t, kind, s))
              && Hit(t, kind, s.l, s.r, s.addr) == (Probe(t, kind, s), s.r)
            else s'.r - s'.l < s.r - s.l && Hit(t, kind, s.l, s.r, s.addr) == Hit(t, kind, s'.l, s'.r, s.addr)
  {
    hide LastIn, Measure, Matches, Hit;
    HitStep(t, kind, s.l, s.r, s.addr);
  }

  /** Until the next exact match the search is the plain halving, and keeps what it keeps. */
  lemma {:induction false} RunToHit(t: seq<Stab>, kind: nat, lo: int, hi: int, addr: int, s: State, found: bool)
    returns (p: State, found': bool)
    requires InTable(t, s) && Inv(t, kind, lo, hi, addr, s, found) && Ordered(t, kind, lo, hi)
    ensures InTable(t, p) && Inv(t, kind, lo, hi, addr, p, found') && p.addr == s.addr
    ensures var (m, r) := Hit(t, kind, s.l, s.r, s.addr);
            if m == -1 then p == Run(t, kind, s)
            else p.l <= m <= p.r == r && Run(t, kind, s) == Run(t, kind, Raised(p, m))
    decreases s.r - s.l
  {
    hide Inv, Run, Has, Turn, Exact, Measure;
    p, found' := s, found;
    if s.l > s.r {
      RunEnds(t, kind, s);
    } else {
      RunTurn(t, kind, s);
      HitTurn(t, kind, s);
      if !Exact(t, kind, s) {
        var f := MissKeeps(t, kind, lo, hi, addr, s, found);
        p, found' := RunToHit(t, kind, lo, hi, addr, Turn(t, kind, s), f);
      }
    }
  }

  /** The right end never falls below the range as it is. */
  lemma {:induction false} RightStays(t: seq<Stab>, kind: nat, s: State)
    requires InTable(t, s) && s.right == s.r >= s.l - 1
    ensures Run(t, kind, s).right >= s.l - 1 && (s.matched ==> Run(t, kind, s).matched)
    decreases Measure(t, s)
  {
    hide Run, LastIn, Matches;
    if s.l > s.r {
      RunEnds(t, kind, s);
    } else {
      RunTurn(t, kind, s);
      RightStays(t, kind, Turn(t, kind, s));
    }
  }

  /** An entry below the address at the left end stays left of the right end. */
  lemma {:induction false} PassedStays(t: seq<Stab>, kind: nat, s: State)
    requires InTable(t, s) && s.right == s.r >= s.l && Matches(t, kind, s.l) && t[s.l].value < s.addr
    ensures Run(t, kind, s).right >= s.l && (s.matched ==> Run(t, kind, s).matched)
    decreases Measure(t, s)
  {
    hide Run, LastIn;
    RunTurn(t, kind, s);
    var s' := Turn(t, kind, s);
    if s'.l == s.l {
      PassedStays(t, kind, s');
    } else {
      RightStays(t, kind, s');
    }
  }

  /** The entry with the address is met while one with the next address is still in the range. */
  ghost predicate MetTooSoon(t: seq<Stab>, kind: nat, lo: int, hi: int, addr: Address)
    requires 0 <= lo && hi < |t|
  {
    var (m, r) := Hit(t, kind, lo, hi, addr);
    m != -1 && Has(t, kind, m + 1, r, addr + 1)
  }

  /** For the last address but one the increment wraps after the next exact match, and the search ends
    * just before that entry: right by luck if the entry before it is of the kind and not above.
    */
  ghost predicate Spared(t: seq<Stab>, kind: nat, lo: int, hi: int, addr: Address)
    requires 0 <= lo && hi < |t| && addr == WORD - 2
  {
    var (m, r) := Hit(t, kind, lo, hi, addr);
    m != -1 && var k := Hit(t, kind, m, r, addr + 1).0 - 1;
    Matches(t, kind, k) && t[k].value <= addr
  }

  lemma FirstExactKeeps(t: seq<Stab>, kind: nat, lo: int, hi: int, addr: int, s: State, found: bool, m: int)
    requires Inv(t, kind, lo, hi, addr, s, found) && Ordered(t, kind, lo, hi) && s.addr == addr < WORD - 1
    requires s.l <= m <= s.r && Matches(t, kind, m) && t[m].value == s.addr
    ensures Inv(t, kind, lo, hi, addr, Raised(s, m), true)
  {
    assert Has(t, kind, lo, hi, s.addr);
  }

  lemma InvOrdered(t: seq<Stab>, kind: nat, lo: int, hi: int, addr: int, s: State, found: bool)
    requires Inv(t, kind, lo, hi, addr, s, found) && Ordered(t, kind, lo, hi)
    ensures InTable(t, s) && Ordered(t, kind, s.l, s.r)
  {
  }

  lemma StartKept(t: seq<Stab>, kind: nat, lo: int, hi: int, addr: Address)
    requires 0 <= lo <= hi + 1 && hi < |t|
    ensures Inv(t, kind, lo, hi, addr, Start(lo, hi, addr), false)
  {
  }

  lemma NotAfter(t: seq<Stab>, kind: nat, m: int, r: int, addr: int)
    requires Matches(t, kind, m) && t[m].value == addr && m <= r
    ensures Has(t, kind, m, r, addr + 1) <==> Has(t, kind, m + 1, r, addr + 1)
  {
  }

  lemma SoughtIs(t: seq<Stab>, kind: nat, lo: int, hi: int, addr: int, s: State, found: bool)
    requires Inv(t, kind, lo, hi, addr, s, found) && s.l > s.r && s.addr <= addr + 1
    ensures var (left, right) := Result(t, kind, s); Answers(t, kind, lo, hi, addr, left, right)
  {
    hide Answers, Inv, Result;
    AddrFrom(t, kind, lo, hi, addr, s, found);
    ResultAnswers(t, kind, lo, hi, addr, s, found);
  }

  lemma AddrFrom(t: seq<Stab>, kind: nat, lo: int, hi: int, addr: int, s: State, found: bool)
    requires Inv(t, kind, lo, hi, addr, s, found)
    ensures addr <= s.addr && lo <= s.l && s.right == s.r <= hi
  {
  }

  /** Met once, or not at all, the search answers for the address. */
  lemma MetOnceAnswers(t: seq<Stab>, kind: nat, lo: int, hi: int, addr: Address)
    requires 0 <= lo <= hi + 1 && hi < |t| && Ordered(t, kind, lo, hi) && addr < WORD - 1
    requires !MetTooSoon(t, kind, lo, hi, addr)
    ensures var (left, right) := Result(t, kind, Run(t, kind, Start(lo, hi, addr)));
            Answers(t, kind, lo, hi, addr, left, right)
  {
    hide Inv, Has, Answers, Result, Run, Hit, Ordered;
    var s := Start(lo, hi, addr);
    StartKept(t, kind, lo, hi, addr);
    var p, found := RunToHit(t, kind, lo, hi, addr, s, false);
    var (m, r) := Hit(t, kind, lo, hi, addr);
    if m == -1 {
      SoughtIs(t, kind, lo, hi, addr, p, found);
    } else {
      FirstExactKeeps(t, kind, lo, hi, addr, p, found, m);
      InvOrdered(t, kind, lo, hi, addr, Raised(p, m), true);
      NotAfter(t, kind, m, r, addr);
      HitFinds(t, kind, m, r, addr + 1);
      var q, f := RunToHit(t, kind, lo, hi, addr, Raised(p, m), true);
      SoughtIs(t, kind, lo, hi, addr, q, f);
    }
  }

  /** Met too soon, the search meets an entry with the next address too, and raises the address again. */
  lemma MetTwice(t: seq<Stab>, kind: nat, lo: int, hi: int, addr: Address) returns (q: State, k: int)
    requires 0 <= lo <= hi + 1 && hi < |t| && Ordered(t, kind, lo, hi) && addr < WORD - 1
    requires MetTooSoon(t, kind, lo, hi, addr)
    ensures InTable(t, q) && lo <= q.l <= k <= q.r == q.right <= hi && q.addr == addr + 1
    ensures Matches(t, kind, k) && t[k].value == addr + 1
    ensures var (m, r) := Hit(t, kind, lo, hi, addr); m != -1 && k == Hit(t, kind, m, r, addr + 1).0
    ensures Run(t, kind, Start(lo, hi, addr)) == Run(t, kind, Raised(q, k))
  {
    hide Inv, Has, Run, Hit, Ordered;
    StartKept(t, kind, lo, hi, addr);
    var p, found := RunToHit(t, kind, lo, hi, addr, Start(lo, hi, addr), false);
    var (m, r) := Hit(t, kind, lo, hi, addr);
    FirstExactKeeps(t, kind, lo, hi, addr, p, found, m);
    InvOrdered(t, kind, lo, hi, addr, Raised(p, m), true);
    NotAfter(t, kind, m, r, addr);
    HitFinds(t, kind, m, r, addr + 1);
    var f;
    q, f := RunToHit(t, kind, lo, hi, addr, Raised(p, m), true);
    k := Hit(t, kind, m, r, addr + 1).0;
    AddrFrom(t, kind, lo, hi, addr, q, f);
  }

  lemma MetTwiceFails(t: seq<Stab>, kind: nat, lo: int, hi: int, addr: Address)
    requires 0 <= lo <= hi + 1 && hi < |t| && Ordered(t, kind, lo, hi) && addr < WORD - 2
    requires MetTooSoon(t, kind, lo, hi, addr)
    ensures var (left, right) := Result(t, kind, Run(t, kind, Start(lo, hi, addr)));
            !Answers(t, kind, lo, hi, addr, left, right)
  {
    hide Has, Run, Hit, Ordered, LastIn;
    var q, k := MetTwice(t, kind, lo, hi, addr);
    PassedStays(t, kind, Raised(q, k));
    assert t[k].value > addr;
  }

  lemma MetTwiceWraps(t: seq<Stab>, kind: nat, lo: int, hi: int)
    requires 0 <= lo <= hi + 1 && hi < |t| && Ordered(t, kind, lo, hi)
    requires MetTooSoon(t, kind, lo, hi, WORD - 2)
    ensures var (left, right) := Result(t, kind, Run(t, kind, Start(lo, hi, WORD - 2)));
            Answers(t, kind, lo, hi, WORD - 2, left, right) <==> Spared(t, kind, lo, hi, WORD - 2)
  {
    hide Has, Run, Hit, LastIn, MetTooSoon;
    var q, k := MetTwice(t, kind, lo, hi, WORD - 2);
    WrappedShrinks(t, kind, Raised(q, k));
    assert Result(t, kind, Run(t, kind, Start(lo, hi, WORD - 2))) == (k - 1, k - 1);
    assert forall i :: k <= i <= hi && Matches(t, kind, i) ==> t[i].value >= WORD - 1;
    assert Matches(t, kind, k - 1) && lo <= k - 1 ==> forall i :: lo <= i < k && Matches(t, kind, i) ==>
      t[i].value <= t[k - 1].value;
  }

  /** On every ordered table, for every address: the search answers as the linear scan does exactly when
    * it does not meet the address too soon, and, for the greatest address, when that is not in the table.
    */
  lemma AnswersIff(t: seq<Stab>, kind: nat, lo: int, hi: int, addr: Address)
    requires 0 <= lo <= hi + 1 && hi < |t| && Ordered(t, kind, lo, hi)
    ensures var (left, right) := Result(t, kind, Run(t, kind, Start(lo, hi, addr)));
            Answers(t, kind, lo, hi, addr, left, right)
            <==> if addr == WORD - 1 then !Has(t, kind, lo, hi, addr)
                 else !MetTooSoon(t, kind, lo, hi, addr) || (addr == WORD - 2 && Spared(t, kind, lo, hi, addr))
  {
    hide Has, Run, Hit, Ordered, Answers, Result, MetTooSoon, Spared;
    if addr == WORD - 1 {
      TopAddress(t, kind, lo, hi);
    } else if !MetTooSoon(t, kind, lo, hi, addr) {
      MetOnceAnswers(t, kind, lo, hi, addr);
    } else if addr < WORD - 2 {
      MetTwiceFails(t, kind, lo, hi, addr);
    } else {
      MetTwiceWraps(t, kind, lo, hi);
    }
  }

  // ---- tables without repeated addresses ----

  /** The first entry that halving [l, r] meets at the address or one above it, or -1. */
  function FirstProbe(t: seq<Stab>, kind: nat, l: int, r: int, addr: Address): (p: int)
    requires 0 <= l && r < |t|
    ensures p == -1 || (l <= p <= r && addr <= t[p].value <= addr + 1)
    decreases r - l
  {
    if l > r then -1 else
    var mid := (l + r) / 2;
    var m := LastIn(t, kind, l, mid);
    if m < l || t[m].value < addr then FirstProbe(t, kind, mid + 1, r, addr)
    else if t[m].value > addr + 1 then FirstProbe(t, kind, l, m - 1, addr)
    else m
  }

  ghost predicate LowerFirst(t: seq<Stab>, kind: nat, l: int, r: int, addr: Address)
    requires 0 <= l && r < |t|
  {
    && Has(t, kind, l, r, addr) && Has(t, kind, l, r, addr + 1)
    && FirstProbe(t, kind, l, r, addr) != -1 && t[FirstProbe(t, kind, l, r, addr)].value == addr
  }

  lemma ProbeStep(t: seq<Stab>, kind: nat, l: int, r: int, addr: Address)
    requires 0 <= l <= r < |t|
    ensures var mid := (l + r) / 2;
            var m := LastIn(t, kind, l, mid);
            FirstProbe(t, kind, l, r, addr)
            == if m < l || t[m].value < addr then FirstProbe(t, kind, mid + 1, r, addr)
               else if t[m].value > addr + 1 then FirstProbe(t, kind, l, m - 1, addr)
               else m
  {
    hide LastIn, Matches;
  }

  lemma StrictParts(t: seq<Stab>, kind: nat, l: int, r: int, i: int, j: int)
    requires Strict(t, kind, l, r)
    ensures Ordered(t, kind, l, r)
    ensures l <= i && j <= r ==> Strict(t, kind, i, j)
  {
  }

  /** An address stands once: none of its kind before it, and the next address only after it. */
  lemma StandsOnce(t: seq<Stab>, kind: nat, l: int, r: int, i: int)
    requires Strict(t, kind, l, r) && l <= i <= r && Matches(t, kind, i)
    ensures Has(t, kind, l, r, t[i].value) && !Has(t, kind, l, i - 1, t[i].value)
    ensures Has(t, kind, l, r, t[i].value + 1) <==> Has(t, kind, i + 1, r, t[i].value + 1)
    ensures Has(t, kind, l, r, t[i].value - 1) <==> Has(t, kind, l, i - 1, t[i].value - 1)
  {
  }

  lemma TooSoonStep(t: seq<Stab>, kind: nat, l: int, r: int, addr: Address)
    requires 0 <= l <= r < |t|
    ensures var m := LastIn(t, kind, l, (l + r) / 2);
            MetTooSoon(t, kind, l, r, addr)
            <==> if m < l || t[m].value < addr then MetTooSoon(t, kind, (l + r) / 2 + 1, r, addr)
                 else if t[m].value > addr then MetTooSoon(t, kind, l, m - 1, addr)
                 else Has(t, kind, m + 1, r, addr + 1)
  {
    hide LastIn, Matches, Has, Hit;
    HitStep(t, kind, l, r, addr);
  }

  lemma LowerStep(t: seq<Stab>, kind: nat, l: int, r: int, addr: Address)
    requires 0 <= l <= r < |t| && Strict(t, kind, l, r)
    ensures var m := LastIn(t, kind, l, (l + r) / 2);
            LowerFirst(t, kind, l, r, addr)
            <==> if m < l || t[m].value < addr then LowerFirst(t, kind, (l + r) / 2 + 1, r, addr)
                 else if t[m].value > addr then LowerFirst(t, kind, l, m - 1, addr)
                 else Has(t, kind, m + 1, r, addr + 1)
  {
    hide LastIn, Matches, Has, Hit, FirstProbe, Strict, Ordered;
    HitStep(t, kind, l, r, addr);
    ProbeStep(t, kind, l, r, addr);
    StrictParts(t, kind, l, r, l, r);
    var mid := (l + r) / 2;
    var m := LastIn(t, kind, l, mid);
    if m < l || t[m].value < addr {
      NoneBelow(t, kind, l, mid, r, addr);
      NoneBelow(t, kind, l, mid, r, addr + 1);
    } else if t[m].value > addr + 1 {
      NoneAbove(t, kind, l, m, r, addr);
      NoneAbove(t, kind, l, m, r, addr + 1);
    } else {
      StandsOnce(t, kind, l, r, m);
    }
  }

  lemma {:induction false} TooSoonIsLowerFirst(t: seq<Stab>, kind: nat, l: int, r: int, addr: Address)
    requires 0 <= l && r < |t| && Strict(t, kind, l, r)
    ensures MetTooSoon(t, kind, l, r, addr) <==> LowerFirst(t, kind, l, r, addr)
    decreases r - l
  {
    hide LastIn, Strict, Has, Matches, MetTooSoon, LowerFirst;
    if l > r {
      NothingThere(t, kind, l, r, addr);
    } else {
      TooSoonStep(t, kind, l, r, addr);
      LowerStep(t, kind, l, r, addr);
      var mid := (l + r) / 2;
      var m := LastIn(t, kind, l, mid);
      if m < l || t[m].value < addr {
        StrictParts(t, kind, l, r, mid + 1, r);
        TooSoonIsLowerFirst(t, kind, mid + 1, r, addr);
      } else if t[m].value > addr {
        StrictParts(t, kind, l, r, l, m - 1);
        TooSoonIsLowerFirst(t, kind, l, m - 1, addr);
      }
    }
  }

  lemma NothingThere(t: seq<Stab>, kind: nat, l: int, r: int, addr: Address)
    requires 0 <= l && r < |t| && l > r
    ensures !MetTooSoon(t, kind, l, r, addr) && !LowerFirst(t, kind, l, r, addr)
  {
    HitNone(t, kind, l, r, addr);
  }

  /** Without repeated addresses and without a wrap: the search answers as the linear scan does unless the
    * address and the next one are both in the table and halving meets the lower of them first.
    */
  lemma AnswersUnlessLowerFirst(t: seq<Stab>, kind: nat, lo: int, hi: int, addr: Address)
    requires 0 <= lo <= hi + 1 && hi < |t| && Strict(t, kind, lo, hi) && NoWrap(t, kind, lo, hi, addr)
    ensures var (left, right) := Result(t, kind, Run(t, kind, Start(lo, hi, addr)));
            Answers(t, kind, lo, hi, addr, left, right)
            <==> !(&& Has(t, kind, lo, hi, addr) && Has(t, kind, lo, hi, addr + 1)
                   && FirstProbe(t, kind, lo, hi, addr) != -1 && t[FirstProbe(t, kind, lo, hi, addr)].value == addr)
  {
    hide Has, Run, Hit, Ordered, Strict, Answers, Result, MetTooSoon, Spared, FirstProbe;
    StrictParts(t, kind, lo, hi, lo, hi);
    AnswersIff(t, kind, lo, hi, addr);
    if addr < WORD - 1 {
      TooSoonIsLowerFirst(t, kind, lo, hi, addr);
    }
  }
}
