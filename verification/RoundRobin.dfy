/** The round-robin scheduler over a fixed process list (lab4/kern/schedule/sched.c). Position 0 is
  * the list head and stands for the idle process; positions 1 to n are the processes in list order.
  */
module RoundRobin {

  /** The next place on the ring of head and processes. */
  function NextPos(n: nat, pos: nat): (r: nat)
    requires pos <= n
    ensures r <= n
  {
    if pos < n then pos + 1 else 0
  }

  predicate Ready(runnable: seq<bool>, pos: nat) {
    0 < pos <= |runnable| && runnable[pos - 1]
  }

  /** The first ready process within k steps after pos, else the idle process. */
  function PickFrom(runnable: seq<bool>, pos: nat, k: nat): (r: nat)
    requires pos <= |runnable|
    ensures r == 0 || Ready(runnable, r)
    decreases k
  {
    if k == 0 then 0 else
    var p := NextPos(|runnable|, pos);
    if Ready(runnable, p) then p else PickFrom(runnable, p, k - 1)
  }

  /** The choice when the process at `last` runs: one full turn of the ring. */
  function Pick(runnable: seq<bool>, last: nat): (r: nat)
    requires last <= |runnable|
    ensures r == 0 || Ready(runnable, r)
  {
    PickFrom(runnable, last, |runnable| + 1)
  }

  datatype State = Uninit | Sleeping | Runnable | Zombie

  class Proc {
    var state: State
    var runs: int
    var needResched: bool

    constructor (state: State)
      ensures this.state == state && runs == 0 && !needResched
    {
      this.state, runs, needResched := state, 0, false;
    }
  }

  ghost function RunnableOf(procs: seq<Proc>): seq<bool>
    reads procs
  {
    seq(|procs|, i requires 0 <= i < |procs| reads procs => procs[i].state.Runnable?)
  }

  class Scheduler {
    const procs: seq<Proc>
    const idle: Proc
    /** The list position of the running process. */
    var current: nat

    ghost predicate Valid()
      reads this
    {
      && current <= |procs| && idle !in procs
      && forall i, j :: 0 <= i < j < |procs| ==> procs[i] != procs[j]
    }

    constructor (procs: seq<Proc>, idle: Proc)
      requires idle !in procs && forall i, j :: 0 <= i < j < |procs| ==> procs[i] != procs[j]
      ensures Valid() && this.procs == procs && this.idle == idle && current == 0
    {
      this.procs, this.idle, current := procs, idle, 0;
    }

    function At(pos: nat): Proc
      requires pos <= |procs|
    {
      if pos == 0 then idle else procs[pos - 1]
    }

    /** Walk the ring from the running process until a runnable one is met; at most once round. */
    method FindNext(ghost runnable: seq<bool>) returns (next: nat)
      requires current <= |procs| && |runnable| == |procs|
      requires forall i :: 0 <= i < |procs| ==> runnable[i] == procs[i].state.Runnable?
      ensures next == Pick(runnable, current)
    {
      hide Around, PickFrom, Pick, NextPos;
      FromStart(runnable, current);
      var n, last := |procs|, current;
      var le, steps := last, 0;
      next := 0;
      var going := true;
      while going
        invariant le <= n && next <= n && steps <= n + 1
        invariant le == Around(n, last, steps) && (steps > 0 && le != 0 ==> next == le)
        invariant going ==> steps <= n && Pick(runnable, last) == PickFrom(runnable, le, n + 1 - steps)
        invariant !going ==> Pick(runnable, last) == if next > 0 && Ready(runnable, next) then next else 0
        invariant going && next > 0 ==> !Ready(runnable, next)
        decreases n + 1 - steps, going
      {
        ScanOn(runnable, last, le, steps);
        le, steps := NextPos(n, le), steps + 1;
        if le != 0 {
          next := le;
        }
        if le != 0 && At(next).state.Runnable? {
          going := false;
        } else if le == last {
          OnceRound(n, last, steps);
          going := false;
        } else {
          NotYetRound(n, last, steps);
        }
      }
      if next == 0 || !At(next).state.Runnable? {
        next := 0;
      }
    }

    /** schedule: the request to reschedule is taken from the process that ran; the chosen process is counted
      * and becomes the running one; nothing becomes runnable or stops being so.
      */
    method Schedule()
      requires Valid()
      modifies this, procs, idle
      ensures Valid() && current == Pick(old(RunnableOf(procs)), old(current))
      ensures forall p :: p in procs || p == idle ==> p.state == old(p.state)
      ensures forall i :: 0 <= i <= |procs| ==>
        && At(i).runs == (if i != current then old(At(i).runs)
                          else if old(At(i).runs) == 0x7fff_ffff then -0x8000_0000 else old(At(i).runs) + 1)
        && At(i).needResched == (i != old(current) && old(At(i).needResched))
    {
      hide Pick;
      ghost var runnable := RunnableOf(procs);
      At(current).needResched := false;
      var next := FindNext(runnable);
      CountRun(next);
    }

    method CountRun(next: nat)
      requires Valid() && next <= |procs|
      modifies this, procs, idle
      ensures Valid() && current == next && forall p :: p in procs || p == idle ==> p.state == old(p.state)
      ensures forall i :: 0 <= i <= |procs| ==>
        && At(i).runs == (if i != next then old(At(i).runs)
                          else if old(At(i).runs) == 0x7fff_ffff then -0x8000_0000 else old(At(i).runs) + 1)
        && At(i).needResched == old(At(i).needResched)
    {
      At(next).runs := if At(next).runs == 0x7fff_ffff then -0x8000_0000 else At(next).runs + 1;
      current := next;
    }
  }

  lemma FromStart(runnable: seq<bool>, pos: nat)
    requires pos <= |runnable|
    ensures Around(|runnable|, pos, 0) == pos && Pick(runnable, pos) == PickFrom(runnable, pos, |runnable| + 1)
  {
  }

  /** One step of the walk. */
  lemma ScanOn(runnable: seq<bool>, last: nat, le: nat, steps: nat)
    requires last <= |runnable| && steps <= |runnable| && le == Around(|runnable|, last, steps)
    ensures var p := NextPos(|runnable|, le);
            && p == Around(|runnable|, last, steps + 1)
            && PickFrom(runnable, le, |runnable| + 1 - steps)
               == (if Ready(runnable, p) then p else PickFrom(runnable, p, |runnable| - steps))
            && PickFrom(runnable, p, 0) == 0
  {
  }

  /** The place k steps after pos. */
  function Around(n: nat, pos: nat, k: nat): (r: nat)
    requires pos <= n
    ensures r <= n
  {
    if k == 0 then pos else NextPos(n, Around(n, pos, k - 1))
  }

  lemma {:induction false} AroundIs(n: nat, pos: nat, k: nat)
    requires pos <= n && k <= n + 1
    ensures Around(n, pos, k) == if pos + k <= n then pos + k else pos + k - n - 1
  {
    if k > 0 {
      AroundIs(n, pos, k - 1);
    }
  }

  lemma OnceRound(n: nat, pos: nat, k: nat)
    requires pos <= n && 0 < k <= n + 1 && Around(n, pos, k) == pos
    ensures k == n + 1
  {
    AroundIs(n, pos, k);
  }

  lemma NotYetRound(n: nat, pos: nat, k: nat)
    requires pos <= n && 0 < k <= n + 1 && Around(n, pos, k) != pos
    ensures k <= n
  {
    AroundIs(n, pos, k);
  }

  // ---- fairness ----

  /** How many processes lie on the way from one position to another, the last one counted. */
  function Rank(n: nat, from: nat, to: nat): (r: int)
    requires from <= n && 0 < to <= n
    ensures 1 <= r <= n
  {
    if from < to then to - from else n + to - from
  }

  /** A ready process is either picked or comes nearer. */
  lemma Nearer(runnable: seq<bool>, last: nat, p: nat)
    requires last <= |runnable| && 0 < p <= |runnable| && runnable[p - 1]
    ensures var r := Pick(runnable, last);
            r != 0 && r <= |runnable|
            && (r == p || Rank(|runnable|, r, p) < Rank(|runnable|, last, p))
  {
    PickBefore(runnable, last, |runnable| + 1, p, last);
  }

  /** Scanning k steps from pos, with p still ahead, stops at p or before it. */
  lemma {:induction false} PickBefore(runnable: seq<bool>, pos: nat, k: nat, p: nat, last: nat)
    requires pos <= |runnable| && last <= |runnable| && Ready(runnable, p) && k <= |runnable| + 1
    requires pos == Around(|runnable|, last, |runnable| + 1 - k)
    requires k >= (if pos < p then p - pos else |runnable| + 1 + p - pos)
    requires k <= |runnable| ==> pos == 0 || Rank(|runnable|, pos, p) < Rank(|runnable|, last, p)
    requires k <= |runnable| && pos == 0 ==> p <= Rank(|runnable|, last, p)
    ensures var r := PickFrom(runnable, pos, k);
            r != 0 && r <= |runnable| && (r == p || Rank(|runnable|, r, p) < Rank(|runnable|, last, p))
    decreases k
  {
    var n := |runnable|;
    var q := NextPos(n, pos);
    AroundIs(n, last, n + 1 - k);
    if !Ready(runnable, q) {
      assert Around(n, last, n + 1 - (k - 1)) == NextPos(n, Around(n, last, n + 1 - k));
      PickBefore(runnable, q, k - 1, p, last);
    }
  }

  /** The positions that run after each of a series of calls, whatever is runnable at each of them. */
  function Runs(states: seq<seq<bool>>, n: nat, last: nat): (r: seq<nat>)
    requires last <= n && forall i :: 0 <= i < |states| ==> |states[i]| == n
    ensures |r| == |states|
  {
    if states == [] then [] else
    var p := Pick(states[0], last);
    [p] + Runs(states[1..], n, p)
  }

  /** A process that stays ready is run within as many calls as there are processes ahead of it. */
  lemma {:induction false} RunsWithinRank(states: seq<seq<bool>>, n: nat, last: nat, p: nat)
    requires last <= n && 0 < p <= n && forall i :: 0 <= i < |states| ==> |states[i]| == n && states[i][p - 1]
    requires |states| >= Rank(n, last, p)
    ensures p in Runs(states, n, last)
    decreases |states|
  {
    Nearer(states[0], last, p);
    var r := Pick(states[0], last);
    if r == p {
      assert Runs(states, n, last)[0] == p;
    } else {
      RunsWithinRank(states[1..], n, r, p);
      assert forall x :: x in Runs(states[1..], n, r) ==> x in Runs(states, n, last);
    }
  }

  /** So among as many calls as there are processes, none that stays ready is left out. */
  lemma RoundRobinFair(states: seq<seq<bool>>, n: nat, last: nat, p: nat)
    requires last <= n && 0 < p <= n && |states| == n
    requires forall i :: 0 <= i < |states| ==> |states[i]| == n && states[i][p - 1]
    ensures p in Runs(states, n, last)
  {
    RunsWithinRank(states, n, last, p);
  }

  /** The idle process runs exactly when no process in the list is ready. */
  lemma IdleOnlyAlone(runnable: seq<bool>, last: nat)
    requires last <= |runnable|
    ensures Pick(runnable, last) == 0 <==> forall i :: 0 <= i < |runnable| ==> !runnable[i]
  {
    if i :| 0 <= i < |runnable| && runnable[i] {
      Nearer(runnable, last, i + 1);
    }
  }
}
