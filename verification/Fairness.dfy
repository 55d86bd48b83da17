/**
 * Nobody starves in any run of the process life cycle (src/process/process.rs, src/process/mod.rs): however processes
 * fork, exit and sleep meanwhile, a process that stays ready is passed over fewer times than there are pids.
 */
module Fairness {
  import opened Basics
  import opened Scheduler
  import opened Processes
  import opened ProcessRuns

  /** The dispatches among steps i to n. */
  function Dispatches(steps: seq<Step>, i: nat, n: nat): nat
    requires i <= n <= |steps|
    decreases n
  {
    if i == n then 0 else Dispatches(steps, i, n - 1) + if steps[n - 1].Dispatch? then 1 else 0
  }

  /** u exists and is ready in all states from i to n. */
  ghost predicate StaysReady(states: seq<State>, i: nat, n: nat, u: nat) {
    n < |states| && forall k :: i <= k <= n ==> u in states[k].procs && states[k].procs[u].status == Ready
  }

  /** A larger limit does not change the choice. */
  lemma NearestForAnyLimit(ready: set<nat>, prev: nat, limit: nat, more: nat, pid: nat)
    requires InLimit(ready, prev, limit) && limit <= more && Nearest(ready, prev, limit, pid)
    ensures InLimit(ready, prev, more) && Nearest(ready, prev, more, pid)
  {
    forall q | q in ready ensures Distance(prev, pid, more) <= Distance(prev, q, more) {
      assert Distance(prev, pid, limit) <= Distance(prev, q, limit);
    }
  }

  lemma PidKept(s: State, step: Step, t: State, u: nat)
    requires Inv(s) && Takes(s, step, t) && u in s.procs && u in t.procs
    ensures t.procs[u].pid == s.procs[u].pid
  {
    hide ListOk, PidsOk, QueueOk, CpuOk, DeliveredOk, InitOk, NextPid, AfterAlloc, Existing, FirstZombie, Reversed;
    Parent(s, u);
  }

  lemma Clock(s: State, step: Step, t: State)
    requires Takes(s, step, t)
    ensures s.pids.max <= t.pids.max
    ensures if step.Dispatch? then step.u in s.procs && t.prev == s.procs[step.u].pid else t.prev == s.prev
  {
    hide NextPid, Existing, FirstZombie, Woken, ReadyPids, Nearest;
  }

  lemma ReadyInLimit(s: State)
    requires Inv(s)
    ensures InLimit(ReadyPids(s), s.prev, s.pids.max)
  {
    hide TreeOk, QueueOk, CpuOk, DeliveredOk, InitOk, NoDup;
  }

  /**
   * One step that does not run u: a dispatch brings the scheduler closer to it, anything else leaves it where it was.
   */
  lemma PassedBy(s: State, step: Step, t: State, u: nat, limit: nat)
    requires Inv(s) && Takes(s, step, t) && u in s.procs && u in t.procs
    requires s.procs[u].status == Ready && t.procs[u].status == Ready && t.pids.max <= limit
    ensures Distance(t.prev, t.procs[u].pid, limit)
        + (if step.Dispatch? then 1 else 0) <= Distance(s.prev, s.procs[u].pid, limit)
    ensures 1 <= Distance(t.prev, t.procs[u].pid, limit) && Distance(s.prev, s.procs[u].pid, limit) <= limit
  {
    hide Takes, Inv, Nearest;
    PidKept(s, step, t, u);
    Clock(s, step, t);
    ReadyInLimit(s);
    assert s.procs[u].pid in ReadyPids(s);
    if step.Dispatch? {
      var v := step.u;
      DispatchedOther(s, step, t, u);
      NearestForAnyLimit(ReadyPids(s), s.prev, s.pids.max, limit, s.procs[v].pid);
      CloserEveryTime(ReadyPids(s), s.prev, limit, s.procs[v].pid, s.procs[u].pid);
    }
  }

  lemma DispatchedOther(s: State, step: Step, t: State, u: nat)
    requires Inv(s) && Takes(s, step, t) && step.Dispatch? && u in s.procs && u in t.procs && t.procs[u].status == Ready
    ensures step.u in s.procs && step.u != u && s.procs[step.u].pid != s.procs[u].pid
    ensures Nearest(ReadyPids(s), s.prev, s.pids.max, s.procs[step.u].pid)
  {
    hide TreeOk, QueueOk, CpuOk, DeliveredOk, InitOk, PidsOk, Nearest;
  }

  lemma {:induction false} Approaches(states: seq<State>, steps: seq<Step>, i: nat, n: nat, u: nat, limit: nat)
    requires IsRun(states, steps) && i < n && StaysReady(states, i, n, u) && states[n].pids.max <= limit
    ensures Dispatches(steps, i, n) + Distance(states[n].prev, states[n].procs[u].pid, limit) <= limit
    ensures Dispatches(steps, i, n) + Distance(states[n].prev, states[n].procs[u].pid, limit)
            <= Distance(states[i].prev, states[i].procs[u].pid, limit)
    ensures 1 <= Distance(states[n].prev, states[n].procs[u].pid, limit)
    decreases n
  {
    hide Takes, Inv, Distance;
    var s, step, t := states[n - 1], steps[n - 1], states[n];
    RunInv(states, steps, n - 1);
    assert Takes(s, step, t);
    Clock(s, step, t);
    PassedBy(s, step, t, u, limit);
    if i < n - 1 { Approaches(states, steps, i, n - 1, u, limit); }
  }

  /** While a process stays ready, fewer dispatches happen than the allocator has ever handed out pids. */
  lemma NobodyStarves(states: seq<State>, steps: seq<Step>, i: nat, n: nat, u: nat)
    requires IsRun(states, steps) && i <= n && StaysReady(states, i, n, u)
    ensures Dispatches(steps, i, n) < states[n].pids.max
  {
    hide Takes, Inv, Distance;
    RunInv(states, steps, n);
    if i < n {
      Approaches(states, steps, i, n, u, states[n].pids.max);
    } else {
      SomePid(states[n], u);
    }
  }

  lemma SomePid(s: State, u: nat)
    requires Inv(s) && u in s.procs
    ensures s.pids.max >= 1
  {
    hide TreeOk, QueueOk, CpuOk, DeliveredOk, InitOk, NoDup;
  }
}
