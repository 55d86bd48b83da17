/**
 * The process manager with its fields updated in place (src/process/process.rs, src/process/pid.rs): every operation
 * takes exactly the step of the transition system that is named after it.
 */
module ProcessManagers {
  import opened Basics
  import opened Scheduler
  import opened Processes
  import opened ProcessExits
  import opened StepEffects

  /** RecycleAllocator. */
  class PidAllocator {
    var max: nat
    var free: seq<nat>

    function Value(): Pids
      reads this
    {
      Pids(max, free)
    }

    constructor ()
      ensures Value() == Pids(0, [])
    {
      max, free := 0, [];
    }

    method Alloc() returns (id: nat)
      modifies this
      ensures id == NextPid(old(Value())) && Value() == AfterAlloc(old(Value()))
    {
      if |free| > 0 {
        id := free[|free| - 1];
        free := free[..|free| - 1];
      } else {
        max := max + 1;
        id := max;
      }
    }

    /** Giving back an id that was never handed out, or twice, stops the kernel. */
    method Free(id: nat) returns (r: Outcome<()>)
      modifies this
      ensures r.Done? <==> id <= old(max) && id !in old(free)
      ensures r.Done? ==> Value() == old(Value()).(free := old(free) + [id])
    {
      if id > max || id in free {
        return Panicked(AssertFailed);
      }
      free := free + [id];
      r := Done(());
    }
  }

  class ProcessManager {
    var procs: map<nat, Proc>
    var list: map<nat, nat>
    var prev: nat
    var current: Option<nat>
    var nextId: nat
    const pids: PidAllocator
    ghost var init: nat
    ghost var peak: nat
    ghost var delivered: seq<nat>
    ghost var keeper: map<nat, nat>

    ghost function Now(): State
      reads this, pids
    {
      State(procs, list, pids.Value(), prev, current, init, nextId, peak, delivered, keeper)
    }

    /** process::init. */
    constructor ()
      ensures Now() == Boot() && Inv(Now()) && fresh(pids)
    {
      pids := new PidAllocator();
      procs, list, prev, current, nextId := map[], map[], 0, None, 0;
      init, peak, delivered, keeper := 0, 0, [], map[];
      new;
      BootInv();
      var u := Spawn();
    }

    method Spawn() returns (u: nat)
      modifies this, pids
      ensures u == old(nextId) && Now() == Spawned(old(Now()))
    {
      peak := Max(peak, |procs| + 1);
      var pid := pids.Alloc();
      u := nextId;
      procs := procs[u := Proc(pid, Ready, 0, [], [], None)];
      list := list[pid := u];
      nextId := nextId + 1;
    }

    /** The part of the worker that picks a process and hands it the hart. */
    method Dispatch() returns (r: Option<nat>)
      requires Inv(Now()) && current.None?
      modifies this
      ensures Inv(Now())
      ensures r.Some? ==> Takes(old(Now()), Step.Dispatch(r.value), Now())
      ensures r.None? ==> Now() == old(Now()) && forall u :: u in procs ==> procs[u].status != Ready
    {
      hide TreeOk, InitOk, QueueOk, DeliveredOk, Nearest;
      ghost var s := Now();
      var ready := set u | u in procs && procs[u].status == Ready :: procs[u].pid;
      assert ready == ReadyPids(s);
      forall u | u in procs && procs[u].status == Ready ensures procs[u].pid in ready {}
      assert InLimit(ready, prev, pids.max);
      var choice := Choose(ready, prev, pids.max);
      match choice
      case None =>
        r := None;
      case Some(pid) =>
        ChosenIsReady(s, pid);
        var u := list[pid];
        prev := pid;
        procs := procs[u := procs[u].(status := Running)];
        current := Some(u);
        r := Some(u);
        assert Now() == Dispatched(s, u);
        DispatchInv(s, u);
    }

    method Yield()
      requires HasCurrent(Now())
      modifies this
      ensures Now() == Yielded(old(Now()))
    {
      var u := current.value;
      if procs[u].status == Running {
        procs := procs[u := procs[u].(status := Ready)];
      } else {
        assert procs == procs[u := procs[u]];
      }
      current := None;
    }

    /** clone: fork, then the parent yields. */
    method Fork() returns (child: nat)
      requires Inv(Now()) && HasCurrent(Now())
      modifies this, pids
      ensures Inv(Now()) && Now() == Forked(old(Now()))
      ensures child == NextPid(old(pids.Value())) && child !in old(list)
    {
      hide TreeOk, InitOk, QueueOk, DeliveredOk, CpuOk, NoDup;
      ghost var s := Now();
      ForkInv(s);
      Begets(s);
      NextPidIsNew(s);
      var u := current.value;
      var c := Spawn();
      procs := procs[u := procs[u].(children := procs[u].children + [c])];
      keeper := keeper[c := u];
      child := procs[c].pid;
      assert Now() == Begotten(s);
      Yield();
    }

    /** The loop of exit that moves the children of u, last first, to the process i. */
    method Reparent(u: nat, i: nat)
      requires u in procs && i in procs && u != i
      modifies this`procs
      ensures procs == old(procs)[u := old(procs[u]).(children := [])]
                                 [i := old(procs[i]).(children := old(procs[i]).children
                                     + Reversed(old(procs[u]).children))]
    {
      ghost var all := procs[i].children + Reversed(procs[u].children);
      while procs[u].children != []
        invariant u in procs && i in procs
        invariant procs == old(procs)[u := old(procs[u]).(children := procs[u].children)]
                                     [i := old(procs[i]).(children := procs[i].children)]
        invariant procs[i].children + Reversed(procs[u].children) == all
        decreases |procs[u].children|
      {
        var kids := procs[u].children;
        var child := kids[|kids| - 1];
        procs := procs[u := procs[u].(children := kids[..|kids| - 1])][i := procs[i].(children := procs[i].children
            + [child])];
      }
      assert procs[i].children + [] == procs[i].children;
    }

    /** Condvar::wakeup on the exit queue of u. */
    method WakeAll(u: nat)
      requires u in procs && u !in procs[u].waiters
      modifies this`procs
      ensures procs == Woken(old(procs)[u := old(procs[u]).(waiters := [])], old(procs[u]).waiters)
    {
      ghost var target := Woken(procs[u := procs[u].(waiters := [])], procs[u].waiters);
      while procs[u].waiters != []
        invariant u in procs && u !in procs[u].waiters
        invariant Woken(procs[u := procs[u].(waiters := [])], procs[u].waiters) == target
        decreases |procs[u].waiters|
      {
        var q := procs[u].waiters;
        var w := q[|q| - 1];
        procs := procs[u := procs[u].(waiters := q[..|q| - 1])];
        if w in procs {
          procs := procs[w := procs[w].(status := Ready, block := None)];
        }
      }
      assert procs[u := procs[u].(waiters := [])] == procs;
    }

    /** children.retain in wait_for. */
    method Retain(u: nat)
      requires u in procs
      modifies this`procs
      ensures procs == old(procs)[u := old(procs[u]).(children := Existing(old(procs[u]).children, old(procs)))]
    {
      hide Existing;
      var kids, kept := procs[u].children, [];
      ExistingSteps(kids, procs);
      for i := 0 to |kids|
        invariant kept == Existing(kids[..i], procs)
      {
        if kids[i] in procs {
          kept := kept + [kids[i]];
        }
      }
      assert kids[..|kids|] == kids;
      procs := procs[u := procs[u].(children := kept)];
    }

    /** The scan of wait_for over the children. */
    method Scan(kids: seq<nat>, pid: int) returns (r: Option<nat>)
      requires forall u :: u in kids ==> u in procs
      ensures r == FirstZombie(kids, procs, pid)
    {
      for i := 0 to |kids|
        invariant FirstZombie(kids, procs, pid) == FirstZombie(kids[i..], procs, pid)
      {
        var c := kids[i];
        if Matches(pid, procs[c]) {
          return Some(c);
        }
      }
      r := None;
    }

    /** Removing a zombie from the list drops it, and so frees its pid. */
    method Drop(c: nat) returns (r: Outcome<()>)
      requires ListOk(Now()) && PidsOk(Now()) && c in procs
      modifies this, pids
      ensures r.Done? && Now() == Reap(old(Now()), c)
    {
      hide NoDup;
      var pid := procs[c].pid;
      list := list - {pid};
      procs := procs - {c};
      delivered := delivered + [c];
      r := pids.Free(pid);
    }

    /** One turn of the loop of wait_for. */
    method WaitTurn(pid: int, nohang: bool) returns (r: WaitResult)
      requires Inv(Now()) && HasCurrent(Now())
      modifies this, pids
      ensures forall q :: q in old(list) ==> old(list[q] in procs)
      ensures (Now(), r) == Waited(old(Now()), pid, nohang)
      ensures r.Reaped? <==> exists c :: Due(old(Now()), pid, c)
      ensures !r.Deadlock? ==> Inv(Now()) && Takes(old(Now()), Wait(pid, nohang), Now())
    {
      hide TreeOk, InitOk, QueueOk, DeliveredOk, CpuOk, NoDup, Existing, FirstZombie, Matches, Inv, ListOk, PidsOk;
      ghost var s := Now();
      WaitInv(s, pid, nohang);
      WaitAnswers(s, pid, nohang);
      RetainInv(s);
      var u := current.value;
      Retain(u);
      ghost var t := Now();
      assert t == Retained(s);
      InvParts(t);
      var kids := procs[u].children;
      if kids == [] {
        return NoChild;
      }
      var c := Scan(kids, pid);
      if c.Some? {
        r := Reaped(procs[c.value].pid, procs[c.value].exitCode);
        var dropped := Drop(c.value);
      } else if nohang {
        r := NothingYet;
      } else if pid <= 0 {
        Yield();
        r := TryAgain;
      } else if pid !in list {
        r := NoChild;
      } else if list[pid] == u {
        r := Deadlock;
      } else {
        WaitOn(list[pid]);
        r := Asleep;
      }
    }

    /** Condvar::wait on the exit queue of t, then the yield. */
    method WaitOn(t: nat)
      requires HasCurrent(Now()) && t in procs && t != current.value
      modifies this
      ensures Now() == Sleep(old(Now()), t)
    {
      var u := current.value;
      procs := procs[u := procs[u].(status := Suspend, block := Some(Block(t, procs[t].status == Zombie)))];
      procs := procs[t := procs[t].(waiters := procs[t].waiters + [u])];
      assert procs[u := procs[u]] == procs;
      Yield();
    }

    /** exit, then the process yields for the last time. */
    method Exit(code: nat) returns (r: Outcome<()>)
      requires Inv(Now()) && HasCurrent(Now())
      modifies this
      ensures r.Panicked? <==> old(current) == Some(old(init))
      ensures r.Done? ==> Inv(Now()) && old(init in procs) && Now() == Exited(old(Now()), code)
    {
      hide TreeOk, QueueOk, DeliveredOk, PidsOk, NoDup, Inv;
      ghost var s := Now();
      InvParts(s);
      var u := current.value;
      if procs[u].pid == 1 {
        return Panicked(AssertFailed);
      }
      ExitInv(s, code);
      NotOwnWaiter(s);
      ExitStages(procs, u, init, code);
      keeper := map v | v in keeper :: if v in procs[u].children then init else keeper[v];
      procs := procs[u := procs[u].(status := Zombie, exitCode := code)];
      Reparent(u, list[1]);
      WakeAll(u);
      assert procs == Exited(s, code).procs;
      assert procs[u].status == Zombie by { ExitIs(s, code); }
      assert procs[u := procs[u]] == procs;
      Yield();
      assert Now() == Exited(s, code);
      r := Done(());
    }
  }

  /** The stages of exit, put together. */
  lemma ExitStages(procs: map<nat, Proc>, u: nat, i: nat, code: nat)
    requires u in procs && i in procs && u != i
    ensures var p := procs[u := procs[u].(status := Zombie, exitCode := code)];
            var q := p[u := p[u].(children := [])][i := p[i].(children := p[i].children + Reversed(p[u].children))];
            && q[u].waiters == procs[u].waiters
            && q[u := q[u].(waiters := [])]
               == procs[u := procs[u].(status := Zombie, exitCode := code, children := [], waiters := [])]
                       [i := procs[i].(children := procs[i].children + Reversed(procs[u].children))]
  {
    hide Reversed;
  }

  /** Filtering from front to back. */
  lemma ExistingSteps(kids: seq<nat>, procs: map<nat, Proc>)
    ensures Existing(kids[..0], procs) == []
    ensures forall i :: 0 <= i < |kids| ==>
              Existing(kids[..i + 1], procs) ==
                  Existing(kids[..i], procs) + (if kids[i] in procs then [kids[i]] else [])
  {
    forall i | 0 <= i < |kids|
      ensures Existing(kids[..i + 1], procs) ==
          Existing(kids[..i], procs) + (if kids[i] in procs then [kids[i]] else [])
    {
      assert kids[..i + 1][..i] == kids[..i];
    }
  }

  lemma NotOwnWaiter(s: State)
    requires Inv(s) && HasCurrent(s)
    ensures s.current.value !in s.procs[s.current.value].waiters
  {
    hide ListOk, PidsOk, TreeOk, DeliveredOk, InitOk;
    var u := s.current.value;
    if u in s.procs[u].waiters { QueuedSleeps(s, u, u); }
  }

  lemma InvParts(s: State)
    requires Inv(s)
    ensures ListOk(s) && PidsOk(s) && InitOk(s) && CpuOk(s)
  {
  }

  lemma ChosenIsReady(s: State, pid: nat)
    requires ListOk(s) && pid in ReadyPids(s)
    ensures pid in s.list && s.list[pid] in s.procs && s.procs[s.list[pid]].pid == pid
      && s.procs[s.list[pid]].status == Ready
  {
  }
}
