/** exit and wait_for keep the invariants of the process life cycle (src/process/process.rs). */
module ProcessExits {
  import opened Basics
  import opened Processes

  // ---- exit

  /** How t differs from s when the running process of s has exited. */
  ghost predicate IsExited(s: State, t: State, code: nat) {
    && HasCurrent(s) && s.init in s.procs && s.init != s.current.value
    && t.current.None? && t.init == s.init && t.prev == s.prev && t.delivered == s.delivered && t.nextId == s.nextId
    && t.pids == s.pids && t.peak == s.peak && t.list == s.list && t.procs.Keys == s.procs.Keys
    && var u, i := s.current.value, s.init;
    && t.keeper.Keys == s.keeper.Keys
    && (forall v :: v in s.keeper ==> t.keeper[v] == if v in s.procs[u].children then i else s.keeper[v])
    && t.procs[u] == Proc(s.procs[u].pid, Zombie, code, [], [], None)
    && t.procs[i].children == s.procs[i].children + Reversed(s.procs[u].children)
    && (forall v :: v in s.procs && v != u && v != i ==> t.procs[v].children == s.procs[v].children)
    && (forall v :: v in s.procs && v != u ==>
      t.procs[v].waiters == s.procs[v].waiters && t.procs[v].pid == s.procs[v].pid
                                               && t.procs[v].exitCode == s.procs[v].exitCode)
    && (forall v :: v in s.procs && v != u ==>
          if v in s.procs[u].waiters then t.procs[v].status == Ready && t.procs[v].block.None?
          else t.procs[v].status == s.procs[v].status && t.procs[v].block == s.procs[v].block)
  }

  lemma ExitIs(s: State, code: nat)
    requires Inv(s) && HasCurrent(s) && s.init != s.current.value
    ensures IsExited(s, Exited(s, code), code)
  {
    hide Inv, Reversed, Woken;
    var u, i := s.current.value, s.init;
    CurrentRuns(s);
    InitExists(s);
    assert u !in s.procs[u].waiters by { if u in s.procs[u].waiters { SelfQueued(s, u); assert false; } }
    var p := s.procs[u];
    var procs := s.procs[u := p.(status := Zombie, exitCode := code, children := [], waiters := [])]
                        [i := s.procs[i].(children := s.procs[i].children + Reversed(p.children))];
    WokenIs(procs, p.waiters);
  }

  lemma WokenIs(procs: map<nat, Proc>, q: seq<nat>)
    ensures forall v :: v in procs ==>
              Woken(procs, q)[v] == if v in q then procs[v].(status := Ready, block := None) else procs[v]
  {
  }

  lemma SelfQueued(s: State, u: nat)
    requires Inv(s) && u in s.procs && u in s.procs[u].waiters
    ensures s.procs[u].status == Suspend
  {
    hide ListOk, PidsOk, TreeOk, DeliveredOk, InitOk, CpuOk;
    QueuedSleeps(s, u, u);
  }

  lemma QueuedSleeps(s: State, t: nat, w: nat)
    requires QueueOk(s) && t in s.procs && w in s.procs[t].waiters
    ensures SleepsOn(s, w, t)
  {
    assert InQueue(s, t, w);
  }

  lemma ExitLists(s: State, t: State, code: nat)
    requires ListOk(s) && PidsOk(s) && InitOk(s) && DeliveredOk(s) && CpuOk(s) && IsExited(s, t, code)
    ensures ListOk(t) && PidsOk(t) && InitOk(t) && DeliveredOk(t) && CpuOk(t)
  {
    hide NoDup, Reversed, ListOk;
    SameListsOk(s, t);
  }

  lemma {:induction false} ReversedNoDup(q: seq<nat>)
    requires NoDup(q)
    ensures NoDup(Reversed(q))
  {
    if q != [] {
      NoDupInit(q);
      ReversedNoDup(q[..|q| - 1]);
    }
  }

  lemma NoDupJoin(a: seq<nat>, b: seq<nat>)
    requires NoDup(a) && NoDup(b) && forall x :: x in a ==> x !in b
    ensures NoDup(a + b)
  {
    var c := a + b;
    forall i, j | 0 <= i < j < |c| ensures c[i] != c[j] {
      if i < |a| <= j { assert c[i] in a && c[j] in b; }
    }
  }

  lemma ExitInitKids(s: State, u: nat)
    requires TreeOk(s) && s.init in s.procs && u in s.procs && u != s.init
    ensures NoDup(s.procs[s.init].children + Reversed(s.procs[u].children))
  {
    hide NoDup, Reversed;
    assert ParentOk(s, u) && ParentOk(s, s.init);
    ReversedNoDup(s.procs[u].children);
    forall x | x in s.procs[s.init].children ensures x !in s.procs[u].children {
      assert IsKid(s, s.init, x);
      if x in s.procs[u].children { KidHasOneKeeper(s, u, x, s.init); assert false; }
    }
    NoDupJoin(s.procs[s.init].children, Reversed(s.procs[u].children));
  }

  /** Nobody is in two lists. */
  lemma KidHasOneKeeper(s: State, p: nat, u: nat, q: nat)
    requires TreeOk(s) && IsKid(s, p, u) && IsKid(s, q, u)
    ensures p == q
  {
  }

  lemma ExitTree(s: State, t: State, code: nat)
    requires TreeOk(s) && InitOk(s) && IsExited(s, t, code)
    ensures TreeOk(t)
  {
    hide NoDup, Reversed;
    var u, i := s.current.value, s.init;
    var kids := s.procs[u].children;
    ExitInitKids(s, u);
    NoDupEmpty();
    forall p | p in t.procs ensures ParentOk(t, p) { assert ParentOk(s, p); }
    forall p, v | IsKid(t, p, v) ensures KidOk(t, p, v) {
      if p == i && v in kids {
        assert IsKid(s, u, v);
      } else {
        assert IsKid(s, p, v);
        assert v !in kids by { if v in kids { KidHasOneKeeper(s, p, v, u); assert false; } }
      }
    }
    forall v | v in t.procs && v != t.init ensures Kept(t, v) {
      assert Kept(s, v);
      assert IsKid(t, t.keeper[v], v);
    }
  }

  lemma ExitQueues(s: State, t: State, code: nat)
    requires QueueOk(s) && CpuOk(s) && IsExited(s, t, code)
    ensures QueueOk(t)
  {
    hide Reversed;
    var u := s.current.value;
    forall v | v in s.procs[u].waiters ensures v in s.procs && s.procs[v].status == Suspend { QueuedSleeps(s, u, v); }
    forall r, w | InQueue(t, r, w) ensures SleepsOn(t, w, r) {
      assert InQueue(s, r, w);
      assert w !in s.procs[u].waiters by { if w in s.procs[u].waiters { QueuedSleeps(s, u, w); assert false; } }
    }
    forall w | w in t.procs ensures BlockOk(t, w) {
      assert BlockOk(s, w);
      if w != u && s.procs[w].block.Some? {
        var r := s.procs[w].block.value.target;
        assert r != u ==> InQueue(s, r, w) == InQueue(t, r, w);
      }
    }
  }

  lemma ExitInv(s: State, code: nat)
    requires Inv(s) && HasCurrent(s) && s.init != s.current.value
    ensures Inv(Exited(s, code))
  {
    hide ListOk, PidsOk, TreeOk, InitOk, QueueOk, CpuOk, DeliveredOk, IsExited;
    InitExists(s);
    var t := Exited(s, code);
    ExitIs(s, code);
    ExitLists(s, t, code);
    ExitTree(s, t, code);
    ExitQueues(s, t, code);
  }

  lemma InitExists(s: State)
    requires Inv(s)
    ensures s.init in s.procs
  {
  }

  // ---- wait_for

  lemma {:induction false} ExistingNoDup(q: seq<nat>, procs: map<nat, Proc>)
    requires NoDup(q)
    ensures NoDup(Existing(q, procs))
  {
    if q != [] {
      var n := |q| - 1;
      NoDupInit(q);
      ExistingNoDup(q[..n], procs);
    }
  }

  /** t differs from s only in the children of the running process, of which those that exist are left. */
  ghost predicate IsRetained(s: State, t: State) {
    && HasCurrent(s) && t == s.(procs := t.procs) && t.procs.Keys == s.procs.Keys
    && var u := s.current.value;
    && t.procs[u] == s.procs[u].(children := Existing(s.procs[u].children, s.procs))
    && (forall v :: v in s.procs && v != u ==> t.procs[v] == s.procs[v])
  }

  lemma RetainTree(s: State, t: State)
    requires TreeOk(s) && CpuOk(s) && IsRetained(s, t)
    ensures TreeOk(t)
  {
    hide NoDup, Existing;
    var u := s.current.value;
    assert ParentOk(s, u);
    ExistingNoDup(s.procs[u].children, s.procs);
    forall p | p in t.procs ensures ParentOk(t, p) { assert ParentOk(s, p); }
    forall p, v | IsKid(t, p, v) ensures KidOk(t, p, v) { assert IsKid(s, p, v); }
    forall v | v in t.procs && v != t.init ensures Kept(t, v) { assert Kept(s, v); assert IsKid(t, s.keeper[v], v); }
  }

  lemma RetainQueues(s: State, t: State)
    requires QueueOk(s) && IsRetained(s, t)
    ensures QueueOk(t)
  {
    hide NoDup, Existing;
    forall r, w | InQueue(t, r, w) ensures SleepsOn(t, w, r) { assert InQueue(s, r, w); }
    forall w | w in t.procs ensures BlockOk(t, w) { assert BlockOk(s, w); }
  }

  lemma RetainRest(s: State, t: State)
    requires ListOk(s) && PidsOk(s) && InitOk(s) && CpuOk(s) && DeliveredOk(s) && IsRetained(s, t)
    ensures ListOk(t) && PidsOk(t) && InitOk(t) && CpuOk(t) && DeliveredOk(t)
  {
    hide NoDup, Existing, ListOk;
    SameListsOk(s, t);
  }

  lemma RetainInv(s: State)
    requires Inv(s) && HasCurrent(s)
    ensures Inv(Retained(s)) && HasCurrent(Retained(s)) && IsRetained(s, Retained(s))
  {
    hide ListOk, PidsOk, TreeOk, InitOk, QueueOk, CpuOk, DeliveredOk, Existing;
    var t := Retained(s);
    assert IsRetained(s, t);
    RetainTree(s, t);
    RetainQueues(s, t);
    RetainRest(s, t);
  }

  /** t differs from s by the disappearance of the zombie c, a child of the running process. */
  ghost predicate IsReaped(s: State, t: State, c: nat) {
    && HasCurrent(s) && IsKid(s, s.current.value, c) && c in s.procs && s.procs[c].status == Zombie
    && t == s.(procs := s.procs - {c}, list := s.list - {s.procs[c].pid}, delivered := s.delivered + [c],
               pids := s.pids.(free := s.pids.free + [s.procs[c].pid]))
  }

  lemma ReapLists(s: State, t: State, c: nat)
    requires ListOk(s) && PidsOk(s) && InitOk(s) && TreeOk(s) && IsReaped(s, t, c)
    ensures ListOk(t) && PidsOk(t) && InitOk(t)
  {
    hide NoDup, TreeOk, Kept;
    assert KidOk(s, s.current.value, c) by { KidIsOk(s, s.current.value, c); }
    NoDupAppend(s.pids.free, s.procs[c].pid);
    assert |t.procs| == |s.procs| - 1 by {
      assert t.procs.Keys == s.procs.Keys - {c};
      assert |t.procs.Keys| == |s.procs.Keys| - 1;
    }
  }

  lemma KidIsOk(s: State, p: nat, u: nat)
    requires TreeOk(s) && IsKid(s, p, u)
    ensures KidOk(s, p, u)
  {
  }

  lemma ReapTree(s: State, t: State, c: nat)
    requires TreeOk(s) && IsReaped(s, t, c)
    ensures TreeOk(t)
  {
    hide NoDup;
    assert ParentOk(s, c);
    forall p | p in t.procs ensures ParentOk(t, p) { assert ParentOk(s, p); }
    forall p, v | IsKid(t, p, v) ensures KidOk(t, p, v) { assert IsKid(s, p, v); }
    forall v | v in t.procs && v != t.init ensures Kept(t, v) { assert Kept(s, v); assert IsKid(t, s.keeper[v], v); }
  }

  lemma ReapQueues(s: State, t: State, c: nat)
    requires QueueOk(s) && IsReaped(s, t, c)
    ensures QueueOk(t)
  {
    hide NoDup;
    forall r, w | InQueue(t, r, w) ensures SleepsOn(t, w, r) { assert InQueue(s, r, w); }
    forall w | w in t.procs ensures BlockOk(t, w) { assert BlockOk(s, w); }
  }

  lemma ReapRest(s: State, t: State, c: nat)
    requires CpuOk(s) && TreeOk(s) && DeliveredOk(s) && IsReaped(s, t, c)
    ensures CpuOk(t) && DeliveredOk(t) && HasCurrent(t)
  {
    hide NoDup, TreeOk;
    KidIsOk(s, s.current.value, c);
    NoDupAppend(s.delivered, c);
  }

  lemma ReapInv(s: State, c: nat)
    requires Inv(s) && HasCurrent(s) && IsKid(s, s.current.value, c) && c in s.procs && s.procs[c].status == Zombie
    ensures Inv(Reap(s, c)) && HasCurrent(Reap(s, c))
  {
    hide ListOk, PidsOk, TreeOk, InitOk, QueueOk, CpuOk, DeliveredOk;
    var t := Reap(s, c);
    assert IsReaped(s, t, c);
    ReapLists(s, t, c);
    ReapTree(s, t, c);
    ReapQueues(s, t, c);
    ReapRest(s, t, c);
  }

  lemma SleepQueues(s: State, r: nat, t: State)
    requires QueueOk(s) && CpuOk(s) && TreeOk(s) && HasCurrent(s) && r in s.procs && r != s.current.value
      && t == Sleep(s, r)
    requires s.procs[s.current.value].block.None?
    ensures QueueOk(t) && CpuOk(t)
  {
    hide NoDup;
    var u := s.current.value;
    assert ParentOk(s, r);
    forall x, w | InQueue(t, x, w) ensures SleepsOn(t, w, x) {
      if !(x == r && w == u) { assert InQueue(s, x, w); }
    }
    forall w | w in t.procs ensures BlockOk(t, w) {
      assert BlockOk(s, w);
      if w != u && s.procs[w].block.Some? {
        var x := s.procs[w].block.value.target;
        assert InQueue(s, x, w) ==> InQueue(t, x, w);
      }
      assert InQueue(t, r, u);
    }
  }

  lemma SleepInv(s: State, r: nat)
    requires Inv(s) && HasCurrent(s) && r in s.procs && r != s.current.value
    ensures Inv(Sleep(s, r))
  {
    hide ListOk, TreeOk, InitOk, QueueOk, DeliveredOk;
    var t := Sleep(s, r);
    CurrentRuns(s);
    assert SameShape(s, t);
    SameShapeInv(s, t);
    SleepQueues(s, r, t);
  }

  lemma WaitInv(s: State, pid: int, nohang: bool)
    requires Inv(s) && HasCurrent(s)
    ensures forall q :: q in s.list ==> s.list[q] in s.procs
    ensures Inv(Waited(s, pid, nohang).0)
  {
    hide PidsOk, TreeOk, InitOk, QueueOk, CpuOk, DeliveredOk, Existing, Matches, FirstZombie, Inv;
    assert ListOk(s) by { InvLists(s); }
    var t := Retained(s);
    RetainInv(s);
    var u := s.current.value;
    var kids := t.procs[u].children;
    if kids != [] {
      match FirstZombie(kids, t.procs, pid)
      case Some(c) =>
        assert Matches(pid, t.procs[c]);
        MatchIsZombie(pid, t.procs[c]);
        ReapInv(t, c);
      case None =>
        if !nohang {
          if pid <= 0 {
            YieldInv(t);
          } else if pid in t.list && t.list[pid] != u {
            SleepInv(t, t.list[pid]);
          }
        }
    }
  }

  lemma MatchIsZombie(pid: int, p: Proc)
    requires Matches(pid, p)
    ensures p.status == Zombie
  {
  }

  lemma InvLists(s: State)
    requires Inv(s)
    ensures ListOk(s)
  {
  }

  // ---- every step

  /** Every step of every process keeps the invariants. */
  lemma StepInv(s: State, step: Step, t: State)
    requires Inv(s) && Takes(s, step, t)
    ensures Inv(t)
  {
    hide ListOk, PidsOk, TreeOk, InitOk, QueueOk, DeliveredOk, Waited;
    match step
    case Dispatch(u) => DispatchInv(s, u);
    case Fork => ForkInv(s);
    case Exit(code) => ExitInv(s, code);
    case Wait(pid, nohang) => WaitInv(s, pid, nohang);
    case Yield => YieldInv(s);
    case SleepElsewhere => SuspendInv(s);
    case WakeElsewhere(u) => ResumeInv(s, u);
  }

  lemma SuspendInv(s: State)
    requires Inv(s) && HasCurrent(s)
    ensures Inv(s.(procs := s.procs[s.current.value := s.procs[s.current.value].(status := Suspend)], current := None))
  {
    hide ListOk, TreeOk, InitOk, QueueOk, DeliveredOk;
    CurrentRuns(s);
    StatusChange(s, s.current.value, Suspend, None, s.prev);
  }

  lemma ResumeInv(s: State, u: nat)
    requires Inv(s) && u in s.procs && s.procs[u].status == Suspend && s.procs[u].block.None?
    ensures Inv(s.(procs := s.procs[u := s.procs[u].(status := Ready)]))
  {
    hide ListOk, TreeOk, InitOk, QueueOk, DeliveredOk;
    StatusChange(s, u, Ready, s.current, s.prev);
  }
}
