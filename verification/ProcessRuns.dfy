/**
 * What holds in every state of every run of the process life cycle: the family tree, the pids, the delivery of exit
 * codes, and which waits are woken (src/process/process.rs, src/process/pid.rs, src/process/condvar.rs).
 */
module ProcessRuns {
  import opened Basics
  import opened Processes
  import opened ProcessExits

  /** A run from boot: states[i] goes to states[i + 1] by steps[i]. */
  ghost predicate IsRun(states: seq<State>, steps: seq<Step>) {
    && |states| == |steps| + 1 && states[0] == Boot()
    && forall i {:trigger steps[i]} :: 0 <= i < |steps| ==> Takes(states[i], steps[i], states[i + 1])
  }

  lemma {:induction false} RunInv(states: seq<State>, steps: seq<Step>, n: nat)
    requires IsRun(states, steps) && n < |states|
    ensures Inv(states[n])
  {
    hide Inv, Takes, Boot;
    if n == 0 {
      BootInv();
    } else {
      RunInv(states, steps, n - 1);
      assert Takes(states[n - 1], steps[n - 1], states[n]);
      StepInv(states[n - 1], steps[n - 1], states[n]);
    }
  }

  // ---- the family tree and the pids

  /** u occurs in the children of p, once, and in nobody else's. */
  ghost predicate OnlyParent(s: State, p: nat, u: nat) {
    p in s.procs && NoDup(s.procs[p].children) && forall q :: IsKid(s, q, u) <==> q == p
  }

  /** Following parents from u leads to init. */
  ghost predicate Descends(s: State, u: nat)
    decreases u
  {
    u == s.init || exists p: nat :: p < u && OnlyParent(s, p, u) && s.procs[p].status != Zombie && Descends(s, p)
  }

  /**
   * At every moment the children lists form a tree rooted at init: every other process is in exactly one of them, once,
   * its owner is no zombie, and following the owners leads to init.
   */
  lemma ProcessesFormATree(states: seq<State>, steps: seq<Step>, n: nat, u: nat)
    requires IsRun(states, steps) && n < |states| && u in states[n].procs
    ensures Descends(states[n], u)
  {
    hide IsRun, Descends, ListOk, PidsOk, QueueOk, CpuOk, DeliveredOk, InitOk, NoDup;
    RunInv(states, steps, n);
    FromInit(states[n], u);
  }

  lemma {:induction false} FromInit(s: State, u: nat)
    requires TreeOk(s) && u in s.procs
    ensures Descends(s, u)
    decreases u
  {
    hide NoDup;
    if u != s.init {
      assert Kept(s, u);
      var p := s.keeper[u];
      assert IsKid(s, p, u);
      assert ParentOk(s, p);
      assert OnlyParent(s, p, u);
      FromInit(s, p);
    }
  }

  /**
   * At every moment pids tell processes apart, init has pid 1 and has not exited, the list maps each pid to its
   * process, and the pid the next spawn would take is in use by nobody.
   */
  lemma PidsAreUnique(states: seq<State>, steps: seq<Step>, n: nat, u: nat, v: nat)
    requires IsRun(states, steps) && n < |states| && u in states[n].procs && v in states[n].procs
    ensures states[n].procs[u].pid == states[n].procs[v].pid ==> u == v
    ensures states[n].procs[u].pid in states[n].list && states[n].list[states[n].procs[u].pid] == u
    ensures states[n].procs[u].pid != NextPid(states[n].pids) && NextPid(states[n].pids) !in states[n].list
    ensures states[n].procs[u].pid == 1 <==> u == states[n].init
    ensures u == states[n].init ==> states[n].procs[u].status != Zombie
  {
    hide IsRun, NextPid, TreeOk, QueueOk, CpuOk, DeliveredOk, NoDup;
    RunInv(states, steps, n);
    NextPidIsNew(states[n]);
  }

  /** The largest number of processes that existed at once in the first n + 1 states. */
  ghost function Peak(states: seq<State>, n: nat): nat
    requires n < |states|
  {
    if n == 0 then |states[0].procs| else Max(Peak(states, n - 1), |states[n].procs|)
  }

  lemma PeakFork(s: State, t: State)
    requires Inv(s) && HasCurrent(s) && t == Forked(s)
    ensures t.peak == Max(s.peak, |s.procs| + 1) && |t.procs| == |s.procs| + 1
  {
    hide Inv, NextPid, AfterAlloc;
    Begets(s);
    var b := Begotten(s);
    assert t.procs.Keys == b.procs.Keys;
    assert |t.procs| == |b.procs| by { assert |t.procs.Keys| == |b.procs.Keys|; }
  }

  lemma PeakSame(s: State, step: Step, t: State)
    requires Takes(s, step, t) && !step.Fork?
    ensures t.peak == s.peak
  {
    hide NextPid, AfterAlloc, Existing, FirstZombie, Woken, ReadyPids;
  }

  lemma PeakStep(s: State, step: Step, t: State)
    requires Inv(s) && Takes(s, step, t) && Inv(t)
    ensures t.peak == Max(s.peak, |t.procs|)
  {
    hide ListOk, TreeOk, QueueOk, CpuOk, DeliveredOk, NoDup, InitOk, Forked, Exited, Waited, Yielded, Dispatched;
    if step.Fork? { PeakFork(s, t); } else { PeakSame(s, step, t); }
  }

  /** The allocator has handed out as many different pids as there ever were processes at once, and no more. */
  lemma {:induction false} PidsAreReused(states: seq<State>, steps: seq<Step>, n: nat)
    requires IsRun(states, steps) && n < |states|
    ensures states[n].pids.max == Peak(states, n)
  {
    hide Takes, ListOk, TreeOk, QueueOk, CpuOk, DeliveredOk, NoDup, InitOk;
    RunInv(states, steps, n);
    if n > 0 {
      RunInv(states, steps, n - 1);
      assert Takes(states[n - 1], steps[n - 1], states[n]);
      PeakStep(states[n - 1], steps[n - 1], states[n]);
      PidsAreReused(states, steps, n - 1);
    }
  }

  // ---- exit codes

  /** The child whose exit code a step hands out. */
  ghost function ReapedBy(s: State, step: Step): (r: Option<nat>)
    requires step.Wait? ==> HasCurrent(s) && forall q :: q in s.list ==> s.list[q] in s.procs
  {
    if step.Wait? && Waited(s, step.pid, step.nohang).1.Reaped? then
      var t := Retained(s);
      FirstZombie(t.procs[s.current.value].children, t.procs, step.pid)
    else None
  }

  /** u existed and has exited. */
  ghost predicate Dead(s: State, u: nat) { u < s.nextId && (u in s.procs ==> s.procs[u].status == Zombie) }

  /** The dead stay dead; a zombie keeps its exit code, and becomes one only by its own exit. */
  lemma DeadStep(s: State, step: Step, t: State, u: nat)
    requires Inv(s) && Takes(s, step, t)
    ensures Dead(s, u) ==> Dead(t, u)
    ensures u in t.procs && t.procs[u].status == Zombie ==>
              if step.Exit? && s.current == Some(u) then t.procs[u].exitCode == step.code
              else u in s.procs && s.procs[u].status == Zombie && t.procs[u].exitCode == s.procs[u].exitCode
    ensures step.Exit? && s.current == Some(u) ==> Dead(t, u)
  {
    hide ListOk, PidsOk, TreeOk, DeliveredOk, NoDup, InitOk, NextPid, AfterAlloc, Existing, FirstZombie, Waited,
         QueueOk, Exited;
    match step
    case Exit(code) =>
      if u in s.procs { assert ParentOk(s, u) by { Parent(s, u); } }
      ExitIs(s, code);
      if u in s.procs && u in s.procs[s.current.value].waiters { QueuedSleeps(s, s.current.value, u); }
    case Fork =>
    case Wait(pid, nohang) => DeadWait(s, pid, nohang, u);
    case _ =>
  }

  lemma Parent(s: State, u: nat)
    requires Inv(s) && u in s.procs
    ensures ParentOk(s, u)
  {
  }

  lemma DeadWait(s: State, pid: int, nohang: bool, u: nat)
    requires Inv(s) && HasCurrent(s) && forall q :: q in s.list ==> s.list[q] in s.procs
    ensures var t := Waited(s, pid, nohang).0;
            && (Dead(s, u) ==> Dead(t, u))
            && (u in t.procs && t.procs[u].status == Zombie ==>
                  u in s.procs && s.procs[u].status == Zombie && t.procs[u].exitCode == s.procs[u].exitCode)
  {
    hide ListOk, PidsOk, TreeOk, DeliveredOk, NoDup, InitOk, Existing, FirstZombie, QueueOk;
  }

  /** Step j is the exit of u with this code. */
  ghost predicate ExitsAt(states: seq<State>, steps: seq<Step>, j: nat, u: nat, code: nat) {
    j < |steps| && j < |states| && steps[j] == Exit(code) && states[j].current == Some(u)
  }

  lemma {:induction false} ZombieHasExited(states: seq<State>, steps: seq<Step>, n: nat, u: nat) returns (j: nat)
    requires IsRun(states, steps) && n < |states| && u in states[n].procs && states[n].procs[u].status == Zombie
    ensures j < n && ExitsAt(states, steps, j, u, states[n].procs[u].exitCode)
  {
    hide Inv, Takes;
    if n == 0 {
      assert false;
    } else {
      RunInv(states, steps, n - 1);
      assert Takes(states[n - 1], steps[n - 1], states[n]);
      DeadStep(states[n - 1], steps[n - 1], states[n], u);
      if steps[n - 1].Exit? && states[n - 1].current == Some(u) {
        j := n - 1;
      } else {
        j := ZombieHasExited(states, steps, n - 1, u);
      }
    }
  }

  lemma {:induction false} DeadForever(states: seq<State>, steps: seq<Step>, i: nat, n: nat, u: nat)
    requires IsRun(states, steps) && i <= n < |states| && Dead(states[i], u)
    ensures Dead(states[n], u)
    decreases n
  {
    hide Inv, Takes, Dead;
    if i < n {
      DeadForever(states, steps, i, n - 1, u);
      RunInv(states, steps, n - 1);
      assert Takes(states[n - 1], steps[n - 1], states[n]);
      DeadStep(states[n - 1], steps[n - 1], states[n], u);
    }
  }

  /** A process exits at most once. */
  lemma ExitsOnce(states: seq<State>, steps: seq<Step>, j: nat, k: nat, u: nat, c: nat, d: nat)
    requires IsRun(states, steps) && ExitsAt(states, steps, j, u, c) && ExitsAt(states, steps, k, u, d)
    ensures j == k
  {
    hide ListOk, PidsOk, TreeOk, QueueOk, DeliveredOk, InitOk, Takes;
    if j != k {
      var a, b := if j < k then j else k, if j < k then k else j;
      RunInv(states, steps, a);
      RunInv(states, steps, b);
      assert Takes(states[a], steps[a], states[a + 1]);
      DeadStep(states[a], steps[a], states[a + 1], u);
      DeadForever(states, steps, a + 1, b, u);
      assert false;
    }
  }

  lemma DeliveredStep(s: State, step: Step, t: State)
    requires Inv(s) && Takes(s, step, t)
    ensures t.delivered == match ReapedBy(s, step) case Some(c) => s.delivered + [c] case None => s.delivered
  {
    hide ListOk, PidsOk, TreeOk, QueueOk, DeliveredOk, InitOk, CpuOk, NextPid, AfterAlloc, Existing, FirstZombie, Woken;
  }

  lemma {:induction false} DeliveredGrows(states: seq<State>, steps: seq<Step>, i: nat, n: nat, c: nat)
    requires IsRun(states, steps) && i <= n < |states| && c in states[i].delivered
    ensures c in states[n].delivered
    decreases n
  {
    hide Inv, Takes, ReapedBy;
    if i < n {
      DeliveredGrows(states, steps, i, n - 1, c);
      RunInv(states, steps, n - 1);
      assert Takes(states[n - 1], steps[n - 1], states[n]);
      DeliveredStep(states[n - 1], steps[n - 1], states[n]);
    }
  }

  /** What a reaping wait_for hands out, and to whom: a zombie child of the caller, with its own pid and exit code. */
  lemma ReapingStep(s: State, step: Step, t: State, c: nat)
    requires Inv(s) && Takes(s, step, t) && ReapedBy(s, step) == Some(c)
    ensures IsKid(s, s.current.value, c) && c in s.procs && s.procs[c].status == Zombie
    ensures Waited(s, step.pid, step.nohang).1 == Reaped(s.procs[c].pid, s.procs[c].exitCode)
    ensures c !in t.procs && s.procs[c].pid !in t.list && t.pids.free == s.pids.free + [s.procs[c].pid]
    ensures step.pid == -1 || step.pid == s.procs[c].pid
    ensures s.current == t.current
  {
    hide PidsOk, TreeOk, QueueOk, DeliveredOk, InitOk, Existing, FirstZombie;
  }

  /** The step gives its caller the pid of c, a child of the caller, and this code. */
  ghost predicate HandsOut(s: State, step: Step, c: nat, code: nat) {
    && step.Wait? && HasCurrent(s) && (forall q :: q in s.list ==> s.list[q] in s.procs)
    && IsKid(s, s.current.value, c) && c in s.procs
      && Waited(s, step.pid, step.nohang).1 == Reaped(s.procs[c].pid, code)
  }

  /**
   * Every exit code is delivered at most once, to the process whose child the exited one is, and is the code that child
   * exited with, at one moment j before the delivery.
   */
  lemma ExitCodesAreDeliveredOnce(states: seq<State>, steps: seq<Step>, i: nat, c: nat) returns (j: nat, code: nat)
    requires IsRun(states, steps) && RunReaps(states, steps, i, c)
    ensures HandsOut(states[i], steps[i], c, code)
    ensures j < i && ExitsAt(states, steps, j, c, code)
    ensures forall k, d :: ExitsAt(states, steps, k, c, d) ==> k == j
    ensures forall k :: RunReaps(states, steps, k, c) ==> k == i
  {
    hide Inv, Takes, Waited, ReapedBy;
    RunInv(states, steps, i);
    assert Takes(states[i], steps[i], states[i + 1]);
    ReapingStep(states[i], steps[i], states[i + 1], c);
    code := states[i].procs[c].exitCode;
    j := ZombieHasExited(states, steps, i, c);
    forall k, d | ExitsAt(states, steps, k, c, d) ensures k == j { ExitsOnce(states, steps, j, k, c, code, d); }
    forall k | RunReaps(states, steps, k, c) ensures k == i {
      ReapedTwice(states, steps, k, i, c);
      ReapedTwice(states, steps, i, k, c);
    }
  }

  ghost predicate RunReaps(states: seq<State>, steps: seq<Step>, i: nat, c: nat) {
    && i < |steps| && i < |states| && steps[i].Wait? && HasCurrent(states[i])
    && (forall q :: q in states[i].list ==> states[i].list[q] in states[i].procs)
    && ReapedBy(states[i], steps[i]) == Some(c)
  }

  lemma ReapedTwice(states: seq<State>, steps: seq<Step>, i: nat, k: nat, c: nat)
    requires IsRun(states, steps) && RunReaps(states, steps, i, c) && RunReaps(states, steps, k, c)
    ensures k <= i
  {
    hide Inv, Takes, ReapedBy, Waited;
    if i < k {
      RunInv(states, steps, i);
      assert Takes(states[i], steps[i], states[i + 1]);
      DeliveredStep(states[i], steps[i], states[i + 1]);
      DeliveredGrows(states, steps, i + 1, k, c);
      RunInv(states, steps, k);
      assert Takes(states[k], steps[k], states[k + 1]);
      ReapingStep(states[k], steps[k], states[k + 1], c);
      DeliveredIsGone(states[k], c);
    }
  }

  lemma DeliveredIsGone(s: State, c: nat)
    requires Inv(s) && c in s.delivered
    ensures c !in s.procs
  {
    hide ListOk, PidsOk, TreeOk, QueueOk, CpuOk, InitOk;
  }

  // ---- who is woken

  /** w sleeps in wait_for on the exit of t, is in its queue, and t has yet to exit. */
  ghost predicate WillBeWoken(s: State, w: nat, t: nat) {
    w in s.procs && s.procs[w].status == Suspend && t in s.procs && s.procs[t].status != Zombie
      && w in s.procs[t].waiters
  }

  /** A process asleep in wait_for waits for an exit that is still to come if and only if it did not choose a zombie. */
  lemma SleepersWaitForAnExit(states: seq<State>, steps: seq<Step>, n: nat, w: nat)
    requires IsRun(states, steps) && n < |states| && w in states[n].procs && states[n].procs[w].block.Some?
    ensures WillBeWoken(states[n], w, states[n].procs[w].block.value.target) <==>
      !states[n].procs[w].block.value.sawZombie
  {
    hide IsRun, ListOk, PidsOk, TreeOk, CpuOk, InitOk, DeliveredOk;
    RunInv(states, steps, n);
    assert BlockOk(states[n], w);
  }

  /** The exit of t makes everybody who waits for it ready, whatever else happened since they went to sleep. */
  lemma ExitWakes(s: State, step: Step, t: State, w: nat)
    requires Inv(s) && Takes(s, step, t) && step.Exit? && WillBeWoken(s, w, s.current.value)
    ensures w in t.procs && t.procs[w].status == Ready && t.procs[w].block.None?
  {
    hide ListOk, PidsOk, TreeOk, InitOk, DeliveredOk, Exited;
    ExitIs(s, step.code);
  }

  /** A process that went to sleep on a zombie sleeps for ever. */
  lemma {:induction false} ZombieSleepersNeverWake(states: seq<State>, steps: seq<Step>, i: nat, n: nat, w: nat)
    requires IsRun(states, steps) && i <= n < |states| && w in states[i].procs
    requires states[i].procs[w].block.Some? && states[i].procs[w].block.value.sawZombie
    ensures w in states[n].procs && states[n].procs[w].block == states[i].procs[w].block
      && states[n].procs[w].status == Suspend
    decreases n
  {
    hide ListOk, PidsOk, TreeOk, CpuOk, InitOk, DeliveredOk, Takes;
    if i < n {
      ZombieSleepersNeverWake(states, steps, i, n - 1, w);
      RunInv(states, steps, n - 1);
      assert Takes(states[n - 1], steps[n - 1], states[n]);
      StaysAsleep(states[n - 1], steps[n - 1], states[n], w);
    } else {
      RunInv(states, steps, n);
      assert BlockOk(states[n], w);
    }
  }

  /** A step wakes a sleeper only by the exit it waits for; any other step leaves it asleep. */
  lemma SleeperStep(s: State, step: Step, t: State, w: nat)
    requires Inv(s) && Takes(s, step, t) && w in s.procs && s.procs[w].block.Some?
    ensures w in t.procs
    ensures if step.Exit? && s.current == Some(s.procs[w].block.value.target) && !s.procs[w].block.value.sawZombie
            then t.procs[w].status == Ready && t.procs[w].block.None?
            else t.procs[w].block == s.procs[w].block && t.procs[w].status == Suspend
  {
    hide ListOk, PidsOk, DeliveredOk, InitOk, Existing, FirstZombie, NextPid, AfterAlloc, Exited, Waited, QueueOk;
    Asleep1(s, w);
    match step
    case Exit(code) =>
      ExitIs(s, code);
      var u := s.current.value;
      if w in s.procs[u].waiters { QueuedSleeps(s, u, w); }
    case Fork => if s.nextId in s.procs { Parent(s, s.nextId); assert false; }
    case Wait(pid, nohang) => SleepsThroughWait(s, pid, nohang, w);
    case _ =>
  }

  lemma StaysAsleep(s: State, step: Step, t: State, w: nat)
    requires Inv(s) && Takes(s, step, t) && w in s.procs && s.procs[w].block.Some? && s.procs[w].block.value.sawZombie
    ensures w in t.procs && t.procs[w].block == s.procs[w].block && t.procs[w].status == Suspend
  {
    hide Inv, Takes;
    SleeperStep(s, step, t, w);
  }

  lemma Asleep1(s: State, w: nat)
    requires QueueOk(s) && w in s.procs
    ensures BlockOk(s, w)
  {
  }

  lemma SleepsThroughWait(s: State, pid: int, nohang: bool, w: nat)
    requires Inv(s) && HasCurrent(s) && forall q :: q in s.list ==> s.list[q] in s.procs
    requires w in s.procs && s.procs[w].status == Suspend
    ensures var t := Waited(s, pid, nohang).0;
            w in t.procs && t.procs[w].block == s.procs[w].block && t.procs[w].status == Suspend
  {
    hide ListOk, PidsOk, TreeOk, DeliveredOk, NoDup, InitOk, Existing, FirstZombie, QueueOk;
  }

  /** wait_for on one's own child never goes to sleep on a zombie. */
  lemma OwnChildIsAlive(s: State, pid: int)
    requires Inv(s) && HasCurrent(s) && forall q :: q in s.list ==> s.list[q] in s.procs
    requires Waited(s, pid, false).1 == Asleep && pid in s.list && IsKid(s, s.current.value, s.list[pid])
    ensures s.procs[s.list[pid]].status != Zombie
  {
    hide PidsOk, TreeOk, DeliveredOk, NoDup, InitOk, Existing, QueueOk;
    var t := Retained(s);
    var r := s.list[pid];
    assert r in t.procs[s.current.value].children;
    assert !Matches(pid, t.procs[r]);
  }

  /** In step i, w goes to sleep in wait_for on the exit of c. */
  ghost predicate FallsAsleep(states: seq<State>, steps: seq<Step>, i: nat, w: nat, c: nat) {
    && i < |steps| && i < |states| && steps[i].Wait? && states[i].current == Some(w) && w in states[i].procs
    && (forall q :: q in states[i].list ==> states[i].list[q] in states[i].procs)
    && steps[i].pid in states[i].list && states[i].list[steps[i].pid] == c
    && Waited(states[i], steps[i].pid, steps[i].nohang).1 == Asleep
  }

  lemma AsleepNow(s: State, pid: int, nohang: bool)
    requires Inv(s) && HasCurrent(s) && (forall q :: q in s.list ==> s.list[q] in s.procs)
    requires Waited(s, pid, nohang).1 == Asleep && pid in s.list
    ensures !nohang && var t, w, c := Waited(s, pid, nohang).0, s.current.value, s.list[pid];
      && c in s.procs && w in t.procs && t.procs[w].block == Some(Block(c, s.procs[c].status == Zombie))
      && c in t.procs && (t.procs[c].status == Zombie <==> s.procs[c].status == Zombie)
  {
    hide PidsOk, TreeOk, DeliveredOk, NoDup, InitOk, Existing, FirstZombie, QueueOk;
  }

  /** Between steps i and n the exit of c made w ready. */
  ghost predicate WokenBetween(states: seq<State>, steps: seq<Step>, i: nat, n: nat, w: nat, c: nat) {
    exists j: nat, code: nat :: i < j < n && WakesAt(states, steps, j, w, c, code)
  }

  ghost predicate WakesAt(states: seq<State>, steps: seq<Step>, j: nat, w: nat, c: nat, code: nat) {
    && ExitsAt(states, steps, j, c, code) && j + 1 < |states|
    && w in states[j].procs && states[j].procs[w].block == Some(Block(c, false))
    && w in states[j + 1].procs && states[j + 1].procs[w].status == Ready
  }

  /** w still sleeps on the exit of c, which is yet to come and will wake it. */
  ghost predicate StillWaits(s: State, w: nat, c: nat) {
    w in s.procs && s.procs[w].block == Some(Block(c, false)) && WillBeWoken(s, w, c)
  }

  lemma StillWaitsIff(s: State, w: nat, c: nat)
    requires Inv(s) && w in s.procs && s.procs[w].block == Some(Block(c, false))
    ensures StillWaits(s, w, c)
  {
    hide ListOk, PidsOk, TreeOk, CpuOk, InitOk, DeliveredOk;
    assert BlockOk(s, w);
  }

  /** A process that fell asleep on one that was no zombie sleeps until that one exits, and is made ready then. */
  lemma {:induction false} SleepEndsWithTheExit(states: seq<State>, steps: seq<Step>, i: nat, n: nat, w: nat, c: nat)
    requires IsRun(states, steps) && FallsAsleep(states, steps, i, w, c) && i < n < |states|
    requires c in states[i].procs && states[i].procs[c].status != Zombie
    ensures StillWaits(states[n], w, c) || WokenBetween(states, steps, i, n, w, c)
    decreases n
  {
    hide Inv, Takes, Waited, WillBeWoken;
    RunInv(states, steps, n - 1);
    RunInv(states, steps, n);
    var s, step, t := states[n - 1], steps[n - 1], states[n];
    assert Takes(s, step, t);
    if n == i + 1 {
      WaitTakes(s, step, t);
      AsleepNow(s, step.pid, step.nohang);
      StillWaitsIff(t, w, c);
    } else {
      SleepEndsWithTheExit(states, steps, i, n - 1, w, c);
      if StillWaits(s, w, c) {
        SleeperStep(s, step, t, w);
        if step.Exit? && s.current == Some(c) {
          assert WakesAt(states, steps, n - 1, w, c, step.code);
        } else {
          StillWaitsIff(t, w, c);
        }
      } else {
        var j: nat, code: nat :| i < j < n - 1 && WakesAt(states, steps, j, w, c, code);
        assert i < j < n && WakesAt(states, steps, j, w, c, code);
      }
    }
  }

  lemma WaitTakes(s: State, step: Step, t: State)
    requires Takes(s, step, t) && step.Wait?
    ensures HasCurrent(s) && (forall q :: q in s.list ==> s.list[q] in s.procs)
      && t == Waited(s, step.pid, step.nohang).0
  {
  }

  /**
   * Nothing is missed: at every later moment the exit is still to come and will wake w, or it came and made w ready.
   */
  ghost predicate NeverMissed(states: seq<State>, steps: seq<Step>, i: nat, w: nat, c: nat) {
    forall n: nat {:trigger states[n]} :: i < n < |states| ==>
      StillWaits(states[n], w, c) || WokenBetween(states, steps, i, n, w, c)
  }

  /** A wait that goes to sleep misses nothing if and only if the process it chose was no zombie at that moment. */
  lemma NeverMissedIff(states: seq<State>, steps: seq<Step>, i: nat, w: nat, c: nat)
    requires IsRun(states, steps) && FallsAsleep(states, steps, i, w, c)
    ensures c in states[i].procs && (NeverMissed(states, steps, i, w, c) <==> states[i].procs[c].status != Zombie)
  {
    hide Inv, Takes, Waited, WillBeWoken, StillWaits, WokenBetween;
    RunInv(states, steps, i);
    assert Takes(states[i], steps[i], states[i + 1]);
    WaitTakes(states[i], steps[i], states[i + 1]);
    AsleepNow(states[i], steps[i].pid, steps[i].nohang);
    if states[i].procs[c].status != Zombie {
      forall n: nat | i < n < |states| ensures StillWaits(states[n], w, c) || WokenBetween(states, steps, i, n, w, c) {
        SleepEndsWithTheExit(states, steps, i, n, w, c);
      }
    } else {
      MissedAtOnce(states, steps, i, w, c);
    }
  }

  lemma MissedAtOnce(states: seq<State>, steps: seq<Step>, i: nat, w: nat, c: nat)
    requires i + 1 < |states| && w in states[i + 1].procs && states[i + 1].procs[w].block == Some(Block(c, true))
    ensures !StillWaits(states[i + 1], w, c) && !WokenBetween(states, steps, i, i + 1, w, c)
  {
  }

  /** The exit of one's own child is never missed, whatever the other processes do. */
  lemma OwnChildIsNeverMissed(states: seq<State>, steps: seq<Step>, i: nat, w: nat, c: nat)
    requires IsRun(states, steps) && FallsAsleep(states, steps, i, w, c) && IsKid(states[i], w, c)
    ensures NeverMissed(states, steps, i, w, c)
  {
    hide Inv, Takes, Waited, NeverMissed;
    RunInv(states, steps, i);
    assert Takes(states[i], steps[i], states[i + 1]);
    WaitTakes(states[i], steps[i], states[i + 1]);
    AsleepNow(states[i], steps[i].pid, steps[i].nohang);
    OwnChildIsAlive(states[i], steps[i].pid);
    NeverMissedIff(states, steps, i, w, c);
  }
}
