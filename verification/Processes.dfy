/**
 * The life cycle of processes on one hart as a transition system: each step is one stretch of kernel code between two
 * yields (src/process/process.rs, src/process/condvar.rs, src/process/pid.rs, src/process/task.rs, src/process/mod.rs).
 * A process is named by an identity that is never used again; its pid is recycled.
 */
module Processes {
  import opened Basics
  import opened Scheduler

  datatype Status = Ready | Running | Suspend | Zombie

  /**
   * Where a process suspended inside wait_for stands: on whose exit queue, and whether that process was a zombie
   * already.
   */
  datatype Block = Block(target: nat, sawZombie: bool)

  datatype Proc = Proc(pid: nat, status: Status, exitCode: nat, children: seq<nat>, waiters: seq<nat>,
                       block: Option<Block>)

  /** RecycleAllocator. */
  datatype Pids = Pids(max: nat, free: seq<nat>)

  /**
   * procs: the processes that still exist; list: process_list; prev: previous_scheduled_pid; current: the CPU's
   * process. nextId, peak, delivered and keeper record the history: the next identity, the largest number of processes
   * that existed at once, whose exit codes were handed out, and whose children list a process was last put in.
   */
  datatype State = State(procs: map<nat, Proc>, list: map<nat, nat>, pids: Pids, prev: nat, current: Option<nat>,
                         init: nat,
                         nextId: nat, peak: nat, delivered: seq<nat>, keeper: map<nat, nat>)

  // ---- what one step does

  function NextPid(p: Pids): nat { if |p.free| > 0 then p.free[|p.free| - 1] else p.max + 1 }

  function AfterAlloc(p: Pids): Pids {
    if |p.free| > 0 then p.(free := p.free[..|p.free| - 1]) else p.(max := p.max + 1)
  }

  function Max(a: nat, b: nat): nat { if a < b then b else a }

  /** spawn: a new process with the next pid, entered in the list. */
  function Spawned(s: State): State {
    var pid := NextPid(s.pids);
    s.(procs := s.procs[s.nextId := Proc(pid, Ready, 0, [], [], None)], list := s.list[pid := s.nextId],
       pids := AfterAlloc(s.pids), nextId := s.nextId + 1, peak := Max(s.peak, |s.procs| + 1))
  }

  /** The state after process::init: the init process alone. */
  function Boot(): State { Spawned(State(map[], map[], Pids(0, []), 0, None, 0, 0, 0, [], map[])) }

  ghost predicate HasCurrent(s: State) { s.current.Some? && s.current.value in s.procs }

  /** do_yield: a running process becomes ready; the CPU is free. */
  function Yielded(s: State): State
    requires HasCurrent(s)
  {
    var u := s.current.value;
    var p := s.procs[u];
    s.(procs := s.procs[u := if p.status == Running then p.(status := Ready) else p], current := None)
  }

  /** fork followed by the parent's yield. */
  function Forked(s: State): State
    requires HasCurrent(s)
  {
    var u := s.current.value;
    var t := Spawned(s);
    Yielded(t.(procs := t.procs[u := s.procs[u].(children := s.procs[u].children + [s.nextId])],
        keeper := s.keeper[s.nextId := u]))
  }

  function Reversed(q: seq<nat>): (r: seq<nat>)
    ensures |r| == |q| && (forall x :: x in r <==> x in q) && forall k :: 0 <= k < |q| ==> r[k] == q[|q| - 1 - k]
  {
    if q == [] then [] else [q[|q| - 1]] + Reversed(q[..|q| - 1])
  }

  /** Condvar::wakeup on a queue: every process in it that still exists becomes ready. */
  function Woken(procs: map<nat, Proc>, q: seq<nat>): (r: map<nat, Proc>)
    ensures r.Keys == procs.Keys
  {
    map u | u in procs :: if u in q then procs[u].(status := Ready, block := None) else procs[u]
  }

  /** exit followed by the yield: the process is a zombie, its children belong to init, its waiters are ready. */
  function Exited(s: State, code: nat): State
    requires HasCurrent(s) && s.init in s.procs && s.init != s.current.value
  {
    var u := s.current.value;
    var p, i := s.procs[u], s.procs[s.init];
    var procs := s.procs[u := p.(status := Zombie, exitCode := code, children := [], waiters := [])]
                        [s.init := i.(children := i.children + Reversed(p.children))];
    s.(procs := Woken(procs, p.waiters), current := None,
       keeper := map v | v in s.keeper :: if v in p.children then s.init else s.keeper[v])
  }

  /** children.retain: drop references to processes that no longer exist. */
  function Existing(children: seq<nat>, procs: map<nat, Proc>): (r: seq<nat>)
    ensures forall u :: u in r <==> u in children && u in procs
  {
    if children == [] then [] else
    var n := |children| - 1;
    Existing(children[..n], procs) + (if children[n] in procs then [children[n]] else [])
  }

  predicate Matches(pid: int, p: Proc) { p.status == Zombie && (pid == -1 || pid == p.pid) }

  /** The first child that is a zombie and is waited for. */
  function FirstZombie(children: seq<nat>, procs: map<nat, Proc>, pid: int): (r: Option<nat>)
    requires forall u :: u in children ==> u in procs
    ensures r.Some? ==> r.value in children && r.value in procs && Matches(pid, procs[r.value])
    ensures r.None? ==> forall u :: u in children ==> !Matches(pid, procs[u])
  {
    if children == [] then None
    else if Matches(pid, procs[children[0]]) then Some(children[0])
    else FirstZombie(children[1..], procs, pid)
  }

  datatype WaitResult = Reaped(pid: nat, code: nat) | NoChild | NothingYet | Asleep | TryAgain | Deadlock

  /** Reaping child c: it leaves the list, is dropped, and its pid is free again. */
  function Reap(s: State, c: nat): State
    requires c in s.procs
  {
    var pid := s.procs[c].pid;
    s.(procs := s.procs - {c}, list := s.list - {pid}, pids := s.pids.(free := s.pids.free + [pid]),
        delivered := s.delivered + [c])
  }

  /** condvar wait on the exit queue of t. */
  function Sleep(s: State, t: nat): State
    requires HasCurrent(s) && t in s.procs && t != s.current.value
  {
    var u := s.current.value;
    var w := s.procs[u].(status := Suspend, block := Some(Block(t, s.procs[t].status == Zombie)));
    s.(procs := s.procs[u := w][t := s.procs[t].(waiters := s.procs[t].waiters + [u])], current := None)
  }

  function Retained(s: State): State
    requires HasCurrent(s)
  {
    var u := s.current.value;
    s.(procs := s.procs[u := s.procs[u].(children := Existing(s.procs[u].children, s.procs))])
  }

  /** One turn of the loop in wait_for. */
  function Waited(s0: State, pid: int, nohang: bool): (r: (State, WaitResult))
    requires HasCurrent(s0) && (forall q :: q in s0.list ==> s0.list[q] in s0.procs)
  {
    var u, s := s0.current.value, Retained(s0);
    var kids := s.procs[u].children;
    if kids == [] then (s, NoChild) else
    match FirstZombie(kids, s.procs, pid)
    case Some(c) => (Reap(s, c), Reaped(s.procs[c].pid, s.procs[c].exitCode))
    case None =>
      if nohang then (s, NothingYet)
      else if pid <= 0 then (Yielded(s), TryAgain)
      else if pid !in s.list then (s, NoChild)
      else if s.list[pid] == u then (s, Deadlock)
      else (Sleep(s, s.list[pid]), Asleep)
  }

  function ReadyPids(s: State): set<nat> { set u | u in s.procs && s.procs[u].status == Ready :: s.procs[u].pid }

  /** worker: the chosen process runs. */
  function Dispatched(s: State, u: nat): State
    requires u in s.procs
  {
    s.(procs := s.procs[u := s.procs[u].(status := Running)], current := Some(u), prev := s.procs[u].pid)
  }

  datatype Step =
    | Dispatch(u: nat)
    | Fork
    | Exit(code: nat)
    | Wait(pid: int, nohang: bool)
    | Yield
    | SleepElsewhere            // the running process suspends on some other queue
    | WakeElsewhere(u: nat)     // some other queue wakes a process suspended there

  /** The steps of the system on one hart. Exit of pid 1 and a wait on oneself stop the kernel and are no steps. */
  ghost predicate Takes(s: State, step: Step, t: State) {
    match step
    case Dispatch(u) => s.current.None? && u in s.procs && Nearest(ReadyPids(s), s.prev, s.pids.max, s.procs[u].pid)
      && s.procs[u].status == Ready
                        && t == Dispatched(s, u)
    case Fork => HasCurrent(s) && t == Forked(s)
    case Exit(code) => HasCurrent(s) && s.init in s.procs && s.procs[s.current.value].pid != 1
      && s.current.value != s.init && t == Exited(s, code)
    case Wait(pid, nohang) =>
      && HasCurrent(s) && (forall q :: q in s.list ==> s.list[q] in s.procs)
      && !Waited(s, pid, nohang).1.Deadlock? && t == Waited(s, pid, nohang).0
    case Yield => HasCurrent(s) && t == Yielded(s)
    case SleepElsewhere => HasCurrent(s)
      && t == s.(procs := s.procs[s.current.value := s.procs[s.current.value].(status := Suspend)], current := None)
    case WakeElsewhere(u) => u in s.procs && s.procs[u].status == Suspend && s.procs[u].block.None?
                             && t == s.(procs := s.procs[u := s.procs[u].(status := Ready)])
  }

  // ---- what every step keeps

  ghost predicate ListOk(s: State) {
    && (forall q :: q in s.list ==> s.list[q] in s.procs && s.procs[s.list[q]].pid == q)
    && (forall u :: u in s.procs ==> s.procs[u].pid in s.list && s.list[s.procs[u].pid] == u)
  }

  ghost predicate PidsOk(s: State) {
    && NoDup(s.pids.free)
    && (forall x :: x in s.pids.free ==> 1 <= x <= s.pids.max && x !in s.list)
    && (forall q :: q in s.list ==> 1 <= q <= s.pids.max)
    && |s.procs| + |s.pids.free| == s.pids.max == s.peak
    && s.prev <= s.pids.max
  }

  ghost predicate InitOk(s: State) {
    s.init == 0 && s.init in s.procs && s.procs[s.init].pid == 1 && s.procs[s.init].status != Zombie
  }

  /** A parent's list holds nobody twice, and a zombie's is empty. */
  ghost predicate ParentOk(s: State, p: nat)
    requires p in s.procs
  {
    NoDup(s.procs[p].children) && p < s.nextId && (s.procs[p].status == Zombie ==> s.procs[p].children == [])
  }

  ghost predicate IsKid(s: State, p: nat, u: nat) { p in s.procs && u in s.procs[p].children }

  /** A process in p's list was put there last, and is younger. */
  ghost predicate KidOk(s: State, p: nat, u: nat) {
    p < u < s.nextId && u != s.init && u in s.keeper && s.keeper[u] == p
  }

  /** u is in the list of its keeper, who still exists. */
  ghost predicate Kept(s: State, u: nat) { u in s.keeper && IsKid(s, s.keeper[u], u) }

  ghost predicate TreeOk(s: State) {
    && (forall p {:trigger ParentOk(s, p)} :: p in s.procs ==> ParentOk(s, p))
    && (forall p, u {:trigger IsKid(s, p, u)} :: IsKid(s, p, u) ==> KidOk(s, p, u))
    && (forall u {:trigger Kept(s, u)} :: u in s.procs && u != s.init ==> Kept(s, u))
  }

  ghost predicate CpuOk(s: State) {
    && (s.current.Some? ==> s.current.value in s.procs && s.procs[s.current.value].status == Running)
    && (forall u :: u in s.procs && s.procs[u].status == Running ==> s.current == Some(u))
  }

  ghost predicate InQueue(s: State, t: nat, w: nat) { t in s.procs && w in s.procs[t].waiters }

  ghost predicate SleepsOn(s: State, w: nat, t: nat) {
    w in s.procs && s.procs[w].status == Suspend && s.procs[w].block.Some? && s.procs[w].block.value.target == t
  }

  /**
   * Whoever sleeps on the exit of a process that was no zombie then is still in its queue, and it is no zombie yet;
   * whoever chose a zombie sleeps on one still, or on one that is gone.
   */
  ghost predicate BlockOk(s: State, w: nat)
    requires w in s.procs
  {
    s.procs[w].block.Some? ==>
      && s.procs[w].status == Suspend
      && var t := s.procs[w].block.value.target;
         if s.procs[w].block.value.sawZombie then t < s.nextId && (t in s.procs ==> s.procs[t].status == Zombie)
         else InQueue(s, t, w) && s.procs[t].status != Zombie
  }

  ghost predicate QueueOk(s: State) {
    && (forall t, w {:trigger InQueue(s, t, w)} :: InQueue(s, t, w) ==> SleepsOn(s, w, t))
    && (forall w {:trigger BlockOk(s, w)} :: w in s.procs ==> BlockOk(s, w))
  }

  /** No exit code is handed out twice. */
  ghost predicate DeliveredOk(s: State) {
    && NoDup(s.delivered)
    && (forall c :: c in s.delivered ==> c !in s.procs && c < s.nextId)
  }

  ghost predicate Inv(s: State) {
    ListOk(s) && PidsOk(s) && InitOk(s) && TreeOk(s) && CpuOk(s) && QueueOk(s) && DeliveredOk(s)
  }

  lemma BootInv()
    ensures Inv(Boot())
  {
    hide NoDup;
    var s := Boot();
    assert s == State(map[0 := Proc(1, Ready, 0, [], [], None)], map[1 := 0], Pids(1, []), 0, None, 0, 1, 1, [], map[]);
    SingletonInv(s);
  }

  lemma SingletonInv(s: State)
    requires s ==
        State(map[0 := Proc(1, Ready, 0, [], [], None)], map[1 := 0], Pids(1, []), 0, None, 0, 1, 1, [], map[])
    ensures Inv(s)
  {
    assert forall u :: u in s.procs ==> u == 0;
    assert s.procs[0] == Proc(1, Ready, 0, [], [], None);
  }

  // ---- status changes: dispatch, yield, and suspension elsewhere

  function WithStatus(s: State, u: nat, status: Status, current: Option<nat>, prev: nat): State
    requires u in s.procs
  {
    s.(procs := s.procs[u := s.procs[u].(status := status)], current := current, prev := prev)
  }

  /** Two states differ at most in statuses (not in who is a zombie), queues and the CPU. */
  ghost predicate SameShape(s: State, t: State) {
    && t.list == s.list && t.pids == s.pids && t.init == s.init && t.nextId == s.nextId && t.peak == s.peak
    && t.delivered == s.delivered && t.keeper == s.keeper && t.prev <= s.pids.max
    && t.procs.Keys == s.procs.Keys
    && (forall v :: v in s.procs ==> t.procs[v].pid == s.procs[v].pid && t.procs[v].children == s.procs[v].children)
    && (forall v :: v in s.procs ==> (t.procs[v].status == Zombie <==> s.procs[v].status == Zombie))
  }

  lemma SameShapeTree(s: State, t: State)
    requires TreeOk(s) && SameShape(s, t)
    ensures TreeOk(t)
  {
    hide NoDup;
    forall p | p in t.procs ensures ParentOk(t, p) { assert ParentOk(s, p); }
    forall p, u | IsKid(t, p, u) ensures KidOk(t, p, u) { assert IsKid(s, p, u); }
    forall u | u in t.procs && u != t.init ensures Kept(t, u) { assert Kept(s, u); }
  }

  /** The list, the allocator and everybody's pid are the same. */
  ghost predicate SameLists(s: State, t: State) {
    && t.list == s.list && t.pids == s.pids && t.peak == s.peak && t.prev <= s.pids.max && t.procs.Keys == s.procs.Keys
    && (forall v :: v in s.procs ==> t.procs[v].pid == s.procs[v].pid)
  }

  lemma SameListsOk(s: State, t: State)
    requires ListOk(s) && PidsOk(s) && SameLists(s, t)
    ensures ListOk(t) && PidsOk(t)
  {
    hide NoDup;
    assert |t.procs| == |s.procs| by { assert |t.procs.Keys| == |s.procs.Keys|; }
  }

  lemma SameShapeInv(s: State, t: State)
    requires Inv(s) && SameShape(s, t)
    ensures ListOk(t) && PidsOk(t) && InitOk(t) && TreeOk(t) && DeliveredOk(t)
  {
    hide QueueOk, CpuOk, NoDup, TreeOk, ListOk, PidsOk;
    SameShapeTree(s, t);
    SameListsOk(s, t);
  }

  lemma StatusKeepsQueues(s: State, t: State, u: nat, status: Status)
    requires QueueOk(s) && u in s.procs && s.procs[u].block.None? && status != Zombie
    requires s.procs[u].status != Zombie && t.nextId == s.nextId
    requires t.procs == s.procs[u := s.procs[u].(status := status)]
    ensures QueueOk(t)
  {
    forall r, w | InQueue(t, r, w) ensures SleepsOn(t, w, r) { assert InQueue(s, r, w); }
    forall w | w in t.procs ensures BlockOk(t, w) { assert BlockOk(s, w); }
  }

  lemma StatusChange(s: State, u: nat, status: Status, current: Option<nat>, prev: nat)
    requires Inv(s) && u in s.procs && s.procs[u].status != Zombie && status != Zombie && s.procs[u].block.None?
    requires prev <= s.pids.max && CpuOk(WithStatus(s, u, status, current, prev))
    ensures Inv(WithStatus(s, u, status, current, prev))
  {
    hide ListOk, PidsOk, InitOk, TreeOk, QueueOk, CpuOk, DeliveredOk;
    var t := WithStatus(s, u, status, current, prev);
    SameShapeInv(s, t);
    StatusKeepsQueues(s, t, u, status);
  }

  /** The running process sleeps on no queue. */
  lemma CurrentRuns(s: State)
    requires Inv(s) && HasCurrent(s)
    ensures s.procs[s.current.value].status == Running && s.procs[s.current.value].block.None?
  {
    hide ListOk, PidsOk, InitOk, TreeOk, DeliveredOk;
    assert BlockOk(s, s.current.value);
  }

  lemma YieldInv(s: State)
    requires Inv(s) && HasCurrent(s)
    ensures Inv(Yielded(s))
  {
    hide ListOk, InitOk, TreeOk, QueueOk, DeliveredOk;
    CurrentRuns(s);
    StatusChange(s, s.current.value, Ready, None, s.prev);
  }

  lemma DispatchInv(s: State, u: nat)
    requires Inv(s) && s.current.None? && u in s.procs && s.procs[u].status == Ready
    ensures Inv(Dispatched(s, u))
  {
    hide InitOk, TreeOk, DeliveredOk;
    assert BlockOk(s, u);
    StatusChange(s, u, Running, Some(u), s.procs[u].pid);
  }

  // ---- fork

  /** fork before the parent yields. */
  function Begotten(s: State): State
    requires HasCurrent(s)
  {
    var u, n, t := s.current.value, s.nextId, Spawned(s);
    t.(procs := t.procs[u := s.procs[u].(children := s.procs[u].children + [n])], keeper := s.keeper[n := u])
  }

  /** How t differs from s when the running process of s has begotten a child. */
  ghost predicate IsBegotten(s: State, t: State) {
    && HasCurrent(s) && t.current == s.current && t.init == s.init && t.prev == s.prev && t.delivered == s.delivered
    && t.nextId == s.nextId + 1 && t.pids == AfterAlloc(s.pids) && t.peak == Max(s.peak, |s.procs| + 1)
    && t.list == s.list[NextPid(s.pids) := s.nextId] && t.keeper == s.keeper[s.nextId := s.current.value]
    && s.nextId !in s.procs && t.procs.Keys == s.procs.Keys + {s.nextId} && |t.procs| == |s.procs| + 1
    && t.procs[s.nextId] == Proc(NextPid(s.pids), Ready, 0, [], [], None)
    && t.procs[s.current.value] == s.procs[s.current.value].(children := s.procs[s.current.value].children + [s.nextId])
    && (forall v :: v in s.procs && v != s.current.value ==> t.procs[v] == s.procs[v])
  }

  lemma Begets(s: State)
    requires Inv(s) && HasCurrent(s)
    ensures IsBegotten(s, Begotten(s))
  {
    hide ListOk, PidsOk, QueueOk, CpuOk, DeliveredOk, NoDup, NextPid, AfterAlloc;
    var n, t := s.nextId, Begotten(s);
    forall p | p in s.procs ensures p < n { assert ParentOk(s, p); }
    assert t.procs.Keys == s.procs.Keys + {n};
    assert |t.procs.Keys| == |s.procs.Keys| + 1;
  }

  /** The next pid belongs to nobody, so spawn overwrites no entry of the list. */
  lemma NextPidIsNew(s: State)
    requires ListOk(s) && PidsOk(s)
    ensures NextPid(s.pids) !in s.list && 1 <= NextPid(s.pids) <= AfterAlloc(s.pids).max
    ensures forall u :: u in s.procs ==> s.procs[u].pid != NextPid(s.pids)
  {
    if |s.pids.free| > 0 { assert NextPid(s.pids) in s.pids.free; }
  }

  lemma ForkList(s: State, t: State)
    requires ListOk(s) && PidsOk(s) && IsBegotten(s, t)
    ensures ListOk(t)
  {
    hide PidsOk, NextPid, AfterAlloc;
    NextPidIsNew(s);
  }

  lemma ForkPids(s: State, t: State)
    requires ListOk(s) && PidsOk(s) && IsBegotten(s, t)
    ensures PidsOk(t)
  {
    hide ListOk, NoDup;
    NextPidIsNew(s);
    if |s.pids.free| > 0 { ForkRecycled(s, t); } else { ForkFresh(s, t); }
  }

  /** The pid comes from the free list. */
  lemma ForkRecycled(s: State, t: State)
    requires PidsOk(s) && IsBegotten(s, t) && |s.pids.free| > 0
    ensures PidsOk(t)
  {
    hide NoDup;
    var f, pid := s.pids.free, NextPid(s.pids);
    NoDupInit(f);
    assert pid == f[|f| - 1] && t.pids.free == f[..|f| - 1] && t.pids.max == s.pids.max;
    assert pid in f;
    forall x | x in t.pids.free ensures 1 <= x <= t.pids.max && x !in t.list { assert x in f && x != pid; }
    assert |s.procs| + 1 <= s.pids.max;
  }

  /** The free list is empty, so all pids up to max are in use and the next one is new. */
  lemma ForkFresh(s: State, t: State)
    requires PidsOk(s) && IsBegotten(s, t) && |s.pids.free| == 0
    ensures PidsOk(t)
  {
    hide NoDup;
    assert NextPid(s.pids) == s.pids.max + 1 && t.pids == Pids(s.pids.max + 1, s.pids.free);
    assert s.pids.free == [];
    assert |t.procs| == s.pids.max + 1;
  }

  lemma NoDupInit(f: seq<nat>)
    requires NoDup(f) && |f| > 0
    ensures NoDup(f[..|f| - 1]) && f[|f| - 1] !in f[..|f| - 1] && forall x :: x in f[..|f| - 1] ==> x in f
  {
  }

  lemma NoDupAppend(q: seq<nat>, x: nat)
    requires NoDup(q) && x !in q
    ensures NoDup(q + [x])
  {
  }

  lemma ForkTree(s: State, t: State)
    requires TreeOk(s) && CpuOk(s) && InitOk(s) && IsBegotten(s, t)
    ensures TreeOk(t) && InitOk(t)
  {
    hide NoDup, NextPid, AfterAlloc;
    var u, n := s.current.value, s.nextId;
    var kids := s.procs[u].children;
    forall p, v | IsKid(s, p, v) ensures v < n {}
    forall v | v in kids ensures v < n { assert IsKid(s, u, v); }
    assert ParentOk(s, u);
    NoDupAppend(kids, n);
    forall p | p in t.procs ensures ParentOk(t, p) { if p != n { assert ParentOk(s, p); } else { NoDupEmpty(); } }
    forall p, v | IsKid(t, p, v) ensures KidOk(t, p, v) {
      assert IsKid(s, p, v) || (p == u && v == n);
    }
    assert ParentOk(s, s.init);
    forall v | v in t.procs && v != t.init ensures Kept(t, v) { if v != n { assert Kept(s, v); } }
  }

  lemma NoDupEmpty()
    ensures NoDup<nat>([])
  {
  }

  lemma ForkQueues(s: State, t: State)
    requires QueueOk(s) && IsBegotten(s, t)
    ensures QueueOk(t)
  {
    hide NextPid, AfterAlloc;
    forall r, w | InQueue(t, r, w) ensures SleepsOn(t, w, r) { assert InQueue(s, r, w); }
    forall w | w in t.procs ensures BlockOk(t, w) { if w != s.nextId { assert BlockOk(s, w); } }
  }

  lemma ForkRest(s: State, t: State)
    requires CpuOk(s) && DeliveredOk(s) && IsBegotten(s, t)
    ensures CpuOk(t) && DeliveredOk(t)
  {
    hide NoDup, NextPid, AfterAlloc;
  }

  lemma ForkInv(s: State)
    requires Inv(s) && HasCurrent(s)
    ensures Inv(Forked(s))
  {
    hide ListOk, PidsOk, TreeOk, InitOk, QueueOk, CpuOk, DeliveredOk, IsBegotten;
    var t := Begotten(s);
    Begets(s);
    ForkList(s, t);
    ForkPids(s, t);
    ForkTree(s, t);
    ForkQueues(s, t);
    ForkRest(s, t);
    BegottenCurrent(s, t);
    YieldInv(t);
  }

  lemma BegottenCurrent(s: State, t: State)
    requires IsBegotten(s, t)
    ensures HasCurrent(t)
  {
  }
}
