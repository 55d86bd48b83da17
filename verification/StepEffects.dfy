/**
 * What fork, exit and wait_for do and answer, in terms of the processes' children, states and pids alone
 * (src/process/process.rs).
 */
module StepEffects {
  import opened Basics
  import opened Processes

  // ---- fork and exit

  /**
   * fork: a new process, ready, with a pid nobody has, without children or waiters, last in the list of its parent; the
   * parent is ready, and nobody else changes.
   */
  lemma ForkEffects(s: State, t: State)
    requires Inv(s) && Takes(s, Fork, t)
    ensures var u, c := s.current.value, s.nextId;
      && c !in s.procs && t.procs.Keys == s.procs.Keys + {c} && t.current.None?
      && t.procs[c] == Proc(t.procs[c].pid, Ready, 0, [], [], None)
      && (forall v :: v in s.procs ==> s.procs[v].pid != t.procs[c].pid) && t.procs[c].pid > 0
      && t.procs[u] == s.procs[u].(status := Ready, children := s.procs[u].children + [c])
      && forall v :: v in s.procs && v != u ==> t.procs[v] == s.procs[v]
  {
    hide TreeOk, QueueOk, DeliveredOk, InitOk;
    NextPidIsNew(s);
    ChildIsNew(s);
  }

  lemma ChildIsNew(s: State)
    requires TreeOk(s)
    ensures s.nextId !in s.procs
  {
    forall v | v in s.procs ensures v < s.nextId { assert ParentOk(s, v); }
  }

  /**
   * exit: the process keeps its pid and its code and gives its children to init, the youngest entry of its list first;
   * everyone who waited for it is ready, and nobody else changes.
   */
  lemma ExitEffects(s: State, code: nat, t: State)
    requires Inv(s) && Takes(s, Exit(code), t)
    ensures var u, i := s.current.value, s.init;
      var kids, n := s.procs[u].children, |s.procs[i].children|;
      && t.procs.Keys == s.procs.Keys && t.current.None? && u != i
      && t.procs[u] == Proc(s.procs[u].pid, Zombie, code, [], [], None)
      && |t.procs[i].children| == n + |kids| && t.procs[i].children[..n] == s.procs[i].children
      && (forall k :: n <= k < n + |kids| ==> t.procs[i].children[k] == kids[n + |kids| - 1 - k])
      && (forall v :: v in s.procs[u].waiters && v in s.procs ==> t.procs[v].status == Ready)
      && (forall v :: v in s.procs && v !in s.procs[u].waiters && v != u && v != i ==> t.procs[v] == s.procs[v])
  {
    hide PidsOk, TreeOk, DeliveredOk, ListOk;
    var u := s.current.value;
    NotItsOwnWaiter(s, u);
  }

  /** A running process waits for nobody, and is in nobody's queue. */
  lemma NotItsOwnWaiter(s: State, u: nat)
    requires CpuOk(s) && QueueOk(s) && s.current == Some(u) && u in s.procs
    ensures u !in s.procs[u].waiters && s.procs[u].block.None?
  {
    if u in s.procs[u].waiters { assert InQueue(s, u, u); }
    assert BlockOk(s, u);
  }

  // ---- who is waited for

  ghost predicate IsChild(s: State, c: nat)
    requires HasCurrent(s)
  {
    c in s.procs[s.current.value].children && c in s.procs
  }

  /** A child that has exited and that a wait for this pid, or for any, is about. */
  ghost predicate Due(s: State, pid: int, c: nat)
    requires HasCurrent(s)
  {
    IsChild(s, c) && s.procs[c].status == Zombie && (pid == -1 || s.procs[c].pid == pid)
  }

  /** Position k of the caller's list holds the first child that is due. */
  ghost predicate FirstDue(s: State, pid: int, k: nat)
    requires HasCurrent(s)
  {
    var kids := s.procs[s.current.value].children;
    k < |kids| && Due(s, pid, kids[k]) && forall j :: 0 <= j < k ==> !Due(s, pid, kids[j])
  }

  /** Nobody is due, and the caller has a child and hangs. */
  ghost predicate Hangs(s: State, pid: int, nohang: bool)
    requires HasCurrent(s)
  {
    (exists c :: IsChild(s, c)) && !nohang && forall c :: !Due(s, pid, c)
  }

  ghost predicate HasPid(s: State, u: nat, pid: int) { u in s.procs && s.procs[u].pid == pid }

  // ---- the first zombie among the existing children

  lemma {:induction false} FirstOfTwo(a: seq<nat>, b: seq<nat>, procs: map<nat, Proc>, pid: int)
    requires forall u :: u in a + b ==> u in procs
    ensures FirstZombie(a + b, procs, pid) ==
      if FirstZombie(a, procs, pid).Some? then FirstZombie(a, procs, pid) else FirstZombie(b, procs, pid)
    decreases |a|
  {
    hide Matches;
    if a == [] {
      assert a + b == b;
    } else {
      assert (a + b)[1..] == a[1..] + b;
      FirstOfTwo(a[1..], b, procs, pid);
    }
  }

  ghost predicate Wanted(procs: map<nat, Proc>, pid: int, c: nat) { c in procs && Matches(pid, procs[c]) }

  lemma LastMaybe(c: nat, procs: map<nat, Proc>, pid: int)
    ensures var rest := if c in procs then [c] else [];
      FirstZombie(rest, procs, pid) == if Wanted(procs, pid, c) then Some(c) else None
  {
    assert [c][1..] == [];
  }

  lemma {:induction false} FirstInList(kids: seq<nat>, procs: map<nat, Proc>, pid: int) returns (k: nat)
    ensures k <= |kids| && forall j :: 0 <= j < k ==> !Wanted(procs, pid, kids[j])
    ensures k < |kids| ==> Wanted(procs, pid, kids[k])
    ensures FirstZombie(Existing(kids, procs), procs, pid) == if k < |kids| then Some(kids[k]) else None
    decreases |kids|
  {
    hide Matches, FirstZombie, Wanted;
    if kids == [] {
      NoZombie(procs, pid);
      return 0;
    }
    var n := |kids| - 1;
    k := FirstInList(kids[..n], procs, pid);
    FirstOfTwo(Existing(kids[..n], procs), if kids[n] in procs then [kids[n]] else [], procs, pid);
    LastMaybe(kids[n], procs, pid);
    if k == n && !Wanted(procs, pid, kids[n]) {
      k := n + 1;
    }
  }

  lemma NoZombie(procs: map<nat, Proc>, pid: int)
    ensures FirstZombie([], procs, pid) == None
  {
  }

  /**
   * The answer of one turn of wait_for. A code is handed out if and only if some child is due, and it is that of the
   * first one in the list; the other answers are decided by whether there is a child, whether the caller hangs, and who
   * has the pid.
   */
  lemma WaitAnswers(s: State, pid: int, nohang: bool)
    requires Inv(s) && HasCurrent(s)
    ensures forall q :: q in s.list ==> s.list[q] in s.procs
    ensures var r := Waited(s, pid, nohang).1;
      && (r.Reaped? <==> exists c :: Due(s, pid, c))
      && (r.NothingYet? <==> (exists c :: IsChild(s, c)) && nohang && forall c :: !Due(s, pid, c))
      && (r.TryAgain? <==> Hangs(s, pid, nohang) && pid <= 0)
      && (r.Deadlock? <==> Hangs(s, pid, nohang) && pid > 0 && HasPid(s, s.current.value, pid))
      && (r.Asleep? <==> Hangs(s, pid, nohang) && pid > 0 && exists u :: HasPid(s, u, pid) && u != s.current.value)
      && (r.NoChild? <==>
            || !(exists c :: IsChild(s, c))
            || (Hangs(s, pid, nohang) && pid > 0 && !exists u :: HasPid(s, u, pid)))
  {
    hide PidsOk, InitOk, TreeOk, CpuOk, QueueOk, DeliveredOk, Existing, FirstZombie;
    var u := s.current.value;
    var kids, t := s.procs[u].children, Retained(s);
    assert forall c :: c in t.procs <==> c in s.procs;
    SameZombies(s, t, Existing(kids, s.procs), pid);
    var k := FirstInList(kids, s.procs, pid);
    if k < |kids| {
      assert Due(s, pid, kids[k]);
    } else {
      forall c ensures !Due(s, pid, c) {
        if IsChild(s, c) {
          var j :| 0 <= j < |kids| && kids[j] == c;
          assert !Wanted(s.procs, pid, kids[j]);
        }
      }
    }
    WhoHasIt(s, pid);
    if Existing(kids, s.procs) != [] { assert IsChild(s, Existing(kids, s.procs)[0]); }
  }

  lemma WhoHasIt(s: State, pid: int)
    requires ListOk(s) && HasCurrent(s)
    ensures pid > 0 ==> (pid in s.list <==> exists u :: HasPid(s, u, pid))
    ensures pid > 0 && pid in s.list ==>
      HasPid(s, s.list[pid], pid) && forall u :: HasPid(s, u, pid) ==> u == s.list[pid]
  {
    if pid > 0 && pid in s.list { assert HasPid(s, s.list[pid], pid); }
  }

  lemma {:induction false} SameZombies(s: State, t: State, kids: seq<nat>, pid: int)
    requires t.procs.Keys == s.procs.Keys && forall c :: c in kids ==> c in s.procs
    requires forall c :: c in s.procs ==> t.procs[c].status == s.procs[c].status && t.procs[c].pid == s.procs[c].pid
    ensures FirstZombie(kids, t.procs, pid) == FirstZombie(kids, s.procs, pid)
    decreases |kids|
  {
    if kids != [] { SameZombies(s, t, kids[1..], pid); }
  }

  /** The pid that a wait gave back is the pid of the next process. */
  lemma FreedPidIsNext(s: State, pid: int, nohang: bool)
    requires HasCurrent(s) && forall q :: q in s.list ==> s.list[q] in s.procs
    requires Waited(s, pid, nohang).1.Reaped?
    ensures var w := Waited(s, pid, nohang);
      NextPid(w.0.pids) == w.1.pid && AfterAlloc(w.0.pids) == s.pids
  {
    hide Existing, FirstZombie;
    var free := s.pids.free;
    forall x: nat ensures (free + [x])[..|free|] == free {}
  }

  /** A wait that hands out a code: whose, and what goes away with it. */
  lemma WaitReaps(s: State, pid: int, nohang: bool)
    requires Inv(s) && HasCurrent(s) && (forall q :: q in s.list ==> s.list[q] in s.procs)
    requires Waited(s, pid, nohang).1.Reaped?
    ensures exists k: nat ::
      FirstDue(s, pid, k) && HandsOver(s, s.procs[s.current.value].children[k], Waited(s, pid, nohang))
    ensures Waited(s, pid, nohang).0.current == s.current && KidsKept(s, Waited(s, pid, nohang).0)
  {
    hide PidsOk, InitOk, TreeOk, QueueOk, DeliveredOk, Existing, FirstZombie;
    var u := s.current.value;
    var kids, t := s.procs[u].children, Retained(s);
    SameZombies(s, t, Existing(kids, s.procs), pid);
    var k := FirstInList(kids, s.procs, pid);
    forall j | 0 <= j < k ensures !Due(s, pid, kids[j]) { assert !Wanted(s.procs, pid, kids[j]); }
    assert kids[k] in Existing(kids, s.procs);
    assert FirstDue(s, pid, k);
  }

  /** Child c is gone, its code is the answer, and nobody else changed. */
  ghost predicate HandsOver(s: State, c: nat, w: (State, WaitResult)) {
    && c in s.procs && w.1 == Reaped(s.procs[c].pid, s.procs[c].exitCode)
    && w.0.delivered == s.delivered + [c] && w.0.procs.Keys == s.procs.Keys - {c}
    && forall v :: v in w.0.procs && s.current != Some(v) ==> w.0.procs[v] == s.procs[v]
  }

  /** The caller's list now holds exactly the children that existed. */
  ghost predicate KidsKept(s: State, t: State)
    requires HasCurrent(s)
  {
    var u := s.current.value;
    u in t.procs && forall c :: c in t.procs[u].children <==> IsChild(s, c)
  }

  /** A wait that hands out nothing: who stops running, and who is queued where. */
  lemma WaitGoesOn(s: State, pid: int, nohang: bool)
    requires Inv(s) && HasCurrent(s) && (forall q :: q in s.list ==> s.list[q] in s.procs)
    requires !Waited(s, pid, nohang).1.Reaped?
    ensures var w, u := Waited(s, pid, nohang), s.current.value;
      var t, r := w.0, w.1;
      && KidsKept(s, t) && t.delivered == s.delivered && t.procs.Keys == s.procs.Keys
      && (r.TryAgain? ==> t.current.None? && t.procs[u].status == Ready)
      && (r.Asleep? ==> t.current.None? && t.procs[u].status == Suspend && exists v ::
            HasPid(s, v, pid) && t.procs[v].waiters == s.procs[v].waiters + [u])
      && (!r.TryAgain? && !r.Asleep? ==> t.current == s.current)
      && forall v :: v in t.procs && v != u && !(r.Asleep? && HasPid(s, v, pid)) ==> t.procs[v] == s.procs[v]
  {
    hide PidsOk, InitOk, TreeOk, QueueOk, DeliveredOk, Existing, FirstZombie;
    WhoHasIt(s, pid);
  }
}
