/**
 * A run in which a wakeup is lost (src/process/process.rs): init waits for the pid of a grandchild that is a zombie,
 * and only then becomes its parent. Init sleeps for ever although a child it waits for has exited.
 */
module LostWakeup {
  import opened Basics
  import opened Processes
  import opened ProcessRuns

  function Plain(pid: nat, status: Status, children: seq<nat>): Proc { Proc(pid, status, 0, children, [], None) }

  function S1(): State {
    State(map[0 := Plain(1, Running, [])], map[1 := 0], Pids(1, []), 1, Some(0), 0, 1, 1, [], map[])
  }

  function S2(): State {
    State(map[0 := Plain(1, Ready, [1]), 1 := Plain(2, Ready, [])], map[1 := 0, 2 := 1], Pids(2, []), 1, None, 0, 2, 2,
        [], map[1 := 0])
  }

  function S3(): State {
    State(map[0 := Plain(1, Ready, [1]), 1 := Plain(2, Running, [])], map[1 := 0, 2 := 1], Pids(2, []), 2, Some(1), 0,
        2, 2, [], map[1 := 0])
  }

  /** All later states have three processes. */
  function Three(p0: Proc, p1: Proc, p2: Proc, prev: nat, current: Option<nat>, keeper: nat): State {
    State(map[0 := p0, 1 := p1, 2 := p2], map[1 := 0, 2 := 1, 3 := 2], Pids(3, []), prev, current, 0, 3, 3, [],
        map[1 := 0, 2 := keeper])
  }

  function S4(): State { Three(Plain(1, Ready, [1]), Plain(2, Ready, [2]), Plain(3, Ready, []), 2, None, 1) }

  function S5(): State { Three(Plain(1, Ready, [1]), Plain(2, Ready, [2]), Plain(3, Running, []), 3, Some(2), 1) }

  function S6(): State {
    Three(Plain(1, Ready, [1]), Plain(2, Ready, [2]), Proc(3, Zombie, 7, [], [], None), 3, None, 1)
  }

  function S7(): State {
    Three(Plain(1, Running, [1]), Plain(2, Ready, [2]), Proc(3, Zombie, 7, [], [], None), 1, Some(0), 1)
  }

  function Sleeper(children: seq<nat>): Proc { Proc(1, Suspend, 0, children, [], Some(Block(2, true))) }

  function S8(): State { Three(Sleeper([1]), Plain(2, Ready, [2]), Proc(3, Zombie, 7, [], [0], None), 1, None, 1) }

  function S9(): State { Three(Sleeper([1]), Plain(2, Running, [2]), Proc(3, Zombie, 7, [], [0], None), 2, Some(1), 1) }

  function S10(): State {
    Three(Sleeper([1, 2]), Proc(2, Zombie, 0, [], [], None), Proc(3, Zombie, 7, [], [0], None), 2, None, 0)
  }

  lemma Booted()
    ensures Takes(Boot(), Dispatch(0), S1()) && Takes(S1(), Fork, S2())
  {
    var t := Forked(S1());
    assert S1().procs.Keys == {0};
    assert |S1().procs| == |S1().procs.Keys| == 1;
    assert [] + [1] == [1];
    assert t.procs == S2().procs && t.list == S2().list && t.keeper == S2().keeper;
  }

  lemma FirstChildForks()
    ensures Takes(S2(), Dispatch(1), S3()) && Takes(S3(), Fork, S4())
  {
    var t := Forked(S3());
    assert S3().procs.Keys == {0, 1};
    assert |S3().procs| == |S3().procs.Keys| == 2;
    assert [] + [2] == [2];
    assert t.procs == S4().procs && t.list == S4().list && t.keeper == S4().keeper;
  }

  lemma GrandchildExits()
    ensures Takes(S4(), Dispatch(2), S5()) && Takes(S5(), Exit(7), S6())
  {
    var t := Exited(S5(), 7);
    assert [1] + Reversed([]) == [1];
    assert t.procs == S6().procs && t.keeper == S6().keeper;
  }

  lemma InitRuns()
    ensures Takes(S6(), Dispatch(0), S7())
  {
  }

  lemma KidsStay()
    ensures Existing([1], S7().procs) == [1] && FirstZombie([1], S7().procs, 3) == None
  {
    assert [1][..0] == [];
    assert Existing([], S7().procs) == [];
    assert [1][1..] == [];
  }

  lemma NothingRetained()
    ensures Retained(S7()) == S7()
  {
    hide Existing, FirstZombie;
    KidsStay();
    assert Retained(S7()).procs == S7().procs;
  }

  lemma InitSleeps()
    ensures Sleep(S7(), 2) == S8()
  {
    assert [] + [0] == [0];
    assert Sleep(S7(), 2).procs == S8().procs;
  }

  lemma InitWaits()
    ensures Takes(S7(), Wait(3, false), S8())
  {
    hide Existing, FirstZombie, Retained, Sleep;
    KidsStay();
    NothingRetained();
    InitSleeps();
    assert forall q :: q in S7().list ==> S7().list[q] in S7().procs;
    assert Waited(S7(), 3, false) == (S8(), Asleep);
  }

  lemma ChildRuns()
    ensures Takes(S8(), Dispatch(1), S9())
  {
  }

  lemma ChildExits()
    ensures Takes(S9(), Exit(0), S10())
  {
    var t := Exited(S9(), 0);
    assert Reversed([2]) == [2] by { assert [2][..0] == []; }
    assert [1] + [2] == [1, 2];
    assert t.procs == S10().procs && t.keeper == S10().keeper;
  }

  /** In this run a process sleeps in wait_for on a child of its own that is a zombie, and will never be woken. */
  lemma WakeupIsLost() returns (states: seq<State>, steps: seq<Step>)
    ensures IsRun(states, steps)
    ensures var s := states[|states| - 1];
            && s.init in s.procs && s.procs[s.init].status == Suspend && s.procs[s.init].block == Some(Block(2, true))
            && IsKid(s, s.init, 2) && 2 in s.procs && s.procs[2].status == Zombie && s.procs[2].exitCode == 7
  {
    hide Takes, Boot, S1, S2, S3, S4, S5, S6, S7, S8, S9;
    states := [Boot(), S1(), S2(), S3(), S4(), S5(), S6(), S7(), S8(), S9(), S10()];
    steps := [Dispatch(0), Fork, Dispatch(1), Fork, Dispatch(2), Exit(7), Dispatch(0), Wait(3, false), Dispatch(1),
        Exit(0)];
    Booted();
    FirstChildForks();
    GrandchildExits();
    InitRuns();
    InitWaits();
    ChildRuns();
    ChildExits();
  }
}
