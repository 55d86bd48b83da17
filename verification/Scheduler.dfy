/** ProcessManager::scheduler: round-robin over process ids (src/process/process.rs). */
module Scheduler {
  import opened Basics

  /** Steps from prev up to pid, going round after limit. */
  function Distance(prev: nat, pid: nat, limit: nat): (d: int)
  {
    if pid > prev then pid - prev else pid - prev + limit
  }

  /** The choice is a ready pid, the first one met going up from prev and round. */
  ghost predicate Nearest(ready: set<nat>, prev: nat, limit: nat, pid: nat) {
    pid in ready && forall q :: q in ready ==> Distance(prev, pid, limit) <= Distance(prev, q, limit)
  }

  /** All pids are between 1 and limit, and prev is one of them or zero. */
  ghost predicate InLimit(ready: set<nat>, prev: nat, limit: nat) {
    prev <= limit && forall q :: q in ready ==> 1 <= q <= limit
  }

  /** The scheduler: first the ready pids above prev in ascending order, then those up to prev. */
  method Choose(ready: set<nat>, prev: nat, limit: nat) returns (r: Option<nat>)
    requires InLimit(ready, prev, limit)
    ensures r.None? <==> ready == {}
    ensures r.Some? ==> Nearest(ready, prev, limit, r.value)
  {
    var q := prev + 1;
    while q <= limit
      invariant prev < q <= limit + 1
      invariant forall p :: p in ready && p > prev ==> p >= q
    {
      if q in ready {
        return Some(q);
      }
      q := q + 1;
    }
    q := 0;
    while q <= prev
      invariant 0 <= q <= prev + 1
      invariant forall p :: p in ready ==> q <= p <= prev
    {
      if q in ready {
        return Some(q);
      }
      q := q + 1;
    }
    r := None;
  }

  /** Nearest in plain words: the least ready pid above prev or, if there is none, the least ready pid of all. */
  lemma NearestIsNext(ready: set<nat>, prev: nat, limit: nat, pid: nat)
    requires InLimit(ready, prev, limit)
    ensures Nearest(ready, prev, limit, pid) <==>
      && pid in ready
      && (pid > prev ==> forall q :: q in ready && q > prev ==> pid <= q)
      && (pid <= prev ==> forall q :: q in ready ==> pid <= q <= prev)
  {
    if Nearest(ready, prev, limit, pid) {
      forall q | q in ready ensures Distance(prev, pid, limit) <= Distance(prev, q, limit) {}
    }
  }

  /** A choice other than `waiting` brings the scheduler strictly closer to it. */
  lemma CloserEveryTime(ready: set<nat>, prev: nat, limit: nat, pid: nat, waiting: nat)
    requires InLimit(ready, prev, limit) && Nearest(ready, prev, limit, pid) && waiting in ready && pid != waiting
    ensures Distance(pid, waiting, limit) == Distance(prev, waiting, limit) - Distance(prev, pid, limit)
    ensures 1 <= Distance(pid, waiting, limit) < Distance(prev, waiting, limit) <= limit
  {
  }

  /** previous_scheduled_pid before selection k. */
  function PrevAt(prev: nat, picks: seq<nat>, k: nat): nat
    requires k <= |picks|
  {
    if k == 0 then prev else picks[k - 1]
  }

  /** A run of selections: what was ready each time, and what was chosen; each choice starts from the one before. */
  ghost predicate Selections(prev: nat, limit: nat, readies: seq<set<nat>>, picks: seq<nat>) {
    && |readies| == |picks|
    && (forall k :: 0 <= k < |picks| ==>
          && InLimit(readies[k], PrevAt(prev, picks, k), limit)
          && Nearest(readies[k], PrevAt(prev, picks, k), limit, picks[k]))
  }

  lemma SelectionsPrefix(prev: nat, limit: nat, readies: seq<set<nat>>, picks: seq<nat>, n: nat)
    requires Selections(prev, limit, readies, picks) && n <= |picks|
    ensures Selections(prev, limit, readies[..n], picks[..n])
  {
    hide InLimit, Nearest;
    forall k | 0 <= k < n
      ensures PrevAt(prev, picks[..n], k) == PrevAt(prev, picks, k) && readies[..n][k] == readies[k]
        && picks[..n][k] == picks[k]
    {
    }
  }

  /** While `waiting` stays ready and is passed over, every selection costs at least one step of distance. */
  lemma {:induction false} PassedOver(prev: nat, limit: nat, readies: seq<set<nat>>, picks: seq<nat>, waiting: nat)
    requires Selections(prev, limit, readies, picks) && picks != []
    requires forall k :: 0 <= k < |picks| ==> waiting in readies[k] && picks[k] != waiting
    ensures Distance(picks[|picks| - 1], waiting, limit) + |picks| <= Distance(prev, waiting, limit) <= limit
    ensures Distance(picks[|picks| - 1], waiting, limit) >= 1
    decreases |picks|
  {
    hide Distance, InLimit, Nearest;
    var n := |picks| - 1;
    CloserEveryTime(readies[n], PrevAt(prev, picks, n), limit, picks[n], waiting);
    if n > 0 {
      SelectionsPrefix(prev, limit, readies, picks, n);
      PassedOver(prev, limit, readies[..n], picks[..n], waiting);
    }
  }

  /** Bounded bypass: a process that stays ready is chosen within `limit` selections, whatever the others do. */
  lemma BoundedBypass(prev: nat, limit: nat, readies: seq<set<nat>>, picks: seq<nat>, waiting: nat)
    requires Selections(prev, limit, readies, picks) && |picks| == limit > 0
    requires forall k :: 0 <= k < |picks| ==> waiting in readies[k]
    ensures exists k :: 0 <= k < limit && picks[k] == waiting
  {
    if forall k :: 0 <= k < limit ==> picks[k] != waiting {
      PassedOver(prev, limit, readies, picks, waiting);
    }
  }

  /** The choice is determined. */
  lemma NearestIsUnique(ready: set<nat>, prev: nat, limit: nat, p: nat, q: nat)
    requires InLimit(ready, prev, limit) && Nearest(ready, prev, limit, p) && Nearest(ready, prev, limit, q)
    ensures p == q
  {
    assert Distance(prev, p, limit) == Distance(prev, q, limit);
  }
}
