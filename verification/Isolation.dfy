/**
 * The memory of all processes together, as values: address spaces and kernel stacks on one machine share no frame, and
 * none is lost, whatever step one of them takes and whichever comes or goes.
 */
module Isolation {
  import opened Physical
  import opened AddressSpaces

  // ---- address spaces

  ghost function AllOwned(views: seq<Space>): (s: set<nat>)
    ensures forall i :: 0 <= i < |views| ==> Owned(views[i]) <= s
    ensures forall f :: f in s ==> exists i :: 0 <= i < |views| && f in Owned(views[i])
  {
    set i, f | 0 <= i < |views| && f in Owned(views[i]) :: f
  }

  /** Every space is good on the same machine, no two share a frame, and owned plus free frames make up `total`. */
  ghost predicate Coherent(views: seq<Space>, m: Memory, free: set<nat>, total: set<nat>) {
    && (forall i :: 0 <= i < |views| ==> SpaceOk(views[i]) && views[i].m == m && views[i].free == free)
    && (forall i, j :: 0 <= i < j < |views| ==> Owned(views[i]) !! Owned(views[j]))
    && (forall f :: f in total <==> f in free || f in AllOwned(views))
  }

  lemma CoherentAt(views: seq<Space>, i: nat, m: Memory, free: set<nat>, total: set<nat>)
    requires i < |views| && Coherent(views, m, free, total)
    ensures views[i].m == m && views[i].free == free && SpaceOk(views[i])
    ensures Owned(views[i]) <= m.Keys && Owned(views[i]) <= total && Owned(views[i]) !! free
  {
    hide SpaceOk, Owned;
    forall f | f in Owned(views[i]) ensures f in m && f !in free { OwnedIsRam(views[i], f); }
  }

  lemma PairSeparate(views: seq<Space>, m: Memory, free: set<nat>, total: set<nat>, i: nat, j: nat)
    requires Coherent(views, m, free, total) && i < |views| && j < |views| && i != j
    ensures Owned(views[j]) !! Owned(views[i])
  {
    hide SpaceOk, Owned;
  }

  /** The spaces after space i went to s: the others see the new memory and the new free set. */
  function After(views: seq<Space>, i: nat, s: Space): (r: seq<Space>)
    requires i < |views|
    ensures |r| == |views|
    ensures forall j :: 0 <= j < |views| ==> r[j] == if j == i then s else Now(views[j], s)
  {
    seq(|views|, j requires 0 <= j < |views| => if j == i then s else Now(views[j], s))
  }

  /** A step of one space keeps the whole system coherent and every other space's bytes. */
  lemma SystemStep(views: seq<Space>, i: nat, s: Space, total: set<nat>)
    requires i < |views| && Coherent(views, views[i].m, views[i].free, total)
    requires SpaceStep(views[i], s) && SpaceOk(s)
    ensures Coherent(After(views, i, s), s.m, s.free, total)
    ensures forall j :: 0 <= j < |views| && j != i ==> Keeps(views[j], After(views, i, s)[j], views[j].maps.Keys)
  {
    hide SpaceOk, SpaceStep, Keeps, Owned;
    var r := After(views, i, s);
    forall j | 0 <= j < |views| && j != i
      ensures SpaceOk(r[j]) && Keeps(views[j], r[j], views[j].maps.Keys)
      ensures Owned(r[j]) == Owned(views[j]) && Owned(s) !! Owned(views[j])
    {
      assert Owned(views[j]) !! Owned(views[i]);
      OtherSpaceKept(views[i], s, views[j]);
      NowOwned(views[j], s);
    }
    StepConserves(views[i], s);
    forall f ensures f in total <==> f in s.free || f in AllOwned(r) {
      if f in AllOwned(views) {
        var j :| 0 <= j < |views| && f in Owned(views[j]);
        assert f in Owned(r[j]) || j == i;
      }
      if f in AllOwned(r) {
        var j :| 0 <= j < |r| && f in Owned(r[j]);
        assert f in Owned(views[j]) || j == i;
      }
    }
  }

  lemma StepConserves(s0: Space, s: Space)
    requires SpaceStep(s0, s)
    ensures Owned(s) + s.free == Owned(s0) + s0.free
  {
  }

  /**
   * A new space made out of free frames joins the others, after the frames in `taken` were taken for something else.
   */
  lemma SystemAdd(views: seq<Space>, m: Memory, free: set<nat>, total: set<nat>, taken: set<nat>, s: Space)
    requires Coherent(views, m, free, total) && taken <= free
    requires SpaceOk(s) && Owned(s) <= free - taken && s.free == free - taken - Owned(s)
    requires s.m.Keys == m.Keys && forall f :: f in m && f !in free ==> s.m[f] == m[f]
    ensures Coherent(Joined(views, s), s.m, s.free, total - taken)
    ensures forall j :: 0 <= j < |views| ==> Keeps(views[j], Joined(views, s)[j], views[j].maps.Keys)
  {
    hide SpaceOk, Keeps, Owned, Coherent;
    var r := Joined(views, s);
    forall j | 0 <= j < |views|
      ensures SpaceOk(r[j]) && Keeps(views[j], r[j], views[j].maps.Keys)
      ensures Owned(r[j]) == Owned(views[j]) && Owned(views[j]) !! free
    {
      CoherentAt(views, j, m, free, total);
      SameFrames(views[j], s.m, s.free);
      NowOwned(views[j], s);
    }
    JoinedFrames(views, m, free, total, taken, s);
  }

  lemma JoinedFrames(views: seq<Space>, m: Memory, free: set<nat>, total: set<nat>, taken: set<nat>, s: Space)
    requires Coherent(views, m, free, total) && taken <= free && SpaceOk(s)
    requires Owned(s) <= free - taken && s.free == free - taken - Owned(s)
    requires forall j :: 0 <= j < |views| ==>
      SpaceOk(Joined(views, s)[j]) && Owned(Joined(views, s)[j]) == Owned(views[j]) && Owned(views[j]) !! free
    ensures Coherent(Joined(views, s), s.m, s.free, total - taken)
  {
    hide SpaceOk, Owned, AllOwned;
    var r := Joined(views, s);
    forall f ensures f in total - taken <==> f in s.free || f in AllOwned(r) {
      if f in AllOwned(views) {
        var j :| 0 <= j < |views| && f in Owned(views[j]);
        assert f in Owned(r[j]);
      }
      if f in Owned(s) { assert f in Owned(r[|views|]); }
      if f in AllOwned(r) {
        var j :| 0 <= j < |r| && f in Owned(r[j]);
        assert j == |views| || f in Owned(views[j]);
      }
    }
  }

  function Joined(views: seq<Space>, s: Space): (r: seq<Space>)
    ensures |r| == |views| + 1 && r[|views|] == s
    ensures forall j :: 0 <= j < |views| ==> r[j] == Now(views[j], s)
  {
    seq(|views|, j requires 0 <= j < |views| => Now(views[j], s)) + [s]
  }

  /**
   * A space that is dropped gives all its frames back, and so do the frames in `given`; the other spaces stay as they
   * are.
   */
  lemma SystemRemove(views: seq<Space>, i: nat, m: Memory, free: set<nat>, total: set<nat>, given: set<nat>)
    requires i < |views| && Coherent(views, m, free, total) && given !! total
    ensures Coherent(Without(views, i, given), m, free + Owned(views[i]) + given, total + given)
    ensures forall j :: 0 <= j < |views| - 1 ==>
      Keeps(views[Old(i, j)], Without(views, i, given)[j], views[Old(i, j)].maps.Keys)
  {
    hide SpaceOk, Keeps, Owned, AllOwned;
    var r := Without(views, i, given);
    forall j | 0 <= j < |r|
      ensures SpaceOk(r[j]) && Keeps(views[Old(i, j)], r[j], views[Old(i, j)].maps.Keys)
      ensures Owned(r[j]) == Owned(views[Old(i, j)]) && r[j].m == m && r[j].free == free + Owned(views[i]) + given
    {
      BesideDropped(views, i, Old(i, j), m, free, total, given);
    }
    RemovedFrames(views, i, m, free, total, given);
  }

  lemma BesideDropped(views: seq<Space>, i: nat, k: nat, m: Memory, free: set<nat>, total: set<nat>, given: set<nat>)
    requires i < |views| && k < |views| && k != i && Coherent(views, m, free, total) && given !! total
    ensures var after := Freed(views[k], views[i], given);
      && SpaceOk(after) && Keeps(views[k], after, views[k].maps.Keys) && Owned(after) == Owned(views[k])
      && after.m == m && after.free == free + Owned(views[i]) + given
  {
    hide SpaceOk, Keeps, Owned, Coherent;
    CoherentAt(views, i, m, free, total);
    CoherentAt(views, k, m, free, total);
    PairSeparate(views, m, free, total, i, k);
    SameFrames(views[k], m, free + Owned(views[i]) + given);
    NowOwned(views[k], Freed(views[k], views[i], given));
  }

  lemma RemovedFrames(views: seq<Space>, i: nat, m: Memory, free: set<nat>, total: set<nat>, given: set<nat>)
    requires i < |views| && Coherent(views, m, free, total)
    requires forall j :: 0 <= j < |views| - 1 ==> Owned(Without(views, i, given)[j]) == Owned(views[Old(i, j)])
    ensures forall f :: f in total + given <==>
      f in free + Owned(views[i]) + given || f in AllOwned(Without(views, i, given))
  {
    hide SpaceOk, Owned, AllOwned;
    var r := Without(views, i, given);
    forall f ensures f in AllOwned(views) <==> f in Owned(views[i]) || f in AllOwned(r) {
      if f in AllOwned(views) {
        var j :| 0 <= j < |views| && f in Owned(views[j]);
        if j != i {
          var k := if j < i then j else j - 1;
          assert Old(i, k) == j && f in Owned(r[k]);
        }
      }
      if f in AllOwned(r) {
        var j :| 0 <= j < |r| && f in Owned(r[j]);
        assert f in Owned(views[Old(i, j)]);
      }
    }
  }

  /** The place j had before number i was taken out. */
  function Old(i: nat, j: nat): nat { if j < i then j else j + 1 }

  lemma OldGrows(i: nat, j: nat, k: nat, n: nat)
    requires j < k < n - 1
    ensures Old(i, j) < Old(i, k) < n
  {
  }

  /** A sequence without its element number i. */
  function Removed<T>(s: seq<T>, i: nat): (r: seq<T>)
    requires i < |s|
    ensures |r| == |s| - 1 && forall j :: 0 <= j < |r| ==> Old(i, j) < |s| && r[j] == s[Old(i, j)]
  {
    s[..i] + s[i + 1..]
  }

  /** A space, on the machine where all frames of another are free, and `given` too. */
  function Freed(s: Space, gone: Space, given: set<nat>): Space {
    s.(m := gone.m, free := gone.free + Owned(gone) + given)
  }

  function Without(views: seq<Space>, i: nat, given: set<nat>): (r: seq<Space>)
    requires i < |views|
    ensures |r| == |views| - 1
    ensures forall j :: 0 <= j < |r| ==> r[j] == Freed(views[Old(i, j)], views[i], given)
  {
    seq(|views| - 1, j requires 0 <= j < |views| - 1 => Freed(views[Old(i, j)], views[i], given))
  }

  // ---- kernel stacks

  ghost function AllStacks(stacks: seq<nat>): (s: set<nat>)
    ensures forall i :: 0 <= i < |stacks| ==> StackFrames(stacks[i]) <= s
    ensures forall f :: f in s ==> exists i :: 0 <= i < |stacks| && f in StackFrames(stacks[i])
  {
    set i, f | 0 <= i < |stacks| && f in StackFrames(stacks[i]) :: f
  }

  /** The kernel stacks are made of frames of `total`, and no two share one. */
  ghost predicate StacksApart(stacks: seq<nat>, total: set<nat>) {
    && AllStacks(stacks) <= total
    && forall i, j :: 0 <= i < j < |stacks| ==> StackFrames(stacks[i]) !! StackFrames(stacks[j])
  }

  /** A stack made of frames that were not a stack's joins the others. */
  lemma StackAdd(stacks: seq<nat>, first: nat, total: set<nat>)
    requires StacksApart(stacks, total) && StackFrames(first) <= total - AllStacks(stacks)
    ensures StacksApart(stacks + [first], total)
    ensures total - AllStacks(stacks + [first]) == total - AllStacks(stacks) - StackFrames(first)
  {
    hide StackFrames;
    var r := stacks + [first];
    assert AllStacks(r) == AllStacks(stacks) + StackFrames(first) by {
      forall f ensures f in AllStacks(r) <==> f in AllStacks(stacks) || f in StackFrames(first) {
        if f in AllStacks(stacks) {
          var j :| 0 <= j < |stacks| && f in StackFrames(stacks[j]);
          assert r[j] == stacks[j];
        }
        assert r[|stacks|] == first;
      }
    }
  }

  lemma StackRemove(stacks: seq<nat>, i: nat, total: set<nat>)
    requires i < |stacks| && StacksApart(stacks, total)
    ensures var r := Removed(stacks, i);
      StacksApart(r, total) && total - AllStacks(r) == total - AllStacks(stacks) + StackFrames(stacks[i])
  {
    hide StackFrames, Removed;
    var r := Removed(stacks, i);
    assert AllStacks(r) == AllStacks(stacks) - StackFrames(stacks[i]) by {
      forall f ensures f in AllStacks(r) <==> f in AllStacks(stacks) && f !in StackFrames(stacks[i]) {
        if f in AllStacks(stacks) && f !in StackFrames(stacks[i]) {
          var j :| 0 <= j < |stacks| && f in StackFrames(stacks[j]);
          var k := if j < i then j else j - 1;
          assert r[k] == stacks[j];
        }
        if f in AllStacks(r) {
          var j :| 0 <= j < |r| && f in StackFrames(r[j]);
          assert f in StackFrames(stacks[Old(i, j)]);
        }
      }
    }
  }
}
