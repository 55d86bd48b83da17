/**
 * All processes of the machine together: over every run of the operations on their memory, and of the stores of their
 * programs, each operation does what it promises to its own process, no frame is shared and none is lost, and the bytes
 * of every other process stay as they are. The arguments of execve must fit a page; what happens otherwise is in
 * InitialStack.
 */
module Kernels {
  import opened Basics
  import opened Words
  import opened Physical
  import opened Sv39
  import opened PageTables
  import opened HardwareWalk
  import opened AddressSpaces
  import opened FreeRuns
  import opened ProcessMemories
  import opened InitialStack
  import opened ElfLoader
  import opened UserStores
  import opened Isolation

  // ---- operations and what they do

  datatype SpaceOp =
    | Spawn
    | Fork(i: nat)
    | Drop(i: nat)
    | Reset(i: nat)
    | Brk(i: nat, newBrk: nat)
    | GrowStack(i: nat)
    | Mmap(i: nat, addr: nat, len: nat, flags: Flags, fixed: bool, backing: Backing, offset: nat)
    | Munmap(i: nat, addr: nat, len: nat)
    | UserStore(i: nat, w: Write)
    | Exec(i: nat, segs: seq<Segment>, file: seq<Byte>, argv: seq<Str>, env: seq<Str>, aux: seq<Aux>)

  /** What the system knows of one process's memory; its kernel stack starts at frame kernelStack. */
  datatype Process = Process(space: Space, brk: nat, minBrk: nat, stackTop: nat, kernelStack: nat)

  datatype System = System(procs: seq<Process>, m: Memory, free: set<nat>)

  /**
   * The operations the theorem covers: those on pages outside the kernel's gigabyte, with arguments of at most a page.
   */
  ghost predicate OpInBounds(op: SpaceOp) {
    match op
    case Brk(_, newBrk) => newBrk <= USER_STACK_BASE
    case Mmap(_, addr, len, _, fixed, _, _) => fixed ==>
      forall v :: v in PageRange(addr / PAGE_SIZE, CallPages(addr, len)) ==> UserPage(v)
    case Exec(_, segs, _, argv, env, aux) => SegmentsInUserSpace(segs) && StackDepth(argv, env, |aux|) <= PAGE_SIZE
    case _ => true
  }

  ghost predicate SegmentsInUserSpace(segs: seq<Segment>) {
    forall k, v :: 0 <= k < |segs| && v in SegmentPages(segs[k]) ==> UserPage(v)
  }

  lemma OpBounds(op: SpaceOp)
    requires OpInBounds(op)
    ensures op.Brk? ==> op.newBrk <= USER_STACK_BASE
    ensures op.Exec? ==> SegmentsInUserSpace(op.segs) && StackDepth(op.argv, op.env, |op.aux|) <= PAGE_SIZE
    ensures op.Mmap? && op.fixed ==> forall v :: v in PageRange(op.addr / PAGE_SIZE, CallPages(op.addr, op.len)) ==>
      UserPage(v)
  {
  }

  /** The pages a change of the break adds. */
  function BreakPages(a: Process, newBrk: nat): set<nat> {
    if a.minBrk <= newBrk && a.brk < newBrk then BrkPages(a.brk, newBrk) else {}
  }

  /** What an operation does to the process it is for. */
  ghost predicate OnProcess(op: SpaceOp, a: Process, b: Process) {
    match op
    case Reset(_) => b == a.(space := b.space, brk := 0, stackTop := USER_STACK_BASE) && b.space.maps == map[]
    case Brk(_, newBrk) =>
      && b == a.(space := b.space, brk := if newBrk < a.minBrk then a.brk else newBrk)
      && Grew(a.space, b.space, ZeroPages(BreakPages(a, newBrk), URW))
      && (a.brk < b.brk ==> HeapGrew(a.space, b.space, a.brk, b.brk))
    case GrowStack(_) =>
      && b == a.(space := b.space, stackTop := NextStackPage(a.stackTop) * PAGE_SIZE)
      && Grew(a.space, b.space, ZeroPages({NextStackPage(a.stackTop)}, URW))
      && StackGrew(a.space, b.space, a.stackTop, b.stackTop)
    case Mmap(_, addr, len, flags, fixed, backing, offset) =>
      && b == a.(space := b.space)
      && exists reply ::
           && CallResult(a.space, b.space, addr, len, flags, fixed, backing, offset,
                         MmapLast(MMAP_BASE), BrkPage(a.brk), reply)
           && CallShows(a.space, b.space, addr, len, flags, fixed, backing, offset, 0x6000_0000, a.brk, reply)
    case Munmap(_, addr, len) =>
      && b == a.(space := b.space) && Shrunk(a.space, b.space, PageRange(addr / PAGE_SIZE, GonePages(addr, len)))
      && forall v: nat :: v in b.space.maps <==> v in a.space.maps && !EndsInside(v, addr, len)
    case UserStore(_, w) => b == a.(space := UserStores.Store(a.space, w))
    case Exec(_, segs, file, argv, env, aux) =>
      && b == Process(b.space, b.brk, b.brk, USER_STACK_BASE - PAGE_SIZE, a.kernelStack)
      && BreakAt(b.space.maps.Keys, b.brk)
      && ProgramInPlace(b.space, segs, file) && ImageLoaded(b.space.m, b.space.maps, segs, file)
      && ProgramUsable(b.space, segs)
      && (ArgsOk(argv, env, aux) && StackDepth(argv, env, |aux|) <= PAGE_SIZE ==>
            StackReady(b.space.m, b.space.maps, USER_STACK_BASE - StackDepth(argv, env, |aux|), argv, env, aux))
    case _ => false
  }

  /** A process whose memory nothing happened to. */
  ghost predicate Same(a: Process, b: Process) {
    && Keeps(a.space, b.space, a.space.maps.Keys) && b.space.maps == a.space.maps && b.space.root == a.space.root
    && b.brk == a.brk && b.minBrk == a.minBrk && b.stackTop == a.stackTop && StackKept(a, b)
  }

  ghost predicate StackKept(a: Process, b: Process) {
    && b.kernelStack == a.kernelStack
    && forall f :: f in StackFrames(a.kernelStack) ==> f in a.space.m && f in b.space.m && b.space.m[f] == a.space.m[f]
  }

  ghost predicate OthersSame(p0: seq<Process>, p: seq<Process>, i: nat) {
    |p| == |p0| && forall j :: 0 <= j < |p0| && j != i ==> Same(p0[j], p[j])
  }

  /** What an operation does to the system; one for a process that does not exist does nothing. */
  ghost predicate StepOf(op: SpaceOp, s0: System, s: System) {
    var p0, p, n := s0.procs, s.procs, |s0.procs|;
    match op
    case Spawn =>
      && |p| == n + 1 && OthersSame(p0, p[..n], n) && p[n].space.maps == map[]
      && p[n] == Process(p[n].space, 0, 0, USER_STACK_BASE, p[n].kernelStack) && FreeStack(s0.free, p[n].kernelStack)
    case Fork(i) =>
      if i >= n then s == s0 else
        && |p| == n + 1 && OthersSame(p0, p[..n], n) && SamePages(p0[i].space, p[n].space)
        && p[n] == Process(p[n].space, p0[i].brk, 0, p0[i].stackTop, p[n].kernelStack)
        && FreeStack(s0.free, p[n].kernelStack)
    case Drop(i) =>
      if i >= n then s == s0 else
        && |p| == n - 1 && s.m == s0.m
        && s.free == s0.free + Owned(p0[i].space) + StackFrames(p0[i].kernelStack)
        && forall j :: 0 <= j < n - 1 ==> Same(p0[Old(i, j)], p[j])
    case _ => if op.i >= n then s == s0 else OthersSame(p0, p, op.i) && OnProcess(op, p0[op.i], p[op.i])
  }

  lemma StepOnOne(op: SpaceOp, s0: System, s: System)
    requires !op.Spawn? && !op.Fork? && !op.Drop? && op.i < |s0.procs| == |s.procs|
    requires OthersSame(s0.procs, s.procs, op.i) && OnProcess(op, s0.procs[op.i], s.procs[op.i])
    ensures StepOf(op, s0, s)
  {
    hide OthersSame, OnProcess;
  }

  /** The reasons an operation can stop the kernel. */
  ghost predicate MayPanic(op: SpaceOp, s: System, why: Panic) {
    match op
    case Spawn => why.OutOfFrames? && NoRoom(s.free, 0)
    case Fork(i) => i < |s.procs| && why.OutOfFrames? && NoRoom(s.free, 3 * |s.procs[i].space.maps|)
    case Drop(i) => false
    case _ => op.i < |s.procs| && PanicOn(op, s.procs[op.i], |s.free|, why)
  }

  lemma PanicOnOne(op: SpaceOp, s: System, why: Panic)
    requires !op.Spawn? && !op.Fork? && !op.Drop? && op.i < |s.procs| && PanicOn(op, s.procs[op.i], |s.free|, why)
    ensures MayPanic(op, s, why)
  {
    hide PanicOn;
  }

  /** No kernel stack can be allocated, or nothing beyond it and n frames more. */
  ghost predicate NoRoom(free: set<nat>, n: nat) {
    (forall first :: !FreeStack(free, first)) || |free| <= KERNEL_STACK_PAGES + n
  }

  ghost predicate PanicOn(op: SpaceOp, a: Process, free: nat, why: Panic)
    requires !op.Spawn?
  {
    match op
    case Reset(_) => why.OutOfFrames? && free == 0
    case Brk(_, newBrk) =>
      || (why.Unimplemented? && a.minBrk <= newBrk < a.brk)
      || (why.AlreadyMapped? && !(BreakPages(a, newBrk) !! a.space.maps.Keys))
      || (why.OutOfFrames? && free < 3 * BrkCount(a.brk, newBrk))
    case GrowStack(_) =>
      || (why.AlreadyMapped? && NextStackPage(a.stackTop) in a.space.maps)
      || (why.OutOfFrames? && free < 3)
    case Mmap(_, addr, len, _, fixed, _, offset) =>
      var n := CallPages(addr, len);
      || (why.Overflow? && len > 0 && !fixed && RunTooLong(a.space.maps.Keys, MmapLast(MMAP_BASE), BrkPage(a.brk), n))
      || (why.OutOfFrames? && len > 0 && free < 3 * n)
      || (why.Unimplemented? && len > 0 && !Supported(addr, offset))
    case Munmap(_, addr, len) => why.NotMapped? && exists v: nat :: EndsInside(v, addr, len) && v !in a.space.maps
    case Exec(_, segs, file, _, _, _) => ExecFails(a.space, segs, file, why)
    case _ => false
  }

  function SpacesOf(procs: seq<Process>): (v: seq<Space>)
    ensures |v| == |procs| && forall i :: 0 <= i < |procs| ==> v[i] == procs[i].space
  {
    seq(|procs|, i requires 0 <= i < |procs| => procs[i].space)
  }

  function StacksOf(procs: seq<Process>): (v: seq<nat>)
    ensures |v| == |procs| && forall i :: 0 <= i < |procs| ==> v[i] == procs[i].kernelStack
  {
    seq(|procs|, i requires 0 <= i < |procs| => procs[i].kernelStack)
  }

  /**
   * All spaces are good; no frame is in two spaces, in two kernel stacks, or in both; and the rest of `total` is free.
   */
  ghost predicate SystemOk(s: System, total: set<nat>) {
    && total <= s.m.Keys && StacksApart(StacksOf(s.procs), total)
    && Coherent(SpacesOf(s.procs), s.m, s.free, total - AllStacks(StacksOf(s.procs)))
  }

  /** Every frame is free, in one space or in one kernel stack. */
  lemma OnePlacePerFrame(s: System, total: set<nat>)
    requires SystemOk(s, total)
    ensures total == s.free + AllOwned(SpacesOf(s.procs)) + AllStacks(StacksOf(s.procs))
    ensures s.free !! AllOwned(SpacesOf(s.procs))
      && (s.free + AllOwned(SpacesOf(s.procs))) !! AllStacks(StacksOf(s.procs))
    ensures forall i, j :: 0 <= i < |s.procs| && 0 <= j < |s.procs| ==>
      && (i != j ==> Owned(s.procs[i].space) !! Owned(s.procs[j].space))
      && (i != j ==> StackFrames(s.procs[i].kernelStack) !! StackFrames(s.procs[j].kernelStack))
      && Owned(s.procs[i].space) !! StackFrames(s.procs[j].kernelStack)
  {
    hide SpaceOk, Owned, StackFrames;
    var views, stacks := SpacesOf(s.procs), StacksOf(s.procs);
    forall f | f in AllOwned(views) ensures f !in s.free {
      var i :| 0 <= i < |views| && f in Owned(views[i]);
      OwnedIsRam(views[i], f);
    }
    forall i, j | 0 <= i < |views| && 0 <= j < |views|
      ensures Owned(views[i]) !! StackFrames(stacks[j])
      ensures i != j ==> Owned(views[i]) !! Owned(views[j]) && StackFrames(stacks[i]) !! StackFrames(stacks[j])
    {
      assert Owned(views[i]) <= AllOwned(views) && StackFrames(stacks[j]) <= AllStacks(stacks);
    }
  }

  /** A step of one process's space. */
  lemma StepIs(s0: System, s: System, i: nat, total: set<nat>)
    requires SystemOk(s0, total) && i < |s0.procs| == |s.procs|
    requires var a, b := s0.procs[i], s.procs[i];
      && b.kernelStack == a.kernelStack && SpaceStep(a.space, b.space) && SpaceOk(b.space) && b.space.m == s.m
        && b.space.free == s.free
    requires forall j :: 0 <= j < |s0.procs| && j != i ==>
      s.procs[j] == s0.procs[j].(space := Now(s0.procs[j].space, s.procs[i].space))
    ensures SystemOk(s, total) && OthersSame(s0.procs, s.procs, i)
  {
    hide SpaceOk, SpaceStep, Coherent, Keeps, StackFrames, AllStacks, StacksApart, StackKept;
    var v0, b := SpacesOf(s0.procs), s.procs[i].space;
    var left := total - AllStacks(StacksOf(s0.procs));
    CoherentAt(v0, i, s0.m, s0.free, left);
    SystemStep(v0, i, b, left);
    assert SpacesOf(s.procs) == After(v0, i, b) && StacksOf(s.procs) == StacksOf(s0.procs);
    StepKeepsKeys(v0[i], b);
    forall j | 0 <= j < |s0.procs| && j != i ensures Same(s0.procs[j], s.procs[j]) {
      CoherentAt(v0, j, s0.m, s0.free, left);
      StackUntouched(s0, s, i, j, total);
    }
  }

  lemma StepKeepsKeys(s0: Space, s: Space)
    requires SpaceStep(s0, s)
    ensures s.m.Keys == s0.m.Keys
  {
  }

  /** A step of a space changes no byte of a kernel stack. */
  lemma StackUntouched(s0: System, s: System, i: nat, j: nat, total: set<nat>)
    requires SystemOk(s0, total) && i < |s0.procs| == |s.procs| && j < |s0.procs|
      && SpaceStep(s0.procs[i].space, s.procs[i].space)
    requires s.procs[j].kernelStack == s0.procs[j].kernelStack
    requires s0.procs[j].space.m == s0.procs[i].space.m == s0.m && s.procs[j].space.m == s.procs[i].space.m
    ensures StackKept(s0.procs[j], s.procs[j])
  {
    hide SpaceOk, Owned, StackFrames, AllStacks, AllOwned, StacksApart, Coherent;
    OnePlacePerFrame(s0, total);
    StacksInTotal(StacksOf(s0.procs), j, total);
    CoherentAt(SpacesOf(s0.procs), i, s0.m, s0.free, total - AllStacks(StacksOf(s0.procs)));
  }

  lemma StacksInTotal(stacks: seq<nat>, j: nat, total: set<nat>)
    requires j < |stacks| && StacksApart(stacks, total)
    ensures StackFrames(stacks[j]) <= AllStacks(stacks) <= total
  {
  }

  /** A process as Process::new makes it: a kernel stack and an empty space, out of free frames. */
  ghost predicate Created(m0: Memory, free0: set<nat>, p: Process) {
    var s, stack := p.space, StackFrames(p.kernelStack);
    && p == Process(s, 0, 0, USER_STACK_BASE, p.kernelStack) && s.maps == map[] && SpaceOk(s)
    && FreeStack(free0, p.kernelStack) && Owned(s) <= free0 - stack && s.free == free0 - stack - Owned(s)
    && s.m.Keys == m0.Keys && forall f :: f in m0 && f !in free0 ==> s.m[f] == m0[f]
  }

  lemma SpawnIs(s0: System, s: System, total: set<nat>)
    requires |s.procs| == |s0.procs| + 1
    requires var p := s.procs[|s0.procs|]; Created(s0.m, s0.free, p) && p.space.m == s.m && p.space.free == s.free
    requires forall j :: 0 <= j < |s0.procs| ==>
      s.procs[j] == s0.procs[j].(space := s0.procs[j].space.(m := s.m, free := s.free))
    requires SystemOk(s0, total)
    ensures SystemOk(s, total) && StepOf(Spawn, s0, s)
  {
    hide SpaceOk, Coherent, Keeps, Owned, StacksApart, AllStacks, StackFrames, StackKept;
    var v0, n, p := SpacesOf(s0.procs), |s0.procs|, s.procs[|s0.procs|];
    var stacks := StacksOf(s0.procs);
    var left := total - AllStacks(stacks);
    FreeInTotal(v0, s0.m, s0.free, left);
    SystemAdd(v0, s0.m, s0.free, left, StackFrames(p.kernelStack), p.space);
    StackAdd(stacks, p.kernelStack, total);
    assert SpacesOf(s.procs) == Joined(v0, p.space) && StacksOf(s.procs) == stacks + [p.kernelStack];
    forall j | 0 <= j < n ensures Same(s0.procs[j], s.procs[..n][j]) {
      assert Keeps(v0[j], Joined(v0, p.space)[j], v0[j].maps.Keys);
      CoherentAt(v0, j, s0.m, s0.free, left);
      StackBeside(s0, s, j, total);
    }
  }

  lemma FreeInTotal(views: seq<Space>, m: Memory, free: set<nat>, total: set<nat>)
    requires Coherent(views, m, free, total)
    ensures free <= total
  {
    hide SpaceOk;
  }

  /** A change of free frames is no change of a kernel stack. */
  lemma StackBeside(s0: System, s: System, j: nat, total: set<nat>)
    requires SystemOk(s0, total) && j < |s0.procs| && j < |s.procs| && s.procs[j].kernelStack == s0.procs[j].kernelStack
    requires s0.procs[j].space.m == s0.m && s.procs[j].space.m == s.m
    requires s.m.Keys == s0.m.Keys && forall f :: f in s0.m && f !in s0.free ==> s.m[f] == s0.m[f]
    ensures StackKept(s0.procs[j], s.procs[j])
  {
    hide SpaceOk, Owned, StackFrames, AllStacks, AllOwned, StacksApart, Coherent;
    OnePlacePerFrame(s0, total);
    StacksInTotal(StacksOf(s0.procs), j, total);
  }

  lemma SpawnKeeps(s0: System, s1: System, i: nat)
    requires StepOf(Spawn, s0, s1) && i < |s0.procs|
    ensures |s1.procs| == |s0.procs| + 1 && s1.procs[i].space.maps == s0.procs[i].space.maps
    ensures s1.procs[|s0.procs|].space.maps == map[] && s1.procs[|s0.procs|].minBrk == 0
  {
    hide Keeps, StackKept;
    assert Same(s0.procs[i], s1.procs[..|s0.procs|][i]);
  }

  lemma Apart(s: System, total: set<nat>, i: nat, j: nat)
    requires SystemOk(s, total) && i < j < |s.procs|
    ensures Owned(s.procs[j].space) !! Owned(s.procs[i].space)
  {
    hide SpaceOk, Owned, AllStacks, StacksApart, Coherent;
    PairSeparate(SpacesOf(s.procs), s.m, s.free, total - AllStacks(StacksOf(s.procs)), i, j);
  }

  /** The process c with the pages, break and stack of a. */
  ghost predicate CopiedProcess(a: Process, c0: Process, c: Process) {
    SamePages(a.space, c.space) && c == Process(c.space, a.brk, c0.minBrk, a.stackTop, c0.kernelStack)
  }

  lemma ForkIs(s0: System, s1: System, s: System, i: nat)
    requires i < |s0.procs| && StepOf(Spawn, s0, s1) && OthersSame(s1.procs, s.procs, |s0.procs|)
    requires |s1.procs| == |s0.procs| + 1 && CopiedProcess(s1.procs[i], s1.procs[|s0.procs|], s.procs[|s0.procs|])
    ensures StepOf(Fork(i), s0, s)
  {
    hide Keeps, SamePages, StackKept, StackFrames;
    ForkChain(s0.procs, s1.procs, s.procs, i, |s0.procs|);
    assert Same(s0.procs[i], s1.procs[..|s0.procs|][i]);
  }

  lemma BrkFails(i: nat, newBrk: nat, a: Process, free: nat, why: Panic)
    requires why.Unimplemented? ==> a.minBrk <= newBrk < a.brk
    requires why.AlreadyMapped? ==>
      a.minBrk <= newBrk && a.brk < newBrk && !(BrkPages(a.brk, newBrk) !! a.space.maps.Keys)
    requires why.OutOfFrames? ==> free < 3 * BrkCount(a.brk, newBrk)
    requires why in {Unimplemented, AlreadyMapped, OutOfFrames}
    ensures PanicOn(Brk(i, newBrk), a, free, why)
  {
    hide BrkPages, BrkCount;
  }

  lemma BrkIs(i: nat, newBrk: nat, a: Process, b: Process)
    requires b == a.(space := b.space, brk := if newBrk < a.minBrk then a.brk else newBrk)
    requires Grew(a.space, b.space, ZeroPages(BreakPages(a, newBrk), URW))
    requires a.brk < b.brk ==> HeapGrew(a.space, b.space, a.brk, b.brk)
    ensures OnProcess(Brk(i, newBrk), a, b)
  {
    hide Grew, HeapGrew, ZeroPages, BrkPages;
  }

  lemma ResetFails(i: nat, a: Process, free: set<nat>)
    requires free == {}
    ensures PanicOn(Reset(i), a, |free|, OutOfFrames)
  {
  }

  lemma ResetIs(i: nat, a: Process, b: Process)
    requires b == a.(space := b.space, brk := 0, stackTop := USER_STACK_BASE) && b.space.maps == map[]
    ensures OnProcess(Reset(i), a, b)
  {
  }

  lemma DropIs(s0: System, s: System, i: nat, total: set<nat>)
    requires i < |s0.procs| && |s.procs| == |s0.procs| - 1
    requires forall j :: 0 <= j < |s.procs| ==>
      s.procs[j] == s0.procs[Old(i, j)].(space := s0.procs[Old(i, j)].space.(m := s.m, free := s.free))
    requires s.m == s0.m && s.free == s0.free + Owned(s0.procs[i].space) + StackFrames(s0.procs[i].kernelStack)
    requires SystemOk(s0, total)
    ensures SystemOk(s, total) && StepOf(Drop(i), s0, s)
  {
    hide SpaceOk, Coherent, Keeps, Owned, StackFrames, AllStacks, StacksApart, StackKept, Removed;
    var v0, stacks := SpacesOf(s0.procs), StacksOf(s0.procs);
    var stack, left := StackFrames(stacks[i]), total - AllStacks(stacks);
    StacksInTotal(stacks, i, total);
    CoherentAt(v0, i, s0.m, s0.free, left);
    SystemRemove(v0, i, s0.m, s0.free, left, stack);
    StackRemove(stacks, i, total);
    assert SpacesOf(s.procs) == Without(v0, i, stack) && StacksOf(s.procs) == Removed(stacks, i);
    forall j | 0 <= j < |s.procs| ensures Same(s0.procs[Old(i, j)], s.procs[j]) {
      var k := Old(i, j);
      assert Keeps(v0[k], Without(v0, i, stack)[j], v0[k].maps.Keys);
      CoherentAt(v0, k, s0.m, s0.free, left);
      StacksInTotal(stacks, k, total);
      StackStays(s0.procs[k], s.procs[j]);
    }
  }

  lemma StackStays(a: Process, b: Process)
    requires b.kernelStack == a.kernelStack && b.space.m == a.space.m && StackFrames(a.kernelStack) <= a.space.m.Keys
    ensures StackKept(a, b)
  {
  }

  // ---- the processes as objects

  class Kernel {
    const machine: Machine
    var spaces: seq<ProcessMemory>
    var stacks: seq<nat>
    /** Every frame that was free when the kernel took over, for ever. */
    ghost const total: set<nat>
    ghost var repr: set<object>

    constructor (machine: Machine)
      requires machine.Valid()
      ensures Valid() && Footprint() && repr == {this, machine}
      ensures this.machine == machine && spaces == [] && total == machine.free
    {
      this.machine := machine;
      this.spaces := [];
      this.stacks := [];
      this.total := machine.free;
      this.repr := {this, machine};
    }

    ghost predicate Shape()
      reads this, spaces
    {
      && |stacks| == |spaces|
      && (forall i :: 0 <= i < |spaces| ==>
            spaces[i].machine == machine && spaces[i].mmapBase == MMAP_BASE && spaces[i].stackTop <= USER_STACK_BASE)
      && (forall i, j :: 0 <= i < j < |spaces| ==> spaces[i] != spaces[j] && spaces[i].table != spaces[j].table)
    }

    ghost function Tables(): set<PageTable>
      reads this, spaces
    {
      set p | p in spaces :: p.table
    }

    static ghost function ProcessOf(p: ProcessMemory, kernelStack: nat): Process
      reads p, p.table, p.machine
    {
      Process(p.View(), p.brk, p.minBrk, p.stackTop, kernelStack)
    }

    ghost function Procs(): (v: seq<Process>)
      reads this, spaces, Tables(), machine
      requires Shape()
      ensures |v| == |spaces| && forall i :: 0 <= i < |spaces| ==> v[i] == ProcessOf(spaces[i], stacks[i])
    {
      seq(|spaces|, i requires 0 <= i < |spaces| && Shape() reads this, spaces, Tables(), machine =>
        assert spaces[i] in spaces && spaces[i].table in Tables(); ProcessOf(spaces[i], stacks[i]))
    }

    ghost function Sys(): System
      reads this, spaces, Tables(), machine
      requires Shape()
    {
      System(Procs(), machine.mem, machine.free)
    }

    ghost predicate Valid()
      reads this, spaces, Tables(), machine
    {
      && machine.Valid() && Shape()
      && (forall i :: 0 <= i < |spaces| ==> spaces[i].table.machine == machine)
      && SystemOk(Sys(), total)
    }

    /** An operation that was a step of space i and touched no other object keeps the kernel good. */
    twostate lemma Stepped(i: nat)
      requires i < |old(spaces)| && old(Valid())
      requires spaces == old(spaces) && stacks == old(stacks) && Shape() && machine.Valid() && spaces[i].Valid()
      requires forall j :: 0 <= j < |spaces| && j != i ==> unchanged(spaces[j]) && unchanged(spaces[j].table)
      requires SpaceStep(old(spaces[i].View()), spaces[i].View())
      ensures Valid() && OthersSame(old(Procs()), Procs(), i)
    {
      hide SpaceOk, SpaceStep, SystemOk, OthersSame;
      StepIs(old(Sys()), Sys(), i, total);
    }

    method DoBrk(i: nat, newBrk: nat) returns (r: Outcome<()>)
      requires Valid() && i < |spaces| && newBrk <= USER_STACK_BASE
      modifies spaces[i], spaces[i].table, machine
      ensures r.Panicked? ==> PanicOn(Brk(i, newBrk), old(Procs())[i], |old(machine.free)|, r.why)
      ensures r.Done? ==> Valid() && OthersSame(old(Procs()), Procs(), i) && spaces[i].table == old(spaces[i].table)
      ensures r.Done? ==> OnProcess(Brk(i, newBrk), old(Procs())[i], Procs()[i])
    {
      hide SpaceOk, SpaceStep, SystemOk, Keeps, Grew, OthersSame, BrkPages, BrkCount, ZeroPages, HeapGrew, OnProcess,
           PanicOn;
      ghost var a, free := Procs()[i], |machine.free|;
      Good(i);
      var done := spaces[i].SetBrk(newBrk);
      if done.Panicked? {
        BrkFails(i, newBrk, a, free, done.why);
        return Panicked(done.why);
      }
      GrewSteps(a.space, spaces[i].View(), ZeroPages(BreakPages(a, newBrk), URW));
      Stepped(i);
      BrkIs(i, newBrk, a, Procs()[i]);
      r := Done(());
    }

    method DoGrowStack(i: nat) returns (r: Outcome<()>)
      requires Valid() && i < |spaces|
      modifies spaces[i], spaces[i].table, machine
      ensures r.Panicked? ==> PanicOn(GrowStack(i), old(Procs())[i], |old(machine.free)|, r.why)
      ensures r.Done? ==> Valid() && OthersSame(old(Procs()), Procs(), i) && spaces[i].table == old(spaces[i].table)
      ensures r.Done? ==> OnProcess(GrowStack(i), old(Procs())[i], Procs()[i])
    {
      hide SpaceOk, SpaceStep, SystemOk, Keeps, Grew, OthersSame, ZeroPages, Adding, StackGrew;
      Good(i);
      r := spaces[i].IncreaseUserStack();
      if r.Panicked? {
        return;
      }
      GrewSteps(old(spaces[i].View()), spaces[i].View(), ZeroPages({NextStackPage(old(spaces[i].stackTop))}, URW));
      StackStaysLow(old(spaces[i].stackTop));
      Stepped(i);
    }

    method DoMmap(i: nat, addr: nat, len: nat, flags: Flags, fixed: bool, backing: Backing, offset: nat)
      returns (r: Outcome<()>)
      requires Valid() && i < |spaces|
      requires fixed ==> forall v :: v in PageRange(addr / PAGE_SIZE, CallPages(addr, len)) ==> UserPage(v)
      modifies spaces[i], spaces[i].table, machine
      ensures r.Panicked? ==>
        PanicOn(Mmap(i, addr, len, flags, fixed, backing, offset), old(Procs())[i], |old(machine.free)|, r.why)
      ensures r.Done? ==> Valid() && OthersSame(old(Procs()), Procs(), i) && spaces[i].table == old(spaces[i].table)
      ensures r.Done? ==> OnProcess(Mmap(i, addr, len, flags, fixed, backing, offset), old(Procs())[i], Procs()[i])
    {
      hide SpaceOk, SpaceStep, SystemOk, Keeps, Grew, OthersSame, CallResult, CallShows, RunTooLong, Unaltered,
           PageRange, UserPage;
      Good(i);
      var done := spaces[i].MmapCall(addr, len, flags, fixed, backing, offset);
      if done.Panicked? {
        return Panicked(done.why);
      }
      CallSteps(old(spaces[i].View()), spaces[i].View(), addr, len, flags, fixed, backing, offset,
                MmapLast(spaces[i].mmapBase), ProcessMemories.BrkPage(spaces[i].brk), done.value);
      Stepped(i);
      r := Done(());
    }

    method DoMunmap(i: nat, addr: nat, len: nat) returns (r: Outcome<()>)
      requires Valid() && i < |spaces|
      modifies spaces[i], spaces[i].table, machine
      ensures r.Panicked? ==> PanicOn(Munmap(i, addr, len), old(Procs())[i], |old(machine.free)|, r.why)
      ensures r.Done? ==> Valid() && OthersSame(old(Procs()), Procs(), i) && spaces[i].table == old(spaces[i].table)
      ensures r.Done? ==> OnProcess(Munmap(i, addr, len), old(Procs())[i], Procs()[i])
    {
      hide SpaceOk, SpaceStep, SystemOk, Keeps, Shrunk, OthersSame, PageRange, EndsInside;
      Good(i);
      r := spaces[i].MunmapCall(addr, len);
      if r.Panicked? {
        return;
      }
      ShrunkSteps(old(spaces[i].View()), spaces[i].View(), PageRange(addr / PAGE_SIZE, GonePages(addr, len)));
      Stepped(i);
    }

    /** A store of the program of process i: what the hart makes of it. */
    method DoStore(i: nat, w: Write)
      requires Valid() && i < |spaces|
      modifies machine`mem
      ensures Valid() && OthersSame(old(Procs()), Procs(), i) && OnProcess(UserStore(i, w), old(Procs())[i], Procs()[i])
    {
      hide SpaceOk, SpaceStep, SystemOk, OthersSame, HardwareTranslate, StoreByte;
      Good(i);
      StoreSteps(spaces[i].View(), w);
      var q := Request(Access.Store, true, machine.thead, w.updates);
      var pa := HardwareTranslate(machine.mem, spaces[i].table.root, w.va, q);
      if pa.Some? && pa.value / PAGE_SIZE in machine.mem {
        machine.mem := StoreByte(machine.mem, pa.value, w.b);
      }
      assert spaces[i].View() == UserStores.Store(old(spaces[i].View()), w);
      StepKeepsKeys(old(spaces[i].View()), spaces[i].View());
      Stepped(i);
    }

    method DoReset(i: nat) returns (r: Outcome<()>)
      requires Valid() && i < |spaces|
      modifies spaces[i], machine
      ensures r.Panicked? ==> PanicOn(Reset(i), old(Procs())[i], |old(machine.free)|, r.why)
      ensures r.Done? ==> Valid() && OthersSame(old(Procs()), Procs(), i) && fresh(spaces[i].table)
      ensures r.Done? ==> OnProcess(Reset(i), old(Procs())[i], Procs()[i])
    {
      hide SpaceOk, SpaceStep, SystemOk, Keeps, OthersSame, Owned, OnProcess, PanicOn;
      ghost var a := Procs()[i];
      Good(i);
      r := spaces[i].Reset();
      if r.Panicked? {
        ResetFails(i, a, old(machine.free));
        return;
      }
      Stepped(i);
      ResetIs(i, a, Procs()[i]);
    }

    /** execve: the space is emptied, the program loaded, and the stack built in its page. */
    method DoExec(i: nat, segs: seq<Segment>, file: seq<Byte>, argv: seq<Str>, env: seq<Str>, aux: seq<Aux>)
      returns (r: Outcome<()>)
      requires Valid() && i < |spaces| && SegmentsInUserSpace(segs) && StackDepth(argv, env, |aux|) <= PAGE_SIZE
      modifies spaces[i], machine
      ensures r.Panicked? ==> PanicOn(Exec(i, segs, file, argv, env, aux), old(Procs())[i], |old(machine.free)|, r.why)
      ensures r.Done? ==> Valid() && OthersSame(old(Procs()), Procs(), i) && fresh(spaces[i].table)
      ensures r.Done? ==> OnProcess(Exec(i, segs, file, argv, env, aux), old(Procs())[i], Procs()[i])
    {
      hide SpaceOk, SpaceStep, SystemOk, Keeps, OthersSame, Owned, SegmentPages, UserPage, ImageLoaded, ProgramInPlace,
           ProgramUsable, BreakAt, StackReady, StackDepth, ArgsOk, ExecFails;
      Good(i);
      var done := ExecMemory(spaces[i], segs, file, argv, env, aux);
      if done.Panicked? {
        return Panicked(done.why);
      }
      Stepped(i);
      r := Done(());
    }

    /** What Process::new takes: a kernel stack and then one frame, for the root of an empty space. */
    static method NewMemory(machine: Machine) returns (r: Outcome<ProcessMemory>, stack: nat)
      requires machine.Valid()
      modifies machine
      ensures r.Panicked? ==> r.why == OutOfFrames && NoRoom(old(machine.free), 0)
      ensures r.Done? ==>
        && fresh(r.value) && fresh(r.value.table) && r.value.Valid() && r.value.machine == machine
        && r.value.mmapBase == MMAP_BASE && r.value.stackTop == USER_STACK_BASE
        && Created(old(machine.mem), old(machine.free), ProcessOf(r.value, stack))
        && |old(machine.free)| == |machine.free| + KERNEL_STACK_PAGES + 1
    {
      hide SpaceOk, Owned, StackFrames, FreeStack, NoRoom;
      stack := 0;
      var block := machine.AllocStack();
      if block.Panicked? {
        NoStackNoRoom(old(machine.free));
        return Panicked(block.why), 0;
      }
      stack := block.value;
      StackTaken(old(machine.free), stack);
      r := ProcessMemory.New(machine);
    }

    /** Process::new. */
    method DoSpawn() returns (r: Outcome<()>)
      requires Valid()
      modifies this`spaces, this`stacks, machine
      ensures r.Panicked? ==> r.why == OutOfFrames && NoRoom(old(machine.free), 0)
      ensures r.Done? ==>
        && Valid() && |spaces| == |old(spaces)| + 1 && spaces[..|old(spaces)|] == old(spaces)
        && |old(machine.free)| == |machine.free| + KERNEL_STACK_PAGES + 1
        && fresh(spaces[|old(spaces)|]) && fresh(spaces[|old(spaces)|].table) && StepOf(Spawn, old(Sys()), Sys())
    {
      hide SpaceOk, SystemOk, StepOf, Created, NoRoom;
      ghost var s0 := Sys();
      var pm, stack := NewMemory(machine);
      if pm.Panicked? {
        return Panicked(pm.why);
      }
      spaces := spaces + [pm.value];
      stacks := stacks + [stack];
      SpawnIs(s0, Sys(), total);
      r := Done(());
    }

    /** copy_from: the empty space n gets a copy of every page of space i. */
    method DoCopy(i: nat, n: nat) returns (r: Outcome<()>)
      requires i < n < |spaces| && spaces[n].maps == map[] && Valid()
      modifies spaces[n], spaces[n].table, machine
      ensures r.Panicked? ==> r.why == OutOfFrames && |old(machine.free)| < 3 * |old(spaces[i].maps)|
      ensures r.Done? ==> Valid() && OthersSame(old(Procs()), Procs(), n) && spaces[n].table == old(spaces[n].table)
      ensures r.Done? ==> CopiedProcess(old(Procs())[i], old(Procs())[n], Procs()[n])
    {
      hide SpaceOk, SpaceStep, SystemOk, Keeps, Owned, OthersSame, SamePages, CopiedSoFar;
      Good(i);
      Good(n);
      Apart(Sys(), total, i, n);
      r := spaces[n].CopyFrom(spaces[i]);
      if r.Panicked? {
        return;
      }
      CopySteps(old(spaces[n].View()), spaces[n].View(), old(spaces[i].View()));
      Stepped(n);
    }

    /** fork: a new process whose space gets a copy of every page of space i. */
    method DoFork(i: nat) returns (r: Outcome<()>)
      requires Valid() && i < |spaces|
      modifies this`spaces, this`stacks, machine
      ensures r.Panicked? ==> MayPanic(Fork(i), old(Sys()), r.why)
      ensures r.Done? ==>
        && Valid() && |spaces| == |old(spaces)| + 1 && spaces[..|old(spaces)|] == old(spaces)
        && fresh(spaces[|old(spaces)|]) && fresh(spaces[|old(spaces)|].table) && StepOf(Fork(i), old(Sys()), Sys())
    {
      hide SystemOk, OthersSame, SamePages, StepOf, NoRoom;
      ghost var s0 := Sys();
      var n := |spaces|;
      r := DoSpawn();
      if r.Panicked? {
        RoomForMore(s0.free, 3 * |s0.procs[i].space.maps|);
        return;
      }
      ghost var s1 := Sys();
      SpawnKeeps(s0, s1, i);
      r := DoCopy(i, n);
      if r.Panicked? {
        NoRoomLeft(s0.free, s1.free, 3 * |s0.procs[i].space.maps|);
        return;
      }
      ForkIs(s0, s1, Sys(), i);
    }

    /** Everything process i holds goes back to the allocator. */
    method GiveBack(i: nat)
      requires Valid() && i < |spaces|
      modifies machine`free
      ensures machine.Valid()
      ensures machine.free == old(machine.free + Owned(Procs()[i].space) + StackFrames(stacks[i]))
    {
      hide SpaceOk, SystemOk, Owned, DataFrames, TableFrames, StackFrames;
      DroppedFrames(Sys(), i, total);
      machine.DeallocAll(StackFrames(stacks[i]));
      machine.DeallocAll(DataFrames(spaces[i].maps));
      machine.DeallocAll(TableFrames(spaces[i].table.pages));
    }

    /** A process that is waited for is dropped, and with it its memory. */
    method DoDrop(i: nat)
      requires Valid() && i < |spaces|
      modifies this`spaces, this`stacks, machine
      ensures Valid() && spaces == Removed(old(spaces), i) && StepOf(Drop(i), old(Sys()), Sys())
    {
      hide SpaceOk, SystemOk, Owned, StackFrames, StepOf, Removed, Old;
      ghost var s0 := Sys();
      GiveBack(i);
      spaces := Removed(spaces, i);
      stacks := Removed(stacks, i);
      forall j, k | 0 <= j < k < |spaces| ensures spaces[j] != spaces[k] && spaces[j].table != spaces[k].table {
        OldGrows(i, j, k, |old(spaces)|);
      }
      DropIs(s0, Sys(), i, total);
    }

    ghost predicate Footprint()
      reads this, spaces
    {
      (this in repr && machine in repr) && forall p :: p in spaces ==> p in repr && p.table in repr
    }

    /** Space i and its table are among the kernel's objects. */
    ghost method Register(i: nat)
      requires Valid() && i < |spaces| && this in repr && machine in repr
      requires forall j :: 0 <= j < |spaces| && j != i ==> spaces[j] in repr && spaces[j].table in repr
      modifies this`repr
      ensures Valid() && Footprint() && Sys() == old(Sys()) && repr == old(repr) + {spaces[i], spaces[i].table}
    {
      hide SystemOk;
      ghost var v := Procs();
      repr := repr + {spaces[i], spaces[i].table};
      assert Procs() == v;
    }

    /** The operations that put a new page table in the place of the old one. */
    method RunReplacing(op: SpaceOp) returns (r: Outcome<()>)
      requires Valid() && Footprint() && OpInBounds(op) && (op.Reset? || op.Exec?) && op.i < |spaces|
      modifies repr
      ensures r.Done? ==> Valid() && Footprint() && fresh(repr - old(repr)) && StepOf(op, old(Sys()), Sys())
      ensures r.Panicked? ==> MayPanic(op, old(Sys()), r.why)
    {
      hide OthersSame, OpInBounds, SystemOk, OnProcess, PanicOn, SegmentsInUserSpace, StackDepth, StepOf, MayPanic;
      OpBounds(op);
      assert spaces[op.i] in spaces;
      if op.Reset? { r := DoReset(op.i); } else { r := DoExec(op.i, op.segs, op.file, op.argv, op.env, op.aux); }
      if r.Panicked? {
        PanicOnOne(op, old(Sys()), r.why);
        return;
      }
      StepOnOne(op, old(Sys()), Sys());
      Register(op.i);
    }

    method RunOnSpace(op: SpaceOp) returns (r: Outcome<()>)
      requires Valid() && Footprint() && OpInBounds(op) && !op.Spawn? && !op.Fork? && !op.Drop? && op.i < |spaces|
      modifies repr
      ensures r.Done? ==> Valid() && Footprint() && fresh(repr - old(repr)) && StepOf(op, old(Sys()), Sys())
      ensures r.Panicked? ==> MayPanic(op, old(Sys()), r.why)
    {
      hide OthersSame, UserPage, CallPages, OpInBounds, SystemOk, OnProcess, PanicOn, SegmentsInUserSpace, StackDepth;
      OpBounds(op);
      var i := op.i;
      assert spaces[i] in spaces;
      match op {
        case Reset(_) => r := RunReplacing(op);
        case Brk(_, newBrk) => r := DoBrk(i, newBrk);
        case GrowStack(_) => r := DoGrowStack(i);
        case Mmap(_, addr, len, flags, fixed, backing, offset) => r := DoMmap(i, addr, len, flags, fixed, backing,
            offset);
        case Munmap(_, addr, len) => r := DoMunmap(i, addr, len);
        case UserStore(_, w) => DoStore(i, w); r := Done(());
        case Exec(_, _, _, _, _, _) => r := RunReplacing(op);
      }
    }

    method SpawnOrPanic() returns (r: Outcome<()>)
      requires Valid()
      modifies this`spaces, this`stacks, machine
      ensures r.Panicked? ==> MayPanic(Spawn, old(Sys()), r.why)
      ensures r.Done? ==>
        && Valid() && |spaces| == |old(spaces)| + 1 && spaces[..|old(spaces)|] == old(spaces)
        && fresh(spaces[|old(spaces)|]) && fresh(spaces[|old(spaces)|].table) && StepOf(Spawn, old(Sys()), Sys())
    {
      hide SystemOk, StepOf;
      r := DoSpawn();
    }

    method RunNew(op: SpaceOp) returns (r: Outcome<()>)
      requires Valid() && Footprint() && (op.Spawn? || (op.Fork? && op.i < |spaces|))
      modifies repr
      ensures r.Done? ==> Valid() && Footprint() && fresh(repr - old(repr)) && StepOf(op, old(Sys()), Sys())
      ensures r.Panicked? ==> MayPanic(op, old(Sys()), r.why)
    {
      hide SystemOk, StepOf, MayPanic;
      if op.Spawn? { r := SpawnOrPanic(); } else { r := DoFork(op.i); }
      if r.Done? {
        assert forall j :: 0 <= j < |old(spaces)| ==> spaces[j] == old(spaces)[j] && spaces[j] in old(spaces);
        Register(|old(spaces)|);
      }
    }

    method RunOne(op: SpaceOp) returns (r: Outcome<()>)
      requires Valid() && Footprint() && OpInBounds(op)
      modifies repr
      ensures r.Done? ==> Valid() && Footprint() && fresh(repr - old(repr)) && StepOf(op, old(Sys()), Sys())
      ensures r.Panicked? ==> MayPanic(op, old(Sys()), r.why)
    {
      hide OpInBounds, SystemOk, MayPanic, OthersSame, OnProcess, SamePages;
      if op.Spawn? || (op.Fork? && op.i < |spaces|) {
        r := RunNew(op);
      } else if op.Drop? && op.i < |spaces| {
        DoDrop(op.i);
        r := Done(());
      } else if !op.Fork? && !op.Drop? && op.i < |spaces| {
        r := RunOnSpace(op);
      } else {
        r := Done(());
      }
    }

    /**
     * Every run: each operation does to its own process what it promises and leaves the others as they are; at each
     * point all spaces are good, every frame of `total` is free, in one space or in one kernel stack; and the kernel
     * stops only for a reason the operation has.
     */
    method Run(ops: seq<SpaceOp>) returns (r: Outcome<()>, ghost trace: seq<System>)
      requires Valid() && Footprint() && forall k :: 0 <= k < |ops| ==> OpInBounds(ops[k])
      modifies repr
      ensures 1 <= |trace| <= |ops| + 1 && trace[0] == old(Sys())
      ensures forall k :: 0 <= k < |trace| - 1 ==> StepOf(ops[k], trace[k], trace[k + 1])
      ensures forall k :: 0 <= k < |trace| ==> SystemOk(trace[k], total)
      ensures r.Done? ==>
        Valid() && Footprint() && fresh(repr - old(repr)) && |trace| == |ops| + 1 && trace[|ops|] == Sys()
      ensures r.Panicked? ==> |trace| <= |ops| && MayPanic(ops[|trace| - 1], trace[|trace| - 1], r.why)
    {
      hide OpInBounds, StepOf, MayPanic, SystemOk;
      trace := [Sys()];
      var k := 0;
      while k < |ops|
        invariant 0 <= k <= |ops| && Valid() && Footprint() && fresh(repr - old(repr))
        invariant |trace| == k + 1 && trace[0] == old(Sys()) && trace[k] == Sys()
        invariant forall j :: 0 <= j < k ==> StepOf(ops[j], trace[j], trace[j + 1])
        invariant forall j :: 0 <= j <= k ==> SystemOk(trace[j], total)
      {
        r := RunOne(ops[k]);
        if r.Panicked? {
          return;
        }
        trace := trace + [Sys()];
        k := k + 1;
      }
      r := Done(());
    }

    lemma Good(i: nat)
      requires Valid() && i < |spaces|
      ensures spaces[i].Valid()
    {
      hide SpaceOk, AllStacks, StacksApart, Coherent;
      CoherentAt(SpacesOf(Procs()), i, machine.mem, machine.free, total - AllStacks(StacksOf(Procs())));
    }
  }

  lemma StackStaysLow(stackTop: nat)
    requires stackTop <= USER_STACK_BASE
    ensures NextStackPage(stackTop) * PAGE_SIZE <= USER_STACK_BASE
  {
  }

  lemma CallSteps(s0: Space, s: Space, addr: nat, len: nat, flags: Flags, fixed: bool, backing: Backing, offset: nat,
                  base: nat, brkPage: nat, reply: Reply)
    requires CallResult(s0, s, addr, len, flags, fixed, backing, offset, base, brkPage, reply)
    ensures SpaceStep(s0, s)
  {
    hide SpaceOk, Keeps, FilePlan, Chosen, PageRange;
  }

  lemma ShrunkSteps(s0: Space, s: Space, gone: set<nat>)
    requires Shrunk(s0, s, gone)
    ensures SpaceStep(s0, s)
  {
    hide SpaceOk, Keeps;
  }

  lemma CopySteps(s0: Space, s: Space, o0: Space)
    requires CopiedSoFar(s0, s, o0, o0.maps.Keys) && s0.maps == map[]
    ensures SpaceStep(s0, s) && SamePages(o0, s)
  {
    hide SpaceOk, Keeps, SpaceStep;
    GrewSteps(s0, s, Snapshot(o0, o0.maps.Keys));
  }

  /** The parent's pages did not change while the child was made. */
  lemma ForkChain(p0: seq<Process>, p1: seq<Process>, p: seq<Process>, i: nat, n: nat)
    requires i < n && |p0| == n && |p1| == n + 1 && OthersSame(p0, p1[..n], n) && OthersSame(p1, p, n)
    requires SamePages(p1[i].space, p[n].space)
    ensures OthersSame(p0, p[..n], n) && SamePages(p0[i].space, p[n].space)
  {
    forall j | 0 <= j < n ensures Same(p0[j], p[..n][j]) {
      assert Same(p0[j], p1[..n][j]) && p1[..n][j] == p1[j];
      KeepsTrans(p0[j].space, p1[j].space, p[j].space, p0[j].space.maps.Keys);
    }
    assert Same(p0[i], p1[..n][i]) && p1[..n][i] == p1[i];
  }

  lemma RoomForMore(free: set<nat>, n: nat)
    requires NoRoom(free, 0)
    ensures NoRoom(free, n)
  {
  }

  lemma NoRoomLeft(free: set<nat>, left: set<nat>, n: nat)
    requires |free| == |left| + KERNEL_STACK_PAGES + 1 && |left| < n
    ensures NoRoom(free, n)
  {
  }

  lemma NoStackNoRoom(free: set<nat>)
    requires forall first :: !FreeStack(free, first)
    ensures NoRoom(free, 0)
  {
  }

  lemma StackTaken(free: set<nat>, first: nat)
    requires FreeStack(free, first)
    ensures |free| == |free - StackFrames(first)| + KERNEL_STACK_PAGES
    ensures free - StackFrames(first) == {} ==> NoRoom(free, 0)
  {
    PageRangeSize(first, KERNEL_STACK_PAGES);
    assert free == (free - StackFrames(first)) + StackFrames(first);
  }

  /** The frames a process holds are RAM. */
  lemma DroppedFrames(s: System, i: nat, total: set<nat>)
    requires SystemOk(s, total) && i < |s.procs|
    ensures var space := s.procs[i].space;
      && StackFrames(s.procs[i].kernelStack) <= s.m.Keys && Owned(space) <= s.m.Keys
      && Owned(space) == DataFrames(space.maps) + TableFrames(space.pages)
  {
    hide Coherent, StackFrames, DataFrames, TableFrames, AllStacks, StacksApart;
    StacksInTotal(StacksOf(s.procs), i, total);
    CoherentAt(SpacesOf(s.procs), i, s.m, s.free, total - AllStacks(StacksOf(s.procs)));
  }
}
