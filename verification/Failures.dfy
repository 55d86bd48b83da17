/** One input for each place where the code falls short of what one would expect, carried out on the model. */
module Failures {
  import opened Basics
  import opened Words
  import opened Physical
  import opened Sv39
  import opened PageTrees
  import opened PageTables
  import opened HardwareWalk
  import opened Trampoline
  import opened AddressSpaces
  import opened UserAccess
  import opened FreeRuns
  import opened ProcessMemories
  import opened Kernels
  import opened InitialStack
  import opened ElfLoader
  import DirEntries
  import opened Duplicates
  import opened Dentries
  import opened Vfs

  // ---- access_continuously

  /** A whole mapped page cannot be accessed when the page after it is not mapped. */
  lemma PageAtATimeFails(e: nat)
    ensures Translated(map[1 := e], 0x1000, PAGE_SIZE) && Pages(0x1000, PAGE_SIZE) == 2
    ensures WindowFault(map[1 := e], map[], 1, 2) == Some(NotMapped)
  {
    assert WindowFault(map[1 := e], map[], 1, 0) == None;
    assert WindowFault(map[1 := e], map[], 1, 1) == None;
    forall a | 0x1000 <= a < 0x1000 + PAGE_SIZE ensures a / PAGE_SIZE == 1 {}
  }

  // ---- the kernel's gigabyte

  /**
   * For a page of the kernel's gigabyte the software walk takes the leaf in the root for a table and goes on in frame
   * 0x80000, where the kernel's image starts. Where it finds no entry, find_pte_create stores one: that frame changes.
   */
  lemma KernelFrameAsTable(s: Space, vpn: nat, novel: nat)
    requires SpaceOk(s) && 0x80000 <= vpn < 0xC0000 && novel < PPN_LIMIT
    ensures var e := Word(s.m, 0x80000, Idx1(vpn));
      && PageTrees.Walk(CellsOf(s.m), s.root, Ix(vpn)) ==
          (if IsValid(e) then Some(Slot(PageOf(e), Idx2(vpn))) else None)
      && (0x80000 in s.m && !IsValid(e) ==>
            StoreWord(s.m, 0x80000, Idx1(vpn), TableEntry(novel))[0x80000] != s.m[0x80000])
  {
    hide TableOk, FramesOk, PageMap, Word, StoreWord, KernelEntry, PageOf, NewEntry;
    KernelEntryBits(s.thead);
    assert BigSlots(s.m, s.root)[2] == KernelEntry(s.thead);
    assert CellsOf(s.m)(s.root, 2) == Decode(Word(s.m, s.root, 2));
    assert Idx0(vpn) == 2;
    TableEntryDecodes(novel);
    if 0x80000 in s.m {
      WordAfterStore(s.m, 0x80000, Idx1(vpn), TableEntry(novel));
      SameFrameSameWord(s.m, StoreWord(s.m, 0x80000, Idx1(vpn), TableEntry(novel)), 0x80000, Idx1(vpn));
    }
  }

  lemma SameFrameSameWord(m: Memory, m': Memory, f: nat, k: nat)
    requires f in m && f in m'
    ensures m'[f] == m[f] ==> Word(m', f, k) == Word(m, f, k)
  {
  }

  // ---- the kernel stack

  /** Where Process::new lets the kernel stack pointer start: 512 pages above the start of the stack's last page. */
  function KernelSp(first: nat): nat { AddressOf(first + KERNEL_STACK_PAGES - 1, 0) + PAGE_SIZE * KERNEL_STACK_PAGES }

  /**
   * A byte pushed d bytes below the initial kernel stack pointer lands in the process's kernel stack only once the
   * stack has grown past 511 pages; until then it lands above.
   */
  lemma KernelStackPointer(first: nat, d: nat)
    requires 0 < d <= KernelSp(first)
    ensures (KernelSp(first) - d) / PAGE_SIZE in StackFrames(first) <==> 511 * PAGE_SIZE < d <= 1023 * PAGE_SIZE
    ensures d <= 511 * PAGE_SIZE ==> first + KERNEL_STACK_PAGES <= (KernelSp(first) - d) / PAGE_SIZE
  {
    hide StackFrames;
    var f := (KernelSp(first) - d) / PAGE_SIZE;
    assert KernelSp(first) == (first + 1023) * PAGE_SIZE;
    assert f * PAGE_SIZE <= KernelSp(first) - d < (f + 1) * PAGE_SIZE;
  }

  /**
   * Two processes with adjacent kernel stacks: the first 511 pages that the lower one pushes are the upper one's stack.
   */
  lemma PushesIntoNeighbour(s: System, total: set<nat>, i: nat, j: nat, d: nat)
    requires SystemOk(s, total) && i < |s.procs| && j < |s.procs| && 0 < d <= 511 * PAGE_SIZE
    requires s.procs[j].kernelStack == s.procs[i].kernelStack + KERNEL_STACK_PAGES
    ensures var f := (KernelSp(s.procs[i].kernelStack) - d) / PAGE_SIZE;
      f in StackFrames(s.procs[j].kernelStack) && f !in StackFrames(s.procs[i].kernelStack)
  {
    hide SystemOk;
    var first := s.procs[i].kernelStack;
    assert KernelSp(first) == (first + 1023) * PAGE_SIZE;
    KernelStackPointer(first, d);
  }

  // ---- set_brk

  lemma OneByteMore(newBrk: nat)
    requires newBrk > 0x1001
    ensures BrkCount(0x1000, 0x1001) == 1 && BrkPages(0x1000, 0x1001) == {1} && 1 in BrkPages(0x1001, newBrk)
  {
    assert RoundUp(Before(0x1000)) == 0x1000 && RoundUp(Before(0x1001)) == 0x1000;
    PageRangeGrows(1, 0);
    InBrkPages(0x1001, newBrk, 1);
  }

  lemma ZeroPagesKeys(pages: set<nat>)
    ensures ZeroPages(pages, URW).Keys == pages
  {
    hide ZeroFrame;
  }

  /** A break moved to one byte past a page boundary can never grow again: every further call panics. */
  method GrowTwice(pm: ProcessMemory, newBrk: nat) returns (first: Outcome<nat>, second: Outcome<nat>)
    requires pm.Valid() && pm.brk == pm.minBrk == 0x1000 && 1 !in pm.maps && 0x1001 < newBrk <= USER_STACK_BASE
    requires |pm.machine.free| >= 3 + 3 * BrkCount(0x1001, newBrk)
    modifies pm, pm.table, pm.machine
    ensures first == Done(0x1001) && second == Panicked(AlreadyMapped)
  {
    hide SpaceOk, Grew, ZeroPages, BrkPages, BrkCount;
    OneByteMore(newBrk);
    ZeroPagesKeys({1});
    ZeroPagesKeys(BrkPages(0x1001, newBrk));
    ghost var s0 := pm.View();
    first := pm.SetBrk(0x1001);
    GrewOk(s0, pm.View(), ZeroPages({1}, URW));
    ghost var s1 := pm.View();
    second := pm.SetBrk(newBrk);
    if second.Done? {
      GrewOk(s1, pm.View(), ZeroPages(BrkPages(0x1001, newBrk), URW));
      assert false;
    }
  }

  lemma NothingUpToTheBoundary()
    ensures BrkCount(0x1800, 0x2000) == 0 && BrkPages(0x1800, 0x2000) == {} && 0x1800 / PAGE_SIZE == 1
  {
    assert RoundUp(Before(0x1800)) == 0x2000;
    PageRangeGrows(2, 0);
  }

  /** A break in the middle of a page that was unmapped: growing it to the next boundary succeeds and maps nothing. */
  method GrowOverHole(pm: ProcessMemory) returns (r: Outcome<nat>)
    requires pm.Valid() && pm.brk == 0x1800 && pm.minBrk <= 0x1800 && 1 !in pm.maps
    modifies pm, pm.table, pm.machine
    ensures r == Done(0x2000) && UserByte(pm.machine.mem, pm.maps, 0x1800) == None
  {
    hide SpaceOk, Grew, ZeroPages, HeapGrew, BrkPages, BrkCount;
    NothingUpToTheBoundary();
    ghost var s0 := pm.View();
    r := pm.SetBrk(0x2000);
    ZeroPagesKeys({});
    GrewOk(s0, pm.View(), ZeroPages({}, URW));
  }

  // ---- mmap

  /** A fixed mapping of a bad descriptor over a mapped page fails, and the page is gone. */
  method FixedOverMapped(pm: ProcessMemory, flags: Flags) returns (r: Outcome<Reply>)
    requires pm.Valid() && PAGE_SIZE <= pm.mmapBase <= USER_STACK_BASE && 16 in pm.maps && |pm.machine.free| >= 3
    modifies pm, pm.table, pm.machine
    ensures r == Done(IoError) && 16 !in pm.maps && !Unaltered(old(pm.View()), pm.View())
  {
    hide SpaceOk, Unaltered, CallResult, RunTooLong, UserPage, PageRange;
    OnePage();
    ghost var s0 := pm.View();
    r := pm.MmapCall(0x10000, PAGE_SIZE, flags, true, BadFd, 0);
    FixedFails(s0, pm.View(), flags, MmapLast(pm.mmapBase), ProcessMemories.BrkPage(pm.brk), r.value);
  }

  lemma OnePage()
    ensures CallPages(0x10000, PAGE_SIZE) == 1 && 0x10000 / PAGE_SIZE == 16 && PageRange(16, 1) == {16} && UserPage(16)
  {
    PageRangeGrows(16, 0);
    BelowKernel(16);
  }

  lemma FixedFails(s0: Space, s: Space, flags: Flags, base: nat, brkPage: nat, reply: Reply)
    requires CallResult(s0, s, 0x10000, PAGE_SIZE, flags, true, BadFd, 0, base, brkPage, reply)
    ensures reply == IoError && 16 !in s.maps
  {
    hide SpaceOk, SpaceStep, Keeps, PageMap, Entries, FilePlan, Overwrote;
    OnePage();
  }

  /** In an empty space a request for as many pages as lie below the mmap base stops the kernel. */
  lemma WholeSpaceIsTooLong()
    ensures RunTooLong({}, MmapLast(MMAP_BASE), ProcessMemories.BrkPage(0), 0x60000)
  {
    assert MmapLast(MMAP_BASE) == 0x5FFFF;
  }

  // ---- munmap

  /** Unmapping one byte of a mapped page succeeds, and the page is still there. */
  method MunmapOneByte(pm: ProcessMemory) returns (r: Outcome<()>)
    requires pm.Valid() && 1 in pm.maps
    modifies pm, pm.table, pm.machine
    ensures r.Done? && 1 in pm.maps
  {
    hide SpaceOk, Shrunk;
    assert forall v: nat :: !EndsInside(v, 0x1000, 1);
    r := pm.MunmapCall(0x1000, 1);
  }

  // ---- load_elf and execve

  /** A segment of one page at 256 MiB without file bytes: the loader maps every page from page one on for it. */
  lemma BssFromPageOne(flags: Flags)
    ensures var seg := Segment(0x1000_0000, 0, 0, PAGE_SIZE, flags);
      Loadable(seg) && forall v: nat :: 1 <= v <= 0x10001 ==> v in SegmentPages(seg)
  {
  }

  /** With one argument and one environment string the program starts with a stack pointer that is no multiple of 16. */
  lemma MisalignedStart(argv: Str, env: Str, aux: seq<Aux>)
    requires StackDepth([argv], [env], |aux|) <= USER_STACK_BASE
    ensures (USER_STACK_BASE - StackDepth([argv], [env], |aux|)) % 16 != 0
  {
    StartsAlignedIff(USER_STACK_BASE, [argv], [env], |aux|);
  }

  // ---- dup3

  /** Duplicating a descriptor onto itself closes the file, and the descriptor still names it. */
  lemma OntoItself(w: Descriptors.World, p: nat, fd: nat)
    requires Descriptors.Inv(w) && p in w.tables && Descriptors.Opens(w.tables[p], fd) && fd < 0x1_0000_0000
    ensures !Descriptors.Inv(Duplicated(w, p, fd, fd))
    ensures Duplicated(w, p, fd, fd).tables == w.tables && w.tables[p][fd].value in Duplicated(w, p, fd, fd).closed
  {
    hide Descriptors.Inv;
    Dup3KeepsIff(w, p, fd, fd);
    assert w.tables[p][fd := None][fd := w.tables[p][fd]] == w.tables[p];
  }

  // ---- pages without read permission

  const UW := Flags(false, false, true, false, true, false, false, false)

  /** The kernel translates a page mapped for writing only; no access of a hart reaches it. */
  method WriteOnlyPage(machine: Machine) returns (pm: ProcessMemory)
    requires machine.Valid() && |machine.free| >= 4
    modifies machine
    ensures pm.Valid() && PageTables.Resolve(PageMap(machine.mem, pm.table.root), 0x5000).Some?
    ensures forall q: Request :: q.thead == machine.thead ==>
      HardwareTranslate(machine.mem, pm.table.root, 0x5000, q) == None
  {
    hide SpaceOk, Grew, PageMap, HardwareTranslate, Overlay, Missing, Owned, UserPage;
    assert machine.free != {};
    ghost var free0 := machine.free;
    var made := ProcessMemory.New(machine);
    pm := made.value;
    assert |free0| == |machine.free| + 1;
    assert machine.free != {};
    BelowKernel(5);
    KeyMissing(machine.mem, pm.table.root, 5);
    ghost var s0 := pm.View();
    var r := pm.AddPage(5, UW, 0, []);
    WriteOnlySpace(s0, pm.View());
  }

  lemma WriteOnlySpace(s0: Space, s: Space)
    requires Grew(s0, s, map[5 := PageSpec(UW, Overlay(0, []))])
    ensures PageTables.Resolve(PageMap(s.m, s.root), 0x5000).Some?
    ensures forall q: Request :: q.thead == s.thead ==> HardwareTranslate(s.m, s.root, 0x5000, q) == None
  {
    hide SpaceStep, Keeps, TableOk, PageMap, HardwareTranslate, Overlay, Key, EntryFor, BigSlots;
    assert 5 in map[5 := PageSpec(UW, Overlay(0, []))] && s.maps[5].flags == UW;
    KeySmall(5);
    BelowKernel(5);
    forall q: Request | q.thead == s.thead
      ensures HardwareTranslate(s.m, s.root, 0x5000, q) == None
    {
      HardwareSeesMaps(s, 0x5000, q);
    }
  }

  // ---- execve

  /** An argument of one page pushes the stack out of its frame: the frame below changes, whoever owns it. */
  method LongArgument(machine: Machine, arg: Str) returns (sp: nat)
    requires machine.Valid() && |arg| == PAGE_SIZE && 5 in machine.mem && 6 in machine.mem
      && machine.mem[5] == ZeroFrame()
    modifies machine
    ensures 5 in machine.mem && machine.mem[5] != old(machine.mem)[5]
  {
    hide OnlyPushed, Recovers, ArgsOk, Region, ReadWord, StackDepth, ByteAt;
    LongDepth(arg);
    FramesInRam(machine.mem);
    ghost var m0 := machine.mem;
    var userSp, userArgv, userEnv;
    sp, userSp, userArgv, userEnv := BuildStack(machine, 7 * PAGE_SIZE, USER_STACK_BASE, [arg], [], []);
    assert sp / PAGE_SIZE == 5;
    ZeroWord(m0, sp);
  }

  lemma LongDepth(arg: Str)
    requires |arg| == PAGE_SIZE
    ensures StackDepth([arg], [], 0) == 4176
  {
    assert [arg][..0] == [];
    assert Depth(0, []) == 0;
    assert Depth(0, [arg]) == Pushed(0, PAGE_SIZE) == 4112;
  }

  lemma FramesInRam(m: Memory)
    requires 5 in m && 6 in m
    ensures InRam(m, 7 * PAGE_SIZE - 4176, 7 * PAGE_SIZE)
  {
    forall pa: nat | 7 * PAGE_SIZE - 4176 <= pa < 7 * PAGE_SIZE
      ensures pa / PAGE_SIZE in m
    {
      assert pa / PAGE_SIZE == 5 || pa / PAGE_SIZE == 6;
    }
  }

  lemma ZeroWord(m: Memory, sp: nat)
    requires sp == 7 * PAGE_SIZE - 4176 && 5 in m && m[5] == ZeroFrame() && InRam(m, sp, 7 * PAGE_SIZE)
    ensures ReadWord(Region(m, sp, 7 * PAGE_SIZE)) == 0
  {
    var r := Region(m, sp, 7 * PAGE_SIZE);
    forall i | 0 <= i < 8 ensures r[..8][i] == 0 { assert (sp + i) / PAGE_SIZE == 5; }
    ZerosLoadZero(r[..8]);
  }

  // ---- paths and records

  /** A directory with the empty name is made, but its printed path is that of the root. */
  method EmptyName(look: Lookup) returns (made: Outcome<Option<nat>>, path: string, found: Option<nat>)
    requires LookupOk(look)
    ensures made == Done(Some(2)) && path == "/" && found == Some(0)
  {
    var fs := new FileSystem(look);
    made := fs.Mkdir(0, "");
    path := fs.Fullpath(2);
    RootPath(fs.tree, look, None);
    found := fs.FromPath(path, None);
  }

  function LongName(): seq<Byte> { seq<Byte>(65516, _ => 1) }

  /** A name of 65516 bytes makes a record of 65536, whose length field reads zero: it is not read back. */
  lemma LongRecord(off: nat)
    requires off < SPAN64
    ensures var e := DirEntries.Entry(1, 8, LongName());
      DirEntries.RecLen(e) == 65536
        && DirEntries.ParseOne(DirEntries.Record(e, off)) != Some(DirEntries.Parsed(e, off, 65536))
  {
    hide DirEntries.Record, DirEntries.ParseOne;
    var e := DirEntries.Entry(1, 8, LongName());
    DirEntries.RecordReadsBackIff(e, off, []);
    assert DirEntries.Record(e, off) + [] == DirEntries.Record(e, off);
  }
}
