/** ProcessMemory: the address space of one process, changed in place (src/process/process_memory.rs). */
module ProcessMemories {
  import opened Basics
  import opened Words
  import opened Physical
  import opened Sv39
  import opened PageTrees
  import opened PageTables
  import opened HardwareWalk
  import opened AddressSpaces
  import opened UserAccess
  import opened FreeRuns

  const USER_STACK_BASE: nat := 0x8000_0000
  const MMAP_BASE: nat := 0x6000_0000
  const URW := Flags(false, true, true, false, true, false, false, false)

  function RoundUp(a: nat): nat { (a + (PAGE_SIZE - 1)) / PAGE_SIZE * PAGE_SIZE }

  /** to_offset(-1) saturates at zero. */
  function Before(a: nat): nat { if a == 0 then 0 else a - 1 }

  /** How adding a page ends: the page itself needs a frame before the number is looked at, and its tables need more. */
  function Adding(s: Space, vpn: nat): Outcome<()> {
    if s.free == {} then Panicked(OutOfFrames)
    else if vpn in s.maps then Panicked(AlreadyMapped)
    else if |s.free| < 1 + Missing(s.m, s.root, vpn) then Panicked(OutOfFrames)
    else Done(())
  }

  lemma AddingFails(s: Space, vpn: nat)
    ensures Adding(s, vpn).Panicked? ==>
      (Adding(s, vpn).why == OutOfFrames && |s.free| < 3) || (Adding(s, vpn).why == AlreadyMapped && vpn in s.maps)
  {
    hide Missing;
    KeyMissing(s.m, s.root, vpn);
  }

  /** Taking a frame out of the free set leaves the missing tables missing. */
  lemma TakenMissing(s: Space, f: nat, bytes: Frame, vpn: nat)
    requires SpaceOk(s) && f in s.free && f in s.m && UserPage(vpn)
    ensures Missing(s.m[f := bytes], s.root, vpn) == Missing(s.m, s.root, vpn) <= 2
    ensures Key(vpn) == vpn
  {
    hide Tree, PageMap, Entries, Missing, Key;
    KeySmall(vpn);
    KeyMissing(s.m, s.root, vpn);
    MissingFramed(s.m, s.m[f := bytes], s.root, s.pages, vpn);
  }

  class ProcessMemory {
    const machine: Machine
    var table: PageTable
    var maps: Maps
    var progEnd: nat
    var minBrk: nat
    var brk: nat
    var stackBase: nat
    var stackTop: nat
    var mmapBase: nat

    ghost function View(): Space
      reads this, table, machine
    {
      Space(machine.mem, machine.free, table.root, table.pages, maps, machine.thead)
    }

    ghost predicate Valid()
      reads this, table, machine
    {
      table.machine == machine && machine.Valid() && SpaceOk(View())
    }

    constructor (machine: Machine, table: PageTable)
      ensures this.machine == machine && this.table == table && maps == map[]
      ensures progEnd == 0 && minBrk == 0 && brk == 0
      ensures stackBase == USER_STACK_BASE && stackTop == USER_STACK_BASE && mmapBase == MMAP_BASE
    {
      this.machine := machine;
      this.table := table;
      maps := map[];
      progEnd, minBrk, brk := 0, 0, 0;
      stackBase, stackTop, mmapBase := USER_STACK_BASE, USER_STACK_BASE, MMAP_BASE;
    }

    /**
     * map: hand a page over to the space. It panics exactly when the page number is taken or a table cannot be added.
     */
    method Map(vpn: nat, page: nat, flags: Flags) returns (r: Outcome<()>)
      requires Valid() && UserPage(vpn)
      requires page in machine.mem && page < PPN_LIMIT && page !in machine.free && page !in Owned(View())
      modifies this`maps, table, machine
      ensures r == if vpn in old(maps) then Panicked(AlreadyMapped)
                   else if |old(machine.free)| < Missing(old(machine.mem), table.root, vpn) then Panicked(OutOfFrames)
                   else Done(())
      ensures r.Done? ==>
        && table.machine == machine && machine.Valid()
        && maps == old(maps)[vpn := Mapping(page, flags)]
        && TableStep(old(machine.mem), old(machine.free), old(table.pages), machine.mem, machine.free, table.pages,
            table.root)
        && |machine.free| == |old(machine.free)| - Missing(old(machine.mem), table.root, vpn)
        && PageMap(machine.mem, table.root) ==
             old(PageMap(machine.mem, table.root))[vpn := EntryFor(vpn, Mapping(page, flags), machine.thead)]
        && BigSlots(machine.mem, table.root) == old(BigSlots(machine.mem, table.root))
    {
      hide SpaceOk, TableOk, TableStep, PageMap, BigSlots, Missing, LeafEntry, Mappable, Owned, Key;
      SpaceMappable(View(), vpn);
      PageAfter(0, vpn);
      KeySmall(vpn);
      PageAfter(0, page);
      r := table.Map(vpn * PAGE_SIZE, AddressOf(page, 0), flags);
      if r.Panicked? {
        return;
      }
      maps := maps[vpn := Mapping(page, flags)];
    }

    /** Allocate a page, copy data into it at an offset, and map it: the pattern of every growing operation. */
    method AddPage(vpn: nat, flags: Flags, offset: nat, data: seq<Byte>) returns (r: Outcome<()>)
      requires Valid() && UserPage(vpn) && offset + |data| <= PAGE_SIZE
      modifies this`maps, table, machine
      ensures r == Adding(old(View()), vpn)
      ensures r.Done? ==> Valid() && Grew(old(View()), View(), map[vpn := PageSpec(flags, Overlay(offset, data))])
      ensures r.Done? ==> |old(machine.free)| <= |machine.free| + 3
    {
      hide SpaceOk, TableOk, TableStep, PageMap, BigSlots, Missing, EntryFor, Owned, Grew, Overlay;
      KeyMissing(machine.mem, table.root, vpn);
      ghost var s0 := View();
      var page := machine.Alloc();
      if page.Panicked? {
        return Panicked(page.why);
      }
      var f := page.value;
      machine.CopyBytes(f, offset, data);
      FilledFrame(offset, data);
      assert machine.mem == s0.m[f := Overlay(offset, data)];
      ghost var s1 := View();
      TakeFrame(s0, f, Overlay(offset, data));
      TakenMissing(s0, f, Overlay(offset, data), vpn);
      assert |s0.free| == |machine.free| + 1;
      r := Map(vpn, f, flags);
      if r.Panicked? {
        return;
      }
      GrewOne(s0, s1, View(), vpn, f, PageSpec(flags, Overlay(offset, data)));
      GrewOk(s0, View(), map[vpn := PageSpec(flags, Overlay(offset, data))]);
    }

    /** Map n cleared pages from `first` on, in the order the source's loops do. */
    method AddZeroPages(first: nat, n: nat, flags: Flags) returns (r: Outcome<()>)
      requires Valid() && forall v :: v in PageRange(first, n) ==> UserPage(v)
      modifies this`maps, table, machine
      ensures r.Panicked? ==> r.why in {AlreadyMapped, OutOfFrames}
      ensures r == Panicked(AlreadyMapped) ==> !(PageRange(first, n) !! old(maps).Keys)
      ensures r == Panicked(OutOfFrames) ==> |old(machine.free)| < 3 * n
      ensures r.Done? ==> Valid() && Grew(old(View()), View(), ZeroPages(PageRange(first, n), flags))
      ensures r.Done? ==> |old(machine.free)| <= |machine.free| + 3 * n
    {
      hide SpaceOk, Grew, PageRange, UserPage, ZeroPages, Overlay, Adding;
      ghost var s0 := View();
      GrewNothing(s0);
      ZeroPagesGrow(first, 0, flags);
      var i := 0;
      while i < n
        invariant 0 <= i <= n && Valid() && |s0.free| <= |machine.free| + 3 * i
        invariant Grew(s0, View(), ZeroPages(PageRange(first, i), flags))
      {
        ghost var s1 := View();
        ZeroPagesGrow(first, i, flags);
        InPageRange(first, n, i);
        GrewOk(s0, s1, ZeroPages(PageRange(first, i), flags));
        AddingFails(s1, first + i);
        r := AddPage(first + i, flags, 0, []);
        if r.Panicked? {
          return;
        }
        GrewTrans(s0, s1, View(), ZeroPages(PageRange(first, i), flags),
            map[first + i := PageSpec(flags, Overlay(0, []))]);
        i := i + 1;
      }
      r := Done(());
    }

    /** unmap: give the page back, or report that there is none. */
    method Unmap(vpn: nat) returns (ok: bool)
      requires Valid()
      modifies this`maps, table, machine
      ensures ok <==> vpn in old(maps)
      ensures Valid()
      ensures ok ==> Shrunk(old(View()), View(), {vpn}) && |machine.free| == |old(machine.free)| + 1
      ensures !ok ==> View() == old(View())
    {
      hide SpaceOk, TableOk, PageMap, BigSlots, Mappable, Owned, Keeps, SpaceStep;
      ghost var s0 := View();
      SpaceMappable(s0, vpn);
      if vpn !in maps {
        return false;
      }
      var page := maps[vpn].frame;
      MappedFrame(s0, vpn);
      maps := maps - {vpn};
      PageAfter(0, vpn);
      KeySmall(vpn);
      var r := table.Unmap(vpn * PAGE_SIZE);
      machine.Dealloc(page);
      UnmapSpace(s0, View(), vpn);
      ok := true;
    }

    /**
     * set_brk. Growing maps cleared pages from the limit that the old break rounds to; shrinking is not implemented,
     * and a break below the minimum is refused by returning the old one.
     */
    method SetBrk(newBrk: nat) returns (r: Outcome<nat>)
      requires Valid() && (newBrk <= USER_STACK_BASE || Blocked(maps.Keys, brk))
      modifies this`maps, this`brk, table, machine
      ensures r.Panicked? ==> r.why in {Unimplemented, AlreadyMapped, OutOfFrames}
      ensures r == Panicked(Unimplemented) <==> minBrk <= newBrk < old(brk)
      ensures r == Panicked(AlreadyMapped) ==>
        minBrk <= newBrk && old(brk) < newBrk && !(BrkPages(old(brk), newBrk) !! old(maps).Keys)
      ensures r == Panicked(OutOfFrames) ==> |old(machine.free)| < 3 * BrkCount(old(brk), newBrk)
      ensures r.Done? ==> |old(machine.free)| <= |machine.free| + 3 * BrkCount(old(brk), newBrk)
      ensures r.Done? ==>
        && Valid()
        && r.value == brk == (if newBrk < minBrk then old(brk) else newBrk)
        && Grew(old(View()), View(),
            ZeroPages(if minBrk <= newBrk && old(brk) < newBrk then BrkPages(old(brk), newBrk) else {}, URW))
      ensures r.Done? && old(brk) < brk ==> HeapGrew(old(View()), View(), old(brk), brk)
    {
      hide SpaceOk, Grew, PageRange, UserPage, ZeroPages, Overlay, BrkPages, RoundUp, Adding, BrkCount, HeapGrew,
           Blocked;
      ghost var s0 := View();
      GrewNothing(s0);
      NoZeroPages(URW);
      if newBrk >= minBrk {
        if newBrk < brk {
          return Panicked(Unimplemented);
        }
        if newBrk > brk {
          var realBrk := RoundUp(Before(brk));
          ghost var first := realBrk / PAGE_SIZE;
          BrkPagesCount(brk, newBrk);
          ZeroPagesGrow(first, 0, URW);
          ghost var i := 0;
          while newBrk > realBrk
            invariant realBrk == (first + i) * PAGE_SIZE && Valid() && brk == old(brk)
              && 0 <= i <= BrkCount(brk, newBrk)
            invariant Grew(s0, View(), ZeroPages(PageRange(first, i), URW)) && |s0.free| <= |machine.free| + 3 * i
            decreases newBrk - realBrk
          {
            ghost var s1 := View();
            ZeroPagesGrow(first, i, URW);
            GrewOk(s0, s1, ZeroPages(PageRange(first, i), URW));
            BrkLoopPage(s0.maps.Keys, brk, newBrk, i);
            InPageRange(first, BrkCount(brk, newBrk), i);
            AddingFails(s1, first + i);
            var added := AddPage((realBrk + 1) / PAGE_SIZE, URW, 0, []);
            if added.Panicked? {
              return Panicked(added.why);
            }
            GrewTrans(s0, s1, View(), ZeroPages(PageRange(first, i), URW),
                map[first + i := PageSpec(URW, Overlay(0, []))]);
            realBrk := realBrk + PAGE_SIZE;
            i := i + 1;
          }
          BrkDone(brk, newBrk, i);
          HeapGrows(s0, View(), brk, newBrk);
        }
        brk := newBrk;
      }
      r := Done(brk);
    }

    /** increase_user_stack: one more cleared page below the stack. */
    method IncreaseUserStack() returns (r: Outcome<()>)
      requires Valid() && stackTop <= USER_STACK_BASE
      modifies this`maps, this`stackTop, table, machine
      ensures r == Adding(old(View()), NextStackPage(old(stackTop)))
      ensures r.Panicked? ==>
        r.why == OutOfFrames || (r.why == AlreadyMapped && NextStackPage(old(stackTop)) in old(maps))
      ensures r == Panicked(OutOfFrames) ==> |old(machine.free)| < 3
      ensures r.Done? ==>
        && Valid() && stackTop == NextStackPage(old(stackTop)) * PAGE_SIZE
        && Grew(old(View()), View(), ZeroPages({NextStackPage(old(stackTop))}, URW))
        && StackGrew(old(View()), View(), old(stackTop), stackTop)
    {
      hide SpaceOk, Grew, UserPage, ZeroPages, Overlay, Adding, StackGrew;
      var vpn := if 1 > stackTop / PAGE_SIZE then 0 else stackTop / PAGE_SIZE - 1;
      StackPageIsUser(stackTop);
      OneZeroPage(vpn, URW);
      AddingFails(View(), vpn);
      r := AddPage(vpn, URW, 0, []);
      if r.Panicked? {
        return;
      }
      StackGrows(old(View()), View(), stackTop);
      stackTop := vpn * PAGE_SIZE;
    }

    /** alloc_stack_if_possible: a fault on the page just below the stack grows it, so the page is mapped afterwards. */
    method AllocStackIfPossible(vaddr: nat) returns (r: Outcome<bool>)
      requires Valid() && 0 < stackTop <= USER_STACK_BASE && stackTop % PAGE_SIZE == 0
      modifies this`maps, this`stackTop, table, machine
      ensures r.Panicked? ==> r.why == OutOfFrames && |old(machine.free)| < 3
      ensures r.Done? && !r.value ==>
        && View() == old(View()) && stackTop == old(stackTop)
        && (vaddr / PAGE_SIZE != (old(stackTop) - 1) / PAGE_SIZE || vaddr / PAGE_SIZE in old(maps))
      ensures r.Done? && r.value ==>
        && Valid() && vaddr / PAGE_SIZE == (old(stackTop) - 1) / PAGE_SIZE && vaddr / PAGE_SIZE !in old(maps)
        && stackTop == old(stackTop) - PAGE_SIZE && stackTop <= vaddr
        && Grew(old(View()), View(), ZeroPages({vaddr / PAGE_SIZE}, URW))
        && ReadWrite(View(), vaddr) && UserByte(machine.mem, maps, vaddr) == Some(0)
    {
      hide SpaceOk, Grew, UserPage, ZeroPages, Overlay, Adding, ReadWrite;
      var page := vaddr / PAGE_SIZE;
      if page == Before(stackTop) / PAGE_SIZE && page !in maps {
        assert page == NextStackPage(stackTop) && page * PAGE_SIZE == stackTop - PAGE_SIZE;
        var grown := IncreaseUserStack();
        if grown.Panicked? {
          return Panicked(grown.why);
        }
        assert stackTop <= vaddr < stackTop + PAGE_SIZE;
        return Done(true);
      }
      r := Done(false);
    }

    /** A new page table with the kernel's gigabyte in it. */
    static method NewTable(machine: Machine) returns (r: Outcome<PageTable>)
      requires machine.Valid()
      modifies machine
      ensures r == Panicked(OutOfFrames) <==> old(machine.free) == {}
      ensures r.Panicked? ==> r.why == OutOfFrames
      ensures r.Done? ==>
        && fresh(r.value) && r.value.machine == machine && machine.Valid()
        && r.value.root in old(machine.free) && r.value.pages == [r.value.root]
        && machine.free == old(machine.free) - {r.value.root} && machine.mem.Keys == old(machine.mem).Keys
        && (forall f :: f in machine.mem && f != r.value.root ==> machine.mem[f] == old(machine.mem)[f])
        && SpaceOk(Space(machine.mem, machine.free, r.value.root, r.value.pages, map[], machine.thead))
    {
      hide TableOk, PageMap, BigSlots, Word, LeafEntry;
      r := PageTable.New(machine);
      if r.Panicked? {
        return;
      }
      ClearRoot(machine.mem, r.value.root);
      var big := r.value.MapBig(KERNEL_SPACE_BASE, KERNEL_SPACE_BASE, KERNEL_FLAGS);
    }

    /** ProcessMemory::new. */
    static method New(machine: Machine) returns (r: Outcome<ProcessMemory>)
      requires machine.Valid()
      modifies machine
      ensures r == Panicked(OutOfFrames) <==> old(machine.free) == {}
      ensures r.Panicked? ==> r.why == OutOfFrames
      ensures r.Done? ==>
        && fresh(r.value) && fresh(r.value.table) && r.value.machine == machine && r.value.Valid()
        && r.value.maps == map[] && r.value.table.root in old(machine.free)
          && Owned(r.value.View()) == {r.value.table.root}
        && machine.free == old(machine.free) - {r.value.table.root} && machine.mem.Keys == old(machine.mem).Keys
        && (forall f :: f in machine.mem && f !in old(machine.free) ==> machine.mem[f] == old(machine.mem)[f])
        && r.value.brk == 0 && r.value.minBrk == 0 && r.value.stackTop == USER_STACK_BASE
          && r.value.mmapBase == MMAP_BASE
    {
      hide SpaceOk;
      var table := NewTable(machine);
      if table.Panicked? {
        return Panicked(table.why);
      }
      var pm := new ProcessMemory(machine, table.value);
      r := Done(pm);
    }

    /** reset: every page and every table node of the old space is given back. minBrk is left as it was. */
    method Reset() returns (r: Outcome<()>)
      requires Valid()
      modifies this`table, this`maps, this`progEnd, this`brk, this`stackBase, this`stackTop, this`mmapBase, machine
      ensures r == Panicked(OutOfFrames) <==> old(machine.free) == {}
      ensures r.Panicked? ==> r.why == OutOfFrames
      ensures r.Done? ==>
        && fresh(table) && Valid() && Emptied(old(View()), View())
        && progEnd == 0 && brk == 0 && stackBase == USER_STACK_BASE && stackTop == USER_STACK_BASE
          && mmapBase == MMAP_BASE
    {
      hide SpaceOk, DataFrames, TableFrames, Emptied, Owned;
      ghost var s0 := View();
      var fresh' := NewTable(machine);
      if fresh'.Panicked? {
        return Panicked(fresh'.why);
      }
      OwnedFrames(s0);
      machine.DeallocAll(DataFrames(maps));
      maps := map[];
      progEnd, brk, stackBase, stackTop, mmapBase := 0, 0, USER_STACK_BASE, USER_STACK_BASE, MMAP_BASE;
      machine.DeallocAll(TableFrames(table.pages));
      table := fresh'.value;
      FreshSpace(s0, View());
      r := Done(());
    }

    /** One turn of copy_from: a page of its own for one page of the other space. */
    method CopyPage(other: ProcessMemory, vpn: nat, ghost s0: Space, ghost o0: Space, ghost copied: set<nat>)
      returns (r: Outcome<()>)
      requires Valid() && other.Valid() && other != this && other.machine == machine && other.table != table
      requires CopiedSoFar(s0, View(), o0, copied) && o0.maps == other.maps && Now(o0, View()) == other.View()
      requires vpn in other.maps && vpn !in copied
      modifies this`maps, table, machine
      ensures r.Panicked? ==> r.why in {AlreadyMapped, OutOfFrames}
      ensures r == Panicked(AlreadyMapped) ==> vpn in s0.maps
      ensures r == Panicked(OutOfFrames) ==> |old(machine.free)| < 3
      ensures r.Done? ==>
        && Valid() && other.Valid() && |old(machine.free)| <= |machine.free| + 3
        && CopiedSoFar(s0, View(), o0, copied + {vpn})
    {
      hide SpaceOk, Grew, CopiedSoFar, Snapshot, Overlay, Adding;
      ghost var s1 := View();
      CopyLooks(s0, s1, o0, copied, vpn);
      AddingFails(s1, vpn);
      r := AddPage(vpn, other.maps[vpn].flags, 0, machine.mem[other.maps[vpn].frame]);
      if r.Panicked? {
        return;
      }
      CopyStep(s0, s1, View(), o0, copied, vpn);
      CopyKeepsOther(s0, View(), o0, copied + {vpn});
    }

    /** copy_from: a page of its own for every page of the other space. minBrk and mmapBase are not copied. */
    method CopyFrom(other: ProcessMemory) returns (r: Outcome<()>)
      requires Valid() && other.Valid() && other != this && other.machine == machine && other.table != table
      requires Owned(View()) !! Owned(other.View())
      modifies this`maps, this`stackTop, this`stackBase, this`brk, this`progEnd, table, machine
      ensures r.Panicked? ==> r.why in {AlreadyMapped, OutOfFrames}
      ensures r == Panicked(AlreadyMapped) ==> !(old(maps).Keys !! other.maps.Keys)
      ensures r == Panicked(OutOfFrames) ==> |old(machine.free)| < 3 * |other.maps|
      ensures r.Done? ==>
        && Valid() && other.Valid()
        && CopiedSoFar(old(View()), View(), old(other.View()), other.maps.Keys)
        && stackTop == other.stackTop && stackBase == other.stackBase && brk == other.brk && progEnd == other.progEnd
    {
      hide SpaceOk, CopiedSoFar, Owned;
      stackTop, stackBase, brk, progEnd := other.stackTop, other.stackBase, other.brk, other.progEnd;
      ghost var s0, o0 := View(), other.View();
      CopyStarts(s0, o0);
      var todo := other.maps.Keys;
      ghost var copied := 0;
      assert other.maps.Keys - todo == {};
      while todo != {}
        invariant todo <= other.maps.Keys && Valid() && other.Valid()
        invariant stackTop == other.stackTop && stackBase == other.stackBase && brk == other.brk
          && progEnd == other.progEnd
        invariant CopiedSoFar(s0, View(), o0, other.maps.Keys - todo)
        invariant |s0.free| <= |machine.free| + 3 * copied && copied + |todo| == |other.maps|
      {
        Nonempty(todo);
        var vpn :| vpn in todo;
        r := CopyPage(other, vpn, s0, o0, other.maps.Keys - todo);
        if r.Panicked? {
          return;
        }
        assert other.maps.Keys - (todo - {vpn}) == other.maps.Keys - todo + {vpn};
        todo := todo - {vpn};
        copied := copied + 1;
      }
      assert other.maps.Keys - todo == other.maps.Keys;
      r := Done(());
    }

    /**
     * check_collapse: is some page of the run already mapped? The usize subtraction panics when the run is too long.
     */
    method CheckCollapse(start: nat, n: nat, increasing: bool) returns (r: Outcome<bool>)
      ensures r == if increasing then Done(!(PageRange(start, n) !! maps.Keys))
                   else if n > start then Panicked(Overflow)
                   else Done(!FreeRun(maps.Keys, start, n))
    {
      if !increasing && n > start {
        return Panicked(Overflow);
      }
      var low, high := if increasing then start else start - n + 1, if increasing then start + n else start + 1;
      var vpn := low;
      while vpn < high
        invariant low <= vpn <= high
        invariant PageRange(low, vpn - low) !! maps.Keys
      {
        if vpn in maps {
          assert vpn in PageRange(low, high - low);
          return Done(true);
        }
        PageRangeGrows(low, vpn - low);
        vpn := vpn + 1;
      }
      r := Done(false);
    }

    /** The candidates of the fallback search, in ascending order of mapped page. */
    method SearchBelowMapped(base: nat, brkPage: nat, n: nat) returns (r: Outcome<Option<nat>>)
      ensures r == Panicked(Overflow) <==> exists q: nat :: Candidate(maps.Keys, base, brkPage, q) && n >= q
      ensures r.Panicked? ==> r.why == Overflow
      ensures r.Done? && r.value.Some? ==>
        var last := r.value.value;
        && FreeRun(maps.Keys, last, n) && Candidate(maps.Keys, base, brkPage, last + 1)
        && forall q: nat :: Candidate(maps.Keys, base, brkPage, q) && q <= last ==> !FreeRun(maps.Keys, q - 1, n)
      ensures r.Done? && r.value.None? ==>
        forall q: nat :: Candidate(maps.Keys, base, brkPage, q) ==> !FreeRun(maps.Keys, q - 1, n)
    {
      hide FreeRun;
      var q := 0;
      while q <= base
        invariant 0 <= q <= base + 1
        invariant forall p: nat :: Candidate(maps.Keys, base, brkPage, p) && p < q ==>
          p > n && !FreeRun(maps.Keys, p - 1, n)
      {
        if Candidate(maps.Keys, base, brkPage, q) {
          var taken := CheckCollapse(q - 1, n, false);
          if taken.Panicked? {
            return Panicked(taken.why);
          }
          if !taken.value {
            return Done(Some(q - 1));
          }
        }
        q := q + 1;
      }
      r := Done(None);
    }

    /** Where a mapping without a fixed address goes: the last page of the run. */
    method FindRun(n: nat) returns (r: Outcome<Option<nat>>)
      requires n > 0 && mmapBase >= PAGE_SIZE
      ensures r == Panicked(Overflow) <==> RunTooLong(maps.Keys, MmapLast(mmapBase), BrkPage(brk), n)
      ensures r.Panicked? ==> r.why == Overflow
      ensures r.Done? && r.value.Some? ==> Chosen(maps.Keys, MmapLast(mmapBase), BrkPage(brk), n, r.value.value)
      ensures r.Done? ==>
        (r.value.Some? <==>
          exists last :: Allowed(MmapLast(mmapBase), BrkPage(brk), last) && FreeRun(maps.Keys, last, n))
    {
      hide RoundUp, FreeRun;
      var base := mmapBase / PAGE_SIZE - 1;
      SearchComplete(maps.Keys, base, BrkPage(brk), n);
      if base !in maps {
        var taken := CheckCollapse(base, n, false);
        if taken.Panicked? {
          return Panicked(taken.why);
        }
        if !taken.value {
          return Done(Some(base));
        }
      } else {
        LastPageInRun(maps.Keys, base, n);
      }
      NoRunFromZero(maps.Keys, base, n);
      r := SearchBelowMapped(base, RoundUp(Before(brk)) / PAGE_SIZE, n);
    }

    /** mmap without a fixed address: None is the "not enough memory" error. */
    method MmapAnywhere(n: nat, flags: Flags) returns (r: Outcome<Option<nat>>)
      requires Valid() && n > 0 && PAGE_SIZE <= mmapBase <= USER_STACK_BASE
      modifies this`maps, table, machine
      ensures r.Panicked? ==> r.why in {Overflow, OutOfFrames}
      ensures r == Panicked(Overflow) <==> RunTooLong(old(maps).Keys, MmapLast(mmapBase), BrkPage(brk), n)
      ensures r == Panicked(OutOfFrames) ==> |old(machine.free)| < 3 * n
      ensures r == Done(None) ==>
        && View() == old(View()) && Valid()
        && !exists last :: Allowed(MmapLast(mmapBase), BrkPage(brk), last) && FreeRun(maps.Keys, last, n)
      ensures r.Done? && r.value.Some? ==>
        var first := r.value.value / PAGE_SIZE;
        && r.value.value == first * PAGE_SIZE && Valid()
        && Chosen(old(maps).Keys, MmapLast(mmapBase), BrkPage(brk), n, first + n - 1)
        && Grew(old(View()), View(), ZeroPages(PageRange(first, n), flags))
    {
      hide SpaceOk, Grew, ZeroPages, BrkPage, RunTooLong, Allowed, FreeRun, PageRange;
      var run := FindRun(n);
      if run.Panicked? {
        return Panicked(run.why);
      }
      if run.value.None? {
        return Done(None);
      }
      ChosenRun(maps.Keys, MmapLast(mmapBase), BrkPage(brk), n, run.value.value);
      var first := run.value.value - n + 1;
      PageAfter(0, first);
      var added := AddZeroPages(first, n, flags);
      if added.Panicked? {
        return Panicked(added.why);
      }
      r := Done(Some(first * PAGE_SIZE));
    }

    /** mmap at a fixed address: pages in the way are dropped first. */
    method MmapFixed(addr: nat, n: nat, flags: Flags) returns (r: Outcome<nat>)
      requires Valid() && forall v :: v in PageRange(addr / PAGE_SIZE, n) ==> UserPage(v)
      modifies this`maps, table, machine
      ensures r.Panicked? ==> r.why == OutOfFrames && |old(machine.free)| < 3 * n
      ensures r.Done? ==>
        && r.value == addr / PAGE_SIZE * PAGE_SIZE && Valid()
        && Replaced(old(View()), View(), PageRange(addr / PAGE_SIZE, n), flags)
    {
      hide SpaceOk, Replaced, Grew, Shrunk, PageRange, UserPage, Overlay, Adding;
      ghost var s0, first := View(), addr / PAGE_SIZE;
      ReplacedNothing(s0, first, flags);
      var i := 0;
      while i < n
        invariant 0 <= i <= n && Valid() && |s0.free| <= |machine.free| + 3 * i
        invariant Replaced(s0, View(), PageRange(first, i), flags)
      {
        var vpn := addr / PAGE_SIZE + i;
        InPageRange(first, n, i);
        PageRangeGrows(first, i);
        ghost var s1 := View();
        if vpn in maps {
          var ok := Unmap(vpn);
          ShrunkOk(s1, View(), {vpn});
        }
        ghost var s2 := View();
        AddingFails(s2, vpn);
        var added := AddPage(vpn, flags, 0, []);
        if added.Panicked? {
          return Panicked(added.why);
        }
        ReplacedStep(s0, s1, s2, View(), PageRange(first, i), vpn, flags);
        i := i + 1;
      }
      r := Done(addr / PAGE_SIZE * PAGE_SIZE);
    }

    /** The unmapping loops of munmap and of mmap's rollback: a page that is not mapped is a panic. */
    method RemovePages(first: nat, n: nat) returns (r: Outcome<()>)
      requires Valid()
      modifies this`maps, table, machine
      ensures r == if PageRange(first, n) <= old(maps).Keys then Done(()) else Panicked(NotMapped)
      ensures r.Done? ==> Valid() && Shrunk(old(View()), View(), PageRange(first, n))
    {
      hide SpaceOk, Shrunk, PageRange;
      ghost var s0 := View();
      ShrunkNothing(s0, first);
      PageRangeGrows(first, 0);
      var i := 0;
      while i < n
        invariant 0 <= i <= n && Valid() && PageRange(first, i) <= s0.maps.Keys
        invariant Shrunk(s0, View(), PageRange(first, i))
      {
        ghost var s1 := View();
        PageRangeGrows(first, i);
        InPageRange(first, n, i);
        ShrunkOk(s0, s1, PageRange(first, i));
        var ok := Unmap(first + i);
        if !ok {
          return Panicked(NotMapped);
        }
        ShrunkTrans(s0, s1, View(), PageRange(first, i), {first + i});
        i := i + 1;
      }
      r := Done(());
    }

    /** The munmap system call. */
    method MunmapCall(addr: nat, len: nat) returns (r: Outcome<()>)
      requires Valid()
      modifies this`maps, table, machine
      ensures r.Panicked? ==> r.why == NotMapped
      ensures r.Done? <==> forall v: nat :: EndsInside(v, addr, len) ==> v in old(maps)
      ensures r.Done? ==> Valid() && Shrunk(old(View()), View(), PageRange(addr / PAGE_SIZE, GonePages(addr, len)))
      ensures r.Done? ==> forall v: nat :: v in maps <==> v in old(maps) && !EndsInside(v, addr, len)
    {
      hide SpaceOk, PageRange;
      var n := (len + addr % PAGE_SIZE) / PAGE_SIZE;
      forall v: nat ensures v in PageRange(addr / PAGE_SIZE, n) <==> EndsInside(v, addr, len) {
        GoneIff(addr, len, v);
      }
      r := RemovePages(addr / PAGE_SIZE, n);
    }

    /** Reading a file into n fresh pages, one page at a time. */
    method FillPages(first: nat, n: nat, content: seq<Byte>)
      requires Valid() && PageRange(first, n) <= maps.Keys && Cleared(View(), PageRange(first, n))
      modifies machine`mem
      ensures Valid() && Filled(old(View()), View(), first, n, content)
    {
      hide SpaceOk, Filled, PageRange, Overlay, Slice, Cleared;
      ghost var s1 := View();
      FilledNothing(s1, first, content);
      var i := 0;
      while i < n
        invariant 0 <= i <= n && Valid() && Filled(s1, View(), first, i, content)
      {
        InPageRange(first, n, i);
        FilledLooks(s1, View(), first, n, i, content);
        ghost var s2 := View();
        var f := maps[first + i].frame;
        var slice := Slice(content, i);
        machine.CopyBytes(f, 0, slice);
        FilledFrame(0, slice);
        FilledStep(s1, s2, View(), first, i, content);
        i := i + 1;
      }
    }

    /**
     * The steps of the mmap system call. A mapping of a descriptor that is not open is undone and the call fails; one
     * of an open file is filled from the start of the file.
     */
    method MmapSteps(addr: nat, len: nat, flags: Flags, fixed: bool, backing: Backing, offset: nat)
      returns (r: Outcome<Reply>)
      requires Valid() && PAGE_SIZE <= mmapBase <= USER_STACK_BASE
      requires fixed ==> forall v :: v in PageRange(addr / PAGE_SIZE, CallPages(addr, len)) ==> UserPage(v)
      modifies this`maps, table, machine
      ensures r.Panicked? ==> len > 0 && r.why in {Overflow, OutOfFrames, Unimplemented}
      ensures r == Panicked(Overflow) <==>
        len > 0 && !fixed && RunTooLong(old(maps).Keys, MmapLast(mmapBase), BrkPage(brk), CallPages(addr, len))
      ensures r == Panicked(OutOfFrames) ==> |old(machine.free)| < 3 * CallPages(addr, len)
      ensures r == Panicked(Unimplemented) ==> addr % PAGE_SIZE != 0 || offset != 0
      ensures r == Done(MinusOne) <==> len == 0
      ensures r.Done? ==> Valid()
      ensures r.Done? ==> CallResult(old(View()), View(), addr, len, flags, fixed, backing, offset,
                                     MmapLast(mmapBase), BrkPage(brk), r.value)
      ensures r == Done(IoError) ==>
        (Unaltered(old(View()), View()) <==>
          !fixed || PageRange(addr / PAGE_SIZE, CallPages(addr, len)) !! old(maps).Keys)
    {
      hide SpaceOk, Grew, Replaced, Shrunk, ZeroPages, BrkPage, RunTooLong, Allowed, FreeRun, PageRange, Chosen,
           RolledBackBut, UserPage, Before, MmapLast, Filled, Unaltered, FilePlan, Overwrote;
      RoundUpZero(len);
      if RoundUp(len) == 0 {
        return Done(MinusOne);
      }
      var n := (RoundUp(len) + addr % PAGE_SIZE) / PAGE_SIZE;
      ghost var s0 := View();
      var start;
      if fixed {
        var placed := MmapFixed(addr, n, flags);
        if placed.Panicked? {
          return Panicked(placed.why);
        }
        start := placed.value;
      } else {
        var placed := MmapAnywhere(n, flags);
        if placed.Panicked? {
          return Panicked(placed.why);
        }
        if placed.value.None? {
          return Done(NoMemory);
        }
        start := placed.value.value;
      }
      if addr % PAGE_SIZE != 0 || offset != 0 {
        return Panicked(Unimplemented);
      }
      PageAfter(0, addr / PAGE_SIZE);
      ghost var s1, range := View(), PageRange(start / PAGE_SIZE, n);
      if fixed { ReplacedKeys(s0, s1, range, flags); } else { GrewKeys(s0, s1, range, flags); }
      match backing {
        case Anonymous =>
          NoContent(s1, start / PAGE_SIZE, n);
        case Opened(content) =>
          FillPages(start / PAGE_SIZE, n, content);
        case BadFd =>
          var undone := RemovePages(start / PAGE_SIZE, n);
          if fixed { UndoReplaced(s0, s1, View(), range, flags); } else { UndoGrew(s0, s1, View(), range, flags); }
          RollbackIsCompleteIff(s0, View(), if fixed then range else {});
          return Done(IoError);
      }
      if fixed { FilledReplaced(s0, s1, View(), start / PAGE_SIZE, n, flags, Content(backing)); }
      else { FilledGrew(s0, s1, View(), start / PAGE_SIZE, n, flags, Content(backing)); }
      r := Done(Address(start));
    }

    /** The mmap system call, step by step and as the program sees it. */
    method MmapCall(addr: nat, len: nat, flags: Flags, fixed: bool, backing: Backing, offset: nat)
      returns (r: Outcome<Reply>)
      requires Valid() && PAGE_SIZE <= mmapBase <= USER_STACK_BASE
      requires fixed ==> forall v :: v in PageRange(addr / PAGE_SIZE, CallPages(addr, len)) ==> UserPage(v)
      modifies this`maps, table, machine
      ensures r.Panicked? ==> len > 0 && r.why in {Overflow, OutOfFrames, Unimplemented}
      ensures r == Panicked(Overflow) <==>
        len > 0 && !fixed && RunTooLong(old(maps).Keys, MmapLast(mmapBase), BrkPage(brk), CallPages(addr, len))
      ensures r == Panicked(OutOfFrames) ==> |old(machine.free)| < 3 * CallPages(addr, len)
      ensures r == Panicked(Unimplemented) ==> addr % PAGE_SIZE != 0 || offset != 0
      ensures r.Done? ==> Valid()
      ensures r.Done? ==> CallResult(old(View()), View(), addr, len, flags, fixed, backing, offset,
                                     MmapLast(mmapBase), BrkPage(brk), r.value)
      ensures r.Done? ==> CallShows(old(View()), View(), addr, len, flags, fixed, backing, offset,
                                    mmapBase - mmapBase % PAGE_SIZE, brk, r.value)
      ensures r == Done(IoError) ==>
        (Unaltered(old(View()), View()) <==>
          !fixed || PageRange(addr / PAGE_SIZE, CallPages(addr, len)) !! old(maps).Keys)
    {
      hide SpaceOk, CallResult, CallShows, RunTooLong, PageRange, UserPage, Unaltered;
      r := MmapSteps(addr, len, flags, fixed, backing, offset);
      if r.Done? {
        CallMeans(old(View()), View(), addr, len, flags, fixed, backing, offset, mmapBase, brk, r.value);
      }
    }
  }

  datatype Reply = Address(addr: nat) | MinusOne | NoMemory | IoError

  /** What stands behind a mapping: nothing, a descriptor that is not open, or a file with this content. */
  datatype Backing = Anonymous | BadFd | Opened(content: seq<Byte>)

  function Content(b: Backing): seq<Byte> { if b.Opened? then b.content else [] }

  function Least(a: nat, b: nat): nat { if a < b then a else b }

  /** What a read of one page gives after k pages were read. */
  function Slice(content: seq<Byte>, k: nat): (s: seq<Byte>)
    ensures |s| <= PAGE_SIZE
  {
    content[Least(PAGE_SIZE * k, |content|)..Least(PAGE_SIZE * k + PAGE_SIZE, |content|)]
  }

  function FilePage(content: seq<Byte>, k: nat): Frame { Overlay(0, Slice(content, k)) }

  /** The pages of a mapping with their contents. */
  function FilePlan(first: nat, n: nat, flags: Flags, content: seq<Byte>): (plan: Plan) {
    map v | v in PageRange(first, n) && v >= first :: PageSpec(flags, FilePage(content, v - first))
  }

  ghost predicate Cleared(s: Space, pages: set<nat>) {
    forall v :: v in pages ==> v in s.maps && s.maps[v].frame in s.m && s.m[s.maps[v].frame] == ZeroFrame()
  }

  /** n pages from `first` on now hold the file; no other page changed. */
  ghost predicate Filled(s1: Space, s: Space, first: nat, n: nat, content: seq<Byte>) {
    && SpaceOk(s) && SpaceStep(s1, s) && s == s1.(m := s.m)
    && Keeps(s1, s, s1.maps.Keys - PageRange(first, n))
    && forall v :: v in PageRange(first, n) ==>
         v >= first && v in s.maps && s.maps[v].frame in s.m && s.m[s.maps[v].frame] == FilePage(content, v - first)
  }

  lemma FilledNothing(s: Space, first: nat, content: seq<Byte>)
    requires SpaceOk(s)
    ensures Filled(s, s, first, 0, content)
  {
    hide TableOk, Agrees, FilePage;
    KeepsAll(s);
    PageRangeGrows(first, 0);
  }

  lemma FilledLooks(s1: Space, s: Space, first: nat, n: nat, i: nat, content: seq<Byte>)
    requires Filled(s1, s, first, i, content) && i < n && PageRange(first, n) <= s1.maps.Keys
      && Cleared(s1, PageRange(first, n))
    ensures first + i in s.maps && s.maps[first + i].frame in s.m && s.m[s.maps[first + i].frame] == ZeroFrame()
  {
    hide SpaceOk, SpaceStep, FilePage, ZeroFrame;
    PageRangeGrows(first, i);
    InPageRange(first, n, i);
    assert first + i in s1.maps.Keys - PageRange(first, i);
  }

  lemma FilledStep(s1: Space, s2: Space, s: Space, first: nat, i: nat, content: seq<Byte>)
    requires Filled(s1, s2, first, i, content) && first + i in s2.maps && s2.maps[first + i].frame in s2.m
    requires s == s2.(m := s2.m[s2.maps[first + i].frame := FilePage(content, i)])
    ensures Filled(s1, s, first, i + 1, content) && SpaceOk(s)
  {
    hide SpaceOk, SpaceStep, FilePage;
    var v := first + i;
    OwnWrite(s2, v, FilePage(content, i));
    SpaceStepTrans(s1, s2, s);
    PageRangeGrows(first, i);
    forall w | w in PageRange(first, i) ensures w in s2.maps.Keys - {v} {}
  }

  lemma NoContent(s: Space, first: nat, n: nat)
    requires SpaceOk(s) && Cleared(s, PageRange(first, n))
    ensures Filled(s, s, first, n, [])
  {
    hide TableOk, Agrees, Overlay;
    KeepsAll(s);
    OverlayNothing();
    forall k ensures Slice([], k) == [] {}
  }

  /** The pages of the plan took the place of whatever was there; every other page stays as it was. */
  ghost predicate Overwrote(s0: Space, s: Space, plan: Plan) {
    && SpaceOk(s) && SpaceStep(s0, s) && s.root == s0.root
    && s.maps.Keys == s0.maps.Keys + plan.Keys && Keeps(s0, s, s0.maps.Keys - plan.Keys)
    && forall v :: v in plan ==>
         s.maps[v].flags == plan[v].flags && s.maps[v].frame in s.m && s.m[s.maps[v].frame] == plan[v].bytes
  }

  lemma FilledReplaced(s0: Space, s1: Space, s: Space, first: nat, n: nat, flags: Flags, content: seq<Byte>)
    requires Replaced(s0, s1, PageRange(first, n), flags) && Filled(s1, s, first, n, content)
    ensures Overwrote(s0, s, FilePlan(first, n, flags, content))
  {
    hide SpaceOk, SpaceStep, FilePage, ZeroFrame;
    SpaceStepTrans(s0, s1, s);
    var plan := FilePlan(first, n, flags, content);
    assert plan.Keys == PageRange(first, n);
    KeepsTrans(s0, s1, s, s0.maps.Keys - plan.Keys);
  }

  lemma FilledGrew(s0: Space, s1: Space, s: Space, first: nat, n: nat, flags: Flags, content: seq<Byte>)
    requires Grew(s0, s1, ZeroPages(PageRange(first, n), flags)) && Filled(s1, s, first, n, content)
    ensures Grew(s0, s, FilePlan(first, n, flags, content))
  {
    hide SpaceOk, SpaceStep, FilePage, ZeroFrame;
    SpaceStepTrans(s0, s1, s);
    var plan := FilePlan(first, n, flags, content);
    assert plan.Keys == PageRange(first, n) == ZeroPages(PageRange(first, n), flags).Keys;
    KeepsTrans(s0, s1, s, s0.maps.Keys);
  }

  /** What each answer of the mmap system call says about the address space before and after. */
  ghost predicate CallResult(s0: Space, s: Space, addr: nat, len: nat, flags: Flags, fixed: bool, backing: Backing,
                             offset: nat,
                             base: nat, brkPage: nat, reply: Reply)
  {
    (reply.MinusOne? <==> len == 0)
      && ReplyMeans(s0, s, addr, CallPages(addr, len), flags, fixed, backing, offset, base, brkPage, reply)
  }

  /** The same, for a call that asks for n pages. */
  ghost predicate ReplyMeans(s0: Space, s: Space, addr: nat, n: nat, flags: Flags, fixed: bool, backing: Backing,
                             offset: nat,
                             base: nat, brkPage: nat, reply: Reply)
  {
    match reply
    case MinusOne => s == s0
    case NoMemory => s == s0 && !fixed && !exists last :: Allowed(base, brkPage, last) && FreeRun(s.maps.Keys, last, n)
    case IoError => backing.BadFd? && Supported(addr, offset)
      && RolledBackBut(s0, s, if fixed then PageRange(addr / PAGE_SIZE, n) else {})
    case Address(at) =>
      var first := at / PAGE_SIZE;
      && !backing.BadFd? && Supported(addr, offset) && at == first * PAGE_SIZE
      && (fixed ==> at == addr && Overwrote(s0, s, FilePlan(first, n, flags, Content(backing))))
      && (!fixed ==>
        n > 0 && Chosen(s0.maps.Keys, base, brkPage, n, first + n - 1)
          && Grew(s0, s, FilePlan(first, n, flags, Content(backing))))
  }

  /** Neither address nor file offset inside a page: the rest is not implemented. */
  predicate Supported(addr: nat, offset: nat) { addr % PAGE_SIZE == 0 && offset == 0 }

  /** How many pages the system call asks for: as few as hold len bytes. */
  function CallPages(addr: nat, len: nat): (n: nat)
    ensures len <= n * PAGE_SIZE < len + PAGE_SIZE
  {
    (RoundUp(len) + addr % PAGE_SIZE) / PAGE_SIZE
  }

  // ---- munmap

  function GonePages(addr: nat, len: nat): nat { (len + addr % PAGE_SIZE) / PAGE_SIZE }

  /** A page from that of addr on, that ends at addr + len at the latest. */
  predicate EndsInside(v: nat, addr: nat, len: nat) {
    addr < v * PAGE_SIZE + PAGE_SIZE && v * PAGE_SIZE + PAGE_SIZE <= addr + len
  }

  lemma GoneIff(addr: nat, len: nat, v: nat)
    ensures v in PageRange(addr / PAGE_SIZE, GonePages(addr, len)) <==> EndsInside(v, addr, len)
  {
  }

  /**
   * munmap unmaps its whole range if and only if the range ends at a page boundary, or its last page was not mapped.
   */
  lemma MunmapCoversIff(before: Maps, after: Maps, addr: nat, len: nat)
    requires forall v: nat :: v in after <==> v in before && !EndsInside(v, addr, len)
    ensures (forall a :: addr <= a < addr + len ==> a / PAGE_SIZE !in after) <==>
      len == 0 || (addr + len) % PAGE_SIZE == 0 || (addr + len - 1) / PAGE_SIZE !in before
  {
    if len > 0 {
      var last := (addr + len - 1) / PAGE_SIZE;
      assert EndsInside(last, addr, len) <==> (addr + len) % PAGE_SIZE == 0;
      forall a | addr <= a < addr + len ensures EndsInside(a / PAGE_SIZE, addr, len) || a / PAGE_SIZE == last {}
    }
  }

  // ---- what the mmap call means to the program, address by address

  /** At a the program finds the byte of content that is mapped there, and may do with it what the permissions say. */
  ghost predicate Shows(s: Space, at: nat, flags: Flags, content: seq<Byte>, a: nat)
    requires at <= a
  {
    && UserByte(s.m, s.maps, a) == Some(if a - at < |content| then content[a - at] else 0)
    && AsPromised(s, a, flags)
  }

  /**
   * The bytes [at, at + len) are the content, and zero behind its end; every new page holds one of them; and every page
   * that was there and holds none of them stays as it was.
   */
  ghost predicate MmapShows(s0: Space, s: Space, at: nat, len: nat, flags: Flags, content: seq<Byte>) {
    && at % PAGE_SIZE == 0
    && (forall a :: at <= a < at + len ==> Shows(s, at, flags, content, a))
    && (forall v :: v in s.maps && v !in s0.maps ==> at <= v * PAGE_SIZE < at + len)
    && Keeps(s0, s, set v | v in s0.maps && !(at <= v * PAGE_SIZE < at + len))
  }

  /** The len bytes below address e lie in unmapped pages, none of them page zero. */
  ghost predicate FreeBelow(keys: set<nat>, e: nat, len: nat) {
    len + PAGE_SIZE <= e && forall a :: e - len <= a < e ==> a / PAGE_SIZE !in keys
  }

  /** A page boundary with a whole page between the last byte below the break and it. */
  predicate AboveBreak(brk: nat, e: nat) { e % PAGE_SIZE == 0 && PAGE_SIZE <= e && brk + PAGE_SIZE <= e + 1 }

  /**
   * Where a mapping without a fixed address ends: at the mmap base if there is room below it, otherwise at the lowest
   * mapped page above the break that has room below it.
   */
  ghost predicate EndsAt(keys: set<nat>, base: nat, brk: nat, len: nat, e: nat) {
    && FreeBelow(keys, e, len)
    && (FreeBelow(keys, base, len) ==> e == base)
    && (!FreeBelow(keys, base, len) ==>
          && AboveBreak(brk, e) && e <= base && e / PAGE_SIZE in keys
          && forall d: nat :: AboveBreak(brk, d) && d < e && d / PAGE_SIZE in keys ==> !FreeBelow(keys, d, len))
  }

  ghost predicate NoRoomFor(keys: set<nat>, base: nat, brk: nat, len: nat) {
    && !FreeBelow(keys, base, len)
    && forall e: nat :: AboveBreak(brk, e) && e <= base ==> !FreeBelow(keys, e, len)
  }

  /** What each answer of the call says, in terms of addresses; base is the page boundary of the mmap base. */
  ghost predicate CallShows(s0: Space, s: Space, addr: nat, len: nat, flags: Flags, fixed: bool, backing: Backing,
                            offset: nat, base: nat, brk: nat, reply: Reply)
  {
    match reply
    case MinusOne => len == 0 && s == s0
    case NoMemory => len > 0 && s == s0 && !fixed && NoRoomFor(s0.maps.Keys, base, brk, len)
    case IoError =>
      && len > 0 && backing.BadFd? && addr % PAGE_SIZE == 0 && offset == 0
      && (forall v :: v in s.maps <==> v in s0.maps && !(fixed && addr <= v * PAGE_SIZE < addr + len))
      && Keeps(s0, s, s.maps.Keys)
    case Address(at) =>
      && len > 0 && !backing.BadFd? && addr % PAGE_SIZE == 0 && offset == 0
      && MmapShows(s0, s, at, len, flags, if backing.Opened? then backing.content else [])
      && (fixed ==> at == addr)
      && (!fixed ==> exists e: nat :: at + len <= e < at + len + PAGE_SIZE && EndsAt(s0.maps.Keys, base, brk, len, e))
  }

  lemma GrewOverwrites(s0: Space, s: Space, plan: Plan)
    requires Grew(s0, s, plan)
    ensures Overwrote(s0, s, plan)
  {
    hide SpaceOk, SpaceStep;
  }

  /** Byte a - at of the content is where the plan puts it. */
  lemma PlannedByte(content: seq<Byte>, first: nat, a: nat)
    requires first * PAGE_SIZE <= a
    ensures a / PAGE_SIZE >= first
    ensures var k := a - first * PAGE_SIZE;
      FilePage(content, a / PAGE_SIZE - first)[a % PAGE_SIZE] == if k < |content| then content[k] else 0
  {
    hide Overlay;
    var page, k := a / PAGE_SIZE - first, a - first * PAGE_SIZE;
    assert k == PAGE_SIZE * page + a % PAGE_SIZE;
    var slice := Slice(content, page);
    var f := Overlay(0, slice);
    if k < |content| { assert f[a % PAGE_SIZE] == f[0..0 + |slice|][a % PAGE_SIZE]; }
  }

  lemma PlanShows(s0: Space, s: Space, first: nat, n: nat, len: nat, flags: Flags, content: seq<Byte>)
    requires Overwrote(s0, s, FilePlan(first, n, flags, content)) && len <= n * PAGE_SIZE < len + PAGE_SIZE
    ensures MmapShows(s0, s, first * PAGE_SIZE, len, flags, content)
  {
    hide SpaceOk, SpaceStep, FilePage, AsPromised;
    var at, plan := first * PAGE_SIZE, FilePlan(first, n, flags, content);
    assert plan.Keys == PageRange(first, n);
    forall v: nat ensures v in PageRange(first, n) <==> at <= v * PAGE_SIZE < at + len {}
    forall a | at <= a < at + len ensures Shows(s, at, flags, content, a) {
      PlannedByte(content, first, a);
      assert a / PAGE_SIZE in plan;
      MappedAsPromised(s, a);
    }
  }

  /** The pages of a fixed range. */
  lemma RangePages(addr: nat, n: nat, len: nat, v: nat)
    requires addr % PAGE_SIZE == 0 && len <= n * PAGE_SIZE < len + PAGE_SIZE
    ensures v in PageRange(addr / PAGE_SIZE, n) <==> addr <= v * PAGE_SIZE < addr + len
  {
  }

  lemma PlacedBelow(keys: set<nat>, base: nat, brk: nat, n: nat, len: nat, last: nat)
    requires base >= PAGE_SIZE && len > 0 && len <= n * PAGE_SIZE < len + PAGE_SIZE
    requires Chosen(keys, MmapLast(base), BrkPage(brk), n, last)
    ensures EndsAt(keys, base - base % PAGE_SIZE, brk, len, last * PAGE_SIZE + PAGE_SIZE)
  {
    hide FreeRun, FreeBelow, BrkPage, MmapLast;
    var b, e := base - base % PAGE_SIZE, last * PAGE_SIZE + PAGE_SIZE;
    FreeBelowIs(keys, b, len, n);
    FreeBelowIs(keys, e, len, n);
    forall d: nat | AboveBreak(brk, d) && d < e && d / PAGE_SIZE in keys && !FreeBelow(keys, b, len)
      ensures !FreeBelow(keys, d, len)
    {
      FreeBelowIs(keys, d, len, n);
      if d / PAGE_SIZE - 1 in keys {
        LastPageInRun(keys, d / PAGE_SIZE - 1, n);
      } else {
        assert Candidate(keys, MmapLast(base), BrkPage(brk), d / PAGE_SIZE);
      }
    }
  }

  lemma NowhereBelow(keys: set<nat>, base: nat, brk: nat, n: nat, len: nat)
    requires base >= PAGE_SIZE && len > 0 && len <= n * PAGE_SIZE < len + PAGE_SIZE
    requires !exists last :: Allowed(MmapLast(base), BrkPage(brk), last) && FreeRun(keys, last, n)
    ensures NoRoomFor(keys, base - base % PAGE_SIZE, brk, len)
  {
    hide FreeRun, FreeBelow, BrkPage, MmapLast;
    var b := base - base % PAGE_SIZE;
    FreeBelowIs(keys, b, len, n);
    assert Allowed(MmapLast(base), BrkPage(brk), MmapLast(base));
    forall e: nat | AboveBreak(brk, e) && e <= b ensures !FreeBelow(keys, e, len) {
      FreeBelowIs(keys, e, len, n);
      assert Allowed(MmapLast(base), BrkPage(brk), e / PAGE_SIZE - 1);
    }
  }

  lemma CallMeans(s0: Space, s: Space, addr: nat, len: nat, flags: Flags, fixed: bool, backing: Backing, offset: nat,
                  base: nat, brk: nat, reply: Reply)
    requires base >= PAGE_SIZE
    requires CallResult(s0, s, addr, len, flags, fixed, backing, offset, MmapLast(base), BrkPage(brk), reply)
    ensures CallShows(s0, s, addr, len, flags, fixed, backing, offset, base - base % PAGE_SIZE, brk, reply)
  {
    hide SpaceOk, SpaceStep, FilePlan, Chosen, PageRange, RolledBackBut, Overwrote, Grew, Allowed, FreeRun, BrkPage,
         MmapLast, MmapShows, EndsAt, NoRoomFor, CallPages;
    var n := CallPages(addr, len);
    match reply
    case MinusOne =>
    case NoMemory => NowhereBelow(s0.maps.Keys, base, brk, n, len);
    case IoError => RolledBackMeans(s0, s, addr, n, len, fixed);
    case Address(at) =>
      var first := at / PAGE_SIZE;
      if !fixed {
        GrewOverwrites(s0, s, FilePlan(first, n, flags, Content(backing)));
        PlacedBelow(s0.maps.Keys, base, brk, n, len, first + n - 1);
      }
      PlanShows(s0, s, first, n, len, flags, Content(backing));
  }

  lemma RolledBackMeans(s0: Space, s: Space, addr: nat, n: nat, len: nat, fixed: bool)
    requires addr % PAGE_SIZE == 0 && len <= n * PAGE_SIZE < len + PAGE_SIZE
    requires RolledBackBut(s0, s, if fixed then PageRange(addr / PAGE_SIZE, n) else {})
    ensures forall v :: v in s.maps <==> v in s0.maps && !(fixed && addr <= v * PAGE_SIZE < addr + len)
    ensures Keeps(s0, s, s.maps.Keys)
  {
    hide SpaceOk, SpaceStep, PageMap, Entries, PageRange;
    forall v: nat ensures v in PageRange(addr / PAGE_SIZE, n) <==> addr <= v * PAGE_SIZE < addr + len {
      RangePages(addr, n, len, v);
    }
  }

  lemma FreeBelowIs(keys: set<nat>, e: nat, len: nat, n: nat)
    requires e % PAGE_SIZE == 0 && e >= PAGE_SIZE && len > 0 && len <= n * PAGE_SIZE < len + PAGE_SIZE
    ensures FreeRun(keys, e / PAGE_SIZE - 1, n) <==> FreeBelow(keys, e, len)
  {
    var last := e / PAGE_SIZE - 1;
    assert n <= last <==> len + PAGE_SIZE <= e;
    if n <= last {
      if FreeBelow(keys, e, len) {
        forall v | v in RunEndingAt(last, n) ensures v !in keys {
          var a := if v * PAGE_SIZE < e - len then e - len else v * PAGE_SIZE;
          assert a / PAGE_SIZE == v;
        }
      }
      if FreeRun(keys, last, n) {
        forall a | e - len <= a < e ensures a / PAGE_SIZE !in keys { assert a / PAGE_SIZE in RunEndingAt(last, n); }
      }
    }
  }

  lemma RoundUpZero(len: nat)
    ensures RoundUp(len) == 0 <==> len == 0
    ensures len > 0 ==> RoundUp(len) >= PAGE_SIZE
  {
  }

  /** The address space is as it was before, except that the pages in `lost` are gone. */
  ghost predicate RolledBackBut(s0: Space, s: Space, lost: set<nat>) {
    && SpaceOk(s) && SpaceStep(s0, s)
    && s.maps == s0.maps - lost && PageMap(s.m, s.root) == Entries(s0.maps - lost, s0.thead)
    && Keeps(s0, s, s0.maps.Keys - lost)
  }

  /** Both views of the space and every byte in it are as before. */
  ghost predicate Unaltered(s0: Space, s: Space) {
    && s.maps == s0.maps && PageMap(s.m, s.root) == PageMap(s0.m, s0.root)
    && forall va: nat :: UserByte(s.m, s.maps, va) == UserByte(s0.m, s0.maps, va)
  }

  /** A failed call restores the space if and only if no page of it was in the way. */
  lemma RollbackIsCompleteIff(s0: Space, s: Space, lost: set<nat>)
    requires RolledBackBut(s0, s, lost) && SpaceOk(s0)
    ensures Unaltered(s0, s) <==> lost !! s0.maps.Keys
  {
    hide TableOk, FramesOk, SpaceStep, PageMap, BigSlots, Entries;
    if lost !! s0.maps.Keys {
      assert s0.maps - lost == s0.maps;
    } else {
      var v :| v in lost && v in s0.maps;
      assert v !in s.maps;
    }
  }

  lemma GrewKeys(s0: Space, s: Space, pages: set<nat>, flags: Flags)
    requires Grew(s0, s, ZeroPages(pages, flags))
    ensures pages <= s.maps.Keys && SpaceOk(s) && Cleared(s, pages)
  {
    hide SpaceOk, SpaceStep, ZeroFrame;
    assert ZeroPages(pages, flags).Keys == pages;
  }

  lemma ReplacedKeys(s0: Space, s: Space, pages: set<nat>, flags: Flags)
    requires Replaced(s0, s, pages, flags)
    ensures pages <= s.maps.Keys && SpaceOk(s) && Cleared(s, pages)
  {
    hide SpaceOk, SpaceStep, ZeroFrame;
  }

  lemma UndoGrew(s0: Space, s1: Space, s: Space, pages: set<nat>, flags: Flags)
    requires Grew(s0, s1, ZeroPages(pages, flags)) && Shrunk(s1, s, pages)
    ensures RolledBackBut(s0, s, {})
  {
    hide TableOk, FramesOk, SpaceStep, PageMap, BigSlots, Entries, ZeroFrame;
    assert ZeroPages(pages, flags).Keys == pages;
    SpaceStepTrans(s0, s1, s);
    StepKeepsVendor(s0, s1);
    StepKeepsVendor(s1, s);
    assert s.maps == s0.maps - {};
  }

  lemma UndoReplaced(s0: Space, s1: Space, s: Space, pages: set<nat>, flags: Flags)
    requires Replaced(s0, s1, pages, flags) && Shrunk(s1, s, pages)
    ensures RolledBackBut(s0, s, pages)
  {
    hide TableOk, FramesOk, SpaceStep, PageMap, BigSlots, Entries, ZeroFrame, Keeps;
    SpaceStepTrans(s0, s1, s);
    StepKeepsVendor(s0, s1);
    StepKeepsVendor(s1, s);
    KeptMaps(s0, s1, pages);
    assert s.maps.Keys == s0.maps.Keys - pages;
    KeepsTrans(s0, s1, s, s0.maps.Keys - pages);
  }

  lemma KeptMaps(s0: Space, s: Space, there: set<nat>)
    requires s.maps.Keys == s0.maps.Keys + there && Keeps(s0, s, s0.maps.Keys - there)
    ensures s.maps - there == s0.maps - there
  {
  }

  lemma StepKeepsVendor(s0: Space, s: Space)
    requires SpaceStep(s0, s)
    ensures s.thead == s0.thead
  {
  }

  /** The chosen run starts where the caller will see it and lies in user space. */
  lemma ChosenRun(keys: set<nat>, base: nat, brkPage: nat, n: nat, last: nat)
    requires Chosen(keys, base, brkPage, n, last) && base < 0x80000
    ensures n <= last && PageRange(last - n + 1, n) !! keys
    ensures forall v :: v in PageRange(last - n + 1, n) ==> UserPage(v)
  {
    forall v | v in PageRange(last - n + 1, n) ensures UserPage(v) { BelowKernel(v); }
  }

  lemma BelowKernel(v: nat)
    ensures v < 0x80000 ==> UserPage(v)
  {
    if v < 0x80000 { assert v / 0x40000 < 2; }
  }

  /** The pages in `there` are now fresh cleared pages; every other page stays as it was. */
  ghost predicate Replaced(s0: Space, s: Space, there: set<nat>, flags: Flags) {
    && SpaceOk(s) && SpaceStep(s0, s) && s.root == s0.root
    && s.maps.Keys == s0.maps.Keys + there
    && Keeps(s0, s, s0.maps.Keys - there)
    && forall v :: v in there ==>
         s.maps[v].flags == flags && s.maps[v].frame in s.m && s.m[s.maps[v].frame] == ZeroFrame()
  }

  lemma ReplacedNothing(s: Space, first: nat, flags: Flags)
    requires SpaceOk(s)
    ensures Replaced(s, s, PageRange(first, 0), flags)
  {
    hide TableOk, Agrees;
    PageRangeGrows(first, 0);
    KeepsAll(s);
  }

  lemma ReplacedStep(s0: Space, s1: Space, s2: Space, s: Space, there: set<nat>, vpn: nat, flags: Flags)
    requires Replaced(s0, s1, there, flags) && vpn !in there
    requires if vpn in s1.maps then Shrunk(s1, s2, {vpn}) else s2 == s1
    requires Grew(s2, s, map[vpn := PageSpec(flags, Overlay(0, []))])
    ensures Replaced(s0, s, there + {vpn}, flags)
  {
    hide SpaceOk, SpaceStep, ZeroFrame, Overlay;
    OverlayNothing();
    if vpn in s1.maps { SpaceStepTrans(s0, s1, s2); }
    SpaceStepTrans(s0, s2, s);
  }

  lemma ShrunkNothing(s: Space, first: nat)
    requires SpaceOk(s)
    ensures Shrunk(s, s, PageRange(first, 0))
  {
    hide TableOk, Agrees;
    PageRangeGrows(first, 0);
    KeepsAll(s);
  }

  lemma ShrunkTrans(s0: Space, s1: Space, s: Space, gone: set<nat>, more: set<nat>)
    requires Shrunk(s0, s1, gone) && Shrunk(s1, s, more)
    ensures Shrunk(s0, s, gone + more)
  {
    hide SpaceOk, SpaceStep;
    SpaceStepTrans(s0, s1, s);
  }

  lemma ShrunkOk(s0: Space, s: Space, gone: set<nat>)
    requires Shrunk(s0, s, gone)
    ensures SpaceOk(s) && s.maps == s0.maps - gone
  {
  }

  /** The page just below the mmap base, and the page the break rounds to. */
  function MmapLast(mmapBase: nat): (last: nat)
    requires mmapBase >= PAGE_SIZE
    ensures last * PAGE_SIZE + PAGE_SIZE == mmapBase - mmapBase % PAGE_SIZE
  {
    mmapBase / PAGE_SIZE - 1
  }

  function BrkPage(brk: nat): (page: nat)
    ensures Before(brk) <= page * PAGE_SIZE < Before(brk) + PAGE_SIZE
  {
    RoundUp(Before(brk)) / PAGE_SIZE
  }

  lemma NoRunFromZero(keys: set<nat>, last: nat, n: nat)
    ensures n > last ==> !FreeRun(keys, last, n)
  {
  }

  lemma LastPageInRun(keys: set<nat>, last: nat, n: nat)
    requires n > 0 && last in keys
    ensures !FreeRun(keys, last, n)
  {
    if n <= last { assert last in RunEndingAt(last, n); }
  }

  // ---- fork copies

  /** The pages of a space as a plan: permissions and contents. */
  function Snapshot(o: Space, pages: set<nat>): (plan: Plan)
    requires pages <= o.maps.Keys && forall v :: v in o.maps ==> o.maps[v].frame in o.m
  {
    map v | v in pages :: PageSpec(o.maps[v].flags, o.m[o.maps[v].frame])
  }

  /** s has gained copies of the pages `copied` of o0, and o0 itself is untouched and shares no frame with s. */
  ghost predicate CopiedSoFar(s0: Space, s: Space, o0: Space, copied: set<nat>) {
    && (forall v :: v in o0.maps ==> o0.maps[v].frame in o0.m) && copied <= o0.maps.Keys
    && Grew(s0, s, Snapshot(o0, copied))
    && SpaceOk(Now(o0, s)) && Keeps(o0, Now(o0, s), o0.maps.Keys)
    && Owned(s) !! Owned(o0)
  }

  lemma CopyStarts(s0: Space, o0: Space)
    requires SpaceOk(s0) && SpaceOk(o0) && Owned(s0) !! Owned(o0) && o0.m == s0.m && o0.free == s0.free
    ensures CopiedSoFar(s0, s0, o0, {})
  {
    hide TableOk, Agrees, Owned;
    GrewNothing(s0);
    KeepsAll(o0);
    assert Snapshot(o0, {}) == map[];
    assert Now(o0, s0) == o0;
  }

  lemma CopyLooks(s0: Space, s: Space, o0: Space, copied: set<nat>, vpn: nat)
    requires CopiedSoFar(s0, s, o0, copied) && vpn in o0.maps && vpn !in copied
    ensures o0.maps[vpn].frame in o0.m && o0.maps[vpn].frame in s.m
      && s.m[o0.maps[vpn].frame] == o0.m[o0.maps[vpn].frame]
    ensures UserPage(vpn) && (vpn in s.maps <==> vpn in s0.maps)
  {
    hide TableOk, Agrees, Owned, SpaceStep, UserPage;
  }

  lemma CopyStep(s0: Space, s1: Space, s: Space, o0: Space, copied: set<nat>, vpn: nat)
    requires CopiedSoFar(s0, s1, o0, copied) && vpn in o0.maps && vpn !in copied && o0.maps[vpn].frame in o0.m
    requires Grew(s1, s, map[vpn := PageSpec(o0.maps[vpn].flags, Overlay(0, o0.m[o0.maps[vpn].frame]))])
    ensures CopiedSoFar(s0, s, o0, copied + {vpn})
  {
    hide SpaceOk, Grew, Owned, SpaceStep;
    var bytes := o0.m[o0.maps[vpn].frame];
    OverlayAll(bytes);
    var one := map[vpn := PageSpec(o0.maps[vpn].flags, bytes)];
    GrewTrans(s0, s1, s, Snapshot(o0, copied), one);
    assert Snapshot(o0, copied) + one == Snapshot(o0, copied + {vpn});
    GrewSteps(s1, s, one);
    NowOwned(o0, s1);
    OtherSpaceKept(s1, s, Now(o0, s1));
  }

  lemma CopyKeepsOther(s0: Space, s: Space, o0: Space, copied: set<nat>)
    requires CopiedSoFar(s0, s, o0, copied)
    ensures SpaceOk(Now(o0, s))
  {
  }

  lemma Nonempty(todo: set<nat>)
    requires todo != {}
    ensures |todo| >= 1
  {
  }

  lemma GrewSteps(s0: Space, s: Space, plan: Plan)
    requires Grew(s0, s, plan)
    ensures SpaceStep(s0, s)
  {
  }

  lemma OverlayAll(bytes: Frame)
    ensures Overlay(0, bytes) == bytes
  {
    var f := Overlay(0, bytes);
    assert f == f[0..4096];
  }

  /** The page increase_user_stack maps; page number subtraction saturates. */
  function NextStackPage(stackTop: nat): nat { if stackTop < PAGE_SIZE then 0 else stackTop / PAGE_SIZE - 1 }

  lemma StackPageIsUser(stackTop: nat)
    requires stackTop <= USER_STACK_BASE
    ensures UserPage(NextStackPage(stackTop))
    ensures (1 > stackTop / PAGE_SIZE) <==> stackTop < PAGE_SIZE
  {
    assert NextStackPage(stackTop) < 0x80000;
    assert NextStackPage(stackTop) / 0x40000 < 2;
  }

  lemma OneZeroPage(vpn: nat, flags: Flags)
    ensures ZeroPages({vpn}, flags) == map[vpn := PageSpec(flags, Overlay(0, []))]
  {
    hide ZeroFrame, Overlay;
    OverlayNothing();
  }

  lemma ClearRoot(m: Memory, root: nat)
    requires root in m && m[root] == ZeroFrame()
    ensures !IsValid(Word(m, root, 2))
    ensures Entries(map[], true) == map[] && Entries(map[], false) == map[]
  {
    WordOfZeroFrame(m, root);
    assert m == m[root := ZeroFrame()];
  }

  /** All pages and tables of s0 went back, and one frame that was free is the root of an empty space. */
  ghost predicate Emptied(s0: Space, s: Space) {
    && SpaceOk(s) && SpaceStep(s0, s) && s.maps == map[] && Owned(s) == {s.root} && s.root in s0.free
    && s0.free - {s.root} <= s.free && |s0.free| <= |s.free| + 1
  }

  lemma FreshSpace(s0: Space, s: Space)
    requires SpaceOk(s.(free := s0.free - {s.root})) && SpaceOk(s0)
    requires s.root in s0.free && s.pages == [s.root] && s.maps == map[] && s.thead == s0.thead
    requires s.free == s0.free - {s.root} + DataFrames(s0.maps) + TableFrames(s0.pages)
    requires s.m.Keys == s0.m.Keys && forall f :: f in s.m && f != s.root ==> s.m[f] == s0.m[f]
    ensures Emptied(s0, s) && SpaceOk(s)
  {
    hide Tree, Agrees, FramesOk, DataFrames, TableFrames, SpaceStep;
    OneFrame(s.root);
    AgreesWhateverIsFree(s, s0.free - {s.root});
    NotOwned(s0, s.root);
    FreshStep(s0, s);
    SubsetSize(s0.free, s.root, s.free);
    NoFrames(s);
  }

  lemma NotOwned(s: Space, f: nat)
    requires SpaceOk(s) && f in s.free
    ensures f !in DataFrames(s.maps) && f !in TableFrames(s.pages)
  {
    hide SpaceOk, DataFrames, TableFrames;
    if f in Owned(s) { OwnedIsRam(s, f); }
  }

  lemma FreshStep(s0: Space, s: Space)
    requires s.root in s0.free && s.thead == s0.thead && Owned(s) == {s.root}
    requires s.free == s0.free - {s.root} + DataFrames(s0.maps) + TableFrames(s0.pages)
    requires s.m.Keys == s0.m.Keys && forall f :: f in s.m && f != s.root ==> s.m[f] == s0.m[f]
    ensures SpaceStep(s0, s)
  {
    hide DataFrames, TableFrames;
    assert Owned(s0) == TableFrames(s0.pages) + DataFrames(s0.maps);
  }

  lemma OwnedFrames(s: Space)
    requires SpaceOk(s)
    ensures DataFrames(s.maps) <= s.m.Keys && TableFrames(s.pages) <= s.m.Keys
  {
    hide SpaceOk, DataFrames, TableFrames;
    forall f | f in Owned(s) ensures f in s.m { OwnedIsRam(s, f); }
  }

  lemma SubsetSize(a: set<nat>, x: nat, b: set<nat>)
    requires x in a && a - {x} <= b
    ensures |a| <= |b| + 1
  {
    var rest := a - {x};
    assert b == rest + (b - rest);
    assert |b| == |rest| + |b - rest|;
  }

  lemma OneFrame(root: nat)
    ensures TableFrames([root]) == {root} && DataFrames(map[]) == {}
  {
  }

  lemma AgreesWhateverIsFree(s: Space, free: set<nat>)
    ensures Agrees(s) <==> Agrees(s.(free := free))
  {
  }

  lemma NoFrames(s: Space)
    requires s.maps == map[]
    ensures FramesOk(s)
  {
  }

  lemma NoZeroPages(flags: Flags)
    ensures ZeroPages({}, flags) == map[]
  {
  }

  // ---- the pages set_brk maps

  /** The loop runs while the page-aligned limit is below the new break. */
  function BrkCount(brk: nat, newBrk: nat): nat {
    var limit := RoundUp(Before(brk));
    if newBrk <= limit then 0 else (newBrk - limit + (PAGE_SIZE - 1)) / PAGE_SIZE
  }

  function BrkPages(brk: nat, newBrk: nat): set<nat> {
    PageRange(RoundUp(Before(brk)) / PAGE_SIZE, BrkCount(brk, newBrk))
  }

  lemma BrkPagesCount(brk: nat, newBrk: nat)
    ensures RoundUp(Before(brk)) / PAGE_SIZE * PAGE_SIZE == RoundUp(Before(brk))
    ensures BrkPages(brk, newBrk) == PageRange(RoundUp(Before(brk)) / PAGE_SIZE, BrkCount(brk, newBrk))
  {
  }

  /** A mapped page between the break and the kernel's gigabyte, such as the first page of the stack. */
  ghost predicate Blocked(keys: set<nat>, brk: nat) { exists v :: BrkPage(brk) <= v < 0x80000 && v in keys }

  lemma BrkLoopPage(keys: set<nat>, brk: nat, newBrk: nat, i: nat)
    requires newBrk > (RoundUp(Before(brk)) / PAGE_SIZE + i) * PAGE_SIZE
      && (newBrk <= USER_STACK_BASE || Blocked(keys, brk))
    requires PageRange(RoundUp(Before(brk)) / PAGE_SIZE, i) !! keys
    ensures i < BrkCount(brk, newBrk)
    ensures var first := RoundUp(Before(brk)) / PAGE_SIZE;
      ((first + i) * PAGE_SIZE + 1) / PAGE_SIZE == first + i && UserPage(first + i)
  {
    hide RoundUp;
    BrkPagesCount(brk, newBrk);
    var first := RoundUp(Before(brk)) / PAGE_SIZE;
    assert first + i < 0x80000 by {
      if newBrk > USER_STACK_BASE {
        var v :| BrkPage(brk) <= v < 0x80000 && v in keys;
        assert v !in PageRange(first, i);
      }
    }
    BelowKernel(first + i);
  }

  lemma BrkDone(brk: nat, newBrk: nat, i: nat)
    requires newBrk <= (RoundUp(Before(brk)) / PAGE_SIZE + i) * PAGE_SIZE && i <= BrkCount(brk, newBrk)
    ensures i == BrkCount(brk, newBrk) && BrkPages(brk, newBrk) == PageRange(RoundUp(Before(brk)) / PAGE_SIZE, i)
  {
    BrkPagesCount(brk, newBrk);
  }

  /** Every byte of the heap below the break is mapped. */
  ghost predicate HeapMapped(maps: Maps, minBrk: nat, brk: nat) {
    forall a :: minBrk <= a < brk ==> a / PAGE_SIZE in maps
  }

  /** Where the loop starts: one page early exactly when the break is one byte into a page. */
  lemma BrkLimit(brk: nat)
    ensures var limit := RoundUp(Before(brk));
      && limit % PAGE_SIZE == 0
      && (brk % PAGE_SIZE == 1 ==> limit == brk - 1)
      && (brk % PAGE_SIZE != 1 ==> brk <= limit < brk + PAGE_SIZE)
  {
    if brk % PAGE_SIZE == 1 {
      assert brk - 1 == brk / PAGE_SIZE * PAGE_SIZE;
    }
  }

  lemma InBrkPages(brk: nat, newBrk: nat, p: nat)
    ensures p in BrkPages(brk, newBrk) <==> RoundUp(Before(brk)) <= p * PAGE_SIZE < newBrk
  {
    hide RoundUp;
    BrkLimit(brk);
    BrkPagesCount(brk, newBrk);
    var limit := RoundUp(Before(brk));
    assert p in BrkPages(brk, newBrk) <==> limit / PAGE_SIZE <= p < limit / PAGE_SIZE + BrkCount(brk, newBrk);
  }

  /**
   * What growing the break from brk0 to brk means to the program: it can read and write every byte of a new page, which
   * is zero, and not run it; a page that is not new holds a byte below the old break and answers as before; and a new
   * page has some byte between the old break and the new one.
   */
  ghost predicate HeapGrew(s0: Space, s: Space, brk0: nat, brk: nat) {
    && (forall a :: brk0 <= a < brk ==> HeapByte(s0, s, brk0, a))
    && (forall v :: v in s.maps && v !in s0.maps ==> brk0 < v * PAGE_SIZE + PAGE_SIZE && v * PAGE_SIZE < brk)
  }

  ghost predicate HeapByte(s0: Space, s: Space, brk0: nat, a: nat) {
    if a / PAGE_SIZE in s.maps && a / PAGE_SIZE !in s0.maps
    then ReadWrite(s, a) && UserByte(s.m, s.maps, a) == Some(0)
    else a / PAGE_SIZE * PAGE_SIZE < brk0 && SameAnswers(s0, s, a)
  }

  /** The byte at a, and what a hart may do with it, are as before. */
  ghost predicate SameAnswers(s0: Space, s: Space, a: nat) {
    && UserByte(s.m, s.maps, a) == UserByte(s0.m, s0.maps, a)
    && forall q: Request :: q.thead == s.thead ==>
         HardwareTranslate(s.m, s.root, a, q) == HardwareTranslate(s0.m, s0.root, a, q)
  }

  lemma KeptByte(s0: Space, s: Space, a: nat, keep: set<nat>)
    requires SpaceOk(s0) && SpaceOk(s) && s.thead == s0.thead && Keeps(s0, s, keep) && UserPage(a / PAGE_SIZE)
    requires a / PAGE_SIZE in keep || (a / PAGE_SIZE !in s0.maps && a / PAGE_SIZE !in s.maps)
    ensures SameAnswers(s0, s, a)
  {
    hide SpaceOk, HardwareTranslate;
    forall q: Request | q.thead == s.thead
      ensures HardwareTranslate(s.m, s.root, a, q) == HardwareTranslate(s0.m, s0.root, a, q)
    {
      KeptAnswers(s0, s, a, q);
    }
  }

  /** A fresh page below the stack base can be written, and holds zeros. */
  lemma FreshByte(s0: Space, s: Space, pages: set<nat>, a: nat)
    requires Grew(s0, s, ZeroPages(pages, URW)) && a / PAGE_SIZE in pages && a < USER_STACK_BASE
    ensures ReadWrite(s, a) && UserByte(s.m, s.maps, a) == Some(0)
  {
    hide SpaceOk, SpaceStep, Keeps, ReadWrite, AsPromised;
    assert a / PAGE_SIZE in ZeroPages(pages, URW);
    MappedAsPromised(s, a);
    ReadWritePage(s, a, URW);
  }

  lemma BreakStaysLow(keys: set<nat>, brk0: nat, brk: nat)
    requires (brk <= USER_STACK_BASE || Blocked(keys, brk0)) && BrkPages(brk0, brk) !! keys
    ensures brk <= USER_STACK_BASE
  {
    hide RoundUp, BrkPages;
    BrkLimit(brk0);
    assert BrkPage(brk0) * PAGE_SIZE == RoundUp(Before(brk0));
    forall v: nat | BrkPage(brk0) <= v < 0x80000 ensures brk <= USER_STACK_BASE || v in BrkPages(brk0, brk) {
      InBrkPages(brk0, brk, v);
    }
  }

  lemma HeapGrows(s0: Space, s: Space, brk0: nat, brk: nat)
    requires SpaceOk(s0) && brk0 < brk && Grew(s0, s, ZeroPages(BrkPages(brk0, brk), URW))
    requires brk <= USER_STACK_BASE || Blocked(s0.maps.Keys, brk0)
    ensures HeapGrew(s0, s, brk0, brk)
  {
    hide SpaceOk, SpaceStep, Keeps, RoundUp, BrkPages, ReadWrite, SameAnswers;
    var pages := BrkPages(brk0, brk);
    BrkLimit(brk0);
    assert ZeroPages(pages, URW).Keys == pages;
    BreakStaysLow(s0.maps.Keys, brk0, brk);
    forall v | v in s.maps && v !in s0.maps ensures brk0 < v * PAGE_SIZE + PAGE_SIZE && v * PAGE_SIZE < brk {
      InBrkPages(brk0, brk, v);
    }
    forall a | brk0 <= a < brk ensures HeapByte(s0, s, brk0, a) {
      InBrkPages(brk0, brk, a / PAGE_SIZE);
      if a / PAGE_SIZE in pages {
        FreshByte(s0, s, pages, a);
      } else {
        StepKeepsVendor(s0, s);
        BelowKernel(a / PAGE_SIZE);
        KeptByte(s0, s, a, s0.maps.Keys);
      }
    }
  }

  /**
   * After the break grew, the program can read and write everywhere between the old break and the new one if and
   * only if it could before in the rest of the old break's page; nothing is asked of a break at the start of a page,
   * or one byte into it.
   */
  lemma HeapUsableIff(s0: Space, s: Space, brk0: nat, brk: nat)
    requires SpaceOk(s0) && brk0 < brk && Grew(s0, s, ZeroPages(BrkPages(brk0, brk), URW))
    requires brk <= USER_STACK_BASE || Blocked(s0.maps.Keys, brk0)
    ensures (forall a :: brk0 <= a < brk ==> ReadWrite(s, a)) <==>
      brk0 % PAGE_SIZE <= 1 || forall a :: brk0 <= a < brk && a / PAGE_SIZE == brk0 / PAGE_SIZE ==> ReadWrite(s0, a)
  {
    hide SpaceOk, SpaceStep, Keeps, RoundUp, BrkPages, ReadWrite, SameAnswers;
    HeapGrows(s0, s, brk0, brk);
    BrkLimit(brk0);
    StepKeepsVendor(s0, s);
    var pages := BrkPages(brk0, brk);
    assert ZeroPages(pages, URW).Keys == pages;
    forall a | brk0 <= a < brk
      ensures if brk0 % PAGE_SIZE > 1 && a / PAGE_SIZE == brk0 / PAGE_SIZE then ReadWrite(s, a) <==> ReadWrite(s0, a)
        else ReadWrite(s, a)
    {
      InBrkPages(brk0, brk, a / PAGE_SIZE);
      assert HeapByte(s0, s, brk0, a);
      if a / PAGE_SIZE !in pages { SameReadWrite(s0, s, a); }
    }
  }

  lemma SameReadWrite(s0: Space, s: Space, a: nat)
    requires SameAnswers(s0, s, a) && s.thead == s0.thead
    ensures ReadWrite(s, a) <==> ReadWrite(s0, a)
  {
    hide HardwareTranslate;
    forall access: Access, updates: bool
      ensures var q := Request(access, true, s.thead, updates);
        HardwareTranslate(s.m, s.root, a, q) == HardwareTranslate(s0.m, s0.root, a, q)
    {
      assert SameAnswers(s0, s, a);
    }
  }

  /** One page more just below the stack, which the program can read and write. */
  ghost predicate StackGrew(s0: Space, s: Space, top0: nat, top: nat) {
    && (top0 >= PAGE_SIZE ==> top <= top0 - PAGE_SIZE < top + PAGE_SIZE)
    && s.maps.Keys == s0.maps.Keys + {top / PAGE_SIZE} && top / PAGE_SIZE !in s0.maps && top % PAGE_SIZE == 0
    && forall a :: top <= a < top + PAGE_SIZE ==> ReadWrite(s, a) && UserByte(s.m, s.maps, a) == Some(0)
  }

  lemma StackGrows(s0: Space, s: Space, top0: nat)
    requires top0 <= USER_STACK_BASE && Grew(s0, s, ZeroPages({NextStackPage(top0)}, URW))
    ensures StackGrew(s0, s, top0, NextStackPage(top0) * PAGE_SIZE)
  {
    hide SpaceOk, SpaceStep, Keeps, ReadWrite;
    var page := NextStackPage(top0);
    assert ZeroPages({page}, URW).Keys == {page};
    PageAfter(0, page);
    forall a | page * PAGE_SIZE <= a < page * PAGE_SIZE + PAGE_SIZE
      ensures ReadWrite(s, a) && UserByte(s.m, s.maps, a) == Some(0)
    {
      FreshByte(s0, s, {page}, a);
    }
  }

  /** Growing the break keeps the whole heap mapped, up to the new break. */
  lemma BrkKeepsHeap(maps: Maps, maps': Maps, minBrk: nat, brk: nat, newBrk: nat)
    requires HeapMapped(maps, minBrk, brk) && minBrk <= brk < newBrk && minBrk % PAGE_SIZE == 0
    requires maps'.Keys == maps.Keys + BrkPages(brk, newBrk)
    ensures HeapMapped(maps', minBrk, newBrk)
  {
    hide RoundUp, BrkPages;
    forall a | brk <= a < newBrk ensures a / PAGE_SIZE in maps' {
      var p := a / PAGE_SIZE;
      InBrkPages(brk, newBrk, p);
      BrkLimit(brk);
      if p * PAGE_SIZE < RoundUp(Before(brk)) {
        assert p == (brk - 1) / PAGE_SIZE;
      }
    }
  }

  /**
   * A heap with nothing mapped above it can grow unless the break is one byte into a page: then the loop starts at
   * the page that already holds that byte.
   */
  lemma BrkCanGrowIff(maps: Maps, brk: nat, newBrk: nat)
    requires brk < newBrk && (brk % PAGE_SIZE == 1 ==> (brk - 1) / PAGE_SIZE in maps)
    requires forall p :: p in maps ==> p * PAGE_SIZE < brk || newBrk <= p * PAGE_SIZE
    ensures BrkPages(brk, newBrk) !! maps.Keys <==> brk % PAGE_SIZE != 1
  {
    hide RoundUp, BrkPages;
    BrkLimit(brk);
    if brk % PAGE_SIZE == 1 {
      var p := (brk - 1) / PAGE_SIZE;
      InBrkPages(brk, newBrk, p);
      assert p in BrkPages(brk, newBrk) && p in maps;
    } else {
      forall p | p in BrkPages(brk, newBrk) ensures p !in maps { InBrkPages(brk, newBrk, p); }
    }
  }

  lemma MappedFrame(s: Space, vpn: nat)
    requires SpaceOk(s) && vpn in s.maps
    ensures s.maps[vpn].frame in s.m && s.maps[vpn].frame !in s.free
  {
    hide TableOk, Agrees;
  }

  /** The pages in `gone` were given back; every other page stays as it was, and no table node is given back. */
  ghost predicate Shrunk(s0: Space, s: Space, gone: set<nat>) {
    && SpaceOk(s) && SpaceStep(s0, s) && s.root == s0.root && s.pages == s0.pages
    && gone <= s0.maps.Keys && s.maps == s0.maps - gone
    && Keeps(s0, s, s.maps.Keys)
  }

  lemma ZeroPagesGrow(first: nat, n: nat, flags: Flags)
    ensures ZeroPages(PageRange(first, 0), flags) == map[]
    ensures ZeroPages(PageRange(first, n), flags) + map[first + n := PageSpec(flags, Overlay(0, []))] ==
        ZeroPages(PageRange(first, n + 1), flags)
    ensures ZeroPages(PageRange(first, n), flags).Keys == PageRange(first, n) && first + n !in PageRange(first, n)
  {
    hide ZeroFrame, Overlay;
    PageRangeGrows(first, n);
    OverlayNothing();
  }

  lemma InPageRange(first: nat, n: nat, i: nat)
    requires i < n
    ensures first + i in PageRange(first, n)
  {
  }

  lemma FilledFrame(offset: nat, data: seq<Byte>)
    requires offset + |data| <= PAGE_SIZE
    ensures ZeroFrame()[..offset] + data + ZeroFrame()[offset + |data|..] == Overlay(offset, data)
  {
  }

  lemma GrewOk(s0: Space, s: Space, plan: Plan)
    requires Grew(s0, s, plan)
    ensures SpaceOk(s) && s.root == s0.root && s.thead == s0.thead
    ensures s.maps.Keys == s0.maps.Keys + plan.Keys && plan.Keys !! s0.maps.Keys
  {
  }
}
