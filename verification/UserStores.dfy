/** The stores of a program stay inside its own pages. */
module UserStores {
  import opened Basics
  import opened Words
  import opened Physical
  import opened Sv39
  import opened PageTables
  import opened HardwareWalk
  import opened AddressSpaces
  import opened UserAccess

  /** A store of one byte, on a hart that makes either choice about accessed and dirty bits. */
  datatype Write = Write(va: nat, b: Byte, updates: bool)

  /** A store in user mode: a fault changes nothing. */
  function Store(s: Space, w: Write): (s': Space) {
    match HardwareTranslate(s.m, s.root, w.va, Request(Access.Store, true, s.thead, w.updates))
    case None => s
    case Some(pa) => if pa / PAGE_SIZE in s.m then s.(m := StoreByte(s.m, pa, w.b)) else s
  }

  /** What a program stores where it may store is what it finds there, and no other byte of its pages changes. */
  lemma StoreIsSeen(s: Space, w: Write, va: nat)
    requires SpaceOk(s) && UserMay(s, w.va, Access.Store) && w.va < 0x40_0000_0000 && UserPage(w.va / PAGE_SIZE)
    ensures UserByte(Store(s, w).m, s.maps, va) == if va == w.va then Some(w.b) else UserByte(s.m, s.maps, va)
  {
    hide TableOk, Agrees, HardwareTranslate, Reaches, Key;
    var q := Request(Access.Store, true, s.thead, w.updates);
    KeySmall(w.va / PAGE_SIZE);
    HardwareSeesMaps(s, w.va, q);
    assert HardwareTranslate(s.m, s.root, w.va, q).Some?;
    AddressSplits(s.maps[w.va / PAGE_SIZE].frame, w.va % PAGE_SIZE);
  }

  function Stores(s: Space, ws: seq<Write>): (s': Space)
    decreases |ws|
  {
    if ws == [] then s else Stores(Store(s, ws[0]), ws[1..])
  }

  /** The address a user store reaches lies in one of the process's own pages, in either half of the address space. */
  lemma StoreTarget(s: Space, va: nat, updates: bool)
    requires SpaceOk(s)
    ensures match HardwareTranslate(s.m, s.root, va, Request(Access.Store, true, s.thead, updates))
      case None => true
      case Some(pa) => pa / PAGE_SIZE in DataFrames(s.maps) && pa / PAGE_SIZE in s.m && pa / PAGE_SIZE !in s.pages
  {
    hide TableOk, Agrees, HardwareTranslate, DataFrames, Key;
    var v, q := Key(va / PAGE_SIZE), Request(Access.Store, true, s.thead, updates);
    if UserPage(v) {
      HardwareSeesMaps(s, va, q);
      if v in s.maps {
        InData(s.maps, v);
        AddressSplits(s.maps[v].frame, va % PAGE_SIZE);
      }
    } else if Canonical(va) {
      KernelGigabyte(va);
      KernelAlwaysMapped(s, va, q);
    } else {
      NotCanonical(s, va, q);
    }
  }

  lemma NotCanonical(s: Space, va: nat, q: Request)
    requires !Canonical(va)
    ensures HardwareTranslate(s.m, s.root, va, q) == None
  {
  }

  lemma KernelGigabyte(va: nat)
    requires Canonical(va) && !UserPage(Key(va / PAGE_SIZE))
    ensures 0x8000_0000 <= va < 0xC000_0000
  {
    var vpn := Key(va / PAGE_SIZE);
    assert vpn / 0x40000 < 512;
    assert vpn / 0x40000 == 2;
    if va >= 0x40_0000_0000 {
      assert va / PAGE_SIZE >= 0xF_FFFF_FC00_0000;
      assert va / PAGE_SIZE < 0x10_0000_0000_0000;
      UpperHalf(va / PAGE_SIZE);
    } else {
      KeySmall(va / PAGE_SIZE);
    }
  }

  /** The page numbers of the upper half keep their bit 26. */
  lemma UpperHalf(vpn: nat)
    requires 0xF_FFFF_FC00_0000 <= vpn < 0x10_0000_0000_0000
    ensures Key(vpn) >= 0x400_0000
  {
    assert 0xF_FFFF_F800_0000 == VPN_LIMIT * 0x1FF_FFFF;
    assert vpn - 0xF_FFFF_F800_0000 < VPN_LIMIT;
    assert vpn / VPN_LIMIT == 0x1FF_FFFF;
  }

  lemma StoreSteps(s: Space, w: Write)
    requires SpaceOk(s)
    ensures SpaceOk(Store(s, w)) && SpaceStep(s, Store(s, w)) && Store(s, w) == s.(m := Store(s, w).m)
  {
    hide TableOk, Agrees, HardwareTranslate, SpaceStep, Owned;
    StoreTarget(s, w.va, w.updates);
    KeepsAll(s);
    match HardwareTranslate(s.m, s.root, w.va, Request(Access.Store, true, s.thead, w.updates))
    case None =>
    case Some(pa) =>
      var f := pa / PAGE_SIZE;
      var v :| v in s.maps && s.maps[v].frame == f;
      OwnWrite(s, v, s.m[f][pa % PAGE_SIZE := w.b]);
  }

  /**
   * Isolation: whatever sequence of stores one process makes through its table, both spaces stay good and every byte
   * that another process sees stays the same.
   */
  lemma {:induction false} StoresAreIsolated(s: Space, ws: seq<Write>, other: Space)
    requires SpaceOk(s) && SpaceOk(other) && other.m == s.m && other.free == s.free && Owned(other) !! Owned(s)
    ensures var m' := Stores(s, ws).m;
      && SpaceOk(Stores(s, ws)) && SpaceOk(other.(m := m'))
      && forall va :: UserByte(m', other.maps, va) == UserByte(other.m, other.maps, va)
    decreases |ws|
  {
    hide SpaceOk, SpaceStep, Owned, Store, Keeps;
    if ws != [] {
      var s1 := Store(s, ws[0]);
      StoreSteps(s, ws[0]);
      OtherSpaceKept(s, s1, other);
      var other1 := other.(m := s1.m, free := s1.free);
      NowOwned(other, s1);
      KeepsBytes(other, other1);
      StoresAreIsolated(s1, ws[1..], other1);
    }
  }

  lemma KeepsBytes(s0: Space, s: Space)
    requires Keeps(s0, s, s0.maps.Keys) && s.maps == s0.maps
    ensures forall va :: UserByte(s.m, s.maps, va) == UserByte(s0.m, s0.maps, va)
  {
  }

  /** A forked child sees every byte its parent sees. */
  lemma ForkedBytes(parent: Space, child: Space, va: nat)
    requires SamePages(parent, child)
    ensures UserByte(child.m, child.maps, va) == UserByte(parent.m, parent.maps, va)
  {
  }
}
