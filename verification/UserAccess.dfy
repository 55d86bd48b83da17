/** What the hardware lets a program do at the addresses of its address space. */
module UserAccess {
  import opened Basics
  import opened Physical
  import opened Sv39
  import opened PageTrees
  import opened PageTables
  import opened HardwareWalk
  import opened AddressSpaces

  /** In a good space, pages outside the kernel's gigabyte can be mapped, and the table maps what `maps` records. */
  lemma SpaceMappable(s: Space, vpn: nat)
    requires SpaceOk(s)
    ensures UserPage(vpn) ==> Mappable(s.m, s.root, vpn)
    ensures vpn in PageMap(s.m, s.root) <==> vpn in s.maps
    ensures TableOk(s.m, s.free, s.root, s.pages)
    ensures vpn in s.maps ==> UserPage(vpn)
  {
    hide TableOk, PageMap, BigSlots, EntryFor;
  }

  /**
   * In every good space the hart reaches exactly the pages `maps` records, at the recorded frame, as the flags allow.
   * Page numbers from 2^26 on are reached at the sign-extended addresses of the upper half.
   */
  lemma HardwareSeesMaps(s: Space, va: nat, q: Request)
    requires SpaceOk(s) && q.thead == s.thead && UserPage(Key(va / PAGE_SIZE))
    ensures HardwareTranslate(s.m, s.root, va, q) ==
      var v := Key(va / PAGE_SIZE);
      if Canonical(va) && v in s.maps && Reaches(s.maps[v].flags, q)
      then Some(AddressOf(s.maps[v].frame, va % PAGE_SIZE)) else None
  {
    hide Tree, PageMap, BigSlots, LeafEntry, Mappable, HardwareTranslate, UserPage, Reaches, AddressOf, PageOf, Key,
         Low39, Canonical;
    var v := Key(va / PAGE_SIZE);
    Low39Page(va);
    SpaceMappable(s, v);
    if v in s.maps {
      var p := s.maps[v];
      PageAfter(0, p.frame);
      AddressSplits(p.frame, 0);
      HardwareAgrees(s.m, s.root, s.pages, va, q, v * PAGE_SIZE, AddressOf(p.frame, 0), p.flags);
      EntryForDecodes(v, p, s.thead);
    } else {
      HardwareAgrees(s.m, s.root, s.pages, va, q, 0, 0, V_ONLY);
    }
  }

  /** Every process table keeps the kernel's gigabyte identity mapped for the supervisor and closed to the user. */
  lemma KernelAlwaysMapped(s: Space, va: nat, q: Request)
    requires SpaceOk(s) && q.thead == s.thead && 0x8000_0000 <= va < 0xC000_0000
    ensures HardwareTranslate(s.m, s.root, va, q) == if q.user then None else Some(va)
  {
    hide TableOk, FramesOk, PageMap, BigSlots, KernelEntry, HardwareTranslate;
    KernelIdentity(s.m, s.root, va, q);
  }

  /** An access in user mode succeeds, whatever the hart does about accessed and dirty bits. */
  ghost predicate UserMay(s: Space, va: nat, access: Access) {
    forall updates: bool :: HardwareTranslate(s.m, s.root, va, Request(access, true, s.thead, updates)).Some?
  }

  ghost predicate UserMayNot(s: Space, va: nat, access: Access) {
    forall updates: bool :: HardwareTranslate(s.m, s.root, va, Request(access, true, s.thead, updates)).None?
  }

  /** A program can read and write here, and cannot run what is here. */
  ghost predicate ReadWrite(s: Space, va: nat) {
    UserMay(s, va, Load) && UserMay(s, va, Access.Store) && UserMayNot(s, va, Fetch)
  }

  /** An access in user mode succeeds exactly if the address is canonical and these permissions promise it. */
  ghost predicate AsPromised(s: Space, va: nat, f: Flags) {
    forall q: Request :: q.user && q.thead == s.thead ==>
      (HardwareTranslate(s.m, s.root, va, q).Some? <==> Canonical(va) && Reaches(f, q))
  }

  lemma MappedAsPromised(s: Space, va: nat)
    requires SpaceOk(s) && va / PAGE_SIZE in s.maps
    ensures AsPromised(s, va, s.maps[va / PAGE_SIZE].flags)
  {
    hide TableOk, Agrees, HardwareTranslate, Reaches, Canonical;
    KeySmall(va / PAGE_SIZE);
    forall q: Request | q.user && q.thead == s.thead
      ensures HardwareTranslate(s.m, s.root, va, q).Some? <==> Canonical(va) && Reaches(s.maps[va / PAGE_SIZE].flags, q)
    {
      HardwareSeesMaps(s, va, q);
    }
  }

  /** What the permissions of a readable page mean to a program; a page without U is closed to it. */
  lemma PermissionsMean(s: Space, va: nat, f: Flags)
    requires AsPromised(s, va, f) && va < 0x40_0000_0000
    ensures f.u && f.r ==> UserMay(s, va, Load)
    ensures f.u && f.r && f.w ==> UserMay(s, va, Access.Store)
    ensures f.u && f.r && f.x ==> UserMay(s, va, Fetch)
    ensures !f.u || !f.r ==> UserMayNot(s, va, Load)
    ensures !f.u || !f.w ==> UserMayNot(s, va, Access.Store)
    ensures !f.u || !f.x ==> UserMayNot(s, va, Fetch)
  {
    hide HardwareTranslate;
    forall access: Access, updates: bool
      ensures var q := Request(access, true, s.thead, updates);
        HardwareTranslate(s.m, s.root, va, q).Some? <==> Reaches(f, q)
    {
      assert AsPromised(s, va, f);
    }
  }

  lemma ReadWritePage(s: Space, va: nat, f: Flags)
    requires AsPromised(s, va, f) && va < 0x40_0000_0000 && f.u && f.r && f.w && !f.x
    ensures ReadWrite(s, va)
  {
    hide HardwareTranslate;
    forall access: Access, updates: bool
      ensures HardwareTranslate(s.m, s.root, va, Request(access, true, s.thead, updates)).Some? <==> !access.Fetch?
    {
      var q := Request(access, true, s.thead, updates);
      assert HardwareTranslate(s.m, s.root, va, q).Some? <==> Canonical(va) && Reaches(f, q);
    }
  }

  /** A page that stayed as it was gives every program the same answer. */
  lemma KeptAnswers(s0: Space, s: Space, va: nat, q: Request)
    requires SpaceOk(s0) && SpaceOk(s) && q.thead == s.thead == s0.thead
    requires UserPage(va / PAGE_SIZE) && (va / PAGE_SIZE in s.maps <==> va / PAGE_SIZE in s0.maps)
    requires va / PAGE_SIZE in s.maps ==> s.maps[va / PAGE_SIZE] == s0.maps[va / PAGE_SIZE]
    ensures HardwareTranslate(s.m, s.root, va, q) == HardwareTranslate(s0.m, s0.root, va, q)
  {
    hide TableOk, Agrees, HardwareTranslate, Reaches, Canonical;
    KeySmall(va / PAGE_SIZE);
    HardwareSeesMaps(s, va, q);
    HardwareSeesMaps(s0, va, q);
  }
}
