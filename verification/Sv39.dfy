/** Sv39 page table entries and virtual page numbers (src/memory/paging.rs, src/memory/address.rs). */
module Sv39 {
  import opened Words
  import opened Physical

  /** Virtual page numbers are 27 bits: three 9-bit indexes. */
  const VPN_LIMIT: nat := 0x800_0000
  const HARDWARE_BASE_ADDR: nat := 0xD000_0000

  datatype Flags = Flags(v: bool, r: bool, w: bool, x: bool, u: bool, g: bool, a: bool, d: bool)

  const V_ONLY := Flags(true, false, false, false, false, false, false, false)

  function Bit(b: bool): nat { if b then 1 else 0 }

  function Pow2(n: nat): (p: nat)
    ensures p >= 1
  {
    if n == 0 then 1 else 2 * Pow2(n - 1)
  }

  /** The number whose bits, least significant first, are s. */
  function Pack(s: seq<bool>): (n: nat)
    ensures n < Pow2(|s|)
  {
    if s == [] then 0 else Bit(s[0]) + 2 * Pack(s[1..])
  }

  predicate TestBit(e: nat, k: nat) {
    if k == 0 then e % 2 == 1 else TestBit(e / 2, k - 1)
  }

  lemma {:induction false} PackedBit(s: seq<bool>, high: nat, k: nat)
    requires k < |s|
    ensures TestBit(Pack(s) + Pow2(|s|) * high, k) <==> s[k]
  {
    var e := Pack(s[1..]) + Pow2(|s| - 1) * high;
    assert Pow2(|s|) * high == 2 * (Pow2(|s| - 1) * high);
    PeelBit(s[0], e);
    if k > 0 {
      PackedBit(s[1..], high, k - 1);
    }
  }

  /** The lowest bit splits off. */
  lemma PeelBit(b: bool, rest: nat)
    ensures var e := Bit(b) + 2 * rest; e % 2 == Bit(b) && e / 2 == rest
  {
  }

  function FlagBits(f: Flags): (n: nat)
    ensures n < 256
  {
    assert Pow2(4) == 16;
    Pack(FlagList(f))
  }

  function FlagList(f: Flags): (s: seq<bool>)
    ensures |s| == 8 && s[0] == f.v && s[1] == f.r && s[2] == f.w && s[3] == f.x
    ensures s[4] == f.u && s[5] == f.g && s[6] == f.a && s[7] == f.d
  {
    [f.v, f.r, f.w, f.x, f.u, f.g, f.a, f.d]
  }

  /** Which bit of an entry means what. */
  lemma FlagBitsAre(f: Flags)
    ensures FlagBits(f) == Four(f.v, f.r, f.w, f.x) + 16 * Four(f.u, f.g, f.a, f.d)
  {
    hide Pack, Pow2, Bit, FlagList, Four;
    var t := FlagList(f);
    PackFour(t, 0);
    PackFour(t, 4);
    assert t[0..] == t;
    PackNothing(t);
  }

  function Four(a: bool, b: bool, c: bool, d: bool): nat { Bit(a) + 2 * Bit(b) + 4 * Bit(c) + 8 * Bit(d) }

  lemma PackFour(t: seq<bool>, k: nat)
    requires k + 4 <= |t|
    ensures Pack(t[k..]) == Four(t[k], t[k + 1], t[k + 2], t[k + 3]) + 16 * Pack(t[k + 4..])
  {
    hide Pack, Pow2, Bit;
    PackTwo(t, k);
    PackTwo(t, k + 2);
  }

  lemma PackTwo(t: seq<bool>, k: nat)
    requires k + 2 <= |t|
    ensures Pack(t[k..]) == Bit(t[k]) + 2 * Bit(t[k + 1]) + 4 * Pack(t[k + 2..])
  {
    assert t[k..][1..] == t[k + 1..] && t[k + 1..][1..] == t[k + 2..];
  }

  lemma PackNothing(t: seq<bool>)
    ensures Pack(t[|t|..]) == 0
  {
  }

  /** The low eight bits of an entry. */
  function FlagsOf(e: nat): Flags {
    Flags(TestBit(e, 0), TestBit(e, 1), TestBit(e, 2), TestBit(e, 3), TestBit(e, 4), TestBit(e, 5), TestBit(e, 6),
        TestBit(e, 7))
  }

  predicate IsValid(e: nat) { e % 2 == 1 }

  /** A valid entry whose R, W and X bits are clear points to the next table: the low four bits read 0001. */
  predicate IsPointer(e: nat) { e % 16 == 1 }

  lemma PointerFlags(e: nat)
    ensures IsPointer(e) <==> FlagsOf(e).v && !FlagsOf(e).r && !FlagsOf(e).w && !FlagsOf(e).x
    ensures IsValid(e) <==> FlagsOf(e).v
  {
    hide TestBit;
    LowBits(e);
    LowFour(e);
  }

  lemma LowBits(e: nat)
    ensures TestBit(e, 0) == (e % 2 == 1) && TestBit(e, 1) == (e / 2 % 2 == 1)
    ensures TestBit(e, 2) == (e / 2 / 2 % 2 == 1) && TestBit(e, 3) == (e / 2 / 2 / 2 % 2 == 1)
  {
    assert TestBit(e, 1) == TestBit(e / 2, 0);
    assert TestBit(e, 2) == TestBit(e / 2, 1) == TestBit(e / 2 / 2, 0);
    assert TestBit(e, 3) == TestBit(e / 2, 2) == TestBit(e / 2 / 2, 1) == TestBit(e / 2 / 2 / 2, 0);
  }

  lemma LowFour(e: nat)
    ensures e % 16 == 1 <==> e % 2 == 1 && e / 2 % 2 == 0 && e / 2 / 2 % 2 == 0 && e / 2 / 2 / 2 % 2 == 0
  {
    var q, r := e / 16, e % 16;
    assert e == 16 * q + r;
    assert e / 2 == 8 * q + r / 2 && e / 2 / 2 == 4 * q + r / 2 / 2 && e / 2 / 2 / 2 == 2 * q + r / 2 / 2 / 2;
  }

  /** 44-bit physical page number of an entry. */
  function PageOf(e: nat): (page: nat)
    ensures page < PPN_LIMIT
  {
    e / 1024 % PPN_LIMIT
  }

  /** `page << 10 | flags` in 64 bits. */
  function NewEntry(page: nat, f: Flags): (e: nat)
    ensures e < SPAN64
  {
    page * 1024 % SPAN64 + FlagBits(f)
  }

  /** Bits 54 to 60, which the privileged architecture reserves. */
  function ReservedBits(e: nat): nat { e / 0x40_0000_0000_0000 % 128 }

  /** Bits 61 to 63 as a number: bufferable, cacheable, strong order. */
  function AttributeBits(e: nat): nat { e / 0x2000_0000_0000_0000 }

  lemma EntryDecodes(page: nat, f: Flags)
    requires page < PPN_LIMIT
    ensures NewEntry(page, f) == 1024 * page + FlagBits(f)
    ensures PageOf(NewEntry(page, f)) == page
    ensures FlagsOf(NewEntry(page, f)) == f
    ensures ReservedBits(NewEntry(page, f)) == 0
  {
    hide FlagsOf, FlagBits, PageOf, ReservedBits;
    FieldsOf(page, FlagBits(f), 0);
    FlagsRoundTrip(f, 4 * page);
  }

  /** An entry split at bit 10 and at bit 61. */
  lemma FieldsOf(page: nat, low: nat, c: nat)
    requires page < PPN_LIMIT && low < 256
    ensures var e := 1024 * page + low + 0x2000_0000_0000_0000 * c;
      && PageOf(e) == page
      && ReservedBits(e) == 0
  {
    var e := 1024 * page + low + 0x2000_0000_0000_0000 * c;
    var e' := 1024 * page + low;
    assert e / 1024 == page + 0x8_0000_0000_0000 * c;
    assert 0x8_0000_0000_0000 == 128 * PPN_LIMIT;
    ModMultiple(page, 128 * c);
    assert e / 0x40_0000_0000_0000 == 128 * c;
  }

  lemma ModMultiple(x: nat, n: nat)
    requires x < PPN_LIMIT
    ensures (x + PPN_LIMIT * n) % PPN_LIMIT == x
  {
  }

  /** Flag bits below a multiple of 256 read back unchanged. */
  lemma FlagsRoundTrip(f: Flags, high: nat)
    ensures FlagsOf(256 * high + FlagBits(f)) == f
  {
    hide FlagList;
    var s := FlagList(f);
    assert Pow2(4) == 16;
    PackedBit(s, high, 0); PackedBit(s, high, 1); PackedBit(s, high, 2); PackedBit(s, high, 3);
    PackedBit(s, high, 4); PackedBit(s, high, 5); PackedBit(s, high, 6); PackedBit(s, high, 7);
  }

  /** Accessed follows readable, dirty follows writable, and the entry is made valid. */
  function PrepareFlags(f: Flags): Flags {
    f.(v := true, a := f.a || f.r, d := f.d || f.w)
  }

  /** The page attribute bits that a T-Head C906 wants: strong order for devices, cacheable and bufferable otherwise. */
  function VendorBits(va: nat, thead: bool): nat {
    if !thead then 0
    else if va >= HARDWARE_BASE_ADDR then 0x8000_0000_0000_0000
    else 0x4000_0000_0000_0000 + 0x2000_0000_0000_0000
  }

  /** The entry set_pte leaves behind. The vendor bits lie above every bit NewEntry uses, so `|=` adds them. */
  function LeafEntry(va: nat, pa: nat, f: Flags, thead: bool): (e: nat) {
    NewEntry(pa / PAGE_SIZE, PrepareFlags(f)) + VendorBits(va, thead)
  }

  /** Whatever the vendor, the entry decodes to the physical page and the prepared flags. */
  lemma LeafEntryDecodes(va: nat, pa: nat, f: Flags, thead: bool)
    requires pa / PAGE_SIZE < PPN_LIMIT
    ensures var e := LeafEntry(va, pa, f, thead);
      && e < SPAN64 && IsValid(e)
      && PageOf(e) == pa / PAGE_SIZE
      && FlagsOf(e) == PrepareFlags(f)
      && ReservedBits(e) == 0
    ensures AttributeBits(LeafEntry(va, pa, f, thead)) == if !thead then 0 else if va >= 0xD000_0000 then 4 else 3
  {
    var page := pa / PAGE_SIZE;
    var p := PrepareFlags(f);
    var c := VendorBits(va, thead) / 0x2000_0000_0000_0000;
    EntryDecodes(page, p);
    FieldsOf(page, FlagBits(p), c);
    FlagsRoundTrip(p, 4 * page + 0x20_0000_0000_0000 * c);
    assert LeafEntry(va, pa, f, thead) == 1024 * page + FlagBits(p) + 0x2000_0000_0000_0000 * c;
  }

  // The three indexes of a page number, from the root down.
  function Idx0(vpn: nat): (i: nat) ensures i < 512 { vpn / 0x40000 % 512 }
  function Idx1(vpn: nat): (i: nat) ensures i < 512 { vpn / 512 % 512 }
  function Idx2(vpn: nat): (i: nat) ensures i < 512 { vpn % 512 }

  lemma IndexesIdentifyPage(a: nat, b: nat)
    requires a < VPN_LIMIT && b < VPN_LIMIT
    requires Idx0(a) == Idx0(b) && Idx1(a) == Idx1(b) && Idx2(a) == Idx2(b)
    ensures a == b
  {
    assert a / 0x40000 == a / 512 / 512 && b / 0x40000 == b / 512 / 512;
    assert a == 512 * (a / 512) + a % 512 && b == 512 * (b / 512) + b % 512;
    assert a / 512 == 512 * (a / 0x40000) + Idx1(a) && b / 512 == 512 * (b / 0x40000) + Idx1(b);
  }

  /** VirtPageId::get_pte_indexes: peel nine bits at a time, last level first. */
  method GetPteIndexes(vpn: nat) returns (idx: seq<nat>)
    ensures idx == [Idx0(vpn), Idx1(vpn), Idx2(vpn)]
  {
    var rest := vpn;
    idx := [0, 0, 0];
    var i := 3;
    while i > 0
      invariant 0 <= i <= 3 && |idx| == 3
      invariant rest ==
          (if i == 3 then vpn else if i == 2 then vpn / 512 else if i == 1 then vpn / 512 / 512
              else vpn / 512 / 512 / 512)
      invariant i <= 2 ==> idx[2] == Idx2(vpn)
      invariant i <= 1 ==> idx[1] == Idx1(vpn)
      invariant i <= 0 ==> idx[0] == Idx0(vpn)
    {
      i := i - 1;
      assert vpn / 0x40000 == vpn / 512 / 512;
      idx := idx[i := rest % 512];
      rest := rest / 512;
    }
  }
}
