/** Physical memory as frames of raw bytes, and the global frame allocator. */
module Physical {
  import opened Basics
  import opened Words

  const PAGE_SIZE: nat := 4096
  /** Physical page numbers that a page table entry can name: 44 bits. */
  const PPN_LIMIT: nat := 0x1000_0000_0000

  type Frame = s: seq<Byte> | |s| == 4096 witness seq(4096, _ => 0)
  type Memory = map<nat, Frame>

  function ZeroFrame(): (f: Frame)
    ensures forall i :: 0 <= i < 4096 ==> f[i] == 0
  {
    Zeros(4096)
  }

  /** The 64-bit word at index k of frame f (one page table entry); memory outside RAM reads as zero. */
  function Word(m: Memory, f: nat, k: nat): (e: nat)
  {
    if f in m && k < 512 then FromBytes(m[f][8 * k..8 * k + 8]) else 0
  }

  /** The address of a byte in a page. */
  function AddressOf(page: nat, offset: nat): nat { page * PAGE_SIZE + offset }

  /** Memory after a 64-bit store to index k of frame f. */
  function StoreWord(m: Memory, f: nat, k: nat, e: nat): (m': Memory)
    requires f in m && k < 512
  {
    m[f := m[f][..8 * k] + ToBytes(e, 8) + m[f][8 * k + 8..]]
  }

  /** A store changes exactly the word it names. */
  lemma WordAfterStore(m: Memory, f: nat, k: nat, e: nat)
    requires f in m && k < 512 && e < SPAN64
    ensures StoreWord(m, f, k, e).Keys == m.Keys
    ensures forall g :: g in m && g != f ==> StoreWord(m, f, k, e)[g] == m[g]
    ensures forall g, j {:trigger Word(StoreWord(m, f, k, e), g, j)} ::
              Word(StoreWord(m, f, k, e), g, j) == if g == f && j == k then e else Word(m, g, j)
  {
    var m' := StoreWord(m, f, k, e);
    forall g, j ensures Word(m', g, j) == if g == f && j == k then e else Word(m, g, j) {
      if g == f && 0 <= j < 512 {
        if j == k {
          assert m'[f][8 * k..8 * k + 8] == ToBytes(e, 8);
          Span8();
          LoadAfterStore(e, 8);
        } else {
          assert m'[f][8 * j..8 * j + 8] == m[f][8 * j..8 * j + 8];
        }
      }
    }
  }

  /** A freshly cleared frame holds only empty entries. */
  lemma WordOfZeroFrame(m: Memory, f: nat)
    ensures forall j {:trigger Word(m[f := ZeroFrame()], f, j)} :: Word(m[f := ZeroFrame()], f, j) == 0
    ensures forall g, j {:trigger Word(m[f := ZeroFrame()], g, j)} :: g != f ==>
      Word(m[f := ZeroFrame()], g, j) == Word(m, g, j)
  {
    var m' := m[f := ZeroFrame()];
    forall j | 0 <= j < 512 ensures Word(m', f, j) == 0 {
      ZerosLoadZero(ZeroFrame()[8 * j..8 * j + 8]);
    }
  }

  /** The byte at a physical address. */
  function ByteAt(m: Memory, pa: nat): (b: Byte)
    requires pa / PAGE_SIZE in m
  {
    m[pa / PAGE_SIZE][pa % PAGE_SIZE]
  }

  function StoreByte(m: Memory, pa: nat, b: Byte): (m': Memory)
    requires pa / PAGE_SIZE in m
  {
    m[pa / PAGE_SIZE := m[pa / PAGE_SIZE][pa % PAGE_SIZE := b]]
  }

  lemma ByteAfterStore(m: Memory, pa: nat, b: Byte, other: nat)
    requires pa / PAGE_SIZE in m && other / PAGE_SIZE in m
    ensures ByteAt(StoreByte(m, pa, b), other) == if other == pa then b else ByteAt(m, other)
  {
    if other / PAGE_SIZE == pa / PAGE_SIZE && other % PAGE_SIZE == pa % PAGE_SIZE {
      assert other == pa;
    }
  }

  /** A cleared frame with data copied in at an offset. */
  function Overlay(offset: nat, data: seq<Byte>): (f: Frame)
    requires offset + |data| <= PAGE_SIZE
    ensures f[offset..offset + |data|] == data
    ensures forall i :: 0 <= i < offset || offset + |data| <= i < PAGE_SIZE ==> f[i] == 0
  {
    Zeros(offset) + data + Zeros(PAGE_SIZE - offset - |data|)
  }

  lemma OverlayNothing()
    ensures Overlay(0, []) == ZeroFrame()
  {
  }

  predicate Within(w: nat, first: nat, n: nat) { first <= w < first + n }

  /** The n pages from `first` on. */
  function PageRange(first: nat, n: nat): (s: set<nat>) { set w: nat | first <= w < first + n && Within(w, first, n) }

  lemma PageRangeGrows(first: nat, n: nat)
    ensures PageRange(first, 0) == {}
    ensures PageRange(first, n + 1) == PageRange(first, n) + {first + n}
    ensures first + n !in PageRange(first, n)
  {
  }

  lemma {:induction false} PageRangeSize(first: nat, n: nat)
    ensures |PageRange(first, n)| == n
  {
    PageRangeGrows(first, if n == 0 then 0 else n - 1);
    if n > 0 { PageRangeSize(first, n - 1); }
  }

  /** Frames of a process's kernel stack. */
  const KERNEL_STACK_PAGES: nat := 512

  /** The frames of the kernel stack that starts at frame `first`. */
  function StackFrames(first: nat): (s: set<nat>)
    ensures forall f :: f in s <==> first <= f < first + KERNEL_STACK_PAGES
  {
    PageRange(first, KERNEL_STACK_PAGES)
  }

  /**
   * A kernel stack the buddy allocator can hand out: all its frames are free, and it starts at a multiple of its
   * length.
   */
  predicate FreeStack(free: set<nat>, first: nat) { first % KERNEL_STACK_PAGES == 0 && StackFrames(first) <= free }

  /** The machine: raw memory, the frames the allocator may hand out, and the vendor that set_pte asks about. */
  class Machine {
    var mem: Memory
    var free: set<nat>
    const thead: bool

    ghost predicate Valid()
      reads this
    {
      && free <= mem.Keys
      && forall f :: f in mem ==> f < PPN_LIMIT
    }

    /** PhyPage::alloc: any free frame, cleared. */
    method Alloc() returns (r: Outcome<nat>)
      requires Valid()
      modifies this
      ensures Valid()
      ensures old(free) == {} ==> r == Panicked(OutOfFrames)
      ensures old(free) != {} ==>
        && r.Done? && r.value in old(free)
        && free == old(free) - {r.value}
        && mem == old(mem)[r.value := ZeroFrame()]
    {
      if free == {} {
        return Panicked(OutOfFrames);
      }
      var f :| f in free;
      free := free - {f};
      mem := mem[f := ZeroFrame()];
      r := Done(f);
    }

    /** PhyPage::alloc_many, as Process::new calls it for the kernel stack: the frames are not cleared. */
    method AllocStack() returns (r: Outcome<nat>)
      requires Valid()
      modifies this`free
      ensures Valid()
      ensures r.Panicked? ==> r.why == OutOfFrames && free == old(free) && forall first :: !FreeStack(old(free), first)
      ensures r.Done? ==> FreeStack(old(free), r.value) && free == old(free) - StackFrames(r.value)
    {
      var starts := set f | f in free && FreeStack(free, f);
      if starts == {} {
        forall first ensures !FreeStack(free, first) {
          assert first in StackFrames(first) && first !in starts;
        }
        return Panicked(OutOfFrames);
      }
      var first :| first in starts;
      free := free - StackFrames(first);
      r := Done(first);
    }

    /** PhyPage::copy_u8, within the frame. */
    method CopyBytes(f: nat, offset: nat, data: seq<Byte>)
      requires Valid() && f in mem && offset + |data| <= PAGE_SIZE
      modifies this`mem
      ensures Valid()
      ensures mem == old(mem)[f := old(mem)[f][..offset] + data + old(mem)[f][offset + |data|..]]
    {
      mem := mem[f := mem[f][..offset] + data + mem[f][offset + |data|..]];
    }

    /** Drop of a collection of pages. */
    method DeallocAll(fs: set<nat>)
      requires Valid() && fs <= mem.Keys
      modifies this`free
      ensures Valid() && free == old(free) + fs
    {
      free := free + fs;
    }

    /** Drop for PhyPage. */
    method Dealloc(f: nat)
      requires Valid() && f in mem && f !in free
      modifies this`free
      ensures Valid() && free == old(free) + {f}
    {
      free := free + {f};
    }
  }
}
