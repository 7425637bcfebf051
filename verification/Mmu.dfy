/** Two-level 32-bit translation, and the accesses the kernel makes through its own mappings. */
module Mmu {
  import opened Words
  import opened Pmm

  const PAGE_PRESENT: word := 1
  const PAGE_RW: word := 2
  const PAGE_USER: word := 4

  const PAGE_DIR_VIRT: word := 0xffff_f000
  const RECURSIVE_BASE: word := 0xffc0_0000
  const RECURSIVE_SLOT: nat := 1023

  /** Slots below this belong to processes; the rest map the kernel. */
  const USER_SLOTS: nat := 768

  /** Slots 0..1019 hold page tables; 1020..1022 are temporary windows. */
  const TABLE_SLOTS: nat := 1020

  type Memory = m: seq<Page> | |m| == FRAME_LIMIT witness seq<Page>(FRAME_LIMIT, _ => ZeroPage())

  /** Physical memory, the free frames, and how many frames there are. */
  datatype PhysState = State(mem: Memory, free: set<nat>, total: nat)

  function WriteWord(m: Memory, f: nat, i: nat, w: word): Memory
    requires f < FRAME_LIMIT && i < WORDS_PER_PAGE
  {
    m[f := m[f][i := w]]
  }

  function WritePage(m: Memory, f: nat, p: Page): Memory
    requires f < FRAME_LIMIT
  {
    m[f := p]
  }

  predicate Present(entry: word) {
    entry % 2 == 1
  }

  function Frame(entry: word): (f: nat)
    ensures f < FRAME_LIMIT
  {
    entry / PAGE_SIZE
  }

  lemma FrameAddress(f: nat)
    requires f < FRAME_LIMIT
    ensures Frame(f * PAGE_SIZE) == f && f * PAGE_SIZE % PAGE_SIZE == 0
  {
  }

  lemma FrameOfBase(w: word)
    ensures Frame(PageBase(w)) == Frame(w) && PageBase(w) % PAGE_SIZE == 0
  {
  }

  /** The page-table entry that translates a virtual page, or 0 when its table is absent. */
  function Pte(m: Memory, pd: nat, page: nat): word
    requires pd < FRAME_LIMIT && page < FRAME_LIMIT
  {
    var pde := m[pd][page / 1024];
    if Present(pde) then m[Frame(pde)][page % 1024] else 0
  }

  predicate Mapped(m: Memory, pd: nat, a: word)
    requires pd < FRAME_LIMIT
  {
    Present(Pte(m, pd, a / PAGE_SIZE))
  }

  /** The byte a program running on directory `pd` reads at address `a`. */
  function ReadByte(m: Memory, pd: nat, a: word): byte
    requires pd < FRAME_LIMIT && Mapped(m, pd, a)
  {
    PageByte(m[Frame(Pte(m, pd, a / PAGE_SIZE))], a % PAGE_SIZE)
  }

  /** A directory that maps itself in its last slot shows table `slot` at one fixed page. */
  predicate SelfMapped(m: Memory, pd: nat) {
    pd < FRAME_LIMIT && Present(m[pd][RECURSIVE_SLOT]) && Frame(m[pd][RECURSIVE_SLOT]) == pd
  }

  /** Where word `i` of the page behind directory slot `slot` appears. */
  function WindowAddress(slot: nat, i: nat): word
    requires slot < 1024 && i < 1024
  {
    RECURSIVE_BASE + slot * PAGE_SIZE + 4 * i
  }

  /** The recursive slot makes every directory entry translate one page of the top 4 MiB. */
  lemma RecursiveWindow(m: Memory, pd: nat, slot: nat, i: nat)
    requires SelfMapped(m, pd) && slot < 1024 && i < 1024
    ensures Pte(m, pd, WindowAddress(slot, i) / PAGE_SIZE) == m[pd][slot]
    ensures WindowAddress(slot, i) % PAGE_SIZE == 4 * i
    ensures WindowAddress(RECURSIVE_SLOT, i) == PAGE_DIR_VIRT + 4 * i
  {
  }

  class Machine {
    var mem: Memory
    var cr3: nat
    const frames: FrameAllocator

    constructor (mem: Memory, cr3: nat, frames: FrameAllocator)
      ensures this.mem == mem && this.cr3 == cr3 && this.frames == frames
    {
      this.mem, this.cr3, this.frames := mem, cr3, frames;
    }

    ghost function Phys(): PhysState
      requires frames.Valid()
      reads this, frames.bitmap
    {
      State(mem, frames.Free(), frames.totalPages)
    }

    function Load(a: word): word
      requires cr3 < FRAME_LIMIT && Mapped(mem, cr3, a) && a % 4 == 0
      reads this
    {
      mem[Frame(Pte(mem, cr3, a / PAGE_SIZE))][a % PAGE_SIZE / 4]
    }

    method Store(a: word, w: word)
      requires cr3 < FRAME_LIMIT && Mapped(mem, cr3, a) && a % 4 == 0
      modifies this`mem
      ensures var f := old(Frame(Pte(mem, cr3, a / PAGE_SIZE)));
              mem == WriteWord(old(mem), f, a % PAGE_SIZE / 4, w)
    {
      var f := Frame(Pte(mem, cr3, a / PAGE_SIZE));
      mem := WriteWord(mem, f, a % PAGE_SIZE / 4, w);
    }

    /** `memcpy` to offset `off` of the page at `a`. */
    method StoreBytes(a: word, off: nat, src: seq<byte>)
      requires cr3 < FRAME_LIMIT && Mapped(mem, cr3, a) && a % PAGE_SIZE == 0 && off + |src| <= PAGE_SIZE
      modifies this`mem
      ensures var f := old(Frame(Pte(mem, cr3, a / PAGE_SIZE)));
              mem == WritePage(old(mem), f, PageOfBytes(Splice(PageBytes(old(mem[f])), off, src)))
    {
      var f := Frame(Pte(mem, cr3, a / PAGE_SIZE));
      mem := WritePage(mem, f, PageOfBytes(Splice(PageBytes(mem[f]), off, src)));
    }

    /** `memset(a, 0, PAGE_SIZE)` on a page boundary. */
    method ClearPage(a: word)
      requires cr3 < FRAME_LIMIT && Mapped(mem, cr3, a) && a % PAGE_SIZE == 0
      modifies this`mem
      ensures mem == WritePage(old(mem), old(Frame(Pte(mem, cr3, a / PAGE_SIZE))), ZeroPage())
    {
      mem := WritePage(mem, Frame(Pte(mem, cr3, a / PAGE_SIZE)), ZeroPage());
    }

    // The same accesses by directory slot, which is how the kernel names tables and directories.

    function LoadWindow(slot: nat, i: nat): (w: word)
      requires SelfMapped(mem, cr3) && slot < 1024 && i < 1024 && Present(mem[cr3][slot])
      reads this
      ensures w == mem[Frame(mem[cr3][slot])][i]
    {
      RecursiveWindow(mem, cr3, slot, i);
      Load(WindowAddress(slot, i))
    }

    method StoreWindow(slot: nat, i: nat, w: word)
      requires SelfMapped(mem, cr3) && slot < 1024 && i < 1024 && Present(mem[cr3][slot])
      modifies this`mem
      ensures mem == WriteWord(old(mem), old(Frame(mem[cr3][slot])), i, w)
    {
      RecursiveWindow(mem, cr3, slot, i);
      Store(WindowAddress(slot, i), w);
    }

    method ClearWindow(slot: nat)
      requires SelfMapped(mem, cr3) && slot < 1024 && Present(mem[cr3][slot])
      modifies this`mem
      ensures mem == WritePage(old(mem), old(Frame(mem[cr3][slot])), ZeroPage())
    {
      RecursiveWindow(mem, cr3, slot, 0);
      ClearPage(WindowAddress(slot, 0));
    }

    method CopyToWindow(slot: nat, off: nat, src: seq<byte>)
      requires SelfMapped(mem, cr3) && slot < 1024 && Present(mem[cr3][slot]) && off + |src| <= PAGE_SIZE
      modifies this`mem
      ensures var f := old(Frame(mem[cr3][slot]));
              mem == WritePage(old(mem), f, PageOfBytes(Splice(PageBytes(old(mem[f])), off, src)))
    {
      RecursiveWindow(mem, cr3, slot, 0);
      StoreBytes(WindowAddress(slot, 0), off, src);
    }
  }
}
