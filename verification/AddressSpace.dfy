/** Page directories of processes, edited from another address space through temporary windows. */
module AddressSpace {
  import opened Words
  import opened Pmm
  import opened Mmu
  import opened Paging

  const TEMP_PD_SLOT: nat := 1020
  const TEMP_FRAME_SLOT: nat := 1021
  const TEMP_PT_SLOT: nat := 1022

  const USER_PAGES: nat := USER_SLOTS * 1024

  // ---------- Temporary windows ----------

  /** What the three window slots of the current directory hold. */
  datatype Windows = Windows(dir: word, frame: word, table: word) {
    function At(slot: nat): word
      requires TEMP_PD_SLOT <= slot <= TEMP_PT_SLOT
    {
      if slot == TEMP_PD_SLOT then dir else if slot == TEMP_FRAME_SLOT then frame else table
    }

    function With(slot: nat, w: word): Windows
      requires TEMP_PD_SLOT <= slot <= TEMP_PT_SLOT
    {
      if slot == TEMP_PD_SLOT then Windows(w, frame, table)
      else if slot == TEMP_FRAME_SLOT then Windows(dir, w, table)
      else Windows(dir, frame, w)
    }
  }

  const NO_WINDOWS: Windows := Windows(0, 0, 0)

  /** Memory `base` seen with its windows set in directory `pd`. */
  function Show(base: Memory, pd: nat, w: Windows): Memory
    requires pd < FRAME_LIMIT
  {
    WritePage(base, pd, base[pd][TEMP_PD_SLOT := w.dir][TEMP_FRAME_SLOT := w.frame][TEMP_PT_SLOT := w.table])
  }

  predicate WindowsClear(m: Memory, pd: nat)
    requires pd < FRAME_LIMIT
  {
    m[pd][TEMP_PD_SLOT] == 0 && m[pd][TEMP_FRAME_SLOT] == 0 && m[pd][TEMP_PT_SLOT] == 0
  }

  lemma ShowNothing(base: Memory, pd: nat)
    requires pd < FRAME_LIMIT && WindowsClear(base, pd)
    ensures Show(base, pd, NO_WINDOWS) == base
  {
    assert Show(base, pd, NO_WINDOWS)[pd] == base[pd];
  }

  /** `kern_pd[slot] = w`: only the window changes. */
  method SetWindow(m: Machine, slot: nat, w: word, ghost base: Memory, ghost now: Windows)
    requires SelfMapped(base, m.cr3) && m.mem == Show(base, m.cr3, now) && TEMP_PD_SLOT <= slot <= TEMP_PT_SLOT
    modifies m`mem
    ensures m.mem == Show(base, m.cr3, now.With(slot, w))
  {
    m.StoreWindow(RECURSIVE_SLOT, slot, w);
    assert m.mem[m.cr3] == Show(base, m.cr3, now.With(slot, w))[m.cr3];
  }

  /** A load through a window reads the frame it shows. */
  function LoadBehind(m: Machine, slot: nat, i: nat, ghost base: Memory, ghost now: Windows): (w: word)
    requires SelfMapped(base, m.cr3) && m.mem == Show(base, m.cr3, now) && TEMP_PD_SLOT <= slot <= TEMP_PT_SLOT
    requires Present(now.At(slot)) && Frame(now.At(slot)) != m.cr3 && i < WORDS_PER_PAGE
    reads m
    ensures w == base[Frame(now.At(slot))][i]
  {
    m.LoadWindow(slot, i)
  }

  /** A load from the current directory sees its own entries, and the windows in theirs. */
  function LoadDirectory(m: Machine, i: nat, ghost base: Memory, ghost now: Windows): (w: word)
    requires SelfMapped(base, m.cr3) && m.mem == Show(base, m.cr3, now) && i < WORDS_PER_PAGE
    reads m
    ensures w == if TEMP_PD_SLOT <= i <= TEMP_PT_SLOT then now.At(i) else base[m.cr3][i]
  {
    m.LoadWindow(RECURSIVE_SLOT, i)
  }

  /** A store through a window changes the frame it shows. */
  method StoreBehind(m: Machine, slot: nat, i: nat, w: word, ghost base: Memory, ghost now: Windows)
    requires SelfMapped(base, m.cr3) && m.mem == Show(base, m.cr3, now) && TEMP_PD_SLOT <= slot <= TEMP_PT_SLOT
    requires Present(now.At(slot)) && Frame(now.At(slot)) != m.cr3 && i < WORDS_PER_PAGE
    modifies m`mem
    ensures m.mem == Show(WriteWord(base, Frame(now.At(slot)), i, w), m.cr3, now)
  {
    m.StoreWindow(slot, i, w);
  }

  method ClearBehind(m: Machine, slot: nat, ghost base: Memory, ghost now: Windows)
    requires SelfMapped(base, m.cr3) && m.mem == Show(base, m.cr3, now) && TEMP_PD_SLOT <= slot <= TEMP_PT_SLOT
    requires Present(now.At(slot)) && Frame(now.At(slot)) != m.cr3
    modifies m`mem
    ensures m.mem == Show(WritePage(base, Frame(now.At(slot)), ZeroPage()), m.cr3, now)
  {
    m.ClearWindow(slot);
  }

  /** What the kernel needs of the directory it runs on to edit another one. */
  predicate CanEditFrom(s: PhysState, cr3: nat) {
    SelfMapped(s.mem, cr3) && cr3 !in s.free && WindowsClear(s.mem, cr3)
  }

  /** The entry that shows frame `f` in a window. */
  function WindowEntry(phys: word): (w: word)
    requires phys % PAGE_SIZE == 0
    ensures Present(w) && Frame(w) == Frame(phys)
  {
    phys + PAGE_PRESENT + PAGE_RW
  }

  /** What an edit of slot `slot` of directory `pd` relies on. */
  predicate CanEdit(s: PhysState, cr3: nat, pd: nat, slot: nat) {
    && CanEditFrom(s, cr3) && Ready(s, pd, slot) && FramesInRange(s) && pd != cr3
    && (HasTable(s, pd, slot) ==> Table(s, pd, slot) != cr3)
  }

  /** First half of `foreign_map_page`: with the directory in its window, the slot gets a table if it has none. */
  method ForeignTable(m: Machine, ghost pd: nat, pdIndex: nat, flags: word, ghost s: PhysState, ghost now: Windows)
    returns (ok: bool)
    requires m.frames.Valid() && CanEdit(s, m.cr3, pd, pdIndex)
    requires s.free == m.frames.Free() && s.total == m.frames.totalPages
    requires m.mem == Show(s.mem, m.cr3, now) && Present(now.dir) && Frame(now.dir) == pd && now.table == 0
    modifies m`mem, m.frames.bitmap
    ensures ok <==> HasTable(s, pd, pdIndex) || s.free != {}
    ensures !ok ==> m.frames.Free() == {}
    ensures ok ==> m.mem == Show(WithTable(s, pd, pdIndex, flags).mem, m.cr3, now)
    ensures ok ==> m.frames.Free() == WithTable(s, pd, pdIndex, flags).free
  {
    hide Present, Frame, PageBase, WindowEntry, Show;
    if !Present(LoadBehind(m, TEMP_PD_SLOT, pdIndex, s.mem, now)) {
      var pt := m.frames.AllocFrame();
      if pt.Panic? {
        return false;
      }
      var pdFlags := PAGE_PRESENT + PAGE_RW;
      if flags / PAGE_USER % 2 == 1 {
        pdFlags := pdFlags + PAGE_USER;
      }
      assert pt.value + pdFlags == PdeValue(Lowest(s.free), flags);
      FrameAddress(Lowest(s.free));
      StoreBehind(m, TEMP_PD_SLOT, pdIndex, pt.value + pdFlags, s.mem, now);
      ghost var base := WriteWord(s.mem, pd, pdIndex, pt.value + pdFlags);
      SetWindow(m, TEMP_PT_SLOT, WindowEntry(pt.value), base, now);
      ClearBehind(m, TEMP_PT_SLOT, base, now.With(TEMP_PT_SLOT, WindowEntry(pt.value)));
      SetWindow(m, TEMP_PT_SLOT, 0, WritePage(base, Frame(pt.value), ZeroPage()),
                now.With(TEMP_PT_SLOT, WindowEntry(pt.value)));
    }
    return true;
  }

  lemma WithTableKeepsWindows(s: PhysState, cr3: nat, pd: nat, slot: nat, flags: word)
    requires CanEdit(s, cr3, pd, slot) && (HasTable(s, pd, slot) || s.free != {})
    ensures var t := WithTable(s, pd, slot, flags);
            && SelfMapped(t.mem, cr3) && WindowsClear(t.mem, cr3)
            && HasTable(t, pd, slot) && Table(t, pd, slot) != cr3
            && t.total == s.total
  {
  }

  /** Second half: the entry is stored through the table window, and both windows are closed. */
  method ForeignEntry(m: Machine, ghost pd: nat, pdIndex: nat, ptIndex: nat, entry: word, ghost base: Memory, ghost dir: Windows)
    requires SelfMapped(base, m.cr3) && WindowsClear(base, m.cr3) && pd < FRAME_LIMIT && pd != m.cr3
    requires pdIndex < 1024 && ptIndex < 1024 && Present(base[pd][pdIndex]) && Frame(base[pd][pdIndex]) != m.cr3
    requires m.mem == Show(base, m.cr3, dir) && Present(dir.dir) && Frame(dir.dir) == pd && dir.frame == 0 == dir.table
    modifies m`mem
    ensures m.mem == WriteWord(base, Frame(base[pd][pdIndex]), ptIndex, entry)
  {
    hide Present, Frame, PageBase, WindowEntry, Show;
    var ptPhys := PageBase(LoadBehind(m, TEMP_PD_SLOT, pdIndex, base, dir));
    FrameOfBase(base[pd][pdIndex]);
    SetWindow(m, TEMP_PT_SLOT, WindowEntry(ptPhys), base, dir);
    ghost var both := Windows(dir.dir, 0, WindowEntry(ptPhys));
    StoreBehind(m, TEMP_PT_SLOT, ptIndex, entry, base, both);
    ghost var stored := WriteWord(base, Frame(ptPhys), ptIndex, entry);
    SetWindow(m, TEMP_PD_SLOT, 0, stored, both);
    SetWindow(m, TEMP_PT_SLOT, 0, stored, Windows(0, 0, WindowEntry(ptPhys)));
    ShowNothing(stored, m.cr3);
  }

  /** Maps a page into directory `pdPhys`, which is not the current one. */
  method ForeignMapPage(m: Machine, pdPhys: word, phys: word, virt: word, flags: word) returns (r: Outcome<()>)
    requires m.frames.Valid() && CanEdit(m.Phys(), m.cr3, Frame(pdPhys), virt / 0x40_0000)
    requires pdPhys % PAGE_SIZE == 0
    modifies m`mem, m.frames.bitmap
    ensures r.Done? <==> HasTable(old(m.Phys()), Frame(pdPhys), virt / 0x40_0000) || old(m.frames.Free()) != {}
    ensures r.Panic? ==> m.frames.Free() == {}
    ensures r.Done? ==> m.Phys() == Map(old(m.Phys()), Frame(pdPhys), virt / PAGE_SIZE, phys, flags)
  {
    var pdIndex, ptIndex := virt / 0x40_0000, virt / PAGE_SIZE % 1024;
    ghost var s, pd, dir := m.Phys(), Frame(pdPhys), Windows(WindowEntry(pdPhys), 0, 0);
    hide Present, PteValue, WindowEntry, Show, WithTable;
    ShowNothing(m.mem, m.cr3);
    SetWindow(m, TEMP_PD_SLOT, WindowEntry(pdPhys), m.mem, NO_WINDOWS);
    var ok := ForeignTable(m, pd, pdIndex, flags, s, dir);
    if !ok {
      return Panic;
    }
    WithTableKeepsWindows(s, m.cr3, pd, pdIndex, flags);
    ForeignEntry(m, pd, pdIndex, ptIndex, PteValue(phys, flags), WithTable(s, pd, pdIndex, flags).mem, dir);
    return Done(());
  }

  // ---------- Frame contents ----------

  /** Frame `f` with `src` copied in at `off`. */
  function FrameWith(m: Memory, f: nat, off: nat, src: seq<byte>): Memory
    requires f < FRAME_LIMIT && off + |src| <= PAGE_SIZE
  {
    WritePage(m, f, PageOfBytes(Splice(PageBytes(m[f]), off, src)))
  }

  /** `copy_to_phys`; `zero_phys` is the same with zero bytes. */
  method CopyToPhys(m: Machine, phys: word, off: nat, src: seq<byte>)
    requires SelfMapped(m.mem, m.cr3) && WindowsClear(m.mem, m.cr3)
    requires phys % PAGE_SIZE == 0 && Frame(phys) != m.cr3 && off + |src| <= PAGE_SIZE
    modifies m`mem
    ensures m.mem == FrameWith(old(m.mem), Frame(phys), off, src)
  {
    hide Present, Frame, WindowEntry, PageOfBytes, PageBytes;
    ghost var base, f := m.mem, Frame(phys);
    ShowNothing(base, m.cr3);
    SetWindow(m, TEMP_FRAME_SLOT, WindowEntry(phys), base, NO_WINDOWS);
    m.CopyToWindow(TEMP_FRAME_SLOT, off, src);
    assert m.mem == Show(FrameWith(base, f, off, src), m.cr3, Windows(0, WindowEntry(phys), 0));
    SetWindow(m, TEMP_FRAME_SLOT, 0, FrameWith(base, f, off, src), Windows(0, WindowEntry(phys), 0));
    ShowNothing(FrameWith(base, f, off, src), m.cr3);
  }

  method ZeroPhys(m: Machine, phys: word, off: nat, len: nat)
    requires SelfMapped(m.mem, m.cr3) && WindowsClear(m.mem, m.cr3)
    requires phys % PAGE_SIZE == 0 && Frame(phys) != m.cr3 && off + len <= PAGE_SIZE
    modifies m`mem
    ensures m.mem == FrameWith(old(m.mem), Frame(phys), off, seq(len, _ => 0))
  {
    CopyToPhys(m, phys, off, seq(len, _ => 0));
  }

  // ---------- New directories ----------

  /** The user half is empty, the kernel half is the creator's, and the last slot maps the directory itself. */
  function NewDirectory(creator: Page, pd: nat): (p: Page)
    requires pd < FRAME_LIMIT
  {
    seq(WORDS_PER_PAGE, i requires 0 <= i < WORDS_PER_PAGE =>
      if i < USER_SLOTS || i == TEMP_PD_SLOT then 0
      else if i == RECURSIVE_SLOT then WindowEntry(pd * PAGE_SIZE)
      else creator[i])
  }

  function CreateDir(s: PhysState, cr3: nat, pd: nat): PhysState
    requires cr3 < FRAME_LIMIT && pd < FRAME_LIMIT
  {
    State(WritePage(s.mem, pd, NewDirectory(s.mem[cr3], pd)), s.free - {pd}, s.total)
  }

  /** Memory in which a directory window shows frame `pd`, while `pd` is being written. */
  ghost predicate Filling(m: Machine, start: Memory, pd: nat, base: Memory, dir: Windows)
    requires pd < FRAME_LIMIT
    reads m
  {
    && SelfMapped(base, m.cr3) && m.mem == Show(base, m.cr3, dir) && base == WritePage(start, pd, base[pd])
    && pd != m.cr3 && Present(dir.dir) && Frame(dir.dir) == pd
  }

  method FillWord(m: Machine, i: nat, w: word, ghost pd: nat, ghost start: Memory, ghost base: Memory, ghost dir: Windows)
    requires pd < FRAME_LIMIT && Filling(m, start, pd, base, dir) && i < WORDS_PER_PAGE
    modifies m`mem
    ensures Filling(m, start, pd, WriteWord(base, pd, i, w), dir)
  {
    hide Present, Frame, Show;
    StoreBehind(m, TEMP_PD_SLOT, i, w, base, dir);
  }

  /** The first loop: the user half is zeroed. */
  method ClearUserHalf(m: Machine, ghost pd: nat, ghost start: Memory, ghost dir: Windows) returns (ghost base: Memory)
    requires pd < FRAME_LIMIT && Filling(m, start, pd, start, dir)
    modifies m`mem
    ensures Filling(m, start, pd, base, dir) && forall j | 0 <= j < USER_SLOTS :: base[pd][j] == 0
  {
    hide Filling;
    base := start;
    for i := 0 to USER_SLOTS
      modifies m`mem
      invariant Filling(m, start, pd, base, dir)
      invariant forall j | 0 <= j < i :: base[pd][j] == 0
    {
      FillWord(m, i, 0, pd, start, base, dir);
      base := WriteWord(base, pd, i, 0);
    }
  }

  /** The second loop: the kernel half is the current directory's. */
  method CopyKernelHalf(m: Machine, ghost pd: nat, ghost start: Memory, ghost from: Memory, ghost dir: Windows)
    returns (ghost base: Memory)
    requires pd < FRAME_LIMIT && Filling(m, start, pd, from, dir)
    modifies m`mem
    ensures Filling(m, start, pd, base, dir) && forall j | 0 <= j < USER_SLOTS :: base[pd][j] == from[pd][j]
    ensures forall j | USER_SLOTS <= j < 1024 && !(TEMP_PD_SLOT <= j <= TEMP_PT_SLOT) :: base[pd][j] == start[m.cr3][j]
    ensures forall j | TEMP_PD_SLOT <= j <= TEMP_PT_SLOT :: base[pd][j] == dir.At(j)
  {
    hide Show, Present, Frame;
    base := from;
    for i := USER_SLOTS to 1024
      modifies m`mem
      invariant Filling(m, start, pd, base, dir) && forall j | 0 <= j < USER_SLOTS :: base[pd][j] == from[pd][j]
      invariant forall j | USER_SLOTS <= j < i && !(TEMP_PD_SLOT <= j <= TEMP_PT_SLOT) :: base[pd][j] == start[m.cr3][j]
      invariant forall j | TEMP_PD_SLOT <= j <= TEMP_PT_SLOT && j < i :: base[pd][j] == dir.At(j)
    {
      var entry := LoadDirectory(m, i, base, dir);
      FillWord(m, i, entry, pd, start, base, dir);
      base := WriteWord(base, pd, i, entry);
    }
  }

  /** Builds the directory of a new process; panics exactly when no frame is free. */
  method CreatePagedir(m: Machine) returns (r: Outcome<word>)
    requires m.frames.Valid() && CanEditFrom(m.Phys(), m.cr3)
    modifies m`mem, m.frames.bitmap
    ensures r.Panic? <==> old(m.frames.Free()) == {}
    ensures r.Panic? ==> m.Phys() == old(m.Phys())
    ensures r.Done? ==> r.value == Lowest(old(m.frames.Free())) * PAGE_SIZE
    ensures r.Done? ==> m.Phys() == CreateDir(old(m.Phys()), m.cr3, Lowest(old(m.frames.Free())))
  {
    var pdPhys := m.frames.AllocFrame();
    if pdPhys.Panic? {
      return Panic;
    }
    FrameAddress(Lowest(old(m.frames.Free())));
    FillDirectory(m, pdPhys.value, Lowest(old(m.frames.Free())));
    return Done(pdPhys.value);
  }

  /** The stores into the new directory, through its window. */
  method FillDirectory(m: Machine, pdPhys: word, ghost pd: nat)
    requires SelfMapped(m.mem, m.cr3) && WindowsClear(m.mem, m.cr3)
    requires pdPhys % PAGE_SIZE == 0 && Frame(pdPhys) == pd != m.cr3 && pdPhys == pd * PAGE_SIZE
    modifies m`mem
    ensures m.mem == WritePage(old(m.mem), pd, NewDirectory(old(m.mem)[m.cr3], pd))
  {
    hide Present, Frame, WindowEntry, Show;
    ghost var start, dir := m.mem, Windows(WindowEntry(pdPhys), 0, 0);
    ShowNothing(start, m.cr3);
    SetWindow(m, TEMP_PD_SLOT, WindowEntry(pdPhys), start, NO_WINDOWS);
    ghost var base := ClearUserHalf(m, pd, start, dir);
    base := CopyKernelHalf(m, pd, start, base, dir);
    FillWord(m, RECURSIVE_SLOT, WindowEntry(pdPhys), pd, start, base, dir);
    base := WriteWord(base, pd, RECURSIVE_SLOT, WindowEntry(pdPhys));
    FillWord(m, TEMP_PD_SLOT, 0, pd, start, base, dir);
    base := WriteWord(base, pd, TEMP_PD_SLOT, 0);
    SetWindow(m, TEMP_PD_SLOT, 0, base, dir);
    ShowNothing(base, m.cr3);
    assert base[pd] == NewDirectory(start[m.cr3], pd);
  }
}
