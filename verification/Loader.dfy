/** Loading an ELF executable into a new address space, page by page. */
module Loader {
  import opened Division
  import opened Words
  import opened Pmm
  import opened Mmu
  import opened Paging
  import opened AddressSpace
  import opened ArgStack

  const KERNEL_VIRT_BASE: word := 0xc000_0000
  const ELF_MAGIC: word := 0x464c_457f
  const ET_EXEC: nat := 2
  const PT_LOAD: word := 1
  const PF_W: word := 2
  const EHDR_SIZE: nat := 52
  const PHDR_SIZE: nat := 32

  /** The two stack pages, by page number. */
  const STACK_TOP_PAGE: nat := STACK_PAGE / PAGE_SIZE
  const STACK_LOW_PAGE: nat := STACK_TOP_PAGE - 1

  // ---------- The file ----------

  /** A file read into a buffer, which lies in the kernel's quarter of the address space. */
  type File = f: seq<byte> | |f| <= WORD_LIMIT - KERNEL_VIRT_BASE

  // Loads outside the file read 0 here; `Readable` is what keeps the loader from making any.

  function FileWord(f: File, off: nat): word {
    if off + 4 <= |f| then Le32(f[off..off + 4]) else 0
  }

  function FileHalf(f: File, off: nat): (h: nat)
    ensures h < 0x1_0000
  {
    if off + 2 <= |f| then Le16(f[off..off + 2]) else 0
  }

  datatype Phdr = Phdr(kind: word, offset: word, vaddr: word, filesz: word, memsz: word, flags: word) {
    function FileEnd(): word { Add32(vaddr, filesz) }
    function MemEnd(): word { Add32(vaddr, memsz) }

    /** The loop over pages runs from the segment's first page to its end. */
    predicate Covers(page: nat) {
      vaddr / PAGE_SIZE <= page && page * PAGE_SIZE < MemEnd()
    }

    /** What the loader checks before it maps anything. */
    predicate Acceptable() {
      vaddr < 0xc000_0000 && MemEnd() <= 0xb000_0000
    }

    predicate Inside(f: File) {
      offset + filesz <= |f|
    }
  }

  function PhdrAt(f: File, off: nat): Phdr {
    Phdr(FileWord(f, off), FileWord(f, off + 4), FileWord(f, off + 8),
         FileWord(f, off + 16), FileWord(f, off + 20), FileWord(f, off + 24))
  }

  predicate GoodIdent(f: File) {
    FileWord(f, 0) == 0x464c_457f && FileHalf(f, 16) == 2
  }

  function Entry(f: File): word {
    FileWord(f, 24)
  }

  function PhdrCount(f: File): nat {
    FileHalf(f, 44)
  }

  function PhdrOffset(f: File, i: nat): nat {
    FileWord(f, 28) + i * FileHalf(f, 42)
  }

  function Headers(f: File): (phs: seq<Phdr>)
    ensures |phs| == PhdrCount(f)
  {
    seq(PhdrCount(f), i requires i >= 0 => PhdrAt(f, PhdrOffset(f, i)))
  }

  function Loadable(phs: seq<Phdr>): seq<Phdr> {
    if phs == [] then []
    else
      var last := phs[|phs| - 1];
      Loadable(phs[..|phs| - 1]) + if last.kind == PT_LOAD then [last] else []
  }

  /** The loadable segments, in header order. */
  function Segments(f: File): seq<Phdr> {
    Loadable(Headers(f))
  }

  lemma LoadableNext(phs: seq<Phdr>, i: nat)
    requires i < |phs|
    ensures Loadable(phs[..i + 1]) == if phs[i].kind == PT_LOAD then Loadable(phs[..i]) + [phs[i]] else Loadable(phs[..i])
  {
    assert phs[..i + 1][..i] == phs[..i];
  }

  lemma {:induction false} LoadableMember(phs: seq<Phdr>, i: nat)
    requires i < |phs| && phs[i].kind == PT_LOAD
    ensures phs[i] in Loadable(phs)
  {
    if i < |phs| - 1 {
      LoadableMember(phs[..|phs| - 1], i);
    }
  }

  predicate AllAcceptable(segs: seq<Phdr>) {
    forall s <- segs :: s.Acceptable()
  }

  predicate AllInside(segs: seq<Phdr>, f: File) {
    forall s <- segs :: s.Inside(f)
  }

  /** Nothing in the loader checks that the program headers and segment contents lie inside the file. */
  predicate Readable(f: File) {
    && EHDR_SIZE <= |f|
    && (GoodIdent(f) ==>
          && (forall i | 0 <= i < PhdrCount(f) :: PhdrOffset(f, i) + PHDR_SIZE <= |f|)
          && AllInside(Segments(f), f))
  }

  // ---------- The image, byte by byte ----------

  /** The byte a segment puts at address `a` of a page it covers. */
  function SegmentByte(seg: Phdr, f: File, a: nat): byte {
    if seg.vaddr <= a < seg.FileEnd() && seg.offset + (a - seg.vaddr) < |f| then f[seg.offset + (a - seg.vaddr)] else 0
  }

  function SegmentPage(seg: Phdr, f: File, page: nat): (b: seq<byte>)
    ensures |b| == PAGE_SIZE
  {
    seq<byte>(PAGE_SIZE, k requires 0 <= k < PAGE_SIZE => SegmentByte(seg, f, page * PAGE_SIZE + k))
  }

  /** What a user page is, as its process sees it. */
  datatype UserPage = Unmapped | Resident(bytes: seq<byte>, access: nat)

  function View(m: Memory, pd: nat, page: nat): UserPage
    requires pd < FRAME_LIMIT && page < FRAME_LIMIT
  {
    var pte := Pte(m, pd, page);
    if Present(pte) then Resident(PageBytes(m[Frame(pte)]), pte % PAGE_SIZE) else Unmapped
  }

  /** Present, user, and writable when the segment is. */
  function SegmentAccess(seg: Phdr): nat {
    PAGE_PRESENT + PAGE_USER + if seg.flags / PF_W % 2 == 1 then PAGE_RW else 0
  }

  /** Each page comes from the last segment that covers it. */
  function Image(segs: seq<Phdr>, f: File, page: nat): UserPage {
    if segs == [] then Unmapped
    else
      var last := segs[|segs| - 1];
      if last.Covers(page) then Resident(SegmentPage(last, f, page), SegmentAccess(last))
      else Image(segs[..|segs| - 1], f, page)
  }

  function Highest(segs: seq<Phdr>): word {
    if segs == [] then 0
    else
      var before, last := Highest(segs[..|segs| - 1]), segs[|segs| - 1].MemEnd();
      if last > before then last else before
  }

  /** Where a segment's memory ends, on 32 bits. */
  function EndOf(seg: Phdr): nat {
    (seg.vaddr + seg.memsz) % 0x1_0000_0000
  }

  /** The page boundary lies at or above the memory end of every loadable segment, and no lower one does. */
  ghost predicate LeastBoundary(h: nat, phs: seq<Phdr>) {
    && h % 0x1000 == 0 && (forall p <- phs | p.kind == 1 :: EndOf(p) <= h)
    && forall g: nat | g % 0x1000 == 0 && (forall p <- phs | p.kind == 1 :: EndOf(p) <= g) :: h <= g
  }

  /** The highest end is at or above every segment's, and is one of them unless there is none above 0. */
  lemma {:induction false} HighestIsMaximum(segs: seq<Phdr>)
    ensures forall s <- segs :: EndOf(s) <= Highest(segs)
    ensures Highest(segs) == 0 || exists s <- segs :: EndOf(s) == Highest(segs)
    decreases |segs|
  {
    if segs != [] {
      var front, last := segs[..|segs| - 1], segs[|segs| - 1];
      HighestIsMaximum(front);
      assert EndOf(last) == last.MemEnd();
      assert last in segs && forall s <- segs :: s in front || s == last;
      assert forall s <- front :: s in segs;
    }
  }

  /** The loadable headers are those of type 1, in their order. */
  lemma {:induction false} LoadableIff(phs: seq<Phdr>, s: Phdr)
    ensures s in Loadable(phs) <==> s in phs && s.kind == 1
    decreases |phs|
  {
    if phs != [] {
      LoadableIff(phs[..|phs| - 1], s);
      assert phs == phs[..|phs| - 1] + [phs[|phs| - 1]];
    }
  }

  lemma HeapStartIsLeast(phs: seq<Phdr>)
    requires AllAcceptable(Loadable(phs))
    ensures LeastBoundary(PageBase(Add32(Highest(Loadable(phs)), PAGE_SIZE - 1)), phs)
  {
    var segs := Loadable(phs);
    HighestIsMaximum(segs);
    forall s
      ensures s in segs <==> s in phs && s.kind == 1
    {
      LoadableIff(phs, s);
    }
    hide Loadable, Highest;
    var top := Highest(segs);
    assert top <= USER_STACK_TOP by {
      if top != 0 {
        var s :| s in segs && EndOf(s) == top;
        assert s.Acceptable() && s.MemEnd() == EndOf(s);
      }
    }
    RoundsUp(top);
    var h := PageBase(Add32(top, PAGE_SIZE - 1));
    forall g: nat | g % 0x1000 == 0 && forall p <- phs | p.kind == 1 :: EndOf(p) <= g
      ensures h <= g
    {
      LeastAbove(top, g);
    }
  }

  lemma RoundsUp(top: word)
    requires top <= USER_STACK_TOP
    ensures var h := PageBase(Add32(top, PAGE_SIZE - 1)); top <= h < top + 0x1000 && h % 0x1000 == 0
  {
  }

  lemma LeastAbove(top: word, g: nat)
    requires top <= USER_STACK_TOP && g % 0x1000 == 0 && top <= g
    ensures PageBase(Add32(top, PAGE_SIZE - 1)) <= g
  {
    RoundsUp(top);
  }

  // ---------- State while loading ----------

  /** The frames taken between two states of one run. */
  function Taken(s0: PhysState, s: PhysState): set<nat> {
    s0.free - s.free
  }

  /** Frame `f` is neither directory `pd`, nor one of its user tables, nor behind one of its user pages. */
  predicate Unused(s: PhysState, pd: nat, f: nat)
    requires pd < FRAME_LIMIT
  {
    && f != pd
    && (forall slot | 0 <= slot < USER_SLOTS && HasTable(s, pd, slot) :: Table(s, pd, slot) != f)
    && (forall page: nat | page < USER_PAGES && Present(Pte(s.mem, pd, page)) :: Frame(Pte(s.mem, pd, page)) != f)
  }

  /** User tables and user pages stand on frames taken since `s0`, and every user page on one of its own. */
  predicate FramesTaken(s0: PhysState, s: PhysState, pd: nat)
    requires pd < FRAME_LIMIT
  {
    && (forall slot | 0 <= slot < USER_SLOTS && HasTable(s, pd, slot) :: Table(s, pd, slot) in Taken(s0, s))
    && (forall page: nat | page < USER_PAGES && Present(Pte(s.mem, pd, page)) :: Frame(Pte(s.mem, pd, page)) in Taken(s0, s))
    && (forall page: nat, slot | page < USER_PAGES && Present(Pte(s.mem, pd, page)) && 0 <= slot < USER_SLOTS && HasTable(s, pd, slot) ::
          Frame(Pte(s.mem, pd, page)) != Table(s, pd, slot))
    && (forall page: nat, other: nat | page < USER_PAGES && Present(Pte(s.mem, pd, page))
                                       && other < USER_PAGES && Present(Pte(s.mem, pd, other)) && page != other ::
          Frame(Pte(s.mem, pd, page)) != Frame(Pte(s.mem, pd, other)))
  }

  /** Between `s0` and `s` only frames taken in between and directory `pd` were written. */
  predicate WroteOnlyOwn(s0: PhysState, s: PhysState, pd: nat)
    requires pd < FRAME_LIMIT
  {
    && (forall g | 0 <= g < FRAME_LIMIT && g != pd && g !in Taken(s0, s) :: s.mem[g] == s0.mem[g])
    && (forall i | USER_SLOTS <= i < 1024 :: s.mem[pd][i] == s0.mem[pd][i])
  }

  /** Every user table is open to user mode, and writable as far as the directory goes. */
  predicate UserTables(s: PhysState, pd: nat)
    requires pd < FRAME_LIMIT
  {
    forall slot | 0 <= slot < USER_SLOTS && HasTable(s, pd, slot) ::
      s.mem[pd][slot] % 8 == PAGE_PRESENT + PAGE_RW + PAGE_USER
  }

  predicate Loading(s0: PhysState, s: PhysState, cr3: nat, pd: nat) {
    && DirOk(s, pd) && CanEditFrom(s, cr3) && pd != cr3
    && s.free <= s0.free && s.total == s0.total
    && pd !in s0.free && cr3 !in s0.free
    && FramesTaken(s0, s, pd)
    && WroteOnlyOwn(s0, s, pd)
    && UserTables(s, pd)
  }

  /** Reachable frames are never free. */
  lemma TakeFrame(s0: PhysState, s: PhysState, cr3: nat, pd: nat, f: nat)
    requires Loading(s0, s, cr3, pd) && f in s.free
    ensures Loading(s0, State(s.mem, s.free - {f}, s.total), cr3, pd)
    ensures Unused(State(s.mem, s.free - {f}, s.total), pd, f) && f in Taken(s0, State(s.mem, s.free - {f}, s.total))
    ensures f < FRAME_LIMIT
  {
    var t := State(s.mem, s.free - {f}, s.total);
    SameDirectory(s, t, pd);
    SameSlots(s, t, pd);
    SameTranslations(s, t, pd, USER_SLOTS);
    hide DirOk;
  }

  /** Only `page` is backed by frame `f`. */
  predicate OnlyAt(s: PhysState, pd: nat, page: nat, f: nat)
    requires pd < FRAME_LIMIT && page < USER_PAGES
  {
    && Present(Pte(s.mem, pd, page)) && Frame(Pte(s.mem, pd, page)) == f
    && forall other: nat | other < USER_PAGES && other != page && Present(Pte(s.mem, pd, other)) ::
         Frame(Pte(s.mem, pd, other)) != f
  }

  predicate SameUserPtes(after: Memory, before: Memory, pd: nat)
    requires pd < FRAME_LIMIT
  {
    forall page: nat | page < USER_PAGES :: Pte(after, pd, page) == Pte(before, pd, page)
  }

  lemma MapKeepsLoading(s0: PhysState, s: PhysState, cr3: nat, pd: nat, page: nat, f: nat, flags: word)
    requires Loading(s0, s, cr3, pd) && page < USER_PAGES && f in Taken(s0, s) && f < FRAME_LIMIT && Unused(s, pd, f)
    requires (HasTable(s, pd, page / 1024) || s.free != {}) && flags / PAGE_USER % 2 == 1
    ensures Loading(s0, Map(s, pd, page, f * PAGE_SIZE, flags), cr3, pd)
    ensures OnlyAt(Map(s, pd, page, f * PAGE_SIZE, flags), pd, page, f)
    ensures Pte(Map(s, pd, page, f * PAGE_SIZE, flags).mem, pd, page) == PteValue(f * PAGE_SIZE, flags)
    ensures forall other: nat | other < USER_PAGES && other != page ::
              View(Map(s, pd, page, f * PAGE_SIZE, flags).mem, pd, other) == View(s.mem, pd, other)
  {
    var t := Map(s, pd, page, f * PAGE_SIZE, flags);
    LoadingCanEdit(s0, s, cr3, pd, page / 1024);
    MapKeepsDirectory(s, pd, page, f * PAGE_SIZE, flags);
    MapEntries(s, pd, page, f, flags);
    MapWritesOwn(s0, s, cr3, pd, page, f, flags);
    MapKeepsViews(s0, s, cr3, pd, page, f, flags);
    FrameAddress(f);
    hide Map, DirOk, PteValue, Pte, Frame, Present, View, FramesTaken, WroteOnlyOwn, UserTables;
  }

  /** A map writes the table it uses and the directory, nothing else. */
  lemma MapWritesOwn(s0: PhysState, s: PhysState, cr3: nat, pd: nat, page: nat, f: nat, flags: word)
    requires Loading(s0, s, cr3, pd) && page < USER_PAGES && f in Taken(s0, s) && f < FRAME_LIMIT && Unused(s, pd, f)
    requires (HasTable(s, pd, page / 1024) || s.free != {}) && flags / PAGE_USER % 2 == 1
    ensures var t := Map(s, pd, page, f * PAGE_SIZE, flags);
            && FramesTaken(s0, t, pd) && WroteOnlyOwn(s0, t, pd) && UserTables(t, pd) && CanEditFrom(t, cr3)
            && t.free <= s.free && t.total == s.total
  {
    var t := Map(s, pd, page, f * PAGE_SIZE, flags);
    MapFrames(s, pd, page, f * PAGE_SIZE, flags);
    MapEntries(s, pd, page, f, flags);
    FrameAddress(f);
    TableIsOwn(s0, s, cr3, pd, page, f, flags);
    hide Map, DirOk, PteValue, Pte, Frame, Present;
    FramesStayTaken(s0, s, t, pd, page, f);
    UserTableEntry(Table(t, pd, page / 1024), flags);
  }

  lemma MapKeepsViews(s0: PhysState, s: PhysState, cr3: nat, pd: nat, page: nat, f: nat, flags: word)
    requires Loading(s0, s, cr3, pd) && page < USER_PAGES && f in Taken(s0, s) && f < FRAME_LIMIT && Unused(s, pd, f)
    requires HasTable(s, pd, page / 1024) || s.free != {}
    ensures forall other: nat | other < USER_PAGES && other != page ::
              View(Map(s, pd, page, f * PAGE_SIZE, flags).mem, pd, other) == View(s.mem, pd, other)
  {
    MapFrames(s, pd, page, f * PAGE_SIZE, flags);
    MapEntries(s, pd, page, f, flags);
    TableIsOwn(s0, s, cr3, pd, page, f, flags);
    hide Map, DirOk, PteValue, Pte, Frame, Present, PageBytes, HasTable, Table;
  }

  lemma MapEntries(s: PhysState, pd: nat, page: nat, f: nat, flags: word)
    requires DirOk(s, pd) && page < USER_PAGES && f < FRAME_LIMIT && CanMap(s, pd, page)
    ensures forall other: nat | other < USER_PAGES ::
              Pte(Map(s, pd, page, f * PAGE_SIZE, flags).mem, pd, other)
              == if other == page then PteValue(f * PAGE_SIZE, flags) else Pte(s.mem, pd, other)
  {
    hide Map, Pte, PteValue, DirOk;
    forall other: nat | other < USER_PAGES
      ensures Pte(Map(s, pd, page, f * PAGE_SIZE, flags).mem, pd, other)
              == if other == page then PteValue(f * PAGE_SIZE, flags) else Pte(s.mem, pd, other)
    {
      MapChangesOnePage(s, pd, page, f * PAGE_SIZE, flags, other);
    }
  }

  /** The table a map uses, new or old, is the space's own and no page's frame. */
  lemma TableIsOwn(s0: PhysState, s: PhysState, cr3: nat, pd: nat, page: nat, f: nat, flags: word)
    requires Loading(s0, s, cr3, pd) && page < USER_PAGES && f in Taken(s0, s) && f < FRAME_LIMIT && Unused(s, pd, f)
    requires HasTable(s, pd, page / 1024) || s.free != {}
    ensures var t := Map(s, pd, page, f * PAGE_SIZE, flags);
            var table := Table(t, pd, page / 1024);
            && table in Taken(s0, t) && table != cr3 && table != f
            && forall other: nat | other < USER_PAGES && Present(Pte(s.mem, pd, other)) :: Frame(Pte(s.mem, pd, other)) != table
  {
    MapFrames(s, pd, page, f * PAGE_SIZE, flags);
    hide Pte, PteValue, DirOk;
    assert HasTable(s, pd, page / 1024) ==> Table(s, pd, page / 1024) in Taken(s0, s);
  }

  lemma UserTableEntry(table: nat, flags: word)
    requires table < FRAME_LIMIT && flags / PAGE_USER % 2 == 1
    ensures PdeValue(table, flags) % 8 == PAGE_PRESENT + PAGE_RW + PAGE_USER
  {
    AddMultiple(PAGE_PRESENT + PAGE_RW + PAGE_USER, 8, table * 512);
  }

  lemma FramesStayTaken(s0: PhysState, s: PhysState, t: PhysState, pd: nat, page: nat, f: nat)
    requires pd < FRAME_LIMIT && page < USER_PAGES && FramesTaken(s0, s, pd) && t.free <= s.free
    requires f in Taken(s0, s) && Unused(s, pd, f)
    requires Present(Pte(t.mem, pd, page)) && Frame(Pte(t.mem, pd, page)) == f
    requires forall other: nat | other < USER_PAGES && other != page :: Pte(t.mem, pd, other) == Pte(s.mem, pd, other)
    requires forall i | 0 <= i < USER_SLOTS && i != page / 1024 ::
               HasTable(t, pd, i) == HasTable(s, pd, i) && Table(t, pd, i) == Table(s, pd, i)
    requires Table(t, pd, page / 1024) in Taken(s0, t) && Table(t, pd, page / 1024) != f
    requires forall other: nat | other < USER_PAGES && Present(Pte(s.mem, pd, other)) ::
               Frame(Pte(s.mem, pd, other)) != Table(t, pd, page / 1024)
    ensures FramesTaken(s0, t, pd)
  {
    hide Pte, Present, Frame;
  }

  /** Writing the frame behind one page changes what that page shows, and nothing else. */
  lemma FillKeepsLoading(s0: PhysState, s: PhysState, cr3: nat, pd: nat, page: nat, f: nat, content: Page)
    requires Loading(s0, s, cr3, pd) && page < USER_PAGES && OnlyAt(s, pd, page, f)
    ensures Loading(s0, State(WritePage(s.mem, f, content), s.free, s.total), cr3, pd)
    ensures OnlyAt(State(WritePage(s.mem, f, content), s.free, s.total), pd, page, f)
    ensures SameUserPtes(WritePage(s.mem, f, content), s.mem, pd)
    ensures View(WritePage(s.mem, f, content), pd, page) == Resident(PageBytes(content), Pte(s.mem, pd, page) % PAGE_SIZE)
    ensures forall other: nat | other < USER_PAGES && other != page ::
              View(WritePage(s.mem, f, content), pd, other) == View(s.mem, pd, other)
  {
    var t := State(WritePage(s.mem, f, content), s.free, s.total);
    assert f in Taken(s0, s);
    SameDirectory(s, t, pd);
    SameSlots(s, t, pd);
    SameTranslations(s, t, pd, USER_SLOTS);
    hide DirOk, Pte, PageBytes, WritePage;
  }

  // ---------- The steps of the loader ----------

  /** The low twelve bits of an entry. */
  function Access(flags: word): nat {
    flags % PAGE_SIZE + (if flags % 2 == 0 then PAGE_PRESENT else 0)
  }

  lemma PteAccess(f: nat, flags: word)
    requires f < FRAME_LIMIT
    ensures PteValue(f * PAGE_SIZE, flags) % PAGE_SIZE == Access(flags)
  {
    FrameAddress(f);
  }

  lemma LoadingCanEdit(s0: PhysState, s: PhysState, cr3: nat, pd: nat, slot: nat)
    requires Loading(s0, s, cr3, pd) && slot < USER_SLOTS
    ensures CanEdit(s, cr3, pd, slot)
  {
  }

  /** Maps a taken frame at a user page: one call of `foreign_map_page`. */
  method MapTaken(m: Machine, pdPhys: word, phys: word, virt: word, flags: word, ghost s0: PhysState) returns (r: Outcome<()>)
    requires flags / PAGE_USER % 2 == 1
    requires m.frames.Valid() && pdPhys % PAGE_SIZE == 0 && virt / PAGE_SIZE < USER_PAGES && phys % PAGE_SIZE == 0
    requires Loading(s0, m.Phys(), m.cr3, Frame(pdPhys))
    requires Frame(phys) in Taken(s0, m.Phys()) && Unused(m.Phys(), Frame(pdPhys), Frame(phys))
    modifies m`mem, m.frames.bitmap
    ensures r.Panic? ==> m.frames.Free() == {}
    ensures r.Done? ==> Loading(s0, m.Phys(), m.cr3, Frame(pdPhys))
    ensures r.Done? ==> CanMap(old(m.Phys()), Frame(pdPhys), virt / PAGE_SIZE)
                        && m.Phys() == Map(old(m.Phys()), Frame(pdPhys), virt / PAGE_SIZE, phys, flags)
    ensures r.Done? ==> OnlyAt(m.Phys(), Frame(pdPhys), virt / PAGE_SIZE, Frame(phys))
    ensures r.Done? ==> Pte(m.mem, Frame(pdPhys), virt / PAGE_SIZE) % PAGE_SIZE == Access(flags)
    ensures r.Done? ==> forall other: nat | other < USER_PAGES && other != virt / PAGE_SIZE ::
                View(m.mem, Frame(pdPhys), other) == old(View(m.mem, Frame(pdPhys), other))
  {
    hide Loading, Map, OnlyAt, View, CanEdit, Unused, Pte, Frame, PteValue, Access, Taken, DirOk;
    ghost var s, pd, page, f := m.Phys(), Frame(pdPhys), virt / PAGE_SIZE, Frame(phys);
    FrameBase(phys);
    LoadingDir(s0, s, m.cr3, pd);
    LoadingCanEdit(s0, s, m.cr3, pd, page / 1024);
    r := ForeignMapPage(m, pdPhys, phys, virt, flags);
    if r.Done? {
      MapKeepsLoading(s0, s, m.cr3, pd, page, f, flags);
      PteAccess(f, flags);
    }
  }

  lemma LoadingDir(s0: PhysState, s: PhysState, cr3: nat, pd: nat)
    requires Loading(s0, s, cr3, pd)
    ensures DirOk(s, pd)
  {
  }

  lemma FrameBase(phys: word)
    requires phys % PAGE_SIZE == 0
    ensures phys == Frame(phys) * PAGE_SIZE
  {
  }

  /** Another frame taken but not used yet stays unused. */
  lemma UnusedStays(s0: PhysState, s: PhysState, pd: nat, page: nat, phys: word, flags: word, g: nat)
    requires CanMap(s, pd, page) && page < USER_PAGES
    requires g in Taken(s0, s) && Unused(s, pd, g) && g != Frame(phys)
    ensures g in Taken(s0, Map(s, pd, page, phys, flags)) && Unused(Map(s, pd, page, phys, flags), pd, g)
  {
    var t := Map(s, pd, page, phys, flags);
    MapFrames(s, pd, page, phys, flags);
    forall slot | 0 <= slot < USER_SLOTS && HasTable(t, pd, slot)
      ensures Table(t, pd, slot) != g
    {
      assert slot == page / 1024 || (HasTable(s, pd, slot) && Table(t, pd, slot) == Table(s, pd, slot));
    }
    forall other: nat | other < USER_PAGES && Present(Pte(t.mem, pd, other))
      ensures Frame(Pte(t.mem, pd, other)) != g
    {
      MapChangesOnePage(s, pd, page, phys, flags, other);
    }
  }

  /** A frame behind one page stays behind that page alone when another page is mapped elsewhere. */
  lemma OnlyAtStays(s: PhysState, pd: nat, page: nat, phys: word, flags: word, other: nat, g: nat)
    requires CanMap(s, pd, page) && page < USER_PAGES
    requires other < USER_PAGES && other != page && g != Frame(phys) && OnlyAt(s, pd, other, g)
    ensures OnlyAt(Map(s, pd, page, phys, flags), pd, other, g)
  {
    forall k: nat | k < USER_PAGES
      ensures Pte(Map(s, pd, page, phys, flags).mem, pd, k) == if k == page then PteValue(phys, flags) else Pte(s.mem, pd, k)
    {
      MapChangesOnePage(s, pd, page, phys, flags, k);
    }
    hide Map, CanMap, Pte, PteValue;
  }

  /** Takes a frame: `pmm_alloc_frame`. */
  method TakeOne(m: Machine, ghost pd: nat, ghost s0: PhysState) returns (r: Outcome<word>)
    requires m.frames.Valid() && Loading(s0, m.Phys(), m.cr3, pd)
    modifies m.frames.bitmap
    ensures r.Panic? ==> m.frames.Free() == {}
    ensures r.Done? ==> Loading(s0, m.Phys(), m.cr3, pd) && m.frames.Free() < old(m.frames.Free())
    ensures r.Done? ==> r.value % PAGE_SIZE == 0 && Frame(r.value) != m.cr3
    ensures r.Done? ==> Frame(r.value) in old(m.frames.Free()) && Frame(r.value) !in m.frames.Free()
    ensures r.Done? ==> Frame(r.value) in Taken(s0, m.Phys()) && Unused(m.Phys(), pd, Frame(r.value))
  {
    hide Loading, Unused, Frame;
    r := m.frames.AllocFrame();
    if r.Done? {
      ghost var f := Lowest(old(m.frames.Free()));
      TakeFrame(s0, old(m.Phys()), m.cr3, pd, f);
      FrameAddress(f);
      TakenNotCurrent(s0, m.Phys(), m.cr3, pd, f);
    }
  }

  /** Takes a frame and maps it at a user page. */
  method MapFresh(m: Machine, pdPhys: word, virt: word, flags: word, ghost s0: PhysState)
    returns (r: Outcome<word>)
    requires flags / PAGE_USER % 2 == 1
    requires m.frames.Valid() && pdPhys % PAGE_SIZE == 0 && virt / PAGE_SIZE < USER_PAGES
    requires Loading(s0, m.Phys(), m.cr3, Frame(pdPhys))
    modifies m`mem, m.frames.bitmap
    ensures r.Panic? ==> m.frames.Free() == {}
    ensures r.Done? ==> Loading(s0, m.Phys(), m.cr3, Frame(pdPhys))
    ensures r.Done? ==> r.value % PAGE_SIZE == 0 && Frame(r.value) != m.cr3
    ensures r.Done? ==> OnlyAt(m.Phys(), Frame(pdPhys), virt / PAGE_SIZE, Frame(r.value))
    ensures r.Done? ==> Pte(m.mem, Frame(pdPhys), virt / PAGE_SIZE) % PAGE_SIZE == Access(flags)
    ensures r.Done? ==> forall other: nat | other < USER_PAGES && other != virt / PAGE_SIZE ::
                View(m.mem, Frame(pdPhys), other) == old(View(m.mem, Frame(pdPhys), other))
  {
    hide Loading, Map, OnlyAt, View, Unused, Pte, Frame, Access, Taken, CanMap;
    var phys := TakeOne(m, Frame(pdPhys), s0);
    if phys.Panic? {
      return Panic;
    }
    var mapped := MapTaken(m, pdPhys, phys.value, virt, flags, s0);
    return if mapped.Panic? then Panic else Done(phys.value);
  }

  lemma TakenNotCurrent(s0: PhysState, s: PhysState, cr3: nat, pd: nat, f: nat)
    requires Loading(s0, s, cr3, pd) && f in Taken(s0, s)
    ensures f != cr3
  {
  }

  /** Copies bytes into a frame that one user page shows. */
  method FillFrame(m: Machine, phys: word, off: nat, src: seq<byte>, ghost pd: nat, ghost page: nat, ghost s0: PhysState)
    requires m.frames.Valid() && phys % PAGE_SIZE == 0 && Frame(phys) != m.cr3 && off + |src| <= PAGE_SIZE
    requires Loading(s0, m.Phys(), m.cr3, pd) && page < USER_PAGES && OnlyAt(m.Phys(), pd, page, Frame(phys))
    modifies m`mem
    ensures Loading(s0, m.Phys(), m.cr3, pd) && OnlyAt(m.Phys(), pd, page, Frame(phys))
    ensures SameUserPtes(m.mem, old(m.mem), pd)
    ensures Resident?(old(View(m.mem, pd, page)), View(m.mem, pd, page), off, src)
    ensures forall other: nat | other < USER_PAGES && other != page :: View(m.mem, pd, other) == old(View(m.mem, pd, other))
  {
    ghost var s, f := m.Phys(), Frame(phys);
    ghost var bytes := Splice(PageBytes(m.mem[f]), off, src);
    LoadingWindows(s0, s, m.cr3, pd);
    ViewOf(s, pd, page, f);
    hide Loading, OnlyAt, Pte, Frame, Splice, PageBytes, PageOfBytes, SameUserPtes;
    CopyToPhys(m, phys, off, src);
    FillKeepsLoading(s0, s, m.cr3, pd, page, f, PageOfBytes(bytes));
    PageBytesRoundTrip(bytes);
  }

  /** The page keeps its access bits and has `src` copied over its bytes at `off`. */
  predicate Resident?(before: UserPage, after: UserPage, off: nat, src: seq<byte>) {
    && before.Resident? && after.Resident? && after.access == before.access
    && off + |src| <= |before.bytes| && after.bytes == Splice(before.bytes, off, src)
  }

  lemma LoadingWindows(s0: PhysState, s: PhysState, cr3: nat, pd: nat)
    requires Loading(s0, s, cr3, pd)
    ensures SelfMapped(s.mem, cr3) && WindowsClear(s.mem, cr3) && pd < FRAME_LIMIT
  {
  }

  lemma ViewOf(s: PhysState, pd: nat, page: nat, f: nat)
    requires pd < FRAME_LIMIT && page < USER_PAGES && OnlyAt(s, pd, page, f) && f < FRAME_LIMIT
    ensures View(s.mem, pd, page) == Resident(PageBytes(s.mem[f]), Pte(s.mem, pd, page) % PAGE_SIZE)
  {
  }

  lemma SegmentPageIsZero(seg: Phdr, f: File, page: nat)
    requires (page + 1) * PAGE_SIZE <= seg.vaddr || seg.FileEnd() <= page * PAGE_SIZE
    ensures SegmentPage(seg, f, page) == Zeros(PAGE_SIZE)
  {
    forall k | 0 <= k < PAGE_SIZE
      ensures SegmentPage(seg, f, page)[k] == 0
    {
      assert SegmentPage(seg, f, page)[k] == SegmentByte(seg, f, page * PAGE_SIZE + k);
    }
  }

  /** The clamped copy of one page is the byte-wise image of that page. */
  lemma SegmentPageIsCopy(seg: Phdr, f: File, page: nat, copyStart: nat, copyEnd: nat)
    requires seg.Inside(f)
    requires seg.vaddr < (page + 1) * PAGE_SIZE && page * PAGE_SIZE < seg.FileEnd() && seg.vaddr <= seg.FileEnd()
    requires copyStart == if page * PAGE_SIZE < seg.vaddr then seg.vaddr else page * PAGE_SIZE
    requires copyEnd == if seg.FileEnd() < (page + 1) * PAGE_SIZE then seg.FileEnd() else (page + 1) * PAGE_SIZE
    ensures page * PAGE_SIZE <= copyStart <= copyEnd <= (page + 1) * PAGE_SIZE
    ensures seg.offset + (copyEnd - seg.vaddr) <= |f|
    ensures Splice(Zeros(PAGE_SIZE), copyStart - page * PAGE_SIZE,
                   f[seg.offset + (copyStart - seg.vaddr)..seg.offset + (copyEnd - seg.vaddr)])
            == SegmentPage(seg, f, page)
  {
    var at := copyStart - page * PAGE_SIZE;
    var src := f[seg.offset + (copyStart - seg.vaddr)..seg.offset + (copyEnd - seg.vaddr)];
    forall k | 0 <= k < PAGE_SIZE
      ensures Splice(Zeros(PAGE_SIZE), at, src)[k] == SegmentByte(seg, f, page * PAGE_SIZE + k)
    {
    }
  }

  // ---------- One segment ----------

  /** What a page shows while `seg` is being loaded and pages below address `limit` are done. */
  function PartImage(segs: seq<Phdr>, f: File, seg: Phdr, limit: nat, page: nat): UserPage
  {
    if seg.Covers(page) && page * PAGE_SIZE < limit then Resident(SegmentPage(seg, f, page), SegmentAccess(seg))
    else Image(segs, f, page)
  }

  predicate ShowsPart(m: Memory, pd: nat, segs: seq<Phdr>, f: File, seg: Phdr, limit: nat)
    requires pd < FRAME_LIMIT
  {
    forall page: nat | page < USER_PAGES :: View(m, pd, page) == PartImage(segs, f, seg, limit, page)
  }

  predicate ShowsImage(m: Memory, pd: nat, segs: seq<Phdr>, f: File)
    requires pd < FRAME_LIMIT
  {
    forall page: nat | page < USER_PAGES :: View(m, pd, page) == Image(segs, f, page)
  }

  lemma StartOfSegment(m: Memory, pd: nat, segs: seq<Phdr>, f: File, seg: Phdr)
    requires pd < FRAME_LIMIT && ShowsImage(m, pd, segs, f)
    ensures ShowsPart(m, pd, segs, f, seg, PageBase(seg.vaddr))
  {
    hide View, Image, SegmentPage;
  }

  lemma EndOfSegment(m: Memory, pd: nat, segs: seq<Phdr>, f: File, seg: Phdr, limit: nat)
    requires pd < FRAME_LIMIT
    requires ShowsPart(m, pd, segs, f, seg, limit) && seg.MemEnd() <= limit
    ensures ShowsImage(m, pd, segs + [seg], f)
  {
    hide View, SegmentPage;
    assert (segs + [seg])[..|segs|] == segs;
  }

  /** One more page of the segment is in place. */
  lemma NextPage(before: Memory, after: Memory, pd: nat, segs: seq<Phdr>, f: File, seg: Phdr, page: nat)
    requires pd < FRAME_LIMIT
    requires ShowsPart(before, pd, segs, f, seg, page * PAGE_SIZE) && seg.Covers(page) && page < USER_PAGES
    requires forall other: nat | other < USER_PAGES && other != page :: View(after, pd, other) == View(before, pd, other)
    requires View(after, pd, page) == Resident(SegmentPage(seg, f, page), SegmentAccess(seg))
    ensures ShowsPart(after, pd, segs, f, seg, (page + 1) * PAGE_SIZE)
  {
    hide View, Image, SegmentPage;
    assert ShowsPart(after, pd, segs, f, seg, (page + 1) * PAGE_SIZE) by {
      forall other: nat | other < USER_PAGES
        ensures View(after, pd, other) == PartImage(segs, f, seg, (page + 1) * PAGE_SIZE, other)
      {
      }
    }
  }

  /** Clears the frame behind one user page. */
  method ZeroFrame(m: Machine, phys: word, ghost pd: nat, ghost page: nat, ghost s0: PhysState)
    requires m.frames.Valid() && phys % PAGE_SIZE == 0 && Frame(phys) != m.cr3
    requires Loading(s0, m.Phys(), m.cr3, pd) && page < USER_PAGES && OnlyAt(m.Phys(), pd, page, Frame(phys))
    modifies m`mem
    ensures Loading(s0, m.Phys(), m.cr3, pd) && OnlyAt(m.Phys(), pd, page, Frame(phys))
    ensures SameUserPtes(m.mem, old(m.mem), pd)
    ensures View(m.mem, pd, page) == Resident(Zeros(PAGE_SIZE), old(Pte(m.mem, pd, page)) % PAGE_SIZE)
    ensures forall other: nat | other < USER_PAGES && other != page ::
              View(m.mem, pd, other) == old(View(m.mem, pd, other))
  {
    hide Loading, OnlyAt, Pte, Frame, PageBytes, SameUserPtes;
    LoadingWindows(s0, m.Phys(), m.cr3, pd);
    ViewOf(m.Phys(), pd, page, Frame(phys));
    hide View;
    ghost var before := View(m.mem, pd, page);
    FillFrame(m, phys, 0, Zeros(PAGE_SIZE), pd, page, s0);
    assert Splice(before.bytes, 0, Zeros(PAGE_SIZE)) == Zeros(PAGE_SIZE);
  }

  /** Clears the frame and copies in the part of the file that falls in the page. */
  method FillPage(m: Machine, f: File, seg: Phdr, phys: word, virt: word, ghost pd: nat, ghost s0: PhysState)
    requires m.frames.Valid() && phys % PAGE_SIZE == 0 && Frame(phys) != m.cr3
    requires virt % PAGE_SIZE == 0 && virt / PAGE_SIZE < USER_PAGES && seg.Inside(f) && seg.Acceptable()
    requires Loading(s0, m.Phys(), m.cr3, pd) && OnlyAt(m.Phys(), pd, virt / PAGE_SIZE, Frame(phys))
    modifies m`mem
    ensures Loading(s0, m.Phys(), m.cr3, pd)
    ensures View(m.mem, pd, virt / PAGE_SIZE)
            == Resident(SegmentPage(seg, f, virt / PAGE_SIZE), old(Pte(m.mem, pd, virt / PAGE_SIZE)) % PAGE_SIZE)
    ensures forall other: nat | other < USER_PAGES && other != virt / PAGE_SIZE ::
              View(m.mem, pd, other) == old(View(m.mem, pd, other))
  {
    LoadingWindows(s0, m.Phys(), m.cr3, pd);
    hide Loading, OnlyAt, Pte, Frame, SegmentPage, PageBytes, SameUserPtes, View;
    var pageStart, pageEnd := virt, virt + PAGE_SIZE;
    ZeroFrame(m, phys, pd, virt / PAGE_SIZE, s0);
    if pageEnd <= seg.vaddr || pageStart >= seg.FileEnd() {
      SegmentPageIsZero(seg, f, virt / PAGE_SIZE);
    } else {
      CopyPart(m, f, seg, phys, virt, pd, s0);
    }
  }

  /** The copy into a page that the file reaches, clamped to the page and to the file's part of the segment. */
  method CopyPart(m: Machine, f: File, seg: Phdr, phys: word, virt: word, ghost pd: nat, ghost s0: PhysState)
    requires m.frames.Valid() && phys % PAGE_SIZE == 0 && Frame(phys) != m.cr3
    requires virt % PAGE_SIZE == 0 && virt / PAGE_SIZE < USER_PAGES && seg.Inside(f) && seg.Acceptable()
    requires seg.vaddr < virt + PAGE_SIZE && virt < seg.FileEnd()
    requires Loading(s0, m.Phys(), m.cr3, pd) && OnlyAt(m.Phys(), pd, virt / PAGE_SIZE, Frame(phys)) && pd < FRAME_LIMIT
    requires var v := View(m.mem, pd, virt / PAGE_SIZE); v.Resident? && v.bytes == Zeros(PAGE_SIZE)
    modifies m`mem
    ensures Loading(s0, m.Phys(), m.cr3, pd)
    ensures View(m.mem, pd, virt / PAGE_SIZE)
            == Resident(SegmentPage(seg, f, virt / PAGE_SIZE), old(View(m.mem, pd, virt / PAGE_SIZE)).access)
    ensures forall other: nat | other < USER_PAGES && other != virt / PAGE_SIZE ::
              View(m.mem, pd, other) == old(View(m.mem, pd, other))
  {
    hide Loading, OnlyAt, Pte, Frame, SegmentPage, PageBytes, SameUserPtes, View;
    var pageStart, pageEnd := virt, virt + PAGE_SIZE;
    var fileStart, fileEnd := seg.vaddr, seg.FileEnd();
    var copyStart := if pageStart < fileStart then fileStart else pageStart;
    var copyEnd := if pageEnd > fileEnd then fileEnd else pageEnd;
    FileEndAfterStart(seg, f);
    SegmentPageIsCopy(seg, f, virt / PAGE_SIZE, copyStart, copyEnd);
    var offsetInFile := seg.offset + (copyStart - fileStart);
    var part := f[offsetInFile..offsetInFile + (copyEnd - copyStart)];
    FillFrame(m, phys, copyStart - pageStart, part, pd, virt / PAGE_SIZE, s0);
  }

  /** A file is too short for the part of a segment it fills to wrap. */
  lemma FileEndAfterStart(seg: Phdr, f: File)
    requires seg.Inside(f) && seg.Acceptable()
    ensures seg.vaddr <= seg.FileEnd()
  {
  }

  /** The body of the page loop: map a fresh frame, clear it, copy the part of the file that falls in it. */
  method LoadPage(m: Machine, f: File, seg: Phdr, pdPhys: word, virt: word, flags: word, ghost s0: PhysState)
    returns (r: Outcome<()>)
    requires m.frames.Valid() && pdPhys % PAGE_SIZE == 0 && virt % PAGE_SIZE == 0 && virt / PAGE_SIZE < USER_PAGES
    requires Loading(s0, m.Phys(), m.cr3, Frame(pdPhys)) && seg.Inside(f) && seg.Acceptable()
    requires Access(flags) == SegmentAccess(seg) && flags / PAGE_USER % 2 == 1
    modifies m`mem, m.frames.bitmap
    ensures r.Panic? ==> m.frames.Free() == {}
    ensures r.Done? ==> Loading(s0, m.Phys(), m.cr3, Frame(pdPhys))
    ensures r.Done? ==> View(m.mem, Frame(pdPhys), virt / PAGE_SIZE)
                        == Resident(SegmentPage(seg, f, virt / PAGE_SIZE), SegmentAccess(seg))
    ensures r.Done? ==> forall other: nat | other < USER_PAGES && other != virt / PAGE_SIZE ::
                View(m.mem, Frame(pdPhys), other) == old(View(m.mem, Frame(pdPhys), other))
  {
    hide Loading, OnlyAt, Pte, Frame, Access, SegmentAccess, SegmentPage, View;
    var phys := MapFresh(m, pdPhys, virt, flags, s0);
    if phys.Panic? {
      return Panic;
    }
    FillPage(m, f, seg, phys.value, virt, Frame(pdPhys), s0);
    return Done(());
  }

  method LoadSegment(m: Machine, f: File, seg: Phdr, pdPhys: word, ghost segs: seq<Phdr>, ghost s0: PhysState)
    returns (r: Outcome<()>)
    requires m.frames.Valid() && pdPhys % PAGE_SIZE == 0 && Loading(s0, m.Phys(), m.cr3, Frame(pdPhys))
    requires seg.Inside(f) && seg.Acceptable() && ShowsImage(m.mem, Frame(pdPhys), segs, f)
    modifies m`mem, m.frames.bitmap
    ensures r.Panic? ==> m.frames.Free() == {}
    ensures r.Done? ==> Loading(s0, m.Phys(), m.cr3, Frame(pdPhys))
    ensures r.Done? ==> ShowsImage(m.mem, Frame(pdPhys), segs + [seg], f)
  {
    hide Loading, ShowsPart, ShowsImage, View, Frame, SegmentPage;
    ghost var pd := Frame(pdPhys);
    var flags := PAGE_USER;
    if seg.flags / PF_W % 2 == 1 {
      flags := flags + PAGE_RW;
    }
    var virt := PageBase(seg.vaddr);
    var virtEnd := seg.MemEnd();
    StartOfSegment(m.mem, pd, segs, f, seg);
    while virt < virtEnd
      invariant virt % PAGE_SIZE == 0 && seg.vaddr / PAGE_SIZE <= virt / PAGE_SIZE
      invariant m.frames.Valid() && Loading(s0, m.Phys(), m.cr3, pd)
      invariant ShowsPart(m.mem, pd, segs, f, seg, virt)
    {
      ghost var before := m.mem;
      var done := LoadPage(m, f, seg, pdPhys, virt, flags, s0);
      if done.Panic? {
        return Panic;
      }
      NextPage(before, m.mem, pd, segs, f, seg, virt / PAGE_SIZE);
      virt := virt + PAGE_SIZE;
    }
    EndOfSegment(m.mem, pd, segs, f, seg, virt);
    return Done(());
  }

  // ---------- The whole program ----------

  datatype Loaded = Loaded(entry: word, heapStart: word, esp: word)

  /** A directory ready to be loaded: well formed, not the current one, nothing in the user half. */
  predicate NewSpace(s: PhysState, cr3: nat, pd: nat) {
    && DirOk(s, pd) && CanEditFrom(s, cr3) && pd != cr3
    && forall slot | 0 <= slot < USER_SLOTS :: !HasTable(s, pd, slot)
  }

  lemma StartOfLoad(s: PhysState, cr3: nat, pd: nat, f: File)
    requires NewSpace(s, cr3, pd)
    ensures Loading(s, s, cr3, pd) && ShowsImage(s.mem, pd, [], f)
  {
    forall page: nat | page < USER_PAGES
      ensures !Present(Pte(s.mem, pd, page))
    {
      assert !HasTable(s, pd, page / 1024);
    }
  }

  /** The user half after loading: the two stack pages, and elsewhere the image of the segments. */
  predicate ShowsProgram(m: Memory, pd: nat, segs: seq<Phdr>, f: File, args: Args)
    requires pd < FRAME_LIMIT
  {
    && View(m, pd, STACK_TOP_PAGE) == Resident(ArgumentPage(args), Access(PAGE_PRESENT + PAGE_RW + PAGE_USER))
    && View(m, pd, STACK_LOW_PAGE) == Resident(Zeros(PAGE_SIZE), Access(PAGE_PRESENT + PAGE_RW + PAGE_USER))
    && forall page: nat | page < USER_PAGES && page != STACK_TOP_PAGE && page != STACK_LOW_PAGE ::
         View(m, pd, page) == Image(segs, f, page)
  }

  lemma OnlyAtSame(s: PhysState, t: PhysState, pd: nat, page: nat, f: nat)
    requires pd < FRAME_LIMIT && page < USER_PAGES && OnlyAt(s, pd, page, f) && SameUserPtes(t.mem, s.mem, pd)
    ensures OnlyAt(t, pd, page, f)
  {
    hide Pte;
  }

  /** Clears both stack pages and copies the argument block into the upper one. */
  method FillStack(m: Machine, phys0: word, phys1: word, ghost pd: nat, args: Args, ghost s0: PhysState)
    returns (esp: word)
    requires m.frames.Valid() && phys0 % PAGE_SIZE == 0 && phys1 % PAGE_SIZE == 0
    requires Frame(phys0) != m.cr3 && Frame(phys1) != m.cr3 && Loading(s0, m.Phys(), m.cr3, pd)
    requires OnlyAt(m.Phys(), pd, STACK_LOW_PAGE, Frame(phys0)) && OnlyAt(m.Phys(), pd, STACK_TOP_PAGE, Frame(phys1))
    modifies m`mem
    ensures Loading(s0, m.Phys(), m.cr3, pd) && esp == STACK_PAGE + InitialOffset(args)
    ensures View(m.mem, pd, STACK_LOW_PAGE) == Resident(Zeros(PAGE_SIZE), old(Pte(m.mem, pd, STACK_LOW_PAGE)) % PAGE_SIZE)
    ensures View(m.mem, pd, STACK_TOP_PAGE) == Resident(ArgumentPage(args), old(Pte(m.mem, pd, STACK_TOP_PAGE)) % PAGE_SIZE)
    ensures forall page: nat | page < USER_PAGES && page != STACK_LOW_PAGE && page != STACK_TOP_PAGE ::
              View(m.mem, pd, page) == old(View(m.mem, pd, page))
  {
    ghost var s := m.Phys();
    LoadingWindows(s0, s, m.cr3, pd);
    hide Loading, OnlyAt, Pte, Frame, PageBytes, ArgumentPage, InitialOffset, HoldsArgs, Fits, SameUserPtes, View;
    ZeroFrame(m, phys0, pd, STACK_LOW_PAGE, s0);
    SameEntry(m.mem, old(m.mem), pd, STACK_TOP_PAGE);
    OnlyAtSame(s, m.Phys(), pd, STACK_TOP_PAGE, Frame(phys1));
    ZeroFrame(m, phys1, pd, STACK_TOP_PAGE, s0);
    var page;
    page, esp := BuildStack(args);
    assert Splice(Zeros(PAGE_SIZE), 0, page[..]) == page[..];
    FillFrame(m, phys1, 0, page[..], pd, STACK_TOP_PAGE, s0);
  }

  lemma SameEntry(after: Memory, before: Memory, pd: nat, page: nat)
    requires pd < FRAME_LIMIT && page < USER_PAGES && SameUserPtes(after, before, pd)
    ensures Pte(after, pd, page) == Pte(before, pd, page)
  {
  }

  /** Maps the stack pages, clears them and copies the argument block into the upper one. */
  method LoadStack(m: Machine, pdPhys: word, args: Args, ghost f: File, ghost segs: seq<Phdr>, ghost s0: PhysState)
    returns (r: Outcome<word>)
    requires m.frames.Valid() && pdPhys % PAGE_SIZE == 0 && Loading(s0, m.Phys(), m.cr3, Frame(pdPhys))
    requires ShowsImage(m.mem, Frame(pdPhys), segs, f)
    modifies m`mem, m.frames.bitmap
    ensures r.Panic? ==> m.frames.Free() == {}
    ensures r.Done? ==> Loading(s0, m.Phys(), m.cr3, Frame(pdPhys)) && r.value == STACK_PAGE + InitialOffset(args)
    ensures r.Done? ==> ShowsProgram(m.mem, Frame(pdPhys), segs, f, args)
  {
    hide Loading, OnlyAt, Pte, Frame, PageBytes, ArgumentPage, InitialOffset, HoldsArgs, Fits, Unused, Taken, Map, CanMap;
    ghost var pd := Frame(pdPhys);
    var flags := PAGE_PRESENT + PAGE_RW + PAGE_USER;
    var phys0 := TakeOne(m, pd, s0);
    if phys0.Panic? {
      return Panic;
    }
    ghost var s1 := m.Phys();
    var phys1 := TakeOne(m, pd, s0);
    if phys1.Panic? {
      return Panic;
    }
    StillTaken(s0, s1, m.Phys(), pd, Frame(phys0.value));
    ghost var s2 := m.Phys();
    var mapped := MapTaken(m, pdPhys, phys0.value, USER_STACK_TOP - 2 * PAGE_SIZE, flags, s0);
    if mapped.Panic? {
      return Panic;
    }
    UnusedStays(s0, s2, pd, STACK_LOW_PAGE, phys0.value, flags, Frame(phys1.value));
    ghost var s3 := m.Phys();
    mapped := MapTaken(m, pdPhys, phys1.value, USER_STACK_TOP - PAGE_SIZE, flags, s0);
    if mapped.Panic? {
      return Panic;
    }
    OnlyAtStays(s3, pd, STACK_TOP_PAGE, phys1.value, flags, STACK_LOW_PAGE, Frame(phys0.value));
    LowPageStays(s3, pd, phys1.value, flags);
    hide Image;
    var esp := FillStack(m, phys0.value, phys1.value, pd, args, s0);
    return Done(esp);
  }

  lemma LowPageStays(s: PhysState, pd: nat, phys: word, flags: word)
    requires CanMap(s, pd, STACK_TOP_PAGE)
    ensures Pte(Map(s, pd, STACK_TOP_PAGE, phys, flags).mem, pd, STACK_LOW_PAGE) == Pte(s.mem, pd, STACK_LOW_PAGE)
  {
    MapChangesOnePage(s, pd, STACK_TOP_PAGE, phys, flags, STACK_LOW_PAGE);
  }

  lemma StillTaken(s0: PhysState, s: PhysState, t: PhysState, pd: nat, f: nat)
    requires pd < FRAME_LIMIT && f in Taken(s0, s) && Unused(s, pd, f) && t.mem == s.mem && t.free <= s.free
    ensures f in Taken(s0, t) && Unused(t, pd, f)
  {
    SameSlots(s, t, pd);
  }

  /** Loads an executable into a new address space. */
  method Load(m: Machine, pdPhys: word, f: File, args: Args)
    returns (r: Outcome<Loaded>)
    requires m.frames.Valid() && pdPhys % PAGE_SIZE == 0 && NewSpace(m.Phys(), m.cr3, Frame(pdPhys))
    requires Readable(f)
    modifies m`mem, m.frames.bitmap
    ensures r.Done? ==> GoodIdent(f) && AllAcceptable(Segments(f))
    ensures r.Panic? && GoodIdent(f) && AllAcceptable(Segments(f)) ==> m.frames.Free() == {}
    ensures r.Done? ==> ShowsProgram(m.mem, Frame(pdPhys), Segments(f), f, args)
    ensures r.Done? ==> r.value.esp == STACK_PAGE + InitialOffset(args)
    ensures r.Done? ==> Loading(old(m.Phys()), m.Phys(), m.cr3, Frame(pdPhys))
    ensures r.Done? ==> r.value.entry == Entry(f)
    ensures r.Done? ==> LeastBoundary(r.value.heapStart, Headers(f))
  {
    hide Loading, NewSpace, ShowsImage, ShowsProgram, ArgumentPage, InitialOffset, Fits, Frame, FileWord, FileHalf;
    ghost var s0, pd, phs := m.Phys(), Frame(pdPhys), Headers(f);
    if FileWord(f, 0) != ELF_MAGIC {
      return Panic;
    }
    if FileHalf(f, 16) != ET_EXEC {
      return Panic;
    }
    StartOfLoad(s0, m.cr3, pd, f);
    var highest: word := 0;
    for i := 0 to PhdrCount(f)
      invariant m.frames.Valid() && Loading(s0, m.Phys(), m.cr3, pd)
      invariant ShowsImage(m.mem, pd, Loadable(phs[..i]), f)
      invariant AllAcceptable(Loadable(phs[..i])) && highest == Highest(Loadable(phs[..i]))
    {
      var ph := PhdrAt(f, PhdrOffset(f, i));
      assert ph == phs[i];
      hide PhdrAt, PhdrOffset, Headers;
      LoadableNext(phs, i);
      if ph.kind == PT_LOAD {
        LoadableMember(phs, i);
        HighestOf(Loadable(phs[..i]), ph);
        if ph.MemEnd() > highest {
          highest := ph.MemEnd();
        }
        if ph.vaddr >= KERNEL_VIRT_BASE || ph.MemEnd() > USER_STACK_TOP {
          return Panic;
        }
        var done := LoadSegment(m, f, ph, pdPhys, Loadable(phs[..i]), s0);
        if done.Panic? {
          return Panic;
        }
      }
    }
    assert phs[..PhdrCount(f)] == phs;
    HeapStartIsLeast(phs);
    var esp := LoadStack(m, pdPhys, args, f, Segments(f), s0);
    if esp.Panic? {
      return Panic;
    }
    return Done(Loaded(Entry(f), PageBase(Add32(highest, PAGE_SIZE - 1)), esp.value));
  }

  lemma HighestOf(segs: seq<Phdr>, last: Phdr)
    ensures Highest(segs + [last]) == if last.MemEnd() > Highest(segs) then last.MemEnd() else Highest(segs)
  {
    assert (segs + [last])[..|segs|] == segs;
  }
}
