/** The directory the boot code leaves, and how it becomes an ordinary one. */
module Boot {
  import opened Words
  import opened Pmm
  import opened Mmu
  import opened Paging
  import opened HeapSpec
  import opened KHeap
  import opened LargeAlloc
  import opened Spaces

  /** `_start` puts one table in slots 0 and 768, `paging_init` the directory itself in the last slot. */
  predicate BootDirectory(s: PhysState, pd: nat, low: nat) {
    && FramesInRange(s) && pd < FRAME_LIMIT && pd !in s.free && Allocated(s, low) && low != pd
    && forall i | 0 <= i < 1024 ::
         s.mem[pd][i] == if i == 0 || i == 768 then low * PAGE_SIZE + PAGE_PRESENT + PAGE_RW
                         else if i == RECURSIVE_SLOT then pd * PAGE_SIZE + PAGE_PRESENT + PAGE_RW
                         else 0
  }

  /** In the boot directory two slots share a table, and no other slot does. */
  lemma BootDirectorySharesOneTable(s: PhysState, pd: nat, low: nat)
    requires BootDirectory(s, pd, low)
    ensures DirOkBut(s, pd, BOOT_SHARED) && !DirOk(s, pd)
  {
    TableEntry(low);
    TableEntry(pd);
    assert HasTable(s, pd, 0) && HasTable(s, pd, 768) && Table(s, pd, 0) == Table(s, pd, 768) == low;
    forall i | 0 <= i < TABLE_SLOTS && i != 0 && i != 768
      ensures !HasTable(s, pd, i)
    {
    }
  }

  lemma TableEntry(f: nat)
    requires f < FRAME_LIMIT
    ensures var e: word := f * PAGE_SIZE + PAGE_PRESENT + PAGE_RW; Present(e) && Frame(e) == f
  {
  }

  function WithoutIdentity(s: PhysState, pd: nat): PhysState
    requires pd < FRAME_LIMIT
  {
    State(WriteWord(s.mem, pd, 0, 0), s.free, s.total)
  }

  /** Clearing slot 0 ends the sharing and unmaps the first 4 MiB, nothing else. */
  lemma WithoutIdentityIsOk(s: PhysState, pd: nat)
    requires DirOkBut(s, pd, BOOT_SHARED)
    ensures DirOk(WithoutIdentity(s, pd), pd)
    ensures forall page: nat | 1024 <= page < TABLE_PAGES :: Pte(WithoutIdentity(s, pd).mem, pd, page) == Pte(s.mem, pd, page)
    ensures forall page: nat | page < 1024 :: page !in Mapping(WithoutIdentity(s, pd), pd)
  {
    var t := WithoutIdentity(s, pd);
    assert forall i | 0 < i < 1024 :: HasTable(t, pd, i) == HasTable(s, pd, i) && Table(t, pd, i) == Table(s, pd, i);
    forall i, j | 0 <= i < j < TABLE_SLOTS && HasTable(t, pd, i) && HasTable(t, pd, j)
      ensures Table(t, pd, i) != Table(t, pd, j)
    {
      assert i !in BOOT_SHARED || j !in BOOT_SHARED;
      assert if i !in BOOT_SHARED then OwnTable(s, pd, i) else OwnTable(s, pd, j);
    }
    forall page: nat | 1024 <= page < TABLE_PAGES
      ensures Pte(t.mem, pd, page) == Pte(s.mem, pd, page)
    {
      assert HasTable(s, pd, page / 1024) ==> Table(s, pd, page / 1024) != pd;
    }
  }

  /** `remove_identity_map` */
  method RemoveIdentityMap(m: Machine)
    requires m.frames.Valid() && DirOkBut(m.Phys(), m.cr3, BOOT_SHARED)
    modifies m`mem
    ensures m.Phys() == WithoutIdentity(old(m.Phys()), m.cr3) && DirOk(m.Phys(), m.cr3)
  {
    WithoutIdentityIsOk(m.Phys(), m.cr3);
    m.StoreWindow(RECURSIVE_SLOT, 0, 0);
  }

  const FRAMEBUFFER_PAGE: nat := 0xc0e00

  /** Present, writable, write-through and not cached. */
  const DEVICE_RW: word := PAGE_PRESENT + PAGE_RW + 0x10 + 0x08

  /** The framebuffer's pages are mapped one after another; no other page moved. */
  ghost predicate ShowsFramebuffer(before: map<nat, word>, after: map<nat, word>, phys: word, n: nat) {
    && (forall p :: p in after <==> p in before || InRun(p, FRAMEBUFFER_PAGE, n))
    && (forall p | p in before && !InRun(p, FRAMEBUFFER_PAGE, n) :: after[p] == before[p])
    && (forall p: nat | InRun(p, FRAMEBUFFER_PAGE, n) ::
          after[p] == PteValue((phys + (p - FRAMEBUFFER_PAGE) * PAGE_SIZE) % WORD_LIMIT, DEVICE_RW))
  }

  lemma FramebufferByOne(before: map<nat, word>, after: map<nat, word>, phys: word, n: nat)
    requires ShowsFramebuffer(before, after, phys, n)
    ensures var entry := PteValue((phys + n * PAGE_SIZE) % WORD_LIMIT, DEVICE_RW);
            ShowsFramebuffer(before, after[FRAMEBUFFER_PAGE + n := entry], phys, n + 1)
  {
    hide PteValue;
    assert forall p :: InRun(p, FRAMEBUFFER_PAGE, n + 1) <==> InRun(p, FRAMEBUFFER_PAGE, n) || p == FRAMEBUFFER_PAGE + n;
  }

  lemma NoFramebuffer(before: map<nat, word>, phys: word)
    ensures ShowsFramebuffer(before, before, phys, 0)
  {
  }

  /** The mapping loop of `fb_init`; boot runs it while slots 0 and 768 still share their table. */
  method MapFramebuffer(m: Machine, phys: word, pages: nat) returns (r: Outcome<()>)
    requires m.frames.Valid() && DirOkBut(m.Phys(), m.cr3, BOOT_SHARED) && FRAMEBUFFER_PAGE + pages <= TABLE_PAGES
    modifies m`mem, m.frames.bitmap
    ensures r.Panic? ==> m.frames.Free() == {}
    ensures r.Done? ==> DirOkBut(m.Phys(), m.cr3, BOOT_SHARED)
    ensures r.Done? ==> ShowsFramebuffer(old(Mapping(m.Phys(), m.cr3)), Mapping(m.Phys(), m.cr3), phys, pages)
    ensures r.Done? ==> m.frames.Free() <= old(m.frames.Free())
    ensures r.Done? && old(KernelHalfOnly(m.mem, m.cr3)) ==> KernelHalfOnly(m.mem, m.cr3)
  {
    hide DirOkBut, Mapping, ShowsFramebuffer, Map, SlotOk, PteValue, KernelHalfOnly;
    ghost var s0 := m.Phys();
    DirectoryFrame(s0, m.cr3);
    NoFramebuffer(Mapping(s0, m.cr3), phys);
    for i := 0 to pages
      invariant m.frames.Valid() && DirOkBut(m.Phys(), m.cr3, BOOT_SHARED)
      invariant ShowsFramebuffer(Mapping(s0, m.cr3), Mapping(m.Phys(), m.cr3), phys, i)
      invariant m.frames.Free() <= s0.free
      invariant KernelHalfOnly(s0.mem, m.cr3) ==> KernelHalfOnly(m.mem, m.cr3)
    {
      ghost var s := m.Phys();
      PageAddress(FRAMEBUFFER_PAGE + i);
      DirButGivesSlot(s, m.cr3, BOOT_SHARED, (FRAMEBUFFER_PAGE + i) / 1024);
      var frame := (phys + i * PAGE_SIZE) % WORD_LIMIT;
      var mapped := MapPage(m, frame, (FRAMEBUFFER_PAGE + i) * PAGE_SIZE, DEVICE_RW);
      if mapped.Panic? {
        return Panic;
      }
      MapKeepsSlots(s, m.cr3, BOOT_SHARED, FRAMEBUFFER_PAGE + i, frame, DEVICE_RW);
      MapRefines(s, m.cr3, FRAMEBUFFER_PAGE + i, frame, DEVICE_RW);
      FramebufferByOne(Mapping(s0, m.cr3), Mapping(s, m.cr3), phys, i);
      MapTakes(s, m.cr3, FRAMEBUFFER_PAGE + i, frame, DEVICE_RW);
      if KernelHalfOnly(s.mem, m.cr3) {
        MapKeepsKernelHalf(s, m.cr3, FRAMEBUFFER_PAGE + i, frame, DEVICE_RW);
      }
    }
    return Done(());
  }

  lemma MapTakes(s: PhysState, pd: nat, page: nat, phys: word, flags: word)
    requires CanMap(s, pd, page)
    ensures Map(s, pd, page, phys, flags).free <= s.free
  {
    MapFrames(s, pd, page, phys, flags);
    hide Map, CanMap;
  }

  /** The page allocator's first two calls: the back buffer and the archive. */
  method EarlyPages(m: Machine, fbPages: nat, archive: nat) returns (r: Outcome<LargeArea>)
    requires m.frames.Valid() && DirOkBut(m.Phys(), m.cr3, BOOT_SHARED)
    requires LARGE_PAGE + fbPages + archive <= TABLE_PAGES
    modifies m`mem, m.frames.bitmap
    ensures r.Panic? ==> m.frames.Free() == {}
    ensures r.Done? ==> r.value.Valid() && r.value.m == m && fresh(r.value)
    ensures r.Done? ==> r.value.base == LARGE_BASE + (fbPages + archive) * PAGE_SIZE
    ensures r.Done? ==> m.frames.Free() <= old(m.frames.Free())
    ensures r.Done? ==> Extends(old(Mapping(m.Phys(), m.cr3)), Mapping(m.Phys(), m.cr3), LARGE_PAGE, fbPages + archive,
                                old(m.frames.Free()) - m.frames.Free())
    ensures r.Done? && old(KernelHalfOnly(m.mem, m.cr3)) ==> KernelHalfOnly(m.mem, m.cr3)
  {
    hide DirOkBut, Mapping, Extends, MapsPages, KernelHalfOnly;
    ghost var s0 := m.Phys();
    DirectoryFrame(s0, m.cr3);
    var area := new LargeArea(m);
    var buffer := area.KallocPages(fbPages);
    if buffer.Panic? {
      return Panic;
    }
    ghost var s1 := m.Phys();
    PagesAfter(fbPages);
    var initrd := area.KallocPages(archive);
    if initrd.Panic? {
      return Panic;
    }
    ExtendsTwice(Mapping(s0, m.cr3), Mapping(s1, m.cr3), Mapping(m.Phys(), m.cr3), LARGE_PAGE, fbPages, archive,
                 s0.free - s1.free, s1.free - m.frames.Free());
    assert s0.free - m.frames.Free() == (s0.free - s1.free) + (s1.free - m.frames.Free());
    if KernelHalfOnly(s0.mem, m.cr3) {
      MapsPagesKeepKernelHalf(s0, m.cr3, LARGE_PAGE, fbPages, s1);
      MapsPagesKeepKernelHalf(s1, m.cr3, LARGE_PAGE + fbPages, archive, m.Phys());
    }
    return Done(area);
  }

  lemma PagesAfter(n: nat)
    ensures (LARGE_BASE + n * PAGE_SIZE) / PAGE_SIZE == LARGE_PAGE + n
  {
  }

  const HEAP_PAGE: nat := HEAP_START / PAGE_SIZE
  const HEAP_PAGES: nat := INITIAL_SIZE / PAGE_SIZE

  /** The kernel's regions by address, and the rights of device pages: 0xc0e00000, 4 MiB from 0xd0000000, and upwards
      from 0xe0000000. A framebuffer of at most 242 MiB meets none of the others. */
  lemma RegionsOfTheKernel(fbPages: nat)
    ensures FRAMEBUFFER_PAGE * PAGE_SIZE == 0xc0e0_0000 && HEAP_PAGE * PAGE_SIZE == 0xd000_0000
    ensures HEAP_PAGES * PAGE_SIZE == 0x40_0000 && LARGE_PAGE * PAGE_SIZE == 0xe000_0000 && DEVICE_RW == 0x1b
    ensures (forall p: nat :: !(InRun(p, FRAMEBUFFER_PAGE, fbPages) && (InRun(p, HEAP_PAGE, HEAP_PAGES) || p >= LARGE_PAGE)))
            <==> fbPages * PAGE_SIZE <= 242 * 0x10_0000
  {
    if fbPages > 0xf200 {
      assert InRun(HEAP_PAGE, FRAMEBUFFER_PAGE, fbPages) && InRun(HEAP_PAGE, HEAP_PAGE, HEAP_PAGES);
    }
  }

  /** Pages on frames of their own at the end of start-up: the back buffer with the archive behind it, and the heap.
      A framebuffer of more than 242 MiB would cover the heap. */
  predicate FreshAtStart(p: nat, fbPages: nat, archive: nat) {
    || InRun(p, LARGE_PAGE, fbPages + archive)
    || (InRun(p, HEAP_PAGE, HEAP_PAGES) && !InRun(p, FRAMEBUFFER_PAGE, fbPages))
  }

  /** What is mapped when start-up is over: the pages above the identity map that were mapped before, the framebuffer's
      device pages where the back buffer has not covered them, and fresh pages for heap, back buffer and archive. */
  ghost predicate MappedAtStart(before: map<nat, word>, after: map<nat, word>, phys: word, fbPages: nat, archive: nat,
                                taken: set<nat>)
  {
    && (forall p: nat :: p in after <==>
          p >= 1024 && (p in before || InRun(p, FRAMEBUFFER_PAGE, fbPages) || FreshAtStart(p, fbPages, archive)))
    && (forall p: nat | p in after && !InRun(p, FRAMEBUFFER_PAGE, fbPages) && !FreshAtStart(p, fbPages, archive) ::
          after[p] == before[p])
    && (forall p: nat | InRun(p, FRAMEBUFFER_PAGE, fbPages) && !InRun(p, LARGE_PAGE, fbPages + archive) ::
          after[p] == PteValue((phys + (p - FRAMEBUFFER_PAGE) * PAGE_SIZE) % WORD_LIMIT, DEVICE_RW))
    && (forall p: nat | FreshAtStart(p, fbPages, archive) :: FreshEntry(after[p], taken))
    && (forall p: nat, q: nat | FreshAtStart(p, fbPages, archive) && FreshAtStart(q, fbPages, archive) && p != q ::
          Frame(after[p]) != Frame(after[q]))
  }

  /** The steps of start-up put together, each on the mapping that the last one left. */
  lemma StartMapping(m0: map<nat, word>, m1: map<nat, word>, m2: map<nat, word>, m3: map<nat, word>, m4: map<nat, word>,
                     phys: word, fbPages: nat, archive: nat, forHeap: set<nat>, forLarge: set<nat>, taken: set<nat>)
    requires Extends(m0, m1, HEAP_PAGE, HEAP_PAGES, forHeap) && ShowsFramebuffer(m1, m2, phys, fbPages)
    requires Extends(m2, m3, LARGE_PAGE, fbPages + archive, forLarge) && OnlyAbove(m3, m4)
    requires forHeap !! forLarge && forHeap <= taken && forLarge <= taken
    ensures MappedAtStart(m0, m4, phys, fbPages, archive, taken)
  {
    hide FreshEntry, PteValue, Frame;
    forall p: nat
      ensures p in m4 <==>
                p >= 1024 && (p in m0 || InRun(p, FRAMEBUFFER_PAGE, fbPages) || FreshAtStart(p, fbPages, archive))
    {
      assert p in m1 <==> p in m0 || InRun(p, HEAP_PAGE, HEAP_PAGES);
      assert p in m2 <==> p in m1 || InRun(p, FRAMEBUFFER_PAGE, fbPages);
      assert p in m3 <==> p in m2 || InRun(p, LARGE_PAGE, fbPages + archive);
    }
    forall p: nat | FreshAtStart(p, fbPages, archive)
      ensures FreshEntry(m4[p], if InRun(p, LARGE_PAGE, fbPages + archive) then forLarge else forHeap)
      ensures FreshEntry(m4[p], taken)
    {
      FreshInMore(m4[p], if InRun(p, LARGE_PAGE, fbPages + archive) then forLarge else forHeap, taken);
    }
    forall p: nat, q: nat | FreshAtStart(p, fbPages, archive) && FreshAtStart(q, fbPages, archive) && p != q
      ensures Frame(m4[p]) != Frame(m4[q])
    {
      if InRun(p, LARGE_PAGE, fbPages + archive) && !InRun(q, LARGE_PAGE, fbPages + archive) {
        FreshApart(m4[q], m4[p], forHeap, forLarge);
      } else if InRun(q, LARGE_PAGE, fbPages + archive) && !InRun(p, LARGE_PAGE, fbPages + archive) {
        FreshApart(m4[p], m4[q], forHeap, forLarge);
      }
    }
  }

  /** The pages of slot 0 are gone, the others as before. */
  ghost predicate OnlyAbove(before: map<nat, word>, after: map<nat, word>) {
    && (forall p: nat :: p in after <==> p in before && p >= 1024)
    && (forall p: nat | p in after :: after[p] == before[p])
  }

  lemma WithoutIdentityMapping(s: PhysState, pd: nat)
    requires DirOkBut(s, pd, BOOT_SHARED)
    ensures OnlyAbove(Mapping(s, pd), Mapping(WithoutIdentity(s, pd), pd))
  {
    WithoutIdentityIsOk(s, pd);
    hide DirOkBut, DirOk, WithoutIdentity, Pte;
  }

  lemma BootIsKernelHalf(s: PhysState, pd: nat, low: nat)
    requires BootDirectory(s, pd, low)
    ensures DirOkBut(s, pd, BOOT_SHARED) && KernelHalfOnly(s.mem, pd)
  {
    BootDirectorySharesOneTable(s, pd, low);
  }

  lemma WithoutIdentityIsKernelHalf(s: PhysState, pd: nat)
    requires KernelHalfOnly(s.mem, pd)
    ensures KernelHalfOnly(WithoutIdentity(s, pd).mem, pd) && !Present(WithoutIdentity(s, pd).mem[pd][0])
  {
  }

  /** After the last step the directory is a space of its own with no user page. */
  lemma StartEnds(s0: PhysState, s1: PhysState, s2: PhysState, s3: PhysState, pd: nat, phys: word, fbPages: nat, archive: nat)
    requires pd < FRAME_LIMIT && DirOkBut(s3, pd, BOOT_SHARED) && KernelHalfOnly(s3.mem, pd)
    requires Extends(Mapping(s0, pd), Mapping(s1, pd), HEAP_PAGE, HEAP_PAGES, s0.free - s1.free)
    requires ShowsFramebuffer(Mapping(s1, pd), Mapping(s2, pd), phys, fbPages)
    requires Extends(Mapping(s2, pd), Mapping(s3, pd), LARGE_PAGE, fbPages + archive, s2.free - s3.free)
    requires s3.free <= s2.free <= s1.free <= s0.free
    ensures var t := WithoutIdentity(s3, pd);
            && SpaceOk(t, pd) && DirOkBut(t, pd, BOOT_SHARED) && (forall page: nat :: !IsUser(t, pd, page))
            && MappedAtStart(Mapping(s0, pd), Mapping(t, pd), phys, fbPages, archive, s0.free - t.free)
  {
    var t := WithoutIdentity(s3, pd);
    assert t.free == s3.free;
    WithoutIdentityIsOk(s3, pd);
    WithoutIdentityMapping(s3, pd);
    WithoutIdentityIsKernelHalf(s3, pd);
    KernelHalfIsSpace(t, pd);
    OkIsOkBut(t, pd);
    hide DirOkBut, DirOk, Mapping, Extends, WithoutIdentity, ShowsFramebuffer, MappedAtStart, KernelHalfOnly, SpaceOk, IsUser,
      OnlyAbove, Present, Pte;
    StartMapping(Mapping(s0, pd), Mapping(s1, pd), Mapping(s2, pd), Mapping(s3, pd), Mapping(t, pd), phys, fbPages, archive,
                 s0.free - s1.free, s2.free - s3.free, s0.free - t.free);
  }

  /** From the boot directory to an ordinary one: the heap, the framebuffer and its back buffer, the archive's pages,
      and the end of the identity map. */
  method StartMemory(m: Machine, fbPhys: word, fbPages: nat, archive: nat, ghost low: nat)
    returns (r: Outcome<(KernelHeap, LargeArea)>)
    requires m.frames.Valid() && BootDirectory(m.Phys(), m.cr3, low)
    requires LARGE_PAGE + fbPages + archive <= TABLE_PAGES && FRAMEBUFFER_PAGE + fbPages <= TABLE_PAGES
    modifies m`mem, m.frames.bitmap
    ensures r.Panic? ==> m.frames.Free() == {}
    ensures r.Done? ==> SpaceOk(m.Phys(), m.cr3) && forall page: nat :: !IsUser(m.Phys(), m.cr3, page)
    ensures r.Done? ==> r.value.0.Valid() && r.value.0.Heap() == INITIAL
    ensures r.Done? ==> r.value.1.Valid() && r.value.1.base == LARGE_BASE + (fbPages + archive) * PAGE_SIZE
    ensures r.Done? ==> MappedAtStart(old(Mapping(m.Phys(), m.cr3)), Mapping(m.Phys(), m.cr3), fbPhys, fbPages, archive,
                                      old(m.frames.Free()) - m.frames.Free())
  {
    hide DirOkBut, DirOk, Mapping, Extends, BootDirectory, WithoutIdentity, ShowsFramebuffer, MappedAtStart,
      KernelHalfOnly, MapsPages, SpaceOk, IsUser, KernelHeap.ListOk, INITIAL;
    ghost var s0 := m.Phys();
    BootIsKernelHalf(s0, m.cr3, low);
    DirectoryFrame(s0, m.cr3);
    var heap := InitHeap(m);
    if heap.Panic? {
      return Panic;
    }
    ghost var s1 := m.Phys();
    MapsPagesKeepKernelHalf(s0, m.cr3, HEAP_PAGE, HEAP_PAGES, s1);
    var shown := MapFramebuffer(m, fbPhys, fbPages);
    if shown.Panic? {
      return Panic;
    }
    ghost var s2 := m.Phys();
    var area := EarlyPages(m, fbPages, archive);
    if area.Panic? {
      return Panic;
    }
    ghost var s3 := m.Phys();
    RemoveIdentityMap(m);
    StartEnds(s0, s1, s2, s3, m.cr3, fbPhys, fbPages, archive);
    return Done((heap.value, area.value));
  }
}
