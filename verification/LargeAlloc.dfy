/** Runs of fresh pages: the initial heap, and the page allocator above it. */
module LargeAlloc {
  import opened Words
  import opened Pmm
  import opened Mmu
  import opened Paging
  import opened HeapSpec
  import opened KHeap

  const KERNEL_RW: word := PAGE_PRESENT + PAGE_RW

  /** Where `kalloc_pages` begins to map. */
  const LARGE_BASE: nat := 0xe000_0000
  const LARGE_PAGE: nat := LARGE_BASE / PAGE_SIZE

  /** The lowest page that anything but the boot code maps in the kernel's directory. */
  const FIRST_PAGE: nat := HEAP_START / PAGE_SIZE

  predicate InRun(p: nat, first: nat, n: nat) {
    first <= p < first + n
  }

  /** A writable kernel page on one of the given frames. */
  predicate FreshEntry(entry: word, taken: set<nat>) {
    Frame(entry) in taken && Frame(entry) < FRAME_LIMIT && entry == PteValue(Frame(entry) * PAGE_SIZE, KERNEL_RW)
  }

  /** `n` pages from `first` on have been mapped, each to a frame of its own out of `taken`; no other page moved. */
  ghost predicate Extends(before: map<nat, word>, after: map<nat, word>, first: nat, n: nat, taken: set<nat>) {
    && (forall p :: p in after <==> p in before || InRun(p, first, n))
    && (forall p | p in before && !InRun(p, first, n) :: after[p] == before[p])
    && (forall p | InRun(p, first, n) :: FreshEntry(after[p], taken))
    && (forall p, q | InRun(p, first, n) && InRun(q, first, n) && p != q :: Frame(after[p]) != Frame(after[q]))
  }

  lemma ExtendsByOne(before: map<nat, word>, after: map<nat, word>, first: nat, n: nat, taken: set<nat>, f: nat, more: set<nat>)
    requires Extends(before, after, first, n, taken) && f !in taken && f < FRAME_LIMIT && taken + {f} <= more
    ensures Extends(before, after[first + n := PteValue(f * PAGE_SIZE, KERNEL_RW)], first, n + 1, more)
  {
    FrameAddress(f);
    EntryFrame(f);
    var entry := PteValue(f * PAGE_SIZE, KERNEL_RW);
    hide PteValue, Frame;
    var grown := after[first + n := entry];
    forall p
      ensures p in grown <==> p in before || InRun(p, first, n + 1)
      ensures p in before && !InRun(p, first, n + 1) ==> grown[p] == before[p]
    {
      assert p in after <==> p in before || InRun(p, first, n);
    }
    forall p | InRun(p, first, n + 1)
      ensures FreshEntry(grown[p], more)
    {
      assert p != first + n ==> FreshEntry(after[p], taken);
    }
    forall p, q | InRun(p, first, n + 1) && InRun(q, first, n + 1) && p != q
      ensures Frame(grown[p]) != Frame(grown[q])
    {
      assert p != first + n ==> FreshEntry(after[p], taken);
      assert q != first + n ==> FreshEntry(after[q], taken);
    }
  }

  lemma EntryFrame(f: nat)
    requires f < FRAME_LIMIT
    ensures Frame(PteValue(f * PAGE_SIZE, KERNEL_RW)) == f
  {
    FrameAddress(f);
  }

  /** One more page, on the lowest free frame. */
  method MapNext(m: Machine, page: nat) returns (r: Outcome<()>)
    requires m.frames.Valid() && DirOkBut(m.Phys(), m.cr3, BOOT_SHARED) && FIRST_PAGE <= page < TABLE_PAGES
    modifies m`mem, m.frames.bitmap
    ensures r.Panic? ==> m.frames.Free() == {}
    ensures r.Done? ==> CanExtend(old(m.Phys()), m.cr3, page * PAGE_SIZE) && Lowest(old(m.frames.Free())) < FRAME_LIMIT
    ensures r.Done? ==> m.Phys() == WithPage(old(m.Phys()), m.cr3, page * PAGE_SIZE)
  {
    hide DirOkBut, Map, PteValue;
    ghost var s := m.Phys();
    DirectoryFrame(s, m.cr3);
    var frame := m.frames.AllocFrame();
    if frame.Panic? {
      return Panic;
    }
    ghost var f := Lowest(s.free);
    TakenKeepsDirectory(s, m.cr3, f);
    PageAddress(page);
    DirButGivesSlot(WithoutFrame(s, f), m.cr3, BOOT_SHARED, page / 1024);
    r := MapPage(m, frame.value, page * PAGE_SIZE, KERNEL_RW);
  }

  /** Maps `n` fresh frames from page `first` on. */
  method MapRun(m: Machine, first: nat, n: nat) returns (r: Outcome<()>)
    requires m.frames.Valid() && DirOkBut(m.Phys(), m.cr3, BOOT_SHARED) && FIRST_PAGE <= first && first + n <= TABLE_PAGES
    modifies m`mem, m.frames.bitmap
    ensures r.Panic? ==> m.frames.Free() == {}
    ensures r.Done? ==> DirOkBut(m.Phys(), m.cr3, BOOT_SHARED) && m.frames.Free() <= old(m.frames.Free())
    ensures r.Done? ==> Extends(old(Mapping(m.Phys(), m.cr3)), Mapping(m.Phys(), m.cr3), first, n,
                                old(m.frames.Free()) - m.frames.Free())
    ensures r.Done? ==> MapsPages(old(m.Phys()), m.cr3, first, n, m.Phys())
  {
    hide DirOkBut, Mapping, Extends, CanExtend, WithPage, MapsPages;
    ghost var s0 := m.Phys();
    NoPages(s0, m.cr3, first);
    DirectoryFrame(s0, m.cr3);
    NothingMapped(Mapping(s0, m.cr3), first, s0.free - s0.free);
    for i := 0 to n
      invariant m.frames.Valid() && DirOkBut(m.Phys(), m.cr3, BOOT_SHARED) && m.frames.Free() <= s0.free
      invariant Extends(Mapping(s0, m.cr3), Mapping(m.Phys(), m.cr3), first, i, s0.free - m.frames.Free())
      invariant MapsPages(s0, m.cr3, first, i, m.Phys())
    {
      ghost var s := m.Phys();
      var mapped := MapNext(m, first + i);
      if mapped.Panic? {
        return Panic;
      }
      PageAddress(first + i);
      MapsPagesThenOne(s0, m.cr3, first, i, s);
      WithPageMapsOnePage(s, m.cr3, (first + i) * PAGE_SIZE);
      ExtendsByOne(Mapping(s0, m.cr3), Mapping(s, m.cr3), first, i, s0.free - s.free, Lowest(s.free),
                   s0.free - m.frames.Free());
    }
    return Done(());
  }

  /** Two runs in a row. */
  lemma ExtendsTwice(before: map<nat, word>, mid: map<nat, word>, after: map<nat, word>, first: nat, n: nat, k: nat,
                     taken: set<nat>, more: set<nat>)
    requires Extends(before, mid, first, n, taken) && Extends(mid, after, first + n, k, more) && taken !! more
    ensures Extends(before, after, first, n + k, taken + more)
  {
    hide FreshEntry;
    forall p
      ensures p in after <==> p in before || InRun(p, first, n + k)
      ensures p in before && !InRun(p, first, n + k) ==> after[p] == before[p]
    {
      assert InRun(p, first, n + k) <==> InRun(p, first, n) || InRun(p, first + n, k);
      assert p in mid <==> p in before || InRun(p, first, n);
      assert p in after <==> p in mid || InRun(p, first + n, k);
    }
    forall p | InRun(p, first, n + k)
      ensures FreshEntry(after[p], if InRun(p, first, n) then taken else more) && FreshEntry(after[p], taken + more)
    {
      FreshInMore(after[p], if InRun(p, first, n) then taken else more, taken + more);
    }
    forall p, q | InRun(p, first, n + k) && InRun(q, first, n + k) && p != q
      ensures Frame(after[p]) != Frame(after[q])
    {
      if InRun(p, first, n) != InRun(q, first, n) {
        FreshApart(after[p], after[q], if InRun(p, first, n) then taken else more, if InRun(q, first, n) then taken else more);
      }
    }
  }

  lemma FreshInMore(entry: word, taken: set<nat>, more: set<nat>)
    requires FreshEntry(entry, taken) && taken <= more
    ensures FreshEntry(entry, more)
  {
  }

  lemma FreshApart(a: word, b: word, taken: set<nat>, more: set<nat>)
    requires FreshEntry(a, taken) && FreshEntry(b, more) && taken !! more
    ensures Frame(a) != Frame(b)
  {
  }

  lemma DirectoryFrame(s: PhysState, pd: nat)
    requires DirOkBut(s, pd, BOOT_SHARED)
    ensures pd < FRAME_LIMIT
  {
  }

  lemma NothingMapped(before: map<nat, word>, first: nat, taken: set<nat>)
    ensures Extends(before, before, first, 0, taken)
  {
  }

  lemma PageAddress(page: nat)
    requires page < TABLE_PAGES
    ensures page * PAGE_SIZE < WORD_LIMIT && page * PAGE_SIZE / PAGE_SIZE == page
    ensures page * PAGE_SIZE / 0x40_0000 == page / 1024
  {
  }

  /** `kheap_init` */
  method InitHeap(m: Machine) returns (r: Outcome<KernelHeap>)
    requires m.frames.Valid() && DirOkBut(m.Phys(), m.cr3, BOOT_SHARED)
    modifies m`mem, m.frames.bitmap
    ensures r.Panic? ==> m.frames.Free() == {}
    ensures r.Done? ==> r.value.Valid() && r.value.m == m && r.value.Heap() == INITIAL && fresh(r.value)
    ensures r.Done? ==> Extends(old(Mapping(m.Phys(), m.cr3)), Mapping(m.Phys(), m.cr3), HEAP_START / PAGE_SIZE,
                                INITIAL_SIZE / PAGE_SIZE, old(m.frames.Free()) - m.frames.Free())
    ensures r.Done? ==> DirOkBut(m.Phys(), m.cr3, BOOT_SHARED) && m.frames.Free() <= old(m.frames.Free())
    ensures r.Done? ==> MapsPages(old(m.Phys()), m.cr3, HEAP_START / PAGE_SIZE, INITIAL_SIZE / PAGE_SIZE, m.Phys())
  {
    hide DirOkBut, Mapping, Extends, MapsPages;
    var mapped := MapRun(m, HEAP_START / PAGE_SIZE, INITIAL_SIZE / PAGE_SIZE);
    if mapped.Panic? {
      return Panic;
    }
    var heap := new KernelHeap(m);
    return Done(heap);
  }

  /** The bump allocator for whole pages; nothing keeps it below the temporary windows. */
  class LargeArea {
    var base: nat
    const m: Machine

    ghost predicate Valid()
      reads this, m, m.frames.bitmap
    {
      && base % PAGE_SIZE == 0 && LARGE_BASE <= base <= TABLE_PAGES * PAGE_SIZE
      && m.frames.Valid() && DirOkBut(m.Phys(), m.cr3, BOOT_SHARED)
    }

    constructor (m: Machine)
      requires m.frames.Valid() && DirOkBut(m.Phys(), m.cr3, BOOT_SHARED)
      ensures Valid() && base == LARGE_BASE && this.m == m
    {
      this.m, base := m, LARGE_BASE;
    }

    /** `kalloc_pages`: the pages follow the last ones handed out, each on a fresh frame. */
    method KallocPages(n: nat) returns (r: Outcome<nat>)
      requires Valid() && base / PAGE_SIZE + n <= TABLE_PAGES
      modifies this`base, m`mem, m.frames.bitmap
      ensures r.Panic? ==> m.frames.Free() == {}
      ensures r.Done? ==> Valid() && r.value == old(base) && base == old(base) + n * PAGE_SIZE
      ensures r.Done? ==> m.frames.Free() <= old(m.frames.Free())
      ensures r.Done? ==> Extends(old(Mapping(m.Phys(), m.cr3)), Mapping(m.Phys(), m.cr3), old(base) / PAGE_SIZE, n,
                                  old(m.frames.Free()) - m.frames.Free())
      ensures r.Done? ==> MapsPages(old(m.Phys()), m.cr3, old(base) / PAGE_SIZE, n, m.Phys())
    {
      hide DirOkBut, Mapping, Extends, MapsPages;
      var virt := base;
      var mapped := MapRun(m, base / PAGE_SIZE, n);
      if mapped.Panic? {
        return Panic;
      }
      base := base + n * PAGE_SIZE;
      return Done(virt);
    }
  }
}
