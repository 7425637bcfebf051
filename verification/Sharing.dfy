/** The kernel's quarter in different directories: which kernel pages mapped in one are seen in another. */
module Sharing {
  import opened Words
  import opened Pmm
  import opened Mmu
  import opened Paging
  import opened AddressSpace
  import opened KHeap
  import opened LargeAlloc
  import Isolation

  /** Two directories that name the same table in a slot. */
  predicate SharesTable(s: PhysState, d: nat, q: nat, slot: nat)
    requires d < FRAME_LIMIT && q < FRAME_LIMIT && slot < 1024
  {
    HasTable(s, d, slot) && HasTable(s, q, slot) && Table(s, d, slot) == Table(s, q, slot)
  }

  /** Two well-formed directories, neither of them a table of the other, which share tables only slot by slot. */
  ghost predicate Pair(s: PhysState, d: nat, q: nat) {
    && DirOk(s, d) && DirOk(s, q) && d != q
    && (forall i | 0 <= i < TABLE_SLOTS && HasTable(s, d, i) :: Table(s, d, i) != q)
    && (forall i | 0 <= i < TABLE_SLOTS && HasTable(s, q, i) :: Table(s, q, i) != d)
    && (forall i, j | 0 <= i < TABLE_SLOTS && 0 <= j < TABLE_SLOTS && i != j && HasTable(s, d, i) && HasTable(s, q, j) ::
          Table(s, d, i) != Table(s, q, j))
  }

  /** What a map in `d` writes: of `q` only the table of the page's slot, and that only if it is shared. */
  lemma MapWrites(s: PhysState, d: nat, q: nat, page: nat, phys: word, flags: word)
    requires Pair(s, d, q) && CanMap(s, d, page)
    ensures var t := Map(s, d, page, phys, flags);
            && q < FRAME_LIMIT && d < FRAME_LIMIT && t.mem[q] == s.mem[q] && t.free <= s.free && t.total == s.total
            && (forall j | 0 <= j < TABLE_SLOTS && HasTable(s, q, j) && !(j == page / 1024 && SharesTable(s, d, q, j)) ::
                  t.mem[Table(s, q, j)] == s.mem[Table(s, q, j)])
            && (forall j | 0 <= j < TABLE_SLOTS && j != page / 1024 :: t.mem[d][j] == s.mem[d][j])
            && (HasTable(s, d, page / 1024) ==> t.mem[d] == s.mem[d])
            && (!HasTable(s, d, page / 1024) ==> Frame(t.mem[d][page / 1024]) in s.free)
  {
    MapFrames(s, d, page, phys, flags);
    TablesInUse(s, q);
    hide Map, DirOk, PteValue, PdeValue, Present;
  }

  /** A page mapped in one directory is seen in another exactly when the two share the table of its slot; otherwise the
      other keeps the entry it had. */
  lemma MapIsSeenIffShared(s: PhysState, d: nat, q: nat, page: nat, phys: word, flags: word)
    requires Pair(s, d, q) && CanMap(s, d, page)
    ensures var t := Map(s, d, page, phys, flags);
            && Pair(t, d, q)
            && Pte(t.mem, d, page) == PteValue(phys, flags)
            && Pte(t.mem, q, page) == (if SharesTable(s, d, q, page / 1024) then PteValue(phys, flags) else Pte(s.mem, q, page))
            && (SharesTable(t, d, q, page / 1024) <==> SharesTable(s, d, q, page / 1024))
  {
    var slot, t := page / 1024, Map(s, d, page, phys, flags);
    MapWrites(s, d, q, page, phys, flags);
    MapChangesOnePage(s, d, page, phys, flags, page);
    PairStays(s, d, q, page, phys, flags);
    SharingStays(s, d, q, page, phys, flags, slot);
    TablesInUse(s, q);
    hide Map, DirOk, PteValue, CanMap, Pair;
  }

  lemma PairStays(s: PhysState, d: nat, q: nat, page: nat, phys: word, flags: word)
    requires Pair(s, d, q) && CanMap(s, d, page)
    ensures Pair(Map(s, d, page, phys, flags), d, q)
  {
    var t := Map(s, d, page, phys, flags);
    MapWrites(s, d, q, page, phys, flags);
    MapKeepsDirectory(s, d, page, phys, flags);
    SameDirectory(s, t, q);
    TablesInUse(s, q);
    hide Map, DirOk, PteValue, CanMap, Present;
    forall i | 0 <= i < TABLE_SLOTS && HasTable(t, d, i)
      ensures (HasTable(s, d, i) && Table(t, d, i) == Table(s, d, i)) || Table(t, d, i) in s.free
    {
      assert i != page / 1024 ==> t.mem[d][i] == s.mem[d][i];
    }
    assert DirOk(t, d);
    assert DirOk(t, q);
    assert forall i | 0 <= i < TABLE_SLOTS && HasTable(t, d, i) :: Table(t, d, i) != q;
    assert forall i | 0 <= i < 1024 :: HasTable(t, q, i) == HasTable(s, q, i) && Table(t, q, i) == Table(s, q, i);
  }

  lemma TablesInUse(s: PhysState, q: nat)
    requires DirOk(s, q)
    ensures q < FRAME_LIMIT && q !in s.free
    ensures forall i | 0 <= i < TABLE_SLOTS && HasTable(s, q, i) :: Table(s, q, i) !in s.free
  {
  }

  /** A map makes no table shared and ends no sharing. */
  lemma SharingStays(s: PhysState, d: nat, q: nat, page: nat, phys: word, flags: word, slot: nat)
    requires Pair(s, d, q) && CanMap(s, d, page) && slot < TABLE_SLOTS
    ensures d < FRAME_LIMIT && q < FRAME_LIMIT
    ensures SharesTable(Map(s, d, page, phys, flags), d, q, slot) <==> SharesTable(s, d, q, slot)
  {
    MapWrites(s, d, q, page, phys, flags);
    TablesInUse(s, q);
    hide Map, DirOk, PteValue, CanMap, Present, Pair;
  }

  /** One more page of the kernel's own, on the lowest free frame. */
  lemma WithPageIsSeenIffShared(s: PhysState, d: nat, q: nat, page: nat)
    requires Pair(s, d, q) && CanExtend(s, d, page * PAGE_SIZE)
    ensures Lowest(s.free) < FRAME_LIMIT && page < TABLE_PAGES
    ensures var t := WithPage(s, d, page * PAGE_SIZE);
            && Pair(t, d, q) && page in Mapping(t, d)
            && (forall p: nat | p != page && p < TABLE_PAGES :: Pte(t.mem, d, p) == Pte(s.mem, d, p))
            && (SharesTable(s, d, q, page / 1024) ==> Pte(t.mem, q, page) == Pte(t.mem, d, page))
            && (!SharesTable(s, d, q, page / 1024) ==> Pte(t.mem, q, page) == Pte(s.mem, q, page))
            && (forall p: nat | p != page && p < TABLE_PAGES :: Pte(t.mem, q, p) == Pte(s.mem, q, p))
            && forall slot: nat | slot < TABLE_SLOTS :: SharesTable(t, d, q, slot) <==> SharesTable(s, d, q, slot)
  {
    assert page * PAGE_SIZE / PAGE_SIZE == page;
    var f := Lowest(s.free);
    var taken := WithoutFrame(s, f);
    TakenPair(s, d, q, f);
    MapIsSeenIffShared(taken, d, q, page, f * PAGE_SIZE, PAGE_PRESENT + PAGE_RW);
    forall p: nat | p < TABLE_PAGES
      ensures Pte(WithPage(s, d, page * PAGE_SIZE).mem, d, p)
              == if p == page then PteValue(f * PAGE_SIZE, PAGE_PRESENT + PAGE_RW) else Pte(s.mem, d, p)
    {
      MapChangesOnePage(taken, d, page, f * PAGE_SIZE, PAGE_PRESENT + PAGE_RW, p);
    }
    OtherPagesStay(taken, d, q, page, f * PAGE_SIZE, PAGE_PRESENT + PAGE_RW);
    forall slot: nat | slot < TABLE_SLOTS
      ensures SharesTable(WithPage(s, d, page * PAGE_SIZE), d, q, slot) <==> SharesTable(s, d, q, slot)
    {
      SharingStays(taken, d, q, page, f * PAGE_SIZE, PAGE_PRESENT + PAGE_RW, slot);
    }
    hide Map, DirOk, PteValue, Pair;
  }

  lemma TakenPair(s: PhysState, d: nat, q: nat, f: nat)
    requires Pair(s, d, q) && f in s.free
    ensures Pair(WithoutFrame(s, f), d, q) && f < FRAME_LIMIT
    ensures forall slot: nat | slot < 1024 :: SharesTable(WithoutFrame(s, f), d, q, slot) <==> SharesTable(s, d, q, slot)
  {
    var t := WithoutFrame(s, f);
    SameDirectory(s, t, d);
    SameDirectory(s, t, q);
    hide DirOk;
    assert forall i | 0 <= i < 1024 :: HasTable(t, d, i) == HasTable(s, d, i) && Table(t, d, i) == Table(s, d, i);
    assert forall i | 0 <= i < 1024 :: HasTable(t, q, i) == HasTable(s, q, i) && Table(t, q, i) == Table(s, q, i);
  }

  /** In the other directory only the page mapped can change. */
  lemma OtherPagesStay(s: PhysState, d: nat, q: nat, page: nat, phys: word, flags: word)
    requires Pair(s, d, q) && CanMap(s, d, page)
    ensures forall p: nat | p != page && p < TABLE_PAGES ::
              Pte(Map(s, d, page, phys, flags).mem, q, p) == Pte(s.mem, q, p)
  {
    var t := Map(s, d, page, phys, flags);
    MapWrites(s, d, q, page, phys, flags);
    MapFrames(s, d, page, phys, flags);
    TablesInUse(s, q);
    hide Map, DirOk, PteValue, PdeValue, CanMap, Pair;
    forall p: nat | p != page && p < TABLE_PAGES
      ensures Pte(t.mem, q, p) == Pte(s.mem, q, p)
    {
      if p / 1024 == page / 1024 {
        assert p % 1024 != page % 1024;
      }
      assert HasTable(s, q, p / 1024) && !(p / 1024 == page / 1024 && SharesTable(s, d, q, p / 1024)) ==>
          t.mem[Table(s, q, p / 1024)] == s.mem[Table(s, q, p / 1024)];
    }
  }

  /** Over a run of the kernel's maps in one directory, the pages it maps are seen in another exactly where the two
      shared the table of the slot before the run; no other page of it changes. */
  lemma {:induction false} RunIsSeenIffShared(s: PhysState, d: nat, q: nat, page: nat, n: nat, t: PhysState, p: nat)
    requires Pair(s, d, q) && MapsPages(s, d, page, n, t) && p < TABLE_PAGES
    ensures Pair(t, d, q)
    ensures InRun(p, page, n) ==> p in Mapping(t, d)
    ensures Pte(t.mem, q, p)
            == if InRun(p, page, n) && SharesTable(s, d, q, p / 1024) then Pte(t.mem, d, p) else Pte(s.mem, q, p)
    ensures !InRun(p, page, n) ==> Pte(t.mem, d, p) == Pte(s.mem, d, p)
    decreases n
  {
    hide CanExtend, WithPage, Pair, Pte, SharesTable, Present;
    PairInRange(s, d, q);
    if n > 0 {
      var mid := WithPage(s, d, page * PAGE_SIZE);
      WithPageIsSeenIffShared(s, d, q, page);
      RunIsSeenIffShared(mid, d, q, page + 1, n - 1, t, p);
      MappedIffPresent(mid, d, p);
      MappedIffPresent(t, d, p);
    }
  }

  lemma PairInRange(s: PhysState, d: nat, q: nat)
    requires Pair(s, d, q)
    ensures d < FRAME_LIMIT && q < FRAME_LIMIT
  {
  }

  lemma MappedIffPresent(s: PhysState, d: nat, p: nat)
    requires d < FRAME_LIMIT && p < TABLE_PAGES
    ensures p in Mapping(s, d) <==> Present(Pte(s.mem, d, p))
    ensures p in Mapping(s, d) ==> Mapping(s, d)[p] == Pte(s.mem, d, p)
  {
  }

  /** A new directory shares with its creator exactly the kernel tables that the creator has when it makes it. */
  lemma NewSpaceShares(s: PhysState, cr3: nat, pd: nat, slot: nat)
    requires DirOk(s, cr3) && pd in s.free && USER_SLOTS <= slot < TABLE_SLOTS
    ensures pd < FRAME_LIMIT && cr3 < FRAME_LIMIT && Pair(CreateDir(s, cr3, pd), cr3, pd)
    ensures SharesTable(CreateDir(s, cr3, pd), cr3, pd, slot) <==> HasTable(s, cr3, slot)
  {
    var t := CreateDir(s, cr3, pd);
    Isolation.CreateMakesEmptySpace(s, cr3, pd);
    TablesInUse(s, cr3);
    assert forall i | USER_SLOTS <= i < TABLE_SLOTS ::
        HasTable(t, pd, i) == HasTable(s, cr3, i) && Table(t, pd, i) == Table(s, cr3, i);
    assert forall i | 0 <= i < USER_SLOTS :: !HasTable(t, pd, i);
    assert forall i | 0 <= i < 1024 :: HasTable(t, cr3, i) == HasTable(s, cr3, i) && Table(t, cr3, i) == Table(s, cr3, i);
    assert forall i, j | 0 <= i < TABLE_SLOTS && 0 <= j < TABLE_SLOTS && i != j && HasTable(s, cr3, i) && HasTable(s, cr3, j) ::
        Table(s, cr3, i) != Table(s, cr3, j);
    hide DirOk;
  }

  /** Kernel pages mapped in the creator afterwards, the new process's own kernel stack among them, are seen in the new
      space exactly where the creator had a table for them when it made the space. */
  lemma LaterPageIsSeenIffTable(s: PhysState, cr3: nat, pd: nat, page: nat, n: nat, t: PhysState, p: nat)
    requires DirOk(s, cr3) && pd in s.free && pd < FRAME_LIMIT && cr3 < FRAME_LIMIT
    requires MapsPages(CreateDir(s, cr3, pd), cr3, page, n, t) && InRun(p, page, n) && USER_PAGES <= p < TABLE_PAGES
    ensures p in Mapping(t, cr3)
    ensures p in Mapping(t, pd) <==> HasTable(s, cr3, p / 1024)
    ensures p in Mapping(t, pd) ==> Mapping(t, pd)[p] == Mapping(t, cr3)[p]
  {
    var created := CreateDir(s, cr3, pd);
    NewSpaceShares(s, cr3, pd, p / 1024);
    Isolation.CreateMakesEmptySpace(s, cr3, pd);
    if !HasTable(s, cr3, p / 1024) {
      NoTableNoEntry(s, cr3, p);
    }
    hide DirOk, CreateDir, MapsPages, Pair, SharesTable, Pte, Present, HasTable, Mapping;
    RunIsSeenIffShared(created, cr3, pd, page, n, t, p);
    MappedIffPresent(t, pd, p);
    MappedIffPresent(t, cr3, p);
  }

  lemma NoTableNoEntry(s: PhysState, d: nat, p: nat)
    requires d < FRAME_LIMIT && p < TABLE_PAGES && !HasTable(s, d, p / 1024)
    ensures !Present(Pte(s.mem, d, p))
  {
  }
}
