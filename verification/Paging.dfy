/** `map_page` and `unmap_page`: page tables are made on demand, and dropped from the directory when they empty. */
module Paging {
  import opened Words
  import opened Pmm
  import opened Mmu

  // ---------- The operation on physical memory ----------

  /** `(phys & ~0xfff) | (flags & 0xfff) | PAGE_PRESENT`. */
  function PteValue(phys: word, flags: word): (w: word)
    ensures Present(w) && Frame(w) == phys / PAGE_SIZE
  {
    PageBase(phys) + flags % PAGE_SIZE + (if flags % 2 == 0 then PAGE_PRESENT else 0)
  }

  /** A new table is present and writable, and open to user mode when the page is. */
  function PdeValue(table: nat, flags: word): (w: word)
    requires table < FRAME_LIMIT
    ensures Present(w) && Frame(w) == table
  {
    table * PAGE_SIZE + PAGE_PRESENT + PAGE_RW + (if flags / PAGE_USER % 2 == 1 then PAGE_USER else 0)
  }

  /** A table entry has the low twelve bits it is given, present in any case; a directory entry is present and writable,
      and open to user mode exactly for user pages. */
  lemma EntryBits(phys: word, flags: word, table: nat)
    requires table < FRAME_LIMIT
    ensures PteValue(phys, flags) % 0x1000 == flags % 0x1000 + if flags % 2 == 0 then 1 else 0
    ensures PdeValue(table, flags) % 0x1000 == if flags / 4 % 2 == 1 then 7 else 3
  {
  }

  predicate HasTable(s: PhysState, pd: nat, slot: nat)
    requires pd < FRAME_LIMIT && slot < 1024
  {
    Present(s.mem[pd][slot])
  }

  function Table(s: PhysState, pd: nat, slot: nat): (f: nat)
    requires pd < FRAME_LIMIT && slot < 1024
    ensures f < FRAME_LIMIT
  {
    Frame(s.mem[pd][slot])
  }

  predicate FramesInRange(s: PhysState) {
    s.total <= FRAME_LIMIT && forall f <- s.free :: 1 <= f < s.total
  }

  predicate Allocated(s: PhysState, f: nat) {
    1 <= f < s.total && f !in s.free
  }

  function AddTable(s: PhysState, pd: nat, slot: nat, f: nat, flags: word): PhysState
    requires pd < FRAME_LIMIT && slot < 1024 && f < FRAME_LIMIT
  {
    State(WritePage(WriteWord(s.mem, pd, slot, PdeValue(f, flags)), f, ZeroPage()), s.free - {f}, s.total)
  }

  /** The lowest free frame becomes the zeroed table of `slot`, unless the slot has one. */
  ghost function WithTable(s: PhysState, pd: nat, slot: nat, flags: word): PhysState
    requires pd < FRAME_LIMIT && slot < 1024 && FramesInRange(s)
    requires HasTable(s, pd, slot) || s.free != {}
  {
    if HasTable(s, pd, slot) then s
    else AddTable(s, pd, slot, Lowest(s.free), flags)
  }

  /** One store into the table that translates `page`. */
  function SetEntry(s: PhysState, pd: nat, page: nat, entry: word): PhysState
    requires pd < FRAME_LIMIT && page < FRAME_LIMIT
  {
    State(WriteWord(s.mem, Table(s, pd, page / 1024), page % 1024, entry), s.free, s.total)
  }

  ghost function Map(s: PhysState, pd: nat, page: nat, phys: word, flags: word): PhysState
    requires pd < FRAME_LIMIT && page < FRAME_LIMIT && FramesInRange(s)
    requires HasTable(s, pd, page / 1024) || s.free != {}
  {
    SetEntry(WithTable(s, pd, page / 1024, flags), pd, page, PteValue(phys, flags))
  }

  predicate EmptyTable(p: Page) {
    forall i | 0 <= i < 1024 :: !Present(p[i])
  }

  function DropTable(s: PhysState, pd: nat, slot: nat): PhysState
    requires pd < FRAME_LIMIT && slot < 1024
  {
    State(WriteWord(s.mem, pd, slot, 0), s.free, s.total)
  }

  /** The entry is cleared, and a table left without entries leaves the directory. Its frame stays in use: the call
      that should give it back panics. */
  function Unmap(s: PhysState, pd: nat, page: nat): PhysState
    requires pd < FRAME_LIMIT && page < FRAME_LIMIT
  {
    if !Present(Pte(s.mem, pd, page)) then s
    else if EmptyTable(SetEntry(s, pd, page, 0).mem[Table(s, pd, page / 1024)]) then
      DropTable(SetEntry(s, pd, page, 0), pd, page / 1024)
    else SetEntry(s, pd, page, 0)
  }

  // ---------- Well-formed directories ----------

  /** The tables of slots 0..1019 are distinct allocated frames, and none is the directory itself. */
  predicate DirOk(s: PhysState, pd: nat) {
    && FramesInRange(s)
    && SelfMapped(s.mem, pd)
    && pd !in s.free
    && (forall i | 0 <= i < TABLE_SLOTS && HasTable(s, pd, i) ::
          Allocated(s, Table(s, pd, i)) && Table(s, pd, i) != pd)
    && (forall i, j | 0 <= i < j < TABLE_SLOTS && HasTable(s, pd, i) && HasTable(s, pd, j) ::
          Table(s, pd, i) != Table(s, pd, j))
  }

  /** The same without the last clause, which holds slot by slot below. */
  predicate DirBase(s: PhysState, pd: nat) {
    && FramesInRange(s)
    && SelfMapped(s.mem, pd)
    && pd !in s.free
    && forall i | 0 <= i < TABLE_SLOTS && HasTable(s, pd, i) ::
         Allocated(s, Table(s, pd, i)) && Table(s, pd, i) != pd
  }

  /** No other slot shares the table of this one. */
  predicate OwnTable(s: PhysState, pd: nat, slot: nat)
    requires pd < FRAME_LIMIT && slot < TABLE_SLOTS
  {
    HasTable(s, pd, slot) ==>
      forall i | 0 <= i < TABLE_SLOTS && i != slot && HasTable(s, pd, i) :: Table(s, pd, i) != Table(s, pd, slot)
  }

  predicate SlotOk(s: PhysState, pd: nat, slot: nat) {
    DirBase(s, pd) && slot < TABLE_SLOTS && OwnTable(s, pd, slot)
  }

  /** A directory in which at most the given slots share tables. */
  predicate DirOkBut(s: PhysState, pd: nat, shared: set<nat>) {
    DirBase(s, pd) && forall slot: nat | slot < TABLE_SLOTS && slot !in shared :: OwnTable(s, pd, slot)
  }

  lemma DirOkIffNoneShared(s: PhysState, pd: nat)
    ensures DirOk(s, pd) <==> DirOkBut(s, pd, {})
  {
    if DirOkBut(s, pd, {}) {
      forall i, j | 0 <= i < j < TABLE_SLOTS && HasTable(s, pd, i) && HasTable(s, pd, j)
        ensures Table(s, pd, i) != Table(s, pd, j)
      {
        assert OwnTable(s, pd, i);
      }
    }
  }

  /** The boot code puts one table in these two slots: the identity map and the kernel's first 4 MiB. */
  const BOOT_SHARED: set<nat> := {0, 768}

  lemma OkIsOkBut(s: PhysState, pd: nat)
    requires DirOk(s, pd)
    ensures DirOkBut(s, pd, BOOT_SHARED)
  {
    DirOkIffNoneShared(s, pd);
  }

  lemma DirButGivesSlot(s: PhysState, pd: nat, shared: set<nat>, slot: nat)
    requires DirOkBut(s, pd, shared) && slot < TABLE_SLOTS && slot !in shared
    ensures SlotOk(s, pd, slot)
  {
  }

  lemma DirGivesSlot(s: PhysState, pd: nat, slot: nat)
    requires DirOk(s, pd) && slot < TABLE_SLOTS
    ensures SlotOk(s, pd, slot)
  {
  }

  /** No table is kept without an entry. */
  predicate NoEmptyTable(s: PhysState, pd: nat)
    requires pd < FRAME_LIMIT
  {
    forall i | 0 <= i < TABLE_SLOTS && HasTable(s, pd, i) :: !EmptyTable(s.mem[Table(s, pd, i)])
  }

  const TABLE_PAGES: nat := TABLE_SLOTS * 1024

  /** What a directory is for: a partial map from pages to entries. */
  function Mapping(s: PhysState, pd: nat): map<nat, word>
    requires pd < FRAME_LIMIT
  {
    map page: nat | page < TABLE_PAGES && Present(Pte(s.mem, pd, page)) :: Pte(s.mem, pd, page)
  }

  // ---------- What the contents of a directory and its tables decide ----------

  lemma SameSlots(s: PhysState, t: PhysState, q: nat)
    requires q < FRAME_LIMIT && t.mem[q] == s.mem[q]
    ensures forall i | 0 <= i < 1024 :: HasTable(t, q, i) == HasTable(s, q, i) && Table(t, q, i) == Table(s, q, i)
  {
  }

  lemma SameDirectoryBut(s: PhysState, t: PhysState, q: nat, shared: set<nat>)
    requires DirOkBut(s, q, shared) && t.mem[q] == s.mem[q] && t.free <= s.free && t.total == s.total
    ensures DirOkBut(t, q, shared)
  {
    SameSlots(s, t, q);
    forall slot: nat | slot < TABLE_SLOTS && slot !in shared
      ensures OwnTable(t, q, slot)
    {
      assert OwnTable(s, q, slot);
    }
  }

  lemma SameDirectory(s: PhysState, t: PhysState, q: nat)
    requires DirOk(s, q) && t.mem[q] == s.mem[q] && t.free <= s.free && t.total == s.total
    ensures DirOk(t, q)
  {
    SameSlots(s, t, q);
  }

  /** Slots below `n` translate as before while their directory and tables keep their contents. */
  lemma SameTranslations(s: PhysState, t: PhysState, q: nat, n: nat)
    requires q < FRAME_LIMIT && n <= TABLE_SLOTS && t.mem[q] == s.mem[q]
    requires forall i | 0 <= i < n && HasTable(s, q, i) :: t.mem[Table(s, q, i)] == s.mem[Table(s, q, i)]
    ensures forall page: nat | page < n * 1024 :: Pte(t.mem, q, page) == Pte(s.mem, q, page)
  {
    forall page: nat | page < n * 1024
      ensures Pte(t.mem, q, page) == Pte(s.mem, q, page)
    {
      assert page / 1024 < n;
      assert HasTable(s, q, page / 1024) ==> t.mem[Table(s, q, page / 1024)] == s.mem[Table(s, q, page / 1024)];
    }
  }

  /** A directory maps what it did while it and its tables keep their contents. */
  lemma SameMapping(s: PhysState, t: PhysState, q: nat)
    requires q < FRAME_LIMIT && t.mem[q] == s.mem[q]
    requires forall i | 0 <= i < TABLE_SLOTS && HasTable(s, q, i) :: t.mem[Table(s, q, i)] == s.mem[Table(s, q, i)]
    ensures Mapping(t, q) == Mapping(s, q)
  {
    SameTranslations(s, t, q, TABLE_SLOTS);
  }

  // ---------- Refinement ----------

  /** Where a map may run: the slot has a table of its own, or there is a frame to make one. */
  predicate CanMap(s: PhysState, pd: nat, page: nat) {
    && SlotOk(s, pd, page / 1024) && page < TABLE_PAGES
    && (HasTable(s, pd, page / 1024) || s.free != {})
  }

  /** A map stores one entry in one table, and at most makes that table out of the lowest free frame. */
  lemma MapFrames(s: PhysState, pd: nat, page: nat, phys: word, flags: word)
    requires CanMap(s, pd, page)
    ensures var slot := page / 1024;
            var t := Map(s, pd, page, phys, flags);
            var table := if HasTable(s, pd, slot) then Table(s, pd, slot) else Lowest(s.free);
            && table != pd
            && t.mem[pd] == (if HasTable(s, pd, slot) then s.mem[pd] else s.mem[pd][slot := PdeValue(table, flags)])
            && t.mem[table] == (if HasTable(s, pd, slot) then s.mem[table] else ZeroPage())[page % 1024 := PteValue(phys, flags)]
            && (forall g | 0 <= g < FRAME_LIMIT && g != pd && g != table :: t.mem[g] == s.mem[g])
            && t.free == (if HasTable(s, pd, slot) then s.free else s.free - {table})
            && t.total == s.total
  {
  }

  /** The slot of the page has a table of its own afterwards. */
  lemma MapKeepsSlot(s: PhysState, pd: nat, page: nat, phys: word, flags: word)
    requires CanMap(s, pd, page)
    ensures SlotOk(Map(s, pd, page, phys, flags), pd, page / 1024)
  {
    MapFrames(s, pd, page, phys, flags);
    var slot, t := page / 1024, Map(s, pd, page, phys, flags);
    forall i | 0 <= i < TABLE_SLOTS && HasTable(t, pd, i)
      ensures i == slot || (HasTable(s, pd, i) && Table(t, pd, i) == Table(s, pd, i) != Table(t, pd, slot))
    {
    }
  }

  /** Slots keep their own tables, and no table is left empty. */
  lemma MapKeepsSlots(s: PhysState, pd: nat, shared: set<nat>, page: nat, phys: word, flags: word)
    requires CanMap(s, pd, page) && DirOkBut(s, pd, shared)
    ensures DirOkBut(Map(s, pd, page, phys, flags), pd, shared)
    ensures NoEmptyTable(s, pd) ==> NoEmptyTable(Map(s, pd, page, phys, flags), pd)
  {
    MapFrames(s, pd, page, phys, flags);
    var slot, t := page / 1024, Map(s, pd, page, phys, flags);
    assert Present(t.mem[Table(t, pd, slot)][page % 1024]);
    forall i | 0 <= i < TABLE_SLOTS && HasTable(t, pd, i)
      ensures i == slot || (HasTable(s, pd, i) && Table(t, pd, i) == Table(s, pd, i) != Table(t, pd, slot))
    {
    }
    forall i: nat | i < TABLE_SLOTS && i !in shared
      ensures OwnTable(t, pd, i)
    {
      assert OwnTable(s, pd, i);
    }
  }

  /** The directory stays well formed. */
  lemma MapKeepsDirectory(s: PhysState, pd: nat, page: nat, phys: word, flags: word)
    requires CanMap(s, pd, page) && DirOk(s, pd)
    ensures DirOk(Map(s, pd, page, phys, flags), pd)
    ensures NoEmptyTable(s, pd) ==> NoEmptyTable(Map(s, pd, page, phys, flags), pd)
  {
    var t := Map(s, pd, page, phys, flags);
    hide DirOk, DirOkBut, Map, CanMap;
    DirOkIffNoneShared(s, pd);
    DirOkIffNoneShared(t, pd);
    MapKeepsSlots(s, pd, {}, page, phys, flags);
  }

  /** One translation changes, whatever page is asked for. */
  lemma MapChangesOnePage(s: PhysState, pd: nat, page: nat, phys: word, flags: word, other: nat)
    requires CanMap(s, pd, page) && other < TABLE_PAGES
    ensures Pte(Map(s, pd, page, phys, flags).mem, pd, other)
            == if other == page then PteValue(phys, flags) else Pte(s.mem, pd, other)
  {
    MapFrames(s, pd, page, phys, flags);
    var t := Map(s, pd, page, phys, flags);
    if other / 1024 != page / 1024 && HasTable(s, pd, other / 1024) {
      assert Table(s, pd, other / 1024) != Table(t, pd, page / 1024);
    }
  }

  /** Refinement of `map[page := entry]`, with the exact frame a new table costs. */
  lemma MapRefines(s: PhysState, pd: nat, page: nat, phys: word, flags: word)
    requires CanMap(s, pd, page)
    ensures Mapping(Map(s, pd, page, phys, flags), pd) == Mapping(s, pd)[page := PteValue(phys, flags)]
    ensures Map(s, pd, page, phys, flags).free
            == if HasTable(s, pd, page / 1024) then s.free else s.free - {Lowest(s.free)}
  {
    MapFrames(s, pd, page, phys, flags);
    forall other: nat | other < TABLE_PAGES {
      MapChangesOnePage(s, pd, page, phys, flags, other);
    }
  }

  /** An unmap stores 0 in one table; a table it empties leaves the directory, and no frame becomes free. */
  lemma UnmapFrames(s: PhysState, pd: nat, page: nat)
    requires SlotOk(s, pd, page / 1024) && Present(Pte(s.mem, pd, page))
    ensures page < TABLE_PAGES
    ensures var slot, table := page / 1024, Table(s, pd, page / 1024);
            var t := Unmap(s, pd, page);
            var empty := EmptyTable(s.mem[table][page % 1024 := 0]);
            && t.mem[pd] == (if empty then s.mem[pd][slot := 0] else s.mem[pd])
            && t.mem[table] == s.mem[table][page % 1024 := 0]
            && (forall g | 0 <= g < FRAME_LIMIT && g != pd && g != table :: t.mem[g] == s.mem[g])
            && t.free == s.free && t.total == s.total
  {
  }

  lemma UnmapKeepsSlots(s: PhysState, pd: nat, shared: set<nat>, page: nat)
    requires SlotOk(s, pd, page / 1024) && DirOkBut(s, pd, shared)
    ensures DirOkBut(Unmap(s, pd, page), pd, shared)
    ensures NoEmptyTable(s, pd) ==> NoEmptyTable(Unmap(s, pd, page), pd)
  {
    if Present(Pte(s.mem, pd, page)) {
      UnmapFrames(s, pd, page);
      var slot, t := page / 1024, Unmap(s, pd, page);
      forall i | 0 <= i < TABLE_SLOTS && HasTable(t, pd, i)
        ensures HasTable(s, pd, i) && Table(t, pd, i) == Table(s, pd, i)
        ensures i == slot || Table(s, pd, i) != Table(s, pd, slot)
      {
      }
      forall i: nat | i < TABLE_SLOTS && i !in shared
        ensures OwnTable(t, pd, i)
      {
        assert OwnTable(s, pd, i);
      }
    }
  }

  lemma UnmapKeepsDirectory(s: PhysState, pd: nat, page: nat)
    requires DirOk(s, pd) && page < TABLE_PAGES
    ensures DirOk(Unmap(s, pd, page), pd)
    ensures NoEmptyTable(s, pd) ==> NoEmptyTable(Unmap(s, pd, page), pd)
  {
    DirGivesSlot(s, pd, page / 1024);
    hide DirOk, DirOkBut, Unmap, SlotOk;
    DirOkIffNoneShared(s, pd);
    DirOkIffNoneShared(Unmap(s, pd, page), pd);
    UnmapKeepsSlots(s, pd, {}, page);
  }

  /** The table of `page` serves no other page. */
  predicate LastInTable(s: PhysState, pd: nat, page: nat)
    requires pd < FRAME_LIMIT && page < TABLE_PAGES
  {
    page in Mapping(s, pd) && forall other: nat | other in Mapping(s, pd) && other / 1024 == page / 1024 :: other == page
  }

  lemma UnmapChangesOnePage(s: PhysState, pd: nat, page: nat, other: nat)
    requires SlotOk(s, pd, page / 1024) && Present(Pte(s.mem, pd, page)) && other < TABLE_PAGES
    ensures var now := Pte(Unmap(s, pd, page).mem, pd, other);
            if other == page then !Present(now)
            else now == Pte(s.mem, pd, other) || (!Present(now) && !Present(Pte(s.mem, pd, other)))
  {
    UnmapFrames(s, pd, page);
    var slot, table := page / 1024, Table(s, pd, page / 1024);
    if other / 1024 == slot {
      if other != page {
        assert s.mem[table][page % 1024 := 0][other % 1024] == s.mem[table][other % 1024];
      }
    } else if HasTable(s, pd, other / 1024) {
      assert Table(s, pd, other / 1024) != table;
    }
  }

  lemma EmptiedIffLast(s: PhysState, pd: nat, page: nat)
    requires SlotOk(s, pd, page / 1024) && page < TABLE_PAGES && Present(Pte(s.mem, pd, page))
    ensures EmptyTable(s.mem[Table(s, pd, page / 1024)][page % 1024 := 0]) <==> LastInTable(s, pd, page)
  {
    var slot, table := page / 1024, Table(s, pd, page / 1024);
    var cleared: Page := s.mem[table][page % 1024 := 0];
    if EmptyTable(cleared) {
      forall other: nat | other in Mapping(s, pd) && other / 1024 == slot
        ensures other == page
      {
        assert !Present(cleared[other % 1024]);
      }
    } else {
      var i :| 0 <= i < 1024 && Present(cleared[i]);
      var other := slot * 1024 + i;
      assert other / 1024 == slot && other % 1024 == i;
      assert other in Mapping(s, pd) && other != page;
    }
  }

  /** Refinement of map removal, in which no frame becomes free. */
  lemma UnmapRefines(s: PhysState, pd: nat, page: nat)
    requires SlotOk(s, pd, page / 1024) && page < TABLE_PAGES
    ensures Mapping(Unmap(s, pd, page), pd) == Mapping(s, pd) - {page}
    ensures Unmap(s, pd, page).free == s.free
  {
    if Present(Pte(s.mem, pd, page)) {
      UnmapFrames(s, pd, page);
      forall other: nat | other < TABLE_PAGES {
        UnmapChangesOnePage(s, pd, page, other);
      }
    }
  }

  /** The frame of a table is in use, so `pmm_free_frame` does not take it back. */
  lemma TableCannotBeFreed(s: PhysState, pd: nat, slot: nat)
    requires SlotOk(s, pd, slot) && HasTable(s, pd, slot)
    ensures !FreePasses(s.free, s.total, PageBase(s.mem[pd][slot]))
  {
    FrameOfBase(s.mem[pd][slot]);
  }

  /** The page just mapped is alone in its table exactly when the map made that table. */
  lemma LastInTableAfterMap(s: PhysState, pd: nat, page: nat, phys: word, flags: word)
    requires CanMap(s, pd, page) && NoEmptyTable(s, pd) && page !in Mapping(s, pd)
    ensures LastInTable(Map(s, pd, page, phys, flags), pd, page) <==> !HasTable(s, pd, page / 1024)
  {
    var slot := page / 1024;
    MapRefines(s, pd, page, phys, flags);
    if HasTable(s, pd, slot) {
      var i :| 0 <= i < 1024 && Present(s.mem[Table(s, pd, slot)][i]);
      var other := slot * 1024 + i;
      assert other / 1024 == slot && other % 1024 == i;
      assert other in Mapping(s, pd) && other in Mapping(Map(s, pd, page, phys, flags), pd);
    } else {
      assert forall other: nat | other < TABLE_PAGES && other / 1024 == slot :: other !in Mapping(s, pd);
    }
  }

  /** Mapping a fresh page and unmapping it returns, with every translation and all free frames as before, exactly
      when its slot had a table already. */
  lemma MapThenUnmapRestoresIffTable(s: PhysState, pd: nat, page: nat, phys: word, flags: word)
    requires CanMap(s, pd, page) && NoEmptyTable(s, pd) && page !in Mapping(s, pd)
    ensures var t := Map(s, pd, page, phys, flags);
            && SlotOk(t, pd, page / 1024)
            && (!LastInTable(t, pd, page) && Mapping(Unmap(t, pd, page), pd) == Mapping(s, pd)
                && Unmap(t, pd, page).free == s.free
                <==> HasTable(s, pd, page / 1024))
  {
    hide Mapping, LastInTable, DirOkBut;
    var t := Map(s, pd, page, phys, flags);
    var before := Mapping(s, pd);
    MapKeepsSlot(s, pd, page, phys, flags);
    MapRefines(s, pd, page, phys, flags);
    UnmapRefines(t, pd, page);
    LastInTableAfterMap(s, pd, page, phys, flags);
    assert before[page := PteValue(phys, flags)] - {page} == before;
  }

  /** The failing case: in a slot without a table the unmap of the page just mapped panics, and the table's frame is
      lost although every translation is as before. */
  lemma FreshTableIsLost(s: PhysState, pd: nat, page: nat, phys: word, flags: word)
    requires CanMap(s, pd, page) && !HasTable(s, pd, page / 1024)
    ensures var t := Map(s, pd, page, phys, flags);
            && SlotOk(t, pd, page / 1024) && LastInTable(t, pd, page)
            && Mapping(Unmap(t, pd, page), pd) == Mapping(s, pd)
            && Unmap(t, pd, page).free == s.free - {Lowest(s.free)} != s.free
  {
    var slot := page / 1024;
    var t := Map(s, pd, page, phys, flags);
    assert forall other: nat | other < TABLE_PAGES && other / 1024 == slot :: other !in Mapping(s, pd);
    MapKeepsSlot(s, pd, page, phys, flags);
    MapRefines(s, pd, page, phys, flags);
    UnmapRefines(t, pd, page);
    hide Map, Unmap, SlotOk, CanMap, PteValue;
    assert Mapping(s, pd)[page := PteValue(phys, flags)] - {page} == Mapping(s, pd);
  }

  /** What one edit of a directory slot relies on. */
  predicate Ready(s: PhysState, pd: nat, slot: nat) {
    && SelfMapped(s.mem, pd) && pd !in s.free && slot < TABLE_SLOTS
    && (HasTable(s, pd, slot) ==> Table(s, pd, slot) != pd)
  }

  // ---------- The code, through the recursive window ----------

  /** Maps a page in the current directory; panics exactly when a table is needed and no frame is free. */
  method MapPage(m: Machine, phys: word, virt: word, flags: word) returns (r: Outcome<()>)
    requires m.frames.Valid() && SlotOk(m.Phys(), m.cr3, virt / 0x40_0000)
    modifies m`mem, m.frames.bitmap
    ensures r.Done? <==> CanMap(old(m.Phys()), m.cr3, virt / PAGE_SIZE)
    ensures r.Panic? ==> m.Phys() == old(m.Phys()) && m.frames.Free() == {}
    ensures r.Done? ==> m.Phys() == Map(old(m.Phys()), m.cr3, virt / PAGE_SIZE, phys, flags)
  {
    var pdIndex, ptIndex := virt / 0x40_0000, virt / PAGE_SIZE % 1024;
    assert Ready(m.Phys(), m.cr3, pdIndex);
    assert virt / PAGE_SIZE / 1024 == pdIndex;
    hide DirBase, OwnTable, PteValue, Present, Frame;
    if !Present(m.LoadWindow(RECURSIVE_SLOT, pdIndex)) {
      var pt := m.frames.AllocFrame();
      if pt.Panic? {
        return Panic;
      }
      var pdFlags := PAGE_PRESENT + PAGE_RW;
      if flags / PAGE_USER % 2 == 1 {
        pdFlags := pdFlags + PAGE_USER;
      }
      assert pt.value + pdFlags == PdeValue(Lowest(old(m.frames.Free())), flags);
      hide PdeValue;
      m.StoreWindow(RECURSIVE_SLOT, pdIndex, pt.value + pdFlags);
      m.ClearWindow(pdIndex);
    }
    m.StoreWindow(pdIndex, ptIndex, PteValue(phys, flags));
    return Done(());
  }

  /** Unmaps a page of the current directory; an unmapped page is left alone. Panics exactly when the page was the
      last of its table, with the entry and the directory slot cleared and the table's frame still in use. */
  method UnmapPage(m: Machine, virt: word) returns (r: Outcome<()>)
    requires m.frames.Valid() && SlotOk(m.Phys(), m.cr3, virt / 0x40_0000)
    modifies m`mem, m.frames.bitmap
    ensures m.Phys() == Unmap(old(m.Phys()), m.cr3, virt / PAGE_SIZE)
    ensures r.Panic? <==> LastInTable(old(m.Phys()), m.cr3, virt / PAGE_SIZE)
  {
    var pdIndex, ptIndex := virt / 0x40_0000, virt / PAGE_SIZE % 1024;
    ghost var s, page := m.Phys(), virt / PAGE_SIZE;
    assert page / 1024 == pdIndex;
    if !Present(m.LoadWindow(RECURSIVE_SLOT, pdIndex)) {
      return Done(());
    }
    if !Present(m.LoadWindow(pdIndex, ptIndex)) {
      return Done(());
    }
    EmptiedIffLast(s, m.cr3, page);
    TableCannotBeFreed(s, m.cr3, pdIndex);
    hide LastInTable;
    m.StoreWindow(pdIndex, ptIndex, 0);
    var empty := TableIsEmpty(m, pdIndex);
    if empty {
      var ptPhys := PageBase(m.LoadWindow(RECURSIVE_SLOT, pdIndex));
      m.StoreWindow(RECURSIVE_SLOT, pdIndex, 0);
      r := m.frames.FreeFrame(ptPhys);
    } else {
      r := Done(());
    }
  }

  /** The scan of the whole table, through its window. */
  method TableIsEmpty(m: Machine, pdIndex: nat) returns (empty: bool)
    requires pdIndex < 1024 && SelfMapped(m.mem, m.cr3) && Present(m.mem[m.cr3][pdIndex])
    ensures empty <==> forall j | 0 <= j < 1024 :: !Present(m.mem[Frame(m.mem[m.cr3][pdIndex])][j])
  {
    hide Present, Frame;
    for i := 0 to 1024
      invariant forall j | 0 <= j < i :: !Present(m.mem[Frame(m.mem[m.cr3][pdIndex])][j])
    {
      if Present(m.LoadWindow(pdIndex, i)) {
        return false;
      }
    }
    return true;
  }
}
