/** Address spaces that stay apart: their tables, their user pages and the kernel's own pages share no frame. */
module Spaces {
  import opened Words
  import opened Pmm
  import opened Mmu
  import opened Paging
  import opened AddressSpace
  import Isolation
  import opened ArgStack
  import opened Loader
  import opened Program
  import opened KHeap

  // ---------- What every space keeps ----------

  /** No directory entry of the kernel's quarter is open to user mode. */
  ghost predicate KernelClosed(m: Memory, q: nat)
    requires q < FRAME_LIMIT
  {
    forall i | USER_SLOTS <= i < 1024 :: !Program.Bit(m[q][i], PAGE_USER)
  }

  ghost predicate IsUser(s: PhysState, q: nat, page: nat)
    requires q < FRAME_LIMIT
  {
    page < USER_PAGES && Present(Pte(s.mem, q, page))
  }

  /** The frame behind a user page. */
  function FrameOf(s: PhysState, q: nat, page: nat): (f: nat)
    requires q < FRAME_LIMIT && page < USER_PAGES
    ensures f < FRAME_LIMIT
  {
    Frame(Pte(s.mem, q, page))
  }

  ghost predicate UsersTaken(s: PhysState, q: nat)
    requires q < FRAME_LIMIT
  {
    forall page: nat | IsUser(s, q, page) :: FrameOf(s, q, page) !in s.free
  }

  ghost predicate SpaceOk(s: PhysState, q: nat) {
    DirOk(s, q) && WindowsClear(s.mem, q) && KernelClosed(s.mem, q) && UsersTaken(s, q)
  }

  /** No user page of `p` stands on directory `q` or one of its tables. */
  ghost predicate OffTables(s: PhysState, p: nat, q: nat)
    requires p < FRAME_LIMIT && q < FRAME_LIMIT
  {
    forall page: nat | IsUser(s, p, page) ::
      && FrameOf(s, p, page) != q
      && forall i | 0 <= i < TABLE_SLOTS && HasTable(s, q, i) :: Table(s, q, i) != FrameOf(s, p, page)
  }

  /** Every user page stands on a frame of its own. */
  ghost predicate OwnFrames(s: PhysState, p: nat, q: nat)
    requires p < FRAME_LIMIT && q < FRAME_LIMIT
  {
    forall a: nat, b: nat | IsUser(s, p, a) && IsUser(s, q, b) && (p != q || a != b) ::
      FrameOf(s, p, a) != FrameOf(s, q, b)
  }

  ghost predicate PairOk(s: PhysState, p: nat, q: nat)
    requires p < FRAME_LIMIT && q < FRAME_LIMIT
  {
    (p != q ==> Isolation.Separate(s, p, q)) && OffTables(s, p, q) && OwnFrames(s, p, q)
  }

  /** The kernel's frames are not free, and none is the directory, a table or a user page. */
  ghost predicate KernelApart(s: PhysState, q: nat, kernel: set<nat>)
    requires q < FRAME_LIMIT
  {
    forall f <- kernel ::
      && f !in s.free && f != q && f < FRAME_LIMIT
      && (forall i | 0 <= i < TABLE_SLOTS && HasTable(s, q, i) :: Table(s, q, i) != f)
      && (forall page: nat | IsUser(s, q, page) :: FrameOf(s, q, page) != f)
  }

  ghost predicate DirsInRange(dirs: set<nat>) {
    forall q <- dirs :: q < FRAME_LIMIT
  }

  /** All spaces are well formed, and they and the kernel's own frames are apart from each other. */
  ghost predicate SpacesOk(s: PhysState, dirs: set<nat>, kernel: set<nat>) {
    && DirsInRange(dirs)
    && (forall q <- dirs :: SpaceOk(s, q) && KernelApart(s, q, kernel))
    && (forall p <- dirs, q <- dirs :: PairOk(s, p, q))
  }

  lemma SpacesAreIsolated(s: PhysState, dirs: set<nat>, kernel: set<nat>)
    requires SpacesOk(s, dirs, kernel)
    ensures Isolation.Isolated(s, dirs)
  {
    hide DirOk, Isolation.Separate;
  }

  // ---------- What a step may do to a space ----------

  /** The space has its tables and user pages as before. */
  ghost predicate SameSpace(s: PhysState, t: PhysState, q: nat)
    requires q < FRAME_LIMIT
  {
    t.mem[q] == s.mem[q] && SameUserPtes(t.mem, s.mem, q)
  }

  /** Tables and user pages are as before or stand on frames that were free. */
  ghost predicate GrownSpace(s: PhysState, t: PhysState, q: nat)
    requires q < FRAME_LIMIT
  {
    && (forall i | 0 <= i < TABLE_SLOTS && HasTable(t, q, i) ::
          (HasTable(s, q, i) && Table(t, q, i) == Table(s, q, i)) || Table(t, q, i) in s.free)
    && (forall page: nat | IsUser(t, q, page) ::
          (IsUser(s, q, page) && FrameOf(t, q, page) == FrameOf(s, q, page)) || FrameOf(t, q, page) in s.free)
  }

  ghost predicate SettledUsers(s: PhysState, t: PhysState, q: nat)
    requires q < FRAME_LIMIT
  {
    forall page: nat | IsUser(t, q, page) :: IsUser(s, q, page) && FrameOf(t, q, page) == FrameOf(s, q, page)
  }

  /** No table and no user page has been added or moved. */
  ghost predicate SettledSpace(s: PhysState, t: PhysState, q: nat)
    requires q < FRAME_LIMIT
  {
    && (forall i | 0 <= i < TABLE_SLOTS && HasTable(t, q, i) :: HasTable(s, q, i) && Table(t, q, i) == Table(s, q, i))
    && SettledUsers(s, t, q)
  }

  lemma SameIsSettled(s: PhysState, t: PhysState, q: nat)
    requires q < FRAME_LIMIT && SameSpace(s, t, q)
    ensures SettledSpace(s, t, q) && GrownSpace(s, t, q)
  {
    SameSlots(s, t, q);
    hide Pte;
  }

  /** Nothing that a space uses is free. */
  lemma SpaceIsTaken(s: PhysState, q: nat)
    requires SpaceOk(s, q)
    ensures q < FRAME_LIMIT && q !in s.free
    ensures forall i | 0 <= i < TABLE_SLOTS && HasTable(s, q, i) :: Table(s, q, i) !in s.free
    ensures UsersTaken(s, q)
  {
  }

  /** Two spaces, of which at most one has grown, stay apart. */
  lemma PairStays(s: PhysState, t: PhysState, p: nat, q: nat)
    requires SpaceOk(s, p) && SpaceOk(s, q) && p < FRAME_LIMIT && q < FRAME_LIMIT && p != q && PairOk(s, p, q)
    requires GrownSpace(s, t, p) && GrownSpace(s, t, q) && (SettledSpace(s, t, p) || SettledSpace(s, t, q))
    ensures PairOk(t, p, q)
  {
    SpaceIsTaken(s, p);
    SpaceIsTaken(s, q);
    hide SpaceOk, DirOk, Pte, Frame, Present, Table, HasTable, FrameOf, IsUser;
  }

  /** A space whose user pages stay is apart from itself whatever tables it gains. */
  lemma SelfStays(s: PhysState, t: PhysState, q: nat)
    requires SpaceOk(s, q) && q < FRAME_LIMIT && PairOk(s, q, q)
    requires GrownSpace(s, t, q) && SettledUsers(s, t, q)
    ensures PairOk(t, q, q)
  {
    SpaceIsTaken(s, q);
    hide SpaceOk, DirOk, Pte, Frame, Present, Table, HasTable, FrameOf, IsUser;
  }

  lemma KernelStaysApart(s: PhysState, t: PhysState, q: nat, kernel: set<nat>)
    requires q < FRAME_LIMIT && KernelApart(s, q, kernel) && GrownSpace(s, t, q) && t.free <= s.free
    ensures KernelApart(t, q, kernel)
  {
    hide Pte, Frame, Present, Table, HasTable, FrameOf;
  }

  /** A space that keeps its directory and user pages. */
  lemma SameSpaceOk(s: PhysState, t: PhysState, q: nat)
    requires SpaceOk(s, q) && q < FRAME_LIMIT && SameSpace(s, t, q) && t.free <= s.free && t.total == s.total
    ensures SpaceOk(t, q)
  {
    SameDirectory(s, t, q);
    SameIsSettled(s, t, q);
    UsersStayTaken(s, t, q);
    hide DirOk, Pte, UsersTaken;
  }

  lemma UsersStayTaken(s: PhysState, t: PhysState, q: nat)
    requires q < FRAME_LIMIT && UsersTaken(s, q) && SettledUsers(s, t, q) && t.free <= s.free
    ensures UsersTaken(t, q)
  {
    hide IsUser, FrameOf;
  }

  lemma SettledIsGrown(s: PhysState, t: PhysState, q: nat)
    requires q < FRAME_LIMIT && SettledSpace(s, t, q)
    ensures GrownSpace(s, t, q)
  {
    hide IsUser, FrameOf, HasTable, Table;
  }

  /** A step in which at most one space grows keeps all of them apart. */
  lemma StepKeepsSpaces(s: PhysState, t: PhysState, dirs: set<nat>, kernel: set<nat>, actor: nat)
    requires SpacesOk(s, dirs, kernel) && t.free <= s.free
    requires forall q <- dirs :: SpaceOk(t, q) && (q != actor ==> SettledSpace(s, t, q))
    requires actor in dirs ==> GrownSpace(s, t, actor) && PairOk(t, actor, actor)
    ensures SpacesOk(t, dirs, kernel)
  {
    hide SpaceOk, PairOk, KernelApart, SettledSpace, GrownSpace;
    forall q | q in dirs
      ensures GrownSpace(s, t, q) && KernelApart(t, q, kernel)
    {
      if q != actor {
        SettledIsGrown(s, t, q);
      }
      KernelStaysApart(s, t, q, kernel);
    }
    forall p, q | p in dirs && q in dirs
      ensures PairOk(t, p, q)
    {
      if p != q {
        PairStays(s, t, p, q);
      } else if p != actor {
        SettledSelfStays(s, t, p);
      }
    }
  }

  lemma SettledSelfStays(s: PhysState, t: PhysState, q: nat)
    requires SpaceOk(s, q) && q < FRAME_LIMIT && PairOk(s, q, q) && SettledSpace(s, t, q)
    ensures PairOk(t, q, q)
  {
    SettledIsGrown(s, t, q);
    hide SpaceOk, PairOk;
    SelfStays(s, t, q);
  }

  // ---------- The kernel's own pages ----------

  /** A frame the kernel takes for itself. */
  lemma TakeKernelFrame(s: PhysState, dirs: set<nat>, kernel: set<nat>, f: nat)
    requires SpacesOk(s, dirs, kernel) && f in s.free
    ensures SpacesOk(WithoutFrame(s, f), dirs, kernel + {f})
  {
    var t := WithoutFrame(s, f);
    hide SpaceOk, PairOk, KernelApart, SettledSpace, GrownSpace;
    forall q | q in dirs
      ensures SpaceOk(t, q) && SettledSpace(s, t, q)
      ensures KernelApart(t, q, {f})
    {
      SameIsSettled(s, t, q);
      SameSpaceOk(s, t, q);
      FreeFrameIsApart(s, q, f);
    }
    StepKeepsSpaces(s, t, dirs, kernel, FRAME_LIMIT);
    forall q | q in dirs
      ensures KernelApart(t, q, kernel + {f})
    {
      KernelUnion(t, q, kernel, {f});
    }
  }

  lemma KernelUnion(s: PhysState, q: nat, a: set<nat>, b: set<nat>)
    requires q < FRAME_LIMIT && KernelApart(s, q, a) && KernelApart(s, q, b)
    ensures KernelApart(s, q, a + b)
  {
    hide IsUser, FrameOf, HasTable, Table;
  }

  lemma FreeFrameIsApart(s: PhysState, q: nat, f: nat)
    requires SpaceOk(s, q) && q < FRAME_LIMIT && f in s.free
    ensures KernelApart(WithoutFrame(s, f), q, {f})
  {
    var t := WithoutFrame(s, f);
    SpaceIsTaken(s, q);
    SameIsSettled(s, t, q);
    assert f < FRAME_LIMIT;
    hide SpaceOk, DirOk, Pte, IsUser, FrameOf, HasTable, Table;
  }

  /** What a kernel map in directory `d` writes is neither another directory nor a user table nor a user page. */
  lemma KernelMapMisses(s: PhysState, d: nat, page: nat, phys: word, flags: word, q: nat)
    requires CanMap(s, d, page) && page >= USER_PAGES && SpaceOk(s, d) && SpaceOk(s, q) && q < FRAME_LIMIT
    requires PairOk(s, q, d) && PairOk(s, d, q)
    ensures var t := Map(s, d, page, phys, flags);
            && (q != d ==> t.mem[q] == s.mem[q])
            && (forall i | 0 <= i < USER_SLOTS && HasTable(s, q, i) :: t.mem[Table(s, q, i)] == s.mem[Table(s, q, i)])
            && (forall i | 0 <= i < USER_SLOTS :: t.mem[q][i] == s.mem[q][i])
            && (forall p: nat | IsUser(s, q, p) :: t.mem[FrameOf(s, q, p)] == s.mem[FrameOf(s, q, p)])
  {
    MapFrames(s, d, page, phys, flags);
    SpaceIsTaken(s, q);
    SpaceIsTaken(s, d);
    SlotsOfDirectory(s, d);
    assert page / 1024 >= USER_SLOTS;
    hide Map, SpaceOk, DirOk, Pte, Present, Frame, PdeValue, PteValue, IsUser, FrameOf;
  }

  lemma SlotsOfDirectory(s: PhysState, d: nat)
    requires DirOk(s, d)
    ensures forall i, j | 0 <= i < TABLE_SLOTS && 0 <= j < TABLE_SLOTS && i != j && HasTable(s, d, i) && HasTable(s, d, j) ::
              Table(s, d, i) != Table(s, d, j)
    ensures forall i | 0 <= i < TABLE_SLOTS && HasTable(s, d, i) :: Table(s, d, i) != d
  {
  }

  lemma UserPtesStay(s: PhysState, t: PhysState, q: nat)
    requires q < FRAME_LIMIT
    requires forall i | 0 <= i < USER_SLOTS :: t.mem[q][i] == s.mem[q][i]
    requires forall i | 0 <= i < USER_SLOTS && HasTable(s, q, i) :: t.mem[Table(s, q, i)] == s.mem[Table(s, q, i)]
    ensures SameUserPtes(t.mem, s.mem, q) && SettledUsers(s, t, q)
  {
    forall page: nat | page < USER_PAGES
      ensures Pte(t.mem, q, page) == Pte(s.mem, q, page)
    {
      assert page / 1024 < USER_SLOTS;
      assert HasTable(s, q, page / 1024) ==> t.mem[Table(s, q, page / 1024)] == s.mem[Table(s, q, page / 1024)];
    }
  }

  lemma ViewsStay(s: PhysState, t: PhysState, q: nat)
    requires q < FRAME_LIMIT && SameUserPtes(t.mem, s.mem, q)
    requires forall p: nat | IsUser(s, q, p) :: t.mem[FrameOf(s, q, p)] == s.mem[FrameOf(s, q, p)]
    ensures SameViews(t.mem, s.mem, q)
  {
    hide PageBytes, Pte;
    forall page: nat | page < USER_PAGES
      ensures View(t.mem, q, page) == View(s.mem, q, page)
    {
      assert IsUser(s, q, page) ==> t.mem[FrameOf(s, q, page)] == s.mem[FrameOf(s, q, page)];
    }
  }

  /** The user half looks the same. */
  ghost predicate SameViews(after: Memory, before: Memory, q: nat)
    requires q < FRAME_LIMIT
  {
    forall page: nat | page < USER_PAGES :: View(after, q, page) == View(before, q, page)
  }

  lemma KernelMapSpace(s: PhysState, d: nat, page: nat, phys: word, flags: word, q: nat)
    requires CanMap(s, d, page) && page >= USER_PAGES && SpaceOk(s, d) && SpaceOk(s, q) && q < FRAME_LIMIT && q != d
    requires PairOk(s, q, d) && PairOk(s, d, q)
    ensures var t := Map(s, d, page, phys, flags);
            SpaceOk(t, q) && SettledSpace(s, t, q) && SameViews(t.mem, s.mem, q)
  {
    var t := Map(s, d, page, phys, flags);
    KernelMapMisses(s, d, page, phys, flags, q);
    MapFrames(s, d, page, phys, flags);
    hide Map, PairOk, SpaceOk, IsUser, FrameOf, Pte;
    UserPtesStay(s, t, q);
    ViewsStay(s, t, q);
    SameIsSettled(s, t, q);
    SameSpaceOk(s, t, q);
  }

  lemma KernelEntry(table: nat, flags: word)
    requires table < FRAME_LIMIT && flags / PAGE_USER % 2 == 0
    ensures !Program.Bit(PdeValue(table, flags), PAGE_USER)
  {
  }

  lemma KernelMapOwnSpace(s: PhysState, d: nat, page: nat, phys: word, flags: word)
    requires CanMap(s, d, page) && page >= USER_PAGES && SpaceOk(s, d) && PairOk(s, d, d) && flags / PAGE_USER % 2 == 0
    ensures var t := Map(s, d, page, phys, flags);
            SpaceOk(t, d) && GrownSpace(s, t, d) && PairOk(t, d, d) && SameViews(t.mem, s.mem, d)
  {
    var t, slot := Map(s, d, page, phys, flags), page / 1024;
    SpaceIsTaken(s, d);
    KernelMapMisses(s, d, page, phys, flags, d);
    MapFrames(s, d, page, phys, flags);
    MapKeepsDirectory(s, d, page, phys, flags);
    UserPtesStay(s, t, d);
    ViewsStay(s, t, d);
    UsersStayTaken(s, t, d);
    if !HasTable(s, d, slot) {
      KernelEntry(Lowest(s.free), flags);
    }
    assert KernelClosed(t.mem, d) && WindowsClear(t.mem, d);
    OneSlotGrows(s, t, d, slot);
    SelfStays(s, t, d);
  }

  lemma OneSlotGrows(s: PhysState, t: PhysState, d: nat, slot: nat)
    requires d < FRAME_LIMIT && slot < TABLE_SLOTS && SettledUsers(s, t, d)
    requires forall i | 0 <= i < 1024 && i != slot :: t.mem[d][i] == s.mem[d][i]
    requires (HasTable(s, d, slot) && t.mem[d][slot] == s.mem[d][slot]) || Table(t, d, slot) in s.free
    ensures GrownSpace(s, t, d)
  {
    hide IsUser, FrameOf;
  }

  /** A kernel page mapped in any directory leaves all spaces well formed and apart, and every user half as it was. */
  lemma KernelMapKeepsSpaces(s: PhysState, dirs: set<nat>, kernel: set<nat>, d: nat, page: nat, phys: word, flags: word)
    requires SpacesOk(s, dirs, kernel) && d in dirs && CanMap(s, d, page) && page >= USER_PAGES
    requires flags / PAGE_USER % 2 == 0
    ensures SpacesOk(Map(s, d, page, phys, flags), dirs, kernel)
    ensures forall q <- dirs :: SameViews(Map(s, d, page, phys, flags).mem, s.mem, q)
  {
    var t := Map(s, d, page, phys, flags);
    MapFrames(s, d, page, phys, flags);
    hide Map, SpaceOk, PairOk, KernelApart, SettledSpace, GrownSpace, SameViews, CanMap;
    KernelMapOwnSpace(s, d, page, phys, flags);
    forall q | q in dirs && q != d
      ensures SpaceOk(t, q) && SettledSpace(s, t, q) && SameViews(t.mem, s.mem, q)
    {
      KernelMapSpace(s, d, page, phys, flags, q);
    }
    StepKeepsSpaces(s, t, dirs, kernel, d);
  }

  // ---------- Before there are programs ----------

  /** The windows are closed, the kernel's quarter is closed to user mode, and above the first 4 MiB there is no user
      table. */
  ghost predicate KernelHalfOnly(m: Memory, pd: nat) {
    && pd < FRAME_LIMIT && WindowsClear(m, pd) && KernelClosed(m, pd)
    && forall i | 1 <= i < USER_SLOTS :: !Present(m[pd][i])
  }

  lemma MapKeepsKernelHalf(s: PhysState, pd: nat, page: nat, phys: word, flags: word)
    requires CanMap(s, pd, page) && page >= USER_PAGES && flags / PAGE_USER % 2 == 0 && KernelHalfOnly(s.mem, pd)
    ensures KernelHalfOnly(Map(s, pd, page, phys, flags).mem, pd)
  {
    MapFrames(s, pd, page, phys, flags);
    if !HasTable(s, pd, page / 1024) {
      KernelEntry(Lowest(s.free), flags);
    }
    hide Map, Present, PdeValue;
  }

  lemma {:induction false} MapsPagesKeepKernelHalf(s: PhysState, pd: nat, page: nat, n: nat, t: PhysState)
    requires MapsPages(s, pd, page, n, t) && page >= USER_PAGES && KernelHalfOnly(s.mem, pd)
    ensures KernelHalfOnly(t.mem, pd)
    decreases n
  {
    hide KernelHalfOnly, CanMap, Map;
    if n > 0 {
      assert page * PAGE_SIZE / PAGE_SIZE == page;
      var f := Lowest(s.free);
      MapKeepsKernelHalf(WithoutFrame(s, f), pd, page, f * PAGE_SIZE, PAGE_PRESENT + PAGE_RW);
      MapsPagesKeepKernelHalf(WithPage(s, pd, page * PAGE_SIZE), pd, page + 1, n - 1, t);
    }
  }

  /** Without the first 4 MiB it is a space with no user page. */
  lemma KernelHalfIsSpace(s: PhysState, pd: nat)
    requires DirOk(s, pd) && KernelHalfOnly(s.mem, pd) && !Present(s.mem[pd][0])
    ensures SpaceOk(s, pd) && forall page: nat :: !IsUser(s, pd, page)
  {
    forall page: nat
      ensures !IsUser(s, pd, page)
    {
      assert page < USER_PAGES ==> page / 1024 < USER_SLOTS;
    }
    hide DirOk;
  }

  /** The kernel's own space alone, with any frames of its own that are in use and are no tables. */
  lemma FirstSpace(s: PhysState, pd: nat, kernel: set<nat>)
    requires SpaceOk(s, pd) && pd < FRAME_LIMIT && forall page: nat :: !IsUser(s, pd, page)
    requires forall f <- kernel :: f !in s.free && f < FRAME_LIMIT && NoTable(s, pd, f)
    ensures SpacesOk(s, {pd}, kernel)
  {
    NewAlone(s, pd);
    hide SpaceOk, PairOk, IsUser;
  }

  // ---------- New spaces ----------

  lemma CreateOther(s: PhysState, cr3: nat, pd: nat, q: nat)
    requires SpaceOk(s, cr3) && pd in s.free && SpaceOk(s, q) && q < FRAME_LIMIT && cr3 < FRAME_LIMIT
    ensures pd < FRAME_LIMIT
    ensures var t := CreateDir(s, cr3, pd);
            SpaceOk(t, q) && SettledSpace(s, t, q) && SameViews(t.mem, s.mem, q) && q != pd
  {
    var t := CreateDir(s, cr3, pd);
    SpaceIsTaken(s, q);
    hide IsUser, FrameOf, Pte, NewDirectory;
    assert forall g | 0 <= g < FRAME_LIMIT && g != pd :: t.mem[g] == s.mem[g];
    UserPtesStay(s, t, q);
    ViewsStay(s, t, q);
    SameIsSettled(s, t, q);
    SameSpaceOk(s, t, q);
  }

  /** The tables of a new directory are its creator's kernel tables, and it has no user page. */
  lemma CreateNew(s: PhysState, cr3: nat, pd: nat)
    requires SpaceOk(s, cr3) && pd in s.free && cr3 < FRAME_LIMIT
    ensures pd < FRAME_LIMIT
    ensures var t := CreateDir(s, cr3, pd);
            && SpaceOk(t, pd) && (forall page: nat :: !IsUser(t, pd, page))
            && (forall i | 0 <= i < TABLE_SLOTS && HasTable(t, pd, i) ::
                  i >= USER_SLOTS && HasTable(s, cr3, i) && Table(t, pd, i) == Table(s, cr3, i))
  {
    var t := CreateDir(s, cr3, pd);
    Isolation.CreateMakesEmptySpace(s, cr3, pd);
    forall page: nat
      ensures !IsUser(t, pd, page)
    {
      assert page < USER_PAGES ==> page !in Mapping(t, pd);
    }
    WindowEntryIsClosed(pd);
  }

  lemma WindowEntryIsClosed(pd: nat)
    requires pd < FRAME_LIMIT
    ensures pd * PAGE_SIZE % PAGE_SIZE == 0 && !Program.Bit(WindowEntry(pd * PAGE_SIZE), PAGE_USER)
  {
  }

  lemma NewPair(s: PhysState, t: PhysState, cr3: nat, pd: nat, q: nat)
    requires cr3 < FRAME_LIMIT && pd < FRAME_LIMIT && q < FRAME_LIMIT && q != pd && pd in s.free
    requires SpaceOk(s, q) && SpaceOk(s, cr3) && SettledSpace(s, t, q) && PairOk(s, q, cr3) && PairOk(s, cr3, q)
    requires forall page: nat :: !IsUser(t, pd, page)
    requires forall i | 0 <= i < TABLE_SLOTS && HasTable(t, pd, i) ::
               i >= USER_SLOTS && HasTable(s, cr3, i) && Table(t, pd, i) == Table(s, cr3, i)
    ensures PairOk(t, pd, q) && PairOk(t, q, pd)
  {
    SpaceIsTaken(s, q);
    SpaceIsTaken(s, cr3);
    SlotsOfDirectory(s, cr3);
    hide SpaceOk, IsUser, FrameOf, HasTable, Table;
  }

  lemma NewAlone(t: PhysState, pd: nat)
    requires pd < FRAME_LIMIT && forall page: nat :: !IsUser(t, pd, page)
    ensures PairOk(t, pd, pd)
  {
    hide IsUser;
  }

  lemma NewApart(s: PhysState, t: PhysState, cr3: nat, pd: nat, kernel: set<nat>)
    requires cr3 < FRAME_LIMIT && pd < FRAME_LIMIT && pd in s.free && KernelApart(s, cr3, kernel) && t.free <= s.free
    requires forall page: nat :: !IsUser(t, pd, page)
    requires forall i | 0 <= i < TABLE_SLOTS && HasTable(t, pd, i) ::
               i >= USER_SLOTS && HasTable(s, cr3, i) && Table(t, pd, i) == Table(s, cr3, i)
    ensures KernelApart(t, pd, kernel)
  {
    hide IsUser, FrameOf, HasTable, Table;
  }

  /** A new directory joins the others, apart from them. */
  lemma CreateKeepsSpaces(s: PhysState, dirs: set<nat>, kernel: set<nat>, cr3: nat, pd: nat)
    requires SpacesOk(s, dirs, kernel) && cr3 in dirs && pd in s.free
    ensures pd < FRAME_LIMIT && pd !in dirs && SpacesOk(CreateDir(s, cr3, pd), dirs + {pd}, kernel)
    ensures forall q <- dirs :: SameViews(CreateDir(s, cr3, pd).mem, s.mem, q)
    ensures forall page: nat :: !IsUser(CreateDir(s, cr3, pd), pd, page)
  {
    var t := CreateDir(s, cr3, pd);
    CreateNew(s, cr3, pd);
    NewAlone(t, pd);
    NewApart(s, t, cr3, pd, kernel);
    hide SpaceOk, PairOk, KernelApart, SettledSpace, GrownSpace, SameViews, CreateDir, IsUser;
    forall q | q in dirs
      ensures SpaceOk(t, q) && SettledSpace(s, t, q) && SameViews(t.mem, s.mem, q) && q != pd
      ensures PairOk(t, pd, q) && PairOk(t, q, pd)
    {
      CreateOther(s, cr3, pd, q);
      NewPair(s, t, cr3, pd, q);
    }
    CreateTakes(s, cr3, pd);
    StepKeepsSpaces(s, t, dirs, kernel, pd);
  }

  lemma CreateTakes(s: PhysState, cr3: nat, pd: nat)
    requires cr3 < FRAME_LIMIT && pd < FRAME_LIMIT
    ensures CreateDir(s, cr3, pd).free <= s.free
  {
  }

  // ---------- Loading ----------

  lemma LoadOther(s0: PhysState, s: PhysState, cr3: nat, pd: nat, q: nat)
    requires Loading(s0, s, cr3, pd) && SpaceOk(s0, q) && q < FRAME_LIMIT && pd < FRAME_LIMIT && q != pd
    requires PairOk(s0, q, pd)
    ensures SpaceOk(s, q) && SettledSpace(s0, s, q) && SameViews(s.mem, s0.mem, q)
  {
    SpaceIsTaken(s0, q);
    hide IsUser, FrameOf, Pte, DirOk, FramesTaken, UserTables, SpaceOk;
    assert forall g | 0 <= g < FRAME_LIMIT && g != pd && g !in s0.free :: s.mem[g] == s0.mem[g];
    UserPtesStay(s0, s, q);
    ViewsStay(s0, s, q);
    SameIsSettled(s0, s, q);
    SameSpaceOk(s0, s, q);
  }

  /** The loaded space: its user tables and user pages stand on frames that were free, one for each page. */
  lemma LoadOwn(s0: PhysState, s: PhysState, cr3: nat, pd: nat)
    requires Loading(s0, s, cr3, pd) && SpaceOk(s0, pd) && pd < FRAME_LIMIT
    ensures SpaceOk(s, pd) && GrownSpace(s0, s, pd) && PairOk(s, pd, pd)
  {
    SpaceIsTaken(s0, pd);
    hide DirOk, Pte, Frame, Present;
    assert forall i | USER_SLOTS <= i < TABLE_SLOTS && HasTable(s, pd, i) ::
        HasTable(s0, pd, i) && Table(s, pd, i) == Table(s0, pd, i);
    assert OffTables(s, pd, pd);
    assert OwnFrames(s, pd, pd);
    assert UsersTaken(s, pd);
    assert KernelClosed(s.mem, pd);
  }

  /** A program loaded into a new space leaves all spaces well formed and apart, and every other user half as it was. */
  lemma LoadKeepsSpaces(s0: PhysState, s: PhysState, dirs: set<nat>, kernel: set<nat>, cr3: nat, pd: nat)
    requires SpacesOk(s0, dirs, kernel) && pd in dirs && Loading(s0, s, cr3, pd)
    ensures SpacesOk(s, dirs, kernel)
    ensures forall q <- dirs :: q != pd ==> SameViews(s.mem, s0.mem, q)
  {
    hide SpaceOk, PairOk, KernelApart, SettledSpace, GrownSpace, SameViews, FramesTaken, WroteOnlyOwn, UserTables;
    LoadOwn(s0, s, cr3, pd);
    forall q | q in dirs && q != pd
      ensures SpaceOk(s, q) && SettledSpace(s0, s, q) && SameViews(s.mem, s0.mem, q)
    {
      LoadOther(s0, s, cr3, pd, q);
    }
    StepKeepsSpaces(s0, s, dirs, kernel, pd);
  }

  // ---------- Stores ----------

  /** Frame `g` with other contents. */
  function Stored(s: PhysState, g: nat, content: Page): PhysState
    requires g < FRAME_LIMIT
  {
    State(WritePage(s.mem, g, content), s.free, s.total)
  }

  /** The frame is neither a directory in use nor one of its tables. */
  ghost predicate NoTable(s: PhysState, q: nat, g: nat)
    requires q < FRAME_LIMIT
  {
    g != q && forall i | 0 <= i < TABLE_SLOTS && HasTable(s, q, i) :: Table(s, q, i) != g
  }

  lemma StoreInSpace(s: PhysState, q: nat, g: nat, content: Page)
    requires SpaceOk(s, q) && q < FRAME_LIMIT && g < FRAME_LIMIT && NoTable(s, q, g)
    ensures var t := Stored(s, g, content);
            && SpaceOk(t, q) && SettledSpace(s, t, q) && SameUserPtes(t.mem, s.mem, q) && t.mem[q] == s.mem[q]
            && forall page: nat | page < USER_PAGES && (IsUser(s, q, page) ==> FrameOf(s, q, page) != g) ::
                 View(t.mem, q, page) == View(s.mem, q, page)
  {
    var t := Stored(s, g, content);
    hide DirOk, Pte, PageBytes;
    UserPtesStay(s, t, q);
    SameIsSettled(s, t, q);
    SameSpaceOk(s, t, q);
  }

  /** A store to a frame that is no table leaves all spaces well formed and apart. */
  lemma StoreKeepsSpaces(s: PhysState, dirs: set<nat>, kernel: set<nat>, g: nat, content: Page)
    requires SpacesOk(s, dirs, kernel) && g < FRAME_LIMIT && forall q <- dirs :: NoTable(s, q, g)
    ensures SpacesOk(Stored(s, g, content), dirs, kernel)
  {
    var t := Stored(s, g, content);
    hide SpaceOk, PairOk, KernelApart, SettledSpace, GrownSpace, NoTable;
    forall q | q in dirs
      ensures SpaceOk(t, q) && SettledSpace(s, t, q)
    {
      StoreInSpace(s, q, g, content);
    }
    StepKeepsSpaces(s, t, dirs, kernel, FRAME_LIMIT);
  }

  /** The kernel's stores to its own frames change no user half. */
  lemma KernelStoreKeepsViews(s: PhysState, dirs: set<nat>, kernel: set<nat>, g: nat, content: Page)
    requires SpacesOk(s, dirs, kernel) && g in kernel && dirs != {}
    ensures g < FRAME_LIMIT && SpacesOk(Stored(s, g, content), dirs, kernel)
    ensures forall q <- dirs :: SameViews(Stored(s, g, content).mem, s.mem, q)
  {
    hide SpaceOk, PairOk, IsUser, FrameOf, View, HasTable, Table;
    var d :| d in dirs;
    assert KernelApart(s, d, kernel);
    forall q | q in dirs
      ensures NoTable(s, q, g)
      ensures SameViews(Stored(s, g, content).mem, s.mem, q)
    {
      assert KernelApart(s, q, kernel);
      StoreInSpace(s, q, g, content);
    }
    StoreKeepsSpaces(s, dirs, kernel, g, content);
  }

  /** A page with one byte replaced. */
  function WithByte(p: Page, k: nat, b: byte): (r: Page)
    requires k < PAGE_SIZE
  {
    PageOfBytes(PageBytes(p)[k := b])
  }

  /** A store of one byte at a user address of `d`. */
  function UserStored(s: PhysState, d: nat, a: word, b: byte): PhysState
    requires d < FRAME_LIMIT && a / PAGE_SIZE < USER_PAGES
  {
    var g := FrameOf(s, d, a / PAGE_SIZE);
    Stored(s, g, WithByte(s.mem[g], a % PAGE_SIZE, b))
  }

  function WithStore(u: UserPage, k: nat, b: byte): UserPage {
    if u.Resident? && k < |u.bytes| then Resident(u.bytes[k := b], u.access) else u
  }

  lemma StoredPageView(s: PhysState, d: nat, a: word, b: byte)
    requires d < FRAME_LIMIT && IsUser(s, d, a / PAGE_SIZE)
    requires SameUserPtes(UserStored(s, d, a, b).mem, s.mem, d)
    ensures View(UserStored(s, d, a, b).mem, d, a / PAGE_SIZE) == WithStore(View(s.mem, d, a / PAGE_SIZE), a % PAGE_SIZE, b)
  {
    var g := FrameOf(s, d, a / PAGE_SIZE);
    PageBytesRoundTrip(PageBytes(s.mem[g])[a % PAGE_SIZE := b]);
    hide PageBytes, PageOfBytes, Pte;
  }

  /** The frame behind a user page is no table, and stands behind no other user page. */
  lemma UserFrameIsOwn(s: PhysState, d: nat, page: nat, q: nat, dirs: set<nat>, kernel: set<nat>)
    requires SpacesOk(s, dirs, kernel) && d in dirs && q in dirs && d < FRAME_LIMIT && q < FRAME_LIMIT && IsUser(s, d, page)
    ensures NoTable(s, q, FrameOf(s, d, page))
    ensures forall p: nat | IsUser(s, q, p) && (q != d || p != page) :: FrameOf(s, q, p) != FrameOf(s, d, page)
  {
    assert PairOk(s, d, q);
    hide SpacesOk, IsUser, FrameOf, HasTable, Table;
  }

  /** A store at a user address of `d`: all spaces stay apart, and only the page stored to looks different. */
  lemma UserStoreKeepsViews(s: PhysState, dirs: set<nat>, kernel: set<nat>, d: nat, a: word, b: byte)
    requires SpacesOk(s, dirs, kernel) && d in dirs && d < FRAME_LIMIT
    requires a / PAGE_SIZE < USER_PAGES && IsUser(s, d, a / PAGE_SIZE)
    ensures var t := UserStored(s, d, a, b);
            && SpacesOk(t, dirs, kernel)
            && (forall q <- dirs :: q != d ==> SameViews(t.mem, s.mem, q))
            && (forall page: nat | page < USER_PAGES && page != a / PAGE_SIZE :: View(t.mem, d, page) == View(s.mem, d, page))
            && View(t.mem, d, a / PAGE_SIZE) == WithStore(View(s.mem, d, a / PAGE_SIZE), a % PAGE_SIZE, b)
  {
    hide SpaceOk, PairOk, KernelApart, SettledSpace, NoTable, WithByte, View, IsUser, FrameOf, SameUserPtes, WithStore;
    var g := FrameOf(s, d, a / PAGE_SIZE);
    var content := WithByte(s.mem[g], a % PAGE_SIZE, b);
    forall q | q in dirs
      ensures NoTable(s, q, g) && (q != d ==> SameViews(Stored(s, g, content).mem, s.mem, q))
    {
      UserFrameIsOwn(s, d, a / PAGE_SIZE, q, dirs, kernel);
      StoreInSpace(s, q, g, content);
    }
    StoreKeepsSpaces(s, dirs, kernel, g, content);
    UserFrameIsOwn(s, d, a / PAGE_SIZE, d, dirs, kernel);
    StoreInSpace(s, d, g, content);
    StoredPageView(s, d, a, b);
  }

  // ---------- What user mode may store to ----------

  /** A user-mode store passes both levels. */
  ghost predicate UserCanWrite(m: Memory, q: nat, a: word)
    requires q < FRAME_LIMIT
  {
    Mapped(m, q, a) && EffectiveRights(m, q, a / PAGE_SIZE) == Rights(true, true)
  }

  /** It therefore goes to a user page: no entry of the kernel's quarter is open to user mode. */
  lemma UserWritesUserPages(s: PhysState, q: nat, a: word)
    requires SpaceOk(s, q) && q < FRAME_LIMIT && UserCanWrite(s.mem, q, a)
    ensures IsUser(s, q, a / PAGE_SIZE)
  {
    hide DirOk, Pte, UsersTaken;
  }
}
