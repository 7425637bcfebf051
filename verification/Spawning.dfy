/** Programs spawned one after another, with the kernel's own maps and stores and every program's stores in between:
    each program finds its own image, as changed by its own stores. */
module Spawning {
  import opened Words
  import opened Pmm
  import opened Mmu
  import opened Paging
  import opened AddressSpace
  import opened ArgStack
  import opened Loader
  import opened Program
  import opened HeapSpec
  import opened KHeap
  import opened LargeAlloc
  import opened Spaces
  import opened KernelStack
  import Elf

  datatype UserStore = UserStore(a: word, b: byte)

  /** A spawned program: its directory, its file and arguments, and the stores made at its user addresses since. */
  datatype Process = Process(pd: nat, f: File, args: Args, stores: seq<UserStore>)

  /** The directories in use, the kernel's own included, the frames the kernel has taken for itself, and the programs. */
  datatype World = World(s: PhysState, dirs: set<nat>, kernel: set<nat>, processes: seq<Process>)

  /** What a program finds in a page when it starts. */
  function StartPage(f: File, args: Args, page: nat): UserPage {
    if page == STACK_TOP_PAGE then Resident(ArgumentPage(args), Access(PAGE_PRESENT + PAGE_RW + PAGE_USER))
    else if page == STACK_LOW_PAGE then Resident(Zeros(PAGE_SIZE), Access(PAGE_PRESENT + PAGE_RW + PAGE_USER))
    else Image(Segments(f), f, page)
  }

  /** The page after stores, in order. */
  function AfterStores(u: UserPage, page: nat, stores: seq<UserStore>): UserPage {
    if stores == [] then u
    else
      var before, last := AfterStores(u, page, stores[..|stores| - 1]), stores[|stores| - 1];
      if last.a / PAGE_SIZE == page then WithStore(before, last.a % PAGE_SIZE, last.b) else before
  }

  /** The user half is the program's own image and arguments, changed by its own stores and by nothing else. */
  ghost predicate SeesItself(s: PhysState, p: Process) {
    && p.pd < FRAME_LIMIT
    && forall page: nat | page < USER_PAGES ::
         View(s.mem, p.pd, page) == AfterStores(StartPage(p.f, p.args, page), page, p.stores)
  }

  /** All address spaces are well formed and apart, and every program sees itself in one of its own. */
  ghost predicate WorldOk(w: World) {
    && SpacesOk(w.s, w.dirs, w.kernel)
    && (forall p <- w.processes :: p.pd in w.dirs && SeesItself(w.s, p))
    && (forall i, j | 0 <= i < j < |w.processes| :: w.processes[i].pd != w.processes[j].pd)
  }

  /** The world before the first spawn: the kernel's directory alone. */
  lemma FirstWorldIsOk(s: PhysState, pd: nat, kernel: set<nat>)
    requires SpaceOk(s, pd) && pd < FRAME_LIMIT && forall page: nat :: !IsUser(s, pd, page)
    requires forall f <- kernel :: f !in s.free && f < FRAME_LIMIT && NoTable(s, pd, f)
    ensures WorldOk(World(s, {pd}, kernel, []))
  {
    hide SpaceOk, SpacesOk, IsUser, NoTable;
    FirstSpace(s, pd, kernel);
  }

  // ---------- Steps ----------

  /** `Spawn` loads a program into a new directory; `KernelPage` maps a fresh frame at a kernel page; `KernelStore`
      is any store of the kernel to its own frames; `Store` is a store at a user address, by the program itself or by
      the kernel on its behalf. */
  datatype Step =
    | Spawn(creator: nat, f: File, args: Args, loaded: PhysState)
    | KernelPage(dir: nat, page: nat)
    | KernelStore(frame: nat, content: Page)
    | Store(i: nat, a: word, b: byte)

  ghost predicate Enabled(w: World, e: Step) {
    match e
    case Spawn(creator, f, args, loaded) =>
      && creator in w.dirs && creator < FRAME_LIMIT && w.s.free != {} && Lowest(w.s.free) < FRAME_LIMIT
      && Loading(CreateDir(w.s, creator, Lowest(w.s.free)), loaded, creator, Lowest(w.s.free))
      && ShowsProgram(loaded.mem, Lowest(w.s.free), Segments(f), f, args)
    case KernelPage(dir, page) =>
      && dir in w.dirs && dir < FRAME_LIMIT && page >= USER_PAGES
      && CanExtend(w.s, dir, page * PAGE_SIZE) && Lowest(w.s.free) < FRAME_LIMIT
    case KernelStore(frame, _) => frame in w.kernel && frame < FRAME_LIMIT && w.dirs != {}
    case Store(i, a, _) =>
      && i < |w.processes| && w.processes[i].pd < FRAME_LIMIT
      && a / PAGE_SIZE < USER_PAGES && IsUser(w.s, w.processes[i].pd, a / PAGE_SIZE)
  }

  ghost function Next(w: World, e: Step): World
    requires Enabled(w, e)
  {
    match e
    case Spawn(_, f, args, loaded) =>
      World(loaded, w.dirs + {Lowest(w.s.free)}, w.kernel, w.processes + [Process(Lowest(w.s.free), f, args, [])])
    case KernelPage(dir, page) =>
      World(WithPage(w.s, dir, page * PAGE_SIZE), w.dirs, w.kernel + {Lowest(w.s.free)}, w.processes)
    case KernelStore(frame, content) => World(Stored(w.s, frame, content), w.dirs, w.kernel, w.processes)
    case Store(i, a, b) =>
      var p := w.processes[i];
      World(UserStored(w.s, p.pd, a, b), w.dirs, w.kernel,
            w.processes[i := p.(stores := p.stores + [UserStore(a, b)])])
  }

  /** A store that a program's rights allow is a step of its own. */
  lemma ProgramStoreIsStep(w: World, i: nat, a: word, b: byte)
    requires WorldOk(w) && i < |w.processes| && w.processes[i].pd < FRAME_LIMIT
    requires UserCanWrite(w.s.mem, w.processes[i].pd, a)
    ensures Enabled(w, Store(i, a, b))
  {
    assert w.processes[i] in w.processes;
    hide SpaceOk, SeesItself;
    UserWritesUserPages(w.s, w.processes[i].pd, a);
  }

  // ---------- What every step keeps ----------

  lemma StartIsProgram(m: Memory, pd: nat, f: File, args: Args)
    requires pd < FRAME_LIMIT && ShowsProgram(m, pd, Segments(f), f, args)
    ensures forall page: nat | page < USER_PAGES :: View(m, pd, page) == StartPage(f, args, page)
  {
    hide View, Image, ArgumentPage, Access;
  }

  lemma SameViewsSeesItself(s: PhysState, t: PhysState, p: Process)
    requires SeesItself(s, p) && SameViews(t.mem, s.mem, p.pd)
    ensures SeesItself(t, p)
  {
    hide View, StartPage, AfterStores;
  }

  lemma SameViewsTwice(a: Memory, b: Memory, c: Memory, q: nat)
    requires q < FRAME_LIMIT && SameViews(b, a, q) && SameViews(c, b, q)
    ensures SameViews(c, a, q)
  {
    hide View;
  }

  /** The programs stay as they are while their user halves look the same. */
  lemma ProgramsStay(w: World, t: World)
    requires WorldOk(w) && SpacesOk(t.s, t.dirs, t.kernel) && w.dirs <= t.dirs && t.processes == w.processes
    requires DirsInRange(w.dirs) && forall q <- w.dirs :: SameViews(t.s.mem, w.s.mem, q)
    ensures WorldOk(t)
  {
    hide SpacesOk, SeesItself, SameViews;
    forall p | p in t.processes
      ensures p.pd in t.dirs && SeesItself(t.s, p)
    {
      SameViewsSeesItself(w.s, t.s, p);
    }
  }

  /** A new program joins a world: the spaces stay apart and every program goes on seeing itself. */
  lemma SpawnKeepsWorld(w: World, creator: nat, pd: nat, f: File, args: Args, loaded: PhysState)
    requires WorldOk(w) && creator in w.dirs && creator < FRAME_LIMIT && pd in w.s.free && pd < FRAME_LIMIT
    requires Loading(CreateDir(w.s, creator, pd), loaded, creator, pd)
    requires ShowsProgram(loaded.mem, pd, Segments(f), f, args)
    ensures WorldOk(World(loaded, w.dirs + {pd}, w.kernel, w.processes + [Process(pd, f, args, [])]))
  {
    hide SpacesOk, Loading, ShowsProgram, SameViews, CreateDir, SeesItself, StartPage, IsUser, View;
    var created, t := CreateDir(w.s, creator, pd), World(loaded, w.dirs + {pd}, w.kernel, w.processes + [Process(pd, f, args, [])]);
    CreateKeepsSpaces(w.s, w.dirs, w.kernel, creator, pd);
    LoadKeepsSpaces(created, loaded, t.dirs, w.kernel, creator, pd);
    StartIsProgram(loaded.mem, pd, f, args);
    forall p | p in w.processes
      ensures p.pd in t.dirs && p.pd != pd && SeesItself(loaded, p)
    {
      SeesInRange(w.s, p);
      OldProgramStays(w.s, created, loaded, p);
    }
    NewSeesItself(loaded, pd, f, args);
  }

  lemma OldProgramStays(s: PhysState, created: PhysState, loaded: PhysState, p: Process)
    requires SeesItself(s, p) && SameViews(created.mem, s.mem, p.pd) && SameViews(loaded.mem, created.mem, p.pd)
    ensures SeesItself(loaded, p)
  {
    SameViewsTwice(s.mem, created.mem, loaded.mem, p.pd);
    SameViewsSeesItself(s, loaded, p);
  }

  lemma SeesInRange(s: PhysState, p: Process)
    requires SeesItself(s, p)
    ensures p.pd < FRAME_LIMIT
  {
  }

  lemma NewSeesItself(s: PhysState, pd: nat, f: File, args: Args)
    requires pd < FRAME_LIMIT && forall page: nat | page < USER_PAGES :: View(s.mem, pd, page) == StartPage(f, args, page)
    ensures SeesItself(s, Process(pd, f, args, []))
  {
    hide View, StartPage;
  }

  lemma KernelPageKeepsWorld(w: World, dir: nat, page: nat)
    requires WorldOk(w) && Enabled(w, KernelPage(dir, page))
    ensures WorldOk(Next(w, KernelPage(dir, page)))
  {
    var f := Lowest(w.s.free);
    var taken, t := WithoutFrame(w.s, f), Next(w, KernelPage(dir, page));
    TakeKernelFrame(w.s, w.dirs, w.kernel, f);
    PageOfAddress(page);
    KernelMapKeepsSpaces(taken, w.dirs, t.kernel, dir, page, f * PAGE_SIZE, PAGE_PRESENT + PAGE_RW);
    hide SpaceOk, PairOk, KernelApart, SameViews, SeesItself, Map;
    assert t.s == Map(taken, dir, page, f * PAGE_SIZE, PAGE_PRESENT + PAGE_RW);
    ProgramsStay(w, t);
  }

  lemma PageOfAddress(page: nat)
    ensures page * PAGE_SIZE / PAGE_SIZE == page && page * PAGE_SIZE % PAGE_SIZE == 0
  {
  }

  lemma KernelStoreKeepsWorld(w: World, frame: nat, content: Page)
    requires WorldOk(w) && Enabled(w, KernelStore(frame, content))
    ensures WorldOk(Next(w, KernelStore(frame, content)))
  {
    KernelStoreKeepsViews(w.s, w.dirs, w.kernel, frame, content);
    hide SpaceOk, PairOk, KernelApart, SameViews, SeesItself, Stored;
    ProgramsStay(w, Next(w, KernelStore(frame, content)));
  }

  lemma AfterOneMore(u: UserPage, page: nat, stores: seq<UserStore>, last: UserStore)
    ensures AfterStores(u, page, stores + [last])
            == if last.a / PAGE_SIZE == page then WithStore(AfterStores(u, page, stores), last.a % PAGE_SIZE, last.b)
               else AfterStores(u, page, stores)
  {
    assert (stores + [last])[..|stores|] == stores;
  }

  lemma OwnStoreSeesItself(s: PhysState, t: PhysState, p: Process, a: word, b: byte)
    requires SeesItself(s, p) && a / PAGE_SIZE < USER_PAGES
    requires forall page: nat | page < USER_PAGES && page != a / PAGE_SIZE :: View(t.mem, p.pd, page) == View(s.mem, p.pd, page)
    requires View(t.mem, p.pd, a / PAGE_SIZE) == WithStore(View(s.mem, p.pd, a / PAGE_SIZE), a % PAGE_SIZE, b)
    ensures SeesItself(t, p.(stores := p.stores + [UserStore(a, b)]))
  {
    hide View, StartPage, AfterStores, WithStore;
    forall page: nat | page < USER_PAGES
      ensures View(t.mem, p.pd, page)
              == AfterStores(StartPage(p.f, p.args, page), page, p.stores + [UserStore(a, b)])
    {
      AfterOneMore(StartPage(p.f, p.args, page), page, p.stores, UserStore(a, b));
    }
  }

  lemma StoreKeepsWorld(w: World, i: nat, a: word, b: byte)
    requires WorldOk(w) && Enabled(w, Store(i, a, b))
    ensures WorldOk(Next(w, Store(i, a, b)))
  {
    var p, t := w.processes[i], Next(w, Store(i, a, b));
    assert p in w.processes;
    UserStoreKeepsViews(w.s, w.dirs, w.kernel, p.pd, a, b);
    hide SpacesOk, SameViews, SeesItself, UserStored, View, WithStore, IsUser;
    OwnStoreSeesItself(w.s, t.s, p, a, b);
    forall j | 0 <= j < |t.processes|
      ensures t.processes[j].pd in t.dirs && SeesItself(t.s, t.processes[j]) && t.processes[j].pd == w.processes[j].pd
    {
      if j != i {
        assert w.processes[j] in w.processes;
        SameViewsSeesItself(w.s, t.s, w.processes[j]);
      }
    }
  }

  lemma StepKeepsWorld(w: World, e: Step)
    requires WorldOk(w) && Enabled(w, e)
    ensures WorldOk(Next(w, e))
  {
    hide WorldOk, Loading, ShowsProgram, CreateDir, CanExtend, WithPage, IsUser, Stored, UserStored;
    match e
    case Spawn(creator, f, args, loaded) => SpawnKeepsWorld(w, creator, Lowest(w.s.free), f, args, loaded);
    case KernelPage(dir, page) => KernelPageKeepsWorld(w, dir, page);
    case KernelStore(frame, content) => KernelStoreKeepsWorld(w, frame, content);
    case Store(i, a, b) => StoreKeepsWorld(w, i, a, b);
  }

  // ---------- Runs ----------

  ghost predicate Runs(w: World, steps: seq<Step>)
    decreases |steps|
  {
    steps == [] || (Enabled(w, steps[0]) && Runs(Next(w, steps[0]), steps[1..]))
  }

  ghost function Final(w: World, steps: seq<Step>): World
    requires Runs(w, steps)
    decreases |steps|
  {
    if steps == [] then w else Final(Next(w, steps[0]), steps[1..])
  }

  /** The stores a run makes at the addresses of program `i`, in order. */
  function StoresOf(i: nat, steps: seq<Step>): seq<UserStore> {
    if steps == [] then []
    else
      (match steps[0]
       case Store(j, a, b) => if i == j then [UserStore(a, b)] else []
       case _ => []) + StoresOf(i, steps[1..])
  }

  lemma StoresOfOne(i: nat, e: Step, rest: seq<Step>)
    ensures StoresOf(i, [e] + rest) == StoresOf(i, [e]) + StoresOf(i, rest)
    ensures StoresOf(i, [e]) == match e
                                case Store(j, a, b) => if i == j then [UserStore(a, b)] else []
                                case _ => []
  {
    assert ([e] + rest)[1..] == rest && [e][1..] == [];
  }

  /** `q` is `p` after more stores. */
  ghost predicate Later(p: Process, q: Process, stores: seq<UserStore>) {
    q == p.(stores := p.stores + stores)
  }

  lemma LaterStill(p: Process, q: Process, r: Process, i: nat, e: Step, rest: seq<Step>)
    requires Later(p, q, StoresOf(i, [e])) && Later(q, r, StoresOf(i, rest))
    ensures Later(p, r, StoresOf(i, [e] + rest))
  {
    StoresOfOne(i, e, rest);
    hide StoresOf;
    assert p.stores + StoresOf(i, [e]) + StoresOf(i, rest) == p.stores + (StoresOf(i, [e]) + StoresOf(i, rest));
  }

  /** What a step does to the programs there are. */
  lemma ProcessAfter(w: World, e: Step, i: nat)
    requires Enabled(w, e) && i < |w.processes|
    ensures w.dirs <= Next(w, e).dirs && |w.processes| <= |Next(w, e).processes|
    ensures Later(w.processes[i], Next(w, e).processes[i], StoresOf(i, [e]))
  {
    StoresOfOne(i, e, []);
    hide StoresOf, WithPage, Stored, UserStored, IsUser, CanExtend, Loading, ShowsProgram, CreateDir;
    assert w.processes[i].stores + [] == w.processes[i].stores;
  }

  lemma ProcessesGrow(w: World, e: Step)
    requires Enabled(w, e)
    ensures w.dirs <= Next(w, e).dirs && |w.processes| <= |Next(w, e).processes|
  {
    hide WithPage, Stored, UserStored, IsUser, CanExtend, Loading, ShowsProgram, CreateDir;
  }

  /** Over every run, address spaces stay well formed and apart, and every program sees exactly its own image and
      arguments, changed by the stores made at its own addresses and by nothing else. */
  lemma {:induction false} EachProgramSeesItself(w: World, steps: seq<Step>)
    requires Runs(w, steps) && WorldOk(w)
    ensures WorldOk(Final(w, steps))
    ensures w.dirs <= Final(w, steps).dirs && |w.processes| <= |Final(w, steps).processes|
    ensures forall i | 0 <= i < |w.processes| ::
              Later(w.processes[i], Final(w, steps).processes[i], StoresOf(i, steps))
    decreases |steps|
  {
    hide WorldOk, Enabled, Next, Later;
    if steps == [] {
      forall i | 0 <= i < |w.processes|
        ensures Later(w.processes[i], w.processes[i], StoresOf(i, []))
      {
        NoStores(w.processes[i], i);
      }
    } else {
      var e, rest := steps[0], steps[1..];
      var n := Next(w, e);
      StepKeepsWorld(w, e);
      EachProgramSeesItself(n, rest);
      ProcessesGrow(w, e);
      assert steps == [e] + rest;
      forall i | 0 <= i < |w.processes|
        ensures Later(w.processes[i], Final(n, rest).processes[i], StoresOf(i, steps))
      {
        ProcessAfter(w, e, i);
        LaterStill(w.processes[i], n.processes[i], Final(n, rest).processes[i], i, e, rest);
      }
    }
  }

  lemma NoStores(p: Process, i: nat)
    ensures Later(p, p, StoresOf(i, []))
  {
    assert p.stores + [] == p.stores;
  }

  /** A store of a program, where its rights allow it, changes one frame: no directory, no table, no frame of the
      kernel's own and no page of another program. */
  lemma ProgramStoreStaysInside(w: World, i: nat, a: word, b: byte)
    requires WorldOk(w) && i < |w.processes| && w.processes[i].pd < FRAME_LIMIT
    requires UserCanWrite(w.s.mem, w.processes[i].pd, a)
    ensures Enabled(w, Store(i, a, b))
    ensures var g := FrameOf(w.s, w.processes[i].pd, a / PAGE_SIZE);
            && (forall f | 0 <= f < FRAME_LIMIT && f != g :: Next(w, Store(i, a, b)).s.mem[f] == w.s.mem[f])
            && g !in w.kernel && g !in w.s.free && (forall q <- w.dirs :: q < FRAME_LIMIT && NoTable(w.s, q, g))
            && forall j | 0 <= j < |w.processes| && j != i ::
                 w.processes[j].pd < FRAME_LIMIT
                 && SameViews(Next(w, Store(i, a, b)).s.mem, w.s.mem, w.processes[j].pd)
  {
    var p := w.processes[i];
    assert p in w.processes;
    ProgramStoreIsStep(w, i, a, b);
    UserStoreKeepsViews(w.s, w.dirs, w.kernel, p.pd, a, b);
    hide SeesItself, SameViews, View, WithStore, IsUser, WithByte;
    UserFrameIsTaken(w.s, w.dirs, w.kernel, p.pd, a / PAGE_SIZE);
    forall q | q in w.dirs
      ensures q < FRAME_LIMIT && NoTable(w.s, q, FrameOf(w.s, p.pd, a / PAGE_SIZE))
    {
      UserFrameIsOwn(w.s, p.pd, a / PAGE_SIZE, q, w.dirs, w.kernel);
    }
    assert forall j | 0 <= j < |w.processes| :: w.processes[j] in w.processes;
    hide SpacesOk;
  }

  lemma UserFrameIsTaken(s: PhysState, dirs: set<nat>, kernel: set<nat>, d: nat, page: nat)
    requires SpacesOk(s, dirs, kernel) && d in dirs && d < FRAME_LIMIT && page < USER_PAGES && IsUser(s, d, page)
    ensures FrameOf(s, d, page) !in kernel && FrameOf(s, d, page) !in s.free
  {
    assert KernelApart(s, d, kernel) && SpaceOk(s, d);
    hide PairOk, IsUser, FrameOf, DirOk;
  }

  // ---------- The code ----------

  const KSTACK_PAGES: nat := 2

  /** The kernel's maps of `n` pages, step by step. */
  function PageSteps(dir: nat, page: nat, n: nat): seq<Step>
    decreases n
  {
    if n == 0 then [] else [KernelPage(dir, page)] + PageSteps(dir, page + 1, n - 1)
  }

  lemma {:induction false} MapsPagesRuns(w: World, dir: nat, page: nat, n: nat, t: PhysState)
    requires dir in w.dirs && dir < FRAME_LIMIT && page >= USER_PAGES && MapsPages(w.s, dir, page, n, t)
    ensures var steps := PageSteps(dir, page, n);
            && Runs(w, steps) && Final(w, steps).s == t
            && Final(w, steps).dirs == w.dirs && Final(w, steps).processes == w.processes
    decreases n
  {
    hide Enabled, Next;
    if n > 0 {
      FirstPage(w, dir, page, n, t);
      MapsPagesRuns(Next(w, KernelPage(dir, page)), dir, page + 1, n - 1, t);
      assert PageSteps(dir, page, n)[1..] == PageSteps(dir, page + 1, n - 1);
    }
  }

  lemma FirstPage(w: World, dir: nat, page: nat, n: nat, t: PhysState)
    requires dir in w.dirs && dir < FRAME_LIMIT && page >= USER_PAGES && MapsPages(w.s, dir, page, n, t) && n > 0
    ensures Enabled(w, KernelPage(dir, page))
    ensures var next := Next(w, KernelPage(dir, page));
            && next.dirs == w.dirs && next.processes == w.processes && MapsPages(next.s, dir, page + 1, n - 1, t)
  {
    hide CanExtend, WithPage;
  }

  /** A page of the directory stands on a frame that the kernel has taken for itself. */
  ghost predicate KernelOwns(w: World, dir: nat, p: nat) {
    dir < FRAME_LIMIT && p in Mapping(w.s, dir) && Frame(Mapping(w.s, dir)[p]) in w.kernel
  }

  lemma KernelPageOwns(w: World, dir: nat, page: nat)
    requires WorldOk(w) && Enabled(w, KernelPage(dir, page))
    ensures KernelOwns(Next(w, KernelPage(dir, page)), dir, page)
    ensures forall p | KernelOwns(w, dir, p) && p != page :: KernelOwns(Next(w, KernelPage(dir, page)), dir, p)
  {
    WorldSpaces(w, dir);
    SpaceCanEdit(w.s, dir);
    PageOfAddress(page);
    WithPageMapsOnePage(w.s, dir, page * PAGE_SIZE);
    EntryFrame(Lowest(w.s.free));
    hide WorldOk, SpaceOk, DirOkBut, Mapping, WithPage, CanExtend, PteValue;
  }

  /** The kernel owns the pages it has mapped, and goes on owning those it had before. */
  lemma {:induction false} KernelOwnsItsPages(w: World, dir: nat, page: nat, n: nat, t: PhysState, p: nat)
    requires WorldOk(w) && dir in w.dirs && dir < FRAME_LIMIT && page >= USER_PAGES && MapsPages(w.s, dir, page, n, t)
    requires page <= p < page + n || (p < page && KernelOwns(w, dir, p))
    ensures Runs(w, PageSteps(dir, page, n)) && KernelOwns(Final(w, PageSteps(dir, page, n)), dir, p)
    decreases n
  {
    hide Enabled, Next, WorldOk, KernelOwns;
    if n > 0 {
      var e := KernelPage(dir, page);
      FirstPage(w, dir, page, n, t);
      StepKeepsWorld(w, e);
      KernelPageOwns(w, dir, page);
      KernelOwnsItsPages(Next(w, e), dir, page + 1, n - 1, t, p);
      assert PageSteps(dir, page, n)[1..] == PageSteps(dir, page + 1, n - 1);
    }
  }

  lemma {:induction false} FinalOfConcat(w: World, a: seq<Step>, b: seq<Step>)
    requires Runs(w, a) && Runs(Final(w, a), b)
    ensures Runs(w, a + b) && Final(w, a + b) == Final(Final(w, a), b)
    decreases |a|
  {
    hide Enabled, Next;
    if a == [] {
      assert a + b == b;
    } else {
      assert (a + b)[0] == a[0] && (a + b)[1..] == a[1..] + b;
      FinalOfConcat(Next(w, a[0]), a[1..], b);
    }
  }

  lemma RunsOne(w: World, e: Step)
    requires Enabled(w, e)
    ensures Runs(w, [e]) && Final(w, [e]) == Next(w, e)
  {
    hide Enabled, Next;
    assert [e][1..] == [];
    assert Runs(Next(w, e), []) && Final(Next(w, e), []) == Next(w, e);
  }

  /** Some run leads from one world to the other. */
  ghost predicate Reaches(w: World, t: World) {
    exists steps :: Runs(w, steps) && Final(w, steps) == t
  }

  lemma ReachesThrough(w: World, u: World, t: World)
    requires Reaches(w, u) && Reaches(u, t)
    ensures Reaches(w, t)
  {
    hide Runs, Final;
    var a :| Runs(w, a) && Final(w, a) == u;
    var b :| Runs(u, b) && Final(u, b) == t;
    FinalOfConcat(w, a, b);
  }

  /** The kernel's maps lead to a world with the same spaces and programs. */
  lemma MapsPagesReaches(w: World, dir: nat, page: nat, n: nat, t: PhysState) returns (u: World)
    requires dir in w.dirs && dir < FRAME_LIMIT && page >= USER_PAGES && MapsPages(w.s, dir, page, n, t) && WorldOk(w)
    ensures Reaches(w, u) && WorldOk(u) && u.s == t && u.dirs == w.dirs && u.processes == w.processes
    ensures forall p: nat | page <= p < page + n :: KernelOwns(u, dir, p)
  {
    hide MapsPages, Runs, Final, WorldOk, KernelOwns;
    MapsPagesRuns(w, dir, page, n, t);
    u := Final(w, PageSteps(dir, page, n));
    EachProgramSeesItself(w, PageSteps(dir, page, n));
    forall p: nat | page <= p < page + n
      ensures KernelOwns(u, dir, p)
    {
      KernelOwnsItsPages(w, dir, page, n, t, p);
    }
  }

  lemma SpaceCanEdit(s: PhysState, q: nat)
    requires SpaceOk(s, q)
    ensures CanEditFrom(s, q) && q < FRAME_LIMIT && DirOkBut(s, q, BOOT_SHARED)
  {
    OkIsOkBut(s, q);
  }

  lemma WorldSpaces(w: World, q: nat)
    requires WorldOk(w) && q in w.dirs
    ensures SpaceOk(w.s, q) && q < FRAME_LIMIT
  {
    hide SpaceOk;
  }

  /** `kmalloc`: what growth it takes is a run of the kernel's own maps. */
  method Allocate(m: Machine, heap: KernelHeap, size: nat, ghost w: World) returns (r: MallocResult, ghost t: World)
    requires heap.Valid() && heap.m == m && w.s == m.Phys() && m.cr3 in w.dirs && WorldOk(w)
    modifies heap, m`mem, m.frames.bitmap
    ensures r.Payload? ==> heap.Valid() && BlockOf(heap.blocks, r.addr) < |heap.blocks|
    ensures r.Payload? ==> Live(heap.blocks) == old(Live(heap.blocks)) + {(r.addr, size)}
                           && forall n :: (r.addr, n) !in old(Live(heap.blocks))
    ensures r.Payload? ==> Reaches(w, t) && WorldOk(t) && t.s == m.Phys() && t.dirs == w.dirs && t.processes == w.processes
    ensures r.OutOfFrames? ==> m.frames.Free() == {}
    ensures r.ReachesWindows? ==> heap.heapEnd >= WINDOWS_BASE
  {
    WorldSpaces(w, m.cr3);
    heap.EndInSpace();
    ghost var h := heap.Heap();
    PayloadIsBlock(h, size);
    hide KernelHeap.Valid, WorldOk, MapsPages, MallocStep, CanServe, FirstFit, Live, Reaches, KernelOwns, SpaceOk, BlockOf;
    ghost var end := heap.heapEnd;
    t := w;
    r := heap.Kmalloc(size);
    if r.Payload? {
      t := MapsPagesReaches(w, m.cr3, end / PAGE_SIZE, (heap.heapEnd - end) / PAGE_SIZE, m.Phys());
    }
  }

  lemma PayloadIsBlock(h: Heap, size: nat)
    requires HeapOk(h)
    ensures CanServe(h, size) ==>
              var (t, a) := MallocStep(h, size);
              && BlockOf(t.blocks, a) < |t.blocks| && Live(t.blocks) == Live(h.blocks) + {(a, size)}
              && forall n :: (a, n) !in Live(h.blocks)
  {
    if CanServe(h, size) {
      MallocStepOk(h, size);
      hide HeapOk, Live, MallocStep;
      var (t, a) := MallocStep(h, size);
      assert (a, size) in Live(t.blocks);
      var k := LiveBlock(t.blocks, (a, size));
    }
  }

  /** `kalloc_pages` likewise. */
  method AllocatePages(m: Machine, area: LargeArea, n: nat, ghost w: World) returns (r: Outcome<nat>, ghost t: World)
    requires area.Valid() && area.m == m && w.s == m.Phys() && m.cr3 in w.dirs && WorldOk(w)
    requires area.base / PAGE_SIZE + n <= TABLE_PAGES
    modifies area, m`mem, m.frames.bitmap
    ensures r.Panic? ==> m.frames.Free() == {}
    ensures r.Done? ==> area.Valid() && r.value == old(area.base)
    ensures r.Done? ==> Reaches(w, t) && WorldOk(t) && t.s == m.Phys() && t.dirs == w.dirs && t.processes == w.processes
    ensures r.Done? ==> forall p: nat | r.value / PAGE_SIZE <= p < r.value / PAGE_SIZE + n :: KernelOwns(t, m.cr3, p)
  {
    WorldSpaces(w, m.cr3);
    ghost var first := area.base / PAGE_SIZE;
    assert first >= USER_PAGES;
    hide LargeArea.Valid, WorldOk, MapsPages, Extends, Mapping, KernelOwns, Reaches, SpaceOk;
    t := w;
    r := area.KallocPages(n);
    if r.Done? {
      t := MapsPagesReaches(w, m.cr3, first, n, m.Phys());
    }
  }

  /** `uprocess_create_pagedir` and `uprocess_load`: one step. */
  method SpawnSpace(m: Machine, f: File, args: Args, ghost w: World) returns (r: Outcome<Loaded>, ghost t: World)
    requires m.frames.Valid() && w.s == m.Phys() && m.cr3 in w.dirs && WorldOk(w) && Readable(f)
    modifies m`mem, m.frames.bitmap
    ensures r.Panic? && GoodIdent(f) && AllAcceptable(Segments(f)) ==> m.frames.Free() == {}
    ensures r.Done? ==> Reaches(w, t) && WorldOk(t) && t.s == m.Phys() && w.dirs <= t.dirs
    ensures r.Done? ==> exists pd :: t.processes == w.processes + [Process(pd, f, args, [])]
    ensures r.Done? ==> Elf.StartsAsWritten(f, r.value) && r.value.esp == STACK_PAGE + InitialOffset(args)
  {
    t := w;
    WorldSpaces(w, m.cr3);
    SpaceCanEdit(w.s, m.cr3);
    hide SpaceOk, Loading, ShowsProgram, CreateDir, NewSpace, CanEditFrom, Readable, WorldOk, InitialOffset,
      Elf.StartsAsWritten, LeastBoundary, Headers, Entry;
    var pd := CreatePagedir(m);
    if pd.Panic? {
      return Panic, t;
    }
    ghost var dir := Lowest(w.s.free);
    NewIsNewSpace(w.s, m.cr3, dir);
    FrameAddress(dir);
    r := Load(m, pd.value, f, args);
    if r.Done? {
      Elf.StartIsAsWritten(f, r.value);
      t := World(m.Phys(), w.dirs + {dir}, w.kernel, w.processes + [Process(dir, f, args, [])]);
      SpawnIsStep(w, m.cr3, f, args, t);
    }
  }

  lemma SpawnIsStep(w: World, creator: nat, f: File, args: Args, t: World)
    requires WorldOk(w) && creator in w.dirs && creator < FRAME_LIMIT && w.s.free != {} && Lowest(w.s.free) < FRAME_LIMIT
    requires Loading(CreateDir(w.s, creator, Lowest(w.s.free)), t.s, creator, Lowest(w.s.free))
    requires ShowsProgram(t.s.mem, Lowest(w.s.free), Segments(f), f, args)
    requires t == World(t.s, w.dirs + {Lowest(w.s.free)}, w.kernel, w.processes + [Process(Lowest(w.s.free), f, args, [])])
    ensures Reaches(w, t) && WorldOk(t)
  {
    hide WorldOk, Loading, ShowsProgram, CreateDir, Runs, Final;
    var e := Step.Spawn(creator, f, args, t.s);
    StepKeepsWorld(w, e);
    RunsOne(w, e);
  }

  lemma NewIsNewSpace(s: PhysState, cr3: nat, pd: nat)
    requires SpaceOk(s, cr3) && cr3 < FRAME_LIMIT && pd in s.free
    ensures pd < FRAME_LIMIT && NewSpace(CreateDir(s, cr3, pd), cr3, pd)
  {
    CreateNew(s, cr3, pd);
    CreateOther(s, cr3, pd, cr3);
    hide DirOk, IsUser, CreateDir;
  }

  /** The bookkeeping of both allocators is their own; the machine they work on is well formed in every world. */
  lemma AllocatorsStay(m: Machine, heap: KernelHeap, area: LargeArea, w: World)
    requires heap.m == m == area.m && heap.ListOk() && area.base % PAGE_SIZE == 0
    requires LARGE_BASE <= area.base <= TABLE_PAGES * PAGE_SIZE
    requires m.frames.Valid() && w.s == m.Phys() && m.cr3 in w.dirs && WorldOk(w)
    ensures heap.Valid() && area.Valid()
  {
    WorldSpaces(w, m.cr3);
    SpaceCanEdit(w.s, m.cr3);
    hide WorldOk, SpaceOk, KernelHeap.ListOk, DirOkBut;
  }

  /** What the new process is given: entry point, heap start and user stack, and its thread's kernel stack pointer. */
  datatype Child = Child(start: Loaded, esp: word)

  /** `sys_spawn` from the buffer for the file to the new process: the file's buffer, the address space and the
      program in it, and the process, the thread and its kernel stack. */
  method Spawn(m: Machine, heap: KernelHeap, area: LargeArea, f: File, args: Args, processSize: nat, threadSize: nat,
               ghost w: World) returns (r: Outcome<Child>, ghost t: World)
    requires heap.Valid() && area.Valid() && heap.m == m == area.m
    requires w.s == m.Phys() && m.cr3 in w.dirs && WorldOk(w) && Readable(f)
    requires area.base / PAGE_SIZE + KSTACK_PAGES <= TABLE_PAGES
    modifies heap, area, m`mem, m.frames.bitmap
    ensures r.Done? ==> Reaches(w, t) && WorldOk(t) && t.s == m.Phys() && heap.Valid() && area.Valid()
    ensures r.Done? ==> exists pd :: t.processes == w.processes + [Process(pd, f, args, [])]
    ensures r.Done? ==> Elf.StartsAsWritten(f, r.value.start)
    ensures r.Done? ==> TwoMore(old(Live(heap.blocks)), Live(heap.blocks), processSize, threadSize)
    ensures r.Done? ==> m.cr3 < FRAME_LIMIT
                        && Restored(m.mem, m.cr3, r.value.esp)
                           == UserStart(r.value.start.entry, STACK_PAGE + InitialOffset(args))
    ensures r.Panic? && GoodIdent(f) && AllAcceptable(Segments(f)) ==>
              m.frames.Free() == {} || heap.heapEnd >= WINDOWS_BASE
  {
    hide WorldOk, KernelHeap.ListOk, DirOkBut, Reaches, InitialOffset, Readable, GoodIdent, AllAcceptable,
      Elf.StartsAsWritten, Restored, UserStart, Live;
    ghost var before := Live(heap.blocks);
    t := w;
    var loaded, buf;
    ghost var u: World;
    buf, u := Allocate(m, heap, |f|, w);
    if !buf.Payload? {
      return Panic, t;
    }
    loaded, t := SpawnSpace(m, f, args, u);
    if loaded.Panic? {
      return Panic, t;
    }
    ReachesThrough(w, u, t);
    AllocatorsStay(m, heap, area, t);
    heap.Kfree(buf.addr);
    assert Live(heap.blocks) == before;
    var made;
    made, u := CreateProcess(m, heap, area, processSize, threadSize, loaded.value.entry, loaded.value.esp, t);
    if made.Panic? {
      return Panic, t;
    }
    ReachesThrough(w, t, u);
    return Done(Child(loaded.value, made.value)), u;
  }

  /** The page below `top` is the kernel's own: none of its stores there reaches a table. */
  lemma KernelStackTop(w: World, dir: nat, top: word, p: nat)
    requires WorldOk(w) && dir in w.dirs && KernelOwns(w, dir, p) && p >= USER_PAGES
    requires top % PAGE_SIZE == 0 && top / PAGE_SIZE == p + 1
    ensures var g := Frame(Mapping(w.s, dir)[p]);
            StackTop(w.s.mem, dir, top, g) && g in w.kernel && Enabled(w, KernelStore(g, w.s.mem[g]))
  {
    var g := Frame(Mapping(w.s, dir)[p]);
    assert KernelApart(w.s, dir, w.kernel) && SpaceOk(w.s, dir);
    assert (top - PAGE_SIZE) / PAGE_SIZE == p && p / 1024 < TABLE_SLOTS;
    assert Present(Pte(w.s.mem, dir, p)) && Mapping(w.s, dir)[p] == Pte(w.s.mem, dir, p);
    assert HasTable(w.s, dir, p / 1024) && Table(w.s, dir, p / 1024) != g;
    hide SpaceOk, PairOk, SeesItself, IsUser;
  }

  /** The frame pushed on the kernel stack. */
  method PushStart(m: Machine, top: word, entry: word, userEsp: word, ghost p: nat, ghost w: World)
    returns (sp: word, ghost t: World)
    requires m.frames.Valid() && w.s == m.Phys() && m.cr3 in w.dirs && WorldOk(w)
    requires KernelOwns(w, m.cr3, p) && p >= USER_PAGES && top % PAGE_SIZE == 0 && top / PAGE_SIZE == p + 1
    modifies m`mem
    ensures Reaches(w, t) && WorldOk(t) && t.s == m.Phys() && t.dirs == w.dirs && t.processes == w.processes
    ensures m.cr3 < FRAME_LIMIT && Restored(m.mem, m.cr3, sp) == UserStart(entry, userEsp)
  {
    hide WorldOk, Restored, UserStart, StackTop, WithFrame, Mapping;
    KernelStackTop(w, m.cr3, top, p);
    ghost var g := Frame(Mapping(w.s, m.cr3)[p]);
    ghost var content := WithFrame(w.s.mem[g], entry, userEsp);
    TopInRange(w.s.mem, m.cr3, top, g);
    sp := PushFrame(m, top, entry, userEsp, g);
    ghost var e := KernelStore(g, content);
    t := StoreStep(w, g, content);
    StackTopStays(w.s.mem, m.cr3, top, g, content);
    FrameIsOnTop(w.s.mem[g], entry, userEsp);
    FirstReturnEntersProgram(m.mem, m.cr3, top, g, entry, userEsp);
  }

  lemma TopInRange(mem: Memory, pd: nat, top: word, g: nat)
    requires StackTop(mem, pd, top, g)
    ensures pd < FRAME_LIMIT && g < FRAME_LIMIT
  {
  }

  lemma FrameIsOnTop(p: Page, entry: word, userEsp: word)
    ensures WithFrame(p, entry, userEsp)[WORDS_PER_PAGE - FRAME_WORDS..] == InitialFrame(entry, userEsp)
  {
    hide InitialFrame;
  }

  lemma StoreStep(w: World, g: nat, content: Page) returns (t: World)
    requires WorldOk(w) && g in w.kernel && g < FRAME_LIMIT && w.dirs != {}
    ensures Reaches(w, t) && WorldOk(t) && t.s == State(WritePage(w.s.mem, g, content), w.s.free, w.s.total)
    ensures t.dirs == w.dirs && t.processes == w.processes
  {
    hide WorldOk;
    var e := KernelStore(g, content);
    t := Next(w, e);
    StepKeepsWorld(w, e);
    RunsOne(w, e);
  }

  /** Two more extents are live, of these sizes and at addresses nobody held. */
  ghost predicate TwoMore(before: set<(nat, nat)>, after: set<(nat, nat)>, a: nat, b: nat) {
    exists p: nat, q: nat ::
      && p != q && after == before + {(p, a), (q, b)}
      && forall n: nat :: (p, n) !in before && (q, n) !in before
  }

  /** `uprocess_create`: memory for the process, its thread and its kernel stack, and the frame on that stack. */
  method CreateProcess(m: Machine, heap: KernelHeap, area: LargeArea, processSize: nat, threadSize: nat, entry: word,
                       userEsp: word, ghost w: World)
    returns (r: Outcome<word>, ghost t: World)
    requires heap.Valid() && area.Valid() && heap.m == m == area.m
    requires w.s == m.Phys() && m.cr3 in w.dirs && WorldOk(w)
    requires area.base / PAGE_SIZE + KSTACK_PAGES <= TABLE_PAGES
    modifies heap, area, m`mem, m.frames.bitmap
    ensures r.Done? ==> Reaches(w, t) && WorldOk(t) && t.s == m.Phys() && heap.Valid() && area.Valid()
    ensures r.Done? ==> t.dirs == w.dirs && t.processes == w.processes
    ensures r.Done? ==> m.cr3 < FRAME_LIMIT && Restored(m.mem, m.cr3, r.value) == UserStart(entry, userEsp)
    ensures r.Done? ==> TwoMore(old(Live(heap.blocks)), Live(heap.blocks), processSize, threadSize)
    ensures r.Panic? ==> m.frames.Free() == {} || heap.heapEnd >= WINDOWS_BASE
  {
    hide WorldOk, KernelHeap.ListOk, DirOkBut, Reaches, Restored, UserStart, KernelOwns, Live;
    ghost var before := Live(heap.blocks);
    var block;
    ghost var u: World, v: World;
    block, u := Allocate(m, heap, processSize, w);
    if !block.Payload? {
      return Panic, w;
    }
    block, v := Allocate(m, heap, threadSize, u);
    if !block.Payload? {
      return Panic, w;
    }
    ReachesThrough(w, u, v);
    AllocatorsStay(m, heap, area, v);
    var stack;
    stack, u := AllocatePages(m, area, KSTACK_PAGES, v);
    if stack.Panic? {
      return Panic, w;
    }
    ReachesThrough(w, v, u);
    StackAddress(stack.value);
    assert TwoMore(before, Live(heap.blocks), processSize, threadSize);
    var sp;
    sp, t := PushStart(m, stack.value + KSTACK_PAGES * PAGE_SIZE, entry, userEsp, stack.value / PAGE_SIZE + 1, u);
    ReachesThrough(w, u, t);
    AllocatorsStay(m, heap, area, t);
    return Done(sp), t;
  }

  lemma StackAddress(base: nat)
    requires base % PAGE_SIZE == 0 && LARGE_BASE <= base && base / PAGE_SIZE + KSTACK_PAGES <= TABLE_PAGES
    ensures var top := base + KSTACK_PAGES * PAGE_SIZE;
            top < WORD_LIMIT && top % PAGE_SIZE == 0 && top / PAGE_SIZE == base / PAGE_SIZE + 2
    ensures base / PAGE_SIZE + 1 >= USER_PAGES
  {
  }
}
