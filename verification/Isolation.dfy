/** Address spaces stay apart, whatever maps and new directories a run consists of. */
module Isolation {
  import opened Words
  import opened Pmm
  import opened Mmu
  import opened Paging
  import opened AddressSpace

  /** No table of `p` is `q`, and no user table of `p` is a table of `q`. */
  predicate Separate(s: PhysState, p: nat, q: nat)
    requires p < FRAME_LIMIT && q < FRAME_LIMIT
  {
    && (forall i | 0 <= i < TABLE_SLOTS && HasTable(s, p, i) :: Table(s, p, i) != q)
    && (forall i, j | 0 <= i < USER_SLOTS && 0 <= j < TABLE_SLOTS && HasTable(s, p, i) && HasTable(s, q, j) ::
          Table(s, p, i) != Table(s, q, j))
  }

  predicate Isolated(s: PhysState, dirs: set<nat>) {
    && (forall p <- dirs :: DirOk(s, p))
    && (forall p <- dirs, q <- dirs :: p != q ==> Separate(s, p, q))
  }

  lemma DirBasics(s: PhysState, q: nat)
    requires DirOk(s, q)
    ensures q < FRAME_LIMIT && q !in s.free && FramesInRange(s)
  {
  }

  lemma SeparateUntouched(s: PhysState, t: PhysState, q: nat, r: nat)
    requires q < FRAME_LIMIT && r < FRAME_LIMIT && Separate(s, q, r)
    requires t.mem[q] == s.mem[q] && t.mem[r] == s.mem[r]
    ensures Separate(t, q, r)
  {
    SameSlots(s, t, q);
    SameSlots(s, t, r);
  }

  /** A user map in one directory writes neither another directory nor any of its tables. */
  lemma MapMissesOthers(s: PhysState, p: nat, q: nat, page: nat, phys: word, flags: word)
    requires CanMap(s, p, page) && page < USER_PAGES && DirOk(s, q) && p != q
    requires Separate(s, p, q) && Separate(s, q, p)
    ensures var t := Map(s, p, page, phys, flags);
            && t.mem[q] == s.mem[q]
            && Table(t, p, page / 1024) != q
            && forall i | 0 <= i < TABLE_SLOTS && HasTable(s, q, i) ::
                 t.mem[Table(s, q, i)] == s.mem[Table(s, q, i)] && Table(s, q, i) != Table(t, p, page / 1024)
  {
    MapFrames(s, p, page, phys, flags);
  }

  /** A user map in one directory moves no translation of another. */
  lemma MapLeavesOthersAlone(s: PhysState, p: nat, q: nat, page: nat, phys: word, flags: word)
    requires CanMap(s, p, page) && page < USER_PAGES && DirOk(s, q) && p != q
    requires Separate(s, p, q) && Separate(s, q, p)
    ensures Mapping(Map(s, p, page, phys, flags), q) == Mapping(s, q)
    ensures DirOk(Map(s, p, page, phys, flags), q)
  {
    MapFrames(s, p, page, phys, flags);
    MapMissesOthers(s, p, q, page, phys, flags);
    var t := Map(s, p, page, phys, flags);
    hide Map, Pte;
    SameSlots(s, t, q);
    SameMapping(s, t, q);
  }

  lemma MapKeepsSeparate(s: PhysState, p: nat, q: nat, page: nat, phys: word, flags: word)
    requires CanMap(s, p, page) && page < USER_PAGES && DirOk(s, q) && p != q
    requires Separate(s, p, q) && Separate(s, q, p)
    ensures Separate(Map(s, p, page, phys, flags), p, q) && Separate(Map(s, p, page, phys, flags), q, p)
  {
    MapFrames(s, p, page, phys, flags);
    MapMissesOthers(s, p, q, page, phys, flags);
    var t, slot := Map(s, p, page, phys, flags), page / 1024;
    hide Map;
    SameSlots(s, t, q);
    assert forall i | 0 <= i < TABLE_SLOTS && i != slot ::
        HasTable(t, p, i) == HasTable(s, p, i) && Table(t, p, i) == Table(s, p, i);
  }

  lemma MapKeepsIsolation(s: PhysState, dirs: set<nat>, p: nat, page: nat, phys: word, flags: word)
    requires Isolated(s, dirs) && p in dirs && CanMap(s, p, page) && page < USER_PAGES
    ensures Isolated(Map(s, p, page, phys, flags), dirs)
    ensures forall q <- dirs :: q != p ==> Mapping(Map(s, p, page, phys, flags), q) == Mapping(s, q)
    ensures Mapping(Map(s, p, page, phys, flags), p) == Mapping(s, p)[page := PteValue(phys, flags)]
  {
    hide Map, Mapping, DirOk, Separate;
    forall q | q in dirs
      ensures q !in s.free && q < FRAME_LIMIT && FramesInRange(s)
    {
      DirBasics(s, q);
    }
    MapKeepsDirectory(s, p, page, phys, flags);
    MapRefines(s, p, page, phys, flags);
    forall q | q in dirs && q != p
      ensures DirOk(Map(s, p, page, phys, flags), q)
      ensures Mapping(Map(s, p, page, phys, flags), q) == Mapping(s, q)
      ensures Separate(Map(s, p, page, phys, flags), p, q) && Separate(Map(s, p, page, phys, flags), q, p)
    {
      MapLeavesOthersAlone(s, p, q, page, phys, flags);
      MapKeepsSeparate(s, p, q, page, phys, flags);
    }
    forall q, r | q in dirs && r in dirs && q != r && q != p && r != p
      ensures Separate(Map(s, p, page, phys, flags), q, r)
    {
      MapMissesOthers(s, p, q, page, phys, flags);
      MapMissesOthers(s, p, r, page, phys, flags);
      SeparateUntouched(s, Map(s, p, page, phys, flags), q, r);
    }
  }

  /** A new directory: nothing in the user half, the creator's kernel tables, its own last slot. */
  lemma CreateMakesEmptySpace(s: PhysState, cr3: nat, pd: nat)
    requires DirOk(s, cr3) && pd in s.free
    ensures var t := CreateDir(s, cr3, pd);
            && DirOk(t, pd) && DirOk(t, cr3)
            && (forall page: nat | page < USER_PAGES :: page !in Mapping(t, pd))
            && (forall page: nat | USER_PAGES <= page < TABLE_PAGES :: Pte(t.mem, pd, page) == Pte(s.mem, cr3, page))
  {
    var t := CreateDir(s, cr3, pd);
    FrameAddress(pd);
    assert forall i | USER_SLOTS <= i < TABLE_SLOTS :: HasTable(t, pd, i) == HasTable(s, cr3, i) && Table(t, pd, i) == Table(s, cr3, i);
    SameSlots(s, t, cr3);
    forall page: nat | USER_PAGES <= page < TABLE_PAGES
      ensures Pte(t.mem, pd, page) == Pte(s.mem, cr3, page)
    {
      assert HasTable(s, cr3, page / 1024) ==> Table(s, cr3, page / 1024) != pd;
    }
  }

  lemma CreateLeavesOthersAlone(s: PhysState, cr3: nat, pd: nat, q: nat)
    requires cr3 < FRAME_LIMIT && pd in s.free && DirOk(s, q)
    ensures DirOk(CreateDir(s, cr3, pd), q)
    ensures Mapping(CreateDir(s, cr3, pd), q) == Mapping(s, q)
    ensures CreateDir(s, cr3, pd).mem[q] == s.mem[q]
  {
    var t := CreateDir(s, cr3, pd);
    SameSlots(s, t, q);
    SameMapping(s, t, q);
  }

  lemma CreateIsSeparate(s: PhysState, cr3: nat, pd: nat, q: nat)
    requires DirOk(s, cr3) && pd in s.free && DirOk(s, q) && (q != cr3 ==> Separate(s, q, cr3) && Separate(s, cr3, q))
    ensures Separate(CreateDir(s, cr3, pd), pd, q) && Separate(CreateDir(s, cr3, pd), q, pd)
  {
    var t := CreateDir(s, cr3, pd);
    assert t.mem[q] == s.mem[q];
    assert forall i | USER_SLOTS <= i < TABLE_SLOTS :: HasTable(t, pd, i) == HasTable(s, cr3, i) && Table(t, pd, i) == Table(s, cr3, i);
    assert forall i | 0 <= i < USER_SLOTS :: !HasTable(t, pd, i);
    SameSlots(s, t, q);
  }

  lemma CreateKeepsIsolation(s: PhysState, dirs: set<nat>, cr3: nat, pd: nat)
    requires Isolated(s, dirs) && cr3 in dirs && pd in s.free
    ensures Isolated(CreateDir(s, cr3, pd), dirs + {pd}) && pd !in dirs
    ensures forall q <- dirs :: Mapping(CreateDir(s, cr3, pd), q) == Mapping(s, q)
  {
    hide Mapping, DirOk, Separate, CreateDir;
    forall q | q in dirs
      ensures q !in s.free && q < FRAME_LIMIT && FramesInRange(s)
    {
      DirBasics(s, q);
    }
    CreateMakesEmptySpace(s, cr3, pd);
    forall q | q in dirs
      ensures DirOk(CreateDir(s, cr3, pd), q)
      ensures Mapping(CreateDir(s, cr3, pd), q) == Mapping(s, q)
      ensures CreateDir(s, cr3, pd).mem[q] == s.mem[q]
      ensures Separate(CreateDir(s, cr3, pd), pd, q) && Separate(CreateDir(s, cr3, pd), q, pd)
    {
      CreateLeavesOthersAlone(s, cr3, pd, q);
      CreateIsSeparate(s, cr3, pd, q);
    }
    forall q, r | q in dirs && r in dirs && q != r
      ensures Separate(CreateDir(s, cr3, pd), q, r)
    {
      SeparateUntouched(s, CreateDir(s, cr3, pd), q, r);
    }
  }

  // ---------- Runs ----------

  datatype Edit =
    | MapUser(dir: nat, page: nat, phys: word, flags: word)
    | NewSpace(creator: nat)

  datatype Spaces = Spaces(s: PhysState, dirs: set<nat>)

  /** The call is made on an existing directory, and does not run out of frames. */
  predicate Enabled(k: Spaces, e: Edit) {
    match e
    case MapUser(dir, page, _, _) => dir in k.dirs && page < USER_PAGES && CanMap(k.s, dir, page)
    case NewSpace(creator) => creator in k.dirs && DirOk(k.s, creator) && k.s.free != {}
  }

  ghost function Step(k: Spaces, e: Edit): Spaces
    requires Enabled(k, e)
  {
    match e
    case MapUser(dir, page, phys, flags) => Spaces(Map(k.s, dir, page, phys, flags), k.dirs)
    case NewSpace(creator) => Spaces(CreateDir(k.s, creator, Lowest(k.s.free)), k.dirs + {Lowest(k.s.free)})
  }

  ghost predicate Runs(k: Spaces, edits: seq<Edit>)
    decreases |edits|
  {
    edits == [] || (Enabled(k, edits[0]) && Runs(Step(k, edits[0]), edits[1..]))
  }

  ghost function Final(k: Spaces, edits: seq<Edit>): Spaces
    requires Runs(k, edits)
    decreases |edits|
  {
    if edits == [] then k else Final(Step(k, edits[0]), edits[1..])
  }

  /** What directory `q` maps if only the edits made to it count. */
  function OwnEdits(m: map<nat, word>, q: nat, edits: seq<Edit>): map<nat, word>
    decreases |edits|
  {
    if edits == [] then m
    else
      match edits[0]
      case MapUser(dir, page, phys, flags) =>
        OwnEdits(if dir == q then m[page := PteValue(phys, flags)] else m, q, edits[1..])
      case NewSpace(_) => OwnEdits(m, q, edits[1..])
  }

  /** Over every run, each address space sees its own edits, in order, and no others. */
  lemma {:induction false} EachSpaceSeesItsOwnEdits(k: Spaces, edits: seq<Edit>, q: nat)
    requires Isolated(k.s, k.dirs) && q in k.dirs && Runs(k, edits)
    ensures Isolated(Final(k, edits).s, Final(k, edits).dirs) && k.dirs <= Final(k, edits).dirs
    ensures q < FRAME_LIMIT && Mapping(Final(k, edits).s, q) == OwnEdits(Mapping(k.s, q), q, edits)
    decreases |edits|
  {
    hide Map, Mapping, DirOk, Isolated, CreateDir;
    DirectoryInRange(k, q);
    if edits != [] {
      match edits[0] {
        case MapUser(dir, page, phys, flags) =>
          MapKeepsIsolation(k.s, k.dirs, dir, page, phys, flags);
        case NewSpace(creator) =>
          CreateKeepsIsolation(k.s, k.dirs, creator, Lowest(k.s.free));
      }
      EachSpaceSeesItsOwnEdits(Step(k, edits[0]), edits[1..], q);
    }
  }

  lemma DirectoryInRange(k: Spaces, q: nat)
    requires Isolated(k.s, k.dirs) && q in k.dirs
    ensures q < FRAME_LIMIT
  {
  }
}
