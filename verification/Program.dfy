/** What a freshly loaded program finds in its address space. */
module Program {
  import opened Division
  import opened Words
  import opened Pmm
  import opened Mmu
  import opened Paging
  import opened AddressSpace
  import opened ArgStack
  import opened Loader

  // ---------- Segments ----------

  /** p_filesz bytes of the file, then zeros up to p_memsz. */
  function SpecByte(seg: Phdr, f: File, a: nat): byte
    requires seg.Inside(f) && seg.vaddr <= a
  {
    if a < seg.vaddr + seg.filesz then f[seg.offset + (a - seg.vaddr)] else 0
  }

  /** The segment's memory ends below the stack's top without wrapping around. */
  predicate InRange(seg: Phdr) {
    seg.vaddr + seg.memsz <= USER_STACK_TOP
  }

  /** The segment reaches neither stack page. */
  predicate BelowStack(seg: Phdr) {
    seg.vaddr + seg.memsz <= STACK_LOW_PAGE * PAGE_SIZE
  }

  predicate HasAddress(seg: Phdr, a: nat) {
    seg.vaddr <= a < seg.vaddr + seg.memsz
  }

  predicate AllInRange(segs: seq<Phdr>) {
    forall s <- segs :: InRange(s)
  }

  /** The segment is in memory as the file describes it, read through the directory. */
  ghost predicate Loaded(m: Memory, pd: nat, seg: Phdr, f: File)
    requires pd < FRAME_LIMIT && seg.Inside(f) && InRange(seg)
  {
    forall a: nat | HasAddress(seg, a) :: Mapped(m, pd, a) && ReadByte(m, pd, a) == SpecByte(seg, f, a)
  }

  ghost predicate PageDisjoint(segs: seq<Phdr>) {
    forall i, j, page: nat | 0 <= i < j < |segs| :: !(segs[i].Covers(page) && segs[j].Covers(page))
  }

  /** The segment whose contents a page gets: the last that covers it. */
  function Owner(segs: seq<Phdr>, page: nat): (i: nat)
    requires exists j | 0 <= j < |segs| :: segs[j].Covers(page)
    ensures i < |segs| && segs[i].Covers(page) && forall j | i < j < |segs| :: !segs[j].Covers(page)
  {
    if segs[|segs| - 1].Covers(page) then |segs| - 1 else Owner(segs[..|segs| - 1], page)
  }

  lemma {:induction false} ImageOfOwner(segs: seq<Phdr>, f: File, page: nat)
    requires exists j | 0 <= j < |segs| :: segs[j].Covers(page)
    ensures var o := segs[Owner(segs, page)];
            Image(segs, f, page) == Resident(SegmentPage(o, f, page), SegmentAccess(o))
  {
    if !segs[|segs| - 1].Covers(page) {
      ImageOfOwner(segs[..|segs| - 1], f, page);
    }
  }

  lemma ReadFromView(m: Memory, pd: nat, a: word)
    requires pd < FRAME_LIMIT && View(m, pd, a / PAGE_SIZE).Resident?
    ensures Mapped(m, pd, a)
    ensures |View(m, pd, a / PAGE_SIZE).bytes| == PAGE_SIZE
    ensures ReadByte(m, pd, a) == View(m, pd, a / PAGE_SIZE).bytes[a % PAGE_SIZE]
  {
  }

  lemma CoversItsMemory(seg: Phdr, a: nat)
    requires InRange(seg) && HasAddress(seg, a)
    ensures seg.Covers(a / PAGE_SIZE) && a / PAGE_SIZE <= STACK_TOP_PAGE
    ensures BelowStack(seg) ==> a / PAGE_SIZE < STACK_LOW_PAGE
  {
  }

  /** What loading leaves at an address of a segment: the argument block, zeros, or the byte of the last segment that
      covers its page. */
  function FinalByte(segs: seq<Phdr>, f: File, args: Args, a: nat): byte
    requires exists j | 0 <= j < |segs| :: segs[j].Covers(a / PAGE_SIZE)
  {
    if a / PAGE_SIZE == STACK_TOP_PAGE then ArgumentPage(args)[a % PAGE_SIZE]
    else if a / PAGE_SIZE == STACK_LOW_PAGE then 0
    else SegmentByte(segs[Owner(segs, a / PAGE_SIZE)], f, a)
  }

  /** A program reads at an address of a segment what was put there last. */
  lemma ReadsWhatWasLast(m: Memory, pd: nat, segs: seq<Phdr>, f: File, args: Args, i: nat, a: nat)
    requires pd < FRAME_LIMIT && ShowsProgram(m, pd, segs, f, args)
    requires i < |segs| && InRange(segs[i]) && HasAddress(segs[i], a)
    ensures segs[i].Covers(a / PAGE_SIZE) && Mapped(m, pd, a)
    ensures ReadByte(m, pd, a) == FinalByte(segs, f, args, a)
  {
    hide View, Image, SegmentByte, SegmentPage, SegmentAccess, ReadByte, Mapped, Phdr.Covers, Access;
    CoversItsMemory(segs[i], a);
    ImageOfOwner(segs, f, a / PAGE_SIZE);
    ReadFromView(m, pd, a);
    SegmentPageAt(segs[Owner(segs, a / PAGE_SIZE)], f, a);
  }

  lemma SegmentPageAt(seg: Phdr, f: File, a: nat)
    ensures SegmentPage(seg, f, a / PAGE_SIZE)[a % PAGE_SIZE] == SegmentByte(seg, f, a)
  {
    hide SegmentByte;
    assert a / PAGE_SIZE * PAGE_SIZE + a % PAGE_SIZE == a;
  }

  lemma SegmentByteIsSpec(seg: Phdr, f: File, a: nat)
    requires seg.Inside(f) && InRange(seg) && seg.vaddr <= a < WORD_LIMIT
    ensures SegmentByte(seg, f, a) == SpecByte(seg, f, a)
  {
  }

  /** What is put last at each address of a segment is the segment's own byte. */
  ghost predicate LastAgrees(segs: seq<Phdr>, f: File, args: Args)
  {
    forall i, a: nat | 0 <= i < |segs| && HasAddress(segs[i], a) && segs[i].Covers(a / PAGE_SIZE) ::
      FinalByte(segs, f, args, a) == SegmentByte(segs[i], f, a)
  }

  /** Every segment is loaded as described exactly when shared pages and the stack pages do no harm. */
  lemma LoadedIffLastAgrees(m: Memory, pd: nat, segs: seq<Phdr>, f: File, args: Args)
    requires pd < FRAME_LIMIT && ShowsProgram(m, pd, segs, f, args)
    requires AllInside(segs, f) && AllInRange(segs)
    ensures (forall i | 0 <= i < |segs| :: Loaded(m, pd, segs[i], f)) <==> LastAgrees(segs, f, args)
  {
    hide ShowsProgram, SegmentByte, FinalByte, ReadByte, Mapped, Phdr.Covers, SpecByte;
    forall i, a: nat | 0 <= i < |segs| && HasAddress(segs[i], a)
      ensures segs[i].Covers(a / PAGE_SIZE)
      ensures a < WORD_LIMIT && Mapped(m, pd, a)
      ensures ReadByte(m, pd, a) == FinalByte(segs, f, args, a)
      ensures SegmentByte(segs[i], f, a) == SpecByte(segs[i], f, a)
    {
      ReadsWhatWasLast(m, pd, segs, f, args, i, a);
      SegmentByteIsSpec(segs[i], f, a);
    }
    if forall i | 0 <= i < |segs| :: Loaded(m, pd, segs[i], f) {
      forall i, a: nat | 0 <= i < |segs| && HasAddress(segs[i], a) && segs[i].Covers(a / PAGE_SIZE)
        ensures FinalByte(segs, f, args, a) == SegmentByte(segs[i], f, a)
      {
        assert Loaded(m, pd, segs[i], f);
      }
    }
    if LastAgrees(segs, f, args) {
      forall i | 0 <= i < |segs|
        ensures Loaded(m, pd, segs[i], f)
      {
        forall a: nat | HasAddress(segs[i], a)
          ensures a < WORD_LIMIT && Mapped(m, pd, a) && ReadByte(m, pd, a) == SpecByte(segs[i], f, a)
        {
          assert segs[i].Covers(a / PAGE_SIZE);
          assert FinalByte(segs, f, args, a) == SegmentByte(segs[i], f, a);
          assert ReadByte(m, pd, a) == FinalByte(segs, f, args, a);
        }
      }
    }
  }

  /** Segments that share no page with each other or the stack are loaded as described. */
  lemma DisjointSegmentsAreLoaded(m: Memory, pd: nat, segs: seq<Phdr>, f: File, args: Args)
    requires pd < FRAME_LIMIT && ShowsProgram(m, pd, segs, f, args)
    requires AllInside(segs, f) && AllInRange(segs) && PageDisjoint(segs) && forall s <- segs :: BelowStack(s)
    ensures forall i | 0 <= i < |segs| :: Loaded(m, pd, segs[i], f)
  {
    forall i, a: nat | 0 <= i < |segs| && HasAddress(segs[i], a) && segs[i].Covers(a / PAGE_SIZE)
      ensures FinalByte(segs, f, args, a) == SegmentByte(segs[i], f, a)
    {
      CoversItsMemory(segs[i], a);
      assert Owner(segs, a / PAGE_SIZE) == i;
    }
    assert LastAgrees(segs, f, args);
    LoadedIffLastAgrees(m, pd, segs, f, args);
  }

  /** A segment on the upper stack page loses any byte in which it differs from the argument block. */
  lemma StackPageReplacesSegment(segs: seq<Phdr>, f: File, args: Args, i: nat, a: nat)
    requires i < |segs| && InRange(segs[i]) && HasAddress(segs[i], a)
    requires a / PAGE_SIZE == STACK_TOP_PAGE && SegmentByte(segs[i], f, a) != ArgumentPage(args)[a % PAGE_SIZE]
    ensures !LastAgrees(segs, f, args)
  {
    CoversItsMemory(segs[i], a);
    hide SegmentByte, Phdr.Covers;
    assert FinalByte(segs, f, args, a) != SegmentByte(segs[i], f, a);
  }

  /** A memory size that wraps past 2^32 passes the check, and at most the segment's first page is loaded. */
  lemma WrappedSegmentIsSkipped(seg: Phdr, page: nat)
    requires seg.vaddr < KERNEL_VIRT_BASE && seg.vaddr + seg.memsz >= WORD_LIMIT
    ensures seg.Covers(page) ==> page == seg.vaddr / PAGE_SIZE
    ensures seg.vaddr + seg.memsz <= WORD_LIMIT + USER_STACK_TOP ==> seg.Acceptable()
  {
  }

  // ---------- Arguments ----------

  /** A user-mode load; an unmapped address would fault, and reads 0 here. */
  function Peek(m: Memory, pd: nat, a: word): byte
    requires pd < FRAME_LIMIT
  {
    if Mapped(m, pd, a) then ReadByte(m, pd, a) else 0
  }

  function PeekWord(m: Memory, pd: nat, a: word): word
    requires pd < FRAME_LIMIT
  {
    Le32([Peek(m, pd, a), Peek(m, pd, Add32(a, 1)), Peek(m, pd, Add32(a, 2)), Peek(m, pd, Add32(a, 3))])
  }

  /** The C string at an address. */
  function PeekString(m: Memory, pd: nat, a: nat): seq<byte>
    requires pd < FRAME_LIMIT
    decreases WORD_LIMIT - a
  {
    if a >= WORD_LIMIT || Peek(m, pd, a) == 0 then [] else [Peek(m, pd, a)] + PeekString(m, pd, a + 1)
  }

  /** The i-th argument. */
  function StartArg(m: Memory, pd: nat, argv: word, i: nat): seq<byte>
    requires pd < FRAME_LIMIT
  {
    PeekString(m, pd, PeekWord(m, pd, (argv + 4 * i) % WORD_LIMIT))
  }

  /** What `_start` hands to `main`: argc from the stack pointer, argv from the word above it. */
  function StartArgs(m: Memory, pd: nat, esp: word): seq<seq<byte>>
    requires pd < FRAME_LIMIT
  {
    var argc, argv := PeekWord(m, pd, esp), PeekWord(m, pd, Add32(esp, 4));
    seq(argc, i requires 0 <= i => StartArg(m, pd, argv, i))
  }

  lemma PeekOnStack(m: Memory, pd: nat, stack: seq<byte>, k: nat)
    requires pd < FRAME_LIMIT && k < PAGE_SIZE && |stack| == PAGE_SIZE
    requires View(m, pd, STACK_TOP_PAGE).Resident? && View(m, pd, STACK_TOP_PAGE).bytes == stack
    ensures Peek(m, pd, STACK_PAGE + k) == stack[k]
  {
    assert (STACK_PAGE + k) / PAGE_SIZE == STACK_TOP_PAGE && (STACK_PAGE + k) % PAGE_SIZE == k;
    ReadFromView(m, pd, STACK_PAGE + k);
  }

  lemma PeekWordOnStack(m: Memory, pd: nat, stack: seq<byte>, k: nat)
    requires pd < FRAME_LIMIT && k + 4 <= PAGE_SIZE && |stack| == PAGE_SIZE
    requires View(m, pd, STACK_TOP_PAGE).Resident? && View(m, pd, STACK_TOP_PAGE).bytes == stack
    ensures PeekWord(m, pd, STACK_PAGE + k) == WordAt(stack, k)
  {
    hide Peek, View, Le32;
    PeekOnStack(m, pd, stack, k);
    PeekOnStack(m, pd, stack, k + 1);
    PeekOnStack(m, pd, stack, k + 2);
    PeekOnStack(m, pd, stack, k + 3);
    assert stack[k..k + 4] == [stack[k], stack[k + 1], stack[k + 2], stack[k + 3]];
  }

  lemma {:induction false} PeekStringOnStack(m: Memory, pd: nat, stack: seq<byte>, k: nat, s: CString)
    requires pd < FRAME_LIMIT && k + |s| < PAGE_SIZE && |stack| == PAGE_SIZE
    requires View(m, pd, STACK_TOP_PAGE).Resident? && View(m, pd, STACK_TOP_PAGE).bytes == stack
    requires stack[k..k + |s|] == s && stack[k + |s|] == 0
    ensures PeekString(m, pd, STACK_PAGE + k) == s
    decreases |s|
  {
    hide Peek, View;
    PeekOnStack(m, pd, stack, k);
    if s != [] {
      assert stack[k] == stack[k..k + |s|][0] == s[0];
      assert stack[k + 1..k + |s|] == stack[k..k + |s|][1..] == s[1..];
      PeekStringOnStack(m, pd, stack, k + 1, s[1..]);
    }
  }

  /** The argument page as the program sees it. */
  predicate ShowsStack(m: Memory, pd: nat, stack: seq<byte>) {
    && pd < FRAME_LIMIT && |stack| == PAGE_SIZE
    && View(m, pd, STACK_TOP_PAGE).Resident? && View(m, pd, STACK_TOP_PAGE).bytes == stack
  }

  /** argc, argv and the null after the last pointer. */
  lemma VectorArrives(m: Memory, pd: nat, stack: seq<byte>, esp: word, args: seq<CString>)
    requires ShowsStack(m, pd, stack) && HoldsArgs(stack, esp, args)
    ensures PeekWord(m, pd, esp) == |args|
    ensures var argv := PeekWord(m, pd, Add32(esp, 4));
            && argv == WordAt(stack, esp - STACK_PAGE + 4)
            && argv + 4 * |args| < WORD_LIMIT && PeekWord(m, pd, argv + 4 * |args|) == 0
  {
    hide Peek, PeekWord, View, WordAt, StringAt;
    var argv := WordAt(stack, esp - STACK_PAGE + 4);
    PeekWordOnStack(m, pd, stack, esp - STACK_PAGE);
    PeekWordOnStack(m, pd, stack, esp - STACK_PAGE + 4);
    PeekWordOnStack(m, pd, stack, argv - STACK_PAGE + 4 * |args|);
  }

  lemma ArgumentArrives(m: Memory, pd: nat, stack: seq<byte>, esp: word, args: seq<CString>, i: nat)
    requires ShowsStack(m, pd, stack) && HoldsArgs(stack, esp, args) && i < |args|
    ensures var argv := WordAt(stack, esp - STACK_PAGE + 4);
            StartArg(m, pd, argv, i) == args[i]
  {
    hide Peek, PeekWord, PeekString, View, WordAt;
    var argv := WordAt(stack, esp - STACK_PAGE + 4);
    PeekWordOnStack(m, pd, stack, argv - STACK_PAGE + 4 * i);
    var p := WordAt(stack, argv - STACK_PAGE + 4 * i);
    assert StringAt(stack, p, args[i]);
    PeekStringOnStack(m, pd, stack, p - STACK_PAGE, args[i]);
  }

  lemma StackIsShown(m: Memory, pd: nat, segs: seq<Phdr>, f: File, args: Args)
    requires pd < FRAME_LIMIT && ShowsProgram(m, pd, segs, f, args)
    ensures ShowsStack(m, pd, ArgumentPage(args))
  {
  }

  /** The program starts with exactly the arguments it was given, and a null after the last. */
  lemma ArgumentsArrive(m: Memory, pd: nat, segs: seq<Phdr>, f: File, esp: word, args: Args)
    requires pd < FRAME_LIMIT && ShowsProgram(m, pd, segs, f, args) && esp == STACK_PAGE + InitialOffset(args)
    ensures StartArgs(m, pd, esp) == args
    ensures PeekWord(m, pd, (PeekWord(m, pd, Add32(esp, 4)) + 4 * |args|) % WORD_LIMIT) == 0
  {
    hide ShowsProgram, ShowsStack, PeekWord, StartArg, WordAt, StringAt, ArgumentPage, InitialOffset, Fits;
    StackIsShown(m, pd, segs, f, args);
    BlockHoldsArgs(args);
    BlockArrives(m, pd, ArgumentPage(args), esp, args);
  }

  lemma BlockArrives(m: Memory, pd: nat, stack: seq<byte>, esp: word, args: seq<CString>)
    requires pd < FRAME_LIMIT && ShowsStack(m, pd, stack) && HoldsArgs(stack, esp, args)
    ensures StartArgs(m, pd, esp) == args
    ensures PeekWord(m, pd, (PeekWord(m, pd, Add32(esp, 4)) + 4 * |args|) % WORD_LIMIT) == 0
  {
    hide ShowsStack, PeekWord, StartArg, WordAt, StringAt;
    VectorArrives(m, pd, stack, esp, args);
    var argv := PeekWord(m, pd, Add32(esp, 4));
    hide HoldsArgs;
    forall i: nat | i < |args|
      ensures StartArg(m, pd, argv, i) == args[i]
    {
      ArgumentArrives(m, pd, stack, esp, args, i);
    }
  }

  // ---------- Access rights ----------

  datatype Rights = Rights(write: bool, user: bool)

  predicate Bit(entry: nat, mask: nat)
    requires mask > 0
  {
    entry / mask % 2 == 1
  }

  /** What the two-level walk allows: a right needs its bit in the directory entry and in the table entry. */
  function EffectiveRights(m: Memory, pd: nat, page: nat): Rights
    requires pd < FRAME_LIMIT && page < FRAME_LIMIT
  {
    var pde, pte := m[pd][page / 1024], Pte(m, pd, page);
    Rights(Bit(pde, 2) && Bit(pte, 2), Bit(pde, 4) && Bit(pte, 4))
  }

  /** The directory entries of a loaded program take no right away: each page has the rights of its own entry. */
  lemma PageRightsAreEffective(s0: PhysState, s: PhysState, cr3: nat, pd: nat, page: nat)
    requires Loading(s0, s, cr3, pd) && page < USER_PAGES && View(s.mem, pd, page).Resident?
    ensures var access := View(s.mem, pd, page).access;
            EffectiveRights(s.mem, pd, page) == Rights(Bit(access, PAGE_RW), Bit(access, PAGE_USER))
  {
    assert HasTable(s, pd, page / 1024);
    hide DirOk;
    LowBits(s.mem[pd][page / 1024]);
    LowBits(Pte(s.mem, pd, page));
  }

  lemma LowBits(entry: word)
    ensures Bit(entry, PAGE_RW) == Bit(entry % 8, PAGE_RW) == Bit(entry % PAGE_SIZE, PAGE_RW)
    ensures Bit(entry, PAGE_USER) == Bit(entry % 8, PAGE_USER) == Bit(entry % PAGE_SIZE, PAGE_USER)
  {
    LowBitsOf(entry / 8, entry % 8);
    var low := entry % PAGE_SIZE;
    LowBitsOf(low / 8, low % 8);
    assert entry == PAGE_SIZE * (entry / PAGE_SIZE) + low;
    assert low == 8 * (low / 8) + low % 8;
    SameLow(entry / PAGE_SIZE, low / 8, low % 8);
  }

  lemma LowBitsOf(q: nat, r: nat)
    requires r < 8
    ensures Bit(8 * q + r, PAGE_RW) == Bit(r, PAGE_RW) && Bit(8 * q + r, PAGE_USER) == Bit(r, PAGE_USER)
  {
    Quotient(8 * q + r, 2, 4 * q + r / 2, r % 2);
    AddMultiple(r / 2, 2, 2 * q);
    Quotient(8 * q + r, 4, 2 * q + r / 4, r % 4);
    AddMultiple(r / 4, 2, q);
  }

  lemma SameLow(p: nat, q: nat, r: nat)
    requires r < 8
    ensures (PAGE_SIZE * p + 8 * q + r) % 8 == r
  {
    assert PAGE_SIZE * p + 8 * q + r == 8 * (512 * p + q) + r;
  }

  lemma SegmentAccessBits(seg: Phdr)
    ensures Bit(SegmentAccess(seg), PAGE_RW) == Bit(seg.flags, PF_W) && Bit(SegmentAccess(seg), PAGE_USER)
  {
  }

  /** A program may read its segments' pages, and write exactly those of writable segments. */
  lemma SegmentRights(s0: PhysState, s: PhysState, cr3: nat, pd: nat, segs: seq<Phdr>, f: File, args: Args, page: nat)
    requires Loading(s0, s, cr3, pd) && ShowsProgram(s.mem, pd, segs, f, args)
    requires page < STACK_LOW_PAGE && exists j | 0 <= j < |segs| :: segs[j].Covers(page)
    ensures EffectiveRights(s.mem, pd, page) == Rights(Bit(segs[Owner(segs, page)].flags, 2), true)
  {
    hide Loading, View, Image, SegmentPage, EffectiveRights, Phdr.Covers, SegmentAccess, Access, Bit;
    ImageOfOwner(segs, f, page);
    SegmentAccessBits(segs[Owner(segs, page)]);
    PageRightsAreEffective(s0, s, cr3, pd, page);
  }

  /** Both stack pages are open to the program for writing. */
  lemma StackRights(s0: PhysState, s: PhysState, cr3: nat, pd: nat, segs: seq<Phdr>, f: File, args: Args, page: nat)
    requires Loading(s0, s, cr3, pd) && ShowsProgram(s.mem, pd, segs, f, args)
    requires page == STACK_LOW_PAGE || page == STACK_TOP_PAGE
    ensures EffectiveRights(s.mem, pd, page) == Rights(true, true)
  {
    hide Loading, View, Image, EffectiveRights;
    PageRightsAreEffective(s0, s, cr3, pd, page);
  }

  // ---------- Other processes ----------

  /** No table of `q` is frame `pd`, and no user page of `q` stands on a free frame or on frame `pd`. */
  predicate Apart(s: PhysState, q: nat, pd: nat)
    requires q < FRAME_LIMIT
  {
    && (forall i | 0 <= i < TABLE_SLOTS && HasTable(s, q, i) :: Table(s, q, i) != pd)
    && (forall page: nat | page < USER_PAGES && Present(Pte(s.mem, q, page)) ::
          Frame(Pte(s.mem, q, page)) !in s.free && Frame(Pte(s.mem, q, page)) != pd)
  }

  /** Loading a program changes no translation and no user page of another address space. */
  lemma LoadLeavesOthersAlone(s0: PhysState, s: PhysState, cr3: nat, pd: nat, q: nat)
    requires Loading(s0, s, cr3, pd) && DirOk(s0, q) && q != pd && Apart(s0, q, pd)
    ensures DirOk(s, q) && s.mem[q] == s0.mem[q] && Mapping(s, q) == Mapping(s0, q)
    ensures SameUserPtes(s.mem, s0.mem, q)
    ensures forall page: nat | page < USER_PAGES :: View(s.mem, q, page) == View(s0.mem, q, page)
  {
    SameDirectory(s0, s, q);
    SameMapping(s0, s, q);
    SameTranslations(s0, s, q, TABLE_SLOTS);
    hide Pte, DirOk, Mapping, PageBytes;
  }
}
