/** The physical frame allocator: one bit per 4 KiB frame, set when the frame is used. */
module Pmm {
  import opened Words

  /** The 32-bit physical address space holds this many frames. */
  const FRAME_LIMIT: nat := 0x10_0000

  /** The mask of bit `i` of a bitmap byte. */
  function Bit(i: nat): bv8
    requires i < 8
  {
    (1 as bv8) << i
  }

  /** `BIT_TEST`, `BIT_SET` and `BIT_CLEAR` on one byte. */
  predicate HasBit(m: bv8, i: nat)
    requires i < 8
  {
    m & Bit(i) != 0
  }

  function WithBit(m: bv8, i: nat): bv8
    requires i < 8
  {
    m | Bit(i)
  }

  function WithoutBit(m: bv8, i: nat): bv8
    requires i < 8
  {
    m & !Bit(i)
  }

  /** One bit operation decides its own bit and leaves the other seven alone. */
  lemma BitOperations(m: bv8, i: nat, j: nat)
    requires i < 8 && j < 8
    ensures HasBit(WithBit(m, i), j) <==> i == j || HasBit(m, j)
    ensures HasBit(WithoutBit(m, i), j) <==> i != j && HasBit(m, j)
  {
    MasksDiffer(i, j);
    OnMasks(m, Bit(i), Bit(j));
    hide Bit;
  }

  lemma MasksDiffer(i: nat, j: nat)
    requires i < 8 && j < 8
    ensures Bit(j) != 0 && (if i == j then Bit(i) == Bit(j) else Bit(i) != Bit(j) && Bit(i) & Bit(j) == 0)
  {
    if i == 0 {
    } else if i == 1 {
    } else if i == 2 {
    } else if i == 3 {
    } else if i == 4 {
    } else if i == 5 {
    } else if i == 6 {
    } else {
      assert i == 7;
    }
  }

  lemma OnMasks(m: bv8, a: bv8, b: bv8)
    requires b != 0 && (a != b ==> a & b == 0)
    ensures (m | a) & b != 0 <==> a == b || m & b != 0
    ensures (m & !a) & b != 0 <==> a != b && m & b != 0
  {
  }

  lemma ClearBitStays(m: bv8, i: nat)
    requires i < 8 && !HasBit(m, i)
    ensures WithoutBit(m, i) == m
  {
    var b := Bit(i);
    hide Bit;
    assert m & b == 0 ==> m & !b == m;
  }

  lemma FullByte(i: nat)
    requires i < 8
    ensures HasBit(0xff, i)
  {
    BitOperations(0xff, i, i);
    assert 0xff | Bit(i) == 0xff;
  }

  ghost predicate IsLowest(f: nat, s: set<nat>) {
    f in s && forall g <- s :: f <= g
  }

  /** Every nonempty set of frames has a lowest member. */
  lemma {:induction false} LowestExists(s: set<nat>)
    requires s != {}
    ensures exists f :: IsLowest(f, s)
    decreases s
  {
    var f: nat :| f in s;
    if forall g <- s :: f <= g {
      assert IsLowest(f, s);
    } else {
      var g :| g in s && g < f;
      var lower := set h | h in s && h < f;
      assert g in lower && f !in lower;
      LowestExists(lower);
      var low: nat :| IsLowest(low, lower);
      forall h | h in s
        ensures low <= h
      {
        assert h < f ==> h in lower;
      }
      assert IsLowest(low, s);
    }
  }

  ghost function Lowest(s: set<nat>): (f: nat)
    requires s != {}
    ensures IsLowest(f, s)
  {
    LowestExists(s);
    var f: nat :| IsLowest(f, s);
    f
  }

  /** How many pages a length spans; the rounding addition wraps at 32 bits. */
  function PageCount(len: word): (n: nat)
  {
    Add32(len, PAGE_SIZE - 1) / PAGE_SIZE
  }

  /** A memory range as firmware and linker hand it over. */
  datatype Range = Range(base: word, length: word) {
    predicate HasPage(p: nat) {
      base / PAGE_SIZE <= p < base / PAGE_SIZE + PageCount(length)
    }
  }

  predicate InSome(p: nat, ranges: seq<Range>) {
    exists i | 0 <= i < |ranges| :: ranges[i].HasPage(p)
  }

  /** The range does not start so late in its first page that it runs over one page more than its length needs. */
  predicate StaysInPages(base: nat, length: nat) {
    base % 0x1000 + (length - 1) % 0x1000 < 0x1000
  }

  /** Every page that holds a byte of the range is one of its pages, exactly when the range stays in them. */
  lemma PagesCoverBytesIff(r: Range)
    requires 0 < r.length <= WORD_LIMIT - PAGE_SIZE
    ensures (forall a: nat | r.base <= a < r.base + r.length :: r.HasPage(a / PAGE_SIZE))
            <==> StaysInPages(r.base, r.length)
  {
    var last: nat := r.base + r.length - 1;
    LastPage(r.base, r.length - 1);
    if StaysInPages(r.base, r.length) {
      forall a: nat | r.base <= a < r.base + r.length
        ensures r.HasPage(a / PAGE_SIZE)
      {
        PageOrder(r.base, a);
        PageOrder(a, last);
      }
    } else {
      assert !r.HasPage(last / PAGE_SIZE);
    }
  }

  /** Two bytes across a page boundary count as one page, and the second byte's page is missed. */
  lemma SecondPageIsMissed()
    ensures var r := Range(PAGE_SIZE - 1, 2); !r.HasPage((r.base + 1) / PAGE_SIZE)
  {
  }

  lemma PageOrder(a: nat, b: nat)
    requires a <= b
    ensures a / PAGE_SIZE <= b / PAGE_SIZE
  {
  }

  lemma LastPage(base: nat, d: nat)
    ensures (base + d) / PAGE_SIZE
            == base / PAGE_SIZE + d / PAGE_SIZE + (base % PAGE_SIZE + d % PAGE_SIZE) / PAGE_SIZE
    ensures (d + PAGE_SIZE) / PAGE_SIZE == d / PAGE_SIZE + 1
  {
  }

  const KERNEL_OFFSET: word := 0xc000_0000

  /** What the loader and the firmware say: the kernel's physical extent, its virtual end, the framebuffer, and where
      the framebuffer descriptor lies. */
  datatype BootInfo = BootInfo(kpstart: word, kpend: word, kend: word, fbAddr: nat, fbPitch: word, fbHeight: word,
                               fbPhys: word, fbSize: word)

  /** `(a + 0xfff) & ~0xfff` */
  function PageUp(a: word): word {
    PageBase(Add32(a, 0xfff))
  }

  /** The ranges boot takes back: low memory, the kernel, the bitmap, the framebuffer and its descriptor. */
  function Reserved(b: BootInfo, totalPages: nat): (r: seq<Range>)
    requires totalPages <= FRAME_LIMIT
  {
    var bitmap := Sub32(PageUp(b.kend), KERNEL_OFFSET);
    [Range(0, 0x10_0000),
     Range(PageBase(b.kpstart), Sub32(PageUp(b.kpend), PageBase(b.kpstart))),
     Range(PageBase(bitmap), Sub32(PageUp(Add32(bitmap, (totalPages + 7) / 8)), PageBase(bitmap))),
     Range(b.fbAddr % WORD_LIMIT, b.fbPitch * b.fbHeight % WORD_LIMIT),
     Range(b.fbPhys, b.fbSize)]
  }

  /** Where the bitmap lies in physical memory: at the first page boundary behind the kernel's virtual end. */
  function BitmapAt(b: BootInfo): int {
    (b.kend + 0xfff) / 0x1000 * 0x1000 - 0xc000_0000
  }

  /** Kernel and bitmap do not run past the end of the 32-bit address space. */
  predicate WellPlaced(b: BootInfo, bitmapSize: nat) {
    && b.kpstart < b.kpend <= WORD_LIMIT - PAGE_SIZE
    && 0xc000_0000 <= b.kend && b.kend + 0xfff < WORD_LIMIT
    && 0 < bitmapSize && BitmapAt(b) + bitmapSize + 0xfff < WORD_LIMIT
  }

  /** Page `p` holds a byte between the two addresses. */
  predicate HoldsByte(p: nat, lo: int, hi: int) {
    lo < (p + 1) * 0x1000 && p * 0x1000 < hi
  }

  /** The pages that a length spans from the page of `base` on. */
  predicate FrontPage(p: nat, base: nat, length: nat) {
    base / 0x1000 <= p && (p - base / 0x1000) * 0x1000 < length
  }

  /** Low memory, the kernel's extent, the bitmap, the framebuffer and its descriptor, by address. */
  predicate TakenBack(b: BootInfo, bitmapSize: nat, p: nat) {
    || p < 0x100
    || HoldsByte(p, b.kpstart, b.kpend)
    || HoldsByte(p, BitmapAt(b), BitmapAt(b) + bitmapSize)
    || FrontPage(p, b.fbAddr % WORD_LIMIT, b.fbPitch * b.fbHeight % WORD_LIMIT)
    || FrontPage(p, b.fbPhys, b.fbSize)
  }

  /** The page counts of framebuffer and descriptor do not wrap, as they would for a length within a page of 4 GiB. */
  predicate CountsFit(b: BootInfo) {
    b.fbPitch * b.fbHeight % WORD_LIMIT <= WORD_LIMIT - PAGE_SIZE && b.fbSize <= WORD_LIMIT - PAGE_SIZE
  }

  /** What boot takes back, by address. */
  lemma ReservedIffTakenBack(b: BootInfo, totalPages: nat, p: nat)
    requires totalPages <= FRAME_LIMIT && CountsFit(b) && WellPlaced(b, (totalPages + 7) / 8)
    ensures InSome(p, Reserved(b, totalPages)) <==> TakenBack(b, (totalPages + 7) / 8, p)
  {
    hide PageUp, PageBase, Range.HasPage, FrontPage, HoldsByte, BitmapAt, WellPlaced, Sub32, Add32, PageCount;
    var size, r := (totalPages + 7) / 8, Reserved(b, totalPages);
    KernelRange(b, size, p);
    BitmapRange(b, size, p);
    LowRange(p);
    FrontPages(r[3], p);
    FrontPages(r[4], p);
    InSomeOf(r[0], r[1], r[2], r[3], r[4], p);
  }

  lemma InSomeOf(r0: Range, r1: Range, r2: Range, r3: Range, r4: Range, p: nat)
    ensures InSome(p, [r0, r1, r2, r3, r4])
            <==> r0.HasPage(p) || r1.HasPage(p) || r2.HasPage(p) || r3.HasPage(p) || r4.HasPage(p)
  {
    hide Range.HasPage;
    var r := [r0, r1, r2, r3, r4];
    assert r[0] == r0 && r[1] == r1 && r[2] == r2 && r[3] == r3 && r[4] == r4;
  }

  lemma LowRange(p: nat)
    ensures Range(0, 0x10_0000).HasPage(p) <==> p < 0x100
  {
  }

  lemma KernelRange(b: BootInfo, bitmapSize: nat, p: nat)
    requires WellPlaced(b, bitmapSize)
    ensures Range(PageBase(b.kpstart), Sub32(PageUp(b.kpend), PageBase(b.kpstart))).HasPage(p)
            <==> HoldsByte(p, b.kpstart, b.kpend)
  {
    hide Range.HasPage, HoldsByte, PageUp, PageBase;
    RoundedRange(b.kpstart, b.kpend, p);
  }

  lemma BitmapRange(b: BootInfo, bitmapSize: nat, p: nat)
    requires WellPlaced(b, bitmapSize)
    ensures var bitmap := Sub32(PageUp(b.kend), KERNEL_OFFSET);
            && bitmap == BitmapAt(b) && Add32(bitmap, bitmapSize) == bitmap + bitmapSize
            && (Range(PageBase(bitmap), Sub32(PageUp(Add32(bitmap, bitmapSize)), PageBase(bitmap))).HasPage(p)
                <==> HoldsByte(p, BitmapAt(b), BitmapAt(b) + bitmapSize))
  {
    hide Range.HasPage, HoldsByte, PageUp, PageBase, Sub32, Add32, BitmapAt;
    BitmapAddress(b, bitmapSize);
    RoundedRange(BitmapAt(b), BitmapAt(b) + bitmapSize, p);
  }

  lemma BitmapAddress(b: BootInfo, bitmapSize: nat)
    requires WellPlaced(b, bitmapSize)
    ensures var bitmap := Sub32(PageUp(b.kend), KERNEL_OFFSET);
            bitmap == BitmapAt(b) && Add32(bitmap, bitmapSize) == bitmap + bitmapSize
  {
    RoundedUp(b.kend);
    hide PageUp;
  }

  lemma RoundedUp(a: word)
    requires a + 0xfff < WORD_LIMIT
    ensures PageUp(a) == (a + 0xfff) / 0x1000 * 0x1000
  {
  }

  lemma FrontPages(r: Range, p: nat)
    requires r.length <= WORD_LIMIT - PAGE_SIZE
    ensures r.HasPage(p) <==> FrontPage(p, r.base, r.length)
  {
    var q := r.base / PAGE_SIZE;
    if p >= q {
      PagesOfLength(p - q, r.length);
    }
  }

  lemma PagesOfLength(k: nat, length: nat)
    requires length <= WORD_LIMIT - PAGE_SIZE
    ensures k < PageCount(length) <==> k * PAGE_SIZE < length
  {
  }

  /** A range rounded outwards has exactly the pages that hold a byte of it. */
  lemma RoundedRange(start: word, end: nat, p: nat)
    requires start < end && end + 0xfff < WORD_LIMIT
    ensures Range(PageBase(start), Sub32(PageUp(end), PageBase(start))).HasPage(p) <==> HoldsByte(p, start, end)
  {
    var first, last := start / PAGE_SIZE, (end + 0xfff) / PAGE_SIZE;
    RoundedUp(end);
    PageOrder(start, end + 0xfff);
    assert PageBase(start) == first * PAGE_SIZE;
    assert Sub32(PageUp(end), PageBase(start)) == (last - first) * PAGE_SIZE;
    WholePages(last - first);
    assert p < last <==> p * PAGE_SIZE < end;
    assert first <= p <==> start < (p + 1) * PAGE_SIZE;
  }

  lemma WholePages(n: nat)
    requires n * PAGE_SIZE < WORD_LIMIT
    ensures PageCount(n * PAGE_SIZE) == n
  {
  }

  /** A byte that boot must not give away: of low memory, the kernel or the bitmap; and of the framebuffer or of its
      descriptor, where the start within the page lets the count reach its last page. */
  predicate BootByte(b: BootInfo, bitmapSize: nat, a: nat) {
    || a < 0x10_0000
    || b.kpstart <= a < b.kpend
    || BitmapAt(b) <= a < BitmapAt(b) + bitmapSize
    || (b.fbAddr <= a < b.fbAddr + b.fbPitch * b.fbHeight < WORD_LIMIT
        && StaysInPages(b.fbAddr, b.fbPitch * b.fbHeight))
    || (b.fbPhys <= a < b.fbPhys + b.fbSize && StaysInPages(b.fbPhys, b.fbSize))
  }

  /** The page of every such byte is taken back. */
  lemma BootBytesAreTaken(b: BootInfo, bitmapSize: nat, a: nat)
    requires BootByte(b, bitmapSize, a)
    ensures TakenBack(b, bitmapSize, a / PAGE_SIZE)
  {
    hide StaysInPages, FrontPage, BitmapAt;
    ByteInPage(a);
    var length := b.fbPitch * b.fbHeight;
    if b.fbAddr <= a < b.fbAddr + length < WORD_LIMIT && StaysInPages(b.fbAddr, length) {
      ByteInFrontPage(b.fbAddr, length, a);
      Below(b.fbAddr, length);
    } else if b.fbPhys <= a < b.fbPhys + b.fbSize && StaysInPages(b.fbPhys, b.fbSize) {
      ByteInFrontPage(b.fbPhys, b.fbSize, a);
    }
  }

  lemma ByteInPage(a: nat)
    ensures a / PAGE_SIZE * 0x1000 <= a < (a / PAGE_SIZE + 1) * 0x1000
  {
  }

  lemma Below(a: nat, n: nat)
    requires a + n < WORD_LIMIT
    ensures a % WORD_LIMIT == a && n % WORD_LIMIT == n
  {
  }

  lemma ByteInFrontPage(base: nat, length: nat, a: nat)
    requires base <= a < base + length && StaysInPages(base, length)
    ensures FrontPage(a / PAGE_SIZE, base, length)
  {
    PageOrder(base, a);
    PageOrder(a, base + (length - 1));
    LastPage(base, length - 1);
  }

  lemma BootBytesAreKept(b: BootInfo, totalPages: nat)
    requires totalPages <= FRAME_LIMIT
    ensures CountsFit(b) && WellPlaced(b, (totalPages + 7) / 8) ==>
              (forall p: nat :: InSome(p, Reserved(b, totalPages)) <==> TakenBack(b, (totalPages + 7) / 8, p))
              && forall a: nat | BootByte(b, (totalPages + 7) / 8, a) :: TakenBack(b, (totalPages + 7) / 8, a / PAGE_SIZE)
  {
    if CountsFit(b) && WellPlaced(b, (totalPages + 7) / 8) {
      forall p: nat
        ensures InSome(p, Reserved(b, totalPages)) <==> TakenBack(b, (totalPages + 7) / 8, p)
      {
        ReservedIffTakenBack(b, totalPages, p);
      }
      forall a: nat | BootByte(b, (totalPages + 7) / 8, a)
        ensures TakenBack(b, (totalPages + 7) / 8, a / PAGE_SIZE)
      {
        BootBytesAreTaken(b, (totalPages + 7) / 8, a);
      }
    }
  }

  /** The calls of `pmm_free_frame` that return. */
  predicate FreePasses(free: set<nat>, total: nat, addr: word) {
    addr != 0 && addr % PAGE_SIZE == 0 && addr / PAGE_SIZE < total && addr / PAGE_SIZE in free
  }

  /** A frame that an allocation handed out cannot be given back: the call panics. */
  lemma TakenFrameCannotBeFreed(free: set<nat>, total: nat)
    requires free != {} && forall f <- free :: 1 <= f < total <= FRAME_LIMIT
    ensures !FreePasses(free - {Lowest(free)}, total, Lowest(free) * PAGE_SIZE)
    ensures FreePasses(free, total, Lowest(free) * PAGE_SIZE)
  {
    var f := Lowest(free);
    assert f * PAGE_SIZE / PAGE_SIZE == f && f * PAGE_SIZE % PAGE_SIZE == 0;
  }

  class FrameAllocator {
    const totalPages: nat
    const bitmap: array<bv8>

    ghost predicate Valid() {
      totalPages <= FRAME_LIMIT && bitmap.Length == (totalPages + 7) / 8
    }

    predicate Used(p: nat)
      requires p < 8 * bitmap.Length
      reads bitmap
    {
      HasBit(bitmap[p / 8], p % 8)
    }

    /** The frames a call to `AllocFrame` may hand out: never frame 0. */
    ghost function Free(): set<nat>
      requires Valid()
      reads bitmap
    {
      set p: nat | 1 <= p < totalPages && !Used(p)
    }

    method BitSet(p: nat)
      requires Valid() && p < 8 * bitmap.Length
      modifies bitmap
      ensures forall q: nat | q < 8 * bitmap.Length :: Used(q) <==> q == p || old(Used(q))
    {
      hide HasBit, WithBit, WithoutBit;
      var m := bitmap[p / 8];
      bitmap[p / 8] := WithBit(m, p % 8);
      forall q: nat | q < 8 * bitmap.Length
        ensures Used(q) <==> q == p || old(Used(q))
      {
        if q / 8 == p / 8 {
          BitOperations(m, p % 8, q % 8);
        }
      }
    }

    method BitClear(p: nat)
      requires Valid() && p < 8 * bitmap.Length
      modifies bitmap
      ensures !old(Used(p)) ==> bitmap[..] == old(bitmap[..])
      ensures forall q: nat | q < 8 * bitmap.Length :: Used(q) <==> q != p && old(Used(q))
    {
      hide HasBit, WithBit, WithoutBit;
      var m := bitmap[p / 8];
      if !Used(p) {
        ClearBitStays(m, p % 8);
      }
      bitmap[p / 8] := WithoutBit(m, p % 8);
      forall q: nat | q < 8 * bitmap.Length
        ensures Used(q) <==> q != p && old(Used(q))
      {
        if q / 8 == p / 8 {
          BitOperations(m, p % 8, q % 8);
        }
      }
    }

    /** The caller keeps the range inside the bitmap: nothing checks it. */
    method MarkUsed(r: Range)
      requires Valid() && r.base / PAGE_SIZE + PageCount(r.length) <= 8 * bitmap.Length
      modifies bitmap
      ensures forall q: nat | q < 8 * bitmap.Length :: Used(q) <==> r.HasPage(q) || old(Used(q))
    {
      var page, count := r.base / PAGE_SIZE, PageCount(r.length);
      for i := 0 to count
        invariant forall q: nat | q < 8 * bitmap.Length :: Used(q) <==> page <= q < page + i || old(Used(q))
      {
        BitSet(page + i);
      }
    }

    method MarkFree(r: Range)
      requires Valid() && r.base / PAGE_SIZE + PageCount(r.length) <= 8 * bitmap.Length
      modifies bitmap
      ensures forall q: nat | q < 8 * bitmap.Length :: Used(q) <==> !r.HasPage(q) && old(Used(q))
    {
      var page, count := r.base / PAGE_SIZE, PageCount(r.length);
      for i := 0 to count
        invariant forall q: nat | q < 8 * bitmap.Length :: Used(q) <==> !(page <= q < page + i) && old(Used(q))
      {
        BitClear(page + i);
      }
    }

    /** Boot: everything starts used, usable regions are freed, then the reserved ranges are taken back. */
    constructor (totalMemory: word, usable: seq<Range>, boot: BootInfo)
      requires forall r <- usable :: r.base / PAGE_SIZE + PageCount(r.length) <= totalMemory / PAGE_SIZE
      requires forall r <- Reserved(boot, totalMemory / PAGE_SIZE) ::
                 r.base / PAGE_SIZE + PageCount(r.length) <= totalMemory / PAGE_SIZE
      ensures Valid() && fresh(bitmap)
      ensures totalPages == totalMemory / PAGE_SIZE
      ensures forall p: nat | 1 <= p < totalPages ::
                p in Free() <==> InSome(p, usable) && !InSome(p, Reserved(boot, totalPages))
      ensures CountsFit(boot) && WellPlaced(boot, bitmap.Length) ==>
                forall p: nat | 1 <= p < totalPages ::
                  p in Free() <==> InSome(p, usable) && !TakenBack(boot, bitmap.Length, p)
      ensures CountsFit(boot) && WellPlaced(boot, bitmap.Length) ==>
                forall a: nat | BootByte(boot, bitmap.Length, a) :: a / PAGE_SIZE !in Free()
    {
      totalPages := totalMemory / PAGE_SIZE;
      bitmap := new bv8[(totalMemory / PAGE_SIZE + 7) / 8](_ => 0xff);
      new;
      forall q: nat | q < 8 * bitmap.Length
        ensures Used(q)
      {
        FullByte(q % 8);
      }
      FreeUsable(usable);
      Reserve(boot);
      BootBytesAreKept(boot, totalPages);
    }

    method FreeUsable(usable: seq<Range>)
      requires Valid()
      requires forall r <- usable :: r.base / PAGE_SIZE + PageCount(r.length) <= 8 * bitmap.Length
      modifies bitmap
      ensures forall q: nat | q < 8 * bitmap.Length :: Used(q) <==> !InSome(q, usable) && old(Used(q))
    {
      for i := 0 to |usable|
        invariant forall q: nat | q < 8 * bitmap.Length :: Used(q) <==> !InSome(q, usable[..i]) && old(Used(q))
      {
        assert usable[..i + 1] == usable[..i] + [usable[i]];
        MarkFree(usable[i]);
      }
      assert usable[..|usable|] == usable;
    }

    method Reserve(boot: BootInfo)
      requires Valid()
      requires forall r <- Reserved(boot, totalPages) :: r.base / PAGE_SIZE + PageCount(r.length) <= 8 * bitmap.Length
      modifies bitmap
      ensures forall q: nat | q < 8 * bitmap.Length :: Used(q) <==> InSome(q, Reserved(boot, totalPages)) || old(Used(q))
    {
      var r := Reserved(boot, totalPages);
      assert |r| == 5;
      hide Reserved, PageCount, Range.HasPage, FrameAllocator.Used;
      MarkUsed(r[0]);
      MarkUsed(r[1]);
      MarkUsed(r[2]);
      MarkUsed(r[3]);
      MarkUsed(r[4]);
      assert r == [r[0], r[1], r[2], r[3], r[4]];
    }

    /** Takes the lowest free frame; panics exactly when none is left. */
    method AllocFrame() returns (r: Outcome<word>)
      requires Valid()
      modifies bitmap
      ensures old(Free()) == {} <==> r.Panic?
      ensures r.Panic? ==> bitmap[..] == old(bitmap[..]) && Free() == {}
      ensures r.Done? ==> r.value == Lowest(old(Free())) * PAGE_SIZE
      ensures r.Done? ==> Free() == old(Free()) - {Lowest(old(Free()))}
    {
      var i := 1;
      while i < totalPages
        invariant 1 <= i
        invariant bitmap[..] == old(bitmap[..])
        invariant forall p: nat | 1 <= p < i && p < totalPages :: Used(p)
      {
        if !Used(i) {
          assert IsLowest(i, Free());
          BitSet(i);
          return Done(i * PAGE_SIZE);
        }
        i := i + 1;
      }
      return Panic;
    }

    /** The guard against a double free stops every frame in use: only a frame that is free already passes, and it
        stays free. */
    method FreeFrame(addr: word) returns (r: Outcome<()>)
      requires Valid()
      modifies bitmap
      ensures r.Done? <==> FreePasses(old(Free()), totalPages, addr)
      ensures bitmap[..] == old(bitmap[..]) && Free() == old(Free())
    {
      if addr == 0 {
        return Panic;
      }
      if addr % PAGE_SIZE != 0 {
        return Panic;
      }
      var page := addr / PAGE_SIZE;
      if page >= totalPages {
        return Panic;
      }
      if Used(page) {
        return Panic;
      }
      BitClear(page);
      return Done(());
    }
  }
}
