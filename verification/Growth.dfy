/** The heap grows towards the area of the page allocator, and nothing stops it there. */
module Growth {
  import opened Words
  import opened Pmm
  import opened Mmu
  import opened Paging
  import opened KHeap
  import opened LargeAlloc

  /** One page mapped at the heap's end, or one at the end of the area that `kalloc_pages` hands out. */
  datatype Growth = HeapPage | LargePage {

    /** The page mapped, when `heap` and `large` are next in turn. */
    function Page(heap: nat, large: nat): nat {
      if HeapPage? then heap else large
    }

    function Heap(heap: nat): nat {
      if HeapPage? then heap + 1 else heap
    }

    function Large(large: nat): nat {
      if HeapPage? then large else large + 1
    }
  }

  /** Pages mapped one by one, each on the lowest free frame. */
  ghost predicate Grows(s: PhysState, pd: nat, heap: nat, large: nat, steps: seq<Growth>, t: PhysState)
    decreases |steps|
  {
    if steps == [] then t == s
    else
      var at := steps[0].Page(heap, large) * PAGE_SIZE;
      && CanExtend(s, pd, at) && Lowest(s.free) < FRAME_LIMIT
      && Grows(WithPage(s, pd, at), pd, steps[0].Heap(heap), steps[0].Large(large), steps[1..], t)
  }

  function HeapPages(steps: seq<Growth>): nat {
    if steps == [] then 0 else (if steps[0].HeapPage? then 1 else 0) + HeapPages(steps[1..])
  }

  function LargePages(steps: seq<Growth>): nat {
    if steps == [] then 0 else (if steps[0].HeapPage? then 0 else 1) + LargePages(steps[1..])
  }

  /** The page lies where the heap or the page allocator has grown. */
  predicate Overgrown(heap: nat, large: nat, steps: seq<Growth>, p: nat) {
    InRun(p, heap, HeapPages(steps)) || InRun(p, large, LargePages(steps))
  }

  /** The first step, and what is left of the run behind it. */
  lemma FirstGrowth(s: PhysState, pd: nat, heap: nat, large: nat, steps: seq<Growth>, t: PhysState)
    requires Grows(s, pd, heap, large, steps, t) && steps != []
    ensures var at, h, l := steps[0].Page(heap, large) * PAGE_SIZE, steps[0].Heap(heap), steps[0].Large(large);
            && CanExtend(s, pd, at) && Lowest(s.free) < FRAME_LIMIT
            && Grows(WithPage(s, pd, at), pd, h, l, steps[1..], t)
            && h + HeapPages(steps[1..]) == heap + HeapPages(steps)
            && l + LargePages(steps[1..]) == large + LargePages(steps)
  {
    hide CanExtend, WithPage;
  }

  /** What one more page does to the translations. */
  lemma OnePage(s: PhysState, pd: nat, page: nat)
    requires DirOkBut(s, pd, BOOT_SHARED) && CanExtend(s, pd, page * PAGE_SIZE)
    ensures Lowest(s.free) < FRAME_LIMIT
    ensures var t := WithPage(s, pd, page * PAGE_SIZE);
            && DirOkBut(t, pd, BOOT_SHARED) && t.free <= s.free - {Lowest(s.free)} && Lowest(s.free) in s.free
            && page in Mapping(t, pd) && Frame(Mapping(t, pd)[page]) == Lowest(s.free)
            && (forall p | p in Mapping(s, pd) && p != page :: p in Mapping(t, pd) && Mapping(t, pd)[p] == Mapping(s, pd)[p])
  {
    assert page * PAGE_SIZE / PAGE_SIZE == page;
    WithPageMapsOnePage(s, pd, page * PAGE_SIZE);
    EntryFrame(Lowest(s.free));
    hide DirOkBut, Mapping, WithPage, PteValue;
  }

  /** Over any run of both, a page mapped on a frame in use keeps its entry exactly when neither the heap nor the page
      allocator has grown over it; otherwise it stands on a frame that was free before. */
  lemma {:induction false} PageStaysIffNotOvergrown(s: PhysState, pd: nat, heap: nat, large: nat, steps: seq<Growth>,
                                                    t: PhysState, p: nat)
    requires DirOkBut(s, pd, BOOT_SHARED) && Grows(s, pd, heap, large, steps, t)
    requires p in Mapping(s, pd) && Frame(Mapping(s, pd)[p]) !in s.free
    ensures DirOkBut(t, pd, BOOT_SHARED) && t.free <= s.free && p in Mapping(t, pd)
    ensures Mapping(t, pd)[p] == Mapping(s, pd)[p] <==> !Overgrown(heap, large, steps, p)
    ensures Overgrown(heap, large, steps, p) ==> Frame(Mapping(t, pd)[p]) in s.free
    decreases |steps|
  {
    hide DirOkBut, Mapping, WithPage, CanExtend, Grows, HeapPages, LargePages;
    if steps == [] {
      NoGrowth(s, pd, heap, large, t);
    } else {
      FirstGrowth(s, pd, heap, large, steps, t);
      var page, h, l := steps[0].Page(heap, large), steps[0].Heap(heap), steps[0].Large(large);
      var mid := WithPage(s, pd, page * PAGE_SIZE);
      OnePage(s, pd, page);
      PageStaysIffNotOvergrown(mid, pd, h, l, steps[1..], t, p);
    }
  }

  lemma NoGrowth(s: PhysState, pd: nat, heap: nat, large: nat, t: PhysState)
    requires Grows(s, pd, heap, large, [], t)
    ensures t == s && HeapPages([]) == LargePages([]) == 0
  {
  }

  /** These pages are mapped, on frames in use. */
  ghost predicate InUse(s: PhysState, pd: nat, first: nat, end: nat)
    requires pd < FRAME_LIMIT
  {
    forall p | first <= p < end :: p in Mapping(s, pd) && Frame(Mapping(s, pd)[p]) !in s.free
  }

  /** All pages handed out so far are in use. */
  lemma {:induction false} GrowthHandsOut(s: PhysState, pd: nat, heap: nat, large: nat, steps: seq<Growth>, t: PhysState)
    requires DirOkBut(s, pd, BOOT_SHARED) && Grows(s, pd, heap, large, steps, t)
    requires pd < FRAME_LIMIT && InUse(s, pd, LARGE_PAGE, large)
    ensures DirOkBut(t, pd, BOOT_SHARED) && InUse(t, pd, LARGE_PAGE, large + LargePages(steps))
    decreases |steps|
  {
    hide DirOkBut, Mapping, WithPage, CanExtend, Grows, HeapPages, LargePages;
    if steps == [] {
      NoGrowth(s, pd, heap, large, t);
    } else {
      FirstGrowth(s, pd, heap, large, steps, t);
      var page, h, l := steps[0].Page(heap, large), steps[0].Heap(heap), steps[0].Large(large);
      var mid := WithPage(s, pd, page * PAGE_SIZE);
      OnePage(s, pd, page);
      assert InUse(mid, pd, LARGE_PAGE, l) by {
        hide LARGE_PAGE;
      }
      GrowthHandsOut(mid, pd, h, l, steps[1..], t);
    }
  }

  /** The pages that `kalloc_pages` has handed out all stay, over any run of both, exactly when the heap ends at or
      below the area's base. */
  lemma HandedOutStayIffHeapBelow(s: PhysState, pd: nat, heap: nat, large: nat, steps: seq<Growth>, t: PhysState)
    requires DirOkBut(s, pd, BOOT_SHARED) && Grows(s, pd, heap, large, steps, t)
    requires pd < FRAME_LIMIT && InUse(s, pd, LARGE_PAGE, large) && heap <= LARGE_PAGE < large
    ensures (forall p: nat | LARGE_PAGE <= p < large :: p in Mapping(t, pd) && Mapping(t, pd)[p] == Mapping(s, pd)[p])
            <==> heap + HeapPages(steps) <= LARGE_PAGE
  {
    hide DirOkBut, Mapping, Grows, HeapPages, LargePages;
    forall p: nat | LARGE_PAGE <= p < large
      ensures p in Mapping(t, pd)
      ensures Mapping(t, pd)[p] == Mapping(s, pd)[p] <==> !Overgrown(heap, large, steps, p)
    {
      PageStaysIffNotOvergrown(s, pd, heap, large, steps, t, p);
    }
    assert LARGE_PAGE < heap + HeapPages(steps) ==> Overgrown(heap, large, steps, LARGE_PAGE);
  }

  /** The first growth past the base: the first page handed out loses its frame to the heap. */
  lemma FirstGrowthPastBase(s: PhysState, pd: nat, large: nat)
    requires DirOkBut(s, pd, BOOT_SHARED) && CanExtend(s, pd, LARGE_PAGE * PAGE_SIZE)
    requires pd < FRAME_LIMIT && InUse(s, pd, LARGE_PAGE, large) && LARGE_PAGE < large
    ensures Lowest(s.free) < FRAME_LIMIT
    ensures var t := WithPage(s, pd, LARGE_PAGE * PAGE_SIZE);
            && LARGE_PAGE in Mapping(t, pd) && LARGE_PAGE in Mapping(s, pd)
            && Frame(Mapping(t, pd)[LARGE_PAGE]) == Lowest(s.free) != Frame(Mapping(s, pd)[LARGE_PAGE])
  {
    OnePage(s, pd, LARGE_PAGE);
    hide DirOkBut, Mapping, WithPage, CanExtend;
  }

  // ---------- Calls as growth ----------

  function Repeated(g: Growth, n: nat): seq<Growth> {
    seq(n, _ => g)
  }

  /** What a call of `kmalloc` or of `kalloc_pages` maps. */
  lemma {:induction false} CallIsGrowth(s: PhysState, pd: nat, heap: nat, large: nat, g: Growth, n: nat, t: PhysState)
    requires MapsPages(s, pd, g.Page(heap, large), n, t)
    ensures Grows(s, pd, heap, large, Repeated(g, n), t)
    ensures HeapPages(Repeated(g, n)) == (if g.HeapPage? then n else 0)
    ensures LargePages(Repeated(g, n)) == (if g.HeapPage? then 0 else n)
    decreases n
  {
    hide CanExtend, WithPage;
    if n > 0 {
      assert Repeated(g, n)[1..] == Repeated(g, n - 1);
      CallIsGrowth(WithPage(s, pd, g.Page(heap, large) * PAGE_SIZE), pd, g.Heap(heap), g.Large(large), g, n - 1, t);
    }
  }

  /** Runs follow each other. */
  lemma {:induction false} GrowsThen(s: PhysState, pd: nat, heap: nat, large: nat, a: seq<Growth>, mid: PhysState,
                                     b: seq<Growth>, t: PhysState)
    requires Grows(s, pd, heap, large, a, mid)
    requires Grows(mid, pd, heap + HeapPages(a), large + LargePages(a), b, t)
    ensures Grows(s, pd, heap, large, a + b, t)
    decreases |a|
  {
    hide CanExtend, WithPage;
    if a == [] {
      assert a + b == b;
    } else {
      FirstGrowth(s, pd, heap, large, a, mid);
      GrowsThen(WithPage(s, pd, a[0].Page(heap, large) * PAGE_SIZE), pd, a[0].Heap(heap), a[0].Large(large), a[1..], mid, b, t);
      assert (a + b)[0] == a[0] && (a + b)[1..] == a[1..] + b;
    }
  }
}
