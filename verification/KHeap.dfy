/** `kmalloc` and `kfree` over block headers linked by address. */
module KHeap {
  import opened Words
  import opened Pmm
  import opened Mmu
  import opened Paging
  import opened HeapSpec

  const NULL: nat := 0

  /** `k_heap_block_t`: pointers are addresses, and 0 is null. */
  datatype Header = Header(addr: nat, size: nat, free: bool, prev: nat, next: nat)

  function AtOrNull(blocks: seq<Block>, i: int): nat {
    if 0 <= i < |blocks| then blocks[i].at else NULL
  }

  /** The header that block `i` of a list must have. */
  function HeaderOf(blocks: seq<Block>, i: nat): Header
    requires i < |blocks|
  {
    Header(blocks[i].Addr(), blocks[i].size, blocks[i].free, AtOrNull(blocks, i - 1), AtOrNull(blocks, i + 1))
  }

  predicate HasHeader(hdr: map<nat, Header>, blocks: seq<Block>, i: nat)
    requires i < |blocks|
  {
    blocks[i].at in hdr && hdr[blocks[i].at] == HeaderOf(blocks, i)
  }

  /** The headers in memory, followed by address, form the doubly linked list `blocks`. */
  predicate Linked(hdr: map<nat, Header>, blocks: seq<Block>) {
    forall i | 0 <= i < |blocks| :: HasHeader(hdr, blocks, i)
  }

  /** Headers in address order at nonnull places: all that linking needs of a heap. */
  predicate Placed(blocks: seq<Block>) {
    forall i | 0 <= i < |blocks| :: NULL < blocks[i].at && (i + 1 < |blocks| ==> blocks[i].at < blocks[i + 1].at)
  }

  lemma HeapIsPlaced(h: Heap)
    requires HeapOk(h)
    ensures Placed(h.blocks)
  {
    forall i | 0 <= i < |h.blocks|
      ensures NULL < h.blocks[i].at && (i + 1 < |h.blocks| ==> h.blocks[i].at < h.blocks[i + 1].at)
    {
      BlocksInside(h, i);
      assert LinkOk(h, i);
    }
  }

  lemma {:induction false} PlacedInOrder(blocks: seq<Block>, i: nat, j: nat)
    requires Placed(blocks) && i < j < |blocks|
    ensures NULL < blocks[i].at < blocks[j].at
    decreases j - i
  {
    assert NULL < blocks[i].at && blocks[i].at < blocks[i + 1].at;
    if i + 1 < j {
      PlacedInOrder(blocks, i + 1, j);
    }
  }

  /** Headers stand at distinct nonnull addresses. */
  lemma DistinctHeaders(blocks: seq<Block>, i: nat, j: nat)
    requires Placed(blocks) && i < |blocks| && j < |blocks|
    ensures blocks[i].at == blocks[j].at <==> i == j
    ensures blocks[i].at != NULL
  {
    if i < j {
      PlacedInOrder(blocks, i, j);
    } else if j < i {
      PlacedInOrder(blocks, j, i);
    }
  }

  lemma LinkedAt(hdr: map<nat, Header>, blocks: seq<Block>, i: nat)
    requires Linked(hdr, blocks) && i < |blocks|
    ensures HasHeader(hdr, blocks, i)
  {
  }

  /** Block `curr` split after `size` bytes: the new header, the back link of its successor, and the forward link. */
  function SplitHeader(hdr: map<nat, Header>, curr: nat, size: nat): map<nat, Header>
    requires curr in hdr && hdr[curr].size >= size + HEADER && (hdr[curr].next != NULL ==> hdr[curr].next in hdr)
  {
    var newBlock, next := hdr[curr].addr + size, hdr[curr].next;
    var added := hdr[newBlock := Header(newBlock + HEADER, hdr[curr].size - size - HEADER, true, curr, next)];
    var backLinked := if next != NULL then added[next := added[next].(prev := newBlock)] else added;
    var linked := backLinked[curr := backLinked[curr].(next := newBlock)];
    linked[curr := linked[curr].(size := size, free := false)]
  }

  lemma HeaderAfterTake(blocks: seq<Block>, i: nat, size: nat, k: nat)
    requires i < |blocks| && Suits(blocks[i], size) && Splits(blocks[i], size) && k <= |blocks|
    ensures var t, newBlock := Take(blocks, i, size), blocks[i].Addr() + size;
            && |t| == |blocks| + 1
            && t[k].at == (if k <= i then blocks[k].at else if k == i + 1 then newBlock else blocks[k - 1].at)
            && HeaderOf(t, k)
               == if k < i then HeaderOf(blocks, k)
                  else if k == i then HeaderOf(blocks, i).(size := size, free := false, next := newBlock)
                  else if k == i + 1 then
                    Header(newBlock + HEADER, blocks[i].size - size - HEADER, true, blocks[i].at, AtOrNull(blocks, i + 1))
                  else if k == i + 2 then HeaderOf(blocks, k - 1).(prev := newBlock)
                  else HeaderOf(blocks, k - 1)
  {
  }

  /** What the stores of a split leave at each address. */
  lemma SplitHeaderAt(hdr: map<nat, Header>, curr: nat, size: nat, at: nat)
    requires curr in hdr && hdr[curr].size >= size + HEADER && (hdr[curr].next != NULL ==> hdr[curr].next in hdr)
    requires curr != hdr[curr].addr + size && hdr[curr].next != curr && hdr[curr].next != hdr[curr].addr + size
    ensures var after, newBlock, next := SplitHeader(hdr, curr, size), hdr[curr].addr + size, hdr[curr].next;
            && (at in after <==> at in hdr || at == newBlock)
            && (at in after ==>
                  after[at] == if at == curr then hdr[curr].(size := size, free := false, next := newBlock)
                               else if at == newBlock then
                                 Header(newBlock + HEADER, hdr[curr].size - size - HEADER, true, curr, next)
                               else if at == next && at != NULL then hdr[next].(prev := newBlock)
                               else hdr[at])
  {
  }

  lemma SplitIsLinked(h: Heap, hdr: map<nat, Header>, i: nat, size: nat)
    requires HeapOk(h) && Linked(hdr, h.blocks) && i < |h.blocks| && Suits(h.blocks[i], size) && Splits(h.blocks[i], size)
    requires HasHeader(hdr, h.blocks, i) && (hdr[h.blocks[i].at].next != NULL ==> hdr[h.blocks[i].at].next in hdr)
    ensures Linked(SplitHeader(hdr, h.blocks[i].at, size), Take(h.blocks, i, size))
  {
    var t, after := Take(h.blocks, i, size), SplitHeader(hdr, h.blocks[i].at, size);
    TakeKeepsOk(h, i, size);
    HeapIsPlaced(HeapSpec.Heap(t, h.end));
    hide HeapOk, Linked, Take, Placed, HeaderOf, SplitHeader, AtOrNull;
    HeaderAfterTake(h.blocks, i, size, i);
    HeaderAfterTake(h.blocks, i, size, i + 1);
    forall k | 0 <= k < |t|
      ensures HasHeader(after, t, k)
    {
      SplitBlockIsLinked(h.blocks, t, hdr, i, size, k);
    }
    AllLinked(after, t);
  }

  lemma AllLinked(hdr: map<nat, Header>, blocks: seq<Block>)
    requires forall k | 0 <= k < |blocks| :: HasHeader(hdr, blocks, k)
    ensures Linked(hdr, blocks)
  {
  }

  lemma SplitBlockIsLinked(blocks: seq<Block>, t: seq<Block>, hdr: map<nat, Header>, i: nat, size: nat, k: nat)
    requires i < |blocks| && Suits(blocks[i], size) && Splits(blocks[i], size) && t == Take(blocks, i, size) && Placed(t)
    requires Linked(hdr, blocks) && HasHeader(hdr, blocks, i) && k < |t|
    requires hdr[blocks[i].at].next != NULL ==> hdr[blocks[i].at].next in hdr
    ensures HasHeader(SplitHeader(hdr, blocks[i].at, size), t, k)
  {
    hide Linked, Take, Placed, HeaderOf, SplitHeader;
    NextAddress(blocks, hdr, i);
    HeaderAfterTake(blocks, i, size, i);
    HeaderAfterTake(blocks, i, size, i + 1);
    HeaderAfterTake(blocks, i, size, k);
    LinkedAt(hdr, blocks, if k <= i then k else k - 1);
    DistinctHeaders(t, i, i + 1);
    DistinctHeaders(t, k, i);
    DistinctHeaders(t, k, i + 1);
    if i + 2 < |t| {
      HeaderAfterTake(blocks, i, size, i + 2);
      DistinctHeaders(t, i, i + 2);
      DistinctHeaders(t, i + 1, i + 2);
      DistinctHeaders(t, k, i + 2);
    }
    SplitHeaderAt(hdr, blocks[i].at, size, t[k].at);
  }

  lemma NextAddress(blocks: seq<Block>, hdr: map<nat, Header>, i: nat)
    requires i < |blocks| && HasHeader(hdr, blocks, i)
    ensures hdr[blocks[i].at].next == AtOrNull(blocks, i + 1)
    ensures hdr[blocks[i].at].addr == blocks[i].Addr() && hdr[blocks[i].at].size == blocks[i].size
  {
  }

  /** Only the size and the free flag of a header change. */
  lemma RewriteIsLinked(blocks: seq<Block>, hdr: map<nat, Header>, i: nat, size: nat, free: bool)
    requires Placed(blocks) && Linked(hdr, blocks) && i < |blocks|
    ensures blocks[i].at in hdr
    ensures Linked(hdr[blocks[i].at := hdr[blocks[i].at].(size := size, free := free)],
                   blocks[i := Block(blocks[i].at, size, free)])
  {
    LinkedAt(hdr, blocks, i);
    var t, at := blocks[i := Block(blocks[i].at, size, free)], blocks[i].at;
    var after := hdr[at := hdr[at].(size := size, free := free)];
    forall k | 0 <= k < |t|
      ensures HasHeader(after, t, k)
    {
      LinkedAt(hdr, blocks, k);
      DistinctHeaders(blocks, k, i);
    }
  }

  /** Block `curr` swallows its successor. */
  function JoinHeader(hdr: map<nat, Header>, curr: nat): map<nat, Header>
    requires curr in hdr && hdr[curr].next in hdr
    requires hdr[hdr[curr].next].next != NULL ==> hdr[hdr[curr].next].next in hdr
  {
    var next := hdr[hdr[curr].next];
    var joined := hdr[curr := hdr[curr].(size := hdr[curr].size + HEADER + next.size, next := next.next)];
    if next.next != NULL then joined[next.next := joined[next.next].(prev := curr)] else joined
  }

  lemma HeaderAfterMerge(blocks: seq<Block>, i: nat, k: nat)
    requires i + 1 < |blocks| && k < |blocks| - 1
    ensures var t := MergeNext(blocks, i);
            && |t| == |blocks| - 1
            && t[k].at == (if k <= i then blocks[k].at else blocks[k + 1].at)
            && HeaderOf(t, k)
               == if k < i then HeaderOf(blocks, k)
                  else if k == i then
                    HeaderOf(blocks, i).(size := blocks[i].size + HEADER + blocks[i + 1].size, next := AtOrNull(blocks, i + 2))
                  else if k == i + 1 then HeaderOf(blocks, k + 1).(prev := blocks[i].at)
                  else HeaderOf(blocks, k + 1)
  {
  }

  lemma MergeKeepsPlaced(blocks: seq<Block>, i: nat)
    requires Placed(blocks) && i + 1 < |blocks|
    ensures Placed(MergeNext(blocks, i))
  {
    var t := MergeNext(blocks, i);
    hide MergeNext;
    forall k | 0 <= k < |t|
      ensures NULL < t[k].at && (k + 1 < |t| ==> t[k].at < t[k + 1].at)
    {
      HeaderAfterMerge(blocks, i, k);
      DistinctHeaders(blocks, i, i + 1);
      if k + 1 < |t| {
        HeaderAfterMerge(blocks, i, k + 1);
        PlacedInOrder(blocks, if k <= i then k else k + 1, if k + 1 <= i then k + 1 else k + 2);
      }
    }
  }

  lemma JoinIsLinked(blocks: seq<Block>, hdr: map<nat, Header>, i: nat)
    requires Placed(blocks) && Linked(hdr, blocks) && i + 1 < |blocks|
    ensures var at := blocks[i].at;
            && at in hdr && hdr[at].next == blocks[i + 1].at && hdr[at].next in hdr
            && hdr[hdr[at].next].next == AtOrNull(blocks, i + 2)
            && (hdr[hdr[at].next].next != NULL ==> hdr[hdr[at].next].next in hdr)
            && Linked(JoinHeader(hdr, at), MergeNext(blocks, i)) && Placed(MergeNext(blocks, i))
  {
    MergeKeepsPlaced(blocks, i);
    hide Linked, MergeNext, Placed, HeaderOf;
    LinkedAt(hdr, blocks, i);
    LinkedAt(hdr, blocks, i + 1);
    NextAddress(blocks, hdr, i);
    NextAddress(blocks, hdr, i + 1);
    if i + 2 < |blocks| {
      LinkedAt(hdr, blocks, i + 2);
    }
    JoinedHeaders(blocks, hdr, i);
  }

  lemma JoinedHeaders(blocks: seq<Block>, hdr: map<nat, Header>, i: nat)
    requires i + 1 < |blocks| && Placed(blocks) && Placed(MergeNext(blocks, i)) && Linked(hdr, blocks)
    requires blocks[i].at in hdr && hdr[blocks[i].at].next in hdr
    requires hdr[hdr[blocks[i].at].next].next != NULL ==> hdr[hdr[blocks[i].at].next].next in hdr
    ensures Linked(JoinHeader(hdr, blocks[i].at), MergeNext(blocks, i))
  {
    var t, after := MergeNext(blocks, i), JoinHeader(hdr, blocks[i].at);
    hide Linked, MergeNext, Placed, HeaderOf;
    HeaderAfterMerge(blocks, i, i);
    LinkedAt(hdr, blocks, i);
    LinkedAt(hdr, blocks, i + 1);
    NextAddress(blocks, hdr, i);
    NextAddress(blocks, hdr, i + 1);
    forall k | 0 <= k < |t|
      ensures HasHeader(after, t, k)
    {
      HeaderAfterMerge(blocks, i, k);
      LinkedAt(hdr, blocks, if k <= i then k else k + 1);
      DistinctHeaders(t, k, i);
      if i + 1 < |t| {
        HeaderAfterMerge(blocks, i, i + 1);
        DistinctHeaders(t, k, i + 1);
      }
    }
    assert Linked(after, t) by {
      AllHaveHeaders(after, t);
    }
  }

  lemma AllHaveHeaders(hdr: map<nat, Header>, blocks: seq<Block>)
    requires forall i | 0 <= i < |blocks| :: HasHeader(hdr, blocks, i)
    ensures Linked(hdr, blocks)
  {
  }

  /** A block appended after the tail. */
  function AppendHeader(hdr: map<nat, Header>, tail: nat, at: nat, size: nat): map<nat, Header>
    requires tail in hdr
  {
    var added := hdr[at := Header(at + HEADER, size, true, tail, NULL)];
    added[tail := added[tail].(next := at)]
  }

  lemma AppendIsLinked(blocks: seq<Block>, hdr: map<nat, Header>, at: nat, size: nat)
    requires blocks != [] && Placed(blocks + [Block(at, size, true)]) && Linked(hdr, blocks)
    ensures blocks[|blocks| - 1].at in hdr
    ensures Linked(AppendHeader(hdr, blocks[|blocks| - 1].at, at, size), blocks + [Block(at, size, true)])
  {
    var t, n := blocks + [Block(at, size, true)], |blocks|;
    LinkedAt(hdr, blocks, n - 1);
    DistinctHeaders(t, n - 1, n);
    var after := AppendHeader(hdr, blocks[n - 1].at, at, size);
    forall k | 0 <= k < |t|
      ensures HasHeader(after, t, k)
    {
      DistinctHeaders(t, k, n);
      DistinctHeaders(t, k, n - 1);
      if k < n {
        LinkedAt(hdr, blocks, k);
      }
    }
  }

  // ---------- The heap object ----------

  /** Where the first free block stands. */
  function FreeHead(blocks: seq<Block>): nat {
    AtOrNull(blocks, FirstFreeFrom(blocks, 0))
  }

  /** A request is served, or no frame is left, or the heap has grown, over the area of `kalloc_pages` and whatever is
      mapped there, up to the pages behind the temporary windows: there the model stops. */
  datatype MallocResult = Payload(addr: nat) | OutOfFrames | ReachesWindows

  class KernelHeap {
    var hdr: map<nat, Header>
    var head: nat
    var freeHead: nat
    var heapEnd: nat
    var heapSize: nat
    const m: Machine
    ghost var blocks: seq<Block>

    ghost function Heap(): Heap
      reads this
    {
      HeapSpec.Heap(blocks, heapEnd)
    }

    /** The list in memory is the block list, and `free_head` points to its first free block. */
    ghost predicate ListOk()
      reads this
    {
      && HeapOk(Heap()) && Linked(hdr, blocks)
      && head == HEAP_START && freeHead == FreeHead(blocks)
      && heapSize == heapEnd - HEAP_START && heapEnd <= WINDOWS_BASE
    }

    ghost predicate Valid()
      reads this, m, m.frames.bitmap
    {
      ListOk() && m.frames.Valid() && DirOkBut(m.Phys(), m.cr3, BOOT_SHARED)
    }

    /** The heap over pages already mapped: one free block. */
    constructor (m: Machine)
      requires m.frames.Valid() && DirOkBut(m.Phys(), m.cr3, BOOT_SHARED)
      ensures Valid() && Heap() == INITIAL && this.m == m
    {
      this.m := m;
      hdr := map[HEAP_START := Header(HEAP_START + HEADER, INITIAL_SIZE - HEADER, true, NULL, NULL)];
      head, freeHead := HEAP_START, HEAP_START;
      heapEnd, heapSize := HEAP_START + INITIAL_SIZE, INITIAL_SIZE;
      blocks := INITIAL.blocks;
      new;
      InitialIsOk();
    }

    /** Takes block `i` at `curr` for `size` bytes, splitting it if the rest can hold a block. */
    method TakeBlock(curr: nat, size: nat, ghost i: nat)
      requires HeapOk(Heap()) && Linked(hdr, blocks)
      requires i < |blocks| && curr == blocks[i].at && Suits(blocks[i], size)
      modifies this`hdr, this`blocks
      ensures blocks == Take(old(blocks), i, size) && Linked(hdr, blocks) && HeapOk(Heap())
    {
      hide HeapOk, Linked, Take;
      ghost var h := Heap();
      TakeKeepsOk(h, i, size);
      HeapIsPlaced(h);
      LinkedAt(hdr, blocks, i);
      NextAddress(blocks, hdr, i);
      if i + 1 < |blocks| {
        LinkedAt(hdr, blocks, i + 1);
      }
      if hdr[curr].size >= size + HEADER + 1 {
        SplitIsLinked(h, hdr, i, size);
        hide SplitHeader;
        LinkNewBlock(curr, size);
      } else {
        TakeWhole(blocks, i, size);
        RewriteIsLinked(blocks, hdr, i, size, false);
      }
      hdr := hdr[curr := hdr[curr].(size := size, free := false)];
      blocks := Take(blocks, i, size);
    }

    /** The stores that put the new block between `curr` and its successor. */
    method LinkNewBlock(curr: nat, size: nat)
      requires curr in hdr && hdr[curr].size >= size + HEADER && (hdr[curr].next != NULL ==> hdr[curr].next in hdr)
      modifies this`hdr
      ensures curr in hdr && hdr[curr := hdr[curr].(size := size, free := false)] == SplitHeader(old(hdr), curr, size)
    {
      var newBlock, next := hdr[curr].addr + size, hdr[curr].next;
      hdr := hdr[newBlock := Header(newBlock + HEADER, hdr[curr].size - size - HEADER, true, curr, next)];
      if next != NULL {
        hdr := hdr[next := hdr[next].(prev := newBlock)];
      }
      hdr := hdr[curr := hdr[curr].(next := newBlock)];
    }

    /** After the first free block was taken, `free_head` moves on to the next one. */
    method AdvanceFreeHead(ghost i: nat)
      requires HeapOk(Heap()) && Linked(hdr, blocks) && i < |blocks|
      requires freeHead in hdr && freeHead == blocks[i].at && forall k | 0 <= k <= i :: !blocks[k].free
      modifies this`freeHead
      ensures freeHead == FreeHead(blocks)
    {
      ghost var j := i + 1;
      HeapIsPlaced(Heap());
      LinkedAt(hdr, blocks, i);
      NextAddress(blocks, hdr, i);
      freeHead := hdr[freeHead].next;
      if i + 1 < |blocks| {
        LinkedAt(hdr, blocks, i + 1);
      }
      while true
        invariant j <= |blocks| && freeHead == AtOrNull(blocks, j)
        invariant freeHead != NULL ==> j < |blocks| && freeHead in hdr && hdr[freeHead] == HeaderOf(blocks, j)
        invariant forall k | 0 <= k < j :: !blocks[k].free
        decreases |blocks| - j
      {
        if freeHead == NULL || hdr[freeHead].free {
          break;
        }
        freeHead := hdr[freeHead].next;
        j := j + 1;
        if j < |blocks| {
          LinkedAt(hdr, blocks, j);
        }
      }
    }

    /** The heap gains one page: a frame is taken, mapped at the end, and appended as a free block. */
    method Extend() returns (ok: bool)
      requires Valid() && heapEnd < WINDOWS_BASE
      modifies this, m`mem, m.frames.bitmap
      ensures ok ==> Valid() && Heap() == Grow(old(Heap()))
      ensures ok ==> CanExtend(old(m.Phys()), m.cr3, old(heapEnd)) && Lowest(old(m.frames.Free())) < FRAME_LIMIT
      ensures ok ==> m.Phys() == WithPage(old(m.Phys()), m.cr3, old(heapEnd))
      ensures ok ==> m.frames.Free() < old(m.frames.Free())
      ensures !ok ==> m.frames.Free() == {}
    {
      hide ListOk, DirOkBut, SlotOk, Map, Grow;
      ghost var s := m.Phys();
      var frame := m.frames.AllocFrame();
      if frame.Panic? {
        return false;
      }
      TakenKeepsDirectory(s, m.cr3, Lowest(s.free));
      EndInSpace();
      DirButGivesSlot(WithoutFrame(s, Lowest(s.free)), m.cr3, BOOT_SHARED, heapEnd / 0x40_0000);
      var mapped := MapPage(m, frame.value, heapEnd, PAGE_PRESENT + PAGE_RW);
      if mapped.Panic? {
        return false;
      }
      WithPageMapsOnePage(s, m.cr3, heapEnd);
      AppendPage();
      return true;
    }

    lemma EndInSpace()
      requires ListOk()
      ensures HEAP_START <= heapEnd <= WINDOWS_BASE
    {
    }

    method AppendPage()
      requires ListOk() && heapEnd < WINDOWS_BASE
      modifies this
      ensures ListOk() && Heap() == Grow(old(Heap()))
    {
      ghost var h := Heap();
      EndIsAligned(h);
      hide HeapOk, Linked;
      var tail := FindTail();
      var newBlock := heapEnd;
      GrowKeepsOk(h);
      HeapIsPlaced(Grow(h));
      AppendIsLinked(blocks, hdr, newBlock, PAGE_SIZE - HEADER);
      FreeHeadAfterAppend(blocks, Block(newBlock, PAGE_SIZE - HEADER, true));
      NullIsEnd(Grow(h).blocks, FirstFreeFrom(blocks, 0));
      hdr := hdr[newBlock := Header(newBlock + HEADER, PAGE_SIZE - HEADER, true, tail, NULL)];
      hdr := hdr[tail := hdr[tail].(next := newBlock)];
      heapEnd := heapEnd + PAGE_SIZE;
      heapSize := heapSize + PAGE_SIZE;
      if freeHead == NULL {
        freeHead := newBlock;
      }
      blocks := Grow(h).blocks;
    }

    method FindTail() returns (tail: nat)
      requires ListOk()
      ensures blocks != [] && tail == blocks[|blocks| - 1].at
    {
      hide HeapOk, Linked;
      ghost var i: nat := 0;
      HeadBlock(Heap());
      HeapIsPlaced(Heap());
      LinkedAt(hdr, blocks, 0);
      tail := head;
      while true
        invariant i < |blocks| && tail == blocks[i].at && HasHeader(hdr, blocks, i)
        decreases |blocks| - i
      {
        NextAddress(blocks, hdr, i);
        NullIsEnd(blocks, i + 1);
        if hdr[tail].next == NULL {
          break;
        }
        tail := hdr[tail].next;
        i := i + 1;
        LinkedAt(hdr, blocks, i);
      }
    }

    /** First fit, searching from `free_head`. */
    method Search(size: nat) returns (curr: nat)
      requires ListOk()
      ensures curr == AtOrNull(blocks, FirstFit(blocks, size))
      ensures curr == NULL <==> FirstFit(blocks, size) == |blocks|
    {
      hide HeapOk, Linked;
      HeapIsPlaced(Heap());
      FirstFitFromFirstFree(blocks, size, 0);
      ghost var i := FirstFreeFrom(blocks, 0);
      NullIsEnd(blocks, i);
      curr := freeHead;
      while curr != NULL
        invariant i <= |blocks| && curr == AtOrNull(blocks, i) && (curr == NULL <==> i == |blocks|)
        invariant FirstFitFrom(blocks, size, i) == FirstFit(blocks, size)
        decreases |blocks| - i
      {
        LinkedAt(hdr, blocks, i);
        NextAddress(blocks, hdr, i);
        if hdr[curr].free && hdr[curr].size >= size {
          break;
        }
        NullIsEnd(blocks, i + 1);
        curr := hdr[curr].next;
        i := i + 1;
      }
    }

    /** Takes the block found and moves `free_head` if it pointed there. */
    method Serve(curr: nat, size: nat, ghost i: nat)
      requires ListOk() && i < |blocks| && curr == blocks[i].at && Suits(blocks[i], size)
      modifies this
      ensures ListOk() && Heap() == HeapSpec.Heap(Take(old(blocks), i, size), old(heapEnd))
    {
      hide HeapOk, Linked, Take;
      HeapIsPlaced(Heap());
      FirstFreeAfterTake(blocks, i, size);
      FirstFreeBlock(blocks, i);
      DistinctHeaders(blocks, i, FirstFreeFrom(blocks, 0));
      TakeKeepsFront(blocks, i, size);
      var wasFreeHead := curr == freeHead;
      TakeBlock(curr, size, i);
      LinkedAt(hdr, blocks, i);
      if wasFreeHead {
        AdvanceFreeHead(i);
      }
    }

    /** First fit from `free_head`, growing the heap a page at a time while nothing fits. */
    method Kmalloc(size: nat) returns (r: MallocResult)
      requires Valid()
      modifies this, m`mem, m.frames.bitmap
      ensures r.Payload? ==> Valid() && CanServe(old(Heap()), size)
                             && (Heap(), r.addr) == MallocStep(old(Heap()), size)
                             && MapsUpTo(old(m.Phys()), m.cr3, old(heapEnd), heapEnd, m.Phys())
      ensures FirstFit(old(blocks), size) < old(|blocks|) ==> r.Payload? && m.Phys() == old(m.Phys())
      ensures CanServe(old(Heap()), size) ==> r.Payload? || r.OutOfFrames?
      ensures r.OutOfFrames? ==> m.frames.Free() == {}
      ensures r.ReachesWindows? ==> heapEnd >= WINDOWS_BASE
      decreases m.frames.Free()
    {
      EndOfList();
      hide ListOk, HeapOk, DirOkBut, Take, Grow, CanExtend, WithPage, MapsUpTo, MallocStep, ReadyFor;
      ghost var s := m.Phys();
      MapsUpToHere(s, m.cr3, heapEnd);
      var curr := Search(size);
      if curr != NULL {
        ServedAtOnce(Heap(), size);
        Serve(curr, size, FirstFit(blocks, size));
        return Payload(curr + HEADER);
      }
      if heapEnd >= WINDOWS_BASE {
        return ReachesWindows;
      }
      ghost var h := Heap();
      MallocAfterGrow(h, size);
      GrowEnd(h);
      var ok := Extend();
      if !ok {
        return OutOfFrames;
      }
      r := Kmalloc(size);
      if r.Payload? {
        MapsUpToFrom(s, m.cr3, h.end, heapEnd, m.Phys());
      }
    }

    lemma ListIsOk()
      requires ListOk()
      ensures HeapOk(Heap())
    {
    }

    lemma EndOfList()
      requires ListOk()
      ensures heapEnd % PAGE_SIZE == 0
    {
      EndIsAligned(Heap());
    }

    /** Joins block `i` with its successor. */
    method Join(block: nat, ghost i: nat)
      requires Placed(blocks) && Linked(hdr, blocks) && i + 1 < |blocks| && block == blocks[i].at
      modifies this`hdr, this`blocks
      ensures blocks == MergeNext(old(blocks), i) && Placed(blocks) && Linked(hdr, blocks)
    {
      hide Placed, Linked, MergeNext;
      JoinIsLinked(blocks, hdr, i);
      var next := hdr[hdr[block].next];
      hdr := hdr[block := hdr[block].(size := hdr[block].size + HEADER + next.size, next := next.next)];
      if next.next != NULL {
        hdr := hdr[next.next := hdr[next.next].(prev := block)];
      }
      blocks := MergeNext(blocks, i);
    }

    /** Second half of `kfree`: block `i`, now free, joins its free neighbours. */
    method JoinNeighbours(addr: nat, ghost i: nat) returns (block: nat)
      requires Placed(blocks) && Linked(hdr, blocks) && i < |blocks| && addr == blocks[i].at
      modifies this`hdr, this`blocks
      ensures blocks == JoinPrev(JoinNext(old(blocks), i), i) && Linked(hdr, blocks)
      ensures block == old(blocks[JoinFrom(blocks, i)].at)
    {
      hide Linked, MergeNext, Placed;
      block := addr;
      LinkedAt(hdr, blocks, i);
      NextAddress(blocks, hdr, i);
      NullIsEnd(blocks, i + 1);
      if i + 1 < |blocks| {
        LinkedAt(hdr, blocks, i + 1);
      }
      if hdr[block].next != NULL && hdr[hdr[block].next].free {
        MergeFront(blocks, i);
        Join(block, i);
      }
      LinkedAt(hdr, blocks, i);
      PrevAddress(blocks, hdr, i);
      if i > 0 {
        LinkedAt(hdr, blocks, i - 1);
      }
      if hdr[block].prev != NULL && hdr[hdr[block].prev].free {
        block := hdr[block].prev;
        Join(block, i - 1);
      }
    }

    method ReleaseBlock(addr: nat, ghost i: nat)
      requires ListOk() && i < |blocks| && addr == blocks[i].at && !blocks[i].free
      modifies this`hdr, this`blocks, this`freeHead
      ensures ListOk() && blocks == Release(old(blocks), i)
    {
      hide HeapOk, Linked, MergeNext, Placed, JoinNext, JoinPrev;
      var block := addr;
      HeapIsPlaced(Heap());
      LinkedAt(hdr, blocks, i);
      ReleaseKeepsOk(Heap(), i);
      FreeHeadAfterRelease(blocks, i);
      FreedIsPlaced(blocks, i);
      RewriteIsLinked(blocks, hdr, i, blocks[i].size, true);
      hdr := hdr[block := hdr[block].(free := true)];
      blocks := Freed(blocks, i);
      block := JoinNeighbours(block, i);
      if freeHead == NULL || block < freeHead {
        freeHead := block;
      }
    }

    /** Frees a payload; null and already free blocks are left alone. */
    method Kfree(addr: nat)
      requires Valid() && (addr == 0 || BlockOf(blocks, addr) < |blocks|)
      modifies this`hdr, this`blocks, this`freeHead
      ensures Valid() && Heap() == FreeStep(old(Heap()), addr)
      ensures Live(blocks) == set p | p in old(Live(blocks)) && p.0 != addr
    {
      ListIsOk();
      hide ListOk, DirOkBut, SlotOk, Release, HeapOk, Live, Linked;
      FreeStepOk(Heap(), addr);
      if addr == 0 {
        return;
      }
      var block := addr - HEADER;
      HeaderInMemory(BlockOf(blocks, addr));
      if hdr[block].free {
        return;
      }
      ReleaseBlock(block, BlockOf(blocks, addr));
    }

    lemma HeaderInMemory(i: nat)
      requires ListOk() && i < |blocks|
      ensures blocks[i].at in hdr && hdr[blocks[i].at].free == blocks[i].free
    {
      LinkedAt(hdr, blocks, i);
    }
  }

  lemma NullIsEnd(blocks: seq<Block>, i: nat)
    requires Placed(blocks)
    ensures AtOrNull(blocks, i) == NULL <==> i >= |blocks|
  {
  }

  lemma PrevAddress(blocks: seq<Block>, hdr: map<nat, Header>, i: nat)
    requires Placed(blocks) && i < |blocks| && HasHeader(hdr, blocks, i)
    ensures hdr[blocks[i].at].prev == AtOrNull(blocks, i - 1)
    ensures hdr[blocks[i].at].prev == NULL <==> i == 0
  {
  }

  lemma MergeFront(blocks: seq<Block>, i: nat)
    requires i + 1 < |blocks|
    ensures var t := MergeNext(blocks, i);
            |t| == |blocks| - 1 && t[i].at == blocks[i].at && forall k | 0 <= k < i :: t[k] == blocks[k]
  {
  }

  lemma ServedAtOnce(h: Heap, size: nat)
    requires FirstFit(h.blocks, size) < |h.blocks|
    ensures var i := FirstFit(h.blocks, size);
            && CanServe(h, size) && Suits(h.blocks[i], size)
            && MallocStep(h, size) == (HeapSpec.Heap(Take(h.blocks, i, size), h.end), h.blocks[i].at + HEADER)
  {
    hide Take;
  }

  /** Once the heap has grown, the request it grew for is the same request on the grown heap. */
  lemma MallocAfterGrow(h: Heap, size: nat)
    requires FirstFit(h.blocks, size) == |h.blocks| && h.end < WINDOWS_BASE
    ensures CanServe(Grow(h), size) <==> CanServe(h, size)
    ensures CanServe(h, size) ==> MallocStep(Grow(h), size) == MallocStep(h, size)
  {
    FirstFitAfterGrow(h.blocks, Block(h.end, PAGE_SIZE - HEADER, true), size, 0);
    hide Take;
  }

  /** Where `free_head` must point after a release: to the joined block, if that now comes first. */
  lemma FreeHeadAfterRelease(blocks: seq<Block>, i: nat)
    requires Placed(blocks) && i < |blocks| && !blocks[i].free
    ensures var block := blocks[JoinFrom(blocks, i)].at;
            FreeHead(Release(blocks, i)) == if FreeHead(blocks) == NULL || block < FreeHead(blocks) then block else FreeHead(blocks)
  {
    var lo, first := JoinFrom(blocks, i), FirstFreeFrom(blocks, 0);
    FirstFreeAfterRelease(blocks, i);
    ReleaseShape(blocks, i);
    hide Release, JoinedSize, Collapse;
    CollapseAt(blocks, lo, JoinTo(blocks, i), JoinedSize(blocks, lo, JoinTo(blocks, i)), if first < lo then first else lo);
    NullIsEnd(blocks, first);
    if first < lo {
      PlacedInOrder(blocks, first, lo);
    } else if lo < first < |blocks| {
      PlacedInOrder(blocks, lo, first);
    }
  }

  function WithoutFrame(s: PhysState, f: nat): PhysState {
    State(s.mem, s.free - {f}, s.total)
  }

  /** There is a frame for one more heap page, and a table for it or another frame to make one. */
  ghost predicate CanExtend(s: PhysState, cr3: nat, end: nat) {
    s.free != {} && CanMap(WithoutFrame(s, Lowest(s.free)), cr3, end / PAGE_SIZE)
  }

  /** The machine after one more heap page: the lowest free frame, mapped at `end`. */
  ghost function WithPage(s: PhysState, cr3: nat, end: nat): PhysState
    requires CanExtend(s, cr3, end) && Lowest(s.free) < FRAME_LIMIT
  {
    Map(WithoutFrame(s, Lowest(s.free)), cr3, end / PAGE_SIZE, Lowest(s.free) * PAGE_SIZE, PAGE_PRESENT + PAGE_RW)
  }

  /** From `s` to `t` the kernel takes `n` frames one by one and maps them at consecutive pages from `page` on. */
  ghost predicate MapsPages(s: PhysState, cr3: nat, page: nat, n: nat, t: PhysState)
    decreases n
  {
    if n == 0 then t == s
    else
      && CanExtend(s, cr3, page * PAGE_SIZE) && Lowest(s.free) < FRAME_LIMIT
      && MapsPages(WithPage(s, cr3, page * PAGE_SIZE), cr3, page + 1, n - 1, t)
  }

  /** The pages from address `end` up to `newEnd` are mapped that way. */
  ghost predicate MapsUpTo(s: PhysState, cr3: nat, end: nat, newEnd: nat, t: PhysState) {
    end <= newEnd && MapsPages(s, cr3, end / PAGE_SIZE, (newEnd - end) / PAGE_SIZE, t)
  }

  lemma MapsUpToHere(s: PhysState, cr3: nat, end: nat)
    ensures MapsUpTo(s, cr3, end, end, s)
  {
  }

  /** One page, then the rest. */
  lemma MapsUpToFrom(s: PhysState, cr3: nat, end: nat, newEnd: nat, t: PhysState)
    requires end % PAGE_SIZE == 0 && CanExtend(s, cr3, end) && Lowest(s.free) < FRAME_LIMIT
    requires MapsUpTo(WithPage(s, cr3, end), cr3, end + PAGE_SIZE, newEnd, t)
    ensures MapsUpTo(s, cr3, end, newEnd, t)
  {
    assert end == end / PAGE_SIZE * PAGE_SIZE && (end + PAGE_SIZE) / PAGE_SIZE == end / PAGE_SIZE + 1;
    assert (newEnd - end) / PAGE_SIZE == (newEnd - end - PAGE_SIZE) / PAGE_SIZE + 1;
    hide CanExtend, WithPage;
  }

  lemma {:induction false} MapsPagesThenOne(s: PhysState, cr3: nat, page: nat, n: nat, t: PhysState)
    requires MapsPages(s, cr3, page, n, t) && CanExtend(t, cr3, (page + n) * PAGE_SIZE) && Lowest(t.free) < FRAME_LIMIT
    ensures MapsPages(s, cr3, page, n + 1, WithPage(t, cr3, (page + n) * PAGE_SIZE))
    decreases n
  {
    hide CanExtend, WithPage;
    if n > 0 {
      MapsPagesThenOne(WithPage(s, cr3, page * PAGE_SIZE), cr3, page + 1, n - 1, t);
    } else {
      assert (page + 0) * PAGE_SIZE == page * PAGE_SIZE;
    }
  }

  /** Growing the heap maps one page and keeps every other translation of the current directory. */
  lemma WithPageMapsOnePage(s: PhysState, cr3: nat, end: nat)
    requires DirOkBut(s, cr3, BOOT_SHARED) && CanExtend(s, cr3, end)
    ensures Lowest(s.free) < FRAME_LIMIT && DirOkBut(WithPage(s, cr3, end), cr3, BOOT_SHARED)
    ensures Mapping(WithPage(s, cr3, end), cr3)
            == Mapping(s, cr3)[end / PAGE_SIZE := PteValue(Lowest(s.free) * PAGE_SIZE, PAGE_PRESENT + PAGE_RW)]
    ensures WithPage(s, cr3, end).free < s.free && Lowest(s.free) !in WithPage(s, cr3, end).free
  {
    var f := Lowest(s.free);
    var t := WithoutFrame(s, f);
    TakenKeepsDirectory(s, cr3, f);
    MapKeepsSlots(t, cr3, BOOT_SHARED, end / PAGE_SIZE, f * PAGE_SIZE, PAGE_PRESENT + PAGE_RW);
    MapRefines(t, cr3, end / PAGE_SIZE, f * PAGE_SIZE, PAGE_PRESENT + PAGE_RW);
    SameMapping(s, t, cr3);
  }

  lemma NoPages(s: PhysState, cr3: nat, page: nat)
    ensures MapsPages(s, cr3, page, 0, s)
  {
  }

  lemma GrowEnd(h: Heap)
    ensures Grow(h).end == h.end + PAGE_SIZE
  {
  }

  lemma EndIsAligned(h: Heap)
    requires HeapOk(h)
    ensures h.end % PAGE_SIZE == 0
  {
  }

  lemma HeadBlock(h: Heap)
    requires HeapOk(h)
    ensures h.blocks != [] && h.blocks[0].at == HEAP_START
  {
  }

  lemma TakenKeepsDirectory(s: PhysState, cr3: nat, f: nat)
    requires DirOkBut(s, cr3, BOOT_SHARED) && f in s.free
    ensures DirOkBut(WithoutFrame(s, f), cr3, BOOT_SHARED) && f < FRAME_LIMIT
  {
    SameDirectoryBut(s, WithoutFrame(s, f), cr3, BOOT_SHARED);
  }

  lemma FreeHeadAfterAppend(blocks: seq<Block>, b: Block)
    requires b.free
    ensures FirstFreeFrom(blocks + [b], 0) == FirstFreeFrom(blocks, 0)
  {
    var t, j := blocks + [b], FirstFreeFrom(blocks, 0);
    assert forall k | 0 <= k < |blocks| :: t[k] == blocks[k];
    assert t[|blocks|] == b;
  }

  lemma FirstFreeBlock(blocks: seq<Block>, i: nat)
    requires i < |blocks| && blocks[i].free
    ensures FirstFreeFrom(blocks, 0) <= i
  {
  }

  /** Blocks before the one taken stay, and the one taken is no longer free. */
  lemma TakeKeepsFront(blocks: seq<Block>, i: nat, size: nat)
    requires i < |blocks| && Suits(blocks[i], size)
    ensures var t := Take(blocks, i, size);
            && i < |t| && t[i].at == blocks[i].at && !t[i].free && forall k | 0 <= k < i :: t[k] == blocks[k]
  {
  }

  lemma FreedIsPlaced(blocks: seq<Block>, i: nat)
    requires Placed(blocks) && i < |blocks|
    ensures Placed(Freed(blocks, i))
  {
  }

  lemma TakeWhole(blocks: seq<Block>, i: nat, size: nat)
    requires i < |blocks| && Suits(blocks[i], size) && !Splits(blocks[i], size)
    ensures Take(blocks, i, size) == blocks[i := Block(blocks[i].at, size, false)]
  {
  }
}
