/** The kernel heap as a list of blocks: first fit, split, grow and coalesce. */
module HeapSpec {
  import opened Words

  /** `sizeof(k_heap_block_t)`. */
  const HEADER: nat := 20

  const HEAP_START: nat := 0xd000_0000
  const INITIAL_SIZE: nat := 0x40_0000

  /** Where the pages behind the temporary windows begin; the heap must stay below. */
  const WINDOWS_BASE: nat := 0xff00_0000

  /** A block whose header stands at `at`; its payload follows. */
  datatype Block = Block(at: nat, size: nat, free: bool) {
    function Addr(): nat { at + HEADER }
    function End(): nat { at + HEADER + size }
  }

  datatype Heap = Heap(blocks: seq<Block>, end: nat)

  const INITIAL: Heap := Heap([Block(HEAP_START, INITIAL_SIZE - HEADER, true)], HEAP_START + INITIAL_SIZE)

  // ---------- The operations ----------

  predicate Suits(b: Block, size: nat) {
    b.free && b.size >= size
  }

  /** The first block that suits from index `i` on, or the length of the list. */
  function FirstFitFrom(blocks: seq<Block>, size: nat, i: nat): (j: nat)
    requires i <= |blocks|
    ensures i <= j <= |blocks|
    ensures j < |blocks| ==> Suits(blocks[j], size)
    ensures forall k | i <= k < j :: !Suits(blocks[k], size)
    decreases |blocks| - i
  {
    if i == |blocks| || Suits(blocks[i], size) then i else FirstFitFrom(blocks, size, i + 1)
  }

  function FirstFit(blocks: seq<Block>, size: nat): nat {
    FirstFitFrom(blocks, size, 0)
  }

  function FirstFreeFrom(blocks: seq<Block>, i: nat): (j: nat)
    requires i <= |blocks|
    ensures i <= j <= |blocks|
    ensures j < |blocks| ==> blocks[j].free
    ensures forall k | i <= k < j :: !blocks[k].free
    decreases |blocks| - i
  {
    if i == |blocks| || blocks[i].free then i else FirstFreeFrom(blocks, i + 1)
  }

  predicate Splits(b: Block, size: nat) {
    b.size >= size + HEADER + 1
  }

  /** Block `i` is taken for `size` bytes; what is left becomes a block if it can hold a header and a byte. */
  function Take(blocks: seq<Block>, i: nat, size: nat): seq<Block>
    requires i < |blocks| && Suits(blocks[i], size)
  {
    var b := blocks[i];
    if Splits(b, size) then
      blocks[..i] + [Block(b.at, size, false), Block(b.at + HEADER + size, b.size - size - HEADER, true)] + blocks[i + 1..]
    else blocks[i := Block(b.at, size, false)]
  }

  /** One page is added at the end, as a block of its own. */
  function Grow(h: Heap): Heap {
    Heap(h.blocks + [Block(h.end, PAGE_SIZE - HEADER, true)], h.end + PAGE_SIZE)
  }

  /** Block `i` swallows its successor. */
  function MergeNext(blocks: seq<Block>, i: nat): seq<Block>
    requires i + 1 < |blocks|
  {
    blocks[..i] + [Block(blocks[i].at, blocks[i].size + HEADER + blocks[i + 1].size, blocks[i].free)] + blocks[i + 2..]
  }

  function Freed(blocks: seq<Block>, i: nat): seq<Block>
    requires i < |blocks|
  {
    blocks[i := Block(blocks[i].at, blocks[i].size, true)]
  }

  function JoinNext(blocks: seq<Block>, i: nat): seq<Block>
    requires i < |blocks|
  {
    if i + 1 < |blocks| && blocks[i + 1].free then MergeNext(blocks, i) else blocks
  }

  function JoinPrev(blocks: seq<Block>, i: nat): seq<Block>
    requires i < |blocks|
  {
    if i > 0 && blocks[i - 1].free then MergeNext(blocks, i - 1) else blocks
  }

  /** Block `i` becomes free and joins its free neighbours, first the next, then the previous. */
  function Release(blocks: seq<Block>, i: nat): seq<Block>
    requires i < |blocks|
  {
    JoinPrev(JoinNext(Freed(blocks, i), i), i)
  }

  // ---------- The invariant ----------

  /** Where block `i` must have ended. */
  function Limit(h: Heap, i: nat): nat
    requires i < |h.blocks|
  {
    if i + 1 < |h.blocks| then h.blocks[i + 1].at else h.end
  }

  /** The heap once grew at this address. */
  predicate GrowthBoundary(a: nat) {
    a % PAGE_SIZE == 0 && a >= HEAP_START + INITIAL_SIZE
  }

  /** Block `i` ends before the next begins, and has a free neighbour only across a growth. */
  predicate LinkOk(h: Heap, i: nat)
    requires i < |h.blocks|
  {
    && h.blocks[i].End() <= Limit(h, i)
    && (i + 1 < |h.blocks| && h.blocks[i].free && h.blocks[i + 1].free ==> GrowthBoundary(h.blocks[i + 1].at))
  }

  predicate HeapOk(h: Heap) {
    && h.blocks != [] && h.blocks[0].at == HEAP_START && GrowthBoundary(h.end)
    && forall i | 0 <= i < |h.blocks| :: LinkOk(h, i)
  }

  lemma TakeKeepsOk(h: Heap, i: nat, size: nat)
    requires HeapOk(h) && i < |h.blocks| && Suits(h.blocks[i], size)
    ensures HeapOk(Heap(Take(h.blocks, i, size), h.end))
  {
    hide GrowthBoundary;
    var t := Heap(Take(h.blocks, i, size), h.end);
    var shift := if Splits(h.blocks[i], size) then 1 else 0;
    forall k | 0 <= k < |t.blocks|
      ensures LinkOk(t, k)
    {
      if k < i {
        assert LinkOk(h, k) && t.blocks[k] == h.blocks[k];
      } else if k > i + shift {
        assert LinkOk(h, k - shift) && t.blocks[k] == h.blocks[k - shift];
      } else {
        assert LinkOk(h, i);
      }
    }
  }

  lemma GrowKeepsOk(h: Heap)
    requires HeapOk(h)
    ensures HeapOk(Grow(h))
  {
    forall k | 0 <= k < |Grow(h).blocks|
      ensures LinkOk(Grow(h), k)
    {
      if k < |h.blocks| {
        assert LinkOk(h, k) && Grow(h).blocks[k] == h.blocks[k];
      }
    }
  }

  /** The first and last block that a release of block `i` joins. */
  function JoinFrom(blocks: seq<Block>, i: nat): nat
    requires i < |blocks|
  {
    if i > 0 && blocks[i - 1].free then i - 1 else i
  }

  function JoinTo(blocks: seq<Block>, i: nat): nat
    requires i < |blocks|
  {
    if i + 1 < |blocks| && blocks[i + 1].free then i + 1 else i
  }

  function JoinedSize(blocks: seq<Block>, lo: nat, hi: nat): nat
    requires lo <= hi < |blocks|
    decreases hi - lo
  {
    if lo == hi then blocks[lo].size else blocks[lo].size + HEADER + JoinedSize(blocks, lo + 1, hi)
  }

  /** Blocks `lo..hi` replaced by one free block of the given size. */
  function Collapse(blocks: seq<Block>, lo: nat, hi: nat, size: nat): (r: seq<Block>)
    requires lo <= hi < |blocks|
    ensures |r| == |blocks| - (hi - lo)
  {
    blocks[..lo] + [Block(blocks[lo].at, size, true)] + blocks[hi + 1..]
  }

  lemma CollapseAt(blocks: seq<Block>, lo: nat, hi: nat, size: nat, k: nat)
    requires lo <= hi < |blocks| && k < |blocks| - (hi - lo)
    ensures Collapse(blocks, lo, hi, size)[k]
            == if k < lo then blocks[k] else if k == lo then Block(blocks[lo].at, size, true) else blocks[k + (hi - lo)]
  {
  }

  /** A release replaces the joined blocks by one free block. */
  lemma ReleaseShape(blocks: seq<Block>, i: nat)
    requires i < |blocks|
    ensures var lo, hi := JoinFrom(blocks, i), JoinTo(blocks, i);
            Release(blocks, i) == Collapse(blocks, lo, hi, JoinedSize(blocks, lo, hi))
  {
    JoinNextShape(blocks, i);
    if i > 0 {
      JoinPrevShape(blocks, i, JoinTo(blocks, i));
    }
  }

  lemma JoinNextShape(blocks: seq<Block>, i: nat)
    requires i < |blocks|
    ensures JoinNext(Freed(blocks, i), i)
            == Collapse(blocks, i, JoinTo(blocks, i), JoinedSize(blocks, i, JoinTo(blocks, i)))
  {
  }

  lemma JoinPrevShape(blocks: seq<Block>, i: nat, hi: nat)
    requires 0 < i <= hi < |blocks|
    ensures JoinPrev(Collapse(blocks, i, hi, JoinedSize(blocks, i, hi)), i)
            == Collapse(blocks, JoinFrom(blocks, i), hi, JoinedSize(blocks, JoinFrom(blocks, i), hi))
  {
    var joined := Collapse(blocks, i, hi, JoinedSize(blocks, i, hi));
    CollapseAt(blocks, i, hi, JoinedSize(blocks, i, hi), i - 1);
    CollapseAt(blocks, i, hi, JoinedSize(blocks, i, hi), i);
    if blocks[i - 1].free {
      assert joined[..i - 1] == blocks[..i - 1] && joined[i + 1..] == blocks[hi + 1..];
    }
  }

  lemma CollapseKeepsOk(h: Heap, lo: nat, hi: nat)
    requires HeapOk(h) && lo <= hi < |h.blocks|
    requires lo > 0 && h.blocks[lo - 1].free ==> GrowthBoundary(h.blocks[lo].at)
    requires hi + 1 < |h.blocks| && h.blocks[hi + 1].free ==> GrowthBoundary(h.blocks[hi + 1].at)
    ensures HeapOk(Heap(Collapse(h.blocks, lo, hi, JoinedSize(h.blocks, lo, hi)), h.end))
  {
    hide GrowthBoundary, Collapse, JoinedSize;
    var size := JoinedSize(h.blocks, lo, hi);
    var t := Heap(Collapse(h.blocks, lo, hi, size), h.end);
    CollapseAt(h.blocks, lo, hi, size, 0);
    JoinedEnds(h, lo, hi);
    forall k | 0 <= k < |t.blocks|
      ensures LinkOk(t, k)
    {
      CollapseAt(h.blocks, lo, hi, size, k);
      if k + 1 < |t.blocks| {
        CollapseAt(h.blocks, lo, hi, size, k + 1);
      }
      assert LinkOk(h, if k < lo then k else k + (hi - lo));
    }
  }

  lemma ReleaseKeepsOk(h: Heap, i: nat)
    requires HeapOk(h) && i < |h.blocks| && !h.blocks[i].free
    ensures HeapOk(Heap(Release(h.blocks, i), h.end))
  {
    ReleaseShape(h.blocks, i);
    var lo, hi := JoinFrom(h.blocks, i), JoinTo(h.blocks, i);
    hide GrowthBoundary, Release, Collapse;
    assert lo > 0 ==> LinkOk(h, lo - 1);
    assert LinkOk(h, hi);
    CollapseKeepsOk(h, lo, hi);
  }

  lemma {:induction false} JoinedEnds(h: Heap, lo: nat, hi: nat)
    requires HeapOk(h) && lo <= hi < |h.blocks|
    ensures h.blocks[lo].Addr() + JoinedSize(h.blocks, lo, hi) <= Limit(h, hi)
    decreases hi - lo
  {
    assert LinkOk(h, lo);
    if lo < hi {
      JoinedEnds(h, lo + 1, hi);
    }
  }

  // ---------- Live allocations ----------

  /** The payloads handed out and not yet freed: address and size. */
  function Live(blocks: seq<Block>): set<(nat, nat)> {
    set i | 0 <= i < |blocks| && !blocks[i].free :: (blocks[i].Addr(), blocks[i].size)
  }

  lemma LiveBlock(blocks: seq<Block>, p: (nat, nat)) returns (k: nat)
    requires p in Live(blocks)
    ensures k < |blocks| && !blocks[k].free && p == (blocks[k].Addr(), blocks[k].size)
  {
    k :| 0 <= k < |blocks| && !blocks[k].free && p == (blocks[k].Addr(), blocks[k].size);
  }

  lemma BlockIsLive(blocks: seq<Block>, k: nat)
    requires k < |blocks| && !blocks[k].free
    ensures (blocks[k].Addr(), blocks[k].size) in Live(blocks)
  {
  }

  lemma {:induction false} BlocksAreDisjoint(h: Heap, i: nat, j: nat)
    requires HeapOk(h) && i < j < |h.blocks|
    ensures h.blocks[i].End() <= h.blocks[j].at
    decreases j - i
  {
    assert LinkOk(h, i);
    if i + 1 < j {
      BlocksAreDisjoint(h, i + 1, j);
      assert LinkOk(h, i + 1);
    }
  }

  lemma {:induction false} BlocksInside(h: Heap, i: nat)
    requires HeapOk(h) && i < |h.blocks|
    ensures HEAP_START <= h.blocks[i].at && h.blocks[i].End() <= h.end
  {
    if i > 0 {
      BlocksAreDisjoint(h, 0, i);
    }
    if i < |h.blocks| - 1 {
      BlocksAreDisjoint(h, i, |h.blocks| - 1);
    }
    assert LinkOk(h, |h.blocks| - 1);
  }

  /** Two different live allocations never overlap, headers included, and lie inside the heap. */
  lemma LiveExtentsAreDisjoint(h: Heap, a: (nat, nat), b: (nat, nat))
    requires HeapOk(h) && a in Live(h.blocks) && b in Live(h.blocks) && a != b
    ensures a.0 + a.1 <= b.0 - 20 || b.0 + b.1 <= a.0 - 20
    ensures 0xd000_0000 + 20 <= a.0 && a.0 + a.1 <= h.end
  {
    var i := LiveBlock(h.blocks, a);
    var j := LiveBlock(h.blocks, b);
    BlocksInside(h, i);
    if i < j {
      BlocksAreDisjoint(h, i, j);
    } else {
      BlocksAreDisjoint(h, j, i);
    }
  }

  lemma TakeAddsLive(h: Heap, i: nat, size: nat)
    requires HeapOk(h) && i < |h.blocks| && Suits(h.blocks[i], size)
    ensures Live(Take(h.blocks, i, size)) == Live(h.blocks) + {(h.blocks[i].Addr(), size)}
    ensures forall n :: (h.blocks[i].Addr(), n) !in Live(h.blocks)
  {
    var t, taken := Take(h.blocks, i, size), (h.blocks[i].Addr(), size);
    var shift := if Splits(h.blocks[i], size) then 1 else 0;
    assert t[i] == Block(h.blocks[i].at, size, false);
    BlockIsLive(t, i);
    hide Live, HeapOk;
    forall p | p in Live(t)
      ensures p == taken || p in Live(h.blocks)
    {
      var k := LiveBlock(t, p);
      if k != i {
        BlockIsLive(h.blocks, if k < i then k else k - shift);
      }
    }
    forall p | p in Live(h.blocks)
      ensures p in Live(t) && p.0 != taken.0
    {
      var k := LiveBlock(h.blocks, p);
      BlockIsLive(t, if k < i then k else k + shift);
      if k < i {
        BlocksAreDisjoint(h, k, i);
      } else {
        BlocksAreDisjoint(h, i, k);
      }
    }
  }

  lemma GrowKeepsLive(h: Heap)
    ensures Live(Grow(h).blocks) == Live(h.blocks)
  {
    var t := Grow(h).blocks;
    forall p | p in Live(h.blocks)
      ensures p in Live(t)
    {
      var k := LiveBlock(h.blocks, p);
      BlockIsLive(t, k);
    }
    forall p | p in Live(t)
      ensures p in Live(h.blocks)
    {
      var k := LiveBlock(t, p);
      BlockIsLive(h.blocks, k);
    }
  }

  lemma ReleaseRemovesLive(h: Heap, i: nat)
    requires HeapOk(h) && i < |h.blocks| && !h.blocks[i].free
    ensures Live(Release(h.blocks, i)) == Live(h.blocks) - {(h.blocks[i].Addr(), h.blocks[i].size)}
  {
    hide Live, HeapOk, Release;
    forall p | p in Live(Release(h.blocks, i))
      ensures p in Live(h.blocks) && p.0 != h.blocks[i].Addr()
    {
      LiveBeforeRelease(h, i, p);
    }
    forall p | p in Live(h.blocks) && p != (h.blocks[i].Addr(), h.blocks[i].size)
      ensures p in Live(Release(h.blocks, i))
    {
      LiveAfterRelease(h, i, p);
    }
  }

  lemma LiveBeforeRelease(h: Heap, i: nat, p: (nat, nat))
    requires HeapOk(h) && i < |h.blocks| && !h.blocks[i].free && p in Live(Release(h.blocks, i))
    ensures p in Live(h.blocks) && p.0 != h.blocks[i].Addr()
  {
    ReleaseShape(h.blocks, i);
    var lo, hi := JoinFrom(h.blocks, i), JoinTo(h.blocks, i);
    hide Release, JoinedSize, Collapse, HeapOk, Live;
    var k := LiveBlock(Release(h.blocks, i), p);
    CollapseAt(h.blocks, lo, hi, JoinedSize(h.blocks, lo, hi), k);
    var from := if k < lo then k else k + (hi - lo);
    BlockIsLive(h.blocks, from);
    if from < i {
      BlocksAreDisjoint(h, from, i);
    } else {
      BlocksAreDisjoint(h, i, from);
    }
  }

  /** No other live block is joined. */
  lemma OutsideJoin(blocks: seq<Block>, i: nat, k: nat)
    requires i < |blocks| && k < |blocks| && !blocks[k].free && k != i
    ensures JoinFrom(blocks, i) <= i <= JoinTo(blocks, i) < |blocks|
    ensures k < JoinFrom(blocks, i) || k > JoinTo(blocks, i)
  {
  }

  lemma LiveAfterRelease(h: Heap, i: nat, p: (nat, nat))
    requires i < |h.blocks| && !h.blocks[i].free
    requires p in Live(h.blocks) && p != (h.blocks[i].Addr(), h.blocks[i].size)
    ensures p in Live(Release(h.blocks, i))
  {
    hide Release, JoinFrom, JoinTo, JoinedSize, Collapse, Live;
    ReleaseShape(h.blocks, i);
    var k := LiveBlock(h.blocks, p);
    OutsideJoin(h.blocks, i, k);
    var lo, hi := JoinFrom(h.blocks, i), JoinTo(h.blocks, i);
    var to := if k < lo then k else k - (hi - lo);
    CollapseAt(h.blocks, lo, hi, JoinedSize(h.blocks, lo, hi), to);
    BlockIsLive(Release(h.blocks, i), to);
  }

  // ---------- Byte accounting ----------

  /** Headers and payloads together. */
  function Used(blocks: seq<Block>): nat {
    if blocks == [] then 0 else blocks[0].size + HEADER + Used(blocks[1..])
  }

  /** Bytes of the heap that no block owns. */
  function Slack(h: Heap): int {
    h.end - HEAP_START - Used(h.blocks)
  }

  lemma {:induction false} UsedOfConcat(a: seq<Block>, b: seq<Block>)
    ensures Used(a + b) == Used(a) + Used(b)
  {
    if a == [] {
      assert a + b == b;
    } else {
      assert (a + b)[1..] == a[1..] + b;
      UsedOfConcat(a[1..], b);
    }
  }

  lemma UsedOfThree(a: seq<Block>, m: seq<Block>, b: seq<Block>)
    ensures Used(a + m + b) == Used(a) + Used(m) + Used(b)
  {
    UsedOfConcat(a + m, b);
    UsedOfConcat(a, m);
  }

  /** An allocation loses nothing when it splits, and otherwise at most a header's worth of bytes. */
  lemma TakeSlack(h: Heap, i: nat, size: nat)
    requires i < |h.blocks| && Suits(h.blocks[i], size)
    ensures Slack(Heap(Take(h.blocks, i, size), h.end)) - Slack(h)
            == if Splits(h.blocks[i], size) then 0 else h.blocks[i].size - size
    ensures 0 <= Slack(Heap(Take(h.blocks, i, size), h.end)) - Slack(h) <= HEADER
  {
    var b := h.blocks[i];
    assert h.blocks == h.blocks[..i] + [b] + h.blocks[i + 1..];
    UsedOfThree(h.blocks[..i], [b], h.blocks[i + 1..]);
    if Splits(b, size) {
      var two := [Block(b.at, size, false), Block(b.at + HEADER + size, b.size - size - HEADER, true)];
      UsedOfThree(h.blocks[..i], two, h.blocks[i + 1..]);
      UsedOfConcat([two[0]], [two[1]]);
      assert two == [two[0]] + [two[1]];
    } else {
      assert Take(h.blocks, i, size) == h.blocks[..i] + [Block(b.at, size, false)] + h.blocks[i + 1..];
      UsedOfThree(h.blocks[..i], [Block(b.at, size, false)], h.blocks[i + 1..]);
    }
  }

  lemma GrowSlack(h: Heap)
    ensures Slack(Grow(h)) == Slack(h)
  {
    UsedOfConcat(h.blocks, [Block(h.end, PAGE_SIZE - HEADER, true)]);
  }

  lemma {:induction false} UsedOfJoined(blocks: seq<Block>, lo: nat, hi: nat)
    requires lo <= hi < |blocks|
    ensures Used(blocks[lo..hi + 1]) == JoinedSize(blocks, lo, hi) + HEADER
    decreases hi - lo
  {
    assert blocks[lo..hi + 1][1..] == blocks[lo + 1..hi + 1];
    if lo < hi {
      UsedOfJoined(blocks, lo + 1, hi);
    }
  }

  lemma ThreeParts(s: seq<Block>, i: nat, j: nat)
    requires i <= j <= |s|
    ensures s == s[..i] + s[i..j] + s[j..]
  {
  }

  /** Freeing neither loses bytes nor finds lost ones, whichever neighbours join. */
  lemma ReleaseSlack(h: Heap, i: nat)
    requires i < |h.blocks|
    ensures Slack(Heap(Release(h.blocks, i), h.end)) == Slack(h)
  {
    ReleaseShape(h.blocks, i);
    var lo, hi := JoinFrom(h.blocks, i), JoinTo(h.blocks, i);
    var one := [Block(h.blocks[lo].at, JoinedSize(h.blocks, lo, hi), true)];
    ThreeParts(h.blocks, lo, hi + 1);
    hide Release;
    UsedOfThree(h.blocks[..lo], h.blocks[lo..hi + 1], h.blocks[hi + 1..]);
    UsedOfThree(h.blocks[..lo], one, h.blocks[hi + 1..]);
    UsedOfJoined(h.blocks, lo, hi);
  }

  // ---------- The free_head shortcut ----------

  /** Searching from the first free block finds what a search of the whole list finds. */
  lemma {:induction false} FirstFitFromFirstFree(blocks: seq<Block>, size: nat, i: nat)
    requires i <= FirstFreeFrom(blocks, 0)
    ensures FirstFitFrom(blocks, size, i) == FirstFitFrom(blocks, size, FirstFreeFrom(blocks, 0))
    decreases |blocks| - i
  {
    if i < FirstFreeFrom(blocks, 0) {
      FirstFitFromFirstFree(blocks, size, i + 1);
    }
  }

  /** The first free block after an allocation: unchanged, unless it was the block taken. */
  lemma FirstFreeAfterTake(blocks: seq<Block>, i: nat, size: nat)
    requires i < |blocks| && Suits(blocks[i], size)
    ensures var t, first := Take(blocks, i, size), FirstFreeFrom(blocks, 0);
            FirstFreeFrom(t, 0) == if i == first then FirstFreeFrom(t, i + 1) else first
  {
    var t, first := Take(blocks, i, size), FirstFreeFrom(blocks, 0);
    assert t[i] == Block(blocks[i].at, size, false);
    assert forall k | 0 <= k < i :: t[k] == blocks[k];
  }

  /** The first free block after a release: the joined block, if nothing before it was free. */
  lemma FirstFreeAfterRelease(blocks: seq<Block>, i: nat)
    requires i < |blocks|
    ensures var lo, first := JoinFrom(blocks, i), FirstFreeFrom(blocks, 0);
            FirstFreeFrom(Release(blocks, i), 0) == if first < lo then first else lo
  {
    ReleaseShape(blocks, i);
    var lo, hi, t := JoinFrom(blocks, i), JoinTo(blocks, i), Release(blocks, i);
    hide Release, Collapse, JoinedSize;
    CollapseAt(blocks, lo, hi, JoinedSize(blocks, lo, hi), lo);
    forall k | 0 <= k < lo
      ensures t[k] == blocks[k]
    {
      CollapseAt(blocks, lo, hi, JoinedSize(blocks, lo, hi), k);
    }
  }

  // ---------- Undoing an allocation ----------

  lemma SplitIsUndone(blocks: seq<Block>, i: nat, size: nat)
    requires i < |blocks| && Suits(blocks[i], size) && Splits(blocks[i], size) && !(i > 0 && blocks[i - 1].free)
    ensures Release(Take(blocks, i, size), i) == blocks
  {
    var t := Take(blocks, i, size);
    ReleaseShape(t, i);
    SplitShape(blocks, i, size);
    hide Take, Release, JoinedSize, Collapse;
    CollapseRestores(blocks, t, i, i + 1);
  }

  lemma SplitShape(blocks: seq<Block>, i: nat, size: nat)
    requires i < |blocks| && Suits(blocks[i], size) && Splits(blocks[i], size)
    ensures var t := Take(blocks, i, size);
            && |t| == |blocks| + 1 && t[i].at == blocks[i].at && t[i + 1].free
            && t[..i] == blocks[..i] && t[i + 2..] == blocks[i + 1..]
            && JoinedSize(t, i, i + 1) == blocks[i].size
  {
  }

  /** Collapsing what block `i` was replaced by gives the list back. */
  lemma CollapseRestores(blocks: seq<Block>, t: seq<Block>, i: nat, hi: nat)
    requires i < |blocks| && blocks[i].free && i <= hi < |t| && t[i].at == blocks[i].at
    requires t[..i] == blocks[..i] && t[hi + 1..] == blocks[i + 1..]
    ensures Collapse(t, i, hi, blocks[i].size) == blocks
  {
    assert Block(blocks[i].at, blocks[i].size, true) == blocks[i];
    assert blocks == blocks[..i] + [blocks[i]] + blocks[i + 1..];
  }

  lemma PreviousIsJoined(blocks: seq<Block>, i: nat, size: nat)
    requires i < |blocks| && Suits(blocks[i], size) && i > 0 && blocks[i - 1].free
    ensures Release(Take(blocks, i, size), i) != blocks
  {
    var t := Take(blocks, i, size);
    ReleaseShape(t, i);
    var hi := JoinTo(t, i);
    assert t[i - 1] == blocks[i - 1];
    assert JoinedSize(t, i - 1, hi) == t[i - 1].size + HEADER + JoinedSize(t, i, hi);
    hide Take, Release, JoinedSize;
    CollapseAt(t, i - 1, hi, JoinedSize(t, i - 1, hi), i - 1);
  }

  lemma WholeIsUndoneIff(blocks: seq<Block>, i: nat, size: nat)
    requires i < |blocks| && Suits(blocks[i], size) && !Splits(blocks[i], size) && !(i > 0 && blocks[i - 1].free)
    ensures Release(Take(blocks, i, size), i) == blocks
            <==> blocks[i].size == size && !(i + 1 < |blocks| && blocks[i + 1].free)
  {
    var t := Take(blocks, i, size);
    ReleaseShape(t, i);
    assert t == blocks[i := Block(blocks[i].at, size, false)];
    hide Take, Release;
    if i + 1 < |blocks| && blocks[i + 1].free {
      assert |Release(t, i)| == |blocks| - 1;
    } else {
      CollapseAt(t, i, i, size, i);
      assert t[..i] == blocks[..i] && t[i + 1..] == blocks[i + 1..];
      hide Collapse;
      CollapseRestores(blocks, t, i, i);
    }
  }

  /** Freeing at once what was just allocated restores the list exactly when the block was split and no free
      block precedes it, or it was taken whole and no neighbour is free. */
  lemma ReleaseUndoesTake(blocks: seq<Block>, i: nat, size: nat)
    requires i < |blocks| && Suits(blocks[i], size)
    ensures Release(Take(blocks, i, size), i) == blocks <==>
            && !(i > 0 && blocks[i - 1].free)
            && (Splits(blocks[i], size) || (blocks[i].size == size && !(i + 1 < |blocks| && blocks[i + 1].free)))
  {
    hide Take, Release;
    if i > 0 && blocks[i - 1].free {
      PreviousIsJoined(blocks, i, size);
    } else if Splits(blocks[i], size) {
      SplitIsUndone(blocks, i, size);
    } else {
      WholeIsUndoneIff(blocks, i, size);
    }
  }

  // ---------- Runs ----------

  datatype HeapOp = Malloc(size: nat) | Free(addr: nat)

  /** The block whose payload starts at `addr`, or the length of the list. */
  function BlockOf(blocks: seq<Block>, addr: nat): (i: nat)
    ensures i <= |blocks|
    ensures i < |blocks| ==> blocks[i].Addr() == addr
    ensures i == |blocks| ==> forall k | 0 <= k < |blocks| :: blocks[k].Addr() != addr
  {
    if blocks == [] || blocks[0].Addr() == addr then 0 else 1 + BlockOf(blocks[1..], addr)
  }

  /** A request that no free block suits is served by growth exactly when it fits a page. */
  predicate CanServe(h: Heap, size: nat) {
    FirstFit(h.blocks, size) < |h.blocks| || (size <= PAGE_SIZE - HEADER && h.end < WINDOWS_BASE)
  }

  /** The heap in which the request is served. */
  function ReadyFor(h: Heap, size: nat): Heap
    requires CanServe(h, size)
  {
    if FirstFit(h.blocks, size) < |h.blocks| then h else Grow(h)
  }

  lemma {:induction false} FirstFitAfterGrow(blocks: seq<Block>, extra: Block, size: nat, i: nat)
    requires i <= |blocks|
    ensures FirstFitFrom(blocks + [extra], size, i)
            == if FirstFitFrom(blocks, size, i) < |blocks| then FirstFitFrom(blocks, size, i)
               else if Suits(extra, size) then |blocks| else |blocks| + 1
    decreases |blocks| - i
  {
    if i < |blocks| {
      FirstFitAfterGrow(blocks, extra, size, i + 1);
    }
  }

  lemma ReadyForFits(h: Heap, size: nat)
    requires CanServe(h, size)
    ensures FirstFit(ReadyFor(h, size).blocks, size) < |ReadyFor(h, size).blocks|
  {
    FirstFitAfterGrow(h.blocks, Block(h.end, PAGE_SIZE - HEADER, true), size, 0);
  }

  function GrowTimes(h: Heap, n: nat): Heap
    decreases n
  {
    if n == 0 then h else GrowTimes(Grow(h), n - 1)
  }

  /** However often the heap grows, a request larger than a fresh page's payload finds no block. */
  lemma {:induction false} GrowthServesNoLargeRequest(h: Heap, size: nat, n: nat)
    requires FirstFit(h.blocks, size) == |h.blocks| && size > PAGE_SIZE - HEADER
    ensures FirstFit(GrowTimes(h, n).blocks, size) == |GrowTimes(h, n).blocks|
    decreases n
  {
    if n > 0 {
      FirstFitAfterGrow(h.blocks, Block(h.end, PAGE_SIZE - HEADER, true), size, 0);
      GrowthServesNoLargeRequest(Grow(h), size, n - 1);
    }
  }

  /** The heap and the payload address after a served request. */
  function MallocStep(h: Heap, size: nat): (Heap, nat)
    requires CanServe(h, size)
  {
    ReadyForFits(h, size);
    var r := ReadyFor(h, size);
    var i := FirstFit(r.blocks, size);
    (Heap(Take(r.blocks, i, size), r.end), r.blocks[i].Addr())
  }

  /** Null and already free blocks are left alone. */
  function FreeStep(h: Heap, addr: nat): Heap
    requires addr == 0 || BlockOf(h.blocks, addr) < |h.blocks|
  {
    if addr == 0 || h.blocks[BlockOf(h.blocks, addr)].free then h
    else Heap(Release(h.blocks, BlockOf(h.blocks, addr)), h.end)
  }

  predicate EnabledOp(h: Heap, op: HeapOp) {
    match op
    case Malloc(size) => CanServe(h, size)
    case Free(addr) => addr == 0 || BlockOf(h.blocks, addr) < |h.blocks|
  }

  function StepOp(h: Heap, op: HeapOp): Heap
    requires EnabledOp(h, op)
  {
    match op
    case Malloc(size) => MallocStep(h, size).0
    case Free(addr) => FreeStep(h, addr)
  }

  predicate Runs(h: Heap, ops: seq<HeapOp>)
    decreases |ops|
  {
    ops == [] || (EnabledOp(h, ops[0]) && Runs(StepOp(h, ops[0]), ops[1..]))
  }

  function Final(h: Heap, ops: seq<HeapOp>): Heap
    requires Runs(h, ops)
    decreases |ops|
  {
    if ops == [] then h else Final(StepOp(h, ops[0]), ops[1..])
  }

  /** What a caller who keeps books holds after a run: every result not freed since. */
  function Books(h: Heap, ops: seq<HeapOp>, held: set<(nat, nat)>): set<(nat, nat)>
    requires Runs(h, ops)
    decreases |ops|
  {
    if ops == [] then held
    else
      match ops[0]
      case Malloc(size) => Books(StepOp(h, ops[0]), ops[1..], held + {(MallocStep(h, size).1, size)})
      case Free(addr) => Books(StepOp(h, ops[0]), ops[1..], set p | p in held && p.0 != addr)
  }

  function Mallocs(ops: seq<HeapOp>): nat {
    if ops == [] then 0 else (if ops[0].Malloc? then 1 else 0) + Mallocs(ops[1..])
  }

  lemma MallocStepOk(h: Heap, size: nat)
    requires HeapOk(h) && CanServe(h, size)
    ensures var (t, a) := MallocStep(h, size);
            && HeapOk(t) && Live(t.blocks) == Live(h.blocks) + {(a, size)} && a != 0
            && (forall n :: (a, n) !in Live(h.blocks))
            && 0 <= Slack(t) - Slack(h) <= HEADER
  {
    ReadyForFits(h, size);
    var r := ReadyFor(h, size);
    GrowKeepsOk(h);
    GrowKeepsLive(h);
    GrowSlack(h);
    hide HeapOk, Live, Slack, Grow, Take;
    TakeKeepsOk(r, FirstFit(r.blocks, size), size);
    TakeAddsLive(r, FirstFit(r.blocks, size), size);
    TakeSlack(r, FirstFit(r.blocks, size), size);
  }

  lemma FreeStepOk(h: Heap, addr: nat)
    requires HeapOk(h) && (addr == 0 || BlockOf(h.blocks, addr) < |h.blocks|)
    ensures HeapOk(FreeStep(h, addr)) && Slack(FreeStep(h, addr)) == Slack(h)
    ensures Live(FreeStep(h, addr).blocks) == set p | p in Live(h.blocks) && p.0 != addr
  {
    hide HeapOk, Live, Slack, Release;
    var i := BlockOf(h.blocks, addr);
    forall p | p in Live(h.blocks)
      ensures p.0 == addr ==> addr != 0 && !h.blocks[i].free && p == (addr, h.blocks[i].size)
    {
      var k := LiveBlock(h.blocks, p);
      if p.0 == addr {
        SameAddressSameBlock(h, i, k);
      }
    }
    if addr != 0 && !h.blocks[i].free {
      ReleaseKeepsOk(h, i);
      ReleaseSlack(h, i);
      ReleaseRemovesLive(h, i);
    }
  }

  lemma SameAddressSameBlock(h: Heap, i: nat, k: nat)
    requires HeapOk(h) && i < |h.blocks| && k < |h.blocks| && h.blocks[i].Addr() == h.blocks[k].Addr()
    ensures i == k
  {
    if i < k {
      BlocksAreDisjoint(h, i, k);
    } else if k < i {
      BlocksAreDisjoint(h, k, i);
    }
  }

  /** Over every run the list stays ordered and disjoint, holds exactly what its callers hold, and has lost at most
      a header's worth of bytes for each allocation. */
  lemma {:induction false} RunsAreSafe(h: Heap, ops: seq<HeapOp>)
    requires HeapOk(h) && Runs(h, ops)
    ensures HeapOk(Final(h, ops))
    ensures Live(Final(h, ops).blocks) == Books(h, ops, Live(h.blocks))
    ensures Slack(h) <= Slack(Final(h, ops)) <= Slack(h) + 20 * Mallocs(ops)
    decreases |ops|
  {
    hide HeapOk, Live, Slack, MallocStep, FreeStep, CanServe;
    if ops != [] {
      match ops[0] {
        case Malloc(size) => MallocStepOk(h, size);
        case Free(addr) => FreeStepOk(h, addr);
      }
      RunsAreSafe(StepOp(h, ops[0]), ops[1..]);
    }
  }

  lemma InitialIsOk()
    ensures HeapOk(INITIAL) && Live(INITIAL.blocks) == {} && Slack(INITIAL) == 0
  {
    assert LinkOk(INITIAL, 0);
    assert INITIAL.blocks == [Block(HEAP_START, INITIAL_SIZE - HEADER, true)] && INITIAL.blocks[1..] == [];
    assert Used(INITIAL.blocks) == INITIAL.blocks[0].size + HEADER + Used(INITIAL.blocks[1..]);
  }
}
