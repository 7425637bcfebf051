/** The kernel stack of a new process: the frame that its first dispatch restores. */
module KernelStack {
  import opened Words
  import opened Pmm
  import opened Mmu

  const SEG_UCODE: word := 0x1b
  const SEG_UDATA: word := 0x23
  const INT_TIMER: word := 32

  /** Interrupts on, and the bit that is always set. */
  const USER_FLAGS: word := 0x202

  const FRAME_WORDS: nat := 19

  /** What `uprocess_create` pushes, from the lowest address up. */
  function InitialFrame(entry: word, userEsp: word): (ws: seq<word>)
    ensures |ws| == FRAME_WORDS
  {
    [SEG_UDATA, SEG_UDATA, SEG_UDATA, SEG_UDATA, 0, 0, 0, 0, 0, 0, 0, 0, INT_TIMER, 0,
     entry, SEG_UCODE, USER_FLAGS, userEsp, SEG_UDATA]
  }

  /** The registers that the return from an interrupt loads. */
  datatype Context = Context(gs: word, fs: word, es: word, ds: word,
                             edi: word, esi: word, ebp: word, ebx: word, edx: word, ecx: word, eax: word,
                             eip: word, cs: word, eflags: word, esp: word, ss: word)

  /** A word at an address, through a directory. */
  function StackWord(m: Memory, pd: nat, a: nat): word
    requires pd < FRAME_LIMIT
  {
    if a < WORD_LIMIT && Mapped(m, pd, a) then m[Frame(Pte(m, pd, a / PAGE_SIZE))][a % PAGE_SIZE / 4] else 0
  }

  /** The word popped after `k` others. */
  function Popped(m: Memory, pd: nat, sp: nat, k: nat): word
    requires pd < FRAME_LIMIT
  {
    StackWord(m, pd, sp + 4 * k)
  }

  /** `.restore`: four segment registers, the eight of `popa` less the stack pointer, two words skipped, and `iret`. */
  function Restored(m: Memory, pd: nat, sp: nat): Context
    requires pd < FRAME_LIMIT
  {
    Context(Popped(m, pd, sp, 0), Popped(m, pd, sp, 1), Popped(m, pd, sp, 2), Popped(m, pd, sp, 3),
            Popped(m, pd, sp, 4), Popped(m, pd, sp, 5), Popped(m, pd, sp, 6), Popped(m, pd, sp, 8),
            Popped(m, pd, sp, 9), Popped(m, pd, sp, 10), Popped(m, pd, sp, 11),
            Popped(m, pd, sp, 14), Popped(m, pd, sp, 15), Popped(m, pd, sp, 16), Popped(m, pd, sp, 17), Popped(m, pd, sp, 18))
  }

  /** A program that starts: user segments, privilege level 3, interrupts on, registers zero. */
  function UserStart(entry: word, userEsp: word): Context {
    Context(0x23, 0x23, 0x23, 0x23, 0, 0, 0, 0, 0, 0, 0, entry, 0x1b, 0x202, userEsp, 0x23)
  }

  /** A page whose top holds the frame. */
  function WithFrame(p: Page, entry: word, userEsp: word): Page {
    p[..WORDS_PER_PAGE - FRAME_WORDS] + InitialFrame(entry, userEsp)
  }

  /** The frame behind the page below `top`; it is neither the directory nor the table that maps it. */
  predicate StackTop(m: Memory, pd: nat, top: word, g: nat) {
    && pd < FRAME_LIMIT && g < FRAME_LIMIT && top % PAGE_SIZE == 0 && top >= PAGE_SIZE
    && Mapped(m, pd, top - PAGE_SIZE) && Frame(Pte(m, pd, top / PAGE_SIZE - 1)) == g
    && g != pd && g != Frame(m[pd][(top / PAGE_SIZE - 1) / 1024])
  }

  lemma StackTopStays(m: Memory, pd: nat, top: word, g: nat, p: Page)
    requires StackTop(m, pd, top, g)
    ensures StackTop(WritePage(m, g, p), pd, top, g)
    ensures forall a: nat | top - PAGE_SIZE <= a < top ::
              a / PAGE_SIZE == top / PAGE_SIZE - 1 && Mapped(WritePage(m, g, p), pd, a)
  {
  }

  /** Pushes the frame below `top`, highest word first. */
  method PushFrame(m: Machine, top: word, entry: word, userEsp: word, ghost g: nat) returns (sp: word)
    requires StackTop(m.mem, m.cr3, top, g)
    modifies m`mem
    ensures sp == top - 4 * FRAME_WORDS
    ensures m.mem == WritePage(old(m.mem), g, WithFrame(old(m.mem[g]), entry, userEsp))
  {
    var words := InitialFrame(entry, userEsp);
    ghost var m0, rest := m.mem, WORDS_PER_PAGE - FRAME_WORDS;
    var k := FRAME_WORDS;
    sp := top;
    ghost var p := m0[g];
    assert p[..rest + k] + words[k..] == p && WritePage(m0, g, p) == m0;
    while k > 0
      invariant 0 <= k <= FRAME_WORDS && sp == top - 4 * (FRAME_WORDS - k)
      invariant p == m0[g][..rest + k] + words[k..] && |p| == WORDS_PER_PAGE
      invariant m.mem == WritePage(m0, g, p)
    {
      StackTopStays(m0, m.cr3, top, g, p);
      k, sp := k - 1, sp - 4;
      InLastPage(top, sp, k);
      m.Store(sp, words[k]);
      p := p[rest + k := words[k]];
      assert p == m0[g][..rest + k] + words[k..];
    }
  }

  lemma InLastPage(top: word, sp: word, k: nat)
    requires top % PAGE_SIZE == 0 && top >= PAGE_SIZE && k < FRAME_WORDS && sp == top - 4 * (FRAME_WORDS - k)
    ensures sp / PAGE_SIZE == top / PAGE_SIZE - 1 && sp % 4 == 0
    ensures sp % PAGE_SIZE / 4 == WORDS_PER_PAGE - FRAME_WORDS + k
  {
  }

  /** The first dispatch of the process enters user mode at the entry point, on the stack given. */
  lemma FirstReturnEntersProgram(m: Memory, pd: nat, top: word, g: nat, entry: word, userEsp: word)
    requires StackTop(m, pd, top, g) && m[g][WORDS_PER_PAGE - FRAME_WORDS..] == InitialFrame(entry, userEsp)
    ensures Restored(m, pd, top - 4 * FRAME_WORDS) == UserStart(entry, userEsp)
  {
    var sp: nat := top - 4 * FRAME_WORDS;
    assert pd < FRAME_LIMIT && |m[g]| == WORDS_PER_PAGE;
    hide StackTop, InitialFrame, StackWord;
    forall k: nat | k < FRAME_WORDS
      ensures Popped(m, pd, sp, k) == InitialFrame(entry, userEsp)[k]
    {
      FrameWordAt(m, pd, top, g, k);
      assert m[g][WORDS_PER_PAGE - FRAME_WORDS..][k] == m[g][WORDS_PER_PAGE - FRAME_WORDS + k];
    }
    FrameIsContext(m, pd, sp, entry, userEsp);
  }

  lemma FrameWordAt(m: Memory, pd: nat, top: word, g: nat, k: nat)
    requires StackTop(m, pd, top, g) && k < FRAME_WORDS
    ensures Popped(m, pd, top - 4 * FRAME_WORDS, k) == m[g][WORDS_PER_PAGE - FRAME_WORDS + k]
  {
    StackTopStays(m, pd, top, g, m[g]);
    assert WritePage(m, g, m[g]) == m;
    InLastPage(top, top - 4 * FRAME_WORDS + 4 * k, k);
  }

  lemma FrameIsContext(m: Memory, pd: nat, sp: nat, entry: word, userEsp: word)
    requires pd < FRAME_LIMIT
    requires forall k: nat | k < FRAME_WORDS :: Popped(m, pd, sp, k) == InitialFrame(entry, userEsp)[k]
    ensures Restored(m, pd, sp) == UserStart(entry, userEsp)
  {
    hide Popped;
  }
}
