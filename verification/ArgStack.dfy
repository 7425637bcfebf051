/** The argument block at the top of a new process's stack. */
module ArgStack {
  import opened Words
  import CStrings

  const USER_STACK_TOP: word := 0xb000_0000

  /** Where the topmost stack page is mapped. */
  const STACK_PAGE: word := 0xafff_f000

  /** The characters of a C string, without its NUL. */
  type CString = s: seq<byte> | forall b <- s :: b != 0 witness []

  // ---------- Layout ----------

  /** Bytes taken by the strings, each with its NUL. */
  function StringBytes(args: seq<CString>): nat {
    if args == [] then 0 else |args[0]| + 1 + StringBytes(args[1..])
  }

  lemma StringBytesFrom(args: seq<CString>, i: nat)
    requires i < |args|
    ensures StringBytes(args[i..]) == |args[i]| + 1 + StringBytes(args[i + 1..])
  {
    assert args[i..][1..] == args[i + 1..];
  }

  lemma {:induction false} StringBytesGrow(args: seq<CString>, i: nat)
    requires i <= |args|
    ensures StringBytes(args[i..]) <= StringBytes(args)
  {
    if i == 0 {
      assert args[0..] == args;
    } else {
      StringBytesGrow(args, i - 1);
      StringBytesFrom(args, i - 1);
    }
  }

  /** The pointers, their terminator, argv and argc fit below the strings. */
  predicate Fits(args: seq<CString>) {
    && StringBytes(args) <= PAGE_SIZE
    && 4 * (|args| + 3) <= (PAGE_SIZE - StringBytes(args)) / 4 * 4
  }

  /** Arguments that fit the page. */
  type Args = args: seq<CString> | Fits(args) witness []

  // ---------- Where the loader stores ----------

  /** The offset of the i-th string, as if the buffer went on below its start. */
  function StringStore(args: seq<CString>, i: nat): int
    requires i < |args|
  {
    PAGE_SIZE - StringBytes(args[i..])
  }

  /** The offset of the k-th word stored below the strings: the null, the pointers, argv and argc. */
  function WordStore(args: seq<CString>, k: nat): int {
    (PAGE_SIZE - StringBytes(args)) / 4 * 4 - 4 * k
  }

  ghost predicate StoresAt(args: seq<CString>, off: int) {
    || (exists i: nat | i < |args| :: off == StringStore(args, i))
    || (exists k: nat | 1 <= k <= |args| + 3 :: off == WordStore(args, k))
  }

  /** Some store lands below the page buffer exactly when the arguments do not fit. */
  lemma StoresBelowIffNotFits(args: seq<CString>)
    ensures (exists off :: StoresAt(args, off) && off < 0) <==> !Fits(args)
  {
    var low := WordStore(args, |args| + 3);
    assert StoresAt(args, low);
    if Fits(args) {
      forall off | StoresAt(args, off)
        ensures off >= 0
      {
        if i: nat :| i < |args| && off == StringStore(args, i) {
          StringBytesGrow(args, i);
        } else {
          var k: nat :| 1 <= k <= |args| + 3 && off == WordStore(args, k);
        }
      }
    } else {
      assert low < 0;
    }
  }

  /** `sys_spawn` accepts this many arguments of up to 255 characters. */
  const MAX_ARGS: nat := 32

  lemma OneMore(n: nat, k: nat)
    ensures (n + 1) * k == n * k + k
  {
  }

  lemma {:induction false} StringBytesAtLeast(args: seq<CString>, k: nat)
    requires forall a <- args :: |a| >= k
    ensures StringBytes(args) >= |args| * (k + 1)
  {
    if args != [] {
      assert args[0] in args && forall a <- args[1..] :: a in args;
      StringBytesAtLeast(args[1..], k);
      OneMore(|args[1..]|, k + 1);
    }
  }

  /** Nothing between `sys_spawn` and the loader makes the arguments fit: for the longest list it accepts, a store
      lands below the buffer. */
  lemma LongestSpawnArgsDoNotFit(args: seq<CString>)
    requires |args| == MAX_ARGS && forall a <- args :: |a| == CStrings.MAX_PATH - 1
    ensures exists off :: StoresAt(args, off) && off < 0
  {
    StoresBelowIffNotFits(args);
    StringBytesAtLeast(args, CStrings.MAX_PATH - 1);
  }

  // ---------- What a reader finds ----------

  function WordAt(page: seq<byte>, off: nat): word
    requires off + 4 <= |page|
  {
    Le32(page[off..off + 4])
  }

  predicate StringAt(page: seq<byte>, p: word, s: CString) {
    && STACK_PAGE <= p && p - STACK_PAGE + |s| < |page|
    && page[p - STACK_PAGE..p - STACK_PAGE + |s|] == s
    && page[p - STACK_PAGE + |s|] == 0
  }

  /** argc at the stack pointer, argv above it, one pointer for each argument, and a null after the last. */
  predicate HoldsArgs(page: seq<byte>, esp: word, args: seq<CString>) {
    && |page| == PAGE_SIZE && STACK_PAGE <= esp && esp - STACK_PAGE + 8 <= PAGE_SIZE
    && WordAt(page, esp - STACK_PAGE) == |args|
    && var argv := WordAt(page, esp - STACK_PAGE + 4);
    && STACK_PAGE <= argv && argv - STACK_PAGE + 4 * (|args| + 1) <= PAGE_SIZE
    && (forall i | 0 <= i < |args| :: StringAt(page, WordAt(page, argv - STACK_PAGE + 4 * i), args[i]))
    && WordAt(page, argv - STACK_PAGE + 4 * |args|) == 0
  }

  // ---------- The argument page as a function of the arguments ----------

  /** The strings one after another, each with its NUL. */
  function StringBlock(args: seq<CString>): (b: seq<byte>)
    ensures |b| == StringBytes(args)
  {
    if args == [] then [] else args[0] + [0] + StringBlock(args[1..])
  }

  function StringAddress(args: seq<CString>, i: nat): word
    requires i < |args| && StringBytes(args) <= PAGE_SIZE
  {
    StringBytesGrow(args, i);
    STACK_PAGE + (PAGE_SIZE - StringBytes(args[i..]))
  }

  function Addresses(args: seq<CString>): (a: seq<word>)
    requires StringBytes(args) <= PAGE_SIZE
    ensures |a| == |args|
  {
    seq(|args|, i requires 0 <= i < |args| => StringAddress(args, i))
  }

  /** Where the stack pointer starts. */
  function InitialOffset(args: Args): (off: nat)
    ensures off + 4 * (|args| + 3) <= PAGE_SIZE
    ensures off == WordStore(args, |args| + 3)
  {
    (PAGE_SIZE - StringBytes(args)) / 4 * 4 - 4 * (|args| + 3)
  }

  /** argc, argv, the pointers and the null. */
  function Vector(args: Args): (ws: seq<word>)
    ensures |ws| == |args| + 3
  {
    [|args|, STACK_PAGE + (InitialOffset(args) + 8)] + (Addresses(args) + [0])
  }

  /** The whole page: zeros, the vector at the initial stack pointer, padding, and the strings at the top. */
  function ArgumentPage(args: Args): (page: seq<byte>)
    ensures |page| == PAGE_SIZE
  {
    Zeros(InitialOffset(args)) + (WordBytes(Vector(args)) + (Zeros(Padding(args)) + StringBlock(args)))
  }

  /** The bytes lost to aligning the pointers. */
  function Padding(args: Args): nat
  {
    (PAGE_SIZE - StringBytes(args)) % 4
  }

  lemma {:induction false} StringInBlock(args: seq<CString>, i: nat)
    requires i < |args|
    ensures StringBytes(args[i..]) <= StringBytes(args)
    ensures var k := StringBytes(args) - StringBytes(args[i..]);
            && k + |args[i]| < StringBytes(args)
            && StringBlock(args)[k..k + |args[i]|] == args[i] && StringBlock(args)[k + |args[i]|] == 0
  {
    hide StringBytes, StringBlock;
    var first, rest := args[0] + [0], StringBlock(args[1..]);
    assert args[0..] == args;
    StringBytesFrom(args, 0);
    StringBlockFrom(args, 0);
    if i == 0 {
      assert (first + rest)[..|args[0]|] == args[0];
    } else {
      StringInBlock(args[1..], i - 1);
      assert args[1..][i - 1..] == args[i..];
      var k := StringBytes(args[1..]) - StringBytes(args[i..]);
      SliceBehind(first, rest, k, k + |args[i]|);
    }
  }

  /** The page holds the arguments: the words and strings found from the stack pointer are the ones given. */
  lemma BlockHoldsArgs(args: Args)
    ensures HoldsArgs(ArgumentPage(args), STACK_PAGE + InitialOffset(args), args)
  {
    hide ArgumentPage, Vector, InitialOffset, WordAt, StringAt, StringBytes;
    var page, off, argv := ArgumentPage(args), InitialOffset(args), InitialOffset(args) + 8;
    VectorWords(args);
    VectorInBlock(args, 0);
    VectorInBlock(args, 1);
    VectorInBlock(args, |args| + 2);
    assert argv + 4 * |args| == off + 4 * (|args| + 2);
    forall i | 0 <= i < |args|
      ensures StringAt(page, WordAt(page, argv + 4 * i), args[i])
    {
      VectorInBlock(args, i + 2);
      assert argv + 4 * i == off + 4 * (i + 2);
      StringInPage(args, i);
    }
  }

  lemma VectorWords(args: Args)
    ensures var ws := Vector(args);
            && ws[0] == |args| && ws[1] == STACK_PAGE + (InitialOffset(args) + 8) && ws[|args| + 2] == 0
            && forall i | 0 <= i < |args| :: ws[i + 2] == StringAddress(args, i)
  {
    hide StringAddress;
  }

  lemma VectorInBlock(args: Args, j: nat)
    requires j < |args| + 3
    ensures WordAt(ArgumentPage(args), InitialOffset(args) + 4 * j) == Vector(args)[j]
  {
    hide InitialOffset, Vector, StringBlock, Padding, WordBytes;
    var off, ws := InitialOffset(args), Vector(args);
    var rest := Zeros(Padding(args)) + StringBlock(args);
    WordBytesAt(ws, j);
    SliceInside(Zeros(off), WordBytes(ws), rest, 4 * j, 4 * j + 4);
  }

  lemma SliceInside(a: seq<byte>, b: seq<byte>, c: seq<byte>, i: nat, j: nat)
    requires i <= j <= |b|
    ensures (a + (b + c))[|a| + i..|a| + j] == b[i..j]
  {
    SliceBehind(a, b + c, i, j);
    assert (b + c)[i..j] == b[i..j];
  }

  lemma StringsOnTop(args: Args)
    ensures StringBytes(args) <= PAGE_SIZE && ArgumentPage(args)[PAGE_SIZE - StringBytes(args)..] == StringBlock(args)
  {
    hide Vector, WordBytes, StringBlock;
    assert |Zeros(InitialOffset(args)) + (WordBytes(Vector(args)) + Zeros(Padding(args)))| == PAGE_SIZE - StringBytes(args);
    var front := Zeros(InitialOffset(args)) + (WordBytes(Vector(args)) + Zeros(Padding(args)));
    assert ArgumentPage(args) == front + StringBlock(args);
  }

  lemma StringInPage(args: Args, i: nat)
    requires i < |args|
    ensures StringAt(ArgumentPage(args), StringAddress(args, i), args[i])
  {
    StringInBlock(args, i);
    StringsOnTop(args);
    hide ArgumentPage, StringBlock, Fits, StringAt;
    var page, base, k := ArgumentPage(args), PAGE_SIZE - StringBytes(args), StringBytes(args) - StringBytes(args[i..]);
    assert StringAddress(args, i) == STACK_PAGE + (base + k);
    hide StringBytes, StringAddress;
    SliceOfSuffix(page, base, k, k + |args[i]|);
    assert page[base + k + |args[i]|] == page[base..][k + |args[i]|];
    StringAtOffset(page, base + k, args[i]);
  }

  lemma StringAtOffset(page: seq<byte>, at: nat, s: CString)
    requires at + |s| < |page| == PAGE_SIZE && page[at..at + |s|] == s && page[at + |s|] == 0
    ensures StringAt(page, STACK_PAGE + at, s)
  {
  }

  // ---------- Construction, from the highest address down ----------

  /** A store below everything stored so far. */
  method Push(page: array<byte>, off: nat, src: seq<byte>, ghost tail: seq<byte>)
    requires |src| <= off <= page.Length && page[..] == Zeros(off) + tail
    modifies page
    ensures page[..] == Zeros(off - |src|) + (src + tail)
  {
    var at := off - |src|;
    ghost var before := page[..];
    forall k | 0 <= k < |src| {
      page[at + k] := src[k];
    }
    assert page[..] == before[..at] + (src + before[off..]);
  }

  method PushStrings(page: array<byte>, args: seq<CString>) returns (vaddrs: seq<word>, off: nat)
    requires page.Length == PAGE_SIZE && page[..] == Zeros(PAGE_SIZE) && StringBytes(args) <= PAGE_SIZE
    modifies page
    ensures off == PAGE_SIZE - StringBytes(args) && vaddrs == Addresses(args)
    ensures page[..] == Zeros(off) + StringBlock(args)
  {
    hide StringBlock, StringBytes;
    vaddrs, off := seq(|args|, _ => 0), PAGE_SIZE;
    NoStrings(args);
    for i := |args| downto 0
      invariant off == PAGE_SIZE - StringBytes(args[i..]) && |vaddrs| == |args|
      invariant forall j | i <= j < |args| :: vaddrs[j] == StringAddress(args, j)
      invariant page[..] == Zeros(off) + StringBlock(args[i..])
    {
      StringBytesFrom(args, i);
      StringBytesGrow(args, i);
      StringBlockFrom(args, i);
      off := off - (|args[i]| + 1);
      Push(page, off + (|args[i]| + 1), args[i] + [0], StringBlock(args[i + 1..]));
      vaddrs := vaddrs[i := STACK_PAGE + off];
    }
    assert args[0..] == args;
  }

  lemma StringBlockFrom(args: seq<CString>, i: nat)
    requires i < |args|
    ensures StringBlock(args[i..]) == args[i] + [0] + StringBlock(args[i + 1..])
  {
    assert args[i..][1..] == args[i + 1..];
  }

  lemma NoStrings(args: seq<CString>)
    ensures StringBytes(args[|args|..]) == 0 && StringBlock(args[|args|..]) == []
    ensures Zeros(PAGE_SIZE) + [] == Zeros(PAGE_SIZE)
  {
  }

  lemma WordBytesFront(w: word, ws: seq<word>, tail: seq<byte>)
    ensures WordBytes([w] + ws) + tail == Bytes32(w) + (WordBytes(ws) + tail)
  {
    assert ([w] + ws)[1..] == ws;
  }

  method PushPointers(page: array<byte>, off: nat, vaddrs: seq<word>, ghost tail: seq<byte>)
    requires 4 * (|vaddrs| + 1) <= off <= page.Length && page[..] == Zeros(off) + tail
    modifies page
    ensures page[..] == Zeros(off - 4 * (|vaddrs| + 1)) + (WordBytes(vaddrs + [0]) + tail)
  {
    hide WordBytes;
    Push(page, off, Bytes32(0), tail);
    OneWord(0);
    assert vaddrs[|vaddrs|..] + [0] == [0];
    for i := |vaddrs| downto 0
      invariant page[..] == Zeros(off - 4 * (|vaddrs| - i + 1)) + (WordBytes(vaddrs[i..] + [0]) + tail)
    {
      var low := off - 4 * (|vaddrs| - i);
      Push(page, low, Bytes32(vaddrs[i]), WordBytes(vaddrs[i + 1..] + [0]) + tail);
      WordBytesFront(vaddrs[i], vaddrs[i + 1..] + [0], tail);
      assert [vaddrs[i]] + (vaddrs[i + 1..] + [0]) == vaddrs[i..] + [0];
    }
    assert vaddrs[0..] == vaddrs;
  }

  lemma OneWord(w: word)
    ensures WordBytes([w]) == Bytes32(w)
  {
  }

  lemma Layout(args: Args)
    ensures var off: nat := PAGE_SIZE - StringBytes(args);
            var top := off / 4 * 4;
            && StringBytes(args) <= PAGE_SIZE && off == top + Padding(args) && top == InitialOffset(args) + 4 * (|args| + 3)
  {
  }

  lemma ZerosJoin(a: nat, b: nat)
    ensures Zeros(a) + Zeros(b) == Zeros(a + b)
  {
  }

  /** Fills the top stack page and returns the initial stack pointer. */
  method BuildStack(args: Args) returns (page: array<byte>, esp: word)
    ensures fresh(page) && page.Length == PAGE_SIZE
    ensures page[..] == ArgumentPage(args) && esp == STACK_PAGE + InitialOffset(args)
    ensures HoldsArgs(page[..], esp, args)
  {
    hide HoldsArgs, StringBytes, StringBlock, WordBytes, Addresses, Fits, InitialOffset, Padding;
    Layout(args);
    page := new byte[PAGE_SIZE](_ => 0);
    assert page[..] == Zeros(PAGE_SIZE);
    var vaddrs, off := PushStrings(page, args);
    var top := off / 4 * 4;
    ghost var tail := Zeros(Padding(args)) + StringBlock(args);
    ZerosJoin(top, Padding(args));
    assert Zeros(top) + Zeros(Padding(args)) + StringBlock(args) == Zeros(top) + tail;
    PushVector(page, top, args, vaddrs, tail);
    BlockHoldsArgs(args);
    esp := STACK_PAGE + (top - 4 * (|args| + 3));
  }

  /** The pointers, argv and argc below them. */
  method PushVector(page: array<byte>, top: nat, args: Args, vaddrs: seq<word>, ghost tail: seq<byte>)
    requires top == InitialOffset(args) + 4 * (|args| + 3) <= PAGE_SIZE == page.Length
    requires StringBytes(args) <= PAGE_SIZE && vaddrs == Addresses(args) && page[..] == Zeros(top) + tail
    modifies page
    ensures page[..] == Zeros(InitialOffset(args)) + (WordBytes(Vector(args)) + tail)
  {
    hide StringBytes, WordBytes, Addresses, Fits, InitialOffset;
    PushPointers(page, top, vaddrs, tail);
    var off := top - 4 * (|vaddrs| + 1);
    Push(page, off, Bytes32(STACK_PAGE + off), WordBytes(vaddrs + [0]) + tail);
    WordBytesFront(STACK_PAGE + off, vaddrs + [0], tail);
    Push(page, off - 4, Bytes32(|args|), WordBytes([STACK_PAGE + off] + (vaddrs + [0])) + tail);
    WordBytesFront(|args|, [STACK_PAGE + off] + (vaddrs + [0]), tail);
    assert [|args|] + ([STACK_PAGE + off] + (vaddrs + [0])) == Vector(args);
  }
}
