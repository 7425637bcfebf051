/** Executables written in the ELF format: what the loader reads of them, and two that lose a byte. */
module Elf {
  import opened Words
  import opened Mmu
  import opened ArgStack
  import opened Loader
  import opened Program

  /** The file header as words; the table of program headers follows it. */
  function HeaderWords(entry: word, count: nat): (ws: seq<word>)
    requires count < 0x1_0000
    ensures |ws| == 13
  {
    [0x464c_457f, 0x1_0101, 0, 0, 0x3_0002, 1, entry, 52, 0, 0, 0x20_0034, count, 0]
  }

  function PhdrWords(p: Phdr): (ws: seq<word>)
    ensures |ws| == 8
  {
    [p.kind, p.offset, p.vaddr, 0, p.filesz, p.memsz, p.flags, 0]
  }

  function TableWords(phs: seq<Phdr>): (ws: seq<word>)
    ensures |ws| == 8 * |phs|
  {
    if phs == [] then [] else PhdrWords(phs[0]) + TableWords(phs[1..])
  }

  function AllWords(entry: word, phs: seq<Phdr>): (ws: seq<word>)
    requires |phs| < 0x1_0000
    ensures |ws| == 13 + 8 * |phs|
  {
    HeaderWords(entry, |phs|) + TableWords(phs)
  }

  function Bytes(entry: word, phs: seq<Phdr>, data: seq<byte>): (b: seq<byte>)
    requires |phs| < 0x1_0000
    ensures |b| == EHDR_SIZE + PHDR_SIZE * |phs| + |data|
  {
    WordBytes(AllWords(entry, phs)) + data
  }

  lemma {:induction false} TableWordsAt(phs: seq<Phdr>, i: nat, k: nat)
    requires i < |phs| && k < 8
    ensures TableWords(phs)[8 * i + k] == PhdrWords(phs[i])[k]
  {
    var first, rest := PhdrWords(phs[0]), TableWords(phs[1..]);
    if i > 0 {
      TableWordsAt(phs[1..], i - 1, k);
      assert (first + rest)[8 * i + k] == rest[8 * (i - 1) + k];
    }
  }

  /** A word of the file is the word written there, and so are its halves. */
  lemma ReadsWord(f: File, ws: seq<word>, data: seq<byte>, j: nat)
    requires f == WordBytes(ws) + data && j < |ws|
    ensures FileWord(f, 4 * j) == ws[j]
    ensures FileHalf(f, 4 * j) == ws[j] % 0x1_0000 && FileHalf(f, 4 * j + 2) == ws[j] / 0x1_0000
  {
    hide WordBytes, Bytes32, Le32, Le16, FileWord, FileHalf;
    WordBytesAt(ws, j);
    SliceOfFront(WordBytes(ws), data, 4 * j, 4 * j + 4);
    ReadsAt(f, 4 * j, ws[j]);
  }

  lemma ReadsAt(f: File, at: nat, w: word)
    requires at + 4 <= |f| && f[at..at + 4] == Bytes32(w)
    ensures FileWord(f, at) == w && FileHalf(f, at) == w % 0x1_0000 && FileHalf(f, at + 2) == w / 0x1_0000
  {
    hide Bytes32, Le16;
    HalvesOf(w);
    assert f[at..at + 2] == f[at..at + 4][..2] && f[at + 2..at + 4] == f[at..at + 4][2..];
  }

  lemma HalvesOf(w: word)
    ensures Le16(Bytes32(w)[..2]) == w % 0x1_0000 && Le16(Bytes32(w)[2..]) == w / 0x1_0000
  {
    var lo, hi := Bytes16(w % 0x1_0000), Bytes16(w / 0x1_0000);
    assert Bytes32(w)[..2] == lo && Bytes32(w)[2..] == hi;
  }

  lemma ReadsPhdr(f: File, entry: word, phs: seq<Phdr>, data: seq<byte>, i: nat)
    requires |phs| < 0x1_0000 && f == Bytes(entry, phs, data) && i < |phs|
    ensures PhdrAt(f, EHDR_SIZE + PHDR_SIZE * i) == phs[i]
  {
    hide Bytes, FileWord, TableWords;
    ReadsPhdrWord(f, entry, phs, data, i, 0);
    ReadsPhdrWord(f, entry, phs, data, i, 1);
    ReadsPhdrWord(f, entry, phs, data, i, 2);
    ReadsPhdrWord(f, entry, phs, data, i, 4);
    ReadsPhdrWord(f, entry, phs, data, i, 5);
    ReadsPhdrWord(f, entry, phs, data, i, 6);
  }

  lemma ReadsPhdrWord(f: File, entry: word, phs: seq<Phdr>, data: seq<byte>, i: nat, k: nat)
    requires |phs| < 0x1_0000 && f == Bytes(entry, phs, data) && i < |phs| && k < 8
    ensures FileWord(f, EHDR_SIZE + PHDR_SIZE * i + 4 * k) == PhdrWords(phs[i])[k]
  {
    hide WordBytes, FileWord, FileHalf;
    TableWordsAt(phs, i, k);
    ReadsWord(f, AllWords(entry, phs), data, 13 + 8 * i + k);
    assert 4 * (13 + 8 * i + k) == EHDR_SIZE + PHDR_SIZE * i + 4 * k;
  }

  /** The loader reads back what was written: the entry point, every program header, and so the segments. */
  lemma ReadsBack(f: File, entry: word, phs: seq<Phdr>, data: seq<byte>)
    requires |phs| < 0x1_0000 && f == Bytes(entry, phs, data)
    ensures GoodIdent(f) && Entry(f) == entry && Headers(f) == phs && Segments(f) == Loadable(phs)
    ensures Readable(f) <==> AllInside(Loadable(phs), f)
  {
    ReadsHeader(f, AllWords(entry, phs), data);
    HeaderFields(entry, phs);
    hide Bytes, FileWord, FileHalf, PhdrAt, Loadable, Phdr.Inside, AllWords, Phdr.Acceptable;
    forall i: nat | i < |phs|
      ensures PhdrOffset(f, i) == EHDR_SIZE + PHDR_SIZE * i && PhdrAt(f, PhdrOffset(f, i)) == phs[i]
    {
      ReadsPhdr(f, entry, phs, data, i);
    }
    assert Headers(f) == phs;
    hide PhdrOffset, Headers;
  }

  /** The program starts at the entry point that the file was written with, and its heap at the least page boundary at or
      above the memory end of every loadable segment. */
  ghost predicate StartsAsWritten(f: File, l: Loader.Loaded) {
    forall entry: word, phs, data | |phs| < 0x1_0000 && f == Bytes(entry, phs, data) ::
      l.entry == entry && LeastBoundary(l.heapStart, phs)
  }

  lemma StartIsAsWritten(f: File, l: Loader.Loaded)
    requires l.entry == Entry(f) && LeastBoundary(l.heapStart, Headers(f))
    ensures StartsAsWritten(f, l)
  {
    hide Bytes, LeastBoundary, Headers, Entry, Readable, Segments, GoodIdent;
    forall entry: word, phs, data | |phs| < 0x1_0000 && f == Bytes(entry, phs, data)
      ensures l.entry == entry && LeastBoundary(l.heapStart, phs)
    {
      ReadsBack(f, entry, phs, data);
    }
  }

  lemma HeaderFields(entry: word, phs: seq<Phdr>)
    requires |phs| < 0x1_0000
    ensures var ws := AllWords(entry, phs);
            && ws[0] == ELF_MAGIC && ws[4] % 0x1_0000 == ET_EXEC && ws[6] == entry && ws[7] == EHDR_SIZE
            && ws[10] / 0x1_0000 == PHDR_SIZE && ws[11] % 0x1_0000 == |phs|
  {
    var h := HeaderWords(entry, |phs|);
    assert forall i | 0 <= i < 13 :: AllWords(entry, phs)[i] == h[i];
  }

  lemma ReadsHeader(f: File, ws: seq<word>, data: seq<byte>)
    requires f == WordBytes(ws) + data && |ws| >= 13
    ensures FileWord(f, 0) == ws[0] && FileHalf(f, 16) == ws[4] % 0x1_0000 && FileWord(f, 24) == ws[6]
    ensures FileWord(f, 28) == ws[7] && FileHalf(f, 42) == ws[10] / 0x1_0000 && FileHalf(f, 44) == ws[11] % 0x1_0000
  {
    hide WordBytes, FileWord, FileHalf;
    ReadsWord(f, ws, data, 0);
    ReadsWord(f, ws, data, 4);
    ReadsWord(f, ws, data, 6);
    ReadsWord(f, ws, data, 7);
    ReadsWord(f, ws, data, 10);
    ReadsWord(f, ws, data, 11);
  }

  // ---------- Executables that lose a byte ----------

  /** One byte of the file at an address of its own page, or of another segment's. */
  function OneByte(offset: word, vaddr: word): Phdr {
    Phdr(1, offset, vaddr, 1, 1, 0)
  }

  const SHARED: seq<Phdr> := [OneByte(116, 0x40_0000), OneByte(117, 0x40_0800)]

  /** Two segments on one page: the later one's page replaces the earlier one's, whose byte is lost. */
  lemma SharedPageLosesAByte(f: File, args: Args)
    requires f == Bytes(0x40_0000, SHARED, [7, 9])
    ensures GoodIdent(f) && Readable(f) && Segments(f) == SHARED && AllAcceptable(SHARED) && AllInRange(SHARED)
    ensures SHARED[0].Inside(f) && SpecByte(SHARED[0], f, 0x40_0000) == 7
    ensures SHARED[1].Covers(0x40_0000 / PAGE_SIZE) && FinalByte(SHARED, f, args, 0x40_0000) == 0
    ensures !LastAgrees(SHARED, f, args)
  {
    hide Bytes, Loadable, ArgumentPage, GoodIdent, Readable, Segments, AllAcceptable, AllInRange, FinalByte, LastAgrees;
    SharedFile(f);
    SharedIsAcceptable();
    LaterSegmentWins(f, args);
  }

  lemma SharedFile(f: File)
    requires f == Bytes(0x40_0000, SHARED, [7, 9])
    ensures GoodIdent(f) && Readable(f) && Segments(f) == SHARED && |f| == 118 && f[116] == 7
  {
    hide Bytes, Loadable, GoodIdent, Readable, Segments;
    BothLoadable(SHARED[0], SHARED[1]);
    ReadsBack(f, 0x40_0000, SHARED, [7, 9]);
    DataByte(f, 0x40_0000, SHARED, [7, 9], 0);
  }

  lemma DataByte(f: File, entry: word, phs: seq<Phdr>, data: seq<byte>, k: nat)
    requires |phs| < 0x1_0000 && f == Bytes(entry, phs, data) && k < |data|
    ensures f[EHDR_SIZE + PHDR_SIZE * |phs| + k] == data[k]
  {
    hide WordBytes, AllWords;
  }

  lemma SharedIsAcceptable()
    ensures AllAcceptable(SHARED) && AllInRange(SHARED)
  {
  }

  lemma LaterSegmentWins(f: File, args: Args)
    requires |f| == 118 && f[116] == 7
    ensures SHARED[1].Covers(0x40_0000 / PAGE_SIZE) && FinalByte(SHARED, f, args, 0x40_0000) == 0
    ensures !LastAgrees(SHARED, f, args)
  {
    hide ArgumentPage;
    assert SHARED[1].Covers(0x400) && SHARED[0].Covers(0x40_0000 / PAGE_SIZE);
    assert Owner(SHARED, 0x400) == 1;
    assert FinalByte(SHARED, f, args, 0x40_0000) == SegmentByte(SHARED[1], f, 0x40_0000) == 0;
    assert HasAddress(SHARED[0], 0x40_0000) && SegmentByte(SHARED[0], f, 0x40_0000) == 7;
  }

  lemma BothLoadable(a: Phdr, b: Phdr)
    requires a.kind == PT_LOAD && b.kind == PT_LOAD
    ensures Loadable([a, b]) == [a, b]
  {
    OneLoadable(a);
    assert [a, b][..1] == [a];
  }

  lemma OneLoadable(a: Phdr)
    requires a.kind == PT_LOAD
    ensures Loadable([a]) == [a]
  {
    assert [a][..0] == [];
  }

  /** A segment at the bottom of the upper stack page: its byte is lost to the argument page, unless the arguments
      fill that page to the last byte. */
  lemma StackLosesAByte(f: File, args: Args)
    requires f == Bytes(STACK_PAGE, [OneByte(84, STACK_PAGE)], [7]) && InitialOffset(args) > 0
    ensures var segs := [OneByte(84, STACK_PAGE)];
            && GoodIdent(f) && Readable(f) && Segments(f) == segs && AllAcceptable(segs) && AllInRange(segs)
            && SpecByte(segs[0], f, STACK_PAGE) == 7 && FinalByte(segs, f, args, STACK_PAGE) == 0
            && !LastAgrees(segs, f, args)
  {
    var segs := [OneByte(84, STACK_PAGE)];
    OneLoadable(segs[0]);
    ReadsBack(f, STACK_PAGE, segs, [7]);
    DataByte(f, STACK_PAGE, segs, [7], 0);
    FirstByteOfBlock(args);
    hide Bytes, Loadable, ArgumentPage, InitialOffset;
    assert HasAddress(segs[0], STACK_PAGE) && segs[0].Covers(STACK_PAGE / PAGE_SIZE);
    assert SegmentByte(segs[0], f, STACK_PAGE) == 7;
    StackPageReplacesSegment(segs, f, args, 0, STACK_PAGE);
  }

  lemma FirstByteOfBlock(args: Args)
    requires InitialOffset(args) > 0
    ensures ArgumentPage(args)[0] == 0
  {
    assert ArgumentPage(args)[0] == Zeros(InitialOffset(args))[0];
  }
}
