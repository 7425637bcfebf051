/** Machine words, bytes and 4 KiB pages as the i686 kernel sees them. */
module Words {
  const PAGE_SIZE: nat := 0x1000
  const WORDS_PER_PAGE: nat := 1024
  const WORD_LIMIT: nat := 0x1_0000_0000

  type byte = x: int | 0 <= x < 0x100
  type word = x: int | 0 <= x < 0x1_0000_0000

  /** A call either returns a value or ends in `panic`, which never returns. */
  datatype Outcome<+T> = Done(value: T) | Panic

  /** 32-bit addition wraps. */
  function Add32(a: word, b: word): word {
    (a + b) % WORD_LIMIT
  }

  /** 32-bit subtraction wraps. */
  function Sub32(a: word, b: word): word {
    (a - b) % WORD_LIMIT
  }

  /** The address with its low twelve bits cleared (`x & ~0xfff`). */
  function PageBase(a: word): word {
    a / PAGE_SIZE * PAGE_SIZE
  }

  /** A little-endian 16-bit load. */
  function Le16(b: seq<byte>): (w: nat)
    requires |b| == 2
    ensures w < 0x1_0000
  {
    (b[0] as int) + 0x100 * (b[1] as int)
  }

  /** A little-endian 32-bit load. */
  function Le32(b: seq<byte>): word
    requires |b| == 4
  {
    Le16(b[..2]) + 0x1_0000 * Le16(b[2..])
  }

  function Bytes16(w: nat): (b: seq<byte>)
    requires w < 0x1_0000
    ensures |b| == 2 && Le16(b) == w
  {
    [w % 0x100, w / 0x100]
  }

  /** A little-endian 32-bit store. */
  function Bytes32(w: word): (b: seq<byte>)
    ensures |b| == 4 && Le32(b) == w
  {
    var lo, hi := Bytes16(w % 0x1_0000), Bytes16(w / 0x1_0000);
    assert (lo + hi)[..2] == lo && (lo + hi)[2..] == hi;
    lo + hi
  }

  lemma Bytes16OfLe16(b: seq<byte>)
    requires |b| == 2
    ensures Bytes16(Le16(b)) == b
  {
  }

  lemma Bytes32OfLe32(b: seq<byte>)
    requires |b| == 4
    ensures Bytes32(Le32(b)) == b
  {
    var lo, hi := Le16(b[..2]), Le16(b[2..]);
    assert (lo + 0x1_0000 * hi) % 0x1_0000 == lo && (lo + 0x1_0000 * hi) / 0x1_0000 == hi;
    Bytes16OfLe16(b[..2]);
    Bytes16OfLe16(b[2..]);
    assert b == b[..2] + b[2..];
  }

  type Page = p: seq<word> | |p| == WORDS_PER_PAGE witness seq(WORDS_PER_PAGE, _ => 0)

  function ZeroPage(): (p: Page)
    ensures forall i | 0 <= i < WORDS_PER_PAGE :: p[i] == 0
  {
    seq(WORDS_PER_PAGE, _ => 0)
  }

  function PageByte(p: Page, k: nat): byte
    requires k < PAGE_SIZE
  {
    Bytes32(p[k / 4])[k % 4]
  }

  /** The byte view of a page of words. */
  function PageBytes(p: Page): (b: seq<byte>)
    ensures |b| == PAGE_SIZE
    ensures forall k: nat | k < PAGE_SIZE :: b[k] == PageByte(p, k)
  {
    seq(PAGE_SIZE, k requires 0 <= k < PAGE_SIZE => PageByte(p, k))
  }

  /** The word view of a page of bytes. */
  function PageOfBytes(b: seq<byte>): (p: Page)
    requires |b| == PAGE_SIZE
  {
    seq(WORDS_PER_PAGE, i requires 0 <= i < WORDS_PER_PAGE => Le32(b[4 * i..4 * i + 4]))
  }

  /** Storing bytes and loading them back gives the same bytes. */
  lemma PageBytesRoundTrip(b: seq<byte>)
    requires |b| == PAGE_SIZE
    ensures PageBytes(PageOfBytes(b)) == b
  {
    forall k: nat | k < PAGE_SIZE
      ensures PageByte(PageOfBytes(b), k) == b[k]
    {
      var q := b[4 * (k / 4)..4 * (k / 4) + 4];
      Bytes32OfLe32(q);
      assert q[k % 4] == b[k];
    }
  }

  function Zeros(n: nat): (z: seq<byte>)
    ensures |z| == n && forall k | 0 <= k < n :: z[k] == 0
  {
    seq<byte>(n, _ => 0)
  }

  /** Words stored one after another. */
  function WordBytes(ws: seq<word>): (b: seq<byte>)
    ensures |b| == 4 * |ws|
  {
    if ws == [] then [] else Bytes32(ws[0]) + WordBytes(ws[1..])
  }

  lemma {:induction false} WordBytesAt(ws: seq<word>, j: nat)
    requires j < |ws|
    ensures WordBytes(ws)[4 * j..4 * j + 4] == Bytes32(ws[j])
  {
    var first, rest := Bytes32(ws[0]), WordBytes(ws[1..]);
    assert WordBytes(ws) == first + rest;
    if j == 0 {
      assert (first + rest)[..4] == first;
    } else {
      WordBytesAt(ws[1..], j - 1);
      hide WordBytes, Bytes32;
      SliceBehind(first, rest, 4 * (j - 1), 4 * (j - 1) + 4);
    }
  }

  lemma SliceBehind<T>(a: seq<T>, b: seq<T>, i: nat, j: nat)
    requires i <= j <= |b|
    ensures (a + b)[|a| + i..|a| + j] == b[i..j]
  {
  }

  lemma SliceOfFront<T>(a: seq<T>, b: seq<T>, i: nat, j: nat)
    requires i <= j <= |a|
    ensures (a + b)[i..j] == a[i..j]
  {
  }

  lemma SliceOfSuffix<T>(s: seq<T>, base: nat, i: nat, j: nat)
    requires i <= j && base + j <= |s|
    ensures s[base..][i..j] == s[base + i..base + j]
  {
  }

  /** `dst` with `src` copied over it from index `off`. */
  function Splice<T>(dst: seq<T>, off: nat, src: seq<T>): (r: seq<T>)
    requires off + |src| <= |dst|
    ensures |r| == |dst|
    ensures forall k | 0 <= k < |dst| :: r[k] == if off <= k < off + |src| then src[k - off] else dst[k]
  {
    dst[..off] + src + dst[off + |src|..]
  }
}
