/** The ustar archive in memory: octal fields, path building and the walk over its headers. */
module Ustar {
  import opened CStrings
  import opened Division
  import opened Words
  import opened Wrappers

  const BLOCK: nat := 512

  // ---------- Octal numbers ----------

  predicate IsOctal(c: char) {
    '0' <= c <= '7'
  }

  function Digit(c: char): (d: nat)
    requires IsOctal(c)
    ensures d < 8
  {
    c as int - '0' as int
  }

  /** The leading octal digits of `s`, appended to `acc`, as an unbounded number. */
  function OctalValue(acc: nat, s: seq<char>): nat
    decreases |s|
  {
    if s == [] || !IsOctal(s[0]) then acc
    else OctalValue(acc * 8 + Digit(s[0]), s[1..])
  }

  /** `n` with exactly `width` octal digits. */
  function Octal(n: nat, width: nat): (s: seq<char>)
    ensures |s| == width && forall c <- s :: IsOctal(c)
  {
    if width == 0 then [] else Octal(n / 8, width - 1) + ['0' + (n % 8) as char]
  }

  function Pow8(k: nat): (p: nat)
    ensures p > 0
  {
    if k == 0 then 1 else 8 * Pow8(k - 1)
  }

  lemma {:induction false} OctalValueAppends(acc: nat, digits: seq<char>, d: char)
    requires (forall c <- digits :: IsOctal(c)) && IsOctal(d)
    ensures OctalValue(acc, digits + [d]) == OctalValue(acc, digits) * 8 + Digit(d)
    decreases |digits|
  {
    if digits != [] {
      assert (digits + [d])[1..] == digits[1..] + [d];
      OctalValueAppends(acc * 8 + Digit(digits[0]), digits[1..], d);
    } else {
      assert digits + [d] == [d] && [d][1..] == [];
    }
  }

  lemma {:induction false} OctalValueStops(acc: nat, digits: seq<char>, more: seq<char>)
    requires (forall c <- digits :: IsOctal(c)) && (more == [] || !IsOctal(more[0]))
    ensures OctalValue(acc, digits + more) == OctalValue(acc, digits)
    decreases |digits|
  {
    if digits != [] {
      assert (digits + more)[1..] == digits[1..] + more;
      OctalValueStops(acc * 8 + Digit(digits[0]), digits[1..], more);
    } else {
      assert digits + more == more;
    }
  }

  lemma {:induction false} OctalRoundTrip(n: nat, width: nat)
    requires n < Pow8(width)
    ensures OctalValue(0, Octal(n, width)) == n
  {
    if width > 0 {
      OctalRoundTrip(n / 8, width - 1);
      OctalValueAppends(0, Octal(n / 8, width - 1), '0' + (n % 8) as char);
    }
  }

  /** `oct2int`: the shift and or work on 32 bits, so digits shifted out at the top are lost. */
  method Oct2Int(str: seq<char>) returns (val: nat)
    ensures val == OctalValue(0, str) % WORD_LIMIT
  {
    val := 0;
    var i := 0;
    ghost var exact: nat := 0;
    while i < |str|
      invariant i <= |str| && val == exact % WORD_LIMIT
      invariant OctalValue(0, str) == OctalValue(exact, str[i..])
    {
      if !IsOctal(str[i]) {
        break;
      }
      var d := Digit(str[i]);
      ShiftLosesTop(exact, d);
      val := val * 8 % WORD_LIMIT + d;
      exact := exact * 8 + d;
      assert str[i..][1..] == str[i + 1..];
      i := i + 1;
    }
  }

  lemma ShiftLosesTop(n: nat, d: nat)
    requires d < 8
    ensures (n % WORD_LIMIT) * 8 % WORD_LIMIT + d == (n * 8 + d) % WORD_LIMIT
  {
    var q, r := n / WORD_LIMIT, n % WORD_LIMIT;
    var lost, kept := r * 8 / WORD_LIMIT, r * 8 % WORD_LIMIT;
    assert kept == 8 * (r - lost * (WORD_LIMIT / 8));
    Quotient(n * 8 + d, WORD_LIMIT, q * 8 + lost, kept + d);
  }

  /** Decoding an octal field inverts encoding modulo 2^32, hence exactly below 2^32. */
  lemma FieldRoundTrip(n: nat, width: nat, more: seq<char>)
    requires n < Pow8(width) && (more == [] || !IsOctal(more[0]))
    ensures OctalValue(0, Octal(n, width) + more) % WORD_LIMIT == n <==> n < WORD_LIMIT
    ensures OctalValue(0, Octal(n, width) + more) % WORD_LIMIT == n % WORD_LIMIT
  {
    OctalRoundTrip(n, width);
    OctalValueStops(0, Octal(n, width), more);
  }

  // ---------- Headers ----------

  /** The initrd: `bytes` mapped at `addr`. */
  datatype Image = Image(addr: nat, bytes: seq<char>) {

    predicate IsHeader(p: nat) {
      p + BLOCK <= |bytes| && bytes[p] != NUL && bytes[p + 257..p + 262] == "ustar"
    }

    function Name(p: nat): string
      requires IsHeader(p)
    {
      Text(bytes[p..p + 100])
    }

    function Prefix(p: nat): string
      requires IsHeader(p)
    {
      Text(bytes[p + 345..p + 500])
    }

    /** Without a prefix the copy does not stop at the end of the name field. */
    function LongName(p: nat): string
      requires IsHeader(p)
    {
      Text(bytes[p..p + 255])
    }

    function Path(p: nat): string
      requires IsHeader(p)
    {
      DropSlash(if Prefix(p) == [] then LongName(p) else Prefix(p) + "/" + Name(p))
    }

    function Size(p: nat): nat
      requires IsHeader(p)
    {
      OctalValue(0, bytes[p + 124..p + 136]) % WORD_LIMIT
    }

    function Typeflag(p: nat): char
      requires IsHeader(p)
    {
      bytes[p + 156]
    }

    /** The path with its terminator fits the 256 character buffer. */
    predicate PathFits(p: nat)
      requires IsHeader(p)
    {
      Prefix(p) == [] || |Prefix(p)| + 1 + |Name(p)| < MAX_PATH
    }

    /** Where the next header is looked for, before the pointer wraps. */
    function Next(p: nat): (q: nat)
      requires IsHeader(p)
      ensures q >= p + BLOCK
    {
      p + BLOCK + RoundUp(Size(p))
    }

    /** The next pointer and the bound check on it stay within 32 bits. */
    predicate NoWrap(p: nat)
      requires IsHeader(p)
    {
      addr + Next(p) + BLOCK < WORD_LIMIT
    }

    /** The walk from `p` never wraps and every path it builds fits its buffer. */
    predicate Walkable(p: nat)
      decreases |bytes| - p
    {
      IsHeader(p) ==> PathFits(p) && NoWrap(p) && Walkable(Next(p))
    }

    /** The archive's entries from offset `p`. */
    function Entries(p: nat): seq<Entry>
      decreases |bytes| - p
    {
      if !IsHeader(p) then []
      else [Entry(p, Path(p), Size(p), Typeflag(p))] + Entries(Next(p))
    }
  }

  /** A header's offset and what the walkers take from it. */
  datatype Entry = Entry(at: nat, path: string, size: nat, typeflag: char)

  function DropSlash(s: string): string {
    if |s| > 1 && s[|s| - 1] == '/' then s[..|s| - 1] else s
  }

  /** `(size + 511) & ~511` on 32 bits. */
  function RoundUp(size: nat): (r: nat)
    ensures size + 511 < WORD_LIMIT ==> size <= r
  {
    (size + 511) % WORD_LIMIT / BLOCK * BLOCK
  }

  /** A size is rounded up to the next multiple of 512; in the last block below 2^32 it wraps to 0. */
  lemma RoundUpIsNextMultiple(size: word)
    ensures var r := RoundUp(size);
            r % 512 == 0 && if size <= 0xffff_fe00 then size <= r < size + 512 else r == 0
  {
  }

  /** On 32-bit pointers the walk moves forward exactly when the step does not wrap. */
  lemma StepAdvancesIffNoWrap(img: Image, p: nat)
    requires img.IsHeader(p) && img.addr + p < WORD_LIMIT
    ensures img.addr + p < (img.addr + img.Next(p)) % WORD_LIMIT <==> img.addr + img.Next(p) < WORD_LIMIT
  {
    assert img.Next(p) - p <= WORD_LIMIT;
    if img.addr + img.Next(p) >= WORD_LIMIT {
      assert (img.addr + img.Next(p)) % WORD_LIMIT == img.addr + img.Next(p) - WORD_LIMIT;
    }
  }

  /** The path is the standard's `prefix/name` exactly when a full-length name is not run over: without a prefix,
      the name field holds a NUL or the mode field starts with one. */
  lemma PathIsPrefixAndName(img: Image, p: nat)
    requires img.IsHeader(p)
    ensures (if img.Prefix(p) == [] then img.LongName(p) else img.Prefix(p) + "/" + img.Name(p))
            == (if img.Prefix(p) == [] then img.Name(p) else img.Prefix(p) + "/" + img.Name(p))
            <==> img.Prefix(p) != [] || NUL in img.bytes[p..p + 101]
  {
    var name, long := img.bytes[p..p + 100], img.bytes[p..p + 255];
    assert img.bytes[p..p + 101] == long[..101] && name == long[..100];
    if NUL in long[..101] {
      TextEndsInside(long[..101]);
      TextIs(long, Text(long[..101]));
      TextIs(name, Text(long[..101]));
    }
  }

  /** A header block of which only the fields before the checksum's and the magic are filled. */
  function PlainHeader(front: seq<char>, size: seq<char>): (h: seq<char>)
    requires |front| == 124 && |size| == 12
    ensures |h| == BLOCK && h[..124] == front && h[124..136] == size && h[257..262] == "ustar" && h[345] == NUL
  {
    front + size + seq(121, _ => NUL) + "ustar" + seq(250, _ => NUL)
  }

  /** A name that fills its field runs on into the mode field. */
  lemma FullNameRunsOn(addr: nat, mode: char)
    requires mode != NUL
    ensures var name: seq<char> := seq(100, _ => 'a');
            var img := Image(addr, PlainHeader(name + [mode] + seq(23, _ => NUL), seq(12, _ => '0')));
            img.IsHeader(0) && img.Prefix(0) == [] && img.LongName(0) != img.Name(0)
  {
    var name: seq<char> := seq(100, _ => 'a');
    var front := name + [mode] + seq(23, _ => NUL);
    var img := Image(addr, PlainHeader(front, seq(12, _ => '0')));
    assert img.bytes[0] == img.bytes[..124][0];
    assert img.bytes[0..101] == img.bytes[..124][..101] == name + [mode];
    assert img.bytes[345..500][0] == NUL;
    PathIsPrefixAndName(img, 0);
  }

  /** A size field of 2^32 - 512 sends the walk back to the header it is at. */
  lemma WalkStaysAtHeader(addr: nat)
    requires addr < WORD_LIMIT
    ensures var size := Octal(WORD_LIMIT - BLOCK, 11) + [NUL];
            var img := Image(addr, PlainHeader(seq(124, _ => 'a'), size));
            img.IsHeader(0) && (img.addr + img.Next(0)) % WORD_LIMIT == img.addr
  {
    var size := Octal(WORD_LIMIT - BLOCK, 11) + [NUL];
    var img := Image(addr, PlainHeader(seq(124, _ => 'a'), size));
    assert Pow8(5) == 0x8000;
    assert Pow8(11) == 0x40000 * Pow8(5);
    FieldRoundTrip(WORD_LIMIT - BLOCK, 11, [NUL]);
    assert img.bytes[0] == img.bytes[..124][0];
    hide Octal, OctalValue, PlainHeader;
    assert img.Next(0) == WORD_LIMIT;
  }

  // ---------- Building a path ----------

  /** Fills the local `fullpath` buffer from the header at `p`. */
  method BuildPath(img: Image, p: nat, fullpath: array<char>)
    requires img.IsHeader(p) && img.PathFits(p) && fullpath.Length == MAX_PATH
    modifies fullpath
    ensures Terminated(fullpath[..]) && Text(fullpath[..]) == img.Path(p)
  {
    hide Text;
    if img.bytes[p + 345] != NUL {
      JoinPrefix(img, p, fullpath);
    } else {
      Strncpy(fullpath, img.bytes[p..p + 255], 255);
      fullpath[255] := NUL;
      ghost var path := img.LongName(p);
      assert fullpath[..] == Padded(path, 255) + [NUL];
      TextOfPadded(path, 255, [NUL]);
      assert fullpath[|path|] == (Padded(path, 255) + [NUL])[|path|];
      assert img.Prefix(p) == [] by {
        TextIs(img.bytes[p + 345..p + 500], []);
      }
      var nlen := Strnlen(fullpath[..], 255);
      CutSlash(fullpath, path, nlen);
    }
  }

  method JoinPrefix(img: Image, p: nat, fullpath: array<char>)
    requires img.IsHeader(p) && img.PathFits(p) && fullpath.Length == MAX_PATH && img.bytes[p + 345] != NUL
    modifies fullpath
    ensures Terminated(fullpath[..]) && Text(fullpath[..]) == img.Path(p)
  {
    hide Text, DropSlash;
    var prefix, name := img.bytes[p + 345..p + 500], img.bytes[p..p + 100];
    var plen := Strnlen(prefix, 155);
    var nlen := Strnlen(name, 100);
    assert prefix[..plen] == img.Prefix(p) && name[..nlen] == img.Name(p);
    PrefixNotEmpty(img, p);
    NoNulInPath(img.Prefix(p), img.Name(p));
    CopyPath(fullpath, prefix[..plen], name[..nlen]);
    CutSlash(fullpath, img.Prefix(p) + "/" + img.Name(p), plen + 1 + nlen);
  }

  lemma PrefixNotEmpty(img: Image, p: nat)
    requires img.IsHeader(p) && img.bytes[p + 345] != NUL
    ensures img.Prefix(p) != []
  {
  }

  /** The copies one after another. */
  method CopyPath(fullpath: array<char>, prefix: string, name: string)
    requires |prefix| + 1 + |name| < fullpath.Length
    modifies fullpath
    ensures fullpath[..|prefix| + 1 + |name| + 1] == prefix + "/" + name + [NUL]
  {
    CopyChars(fullpath, 0, prefix, []);
    assert [] + prefix == prefix;
    CopyChars(fullpath, |prefix|, "/", prefix);
    CopyChars(fullpath, |prefix| + 1, name, prefix + "/");
    CopyChars(fullpath, |prefix| + 1 + |name|, [NUL], prefix + "/" + name);
  }

  lemma NoNulInPath(prefix: string, name: string)
    requires NUL !in prefix && NUL !in name
    ensures NUL !in prefix + "/" + name
  {
  }

  /** `memcpy` into the buffer; a store of one character is the same with one. */
  method CopyChars(buf: array<char>, at: nat, src: seq<char>, ghost before: seq<char>)
    requires at + |src| <= buf.Length && buf[..at] == before
    modifies buf
    ensures buf[..at + |src|] == before + src
  {
    forall k | 0 <= k < |src| {
      buf[at + k] := src[k];
    }
  }

  /** The buffer without one trailing slash. */
  method CutSlash(fullpath: array<char>, ghost path: string, total: nat)
    requires fullpath.Length == MAX_PATH && total == |path| < MAX_PATH && NUL !in path
    requires fullpath[..total + 1] == path + [NUL]
    modifies fullpath
    ensures Terminated(fullpath[..]) && Text(fullpath[..]) == DropSlash(path)
  {
    assert fullpath[..total] == fullpath[..total + 1][..total] == path && fullpath[total] == (path + [NUL])[total];
    if total > 1 && fullpath[total - 1] == '/' {
      fullpath[total - 1] := NUL;
    }
    assert fullpath[..][|DropSlash(path)|] == NUL;
    TextIs(fullpath[..], DropSlash(path));
  }

  // ---------- initrd_lookup ----------

  /** The first entry with a given path. */
  function FirstWith(es: seq<Entry>, path: string): (r: Option<Entry>)
    ensures r.Some? ==> r.value in es && r.value.path == path
    ensures r.None? ==> forall e <- es :: e.path != path
  {
    if es == [] then None
    else if es[0].path == path then Some(es[0])
    else FirstWith(es[1..], path)
  }

  lemma FirstWithStep(img: Image, p: nat, path: string)
    ensures FirstWith(img.Entries(p), path)
            == if !img.IsHeader(p) then None
               else if img.Path(p) == path then Some(Entry(p, path, img.Size(p), img.Typeflag(p)))
               else FirstWith(img.Entries(img.Next(p)), path)
  {
  }

  lemma WalkStep(img: Image, p: nat)
    requires img.Walkable(p) && img.IsHeader(p)
    ensures img.PathFits(p) && img.NoWrap(p) && img.Walkable(img.Next(p))
  {
  }

  method Lookup(img: Image, filepath: string) returns (r: Option<Entry>)
    requires img.Walkable(0) && NUL !in filepath
    ensures r == FirstWith(img.Entries(0), filepath)
  {
    hide Text, OctalValue, FirstWith, Image.Walkable, Image.Entries, Image.Path, Image.PathFits, Image.NoWrap;
    var p := 0;
    while p + BLOCK <= |img.bytes|
      invariant img.Walkable(p)
      invariant FirstWith(img.Entries(0), filepath) == FirstWith(img.Entries(p), filepath)
      decreases |img.bytes| - p
    {
      FirstWithStep(img, p, filepath);
      if img.bytes[p] == NUL {
        break;
      }
      if img.bytes[p + 257..p + 262] != "ustar" {
        break;
      }
      WalkStep(img, p);
      var fullpath := new char[MAX_PATH];
      BuildPath(img, p, fullpath);
      var filesize := Oct2Int(img.bytes[p + 124..p + 136]);
      TextIs(filepath + [NUL], filepath);
      var order := Strcmp(fullpath[..], filepath + [NUL]);
      if order == 0 {
        return Some(Entry(p, filepath, filesize, img.bytes[p + 156]));
      }
      p := p + BLOCK + (filesize + 511) % WORD_LIMIT / BLOCK * BLOCK;
    }
    FirstWithStep(img, p, filepath);
    return None;
  }
}
