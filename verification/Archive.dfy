/** The ustar interchange format as a writer produces it, and its round trip through the kernel's reader. */
module Archive {
  import opened CStrings
  import opened Ustar
  import opened Words

  /** A file to archive; the fields the kernel ignores hold anything. */
  datatype Member = Member(prefix: string, name: string, typeflag: char, data: seq<char>,
                           mode: seq<char>, owner: seq<char>, stamp: seq<char>, link: seq<char>,
                           ids: seq<char>, pad: seq<char>) {

    /** What the format allows, less what the reader does not support: a full-length name needs a prefix before it
        or a NUL after it, and a path with its terminator has 256 characters at most. */
    predicate Writable() {
      && 0 < |name| <= 100 && NUL !in name && |prefix| <= 155 && NUL !in prefix
      && |mode| == 8 && |owner| == 16 && |stamp| == 20 && |link| == 100 && |ids| == 83 && |pad| == 12
      && (|name| < 100 || prefix != [] || mode[0] == NUL)
      && (prefix == [] || |prefix| + 1 + |name| < MAX_PATH)
      && |data| + 511 < WORD_LIMIT
    }

    /** Prefix and name; a directory's path is written with a slash at the end, which is not part of it. */
    function Path(): string {
      var full := if prefix == [] then name else prefix + "/" + name;
      if |full| > 1 && full[|full| - 1] == '/' then full[..|full| - 1] else full
    }

    function SizeField(): (s: seq<char>)
      ensures |s| == 12
    {
      Octal(|data|, 11) + [NUL]
    }

    function Header(): (h: seq<char>)
      requires Writable()
      ensures |h| == BLOCK
    {
      Padded(name, 100) + (mode + owner) + SizeField() + stamp + [typeflag] + link + "ustar" + ids
      + Padded(prefix, 155) + pad
    }

    function Block(): (b: seq<char>)
      requires Writable()
      ensures |b| == BLOCK + RoundUp(|data|)
    {
      Header() + data + seq(RoundUp(|data|) - |data|, _ => NUL)
    }
  }

  predicate AllWritable(ms: seq<Member>) {
    forall m <- ms :: m.Writable()
  }

  /** The blocks of all members. */
  function Written(ms: seq<Member>): seq<char>
    requires AllWritable(ms)
  {
    if ms == [] then [] else ms[0].Block() + Written(ms[1..])
  }

  /** The entries of members whose first header is at offset `p`. */
  function Listed(ms: seq<Member>, p: nat): seq<Entry> {
    if ms == [] then []
    else [Entry(p, ms[0].Path(), |ms[0].data|, ms[0].typeflag)]
         + Listed(ms[1..], p + BLOCK + RoundUp(|ms[0].data|))
  }

  lemma Field(front: seq<char>, field: seq<char>, back: seq<char>, h: seq<char>)
    requires h == front + field + back
    ensures h[|front|..|front| + |field|] == field
  {
  }

  lemma HeaderFields(m: Member)
    requires m.Writable()
    ensures var h := m.Header();
            && h[..100] == Padded(m.name, 100) && h[100] == m.mode[0] && h[124..136] == m.SizeField()
            && h[156] == m.typeflag && h[257..262] == "ustar" && h[345..500] == Padded(m.prefix, 155)
  {
    hide Padded, Member.SizeField;
    var h, a, b := m.Header(), Padded(m.name, 100), m.mode + m.owner;
    var c := a + b + m.SizeField();
    var d := c + m.stamp + [m.typeflag] + m.link;
    var e := d + "ustar" + m.ids;
    Field(a + b, m.SizeField(), h[136..], h);
    Field(d, "ustar", h[262..], h);
    Field(e, Padded(m.prefix, 155), h[500..], h);
    Field(c + m.stamp, [m.typeflag], h[157..], h);
  }

  lemma Window(b: seq<char>, p: nat, h: seq<char>, i: nat, j: nat)
    requires i <= j <= |h| && p + |h| <= |b| && b[p..p + |h|] == h
    ensures b[p + i..p + j] == h[i..j]
  {
    forall k | i <= k < j
      ensures b[p + k] == h[k]
    {
      assert b[p..p + |h|][k] == b[p + k];
    }
  }

  lemma SizeDecodes(m: Member)
    requires m.Writable()
    ensures OctalValue(0, m.SizeField()) % WORD_LIMIT == |m.data|
  {
    assert Pow8(5) == 0x8000;
    assert Pow8(11) == 0x40000 * Pow8(5);
    FieldRoundTrip(|m.data|, 11, [NUL]);
  }

  predicate HeaderAt(img: Image, p: nat, m: Member) {
    m.Writable() && p + BLOCK <= |img.bytes| && img.bytes[p..p + BLOCK] == m.Header()
  }

  lemma TextOfField(t: seq<char>, n: nat)
    requires |t| <= n && NUL !in t
    ensures Text(Padded(t, n)) == t
  {
    hide Text, Padded;
    TextOfPadded(t, n, []);
    assert Padded(t, n) + [] == Padded(t, n);
  }

  lemma FieldsDecode(img: Image, p: nat, m: Member)
    requires HeaderAt(img, p, m)
    ensures img.IsHeader(p) && img.Name(p) == m.name && img.Prefix(p) == m.prefix
  {
    var b, h := img.bytes, m.Header();
    HeaderFields(m);
    hide Member.Header, Text;
    Window(b, p, h, 0, 100);
    Window(b, p, h, 257, 262);
    Window(b, p, h, 345, 500);
    TextOfField(m.prefix, 155);
    TextOfField(m.name, 100);
    assert b[p] == b[p..p + BLOCK][0] == h[0] == h[..100][0] == m.name[0];
  }

  lemma NameDecodes(img: Image, p: nat, m: Member)
    requires HeaderAt(img, p, m) && m.prefix == []
    ensures img.IsHeader(p) && img.LongName(p) == m.name
  {
    var h := m.Header();
    FieldsDecode(img, p, m);
    HeaderFields(m);
    hide Member.Header, Text, Padded, Image.IsHeader;
    Window(img.bytes, p, h, 0, 255);
    TextOfPadded(m.name, 100, h[100..255]);
    assert h[..255] == h[..100] + h[100..255];
  }

  /** The reader decodes a written header. */
  lemma HeaderDecodes(img: Image, p: nat, m: Member)
    requires HeaderAt(img, p, m)
    ensures img.IsHeader(p) && img.Path(p) == m.Path() && img.Size(p) == |m.data| && img.Typeflag(p) == m.typeflag
    ensures img.PathFits(p) && img.Next(p) == p + |m.Block()|
  {
    FieldsDecode(img, p, m);
    PathDecodes(img, p, m);
    HeaderFields(m);
    hide Member.Header, Text, Padded, OctalValue, Member.SizeField, Member.Path, Image.Path;
    Window(img.bytes, p, m.Header(), 124, 136);
    Window(img.bytes, p, m.Header(), 156, 157);
    assert img.bytes[p + 156] == img.bytes[p + 156..p + 157][0] == m.Header()[156..157][0];
    SizeDecodes(m);
  }

  lemma PathDecodes(img: Image, p: nat, m: Member)
    requires HeaderAt(img, p, m)
    ensures img.IsHeader(p) && img.Path(p) == m.Path()
  {
    FieldsDecode(img, p, m);
    if m.prefix == [] {
      NameDecodes(img, p, m);
    }
    hide Member.Header, Text, Padded, OctalValue, Member.SizeField, Image.Name, Image.Prefix, Image.LongName, Image.IsHeader;
  }

  /** `ms` was written at offset `p`, and no header follows. */
  ghost predicate Holds(img: Image, p: nat, ms: seq<Member>) {
    && AllWritable(ms) && p + |Written(ms)| <= |img.bytes|
    && img.bytes[p..p + |Written(ms)|] == Written(ms) && !img.IsHeader(p + |Written(ms)|)
  }

  lemma FirstBlock(ms: seq<Member>)
    requires AllWritable(ms) && ms != []
    ensures var w, m := Written(ms), ms[0];
            && BLOCK + |m.data| <= |m.Block()| <= |w| && w[|m.Block()|..] == Written(ms[1..])
            && w[..BLOCK] == m.Header() && w[BLOCK..BLOCK + |m.data|] == m.data
  {
    hide Member.Header, RoundUp;
    var m := ms[0];
    Parts(m.Header(), m.data, seq(RoundUp(|m.data|) - |m.data|, _ => NUL), Written(ms[1..]));
  }

  lemma Parts(h: seq<char>, d: seq<char>, z: seq<char>, rest: seq<char>)
    ensures var w := (h + d + z) + rest;
            && w[..|h|] == h && w[|h|..|h| + |d|] == d && w[|h| + |d| + |z|..] == rest
  {
  }

  lemma HoldsFirst(img: Image, p: nat, ms: seq<Member>)
    requires Holds(img, p, ms) && ms != []
    ensures HeaderAt(img, p, ms[0]) && ms[0].Writable()
    ensures p + BLOCK + |ms[0].data| <= p + |ms[0].Block()| <= |img.bytes|
    ensures img.bytes[p + BLOCK..p + BLOCK + |ms[0].data|] == ms[0].data
  {
    hide Member.Header, Member.Block, Written, Image.IsHeader, RoundUp;
    FirstBlock(ms);
    Window(img.bytes, p, Written(ms), 0, BLOCK);
    Window(img.bytes, p, Written(ms), BLOCK, BLOCK + |ms[0].data|);
  }

  lemma HoldsRest(img: Image, p: nat, ms: seq<Member>)
    requires Holds(img, p, ms) && ms != []
    ensures ms[0].Writable() && Holds(img, p + |ms[0].Block()|, ms[1..])
  {
    hide Member.Header, Member.Block, Written, Image.IsHeader, RoundUp;
    FirstBlock(ms);
    Window(img.bytes, p, Written(ms), |ms[0].Block()|, |Written(ms)|);
  }

  lemma HoldsNothing(img: Image, p: nat)
    requires Holds(img, p, [])
    ensures !img.IsHeader(p)
  {
  }

  /** Reading back an archive: the walk lists exactly the members written, in order. */
  lemma {:induction false} ArchiveReadsBack(img: Image, p: nat, ms: seq<Member>)
    requires Holds(img, p, ms) && img.addr + |img.bytes| + BLOCK < WORD_LIMIT
    ensures img.Walkable(p) && img.Entries(p) == Listed(ms, p)
    decreases |ms|
  {
    hide HeaderAt, Member.Header, Member.Block, Image.Path, Member.Path, Member.Writable, Image.IsHeader, Holds, Image.PathFits,
      RoundUp, Image.Size, Written;
    if ms == [] {
      HoldsNothing(img, p);
    } else {
      HoldsFirst(img, p, ms);
      HoldsRest(img, p, ms);
      HeaderDecodes(img, p, ms[0]);
      ArchiveReadsBack(img, p + |ms[0].Block()|, ms[1..]);
    }
  }

  /** Each listed entry is followed by its member's data. */
  lemma {:induction false} DataReadsBack(img: Image, p: nat, ms: seq<Member>, i: nat)
    requires Holds(img, p, ms) && i < |ms|
    ensures |Listed(ms, p)| == |ms|
    ensures var e := Listed(ms, p)[i];
            e.at + BLOCK + e.size <= |img.bytes| && img.bytes[e.at + BLOCK..e.at + BLOCK + e.size] == ms[i].data
    decreases |ms|
  {
    hide HeaderAt, Member.Header, Member.Path, Member.Writable, Member.Block, RoundUp, Holds, Written, Listed;
    HoldsFirst(img, p, ms);
    HoldsRest(img, p, ms);
    ListedLength(ms, p);
    if i > 0 {
      ListedLength(ms[1..], p + |ms[0].Block()|);
      ListedLater(ms, p, i);
      DataReadsBack(img, p + |ms[0].Block()|, ms[1..], i - 1);
    } else {
      ListedFirst(ms, p);
    }
  }

  lemma ListedFirst(ms: seq<Member>, p: nat)
    requires ms != []
    ensures |Listed(ms, p)| > 0 && Listed(ms, p)[0].at == p && Listed(ms, p)[0].size == |ms[0].data|
  {
  }

  lemma ListedLater(ms: seq<Member>, p: nat, i: nat)
    requires 0 < i < |ms| && ms[0].Writable()
    requires |Listed(ms, p)| == |ms| && |Listed(ms[1..], p + |ms[0].Block()|)| == |ms| - 1
    ensures Listed(ms, p)[i] == Listed(ms[1..], p + |ms[0].Block()|)[i - 1]
  {
    hide Member.Block, Member.Header, RoundUp, Member.Writable;
  }

  lemma {:induction false} ListedLength(ms: seq<Member>, p: nat)
    ensures |Listed(ms, p)| == |ms|
    decreases |ms|
  {
    if ms != [] {
      ListedLength(ms[1..], p + BLOCK + RoundUp(|ms[0].data|));
    }
  }
}
