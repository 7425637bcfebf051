/** The archive as a file system: lookup of a child, directory listing, reading and stat. */
module InitrdFs {
  import opened CStrings
  import opened Ustar
  import opened Words
  import opened Wrappers
  import Printf

  /** A vnode of this file system; `size` is zero for a directory. */
  datatype Vnode = Vnode(path: string, dir: bool, size: nat)

  /** `Hangs`: the formatter never returns. */
  datatype Found = Hangs | Missing | Found(node: Vnode)

  predicate IsRoot(dir: string) {
    dir == "" || dir == "/"
  }

  function Join(dir: string, name: string): string {
    if IsRoot(dir) then name else dir + "/" + name
  }

  function NodeOf(es: seq<Entry>, path: string, typeflag: char): Vnode {
    var e := FirstWith(es, path);
    Vnode(path, typeflag == '5', if typeflag != '5' && e.Some? then e.value.size else 0)
  }

  function FindChild(es: seq<Entry>, dir: string, name: string): Found {
    if !IsRoot(dir) && |dir| >= MAX_PATH - 1 then Hangs
    else
      var e := FirstWith(es, Take(Join(dir, name), MAX_PATH - 1));
      if e.None? then Missing else Found(NodeOf(es, e.value.path, e.value.typeflag))
  }

  /** What a path names below a directory. */
  function Below(dir: string, path: string): Option<string> {
    if dir == "" then Some(path)
    else if dir <= path && |dir| < |path| && path[|dir|] == '/' then Some(path[|dir| + 1..])
    else None
  }

  /** The path names a direct child of the directory. */
  predicate IsChild(dir: string, path: string) {
    var rest := Below(dir, path);
    rest.Some? && rest.value != "" && '/' !in rest.value
  }

  /** The names of a directory's children, in archive order. */
  function ChildNames(es: seq<Entry>, dir: string): seq<string> {
    if es == [] then []
    else (if IsChild(dir, es[0].path) then [Below(dir, es[0].path).value] else []) + ChildNames(es[1..], dir)
  }

  // ---------- Lookup and listing agree ----------

  /** A path buffer holds at most 255 characters and a terminator. */
  predicate PathsFit(es: seq<Entry>) {
    forall e <- es :: |e.path| < MAX_PATH && NUL !in e.path
  }

  lemma {:induction false} BuiltPathsFit(img: Image, p: nat)
    requires img.Walkable(p)
    ensures PathsFit(img.Entries(p))
    decreases |img.bytes| - p
  {
    hide Image.Path, Image.Size;
    if img.IsHeader(p) {
      BuiltPathsFit(img, img.Next(p));
      BuiltPathFits(img, p);
    }
  }

  lemma BuiltPathFits(img: Image, p: nat)
    requires img.IsHeader(p) && img.PathFits(p)
    ensures |img.Path(p)| < MAX_PATH && NUL !in img.Path(p)
  {
  }

  lemma {:induction false} ChildNameIff(es: seq<Entry>, dir: string, name: string)
    ensures name in ChildNames(es, dir) <==> exists e <- es :: IsChild(dir, e.path) && Below(dir, e.path) == Some(name)
    decreases |es|
  {
    if es != [] {
      ChildNameIff(es[1..], dir, name);
      assert forall e <- es :: e == es[0] || e in es[1..];
    }
  }

  lemma BelowIffJoined(dir: string, name: string, path: string)
    requires dir != "/" && name != "" && '/' !in name
    ensures IsChild(dir, path) && Below(dir, path) == Some(name) <==> path == Join(dir, name)
  {
    if path == Join(dir, name) && dir != "" {
      assert path[|dir| + 1..] == name;
    }
  }

  /** A name is listed in a directory exactly when it is found there, if its path fits the buffer. The root listed
      as "" is found as "" too; a directory called "/" would be listed differently than it is searched. */
  lemma ListedIffFound(es: seq<Entry>, dir: string, name: string)
    requires PathsFit(es) && dir != "/" && name != "" && '/' !in name && |Join(dir, name)| < MAX_PATH
    ensures name in ChildNames(es, dir) <==> FindChild(es, dir, name).Found?
    ensures FindChild(es, dir, name).Found? ==> FindChild(es, dir, name).node.path == Join(dir, name)
  {
    ChildNameIff(es, dir, name);
    forall e | e in es
      ensures IsChild(dir, e.path) && Below(dir, e.path) == Some(name) <==> e.path == Join(dir, name)
    {
      BelowIffJoined(dir, name, e.path);
    }
  }

  /** Every listed name is a proper file name, and is found. */
  lemma EveryListedNameIsFound(es: seq<Entry>, dir: string, k: nat)
    requires PathsFit(es) && dir != "/" && k < |ChildNames(es, dir)|
    ensures var name := ChildNames(es, dir)[k];
            && name != "" && '/' !in name && FindChild(es, dir, name).Found?
            && FindChild(es, dir, name).node.path == Join(dir, name)
  {
    var name := ChildNames(es, dir)[k];
    ChildNameIff(es, dir, name);
    var e :| e in es && IsChild(dir, e.path) && Below(dir, e.path) == Some(name);
    BelowIffJoined(dir, name, e.path);
    ListedIffFound(es, dir, name);
  }

  predicate DistinctPaths(es: seq<Entry>) {
    forall i, j | 0 <= i < j < |es| :: es[i].path != es[j].path
  }

  /** With distinct paths no name is listed twice. */
  lemma {:induction false} ListedOnce(es: seq<Entry>, dir: string, i: nat, j: nat)
    requires DistinctPaths(es) && dir != "/" && i < j < |ChildNames(es, dir)|
    ensures ChildNames(es, dir)[i] != ChildNames(es, dir)[j]
    decreases |es|
  {
    var rest := ChildNames(es[1..], dir);
    if !IsChild(dir, es[0].path) {
      ListedOnce(es[1..], dir, i, j);
    } else if i > 0 {
      ListedOnce(es[1..], dir, i - 1, j - 1);
    } else {
      var first, name := Below(dir, es[0].path).value, rest[j - 1];
      if first == name {
        ChildNameIff(es[1..], dir, name);
        var e :| e in es[1..] && IsChild(dir, e.path) && Below(dir, e.path) == Some(name);
        BelowIffJoined(dir, name, e.path);
        BelowIffJoined(dir, name, es[0].path);
        assert false;
      }
    }
  }

  // ---------- initrd_dir_finddir ----------

  /** The child path buffer after formatting, unless the formatter hangs. */
  method FormatChildPath(dir: string, name: string, childPath: array<char>) returns (ok: bool)
    requires childPath.Length == MAX_PATH && NUL !in dir && NUL !in name
    requires |dir| < MAX_PATH && |name| < Printf.INT_LIMIT
    modifies childPath
    ensures ok <==> IsRoot(dir) || |dir| < MAX_PATH - 1
    ensures ok ==> Terminated(childPath[..]) && Text(childPath[..]) == Take(Join(dir, name), MAX_PATH - 1)
  {
    hide Printf.Render, Printf.Plain, Printf.Chars, Printf.LiteralPastEnd, Text;
    var dlen := |dir|;
    var r;
    if dlen == 0 || (dlen == 1 && dir[0] == '/') {
      Printf.RenderOneString(name);
      PlainNeverSticks(name);
      r := Printf.Vsnprintf(childPath, MAX_PATH, "%s", [Printf.Str(name)]);
    } else {
      Printf.RenderTwoStrings(dir, name);
      JoinedSticks(dir, name);
      r := Printf.Vsnprintf(childPath, MAX_PATH, "%s/%s", [Printf.Str(dir), Printf.Str(name)]);
    }
    ok := r.Returned?;
    if ok {
      assert childPath[..][..r.n] == childPath[..r.n];
      TerminatedAt(childPath[..], r.n, Join(dir, name), MAX_PATH - 1);
    }
  }

  /** A buffer that holds as much of a text as fits, then a NUL. */
  lemma TerminatedAt(buf: seq<char>, n: nat, text: string, max: nat)
    requires n < |buf| && buf[..n] == Take(text, max) && buf[n] == NUL && NUL !in text
    ensures Terminated(buf) && Text(buf) == Take(text, max)
  {
    hide Text;
    TextIs(buf, Take(text, max));
  }

  lemma PlainNeverSticks(text: string)
    ensures !Printf.LiteralPastEnd(Printf.Plain(text), MAX_PATH) && Printf.Chars(Printf.Plain(text)) == text
  {
  }

  lemma JoinedSticks(a: string, b: string)
    ensures var items := Printf.Plain(a) + ([Printf.Item('/', true)] + Printf.Plain(b));
            && (Printf.LiteralPastEnd(items, MAX_PATH) <==> |a| >= MAX_PATH - 1)
            && Printf.Chars(items) == a + "/" + b
  {
    var items := Printf.Plain(a) + ([Printf.Item('/', true)] + Printf.Plain(b));
    assert items[|a|].literal;
  }

  /** `initrd_vnode_create` */
  method CreateVnode(img: Image, path: string, typeflag: char) returns (node: Vnode)
    requires img.Walkable(0) && NUL !in path && |path| < MAX_PATH
    ensures node == NodeOf(img.Entries(0), path, typeflag)
  {
    if typeflag == '5' {
      node := Vnode(path, true, 0);
    } else {
      var f := Lookup(img, path);
      node := Vnode(path, false, if f.Some? then f.value.size else 0);
    }
  }

  method FindDir(img: Image, dir: string, name: string) returns (r: Found)
    requires img.Walkable(0) && NUL !in dir && NUL !in name && |dir| < MAX_PATH && |name| < Printf.INT_LIMIT
    ensures r == FindChild(img.Entries(0), dir, name)
  {
    hide Text, OctalValue, FirstWith, Image.Walkable, Image.Entries, Image.Path, Image.PathFits, Image.NoWrap;
    var childPath := new char[MAX_PATH];
    var ok := FormatChildPath(dir, name, childPath);
    if !ok {
      return Hangs;
    }
    ghost var path := Take(Join(dir, name), MAX_PATH - 1);
    var p := 0;
    while p + BLOCK <= |img.bytes|
      invariant img.Walkable(p)
      invariant FirstWith(img.Entries(0), path) == FirstWith(img.Entries(p), path)
      invariant Terminated(childPath[..]) && Text(childPath[..]) == path
      decreases |img.bytes| - p
    {
      FirstWithStep(img, p, path);
      if img.bytes[p] == NUL {
        break;
      }
      if img.bytes[p + 257..p + 262] != "ustar" {
        break;
      }
      WalkStep(img, p);
      var fullpath := new char[MAX_PATH];
      BuildPath(img, p, fullpath);
      var order := Strcmp(fullpath[..], childPath[..]);
      if order == 0 {
        var built := TextOf(fullpath);
        var node := CreateVnode(img, built, img.bytes[p + 156]);
        return Found(node);
      }
      var filesize := Oct2Int(img.bytes[p + 124..p + 136]);
      p := p + BLOCK + (filesize + 511) % WORD_LIMIT / BLOCK * BLOCK;
    }
    FirstWithStep(img, p, path);
    return Missing;
  }

  /** The text a buffer holds, as a value. */
  method TextOf(buf: array<char>) returns (s: string)
    requires Terminated(buf[..])
    ensures s == Text(buf[..]) && |s| < buf.Length && NUL !in s
  {
    var n := Strnlen(buf[..], buf.Length);
    s := buf[..n];
  }

  // ---------- initrd_dir_readdir ----------

  lemma ChildNamesStep(img: Image, p: nat, dir: string)
    ensures var names := ChildNames(img.Entries(p), dir);
            if !img.IsHeader(p) then names == []
            else if IsChild(dir, img.Path(p)) then
              && names != [] && names[0] == Below(dir, img.Path(p)).value
              && names[1..] == ChildNames(img.Entries(img.Next(p)), dir)
            else names == ChildNames(img.Entries(img.Next(p)), dir)
  {
  }

  method ReadDir(img: Image, dir: string, index: nat, nameOut: array<char>, nameMax: nat) returns (r: int)
    requires img.Walkable(0) && NUL !in dir && |dir| < MAX_PATH && 0 < nameMax <= nameOut.Length
    modifies nameOut
    ensures var names := ChildNames(img.Entries(0), dir);
            if index < |names| then r == 0 && nameOut[..nameMax] == Padded(Take(names[index], nameMax - 1), nameMax)
            else r == -1 && nameOut[..nameMax] == old(nameOut[..nameMax])
    ensures nameOut[nameMax..] == old(nameOut[nameMax..])
  {
    hide Text, OctalValue, Image.Walkable, Image.Entries, Image.Path, Image.PathFits, Image.NoWrap, ChildNames,
      IsChild, Below, Padded;
    ghost var names := ChildNames(img.Entries(0), dir);
    var p, found := 0, 0;
    while p + BLOCK <= |img.bytes|
      invariant img.Walkable(p) && found <= index && found <= |names|
      invariant names[found..] == ChildNames(img.Entries(p), dir)
      invariant nameOut[..] == old(nameOut[..])
      decreases |img.bytes| - p
    {
      ChildNamesStep(img, p, dir);
      if img.bytes[p] == NUL {
        break;
      }
      if img.bytes[p + 257..p + 262] != "ustar" {
        break;
      }
      WalkStep(img, p);
      var fullpath := new char[MAX_PATH];
      BuildPath(img, p, fullpath);
      var filesize := Oct2Int(img.bytes[p + 124..p + 136]);
      var rest := ChildRest(dir, fullpath);
      if rest.Some? {
        if found == index {
          StoreName(nameOut, rest.value, nameMax);
          return 0;
        }
        assert names[found..][1..] == names[found + 1..];
        found := found + 1;
      }
      p := p + BLOCK + (filesize + 511) % WORD_LIMIT / BLOCK * BLOCK;
    }
    ChildNamesStep(img, p, dir);
    return -1;
  }

  /** What follows the directory in a built path, if that is a single component. */
  method ChildRest(dir: string, fullpath: array<char>) returns (rest: Option<string>)
    requires fullpath.Length == MAX_PATH && Terminated(fullpath[..]) && NUL !in dir && |dir| < MAX_PATH
    ensures var path := Text(fullpath[..]);
            rest == if IsChild(dir, path) then Below(dir, path) else None
    ensures rest.Some? <==> IsChild(dir, Text(fullpath[..]))
    ensures rest.Some? ==> NUL !in rest.value
  {
    var path := TextOf(fullpath);
    assert fullpath[..][|path|] == NUL && fullpath[..|path|] == path;
    var below := "";
    if |dir| == 0 {
      below := path;
    } else {
      TextIs(dir + [NUL], dir);
      var order := Strncmp(fullpath[..], dir + [NUL], |dir|);
      assert order == 0 <==> dir <= path;
      if order != 0 || fullpath[|dir|] != '/' {
        return None;
      }
      below := path[|dir| + 1..];
    }
    var slash := Strchr(below, '/');
    if |below| > 0 && !slash {
      return Some(below);
    }
    return None;
  }

  /** `strchr`, as far as its result is compared with NULL. */
  method Strchr(s: string, c: char) returns (found: bool)
    ensures found <==> c in s
  {
    for i := 0 to |s|
      invariant c !in s[..i]
    {
      if s[i] == c {
        return true;
      }
    }
    return false;
  }

  method StoreName(nameOut: array<char>, name: string, nameMax: nat)
    requires NUL !in name && 0 < nameMax <= nameOut.Length
    modifies nameOut
    ensures nameOut[..nameMax] == Padded(Take(name, nameMax - 1), nameMax)
    ensures nameOut[nameMax..] == old(nameOut[nameMax..])
  {
    hide Text, Padded;
    ghost var was := nameOut[..];
    TextIs(name + [NUL], name);
    PaddedStep(Take(name, nameMax - 1), nameMax - 1);
    Strncpy(nameOut, name + [NUL], nameMax - 1);
    ghost var copied := nameOut[..];
    assert copied[nameMax - 1..] == was[nameMax - 1..];
    nameOut[nameMax - 1] := NUL;
    assert nameOut[..] == copied[nameMax - 1 := NUL];
    assert nameOut[..nameMax] == copied[..nameMax - 1] + [NUL];
    forall k | nameMax <= k < nameOut.Length
      ensures nameOut[k] == was[k]
    {
      assert copied[nameMax - 1..][k - (nameMax - 1)] == was[nameMax - 1..][k - (nameMax - 1)];
    }
  }

  // ---------- initrd_file_read and initrd_file_stat ----------

  const S_IFREG: nat := 0x8000
  const S_IFDIR: nat := 0x4000

  /** The entry's data lies within the image. */
  predicate Complete(img: Image, e: Entry) {
    e.at + BLOCK + e.size <= |img.bytes|
  }

  function DataOf(img: Image, e: Entry): seq<char>
    requires Complete(img, e)
  {
    img.bytes[e.at + BLOCK..e.at + BLOCK + e.size]
  }

  /** What a read of `len` bytes at `offset` gives. */
  function Chunk(data: seq<char>, offset: nat, len: nat): (c: seq<char>)
    ensures |c| <= len && (offset <= |data| ==> offset + |c| <= |data|)
  {
    if offset >= |data| then [] else Take(data[offset..], len)
  }

  /** A 32-bit length as `ssize_t` or `off_t`. */
  function Signed(n: nat): (i: int)
    ensures n < 0x1_0000_0000 ==> -0x8000_0000 <= i < 0x8000_0000 && (i == n || i == n - 0x1_0000_0000)
  {
    if n < 0x8000_0000 then n else n - WORD_LIMIT
  }

  method FileRead(img: Image, path: string, buf: array<char>, len: nat, offset: nat) returns (n: int)
    requires img.Walkable(0) && NUL !in path && len <= buf.Length
    requires var e := FirstWith(img.Entries(0), path); e.Some? ==> Complete(img, e.value)
    modifies buf
    ensures var e := FirstWith(img.Entries(0), path);
            if e.None? then n == -1 && buf[..] == old(buf[..])
            else
              var c := Chunk(DataOf(img, e.value), offset, len);
              n == Signed(|c|) && buf[..|c|] == c && buf[|c|..] == old(buf[|c|..])
  {
    hide Image.Walkable, Image.Entries;
    var f := Lookup(img, path);
    if f.None? {
      return -1;
    }
    if offset >= f.value.size {
      return 0;
    }
    var available := f.value.size - offset;
    var toRead := if len < available then len else available;
    var data := f.value.at + BLOCK;
    forall k | 0 <= k < toRead {
      buf[k] := img.bytes[data + offset + k];
    }
    assert buf[..toRead] == Chunk(DataOf(img, f.value), offset, len);
    return Signed(toRead);
  }

  /** The fields `stat` sets; all others are zero. */
  datatype Stat = Stat(size: int, mode: nat)

  method FileStat(img: Image, node: Vnode) returns (st: Option<Stat>)
    requires img.Walkable(0) && NUL !in node.path
    ensures var e := FirstWith(img.Entries(0), node.path);
            && (st.Some? <==> e.Some?)
            && (st.Some? ==> st.value.mode == (if node.dir then 0x4000 else 0x8000))
            && (st.Some? ==> (st.value.size == e.value.size <==> e.value.size < 0x8000_0000))
  {
    var f := Lookup(img, node.path);
    st := if f.None? then None else Some(Stat(Signed(f.value.size), if node.dir then S_IFDIR else S_IFREG));
  }
}
