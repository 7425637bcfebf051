/** From the files written into an archive to the bytes read by path. */
module ArchiveFiles {
  import CStrings
  import opened Words
  import opened Wrappers
  import opened Ustar
  import opened InitrdFs
  import opened ArchiveTree
  import opened Descriptors
  import Archive
  import Vfs

  /** The first member with this path. */
  function FirstMember(ms: seq<Archive.Member>, path: string): (r: Option<nat>)
    ensures r.Some? ==> r.value < |ms| && ms[r.value].Path() == path && FirstOfItsPath(ms, r.value)
    ensures r.None? ==> forall m <- ms :: m.Path() != path
    decreases |ms|
  {
    if ms == [] then None
    else if ms[0].Path() == path then Some(0)
    else
      var rest := FirstMember(ms[1..], path);
      if rest.None? then None else Some(rest.value + 1)
  }

  predicate IsDirectory(ms: seq<Archive.Member>, path: string) {
    var i := FirstMember(ms, path);
    i.Some? && ms[i.value].typeflag == '5'
  }

  /** Where names lead by the members alone: each directory on the way is a member, and so is the end. */
  function NodeByMembers(ms: seq<Archive.Member>, names: seq<string>): Option<Vnode> {
    if names == [] then Some(ROOT)
    else
      var i := FirstMember(ms, PathTo(names));
      if i.None? || exists k | 0 < k < |names| :: !IsDirectory(ms, PathTo(names[..k])) then None
      else if ms[i.value].typeflag == '5' then Some(Vnode(PathTo(names), true, 0))
      else Some(Vnode(PathTo(names), false, |ms[i.value].data|))
  }

  ghost predicate Mounted(img: Image, ms: seq<Archive.Member>) {
    Archive.Holds(img, 0, ms) && img.addr + |img.bytes| + BLOCK < WORD_LIMIT
  }

  /** The entry found for a path is the first member's, with its data. */
  lemma EntryOfMember(img: Image, ms: seq<Archive.Member>, path: string)
    requires Mounted(img, ms)
    ensures var e, i := FirstWith(img.Entries(0), path), FirstMember(ms, path);
            && (e.Some? <==> i.Some?)
            && (e.Some? ==> e.value.typeflag == ms[i.value].typeflag && e.value.size == |ms[i.value].data|
                            && Complete(img, e.value) && DataOf(img, e.value) == ms[i.value].data)
  {
    hide Archive.Holds, Archive.Member.Path, FirstWith, FirstOfItsPath, Image.Entries, Image.Walkable, Archive.Listed,
      FirstMember;
    var i := FirstMember(ms, path);
    if i.Some? {
      WrittenFileIsFound(img, ms, i.value);
      ListedAt(ms, 0, i.value);
    } else {
      NoneListed(ms, path);
      Archive.ArchiveReadsBack(img, 0, ms);
    }
  }

  lemma NoneListed(ms: seq<Archive.Member>, path: string)
    requires forall m <- ms :: m.Path() != path
    ensures FirstWith(Archive.Listed(ms, 0), path) == None
  {
    hide Archive.Member.Path, Archive.Listed;
    Archive.ListedLength(ms, 0);
    forall e | e in Archive.Listed(ms, 0)
      ensures e.path != path
    {
      var j :| 0 <= j < |ms| && Archive.Listed(ms, 0)[j] == e;
      ListedAt(ms, 0, j);
    }
  }

  lemma DirOfMember(img: Image, ms: seq<Archive.Member>, names: seq<string>)
    requires Mounted(img, ms) && names != []
    ensures IsDir(img.Entries(0), names) <==> IsDirectory(ms, PathTo(names))
  {
    hide FirstWith, FirstMember, Mounted, PathTo;
    EntryOfMember(img, ms, PathTo(names));
  }

  /** Names resolve to what the members say. */
  lemma ResolvesByMembers(img: Image, ms: seq<Archive.Member>, names: seq<string>)
    requires Mounted(img, ms) && Vfs.Names(names) && |PathTo(names)| < CStrings.MAX_PATH - 1
    ensures Tree(img.Entries(0)).Resolve(ROOT, names) == NodeByMembers(ms, names)
  {
    Archive.ArchiveReadsBack(img, 0, ms);
    hide FirstWith, FirstMember, Mounted, PathTo, IsDir, IsDirectory, Archive.Holds, Image.Walkable, Image.Entries,
      Archive.Listed, Vfs.Nodes.Resolve;
    BuiltPathsFit(img, 0);
    ResolvesIffPresent(img.Entries(0), names);
    EntryOfMember(img, ms, PathTo(names));
    forall k | 0 < k < |names|
      ensures IsDir(img.Entries(0), names[..k]) <==> IsDirectory(ms, PathTo(names[..k]))
    {
      DirOfMember(img, ms, names[..k]);
    }
  }

  /** With the archive mounted at `/`, any path that no other mount covers leads where the members say. */
  lemma PathLeadsToMember(img: Image, ms: seq<Archive.Member>, mounts: seq<Vfs.Mount<Vnode>>, k: nat, path: string,
                          r: Option<Vnode>)
    requires Mounted(img, ms) && |PathTo(Vfs.Components(path))| < CStrings.MAX_PATH - 1
    requires Vfs.Longest(mounts, path, k) && mounts[k] == Vfs.Mount("/", Some(ROOT))
    requires Vfs.Resolves(Tree(img.Entries(0)), mounts, path, r)
    ensures r == NodeByMembers(ms, Vfs.Components(path))
  {
    hide Mounted, PathTo, Image.Entries, NodeByMembers, Tree, Vfs.Components, Vfs.Nodes.Resolve;
    Vfs.ResolvesAt(Tree(img.Entries(0)), mounts, path, r, k);
    hide Vfs.Longest, Vfs.Resolves;
    assert path[0] == '/';
    Vfs.SlashFirst(path);
    Vfs.ComponentsAreNames(path);
    ResolvesByMembers(img, ms, Vfs.Components(path));
  }

  /** The node that names lead to is that of the member found, whose entry holds the member's data. */
  lemma NodeEntry(img: Image, ms: seq<Archive.Member>, names: seq<string>)
    requires Mounted(img, ms) && names != [] && NodeByMembers(ms, names).Some?
    ensures var node, e := NodeByMembers(ms, names).value, FirstWith(img.Entries(0), PathTo(names));
            var i := FirstMember(ms, PathTo(names));
            && node.path == PathTo(names) && e.Some? && i.Some? && Complete(img, e.value)
            && e.value.size == |ms[i.value].data| && DataOf(img, e.value) == ms[i.value].data
  {
    hide FirstWith, Mounted, PathTo, IsDirectory, Image.Entries, DataOf, Complete, Archive.Member.Path;
    EntryOfMember(img, ms, PathTo(names));
  }

  lemma NodeIsReadable(img: Image, ms: seq<Archive.Member>, names: seq<string>)
    requires Mounted(img, ms) && names != [] && NodeByMembers(ms, names).Some?
    requires var i := FirstMember(ms, PathTo(names)); i.Some? && |ms[i.value].data| < 0x8000_0000
    ensures Readable(img, NodeByMembers(ms, names).value)
  {
    NodeEntry(img, ms, names);
    Archive.ArchiveReadsBack(img, 0, ms);
    hide FirstWith, Mounted, PathTo, NodeByMembers, FirstMember, Archive.Holds, Image.Walkable, Image.Entries, Archive.Listed,
      DataOf, Complete, Archive.Member.Path;
    BuiltPathsFit(img, 0);
  }

  /** A file reached by path can be read, and chunks of any lengths give the member's data. */
  lemma ReadsMember(img: Image, ms: seq<Archive.Member>, names: seq<string>, lens: seq<nat>)
    requires Mounted(img, ms) && names != [] && NodeByMembers(ms, names).Some?
    ensures var node, e := NodeByMembers(ms, names).value, FirstWith(img.Entries(0), PathTo(names));
            var i := FirstMember(ms, PathTo(names));
            && node.path == PathTo(names) && e.Some? && i.Some? && Complete(img, e.value)
            && (|ms[i.value].data| < 0x8000_0000 ==> Readable(img, node))
            && Concat(Chunks(DataOf(img, e.value), 0, lens))
               == ms[i.value].data[..Min(Sum(lens), |ms[i.value].data|)]
  {
    hide FirstWith, FirstMember, Mounted, PathTo, NodeByMembers, Image.Entries, DataOf, Complete, Archive.Member.Path, Readable,
      Chunks, Concat;
    NodeEntry(img, ms, names);
    var data := ms[FirstMember(ms, PathTo(names)).value].data;
    if |data| < 0x8000_0000 {
      NodeIsReadable(img, ms, names);
    }
    ChunksRebuildFile(data, 0, lens);
    assert data[0..Min(Sum(lens), |data|)] == data[..Min(Sum(lens), |data|)];
  }

  // ---------- The paths a writer stores ----------

  /** Names with single slashes between them. */
  predicate Clean(path: string) {
    && path != "" && path[0] != '/' && path[|path| - 1] != '/'
    && forall i | 0 < i < |path| :: path[i - 1] != '/' || path[i] != '/'
  }

  function LastSlash(path: string): (n: nat)
    ensures n <= |path| && '/' !in path[n..] && (n > 0 ==> path[n - 1] == '/')
    decreases |path|
  {
    if path == "" || path[|path| - 1] == '/' then |path|
    else
      var n := LastSlash(path[..|path| - 1]);
      assert path[n..] == path[..|path| - 1][n..] + [path[|path| - 1]];
      n
  }

  /** A clean path is the archive path of its own components. */
  lemma {:induction false} CleanIsPathTo(path: string)
    requires Clean(path)
    ensures PathTo(Vfs.Components(path)) == path
    decreases |path|
  {
    hide Vfs.Components, PathTo;
    var n := LastSlash(path);
    var name := path[n..];
    Vfs.OneName(name, "");
    if n == 0 {
      assert path == name;
      PathToOne([], name);
      assert [] + [name] == [name];
    } else {
      var dir := path[..n - 1];
      assert path == dir + "/" + name;
      Vfs.ComponentsSplit(dir, name);
      CleanIsPathTo(dir);
      PathToOne(Vfs.Components(dir), name);
    }
  }

  lemma PathToOne(names: seq<string>, name: string)
    ensures PathTo(names + [name]) == Join(PathTo(names), name) && PathTo([]) == ""
  {
    assert (names + [name])[..|names|] == names;
  }

  /** A file written into an archive is reached by its path below `/` and read back, in chunks of any lengths, if no
      earlier member has its path and every directory on the way is a member. */
  lemma WrittenFileIsRead(img: Image, ms: seq<Archive.Member>, i: nat, mounts: seq<Vfs.Mount<Vnode>>, k: nat,
                          r: Option<Vnode>, lens: seq<nat>)
    requires Mounted(img, ms) && i < |ms| && FirstOfItsPath(ms, i) && ms[i].typeflag != '5'
    requires Clean(ms[i].Path()) && |ms[i].Path()| < CStrings.MAX_PATH - 1
    requires var names := Vfs.Components(ms[i].Path());
             forall n | 0 < n < |names| :: IsDirectory(ms, PathTo(names[..n]))
    requires Vfs.Longest(mounts, "/" + ms[i].Path(), k) && mounts[k] == Vfs.Mount("/", Some(ROOT))
    requires Vfs.Resolves(Tree(img.Entries(0)), mounts, "/" + ms[i].Path(), r)
    ensures r == Some(Vnode(ms[i].Path(), false, |ms[i].data|))
    ensures |ms[i].data| < 0x8000_0000 ==> Readable(img, r.value)
    ensures var e := FirstWith(img.Entries(0), r.value.path);
            && e.Some? && Complete(img, e.value)
            && Concat(Chunks(DataOf(img, e.value), 0, lens)) == ms[i].data[..Min(Sum(lens), |ms[i].data|)]
  {
    var path := ms[i].Path();
    var names := Vfs.Components(path);
    CleanIsPathTo(path);
    Vfs.ExtraSlashes(path, "");
    FirstIsFirst(ms, i);
    assert names != [] by {
      assert PathTo([]) == "";
    }
    hide Mounted, PathTo, Image.Entries, Tree, Vfs.Components, Vfs.Longest, Vfs.Resolves, Archive.Member.Path, Clean,
      FirstOfItsPath, FirstMember, IsDirectory, FirstWith, Readable, DataOf, Chunks, Concat, Complete;
    PathLeadsToMember(img, ms, mounts, k, "/" + path, r);
    ReadsMember(img, ms, names, lens);
  }

  lemma FirstIsFirst(ms: seq<Archive.Member>, i: nat)
    requires i < |ms| && FirstOfItsPath(ms, i)
    ensures FirstMember(ms, ms[i].Path()) == Some(i)
  {
    hide Archive.Member.Path, FirstMember;
    var j := FirstMember(ms, ms[i].Path());
    assert ms[i] in ms;
    if j.value < i {
      assert false;
    } else if i < j.value {
      assert false;
    }
  }

  /** How the kernel gets its first program: `vfs_open`, `vfs_stat`, a buffer of that size, `vfs_read`, `vfs_close`. */
  method ReadFile(mounts: Vfs.MountTable<Vnode>, fds: FdTable, img: Image, path: string, ghost ms: seq<Archive.Member>,
                  ghost k: nat)
    returns (buf: array<char>)
    requires mounts.Valid() && fds.Valid() && !fds.Full() && Mounted(img, ms)
    requires CStrings.NUL !in path && Vfs.ShortNames(path) && |PathTo(Vfs.Components(path))| < CStrings.MAX_PATH - 1
    requires Vfs.Longest(mounts.Mounts(), path, k) && mounts.Mounts()[k] == Vfs.Mount("/", Some(ROOT))
    requires IsFileOf(ms, Vfs.Components(path))
    modifies fds.entries
    ensures fds.Valid() && fds.entries[..] == old(fds.entries[..]) && fresh(buf)
    ensures buf[..] == FileData(ms, Vfs.Components(path))
  {
    hide Mounted, PathTo, Image.Entries, Image.Walkable, Tree, Vfs.Components, Vfs.Longest, Vfs.Resolves, FirstMember,
      IsFileOf, FileData, NodeByMembers, FirstWith, Vfs.ShortNames, Vfs.MountTable.Valid;
    ghost var names := Vfs.Components(path);
    var node := mounts.Resolve(Tree(img.Entries(0)), path);
    PathLeadsToMember(img, ms, mounts.Mounts(), k, path, node);
    FileEntry(img, ms, names);
    var fd := fds.Open(node.value);
    var st := FileStat(img, node.value);
    buf := new char[st.value.size];
    var n := fds.Read(img, fd, buf, st.value.size);
    var closed := fds.Close(fd);
  }

  /** The names lead to a member that is a file, of less than 2 GiB. */
  ghost predicate IsFileOf(ms: seq<Archive.Member>, names: seq<string>) {
    var node := NodeByMembers(ms, names);
    node.Some? && !node.value.dir && |FileData(ms, names)| < 0x8000_0000
  }

  ghost function FileData(ms: seq<Archive.Member>, names: seq<string>): seq<char> {
    var i := FirstMember(ms, PathTo(names));
    if i.None? then [] else ms[i.value].data
  }

  lemma FileEntry(img: Image, ms: seq<Archive.Member>, names: seq<string>)
    requires Mounted(img, ms) && IsFileOf(ms, names)
    ensures img.Walkable(0) && NodeByMembers(ms, names).Some?
    ensures var node := NodeByMembers(ms, names).value;
            var e := FirstWith(img.Entries(0), node.path);
            && !node.dir && Readable(img, node) && e.Some? && Complete(img, e.value)
            && e.value.size == |FileData(ms, names)| < 0x8000_0000 && DataOf(img, e.value) == FileData(ms, names)
  {
    Archive.ArchiveReadsBack(img, 0, ms);
    NodeEntry(img, ms, names);
    NodeIsReadable(img, ms, names);
    hide FirstWith, FirstMember, Mounted, PathTo, IsDirectory, Archive.Holds, Image.Walkable, Image.Entries, Archive.Listed,
      DataOf, Readable, Archive.Member.Path;
  }
}
