/** The archive seen through path resolution, and from the files written into it. */
module ArchiveTree {
  import CStrings
  import opened Ustar
  import opened Words
  import opened Wrappers
  import opened InitrdFs
  import Archive
  import Vfs

  /** The archive's vnodes as resolution sees them: nothing is mounted on them. */
  function Tree(es: seq<Entry>): Vfs.Nodes<Vnode> {
    Vfs.Nodes((n: Vnode) => n.dir, (n: Vnode) => false, (n: Vnode) => None, (n: Vnode) => n.dir,
              (n: Vnode, name: string) => Child(es, n, name))
  }

  function Child(es: seq<Entry>, n: Vnode, name: string): Option<Vnode> {
    match FindChild(es, n.path, name)
    case Found(node) => Some(node)
    case _ => None
  }

  /** `initrd_get_root` */
  const ROOT := Vnode("", true, 0)

  /** The archive path of a list of names. */
  function PathTo(names: seq<string>): string {
    if names == [] then "" else Join(PathTo(names[..|names| - 1]), names[|names| - 1])
  }

  function EntryAt(es: seq<Entry>, names: seq<string>): Option<Entry> {
    FirstWith(es, PathTo(names))
  }

  predicate IsDir(es: seq<Entry>, names: seq<string>) {
    names == [] || (EntryAt(es, names).Some? && EntryAt(es, names).value.typeflag == '5')
  }

  /** Every proper prefix of the names is a directory entry of its own. */
  predicate DirsPresent(es: seq<Entry>, names: seq<string>) {
    forall k | 0 < k < |names| :: IsDir(es, names[..k])
  }

  /** The vnode for the entry at these names. */
  function NodeAt(es: seq<Entry>, names: seq<string>): Vnode {
    if names == [] then ROOT
    else NodeOf(es, PathTo(names), if EntryAt(es, names).Some? then EntryAt(es, names).value.typeflag else '0')
  }

  lemma {:induction false} PathToGrows(names: seq<string>, k: nat)
    requires Vfs.Names(names) && k <= |names|
    ensures |PathTo(names[..k])| <= |PathTo(names)|
    ensures PathTo(names) == "" <==> names == []
    ensures PathTo(names) != "/"
    decreases |names|
  {
    if names != [] {
      var last := |names| - 1;
      assert names[last] in names && forall x <- names[..last] :: x in names;
      if k <= last {
        assert names[..last][..k] == names[..k];
        PathToGrows(names[..last], k);
      } else {
        assert names[..k] == names;
        PathToGrows(names[..last], last);
      }
    }
  }

  /** Resolution finds a node exactly when the archive has an entry with the full path and a directory entry for each
      proper prefix; the node found is that entry's. */
  lemma {:induction false} ResolvesIffPresent(es: seq<Entry>, names: seq<string>)
    requires PathsFit(es) && Vfs.Names(names) && |PathTo(names)| < CStrings.MAX_PATH - 1
    ensures Tree(es).Resolve(ROOT, names)
            == if names == [] || (DirsPresent(es, names) && EntryAt(es, names).Some?)
               then Some(NodeAt(es, names)) else None
    decreases |names|
  {
    hide FirstWith, PathTo, Child, DirsPresent;
    if names == [] {
    } else {
      var last := |names| - 1;
      var front, name := names[..last], names[last];
      assert name in names && forall x <- front :: x in names;
      PathToGrows(names, last);
      ResolvesIffPresent(es, front);
      FrontLast(names);
      Vfs.WalkSplits(Tree(es), ROOT, front, [name]);
      WalkOne(es, NodeAt(es, front), name);
      ChildIs(es, names);
      DirsOfPrefix(es, names);
      NoDirs(es);
    }
  }

  lemma NoDirs(es: seq<Entry>)
    ensures DirsPresent(es, []) && IsDir(es, [])
  {
  }

  /** The child of the node at all names but the last is the node at all names, if there is such an entry. */
  lemma ChildIs(es: seq<Entry>, names: seq<string>)
    requires Vfs.Names(names) && names != [] && |PathTo(names)| < CStrings.MAX_PATH - 1
    ensures Child(es, NodeAt(es, names[..|names| - 1]), names[|names| - 1])
            == if EntryAt(es, names).Some? then Some(NodeAt(es, names)) else None
  {
    hide FirstWith;
    var last := |names| - 1;
    PathToGrows(names, last);
  }

  lemma FrontLast(names: seq<string>)
    requires names != []
    ensures names == names[..|names| - 1] + [names[|names| - 1]]
  {
  }

  lemma WalkOne(es: seq<Entry>, n: Vnode, name: string)
    ensures Tree(es).Walk(n, [name]) == if n.dir then Child(es, n, name) else None
  {
    assert [name][1..] == [];
  }

  lemma DirsOfPrefix(es: seq<Entry>, names: seq<string>)
    requires names != []
    ensures var front := names[..|names| - 1];
            DirsPresent(es, names) <==> DirsPresent(es, front) && IsDir(es, front)
  {
    hide IsDir;
    var front := names[..|names| - 1];
    assert IsDir(es, []) by {
      NoDirs(es);
    }
    assert forall k | 0 < k < |front| :: names[..k] == front[..k];
    assert |front| == 0 ==> front == [];
  }

  // ---------- From the writer to the reader ----------

  lemma {:induction false} ListedAt(ms: seq<Archive.Member>, p: nat, i: nat)
    requires i < |ms|
    ensures |Archive.Listed(ms, p)| == |ms|
    ensures var e := Archive.Listed(ms, p)[i];
            e.path == ms[i].Path() && e.size == |ms[i].data| && e.typeflag == ms[i].typeflag && e.at >= p
    ensures i > 0 ==> Archive.Listed(ms, p)[i].at > p
    decreases |ms|
  {
    hide Archive.Member.Path;
    if i > 0 {
      ListedAt(ms[1..], p + BLOCK + RoundUp(|ms[0].data|), i - 1);
    } else {
      Archive.ListedLength(ms, p);
    }
  }

  predicate FirstOfItsPath(ms: seq<Archive.Member>, i: nat)
    requires i < |ms|
  {
    forall j | 0 <= j < i :: ms[j].Path() != ms[i].Path()
  }

  lemma {:induction false} FirstListed(ms: seq<Archive.Member>, p: nat, i: nat)
    requires i < |ms| == |Archive.Listed(ms, p)|
    ensures FirstWith(Archive.Listed(ms, p), ms[i].Path()) == Some(Archive.Listed(ms, p)[i]) <==> FirstOfItsPath(ms, i)
    decreases |ms|
  {
    hide Archive.Member.Path, RoundUp, FirstOfItsPath, FirstWith, Archive.Listed;
    var rest, q := ms[1..], p + BLOCK + RoundUp(|ms[0].data|);
    ListedAt(ms, p, i);
    FirstOfListed(ms, p, ms[i].Path());
    if i == 0 {
      assert FirstOfItsPath(ms, 0) by {
        FirstOfAll(ms);
      }
    } else {
      Archive.ListedLength(rest, q);
      FirstListed(rest, q, i - 1);
      FirstOfRest(ms, i);
    }
  }

  lemma FirstOfListed(ms: seq<Archive.Member>, p: nat, path: string)
    requires ms != []
    ensures var q, all := p + BLOCK + RoundUp(|ms[0].data|), Archive.Listed(ms, p);
            && all != [] && all[0].at == p && all[1..] == Archive.Listed(ms[1..], q)
            && FirstWith(all, path)
               == if ms[0].Path() == path then Some(all[0]) else FirstWith(Archive.Listed(ms[1..], q), path)
  {
    hide Archive.Member.Path, RoundUp;
  }

  lemma FirstOfAll(ms: seq<Archive.Member>)
    requires ms != []
    ensures FirstOfItsPath(ms, 0)
  {
  }

  lemma FirstOfRest(ms: seq<Archive.Member>, i: nat)
    requires 0 < i < |ms|
    ensures FirstOfItsPath(ms, i) <==> ms[0].Path() != ms[i].Path() && FirstOfItsPath(ms[1..], i - 1)
  {
    hide Archive.Member.Path;
    assert forall j | 0 < j < i :: ms[j] == ms[1..][j - 1];
  }

  /** A file written into an archive is what `initrd_lookup` finds under its path, with its data, exactly when no
      earlier member has the same path. */
  lemma WrittenFileIsFound(img: Image, ms: seq<Archive.Member>, i: nat)
    requires Archive.Holds(img, 0, ms) && img.addr + |img.bytes| + BLOCK < WORD_LIMIT && i < |ms|
    ensures img.Walkable(0) && |Archive.Listed(ms, 0)| == |ms|
    ensures var e := Archive.Listed(ms, 0)[i];
            && (FirstWith(img.Entries(0), ms[i].Path()) == Some(e) <==> FirstOfItsPath(ms, i))
            && e.typeflag == ms[i].typeflag && Complete(img, e) && DataOf(img, e) == ms[i].data
  {
    hide Archive.Holds, Archive.Member.Path, FirstWith, FirstOfItsPath, Image.Entries, Image.Walkable, Archive.Listed;
    Archive.ArchiveReadsBack(img, 0, ms);
    Archive.DataReadsBack(img, 0, ms, i);
    ListedAt(ms, 0, i);
    FirstListed(ms, 0, i);
  }

  /** From the writer to the path: a file written into the archive is what its path resolves to, with its size, if no
      earlier member has the same path and every directory on the way is a member. */
  lemma WrittenFileResolves(img: Image, ms: seq<Archive.Member>, i: nat, names: seq<string>)
    requires Archive.Holds(img, 0, ms) && img.addr + |img.bytes| + BLOCK < WORD_LIMIT && i < |ms|
    requires FirstOfItsPath(ms, i) && ms[i].typeflag != '5'
    requires Vfs.Names(names) && names != [] && PathTo(names) == ms[i].Path()
    requires |PathTo(names)| < CStrings.MAX_PATH - 1 && DirsPresent(img.Entries(0), names)
    ensures Tree(img.Entries(0)).Resolve(ROOT, names) == Some(Vnode(ms[i].Path(), false, |ms[i].data|))
  {
    hide Archive.Holds, Archive.Member.Path, FirstWith, FirstOfItsPath, Image.Entries, Image.Walkable, Archive.Listed,
      PathTo, DirsPresent, Vfs.Nodes.Walk;
    WrittenFileIsFound(img, ms, i);
    ListedAt(ms, 0, i);
    BuiltPathsFit(img, 0);
    ResolvesIffPresent(img.Entries(0), names);
  }
}
