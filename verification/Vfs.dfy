/** The virtual file system: the mount table and path resolution. */
module Vfs {
  import opened CStrings
  import opened Wrappers

  const MAX_MOUNTS: nat := 64

  /** What resolution asks of the vnodes, as the drivers answer it at the time of the call. */
  datatype Nodes<!N> = Nodes(isDir: N -> bool, isMountPoint: N -> bool, mountedHere: N -> Option<N>,
                             hasFinddir: N -> bool, finddir: (N, string) -> Option<N>) {

    /** One component: the node must be a directory or mount point, and a mount on it is crossed first. */
    function Step(n: N, name: string): Option<N> {
      if !isDir(n) && !isMountPoint(n) then None
      else
        var at := if mountedHere(n).Some? then mountedHere(n).value else n;
        if hasFinddir(at) then finddir(at, name) else None
    }

    function Walk(n: N, names: seq<string>): Option<N>
      decreases |names|
    {
      if names == [] then Some(n)
      else
        var next := Step(n, names[0]);
        if next.None? then None else Walk(next.value, names[1..])
    }

    function Cross(n: N): N {
      if isMountPoint(n) && mountedHere(n).Some? then mountedHere(n).value else n
    }

    function Resolve(root: N, names: seq<string>): Option<N> {
      var n := Walk(root, names);
      if n.None? then None else Some(Cross(n.value))
    }
  }

  // ---------- Components ----------

  /** The characters before the first slash. */
  function Span(s: string): (n: nat)
    ensures n <= |s| && '/' !in s[..n] && (n < |s| ==> s[n] == '/')
  {
    if s == [] || s[0] == '/' then 0
    else
      var n := Span(s[1..]);
      assert s[..n + 1] == [s[0]] + s[1..][..n];
      n + 1
  }

  /** The non-empty parts between slashes. */
  function Components(s: string): seq<string>
    decreases |s|
  {
    if s == [] then []
    else if s[0] == '/' then Components(s[1..])
    else [s[..Span(s)]] + Components(s[Span(s)..])
  }

  predicate Names(names: seq<string>) {
    forall name <- names :: name != "" && '/' !in name
  }

  /** Names joined with single slashes, each preceded by one. */
  function Joined(names: seq<string>): string {
    if names == [] then "" else "/" + names[0] + Joined(names[1..])
  }

  lemma SpanIs(s: string, n: nat)
    requires n <= |s| && '/' !in s[..n] && (n == |s| || s[n] == '/')
    ensures Span(s) == n
  {
  }

  lemma {:induction false} ComponentsAreNames(s: string)
    ensures Names(Components(s))
    decreases |s|
  {
    if s != [] {
      if s[0] == '/' {
        ComponentsAreNames(s[1..]);
      } else {
        ComponentsAreNames(s[Span(s)..]);
      }
    }
  }

  lemma NoComponents()
    ensures Components("") == []
  {
  }

  /** Slashes are skipped. */
  lemma SlashFirst(s: string)
    requires s != "" && s[0] == '/'
    ensures Components(s) == Components(s[1..])
  {
  }

  /** A name that ends at a slash or at the end is the first component. */
  lemma NameFirst(name: string, rest: string)
    requires name != "" && '/' !in name && (rest == "" || rest[0] == '/')
    ensures Components(name + rest) == [name] + Components(rest)
  {
    var s, n := name + rest, |name|;
    assert s[..n] == name && s[n..] == rest;
    SpanIs(s, n);
  }

  /** A path that starts with a name splits behind it. */
  lemma NameAndRest(s: string)
    requires s != "" && s[0] != '/'
    ensures var name, rest := s[..Span(s)], s[Span(s)..];
            && name != "" && '/' !in name && (rest == "" || rest[0] == '/') && s == name + rest
            && Components(s) == [name] + Components(rest)
  {
  }

  /** A slash separates: the components of two parts joined by one are those of each. */
  lemma {:induction false} ComponentsSplit(a: string, b: string)
    ensures Components(a + "/" + b) == Components(a) + Components(b)
    decreases |a|
  {
    hide Components, Span;
    var s := a + "/" + b;
    if a == [] {
      assert s[1..] == b;
      SlashFirst(s);
      NoComponents();
    } else if a[0] == '/' {
      assert s[1..] == a[1..] + "/" + b;
      SlashFirst(a);
      SlashFirst(s);
      ComponentsSplit(a[1..], b);
    } else {
      NameAndRest(a);
      var name, rest := a[..Span(a)], a[Span(a)..];
      assert s == name + (rest + "/" + b);
      NameFirst(name, rest + "/" + b);
      ComponentsSplit(rest, b);
      assert [name] + (Components(rest) + Components(b)) == [name] + Components(rest) + Components(b);
    }
  }

  /** Doubling a slash, or adding one at either end, changes nothing. */
  lemma ExtraSlashes(a: string, b: string)
    ensures Components(a + "//" + b) == Components(a + "/" + b)
    ensures Components("/" + a) == Components(a) == Components(a + "/")
  {
    hide Components;
    assert a + "//" + b == (a + "/") + "/" + b;
    assert a + "/" + "" == a + "/";
    NoComponents();
    ComponentsSplit(a + "/", b);
    ComponentsSplit(a, "");
    ComponentsSplit(a, b);
    assert ("/" + a)[1..] == a;
    SlashFirst("/" + a);
  }

  /** A cut between two characters of one name. */
  predicate CutsName(a: string, b: string) {
    a != "" && b != "" && a[|a| - 1] != '/' && b[0] != '/'
  }

  /** Cutting a path in two keeps its components exactly when the cut is not inside a name. */
  lemma {:induction false} CutKeepsComponents(a: string, b: string)
    ensures Components(a + b) == Components(a) + Components(b) <==> !CutsName(a, b)
    ensures CutsName(a, b) ==> |Components(a + b)| + 1 == |Components(a)| + |Components(b)|
    decreases |a|
  {
    hide Components, Span;
    var s := a + b;
    if a == "" {
      assert s == b;
      NoComponents();
    } else if a[0] == '/' {
      assert s[1..] == a[1..] + b;
      SlashFirst(a);
      SlashFirst(s);
      CutKeepsComponents(a[1..], b);
    } else {
      NameAndRest(a);
      var name, rest := a[..Span(a)], a[Span(a)..];
      if rest == "" {
        assert name == a;
        OneName(a, b);
      } else {
        assert s == name + (rest + b);
        NameFirst(name, rest + b);
        CutKeepsComponents(rest, b);
        assert rest[|rest| - 1] == a[|a| - 1];
      }
    }
  }

  /** `a` is a single name. */
  lemma OneName(a: string, b: string)
    requires a != "" && '/' !in a
    ensures Components(a) == [a]
    ensures if b != "" && b[0] != '/' then |Components(a + b)| == |Components(b)|
            else Components(a + b) == [a] + Components(b)
  {
    hide Components, Span;
    assert a + "" == a;
    NoComponents();
    NameFirst(a, "");
    if b != "" && b[0] != '/' {
      NameAndRest(b);
      var name, rest := b[..Span(b)], b[Span(b)..];
      assert a + b == (a + name) + rest;
      NameFirst(a + name, rest);
    } else {
      NameFirst(a, b);
    }
  }

  lemma JoinedStep(name: string, rest: string)
    requires name != "" && '/' !in name && (rest == "" || rest[0] == '/')
    ensures Components("/" + name + rest) == [name] + Components(rest)
  {
    hide Components;
    NameFirst(name, rest);
    assert ("/" + name + rest)[1..] == name + rest;
    SlashFirst("/" + name + rest);
  }

  /** The components of joined names are the names. */
  lemma {:induction false} ComponentsOfJoined(names: seq<string>)
    requires Names(names)
    ensures Components(Joined(names)) == names
    decreases |names|
  {
    hide Components;
    if names == [] {
      NoComponents();
    } else {
      assert names[0] in names && forall x <- names[1..] :: x in names;
      ComponentsOfJoined(names[1..]);
      JoinedStep(names[0], Joined(names[1..]));
    }
  }

  /** Walking a concatenation is walking its parts in turn. */
  lemma {:induction false} WalkSplits<N>(nodes: Nodes<N>, n: N, a: seq<string>, b: seq<string>)
    ensures nodes.Walk(n, a + b)
            == var m := nodes.Walk(n, a); if m.None? then None else nodes.Walk(m.value, b)
    decreases |a|
  {
    if a == [] {
      assert a + b == b;
    } else {
      assert (a + b)[1..] == a[1..] + b;
      var next := nodes.Step(n, a[0]);
      if next.Some? {
        WalkSplits(nodes, next.value, a[1..], b);
      }
    }
  }

  // ---------- Mounts ----------

  datatype Mount<+N> = Mount(path: string, root: Option<N>)

  /** A mount whose path is a non-empty string prefix of the path looked up. */
  predicate Covers<N>(m: Mount<N>, path: string) {
    m.path <= path && m.path != ""
  }

  /** `find_mount`'s answer: the longest covering mount, the first of equals. */
  predicate Longest<N>(mounts: seq<Mount<N>>, path: string, k: nat) {
    && k < |mounts| && Covers(mounts[k], path)
    && (forall i | 0 <= i < |mounts| && Covers(mounts[i], path) :: |mounts[i].path| <= |mounts[k].path|)
    && (forall i | 0 <= i < k && Covers(mounts[i], path) :: |mounts[i].path| < |mounts[k].path|)
  }

  predicate NoneCovers<N>(mounts: seq<Mount<N>>, path: string) {
    forall i | 0 <= i < |mounts| :: !Covers(mounts[i], path)
  }

  lemma LongestIsUnique<N>(mounts: seq<Mount<N>>, path: string, j: nat, k: nat)
    requires Longest(mounts, path, j) && Longest(mounts, path, k)
    ensures j == k
  {
    assert |mounts[j].path| <= |mounts[k].path| && |mounts[k].path| <= |mounts[j].path|;
  }

  /** What resolution returns once the mount is known. */
  function ResolveFrom<N>(nodes: Nodes<N>, m: Mount<N>, path: string): Option<N>
    requires m.path <= path
  {
    if m.root.None? then None else nodes.Resolve(m.root.value, Components(path[|m.path|..]))
  }

  /** The same mount and the same components after it give the same node. */
  lemma SameComponentsSameNode<N>(nodes: Nodes<N>, m: Mount<N>, p: string, q: string)
    requires m.path <= p && m.path <= q && Components(p[|m.path|..]) == Components(q[|m.path|..])
    ensures ResolveFrom(nodes, m, p) == ResolveFrom(nodes, m, q)
  {
  }

  /** What `vfs_resolve` returns: the fold from the longest mount, or nothing if no mount covers the path. */
  ghost predicate Resolves<N>(nodes: Nodes<N>, mounts: seq<Mount<N>>, path: string, r: Option<N>) {
    && (NoneCovers(mounts, path) ==> r == None)
    && (forall k | 0 <= k < |mounts| && Longest(mounts, path, k) :: r == ResolveFrom(nodes, mounts[k], path))
  }

  /** A mount path without a doubled slash and, unless it is `/`, without one at its end. */
  predicate Normal(path: string) {
    path == "/" || ((forall i | 0 < i < |path| :: path[i - 1] != '/' || path[i] != '/')
                    && (path != "" ==> path[|path| - 1] != '/'))
  }

  ghost predicate NormalMounts<N>(mounts: seq<Mount<N>>) {
    forall m <- mounts :: Normal(m.path)
  }

  function Doubled(path: string, i: nat): string
    requires i < |path|
  {
    path[..i] + "/" + path[i..]
  }

  /** The slash at `i` lies behind the mount's path, or is the mount `/` itself. */
  predicate Behind<N>(m: Mount<N>, i: nat) {
    i >= |m.path| || m.path == "/"
  }

  /** A normal mount covers the path with the slash at `i` doubled exactly when it covers the plain path and does not
      reach over that slash. */
  lemma CoversDoubled<N>(m: Mount<N>, path: string, i: nat)
    requires i < |path| && path[i] == '/' && Normal(m.path)
    ensures Covers(m, Doubled(path, i)) <==> Covers(m, path) && Behind(m, i)
  {
    var d, n := Doubled(path, i), |m.path|;
    assert d[..i + 1] == path[..i + 1] && d[i] == d[i + 1] == '/';
    if n <= i + 1 {
      assert n <= |path| ==> d[..n] == path[..i + 1][..n] == path[..n];
    } else if Covers(m, d) {
      assert false;
    }
    if Covers(m, path) && n == i + 1 {
      assert m.path[i] == path[i];
    }
  }

  /** A normal mount covers a non-empty path followed by a slash exactly when it covers the path. */
  lemma CoversTrailing<N>(m: Mount<N>, path: string)
    requires path != "" && Normal(m.path)
    ensures Covers(m, path + "/") <==> Covers(m, path)
  {
    var t := path + "/";
    if Covers(m, t) {
      if |m.path| == |t| {
        assert false;
      }
      assert t[..|m.path|] == path[..|m.path|];
    }
  }

  /** The longest mount of a path stays the longest exactly when the doubled slash lies behind it; a slash at the end
      never matters. */
  lemma LongestStaysIffBehind<N>(mounts: seq<Mount<N>>, k: nat, path: string, i: nat)
    requires NormalMounts(mounts) && Longest(mounts, path, k) && i < |path| && path[i] == '/'
    ensures Longest(mounts, Doubled(path, i), k) <==> Behind(mounts[k], i)
    ensures Longest(mounts, path + "/", k)
  {
    forall j | 0 <= j < |mounts|
      ensures Covers(mounts[j], Doubled(path, i)) <==> Covers(mounts[j], path) && Behind(mounts[j], i)
      ensures Covers(mounts[j], path + "/") <==> Covers(mounts[j], path)
    {
      assert mounts[j] in mounts;
      CoversDoubled(mounts[j], path, i);
      CoversTrailing(mounts[j], path);
    }
    hide Covers, Doubled;
  }

  lemma SameRest(path: string, n: nat, i: nat)
    requires i < |path| && path[i] == '/' && (n <= i || n == 1)
    ensures n <= |path| && Components(Doubled(path, i)[n..]) == Components(path[n..])
    ensures Components((path + "/")[n..]) == Components(path[n..])
  {
    hide Components;
    ExtraSlashes(path[n..], "");
    assert (path + "/")[n..] == path[n..] + "/";
    if n <= i {
      var a, b := path[n..i], path[i + 1..];
      assert path[n..] == a + "/" + b && Doubled(path, i)[n..] == a + "//" + b;
      ExtraSlashes(a, b);
    } else {
      assert Doubled(path, i)[1..] == "/" + path[1..];
      ExtraSlashes(path[1..], "");
    }
  }

  /** With normal mount paths, doubling a slash behind the mount's path, or adding one at the end, keeps the result. */
  lemma ExtraSlashesKeepNode<N>(nodes: Nodes<N>, mounts: seq<Mount<N>>, k: nat, path: string, i: nat,
                                r: Option<N>, doubled: Option<N>, trailing: Option<N>)
    requires NormalMounts(mounts) && Longest(mounts, path, k)
    requires i < |path| && path[i] == '/' && Behind(mounts[k], i)
    requires Resolves(nodes, mounts, path, r)
    requires Resolves(nodes, mounts, Doubled(path, i), doubled) && Resolves(nodes, mounts, path + "/", trailing)
    ensures r == doubled == trailing
  {
    LongestStaysIffBehind(mounts, k, path, i);
    assert Behind(mounts[k], i) && Covers(mounts[k], path);
    SameRest(path, |mounts[k].path|, i);
    hide Longest, Components, Resolves, NormalMounts, Doubled;
    ResolvesAt(nodes, mounts, path, r, k);
    ResolvesAt(nodes, mounts, Doubled(path, i), doubled, k);
    ResolvesAt(nodes, mounts, path + "/", trailing, k);
    SameComponentsSameNode(nodes, mounts[k], path, Doubled(path, i));
    SameComponentsSameNode(nodes, mounts[k], path, path + "/");
  }

  // ---------- Lookups one by one ----------

  /** What the driver of the node, or of what is mounted on it, answers for a name. */
  ghost predicate LooksUp<N>(nodes: Nodes<N>, n: N, name: string, next: N) {
    var at := if nodes.mountedHere(n).Some? then nodes.mountedHere(n).value else n;
    (nodes.isDir(n) || nodes.isMountPoint(n)) && nodes.hasFinddir(at) && nodes.finddir(at, name) == Some(next)
  }

  /** Each node answers the next name with the next node. */
  ghost predicate Chain<N>(nodes: Nodes<N>, chain: seq<N>, names: seq<string>) {
    |chain| == |names| + 1 && forall i | 0 <= i < |names| :: LooksUp(nodes, chain[i], names[i], chain[i + 1])
  }

  ghost predicate LeadsTo<N(!new)>(nodes: Nodes<N>, root: N, names: seq<string>, end: N) {
    exists chain :: Chain(nodes, chain, names) && chain[0] == root && chain[|names|] == end
  }

  /** A walk ends at a node exactly when lookups lead there, name by name. */
  lemma {:induction false} WalkIffChain<N(!new)>(nodes: Nodes<N>, root: N, names: seq<string>, end: N)
    ensures nodes.Walk(root, names) == Some(end) <==> LeadsTo(nodes, root, names, end)
    decreases |names|
  {
    if names == [] {
      if root == end {
        assert Chain(nodes, [root], []) && [root][0] == root;
      }
    } else {
      var step, rest := nodes.Step(root, names[0]), names[1..];
      if step.Some? {
        WalkIffChain(nodes, step.value, rest, end);
        if LeadsTo(nodes, step.value, rest, end) {
          var chain :| Chain(nodes, chain, rest) && chain[0] == step.value && chain[|rest|] == end;
          ChainGrows(nodes, root, names, chain);
        }
      }
      if LeadsTo(nodes, root, names, end) {
        var chain :| Chain(nodes, chain, names) && chain[0] == root && chain[|names|] == end;
        ChainShrinks(nodes, names, chain);
        assert LeadsTo(nodes, chain[1], rest, end) by {
          assert chain[1..][0] == chain[1] && chain[1..][|rest|] == end;
        }
      }
    }
  }

  lemma ChainGrows<N>(nodes: Nodes<N>, root: N, names: seq<string>, chain: seq<N>)
    requires names != [] && Chain(nodes, chain, names[1..]) && LooksUp(nodes, root, names[0], chain[0])
    ensures Chain(nodes, [root] + chain, names)
    ensures ([root] + chain)[0] == root && ([root] + chain)[|names|] == chain[|names| - 1]
  {
    var all := [root] + chain;
    forall i | 0 <= i < |names|
      ensures LooksUp(nodes, all[i], names[i], all[i + 1])
    {
      if i > 0 {
        assert names[1..][i - 1] == names[i];
      }
    }
  }

  lemma ChainShrinks<N>(nodes: Nodes<N>, names: seq<string>, chain: seq<N>)
    requires names != [] && Chain(nodes, chain, names)
    ensures Chain(nodes, chain[1..], names[1..]) && LooksUp(nodes, chain[0], names[0], chain[1])
  {
    forall i | 0 <= i < |names| - 1
      ensures LooksUp(nodes, chain[1..][i], names[1..][i], chain[1..][i + 1])
    {
      assert LooksUp(nodes, chain[i + 1], names[i + 1], chain[i + 2]);
    }
  }

  /** Below any mount a path resolves exactly to what the mounted driver's lookups lead to, name by name from the
      mount's root, and from there to what is mounted on it. */
  lemma BelowMount<N(!new)>(nodes: Nodes<N>, mounts: seq<Mount<N>>, k: nat, names: seq<string>, r: Option<N>)
    requires Names(names) && k < |mounts| && mounts[k].root.Some?
    requires Longest(mounts, mounts[k].path + Joined(names), k)
    requires Resolves(nodes, mounts, mounts[k].path + Joined(names), r)
    ensures forall n :: LeadsTo(nodes, mounts[k].root.value, names, n) ==>
              r == Some(if nodes.isMountPoint(n) && nodes.mountedHere(n).Some? then nodes.mountedHere(n).value else n)
    ensures r.Some? ==> exists n :: LeadsTo(nodes, mounts[k].root.value, names, n)
  {
    var root, path := mounts[k].root.value, mounts[k].path + Joined(names);
    assert path[|mounts[k].path|..] == Joined(names);
    ComponentsOfJoined(names);
    ResolvesAt(nodes, mounts, path, r, k);
    forall n
      ensures LeadsTo(nodes, root, names, n) <==> nodes.Walk(root, names) == Some(n)
    {
      WalkIffChain(nodes, root, names, n);
    }
    hide Components, Joined, LeadsTo, Longest, Resolves, Nodes.Walk;
    if r.Some? {
      assert LeadsTo(nodes, root, names, nodes.Walk(root, names).value);
    }
  }

  /** With mounts at `/` and `/dev`, every path that begins with `/dev` is looked up below the second. */
  lemma DevIsLongest<N>(root: Option<N>, dev: Option<N>, path: string)
    requires "/dev" <= path
    ensures Longest([Mount("/", root), Mount("/dev", dev)], path, 1)
  {
    var mounts := [Mount("/", root), Mount("/dev", dev)];
    assert mounts[0].path == "/" && mounts[1].path == "/dev";
  }

  /** Doubling the slash inside a mount's path leads elsewhere: with mounts at `/` and `/dev`, `//dev` is looked up
      below the first. */
  lemma DoubledInsideMountIsMissed<N>(root: Option<N>, dev: Option<N>)
    ensures var mounts := [Mount("/", root), Mount("/dev", dev)];
            && NormalMounts(mounts) && Longest(mounts, "/dev", 1) && Longest(mounts, Doubled("/dev", 0), 0)
            && Components(Doubled("/dev", 0)[1..]) == ["dev"] && Components("/dev"[4..]) == []
  {
    var mounts := [Mount("/", root), Mount("/dev", dev)];
    DoubledDev();
    CoversDoubled(mounts[0], "/dev", 0);
    CoversDoubled(mounts[1], "/dev", 0);
    hide Components, Doubled;
  }

  lemma DoubledDev()
    ensures Normal("/") && Normal("/dev") && Components(Doubled("/dev", 0)[1..]) == ["dev"] && Components("/dev"[4..]) == []
  {
    assert Doubled("/dev", 0)[1..] == "/" + "dev" && "/dev"[4..] == "";
    NameBehindSlash("dev");
    NoComponents();
    hide Components, Doubled;
  }

  lemma ResolvesAt<N>(nodes: Nodes<N>, mounts: seq<Mount<N>>, path: string, r: Option<N>, k: nat)
    requires Resolves(nodes, mounts, path, r) && Longest(mounts, path, k)
    ensures k < |mounts| && mounts[k].path <= path && r == ResolveFrom(nodes, mounts[k], path)
  {
  }

  /** A mount path that ends inside a name: with mounts at `/` and `/dev`, the path `/devices` is looked up as `ices`
      below the second. */
  lemma DevicesIsCut<N>(root: Option<N>, dev: Option<N>)
    ensures var mounts := [Mount("/", root), Mount("/dev", dev)];
            && Longest(mounts, "/devices", 1) && CutsName("/dev", "ices")
            && Components("/devices"[4..]) == ["ices"] && Components("/devices") == ["devices"]
  {
    var mounts := [Mount("/", root), Mount("/dev", dev)];
    hide Components;
    assert mounts[0].path == "/" && mounts[1].path == "/dev";
    assert Covers(mounts[1], "/devices");
    NameBehindSlash("devices");
    assert "/" + "devices" == "/devices" && "/devices"[4..] == "ices";
    OneName("ices", "");
  }

  lemma NameBehindSlash(name: string)
    requires name != "" && '/' !in name
    ensures Components("/" + name) == [name]
  {
    hide Components;
    OneName(name, "");
    assert ("/" + name)[1..] == name;
    SlashFirst("/" + name);
  }

  class MountTable<N> {
    const table: array<Mount<N>>
    var count: nat

    ghost predicate Valid()
      reads this, table
    {
      table.Length == MAX_MOUNTS && count <= MAX_MOUNTS
      && forall k | 0 <= k < count :: NUL !in table[k].path && |table[k].path| < MAX_PATH
    }

    /** The mounts in use. */
    ghost function Mounts(): seq<Mount<N>>
      requires Valid()
      reads this, table
    {
      table[..count]
    }

    constructor ()
      ensures Valid() && Mounts() == [] && fresh(table)
    {
      table := new Mount<N>[MAX_MOUNTS](_ => Mount("", None));
      count := 0;
    }

    method FindMount(path: string) returns (best: Option<nat>)
      requires Valid() && NUL !in path
      ensures best.Some? ==> Longest(Mounts(), path, best.value)
      ensures best.None? ==> NoneCovers(Mounts(), path)
    {
      best := None;
      var bestLen := 0;
      for i := 0 to count
        invariant best.None? ==> bestLen == 0 && NoneCovers(table[..i], path)
        invariant best.Some? ==> Longest(table[..i], path, best.value) && bestLen == |table[best.value].path|
      {
        var mlen := |table[i].path|;
        var covers := IsPrefix(table[i].path, path);
        assert table[..i + 1] == table[..i] + [table[i]];
        if covers && mlen > bestLen {
          best, bestLen := Some(i), mlen;
        }
      }
    }

    /** `vfs_mount`; the driver's answers are `mounted` and `root`. */
    method Attach(path: string, mounted: bool, root: Option<N>) returns (r: int)
      requires Valid() && NUL !in path
      modifies this`count, table
      ensures Valid()
      ensures r == if old(count) < MAX_MOUNTS && mounted && root.Some? then 0 else -1
      ensures Mounts() == if r == 0 then old(Mounts()) + [Mount(Take(path, MAX_PATH - 1), root)] else old(Mounts())
    {
      if count >= MAX_MOUNTS {
        return -1;
      }
      table[count] := Mount(Take(path, MAX_PATH - 1), table[count].root);
      if !mounted {
        return -1;
      }
      table[count] := Mount(table[count].path, root);
      if root.None? {
        return -1;
      }
      count := count + 1;
      return 0;
    }

    method FindExact(path: string) returns (idx: Option<nat>)
      requires Valid() && NUL !in path
      ensures idx == FirstAt(Mounts(), path)
    {
      TextIs(path + [NUL], path);
      for i := 0 to count
        invariant FirstAt(Mounts(), path) == FirstAtFrom(Mounts(), path, i)
      {
        TextIs(table[i].path + [NUL], table[i].path);
        var order := Strncmp(table[i].path + [NUL], path + [NUL], MAX_PATH);
        assert order == 0 <==> table[i].path == path;
        if order == 0 {
          return Some(i);
        }
      }
      return None;
    }

    /** `vfs_unmount`; `busy` tells which mounts an open kernel descriptor still uses. */
    method Detach(path: string, busy: seq<bool>) returns (r: int)
      requires Valid() && NUL !in path && |busy| == count
      modifies this`count, table
      ensures Valid()
      ensures var k := FirstAt(old(Mounts()), path);
              if k.None? || busy[k.value] then r == -1 && Mounts() == old(Mounts())
              else r == 0 && Mounts() == old(Mounts())[..k.value] + old(Mounts())[k.value + 1..]
    {
      var idx := FindExact(path);
      if idx.None? || busy[idx.value] {
        return -1;
      }
      ShiftDown(idx.value);
      return 0;
    }

    /** The table without slot `k`. */
    method ShiftDown(k: nat)
      requires Valid() && k < count
      modifies this`count, table
      ensures Valid() && Mounts() == old(Mounts())[..k] + old(Mounts())[k + 1..]
    {
      ghost var was := table[..count];
      MoveDown(k);
      table[count - 1] := Mount("", None);
      count := count - 1;
      ghost var now := was[..k] + was[k + 1..];
      assert table[..count] == now;
      forall j | 0 <= j < count
        ensures NUL !in table[j].path && |table[j].path| < MAX_PATH
      {
        assert table[j] == table[..count][j] == was[if j < k then j else j + 1];
      }
    }

    method MoveDown(k: nat)
      requires k < count <= table.Length
      modifies table
      ensures table[..count - 1] == old(table[..k]) + old(table[k + 1..count]) && table[count..] == old(table[count..])
    {
      ghost var was := table[..];
      var i := k;
      while i < count - 1
        invariant k <= i <= count - 1
        invariant forall j | 0 <= j < table.Length :: table[j] == was[if k <= j < i then j + 1 else j]
      {
        table[i] := table[i + 1];
        i := i + 1;
      }
      MovedDown(was, table[..], k, count);
    }

    /** `vfs_resolve`: equals the fold over the components that follow the longest mount's path. */
    method Resolve(nodes: Nodes<N>, path: string) returns (r: Option<N>)
      requires Valid() && NUL !in path
      requires ShortNames(path)
      ensures Resolves(nodes, Mounts(), path, r)
    {
      var found := FindMount(path);
      if found.None? {
        return None;
      }
      forall k: nat | Longest(Mounts(), path, k)
        ensures k == found.value
      {
        LongestIsUnique(Mounts(), path, k, found.value);
      }
      if table[found.value].root.None? {
        return None;
      }
      hide Components, Longest, Nodes.Walk, NoneCovers;
      var rel := |table[found.value].path|;
      ghost var names := Components(path[rel..]);
      var node := table[found.value].root.value;
      var root := node;
      while rel < |path|
        invariant rel <= |path|
        invariant nodes.Walk(root, names) == nodes.Walk(node, Components(path[rel..]))
      {
        rel := SkipSlashes(path, rel);
        if rel == |path| {
          break;
        }
        var component := new char[MAX_PATH];
        var len;
        len, rel := NextComponent(path, rel, component);
        var name := component[..len];
        WalkStep(nodes, node, name, Components(path[rel..]));
        if !nodes.isDir(node) && !nodes.isMountPoint(node) {
          return None;
        }
        if nodes.mountedHere(node).Some? {
          node := nodes.mountedHere(node).value;
        }
        if !nodes.hasFinddir(node) {
          return None;
        }
        var next := nodes.finddir(node, name);
        if next.None? {
          return None;
        }
        node := next.value;
      }
      WalkEnd(nodes, node, path, rel);
      if nodes.isMountPoint(node) && nodes.mountedHere(node).Some? {
        node := nodes.mountedHere(node).value;
      }
      return Some(node);
    }
  }

  lemma MovedDown<N>(was: seq<N>, now: seq<N>, k: nat, count: nat)
    requires k < count <= |was| == |now|
    requires forall j | 0 <= j < |was| :: now[j] == was[if k <= j < count - 1 then j + 1 else j]
    ensures now[..count - 1] == was[..k] + was[k + 1..count] && now[count..] == was[count..]
  {
  }

  lemma WalkStep<N>(nodes: Nodes<N>, n: N, name: string, names: seq<string>)
    ensures nodes.Walk(n, [name] + names)
            == var next := nodes.Step(n, name); if next.None? then None else nodes.Walk(next.value, names)
  {
    assert ([name] + names)[1..] == names;
  }

  lemma WalkEnd<N>(nodes: Nodes<N>, n: N, path: string, rel: nat)
    requires rel == |path|
    ensures nodes.Walk(n, Components(path[rel..])) == Some(n)
  {
  }

  method SkipSlashes(path: string, from: nat) returns (rel: nat)
    requires from <= |path|
    ensures from <= rel <= |path| && (rel < |path| ==> path[rel] != '/')
    ensures Components(path[rel..]) == Components(path[from..])
  {
    rel := from;
    while rel < |path| && path[rel] == '/'
      invariant from <= rel <= |path| && Components(path[rel..]) == Components(path[from..])
    {
      assert path[rel..][1..] == path[rel + 1..];
      rel := rel + 1;
    }
  }

  /** No name in the path overflows the component buffer. */
  ghost predicate ShortNames(path: string) {
    forall i, j | 0 <= i <= j <= |path| && '/' !in path[i..j] :: j - i < MAX_PATH
  }

  /** Copies the component that starts at `start` into the buffer. */
  method NextComponent(path: string, start: nat, component: array<char>) returns (len: nat, rel: nat)
    requires start < |path| && path[start] != '/' && ShortNames(path) && component.Length == MAX_PATH
    modifies component
    ensures start < rel <= |path| && len < MAX_PATH && component[len] == NUL
    ensures Components(path[start..]) == [component[..len]] + Components(path[rel..])
  {
    rel, len := start, 0;
    while rel < |path| && path[rel] != '/'
      invariant start <= rel <= |path| && len == rel - start && '/' !in path[start..rel] && len < MAX_PATH
      invariant component[..len] == path[start..rel]
    {
      assert path[start..rel + 1] == path[start..rel] + [path[rel]];
      assert len + 1 < MAX_PATH;
      component[len] := path[rel];
      len, rel := len + 1, rel + 1;
    }
    component[len] := NUL;
    ComponentsFrom(path, start, rel);
  }

  lemma ComponentsFrom(path: string, start: nat, end: nat)
    requires start < end <= |path| && '/' !in path[start..end] && (end == |path| || path[end] == '/')
    ensures Components(path[start..]) == [path[start..end]] + Components(path[end..])
  {
    assert path[start] in path[start..end];
    assert path[start..][..end - start] == path[start..end] && path[start..][end - start..] == path[end..];
    SpanIs(path[start..], end - start);
  }

  /** `strncmp(m, path, strlen(m)) == 0` */
  method IsPrefix(m: string, path: string) returns (r: bool)
    requires NUL !in m && NUL !in path
    ensures r <==> m <= path
  {
    TextIs(m + [NUL], m);
    TextIs(path + [NUL], path);
    var order := Strncmp(m + [NUL], path + [NUL], |m|);
    r := order == 0;
  }

  /** The first mount at exactly this path. */
  function FirstAt<N>(mounts: seq<Mount<N>>, path: string): Option<nat> {
    FirstAtFrom(mounts, path, 0)
  }

  function FirstAtFrom<N>(mounts: seq<Mount<N>>, path: string, k: nat): (r: Option<nat>)
    ensures r.Some? ==> k <= r.value < |mounts| && mounts[r.value].path == path
    ensures r.None? ==> forall i | k <= i < |mounts| :: mounts[i].path != path
    ensures r.Some? ==> forall i | k <= i < r.value :: mounts[i].path != path
    decreases |mounts| - k
  {
    if k >= |mounts| then None
    else if mounts[k].path == path then Some(k)
    else FirstAtFrom(mounts, path, k + 1)
  }

  /** Unmounting right after mounting removes the new mount exactly when the path had none before. */
  lemma UnmountFindsTheNewMount<N>(mounts: seq<Mount<N>>, m: Mount<N>)
    ensures FirstAt(mounts + [m], m.path) == Some(|mounts|) <==> FirstAt(mounts, m.path) == None
    ensures (mounts + [m])[..|mounts|] + (mounts + [m])[|mounts| + 1..] == mounts
  {
    assert (mounts + [m])[|mounts|] == m;
    forall i | 0 <= i < |mounts|
      ensures (mounts + [m])[i] == mounts[i]
    {
    }
  }
}
