/** Kernel file descriptors on archive files: allocation, and reads that advance the offset. */
module Descriptors {
  import opened Ustar
  import opened Wrappers
  import opened InitrdFs

  const MAX_FDS: nat := 256

  // ---------- Reading in chunks ----------

  /** The chunks successive reads return, from an offset on. */
  function Chunks(data: seq<char>, offset: nat, lens: seq<nat>): seq<seq<char>>
    decreases |lens|
  {
    if lens == [] then []
    else
      var c := Chunk(data, offset, lens[0]);
      [c] + Chunks(data, offset + |c|, lens[1..])
  }

  function Concat(chunks: seq<seq<char>>): seq<char> {
    if chunks == [] then [] else chunks[0] + Concat(chunks[1..])
  }

  function Sum(lens: seq<nat>): nat {
    if lens == [] then 0 else lens[0] + Sum(lens[1..])
  }

  function Min(a: nat, b: nat): nat {
    if a < b then a else b
  }

  lemma NextChunk(data: seq<char>, offset: nat, lens: seq<nat>)
    requires lens != []
    ensures var c := Chunk(data, offset, lens[0]);
            var rest := Chunks(data, offset + |c|, lens[1..]);
            Chunks(data, offset, lens) == [c] + rest && Concat(Chunks(data, offset, lens)) == c + Concat(rest)
  {
    var c := Chunk(data, offset, lens[0]);
    var rest := Chunks(data, offset + |c|, lens[1..]);
    assert ([c] + rest)[1..] == rest;
  }

  lemma NoChunks(data: seq<char>, offset: nat)
    ensures Chunks(data, offset, []) == [] && Concat([]) == []
  {
  }

  /** Whatever the lengths asked for, the chunks put together are the file from the offset on, as far as it goes. */
  lemma {:induction false} ChunksRebuildFile(data: seq<char>, offset: nat, lens: seq<nat>)
    requires offset <= |data|
    ensures Concat(Chunks(data, offset, lens)) == data[offset..Min(offset + Sum(lens), |data|)]
    decreases |lens|
  {
    hide Chunks, Concat;
    if lens == [] {
      NoChunks(data, offset);
    } else {
      NextChunk(data, offset, lens);
      var c := Chunk(data, offset, lens[0]);
      ChunksRebuildFile(data, offset + |c|, lens[1..]);
      var next, end := offset + |c|, Min(offset + Sum(lens), |data|);
      assert c == data[offset..next];
      assert data[offset..next] + data[next..end] == data[offset..end];
    }
  }

  /** A read of a positive length is empty exactly at the end of the file. */
  lemma EmptyOnlyAtEnd(data: seq<char>, offset: nat, len: nat)
    requires len > 0
    ensures Chunk(data, offset, len) == [] <==> offset >= |data|
  {
  }

  lemma {:induction false} ChunksSplit(data: seq<char>, offset: nat, a: seq<nat>, b: seq<nat>)
    ensures Chunks(data, offset, a + b)
            == Chunks(data, offset, a) + Chunks(data, offset + |Concat(Chunks(data, offset, a))|, b)
    decreases |a|
  {
    hide Chunks, Concat, Chunk;
    if a == [] {
      NoChunks(data, offset);
      assert a + b == b;
    } else {
      assert (a + b)[0] == a[0] && (a + b)[1..] == a[1..] + b;
      NextChunk(data, offset, a);
      NextChunk(data, offset, a + b);
      var c := Chunk(data, offset, a[0]);
      ChunksSplit(data, offset + |c|, a[1..], b);
      var head := Chunks(data, offset + |c|, a[1..]);
      var tail := Chunks(data, offset + |c| + |Concat(head)|, b);
      assert |c + Concat(head)| == |c| + |Concat(head)|;
      assert [c] + (head + tail) == ([c] + head) + tail;
    }
  }

  /** Reading with positive lengths until a read returns nothing gives the whole rest of the file, and a read returns
      nothing only then. */
  lemma ReadUntilEmptyIsWholeFile(data: seq<char>, offset: nat, lens: seq<nat>, last: nat)
    requires offset <= |data| && last > 0
    ensures var chunks := Chunks(data, offset, lens + [last]);
            |chunks| == |lens| + 1 && (chunks[|lens|] == [] <==> Concat(chunks[..|lens|]) == data[offset..])
  {
    hide Chunk, Concat;
    ChunksSplit(data, offset, lens, [last]);
    ChunksLength(data, offset, lens);
    ChunksRebuildFile(data, offset, lens);
    hide Chunks;
    var read := Concat(Chunks(data, offset, lens));
    NextChunk(data, offset + |read|, [last]);
    NoMoreChunks(data, offset + |read|, last);
    EmptyOnlyAtEnd(data, offset + |read|, last);
    PrefixIsWhole(data, offset, Min(offset + Sum(lens), |data|));
  }

  lemma NoMoreChunks(data: seq<char>, offset: nat, last: nat)
    ensures Chunks(data, offset, [last]) == [Chunk(data, offset, last)]
  {
    hide Chunk;
    assert [last][1..] == [];
  }

  lemma PrefixIsWhole(data: seq<char>, lo: nat, hi: nat)
    requires lo <= hi <= |data|
    ensures data[lo..hi] == data[lo..] <==> hi == |data|
  {
    assert |data[lo..hi]| == hi - lo;
  }

  lemma {:induction false} ChunksLength(data: seq<char>, offset: nat, lens: seq<nat>)
    ensures |Chunks(data, offset, lens)| == |lens|
    decreases |lens|
  {
    if lens != [] {
      ChunksLength(data, offset + |Chunk(data, offset, lens[0])|, lens[1..]);
    }
  }

  // ---------- The descriptor table ----------

  class File {
    const node: Vnode
    var offset: nat
    var refCount: int

    constructor (node: Vnode)
      ensures this.node == node && offset == 0 && refCount == 1
    {
      this.node, offset, refCount := node, 0, 1;
    }
  }

  /** The file can be read: its entry, if the archive still has one, lies within the image. */
  ghost predicate Readable(img: Image, node: Vnode) {
    && '\0' !in node.path
    && var e := FirstWith(img.Entries(0), node.path);
    e.Some? ==> Complete(img, e.value) && e.value.size < 0x8000_0000
  }

  class FdTable {
    const entries: array<File?>

    ghost predicate Valid()
      reads this, entries
    {
      entries.Length == MAX_FDS
    }

    constructor ()
      ensures Valid() && fresh(entries) && forall k | 0 <= k < MAX_FDS :: entries[k] == null
    {
      entries := new File?[MAX_FDS](_ => null);
    }

    predicate Full()
      requires Valid()
      reads this, entries
    {
      forall k | 0 <= k < MAX_FDS :: entries[k] != null
    }

    /** `alloc_fd`: the lowest free descriptor. */
    method Alloc(file: File) returns (fd: int)
      requires Valid()
      modifies entries
      ensures Valid() && (fd == -1 <==> old(Full())) && -1 <= fd < MAX_FDS
      ensures fd == -1 ==> entries[..] == old(entries[..])
      ensures fd >= 0 ==> old(entries[fd]) == null && (forall k | 0 <= k < fd :: old(entries[k]) != null)
                          && entries[..] == old(entries[..])[fd := file]
    {
      for i := 0 to MAX_FDS
        invariant entries[..] == old(entries[..])
        invariant forall k | 0 <= k < i :: entries[k] != null
      {
        if entries[i] == null {
          entries[i] := file;
          return i;
        }
      }
      return -1;
    }

    /** The end of `vfs_open`, once the path is resolved. */
    method Open(node: Vnode) returns (fd: int)
      requires Valid()
      modifies entries
      ensures Valid() && (fd == -1 <==> old(Full())) && -1 <= fd < MAX_FDS
      ensures fd == -1 ==> entries[..] == old(entries[..])
      ensures fd >= 0 ==> old(entries[fd]) == null && (forall k | 0 <= k < fd :: old(entries[k]) != null)
                          && entries[fd] != null && fresh(entries[fd])
                          && entries[fd].node == node && entries[fd].offset == 0 && entries[fd].refCount == 1
                          && entries[..] == old(entries[..])[fd := entries[fd]]
    {
      var file := new File(node);
      fd := Alloc(file);
    }

    /** `vfs_close` in kernel context. */
    method Close(fd: int) returns (r: int)
      requires Valid()
      modifies entries, if 0 <= fd < MAX_FDS && entries.Length == MAX_FDS && entries[fd] != null then {entries[fd]} else {}
      ensures Valid() && (r == -1 <==> !(0 <= fd < MAX_FDS) || old(entries[fd]) == null) && (r == 0 || r == -1)
      ensures entries[..] == if r == 0 then old(entries[..])[fd := null] else old(entries[..])
      ensures r == 0 ==> old(entries[fd]).refCount == old(entries[fd].refCount) - 1
    {
      if fd < 0 || fd >= MAX_FDS || entries[fd] == null {
        return -1;
      }
      var file := entries[fd];
      file.refCount := file.refCount - 1;
      entries[fd] := null;
      return 0;
    }

    /** The open file behind a descriptor, if there is one. */
    predicate IsOpen(fd: int)
      requires Valid()
      reads this, entries
    {
      0 <= fd < MAX_FDS && entries[fd] != null
    }

    /** `vfs_read` on the archive's files: the chunk at the descriptor's offset, which advances by its length; -1 for
        a descriptor that is not open, a directory or a missing entry. */
    method Read(img: Image, fd: int, buf: array<char>, len: nat) returns (n: int)
      requires Valid() && img.Walkable(0) && len <= buf.Length
      requires IsOpen(fd) ==> Readable(img, entries[fd].node)
      modifies buf, if IsOpen(fd) then {entries[fd]} else {}
      ensures Valid() && entries[..] == old(entries[..])
      ensures IsOpen(fd) ==> entries[fd].refCount == old(entries[fd].refCount)
      ensures n == -1 <==> !IsOpen(fd) || entries[fd].node.dir
                           || FirstWith(img.Entries(0), entries[fd].node.path) == None
      ensures n == -1 ==> buf[..] == old(buf[..]) && (IsOpen(fd) ==> entries[fd].offset == old(entries[fd].offset))
      ensures n != -1 ==> var data := DataOf(img, FirstWith(img.Entries(0), entries[fd].node.path).value);
                          var c := Chunk(data, old(entries[fd].offset), len);
                          && n == |c| && buf[..n] == c && buf[n..] == old(buf[n..])
                          && entries[fd].offset == old(entries[fd].offset) + n
    {
      hide Image.Walkable, Image.Entries;
      if fd < 0 || fd >= MAX_FDS || entries[fd] == null {
        return -1;
      }
      var file := entries[fd];
      if file.node.dir {
        return -1;
      }
      n := FileRead(img, file.node.path, buf, len, file.offset);
      if n > 0 {
        file.offset := file.offset + n;
      }
    }
  }
}
