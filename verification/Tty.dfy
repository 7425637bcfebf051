/** The terminal's line discipline: keys edit the current line in a ring, reads take committed lines. */
module Tty {
  import opened Division
  import opened Wrappers
  import opened KThread

  const RING_SIZE: nat := 256
  const BACKSPACE: char := '\U{0008}'

  // ---------- The line discipline on sequences ----------

  /** Characters after the last newline. */
  function OpenLength(s: seq<char>): (n: nat)
    ensures n <= |s|
  {
    if s == [] || s[|s| - 1] == '\n' then 0 else OpenLength(s[..|s| - 1]) + 1
  }

  datatype Line = Line(contents: seq<char>, lineLen: nat) {
    predicate Ok() {
      |contents| <= RING_SIZE && lineLen == OpenLength(contents)
    }

    /** A backspace needs a character on the open line, any other key needs room. */
    predicate Accepts(c: char) {
      if c == BACKSPACE then lineLen > 0 else |contents| < RING_SIZE
    }

    function Push(c: char): Line {
      if !Accepts(c) then this
      else if c == BACKSPACE then (if contents == [] then this else Line(contents[..|contents| - 1], lineLen - 1))
      else Line(contents + [c], if c == '\n' then 0 else lineLen + 1)
    }

    function PushAll(keys: seq<char>): Line
      decreases |keys|
    {
      if keys == [] then this else Push(keys[0]).PushAll(keys[1..])
    }

    predicate HasLine() {
      '\n' in contents
    }

    /** How much a read of at most `len` bytes takes: up to and including the first newline. */
    function Takes(len: nat): (n: nat)
      ensures n <= |contents|
    {
      TakeFrom(contents, len)
    }

    function AfterRead(len: nat): Line {
      Line(contents[Takes(len)..], lineLen)
    }
  }

  function TakeFrom(s: seq<char>, len: nat): (n: nat)
    ensures n <= |s| && n <= len
    ensures forall k | 0 <= k < n - 1 :: s[k] != '\n'
  {
    if s == [] || len == 0 then 0
    else if s[0] == '\n' then 1
    else
      var rest := TakeFrom(s[1..], len - 1);
      assert forall k | 0 < k < rest :: s[k] == s[1..][k - 1];
      1 + rest
  }

  lemma TakeFromStep(s: seq<char>, len: nat)
    requires s != [] && len > 0
    ensures TakeFrom(s, len) == if s[0] == '\n' then 1 else 1 + TakeFrom(s[1..], len - 1)
  {
  }

  /** Plain line editing: a backspace erases the last character unless that is a newline. */
  function EditOne(text: seq<char>, c: char): seq<char> {
    if c != '\U{0008}' then text + [c]
    else if text != [] && text[|text| - 1] != '\n' then text[..|text| - 1]
    else text
  }

  function Edit(text: seq<char>, keys: seq<char>): seq<char>
    decreases |keys|
  {
    if keys == [] then text else Edit(EditOne(text, keys[0]), keys[1..])
  }

  lemma {:induction false} EditAppends(text: seq<char>, a: seq<char>, b: seq<char>)
    ensures Edit(text, a + b) == Edit(Edit(text, a), b)
    decreases |a|
  {
    if a == [] {
      assert a + b == b;
    } else {
      assert (a + b)[0] == a[0] && (a + b)[1..] == a[1..] + b;
      EditAppends(EditOne(text, a[0]), a[1..], b);
    }
  }

  // ---------- Invariants of single steps ----------

  lemma PushKeepsOk(l: Line, c: char)
    requires l.Ok()
    ensures l.Push(c).Ok()
  {
    assert (l.contents + [c])[..|l.contents|] == l.contents;
  }

  lemma {:induction false} OpenLengthOfSuffix(s: seq<char>, n: nat)
    requires (n < |s| && '\n' in s[n..]) || n == 0
    requires n <= |s|
    ensures OpenLength(s[n..]) == OpenLength(s)
    decreases |s|
  {
    if n == 0 {
      assert s[0..] == s;
    } else {
      var last := |s| - 1;
      assert s[n..][|s[n..]| - 1] == s[last];
      if s[last] != '\n' {
        assert s[n..][..|s[n..]| - 1] == s[..last][n..];
        var k :| 0 <= k < |s[n..]| && s[n..][k] == '\n';
        assert s[..last][n..][k] == '\n';
        OpenLengthOfSuffix(s[..last], n);
      }
    }
  }

  /** What was read ends where a line ended, unless the rest of that line is still in the ring. */
  predicate Aligned(read: seq<char>, contents: seq<char>) {
    read == [] || read[|read| - 1] == '\n' || '\n' in contents
  }

  lemma {:induction false} TakesUpToNewline(s: seq<char>, len: nat, k: nat)
    requires k < |s| && s[k] == '\n'
    ensures var n := TakeFrom(s, len);
            n <= k + 1 && (n == len || (n > 0 && s[n - 1] == '\n'))
    decreases len
  {
    hide TakeFrom;
    if len > 0 {
      TakeFromStep(s, len);
      if s[0] != '\n' {
        TakesUpToNewline(s[1..], len - 1, k - 1);
      }
    }
  }

  /** A read takes a prefix of the first committed line, and the whole of it if there is room. */
  lemma ReadTakesOneLine(s: seq<char>, len: nat)
    requires '\n' in s
    ensures var n := TakeFrom(s, len);
            && (n == len || (n > 0 && s[n - 1] == '\n'))
            && ((n > 0 && s[n - 1] == '\n') || '\n' in s[n..])
  {
    hide TakeFrom;
    var k :| 0 <= k < |s| && s[k] == '\n';
    TakesUpToNewline(s, len, k);
    var n := TakeFrom(s, len);
    if n <= k {
      assert s[n..][k - n] == '\n';
    }
  }

  lemma ReadKeepsOk(l: Line, len: nat)
    requires l.Ok() && l.HasLine()
    ensures l.AfterRead(len).Ok()
  {
    var n := l.Takes(len);
    ReadTakesOneLine(l.contents, len);
    if n > 0 && l.contents[n - 1] == '\n' {
      OpenLengthAfterNewline(l.contents, n);
    } else {
      OpenLengthOfSuffix(l.contents, n);
    }
  }

  lemma {:induction false} OpenLengthAfterNewline(s: seq<char>, n: nat)
    requires 0 < n <= |s| && s[n - 1] == '\n'
    ensures OpenLength(s[n..]) == OpenLength(s)
    decreases |s|
  {
    if n < |s| {
      var last := |s| - 1;
      assert s[n..][|s[n..]| - 1] == s[last];
      if s[last] != '\n' {
        assert s[n..][..|s[n..]| - 1] == s[..last][n..];
        OpenLengthAfterNewline(s[..last], n);
      }
    }
  }

  // ---------- Interleavings ----------

  datatype Event = Key(c: char) | Read(len: nat)

  predicate Enabled(l: Line, e: Event) {
    e.Read? ==> l.HasLine()
  }

  function Next(l: Line, e: Event): Line {
    match e
    case Key(c) => l.Push(c)
    case Read(len) => l.AfterRead(len)
  }

  predicate Runs(l: Line, events: seq<Event>)
    decreases |events|
  {
    events == [] || (Enabled(l, events[0]) && Runs(Next(l, events[0]), events[1..]))
  }

  function Final(l: Line, events: seq<Event>): Line
    decreases |events|
  {
    if events == [] then l else Final(Next(l, events[0]), events[1..])
  }

  /** The key an event adds, unless it is dropped. */
  function Got(l: Line, e: Event): seq<char> {
    if e.Key? && l.Accepts(e.c) then [e.c] else []
  }

  /** The bytes an event returns. */
  function Gave(l: Line, e: Event): seq<char> {
    match e
    case Key(_) => []
    case Read(len) => l.contents[..l.Takes(len)]
  }

  /** The keys not dropped, in order. */
  function Accepted(l: Line, events: seq<Event>): seq<char>
    decreases |events|
  {
    if events == [] then [] else Got(l, events[0]) + Accepted(Next(l, events[0]), events[1..])
  }

  /** All bytes returned by the reads, in order. */
  function Output(l: Line, events: seq<Event>): seq<char>
    decreases |events|
  {
    if events == [] then [] else Gave(l, events[0]) + Output(Next(l, events[0]), events[1..])
  }

  /** Pushing an accepted key edits the text read so far together with the ring. */
  lemma PushIsEdit(read: seq<char>, l: Line, c: char)
    requires l.Ok() && Aligned(read, l.contents) && l.Accepts(c)
    ensures read + l.Push(c).contents == EditOne(read + l.contents, c)
    ensures Aligned(read, l.Push(c).contents)
  {
    var text, n := read + l.contents, |l.contents|;
    if c == BACKSPACE {
      assert n > 0 && l.contents[n - 1] != '\n';
      assert text[|text| - 1] == l.contents[n - 1];
      if '\n' in l.contents {
        var k :| 0 <= k < n && l.contents[k] == '\n';
        assert l.contents[..n - 1][k] == '\n';
      }
    } else if '\n' in l.contents {
      var k :| 0 <= k < n && l.contents[k] == '\n';
      assert (l.contents + [c])[k] == '\n';
    }
  }

  lemma ReadKeepsAligned(read: seq<char>, l: Line, len: nat)
    requires Aligned(read, l.contents) && l.HasLine()
    ensures Aligned(read + l.contents[..l.Takes(len)], l.AfterRead(len).contents)
  {
    ReadTakesOneLine(l.contents, len);
  }

  lemma EventIsEdit(read: seq<char>, l: Line, e: Event)
    requires l.Ok() && Aligned(read, l.contents) && Enabled(l, e)
    ensures Next(l, e).Ok() && Aligned(read + Gave(l, e), Next(l, e).contents)
    ensures read + Gave(l, e) + Next(l, e).contents == Edit(read + l.contents, Got(l, e))
  {
    hide Line.Ok, Line.Push, Line.Accepts, Aligned, Edit, EditOne, TakeFrom;
    match e {
      case Key(c) =>
        PushKeepsOk(l, c);
        assert read + Gave(l, e) == read;
        if l.Accepts(c) {
          PushIsEdit(read, l, c);
          EditSingle(read + l.contents, c);
        } else {
          DroppedKey(l, c);
          EditNothing(read + l.contents);
        }
      case Read(len) =>
        ReadKeepsOk(l, len);
        ReadKeepsAligned(read, l, len);
        EditNothing(read + l.contents);
        assert read + Gave(l, e) + Next(l, e).contents == read + l.contents;
    }
  }

  lemma DroppedKey(l: Line, c: char)
    requires !l.Accepts(c)
    ensures l.Push(c) == l
  {
  }

  lemma EditNothing(text: seq<char>)
    ensures Edit(text, []) == text
  {
  }

  lemma EditSingle(text: seq<char>, c: char)
    ensures Edit(text, [c]) == EditOne(text, c)
  {
    assert [c][1..] == [];
  }

  /** For every interleaving of keys and reads: what was read, followed by the ring, is the accepted keys edited
      line by line; the line length counts the characters of the open line. */
  lemma {:induction false} OutputIsEditedInput(read: seq<char>, l: Line, events: seq<Event>)
    requires l.Ok() && Aligned(read, l.contents) && Runs(l, events)
    ensures Final(l, events).Ok()
    ensures Aligned(read + Output(l, events), Final(l, events).contents)
    ensures read + Output(l, events) + Final(l, events).contents == Edit(read + l.contents, Accepted(l, events))
    decreases |events|
  {
    hide Aligned, Line.Ok, Next, Gave, Got, Enabled, Edit;
    if events == [] {
      assert read + [] == read;
      EditNothing(read + l.contents);
    } else {
      var e, rest := events[0], events[1..];
      EventIsEdit(read, l, e);
      OutputIsEditedInput(read + Gave(l, e), Next(l, e), rest);
      EditAppends(read + l.contents, Got(l, e), Accepted(Next(l, e), rest));
      assert read + Output(l, events) == read + Gave(l, e) + Output(Next(l, e), rest);
    }
  }

  /** A key is without effect exactly when it is a backspace on an empty line or any other key on a full ring. */
  lemma KeyIsLostIff(l: Line, c: char)
    requires l.Ok()
    ensures l.Push(c) == l <==> if c == '\U{0008}' then OpenLength(l.contents) == 0 else |l.contents| >= 256
  {
    if c != BACKSPACE && |l.contents| < RING_SIZE {
      assert |l.Push(c).contents| == |l.contents| + 1;
    }
  }

  /** A line that fills the ring can no longer be committed: only a backspace makes room. */
  lemma {:induction false} FullLineIsStuck(l: Line, keys: seq<char>)
    requires |l.contents| == RING_SIZE && !l.HasLine() && BACKSPACE !in keys
    ensures l.PushAll(keys) == l
    decreases |keys|
  {
    if keys != [] {
      assert keys[0] in keys && forall k <- keys[1..] :: k in keys;
      FullLineIsStuck(l, keys[1..]);
    }
  }

  // ---------- The code, over the ring ----------

  /** What a key does to the line, case by case as the code finds it. */
  lemma PushCases(l: Line, c: char)
    requires l.Ok()
    ensures var n := |l.contents|;
            && l.lineLen <= n
            && (c == BACKSPACE && l.lineLen > 0 ==> l.Push(c) == Line(l.contents[..n - 1], l.lineLen - 1))
            && (c == BACKSPACE && l.lineLen == 0 ==> l.Push(c) == l)
            && (c != BACKSPACE && n == RING_SIZE ==> l.Push(c) == l)
            && (c != BACKSPACE && n < RING_SIZE ==>
                  l.Push(c) == Line(l.contents + [c], if c == '\n' then 0 else l.lineLen + 1))
  {
  }

  /** An event at a halt: a key is pushed, another reader takes a line if there is one. */
  function Happen(l: Line, e: Event): Line {
    if Enabled(l, e) then Next(l, e) else l
  }

  function AllHappen(l: Line, events: seq<Event>): Line
    decreases |events|
  {
    if events == [] then l else AllHappen(Happen(l, events[0]), events[1..])
  }

  /** The keys accepted during a halt, in order. */
  function Echoed(l: Line, events: seq<Event>): seq<char>
    decreases |events|
  {
    if events == [] then [] else Got(l, events[0]) + Echoed(Happen(l, events[0]), events[1..])
  }

  /** The line after the events of the first `k` halts; batch `i` happens while the reader halts for the i-th time. */
  function AfterHalts(l: Line, batches: seq<seq<Event>>, k: nat): Line
    requires k <= |batches|
  {
    if k == 0 then l else AllHappen(AfterHalts(l, batches, k - 1), batches[k - 1])
  }

  /** What the console shows for the keys of the first `k` halts. */
  function EchoAfter(l: Line, batches: seq<seq<Event>>, k: nat): seq<char>
    requires k <= |batches|
  {
    if k == 0 then [] else EchoAfter(l, batches, k - 1) + Echoed(AfterHalts(l, batches, k - 1), batches[k - 1])
  }

  /** What other readers take during the events. */
  function TakenIn(l: Line, events: seq<Event>): seq<char>
    decreases |events|
  {
    if events == [] then []
    else (if Enabled(l, events[0]) then Gave(l, events[0]) else []) + TakenIn(Happen(l, events[0]), events[1..])
  }

  /** Over a halt: what has been read, by whomever, followed by the ring, is the text with the echoed keys edited in. */
  lemma {:induction false} HaltIsEdit(read: seq<char>, l: Line, events: seq<Event>)
    requires l.Ok() && Aligned(read, l.contents)
    ensures AllHappen(l, events).Ok() && Aligned(read + TakenIn(l, events), AllHappen(l, events).contents)
    ensures read + TakenIn(l, events) + AllHappen(l, events).contents == Edit(read + l.contents, Echoed(l, events))
    decreases |events|
  {
    hide Aligned, Line.Ok, Next, Gave, Edit, Enabled;
    if events == [] {
      assert read + [] == read;
      EditNothing(read + l.contents);
    } else {
      var e, rest := events[0], events[1..];
      var n, gave := Happen(l, e), if Enabled(l, e) then Gave(l, e) else [];
      if Enabled(l, e) {
        EventIsEdit(read, l, e);
      } else {
        NothingGot(l, e);
        assert read + [] == read;
        EditNothing(read + l.contents);
      }
      HaltIsEdit(read + gave, n, rest);
      EditAppends(read + l.contents, Got(l, e), Echoed(n, rest));
      assert read + TakenIn(l, events) == read + gave + TakenIn(n, rest);
    }
  }

  lemma NothingGot(l: Line, e: Event)
    requires !Enabled(l, e)
    ensures Got(l, e) == []
  {
  }

  /** Over all halts of a read likewise: the line it then takes from is the keys on the console edited line by line,
      behind what others have read meanwhile. */
  lemma {:induction false} HaltsAreEdits(read: seq<char>, l: Line, batches: seq<seq<Event>>, k: nat) returns (taken: seq<char>)
    requires l.Ok() && Aligned(read, l.contents) && k <= |batches|
    ensures AfterHalts(l, batches, k).Ok() && Aligned(read + taken, AfterHalts(l, batches, k).contents)
    ensures read + taken + AfterHalts(l, batches, k).contents == Edit(read + l.contents, EchoAfter(l, batches, k))
  {
    hide Aligned, Line.Ok, Edit, AllHappen, Echoed, TakenIn;
    if k == 0 {
      taken := [];
      assert read + [] == read;
      EditNothing(read + l.contents);
    } else {
      var before := HaltsAreEdits(read, l, batches, k - 1);
      var m := AfterHalts(l, batches, k - 1);
      HaltIsEdit(read + before, m, batches[k - 1]);
      taken := before + TakenIn(m, batches[k - 1]);
      assert read + taken == read + before + TakenIn(m, batches[k - 1]);
      EditAppends(read + l.contents, EchoAfter(l, batches, k - 1), Echoed(m, batches[k - 1]));
    }
  }

  /** `out` has been taken from `was`, `rest` is left. */
  ghost predicate Draining(was: seq<char>, len: nat, out: seq<char>, rest: seq<char>) {
    |out| <= len && was == out + rest && TakeFrom(was, len) == |out| + TakeFrom(rest, len - |out|)
  }

  ghost predicate Drained(was: seq<char>, len: nat, out: seq<char>, rest: seq<char>) {
    |out| <= len && was == out + rest && TakeFrom(was, len) == |out|
  }

  lemma DrainStart(was: seq<char>, len: nat)
    ensures Draining(was, len, [], was)
  {
  }

  lemma DrainStep(was: seq<char>, len: nat, out: seq<char>, rest: seq<char>)
    requires Draining(was, len, out, rest) && |out| < len && rest != []
    ensures if rest[0] == '\n' then Drained(was, len, out + [rest[0]], rest[1..])
            else Draining(was, len, out + [rest[0]], rest[1..])
  {
    TakeFromStep(rest, len - |out|);
    assert out + rest == (out + [rest[0]]) + rest[1..];
  }

  lemma DrainEnd(was: seq<char>, len: nat, out: seq<char>, rest: seq<char>)
    requires Draining(was, len, out, rest) && (|out| == len || rest == [])
    ensures Drained(was, len, out, rest)
  {
  }

  /** The ring slot `i` places after slot `start`. */
  function Slot(start: nat, i: nat): (k: nat)
    ensures k < RING_SIZE
  {
    (start + i) % RING_SIZE
  }

  lemma SlotsDiffer(start: nat, i: nat, j: nat)
    requires i < j < RING_SIZE
    ensures Slot(start, i) != Slot(start, j)
  {
  }

  lemma SlotShift(start: nat, i: nat)
    requires start < RING_SIZE
    ensures Slot(Slot(start, 1), i) == Slot(start, i + 1) == Slot(Slot(start, i), 1)
    ensures Slot(start, 0) == start
  {
    Successor(start, RING_SIZE);
    Successor(start + i, RING_SIZE);
    AddMultiple(i, RING_SIZE, 1);
  }

  lemma SlotBack(start: nat, i: nat)
    ensures Slot(Slot(start, i + 1), RING_SIZE - 1) == Slot(start, i)
  {
    Successor(start + i, RING_SIZE);
    AddMultiple(Slot(start, i), RING_SIZE, 1);
  }

  function ContentsOf(ring: seq<char>, start: nat, count: nat): (s: seq<char>)
    requires |ring| == RING_SIZE
    ensures |s| == count
  {
    seq(count, i requires 0 <= i => ring[Slot(start, i)])
  }

  /** The reader at a halt: the state of its thread, and whether the next interrupt is asked to switch threads. */
  datatype AtHalt = AtHalt(thread: ThreadState, switch: bool)

  class Terminal {
    const ring: array<char>
    var ringRead: nat
    var ringWrite: nat
    var ringCount: nat
    var lineLen: nat
    var console: seq<char>
    var current: ThreadState
    var schedulePending: bool

    /** How the reader stood at each halt so far. */
    ghost var halted: seq<AtHalt>

    ghost predicate RingOk()
      reads `ringRead, `ringWrite, `ringCount
    {
      && ring.Length == RING_SIZE && ringRead < RING_SIZE && ringCount <= RING_SIZE
      && ringWrite == Slot(ringRead, ringCount)
    }

    ghost predicate Valid()
      reads `ringRead, `ringWrite, `ringCount, `lineLen, ring
    {
      RingOk() && Abstract().Ok()
    }

    /** The characters in the ring, oldest first. */
    ghost function Contents(): (s: seq<char>)
      requires ring.Length == RING_SIZE
      reads `ringRead, `ringCount, ring
      ensures |s| == ringCount
    {
      ContentsOf(ring[..], ringRead, ringCount)
    }

    ghost function Abstract(): Line
      requires ring.Length == RING_SIZE
      reads `ringRead, `ringCount, `lineLen, ring
    {
      Line(Contents(), lineLen)
    }

    constructor ()
      ensures Valid() && Abstract() == Line([], 0) && fresh(ring) && console == [] && halted == []
    {
      ring := new char[RING_SIZE](_ => '\0');
      console, current, schedulePending, halted := [], Running, false, [];
      ringRead, ringWrite, ringCount, lineLen := 0, 0, 0, 0;
    }

    method Append(c: char)
      requires RingOk() && ringCount < RING_SIZE
      modifies this`ringWrite, this`ringCount, ring
      ensures RingOk() && Contents() == old(Contents()) + [c]
    {
      hide Slot;
      ghost var was := Contents();
      ring[ringWrite] := c;
      SlotShift(ringRead, ringCount);
      forall i: nat | i < ringCount
        ensures ring[Slot(ringRead, i)] == was[i]
      {
        SlotsDiffer(ringRead, i, ringCount);
      }
      ringWrite := Slot(ringWrite, 1);
      ringCount := ringCount + 1;
    }

    method EraseLast()
      requires RingOk() && ringCount > 0
      modifies this`ringWrite, this`ringCount
      ensures RingOk() && ringCount == old(ringCount) - 1 && Contents() == old(Contents())[..old(ringCount) - 1]
    {
      SlotBack(ringRead, ringCount - 1);
      hide Slot;
      ringWrite := Slot(ringWrite, RING_SIZE - 1);
      ringCount := ringCount - 1;
    }

    method TakeFirst() returns (c: char)
      requires RingOk() && ringCount > 0
      modifies this`ringRead, this`ringCount
      ensures RingOk() && ringCount == old(ringCount) - 1
      ensures c == old(Contents())[0] && Contents() == old(Contents())[1..]
    {
      hide Slot;
      ghost var was, count := Contents(), ringCount;
      SlotShift(ringRead, ringCount - 1);
      c := ring[ringRead];
      forall i: nat | i < count - 1
        ensures ring[Slot(Slot(ringRead, 1), i)] == was[i + 1]
      {
        SlotShift(ringRead, i);
      }
      ringRead := Slot(ringRead, 1);
      ringCount := ringCount - 1;
    }

    method Insert(c: char)
      requires Valid() && c != BACKSPACE && ringCount < RING_SIZE
      modifies this`ringWrite, this`ringCount, this`lineLen, ring
      ensures Valid() && Abstract() == old(Abstract()).Push(c)
    {
      PushKeepsOk(Abstract(), c);
      PushCases(Abstract(), c);
      hide Slot, OpenLength, Line.Ok, Line.Push;
      Append(c);
      lineLen := if c == '\n' then 0 else lineLen + 1;
    }

    method Backspace()
      requires Valid()
      modifies this`ringWrite, this`ringCount, this`lineLen, this`console
      ensures Valid() && Abstract() == old(Abstract()).Push(BACKSPACE)
      ensures console == old(console) + Got(old(Abstract()), Key(BACKSPACE))
    {
      PushKeepsOk(Abstract(), BACKSPACE);
      PushCases(Abstract(), BACKSPACE);
      hide Slot, OpenLength, Line.Ok, Line.Push;
      if lineLen == 0 {
        return;
      }
      if ringCount > 0 {
        EraseLast();
        lineLen := lineLen - 1;
      }
      console := console + [BACKSPACE];
    }

    /** A key arrives from the keyboard interrupt: it edits the line, is echoed, and wakes the current thread if that
        is blocked; a backspace wakes nobody. */
    method InputPush(c: char)
      requires Valid()
      modifies this, ring
      ensures halted == old(halted)
      ensures Valid() && Abstract() == old(Abstract()).Push(c)
      ensures console == old(console) + Got(old(Abstract()), Key(c))
      ensures var wakes := old(Abstract().Accepts(c)) && c != BACKSPACE && old(current) == Blocked;
              && current == (if wakes then Ready else old(current))
              && schedulePending == (wakes || old(schedulePending))
    {
      hide Slot, OpenLength, Line.Push;
      PushCases(Abstract(), c);
      if c == BACKSPACE {
        Backspace();
        return;
      }
      if ringCount >= RING_SIZE {
        return;
      }
      Insert(c);
      console := console + [c];
      if current == Blocked {
        current := Ready;
        schedulePending := true;
      }
    }

    /** Scans the ring for a newline. */
    method HasNewline() returns (found: bool)
      requires Valid()
      ensures found <==> Abstract().HasLine()
    {
      var i := 0;
      while i < ringCount
        invariant i <= ringCount
        invariant forall k | 0 <= k < i :: Contents()[k] != '\n'
      {
        if ring[Slot(ringRead, i)] == '\n' {
          assert Contents()[i] == '\n';
          return true;
        }
        i := i + 1;
      }
      return false;
    }

    /** Copies out up to `len` characters, stopping after a newline. */
    method CopyOut(len: nat) returns (out: seq<char>)
      requires RingOk()
      modifies this`ringRead, this`ringCount
      ensures RingOk() && Drained(old(Contents()), len, out, Contents())
    {
      hide Slot, TakeFrom, Draining, Drained, Contents;
      ghost var was := Contents();
      DrainStart(was, len);
      out := [];
      while |out| < len && ringCount > 0
        invariant RingOk() && |out| <= len && Draining(was, len, out, Contents())
      {
        DrainStep(was, len, out, Contents());
        var c := TakeFirst();
        out := out + [c];
        if c == '\n' {
          return;
        }
      }
      assert |Contents()| == ringCount;
      DrainEnd(was, len, out, Contents());
    }

    method Drain(len: nat) returns (out: seq<char>)
      requires Valid() && Abstract().HasLine()
      modifies this`ringRead, this`ringCount
      ensures Valid() && Abstract() == old(Abstract()).AfterRead(len)
      ensures out == old(Contents())[..old(Abstract()).Takes(len)]
    {
      ReadKeepsOk(Abstract(), len);
      hide Line.Ok, Contents, OpenLength, Slot, TakeFrom;
      out := CopyOut(len);
    }

    /** An interrupt or another reader, while this reader halts. */
    method Interrupt(e: Event)
      requires Valid()
      modifies this, ring
      ensures halted == old(halted)
      ensures Valid() && Abstract() == Happen(old(Abstract()), e)
      ensures console == old(console) + Got(old(Abstract()), e)
    {
      hide Line.Ok, OpenLength, TakeFrom, Slot, Line.Push, Contents, Line.HasLine;
      match e {
        case Key(c) =>
          InputPush(c);
        case Read(len) =>
          var hasNewline := HasNewline();
          if hasNewline {
            var taken := Drain(len);
          }
      }
    }

    /** A halt: keys arrive and other readers take lines, in any order. */
    method Halt(events: seq<Event>)
      requires Valid()
      modifies this, ring
      ensures halted == old(halted) + [AtHalt(old(current), old(schedulePending))]
      ensures Valid() && Abstract() == AllHappen(old(Abstract()), events)
      ensures console == old(console) + Echoed(old(Abstract()), events)
    {
      hide Line.Ok, Slot, Contents, Happen, Got;
      halted := halted + [AtHalt(current, schedulePending)];
      for i := 0 to |events|
        invariant Valid() && halted == old(halted) + [AtHalt(old(current), old(schedulePending))]
        invariant AllHappen(Abstract(), events[i..]) == AllHappen(old(Abstract()), events)
        invariant console + Echoed(Abstract(), events[i..]) == old(console) + Echoed(old(Abstract()), events)
      {
        assert events[i..][1..] == events[i + 1..];
        Interrupt(events[i]);
      }
    }

    /** Blocks the current thread over one halt. */
    method Block(events: seq<Event>)
      requires Valid()
      modifies this, ring
      ensures halted == old(halted) + [AtHalt(Blocked, true)]
      ensures Valid() && Abstract() == AllHappen(old(Abstract()), events)
      ensures console == old(console) + Echoed(old(Abstract()), events) && current == Running
    {
      hide AllHappen, Echoed;
      current := Blocked;
      schedulePending := true;
      Halt(events);
      current := Running;
    }

    /** Halts until a line is committed, then takes from it; `None` when the given batches bring no line. The reader
        is running again afterwards, the console shows every key accepted meanwhile, and at each halt the reader was
        blocked and had asked for a switch. */
    method Read(len: nat, batches: seq<seq<Event>>) returns (r: Option<seq<char>>, halts: nat)
      requires Valid()
      modifies this, ring
      ensures Valid() && halts <= |batches|
      ensures forall k | 0 <= k < halts :: !old(AfterHalts(Abstract(), batches, k)).HasLine()
      ensures r.Some? ==> var l := AfterHalts(old(Abstract()), batches, halts);
                          l.HasLine() && r.value == l.contents[..l.Takes(len)] && Abstract() == l.AfterRead(len)
      ensures r.None? ==> halts == |batches| && Abstract() == AfterHalts(old(Abstract()), batches, halts)
                          && !Abstract().HasLine()
      ensures console == old(console) + EchoAfter(old(Abstract()), batches, halts)
      ensures current == if halts > 0 then Running else old(current)
      ensures halted == old(halted) + seq(halts, _ => AtHalt(Blocked, true))
    {
      hide Line.Ok, AllHappen, Echoed, Contents, TakeFrom;
      halts := 0;
      while true
        invariant Valid() && halts <= |batches| && Abstract() == AfterHalts(old(Abstract()), batches, halts)
        invariant forall k | 0 <= k < halts :: !old(AfterHalts(Abstract(), batches, k)).HasLine()
        invariant console == old(console) + EchoAfter(old(Abstract()), batches, halts)
        invariant current == if halts > 0 then Running else old(current)
        invariant halted == old(halted) + seq(halts, _ => AtHalt(Blocked, true))
        decreases |batches| - halts
      {
        if ringCount > 0 {
          var hasNewline := HasNewline();
          if hasNewline {
            break;
          }
        }
        if halts == |batches| {
          return None, halts;
        }
        Block(batches[halts]);
        halts := halts + 1;
      }
      var out := Drain(len);
      return Some(out), halts;
    }
  }
}
