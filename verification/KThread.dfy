/** The round-robin scheduler over the circular run list. */
module KThread {
  import opened Wrappers

  datatype ThreadState = Ready | Running | Blocked | Dead {
    predicate Runnable() { this == Ready || this == Running }
  }

  // ---------- The ring by position ----------

  /** `d` places after position `c` on a ring of `n`. */
  function Walk(c: nat, d: nat, n: nat): (p: nat)
    requires c < n && d <= n
    ensures p < n
  {
    if c + d < n then c + d else c + d - n
  }

  /** How far position `t` lies after position `c`: from 1 to `n`. */
  function Distance(c: nat, t: nat, n: nat): (d: nat)
    requires c < n && t < n
    ensures 1 <= d <= n && Walk(c, d, n) == t
  {
    if t > c then t - c else t + n - c
  }

  /** The least distance from `d` on at which a runnable thread lies after `c`; past `n` there is none. */
  function FirstRunnable(states: seq<ThreadState>, c: nat, d: nat): (r: nat)
    requires c < |states| && 1 <= d <= |states| + 1
    ensures d <= r <= |states| + 1
    ensures r <= |states| ==> states[Walk(c, r, |states|)].Runnable()
    ensures forall k | d <= k < r :: !states[Walk(c, k, |states|)].Runnable()
    decreases |states| + 1 - d
  {
    if d > |states| || states[Walk(c, d, |states|)].Runnable() then d else FirstRunnable(states, c, d + 1)
  }

  /** The scheduler's state, with threads named by their position on the ring. */
  datatype Sched = Sched(states: seq<ThreadState>, curr: nat, idle: nat) {
    predicate Ok() {
      curr < |states| && idle < |states|
    }

    /** The next runnable thread after the current one, itself last; the idle thread if there is none. */
    function Next(): (p: nat)
      requires Ok()
      ensures p < |states|
    {
      var d := FirstRunnable(states, curr, 1);
      if d <= |states| then Walk(curr, d, |states|) else idle
    }

    /** The thread switched away from becomes ready whatever its state was. */
    function Switch(): Sched
      requires Ok()
    {
      if Next() == curr then this
      else Sched(states[curr := Ready][Next() := Running], Next(), idle)
    }

    /** No thread but the current one is running. */
    predicate OnlyCurrentRuns()
      requires Ok()
    {
      forall i | 0 <= i < |states| && i != curr :: states[i] != Running
    }
  }

  // ---------- Properties ----------

  lemma SwitchKeepsOneRunning(s: Sched)
    requires s.Ok() && s.OnlyCurrentRuns()
    ensures s.Switch().Ok() && s.Switch().OnlyCurrentRuns()
  {
  }

  /** Whenever the current thread changes, the one left is ready, the one entered is running, and every other thread
      keeps its state; otherwise nothing changes. */
  lemma SwitchHandsOver(s: Sched)
    requires s.Ok()
    ensures var t := s.Switch();
            && |t.states| == |s.states| && t.idle == s.idle && t.curr < |t.states|
            && (t.curr == s.curr ==> t == s)
            && (t.curr != s.curr ==> t.states[s.curr] == Ready && t.states[t.curr] == Running)
            && forall i | 0 <= i < |s.states| && i != s.curr && i != t.curr :: t.states[i] == s.states[i]
  {
  }

  /** A switch lands on the ready thread, or strictly between the current one and it. */
  lemma SwitchComesCloser(s: Sched, t: nat)
    requires s.Ok() && t < |s.states| && t != s.curr && s.states[t] == Ready
    ensures s.Switch().curr == s.Next() != s.curr
    ensures s.Next() == t || Distance(s.Next(), t, |s.states|) < Distance(s.curr, t, |s.states|)
  {
    var n, d := |s.states|, FirstRunnable(s.states, s.curr, 1);
    assert s.states[Walk(s.curr, Distance(s.curr, t, n), n)].Runnable();
    assert d <= Distance(s.curr, t, n) < n;
  }

  /** A timer switch, or a change that an interrupt or a system call makes to one thread's state in between. */
  datatype Event = Timer | Change(i: nat, state: ThreadState)

  function After(s: Sched, e: Event): (t: Sched)
    requires s.Ok()
    ensures t.Ok() && |t.states| == |s.states|
  {
    match e
    case Timer => s.Switch()
    case Change(i, state) => if i < |s.states| then s.(states := s.states[i := state]) else s
  }

  /** The state after events, each switch working on what the ones before it left. */
  function Run(s: Sched, events: seq<Event>): (t: Sched)
    requires s.Ok()
    ensures t.Ok() && |t.states| == |s.states|
    decreases |events|
  {
    if events == [] then s else Run(After(s, events[0]), events[1..])
  }

  function Timers(events: seq<Event>): nat {
    if events == [] then 0 else (if events[0].Timer? then 1 else 0) + Timers(events[1..])
  }

  /** Nothing makes thread `t` unable to run. */
  predicate NeverStops(events: seq<Event>, t: nat) {
    forall e <- events :: e.Change? && e.i == t ==> e.state.Runnable()
  }

  /** The thread is current again after one of the switches, of which there are no more than `bound`. */
  ghost predicate DispatchedWithin(s: Sched, events: seq<Event>, t: nat, bound: nat)
    requires s.Ok()
  {
    exists k :: 0 < k <= |events| && events[k - 1].Timer? && Timers(events[..k]) <= bound && Run(s, events[..k]).curr == t
  }

  /** Bounded waiting over iterated switches: a thread that nobody blocks, be it ready or the one running now, is
      dispatched (again) within its distance on the ring, whatever happens to the other threads in between. */
  lemma {:induction false} EveryThreadIsDispatched(s: Sched, events: seq<Event>, t: nat)
    requires s.Ok() && t < |s.states| && s.states[t].Runnable() && NeverStops(events, t)
    requires Timers(events) >= Distance(s.curr, t, |s.states|)
    ensures DispatchedWithin(s, events, t, Distance(s.curr, t, |s.states|))
    decreases |events|
  {
    hide Sched.Switch, Sched.Next;
    var e, rest := events[0], events[1..];
    var n, d := After(s, e), Distance(s.curr, t, |s.states|);
    assert e in events && forall x <- rest :: x in events;
    if e.Timer? {
      TimerComesCloser(s, t);
      if n.curr == t {
        OneEvent(s, events);
        assert events[1 - 1].Timer?;
      } else {
        EveryThreadIsDispatched(n, rest, t);
        LaterEvents(s, events, t, Distance(n.curr, t, |s.states|), d);
      }
    } else {
      EveryThreadIsDispatched(n, rest, t);
      LaterEvents(s, events, t, d, d);
    }
  }

  /** A thread switched away from is dispatched again, whatever state it was in: one that has exited or is blocked, too. */
  lemma LeftThreadRunsAgain(s: Sched, events: seq<Event>)
    requires s.Ok() && s.Switch().curr != s.curr && NeverStops(events, s.curr)
    requires Timers(events) >= Distance(s.Switch().curr, s.curr, |s.states|)
    ensures DispatchedWithin(s.Switch(), events, s.curr, |s.states| - 1)
  {
    SwitchHandsOver(s);
    hide Sched.Switch;
    EveryThreadIsDispatched(s.Switch(), events, s.curr);
  }

  /** After a switch the thread is current, or still runnable and strictly closer. */
  lemma TimerComesCloser(s: Sched, t: nat)
    requires s.Ok() && t < |s.states| && s.states[t].Runnable()
    ensures var u := s.Switch();
            && u.Ok() && |u.states| == |s.states| && u.states[t].Runnable()
            && (u.curr != t ==> Distance(u.curr, t, |s.states|) < Distance(s.curr, t, |s.states|))
  {
    var n, d := |s.states|, FirstRunnable(s.states, s.curr, 1);
    assert s.states[Walk(s.curr, Distance(s.curr, t, n), n)].Runnable();
    assert d <= Distance(s.curr, t, n);
  }

  lemma OneEvent(s: Sched, events: seq<Event>)
    requires s.Ok() && events != []
    ensures Run(s, events[..1]) == After(s, events[0])
    ensures Timers(events[..1]) == if events[0].Timer? then 1 else 0
  {
    assert events[..1] == [events[0]] && [events[0]][1..] == [];
  }

  lemma LaterEvents(s: Sched, events: seq<Event>, t: nat, closer: nat, bound: nat)
    requires s.Ok() && events != [] && DispatchedWithin(After(s, events[0]), events[1..], t, closer)
    requires closer + (if events[0].Timer? then 1 else 0) <= bound
    ensures DispatchedWithin(s, events, t, bound)
  {
    hide After;
    var n, rest := After(s, events[0]), events[1..];
    var k :| 0 < k <= |rest| && rest[k - 1].Timer? && Timers(rest[..k]) <= closer && Run(n, rest[..k]).curr == t;
    assert events[..k + 1][1..] == rest[..k] && events[..k + 1][0] == events[0];
    assert events[k + 1 - 1] == rest[k - 1];
  }

  /** The thread chosen is the nearest on the ring that can run, the current one coming last; the idle thread is chosen
      out of turn only when no thread can run. */
  lemma NextIsNearest(s: Sched)
    requires s.Ok()
    ensures (exists i :: 0 <= i < |s.states| && s.states[i].Runnable()) ==>
              && s.states[s.Next()].Runnable()
              && forall i | 0 <= i < |s.states| && s.states[i].Runnable() ::
                   Distance(s.curr, s.Next(), |s.states|) <= Distance(s.curr, i, |s.states|)
    ensures (forall i | 0 <= i < |s.states| :: !s.states[i].Runnable()) ==> s.Next() == s.idle
  {
    var n, d := |s.states|, FirstRunnable(s.states, s.curr, 1);
    forall i | 0 <= i < n && s.states[i].Runnable()
      ensures d <= Distance(s.curr, i, n) <= n
    {
      assert i == Walk(s.curr, Distance(s.curr, i, n), n);
    }
  }

  // ---------- The code, over linked threads ----------

  /** A kernel thread has no process; a process is named by its page directory. */
  class Thread {
    var esp: nat
    var state: ThreadState
    var next: Thread?
    const process: Option<nat>
    const stackTop: nat

    constructor (esp: nat, process: Option<nat>, stackTop: nat)
      ensures this.esp == esp && state == Ready && next == null && this.process == process && this.stackTop == stackTop
    {
      this.process, this.stackTop := process, stackTop;
      this.esp, state, next := esp, Ready, null;
    }
  }

  class Scheduler {
    var listHead: Thread?
    var curr: Thread?
    var idle: Thread?
    var currProcess: Option<nat>
    var kernelStack: nat
    var cr3: nat
    const kernelPd: nat
    ghost var ring: seq<Thread>

    /** `next` leads from each thread to the one after it, and from the last to the head. */
    ghost predicate RingOk()
      reads this, ring
    {
      && (forall i, j | 0 <= i < j < |ring| :: ring[i] != ring[j])
      && listHead == (if ring == [] then null else ring[0])
      && (forall i | 0 <= i < |ring| :: ring[i].next == ring[Walk(i, 1, |ring|)])
    }

    ghost function States(): seq<ThreadState>
      reads ring, this
    {
      seq(|ring|, i requires 0 <= i < |ring| reads this, ring => ring[i].state)
    }

    constructor (kernelPd: nat)
      ensures RingOk() && ring == [] && curr == null && cr3 == this.kernelPd == kernelPd && currProcess == None
    {
      listHead, curr, idle, ring := null, null, null, [];
      this.kernelPd, cr3, currProcess, kernelStack := kernelPd, kernelPd, None, 0;
    }

    /** The machine runs in the current thread's address space: its process's, or the kernel's own. */
    ghost predicate InItsSpace()
      requires curr != null
      reads this, curr
    {
      currProcess == curr.process && cr3 == if curr.process.Some? then curr.process.value else kernelPd
    }

    /** Appends a thread that is not on the ring yet. */
    method Add(t: Thread)
      requires RingOk() && t !in ring
      modifies this`listHead, this`ring, ring, t
      ensures RingOk() && ring == old(ring) + [t]
      ensures t.state == old(t.state) && t.esp == old(t.esp)
      ensures forall r <- old(ring) :: r.state == old(r.state) && r.esp == old(r.esp)
    {
      if listHead == null {
        listHead := t;
        t.next := t;
      } else {
        var tail := listHead;
        ghost var i := 0;
        while tail.next != listHead
          invariant 0 <= i < |ring| && tail == ring[i]
          decreases |ring| - i
        {
          tail := tail.next;
          i := i + 1;
        }
        tail.next := t;
        t.next := listHead;
      }
      ring := ring + [t];
    }

    /** The scheduler's state by position; the current and idle threads are on the ring. */
    ghost predicate Valid()
      reads this, ring
    {
      RingOk() && curr != null && curr in ring && idle != null && idle in ring
    }

    /** Where a thread stands on the ring. */
    ghost function Place(t: Thread): (i: nat)
      requires t in ring && RingOk()
      reads this, ring
      ensures i < |ring| && ring[i] == t
    {
      var i :| 0 <= i < |ring| && ring[i] == t;
      i
    }

    ghost function Abstract(): Sched
      requires Valid()
      reads this, ring
    {
      Sched(States(), Place(curr), Place(idle))
    }

    /** Follows the ring from the current thread to the next runnable one; before any thread runs, the idle thread. */
    method Next() returns (t: Thread)
      requires idle != null && (curr != null ==> Valid())
      ensures curr == null ==> t == idle
      ensures curr != null ==> t in ring && Place(t) == Abstract().Next()
    {
      if curr == null {
        return idle;
      }
      ghost var n, c, d := |ring|, Place(curr), 1;
      t := curr.next;
      var start := t;
      while t.state != Ready && t.state != Running
        invariant 1 <= d <= n && t == ring[Walk(c, d, n)] && start == ring[Walk(c, 1, n)]
        invariant FirstRunnable(States(), c, 1) == FirstRunnable(States(), c, d)
        decreases n - d
      {
        t := t.next;
        d := d + 1;
        if t == start {
          assert d == n + 1;
          return idle;
        }
      }
    }

    lemma PlaceIs(i: nat)
      requires RingOk() && i < |ring|
      ensures Place(ring[i]) == i
    {
      assert ring[Place(ring[i])] == ring[i];
    }

    /** Marks the outgoing thread ready and the next one running, and makes it current. */
    method Dispatch(next: Thread)
      requires Valid() && next in ring && next != curr
      modifies this`curr, ring
      ensures Valid() && ring == old(ring) && idle == old(idle) && curr == next
      ensures Abstract() == old(Sched(States()[Place(curr) := Ready][Place(next) := Running], Place(next), Place(idle)))
      ensures forall r <- ring :: r.esp == old(r.esp)
    {
      ghost var c, x, i := Place(curr), Place(next), Place(idle);
      assert forall k | 0 <= k < |ring| :: ring[k] == curr <==> k == c;
      assert forall k | 0 <= k < |ring| :: ring[k] == next <==> k == x;
      curr.state := Ready;
      next.state := Running;
      curr := next;
      PlaceIs(x);
      PlaceIs(i);
      assert States() == old(States())[c := Ready][x := Running];
    }

    /** Makes the current thread's address space and kernel stack current, coming from thread `from`. */
    method EnterSpace(from: Thread)
      requires Valid()
      modifies this`currProcess, this`kernelStack, this`cr3
      ensures Valid() && Abstract() == old(Abstract())
      ensures currProcess == curr.process && kernelStack == curr.stackTop
      ensures cr3 == if curr.process.Some? then curr.process.value
                     else if from.process.Some? then kernelPd else old(cr3)
    {
      ghost var c, i := Place(curr), Place(idle);
      currProcess := curr.process;
      kernelStack := curr.stackTop;
      if curr.process.Some? {
        cr3 := curr.process.value;
      } else if from.process.Some? {
        cr3 := kernelPd;
      }
      PlaceIs(c);
      PlaceIs(i);
      assert States() == old(States());
    }

    /** Switches threads: the stack pointer of the interrupted one is saved, that of the next one returned; the
        machine stays in the current thread's address space. */
    method Switch(oldEsp: nat) returns (esp: nat)
      requires Valid()
      modifies this`curr, this`currProcess, this`kernelStack, this`cr3, ring
      ensures Valid() && ring == old(ring) && idle == old(idle)
      ensures Abstract() == old(Abstract()).Switch()
      ensures old(curr).esp == oldEsp && esp == curr.esp
      ensures forall r <- ring :: r != old(curr) ==> r.esp == old(r.esp)
      ensures old(InItsSpace()) ==> InItsSpace()
      ensures curr != old(curr) ==> kernelStack == curr.stackTop
    {
      hide FirstRunnable, Sched.Next, Scheduler.States, Scheduler.Place, Scheduler.RingOk;
      var from := curr;
      SaveEsp(oldEsp);
      var next := Next();
      SamePlace(next, from);
      if next == from {
        return oldEsp;
      }
      Dispatch(next);
      EnterSpace(from);
      return next.esp;
    }

    lemma SamePlace(t: Thread, u: Thread)
      requires RingOk() && t in ring && u in ring
      ensures Place(t) == Place(u) <==> t == u
    {
    }

    method SaveEsp(oldEsp: nat)
      requires Valid()
      modifies ring
      ensures Valid() && Abstract() == old(Abstract()) && curr.esp == oldEsp
      ensures forall r <- ring :: r != curr ==> r.esp == old(r.esp)
    {
      hide FirstRunnable;
      ghost var c, i := Place(curr), Place(idle);
      curr.esp := oldEsp;
      PlaceIs(c);
      PlaceIs(i);
      assert States() == old(States());
    }
  }
}
