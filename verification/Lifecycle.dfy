/** Spawn, exit and wait as steps of a process table. Interrupts are off but where a process halts, and in what follows
    a wait that blocked: there the removal from the process list can be preempted between any two of its steps. */
module Lifecycle {
  import opened KThread
  import opened Wrappers

  datatype ProcessState = ProcessRunning | ProcessDead | ProcessWaiting

  /** A pointer that `uprocess_remove` follows: the list's head, or the `next` of a process. */
  datatype Link = Head | After(pid: nat)

  /** How far the removal has come: looking through a link, at the link that led to the child, or about to store
      through it what stood behind the child. */
  datatype Removal = Walking(link: Link) | Found(link: Link) | Storing(link: Link, to: Option<nat>)

  /** Where a process stands: in user code, halted inside `sys_wait` for a child, removing that child once woken, or
      halted for good in `sys_exit`. */
  datatype Place = UserCode | InWait(child: nat) | Removing(child: nat, at: Removal) | Gone

  /** `process_t`, with the state of its thread and the place its kernel stack remembers. */
  datatype Process = Process(
    state: ProcessState,
    thread: ThreadState,
    parent: Option<nat>,
    exitCode: int,
    place: Place)

  /** All processes ever created by pid, the head of the process list, every process's `next`, and the next pid. */
  datatype Table = Table(procs: map<nat, Process>, head: Option<nat>, next: map<nat, Option<nat>>, nextPid: nat)

  predicate IsChild(t: Table, c: nat, p: nat) {
    c in t.procs && t.procs[c].parent == Some(p)
  }

  predicate Alive(t: Table, p: nat) {
    p in t.procs && t.procs[p].state != ProcessDead
  }

  // ---------- The process list ----------

  /** The processes met from a pointer on; every `next` leads to a smaller pid. */
  function Chain(next: map<nat, Option<nat>>, from: Option<nat>): set<nat>
    decreases if from.None? then 0 else from.value + 1
  {
    match from
    case None => {}
    case Some(q) =>
      {q} + if q in next && (next[q].None? || next[q].value < q) then Chain(next, next[q]) else {}
  }

  /** The processes on the list. */
  function Listed(t: Table): set<nat> {
    Chain(t.next, t.head)
  }

  function Target(t: Table, link: Link): Option<nat> {
    match link
    case Head => t.head
    case After(q) => if q in t.next then t.next[q] else None
  }

  /** One store through a link. */
  function Redirect(t: Table, link: Link, to: Option<nat>): Table {
    match link
    case Head => t.(head := to)
    case After(q) => t.(next := t.next[q := to])
  }

  /** The link that leads to `c`, looked for from `link` on. */
  function LinkTo(t: Table, link: Link, c: nat): Option<Link>
    decreases var x := Target(t, link); if x.None? then 0 else x.value + 1
  {
    var x := Target(t, link);
    if x.None? then None
    else if x.value == c then Some(link)
    else
      var y := Target(t, After(x.value));
      if y.None? || y.value < x.value then LinkTo(t, After(x.value), c) else None
  }

  /** `uprocess_remove` as one piece, which it is when interrupts are off. */
  function RemoveStep(t: Table, c: nat): Table {
    var link := LinkTo(t, Head, c);
    if link.None? then t else Redirect(t, link.value, Target(t, After(c)))
  }

  // ---------- The steps ----------

  function With(t: Table, p: nat, r: Process): Table {
    t.(procs := t.procs[p := r])
  }

  function At(t: Table, p: nat, place: Place): Table
    requires p in t.procs
  {
    With(t, p, t.procs[p].(place := place))
  }

  /** A child in state running and ready, whose pid is new, at the head of the list. */
  function SpawnStep(t: Table, p: nat): Table {
    Table(t.procs[t.nextPid := Process(ProcessRunning, Ready, Some(p), 0, UserCode)],
          Some(t.nextPid), t.next[t.nextPid := t.head], t.nextPid + 1)
  }

  /** The exit code is kept, the process dies, and a parent in `sys_wait` is woken, whichever child it waits for. */
  function ExitStep(t: Table, p: nat, code: int): Table
    requires p in t.procs
  {
    var dead := t.procs[p].(exitCode := code, state := ProcessDead, thread := Dead, place := Gone);
    var d := With(t, p, dead);
    match dead.parent
    case Some(q) =>
      if q in d.procs && d.procs[q].state == ProcessWaiting then
        With(d, q, d.procs[q].(state := ProcessRunning, thread := Ready))
      else d
    case None => d
  }

  /** What `sys_wait` returns: an error, a reaped child's exit code, or nothing yet. */
  datatype WaitResult = Error | Reaped(code: int) | Blocks

  predicate CanWait(t: Table, p: nat, c: nat) {
    c in Listed(t) && IsChild(t, c, p)
  }

  function WaitResultOf(t: Table, p: nat, c: nat): WaitResult {
    if !CanWait(t, p, c) then Error
    else if t.procs[c].state == ProcessDead then Reaped(t.procs[c].exitCode)
    else Blocks
  }

  function WaitStep(t: Table, p: nat, c: nat): Table
    requires p in t.procs
  {
    match WaitResultOf(t, p, c)
    case Error => t
    case Reaped(_) => RemoveStep(t, c)
    case Blocks => With(t, p, t.procs[p].(state := ProcessWaiting, thread := Blocked, place := InWait(c)))
  }

  /** A process in `sys_wait` that is no longer waiting reads the exit code of the child it asked for. */
  predicate CanResume(t: Table, p: nat) {
    p in t.procs && t.procs[p].place.InWait? && t.procs[p].state != ProcessWaiting && t.procs[p].place.child in t.procs
  }

  function ResumeResult(t: Table, p: nat): int
    requires CanResume(t, p)
  {
    t.procs[t.procs[p].place.child].exitCode
  }

  function ResumeStep(t: Table, p: nat): Table
    requires CanResume(t, p)
  {
    At(t, p, Removing(t.procs[p].place.child, Walking(Head)))
  }

  predicate CanWalk(t: Table, p: nat) {
    p in t.procs && t.procs[p].place.Removing? && t.procs[p].place.at.Walking?
  }

  /** One round of the loop: at the end of the list the call is over. */
  function WalkStep(t: Table, p: nat): Table
    requires CanWalk(t, p)
  {
    var c, link := t.procs[p].place.child, t.procs[p].place.at.link;
    match Target(t, link)
    case None => At(t, p, UserCode)
    case Some(x) => At(t, p, Removing(c, if x == c then Found(link) else Walking(After(x))))
  }

  /** The process whose `next` is read: the link is read again for it or not, as the compiler likes. Through a link
      that has become null the read faults. */
  function LoadFrom(t: Table, p: nat, again: bool): Option<nat>
    requires p in t.procs && t.procs[p].place.Removing? && t.procs[p].place.at.Found?
  {
    if again then Target(t, t.procs[p].place.at.link) else Some(t.procs[p].place.child)
  }

  predicate CanLoad(t: Table, p: nat, again: bool) {
    && p in t.procs && t.procs[p].place.Removing? && t.procs[p].place.at.Found?
    && LoadFrom(t, p, again).Some?
  }

  function LoadStep(t: Table, p: nat, again: bool): Table
    requires CanLoad(t, p, again)
  {
    var r := t.procs[p].place;
    At(t, p, Removing(r.child, Storing(r.at.link, Target(t, After(LoadFrom(t, p, again).value)))))
  }

  predicate CanStore(t: Table, p: nat) {
    p in t.procs && t.procs[p].place.Removing? && t.procs[p].place.at.Storing?
  }

  function StoreStep(t: Table, p: nat): Table
    requires CanStore(t, p)
  {
    var at := t.procs[p].place.at;
    Redirect(At(t, p, UserCode), at.link, at.to)
  }

  /** Which thread states go with a dispatch is the scheduler's business. */
  datatype Step =
    | Spawn(p: nat)
    | Exit(p: nat, code: int)
    | Wait(p: nat, child: nat)
    | Resume(p: nat)
    | Walk(p: nat)
    | Load(p: nat, again: bool)
    | Store(p: nat)
    | Reschedule(p: nat, s: ThreadState)

  predicate InUserCode(t: Table, p: nat) {
    p in t.procs && t.procs[p].place == UserCode
  }

  predicate Enabled(t: Table, e: Step) {
    match e
    case Spawn(p) => InUserCode(t, p)
    case Exit(p, _) => InUserCode(t, p)
    case Wait(p, _) => InUserCode(t, p)
    case Resume(p) => CanResume(t, p)
    case Walk(p) => CanWalk(t, p)
    case Load(p, again) => CanLoad(t, p, again)
    case Store(p) => CanStore(t, p)
    case Reschedule(p, _) => p in t.procs
  }

  function Next(t: Table, e: Step): Table
    requires Enabled(t, e)
  {
    match e
    case Spawn(p) => SpawnStep(t, p)
    case Exit(p, code) => ExitStep(t, p, code)
    case Wait(p, c) => WaitStep(t, p, c)
    case Resume(p) => ResumeStep(t, p)
    case Walk(p) => WalkStep(t, p)
    case Load(p, again) => LoadStep(t, p, again)
    case Store(p) => StoreStep(t, p)
    case Reschedule(p, s) => With(t, p, t.procs[p].(thread := s))
  }

  predicate Runs(t: Table, steps: seq<Step>)
    decreases |steps|
  {
    steps == [] || (Enabled(t, steps[0]) && Runs(Next(t, steps[0]), steps[1..]))
  }

  function Final(t: Table, steps: seq<Step>): Table
    requires Runs(t, steps)
    decreases |steps|
  {
    if steps == [] then t else Final(Next(t, steps[0]), steps[1..])
  }

  /** The first process, created by the kernel. */
  const BOOT: Table := Table(map[1 := Process(ProcessRunning, Ready, None, 0, UserCode)], Some(1), map[1 := None], 2)

  // ---------- The invariant ----------

  /** What a link leads to has a smaller pid than what it belongs to. */
  predicate Precedes(link: Link, x: Option<nat>) {
    x.Some? && link.After? ==> x.value < link.pid
  }

  predicate PointerOk(t: Table, link: Link, x: Option<nat>) {
    && (link.After? ==> link.pid in t.procs)
    && (x.Some? ==> x.value in t.procs) && Precedes(link, x)
  }

  predicate RemovalOk(t: Table, c: nat, at: Removal) {
    match at
    case Walking(link) => PointerOk(t, link, None)
    case Found(link) => PointerOk(t, link, Some(c))
    case Storing(link, to) => PointerOk(t, link, to)
  }

  /** A waiting process waits for a living child of its own, and a dead one never runs again. */
  predicate ProcessOk(t: Table, p: nat)
    requires p in t.procs
  {
    var r := t.procs[p];
    && p < t.nextPid
    && (r.state == ProcessDead <==> r.place == Gone)
    && (r.parent.Some? ==> r.parent.value in t.procs && r.parent.value < p)
    && (r.place.InWait? ==> IsChild(t, r.place.child, p))
    && (r.place.Removing? ==> IsChild(t, r.place.child, p) && RemovalOk(t, r.place.child, r.place.at))
    && (r.state == ProcessWaiting ==> r.place.InWait? && t.procs[r.place.child].state != ProcessDead)
  }

  predicate ListOk(t: Table) {
    && t.next.Keys == t.procs.Keys && PointerOk(t, Head, t.head)
    && forall q <- t.next :: PointerOk(t, After(q), t.next[q])
  }

  predicate TableOk(t: Table) {
    ListOk(t) && forall p <- t.procs :: ProcessOk(t, p)
  }

  lemma BootIsOk()
    ensures TableOk(BOOT)
  {
  }

  /** Nobody disappears, and parents stay. */
  predicate FamiliesStay(t: Table, n: Table) {
    && t.nextPid <= n.nextPid
    && forall q <- t.procs :: q in n.procs && n.procs[q].parent == t.procs[q].parent
  }

  lemma RemovalStaysOk(t: Table, n: Table, c: nat, at: Removal)
    requires t.procs.Keys <= n.procs.Keys && RemovalOk(t, c, at)
    ensures RemovalOk(n, c, at)
  {
  }

  /** A process whose own entry stays, and whose awaited child does not die. */
  lemma StaysOk(t: Table, n: Table, q: nat)
    requires FamiliesStay(t, n) && q in t.procs && ProcessOk(t, q) && n.procs[q] == t.procs[q]
    requires t.procs[q].state == ProcessWaiting ==> n.procs[t.procs[q].place.child].state != ProcessDead
    ensures ProcessOk(n, q)
  {
    var r := t.procs[q];
    if r.place.Removing? {
      RemovalStaysOk(t, n, r.place.child, r.place.at);
    }
    hide RemovalOk;
  }

  lemma ListStaysOk(t: Table, n: Table)
    requires ListOk(t) && n.head == t.head && n.next == t.next && n.procs.Keys == t.procs.Keys
    ensures ListOk(n)
  {
    forall q | q in n.next
      ensures PointerOk(n, After(q), n.next[q])
    {
      assert PointerOk(t, After(q), t.next[q]);
    }
  }

  /** One process that neither waits nor is dead gets another entry. */
  lemma EntryKeepsOk(t: Table, p: nat, r: Process)
    requires TableOk(t) && p in t.procs && ProcessOk(With(t, p, r), p)
    requires r.parent == t.procs[p].parent && (r.state == ProcessDead ==> t.procs[p].state == ProcessDead)
    ensures TableOk(With(t, p, r))
  {
    hide ProcessOk, RemovalOk, ListOk;
    var n := With(t, p, r);
    ListStaysOk(t, n);
    forall q | q in n.procs
      ensures ProcessOk(n, q)
    {
      if q != p {
        AwaitedIsAlive(t, q);
        StaysOk(t, n, q);
      }
    }
  }

  lemma AwaitedIsAlive(t: Table, q: nat)
    requires q in t.procs && ProcessOk(t, q)
    ensures t.procs[q].state == ProcessWaiting ==>
              t.procs[q].place.InWait? && t.procs[q].place.child in t.procs
              && t.procs[t.procs[q].place.child].state != ProcessDead
  {
  }

  /** A process that neither waits nor is dead may change its place. */
  lemma PlaceKeepsOk(t: Table, p: nat, place: Place)
    requires TableOk(t) && p in t.procs && t.procs[p].state == ProcessRunning
    requires place == UserCode
             || (place.Removing? && IsChild(t, place.child, p) && RemovalOk(t, place.child, place.at))
    ensures TableOk(At(t, p, place))
  {
    assert ProcessOk(t, p);
    if place.Removing? {
      RemovalStaysOk(t, At(t, p, place), place.child, place.at);
    }
    hide RemovalOk, ListOk;
    EntryKeepsOk(t, p, t.procs[p].(place := place));
  }

  lemma RedirectKeepsOk(t: Table, link: Link, to: Option<nat>)
    requires TableOk(t) && PointerOk(t, link, to)
    ensures TableOk(Redirect(t, link, to))
  {
    var n := Redirect(t, link, to);
    assert ListOk(n) by {
      assert forall q <- t.next :: PointerOk(t, After(q), t.next[q]);
    }
    hide RemovalOk, ProcessOk, ListOk;
    forall q | q in n.procs
      ensures ProcessOk(n, q)
    {
      AwaitedIsAlive(t, q);
      StaysOk(t, n, q);
    }
  }

  lemma TargetOk(t: Table, link: Link)
    requires ListOk(t) && PointerOk(t, link, None)
    ensures PointerOk(t, link, Target(t, link))
  {
  }

  /** The walk stops at a link that leads to the process looked for. */
  lemma {:induction false} LinkToOk(t: Table, link: Link, c: nat)
    requires ListOk(t) && PointerOk(t, link, None)
    ensures var r := LinkTo(t, link, c);
            r.Some? ==> Target(t, r.value) == Some(c) && PointerOk(t, r.value, Target(t, After(c)))
    decreases var x := Target(t, link); if x.None? then 0 else x.value + 1
  {
    var x := Target(t, link);
    TargetOk(t, link);
    if x.Some? {
      TargetOk(t, After(x.value));
      if x.value != c {
        LinkToOk(t, After(x.value), c);
      }
    }
  }

  lemma SpawnKeepsOk(t: Table, p: nat)
    requires TableOk(t) && p in t.procs
    ensures TableOk(SpawnStep(t, p))
  {
    var n := SpawnStep(t, p);
    assert forall q <- t.procs :: ProcessOk(t, q) && q < t.nextPid;
    SpawnKeepsList(t, p);
    hide RemovalOk, ProcessOk, ListOk;
    forall q | q in t.procs
      ensures ProcessOk(n, q)
    {
      AwaitedIsAlive(t, q);
      StaysOk(t, n, q);
    }
    NewIsOk(t, p);
  }

  lemma NewIsOk(t: Table, p: nat)
    requires p in t.procs && p < t.nextPid
    ensures ProcessOk(SpawnStep(t, p), t.nextPid)
  {
  }

  lemma SpawnKeepsList(t: Table, p: nat)
    requires ListOk(t) && forall q <- t.procs :: q < t.nextPid
    ensures ListOk(SpawnStep(t, p))
  {
    var n := SpawnStep(t, p);
    forall q | q in n.next
      ensures PointerOk(n, After(q), n.next[q])
    {
      if q in t.next {
        assert PointerOk(t, After(q), t.next[q]);
      }
    }
  }

  lemma ExitKeepsOk(t: Table, p: nat, code: int)
    requires TableOk(t) && p in t.procs
    ensures TableOk(ExitStep(t, p, code))
  {
    var n := ExitStep(t, p, code);
    assert ProcessOk(t, p);
    hide RemovalOk, ListOk;
    ListStaysOk(t, n);
    forall q | q in n.procs
      ensures ProcessOk(n, q)
    {
      assert ProcessOk(t, q);
      if q != p && n.procs[q] == t.procs[q] {
        NotAwaited(t, p, q, code);
        hide ProcessOk;
        StaysOk(t, n, q);
      }
    }
  }

  /** A process that still waits after an exit waits for another one. */
  lemma NotAwaited(t: Table, p: nat, q: nat, code: int)
    requires p in t.procs && q in t.procs && ProcessOk(t, q) && q != p && ExitStep(t, p, code).procs[q] == t.procs[q]
    ensures var n := ExitStep(t, p, code);
            && FamiliesStay(t, n)
            && (t.procs[q].state == ProcessWaiting ==> n.procs[t.procs[q].place.child].state != ProcessDead)
  {
  }

  lemma WaitKeepsOk(t: Table, p: nat, c: nat)
    requires TableOk(t) && InUserCode(t, p)
    ensures TableOk(WaitStep(t, p, c))
  {
    if WaitResultOf(t, p, c).Reaped? {
      LinkToOk(t, Head, c);
      hide ProcessOk;
      if LinkTo(t, Head, c).Some? {
        RedirectKeepsOk(t, LinkTo(t, Head, c).value, Target(t, After(c)));
      }
    } else if WaitResultOf(t, p, c).Blocks? {
      assert ProcessOk(t, p);
      hide RemovalOk, ListOk, Chain;
      EntryKeepsOk(t, p, t.procs[p].(state := ProcessWaiting, thread := Blocked, place := InWait(c)));
    }
  }

  lemma RemovingIsRunning(t: Table, p: nat)
    requires TableOk(t) && p in t.procs && t.procs[p].place.Removing?
    ensures t.procs[p].state == ProcessRunning && IsChild(t, t.procs[p].place.child, p)
    ensures RemovalOk(t, t.procs[p].place.child, t.procs[p].place.at)
  {
    assert ProcessOk(t, p);
  }

  lemma ResumeKeepsOk(t: Table, p: nat)
    requires TableOk(t) && CanResume(t, p)
    ensures TableOk(ResumeStep(t, p))
  {
    assert ProcessOk(t, p);
    PlaceKeepsOk(t, p, Removing(t.procs[p].place.child, Walking(Head)));
  }

  lemma WalkKeepsOk(t: Table, p: nat)
    requires TableOk(t) && CanWalk(t, p)
    ensures TableOk(WalkStep(t, p))
  {
    RemovingIsRunning(t, p);
    var c, link := t.procs[p].place.child, t.procs[p].place.at.link;
    TargetOk(t, link);
    match Target(t, link)
    case None => PlaceKeepsOk(t, p, UserCode);
    case Some(x) => PlaceKeepsOk(t, p, Removing(c, if x == c then Found(link) else Walking(After(x))));
  }

  lemma LoadKeepsOk(t: Table, p: nat, again: bool)
    requires TableOk(t) && CanLoad(t, p, again)
    ensures TableOk(LoadStep(t, p, again))
  {
    RemovingIsRunning(t, p);
    var r := t.procs[p].place;
    var x := LoadFrom(t, p, again).value;
    TargetOk(t, r.at.link);
    TargetOk(t, After(x));
    PlaceKeepsOk(t, p, Removing(r.child, Storing(r.at.link, Target(t, After(x)))));
  }

  lemma StoreKeepsOk(t: Table, p: nat)
    requires TableOk(t) && CanStore(t, p)
    ensures TableOk(StoreStep(t, p))
  {
    RemovingIsRunning(t, p);
    PlaceKeepsOk(t, p, UserCode);
    hide TableOk;
    RedirectKeepsOk(At(t, p, UserCode), t.procs[p].place.at.link, t.procs[p].place.at.to);
  }

  lemma RescheduleKeepsOk(t: Table, p: nat, s: ThreadState)
    requires TableOk(t) && p in t.procs
    ensures TableOk(With(t, p, t.procs[p].(thread := s)))
  {
    assert ProcessOk(t, p);
    var r := t.procs[p].(thread := s);
    if r.place.Removing? {
      RemovalStaysOk(t, With(t, p, r), r.place.child, r.place.at);
    }
    hide RemovalOk, ListOk;
    EntryKeepsOk(t, p, r);
  }

  lemma StepKeepsOk(t: Table, e: Step)
    requires TableOk(t) && Enabled(t, e)
    ensures TableOk(Next(t, e))
  {
    hide TableOk, SpawnStep, ExitStep, WaitStep, ResumeStep, WalkStep, LoadStep, StoreStep, With, CanResume, CanWalk,
      CanLoad, CanStore;
    match e
    case Spawn(p) => SpawnKeepsOk(t, p);
    case Exit(p, code) => ExitKeepsOk(t, p, code);
    case Wait(p, c) => WaitKeepsOk(t, p, c);
    case Resume(p) => ResumeKeepsOk(t, p);
    case Walk(p) => WalkKeepsOk(t, p);
    case Load(p, again) => LoadKeepsOk(t, p, again);
    case Store(p) => StoreKeepsOk(t, p);
    case Reschedule(p, s) => RescheduleKeepsOk(t, p, s);
  }

  /** The invariant holds in every state of every run. */
  lemma {:induction false} RunKeepsOk(t: Table, steps: seq<Step>)
    requires TableOk(t) && Runs(t, steps)
    ensures TableOk(Final(t, steps))
    decreases |steps|
  {
    hide TableOk, Next, Enabled;
    if steps != [] {
      StepKeepsOk(t, steps[0]);
      RunKeepsOk(Next(t, steps[0]), steps[1..]);
    }
  }

  /** Every state the kernel can reach from its first process satisfies the invariant. */
  lemma ReachableIsOk(steps: seq<Step>)
    requires Runs(BOOT, steps)
    ensures TableOk(Final(BOOT, steps))
  {
    BootIsOk();
    RunKeepsOk(BOOT, steps);
  }

  /** What the death of a child does to its parent. */
  function Woken(r: Process): Process {
    if r.state == ProcessWaiting then r.(state := ProcessRunning, thread := Ready) else r
  }

  lemma RemoveKeepsProcesses(t: Table, c: nat)
    ensures RemoveStep(t, c).procs == t.procs && RemoveStep(t, c).nextPid == t.nextPid
  {
    hide LinkTo;
  }

  /** A step changes the entry of the process that takes it, and of a parent that its exit wakes. */
  lemma OthersStay(t: Table, e: Step, d: nat)
    requires TableOk(t) && Enabled(t, e) && d in t.procs && d != e.p
    ensures var n := Next(t, e);
            && d in n.procs
            && (n.procs[d] == t.procs[d]
                || (e.Exit? && t.procs[e.p].parent == Some(d) && n.procs[d] == Woken(t.procs[d])))
  {
    assert ProcessOk(t, d);
    if e.Wait? {
      RemoveKeepsProcesses(t, e.child);
    }
    hide ProcessOk, ListOk, RemoveStep, Chain;
  }

  /** The process that takes a step keeps its parent, and dies only by exiting; a dead one takes none. */
  lemma OwnEntry(t: Table, e: Step)
    requires TableOk(t) && Enabled(t, e)
    ensures var n := Next(t, e);
            && e.p in t.procs && e.p in n.procs && n.procs[e.p].parent == t.procs[e.p].parent
            && (n.procs[e.p].state == ProcessDead <==> e.Exit? || t.procs[e.p].state == ProcessDead)
            && (t.procs[e.p].state == ProcessDead ==> e.Reschedule? && n.procs[e.p].exitCode == t.procs[e.p].exitCode)
  {
    assert ProcessOk(t, e.p);
    if e.Wait? {
      RemoveKeepsProcesses(t, e.child);
    }
    hide ListOk, RemoveStep, Chain;
  }

  /** Death is final, and so is the exit code. */
  lemma {:induction false} DeadStaysDead(t: Table, steps: seq<Step>, p: nat)
    requires TableOk(t) && Runs(t, steps) && p in t.procs && t.procs[p].state == ProcessDead
    ensures p in Final(t, steps).procs
    ensures Final(t, steps).procs[p].state == ProcessDead && Final(t, steps).procs[p].exitCode == t.procs[p].exitCode
    decreases |steps|
  {
    if steps != [] {
      StepKeepsOk(t, steps[0]);
      DeadStaysDeadOnce(t, steps[0], p);
      DeadStaysDead(Next(t, steps[0]), steps[1..], p);
    }
  }

  lemma DeadStaysDeadOnce(t: Table, e: Step, p: nat)
    requires TableOk(t) && Enabled(t, e) && p in t.procs && t.procs[p].state == ProcessDead
    ensures p in Next(t, e).procs
    ensures Next(t, e).procs[p].state == ProcessDead && Next(t, e).procs[p].exitCode == t.procs[p].exitCode
  {
    hide Next, Enabled, TableOk;
    OwnEntry(t, e);
    if e.p != p {
      OthersStay(t, e, p);
    }
  }

  /** The exit of the awaited child wakes the parent, which then gets its exit code and sets out to remove it. */
  lemma ExitWakesItsWaiter(t: Table, p: nat, c: nat, code: int)
    requires TableOk(t) && p in t.procs && t.procs[p].state == ProcessWaiting && t.procs[p].place == InWait(c)
    requires Enabled(t, Exit(c, code))
    ensures var n := Next(t, Exit(c, code));
            && n.procs[p].state == ProcessRunning && n.procs[p].thread == Ready
            && CanResume(n, p) && ResumeResult(n, p) == code
            && Next(n, Resume(p)).procs[p].place == Removing(c, Walking(Head))
  {
    assert ProcessOk(t, p) && ProcessOk(t, c);
  }

  // ---------- Whose exit a wait returns for ----------

  predicate NoResumeOf(steps: seq<Step>, p: nat) {
    forall e <- steps :: e != Resume(p)
  }

  ghost predicate OnlyLiveChild(t: Table, p: nat, c: nat) {
    forall d | Alive(t, d) && IsChild(t, d, p) :: d == c
  }

  /** While `p` waits for its only live child, it is not woken before that child is dead. */
  ghost predicate FaithfulWait(t: Table, p: nat, c: nat) {
    && p in t.procs && t.procs[p].place == InWait(c) && IsChild(t, c, p) && OnlyLiveChild(t, p, c)
    && (t.procs[p].state != ProcessWaiting ==> !Alive(t, c))
  }

  /** Parents stay, nobody comes back to life, and only a spawn adds a process, below the spawner. */
  lemma FamilyStays(t: Table, e: Step, d: nat)
    requires TableOk(t) && Enabled(t, e) && d in Next(t, e).procs
    ensures var n := Next(t, e);
            if d in t.procs then n.procs[d].parent == t.procs[d].parent && (Alive(n, d) ==> Alive(t, d))
            else e.Spawn? && n.procs[d].parent == Some(e.p)
  {
    if d !in t.procs {
      OnlySpawnAdds(t, e, d);
    } else {
      hide Next, Enabled, TableOk;
      OwnEntry(t, e);
      if e.p != d {
        OthersStay(t, e, d);
      }
    }
  }

  lemma OnlySpawnAdds(t: Table, e: Step, d: nat)
    requires Enabled(t, e) && d in Next(t, e).procs && d !in t.procs
    ensures e.Spawn? && Next(t, e).procs[d].parent == Some(e.p)
  {
    if e.Wait? {
      RemoveKeepsProcesses(t, e.child);
    }
    hide RemoveStep, Chain;
  }

  /** A process in `sys_wait` stays there, and only the exit of a child wakes it. */
  lemma WaiterStays(t: Table, p: nat, e: Step)
    requires TableOk(t) && p in t.procs && t.procs[p].place.InWait? && Enabled(t, e) && e != Resume(p)
    ensures var n := Next(t, e);
            && p in n.procs && n.procs[p].place == t.procs[p].place
            && (n.procs[p].state == t.procs[p].state || (e.Exit? && IsChild(t, e.p, p) && !Alive(n, e.p)))
  {
    if e.p == p {
      assert e.Reschedule?;
    } else {
      hide Next, Enabled, TableOk;
      OwnEntry(t, e);
      OthersStay(t, e, p);
    }
  }

  lemma FaithfulWaitOnce(t: Table, p: nat, c: nat, e: Step)
    requires TableOk(t) && FaithfulWait(t, p, c) && Enabled(t, e) && e != Resume(p)
    ensures FaithfulWait(Next(t, e), p, c)
  {
    WaiterStays(t, p, e);
    DyingIsAlive(t, e);
    StaysListed(t, e, c);
    FamilyStays(t, e, c);
    hide Next, ProcessOk, TableOk;
    var n := Next(t, e);
    forall d | Alive(n, d) && IsChild(n, d, p)
      ensures d == c
    {
      FamilyStays(t, e, d);
    }
  }

  lemma DyingIsAlive(t: Table, e: Step)
    requires TableOk(t) && Enabled(t, e)
    ensures e.Exit? ==> Alive(t, e.p)
  {
    if e.Exit? {
      assert ProcessOk(t, e.p);
    }
  }

  lemma StaysListed(t: Table, e: Step, d: nat)
    requires Enabled(t, e) && d in t.procs
    ensures d in Next(t, e).procs
  {
  }

  lemma {:induction false} FaithfulWaitLasts(t: Table, p: nat, c: nat, steps: seq<Step>)
    requires TableOk(t) && FaithfulWait(t, p, c) && Runs(t, steps) && NoResumeOf(steps, p)
    ensures FaithfulWait(Final(t, steps), p, c)
    decreases |steps|
  {
    hide TableOk, FaithfulWait, Next, Enabled;
    if steps != [] {
      StepKeepsOk(t, steps[0]);
      assert steps[0] in steps && forall e <- steps[1..] :: e in steps;
      FaithfulWaitOnce(t, p, c, steps[0]);
      FaithfulWaitLasts(Next(t, steps[0]), p, c, steps[1..]);
    }
  }

  /** Process `q` is not below `d` in the process tree as far as pids tell, nor its parent. */
  predicate Outside(t: Table, d: nat, q: nat)
    requires d in t.procs
  {
    && q in t.procs && q != d && t.procs[d].parent != Some(q)
    && (t.procs[q].parent.Some? ==> t.procs[q].parent.value < d)
  }

  /** From `t` to `n`, `d` dies and its parent is woken; processes outside are left alone. */
  ghost predicate OnlyDies(t: Table, n: Table, d: nat)
    requires d in t.procs
  {
    && n.nextPid == t.nextPid && d in n.procs && n.procs[d].state == ProcessDead
    && (forall q | Outside(t, d, q) :: q in n.procs && n.procs[q] == t.procs[q])
    && (t.procs[d].parent.Some? ==>
          var p := t.procs[d].parent.value; p in t.procs && p in n.procs && n.procs[p] == Woken(t.procs[p]))
  }

  /** No step spawns or begins a wait, and all are of processes from `d` on. */
  ghost predicate From(steps: seq<Step>, d: nat) {
    forall e <- steps :: !e.Spawn? && !e.Wait? && !e.Reschedule? && e.p >= d
  }

  ghost predicate KillsOnly(t: Table, d: nat, steps: seq<Step>)
    requires d in t.procs
  {
    Runs(t, steps) && From(steps, d) && OnlyDies(t, Final(t, steps), d)
  }

  lemma {:induction false} FinalOfConcat(t: Table, a: seq<Step>, b: seq<Step>)
    requires Runs(t, a) && Runs(Final(t, a), b)
    ensures Runs(t, a + b) && Final(t, a + b) == Final(Final(t, a), b)
    decreases |a|
  {
    if a == [] {
      assert a + b == b;
    } else {
      assert (a + b)[0] == a[0] && (a + b)[1..] == a[1..] + b;
      FinalOfConcat(Next(t, a[0]), a[1..], b);
    }
  }

  lemma StepTo(t: Table, e: Step, rest: seq<Step>)
    requires Enabled(t, e) && Runs(Next(t, e), rest)
    ensures Runs(t, [e] + rest) && Final(t, [e] + rest) == Final(Next(t, e), rest)
  {
    assert ([e] + rest)[1..] == rest;
  }

  lemma ExitFromUserCode(t: Table, d: nat)
    requires TableOk(t) && InUserCode(t, d)
    ensures KillsOnly(t, d, [Exit(d, 0)])
  {
    assert ProcessOk(t, d);
    var n := Next(t, Exit(d, 0));
    assert [Exit(d, 0)][1..] == [];
    assert Final(n, []) == n;
    assert Final(t, [Exit(d, 0)]) == n;
  }

  /** Steps that change nothing but the place of `d` may come first. */
  lemma KillsAfter(t: Table, d: nat, first: seq<Step>, place: Place, rest: seq<Step>)
    requires d in t.procs && Runs(t, first) && From(first, d)
    requires Final(t, first).nextPid == t.nextPid && Final(t, first).procs == At(t, d, place).procs
    requires KillsOnly(Final(t, first), d, rest)
    requires t.procs[d].parent != Some(d)
    ensures KillsOnly(t, d, first + rest)
  {
    FinalOfConcat(t, first, rest);
    var m, n := Final(t, first), Final(t, first + rest);
    hide Runs, Final;
    assert forall q :: Outside(t, d, q) ==> Outside(m, d, q);
  }

  /** Where a removal stands, and how far it may still have to walk. */
  function Rank(t: Table, at: Removal): (nat, nat) {
    match at
    case Walking(link) => (2, if Target(t, link).None? then 0 else Target(t, link).value + 1)
    case Found(_) => (1, 0)
    case Storing(_, _) => (0, 0)
  }

  /** The next step of a removal. */
  function RemovalStep(t: Table, d: nat): Step
    requires d in t.procs && t.procs[d].place.Removing?
  {
    match t.procs[d].place.at
    case Walking(_) => Walk(d)
    case Found(_) => Load(d, false)
    case Storing(_, _) => Store(d)
  }

  predicate Less(a: (nat, nat), b: (nat, nat)) {
    a.0 < b.0 || (a.0 == b.0 && a.1 < b.1)
  }

  lemma RemovalAdvances(t: Table, d: nat)
    requires TableOk(t) && d in t.procs && t.procs[d].place.Removing?
    ensures Enabled(t, RemovalStep(t, d))
    ensures var n := Next(t, RemovalStep(t, d));
            && n.nextPid == t.nextPid && d in n.procs && n.procs == At(t, d, n.procs[d].place).procs
            && (n.procs[d].place == UserCode
                || (n.procs[d].place.Removing? && Less(Rank(n, n.procs[d].place.at), Rank(t, t.procs[d].place.at))))
  {
    RemovingIsRunning(t, d);
    hide ProcessOk;
    var at := t.procs[d].place.at;
    if at.Walking? {
      TargetOk(t, at.link);
      if Target(t, at.link).Some? {
        TargetOk(t, After(Target(t, at.link).value));
      }
    }
  }

  /** Left to itself a removal ends, and leaves every process but the one that removes as it was. */
  lemma {:induction false} RemovalEnds(t: Table, d: nat) returns (steps: seq<Step>)
    requires TableOk(t) && d in t.procs && t.procs[d].place.Removing?
    ensures Runs(t, steps) && From(steps, d)
    ensures Final(t, steps).nextPid == t.nextPid && Final(t, steps).procs == At(t, d, UserCode).procs
    decreases Rank(t, t.procs[d].place.at).0, Rank(t, t.procs[d].place.at).1
  {
    hide TableOk, Next, Enabled, Rank, Runs, Final;
    var e := RemovalStep(t, d);
    RemovalAdvances(t, d);
    StepKeepsOk(t, e);
    var n := Next(t, e);
    var rest := [];
    if n.procs[d].place.Removing? {
      rest := RemovalEnds(n, d);
    } else {
      NoSteps(n);
    }
    StepTo(t, e, rest);
    steps := [e] + rest;
  }

  lemma NoSteps(t: Table)
    ensures Runs(t, []) && Final(t, []) == t
  {
  }

  /** How far a process is from exiting. */
  function Distance(r: Process): nat {
    if r.place == UserCode then 0 else if r.place.Removing? then 1 else if r.state != ProcessWaiting then 2 else 3
  }

  /** Every living process can be brought to exit, by its own and its descendants' doing. */
  lemma {:induction false} EveryProcessCanExit(t: Table, d: nat) returns (steps: seq<Step>)
    requires TableOk(t) && Alive(t, d)
    ensures KillsOnly(t, d, steps)
    decreases t.nextPid - d, Distance(t.procs[d])
  {
    assert ProcessOk(t, d);
    match t.procs[d].place {
      case UserCode =>
        steps := [Exit(d, 0)];
        ExitFromUserCode(t, d);
      case Removing(_, _) =>
        var first := RemovalEnds(t, d);
        RunKeepsOk(t, first);
        var rest := EveryProcessCanExit(Final(t, first), d);
        KillsAfter(t, d, first, UserCode, rest);
        steps := first + rest;
      case InWait(e) =>
        if t.procs[d].state != ProcessWaiting {
          StepTo(t, Resume(d), []);
          StepKeepsOk(t, Resume(d));
          assert [Resume(d)] + [] == [Resume(d)];
          var rest := EveryProcessCanExit(Next(t, Resume(d)), d);
          KillsAfter(t, d, [Resume(d)], Removing(e, Walking(Head)), rest);
          steps := [Resume(d)] + rest;
        } else {
          assert ProcessOk(t, e) && Alive(t, e);
          var first := EveryProcessCanExit(t, e);
          RunKeepsOk(t, first);
          var rest := EveryProcessCanExit(Final(t, first), d);
          FinalOfConcat(t, first, rest);
          KillsByStages(t, d, e, first, rest);
          steps := first + rest;
        }
    }
  }

  lemma KillsByStages(t: Table, d: nat, e: nat, first: seq<Step>, rest: seq<Step>)
    requires TableOk(t) && d in t.procs && e in t.procs && t.procs[e].parent == Some(d) && d < e
    requires KillsOnly(t, e, first)
    requires d in Final(t, first).procs && KillsOnly(Final(t, first), d, rest)
    requires Runs(t, first + rest) && Final(t, first + rest) == Final(Final(t, first), rest)
    ensures KillsOnly(t, d, first + rest)
  {
    hide Runs, Final, OnlyDies, TableOk;
    OneAfterTheOther(t, Final(t, first), Final(t, first + rest), d, e);
  }

  /** A child's death that wakes `d` and then the death of `d` make up the death of `d`. */
  lemma OneAfterTheOther(t: Table, m: Table, n: Table, d: nat, e: nat)
    requires TableOk(t) && d in t.procs && e in t.procs && t.procs[e].parent == Some(d) && d < e
    requires OnlyDies(t, m, e) && d in m.procs && OnlyDies(m, n, d)
    ensures OnlyDies(t, n, d)
  {
    assert ProcessOk(t, d);
    assert m.procs[d] == Woken(t.procs[d]);
    forall q | Outside(t, d, q)
      ensures q in n.procs && n.procs[q] == t.procs[q]
    {
      assert Outside(t, e, q) && Outside(m, d, q);
    }
    if t.procs[d].parent.Some? {
      var p := t.procs[d].parent.value;
      assert ProcessOk(t, p) && Outside(t, e, p);
    }
  }

  /** Whether every wake-up of the wait finds the awaited child dead. */
  ghost predicate ReapsOnlyTheDead(t: Table, p: nat, c: nat) {
    forall steps | Runs(t, steps) && NoResumeOf(steps, p) && CanResume(Final(t, steps), p) :: !Alive(Final(t, steps), c)
  }

  /** A wait that blocks reaps a dead child in every run exactly when that child is its parent's only living one. */
  lemma WaitIsFaithfulIffOnlyLiveChild(t: Table, p: nat, c: nat)
    requires TableOk(t) && InUserCode(t, p) && WaitResultOf(t, p, c) == Blocks
    ensures ReapsOnlyTheDead(Next(t, Wait(p, c)), p, c) <==> OnlyLiveChild(t, p, c)
  {
    if OnlyLiveChild(t, p, c) {
      OnlyLiveChildIsReapedDead(t, p, c);
    } else {
      AnotherChildWakes(t, p, c);
    }
  }

  /** The state a blocking wait leaves. */
  lemma BlockedWait(t: Table, p: nat, c: nat)
    requires TableOk(t) && InUserCode(t, p) && WaitResultOf(t, p, c) == Blocks
    ensures var w := Next(t, Wait(p, c));
            && TableOk(w) && w.procs == t.procs[p := t.procs[p].(state := ProcessWaiting, thread := Blocked, place := InWait(c))]
            && IsChild(t, c, p) && Alive(t, c) && p < c
            && (OnlyLiveChild(t, p, c) ==> FaithfulWait(w, p, c))
  {
    StepKeepsOk(t, Wait(p, c));
    assert ProcessOk(t, c) && p < c;
    hide ListOk, ProcessOk, Chain, RemoveStep, OnlyLiveChild;
    if OnlyLiveChild(t, p, c) {
      StillOnlyLiveChild(t, Next(t, Wait(p, c)), p, c);
    }
  }

  lemma StillOnlyLiveChild(t: Table, w: Table, p: nat, c: nat)
    requires p in t.procs && Alive(t, p) && OnlyLiveChild(t, p, c)
    requires w.procs == t.procs[p := t.procs[p].(state := ProcessWaiting, thread := Blocked, place := InWait(c))]
    ensures OnlyLiveChild(w, p, c)
  {
    assert forall d | Alive(w, d) && IsChild(w, d, p) :: Alive(t, d) && IsChild(t, d, p);
  }

  lemma OnlyLiveChildIsReapedDead(t: Table, p: nat, c: nat)
    requires TableOk(t) && InUserCode(t, p) && WaitResultOf(t, p, c) == Blocks && OnlyLiveChild(t, p, c)
    ensures ReapsOnlyTheDead(Next(t, Wait(p, c)), p, c)
  {
    BlockedWait(t, p, c);
    hide TableOk, Next, Enabled;
    var w := Next(t, Wait(p, c));
    forall steps | Runs(w, steps) && NoResumeOf(steps, p) && CanResume(Final(w, steps), p)
      ensures !Alive(Final(w, steps), c)
    {
      FaithfulWaitLasts(w, p, c, steps);
    }
  }

  lemma AnotherChildWakes(t: Table, p: nat, c: nat)
    requires TableOk(t) && InUserCode(t, p) && WaitResultOf(t, p, c) == Blocks && !OnlyLiveChild(t, p, c)
    ensures !ReapsOnlyTheDead(Next(t, Wait(p, c)), p, c)
  {
    BlockedWait(t, p, c);
    var w := Next(t, Wait(p, c));
    var d :| Alive(t, d) && IsChild(t, d, p) && d != c;
    ChildOfParent(w, d, p);
    hide TableOk, Next, Enabled, Chain;
    var steps := EveryProcessCanExit(w, d);
    WokenByTheWrongChild(w, p, c, d, steps);
  }

  lemma ChildOfParent(t: Table, d: nat, p: nat)
    requires TableOk(t) && IsChild(t, d, p)
    ensures p < d && p in t.procs
  {
    assert ProcessOk(t, d);
  }

  lemma WokenByTheWrongChild(w: Table, p: nat, c: nat, d: nat, steps: seq<Step>)
    requires p in w.procs && w.procs[p].state == ProcessWaiting && w.procs[p].place == InWait(c)
    requires IsChild(w, c, p) && Alive(w, c) && IsChild(w, d, p) && p < d && p < c && d != c && KillsOnly(w, d, steps)
    ensures !ReapsOnlyTheDead(w, p, c)
  {
    hide Runs, Final;
    assert NoResumeOf(steps, p);
    var n := Final(w, steps);
    assert n.procs[p] == Woken(w.procs[p]);
    assert Outside(w, d, c);
    assert CanResume(n, p) && Alive(n, c);
  }

  /** A failing input: the first process spawns twice and waits for the first child; the second one's exit wakes it,
      and it gets an exit code of the first, which is alive. */
  lemma SecondChildWakesTheParent()
    ensures var steps := [Spawn(1), Spawn(1), Wait(1, 2), Exit(3, 7)];
            && Runs(BOOT, steps) && CanResume(Final(BOOT, steps), 1) && Alive(Final(BOOT, steps), 2)
            && ResumeResult(Final(BOOT, steps), 1) == 0
            && Next(Final(BOOT, steps), Resume(1)).procs[1].place == Removing(2, Walking(Head))
  {
    var s1 := Next(BOOT, Spawn(1));
    var s2 := Next(s1, Spawn(1));
    var s3 := Next(s2, Wait(1, 2));
    var s4 := Next(s3, Exit(3, 7));
    StepTo(s3, Exit(3, 7), []);
    StepTo(s2, Wait(1, 2), [Exit(3, 7)]);
    StepTo(s1, Spawn(1), [Wait(1, 2), Exit(3, 7)]);
    StepTo(BOOT, Spawn(1), [Spawn(1), Wait(1, 2), Exit(3, 7)]);
  }

  /** With its only living child awaited, a parent that wakes gets that child's exit code. */
  lemma OnlyChildIsReapedDead(t: Table, p: nat, c: nat, steps: seq<Step>)
    requires TableOk(t) && InUserCode(t, p) && WaitResultOf(t, p, c) == Blocks && OnlyLiveChild(t, p, c)
    requires Runs(Next(t, Wait(p, c)), steps) && NoResumeOf(steps, p) && CanResume(Final(Next(t, Wait(p, c)), steps), p)
    ensures var n := Final(Next(t, Wait(p, c)), steps);
            && n.procs[p].place == InWait(c) && c in n.procs && n.procs[c].state == ProcessDead
            && ResumeResult(n, p) == n.procs[c].exitCode
  {
    var w := Next(t, Wait(p, c));
    BlockedWait(t, p, c);
    hide TableOk, Next, Enabled, Chain;
    FaithfulWaitLasts(w, p, c, steps);
  }

}
