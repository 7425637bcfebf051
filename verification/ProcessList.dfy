/** The process list under preemption: when the removal after a blocked wait unlinks its child and nobody else. */
module ProcessList {
  import opened KThread
  import opened Lifecycle
  import opened Wrappers

  // ---------- Chains ----------

  predicate Descending(next: map<nat, Option<nat>>) {
    forall q <- next :: next[q].Some? ==> next[q].value in next && next[q].value < q
  }

  predicate Starts(next: map<nat, Option<nat>>, from: Option<nat>) {
    from.Some? ==> from.value in next
  }

  lemma ListIsDescending(t: Table)
    requires ListOk(t)
    ensures Descending(t.next) && Starts(t.next, t.head)
  {
    forall q | q in t.next
      ensures t.next[q].Some? ==> t.next[q].value in t.next && t.next[q].value < q
    {
      assert PointerOk(t, After(q), t.next[q]);
    }
  }

  lemma ChainStep(next: map<nat, Option<nat>>, q: nat)
    requires Descending(next) && q in next
    ensures Chain(next, Some(q)) == {q} + Chain(next, next[q])
  {
  }

  /** A chain goes down from its first process. */
  lemma {:induction false} ChainBound(next: map<nat, Option<nat>>, from: Option<nat>, y: nat)
    requires Descending(next) && Starts(next, from) && y in Chain(next, from)
    ensures from.Some? && y <= from.value && y in next
    decreases if from.None? then 0 else from.value + 1
  {
    if y != from.value {
      ChainBound(next, next[from.value], y);
    }
  }

  lemma NotBelow(next: map<nat, Option<nat>>, q: nat)
    requires Descending(next) && q in next
    ensures q !in Chain(next, next[q])
  {
    if q in Chain(next, next[q]) {
      ChainBound(next, next[q], q);
    }
  }

  /** A store behind `x` keeps what stands up to `x` and puts another chain behind it. */
  lemma {:induction false} ChainSplit(next: map<nat, Option<nat>>, from: Option<nat>, x: nat, to: Option<nat>)
    requires Descending(next) && Starts(next, from) && x in Chain(next, from) && Starts(next, to)
    requires to.Some? ==> to.value < x
    ensures Chain(next[x := to], from) == (set y | y in Chain(next, from) && y >= x) + Chain(next, to)
    decreases if from.None? then 0 else from.value + 1
  {
    var q := from.value;
    ChainBound(next, from, x);
    if q == x {
      if x in Chain(next, to) {
        ChainBound(next, to, x);
      }
      ChainUntouched(next, to, x, to);
      forall y | y in Chain(next, from) && y >= x
        ensures y == x
      {
        ChainBound(next, from, y);
      }
    } else {
      ChainSplit(next, next[q], x, to);
    }
  }

  /** A store behind a process that is not met changes nothing. */
  lemma {:induction false} ChainUntouched(next: map<nat, Option<nat>>, from: Option<nat>, x: nat, to: Option<nat>)
    requires Descending(next) && Starts(next, from) && x !in Chain(next, from)
    ensures Chain(next[x := to], from) == Chain(next, from)
    decreases if from.None? then 0 else from.value + 1
  {
    if from.Some? {
      ChainUntouched(next, next[from.value], x, to);
    }
  }

  /** Chains with the same processes start at the same one. */
  lemma SameStart(next: map<nat, Option<nat>>, a: Option<nat>, b: Option<nat>)
    requires Descending(next) && Starts(next, a) && Starts(next, b) && Chain(next, a) == Chain(next, b)
    ensures a == b
  {
    if a.Some? {
      assert a.value in Chain(next, b);
      ChainBound(next, b, a.value);
      assert b.value in Chain(next, a);
      ChainBound(next, a, b.value);
    } else {
      assert Chain(next, b) == {};
    }
  }

  /** A chain is another one without `c` exactly when it starts behind `c` and the other one at `c`. */
  lemma OneLess(next: map<nat, Option<nat>>, a: Option<nat>, b: Option<nat>, c: nat)
    requires Descending(next) && Starts(next, a) && Starts(next, b)
    ensures c in Chain(next, a) && Chain(next, b) == Chain(next, a) - {c} <==> a == Some(c) && b == next[c]
  {
    if a == Some(c) {
      ChainStep(next, c);
      NotBelow(next, c);
      if Chain(next, b) == Chain(next, a) - {c} {
        SameStart(next, b, next[c]);
      }
    } else if c in Chain(next, a) && Chain(next, b) == Chain(next, a) - {c} {
      assert a.value in Chain(next, b);
      ChainBound(next, b, a.value);
      assert b.value in Chain(next, a);
      ChainBound(next, a, b.value);
    }
  }

  // ---------- One store ----------

  /** The link is the head, or belongs to a process on the list. */
  predicate Live(t: Table, link: Link) {
    link.After? ==> link.pid in Listed(t)
  }

  /** Since the link was found nothing has come in between: it is on the list and still leads to `c`, and `to` is
      still what stands behind `c`. */
  predicate Intact(t: Table, link: Link, c: nat, to: Option<nat>) {
    Live(t, link) && Target(t, link) == Some(c) && c in t.next && to == t.next[c]
  }

  /** A store through a link takes `c` off the list, and nothing else, exactly when the link is intact. */
  lemma UnlinksExactlyIffIntact(t: Table, link: Link, c: nat, to: Option<nat>)
    requires ListOk(t) && PointerOk(t, link, to)
    ensures c in Listed(t) && Listed(Redirect(t, link, to)) == Listed(t) - {c} <==> Intact(t, link, c, to)
  {
    ListIsDescending(t);
    match link
    case Head => OneLess(t.next, t.head, to, c);
    case After(x) =>
      hide Chain;
      if x in Listed(t) {
        UnlinksBehind(t, x, c, to);
      } else {
        ChainUntouched(t.next, t.head, x, to);
      }
  }

  lemma UnlinksBehind(t: Table, x: nat, c: nat, to: Option<nat>)
    requires ListOk(t) && PointerOk(t, After(x), to) && x in Listed(t)
    ensures c in Listed(t) && Listed(Redirect(t, After(x), to)) == Listed(t) - {c} <==> Intact(t, After(x), c, to)
  {
    ListIsDescending(t);
    hide Chain;
    var old', up := t.next[x], set y | y in Listed(t) && y >= x;
    ChainSplit(t.next, t.head, x, to);
    ChainSplit(t.next, t.head, x, old');
    assert t.next[x := old'] == t.next;
    forall y
      ensures y in Chain(t.next, old') || y in Chain(t.next, to) ==> y < x && y !in up
    {
      if y in Chain(t.next, old') {
        ChainBound(t.next, old', y);
      }
      if y in Chain(t.next, to) {
        ChainBound(t.next, to, y);
      }
    }
    OneLess(t.next, old', to, c);
    if c in Listed(t) && Listed(Redirect(t, After(x), to)) == Listed(t) - {c} {
      assert c !in up;
      assert Chain(t.next, to) == Chain(t.next, old') - {c};
    }
  }

  /** The store that ends a removal takes the child off the list, and nobody else, exactly when nothing came between. */
  lemma StoreIsExactIffIntact(t: Table, p: nat)
    requires TableOk(t) && CanStore(t, p)
    ensures var c, at := t.procs[p].place.child, t.procs[p].place.at;
            c in Listed(t) && Listed(Next(t, Store(p))) == Listed(t) - {c} <==> Intact(t, at.link, c, at.to)
  {
    RemovingIsRunning(t, p);
    var at := t.procs[p].place.at;
    UnlinksExactlyIffIntact(t, at.link, t.procs[p].place.child, at.to);
  }

  // ---------- A store that is not intact ----------

  const FIRST: Process := Process(ProcessRunning, Ready, None, 0, UserCode)
  const SECOND: Process := Process(ProcessRunning, Ready, Some(1), 0, UserCode)
  const DEAD: Process := Process(ProcessDead, Dead, Some(1), 7, Gone)
  const FOURTH: Process := Process(ProcessRunning, Ready, Some(2), 0, UserCode)
  const NEXT: map<nat, Option<nat>> := map[1 := None, 2 := Some(1), 3 := Some(2)]

  /** Two children, the second of them dead, and the first process woken. */
  const WOKEN: Table := Table(map[1 := FIRST.(place := InWait(3)), 2 := SECOND, 3 := DEAD], Some(3), NEXT, 4)

  const ABOUT_TO_STORE: Table :=
    Table(map[1 := FIRST.(place := Removing(3, Storing(Head, Some(2)))), 2 := SECOND, 3 := DEAD], Some(3), NEXT, 4)

  const SPAWNED: Table :=
    Table(map[1 := FIRST.(place := Removing(3, Storing(Head, Some(2)))), 2 := SECOND, 3 := DEAD, 4 := FOURTH],
          Some(4), NEXT[4 := Some(3)], 5)

  const WAITING: Process := Process(ProcessWaiting, Blocked, Some(1), 0, InWait(4))

  const STORED: Table :=
    Table(map[1 := FIRST, 2 := WAITING, 3 := DEAD, 4 := FOURTH], Some(2), NEXT[4 := Some(3)], 5)

  lemma LeadsToWoken()
    ensures var steps := [Spawn(1), Spawn(1), Wait(1, 3), Exit(3, 7)];
            Runs(BOOT, steps) && Final(BOOT, steps) == WOKEN
  {
    TwoSpawns();
    WaitsForThird();
    hide Enabled, Next;
    var s2 := Table(map[1 := FIRST, 2 := SECOND, 3 := SECOND], Some(3), NEXT, 4);
    var s3 := s2.(procs := s2.procs[1 := Process(ProcessWaiting, Blocked, None, 0, InWait(3))]);
    NoSteps(WOKEN);
    StepTo(s3, Exit(3, 7), []);
    StepTo(s2, Wait(1, 3), [Exit(3, 7)]);
    StepTo(Next(BOOT, Spawn(1)), Spawn(1), [Wait(1, 3), Exit(3, 7)]);
    StepTo(BOOT, Spawn(1), [Spawn(1), Wait(1, 3), Exit(3, 7)]);
  }

  lemma TwoSpawns()
    ensures var s2 := Table(map[1 := FIRST, 2 := SECOND, 3 := SECOND], Some(3), NEXT, 4);
            && Enabled(BOOT, Spawn(1)) && Enabled(Next(BOOT, Spawn(1)), Spawn(1))
            && Next(Next(BOOT, Spawn(1)), Spawn(1)) == s2
  {
    assert SpawnStep(SpawnStep(BOOT, 1), 1).procs == map[1 := FIRST, 2 := SECOND, 3 := SECOND];
    assert SpawnStep(SpawnStep(BOOT, 1), 1).next == NEXT;
  }

  lemma WaitsForThird()
    ensures var s2 := Table(map[1 := FIRST, 2 := SECOND, 3 := SECOND], Some(3), NEXT, 4);
            var s3 := s2.(procs := s2.procs[1 := Process(ProcessWaiting, Blocked, None, 0, InWait(3))]);
            && Enabled(s2, Wait(1, 3)) && Next(s2, Wait(1, 3)) == s3
            && Enabled(s3, Exit(3, 7)) && Next(s3, Exit(3, 7)) == WOKEN
  {
    assert 3 in Chain(NEXT, Some(3));
  }

  lemma LeadsToStore()
    ensures var steps := [Resume(1), Walk(1), Load(1, false)];
            Runs(WOKEN, steps) && Final(WOKEN, steps) == ABOUT_TO_STORE
  {
    var s1 := Next(WOKEN, Resume(1));
    var s2 := Next(s1, Walk(1));
    assert s2.procs[1].place == Removing(3, Found(Head));
    var s3 := Next(s2, Load(1, false));
    assert s3 == ABOUT_TO_STORE;
    NoSteps(s3);
    StepTo(s2, Load(1, false), []);
    StepTo(s1, Walk(1), [Load(1, false)]);
    StepTo(WOKEN, Resume(1), [Walk(1), Load(1, false)]);
  }

  lemma LeadsPastStore()
    ensures var steps := [Spawn(2), Wait(2, 4), Store(1)];
            Runs(ABOUT_TO_STORE, steps) && Final(ABOUT_TO_STORE, steps) == STORED
  {
    SpawnsFourth();
    WaitsForFourth();
    StoresBehindHead();
    hide Enabled, Next;
    NoSteps(STORED);
    StepTo(BLOCKED, Store(1), []);
    StepTo(SPAWNED, Wait(2, 4), [Store(1)]);
    StepTo(ABOUT_TO_STORE, Spawn(2), [Wait(2, 4), Store(1)]);
  }

  const BLOCKED: Table := SPAWNED.(procs := SPAWNED.procs[2 := WAITING])

  lemma SpawnsFourth()
    ensures Enabled(ABOUT_TO_STORE, Spawn(2)) && Next(ABOUT_TO_STORE, Spawn(2)) == SPAWNED
  {
    assert SpawnStep(ABOUT_TO_STORE, 2).procs == SPAWNED.procs;
  }

  lemma WaitsForFourth()
    ensures Enabled(SPAWNED, Wait(2, 4)) && Next(SPAWNED, Wait(2, 4)) == BLOCKED
  {
    assert 4 in Chain(SPAWNED.next, Some(4));
  }

  lemma StoresBehindHead()
    ensures Enabled(BLOCKED, Store(1)) && Next(BLOCKED, Store(1)) == STORED
  {
    assert StoreStep(BLOCKED, 1).procs == STORED.procs;
  }

  /** A failing input: the first process has found its dead child at the head of the list; before it stores, the other
      child spawns and waits. The store then unlinks the new process, for which its parent goes on waiting. */
  lemma PreemptedStoreUnlinksAnother()
    ensures var before := [Spawn(1), Spawn(1), Wait(1, 3), Exit(3, 7)] + [Resume(1), Walk(1), Load(1, false)];
            var steps := before + [Spawn(2), Wait(2, 4), Store(1)];
            && Runs(BOOT, before) && Runs(BOOT, steps)
            && var t := Final(BOOT, steps);
            && 2 in t.procs && t.procs[2].state == ProcessWaiting && t.procs[2].place == InWait(4)
            && Alive(t, 4) && Listed(t) == {1, 2}
  {
    LeadsToWoken();
    LeadsToStore();
    LeadsPastStore();
    hide Runs, Final, Enabled, Next;
    var a, b, c := [Spawn(1), Spawn(1), Wait(1, 3), Exit(3, 7)], [Resume(1), Walk(1), Load(1, false)],
                   [Spawn(2), Wait(2, 4), Store(1)];
    FinalOfConcat(BOOT, a, b);
    FinalOfConcat(BOOT, a + b, c);
    ChainStep(STORED.next, 2);
    ChainStep(STORED.next, 1);
  }

  // ---------- Removals that nothing disturbs ----------

  /** The walk finds the link that leads to `c` if `c` is further on, and that link is live. */
  lemma {:induction false} LinkToLive(t: Table, link: Link, c: nat)
    requires ListOk(t) && PointerOk(t, link, None) && Live(t, link)
    ensures var r := LinkTo(t, link, c);
            && (r.Some? <==> c in Chain(t.next, Target(t, link)))
            && (r.Some? ==> Live(t, r.value) && Target(t, r.value) == Some(c))
    decreases var x := Target(t, link); if x.None? then 0 else x.value + 1
  {
    ListIsDescending(t);
    TargetOk(t, link);
    var x := Target(t, link);
    if x.Some? {
      ChainStep(t.next, x.value);
      if x.value != c {
        TargetIsLive(t, link);
        LinkToLive(t, After(x.value), c);
      }
    }
  }

  /** What a live link leads to is on the list, and so is what comes after. */
  lemma TargetIsLive(t: Table, link: Link)
    requires ListOk(t) && PointerOk(t, link, None) && Live(t, link) && Target(t, link).Some?
    ensures Target(t, link).value in Listed(t)
    ensures Chain(t.next, Target(t, link)) <= Listed(t)
  {
    ListIsDescending(t);
    if link.After? {
      ChainBelow(t.next, t.head, link.pid);
      ChainStep(t.next, link.pid);
      TargetOk(t, link);
      ChainStep(t.next, Target(t, link).value);
    }
  }

  lemma {:induction false} ChainBelow(next: map<nat, Option<nat>>, from: Option<nat>, x: nat)
    requires Descending(next) && Starts(next, from) && x in Chain(next, from)
    ensures Chain(next, Some(x)) <= Chain(next, from)
    decreases if from.None? then 0 else from.value + 1
  {
    if from.value != x {
      ChainBelow(next, next[from.value], x);
    }
  }

  /** In one piece, the removal takes exactly that process off the list. */
  lemma RemoveUnlinks(t: Table, c: nat)
    requires ListOk(t)
    ensures Listed(RemoveStep(t, c)) == Listed(t) - {c}
  {
    ListIsDescending(t);
    LinkToLive(t, Head, c);
    LinkToOk(t, Head, c);
    hide Chain, LinkTo;
    var link := LinkTo(t, Head, c);
    if link.Some? {
      ChainBound(t.next, t.head, c);
      UnlinksExactlyIffIntact(t, link.value, c, t.next[c]);
    }
  }

  /** The child of the removal of process `d` is further on, if it is on the list at all. */
  predicate AheadOf(t: Table, d: nat)
    requires d in t.procs && t.procs[d].place.Removing?
  {
    var r := t.procs[d].place;
    match r.at
    case Walking(link) =>
      Live(t, link) && (r.child in Listed(t) ==> r.child in Chain(t.next, Target(t, link)))
    case Found(link) => Live(t, link) && Target(t, link) == Some(r.child)
    case Storing(link, to) => Intact(t, link, r.child, to)
  }

  lemma StaysAhead(t: Table, d: nat)
    requires TableOk(t) && d in t.procs && t.procs[d].place.Removing? && AheadOf(t, d)
    ensures Enabled(t, RemovalStep(t, d))
    ensures var n, c := Next(t, RemovalStep(t, d)), t.procs[d].place.child;
            && d in n.procs
            && (if n.procs[d].place.Removing? then
                  n.procs[d].place.child == c && Listed(n) == Listed(t) && AheadOf(n, d)
                else Listed(n) == Listed(t) - {c})
  {
    RemovingIsRunning(t, d);
    var r := t.procs[d].place;
    hide Chain, ProcessOk;
    match r.at
    case Walking(link) => WalkStaysAhead(t, d);
    case Found(link) => TargetOk(t, link);
    case Storing(link, to) =>
      StoreIsExactIffIntact(t, d);
  }

  lemma WalkStaysAhead(t: Table, d: nat)
    requires TableOk(t) && CanWalk(t, d) && AheadOf(t, d) && PointerOk(t, t.procs[d].place.at.link, None)
    ensures var n, c := WalkStep(t, d), t.procs[d].place.child;
            && d in n.procs && Listed(n) == Listed(t)
            && (if n.procs[d].place.Removing? then n.procs[d].place.child == c && AheadOf(n, d) else c !in Listed(t))
  {
    var link := t.procs[d].place.at.link;
    hide ProcessOk;
    TargetOk(t, link);
    ListIsDescending(t);
    if Target(t, link).Some? {
      TargetIsLive(t, link);
      ChainStep(t.next, Target(t, link).value);
    }
  }

  /** Left to itself a removal takes its child off the list, and nobody else. */
  lemma {:induction false} UndisturbedRemovalUnlinks(t: Table, d: nat) returns (steps: seq<Step>)
    requires TableOk(t) && d in t.procs && t.procs[d].place.Removing? && AheadOf(t, d)
    ensures Runs(t, steps) && forall e <- steps :: e.p == d
    ensures Final(t, steps).procs == At(t, d, UserCode).procs
    ensures Listed(Final(t, steps)) == Listed(t) - {t.procs[d].place.child}
    decreases Rank(t, t.procs[d].place.at).0, Rank(t, t.procs[d].place.at).1
  {
    hide TableOk, Next, Enabled, Rank, Runs, Final, AheadOf, Listed;
    var e := RemovalStep(t, d);
    RemovalAdvances(t, d);
    StaysAhead(t, d);
    StepKeepsOk(t, e);
    var n := Next(t, e);
    var rest := [];
    if n.procs[d].place.Removing? {
      rest := UndisturbedRemovalUnlinks(n, d);
    } else {
      NoSteps(n);
    }
    StepTo(t, e, rest);
    steps := [e] + rest;
  }

  /** A woken process that nothing disturbs gets the exit code and takes the child it waited for off the list. */
  lemma UndisturbedResumeReaps(t: Table, p: nat) returns (steps: seq<Step>)
    requires TableOk(t) && CanResume(t, p)
    ensures var n := Next(t, Resume(p));
            && Runs(n, steps) && (forall e <- steps :: e.p == p)
            && Final(n, steps).procs == At(t, p, UserCode).procs
            && Listed(Final(n, steps)) == Listed(t) - {t.procs[p].place.child}
  {
    StepKeepsOk(t, Resume(p));
    hide TableOk, Runs, Final;
    steps := UndisturbedRemovalUnlinks(Next(t, Resume(p)), p);
  }

  // ---------- Runs in which every store is intact ----------

  /** Every process in `sys_wait` waits for a child on the list. */
  predicate AwaitedListed(t: Table) {
    forall p <- t.procs :: t.procs[p].place.InWait? ==> t.procs[p].place.child in Listed(t)
  }

  /** A step is in order unless it is a store through a link that is no longer intact. */
  predicate InOrder(t: Table, e: Step)
    requires Enabled(t, e)
  {
    e.Store? ==>
      var r := t.procs[e.p].place;
      Intact(t, r.at.link, r.child, r.at.to)
  }

  /** What a step in order does to the list. */
  lemma ListAfter(t: Table, e: Step)
    requires TableOk(t) && Enabled(t, e) && InOrder(t, e)
    ensures var n := Next(t, e);
            || Listed(n) >= Listed(t)
            || (e.Wait? && IsChild(t, e.child, e.p) && Listed(n) == Listed(t) - {e.child})
            || (e.Store? && Listed(n) == Listed(t) - {t.procs[e.p].place.child})
  {
    match e {
      case Spawn(p) =>
        assert forall q <- t.procs :: ProcessOk(t, q) && q < t.nextPid;
        SpawnLists(t, p);
      case Wait(p, c) =>
        RemoveUnlinks(t, c);
      case Store(p) =>
        StoreIsExactIffIntact(t, p);
      case _ =>
    }
  }

  lemma SpawnLists(t: Table, p: nat)
    requires ListOk(t) && forall q <- t.procs :: q < t.nextPid
    ensures Listed(SpawnStep(t, p)) == Listed(t) + {t.nextPid}
  {
    ListIsDescending(t);
    SpawnKeepsList(t, p);
    ListIsDescending(SpawnStep(t, p));
    if t.nextPid in Listed(t) {
      ChainBound(t.next, t.head, t.nextPid);
    }
    ChainUntouched(t.next, t.head, t.nextPid, t.head);
    ChainStep(SpawnStep(t, p).next, t.nextPid);
  }

  lemma StepKeepsAwaited(t: Table, e: Step)
    requires TableOk(t) && AwaitedListed(t) && Enabled(t, e) && InOrder(t, e)
    ensures AwaitedListed(Next(t, e))
  {
    ListAfter(t, e);
    hide Listed, InOrder;
    var n := Next(t, e);
    forall q | q in n.procs && n.procs[q].place.InWait?
      ensures n.procs[q].place.child in Listed(n)
    {
      AwaitedAfter(t, e, q);
    }
  }

  /** Who waits after a step waited before it for the same child, which is not the one the step removes, or has just
      begun to wait. */
  lemma AwaitedAfter(t: Table, e: Step, q: nat)
    requires TableOk(t) && Enabled(t, e) && q in Next(t, e).procs && Next(t, e).procs[q].place.InWait?
    ensures var c := Next(t, e).procs[q].place.child;
            if q in t.procs && t.procs[q].place == InWait(c) then
              (e.Wait? ==> !IsChild(t, c, e.p)) && (e.Store? ==> t.procs[e.p].place.child != c)
            else e == Wait(q, c) && Next(t, e).head == t.head && Next(t, e).next == t.next && c in Listed(t)
  {
    if q in t.procs {
      assert ProcessOk(t, q);
    }
    if e.Store? {
      assert ProcessOk(t, e.p);
    }
    if e.Wait? {
      RemoveKeepsProcesses(t, e.child);
    }
    hide ProcessOk, ListOk, RemoveStep, Chain;
  }

  ghost predicate AllInOrder(t: Table, steps: seq<Step>)
    requires Runs(t, steps)
    decreases |steps|
  {
    steps == [] || (InOrder(t, steps[0]) && AllInOrder(Next(t, steps[0]), steps[1..]))
  }

  /** As long as no removal is disturbed, every process that waits does so for a child on the list. */
  lemma {:induction false} RunKeepsAwaited(t: Table, steps: seq<Step>)
    requires TableOk(t) && AwaitedListed(t) && Runs(t, steps) && AllInOrder(t, steps)
    ensures AwaitedListed(Final(t, steps))
    decreases |steps|
  {
    hide TableOk, AwaitedListed, Next, Enabled, InOrder;
    if steps != [] {
      StepKeepsOk(t, steps[0]);
      StepKeepsAwaited(t, steps[0]);
      RunKeepsAwaited(Next(t, steps[0]), steps[1..]);
    }
  }

  lemma ReachableAwaited(steps: seq<Step>)
    requires Runs(BOOT, steps) && AllInOrder(BOOT, steps)
    ensures AwaitedListed(Final(BOOT, steps))
  {
    BootIsOk();
    assert AwaitedListed(BOOT);
    hide AllInOrder, Runs, Final, TableOk, AwaitedListed;
    RunKeepsAwaited(BOOT, steps);
  }

  // ---------- The code ----------

  class ProcessTable {
    var procs: map<nat, Process>
    var head: Option<nat>
    var next: map<nat, Option<nat>>
    var nextPid: nat

    ghost function Abstract(): Table
      reads this
    {
      Table(procs, head, next, nextPid)
    }

    ghost predicate Valid()
      reads this
    {
      TableOk(Abstract())
    }

    constructor ()
      ensures Valid() && Abstract() == BOOT
    {
      procs, head, next, nextPid := BOOT.procs, BOOT.head, BOOT.next, BOOT.nextPid;
      new;
      BootIsOk();
    }

    /** `uprocess_find`: walks the process list for a pid. */
    method Find(pid: nat) returns (found: bool)
      requires Valid()
      ensures found <==> pid in Listed(Abstract())
    {
      ListIsDescending(Abstract());
      hide TableOk;
      var curr := head;
      while curr.Some?
        invariant Starts(next, curr) && (pid in Chain(next, head) <==> pid in Chain(next, curr))
        decreases if curr.None? then 0 else curr.value + 1
      {
        if curr.value == pid {
          return true;
        }
        curr := next[curr.value];
      }
      return false;
    }

    method Follow(link: Link) returns (x: Option<nat>)
      requires Valid() && PointerOk(Abstract(), link, None)
      ensures x == Target(Abstract(), link) && PointerOk(Abstract(), link, x)
    {
      TargetOk(Abstract(), link);
      match link {
        case Head => x := head;
        case After(q) => x := next[q];
      }
    }

    method StoreLink(link: Link, to: Option<nat>)
      requires Valid() && PointerOk(Abstract(), link, to)
      modifies this`head, this`next
      ensures Valid() && Abstract() == Redirect(old(Abstract()), link, to)
    {
      RedirectKeepsOk(Abstract(), link, to);
      match link {
        case Head => head := to;
        case After(q) => next := next[q := to];
      }
    }

    /** `uprocess_remove` with interrupts off: exactly that process leaves the list. */
    method Remove(pid: nat)
      requires Valid()
      modifies this`head, this`next
      ensures Valid() && Abstract() == RemoveStep(old(Abstract()), pid)
      ensures Listed(Abstract()) == old(Listed(Abstract())) - {pid}
    {
      RemoveUnlinks(Abstract(), pid);
      LinkToOk(Abstract(), Head, pid);
      hide TableOk, Listed;
      var link := Head;
      var x := Follow(link);
      while x.Some? && x.value != pid
        invariant Valid() && Abstract() == old(Abstract()) && PointerOk(Abstract(), link, x)
        invariant x == Target(Abstract(), link)
        invariant LinkTo(Abstract(), link, pid) == LinkTo(Abstract(), Head, pid)
        decreases if x.None? then 0 else x.value + 1
      {
        link := After(x.value);
        x := Follow(link);
      }
      if x.Some? {
        var behind := Follow(After(pid));
        StoreLink(link, behind);
      }
    }

    /** `uprocess_create` for a child: the next pid, at the head of the list. */
    method Spawn(p: nat) returns (pid: nat)
      requires Valid() && InUserCode(Abstract(), p)
      modifies this
      ensures Valid() && Abstract() == SpawnStep(old(Abstract()), p) && pid == old(nextPid)
    {
      ghost var t := Abstract();
      SpawnKeepsOk(t, p);
      hide TableOk;
      pid := nextPid;
      nextPid := nextPid + 1;
      procs := procs[pid := Process(ProcessRunning, Ready, Some(p), 0, UserCode)];
      next := next[pid := head];
      head := Some(pid);
      assert Abstract() == SpawnStep(t, p);
    }

    /** `sys_exit`, up to the point where the process halts for good. */
    method Exit(p: nat, code: int)
      requires Valid() && InUserCode(Abstract(), p)
      modifies this`procs
      ensures Valid() && Abstract() == ExitStep(old(Abstract()), p, code)
    {
      ExitKeepsOk(Abstract(), p, code);
      hide TableOk;
      procs := procs[p := procs[p].(exitCode := code, state := ProcessDead, thread := Dead, place := Gone)];
      match procs[p].parent {
        case Some(q) =>
          if q in procs && procs[q].state == ProcessWaiting {
            procs := procs[q := procs[q].(state := ProcessRunning, thread := Ready)];
          }
        case None =>
      }
    }

    lemma ListedExists(c: nat)
      requires Valid() && c in Listed(Abstract())
      ensures c in procs
    {
      ListIsDescending(Abstract());
      ChainBound(next, head, c);
    }

    /** `sys_wait`: an error, a reaped exit code, or the process now halts until a child wakes it. */
    method Wait(p: nat, c: nat) returns (r: WaitResult)
      requires Valid() && InUserCode(Abstract(), p)
      modifies this
      ensures r == old(WaitResultOf(Abstract(), p, c))
      ensures r.Error? <==> !(c in old(Listed(Abstract())) && c in old(procs) && old(procs)[c].parent == Some(p))
      ensures r.Reaped? ==> c in old(procs) && old(procs)[c].state == ProcessDead && r.code == old(procs)[c].exitCode
      ensures Valid() && Abstract() == WaitStep(old(Abstract()), p, c)
    {
      WaitKeepsOk(Abstract(), p, c);
      hide TableOk, Listed, RemoveStep;
      var found := Find(c);
      if !found {
        return Error;
      }
      ListedExists(c);
      if procs[c].parent != Some(p) {
        return Error;
      }
      if procs[c].state != ProcessDead {
        procs := procs[p := procs[p].(state := ProcessWaiting, thread := Blocked, place := InWait(c))];
        return Blocks;
      }
      Remove(c);
      return Reaped(procs[c].exitCode);
    }

    /** `sys_wait` once the process has been woken: the exit code is read, and the removal begins. */
    method Resume(p: nat) returns (code: int)
      requires Valid() && CanResume(Abstract(), p)
      modifies this`procs
      ensures Valid() && Abstract() == ResumeStep(old(Abstract()), p) && code == old(ResumeResult(Abstract(), p))
    {
      ResumeKeepsOk(Abstract(), p);
      hide TableOk;
      var c := procs[p].place.child;
      code := procs[c].exitCode;
      procs := procs[p := procs[p].(place := Removing(c, Walking(Head)))];
    }

    /** One step of the removal with interrupts on. */
    method AdvanceRemoval(p: nat, again: bool)
      requires Valid() && p in procs && procs[p].place.Removing?
      requires procs[p].place.at.Found? ==> CanLoad(Abstract(), p, again)
      modifies this
      ensures Valid()
      ensures Abstract() == match old(procs)[p].place.at
                            case Walking(_) => WalkStep(old(Abstract()), p)
                            case Found(_) => LoadStep(old(Abstract()), p, again)
                            case Storing(_, _) => StoreStep(old(Abstract()), p)
    {
      RemovingIsRunning(Abstract(), p);
      var c := procs[p].place.child;
      match procs[p].place.at {
        case Walking(link) =>
          WalkKeepsOk(Abstract(), p);
          var x := Follow(link);
          var place := if x.None? then UserCode else Removing(c, if x.value == c then Found(link) else Walking(After(x.value)));
          procs := procs[p := procs[p].(place := place)];
        case Found(link) =>
          LoadKeepsOk(Abstract(), p, again);
          var x := Some(c);
          if again {
            x := Follow(link);
          }
          var behind := Follow(After(x.value));
          procs := procs[p := procs[p].(place := Removing(c, Storing(link, behind)))];
        case Storing(link, to) =>
          StoreKeepsOk(Abstract(), p);
          StoreLink(link, to);
          procs := procs[p := procs[p].(place := UserCode)];
      }
    }
  }
}
