/** What `sys_wait` answers, told from the steps taken since the first process and not from the table. */
module History {
  import opened KThread
  import opened Lifecycle
  import opened ProcessList
  import opened Wrappers

  /** The process whose spawn made pid `c`, when `first` is the next pid. */
  function SpawnerOf(steps: seq<Step>, first: nat, c: nat): Option<nat>
    decreases |steps|
  {
    if steps == [] then None
    else
      match steps[0]
      case Spawn(p) => if c == first then Some(p) else SpawnerOf(steps[1..], first + 1, c)
      case _ => SpawnerOf(steps[1..], first, c)
  }

  /** The code that process `c` has exited with, if it has. */
  function ExitOf(steps: seq<Step>, c: nat): Option<int>
    decreases |steps|
  {
    if steps == [] then None
    else
      match steps[0]
      case Exit(p, code) => if p == c then Some(code) else ExitOf(steps[1..], c)
      case _ => ExitOf(steps[1..], c)
  }

  /** What a step leaves of a process: its parent always, its exit code and its life unless it exits. */
  lemma StepRecords(t: Table, e: Step, c: nat)
    requires TableOk(t) && Enabled(t, e) && c in t.procs
    ensures var n := Next(t, e);
            && c in n.procs && n.procs[c].parent == t.procs[c].parent
            && (n.procs[c].state == ProcessDead <==> t.procs[c].state == ProcessDead || (e.Exit? && e.p == c))
            && n.procs[c].exitCode == (if e.Exit? && e.p == c then e.code else t.procs[c].exitCode)
  {
    hide Next, TableOk, Enabled;
    OwnEntry(t, e);
    OwnCode(t, e);
    if c != e.p {
      OthersStay(t, e, c);
    }
  }

  lemma OwnCode(t: Table, e: Step)
    requires TableOk(t) && Enabled(t, e) && e.p in t.procs
    ensures e.p in Next(t, e).procs
    ensures Next(t, e).procs[e.p].exitCode == if e.Exit? then e.code else t.procs[e.p].exitCode
  {
    assert ProcessOk(t, e.p);
    if e.Wait? {
      RemoveKeepsProcesses(t, e.child);
    }
    hide ProcessOk, ListOk, RemoveStep, Chain;
  }

  /** A spawn makes one child, running and ready, at the front of the list; everything else stays. */
  lemma SpawnMakesChild(t: Table, p: nat)
    requires TableOk(t) && Enabled(t, Spawn(p))
    ensures var n, c := Next(t, Spawn(p)), t.nextPid;
            && c !in t.procs && n.procs == t.procs[c := Process(ProcessRunning, Ready, Some(p), 0, UserCode)]
            && n.nextPid == c + 1 && n.head == Some(c) && Listed(n) == Listed(t) + {c}
  {
    assert forall q <- t.procs :: ProcessOk(t, q) && q < t.nextPid;
    SpawnLists(t, p);
    hide ProcessOk, Chain;
  }

  /** An exit leaves the process dead with its code and a thread that cannot run, wakes its parent if that is in
      `sys_wait`, and changes no other process and nothing of the list. */
  lemma ExitLeaves(t: Table, p: nat, code: int)
    requires TableOk(t) && Enabled(t, Exit(p, code))
    ensures var n := Next(t, Exit(p, code));
            && n.procs.Keys == t.procs.Keys && n.head == t.head && n.next == t.next && n.nextPid == t.nextPid
            && n.procs[p] == Process(ProcessDead, Dead, t.procs[p].parent, code, Gone) && !n.procs[p].thread.Runnable()
            && forall q <- t.procs | q != p ::
                 n.procs[q] == if t.procs[p].parent == Some(q) && t.procs[q].state == ProcessWaiting
                               then t.procs[q].(state := ProcessRunning, thread := Ready) else t.procs[q]
  {
    assert ProcessOk(t, p);
    hide ProcessOk, ListOk;
  }

  lemma OnlySpawnMakes(t: Table, e: Step, c: nat)
    requires TableOk(t) && Enabled(t, e) && c !in t.procs
    ensures c in Next(t, e).procs <==> e.Spawn? && c == t.nextPid
    ensures Next(t, e).nextPid == t.nextPid + if e.Spawn? then 1 else 0
  {
    if e.Wait? {
      RemoveKeepsProcesses(t, e.child);
    }
    match e
    case Exit(p, _) => assert ProcessOk(t, p);
    case _ =>
    hide ProcessOk, ListOk, RemoveStep, Chain;
  }

  /** A living process is dead after a run exactly when it has exited in it, and then has that exit's code. */
  lemma {:induction false} LivingByHistory(t: Table, steps: seq<Step>, c: nat)
    requires TableOk(t) && Runs(t, steps) && Alive(t, c)
    ensures var n := Final(t, steps);
            && c in n.procs && n.procs[c].parent == t.procs[c].parent
            && (n.procs[c].state == ProcessDead <==> ExitOf(steps, c).Some?)
            && n.procs[c].exitCode == (if ExitOf(steps, c).Some? then ExitOf(steps, c).value else t.procs[c].exitCode)
    decreases |steps|
  {
    if steps != [] {
      var e, rest := steps[0], steps[1..];
      StepKeepsOk(t, e);
      StepRecords(t, e, c);
      hide TableOk, Enabled, Next;
      if e.Exit? && e.p == c {
        DeadStaysDead(Next(t, e), rest, c);
        ParentStays(Next(t, e), rest, c);
      } else {
        LivingByHistory(Next(t, e), rest, c);
      }
    }
  }

  lemma {:induction false} ParentStays(t: Table, steps: seq<Step>, c: nat)
    requires TableOk(t) && Runs(t, steps) && c in t.procs
    ensures c in Final(t, steps).procs && Final(t, steps).procs[c].parent == t.procs[c].parent
    decreases |steps|
  {
    if steps != [] {
      StepKeepsOk(t, steps[0]);
      StepRecords(t, steps[0], c);
      hide TableOk, Enabled, Next;
      ParentStays(Next(t, steps[0]), steps[1..], c);
    }
  }

  /** A pid exists after a run exactly when a spawn of the run has made it, and its parent is the spawner. */
  lemma {:induction false} NewByHistory(t: Table, steps: seq<Step>, c: nat)
    requires TableOk(t) && Runs(t, steps) && t.nextPid <= c
    ensures var n := Final(t, steps);
            && (c in n.procs <==> SpawnerOf(steps, t.nextPid, c).Some?)
            && (c in n.procs ==>
                  && n.procs[c].parent == SpawnerOf(steps, t.nextPid, c)
                  && (n.procs[c].state == ProcessDead <==> ExitOf(steps, c).Some?)
                  && n.procs[c].exitCode == (if ExitOf(steps, c).Some? then ExitOf(steps, c).value else 0))
    decreases |steps|
  {
    NotYet(t, c);
    if steps != [] {
      var e, rest := steps[0], steps[1..];
      StepKeepsOk(t, e);
      OnlySpawnMakes(t, e, c);
      ExitsExist(t, e);
      if e.Spawn? && c == t.nextPid {
        SpawnMakesChild(t, e.p);
        hide TableOk, Enabled, Next, Listed;
        LivingByHistory(Next(t, e), rest, c);
      } else {
        hide TableOk, Enabled, Next;
        NewByHistory(Next(t, e), rest, c);
      }
    }
  }

  lemma NotYet(t: Table, c: nat)
    requires TableOk(t) && t.nextPid <= c
    ensures c !in t.procs
  {
    assert forall q <- t.procs :: ProcessOk(t, q) && q < t.nextPid;
  }

  lemma ExitsExist(t: Table, e: Step)
    requires Enabled(t, e)
    ensures e.Exit? ==> e.p in t.procs
  {
  }

  /** The answer to a wait of `p` for `c`, by what has happened: an error unless `p` has spawned `c` and `c` is still
      listed; the code that `c` has exited with; or no answer yet. */
  function Answer(steps: seq<Step>, listed: set<nat>, p: nat, c: nat): WaitResult {
    if c !in listed || SpawnerOf(steps, 2, c) != Some(p) then Error
    else if ExitOf(steps, c).Some? then Reaped(ExitOf(steps, c).value)
    else Blocks
  }

  /** In every state that is reached from the first process a wait errs, answers or blocks as the history says, and a
      wait that answers takes its child off the list and changes no process. */
  lemma WaitTellsHistory(steps: seq<Step>, p: nat, c: nat)
    requires Runs(BOOT, steps) && InUserCode(Final(BOOT, steps), p)
    ensures var t := Final(BOOT, steps);
            var n := Next(t, Wait(p, c));
            && WaitResultOf(t, p, c) == Answer(steps, Listed(t), p, c)
            && match Answer(steps, Listed(t), p, c)
               case Error => n == t
               case Reaped(_) => n.procs == t.procs && Listed(n) == Listed(t) - {c}
               case Blocks => n == t.(procs := t.procs[p := Process(ProcessWaiting, Blocked, t.procs[p].parent,
                                                                   t.procs[p].exitCode, InWait(c))])
  {
    ReachableIsOk(steps);
    BootIsOk();
    var t := Final(BOOT, steps);
    if c in Listed(t) {
      ListedIsProcess(t, c);
    }
    if c >= 2 {
      NewByHistory(BOOT, steps, c);
    } else {
      FirstHasNoSpawner(steps, 2, c);
      if c in t.procs {
        OldHasNoParent(steps, c);
      }
    }
    RemoveKeepsProcesses(t, c);
    RemoveUnlinks(t, c);
    hide Runs, Final, ProcessOk, ListOk, Listed, RemoveStep, SpawnerOf, ExitOf;
  }

  lemma ListedIsProcess(t: Table, c: nat)
    requires TableOk(t) && c in Listed(t)
    ensures c in t.procs
  {
    ListIsDescending(t);
    ChainBound(t.next, t.head, c);
  }

  lemma {:induction false} FirstHasNoSpawner(steps: seq<Step>, first: nat, c: nat)
    requires c < first
    ensures SpawnerOf(steps, first, c) == None
    decreases |steps|
  {
    if steps != [] {
      FirstHasNoSpawner(steps[1..], if steps[0].Spawn? then first + 1 else first, c);
    }
  }

  lemma OldHasNoParent(steps: seq<Step>, c: nat)
    requires Runs(BOOT, steps) && c < 2 && c in Final(BOOT, steps).procs
    ensures Final(BOOT, steps).procs[c].parent == None
  {
    BootIsOk();
    ReachableIsOk(steps);
    if c == 1 {
      ParentStays(BOOT, steps, 1);
    } else {
      ZeroIsNobody(BOOT, steps);
    }
  }

  lemma {:induction false} ZeroIsNobody(t: Table, steps: seq<Step>)
    requires TableOk(t) && Runs(t, steps) && 0 !in t.procs && t.nextPid > 0
    ensures 0 !in Final(t, steps).procs
    decreases |steps|
  {
    if steps != [] {
      StepKeepsOk(t, steps[0]);
      OnlySpawnMakes(t, steps[0], 0);
      hide TableOk, Enabled, Next;
      ZeroIsNobody(Next(t, steps[0]), steps[1..]);
    }
  }

  /** A wait that has blocked and been woken yields the code its child has exited with, or 0 if it has not. */
  lemma ResumeTellsHistory(steps: seq<Step>, p: nat, c: nat)
    requires Runs(BOOT, steps) && CanResume(Final(BOOT, steps), p) && Final(BOOT, steps).procs[p].place == InWait(c)
    ensures ResumeResult(Final(BOOT, steps), p) == if ExitOf(steps, c).Some? then ExitOf(steps, c).value else 0
  {
    ReachableIsOk(steps);
    BootIsOk();
    var t := Final(BOOT, steps);
    assert ProcessOk(t, p) && ProcessOk(t, c);
    assert c >= 2 by {
      if c < 2 {
        OldHasNoParent(steps, c);
      }
    }
    NewByHistory(BOOT, steps, c);
    hide Runs, Final, ProcessOk, ListOk;
  }
}
