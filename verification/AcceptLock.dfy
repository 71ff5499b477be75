/** The accept lock shared by the worker processes of kore-3.2.0/src/worker.c, as a transition
    system: every read-modify-write of the shared lock and every single write is one event, and
    the events of the workers, of their crashes and of the recovering parent interleave freely. */
module AcceptLock {

  /** Where a worker stands in kore_worker_spawn, worker_trylock, worker_acceptlock_obtain,
      worker_unlock and the callers of worker_unlock. */
  datatype Pc =
    | Born      // forked; its copy of `kw->pid = fork()` has not stored its 0 yet
    | Unnamed   // that 0 is stored, `kw->pid = getpid()` is to come
    | Outside   // does not hold the lock
    | Won       // the compare-and-swap succeeded, `current` is not written yet
    | Named     // `current` is written, has_lock is not
    | Holding   // has_lock is set
    | Cleared   // worker_unlock has written 0 to `current`, its compare-and-swap is to come
    | Released  // the lock is free again, has_lock is still set

  datatype Fate = Alive | Crashed | Exited

  /** A slot of the shared worker table, with the process in it: `pid` is what `kw->pid` holds,
      `process` is the process's real pid. */
  datatype Worker = Worker(pid: nat, process: nat, pc: Pc, hasLock: bool, fate: Fate)

  /** The parent inside kore_worker_wait and kore_worker_spawn: about to write `current`, to free the
      lock, to reset has_lock, to fork a replacement, to store its pid. */
  datatype Parent =
    | Watching | Clearing(id: nat) | Unlocking(id: nat) | Restarting(id: nat) | Forking(id: nat) | Naming(id: nat)

  datatype State = State(lock: bool, current: nat, workers: seq<Worker>, parent: Parent)

  datatype Event =
    | TryLock(i: nat) | WriteCurrent(i: nat) | SetHasLock(i: nat)
    | ClearCurrent(i: nat) | FreeLock(i: nat) | ClearHasLock(i: nat)
    | ChildZero(i: nat) | ChildPid(i: nat)
    | Crash(i: nat) | Exit(i: nat)
    | Reap(i: nat) | ParentClear | ParentUnlock | ResetHasLock | Fork(process: nat) | ParentPid

  /** Between the successful compare-and-swap and the releasing one. */
  predicate Inside(w: Worker) {
    w.pc.Won? || w.pc.Named? || w.pc.Holding? || w.pc.Cleared?
  }

  /** `i` is a live worker at `pc`. */
  predicate Runs(s: State, i: nat, pc: Pc) {
    i < |s.workers| && s.workers[i].fate.Alive? && s.workers[i].pc == pc
  }

  function Put(s: State, i: nat, w: Worker): seq<Worker>
    requires i < |s.workers|
  {
    s.workers[i := w]
  }

  function Move(s: State, i: nat, pc: Pc): seq<Worker>
    requires i < |s.workers|
  {
    Put(s, i, s.workers[i].(pc := pc))
  }

  /** One event; an event that is not possible in `s` changes nothing. */
  function Apply(s: State, e: Event): State {
    match e
    // worker_trylock: compare-and-swap, then the owner field; obtain sets has_lock
    case TryLock(i) =>
      if Runs(s, i, Outside) && !s.workers[i].hasLock && !s.lock then
        s.(lock := true, workers := Move(s, i, Won))
      else s
    case WriteCurrent(i) =>
      if Runs(s, i, Won) then s.(current := s.workers[i].pid, workers := Move(s, i, Named)) else s
    case SetHasLock(i) =>
      if Runs(s, i, Named) then s.(workers := Put(s, i, s.workers[i].(pc := Holding, hasLock := true))) else s
    // worker_unlock, then has_lock = 0
    case ClearCurrent(i) =>
      if Runs(s, i, Holding) then s.(current := 0, workers := Move(s, i, Cleared)) else s
    case FreeLock(i) =>
      if Runs(s, i, Cleared) then s.(lock := false, workers := Move(s, i, Released)) else s
    case ClearHasLock(i) =>
      if Runs(s, i, Released) then s.(workers := Put(s, i, s.workers[i].(pc := Outside, hasLock := false))) else s
    // the child's side of kore_worker_spawn
    case ChildZero(i) =>
      if Runs(s, i, Born) then s.(workers := Put(s, i, s.workers[i].(pid := 0, pc := Unnamed))) else s
    case ChildPid(i) =>
      if Runs(s, i, Unnamed) then
        s.(workers := Put(s, i, s.workers[i].(pid := s.workers[i].process, pc := Outside)))
      else s
    // a worker dies anywhere, or ends its main loop by itself
    case Crash(i) =>
      if i < |s.workers| && s.workers[i].fate.Alive? then
        s.(workers := Put(s, i, s.workers[i].(fate := Crashed)))
      else s
    case Exit(i) =>
      if Runs(s, i, Outside) || Runs(s, i, Holding) then
        s.(workers := Put(s, i, s.workers[i].(fate := Exited)))
      else s
    // kore_worker_wait; a process the table does not name is not found
    case Reap(i) =>
      if s.parent.Watching? && i < |s.workers| && s.workers[i].fate.Crashed? &&
         s.workers[i].pid == s.workers[i].process then
        s.(parent := if s.workers[i].pid == s.current then Clearing(i) else Restarting(i))
      else s
    case ParentClear =>
      if s.parent.Clearing? then s.(current := 0, parent := Unlocking(s.parent.id)) else s
    case ParentUnlock =>
      if s.parent.Unlocking? && s.parent.id < |s.workers| then
        s.(lock := false, parent := Restarting(s.parent.id), workers := Move(s, s.parent.id, Outside))
      else s
    // the parent's side of kore_worker_spawn
    case ResetHasLock =>
      if s.parent.Restarting? && s.parent.id < |s.workers| then
        s.(parent := Forking(s.parent.id),
           workers := Put(s, s.parent.id, s.workers[s.parent.id].(hasLock := false)))
      else s
    case Fork(process) =>
      if s.parent.Forking? && s.parent.id < |s.workers| && FreshPid(s, s.parent.id, process) then
        s.(parent := Naming(s.parent.id),
           workers := Put(s, s.parent.id, s.workers[s.parent.id].(process := process, pc := Born, fate := Alive)))
      else s
    case ParentPid =>
      if s.parent.Naming? && s.parent.id < |s.workers| then
        s.(parent := Watching,
           workers := Put(s, s.parent.id, s.workers[s.parent.id].(pid := s.workers[s.parent.id].process)))
      else s
  }

  /** No process in another slot has this pid. */
  predicate FreshPid(s: State, i: nat, process: nat) {
    process != 0 && forall j | 0 <= j < |s.workers| && j != i :: s.workers[j].process != process
  }

  predicate Init(s: State) {
    && !s.lock && s.current == 0 && s.parent == Watching
    && (forall i | 0 <= i < |s.workers| ::
          && s.workers[i].pid == s.workers[i].process != 0 && s.workers[i].pc.Outside?
          && !s.workers[i].hasLock && s.workers[i].fate.Alive?)
    && DistinctPids(s.workers)
  }

  predicate DistinctPids(ws: seq<Worker>) {
    forall i, j | 0 <= i < j < |ws| :: ws[i].process != ws[j].process
  }

  function Run(s: State, events: seq<Event>): State
    decreases events
  {
    if events == [] then s else Run(Apply(s, events[0]), events[1..])
  }

  // ----- the invariant

  /** At most one process, dead or alive, is inside, and while one is the lock is taken. */
  predicate OneInside(s: State) {
    && (forall i, j | 0 <= i < j < |s.workers| :: !(Inside(s.workers[i]) && Inside(s.workers[j])))
    && (forall i | 0 <= i < |s.workers| :: Inside(s.workers[i]) ==> s.lock)
  }

  /** The owner field is the pid of the process inside, from WriteCurrent to ClearCurrent. */
  predicate CurrentNames(s: State) {
    && (forall i | 0 <= i < |s.workers| :: Inside(s.workers[i]) ==>
          s.current == if (s.workers[i].pc.Named? || s.workers[i].pc.Holding?) && s.parent != Unlocking(i)
                       then s.workers[i].process else 0)
    && (s.current != 0 ==> exists i :: 0 <= i < |s.workers| && Inside(s.workers[i]))
  }

  /** The parent recovers for a crashed process that was inside and named. */
  predicate ParentSane(s: State) {
    && (s.parent.Watching? || s.parent.id < |s.workers|)
    && (!s.parent.Watching? && !s.parent.Naming? ==> s.workers[s.parent.id].fate.Crashed?)
    && (s.parent.Clearing? || s.parent.Unlocking? ==>
          s.workers[s.parent.id].pc.Named? || s.workers[s.parent.id].pc.Holding?)
    && (s.parent.Restarting? || s.parent.Forking? ==> s.workers[s.parent.id].process != s.current)
  }

  /** The processes differ, and a worker that can use the lock is named in the table. */
  predicate PidsSane(s: State) {
    && DistinctPids(s.workers)
    && (forall i | 0 <= i < |s.workers| :: s.workers[i].process != 0)
    && (forall i | 0 <= i < |s.workers| && !s.workers[i].pc.Born? && !s.workers[i].pc.Unnamed? ::
          s.workers[i].pid == s.workers[i].process)
  }

  /** has_lock agrees with the program counter. */
  predicate FlagSane(s: State) {
    forall i | 0 <= i < |s.workers| && s.workers[i].fate.Alive? ::
      s.workers[i].hasLock <==> s.workers[i].pc in {Holding, Cleared, Released}
  }

  predicate ForkingSane(s: State) {
    s.parent.Forking? && s.parent.id < |s.workers| ==> !s.workers[s.parent.id].hasLock
  }

  predicate Inv(s: State) {
    OneInside(s) && CurrentNames(s) && ParentSane(s) && PidsSane(s) && FlagSane(s) && ForkingSane(s)
  }

  lemma InitInv(s: State)
    requires Init(s)
    ensures Inv(s)
  {
  }

  predicate ByParent(e: Event) {
    e.Reap? || e.ParentClear? || e.ParentUnlock? || e.ResetHasLock? || e.Fork? || e.ParentPid?
  }

  lemma ParentKeepsOneInside(s: State, e: Event)
    requires Inv(s) && ByParent(e)
    ensures OneInside(Apply(s, e))
  {
    hide FreshPid, DistinctPids, FlagSane, ForkingSane;
  }

  lemma TryLockKeepsOneInside(s: State, i: nat)
    requires OneInside(s)
    ensures OneInside(Apply(s, TryLock(i)))
  {
    hide FreshPid;
  }

  lemma WorkerKeepsOneInside(s: State, e: Event)
    requires OneInside(s) && !ByParent(e)
    ensures OneInside(Apply(s, e))
  {
    hide FreshPid;
    if e.TryLock? {
      TryLockKeepsOneInside(s, e.i);
    } else {
      var t := Apply(s, e);
      assert |t.workers| == |s.workers|;
      assert forall i | 0 <= i < |t.workers| :: Inside(t.workers[i]) ==> Inside(s.workers[i]);
      assert t.lock == (s.lock && !(e.FreeLock? && Runs(s, e.i, Cleared)));
    }
  }

  /** Only the process at WriteCurrent makes the owner field non-zero. */
  lemma StillNamed(s: State, e: Event)
    requires Inv(s)
    ensures var t := Apply(s, e); t.current != 0 ==> exists i :: 0 <= i < |t.workers| && Inside(t.workers[i])
  {
    hide FreshPid, DistinctPids, FlagSane, ForkingSane;
    var t := Apply(s, e);
    if t.current != 0 {
      if s.current != 0 {
        var i :| 0 <= i < |s.workers| && Inside(s.workers[i]);
        assert Inside(t.workers[i]);
      } else {
        assert Inside(t.workers[e.i]);
      }
    }
  }

  lemma ParentKeepsCurrentNames(s: State, e: Event)
    requires Inv(s) && ByParent(e)
    ensures CurrentNames(Apply(s, e))
  {
    StillNamed(s, e);
    hide FreshPid, DistinctPids, FlagSane, ForkingSane;
  }

  lemma WorkerKeepsCurrentNames(s: State, e: Event)
    requires Inv(s) && !ByParent(e)
    ensures CurrentNames(Apply(s, e))
  {
    StillNamed(s, e);
    hide FreshPid, DistinctPids, FlagSane, ForkingSane;
  }

  lemma ParentKeepsParentSane(s: State, e: Event)
    requires Inv(s) && ByParent(e)
    ensures ParentSane(Apply(s, e)) && ForkingSane(Apply(s, e))
  {
    hide FreshPid, DistinctPids, FlagSane;
    if e.Reap? && e.i < |s.workers| && s.workers[e.i].process == s.current {
      var j: nat :| j < |s.workers| && Inside(s.workers[j]);
      if j != e.i {
        PidsDiffer(s, e.i, j);
      }
    }
  }

  lemma WorkerKeepsParentSane(s: State, e: Event)
    requires Inv(s) && !ByParent(e)
    ensures ParentSane(Apply(s, e)) && ForkingSane(Apply(s, e))
  {
    hide FreshPid, DistinctPids, FlagSane;
    if e.WriteCurrent? && (s.parent.Restarting? || s.parent.Forking?) && Runs(s, e.i, Won) {
      assert s.workers[e.i].process != s.workers[s.parent.id].process by {
        PidsDiffer(s, e.i, s.parent.id);
      }
    }
  }

  lemma PidsDiffer(s: State, i: nat, j: nat)
    requires PidsSane(s) && i < |s.workers| && j < |s.workers| && i != j
    ensures s.workers[i].process != s.workers[j].process
  {
  }

  lemma KeepsPids(s: State, e: Event)
    requires Inv(s)
    ensures PidsSane(Apply(s, e))
  {
    hide OneInside, CurrentNames, FlagSane, ForkingSane;
  }

  lemma KeepsFlags(s: State, e: Event)
    requires Inv(s)
    ensures FlagSane(Apply(s, e))
  {
    hide OneInside, CurrentNames, PidsSane, FreshPid;
  }

  /** Every single write and compare-and-swap keeps the invariant. */
  lemma ApplyKeepsInv(s: State, e: Event)
    requires Inv(s)
    ensures Inv(Apply(s, e)) && |Apply(s, e).workers| == |s.workers|
  {
    hide OneInside, CurrentNames, ParentSane, PidsSane, FlagSane, ForkingSane;
    if ByParent(e) {
      ParentKeepsOneInside(s, e);
      ParentKeepsCurrentNames(s, e);
      ParentKeepsParentSane(s, e);
    } else {
      WorkerKeepsOneInside(s, e);
      WorkerKeepsCurrentNames(s, e);
      WorkerKeepsParentSane(s, e);
    }
    KeepsPids(s, e);
    KeepsFlags(s, e);
  }

  lemma {:induction false} RunKeepsInv(s: State, events: seq<Event>)
    requires Inv(s)
    ensures Inv(Run(s, events)) && |Run(s, events).workers| == |s.workers|
    decreases events
  {
    if events != [] {
      ApplyKeepsInv(s, events[0]);
      RunKeepsInv(Apply(s, events[0]), events[1..]);
    }
  }

  /** Mutual exclusion: in every interleaving of the writes of the workers, of crashes anywhere and
      of the parent's recovery, at most one live worker is between its successful compare-and-swap
      and the releasing one; and a non-zero owner field is the pid of exactly the process that is. */
  lemma MutualExclusion(s: State, events: seq<Event>)
    requires Init(s)
    ensures
      var t := Run(s, events);
      && (forall i, j | 0 <= i < j < |t.workers| ::
            !(t.workers[i].fate.Alive? && Inside(t.workers[i]) && t.workers[j].fate.Alive? && Inside(t.workers[j])))
      && (t.current != 0 ==>
            && (exists i :: 0 <= i < |t.workers| && t.workers[i].pid == t.workers[i].process == t.current)
            && forall i | 0 <= i < |t.workers| :: t.workers[i].process == t.current <==> Inside(t.workers[i]))
  {
    InitInv(s);
    RunKeepsInv(s, events);
    var t := Run(s, events);
    if t.current != 0 {
      var i :| 0 <= i < |t.workers| && Inside(t.workers[i]);
      assert t.workers[i].process == t.current;
      forall j | 0 <= j < |t.workers|
        ensures t.workers[j].process == t.current <==> Inside(t.workers[j])
      {
        assert j != i ==> t.workers[j].process != t.workers[i].process;
      }
    }
  }

  /** worker_unlock, by a worker or by the parent, never finds the lock free ("wasnt locked"). */
  lemma UnlockFindsItLocked(s: State, events: seq<Event>, i: nat)
    requires Init(s)
    ensures Runs(Run(s, events), i, Cleared) ==> Run(s, events).lock
    ensures Run(s, events).parent.Unlocking? ==> Run(s, events).lock
  {
    InitInv(s);
    RunKeepsInv(s, events);
    var t := Run(s, events);
    assert t.parent.Unlocking? ==> Inside(t.workers[t.parent.id]);
  }

  // ----- what recovery cannot repair

  /** The process inside will still free the lock: it runs, or the parent will recognise it. */
  predicate WillFree(s: State, i: nat)
    requires i < |s.workers|
  {
    && Inside(s.workers[i])
    && (s.workers[i].fate.Alive? ||
        (s.workers[i].fate.Crashed? && (s.workers[i].pc.Named? || s.workers[i].pc.Holding?)))
  }

  /** The lock is taken and nobody will free it. */
  predicate Lost(s: State) {
    s.lock && forall i | 0 <= i < |s.workers| :: !WillFree(s, i)
  }

  /** Once lost, the lock stays lost and no worker ever gets it, whatever happens. */
  lemma {:induction false} LostForever(s: State, events: seq<Event>)
    requires Inv(s) && Lost(s)
    ensures Lost(Run(s, events))
    ensures
      var t := Run(s, events);
      forall i | 0 <= i < |t.workers| :: !(Inside(t.workers[i]) && t.workers[i].fate.Alive?)
    decreases events
  {
    hide Apply, Lost, Inv;
    if events == [] {
      LostMeansNobody(s);
    } else {
      ApplyKeepsInv(s, events[0]);
      LostStep(s, events[0]);
      LostForever(Apply(s, events[0]), events[1..]);
    }
  }

  lemma LostMeansNobody(s: State)
    requires Lost(s)
    ensures forall i | 0 <= i < |s.workers| :: !(Inside(s.workers[i]) && s.workers[i].fate.Alive?)
  {
    forall i | 0 <= i < |s.workers|
      ensures !(Inside(s.workers[i]) && s.workers[i].fate.Alive?)
    {
      assert !WillFree(s, i);
    }
  }

  lemma LostStep(s: State, e: Event)
    requires Inv(s) && Lost(s)
    ensures Lost(Apply(s, e))
  {
    var t := Apply(s, e);
    hide FreshPid, PidsSane, FlagSane;
    assert s.parent.Unlocking? ==> WillFree(s, s.parent.id);
    LostMeansNobody(s);
    assert t.lock;
    assert |t.workers| == |s.workers|;
    forall i | 0 <= i < |t.workers|
      ensures !WillFree(t, i)
    {
      assert !WillFree(s, i);
    }
  }

  /** A crash loses the lock exactly when it hits one of the two windows in which the process is
      inside but not named: between the compare-and-swap and the write of `current`, and between
      the clearing of `current` and the releasing compare-and-swap. */
  lemma CrashLosesLock(s: State, i: nat)
    requires Inv(s) && !Lost(s) && i < |s.workers| && s.workers[i].fate.Alive?
    ensures Lost(Apply(s, Crash(i))) <==> s.workers[i].pc in {Won, Cleared}
  {
    var t := Apply(s, Crash(i));
    if s.workers[i].pc in {Won, Cleared} {
      assert Inside(s.workers[i]);
      assert forall j | 0 <= j < |t.workers| :: !WillFree(t, j);
    } else if s.lock {
      var j: nat :| j < |s.workers| && WillFree(s, j);
      assert WillFree(t, j);
    }
  }

  /** A worker that ends its main loop by itself loses the lock exactly when it holds it. */
  lemma ExitLosesLock(s: State, i: nat)
    requires Inv(s) && !Lost(s) && (Runs(s, i, Outside) || Runs(s, i, Holding))
    ensures Lost(Apply(s, Exit(i))) <==> s.workers[i].pc.Holding?
  {
    var t := Apply(s, Exit(i));
    if s.workers[i].pc.Holding? {
      assert Inside(s.workers[i]);
      assert forall j | 0 <= j < |t.workers| :: !WillFree(t, j);
    } else if s.lock {
      var j: nat :| j < |s.workers| && WillFree(s, j);
      assert WillFree(t, j);
    }
  }

  /** The events that lose the lock in the state they meet. */
  predicate Loses(s: State, e: Event) {
    || (e.Crash? && e.i < |s.workers| && s.workers[e.i].fate.Alive? && s.workers[e.i].pc in {Won, Cleared})
    || (e.Exit? && Runs(s, e.i, Holding))
  }

  /** No other event loses the lock. */
  lemma EventLosesLock(s: State, e: Event)
    requires Inv(s) && !Lost(s)
    ensures Lost(Apply(s, e)) <==> Loses(s, e)
  {
    if e.Crash? && e.i < |s.workers| && s.workers[e.i].fate.Alive? {
      CrashLosesLock(s, e.i);
    } else if e.Exit? && (Runs(s, e.i, Outside) || Runs(s, e.i, Holding)) {
      ExitLosesLock(s, e.i);
    } else if s.lock && !e.Crash? && !e.Exit? {
      OtherEventKeepsLock(s, e);
    } else if e.TryLock? && Runs(s, e.i, Outside) {
      var t := Apply(s, e);
      assert t.lock ==> WillFree(t, e.i);
    }
  }

  lemma OtherEventKeepsLock(s: State, e: Event)
    requires Inv(s) && s.lock && !Lost(s) && !e.Crash? && !e.Exit?
    ensures !Lost(Apply(s, e))
  {
    hide FreshPid, DistinctPids, FlagSane, ForkingSane;
    var j: nat :| j < |s.workers| && WillFree(s, j);
    var t := Apply(s, e);
    assert t.lock ==> WillFree(t, j);
  }

  /** A run loses the lock exactly if one of its events does. */
  lemma {:induction false} RunLosesLock(s: State, events: seq<Event>)
    requires Inv(s) && !Lost(s)
    ensures Lost(Run(s, events)) <==>
            exists k :: 0 <= k < |events| && Loses(Run(s, events[..k]), events[k])
    decreases events
  {
    hide Inv, Lost, Apply, Loses;
    if events != [] {
      var t, rest := Apply(s, events[0]), events[1..];
      EventLosesLock(s, events[0]);
      ApplyKeepsInv(s, events[0]);
      assert Run(s, events[..0]) == s;
      if Loses(s, events[0]) {
        LostForever(t, rest);
      } else {
        RunLosesLock(t, rest);
        forall k | 0 <= k < |rest|
          ensures Run(s, events[..k + 1]) == Run(t, rest[..k]) && events[k + 1] == rest[k]
        {
          assert events[..k + 1][1..] == rest[..k];
        }
        if exists k :: 0 <= k < |events| && Loses(Run(s, events[..k]), events[k]) {
          var k :| 0 <= k < |events| && Loses(Run(s, events[..k]), events[k]);
          assert Loses(Run(t, rest[..k - 1]), rest[k - 1]);
        }
      }
    }
  }

  /** Two workers at the start of a run. */
  const TWO := State(false, 0, [Worker(1, 1, Outside, false, Alive), Worker(2, 2, Outside, false, Alive)], Watching)

  lemma {:induction false} RunConcat(s: State, a: seq<Event>, b: seq<Event>)
    ensures Run(s, a + b) == Run(Run(s, a), b)
    decreases a
  {
    hide Apply;
    if a == [] {
      assert a + b == b;
    } else {
      assert (a + b)[1..] == a[1..] + b;
      RunConcat(Apply(s, a[0]), a[1..], b);
    }
  }

  lemma RunSnoc(s: State, a: seq<Event>, e: Event)
    ensures Run(s, a + [e]) == Apply(Run(s, a), e)
  {
    hide Apply;
    RunConcat(s, a, [e]);
    assert [e][1..] == [];
    assert Run(Run(s, a), [e]) == Run(Apply(Run(s, a), e), []);
  }

  /** The shortest ways to lose it: the winner dies before it has written its name, or ends its
      main loop while it holds the lock. */
  lemma LockCanBeLost()
    ensures Init(TWO) && Lost(Run(TWO, [TryLock(0), Crash(0)]))
    ensures Lost(Run(TWO, [TryLock(0), WriteCurrent(0), SetHasLock(0), Exit(0)]))
  {
    RunSnoc(TWO, [], TryLock(0));
    var won := Run(TWO, [] + [TryLock(0)]);
    assert [] + [TryLock(0)] == [TryLock(0)];
    assert won == State(true, 0, [Worker(1, 1, Won, false, Alive), TWO.workers[1]], Watching);
    assert [TryLock(0)] + [Crash(0)] == [TryLock(0), Crash(0)];
    RunSnoc(TWO, [TryLock(0)], Crash(0));
    InitInv(TWO);
    RunKeepsInv(TWO, [TryLock(0)]);
    assert WillFree(won, 0);
    CrashLosesLock(won, 0);
    ExitCanLose(won);
  }

  lemma ExitCanLose(won: State)
    requires won == State(true, 0, [Worker(1, 1, Won, false, Alive), TWO.workers[1]], Watching)
    requires won == Run(TWO, [TryLock(0)]) && Inv(won)
    ensures Lost(Run(TWO, [TryLock(0), WriteCurrent(0), SetHasLock(0), Exit(0)]))
  {
    var a := [TryLock(0)];
    var b, c := a + [WriteCurrent(0)], a + [WriteCurrent(0)] + [SetHasLock(0)];
    RunSnoc(TWO, a, WriteCurrent(0));
    RunSnoc(TWO, b, SetHasLock(0));
    RunSnoc(TWO, c, Exit(0));
    ApplyKeepsInv(won, WriteCurrent(0));
    ApplyKeepsInv(Run(TWO, b), SetHasLock(0));
    var holding := Run(TWO, c);
    assert holding == State(true, 1, [Worker(1, 1, Holding, true, Alive), TWO.workers[1]], Watching);
    assert WillFree(holding, 0);
    ExitLosesLock(holding, 0);
    assert c + [Exit(0)] == [TryLock(0), WriteCurrent(0), SetHasLock(0), Exit(0)];
  }

  // ----- the lock is won when it is free, and given back

  /** A step, or the death, of worker `i` itself. */
  predicate Own(e: Event, i: nat) {
    && (e.TryLock? || e.WriteCurrent? || e.SetHasLock? || e.ClearCurrent? || e.FreeLock? || e.ClearHasLock? ||
        e.ChildZero? || e.ChildPid? || e.Crash? || e.Exit?)
    && e.i == i
  }

  /** Only others act: any number of workers, and the parent. */
  predicate Spares(events: seq<Event>, i: nat) {
    forall k | 0 <= k < |events| :: !Own(events[k], i)
  }

  /** A live worker that is named in the table. */
  predicate Working(s: State, i: nat) {
    i < |s.workers| && s.workers[i].fate.Alive? && !s.workers[i].pc.Born? && !s.workers[i].pc.Unnamed?
  }

  lemma OthersLeave(s: State, i: nat, e: Event)
    requires Inv(s) && Working(s, i) && !Own(e, i)
    ensures |Apply(s, e).workers| == |s.workers| && Apply(s, e).workers[i] == s.workers[i]
  {
    hide OneInside, CurrentNames, FlagSane, ForkingSane, FreshPid, DistinctPids;
  }

  lemma {:induction false} OthersLeaveAll(s: State, i: nat, events: seq<Event>)
    requires Inv(s) && Working(s, i) && Spares(events, i)
    ensures Inv(Run(s, events)) && |Run(s, events).workers| == |s.workers|
    ensures Run(s, events).workers[i] == s.workers[i]
    decreases events
  {
    hide Inv, Apply, Own;
    if events != [] {
      OthersLeave(s, i, events[0]);
      ApplyKeepsInv(s, events[0]);
      OthersLeaveAll(Apply(s, events[0]), i, events[1..]);
    }
  }

  /** Others, and then one step of the worker. */
  lemma StepAfterOthers(s: State, i: nat, a: seq<Event>, e: Event) returns (t: State)
    requires Inv(s) && Working(s, i) && Spares(a, i)
    ensures t == Run(s, a) && Inv(t) && |t.workers| == |s.workers| && t.workers[i] == s.workers[i]
    ensures Run(s, a + [e]) == Apply(t, e) && Inv(Apply(t, e)) && |Apply(t, e).workers| == |s.workers|
  {
    hide Inv, Apply, Spares;
    t := Run(s, a);
    OthersLeaveAll(s, i, a);
    RunSnoc(s, a, e);
    ApplyKeepsInv(t, e);
  }

  /** Who holds the lock is named in it. */
  lemma HolderIsNamed(s: State, i: nat)
    requires Inv(s) && Runs(s, i, Holding)
    ensures s.lock && s.current == s.workers[i].pid && s.workers[i].hasLock
  {
    assert Inside(s.workers[i]);
  }

  /** The three steps, each on the state the others left. */
  lemma WinningSteps(s: State, i: nat, t: State, u: State)
    requires Runs(s, i, Outside) && !s.workers[i].hasLock && !s.lock
    requires i < |t.workers| && t.workers[i] == Apply(s, TryLock(i)).workers[i]
    requires i < |u.workers| && u.workers[i] == Apply(t, WriteCurrent(i)).workers[i]
    ensures Runs(t, i, Won) && Runs(u, i, Named)
    ensures Runs(Apply(u, SetHasLock(i)), i, Holding) && Apply(u, SetHasLock(i)).workers[i].pid == s.workers[i].pid
  {
    hide FreshPid;
  }

  /** A worker that tries while the lock is free gets it: once it has done its two writes it holds
      the lock and is named in it, whatever others do in between. */
  lemma FreeLockIsWon(s: State, i: nat, a: seq<Event>, b: seq<Event>)
    requires Inv(s) && Runs(s, i, Outside) && !s.workers[i].hasLock && !s.lock
    requires Spares(a, i) && Spares(b, i)
    ensures
      var t := Run(s, [TryLock(i)] + a + [WriteCurrent(i)] + b + [SetHasLock(i)]);
      Runs(t, i, Holding) && t.workers[i].hasLock && t.lock && t.current == t.workers[i].pid == s.workers[i].pid
  {
    hide Inv, Apply, Spares, FreshPid, Run;
    var s1 := Apply(s, TryLock(i));
    TryStep(s, i);
    var t1 := StepAfterOthers(s1, i, a, WriteCurrent(i));
    WriteStep(t1, i);
    var s2 := Apply(t1, WriteCurrent(i));
    var t2 := StepAfterOthers(s2, i, b, SetHasLock(i));
    WinningSteps(s, i, t1, t2);
    HolderIsNamed(Apply(t2, SetHasLock(i)), i);
    RunConcat(s, [TryLock(i)], a + [WriteCurrent(i)]);
    assert [TryLock(i)] + (a + [WriteCurrent(i)]) == [TryLock(i)] + a + [WriteCurrent(i)];
    RunConcat(s, [TryLock(i)] + a + [WriteCurrent(i)], b + [SetHasLock(i)]);
    assert [TryLock(i)] + a + [WriteCurrent(i)] + (b + [SetHasLock(i)])
        == [TryLock(i)] + a + [WriteCurrent(i)] + b + [SetHasLock(i)];
  }

  lemma TryStep(s: State, i: nat)
    requires Inv(s) && Runs(s, i, Outside) && !s.workers[i].hasLock && !s.lock
    ensures Run(s, [TryLock(i)]) == Apply(s, TryLock(i)) && Inv(Apply(s, TryLock(i)))
    ensures Working(Apply(s, TryLock(i)), i) && Runs(Apply(s, TryLock(i)), i, Won)
  {
    hide Inv, FreshPid;
    RunSnoc(s, [], TryLock(i));
    assert [] + [TryLock(i)] == [TryLock(i)];
    ApplyKeepsInv(s, TryLock(i));
  }

  lemma WriteStep(t: State, i: nat)
    requires Runs(t, i, Won)
    ensures Working(Apply(t, WriteCurrent(i)), i)
  {
    hide FreshPid;
  }

  /** A holder that unlocks gives the lock back: right after its releasing compare-and-swap the lock
      is free, and after the reset of has_lock it is outside again, whatever others do in between. */
  lemma HolderGivesBack(s: State, i: nat, a: seq<Event>, b: seq<Event>, c: seq<Event>)
    requires Inv(s) && Runs(s, i, Holding) && Spares(a, i) && Spares(b, i) && Spares(c, i)
    ensures
      var events := a + [ClearCurrent(i)] + b + [FreeLock(i)];
      && !Run(s, events).lock && Run(s, events).current == 0
      && Runs(Run(s, events + c + [ClearHasLock(i)]), i, Outside)
      && !Run(s, events + c + [ClearHasLock(i)]).workers[i].hasLock
  {
    hide FlagSane, ForkingSane, DistinctPids, Spares, FreshPid;
    var t1 := StepAfterOthers(s, i, a, ClearCurrent(i));
    var s1 := Apply(t1, ClearCurrent(i));
    var t2 := StepAfterOthers(s1, i, b, FreeLock(i));
    var s2 := Apply(t2, FreeLock(i));
    var t3 := StepAfterOthers(s2, i, c, ClearHasLock(i));
    assert Inside(t2.workers[i]);
    var events := a + [ClearCurrent(i)] + b + [FreeLock(i)];
    RunConcat(s, a + [ClearCurrent(i)], b + [FreeLock(i)]);
    assert a + [ClearCurrent(i)] + (b + [FreeLock(i)]) == events;
    RunConcat(s, events, c + [ClearHasLock(i)]);
    assert events + (c + [ClearHasLock(i)]) == events + c + [ClearHasLock(i)];
  }

  // ----- what recovery does repair

  /** How far the parent is with the crashed process in slot `i`, if that process was named: not
      begun (1), about to clear (2), to free (3), to reset has_lock (4), to fork (5). */
  function Stage(s: State, i: nat): nat {
    if i >= |s.workers| || !s.workers[i].fate.Crashed? then 0
    else if s.workers[i].pc in {Named, Holding} then
      if s.parent == Clearing(i) then 2 else if s.parent == Unlocking(i) then 3
      else if s.parent == Restarting(i) || s.parent == Forking(i) then 0
      else 1
    else if s.workers[i].pc.Outside? then
      if s.parent == Restarting(i) then 4 else if s.parent == Forking(i) then 5 else 0
    else 0
  }

  /** The parent has just freed the lock of the process in slot `i`. */
  predicate Freed(s: State, i: nat) {
    !s.lock && s.current == 0 && Stage(s, i) == 4
  }

  /** The slot has just got a new process. */
  predicate Respawned(s: State, i: nat) {
    s.parent == Naming(i) && Runs(s, i, Born) && !s.workers[i].hasLock
  }

  /** Whatever happens, recovery is undisturbed: no event sets it back, the parent's own next step
      moves it on, and freeing the lock finds it taken. */
  lemma RecoveryStep(s: State, i: nat, e: Event)
    requires Inv(s) && Stage(s, i) >= 1
    ensures
      var t := Apply(s, e);
      && (Respawned(t, i) || Stage(t, i) >= Stage(s, i))
      && (Stage(s, i) < 4 ==> Freed(t, i) || 1 <= Stage(t, i) < 4)
      && (e == Reap(i) && s.parent.Watching? ==> Stage(t, i) >= 2)
      && (e.ParentClear? && Stage(s, i) == 2 ==> Stage(t, i) == 3)
      && (e.ParentUnlock? && Stage(s, i) == 3 ==> Freed(t, i))
      && (e.ResetHasLock? && Stage(s, i) == 4 ==> Stage(t, i) == 5)
      && (e.Fork? && Stage(s, i) == 5 && FreshPid(s, i, e.process) ==> Respawned(t, i))
  {
    if ByParent(e) {
      hide FreshPid, DistinctPids, FlagSane;
      assert Stage(s, i) < 4 ==> Inside(s.workers[i]);
    } else {
      WorkersLeaveRecovery(s, i, e);
    }
  }

  lemma WorkersLeaveRecovery(s: State, i: nat, e: Event)
    requires !ByParent(e) && Stage(s, i) >= 1
    ensures Stage(Apply(s, e), i) == Stage(s, i)
  {
    hide FreshPid;
    var t := Apply(s, e);
    assert t.parent == s.parent && |t.workers| == |s.workers| && t.workers[i] == s.workers[i];
  }

  /** Either the goal was met on the way, or recovery is at least at this stage. */
  predicate Progress(s: State, i: nat, events: seq<Event>, stage: nat) {
    || (exists k :: 0 <= k <= |events| && Respawned(Run(s, events[..k]), i))
    || (Inv(Run(s, events)) && Stage(Run(s, events), i) >= stage)
  }

  predicate WasFreed(s: State, i: nat, events: seq<Event>) {
    exists k :: 0 <= k <= |events| && Freed(Run(s, events[..k]), i)
  }

  /** While nothing was freed, recovery is before that stage. */
  predicate NotYet(s: State, i: nat, events: seq<Event>) {
    WasFreed(s, i, events) || 1 <= Stage(Run(s, events), i) < 4
  }

  /** Progress so far, and one event more. */
  lemma ProgressSnoc(s: State, i: nat, a: seq<Event>, e: Event, stage: nat, next: nat)
    requires Progress(s, i, a, stage) && stage >= 1
    requires Inv(Run(s, a)) && Stage(Run(s, a), i) >= stage ==>
               Respawned(Apply(Run(s, a), e), i) || Stage(Apply(Run(s, a), e), i) >= next
    ensures Progress(s, i, a + [e], next)
  {
    hide Inv, Apply, Freed, Stage, Respawned;
    var all := a + [e];
    RunSnoc(s, a, e);
    assert all[..|all|] == all;
    if exists k :: 0 <= k <= |a| && Respawned(Run(s, a[..k]), i) {
      var k :| 0 <= k <= |a| && Respawned(Run(s, a[..k]), i);
      assert all[..k] == a[..k];
    } else {
      ApplyKeepsInv(Run(s, a), e);
    }
  }

  lemma {:induction false} ProgressOn(s: State, i: nat, a: seq<Event>, b: seq<Event>, stage: nat)
    requires Progress(s, i, a, stage) && stage >= 1
    ensures Progress(s, i, a + b, stage)
    decreases b
  {
    hide Inv, Apply, Freed, Stage, Respawned, Progress;
    if b == [] {
      assert a + b == a;
    } else {
      if Inv(Run(s, a)) && Stage(Run(s, a), i) >= stage {
        RecoveryStep(Run(s, a), i, b[0]);
      }
      ProgressSnoc(s, i, a, b[0], stage, stage);
      assert a + [b[0]] + b[1..] == a + b;
      ProgressOn(s, i, a + [b[0]], b[1..], stage);
    }
  }

  lemma {:induction false} FreedOnTheWay(s: State, i: nat, events: seq<Event>)
    requires Inv(s) && 1 <= Stage(s, i) < 4
    ensures NotYet(s, i, events)
    decreases |events|
  {
    hide Inv, Apply, Stage;
    if events == [] {
      assert Run(s, events) == s;
    } else {
      var a, e := events[..|events| - 1], events[|events| - 1];
      assert events == a + [e];
      FreedOnTheWay(s, i, a);
      RunSnoc(s, a, e);
      if WasFreed(s, i, a) {
        var k :| 0 <= k <= |a| && Freed(Run(s, a[..k]), i);
        assert events[..k] == a[..k];
      } else {
        RunKeepsInv(s, a);
        RecoveryStep(Run(s, a), i, e);
        assert events[..|events|] == events;
      }
    }
  }

  /** Recovery works in every interleaving: if the run contains the parent's steps, each when it is
      the parent's turn, then whatever the workers, crashes and other recoveries do in between, the
      lock was freed on the way and after that the slot got a new process. */
  lemma RecoveryFreesLock(s: State, i: nat, a: seq<Event>, b: seq<Event>, c: seq<Event>, d: seq<Event>, f: seq<Event>,
                          process: nat)
    requires Inv(s) && Stage(s, i) == 1 && Run(s, a).parent.Watching?
    requires FreshPid(
               Run(s, a + [Reap(i)] + b + [ParentClear] + c + [ParentUnlock] + d + [ResetHasLock] + f), i, process)
    ensures
      var events := a + [Reap(i)] + b + [ParentClear] + c + [ParentUnlock] + d + [ResetHasLock] + f + [Fork(process)];
      exists j, k :: 0 <= j < k <= |events| && Freed(Run(s, events[..j]), i) && Respawned(Run(s, events[..k]), i)
  {
    hide Inv, Apply, Freed, Stage, Respawned, Progress, FreshPid;
    assert Progress(s, i, [], 1) by {
      StartOfProgress(s, i);
    }
    assert [] + a == a;
    ProgressOn(s, i, [], a, 1);
    var u := a + [Reap(i)];
    NextStage(s, i, a, Reap(i), 1);
    ProgressOn(s, i, u, b, 2);
    NextStage(s, i, u + b, ParentClear, 2);
    var v := u + b + [ParentClear];
    ProgressOn(s, i, v, c, 3);
    NextStage(s, i, v + c, ParentUnlock, 3);
    var w := v + c + [ParentUnlock];
    ProgressOn(s, i, w, d, 4);
    NextStage(s, i, w + d, ResetHasLock, 4);
    var x := w + d + [ResetHasLock];
    ProgressOn(s, i, x, f, 5);
    NextStage(s, i, x + f, Fork(process), 5);
    FreedBeforeRespawned(s, i, x + f + [Fork(process)]);
  }

  lemma StartOfProgress(s: State, i: nat)
    requires Inv(s) && Stage(s, i) >= 1
    ensures Progress(s, i, [], 1)
  {
  }

  /** The parent's own step, from at least the stage before it. */
  lemma NextStage(s: State, i: nat, a: seq<Event>, e: Event, stage: nat)
    requires Progress(s, i, a, stage) && 1 <= stage <= 5
    requires stage == 1 ==> e == Reap(i) && Run(s, a).parent.Watching?
    requires stage == 2 ==> e.ParentClear?
    requires stage == 3 ==> e.ParentUnlock?
    requires stage == 4 ==> e.ResetHasLock?
    requires stage == 5 ==> e.Fork? && FreshPid(Run(s, a), i, e.process)
    ensures Progress(s, i, a + [e], stage + 1)
  {
    hide Inv, Apply, Progress, FreshPid;
    if Inv(Run(s, a)) && Stage(Run(s, a), i) >= stage {
      RecoveryStep(Run(s, a), i, e);
    }
    ProgressSnoc(s, i, a, e, stage, stage + 1);
  }

  /** No slot gets a new process before its lock is free. */
  lemma FreedBeforeRespawned(s: State, i: nat, events: seq<Event>)
    requires Inv(s) && 1 <= Stage(s, i) < 4 && Progress(s, i, events, 6)
    ensures exists j, k :: 0 <= j < k <= |events| && Freed(Run(s, events[..j]), i) && Respawned(Run(s, events[..k]), i)
  {
    hide Inv, Apply;
    assert Stage(Run(s, events), i) < 6;
    var k :| 0 <= k <= |events| && Respawned(Run(s, events[..k]), i);
    FreedOnTheWay(s, i, events[..k]);
    var j :| 0 <= j <= k && Freed(Run(s, events[..k][..j]), i);
    assert events[..k][..j] == events[..j];
    assert j != k;
  }

  // ----- a process nobody will find

  /** A dead process that the table does not name, and the parent will not name any more. */
  predicate Nameless(s: State, i: nat) {
    && i < |s.workers| && s.workers[i].fate.Crashed?
    && s.workers[i].pid != s.workers[i].process && s.parent != Naming(i)
  }

  /** Such a slot is never found by kore_worker_wait, so it is never restarted. */
  lemma {:induction false} NamelessForever(s: State, i: nat, events: seq<Event>)
    requires Inv(s) && Nameless(s, i) && (s.parent.Watching? || s.parent.id != i)
    ensures Nameless(Run(s, events), i)
    decreases events
  {
    if events != [] {
      NamelessStep(s, i, events[0]);
      ApplyKeepsInv(s, events[0]);
      NamelessForever(Apply(s, events[0]), i, events[1..]);
    }
  }

  lemma NamelessStep(s: State, i: nat, e: Event)
    requires Nameless(s, i) && (s.parent.Watching? || s.parent.id != i)
    ensures var t := Apply(s, e); Nameless(t, i) && (t.parent.Watching? || t.parent.id != i)
  {
    hide FreshPid;
  }

  /** What the table says of a process that has not stored its own pid yet. */
  predicate SpawnSane(s: State) {
    forall i | 0 <= i < |s.workers| ::
      && (s.workers[i].pc.Born? ==> s.workers[i].pid == s.workers[i].process || s.parent == Naming(i))
      && (s.workers[i].pc.Unnamed? ==> s.workers[i].pid in {0, s.workers[i].process})
  }

  lemma KeepsSpawnSane(s: State, e: Event)
    requires Inv(s) && SpawnSane(s)
    ensures SpawnSane(Apply(s, e))
  {
    hide OneInside, CurrentNames, FlagSane, ForkingSane, FreshPid, DistinctPids;
  }

  /** The worker dies while the 0 it has stored still stands: the parent's store came before. */
  predicate MakesNameless(s: State, i: nat, e: Event) {
    e == Crash(i) && Runs(s, i, Unnamed) && s.workers[i].pid == 0 && s.parent != Naming(i)
  }

  /** No other event makes a slot nameless. */
  lemma EventMakesNameless(s: State, i: nat, e: Event)
    requires Inv(s) && SpawnSane(s) && !Nameless(s, i)
    ensures Nameless(Apply(s, e), i) <==> MakesNameless(s, i, e)
  {
    hide OneInside, CurrentNames, FlagSane, ForkingSane, FreshPid, DistinctPids;
  }

  /** A run leaves a slot nameless exactly if one of its events does. */
  lemma {:induction false} RunMakesNameless(s: State, i: nat, events: seq<Event>)
    requires Inv(s) && SpawnSane(s) && !Nameless(s, i)
    ensures Nameless(Run(s, events), i) <==>
            exists k :: 0 <= k < |events| && MakesNameless(Run(s, events[..k]), i, events[k])
    decreases events
  {
    hide Inv, SpawnSane, Apply, Nameless, MakesNameless;
    if events != [] {
      var e, t, rest := events[0], Apply(s, events[0]), events[1..];
      EventMakesNameless(s, i, e);
      ApplyKeepsInv(s, e);
      KeepsSpawnSane(s, e);
      assert Run(s, events[..0]) == s;
      if MakesNameless(s, i, e) {
        ParentElsewhere(s, i, e);
        NamelessForever(t, i, rest);
      } else {
        RunMakesNameless(t, i, rest);
        forall k | 0 <= k < |rest|
          ensures Run(s, events[..k + 1]) == Run(t, rest[..k]) && events[k + 1] == rest[k]
        {
          assert events[..k + 1][1..] == rest[..k];
        }
        if exists k :: 0 <= k < |events| && MakesNameless(Run(s, events[..k]), i, events[k]) {
          var k :| 0 <= k < |events| && MakesNameless(Run(s, events[..k]), i, events[k]);
          assert MakesNameless(Run(t, rest[..k - 1]), i, rest[k - 1]);
        }
      }
    }
  }

  /** While a worker lives the parent is not recovering its slot. */
  lemma ParentElsewhere(s: State, i: nat, e: Event)
    requires Inv(s) && MakesNameless(s, i, e)
    ensures var t := Apply(s, e); t.parent.Watching? || t.parent.id != i
  {
  }

  lemma ReapFinds(t: State, i: nat)
    requires t.parent.Watching? && i < |t.workers| && t.workers[i].fate.Crashed?
    ensures Apply(t, Reap(i)).parent in {Clearing(i), Restarting(i)} <==> !Nameless(t, i)
  {
  }

  /** In every run from the start, a parent that looks for a dead worker finds it, unless a death
      in its slot was of that kind. */
  lemma FoundUnlessNameless(s: State, i: nat, events: seq<Event>)
    requires Init(s)
    requires var t := Run(s, events); t.parent.Watching? && i < |t.workers| && t.workers[i].fate.Crashed?
    ensures Apply(Run(s, events), Reap(i)).parent in {Clearing(i), Restarting(i)} <==>
            !exists k :: 0 <= k < |events| && MakesNameless(Run(s, events[..k]), i, events[k])
  {
    InitInv(s);
    assert SpawnSane(s) && !Nameless(s, i);
    hide Init, Inv, SpawnSane, MakesNameless, Run;
    RunMakesNameless(s, i, events);
    ReapFinds(Run(s, events), i);
  }

  /** It can happen: worker 0 dies, and its successor too, with its 0 in the table. */
  lemma CanBeNameless()
    ensures Nameless(Run(TWO, [Crash(0), Reap(0), ResetHasLock, Fork(3), ParentPid, ChildZero(0), Crash(0)]), 0)
  {
    var other := TWO.workers[1];
    var dead := Worker(1, 1, Outside, false, Crashed);
    var s1 := Apply(TWO, Crash(0));
    assert s1 == State(false, 0, [dead, other], Watching);
    var s2 := Apply(s1, Reap(0));
    assert s2 == State(false, 0, [dead, other], Restarting(0));
    var s3 := Apply(s2, ResetHasLock);
    assert s3 == State(false, 0, [dead, other], Forking(0));
    var s4 := Apply(s3, Fork(3));
    assert s4 == State(false, 0, [Worker(1, 3, Born, false, Alive), other], Naming(0));
    var s5 := Apply(s4, ParentPid);
    assert s5 == State(false, 0, [Worker(3, 3, Born, false, Alive), other], Watching);
    var s6 := Apply(s5, ChildZero(0));
    assert s6 == State(false, 0, [Worker(0, 3, Unnamed, false, Alive), other], Watching);
    var s7 := Apply(s6, Crash(0));
    assert Nameless(s7, 0);
    hide Apply, Nameless;
    Runs7(TWO, Crash(0), Reap(0), ResetHasLock, Fork(3), ParentPid, ChildZero(0), Crash(0));
  }

  lemma Runs7(s: State, a: Event, b: Event, c: Event, d: Event, e: Event, f: Event, g: Event)
    ensures Run(s, [a, b, c, d, e, f, g]) == Apply(Apply(Apply(Apply(Apply(Apply(Apply(s, a), b), c), d), e), f), g)
  {
    hide Apply, Run;
    var t := Apply(Apply(Apply(s, a), b), c);
    Runs3(s, a, b, c);
    RunSnoc(t, [], d);
    Runs3(Apply(t, d), e, f, g);
    RunConcat(s, [a, b, c], [d]);
    RunConcat(s, [a, b, c] + [d], [e, f, g]);
    assert [a, b, c] + [d] + [e, f, g] == [a, b, c, d, e, f, g];
    RunNothing(t);
    assert [] + [d] == [d];
  }

  lemma RunNothing(s: State)
    ensures Run(s, []) == s
  {
  }

  lemma Runs3(s: State, a: Event, b: Event, c: Event)
    ensures Run(s, [a, b, c]) == Apply(Apply(Apply(s, a), b), c)
  {
    hide Apply, Run;
    RunNothing(s);
    RunSnoc(s, [], a);
    RunSnoc(s, [a], b);
    RunSnoc(s, [a, b], c);
    assert [] + [a] == [a] && [a] + [b] == [a, b] && [a, b] + [c] == [a, b, c];
  }
}
