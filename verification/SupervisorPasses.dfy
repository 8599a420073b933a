/** What one pass over the children leaves of each of them, and what a clean exit of the standby costs. */
module SupervisorPasses {
  import opened Options
  import opened Words
  import opened OwnershipProtocol
  import opened SharedRegion
  import opened Supervisor
  import opened SupervisorSafety
  import opened SupervisorLosses

  // ----- every child after a pass -----

  /** A worker that has been launched and not been waited for. */
  predicate Unreaped(c: Child) {
    c.worker && c.pid > 0 && !c.handled
  }

  /** Child i after a pass: an unreaped worker that has exited, cleanly or not, is handled and has no process. */
  function AfterExit(c: Child, i: nat, exits: seq<Exit>): Child {
    if i < |exits| && exits[i] != Running && Unreaped(c) then Child(-1, c.physicalWorker, true, true, c.generation)
    else c
  }

  /** At index i a pass meets a crash: of one of the children it started with, or of the n it has added since. */
  predicate MeetsCrash(children: seq<Child>, i: nat, exit: Exit, n: nat) {
    exit.Crashed? && i < |children| + n && (i < |children| ==> Unreaped(children[i]))
  }

  /** How many crashes a pass meets, each of which restarts a worker. */
  function Restarts(children: seq<Child>, exits: seq<Exit>): nat {
    if exits == [] then 0
    else
      var last := |exits| - 1;
      var n := Restarts(children, exits[..last]);
      if MeetsCrash(children, last, exits[last], n) then n + 1 else n
  }

  /** The i-th exit is a crash, and its restart is the child at the end of those there were then. */
  predicate Restarted(s: Supervision, exits: seq<Exit>, s': Supervision, i: nat)
    requires i < |exits| && MeetsCrash(s.children, i, exits[i], Restarts(s.children, exits[..i]))
  {
    var n := Restarts(s.children, exits[..i]);
    var j := |s.children| + n;
    && i < j < |s'.children| && exits[i].pid > 0
    && s'.children[j] == AfterExit(Child(exits[i].pid, s'.children[i].physicalWorker, true, false,
                                         s.nextGeneration + n + 1), j, exits)
  }

  /** All children after a pass. */
  ghost predicate ChildrenAfter(s: Supervision, exits: seq<Exit>, s': Supervision) {
    && |s'.children| == |s.children| + Restarts(s.children, exits)
    && s'.nextGeneration == s.nextGeneration + Restarts(s.children, exits)
    && (forall i | 0 <= i < |s.children| :: s'.children[i] == AfterExit(s.children[i], i, exits))
    && (forall i | 0 <= i < |exits| && MeetsCrash(s.children, i, exits[i], Restarts(s.children, exits[..i])) ::
          Restarted(s, exits, s', i))
  }

  /** The children added and not yet waited for are running. */
  predicate AddedRun(s: Supervision, exits: seq<Exit>, s': Supervision) {
    forall j | |s.children| <= j < |s'.children| && |exits| <= j :: Unreaped(s'.children[j])
  }

  lemma RingOutcomeChildren(s: Supervision, i: nat, passing: set<nat>)
    requires Shaped(s) && i < |s.children| && s.children[i].physicalWorker < MAX_WORKERS
    ensures var o := RingOutcome(s, i, passing).state;
      o.nextGeneration == s.nextGeneration && o.children == s.children[i := s.children[i].(pid := -1, handled := true)]
  {
  }

  lemma CrashChildren(s: Supervision, i: nat, exit: Exit)
    requires SupervisorSafety.Inv(s) && KnownWorkers(s) && i < |s.children| && Unreaped(s.children[i])
    requires exit.Crashed? && exit.pid != 0 && s.nextGeneration + 1 < TWO_TO_THE_32 && ReapOne(s, i, exit).ok
    ensures exit.pid > 0 && OneExit(s, i, exit, ReapOne(s, i, exit).state)
  {
    CrashEffect(s, i, exit.passing, exit.pid);
    RingOutcomeChildren(s, i, exit.passing);
    LaunchChildren(RingOutcome(s, i, exit.passing).state, s.children[i].physicalWorker, exit.pid);
  }

  lemma LaunchChildren(s: Supervision, worker: nat, pid: int)
    requires s.nextGeneration + 1 < TWO_TO_THE_32
    ensures var o := Launch(s, worker, pid);
      && (o.ok <==> pid >= 0) && o.state.nextGeneration == s.nextGeneration + 1
      && (o.ok ==> o.state.children == s.children + [Child(pid, worker, true, false, s.nextGeneration + 1)])
  {
  }

  lemma QuietChildren(s: Supervision, i: nat, exit: Exit)
    requires Shaped(s) && KnownWorkers(s) && i < |s.children| && !(exit.Crashed? && Unreaped(s.children[i]))
    ensures OneExit(s, i, exit, ReapOne(s, i, exit).state) && ReapOne(s, i, exit).ok
  {
  }

  /** What the exit of child i does to the children. */
  predicate OneExit(t: Supervision, i: nat, exit: Exit, t': Supervision)
    requires i < |t.children|
  {
    var c := t.children[i];
    if exit == Running || !Unreaped(c) then t'.children == t.children && t'.nextGeneration == t.nextGeneration
    else
      var children := t.children[i := Child(-1, c.physicalWorker, true, true, c.generation)];
      if exit.Clean? then t'.children == children && t'.nextGeneration == t.nextGeneration
      else
        && t'.children == children + [Child(exit.pid, c.physicalWorker, true, false, t.nextGeneration + 1)]
        && t'.nextGeneration == t.nextGeneration + 1
  }

  /** The pass reads one more exit: past the last child it changes nothing. */
  predicate OneMore(t: Supervision, i: nat, exit: Exit, t': Supervision) {
    if i < |t.children| then OneExit(t, i, exit, t') && (exit.Crashed? && Unreaped(t.children[i]) ==> exit.pid > 0)
    else t' == t
  }

  lemma OneMoreMeets(s: Supervision, exits: seq<Exit>, exit: Exit, t: Supervision)
    requires ChildrenAfter(s, exits, t) && AddedRun(s, exits, t)
    ensures MeetsCrash(s.children, |exits|, exit, Restarts(s.children, exits)) <==>
            exit.Crashed? && |exits| < |t.children| && Unreaped(t.children[|exits|])
  {
  }

  lemma OneMoreCounts(s: Supervision, exits: seq<Exit>, exit: Exit, t: Supervision, t': Supervision)
    requires ChildrenAfter(s, exits, t) && AddedRun(s, exits, t) && OneMore(t, |exits|, exit, t')
    ensures |t'.children| == |s.children| + Restarts(s.children, exits + [exit])
    ensures t'.nextGeneration == s.nextGeneration + Restarts(s.children, exits + [exit])
  {
    assert (exits + [exit])[..|exits|] == exits;
    OneMoreMeets(s, exits, exit, t);
  }

  lemma OneMoreOld(s: Supervision, exits: seq<Exit>, exit: Exit, t: Supervision, t': Supervision)
    requires ChildrenAfter(s, exits, t) && OneMore(t, |exits|, exit, t')
    ensures |s.children| <= |t'.children|
    ensures forall i | 0 <= i < |s.children| :: t'.children[i] == AfterExit(s.children[i], i, exits + [exit])
  {
  }

  /** Of the added children, too, only the one at the new exit's index changes. */
  lemma OneMoreAdded(s: Supervision, exits: seq<Exit>, exit: Exit, t: Supervision, t': Supervision, k: nat)
    requires OneMore(t, |exits|, exit, t') && k < |exits|
    requires MeetsCrash(s.children, k, exits[k], Restarts(s.children, exits[..k])) && Restarted(s, exits, t, k)
    ensures (exits + [exit])[..k] == exits[..k] && Restarted(s, exits + [exit], t', k)
  {
    var all := exits + [exit];
    assert all[..k] == exits[..k] && all[k] == exits[k];
    var j := |s.children| + Restarts(s.children, exits[..k]);
    assert t'.children[k].physicalWorker == t.children[k].physicalWorker;
    var c := Child(exits[k].pid, t.children[k].physicalWorker, true, false,
                   s.nextGeneration + Restarts(s.children, exits[..k]) + 1);
    assert t'.children[j] == AfterExit(c, j, all);
  }

  lemma OneMoreLast(s: Supervision, exits: seq<Exit>, exit: Exit, t: Supervision, t': Supervision)
    requires ChildrenAfter(s, exits, t) && AddedRun(s, exits, t) && OneMore(t, |exits|, exit, t')
    requires MeetsCrash(s.children, |exits|, exit, Restarts(s.children, exits))
    ensures (exits + [exit])[..|exits|] == exits && Restarted(s, exits + [exit], t', |exits|)
  {
    assert (exits + [exit])[..|exits|] == exits;
    OneMoreMeets(s, exits, exit, t);
  }

  lemma OneMoreKeeps(s: Supervision, exits: seq<Exit>, exit: Exit, t: Supervision, t': Supervision)
    requires ChildrenAfter(s, exits, t) && AddedRun(s, exits, t) && OneMore(t, |exits|, exit, t')
    ensures ChildrenAfter(s, exits + [exit], t') && AddedRun(s, exits + [exit], t')
  {
    var all := exits + [exit];
    OneMoreCounts(s, exits, exit, t, t');
    OneMoreOld(s, exits, exit, t, t');
    forall k | 0 <= k < |all| && MeetsCrash(s.children, k, all[k], Restarts(s.children, all[..k]))
      ensures Restarted(s, all, t', k)
    {
      if k < |exits| {
        assert all[..k] == exits[..k];
        OneMoreAdded(s, exits, exit, t, t', k);
      } else {
        assert all[..k] == exits;
        OneMoreLast(s, exits, exit, t, t');
      }
    }
  }

  lemma NextAnswers(o: Outcome, i: nat, exit: Exit)
    requires SupervisorSafety.Inv(o.state) && KnownWorkers(o.state) && o.ok && ForkResult(exit)
    requires o.state.nextGeneration + 1 < TWO_TO_THE_32 && ReapNext(o, i, exit).ok
    ensures OneMore(o.state, i, exit, ReapNext(o, i, exit).state)
  {
    if i < |o.state.children| {
      if exit.Crashed? && Unreaped(o.state.children[i]) {
        CrashChildren(o.state, i, exit);
      } else {
        QuietChildren(o.state, i, exit);
      }
    }
  }

  lemma NoExits(s: Supervision)
    ensures ChildrenAfter(s, [], s) && AddedRun(s, [], s)
  {
  }

  /**
   A pass that succeeds handles exactly the running workers that have exited, and adds one restart for each
   crash: of the same worker, and of the next generation.
   */
  lemma {:induction false} PassAnswers(s: Supervision, exits: seq<Exit>)
    requires SupervisorSafety.Inv(s) && KnownWorkers(s) && s.nextGeneration + |exits| < TWO_TO_THE_32
    requires (forall e | e in exits :: ForkResult(e)) && Reap(s, exits).ok
    ensures ChildrenAfter(s, exits, Reap(s, exits).state) && AddedRun(s, exits, Reap(s, exits).state)
    decreases |exits|
  {
    if exits == [] {
      NoExits(s);
    } else {
      var i := |exits| - 1;
      var front, exit := exits[..i], exits[i];
      assert exits == front + [exit];
      ReapSnoc(s, front, exit);
      var o := Reap(s, front);
      PassAnswers(s, front);
      ReapKeeps(s, front);
      NextAnswers(o, i, exit);
      OneMoreKeeps(s, front, exit, o.state, ReapNext(o, i, exit).state);
    }
  }

  // ----- a standby that has exited cleanly -----

  /** Physical process 2 runs no child any more. */
  ghost predicate NoStandby(s: Supervision) {
    forall i | 0 <= i < |s.children| && s.children[i].worker && s.children[i].physicalWorker == 2 ::
      s.children[i].handled
  }

  /** Only announcements have been added to the log. */
  ghost predicate OnlyAnnounces(log: seq<Act>, log': seq<Act>) {
    log <= log' && forall i | |log| <= i < |log'| :: log'[i].Degraded?
  }

  lemma ReapWithoutStandby(s: Supervision, i: nat, exit: Exit)
    requires Shaped(s) && KnownWorkers(s) && NoStandby(s) && i < |s.children|
    ensures NoStandby(ReapOne(s, i, exit).state) && OnlyAnnounces(s.log, ReapOne(s, i, exit).state.log)
  {
    var c := s.children[i];
    if Waited(c) && exit.Crashed? {
      RecoverWithoutStandby(s.(children := s.children[i := c.(pid := -1)]), c.physicalWorker, exit.passing, exit.pid);
    }
  }

  lemma RecoverWithoutStandby(s: Supervision, w: nat, passing: set<nat>, pid: int)
    requires Shaped(s) && KnownWorkers(s) && NoStandby(s) && w < MAX_WORKERS && w != 2
    ensures var o := Recover(s, w, passing, pid);
      NoStandby(o.state) && OnlyAnnounces(s.log, o.state.log)
  {
    var crashed := Find(s.children, w);
    if crashed.Some? {
      var s1 := Handle(s, crashed.value);
      assert NoStandby(s1) && Find(s1.children, STANDBY) == None;
      var owned := FirstOwned(s1.table, w);
      if owned.Some? {
        ReassignWithoutStandby(s1, w, owned.value, owned.value in passing);
      }
    }
  }

  lemma ReassignWithoutStandby(s: Supervision, w: nat, k: nat, verified: bool)
    requires Shaped(s) && NoStandby(s) && w < MAX_WORKERS && k < MAX_WORKERS && OwnedBy(s.table, k, w)
    ensures var o := Reassign(s, w, k, verified);
      o.state.children == s.children && OnlyAnnounces(s.log, o.state.log)
  {
    assert Find(s.children, STANDBY) == None;
  }

  lemma {:induction false} PassWithoutStandby(s: Supervision, exits: seq<Exit>, k: nat)
    requires Shaped(s) && KnownWorkers(s) && k <= |exits| && NoStandby(Reap(s, exits[..k]).state)
    ensures NoStandby(Reap(s, exits).state) && OnlyAnnounces(Reap(s, exits[..k]).state.log, Reap(s, exits).state.log)
    decreases |exits|
  {
    if k == |exits| {
      assert exits[..k] == exits;
    } else {
      var i := |exits| - 1;
      assert exits[..i][..k] == exits[..k] && exits == exits[..i] + [exits[i]];
      PassWithoutStandby(s, exits[..i], k);
      ReapSnoc(s, exits[..i], exits[i]);
      NextWithoutStandby(Reap(s, exits[..i]), i, exits[i]);
    }
  }

  lemma NextWithoutStandby(o: Outcome, i: nat, exit: Exit)
    requires Shaped(o.state) && KnownWorkers(o.state) && NoStandby(o.state)
    ensures var o' := ReapNext(o, i, exit); NoStandby(o'.state) && OnlyAnnounces(o.state.log, o'.state.log)
  {
    if o.ok && i < |o.state.children| {
      ReapWithoutStandby(o.state, i, exit);
    }
  }

  lemma {:induction false} RunWithoutStandby(s: Supervision, passes: seq<seq<Exit>>, s': Supervision)
    requires Shaped(s) && KnownWorkers(s) && NoStandby(s) && Runs(s, passes, s')
    ensures NoStandby(s') && OnlyAnnounces(s.log, s'.log)
    decreases |passes|
  {
    if passes != [] {
      assert passes[0][..0] == [];
      PassWithoutStandby(s, passes[0], 0);
      if Reap(s, passes[0]).ok {
        RunWithoutStandby(Reap(s, passes[0]).state, passes[1..], s');
      }
    }
  }

  /** In every reachable state the first standby is child 3, and unless it is handled it is the only one. */
  lemma FirstStandby(s: Supervision, exits: seq<Exit>)
    requires SupervisorSafety.Inv(s) && KnownWorkers(s) && s.nextGeneration + |exits| < TWO_TO_THE_32 && |exits| == 4
    requires (forall e | e in exits :: ForkResult(e)) && Reap(s, exits).ok
    requires Unreaped(s.children[3]) && exits[3] == Clean
    ensures NoStandby(Reap(s, exits).state)
  {
    var front := exits[..3];
    assert exits == front + [Clean];
    ReapSnoc(s, front, Clean);
    var o := Reap(s, front);
    ReapKeeps(s, front);
    PassAnswers(s, front);
    assert o.state.children[3] == s.children[3];
    QuietChildren(o.state, 3, Clean);
    HandledStandby(o.state, Reap(s, exits).state);
  }

  lemma HandledStandby(s: Supervision, s': Supervision)
    requires SupervisorSafety.Inv(s) && Unreaped(s.children[3])
    requires s'.children == s.children[3 := s.children[3].(pid := -1, handled := true)]
    ensures NoStandby(s')
  {
    assert Pending(s.children[3], STANDBY);
    forall i | 0 <= i < |s'.children| && s'.children[i].worker && s'.children[i].physicalWorker == 2
      ensures s'.children[i].handled
    {
      if i != 3 && !s.children[i].handled {
        assert Pending(s.children[i], STANDBY);
      }
    }
  }

  lemma {:induction false} OkBefore(s: Supervision, exits: seq<Exit>, k: nat)
    requires Shaped(s) && KnownWorkers(s) && k <= |exits| && Reap(s, exits).ok
    ensures Reap(s, exits[..k]).ok
    decreases |exits|
  {
    if k == |exits| {
      assert exits[..k] == exits;
    } else {
      assert exits[..|exits| - 1][..k] == exits[..k];
      OkBefore(s, exits[..|exits| - 1], k);
    }
  }

  /**
   Once the first standby has exited cleanly nobody takes its place: from its exit on, in the rest of that
   pass and in every run after it, no ring is transferred and every crash can only be announced.
   */
  lemma StandbyGoneForGood(s: Supervision, exits: seq<Exit>, passes: seq<seq<Exit>>, s': Supervision)
    requires SupervisorSafety.Reachable(s) && Shaped(s) && KnownWorkers(s)
    requires s.nextGeneration + |exits| < TWO_TO_THE_32 && (forall e | e in exits :: ForkResult(e))
    requires |s.children| > 3 && Unreaped(s.children[3]) && |exits| > 3 && exits[3] == Clean
    requires Reap(s, exits).ok && Runs(Reap(s, exits).state, passes, s')
    ensures NoStandby(s') && OnlyAnnounces(Reap(s, exits[..4]).state.log, s'.log)
  {
    SupervisorSafety.ReachableInv(s);
    OkBefore(s, exits, 4);
    assert forall e | e in exits[..4] :: e in exits;
    FirstStandby(s, exits[..4]);
    PassWithoutStandby(s, exits, 4);
    RunWithoutStandby(Reap(s, exits).state, passes, s');
  }

  /** The pass in which the standby exits, and the state after it. */
  const STANDBY_EXITS: seq<Exit> := [Running, Running, Running, Clean]

  function GoneStage(m: int, a: int, b: int): Supervision {
    Supervision(HomeTable(),
                [Child(m, UNASSIGNED, false, false, 0), Child(a, 0, true, false, 1), Child(b, 1, true, false, 1),
                 Child(-1, STANDBY, true, true, 1)],
                1, [false, false, false], [])
  }

  /** After worker 0's crash: its ring is announced and stays where it was. */
  function AnnouncedStage(m: int, b: int, d: int): Supervision {
    Supervision(HomeTable(),
                [Child(m, UNASSIGNED, false, false, 0), Child(-1, 0, true, true, 1), Child(b, 1, true, false, 1),
                 Child(-1, STANDBY, true, true, 1), Child(d, 0, true, false, 2)],
                2, [true, false, false], [Degraded(0)])
  }

  lemma StandbyExits(m: int, a: int, b: int, c: int)
    requires a > 0 && b > 0 && c > 0
    ensures Reap(Started(HomeTable(), m, a, b, c), STANDBY_EXITS) == Outcome(GoneStage(m, a, b), true)
    ensures SupervisorSafety.Inv(GoneStage(m, a, b))
  {
    var s := Started(HomeTable(), m, a, b, c);
    HomeTableIs();
    StartedInv(s, HomeTable(), m, a, b, c);
    NoCrashes(s, STANDBY_EXITS);
    ReapKeeps(s, STANDBY_EXITS);
    assert Reap(s, STANDBY_EXITS).state.children == GoneStage(m, a, b).children;
  }

  lemma GoneCrash(m: int, a: int, b: int, d: int)
    requires a > 0 && b > 0 && d > 0 && SupervisorSafety.Inv(GoneStage(m, a, b))
    ensures ReapOne(GoneStage(m, a, b), 1, Crashed(ALL_RINGS, d)) == Outcome(AnnouncedStage(m, b, d), true)
  {
    var s := GoneStage(m, a, b);
    HomeTableIs();
    CrashEffect(s, 1, ALL_RINGS, d);
    Owners(s.table, None);
    assert FirstOwned(s.table, 0) == Some(0);
    assert Find(Reaped(s, 1).children, STANDBY) == None;
  }

  /** The standby exits cleanly, then worker 0 crashes: ring 0 is announced, and nobody takes it over. */
  lemma NobodyTakesOver(m: int, a: int, b: int, c: int, d: int) returns (s: Supervision)
    requires a > 0 && b > 0 && c > 0 && d > 0
    ensures Runs(Started(HomeTable(), m, a, b, c), [STANDBY_EXITS, CrashPass(1, ALL_RINGS, d)], s)
    ensures s.log == [Degraded(0)] && s.table == HomeTable()
  {
    var start, gone := Started(HomeTable(), m, a, b, c), GoneStage(m, a, b);
    s := AnnouncedStage(m, b, d);
    StandbyExits(m, a, b, c);
    GoneCrash(m, a, b, d);
    assert Runs(s, [], s);
    CrashFirst(gone, 1, ALL_RINGS, d, [], s);
    var rest, passes := [CrashPass(1, ALL_RINGS, d)], [STANDBY_EXITS, CrashPass(1, ALL_RINGS, d)];
    assert rest + [] == rest && passes[1..] == rest;
  }

  // ----- a hot worker's crash -----

  /** A child of the standby that no pass has handled. */
  ghost predicate StandbyRuns(children: seq<Child>) {
    exists j :: 0 <= j < |children| && children[j].worker && children[j].physicalWorker == 2 && !children[j].handled
  }

  /** Exactly what the crash of hot worker w, whose ring passes the check, adds to the log. */
  ghost function HotEntry(s: Supervision, w: nat): seq<Act> {
    if Transferred(w) in s.log then []
    else if (forall k: nat :: Transferred(k) !in s.log) && StandbyRuns(s.children) then [Transferred(w)]
    else if Degraded(w) in s.log then []
    else [Degraded(w)]
  }

  lemma HotRing(s: Supervision, w: nat)
    requires Shaped(s) && TableIs(s.table, Moved(s.log)) && w < 2
    ensures FirstOwned(s.table, w) == if Moved(s.log) == Some(w) then None else Some(w)
  {
    Owners(s.table, Moved(s.log));
  }

  lemma MovedInLog(log: seq<Act>)
    requires LogOk(log)
    ensures Moved(log) == None <==> forall k: nat :: Transferred(k) !in log
    ensures forall k: nat :: Transferred(k) in log <==> Moved(log) == Some(k)
  {
    MovedIsTransferred(log);
    forall k: nat
      ensures Transferred(k) in log <==> Moved(log) == Some(k)
    {
      if Transferred(k) in log {
        TransferredIsMoved(log, k);
      }
    }
  }

  lemma StandbyFound(s: Supervision, i: nat)
    requires SupervisorSafety.Inv(s) && i < |s.children| && s.children[i].physicalWorker != 2
    ensures StandbyRuns(s.children) <==> var found := Find(Reaped(s, i).children, STANDBY);
      found.Some? && Reaped(s, i).children[found.value].pid > 0
  {
    var found := Find(Reaped(s, i).children, STANDBY);
    if found.Some? {
      assert ChildOk(s.children[found.value], s.nextGeneration);
      assert found.value != i && !s.children[found.value].handled;
    }
    forall j | 0 <= j < |s.children| && Pending(s.children[j], STANDBY)
      ensures Pending(Reaped(s, i).children[j], STANDBY)
    {
    }
  }

  /**
   A hot worker's crash moves its ring exactly if none has moved and a standby runs; otherwise the ring is
   announced, unless it was before or is no longer the worker's.
   */
  lemma HotCrash(s: Supervision, i: nat, passing: set<nat>, pid: int)
    requires SupervisorSafety.Reachable(s) && Shaped(s) && KnownWorkers(s)
    requires i < |s.children| && Unreaped(s.children[i])
    requires s.children[i].physicalWorker < 2 && s.children[i].physicalWorker in passing
    ensures Reap(s, CrashPass(i, passing, pid)).state.log == s.log + HotEntry(s, s.children[i].physicalWorker)
  {
    var w := s.children[i].physicalWorker;
    ReachableMarks(s);
    QuietPass(s, seq(i, _ => Running));
    ReapSnoc(s, seq(i, _ => Running), Crashed(passing, pid));
    HotRing(s, w);
    MovedInLog(s.log);
    StandbyFound(s, i);
    BusyMeansMoved(Reaped(s, i));
    CrashRecords(s, i, passing, pid);
  }
}
