/** When the supervisor's recovery fails its promise: rings lost without a word, and recoveries refused. */
module SupervisorLosses {
  import opened Options
  import RingProtocol
  import opened Words
  import opened OwnershipProtocol
  import opened RingBuffer
  import opened RingRecovery
  import opened SharedRegion
  import opened Supervisor
  import opened SupervisorSafety

  // ----- what the degraded marks stand for -----

  /**
   A hot worker's mark says that its ring was announced. The standby's mark says that its home was
   announced, or the ring that moved to it, and never both.
   */
  ghost predicate Marks(s: Supervision) {
    && Shaped(s)
    && (forall w: nat | w < STANDBY :: s.degraded[w] <==> Degraded(w) in s.log && Moved(s.log) != Some(w))
    && (s.degraded[STANDBY] <==> || Degraded(STANDBY) in s.log
                                 || (Moved(s.log).Some? && Degraded(Moved(s.log).value) in s.log))
    && NotBoth(s.log)
  }

  /** The ring that moved and the standby's home are never both announced. */
  ghost predicate NotBoth(log: seq<Act>) {
    forall k | Transferred(k) in log && Degraded(STANDBY) in log :: Degraded(k) !in log
  }

  lemma {:induction false} MovedIsTransferred(log: seq<Act>)
    ensures Moved(log).Some? ==> Transferred(Moved(log).value) in log
    decreases |log|
  {
    if log != [] && !log[|log| - 1].Transferred? {
      MovedIsTransferred(log[..|log| - 1]);
    }
  }

  lemma TransferredIsMoved(log: seq<Act>, k: nat)
    requires LogOk(log) && Transferred(k) in log
    ensures Moved(log) == Some(k)
  {
    if Moved(log) == None {
      NothingMoved(log);
    } else {
      MovedIsTransferred(log);
    }
  }

  lemma PromoteMarks(s: Supervision, w: nat, k: nat, s': Supervision)
    requires Mid(s, w) && Marks(s) && k < MAX_WORKERS && OwnedBy(s.table, k, w) && Promotable(s)
    requires s' == s.(table := s.table[k := Promoted(s.table[k])], log := s.log + [Transferred(k)])
    ensures Marks(s')
  {
    BusyMeansMoved(s);
    Owners(s.table, Moved(s.log));
    AppendLog(s.log, Transferred(k));
    NothingMoved(s.log);
    forall i | 0 <= i < |s.log| && s.log[i].Degraded?
      ensures s.log[i].ring != k
    {
      assert AnnouncedRing(s, s.log[i].ring, w != STANDBY && Find(s.children, STANDBY).None?);
    }
    assert Degraded(k) !in s.log;
  }

  lemma DegradeMarks(s: Supervision, w: nat, k: nat, s': Supervision)
    requires Mid(s, w) && Marks(s) && FirstOwned(s.table, w) == Some(k) && !s.degraded[w]
    requires s' == s.(degraded := s.degraded[w := true], log := s.log + [Degraded(k)])
    ensures Marks(s')
  {
    AppendLog(s.log, Degraded(k));
    OwnedFirst(s, w, k);
    DegradeFlags(s, w, k, s.degraded[w := true], s.log + [Degraded(k)]);
    DegradeNotBoth(s, w, k);
  }

  /** The ring that a worker's crash announces: its home, or for the standby the ring that moved. */
  predicate AnnouncedFor(log: seq<Act>, w: nat, k: nat) {
    && (Moved(log).Some? ==> Moved(log).value < STANDBY)
    && (w == STANDBY && Moved(log).Some? ==> k == Moved(log).value)
    && (w != STANDBY || Moved(log).None? ==> k == w)
    && (w != STANDBY ==> Moved(log) != Some(k))
  }

  lemma DegradeFlags(s: Supervision, w: nat, k: nat, degraded: seq<bool>, log: seq<Act>)
    requires Marks(s) && w < MAX_WORKERS && AnnouncedFor(s.log, w, k)
    requires degraded == s.degraded[w := true] && log == s.log + [Degraded(k)]
    ensures forall v: nat | v < STANDBY :: degraded[v] <==> Degraded(v) in log && Moved(s.log) != Some(v)
    ensures degraded[STANDBY] <==> || Degraded(STANDBY) in log
                                   || (Moved(s.log).Some? && Degraded(Moved(s.log).value) in log)
  {
    DegradedMembers(s.log, k);
  }

  lemma DegradeNotBoth(s: Supervision, w: nat, k: nat)
    requires LogOk(s.log) && Marks(s) && w < MAX_WORKERS && !s.degraded[w] && AnnouncedFor(s.log, w, k)
    ensures NotBoth(s.log + [Degraded(k)])
  {
    DegradedMembers(s.log, k);
    forall r: nat | Transferred(r) in s.log
      ensures Moved(s.log) == Some(r)
    {
      TransferredIsMoved(s.log, r);
    }
  }

  lemma DegradedMembers(log: seq<Act>, k: nat)
    ensures forall a :: a in log + [Degraded(k)] <==> a in log || a == Degraded(k)
  {
  }

  /** The first ring a worker owns is its home, or for the standby the ring that moved. */
  lemma OwnedFirst(s: Supervision, w: nat, k: nat)
    requires Shaped(s) && TableIs(s.table, Moved(s.log)) && FirstOwned(s.table, w) == Some(k)
    ensures AnnouncedFor(s.log, w, k)
  {
    Owners(s.table, Moved(s.log));
    if Moved(s.log).Some? {
      assert OwnedBy(s.table, Moved(s.log).value, STANDBY);
    }
  }

  lemma ReassignMarks(s: Supervision, w: nat, k: nat, verified: bool)
    requires Mid(s, w) && Marks(s) && FirstOwned(s.table, w) == Some(k)
    ensures Marks(Reassign(s, w, k, verified).state)
  {
    var s' := Reassign(s, w, k, verified).state;
    if verified && Promotable(s) {
      if s.table[k].epoch <= TWO_TO_THE_64 - 3 {
        PromoteMarks(s, w, k, s');
      }
    } else if verified && !s.degraded[w] {
      DegradeMarks(s, w, k, s');
    }
  }

  // ----- the effect of one crash -----

  /** Child i's exit recorded and handled. */
  function Reaped(s: Supervision, i: nat): Supervision
    requires i < |s.children|
  {
    s.(children := s.children[i := s.children[i].(pid := -1, handled := true)])
  }

  /** What the crash of child i does with its ring, before the restart. */
  function RingOutcome(s: Supervision, i: nat, passing: set<nat>): Outcome
    requires Shaped(s) && i < |s.children| && s.children[i].physicalWorker < MAX_WORKERS
  {
    var w := s.children[i].physicalWorker;
    match FirstOwned(s.table, w)
    case None => Outcome(Reaped(s, i), true)
    case Some(k) => Reassign(Reaped(s, i), w, k, k in passing)
  }

  lemma CrashEffect(s: Supervision, i: nat, passing: set<nat>, pid: int)
    requires SupervisorSafety.Inv(s) && i < |s.children| && Waited(s.children[i])
    ensures s.children[i].physicalWorker < MAX_WORKERS
    ensures Mid(Reaped(s, i), s.children[i].physicalWorker)
    ensures var o := RingOutcome(s, i, passing);
      ReapOne(s, i, Crashed(passing, pid)) == if o.ok then Launch(o.state, s.children[i].physicalWorker, pid) else o
  {
    var child := s.children[i];
    assert ChildOk(child, s.nextGeneration);
    var s1 := s.(children := s.children[i := child.(pid := -1)]);
    HandleKeeps(s, i, Reaped(s, i));
    assert Handle(s1, i) == Reaped(s, i);
    FindPending(s.children, child.physicalWorker, i);
    FindSame(s.children, s1.children, child.physicalWorker, 0);
  }

  /** Marks depend on table, marks and log only. */
  lemma MarksFrame(s: Supervision, s': Supervision)
    requires Marks(s) && s'.table == s.table && s'.degraded == s.degraded && s'.log == s.log
    ensures Marks(s')
  {
  }

  lemma CrashMarks(s: Supervision, i: nat, passing: set<nat>, pid: int)
    requires SupervisorSafety.Inv(s) && Marks(s) && i < |s.children| && Waited(s.children[i])
    requires s.children[i].physicalWorker < MAX_WORKERS
    ensures Marks(ReapOne(s, i, Crashed(passing, pid)).state)
  {
    CrashEffect(s, i, passing, pid);
    MarksFrame(s, Reaped(s, i));
    var w, o := s.children[i].physicalWorker, RingOutcome(s, i, passing);
    var owned := FirstOwned(s.table, w);
    if owned.Some? {
      ReassignMarks(Reaped(s, i), w, owned.value, owned.value in passing);
    }
    MarksFrame(o.state, Launch(o.state, w, pid).state);
  }

  lemma ReapOneMarks(s: Supervision, i: nat, exit: Exit)
    requires SupervisorSafety.Inv(s) && Marks(s) && i < |s.children|
    requires s.children[i].worker ==> s.children[i].physicalWorker < MAX_WORKERS
    ensures Marks(ReapOne(s, i, exit).state)
  {
    if Waited(s.children[i]) && exit.Crashed? {
      CrashMarks(s, i, exit.passing, exit.pid);
    } else {
      MarksFrame(s, ReapOne(s, i, exit).state);
    }
  }

  lemma ReapNextMarks(o: Outcome, i: nat, exit: Exit)
    requires SupervisorSafety.Inv(o.state) && Marks(o.state) && KnownWorkers(o.state)
    ensures Marks(ReapNext(o, i, exit).state)
  {
    if o.ok && i < |o.state.children| {
      ReapOneMarks(o.state, i, exit);
    }
  }

  lemma {:induction false} ReapMarks(s: Supervision, exits: seq<Exit>)
    requires SupervisorSafety.Inv(s) && Marks(s) && KnownWorkers(s) && s.nextGeneration + |exits| < TWO_TO_THE_32
    requires forall e | e in exits :: ForkResult(e)
    ensures Marks(Reap(s, exits).state)
    decreases |exits|
  {
    if exits != [] {
      var front := exits[..|exits| - 1];
      ReapKeeps(s, front);
      ReapMarks(s, front);
      ReapNextMarks(Reap(s, front), |exits| - 1, exits[|exits| - 1]);
    }
  }

  lemma {:induction false} RunMarks(s: Supervision, passes: seq<seq<Exit>>, s': Supervision)
    requires SupervisorSafety.Inv(s) && Marks(s) && Runs(s, passes, s')
    ensures Marks(s')
    decreases |passes|
  {
    if passes != [] {
      ReapKeeps(s, passes[0]);
      ReapMarks(s, passes[0]);
      if Reap(s, passes[0]).ok {
        RunMarks(Reap(s, passes[0]).state, passes[1..], s');
      }
    }
  }

  lemma ReachableMarks(s: Supervision)
    requires SupervisorSafety.Reachable(s)
    ensures SupervisorSafety.Inv(s) && Marks(s)
  {
    var monitor, a, b, standby, table, passes :|
      && |table| == MAX_WORKERS && (forall k: nat | k < MAX_WORKERS :: table[k] == HomeRecord(k))
      && a > 0 && b > 0 && standby > 0 && Runs(Started(table, monitor, a, b, standby), passes, s);
    var start := Started(table, monitor, a, b, standby);
    StartedInv(start, table, monitor, a, b, standby);
    assert Moved(start.log) == None;
    RunMarks(start, passes, s);
    SupervisorSafety.ReachableInv(s);
  }

  // ----- which rings are lost without a word -----

  /** What the crash of child i writes to the table and to the log; its restart touches neither. */
  lemma CrashRecords(s: Supervision, i: nat, passing: set<nat>, pid: int)
    requires SupervisorSafety.Reachable(s) && Shaped(s) && i < |s.children| && Waited(s.children[i])
    requires s.children[i].physicalWorker < MAX_WORKERS
    requires forall r | FirstOwned(s.table, s.children[i].physicalWorker) == Some(r) :: r in passing
    ensures var w, s' := s.children[i].physicalWorker, ReapOne(s, i, Crashed(passing, pid)).state;
      match FirstOwned(s.table, w)
      case None => s'.table == s.table && s'.log == s.log
      case Some(r) =>
        if Promotable(Reaped(s, i)) then
          && s.table[r].epoch <= 4 && s'.table == s.table[r := Promoted(s.table[r])]
          && s'.log == s.log + [Transferred(r)]
        else s'.table == s.table && s'.log == if s.degraded[w] then s.log else s.log + [Degraded(r)]
  {
    ReachableMarks(s);
    CrashEffect(s, i, passing, pid);
    if FirstOwned(s.table, s.children[i].physicalWorker).Some? {
      assert s.table[FirstOwned(s.table, s.children[i].physicalWorker).value].epoch <= 4;
    }
  }

  /**
   The standby's two rings, once one has moved to it: its crash announces the one that moved, unless its
   home was announced before, and then nothing. Either way exactly one of the two is left without a word.
   */
  predicate PassedOver(log: seq<Act>, w: nat, k: nat) {
    w == STANDBY && Moved(log).Some? && (k == STANDBY <==> Degraded(STANDBY) !in log)
  }

  /**
   When a worker crashes whose ring passes the check, every ring recorded for it is afterwards recorded for
   the standby, or has been announced, with the exception that PassedOver describes.
   */
  lemma LostSilently(s: Supervision, i: nat, passing: set<nat>, pid: int, k: nat)
    requires SupervisorSafety.Reachable(s) && Shaped(s) && i < |s.children| && Waited(s.children[i])
    requires s.children[i].physicalWorker < MAX_WORKERS && k < MAX_WORKERS
    requires OwnedBy(s.table, k, s.children[i].physicalWorker)
    requires forall r | FirstOwned(s.table, s.children[i].physicalWorker) == Some(r) :: r in passing
    ensures var w, s' := s.children[i].physicalWorker, ReapOne(s, i, Crashed(passing, pid)).state;
      && |s'.table| == MAX_WORKERS
      && (OwnedBy(s'.table, k, w) && Degraded(k) !in s'.log <==> PassedOver(s.log, w, k))
  {
    ReachableMarks(s);
    CrashRecords(s, i, passing, pid);
    var w, s2 := s.children[i].physicalWorker, Reaped(s, i);
    var r := FirstOwned(s.table, w).value;
    OwnedFirst(s, w, r);
    Owners(s.table, Moved(s.log));
    BusyMeansMoved(s2);
    if Promotable(s2) {
      CrashEffect(s, i, passing, pid);
      PromotedElsewhere(s, w, r);
    } else {
      KeptRings(s, w, r, k);
    }
  }

  /** Of the rings a worker keeps, the first is announced, unless its mark says that one already was. */
  lemma KeptRings(s: Supervision, w: nat, r: nat, k: nat)
    requires Marks(s) && w < MAX_WORKERS && OwnerOf(k, Moved(s.log)) == w && k < MAX_WORKERS
    requires AnnouncedFor(s.log, w, r)
    ensures var log := if s.degraded[w] then s.log else s.log + [Degraded(r)];
      Degraded(k) !in log <==> PassedOver(s.log, w, k)
  {
    MovedIsTransferred(s.log);
    DegradedMembers(s.log, r);
  }

  /** A promoted ring is no longer its home worker's. */
  lemma PromotedElsewhere(s: Supervision, w: nat, r: nat)
    requires Shaped(s) && TableIs(s.table, Moved(s.log)) && Moved(s.log) == None && r < MAX_WORKERS && w != STANDBY
    requires OwnedBy(s.table, r, w) && s.table[r].epoch <= 4
    ensures forall k: nat | k < MAX_WORKERS && OwnedBy(s.table, k, w) ::
              !OwnedBy(s.table[r := Promoted(s.table[r])], k, w)
  {
    Owners(s.table, None);
    assert Promoted(s.table[r]) == PromotedRecord(r);
    RecordOwner(r, STANDBY);
  }

  /** After the standby's crash exactly one of its two rings has ever been announced. */
  lemma OneOfTwoAnnounced(s: Supervision, i: nat, passing: set<nat>, pid: int, k: nat)
    requires SupervisorSafety.Reachable(s) && Shaped(s) && i < |s.children| && Waited(s.children[i])
    requires s.children[i].physicalWorker == STANDBY && Moved(s.log) == Some(k) && k in passing
    ensures var s' := ReapOne(s, i, Crashed(passing, pid)).state;
      Degraded(k) in s'.log <==> Degraded(STANDBY) !in s'.log
  {
    ReachableMarks(s);
    Owners(s.table, Moved(s.log));
    assert OwnedBy(s.table, k, STANDBY) && OwnedBy(s.table, STANDBY, STANDBY);
    OwnedFirst(s, STANDBY, FirstOwned(s.table, STANDBY).value);
    CrashRecords(s, i, passing, pid);
    BusyMeansMoved(Reaped(s, i));
    MovedIsTransferred(s.log);
    DegradedMembers(s.log, k);
  }

  /** Before any ring moves, the standby's mark is exactly the announcement of its home: the guard of the transfer. */
  lemma MarkBeforeMove(s: Supervision)
    requires SupervisorSafety.Reachable(s) && Moved(s.log) == None
    ensures Shaped(s) && (s.degraded[STANDBY] <==> Degraded(STANDBY) in s.log)
  {
    ReachableMarks(s);
  }

  /**
   Of the ring that moved and the standby's home at most one is announced, in every reachable state: the one
   passed over stays so for ever.
   */
  lemma LostForever(s: Supervision, k: nat)
    requires SupervisorSafety.Reachable(s) && Transferred(k) in s.log
    ensures Degraded(STANDBY) !in s.log || Degraded(k) !in s.log
  {
    ReachableMarks(s);
  }

  // ----- runs that lose a ring -----

  /** A pass in which child i crashes and the children before it are still running. */
  function CrashPass(i: nat, passing: set<nat>, pid: int): seq<Exit> {
    seq(i, _ => Running) + [Crashed(passing, pid)]
  }

  lemma QuietPass(s: Supervision, exits: seq<Exit>)
    requires Shaped(s) && KnownWorkers(s) && forall i | 0 <= i < |exits| :: exits[i] == Running
    ensures Reap(s, exits) == Outcome(s, true)
  {
    NoCrashes(s, exits);
    assert Reap(s, exits).state.children == s.children;
  }

  lemma CrashFirst(s: Supervision, i: nat, passing: set<nat>, pid: int, passes: seq<seq<Exit>>, s': Supervision)
    requires Shaped(s) && KnownWorkers(s) && i < |s.children| && s.nextGeneration + i + 1 < TWO_TO_THE_32 && pid != 0
    requires var o := ReapOne(s, i, Crashed(passing, pid)); o.ok && Runs(o.state, passes, s')
    ensures Runs(s, [CrashPass(i, passing, pid)] + passes, s')
  {
    var pass, quiet := CrashPass(i, passing, pid), seq(i, _ => Running);
    QuietPass(s, quiet);
    ReapSnoc(s, quiet, Crashed(passing, pid));
    assert ([pass] + passes)[1..] == passes;
  }

  /** The table at start, and after ring 0 has moved. */
  function HomeTable(): seq<RingOwnership> {
    [HomeRecord(0), HomeRecord(1), HomeRecord(2)]
  }

  const ALL_RINGS: set<nat> := {0, 1, 2}

  lemma HomeTableIs()
    ensures TableIs(HomeTable(), None)
    ensures TableIs(HomeTable()[0 := Promoted(HomeTable()[0])], Some(0))
  {
  }

  /** After the standby's crash: its home is announced and it restarts with generation 2. */
  function Stage1(m: int, a: int, b: int, c: int, d: int): Supervision {
    Supervision(HomeTable(),
                [Child(m, UNASSIGNED, false, false, 0), Child(a, 0, true, false, 1), Child(b, 1, true, false, 1),
                 Child(-1, STANDBY, true, true, 1), Child(d, STANDBY, true, false, 2)],
                2, [false, false, true], [Degraded(STANDBY)])
  }

  /** After worker 0's crash: ring 0 moved to a standby of generation 1, which nobody runs. */
  function Stage2(m: int, b: int, d: int, e: int): Supervision {
    Supervision(HomeTable()[0 := Promoted(HomeTable()[0])],
                [Child(m, UNASSIGNED, false, false, 0), Child(-1, 0, true, true, 1), Child(b, 1, true, false, 1),
                 Child(-1, STANDBY, true, true, 1), Child(d, STANDBY, true, false, 2), Child(e, 0, true, false, 3)],
                3, [false, false, true], [Degraded(STANDBY), Transferred(0)])
  }

  /** After the restarted standby's crash: nothing is announced. */
  function Stage3(m: int, b: int, e: int, f: int): Supervision {
    Supervision(HomeTable()[0 := Promoted(HomeTable()[0])],
                [Child(m, UNASSIGNED, false, false, 0), Child(-1, 0, true, true, 1), Child(b, 1, true, false, 1),
                 Child(-1, STANDBY, true, true, 1), Child(-1, STANDBY, true, true, 2), Child(e, 0, true, false, 3),
                 Child(f, STANDBY, true, false, 4)],
                4, [false, false, true], [Degraded(STANDBY), Transferred(0)])
  }

  lemma FirstCrash(m: int, a: int, b: int, c: int, d: int)
    requires a > 0 && b > 0 && c > 0 && d > 0
    ensures ReapOne(Started(HomeTable(), m, a, b, c), 3, Crashed(ALL_RINGS, d)) == Outcome(Stage1(m, a, b, c, d), true)
  {
    var s := Started(HomeTable(), m, a, b, c);
    HomeTableIs();
    StartedInv(s, HomeTable(), m, a, b, c);
    CrashEffect(s, 3, ALL_RINGS, d);
    Owners(s.table, None);
    assert FirstOwned(s.table, STANDBY) == Some(2);
    assert Find(Reaped(s, 3).children, STANDBY) == None;
  }

  lemma SecondCrash(m: int, a: int, b: int, c: int, d: int, e: int)
    requires a > 0 && b > 0 && c > 0 && d > 0 && e > 0
    requires SupervisorSafety.Inv(Stage1(m, a, b, c, d))
    ensures ReapOne(Stage1(m, a, b, c, d), 1, Crashed(ALL_RINGS, e)) == Outcome(Stage2(m, b, d, e), true)
  {
    var s := Stage1(m, a, b, c, d);
    HomeTableIs();
    CrashEffect(s, 1, ALL_RINGS, e);
    Owners(s.table, None);
    assert FirstOwned(s.table, 0) == Some(0);
    var s2 := Reaped(s, 1);
    FindPending(s2.children, STANDBY, 4);
    BusyMeansMoved(s2);
  }

  lemma ThirdCrash(m: int, b: int, d: int, e: int, f: int)
    requires b > 0 && d > 0 && e > 0 && f > 0 && SupervisorSafety.Inv(Stage2(m, b, d, e))
    ensures ReapOne(Stage2(m, b, d, e), 4, Crashed(ALL_RINGS, f)) == Outcome(Stage3(m, b, e, f), true)
  {
    var s := Stage2(m, b, d, e);
    HomeTableIs();
    CrashEffect(s, 4, ALL_RINGS, f);
    Owners(s.table, Some(0));
    assert OwnedBy(s.table, 0, STANDBY);
    assert FirstOwned(s.table, STANDBY) == Some(0);
    assert Find(Reaped(s, 4).children, STANDBY) == None;
  }

  lemma LastLeg(m: int, b: int, d: int, e: int, f: int)
    requires b > 0 && d > 0 && e > 0 && f > 0 && SupervisorSafety.Inv(Stage2(m, b, d, e))
    ensures Runs(Stage2(m, b, d, e), [CrashPass(4, ALL_RINGS, f)], Stage3(m, b, e, f))
  {
    ThirdCrash(m, b, d, e, f);
    assert Runs(Stage3(m, b, e, f), [], Stage3(m, b, e, f));
    CrashFirst(Stage2(m, b, d, e), 4, ALL_RINGS, f, [], Stage3(m, b, e, f));
    assert [CrashPass(4, ALL_RINGS, f)] + [] == [CrashPass(4, ALL_RINGS, f)];
  }

  lemma MiddleLeg(m: int, a: int, b: int, c: int, d: int, e: int, f: int)
    requires a > 0 && b > 0 && c > 0 && d > 0 && e > 0 && f > 0 && SupervisorSafety.Inv(Stage1(m, a, b, c, d))
    ensures Runs(Stage1(m, a, b, c, d), [CrashPass(1, ALL_RINGS, e)] + [CrashPass(4, ALL_RINGS, f)], Stage3(m, b, e, f))
  {
    SecondCrash(m, a, b, c, d, e);
    ReapOneKeeps(Stage1(m, a, b, c, d), 1, Crashed(ALL_RINGS, e));
    LastLeg(m, b, d, e, f);
    CrashFirst(Stage1(m, a, b, c, d), 1, ALL_RINGS, e, [CrashPass(4, ALL_RINGS, f)], Stage3(m, b, e, f));
  }

  lemma RunReachable(m: int, a: int, b: int, c: int, passes: seq<seq<Exit>>, s: Supervision)
    requires a > 0 && b > 0 && c > 0 && Runs(Started(HomeTable(), m, a, b, c), passes, s)
    ensures SupervisorSafety.Reachable(s)
  {
    var table := HomeTable();
    assert forall k: nat | k < MAX_WORKERS :: table[k] == HomeRecord(k);
    assert Runs(Started(table, m, a, b, c), passes, s);
  }

  lemma FirstLeg(m: int, a: int, b: int, c: int, d: int, e: int, f: int)
    requires a > 0 && b > 0 && c > 0 && d > 0 && e > 0 && f > 0
    ensures SupervisorSafety.Reachable(Stage3(m, b, e, f))
  {
    var s, rest := Started(HomeTable(), m, a, b, c), [CrashPass(1, ALL_RINGS, e)] + [CrashPass(4, ALL_RINGS, f)];
    HomeTableIs();
    StartedInv(s, HomeTable(), m, a, b, c);
    FirstCrash(m, a, b, c, d);
    ReapOneKeeps(s, 3, Crashed(ALL_RINGS, d));
    MiddleLeg(m, a, b, c, d, e, f);
    CrashFirst(s, 3, ALL_RINGS, d, rest, Stage3(m, b, e, f));
    RunReachable(m, a, b, c, [CrashPass(3, ALL_RINGS, d)] + rest, Stage3(m, b, e, f));
  }

  /**
   The standby crashes, then worker 0, then the standby's restart. Ring 0 ends up recorded for a process
   that has exited, is never announced, and its transfer reached nobody.
   */
  lemma RingLostOnARun(m: int, a: int, b: int, c: int, d: int, e: int, f: int) returns (s: Supervision)
    requires a > 0 && b > 0 && c > 0 && d > 0 && e > 0 && f > 0
    ensures SupervisorSafety.Reachable(s) && s == Stage3(m, b, e, f)
    ensures Moved(s.log) == Some(0) && s.children[3].handled && Degraded(0) !in s.log
    ensures forall i | 0 <= i < |s.children| && !s.children[i].handled :: !s.children[i].Matches(s.table[0])
  {
    s := Stage3(m, b, e, f);
    FirstLeg(m, a, b, c, d, e, f);
    TakeoverNeedsFirstStandby(s);
  }

  /** After worker 0's crash: ring 0 moved to the first standby, and worker 0 restarts with generation 2. */
  function MovedStage(m: int, b: int, c: int, d: int): Supervision {
    Supervision(HomeTable()[0 := Promoted(HomeTable()[0])],
                [Child(m, UNASSIGNED, false, false, 0), Child(-1, 0, true, true, 1), Child(b, 1, true, false, 1),
                 Child(c, STANDBY, true, false, 1), Child(d, 0, true, false, 2)],
                2, [false, false, false], [Transferred(0)])
  }

  /** After the first standby's crash: ring 0 is announced, and ring 2, recorded for the same process, is not. */
  function HomeLostStage(m: int, b: int, d: int, e: int): Supervision {
    Supervision(HomeTable()[0 := Promoted(HomeTable()[0])],
                [Child(m, UNASSIGNED, false, false, 0), Child(-1, 0, true, true, 1), Child(b, 1, true, false, 1),
                 Child(-1, STANDBY, true, true, 1), Child(d, 0, true, false, 2), Child(e, STANDBY, true, false, 3)],
                3, [false, false, true], [Transferred(0), Degraded(0)])
  }

  lemma WorkerCrash(m: int, a: int, b: int, c: int, d: int)
    requires a > 0 && b > 0 && c > 0 && d > 0
    ensures ReapOne(Started(HomeTable(), m, a, b, c), 1, Crashed(ALL_RINGS, d)) == Outcome(MovedStage(m, b, c, d), true)
  {
    var s := Started(HomeTable(), m, a, b, c);
    HomeTableIs();
    StartedInv(s, HomeTable(), m, a, b, c);
    CrashEffect(s, 1, ALL_RINGS, d);
    Owners(s.table, None);
    assert FirstOwned(s.table, 0) == Some(0);
    var s2 := Reaped(s, 1);
    FindPending(s2.children, STANDBY, 3);
    BusyMeansMoved(s2);
  }

  lemma StandbyCrash(m: int, b: int, c: int, d: int, e: int)
    requires b > 0 && c > 0 && d > 0 && e > 0 && SupervisorSafety.Inv(MovedStage(m, b, c, d))
    ensures ReapOne(MovedStage(m, b, c, d), 3, Crashed(ALL_RINGS, e)) == Outcome(HomeLostStage(m, b, d, e), true)
  {
    var s := MovedStage(m, b, c, d);
    HomeTableIs();
    CrashEffect(s, 3, ALL_RINGS, e);
    Owners(s.table, Some(0));
    assert OwnedBy(s.table, 0, STANDBY);
    assert FirstOwned(s.table, STANDBY) == Some(0);
    assert Find(Reaped(s, 3).children, STANDBY) == None;
  }

  lemma TwoCrashes(m: int, a: int, b: int, c: int, d: int, e: int)
    requires a > 0 && b > 0 && c > 0 && d > 0 && e > 0
    ensures SupervisorSafety.Reachable(HomeLostStage(m, b, d, e))
  {
    var s, t, u := Started(HomeTable(), m, a, b, c), MovedStage(m, b, c, d), HomeLostStage(m, b, d, e);
    HomeTableIs();
    StartedInv(s, HomeTable(), m, a, b, c);
    WorkerCrash(m, a, b, c, d);
    ReapOneKeeps(s, 1, Crashed(ALL_RINGS, d));
    StandbyCrash(m, b, c, d, e);
    assert Runs(u, [], u);
    CrashFirst(t, 3, ALL_RINGS, e, [], u);
    var rest := [CrashPass(3, ALL_RINGS, e)];
    assert rest + [] == rest;
    CrashFirst(s, 1, ALL_RINGS, d, rest, u);
    RunReachable(m, a, b, c, [CrashPass(1, ALL_RINGS, d)] + rest, u);
  }

  /**
   Worker 0 crashes, then the first standby. Ring 0 is announced; ring 2, still recorded for the process that
   has exited, is not and never will be.
   */
  lemma HomeLostOnARun(m: int, a: int, b: int, c: int, d: int, e: int) returns (s: Supervision)
    requires a > 0 && b > 0 && c > 0 && d > 0 && e > 0
    ensures SupervisorSafety.Reachable(s) && s.log == [Transferred(0), Degraded(0)]
    ensures |s.table| == MAX_WORKERS && OwnedBy(s.table, STANDBY, STANDBY) && Degraded(STANDBY) !in s.log
    ensures forall i | 0 <= i < |s.children| && !s.children[i].handled :: !s.children[i].Matches(s.table[STANDBY])
  {
    s := HomeLostStage(m, b, d, e);
    TwoCrashes(m, a, b, c, d, e);
    HomeTableIs();
    Owners(s.table, Some(0));
  }

  // ----- recoveries that the check refuses -----

  /**
   If the crashed owner's ring is in a state that some interleaving of calls reaches, the recovery is
   refused exactly when a claim is in flight or the restart does not fork: a producer that died in the
   middle of a push is never replaced, and the rollback of the transfer is never reached there.
   */
  lemma RecoveryRefused(s: Supervision, i: nat, passing: set<nat>, pid: int, k: nat, ring: RingProtocol.State)
    requires SupervisorSafety.Reachable(s) && Shaped(s) && i < |s.children| && Waited(s.children[i])
    requires s.children[i].physicalWorker < MAX_WORKERS && FirstOwned(s.table, s.children[i].physicalWorker) == Some(k)
    requires RingProtocol.Reachable(ring) && ring.ring.mem.WellShaped() && (k in passing <==> AllAgree(ring.ring.mem))
    ensures ReapOne(s, i, Crashed(passing, pid)).ok <==> NoClaim(ring) && pid >= 0
  {
    ReachableMarks(s);
    CrashEffect(s, i, passing, pid);
    Owners(s.table, Moved(s.log));
    RingProtocol.ReachableInv(ring);
    AgreementDecides(ring.ring.mem);
    ConsistentWhenUnclaimed(ring);
    assert s.table[k].epoch <= 4;
  }
}
