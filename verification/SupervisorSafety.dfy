/** What holds over every sequence of crashes, clean exits and reap passes from a fresh region. */
module SupervisorSafety {
  import opened Options
  import opened Words
  import opened OwnershipProtocol
  import opened SharedRegion
  import opened Supervisor

  // ----- the invariant -----

  /** The ring handed to the standby, if any. */
  function Moved(log: seq<Act>): Option<nat> {
    if log == [] then None
    else if log[|log| - 1].Transferred? then Some(log[|log| - 1].ring)
    else Moved(log[..|log| - 1])
  }

  function HomeRecord(k: Half): RingOwnership {
    RingOwnership(k, Pack(k, FIRST_GENERATION), 2)
  }

  function PromotedRecord(k: Half): RingOwnership {
    RingOwnership(k, Pack(STANDBY, FIRST_GENERATION), 4)
  }

  /** Every ring is at home except the one that moved. */
  predicate TableIs(table: seq<RingOwnership>, moved: Option<nat>) {
    && |table| == MAX_WORKERS
    && (moved.Some? ==> moved.value < STANDBY)
    && forall k: nat | k < MAX_WORKERS :: table[k] == if moved == Some(k) then PromotedRecord(k) else HomeRecord(k)
  }

  /** Nothing more happens to an announced ring, and only one ring ever moves. */
  predicate LogOk(log: seq<Act>) {
    && (forall i, j | 0 <= i < j < |log| && log[i].Transferred? :: !log[j].Transferred?)
    && (forall i, j | 0 <= i < j < |log| && log[i].Degraded? :: log[i].ring != log[j].ring)
  }

  /** One unhandled child for each worker. */
  ghost predicate OneEach(children: seq<Child>) {
    forall i, j, w | 0 <= i < j < |children| && Pending(children[i], w) :: !Pending(children[j], w)
  }

  predicate DistinctProcesses(children: seq<Child>) {
    forall i, j | 0 <= i < j < |children| && children[i].worker && children[j].worker ::
      children[i].physicalWorker != children[j].physicalWorker || children[i].generation != children[j].generation
  }

  predicate ChildOk(c: Child, nextGeneration: nat) {
    c.worker ==> c.physicalWorker < MAX_WORKERS && 1 <= c.generation <= nextGeneration && (c.handled || c.pid > 0)
  }

  ghost predicate ChildrenOk(s: Supervision) {
    && OneEach(s.children) && DistinctProcesses(s.children)
    && (forall i | 0 <= i < |s.children| :: ChildOk(s.children[i], s.nextGeneration))
    && |s.children| >= 4 && s.children[3].worker
    && s.children[3].physicalWorker == STANDBY && s.children[3].generation == FIRST_GENERATION
  }

  /** An announced ring's owner is marked, and unless it is the standby's home there is no standby left to take it. */
  predicate AnnouncedRing(s: Supervision, k: nat, standbyGone: bool)
    requires Shaped(s)
  {
    && k < MAX_WORKERS && UnpackOwner(s.table[k].ownerWord) < MAX_WORKERS
    && s.degraded[UnpackOwner(s.table[k].ownerWord)]
    && (k == STANDBY || StandbyBusy(s) || standbyGone)
  }

  predicate AnnouncedOk(s: Supervision, standbyGone: bool)
    requires Shaped(s)
  {
    forall i | 0 <= i < |s.log| && s.log[i].Degraded? :: AnnouncedRing(s, s.log[i].ring, standbyGone)
  }

  ghost predicate Inv(s: Supervision) {
    && Shaped(s) && TableIs(s.table, Moved(s.log)) && LogOk(s.log) && ChildrenOk(s)
    && AnnouncedOk(s, Find(s.children, STANDBY).None?)
  }

  /** Between handling worker w's crash and its restart. */
  ghost predicate Mid(s: Supervision, w: nat) {
    && Shaped(s) && TableIs(s.table, Moved(s.log)) && LogOk(s.log) && ChildrenOk(s) && w < MAX_WORKERS
    && Find(s.children, w).None?
    && AnnouncedOk(s, w != STANDBY && Find(s.children, STANDBY).None?)
  }

  lemma StartedInv(s: Supervision, table: seq<RingOwnership>, monitor: int, a: int, b: int, standby: int)
    requires |table| == MAX_WORKERS && forall k: nat | k < MAX_WORKERS :: table[k] == HomeRecord(k)
    requires a > 0 && b > 0 && standby > 0 && s == Started(table, monitor, a, b, standby)
    ensures Inv(s)
  {
  }

  // ----- ownership -----

  lemma RecordOwner(k: Half, owner: Half)
    requires k < MAX_WORKERS && owner < MAX_WORKERS
    ensures var cell := RingOwnership(k, Pack(owner, FIRST_GENERATION), 2);
      Readable(cell, k) && TokenAt(cell).physicalOwner == owner
      && UnpackOwner(cell.ownerWord) == owner && UnpackGeneration(cell.ownerWord) == FIRST_GENERATION
    ensures Readable(RingOwnership(k, Pack(owner, FIRST_GENERATION), 4), k)
    ensures TokenAt(RingOwnership(k, Pack(owner, FIRST_GENERATION), 4)).physicalOwner == owner
  {
    UnpackPack(owner, FIRST_GENERATION);
  }

  function OwnerOf(k: nat, moved: Option<nat>): nat {
    if moved == Some(k) then STANDBY else k
  }

  lemma Owners(table: seq<RingOwnership>, moved: Option<nat>)
    requires TableIs(table, moved)
    ensures forall k: nat | k < MAX_WORKERS :: UnpackOwner(table[k].ownerWord) == OwnerOf(k, moved)
    ensures forall k: nat | k < MAX_WORKERS :: UnpackGeneration(table[k].ownerWord) == FIRST_GENERATION
    ensures forall k: nat, w | k < MAX_WORKERS :: OwnedBy(table, k, w) <==> OwnerOf(k, moved) == w
  {
    forall k: nat | k < MAX_WORKERS
      ensures UnpackOwner(table[k].ownerWord) == OwnerOf(k, moved)
      ensures UnpackGeneration(table[k].ownerWord) == FIRST_GENERATION
      ensures forall w :: OwnedBy(table, k, w) <==> OwnerOf(k, moved) == w
    {
      RecordOwner(k, OwnerOf(k, moved));
    }
  }

  /** The standby is busy exactly once a ring has moved. */
  lemma BusyMeansMoved(s: Supervision)
    requires Shaped(s) && TableIs(s.table, Moved(s.log))
    ensures StandbyBusy(s) <==> Moved(s.log).Some?
  {
    var moved := Moved(s.log);
    Owners(s.table, moved);
    if moved.Some? {
      assert OwnedBy(s.table, moved.value, STANDBY);
    }
  }

  // ----- children -----

  /** Find depends only on which children are pending. */
  lemma {:induction false} FindSame(a: seq<Child>, b: seq<Child>, w: nat, k: nat)
    requires |a| == |b| && k <= |a| && forall i | k <= i < |a| :: Pending(a[i], w) == Pending(b[i], w)
    ensures FindFrom(a, w, k) == FindFrom(b, w, k)
    decreases |a| - k
  {
    if k < |a| {
      FindSame(a, b, w, k + 1);
    }
  }

  lemma FindPending(children: seq<Child>, w: nat, i: nat)
    requires OneEach(children) && i < |children| && Pending(children[i], w)
    ensures Find(children, w) == Some(i)
  {
    var found := Find(children, w);
    assert found.Some?;
  }

  /** Recording the exit of child i and marking it handled. */
  lemma HandleKeeps(s: Supervision, i: nat, s': Supervision)
    requires Inv(s) && i < |s.children| && s.children[i].worker && !s.children[i].handled
    requires s' == s.(children := s.children[i := s.children[i].(pid := -1, handled := true)])
    ensures Mid(s', s.children[i].physicalWorker)
  {
    var w := s.children[i].physicalWorker;
    FindPending(s.children, w, i);
    assert forall j, v | 0 <= j < |s'.children| && Pending(s'.children[j], v) :: Pending(s.children[j], v);
    if w != STANDBY {
      FindSame(s.children, s'.children, STANDBY, 0);
    }
    forall j | 0 <= j < |s.log| && s.log[j].Degraded?
      ensures AnnouncedRing(s', s.log[j].ring, w != STANDBY && Find(s'.children, STANDBY).None?)
    {
      assert AnnouncedRing(s, s.log[j].ring, Find(s.children, STANDBY).None?);
    }
  }

  lemma MidInv(s: Supervision, w: nat)
    requires Mid(s, w)
    ensures Inv(s)
  {
    forall i | 0 <= i < |s.log| && s.log[i].Degraded?
      ensures AnnouncedRing(s, s.log[i].ring, Find(s.children, STANDBY).None?)
    {
      assert AnnouncedRing(s, s.log[i].ring, w != STANDBY && Find(s.children, STANDBY).None?);
    }
  }

  lemma AppendLog(log: seq<Act>, a: Act)
    ensures Moved(log + [a]) == if a.Transferred? then Some(a.ring) else Moved(log)
  {
    assert (log + [a])[..|log|] == log;
  }

  /** A promotion: nothing had moved, the ring was not announced, and it is not the standby's home. */
  lemma PromoteKeeps(s: Supervision, w: nat, k: nat, s': Supervision)
    requires Mid(s, w) && k < MAX_WORKERS && OwnedBy(s.table, k, w) && Promotable(s)
    requires s' == s.(table := s.table[k := Promoted(s.table[k])], log := s.log + [Transferred(k)])
    ensures Mid(s', w)
  {
    BusyMeansMoved(s);
    Owners(s.table, Moved(s.log));
    AppendLog(s.log, Transferred(k));
    assert w != STANDBY && k == w;
    assert s'.table[k] == PromotedRecord(k);
    BusyMeansMoved(s');
    Owners(s'.table, Moved(s'.log));
    forall i | 0 <= i < |s.log| && s.log[i].Degraded?
      ensures s.log[i].ring != k && AnnouncedRing(s', s.log[i].ring, w != STANDBY && Find(s'.children, STANDBY).None?)
    {
      assert AnnouncedRing(s, s.log[i].ring, w != STANDBY && Find(s.children, STANDBY).None?);
    }
    NothingMoved(s.log);
  }

  lemma {:induction false} NothingMoved(log: seq<Act>)
    requires Moved(log) == None
    ensures forall i | 0 <= i < |log| :: !log[i].Transferred?
    decreases |log|
  {
    if log != [] {
      NothingMoved(log[..|log| - 1]);
      assert forall i | 0 <= i < |log| - 1 :: log[i] == log[..|log| - 1][i];
    }
  }

  /** An announcement: this ring was not announced before, and no standby is left unless it is the standby's home. */
  lemma DegradeKeeps(s: Supervision, w: nat, k: nat, s': Supervision)
    requires Mid(s, w) && k < MAX_WORKERS && OwnedBy(s.table, k, w) && !Promotable(s) && !s.degraded[w]
    requires s' == s.(degraded := s.degraded[w := true], log := s.log + [Degraded(k)])
    ensures Mid(s', w)
  {
    BusyMeansMoved(s);
    Owners(s.table, Moved(s.log));
    AppendLog(s.log, Degraded(k));
    assert w == STANDBY ==> k == STANDBY || StandbyBusy(s);
    forall i | 0 <= i < |s'.log| && s'.log[i].Degraded?
      ensures i < |s.log| ==> s.log[i].ring != k
      ensures AnnouncedRing(s', s'.log[i].ring, w != STANDBY && Find(s'.children, STANDBY).None?)
    {
      if i < |s.log| {
        assert AnnouncedRing(s, s.log[i].ring, w != STANDBY && Find(s.children, STANDBY).None?);
      }
    }
  }

  lemma ReassignKeeps(s: Supervision, w: nat, k: nat, verified: bool)
    requires Mid(s, w) && k < MAX_WORKERS && OwnedBy(s.table, k, w)
    ensures Mid(Reassign(s, w, k, verified).state, w)
    ensures Reassign(s, w, k, verified).state.nextGeneration == s.nextGeneration
  {
    var s' := Reassign(s, w, k, verified).state;
    if verified && Promotable(s) {
      if s.table[k].epoch <= TWO_TO_THE_64 - 3 {
        PromoteKeeps(s, w, k, s');
      }
    } else if verified && !s.degraded[w] {
      DegradeKeeps(s, w, k, s');
    }
  }

  lemma LaunchKeeps(s: Supervision, w: nat, pid: int)
    requires Mid(s, w) && s.nextGeneration + 1 < TWO_TO_THE_32 && pid != 0
    ensures Inv(Launch(s, w, pid).state) && Launch(s, w, pid).state.nextGeneration == s.nextGeneration + 1
  {
    var s' := Launch(s, w, pid).state;
    if pid > 0 && w != STANDBY {
      FindAppend(s.children, s'.children[|s.children|], STANDBY, 0);
    } else if pid < 0 {
      assert s'.children == s.children;
    }
    forall i | 0 <= i < |s.log| && s.log[i].Degraded?
      ensures AnnouncedRing(s', s.log[i].ring, Find(s'.children, STANDBY).None?)
    {
      assert AnnouncedRing(s, s.log[i].ring, w != STANDBY && Find(s.children, STANDBY).None?);
    }
  }

  lemma {:induction false} FindAppend(children: seq<Child>, c: Child, w: nat, k: nat)
    requires k <= |children| && !Pending(c, w)
    ensures FindFrom(children + [c], w, k) == FindFrom(children, w, k)
    decreases |children| - k
  {
    if k < |children| {
      FindAppend(children, c, w, k + 1);
    } else {
      assert FindFrom(children + [c], w, k + 1) == None;
    }
  }

  // ----- every reap pass keeps the invariant -----

  /** A fork returns a positive process id or a negative error. */
  predicate ForkResult(e: Exit) {
    e.Crashed? ==> e.pid != 0
  }

  lemma ReapOneKeeps(s: Supervision, i: nat, exit: Exit)
    requires Inv(s) && i < |s.children| && s.nextGeneration + 1 < TWO_TO_THE_32 && ForkResult(exit)
    ensures Inv(ReapOne(s, i, exit).state)
    ensures ReapOne(s, i, exit).state.nextGeneration <= s.nextGeneration + 1
  {
    var child := s.children[i];
    assert ChildOk(child, s.nextGeneration);
    if Waited(child) && !exit.Running? {
      var s1 := s.(children := s.children[i := child.(pid := -1)]);
      var s2 := s.(children := s.children[i := child.(pid := -1, handled := true)]);
      HandleKeeps(s, i, s2);
      assert Handle(s1, i) == s2;
      MidInv(s2, child.physicalWorker);
      if exit.Crashed? {
        FindPending(s.children, child.physicalWorker, i);
        FindSame(s.children, s1.children, child.physicalWorker, 0);
        RecoverKeeps(s1, s2, child.physicalWorker, i, exit.passing, exit.pid);
      }
    }
  }

  lemma RecoverKeeps(s1: Supervision, s2: Supervision, w: nat, i: nat, passing: set<nat>, pid: int)
    requires Shaped(s1) && i < |s1.children| && Find(s1.children, w) == Some(i) && s2 == Handle(s1, i) && Mid(s2, w)
    requires s2.nextGeneration + 1 < TWO_TO_THE_32 && pid != 0
    ensures Inv(Recover(s1, w, passing, pid).state)
    ensures Recover(s1, w, passing, pid).state.nextGeneration <= s2.nextGeneration + 1
  {
    var owned := FirstOwned(s2.table, w);
    var o := if owned.Some? then Reassign(s2, w, owned.value, owned.value in passing) else Outcome(s2, true);
    if owned.Some? {
      ReassignKeeps(s2, w, owned.value, owned.value in passing);
    }
    MidInv(o.state, w);
    if o.ok {
      LaunchKeeps(o.state, w, pid);
    }
  }

  lemma {:induction false} ReapKeeps(s: Supervision, exits: seq<Exit>)
    requires Inv(s) && KnownWorkers(s) && s.nextGeneration + |exits| < TWO_TO_THE_32
    requires forall e | e in exits :: ForkResult(e)
    ensures Inv(Reap(s, exits).state) && Reap(s, exits).state.nextGeneration <= s.nextGeneration + |exits|
    decreases |exits|
  {
    if exits != [] {
      var i := |exits| - 1;
      ReapKeeps(s, exits[..i]);
      ReapNextKeeps(Reap(s, exits[..i]), i, exits[i]);
    }
  }

  lemma ReapNextKeeps(o: Outcome, i: nat, exit: Exit)
    requires Inv(o.state) && KnownWorkers(o.state) && o.state.nextGeneration + 1 < TWO_TO_THE_32 && ForkResult(exit)
    ensures Inv(ReapNext(o, i, exit).state) && ReapNext(o, i, exit).state.nextGeneration <= o.state.nextGeneration + 1
  {
    if o.ok && i < |o.state.children| {
      ReapOneKeeps(o.state, i, exit);
    }
  }

  // ----- runs -----

  /** Reap passes, each of which succeeded, then possibly one that failed; fewer than 2^32 launches in all. */
  ghost predicate Runs(s: Supervision, passes: seq<seq<Exit>>, s': Supervision)
    decreases |passes|
  {
    if passes == [] then s' == s
    else
      && Shaped(s) && KnownWorkers(s) && s.nextGeneration + |passes[0]| < TWO_TO_THE_32
      && (forall e | e in passes[0] :: ForkResult(e))
      && var o := Reap(s, passes[0]);
         if o.ok then Runs(o.state, passes[1..], s') else |passes| == 1 && s' == o.state
  }

  ghost predicate Reachable(s: Supervision) {
    exists monitor, a, b, standby, table, passes ::
      && |table| == MAX_WORKERS && (forall k: nat | k < MAX_WORKERS :: table[k] == HomeRecord(k))
      && a > 0 && b > 0 && standby > 0 && Runs(Started(table, monitor, a, b, standby), passes, s)
  }

  lemma {:induction false} RunKeeps(s: Supervision, passes: seq<seq<Exit>>, s': Supervision)
    requires Inv(s) && Runs(s, passes, s')
    ensures Inv(s')
    decreases |passes|
  {
    if passes != [] {
      ReapKeeps(s, passes[0]);
      var o := Reap(s, passes[0]);
      if o.ok {
        RunKeeps(o.state, passes[1..], s');
      }
    }
  }

  lemma ReachableInv(s: Supervision)
    requires Reachable(s)
    ensures Inv(s)
  {
    var monitor, a, b, standby, table, passes :|
      && |table| == MAX_WORKERS && (forall k: nat | k < MAX_WORKERS :: table[k] == HomeRecord(k))
      && a > 0 && b > 0 && standby > 0 && Runs(Started(table, monitor, a, b, standby), passes, s);
    StartedInv(Started(table, monitor, a, b, standby), table, monitor, a, b, standby);
    RunKeeps(Started(table, monitor, a, b, standby), passes, s);
  }

  // ----- the guarantees -----

  /**
   However children crash and exit: each physical worker has at most one unhandled child, no two
   launched processes share a worker and a generation, so at most one process ever launched matches a
   ring's record.
   */
  lemma OneProcessPerRecord(s: Supervision, i: nat, j: nat, k: nat)
    requires Reachable(s) && i < j < |s.children| && s.children[i].worker && s.children[j].worker && k < |s.table|
    ensures s.children[i].physicalWorker == s.children[j].physicalWorker ==>
            s.children[i].handled || s.children[j].handled
    ensures (s.children[i].physicalWorker, s.children[i].generation) !=
            (s.children[j].physicalWorker, s.children[j].generation)
    ensures !s.children[i].Matches(s.table[k]) || !s.children[j].Matches(s.table[k])
  {
    ReachableInv(s);
    assert !s.children[i].handled ==> Pending(s.children[i], s.children[i].physicalWorker);
  }

  /**
   At most one ring is ever transferred, and only a hot worker's home ring to the standby; a ring is
   announced degraded at most once and is never transferred afterwards.
   */
  lemma OneTransferAndTerminalDegradation(s: Supervision, i: nat, j: nat)
    requires Reachable(s) && i < j < |s.log|
    ensures s.log[i].Transferred? ==> !s.log[j].Transferred?
    ensures s.log[i].Degraded? ==> s.log[j] != Degraded(s.log[i].ring) && s.log[j] != Transferred(s.log[i].ring)
  {
    ReachableInv(s);
  }

  /** Each ring is recorded either as its home worker's, or, if it is the one that moved, as the first standby's. */
  lemma RecordsAreHomeOrStandby(s: Supervision)
    requires Reachable(s)
    ensures TableIs(s.table, Moved(s.log))
  {
    ReachableInv(s);
  }

  /**
   After the transfer of a ring its record names the standby launched at start, and no restart: a
   running process matches it exactly as long as that first standby has not been reaped.
   */
  lemma TakeoverNeedsFirstStandby(s: Supervision)
    requires Reachable(s) && Moved(s.log).Some?
    ensures Moved(s.log).value < |s.table| && |s.children| > 3
    ensures (exists i :: 0 <= i < |s.children| && !s.children[i].handled
                         && s.children[i].Matches(s.table[Moved(s.log).value]))
            <==> !s.children[3].handled
  {
    ReachableInv(s);
    var k := Moved(s.log).value;
    Owners(s.table, Moved(s.log));
    assert s.children[3].Matches(s.table[k]);
    forall i | 0 <= i < |s.children| && i != 3
      ensures !s.children[i].Matches(s.table[k])
    {
      if s.children[i].worker {
        OneProcessPerRecord(s, if i < 3 then i else 3, if i < 3 then 3 else i, k);
      }
    }
  }
}
