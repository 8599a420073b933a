/** Crash recovery: what the supervisor does with its children and with the rings' ownership records. */
module Supervisor {
  import opened Options
  import opened Words
  import opened OwnershipProtocol
  import opened RingProtocol
  import opened RingBuffer
  import opened SharedRegion
  import opened Takeover

  /** Physical process 2 is the one standby. */
  const STANDBY: nat := 2
  const FIRST_GENERATION: Half := 1
  const UNASSIGNED: Half := 0xFFFF_FFFF

  /** A launched process. Its generation is fixed in its own configuration; nothing here reads it. */
  datatype Child = Child(pid: int, physicalWorker: nat, worker: bool, handled: bool, generation: nat) {
    /** The process a ring's ownership record names. */
    predicate Matches(cell: RingOwnership) {
      worker && physicalWorker == UnpackOwner(cell.ownerWord) && generation == UnpackGeneration(cell.ownerWord)
    }
  }

  /** What the supervisor announces or does, in order. */
  datatype Act = Degraded(ring: nat) | Transferred(ring: nat)

  datatype Supervision = Supervision(
    table: seq<RingOwnership>,
    children: seq<Child>,
    nextGeneration: Half,
    degraded: seq<bool>,     // by physical worker
    log: seq<Act>)

  // ----- one crash -----

  predicate Pending(c: Child, worker: nat) {
    c.worker && c.physicalWorker == worker && !c.handled
  }

  /** The first unhandled child of a physical worker. */
  function FindFrom(children: seq<Child>, worker: nat, k: nat): (r: Option<nat>)
    requires k <= |children|
    ensures r.Some? ==> k <= r.value < |children| && Pending(children[r.value], worker)
    ensures r.Some? ==> forall i | k <= i < r.value :: !Pending(children[i], worker)
    ensures r.None? ==> forall i | k <= i < |children| :: !Pending(children[i], worker)
    decreases |children| - k
  {
    if k == |children| then None
    else if Pending(children[k], worker) then Some(k)
    else FindFrom(children, worker, k + 1)
  }

  function Find(children: seq<Child>, worker: nat): Option<nat> {
    FindFrom(children, worker, 0)
  }

  predicate Shaped(s: Supervision) {
    |s.table| == MAX_WORKERS && |s.degraded| == MAX_WORKERS
  }

  /** The standby already owns a ring that is not its home. */
  predicate StandbyBusy(s: Supervision)
    requires Shaped(s)
  {
    var owned := FirstOwned(s.table, STANDBY);
    owned.Some? && owned.value != STANDBY
  }

  predicate Promotable(s: Supervision)
    requires Shaped(s)
  {
    var standby := Find(s.children, STANDBY);
    standby.Some? && s.children[standby.value].pid > 0 && !StandbyBusy(s)
  }

  /** The record of ring k after the standby's promotion, which always names its first generation. */
  function Promoted(cell: RingOwnership): RingOwnership
    requires cell.epoch + 2 < TWO_TO_THE_64
  {
    cell.(ownerWord := Pack(STANDBY, FIRST_GENERATION), epoch := cell.epoch + 2)
  }

  datatype Outcome = Outcome(state: Supervision, ok: bool)

  /** What becomes of the crashed worker's ring k: promotion, a first announcement, or nothing. */
  function Reassign(s: Supervision, worker: nat, k: nat, verified: bool): Outcome
    requires Shaped(s) && worker < MAX_WORKERS && k < MAX_WORKERS && OwnedBy(s.table, k, worker)
  {
    if !verified then Outcome(s, false)
    else if Promotable(s) then
      if s.table[k].epoch > TWO_TO_THE_64 - 3 then Outcome(s, false)
      else Outcome(s.(table := s.table[k := Promoted(s.table[k])], log := s.log + [Transferred(k)]), true)
    else if !s.degraded[worker] then
      Outcome(s.(degraded := s.degraded[worker := true], log := s.log + [Degraded(k)]), true)
    else Outcome(s, true)
  }

  /** The restart, which always comes back as a standby with a fresh generation. */
  function Launch(s: Supervision, worker: nat, pid: int): Outcome {
    var generation := (s.nextGeneration + 1) % TWO_TO_THE_32;
    if pid < 0 then Outcome(s.(nextGeneration := generation), false)
    else Outcome(s.(nextGeneration := generation,
                    children := s.children + [Child(pid, worker, true, false, generation)]), true)
  }

  function Handle(s: Supervision, i: nat): Supervision
    requires i < |s.children|
  {
    s.(children := s.children[i := s.children[i].(handled := true)])
  }

  /** passing is the set of rings that pass the consistency check when the crash is handled. */
  function Recover(s: Supervision, worker: nat, passing: set<nat>, pid: int): Outcome
    requires Shaped(s) && worker < MAX_WORKERS
  {
    var crashed := Find(s.children, worker);
    if crashed.None? then Outcome(s, true)
    else
      var s1 := Handle(s, crashed.value);
      var owned := FirstOwned(s1.table, worker);
      var o := if owned.Some? then Reassign(s1, worker, owned.value, owned.value in passing) else Outcome(s1, true);
      if !o.ok then o else Launch(o.state, worker, pid)
  }

  // ----- one reap pass -----

  /** What waiting for a child finds; for a crash also the rings that pass the check and how its restart forks. */
  datatype Exit = Running | Clean | Crashed(passing: set<nat>, pid: int)

  predicate Waited(c: Child) {
    c.worker && c.pid > 0 && !c.handled
  }

  function ReapOne(s: Supervision, i: nat, exit: Exit): Outcome
    requires Shaped(s) && i < |s.children| && (s.children[i].worker ==> s.children[i].physicalWorker < MAX_WORKERS)
  {
    var child := s.children[i];
    if !Waited(child) || exit.Running? then Outcome(s, true)
    else
      var s1 := s.(children := s.children[i := child.(pid := -1)]);
      if exit.Clean? then Outcome(Handle(s1, i), true)
      else Recover(s1, child.physicalWorker, exit.passing, exit.pid)
  }

  predicate KnownWorkers(s: Supervision) {
    forall i | 0 <= i < |s.children| && s.children[i].worker :: s.children[i].physicalWorker < MAX_WORKERS
  }

  /** One child of a pass, unless an earlier recovery failed or there is no such child. */
  function ReapNext(o: Outcome, i: nat, exit: Exit): (r: Outcome)
    requires Shaped(o.state) && KnownWorkers(o.state)
    ensures Shaped(r.state) && KnownWorkers(r.state)
  {
    if !o.ok || i >= |o.state.children| then o
    else
      ReapOneKnows(o.state, i, exit);
      ReapOne(o.state, i, exit)
  }

  /** A pass over the children by index, restarts added on the way included; a failed recovery ends it. */
  function Reap(s: Supervision, exits: seq<Exit>): (o: Outcome)
    requires Shaped(s) && KnownWorkers(s)
    ensures Shaped(o.state) && KnownWorkers(o.state)
  {
    if exits == [] then Outcome(s, true)
    else ReapNext(Reap(s, exits[..|exits| - 1]), |exits| - 1, exits[|exits| - 1])
  }

  lemma ReapSnoc(s: Supervision, exits: seq<Exit>, exit: Exit)
    requires Shaped(s) && KnownWorkers(s)
    ensures Reap(s, exits + [exit]) == ReapNext(Reap(s, exits), |exits|, exit)
  {
    var all := exits + [exit];
    assert all[..|all| - 1] == exits && all[|all| - 1] == exit && |all| - 1 == |exits|;
  }

  /** Every child is as it was, but for the running workers that have exited cleanly. */
  predicate CleanExitsOnly(children: seq<Child>, exited: set<nat>, children': seq<Child>) {
    && |children'| == |children|
    && forall i | 0 <= i < |children| ::
         var c := children[i];
         children'[i] == if i in exited && c.worker && c.pid > 0 && !c.handled
                         then Child(-1, c.physicalWorker, true, true, c.generation) else c
  }

  function CleanExits(exits: seq<Exit>): set<nat> {
    set i | 0 <= i < |exits| && exits[i] == Clean
  }

  /** A pass that meets no crash succeeds, handles the workers that have exited, and does nothing else. */
  lemma {:induction false} NoCrashes(s: Supervision, exits: seq<Exit>)
    requires Shaped(s) && KnownWorkers(s) && forall i | 0 <= i < |exits| :: !exits[i].Crashed?
    ensures var o := Reap(s, exits);
      && o.ok && o.state == s.(children := o.state.children)
      && CleanExitsOnly(s.children, CleanExits(exits), o.state.children)
    decreases |exits|
  {
    if exits != [] {
      var i := |exits| - 1;
      var front := exits[..i];
      NoCrashes(s, front);
      assert CleanExits(exits) == if exits[i] == Clean then CleanExits(front) + {i} else CleanExits(front);
    }
  }

  /** A record that reads as an owner is the one its own token expects. */
  lemma ReadMatches(cell: RingOwnership, k: nat)
    requires Readable(cell, k) && k < MAX_WORKERS
    ensures Matches(cell, TokenAt(cell))
    ensures WellAddressed(k, TokenAt(cell), STANDBY, FIRST_GENERATION) <==> cell.epoch <= TWO_TO_THE_64 - 3
  {
    PackUnpack(cell.ownerWord);
  }

  // ----- the same, as the supervisor runs it -----

  /** What waiting for a child reports, and the process id its restart would get. */
  datatype Status = StillRunning | ExitedClean | Died(pid: int)

  /** The exits a pass sees while the given rings pass the check. */
  function ExitOf(status: Status, passing: set<nat>): Exit {
    match status
    case StillRunning => Running
    case ExitedClean => Clean
    case Died(pid) => Crashed(passing, pid)
  }

  function ExitsOf(statuses: seq<Status>, passing: set<nat>): (r: seq<Exit>)
    ensures |r| == |statuses| && forall i | 0 <= i < |r| :: r[i] == ExitOf(statuses[i], passing)
  {
    seq(|statuses|, i requires 0 <= i < |statuses| => ExitOf(statuses[i], passing))
  }

  predicate NobodyDied(statuses: seq<Status>) {
    forall i | 0 <= i < |statuses| :: !statuses[i].Died?
  }

  function Exited(statuses: seq<Status>): set<nat> {
    set i | 0 <= i < |statuses| && statuses[i] == ExitedClean
  }

  lemma NoDeaths(s: Supervision, statuses: seq<Status>, passing: set<nat>)
    requires Shaped(s) && KnownWorkers(s)
    ensures var o := Reap(s, ExitsOf(statuses, passing));
      NobodyDied(statuses) ==>
        && o.ok && o.state == s.(children := o.state.children)
        && CleanExitsOnly(s.children, Exited(statuses), o.state.children)
  {
    if NobodyDied(statuses) {
      NoCrashes(s, ExitsOf(statuses, passing));
      assert CleanExits(ExitsOf(statuses, passing)) == Exited(statuses);
    }
  }

  /** Once a recovery has failed, or past the last child, a pass does nothing. */
  lemma {:induction false} ReapRest(s: Supervision, exits: seq<Exit>, i: nat)
    requires Shaped(s) && KnownWorkers(s) && i <= |exits|
    requires var o := Reap(s, exits[..i]); !o.ok || i >= |o.state.children|
    ensures Reap(s, exits) == Reap(s, exits[..i])
    decreases |exits|
  {
    if i == |exits| {
      assert exits[..i] == exits;
    } else {
      var front := exits[..|exits| - 1];
      assert front[..i] == exits[..i];
      ReapRest(s, front, i);
    }
  }

  /** The first of the initial forks to fail, or their number. */
  function FirstFailure(pids: seq<int>): (k: nat)
    ensures k <= |pids| && (forall i | 0 <= i < k :: pids[i] >= 0) && (k < |pids| ==> pids[k] < 0)
  {
    if pids == [] || pids[0] < 0 then 0 else 1 + FirstFailure(pids[1..])
  }

  /** The monitor, and the workers launched before a fork failed, all of the first generation. */
  function Launched(monitor: int, pids: seq<int>, k: nat): seq<Child>
    requires k <= |pids|
  {
    [Child(monitor, UNASSIGNED, false, false, 0)]
    + seq(k, i requires 0 <= i < k => Child(pids[i], i, true, false, FIRST_GENERATION))
  }

  /** The rings that pass the consistency check. */
  ghost function PassingOf(mems: seq<Memory>): set<nat> {
    set k: nat | k < |mems| && mems[k].WellShaped() && AllAgree(mems[k])
  }

  class Supervisor {
    const region: SharedRegion
    const degradedRings: array<bool>
    var children: seq<Child>
    var nextGeneration: Half
    var stopRequested: bool
    ghost var log: seq<Act>

    ghost predicate Valid()
      reads this, degradedRings, region, region.ownership
      reads set r | r in region.rings, set r | r in region.rings :: r.cells
    {
      && region.Valid() && degradedRings.Length == MAX_WORKERS
      && forall i | 0 <= i < |children| && children[i].worker :: children[i].physicalWorker < MAX_WORKERS
    }

    /** The rings that pass the consistency check. */
    ghost function Passing(): set<nat>
      requires Valid()
      reads this, degradedRings, region, region.ownership
      reads set r | r in region.rings, set r | r in region.rings :: r.cells
    {
      PassingOf(RingMems())
    }

    ghost function View(): Supervision
      reads this, degradedRings, region.ownership
    {
      Supervision(region.ownership[..], children, nextGeneration, degradedRings[..], log)
    }

    /**
     A monitor, two hot workers and the standby are forked in turn; the first fork of a worker to fail
     requests a stop. Without a monitor the program ends before it supervises anything.
     */
    constructor (region: SharedRegion, monitor: int, pids: seq<int>)
      requires region.Valid() && monitor > 0 && |pids| == MAX_WORKERS
      ensures this.region == region && fresh(degradedRings) && Valid()
      ensures children == Launched(monitor, pids, FirstFailure(pids))
      ensures stopRequested <==> exists p :: p in pids && p < 0
      ensures !stopRequested ==> View() == Started(region.ownership[..], monitor, pids[0], pids[1], pids[2])
    {
      this.region := region;
      degradedRings := new bool[MAX_WORKERS](_ => false);
      children := [Child(monitor, UNASSIGNED, false, false, 0)];
      nextGeneration := 1;
      stopRequested := false;
      log := [];
      new;
      var i := 0;
      while i < MAX_WORKERS && !stopRequested
        modifies this`children, this`stopRequested
        invariant i <= FirstFailure(pids) && children == Launched(monitor, pids, i)
        invariant stopRequested ==> i == FirstFailure(pids) < |pids|
        decreases MAX_WORKERS - i, !stopRequested
      {
        if pids[i] < 0 {
          stopRequested := true;
        } else {
          children := children + [Child(pids[i], i, true, false, FIRST_GENERATION)];
          i := i + 1;
        }
      }
      assert degradedRings[..] == [false, false, false];
      if stopRequested {
        assert pids[FirstFailure(pids)] in pids;
      }
    }

    ghost function RingMems(): (m: seq<Memory>)
      requires Valid()
      reads this, degradedRings, region, region.ownership
      reads set r | r in region.rings, set r | r in region.rings :: r.cells
      ensures |m| == MAX_WORKERS
    {
      [region.rings[0].Mem(), region.rings[1].Mem(), region.rings[2].Mem()]
    }

    /** The rings are as they were. */
    ghost predicate SameRings(mems: seq<Memory>)
      requires Valid()
      reads this, degradedRings, region, region.ownership
      reads set r | r in region.rings, set r | r in region.rings :: r.cells
    {
      mems == RingMems()
    }

    method FindWorker(worker: nat) returns (r: Option<nat>)
      ensures r == Find(children, worker)
    {
      for i := 0 to |children|
        invariant Find(children, worker) == FindFrom(children, worker, i)
      {
        if children[i].worker && children[i].physicalWorker == worker && !children[i].handled {
          return Some(i);
        }
      }
      return None;
    }

    /** Whether the standby is running and owns no ring but its home. */
    method StandbyPromotable() returns (promotable: bool)
      requires Valid()
      ensures promotable <==> Promotable(View())
    {
      var standby := FindWorker(STANDBY);
      var ownedByStandby := region.OwnedLogicalRing(STANDBY);
      var busy := ownedByStandby.Some? && ownedByStandby.value != STANDBY;
      return standby.Some? && children[standby.value].pid > 0 && !busy;
    }

    /** The transfer to the standby; a ring that passed the check is left as it was. */
    method Promote(logical: nat, expected: OwnershipToken) returns (ok: bool)
      requires Valid() && logical < MAX_WORKERS && Readable(region.ownership[logical], logical)
      requires expected == TokenAt(region.ownership[logical]) && AllAgree(region.rings[logical].Mem())
      modifies this`log, region`integrityWord, region.ownership, region.rings[logical]
      ensures Valid() && SameRings(old(RingMems()))
      ensures var s := old(View());
        Outcome(View(), ok) ==
        if s.table[logical].epoch > TWO_TO_THE_64 - 3 then Outcome(s, false)
        else Outcome(s.(table := s.table[logical := Promoted(s.table[logical])],
                        log := s.log + [Transferred(logical)]), true)
    {
      ghost var before := region.ownership[..];
      ReadMatches(region.ownership[logical], logical);
      AcceptedNeedsNoRollback(region.rings[logical].Mem());
      var replacement;
      ok, replacement := region.TransferOwnership(logical, expected, STANDBY, FIRST_GENERATION, 0);
      if ok {
        assert region.ownership[..] == before[logical := Promoted(before[logical])];
        log := log + [Transferred(logical)];
      }
      forall j | 0 <= j < MAX_WORKERS && j != logical
        ensures region.rings[j].Mem() == old(region.rings[j].Mem())
      {
        assert region.rings[j] != region.rings[logical];
      }
    }

    /** Reads the crashed worker's ring's owner and checks the ring; false if the recovery must be refused. */
    method CheckRing(worker: nat, logical: nat) returns (passes: bool, expected: OwnershipToken)
      requires Valid() && worker < MAX_WORKERS && logical < MAX_WORKERS
               && OwnedBy(region.ownership[..], logical, worker)
      ensures passes <==> logical in Passing()
      ensures passes ==> AllAgree(region.rings[logical].Mem())
      ensures Readable(region.ownership[logical], logical) && expected == TokenAt(region.ownership[logical])
    {
      var readable;
      readable, expected := region.ReadOwnership(logical);
      passes := region.rings[logical].VerifyConsistent();
      passes := readable && expected.physicalOwner == worker && passes;
    }

    /** What recover_worker_crash does with the crashed worker's ring. Its own steps change no ring. */
    method ReassignRing(worker: nat, logical: nat) returns (ok: bool)
      requires Valid() && worker < MAX_WORKERS && logical < MAX_WORKERS
               && OwnedBy(region.ownership[..], logical, worker)
      modifies this`log, degradedRings, region`integrityWord, region.ownership, region.rings[logical]
      ensures Valid() && SameRings(old(RingMems()))
      ensures Outcome(View(), ok) == Reassign(old(View()), worker, logical, logical in old(Passing()))
    {
      var passes, expected := CheckRing(worker, logical);
      if !passes {
        return false;
      }
      var promotable := StandbyPromotable();
      if promotable {
        ok := Promote(logical, expected);
        return ok;
      }
      AnnounceDegraded(worker, logical);
      return true;
    }

    /** Without a promotable standby: the first time, the worker is marked and its ring announced. */
    method AnnounceDegraded(worker: nat, logical: nat)
      requires Valid() && worker < MAX_WORKERS
      modifies this`log, degradedRings
      ensures Valid()
      ensures var s := old(View());
        View() == if s.degraded[worker] then s
                  else s.(degraded := s.degraded[worker := true], log := s.log + [Degraded(logical)])
    {
      if !degradedRings[worker] {
        degradedRings[worker] := true;
        log := log + [Degraded(logical)];
      }
    }

    /** Crash recovery for any physical worker. Its own steps change no ring. */
    method RecoverWorkerCrash(worker: nat, pid: int) returns (ok: bool)
      requires Valid() && worker < MAX_WORKERS
      modifies this, degradedRings, region`integrityWord, region.ownership, set r | r in region.rings
      ensures Valid() && SameRings(old(RingMems()))
      ensures Outcome(View(), ok) == Recover(old(View()), worker, old(Passing()), pid)
    {
      var crashed := FindWorker(worker);
      if crashed.None? {
        return true;
      }
      ghost var before, passing := View(), Passing();
      children := children[crashed.value := children[crashed.value].(handled := true)];
      assert View() == Handle(before, crashed.value) && Passing() == passing;
      var owned := region.OwnedLogicalRing(worker);
      if owned.Some? {
        ok := ReassignRing(worker, owned.value);
        if !ok {
          return false;
        }
      }
      ok := Restart(worker, pid);
    }

    method Restart(worker: nat, pid: int) returns (ok: bool)
      requires Valid() && worker < MAX_WORKERS
      modifies this`nextGeneration, this`children
      ensures Valid() && Outcome(View(), ok) == Launch(old(View()), worker, pid)
    {
      nextGeneration := (nextGeneration + 1) % TWO_TO_THE_32;
      if pid < 0 {
        return false;
      }
      children := children + [Child(pid, worker, true, false, nextGeneration)];
      return true;
    }

    /** Waits for one child without blocking. */
    method Wait(index: nat, status: Status) returns (ok: bool)
      requires Valid() && index < |children|
      modifies this, degradedRings, region`integrityWord, region.ownership, set r | r in region.rings
      ensures Valid() && SameRings(old(RingMems())) && |children| >= old(|children|)
      ensures Outcome(View(), ok) == ReapOne(old(View()), index, ExitOf(status, old(Passing())))
    {
      var child := children[index];
      ok := true;
      match status {
        case StillRunning =>
        case ExitedClean =>
          if child.worker && child.pid > 0 && !child.handled {
            children := children[index := child.(pid := -1)];
            children := children[index := children[index].(handled := true)];
          }
        case Died(pid) =>
          if child.worker && child.pid > 0 && !child.handled {
            ghost var passing := Passing();
            children := children[index := child.(pid := -1)];
            assert Passing() == passing;
            RecoverKnows(View(), child.physicalWorker, passing, pid);
            ok := RecoverWorkerCrash(child.physicalWorker, pid);
          }
      }
    }

    /** The first index exits of a pass have been dealt with, and no ring has changed. */
    ghost predicate Reaped(start: Supervision, rings: seq<Memory>, exits: seq<Exit>, index: nat, ok: bool)
      reads this, degradedRings, region, region.ownership
      reads set r | r in region.rings, set r | r in region.rings :: r.cells
    {
      && Valid() && SameRings(rings) && index <= |exits|
      && Shaped(start) && KnownWorkers(start) && Outcome(View(), ok) == Reap(start, exits[..index])
    }

    /** Waits for every child without blocking, restarts added during the pass included. Its steps change no ring. */
    method ReapCrashedWorkers(statuses: seq<Status>) returns (ok: bool)
      requires Valid()
      modifies this, degradedRings, region`integrityWord, region.ownership, set r | r in region.rings
      ensures Valid() && SameRings(old(RingMems()))
      ensures Outcome(View(), ok) == Reap(old(View()), ExitsOf(statuses, old(Passing())))
      ensures NobodyDied(statuses) ==>
                && ok && View() == old(View()).(children := children)
                && CleanExitsOnly(old(children), Exited(statuses), children)
    {
      ghost var start, rings, exits := View(), RingMems(), ExitsOf(statuses, Passing());
      var index := 0;
      ok := true;
      while ok && index < |children| && index < |statuses|
        modifies this, degradedRings, region`integrityWord, region.ownership, set r | r in region.rings
        invariant Reaped(start, rings, exits, index, ok)
        decreases |statuses| - index, ok
      {
        ok := ReapAt(start, rings, exits, index, statuses[index]);
        index := index + 1;
      }
      if index < |statuses| {
        ReapRest(start, exits, index);
      } else {
        assert exits[..index] == exits;
      }
      NoDeaths(start, statuses, PassingOf(rings));
    }

    method ReapAt(ghost start: Supervision, ghost rings: seq<Memory>, ghost exits: seq<Exit>, index: nat,
                  status: Status)
      returns (ok: bool)
      requires Reaped(start, rings, exits, index, true) && index < |children| && index < |exits|
      requires exits[index] == ExitOf(status, PassingOf(rings))
      modifies this, degradedRings, region`integrityWord, region.ownership, set r | r in region.rings
      ensures Reaped(start, rings, exits, index + 1, ok)
    {
      assert exits[..index + 1] == exits[..index] + [exits[index]];
      ReapSnoc(start, exits[..index], exits[index]);
      ok := Wait(index, status);
    }
  }

  function Started(table: seq<RingOwnership>, monitor: int, a: int, b: int, standby: int): Supervision {
    Supervision(table, [Child(monitor, UNASSIGNED, false, false, 0), Child(a, 0, true, false, FIRST_GENERATION),
                  Child(b, 1, true, false, FIRST_GENERATION), Child(standby, STANDBY, true, false, FIRST_GENERATION)],
          1, [false, false, false], [])
  }

  /** A recovery never shrinks the list of children and knows every worker it launches. */
  lemma RecoverKnows(s: Supervision, worker: nat, passing: set<nat>, pid: int)
    requires Shaped(s) && KnownWorkers(s) && worker < MAX_WORKERS
    ensures var s' := Recover(s, worker, passing, pid).state;
      Shaped(s') && KnownWorkers(s') && |s'.children| >= |s.children|
  {
  }

  lemma ReapOneKnows(s: Supervision, i: nat, exit: Exit)
    requires Shaped(s) && KnownWorkers(s) && i < |s.children|
    ensures var s' := ReapOne(s, i, exit).state;
      Shaped(s') && KnownWorkers(s') && |s'.children| >= |s.children|
  {
    var child := s.children[i];
    if Waited(child) && exit.Crashed? {
      RecoverKnows(s.(children := s.children[i := child.(pid := -1)]), child.physicalWorker, exit.passing, exit.pid);
    }
  }
}
