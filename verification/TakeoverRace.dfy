/**
 The rollback of a transfer, load by load, racing the new owner: the ownership record and the ring side by
 side. The transfer publishes the new epoch first and rolls back afterwards, so the new owner may pass its
 check and claim a position in between.
 */
module TakeoverRace {
  import opened Words
  import Own = OwnershipProtocol
  import opened RingProtocol
  import opened RingTheorems
  import opened RingBuffer
  import opened RingFifo
  import opened Takeover

  // ----- the two protocols side by side -----

  /** The thread that makes the transfers; all others publish or consume. */
  const SUPERVISOR: nat := 0

  /** Where the rollback of the current transfer stands. */
  datatype Roll =
    | Resting             // no transfer has published since the last rollback ended
    | AtTail              // the new epoch is published; about to load tail
    | AtHead(tail: Word)  // about to load head
    | AtSlot(prior: Word) // loaded tail prior + 1 above head, about to load the slot's sequence
    | AtSwap(prior: Word) // saw ready(prior), about to swap tail

  datatype Joint = Joint(
    own: Own.State,
    ring: State,
    roll: Roll,
    called: set<nat>,     // workers that have called push since their last check
    given: seq<nat>)      // the positions that rollbacks gave back
  {
    function Mem(): Memory { ring.ring.mem }
  }

  datatype JointAction = OwnStep(o: Own.Action) | RingStep(r: Action) | RollStep(spurious: bool)

  /** A worker pushes once after each check it passes; the supervisor ends a rollback before it goes on. */
  ghost predicate CanStep(j: Joint, a: JointAction)
    requires j.Mem().WellShaped()
  {
    match a
    case OwnStep(o) =>
      && Own.Enabled(j.own, o)
      && (match o
          case StartTransfer(t, _) => t == SUPERVISOR && j.roll == Resting
          case StartRead(t) => t != SUPERVISOR
          case StartWorker(t, _) => t != SUPERVISOR
          case Advance(t) =>
            && (t == SUPERVISOR ==> j.roll == Resting)
            && (j.own.PcOf(t).Publish? ==> t in j.called && j.ring.PcOf(t) == Idle))
    case RingStep(r) => Enabled(j.ring, r) && (r.CallPush? ==> j.own.PcOf(r.t).Publish? && r.t !in j.called)
    case RollStep(_) => j.roll != Resting
  }

  /** One step of the rollback. */
  function RollOn(j: Joint, spurious: bool): Joint
    requires j.Mem().WellShaped()
  {
    var mem := j.Mem();
    match j.roll
    case Resting => j
    case AtTail => j.(roll := AtHead(mem.tail))
    case AtHead(tail) => if tail <= mem.head then j.(roll := Resting) else j.(roll := AtSlot(tail - 1))
    case AtSlot(prior) => if mem.At(prior).sequence != prior then j.(roll := Resting) else j.(roll := AtSwap(prior))
    case AtSwap(prior) =>
      if mem.tail == prior + 1 && !spurious then
        j.(roll := Resting, ring := GiveBack(j.ring, prior), given := j.given + [prior])
      else j.(roll := AtTail)
  }

  /** tail goes back to prior; the log keeps what was claimed there. */
  function GiveBack(s: State, prior: Word): State {
    s.(ring := s.ring.(mem := s.ring.mem.(tail := prior)))
  }

  ghost function Go(j: Joint, a: JointAction): Joint
    requires j.Mem().WellShaped() && CanStep(j, a)
  {
    match a
    case OwnStep(o) =>
      j.(own := Own.Apply(j.own, o),
         roll := if o == Own.Advance(SUPERVISOR) && j.own.PcOf(SUPERVISOR).Release? then AtTail else j.roll,
         called := if o.Advance? && j.own.PcOf(o.t).Publish? then j.called - {o.t} else j.called)
    case RingStep(r) =>
      j.(ring := Apply(j.ring, r), called := if r.CallPush? then j.called + {r.t} else j.called)
    case RollStep(spurious) => RollOn(j, spurious)
  }

  ghost predicate Start(j: Joint) {
    Own.Initial(j.own) && Initial(j.ring) && j.roll == Resting && j.called == {} && j.given == []
  }

  /** The actions, in order, lead from j to j', with every position below 2^63. */
  ghost predicate Leads(j: Joint, actions: seq<JointAction>, j': Joint)
    decreases |actions|
  {
    && j.Mem().WellShaped() && Bounded(j.Mem())
    && if actions == [] then j' == j else CanStep(j, actions[0]) && Leads(Go(j, actions[0]), actions[1..], j')
  }

  ghost predicate JointReachable(j: Joint) {
    exists start, actions :: Start(start) && Leads(start, actions, j)
  }

  // ----- until a position is given back, the ring is an ordinary one -----

  /** What the rollback has loaded was tail at some time. */
  predicate RollOk(j: Joint) {
    match j.roll
    case Resting => true
    case AtTail => true
    case AtHead(tail) => tail <= j.Mem().tail
    case AtSlot(prior) => prior < j.Mem().tail
    case AtSwap(prior) => prior < j.Mem().tail
  }

  /** Whoever is inside a push passed its ownership check for it. */
  ghost predicate Checked(j: Joint) {
    forall t | InPush(j.ring.PcOf(t)) :: j.own.PcOf(t).Publish? && t in j.called
  }

  ghost predicate JointInv(j: Joint) {
    Inv(j.ring) && Own.Inv(j.own) && RollOk(j) && Checked(j)
  }

  lemma StartInv(j: Joint)
    requires Start(j)
    ensures JointInv(j)
  {
    Own.InitialInv(j.own);
    InitialInv(j.ring);
  }

  lemma OwnStepKeeps(j: Joint, o: Own.Action)
    requires JointInv(j) && CanStep(j, OwnStep(o))
    ensures JointInv(Go(j, OwnStep(o)))
  {
    Own.StepKeeps(j.own, o);
    var j' := Go(j, OwnStep(o));
    forall t | InPush(j'.ring.PcOf(t))
      ensures j'.own.PcOf(t).Publish? && t in j'.called
    {
      assert j.own.PcOf(t).Publish? && t in j.called;
      OthersStand(j.own, o, t);
    }
  }

  /** A step of the ownership protocol moves the thread that takes it and no other. */
  lemma OthersStand(s: Own.State, o: Own.Action, t: nat)
    requires o.t != t
    ensures Own.Apply(s, o).PcOf(t) == s.PcOf(t)
  {
    if o.Advance? {
      match s.PcOf(o.t)
      case Idle =>
      case Stopped =>
      case ReadEpoch(_) =>
      case ReadWord(_, _) =>
      case ReadAgain(_, _, _) =>
      case Publish(_) =>
      case LoadEpoch(_) =>
      case SwapEpoch(_) =>
      case SwapWord(_) =>
      case Restore(_) =>
      case Release(_) =>
    }
  }

  /** Who may be inside a push after a step of the ring: those who were, and a caller. */
  lemma PushersAfter(s: State, r: Action, t: nat)
    requires s.ring.mem.WellShaped() && Enabled(s, r) && InPush(Apply(s, r).PcOf(t))
    ensures InPush(s.PcOf(t)) || (r.CallPush? && r.t == t)
  {
    if r.Advance? {
      if InPush(s.PcOf(r.t)) {
        PushFrame(s, r.t, r.spurious);
      } else {
        PopStaysOutside(s, r.t, r.spurious);
      }
    }
  }

  lemma PopStaysOutside(s: State, t: nat, spurious: bool)
    requires s.ring.mem.WellShaped() && s.PcOf(t) != Idle && !InPush(s.PcOf(t))
    ensures var s' := AdvancePop(s, t, spurious);
      !InPush(s'.PcOf(t)) && forall u | u != t :: s'.PcOf(u) == s.PcOf(u)
  {
    PopFrame(s, t, spurious);
    match s.PcOf(t)
    case PopStart(_) =>
    case PopAt(_, _) =>
    case PopReady(_, _) =>
    case PopClaimed(_, _) =>
    case PopGood(_, _) =>
    case PopCopied(_, _) =>
    case PopBad(_) =>
    case PopUncounted(_) =>
    case _ =>
  }

  lemma RingStepKeeps(j: Joint, r: Action)
    requires JointInv(j) && CanStep(j, RingStep(r)) && Bounded(Go(j, RingStep(r)).Mem())
    ensures JointInv(Go(j, RingStep(r)))
  {
    var j' := Go(j, RingStep(r));
    StepKeeps(j.ring, r);
    StepRefinesFifo(j.ring, r);
    assert j.Mem().tail <= j'.Mem().tail;
    forall t | InPush(j'.ring.PcOf(t))
      ensures j'.own.PcOf(t).Publish? && t in j'.called
    {
      PushersAfter(j.ring, r, t);
    }
  }

  lemma RollChanges(j: Joint, spurious: bool)
    requires j.Mem().WellShaped() && RollOk(j) && RollOn(j, spurious).given == j.given
    ensures var j' := RollOn(j, spurious);
      j'.own == j.own && j'.ring == j.ring && j'.called == j.called && RollOk(j')
  {
    if j.roll.AtSwap? {
      assert |j.given + [j.roll.prior]| == |j.given| + 1;
    }
  }

  lemma RollStepKeeps(j: Joint, spurious: bool)
    requires JointInv(j) && RollOn(j, spurious).given == j.given
    ensures JointInv(RollOn(j, spurious)) && RollOn(j, spurious).ring == j.ring
  {
    RollChanges(j, spurious);
  }

  lemma GoKeeps(j: Joint, a: JointAction)
    requires JointInv(j) && CanStep(j, a) && Bounded(Go(j, a).Mem()) && Go(j, a).given == j.given
    ensures JointInv(Go(j, a))
  {
    match a
    case OwnStep(o) => OwnStepKeeps(j, o);
    case RingStep(r) => RingStepKeeps(j, r);
    case RollStep(spurious) => RollStepKeeps(j, spurious);
  }

  lemma {:induction false} GivenGrows(j: Joint, actions: seq<JointAction>, j': Joint)
    requires Leads(j, actions, j')
    ensures j.given <= j'.given
    decreases |actions|
  {
    if actions != [] {
      GivenGrows(Go(j, actions[0]), actions[1..], j');
    }
  }

  /** A run that gives nothing back keeps the invariant, loses no log entry, and undoes no commit. */
  lemma {:induction false} RunStaysClean(j: Joint, actions: seq<JointAction>, j': Joint)
    requires JointInv(j) && Leads(j, actions, j') && j'.given == j.given
    ensures JointInv(j') && forall p: nat | j.ring.Committed(p) :: j'.ring.Committed(p)
    decreases |actions|
  {
    if actions != [] {
      var next := Go(j, actions[0]);
      GivenGrows(next, actions[1..], j');
      assert j.given <= next.given <= j.given;
      GoKeeps(j, actions[0]);
      RunStaysClean(next, actions[1..], j');
      CommitsStay(j, actions[0]);
    }
  }

  lemma CommitsStay(j: Joint, a: JointAction)
    requires JointInv(j) && CanStep(j, a) && Go(j, a).given == j.given
    ensures forall p: nat | j.ring.Committed(p) :: Go(j, a).ring.Committed(p)
  {
    match a
    case OwnStep(_) =>
    case RingStep(r) => StepKeepsCommits(j.ring, r);
    case RollStep(spurious) => RollStepKeeps(j, spurious);
  }

  /** What is committed stays committed. */
  lemma StepKeepsCommits(s: State, r: Action)
    requires Inv(s) && Enabled(s, r)
    ensures forall p: nat | s.Committed(p) :: Apply(s, r).Committed(p)
  {
    match r
    case CallPush(t, _, _) =>
    case CallPop(t, _) =>
    case Corrupt(_, _, _, _) =>
    case Advance(t, spurious) =>
      if InPush(s.PcOf(t)) {
        PushKeepsCommits(s, t, spurious);
      } else {
        PopFrame(s, t, spurious);
        PopStaysOutside(s, t, spurious);
      }
  }

  lemma PushKeepsCommits(s: State, t: nat, spurious: bool)
    requires Inv(s) && InPush(s.PcOf(t))
    ensures forall p: nat | s.Committed(p) :: AdvancePush(s, t, spurious).Committed(p)
  {
    var s' := AdvancePush(s, t, spurious);
    PushClaimsOne(s, t, spurious);
    PushFrame(s, t, spurious);
    forall p: nat | s.Committed(p)
      ensures s'.Committed(p)
    {
      assert s'.ring.log[p] == s.ring.log[p];
    }
  }

  lemma CleanInv(j: Joint)
    requires JointReachable(j) && j.given == []
    ensures JointInv(j)
  {
    var start, actions :| Start(start) && Leads(start, actions, j);
    StartInv(start);
    RunStaysClean(start, actions, j);
  }

  // ----- when a position is given back -----

  /** The slot below the loaded tail reads ready exactly while its position is claimed and uncommitted. */
  lemma ReadyMeansUncommitted(s: State, prior: nat)
    requires Inv(s) && prior < s.ring.mem.tail
    ensures s.ring.mem.At(prior).sequence == prior <==> s.Producing(prior)
  {
    SequenceAtLeast(s, prior);
    if prior >= s.ring.mem.head {
      assert s.ring.mem.At(prior).sequence == if s.Producing(prior) then prior else prior + 1;
    }
  }

  /**
   From the load of the slot's sequence on, whatever everyone else does in the meantime: the rollback takes
   the position back exactly if the position was uncommitted at that load and tail is as it was loaded at
   the swap.
   */
  lemma TakesBackExactly(j: Joint, actions: seq<JointAction>, j': Joint, prior: Word)
    requires JointInv(j) && j.roll == AtSlot(prior)
    requires Leads(RollOn(j, false), actions, j') && forall a | a in actions :: !a.RollStep?
    ensures j'.Mem().WellShaped()
    ensures var after := RollOn(j', false);
      if j.ring.Producing(prior) && j'.Mem().tail == prior + 1 then
        after.given == j.given + [prior] && after.ring == GiveBack(j'.ring, prior)
      else after.given == j.given && after.ring == j'.ring
  {
    ReadyMeansUncommitted(j.ring, prior);
    RollRests(RollOn(j, false), actions, j');
  }

  /** Once it has begun, only the rollback's own steps move it; before, the others can only publish. */
  lemma {:induction false} RollRests(j: Joint, actions: seq<JointAction>, j': Joint)
    requires Leads(j, actions, j') && forall a | a in actions :: !a.RollStep?
    ensures j'.Mem().WellShaped() && j'.given == j.given
    ensures if j.roll in {Resting, AtTail} then j'.roll in {Resting, AtTail} else j'.roll == j.roll
    decreases |actions|
  {
    if actions != [] {
      assert actions[0] in actions;
      RollRests(Go(j, actions[0]), actions[1..], j');
    }
  }

  // ----- what giving it back does -----

  /**
   At the swap the position's claim is still uncommitted, and then the swap is the repair as one step; or it
   has been committed since the load, and then the swap takes a record back that its producer was told is in,
   and leaves a ring that fails the check.
   */
  lemma WhatIsGivenBack(s: State, prior: Word)
    requires Inv(s) && s.ring.mem.tail == prior + 1
    ensures var mem, mem' := s.ring.mem, GiveBack(s, prior).ring.mem;
      && (s.Producing(prior) <==> mem' == RolledBack(mem))
      && (s.Committed(prior) <==> !s.Producing(prior))
      && (s.Committed(prior) ==> !Consistent(mem') && StoredOrTaken(s, prior))
  {
    ReadyMeansUncommitted(s, prior);
    RollbackGuard(s);
    var mem := s.ring.mem;
    if s.Producing(prior) {
      assert mem.head <= prior;
    } else {
      CommittedIsOff(s, prior);
    }
  }

  /** The record given back is still there to be consumed, or has been consumed already. */
  ghost predicate StoredOrTaken(s: State, prior: nat)
    requires s.ring.mem.WellShaped() && prior < |s.ring.log|
  {
    if s.ring.mem.head <= prior then Stored(s.ring, prior) else s.ring.mem.head == prior + 1
  }

  lemma CommittedIsOff(s: State, prior: nat)
    requires Inv(s) && s.ring.mem.tail == prior + 1 && s.Committed(prior)
    ensures !Consistent(s.ring.mem.(tail := prior)) && StoredOrTaken(s, prior)
  {
    var mem := s.ring.mem;
    var mem' := mem.(tail := prior);
    if mem.head <= prior {
      assert mem'.At(prior) == mem.At(prior) && mem.At(prior).sequence == prior + 1 && Marker(prior, prior) == prior;
    }
  }

  /**
   If nothing was claimed and uncommitted when the new epoch was published, as the check made before the
   transfer sees to, then whatever a rollback finds uncommitted was claimed after the publication, by a worker
   that has passed its ownership check and is still in its push: it repairs nothing.
   */
  lemma OnlyLiveClaims(j: Joint, actions: seq<JointAction>, j': Joint, prior: Word)
    requires JointInv(j) && Leads(j, actions, j') && j'.given == j.given
    requires forall p: nat :: !j.ring.Producing(p)
    requires j'.roll == AtSlot(prior) && j'.ring.Producing(prior)
    ensures JointInv(j') && j.Mem().tail <= prior < |j'.ring.ring.log|
    ensures j'.own.PcOf(j'.ring.ring.log[prior].producer).Publish?
  {
    RunStaysClean(j, actions, j');
    assert prior < j.Mem().tail ==> j.ring.Committed(prior);
    assert InPush(j'.ring.PcOf(j'.ring.ring.log[prior].producer));
  }

  // ----- a rollback that nobody disturbs -----

  lemma RollsThen(j: Joint, rest: seq<JointAction>, j': Joint)
    requires j.Mem().WellShaped() && Bounded(j.Mem()) && j.roll != Resting && Leads(RollOn(j, false), rest, j')
    ensures Leads(j, [RollStep(false)] + rest, j')
  {
    assert ([RollStep(false)] + rest)[1..] == rest;
  }

  lemma RollsOnce(j: Joint) returns (actions: seq<JointAction>, j': Joint)
    requires j.Mem().WellShaped() && Bounded(j.Mem()) && j.roll != Resting
    requires var mem := RollOn(j, false).Mem(); mem.WellShaped() && Bounded(mem)
    ensures actions == [RollStep(false)] && j' == RollOn(j, false) && Leads(j, actions, j')
  {
    j' := RollOn(j, false);
    assert Leads(j', [], j');
    RollsThen(j, [], j');
    actions := [RollStep(false)] + [];
  }

  /** From the load of the slot's sequence on. */
  lemma SlotThenSwap(j: Joint, prior: Word) returns (actions: seq<JointAction>, j': Joint)
    requires j.Mem().WellShaped() && Bounded(j.Mem()) && j.roll == AtSlot(prior) && j.Mem().tail == prior + 1
    ensures Leads(j, actions, j') && |actions| <= 2 && forall a | a in actions :: a == RollStep(false)
    ensures j'.roll == Resting && j'.own == j.own
    ensures j'.Mem() == if j.Mem().At(prior).sequence == prior then j.Mem().(tail := prior) else j.Mem()
  {
    var j1 := RollOn(j, false);
    if j1.roll == Resting {
      actions, j' := RollsOnce(j);
    } else {
      var rest;
      rest, j' := RollsOnce(j1);
      RollsThen(j, rest, j');
      actions := [RollStep(false)] + rest;
    }
  }

  /** Run alone, the loads and the swap of the rollback end, and do what the repair as one step does. */
  lemma LoneRollBack(j: Joint) returns (actions: seq<JointAction>, j': Joint)
    requires j.Mem().WellShaped() && Bounded(j.Mem()) && j.roll == AtTail
    ensures Leads(j, actions, j') && |actions| <= 4 && forall a | a in actions :: a == RollStep(false)
    ensures j'.roll == Resting && j'.own == j.own && j'.Mem() == RolledBack(j.Mem())
  {
    var j1 := RollOn(j, false);
    var j2 := RollOn(j1, false);
    if j2.roll == Resting {
      actions, j' := RollsOnce(j1);
    } else {
      var rest;
      rest, j' := SlotThenSwap(j2, j.Mem().tail - 1);
      RollsThen(j1, rest, j');
      actions := [RollStep(false)] + rest;
    }
    RollsThen(j, actions, j');
    actions := [RollStep(false)] + actions;
  }
}
