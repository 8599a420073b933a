/** The repair a takeover makes on the ring: an abandoned claim at tail - 1 is given back. */
module Takeover {
  import opened Words
  import opened Crc32c
  import opened RingProtocol
  import opened RingBuffer

  /** The ring once the position below tail is given back if its slot still reads ready. */
  function RolledBack(mem: Memory): Memory
    requires mem.WellShaped()
  {
    if mem.head < mem.tail && mem.At(mem.tail - 1).sequence == mem.tail - 1 then mem.(tail := mem.tail - 1)
    else mem
  }

  /** The repair loop. A weak swap may fail spuriously any number of times. */
  method RollBack(ring: LockFreeRingBuffer, spurious: nat)
    requires ring.Shaped()
    modifies ring`tail
    ensures ring.Mem() == RolledBack(old(ring.Mem()))
  {
    var failures := spurious;
    while true
      invariant ring.Mem() == old(ring.Mem())
      decreases failures
    {
      var tail, head := ring.tail, ring.head;
      if tail <= head {
        return;
      }
      var prior := tail - 1;
      var sequence := ring.cells[Index(prior, ring.cells.Length)].sequence;
      assert sequence == ring.Mem().At(prior).sequence;
      if sequence != prior {
        return;
      }
      if failures == 0 {
        ring.tail := prior;
        return;
      }
      failures := failures - 1;
    }
  }

  // ----- when the repair is right -----

  /** A ring that passes the consistency check, wrapped or not, is left alone by the repair. */
  lemma AcceptedNeedsNoRollback(mem: Memory)
    requires mem.WellShaped() && AllAgree(mem)
    ensures RolledBack(mem) == mem
  {
    if mem.head < mem.tail {
      var p, n := mem.tail - 1, |mem.cells|;
      WindowIndex(p, mem.head, n);
      SlotOfWindow(mem, Index(p, n));
      SlotAgreement(mem.cells[Index(p, n)].sequence, Index(p, n), mem.head, mem.tail, n);
    }
  }

  /** Nothing is in flight except possibly the newest claim. */
  ghost predicate OnlyNewestClaim(s: State) {
    && (forall p: nat :: !s.Consuming(p))
    && (forall p: nat | s.Producing(p) :: p == s.ring.mem.tail - 1)
  }

  /** The repaired ring passes the consistency check exactly when only the newest claim was in flight. */
  lemma RollbackRepairs(s: State)
    requires Reachable(s)
    ensures s.ring.mem.WellShaped()
    ensures Consistent(RolledBack(s.ring.mem)) <==> OnlyNewestClaim(s)
  {
    ReachableInv(s);
    if Consistent(RolledBack(s.ring.mem)) {
      RepairedMeansNewest(s);
    }
    if OnlyNewestClaim(s) {
      NewestIsRepaired(s);
    }
  }

  /** The rollback happens exactly when the newest position is claimed and uncommitted. */
  lemma RollbackGuard(s: State)
    requires Inv(s)
    ensures RolledBack(s.ring.mem) ==
              if s.ring.mem.head < s.ring.mem.tail && s.Producing(s.ring.mem.tail - 1)
              then s.ring.mem.(tail := s.ring.mem.tail - 1) else s.ring.mem
  {
    var mem := s.ring.mem;
    if mem.head < mem.tail {
      assert mem.At(mem.tail - 1).sequence == if s.Producing(mem.tail - 1) then mem.tail - 1 else mem.tail;
    }
  }

  lemma NewestIsRepaired(s: State)
    requires Inv(s) && OnlyNewestClaim(s)
    ensures Consistent(RolledBack(s.ring.mem))
  {
    RollbackGuard(s);
    var mem, mem' := s.ring.mem, RolledBack(s.ring.mem);
    forall p: nat | mem.head <= p < mem.head + |mem.cells|
      ensures mem'.At(p).sequence == Marker(p, mem'.tail)
    {
      assert mem'.At(p) == mem.At(p);
      if p < mem.tail {
        assert s.Producing(p) ==> p == mem.tail - 1;
      }
    }
  }

  /** Any other claim in flight survives the rollback and shows. */
  lemma OtherClaimShows(s: State, p: nat)
    requires Inv(s) && (s.Consuming(p) || (s.Producing(p) && p != s.ring.mem.tail - 1))
    ensures !Consistent(RolledBack(s.ring.mem))
  {
    RollbackGuard(s);
    var mem, mem', n := s.ring.mem, RolledBack(s.ring.mem), |s.ring.mem.cells|;
    if s.Consuming(p) {
      assert mem'.At(p + n) == mem.At(p + n) && mem.At(p + n).sequence == p + 1;
    } else {
      assert mem'.At(p) == mem.At(p) && mem.At(p).sequence == p;
    }
  }

  lemma RepairedMeansNewest(s: State)
    requires Inv(s) && Consistent(RolledBack(s.ring.mem))
    ensures OnlyNewestClaim(s)
  {
    forall p: nat
      ensures s.Consuming(p) || (s.Producing(p) && p != s.ring.mem.tail - 1) ==> !Consistent(RolledBack(s.ring.mem))
    {
      if s.Consuming(p) || (s.Producing(p) && p != s.ring.mem.tail - 1) {
        OtherClaimShows(s, p);
      }
    }
  }

  /** head and every committed record are as they were, and tail stands just past the last committed one. */
  lemma RollbackKeepsRecords(s: State)
    requires Reachable(s) && OnlyNewestClaim(s)
    ensures s.ring.mem.WellShaped()
    ensures var mem, mem' := s.ring.mem, RolledBack(s.ring.mem);
      && mem'.head == mem.head && mem'.cells == mem.cells && mem'.corruption == mem.corruption
      && mem.head <= mem'.tail
      && Records(mem') == Records(mem)[..mem'.tail - mem.head]
      && (forall p: nat | mem.head <= p < mem'.tail :: s.Committed(p) && Stored(s.ring, p))
      && (mem'.tail < mem.tail ==> mem'.tail == mem.tail - 1 && !s.Committed(mem'.tail))
  {
    ReachableInv(s);
    RolledBackRecords(s.ring.mem);
    RemainingCommitted(s);
  }

  lemma RemainingCommitted(s: State)
    requires Inv(s) && OnlyNewestClaim(s)
    ensures var mem, mem' := s.ring.mem, RolledBack(s.ring.mem);
      && (forall p: nat | mem.head <= p < mem'.tail :: s.Committed(p) && Stored(s.ring, p))
      && (mem'.tail < mem.tail ==> mem'.tail == mem.tail - 1 && !s.Committed(mem'.tail))
  {
    RollbackGuard(s);
    forall p: nat | s.ring.mem.head <= p < RolledBack(s.ring.mem).tail
      ensures s.Committed(p) && Stored(s.ring, p)
    {
      CommittedBelow(s, p);
    }
  }

  lemma CommittedBelow(s: State, p: nat)
    requires Inv(s) && OnlyNewestClaim(s) && s.ring.mem.head <= p < s.ring.mem.tail
    requires p < s.ring.mem.tail - 1 || !s.Producing(p)
    ensures s.Committed(p) && Stored(s.ring, p)
  {
  }

  /** The records that remain are the oldest ones, unchanged. */
  lemma RolledBackRecords(mem: Memory)
    requires mem.WellShaped() && mem.head <= mem.tail
    ensures var mem' := RolledBack(mem);
      mem.head <= mem'.tail && Records(mem') == Records(mem)[..mem'.tail - mem.head]
  {
    assert forall p: nat :: RolledBack(mem).At(p) == mem.At(p);
  }

  // ----- one dead producer leaves at most the newest claim -----

  /** A thread that still owns a claimed position has claimed nothing after it. */
  ghost predicate ClaimIsLatest(s: State) {
    forall p: nat, q | s.Producing(p) && p < q < |s.ring.log| :: s.ring.log[q].producer != s.ring.log[p].producer
  }

  /** A step that adds at most one claim, by the thread that then stands on it. */
  lemma LatestFrame(s: State, s': State, t: nat)
    requires ClaimIsLatest(s)
    requires forall u | u != t :: s'.PcOf(u) == s.PcOf(u)
    requires || (s'.ring.log == s.ring.log && forall p: nat | s'.PcOf(t).OwnsForPush(p) :: s.PcOf(t).OwnsForPush(p))
             || (exists e :: s'.ring.log == s.ring.log + [e] && e.producer == t && s'.PcOf(t).OwnsForPush(|s.ring.log|))
    ensures ClaimIsLatest(s')
  {
    forall p: nat, q | s'.Producing(p) && p < q < |s'.ring.log|
      ensures s'.ring.log[q].producer != s'.ring.log[p].producer
    {
      if q < |s.ring.log| {
        assert s'.ring.log[p] == s.ring.log[p] && s'.ring.log[q] == s.ring.log[q];
        assert s.ring.log[p].producer == t && p != |s.ring.log| ==> s'.PcOf(t).OwnsForPush(p);
        assert s.Producing(p);
      }
    }
  }

  lemma PushKeepsLatest(s: State, t: nat, spurious: bool)
    requires Inv(s) && ClaimIsLatest(s)
    ensures ClaimIsLatest(AdvancePush(s, t, spurious))
  {
    PushClaimsOne(s, t, spurious);
    LatestFrame(s, AdvancePush(s, t, spurious), t);
  }

  /** A producer's step claims nothing, or the next position for the thread that then stands on it. */
  lemma PushClaimsOne(s: State, t: nat, spurious: bool)
    requires s.ring.mem.WellShaped() && |s.ring.log| == s.ring.mem.tail
    ensures var s' := AdvancePush(s, t, spurious);
      && (s'.threads == s.threads || s'.threads == s.threads[t := s'.PcOf(t)])
      && (|| (s'.ring.log == s.ring.log && forall p: nat | s'.PcOf(t).OwnsForPush(p) :: s.PcOf(t).OwnsForPush(p))
          || (exists e :: s'.ring.log == s.ring.log + [e] && e.producer == t && s'.PcOf(t).OwnsForPush(|s.ring.log|)))
  {
    var s' := AdvancePush(s, t, spurious);
    match s.PcOf(t)
    case PushStart(_, _) =>
    case PushAt(_, _, _) =>
    case PushReady(value, tag, _) =>
      if s'.ring.log != s.ring.log {
        assert s'.ring.log == s.ring.log + [Entry(t, value, tag)];
      }
    case PushClaimed(_, _, _) =>
    case PushFilled(_, _, _) =>
    case PushTagged(_, _, _) =>
    case _ =>
  }

  /** A consumer's step claims nothing for a producer. */
  lemma PopClaimsNothing(s: State, t: nat, spurious: bool)
    requires s.ring.mem.WellShaped()
    ensures var s' := AdvancePop(s, t, spurious);
      && s'.ring.log == s.ring.log
      && (s'.threads == s.threads || s'.threads == s.threads[t := s'.PcOf(t)])
      && (s'.PcOf(t) == s.PcOf(t) || forall p: nat :: !s'.PcOf(t).OwnsForPush(p))
  {
    match s.PcOf(t)
    case PopStart(_) =>
    case PopAt(_, _) =>
    case PopReady(_, _) =>
    case PopClaimed(_, _) =>
    case PopGood(_, _) =>
    case PopCopied(_, _) =>
    case PopBad(_) =>
    case PopUncounted(_) =>
    case _ =>
  }

  lemma PopKeepsLatest(s: State, t: nat, spurious: bool)
    requires s.ring.mem.WellShaped() && ClaimIsLatest(s)
    ensures ClaimIsLatest(AdvancePop(s, t, spurious))
  {
    PopClaimsNothing(s, t, spurious);
    LatestFrame(s, AdvancePop(s, t, spurious), t);
  }

  lemma StepKeepsLatest(s: State, a: Action)
    requires Inv(s) && Enabled(s, a) && ClaimIsLatest(s)
    ensures ClaimIsLatest(Apply(s, a))
  {
    match a
    case Advance(t, spurious) =>
      PushKeepsLatest(s, t, spurious);
      PopKeepsLatest(s, t, spurious);
    case CallPush(t, _, _) => LatestFrame(s, Apply(s, a), t);
    case CallPop(t, _) => LatestFrame(s, Apply(s, a), t);
    case Corrupt(_, _, _, _) => LatestFrame(s, Apply(s, a), 0);
  }

  lemma {:induction false} RunKeepsLatest(s: State, actions: seq<Action>, s': State)
    requires Inv(s) && ClaimIsLatest(s) && Executes(s, actions, s')
    ensures ClaimIsLatest(s')
    decreases |actions|
  {
    if actions != [] {
      StepKeeps(s, actions[0]);
      StepKeepsLatest(s, actions[0]);
      RunKeepsLatest(Apply(s, actions[0]), actions[1..], s');
    }
  }

  /** In every reachable state. */
  lemma ReachableLatest(s: State)
    requires Reachable(s)
    ensures ClaimIsLatest(s)
  {
    var start, actions :| Initial(start) && Executes(start, actions, s);
    InitialInv(start);
    RunKeepsLatest(start, actions, s);
  }

  /**
   If the one thread with anything in flight is a producer t, wherever in its push it died, and no other
   producer claimed after it, then the takeover leaves a ring that passes the consistency check.
   */
  lemma TakeoverRepairs(s: State, t: nat)
    requires Reachable(s)
    requires forall u, p: nat :: !s.PcOf(u).OwnsForPop(p) && (u != t ==> !s.PcOf(u).OwnsForPush(p))
    requires forall p: nat | s.PcOf(t).OwnsForPush(p) :: s.ring.log != [] && s.ring.log[|s.ring.log| - 1].producer == t
    ensures s.ring.mem.WellShaped() && Consistent(RolledBack(s.ring.mem))
  {
    ReachableInv(s);
    ReachableLatest(s);
    forall p: nat | s.Producing(p)
      ensures p == s.ring.mem.tail - 1
    {
      assert s.ring.log[p].producer == t;
    }
    RollbackRepairs(s);
  }

  // ----- why the producer must be dead -----

  /**
   If the producer of the newest claim is alive after all and commits after the rollback, the slot
   below reads committed for the position at tail: the ring fails the check, and a push that looks
   there neither claims it nor gives up, but starts over.
   */
  lemma LiveClaimBreaks(s: State, t: nat, u: nat, value: seq<Byte>)
    requires Reachable(s) && s.PcOf(t).PushTagged? && s.PcOf(t).pos == s.ring.mem.tail - 1
    requires t != u && s.PcOf(u) == PushAt(value, 0, s.ring.mem.tail - 1)
    ensures s.ring.mem.WellShaped()
    ensures var repaired := s.(ring := s.ring.(mem := RolledBack(s.ring.mem)));
      var late := AdvancePush(repaired, t, false);
      && late.ring.mem.WellShaped() && !Consistent(late.ring.mem)
      && late.PcOf(u) == PushAt(value, 0, late.ring.mem.tail)
      && AdvancePush(late, u, false) == late.Move(u, PushStart(value, 0))
  {
    ReachableInv(s);
    var mem, pos := s.ring.mem, s.ring.mem.tail - 1;
    assert ThreadOk(s.ring, t, s.threads[t]);
    assert s.Producing(pos) && mem.head <= pos;
    RollbackGuard(s);
    var repaired := s.(ring := s.ring.(mem := RolledBack(mem)));
    LateCommit(repaired, t, pos);
    CommittedAtTail(AdvancePush(repaired, t, false), u, value, pos);
  }

  lemma LateCommit(s: State, t: nat, pos: nat)
    requires s.ring.mem.WellShaped() && s.PcOf(t).PushTagged? && s.PcOf(t).pos == pos && pos + 1 < TWO_TO_THE_63
    ensures var late := AdvancePush(s, t, false);
      && late.ring.mem.WellShaped() && late.ring.mem.tail == s.ring.mem.tail && late.ring.mem.head == s.ring.mem.head
      && late.ring.mem.At(pos).sequence == pos + 1
      && late.threads == s.threads[t := Idle] && |late.ring.mem.cells| == |s.ring.mem.cells|
  {
    assert Add(pos, 1) == pos + 1;
  }

  /** With its slot committed already, the position at tail is neither claimable nor full. */
  lemma CommittedAtTail(s: State, u: nat, value: seq<Byte>, pos: nat)
    requires s.ring.mem.WellShaped() && pos + 1 < TWO_TO_THE_63
    requires s.ring.mem.head <= s.ring.mem.tail == pos < s.ring.mem.head + |s.ring.mem.cells|
    requires s.ring.mem.At(pos).sequence == pos + 1 && s.PcOf(u) == PushAt(value, 0, pos)
    ensures !Consistent(s.ring.mem) && AdvancePush(s, u, false) == s.Move(u, PushStart(value, 0))
  {
    assert Marker(pos, pos) == pos;
  }
}
