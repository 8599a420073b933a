/** Runs on both sides of a takeover: what the repaired ring still owes, and the runs the repair cannot mend. */
module TakeoverRuns {
  import opened Words
  import opened RingProtocol
  import opened RingTheorems
  import opened RingBuffer
  import opened RingFifo
  import opened RingRecovery
  import opened Takeover

  // ----- the repaired state -----

  /**
   Thread t died in a push, or outside any call: what it holds is at most the newest claim, the newest
   claim is nobody else's, and no live producer has loaded a tail past it.
   */
  ghost predicate Abandoned(s: State, t: nat) {
    && (s.PcOf(t) == Idle || InPush(s.PcOf(t)))
    && (forall u, p: nat | s.PcOf(u).OwnsForPush(p) && (u == t || p + 1 == s.ring.mem.tail) ::
          u == t && p + 1 == s.ring.mem.tail)
    && (forall u | u != t && Holds(s, t) && (s.PcOf(u).PushAt? || s.PcOf(u).PushReady?) ::
          s.PcOf(u).pos < s.ring.mem.tail)
  }

  predicate Holds(s: State, t: nat) {
    s.PcOf(t).PushClaimed? || s.PcOf(t).PushFilled? || s.PcOf(t).PushTagged?
  }

  /** The takeover's view: the claim is given back, its entry is off the log, and its thread is gone. */
  function Repaired(s: State, t: nat): State
    requires s.ring.mem.WellShaped() && |s.ring.log| == s.ring.mem.tail
  {
    var mem := RolledBack(s.ring.mem);
    s.(ring := s.ring.(mem := mem, log := s.ring.log[..mem.tail]), threads := s.threads[t := Idle])
  }

  lemma HeldIsNewest(s: State, t: nat)
    requires Inv(s) && Abandoned(s, t) && Holds(s, t)
    ensures s.ring.mem.head < s.ring.mem.tail && s.Producing(s.ring.mem.tail - 1)
    ensures s.ring.log[s.ring.mem.tail - 1].producer == t && s.PcOf(t).OwnsForPush(s.ring.mem.tail - 1)
  {
    assert ThreadOk(s.ring, t, s.threads[t]);
    assert s.PcOf(t).OwnsForPush(s.PcOf(t).pos);
    assert s.Producing(s.ring.mem.tail - 1);
  }

  lemma NewestIsHeld(s: State, t: nat)
    requires Abandoned(s, t) && |s.ring.log| == s.ring.mem.tail && s.ring.mem.tail > 0
             && s.Producing(s.ring.mem.tail - 1)
    ensures Holds(s, t)
  {
    assert s.PcOf(s.ring.log[s.ring.mem.tail - 1].producer).OwnsForPush(s.ring.mem.tail - 1);
  }

  /** The rollback gives a position back exactly if the dead thread held one. */
  lemma RepairIsUndo(s: State, t: nat)
    requires Inv(s) && Abandoned(s, t)
    ensures Holds(s, t) ==> Undone(s, Repaired(s, t), t)
    ensures !Holds(s, t) ==> Repaired(s, t) == s.Move(t, Idle) && RolledBack(s.ring.mem) == s.ring.mem
  {
    RollbackGuard(s);
    if Holds(s, t) {
      HeldIsNewest(s, t);
    } else {
      if s.ring.mem.tail > 0 && s.Producing(s.ring.mem.tail - 1) {
        NewestIsHeld(s, t);
      }
      assert s.ring.log[..s.ring.mem.tail] == s.ring.log;
    }
  }

  /** The newest claim, t's, is taken back. */
  ghost predicate Undone(s: State, s': State, t: nat) {
    var pos := s.ring.mem.tail - 1;
    && s.ring.mem.head <= pos < |s.ring.log| && s.ring.log[pos].producer == t && s.PcOf(t).OwnsForPush(pos)
    && s' == s.(ring := s.ring.(mem := s.ring.mem.(tail := pos), log := s.ring.log[..pos]),
                threads := s.threads[t := Idle])
  }

  lemma UndoneOwners(s: State, s': State, t: nat)
    requires Shape(s.ring) && Threads(s) && Undone(s, s', t)
    ensures forall p: nat :: s'.Producing(p) == (s.Producing(p) && p != s.ring.mem.tail - 1)
    ensures forall p: nat :: s'.Consuming(p) == s.Consuming(p) && s'.Open(p) == s.Open(p)
  {
    forall p: nat
      ensures s'.Producing(p) == (s.Producing(p) && p != s.ring.mem.tail - 1)
      ensures s'.Consuming(p) == s.Consuming(p) && s'.Open(p) == s.Open(p)
    {
      if p < s.ring.mem.tail - 1 && s.ring.log[p].producer == t {
        assert !s.Producing(p);
      }
    }
  }

  lemma UndoneShape(s: State, s': State, t: nat)
    requires Inv(s) && Undone(s, s', t)
    ensures Shape(s'.ring)
  {
    assert ThreadOk(s.ring, t, s.threads[t]);
  }

  lemma UndoneClaimed(s: State, s': State, t: nat)
    requires Shape(s.ring) && ClaimedSlots(s) && Undone(s, s', t)
    requires forall p: nat :: s'.Producing(p) == (s.Producing(p) && p != s.ring.mem.tail - 1)
    ensures ClaimedSlots(s')
  {
    forall p: nat | s'.ring.mem.head <= p < s'.ring.mem.tail
      ensures s'.ring.mem.At(p).sequence == if s'.Producing(p) then p else p + 1
    {
      assert s'.ring.mem.At(p) == s.ring.mem.At(p);
    }
  }

  lemma UndoneAwaiting(s: State, s': State, t: nat)
    requires Shape(s.ring) && Slots(s) && Windows(s) && Undone(s, s', t)
    requires forall p: nat :: s'.Consuming(p) == s.Consuming(p)
    ensures AwaitingSlots(s')
  {
    var pos, n := s.ring.mem.tail - 1, |s.ring.mem.cells|;
    assert s.Producing(pos);
    forall p: nat | pos <= p < s.ring.mem.head + n
      ensures s'.ring.mem.At(p).sequence == if p >= n && s'.Consuming(p - n) then p - n + 1 else p
    {
      assert s'.ring.mem.At(p) == s.ring.mem.At(p);
      assert p >= n && s.Consuming(p - n) ==> s.ring.mem.tail <= p;
    }
  }

  lemma UndoneSlots(s: State, s': State, t: nat)
    requires Shape(s.ring) && Threads(s) && Slots(s) && Windows(s) && Undone(s, s', t)
    ensures Slots(s') && Windows(s')
  {
    UndoneOwners(s, s', t);
    UndoneClaimed(s, s', t);
    UndoneAwaiting(s, s', t);
  }

  lemma UndoneContents(s: State, s': State, t: nat)
    requires Inv(s) && Undone(s, s', t) && Shape(s'.ring)
    ensures Contents(s')
  {
    UndoneOwners(s, s', t);
    forall p: nat | s'.ring.mem.head <= p < s'.ring.mem.tail && s'.Committed(p)
      ensures Stored(s'.ring, p)
    {
      assert Stored(s.ring, p) && s'.ring.mem.At(p) == s.ring.mem.At(p);
    }
  }

  lemma UndoneThread(r: Ring, r': Ring, t: nat, u: nat, pc: Pc)
    requires Shape(r) && Shape(r') && ThreadOk(r, u, pc) && r.mem.head < r.mem.tail
    requires r' == r.(mem := r.mem.(tail := r.mem.tail - 1), log := r.log[..r.mem.tail - 1])
    requires u != t && r.log[r.mem.tail - 1].producer == t
    requires r.mem.At(r.mem.tail - 1).sequence == r.mem.tail - 1
    requires (pc.PushAt? || pc.PushReady?) ==> pc.pos < r.mem.tail
    ensures ThreadOk(r', u, pc)
  {
    if pc.PopClaimed? || pc.PopGood? {
      StoredFrame(r, r', pc.pos);
    }
  }

  lemma UndoneThreads(s: State, s': State, t: nat)
    requires Shape(s.ring) && Threads(s) && Abandoned(s, t) && Undone(s, s', t) && Shape(s'.ring)
    requires s.ring.mem.At(s.ring.mem.tail - 1).sequence == s.ring.mem.tail - 1
    ensures Threads(s')
  {
    forall u | u in s'.threads
      ensures ThreadOk(s'.ring, u, s'.threads[u])
    {
      if u != t {
        assert ThreadOk(s.ring, u, s.threads[u]) && s.PcOf(u) == s.threads[u];
        UndoneThread(s.ring, s'.ring, t, u, s.threads[u]);
      }
    }
  }

  lemma UndoneOutcomes(s: State, s': State, t: nat)
    requires Inv(s) && Undone(s, s', t) && Shape(s'.ring)
    ensures Outcomes(s')
  {
    UndoneOwners(s, s', t);
    forall p: nat | p < s.ring.mem.head
      ensures s'.ring.log[p] == s.ring.log[p]
    {
    }
  }

  lemma RepairKeepsInv(s: State, t: nat)
    requires Inv(s) && Abandoned(s, t)
    ensures Inv(Repaired(s, t))
  {
    var s' := Repaired(s, t);
    RepairIsUndo(s, t);
    if Holds(s, t) {
      UndoneShape(s, s', t);
      UndoneSlots(s, s', t);
      UndoneContents(s, s', t);
      assert s.Producing(s.ring.mem.tail - 1);
      UndoneThreads(s, s', t);
      UndoneOutcomes(s, s', t);
    } else {
      MoveKeeps(s, t, Idle);
    }
  }

  lemma RepairKeepsOrder(s: State, t: nat)
    requires Inv(s) && Abandoned(s, t) && SentInOrder(s) && GotInOrder(s)
    ensures SentInOrder(Repaired(s, t)) && GotInOrder(Repaired(s, t))
  {
    RepairIsUndo(s, t);
    if Holds(s, t) {
      UndoneInHand(s, Repaired(s, t), t);
      UndoneSent(s, Repaired(s, t), t, s.ring.log[s.ring.mem.tail - 1]);
      UndoneGot(s, Repaired(s, t), t);
    } else {
      LeavingKeepsOrder(s, t);
    }
  }

  lemma LeavingKeepsOrder(s: State, t: nat)
    requires SentInOrder(s) && GotInOrder(s) && !Holds(s, t) && (s.PcOf(t) == Idle || InPush(s.PcOf(t)))
    ensures SentInOrder(s.Move(t, Idle)) && GotInOrder(s.Move(t, Idle))
  {
    QuietKeepsOrder(s, s.Move(t, Idle), t);
  }

  lemma UndoneInHand(s: State, s': State, t: nat)
    requires Shape(s.ring) && Threads(s) && Undone(s, s', t)
    ensures s.ring.log == s'.ring.log + [s.ring.log[s.ring.mem.tail - 1]]
    ensures InHand(s.PcOf(t)) == [s.ring.log[s.ring.mem.tail - 1].value]
  {
    assert ThreadOk(s.ring, t, s.threads[t]);
  }

  /** The value in the dead producer's hand was the last entry of the log. */
  lemma UndoneSent(s: State, s': State, t: nat, e: Entry)
    requires SentInOrder(s) && s.ring.log == s'.ring.log + [e] && e.producer == t
    requires s'.sent == s.sent && s'.threads == s.threads[t := Idle] && InHand(s.PcOf(t)) == [e.value]
    ensures SentInOrder(s')
  {
    forall u
      ensures ValuesOf(s'.ring.log, u) == s'.SentBy(u) + InHand(s'.PcOf(u))
    {
      ValuesOfAppend(s'.ring.log, e, u);
      assert ValuesOf(s.ring.log, u) == s.SentBy(u) + InHand(s.PcOf(u));
      if u == t {
        assert s.SentBy(t) + [e.value] == ValuesOf(s'.ring.log, t) + [e.value];
        assert (s.SentBy(t) + [e.value])[..|s.SentBy(t)|] == s.SentBy(t);
        assert (ValuesOf(s'.ring.log, t) + [e.value])[..|s.SentBy(t)|] == ValuesOf(s'.ring.log, t);
      }
    }
  }

  lemma UndoneGot(s: State, s': State, t: nat)
    requires GotInOrder(s) && Undone(s, s', t)
    ensures GotInOrder(s')
  {
    forall u
      ensures GotOk(s', u)
    {
      assert GotOk(s, u);
      assert s'.PcOf(u) == if u == t then Idle else s.PcOf(u);
    }
  }

  lemma RepairKeepsSizes(s: State, t: nat)
    requires Inv(s) && SizesOk(s)
    ensures SizesOk(Repaired(s, t))
  {
    forall u
      ensures SizeOk(Repaired(s, t).PcOf(u), Repaired(s, t).WantOf(u), Repaired(s, t).ring.mem.slotBytes)
    {
      assert SizeOk(s.PcOf(u), s.WantOf(u), s.ring.mem.slotBytes);
    }
  }

  lemma RepairKeepsLatest(s: State, t: nat)
    requires Inv(s) && Abandoned(s, t) && ClaimIsLatest(s)
    ensures ClaimIsLatest(Repaired(s, t))
  {
    var s' := Repaired(s, t);
    RepairIsUndo(s, t);
    forall p: nat | s'.Producing(p)
      ensures s.Producing(p)
    {
      assert s'.ring.log[p] == s.ring.log[p];
    }
  }

  /**
   The repaired state is as good as any reachable one: every invariant of the ring holds of it, the calls of
   all producers and consumers stand in order, and nothing committed is gone from the log.
   */
  lemma TakeoverResumes(s: State, t: nat)
    requires Reachable(s) && Abandoned(s, t)
    ensures s.ring.mem.WellShaped() && |s.ring.log| == s.ring.mem.tail
    ensures var r := Repaired(s, t);
      Inv(r) && SizesOk(r) && SentInOrder(r) && GotInOrder(r) && ClaimIsLatest(r) && KeepsLog(s, r, t)
  {
    ReachableInv(s);
    ReachableSizes(s);
    RepairKeepsSizes(s, t);
    OrderOfCalls(s);
    ReachableLatest(s);
    RepairKeepsInv(s, t);
    RepairKeepsOrder(s, t);
    RepairKeepsLatest(s, t);
    RepairKeepsLog(s, t);
  }

  lemma RepairKeepsLog(s: State, t: nat)
    requires Inv(s) && Abandoned(s, t)
    ensures KeepsLog(s, Repaired(s, t), t)
  {
    RepairIsUndo(s, t);
    if Holds(s, t) {
      HeldIsNewest(s, t);
      UndoneLog(s, Repaired(s, t), t);
    }
  }

  /** The thread is gone, and nothing committed is gone from the log. */
  ghost predicate KeepsLog(s: State, r: State, t: nat) {
    r.PcOf(t) == Idle && r.ring.log <= s.ring.log && forall p: nat | s.Committed(p) :: p < |r.ring.log|
  }

  lemma UndoneLog(s: State, s': State, t: nat)
    requires Undone(s, s', t) && |s.ring.log| == s.ring.mem.tail && s.Producing(s.ring.mem.tail - 1)
    ensures KeepsLog(s, s', t)
  {
  }

  /**
   So every run after the takeover, whoever takes part in it, still delivers or counts each record that was
   committed before it, at the same position and as it was pushed.
   */
  lemma RecordsCrossTakeover(s: State, t: nat, actions: seq<Action>, s': State)
    requires Reachable(s) && Abandoned(s, t) && s.ring.mem.WellShaped() && |s.ring.log| == s.ring.mem.tail
    requires Executes(Repaired(s, t), actions, s')
    ensures Inv(s') && Exclusive(s') && SizesOk(s') && OutcomesExplained(s') && SentInOrder(s') && GotInOrder(s')
    ensures forall p: nat | s.Committed(p) :: p < |s'.ring.log| && s'.ring.log[p] == s.ring.log[p]
  {
    TakeoverResumes(s, t);
    var r := Repaired(s, t);
    RunKeeps(r, actions, s');
    RunKeepsSizes(r, actions, s');
    RunKeepsOrder(r, actions, s');
    RunGrowsLog(r, actions, s');
    InvExclusive(s');
    InvExplains(s');
    forall p: nat | s.Committed(p)
      ensures p < |s'.ring.log| && s'.ring.log[p] == s.ring.log[p]
    {
      assert s'.ring.log[p] == r.ring.log[p];
    }
  }

  /** First in, first out holds across the takeover too. */
  lemma FifoAcrossTakeover(s: State, t: nat, actions: seq<Action>, s': State, consumer: nat, i: nat, j: nat)
    returns (a: nat, b: nat)
    requires Reachable(s) && Abandoned(s, t) && s.ring.mem.WellShaped() && |s.ring.log| == s.ring.mem.tail
    requires Executes(Repaired(s, t), actions, s') && SameStream(s', consumer, i, j)
    ensures ArriveInOrder(s', consumer, i, j, a, b)
  {
    RecordsCrossTakeover(s, t, actions, s');
    a, b := InOrderMeansFifo(s', consumer, i, j);
  }

  // ----- runs the repair cannot mend -----

  /** Thread t takes one step of its push. */
  lemma PushStep(s: State, t: nat) returns (s': State)
    requires Reachable(s) && s.ring.mem.WellShaped() && InPush(s.PcOf(t))
    requires Bounded(AdvancePush(s, t, false).ring.mem)
    ensures s' == AdvancePush(s, t, false) && Reachable(s') && forall u | u != t :: s'.PcOf(u) == s.PcOf(u)
  {
    s' := AdvancePush(s, t, false);
    PushFrame(s, t, false);
    ReachableStep(s, Advance(t, false));
  }

  /** Thread t calls push and loads tail. */
  lemma Loads(s: State, t: nat) returns (s': State)
    requires Reachable(s) && s.ring.mem.WellShaped() && Bounded(s.ring.mem) && s.PcOf(t) == Idle
    ensures Reachable(s') && s'.ring == s.ring && s'.PcOf(t) == PushAt([], 0, s.ring.mem.tail)
    ensures forall u | u != t :: s'.PcOf(u) == s.PcOf(u)
  {
    var s1 := s.Move(t, PushStart([], 0));
    ReachableStep(s, CallPush(t, [], 0));
    s' := PushStep(s1, t);
  }

  /** Thread t calls push and claims the position at tail. */
  lemma Claims(s: State, t: nat) returns (s': State)
    requires Reachable(s) && s.ring.mem.WellShaped() && s.PcOf(t) == Idle
    requires s.ring.mem.tail + 1 + |s.ring.mem.cells| <= TWO_TO_THE_63
    requires s.ring.mem.At(s.ring.mem.tail).sequence == s.ring.mem.tail
    ensures Reachable(s') && s'.ring.mem == s.ring.mem.(tail := s.ring.mem.tail + 1)
    ensures s'.PcOf(t) == PushClaimed([], 0, s.ring.mem.tail) && forall u | u != t :: s'.PcOf(u) == s.PcOf(u)
  {
    var pos := s.ring.mem.tail;
    assert Add(pos, 1) == pos + 1;
    var s1 := Loads(s, t);
    var s2 := PushStep(s1, t);
    assert s2.PcOf(t) == PushReady([], 0, pos) && s2.ring == s.ring;
    s' := PushStep(s2, t);
  }

  /** Two threads each claim a position of a fresh ring. */
  lemma TwoClaims(n: nat, slotBytes: nat) returns (s: State)
    requires IsPowerOfTwo(n) && 2 <= n <= TWO_TO_THE_63 / 2
    ensures Reachable(s) && s.ring.mem.WellShaped() && |s.ring.mem.cells| == n && s.ring.mem.slotBytes == slotBytes
    ensures s.PcOf(0) == PushClaimed([], 0, 0) && s.PcOf(1) == PushClaimed([], 0, 1) && s.ring.mem.tail == 2
  {
    var s0 := FreshRing(n, slotBytes);
    ReachableConsistent(s0);
    assert s0.ring.mem.At(0).sequence == Marker(0, 0) && s0.ring.mem.At(1).sequence == Marker(1, 0);
    var s1 := Claims(s0, 0);
    assert s1.ring.mem.At(1) == s0.ring.mem.At(1) && s1.PcOf(1) == s0.PcOf(1);
    s := Claims(s1, 1);
  }

  /** If both die there, the takeover gives back the newer position only, and the ring still fails the check. */
  lemma OlderClaimStays(n: nat, slotBytes: nat) returns (s: State)
    requires IsPowerOfTwo(n) && 2 <= n <= TWO_TO_THE_63 / 2
    ensures Reachable(s) && s.ring.mem.WellShaped() && |s.ring.mem.cells| == n && !OnlyNewestClaim(s)
    ensures RolledBack(s.ring.mem) == s.ring.mem.(tail := 1) && !Consistent(RolledBack(s.ring.mem))
  {
    s := TwoClaims(n, slotBytes);
    ReachableInv(s);
    assert ThreadOk(s.ring, 0, s.threads[0]) && ThreadOk(s.ring, 1, s.threads[1]);
    assert s.Producing(0) && s.Producing(1);
    RollbackGuard(s);
    OtherClaimShows(s, 0);
  }

  /** A producer that owns a position writes its record, but does not commit it. */
  lemma Writes(s: State, t: nat, pos: Word) returns (s': State)
    requires Reachable(s) && s.PcOf(t) == PushClaimed([], 0, pos)
    ensures Reachable(s') && s'.PcOf(t) == PushTagged([], 0, pos) && forall u | u != t :: s'.PcOf(u) == s.PcOf(u)
    ensures s.ring.mem.WellShaped() && s'.ring.mem.WellShaped()
    ensures s'.ring.mem.tail == s.ring.mem.tail && |s'.ring.mem.cells| == |s.ring.mem.cells|
  {
    ReachableInv(s);
    var s1 := PushStep(s, t);
    assert s1.PcOf(t) == PushFilled([], 0, pos) && SameEnds(s1.ring.mem, s.ring.mem);
    ReachableInv(s1);
    s' := PushStep(s1, t);
    assert s'.PcOf(t) == PushTagged([], 0, pos) && SameEnds(s'.ring.mem, s1.ring.mem);
    ReachableInv(s');
  }

  /** A thread stands before the commit of the newest claim while another has loaded the tail it claimed. */
  lemma LateCommitIsReachable(n: nat, slotBytes: nat) returns (s: State)
    requires IsPowerOfTwo(n) && 2 <= n <= TWO_TO_THE_63 / 2
    ensures Reachable(s) && s.ring.mem.WellShaped() && |s.ring.mem.cells| == n && s.ring.mem.tail == 1
    ensures s.PcOf(0) == PushTagged([], 0, 0) && s.PcOf(1) == PushAt([], 0, 0)
  {
    var s0 := FreshRing(n, slotBytes);
    ReachableConsistent(s0);
    assert s0.ring.mem.At(0).sequence == Marker(0, 0);
    var s1 := Loads(s0, 1);
    assert s1.PcOf(0) == s0.PcOf(0);
    var s2 := Claims(s1, 0);
    s := Writes(s2, 0, 0);
  }

  /** So the repair does break rings that real runs reach, if the producer it gives up on is alive. */
  lemma LiveClaimDoesBreak(n: nat, slotBytes: nat) returns (s: State)
    requires IsPowerOfTwo(n) && 2 <= n <= TWO_TO_THE_63 / 2
    ensures Reachable(s) && s.ring.mem.WellShaped() && |s.ring.mem.cells| == n
    ensures var late := AdvancePush(s.(ring := s.ring.(mem := RolledBack(s.ring.mem))), 0, false);
      && late.ring.mem.WellShaped() && !Consistent(late.ring.mem)
      && late.PcOf(1) == PushAt([], 0, late.ring.mem.tail)
      && AdvancePush(late, 1, false) == late.Move(1, PushStart([], 0))
  {
    s := LateCommitIsReachable(n, slotBytes);
    LiveClaimBreaks(s, 0, 1, []);
  }
}
