/** Runs in which the rollback of a transfer gives back the new owner's live claim, or a record it has committed. */
module TakeoverRaceRuns {
  import opened Words
  import Own = OwnershipProtocol
  import opened RingProtocol
  import opened RingBuffer
  import opened RingFifo
  import opened RingRecovery
  import opened TakeoverRace
  import opened JammedRing

  lemma {:induction false} LeadsSnoc(start: Joint, actions: seq<JointAction>, j: Joint, a: JointAction)
    requires Leads(start, actions, j) && j.Mem().WellShaped() && CanStep(j, a)
    requires Go(j, a).Mem().WellShaped() && Bounded(Go(j, a).Mem())
    ensures Leads(start, actions + [a], Go(j, a))
    decreases |actions|
  {
    if actions == [] {
      assert (actions + [a])[1..] == [];
      assert Leads(Go(j, a), [], Go(j, a));
    } else {
      assert (actions + [a])[1..] == actions[1..] + [a];
      LeadsSnoc(Go(start, actions[0]), actions[1..], j, a);
    }
  }

  lemma Steps(j: Joint, a: JointAction)
    requires JointReachable(j) && j.Mem().WellShaped() && CanStep(j, a)
    requires Go(j, a).Mem().WellShaped() && Bounded(Go(j, a).Mem())
    ensures JointReachable(Go(j, a))
  {
    var start, actions :| Start(start) && Leads(start, actions, j);
    LeadsSnoc(start, actions, j, a);
  }

  /** How the record reads once it is worker 2's. */
  const NEW_TOKEN: Own.Token := Own.Token(2, 1, 4)

  /** A quiescent ring, and a record owned by worker 0, of generation 1. */
  lemma Begin(n: nat, slotBytes: nat) returns (j: Joint)
    requires IsPowerOfTwo(n) && 2 <= n <= TWO_TO_THE_63 / 2
    ensures Start(j) && JointReachable(j) && j.Mem().WellShaped() && |j.Mem().cells| == n
    ensures j.own == Own.State(2, Own.Pack(0, 1), map[], [Own.Pack(0, 1)], {}, [], map[])
  {
    var cells := seq(n, i requires 0 <= i < n => Cell(i, seq(slotBytes, _ => 0), 0));
    var mem := Memory(0, 0, 0, slotBytes, cells);
    var ring := State(Ring(mem, [], [], {}), map[], map[], map[], map[], {}, Sizes(map[], map[]));
    Own.UnpackPack(0, 1);
    j := Joint(Own.State(2, Own.Pack(0, 1), map[], [Own.Pack(0, 1)], {}, [], map[]), ring, Resting, {}, []);
    assert Leads(j, [], j);
  }

  lemma OwnMove(j: Joint, o: Own.Action) returns (j': Joint)
    requires JointReachable(j) && j.Mem().WellShaped() && Bounded(j.Mem()) && CanStep(j, OwnStep(o))
    ensures JointReachable(j') && j' == Go(j, OwnStep(o)) && j'.ring == j.ring && j'.given == j.given
  {
    j' := Go(j, OwnStep(o));
    Steps(j, OwnStep(o));
  }

  lemma TransferStarts(j: Joint, c: Own.Change) returns (j': Joint)
    requires Start(j) && JointReachable(j) && Own.Admissible(c)
    ensures JointReachable(j') && j'.ring == j.ring && j'.given == [] && j'.called == {} && j'.roll == Resting
    ensures j'.own == j.own.Move(SUPERVISOR, Own.LoadEpoch(c)) && j'.own.pcs.Keys == {SUPERVISOR}
  {
    j' := OwnMove(j, Own.StartTransfer(SUPERVISOR, c));
  }

  /** One step of the transfer, from where it stands. */
  lemma TransferMove(j: Joint, c: Own.Change, pc: Own.Pc) returns (j': Joint)
    requires JointReachable(j) && j.Mem().WellShaped() && Bounded(j.Mem())
    requires j.roll == Resting && j.own.PcOf(SUPERVISOR) == pc && j.own.pcs.Keys == {SUPERVISOR}
    requires pc in {Own.LoadEpoch(c), Own.SwapEpoch(c), Own.SwapWord(c), Own.Release(c)}
    ensures JointReachable(j') && j'.ring == j.ring && j'.given == j.given && j'.called == j.called
    ensures j'.own == Own.Step(j.own, SUPERVISOR) && j'.own.pcs.Keys == {SUPERVISOR}
    ensures j'.roll == if pc == Own.Release(c) then AtTail else Resting
  {
    j' := OwnMove(j, Own.Advance(SUPERVISOR));
  }

  /** The steps of a transfer that meets what it expects. */
  lemma TransferStep(s: Own.State, c: Own.Change)
    requires Own.Admissible(c) && c.expected.epoch + 2 < TWO_TO_THE_64
    ensures s.PcOf(SUPERVISOR) == Own.LoadEpoch(c) && s.epoch == c.expected.epoch ==>
              Own.Step(s, SUPERVISOR) == s.Move(SUPERVISOR, Own.SwapEpoch(c))
    ensures s.PcOf(SUPERVISOR) == Own.SwapEpoch(c) && s.epoch == c.expected.epoch ==>
              var s' := Own.Step(s, SUPERVISOR); s'.PcOf(SUPERVISOR) == Own.SwapWord(c) && s'.word == s.word
    ensures s.PcOf(SUPERVISOR) == Own.SwapWord(c) && s.word == Own.Pack(c.expected.owner, c.expected.generation) ==>
              var s' := Own.Step(s, SUPERVISOR);
              s'.PcOf(SUPERVISOR) == Own.Release(c) && s'.word == Own.Pack(c.owner, c.generation)
    ensures s.PcOf(SUPERVISOR) == Own.Release(c) ==>
              var s' := Own.Step(s, SUPERVISOR); s'.epoch == c.expected.epoch + 2 && s'.word == s.word
  {
  }

  /** The transfer, up to the publication of the new epoch. */
  lemma Publishes(j: Joint, c: Own.Change) returns (j': Joint)
    requires Start(j) && JointReachable(j) && Own.Admissible(c) && c.expected.epoch == 2
    requires j.own.word == Own.Pack(c.expected.owner, c.expected.generation)
    ensures JointReachable(j') && j'.ring == j.ring && j'.given == [] && j'.called == {} && j'.roll == AtTail
    ensures j'.own.epoch == 4 && j'.own.word == Own.Pack(c.owner, c.generation) && j'.own.pcs.Keys == {SUPERVISOR}
  {
    var j1 := TransferStarts(j, c);
    TransferStep(j1.own, c);
    var j2 := TransferMove(j1, c, Own.LoadEpoch(c));
    TransferStep(j2.own, c);
    var j3 := TransferMove(j2, c, Own.SwapEpoch(c));
    TransferStep(j3.own, c);
    var j4 := TransferMove(j3, c, Own.SwapWord(c));
    TransferStep(j4.own, c);
    j' := TransferMove(j4, c, Own.Release(c));
  }

  lemma WorkerStarts(j: Joint, token: Own.Token) returns (j': Joint)
    requires JointReachable(j) && j.Mem().WellShaped() && Bounded(j.Mem()) && 1 !in j.own.pcs
    ensures JointReachable(j') && j'.ring == j.ring && j'.given == j.given && j'.called == j.called
    ensures j'.own == j.own.Move(1, Own.ReadEpoch(Own.Guard(token))) && j'.roll == j.roll
  {
    j' := OwnMove(j, Own.StartWorker(1, token));
  }

  /** One step of worker 1's check. */
  lemma CheckMove(j: Joint) returns (j': Joint)
    requires JointReachable(j) && j.Mem().WellShaped() && Bounded(j.Mem())
    requires j.own.PcOf(1).ReadEpoch? || j.own.PcOf(1).ReadWord? || j.own.PcOf(1).ReadAgain?
    ensures JointReachable(j') && j'.ring == j.ring && j'.given == j.given && j'.called == j.called
    ensures j'.own == Own.Step(j.own, 1) && j'.roll == j.roll
  {
    j' := OwnMove(j, Own.Advance(1));
  }

  /** The steps of a check that nothing disturbs. */
  lemma CheckStep(s: Own.State, token: Own.Token)
    requires s.epoch % 2 == 0 && s.epoch > 0 && Own.ValidWord(s.word) && token == Own.TokenOf(s.word, s.epoch)
    ensures var use, s' := Own.Guard(token), Own.Step(s, 1);
      && (s.PcOf(1) == Own.ReadEpoch(use) ==> s' == s.Move(1, Own.ReadWord(use, s.epoch)))
      && (s.PcOf(1) == Own.ReadWord(use, s.epoch) ==> s' == s.Move(1, Own.ReadAgain(use, s.epoch, s.word)))
      && (s.PcOf(1) == Own.ReadAgain(use, s.epoch, s.word) ==>
            s'.PcOf(1) == Own.Publish(token) && s'.epoch == s.epoch && s'.word == s.word)
  {
  }

  /** The new owner's first check. */
  lemma Acknowledges(j: Joint, token: Own.Token) returns (j': Joint)
    requires JointReachable(j) && j.Mem().WellShaped() && Bounded(j.Mem()) && 1 !in j.own.pcs
    requires j.own.epoch == 4 && Own.ValidWord(j.own.word) && token == Own.TokenOf(j.own.word, 4)
    ensures JointReachable(j') && j'.ring == j.ring && j'.given == j.given && j'.called == j.called
    ensures j'.roll == j.roll && j'.own.PcOf(1) == Own.Publish(token)
    ensures j'.own.epoch == 4 && j'.own.word == j.own.word
  {
    var j1 := WorkerStarts(j, token);
    CheckStep(j1.own, token);
    var j2 := CheckMove(j1);
    CheckStep(j2.own, token);
    var j3 := CheckMove(j2);
    CheckStep(j3.own, token);
    j' := CheckMove(j3);
  }

  /** One step of worker 1's push. */
  lemma PushMove(j: Joint) returns (j': Joint)
    requires JointReachable(j) && j.Mem().WellShaped() && InPush(j.ring.PcOf(1))
    requires AdvancePush(j.ring, 1, false).ring.mem.WellShaped() && Bounded(AdvancePush(j.ring, 1, false).ring.mem)
    ensures JointReachable(j') && j' == j.(ring := AdvancePush(j.ring, 1, false))
    ensures forall u | u != 1 :: j'.ring.PcOf(u) == j.ring.PcOf(u)
  {
    PushFrame(j.ring, 1, false);
    j' := j.(ring := AdvancePush(j.ring, 1, false));
    Steps(j, RingStep(Advance(1, false)));
  }

  lemma RollMove(j: Joint) returns (j': Joint)
    requires JointReachable(j) && j.Mem().WellShaped() && Bounded(j.Mem()) && j.roll != Resting
    requires j.roll.AtSwap? ==> j.roll.prior < j.Mem().tail
    ensures JointReachable(j') && j' == RollOn(j, false)
  {
    j' := RollOn(j, false);
    Steps(j, RollStep(false));
  }

  /** Where worker 1 stands alone in a push, with the ring fresh otherwise. */
  ghost predicate Alone1(j: Joint, pc: Pc, n: nat) {
    && j.Mem().WellShaped() && |j.Mem().cells| == n && j.Mem().head == 0 && |j.ring.ring.log| == j.Mem().tail
    && j.ring.sent == map[] && forall t :: j.ring.PcOf(t) == if t == 1 then pc else Idle
  }

  lemma CallMove(j: Joint, n: nat) returns (j': Joint)
    requires JointReachable(j) && Alone1(j, Idle, n) && j.own.PcOf(1).Publish? && 1 !in j.called && Bounded(j.Mem())
    ensures JointReachable(j') && Alone1(j', PushStart([], 0), n)
    ensures j' == j.(ring := j.ring.Move(1, PushStart([], 0)), called := j.called + {1})
  {
    j' := Go(j, RingStep(CallPush(1, [], 0)));
    Steps(j, RingStep(CallPush(1, [], 0)));
    forall t
      ensures j'.ring.PcOf(t) == if t == 1 then PushStart([], 0) else Idle
    {
      assert j.ring.PcOf(t) == Idle;
    }
  }

  /** The new owner claims position 0. */
  lemma ClaimsFirst(j: Joint, n: nat) returns (j': Joint)
    requires JointReachable(j) && Alone1(j, Idle, n) && j.own.PcOf(1).Publish? && 1 !in j.called
    requires j.Mem().tail == 0 && j.Mem().At(0).sequence == 0 && n <= TWO_TO_THE_63 / 2
    ensures JointReachable(j') && Alone1(j', PushClaimed([], 0, 0), n) && j'.Mem() == j.Mem().(tail := 1)
    ensures j' == j.(ring := j'.ring, called := j.called + {1})
  {
    assert Add(0, 1) == 1;
    var j1 := CallMove(j, n);
    var j2 := PushMove(j1);
    assert j2.ring.PcOf(1) == PushAt([], 0, 0) && j2.Mem() == j.Mem();
    var j3 := PushMove(j2);
    assert j3.ring.PcOf(1) == PushReady([], 0, 0) && j3.Mem() == j.Mem();
    j' := PushMove(j3);
  }

  /** The rollback looks, and finds a position to take back. */
  lemma LooksAndFinds(j: Joint) returns (j': Joint)
    requires JointReachable(j) && j.Mem().WellShaped() && Bounded(j.Mem()) && j.roll == AtTail
    requires j.Mem().tail == 1 && j.Mem().head == 0 && j.Mem().At(0).sequence == 0
    ensures JointReachable(j') && j' == j.(roll := AtSwap(0))
  {
    var j1 := RollMove(j);
    var j2 := RollMove(j1);
    j' := RollMove(j2);
  }

  /** The common part: the new owner has claimed position 0, and the rollback is about to take it back. */
  lemma Racing(n: nat, slotBytes: nat) returns (start: Joint, j: Joint)
    requires IsPowerOfTwo(n) && 2 <= n <= TWO_TO_THE_63 / 2
    ensures Start(start) && JointReachable(j) && Alone1(j, PushClaimed([], 0, 0), n)
    ensures j.Mem() == start.Mem().(tail := 1) && j.roll == AtSwap(0) && j.given == []
    ensures j.own.PcOf(1) == Own.Publish(NEW_TOKEN) && Own.TokenOf(j.own.word, j.own.epoch) == NEW_TOKEN
  {
    start := Begin(n, slotBytes);
    IndexOfSmall(0, n);
    Own.UnpackPack(2, 1);
    var j1 := Publishes(start, Own.Change(Own.Token(0, 1, 2), 2, 1));
    var j2 := Acknowledges(j1, NEW_TOKEN);
    var j3 := ClaimsFirst(j2, n);
    assert j3.Mem().At(0) == start.Mem().At(0);
    j := LooksAndFinds(j3);
  }

  /** The new owner writes its record into the position, and stands before the commit. */
  lemma WritesFirst(j: Joint, n: nat) returns (j': Joint)
    requires JointReachable(j) && j.given == [] && Alone1(j, PushClaimed([], 0, 0), n) && j.Mem().tail == 1
    ensures JointReachable(j') && Inv(j'.ring) && Alone1(j', PushTagged([], 0, 0), n) && j'.Mem().tail == 1
    ensures j' == j.(ring := j'.ring)
  {
    CleanInv(j);
    assert j.ring.PcOf(1) == PushClaimed([], 0, 0);
    StepKeeps(j.ring, Advance(1, false));
    var j1 := PushMove(j);
    assert j1.ring.PcOf(1) == PushFilled([], 0, 0);
    StepKeeps(j1.ring, Advance(1, false));
    j' := PushMove(j1);
  }

  /**
   A run from a quiescent ring in which the rollback gives back the claim of the recorded owner, alive and in
   its push. Its push then succeeds, and is the last one ever to do so.
   */
  lemma LiveClaimGivenBack(n: nat, slotBytes: nat) returns (start: Joint, j: Joint, after: Joint)
    requires IsPowerOfTwo(n) && 2 <= n <= TWO_TO_THE_63 / 2
    ensures Start(start) && start.Mem().WellShaped() && |start.Mem().cells| == n
    ensures JointReachable(j) && j.given == [0] && j.Mem().tail == 0
    ensures j.ring.PcOf(1) == PushTagged([], 0, 0) && j.own.PcOf(1) == Own.Publish(NEW_TOKEN)
    ensures Own.TokenOf(j.own.word, j.own.epoch) == NEW_TOKEN
    ensures JointReachable(after) && after.ring.PcOf(1) == Idle && after.ring.SentBy(1) == [[]]
    ensures Jammed(after.ring, 0)
  {
    var j1;
    start, j1 := Racing(n, slotBytes);
    var j2 := WritesFirst(j1, n);
    j := RollMove(j2);
    TaggedGivenBack(j2.ring, j.ring);
    after := PushMove(j);
  }

  lemma TaggedGivenBack(s: State, s': State)
    requires Inv(s) && s.ring.mem.tail == 1 && s.sent == map[] && s' == GiveBack(s, 0)
    requires forall t :: s.PcOf(t) == if t == 1 then PushTagged([], 0, 0) else Idle
    ensures s'.ring.mem.WellShaped() && s'.PcOf(1) == PushTagged([], 0, 0)
    ensures var late := AdvancePush(s', 1, false);
      Jammed(late, 0) && late.PcOf(1) == Idle && late.SentBy(1) == [[]]
  {
    assert s.PcOf(1) == PushTagged([], 0, 0);
    LateCommitJams(s, 1, 0);
  }

  /** The new owner commits, and its call returns. */
  lemma CommitsFirst(j: Joint, n: nat) returns (j': Joint)
    requires JointReachable(j) && Inv(j.ring) && Alone1(j, PushTagged([], 0, 0), n) && j.Mem().tail == 1
    ensures JointReachable(j') && j' == j.(ring := j'.ring) && Inv(j'.ring) && AllIdle(j'.ring)
    ensures j'.Mem().tail == 1 && j'.ring.Committed(0) && j'.ring.SentBy(1) == [[]]
  {
    assert j.ring.PcOf(1) == PushTagged([], 0, 0);
    StepKeeps(j.ring, Advance(1, false));
    j' := PushMove(j);
    forall t
      ensures j'.ring.PcOf(t) == Idle
    {
      assert j.ring.PcOf(t) == if t == 1 then PushTagged([], 0, 0) else Idle;
    }
  }

  /** The same, but the swap comes after the commit: a record that its producer was told is in is given back. */
  lemma RecordGivenBack(n: nat, slotBytes: nat) returns (start: Joint, j: Joint)
    requires IsPowerOfTwo(n) && 2 <= n <= TWO_TO_THE_63 / 2
    ensures Start(start) && start.Mem().WellShaped() && |start.Mem().cells| == n
    ensures JointReachable(j) && j.given == [0] && j.Mem().WellShaped() && j.Mem().tail == 0
    ensures Own.TokenOf(j.own.word, j.own.epoch) == NEW_TOKEN && AllIdle(j.ring) && j.ring.SentBy(1) == [[]]
    ensures !Consistent(j.Mem()) && Jammed(j.ring, 0)
  {
    var j1;
    start, j1 := Racing(n, slotBytes);
    var j2 := WritesFirst(j1, n);
    var j3 := CommitsFirst(j2, n);
    j := GivesRecordBack(j3);
  }

  lemma GivesRecordBack(j: Joint) returns (j': Joint)
    requires JointReachable(j) && Inv(j.ring) && AllIdle(j.ring) && j.ring.Committed(0) && j.Mem().tail == 1
    requires j.roll == AtSwap(0) && j.given == []
    ensures JointReachable(j') && j'.own == j.own && j'.given == [0] && j'.Mem().WellShaped() && j'.Mem().tail == 0
    ensures AllIdle(j'.ring) && j'.ring.sent == j.ring.sent && !Consistent(j'.Mem()) && Jammed(j'.ring, 0)
  {
    j' := RollMove(j);
    assert j'.ring == GiveBack(j.ring, 0);
    IdleGivenBack(j.ring, 0);
  }

  lemma IdleGivenBack(s: State, prior: Word)
    requires Inv(s) && AllIdle(s) && s.ring.mem.tail == prior + 1 && s.Committed(prior)
    ensures var s' := GiveBack(s, prior);
      s'.ring.mem.WellShaped() && AllIdle(s') && !Consistent(s'.ring.mem) && Jammed(s', prior)
  {
    WhatIsGivenBack(s, prior);
    GivenBackJams(s, prior);
    forall t
      ensures GiveBack(s, prior).PcOf(t) == s.PcOf(t)
    {
    }
  }
}
