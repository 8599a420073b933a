/** The ring as a first-in first-out log: what is delivered, in which order, and what is lost. */
module RingFifo {
  import opened Crc32c
  import opened RingProtocol

  // ----- refinement of a bounded log -----

  /** The abstract queue: everything ever pushed, and how many positions have been taken. */
  datatype Fifo = Fifo(log: seq<Entry>, taken: nat)

  function Abstract(s: State): Fifo {
    Fifo(s.ring.log, |s.ring.takers|)
  }

  /** One step of a queue of capacity n: nothing, an append while there is room, or taking the next item. */
  ghost predicate FifoStep(n: nat, f: Fifo, f': Fifo) {
    || f' == f
    || (|f.log| < f.taken + n && |f'.log| == |f.log| + 1 && f.log == f'.log[..|f.log|] && f'.taken == f.taken)
    || (f.taken < |f.log| && f' == f.(taken := f.taken + 1))
  }

  lemma PushRefinesFifo(s: State, t: nat, spurious: bool)
    requires Inv(s)
    ensures FifoStep(|s.ring.mem.cells|, Abstract(s), Abstract(AdvancePush(s, t, spurious)))
  {
    var pc := s.PcOf(t);
    if pc.PushReady? && pc.pos == s.ring.mem.tail {
      assert ThreadOk(s.ring, t, s.threads[t]);
      ReadyMeansRoom(s, pc.pos);
    }
  }

  lemma PopRefinesFifo(s: State, t: nat, spurious: bool)
    requires Inv(s)
    ensures FifoStep(|s.ring.mem.cells|, Abstract(s), Abstract(AdvancePop(s, t, spurious)))
  {
    var pc := s.PcOf(t);
    if pc.PopReady? && pc.pos == s.ring.mem.head {
      assert ThreadOk(s.ring, t, s.threads[t]);
      ReadyMeansItem(s);
    }
  }

  /** Every step of every interleaving is a step of the queue. */
  lemma StepRefinesFifo(s: State, a: Action)
    requires Inv(s) && Enabled(s, a)
    ensures FifoStep(|s.ring.mem.cells|, Abstract(s), Abstract(Apply(s, a)))
  {
    if a.Advance? {
      PushRefinesFifo(s, a.t, a.spurious);
      PopRefinesFifo(s, a.t, a.spurious);
    }
  }

  // ----- conservation -----

  /** The consumers whose position is taken and not yet delivered or counted. */
  function PendingConsumers(s: State): set<nat> {
    set t | t in s.threads && (s.threads[t].PopUncounted? || Reading(s.threads[t]))
  }

  predicate Reading(pc: Pc) {
    pc.PopClaimed? || pc.PopGood? || pc.PopCopied? || pc.PopBad?
  }

  /** The positions held by a set of consumers. */
  function Positions(a: set<nat>, at: map<nat, nat>): set<nat>
    requires a <= at.Keys
  {
    set t | t in a :: at[t]
  }

  lemma {:induction false} PositionsSize(a: set<nat>, at: map<nat, nat>)
    requires a <= at.Keys
    requires forall t, u | t in a && u in a && at[t] == at[u] :: t == u
    ensures |Positions(a, at)| == |a|
    decreases |a|
  {
    if a != {} {
      var t :| t in a;
      PositionsSize(a - {t}, at);
      assert Positions(a, at) == Positions(a - {t}, at) + {at[t]};
    }
  }

  function Below(k: nat): (r: set<nat>)
    ensures forall p: nat :: p in r <==> p < k
    ensures |r| == k
  {
    if k == 0 then {} else Below(k - 1) + {k - 1}
  }

  lemma PendingOpen(s: State, t: nat)
    requires Inv(s) && t in PendingConsumers(s)
    ensures s.threads[t].pos < |s.ring.takers| && s.ring.takers[s.threads[t].pos] == t && s.Open(s.threads[t].pos)
  {
    assert ThreadOk(s.ring, t, s.threads[t]);
  }

  function OpenPositions(s: State): set<nat> {
    set p | p in Below(|s.ring.takers|) && s.Open(p)
  }

  /** What is still in flight occupies one position per consumer. */
  lemma PendingPositions(s: State)
    requires Inv(s)
    ensures |OpenPositions(s)| == |PendingConsumers(s)|
  {
    var pending := PendingConsumers(s);
    var at: map<nat, nat> := map t | t in pending :: s.threads[t].pos;
    forall t | t in pending
      ensures at[t] < |s.ring.takers| && s.ring.takers[at[t]] == t && s.Open(at[t])
    {
      PendingOpen(s, t);
    }
    PositionsSize(pending, at);
    forall p | p in OpenPositions(s)
      ensures p in Positions(pending, at)
    {
      var t := s.ring.takers[p];
      assert t in pending && at[t] == p;
    }
    assert OpenPositions(s) == Positions(pending, at);
  }

  lemma OneOutcome(s: State, p: nat)
    requires Shape(s.ring) && Outcomes(s)
    ensures p in s.delivered ==> p < s.ring.mem.head && !s.Open(p) && p !in s.skipped
    ensures p in s.skipped ==> p < s.ring.mem.head && !s.Open(p)
    ensures p < s.ring.mem.head ==> p in s.delivered || p in s.skipped || s.Open(p)
  {
    assert p in s.delivered ==> p < s.ring.mem.head && Clean(s.ring, p);
  }

  lemma PartitionSize(all: set<nat>, a: set<nat>, b: set<nat>, c: set<nat>)
    requires forall p :: p in all <==> p in a || p in b || p in c
    requires forall p :: !(p in a && p in b) && !((p in a || p in b) && p in c)
    ensures |all| == |a| + |b| + |c|
  {
    assert all == a + b + c;
    assert a !! b && (a + b) !! c;
  }

  lemma OutcomesPartition(s: State)
    requires Shape(s.ring) && Outcomes(s)
    ensures s.ring.mem.head == |s.delivered.Keys| + |s.skipped| + |OpenPositions(s)|
  {
    var all, open := Below(s.ring.mem.head), OpenPositions(s);
    forall p: nat
      ensures p in all <==> p in s.delivered.Keys || p in s.skipped || p in open
      ensures !(p in s.delivered.Keys && p in s.skipped)
      ensures !((p in s.delivered.Keys || p in s.skipped) && p in open)
    {
      OneOutcome(s, p);
    }
    PartitionSize(all, s.delivered.Keys, s.skipped, open);
  }

  /** Every position ever taken is delivered, counted as corrupted, or in the hands of one consumer. */
  lemma Conservation(s: State)
    requires Reachable(s)
    ensures s.ring.mem.head == |s.delivered| + s.ring.mem.corruption + |PendingConsumers(s)|
  {
    ReachableInv(s);
    OutcomesPartition(s);
    PendingPositions(s);
    assert |s.delivered| == |s.delivered.Keys|;
  }

  // ----- what a pop delivers -----

  predicate Sized(pc: Pc) {
    pc.PopStart? || pc.PopAt? || pc.PopReady? || pc.PopClaimed? || pc.PopGood?
  }

  /** A consumer inside a call still carries the size it asked for, or has read that many bytes. */
  predicate SizeOk(pc: Pc, want: nat, slotBytes: nat) {
    && (Sized(pc) ==> pc.size == want <= slotBytes)
    && (pc.PopCopied? ==> |pc.out| == want)
  }

  /** Every delivery is as long as the call that got it asked for. */
  ghost predicate SizesOk(s: State) {
    && (forall t :: SizeOk(s.PcOf(t), s.WantOf(t), s.ring.mem.slotBytes))
    && s.delivered.Keys == s.sizes.asked.Keys
    && (forall p | p in s.delivered :: p in s.sizes.asked && |s.delivered[p]| == s.sizes.asked[p])
  }

  lemma PushKeepsSizes(s: State, t: nat, spurious: bool)
    requires s.ring.mem.WellShaped() && SizesOk(s) && InPush(s.PcOf(t))
    ensures SizesOk(AdvancePush(s, t, spurious))
  {
    var s' := AdvancePush(s, t, spurious);
    PushFrame(s, t, spurious);
    PushKeepsNotes(s, t, spurious);
    forall u
      ensures SizeOk(s'.PcOf(u), s'.WantOf(u), s'.ring.mem.slotBytes)
    {
      assert SizeOk(s.PcOf(u), s.WantOf(u), s.ring.mem.slotBytes);
    }
  }

  lemma PushKeepsNotes(s: State, t: nat, spurious: bool)
    requires s.ring.mem.WellShaped() && InPush(s.PcOf(t))
    ensures var s' := AdvancePush(s, t, spurious);
      && s'.sizes == s.sizes && s'.ring.mem.slotBytes == s.ring.mem.slotBytes
      && !Sized(s'.PcOf(t)) && !s'.PcOf(t).PopCopied?
  {
    match s.PcOf(t)
    case PushStart(_, _) =>
    case PushAt(_, _, _) =>
    case PushReady(_, _, _) =>
    case PushClaimed(_, _, _) =>
    case PushFilled(_, _, _) =>
    case PushTagged(_, _, _) =>
    case _ =>
  }

  lemma PopKeepsWants(s: State, t: nat, spurious: bool)
    requires s.ring.mem.WellShaped()
    ensures var s' := AdvancePop(s, t, spurious);
      s'.sizes.wants == s.sizes.wants && s'.ring.mem.slotBytes == s.ring.mem.slotBytes
  {
    match s.PcOf(t)
    case PopStart(_) =>
    case PopAt(_, _) =>
    case PopReady(_, _) =>
    case PopClaimed(_, _) =>
    case PopGood(_, _) =>
    case PopCopied(_, _) =>
    case PopBad(_) =>
    case PopUncounted(_) =>
    case _ =>
  }

  lemma PopStepSize(s: State, t: nat, spurious: bool)
    requires s.ring.mem.WellShaped() && SizeOk(s.PcOf(t), s.WantOf(t), s.ring.mem.slotBytes)
    ensures SizeOk(AdvancePop(s, t, spurious).PcOf(t), s.WantOf(t), s.ring.mem.slotBytes)
  {
    match s.PcOf(t)
    case PopStart(_) =>
    case PopAt(_, _) =>
    case PopReady(_, _) =>
    case PopClaimed(_, _) =>
    case PopGood(_, _) =>
    case PopCopied(_, _) =>
    case PopBad(_) =>
    case PopUncounted(_) =>
    case _ =>
  }

  /** A step delivers nothing, or what the consumer has read for the position it holds. */
  lemma PopStepDelivers(s: State, t: nat, spurious: bool)
    requires s.ring.mem.WellShaped()
    ensures var s', pc := AdvancePop(s, t, spurious), s.PcOf(t);
      if pc.PopCopied? then
        s'.delivered == s.delivered[pc.pos := pc.out] && s'.sizes.asked == s.sizes.asked[pc.pos := s.WantOf(t)]
      else s'.delivered == s.delivered && s'.sizes == s.sizes
  {
    match s.PcOf(t)
    case PopStart(_) =>
    case PopAt(_, _) =>
    case PopReady(_, _) =>
    case PopClaimed(_, _) =>
    case PopGood(_, _) =>
    case PopCopied(_, _) =>
    case PopBad(_) =>
    case PopUncounted(_) =>
    case _ =>
  }

  lemma PopKeepsSizes(s: State, t: nat, spurious: bool)
    requires s.ring.mem.WellShaped() && SizesOk(s)
    ensures SizesOk(AdvancePop(s, t, spurious))
  {
    var s' := AdvancePop(s, t, spurious);
    if s.PcOf(t) != Idle && !InPush(s.PcOf(t)) {
      PopFrame(s, t, spurious);
    }
    PopKeepsWants(s, t, spurious);
    PopStepSize(s, t, spurious);
    PopStepDelivers(s, t, spurious);
    forall u
      ensures SizeOk(s'.PcOf(u), s'.WantOf(u), s'.ring.mem.slotBytes)
    {
      assert SizeOk(s.PcOf(u), s.WantOf(u), s.ring.mem.slotBytes);
    }
  }

  lemma StepKeepsSizes(s: State, a: Action)
    requires s.ring.mem.WellShaped() && SizesOk(s) && Enabled(s, a)
    ensures SizesOk(Apply(s, a))
  {
    match a
    case Advance(t, spurious) =>
      if InPush(s.PcOf(t)) {
        PushKeepsSizes(s, t, spurious);
      } else {
        PopKeepsSizes(s, t, spurious);
      }
    case _ =>
      forall u
        ensures SizeOk(Apply(s, a).PcOf(u), Apply(s, a).WantOf(u), Apply(s, a).ring.mem.slotBytes)
      {
        assert SizeOk(s.PcOf(u), s.WantOf(u), s.ring.mem.slotBytes);
      }
  }

  lemma {:induction false} RunKeepsSizes(s: State, actions: seq<Action>, s': State)
    requires SizesOk(s) && Executes(s, actions, s')
    ensures SizesOk(s')
    decreases |actions|
  {
    if actions != [] {
      StepKeepsSizes(s, actions[0]);
      RunKeepsSizes(Apply(s, actions[0]), actions[1..], s');
    }
  }

  lemma ReachableSizes(s: State)
    requires Reachable(s)
    ensures SizesOk(s)
  {
    var start, actions :| Initial(start) && Executes(start, actions, s);
    RunKeepsSizes(start, actions, s);
  }

  /** The size a thread asked for in its latest pop, going by the calls of a run. */
  function LastAsk(actions: seq<Action>, t: nat, before: nat): nat
    decreases |actions|
  {
    if actions == [] then before
    else
      var a := actions[0];
      LastAsk(actions[1..], t, if a.CallPop? && a.t == t then a.size else before)
  }

  lemma StepNotesAsk(s: State, a: Action, t: nat)
    requires s.ring.mem.WellShaped() && Enabled(s, a)
    ensures Apply(s, a).WantOf(t) == if a.CallPop? && a.t == t then a.size else s.WantOf(t)
  {
    if a.Advance? {
      if InPush(s.PcOf(a.t)) {
        PushKeepsNotes(s, a.t, a.spurious);
      } else {
        PopKeepsWants(s, a.t, a.spurious);
      }
    }
  }

  /** The history's note of what each consumer asked for is the size of its latest call. */
  lemma {:induction false} WantsAreCalls(s: State, actions: seq<Action>, s': State, t: nat)
    requires Executes(s, actions, s')
    ensures s'.WantOf(t) == LastAsk(actions, t, s.WantOf(t))
    decreases |actions|
  {
    if actions != [] {
      StepNotesAsk(s, actions[0], t);
      WantsAreCalls(Apply(s, actions[0]), actions[1..], s', t);
    }
  }

  /**
   Every outcome so far is the right one: of clean bytes as many as were asked for, as they were pushed, or a
   loss that the tag or the damage explains.
   */
  ghost predicate OutcomesExplained(s: State) {
    && (forall p | p in s.delivered ::
          p < |s.ring.log| && p in s.sizes.asked && |s.delivered[p]| == s.sizes.asked[p]
          && s.ring.log[p].tag == 0 && p !in s.ring.tainted)
    && (forall p, i | p in s.delivered && 0 <= i < |s.delivered[p]| && i < |s.ring.log[p].value| ::
          s.delivered[p][i] == s.ring.log[p].value[i])
    && (forall p | p in s.skipped :: p < |s.ring.log| && (s.ring.log[p].tag != 0 || p in s.ring.tainted))
    && (forall p: nat | p < s.ring.mem.head && !s.Open(p) :: p in s.delivered || p in s.skipped)
  }

  /**
   What a successful pop delivered for position p is what was pushed at p, and a position was counted
   as corrupted only if its tag was poisoned or its bytes were damaged.
   */
  lemma DeliveredIsPushed(s: State)
    requires Reachable(s)
    ensures OutcomesExplained(s)
  {
    ReachableInv(s);
    ReachableSizes(s);
    InvExplains(s);
  }

  lemma InvExplains(s: State)
    requires Inv(s) && SizesOk(s)
    ensures OutcomesExplained(s)
  {
  }

  // ----- order -----

  /** The values one producer put on the log, in log order. */
  function ValuesOf(log: seq<Entry>, t: nat): seq<seq<Byte>> {
    if log == [] then []
    else
      var last := log[|log| - 1];
      ValuesOf(log[..|log| - 1], t) + (if last.producer == t then [last.value] else [])
  }

  /** The value of a claimed but uncommitted push. */
  function InHand(pc: Pc): seq<seq<Byte>> {
    if pc.PushClaimed? || pc.PushFilled? || pc.PushTagged? then [pc.value] else []
  }

  predicate Increasing(a: seq<nat>) {
    forall i, j | 0 <= i < j < |a| :: a[i] < a[j]
  }

  /** A producer's values stand on the log in the order of its calls. */
  ghost predicate SentInOrder(s: State) {
    forall t :: ValuesOf(s.ring.log, t) == s.SentBy(t) + InHand(s.PcOf(t))
  }

  /** A consumer's positions increase, were delivered, and lie before the one it holds. */
  ghost predicate GotOk(s: State, t: nat) {
    && Increasing(s.GotBy(t))
    && (forall p | p in s.GotBy(t) :: p < |s.ring.takers| && s.ring.takers[p] == t && p in s.delivered)
    && (Reading(s.PcOf(t)) ==> forall p | p in s.GotBy(t) :: p < s.PcOf(t).pos)
  }

  ghost predicate GotInOrder(s: State) {
    && (forall t :: GotOk(s, t))
    && (forall p | p in s.delivered :: p < |s.ring.takers| && p in s.GotBy(s.ring.takers[p]))
  }

  lemma ValuesOfAppend(log: seq<Entry>, e: Entry, t: nat)
    ensures ValuesOf(log + [e], t) == ValuesOf(log, t) + (if e.producer == t then [e.value] else [])
  {
    assert (log + [e])[..|log|] == log;
  }

  /** What a step does to what a producer has sent and holds: nothing, a claim, or a commit. */
  ghost predicate SendStep(s: State, s': State, t: nat) {
    && (forall u | u != t :: s'.PcOf(u) == s.PcOf(u) && s'.SentBy(u) == s.SentBy(u))
    && (|| (s'.ring.log == s.ring.log && s'.SentBy(t) == s.SentBy(t) && InHand(s'.PcOf(t)) == InHand(s.PcOf(t)))
        || (exists e :: s'.ring.log == s.ring.log + [e] && e.producer == t && s'.SentBy(t) == s.SentBy(t)
              && InHand(s.PcOf(t)) == [] && InHand(s'.PcOf(t)) == [e.value])
        || (s'.ring.log == s.ring.log && s'.SentBy(t) == s.SentBy(t) + InHand(s.PcOf(t)) && InHand(s'.PcOf(t)) == []))
  }

  lemma SendStepKeeps(s: State, s': State, t: nat)
    requires SentInOrder(s) && SendStep(s, s', t)
    ensures SentInOrder(s')
  {
    forall u
      ensures ValuesOf(s'.ring.log, u) == s'.SentBy(u) + InHand(s'.PcOf(u))
    {
      assert ValuesOf(s.ring.log, u) == s.SentBy(u) + InHand(s.PcOf(u));
      if s'.ring.log != s.ring.log {
        var e :| s'.ring.log == s.ring.log + [e] && e.producer == t;
        ValuesOfAppend(s.ring.log, e, u);
      }
    }
  }

  lemma PushIsSendStep(s: State, t: nat, spurious: bool)
    requires s.ring.mem.WellShaped()
    ensures SendStep(s, AdvancePush(s, t, spurious), t)
  {
    var s' := AdvancePush(s, t, spurious);
    match s.PcOf(t)
    case PushStart(_, _) =>
    case PushAt(_, _, _) =>
    case PushReady(value, tag, _) =>
      if s'.ring != s.ring {
        var e := Entry(t, value, tag);
        assert s'.ring.log == s.ring.log + [e] && InHand(s'.PcOf(t)) == [e.value];
      }
    case PushClaimed(_, _, _) =>
    case PushFilled(_, _, _) =>
    case PushTagged(_, _, _) =>
    case _ =>
  }

  /** What a step does to what a consumer holds and has got: nothing, a claim, a delivery, or a loss. */
  ghost predicate GetStep(s: State, s': State, t: nat) {
    && (forall u | u != t :: s'.PcOf(u) == s.PcOf(u) && s'.GotBy(u) == s.GotBy(u))
    && (|| (s'.ring.takers == s.ring.takers && s'.GotBy(t) == s.GotBy(t) && s'.delivered == s.delivered
              && (Reading(s'.PcOf(t)) ==> Reading(s.PcOf(t)) && s'.PcOf(t).pos == s.PcOf(t).pos))
        || (s'.ring.takers == s.ring.takers + [t] && s'.GotBy(t) == s.GotBy(t) && s'.delivered == s.delivered
              && Reading(s'.PcOf(t)) && s'.PcOf(t).pos == |s.ring.takers|)
        || (s'.ring.takers == s.ring.takers && Reading(s.PcOf(t)) && !Reading(s'.PcOf(t))
              && s'.GotBy(t) == s.GotBy(t) + [s.PcOf(t).pos]
              && s'.delivered.Keys == s.delivered.Keys + {s.PcOf(t).pos}))
  }

  lemma IncreasingAppend(a: seq<nat>, x: nat)
    requires Increasing(a) && forall p | p in a :: p < x
    ensures Increasing(a + [x])
  {
    forall i, j | 0 <= i < j < |a + [x]|
      ensures (a + [x])[i] < (a + [x])[j]
    {
      assert a[i] in a;
    }
  }

  lemma GetStepGot(s: State, s': State, t: nat, u: nat)
    requires GotOk(s, u) && GetStep(s, s', t)
    requires Reading(s.PcOf(t)) ==> s.PcOf(t).pos < |s.ring.takers| && s.ring.takers[s.PcOf(t).pos] == t
    ensures GotOk(s', u)
  {
    forall p | p in s'.GotBy(u)
      ensures p < |s'.ring.takers| && s'.ring.takers[p] == u && p in s'.delivered
      ensures Reading(s'.PcOf(u)) ==> p < s'.PcOf(u).pos
    {
      if p in s.GotBy(u) {
        assert p in s.delivered.Keys && p in s'.delivered.Keys;
      } else {
        assert p == s.PcOf(t).pos && u == t;
      }
    }
    if s'.GotBy(u) != s.GotBy(u) {
      IncreasingAppend(s.GotBy(u), s.PcOf(t).pos);
    }
  }

  lemma GetStepKeeps(s: State, s': State, t: nat)
    requires GotInOrder(s) && GetStep(s, s', t)
    requires Reading(s.PcOf(t)) ==> s.PcOf(t).pos < |s.ring.takers| && s.ring.takers[s.PcOf(t).pos] == t
    ensures GotInOrder(s')
  {
    forall u
      ensures GotOk(s', u)
    {
      assert GotOk(s, u);
      GetStepGot(s, s', t, u);
    }
    forall p | p in s'.delivered
      ensures p < |s'.ring.takers| && p in s'.GotBy(s'.ring.takers[p])
    {
      if p in s.delivered {
        assert p in s.GotBy(s.ring.takers[p]);
      } else {
        assert p in s'.delivered.Keys;
        assert s'.GotBy(t)[|s.GotBy(t)|] == p;
      }
    }
  }

  lemma PopIsGetStep(s: State, t: nat, spurious: bool)
    requires Shape(s.ring) && s.PcOf(t) != Idle && !InPush(s.PcOf(t))
    requires s.PcOf(t).PopReady? ==> s.PcOf(t).pos <= s.ring.mem.head
    ensures GetStep(s, AdvancePop(s, t, spurious), t)
  {
    var s', pc := AdvancePop(s, t, spurious), s.PcOf(t);
    PopFrame(s, t, spurious);
    if pc.PopCopied? {
      assert s'.delivered.Keys == s.delivered.Keys + {pc.pos};
      assert s'.ring.takers == s.ring.takers;
    } else if pc.PopReady? {
      assert s'.got == s.got && s'.delivered == s.delivered;
    } else {
      assert s'.got == s.got && s'.delivered == s.delivered && s'.ring.takers == s.ring.takers;
    }
  }

  lemma InitialOrder(s: State)
    requires Initial(s)
    ensures SentInOrder(s) && GotInOrder(s)
  {
  }

  lemma QuietKeepsOrder(s: State, s': State, t: nat)
    requires SentInOrder(s) && GotInOrder(s)
    requires s'.ring.log == s.ring.log && s'.ring.takers == s.ring.takers
    requires s'.sent == s.sent && s'.got == s.got && s'.delivered == s.delivered
    requires forall u | u != t :: s'.PcOf(u) == s.PcOf(u)
    requires InHand(s'.PcOf(t)) == InHand(s.PcOf(t)) && (Reading(s'.PcOf(t)) ==> s'.PcOf(t) == s.PcOf(t))
    ensures SentInOrder(s') && GotInOrder(s')
  {
    assert SendStep(s, s', t) && GetStep(s, s', t);
    SendStepKeeps(s, s', t);
    forall u
      ensures GotOk(s', u)
    {
      assert GotOk(s, u);
    }
  }

  lemma CorruptKeepsOrder(s: State, a: Action)
    requires s.ring.mem.WellShaped() && a.Corrupt? && Enabled(s, a) && SentInOrder(s) && GotInOrder(s)
    ensures SentInOrder(Apply(s, a)) && GotInOrder(Apply(s, a))
  {
    QuietKeepsOrder(s, Apply(s, a), 0);
  }

  lemma PushKeepsOrder(s: State, t: nat, spurious: bool)
    requires Inv(s) && SentInOrder(s) && GotInOrder(s) && s.PcOf(t) != Idle && InPush(s.PcOf(t))
    ensures SentInOrder(AdvancePush(s, t, spurious)) && GotInOrder(AdvancePush(s, t, spurious))
  {
    var s' := AdvancePush(s, t, spurious);
    PushIsSendStep(s, t, spurious);
    SendStepKeeps(s, s', t);
    PushIsNoGetStep(s, t, spurious);
    GetStepKeeps(s, s', t);
  }

  lemma PushFrame(s: State, t: nat, spurious: bool)
    requires s.ring.mem.WellShaped() && InPush(s.PcOf(t))
    ensures var s' := AdvancePush(s, t, spurious);
      && s'.got == s.got && s'.delivered == s.delivered && s'.ring.takers == s.ring.takers
      && t in s'.threads && s'.threads == s.threads[t := s'.threads[t]] && !Reading(s'.threads[t])
  {
    match s.PcOf(t)
    case PushStart(_, _) =>
    case PushAt(_, _, _) =>
    case PushReady(_, _, _) =>
    case PushClaimed(_, _, _) =>
    case PushFilled(_, _, _) =>
    case PushTagged(_, _, _) =>
    case _ =>
  }

  lemma PushIsNoGetStep(s: State, t: nat, spurious: bool)
    requires s.ring.mem.WellShaped() && InPush(s.PcOf(t))
    ensures GetStep(s, AdvancePush(s, t, spurious), t)
  {
    PushFrame(s, t, spurious);
  }

  lemma PopKeepsOrder(s: State, t: nat, spurious: bool)
    requires Inv(s) && SentInOrder(s) && GotInOrder(s) && s.PcOf(t) != Idle && !InPush(s.PcOf(t))
    ensures SentInOrder(AdvancePop(s, t, spurious)) && GotInOrder(AdvancePop(s, t, spurious))
  {
    var s' := AdvancePop(s, t, spurious);
    assert ThreadOk(s.ring, t, s.threads[t]);
    PopIsGetStep(s, t, spurious);
    GetStepKeeps(s, s', t);
    PopIsNoSendStep(s, t, spurious);
    SendStepKeeps(s, s', t);
  }

  lemma PopFrame(s: State, t: nat, spurious: bool)
    requires s.ring.mem.WellShaped() && s.PcOf(t) != Idle && !InPush(s.PcOf(t))
    ensures var s' := AdvancePop(s, t, spurious);
      && s'.sent == s.sent && s'.ring.log == s.ring.log
      && t in s'.threads && s'.threads == s.threads[t := s'.threads[t]] && InHand(s'.threads[t]) == []
  {
    match s.PcOf(t)
    case PopStart(_) =>
    case PopAt(_, _) =>
    case PopReady(_, _) =>
    case PopClaimed(_, _) =>
    case PopGood(_, _) =>
    case PopCopied(_, _) =>
    case PopBad(_) =>
    case PopUncounted(_) =>
    case _ =>
  }

  lemma PopIsNoSendStep(s: State, t: nat, spurious: bool)
    requires s.ring.mem.WellShaped() && s.PcOf(t) != Idle && !InPush(s.PcOf(t))
    ensures SendStep(s, AdvancePop(s, t, spurious), t)
  {
    PopFrame(s, t, spurious);
  }

  lemma StepKeepsOrder(s: State, a: Action)
    requires Inv(s) && SentInOrder(s) && GotInOrder(s) && Enabled(s, a)
    ensures SentInOrder(Apply(s, a)) && GotInOrder(Apply(s, a))
  {
    match a
    case CallPush(t, _, _) => QuietKeepsOrder(s, Apply(s, a), t);
    case CallPop(t, _) => QuietKeepsOrder(s, Apply(s, a), t);
    case Corrupt(_, _, _, _) => CorruptKeepsOrder(s, a);
    case Advance(t, spurious) =>
      if InPush(s.PcOf(t)) {
        PushKeepsOrder(s, t, spurious);
      } else {
        PopKeepsOrder(s, t, spurious);
      }
  }

  lemma {:induction false} RunKeepsOrder(s: State, actions: seq<Action>, s': State)
    requires Inv(s) && SentInOrder(s) && GotInOrder(s) && Executes(s, actions, s')
    ensures SentInOrder(s') && GotInOrder(s')
    decreases |actions|
  {
    if actions != [] {
      StepKeepsOrder(s, actions[0]);
      StepKeeps(s, actions[0]);
      RunKeepsOrder(Apply(s, actions[0]), actions[1..], s');
    }
  }

  /** In every reachable state each producer's and each consumer's calls stand in order. */
  lemma OrderOfCalls(s: State)
    requires Reachable(s)
    ensures SentInOrder(s) && GotInOrder(s)
  {
    var start, actions :| Initial(start) && Executes(start, actions, s);
    InitialInv(start);
    InitialOrder(start);
    RunKeepsOrder(start, actions, s);
  }

  /** Where the entry at position p stands among its producer's values. */
  function Rank(log: seq<Entry>, p: nat): nat
    requires p < |log|
  {
    |ValuesOf(log[..p], log[p].producer)|
  }

  lemma {:induction false} RankIsIndex(log: seq<Entry>, p: nat)
    requires p < |log|
    ensures Rank(log, p) < |ValuesOf(log, log[p].producer)|
    ensures ValuesOf(log, log[p].producer)[Rank(log, p)] == log[p].value
    decreases |log|
  {
    var last := |log| - 1;
    if p == last {
      assert log[..p] == log[..last];
    } else {
      RankIsIndex(log[..last], p);
      assert log[..last][..p] == log[..p];
    }
  }

  lemma {:induction false} RankIncreases(log: seq<Entry>, p: nat, q: nat)
    requires p < q < |log| && log[p].producer == log[q].producer
    ensures Rank(log, p) < Rank(log, q)
  {
    RankIsIndex(log[..q], p);
    assert log[..q][..p] == log[..p];
  }

  /** The log only grows. */
  lemma {:induction false} RunGrowsLog(s: State, actions: seq<Action>, s': State)
    requires Inv(s) && Executes(s, actions, s')
    ensures s.ring.log <= s'.ring.log
    decreases |actions|
  {
    if actions != [] {
      StepRefinesFifo(s, actions[0]);
      StepKeeps(s, actions[0]);
      RunGrowsLog(Apply(s, actions[0]), actions[1..], s');
    }
  }

  /** Two deliveries to one consumer, from one producer. */
  ghost predicate SameStream(s: State, consumer: nat, i: nat, j: nat) {
    && i < j < |s.GotBy(consumer)|
    && s.GotBy(consumer)[i] < |s.ring.log| && s.GotBy(consumer)[j] < |s.ring.log|
    && s.ring.log[s.GotBy(consumer)[i]].producer == s.ring.log[s.GotBy(consumer)[j]].producer
  }

  /** Position p was delivered in the size asked for, and its bytes are those of value as far as that goes. */
  predicate Delivers(s: State, p: nat, value: seq<Byte>) {
    && p in s.delivered && p in s.sizes.asked && |s.delivered[p]| == s.sizes.asked[p]
    && forall i | 0 <= i < |s.delivered[p]| && i < |value| :: s.delivered[p][i] == value[i]
  }

  /** They are what the producer sent as its a-th and, later, its b-th value. */
  ghost predicate ArriveInOrder(s: State, consumer: nat, i: nat, j: nat, a: nat, b: nat)
    requires SameStream(s, consumer, i, j)
  {
    var p, q, producer := s.GotBy(consumer)[i], s.GotBy(consumer)[j], s.ring.log[s.GotBy(consumer)[i]].producer;
    && a < b < |s.SentBy(producer)|
    && Delivers(s, p, s.SentBy(producer)[a]) && Delivers(s, q, s.SentBy(producer)[b])
  }

  /**
   First in, first out: of two records that one consumer got from one producer, the one it got first
   was sent first, and both arrive as they were sent.
   */
  lemma FifoPerProducer(s: State, consumer: nat, i: nat, j: nat) returns (a: nat, b: nat)
    requires Reachable(s) && SameStream(s, consumer, i, j)
    ensures ArriveInOrder(s, consumer, i, j, a, b)
  {
    ReachableInv(s);
    ReachableSizes(s);
    OrderOfCalls(s);
    a, b := InOrderMeansFifo(s, consumer, i, j);
  }

  lemma DeliveredAsPushed(s: State, p: nat)
    requires Inv(s) && SizesOk(s) && p in s.delivered
    ensures p < |s.ring.log| && Delivers(s, p, s.ring.log[p].value)
  {
  }

  lemma InOrderMeansFifo(s: State, consumer: nat, i: nat, j: nat) returns (a: nat, b: nat)
    requires Inv(s) && SizesOk(s) && SentInOrder(s) && GotInOrder(s) && SameStream(s, consumer, i, j)
    ensures ArriveInOrder(s, consumer, i, j, a, b)
  {
    var p, q := s.GotBy(consumer)[i], s.GotBy(consumer)[j];
    assert GotOk(s, consumer) && p in s.GotBy(consumer) && q in s.GotBy(consumer);
    a, b := OrderMeansFifo(s, consumer, i, j);
    DeliveredAsPushed(s, p);
    DeliveredAsPushed(s, q);
  }

  lemma OrderMeansFifo(s: State, consumer: nat, i: nat, j: nat) returns (a: nat, b: nat)
    requires Inv(s) && SentInOrder(s) && GotInOrder(s) && SameStream(s, consumer, i, j)
    ensures var p, q := s.GotBy(consumer)[i], s.GotBy(consumer)[j]; var sent := s.SentBy(s.ring.log[p].producer);
      a < b < |sent| && sent[a] == s.ring.log[p].value && sent[b] == s.ring.log[q].value
  {
    var p, q := s.GotBy(consumer)[i], s.GotBy(consumer)[j];
    var producer := s.ring.log[p].producer;
    assert GotOk(s, consumer) && p < q && p in s.GotBy(consumer) && q in s.GotBy(consumer);
    a, b := Rank(s.ring.log, p), Rank(s.ring.log, q);
    RankIsIndex(s.ring.log, p);
    RankIsIndex(s.ring.log, q);
    RankIncreases(s.ring.log, p, q);
    assert ValuesOf(s.ring.log, producer) == s.SentBy(producer) + InHand(s.PcOf(producer));
    var pc := s.PcOf(producer);
    if InHand(pc) != [] {
      // A push still in hand holds a later position than any delivered one.
      assert ThreadOk(s.ring, producer, pc) && s.Producing(pc.pos);
      RankIncreases(s.ring.log, q, pc.pos);
      RankIsIndex(s.ring.log, pc.pos);
    }
  }
}
