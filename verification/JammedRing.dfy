/** A ring whose tail stands at a slot that has moved on: no push ever succeeds on it again. */
module JammedRing {
  import opened Words
  import opened RingProtocol
  import opened RingFifo
  import opened RingRecovery
  import opened TakeoverRace

  /**
   The slot for the position at tail has moved on already, nothing below it can bring it back, and nobody
   stands ready to claim it.
   */
  ghost predicate Jammed(s: State, p: nat) {
    && JammedRing(s.ring.mem, p)
    && forall t :: JammedThread(s.PcOf(t), p, |s.ring.mem.cells|)
  }

  predicate JammedRing(mem: Memory, p: nat) {
    mem.WellShaped() && Bounded(mem) && mem.tail == p && JammedSlots(mem, p)
  }

  predicate JammedSlots(mem: Memory, p: nat)
    requires mem.WellShaped()
  {
    && mem.At(p).sequence in {p + 1, p + |mem.cells|} && mem.At(p + 1).sequence <= p + 1
    && mem.head <= p + 1 && p < mem.head + |mem.cells|
  }

  predicate JammedThread(pc: Pc, p: nat, n: nat) {
    match pc
    case PushReady(_, _, pos) => pos != p
    case PushClaimed(_, _, _) => false
    case PushFilled(_, _, _) => false
    case PushTagged(_, _, _) => false
    case PopAt(_, pos) => pos <= p + 1
    case PopReady(_, pos) => pos <= p
    case PopClaimed(_, pos) => pos <= p < pos + n
    case PopGood(_, pos) => pos <= p < pos + n
    case PopCopied(pos, _) => pos <= p < pos + n
    case PopBad(pos) => pos <= p < pos + n
    case _ => true
  }

  lemma PushStaysJammed(s: State, t: nat, spurious: bool, p: nat)
    requires Jammed(s, p) && InPush(s.PcOf(t))
    ensures var s' := AdvancePush(s, t, spurious); Jammed(s', p) && s'.ring == s.ring
  {
    var s', mem, n := AdvancePush(s, t, spurious), s.ring.mem, |s.ring.mem.cells|;
    assert JammedThread(s.PcOf(t), p, n);
    PushFrame(s, t, spurious);
    assert s'.ring == s.ring && JammedThread(s'.PcOf(t), p, n) by {
      JammedPush(s, t, spurious, p);
    }
    forall u
      ensures JammedThread(s'.PcOf(u), p, n)
    {
      assert JammedThread(s.PcOf(u), p, n);
      assert u != t ==> s'.PcOf(u) == s.PcOf(u);
    }
  }

  lemma JammedPush(s: State, t: nat, spurious: bool, p: nat)
    requires JammedRing(s.ring.mem, p) && InPush(s.PcOf(t)) && JammedThread(s.PcOf(t), p, |s.ring.mem.cells|)
    ensures var s' := AdvancePush(s, t, spurious);
      s'.ring == s.ring && JammedThread(s'.PcOf(t), p, |s.ring.mem.cells|)
  {
    match s.PcOf(t)
    case PushStart(_, _) =>
    case PushAt(_, _, _) =>
    case PushReady(_, _, _) =>
    case _ =>
  }

  /** Releasing q, at or below p and within a lap of it, leaves the slots of p and p + 1 past any push. */
  lemma ReleaseStaysJammed(mem: Memory, q: nat, p: nat)
    requires JammedRing(mem, p) && q <= p < q + |mem.cells|
    ensures q + |mem.cells| < TWO_TO_THE_64
    ensures var mem' := mem.Put(q, mem.At(q).(sequence := q + |mem.cells|));
      mem'.WellShaped() && JammedSlots(mem', p)
  {
    var n := |mem.cells|;
    var mem' := mem.Put(q, mem.At(q).(sequence := q + n));
    if q != p {
      Apart(n, q, p);
    }
    Apart(n, p, p + 1);
    if q + n == p + 1 {
    } else if q + n > p + 1 {
      Apart(n, q, p + 1);
    }
  }

  /** What a step of a pop leaves. */
  ghost predicate PopJammed(s: State, s': State, t: nat, p: nat) {
    && JammedRing(s'.ring.mem, p) && |s'.ring.mem.cells| == |s.ring.mem.cells| && s'.ring.log == s.ring.log
    && JammedThread(s'.PcOf(t), p, |s.ring.mem.cells|)
  }

  lemma SignedApart(a: Word, b: Word)
    requires a != b
    ensures Distance(a, b) != 0
  {
  }

  /** A pop that looks at p + 1 finds nothing there. */
  lemma NothingAbove(s: State, t: nat, spurious: bool, p: nat)
    requires JammedRing(s.ring.mem, p) && s.PcOf(t).PopAt? && s.PcOf(t).pos == p + 1
    ensures !AdvancePop(s, t, spurious).PcOf(t).PopReady?
  {
    assert Add(p + 1, 1) == p + 2;
    SignedApart(s.ring.mem.At(p + 1).sequence, p + 2);
  }

  lemma LookOnly(s: State, t: nat, spurious: bool)
    requires s.ring.mem.WellShaped() && (s.PcOf(t).PopStart? || s.PcOf(t).PopAt?)
    ensures var pc, s' := s.PcOf(t), AdvancePop(s, t, spurious);
      && s'.ring == s.ring
      && (pc.PopStart? ==> s'.PcOf(t) == PopAt(pc.size, s.ring.mem.head))
      && (pc.PopAt? ==> s'.PcOf(t) in {PopReady(pc.size, pc.pos), Idle, PopStart(pc.size)})
  {
  }

  lemma JammedLook(s: State, t: nat, spurious: bool, p: nat)
    requires JammedRing(s.ring.mem, p) && (s.PcOf(t).PopStart? || s.PcOf(t).PopAt?)
    requires JammedThread(s.PcOf(t), p, |s.ring.mem.cells|)
    ensures PopJammed(s, AdvancePop(s, t, spurious), t, p)
  {
    LookOnly(s, t, spurious);
    if s.PcOf(t).PopAt? && s.PcOf(t).pos == p + 1 {
      NothingAbove(s, t, spurious, p);
    }
  }

  lemma JammedTake(s: State, t: nat, spurious: bool, p: nat)
    requires JammedRing(s.ring.mem, p) && s.PcOf(t).PopReady? && JammedThread(s.PcOf(t), p, |s.ring.mem.cells|)
    ensures PopJammed(s, AdvancePop(s, t, spurious), t, p)
  {
    var mem, pos := s.ring.mem, s.PcOf(t).pos;
    assert Add(pos, 1) == pos + 1;
    if mem.head == pos && !spurious {
      var mem' := mem.(head := pos + 1);
      assert mem'.At(p) == mem.At(p) && mem'.At(p + 1) == mem.At(p + 1);
    }
  }

  lemma JammedHold(s: State, t: nat, spurious: bool, p: nat)
    requires JammedRing(s.ring.mem, p) && (s.PcOf(t).PopClaimed? || s.PcOf(t).PopGood? || s.PcOf(t).PopUncounted?)
    requires JammedThread(s.PcOf(t), p, |s.ring.mem.cells|)
    ensures PopJammed(s, AdvancePop(s, t, spurious), t, p)
  {
    var mem, mem' := s.ring.mem, AdvancePop(s, t, spurious).ring.mem;
    assert mem'.At(p) == mem.At(p) && mem'.At(p + 1) == mem.At(p + 1);
  }

  lemma ReleasedMemory(s: State, t: nat, spurious: bool)
    requires s.ring.mem.WellShaped() && (s.PcOf(t).PopCopied? || s.PcOf(t).PopBad?)
    requires s.PcOf(t).pos + |s.ring.mem.cells| < TWO_TO_THE_64
    ensures var mem, pos, s' := s.ring.mem, s.PcOf(t).pos, AdvancePop(s, t, spurious);
      && s'.ring.mem == mem.Put(pos, mem.At(pos).(sequence := pos + |mem.cells|)) && s'.ring.log == s.ring.log
      && (s'.PcOf(t) == Idle || s'.PcOf(t) == PopUncounted(pos))
  {
    assert Add(s.PcOf(t).pos, |s.ring.mem.cells|) == s.PcOf(t).pos + |s.ring.mem.cells|;
  }

  lemma JammedRelease(s: State, t: nat, spurious: bool, p: nat)
    requires JammedRing(s.ring.mem, p) && (s.PcOf(t).PopCopied? || s.PcOf(t).PopBad?)
    requires JammedThread(s.PcOf(t), p, |s.ring.mem.cells|)
    ensures PopJammed(s, AdvancePop(s, t, spurious), t, p)
  {
    ReleaseStaysJammed(s.ring.mem, s.PcOf(t).pos, p);
    ReleasedMemory(s, t, spurious);
  }

  lemma JammedPop(s: State, t: nat, spurious: bool, p: nat)
    requires JammedRing(s.ring.mem, p) && s.PcOf(t) != Idle && !InPush(s.PcOf(t))
    requires JammedThread(s.PcOf(t), p, |s.ring.mem.cells|)
    ensures PopJammed(s, AdvancePop(s, t, spurious), t, p)
  {
    match s.PcOf(t)
    case PopStart(_) => JammedLook(s, t, spurious, p);
    case PopAt(_, _) => JammedLook(s, t, spurious, p);
    case PopReady(_, _) => JammedTake(s, t, spurious, p);
    case PopClaimed(_, _) => JammedHold(s, t, spurious, p);
    case PopGood(_, _) => JammedHold(s, t, spurious, p);
    case PopCopied(_, _) => JammedRelease(s, t, spurious, p);
    case PopBad(_) => JammedRelease(s, t, spurious, p);
    case PopUncounted(_) => JammedHold(s, t, spurious, p);
    case _ =>
  }

  lemma PopStaysJammed(s: State, t: nat, spurious: bool, p: nat)
    requires Jammed(s, p) && s.PcOf(t) != Idle && !InPush(s.PcOf(t))
    ensures var s' := AdvancePop(s, t, spurious); Jammed(s', p) && s'.ring.log == s.ring.log
  {
    var s' := AdvancePop(s, t, spurious);
    assert JammedThread(s.PcOf(t), p, |s.ring.mem.cells|);
    JammedPop(s, t, spurious, p);
    PopStaysOutside(s, t, spurious);
    forall u
      ensures JammedThread(s'.PcOf(u), p, |s.ring.mem.cells|)
    {
      assert JammedThread(s.PcOf(u), p, |s.ring.mem.cells|);
    }
  }

  lemma CorruptStaysJammed(s: State, a: Action, p: nat)
    requires Jammed(s, p) && a.Corrupt? && Enabled(s, a) && Apply(s, a).ring.mem.WellShaped()
    ensures Jammed(Apply(s, a), p) && Apply(s, a).ring.log == s.ring.log
  {
    var s' := Apply(s, a);
    assert forall q: nat :: s'.ring.mem.At(q).sequence == s.ring.mem.At(q).sequence;
    forall u
      ensures JammedThread(s'.PcOf(u), p, |s.ring.mem.cells|)
    {
      assert JammedThread(s.PcOf(u), p, |s.ring.mem.cells|);
    }
  }

  lemma StepStaysJammed(s: State, a: Action, p: nat)
    requires Jammed(s, p) && Enabled(s, a) && Apply(s, a).ring.mem.WellShaped()
    ensures Jammed(Apply(s, a), p) && Apply(s, a).ring.log == s.ring.log
  {
    match a
    case CallPush(t, _, _) => CallStaysJammed(s, t, Apply(s, a), p);
    case CallPop(t, _) => CallStaysJammed(s, t, Apply(s, a), p);
    case Corrupt(_, _, _, _) => CorruptStaysJammed(s, a, p);
    case Advance(t, spurious) =>
      if InPush(s.PcOf(t)) {
        PushStaysJammed(s, t, spurious, p);
      } else {
        PopStaysJammed(s, t, spurious, p);
      }
  }

  lemma CallStaysJammed(s: State, t: nat, s': State, p: nat)
    requires Jammed(s, p) && s' == s.Move(t, s'.PcOf(t)).(sizes := s'.sizes)
    requires s'.PcOf(t).PushStart? || s'.PcOf(t).PopStart?
    ensures Jammed(s', p)
  {
    forall u
      ensures JammedThread(s'.PcOf(u), p, |s.ring.mem.cells|)
    {
      assert JammedThread(s.PcOf(u), p, |s.ring.mem.cells|);
    }
  }

  /** No push succeeds any more, whoever calls and however often, and no pop brings tail's slot back. */
  lemma {:induction false} JammedForever(s: State, actions: seq<Action>, s': State, p: nat)
    requires Jammed(s, p) && Executes(s, actions, s')
    ensures Jammed(s', p) && s'.ring.log == s.ring.log
    decreases |actions|
  {
    if actions != [] {
      StepStaysJammed(s, actions[0], p);
      JammedForever(Apply(s, actions[0]), actions[1..], s', p);
    }
  }

  /** Nobody but u holds a claim, and nobody stands ready to claim prior. */
  ghost predicate NoneReady(s: State, prior: nat, u: nat) {
    forall t | t != u && InPush(s.PcOf(t)) ::
      s.PcOf(t).PushStart? || s.PcOf(t).PushAt? || (s.PcOf(t).PushReady? && s.PcOf(t).pos != prior)
  }

  lemma ThreadJams(s: State, prior: nat, t: nat)
    requires Inv(s) && s.ring.mem.tail == prior + 1
    requires InPush(s.PcOf(t)) ==>
               s.PcOf(t).PushStart? || s.PcOf(t).PushAt? || (s.PcOf(t).PushReady? && s.PcOf(t).pos != prior)
    ensures JammedThread(s.PcOf(t), prior, |s.ring.mem.cells|)
  {
    if t in s.threads {
      assert ThreadOk(s.ring, t, s.threads[t]);
      var pc := s.PcOf(t);
      if pc.PopClaimed? || pc.PopGood? || pc.PopCopied? || pc.PopBad? {
        assert s.Consuming(pc.pos);
      }
      if pc.PopReady? && pc.pos == s.ring.mem.tail {
        ReadyMeansItem(s);
      }
    }
  }

  lemma SlotBelow(s: State, prior: nat)
    requires Inv(s) && s.ring.mem.tail == prior + 1 && s.Committed(prior)
    ensures s.ring.mem.At(prior).sequence in {prior + 1, prior + |s.ring.mem.cells|}
  {
    if prior < s.ring.mem.head {
      TakenSlot(s, prior);
    } else {
      SequenceAt(s, prior);
    }
  }

  lemma TakenSlot(s: State, prior: nat)
    requires Inv(s) && s.ring.mem.tail == prior + 1 == s.ring.mem.head
    ensures s.ring.mem.At(prior).sequence in {prior + 1, prior + |s.ring.mem.cells|}
  {
    IndexNextLap(prior, |s.ring.mem.cells|);
    SequenceAt(s, prior + |s.ring.mem.cells|);
  }

  lemma SlotAtTail(s: State)
    requires Inv(s)
    ensures s.ring.mem.At(s.ring.mem.tail).sequence <= s.ring.mem.tail
  {
    if s.ring.mem.tail == s.ring.mem.head + |s.ring.mem.cells| {
      IndexNextLap(s.ring.mem.head, |s.ring.mem.cells|);
      SequenceAt(s, s.ring.mem.head);
    } else {
      SequenceAt(s, s.ring.mem.tail);
    }
  }

  lemma SlotsJam(s: State, prior: Word)
    requires Inv(s) && s.ring.mem.tail == prior + 1 && s.Committed(prior)
    ensures JammedRing(s.ring.mem.(tail := prior), prior)
  {
    var mem := s.ring.mem;
    var mem' := mem.(tail := prior);
    SlotBelow(s, prior);
    SlotAtTail(s);
    assert mem'.At(prior) == mem.At(prior) && mem'.At(prior + 1) == mem.At(prior + 1);
  }

  /** A committed record given back jams the ring, unless some producer stands ready for its position already. */
  lemma GivenBackJams(s: State, prior: Word)
    requires Inv(s) && s.ring.mem.tail == prior + 1 && s.Committed(prior)
    requires forall t | InPush(s.PcOf(t)) ::
               s.PcOf(t).PushStart? || s.PcOf(t).PushAt? || (s.PcOf(t).PushReady? && s.PcOf(t).pos != prior)
    ensures Jammed(GiveBack(s, prior), prior)
  {
    SlotsJam(s, prior);
    forall t
      ensures JammedThread(GiveBack(s, prior).PcOf(t), prior, |s.ring.mem.cells|)
    {
      assert GiveBack(s, prior).PcOf(t) == s.PcOf(t);
      ThreadJams(s, prior, t);
    }
  }

  /** A live claim given back jams it with its commit. */
  lemma LateCommitJams(s: State, t: nat, prior: Word)
    requires Inv(s) && s.ring.mem.tail == prior + 1 && s.PcOf(t).PushTagged? && s.PcOf(t).pos == prior
    requires NoneReady(s, prior, t)
    ensures GiveBack(s, prior).ring.mem.WellShaped()
    ensures Jammed(AdvancePush(GiveBack(s, prior), t, false), prior)
  {
    assert ThreadOk(s.ring, t, s.threads[t]);
    var s' := AdvancePush(s, t, false);
    PushFrame(s, t, false);
    StepKeeps(s, Advance(t, false));
    CommitCommutes(s, t, prior);
    forall u | InPush(s'.PcOf(u))
      ensures s'.PcOf(u).PushStart? || s'.PcOf(u).PushAt? || (s'.PcOf(u).PushReady? && s'.PcOf(u).pos != prior)
    {
      assert u != t && s'.PcOf(u) == s.PcOf(u);
    }
    GivenBackJams(s', prior);
  }

  lemma CommitCommutes(s: State, t: nat, prior: Word)
    requires s.ring.mem.WellShaped() && s.PcOf(t).PushTagged? && s.PcOf(t).pos == prior && |s.ring.log| == prior + 1
    ensures GiveBack(s, prior).ring.mem.WellShaped()
    ensures AdvancePush(GiveBack(s, prior), t, false) == GiveBack(AdvancePush(s, t, false), prior)
    ensures var s' := AdvancePush(s, t, false);
      s'.PcOf(t) == Idle && s'.ring.mem.tail == s.ring.mem.tail && s'.ring.log == s.ring.log
  {
  }
}
