/** What the two attach-time inspections say about a ring that any interleaving of calls produced. */
module RingRecovery {
  import opened Words
  import opened Crc32c
  import opened RingProtocol
  import opened RingTheorems
  import opened RingBuffer

  /** No position is claimed and uncommitted, or taken and unreleased. */
  ghost predicate NoClaim(s: State) {
    (forall p: nat :: !s.Producing(p)) && (forall p: nat :: !s.Consuming(p))
  }

  /** On a snapshot of a reachable ring the consistency check accepts exactly when no claim is in flight. */
  lemma ConsistentWhenUnclaimed(s: State)
    requires Reachable(s)
    ensures s.ring.mem.WellShaped()
    ensures Consistent(s.ring.mem) <==> NoClaim(s)
  {
    ReachableInv(s);
    InvConsistent(s);
  }

  lemma InvConsistent(s: State)
    requires Inv(s)
    ensures Consistent(s.ring.mem) <==> NoClaim(s)
  {
    forall p: nat
      ensures s.Producing(p) || s.Consuming(p) ==> !Consistent(s.ring.mem)
    {
      if s.Producing(p) || s.Consuming(p) {
        ClaimShows(s, p);
      }
    }
  }

  /** A position in flight leaves its slot off the marker a quiescent ring shows. */
  lemma ClaimShows(s: State, p: nat)
    requires Inv(s) && (s.Producing(p) || s.Consuming(p))
    ensures !Consistent(s.ring.mem)
  {
    var mem, n := s.ring.mem, |s.ring.mem.cells|;
    if s.Producing(p) {
      assert mem.At(p).sequence == p;
    } else {
      assert mem.At(p + n).sequence == p + 1;
    }
  }

  // ----- derive_state -----

  /** A counter at a position served by slot i decodes as ready, one past it as committed. */
  lemma ReadyDecodes(p: nat, i: nat, n: nat)
    requires 2 <= n && i < n && p % n == i && p + n < TWO_TO_THE_64
    ensures WellFormed(p, i, n) && FirstUnconsumed(p, i, n) == p && FirstUncommitted(p, i, n) == p
    ensures WellFormed(p + 1, i, n) && FirstUnconsumed(p + 1, i, n) == p && FirstUncommitted(p + 1, i, n) == p + n
  {
    MarkerResidue(p, i, n);
  }

  /** The three counters a slot can show for its window position p: ready, committed, or held by p - n. */
  lemma SequenceDecodes(q: nat, p: nat, i: nat, n: nat)
    requires 2 <= n && i < n && p % n == i && p + n < TWO_TO_THE_64 && (q in {p, p + 1} || (p >= n && q == p - n + 1))
    ensures q < TWO_TO_THE_64 && WellFormed(q, i, n)
    ensures q == p ==> FirstUnconsumed(q, i, n) == p && FirstUncommitted(q, i, n) == p
    ensures q == p + 1 ==> FirstUnconsumed(q, i, n) == p && FirstUncommitted(q, i, n) == p + n
    ensures q == p - n + 1 ==> FirstUnconsumed(q, i, n) == p - n && FirstUncommitted(q, i, n) == p
  {
    ReadyDecodes(p, i, n);
    if p >= n {
      ModNextLap(p - n, n);
      ReadyDecodes(p - n, i, n);
    }
  }

  lemma SequenceAt(s: State, p: nat)
    requires Inv(s) && s.ring.mem.head <= p < s.ring.mem.head + |s.ring.mem.cells|
    ensures var mem, n := s.ring.mem, |s.ring.mem.cells|;
      mem.At(p).sequence ==
      if p < mem.tail then (if s.Producing(p) then p else p + 1)
      else if p >= n && s.Consuming(p - n) then p - n + 1 else p
  {
  }

  /** What slot i decodes to, by the phase of the window position it serves. */
  lemma SlotDecodes(s: State, i: nat)
    requires Inv(s) && i < |s.ring.mem.cells|
    ensures var mem, n := s.ring.mem, |s.ring.mem.cells|; var p := WindowPosition(i, mem.head, n);
      && mem.head <= p < mem.head + n && mem.At(p) == mem.cells[i]
      && Decodes(mem, i)
      && UnconsumedAt(mem, i) == (if p >= mem.tail && p >= n && s.Consuming(p - n) then p - n else p)
      && UncommittedAt(mem, i) == (if p < mem.tail && !s.Producing(p) then p + n else p)
  {
    var mem, n := s.ring.mem, |s.ring.mem.cells|;
    var p := WindowPosition(i, mem.head, n);
    SlotOfWindow(mem, i);
    WindowResidue(i, mem.head, n);
    SequenceAt(s, p);
    SequenceDecodes(mem.cells[i].sequence, p, i, n);
  }

  /** The slot serving a window position. */
  lemma SlotAt(s: State, p: nat)
    requires Inv(s) && s.ring.mem.head <= p < s.ring.mem.head + |s.ring.mem.cells|
    ensures WindowPosition(Index(p, |s.ring.mem.cells|), s.ring.mem.head, |s.ring.mem.cells|) == p
  {
    WindowIndex(p, s.ring.mem.head, |s.ring.mem.cells|);
  }

  /** Every slot of a reachable ring decodes. */
  lemma ReachableDecodes(s: State)
    requires Reachable(s)
    ensures forall i | 0 <= i < |s.ring.mem.cells| :: Decodes(s.ring.mem, i)
  {
    ReachableInv(s);
    forall i | 0 <= i < |s.ring.mem.cells|
      ensures Decodes(s.ring.mem, i)
    {
      SlotDecodes(s, i);
    }
  }

  /**
   Reconstruction from the slot counters of a reachable ring, while calls are in flight: head is the
   least of the stored head and the positions being consumed, tail the least of the stored tail and
   the positions being produced.
   */
  lemma DerivedExactly(s: State, d: DerivedState)
    requires Reachable(s)
    requires forall i | 0 <= i < |s.ring.mem.cells| :: Decodes(s.ring.mem, i)
    requires Derived(s.ring.mem, d)
    ensures d.head <= s.ring.mem.head && forall p: nat | s.Consuming(p) :: d.head <= p
    ensures d.head == s.ring.mem.head || s.Consuming(d.head)
    ensures d.tail <= s.ring.mem.tail && forall p: nat | s.Producing(p) :: d.tail <= p
    ensures d.tail == s.ring.mem.tail || s.Producing(d.tail)
    ensures NoClaim(s) ==> d == DerivedState(s.ring.mem.head, s.ring.mem.tail)
  {
    ReachableInv(s);
    DerivedHead(s, d);
    DerivedTail(s, d);
  }

  lemma ConsumedSlot(s: State, p: nat) returns (i: nat)
    requires Inv(s) && s.Consuming(p)
    ensures i < |s.ring.mem.cells| && Decodes(s.ring.mem, i) && UnconsumedAt(s.ring.mem, i) == p
  {
    var q := p + |s.ring.mem.cells|;
    ConsumingWindow(s, p);
    i := Index(q, |s.ring.mem.cells|);
    SlotAt(s, q);
    SlotDecodes(s, i);
    assert q - |s.ring.mem.cells| == p;
  }

  lemma ConsumingWindow(s: State, p: nat)
    requires Inv(s) && s.Consuming(p)
    ensures p < s.ring.mem.head <= s.ring.mem.tail <= p + |s.ring.mem.cells|
  {
  }

  lemma HeadBelowConsuming(s: State, d: DerivedState, p: nat)
    requires Inv(s) && s.Consuming(p)
    requires forall i | 0 <= i < |s.ring.mem.cells| :: Decodes(s.ring.mem, i)
    requires Derived(s.ring.mem, d)
    ensures d.head <= p
  {
    var i := ConsumedSlot(s, p);
  }

  lemma DerivedHead(s: State, d: DerivedState)
    requires Inv(s)
    requires forall i | 0 <= i < |s.ring.mem.cells| :: Decodes(s.ring.mem, i)
    requires Derived(s.ring.mem, d)
    ensures d.head <= s.ring.mem.head && forall p: nat | s.Consuming(p) :: d.head <= p
    ensures d.head == s.ring.mem.head || s.Consuming(d.head)
  {
    var mem, n := s.ring.mem, |s.ring.mem.cells|;
    SlotAt(s, mem.head);
    SlotDecodes(s, Index(mem.head, n));
    assert d.head <= UnconsumedAt(mem, Index(mem.head, n));
    forall p: nat | s.Consuming(p)
      ensures d.head <= p
    {
      HeadBelowConsuming(s, d, p);
    }
    var i :| 0 <= i < n && d.head == UnconsumedAt(mem, i);
    SlotDecodes(s, i);
  }

  lemma DerivedTail(s: State, d: DerivedState)
    requires Inv(s)
    requires forall i | 0 <= i < |s.ring.mem.cells| :: Decodes(s.ring.mem, i)
    requires Derived(s.ring.mem, d)
    ensures d.tail <= s.ring.mem.tail && forall p: nat | s.Producing(p) :: d.tail <= p
    ensures d.tail == s.ring.mem.tail || s.Producing(d.tail)
  {
    var mem, n := s.ring.mem, |s.ring.mem.cells|;
    var p0 := if mem.tail < mem.head + n then mem.tail else mem.head;
    SlotAt(s, p0);
    SlotDecodes(s, Index(p0, n));
    assert d.tail <= UncommittedAt(mem, Index(p0, n));
    forall p: nat | s.Producing(p)
      ensures d.tail <= p
    {
      SlotAt(s, p);
      SlotDecodes(s, Index(p, n));
      assert d.tail <= UncommittedAt(mem, Index(p, n));
    }
    var i :| 0 <= i < n && d.tail == UncommittedAt(mem, i);
    SlotDecodes(s, i);
  }

  // ----- every accepted window is reachable -----

  lemma {:induction false} ExecutesSnoc(start: State, actions: seq<Action>, s: State, a: Action)
    requires Executes(start, actions, s) && s.ring.mem.WellShaped() && Enabled(s, a)
    requires Apply(s, a).ring.mem.WellShaped() && Bounded(Apply(s, a).ring.mem)
    ensures Executes(start, actions + [a], Apply(s, a))
    decreases |actions|
  {
    if actions == [] {
      assert (actions + [a])[1..] == [];
      assert Executes(Apply(s, a), [], Apply(s, a));
    } else {
      assert (actions + [a])[1..] == actions[1..] + [a];
      ExecutesSnoc(Apply(start, actions[0]), actions[1..], s, a);
    }
  }

  lemma ReachableStep(s: State, a: Action)
    requires Reachable(s) && s.ring.mem.WellShaped() && Enabled(s, a) && Bounded(Apply(s, a).ring.mem)
    ensures Reachable(Apply(s, a))
  {
    ReachableInv(s);
    StepKeeps(s, a);
    var start, actions :| Initial(start) && Executes(start, actions, s);
    ExecutesSnoc(start, actions, s, a);
  }

  ghost predicate AllIdle(s: State) {
    forall t :: s.PcOf(t) == Idle
  }

  /** Every thread but t is outside any call, and t stands at pc. */
  ghost predicate OnlyAt(s: State, pc: Pc) {
    forall t :: s.PcOf(t) == if t == 0 then pc else Idle
  }

  lemma OthersStay(s: State, pc: Pc)
    requires s.ring.mem.WellShaped() && OnlyAt(s, pc) && InPush(pc)
    ensures Apply(s, Advance(0, false)) == AdvancePush(s, 0, false)
    ensures OnlyAt(AdvancePush(s, 0, false), AdvancePush(s, 0, false).PcOf(0))
  {
    assert s.PcOf(0) == pc;
    var s' := AdvancePush(s, 0, false);
    assert s'.threads == s.threads[0 := s'.PcOf(0)];
    forall t
      ensures s'.PcOf(t) == if t == 0 then s'.PcOf(0) else Idle
    {
      assert s.PcOf(t) == if t == 0 then pc else Idle;
    }
  }

  /** Thread 0 advances alone, without a spurious failure. */
  lemma Alone(s: State, pc: Pc) returns (s': State)
    requires Reachable(s) && s.ring.mem.WellShaped() && OnlyAt(s, pc) && InPush(pc)
    requires Bounded(AdvancePush(s, 0, false).ring.mem)
    ensures s' == AdvancePush(s, 0, false) && s.PcOf(0) == pc && Reachable(s') && OnlyAt(s', s'.PcOf(0))
  {
    s' := AdvancePush(s, 0, false);
    assert s.PcOf(0) == pc;
    OthersStay(s, pc);
    ReachableStep(s, Advance(0, false));
  }

  lemma CallAlone(s: State, value: seq<Byte>, tag: Word32) returns (s': State)
    requires Reachable(s) && AllIdle(s) && s.ring.mem.WellShaped() && Bounded(s.ring.mem)
    requires |value| <= s.ring.mem.slotBytes && tag in {0, XOR_OUT}
    ensures Reachable(s') && s'.ring == s.ring && OnlyAt(s', PushStart(value, tag))
  {
    s' := s.Move(0, PushStart(value, tag));
    ReachableStep(s, CallPush(0, value, tag));
    forall t
      ensures s'.PcOf(t) == if t == 0 then PushStart(value, tag) else Idle
    {
      assert s.PcOf(t) == Idle;
    }
  }

  lemma LookAlone(s: State, value: seq<Byte>, tag: Word32) returns (s': State)
    requires Reachable(s) && AllIdle(s) && s.ring.mem.WellShaped() && Bounded(s.ring.mem)
    requires s.ring.mem.At(s.ring.mem.tail).sequence == s.ring.mem.tail
    requires |value| <= s.ring.mem.slotBytes && tag in {0, XOR_OUT}
    ensures Reachable(s') && s'.ring == s.ring && OnlyAt(s', PushReady(value, tag, s.ring.mem.tail))
  {
    var s1 := CallAlone(s, value, tag);
    var s2 := Alone(s1, PushStart(value, tag));
    s' := Alone(s2, PushAt(value, tag, s.ring.mem.tail));
  }

  lemma ClaimAlone(s: State, value: seq<Byte>, tag: Word32, pos: Word) returns (s': State)
    requires Reachable(s) && s.ring.mem.WellShaped() && OnlyAt(s, PushReady(value, tag, pos))
    requires pos == s.ring.mem.tail && pos + |s.ring.mem.cells| < TWO_TO_THE_63
    ensures Reachable(s') && s'.ring.mem == s.ring.mem.(tail := pos + 1) && OnlyAt(s', PushClaimed(value, tag, pos))
  {
    assert Add(pos, 1) == pos + 1;
    s' := Alone(s, PushReady(value, tag, pos));
  }

  lemma FillAlone(s: State, value: seq<Byte>, tag: Word32, pos: Word) returns (s': State)
    requires Reachable(s) && s.ring.mem.WellShaped() && Bounded(s.ring.mem) && OnlyAt(s, PushClaimed(value, tag, pos))
    ensures Reachable(s') && OnlyAt(s', PushFilled(value, tag, pos))
    ensures var c := s.ring.mem.At(pos); s'.ring.mem == s.ring.mem.Put(pos, c.(payload := Overlay(c.payload, value)))
  {
    s' := Alone(s, PushClaimed(value, tag, pos));
  }

  lemma TagAlone(s: State, value: seq<Byte>, tag: Word32, pos: Word) returns (s': State)
    requires Reachable(s) && s.ring.mem.WellShaped() && Bounded(s.ring.mem) && OnlyAt(s, PushFilled(value, tag, pos))
    ensures Reachable(s') && OnlyAt(s', PushTagged(value, tag, pos))
    ensures var c := s.ring.mem.At(pos);
      && Xor(Crc(c.payload), tag) < TWO_TO_THE_32
      && s'.ring.mem == s.ring.mem.Put(pos, c.(crc := Xor(Crc(c.payload), tag)))
  {
    XorBound32(Crc(s.ring.mem.At(pos).payload), tag);
    s' := Alone(s, PushFilled(value, tag, pos));
  }

  lemma CommitAlone(s: State, value: seq<Byte>, tag: Word32, pos: Word) returns (s': State)
    requires Reachable(s) && s.ring.mem.WellShaped() && Bounded(s.ring.mem) && OnlyAt(s, PushTagged(value, tag, pos))
    ensures Reachable(s') && AllIdle(s')
    ensures s'.ring.mem == s.ring.mem.Put(pos, s.ring.mem.At(pos).(sequence := Add(pos, 1)))
  {
    s' := Alone(s, PushTagged(value, tag, pos));
  }

  lemma PutTwice(mem: Memory, pos: nat, c: Cell, d: Cell)
    requires mem.WellShaped() && |c.payload| == mem.slotBytes
    ensures mem.Put(pos, c).WellShaped() && mem.Put(pos, c).At(pos) == c
    ensures mem.Put(pos, c).Put(pos, d) == mem.Put(pos, d)
  {
  }

  lemma TakeAlone(s: State, value: seq<Byte>, tag: Word32) returns (s': State)
    requires Reachable(s) && AllIdle(s) && s.ring.mem.WellShaped()
    requires s.ring.mem.At(s.ring.mem.tail).sequence == s.ring.mem.tail
    requires s.ring.mem.tail + |s.ring.mem.cells| < TWO_TO_THE_63
    requires |value| <= s.ring.mem.slotBytes && tag in {0, XOR_OUT}
    ensures Reachable(s') && s'.ring.mem == s.ring.mem.(tail := s.ring.mem.tail + 1)
    ensures OnlyAt(s', PushClaimed(value, tag, s.ring.mem.tail))
  {
    var s1 := LookAlone(s, value, tag);
    s' := ClaimAlone(s1, value, tag, s.ring.mem.tail);
  }

  lemma WriteAlone(s: State, value: seq<Byte>, tag: Word32, pos: Word) returns (s': State)
    requires Reachable(s) && s.ring.mem.WellShaped() && Bounded(s.ring.mem) && OnlyAt(s, PushClaimed(value, tag, pos))
    requires pos + 1 < TWO_TO_THE_64
    ensures Reachable(s') && AllIdle(s')
    ensures s'.ring.mem == s.ring.mem.Put(pos, CommittedCell(s.ring.mem.At(pos), pos, value, tag))
  {
    var mem := s.ring.mem;
    var c := mem.At(pos);
    assert Add(pos, 1) == pos + 1;
    var filled := c.(payload := Overlay(c.payload, value));
    var s1 := FillAlone(s, value, tag, pos);
    PutTwice(mem, pos, filled, CommittedCell(c, pos, value, tag));
    var s2 := TagAlone(s1, value, tag, pos);
    var tagged := filled.(crc := Xor(Crc(filled.payload), tag));
    PutTwice(mem, pos, filled, tagged);
    PutTwice(mem, pos, tagged, CommittedCell(c, pos, value, tag));
    s' := CommitAlone(s2, value, tag, pos);
  }

  lemma ReadyAtTail(mem: Memory)
    requires mem.WellShaped() && Consistent(mem) && mem.tail < mem.head + |mem.cells|
    ensures mem.At(mem.tail).sequence == mem.tail
  {
  }

  lemma PushedInSteps(mem: Memory, taken: Memory, value: seq<Byte>, tag: Word32)
    requires mem.WellShaped() && mem.tail + 1 < TWO_TO_THE_64 && taken == mem.(tail := mem.tail + 1)
    ensures taken.Put(mem.tail, CommittedCell(taken.At(mem.tail), mem.tail, value, tag)) == Pushed(mem, value, tag)
  {
  }

  /** The ring's own steps, run by one thread alone, do what the sequential call is specified to do. */
  lemma PushAlone(s: State, value: seq<Byte>, tag: Word32) returns (s': State)
    requires Reachable(s) && AllIdle(s) && s.ring.mem.WellShaped() && Consistent(s.ring.mem)
    requires s.ring.mem.tail < s.ring.mem.head + |s.ring.mem.cells|
    requires s.ring.mem.tail + |s.ring.mem.cells| < TWO_TO_THE_63
    requires |value| <= s.ring.mem.slotBytes && tag in {0, XOR_OUT}
    ensures Reachable(s') && AllIdle(s') && s'.ring.mem == Pushed(s.ring.mem, value, tag)
  {
    ReadyAtTail(s.ring.mem);
    var s1 := TakeAlone(s, value, tag);
    s' := WriteAlone(s1, value, tag, s.ring.mem.tail);
    PushedInSteps(s.ring.mem, s1.ring.mem, value, tag);
  }

  lemma OthersStayInPop(s: State, pc: Pc)
    requires s.ring.mem.WellShaped() && OnlyAt(s, pc) && InPop(pc)
    ensures Apply(s, Advance(0, false)) == AdvancePop(s, 0, false)
    ensures OnlyAt(AdvancePop(s, 0, false), AdvancePop(s, 0, false).PcOf(0))
  {
    assert s.PcOf(0) == pc;
    var s' := AdvancePop(s, 0, false);
    assert s'.threads == s.threads[0 := s'.PcOf(0)];
    forall t
      ensures s'.PcOf(t) == if t == 0 then s'.PcOf(0) else Idle
    {
      assert s.PcOf(t) == if t == 0 then pc else Idle;
    }
  }

  lemma PopStepAlone(s: State, pc: Pc) returns (s': State)
    requires Reachable(s) && s.ring.mem.WellShaped() && OnlyAt(s, pc) && InPop(pc) && Bounded(s.ring.mem)
    ensures s' == AdvancePop(s, 0, false) && s.PcOf(0) == pc && Reachable(s') && OnlyAt(s', s'.PcOf(0))
    ensures s'.ring.mem.WellShaped() && Bounded(s'.ring.mem)
    ensures s'.ring.mem.tail == s.ring.mem.tail && |s'.ring.mem.cells| == |s.ring.mem.cells|
    ensures s'.ring.mem.slotBytes == s.ring.mem.slotBytes
  {
    s' := AdvancePop(s, 0, false);
    assert s.PcOf(0) == pc;
    OthersStayInPop(s, pc);
    PopTouches(s, pc);
    ReachableStep(s, Advance(0, false));
    ReachableInv(s');
  }

  lemma PopTouches(s: State, pc: Pc)
    requires s.ring.mem.WellShaped() && s.PcOf(0) == pc && InPop(pc)
    ensures var mem' := AdvancePop(s, 0, false).ring.mem;
      mem'.tail == s.ring.mem.tail && |mem'.cells| == |s.ring.mem.cells| && mem'.slotBytes == s.ring.mem.slotBytes
  {
  }

  /** Two memories with the same window ends and dimensions. */
  predicate SameEnds(a: Memory, b: Memory) {
    a.head == b.head && a.tail == b.tail && |a.cells| == |b.cells| && a.slotBytes == b.slotBytes
  }

  /** The history of deliveries and losses is the same. */
  predicate SameOutcomes(s: State, s': State) {
    s'.delivered == s.delivered && s'.got == s.got && s'.skipped == s.skipped
  }

  lemma CallPopAlone(s: State, size: nat) returns (s': State)
    requires Reachable(s) && AllIdle(s) && s.ring.mem.WellShaped() && Bounded(s.ring.mem)
    requires size <= s.ring.mem.slotBytes
    ensures Reachable(s') && s'.ring == s.ring && OnlyAt(s', PopStart(size)) && SameOutcomes(s, s')
  {
    s' := Apply(s, CallPop(0, size));
    ReachableStep(s, CallPop(0, size));
    forall t
      ensures s'.PcOf(t) == if t == 0 then PopStart(size) else Idle
    {
      assert s.PcOf(t) == Idle;
    }
  }

  lemma FindAlone(s: State, size: nat, pos: Word) returns (s': State)
    requires Reachable(s) && s.ring.mem.WellShaped() && Bounded(s.ring.mem) && OnlyAt(s, PopStart(size))
    requires pos == s.ring.mem.head && s.ring.mem.At(pos).sequence == pos + 1 && pos + 1 < TWO_TO_THE_64
    ensures Reachable(s') && OnlyAt(s', PopReady(size, pos)) && SameOutcomes(s, s') && s'.ring == s.ring
  {
    assert Add(pos, 1) == pos + 1;
    var s1 := PopStepAlone(s, PopStart(size));
    assert s1.ring == s.ring && s1.PcOf(0) == PopAt(size, pos);
    s' := PopStepAlone(s1, PopAt(size, pos));
  }

  /** A consumer alone that finds a record takes it. */
  lemma ClaimHeadAlone(s: State, size: nat, pos: Word) returns (s': State)
    requires Reachable(s) && s.ring.mem.WellShaped() && Bounded(s.ring.mem) && OnlyAt(s, PopStart(size))
    requires pos == s.ring.mem.head && s.ring.mem.At(pos).sequence == pos + 1 && pos + 1 < TWO_TO_THE_64
    ensures Reachable(s') && OnlyAt(s', PopClaimed(size, pos)) && SameOutcomes(s, s')
    ensures s'.ring.mem == s.ring.mem.(head := pos + 1) && s'.ring.mem.WellShaped() && Bounded(s'.ring.mem)
  {
    assert Add(pos, 1) == pos + 1;
    var s1 := FindAlone(s, size, pos);
    s' := PopStepAlone(s1, PopReady(size, pos));
  }

  /** From a claimed position with a good checksum: copy, release, deliver. */
  lemma DeliverAlone(s: State, size: nat, pos: Word) returns (s': State)
    requires Reachable(s) && s.ring.mem.WellShaped() && Bounded(s.ring.mem) && OnlyAt(s, PopClaimed(size, pos))
    requires size <= s.ring.mem.slotBytes && s.ring.mem.At(pos).crc == Crc(s.ring.mem.At(pos).payload)
    ensures Reachable(s') && AllIdle(s')
    ensures var c := s.ring.mem.At(pos);
      && s'.ring.mem == s.ring.mem.Put(pos, c.(sequence := Add(pos, |s.ring.mem.cells|)))
      && s'.delivered == s.delivered[pos := c.payload[..size]] && s'.GotBy(0) == s.GotBy(0) + [pos]
      && s'.skipped == s.skipped
  {
    var c := s.ring.mem.At(pos);
    var s1 := PopStepAlone(s, PopClaimed(size, pos));
    assert s1.ring == s.ring && s1.PcOf(0) == PopGood(size, pos);
    var s2 := PopStepAlone(s1, PopGood(size, pos));
    assert s2.ring == s.ring && s2.PcOf(0) == PopCopied(pos, c.payload[..size]);
    s' := PopStepAlone(s2, PopCopied(pos, c.payload[..size]));
  }

  /** From a claimed position with a bad checksum: release, count, deliver nothing. */
  lemma DiscardAlone(s: State, size: nat, pos: Word) returns (s': State)
    requires Reachable(s) && s.ring.mem.WellShaped() && Bounded(s.ring.mem) && OnlyAt(s, PopClaimed(size, pos))
    requires s.ring.mem.At(pos).crc != Crc(s.ring.mem.At(pos).payload)
    ensures Reachable(s') && AllIdle(s') && s'.delivered == s.delivered && s'.got == s.got
    ensures s'.skipped == s.skipped + {pos}
    ensures s'.ring.mem == s.ring.mem.Put(pos, s.ring.mem.At(pos).(sequence := Add(pos, |s.ring.mem.cells|)))
                             .(corruption := Add(s.ring.mem.corruption, 1))
  {
    var s1 := PopStepAlone(s, PopClaimed(size, pos));
    assert s1.ring == s.ring && s1.PcOf(0) == PopBad(pos);
    var s2 := PopStepAlone(s1, PopBad(pos));
    assert s2.PcOf(0) == PopUncounted(pos) && s2.ring.mem.corruption == s.ring.mem.corruption;
    s' := PopStepAlone(s2, PopUncounted(pos));
  }

  /** What one call that found a record at position p did for its caller. */
  predicate PopOutcome(s: State, s': State, p: nat, payload: seq<Byte>, good: bool, size: nat) {
    if good then
      && size <= |payload| && s'.delivered == s.delivered[p := payload[..size]] && s'.GotBy(0) == s.GotBy(0) + [p]
      && s'.skipped == s.skipped
    else s'.delivered == s.delivered && s'.got == s.got && s'.skipped == s.skipped + {p}
  }

  lemma CommittedAtHead(mem: Memory)
    requires mem.WellShaped() && Consistent(mem) && mem.head < mem.tail
    ensures mem.At(mem.head).sequence == mem.head + 1
  {
  }

  lemma TakenReleased(mem: Memory, h: Word, x: Word)
    requires mem.WellShaped()
    ensures var taken := mem.(head := h);
      taken.Put(mem.head, taken.At(mem.head).(sequence := x)) ==
      mem.Put(mem.head, mem.At(mem.head).(sequence := x)).(head := h)
  {
  }

  lemma DeliversHead(mem: Memory, s: State, size: nat) returns (s': State)
    requires Reachable(s) && OnlyAt(s, PopClaimed(size, mem.head)) && mem.WellShaped() && size <= mem.slotBytes
    requires mem.head + 1 < TWO_TO_THE_64 && s.ring.mem == mem.(head := mem.head + 1)
    requires s.ring.mem.WellShaped() && Bounded(s.ring.mem) && mem.At(mem.head).crc == Crc(mem.At(mem.head).payload)
    ensures Reachable(s') && AllIdle(s') && s'.ring.mem == Popped(mem)
    ensures PopOutcome(s, s', mem.head, mem.At(mem.head).payload, true, size)
  {
    assert Add(mem.head, 1) == mem.head + 1 && s.ring.mem.At(mem.head) == mem.At(mem.head);
    TakenReleased(mem, mem.head + 1, Add(mem.head, |mem.cells|));
    s' := DeliverAlone(s, size, mem.head);
  }

  lemma DiscardsHead(mem: Memory, s: State, size: nat) returns (s': State)
    requires Reachable(s) && OnlyAt(s, PopClaimed(size, mem.head)) && mem.WellShaped()
    requires mem.head + 1 < TWO_TO_THE_64 && s.ring.mem == mem.(head := mem.head + 1)
    requires s.ring.mem.WellShaped() && Bounded(s.ring.mem) && mem.At(mem.head).crc != Crc(mem.At(mem.head).payload)
    ensures Reachable(s') && AllIdle(s') && s'.ring.mem == Popped(mem)
    ensures PopOutcome(s, s', mem.head, mem.At(mem.head).payload, false, size)
  {
    assert Add(mem.head, 1) == mem.head + 1 && s.ring.mem.At(mem.head) == mem.At(mem.head);
    TakenReleased(mem, mem.head + 1, Add(mem.head, |mem.cells|));
    s' := DiscardAlone(s, size, mem.head);
  }

  lemma TakeHeadAlone(s: State, size: nat) returns (s': State)
    requires Reachable(s) && AllIdle(s) && s.ring.mem.WellShaped() && Bounded(s.ring.mem) && Consistent(s.ring.mem)
    requires s.ring.mem.head < s.ring.mem.tail && size <= s.ring.mem.slotBytes
    ensures Reachable(s') && OnlyAt(s', PopClaimed(size, s.ring.mem.head)) && SameOutcomes(s, s')
    ensures s'.ring.mem == s.ring.mem.(head := s.ring.mem.head + 1) && s'.ring.mem.WellShaped() && Bounded(s'.ring.mem)
  {
    CommittedAtHead(s.ring.mem);
    var s1 := CallPopAlone(s, size);
    s' := ClaimHeadAlone(s1, size, s.ring.mem.head);
  }

  lemma OutcomeSince(s: State, t: State, s': State, p: nat, payload: seq<Byte>, good: bool, size: nat)
    requires SameOutcomes(s, t) && PopOutcome(t, s', p, payload, good, size)
    ensures PopOutcome(s, s', p, payload, good, size)
  {
  }

  /**
   The ring's own steps, run by one consumer alone, do what the sequential call is specified to do, and hand
   over exactly the bytes asked for from the front of the oldest record, or count it if its checksum fails.
   */
  lemma PopAlone(s: State, size: nat) returns (s': State)
    requires Reachable(s) && AllIdle(s) && s.ring.mem.WellShaped() && Bounded(s.ring.mem) && Consistent(s.ring.mem)
    requires s.ring.mem.head < s.ring.mem.tail && size <= s.ring.mem.slotBytes
    ensures Reachable(s') && AllIdle(s') && s'.ring.mem == Popped(s.ring.mem)
    ensures var c := s.ring.mem.At(s.ring.mem.head);
      PopOutcome(s, s', s.ring.mem.head, c.payload, c.crc == Crc(c.payload), size)
  {
    var mem := s.ring.mem;
    var c := mem.At(mem.head);
    var t := TakeHeadAlone(s, size);
    if c.crc == Crc(c.payload) {
      s' := DeliversHead(mem, t, size);
    } else {
      s' := DiscardsHead(mem, t, size);
    }
    OutcomeSince(s, t, s', mem.head, c.payload, c.crc == Crc(c.payload), size);
  }

  lemma AllIdleConsistent(s: State)
    requires Inv(s) && AllIdle(s)
    ensures Consistent(s.ring.mem)
  {
    forall p: nat
      ensures !s.Producing(p) && !s.Consuming(p)
    {
      if p < |s.ring.log| {
        assert s.PcOf(s.ring.log[p].producer) == Idle;
      }
      if p < |s.ring.takers| {
        assert s.PcOf(s.ring.takers[p]) == Idle;
      }
    }
    InvConsistent(s);
  }

  lemma FreshRing(n: nat, slotBytes: nat) returns (s: State)
    requires IsPowerOfTwo(n) && 2 <= n < TWO_TO_THE_63
    ensures Reachable(s) && AllIdle(s) && s.ring.mem.WellShaped()
    ensures s.ring.mem.head == s.ring.mem.tail == 0 && |s.ring.mem.cells| == n && s.ring.mem.slotBytes == slotBytes
  {
    var cells := seq(n, i requires 0 <= i < n => Cell(i, seq(slotBytes, _ => 0), 0));
    var mem := Memory(0, 0, 0, slotBytes, cells);
    s := State(Ring(mem, [], [], {}), map[], map[], map[], map[], {}, Sizes(map[], map[]));
    assert Initial(s);
    assert Executes(s, [], s);
  }

  /** The state is at rest with the window [h, t). */
  ghost predicate AtWindow(s: State, n: nat, slotBytes: nat, h: nat, t: nat) {
    && Reachable(s) && AllIdle(s) && s.ring.mem.WellShaped() && Consistent(s.ring.mem)
    && s.ring.mem.head == h && s.ring.mem.tail == t && |s.ring.mem.cells| == n && s.ring.mem.slotBytes == slotBytes
  }

  lemma WindowAfterPush(s: State, n: nat, slotBytes: nat, h: nat, t: nat) returns (s': State)
    requires AtWindow(s, n, slotBytes, h, t) && t < h + n && t + n < TWO_TO_THE_63
    ensures AtWindow(s', n, slotBytes, h, t + 1)
  {
    assert Add(t, 1) == t + 1;
    s' := PushAlone(s, [], 0);
    ReachableConsistent(s');
  }

  lemma WindowAfterPop(s: State, n: nat, slotBytes: nat, h: nat, t: nat) returns (s': State)
    requires AtWindow(s, n, slotBytes, h, t) && h < t && t + n <= TWO_TO_THE_63
    ensures AtWindow(s', n, slotBytes, h + 1, t)
  {
    assert Add(h, 1) == h + 1;
    s' := PopAlone(s, 0);
    ReachableConsistent(s');
  }

  /** A run of t pushes and h pops, each finished before the next, reaches the window [h, t). */
  lemma {:induction false} ReachWindow(n: nat, slotBytes: nat, h: nat, t: nat) returns (s: State)
    requires IsPowerOfTwo(n) && 2 <= n < TWO_TO_THE_63 && t + n <= TWO_TO_THE_63 && h <= t <= h + n
    ensures AtWindow(s, n, slotBytes, h, t)
    decreases h + t
  {
    if t == 0 {
      s := FreshRing(n, slotBytes);
      ReachableConsistent(s);
    } else if h < t {
      var before := ReachWindow(n, slotBytes, h, t - 1);
      s := WindowAfterPush(before, n, slotBytes, h, t - 1);
    } else {
      var before := ReachWindow(n, slotBytes, h - 1, t);
      s := WindowAfterPop(before, n, slotBytes, h - 1, t);
    }
  }

  lemma ReachableConsistent(s: State)
    requires Reachable(s) && AllIdle(s)
    ensures s.ring.mem.WellShaped() && Consistent(s.ring.mem)
  {
    ReachableInv(s);
    AllIdleConsistent(s);
  }

  /** Two windows with the same ends that the check accepts show the same counters. */
  lemma ConsistentDetermined(a: Memory, b: Memory)
    requires a.WellShaped() && b.WellShaped() && |a.cells| == |b.cells| && Consistent(a) && Consistent(b)
    requires a.head == b.head && a.tail == b.tail
    ensures forall i | 0 <= i < |a.cells| :: a.cells[i].sequence == b.cells[i].sequence
  {
    forall i | 0 <= i < |a.cells|
      ensures a.cells[i].sequence == b.cells[i].sequence
    {
      SlotOfWindow(a, i);
      SlotOfWindow(b, i);
    }
  }

  /**
   Whatever head, tail and slot counters the check accepts, below the lifetime bound, some run of
   complete pushes and pops from initialize leaves exactly those.
   */
  lemma AcceptedIsReachable(mem: Memory) returns (s: State)
    requires mem.WellShaped() && Bounded(mem) && Consistent(mem)
    ensures Reachable(s) && AllIdle(s)
    ensures s.ring.mem.head == mem.head && s.ring.mem.tail == mem.tail && |s.ring.mem.cells| == |mem.cells|
    ensures forall i | 0 <= i < |mem.cells| :: s.ring.mem.cells[i].sequence == mem.cells[i].sequence
  {
    s := ReachWindow(|mem.cells|, mem.slotBytes, mem.head, mem.tail);
    ConsistentDetermined(s.ring.mem, mem);
  }
}
