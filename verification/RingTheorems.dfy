/** What the ring guarantees in every reachable state, and at every step. */
module RingTheorems {
  import opened Words
  import opened RingProtocol

  // ----- exclusive ownership -----

  /** Thread t may touch the bytes of the slot at p. */
  predicate Owns(s: State, t: nat, p: nat) {
    s.PcOf(t).OwnsForPush(p) || s.PcOf(t).OwnsForPop(p)
  }

  /** If t owns p then t is the one thread on record as the claimant of p. */
  predicate OnRecord(s: State, t: nat, p: nat) {
    && (s.PcOf(t).OwnsForPush(p) ==> p < |s.ring.log| && s.ring.log[p].producer == t)
    && (s.PcOf(t).OwnsForPop(p) ==> p < |s.ring.takers| && s.ring.takers[p] == t)
  }

  ghost predicate OneClaimant(s: State) {
    forall t, p: nat :: OnRecord(s, t, p)
  }

  /** No two threads own one slot's bytes. */
  ghost predicate Exclusive(s: State)
    requires s.ring.mem.WellShaped()
  {
    forall t, u, p: nat, q: nat | t != u && Owns(s, t, p) && Owns(s, u, q) ::
      Index(p, |s.ring.mem.cells|) != Index(q, |s.ring.mem.cells|)
  }

  /**
   In every reachable state the window is at most one lap wide, every claimed position has one
   claimant, no two threads own one slot's bytes, and every slot's sequence is the marker that its
   position's phase dictates.
   */
  lemma Safety(s: State)
    requires Reachable(s)
    ensures s.ring.mem.WellShaped()
    ensures s.ring.mem.head <= s.ring.mem.tail <= s.ring.mem.head + |s.ring.mem.cells|
    ensures |s.ring.log| == s.ring.mem.tail && |s.ring.takers| == s.ring.mem.head
    ensures OneClaimant(s) && Exclusive(s) && Slots(s)
  {
    ReachableInv(s);
    assert Shape(s.ring) && Slots(s);
    InvOneClaimant(s);
    InvExclusive(s);
  }

  lemma InvOneClaimant(s: State)
    requires Inv(s)
    ensures OneClaimant(s)
  {
    forall t, p: nat
      ensures OnRecord(s, t, p)
    {
      if Owns(s, t, p) {
        OwnedPosition(s, t, p);
      }
    }
  }

  lemma InvExclusive(s: State)
    requires Inv(s)
    ensures Exclusive(s)
  {
    forall t, u, p: nat, q: nat | t != u && Owns(s, t, p) && Owns(s, u, q)
      ensures Index(p, |s.ring.mem.cells|) != Index(q, |s.ring.mem.cells|)
    {
      OwnersApart(s, t, u, p, q);
    }
  }

  /** An owned position lies in the lap below tail, and its claimant is on record. */
  lemma OwnedPosition(s: State, t: nat, p: nat)
    requires Inv(s) && Owns(s, t, p)
    ensures p < s.ring.mem.tail <= p + |s.ring.mem.cells|
    ensures p < s.ring.mem.head <==> s.PcOf(t).OwnsForPop(p)
    ensures OnRecord(s, t, p)
  {
    assert ThreadOk(s.ring, t, s.threads[t]);
    assert s.Producing(p) || s.Consuming(p);
  }

  lemma OwnersApart(s: State, t: nat, u: nat, p: nat, q: nat)
    requires Inv(s) && t != u && Owns(s, t, p) && Owns(s, u, q)
    ensures Index(p, |s.ring.mem.cells|) != Index(q, |s.ring.mem.cells|)
  {
    OwnedPosition(s, t, p);
    OwnedPosition(s, u, q);
    Apart(|s.ring.mem.cells|, p, q);
  }

  // ----- refusals -----

  /** The position of the window [h, h + n) that slot i serves. */
  function WindowPosition(i: nat, h: nat, n: nat): (p: nat)
    requires 0 < n
  {
    h + (i - h) % n
  }

  lemma WindowPositionServed(i: nat, h: nat, n: nat)
    requires IsPowerOfTwo(n) && i < n
    ensures h <= WindowPosition(i, h, n) < h + n
    ensures Index(WindowPosition(i, h, n), n) == i
  {
    var p := WindowPosition(i, h, n);
    MaskIsMod(p, n);
    ModOfShift(i, h, n);
    ModUnique(i, n, 0, i);
  }

  lemma ModOfShift(i: nat, h: nat, n: nat)
    requires 0 < n
    ensures (h + (i - h) % n) % n == i % n
  {
    var r, k := (i - h) % n, (i - h) / n;
    assert i - h == n * k + r;
    assert h + r == i - n * k;
    ModShift(i, n, -k);
    assert i + n * -k == i - n * k;
  }

  lemma {:induction false} ModShift(a: int, n: nat, k: int)
    requires 0 < n
    ensures (a + n * k) % n == a % n
    decreases if k < 0 then -k else k
  {
    if k > 0 {
      ModShift(a, n, k - 1);
      assert a + n * k == (a + n * (k - 1)) + n;
      ModStep(a + n * (k - 1), n);
    } else if k < 0 {
      ModShift(a, n, k + 1);
      assert a + n * (k + 1) == (a + n * k) + n;
      ModStep(a + n * k, n);
    }
  }

  lemma ModStep(a: int, n: nat)
    requires 0 < n
    ensures (a + n) % n == a % n
  {
    var k, r := a / n, a % n;
    assert a + n == n * (k + 1) + r;
    var k', r' := (a + n) / n, (a + n) % n;
    assert n * (k + 1) + r == n * k' + r';
    if k' < k + 1 {
      MulGap(n, k', k + 1);
    } else if k' > k + 1 {
      MulGap(n, k + 1, k');
    }
  }

  /** A slot never reads below a position that was already claimed (or, for taken ones, committed). */
  lemma SequenceAtLeast(s: State, pos: nat)
    requires Inv(s)
    ensures pos < s.ring.mem.tail ==> s.ring.mem.At(pos).sequence >= pos
    ensures pos < s.ring.mem.head ==> s.ring.mem.At(pos).sequence > pos
  {
    var mem, n := s.ring.mem, |s.ring.mem.cells|;
    if pos < mem.head {
      var p := WindowPosition(Index(pos, n), mem.head, n);
      WindowPositionServed(Index(pos, n), mem.head, n);
      if p < pos + n {
        IndexDistinct(pos, p, n);
      }
      assert mem.At(p) == mem.At(pos);
    }
  }

  /** What a producer that loaded tail earlier, possibly long ago, finds in the slot. */
  lemma PushFinds(s: State, pos: nat)
    requires Inv(s) && pos <= s.ring.mem.tail
    ensures s.ring.mem.At(pos).sequence < pos <==>
            && pos == s.ring.mem.tail
            && pos >= |s.ring.mem.cells|
            && !s.Released(pos - |s.ring.mem.cells|)
  {
    var mem, n := s.ring.mem, |s.ring.mem.cells|;
    SequenceAtLeast(s, pos);
    if pos == mem.tail == mem.head + n {
      IndexNextLap(mem.head, n);
      assert mem.At(pos) == mem.At(mem.head);
    }
  }

  lemma PushGivesUp(s: State, t: nat, spurious: bool, pos: nat)
    requires s.ring.mem.WellShaped() && s.PcOf(t).PushAt? && s.PcOf(t).pos == pos
    ensures AdvancePush(s, t, spurious).PcOf(t) == Idle <==> Distance(s.ring.mem.At(pos).sequence, pos) < 0
  {
  }

  /**
   However stale the tail it loaded, a push that gives up does so at an instant at which position
   tail - n is not released; and whenever it looks at such a tail it gives up.
   */
  lemma PushRefusal(s: State, t: nat, spurious: bool)
    requires Inv(s) && s.PcOf(t).PushAt?
    ensures AdvancePush(s, t, spurious).PcOf(t) == Idle <==>
            && s.PcOf(t).pos == s.ring.mem.tail
            && s.ring.mem.tail >= |s.ring.mem.cells|
            && !s.Released(s.ring.mem.tail - |s.ring.mem.cells|)
  {
    var pos := s.PcOf(t).pos;
    PushGivesUp(s, t, spurious, pos);
    LoadedPosition(s, t);
    PushFinds(s, pos);
    SequenceBound(s, pos);
  }

  lemma LoadedPosition(s: State, t: nat)
    requires Inv(s)
    ensures s.PcOf(t).PushAt? ==> s.PcOf(t).pos <= s.ring.mem.tail
    ensures s.PcOf(t).PopAt? ==> s.PcOf(t).pos <= s.ring.mem.head
  {
    if t in s.threads {
      assert ThreadOk(s.ring, t, s.threads[t]);
    }
  }

  /** What a consumer that loaded head earlier, possibly long ago, finds in the slot. */
  lemma PopFinds(s: State, pos: nat)
    requires Inv(s) && pos <= s.ring.mem.head
    ensures s.ring.mem.At(pos).sequence < pos + 1 <==> pos == s.ring.mem.head && !s.Committed(pos)
  {
    SequenceAtLeast(s, pos);
  }

  lemma PopGivesUp(s: State, t: nat, spurious: bool, pos: nat)
    requires s.ring.mem.WellShaped() && s.PcOf(t).PopAt? && s.PcOf(t).pos == pos && pos + 1 < TWO_TO_THE_64
    ensures AdvancePop(s, t, spurious).PcOf(t) == Idle <==> Distance(s.ring.mem.At(pos).sequence, pos + 1) < 0
  {
    assert Add(pos, 1) == pos + 1;
  }

  /** A pop that gives up does so at an instant at which position head is not committed, and conversely. */
  lemma PopRefusal(s: State, t: nat, spurious: bool)
    requires Inv(s) && s.PcOf(t).PopAt?
    ensures AdvancePop(s, t, spurious).PcOf(t) == Idle <==>
            s.PcOf(t).pos == s.ring.mem.head && !s.Committed(s.ring.mem.head)
  {
    var pos := s.PcOf(t).pos;
    LoadedPosition(s, t);
    PopGivesUp(s, t, spurious, pos);
    PopFinds(s, pos);
    SequenceBound(s, pos);
  }

  /** Sequences stay in the range where the signed comparison is exact. */
  lemma SequenceBound(s: State, pos: nat)
    requires Inv(s)
    ensures s.ring.mem.At(pos).sequence < TWO_TO_THE_63
  {
    var mem, n := s.ring.mem, |s.ring.mem.cells|;
    var p := WindowPosition(Index(pos, n), mem.head, n);
    WindowPositionServed(Index(pos, n), mem.head, n);
    assert mem.At(p) == mem.At(pos);
  }
}
