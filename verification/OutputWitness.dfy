/**
 The supervisor's output witness: it drains a ring, counts what it gets, and reports a gap if
 somebody else consumed in between.
 */
module OutputWitness {
  import opened Words
  import opened Crc32c
  import opened RingProtocol
  import opened RingBuffer
  import opened OwnershipProtocol
  import Region = SharedRegion

  datatype Tally = Tally(records: nat, corruptions: nat, nextSequence: nat, gapLost: nat)

  datatype Verdict = Verdict(tally: Tally, consumed: nat, ok: bool)

  /** A good record at position p does not continue the sequence. */
  predicate Breaks(w: Tally, p: nat, r: Record) {
    r.Good() && w.records != 0 && p != w.nextSequence
  }

  /** One popped record, at position p, as the loop counts it. */
  function Count(w: Tally, p: nat, r: Record): Tally {
    if !r.Good() then w.(corruptions := w.corruptions + 1, nextSequence := w.nextSequence + 1)
    else if Breaks(w, p, r) then w.(gapLost := if p > w.nextSequence then p - w.nextSequence else 1)
    else w.(nextSequence := p + 1, records := w.records + 1)
  }

  /** The records at positions p, p + 1, ... counted up to the first break. */
  function Witnessed(w: Tally, p: nat, rs: seq<Record>): Verdict {
    if rs == [] then Verdict(w, 0, true)
    else
      var front, last := rs[..|rs| - 1], rs[|rs| - 1];
      var v := Witnessed(w, p, front);
      if !v.ok then v
      else Verdict(Count(v.tally, p + |front|, last), |rs|, !Breaks(v.tally, p + |front|, last))
  }

  lemma {:induction false} WitnessedAll(w: Tally, p: nat, rs: seq<Record>)
    ensures Witnessed(w, p, rs).ok ==> Witnessed(w, p, rs).consumed == |rs|
    ensures Witnessed(w, p, rs).consumed <= |rs|
    decreases |rs|
  {
    if rs != [] {
      WitnessedAll(w, p, rs[..|rs| - 1]);
    }
  }

  /** After a break nothing more is looked at. */
  lemma {:induction false} BrokenStays(w: Tally, p: nat, rs: seq<Record>, k: nat)
    requires k <= |rs| && !Witnessed(w, p, rs[..k]).ok
    ensures Witnessed(w, p, rs) == Witnessed(w, p, rs[..k])
    decreases |rs|
  {
    if k == |rs| {
      assert rs[..k] == rs;
    } else {
      var front := rs[..|rs| - 1];
      assert front[..k] == rs[..k];
      BrokenStays(w, p, front, k);
    }
  }

  // ----- the loop -----

  datatype Arrival = Arrival(value: seq<Byte>, tag: Word32)

  /** What the producers push meanwhile; a full ring refuses. */
  method Arrive(ring: LockFreeRingBuffer, batch: seq<Arrival>) returns (ghost added: seq<Record>)
    requires Quiet(ring.Mem())
    modifies ring, ring.cells
    ensures Quiet(ring.Mem()) && ring.head == old(ring.head) && ring.corruptionCount == old(ring.corruptionCount)
    ensures Records(ring.Mem()) == old(Records(ring.Mem())) + added
  {
    added := [];
    for i := 0 to |batch|
      modifies ring, ring.cells
      invariant Quiet(ring.Mem()) && ring.head == old(ring.head) && ring.corruptionCount == old(ring.corruptionCount)
      invariant Records(ring.Mem()) == old(Records(ring.Mem())) + added
    {
      if |batch[i].value| <= ring.slotBytes && ring.tail + ring.cells.Length < TWO_TO_THE_63 {
        var one := ArriveOne(ring, batch[i]);
        assert old(Records(ring.Mem())) + added + one == old(Records(ring.Mem())) + (added + one);
        added := added + one;
      }
    }
  }

  method ArriveOne(ring: LockFreeRingBuffer, a: Arrival) returns (ghost added: seq<Record>)
    requires Quiet(ring.Mem()) && |a.value| <= ring.slotBytes && ring.tail + ring.cells.Length < TWO_TO_THE_63
    modifies ring, ring.cells
    ensures Quiet(ring.Mem()) && ring.head == old(ring.head) && ring.corruptionCount == old(ring.corruptionCount)
    ensures Records(ring.Mem()) == old(Records(ring.Mem())) + added
  {
    ghost var before := ring.Mem();
    var ok := ring.TryPush(a.value, a.tag, 0);
    added := [];
    if ok {
      PushedQuiet(before, a.value, a.tag);
      added := [RecordAt(Pushed(before, a.value, a.tag), before.tail)];
    }
  }

  class OutputWitness {
    var records: nat
    var corruptions: nat
    var nextSequence: nat
    var gapLost: nat
    var lastEpoch: Word

    constructor ()
      ensures Counts() == NothingSeen() && lastEpoch == 0
    {
      records, corruptions, nextSequence, gapLost, lastEpoch := 0, 0, 0, 0, 0;
    }

    function Counts(): Tally
      reads this
    {
      Tally(records, corruptions, nextSequence, gapLost)
    }

    /** One pop and its accounting; continues is false on an empty ring and after a break. */
    method PopOne(ring: LockFreeRingBuffer, size: nat) returns (continues: bool, broken: bool)
      requires Quiet(ring.Mem()) && size <= ring.slotBytes
      modifies this, ring, ring.cells
      ensures Quiet(ring.Mem()) && lastEpoch == old(lastEpoch)
      ensures old(ring.head) == old(ring.tail) ==>
                !continues && !broken && Counts() == old(Counts()) && ring.Mem() == old(ring.Mem())
      ensures old(ring.head) < old(ring.tail) ==>
                && PopCounts(old(Counts()), old(ring.Mem()), Counts(), ring.Mem()) && ring.tail == old(ring.tail)
                && (broken <==> Breaks(old(Counts()), old(ring.head), old(Records(ring.Mem()))[0]))
                && (continues <==> !broken)
    {
      var corruptionBefore := ring.corruptionCount;
      if ring.head < ring.tail {
        PopMoves(ring.Mem());
      }
      var ok, record := ring.TryPop(size, 0);
      if !ok {
        if ring.corruptionCount != corruptionBefore {
          corruptions := corruptions + 1;
          nextSequence := nextSequence + 1;
          return true, false;
        }
        return false, false;
      }
      var sequence := ring.head - 1;
      if records != 0 && sequence != nextSequence {
        gapLost := if sequence > nextSequence then sequence - nextSequence else 1;
        return false, true;
      }
      nextSequence := sequence + 1;
      records := records + 1;
      return true, false;
    }

    /**
     Drains a ring, as its only consumer while it runs, with batches of arrivals between the pops. log is
     every record that stood in the ring during the call; it is counted, up to the first break, and
     without a break it is all consumed.
     */
    method DrainOutputWitness(region: Region.SharedRegion, k: nat, size: nat, arrivals: seq<seq<Arrival>>)
      returns (ok: bool, ghost log: seq<Record>)
      requires region.Valid() && size <= Region.DEFAULT_SLOT_BYTES
      requires k < MAX_WORKERS ==> Quiet(region.rings[k].Mem())
      modifies this, if k < |region.rings| then {region.rings[k], region.rings[k].cells} else {}
      ensures var admitted := k < MAX_WORKERS && Region.Readable(region.ownership[k], k)
                              && (old(lastEpoch) == 0 || region.ownership[k].epoch >= old(lastEpoch));
        && (!admitted ==> !ok && Counts() == old(Counts()) && lastEpoch == old(lastEpoch))
        && (admitted ==>
              && old(Records(region.rings[k].Mem())) <= log
              && DrainedAs(old(Counts()), old(region.rings[k].head), log, Counts(), region.rings[k].Mem(), ok)
              && lastEpoch == if ok then region.ownership[k].epoch else old(lastEpoch))
    {
      log := [];
      if k >= MAX_WORKERS {
        return false, log;
      }
      var readable, ownership := region.ReadOwnership(k);
      if !readable {
        return false, log;
      }
      if lastEpoch != 0 && ownership.epoch < lastEpoch {
        return false, log;
      }
      ok, log := DrainRing(region.rings[k], size, arrivals);
      if ok {
        lastEpoch := ownership.epoch;
      }
    }

    method DrainRing(ring: LockFreeRingBuffer, size: nat, arrivals: seq<seq<Arrival>>)
      returns (ok: bool, ghost log: seq<Record>)
      requires Quiet(ring.Mem()) && size <= ring.slotBytes
      modifies this, ring, ring.cells
      ensures lastEpoch == old(lastEpoch) && old(Records(ring.Mem())) <= log
      ensures DrainedAs(old(Counts()), old(ring.head), log, Counts(), ring.Mem(), ok)
    {
      ghost var w, p := Counts(), ring.head;
      log := Records(ring.Mem());
      var i := 0;
      assert log[0..] == log;
      while true
        modifies this, ring, ring.cells
        invariant lastEpoch == old(lastEpoch) && old(Records(ring.Mem())) <= log
        invariant Draining(w, p, log, Counts(), ring.Mem())
        decreases if i < |arrivals| then |arrivals| - i else 0, ring.tail - ring.head
      {
        if i < |arrivals| {
          ghost var added := Arrive(ring, arrivals[i]);
          LogGrows(log, added, ring.head - p);
          log := log + added;
          i := i + 1;
        }
        var continues;
        continues, ok := Round(ring, size, w, p, log);
        if !continues {
          return;
        }
      }
    }

    /** One pop of a drain that has got this far. */
    method Round(ring: LockFreeRingBuffer, size: nat, ghost w: Tally, ghost p: nat, ghost log: seq<Record>)
      returns (continues: bool, ok: bool)
      requires size <= ring.slotBytes && Draining(w, p, log, Counts(), ring.Mem())
      modifies this, ring, ring.cells
      ensures lastEpoch == old(lastEpoch)
      ensures continues ==> Draining(w, p, log, Counts(), ring.Mem())
      ensures continues ==> ring.tail == old(ring.tail) && ring.head == old(ring.head) + 1
      ensures !continues ==> DrainedAs(w, p, log, Counts(), ring.Mem(), ok)
    {
      ghost var was, now := ring.Mem(), Counts();
      var broken;
      continues, broken := PopOne(ring, size);
      ok := !broken;
      if continues {
        DrainStep(w, p, log, now, was, Counts(), ring.Mem());
      } else if broken {
        DrainBreak(w, p, log, now, was, Counts(), ring.Mem());
      } else {
        assert |Records(was)| == |log| - (was.head - p);
        assert log[..was.head - p] == log;
      }
    }
  }

  /** So far the records of log before head were counted without a break, and the rest are in the ring. */
  ghost predicate Draining(w: Tally, p: nat, log: seq<Record>, now: Tally, mem: Memory) {
    && Quiet(mem) && p <= mem.head <= p + |log|
    && Witnessed(w, p, log[..mem.head - p]) == Verdict(now, mem.head - p, true)
    && Records(mem) == log[mem.head - p..]
  }

  /**
   log was counted up to the first break, and what was not consumed is in the ring; without a break that is nothing.
   */
  ghost predicate DrainedAs(w: Tally, p: nat, log: seq<Record>, now: Tally, mem: Memory, ok: bool) {
    && Quiet(mem) && p <= mem.head <= p + |log|
    && Witnessed(w, p, log) == Verdict(now, mem.head - p, ok)
    && Records(mem) == log[mem.head - p..]
    && (ok ==> mem.head == mem.tail)
  }

  /** The ring's oldest record was popped and counted. */
  ghost predicate PopCounts(now: Tally, mem: Memory, now': Tally, mem': Memory) {
    && Quiet(mem) && mem.head < mem.tail && Quiet(mem') && mem'.head == mem.head + 1
    && Records(mem') == Records(mem)[1..]
    && now' == Count(now, mem.head, Records(mem)[0])
  }

  lemma DrainStep(w: Tally, p: nat, log: seq<Record>, now: Tally, mem: Memory, now': Tally, mem': Memory)
    requires Draining(w, p, log, now, mem) && PopCounts(now, mem, now', mem')
    requires !Breaks(now, mem.head, Records(mem)[0])
    ensures Draining(w, p, log, now', mem')
  {
    assert |Records(mem)| == |log| - (mem.head - p);
    LogStep(w, p, log, mem.head - p);
  }

  lemma DrainBreak(w: Tally, p: nat, log: seq<Record>, now: Tally, mem: Memory, now': Tally, mem': Memory)
    requires Draining(w, p, log, now, mem) && PopCounts(now, mem, now', mem')
    requires Breaks(now, mem.head, Records(mem)[0])
    ensures DrainedAs(w, p, log, now', mem', false)
  {
    var n := mem.head - p;
    assert |Records(mem)| == |log| - n;
    LogStep(w, p, log, n);
    assert Witnessed(w, p, log[..n + 1]) == Verdict(now', n + 1, false);
    BrokenStays(w, p, log, n + 1);
  }

  function NothingSeen(): Tally { Tally(0, 0, 0, 0) }

  /** A pop takes the oldest record, and a bad one shows in the corruption count even if that wraps. */
  lemma PopMoves(mem: Memory)
    requires Quiet(mem) && mem.head < mem.tail
    ensures Quiet(Popped(mem)) && Records(Popped(mem)) == Records(mem)[1..]
    ensures Popped(mem).head == mem.head + 1 && Popped(mem).tail == mem.tail
    ensures Popped(mem).corruption != mem.corruption <==> !Records(mem)[0].Good()
  {
    PoppedQuiet(mem);
    ReleasedHeadQuiet(mem);
  }

  lemma LogGrows(log: seq<Record>, added: seq<Record>, n: nat)
    requires n <= |log|
    ensures (log + added)[n..] == log[n..] + added && (log + added)[..n] == log[..n]
  {
  }

  lemma LogStep(w: Tally, p: nat, log: seq<Record>, n: nat)
    requires n < |log| && Witnessed(w, p, log[..n]).ok
    ensures log[n..][0] == log[n] && log[n..][1..] == log[n + 1..]
    ensures var v := Witnessed(w, p, log[..n]);
      Witnessed(w, p, log[..n + 1]) == Verdict(Count(v.tally, p + n, log[n]), n + 1, !Breaks(v.tally, p + n, log[n]))
  {
    assert log[..n + 1][..n] == log[..n];
  }

  // ----- exactness of one call -----

  predicate HasGood(rs: seq<Record>) {
    exists i :: 0 <= i < |rs| && rs[i].Good()
  }

  lemma HasGoodSnoc(rs: seq<Record>)
    requires rs != []
    ensures HasGood(rs) <==> HasGood(rs[..|rs| - 1]) || rs[|rs| - 1].Good()
  {
    var front := rs[..|rs| - 1];
    if HasGood(front) {
      var i :| 0 <= i < |front| && front[i].Good();
      assert rs[i].Good();
    }
  }

  /** The witness is level with the ring: it has seen nothing, or expects the position at head. */
  predicate Level(w: Tally, head: nat) {
    w.records == 0 || w.nextSequence == head
  }

  /** How many of the records are good. */
  function Goods(rs: seq<Record>): (k: nat)
    ensures k <= |rs|
  {
    if rs == [] then 0 else Goods(rs[..|rs| - 1]) + (if rs[|rs| - 1].Good() then 1 else 0)
  }

  /** A level witness never reports a gap, and stays level; every position consumed is counted once, as what it is. */
  lemma {:induction false} LevelNeverBreaks(w: Tally, p: nat, rs: seq<Record>)
    requires Level(w, p)
    ensures var v := Witnessed(w, p, rs);
      && v.ok && v.consumed == |rs| && v.tally.gapLost == w.gapLost
      && Level(v.tally, p + |rs|)
      && v.tally.records == w.records + Goods(rs) && v.tally.corruptions == w.corruptions + |rs| - Goods(rs)
      && (v.tally.records > w.records <==> HasGood(rs))
    decreases |rs|
  {
    if rs != [] {
      LevelNeverBreaks(w, p, rs[..|rs| - 1]);
      HasGoodSnoc(rs);
    }
  }

  /**
   Behind by k positions: the first good record is reported as a gap of exactly k, corrupt ones before it are
   counted. Ahead, it is reported as a gap of one.
   */
  lemma {:induction false} BehindBreaks(w: Tally, p: nat, rs: seq<Record>)
    requires w.records != 0 && w.nextSequence != p
    ensures var v := Witnessed(w, p, rs);
      && (v.ok <==> !HasGood(rs))
      && v.tally.records == w.records
      && (v.ok ==> v.tally.nextSequence == w.nextSequence + |rs| && v.tally.gapLost == w.gapLost
                   && v.tally.corruptions == w.corruptions + |rs| && v.consumed == |rs|)
      && (!v.ok ==> v.tally.gapLost == (if w.nextSequence < p then p - w.nextSequence else 1)
                    && v.tally.corruptions == w.corruptions + v.consumed - 1
                    && 0 < v.consumed <= |rs| && rs[v.consumed - 1].Good() && !HasGood(rs[..v.consumed - 1]))
    decreases |rs|
  {
    if rs != [] {
      var front := rs[..|rs| - 1];
      BehindBreaks(w, p, front);
      HasGoodSnoc(rs);
      var v := Witnessed(w, p, front);
      if !v.ok {
        assert rs[..v.consumed - 1] == front[..v.consumed - 1];
      }
    }
  }

  // ----- exactness over a supervisor's lifetime -----

  /** A call that drained rs, or k positions consumed by somebody else between calls. */
  datatype Event = Call(rs: seq<Record>) | Foreign(k: nat)

  datatype Stage = Stage(head: nat, tally: Tally, ok: bool)

  /** The witness after a history of calls and foreign pops; a failed call ends it. */
  function Lifetime(start: nat, events: seq<Event>): Stage {
    if events == [] then Stage(start, NothingSeen(), true)
    else
      var s := Lifetime(start, events[..|events| - 1]);
      if !s.ok then s
      else match events[|events| - 1]
        case Foreign(k) => s.(head := s.head + k)
        case Call(rs) => var v := Witnessed(s.tally, s.head, rs); Stage(s.head + v.consumed, v.tally, v.ok)
  }

  /** Some call has seen a good record. */
  function SeenGood(events: seq<Event>): bool {
    events != []
    && (SeenGood(events[..|events| - 1])
        || (events[|events| - 1].Call? && HasGood(events[|events| - 1].rs)))
  }

  /** The positions others consumed since a call last saw a good record. */
  function Unseen(events: seq<Event>): nat {
    if events == [] then 0
    else match events[|events| - 1]
      case Call(rs) => if HasGood(rs) then 0 else Unseen(events[..|events| - 1])
      case Foreign(k) => if SeenGood(events[..|events| - 1]) then Unseen(events[..|events| - 1]) + k else 0
  }

  /** The positions the calls consumed. */
  function Consumed(events: seq<Event>): nat {
    if events == [] then 0
    else Consumed(events[..|events| - 1]) + (if events[|events| - 1].Call? then |events[|events| - 1].rs| else 0)
  }

  lemma {:induction false} LifetimeLag(start: nat, events: seq<Event>)
    requires Lifetime(start, events).ok
    ensures var s := Lifetime(start, events);
      && (s.tally.records != 0 <==> SeenGood(events))
      && (SeenGood(events) ==> s.tally.nextSequence + Unseen(events) == s.head)
      && (!SeenGood(events) ==> Unseen(events) == 0)
      && s.tally.records + s.tally.corruptions == Consumed(events)
    decreases |events|
  {
    if events != [] {
      var front := events[..|events| - 1];
      LifetimeLag(start, front);
      var s := Lifetime(start, front);
      if events[|events| - 1].Call? {
        CallLag(s.tally, s.head, events[|events| - 1].rs, Unseen(front));
      }
    }
  }

  /** How a call that does not fail moves a witness that lags by u. */
  lemma CallLag(w: Tally, head: nat, rs: seq<Record>, u: nat)
    requires w.records != 0 ==> w.nextSequence + u == head
    requires w.records == 0 ==> u == 0
    ensures var v := Witnessed(w, head, rs);
      && (!v.ok <==> u > 0 && HasGood(rs))
      && (!v.ok ==> v.tally.gapLost == u)
      && (v.ok ==> v.consumed == |rs| && v.tally.records + v.tally.corruptions == w.records + w.corruptions + |rs|
                   && (v.tally.records != 0 <==> w.records != 0 || HasGood(rs))
                   && (v.tally.records != 0 ==> v.tally.nextSequence + (if HasGood(rs) then 0 else u) == head + |rs|))
  {
    if u == 0 {
      LevelNeverBreaks(w, head, rs);
    } else {
      BehindBreaks(w, head, rs);
    }
  }

  /**
   At any point of a supervisor's lifetime the next call fails exactly when others consumed since a good
   record was last seen and the call meets a good record; the gap it then reports is exactly how many
   positions they consumed. Until a call fails, every position the calls consumed is counted once.
   */
  lemma WitnessIsExact(start: nat, events: seq<Event>, rs: seq<Record>)
    requires Lifetime(start, events).ok
    ensures Lifetime(start, events).tally.records + Lifetime(start, events).tally.corruptions == Consumed(events)
    ensures var s := Lifetime(start, events + [Call(rs)]);
      && (s.ok <==> Unseen(events) == 0 || !HasGood(rs))
      && (!s.ok ==> s.tally.gapLost == Unseen(events))
      && (s.ok && SeenGood(events + [Call(rs)]) && Unseen(events + [Call(rs)]) == 0 ==> s.tally.nextSequence == s.head)
  {
    var all := events + [Call(rs)];
    assert all[..|all| - 1] == events;
    LifetimeLag(start, events);
    var s := Lifetime(start, events);
    CallLag(s.tally, s.head, rs, Unseen(events));
    if Lifetime(start, all).ok {
      LifetimeLag(start, all);
    }
  }
}
