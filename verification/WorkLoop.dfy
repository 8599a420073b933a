/** A hot worker's loop against its ring, with a consumer draining between its attempts. */
module WorkLoop {
  import opened Words
  import opened Crc32c
  import opened RingProtocol
  import opened RingBuffer

  /** What a consumer gets from a record: the value, or nothing but a count if the record is corrupt. */
  datatype Outcome = Value(value: seq<Byte>) | Lost

  function OutcomeOf(r: Record, size: nat): Outcome {
    if r.Good() then Value(Front(r.payload, size)) else Lost
  }

  function Outcomes(rs: seq<Record>, size: nat): (o: seq<Outcome>)
    ensures |o| == |rs| && forall i | 0 <= i < |rs| :: o[i] == OutcomeOf(rs[i], size)
  {
    seq(|rs|, i requires 0 <= i < |rs| => OutcomeOf(rs[i], size))
  }

  /** A consumer's takings from a ring and what is still in it. */
  ghost function Flow(drained: seq<Outcome>, mem: Memory, size: nat): seq<Outcome>
    requires mem.WellShaped() && mem.head <= mem.tail
  {
    drained + Outcomes(Records(mem), size)
  }

  lemma FlowAppend(a: seq<Outcome>, b: seq<Outcome>, mem: Memory, size: nat)
    requires mem.WellShaped() && mem.head <= mem.tail
    ensures Flow(a + b, mem, size) == a + Flow(b, mem, size)
  {
    assert (a + b) + Outcomes(Records(mem), size) == a + (b + Outcomes(Records(mem), size));
  }

  lemma OutcomesHead(rs: seq<Record>, size: nat)
    requires rs != []
    ensures Outcomes(rs, size) == [OutcomeOf(rs[0], size)] + Outcomes(rs[1..], size)
  {
  }

  /** A pop moves the oldest outcome from the ring to the consumer. */
  lemma PopFlows(drained: seq<Outcome>, mem: Memory, size: nat)
    requires Quiet(mem) && mem.head < mem.tail
    ensures Quiet(Popped(mem))
    ensures Flow(drained + [OutcomeOf(RecordAt(mem, mem.head), size)], Popped(mem), size) == Flow(drained, mem, size)
  {
    PoppedQuiet(mem);
    var one, rest := OutcomeOf(RecordAt(mem, mem.head), size), Outcomes(Records(Popped(mem)), size);
    OutcomesHead(Records(mem), size);
    assert (drained + [one]) + rest == drained + ([one] + rest);
  }

  /** The outcome of a push: its value, unless its checksum was poisoned. */
  function PushOutcome(value: seq<Byte>, poisoned: bool): Outcome {
    if poisoned then Lost else Value(value)
  }

  function Tag(poisoned: bool): Word32 {
    if poisoned then XOR_OUT else 0
  }

  /** A push appends its outcome. */
  lemma PushFlows(drained: seq<Outcome>, mem: Memory, value: seq<Byte>, poisoned: bool)
    requires Quiet(mem) && mem.tail < mem.head + |mem.cells| && mem.tail + |mem.cells| < TWO_TO_THE_63
    requires |value| <= mem.slotBytes
    ensures var mem' := Pushed(mem, value, Tag(poisoned));
      Quiet(mem') && Flow(drained, mem', |value|) == Flow(drained, mem, |value|) + [PushOutcome(value, poisoned)]
  {
    PushedQuiet(mem, value, Tag(poisoned));
    var mem' := Pushed(mem, value, Tag(poisoned));
    var r := RecordAt(mem', mem.tail);
    var payload := Overlay(mem.At(mem.tail).payload, value);
    assert mem'.At(mem.tail) == CommittedCell(mem.At(mem.tail), mem.tail, value, Tag(poisoned));
    assert r == Record(payload, Xor(Crc(payload), Tag(poisoned)));
    TagSpoils(Crc(payload));
    XorZero(Crc(payload));
    assert Front(payload, |value|) == value;
    assert Outcomes(Records(mem'), |value|) == Outcomes(Records(mem), |value|) + [OutcomeOf(r, |value|)];
  }

  /**
   What surrounds one attempt: the records drained before it, the poison requests that arrive before it,
   whether the ring is still ours, the stop flag, and the time since the tick began, read if it succeeds.
   */
  datatype Moment = Moment(drains: nat, requests: nat, owned: bool, stop: bool, elapsed: nat)

  datatype LoopResult =
    LoopResult(ticksCompleted: nat, overruns: nat, pendingTick: nat, stoppedBeforePush: bool, stoppedDuringPush: bool)

  /** The flag that a poison request raises, and that the next attempt with a ring of its own takes down. */
  class SignalState {
    var poisonNextSlot: bool

    constructor ()
      ensures !poisonNextSlot
    {
      poisonNextSlot := false;
    }
  }

  /** The outcomes of the first k ticks, given which of them were poisoned. */
  function TickOutcomes(process: nat -> seq<Byte>, poisoned: seq<bool>): (o: seq<Outcome>)
    ensures |o| == |poisoned| && forall i | 0 <= i < |o| :: o[i] == PushOutcome(process(i), poisoned[i])
  {
    seq(|poisoned|, i requires 0 <= i < |poisoned| => PushOutcome(process(i), poisoned[i]))
  }

  /** The number of corrupt outcomes. */
  function Losses(o: seq<Outcome>): (k: nat)
    ensures k <= |o|
  {
    if o == [] then 0 else Losses(o[..|o| - 1]) + (if o[|o| - 1].Lost? then 1 else 0)
  }

  /** One pop from a ring that has a record. */
  method DrainOne(ring: LockFreeRingBuffer, ghost taken: seq<Outcome>, size: nat) returns (one: Outcome)
    requires Quiet(ring.Mem()) && size <= ring.slotBytes && ring.corruptionCount <= ring.head < ring.tail
    modifies ring, ring.cells
    ensures Quiet(ring.Mem()) && ring.tail == old(ring.tail) && ring.head == old(ring.head) + 1
    ensures Flow(taken + [one], ring.Mem(), size) == Flow(taken, old(ring.Mem()), size)
    ensures ring.corruptionCount == old(ring.corruptionCount) + (if one.Lost? then 1 else 0)
  {
    PopFlows(taken, ring.Mem(), size);
    PoppedCounts(ring.Mem(), size);
    var ok, out := ring.TryPop(size, 0);
    one := if ok then Value(out) else Lost;
  }

  lemma PoppedCounts(mem: Memory, size: nat)
    requires Quiet(mem) && mem.corruption <= mem.head < mem.tail
    ensures Popped(mem).head == mem.head + 1 && Popped(mem).tail == mem.tail
    ensures Popped(mem).corruption == mem.corruption + (if OutcomeOf(RecordAt(mem, mem.head), size).Lost? then 1 else 0)
  {
    ReleasedHeadQuiet(mem);
    assert Add(mem.corruption, 1) == mem.corruption + 1;
  }

  /** What k pops leave of so many records. */
  function Left(records: nat, k: nat): nat {
    if k <= records then records - k else 0
  }

  /** The consumer's side: up to k pops, stopping at an empty ring. */
  method Drain(ring: LockFreeRingBuffer, k: nat, size: nat) returns (taken: seq<Outcome>)
    requires Quiet(ring.Mem()) && size <= ring.slotBytes && ring.corruptionCount <= ring.head
    modifies ring, ring.cells
    ensures Quiet(ring.Mem()) && ring.tail == old(ring.tail)
    ensures Flow(taken, ring.Mem(), size) == Flow([], old(ring.Mem()), size)
    ensures ring.head == old(ring.head) + |taken|
    ensures ring.tail - ring.head == Left(old(ring.tail - ring.head), k)
    ensures ring.corruptionCount == old(ring.corruptionCount) + Losses(taken)
  {
    taken := [];
    var i := 0;
    while i < k && ring.head < ring.tail
      modifies ring, ring.cells
      invariant |taken| == i <= k
      invariant Quiet(ring.Mem()) && ring.tail == old(ring.tail) && ring.head == old(ring.head) + i
      invariant Flow(taken, ring.Mem(), size) == Flow([], old(ring.Mem()), size)
      invariant ring.corruptionCount == old(ring.corruptionCount) + Losses(taken)
    {
      var one := DrainOne(ring, taken, size);
      assert (taken + [one])[..|taken|] == taken;
      taken := taken + [one];
      i := i + 1;
    }
  }

  /**
   One attempt of the loop's push, after the requests that arrived before it: a lost ownership refuses
   and asks to stop; otherwise a raised flag is taken down whether or not the ring has room.
   */
  method Attempt(ring: LockFreeRingBuffer, signals: SignalState, value: seq<Byte>, m: Moment)
    returns (ok: bool, poison: bool)
    requires Quiet(ring.Mem()) && |value| <= ring.slotBytes && ring.tail + ring.cells.Length < TWO_TO_THE_63
    modifies ring, ring.cells, signals
    ensures poison == (old(signals.poisonNextSlot) || m.requests > 0)
    ensures signals.poisonNextSlot == (poison && !m.owned)
    ensures ok <==> m.owned && old(ring.tail - ring.head) < ring.cells.Length
    ensures Quiet(ring.Mem())
    ensures ring.Mem() == if ok then Pushed(old(ring.Mem()), value, Tag(poison)) else old(ring.Mem())
  {
    if m.requests > 0 {
      signals.poisonNextSlot := true;
    }
    poison := signals.poisonNextSlot;
    if !m.owned {
      return false, poison;
    }
    if signals.poisonNextSlot {
      signals.poisonNextSlot := false;
      ok := ring.TryPush(value, XOR_OUT, 0);
    } else {
      ok := ring.TryPush(value, 0, 0);
    }
  }

  /** Where a run stands: what was drained, what is in the ring, and what was published since start. */
  ghost predicate Account(now: Memory, start: Memory, size: nat, process: nat -> seq<Byte>,
                          drained: seq<Outcome>, poisoned: seq<bool>)
  {
    && Quiet(now) && Quiet(start) && |now.cells| == |start.cells| && now.slotBytes == start.slotBytes
    && now.tail == start.tail + |poisoned| && now.head == start.head + |drained|
    && now.corruption == start.corruption + Losses(drained) && start.corruption <= start.head
    && Flow(drained, now, size) == Flow([], start, size) + TickOutcomes(process, poisoned)
  }

  lemma {:induction false} LossesAppend(a: seq<Outcome>, b: seq<Outcome>)
    ensures Losses(a + b) == Losses(a) + Losses(b)
    decreases |b|
  {
    if b == [] {
      assert a + b == a;
    } else {
      assert (a + b)[..|a + b| - 1] == a + b[..|b| - 1];
      LossesAppend(a, b[..|b| - 1]);
    }
  }

  lemma AccountDrain(now: Memory, now': Memory, start: Memory, size: nat, process: nat -> seq<Byte>,
                     drained: seq<Outcome>, poisoned: seq<bool>, taken: seq<Outcome>)
    requires Account(now, start, size, process, drained, poisoned)
    requires Quiet(now') && now'.tail == now.tail && now'.head == now.head + |taken|
    requires |now'.cells| == |now.cells| && now'.slotBytes == now.slotBytes
    requires now'.corruption == now.corruption + Losses(taken)
    requires Flow(taken, now', size) == Flow([], now, size)
    ensures Account(now', start, size, process, drained + taken, poisoned)
  {
    LossesAppend(drained, taken);
    FlowAppend(drained, taken, now', size);
    FlowAppend(drained, [], now, size);
    assert drained + [] == drained;
  }

  lemma AccountPush(now: Memory, start: Memory, size: nat, process: nat -> seq<Byte>,
                    drained: seq<Outcome>, poisoned: seq<bool>, poison: bool)
    requires Account(now, start, size, process, drained, poisoned)
    requires now.tail < now.head + |now.cells| && now.tail + |now.cells| < TWO_TO_THE_63
    requires |process(|poisoned|)| == size <= now.slotBytes
    ensures Account(Pushed(now, process(|poisoned|), Tag(poison)), start, size, process, drained, poisoned + [poison])
  {
    var one := PushOutcome(process(|poisoned|), poison);
    PushFlows(drained, now, process(|poisoned|), poison);
    TickOutcomesAppend(process, poisoned, poison);
    var before := Flow([], start, size);
    assert (before + TickOutcomes(process, poisoned)) + [one] == before + (TickOutcomes(process, poisoned) + [one]);
  }

  lemma TickOutcomesAppend(process: nat -> seq<Byte>, poisoned: seq<bool>, poison: bool)
    ensures TickOutcomes(process, poisoned + [poison]) ==
            TickOutcomes(process, poisoned) + [PushOutcome(process(|poisoned|), poison)]
  {
  }

  // ----- what a schedule determines -----

  /** The poison flag after k attempts. */
  predicate Carried(moments: seq<Moment>, initial: bool, k: nat)
    requires k <= |moments|
  {
    if k == 0 then initial
    else (Carried(moments, initial, k - 1) || moments[k - 1].requests > 0) && !moments[k - 1].owned
  }

  /** The poison flag as attempt k finds it. */
  predicate FlagUp(moments: seq<Moment>, initial: bool, k: nat)
    requires k < |moments|
  {
    Carried(moments, initial, k) || moments[k].requests > 0
  }

  /** The records in a ring of n slots before attempt k. */
  function Occupancy(moments: seq<Moment>, records: nat, n: nat, k: nat): nat
    requires k <= |moments|
  {
    if k == 0 then records
    else
      var left := Left(Occupancy(moments, records, n, k - 1), moments[k - 1].drains);
      if moments[k - 1].owned && left < n then left + 1 else left
  }

  /** Attempt k finds its ring its own and with room. */
  predicate Admitted(moments: seq<Moment>, records: nat, n: nat, k: nat)
    requires k < |moments|
  {
    moments[k].owned && Left(Occupancy(moments, records, n, k), moments[k].drains) < n
  }

  /** After attempt k no stop is wanted. */
  predicate GoesOn(moments: seq<Moment>, k: nat)
    requires k < |moments|
  {
    moments[k].owned && !moments[k].stop && k + 1 < |moments|
  }

  /**
   After used attempts: the i-th tick was published by attempt attempts[i], poisoned if the flag was then
   up; every admitted attempt published a tick; and no stop was wanted before the last attempt.
   */
  ghost predicate Trace(moments: seq<Moment>, initial: bool, records: nat, n: nat,
                        attempts: seq<nat>, poisoned: seq<bool>, used: nat)
  {
    && |attempts| == |poisoned| && used <= |moments|
    && (forall i, j | 0 <= i < j < |attempts| :: attempts[i] < attempts[j])
    && (forall i | 0 <= i < |attempts| ::
          attempts[i] < used && poisoned[i] == FlagUp(moments, initial, attempts[i]))
    && (forall k: nat | k < used :: k in attempts <==> Admitted(moments, records, n, k))
    && (forall k: nat | k + 1 < used :: GoesOn(moments, k))
  }

  lemma TraceSkip(moments: seq<Moment>, initial: bool, records: nat, n: nat,
                  attempts: seq<nat>, poisoned: seq<bool>, k: nat)
    requires k < |moments| && Trace(moments, initial, records, n, attempts, poisoned, k)
    requires k > 0 ==> GoesOn(moments, k - 1)
    requires !Admitted(moments, records, n, k)
    ensures Trace(moments, initial, records, n, attempts, poisoned, k + 1)
  {
    assert k !in attempts;
  }

  lemma TraceTake(moments: seq<Moment>, initial: bool, records: nat, n: nat,
                  attempts: seq<nat>, poisoned: seq<bool>, k: nat)
    requires k < |moments| && Trace(moments, initial, records, n, attempts, poisoned, k)
    requires k > 0 ==> GoesOn(moments, k - 1)
    requires Admitted(moments, records, n, k)
    ensures Trace(moments, initial, records, n, attempts + [k], poisoned + [FlagUp(moments, initial, k)], k + 1)
  {
    var attempts' := attempts + [k];
    forall j: nat | j < k + 1
      ensures j in attempts' <==> Admitted(moments, records, n, j)
    {
      assert j in attempts' <==> j in attempts || j == k;
    }
  }

  /** The published ticks that took longer than the budget. */
  function Overruns(moments: seq<Moment>, attempts: seq<nat>, budget: nat): nat {
    if attempts == [] then 0
    else
      Overruns(moments, attempts[..|attempts| - 1], budget)
      + (if Slow(moments, attempts[|attempts| - 1], budget) then 1 else 0)
  }

  predicate Slow(moments: seq<Moment>, k: nat, budget: nat) {
    k < |moments| && moments[k].elapsed > budget
  }

  // ----- the loop -----

  /** The consumer's takings at one moment, then one attempt to publish the pending tick. */
  method Round(ring: LockFreeRingBuffer, signals: SignalState, ghost start: Memory, size: nat,
               process: nat -> seq<Byte>, payload: seq<Byte>, m: Moment,
               ghost drained: seq<Outcome>, ghost poisoned: seq<bool>)
    returns (taken: seq<Outcome>, published: bool, poison: bool)
    requires Account(ring.Mem(), start, size, process, drained, poisoned)
    requires payload == process(|poisoned|) && |payload| == size <= ring.slotBytes
    requires ring.tail + ring.cells.Length < TWO_TO_THE_63
    modifies ring, ring.cells, signals
    ensures poison == (old(signals.poisonNextSlot) || m.requests > 0)
    ensures signals.poisonNextSlot == (poison && !m.owned)
    ensures var left := Left(old(ring.tail - ring.head), m.drains);
      && (published <==> m.owned && left < ring.cells.Length)
      && ring.tail - ring.head == if published then left + 1 else left
    ensures published ==> Account(ring.Mem(), start, size, process, drained + taken, poisoned + [poison])
    ensures !published ==> Account(ring.Mem(), start, size, process, drained + taken, poisoned)
  {
    ghost var before := ring.Mem();
    taken := Drain(ring, m.drains, size);
    ghost var after := ring.Mem();
    AccountDrain(before, after, start, size, process, drained, poisoned, taken);
    published, poison := Attempt(ring, signals, payload, m);
    if published {
      AccountPush(after, start, size, process, drained + taken, poisoned, poison);
    }
  }

  /** The loop's state matches the schedule after used attempts. */
  ghost predicate InStep(mem: Memory, flag: bool, moments: seq<Moment>, initial: bool,
                         records: nat, attempts: seq<nat>, poisoned: seq<bool>, used: nat)
  {
    && Trace(moments, initial, records, |mem.cells|, attempts, poisoned, used)
    && mem.tail - mem.head == Occupancy(moments, records, |mem.cells|, used)
    && flag == Carried(moments, initial, used)
  }

  /** A round that follows the schedule. */
  method ScheduledRound(ring: LockFreeRingBuffer, signals: SignalState, ghost start: Memory, size: nat,
                        process: nat -> seq<Byte>, payload: seq<Byte>, moments: seq<Moment>, k: nat,
                        ghost initial: bool, ghost records: nat,
                        ghost drained: seq<Outcome>, ghost poisoned: seq<bool>, ghost attempts: seq<nat>)
    returns (taken: seq<Outcome>, published: bool, poison: bool)
    requires Account(ring.Mem(), start, size, process, drained, poisoned)
    requires payload == process(|poisoned|) && |payload| == size <= ring.slotBytes
    requires ring.tail + ring.cells.Length < TWO_TO_THE_63
    requires k < |moments| && (k > 0 ==> GoesOn(moments, k - 1))
    requires InStep(ring.Mem(), signals.poisonNextSlot, moments, initial, records, attempts, poisoned, k)
    modifies ring, ring.cells, signals
    ensures published ==>
              && Account(ring.Mem(), start, size, process, drained + taken, poisoned + [poison])
              && InStep(ring.Mem(), signals.poisonNextSlot, moments, initial, records, attempts + [k],
                        poisoned + [poison], k + 1)
    ensures !published ==>
              && Account(ring.Mem(), start, size, process, drained + taken, poisoned)
              && InStep(ring.Mem(), signals.poisonNextSlot, moments, initial, records, attempts, poisoned, k + 1)
              && k !in attempts
  {
    taken, published, poison := Round(ring, signals, start, size, process, payload, moments[k], drained, poisoned);
    if published {
      TraceTake(moments, initial, records, ring.cells.Length, attempts, poisoned, k);
    } else {
      TraceSkip(moments, initial, records, ring.cells.Length, attempts, poisoned, k);
    }
  }

  /**
   Where a run stands, in what was moved and in what the schedule says. It is stated for every count equal
   to used, so that a proof unfolds it only where it looks at the schedule.
   */
  ghost predicate Standing(mem: Memory, flag: bool, start: Memory, size: nat,
                           process: nat -> seq<Byte>, moments: seq<Moment>, initial: bool, records: nat,
                           drained: seq<Outcome>, poisoned: seq<bool>, attempts: seq<nat>, used: nat)
  {
    forall k: nat | k == used ::
      && InStep(mem, flag, moments, initial, records, attempts, poisoned, k)
      && Account(mem, start, size, process, drained, poisoned)
  }

  lemma StandingIs(mem: Memory, flag: bool, start: Memory, size: nat,
                   process: nat -> seq<Byte>, moments: seq<Moment>, initial: bool, records: nat,
                   drained: seq<Outcome>, poisoned: seq<bool>, attempts: seq<nat>, used: nat)
    requires Standing(mem, flag, start, size, process, moments, initial, records, drained, poisoned, attempts, used)
    ensures InStep(mem, flag, moments, initial, records, attempts, poisoned, used)
    ensures Account(mem, start, size, process, drained, poisoned)
  {
    assert InStep(mem, flag, moments, initial, records, attempts, poisoned, used);
  }

  /** Retries one tick's push until it is published or a stop is seen. */
  method PublishTick(ring: LockFreeRingBuffer, signals: SignalState, ghost start: Memory, size: nat,
                     process: nat -> seq<Byte>, payload: seq<Byte>, moments: seq<Moment>, first: nat,
                     ghost initial: bool, ghost records: nat,
                     drained: seq<Outcome>, ghost poisoned: seq<bool>, ghost attempts: seq<nat>)
    returns (published: bool, poison: bool, drained': seq<Outcome>, next: nat)
    requires Standing(ring.Mem(), signals.poisonNextSlot, start, size, process, moments, initial, records, drained,
                      poisoned, attempts, first)
    requires payload == process(|poisoned|) && |payload| == size <= ring.slotBytes
    requires ring.tail + ring.cells.Length < TWO_TO_THE_63
    requires first < |moments| && (first > 0 ==> GoesOn(moments, first - 1))
    modifies ring, ring.cells, signals
    ensures first < next <= |moments|
    ensures published ==>
              Standing(ring.Mem(), signals.poisonNextSlot, start, size, process, moments, initial, records,
                       drained', poisoned + [poison], attempts + [next - 1], next)
    ensures !published ==>
              && Standing(ring.Mem(), signals.poisonNextSlot, start, size, process, moments, initial, records,
                          drained', poisoned, attempts, next)
              && !GoesOn(moments, next - 1) && next - 1 !in attempts
  {
    drained', next := drained, first;
    while true
      modifies ring, ring.cells, signals
      invariant first <= next < |moments| && ring.tail + ring.cells.Length < TWO_TO_THE_63
      invariant next > 0 ==> GoesOn(moments, next - 1)
      invariant Standing(ring.Mem(), signals.poisonNextSlot, start, size, process, moments, initial, records,
                         drained', poisoned, attempts, next)
      decreases |moments| - next
    {
      StandingIs(ring.Mem(), signals.poisonNextSlot, start, size, process, moments, initial, records, drained',
                 poisoned, attempts, next);
      var taken;
      taken, published, poison := ScheduledRound(ring, signals, start, size, process, payload, moments, next,
                                                 initial, records, drained', poisoned, attempts);
      drained', next := drained' + taken, next + 1;
      if published || !moments[next - 1].owned || moments[next - 1].stop || next == |moments| {
        return;
      }
    }
  }

  /** What a run is given: its configuration, and the ring and the poison flag as it finds them. */
  datatype Given = Given(start: Memory, initial: bool, ticks: nat, budget: nat, size: nat, process: nat -> seq<Byte>,
                         moments: seq<Moment>)
  {
    function Records(): nat {
      if start.head <= start.tail then start.tail - start.head else 0
    }

    ghost predicate Valid() {
      && Quiet(start) && start.corruption <= start.head
      && size <= start.slotBytes && start.tail + ticks + |start.cells| < TWO_TO_THE_63
      && forall t: nat :: |process(t)| == size
    }
  }

  /** What a run has produced so far. */
  datatype Progress = Progress(result: LoopResult, overrunFlag: bool, drained: seq<Outcome>, poisoned: seq<bool>,
                               attempts: seq<nat>, used: nat)

  /** The accounts are in order: content, schedule, ticks and overruns. */
  ghost predicate InOrder(mem: Memory, flag: bool, g: Given, p: Progress) {
    && Standing(mem, flag, g.start, g.size, g.process, g.moments, g.initial, g.Records(),
                p.drained, p.poisoned, p.attempts, p.used)
    && |p.poisoned| == p.result.ticksCompleted <= g.ticks
    && p.result.overruns == Overruns(g.moments, p.attempts, g.budget)
    && (p.overrunFlag <==> p.result.overruns > 0)
  }

  /** Between ticks: the last attempt, if any, published. */
  ghost predicate BetweenTicks(g: Given, p: Progress) {
    && !p.result.stoppedBeforePush && !p.result.stoppedDuringPush && p.used <= |g.moments|
    && if p.used == 0 then p.attempts == [] else p.attempts != [] && p.attempts[|p.attempts| - 1] == p.used - 1
  }

  /** How a run ends: all ticks done, or stopped with the first unpublished tick pending. */
  ghost predicate Ended(g: Given, p: Progress) {
    var r := p.result;
    && p.used <= |g.moments|
    && (!r.stoppedBeforePush && !r.stoppedDuringPush ==> r.ticksCompleted == g.ticks)
    && (r.stoppedBeforePush || r.stoppedDuringPush ==>
          && r.pendingTick == r.ticksCompleted < g.ticks
          && if p.used == 0 then g.moments == [] else !GoesOn(g.moments, p.used - 1))
    && (r.stoppedBeforePush ==> p.used == 0 || p.used - 1 in p.attempts)
    && (r.stoppedDuringPush ==> p.used > 0 && p.used - 1 !in p.attempts)
  }

  /** One tick: the stop check, then the push with its retries. */
  method RunTick(ring: LockFreeRingBuffer, signals: SignalState, g: Given, p: Progress)
    returns (p': Progress, stopped: bool)
    requires g.Valid() && InOrder(ring.Mem(), signals.poisonNextSlot, g, p) && BetweenTicks(g, p)
             && p.result.ticksCompleted < g.ticks
    modifies ring, ring.cells, signals
    ensures InOrder(ring.Mem(), signals.poisonNextSlot, g, p')
    ensures stopped ==> Ended(g, p')
    ensures !stopped ==> BetweenTicks(g, p') && p'.result.ticksCompleted == p.result.ticksCompleted + 1
  {
    var t, next, moments := p.result.ticksCompleted, p.used, g.moments;
    if next == |moments| || (next > 0 && (moments[next - 1].stop || !moments[next - 1].owned)) {
      p' := p.(result := p.result.(stoppedBeforePush := true, pendingTick := t));
      return p', true;
    }
    var published, poison, drained;
    published, poison, drained, next := PublishNext(ring, signals, g, p);
    if !published {
      p' := p.(result := p.result.(stoppedDuringPush := true, pendingTick := t), drained := drained, used := next);
      return p', true;
    }
    p' := TickDone(g, p, drained, poison, next);
    return p', false;
  }

  /** The next tick's payload and its push. */
  method PublishNext(ring: LockFreeRingBuffer, signals: SignalState, g: Given, p: Progress)
    returns (published: bool, poison: bool, drained: seq<Outcome>, next: nat)
    requires g.Valid() && InOrder(ring.Mem(), signals.poisonNextSlot, g, p) && p.result.ticksCompleted < g.ticks
    requires p.used < |g.moments| && (p.used > 0 ==> GoesOn(g.moments, p.used - 1))
    modifies ring, ring.cells, signals
    ensures p.used < next <= |g.moments|
    ensures published ==>
              Standing(ring.Mem(), signals.poisonNextSlot, g.start, g.size, g.process, g.moments, g.initial,
                       g.Records(), drained, p.poisoned + [poison], p.attempts + [next - 1], next)
    ensures !published ==>
              && Standing(ring.Mem(), signals.poisonNextSlot, g.start, g.size, g.process, g.moments, g.initial,
                          g.Records(), drained, p.poisoned, p.attempts, next)
              && !GoesOn(g.moments, next - 1) && next - 1 !in p.attempts
  {
    StandingIs(ring.Mem(), signals.poisonNextSlot, g.start, g.size, g.process, g.moments, g.initial, g.Records(),
               p.drained, p.poisoned, p.attempts, p.used);
    TickReady(ring.Mem(), g, p);
    var payload := g.process(p.result.ticksCompleted);
    published, poison, drained, next :=
      PublishTick(ring, signals, g.start, g.size, g.process, payload, g.moments, p.used, g.initial, g.Records(),
                  p.drained, p.poisoned, p.attempts);
  }

  lemma TickReady(mem: Memory, g: Given, p: Progress)
    requires g.Valid() && Account(mem, g.start, g.size, g.process, p.drained, p.poisoned) && |p.poisoned| < g.ticks
    ensures mem.tail + |mem.cells| < TWO_TO_THE_63 && |g.process(|p.poisoned|)| == g.size <= mem.slotBytes
  {
  }

  /** The accounting of a published tick. */
  method TickDone(g: Given, p: Progress, drained: seq<Outcome>, poison: bool, next: nat) returns (p': Progress)
    requires 0 < next <= |g.moments|
    requires p.result.overruns == Overruns(g.moments, p.attempts, g.budget)
             && (p.overrunFlag <==> p.result.overruns > 0)
    ensures var slow := g.moments[next - 1].elapsed > g.budget;
      p' == Progress(p.result.(ticksCompleted := p.result.ticksCompleted + 1,
                               overruns := p.result.overruns + (if slow then 1 else 0)),
                     p.overrunFlag || slow, drained, p.poisoned + [poison], p.attempts + [next - 1], next)
    ensures p'.result.overruns == Overruns(g.moments, p'.attempts, g.budget)
    ensures p'.overrunFlag <==> p'.result.overruns > 0
  {
    OverrunsSnoc(g.moments, p.attempts, next - 1, g.budget);
    var r, overrunFlag := p.result, p.overrunFlag;
    if g.moments[next - 1].elapsed > g.budget {
      r, overrunFlag := r.(overruns := r.overruns + 1), true;
    }
    r := r.(ticksCompleted := r.ticksCompleted + 1);
    p' := Progress(r, overrunFlag, drained, p.poisoned + [poison], p.attempts + [next - 1], next);
  }

  function NoProgress(): Progress {
    Progress(LoopResult(0, 0, 0, false, false), false, [], [], [], 0)
  }

  lemma Begins(ring: LockFreeRingBuffer, signals: SignalState, g: Given)
    requires g.Valid() && g.start == ring.Mem() && g.initial == signals.poisonNextSlot
    ensures InOrder(ring.Mem(), signals.poisonNextSlot, g, NoProgress())
  {
    assert Flow([], g.start, g.size) + TickOutcomes(g.process, []) == Flow([], g.start, g.size);
    assert Account(ring.Mem(), g.start, g.size, g.process, [], []);
    assert InStep(ring.Mem(), signals.poisonNextSlot, g.moments, g.initial, g.Records(), [], [], 0);
  }

  /**
   Runs ticks 0, 1, 2, ... until all are published or a stop is seen. The moments list what happens around
   the successive attempts; when they run out, the stop flag is up. What the consumer has drained,
   followed by what is still in the ring, is what was there before followed by the processed ticks in
   order, except that a poisoned tick is a loss, which draining counts. The schedule determines which
   attempts publish, which of them are poisoned, and the number of overruns. On any stop the pending tick
   is the first one not published.
   */
  method RunWorkLoop(ring: LockFreeRingBuffer, signals: SignalState, g: Given) returns (p: Progress)
    requires g.Valid() && g.start == ring.Mem() && g.initial == signals.poisonNextSlot
    modifies ring, ring.cells, signals
    ensures Account(ring.Mem(), g.start, g.size, g.process, p.drained, p.poisoned)
    ensures InStep(ring.Mem(), signals.poisonNextSlot, g.moments, g.initial, g.Records(), p.attempts, p.poisoned,
                   p.used)
    ensures |p.poisoned| == p.result.ticksCompleted <= g.ticks
    ensures p.result.overruns == Overruns(g.moments, p.attempts, g.budget) && (p.overrunFlag <==> p.result.overruns > 0)
    ensures Ended(g, p)
  {
    p := NoProgress();
    Begins(ring, signals, g);
    for t := 0 to g.ticks
      modifies ring, ring.cells, signals
      invariant InOrder(ring.Mem(), signals.poisonNextSlot, g, p) && BetweenTicks(g, p) && p.result.ticksCompleted == t
    {
      var stopped;
      p, stopped := RunTick(ring, signals, g, p);
      if stopped {
        StandingIs(ring.Mem(), signals.poisonNextSlot, g.start, g.size, g.process, g.moments, g.initial, g.Records(),
                   p.drained, p.poisoned, p.attempts, p.used);
        return;
      }
    }
    StandingIs(ring.Mem(), signals.poisonNextSlot, g.start, g.size, g.process, g.moments, g.initial, g.Records(),
               p.drained, p.poisoned, p.attempts, p.used);
  }

  lemma OverrunsSnoc(moments: seq<Moment>, attempts: seq<nat>, k: nat, budget: nat)
    ensures Overruns(moments, attempts + [k], budget)
            == Overruns(moments, attempts, budget) + (if Slow(moments, k, budget) then 1 else 0)
  {
    assert (attempts + [k])[..|attempts|] == attempts;
  }

  /**
   A run makes no attempt after a lost ownership or a stop, and leaves a tick unpublished only after one of
   these, or when the moments have run out.
   */
  lemma StopsExactly(mem: Memory, flag: bool, g: Given, p: Progress)
    requires InStep(mem, flag, g.moments, g.initial, g.Records(), p.attempts, p.poisoned, p.used) && Ended(g, p)
    ensures forall k: nat | k + 1 < p.used <= |g.moments| :: g.moments[k].owned && !g.moments[k].stop
    ensures p.result.ticksCompleted != g.ticks ==>
              || p.used == |g.moments|
              || (0 < p.used <= |g.moments| && (!g.moments[p.used - 1].owned || g.moments[p.used - 1].stop))
  {
    forall k: nat | k + 1 < p.used
      ensures g.moments[k].owned && !g.moments[k].stop
    {
      assert GoesOn(g.moments, k);
    }
  }

  /** The overruns are the published ticks whose time exceeded the budget. */
  lemma {:induction false} OverrunsExactly(moments: seq<Moment>, attempts: seq<nat>, budget: nat)
    requires forall i | 0 <= i < |attempts| :: attempts[i] < |moments|
    ensures Overruns(moments, attempts, budget) ==
            |set i | 0 <= i < |attempts| && moments[attempts[i]].elapsed > budget|
    decreases |attempts|
  {
    var late := set i | 0 <= i < |attempts| && moments[attempts[i]].elapsed > budget;
    if attempts == [] {
      assert late == {};
    } else {
      var n := |attempts| - 1;
      var front := attempts[..n];
      OverrunsExactly(moments, front, budget);
      var before := set i | 0 <= i < |front| && moments[front[i]].elapsed > budget;
      assert late == if moments[attempts[n]].elapsed > budget then before + {n} else before;
    }
  }

  // ----- what a run means for its output -----

  function Poisonings(poisoned: seq<bool>): nat {
    if poisoned == [] then 0 else Poisonings(poisoned[..|poisoned| - 1]) + (if poisoned[|poisoned| - 1] then 1 else 0)
  }

  lemma {:induction false} LossesArePoisonings(process: nat -> seq<Byte>, poisoned: seq<bool>)
    ensures Losses(TickOutcomes(process, poisoned)) == Poisonings(poisoned)
    decreases |poisoned|
  {
    if poisoned != [] {
      var rest := poisoned[..|poisoned| - 1];
      LossesArePoisonings(process, rest);
      assert TickOutcomes(process, poisoned)[..|poisoned| - 1] == TickOutcomes(process, rest);
    }
  }

  /**
   From an empty ring, whatever the schedule: the consumer has got the processed ticks 0, 1, 2, ... in
   order without a gap, short only of poisoned ones, whose number the ring's corruption count grew by;
   the ticks that follow, up to the last one published, are in the ring in order.
   */
  lemma OutputIsTicks(now: Memory, start: Memory, size: nat, process: nat -> seq<Byte>,
                      drained: seq<Outcome>, poisoned: seq<bool>)
    requires Account(now, start, size, process, drained, poisoned) && start.head == start.tail
    ensures |drained| + |Records(now)| == |poisoned|
    ensures forall i | 0 <= i < |drained| :: drained[i] == PushOutcome(process(i), poisoned[i])
    ensures forall i | 0 <= i < |Records(now)| ::
              OutcomeOf(Records(now)[i], size) == PushOutcome(process(|drained| + i), poisoned[|drained| + i])
    ensures now.corruption == start.corruption + Poisonings(poisoned[..|drained|])
  {
    assert Flow([], start, size) == [];
    assert [] + TickOutcomes(process, poisoned) == TickOutcomes(process, poisoned);
    SplitTicks(process, poisoned, drained, Outcomes(Records(now), size));
  }

  lemma SplitTicks(process: nat -> seq<Byte>, poisoned: seq<bool>, drained: seq<Outcome>, rest: seq<Outcome>)
    requires drained + rest == TickOutcomes(process, poisoned)
    ensures |drained| + |rest| == |poisoned|
    ensures forall i | 0 <= i < |drained| :: drained[i] == PushOutcome(process(i), poisoned[i])
    ensures forall i | 0 <= i < |rest| :: rest[i] == PushOutcome(process(|drained| + i), poisoned[|drained| + i])
    ensures Losses(drained) == Poisonings(poisoned[..|drained|])
  {
    assert |drained + rest| == |poisoned|;
    forall i | 0 <= i < |drained|
      ensures drained[i] == PushOutcome(process(i), poisoned[i])
    {
      assert drained[i] == (drained + rest)[i];
    }
    forall i | 0 <= i < |rest|
      ensures rest[i] == PushOutcome(process(|drained| + i), poisoned[|drained| + i])
    {
      assert rest[i] == (drained + rest)[|drained| + i];
    }
    assert drained == TickOutcomes(process, poisoned[..|drained|]);
    LossesArePoisonings(process, poisoned[..|drained|]);
  }

  // ----- what becomes of poison requests -----

  /**
   The intervals in which the flag was up during the first k attempts: each begins with a request while it is down.
   */
  function Raised(moments: seq<Moment>, initial: bool, k: nat): nat
    requires k <= |moments|
  {
    if k == 0 then (if initial then 1 else 0)
    else
      Raised(moments, initial, k - 1)
      + (if moments[k - 1].requests > 0 && !Carried(moments, initial, k - 1) then 1 else 0)
  }

  /** The intervals whose first owned attempt was refused for want of room. */
  function Wasted(moments: seq<Moment>, initial: bool, attempts: seq<nat>, k: nat): nat
    requires k <= |moments|
  {
    if k == 0 then 0
    else
      Wasted(moments, initial, attempts, k - 1)
      + (if FlagUp(moments, initial, k - 1) && moments[k - 1].owned && k - 1 !in attempts then 1 else 0)
  }

  /** Wasted looks only at attempts before k. */
  lemma {:induction false} WastedFrame(moments: seq<Moment>, initial: bool, a: seq<nat>, b: seq<nat>, k: nat)
    requires k <= |moments| && forall j: nat | j < k :: j in a <==> j in b
    ensures Wasted(moments, initial, a, k) == Wasted(moments, initial, b, k)
    decreases k
  {
    if k > 0 {
      WastedFrame(moments, initial, a, b, k - 1);
    }
  }

  /** Attempts publish only while the ring is owned, and poison exactly when the flag was up. */
  ghost predicate Published(moments: seq<Moment>, initial: bool, attempts: seq<nat>, poisoned: seq<bool>, used: nat) {
    && |attempts| == |poisoned| && used <= |moments|
    && (forall i, j | 0 <= i < j < |attempts| :: attempts[i] < attempts[j])
    && (forall i | 0 <= i < |attempts| ::
          attempts[i] < used && moments[attempts[i]].owned && poisoned[i] == FlagUp(moments, initial, attempts[i]))
  }

  lemma TracePublishes(moments: seq<Moment>, initial: bool, records: nat, n: nat,
                       attempts: seq<nat>, poisoned: seq<bool>, used: nat)
    requires Trace(moments, initial, records, n, attempts, poisoned, used)
    ensures Published(moments, initial, attempts, poisoned, used)
  {
    forall i | 0 <= i < |attempts|
      ensures moments[attempts[i]].owned
    {
      assert attempts[i] in attempts && Admitted(moments, records, n, attempts[i]);
    }
  }

  lemma {:induction false} PublishedBalance(moments: seq<Moment>, initial: bool, attempts: seq<nat>,
                                            poisoned: seq<bool>, k: nat)
    requires Published(moments, initial, attempts, poisoned, k)
    ensures Raised(moments, initial, k) ==
            Poisonings(poisoned) + Wasted(moments, initial, attempts, k) +
            (if Carried(moments, initial, k) then 1 else 0)
    decreases k
  {
    if k > 0 {
      var m := |attempts|;
      if m > 0 && attempts[m - 1] == k - 1 {
        var front := attempts[..m - 1];
        PublishedBalance(moments, initial, front, poisoned[..m - 1], k - 1);
        forall j: nat | j < k - 1
          ensures j in attempts <==> j in front
        {
          assert j in attempts <==> j in front || j == attempts[m - 1];
        }
        WastedFrame(moments, initial, attempts, front, k - 1);
        assert k - 1 in attempts;
      } else {
        assert k - 1 !in attempts;
        PublishedBalance(moments, initial, attempts, poisoned, k - 1);
      }
    }
  }

  /**
   However many requests arrive: the records poisoned by a run are exactly the intervals in which the flag
   was up whose first owned attempt had room; an interval whose first owned attempt was refused is wasted,
   and one without an owned attempt is still pending.
   */
  lemma PoisonedPerInterval(moments: seq<Moment>, initial: bool, records: nat, n: nat,
                            attempts: seq<nat>, poisoned: seq<bool>, used: nat)
    requires Trace(moments, initial, records, n, attempts, poisoned, used)
    ensures Raised(moments, initial, used) ==
            Poisonings(poisoned) + Wasted(moments, initial, attempts, used) +
            (if Carried(moments, initial, used) then 1 else 0)
  {
    TracePublishes(moments, initial, records, n, attempts, poisoned, used);
    PublishedBalance(moments, initial, attempts, poisoned, used);
  }

  /** Without a further request no attempt after an owned one finds the flag up. */
  lemma {:induction false} FlagStaysDown(moments: seq<Moment>, initial: bool, k: nat, j: nat)
    requires k < j < |moments| && moments[k].owned && forall i | k < i <= j :: moments[i].requests == 0
    ensures !FlagUp(moments, initial, j)
    decreases j
  {
    if k + 1 < j {
      FlagStaysDown(moments, initial, k, j - 1);
    }
  }

  /** No attempt from i up to k was made by the owner. */
  predicate NoneOwned(moments: seq<Moment>, i: nat, k: nat)
    requires k <= |moments|
  {
    forall j | i <= j < k :: !moments[j].owned
  }

  /** The flag is up after k attempts exactly if it was raised and no owned attempt came since. */
  lemma {:induction false} CarriedExactly(moments: seq<Moment>, initial: bool, k: nat)
    requires k <= |moments|
    ensures Carried(moments, initial, k) <==>
            || (initial && NoneOwned(moments, 0, k))
            || exists i :: 0 <= i < k && moments[i].requests > 0 && NoneOwned(moments, i, k)
    decreases k
  {
    if k > 0 {
      CarriedExactly(moments, initial, k - 1);
      if Carried(moments, initial, k) {
        if initial && NoneOwned(moments, 0, k - 1) {
          assert NoneOwned(moments, 0, k);
        } else if moments[k - 1].requests > 0 {
          assert NoneOwned(moments, k - 1, k);
        } else {
          var i :| 0 <= i < k - 1 && moments[i].requests > 0 && NoneOwned(moments, i, k - 1);
          assert NoneOwned(moments, i, k);
        }
      }
      if initial && NoneOwned(moments, 0, k) {
        assert NoneOwned(moments, 0, k - 1);
      }
      if i :| 0 <= i < k && moments[i].requests > 0 && NoneOwned(moments, i, k) {
        assert NoneOwned(moments, i, k - 1);
      }
    }
  }

  /** An attempt poisons if a request came that no owned attempt has answered, or came just before it. */
  lemma FlagUpExactly(moments: seq<Moment>, initial: bool, k: nat)
    requires k < |moments|
    ensures FlagUp(moments, initial, k) <==>
            || (initial && NoneOwned(moments, 0, k))
            || exists i :: 0 <= i <= k && moments[i].requests > 0 && NoneOwned(moments, i, k)
  {
    CarriedExactly(moments, initial, k);
    if moments[k].requests > 0 {
      assert NoneOwned(moments, k, k);
    }
  }

  /** A request before an attempt that a full ring refuses poisons nothing: the retry is clean. */
  lemma RefusedRequestIsWasted(n: nat)
    requires n > 0
    ensures var moments := [Moment(0, 1, true, false, 0), Moment(1, 0, true, false, 0)];
      && FlagUp(moments, false, 0) && Raised(moments, false, 2) == 1
      && Trace(moments, false, n, n, [1], [false], 2)
      && Wasted(moments, false, [1], 2) == 1 && !Carried(moments, false, 2)
  {
    var moments := [Moment(0, 1, true, false, 0), Moment(1, 0, true, false, 0)];
    assert !Admitted(moments, n, n, 0);
    assert Occupancy(moments, n, n, 1) == n;
    assert Admitted(moments, n, n, 1);
    assert Raised(moments, false, 1) == 1 && !Carried(moments, false, 1);
    assert Wasted(moments, false, [1], 1) == 1;
  }
}
