/**
 The multi-producer, multi-consumer ring as a transition system: any number of threads, one step
 per load, compare-and-swap, payload write or sequence store, in any interleaving. Atomics are
 sequentially consistent. Alongside the shared memory the state keeps a history of who claimed
 each position with what, which no step ever reads.
 */
module RingProtocol {
  import opened Words
  import opened Crc32c

  // ----- shared memory -----

  datatype Cell = Cell(sequence: Word, payload: seq<Byte>, crc: Word32)

  datatype Memory = Memory(tail: Word, head: Word, corruption: Word, slotBytes: nat, cells: seq<Cell>) {
    predicate WellShaped() {
      && 2 <= |cells| < TWO_TO_THE_63
      && IsPowerOfTwo(|cells|)
      && forall i | 0 <= i < |cells| :: |cells[i].payload| == slotBytes
    }

    /** The cell serving position p. */
    function At(p: nat): Cell
      requires |cells| > 0
    {
      cells[Index(p, |cells|)]
    }

    function Put(p: nat, c: Cell): Memory
      requires |cells| > 0
    {
      this.(cells := cells[Index(p, |cells|) := c])
    }
  }

  // ----- threads -----

  /** Where a thread stands inside a call. */
  datatype Pc =
    | Idle
    | PushStart(value: seq<Byte>, tag: Word32)              // about to load tail
    | PushAt(value: seq<Byte>, tag: Word32, pos: Word)      // about to load the slot's sequence
    | PushReady(value: seq<Byte>, tag: Word32, pos: Word)   // saw ready(pos), about to swap tail
    | PushClaimed(value: seq<Byte>, tag: Word32, pos: Word) // owns pos, about to write the payload
    | PushFilled(value: seq<Byte>, tag: Word32, pos: Word)  // about to write the checksum
    | PushTagged(value: seq<Byte>, tag: Word32, pos: Word)  // about to commit
    | PopStart(size: nat)                                   // about to load head
    | PopAt(size: nat, pos: Word)                           // about to load the slot's sequence
    | PopReady(size: nat, pos: Word)                        // saw commit(pos), about to swap head
    | PopClaimed(size: nat, pos: Word)                      // owns pos, about to check the payload
    | PopGood(size: nat, pos: Word)                         // about to copy the payload out
    | PopCopied(pos: Word, out: seq<Byte>)                  // about to release and deliver
    | PopBad(pos: Word)                                     // about to release a corrupted slot
    | PopUncounted(pos: Word)                               // released, about to count the loss
  {
    /** The thread may write the bytes of the slot at p. */
    predicate OwnsForPush(p: nat) {
      (PushClaimed? || PushFilled? || PushTagged?) && pos == p
    }

    /** The thread may read the bytes of the slot at p. */
    predicate OwnsForPop(p: nat) {
      (PopClaimed? || PopGood? || PopCopied? || PopBad?) && pos == p
    }

    /** The thread has taken p and the outcome is not yet on record. */
    predicate Pending(p: nat) {
      OwnsForPop(p) || (PopUncounted? && pos == p)
    }
  }

  predicate InPush(pc: Pc) {
    pc.PushStart? || pc.PushAt? || pc.PushReady? || pc.PushClaimed? || pc.PushFilled? || pc.PushTagged?
  }

  predicate InPop(pc: Pc) {
    pc.PopStart? || pc.PopAt? || pc.PopReady? || pc.PopClaimed? || pc.PopGood? || pc.PopCopied? || pc.PopBad?
    || pc.PopUncounted?
  }

  /** What the producer that claimed a position brought. */
  datatype Entry = Entry(producer: nat, value: seq<Byte>, tag: Word32)

  /** The shared memory and the claims made on it so far. */
  datatype Ring = Ring(
    mem: Memory,
    log: seq<Entry>,      // by position, as claimed on tail
    takers: seq<nat>,     // by position, as claimed on head
    tainted: set<nat>)    // positions whose committed bytes the environment changed

  datatype Sizes = Sizes(
    wants: map<nat, nat>,    // per consumer, the size its latest call asked for
    asked: map<nat, nat>)    // by position, the size the call that delivered it asked for

  datatype State = State(
    ring: Ring,
    threads: map<nat, Pc>,
    sent: map<nat, seq<seq<Byte>>>,   // per producer, the values of its successful calls
    got: map<nat, seq<nat>>,          // per consumer, the positions of its successful calls
    delivered: map<nat, seq<Byte>>,   // by position, what a successful pop returned
    skipped: set<nat>,                // positions counted as corrupted
    sizes: Sizes)
  {
    function PcOf(t: nat): Pc { if t in threads then threads[t] else Idle }
    function SentBy(t: nat): seq<seq<Byte>> { if t in sent then sent[t] else [] }
    function GotBy(t: nat): seq<nat> { if t in got then got[t] else [] }
    function WantOf(t: nat): nat { if t in sizes.wants then sizes.wants[t] else 0 }
    function Move(t: nat, pc: Pc): State { this.(threads := threads[t := pc]) }

    /** Position p is claimed but not committed. */
    predicate Producing(p: nat) {
      p < |ring.log| && PcOf(ring.log[p].producer).OwnsForPush(p)
    }

    /** Position p is taken but not released. */
    predicate Consuming(p: nat) {
      p < |ring.takers| && PcOf(ring.takers[p]).OwnsForPop(p)
    }

    /** Position p is taken and its outcome is still open. */
    predicate Open(p: nat) {
      p < |ring.takers| && PcOf(ring.takers[p]).Pending(p)
    }

    predicate Committed(p: nat) {
      p < |ring.log| && !Producing(p)
    }

    predicate Released(p: nat) {
      p < |ring.takers| && !Consuming(p)
    }
  }

  // ----- steps -----

  datatype Action =
    | CallPush(t: nat, value: seq<Byte>, tag: Word32)
    | CallPop(t: nat, size: nat)
    | Advance(t: nat, spurious: bool)                       // spurious: a weak swap that fails for no reason
    | Corrupt(p: nat, payload: seq<Byte>, crc: Word32, at: nat)

  /** The environment may damage one committed, unclaimed, clean slot, within what the CRC detects. */
  ghost predicate Damages(cell: Cell, payload: seq<Byte>, crc: Word32, at: nat) {
    || (crc == cell.crc && BurstAt(cell.payload, payload, at))
    || (crc != cell.crc && payload == cell.payload)
  }

  /** The payload after a value is copied over its front; longer values do not compile in the source. */
  function Overlay(payload: seq<Byte>, value: seq<Byte>): (r: seq<Byte>)
    ensures |r| == |payload|
  {
    if |value| <= |payload| then value + payload[|value|..] else value[..|payload|]
  }

  /** The first size bytes of a payload. */
  function Front(payload: seq<Byte>, size: nat): seq<Byte> {
    if size <= |payload| then payload[..size] else payload
  }

  ghost predicate Enabled(s: State, a: Action)
    requires s.ring.mem.WellShaped()
  {
    var mem := s.ring.mem;
    match a
    case CallPush(t, value, tag) => s.PcOf(t) == Idle && |value| <= mem.slotBytes && tag in {0, XOR_OUT}
    case CallPop(t, size) => s.PcOf(t) == Idle && size <= mem.slotBytes
    case Advance(t, _) => s.PcOf(t) != Idle
    case Corrupt(p, payload, crc, at) =>
      && mem.head <= p < mem.tail && s.Committed(p) && s.ring.log[p].tag == 0 && p !in s.ring.tainted
      && Damages(mem.At(p), payload, crc, at)
  }

  /** The signed distance both calls branch on. */
  function Distance(found: Word, want: Word): int {
    Signed(found) - Signed(want)
  }

  function AdvancePush(s: State, t: nat, spurious: bool): State
    requires s.ring.mem.WellShaped()
  {
    var ring, mem := s.ring, s.ring.mem;
    match s.PcOf(t)
    case PushStart(v, tag) => s.Move(t, PushAt(v, tag, mem.tail))
    case PushAt(v, tag, pos) =>
      var diff := Distance(mem.At(pos).sequence, pos);
      if diff == 0 then s.Move(t, PushReady(v, tag, pos))
      else if diff < 0 then s.Move(t, Idle)
      else s.Move(t, PushStart(v, tag))
    case PushReady(v, tag, pos) =>
      if mem.tail == pos && !spurious then
        s.Move(t, PushClaimed(v, tag, pos))
         .(ring := ring.(mem := mem.(tail := Add(pos, 1)), log := ring.log + [Entry(t, v, tag)]))
      else s.Move(t, PushAt(v, tag, mem.tail))
    case PushClaimed(v, tag, pos) =>
      var c := mem.At(pos);
      s.Move(t, PushFilled(v, tag, pos))
       .(ring := ring.(mem := mem.Put(pos, c.(payload := Overlay(c.payload, v)))))
    case PushFilled(v, tag, pos) =>
      var c := mem.At(pos);
      XorBound32(Crc(c.payload), tag);
      s.Move(t, PushTagged(v, tag, pos))
       .(ring := ring.(mem := mem.Put(pos, c.(crc := Xor(Crc(c.payload), tag)))))
    case PushTagged(v, tag, pos) =>
      s.Move(t, Idle)
       .(ring := ring.(mem := mem.Put(pos, mem.At(pos).(sequence := Add(pos, 1)))),
         sent := s.sent[t := s.SentBy(t) + [v]])
    case _ => s
  }

  function AdvancePop(s: State, t: nat, spurious: bool): State
    requires s.ring.mem.WellShaped()
  {
    var ring, mem := s.ring, s.ring.mem;
    match s.PcOf(t)
    case PopStart(size) => s.Move(t, PopAt(size, mem.head))
    case PopAt(size, pos) =>
      var diff := Distance(mem.At(pos).sequence, Add(pos, 1));
      if diff == 0 then s.Move(t, PopReady(size, pos))
      else if diff < 0 then s.Move(t, Idle)
      else s.Move(t, PopStart(size))
    case PopReady(size, pos) =>
      if mem.head == pos && !spurious then
        s.Move(t, PopClaimed(size, pos))
         .(ring := ring.(mem := mem.(head := Add(pos, 1)), takers := ring.takers + [t]))
      else s.Move(t, PopAt(size, mem.head))
    case PopClaimed(size, pos) =>
      if mem.At(pos).crc != Crc(mem.At(pos).payload) then s.Move(t, PopBad(pos))
      else s.Move(t, PopGood(size, pos))
    case PopGood(size, pos) => s.Move(t, PopCopied(pos, Front(mem.At(pos).payload, size)))
    case PopCopied(pos, out) =>
      s.Move(t, Idle)
       .(ring := ring.(mem := mem.Put(pos, mem.At(pos).(sequence := Add(pos, |mem.cells|)))),
         got := s.got[t := s.GotBy(t) + [pos]],
         delivered := s.delivered[pos := out],
         sizes := s.sizes.(asked := s.sizes.asked[pos := s.WantOf(t)]))
    case PopBad(pos) =>
      s.Move(t, PopUncounted(pos))
       .(ring := ring.(mem := mem.Put(pos, mem.At(pos).(sequence := Add(pos, |mem.cells|)))))
    case PopUncounted(pos) =>
      s.Move(t, Idle)
       .(ring := ring.(mem := mem.(corruption := Add(mem.corruption, 1))),
         skipped := s.skipped + {pos})
    case _ => s
  }

  ghost function Apply(s: State, a: Action): State
    requires s.ring.mem.WellShaped() && Enabled(s, a)
  {
    var ring, mem := s.ring, s.ring.mem;
    match a
    case CallPush(t, value, tag) => s.Move(t, PushStart(value, tag))
    case CallPop(t, size) => s.Move(t, PopStart(size)).(sizes := s.sizes.(wants := s.sizes.wants[t := size]))
    case Advance(t, spurious) =>
      var pc := s.PcOf(t);
      if pc.PushStart? || pc.PushAt? || pc.PushReady? || pc.PushClaimed? || pc.PushFilled? || pc.PushTagged? then
        AdvancePush(s, t, spurious)
      else AdvancePop(s, t, spurious)
    case Corrupt(p, payload, crc, _) =>
      s.(ring := ring.(mem := mem.Put(p, mem.At(p).(payload := payload, crc := crc)), tainted := ring.tainted + {p}))
  }

  /** What initialize leaves: no claim, and every slot ready for the position equal to its index. */
  ghost predicate Initial(s: State) {
    && s.ring.mem.WellShaped()
    && s.ring.mem.tail == s.ring.mem.head == s.ring.mem.corruption == 0
    && (forall i | 0 <= i < |s.ring.mem.cells| :: s.ring.mem.cells[i].sequence == i)
    && s == State(Ring(s.ring.mem, [], [], {}), map[], map[], map[], map[], {}, Sizes(map[], map[]))
  }

  /** Positions stay below 2^63, the lifetime bound the protocol documents. */
  predicate Bounded(mem: Memory) {
    mem.tail + |mem.cells| <= TWO_TO_THE_63
  }

  // ----- the invariant -----

  ghost predicate Shape(r: Ring) {
    && r.mem.WellShaped()
    && |r.log| == r.mem.tail
    && |r.takers| == r.mem.head
    && r.mem.head <= r.mem.tail <= r.mem.head + |r.mem.cells|
    && Bounded(r.mem)
    && (forall p | 0 <= p < |r.log| :: r.log[p].tag in {0, XOR_OUT} && |r.log[p].value| <= r.mem.slotBytes)
    && (forall p | p in r.tainted :: p < |r.log|)
  }

  /** A claimed position's slot reads ready until it is committed, and committed from then on. */
  ghost predicate ClaimedSlots(s: State)
    requires s.ring.mem.WellShaped()
  {
    var mem := s.ring.mem;
    forall p: nat | mem.head <= p < mem.tail :: mem.At(p).sequence == if s.Producing(p) then p else p + 1
  }

  /** A slot awaiting position p reads commit(p - n) until p - n is released, and ready(p) from then on. */
  ghost predicate AwaitingSlots(s: State)
    requires s.ring.mem.WellShaped()
  {
    var mem, n := s.ring.mem, |s.ring.mem.cells|;
    forall p: nat | mem.tail <= p < mem.head + n ::
      mem.At(p).sequence == if p >= n && s.Consuming(p - n) then p - n + 1 else p
  }

  /** The sequence of every slot is the marker that its position's phase dictates. */
  ghost predicate Slots(s: State)
    requires s.ring.mem.WellShaped()
  {
    ClaimedSlots(s) && AwaitingSlots(s)
  }

  ghost predicate Windows(s: State) {
    var mem := s.ring.mem;
    && (forall p: nat | s.Producing(p) :: mem.head <= p)
    && (forall p: nat | s.Consuming(p) :: mem.tail <= p + |mem.cells|)
  }

  /** Clean positions are those that neither their producer nor the environment spoiled. */
  predicate Clean(r: Ring, p: nat)
    requires p < |r.log|
  {
    r.log[p].tag == 0 && p !in r.tainted
  }

  /** The slot of a committed position holds what was pushed there, and its tag tells whether it is clean. */
  predicate Stored(r: Ring, p: nat)
    requires r.mem.WellShaped() && p < |r.log|
  {
    var c, e := r.mem.At(p), r.log[p];
    && (Clean(r, p) <==> c.crc == Crc(c.payload))
    && (Clean(r, p) ==> e.value <= c.payload)
    && (p in r.tainted ==> e.tag == 0)
    && (p !in r.tainted ==> e.value <= c.payload && c.crc == Xor(Crc(c.payload), e.tag))
  }

  /** out is the pushed value as far as both reach. */
  predicate Agrees(value: seq<Byte>, out: seq<Byte>) {
    if |out| <= |value| then out <= value else value <= out
  }

  ghost predicate Contents(s: State)
    requires Shape(s.ring)
  {
    forall p: nat | s.ring.mem.head <= p < s.ring.mem.tail && s.Committed(p) :: Stored(s.ring, p)
  }

  /** What a thread's place in the code says about the ring. */
  ghost predicate ThreadOk(r: Ring, t: nat, pc: Pc)
    requires Shape(r)
  {
    var mem := r.mem;
    match pc
    case Idle => true
    case PushStart(v, tag) => |v| <= mem.slotBytes && tag in {0, XOR_OUT}
    case PushAt(v, tag, pos) => |v| <= mem.slotBytes && tag in {0, XOR_OUT} && pos <= mem.tail
    case PushReady(v, tag, pos) =>
      && |v| <= mem.slotBytes && tag in {0, XOR_OUT} && pos <= mem.tail
      && (pos == mem.tail ==> mem.At(pos).sequence == pos)
    case PushClaimed(v, tag, pos) => pos < |r.log| && r.log[pos] == Entry(t, v, tag) && pos !in r.tainted
    case PushFilled(v, tag, pos) =>
      && pos < |r.log| && r.log[pos] == Entry(t, v, tag) && pos !in r.tainted
      && v <= mem.At(pos).payload
    case PushTagged(v, tag, pos) =>
      && pos < |r.log| && r.log[pos] == Entry(t, v, tag) && pos !in r.tainted
      && v <= mem.At(pos).payload
      && mem.At(pos).crc == Xor(Crc(mem.At(pos).payload), tag)
    case PopStart(size) => size <= mem.slotBytes
    case PopAt(size, pos) => size <= mem.slotBytes && pos <= mem.head
    case PopReady(size, pos) =>
      && size <= mem.slotBytes && pos <= mem.head
      && (pos == mem.head ==> mem.At(pos).sequence == pos + 1)
    case PopClaimed(size, pos) =>
      size <= mem.slotBytes && pos < |r.takers| && r.takers[pos] == t && Stored(r, pos)
    case PopGood(size, pos) =>
      && size <= mem.slotBytes && pos < |r.takers| && r.takers[pos] == t && Stored(r, pos)
      && Clean(r, pos)
    case PopCopied(pos, out) =>
      pos < |r.takers| && r.takers[pos] == t && Clean(r, pos) && Agrees(r.log[pos].value, out)
    case PopBad(pos) => pos < |r.takers| && r.takers[pos] == t && !Clean(r, pos)
    case PopUncounted(pos) => pos < |r.takers| && r.takers[pos] == t && !Clean(r, pos)
  }

  ghost predicate Threads(s: State)
    requires Shape(s.ring)
  {
    forall t | t in s.threads :: ThreadOk(s.ring, t, s.threads[t])
  }

  /** Every taken position has exactly one outcome: delivered clean, counted corrupt, or still open. */
  ghost predicate Outcomes(s: State)
    requires Shape(s.ring)
  {
    && (forall p | p in s.delivered ::
          p < s.ring.mem.head && !s.Open(p) && Clean(s.ring, p) && Agrees(s.ring.log[p].value, s.delivered[p]))
    && (forall p | p in s.skipped :: p < s.ring.mem.head && !s.Open(p) && !Clean(s.ring, p))
    && (forall p: nat | p < s.ring.mem.head :: p in s.delivered || p in s.skipped || s.Open(p))
    && s.ring.mem.corruption == |s.skipped|
  }

  ghost predicate Inv(s: State) {
    Shape(s.ring) && Slots(s) && Windows(s) && Contents(s) && Threads(s) && Outcomes(s)
  }

  lemma InitialInv(s: State)
    requires Initial(s)
    ensures Inv(s)
  {
    var mem := s.ring.mem;
    forall p: nat | p < |mem.cells|
      ensures mem.At(p).sequence == p
    {
      IndexOfSmall(p, |mem.cells|);
    }
  }

  // ----- every step keeps the invariant -----

  // Steps that leave the ring and all ownership alone.

  ghost predicate SameOwners(s: State, s': State) {
    && (forall p: nat :: s'.Producing(p) == s.Producing(p))
    && (forall p: nat :: s'.Consuming(p) == s.Consuming(p))
    && (forall p: nat :: s'.Open(p) == s.Open(p))
  }

  predicate Outside(pc: Pc) {
    pc.Idle? || pc.PushStart? || pc.PushAt? || pc.PushReady? || pc.PopStart? || pc.PopAt? || pc.PopReady?
  }

  /** Both places own the same slot in the same role. */
  predicate SameRole(pc: Pc, pc': Pc) {
    || (Outside(pc) && Outside(pc'))
    || (pc.PopClaimed? && (pc'.PopGood? || pc'.PopBad?) && pc.pos == pc'.pos)
    || (pc.PopGood? && pc'.PopCopied? && pc.pos == pc'.pos)
    || (pc.PushClaimed? && pc'.PushFilled? && pc.pos == pc'.pos)
    || (pc.PushFilled? && pc'.PushTagged? && pc.pos == pc'.pos)
  }

  lemma SameRoleSameOwners(s: State, s': State, t: nat, pc: Pc)
    requires SameRole(s.PcOf(t), pc)
    requires s'.ring.log == s.ring.log && s'.ring.takers == s.ring.takers && s'.threads == s.threads[t := pc]
    ensures SameOwners(s, s')
  {
  }

  lemma SlotsFrame(s: State, s': State)
    requires s.ring.mem.WellShaped() && Slots(s) && SameOwners(s, s') && s'.ring == s.ring
    ensures Slots(s')
  {
  }

  lemma OutcomesFrame(s: State, s': State)
    requires Shape(s.ring) && Outcomes(s) && SameOwners(s, s') && s'.ring == s.ring
    requires s'.delivered == s.delivered && s'.skipped == s.skipped
    ensures Outcomes(s')
  {
  }

  lemma MoveKeeps(s: State, t: nat, pc: Pc)
    requires Inv(s) && SameRole(s.PcOf(t), pc) && ThreadOk(s.ring, t, pc)
    ensures Inv(s.Move(t, pc))
  {
    var s' := s.Move(t, pc);
    SameRoleSameOwners(s, s', t, pc);
    SlotsFrame(s, s');
    OutcomesFrame(s, s');
  }

  /** The invariant does not depend on what the calls asked for. */
  lemma NoteKeeps(s: State, s': State)
    requires Inv(s) && s' == s.(sizes := s'.sizes)
    ensures Inv(s')
  {
    assert SameOwners(s, s');
    SlotsFrame(s, s');
    OutcomesFrame(s, s');
  }

  // A producer claims position tail.

  /** While position tail's slot is ready, the ring is not full and position tail - n is released. */
  lemma ReadyMeansRoom(s: State, pos: nat)
    requires Shape(s.ring) && Slots(s) && pos == s.ring.mem.tail && s.ring.mem.At(pos).sequence == pos
    ensures pos < s.ring.mem.head + |s.ring.mem.cells|
    ensures pos >= |s.ring.mem.cells| ==> !s.Consuming(pos - |s.ring.mem.cells|)
  {
    var mem, n := s.ring.mem, |s.ring.mem.cells|;
    IndexNextLap(mem.head, n);
    assert mem.At(mem.head + n) == mem.At(mem.head);
  }

  ghost predicate PushClaim(s: State, s': State, e: Entry) {
    var pos := |s.ring.log|;
    && pos == s.ring.mem.tail && pos + 1 < TWO_TO_THE_64
    && s'.ring == s.ring.(mem := s.ring.mem.(tail := pos + 1), log := s.ring.log + [e])
    && (forall p: nat :: s'.Producing(p) == (s.Producing(p) || p == pos))
    && (forall p: nat :: s'.Consuming(p) == s.Consuming(p))
    && (forall p: nat :: s'.Open(p) == s.Open(p))
  }

  lemma PushClaimSlots(s: State, s': State, e: Entry)
    requires Shape(s.ring) && Shape(s'.ring) && Slots(s) && Windows(s) && PushClaim(s, s', e)
    requires s.ring.mem.At(s.ring.mem.tail).sequence == s.ring.mem.tail
    ensures Slots(s') && Windows(s')
  {
    var pos := s.ring.mem.tail;
    ReadyMeansRoom(s, pos);
    assert forall p: nat :: s'.ring.mem.At(p) == s.ring.mem.At(p);
  }

  lemma PushClaimContents(s: State, s': State, e: Entry)
    requires Shape(s.ring) && Shape(s'.ring) && Contents(s) && PushClaim(s, s', e)
    ensures Contents(s')
  {
    forall p: nat | s'.ring.mem.head <= p < s'.ring.mem.tail && s'.Committed(p)
      ensures Stored(s'.ring, p)
    {
      assert Stored(s.ring, p);
    }
  }

  lemma PushClaimThread(r: Ring, e: Entry, u: nat, pc: Pc)
    requires Shape(r) && ThreadOk(r, u, pc)
    requires Shape(r.(mem := r.mem.(tail := r.mem.tail + 1), log := r.log + [e]))
    ensures ThreadOk(r.(mem := r.mem.(tail := r.mem.tail + 1), log := r.log + [e]), u, pc)
  {
  }

  lemma PushClaimOutcomes(s: State, s': State, e: Entry)
    requires Shape(s.ring) && Shape(s'.ring) && Outcomes(s) && PushClaim(s, s', e)
    requires s'.delivered == s.delivered && s'.skipped == s.skipped
    ensures Outcomes(s')
  {
  }

  lemma PushClaimOwners(s: State, t: nat)
    requires Shape(s.ring) && Threads(s)
    requires s.PcOf(t).PushReady? && s.PcOf(t).pos == s.ring.mem.tail
    ensures PushClaim(s, AdvancePush(s, t, false), Entry(t, s.PcOf(t).value, s.PcOf(t).tag))
  {
  }

  lemma ClaimPushKeeps(s: State, t: nat)
    requires Inv(s) && s.PcOf(t).PushReady? && s.PcOf(t).pos == s.ring.mem.tail
    requires Bounded(AdvancePush(s, t, false).ring.mem)
    ensures Inv(AdvancePush(s, t, false))
  {
    var s', pos, e := AdvancePush(s, t, false), s.PcOf(t).pos, Entry(t, s.PcOf(t).value, s.PcOf(t).tag);
    assert ThreadOk(s.ring, t, s.threads[t]);
    ReadyMeansRoom(s, pos);
    PushClaimOwners(s, t);
    assert Shape(s'.ring);
    PushClaimSlots(s, s', e);
    PushClaimContents(s, s', e);
    PushClaimOutcomes(s, s', e);
    forall u | u in s'.threads
      ensures ThreadOk(s'.ring, u, s'.threads[u])
    {
      if u != t {
        PushClaimThread(s.ring, e, u, s.threads[u]);
      }
    }
  }

  /** Two positions within one lap of each other are served by different slots. */
  lemma Apart(n: nat, p: nat, q: nat)
    requires IsPowerOfTwo(n) && p != q && p < q + n && q < p + n
    ensures Index(p, n) != Index(q, n)
  {
    if p < q {
      IndexDistinct(p, q, n);
    } else {
      IndexDistinct(q, p, n);
    }
  }

  // A producer fills its slot, or the environment damages one: bytes change, sequences do not.

  /** Only the bytes of the slot serving pos differ. */
  ghost predicate Rewrites(r: Ring, r': Ring, pos: nat) {
    && r.mem.WellShaped() && r'.mem.WellShaped()
    && |r'.mem.cells| == |r.mem.cells| && r'.mem.slotBytes == r.mem.slotBytes
    && r'.mem.tail == r.mem.tail && r'.mem.head == r.mem.head && r'.mem.corruption == r.mem.corruption
    && r'.log == r.log && r'.takers == r.takers
    && (forall p: nat :: r'.mem.At(p).sequence == r.mem.At(p).sequence)
    && (forall p: nat | Index(p, |r.mem.cells|) != Index(pos, |r.mem.cells|) :: r'.mem.At(p) == r.mem.At(p))
    && (forall p: nat | p != pos :: p in r'.tainted <==> p in r.tainted)
  }

  lemma RewriteSlots(s: State, s': State, pos: nat)
    requires Shape(s.ring) && Slots(s) && Windows(s) && Rewrites(s.ring, s'.ring, pos) && SameOwners(s, s')
    ensures Slots(s') && Windows(s')
  {
  }

  lemma RewriteContents(s: State, s': State, pos: nat)
    requires Shape(s.ring) && Contents(s) && Rewrites(s.ring, s'.ring, pos) && SameOwners(s, s') && Shape(s'.ring)
    requires s.ring.mem.head <= pos < s.ring.mem.tail
    requires s.Committed(pos) ==> Stored(s'.ring, pos)
    ensures Contents(s')
  {
    forall p: nat | s.ring.mem.head <= p < s.ring.mem.tail && s'.Committed(p)
      ensures Stored(s'.ring, p)
    {
      if p != pos {
        Apart(|s.ring.mem.cells|, p, pos);
        StoredFrame(s.ring, s'.ring, p);
      }
    }
  }

  lemma StoredFrame(r: Ring, r': Ring, p: nat)
    requires r.mem.WellShaped() && r'.mem.WellShaped() && p < |r.log| && p < |r'.log|
    requires r'.mem.At(p).(sequence := 0) == r.mem.At(p).(sequence := 0)
    requires r'.log[p] == r.log[p] && (p in r'.tainted <==> p in r.tainted)
    requires Stored(r, p)
    ensures Stored(r', p)
  {
  }

  /** What a thread knows about a slot it owns survives writes to any other slot's bytes. */
  lemma RewriteThread(r: Ring, r': Ring, pos: nat, u: nat, pc: Pc)
    requires Shape(r) && Shape(r') && Rewrites(r, r', pos) && ThreadOk(r, u, pc)
    requires r.mem.head <= pos
    requires forall p: nat | pc.OwnsForPush(p) || pc.OwnsForPop(p) :: r'.mem.At(p) == r.mem.At(p) && p != pos
    ensures ThreadOk(r', u, pc)
  {
    if pc.PopClaimed? || pc.PopGood? {
      assert pc.OwnsForPop(pc.pos);
      StoredFrame(r, r', pc.pos);
    } else if pc.PushClaimed? || pc.PushFilled? || pc.PushTagged? {
      assert pc.OwnsForPush(pc.pos);
    }
  }

  lemma RewriteOutcomes(s: State, s': State, pos: nat)
    requires Shape(s.ring) && Shape(s'.ring) && Outcomes(s) && Rewrites(s.ring, s'.ring, pos) && SameOwners(s, s')
    requires s'.delivered == s.delivered && s'.skipped == s.skipped
    requires s.ring.mem.head <= pos
    ensures Outcomes(s')
  {
  }

  /** A position another thread owns is served by another slot. */
  lemma OwnedApart(s: State, pos: nat, u: nat, p: nat)
    requires Shape(s.ring) && Windows(s) && Threads(s)
    requires s.ring.mem.head <= pos < s.ring.mem.tail && (s.Producing(pos) ==> s.ring.log[pos].producer != u)
    requires s.PcOf(u).OwnsForPush(p) || s.PcOf(u).OwnsForPop(p)
    ensures p != pos && Index(p, |s.ring.mem.cells|) != Index(pos, |s.ring.mem.cells|)
  {
    assert ThreadOk(s.ring, u, s.threads[u]);
    if s.PcOf(u).OwnsForPush(p) {
      assert s.Producing(p);
    } else {
      assert s.Consuming(p);
    }
    Apart(|s.ring.mem.cells|, p, pos);
  }

  lemma RewriteThreads(s: State, s': State, pos: nat, t: nat)
    requires Shape(s.ring) && Shape(s'.ring) && Windows(s) && Threads(s) && Rewrites(s.ring, s'.ring, pos)
    requires s.ring.mem.head <= pos < s.ring.mem.tail && (s.Producing(pos) ==> s.ring.log[pos].producer == t)
    requires forall u | u in s'.threads && u != t :: u in s.threads && s'.threads[u] == s.threads[u]
    requires s.Producing(pos) && t in s'.threads ==> ThreadOk(s'.ring, t, s'.threads[t])
    requires !s.Producing(pos) ==> s'.threads == s.threads
    ensures Threads(s')
  {
    forall u | u in s'.threads && !(s.Producing(pos) && u == t)
      ensures ThreadOk(s'.ring, u, s'.threads[u])
    {
      var pc := s.threads[u];
      assert ThreadOk(s.ring, u, pc);
      forall p: nat | pc.OwnsForPush(p) || pc.OwnsForPop(p)
        ensures s'.ring.mem.At(p) == s.ring.mem.At(p) && p != pos
      {
        OwnedApart(s, pos, u, p);
      }
      RewriteThread(s.ring, s'.ring, pos, u, pc);
    }
  }

  lemma RewriteKeeps(s: State, s': State, pos: nat)
    requires Inv(s) && Shape(s'.ring) && Rewrites(s.ring, s'.ring, pos) && SameOwners(s, s')
    requires s.ring.mem.head <= pos < s.ring.mem.tail
    requires s.Committed(pos) ==> Stored(s'.ring, pos)
    requires s'.delivered == s.delivered && s'.skipped == s.skipped
    requires Threads(s')
    ensures Inv(s')
  {
    RewriteSlots(s, s', pos);
    RewriteContents(s, s', pos);
    RewriteOutcomes(s, s', pos);
  }

  lemma PutRewrites(r: Ring, pos: nat, c: Cell)
    requires Shape(r) && c.sequence == r.mem.At(pos).sequence && |c.payload| == r.mem.slotBytes
    ensures Rewrites(r, r.(mem := r.mem.Put(pos, c)), pos)
    ensures Shape(r.(mem := r.mem.Put(pos, c)))
    ensures r.mem.Put(pos, c).At(pos) == c
  {
  }

  /** A thread writing the bytes of the slot it claimed keeps the invariant. */
  lemma OwnerWriteKeeps(s: State, s': State, t: nat, pc: Pc, pos: nat)
    requires Inv(s) && SameRole(s.PcOf(t), pc) && s.PcOf(t).OwnsForPush(pos)
    requires s' == s.Move(t, pc).(ring := s'.ring)
    requires Shape(s'.ring) && Rewrites(s.ring, s'.ring, pos) && ThreadOk(s'.ring, t, pc)
    ensures Inv(s')
  {
    assert ThreadOk(s.ring, t, s.threads[t]);
    assert s.Producing(pos);
    SameRoleSameOwners(s, s', t, pc);
    RewriteThreads(s, s', pos, t);
    RewriteKeeps(s, s', pos);
  }

  lemma FillKeeps(s: State, t: nat)
    requires Inv(s) && (s.PcOf(t).PushClaimed? || s.PcOf(t).PushFilled?)
    ensures Inv(AdvancePush(s, t, false))
  {
    var s' := AdvancePush(s, t, false);
    assert ThreadOk(s.ring, t, s.threads[t]);
    var pc, c := s.threads[t], s.ring.mem.At(s.threads[t].pos);
    if pc.PushClaimed? {
      PutRewrites(s.ring, pc.pos, c.(payload := Overlay(c.payload, pc.value)));
    } else {
      XorBound32(Crc(c.payload), pc.tag);
      PutRewrites(s.ring, pc.pos, c.(crc := Xor(Crc(c.payload), pc.tag)));
    }
    OwnerWriteKeeps(s, s', t, s'.threads[t], pc.pos);
  }

  // The environment damages a committed slot.

  lemma DamageSpoils(r: Ring, p: nat, payload: seq<Byte>, crc: Word32, at: nat)
    requires Shape(r) && p < |r.log| && Stored(r, p) && r.log[p].tag == 0 && p !in r.tainted
    requires Damages(r.mem.At(p), payload, crc, at)
    ensures crc != Crc(payload)
  {
    var c := r.mem.At(p);
    assert c.crc == Crc(c.payload);
    if payload != c.payload {
      CrcDetectsBurst(c.payload, payload, at);
    }
  }

  lemma TaintRewrites(r: Ring, r': Ring, pos: nat, c: Cell)
    requires Shape(r) && pos < |r.log| && c.sequence == r.mem.At(pos).sequence && |c.payload| == r.mem.slotBytes
    requires r' == r.(mem := r.mem.Put(pos, c), tainted := r.tainted + {pos})
    ensures Rewrites(r, r', pos) && Shape(r') && r'.mem.At(pos) == c
  {
    PutRewrites(r, pos, c);
  }

  lemma CorruptKeeps(s: State, a: Action)
    requires Inv(s) && a.Corrupt? && Enabled(s, a)
    ensures Inv(Apply(s, a))
  {
    var s', c := Apply(s, a), s.ring.mem.At(a.p);
    assert Stored(s.ring, a.p);
    DamageSpoils(s.ring, a.p, a.payload, a.crc, a.at);
    TaintRewrites(s.ring, s'.ring, a.p, c.(payload := a.payload, crc := a.crc));
    RewriteThreads(s, s', a.p, 0);
    RewriteKeeps(s, s', a.p);
  }

  // A thread hands its slot over by storing the slot's sequence.

  ghost predicate Stores(r: Ring, r': Ring, pos: nat, x: Word)
    requires r.mem.WellShaped()
  {
    r' == r.(mem := r.mem.Put(pos, r.mem.At(pos).(sequence := x)))
  }

  /** While position head's slot reads commit(head), position head is committed. */
  lemma ReadyMeansItem(s: State)
    requires Shape(s.ring) && Slots(s) && s.ring.mem.At(s.ring.mem.head).sequence == s.ring.mem.head + 1
    ensures s.ring.mem.head < s.ring.mem.tail && s.Committed(s.ring.mem.head)
  {
  }

  lemma StoreShape(r: Ring, r': Ring, pos: nat, x: Word)
    requires Shape(r) && Stores(r, r', pos, x)
    ensures Shape(r') && r'.mem.At(pos) == r.mem.At(pos).(sequence := x)
    ensures forall p: nat | Index(p, |r.mem.cells|) != Index(pos, |r.mem.cells|) :: r'.mem.At(p) == r.mem.At(p)
    ensures forall p: nat :: r'.mem.At(p).(sequence := 0) == r.mem.At(p).(sequence := 0)
  {
  }

  lemma StoreThread(r: Ring, r': Ring, pos: nat, x: Word, u: nat, pc: Pc)
    requires Shape(r) && Shape(r') && Stores(r, r', pos, x) && ThreadOk(r, u, pc)
    requires pc.PushReady? && pc.pos == r.mem.tail ==> Index(r.mem.tail, |r.mem.cells|) != Index(pos, |r.mem.cells|)
    requires pc.PopReady? && pc.pos == r.mem.head ==> Index(r.mem.head, |r.mem.cells|) != Index(pos, |r.mem.cells|)
    ensures ThreadOk(r', u, pc)
  {
    StoreShape(r, r', pos, x);
    if pc.PopClaimed? || pc.PopGood? {
      StoredFrame(r, r', pc.pos);
    }
  }

  /** A thread that holds pos and a thread about to claim tail or head look at different slots. */
  lemma HeldNotReady(s: State, pos: nat)
    requires Shape(s.ring) && Slots(s) && Windows(s) && (s.Producing(pos) || s.Consuming(pos))
    ensures s.ring.mem.At(s.ring.mem.tail).sequence == s.ring.mem.tail ==>
              Index(s.ring.mem.tail, |s.ring.mem.cells|) != Index(pos, |s.ring.mem.cells|)
    ensures s.ring.mem.At(s.ring.mem.head).sequence == s.ring.mem.head + 1 ==>
              Index(s.ring.mem.head, |s.ring.mem.cells|) != Index(pos, |s.ring.mem.cells|)
  {
    var mem, n := s.ring.mem, |s.ring.mem.cells|;
    if mem.At(mem.tail).sequence == mem.tail {
      ReadyMeansRoom(s, mem.tail);
      Apart(n, mem.tail, pos);
    }
    if mem.At(mem.head).sequence == mem.head + 1 {
      ReadyMeansItem(s);
      Apart(n, mem.head, pos);
    }
  }

  lemma StoreThreads(s: State, s': State, pos: nat, x: Word, t: nat)
    requires Shape(s.ring) && Shape(s'.ring) && Threads(s) && Stores(s.ring, s'.ring, pos, x)
    requires Slots(s) && Windows(s) && (s.Producing(pos) || s.Consuming(pos))
    requires forall u | u in s'.threads && u != t :: u in s.threads && s'.threads[u] == s.threads[u]
    requires t in s'.threads ==> ThreadOk(s'.ring, t, s'.threads[t])
    ensures Threads(s')
  {
    HeldNotReady(s, pos);
    forall u | u in s'.threads && u != t
      ensures ThreadOk(s'.ring, u, s'.threads[u])
    {
      assert ThreadOk(s.ring, u, s.threads[u]);
      StoreThread(s.ring, s'.ring, pos, x, u, s.threads[u]);
    }
  }

  lemma StoreContents(s: State, s': State, pos: nat, x: Word)
    requires Shape(s.ring) && Shape(s'.ring) && Contents(s) && Stores(s.ring, s'.ring, pos, x)
    requires forall p: nat | s'.Committed(p) && p != pos :: s.Committed(p)
    requires s.ring.mem.head <= pos ==> pos < |s.ring.log| && Stored(s.ring, pos)
    ensures Contents(s')
  {
    StoreShape(s.ring, s'.ring, pos, x);
    forall p: nat | s'.ring.mem.head <= p < s'.ring.mem.tail && s'.Committed(p)
      ensures Stored(s'.ring, p)
    {
      StoredFrame(s.ring, s'.ring, p);
    }
  }

  // A producer commits.

  lemma TagSpoils(x: nat)
    ensures Xor(x, XOR_OUT) != x && Xor(x, 0) == x
  {
    XorZero(x);
    if Xor(x, XOR_OUT) == x {
      XorComm(x, XOR_OUT);
      XorInjective(XOR_OUT, 0, x);
    }
  }

  ghost predicate Commits(s: State, s': State, pos: nat)
    requires s.ring.mem.WellShaped()
  {
    && pos + 1 < TWO_TO_THE_64 && Stores(s.ring, s'.ring, pos, pos + 1)
    && s.Producing(pos)
    && (forall p: nat :: s'.Producing(p) == (s.Producing(p) && p != pos))
    && (forall p: nat :: s'.Consuming(p) == s.Consuming(p))
    && (forall p: nat :: s'.Open(p) == s.Open(p))
  }

  lemma CommitSlots(s: State, s': State, pos: nat)
    requires Shape(s.ring) && Slots(s) && Windows(s) && Commits(s, s', pos)
    ensures Slots(s') && Windows(s')
  {
    var mem, n := s.ring.mem, |s.ring.mem.cells|;
    StoreShape(s.ring, s'.ring, pos, pos + 1);
    forall p: nat | mem.head <= p < mem.head + n && p != pos
      ensures s'.ring.mem.At(p) == mem.At(p)
    {
      Apart(n, p, pos);
    }
  }

  lemma CommitOwners(s: State, s': State, t: nat, pos: nat)
    requires Shape(s.ring) && Threads(s) && s.PcOf(t).OwnsForPush(pos) && pos + 1 < TWO_TO_THE_64
    requires Stores(s.ring, s'.ring, pos, pos + 1) && s'.threads == s.threads[t := Idle]
    ensures Commits(s, s', pos)
  {
    assert ThreadOk(s.ring, t, s.threads[t]);
  }

  lemma CommitStores(s: State, s': State, t: nat, pos: nat)
    requires Inv(s) && s.PcOf(t).PushTagged? && pos == s.PcOf(t).pos && pos + 1 < TWO_TO_THE_64
    requires Stores(s.ring, s'.ring, pos, pos + 1) && s'.threads == s.threads[t := Idle]
    requires s'.delivered == s.delivered && s'.skipped == s.skipped
    ensures Inv(s')
  {
    assert ThreadOk(s.ring, t, s.threads[t]);
    CommitOwners(s, s', t, pos);
    CommitSlots(s, s', pos);
    StoreShape(s.ring, s'.ring, pos, pos + 1);
    StoreThreads(s, s', pos, pos + 1, t);
    TaggedStores(s, t, pos);
    StoreContents(s, s', pos, pos + 1);
    CommitOutcomes(s, s', pos);
  }

  /** A tagged slot holds what its entry says. */
  lemma TaggedStores(s: State, t: nat, pos: nat)
    requires Shape(s.ring) && t in s.threads && ThreadOk(s.ring, t, s.threads[t])
    requires s.threads[t].PushTagged? && pos == s.threads[t].pos
    ensures pos < |s.ring.log| && Stored(s.ring, pos)
  {
    TagSpoils(Crc(s.ring.mem.At(pos).payload));
  }

  lemma CommitOutcomes(s: State, s': State, pos: nat)
    requires Shape(s.ring) && Shape(s'.ring) && Outcomes(s) && Commits(s, s', pos)
    requires s'.delivered == s.delivered && s'.skipped == s.skipped
    ensures Outcomes(s')
  {
    assert forall p: nat | p < |s.ring.log| :: Clean(s'.ring, p) == Clean(s.ring, p);
  }

  lemma CommitStep(s: State, t: nat, pos: nat)
    requires s.ring.mem.WellShaped() && s.PcOf(t).PushTagged? && s.PcOf(t).pos == pos && pos + 1 < TWO_TO_THE_64
    ensures Stores(s.ring, AdvancePush(s, t, false).ring, pos, pos + 1)
    ensures AdvancePush(s, t, false).threads == s.threads[t := Idle]
    ensures AdvancePush(s, t, false).delivered == s.delivered && AdvancePush(s, t, false).skipped == s.skipped
  {
    assert Add(pos, 1) == pos + 1;
  }

  lemma CommitKeeps(s: State, t: nat)
    requires Inv(s) && s.PcOf(t).PushTagged?
    ensures Inv(AdvancePush(s, t, false))
  {
    assert ThreadOk(s.ring, t, s.threads[t]);
    var pos := s.threads[t].pos;
    CommitStep(s, t, pos);
    CommitStores(s, AdvancePush(s, t, false), t, pos);
  }

  // A consumer claims position head.

  ghost predicate PopClaim(s: State, s': State, t: nat) {
    var pos := |s.ring.takers|;
    && pos == s.ring.mem.head && pos + 1 < TWO_TO_THE_64
    && s'.ring == s.ring.(mem := s.ring.mem.(head := pos + 1), takers := s.ring.takers + [t])
    && (forall p: nat :: s'.Producing(p) == s.Producing(p))
    && (forall p: nat :: s'.Consuming(p) == (s.Consuming(p) || p == pos))
    && (forall p: nat :: s'.Open(p) == (s.Open(p) || p == pos))
  }

  lemma PopClaimAwaiting(s: State, s': State, t: nat)
    requires Shape(s.ring) && AwaitingSlots(s) && PopClaim(s, s', t)
    requires s.ring.mem.At(s.ring.mem.head).sequence == s.ring.mem.head + 1
    ensures AwaitingSlots(s')
  {
    var mem, n := s.ring.mem, |s.ring.mem.cells|;
    forall p: nat | mem.tail <= p < mem.head + 1 + n
      ensures s'.ring.mem.At(p).sequence == if p >= n && s'.Consuming(p - n) then p - n + 1 else p
    {
      PopClaimAwaitingAt(s, s', t, p);
    }
  }

  lemma PopClaimAwaitingAt(s: State, s': State, t: nat, p: nat)
    requires Shape(s.ring) && AwaitingSlots(s) && PopClaim(s, s', t)
    requires s.ring.mem.At(s.ring.mem.head).sequence == s.ring.mem.head + 1
    requires s.ring.mem.tail <= p < s.ring.mem.head + 1 + |s.ring.mem.cells|
    ensures s'.ring.mem.At(p).sequence
            == if p >= |s.ring.mem.cells| && s'.Consuming(p - |s.ring.mem.cells|) then p - |s.ring.mem.cells| + 1 else p
  {
    var mem, n := s.ring.mem, |s.ring.mem.cells|;
    assert s'.ring.mem.At(p) == mem.At(p);
    if p == mem.head + n {
      IndexNextLap(mem.head, n);
      assert mem.At(p) == mem.At(mem.head) && s'.Consuming(mem.head);
    } else if p >= n {
      assert s'.Consuming(p - n) == s.Consuming(p - n);
    }
  }

  lemma PopClaimSlots(s: State, s': State, t: nat)
    requires Shape(s.ring) && Shape(s'.ring) && Slots(s) && Windows(s) && PopClaim(s, s', t)
    requires s.ring.mem.At(s.ring.mem.head).sequence == s.ring.mem.head + 1
    ensures Slots(s') && Windows(s')
  {
    ReadyMeansItem(s);
    PopClaimAwaiting(s, s', t);
    assert forall p: nat :: s'.ring.mem.At(p) == s.ring.mem.At(p);
  }

  lemma PopClaimContents(s: State, s': State, t: nat)
    requires Shape(s.ring) && Shape(s'.ring) && Contents(s) && PopClaim(s, s', t)
    ensures Contents(s')
  {
    forall p: nat | s'.ring.mem.head <= p < s'.ring.mem.tail && s'.Committed(p)
      ensures Stored(s'.ring, p)
    {
      assert Stored(s.ring, p);
    }
  }

  lemma PopClaimThread(r: Ring, t: nat, u: nat, pc: Pc)
    requires Shape(r) && ThreadOk(r, u, pc)
    requires Shape(r.(mem := r.mem.(head := r.mem.head + 1), takers := r.takers + [t]))
    ensures ThreadOk(r.(mem := r.mem.(head := r.mem.head + 1), takers := r.takers + [t]), u, pc)
  {
  }

  lemma PopClaimOutcomes(s: State, s': State, t: nat)
    requires Shape(s.ring) && Shape(s'.ring) && Outcomes(s) && PopClaim(s, s', t)
    requires s'.delivered == s.delivered && s'.skipped == s.skipped
    ensures Outcomes(s')
  {
  }

  lemma PopClaimOwners(s: State, s': State, t: nat, size: nat, pos: nat)
    requires Shape(s.ring) && Threads(s) && pos == s.ring.mem.head && pos + 1 < TWO_TO_THE_64
    requires s.PcOf(t).PopReady? && s'.threads == s.threads[t := PopClaimed(size, pos)]
    requires s'.ring == s.ring.(mem := s.ring.mem.(head := pos + 1), takers := s.ring.takers + [t])
    ensures PopClaim(s, s', t)
  {
  }

  lemma ClaimPopStores(s: State, s': State, t: nat, size: nat, pos: nat)
    requires Inv(s) && pos == s.ring.mem.head && pos + 1 < TWO_TO_THE_64
    requires s.PcOf(t) == PopReady(size, pos) && s'.threads == s.threads[t := PopClaimed(size, pos)]
    requires s'.ring == s.ring.(mem := s.ring.mem.(head := pos + 1), takers := s.ring.takers + [t])
    requires s'.delivered == s.delivered && s'.skipped == s.skipped
    ensures Inv(s')
  {
    assert ThreadOk(s.ring, t, s.threads[t]);
    ReadyMeansItem(s);
    assert Stored(s.ring, pos);
    assert Shape(s'.ring);
    PopClaimOwners(s, s', t, size, pos);
    PopClaimSlots(s, s', t);
    PopClaimContents(s, s', t);
    PopClaimOutcomes(s, s', t);
    forall u | u in s'.threads
      ensures ThreadOk(s'.ring, u, s'.threads[u])
    {
      if u != t {
        PopClaimThread(s.ring, t, u, s.threads[u]);
      }
    }
  }

  lemma ClaimPopKeeps(s: State, t: nat)
    requires Inv(s) && s.PcOf(t).PopReady? && s.PcOf(t).pos == s.ring.mem.head
    ensures Inv(AdvancePop(s, t, false))
  {
    var size, pos := s.PcOf(t).size, s.PcOf(t).pos;
    assert Add(pos, 1) == pos + 1;
    ClaimPopStores(s, AdvancePop(s, t, false), t, size, pos);
  }

  // A consumer releases its slot.

  ghost predicate Releases(s: State, s': State, pos: nat)
    requires s.ring.mem.WellShaped()
  {
    && pos + |s.ring.mem.cells| < TWO_TO_THE_64 && Stores(s.ring, s'.ring, pos, pos + |s.ring.mem.cells|)
    && s.Consuming(pos)
    && (forall p: nat :: s'.Producing(p) == s.Producing(p))
    && (forall p: nat :: s'.Consuming(p) == (s.Consuming(p) && p != pos))
  }

  lemma AwaitingAt(s: State, s': State, pos: nat, p: nat)
    requires s.ring.mem.WellShaped() && AwaitingSlots(s) && s.ring.mem.tail <= p < s.ring.mem.head + |s.ring.mem.cells|
    requires s'.ring.mem.WellShaped() && |s'.ring.mem.cells| == |s.ring.mem.cells|
    requires s.Consuming(pos)
    requires forall q: nat :: s'.Consuming(q) == (s.Consuming(q) && q != pos)
    requires s'.ring.mem.At(p).sequence == if p == pos + |s.ring.mem.cells| then p else s.ring.mem.At(p).sequence
    ensures s'.ring.mem.At(p).sequence ==
              if p >= |s.ring.mem.cells| && s'.Consuming(p - |s.ring.mem.cells|) then p - |s.ring.mem.cells| + 1 else p
  {
    var n := |s.ring.mem.cells|;
    if p >= n {
      assert s'.Consuming(p - n) == (s.Consuming(p - n) && p - n != pos);
    }
  }

  lemma ReleaseAwaitingAt(s: State, s': State, pos: nat, p: nat)
    requires Shape(s.ring) && AwaitingSlots(s) && Windows(s) && Releases(s, s', pos)
    requires s.ring.mem.tail <= p < s.ring.mem.head + |s.ring.mem.cells|
    ensures s'.ring.mem.At(p).sequence ==
              if p >= |s.ring.mem.cells| && s'.Consuming(p - |s.ring.mem.cells|) then p - |s.ring.mem.cells| + 1 else p
  {
    ReleaseCells(s, s', pos);
    AwaitingAt(s, s', pos, p);
  }

  lemma ReleaseAwaiting(s: State, s': State, pos: nat)
    requires Shape(s.ring) && AwaitingSlots(s) && Windows(s) && Releases(s, s', pos)
    ensures AwaitingSlots(s')
  {
    forall p: nat | s.ring.mem.tail <= p < s.ring.mem.head + |s.ring.mem.cells|
      ensures s'.ring.mem.At(p).sequence ==
              if p >= |s.ring.mem.cells| && s'.Consuming(p - |s.ring.mem.cells|) then p - |s.ring.mem.cells| + 1 else p
    {
      ReleaseAwaitingAt(s, s', pos, p);
    }
  }

  lemma ReleaseClaimed(s: State, s': State, pos: nat)
    requires Shape(s.ring) && ClaimedSlots(s) && Windows(s) && Releases(s, s', pos)
    ensures ClaimedSlots(s') && Windows(s')
  {
    ReleaseCells(s, s', pos);
  }

  lemma ReleaseSlots(s: State, s': State, pos: nat)
    requires Shape(s.ring) && Slots(s) && Windows(s) && Releases(s, s', pos)
    ensures Slots(s') && Windows(s')
  {
    ReleaseAwaiting(s, s', pos);
    ReleaseClaimed(s, s', pos);
  }

  lemma ReleaseCells(s: State, s': State, pos: nat)
    requires Shape(s.ring) && Windows(s) && Releases(s, s', pos)
    ensures s'.ring.mem.At(pos + |s.ring.mem.cells|).sequence == pos + |s.ring.mem.cells|
    ensures forall p: nat | s.ring.mem.head <= p < s.ring.mem.head + |s.ring.mem.cells|
                            && p != pos + |s.ring.mem.cells| ::
              s'.ring.mem.At(p) == s.ring.mem.At(p)
  {
    var mem, n := s.ring.mem, |s.ring.mem.cells|;
    StoreShape(s.ring, s'.ring, pos, pos + n);
    IndexNextLap(pos, n);
    forall p: nat | mem.head <= p < mem.head + n && p != pos + n
      ensures s'.ring.mem.At(p) == mem.At(p)
    {
      Apart(n, p, pos + n);
    }
  }

  lemma ReleaseOwners(s: State, s': State, t: nat, pos: nat, pc: Pc)
    requires Shape(s.ring) && Threads(s) && s.PcOf(t).OwnsForPop(pos) && pos + |s.ring.mem.cells| < TWO_TO_THE_64
    requires Stores(s.ring, s'.ring, pos, pos + |s.ring.mem.cells|) && s'.threads == s.threads[t := pc]
    requires pc == Idle || pc == PopUncounted(pos)
    ensures Releases(s, s', pos)
    ensures forall p: nat :: s'.Open(p) == (s.Open(p) && (p == pos ==> pc != Idle))
  {
    assert ThreadOk(s.ring, t, s.threads[t]);
  }

  lemma ReleaseStores(s: State, s': State, t: nat, pos: nat, pc: Pc)
    requires Inv(s) && s.PcOf(t).OwnsForPop(pos) && pos + |s.ring.mem.cells| < TWO_TO_THE_64
    requires Stores(s.ring, s'.ring, pos, pos + |s.ring.mem.cells|) && s'.threads == s.threads[t := pc]
    requires pc == Idle || (pc == PopUncounted(pos) && s.PcOf(t).PopBad?)
    ensures Shape(s'.ring) && Slots(s') && Windows(s') && Contents(s') && Threads(s')
    ensures forall p: nat :: s'.Open(p) == (s.Open(p) && (p == pos ==> pc != Idle))
    ensures forall p: nat | p < |s.ring.log| :: Clean(s'.ring, p) == Clean(s.ring, p)
  {
    var x := pos + |s.ring.mem.cells|;
    assert ThreadOk(s.ring, t, s.threads[t]);
    ReleaseOwners(s, s', t, pos, pc);
    StoreShape(s.ring, s'.ring, pos, x);
    ReleaseSlots(s, s', pos);
    StoreContents(s, s', pos, x);
    ReleaseThreads(s, s', t, pos, pc, x);
  }

  lemma ReleaseThreads(s: State, s': State, t: nat, pos: nat, pc: Pc, x: Word)
    requires Inv(s) && s.PcOf(t).OwnsForPop(pos) && Shape(s'.ring)
    requires Stores(s.ring, s'.ring, pos, x) && s'.threads == s.threads[t := pc]
    requires pc == Idle || (pc == PopUncounted(pos) && s.PcOf(t).PopBad?)
    ensures Threads(s')
  {
    assert ThreadOk(s.ring, t, s.threads[t]);
    assert s.Consuming(pos);
    StoreThreads(s, s', pos, x, t);
  }

  lemma DeliverOutcomes(s: State, s': State, pos: nat, out: seq<Byte>)
    requires Shape(s.ring) && Shape(s'.ring) && Outcomes(s) && s.Open(pos)
    requires Stores(s.ring, s'.ring, pos, pos + |s.ring.mem.cells|)
    requires forall p: nat :: s'.Open(p) == (s.Open(p) && p != pos)
    requires s'.delivered == s.delivered[pos := out] && s'.skipped == s.skipped
    requires Clean(s.ring, pos) && Agrees(s.ring.log[pos].value, out)
    ensures Outcomes(s')
  {
  }

  lemma DeliverStep(s: State, t: nat, pos: Word, out: seq<Byte>)
    requires s.ring.mem.WellShaped() && s.PcOf(t) == PopCopied(pos, out)
    requires pos + |s.ring.mem.cells| < TWO_TO_THE_64
    ensures var s' := AdvancePop(s, t, false);
      && Stores(s.ring, s'.ring, pos, pos + |s.ring.mem.cells|)
      && s'.threads == s.threads[t := Idle]
      && s'.delivered == s.delivered[pos := out] && s'.skipped == s.skipped
  {
    assert Add(pos, |s.ring.mem.cells|) == pos + |s.ring.mem.cells|;
  }

  lemma DeliverKeeps(s: State, t: nat)
    requires Inv(s) && s.PcOf(t).PopCopied?
    ensures Inv(AdvancePop(s, t, false))
  {
    var s', pos, out := AdvancePop(s, t, false), s.PcOf(t).pos, s.PcOf(t).out;
    assert ThreadOk(s.ring, t, s.threads[t]);
    DeliverStep(s, t, pos, out);
    ReleaseStores(s, s', t, pos, Idle);
    assert s.Open(pos);
    DeliverOutcomes(s, s', pos, out);
  }

  lemma DiscardStep(s: State, t: nat, pos: Word)
    requires s.ring.mem.WellShaped() && s.PcOf(t) == PopBad(pos)
    requires pos + |s.ring.mem.cells| < TWO_TO_THE_64
    ensures var s' := AdvancePop(s, t, false);
      && Stores(s.ring, s'.ring, pos, pos + |s.ring.mem.cells|)
      && s'.threads == s.threads[t := PopUncounted(pos)]
      && s'.delivered == s.delivered && s'.skipped == s.skipped
  {
    assert Add(pos, |s.ring.mem.cells|) == pos + |s.ring.mem.cells|;
  }

  lemma DiscardKeeps(s: State, t: nat)
    requires Inv(s) && s.PcOf(t).PopBad?
    ensures Inv(AdvancePop(s, t, false))
  {
    var s', pos := AdvancePop(s, t, false), s.PcOf(t).pos;
    assert ThreadOk(s.ring, t, s.threads[t]);
    DiscardStep(s, t, pos);
    ReleaseStores(s, s', t, pos, PopUncounted(pos));
  }

  // A consumer counts a corrupted position.

  lemma {:induction false} BoundedSet(a: set<nat>, k: nat)
    requires forall p | p in a :: p < k
    ensures |a| <= k
    decreases k
  {
    if k == 0 {
      assert a == {};
    } else {
      BoundedSet(a - {k - 1}, k - 1);
    }
  }

  /** Only the corruption counter differs. */
  ghost predicate Recounts(r: Ring, r': Ring) {
    r' == r.(mem := r.mem.(corruption := r'.mem.corruption))
  }

  lemma RecountThread(r: Ring, r': Ring, u: nat, pc: Pc)
    requires Shape(r) && Shape(r') && Recounts(r, r') && ThreadOk(r, u, pc)
    ensures ThreadOk(r', u, pc)
  {
    assert forall p: nat :: r'.mem.At(p) == r.mem.At(p);
    if pc.PopClaimed? || pc.PopGood? {
      StoredFrame(r, r', pc.pos);
    }
  }

  lemma RecountSlots(s: State, s': State)
    requires Shape(s.ring) && Slots(s) && Windows(s) && Recounts(s.ring, s'.ring)
    requires forall p: nat :: s'.Producing(p) == s.Producing(p)
    requires forall p: nat :: s'.Consuming(p) == s.Consuming(p)
    ensures Slots(s') && Windows(s')
  {
    assert forall p: nat :: s'.ring.mem.At(p) == s.ring.mem.At(p);
  }

  lemma RecountContents(s: State, s': State)
    requires Shape(s.ring) && Shape(s'.ring) && Contents(s) && Recounts(s.ring, s'.ring)
    requires forall p: nat :: s'.Producing(p) == s.Producing(p)
    ensures Contents(s')
  {
    forall p: nat | s'.ring.mem.head <= p < s'.ring.mem.tail && s'.Committed(p)
      ensures Stored(s'.ring, p)
    {
      assert Stored(s.ring, p);
      assert s'.ring.mem.At(p) == s.ring.mem.At(p);
      StoredFrame(s.ring, s'.ring, p);
    }
  }

  lemma CountOwners(s: State, s': State, t: nat, pos: Word)
    requires s.PcOf(t) == PopUncounted(pos) && pos < |s.ring.takers| && s.ring.takers[pos] == t
    requires s'.ring.log == s.ring.log && s'.ring.takers == s.ring.takers && s'.threads == s.threads[t := Idle]
    ensures s.Open(pos)
    ensures forall p: nat :: s'.Producing(p) == s.Producing(p)
    ensures forall p: nat :: s'.Consuming(p) == s.Consuming(p)
    ensures forall p: nat :: s'.Open(p) == (s.Open(p) && p != pos)
  {
  }

  lemma CountOutcomes(s: State, s': State, pos: Word)
    requires Shape(s.ring) && Outcomes(s) && s.Open(pos) && !Clean(s.ring, pos)
    requires s'.ring == s.ring.(mem := s.ring.mem.(corruption := s'.ring.mem.corruption))
    requires s'.ring.mem.corruption == |s.skipped| + 1 && Shape(s'.ring)
    requires forall p: nat :: s'.Open(p) == (s.Open(p) && p != pos)
    requires s'.delivered == s.delivered && s'.skipped == s.skipped + {pos}
    ensures Outcomes(s')
  {
  }

  lemma CountKeeps(s: State, t: nat)
    requires Inv(s) && s.PcOf(t).PopUncounted?
    ensures Inv(AdvancePop(s, t, false))
  {
    var s', pos := AdvancePop(s, t, false), s.PcOf(t).pos;
    assert ThreadOk(s.ring, t, s.threads[t]);
    BoundedSet(s.skipped, s.ring.mem.head);
    assert Add(s.ring.mem.corruption, 1) == |s.skipped| + 1;
    CountOwners(s, s', t, pos);
    assert Shape(s'.ring);
    RecountSlots(s, s');
    RecountContents(s, s');
    CountOutcomes(s, s', pos);
    forall u | u in s'.threads
      ensures ThreadOk(s'.ring, u, s'.threads[u])
    {
      if u != t {
        RecountThread(s.ring, s'.ring, u, s.threads[u]);
      }
    }
  }

  // ----- every step of every thread -----

  /** Where a producer's load and decision lead. */
  function LookPush(mem: Memory, pc: Pc): Pc
    requires mem.WellShaped() && (pc.PushStart? || pc.PushAt? || pc.PushReady?)
  {
    if !pc.PushAt? then PushAt(pc.value, pc.tag, mem.tail)
    else
      var diff := Distance(mem.At(pc.pos).sequence, pc.pos);
      if diff == 0 then PushReady(pc.value, pc.tag, pc.pos)
      else if diff < 0 then Idle
      else PushStart(pc.value, pc.tag)
  }

  lemma LookPushSteps(s: State, t: nat, spurious: bool)
    requires s.ring.mem.WellShaped()
    requires s.PcOf(t).PushStart? || s.PcOf(t).PushAt?
             || (s.PcOf(t).PushReady? && (spurious || s.PcOf(t).pos != s.ring.mem.tail))
    ensures AdvancePush(s, t, spurious) == s.Move(t, LookPush(s.ring.mem, s.PcOf(t)))
  {
  }

  /** The producer's steps that only load and decide. */
  lemma LookPushKeeps(s: State, t: nat, spurious: bool)
    requires Inv(s)
    requires s.PcOf(t).PushStart? || s.PcOf(t).PushAt?
             || (s.PcOf(t).PushReady? && (spurious || s.PcOf(t).pos != s.ring.mem.tail))
    ensures Inv(AdvancePush(s, t, spurious))
  {
    var pc := s.threads[t];
    assert ThreadOk(s.ring, t, pc);
    LookPushSteps(s, t, spurious);
    LookPushOk(s.ring, t, pc);
    MoveKeeps(s, t, LookPush(s.ring.mem, pc));
  }

  lemma LookPushOk(r: Ring, t: nat, pc: Pc)
    requires Shape(r) && (pc.PushStart? || pc.PushAt? || pc.PushReady?) && ThreadOk(r, t, pc)
    ensures ThreadOk(r, t, LookPush(r.mem, pc)) && Outside(LookPush(r.mem, pc))
  {
  }

  /** Where a consumer's load and decision lead. */
  function LookPop(mem: Memory, pc: Pc): Pc
    requires mem.WellShaped() && (pc.PopStart? || pc.PopAt? || pc.PopReady?)
  {
    if !pc.PopAt? then PopAt(pc.size, mem.head)
    else
      var diff := Distance(mem.At(pc.pos).sequence, Add(pc.pos, 1));
      if diff == 0 then PopReady(pc.size, pc.pos)
      else if diff < 0 then Idle
      else PopStart(pc.size)
  }

  lemma LookPopSteps(s: State, t: nat, spurious: bool)
    requires s.ring.mem.WellShaped()
    requires s.PcOf(t).PopStart? || s.PcOf(t).PopAt?
             || (s.PcOf(t).PopReady? && (spurious || s.PcOf(t).pos != s.ring.mem.head))
    ensures AdvancePop(s, t, spurious) == s.Move(t, LookPop(s.ring.mem, s.PcOf(t)))
  {
  }

  /** The consumer's steps that only load and decide. */
  lemma LookPopKeeps(s: State, t: nat, spurious: bool)
    requires Inv(s)
    requires s.PcOf(t).PopStart? || s.PcOf(t).PopAt?
             || (s.PcOf(t).PopReady? && (spurious || s.PcOf(t).pos != s.ring.mem.head))
    ensures Inv(AdvancePop(s, t, spurious))
  {
    var pc := s.threads[t];
    assert ThreadOk(s.ring, t, pc);
    LookPopSteps(s, t, spurious);
    LookPopOk(s.ring, t, pc);
    MoveKeeps(s, t, LookPop(s.ring.mem, pc));
  }

  lemma LookPopOk(r: Ring, t: nat, pc: Pc)
    requires Shape(r) && (pc.PopStart? || pc.PopAt? || pc.PopReady?) && ThreadOk(r, t, pc)
    ensures ThreadOk(r, t, LookPop(r.mem, pc)) && Outside(LookPop(r.mem, pc))
  {
    if pc.PopAt? {
      assert Add(pc.pos, 1) == pc.pos + 1;
    }
  }

  /** The consumer's steps that check and copy the payload it owns. */
  lemma ReadPopKeeps(s: State, t: nat, spurious: bool)
    requires Inv(s) && (s.PcOf(t).PopClaimed? || s.PcOf(t).PopGood?)
    ensures Inv(AdvancePop(s, t, spurious))
  {
    var pc := s.threads[t];
    assert ThreadOk(s.ring, t, pc);
    MoveKeeps(s, t, AdvancePop(s, t, spurious).threads[t]);
  }

  lemma AdvancePushKeeps(s: State, t: nat, spurious: bool)
    requires Inv(s) && Bounded(AdvancePush(s, t, spurious).ring.mem)
    ensures Inv(AdvancePush(s, t, spurious))
  {
    match s.PcOf(t)
    case PushReady(_, _, pos) =>
      if !spurious && pos == s.ring.mem.tail {
        ClaimPushKeeps(s, t);
      } else {
        LookPushKeeps(s, t, spurious);
      }
    case PushStart(_, _) => LookPushKeeps(s, t, spurious);
    case PushAt(_, _, _) => LookPushKeeps(s, t, spurious);
    case PushClaimed(_, _, _) => FillKeeps(s, t);
    case PushFilled(_, _, _) => FillKeeps(s, t);
    case PushTagged(_, _, _) => CommitKeeps(s, t);
    case _ =>
  }

  lemma AdvancePopKeeps(s: State, t: nat, spurious: bool)
    requires Inv(s)
    ensures Inv(AdvancePop(s, t, spurious))
  {
    match s.PcOf(t)
    case PopReady(_, pos) =>
      if !spurious && pos == s.ring.mem.head {
        ClaimPopKeeps(s, t);
      } else {
        LookPopKeeps(s, t, spurious);
      }
    case PopStart(_) => LookPopKeeps(s, t, spurious);
    case PopAt(_, _) => LookPopKeeps(s, t, spurious);
    case PopClaimed(_, _) => ReadPopKeeps(s, t, spurious);
    case PopGood(_, _) => ReadPopKeeps(s, t, spurious);
    case PopCopied(_, _) => DeliverKeeps(s, t);
    case PopBad(_) => DiscardKeeps(s, t);
    case PopUncounted(_) => CountKeeps(s, t);
    case _ =>
  }

  lemma StepKeeps(s: State, a: Action)
    requires Inv(s) && Enabled(s, a) && Bounded(Apply(s, a).ring.mem)
    ensures Inv(Apply(s, a))
  {
    match a
    case CallPush(t, value, tag) => MoveKeeps(s, t, PushStart(value, tag));
    case CallPop(t, size) =>
      MoveKeeps(s, t, PopStart(size));
      NoteKeeps(s.Move(t, PopStart(size)), Apply(s, a));
    case Corrupt(_, _, _, _) => CorruptKeeps(s, a);
    case Advance(t, spurious) =>
      if Apply(s, a) == AdvancePush(s, t, spurious) {
        AdvancePushKeeps(s, t, spurious);
      } else {
        AdvancePopKeeps(s, t, spurious);
      }
  }

  // ----- runs -----

  /** The actions, in order, lead from s to s', with every position below 2^63. */
  ghost predicate Executes(s: State, actions: seq<Action>, s': State)
    decreases |actions|
  {
    && s.ring.mem.WellShaped() && Bounded(s.ring.mem)
    && if actions == [] then s' == s
       else Enabled(s, actions[0]) && Executes(Apply(s, actions[0]), actions[1..], s')
  }

  ghost predicate Reachable(s: State) {
    exists start, actions :: Initial(start) && Executes(start, actions, s)
  }

  lemma {:induction false} RunKeeps(s: State, actions: seq<Action>, s': State)
    requires Inv(s) && Executes(s, actions, s')
    ensures Inv(s')
    decreases |actions|
  {
    if actions != [] {
      StepKeeps(s, actions[0]);
      RunKeeps(Apply(s, actions[0]), actions[1..], s');
    }
  }

  lemma ReachableInv(s: State)
    requires Reachable(s)
    ensures Inv(s)
  {
    var start, actions :| Initial(start) && Executes(start, actions, s);
    InitialInv(start);
    RunKeeps(start, actions, s);
  }
}
