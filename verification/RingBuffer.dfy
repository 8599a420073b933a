/** The ring's calls as one process runs them, over arrays and 64-bit words. */
module RingBuffer {
  import opened Words
  import opened Crc32c
  import opened RingProtocol
  import opened RingTheorems

  // ----- what a quiescent ring looks like -----

  /** The marker a quiescent ring shows for position p of the window at head. */
  function Marker(p: nat, tail: nat): nat {
    if p < tail then p + 1 else p
  }

  /** The stored window is at most one lap, and every slot shows its position's marker. */
  ghost predicate Consistent(mem: Memory)
    requires mem.WellShaped()
  {
    && mem.head <= mem.tail <= mem.head + |mem.cells|
    && forall p: nat | mem.head <= p < mem.head + |mem.cells| :: mem.At(p).sequence == Marker(p, mem.tail)
  }

  ghost predicate Quiet(mem: Memory) {
    mem.WellShaped() && Bounded(mem) && Consistent(mem)
  }

  /** The committed, unreleased records, oldest first; a record is a payload and its stored tag. */
  datatype Record = Record(payload: seq<Byte>, crc: Word32) {
    predicate Good() { crc == Crc(payload) }
  }

  function RecordAt(mem: Memory, p: nat): Record
    requires |mem.cells| > 0
  {
    Record(mem.At(p).payload, mem.At(p).crc)
  }

  function Records(mem: Memory): (r: seq<Record>)
    requires mem.WellShaped() && mem.head <= mem.tail
    ensures |r| == mem.tail - mem.head
    ensures forall i | 0 <= i < |r| :: r[i] == RecordAt(mem, mem.head + i)
  {
    seq(mem.tail - mem.head, i requires 0 <= i < mem.tail - mem.head => RecordAt(mem, mem.head + i))
  }

  /** The cell a push of value leaves behind. */
  function CommittedCell(c: Cell, pos: Word, value: seq<Byte>, tag: Word32): Cell {
    var payload := Overlay(c.payload, value);
    XorBound32(Crc(payload), tag);
    Cell(Add(pos, 1), payload, Xor(Crc(payload), tag))
  }

  /** The memory after a push that found room, and after a pop that found a record. */
  function Pushed(mem: Memory, value: seq<Byte>, tag: Word32): Memory
    requires mem.WellShaped()
  {
    mem.Put(mem.tail, CommittedCell(mem.At(mem.tail), mem.tail, value, tag)).(tail := Add(mem.tail, 1))
  }

  function ReleasedHead(mem: Memory): Memory
    requires mem.WellShaped()
  {
    mem.Put(mem.head, mem.At(mem.head).(sequence := Add(mem.head, |mem.cells|))).(head := Add(mem.head, 1))
  }

  function Popped(mem: Memory): Memory
    requires mem.WellShaped()
  {
    if RecordAt(mem, mem.head).Good() then ReleasedHead(mem)
    else ReleasedHead(mem).(corruption := Add(mem.corruption, 1))
  }

  lemma PutElsewhere(mem: Memory, pos: nat, c: Cell, p: nat)
    requires mem.WellShaped() && p != pos && p < pos + |mem.cells| && pos < p + |mem.cells|
    ensures mem.Put(pos, c).At(p) == mem.At(p) && mem.Put(pos, c).At(pos) == c
  {
    Apart(|mem.cells|, p, pos);
  }

  /** A push writes the cell at tail and no other of its window. */
  lemma PushedCells(mem: Memory, value: seq<Byte>, tag: Word32)
    requires Quiet(mem) && mem.tail < mem.head + |mem.cells|
    ensures var mem' := Pushed(mem, value, tag); var n := |mem.cells|;
      && |mem'.cells| == n && mem'.head == mem.head && mem'.tail == mem.tail + 1 && mem'.slotBytes == mem.slotBytes
      && mem'.At(mem.tail).sequence == mem.tail + 1
      && (forall p: nat | mem.head <= p < mem.head + n && p != mem.tail :: mem'.At(p) == mem.At(p))
  {
    var c := CommittedCell(mem.At(mem.tail), mem.tail, value, tag);
    assert Add(mem.tail, 1) == mem.tail + 1;
    forall p: nat | mem.head <= p < mem.head + |mem.cells| && p != mem.tail
      ensures Pushed(mem, value, tag).At(p) == mem.At(p)
    {
      PutElsewhere(mem, mem.tail, c, p);
    }
  }

  lemma PushedShape(mem: Memory, value: seq<Byte>, tag: Word32)
    requires mem.WellShaped()
    ensures Pushed(mem, value, tag).WellShaped()
  {
  }

  /** A push into a quiescent ring with room appends one record and leaves the ring quiescent. */
  lemma PushedQuiet(mem: Memory, value: seq<Byte>, tag: Word32)
    requires Quiet(mem) && mem.tail < mem.head + |mem.cells| && mem.tail + |mem.cells| < TWO_TO_THE_63
    ensures Quiet(Pushed(mem, value, tag))
    ensures Records(Pushed(mem, value, tag)) ==
              Records(mem) + [RecordAt(Pushed(mem, value, tag), mem.tail)]
  {
    PushedCells(mem, value, tag);
    PushedShape(mem, value, tag);
    ExtendedQuiet(mem, Pushed(mem, value, tag));
  }

  /** The record appended is the value over the front of the slot's bytes, and reads as good unless poisoned. */
  lemma PushedRecord(mem: Memory, value: seq<Byte>, tag: Word32)
    requires Quiet(mem) && |value| <= mem.slotBytes && tag in {0, 0xFFFF_FFFF}
    ensures var was, now := mem.At(mem.tail).payload, RecordAt(Pushed(mem, value, tag), mem.tail);
      && |now.payload| == |was|
      && (forall i | 0 <= i < |was| :: now.payload[i] == if i < |value| then value[i] else was[i])
      && (now.Good() <==> tag == 0)
  {
    TagSpoils(Crc(Overlay(mem.At(mem.tail).payload, value)));
  }

  lemma ExtendedQuiet(mem: Memory, mem': Memory)
    requires Quiet(mem) && mem.tail < mem.head + |mem.cells| && mem.tail + |mem.cells| < TWO_TO_THE_63
    requires mem'.WellShaped() && |mem'.cells| == |mem.cells| && mem'.head == mem.head && mem'.tail == mem.tail + 1
    requires mem'.At(mem.tail).sequence == mem.tail + 1
    requires forall p: nat | mem.head <= p < mem.head + |mem.cells| && p != mem.tail :: mem'.At(p) == mem.At(p)
    ensures Quiet(mem') && Records(mem') == Records(mem) + [RecordAt(mem', mem.tail)]
  {
  }

  lemma ReleasedHeadQuiet(mem: Memory)
    requires Quiet(mem) && mem.head < mem.tail
    ensures Quiet(ReleasedHead(mem)) && ReleasedHead(mem).head == mem.head + 1 && ReleasedHead(mem).tail == mem.tail
    ensures forall p: nat | mem.head < p < mem.head + |mem.cells| :: ReleasedHead(mem).At(p) == mem.At(p)
  {
    var n := |mem.cells|;
    var c := mem.At(mem.head).(sequence := Add(mem.head, n));
    var mem' := ReleasedHead(mem);
    assert Add(mem.head, 1) == mem.head + 1 && Add(mem.head, n) == mem.head + n;
    forall p: nat | mem.head < p < mem.head + n
      ensures mem'.At(p) == mem.At(p)
    {
      PutElsewhere(mem, mem.head, c, p);
    }
    IndexNextLap(mem.head, n);
    assert mem'.At(mem.head + n) == c;
  }

  lemma RecountQuiet(mem: Memory, k: Word)
    requires Quiet(mem)
    ensures Quiet(mem.(corruption := k)) && Records(mem.(corruption := k)) == Records(mem)
  {
    var mem' := mem.(corruption := k);
    assert forall p: nat :: mem'.At(p) == mem.At(p);
  }

  /** A pop from a quiescent ring with a record removes the oldest and leaves the ring quiescent. */
  lemma PoppedQuiet(mem: Memory)
    requires Quiet(mem) && mem.head < mem.tail
    ensures Quiet(Popped(mem))
    ensures Records(Popped(mem)) == Records(mem)[1..]
  {
    ReleasedHeadQuiet(mem);
    assert Records(ReleasedHead(mem)) == Records(mem)[1..];
    RecountQuiet(ReleasedHead(mem), Add(mem.corruption, 1));
  }

  // ----- decoding one slot counter -----

  /** A slot counter is at or above its index and leaves residue 0 (ready) or 1 (committed). */
  predicate WellFormed(s: Word, i: nat, n: nat)
    requires 0 < n
  {
    i <= s && (s - i) % n <= 1
  }

  /** The slot's first position not yet consumed, and its first not yet committed, as the code computes them. */
  function FirstUnconsumed(s: Word, i: nat, n: nat): Word
    requires 0 < n && i <= s
  {
    s - (s - i) % n
  }

  function FirstUncommitted(s: Word, i: nat, n: nat): Word
    requires 0 < n && i <= s
  {
    if (s - i) % n == 0 then FirstUnconsumed(s, i, n) else (FirstUnconsumed(s, i, n) + n) % TWO_TO_THE_64
  }

  /** The mask, the lap count and the two positions the loops compute from a counter at or above its index. */
  lemma Decode(s: Word, i: nat, n: nat)
    requires IsPowerOfTwo(n) && i <= s
    ensures var r := And(s - i, n - 1); var k := (s - i - r) / n;
      && r == (s - i) % n
      && i + k * n == FirstUnconsumed(s, i, n)
      && (if r == 0 then i + k * n else (i + (k + 1) * n) % TWO_TO_THE_64) == FirstUncommitted(s, i, n)
  {
    MaskIsMod(s - i, n);
    WholeLaps(s, i, n);
  }

  /** i plus the whole laps in s - i is s less the residue. */
  lemma WholeLaps(s: nat, i: nat, n: nat)
    requires 0 < n && i <= s
    ensures var k := (s - i - (s - i) % n) / n; i + k * n == s - (s - i) % n && i + (k + 1) * n == s - (s - i) % n + n
  {
    var d, r := s - i, (s - i) % n;
    assert d == n * (d / n) + r;
    var m := d / n;
    assert d - r == n * m;
    ModUnique(d - r, n, m, 0);
    assert n * ((d - r) / n) == d - r;
    assert ((d - r) / n + 1) * n == (d - r) / n * n + n;
  }

  lemma {:induction false} PowerDivides(n: nat, k: nat) returns (m: nat)
    requires IsPowerOfTwo(n) && n <= Pow2(k)
    ensures Pow2(k) == n * m
    decreases k
  {
    if n == 1 {
      m := Pow2(k);
    } else {
      HalfOfPower(n);
      m := PowerDivides(n / 2, k - 1);
      assert Pow2(k) == 2 * Pow2(k - 1) == 2 * (n / 2 * m) == n * m;
    }
  }

  /** Masking a wrapped difference is the difference modulo n. */
  lemma MaskedDifference(i: Word, h: Word, n: nat)
    requires IsPowerOfTwo(n) && n < TWO_TO_THE_63
    ensures And(Sub(i, h), n - 1) == (i - h) % n
  {
    MaskIsMod(Sub(i, h), n);
    SubValue(i, h);
    WrapMod(i - h, n);
  }

  lemma SubValue(a: Word, b: Word)
    ensures Sub(a, b) == if a < b then a - b + TWO_TO_THE_64 else a - b
  {
  }

  /** A whole word more or less does not change a residue modulo a power of two. */
  lemma WrapMod(d: int, n: nat)
    requires IsPowerOfTwo(n) && n < TWO_TO_THE_63
    ensures (d + TWO_TO_THE_64) % n == d % n
  {
    WordSize(n);
    var m := PowerDivides(n, 64);
    ModShift(d, n, m);
  }

  lemma {:induction false} Pow2Sum(i: nat, j: nat)
    ensures Pow2(i + j) == Pow2(i) * Pow2(j)
    decreases i
  {
    if i > 0 {
      Pow2Sum(i - 1, j);
      assert Pow2(i + j) == 2 * (Pow2(i - 1) * Pow2(j)) == (2 * Pow2(i - 1)) * Pow2(j);
    }
  }

  lemma WordSize(n: nat)
    requires n < TWO_TO_THE_63
    ensures n <= Pow2(64) == TWO_TO_THE_64
  {
    Pow2Of32();
    Pow2Sum(32, 32);
  }

  /** Two positions of one window with one residue are one position. */
  lemma SameResidue(p: nat, q: nat, n: nat)
    requires 0 < n && p % n == q % n && p < q + n && q < p + n
    ensures p == q
  {
    if p < q {
      ModDistinct(p, q, n);
    } else if q < p {
      ModDistinct(q, p, n);
    }
  }

  lemma WindowResidue(i: nat, h: nat, n: nat)
    requires 0 < n && i < n
    ensures h <= WindowPosition(i, h, n) < h + n && WindowPosition(i, h, n) % n == i
  {
    ModOfShift(i, h, n);
    ModUnique(i, n, 0, i);
  }

  /** The window position of a slot seen from tail is the one seen from head, or one lap on if it is claimed. */
  lemma TailPosition(i: nat, h: nat, t: nat, n: nat)
    requires 0 < n && i < n && h <= t <= h + n
    ensures WindowPosition(i, t, n) == var p := WindowPosition(i, h, n); if p < t then p + n else p
  {
    var p, q := WindowPosition(i, h, n), WindowPosition(i, t, n);
    WindowResidue(i, h, n);
    WindowResidue(i, t, n);
    if p < t {
      ModNextLap(p, n);
      SameResidue(p + n, q, n);
    } else {
      SameResidue(p, q, n);
    }
  }

  /**
   The two decoded positions are the wrapped window positions exactly when the slot shows its position's
   marker, as long as that position does not itself wrap.
   */
  lemma SlotMatches(s: Word, i: nat, h: Word, t: Word, n: nat)
    requires 2 <= n < TWO_TO_THE_63 && i < n && h <= t <= h + n && WindowPosition(i, h, n) < TWO_TO_THE_64
    ensures (WellFormed(s, i, n)
             && FirstUnconsumed(s, i, n) == WindowPosition(i, h, n)
             && FirstUncommitted(s, i, n) == WindowPosition(i, t, n) % TWO_TO_THE_64)
            <==> s == Marker(WindowPosition(i, h, n), t)
  {
    var p := WindowPosition(i, h, n);
    WindowResidue(i, h, n);
    TailPosition(i, h, t, n);
    NextLapDiffers(p, n);
    if s == Marker(p, t) {
      MarkerResidue(p, i, n);
    }
  }

  lemma NextLapDiffers(p: Word, n: nat)
    requires 0 < n < TWO_TO_THE_63
    ensures (p + n) % TWO_TO_THE_64 != p == p % TWO_TO_THE_64
  {
  }

  /** A position served by slot i is i plus whole laps. */
  lemma MarkerResidue(p: nat, i: nat, n: nat)
    requires 2 <= n && i < n && p % n == i
    ensures i <= p && (p - i) % n == 0 && (p + 1 - i) % n == 1
  {
    var k := p / n;
    assert p == n * k + i && n * k >= 0;
    ModUnique(p - i, n, k, 0);
    ModUnique(p + 1 - i, n, k, 1);
  }

  /** One counter's lap, given its residue, and the two positions they stand for. */
  method DecodeResidue(s: Word, i: nat, n: nat, r: nat)
    returns (valid: bool, firstUnconsumed: Word, firstUncommitted: Word)
    requires IsPowerOfTwo(n) && i <= s && r == (s - i) % n
    ensures valid <==> WellFormed(s, i, n)
    ensures valid ==> firstUnconsumed == FirstUnconsumed(s, i, n) && firstUncommitted == FirstUncommitted(s, i, n)
  {
    if r > 1 {
      return false, 0, 0;
    }
    Decode(s, i, n);
    var k := (s - i - r) / n;
    firstUnconsumed := i + k * n;
    firstUncommitted := if r == 0 then firstUnconsumed else (i + (k + 1) * n) % TWO_TO_THE_64;
    valid := true;
  }

  /** The reconstruction takes the residue by division. */
  method DecodeCounter(s: Word, i: nat, n: nat) returns (valid: bool, firstUnconsumed: Word, firstUncommitted: Word)
    requires IsPowerOfTwo(n)
    ensures valid <==> WellFormed(s, i, n)
    ensures valid ==> firstUnconsumed == FirstUnconsumed(s, i, n) && firstUncommitted == FirstUncommitted(s, i, n)
  {
    if s < i {
      return false, 0, 0;
    }
    valid, firstUnconsumed, firstUncommitted := DecodeResidue(s, i, n, (s - i) % n);
  }

  datatype DerivedState = DerivedState(head: Word, tail: Word)

  /** Whether slot i decodes, and to which two positions. */
  predicate Decodes(mem: Memory, i: nat)
    requires i < |mem.cells|
  {
    WellFormed(mem.cells[i].sequence, i, |mem.cells|)
  }

  function UnconsumedAt(mem: Memory, i: nat): Word
    requires i < |mem.cells| && Decodes(mem, i)
  {
    FirstUnconsumed(mem.cells[i].sequence, i, |mem.cells|)
  }

  function UncommittedAt(mem: Memory, i: nat): Word
    requires i < |mem.cells| && Decodes(mem, i)
  {
    FirstUncommitted(mem.cells[i].sequence, i, |mem.cells|)
  }

  /** The minima over all slots, where all ones stands for a minimum that no slot lowers. */
  ghost predicate Derived(mem: Memory, d: DerivedState)
    requires forall i | 0 <= i < |mem.cells| :: Decodes(mem, i)
  {
    && (forall i | 0 <= i < |mem.cells| :: d.head <= UnconsumedAt(mem, i) && d.tail <= UncommittedAt(mem, i))
    && (d.head == TWO_TO_THE_64 - 1 || exists i :: 0 <= i < |mem.cells| && d.head == UnconsumedAt(mem, i))
    && (d.tail == TWO_TO_THE_64 - 1 || exists i :: 0 <= i < |mem.cells| && d.tail == UncommittedAt(mem, i))
  }

  function Min(a: Word, b: Word): Word {
    if a < b then a else b
  }

  /** The first k slots decode, and h and t are their minima. */
  ghost predicate DerivedUpTo(mem: Memory, k: nat, h: Word, t: Word) {
    && k <= |mem.cells|
    && (forall i | 0 <= i < k :: Decodes(mem, i))
    && (forall i | 0 <= i < k :: h <= UnconsumedAt(mem, i) && t <= UncommittedAt(mem, i))
    && (h == TWO_TO_THE_64 - 1 || exists i :: 0 <= i < k && h == UnconsumedAt(mem, i))
    && (t == TWO_TO_THE_64 - 1 || exists i :: 0 <= i < k && t == UncommittedAt(mem, i))
  }

  lemma DerivedNext(mem: Memory, k: nat, h: Word, t: Word)
    requires DerivedUpTo(mem, k, h, t) && k < |mem.cells| && Decodes(mem, k)
    ensures DerivedUpTo(mem, k + 1, Min(UnconsumedAt(mem, k), h), Min(UncommittedAt(mem, k), t))
  {
    assert UnconsumedAt(mem, k) == UnconsumedAt(mem, k) && UncommittedAt(mem, k) == UncommittedAt(mem, k);
    if h <= UnconsumedAt(mem, k) && h != TWO_TO_THE_64 - 1 {
      var i :| 0 <= i < k && h == UnconsumedAt(mem, i);
      assert 0 <= i < k + 1;
    }
    if t <= UncommittedAt(mem, k) && t != TWO_TO_THE_64 - 1 {
      var i :| 0 <= i < k && t == UncommittedAt(mem, i);
      assert 0 <= i < k + 1;
    }
  }

  /** One slot of the consistency check, by masks: the decoded positions against those of the stored window. */
  method CheckSlot(s: Word, i: nat, h: Word, t: Word, n: nat) returns (agrees: bool)
    requires IsPowerOfTwo(n) && i < n < TWO_TO_THE_63
    ensures agrees <==> SlotAgrees(s, i, h, t, n)
  {
    if s < i {
      return false;
    }
    MaskIsMod(s - i, n);
    var valid, firstUnconsumed, firstUncommitted := DecodeResidue(s, i, n, And(s - i, n - 1));
    if !valid {
      return false;
    }
    var expectedUnconsumed := Add(h, And(Sub(i, h), n - 1));
    var expectedUncommitted := Add(t, And(Sub(i, t), n - 1));
    return firstUnconsumed == expectedUnconsumed && firstUncommitted == expectedUncommitted;
  }

  // ----- the calls -----

  class LockFreeRingBuffer {
    var tail: Word
    var head: Word
    var corruptionCount: Word
    const slotBytes: nat
    const cells: array<Cell>

    ghost predicate Shaped()
      reads this, cells
    {
      Mem().WellShaped()
    }

    /** The buffer's words and cells as one value. */
    ghost function Mem(): Memory
      reads this, cells
    {
      Memory(tail, head, corruptionCount, slotBytes, cells[..])
    }

    constructor (slotCount: nat, slotBytes: nat)
      requires IsPowerOfTwo(slotCount) && 2 <= slotCount < TWO_TO_THE_63
      ensures fresh(cells) && cells.Length == slotCount && this.slotBytes == slotBytes && Shaped()
    {
      this.slotBytes := slotBytes;
      tail, head, corruptionCount := 0, 0, 0;
      var blank := Cell(0, seq(slotBytes, _ => 0), 0);
      cells := new Cell[slotCount](_ => blank);
      new;
      assert forall i | 0 <= i < slotCount :: cells[i] == blank;
    }

    /** Payload bytes are left as they are: nothing reads them before a commit. */
    method Initialize()
      requires Shaped()
      modifies this, cells
      ensures Quiet(Mem()) && Records(Mem()) == []
      ensures tail == head == corruptionCount == 0
      ensures forall i | 0 <= i < cells.Length :: cells[i] == Cell(i, old(cells[i].payload), 0)
    {
      head, tail, corruptionCount := 0, 0, 0;
      for i := 0 to cells.Length
        modifies cells
        invariant forall j | 0 <= j < i :: cells[j] == Cell(j, old(cells[j].payload), 0)
        invariant forall j | i <= j < cells.Length :: cells[j] == old(cells[j])
      {
        cells[i] := Cell(i, cells[i].payload, 0);
      }
      forall p: nat | p < cells.Length
        ensures Mem().At(p).sequence == p
      {
        IndexOfSmall(p, cells.Length);
      }
    }

    /**
     One call without contention. A weak swap may fail spuriously any number of times; each time the
     loop looks again. tag is 0, or all ones for the fault-injection variant.
     */
    method TryPush(value: seq<Byte>, tag: Word32, spurious: nat) returns (ok: bool)
      requires Quiet(Mem()) && |value| <= slotBytes
      requires tail + cells.Length < TWO_TO_THE_63
      modifies this, cells
      ensures ok <==> old(tail - head) < cells.Length
      ensures Mem() == if ok then Pushed(old(Mem()), value, tag) else old(Mem())
      ensures Quiet(Mem())
    {
      var failures := spurious;
      var pos := tail;
      while true
        invariant pos == tail && Mem() == old(Mem())
        decreases failures
      {
        var i := Index(pos, cells.Length);
        var diff := Distance(cells[i].sequence, pos);
        assert cells[i] == Mem().At(pos);
        if pos == head + cells.Length {
          IndexNextLap(head, cells.Length);
          assert Mem().At(pos) == Mem().At(head);
        }
        if diff == 0 {
          if tail == pos && failures == 0 {
            PushedQuiet(Mem(), value, tag);
            tail := Add(pos, 1);
            cells[i] := cells[i].(payload := Overlay(cells[i].payload, value));
            XorBound32(Crc(cells[i].payload), tag);
            cells[i] := cells[i].(crc := Xor(Crc(cells[i].payload), tag));
            cells[i] := cells[i].(sequence := Add(pos, 1));
            assert Mem() == Pushed(old(Mem()), value, tag);
            return true;
          }
          failures := failures - 1;
          pos := tail;
        } else if diff < 0 {
          return false;
        } else {
          assert false;
        }
      }
    }

    method TryPop(size: nat, spurious: nat) returns (ok: bool, out: seq<Byte>)
      requires Quiet(Mem()) && size <= slotBytes
      modifies this, cells
      ensures ok <==> old(head) < old(tail) && RecordAt(old(Mem()), old(head)).Good()
      ensures ok ==> out == RecordAt(old(Mem()), old(head)).payload[..size]
      ensures Mem() == if old(head) < old(tail) then Popped(old(Mem())) else old(Mem())
      ensures Quiet(Mem())
    {
      out := [];
      var failures := spurious;
      var pos := head;
      while true
        invariant pos == head && Mem() == old(Mem())
        decreases failures
      {
        var i := Index(pos, cells.Length);
        var diff := Distance(cells[i].sequence, Add(pos, 1));
        assert cells[i] == Mem().At(pos);
        assert Add(pos, 1) == pos + 1;
        if diff == 0 {
          if head == pos && failures == 0 {
            PoppedQuiet(Mem());
            head := Add(pos, 1);
            if cells[i].crc != Crc(cells[i].payload) {
              cells[i] := cells[i].(sequence := Add(pos, cells.Length));
              corruptionCount := Add(corruptionCount, 1);
              assert Mem() == Popped(old(Mem()));
              return false, out;
            }
            out := cells[i].payload[..size];
            cells[i] := cells[i].(sequence := Add(pos, cells.Length));
            assert Mem() == Popped(old(Mem()));
            return true, out;
          }
          failures := failures - 1;
          pos := head;
        } else if diff < 0 {
          return false, out;
        } else {
          assert false;
        }
      }
    }

    /** Both positions from the slot counters alone; any malformed counter refuses and leaves out as it was. */
    method DeriveState(out: DerivedState) returns (ok: bool, result: DerivedState)
      requires Shaped()
      ensures ok <==> forall i | 0 <= i < cells.Length :: Decodes(Mem(), i)
      ensures ok ==> Derived(Mem(), result)
      ensures !ok ==> result == out
    {
      var h: Word, t: Word, n := TWO_TO_THE_64 - 1, TWO_TO_THE_64 - 1, cells.Length;
      for i := 0 to n
        invariant DerivedUpTo(Mem(), i, h, t)
      {
        var valid, firstUnconsumed, firstUncommitted := DecodeCounter(cells[i].sequence, i, n);
        assert valid <==> Decodes(Mem(), i);
        if !valid {
          return false, out;
        }
        DerivedNext(Mem(), i, h, t);
        if firstUncommitted < t {
          t := firstUncommitted;
        }
        if firstUnconsumed < h {
          h := firstUnconsumed;
        }
      }
      return true, DerivedState(h, t);
    }

    /**
     The attach-time check, as it compares; as long as the window at head does not wrap, it accepts exactly the
     windows whose every slot shows its position's marker.
     */
    method VerifyConsistent() returns (ok: bool)
      requires Shaped()
      ensures ok <==> AllAgree(Mem())
      ensures head + cells.Length <= TWO_TO_THE_64 ==> (ok <==> Consistent(Mem()))
    {
      var h, t, n := head, tail, cells.Length;
      if h + n <= TWO_TO_THE_64 {
        AgreementDecides(Mem());
      }
      if h > t {
        return false;
      }
      if t - h > n {
        return false;
      }
      for i := 0 to n
        invariant forall j | 0 <= j < i :: SlotAgrees(cells[j].sequence, j, h, t, n)
      {
        var agrees := CheckSlot(cells[i].sequence, i, h, t, n);
        if !agrees {
          return false;
        }
      }
      return true;
    }
  }

  /** The window is at most a lap and every slot decodes to its ends. */
  ghost predicate AllAgree(mem: Memory)
    requires mem.WellShaped()
  {
    && mem.head <= mem.tail <= mem.head + |mem.cells|
    && forall i | 0 <= i < |mem.cells| :: SlotAgrees(mem.cells[i].sequence, i, mem.head, mem.tail, |mem.cells|)
  }

  /** Slot i shows the marker of its window position. */
  predicate SlotShows(mem: Memory, i: nat)
    requires i < |mem.cells|
  {
    mem.cells[i].sequence == Marker(WindowPosition(i, mem.head, |mem.cells|), mem.tail)
  }

  /** What the loop compares for slot i, with the wrap-around arithmetic it uses. */
  predicate SlotAgrees(s: Word, i: nat, h: Word, t: Word, n: nat)
    requires 0 < n && i < n < TWO_TO_THE_63
  {
    && WellFormed(s, i, n)
    && FirstUnconsumed(s, i, n) == Add(h, And(Sub(i, h), n - 1))
    && FirstUncommitted(s, i, n) == Add(t, And(Sub(i, t), n - 1))
  }

  lemma ExpectedPosition(i: nat, h: Word, n: nat)
    requires IsPowerOfTwo(n) && i < n < TWO_TO_THE_63
    ensures Add(h, And(Sub(i, h), n - 1)) == WindowPosition(i, h, n) % TWO_TO_THE_64
  {
    MaskedDifference(i, h, n);
  }

  /** The comparison of one slot decides its marker as long as the slot's window position does not wrap. */
  lemma SlotAgreement(s: Word, i: nat, h: Word, t: Word, n: nat)
    requires 2 <= n < TWO_TO_THE_63 && IsPowerOfTwo(n) && i < n && h <= t <= h + n
    requires WindowPosition(i, h, n) < TWO_TO_THE_64
    ensures SlotAgrees(s, i, h, t, n) <==> s == Marker(WindowPosition(i, h, n), t)
  {
    ExpectedPosition(i, h, n);
    ExpectedPosition(i, t, n);
    NextLapDiffers(WindowPosition(i, h, n), n);
    SlotMatches(s, i, h, t, n);
  }

  /** A ready marker agrees if the window's position, and tail's, are its own after the wrap. */
  lemma ReadyAgrees(s: Word, i: nat, h: Word, t: Word, n: nat)
    requires 2 <= n < TWO_TO_THE_63 && IsPowerOfTwo(n) && i < n && s % n == i
    requires WindowPosition(i, h, n) % TWO_TO_THE_64 == s && WindowPosition(i, t, n) % TWO_TO_THE_64 == s
    ensures SlotAgrees(s, i, h, t, n)
  {
    MarkerResidue(s, i, n);
    ExpectedPosition(i, h, n);
    ExpectedPosition(i, t, n);
  }

  lemma OneWrap(p: nat)
    requires TWO_TO_THE_64 <= p < 2 * TWO_TO_THE_64
    ensures p % TWO_TO_THE_64 == p - TWO_TO_THE_64
  {
  }

  /** A wrapped window position agrees with the ready marker of the position 2^64 below it. */
  lemma WrappedSlotAgrees(i: nat, h: Word, t: Word, n: nat)
    requires 2 <= n < TWO_TO_THE_63 && IsPowerOfTwo(n) && i < n && h <= t <= h + n
    requires WindowPosition(i, h, n) >= TWO_TO_THE_64
    ensures h + n < 2 * TWO_TO_THE_64 && WindowPosition(i, h, n) - TWO_TO_THE_64 < TWO_TO_THE_64
    ensures SlotAgrees(WindowPosition(i, h, n) - TWO_TO_THE_64, i, h, t, n)
  {
    var p := WindowPosition(i, h, n);
    WindowResidue(i, h, n);
    TailPosition(i, h, t, n);
    OneWrap(p);
    WrapMod(p - TWO_TO_THE_64, n);
    ReadyAgrees(p - TWO_TO_THE_64, i, h, t, n);
  }

  /** The position of the window at h that the slot of p serves is p itself, if p is in that window. */
  lemma WindowIndex(p: nat, h: nat, n: nat)
    requires IsPowerOfTwo(n) && h <= p < h + n
    ensures WindowPosition(Index(p, n), h, n) == p
  {
    var q := WindowPosition(Index(p, n), h, n);
    WindowPositionServed(Index(p, n), h, n);
    MaskIsMod(p, n);
    MaskIsMod(q, n);
    SameResidue(p, q, n);
  }

  /** Below the wrap the comparison decides consistency, for every content of the slots. */
  lemma AgreementDecides(mem: Memory)
    requires mem.WellShaped() && mem.head + |mem.cells| <= TWO_TO_THE_64
    ensures AllAgree(mem) <==> Consistent(mem)
  {
    if mem.head <= mem.tail <= mem.head + |mem.cells| {
      forall i: nat | i < |mem.cells|
        ensures SlotAgrees(mem.cells[i].sequence, i, mem.head, mem.tail, |mem.cells|) <==> SlotShows(mem, i)
      {
        SlotOfWindow(mem, i);
        SlotAgreement(mem.cells[i].sequence, i, mem.head, mem.tail, |mem.cells|);
      }
      ConsistentSlots(mem);
    }
  }

  lemma ConsistentSlots(mem: Memory)
    requires mem.WellShaped() && mem.head <= mem.tail <= mem.head + |mem.cells|
    ensures Consistent(mem) <==> forall i | 0 <= i < |mem.cells| :: SlotShows(mem, i)
  {
    if Consistent(mem) {
      forall i | 0 <= i < |mem.cells|
        ensures SlotShows(mem, i)
      {
        SlotOfWindow(mem, i);
      }
    }
    if forall i | 0 <= i < |mem.cells| :: SlotShows(mem, i) {
      AllSlotsShow(mem);
    }
  }

  // ----- where the window wraps -----

  /** What slot i of a wrapping window may hold and be accepted. */
  function WrappedSequence(i: nat, h: Word, t: Word, n: nat): Word
    requires 0 < n < TWO_TO_THE_63
  {
    var p := WindowPosition(i, h, n);
    if p < TWO_TO_THE_64 then Marker(p, t) else p - TWO_TO_THE_64
  }

  /** No word is the marker of a position past the wrap. */
  lemma WrappedIsInconsistent(mem: Memory)
    requires mem.WellShaped() && mem.head + |mem.cells| > TWO_TO_THE_64
    ensures !Consistent(mem)
  {
    assert mem.At(TWO_TO_THE_64).sequence != Marker(TWO_TO_THE_64, mem.tail);
  }

  /** Whatever window wraps, some content of its slots is accepted although it is not consistent. */
  lemma WrappedWindowAccepted(mem: Memory) returns (cells: seq<Cell>)
    requires mem.WellShaped() && mem.head <= mem.tail <= mem.head + |mem.cells|
    requires mem.head + |mem.cells| > TWO_TO_THE_64
    ensures |cells| == |mem.cells| && mem.(cells := cells).WellShaped()
    ensures AllAgree(mem.(cells := cells)) && !Consistent(mem.(cells := cells))
  {
    var h, t, n := mem.head, mem.tail, |mem.cells|;
    cells := seq(n, i requires 0 <= i < n => mem.cells[i].(sequence := WrappedSequence(i, h, t, n)));
    var bad := mem.(cells := cells);
    forall i | 0 <= i < n
      ensures SlotAgrees(cells[i].sequence, i, h, t, n)
    {
      if WindowPosition(i, h, n) < TWO_TO_THE_64 {
        SlotAgreement(cells[i].sequence, i, h, t, n);
      } else {
        WrappedSlotAgrees(i, h, t, n);
      }
    }
    WrappedIsInconsistent(bad);
  }

  /** The check tells consistent slots from all others, whatever they hold. */
  ghost predicate Decides(mem: Memory) {
    forall cells: seq<Cell> | |cells| == |mem.cells| && mem.(cells := cells).WellShaped() ::
      AllAgree(mem.(cells := cells)) <==> Consistent(mem.(cells := cells))
  }

  /** For a window of at most one lap the check decides consistency exactly when the window does not wrap. */
  lemma DecidesExactly(mem: Memory)
    requires mem.WellShaped() && mem.head <= mem.tail <= mem.head + |mem.cells|
    ensures Decides(mem) <==> mem.head + |mem.cells| <= TWO_TO_THE_64
  {
    if mem.head + |mem.cells| <= TWO_TO_THE_64 {
      forall cells: seq<Cell> | |cells| == |mem.cells| && mem.(cells := cells).WellShaped()
        ensures AllAgree(mem.(cells := cells)) <==> Consistent(mem.(cells := cells))
      {
        AgreementDecides(mem.(cells := cells));
      }
    } else {
      var cells := WrappedWindowAccepted(mem);
      assert !(AllAgree(mem.(cells := cells)) <==> Consistent(mem.(cells := cells)));
    }
  }

  /** Slot i is the cell of its window position. */
  lemma SlotOfWindow(mem: Memory, i: nat)
    requires mem.WellShaped() && i < |mem.cells|
    ensures mem.At(WindowPosition(i, mem.head, |mem.cells|)) == mem.cells[i]
    ensures mem.head <= WindowPosition(i, mem.head, |mem.cells|) < mem.head + |mem.cells|
  {
    WindowPositionServed(i, mem.head, |mem.cells|);
  }

  lemma AllSlotsShow(mem: Memory)
    requires mem.WellShaped() && mem.head <= mem.tail <= mem.head + |mem.cells|
    requires forall i | 0 <= i < |mem.cells| :: SlotShows(mem, i)
    ensures Consistent(mem)
  {
    var n := |mem.cells|;
    forall p: nat | mem.head <= p < mem.head + n
      ensures mem.At(p).sequence == Marker(p, mem.tail)
    {
      assert SlotShows(mem, Index(p, n));
      WindowIndex(p, mem.head, n);
    }
  }
}
