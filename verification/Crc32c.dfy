/**
 CRC-32C: the table-driven form the project runs, proved against the bit-at-a-time reflected
 Castagnoli division (section 12.1 of RFC 3720), and the changes the check is certain to notice.
 */
module Crc32c {
  import opened Words

  type Byte = x: nat | x < 256
  type Word32 = x: nat | x < TWO_TO_THE_32

  const INITIAL_STATE: Word32 := 0xFFFF_FFFF
  const XOR_OUT: Word32 := 0xFFFF_FFFF
  const REFLECTED_POLY: Word32 := 0x82F6_3B78

  // ----- exclusive or -----

  function Xor(a: nat, b: nat): (r: nat)
    decreases a + b
  {
    if a == 0 && b == 0 then 0
    else 2 * Xor(a / 2, b / 2) + (if a % 2 == b % 2 then 0 else 1)
  }

  function Pow2(k: nat): (r: nat)
    ensures r > 0
  {
    if k == 0 then 1 else 2 * Pow2(k - 1)
  }

  lemma Pow2Unroll(k: nat, y: nat)
    requires k > 0
    ensures Pow2(k) * y == 2 * (Pow2(k - 1) * y)
  {
  }

  lemma Pow2Of32()
    ensures Pow2(8) == 0x100 && Pow2(24) == 0x100_0000 && Pow2(31) == 0x8000_0000 && Pow2(32) == TWO_TO_THE_32
  {
    assert Pow2(8) == 0x100;
    assert Pow2(16) == 0x1_0000;
    assert Pow2(24) == 0x100_0000;
    assert Pow2(31) == 0x8000_0000;
  }

  lemma XorZero(a: nat)
    ensures Xor(a, 0) == a && Xor(0, a) == a
  {
  }

  lemma XorSelf(a: nat)
    ensures Xor(a, a) == 0
  {
  }

  lemma XorComm(a: nat, b: nat)
    ensures Xor(a, b) == Xor(b, a)
    decreases a + b
  {
  }

  lemma XorAssoc(a: nat, b: nat, c: nat)
    ensures Xor(Xor(a, b), c) == Xor(a, Xor(b, c))
    decreases a + b + c
  {
    if a + b + c > 0 {
      XorAssoc(a / 2, b / 2, c / 2);
    }
  }

  lemma XorCancel(a: nat, b: nat)
    ensures Xor(Xor(a, b), b) == a
  {
    XorAssoc(a, b, b);
    XorSelf(b);
    XorZero(a);
  }

  /** Exclusive or with a fixed word is injective. */
  lemma XorInjective(a: nat, b: nat, c: nat)
    requires Xor(a, c) == Xor(b, c)
    ensures a == b
  {
    XorCancel(a, c);
    XorCancel(b, c);
  }

  lemma XorSwapInner(a: nat, b: nat, c: nat, d: nat)
    ensures Xor(Xor(a, b), Xor(c, d)) == Xor(Xor(a, c), Xor(b, d))
  {
    XorAssoc(a, b, Xor(c, d));
    XorAssoc(b, c, d);
    XorComm(b, c);
    XorAssoc(c, b, d);
    XorAssoc(a, c, Xor(b, d));
  }

  lemma XorBound(a: nat, b: nat, k: nat)
    requires a < Pow2(k) && b < Pow2(k)
    ensures Xor(a, b) < Pow2(k)
    decreases k
  {
    if k > 0 {
      XorBound(a / 2, b / 2, k - 1);
    }
  }

  lemma XorBound32(a: Word32, b: Word32)
    ensures Xor(a, b) < TWO_TO_THE_32
  {
    Pow2Of32();
    XorBound(a, b, 32);
  }

  /** Words whose set bits do not overlap add up. */
  lemma XorShifted(a: nat, h: nat)
    ensures Xor(a, 2 * h) == 2 * Xor(a / 2, h) + a % 2
  {
  }

  lemma {:induction false} XorDisjoint(low: nat, high: nat, k: nat)
    requires low < Pow2(k)
    ensures Xor(low, Pow2(k) * high) == low + Pow2(k) * high
    decreases k
  {
    if k == 0 {
      XorZero(high);
    } else {
      var h := Pow2(k - 1) * high;
      Pow2Unroll(k, high);
      XorDisjoint(low / 2, high, k - 1);
      XorShifted(low, h);
    }
  }

  /** A bit set on both sides cancels. */
  lemma {:induction false} XorTopBits(a: nat, b: nat, k: nat)
    requires a < Pow2(k) && b < Pow2(k)
    ensures Xor(Pow2(k) + a, Pow2(k) + b) == Xor(a, b)
    decreases k
  {
    if k > 0 {
      XorTopBits(a / 2, b / 2, k - 1);
      assert (Pow2(k) + a) / 2 == Pow2(k - 1) + a / 2 && (Pow2(k) + b) / 2 == Pow2(k - 1) + b / 2;
    }
  }

  /** A bit set on one side stays. */
  lemma XorTopBit(a: nat, b: nat, k: nat)
    requires a < Pow2(k) && b < Pow2(k)
    ensures Xor(Pow2(k) + a, b) == Pow2(k) + Xor(a, b)
    decreases k
  {
    if k > 0 {
      XorTopBit(a / 2, b / 2, k - 1);
      assert (Pow2(k) + a) / 2 == Pow2(k - 1) + a / 2;
    } else {
      assert Xor(1, 0) == 1;
    }
  }

  // ----- the definition -----

  /** One step of the reflected polynomial division. */
  function BitStep(c: Word32): (r: Word32) {
    XorBound32(REFLECTED_POLY, c / 2);
    if c % 2 == 1 then Xor(REFLECTED_POLY, c / 2) else c / 2
  }

  function BitSteps(c: Word32, k: nat): Word32
    decreases k, c
  {
    if k == 0 then c else BitSteps(BitStep(c), k - 1)
  }

  function ByteStep(state: Word32, b: Byte): Word32 {
    XorBound32(state, b);
    BitSteps(Xor(state, b), 8)
  }

  /** The definition of the checksum: fold each byte into the low end, then divide out its bits. */
  function BitwiseUpdate(state: Word32, data: seq<Byte>): Word32
    decreases |data|
  {
    if data == [] then state else BitwiseUpdate(ByteStep(state, data[0]), data[1..])
  }

  function Finalize(state: Word32): Word32 {
    XorBound32(state, XOR_OUT);
    Xor(state, XOR_OUT)
  }

  /** The checksum of a whole byte string. */
  function Crc(data: seq<Byte>): Word32 {
    Finalize(BitwiseUpdate(INITIAL_STATE, data))
  }

  lemma BitStepsSnoc(c: Word32, k: nat)
    ensures BitSteps(c, k + 1) == BitStep(BitSteps(c, k))
    decreases k
  {
    if k > 0 {
      BitStepsSnoc(BitStep(c), k - 1);
    }
  }

  lemma {:induction false} BitwiseUpdateAppend(state: Word32, a: seq<Byte>, b: seq<Byte>)
    ensures BitwiseUpdate(state, a + b) == BitwiseUpdate(BitwiseUpdate(state, a), b)
    decreases |a|
  {
    if a == [] {
      assert a + b == b;
    } else {
      assert (a + b)[1..] == a[1..] + b;
      BitwiseUpdateAppend(ByteStep(state, a[0]), a[1..], b);
    }
  }

  // ----- linearity -----

  lemma BitStepLinear(x: Word32, y: Word32)
    ensures Xor(x, y) < TWO_TO_THE_32
    ensures BitStep(Xor(x, y)) == Xor(BitStep(x), BitStep(y))
  {
    XorBound32(x, y);
    var p, u, v := REFLECTED_POLY, x / 2, y / 2;
    assert Xor(x, y) / 2 == Xor(u, v) && Xor(x, y) % 2 == (if x % 2 == y % 2 then 0 else 1);
    XorSwapInner(p, u, p, v);
    XorSelf(p);
    XorZero(Xor(u, v));
    XorAssoc(p, u, v);
    XorAssoc(u, p, v);
    XorComm(u, p);
  }

  lemma {:induction false} BitStepsLinear(x: Word32, y: Word32, k: nat)
    ensures Xor(x, y) < TWO_TO_THE_32
    ensures BitSteps(Xor(x, y), k) == Xor(BitSteps(x, k), BitSteps(y, k))
    decreases k
  {
    BitStepLinear(x, y);
    if k > 0 {
      BitStepsLinear(BitStep(x), BitStep(y), k - 1);
    }
  }

  /** Dividing out clear bits only shifts. */
  lemma {:induction false} BitStepsOfClear(y: nat, k: nat)
    requires Pow2(k) * y < TWO_TO_THE_32
    ensures BitSteps(Pow2(k) * y, k) == y
    decreases k
  {
    if k > 0 {
      Pow2Unroll(k, y);
      var c := Pow2(k) * y;
      assert BitStep(c) == c / 2 == Pow2(k - 1) * y;
      BitStepsOfClear(y, k - 1);
    }
  }

  // ----- the table form -----

  function TableEntry(i: Byte): Word32 {
    BitSteps(i, 8)
  }

  ghost predicate IsCrcTable(table: seq<Word32>) {
    |table| == 256 && forall i: Byte :: table[i] == TableEntry(i)
  }

  method MakeCrcTable() returns (table: array<Word32>)
    ensures fresh(table) && IsCrcTable(table[..])
  {
    table := new Word32[256];
    for i := 0 to 256
      invariant forall j | 0 <= j < i :: table[j] == TableEntry(j)
    {
      var c: Word32 := i;
      for bit := 0 to 8
        invariant c == BitSteps(i, bit)
        invariant forall j | 0 <= j < i :: table[j] == TableEntry(j)
      {
        BitStepsSnoc(i, bit);
        ghost var next := BitStep(c);
        XorBound32(REFLECTED_POLY, c / 2);
        c := if c % 2 != 0 then Xor(REFLECTED_POLY, c / 2) else c / 2;
        assert c == next;
      }
      assert c == TableEntry(i);
      table[i] := c;
    }
  }

  lemma XorLowHigh(low: nat, high: nat)
    requires low < 256
    ensures Xor(low, 256 * high) == low + 256 * high
  {
    Pow2Of32();
    XorDisjoint(low, high, 8);
  }

  lemma XorHighByte(state: nat, b: Byte)
    ensures Xor(state, b) / 256 == state / 256
  {
    var low, high := state % 256, state / 256;
    XorLowHigh(low, high);
    Pow2Of32();
    XorBound(low, b, 8);
    XorComm(low, 256 * high);
    XorAssoc(256 * high, low, b);
    XorLowHigh(Xor(low, b), high);
    XorComm(256 * high, Xor(low, b));
  }

  lemma MaskByte(x: nat)
    ensures And(x, 0xFF) == x % 256
  {
    TwoFiftySixIsPower();
    MaskIsMod(x, 256);
  }

  lemma TwoFiftySixIsPower()
    ensures IsPowerOfTwo(256)
  {
    assert IsPowerOfTwo(1);
    DoubleIsPower(1);
    DoubleIsPower(2);
    DoubleIsPower(4);
    DoubleIsPower(8);
    DoubleIsPower(16);
    DoubleIsPower(32);
    DoubleIsPower(64);
    DoubleIsPower(128);
  }

  /** Eight bit steps divide out the low byte and shift the rest. */
  lemma DivideLowByte(low: Byte, high: nat)
    requires low + 256 * high < TWO_TO_THE_32
    ensures BitSteps(low + 256 * high, 8) == Xor(TableEntry(low), high)
  {
    XorLowHigh(low, high);
    BitStepsLinear(low, 256 * high, 8);
    Pow2Of32();
    BitStepsOfClear(high, 8);
  }

  /** One table lookup does the work of eight bit steps. */
  lemma TableLookup(table: seq<Word32>, state: Word32, b: Byte)
    requires IsCrcTable(table)
    ensures And(Xor(state, b), 0xFF) < 256
    ensures Xor(table[And(Xor(state, b), 0xFF)], state / 256) == ByteStep(state, b)
  {
    var x := Xor(state, b);
    XorBound32(state, b);
    MaskByte(x);
    XorHighByte(state, b);
    DivideLowByte(x % 256, x / 256);
  }

  /** The project's per-byte loop computes the bitwise definition for every byte string. */
  method TableStep(table: array<Word32>, start: Word32, p: seq<Byte>) returns (state: Word32)
    requires IsCrcTable(table[..])
    ensures state == BitwiseUpdate(start, p)
  {
    state := start;
    for i := 0 to |p|
      invariant state == BitwiseUpdate(start, p[..i])
    {
      TableLookup(table[..], state, p[i]);
      assert p[..i + 1] == p[..i] + [p[i]];
      BitwiseUpdateAppend(start, p[..i], [p[i]]);
      assert BitwiseUpdate(state, [p[i]]) == BitwiseUpdate(ByteStep(state, p[i]), []);
      state := Xor(table[And(Xor(state, p[i]), 0xFF)], state / 256);
    }
    assert p[..|p|] == p;
  }

  method ComputeCrc(table: array<Word32>, data: seq<Byte>) returns (crc: Word32)
    requires IsCrcTable(table[..])
    ensures crc == Crc(data)
  {
    if |data| == 0 {
      assert Crc(data) == 0 by {
        XorSelf(INITIAL_STATE);
      }
      return 0;
    }
    var state := TableStep(table, INITIAL_STATE, data);
    XorBound32(state, XOR_OUT);
    crc := Xor(state, XOR_OUT);
  }

  // ----- invertibility and burst detection -----

  /** The inverse of BitStep: the polynomial's top bit is set, so the result tells the branch taken. */
  function BitUnstep(c: Word32): Word32 {
    XorPolyHigh(c);
    if c >= 0x8000_0000 then 2 * Xor(REFLECTED_POLY, c) + 1 else 2 * c
  }

  lemma XorPolyHigh(c: Word32)
    ensures c >= 0x8000_0000 ==> Xor(REFLECTED_POLY, c) < 0x8000_0000
    ensures c < 0x8000_0000 ==> Xor(REFLECTED_POLY, c) >= 0x8000_0000
  {
    Pow2Of32();
    var p := REFLECTED_POLY - 0x8000_0000;
    if c >= 0x8000_0000 {
      XorTopBits(p, c - 0x8000_0000, 31);
      XorBound(p, c - 0x8000_0000, 31);
    } else {
      XorTopBit(p, c, 31);
    }
  }

  /** BitStep permutes the states: BitUnstep undoes it on both sides. */
  lemma BitStepBijective(c: Word32)
    ensures BitUnstep(BitStep(c)) == c
    ensures BitStep(BitUnstep(c)) == c
  {
    XorPolyHigh(c / 2);
    XorPolyHigh(c);
    XorPolyInvolution(c / 2);
    XorPolyInvolution(c);
  }

  lemma XorPolyInvolution(c: nat)
    ensures Xor(REFLECTED_POLY, Xor(REFLECTED_POLY, c)) == c
  {
    XorAssoc(REFLECTED_POLY, REFLECTED_POLY, c);
    XorSelf(REFLECTED_POLY);
    XorZero(c);
  }

  lemma {:induction false} BitStepsInjective(x: Word32, y: Word32, k: nat)
    requires BitSteps(x, k) == BitSteps(y, k)
    ensures x == y
    decreases k
  {
    if k > 0 {
      BitStepsInjective(BitStep(x), BitStep(y), k - 1);
      BitStepBijective(x);
      BitStepBijective(y);
    }
  }

  lemma ByteStepInjective(x: Word32, y: Word32, b: Byte)
    requires ByteStep(x, b) == ByteStep(y, b)
    ensures x == y
  {
    XorBound32(x, b);
    XorBound32(y, b);
    BitStepsInjective(Xor(x, b), Xor(y, b), 8);
    XorInjective(x, y, b);
  }

  /** Bytes after a difference never cancel it: every byte string permutes the states. */
  lemma {:induction false} UpdateInjective(x: Word32, y: Word32, data: seq<Byte>)
    requires BitwiseUpdate(x, data) == BitwiseUpdate(y, data)
    ensures x == y
    decreases |data|
  {
    if data != [] {
      UpdateInjective(ByteStep(x, data[0]), ByteStep(y, data[0]), data[1..]);
      ByteStepInjective(x, y, data[0]);
    }
  }

  /** The little-endian value of a byte string. */
  function WordOf(b: seq<Byte>): nat {
    if b == [] then 0 else b[0] + 256 * WordOf(b[1..])
  }

  lemma {:induction false} WordOfBound(b: seq<Byte>)
    ensures WordOf(b) < Pow2(8 * |b|)
  {
    if b == [] {
    } else {
      WordOfBound(b[1..]);
      Pow2Byte(8 * |b[1..]|);
    }
  }

  lemma Pow2Byte(k: nat)
    ensures Pow2(k + 8) == 256 * Pow2(k)
  {
    Pow2Twice(k);
    Pow2Twice(k + 2);
    Pow2Twice(k + 4);
    Pow2Twice(k + 6);
  }

  lemma Pow2Twice(k: nat)
    ensures Pow2(k + 2) == 4 * Pow2(k)
  {
    assert Pow2(k + 2) == 2 * Pow2(k + 1);
  }

  lemma WordOfBound4(b: seq<Byte>)
    requires |b| <= 4
    ensures WordOf(b) < TWO_TO_THE_32
    ensures |b| <= 3 ==> WordOf(b) < 0x100_0000
  {
    WordOfBound(b);
    Pow2Of32();
    Pow2Monotone(8 * |b|, 32);
    if |b| <= 3 {
      Pow2Monotone(8 * |b|, 24);
    }
  }

  lemma Pow2Monotone(i: nat, j: nat)
    requires i <= j
    ensures Pow2(i) <= Pow2(j)
    decreases j
  {
    if i < j {
      Pow2Monotone(i, j - 1);
    }
  }

  lemma {:induction false} WordOfInjective(a: seq<Byte>, b: seq<Byte>)
    requires |a| == |b| && WordOf(a) == WordOf(b)
    ensures a == b
  {
    if a == [] {
    } else {
      WordOfInjective(a[1..], b[1..]);
      assert a == [a[0]] + a[1..] && b == [b[0]] + b[1..];
    }
  }

  lemma {:induction false} BitStepsAdd(c: Word32, j: nat, k: nat)
    ensures BitSteps(c, j + k) == BitSteps(BitSteps(c, j), k)
    decreases j
  {
    if j > 0 {
      BitStepsAdd(BitStep(c), j - 1, k);
    }
  }

  /** Up to four bytes act on the state as one word. */
  lemma {:induction false} UpdateByWord(state: Word32, b: seq<Byte>)
    requires |b| <= 4
    ensures Xor(state, WordOf(b)) < TWO_TO_THE_32
    ensures BitwiseUpdate(state, b) == BitSteps(Xor(state, WordOf(b)), 8 * |b|)
    decreases |b|
  {
    WordOfBound4(b);
    XorBound32(state, WordOf(b));
    if b == [] {
      XorZero(state);
    } else {
      var tail, w, next := b[1..], WordOf(b[1..]), ByteStep(state, b[0]);
      WordOfBound4(tail);
      UpdateByWord(next, tail);
      UpdateByteOfWord(state, b[0], w);
      assert WordOf(b) == b[0] + 256 * w && BitwiseUpdate(state, b) == BitwiseUpdate(next, tail);
      BitStepsAdd(Xor(state, WordOf(b)), 8, 8 * |tail|);
      assert 8 + 8 * |tail| == 8 * |b|;
    }
  }

  lemma UpdateByteOfWord(state: Word32, b: Byte, w: nat)
    requires w < 0x100_0000
    ensures Xor(state, b + 256 * w) < TWO_TO_THE_32
    ensures BitSteps(Xor(state, b + 256 * w), 8) == Xor(ByteStep(state, b), w)
  {
    XorBound32(state, b + 256 * w);
    XorLowHigh(b, w);
    XorAssoc(state, b, 256 * w);
    XorBound32(state, b);
    var low, high: Word32 := Xor(state, b), 256 * w;
    BitStepsLinear(low, high, 8);
    Pow2Of32();
    BitStepsOfClear(w, 8);
    assert BitSteps(high, 8) == w;
  }

  /** A change confined to at most four consecutive bytes always changes the checksum state. */
  lemma UpdateDetectsBurst(state: Word32, a: seq<Byte>, b: seq<Byte>, b': seq<Byte>, c: seq<Byte>)
    requires |b| == |b'| <= 4 && b != b'
    ensures BitwiseUpdate(state, a + b + c) != BitwiseUpdate(state, a + b' + c)
  {
    BitwiseUpdateAppend(state, a + b, c);
    BitwiseUpdateAppend(state, a + b', c);
    BitwiseUpdateAppend(state, a, b);
    BitwiseUpdateAppend(state, a, b');
    var s := BitwiseUpdate(state, a);
    if BitwiseUpdate(state, a + b + c) == BitwiseUpdate(state, a + b' + c) {
      UpdateInjective(BitwiseUpdate(s, b), BitwiseUpdate(s, b'), c);
      UpdateByWord(s, b);
      UpdateByWord(s, b');
      BitStepsInjective(Xor(s, WordOf(b)), Xor(s, WordOf(b')), 8 * |b|);
      XorComm(s, WordOf(b));
      XorComm(s, WordOf(b'));
      XorInjective(WordOf(b), WordOf(b'), s);
      WordOfInjective(b, b');
    }
  }

  /** p and q differ, and only within the four bytes from position i. */
  ghost predicate BurstAt(p: seq<Byte>, q: seq<Byte>, i: nat) {
    && |p| == |q|
    && p != q
    && forall j | 0 <= j < |p| && !(i <= j < i + 4) :: p[j] == q[j]
  }

  lemma CrcDetectsBurst(p: seq<Byte>, q: seq<Byte>, i: nat)
    requires BurstAt(p, q, i)
    ensures Crc(p) != Crc(q)
  {
    var from := if i < |p| then i else |p|;
    var to := if i + 4 < |p| then i + 4 else |p|;
    assert p == p[..from] + p[from..to] + p[to..];
    assert q == q[..from] + q[from..to] + q[to..];
    assert p[..from] == q[..from] && p[to..] == q[to..];
    UpdateDetectsBurst(INITIAL_STATE, p[..from], p[from..to], q[from..to], p[to..]);
    if Crc(p) == Crc(q) {
      XorInjective(BitwiseUpdate(INITIAL_STATE, p), BitwiseUpdate(INITIAL_STATE, q), XOR_OUT);
    }
  }
}
