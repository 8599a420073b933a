/** Unsigned 64-bit words and the few operations on them that the ring protocol uses. */
module Words {
  const TWO_TO_THE_32: nat := 0x1_0000_0000
  const TWO_TO_THE_63: nat := 0x8000_0000_0000_0000
  const TWO_TO_THE_64: nat := 0x1_0000_0000_0000_0000

  type Word = x: nat | x < TWO_TO_THE_64

  /** Wrapping addition. */
  function Add(a: Word, b: Word): Word {
    (a + b) % TWO_TO_THE_64
  }

  /** Wrapping subtraction. */
  function Sub(a: Word, b: Word): Word {
    (a - b) % TWO_TO_THE_64
  }

  /** Reinterpretation as a two's-complement signed value. */
  function Signed(a: Word): int {
    if a < TWO_TO_THE_63 then a else a - TWO_TO_THE_64
  }

  /** Bitwise conjunction. */
  function And(a: nat, b: nat): (r: nat)
    ensures r <= a && r <= b
  {
    if a == 0 || b == 0 then 0
    else 2 * And(a / 2, b / 2) + (if a % 2 == 1 && b % 2 == 1 then 1 else 0)
  }

  /** The compile-time test on a ring's slot count: exactly one bit is set. */
  predicate IsPowerOfTwo(n: nat) {
    n > 0 && And(n, n - 1) == 0
  }

  lemma AndSelf(a: nat)
    ensures And(a, a) == a
  {
  }

  lemma HalfOfPower(n: nat)
    requires IsPowerOfTwo(n) && n > 1
    ensures n % 2 == 0 && IsPowerOfTwo(n / 2)
  {
    if n % 2 == 1 {
      assert (n - 1) / 2 == n / 2;
      AndSelf(n / 2);
    } else {
      assert (n - 1) / 2 == n / 2 - 1;
    }
  }

  lemma DoubleIsPower(n: nat)
    requires IsPowerOfTwo(n)
    ensures IsPowerOfTwo(2 * n)
  {
    var a, b := 2 * n, 2 * n - 1;
    assert a / 2 == n && b / 2 == n - 1 && a % 2 == 0;
    assert And(a, b) == 2 * And(a / 2, b / 2);
  }

  lemma ModOfDouble(a: nat, m: nat)
    requires m > 0
    ensures a % (2 * m) == 2 * ((a / 2) % m) + a % 2
  {
    var k, s := a / 2 / m, (a / 2) % m;
    assert a / 2 == m * k + s;
    assert a == (2 * m) * k + (2 * s + a % 2);
    ModUnique(a, 2 * m, k, 2 * s + a % 2);
  }

  lemma ModUnique(a: nat, n: nat, k: nat, r: nat)
    requires n > 0 && r < n && a == n * k + r
    ensures a % n == r
  {
    var k' := a / n;
    assert a == n * k' + a % n;
    if k' < k {
      MulGap(n, k', k);
    } else if k' > k {
      MulGap(n, k, k');
    }
  }

  lemma MulGap(n: nat, i: int, j: int)
    requires i < j
    ensures n * j >= n * i + n
  {
    assert n * j == n * i + n * (j - i);
    assert n * (j - i) == n * (j - i - 1) + n;
    assert n * (j - i - 1) >= 0;
  }

  lemma ModNextLap(p: nat, n: nat)
    requires n > 0
    ensures (p + n) % n == p % n
  {
    assert n * (p / n + 1) == n * (p / n) + n;
    ModUnique(p + n, n, p / n + 1, p % n);
  }

  lemma ModDistinct(p: nat, q: nat, n: nat)
    requires 0 < n && p < q < p + n
    ensures p % n != q % n
  {
    var i, j := p / n, q / n;
    assert p == n * i + p % n && q == n * j + q % n;
    if i < j {
      MulGap(n, i, j);
    } else if j < i {
      MulGap(n, j, i);
    }
  }

  /** Masking with n - 1 is reduction modulo n, for exactly the slot counts the ring admits. */
  lemma {:induction false} MaskIsMod(a: nat, n: nat)
    requires IsPowerOfTwo(n)
    ensures And(a, n - 1) == a % n
    decreases n
  {
    if n > 1 {
      HalfOfPower(n);
      MaskIsMod(a / 2, n / 2);
      ModOfDouble(a, n / 2);
      assert (n - 1) / 2 == n / 2 - 1 && (n - 1) % 2 == 1;
      if a > 0 && n / 2 > 1 {
      }
    }
  }

  /** The slot that serves position p. */
  function Index(p: nat, n: nat): (i: nat)
    requires n > 0
    ensures i < n
  {
    And(p, n - 1)
  }

  lemma IndexOfSmall(p: nat, n: nat)
    requires IsPowerOfTwo(n) && p < n
    ensures Index(p, n) == p
  {
    MaskIsMod(p, n);
    ModUnique(p, n, 0, p);
  }

  /** Position p + n is served by the slot that serves p. */
  lemma IndexNextLap(p: nat, n: nat)
    requires IsPowerOfTwo(n)
    ensures Index(p + n, n) == Index(p, n)
  {
    MaskIsMod(p, n);
    MaskIsMod(p + n, n);
    ModNextLap(p, n);
  }

  /** Within one lap no slot serves two positions. */
  lemma IndexDistinct(p: nat, q: nat, n: nat)
    requires IsPowerOfTwo(n) && p < q < p + n
    ensures Index(p, n) != Index(q, n)
  {
    MaskIsMod(p, n);
    MaskIsMod(q, n);
    ModDistinct(p, q, n);
  }
}
