/** Arithmetic on machine words: powers of two, bits of a natural, and
    congruences used by the modulo-addressed store. */
module Arith {

  /** 2^64, the range of a `uint64_t`. */
  const WORD_RANGE: nat := 0x1_0000_0000_0000_0000

  /** Reduction of an unsigned 64-bit result. */
  function Wrap(a: nat): nat {
    a % WORD_RANGE
  }

  lemma WrapAdd(a: nat, b: nat)
    ensures Wrap(Wrap(a) + b) == Wrap(a + b)
  {
    ModAdd(a, b, WORD_RANGE);
  }

  function Pow2(n: nat): (p: nat)
    ensures p > 0
  {
    if n == 0 then 1 else 2 * Pow2(n - 1)
  }

  lemma {:induction false} Pow2Add(m: nat, n: nat)
    ensures Pow2(m + n) == Pow2(m) * Pow2(n)
  {
    if m != 0 {
      Pow2Add(m - 1, n);
      assert 2 * Pow2(m - 1) * Pow2(n) == 2 * (Pow2(m - 1) * Pow2(n));
    }
  }

  lemma {:induction false} Pow2Mono(m: nat, n: nat)
    requires m <= n
    ensures Pow2(m) <= Pow2(n)
    decreases n
  {
    if m < n {
      Pow2Mono(m, n - 1);
    }
  }

  /** The larger of two powers of two is a multiple of the smaller. */
  lemma Pow2Divides(m: nat, n: nat)
    requires m <= n
    ensures Pow2(n) % Pow2(m) == 0
  {
    Pow2Add(n - m, m);
    MultipleMod(Pow2(n - m), Pow2(m));
  }

  lemma Pow2At64()
    ensures Pow2(64) == WORD_RANGE
  {
    assert Pow2(4) == 16 && Pow2(8) == 256;
    Pow2Add(8, 8);
    Pow2Add(16, 16);
    Pow2Add(32, 32);
  }

  ghost predicate IsPow2(n: nat) {
    exists k: nat :: Pow2(k) == n
  }

  // ---------- bits ----------

  /** Bit i of a natural number. */
  function Bit(a: nat, i: nat): bool {
    if i == 0 then a % 2 == 1 else Bit(a / 2, i - 1)
  }

  /** Bitwise and. */
  function BitAnd(a: nat, b: nat): nat {
    if a == 0 || b == 0 then 0 else (a % 2) * (b % 2) + 2 * BitAnd(a / 2, b / 2)
  }

  lemma ZeroBits(i: nat)
    ensures !Bit(0, i)
  {
  }

  lemma {:induction false} BitAndBits(a: nat, b: nat, i: nat)
    ensures Bit(BitAnd(a, b), i) <==> Bit(a, i) && Bit(b, i)
    decreases i
  {
    if a == 0 || b == 0 {
      ZeroBits(i);
    } else {
      var low := (a % 2) * (b % 2);
      assert 0 <= low <= 1 && (low == 1 <==> a % 2 == 1 && b % 2 == 1);
      assert BitAnd(a, b) / 2 == BitAnd(a / 2, b / 2);
      if i != 0 {
        BitAndBits(a / 2, b / 2, i - 1);
      }
    }
  }

  /** A run of `width` ones starting at bit `lane`. */
  function RunOfOnes(width: nat, lane: nat): nat {
    var ones: nat := Pow2(width) - 1;
    Product(ones, Pow2(lane));
    ones * Pow2(lane)
  }

  lemma {:induction false} RunOfOnesBits(width: nat, lane: nat, i: nat)
    ensures Bit(RunOfOnes(width, lane), i) <==> lane <= i < lane + width
    decreases lane + width + i
  {
    if lane > 0 {
      assert RunOfOnes(width, lane) == 2 * RunOfOnes(width, lane - 1) by {
        assert (Pow2(width) - 1) * (2 * Pow2(lane - 1)) == 2 * ((Pow2(width) - 1) * Pow2(lane - 1));
      }
      if i > 0 {
        RunOfOnesBits(width, lane - 1, i - 1);
      }
    } else if width > 0 {
      assert RunOfOnes(width, 0) == 2 * RunOfOnes(width - 1, 0) + 1;
      if i > 0 {
        RunOfOnesBits(width - 1, 0, i - 1);
      }
    } else {
      ZeroBits(i);
    }
  }

  lemma Pow2Halves(n: nat)
    requires n > 1
    ensures IsPow2(n) <==> n % 2 == 0 && IsPow2(n / 2)
  {
    if n % 2 == 0 && IsPow2(n / 2) {
      var k: nat :| Pow2(k) == n / 2;
      assert Pow2(k + 1) == n;
    }
    if IsPow2(n) {
      var k: nat :| Pow2(k) == n;
      assert Pow2(k - 1) == n / 2;
    }
  }

  /** The test `n & (n-1) == 0` decides whether n is a power of two. */
  lemma {:induction false} AndWithPredecessor(n: nat)
    requires n > 0
    ensures BitAnd(n, n - 1) == 0 <==> IsPow2(n)
  {
    if n == 1 {
      assert Pow2(0) == 1;
    } else {
      Pow2Halves(n);
      if n % 2 == 0 {
        assert (n - 1) / 2 == n / 2 - 1;
        AndWithPredecessor(n / 2);
      } else {
        AndWithSelf(n / 2);
      }
    }
  }

  lemma {:induction false} AndWithSelf(n: nat)
    ensures BitAnd(n, n) == n
  {
    if n != 0 {
      AndWithSelf(n / 2);
    }
  }

  lemma HalveRight(q: nat, w: nat, p: nat)
    requires q * w == 2 * p && w % 2 == 0
    ensures q * (w / 2) == p
  {
    var h := w / 2;
    assert q * (2 * h) == 2 * (q * h);
  }

  lemma HalveLeft(q: nat, w: nat, p: nat)
    requires q * w == 2 * p && w % 2 == 1
    ensures (q / 2) * w == p
  {
    var h, g := q / 2, w / 2;
    assert (2 * h) * w == 2 * (h * w);
    assert (2 * h + 1) * (2 * g + 1) == 2 * (2 * (h * g) + h + g) + 1;
    assert q % 2 == 0;
  }

  /** A divisor of a power of two is one. */
  lemma {:induction false} DivisorOfPow2(w: nat, k: nat)
    requires w > 0 && Pow2(k) % w == 0
    ensures IsPow2(w)
    decreases k
  {
    if w == 1 {
      assert Pow2(0) == 1;
    } else if k == 0 {
      assert false;
    } else {
      var q := Pow2(k) / w;
      assert q * w == 2 * Pow2(k - 1);
      if w % 2 == 0 {
        HalveRight(q, w, Pow2(k - 1));
        MultipleMod(q, w / 2);
        DivisorOfPow2(w / 2, k - 1);
        var j: nat :| Pow2(j) == w / 2;
        assert Pow2(j + 1) == w;
      } else {
        HalveLeft(q, w, Pow2(k - 1));
        MultipleMod(q / 2, w);
        DivisorOfPow2(w, k - 1);
      }
    }
  }

  // ---------- division ----------

  lemma Product(x: int, n: int)
    requires x >= 0 && n >= 0
    ensures x * n >= 0
    ensures x >= 1 ==> x * n >= n
  {
    if x >= 1 {
      assert x * n == (x - 1) * n + n;
      NonNegative(x - 1, n);
    } else {
      NonNegative(x, n);
    }
  }

  lemma NonNegative(x: int, n: int)
    requires x >= 0 && n >= 0
    ensures x * n >= 0
  {
  }

  lemma MultipleMod(k: nat, n: nat)
    requires n > 0
    ensures k * n >= 0 && (k * n) % n == 0
  {
    NonNegative(k, n);
    DivModUnique(k * n, n, k, 0);
  }

  /** The quotient cannot be smaller when the remainder is in range. */
  lemma QuotientLow(n: nat, q: int, r: int, q': int, r': int)
    requires n > 0 && q * n + r == q' * n + r' && 0 <= r < n && 0 <= r' < n
    ensures q' <= q
  {
    assert (q' - q) * n == q' * n - q * n;
    if q' > q {
      Product(q' - q, n);
    }
  }

  /** Quotient and remainder are unique. */
  lemma DivModUnique(a: nat, n: nat, q: nat, r: nat)
    requires n > 0 && a == q * n + r && r < n
    ensures a / n == q && a % n == r
  {
    assert a == (a / n) * n + a % n;
    QuotientLow(n, q, r, a / n, a % n);
    QuotientLow(n, a / n, a % n, q, r);
  }

  lemma SmallResidue(a: nat, m: nat)
    requires a < m
    ensures a % m == a
  {
  }

  /** Adding a multiple of the modulus changes nothing. */
  lemma ModAddMultiple(a: nat, k: nat, n: nat)
    requires n > 0
    ensures k * n >= 0 && (a + k * n) % n == a % n
  {
    NonNegative(k, n);
    var q, r := a / n, a % n;
    assert a + k * n == (q + k) * n + r;
    DivModUnique(a + k * n, n, q + k, r);
  }

  lemma Regroup(a: nat, q: nat, n: nat, r: nat, m: nat, w: nat)
    requires a == q * n + r && n == m * w
    ensures q * m >= 0 && a == r + (q * m) * w
  {
    NonNegative(q, m);
    assert q * (m * w) == (q * m) * w;
  }

  lemma DivMod(a: nat, n: nat)
    requires n > 0
    ensures a == (a / n) * n + a % n
  {
  }

  /** Reducing by a multiple of `w` first does not change the residue by `w`. */
  lemma ModOfMod(a: nat, n: nat, w: nat)
    requires n > 0 && w > 0 && n % w == 0
    ensures (a % n) % w == a % w
  {
    var q, m, r := a / n, n / w, a % n;
    DivMod(a, n);
    DivMod(n, w);
    Regroup(a, q, n, r, m, w);
    ModAddMultiple(r, q * m, w);
  }

  lemma Scale(p: nat, m: nat, q: nat)
    requires p > 0 && m < q
    ensures m * p < q * p
  {
    Product(q - m, p);
    assert (q - m) * p == q * p - m * p;
  }

  /** Wrapping does not disturb a residue when nothing wraps or the modulus divides 2^64. */
  lemma WrapThenMod(a: nat, n: nat)
    requires n > 0 && (a < WORD_RANGE || WORD_RANGE % n == 0)
    ensures Wrap(a) % n == a % n
  {
    if a < WORD_RANGE {
      SmallResidue(a, WORD_RANGE);
    } else {
      ModOfMod(a, WORD_RANGE, n);
    }
  }

  /** Residues of two numbers closer than the modulus differ. */
  lemma DistinctResidues(x: nat, y: nat, a: nat, b: nat, n: nat)
    requires n > 0 && a < b < a + n && x == a % n && y == b % n
    ensures x != y
  {
    if x == y {
      CloseCongruent(a, b, n);
    }
  }

  lemma ModAdd(a: nat, b: nat, n: nat)
    requires n > 0
    ensures ((a % n) + b) % n == (a + b) % n
  {
    ModAddMultiple((a % n) + b, a / n, n);
    assert a + b == ((a % n) + b) + (a / n) * n;
  }

  /** Multiples of `b` below a multiple of `b` leave room for a whole block. */
  lemma RoomForBlock(x: nat, m: nat, b: nat)
    requires x * b < m * b
    ensures x * b + b <= m * b
  {
    assert (x - m) * b == x * b - m * b;
    if x >= m {
      NonNegative(x - m, b);
    } else {
      NonNegative(m - x - 1, b);
      assert (m - x - 1) * b == m * b - x * b - b;
    }
  }

  lemma BlockBelow(r: nat, b: nat, n: nat)
    requires b > 0 && r < n && n % b == 0 && r % b == 0
    ensures r + b <= n
  {
    DivMod(r, b);
    DivMod(n, b);
    RoomForBlock(r / b, n / b, b);
  }

  lemma StepWithin(a: nat, j: nat, n: nat)
    requires n > 0 && a % n + j < n
    ensures (a + j) % n == a % n + j
  {
    DivMod(a, n);
    DivModUnique(a + j, n, a / n, a % n + j);
  }

  /** A block of `b` addresses starting at a multiple of `b` does not straddle
      a modulus that is a multiple of `b`. */
  lemma AlignedBlock(a: nat, j: nat, b: nat, n: nat)
    requires n > 0 && b > 0 && n % b == 0 && a % b == 0 && j < b
    ensures (a + j) % n == a % n + j
    ensures a % n + b <= n
    ensures (a % n) % b == 0
  {
    ModOfMod(a, n, b);
    BlockBelow(a % n, b, n);
    StepWithin(a, j, n);
  }

  /** Two numbers with the same residue that are closer than the modulus are equal. */
  lemma CloseCongruent(a: nat, b: nat, n: nat)
    requires n > 0 && a <= b < a + n && a % n == b % n
    ensures a == b
  {
    var qa, qb := a / n, b / n;
    assert b - a == qb * n - qa * n == (qb - qa) * n;
    assert (qa - qb) * n == -((qb - qa) * n);
    if qb > qa {
      Product(qb - qa, n);
    } else if qb < qa {
      Product(qa - qb, n);
    }
  }
}
