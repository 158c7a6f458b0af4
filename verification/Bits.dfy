/** Bit arithmetic on 32-bit words as the arena code uses it: masks, and js/src/jsbit.h's logarithms. */
module Bits {

  function Pow2(k: nat): (r: nat)
    ensures r >= 1
  {
    if k == 0 then 1 else 2 * Pow2(k - 1)
  }

  /** Bitwise "and" of two naturals. */
  function And(a: nat, b: nat): nat {
    if a == 0 || b == 0 then 0 else 2 * And(a / 2, b / 2) + (a % 2) * (b % 2)
  }

  /** Bitwise "and not": the bits of a outside b. */
  function AndNot(a: nat, b: nat): int {
    a - And(a, b)
  }

  /** Bitwise "or". */
  function Or(a: nat, b: nat): int {
    a + b - And(a, b)
  }

  lemma {:induction false} AndSelf(a: nat)
    ensures And(a, a) == a
  {
    if a != 0 {
      AndSelf(a / 2);
      assert a % 2 == 0 || a % 2 == 1;
    }
  }

  lemma {:induction false} Pow2Adds(j: nat, k: nat)
    ensures Pow2(j + k) == Pow2(j) * Pow2(k)
  {
    if k != 0 {
      Pow2Adds(j, k - 1);
    }
  }

  /** Masking with 2^k - 1 takes the remainder by 2^k. */
  lemma {:induction false} AndMask(x: nat, k: nat)
    ensures And(x, Pow2(k) - 1) == x % Pow2(k)
  {
    if x == 0 {
      QuotientIs(0, Pow2(k), 0, 0);
    } else if k != 0 {
      AndMask(x / 2, k - 1);
      AndMaskStep(x, Pow2(k - 1));
    }
  }

  lemma AndMaskStep(x: nat, m: nat)
    requires 0 < x && 0 < m && And(x / 2, m - 1) == (x / 2) % m
    ensures And(x, 2 * m - 1) == x % (2 * m)
  {
    assert (2 * m - 1) / 2 == m - 1 && (2 * m - 1) % 2 == 1;
    DoubleRemainder(x, m);
  }

  lemma DoubleRemainder(x: nat, m: nat)
    requires 0 < m
    ensures x % (2 * m) == 2 * ((x / 2) % m) + x % 2
  {
    var h, q, r := x / 2, (x / 2) / m, (x / 2) % m;
    assert h == q * m + r;
    assert x == 2 * h + x % 2 == q * (2 * m) + (2 * r + x % 2) by {
      assert 2 * (q * m) == q * (2 * m);
    }
    QuotientIs(x, 2 * m, q, 2 * r + x % 2);
  }

  lemma QuotientIs(x: nat, d: nat, q: nat, r: nat)
    requires 0 < d && x == q * d + r && r < d
    ensures x / d == q && x % d == r
  {
    var q', r' := x / d, x % d;
    assert x == d * q' + r';
    assert (q - q') * d == r' - r by {
      assert (q - q') * d == q * d - d * q';
    }
    SmallMultiple(q - q', d);
  }

  lemma SmallMultiple(a: int, d: nat)
    requires 0 < d && 0 - d < a * d < d
    ensures a == 0
  {
  }

  lemma MulMonotone(a: int, b: int, d: nat)
    requires a <= b
    ensures a * d <= b * d
  {
  }

  lemma MulCancel(a: int, b: int, d: nat)
    requires 0 < d && d * a <= d * b
    ensures a <= b
  {
    if b + 1 <= a {
      MulMonotone(b + 1, a, d);
    }
  }

  predicate IsPow2(n: nat) {
    n == 1 || (n != 0 && n % 2 == 0 && IsPow2(n / 2))
  }

  lemma {:induction false} Pow2IsPow2(k: nat)
    ensures IsPow2(Pow2(k))
  {
    if k != 0 {
      Pow2IsPow2(k - 1);
    }
  }

  /** The test j & (j - 1) sees whether j has more than one bit. */
  lemma {:induction false} AndPredecessor(j: nat)
    requires j != 0
    ensures And(j, j - 1) == 0 <==> IsPow2(j)
  {
    if j % 2 == 0 {
      AndPredecessor(j / 2);
      assert (j - 1) / 2 == j / 2 - 1;
    } else {
      AndSelf(j / 2);
      if j != 1 {
        assert And(j, j - 1) == 2 * And(j / 2, (j - 1) / 2) + (j % 2) * ((j - 1) % 2);
      }
    }
  }

  /** A power of two strictly between two neighbouring powers of two does not exist. */
  lemma {:induction false} NoPow2Between(n: nat, k: nat)
    requires Pow2(k) <= n < Pow2(k + 1)
    ensures IsPow2(n) <==> n == Pow2(k)
  {
    if k == 0 {
    } else {
      Pow2IsPow2(k);
      if n % 2 == 0 {
        NoPow2Between(n / 2, k - 1);
      }
    }
  }

  /** j is n shifted right by log2 bits. */
  ghost predicate Shifted(n: nat, j: nat, log2: nat) {
    Pow2(log2) * j <= n < Pow2(log2) * (j + 1)
  }

  lemma MulAssociates(a: int, b: int, c: int)
    ensures (a * b) * c == a * (b * c)
  {
  }

  lemma ShiftBounds(n: nat, j: nat, L: nat, K: nat, q: nat, m: nat)
    requires L * j <= n < L * (j + 1) && K * q <= j && j + 1 <= K * (q + 1) && m == L * K
    ensures m * q <= n < m * (q + 1)
  {
    MulAssociates(L, K, q);
    MulAssociates(L, K, q + 1);
    MulMonotone(K * q, j, L);
    MulMonotone(j + 1, K * (q + 1), L);
  }

  lemma DivisionBounds(j: nat, K: nat)
    requires 0 < K
    ensures K * (j / K) <= j && j + 1 <= K * (j / K + 1)
  {
  }

  lemma ShiftFurther(n: nat, j: nat, log2: nat, k: nat)
    requires Shifted(n, j, log2)
    ensures Shifted(n, j / Pow2(k), log2 + k)
  {
    hide Pow2;
    var q := j / Pow2(k);
    DivisionBounds(j, Pow2(k));
    Pow2Adds(log2, k);
    ShiftBounds(n, j, Pow2(log2), Pow2(k), q, Pow2(log2 + k));
  }

  lemma ShiftShrinks(j: nat, k: nat)
    requires j < Pow2(2 * k)
    ensures j / Pow2(k) < Pow2(k)
  {
    Pow2Adds(k, k);
    DivisionBounds(j, Pow2(k));
    if Pow2(k) <= j / Pow2(k) {
      MulMonotone(Pow2(k), j / Pow2(k), Pow2(k));
    }
  }

  /** One line of the macros: shift j right by k bits if that leaves something. */
  method ShiftIf(ghost n: nat, j: nat, log2: nat, k: nat) returns (j': nat, log2': nat)
    requires Shifted(n, j, log2) && 1 <= j < Pow2(2 * k)
    ensures Shifted(n, j', log2') && 1 <= j' < Pow2(k)
  {
    hide Shifted, Pow2;
    j', log2' := j, log2;
    if j / Pow2(k) != 0 {
      ShiftFurther(n, j, log2, k);
      ShiftShrinks(j, k);
      j', log2' := j / Pow2(k), log2 + k;
    } else {
      DivisionBounds(j, Pow2(k));
    }
  }

  /** JS_FLOOR_LOG2 on a 32-bit word. */
  method FloorLog2(n: nat) returns (log2: nat)
    requires n < Pow2(32)
    ensures n == 0 ==> log2 == 0
    ensures n != 0 ==> Pow2(log2) <= n < Pow2(log2 + 1)
  {
    hide Pow2, Shifted;
    if n == 0 {
      return 0;
    }
    var j := n;
    log2 := 0;
    ShiftedByNothing(n);
    j, log2 := ShiftIf(n, j, log2, 16);
    j, log2 := ShiftIf(n, j, log2, 8);
    j, log2 := ShiftIf(n, j, log2, 4);
    j, log2 := ShiftIf(n, j, log2, 2);
    j, log2 := ShiftIf(n, j, log2, 1);
    ShiftedToOne(n, j, log2);
  }

  lemma ShiftedByNothing(n: nat)
    ensures Shifted(n, n, 0)
  {
  }

  lemma ShiftedToOne(n: nat, j: nat, log2: nat)
    requires Shifted(n, j, log2) && 1 <= j < Pow2(1)
    ensures Pow2(log2) <= n < Pow2(log2 + 1)
  {
  }

  /** JS_CEILING_LOG2 on a 32-bit word. */
  method CeilingLog2(n: nat) returns (log2: nat)
    requires n < Pow2(32)
    ensures n <= 1 ==> log2 == 0
    ensures 1 < n ==> 1 <= log2 && Pow2(log2 - 1) < n <= Pow2(log2)
  {
    hide Pow2, And;
    // for n = 0 the predecessor wraps around to all ones, and the test sees 0
    var moreBits := n != 0 && And(n, n - 1) != 0;
    log2 := FloorLog2(n);
    if n != 0 {
      CeilingFromFloor(n, log2);
    }
    if moreBits {
      log2 := log2 + 1;
    }
  }

  lemma CeilingFromFloor(n: nat, f: nat)
    requires 1 <= n && Pow2(f) <= n < Pow2(f + 1)
    ensures And(n, n - 1) == 0 <==> n == Pow2(f)
    ensures n == 1 ==> f == 0
    ensures n == Pow2(f) && 1 < n ==> 1 <= f && Pow2(f - 1) < n
  {
    AndPredecessor(n);
    NoPow2Between(n, f);
  }
}
