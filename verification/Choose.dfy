/** Binomial coefficients, and the running product that computes them without leaving the integers a
    double represents exactly. */
module Choose {

  const MAX_EXACT_N := 50
  const MAX_SAFE_INTEGER := 0x1F_FFFF_FFFF_FFFF

  function Binomial(n: nat, k: nat): nat {
    if k == 0 then 1 else if n == 0 then 0 else Binomial(n - 1, k - 1) + Binomial(n - 1, k)
  }

  lemma {:induction false} BinomialBeyond(n: nat, k: nat)
    requires k > n
    ensures Binomial(n, k) == 0
  {
    if n > 0 {
      BinomialBeyond(n - 1, k - 1);
      BinomialBeyond(n - 1, k);
    }
  }

  lemma {:induction false} BinomialPositive(n: nat, k: nat)
    requires k <= n
    ensures Binomial(n, k) > 0
  {
    if k > 0 {
      BinomialPositive(n - 1, k - 1);
    }
  }

  lemma {:induction false} BinomialDiagonal(n: nat)
    ensures Binomial(n, n) == 1
  {
    if n > 0 {
      BinomialBeyond(n - 1, n);
      BinomialDiagonal(n - 1);
    }
  }

  lemma {:induction false} BinomialSymmetric(n: nat, k: nat)
    requires k <= n
    ensures Binomial(n, k) == Binomial(n, n - k)
  {
    if k == n {
      BinomialDiagonal(n);
    } else if k == 0 {
      BinomialDiagonal(n);
    } else {
      BinomialSymmetric(n - 1, k - 1);
      BinomialSymmetric(n - 1, k);
    }
  }

  /** `k * C(n, k) == n * C(n - 1, k - 1)`: why each division of the running product is exact. */
  lemma {:induction false} Absorption(n: nat, k: nat)
    requires 0 < k && 0 < n
    ensures k * Binomial(n, k) == n * Binomial(n - 1, k - 1)
  {
    if n == 1 {
      if k > 1 {
        BinomialBeyond(0, k - 1);
        BinomialBeyond(1, k);
      } else {
        assert Binomial(0, 0) == 1 && Binomial(0, 1) == 0;
      }
    } else if k == 1 {
      Absorption(n - 1, 1);
    } else {
      Absorption(n - 1, k);
      Absorption(n - 1, k - 1);
      AbsorptionStep(n, k, Binomial(n - 1, k), Binomial(n - 1, k - 1), Binomial(n - 2, k - 1), Binomial(n - 2, k - 2));
    }
  }

  lemma AbsorptionStep(n: nat, k: nat, a: nat, b: nat, c: nat, d: nat)
    requires n > 1 && k > 1
    requires k * a == (n - 1) * c && (k - 1) * b == (n - 1) * d && b == c + d
    ensures k * (b + a) == n * b
  {
    assert k * b == (n - 1) * d + b;
  }

  function Pow2(e: nat): nat {
    if e == 0 then 1 else 2 * Pow2(e - 1)
  }

  /** No binomial coefficient of a row `n >= 5` exceeds 5/16 of the row's total. */
  lemma {:induction false} BinomialBound(n: nat, k: nat)
    requires n >= 5
    ensures 16 * Binomial(n, k) <= 5 * Pow2(n)
  {
    if n == 5 {
      RowFive(k);
      assert Pow2(5) == 32 by { assert Pow2(2) == 4; assert Pow2(4) == 16; }
    } else if k == 0 {
      BinomialBound(n - 1, 0);
    } else {
      BinomialBound(n - 1, k - 1);
      BinomialBound(n - 1, k);
    }
  }

  lemma RowTwo(k: nat)
    ensures Binomial(2, k) == if k == 0 || k == 2 then 1 else if k == 1 then 2 else 0
  {
    if k > 2 {
      BinomialBeyond(2, k);
    } else {
      BinomialBeyond(1, 2);
      BinomialDiagonal(1);
    }
  }

  lemma RowThree(k: nat)
    ensures Binomial(3, k) == if k == 0 || k == 3 then 1 else if k < 3 then 3 else 0
  {
    RowTwo(k);
    if k > 0 {
      RowTwo(k - 1);
    }
  }

  lemma RowFour(k: nat)
    ensures Binomial(4, k) == if k == 0 || k == 4 then 1 else if k == 2 then 6 else if k < 4 then 4 else 0
  {
    RowThree(k);
    if k > 0 {
      RowThree(k - 1);
    }
  }

  lemma RowFive(k: nat)
    ensures Binomial(5, k) <= 10
  {
    RowFour(k);
    if k > 0 {
      RowFour(k - 1);
    }
  }

  lemma Pow2Table()
    ensures Pow2(49) == 0x2_0000_0000_0000 && Pow2(50) == 0x4_0000_0000_0000
  {
    assert Pow2(4) == 16 by { assert Pow2(2) == 4; }
    assert Pow2(8) == 256 by { assert Pow2(6) == 64; }
    assert Pow2(12) == 0x1000 by { assert Pow2(10) == 0x400; }
    assert Pow2(16) == 0x1_0000 by { assert Pow2(14) == 0x4000; }
    assert Pow2(20) == 0x10_0000 by { assert Pow2(18) == 0x4_0000; }
    assert Pow2(24) == 0x100_0000 by { assert Pow2(22) == 0x40_0000; }
    assert Pow2(28) == 0x1000_0000 by { assert Pow2(26) == 0x400_0000; }
    assert Pow2(32) == 0x1_0000_0000 by { assert Pow2(30) == 0x4000_0000; }
    assert Pow2(36) == 0x10_0000_0000 by { assert Pow2(34) == 0x4_0000_0000; }
    assert Pow2(40) == 0x100_0000_0000 by { assert Pow2(38) == 0x40_0000_0000; }
    assert Pow2(44) == 0x1000_0000_0000 by { assert Pow2(42) == 0x400_0000_0000; }
    assert Pow2(48) == 0x1_0000_0000_0000 by { assert Pow2(46) == 0x4000_0000_0000; }
  }

  lemma {:induction false} Pow2Monotone(m: nat, n: nat)
    requires m <= n
    ensures Pow2(m) <= Pow2(n)
  {
    if m < n {
      Pow2Monotone(m, n - 1);
    }
  }

  /** Every coefficient up to the exact ceiling, even multiplied by 50, is a safe integer. */
  lemma BinomialIsSafe(n: nat, k: nat)
    requires n <= MAX_EXACT_N
    ensures Binomial(n, k) <= MAX_SAFE_INTEGER
    ensures n < MAX_EXACT_N ==> MAX_EXACT_N * Binomial(n, k) <= MAX_SAFE_INTEGER
  {
    if n < 5 {
      BinomialGrows(n, 5, k);
      RowFive(k);
    } else {
      BinomialBound(n, k);
      Pow2Table();
      Pow2Monotone(n, if n < 50 then 49 else 50);
    }
  }

  lemma {:induction false} BinomialGrows(m: nat, n: nat, k: nat)
    requires m <= n
    ensures Binomial(m, k) <= Binomial(n, k)
  {
    if m < n {
      BinomialGrows(m, n - 1, k);
    }
  }

  /** `choose(n, k)`. Every product it forms is a safe integer and every division is exact. */
  method ChooseExact(n: nat, k: int) returns (r: nat)
    requires n <= MAX_EXACT_N
    ensures r == if 0 <= k <= n then Binomial(n, k) else 0
    ensures r <= MAX_SAFE_INTEGER
  {
    hide Binomial;
    if k < 0 || k > n {
      return 0;
    }
    var j := if k <= n - k then k else n - k;
    r := 1;
    RowStarts(n - j);
    for i := 1 to j + 1
      invariant r == Binomial(n - j + i - 1, i - 1)
    {
      var product := r * (n - j + i);
      StepIsExact(n, j, i, r, product);
      assert product <= MAX_SAFE_INTEGER && product % i == 0;
      r := product / i;
    }
    BinomialSymmetric(n, k);
    BinomialIsSafe(n, k);
  }

  lemma RowStarts(n: nat)
    ensures Binomial(n, 0) == 1
  {
  }

  /** One step of the running product: the dividend is safe, and a multiple of the divisor. */
  lemma StepIsExact(n: nat, j: nat, i: nat, r: nat, product: nat)
    requires 1 <= i <= j <= n <= MAX_EXACT_N
    requires r == Binomial(n - j + i - 1, i - 1) && product == r * (n - j + i)
    ensures product <= MAX_SAFE_INTEGER && product % i == 0
    ensures product / i == Binomial(n - j + i, i)
  {
    hide Binomial;
    var q := Binomial(n - j + i, i);
    Absorption(n - j + i, i);
    ExactQuotient(i, q, product);
    BinomialIsSafe(n - j + i - 1, i - 1);
    ProductBelow(r, n - j + i, MAX_EXACT_N);
  }

  lemma ExactQuotient(i: nat, q: nat, product: nat)
    requires i > 0 && product == i * q
    ensures product % i == 0 && product / i == q
  {
    var e, rest := product / i, product % i;
    assert product == i * e + rest;
    NoRemainder(i, q - e, rest);
  }

  lemma NoRemainder(i: int, d: int, rest: int)
    requires 0 <= rest < i && i * d == rest
    ensures d == 0
  {
    Multiple(i, d);
  }

  lemma Multiple(i: int, d: int)
    requires i > 0
    ensures d >= 1 ==> i * d >= i
    ensures d <= -1 ==> i * d <= -i
  {
    if d >= 1 {
      assert i * (d - 1) >= 0;
    } else if d <= -1 {
      assert i * (-d - 1) >= 0;
    }
  }

  lemma ProductBelow(r: nat, x: nat, y: nat)
    requires x <= y
    ensures r * x <= y * r
  {
  }
}
