/** Binomial coefficients and the fair-coin distribution that the exact McNemar test is built on. */
module Binomial {

  /** The number of k-element subsets of an n-element set, by Pascal's rule. */
  ghost function Choose(n: nat, k: nat): nat
  {
    if k == 0 then 1
    else if n == 0 then 0
    else Choose(n - 1, k - 1) + Choose(n - 1, k)
  }

  /** 2 to the power -n. */
  ghost function HalfPow(n: nat): (r: real)
    ensures 0.0 < r <= 1.0
  {
    if n == 0 then 1.0 else HalfPow(n - 1) / 2.0
  }

  ghost function TwoToThe(n: nat): nat
  {
    if n == 0 then 1 else 2 * TwoToThe(n - 1)
  }

  /** Probability of exactly k heads in n fair tosses. */
  ghost function Mass(n: nat, k: nat): (r: real)
    ensures r >= 0.0
  {
    Choose(n, k) as real * HalfPow(n)
  }

  /** Probability of at most k heads. */
  ghost function LowerTail(n: nat, k: nat): real
  {
    if k == 0 then Mass(n, 0) else LowerTail(n, k - 1) + Mass(n, k)
  }

  lemma {:induction false} ChooseOutside(n: nat, k: nat)
    requires k > n
    ensures Choose(n, k) == 0
  {
    if n > 0 {
      ChooseOutside(n - 1, k - 1);
      ChooseOutside(n - 1, k);
    }
  }

  lemma {:induction false} ChoosePositive(n: nat, k: nat)
    requires k <= n
    ensures Choose(n, k) >= 1
  {
    if k > 0 {
      ChoosePositive(n - 1, k - 1);
    }
  }

  lemma {:induction false} ChooseDiagonal(n: nat)
    ensures Choose(n, n) == 1
  {
    if n > 0 {
      ChooseDiagonal(n - 1);
      ChooseOutside(n - 1, n);
    }
  }

  lemma {:induction false} ChooseOne(n: nat)
    ensures Choose(n, 1) == n
  {
    if n > 0 {
      ChooseOne(n - 1);
    }
  }

  /** C(n, k) = C(n, n - k). */
  lemma {:induction false} ChooseSymmetric(n: nat, k: nat)
    requires k <= n
    ensures Choose(n, k) == Choose(n, n - k)
  {
    if k == 0 || k == n {
      ChooseDiagonal(n);
    } else {
      ChooseSymmetric(n - 1, k - 1);
      ChooseSymmetric(n - 1, k);
    }
  }

  /** The ratio rule: (k + 1) C(n, k + 1) = (n - k) C(n, k). */
  lemma {:induction false} ChooseRatio(n: nat, k: nat)
    requires k <= n
    ensures (k + 1) * Choose(n, k + 1) == (n - k) * Choose(n, k)
  {
    if k == n {
      ChooseOutside(n, n + 1);
    } else if k == 0 {
      ChooseOne(n);
    } else {
      ChooseRatio(n - 1, k - 1);
      ChooseRatio(n - 1, k);
      RatioStep(n, k, Choose(n - 1, k - 1), Choose(n - 1, k), Choose(n - 1, k + 1));
    }
  }

  lemma RatioStep(n: int, k: int, a: int, b: int, c: int)
    requires k * b == (n - k) * a
    requires (k + 1) * c == (n - 1 - k) * b
    ensures (k + 1) * (b + c) == (n - k) * (a + b)
  {
    assert (k + 1) * (b + c) == k * b + b + (k + 1) * c;
    assert (n - 1 - k) * b == (n - k) * b - b;
    assert (n - k) * (a + b) == (n - k) * a + (n - k) * b;
  }

  /** Strictly rising on the lower half: C(n, i) < C(n, i + 1) when 2i + 1 < n. */
  lemma ChooseRises(n: nat, i: nat)
    requires 2 * i + 1 < n
    ensures Choose(n, i) < Choose(n, i + 1)
  {
    ChooseRatio(n, i);
    ChoosePositive(n, i);
    CrossMultiply(i + 1, n - i, Choose(n, i + 1), Choose(n, i));
  }

  lemma CrossMultiply(x: int, y: int, b: int, a: int)
    requires 0 < x < y && a >= 1 && x * b == y * a
    ensures a < b
  {
    assert (y - x) * a >= 1 by { PositiveProduct(y - x, a); }
    assert x * (b - a) == (y - x) * a;
  }

  lemma PositiveProduct(x: int, y: int)
    requires x >= 1 && y >= 1
    ensures x * y >= 1
  {
  }

  lemma {:induction false} ChooseRisesTo(n: nat, i: nat, j: nat)
    requires i < j && 2 * j <= n
    ensures Choose(n, i) < Choose(n, j)
    decreases j
  {
    ChooseRises(n, j - 1);
    if i < j - 1 {
      ChooseRisesTo(n, i, j - 1);
    }
  }

  /** Unimodality: C(n, i) <= C(n, k) exactly for i in the two outer tails that k cuts off. */
  lemma ChooseOrder(n: nat, k: nat, i: nat)
    requires 2 * k <= n && i <= n
    ensures Choose(n, i) <= Choose(n, k) <==> (i <= k || i >= n - k)
  {
    var m := if 2 * i <= n then i else n - i;
    if 2 * i > n {
      ChooseSymmetric(n, i);
    }
    if m < k {
      ChooseRisesTo(n, m, k);
    } else if k < m {
      ChooseRisesTo(n, k, m);
    }
  }

  lemma MassOrder(n: nat, k: nat, i: nat)
    requires 2 * k <= n && i <= n
    ensures Mass(n, i) <= Mass(n, k) <==> (i <= k || i >= n - k)
  {
    ChooseOrder(n, k, i);
    MassVersusChoose(n, i, k);
  }

  lemma MassVersusChoose(n: nat, i: nat, j: nat)
    ensures Mass(n, i) <= Mass(n, j) <==> Choose(n, i) <= Choose(n, j)
  {
    hide Choose, HalfPow;
    ScaleOrder(Choose(n, i), Choose(n, j), HalfPow(n), Mass(n, i), Mass(n, j));
  }

  lemma ScaleOrder(a: int, b: int, h: real, x: real, y: real)
    requires h > 0.0 && x == a as real * h && y == b as real * h
    ensures x <= y <==> a <= b
  {
    assert y - x == (b as real - a as real) * h;
  }

  lemma MassPositive(n: nat, k: nat)
    requires k <= n
    ensures Mass(n, k) > 0.0
  {
    ChoosePositive(n, k);
  }

  /** Pascal's rule for the distribution. */
  lemma MassStep(n: nat, k: nat)
    requires n > 0 && k > 0
    ensures Mass(n, k) == (Mass(n - 1, k - 1) + Mass(n - 1, k)) / 2.0
  {
    var a, b, h := Choose(n - 1, k - 1) as real, Choose(n - 1, k) as real, HalfPow(n - 1);
    assert (a + b) * (h / 2.0) == (a * h + b * h) / 2.0;
  }

  lemma {:induction false} LowerTailStep(n: nat, k: nat)
    requires n > 0
    ensures LowerTail(n, k) == (LowerTail(n - 1, k) + (if k == 0 then 0.0 else LowerTail(n - 1, k - 1))) / 2.0
  {
    if k > 0 {
      LowerTailStep(n, k - 1);
      MassStep(n, k);
    }
  }

  /** The masses sum to 1. */
  lemma {:induction false} MassesSumToOne(n: nat)
    ensures LowerTail(n, n) == 1.0
  {
    if n > 0 {
      MassesSumToOne(n - 1);
      LowerTailStep(n, n);
      ChooseOutside(n - 1, n);
    }
  }

  lemma {:induction false} LowerTailGrows(n: nat, j: nat, k: nat)
    requires j <= k
    ensures LowerTail(n, j) <= LowerTail(n, k)
    decreases k - j
  {
    if j < k {
      LowerTailGrows(n, j, k - 1);
    }
  }
}
