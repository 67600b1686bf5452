/** The exact two-sided McNemar test, in the two forms the repository holds: the doubled lower tail
    of `compare.rs` and the sum over no-likelier outcomes of `paired_mcnemar.py`. */
module McNemar {
  import opened Binomial

  ghost function Min(x: real, y: real): real { if x <= y then x else y }

  function MinNat(x: nat, y: nat): nat { if x <= y then x else y }

  /** The closed form min(1, 2 P(X <= k)). */
  ghost function DoubledTail(n: nat, k: nat): real
  {
    Min(1.0, 2.0 * LowerTail(n, MinNat(k, n)))
  }

  /** One term to the next: the factor (n - i) / (i + 1) turns C(n, i) / 2^n into C(n, i + 1) / 2^n. */
  lemma TermRatio(n: nat, i: nat)
    requires i < n
    ensures Mass(n, i) * ((n - i) as real / (i + 1) as real) == Mass(n, i + 1)
  {
    ChooseRatio(n, i);
    hide Choose, HalfPow;
    CrossMultiply(n - i, i + 1, Choose(n, i), Choose(n, i + 1), HalfPow(n));
  }

  lemma CrossMultiply(x: int, y: int, a: int, b: int, h: real)
    requires y > 0 && y * b == x * a
    ensures (a as real * h) * (x as real / y as real) == b as real * h
  {
  }

  /** The loop of `compare.rs`: each binomial term from the one before it, summed as it goes. */
  method McNemarExactP(n: nat, k: nat) returns (p: real)
    ensures p == DoubledTail(n, k)
  {
    if n == 0 {
      return 1.0;
    }
    var term := PowHalf(n);
    var sum := term;
    for i := 0 to MinNat(k, n)
      invariant term == Mass(n, i)
      invariant sum == LowerTail(n, i)
    {
      TermRatio(n, i);
      term := term * ((n - i) as real / (i + 1) as real);
      sum := sum + term;
    }
    p := if 2.0 * sum <= 1.0 then 2.0 * sum else 1.0;
  }

  method PowHalf(n: nat) returns (r: real)
    ensures r == HalfPow(n)
  {
    r := 1.0;
    for i := 0 to n
      invariant r == HalfPow(i)
    {
      r := r * 0.5;
    }
  }

  /** Sum of the masses at outcomes below m that do not exceed the cut. */
  ghost function SumBelow(n: nat, cut: real, m: nat): real
  {
    if m == 0 then 0.0
    else SumBelow(n, cut, m - 1) + (if Mass(n, m - 1) <= cut then Mass(n, m - 1) else 0.0)
  }

  /** The definition of `paired_mcnemar.py`, with its comparison tolerance as a parameter. */
  ghost function ExactTwoSidedP(b: nat, c: nat, tolerance: real): real
  {
    var n := b + c;
    if n == 0 then 1.0
    else Min(1.0, SumBelow(n, Mass(n, MinNat(b, c)) + tolerance, n + 1))
  }

  const TOLERANCE: real := 0.000000000001

  // ---- tails of the fair coin

  /** P(X <= k) + P(X <= n - k - 1) = 1. */
  lemma {:induction false} TailComplement(n: nat, k: nat)
    requires k < n
    ensures LowerTail(n, k) + LowerTail(n, n - k - 1) == 1.0
  {
    LowerTailStep(n, k);
    LowerTailStep(n, n - k - 1);
    MassesSumToOne(n - 1);
    if k < n - 1 {
      TailComplement(n - 1, k);
    }
    if k > 0 {
      TailComplement(n - 1, k - 1);
    }
  }

  lemma LowerTailStrict(n: nat, j: nat, k: nat)
    requires j < k <= n
    ensures LowerTail(n, j) < LowerTail(n, k)
  {
    LowerTailGrows(n, j, k - 1);
    MassPositive(n, k);
  }

  /** Twice the tail passes 1 exactly when k reaches the middle. */
  lemma DoubledTailVersusOne(n: nat, k: nat)
    requires 1 <= n && k <= n
    ensures 2.0 * LowerTail(n, k) <= 1.0 <==> 2 * k < n
    ensures 2.0 * LowerTail(n, k) == 1.0 <==> 2 * k + 1 == n
  {
    if k == n {
      MassesSumToOne(n);
    } else {
      TailComplement(n, k);
      var j := n - k - 1;
      if k < j {
        LowerTailStrict(n, k, j);
      } else if j < k {
        LowerTailStrict(n, j, k);
      }
    }
  }

  /** The p-value is a probability, and it is 1 exactly when the two discordant counts differ by at
      most one. */
  lemma PValueRange(a: nat, b: nat)
    ensures 0.0 < DoubledTail(a + b, MinNat(a, b)) <= 1.0
    ensures DoubledTail(a + b, MinNat(a, b)) == 1.0 <==> -1 <= a - b <= 1
  {
    var n, k := a + b, MinNat(a, b);
    MassPositive(n, 0);
    LowerTailGrows(n, 0, k);
    if n > 0 {
      DoubledTailVersusOne(n, k);
    }
  }

  /** Fewer disagreements on the smaller side is stronger evidence: the p-value strictly rises with
      k until it reaches 1. */
  lemma PValueRises(n: nat, j: nat, k: nat)
    requires j < k <= n
    ensures DoubledTail(n, j) <= DoubledTail(n, k)
    ensures 2 * j + 1 < n ==> DoubledTail(n, j) < DoubledTail(n, k)
  {
    LowerTailStrict(n, j, k);
    DoubledTailVersusOne(n, j);
  }

  // ---- the two definitions

  lemma {:induction false} SumBelowAll(n: nat, cut: real, m: nat)
    requires 1 <= m <= n + 1
    requires forall i: nat :: i <= n ==> Mass(n, i) <= cut
    ensures SumBelow(n, cut, m) == LowerTail(n, m - 1)
  {
    if m > 1 {
      SumBelowAll(n, cut, m - 1);
    }
  }

  /** With the cut at the k-th mass, the sum collects the left tail, skips the middle, then collects
      the mirrored right tail. */
  lemma {:induction false} SumBelowTails(n: nat, k: nat, m: nat)
    requires 2 * k < n && m <= n + 1
    ensures SumBelow(n, Mass(n, k), m) ==
            if m == 0 then 0.0
            else if m <= k + 1 then LowerTail(n, m - 1)
            else if m <= n - k then LowerTail(n, k)
            else 2.0 * LowerTail(n, k) - (if m == n + 1 then 0.0 else LowerTail(n, n - m))
  {
    if m > 0 {
      SumBelowTails(n, k, m - 1);
      MassOrder(n, k, m - 1);
      if m > n - k {
        MirrorMass(n, m);
        assert m - 1 >= n - k;
        assert SumBelow(n, Mass(n, k), m) == SumBelow(n, Mass(n, k), m - 1) + Mass(n, n - m + 1);
      } else if m > k + 1 {
        assert SumBelow(n, Mass(n, k), m) == SumBelow(n, Mass(n, k), m - 1);
      } else {
        assert SumBelow(n, Mass(n, k), m) == SumBelow(n, Mass(n, k), m - 1) + Mass(n, m - 1);
      }
    }
  }

  lemma MirrorMass(n: nat, m: nat)
    requires 1 <= m <= n + 1
    ensures Mass(n, m - 1) == Mass(n, n - m + 1)
    ensures Mass(n, n - m + 1) == LowerTail(n, n - m + 1) - (if m == n + 1 then 0.0 else LowerTail(n, n - m))
  {
    ChooseSymmetric(n, m - 1);
    assert n - (m - 1) == n - m + 1;
  }

  /** Main result: without its tolerance, the Python definition is the Rust one, for all discordant
      counts. */
  lemma DefinitionsAgree(b: nat, c: nat)
    ensures ExactTwoSidedP(b, c, 0.0) == DoubledTail(b + c, MinNat(b, c))
  {
    var n, k := b + c, MinNat(b, c);
    if n > 0 {
      DoubledTailVersusOne(n, k);
      if 2 * k < n {
        SumBelowTails(n, k, n + 1);
      } else {
        forall i: nat | i <= n ensures Mass(n, i) <= Mass(n, k) {
          MassOrder(n, k, i);
        }
        SumBelowAll(n, Mass(n, k), n + 1);
        MassesSumToOne(n);
      }
    }
  }

  lemma {:induction false} SumBelowCuts(n: nat, lo: real, hi: real, m: nat)
    requires lo <= hi && m <= n + 1
    ensures SumBelow(n, lo, m) <= SumBelow(n, hi, m)
    ensures SumBelow(n, lo, m) == SumBelow(n, hi, m)
            <==> forall i: nat :: i < m ==> !(lo < Mass(n, i) <= hi)
  {
    if m > 0 {
      SumBelowCuts(n, lo, hi, m - 1);
      MassPositive(n, m - 1);
      var step := lo < Mass(n, m - 1) <= hi;
      if step {
        assert SumBelow(n, lo, m) < SumBelow(n, hi, m);
      }
    }
  }

  lemma {:induction false} SumBelowAtMostTail(n: nat, cut: real, m: nat)
    requires 1 <= m
    ensures SumBelow(n, cut, m) <= LowerTail(n, m - 1)
  {
    if m > 1 {
      SumBelowAtMostTail(n, cut, m - 1);
    }
  }

  /** The least mass above the k-th one is its right-hand neighbour. */
  lemma NextMass(n: nat, k: nat, i: nat)
    requires 2 * k + 1 < n && i <= n && Mass(n, i) > Mass(n, k)
    ensures Mass(n, i) >= Mass(n, k + 1)
  {
    MassOrder(n, k, i);
    var m := if 2 * i <= n then i else n - i;
    if 2 * i > n {
      ChooseSymmetric(n, i);
    }
    MassOrder(n, m, k + 1);
  }

  /** The p-value does not determine the counts, below 1 either: four to nothing and six to one have the
      same. */
  lemma PValuesCoincide()
    ensures DoubledTail(4, 0) == DoubledTail(7, 1) == 0.125
  {
    assert HalfPow(2) == 0.25 && HalfPow(4) == 0.0625 && HalfPow(6) == 0.015625 && HalfPow(7) == 0.0078125;
    hide HalfPow;
    OneSidedMasses(4);
    OneSidedMasses(7);
  }

  /** With a tolerance the Python p-value is never the smaller one, and it is the Rust p-value exactly
      when the counts are within one of each other or the next mass clears the tolerance. */
  lemma ToleranceEffect(b: nat, c: nat, tolerance: real)
    requires tolerance >= 0.0
    ensures ExactTwoSidedP(b, c, tolerance) >= DoubledTail(b + c, MinNat(b, c))
    ensures var n, k := b + c, MinNat(b, c);
            ExactTwoSidedP(b, c, tolerance) == DoubledTail(n, k)
            <==> (2 * k + 1 >= n || Mass(n, k + 1) > Mass(n, k) + tolerance)
  {
    var n, k := b + c, MinNat(b, c);
    DefinitionsAgree(b, c);
    if n > 0 {
      var cut := Mass(n, k);
      SumBelowCuts(n, cut, cut + tolerance, n + 1);
      SumBelowAtMostTail(n, cut, n + 1);
      SumBelowAtMostTail(n, cut + tolerance, n + 1);
      MassesSumToOne(n);
      if 2 * k + 1 >= n {
        forall i: nat | i < n + 1 ensures Mass(n, i) <= cut {
          MassOrder(n, k, i);
        }
      } else {
        MassOrder(n, k, k + 1);
        forall i: nat | i < n + 1 && cut < Mass(n, i) ensures Mass(n, i) >= Mass(n, k + 1) {
          NextMass(n, k, i);
        }
      }
    }
  }

  lemma HalfPowTen(n: nat)
    ensures HalfPow(n + 10) == HalfPow(n) / 1024.0
  {
    assert HalfPow(n + 5) == HalfPow(n) / 32.0 by {
      assert HalfPow(n + 2) == HalfPow(n) / 4.0;
      assert HalfPow(n + 4) == HalfPow(n + 2) / 4.0;
    }
    assert HalfPow(n + 10) == HalfPow(n + 5) / 32.0 by {
      assert HalfPow(n + 7) == HalfPow(n + 5) / 4.0;
      assert HalfPow(n + 9) == HalfPow(n + 7) / 4.0;
    }
  }

  /** The tolerance the script ships is not harmless: on fifty or more questions that one arm alone
      answers correctly, the two p-values differ. */
  lemma ToleranceDiffers(n: nat)
    requires n >= 50
    ensures ExactTwoSidedP(0, n, TOLERANCE) > DoubledTail(n, 0)
  {
    ToleranceEffect(0, n, TOLERANCE);
    OneSidedMasses(n);
    TinyMass(n);
  }

  lemma {:induction false} TinyMass(n: nat)
    requires n >= 50
    ensures (n - 1) as real * HalfPow(n) <= TOLERANCE
  {
    if n == 50 {
      HalfPowFifty();
    } else {
      TinyMass(n - 1);
    }
  }

  lemma OneSidedMasses(n: nat)
    ensures Mass(n, 0) == HalfPow(n) && Mass(n, 1) == n as real * HalfPow(n)
  {
    ChooseOne(n);
  }

  lemma HalfPowFifty()
    ensures 49.0 * HalfPow(50) <= TOLERANCE
  {
    HalfPowTen(0);
    HalfPowTen(10);
    HalfPowTen(20);
    HalfPowTen(30);
    HalfPowTen(40);
    assert HalfPow(20) == 1.0 / 1048576.0;
    assert HalfPow(40) == 1.0 / 1099511627776.0;
  }
}
