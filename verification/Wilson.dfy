/** The Wilson score interval over exact reals, in the two forms the repository holds: the lower bound
    of `ledger_stats.rs` and the interval of `compare.rs`. The square root is any non-negative number
    with the given square. */
module Wilson {

  /** What is under the square root. */
  ghost function Radicand(used: nat, n: nat, z: real): real
    requires n > 0
  {
    var p := used as real / n as real;
    p * (1.0 - p) / n as real + z * z / (4.0 * n as real * n as real)
  }

  ghost predicate IsRoot(root: real, x: real)
  {
    root >= 0.0 && root * root == x
  }

  function Clamp(x: real, lo: real, hi: real): real
    requires lo <= hi
  {
    if x < lo then lo else if x > hi then hi else x
  }

  /** The bound before clamping. */
  function RawLower(used: nat, deliveries: nat, z: real, root: real): real
    requires deliveries > 0
  {
    var n := deliveries as real;
    var p := used as real / n;
    var z2 := z * z;
    var denom := 1.0 + z2 / n;
    var centre := p + z2 / (2.0 * n);
    var margin := z * root;
    Positive(z, n);
    (centre - margin) / denom
  }

  /** `wilson_lower_bound_z`, given the square root it takes. */
  function LowerBound(used: nat, deliveries: nat, z: real, root: real): real
  {
    if deliveries == 0 || used > deliveries then 0.0
    else Clamp(RawLower(used, deliveries, z, root), 0.0, 1.0)
  }

  /** `wilson_ci_95`, with its z as a parameter. */
  function Interval(correct: nat, n: nat, z: real, root: real): (real, real)
  {
    if n == 0 then (0.0, 1.0)
    else
      var nf := n as real;
      var p := correct as real / nf;
      var z2 := z * z;
      var denom := 1.0 + z2 / nf;
      Positive(z, nf);
      var center := (p + z2 / (2.0 * nf)) / denom;
      var half := z * root / denom;
      (if center - half >= 0.0 then center - half else 0.0,
       if center + half <= 1.0 then center + half else 1.0)
  }

  lemma Positive(z: real, n: real)
    requires n > 0.0
    ensures 1.0 + z * z / n >= 1.0
  {
    Squares(z);
    assert z * z / n >= 0.0;
  }

  lemma Squares(x: real)
    ensures x * x >= 0.0
  {
    if x >= 0.0 {
      assert x * x >= 0.0;
    } else {
      assert (-x) * (-x) >= 0.0;
    }
  }

  lemma MulPositive(a: real, b: real)
    requires a > 0.0 && b > 0.0
    ensures a * b > 0.0
  {
  }

  lemma MulNonNegative(a: real, b: real)
    requires a >= 0.0 && b >= 0.0
    ensures a * b >= 0.0
  {
  }

  lemma ScaledOrder(a: real, x: real, y: real)
    requires a > 0.0 && a * x <= a * y
    ensures x <= y
  {
    if x > y {
      MulPositive(a, x - y);
    }
  }

  lemma CancelFactor(n: real, a: real, b: real)
    requires n > 0.0 && n * a == n * b
    ensures a == b
  {
    ScaledOrder(n, a, b);
    ScaledOrder(n, b, a);
  }

  // ---- the interval in normal form: with q = z^2 / n and m = z * root,
  // (1 + q) L = p + q / 2 - m, (1 + q) U = p + q / 2 + m and m^2 = q p (1 - p) + q^2 / 4

  function Rate(used: nat, n: nat): real
    requires n > 0
  {
    used as real / n as real
  }

  /** The upper end before clamping. */
  ghost function RawUpper(used: nat, n: nat, z: real, root: real): real
    requires n > 0
  {
    Positive(z, n as real);
    (Rate(used, n) + z * z / (2.0 * n as real) + z * root) / (1.0 + z * z / n as real)
  }

  ghost predicate Ends(p: real, q: real, m: real, lo: real, hi: real)
  {
    && 0.0 <= p <= 1.0 && q >= 0.0 && m >= 0.0
    && m * m == q * p * (1.0 - p) + q * q / 4.0
    && (1.0 + q) * lo == p + q / 2.0 - m
    && (1.0 + q) * hi == p + q / 2.0 + m
  }

  lemma Quotient(x: real, y: real)
    requires y > 0.0
    ensures y * (x / y) == x
  {
  }

  lemma RateRange(used: nat, n: nat)
    requires n > 0 && used <= n
    ensures 0.0 <= Rate(used, n) <= 1.0
  {
    var x, y := used as real, n as real;
    Quotient(x, y);
    ScaledOrder(y, 0.0, x / y);
    ScaledOrder(y, x / y, 1.0);
  }

  lemma HalfQuotient(t: real, n: real)
    requires n > 0.0
    ensures t / (2.0 * n) == (t / n) / 2.0
  {
    Quotient(t, n);
    Quotient(t, 2.0 * n);
    var a, b := t / n, t / (2.0 * n);
    assert n * a == n * (2.0 * b);
    assert a == 2.0 * b by {
      CancelFactor(n, a, 2.0 * b);
    }
  }

  /** m^2 from the radicand. */
  lemma MarginSquare(p: real, n: real, z: real, root: real, radicand: real, d: real)
    requires n > 0.0 && d == 4.0 * n * n && root * root == radicand
    requires radicand == p * (1.0 - p) / n + z * z / (4.0 * n * n)
    ensures var q := z * z / n; (z * root) * (z * root) == q * p * (1.0 - p) + q * q / 4.0
  {
    var t := z * z;
    var q := t / n;
    Quotient(t, n);
    var v := p * (1.0 - p);
    ProductPositive(n, 4.0 * n, d);
    var a, b := v / n, t / d;
    Quotient(v, n);
    Quotient(t, d);
    QuarterQuotient(t, n, q, b);
    MarginParts(t, q, n, a, b, v);
    assert (z * root) * (z * root) == t * (root * root);
    assert q * p * (1.0 - p) == q * v;
  }

  lemma ProductPositive(n: real, m: real, d: real)
    requires n > 0.0 && m > 0.0 && d == m * n
    ensures d > 0.0
  {
    MulPositive(m, n);
  }

  lemma MarginParts(t: real, q: real, n: real, a: real, b: real, v: real)
    requires t == n * q && n * a == v && 4.0 * n * b == q
    ensures t * (a + b) == q * v + q * q / 4.0
  {
    assert t * a == q * (n * a);
    assert t * b == q * (n * b);
    assert n * b == q / 4.0;
  }

  lemma QuarterQuotient(t: real, n: real, q: real, b: real)
    requires n > 0.0 && n * q == t && (4.0 * n * n) * b == t
    ensures 4.0 * n * b == q
  {
    var w := 4.0 * n * b;
    assert (4.0 * n * n) * b == n * w;
    CancelFactor(n, w, q);
  }

  lemma IntervalEnds(used: nat, n: nat, z: real, root: real)
    requires n > 0 && used <= n && z >= 0.0 && IsRoot(root, Radicand(used, n, z))
    ensures Ends(Rate(used, n), z * z / n as real, z * root, RawLower(used, n, z, root), RawUpper(used, n, z, root))
  {
    var nr := n as real;
    var q, p := z * z / nr, Rate(used, n);
    Positive(z, nr);
    RateRange(used, n);
    HalfQuotient(z * z, nr);
    MarginSquare(p, nr, z, root, Radicand(used, n, z), 4.0 * nr * nr);
    Quotient(p + z * z / (2.0 * nr) - z * root, 1.0 + q);
    Quotient(p + z * z / (2.0 * nr) + z * root, 1.0 + q);
    assert z * root >= 0.0;
  }

  // ---- the score test

  /** The score-test gap per observation. */
  ghost function Gap(p: real, q: real, x: real): real
  {
    (p - x) * (p - x) - q * x * (1.0 - x)
  }

  /** The gap is a quadratic with the two ends as its roots. */
  lemma GapFactors(p: real, q: real, m: real, lo: real, hi: real, x: real)
    requires Ends(p, q, m, lo, hi)
    ensures (1.0 + q) * Gap(p, q, x) == ((1.0 + q) * (x - lo)) * ((1.0 + q) * (x - hi))
  {
    var a, c := 1.0 + q, p + q / 2.0;
    assert a * (x - lo) == a * x - c + m;
    assert a * (x - hi) == a * x - c - m;
    DifferenceOfSquares(a * x - c, m);
    CompleteSquare(p, q, x, m * m);
  }

  lemma DifferenceOfSquares(y: real, m: real)
    ensures (y + m) * (y - m) == y * y - m * m
  {
  }

  lemma CompleteSquare(p: real, q: real, x: real, mm: real)
    requires mm == q * p * (1.0 - p) + q * q / 4.0
    ensures var a, c := 1.0 + q, p + q / 2.0;
            (a * x - c) * (a * x - c) - mm == a * Gap(p, q, x)
  {
    var a, c := 1.0 + q, p + q / 2.0;
    var ax := a * x;
    assert (ax - c) * (ax - c) == ax * ax - 2.0 * c * ax + c * c;
    assert c * c == p * p + p * q + q * q / 4.0;
    assert c * c - mm == a * (p * p);
    assert Gap(p, q, x) == a * (x * x) - 2.0 * c * x + p * p;
    assert ax * ax == a * (a * (x * x));
    assert 2.0 * c * ax == a * (2.0 * c * x);
  }

  lemma SignOfProduct(u: real, v: real)
    requires u >= v
    ensures u * v <= 0.0 <==> u >= 0.0 >= v
  {
    if u > 0.0 && v > 0.0 {
      assert u * v > 0.0;
    } else if u < 0.0 && v < 0.0 {
      assert (-u) * (-v) > 0.0;
    } else if u >= 0.0 >= v {
      assert u * (-v) >= 0.0;
    }
  }

  lemma EndsOrdered(q: real, x: real, lo: real, m: real)
    requires q >= 0.0 && (1.0 + q) * lo == m
    ensures x >= lo <==> (1.0 + q) * (x - lo) >= 0.0
    ensures x <= lo <==> (1.0 + q) * (x - lo) <= 0.0
  {
    var a := 1.0 + q;
    assert a * (x - lo) == a * x - a * lo;
    ScaledCompare(a, lo, x);
    ScaledCompare(a, x, lo);
  }

  /** The rates between the ends are exactly those the score test does not reject. */
  lemma EndsInvert(p: real, q: real, m: real, lo: real, hi: real, x: real)
    requires Ends(p, q, m, lo, hi)
    ensures lo <= x <= hi <==> Gap(p, q, x) <= 0.0
  {
    var a, g := 1.0 + q, Gap(p, q, x);
    var u, v := a * (x - lo), a * (x - hi);
    GapFactors(p, q, m, lo, hi, x);
    assert u - v == 2.0 * m by {
      assert u == a * x - a * lo && v == a * x - a * hi;
    }
    SignOfProduct(u, v);
    EndsOrdered(q, x, lo, a * lo);
    EndsOrdered(q, x, hi, a * hi);
    hide Gap;
    if g <= 0.0 {
      assert a * (-g) >= 0.0;
    } else {
      assert a * g > 0.0;
    }
  }

  lemma SquareOrder(m: real, c: real)
    requires m >= 0.0 && c >= 0.0 && m * m <= c * c
    ensures m <= c
  {
    if m > c {
      MulPositive(m - c, m + c);
      DifferenceOfSquares(m, c);
    }
  }

  /** The ends enclose the observed rate and stay within [0, 1]. */
  lemma EndsRange(p: real, q: real, m: real, lo: real, hi: real)
    requires Ends(p, q, m, lo, hi)
    ensures 0.0 <= lo <= p <= hi <= 1.0
  {
    EndsMargin(p, q, m, lo, hi);
    GapAtRate(p, q);
    EndsInvert(p, q, m, lo, hi, p);
    ScaledOrder(1.0 + q, 0.0, lo);
    ScaledOrder(1.0 + q, hi, 1.0);
  }

  lemma SwapFactors(x: real, y: real, z: real)
    ensures x * y * z == x * z * y
  {
    Associate(x, y, z);
    Associate(x, z, y);
  }

  lemma GapAtRate(p: real, q: real)
    requires 0.0 <= p <= 1.0 && q >= 0.0
    ensures Gap(p, q, p) <= 0.0
  {
    MulNonNegative(p, 1.0 - p);
    MulNonNegative(q, p * (1.0 - p));
    assert q * p * (1.0 - p) == q * (p * (1.0 - p));
  }

  /** The margin reaches neither end of [0, 1]. */
  lemma MarginBelow(p: real, other: real, q: real, m: real)
    requires 0.0 <= p <= 1.0 && other == 1.0 - p && q >= 0.0 && m >= 0.0
    requires m * m == q * p * other + q * q / 4.0
    ensures m <= p + q / 2.0
  {
    var c, pp := p + q / 2.0, p * p;
    MulNonNegative(p, p);
    MulNonNegative(1.0 + q, pp);
    assert c * c == pp + q * p + q * q / 4.0;
    assert q * p * other == q * p - q * pp;
    assert (1.0 + q) * pp == pp + q * pp;
    SquareOrder(m, c);
  }

  lemma MarginBelowBoth(p: real, other: real, q: real, m: real)
    requires 0.0 <= p <= 1.0 && other == 1.0 - p && q >= 0.0 && m >= 0.0
    requires m * m == q * p * other + q * q / 4.0
    ensures m <= p + q / 2.0 && m <= other + q / 2.0
  {
    MarginBelow(p, other, q, m);
    SwapFactors(q, p, other);
    MarginBelow(other, p, q, m);
  }

  lemma EndsMargin(p: real, q: real, m: real, lo: real, hi: real)
    requires Ends(p, q, m, lo, hi)
    ensures m <= p + q / 2.0 && m <= 1.0 - p + q / 2.0
  {
    MarginBelowBoth(p, 1.0 - p, q, m);
  }

  // ---- main results

  /** The Wilson interval inverts the score test: a rate x lies between the two ends exactly when
      n (p - x)^2 <= z^2 x (1 - x). */
  lemma IntervalInvertsScoreTest(used: nat, n: nat, z: real, root: real, x: real)
    requires n > 0 && used <= n && z >= 0.0 && IsRoot(root, Radicand(used, n, z))
    ensures RawLower(used, n, z, root) <= x <= RawUpper(used, n, z, root)
            <==> n as real * (Rate(used, n) - x) * (Rate(used, n) - x) <= z * z * x * (1.0 - x)
  {
    hide *;
    var nr, p, q := n as real, Rate(used, n), z * z / n as real;
    IntervalEnds(used, n, z, root);
    EndsInvert(p, q, z * root, RawLower(used, n, z, root), RawUpper(used, n, z, root), x);
    Quotient(z * z, nr);
    ScaledGap(p, q, nr, z * z, x);
  }

  lemma ScaledGap(p: real, q: real, n: real, t: real, x: real)
    requires n > 0.0 && n * q == t
    ensures Gap(p, q, x) <= 0.0 <==> n * (p - x) * (p - x) <= t * x * (1.0 - x)
  {
    ScaledCompare(n, (p - x) * (p - x), q * x * (1.0 - x));
    Associate(n, p - x, p - x);
    assert n * (q * x * (1.0 - x)) == t * x * (1.0 - x) by {
      Associate(n, q * x, 1.0 - x);
      Associate(n, q, x);
    }
  }

  lemma Associate(x: real, y: real, z: real)
    ensures x * y * z == x * (y * z)
  {
  }

  lemma ScaledCompare(n: real, a: real, b: real)
    requires n > 0.0
    ensures n * a <= n * b <==> a <= b
  {
    if a <= b {
      MulNonNegative(n, b - a);
    } else {
      MulPositive(n, a - b);
    }
  }

  /** The lower bound lies between 0 and the observed rate, so the clamp changes nothing, and it is the
      lower end of the interval computed at the same z; the upper clamp changes nothing either. */
  lemma LowerBoundIsLowerEnd(used: nat, n: nat, z: real, root: real)
    requires n > 0 && used <= n && z >= 0.0 && IsRoot(root, Radicand(used, n, z))
    ensures LowerBound(used, n, z, root) == RawLower(used, n, z, root)
    ensures 0.0 <= LowerBound(used, n, z, root) <= Rate(used, n)
    ensures Interval(used, n, z, root) == (RawLower(used, n, z, root), RawUpper(used, n, z, root))
  {
    var nr, q := n as real, z * z / n as real;
    IntervalEnds(used, n, z, root);
    EndsRange(Rate(used, n), q, z * root, RawLower(used, n, z, root), RawUpper(used, n, z, root));
    SplitQuotient(Rate(used, n) + z * z / (2.0 * nr), z * root, 1.0 + q);
  }

  lemma SplitQuotient(c: real, m: real, a: real)
    requires a >= 1.0
    ensures c / a - m / a == (c - m) / a && c / a + m / a == (c + m) / a
  {
  }

  lemma RateRises(used: nat, more: nat, n: nat)
    requires n > 0 && used < more
    ensures Rate(used, n) < Rate(more, n)
  {
    var p, p', nr := Rate(used, n), Rate(more, n), n as real;
    Quotient(used as real, nr);
    Quotient(more as real, nr);
    ScaledOrder(nr, p, p');
    assert nr * p < nr * p';
  }

  lemma GapAtEnd(p: real, q: real, m: real, lo: real, hi: real)
    requires Ends(p, q, m, lo, hi)
    ensures Gap(p, q, lo) == 0.0
  {
    hide Gap;
    GapFactors(p, q, m, lo, hi, lo);
    CancelFactor(1.0 + q, Gap(p, q, lo), 0.0);
  }

  lemma LowerRises(p: real, p': real, q: real, m: real, m': real, lo: real, hi: real, lo': real, hi': real)
    requires Ends(p, q, m, lo, hi) && Ends(p', q, m', lo', hi') && p < p'
    ensures lo < lo'
  {
    EndsRange(p, q, m, lo, hi);
    EndsRange(p', q, m', lo', hi');
    GapAtEnd(p, q, m, lo, hi);
    hide Gap;
    GapRises(p, p', q, lo);
    EndsInvert(p', q, m', lo', hi', lo);
  }

  lemma GapIs(p: real, q: real, x: real)
    ensures var u, v := p - x, q * x * (1.0 - x); Gap(p, q, x) == u * u - v
  {
  }

  lemma SquareRises(u: real, u': real)
    requires 0.0 <= u < u'
    ensures u * u < u' * u'
  {
    MulPositive(u' + u, u' - u);
    DifferenceOfSquares(u', u);
  }

  lemma GapRises(p: real, p': real, q: real, x: real)
    requires x <= p < p'
    ensures Gap(p, q, x) < Gap(p', q, x)
  {
    SquareRises(p - x, p' - x);
    GapIs(p, q, x);
    GapIs(p', q, x);
  }

  /** More uses out of the same deliveries strictly raise the bound. */
  lemma LowerBoundRisesWithUse(used: nat, more: nat, n: nat, z: real, root: real, root': real)
    requires n > 0 && used < more <= n && z >= 0.0
    requires IsRoot(root, Radicand(used, n, z)) && IsRoot(root', Radicand(more, n, z))
    ensures LowerBound(used, n, z, root) < LowerBound(more, n, z, root')
  {
    var q := z * z / n as real;
    LowerBoundIsLowerEnd(used, n, z, root);
    LowerBoundIsLowerEnd(more, n, z, root');
    IntervalEnds(used, n, z, root);
    IntervalEnds(more, n, z, root');
    RateRises(used, more, n);
    LowerRises(Rate(used, n), Rate(more, n), q, z * root, z * root',
               RawLower(used, n, z, root), RawUpper(used, n, z, root),
               RawLower(more, n, z, root'), RawUpper(more, n, z, root'));
  }

  lemma GapShrinks(p: real, q: real, q': real, x: real)
    requires 0.0 <= q' <= q && 0.0 <= x <= 1.0
    ensures Gap(p, q', x) >= Gap(p, q, x)
    ensures q' < q && 0.0 < x < 1.0 ==> Gap(p, q', x) > Gap(p, q, x)
  {
    var v := x * (1.0 - x);
    MulNonNegative(x, 1.0 - x);
    MulNonNegative(q - q', v);
    assert Gap(p, q', x) - Gap(p, q, x) == (q - q') * v;
    if q' < q && 0.0 < x < 1.0 {
      MulPositive(x, 1.0 - x);
      MulPositive(q - q', v);
    }
  }

  /** At the same rate, more evidence never lowers the bound. */
  lemma LowerWithEvidence(p: real, q: real, q': real, m: real, m': real, lo: real, hi: real, lo': real, hi': real)
    requires Ends(p, q, m, lo, hi) && Ends(p, q', m', lo', hi') && q' <= q
    ensures lo <= lo'
  {
    EndsRange(p, q, m, lo, hi);
    EndsRange(p, q', m', lo', hi');
    if lo > lo' {
      GapAtEnd(p, q, m, lo, hi);
      hide Gap;
      if q' == q {
        SameEnds(p, q, m, m', lo, hi, lo', hi');
      } else if lo < 1.0 {
        GapShrinks(p, q, q', lo);
        EndsInvert(p, q', m', lo', hi', lo);
      } else {
        FullRate(q, m, lo, hi);
      }
    }
  }

  lemma SameEnds(p: real, q: real, m: real, m': real, lo: real, hi: real, lo': real, hi': real)
    requires Ends(p, q, m, lo, hi) && Ends(p, q, m', lo', hi')
    ensures lo == lo'
  {
    SquareOrder(m, m');
    SquareOrder(m', m);
    CancelFactor(1.0 + q, lo, lo');
  }

  /** A lower end of 1 needs z = 0. */
  lemma FullRate(q: real, m: real, lo: real, hi: real)
    requires Ends(1.0, q, m, lo, hi) && lo >= 1.0
    ensures q == 0.0
  {
    SquareOrder(q / 2.0, m);
    assert (1.0 + q) * lo >= 1.0 + q by {
      assert (1.0 + q) * (lo - 1.0) >= 0.0;
    }
  }

  /** Counts in the same proportion have the same rate. */
  lemma SameRate(used: nat, n: nat, used': nat, n': nat)
    requires n > 0 && n' > 0 && used * n' == used' * n
    ensures Rate(used, n) == Rate(used', n')
  {
    var p, p' := Rate(used, n), Rate(used', n');
    RealProduct(used, n');
    RealProduct(used', n);
    Quotient(used as real, n as real);
    Quotient(used' as real, n' as real);
    SameProducts(n as real, n' as real, used as real, used' as real, p, p');
  }

  lemma RealProduct(x: int, y: int)
    ensures (x * y) as real == x as real * y as real
  {
  }

  lemma SameProducts(n: real, n': real, u: real, u': real, p: real, p': real)
    requires n > 0.0 && n' > 0.0 && u * n' == u' * n && n * p == u && n' * p' == u'
    ensures p == p'
  {
    Associate(n, p, n');
    assert p' * n' == u' && n * u' == u' * n;
    assert n * (p * n') == n * u';
    CancelFactor(n, p * n', p' * n');
    CancelFactor(n', p, p');
  }

  lemma StaysWithin(used: nat, n: nat, used': nat, n': nat)
    requires n > 0 && used <= n && used * n' == used' * n
    ensures used' <= n'
  {
    assert (n - used) * n' >= 0;
    assert (n' - used') * n >= 0;
  }

  lemma SmallerQuotient(t: real, n: nat, n': nat)
    requires t >= 0.0 && 0 < n <= n'
    ensures 0.0 <= t / n' as real <= t / n as real
  {
    var a, b := n as real, n' as real;
    Quotient(t, a);
    Quotient(t, b);
    var x, y := t / a, t / b;
    ScaledOrder(b, 0.0, y);
    MulNonNegative(b - a, y);
    ScaledOrder(a, y, x);
  }

  /** The critical values the two files use. */
  const Z_LEDGER: real := 1.96
  const Z_COMPARE: real := 1.959963984540054

  lemma QuotientOrder(s: real, t: real, n: real)
    requires n > 0.0 && s <= t
    ensures s / n <= t / n
  {
    Quotient(s, n);
    Quotient(t, n);
    ScaledOrder(n, s / n, t / n);
  }

  /** As shipped the two files use slightly different critical values: the ledger's bound never exceeds
      the lower end that the comparison prints. */
  lemma ShippedBoundsOrdered(used: nat, n: nat, root: real, root': real)
    requires n > 0 && used <= n
    requires IsRoot(root, Radicand(used, n, Z_LEDGER)) && IsRoot(root', Radicand(used, n, Z_COMPARE))
    ensures LowerBound(used, n, Z_LEDGER, root) <= Interval(used, n, Z_COMPARE, root').0
  {
    LowerBoundIsLowerEnd(used, n, Z_LEDGER, root);
    LowerBoundIsLowerEnd(used, n, Z_COMPARE, root');
    IntervalEnds(used, n, Z_LEDGER, root);
    IntervalEnds(used, n, Z_COMPARE, root');
    QuotientOrder(Z_COMPARE * Z_COMPARE, Z_LEDGER * Z_LEDGER, n as real);
    LowerWithEvidence(Rate(used, n), Z_LEDGER * Z_LEDGER / n as real, Z_COMPARE * Z_COMPARE / n as real,
                      Z_LEDGER * root, Z_COMPARE * root',
                      RawLower(used, n, Z_LEDGER, root), RawUpper(used, n, Z_LEDGER, root),
                      RawLower(used, n, Z_COMPARE, root'), RawUpper(used, n, Z_COMPARE, root'));
  }

  /** The same rate on more evidence never lowers the bound: thin evidence is what it punishes. */
  lemma LowerBoundRisesWithEvidence(used: nat, n: nat, used': nat, n': nat, z: real, root: real, root': real)
    requires 0 < n <= n' && used <= n && used * n' == used' * n && z >= 0.0
    requires IsRoot(root, Radicand(used, n, z)) && IsRoot(root', Radicand(used', n', z))
    ensures LowerBound(used, n, z, root) <= LowerBound(used', n', z, root')
  {
    hide *;
    StaysWithin(used, n, used', n');
    LowerBoundIsLowerEnd(used, n, z, root);
    LowerBoundIsLowerEnd(used', n', z, root');
    IntervalEnds(used, n, z, root);
    IntervalEnds(used', n', z, root');
    SameRate(used, n, used', n');
    Squares(z);
    SmallerQuotient(z * z, n, n');
    LowerWithEvidence(Rate(used, n), z * z / n as real, z * z / n' as real, z * root, z * root',
                      RawLower(used, n, z, root), RawUpper(used, n, z, root),
                      RawLower(used', n', z, root'), RawUpper(used', n', z, root'));
  }

  /** Main result, for every count: with no deliveries the interval is everything and the bound zero; the
      bound is zero, too, for more uses than deliveries; otherwise the two functions return one lower end,
      and a rate lies between the ends exactly when the score test does not reject it. */
  lemma BoundsMean(used: nat, n: nat, z: real, root: real, x: real)
    requires 0 < n && used <= n ==> z >= 0.0 && IsRoot(root, Radicand(used, n, z))
    ensures n == 0 ==> Interval(used, n, z, root) == (0.0, 1.0)
    ensures n == 0 || used > n ==> LowerBound(used, n, z, root) == 0.0
    ensures 0 < n && used <= n ==>
              var (lo, hi) := Interval(used, n, z, root);
              var gap := used as real / n as real - x;
              && LowerBound(used, n, z, root) == lo
              && (lo <= x <= hi <==> n as real * gap * gap <= z * z * x * (1.0 - x))
  {
    if 0 < n && used <= n {
      hide *;
      LowerBoundIsLowerEnd(used, n, z, root);
      IntervalInvertsScoreTest(used, n, z, root, x);
      RateIs(used, n);
    }
  }

  lemma RateIs(used: nat, n: nat)
    requires n > 0
    ensures Rate(used, n) == used as real / n as real
  {
  }
}
