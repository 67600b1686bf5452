/** What the signed-rank test returns, in terms of the differences alone: ranks as numbers of smaller and
    equal magnitudes, rank sums over the signs, and the p-value as a share of all sign assignments. */
module SignedRankValue {
  import opened Binomial
  import opened Options
  import opened Ranks
  import opened SignedRank
  import opened Sorting

  /** The differences at these positions are of smaller magnitude than the i-th. */
  ghost function Smaller(nz: seq<int>, i: nat): set<nat>
    requires i < |nz|
  {
    set j | 0 <= j < |nz| && (if nz[j] < 0 then -nz[j] else nz[j]) < (if nz[i] < 0 then -nz[i] else nz[i])
  }

  ghost function Tied(nz: seq<int>, i: nat): set<nat>
    requires i < |nz|
  {
    set j | 0 <= j < |nz| && (nz[j] == nz[i] || nz[j] == -nz[i])
  }

  /** Ties share the middle of the places they take up among the magnitudes. */
  ghost predicate AreRanks(nz: seq<int>, ranks: seq<real>)
  {
    |ranks| == |nz|
    && forall i :: 0 <= i < |nz| ==> ranks[i] == |Smaller(nz, i)| as real + (|Tied(nz, i)| + 1) as real / 2.0
  }

  /** The sum of the ranks that carry the given sign. */
  ghost function Total(ranks: seq<real>, signs: seq<bool>, sign: bool): real
    requires |signs| == |ranks|
  {
    if ranks == [] then 0.0
    else
      var n := |ranks| - 1;
      Total(ranks[..n], signs[..n], sign) + (if signs[n] == sign then ranks[n] else 0.0)
  }

  /** The nonzero differences, in some order. */
  ghost predicate AreNonZero(diffs: seq<int>, nz: seq<int>)
  {
    forall d :: multiset(nz)[d] == if d == 0 then 0 else multiset(diffs)[d]
  }

  /** The sign assignments in which one of the rank sums is no larger than w. */
  ghost predicate AsExtreme(ranks: seq<real>, w: real, hits: set<seq<bool>>)
  {
    forall s :: s in hits <==> |s| == |ranks| && (Total(ranks, s, true) <= w || Total(ranks, s, false) <= w)
  }

  // ---- ranks

  lemma {:induction false} CountsAreSets(s: seq<int>, v: int, less: set<nat>, equal: set<nat>)
    requires forall j :: j in less <==> 0 <= j < |s| && s[j] < v
    requires forall j :: j in equal <==> 0 <= j < |s| && s[j] == v
    ensures CountLess(s, v) == |less| && CountEqual(s, v) == |equal|
    decreases |s|
  {
    if s == [] {
      assert less == {} && equal == {};
    } else {
      var n := |s| - 1;
      CountsAreSets(s[..n], v, less - {n}, equal - {n});
    }
  }

  lemma RanksAre(nz: seq<int>, ranks: seq<real>)
    requires AreRanks(nz, ranks)
    ensures ranks == RanksOf(nz)
  {
    hide CountLess, CountEqual;
    forall i | 0 <= i < |nz| ensures ranks[i] == RanksOf(nz)[i] {
      CountsAreSets(Magnitudes(nz), Magnitudes(nz)[i], Smaller(nz, i), Tied(nz, i));
    }
  }

  // ---- rank sums

  lemma {:induction false} SignedSumLast(r: seq<real>, signs: seq<bool>)
    requires |signs| == |r| > 0
    ensures var n := |r| - 1;
            SignedSum(r, signs) == SignedSum(r[..n], signs[..n]) + (if signs[n] then r[n] else 0.0)
    decreases |r|
  {
    var n := |r| - 1;
    if n > 0 {
      SignedSumLast(r[1..], signs[1..]);
      assert r[1..][..n - 1] == r[..n][1..] && signs[1..][..n - 1] == signs[..n][1..];
    }
  }

  lemma {:induction false} TotalIsSum(r: seq<real>, signs: seq<bool>)
    requires |signs| == |r|
    ensures Total(r, signs, true) == SignedSum(r, signs)
    ensures Total(r, signs, false) == SignedSum(r, Flip(signs)) == Sum(r) - SignedSum(r, signs)
    decreases |r|
  {
    FlipSum(r, signs);
    if r != [] {
      var n := |r| - 1;
      TotalIsSum(r[..n], signs[..n]);
      SignedSumLast(r, signs);
      SignedSumLast(r, Flip(signs));
      assert Flip(signs)[..n] == Flip(signs[..n]);
    }
  }

  // ---- the enumeration, as a set

  ghost predicate AllDifferent<T>(s: seq<T>)
  {
    forall i, j :: 0 <= i < j < |s| ==> s[i] != s[j]
  }

  lemma {:induction false} ProductDifferent(n: nat)
    ensures AllDifferent(Product(n))
  {
    if n > 0 {
      ProductDifferent(n - 1);
      var all := Product(n - 1);
      hide Product;
      ProductStep(n - 1);
      PrefixedDifferent(all);
    }
  }

  lemma PrefixedDifferent(all: seq<seq<bool>>)
    requires AllDifferent(all)
    ensures AllDifferent(Prefixed(false, all) + Prefixed(true, all))
  {
    var m := |all|;
    var both := Prefixed(false, all) + Prefixed(true, all);
    forall i, j | 0 <= i < j < |both| ensures both[i] != both[j] {
      assert both[i][1..] == all[if i < m then i else i - m];
      assert both[j][1..] == all[if j < m then j else j - m];
      assert both[i][0] == (i >= m) && both[j][0] == (j >= m);
    }
  }

  lemma {:induction false} FilterDifferent<T(!new)>(s: seq<T>, keep: T -> bool)
    requires AllDifferent(s)
    ensures AllDifferent(Filter(s, keep))
  {
    if s != [] {
      FilterDifferent(s[1..], keep);
      var r := Filter(s[1..], keep);
      forall k | 0 <= k < |r| ensures r[k] != s[0] {
        assert r[k] in r && r[k] in s[1..];
      }
    }
  }

  lemma {:induction false} DifferentSize<T>(s: seq<T>, members: set<T>)
    requires AllDifferent(s) && forall x :: x in members <==> x in s
    ensures |s| == |members|
  {
    if s == [] {
      assert members == {};
    } else {
      assert s == [s[0]] + s[1..];
      DifferentSize(s[1..], members - {s[0]});
    }
  }

  lemma HitsAre(r: seq<real>, w: real, hits: set<seq<bool>>)
    requires AsExtreme(r, w, hits)
    ensures Hits(r, w) == |hits|
  {
    var all, sel := Product(|r|), IsExtreme(r, w);
    ProductDifferent(|r|);
    FilterDifferent(all, sel);
    hide Product, Sum, SignedSum, Total;
    forall s ensures s in hits <==> s in Filter(all, sel) {
      if |s| == |r| {
        ProductHasAll(|r|, s);
        TotalIsSum(r, s);
      }
    }
    hide Filter, AsExtreme;
    DifferentSize(Filter(all, sel), hits);
  }

  lemma {:induction false} ProductCount(n: nat)
    ensures |Product(n)| == TwoToThe(n)
  {
    if n > 0 {
      ProductCount(n - 1);
    }
  }

  // ---- the outcome

  /** Main result: the number of nonzero pairs; W, the smaller of the rank sums of the positive and of the
      negative differences; and up to twenty pairs the exact p-value, which is the share of the 2^n sign
      assignments that are at least as extreme as W. */
  lemma OutcomeIs(diffs: seq<int>, nz: seq<int>, ranks: seq<real>, signs: seq<bool>, hits: set<seq<bool>>)
    requires AreNonZero(diffs, nz) && AreRanks(nz, ranks)
    requires |signs| == |nz| && forall i :: 0 <= i < |nz| ==> (signs[i] <==> nz[i] > 0)
    requires AsExtreme(ranks, Min(Total(ranks, signs, true), Total(ranks, signs, false)), hits)
    ensures var (w, p, n) := Outcome(diffs);
            && n == |nz|
            && w == Min(Total(ranks, signs, true), Total(ranks, signs, false))
            && (n > 20 ==> p == None)
            && (n <= 20 ==> p.Some? && p.value * TwoToThe(n) as real == |hits| as real)
  {
    hide *;
    SameNonZero(diffs, nz);
    PermutedSame(NonZero(diffs), nz);
    SameLength(NonZero(diffs), nz);
    RanksAre(nz, ranks);
    TotalIsSum(ranks, signs);
    StatisticIs(nz, signs);
    HitsAre(ranks, Statistic(nz), hits);
    ProductCount(|nz|);
    OutcomeParts(diffs, nz, |hits|);
    if nz == [] {
      NothingToRank(ranks, signs, hits);
    }
  }

  lemma SameNonZero(diffs: seq<int>, nz: seq<int>)
    requires AreNonZero(diffs, nz)
    ensures multiset(NonZero(diffs)) == multiset(nz)
  {
    forall d ensures multiset(NonZero(diffs))[d] == multiset(nz)[d] {
      FilterMultiset(diffs, IsNonZero, d);
    }
  }

  lemma StatisticIs(nz: seq<int>, signs: seq<bool>)
    requires |signs| == |nz| && forall i :: 0 <= i < |nz| ==> (signs[i] <==> nz[i] > 0)
    ensures Statistic(nz) == Min(SignedSum(RanksOf(nz), signs), SignedSum(RanksOf(nz), Flip(signs)))
  {
    hide RanksOf, SignedSum;
    assert signs == Positive(nz);
  }

  lemma OutcomeParts(diffs: seq<int>, nz: seq<int>, hits: nat)
    requires |NonZero(diffs)| == |nz| && Statistic(NonZero(diffs)) == Statistic(nz)
    requires PValue(NonZero(diffs)) == PValue(nz)
    requires Hits(RanksOf(nz), Statistic(nz)) == hits && |Product(|nz|)| == TwoToThe(|nz|)
    ensures Outcome(diffs).2 == |nz|
    ensures nz == [] ==> Outcome(diffs) == (0.0, Some(1.0), 0)
    ensures nz != [] ==> Outcome(diffs).0 == Statistic(nz)
    ensures |nz| > 20 ==> Outcome(diffs).1 == None
    ensures 1 <= |nz| <= 20 ==>
              Outcome(diffs).1.Some? && Outcome(diffs).1.value * TwoToThe(|nz|) as real == hits as real
  {
    hide NonZero, Hits, Statistic, RanksOf, Product, TwoToThe;
    Share(hits, TwoToThe(|nz|));
  }

  lemma Share(x: nat, y: nat)
    ensures y > 0 ==> (x as real / y as real) * y as real == x as real
  {
  }

  lemma NothingToRank(ranks: seq<real>, signs: seq<bool>, hits: set<seq<bool>>)
    requires ranks == [] && signs == []
    requires AsExtreme(ranks, Min(Total(ranks, signs, true), Total(ranks, signs, false)), hits)
    ensures Min(Total(ranks, signs, true), Total(ranks, signs, false)) == 0.0
    ensures |hits| == 1 == TwoToThe(0)
  {
    assert hits == {[]};
  }

  // ---- when all differences point the same way

  /** Main result: with n differences, none of them zero, all of one sign, W is zero and the p-value is
      the smallest there is, 2^(1 - n). */
  lemma OneSided(diffs: seq<int>, positive: bool)
    requires 1 <= |diffs| <= 20
    requires forall d :: d in diffs ==> if positive then d > 0 else d < 0
    ensures var (w, p, n) := Outcome(diffs);
            n == |diffs| && w == 0.0 && p.Some? && p.value * TwoToThe(n) as real == 2.0
  {
    var n := |diffs|;
    var signs := seq(n, i => positive);
    var ranks := RanksOf(diffs);
    var hits := {seq(n, i => true), seq(n, i => false)};
    OneSidedRanks(diffs, ranks);
    hide RanksOf, TwoToThe;
    forall d ensures multiset(diffs)[d] == if d == 0 then 0 else multiset(diffs)[d] {
      assert d in multiset(diffs) ==> d in diffs;
    }
    forall i | 0 <= i < n ensures signs[i] <==> diffs[i] > 0 {
      assert diffs[i] in diffs;
    }
    TotalOfOneSign(ranks, signs);
    forall s ensures s in hits <==> |s| == n && (Total(ranks, s, true) <= 0.0 || Total(ranks, s, false) <= 0.0) {
      if |s| == n {
        TotalOfOneSign(ranks, s);
        assert s == seq(n, i => true) <==> forall i :: 0 <= i < n ==> s[i];
        assert s == seq(n, i => false) <==> forall i :: 0 <= i < n ==> !s[i];
      }
    }
    assert seq(n, i => true)[0] != seq(n, i => false)[0];
    assert |hits| == 2;
    hide *;
    OutcomeIs(diffs, diffs, ranks, signs, hits);
  }

  lemma OneSidedRanks(nz: seq<int>, ranks: seq<real>)
    requires ranks == RanksOf(nz)
    ensures AreRanks(nz, ranks)
    ensures forall i :: 0 <= i < |nz| ==> ranks[i] > 0.0
  {
    hide CountLess, CountEqual;
    forall i | 0 <= i < |nz| {
      CountsAreSets(Magnitudes(nz), Magnitudes(nz)[i], Smaller(nz, i), Tied(nz, i));
    }
  }

  /** Positive ranks sum to zero only when none of them is taken. */
  lemma {:induction false} TotalOfOneSign(ranks: seq<real>, signs: seq<bool>)
    requires |signs| == |ranks| && forall i :: 0 <= i < |ranks| ==> ranks[i] > 0.0
    ensures Total(ranks, signs, true) >= 0.0 && Total(ranks, signs, false) >= 0.0
    ensures Total(ranks, signs, true) <= 0.0 <==> forall i :: 0 <= i < |signs| ==> !signs[i]
    ensures Total(ranks, signs, false) <= 0.0 <==> forall i :: 0 <= i < |signs| ==> signs[i]
    decreases |ranks|
  {
    if ranks != [] {
      var n := |ranks| - 1;
      TotalOfOneSign(ranks[..n], signs[..n]);
    }
  }
}
