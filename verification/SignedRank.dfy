/** The exact Wilcoxon signed-rank test (`wilcoxon` in `score_r24.py`). */
module SignedRank {
  import opened Binomial
  import opened Options
  import opened Ranks
  import opened Sorting

  function Abs(d: int): int { if d < 0 then -d else d }

  function Magnitudes(nz: seq<int>): seq<int>
  {
    Mapped(nz, Abs)
  }

  predicate IsNonZero(d: int) { d != 0 }

  function NonZero(diffs: seq<int>): seq<int>
  {
    Filter(diffs, IsNonZero)
  }

  function Sum(r: seq<real>): real
  {
    if r == [] then 0.0 else r[0] + Sum(r[1..])
  }

  /** The sum of the ranks whose sign is set. */
  function SignedSum(r: seq<real>, signs: seq<bool>): real
    requires |signs| == |r|
  {
    if r == [] then 0.0 else (if signs[0] then r[0] else 0.0) + SignedSum(r[1..], signs[1..])
  }

  function Positive(nz: seq<int>): (s: seq<bool>)
    ensures |s| == |nz| && forall i :: 0 <= i < |s| ==> s[i] == (nz[i] > 0)
  {
    seq(|nz|, i requires 0 <= i < |nz| => nz[i] > 0)
  }

  function Flip(signs: seq<bool>): (s: seq<bool>)
    ensures |s| == |signs| && forall i :: 0 <= i < |s| ==> s[i] == !signs[i]
  {
    seq(|signs|, i requires 0 <= i < |signs| => !signs[i])
  }

  function Min(x: real, y: real): real { if x <= y then x else y }

  ghost function RanksOf(nz: seq<int>): (r: seq<real>)
    ensures |r| == |nz|
    ensures forall i :: 0 <= i < |r| ==> r[i] == RankOf(Magnitudes(nz), Magnitudes(nz)[i])
  {
    seq(|nz|, i requires 0 <= i < |nz| => RankOf(Magnitudes(nz), Magnitudes(nz)[i]))
  }

  /** W: the smaller of the positive and the negative rank sums. */
  ghost function Statistic(nz: seq<int>): real
  {
    var r := RanksOf(nz);
    Min(SignedSum(r, Positive(nz)), SignedSum(r, Flip(Positive(nz))))
  }

  function Prefixed(b: bool, all: seq<seq<bool>>): seq<seq<bool>>
  {
    seq(|all|, i requires 0 <= i < |all| => [b] + all[i])
  }

  /** `itertools.product((0, 1), repeat=n)`. */
  function Product(n: nat): (r: seq<seq<bool>>)
    ensures |r| >= 1
  {
    if n == 0 then [[]] else Prefixed(false, Product(n - 1)) + Prefixed(true, Product(n - 1))
  }

  /** Sign assignment s is at least as extreme as w. */
  predicate Extreme(r: seq<real>, w: real, signs: seq<bool>)
  {
    |signs| == |r| && Min(SignedSum(r, signs), Sum(r) - SignedSum(r, signs)) <= w
  }

  ghost function Hits(r: seq<real>, w: real): nat
  {
    |Filter(Product(|r|), IsExtreme(r, w))|
  }

  ghost function IsExtreme(r: seq<real>, w: real): seq<bool> -> bool
  {
    (signs: seq<bool>) => Extreme(r, w, signs)
  }

  ghost function PValue(nz: seq<int>): real
  {
    Hits(RanksOf(nz), Statistic(nz)) as real / |Product(|nz|)| as real
  }

  /** The statistic, the exact p-value (None above twenty pairs, where the source switches to a normal
      approximation) and the number of nonzero pairs. */
  ghost function Outcome(diffs: seq<int>): (real, Option<real>, nat)
  {
    var nz := NonZero(diffs);
    if nz == [] then (0.0, Some(1.0), 0)
    else (Statistic(nz), if |nz| <= 20 then Some(PValue(nz)) else None, |nz|)
  }

  method Wilcoxon(diffs: seq<int>) returns (w: real, p: Option<real>, n: nat)
    ensures (w, p, n) == Outcome(diffs)
  {
    hide Product, Hits, Sum, SignedSum;
    var nz := NonZero(diffs);
    n := |nz|;
    if n == 0 {
      return 0.0, Some(1.0), 0;
    }
    var ranks := RankAll(Magnitudes(nz));
    var r := ranks[..];
    assert r == RanksOf(nz);
    var wPos, wNeg := SignedSum(r, Positive(nz)), SignedSum(r, Flip(Positive(nz)));
    w := Min(wPos, wNeg);
    if n <= 20 {
      var hits, total := CountHits(r, w);
      PValueAtMostOne(nz);
      p := Some(Min(1.0, hits as real / total as real));
    } else {
      p := None;
    }
  }

  /** Extreme assignments among the first k. */
  ghost function HitsAmong(all: seq<seq<bool>>, k: nat, r: seq<real>, w: real): nat
    requires k <= |all|
  {
    |Filter(all[..k], IsExtreme(r, w))|
  }

  /** The enumeration of every sign assignment. */
  method CountHits(r: seq<real>, w: real) returns (hits: nat, total: nat)
    ensures hits == Hits(r, w) && total == |Product(|r|)| >= 1
  {
    hide *;
    var all := Product(|r|);
    hits, total := 0, 0;
    AmongAll(r, w);
    ProductLengths(|r|);
    while total < |all|
      invariant total <= |all|
      invariant hits == HitsAmong(all, total, r, w)
    {
      var signs := all[total];
      assert signs in all;
      AmongStep(all, total, r, w);
      var s := SignedSum(r, signs);
      if Min(s, Sum(r) - s) <= w {
        hits := hits + 1;
      }
      total := total + 1;
    }
  }

  lemma AmongAll(r: seq<real>, w: real)
    ensures var all := Product(|r|); HitsAmong(all, 0, r, w) == 0 && HitsAmong(all, |all|, r, w) == Hits(r, w)
  {
    hide Product, IsExtreme;
    var all := Product(|r|);
    assert all[..0] == [] && all[..|all|] == all;
  }

  lemma AmongStep(all: seq<seq<bool>>, k: nat, r: seq<real>, w: real)
    requires k < |all| && |all[k]| == |r|
    ensures HitsAmong(all, k + 1, r, w) == HitsAmong(all, k, r, w)
            + (if Min(SignedSum(r, all[k]), Sum(r) - SignedSum(r, all[k])) <= w then 1 else 0)
  {
    hide Filter, SignedSum, Sum, Min;
    FilterPrefix(all, k, IsExtreme(r, w));
  }

  // ---- the enumeration

  lemma ProductStep(n: nat)
    ensures Product(0) == [[]]
    ensures Product(n + 1) == Prefixed(false, Product(n)) + Prefixed(true, Product(n))
  {
  }

  /** There are 2^n assignments. */
  lemma {:induction false} ProductSize(n: nat)
    ensures |Product(n)| >= 1 && |Product(n)| as real * HalfPow(n) == 1.0
  {
    hide Product;
    if n == 0 {
      ProductStep(0);
    } else {
      ProductStep(n - 1);
      ProductSize(n - 1);
    }
  }

  lemma {:induction false} ProductLengths(n: nat)
    ensures forall s :: s in Product(n) ==> |s| == n
  {
    hide Product;
    if n == 0 {
      ProductStep(0);
    } else {
      ProductStep(n - 1);
      ProductLengths(n - 1);
      var all := Product(n - 1);
      assert forall i :: 0 <= i < |all| ==> all[i] in all;
    }
  }

  lemma {:induction false} ProductHasAll(n: nat, signs: seq<bool>)
    requires |signs| == n
    ensures signs in Product(n)
  {
    hide Product;
    if n == 0 {
      ProductStep(0);
    } else {
      ProductStep(n - 1);
      ProductHasAll(n - 1, signs[1..]);
      InPrefixed(signs[0], Product(n - 1), signs[1..]);
      assert signs == [signs[0]] + signs[1..];
    }
  }

  lemma InPrefixed(b: bool, all: seq<seq<bool>>, s: seq<bool>)
    requires s in all
    ensures [b] + s in Prefixed(b, all)
  {
    var i :| 0 <= i < |all| && all[i] == s;
    assert Prefixed(b, all)[i] == [b] + s;
  }

  lemma {:induction false} FlipSum(r: seq<real>, signs: seq<bool>)
    requires |signs| == |r|
    ensures SignedSum(r, Flip(signs)) == Sum(r) - SignedSum(r, signs)
  {
    if r != [] {
      FlipSum(r[1..], signs[1..]);
      assert Flip(signs)[1..] == Flip(signs[1..]);
    }
  }

  /** The extreme sign assignments are closed under flipping every sign. */
  lemma ExtremeFlips(r: seq<real>, w: real, signs: seq<bool>)
    requires |signs| == |r|
    ensures Extreme(r, w, Flip(signs)) <==> Extreme(r, w, signs)
  {
    FlipSum(r, signs);
  }

  lemma PValueAtMostOne(nz: seq<int>)
    ensures PValue(nz) <= 1.0
  {
    hide Product, Filter;
    ProductLengths(|nz|);
  }

  lemma AtLeastTwoHits(nz: seq<int>)
    requires nz != []
    ensures Hits(RanksOf(nz), Statistic(nz)) >= 2
  {
    hide Product, SignedSum, Sum;
    var r, w, signs := RanksOf(nz), Statistic(nz), Positive(nz);
    FlipSum(r, signs);
    ExtremeFlips(r, w, signs);
    ProductHasAll(|r|, signs);
    ProductHasAll(|r|, Flip(signs));
    assert signs[0] != Flip(signs)[0];
  }

  /** Main result: the observed signs and their flip are both counted, so for n nonzero pairs the
      p-value is at least 2^(1 - n): with few pairs no outcome can be significant. */
  lemma {:induction false} PValueFloor(nz: seq<int>)
    requires nz != []
    ensures 2.0 * HalfPow(|nz|) <= PValue(nz) <= 1.0
  {
    hide *;
    AtLeastTwoHits(nz);
    PValueAtMostOne(nz);
    PValueFromHits(nz, Hits(RanksOf(nz), Statistic(nz)));
  }

  lemma {:induction false} PValueFromHits(nz: seq<int>, hits: nat)
    requires hits == Hits(RanksOf(nz), Statistic(nz)) >= 2
    ensures PValue(nz) >= 2.0 * HalfPow(|nz|)
  {
    hide Product, Hits, RanksOf, Statistic, HalfPow;
    ProductShare(|nz|);
    RatioFloor(hits, |Product(|nz|)|);
  }

  lemma RatioFloor(x: nat, y: nat)
    requires x >= 2 && y >= 1
    ensures x as real / y as real >= 2.0 * (1.0 / y as real)
  {
  }

  lemma ProductShare(n: nat)
    ensures HalfPow(n) == 1.0 / |Product(n)| as real
  {
    hide *;
    ProductSize(n);
  }

  // ---- negation

  function Negate(d: int): int { -d }

  ghost function Negated(diffs: seq<int>): seq<int>
  {
    Mapped(diffs, Negate)
  }

  lemma {:induction false} NegatedNonZero(diffs: seq<int>)
    ensures NonZero(Negated(diffs)) == Negated(NonZero(diffs))
    decreases |diffs|
  {
    if diffs != [] {
      NegatedNonZero(diffs[1..]);
      assert Negated(diffs)[1..] == Negated(diffs[1..]);
      var rest := NonZero(diffs[1..]);
      assert NonZero(diffs) == if diffs[0] != 0 then [diffs[0]] + rest else rest;
      assert Negated([diffs[0]] + rest) == [-diffs[0]] + Negated(rest);
    }
  }

  lemma NegatedSame(nz: seq<int>)
    requires forall d :: d in nz ==> d != 0
    ensures Statistic(Negated(nz)) == Statistic(nz)
    ensures PValue(Negated(nz)) == PValue(nz)
  {
    hide SignedSum, Hits;
    var m := Negated(nz);
    assert Magnitudes(m) == Magnitudes(nz);
    assert RanksOf(m) == RanksOf(nz);
    forall i | 0 <= i < |nz| ensures Positive(m)[i] == !Positive(nz)[i] {
      assert nz[i] in nz;
    }
    assert Positive(m) == Flip(Positive(nz));
    assert Flip(Positive(m)) == Positive(nz);
  }

  /** Negating every difference changes nothing in the outcome. */
  lemma NegationInvariant(diffs: seq<int>)
    ensures Outcome(Negated(diffs)) == Outcome(diffs)
  {
    NegatedNonZero(diffs);
    assert forall d :: d in NonZero(diffs) ==> d != 0;
    hide Filter, Statistic, PValue;
    NegatedSame(NonZero(diffs));
  }

  // ---- permutation

  /** Sign assignments, counted without listing them: those whose sum added to acc is extreme. */
  ghost function Count(r: seq<real>, acc: real, total: real, w: real): nat
  {
    if r == [] then (if Min(acc, total - acc) <= w then 1 else 0)
    else Count(r[1..], acc, total, w) + Count(r[1..], acc + r[0], total, w)
  }

  ghost predicate ExtremeFrom(r: seq<real>, acc: real, total: real, w: real, signs: seq<bool>)
  {
    |signs| == |r| && Min(acc + SignedSum(r, signs), total - (acc + SignedSum(r, signs))) <= w
  }

  lemma {:induction false} FilterPrefixed(b: bool, all: seq<seq<bool>>, p: seq<bool> -> bool, q: seq<bool> -> bool)
    requires forall s :: s in all ==> (p([b] + s) <==> q(s))
    ensures |Filter(Prefixed(b, all), p)| == |Filter(all, q)|
    decreases |all|
  {
    if all != [] {
      assert forall s :: s in all[1..] ==> s in all;
      assert all[0] in all;
      FilterPrefixed(b, all[1..], p, q);
      assert Prefixed(b, all)[1..] == Prefixed(b, all[1..]);
    }
  }

  ghost function ExtremeSel(r: seq<real>, acc: real, total: real, w: real): seq<bool> -> bool
  {
    s => ExtremeFrom(r, acc, total, w, s)
  }

  lemma {:induction false} CountIsFilter(r: seq<real>, n: nat, acc: real, total: real, w: real)
    requires |r| == n
    ensures |Filter(Product(n), ExtremeSel(r, acc, total, w))| == Count(r, acc, total, w)
    decreases n
  {
    hide *;
    if n == 0 {
      ProductStep(0);
      CountNone(acc, total, w);
    } else {
      CountFirst(r, acc, total, w);
      CountIsFilter(r[1..], n - 1, acc, total, w);
      CountIsFilter(r[1..], n - 1, acc + r[0], total, w);
      ProductStep(n - 1);
      ProductLengths(n - 1);
      SplitFilter(r, acc, total, w, Product(n - 1));
    }
  }

  lemma CountFirst(r: seq<real>, acc: real, total: real, w: real)
    requires r != []
    ensures Count(r, acc, total, w) == Count(r[1..], acc, total, w) + Count(r[1..], acc + r[0], total, w)
  {
  }

  /** Deciding the first sign splits the extreme assignments in two. */
  lemma {:induction false} SplitFilter(r: seq<real>, acc: real, total: real, w: real, all: seq<seq<bool>>)
    requires r != [] && forall s :: s in all ==> |s| == |r| - 1
    ensures |Filter(Prefixed(false, all) + Prefixed(true, all), ExtremeSel(r, acc, total, w))|
         == |Filter(all, ExtremeSel(r[1..], acc, total, w))| + |Filter(all, ExtremeSel(r[1..], acc + r[0], total, w))|
  {
    hide Filter, ExtremeFrom;
    forall s | s in all
      ensures ExtremeSel(r, acc, total, w)([false] + s) <==> ExtremeSel(r[1..], acc, total, w)(s)
      ensures ExtremeSel(r, acc, total, w)([true] + s) <==> ExtremeSel(r[1..], acc + r[0], total, w)(s)
    {
      FirstSign(r, acc, total, w, s);
    }
    FilterPrefixed(false, all, ExtremeSel(r, acc, total, w), ExtremeSel(r[1..], acc, total, w));
    FilterPrefixed(true, all, ExtremeSel(r, acc, total, w), ExtremeSel(r[1..], acc + r[0], total, w));
    FilterConcat(Prefixed(false, all), Prefixed(true, all), ExtremeSel(r, acc, total, w));
  }

  lemma CountNone(acc: real, total: real, w: real)
    ensures |Filter([[]], ExtremeSel([], acc, total, w))| == Count([], acc, total, w)
  {
    var sel := ExtremeSel([], acc, total, w);
    assert Filter<seq<bool>>([[]], sel) == if sel([]) then [[]] else [];
  }

  lemma FirstSign(r: seq<real>, acc: real, total: real, w: real, s: seq<bool>)
    requires r != [] && |s| == |r| - 1
    ensures ExtremeFrom(r, acc, total, w, [false] + s) <==> ExtremeFrom(r[1..], acc, total, w, s)
    ensures ExtremeFrom(r, acc, total, w, [true] + s) <==> ExtremeFrom(r[1..], acc + r[0], total, w, s)
  {
    assert ([false] + s)[1..] == s && ([true] + s)[1..] == s;
  }

  lemma {:induction false} FilterSame<T(!new)>(s: seq<T>, p: T -> bool, q: T -> bool)
    requires forall x :: x in s ==> (p(x) <==> q(x))
    ensures Filter(s, p) == Filter(s, q)
    decreases |s|
  {
    if s != [] {
      assert s[0] in s && forall x :: x in s[1..] ==> x in s;
      FilterSame(s[1..], p, q);
    }
  }

  lemma HitsAreCount(r: seq<real>, w: real)
    ensures Hits(r, w) == Count(r, 0.0, Sum(r), w)
  {
    hide Product, Filter, Count;
    CountIsFilter(r, |r|, 0.0, Sum(r), w);
    FilterSame(Product(|r|), IsExtreme(r, w), ExtremeSel(r, 0.0, Sum(r), w));
  }

  /** Any rank may be decided first. */
  lemma {:induction false} CountRemove(r: seq<real>, i: nat, acc: real, total: real, w: real)
    requires i < |r|
    ensures var rest := r[..i] + r[i + 1..];
            Count(r, acc, total, w) == Count(rest, acc, total, w) + Count(rest, acc + r[i], total, w)
    decreases i
  {
    var rest := r[..i] + r[i + 1..];
    if i == 0 {
      assert rest == r[1..];
    } else {
      CountRemove(r[1..], i - 1, acc, total, w);
      CountRemove(r[1..], i - 1, acc + r[0], total, w);
      assert rest[1..] == r[1..][..i - 1] + r[1..][i..];
      assert rest[0] == r[0];
      assert acc + r[0] + r[i] == acc + r[i] + r[0];
    }
  }

  lemma {:induction false} SumRemove(r: seq<real>, i: nat)
    requires i < |r|
    ensures Sum(r) == r[i] + Sum(r[..i] + r[i + 1..])
    decreases i
  {
    var rest := r[..i] + r[i + 1..];
    if i == 0 {
      assert rest == r[1..];
    } else {
      SumRemove(r[1..], i - 1);
      assert rest[1..] == r[1..][..i - 1] + r[1..][i..];
    }
  }

  lemma {:induction false} CountPermutes(r: seq<real>, t: seq<real>, acc: real, total: real, w: real)
    requires multiset(r) == multiset(t)
    ensures Count(r, acc, total, w) == Count(t, acc, total, w)
    ensures Sum(r) == Sum(t)
    decreases |r|
  {
    assert |r| == |multiset(r)| == |multiset(t)| == |t|;
    if r != [] {
      var n := |r| - 1;
      var j := Locate(r, t);
      var rest := t[..j] + t[j + 1..];
      assert r[..n] + r[n + 1..] == r[..n];
      CountRemove(r, n, acc, total, w);
      CountRemove(t, j, acc, total, w);
      SumRemove(r, n);
      SumRemove(t, j);
      CountPermutes(r[..n], rest, acc, total, w);
      CountPermutes(r[..n], rest, acc + r[n], total, w);
    }
  }

  /** A sum over the differences with per-difference terms. */
  ghost function SumBy(nz: seq<int>, f: int -> real): real
  {
    if nz == [] then 0.0 else f(nz[0]) + SumBy(nz[1..], f)
  }

  lemma {:induction false} SumByRemove(nz: seq<int>, f: int -> real, i: nat)
    requires i < |nz|
    ensures SumBy(nz, f) == f(nz[i]) + SumBy(nz[..i] + nz[i + 1..], f)
    decreases i
  {
    var rest := nz[..i] + nz[i + 1..];
    if i == 0 {
      assert rest == nz[1..];
    } else {
      SumByRemove(nz[1..], f, i - 1);
      assert rest[1..] == nz[1..][..i - 1] + nz[1..][i..];
    }
  }

  lemma {:induction false} SumByPermuted(a: seq<int>, b: seq<int>, f: int -> real)
    requires multiset(a) == multiset(b)
    ensures SumBy(a, f) == SumBy(b, f)
    decreases |a|
  {
    assert |a| == |multiset(a)| == |multiset(b)| == |b|;
    if a != [] {
      var n := |a| - 1;
      var j := Locate(a, b);
      assert a[..n] + a[n + 1..] == a[..n];
      SumByRemove(a, f, n);
      SumByRemove(b, f, j);
      SumByPermuted(a[..n], b[..j] + b[j + 1..], f);
    }
  }

  /** The rank of a difference among those of nz. */
  ghost function RankIn(nz: seq<int>): int -> real
  {
    d => RankOf(Magnitudes(nz), Abs(d))
  }

  ghost function PosPart(f: int -> real): int -> real { d => if d > 0 then f(d) else 0.0 }
  ghost function NegPart(f: int -> real): int -> real { d => if d > 0 then 0.0 else f(d) }

  lemma {:induction false} SignedSumIsSumBy(nz: seq<int>, f: int -> real)
    ensures SignedSum(Mapped(nz, f), Positive(nz)) == SumBy(nz, PosPart(f))
    ensures SignedSum(Mapped(nz, f), Flip(Positive(nz))) == SumBy(nz, NegPart(f))
    decreases |nz|
  {
    if nz != [] {
      SignedSumIsSumBy(nz[1..], f);
      assert Mapped(nz, f)[1..] == Mapped(nz[1..], f);
      assert Positive(nz)[1..] == Positive(nz[1..]);
      assert Flip(Positive(nz))[1..] == Flip(Positive(nz[1..]));
    }
  }

  lemma StatisticBySums(nz: seq<int>, f: int -> real)
    requires RanksOf(nz) == Mapped(nz, f)
    ensures Statistic(nz) == Min(SumBy(nz, PosPart(f)), SumBy(nz, NegPart(f)))
  {
    SignedSumIsSumBy(nz, f);
  }

  lemma {:induction false} PermutedSame(a: seq<int>, b: seq<int>)
    requires multiset(a) == multiset(b)
    ensures Statistic(a) == Statistic(b)
    ensures PValue(a) == PValue(b)
  {
    hide Statistic, Hits, Count, Sum, Product, RankOf;
    var f := RankIn(a);
    MappedPermuted(a, b, Abs);
    assert |a| == |multiset(a)| == |multiset(b)| == |b|;
    forall i | 0 <= i < |b| ensures RanksOf(b)[i] == f(b[i]) {
      RankPermuted(Magnitudes(a), Magnitudes(b), Abs(b[i]));
    }
    assert RanksOf(a) == Mapped(a, f) && RanksOf(b) == Mapped(b, f);
    StatisticBySums(a, f);
    StatisticBySums(b, f);
    SumByPermuted(a, b, PosPart(f));
    SumByPermuted(a, b, NegPart(f));
    var w := Statistic(a);
    MappedPermuted(a, b, f);
    HitsAreCount(RanksOf(a), w);
    HitsAreCount(RanksOf(b), w);
    CountPermutes(RanksOf(a), RanksOf(b), 0.0, Sum(RanksOf(a)), w);
  }

  /** Main result: the order in which the pairs are listed changes nothing in the outcome. */
  lemma PermutationInvariant(a: seq<int>, b: seq<int>)
    requires multiset(a) == multiset(b)
    ensures Outcome(a) == Outcome(b)
  {
    FilterPermuted(a, b, IsNonZero);
    var x, y := NonZero(a), NonZero(b);
    assert |x| == |multiset(x)| == |multiset(y)| == |y|;
    hide NonZero, Statistic, PValue;
    PermutedSame(x, y);
  }
}
