/** Reranking by a small activation prior (`apply_actr_rerank` in `retrieval.rs`). The activations
    themselves, sums of powers and a logarithm, are a parameter. */
module Rerank {
  import opened Hits
  import opened Positions
  import opened Sorting

  const BLEND_WEIGHT: real := 0.2

  function Least(acts: seq<real>): (m: real)
    requires acts != []
    ensures m in acts && forall i :: 0 <= i < |acts| ==> m <= acts[i]
  {
    if |acts| == 1 then acts[0]
    else
      assert acts == [acts[0]] + acts[1..];
      var m := Least(acts[1..]);
      if acts[0] < m then acts[0] else m
  }

  function Greatest(acts: seq<real>): (m: real)
    requires acts != []
    ensures m in acts && forall i :: 0 <= i < |acts| ==> acts[i] <= m
  {
    if |acts| == 1 then acts[0]
    else
      assert acts == [acts[0]] + acts[1..];
      var m := Greatest(acts[1..]);
      if acts[0] > m then acts[0] else m
  }

  /** There is more than one activation among at least two hits. */
  predicate Spread(acts: seq<real>)
  {
    |acts| >= 2 && Greatest(acts) > Least(acts)
  }

  function Normal(acts: seq<real>, i: nat): (r: real)
    requires Spread(acts) && i < |acts|
    ensures 0.0 <= r <= 1.0
  {
    var range := Greatest(acts) - Least(acts);
    UnitRatio(acts[i] - Least(acts), range);
    (acts[i] - Least(acts)) / range
  }

  lemma UnitRatio(x: real, y: real)
    requires 0.0 <= x <= y && y > 0.0
    ensures 0.0 <= x / y <= 1.0
  {
  }

  function Blended(acts: seq<real>, i: nat): real
    requires Spread(acts) && i < |acts|
  {
    var pos := 1.0 - i as real / (|acts| - 1) as real;
    (1.0 - BLEND_WEIGHT) * pos + BLEND_WEIGHT * Normal(acts, i)
  }

  /** Higher score first; on equal scores the earlier position. */
  function Ahead(acts: seq<real>): (nat, nat) -> bool
    requires Spread(acts)
  {
    (i: nat, j: nat) =>
      var x, y := if i < |acts| then Blended(acts, i) else 0.0, if j < |acts| then Blended(acts, j) else 0.0;
      x > y || (x == y && i <= j)
  }

  function Reranked(hits: seq<Hit>, acts: seq<real>): seq<Hit>
    requires |acts| == |hits|
  {
    if Spread(acts) then Pluck(hits, Arranged(|acts|, Ahead(acts))) else hits
  }

  method ApplyActrRerank(hits: HitList, activation: Hit -> real)
    modifies hits
    ensures hits.items == Reranked(old(hits.items), Mapped(old(hits.items), activation))
  {
    var n := |hits.items|;
    if n < 2 {
      return;
    }
    var acts := Mapped(hits.items, activation);
    var range := Greatest(acts) - Least(acts);
    if range <= 0.0 {
      return;
    }
    var order := Arranged(n, Ahead(acts));
    hits.items := Pluck(hits.items, order);
  }

  // ---- how far the prior can move a hit

  /** No hit is lost or invented. */
  lemma RerankPermutes(hits: seq<Hit>, acts: seq<real>)
    requires |acts| == |hits|
    ensures multiset(Reranked(hits, acts)) == multiset(hits)
  {
    if Spread(acts) {
      PluckArranged(hits, Ahead(acts));
    }
  }

  /** The hit at position i comes out before the one at position j. */
  ghost predicate ComesBefore(acts: seq<real>, i: nat, j: nat)
    requires Spread(acts)
  {
    var order := Arranged(|acts|, Ahead(acts));
    exists x, y :: 0 <= x < y < |acts| && order[x] == i && order[y] == j
  }

  /** Which of two hits comes out first is decided by their scores alone. */
  lemma BeforeIsAhead(acts: seq<real>, i: nat, j: nat)
    requires Spread(acts) && i < |acts| && j < |acts| && i != j
    ensures ComesBefore(acts, i, j) <==> Ahead(acts)(i, j)
  {
    var le := Ahead(acts);
    ArrangedFacts(|acts|, le);
    var order := Arranged(|acts|, le);
    assert i in order && j in order;
    var x :| 0 <= x < |order| && order[x] == i;
    var y :| 0 <= y < |order| && order[y] == j;
    if x < y {
      assert le(order[x], order[y]);
    } else {
      assert le(order[y], order[x]);
    }
  }

  lemma ScoreGap(acts: seq<real>, i: nat, j: nat)
    requires Spread(acts) && i < j < |acts|
    ensures Blended(acts, i) - Blended(acts, j)
         == 0.8 * ((j - i) as real / (|acts| - 1) as real) + 0.2 * (Normal(acts, i) - Normal(acts, j))
  {
    hide Spread, Normal;
    var m := (|acts| - 1) as real;
    assert (j - i) as real / m == j as real / m - i as real / m;
  }

  /** Main result: the prior is small. A hit can be overtaken only by one with a higher activation, and
      only from fewer than (n - 1) / 4 positions behind. */
  lemma StaysAhead(acts: seq<real>, i: nat, j: nat)
    requires Spread(acts) && i < j < |acts|
    requires acts[i] >= acts[j] || 4 * (j - i) >= |acts| - 1
    ensures ComesBefore(acts, i, j)
  {
    BeforeIsAhead(acts, i, j);
    ScoreGap(acts, i, j);
    var m := (|acts| - 1) as real;
    if acts[i] >= acts[j] {
      RatioOrder(acts[j] - Least(acts), acts[i] - Least(acts), Greatest(acts) - Least(acts));
      RatioOrder(0.0, (j - i) as real, m);
    } else {
      RatioOrder(m / 4.0, (j - i) as real, m);
    }
  }

  lemma RatioOrder(x: real, y: real, m: real)
    requires m > 0.0 && x <= y
    ensures x / m <= y / m
    ensures 0.0 / m == 0.0 && (m / 4.0) / m == 0.25
  {
  }

  /** The bound is exact: from any nearer position some activations do overtake. */
  lemma BoundIsExact(n: nat, i: nat, j: nat)
    requires i < j < n
    ensures (forall acts: seq<real> :: |acts| == n && Spread(acts) ==> ComesBefore(acts, i, j))
            <==> 4 * (j - i) >= n - 1
  {
    if 4 * (j - i) >= n - 1 {
      forall acts: seq<real> | |acts| == n && Spread(acts) ensures ComesBefore(acts, i, j) {
        StaysAhead(acts, i, j);
      }
    } else {
      var acts := seq(n, k => if k == j then 1.0 else 0.0);
      Overtakes(acts, i, j);
    }
  }

  lemma Overtakes(acts: seq<real>, i: nat, j: nat)
    requires i < j < |acts| && 4 * (j - i) < |acts| - 1
    requires forall k :: 0 <= k < |acts| ==> acts[k] == if k == j then 1.0 else 0.0
    ensures Spread(acts) && !ComesBefore(acts, i, j)
  {
    assert acts[i] in acts && acts[j] in acts;
    assert Least(acts) == 0.0 && Greatest(acts) == 1.0;
    BeforeIsAhead(acts, i, j);
    ScoreGap(acts, i, j);
    var m := (|acts| - 1) as real;
    StrictRatio((j - i) as real, m / 4.0, m);
    RatioOrder(0.0, 0.0, m);
  }

  lemma StrictRatio(x: real, y: real, m: real)
    requires m > 0.0 && x < y
    ensures x / m < y / m
  {
  }

  // ---- only relative activations matter

  ghost function Scaled(a: real, b: real, x: real): real
  {
    a * x + b
  }

  /** Rescaling and shifting every activation changes nothing: as the activation is a logarithm of a
      sum of powers of ages, neither its base nor the unit of age is visible in the result. */
  lemma ScaleInvariant(hits: seq<Hit>, acts: seq<real>, acts': seq<real>, a: real, b: real)
    requires |acts| == |acts'| == |hits| && a > 0.0
    requires forall i :: 0 <= i < |acts| ==> acts'[i] == Scaled(a, b, acts[i])
    ensures Reranked(hits, acts') == Reranked(hits, acts)
  {
    hide *;
    ScaledSpread(acts, acts', a, b);
    SameReranked(hits, acts, acts');
  }

  lemma ScaledSpread(acts: seq<real>, acts': seq<real>, a: real, b: real)
    requires |acts| == |acts'| && a > 0.0
    requires forall i :: 0 <= i < |acts| ==> acts'[i] == Scaled(a, b, acts[i])
    ensures Spread(acts') <==> Spread(acts)
    ensures Spread(acts) ==> forall i: nat :: i < |acts| ==> Normal(acts', i) == Normal(acts, i)
  {
    hide Scaled, Least, Greatest;
    if acts != [] {
      ScaledExtremes(acts, acts', a, b);
      ScaledOrder(a, b, Greatest(acts), Least(acts));
      if Spread(acts) {
        forall i: nat | i < |acts| ensures Normal(acts', i) == Normal(acts, i) {
          ScaledRatio(a, b, acts[i], Least(acts), Greatest(acts));
        }
      }
    }
  }

  lemma SameReranked(hits: seq<Hit>, acts: seq<real>, acts': seq<real>)
    requires |acts| == |acts'| == |hits| && (Spread(acts') <==> Spread(acts))
    requires Spread(acts) ==> forall i: nat :: i < |acts| ==> Normal(acts', i) == Normal(acts, i)
    ensures Reranked(hits, acts') == Reranked(hits, acts)
  {
    hide Spread, Normal;
    if Spread(acts) {
      forall i: nat | i < |acts| ensures Blended(acts', i) == Blended(acts, i) {
      }
      hide Blended;
      SameArranged(|acts|, Ahead(acts), Ahead(acts'));
    }
  }

  lemma ScaledExtremes(acts: seq<real>, acts': seq<real>, a: real, b: real)
    requires |acts| == |acts'| && a > 0.0 && acts != []
    requires forall i :: 0 <= i < |acts| ==> acts'[i] == Scaled(a, b, acts[i])
    ensures Least(acts') == Scaled(a, b, Least(acts)) && Greatest(acts') == Scaled(a, b, Greatest(acts))
  {
    hide Scaled, Least, Greatest;
    forall i | 0 <= i < |acts|
      ensures Scaled(a, b, Least(acts)) <= acts'[i] <= Scaled(a, b, Greatest(acts))
    {
      ScaledOrder(a, b, acts[i], Least(acts));
      ScaledOrder(a, b, Greatest(acts), acts[i]);
    }
    var lo :| 0 <= lo < |acts| && acts[lo] == Least(acts);
    var hi :| 0 <= hi < |acts| && acts[hi] == Greatest(acts);
    assert Least(acts') <= acts'[lo] && Greatest(acts') >= acts'[hi];
  }

  lemma ScaledOrder(a: real, b: real, x: real, y: real)
    requires a > 0.0
    ensures x > y <==> Scaled(a, b, x) > Scaled(a, b, y)
  {
    ScaledDifference(a, b, x, y);
  }

  lemma ScaledDifference(a: real, b: real, x: real, y: real)
    ensures Scaled(a, b, x) - Scaled(a, b, y) == a * (x - y)
  {
  }

  lemma ScaledRatio(a: real, b: real, x: real, lo: real, hi: real)
    requires a > 0.0 && hi > lo && Scaled(a, b, hi) > Scaled(a, b, lo)
    ensures (Scaled(a, b, x) - Scaled(a, b, lo)) / (Scaled(a, b, hi) - Scaled(a, b, lo)) == (x - lo) / (hi - lo)
  {
    ScaledDifference(a, b, x, lo);
    ScaledDifference(a, b, hi, lo);
    hide Scaled;
  }

  // ---- the order of the list

  /** What the hit at position i scores: four fifths of its place in the list, from 1 down to 0, and one
      fifth of its activation, scaled from 0 for the least to 1 for the greatest. */
  ghost function ScoreAt(acts: seq<real>, lo: real, hi: real, i: nat): real
    requires i < |acts| && |acts| >= 2 && hi > lo
  {
    0.8 * (1.0 - i as real / (|acts| - 1) as real) + 0.2 * ((acts[i] - lo) / (hi - lo))
  }

  /** The positions in the order of the scores, equal ones in list order. */
  ghost predicate ByScore(acts: seq<real>, lo: real, hi: real, order: seq<nat>)
    requires |acts| >= 2 && hi > lo
  {
    && |order| == |acts|
    && (forall i: nat :: i < |acts| ==> i in order)
    && (forall x :: 0 <= x < |order| ==> order[x] < |acts|)
    && forall x, y :: 0 <= x < y < |order| ==>
         && order[x] != order[y]
         && ScoreAt(acts, lo, hi, order[x]) >= ScoreAt(acts, lo, hi, order[y])
         && (ScoreAt(acts, lo, hi, order[x]) == ScoreAt(acts, lo, hi, order[y]) ==> order[x] < order[y])
  }

  lemma BlendedIsScore(acts: seq<real>, lo: real, hi: real, i: nat)
    requires i < |acts| && |acts| >= 2 && hi > lo
    requires lo in acts && hi in acts && forall x :: x in acts ==> lo <= x <= hi
    ensures Spread(acts) && Blended(acts, i) == ScoreAt(acts, lo, hi, i)
  {
    assert Least(acts) == lo && Greatest(acts) == hi;
  }

  /** Main result for the list: the reranked hits are the hits in the order of their scores, and the list is
      left alone when it is shorter than two or all activations are the same. */
  lemma RerankedOrder(hits: seq<Hit>, acts: seq<real>, lo: real, hi: real)
    requires |acts| == |hits|
    requires acts != [] ==> lo in acts && hi in acts && forall x :: x in acts ==> lo <= x <= hi
    ensures |hits| < 2 || hi == lo ==> Reranked(hits, acts) == hits
    ensures |hits| >= 2 && hi > lo ==>
              exists order ::
                && ByScore(acts, lo, hi, order)
                && |Reranked(hits, acts)| == |hits|
                && forall x :: 0 <= x < |order| ==> Reranked(hits, acts)[x] == hits[order[x]]
  {
    if |hits| >= 2 {
      assert Least(acts) == lo && Greatest(acts) == hi;
      hide ByScore;
      if hi > lo {
        OrderByScore(acts, lo, hi);
      }
    }
  }

  lemma OrderByScore(acts: seq<real>, lo: real, hi: real)
    requires |acts| >= 2 && hi > lo && lo in acts && hi in acts && forall x :: x in acts ==> lo <= x <= hi
    ensures Spread(acts) && ByScore(acts, lo, hi, Arranged(|acts|, Ahead(acts)))
  {
    BlendedIsScore(acts, lo, hi, 0);
    forall i: nat | i < |acts| ensures Blended(acts, i) == ScoreAt(acts, lo, hi, i) {
      BlendedIsScore(acts, lo, hi, i);
    }
    ArrangedFacts(|acts|, Ahead(acts));
    hide Blended, ScoreAt, Arranged, Spread;
    var order := Arranged(|acts|, Ahead(acts));
    forall x | 0 <= x < |order| ensures order[x] < |acts| {
      assert order[x] in order;
    }
    forall x, y | 0 <= x < y < |order| ensures Ahead(acts)(order[x], order[y]) && order[x] != order[y] {
    }
  }

  /** In the list that comes out, a hit stands before every later one of no higher activation, and before
      every one that stood at least (n - 1) / 4 positions behind it. */
  lemma StaysAheadInList(hits: seq<Hit>, acts: seq<real>, i: nat, j: nat)
    requires |acts| == |hits| && i < j < |hits|
    requires acts[i] >= acts[j] || 4 * (j - i) >= |acts| - 1
    ensures exists x, y :: 0 <= x < y < |Reranked(hits, acts)|
                           && Reranked(hits, acts)[x] == hits[i] && Reranked(hits, acts)[y] == hits[j]
  {
    if Spread(acts) {
      StaysAhead(acts, i, j);
      hide Ahead;
      var order := Arranged(|acts|, Ahead(acts));
      var x, y :| 0 <= x < y < |acts| && order[x] == i && order[y] == j;
      assert Reranked(hits, acts)[x] == hits[i] && Reranked(hits, acts)[y] == hits[j];
    } else {
      assert Reranked(hits, acts)[i] == hits[i] && Reranked(hits, acts)[j] == hits[j];
    }
  }
}
