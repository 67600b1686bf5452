/** Tie-averaged ranks (`ranks` in `score_r24.py`). */
module Ranks {
  import opened Positions
  import opened Sorting

  ghost function CountLess(s: seq<int>, v: int): nat
  {
    if s == [] then 0 else CountLess(s[..|s| - 1], v) + (if s[|s| - 1] < v then 1 else 0)
  }

  ghost function CountEqual(s: seq<int>, v: int): nat
  {
    if s == [] then 0 else CountEqual(s[..|s| - 1], v) + (if s[|s| - 1] == v then 1 else 0)
  }

  /** One more than the number of smaller values, ties sharing the middle of their positions. */
  ghost function RankOf(s: seq<int>, v: int): real
  {
    CountLess(s, v) as real + (CountEqual(s, v) + 1) as real / 2.0
  }

  // ---- counts depend on the multiset only

  lemma {:induction false} CountConcat(s: seq<int>, t: seq<int>, v: int)
    ensures CountLess(s + t, v) == CountLess(s, v) + CountLess(t, v)
    ensures CountEqual(s + t, v) == CountEqual(s, v) + CountEqual(t, v)
    decreases |t|
  {
    if t == [] {
      assert s + t == s;
    } else {
      var init := t[..|t| - 1];
      assert (s + t)[..|s + t| - 1] == s + init;
      CountConcat(s, init, v);
    }
  }

  lemma CountRemove(s: seq<int>, i: nat, v: int)
    requires i < |s|
    ensures CountLess(s, v) == CountLess(s[..i] + s[i + 1..], v) + (if s[i] < v then 1 else 0)
    ensures CountEqual(s, v) == CountEqual(s[..i] + s[i + 1..], v) + (if s[i] == v then 1 else 0)
  {
    assert s == s[..i + 1] + s[i + 1..];
    assert s[..i + 1][..i] == s[..i];
    CountConcat(s[..i + 1], s[i + 1..], v);
    CountConcat(s[..i], s[i + 1..], v);
  }

  lemma {:induction false} CountPermuted(s: seq<int>, t: seq<int>, v: int)
    requires multiset(s) == multiset(t)
    ensures CountLess(s, v) == CountLess(t, v) && CountEqual(s, v) == CountEqual(t, v)
    decreases |s|
  {
    assert |s| == |multiset(s)| == |multiset(t)| == |t|;
    if s != [] {
      var n := |s| - 1;
      var i := Locate(s, t);
      CountRemove(t, i, v);
      CountPermuted(s[..n], t[..i] + t[i + 1..], v);
    }
  }

  lemma RankPermuted(s: seq<int>, t: seq<int>, v: int)
    requires multiset(s) == multiset(t)
    ensures RankOf(s, v) == RankOf(t, v)
  {
    CountPermuted(s, t, v);
  }

  // ---- the loop

  /** The comparison of the sort key. */
  function ByValue(vals: seq<int>): (nat, nat) -> bool
  {
    (i: nat, j: nat) => (if i < |vals| then vals[i] else 0) <= (if j < |vals| then vals[j] else 0)
  }

  function Order(vals: seq<int>): (r: seq<nat>)
    ensures |r| == |vals| && forall i :: i in r ==> i < |vals|
  {
    Arranged(|vals|, ByValue(vals))
  }

  lemma OrderFacts(vals: seq<int>)
    ensures var w := Pluck(vals, Order(vals));
            && multiset(w) == multiset(vals)
            && (forall j, k :: 0 <= j < k < |w| ==> w[j] <= w[k])
    ensures forall j, k :: 0 <= j < k < |vals| ==> Order(vals)[j] != Order(vals)[k]
    ensures forall i :: 0 <= i < |vals| ==> i in Order(vals)
  {
    ArrangedFacts(|vals|, ByValue(vals));
    PluckArranged(vals, ByValue(vals));
    var order, w := Order(vals), Pluck(vals, Order(vals));
    forall j, k | 0 <= j < k < |w| ensures w[j] <= w[k] {
      assert ByValue(vals)(order[j], order[k]);
    }
  }

  /** In a sorted list, a maximal block of equal values has i smaller values and j - i + 1 equal ones. */
  lemma BlockCounts(w: seq<int>, i: nat, j: nat)
    requires forall a, b :: 0 <= a < b < |w| ==> w[a] <= w[b]
    requires i <= j < |w| && w[i] == w[j]
    requires i > 0 ==> w[i - 1] < w[i]
    requires j + 1 < |w| ==> w[j] < w[j + 1]
    ensures CountLess(w, w[i]) == i && CountEqual(w, w[i]) == j - i + 1
  {
    var v := w[i];
    forall k | 0 <= k < i ensures w[k] < v {
      assert k < i - 1 ==> w[k] <= w[i - 1];
    }
    forall k | i <= k <= j ensures w[k] == v {
      assert i < k < j ==> w[i] <= w[k] <= w[j];
    }
    forall k | j < k < |w| ensures w[k] > v {
      assert j + 1 < k ==> w[j + 1] <= w[k];
    }
    SplitCounts(w, v, i, j + 1);
  }

  lemma SplitCounts(w: seq<int>, v: int, i: nat, j: nat)
    requires i <= j <= |w|
    requires forall k :: 0 <= k < i ==> w[k] < v
    requires forall k :: i <= k < j ==> w[k] == v
    requires forall k :: j <= k < |w| ==> w[k] > v
    ensures CountLess(w, v) == i && CountEqual(w, v) == j - i
  {
    hide CountLess, CountEqual;
    AllLess(w[..i], v);
    AllEqual(w[i..j], v);
    AllGreater(w[j..], v);
    CountConcat(w[..i], w[i..j], v);
    CountConcat(w[..i] + w[i..j], w[j..], v);
    assert w == w[..i] + w[i..j] + w[j..];
  }

  lemma {:induction false} AllLess(s: seq<int>, v: int)
    requires forall k :: 0 <= k < |s| ==> s[k] < v
    ensures CountLess(s, v) == |s| && CountEqual(s, v) == 0
    decreases |s|
  {
    if s != [] {
      AllLess(s[..|s| - 1], v);
    }
  }

  lemma {:induction false} AllEqual(s: seq<int>, v: int)
    requires forall k :: 0 <= k < |s| ==> s[k] == v
    ensures CountLess(s, v) == 0 && CountEqual(s, v) == |s|
    decreases |s|
  {
    if s != [] {
      AllEqual(s[..|s| - 1], v);
    }
  }

  lemma {:induction false} AllGreater(s: seq<int>, v: int)
    requires forall k :: 0 <= k < |s| ==> s[k] > v
    ensures CountLess(s, v) == 0 && CountEqual(s, v) == 0
    decreases |s|
  {
    if s != [] {
      AllGreater(s[..|s| - 1], v);
    }
  }

  lemma BlockRank(vals: seq<int>, w: seq<int>, i: nat, j: nat)
    requires multiset(w) == multiset(vals)
    requires forall a, b :: 0 <= a < b < |w| ==> w[a] <= w[b]
    requires i <= j < |w| && w[i] == w[j]
    requires i > 0 ==> w[i - 1] < w[i]
    requires j + 1 < |w| ==> w[j] < w[j + 1]
    ensures (i + j) as real / 2.0 + 1.0 == RankOf(vals, w[i])
  {
    BlockCounts(w, i, j);
    RankPermuted(w, vals, w[i]);
  }

  /** The innermost loop: one rank for a block of ties. */
  method FillBlock(out: array<real>, order: seq<nat>, i: nat, j: nat, avg: real)
    requires i <= j < |order| && forall k :: 0 <= k < |order| ==> order[k] < out.Length
    requires forall a, b :: 0 <= a < b < |order| ==> order[a] != order[b]
    modifies out
    ensures forall k :: i <= k <= j ==> out[order[k]] == avg
    ensures forall k :: 0 <= k < |order| && (k < i || k > j) ==> out[order[k]] == old(out[order[k]])
  {
    for k := i to j + 1
      invariant forall m :: i <= m < k ==> out[order[m]] == avg
      invariant forall m :: 0 <= m < |order| && (m < i || m >= k) ==> out[order[m]] == old(out[order[m]])
    {
      out[order[k]] := avg;
    }
  }

  /** Every value receives its tie-averaged rank. */
  method RankAll(vals: seq<int>) returns (out: array<real>)
    ensures fresh(out) && out.Length == |vals|
    ensures forall i :: 0 <= i < |vals| ==> out[i] == RankOf(vals, vals[i])
  {
    hide *;
    var order := Order(vals);
    OrderFacts(vals);
    ghost var w := Pluck(vals, order);
    out := new real[|vals|](_ => 0.0);
    var i := 0;
    while i < |order|
      invariant i <= |order|
      invariant 0 < i < |order| ==> w[i - 1] < w[i]
      invariant forall k :: 0 <= k < i ==> out[order[k]] == RankOf(vals, w[k])
    {
      var j := i;
      while j + 1 < |order| && vals[order[j + 1]] == vals[order[i]]
        invariant i <= j < |order| && w[j] == w[i]
      {
        j := j + 1;
      }
      assert j + 1 < |w| ==> w[j] < w[j + 1];
      var avg := (i + j) as real / 2.0 + 1.0;
      BlockRank(vals, w, i, j);
      FillBlock(out, order, i, j, avg);
      forall k | i <= k <= j ensures w[k] == w[i] {
        assert i < k < j ==> w[i] <= w[k] <= w[j];
      }
      i := j + 1;
    }
    forall x | 0 <= x < |vals| ensures out[x] == RankOf(vals, vals[x]) {
      assert x in order;
      var k :| 0 <= k < |order| && order[k] == x;
      assert out[order[k]] == RankOf(vals, w[k]);
    }
  }

  // ---- what ranks satisfy

  /** Ranks respect the order of the values, and ties share a rank. */
  lemma RanksRespectOrder(s: seq<int>, v: int, w: int)
    requires v in s && w in s
    ensures v < w <==> RankOf(s, v) < RankOf(s, w)
  {
    CountsApart(s, v, w);
    CountsApart(s, w, v);
    CountPresent(s, v);
    CountPresent(s, w);
  }

  lemma {:induction false} CountsApart(s: seq<int>, v: int, w: int)
    ensures v < w ==> CountLess(s, v) + CountEqual(s, v) <= CountLess(s, w)
    decreases |s|
  {
    if s != [] {
      CountsApart(s[..|s| - 1], v, w);
    }
  }

  lemma {:induction false} CountPresent(s: seq<int>, v: int)
    requires v in s
    ensures CountEqual(s, v) >= 1
    decreases |s|
  {
    if s[|s| - 1] != v {
      CountPresent(s[..|s| - 1], v);
    }
  }

  ghost function SumRanks(s: seq<int>, t: seq<int>): real
  {
    if t == [] then 0.0 else SumRanks(s, t[..|t| - 1]) + RankOf(s, t[|t| - 1])
  }

  lemma {:induction false} SumRanksStep(s: seq<int>, x: int, t: seq<int>)
    ensures SumRanks(s + [x], t)
         == SumRanks(s, t) + (|t| - CountLess(t, x) - CountEqual(t, x)) as real + CountEqual(t, x) as real / 2.0
    decreases |t|
  {
    if t != [] {
      SumRanksStep(s, x, t[..|t| - 1]);
      CountConcat(s, [x], t[|t| - 1]);
      SingleCount(x, t[|t| - 1]);
    }
  }

  lemma SingleCount(x: int, v: int)
    ensures CountLess([x], v) == (if x < v then 1 else 0) && CountEqual([x], v) == (if x == v then 1 else 0)
  {
    assert [x][..0] == [];
  }

  /** The ranks of n values sum to n (n + 1) / 2, ties or not. */
  lemma {:induction false} RanksSum(s: seq<int>)
    ensures SumRanks(s, s) == (|s| * (|s| + 1)) as real / 2.0
    decreases |s|
  {
    if s != [] {
      var n := |s| - 1;
      var init, x := s[..n], s[n];
      assert s == init + [x];
      RanksSum(init);
      SumRanksStep(init, x, init);
      CountConcat(init, [x], x);
      SingleCount(x, x);
      assert |s| * (|s| + 1) == n * (n + 1) + 2 * n + 2;
    }
  }
}
