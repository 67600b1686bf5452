/** Sorting the positions of a list instead of its elements. */
module Positions {
  import opened Sorting

  function Iota(n: nat): (r: seq<nat>)
    ensures |r| == n && forall i :: 0 <= i < n ==> r[i] == i
  {
    seq(n, i => i)
  }

  /** The elements at the given positions. */
  function Pluck<T>(vals: seq<T>, order: seq<nat>): (r: seq<T>)
    requires forall i :: i in order ==> i < |vals|
    ensures |r| == |order| && forall k :: 0 <= k < |r| ==> order[k] in order && r[k] == vals[order[k]]
  {
    seq(|order|, k requires 0 <= k < |order| => assert order[k] in order; vals[order[k]])
  }

  lemma {:induction false} PluckPermuted<T>(vals: seq<T>, a: seq<nat>, b: seq<nat>)
    requires forall i :: i in a ==> i < |vals|
    requires multiset(a) == multiset(b)
    ensures forall i :: i in b ==> i < |vals|
    ensures multiset(Pluck(vals, a)) == multiset(Pluck(vals, b))
    decreases |a|
  {
    forall i | i in b ensures i < |vals| {
      assert i in multiset(b) && i in multiset(a);
      assert i in a;
    }
    assert |a| == |multiset(a)| == |multiset(b)| == |b|;
    if a != [] {
      var n := |a| - 1;
      var j := Locate(a, b);
      var rest := b[..j] + b[j + 1..];
      assert forall i :: i in a[..n] ==> i in a;
      PluckPermuted(vals, a[..n], rest);
      assert a[n] in a;
      var pa, pb := Pluck(vals, a), Pluck(vals, b);
      assert Pluck(vals, a[..n]) == pa[..n] + pa[n + 1..];
      assert Pluck(vals, rest) == pb[..j] + pb[j + 1..];
      SameWithoutOne(pa, n, pb, j);
    }
  }

  /** The positions 0, ..., n - 1 in the order a comparison puts them. */
  function Arranged(n: nat, le: (nat, nat) -> bool): (r: seq<nat>)
    ensures multiset(r) == multiset(Iota(n)) && |r| == n
    ensures forall i :: i in r ==> i < n
  {
    var r := SortBy(Iota(n), le);
    assert forall i :: i in r ==> i in multiset(r);
    r
  }

  /** Every position occurs once, and they are in order. */
  lemma ArrangedFacts(n: nat, le: (nat, nat) -> bool)
    requires TotalPreorder(le)
    ensures forall j, k :: 0 <= j < k < n ==> Arranged(n, le)[j] != Arranged(n, le)[k]
    ensures forall i :: 0 <= i < n ==> i in Arranged(n, le)
    ensures Sorted(Arranged(n, le), le)
  {
    var ids, r := Iota(n), Arranged(n, le);
    SortBySorts(ids, le);
    UntiedPermuted(ids, r, (i: nat, j: nat) => i == j);
    forall i | 0 <= i < n ensures i in r {
      assert ids[i] in multiset(r);
    }
  }

  lemma PluckArranged<T>(vals: seq<T>, le: (nat, nat) -> bool)
    ensures multiset(Pluck(vals, Arranged(|vals|, le))) == multiset(vals)
  {
    PluckPermuted(vals, Arranged(|vals|, le), Iota(|vals|));
    assert Pluck(vals, Iota(|vals|)) == vals;
  }

  /** Comparisons that agree on the positions put them in the same order. */
  lemma SameArranged(n: nat, le: (nat, nat) -> bool, le': (nat, nat) -> bool)
    requires forall i: nat, j: nat :: i < n && j < n ==> le(i, j) == le'(i, j)
    ensures Arranged(n, le) == Arranged(n, le')
  {
    SameSort(Iota(n), le, le');
  }

  lemma {:induction false} SameSort(s: seq<nat>, le: (nat, nat) -> bool, le': (nat, nat) -> bool)
    requires forall i, j :: i in s && j in s ==> le(i, j) == le'(i, j)
    ensures SortBy(s, le) == SortBy(s, le')
  {
    if s != [] {
      SameSort(s[1..], le, le');
      var t := SortBy(s[1..], le);
      forall i | i in t ensures i in s {
        assert i in multiset(t);
        assert i in multiset(s[1..]);
      }
      SameInsert(s[0], t, le, le');
    }
  }

  lemma {:induction false} SameInsert(x: nat, s: seq<nat>, le: (nat, nat) -> bool, le': (nat, nat) -> bool)
    requires forall i :: i in s ==> le(x, i) == le'(x, i)
    ensures InsertSorted(x, s, le) == InsertSorted(x, s, le')
  {
    if s != [] {
      SameInsert(x, s[1..], le, le');
    }
  }
}
