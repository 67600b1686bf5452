/** Stable sorting and ascending sequences. */
module Sorting {
  import opened Options

  /** A reflexive comparison that the standard library's stable sort accepts. */
  ghost predicate TotalPreorder<T(!new)>(le: (T, T) -> bool)
  {
    && (forall x, y :: le(x, y) || le(y, x))
    && (forall x, y, z :: le(x, y) && le(y, z) ==> le(x, z))
  }

  ghost predicate Sorted<T>(s: seq<T>, le: (T, T) -> bool)
  {
    forall i, j :: 0 <= i < j < |s| ==> le(s[i], s[j])
  }

  function InsertSorted<T>(x: T, s: seq<T>, le: (T, T) -> bool): (r: seq<T>)
    ensures multiset(r) == multiset{x} + multiset(s)
  {
    if s == [] then [x]
    else if le(x, s[0]) then [x] + s
    else
      assert s == [s[0]] + s[1..];
      [s[0]] + InsertSorted(x, s[1..], le)
  }

  /** Stable sort: equal elements keep their order. */
  function SortBy<T>(s: seq<T>, le: (T, T) -> bool): (r: seq<T>)
    ensures multiset(r) == multiset(s)
    ensures |r| == |s|
  {
    if s == [] then []
    else
      assert s == [s[0]] + s[1..];
      var r := InsertSorted(s[0], SortBy(s[1..], le), le);
      assert |r| == |multiset(r)| == |multiset(s)| == |s|;
      r
  }

  lemma {:induction false} InsertSortedSorts<T(!new)>(x: T, s: seq<T>, le: (T, T) -> bool)
    requires TotalPreorder(le) && Sorted(s, le)
    ensures Sorted(InsertSorted(x, s, le), le)
  {
    if s != [] {
      assert forall k :: 1 <= k < |s| ==> le(s[0], s[k]);
      if !le(x, s[0]) {
        InsertSortedSorts(x, s[1..], le);
        var r := InsertSorted(x, s[1..], le);
        forall y | y in r ensures le(s[0], y) {
          assert y in multiset(r);
          assert y in multiset{x} + multiset(s[1..]);
        }
      }
    }
  }

  lemma {:induction false} SortBySorts<T(!new)>(s: seq<T>, le: (T, T) -> bool)
    requires TotalPreorder(le)
    ensures Sorted(SortBy(s, le), le)
  {
    if s != [] {
      SortBySorts(s[1..], le);
      InsertSortedSorts(s[0], SortBy(s[1..], le), le);
    }
  }

  lemma SameMembers<T>(s: seq<T>, t: seq<T>)
    requires multiset(s) == multiset(t)
    ensures forall x :: x in s <==> x in t
  {
    assert forall x :: (x in s <==> x in multiset(s)) && (x in t <==> x in multiset(t));
  }

  lemma SameLength<T>(s: seq<T>, t: seq<T>)
    requires multiset(s) == multiset(t)
    ensures |s| == |t|
  {
    assert |s| == |multiset(s)| == |multiset(t)| == |t|;
  }

  /** No two positions of s are tied. */
  ghost predicate Untied<T>(s: seq<T>, le: (T, T) -> bool)
  {
    forall i, j :: 0 <= i < j < |s| ==> !(le(s[i], s[j]) && le(s[j], s[i]))
  }

  ghost predicate Ascending<T>(s: seq<T>, lt: (T, T) -> bool)
  {
    forall i, j :: 0 <= i < j < |s| ==> lt(s[i], s[j])
  }

  /** An ascending sequence is determined by its elements. */
  lemma {:induction false} AscendingUnique<T>(s: seq<T>, t: seq<T>, lt: (T, T) -> bool)
    requires Ascending(s, lt) && Ascending(t, lt)
    requires forall x, y | x in s && y in s :: lt(x, y) ==> !lt(y, x)
    requires forall x :: x in s <==> x in t
    ensures s == t
  {
    assert t != [] ==> t[0] in s;
    if s != [] {
      assert s[0] in t;
      var j :| 0 <= j < |t| && t[j] == s[0];
      assert t[0] in s;
      var i :| 0 <= i < |s| && s[i] == t[0];
      assert i == 0 || j == 0;
      assert s[0] == t[0];
      forall x ensures x in s[1..] <==> x in t[1..] {
        TailMembership(s, lt, x);
        TailMembership(t, lt, x);
      }
      AscendingUnique(s[1..], t[1..], lt);
      assert s == [s[0]] + s[1..] && t == [t[0]] + t[1..];
    }
  }

  lemma TailMembership<T>(s: seq<T>, lt: (T, T) -> bool, x: T)
    requires s != [] && Ascending(s, lt) && !lt(s[0], s[0])
    ensures x in s[1..] <==> x in s && x != s[0]
  {
    if x in s && x != s[0] {
      var i :| 0 <= i < |s| && s[i] == x;
      assert s[1..][i - 1] == x;
    }
  }

  /** Sorting forgets the input order when no two elements are tied. */
  lemma {:induction false} SortByPermuted<T(!new)>(s: seq<T>, t: seq<T>, le: (T, T) -> bool)
    requires TotalPreorder(le) && Untied(s, le)
    requires multiset(s) == multiset(t)
    ensures SortBy(s, le) == SortBy(t, le)
  {
    var a, b := SortBy(s, le), SortBy(t, le);
    SortBySorts(s, le);
    SortBySorts(t, le);
    UntiedPermuted(s, a, le);
    UntiedPermuted(s, b, le);
    var lt := (x: T, y: T) => le(x, y) && !le(y, x);
    assert Ascending(a, lt) && Ascending(b, lt);
    forall x ensures x in a <==> x in b {
      assert x in a <==> x in multiset(a);
      assert x in b <==> x in multiset(b);
    }
    AscendingUnique(a, b, lt);
  }

  lemma {:induction false} UntiedPermuted<T>(s: seq<T>, t: seq<T>, le: (T, T) -> bool)
    requires Untied(s, le) && multiset(s) == multiset(t)
    requires forall x | x in s :: le(x, x)
    ensures Untied(t, le)
  {
    forall i, j | 0 <= i < j < |t| ensures !(le(t[i], t[j]) && le(t[j], t[i])) {
      BothInside(t, i, j);
      TwoPositions(s, t[i], t[j]);
      assert t[i] in multiset(t) && t[j] in multiset(t);
    }
  }

  lemma BothInside<T>(t: seq<T>, i: nat, j: nat)
    requires i < j < |t|
    ensures multiset{t[i], t[j]} <= multiset(t)
  {
    var x, y := t[i], t[j];
    assert t == t[..i] + [x] + t[i + 1..j] + [y] + t[j + 1..];
    assert multiset(t)
        == multiset(t[..i]) + multiset{x} + multiset(t[i + 1..j]) + multiset{y} + multiset(t[j + 1..]);
  }

  lemma TwoPositions<T>(s: seq<T>, x: T, y: T)
    requires multiset{x, y} <= multiset(s)
    ensures exists i, j :: 0 <= i < |s| && 0 <= j < |s| && i != j && s[i] == x && s[j] == y
  {
    assert x in multiset(s) && y in multiset(s);
    var i :| 0 <= i < |s| && s[i] == x;
    var rest := s[..i] + s[i + 1..];
    assert s == s[..i] + [x] + s[i + 1..];
    assert multiset(s) == multiset(rest) + multiset{x};
    assert y in multiset(rest);
    var k :| 0 <= k < |rest| && rest[k] == y;
    var j := if k < i then k else k + 1;
    assert s[j] == y;
  }

  // ---- filtering

  function Filter<T(!new)>(s: seq<T>, keep: T -> bool): (r: seq<T>)
    ensures forall x :: x in r <==> x in s && keep(x)
    ensures |r| <= |s|
  {
    if s == [] then []
    else
      assert s == [s[0]] + s[1..];
      (if keep(s[0]) then [s[0]] else []) + Filter(s[1..], keep)
  }

  lemma {:induction false} FilterConcat<T(!new)>(s: seq<T>, t: seq<T>, keep: T -> bool)
    ensures Filter(s + t, keep) == Filter(s, keep) + Filter(t, keep)
  {
    if s == [] {
      assert s + t == t;
    } else {
      assert (s + t)[1..] == s[1..] + t;
      FilterConcat(s[1..], t, keep);
    }
  }

  lemma FilterPrefix<T(!new)>(s: seq<T>, k: nat, keep: T -> bool)
    requires k < |s|
    ensures Filter(s[..k + 1], keep) == Filter(s[..k], keep) + (if keep(s[k]) then [s[k]] else [])
  {
    assert s[..k + 1] == s[..k] + [s[k]] && [s[k]][1..] == [];
    FilterConcat(s[..k], [s[k]], keep);
  }

  lemma {:induction false} FilterAscending<T(!new)>(s: seq<T>, keep: T -> bool, lt: (T, T) -> bool)
    requires Ascending(s, lt)
    ensures Ascending(Filter(s, keep), lt)
  {
    if s != [] {
      assert Ascending(s[1..], lt);
      FilterAscending(s[1..], keep, lt);
      var r := Filter(s[1..], keep);
      forall y | y in r ensures lt(s[0], y) {
        assert y in s[1..];
      }
      forall k | 0 <= k < |r| ensures lt(s[0], r[k]) {
        assert r[k] in r;
      }
    }
  }

  lemma FilterCons<T(!new)>(x: T, s: seq<T>, keep: T -> bool)
    ensures Filter([x] + s, keep) == if keep(x) then [x] + Filter(s, keep) else Filter(s, keep)
  {
    assert ([x] + s)[1..] == s;
    FilterOnce([x] + s, keep);
  }

  lemma InsertCons<T>(x: T, y: T, s: seq<T>, le: (T, T) -> bool)
    ensures InsertSorted(x, [y] + s, le) == if le(x, y) then [x] + ([y] + s) else [y] + InsertSorted(x, s, le)
  {
    assert ([y] + s)[1..] == s;
  }

  lemma FrontInsert<T>(x: T, s: seq<T>, le: (T, T) -> bool)
    requires forall y | y in s :: le(x, y)
    ensures InsertSorted(x, s, le) == [x] + s
  {
    assert s != [] ==> s[0] in s;
  }

  lemma AllAfter<T(!new)>(x: T, s: seq<T>, le: (T, T) -> bool)
    requires TotalPreorder(le) && Sorted(s, le) && s != [] && le(x, s[0])
    ensures forall y | y in s :: le(x, y)
  {
    forall y | y in s ensures le(x, y) {
      var k :| 0 <= k < |s| && s[k] == y;
      assert k == 0 || le(s[0], s[k]);
    }
  }

  /** Inserting and filtering commute. */
  lemma {:induction false} InsertFilter<T(!new)>(x: T, s: seq<T>, keep: T -> bool, le: (T, T) -> bool)
    requires TotalPreorder(le) && Sorted(s, le)
    ensures Filter(InsertSorted(x, s, le), keep)
         == if keep(x) then InsertSorted(x, Filter(s, keep), le) else Filter(s, keep)
    decreases |s|
  {
    if s == [] {
      FilterCons(x, s, keep);
      assert [x] + s == [x];
    } else {
      var y, t := s[0], s[1..];
      assert s == [y] + t && Sorted(t, le);
      hide *;
      InsertCons(x, y, t, le);
      if le(x, y) {
        FilterCons(x, s, keep);
        AllAfter(x, s, le);
        FrontInsert(x, Filter(s, keep), le);
      } else {
        InsertFilter(x, t, keep, le);
        FilterCons(y, InsertSorted(x, t, le), keep);
        FilterCons(y, t, keep);
        InsertCons(x, y, Filter(t, keep), le);
      }
    }
  }

  lemma SortCons<T>(x: T, s: seq<T>, le: (T, T) -> bool)
    ensures SortBy([x] + s, le) == InsertSorted(x, SortBy(s, le), le)
  {
    assert ([x] + s)[1..] == s;
  }

  /** A stable sort and filtering commute. */
  lemma {:induction false} SortFilter<T(!new)>(s: seq<T>, keep: T -> bool, le: (T, T) -> bool)
    requires TotalPreorder(le)
    ensures SortBy(Filter(s, keep), le) == Filter(SortBy(s, le), keep)
    decreases |s|
  {
    if s != [] {
      var x, t := s[0], s[1..];
      assert s == [x] + t;
      hide *;
      SortFilter(t, keep, le);
      SortBySorts(t, le);
      SortCons(x, t, le);
      InsertFilter(x, SortBy(t, le), keep, le);
      FilterCons(x, t, keep);
      SortCons(x, Filter(t, keep), le);
    }
  }

  /** Elements that are all tied stay where they are. */
  lemma {:induction false} TiedStay<T(!new)>(s: seq<T>, le: (T, T) -> bool)
    requires forall x, y | x in s && y in s :: le(x, y)
    ensures SortBy(s, le) == s
    decreases |s|
  {
    if s != [] {
      var x, t := s[0], s[1..];
      assert s == [x] + t;
      hide *;
      TiedStay(t, le);
      SortCons(x, t, le);
      FrontInsert(x, t, le);
    }
  }

  /** Elements of one class of ties keep their order. */
  lemma SortByStable<T(!new)>(s: seq<T>, same: T -> bool, le: (T, T) -> bool)
    requires TotalPreorder(le) && forall x, y | same(x) && same(y) :: le(x, y)
    ensures Filter(SortBy(s, le), same) == Filter(s, same)
  {
    hide SortBy;
    SortFilter(s, same, le);
    TiedStay(Filter(s, same), le);
  }

  lemma {:induction false} FilterMultiset<T(!new)>(s: seq<T>, keep: T -> bool, x: T)
    ensures multiset(Filter(s, keep))[x] == if keep(x) then multiset(s)[x] else 0
    decreases |s|
  {
    if s != [] {
      assert s == [s[0]] + s[1..];
      FilterMultiset(s[1..], keep, x);
    }
  }

  lemma {:induction false} FilterPermuted<T(!new)>(s: seq<T>, t: seq<T>, keep: T -> bool)
    requires multiset(s) == multiset(t)
    ensures multiset(Filter(s, keep)) == multiset(Filter(t, keep))
  {
    forall x ensures multiset(Filter(s, keep))[x] == multiset(Filter(t, keep))[x] {
      FilterMultiset(s, keep, x);
      FilterMultiset(t, keep, x);
    }
  }

  // ---- mapping

  function Mapped<S, T>(s: seq<S>, f: S -> T): (r: seq<T>)
    ensures |r| == |s| && forall i :: 0 <= i < |r| ==> r[i] == f(s[i])
  {
    seq(|s|, i requires 0 <= i < |s| => f(s[i]))
  }

  lemma {:induction false} MappedPermuted<S, T>(a: seq<S>, b: seq<S>, f: S -> T)
    requires multiset(a) == multiset(b)
    ensures multiset(Mapped(a, f)) == multiset(Mapped(b, f))
    decreases |a|
  {
    assert |a| == |multiset(a)| == |multiset(b)| == |b|;
    if a != [] {
      var n := |a| - 1;
      var j := Locate(a, b);
      var rest := b[..j] + b[j + 1..];
      MappedPermuted(a[..n], rest, f);
      var ma, mb := Mapped(a, f), Mapped(b, f);
      assert Mapped(a[..n], f) == ma[..n] + ma[n + 1..];
      assert Mapped(rest, f) == mb[..j] + mb[j + 1..];
      SameWithoutOne(ma, n, mb, j);
    }
  }

  // ---- filtering and mapping at once

  function FilterMap<S, T>(s: seq<S>, pick: S -> Option<T>): (r: seq<T>)
    ensures |r| <= |s|
  {
    if s == [] then []
    else
      var n := |s| - 1;
      FilterMap(s[..n], pick) + (match pick(s[n]) case Some(t) => [t] case None => [])
  }

  lemma {:induction false} FilterMapConcat<S, T>(a: seq<S>, b: seq<S>, pick: S -> Option<T>)
    ensures FilterMap(a + b, pick) == FilterMap(a, pick) + FilterMap(b, pick)
    decreases |b|
  {
    if b == [] {
      assert a + b == a;
    } else {
      var init := b[..|b| - 1];
      assert (a + b)[..|a + b| - 1] == a + init;
      FilterMapConcat(a, init, pick);
    }
  }

  lemma {:induction false} FilterMapMembers<S, T>(s: seq<S>, pick: S -> Option<T>, y: T)
    ensures y in FilterMap(s, pick) <==> exists x :: x in s && pick(x) == Some(y)
    decreases |s|
  {
    if s != [] {
      var n := |s| - 1;
      FilterMapMembers(s[..n], pick, y);
      assert s == s[..n] + [s[n]];
    }
  }

  /** The results depend on the picked elements only, as a multiset. */
  lemma {:induction false} FilterMapPermuted<S, T>(s: seq<S>, t: seq<S>, pick: S -> Option<T>)
    requires multiset(s) == multiset(t)
    ensures multiset(FilterMap(s, pick)) == multiset(FilterMap(t, pick))
    decreases |s|
  {
    hide FilterMap;
    assert |s| == |multiset(s)| == |multiset(t)| == |t|;
    if s == [] {
      assert s == t;
    } else {
      var i := Locate(s, t);
      var init, x := s[..|s| - 1], [s[|s| - 1]];
      FilterMapPermuted(init, t[..i] + t[i + 1..], pick);
      assert s == init + x && t == t[..i] + (x + t[i + 1..]);
      FilterMapConcat(init, x, pick);
      FilterMapConcat(t[..i], t[i + 1..], pick);
      FilterMapConcat(x, t[i + 1..], pick);
      FilterMapConcat(t[..i], x + t[i + 1..], pick);
    }
  }

  /** Where the last element of s sits in a permutation t, and what is left without it. */
  lemma Locate<T>(s: seq<T>, t: seq<T>) returns (i: nat)
    requires s != [] && multiset(s) == multiset(t)
    ensures i < |t| && t[i] == s[|s| - 1]
    ensures multiset(s[..|s| - 1]) == multiset(t[..i] + t[i + 1..])
  {
    var x, n := s[|s| - 1], |s| - 1;
    assert x in multiset(s);
    i :| 0 <= i < |t| && t[i] == x;
    WithoutOne(s, n);
    WithoutOne(t, i);
    assert s[..n] + s[n + 1..] == s[..n];
  }

  lemma WithoutOne<T>(s: seq<T>, i: nat)
    requires i < |s|
    ensures multiset(s[..i] + s[i + 1..]) == multiset(s) - multiset{s[i]}
  {
    assert s == s[..i] + [s[i]] + s[i + 1..];
  }

  /** Two sequences that agree without equal elements agree with them. */
  lemma SameWithoutOne<T>(s: seq<T>, i: nat, t: seq<T>, j: nat)
    requires i < |s| && j < |t| && s[i] == t[j]
    requires multiset(s[..i] + s[i + 1..]) == multiset(t[..j] + t[j + 1..])
    ensures multiset(s) == multiset(t)
  {
    WithoutOne(s, i);
    WithoutOne(t, j);
    assert s[i] in multiset(s) && t[j] in multiset(t);
    assert multiset(s) == (multiset(s) - multiset{s[i]}) + multiset{s[i]};
    assert multiset(t) == (multiset(t) - multiset{t[j]}) + multiset{t[j]};
  }

  lemma {:induction false} FilterMapFilter<S(!new), T>(s: seq<S>, keep: S -> bool, pick: S -> Option<T>)
    requires forall x :: x in s && !keep(x) ==> pick(x).None?
    ensures FilterMap(Filter(s, keep), pick) == FilterMap(s, pick)
    decreases |s|
  {
    hide FilterMap, Filter;
    if s == [] {
      FilterOnce(s, keep);
    } else {
      var x, tail := [s[0]], s[1..];
      assert s == x + tail;
      FilterOnce(s, keep);
      FilterMapFilter(tail, keep, pick);
      FilterMapConcat(x, tail, pick);
      FilterMapConcat(x, Filter(tail, keep), pick);
      if !keep(s[0]) {
        assert pick(s[0]).None?;
        PickNothing(s[0], pick);
        assert [] + Filter(tail, keep) == Filter(tail, keep);
        assert [] + FilterMap(tail, pick) == FilterMap(tail, pick);
      }
    }
  }

  lemma FilterOnce<T(!new)>(s: seq<T>, keep: T -> bool)
    ensures s == [] ==> Filter(s, keep) == []
    ensures s != [] ==> Filter(s, keep) == (if keep(s[0]) then [s[0]] else []) + Filter(s[1..], keep)
  {
  }

  lemma PickNothing<S, T>(x: S, pick: S -> Option<T>)
    requires pick(x).None?
    ensures FilterMap([x], pick) == []
  {
    assert [x][..0] == [];
  }
}
