/** Longest-first greedy choice of disjoint windows, independent of how it is computed. */
module Windows {
  import opened Sorting

  /** The words start, ..., start + size - 1. */
  datatype Window = Window(start: nat, size: nat)

  predicate Overlap(v: Window, w: Window)
  {
    v.start < w.start + w.size && w.start < v.start + v.size
  }

  /** Longer first; equally long, further left first. */
  predicate Precedes(v: Window, w: Window)
  {
    v.size > w.size || (v.size == w.size && v.start < w.start)
  }

  /** w overlaps a chosen window that takes precedence over it. */
  ghost predicate Blocked(w: Window, chosen: seq<Window>)
  {
    exists v :: v in chosen && Overlap(v, w) && Precedes(v, w)
  }

  /** The chosen windows, in order of precedence: pairwise disjoint candidates such that every other
      candidate overlaps a chosen one that is longer, or equally long and further left. */
  ghost predicate Greedy(candidates: set<Window>, chosen: seq<Window>)
  {
    && Ascending(chosen, Precedes)
    && (forall v :: v in chosen ==> v in candidates)
    && (forall i, j :: 0 <= i < j < |chosen| ==> !Overlap(chosen[i], chosen[j]))
    && (forall w :: w in candidates && w !in chosen ==> Blocked(w, chosen))
  }

  lemma {:induction false} GreedyAgree(candidates: set<Window>, a: seq<Window>, b: seq<Window>, w: Window, maxSize: nat)
    requires Greedy(candidates, a) && Greedy(candidates, b)
    requires forall v :: v in candidates ==> v.size <= maxSize
    requires w in candidates
    ensures w in a <==> w in b
    decreases maxSize - w.size, w.start
  {
    if w in a && w !in b {
      GreedyConflict(candidates, b, a, w, maxSize);
    } else if w in b && w !in a {
      GreedyConflict(candidates, a, b, w, maxSize);
    }
  }

  /** A window missing from a is blocked there by an earlier one, which b must then hold too. */
  lemma {:induction false} GreedyConflict(candidates: set<Window>, a: seq<Window>, b: seq<Window>, w: Window,
                                          maxSize: nat)
    requires Greedy(candidates, a) && Greedy(candidates, b)
    requires forall v :: v in candidates ==> v.size <= maxSize
    requires w in candidates && w !in a
    ensures w !in b
    decreases maxSize - w.size, w.start, 0
  {
    var v :| v in a && Overlap(v, w) && Precedes(v, w);
    GreedyAgree(candidates, a, b, v, maxSize);
    if w in b {
    }
  }

  ghost function MaxSize(candidates: set<Window>): (m: nat)
    ensures forall v :: v in candidates ==> v.size <= m
  {
    if candidates == {} then 0
    else
      var v :| v in candidates;
      var m := MaxSize(candidates - {v});
      if v.size > m then v.size else m
  }

  /** The greedy choice is unique, as a sequence. */
  lemma GreedyUnique(candidates: set<Window>, a: seq<Window>, b: seq<Window>)
    requires Greedy(candidates, a) && Greedy(candidates, b)
    ensures a == b
  {
    forall w ensures w in a <==> w in b {
      if w in candidates {
        GreedyAgree(candidates, a, b, w, MaxSize(candidates));
      }
    }
    AscendingUnique(a, b, Precedes);
  }

  ghost predicate Covers(chosen: seq<Window>, i: nat)
  {
    exists w :: w in chosen && w.start <= i < w.start + w.size
  }

  /** The candidates at or after the point the search has reached have not been looked at. */
  ghost predicate Reached(candidates: set<Window>, chosen: seq<Window>, next: Window)
  {
    && Ascending(chosen, Precedes)
    && (forall v :: v in chosen ==> v in candidates && Precedes(v, next))
    && (forall i, j :: 0 <= i < j < |chosen| ==> !Overlap(chosen[i], chosen[j]))
    && (forall w :: w in candidates && Precedes(w, next) && w !in chosen ==> Blocked(w, chosen))
  }

  /** Taking a candidate none of whose words is covered. */
  lemma Take(candidates: set<Window>, chosen: seq<Window>, w: Window)
    requires Reached(candidates, chosen, w) && w in candidates && w.size >= 1
    requires forall i :: w.start <= i < w.start + w.size ==> !Covers(chosen, i)
    ensures Reached(candidates, chosen + [w], Window(w.start + 1, w.size))
    ensures forall i: nat :: Covers(chosen + [w], i) <==> Covers(chosen, i) || w.start <= i < w.start + w.size
  {
    forall v | v in chosen && v.size >= 1 ensures !Overlap(v, w) {
      if Overlap(v, w) {
        var i := if v.start < w.start then w.start else v.start;
        assert Covers(chosen, i);
      }
    }
    assert forall v :: v in chosen ==> v.size >= 1;
    forall u | u in candidates && Precedes(u, Window(w.start + 1, w.size)) && u !in chosen + [w]
      ensures Blocked(u, chosen + [w])
    {
      assert Precedes(u, w);
      var v :| v in chosen && Overlap(v, u) && Precedes(v, u);
      assert v in chosen + [w];
    }
    forall i: nat ensures Covers(chosen + [w], i) <==> Covers(chosen, i) || w.start <= i < w.start + w.size {
      if Covers(chosen, i) {
        var v :| v in chosen && v.start <= i < v.start + v.size;
        assert v in chosen + [w];
      }
      if w.start <= i < w.start + w.size {
        assert w in chosen + [w];
      }
    }
  }

  /** Passing over a window that is no candidate, or one of whose words is covered. */
  lemma Skip(candidates: set<Window>, chosen: seq<Window>, w: Window)
    requires Reached(candidates, chosen, w)
    requires w in candidates ==> exists i :: w.start <= i < w.start + w.size && Covers(chosen, i)
    ensures Reached(candidates, chosen, Window(w.start + 1, w.size))
  {
    forall u | u in candidates && Precedes(u, Window(w.start + 1, w.size)) && u !in chosen
      ensures Blocked(u, chosen)
    {
      if u == w {
        var i :| w.start <= i < w.start + w.size && Covers(chosen, i);
        var v :| v in chosen && v.start <= i < v.start + v.size;
        assert Overlap(v, w);
      }
    }
  }
}
