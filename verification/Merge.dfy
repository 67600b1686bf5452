/** Admitting expansion candidates by displacing the tail of a hit list (`merge_displacing_tail`). */
module Merge {
  import opened Hits
  import opened Options

  /** The candidates taken: each new id once, in order, up to the cap. */
  function Admit(existing: set<string>, candidates: seq<Hit>, cap: nat): (r: seq<Hit>)
    ensures |r| <= cap
  {
    if candidates == [] then []
    else
      var n := |candidates| - 1;
      var r := Admit(existing, candidates[..n], cap);
      var c := candidates[n];
      if |r| >= cap || c.id in existing || c.id in IdSet(HitIds(r)) then r else r + [c]
  }

  function Merged(hits: seq<Hit>, candidates: seq<Hit>, cap: nat): seq<Hit>
  {
    var admitted := Admit(IdSet(HitIds(hits)), candidates, cap);
    hits[..if |admitted| <= |hits| then |hits| - |admitted| else 0] + admitted
  }

  method MergeDisplacingTail(hits: HitList, candidates: seq<Hit>, cap: nat)
    modifies hits
    ensures hits.items == Merged(old(hits.items), candidates, cap)
  {
    var existing := IdSet(HitIds(hits.items));
    var admitted := Admitted(existing, candidates, cap);
    if admitted == [] {
      assert hits.items[..|hits.items|] == hits.items;
      return;
    }
    var n := |hits.items|;
    var keep := if |admitted| <= n then n - |admitted| else 0;
    hits.items := hits.items[..keep];
    hits.items := hits.items + admitted;
  }

  /** The loop that picks the candidates to admit. */
  method Admitted(existing: set<string>, candidates: seq<Hit>, cap: nat) returns (admitted: seq<Hit>)
    ensures admitted == Admit(existing, candidates, cap)
  {
    admitted := [];
    var seen: set<string> := {};
    var i := 0;
    while i < |candidates|
      invariant i <= |candidates|
      invariant admitted == Admit(existing, candidates[..i], cap)
      invariant seen == IdSet(HitIds(admitted))
    {
      if |admitted| >= cap {
        FullAdmit(existing, candidates, i, cap);
        return;
      }
      assert candidates[..i + 1][..i] == candidates[..i];
      var c := candidates[i];
      i := i + 1;
      if c.id in existing || c.id in seen {
        continue;
      }
      seen := seen + {c.id};
      AppendIds(admitted, c);
      admitted := admitted + [c];
    }
    assert candidates[..i] == candidates;
  }

  lemma AppendIds(hits: seq<Hit>, h: Hit)
    ensures HitIds(hits + [h]) == HitIds(hits) + [h.id]
    ensures IdSet(HitIds(hits + [h])) == IdSet(HitIds(hits)) + {h.id}
  {
    assert HitIds(hits + [h]) == HitIds(hits) + [h.id];
  }

  lemma {:induction false} FullAdmit(existing: set<string>, candidates: seq<Hit>, i: nat, cap: nat)
    requires i <= |candidates| && |Admit(existing, candidates[..i], cap)| >= cap
    ensures Admit(existing, candidates, cap) == Admit(existing, candidates[..i], cap)
    decreases |candidates|
  {
    if i == |candidates| {
      assert candidates[..i] == candidates;
    } else {
      var init := candidates[..|candidates| - 1];
      assert init[..i] == candidates[..i];
      FullAdmit(existing, init, i, cap);
    }
  }

  /** What is admitted: new, pairwise distinct candidates, and all of them while the cap allows. */
  lemma {:induction false} AdmitFacts(existing: set<string>, candidates: seq<Hit>, cap: nat)
    ensures var r := Admit(existing, candidates, cap);
            && DistinctHits(r)
            && (forall h :: h in r ==> h in candidates && h.id !in existing)
            && (|r| < cap ==> forall c :: c in candidates ==> c.id in existing || c.id in IdSet(HitIds(r)))
    decreases |candidates|
  {
    if candidates != [] {
      var n := |candidates| - 1;
      AdmitFacts(existing, candidates[..n], cap);
      assert candidates == candidates[..n] + [candidates[n]];
      var r := Admit(existing, candidates[..n], cap);
      AppendIds(r, candidates[n]);
      forall i | 0 <= i < |r| ensures r[i].id in IdSet(HitIds(r)) {
        assert HitIds(r)[i] in HitIds(r);
      }
    }
  }

  /** The ids among the candidates that are not among the hits. */
  ghost function NewIds(hits: seq<Hit>, candidates: seq<Hit>): set<string>
  {
    IdSet(HitIds(candidates)) - IdSet(HitIds(hits))
  }

  ghost function Min(x: nat, y: nat): nat { if x <= y then x else y }

  lemma SmallerSet(s: set<string>, t: set<string>)
    requires s <= t
    ensures |s| <= |t|
    ensures |s| == |t| ==> s == t
  {
    assert t == s + (t - s);
  }

  lemma {:induction false} DistinctSize(hits: seq<Hit>)
    requires DistinctHits(hits)
    ensures |IdSet(HitIds(hits))| == |hits|
    decreases |hits|
  {
    if hits != [] {
      var n := |hits| - 1;
      DistinctSize(hits[..n]);
      assert hits == hits[..n] + [hits[n]];
      AppendIds(hits[..n], hits[n]);
      assert forall i :: 0 <= i < n ==> HitIds(hits[..n])[i] == hits[i].id;
    } else {
      assert IdSet(HitIds(hits)) == {};
    }
  }

  /** As many candidates are admitted as there are new ids, up to the cap. */
  lemma AdmitSize(existing: set<string>, candidates: seq<Hit>, cap: nat)
    ensures |Admit(existing, candidates, cap)| == Min(cap, |IdSet(HitIds(candidates)) - existing|)
  {
    var r := Admit(existing, candidates, cap);
    var taken, arriving := IdSet(HitIds(r)), IdSet(HitIds(candidates)) - existing;
    AdmitFacts(existing, candidates, cap);
    DistinctSize(r);
    assert taken <= arriving by {
      forall id | id in taken ensures id in arriving {
        var i :| 0 <= i < |r| && HitIds(r)[i] == id;
        assert r[i] in r;
        var j :| 0 <= j < |candidates| && candidates[j] == r[i];
        assert HitIds(candidates)[j] in HitIds(candidates);
      }
    }
    SmallerSet(taken, arriving);
    if |r| < cap {
      forall id | id in arriving ensures id in taken {
        var j :| 0 <= j < |candidates| && HitIds(candidates)[j] == id;
        assert candidates[j] in candidates;
      }
      assert taken == arriving;
    }
  }

  /** Main result for the merge: the documented promise that the list never grows fails exactly when
      the cap and the number of new ids both exceed the number of hits; otherwise the length stays. */
  lemma MergeLength(hits: seq<Hit>, candidates: seq<Hit>, cap: nat)
    ensures var arriving := |NewIds(hits, candidates)|;
            && (|Merged(hits, candidates, cap)| > |hits| <==> cap > |hits| && arriving > |hits|)
            && |Merged(hits, candidates, cap)| == if Min(cap, arriving) <= |hits| then |hits| else Min(cap, arriving)
  {
    hide Admit;
    AdmitSize(IdSet(HitIds(hits)), candidates, cap);
  }

  /** A single hit and two new candidates: the list grows. */
  lemma MergeCanGrow()
    ensures var hits := [Hit("a", "a", None, "")];
            |Merged(hits, [Hit("b", "b", None, ""), Hit("c", "c", None, "")], 10)| > |hits|
  {
    var hits, candidates := [Hit("a", "a", None, "")], [Hit("b", "b", None, ""), Hit("c", "c", None, "")];
    assert HitIds(hits) == ["a"] && HitIds(candidates) == ["b", "c"];
    hide *;
    TwoNewIds(hits, candidates);
    MergeLength(hits, candidates, 10);
  }

  lemma TwoNewIds(hits: seq<Hit>, candidates: seq<Hit>)
    requires HitIds(hits) == ["a"] && HitIds(candidates) == ["b", "c"]
    ensures |NewIds(hits, candidates)| == 2
  {
    hide HitIds;
    assert NewIds(hits, candidates) == {"b", "c"};
  }

  /** The leading hits stay in place, and distinct ids stay distinct. */
  lemma MergeKeepsDistinct(hits: seq<Hit>, candidates: seq<Hit>, cap: nat)
    requires DistinctHits(hits)
    ensures DistinctHits(Merged(hits, candidates, cap))
    ensures var admitted := Admit(IdSet(HitIds(hits)), candidates, cap);
            forall i :: 0 <= i < |hits| - |admitted| ==> Merged(hits, candidates, cap)[i] == hits[i]
  {
    var existing := IdSet(HitIds(hits));
    var admitted := Admit(existing, candidates, cap);
    AdmitFacts(existing, candidates, cap);
    forall i | 0 <= i < |hits| ensures hits[i].id in existing {
      assert HitIds(hits)[i] in HitIds(hits);
    }
    forall i | 0 <= i < |admitted| ensures admitted[i].id !in existing {
      assert admitted[i] in admitted;
    }
  }

  // ---- which candidates are admitted

  /** Candidate j has an id that no hit and no earlier candidate has. */
  ghost predicate FirstNew(hits: seq<Hit>, candidates: seq<Hit>, j: nat)
  {
    && j < |candidates|
    && (forall h :: h in hits ==> h.id != candidates[j].id)
    && forall i :: 0 <= i < j ==> candidates[i].id != candidates[j].id
  }

  /** The first cap of the candidates with new ids, in order. */
  ghost predicate FirstPicks(hits: seq<Hit>, candidates: seq<Hit>, cap: nat, picks: seq<nat>)
  {
    && (forall i, j :: 0 <= i < j < |picks| ==> picks[i] < picks[j])
    && (forall k :: 0 <= k < |picks| ==> FirstNew(hits, candidates, picks[k]))
    && |picks| <= cap
    && forall j :: FirstNew(hits, candidates, j) && j !in picks ==>
         |picks| == cap && forall k :: 0 <= k < |picks| ==> picks[k] < j
  }

  lemma FirstNewLonger(hits: seq<Hit>, init: seq<Hit>, c: Hit, j: nat)
    requires j < |init|
    ensures FirstNew(hits, init + [c], j) <==> FirstNew(hits, init, j)
  {
    assert forall i :: 0 <= i <= j ==> (init + [c])[i] == init[i];
  }

  lemma HitIdsHold(hits: seq<Hit>, id: string)
    ensures id in IdSet(HitIds(hits)) <==> exists h :: h in hits && h.id == id
  {
    if id in IdSet(HitIds(hits)) {
      var i :| 0 <= i < |hits| && HitIds(hits)[i] == id;
      assert hits[i] in hits;
    }
    if h :| h in hits && h.id == id {
      var i :| 0 <= i < |hits| && hits[i] == h;
      assert HitIds(hits)[i] in HitIds(hits);
    }
  }

  lemma {:induction false} AdmitPicks(hits: seq<Hit>, candidates: seq<Hit>, cap: nat) returns (picks: seq<nat>)
    ensures FirstPicks(hits, candidates, cap, picks)
    ensures |Admit(IdSet(HitIds(hits)), candidates, cap)| == |picks|
    ensures forall k :: 0 <= k < |picks| ==>
              && picks[k] < |candidates|
              && Admit(IdSet(HitIds(hits)), candidates, cap)[k] == candidates[picks[k]]
    decreases |candidates|
  {
    hide *;
    picks := [];
    if candidates == [] {
      NoPicks(hits, cap);
    } else {
      var n := |candidates| - 1;
      var init, c := candidates[..n], candidates[n];
      picks := AdmitPicks(hits, init, cap);
      assert candidates == init + [c];
      AdmitStep(hits, init, c, cap);
      if |picks| < cap {
        NewAtEnd(hits, init, c, cap, picks, Admit(IdSet(HitIds(hits)), init, cap));
      }
      picks := PicksStep(hits, init, c, cap, picks);
    }
  }

  lemma NoPicks(hits: seq<Hit>, cap: nat)
    ensures FirstPicks(hits, [], cap, []) && Admit(IdSet(HitIds(hits)), [], cap) == []
  {
  }

  lemma AdmitStep(hits: seq<Hit>, init: seq<Hit>, c: Hit, cap: nat)
    ensures var existing := IdSet(HitIds(hits));
            var r := Admit(existing, init, cap);
            Admit(existing, init + [c], cap) ==
              if |r| < cap && (forall h :: h in hits ==> h.id != c.id) && (forall h :: h in r ==> h.id != c.id)
              then r + [c] else r
  {
    assert (init + [c])[..|init|] == init;
    hide IdSet, HitIds;
    HitIdsHold(hits, c.id);
    HitIdsHold(Admit(IdSet(HitIds(hits)), init, cap), c.id);
  }

  lemma PicksStep(hits: seq<Hit>, init: seq<Hit>, c: Hit, cap: nat, picks: seq<nat>) returns (more: seq<nat>)
    requires FirstPicks(hits, init, cap, picks)
    ensures FirstPicks(hits, init + [c], cap, more)
    ensures more == if |picks| < cap && FirstNew(hits, init + [c], |init|) then picks + [|init|] else picks
  {
    more := if |picks| < cap && FirstNew(hits, init + [c], |init|) then picks + [|init|] else picks;
    forall j: nat
      ensures FirstNew(hits, init + [c], j) ==> j <= |init|
      ensures FirstNew(hits, init, j) <==> j < |init| && FirstNew(hits, init + [c], j)
    {
      if j < |init| {
        FirstNewLonger(hits, init, c, j);
      }
    }
    hide FirstNew;
    assert forall j :: j in more <==> j in picks || (|more| > |picks| && j == |init|);
  }

  /** Below the cap, the next candidate is new exactly when its id is among neither hits nor admitted. */
  lemma NewAtEnd(hits: seq<Hit>, init: seq<Hit>, c: Hit, cap: nat, picks: seq<nat>, r: seq<Hit>)
    requires FirstPicks(hits, init, cap, picks) && |picks| == |r| < cap
    requires forall k :: 0 <= k < |picks| ==> picks[k] < |init| && r[k] == init[picks[k]]
    ensures FirstNew(hits, init + [c], |init|)
            <==> (forall h :: h in hits ==> h.id != c.id) && (forall h :: h in r ==> h.id != c.id)
  {
    if FirstNew(hits, init + [c], |init|) {
      forall h | h in r ensures h.id != c.id {
        var k :| 0 <= k < |r| && r[k] == h;
        assert (init + [c])[picks[k]].id != (init + [c])[|init|].id;
      }
    }
    if (forall h :: h in hits ==> h.id != c.id) && (forall h :: h in r ==> h.id != c.id) {
      forall i | 0 <= i < |init| ensures init[i].id != c.id {
        if forall h :: h in hits ==> h.id != init[i].id {
          var j := FirstWithId(hits, init, i);
          assert j in picks;
          var k :| 0 <= k < |picks| && picks[k] == j;
          assert r[k] in r;
        }
      }
    }
  }

  lemma {:induction false} FirstWithId(hits: seq<Hit>, init: seq<Hit>, i: nat) returns (j: nat)
    requires i < |init| && forall h :: h in hits ==> h.id != init[i].id
    ensures j <= i && init[j].id == init[i].id && FirstNew(hits, init, j)
    decreases i
  {
    if m :| 0 <= m < i && init[m].id == init[i].id {
      j := FirstWithId(hits, init, m);
    } else {
      j := i;
    }
  }

  /** The candidates at those places, in order. */
  ghost predicate ArePicked(candidates: seq<Hit>, picks: seq<nat>, tail: seq<Hit>)
  {
    |tail| == |picks| && forall k :: 0 <= k < |picks| ==> picks[k] < |candidates| && tail[k] == candidates[picks[k]]
  }

  /** r is the hits with the candidates at those places in place of as many hits at the end. */
  ghost predicate Displaces(hits: seq<Hit>, candidates: seq<Hit>, picks: seq<nat>, r: seq<Hit>)
  {
    var kept := if |picks| <= |hits| then |hits| - |picks| else 0;
    kept <= |r| && r[..kept] == hits[..kept] && ArePicked(candidates, picks, r[kept..])
  }

  /** Main result for what is merged: the tail of the list is given up for the first cap candidates with
      new ids, in their order, and the rest of the list stays. */
  lemma MergedTail(hits: seq<Hit>, candidates: seq<Hit>, cap: nat)
    ensures exists picks: seq<nat> ::
              && FirstPicks(hits, candidates, cap, picks)
              && Displaces(hits, candidates, picks, Merged(hits, candidates, cap))
  {
    hide Admit, FirstPicks, Displaces, HitIds, IdSet;
    var picks := AdmitPicks(hits, candidates, cap);
    PicksDisplace(hits, candidates, picks, Admit(IdSet(HitIds(hits)), candidates, cap));
  }

  lemma PicksDisplace(hits: seq<Hit>, candidates: seq<Hit>, picks: seq<nat>, admitted: seq<Hit>)
    requires |admitted| == |picks|
    requires forall k :: 0 <= k < |picks| ==> picks[k] < |candidates| && admitted[k] == candidates[picks[k]]
    ensures Displaces(hits, candidates, picks,
                      hits[..if |admitted| <= |hits| then |hits| - |admitted| else 0] + admitted)
  {
    var keep := if |admitted| <= |hits| then |hits| - |admitted| else 0;
    var r := hits[..keep] + admitted;
    assert r[..keep] == hits[..keep] && r[keep..] == admitted;
  }
}
