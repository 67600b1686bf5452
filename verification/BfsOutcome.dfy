/** The expanded hit list in terms of the two stores and the memories: what every hop of the search adds,
    which discoveries are looked up, and where their memories end up. */
module BfsOutcome {
  import opened Hits
  import opened Options
  import opened Orders
  import opened Sorting
  import opened Merge
  import opened Bfs
  import opened BfsResults

  // ---- which nodes the next frontier keeps

  /** The first edge to x comes before the first edge to y. */
  ghost predicate Sooner(reached: seq<Edge>, x: string, y: string)
  {
    exists j: nat, k: nat :: j < k && FirstEdgeTo(reached, x, j) && FirstEdgeTo(reached, y, k)
  }

  /** The frontier holds the new nodes in the order of their first edges, up to fifty. */
  ghost predicate Cut(visited: set<string>, reached: seq<Edge>, frontier: seq<string>)
  {
    && |frontier| <= 50
    && (forall i, j :: 0 <= i < j < |frontier| ==> frontier[i] != frontier[j])
    && (forall x :: x in frontier ==> Mentions(reached, x) && x !in visited)
    && forall y :: Mentions(reached, y) && y !in visited && y !in frontier ==>
         |frontier| == 50 && forall x :: x in frontier ==> Sooner(reached, x, y)
  }

  lemma {:induction false} FirstMention(reached: seq<Edge>, x: string) returns (k: nat)
    requires Mentions(reached, x)
    ensures FirstEdgeTo(reached, x, k)
  {
    var n := |reached| - 1;
    var init := reached[..n];
    if Mentions(init, x) {
      k := FirstMention(init, x);
      assert init[k] == reached[k] && forall j :: 0 <= j < k ==> init[j] == reached[j];
    } else {
      k := n;
      assert reached == init + [reached[n]];
      forall j | 0 <= j < n ensures reached[j].id != x {
        assert init[j] in init;
      }
      var e :| e in reached && e.id == x;
    }
  }

  lemma SoonerLater(reached: seq<Edge>, e: Edge, x: string, y: string)
    requires Sooner(reached, x, y)
    ensures Sooner(reached + [e], x, y)
  {
    var j: nat, k: nat :| j < k && FirstEdgeTo(reached, x, j) && FirstEdgeTo(reached, y, k);
    assert FirstEdgeTo(reached + [e], x, j) && FirstEdgeTo(reached + [e], y, k);
  }

  lemma SoonerThanNew(reached: seq<Edge>, e: Edge, x: string)
    requires Mentions(reached, x) && !Mentions(reached, e.id)
    ensures Sooner(reached + [e], x, e.id)
  {
    var j := FirstMention(reached, x);
    forall i | 0 <= i < |reached| ensures reached[i].id != e.id {
      assert reached[i] in reached;
    }
    assert FirstEdgeTo(reached + [e], x, j) && FirstEdgeTo(reached + [e], e.id, |reached|);
  }

  lemma CutStep(hop: nat, existing: set<string>, visited: set<string>, reached: seq<Edge>, t: Search, e: Edge)
    requires Cut(visited, reached, t.frontier)
    requires forall x :: x in t.visited <==> x in visited || Mentions(reached, x)
    ensures Cut(visited, reached + [e], Visit(hop, existing, t, e).frontier)
  {
    hide Mentions, Sooner;
    var u := Visit(hop, existing, t, e);
    forall x ensures Mentions(reached + [e], x) <==> Mentions(reached, x) || e.id == x {
      MentionsStep(reached, e, x);
    }
    forall y, x | Mentions(reached + [e], y) && y !in visited && y !in u.frontier && x in u.frontier
      ensures |u.frontier| == 50 && Sooner(reached + [e], x, y)
    {
      if Mentions(reached, y) {
        SoonerLater(reached, e, x, y);
      } else {
        SoonerThanNew(reached, e, x);
      }
    }
  }

  lemma {:induction false} VisitAllCuts(hop: nat, existing: set<string>, s: Search, reached: seq<Edge>)
    requires s.frontier == []
    ensures Cut(s.visited, reached, VisitAll(hop, existing, s, reached).frontier)
    decreases |reached|
  {
    hide *;
    if reached == [] {
      NothingCut(hop, existing, s);
    } else {
      var n := |reached| - 1;
      var init := reached[..n];
      VisitAllCuts(hop, existing, s, init);
      VisitAllSees(hop, existing, s, init);
      CutStep(hop, existing, s.visited, init, VisitAll(hop, existing, s, init), reached[n]);
      VisitLast(hop, existing, s, reached);
      assert reached == init + [reached[n]];
    }
  }

  lemma NothingCut(hop: nat, existing: set<string>, s: Search)
    requires s.frontier == []
    ensures Cut(s.visited, [], VisitAll(hop, existing, s, []).frontier)
  {
  }

  lemma VisitLast(hop: nat, existing: set<string>, s: Search, reached: seq<Edge>)
    requires reached != []
    ensures var n := |reached| - 1;
            VisitAll(hop, existing, s, reached)
            == Visit(hop, existing, VisitAll(hop, existing, s, reached[..n]), reached[n])
  {
    hide Visit;
  }

  lemma VisitAllSees(hop: nat, existing: set<string>, s: Search, reached: seq<Edge>)
    requires s.frontier == []
    ensures forall x :: x in VisitAll(hop, existing, s, reached).visited <==> x in s.visited || Mentions(reached, x)
  {
    VisitAllVisits(hop, existing, s, reached);
    hide VisitAll, Mentions, FreshlyFound;
  }

  // ---- one hop, in terms of the stores

  /** An edge leads from the frontier to x, which has not been visited. */
  ghost predicate IsNew(b: Brain, s: Search, x: string)
  {
    x !in s.visited && ReachedFrom(b, s.frontier, x)
  }

  /** x has the heavier edge from the frontier, or an equally heavy one and the smaller id. */
  ghost predicate Stronger(b: Brain, frontier: seq<string>, x: string, y: string)
  {
    exists v, w :: HeaviestFrom(b, frontier, x, v) && HeaviestFrom(b, frontier, y, w)
                   && (v > w || (v == w && LexLe(x, y)))
  }

  /** The record of a first visit, in terms of the stores. */
  ghost predicate RecordOf(b: Brain, hits: seq<Hit>, hop: nat, s: Search, f: Found)
  {
    && IsNew(b, s, f.id) && (forall h :: h in hits ==> h.id != f.id)
    && f.hop == hop && HeaviestFrom(b, s.frontier, f.id, f.weight)
  }

  /** One hop: every new node is visited; the strongest fifty of them make up the next frontier; and
      those that are no hits are recorded, each once, with the hop and the weight of the heaviest edge. */
  ghost predicate HopOf(b: Brain, hits: seq<Hit>, hop: nat, s: Search, t: Search)
  {
    && (forall x :: x in t.visited <==> x in s.visited || IsNew(b, s, x))
    && |t.frontier| <= 50
    && (forall i, j :: 0 <= i < j < |t.frontier| ==> t.frontier[i] != t.frontier[j])
    && (forall x :: x in t.frontier ==> IsNew(b, s, x))
    && (forall y :: IsNew(b, s, y) && y !in t.frontier ==>
          |t.frontier| == 50 && forall x :: x in t.frontier ==> Stronger(b, s.frontier, x, y))
    && s.discovered <= t.discovered
    && (forall f :: f in t.discovered[|s.discovered|..] <==> RecordOf(b, hits, hop, s, f))
    && forall i, j :: |s.discovered| <= i < j < |t.discovered| ==> t.discovered[i].id != t.discovered[j].id
  }

  lemma SoonerIsStronger(b: Brain, frontier: seq<string>, x: string, y: string)
    requires Sooner(BfsResults.SortedEdges(b, frontier), x, y)
    ensures Stronger(b, frontier, x, y)
  {
    var r := BfsResults.SortedEdges(b, frontier);
    var j: nat, k: nat :| j < k && FirstEdgeTo(r, x, j) && FirstEdgeTo(r, y, k);
    FirstIsHeaviest(b, frontier, x, j);
    FirstIsHeaviest(b, frontier, y, k);
    EdgeOrder();
    SortBySorts(Reach(b, frontier), EdgeLe);
    assert EdgeLe(r[j], r[k]);
    hide HeaviestFrom, BfsResults.SortedEdges, LexLe;
    assert r[j].weight > r[k].weight || (r[j].weight == r[k].weight && LexLe(x, y));
  }

  lemma HopCuts(b: Brain, hop: nat, existing: set<string>, s: Search)
    ensures Cut(s.visited, BfsResults.SortedEdges(b, s.frontier), Hop(b, hop, existing, s).frontier)
  {
    hide VisitAll, SortBy, Reach, Cut;
    VisitAllCuts(hop, existing, s.(frontier := []), BfsResults.SortedEdges(b, s.frontier));
  }

  /** Main result for one hop. */
  lemma HopIs(b: Brain, hits: seq<Hit>, hop: nat, s: Search)
    ensures HopOf(b, hits, hop, s, Hop(b, hop, IdSet(HitIds(hits)), s))
  {
    hide *;
    var existing := IdSet(HitIds(hits));
    HopHops(b, hop, existing, s);
    HopCuts(b, hop, existing, s);
    var t := Hop(b, hop, existing, s);
    HopFrontier(b, s, t.frontier);
    HopVisits(b, hop, existing, s, t);
    forall f ensures f in t.discovered[|s.discovered|..] <==> RecordOf(b, hits, hop, s, f) {
      HopRecords(b, hits, hop, s, t, f);
    }
    HopParts(b, hits, hop, s, t);
  }

  lemma HopParts(b: Brain, hits: seq<Hit>, hop: nat, s: Search, t: Search)
    requires forall x :: x in t.visited <==> x in s.visited || IsNew(b, s, x)
    requires |t.frontier| <= 50
    requires forall i, j :: 0 <= i < j < |t.frontier| ==> t.frontier[i] != t.frontier[j]
    requires forall x :: x in t.frontier ==> IsNew(b, s, x)
    requires forall y :: IsNew(b, s, y) && y !in t.frontier ==>
               |t.frontier| == 50 && forall x :: x in t.frontier ==> Stronger(b, s.frontier, x, y)
    requires s.discovered <= t.discovered
    requires forall f :: f in t.discovered[|s.discovered|..] <==> RecordOf(b, hits, hop, s, f)
    requires forall i, j :: |s.discovered| <= i < j < |t.discovered| ==> t.discovered[i].id != t.discovered[j].id
    ensures HopOf(b, hits, hop, s, t)
  {
    hide IsNew, Stronger, RecordOf;
  }

  lemma HopFrontier(b: Brain, s: Search, frontier: seq<string>)
    requires Cut(s.visited, BfsResults.SortedEdges(b, s.frontier), frontier)
    ensures |frontier| <= 50
    ensures forall i, j :: 0 <= i < j < |frontier| ==> frontier[i] != frontier[j]
    ensures forall x :: x in frontier ==> IsNew(b, s, x)
    ensures forall y :: IsNew(b, s, y) && y !in frontier ==>
              |frontier| == 50 && forall x :: x in frontier ==> Stronger(b, s.frontier, x, y)
  {
    hide BfsResults.SortedEdges, Mentions, Sooner, Stronger, ReachedFrom;
    var r := BfsResults.SortedEdges(b, s.frontier);
    forall x ensures Mentions(r, x) <==> ReachedFrom(b, s.frontier, x) {
      MentionedIsReached(b, s.frontier, x);
    }
    forall x, y | Sooner(r, x, y) ensures Stronger(b, s.frontier, x, y) {
      SoonerIsStronger(b, s.frontier, x, y);
    }
  }

  lemma OneHeaviest(b: Brain, frontier: seq<string>, x: string, v: nat, w: nat)
    requires HeaviestFrom(b, frontier, x, v) && HeaviestFrom(b, frontier, x, w)
    ensures v == w
  {
    hide HasEdge;
  }

  lemma HopRecords(b: Brain, hits: seq<Hit>, hop: nat, s: Search, t: Search, f: Found)
    requires Hopped(b, hop, IdSet(HitIds(hits)), s, t)
    ensures f in t.discovered[|s.discovered|..] <==> RecordOf(b, hits, hop, s, f)
  {
    hide IdSet, HitIds, ReachedFrom, HeaviestFrom;
    var n := |s.discovered|;
    HitIdsHold(hits, f.id);
    if f in t.discovered[n..] {
      var i :| 0 <= i < |t.discovered[n..]| && t.discovered[n..][i] == f;
      assert FoundInHop(b, hop, IdSet(HitIds(hits)), s, t.discovered[n + i]);
    }
    if RecordOf(b, hits, hop, s, f) {
      var i :| n <= i < |t.discovered| && t.discovered[i].id == f.id;
      assert FoundInHop(b, hop, IdSet(HitIds(hits)), s, t.discovered[i]);
      OneHeaviest(b, s.frontier, f.id, f.weight, t.discovered[i].weight);
      assert t.discovered[n..][i - n] == f;
    }
  }

  lemma HopVisits(b: Brain, hop: nat, existing: set<string>, s: Search, t: Search)
    requires Hopped(b, hop, existing, s, t)
    ensures forall x :: x in t.visited <==> x in s.visited || IsNew(b, s, x)
    ensures s.discovered <= t.discovered
    ensures forall i, j :: |s.discovered| <= i < j < |t.discovered| ==> t.discovered[i].id != t.discovered[j].id
  {
    hide ReachedFrom, FoundInHop;
  }

  // ---- the whole step

  /** The states of the search, from the first five hits on. */
  ghost predicate IsSearch(b: Brain, hits: seq<Hit>, states: seq<Search>)
  {
    && states != []
    && |states[0].frontier| == (if |hits| < 5 then |hits| else 5)
    && (forall i :: 0 <= i < |states[0].frontier| ==> states[0].frontier[i] == hits[i].id)
    && (forall x :: x in states[0].visited <==> x in states[0].frontier)
    && states[0].discovered == []
    && forall h :: 1 <= h < |states| ==> HopOf(b, hits, h, states[h - 1], states[h])
  }

  /** Nearer, or as near and heavier, or equal in both and not later by id. */
  ghost predicate Better(f: Found, g: Found)
  {
    || f.hop < g.hop
    || (f.hop == g.hop && f.weight > g.weight)
    || (f.hop == g.hop && f.weight == g.weight && LexLe(f.id, g.id))
  }

  /** The ten best discoveries, best first. */
  ghost predicate TenBest(found: seq<Found>, top: seq<Found>)
  {
    && |top| == (if |found| < 10 then |found| else 10)
    && (forall f :: f in top ==> f in found)
    && (forall i, j :: 0 <= i < j < |top| ==> Better(top[i], top[j]) && top[i].id != top[j].id)
    && forall f, g :: f in top && g in found && g !in top ==> Better(f, g)
  }

  /** Place j of the ranking has a stored memory that is no hit and no memory of an earlier place. */
  ghost predicate Arrives(b: Brain, hits: seq<Hit>, top: seq<Found>, j: nat)
  {
    && j < |top| && b.memory(top[j].id).Some?
    && var id := b.memory(top[j].id).value.id;
       && (forall h :: h in hits ==> h.id != id)
       && forall i :: 0 <= i < j && b.memory(top[i].id).Some? ==> b.memory(top[i].id).value.id != id
  }

  /** The places of the memories that arrive, in ranking order. */
  ghost predicate Arrivals(b: Brain, hits: seq<Hit>, top: seq<Found>, places: seq<nat>)
  {
    && (forall i, j :: 0 <= i < j < |places| ==> places[i] < places[j])
    && forall j :: j in places <==> Arrives(b, hits, top, j)
  }

  /** The memories of those places, in order. */
  ghost predicate AreMemories(b: Brain, top: seq<Found>, places: seq<nat>, tail: seq<Hit>)
  {
    |tail| == |places|
    && forall k :: 0 <= k < |places| ==> places[k] < |top| && b.memory(top[places[k]].id) == Some(tail[k])
  }

  /** r is the hits with the memories of those places in place of as many hits at the end. */
  ghost predicate Displaced(b: Brain, hits: seq<Hit>, top: seq<Found>, places: seq<nat>, r: seq<Hit>)
  {
    var kept := if |places| <= |hits| then |hits| - |places| else 0;
    kept <= |r| && r[..kept] == hits[..kept] && AreMemories(b, top, places, r[kept..])
  }

  /** Main result: after the step the list is the hits whose tail is displaced by the stored memories, of
      ids not yet present, of the ten best discoveries of the search from the first five hits. */
  lemma ExpansionIs(b: Brain, hits: seq<Hit>, hops: nat)
    ensures exists states: seq<Search>, top: seq<Found>, places: seq<nat> ::
              && |states| == hops + 1 && IsSearch(b, hits, states)
              && TenBest(states[hops].discovered, top)
              && Arrivals(b, hits, top, places)
              && Displaced(b, hits, top, places, Expanded(b, hits, hops))
  {
    hide *;
    var states := States(b, hits, hops);
    var found := Expand(b, IdSet(HitIds(hits)), Seeds(hits), hops).discovered;
    DiscoveriesAreSound(b, IdSet(HitIds(hits)), Seeds(hits), hops);
    TopIsTenBest(found);
    TopFits(found);
    var places := ExpandedPlaces(b, hits, hops, TopFound(found));
  }

  /** The states that the specification function runs through. */
  lemma {:induction false} States(b: Brain, hits: seq<Hit>, hops: nat) returns (states: seq<Search>)
    ensures |states| == hops + 1 && IsSearch(b, hits, states)
    ensures states[hops] == Expand(b, IdSet(HitIds(hits)), Seeds(hits), hops)
  {
    hide Hop, HopOf;
    var existing, seeds := IdSet(HitIds(hits)), Seeds(hits);
    if hops == 0 {
      states := [Search(seeds, IdSet(seeds), [])];
    } else {
      var init := States(b, hits, hops - 1);
      HopIs(b, hits, hops, init[hops - 1]);
      states := init + [Expand(b, existing, seeds, hops)];
    }
  }

  lemma TopIsTenBest(found: seq<Found>)
    requires forall i, j :: 0 <= i < j < |found| ==> found[i].id != found[j].id
    ensures TenBest(found, TopFound(found))
  {
    TopIsBest(found);
    var ranked := SortBy(found, FoundLe);
    UntiedPermuted(found, ranked, (f: Found, g: Found) => f.id == g.id);
    hide SortBy, LexLe;
    assert forall f: Found, g: Found :: FoundLe(f, g) ==> Better(f, g);
  }

  lemma TopFits(found: seq<Found>)
    ensures |TopFound(found)| <= BFS_APPEND_CAP
  {
  }

  /** The ranking places whose memories are admitted. */
  lemma {:induction false} PlacesOf(b: Brain, hits: seq<Hit>, top: seq<Found>, cap: nat) returns (places: seq<nat>)
    requires |top| <= cap
    ensures Arrivals(b, hits, top, places)
    ensures |Admit(IdSet(HitIds(hits)), Candidates(b, top), cap)| == |places| <= |top|
    ensures forall k :: 0 <= k < |places| ==>
              && places[k] < |top|
              && b.memory(top[places[k]].id) == Some(Admit(IdSet(HitIds(hits)), Candidates(b, top), cap)[k])
    decreases |top|
  {
    hide *;
    places := [];
    if top == [] {
      NoPlaces(b, hits, cap);
    } else {
      var n := |top| - 1;
      var init := top[..n];
      places := PlacesOf(b, hits, init, cap);
      places := PlacesStep(b, hits, init, top[n], cap, places);
      assert top == init + [top[n]];
    }
  }

  lemma NoPlaces(b: Brain, hits: seq<Hit>, cap: nat)
    ensures Candidates(b, []) == [] && Admit(IdSet(HitIds(hits)), [], cap) == []
    ensures Arrivals(b, hits, [], [])
  {
  }

  lemma CandidatesStep(b: Brain, init: seq<Found>, f: Found)
    ensures Candidates(b, init + [f])
         == Candidates(b, init) + (if b.memory(f.id).Some? then [b.memory(f.id).value] else [])
  {
    assert (init + [f])[..|init|] == init;
  }

  lemma ArrivesLonger(b: Brain, hits: seq<Hit>, init: seq<Found>, f: Found, j: nat)
    requires j < |init|
    ensures Arrives(b, hits, init + [f], j) <==> Arrives(b, hits, init, j)
  {
    assert forall i :: 0 <= i <= j ==> (init + [f])[i] == init[i];
  }

  lemma PlacesStep(b: Brain, hits: seq<Hit>, init: seq<Found>, f: Found, cap: nat, places: seq<nat>)
    returns (more: seq<nat>)
    requires |init| < cap && Arrivals(b, hits, init, places)
    requires |Admit(IdSet(HitIds(hits)), Candidates(b, init), cap)| == |places| <= |init|
    requires forall k :: 0 <= k < |places| ==>
               && places[k] < |init|
               && b.memory(init[places[k]].id) == Some(Admit(IdSet(HitIds(hits)), Candidates(b, init), cap)[k])
    ensures Arrivals(b, hits, init + [f], more)
    ensures |Admit(IdSet(HitIds(hits)), Candidates(b, init + [f]), cap)| == |more| <= |init| + 1
    ensures forall k :: 0 <= k < |more| ==>
              && more[k] < |init| + 1
              && b.memory((init + [f])[more[k]].id)
                 == Some(Admit(IdSet(HitIds(hits)), Candidates(b, init + [f]), cap)[k])
  {
    hide *;
    var r := Admit(IdSet(HitIds(hits)), Candidates(b, init), cap);
    CandidatesStep(b, init, f);
    assert Candidates(b, init) + [] == Candidates(b, init);
    ArrivalsBounded(b, hits, init, places);
    LastArrives(b, hits, init, f, places, r);
    more := ArrivalsStep(b, hits, init, f, places);
    assert forall k :: 0 <= k < |places| ==> (init + [f])[places[k]] == init[places[k]];
    if b.memory(f.id).Some? {
      AdmitStep(hits, Candidates(b, init), b.memory(f.id).value, cap);
    }
  }

  lemma ArrivalsBounded(b: Brain, hits: seq<Hit>, init: seq<Found>, places: seq<nat>)
    requires Arrivals(b, hits, init, places)
    ensures forall j :: j in places <==> Arrives(b, hits, init, j)
  {
  }

  lemma ArrivalsStep(b: Brain, hits: seq<Hit>, init: seq<Found>, f: Found, places: seq<nat>)
    returns (more: seq<nat>)
    requires Arrivals(b, hits, init, places)
    ensures Arrivals(b, hits, init + [f], more)
    ensures more == if Arrives(b, hits, init + [f], |init|) then places + [|init|] else places
  {
    forall j: nat
      ensures Arrives(b, hits, init + [f], j) ==> j <= |init|
      ensures Arrives(b, hits, init, j) <==> j < |init| && Arrives(b, hits, init + [f], j)
    {
      if j < |init| {
        ArrivesLonger(b, hits, init, f, j);
      }
    }
    hide Arrives;
    more := if Arrives(b, hits, init + [f], |init|) then places + [|init|] else places;
    forall k | 0 <= k < |places| ensures places[k] < |init| {
      assert places[k] in places;
    }
    forall j ensures j in more <==> Arrives(b, hits, init + [f], j) {
      assert j in more <==> j in places || (|more| > |places| && j == |init|);
    }
  }

  /** The last place arrives exactly when its memory is stored and has an id that neither the hits nor
      the memories admitted so far have. */
  lemma LastArrives(b: Brain, hits: seq<Hit>, init: seq<Found>, f: Found, places: seq<nat>, r: seq<Hit>)
    requires forall j :: j in places <==> Arrives(b, hits, init, j)
    requires |r| == |places|
    requires forall k :: 0 <= k < |places| ==> places[k] < |init| && b.memory(init[places[k]].id) == Some(r[k])
    ensures Arrives(b, hits, init + [f], |init|) <==>
              && b.memory(f.id).Some?
              && (forall h :: h in hits ==> h.id != b.memory(f.id).value.id)
              && forall h :: h in r ==> h.id != b.memory(f.id).value.id
  {
    var top := init + [f];
    assert top[|init|] == f && forall i :: 0 <= i < |init| ==> top[i] == init[i];
    if Arrives(b, hits, top, |init|) {
      forall h | h in r ensures h.id != b.memory(f.id).value.id {
        var k :| 0 <= k < |r| && r[k] == h;
        assert b.memory(top[places[k]].id) == Some(h);
      }
    }
    if b.memory(f.id).Some?
       && (forall h :: h in hits ==> h.id != b.memory(f.id).value.id)
       && (forall h :: h in r ==> h.id != b.memory(f.id).value.id) {
      forall i | 0 <= i < |init| && b.memory(init[i].id).Some?
        ensures b.memory(init[i].id).value.id != b.memory(f.id).value.id
      {
        if forall h :: h in hits ==> h.id != b.memory(init[i].id).value.id {
          var j := FirstArrival(b, hits, init, i);
          var k :| 0 <= k < |places| && places[k] == j;
          assert r[k] in r;
        }
      }
    }
  }

  lemma {:induction false} FirstArrival(b: Brain, hits: seq<Hit>, top: seq<Found>, i: nat) returns (j: nat)
    requires i < |top| && b.memory(top[i].id).Some?
    requires forall h :: h in hits ==> h.id != b.memory(top[i].id).value.id
    ensures Arrives(b, hits, top, j) && b.memory(top[j].id).value.id == b.memory(top[i].id).value.id
    decreases i
  {
    if m :| 0 <= m < i && b.memory(top[m].id).Some?
            && b.memory(top[m].id).value.id == b.memory(top[i].id).value.id {
      j := FirstArrival(b, hits, top, m);
    } else {
      j := i;
    }
  }

  lemma ExpandedPlaces(b: Brain, hits: seq<Hit>, hops: nat, top: seq<Found>) returns (places: seq<nat>)
    requires top == TopFound(Expand(b, IdSet(HitIds(hits)), Seeds(hits), hops).discovered) && |top| <= BFS_APPEND_CAP
    ensures Arrivals(b, hits, top, places) && Displaced(b, hits, top, places, Expanded(b, hits, hops))
  {
    hide Admit, Candidates, Expand, TopFound, Arrives, IdSet, HitIds, Seeds, Displaced;
    places := PlacesOf(b, hits, top, BFS_APPEND_CAP);
    var admitted := Admit(IdSet(HitIds(hits)), Candidates(b, top), BFS_APPEND_CAP);
    assert Expanded(b, hits, hops)
        == hits[..if |admitted| <= |hits| then |hits| - |admitted| else 0] + admitted;
    PlacesDisplace(b, hits, top, places, admitted);
  }

  lemma PlacesDisplace(b: Brain, hits: seq<Hit>, top: seq<Found>, places: seq<nat>, admitted: seq<Hit>)
    requires |admitted| == |places|
    requires forall k :: 0 <= k < |places| ==>
               places[k] < |top| && b.memory(top[places[k]].id) == Some(admitted[k])
    ensures Displaced(b, hits, top, places,
                      hits[..if |admitted| <= |hits| then |hits| - |admitted| else 0] + admitted)
  {
    var keep := if |admitted| <= |hits| then |hits| - |admitted| else 0;
    var r := hits[..keep] + admitted;
    assert r[..keep] == hits[..keep] && r[keep..] == admitted;
  }
}
