/** What the bounded search discovers, in terms of walks in the memory graph. */
module BfsResults {
  import opened Hits
  import opened Orders
  import opened Sorting
  import opened Merge
  import opened Bfs

  // ---- walks

  /** One of the two stores, asked for ten neighbours of u, answers with the edge. */
  ghost predicate HasEdge(b: Brain, u: string, e: Edge)
  {
    var marked, related := b.fingerprintNeighbors(u, 10), b.relatedMemories(u, 10);
    (marked.Some? && e in marked.value) || (related.Some? && e in related.value)
  }

  ghost predicate Linked(b: Brain, u: string, v: string)
  {
    exists e :: HasEdge(b, u, e) && e.id == v
  }

  ghost predicate IsWalk(b: Brain, p: seq<string>)
  {
    p != [] && forall i :: 0 <= i < |p| - 1 ==> Linked(b, p[i], p[i + 1])
  }

  /** A walk of exactly d edges leads from a seed to x. */
  ghost predicate WalkOf(b: Brain, seeds: seq<string>, x: string, d: nat)
  {
    exists p :: IsWalk(b, p) && |p| == d + 1 && p[0] in seeds && p[d] == x
  }

  /** The length of a shortest walk from a seed. */
  ghost predicate IsDistance(b: Brain, seeds: seq<string>, x: string, d: nat)
  {
    WalkOf(b, seeds, x, d) && forall k: nat :: k < d ==> !WalkOf(b, seeds, x, k)
  }

  lemma WalkExtends(b: Brain, seeds: seq<string>, u: string, x: string, d: nat)
    requires WalkOf(b, seeds, u, d) && Linked(b, u, x)
    ensures WalkOf(b, seeds, x, d + 1)
  {
    var p :| IsWalk(b, p) && |p| == d + 1 && p[0] in seeds && p[d] == u;
    var q := p + [x];
    assert IsWalk(b, q);
    assert q[0] in seeds && q[d + 1] == x;
  }

  lemma WalkShortens(b: Brain, seeds: seq<string>, x: string, d: nat) returns (u: string)
    requires WalkOf(b, seeds, x, d + 1)
    ensures WalkOf(b, seeds, u, d) && Linked(b, u, x)
  {
    var p :| IsWalk(b, p) && |p| == d + 2 && p[0] in seeds && p[d + 1] == x;
    u := p[d];
    var q := p[..d + 1];
    assert IsWalk(b, q);
    assert q[0] in seeds && q[d] == u;
  }

  lemma WalkZero(b: Brain, seeds: seq<string>, x: string)
    ensures WalkOf(b, seeds, x, 0) <==> x in seeds
  {
    if x in seeds {
      assert IsWalk(b, [x]);
      assert [x][0] in seeds;
    }
  }

  /** Everything within k edges of the seeds. */
  ghost predicate Within(b: Brain, seeds: seq<string>, x: string, k: nat)
  {
    exists d: nat :: d <= k && WalkOf(b, seeds, x, d)
  }

  // ---- one hop

  /** The first edge to x in a list. */
  ghost predicate FirstEdgeTo(reached: seq<Edge>, x: string, k: nat)
  {
    k < |reached| && reached[k].id == x && forall j :: 0 <= j < k ==> reached[j].id != x
  }

  ghost predicate Mentions(reached: seq<Edge>, x: string)
  {
    exists e :: e in reached && e.id == x
  }

  /** Entry f is the record of a first visit during this hop. */
  ghost predicate FreshlyFound(hop: nat, existing: set<string>, visited: set<string>, reached: seq<Edge>, f: Found)
  {
    && f.hop == hop && f.id !in existing && f.id !in visited
    && exists k: nat :: FirstEdgeTo(reached, f.id, k) && reached[k].weight == f.weight
  }

  /** The outcome of visiting a list of edges. */
  ghost predicate Visited(hop: nat, existing: set<string>, s: Search, reached: seq<Edge>, t: Search)
  {
    && (forall x :: x in t.visited <==> x in s.visited || Mentions(reached, x))
    && (forall x :: x in t.frontier ==> Mentions(reached, x) && x !in s.visited)
    && |t.frontier| <= |t.visited| - |s.visited|
    && (|t.visited| - |s.visited| <= BFS_FRONTIER_CAP ==>
          forall x :: Mentions(reached, x) && x !in s.visited ==> x in t.frontier)
    && s.discovered <= t.discovered
    && (forall i :: |s.discovered| <= i < |t.discovered| ==>
          FreshlyFound(hop, existing, s.visited, reached, t.discovered[i]))
    && (forall i, j :: |s.discovered| <= i < j < |t.discovered| ==> t.discovered[i].id != t.discovered[j].id)
    && (forall x :: Mentions(reached, x) && x !in s.visited && x !in existing ==>
          exists i :: |s.discovered| <= i < |t.discovered| && t.discovered[i].id == x)
  }

  lemma MentionsStep(reached: seq<Edge>, e: Edge, x: string)
    ensures Mentions(reached + [e], x) <==> Mentions(reached, x) || e.id == x
  {
    if Mentions(reached, x) {
      var f :| f in reached && f.id == x;
      assert f in reached + [e];
    }
    if e.id == x {
      assert e in reached + [e];
    }
  }

  lemma FreshlyFoundStep(hop: nat, existing: set<string>, visited: set<string>, reached: seq<Edge>, e: Edge, f: Found)
    requires FreshlyFound(hop, existing, visited, reached, f)
    ensures FreshlyFound(hop, existing, visited, reached + [e], f)
  {
    var k: nat :| FirstEdgeTo(reached, f.id, k) && reached[k].weight == f.weight;
    assert FirstEdgeTo(reached + [e], f.id, k);
  }

  lemma {:induction false} VisitStep(hop: nat, existing: set<string>, s: Search, reached: seq<Edge>, t: Search, e: Edge)
    requires Visited(hop, existing, s, reached, t) && s.frontier == []
    ensures Visited(hop, existing, s, reached + [e], Visit(hop, existing, t, e))
  {
    hide Mentions, FreshlyFound;
    var u := Visit(hop, existing, t, e);
    var more := reached + [e];
    forall x ensures Mentions(more, x) <==> Mentions(reached, x) || e.id == x {
      MentionsStep(reached, e, x);
    }
    forall i | |s.discovered| <= i < |t.discovered|
      ensures FreshlyFound(hop, existing, s.visited, more, t.discovered[i])
    {
      FreshlyFoundStep(hop, existing, s.visited, reached, e, t.discovered[i]);
    }
    if e.id !in t.visited {
      FirstVisit(hop, existing, s.visited, reached, e);
      forall i | |s.discovered| <= i < |t.discovered| ensures t.discovered[i].id != e.id {
        FoundIsMentioned(hop, existing, s.visited, reached, t.discovered[i]);
      }
      forall x | Mentions(more, x) && x !in s.visited && x !in existing
        ensures exists i :: |s.discovered| <= i < |u.discovered| && u.discovered[i].id == x
      {
        if x == e.id {
          assert u.discovered[|t.discovered|].id == x;
        } else {
          var i :| |s.discovered| <= i < |t.discovered| && t.discovered[i].id == x;
          assert u.discovered[i].id == x;
        }
      }
    }
  }

  lemma FirstVisit(hop: nat, existing: set<string>, visited: set<string>, reached: seq<Edge>, e: Edge)
    requires !Mentions(reached, e.id) && e.id !in visited
    ensures e.id !in existing ==> FreshlyFound(hop, existing, visited, reached + [e], Found(hop, e.weight, e.id))
  {
    forall j | 0 <= j < |reached| ensures reached[j].id != e.id {
      assert reached[j] in reached;
    }
    assert FirstEdgeTo(reached + [e], e.id, |reached|);
  }

  lemma FoundIsMentioned(hop: nat, existing: set<string>, visited: set<string>, reached: seq<Edge>, f: Found)
    requires FreshlyFound(hop, existing, visited, reached, f)
    ensures Mentions(reached, f.id)
  {
    var k: nat :| FirstEdgeTo(reached, f.id, k) && reached[k].weight == f.weight;
    assert reached[k] in reached;
  }

  lemma {:induction false} VisitAllVisits(hop: nat, existing: set<string>, s: Search, reached: seq<Edge>)
    requires s.frontier == []
    ensures Visited(hop, existing, s, reached, VisitAll(hop, existing, s, reached))
    decreases |reached|
  {
    hide Visited, Visit;
    if reached == [] {
      NothingVisited(hop, existing, s);
    } else {
      var n := |reached| - 1;
      VisitAllVisits(hop, existing, s, reached[..n]);
      VisitStep(hop, existing, s, reached[..n], VisitAll(hop, existing, s, reached[..n]), reached[n]);
      assert reached == reached[..n] + [reached[n]];
    }
  }

  lemma NothingVisited(hop: nat, existing: set<string>, s: Search)
    requires s.frontier == []
    ensures Visited(hop, existing, s, [], s)
  {
  }

  lemma EdgeOrder()
    ensures TotalPreorder(EdgeLe)
  {
    LexOrder();
    forall x: Edge, y: Edge ensures EdgeLe(x, y) || EdgeLe(y, x) {
      assert LexLe(x.id, y.id) || LexLe(y.id, x.id);
    }
    forall x: Edge, y: Edge, z: Edge | EdgeLe(x, y) && EdgeLe(y, z) ensures EdgeLe(x, z) {
      assert LexLe(x.id, y.id) && LexLe(y.id, z.id) ==> LexLe(x.id, z.id);
    }
  }

  /** The heaviest edge from a set of nodes to x. */
  ghost predicate HeaviestFrom(b: Brain, frontier: seq<string>, x: string, weight: nat)
  {
    && (exists u, e :: u in frontier && HasEdge(b, u, e) && e.id == x && e.weight == weight)
    && forall u, e :: u in frontier && HasEdge(b, u, e) && e.id == x ==> e.weight <= weight
  }

  /** The edges of a hop, as sorted. */
  ghost function SortedEdges(b: Brain, frontier: seq<string>): (r: seq<Edge>)
    ensures forall e :: e in r <==> exists u :: u in frontier && HasEdge(b, u, e)
  {
    assert forall u, e :: e in EdgesFrom(b, u) <==> HasEdge(b, u, e);
    var r := SortBy(Reach(b, frontier), EdgeLe);
    assert forall e :: e in r <==> e in multiset(r);
    assert forall e :: e in Reach(b, frontier) <==> e in multiset(Reach(b, frontier));
    r
  }

  lemma MentionedIsLinked(b: Brain, frontier: seq<string>, x: string)
    ensures Mentions(SortedEdges(b, frontier), x) <==> exists u :: u in frontier && Linked(b, u, x)
  {
    hide SortedEdges;
    var r := SortedEdges(b, frontier);
    if Mentions(r, x) {
      var e :| e in r && e.id == x;
      var u :| u in frontier && HasEdge(b, u, e);
      assert Linked(b, u, x);
    }
    if u :| u in frontier && Linked(b, u, x) {
      var e :| HasEdge(b, u, e) && e.id == x;
      assert e in r;
    }
  }

  lemma FirstIsHeaviest(b: Brain, frontier: seq<string>, x: string, k: nat)
    requires FirstEdgeTo(SortedEdges(b, frontier), x, k)
    ensures HeaviestFrom(b, frontier, x, SortedEdges(b, frontier)[k].weight)
  {
    hide SortedEdges, HasEdge;
    var r := SortedEdges(b, frontier);
    EdgesAreSorted(b, frontier);
    assert r[k] in r;
    forall u, e | u in frontier && HasEdge(b, u, e) && e.id == x ensures e.weight <= r[k].weight {
      assert e in r;
      var j :| 0 <= j < |r| && r[j] == e;
      assert j >= k;
    }
  }

  lemma EdgesAreSorted(b: Brain, frontier: seq<string>)
    ensures var r := SortedEdges(b, frontier);
            forall j, k :: 0 <= j < k < |r| ==> r[k].weight <= r[j].weight
  {
    EdgeOrder();
    SortBySorts(Reach(b, frontier), EdgeLe);
    hide SortBy, Reach;
    var r := SortedEdges(b, frontier);
    forall j, k | 0 <= j < k < |r| ensures r[k].weight <= r[j].weight {
      assert EdgeLe(r[j], r[k]);
    }
  }

  /** One hop from s, stated without sorting or lists of edges. */
  ghost predicate Hopped(b: Brain, hop: nat, existing: set<string>, s: Search, t: Search)
  {
    && (forall x :: x in t.visited <==> x in s.visited || ReachedFrom(b, s.frontier, x))
    && (forall x :: x in t.frontier ==> ReachedFrom(b, s.frontier, x) && x !in s.visited)
    && (|t.visited| - |s.visited| <= BFS_FRONTIER_CAP ==>
          forall x :: ReachedFrom(b, s.frontier, x) && x !in s.visited ==> x in t.frontier)
    && s.discovered <= t.discovered
    && (forall i :: |s.discovered| <= i < |t.discovered| ==> FoundInHop(b, hop, existing, s, t.discovered[i]))
    && (forall i, j :: |s.discovered| <= i < j < |t.discovered| ==> t.discovered[i].id != t.discovered[j].id)
    && (forall x :: ReachedFrom(b, s.frontier, x) && x !in s.visited && x !in existing ==>
          exists i :: |s.discovered| <= i < |t.discovered| && t.discovered[i].id == x)
  }

  ghost predicate FoundInHop(b: Brain, hop: nat, existing: set<string>, s: Search, f: Found)
  {
    && f.hop == hop && f.id !in existing && f.id !in s.visited
    && ReachedFrom(b, s.frontier, f.id)
    && HeaviestFrom(b, s.frontier, f.id, f.weight)
  }

  ghost predicate ReachedFrom(b: Brain, frontier: seq<string>, x: string)
  {
    exists u :: u in frontier && Linked(b, u, x)
  }

  lemma HopHops(b: Brain, hop: nat, existing: set<string>, s: Search)
    ensures Hopped(b, hop, existing, s, Hop(b, hop, existing, s))
  {
    hide Hopped, Visited, VisitAll, SortBy, Reach;
    var reached := SortedEdges(b, s.frontier);
    VisitAllVisits(hop, existing, s.(frontier := []), reached);
    VisitedHopped(b, hop, existing, s, Hop(b, hop, existing, s));
  }

  lemma VisitedHopped(b: Brain, hop: nat, existing: set<string>, s: Search, t: Search)
    requires Visited(hop, existing, s.(frontier := []), SortedEdges(b, s.frontier), t)
    ensures Hopped(b, hop, existing, s, t)
  {
    hide SortedEdges, Mentions, FreshlyFound, FoundInHop, ReachedFrom;
    var reached := SortedEdges(b, s.frontier);
    forall x ensures Mentions(reached, x) <==> ReachedFrom(b, s.frontier, x) {
      MentionedIsReached(b, s.frontier, x);
    }
    forall i | |s.discovered| <= i < |t.discovered| ensures FoundInHop(b, hop, existing, s, t.discovered[i]) {
      assert FreshlyFound(hop, existing, s.visited, reached, t.discovered[i]);
      FreshIsFound(b, hop, existing, s, t.discovered[i]);
    }
  }

  lemma MentionedIsReached(b: Brain, frontier: seq<string>, x: string)
    ensures Mentions(SortedEdges(b, frontier), x) <==> ReachedFrom(b, frontier, x)
  {
    hide SortedEdges, Mentions, Linked;
    MentionedIsLinked(b, frontier, x);
  }

  lemma FreshIsFound(b: Brain, hop: nat, existing: set<string>, s: Search, f: Found)
    requires FreshlyFound(hop, existing, s.visited, SortedEdges(b, s.frontier), f)
    ensures FoundInHop(b, hop, existing, s, f)
  {
    var reached := SortedEdges(b, s.frontier);
    var k: nat :| FirstEdgeTo(reached, f.id, k) && reached[k].weight == f.weight;
    FirstIsHeaviest(b, s.frontier, f.id, k);
    FoundIsMentioned(hop, existing, s.visited, reached, f);
    MentionedIsLinked(b, s.frontier, f.id);
  }

  lemma ExpandHops(b: Brain, existing: set<string>, seeds: seq<string>, hop: nat)
    requires hop >= 1
    ensures Hopped(b, hop, existing, Expand(b, existing, seeds, hop - 1), Expand(b, existing, seeds, hop))
  {
    hide Hop, Hopped;
    HopHops(b, hop, existing, Expand(b, existing, seeds, hop - 1));
  }

  // ---- the whole search

  ghost function FrontierAt(b: Brain, existing: set<string>, seeds: seq<string>, hop: nat): seq<string>
  {
    Expand(b, existing, seeds, hop).frontier
  }

  /** What is true of every record, however the frontier was cut. */
  ghost predicate Sound(b: Brain, existing: set<string>, seeds: seq<string>, hops: nat, f: Found)
  {
    && f.id !in existing
    && 1 <= f.hop <= hops
    && WalkOf(b, seeds, f.id, f.hop)
    && HeaviestFrom(b, FrontierAt(b, existing, seeds, f.hop - 1), f.id, f.weight)
  }

  lemma {:induction false} FrontierWalks(b: Brain, existing: set<string>, seeds: seq<string>, hops: nat, x: string)
    requires x in FrontierAt(b, existing, seeds, hops)
    ensures WalkOf(b, seeds, x, hops)
  {
    hide FrontierAt, WalkOf, Linked;
    if hops == 0 {
      assert x in seeds by { FrontierStart(b, existing, seeds); }
      WalkZero(b, seeds, x);
    } else {
      var u := FrontierStep(b, existing, seeds, hops, x);
      FrontierWalks(b, existing, seeds, hops - 1, u);
      WalkExtends(b, seeds, u, x, hops - 1);
    }
  }

  lemma FrontierStart(b: Brain, existing: set<string>, seeds: seq<string>)
    ensures FrontierAt(b, existing, seeds, 0) == seeds
  {
  }

  lemma FrontierStep(b: Brain, existing: set<string>, seeds: seq<string>, hop: nat, x: string) returns (u: string)
    requires hop >= 1 && x in FrontierAt(b, existing, seeds, hop)
    ensures u in FrontierAt(b, existing, seeds, hop - 1) && Linked(b, u, x)
  {
    hide Expand, Linked;
    ExpandHops(b, existing, seeds, hop);
    assert ReachedFrom(b, FrontierAt(b, existing, seeds, hop - 1), x);
    u :| u in FrontierAt(b, existing, seeds, hop - 1) && Linked(b, u, x);
  }

  /** Main result, with no assumption on the graph: the discovered ids are distinct and outside the
      original hits, each hop is the length of a real walk from a seed, and each weight is that of the
      heaviest edge from the frontier of its hop. */
  lemma {:induction false} DiscoveriesAreSound(b: Brain, existing: set<string>, seeds: seq<string>, hops: nat)
    ensures var s := Expand(b, existing, seeds, hops);
            && (forall i :: 0 <= i < |s.discovered| ==>
                  Sound(b, existing, seeds, hops, s.discovered[i]) && s.discovered[i].id in s.visited)
            && (forall i, j :: 0 <= i < j < |s.discovered| ==> s.discovered[i].id != s.discovered[j].id)
  {
    hide Expand, Sound, Hopped;
    if hops == 0 {
      assert Expand(b, existing, seeds, 0).discovered == [] by { ExpandStart(b, existing, seeds); }
    } else {
      DiscoveriesAreSound(b, existing, seeds, hops - 1);
      ExpandHops(b, existing, seeds, hops);
      SoundStep(b, existing, seeds, hops, Expand(b, existing, seeds, hops - 1), Expand(b, existing, seeds, hops));
    }
  }

  lemma SoundStep(b: Brain, existing: set<string>, seeds: seq<string>, hops: nat, s: Search, t: Search)
    requires hops >= 1 && s == Expand(b, existing, seeds, hops - 1) && Hopped(b, hops, existing, s, t)
    requires forall i :: 0 <= i < |s.discovered| ==>
               Sound(b, existing, seeds, hops - 1, s.discovered[i]) && s.discovered[i].id in s.visited
    requires forall i, j :: 0 <= i < j < |s.discovered| ==> s.discovered[i].id != s.discovered[j].id
    ensures forall i :: 0 <= i < |t.discovered| ==>
              Sound(b, existing, seeds, hops, t.discovered[i]) && t.discovered[i].id in t.visited
    ensures forall i, j :: 0 <= i < j < |t.discovered| ==> t.discovered[i].id != t.discovered[j].id
  {
    hide Expand, Sound, FoundInHop, ReachedFrom;
    var n := |s.discovered|;
    assert forall i :: 0 <= i < n ==> t.discovered[i] == s.discovered[i];
    forall i | 0 <= i < |t.discovered|
      ensures Sound(b, existing, seeds, hops, t.discovered[i]) && t.discovered[i].id in t.visited
      ensures i >= n ==> t.discovered[i].id !in s.visited
    {
      if i < n {
        SoundLater(b, existing, seeds, hops, s.discovered[i]);
      } else {
        assert FoundInHop(b, hops, existing, s, t.discovered[i]);
        FoundIsSound(b, existing, seeds, hops, t.discovered[i]);
      }
    }
  }

  lemma SoundLater(b: Brain, existing: set<string>, seeds: seq<string>, hops: nat, f: Found)
    requires hops >= 1 && Sound(b, existing, seeds, hops - 1, f)
    ensures Sound(b, existing, seeds, hops, f)
  {
    hide WalkOf, HeaviestFrom, FrontierAt;
  }

  lemma FoundIsSound(b: Brain, existing: set<string>, seeds: seq<string>, hops: nat, f: Found)
    requires hops >= 1 && FoundInHop(b, hops, existing, Expand(b, existing, seeds, hops - 1), f)
    ensures Sound(b, existing, seeds, hops, f)
    ensures ReachedFrom(b, Expand(b, existing, seeds, hops - 1).frontier, f.id)
    ensures f.id !in Expand(b, existing, seeds, hops - 1).visited
  {
    hide Expand, WalkOf, HeaviestFrom, Linked;
    var u :| u in FrontierAt(b, existing, seeds, hops - 1) && Linked(b, u, f.id);
    FrontierWalks(b, existing, seeds, hops - 1, u);
    WalkExtends(b, seeds, u, f.id, hops - 1);
  }

  /** No level before the last reaches more new nodes than the frontier can hold. */
  ghost predicate NoOverflow(b: Brain, existing: set<string>, seeds: seq<string>, hops: nat)
  {
    forall h :: 1 <= h < hops ==>
      |Expand(b, existing, seeds, h).visited| - |Expand(b, existing, seeds, h - 1).visited| <= BFS_FRONTIER_CAP
  }

  /** The search has seen exactly what lies within h edges, and its frontier is the outermost ring. */
  ghost predicate ExactNodes(b: Brain, seeds: seq<string>, h: nat, s: Search)
  {
    && (forall x :: x in s.visited <==> Within(b, seeds, x, h))
    && (forall x :: x in s.frontier <==> IsDistance(b, seeds, x, h))
  }

  ghost predicate Records(found: seq<Found>, x: string, d: nat)
  {
    exists i :: 0 <= i < |found| && found[i].id == x && found[i].hop == d
  }

  /** The records are the new nodes at distances 1 to h, with those distances. */
  ghost predicate ExactRecords(b: Brain, existing: set<string>, seeds: seq<string>, h: nat, s: Search)
  {
    forall x, d: nat :: Records(s.discovered, x, d)
      <==> 1 <= d <= h && x !in existing && IsDistance(b, seeds, x, d)
  }

  lemma WithinIsDistance(b: Brain, seeds: seq<string>, x: string, k: nat)
    requires Within(b, seeds, x, k)
    ensures exists d: nat :: d <= k && IsDistance(b, seeds, x, d)
  {
    var d: nat :| d <= k && WalkOf(b, seeds, x, d);
    if k' :| 0 <= k' < d && WalkOf(b, seeds, x, k') {
      WithinIsDistance(b, seeds, x, d - 1);
    } else {
      assert IsDistance(b, seeds, x, d);
    }
  }

  /** A ring is what the ring inside it reaches that is not nearer. */
  lemma RingStep(b: Brain, seeds: seq<string>, x: string, h: nat)
    ensures IsDistance(b, seeds, x, h + 1)
            <==> !Within(b, seeds, x, h) && exists u :: IsDistance(b, seeds, u, h) && Linked(b, u, x)
  {
    if IsDistance(b, seeds, x, h + 1) {
      var u := WalkShortens(b, seeds, x, h);
      forall k: nat | k < h ensures !WalkOf(b, seeds, u, k) {
        if WalkOf(b, seeds, u, k) {
          WalkExtends(b, seeds, u, x, k);
        }
      }
      assert IsDistance(b, seeds, u, h);
    }
    if u :| !Within(b, seeds, x, h) && IsDistance(b, seeds, u, h) && Linked(b, u, x) {
      WalkExtends(b, seeds, u, x, h);
    }
  }

  lemma WithinStep(b: Brain, seeds: seq<string>, x: string, h: nat)
    ensures Within(b, seeds, x, h + 1) <==> Within(b, seeds, x, h) || IsDistance(b, seeds, x, h + 1)
  {
    if Within(b, seeds, x, h + 1) {
      WithinIsDistance(b, seeds, x, h + 1);
    }
  }

  lemma ExactStart(b: Brain, existing: set<string>, seeds: seq<string>)
    ensures ExactNodes(b, seeds, 0, Expand(b, existing, seeds, 0))
    ensures ExactRecords(b, existing, seeds, 0, Expand(b, existing, seeds, 0))
  {
    forall x ensures x in seeds <==> WalkOf(b, seeds, x, 0) {
      WalkZero(b, seeds, x);
    }
  }

  /** What a hop newly reaches from an exact state is the next ring, however the new frontier is cut. */
  lemma NextRing(b: Brain, hop: nat, seeds: seq<string>, s: Search)
    requires hop >= 1 && ExactNodes(b, seeds, hop - 1, s)
    ensures forall x :: IsDistance(b, seeds, x, hop) <==> x !in s.visited && ReachedFrom(b, s.frontier, x)
  {
    hide IsDistance, Within, Linked;
    forall x ensures IsDistance(b, seeds, x, hop) <==> x !in s.visited && ReachedFrom(b, s.frontier, x) {
      RingStep(b, seeds, x, hop - 1);
    }
  }

  lemma NodesStep(b: Brain, hop: nat, existing: set<string>, seeds: seq<string>, s: Search, t: Search)
    requires hop >= 1 && ExactNodes(b, seeds, hop - 1, s) && Hopped(b, hop, existing, s, t)
    requires |t.visited| - |s.visited| <= BFS_FRONTIER_CAP
    ensures ExactNodes(b, seeds, hop, t)
  {
    hide FoundInHop, IsDistance, Within, Linked;
    NextRing(b, hop, seeds, s);
    forall x ensures Within(b, seeds, x, hop) <==> x in t.visited {
      WithinStep(b, seeds, x, hop - 1);
    }
  }

  lemma RecordsStep(b: Brain, hop: nat, existing: set<string>, seeds: seq<string>, s: Search, t: Search, x: string,
                    d: nat)
    requires hop >= 1 && ExactRecords(b, existing, seeds, hop - 1, s) && Hopped(b, hop, existing, s, t)
    requires forall x :: IsDistance(b, seeds, x, hop) <==> x !in s.visited && ReachedFrom(b, s.frontier, x)
    ensures Records(t.discovered, x, d) <==> 1 <= d <= hop && x !in existing && IsDistance(b, seeds, x, d)
  {
    hide IsDistance, ReachedFrom, HeaviestFrom;
    var n := |s.discovered|;
    assert forall i :: 0 <= i < n ==> t.discovered[i] == s.discovered[i];
    if Records(t.discovered, x, d) {
      var i :| 0 <= i < |t.discovered| && t.discovered[i].id == x && t.discovered[i].hop == d;
      if i < n {
        assert Records(s.discovered, x, d);
      } else {
        assert FoundInHop(b, hop, existing, s, t.discovered[i]);
      }
    }
    if 1 <= d <= hop && x !in existing && IsDistance(b, seeds, x, d) {
      if d < hop {
        assert Records(s.discovered, x, d);
        var i :| 0 <= i < n && s.discovered[i].id == x && s.discovered[i].hop == d;
        assert t.discovered[i].id == x && t.discovered[i].hop == d;
      } else {
        var i :| n <= i < |t.discovered| && t.discovered[i].id == x;
        assert FoundInHop(b, hop, existing, s, t.discovered[i]);
      }
    }
  }

  /** Before the first overflow the search is an exact breadth-first search. */
  lemma {:induction false} SearchIsExact(b: Brain, existing: set<string>, seeds: seq<string>, hops: nat)
    requires NoOverflow(b, existing, seeds, hops + 1)
    ensures ExactNodes(b, seeds, hops, Expand(b, existing, seeds, hops))
    ensures ExactRecords(b, existing, seeds, hops, Expand(b, existing, seeds, hops))
  {
    hide Expand, ExactNodes, ExactRecords, Hopped;
    if hops == 0 {
      ExactStart(b, existing, seeds);
    } else {
      SearchIsExact(b, existing, seeds, hops - 1);
      ExpandHops(b, existing, seeds, hops);
      NodesStep(b, hops, existing, seeds, Expand(b, existing, seeds, hops - 1), Expand(b, existing, seeds, hops));
      NextRecords(b, existing, seeds, hops);
    }
  }

  /** The records after one more hop are exact whether or not that hop's frontier overflows. */
  lemma NextRecords(b: Brain, existing: set<string>, seeds: seq<string>, hops: nat)
    requires hops >= 1
    requires ExactNodes(b, seeds, hops - 1, Expand(b, existing, seeds, hops - 1))
    requires ExactRecords(b, existing, seeds, hops - 1, Expand(b, existing, seeds, hops - 1))
    ensures ExactRecords(b, existing, seeds, hops, Expand(b, existing, seeds, hops))
  {
    hide Expand, ExactNodes, Hopped, IsDistance, Records;
    var s, t := Expand(b, existing, seeds, hops - 1), Expand(b, existing, seeds, hops);
    ExpandHops(b, existing, seeds, hops);
    NextRing(b, hops, seeds, s);
    forall x, d: nat
      ensures Records(t.discovered, x, d) <==> 1 <= d <= hops && x !in existing && IsDistance(b, seeds, x, d)
    {
      RecordsStep(b, hops, existing, seeds, s, t, x, d);
    }
  }

  /** Main result: when no level before the last overflows the frontier cap, the discoveries are exactly
      the nodes at shortest distance 1 to hops that were not already hit, each recorded with that
      distance. */
  lemma {:induction false} DiscoveriesAreComplete(b: Brain, existing: set<string>, seeds: seq<string>, hops: nat,
                                                  x: string, d: nat)
    requires NoOverflow(b, existing, seeds, hops)
    ensures var found := Expand(b, existing, seeds, hops).discovered;
            (exists i :: 0 <= i < |found| && found[i].id == x && found[i].hop == d)
            <==> 1 <= d <= hops && x !in existing && IsDistance(b, seeds, x, d)
  {
    hide Expand, IsDistance, ExactNodes, NoOverflow;
    if hops == 0 {
      ExactStart(b, existing, seeds);
    } else {
      SearchIsExact(b, existing, seeds, hops - 1);
      NextRecords(b, existing, seeds, hops);
    }
    assert Records(Expand(b, existing, seeds, hops).discovered, x, d)
      <==> 1 <= d <= hops && x !in existing && IsDistance(b, seeds, x, d);
  }

  /** A one-hop search is complete on every graph. */
  lemma OneHopIsComplete(b: Brain, existing: set<string>, seeds: seq<string>, x: string)
    ensures var found := Expand(b, existing, seeds, 1).discovered;
            (exists i :: 0 <= i < |found| && found[i].id == x)
            <==> x !in existing && IsDistance(b, seeds, x, 1)
  {
    hide Expand, IsDistance;
    var found := Expand(b, existing, seeds, 1).discovered;
    DiscoveriesAreComplete(b, existing, seeds, 1, x, 1);
    if i :| 0 <= i < |found| && found[i].id == x {
      DiscoveriesAreComplete(b, existing, seeds, 1, x, found[i].hop);
    }
  }

  // ---- the hit list afterwards

  lemma FoundOrder()
    ensures TotalPreorder(FoundLe)
  {
    LexOrder();
    hide LexLe;
    forall x: Found, y: Found ensures FoundLe(x, y) || FoundLe(y, x) {
      assert LexLe(x.id, y.id) || LexLe(y.id, x.id);
    }
    forall x: Found, y: Found, z: Found | FoundLe(x, y) && FoundLe(y, z) ensures FoundLe(x, z) {
      assert LexLe(x.id, y.id) && LexLe(y.id, z.id) ==> LexLe(x.id, z.id);
    }
  }

  /** The discoveries looked up are the best: none left out is nearer, or equally near and heavier, or
      equal in both and earlier by id; and they are taken in that order. */
  lemma TopIsBest(found: seq<Found>)
    ensures var top := TopFound(found);
            && |top| == (if |found| < BFS_APPEND_CAP then |found| else BFS_APPEND_CAP)
            && (forall f :: f in top ==> f in found)
            && Sorted(top, FoundLe)
            && forall t, u :: t in top && u in found && u !in top ==> FoundLe(t, u)
  {
    var ranked := SortBy(found, FoundLe);
    FoundOrder();
    SortBySorts(found, FoundLe);
    hide SortBy, FoundLe, TotalPreorder;
    SameMembers(ranked, found);
  }

  /** The expanded list keeps distinct ids distinct, and is never shorter than the input. */
  lemma ExpandedHits(b: Brain, hits: seq<Hit>, hops: nat)
    ensures |Expanded(b, hits, hops)| >= |hits|
    ensures |Expanded(b, hits, hops)| <= if |hits| >= BFS_APPEND_CAP then |hits| else BFS_APPEND_CAP
    ensures DistinctHits(hits) ==> DistinctHits(Expanded(b, hits, hops))
  {
    var found := Expand(b, IdSet(HitIds(hits)), Seeds(hits), hops).discovered;
    var candidates := Candidates(b, TopFound(found));
    hide Expand, TopFound, Candidates, Merged;
    MergeLength(hits, candidates, BFS_APPEND_CAP);
    if DistinctHits(hits) {
      MergeKeepsDistinct(hits, candidates, BFS_APPEND_CAP);
    }
  }
}
