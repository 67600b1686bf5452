/** Bounded breadth-first expansion of a hit list over the memory graph (`apply_bfs_expansion`). */
module Bfs {
  import opened Hits
  import opened Options
  import opened Orders
  import opened Sorting
  import opened Merge

  datatype Edge = Edge(weight: nat, id: string)

  datatype Found = Found(hop: nat, weight: nat, id: string)

  /** What the store answers; None is an error, which the search ignores. */
  datatype Brain = Brain(
    fingerprintNeighbors: (string, nat) -> Option<seq<Edge>>,
    relatedMemories: (string, nat) -> Option<seq<Edge>>,
    memory: string -> Option<Hit>)

  const BFS_SEEDS: nat := 5
  const BFS_NEIGHBORS_PER_NODE: nat := 10
  const BFS_FRONTIER_CAP: nat := 50
  const BFS_APPEND_CAP: nat := 10

  function OrEmpty(o: Option<seq<Edge>>): seq<Edge>
  {
    if o.Some? then o.value else []
  }

  function EdgesFrom(b: Brain, id: string): seq<Edge>
  {
    OrEmpty(b.fingerprintNeighbors(id, BFS_NEIGHBORS_PER_NODE)) + OrEmpty(b.relatedMemories(id, BFS_NEIGHBORS_PER_NODE))
  }

  /** All edges leaving the frontier. */
  function Reach(b: Brain, frontier: seq<string>): (r: seq<Edge>)
    ensures forall e :: e in r <==> exists u :: u in frontier && e in EdgesFrom(b, u)
  {
    if frontier == [] then []
    else
      var n := |frontier| - 1;
      assert frontier == frontier[..n] + [frontier[n]];
      Reach(b, frontier[..n]) + EdgesFrom(b, frontier[n])
  }

  /** Heavier first, then by id. */
  predicate EdgeLe(x: Edge, y: Edge)
  {
    x.weight > y.weight || (x.weight == y.weight && LexLe(x.id, y.id))
  }

  /** Nearer first, then heavier, then by id. */
  predicate FoundLe(x: Found, y: Found)
  {
    x.hop < y.hop || (x.hop == y.hop && (x.weight > y.weight || (x.weight == y.weight && LexLe(x.id, y.id))))
  }

  datatype Search = Search(frontier: seq<string>, visited: set<string>, discovered: seq<Found>)

  /** One reached edge. */
  function Visit(hop: nat, existing: set<string>, s: Search, e: Edge): Search
  {
    if e.id in s.visited then s
    else
      Search(if |s.frontier| < BFS_FRONTIER_CAP then s.frontier + [e.id] else s.frontier,
             s.visited + {e.id},
             if e.id in existing then s.discovered else s.discovered + [Found(hop, e.weight, e.id)])
  }

  function VisitAll(hop: nat, existing: set<string>, s: Search, reached: seq<Edge>): Search
  {
    if reached == [] then s
    else Visit(hop, existing, VisitAll(hop, existing, s, reached[..|reached| - 1]), reached[|reached| - 1])
  }

  /** One hop: every edge leaving the frontier, heaviest first, starting a new frontier. */
  function Hop(b: Brain, hop: nat, existing: set<string>, s: Search): Search
  {
    VisitAll(hop, existing, s.(frontier := []), SortBy(Reach(b, s.frontier), EdgeLe))
  }

  function Seeds(hits: seq<Hit>): seq<string>
  {
    HitIds(hits[..if |hits| < BFS_SEEDS then |hits| else BFS_SEEDS])
  }

  /** The search after the given number of hops. */
  function Expand(b: Brain, existing: set<string>, seeds: seq<string>, hops: nat): Search
  {
    if hops == 0 then Search(seeds, IdSet(seeds), [])
    else Hop(b, hops, existing, Expand(b, existing, seeds, hops - 1))
  }

  function Candidates(b: Brain, found: seq<Found>): seq<Hit>
  {
    if found == [] then []
    else
      var n := |found| - 1;
      Candidates(b, found[..n]) + (match b.memory(found[n].id) case Some(m) => [m] case None => [])
  }

  function TopFound(found: seq<Found>): seq<Found>
  {
    var ranked := SortBy(found, FoundLe);
    ranked[..if |ranked| < BFS_APPEND_CAP then |ranked| else BFS_APPEND_CAP]
  }

  function Expanded(b: Brain, hits: seq<Hit>, hops: nat): seq<Hit>
  {
    var found := Expand(b, IdSet(HitIds(hits)), Seeds(hits), hops).discovered;
    Merged(hits, Candidates(b, TopFound(found)), BFS_APPEND_CAP)
  }

  method ApplyBfsExpansion(b: Brain, hits: HitList, hops: nat)
    modifies hits
    ensures hits.items == Expanded(b, old(hits.items), hops)
  {
    if hops == 0 || |hits.items| == 0 {
      NothingExpanded(b, hits.items, hops);
      return;
    }
    hide *;
    var discovered := SearchHops(b, IdSet(HitIds(hits.items)), Seeds(hits.items), hops);
    var candidates := LookUp(b, TopFound(discovered));
    MergeDisplacingTail(hits, candidates, BFS_APPEND_CAP);
  }

  /** The hop loop, which stops early once the frontier is empty. */
  method SearchHops(b: Brain, existing: set<string>, seeds: seq<string>, hops: nat) returns (discovered: seq<Found>)
    ensures discovered == Expand(b, existing, seeds, hops).discovered
  {
    hide *;
    ExpandStart(b, existing, seeds);
    var frontier, visited := seeds, IdSet(seeds);
    discovered := [];
    var hop: nat := 1;
    while hop <= hops
      invariant 1 <= hop <= hops + 1
      invariant Expand(b, existing, seeds, hop - 1) == Search(frontier, visited, discovered)
    {
      var reached := ReachedEdges(b, frontier);
      reached := SortBy(reached, EdgeLe);
      ExpandStep(b, existing, seeds, hop);
      frontier, visited, discovered := OneHop(hop, existing, visited, discovered, reached);
      if frontier == [] {
        StuckSearch(b, existing, seeds, hop, hops);
        return;
      }
      hop := hop + 1;
    }
  }

  lemma ExpandStart(b: Brain, existing: set<string>, seeds: seq<string>)
    ensures Expand(b, existing, seeds, 0) == Search(seeds, IdSet(seeds), [])
  {
  }

  lemma ExpandStep(b: Brain, existing: set<string>, seeds: seq<string>, hop: nat)
    requires hop >= 1
    ensures var s := Expand(b, existing, seeds, hop - 1);
            Expand(b, existing, seeds, hop) ==
              VisitAll(hop, existing, Search([], s.visited, s.discovered), SortBy(Reach(b, s.frontier), EdgeLe))
  {
    hide VisitAll, SortBy, Reach;
  }

  method ReachedEdges(b: Brain, frontier: seq<string>) returns (reached: seq<Edge>)
    ensures reached == Reach(b, frontier)
  {
    reached := [];
    for k := 0 to |frontier|
      invariant reached == Reach(b, frontier[..k])
    {
      assert frontier[..k + 1][..k] == frontier[..k];
      reached := reached + OrEmpty(b.fingerprintNeighbors(frontier[k], BFS_NEIGHBORS_PER_NODE));
      reached := reached + OrEmpty(b.relatedMemories(frontier[k], BFS_NEIGHBORS_PER_NODE));
    }
    assert frontier[..|frontier|] == frontier;
  }

  method LookUp(b: Brain, top: seq<Found>) returns (candidates: seq<Hit>)
    ensures candidates == Candidates(b, top)
  {
    candidates := [];
    for k := 0 to |top|
      invariant candidates == Candidates(b, top[..k])
    {
      assert top[..k + 1][..k] == top[..k];
      var m := b.memory(top[k].id);
      if m.Some? {
        candidates := candidates + [m.value];
      }
    }
    assert top[..|top|] == top;
  }

  /** The inner loop of one hop, over the sorted edges. */
  method OneHop(hop: nat, existing: set<string>, visited: set<string>, discovered: seq<Found>, reached: seq<Edge>)
    returns (nextFrontier: seq<string>, visited': set<string>, discovered': seq<Found>)
    ensures Search(nextFrontier, visited', discovered')
         == VisitAll(hop, existing, Search([], visited, discovered), reached)
  {
    nextFrontier, visited', discovered' := [], visited, discovered;
    for k := 0 to |reached|
      invariant Search(nextFrontier, visited', discovered')
             == VisitAll(hop, existing, Search([], visited, discovered), reached[..k])
    {
      assert reached[..k + 1][..k] == reached[..k];
      var e := reached[k];
      if e.id !in visited' {
        visited' := visited' + {e.id};
        if e.id !in existing {
          discovered' := discovered' + [Found(hop, e.weight, e.id)];
        }
        if |nextFrontier| < BFS_FRONTIER_CAP {
          nextFrontier := nextFrontier + [e.id];
        }
      }
    }
    assert reached[..|reached|] == reached;
  }

  /** With an empty frontier, further hops change nothing. */
  lemma {:induction false} StuckSearch(b: Brain, existing: set<string>, seeds: seq<string>, h: nat, hops: nat)
    requires h <= hops && Expand(b, existing, seeds, h).frontier == []
    ensures Expand(b, existing, seeds, hops) == Expand(b, existing, seeds, h)
    decreases hops
  {
    hide Hop;
    if h < hops {
      StuckSearch(b, existing, seeds, h, hops - 1);
      HopFromNowhere(b, hops, existing, Expand(b, existing, seeds, hops - 1));
    }
  }

  lemma HopFromNowhere(b: Brain, hop: nat, existing: set<string>, s: Search)
    requires s.frontier == []
    ensures Hop(b, hop, existing, s) == s
  {
    assert Reach(b, []) == [] && SortBy<Edge>([], EdgeLe) == [];
  }

  lemma NothingExpanded(b: Brain, hits: seq<Hit>, hops: nat)
    requires hops == 0 || hits == []
    ensures Expanded(b, hits, hops) == hits
  {
    var existing, seeds := IdSet(HitIds(hits)), Seeds(hits);
    assert Expand(b, existing, seeds, 0).discovered == [];
    if hits == [] {
      StuckSearch(b, existing, seeds, 0, hops);
    }
    assert TopFound([]) == [];
    assert Candidates(b, []) == [];
  }
}
