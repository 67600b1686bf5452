/** The scoped, sorted graph export of `graph_export.rs`. */
module GraphExport {
  import opened Options
  import opened Orders
  import opened Sorting

  datatype Visibility = Private | Team | Org | Public

  function Rank(v: Visibility): nat
  {
    match v
    case Private => 0
    case Team => 1
    case Org => 2
    case Public => 3
  }

  /** Content labelled v may be shared into a context that requires target. */
  predicate Allows(v: Visibility, target: Visibility)
  {
    Rank(v) >= Rank(target)
  }

  function VisStr(v: Visibility): string
  {
    match v
    case Private => "private"
    case Team => "team"
    case Org => "org"
    case Public => "public"
  }

  /** Ids are the hex strings the export prints. */
  datatype Entity = Entity(id: string, entityType: string, canonical: string, visibility: Visibility, weight: real)

  datatype Document = Document(id: string, source: string, visibility: Visibility)

  datatype Triple = Triple(fromId: string, toId: string, relation: string, confidence: real, weight: real,
                           visibility: Visibility)

  datatype Neighborhood = Neighborhood(entities: seq<Entity>, documents: seq<Document>, triples: seq<Triple>,
                                       truncated: bool)

  datatype NodeKind = EntityNode | DocumentNode

  datatype Node = Node(id: string, kind: NodeKind, caption: string, entityType: Option<string>, visibility: string,
                       weight: Option<real>)

  datatype Edge = Edge(fromId: string, toId: string, relation: string, confidence: real, weight: real,
                       visibility: string)

  datatype Meta = Meta(
    nodeCount: nat, edgeCount: nat, entityCount: nat, documentCount: nat,
    visibilityScope: string, truncated: bool, filteredOut: nat)

  datatype Export = Export(meta: Meta, nodes: seq<Node>, edges: seq<Edge>)

  function EntityToNode(e: Entity): Node
  {
    Node(e.id, EntityNode, e.canonical, Some(e.entityType), VisStr(e.visibility), Some(e.weight))
  }

  function DocumentToNode(d: Document): Node
  {
    Node(d.id, DocumentNode, d.source, None, VisStr(d.visibility), None)
  }

  function TripleToEdge(t: Triple): Edge
  {
    Edge(t.fromId, t.toId, t.relation, t.confidence, t.weight, VisStr(t.visibility))
  }

  // ---- what is admitted at a scope

  predicate ShowsEntity(scope: Visibility, e: Entity) { Allows(e.visibility, scope) }

  predicate ShowsDocument(scope: Visibility, d: Document) { Allows(d.visibility, scope) }

  /** The edge is admissible and so are both its endpoints. */
  predicate ShowsTriple(scope: Visibility, kept: set<string>, t: Triple)
  {
    Allows(t.visibility, scope) && t.fromId in kept && t.toId in kept
  }

  function PickEntity(scope: Visibility): Entity -> Option<Node>
  {
    (e: Entity) => if ShowsEntity(scope, e) then Some(EntityToNode(e)) else None
  }

  function PickDocument(scope: Visibility): Document -> Option<Node>
  {
    (d: Document) => if ShowsDocument(scope, d) then Some(DocumentToNode(d)) else None
  }

  function PickTriple(scope: Visibility, kept: set<string>): Triple -> Option<Edge>
  {
    (t: Triple) => if ShowsTriple(scope, kept, t) then Some(TripleToEdge(t)) else None
  }

  function KeptIds(es: seq<Entity>, scope: Visibility): set<string>
  {
    set e | e in es && ShowsEntity(scope, e) :: e.id
  }

  predicate NodeLe(a: Node, b: Node)
  {
    LexLe(a.id, b.id)
  }

  /** By source, then target, then predicate. */
  predicate EdgeLe(a: Edge, b: Edge)
  {
    if a.fromId != b.fromId then LexLe(a.fromId, b.fromId)
    else if a.toId != b.toId then LexLe(a.toId, b.toId)
    else LexLe(a.relation, b.relation)
  }

  function AllNodes(n: Neighborhood, scope: Visibility): seq<Node>
  {
    FilterMap(n.entities, PickEntity(scope)) + FilterMap(n.documents, PickDocument(scope))
  }

  function AllEdges(n: Neighborhood, scope: Visibility): seq<Edge>
  {
    FilterMap(n.triples, PickTriple(scope, KeptIds(n.entities, scope)))
  }

  function SortedNodes(n: Neighborhood, scope: Visibility): seq<Node>
  {
    SortBy(AllNodes(n, scope), NodeLe)
  }

  function SortedEdges(n: Neighborhood, scope: Visibility): seq<Edge>
  {
    SortBy(AllEdges(n, scope), EdgeLe)
  }

  /** Everything is either exported or counted as filtered out. */
  method ExportNeighborhood(n: Neighborhood, scope: Visibility) returns (r: Export)
    ensures r.nodes == SortedNodes(n, scope) && r.edges == SortedEdges(n, scope)
    ensures r.meta.nodeCount == |r.nodes| == r.meta.entityCount + r.meta.documentCount
    ensures r.meta.entityCount == |FilterMap(n.entities, PickEntity(scope))|
    ensures r.meta.edgeCount == |r.edges|
    ensures r.meta.nodeCount + r.meta.edgeCount + r.meta.filteredOut
         == |n.entities| + |n.documents| + |n.triples|
    ensures r.meta.truncated == n.truncated && r.meta.visibilityScope == VisStr(scope)
  {
    var nodes, kept, filteredOut := CollectEntities(n.entities, scope);
    var entityCount := |nodes|;
    nodes, filteredOut := AddDocuments(n.documents, scope, nodes, filteredOut);
    var documentCount := |nodes| - entityCount;
    var edges: seq<Edge>;
    edges, filteredOut := CollectEdges(n.triples, kept, scope, filteredOut);
    nodes := SortBy(nodes, NodeLe);
    edges := SortBy(edges, EdgeLe);
    r := Export(
      Meta(|nodes|, |edges|, entityCount, documentCount, VisStr(scope), n.truncated, filteredOut),
      nodes, edges);
  }

  method CollectEntities(es: seq<Entity>, scope: Visibility)
    returns (nodes: seq<Node>, kept: set<string>, filteredOut: nat)
    ensures nodes == FilterMap(es, PickEntity(scope)) && kept == KeptIds(es, scope)
    ensures |nodes| + filteredOut == |es|
  {
    nodes, kept, filteredOut := [], {}, 0;
    hide KeptIds;
    assert KeptIds(es[..0], scope) == {} by { NoKept(es[..0], scope); }
    for i := 0 to |es|
      invariant nodes == FilterMap(es[..i], PickEntity(scope))
      invariant kept == KeptIds(es[..i], scope)
      invariant |nodes| + filteredOut == i
    {
      assert es[..i + 1][..i] == es[..i];
      KeptStep(es, i, scope);
      if Allows(es[i].visibility, scope) {
        var node := EntityToNode(es[i]);
        kept := kept + {node.id};
        nodes := nodes + [node];
      } else {
        filteredOut := filteredOut + 1;
      }
    }
    assert es[..|es|] == es;
  }

  lemma NoKept(es: seq<Entity>, scope: Visibility)
    requires es == []
    ensures KeptIds(es, scope) == {}
  {
  }

  lemma KeptStep(es: seq<Entity>, i: nat, scope: Visibility)
    requires i < |es|
    ensures KeptIds(es[..i + 1], scope)
         == KeptIds(es[..i], scope) + (if Allows(es[i].visibility, scope) then {es[i].id} else {})
  {
    assert es[..i + 1] == es[..i] + [es[i]];
  }

  method AddDocuments(ds: seq<Document>, scope: Visibility, nodes: seq<Node>, filteredOut: nat)
    returns (nodes': seq<Node>, filteredOut': nat)
    ensures nodes' == nodes + FilterMap(ds, PickDocument(scope))
    ensures |nodes'| - |nodes| + filteredOut' == filteredOut + |ds|
  {
    nodes', filteredOut' := nodes, filteredOut;
    for i := 0 to |ds|
      invariant nodes' == nodes + FilterMap(ds[..i], PickDocument(scope))
      invariant |nodes'| - |nodes| + filteredOut' == filteredOut + i
    {
      assert ds[..i + 1][..i] == ds[..i];
      if Allows(ds[i].visibility, scope) {
        nodes' := nodes' + [DocumentToNode(ds[i])];
      } else {
        filteredOut' := filteredOut' + 1;
      }
    }
    assert ds[..|ds|] == ds;
  }

  method CollectEdges(ts: seq<Triple>, kept: set<string>, scope: Visibility, filteredOut: nat)
    returns (edges: seq<Edge>, filteredOut': nat)
    ensures edges == FilterMap(ts, PickTriple(scope, kept))
    ensures |edges| + filteredOut' == filteredOut + |ts|
  {
    edges, filteredOut' := [], filteredOut;
    for i := 0 to |ts|
      invariant edges == FilterMap(ts[..i], PickTriple(scope, kept))
      invariant |edges| + filteredOut' == filteredOut + i
    {
      assert ts[..i + 1][..i] == ts[..i];
      var e := TripleToEdge(ts[i]);
      if Allows(ts[i].visibility, scope) && e.fromId in kept && e.toId in kept {
        edges := edges + [e];
      } else {
        filteredOut' := filteredOut' + 1;
      }
    }
    assert ts[..|ts|] == ts;
  }

  // ---- what is exported

  lemma NodeOrder()
    ensures TotalPreorder(NodeLe)
    ensures forall a: Node, b: Node :: NodeLe(a, b) && NodeLe(b, a) ==> a.id == b.id
  {
    LexOrder();
  }

  lemma EdgeOrder()
    ensures TotalPreorder(EdgeLe)
    ensures forall a: Edge, b: Edge :: EdgeLe(a, b) && EdgeLe(b, a) ==>
              a.fromId == b.fromId && a.toId == b.toId && a.relation == b.relation
  {
    LexOrder();
    hide LexLe;
    forall a: Edge, b: Edge ensures EdgeLe(a, b) || EdgeLe(b, a) {
      assert LexLe(a.fromId, b.fromId) || LexLe(b.fromId, a.fromId);
      assert LexLe(a.toId, b.toId) || LexLe(b.toId, a.toId);
      assert LexLe(a.relation, b.relation) || LexLe(b.relation, a.relation);
    }
  }

  ghost predicate DistinctNodes(s: seq<Node>)
  {
    forall i, j :: 0 <= i < j < |s| ==> s[i].id != s[j].id
  }

  ghost predicate DistinctEdges(s: seq<Edge>)
  {
    forall i, j :: 0 <= i < j < |s| ==>
      !(s[i].fromId == s[j].fromId && s[i].toId == s[j].toId && s[i].relation == s[j].relation)
  }

  lemma DistinctAreUntied(n: Neighborhood, scope: Visibility)
    ensures DistinctNodes(AllNodes(n, scope)) ==> Untied(AllNodes(n, scope), NodeLe)
    ensures DistinctEdges(AllEdges(n, scope)) ==> Untied(AllEdges(n, scope), EdgeLe)
  {
    NodeOrder();
    EdgeOrder();
    hide NodeLe, EdgeLe, AllNodes, AllEdges;
  }

  ghost function Shown(n: Neighborhood, scope: Visibility): (multiset<Entity>, multiset<Document>, multiset<Triple>)
  {
    (multiset(Filter(n.entities, e => ShowsEntity(scope, e))),
     multiset(Filter(n.documents, d => ShowsDocument(scope, d))),
     multiset(Filter(n.triples, t => ShowsTriple(scope, KeptIds(n.entities, scope), t))))
  }

  /** Main result: with distinct node ids and edge keys, the exported nodes and edges, and so every
      count of them, are determined by the admissible elements alone. Reordering the input lists, or
      adding, removing or changing inadmissible elements anywhere in them, changes none of it. */
  lemma ExportDependsOnShown(n: Neighborhood, n': Neighborhood, scope: Visibility)
    requires Shown(n, scope) == Shown(n', scope)
    requires DistinctNodes(AllNodes(n, scope)) && DistinctEdges(AllEdges(n, scope))
    ensures SortedNodes(n, scope) == SortedNodes(n', scope)
    ensures SortedEdges(n, scope) == SortedEdges(n', scope)
    ensures |FilterMap(n.entities, PickEntity(scope))| == |FilterMap(n'.entities, PickEntity(scope))|
    ensures |FilterMap(n.documents, PickDocument(scope))| == |FilterMap(n'.documents, PickDocument(scope))|
  {
    hide FilterMap, SortBy, NodeLe, EdgeLe, Filter;
    NodeOrder();
    EdgeOrder();
    DistinctAreUntied(n, scope);
    SameEntities(n.entities, n'.entities, scope);
    SameDocuments(n.documents, n'.documents, scope);
    SameLength(FilterMap(n.entities, PickEntity(scope)), FilterMap(n'.entities, PickEntity(scope)));
    SameLength(FilterMap(n.documents, PickDocument(scope)), FilterMap(n'.documents, PickDocument(scope)));
    SameTriples(n.triples, n'.triples, scope, KeptIds(n.entities, scope));
    SortByPermuted(AllNodes(n, scope), AllNodes(n', scope), NodeLe);
    SortByPermuted(AllEdges(n, scope), AllEdges(n', scope), EdgeLe);
  }

  lemma {:induction false} SameEntities(s: seq<Entity>, t: seq<Entity>, scope: Visibility)
    requires multiset(Filter(s, e => ShowsEntity(scope, e))) == multiset(Filter(t, e => ShowsEntity(scope, e)))
    ensures multiset(FilterMap(s, PickEntity(scope))) == multiset(FilterMap(t, PickEntity(scope)))
    ensures KeptIds(s, scope) == KeptIds(t, scope)
  {
    hide FilterMap, Filter, ShowsEntity, PickEntity;
    var shows := (e: Entity) => ShowsEntity(scope, e);
    SameMembers(Filter(s, shows), Filter(t, shows));
    assert forall e :: e in s && ShowsEntity(scope, e) <==> e in Filter(s, shows);
    assert KeptIds(s, scope) == KeptIds(t, scope);
    PickIsShow(scope);
    FilterMapFilter(s, shows, PickEntity(scope));
    FilterMapFilter(t, shows, PickEntity(scope));
    FilterMapPermuted(Filter(s, shows), Filter(t, shows), PickEntity(scope));
  }

  lemma PickIsShow(scope: Visibility)
    ensures forall e :: !ShowsEntity(scope, e) ==> PickEntity(scope)(e).None?
  {
  }

  lemma SameDocuments(s: seq<Document>, t: seq<Document>, scope: Visibility)
    requires multiset(Filter(s, d => ShowsDocument(scope, d))) == multiset(Filter(t, d => ShowsDocument(scope, d)))
    ensures multiset(FilterMap(s, PickDocument(scope))) == multiset(FilterMap(t, PickDocument(scope)))
  {
    hide FilterMap, DocumentToNode;
    var shows := (d: Document) => ShowsDocument(scope, d);
    FilterMapFilter(s, shows, PickDocument(scope));
    FilterMapFilter(t, shows, PickDocument(scope));
    FilterMapPermuted(Filter(s, shows), Filter(t, shows), PickDocument(scope));
  }

  lemma {:induction false} SameTriples(s: seq<Triple>, t: seq<Triple>, scope: Visibility, kept: set<string>)
    requires multiset(Filter(s, x => ShowsTriple(scope, kept, x)))
          == multiset(Filter(t, x => ShowsTriple(scope, kept, x)))
    ensures multiset(FilterMap(s, PickTriple(scope, kept))) == multiset(FilterMap(t, PickTriple(scope, kept)))
  {
    hide FilterMap, TripleToEdge;
    var shows := (x: Triple) => ShowsTriple(scope, kept, x);
    FilterMapFilter(s, shows, PickTriple(scope, kept));
    FilterMapFilter(t, shows, PickTriple(scope, kept));
    FilterMapPermuted(Filter(s, shows), Filter(t, shows), PickTriple(scope, kept));
  }

  /** A node is exported exactly when it shows an admissible entity or document. */
  lemma NodeExported(n: Neighborhood, scope: Visibility, v: Node)
    ensures v in SortedNodes(n, scope) <==>
              || (exists e :: e in n.entities && Allows(e.visibility, scope) && v == EntityToNode(e))
              || (exists d :: d in n.documents && Allows(d.visibility, scope) && v == DocumentToNode(d))
  {
    hide SortBy, FilterMap, Allows, EntityToNode, DocumentToNode;
    assert v in SortedNodes(n, scope) <==> v in multiset(SortedNodes(n, scope));
    assert v in AllNodes(n, scope) <==> v in multiset(AllNodes(n, scope));
    FilterMapMembers(n.entities, PickEntity(scope), v);
    FilterMapMembers(n.documents, PickDocument(scope), v);
  }

  /** An edge is exported exactly when it shows an admissible triple between admissible entities. */
  lemma EdgeExported(n: Neighborhood, scope: Visibility, x: Edge)
    ensures x in SortedEdges(n, scope) <==>
              exists t :: t in n.triples && x == TripleToEdge(t) && Allows(t.visibility, scope)
                && (exists e :: e in n.entities && Allows(e.visibility, scope) && e.id == t.fromId)
                && (exists e :: e in n.entities && Allows(e.visibility, scope) && e.id == t.toId)
  {
    hide SortBy, FilterMap, Allows, TripleToEdge;
    var kept := KeptIds(n.entities, scope);
    assert x in SortedEdges(n, scope) <==> x in multiset(SortedEdges(n, scope));
    assert x in AllEdges(n, scope) <==> x in multiset(AllEdges(n, scope));
    FilterMapMembers(n.triples, PickTriple(scope, kept), x);
    assert forall t :: PickTriple(scope, kept)(t) == Some(x) <==>
                       x == TripleToEdge(t) && Allows(t.visibility, scope) && t.fromId in kept && t.toId in kept;
    assert forall id :: id in kept <==> exists e :: e in n.entities && Allows(e.visibility, scope) && e.id == id;
  }

  /** The nodes come in id order, the edges by source, then target, then predicate. */
  lemma ExportSorted(n: Neighborhood, scope: Visibility)
    ensures Sorted(SortedNodes(n, scope), NodeLe) && Sorted(SortedEdges(n, scope), EdgeLe)
  {
    NodeOrder();
    EdgeOrder();
    hide AllNodes, AllEdges, NodeLe, EdgeLe, SortBy;
    SortBySorts(AllNodes(n, scope), NodeLe);
    SortBySorts(AllEdges(n, scope), EdgeLe);
  }

  /** No exported edge dangles: both endpoints are exported entity nodes. */
  lemma NoDanglingEdges(n: Neighborhood, scope: Visibility, e: Edge)
    requires e in SortedEdges(n, scope)
    ensures exists v :: v in SortedNodes(n, scope) && v.kind == EntityNode && v.id == e.fromId
    ensures exists v :: v in SortedNodes(n, scope) && v.kind == EntityNode && v.id == e.toId
  {
    hide SortBy, FilterMap;
    var kept := KeptIds(n.entities, scope);
    assert e in multiset(SortedEdges(n, scope));
    assert e in AllEdges(n, scope);
    FilterMapMembers(n.triples, PickTriple(scope, kept), e);
    var t :| t in n.triples && PickTriple(scope, kept)(t) == Some(e);
    KeptIsExported(n, scope, t.fromId);
    KeptIsExported(n, scope, t.toId);
  }

  lemma KeptIsExported(n: Neighborhood, scope: Visibility, id: string)
    requires id in KeptIds(n.entities, scope)
    ensures exists v :: v in SortedNodes(n, scope) && v.kind == EntityNode && v.id == id
  {
    hide SortBy, FilterMap;
    var e :| e in n.entities && ShowsEntity(scope, e) && e.id == id;
    FilterMapMembers(n.entities, PickEntity(scope), EntityToNode(e));
    var v := EntityToNode(e);
    assert v in AllNodes(n, scope);
    assert v in multiset(AllNodes(n, scope));
    assert v in multiset(SortedNodes(n, scope));
  }

  // ---- stricter scopes

  /** Whether an exported label admits a scope. */
  predicate LabelAllows(shown: string, scope: Visibility)
  {
    exists v: Visibility :: VisStr(v) == shown && Allows(v, scope)
  }

  lemma LabelIsFaithful(v: Visibility, scope: Visibility)
    ensures LabelAllows(VisStr(v), scope) <==> Allows(v, scope)
  {
    forall u: Visibility, w: Visibility | VisStr(u) == VisStr(w) ensures u == w {
    }
  }

  function NodeShown(scope: Visibility): Node -> bool
  {
    (v: Node) => LabelAllows(v.visibility, scope)
  }

  function EdgeShown(scope: Visibility, kept: set<string>): Edge -> bool
  {
    (e: Edge) => LabelAllows(e.visibility, scope) && e.fromId in kept && e.toId in kept
  }

  /** Main result: exporting at a stricter scope is the looser export with lines deleted, so it is a
      subsequence of it; what to delete can be read off the looser export's own labels and, for edges,
      the entity ids that remain. */
  lemma StricterIsSubsequence(n: Neighborhood, loose: Visibility, strict: Visibility)
    requires Rank(strict) >= Rank(loose)
    ensures SortedNodes(n, strict) == Filter(SortedNodes(n, loose), NodeShown(strict))
    ensures SortedEdges(n, strict) == Filter(SortedEdges(n, loose), EdgeShown(strict, KeptIds(n.entities, strict)))
  {
    var kept, kept' := KeptIds(n.entities, loose), KeptIds(n.entities, strict);
    assert kept' <= kept;
    StricterEntities(n.entities, loose, strict);
    StricterDocuments(n.documents, loose, strict);
    StricterTriples(n.triples, loose, strict, kept, kept');
    hide FilterMap, SortBy, NodeLe, EdgeLe, Filter, NodeShown, EdgeShown;
    FilterConcat(FilterMap(n.entities, PickEntity(loose)), FilterMap(n.documents, PickDocument(loose)),
                 NodeShown(strict));
    assert AllNodes(n, strict) == Filter(AllNodes(n, loose), NodeShown(strict));
    assert AllEdges(n, strict) == Filter(AllEdges(n, loose), EdgeShown(strict, kept'));
    NodeOrder();
    EdgeOrder();
    SortFilter(AllNodes(n, loose), NodeShown(strict), NodeLe);
    SortFilter(AllEdges(n, loose), EdgeShown(strict, kept'), EdgeLe);
  }

  lemma {:induction false} PickTwice<S, T(!new)>(s: seq<S>, pick: S -> Option<T>, pick': S -> Option<T>,
                                          keep: T -> bool)
    requires forall x :: x in s ==> pick'(x) == (if pick(x).Some? && keep(pick(x).value) then pick(x) else None)
    ensures FilterMap(s, pick') == Filter(FilterMap(s, pick), keep)
    decreases |s|
  {
    hide Filter;
    if s == [] {
      FilterOnce(FilterMap(s, pick), keep);
    } else {
      var n := |s| - 1;
      assert s == s[..n] + [s[n]];
      PickTwice(s[..n], pick, pick', keep);
      assert s[n] in s;
      assert FilterMap(s[..n], pick) + [] == FilterMap(s[..n], pick);
      assert Filter(FilterMap(s[..n], pick), keep) + [] == Filter(FilterMap(s[..n], pick), keep);
      if pick(s[n]).Some? {
        FilterConcat(FilterMap(s[..n], pick), [pick(s[n]).value], keep);
        FilterSingle(pick(s[n]).value, keep);
      }
    }
  }

  lemma FilterSingle<T(!new)>(x: T, keep: T -> bool)
    ensures Filter([x], keep) == if keep(x) then [x] else []
  {
    assert [x][1..] == [];
  }

  lemma StricterEntities(es: seq<Entity>, loose: Visibility, strict: Visibility)
    requires Rank(strict) >= Rank(loose)
    ensures FilterMap(es, PickEntity(strict)) == Filter(FilterMap(es, PickEntity(loose)), NodeShown(strict))
  {
    forall e | e in es {
      LabelIsFaithful(e.visibility, strict);
    }
    hide LabelAllows, VisStr, Filter, FilterMap;
    PickTwice(es, PickEntity(loose), PickEntity(strict), NodeShown(strict));
  }

  lemma StricterDocuments(ds: seq<Document>, loose: Visibility, strict: Visibility)
    requires Rank(strict) >= Rank(loose)
    ensures FilterMap(ds, PickDocument(strict)) == Filter(FilterMap(ds, PickDocument(loose)), NodeShown(strict))
  {
    forall d | d in ds {
      LabelIsFaithful(d.visibility, strict);
    }
    hide LabelAllows, VisStr, Filter, FilterMap;
    PickTwice(ds, PickDocument(loose), PickDocument(strict), NodeShown(strict));
  }

  lemma StricterTriples(ts: seq<Triple>, loose: Visibility, strict: Visibility, kept: set<string>, kept': set<string>)
    requires Rank(strict) >= Rank(loose) && kept' <= kept
    ensures FilterMap(ts, PickTriple(strict, kept'))
         == Filter(FilterMap(ts, PickTriple(loose, kept)), EdgeShown(strict, kept'))
  {
    forall t | t in ts {
      LabelIsFaithful(t.visibility, strict);
    }
    hide LabelAllows, VisStr, Filter, FilterMap;
    PickTwice(ts, PickTriple(loose, kept), PickTriple(strict, kept'), EdgeShown(strict, kept'));
  }
}
