/** The graph export in terms of the labels themselves: which elements appear at which scope, how each is
    printed, how many there are, and in which order. */
module ExportLabels {
  import opened Options
  import opened Orders
  import opened Sorting
  import opened GraphExport

  /** What is labelled v may appear in an export at the given scope. */
  ghost predicate Admitted(v: Visibility, scope: Visibility)
  {
    match scope
    case Private => true
    case Team => v == Team || v == Org || v == Public
    case Org => v == Org || v == Public
    case Public => v == Public
  }

  ghost predicate Prints(v: Visibility, printed: string)
  {
    || (v == Private && printed == "private")
    || (v == Team && printed == "team")
    || (v == Org && printed == "org")
    || (v == Public && printed == "public")
  }

  ghost predicate ShowsEntityAs(e: Entity, x: Node)
  {
    && x.id == e.id && x.kind == EntityNode && x.caption == e.canonical
    && x.entityType == Some(e.entityType) && x.weight == Some(e.weight) && Prints(e.visibility, x.visibility)
  }

  ghost predicate ShowsDocumentAs(d: Document, x: Node)
  {
    && x.id == d.id && x.kind == DocumentNode && x.caption == d.source
    && x.entityType == None && x.weight == None && Prints(d.visibility, x.visibility)
  }

  ghost predicate ShowsTripleAs(t: Triple, x: Edge)
  {
    && x.fromId == t.fromId && x.toId == t.toId && x.relation == t.relation
    && x.confidence == t.confidence && x.weight == t.weight && Prints(t.visibility, x.visibility)
  }

  /** Some entity with this id may appear. */
  ghost predicate HasEnd(n: Neighborhood, scope: Visibility, id: string)
  {
    exists e :: e in n.entities && Admitted(e.visibility, scope) && e.id == id
  }

  lemma AdmittedIsAllowed(v: Visibility, scope: Visibility)
    ensures Allows(v, scope) <==> Admitted(v, scope)
  {
  }

  /** Main result for the nodes: a node is exported exactly when an entity or document whose label the
      scope admits is printed as that node. */
  lemma ExportedNode(n: Neighborhood, scope: Visibility, x: Node)
    ensures x in SortedNodes(n, scope) <==>
              || (exists e :: e in n.entities && Admitted(e.visibility, scope) && ShowsEntityAs(e, x))
              || (exists d :: d in n.documents && Admitted(d.visibility, scope) && ShowsDocumentAs(d, x))
  {
    NodeExported(n, scope, x);
    hide SortedNodes;
    forall e: Entity ensures ShowsEntityAs(e, x) <==> x == EntityToNode(e) {
    }
    forall d: Document ensures ShowsDocumentAs(d, x) <==> x == DocumentToNode(d) {
    }
    forall v ensures Allows(v, scope) <==> Admitted(v, scope) {
      AdmittedIsAllowed(v, scope);
    }
    hide *;
  }

  /** Main result for the edges: an edge is exported exactly when a triple whose label the scope admits,
      between two entities whose labels it admits, is printed as that edge. */
  lemma ExportedEdge(n: Neighborhood, scope: Visibility, x: Edge)
    ensures x in SortedEdges(n, scope) <==>
              exists t :: t in n.triples && Admitted(t.visibility, scope) && ShowsTripleAs(t, x)
                && HasEnd(n, scope, t.fromId) && HasEnd(n, scope, t.toId)
  {
    EdgeExported(n, scope, x);
    hide SortedEdges;
    forall t: Triple ensures ShowsTripleAs(t, x) <==> x == TripleToEdge(t) {
    }
    forall v ensures Allows(v, scope) <==> Admitted(v, scope) {
      AdmittedIsAllowed(v, scope);
    }
    hide Allows, Admitted, ShowsTripleAs, TripleToEdge;
  }

  ghost function AdmittedEntities(n: Neighborhood, scope: Visibility): set<nat>
  {
    set i | 0 <= i < |n.entities| && Admitted(n.entities[i].visibility, scope)
  }

  ghost function AdmittedDocuments(n: Neighborhood, scope: Visibility): set<nat>
  {
    set i | 0 <= i < |n.documents| && Admitted(n.documents[i].visibility, scope)
  }

  ghost function AdmittedTriples(n: Neighborhood, scope: Visibility): set<nat>
  {
    set i | 0 <= i < |n.triples| && Admitted(n.triples[i].visibility, scope)
            && HasEnd(n, scope, n.triples[i].fromId) && HasEnd(n, scope, n.triples[i].toId)
  }

  lemma {:induction false} FilterMapCount<S, T>(s: seq<S>, pick: S -> Option<T>, picked: set<nat>)
    requires forall i :: i in picked <==> 0 <= i < |s| && pick(s[i]).Some?
    ensures |FilterMap(s, pick)| == |picked|
    decreases |s|
  {
    if s == [] {
      assert picked == {};
    } else {
      var n := |s| - 1;
      FilterMapCount(s[..n], pick, picked - {n});
    }
  }

  /** Main result for the counts: every admitted element is exported exactly once, and the scope is
      printed by its name. */
  lemma ExportSizes(n: Neighborhood, scope: Visibility)
    ensures |FilterMap(n.entities, PickEntity(scope))| == |AdmittedEntities(n, scope)|
    ensures |SortedNodes(n, scope)| == |AdmittedEntities(n, scope)| + |AdmittedDocuments(n, scope)|
    ensures |SortedEdges(n, scope)| == |AdmittedTriples(n, scope)|
    ensures Prints(scope, VisStr(scope))
  {
    EntitySizes(n, scope);
    DocumentSizes(n, scope);
    TripleSizes(n, scope);
    hide FilterMap, PickEntity, PickDocument, PickTriple, KeptIds;
  }

  lemma EntitySizes(n: Neighborhood, scope: Visibility)
    ensures |FilterMap(n.entities, PickEntity(scope))| == |AdmittedEntities(n, scope)|
  {
    forall v ensures Allows(v, scope) <==> Admitted(v, scope) {
      AdmittedIsAllowed(v, scope);
    }
    hide Allows, Admitted, FilterMap;
    FilterMapCount(n.entities, PickEntity(scope), AdmittedEntities(n, scope));
  }

  lemma DocumentSizes(n: Neighborhood, scope: Visibility)
    ensures |FilterMap(n.documents, PickDocument(scope))| == |AdmittedDocuments(n, scope)|
  {
    forall v ensures Allows(v, scope) <==> Admitted(v, scope) {
      AdmittedIsAllowed(v, scope);
    }
    hide Allows, Admitted, FilterMap;
    FilterMapCount(n.documents, PickDocument(scope), AdmittedDocuments(n, scope));
  }

  lemma TripleSizes(n: Neighborhood, scope: Visibility)
    ensures |AllEdges(n, scope)| == |AdmittedTriples(n, scope)|
  {
    forall v ensures Allows(v, scope) <==> Admitted(v, scope) {
      AdmittedIsAllowed(v, scope);
    }
    hide Allows, Admitted, FilterMap;
    var kept := KeptIds(n.entities, scope);
    forall id ensures id in kept <==> HasEnd(n, scope, id) {
    }
    hide KeptIds, HasEnd;
    FilterMapCount(n.triples, PickTriple(scope, kept), AdmittedTriples(n, scope));
  }

  /** Nodes in id order; edges by source, then target, then predicate, whatever they are. */
  lemma ExportInOrder(n: Neighborhood, scope: Visibility, i: nat, j: nat)
    ensures i < j < |SortedNodes(n, scope)| ==> LexLe(SortedNodes(n, scope)[i].id, SortedNodes(n, scope)[j].id)
    ensures i < j < |SortedEdges(n, scope)| ==>
              var x, y := SortedEdges(n, scope)[i], SortedEdges(n, scope)[j];
              || (x.fromId != y.fromId && LexLe(x.fromId, y.fromId))
              || (x.fromId == y.fromId && x.toId != y.toId && LexLe(x.toId, y.toId))
              || (x.fromId == y.fromId && x.toId == y.toId && LexLe(x.relation, y.relation))
  {
    ExportSorted(n, scope);
    hide SortedNodes, SortedEdges, LexLe;
    if i < j < |SortedNodes(n, scope)| {
      assert NodeLe(SortedNodes(n, scope)[i], SortedNodes(n, scope)[j]);
    }
    if i < j < |SortedEdges(n, scope)| {
      assert GraphExport.EdgeLe(SortedEdges(n, scope)[i], SortedEdges(n, scope)[j]);
    }
  }

  /** Nodes that share an id stay in the order of the input, entities before documents; so do edges that share
      source, target and predicate. */
  lemma TiesStay(n: Neighborhood, scope: Visibility, v: Node, x: Edge)
    ensures var same := (u: Node) => u.id == v.id;
            Filter(SortedNodes(n, scope), same)
            == Filter(FilterMap(n.entities, PickEntity(scope)) + FilterMap(n.documents, PickDocument(scope)), same)
    ensures var same := (y: Edge) => y.fromId == x.fromId && y.toId == x.toId && y.relation == x.relation;
            Filter(SortedEdges(n, scope), same)
            == Filter(FilterMap(n.triples, PickTriple(scope, KeptIds(n.entities, scope))), same)
  {
    LexOrder();
    NodeOrder();
    GraphExport.EdgeOrder();
    assert forall s: string :: LexLe(s, s);
    hide LexLe, FilterMap, SortBy, Filter;
    SortByStable(AllNodes(n, scope), (u: Node) => u.id == v.id, NodeLe);
    SortByStable(AllEdges(n, scope),
                 (y: Edge) => y.fromId == x.fromId && y.toId == x.toId && y.relation == x.relation, GraphExport.EdgeLe);
  }
}
