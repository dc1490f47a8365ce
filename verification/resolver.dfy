/**
 The reference resolver of `NeoImport`: for every taxon node it turns the
 accepted, parent and original-name foreign keys into typed edges and labels
 (`setupAcceptedRel`, `setupParentRel`, `setupBasionymRel`, run in that order
 per node by `setupRelations`).

 The graph store is a map from taxonID to the node's stored properties, so
 `nodeByTaxonId` is a map lookup and an edge names its end nodes by taxonID.
 Edges and labels are sets: within one pass each (from, to, type) triple is
 created by one node only, so no edge is created twice.
 */
module Resolver {
  import opened Wrappers

  const AcceptedTerm := "acceptedNameUsageID"
  const ParentTerm := "parentNameUsageID"
  const OriginalTerm := "originalNameUsageID"

  /** A taxon node: its stored properties, term to value. */
  datatype Node = Node(props: map<string, string>)

  /** The taxon store: every node under its taxonID. */
  type Store = map<string, Node>

  datatype RelType = ParentOf | SynonymOf | BasionymOf

  datatype Label = Taxon | Root | Synonym

  /** A directed typed relationship between two nodes, named by taxonID. */
  datatype Edge = Edge(from: string, to: string, kind: RelType)

  /** A label attached to a node. */
  datatype Tag = Tag(node: string, mark: Label)

  datatype Graph = Graph(edges: set<Edge>, tags: set<Tag>)

  /** `value(n, term)`: the stored property, or null when the node has none. */
  function Value(n: Node, term: string): (v: Option<string>)
    ensures v.Some? <==> term in n.props
    ensures v.Some? ==> v.value == n.props[term]
  {
    if term in n.props then Some(n.props[term]) else None
  }

  /** The guard all three relation kinds share: the reference is present and differs from the
      node's own taxonID. An empty string passes it. */
  predicate IsLink(id: string, ref: Option<string>) {
    ref.Some? && ref.value != id
  }

  /** The node a reference of node `id` resolves to, if it passes the guard and names a node of the store. */
  function Target(store: Store, id: string, term: string): (t: Option<string>)
    requires id in store
    ensures t.Some? ==> t == Value(store[id], term) && t.value in store && t.value != id
    ensures t.Some? <==> IsLink(id, Value(store[id], term)) && Value(store[id], term).value in store
  {
    var ref := Value(store[id], term);
    if IsLink(id, ref) && ref.value in store then ref else None
  }

  /** The graph before resolution: every node carries the TAXON label from the insert. */
  function InitialGraph(store: Store): (g: Graph)
    ensures g.edges == {}
    ensures forall t :: t in g.tags <==> t.node in store && t.mark == Taxon
  {
    Graph({}, set k | k in store :: Tag(k, Taxon))
  }

  /** `setupAcceptedRel`: the returned flag says the node has an accepted-name link, resolvable or
      not; only a resolvable one adds the SYNONYM_OF edge and the SYNONYM label. */
  function AcceptedRel(store: Store, id: string, g: Graph): (res: (bool, Graph))
    requires id in store
    ensures res.0 <==> IsLink(id, Value(store[id], AcceptedTerm))
    ensures forall e :: e in res.1.edges <==>
      e in g.edges || (e.kind == SynonymOf && e.from == id && Target(store, id, AcceptedTerm) == Some(e.to))
    ensures forall t :: t in res.1.tags <==>
      t in g.tags || (t == Tag(id, Synonym) && Target(store, id, AcceptedTerm).Some?)
  {
    var aId := Value(store[id], AcceptedTerm);
    if IsLink(id, aId) then
      if aId.value in store then
        (true, Graph(g.edges + {Edge(id, aId.value, SynonymOf)}, g.tags + {Tag(id, Synonym)}))
      else
        (true, g)
    else
      (false, g)
  }

  /** `setupParentRel`: a resolvable parent link adds PARENT_OF from the parent to the node, whatever
      the synonym flag; a dangling link adds nothing; no link (absent or self) makes the node a ROOT
      unless it was flagged as a synonym. */
  function ParentRel(store: Store, id: string, isSynonym: bool, g: Graph): (r: Graph)
    requires id in store
    ensures forall e :: e in r.edges <==>
      e in g.edges || (e.kind == ParentOf && e.to == id && Target(store, id, ParentTerm) == Some(e.from))
    ensures forall t :: t in r.tags <==>
      t in g.tags || (t == Tag(id, Root) && !IsLink(id, Value(store[id], ParentTerm)) && !isSynonym)
  {
    var pId := Value(store[id], ParentTerm);
    if IsLink(id, pId) then
      if pId.value in store then g.(edges := g.edges + {Edge(pId.value, id, ParentOf)}) else g
    else if !isSynonym then
      g.(tags := g.tags + {Tag(id, Root)})
    else
      g
  }

  /** `setupBasionymRel`: a resolvable original-name link adds BASIONYM_OF from the original name
      to the node; labels never change. */
  function BasionymRel(store: Store, id: string, g: Graph): (r: Graph)
    requires id in store
    ensures forall e :: e in r.edges <==>
      e in g.edges || (e.kind == BasionymOf && e.to == id && Target(store, id, OriginalTerm) == Some(e.from))
    ensures r.tags == g.tags
  {
    var oId := Value(store[id], OriginalTerm);
    if IsLink(id, oId) && oId.value in store then g.(edges := g.edges + {Edge(oId.value, id, BasionymOf)}) else g
  }

  /** The node an edge was created for: the synonym for SYNONYM_OF, the child or the citing name otherwise. */
  function Owner(e: Edge): string {
    if e.kind == SynonymOf then e.from else e.to
  }

  /** The edges node `id` contributes, by its own references alone. */
  ghost predicate OwnsEdge(store: Store, id: string, e: Edge)
    requires id in store
  {
    match e.kind
    case SynonymOf => e.from == id && Target(store, id, AcceptedTerm) == Some(e.to)
    case ParentOf => e.to == id && Target(store, id, ParentTerm) == Some(e.from)
    case BasionymOf => e.to == id && Target(store, id, OriginalTerm) == Some(e.from)
  }

  /** The labels node `id` receives from resolution: SYNONYM for a resolvable accepted link, ROOT when
      it has neither a parent link nor an accepted-name link. */
  ghost predicate OwnsTag(store: Store, id: string, t: Tag)
    requires id in store
  {
    && t.node == id
    && match t.mark
       case Taxon => false
       case Synonym => Target(store, id, AcceptedTerm).Some?
       case Root => !IsLink(id, Value(store[id], ParentTerm)) && !IsLink(id, Value(store[id], AcceptedTerm))
  }

  /** The per-node sequence of `setupRelations`: accepted first, its flag into the parent step, basionym last. */
  function SetupNode(store: Store, id: string, g: Graph): (r: Graph)
    requires id in store
    ensures forall e :: e in r.edges <==> e in g.edges || OwnsEdge(store, id, e)
    ensures forall t :: t in r.tags <==> t in g.tags || OwnsTag(store, id, t)
  {
    var (isSynonym, g1) := AcceptedRel(store, id, g);
    BasionymRel(store, id, ParentRel(store, id, isSynonym, g1))
  }

  /** `setupRelations` over the nodes in store order `ids`: an edge or label is in the result iff it was
      there before or its owner is among `ids` and contributes it. */
  function SetupRelations(store: Store, ids: seq<string>, g: Graph): (r: Graph)
    requires forall k :: k in ids ==> k in store
    ensures forall e :: e in r.edges <==> e in g.edges || (Owner(e) in ids && OwnsEdge(store, Owner(e), e))
    ensures forall t :: t in r.tags <==> t in g.tags || (t.node in ids && OwnsTag(store, t.node, t))
  {
    if |ids| == 0 then g
    else
      var r := SetupRelations(store, ids[1..], SetupNode(store, ids[0], g));
      assert forall k :: k in ids <==> k == ids[0] || k in ids[1..];
      r
  }

  /** Resolution of the whole store, starting from the inserted nodes. */
  function Resolve(store: Store, ids: seq<string>): (g: Graph)
    requires forall k :: k in ids ==> k in store
    ensures forall e :: e in g.edges <==> Owner(e) in ids && OwnsEdge(store, Owner(e), e)
    ensures forall t :: t in g.tags <==>
              (t.node in store && t.mark == Taxon) || (t.node in ids && OwnsTag(store, t.node, t))
  {
    SetupRelations(store, ids, InitialGraph(store))
  }

  /** No relation kind ever yields a self-loop. */
  lemma ResolveNoSelfLoops(store: Store, ids: seq<string>)
    requires forall k :: k in ids ==> k in store
    ensures forall e :: e in Resolve(store, ids).edges ==> e.from != e.to
  {
  }

  /** ROOT and SYNONYM never meet on one node: ROOT needs the synonym flag false, SYNONYM needs it true. */
  lemma RootAndSynonymExclusive(store: Store, ids: seq<string>, n: string)
    requires forall k :: k in ids ==> k in store
    ensures !(Tag(n, Root) in Resolve(store, ids).tags && Tag(n, Synonym) in Resolve(store, ids).tags)
  {
  }

  /** Every node has at most one parent and at most one accepted name. */
  lemma ResolveAtMostOneParent(store: Store, ids: seq<string>, a1: string, a2: string, b: string)
    requires forall k :: k in ids ==> k in store
    ensures Edge(a1, b, ParentOf) in Resolve(store, ids).edges && Edge(a2, b, ParentOf) in Resolve(store, ids).edges ==> a1 == a2
    ensures Edge(b, a1, SynonymOf) in Resolve(store, ids).edges && Edge(b, a2, SynonymOf) in Resolve(store, ids).edges ==> a1 == a2
  {
  }

  /** The result does not depend on the order in which the store enumerates its nodes. */
  lemma ResolveOrderIndependent(store: Store, ids1: seq<string>, ids2: seq<string>)
    requires forall k :: k in ids1 <==> k in ids2
    requires forall k :: k in ids1 ==> k in store
    ensures Resolve(store, ids1) == Resolve(store, ids2)
  {
    var r1 := Resolve(store, ids1);
    var r2 := Resolve(store, ids2);
    assert r1.edges == r2.edges;
    assert r1.tags == r2.tags;
  }

  /** A reference to the node's own taxonID, in any term, resolves exactly like no reference. */
  lemma SelfReferenceIsAbsent(store: Store, ids: seq<string>, id: string, term: string)
    requires id in store
    requires forall k :: k in ids ==> k in store
    ensures var n := store[id];
            Resolve(store[id := Node(n.props[term := id])], ids) == Resolve(store[id := Node(n.props - {term})], ids)
  {
    var n := store[id];
    var s1 := store[id := Node(n.props[term := id])];
    var s2 := store[id := Node(n.props - {term})];
    forall k, t | k in s1
      ensures Target(s1, k, t) == Target(s2, k, t)
      ensures IsLink(k, Value(s1[k], t)) == IsLink(k, Value(s2[k], t))
    {
    }
    var r1 := Resolve(s1, ids);
    var r2 := Resolve(s2, ids);
    assert r1.edges == r2.edges;
    assert r1.tags == r2.tags;
  }

  /** The example store: Animalia (A), Chordata (B) under it, Zoa (C) a synonym of it, and a record (D)
      whose parent does not exist. */
  function ExampleStore(): Store {
    map[
      "A" := Node(map["scientificName" := "Animalia"]),
      "B" := Node(map["scientificName" := "Chordata", ParentTerm := "A"]),
      "C" := Node(map["scientificName" := "Zoa", AcceptedTerm := "A"]),
      "D" := Node(map["scientificName" := "Dangling", ParentTerm := "missing-id"])]
  }

  lemma ExampleTargets(k: string, t: string)
    requires k in ExampleStore()
    requires t == AcceptedTerm || t == ParentTerm || t == OriginalTerm
    ensures Target(ExampleStore(), k, t) ==
            if (k == "B" && t == ParentTerm) || (k == "C" && t == AcceptedTerm) then Some("A") else None
    ensures IsLink(k, Value(ExampleStore()[k], t)) <==>
            (k == "B" && t == ParentTerm) || (k == "C" && t == AcceptedTerm) || (k == "D" && t == ParentTerm)
  {
    var store := ExampleStore();
    assert store.Keys == {"A", "B", "C", "D"};
    if k == "A" {
    } else if k == "B" {
    } else if k == "C" {
    } else {
      assert "missing-id" !in store;
    }
  }

  /** Edge membership in a resolved graph, per edge. */
  lemma EdgeOfResolve(store: Store, ids: seq<string>, e: Edge)
    requires forall k :: k in ids ==> k in store
    ensures e in Resolve(store, ids).edges <==> Owner(e) in ids && OwnsEdge(store, Owner(e), e)
  {
  }

  /** Label membership in a resolved graph, per label. */
  lemma TagOfResolve(store: Store, ids: seq<string>, t: Tag)
    requires forall k :: k in ids ==> k in store
    ensures t in Resolve(store, ids).tags <==>
            (t.node in store && t.mark == Taxon) || (t.node in ids && OwnsTag(store, t.node, t))
  {
  }

  lemma ExampleOwnsTag(t: Tag)
    requires t.node in ExampleStore()
    ensures OwnsTag(ExampleStore(), t.node, t) <==> t == Tag("A", Root) || t == Tag("C", Synonym)
  {
    ExampleTargets(t.node, AcceptedTerm);
    ExampleTargets(t.node, ParentTerm);
    match t.mark
    case Taxon =>
    case Synonym =>
      assert Target(ExampleStore(), t.node, AcceptedTerm).Some? <==> t.node == "C";
    case Root =>
      assert (!IsLink(t.node, Value(ExampleStore()[t.node], ParentTerm)) &&
              !IsLink(t.node, Value(ExampleStore()[t.node], AcceptedTerm))) <==> t.node == "A";
  }

  /** One PARENT_OF and one SYNONYM_OF edge; the dangling parent of D adds nothing. */
  lemma ResolveExampleEdges(store: Store, ids: seq<string>)
    requires store == ExampleStore() && forall k :: k in ids <==> k in store
    ensures Resolve(store, ids).edges == {Edge("A", "B", ParentOf), Edge("C", "A", SynonymOf)}
  {
    var expected := {Edge("A", "B", ParentOf), Edge("C", "A", SynonymOf)};
    forall e
      ensures e in Resolve(store, ids).edges <==> e in expected
    {
      EdgeOfResolve(store, ids, e);
      var o := Owner(e);
      if o in store {
        match e.kind
        case SynonymOf =>
          ExampleTargets(o, AcceptedTerm);
        case ParentOf =>
          ExampleTargets(o, ParentTerm);
        case BasionymOf =>
          ExampleTargets(o, OriginalTerm);
      }
    }
  }

  /** A is the only ROOT and C the only SYNONYM: C has no parent but is flagged a synonym, D has an
      unresolved parent reference. */
  lemma ResolveExampleTags(store: Store, ids: seq<string>)
    requires store == ExampleStore() && forall k :: k in ids <==> k in store
    ensures Resolve(store, ids).tags == (set k | k in store :: Tag(k, Taxon)) + {Tag("A", Root), Tag("C", Synonym)}
  {
    forall t
      ensures t in Resolve(store, ids).tags <==>
              t in (set k | k in store :: Tag(k, Taxon)) + {Tag("A", Root), Tag("C", Synonym)}
    {
      ExampleTag(store, ids, t);
    }
  }

  lemma ExampleTag(store: Store, ids: seq<string>, t: Tag)
    requires store == ExampleStore() && forall k :: k in ids <==> k in store
    ensures t in Resolve(store, ids).tags <==>
            (t.mark == Taxon && t.node in store) || t == Tag("A", Root) || t == Tag("C", Synonym)
  {
    TagOfResolve(store, ids, t);
    if t.node in store {
      ExampleOwnsTag(t);
    }
  }
  /** `BATCH_SIZE` of `NeoImport`. */
  const BatchSize: nat := 10000

  /** How many of `n` visited nodes are committed when the loop of `setupRelations` ends: a commit
      runs before node `counter` whenever `counter % BATCH_SIZE == 0`, and none runs after the loop. */
  function CommittedCount(n: nat): (c: nat)
    ensures c <= n && c % BatchSize == 0
    ensures n == 0 ==> c == 0
    ensures n > 0 ==> c < n <= c + BatchSize
  {
    if n == 0 then 0 else (n - 1) / BatchSize * BatchSize
  }

  /** The commits happen at the largest multiple of `BATCH_SIZE` below the number of nodes: no later
      batch boundary is reached. */
  lemma CommittedCountIsLastBoundary(n: nat, m: nat)
    requires m % BatchSize == 0 && m < n
    ensures m <= CommittedCount(n)
  {
    assert m / BatchSize <= (n - 1) / BatchSize;
    assert m == m / BatchSize * BatchSize;
  }

  /** What `setupRelations` leaves in the store: the closing transaction is never marked successful,
      so only the nodes handled before the last commit keep their edges and labels. */
  function Committed(store: Store, ids: seq<string>): (g: Graph)
    requires forall k :: k in ids ==> k in store
    ensures forall e :: e in g.edges <==>
              Owner(e) in ids[..CommittedCount(|ids|)] && OwnsEdge(store, Owner(e), e)
    ensures forall t :: t in g.tags <==>
              (t.node in store && t.mark == Taxon) ||
              (t.node in ids[..CommittedCount(|ids|)] && OwnsTag(store, t.node, t))
  {
    var done := ids[..CommittedCount(|ids|)];
    assert forall k :: k in done ==> k in ids;
    Resolve(store, done)
  }

  /** A checklist of at most `BATCH_SIZE` nodes keeps none of its relations: no edge survives and
      every node carries only the TAXON label of the insert. */
  lemma CommittedLosesSmallChecklist(store: Store, ids: seq<string>)
    requires forall k :: k in ids ==> k in store
    requires |ids| <= BatchSize
    ensures Committed(store, ids) == InitialGraph(store)
  {
    assert CommittedCount(|ids|) == 0;
    var g := Committed(store, ids);
    assert g.edges == {};
    assert forall t :: t in g.tags <==> t in InitialGraph(store).tags;
  }

  /** Two records that name each other as parent. */
  function CycleStore(): Store {
    map["A" := Node(map[ParentTerm := "B"]), "B" := Node(map[ParentTerm := "A"])]
  }

  /** The relation steps do not guarantee a forest: mutual parent references give a PARENT_OF cycle,
      and neither node becomes a ROOT. */
  lemma ResolveParentCycle(store: Store, ids: seq<string>)
    requires store == CycleStore() && forall k :: k in ids <==> k in store
    ensures Edge("B", "A", ParentOf) in Resolve(store, ids).edges
    ensures Edge("A", "B", ParentOf) in Resolve(store, ids).edges
    ensures Tag("A", Root) !in Resolve(store, ids).tags && Tag("B", Root) !in Resolve(store, ids).tags
  {
    assert "A" in ids && "B" in ids;
    assert Target(store, "A", ParentTerm) == Some("B");
    assert Target(store, "B", ParentTerm) == Some("A");
    EdgeOfResolve(store, ids, Edge("B", "A", ParentOf));
    EdgeOfResolve(store, ids, Edge("A", "B", ParentOf));
    TagOfResolve(store, ids, Tag("A", Root));
    TagOfResolve(store, ids, Tag("B", Root));
  }
}
