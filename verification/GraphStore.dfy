/** The in-memory store object: its fields, its upserts and its three reads. */
module GraphStore {
  import opened Outcomes
  import opened GraphModel
  import opened GraphWalks
  import opened GraphTraversal
  import opened GraphUpserts
  import GraphReplay
  import PyText
  import Sorting
  import TextOrder

  datatype StoreError = NodeNotFound(nodeId: string) | BadLabel(error: LabelError)

  datatype Traversal = Traversal(startId: string, nodes: seq<GraphNode>, edges: seq<Edge>)

  datatype ConceptView = NotFound(term: string) | Found(canonical: string, record: Concept, datasetIds: seq<string>)

  datatype Scored = Scored(nodeId: string, kind: string, nodeLabel: string, score: real)

  /** An edge object: upserts merge into its properties in place. */
  class GraphEdge {
    const key: EdgeKey
    var properties: map<string, Value>

    constructor (key: EdgeKey, properties: map<string, Value>)
      ensures this.key == key && this.properties == properties
    {
      this.key, this.properties := key, properties;
    }

    function Snapshot(): Edge
      reads this
    {
      Edge(key, properties)
    }
  }

  function Values(edges: seq<GraphEdge>): (es: seq<Edge>)
    reads edges
    ensures |es| == |edges| && forall i :: 0 <= i < |edges| ==> es[i] == edges[i].Snapshot()
  {
    seq(|edges|, i requires 0 <= i < |edges| reads edges => edges[i].Snapshot())
  }

  function NodeOrUnknown(nodes: map<string, GraphNode>, id: string): GraphNode {
    if id in nodes then nodes[id] else GraphNode(id, "unknown", id, map[])
  }

  /** The rows `semantic_search` ranks, in the insertion order of the embeddings. */
  function Candidates(g: Graph, kind: Option<string>, score: seq<real> -> real, n: nat): seq<Scored>
    requires n <= |g.order|
    requires forall id :: id in g.order ==> id in g.nodes && id in g.embeddings
  {
    if n == 0 then []
    else
      var id := g.order[n - 1];
      var node := g.nodes[id];
      Candidates(g, kind, score, n - 1)
      + (if Truthy(kind) && node.kind != kind.value then []
         else [Scored(id, node.kind, node.nodeLabel, score(g.embeddings[id]))])
  }

  /** Which rows there are: one for each node of the requested kind. */
  lemma {:induction false} CandidatesExact(g: Graph, kind: Option<string>, score: seq<real> -> real, n: nat,
                                           row: Scored)
    requires n <= |g.order|
    requires forall id :: id in g.order ==> id in g.nodes && id in g.embeddings
    ensures row in Candidates(g, kind, score, n) <==>
            && row.nodeId in g.order[..n]
            && (kind.Some? && kind.value != "" ==> g.nodes[row.nodeId].kind == kind.value)
            && row == Scored(row.nodeId, g.nodes[row.nodeId].kind, g.nodes[row.nodeId].nodeLabel,
                             score(g.embeddings[row.nodeId]))
  {
    if n > 0 {
      CandidatesExact(g, kind, score, n - 1, row);
      assert g.order[..n] == g.order[..n - 1] + [g.order[n - 1]];
    }
  }

  /** And they come in the insertion order of the nodes. */
  lemma {:induction false} CandidatesInOrder(g: Graph, kind: Option<string>, score: seq<real> -> real, n: nat, i: nat,
                                             j: nat)
    requires n <= |g.order|
    requires forall id :: id in g.order ==> id in g.nodes && id in g.embeddings
    requires i < j < |Candidates(g, kind, score, n)|
    ensures var rows := Candidates(g, kind, score, n);
            exists a, b :: 0 <= a < b < n && g.order[a] == rows[i].nodeId && g.order[b] == rows[j].nodeId
  {
    var front := Candidates(g, kind, score, n - 1);
    if j < |front| {
      CandidatesInOrder(g, kind, score, n - 1, i, j);
    } else {
      CandidatesExact(g, kind, score, n - 1, front[i]);
      assert front[i] in front;
      var a :| 0 <= a < n - 1 && g.order[..n - 1][a] == front[i].nodeId;
      assert g.order[a] == front[i].nodeId && g.order[n - 1] == Candidates(g, kind, score, n)[j].nodeId;
    }
  }

  class InMemoryGraphStore {
    const dimension: nat
    const embed: Embed
    const similarity: (seq<real>, seq<real>) -> real
    var nodes: map<string, GraphNode>
    var order: seq<string>
    var edges: seq<GraphEdge>
    var embeddings: map<string, seq<real>>
    var concepts: map<string, Concept>
    var aliases: map<string, string>

    function EdgeValues(): seq<Edge>
      reads `edges, edges
    {
      Values(edges)
    }

    function View(): Graph
      reads this, edges
    {
      Graph(nodes, order, EdgeValues(), embeddings, concepts, aliases)
    }

    ghost predicate Shape()
      reads `edges
    {
      Sorting.Distinct(edges)
    }

    ghost predicate Valid()
      reads this, edges
    {
      Shape() && Sound(embed, View(), dimension)
    }

    constructor (dimension: nat, embed: Embed, similarity: (seq<real>, seq<real>) -> real)
      requires forall t :: |embed(t)| == dimension
      ensures Valid() && View() == EMPTY
      ensures this.dimension == dimension && this.embed == embed && this.similarity == similarity
    {
      this.dimension, this.embed, this.similarity := dimension, embed, similarity;
      nodes, order, edges, embeddings, concepts, aliases := map[], [], [], map[], map[], map[];
    }

    // ----- upserts -----

    method StoreNode(node: GraphNode, vector: seq<real>)
      modifies `nodes, `order, `embeddings
      ensures nodes == old(nodes)[node.nodeId := node] && order == PutId(old(order), node.nodeId)
      ensures embeddings == old(embeddings)[node.nodeId := vector]
    {
      nodes := nodes[node.nodeId := node];
      order := PutId(order, node.nodeId);
      embeddings := embeddings[node.nodeId := vector];
    }

    method UpsertNode(nodeId: string, kind: string, nodeLabel: Option<string>, properties: map<string, Value>,
                      text: Option<string>)
      requires Valid()
      modifies `nodes, `order, `embeddings
      ensures Valid() && edges == old(edges)
      ensures View() == Step(embed, old(View()), Op.UpsertNode(nodeId, kind, nodeLabel, properties, text))
    {
      hide Step, Sound, PutId;
      ghost var op := Op.UpsertNode(nodeId, kind, nodeLabel, properties, text);
      ghost var g := View();
      StepKeeps(embed, g, op, dimension);
      StepNode(embed, g, op);
      var caption := if Truthy(nodeLabel) then nodeLabel.value else nodeId;
      var vector := Vector(embed, if Truthy(text) then text.value else caption);
      StoreNode(GraphNode(nodeId, kind, caption, properties), vector);
      assert View() == Apply(g, NodeWrite(NodeOf(op), vector));
    }

    /** Merge into the edge object with this key, or append a new one. */
    method MergeEdge(key: EdgeKey, properties: map<string, Value>) returns (edge: GraphEdge)
      requires Shape()
      modifies `edges, edges
      ensures Shape() && forall k :: 0 <= k < |edges| ==> edges[k] in old(edges) || fresh(edges[k])
      ensures unchanged(`nodes) && unchanged(`order) && unchanged(`embeddings) && unchanged(`concepts)
              && unchanged(`aliases)
      ensures EdgeValues() == PutEdge(old(EdgeValues()), Edge(key, properties))
      ensures edge in edges && edge.key == key
    {
      ghost var before := EdgeValues();
      for n := 0 to |edges|
        invariant EdgeValues() == before && edges == old(edges)
        invariant forall j :: 0 <= j < n ==> edges[j].key != key
      {
        var existing := edges[n];
        if existing.key == key {
          assert IndexOf(before, key) == n;
          existing.properties := existing.properties + properties;
          assert EdgeValues() == PutEdge(before, Edge(key, properties));
          return existing;
        }
      }
      assert IndexOf(before, key) == |edges|;
      edge := new GraphEdge(key, properties);
      edges := edges + [edge];
      assert EdgeValues() == before + [Edge(key, properties)];
    }

    method UpsertEdge(edgeType: string, sourceId: string, targetId: string, properties: map<string, Value>)
      returns (r: Result<GraphEdge, LabelError>)
      requires Valid()
      modifies `edges, edges
      ensures Valid() && forall k :: 0 <= k < |edges| ==> edges[k] in old(edges) || fresh(edges[k])
      ensures View() == Step(embed, old(View()), Op.UpsertEdge(Edge(EdgeKey(edgeType, sourceId, targetId), properties)))
      ensures r.Ok? <==> IsIdentifier(edgeType)
      ensures r.Ok? ==> r.value in edges && r.value.key == EdgeKey(edgeType, sourceId, targetId)
      ensures r.Err? ==> View() == old(View())
    {
      hide Step, Sound, RelationshipLabel, IsIdentifier, PutEdge;
      ghost var edge := Edge(EdgeKey(edgeType, sourceId, targetId), properties);
      ghost var g := View();
      StepKeeps(embed, g, Op.UpsertEdge(edge), dimension);
      StepEdge(embed, g, edge);
      LabelExactlyForIdentifiers(edgeType);
      var checked := RelationshipLabel(edgeType);
      if checked.Err? {
        return Err(checked.error);
      }
      var stored := MergeEdge(EdgeKey(edgeType, sourceId, targetId), properties);
      r := Ok(stored);
    }

    /** Point each of the names to the concept. */
    method IndexAliases(names: seq<string>, concept: string)
      modifies `aliases
      ensures aliases == PutAliases(old(aliases), names, concept)
    {
      hide Normalize;
      for i := 0 to |names|
        invariant aliases == PutAliases(old(aliases), names[..i], concept)
      {
        assert names[..i + 1][..i] == names[..i];
        aliases := aliases[Normalize(names[i]) := concept];
      }
      assert names[..|names|] == names;
    }

    /** `upsert_edge` with a constant, valid type and no properties, for each target in turn. */
    method LinkAll(edgeType: string, source: string, targets: seq<string>)
      requires Shape()
      modifies `edges, edges
      ensures Shape() && forall k :: 0 <= k < |edges| ==> edges[k] in old(edges) || fresh(edges[k])
      ensures unchanged(`nodes) && unchanged(`order) && unchanged(`embeddings) && unchanged(`concepts)
              && unchanged(`aliases)
      ensures EdgeValues() == Link(old(EdgeValues()), edgeType, source, targets)
    {
      for i := 0 to |targets|
        invariant Shape() && forall k :: 0 <= k < |edges| ==> edges[k] in old(edges) || fresh(edges[k])
        invariant unchanged(`nodes) && unchanged(`order) && unchanged(`embeddings)
        invariant unchanged(`concepts) && unchanged(`aliases)
        invariant EdgeValues() == Link(old(EdgeValues()), edgeType, source, targets[..i])
      {
        assert targets[..i + 1][..i] == targets[..i];
        var _ := MergeEdge(EdgeKey(edgeType, source, targets[i]), map[]);
      }
      assert targets[..|targets|] == targets;
    }

    /** The record, its names in the alias index, and its mirror node. */
    method RecordConcept(record: Concept)
      modifies `concepts, `aliases, `nodes, `order, `embeddings
      ensures concepts == old(concepts)[record.concept := record]
      ensures aliases == PutAliases(old(aliases), Names(record), record.concept)
      ensures var mirror := ConceptNode(record);
              var node := NodeOf(mirror);
              && nodes == old(nodes)[node.nodeId := node] && order == PutId(old(order), node.nodeId)
              && embeddings == old(embeddings)[node.nodeId := Vector(embed, EmbedSource(mirror))]
    {
      hide Names, ConceptNode, NodeOf, EmbedSource, Vector, PutAliases, PutId;
      concepts := concepts[record.concept := record];
      IndexAliases(Names(record), record.concept);
      var mirror := ConceptNode(record);
      StoreNode(NodeOf(mirror), Vector(embed, EmbedSource(mirror)));
    }

    method LinkConceptEdges(record: Concept)
      requires Shape()
      modifies `edges, edges
      ensures Shape() && forall k :: 0 <= k < |edges| ==> edges[k] in old(edges) || fresh(edges[k])
      ensures unchanged(`nodes) && unchanged(`order) && unchanged(`embeddings) && unchanged(`concepts)
              && unchanged(`aliases)
      ensures EdgeValues() == LinkConcept(old(EdgeValues()), record)
    {
      hide Link;
      if Truthy(record.broader) {
        LinkAll("broader", record.concept, [record.broader.value]);
      }
      LinkAll("narrower", record.concept, record.narrower);
      LinkAll("related", record.concept, record.related);
    }

    method UpsertConcept(payload: Concept) returns (record: Concept)
      requires Valid()
      modifies this, edges
      ensures Valid() && forall k :: 0 <= k < |edges| ==> edges[k] in old(edges) || fresh(edges[k])
      ensures View() == Step(embed, old(View()), Op.UpsertConcept(payload))
      ensures record == Stripped(payload)
    {
      hide Step, Sound, Names, ConceptNode, NodeOf, EmbedSource, Vector, PutAliases, LinkConcept, PutId;
      ghost var g := View();
      StepKeeps(embed, g, Op.UpsertConcept(payload), dimension);
      StepConceptFields(embed, g, payload);
      record := payload.(concept := PyText.Strip(payload.concept));
      RecordConcept(record);
      LinkConceptEdges(record);
    }

    // ----- reads -----

    /** Collect the sources of the `mapping` edges that point at a concept. */
    method MappedDatasets(canonical: string) returns (ids: seq<string>)
      ensures ids == MappingSources(EdgeValues(), canonical)
    {
      ids := [];
      ghost var es := EdgeValues();
      for n := 0 to |edges|
        invariant ids == MappingSources(es[..n], canonical)
      {
        assert es[..n + 1][..n] == es[..n];
        if edges[n].key.edgeType == "mapping" && edges[n].key.targetId == canonical {
          ids := TextOrder.InsertName(ids, edges[n].key.sourceId);
        }
      }
      assert es[..|edges|] == es;
    }

    /** The concept's own view: its record and the datasets mapped to it. */
    method ConceptGraph(term: string) returns (r: ConceptView)
      requires Valid()
      ensures r.Found? <==> GraphReplay.Canonical(View(), term) in concepts
      ensures r.NotFound? ==> r.term == term
      ensures r.Found? ==>
                && r.canonical == GraphReplay.Canonical(View(), term) == r.record.concept
                && r.record == concepts[r.canonical]
                && r.datasetIds == MappingSources(EdgeValues(), r.canonical)
    {
      hide MappingSources, Normalize;
      var canonical := if Normalize(term) in aliases then aliases[Normalize(term)] else term;
      if canonical !in concepts {
        return NotFound(term);
      }
      var datasetIds := MappedDatasets(canonical);
      r := Found(canonical, concepts[canonical], datasetIds);
    }

    /** Labels are checked one by one; the first bad one is reported. */
    method CheckLabels(types: seq<string>) returns (r: Option<LabelError>)
      ensures r.None? <==> forall t :: t in types ==> IsIdentifier(t)
    {
      for n := 0 to |types|
        invariant forall j :: 0 <= j < n ==> IsIdentifier(types[j])
      {
        LabelExactlyForIdentifiers(types[n]);
        hide RelationshipLabel, IsIdentifier;
        var checked := RelationshipLabel(types[n]);
        if checked.Err? {
          return Some(checked.error);
        }
      }
      r := None;
    }

    /**
     A traversal returns exactly the ids within reach, nearest first, each with
     its node or a placeholder, and exactly the edges followed from an id above
     the depth bound.
     */
    method Traverse(startId: string, edgeTypes: Option<seq<string>>, direction: string, maxDepth: int)
      returns (r: Result<Traversal, StoreError>)
      requires Valid()
      ensures r == Err(NodeNotFound(startId)) <==> startId !in nodes
      ensures r.Ok? <==> startId in nodes && (edgeTypes.Some? ==> forall t :: t in edgeTypes.value ==> IsIdentifier(t))
      ensures r.Ok? ==>
                var types := if edgeTypes.Some? then set t | t in edgeTypes.value else {};
                var q := Query(EdgeValues(), types, direction);
                Answers(nodes, q, startId, maxDepth, r.value)
      ensures r.Ok? ==> Contents(nodes, EdgeValues(), startId, edgeTypes, maxDepth, r.value)
    {
      if startId !in nodes {
        return Err(NodeNotFound(startId));
      }
      if edgeTypes.Some? {
        var bad := CheckLabels(edgeTypes.value);
        if bad.Some? {
          return Err(BadLabel(bad.value));
        }
      }
      var q := Query(EdgeValues(), FilterOf(edgeTypes), direction);
      assert DistinctKeys(EdgeValues()) && forall id :: id in nodes ==> nodes[id].nodeId == id;
      hide Answers, Contents, Nodes, NearestFirst, InVisitOrder, Within, Expands, Sorting.Distinct, IsIdentifier,
        Consistent, Sound, DistinctKeys;
      var ids, found := BreadthFirst(q, startId, maxDepth);
      AnswersOf(nodes, q, startId, maxDepth, ids, found);
      AnswersContents(nodes, EdgeValues(), startId, edgeTypes, direction, maxDepth,
                      Traversal(startId, Nodes(nodes, ids), found));
      r := Ok(Traversal(startId, Nodes(nodes, ids), found));
    }

    /** The best `limit` rows by falling score, equal scores in insertion order. */
    method SemanticSearch(query: string, kind: Option<string>, limit: int) returns (rows: seq<Scored>)
      requires Valid()
      ensures rows == Sorting.Take(Sorting.Sort(
                        Candidates(View(), kind, ScoreAgainst(similarity, Vector(embed, query)), |order|), RowScore),
                          limit)
    {
      var score := ScoreAgainst(similarity, Vector(embed, query));
      var scored: seq<Scored> := [];
      for n := 0 to |order|
        invariant scored == Candidates(View(), kind, score, n)
      {
        var node := nodes[order[n]];
        if Truthy(kind) && node.kind != kind.value {
          continue;
        }
        scored := scored + [Scored(order[n], node.kind, node.nodeLabel, score(embeddings[order[n]]))];
      }
      rows := Sorting.Take(Sorting.Sort(scored, RowScore), limit);
    }

    method Stats() returns (counts: (nat, nat, nat, nat))
      ensures counts == StatsOf(View()) && counts == (|nodes|, |edges|, |concepts|, |embeddings|)
    {
      counts := (|nodes|, |edges|, |concepts|, |embeddings|);
    }
  }

  /** The sources of the `mapping` edges to a concept, sorted, each once. */
  function MappingSources(edges: seq<Edge>, canonical: string): seq<string> {
    if edges == [] then []
    else
      var e := edges[|edges| - 1];
      var front := MappingSources(edges[..|edges| - 1], canonical);
      if e.key.edgeType == "mapping" && e.key.targetId == canonical then TextOrder.InsertName(front, e.key.sourceId)
      else front
  }

  ghost predicate HasEdge(edges: seq<Edge>, key: EdgeKey) {
    exists i :: 0 <= i < |edges| && edges[i].key == key
  }

  lemma {:induction false} MappingSourcesExact(edges: seq<Edge>, canonical: string, id: string)
    ensures TextOrder.Ascending(MappingSources(edges, canonical))
    ensures id in MappingSources(edges, canonical) <==> HasEdge(edges, EdgeKey("mapping", id, canonical))
  {
    hide TextOrder.Before, TextOrder.InsertName;
    if edges != [] {
      var n := |edges| - 1;
      var key := EdgeKey("mapping", id, canonical);
      MappingSourcesExact(edges[..n], canonical, id);
      TextOrder.InsertNameExact(MappingSources(edges[..n], canonical), edges[n].key.sourceId);
      assert HasEdge(edges, key) <==> HasEdge(edges[..n], key) || edges[n].key == key by {
        if HasEdge(edges[..n], key) {
          var i :| 0 <= i < n && edges[..n][i].key == key;
          assert edges[i].key == key;
        }
        if HasEdge(edges, key) && edges[n].key != key {
          var i :| 0 <= i < |edges| && edges[i].key == key;
          assert edges[..n][i].key == key;
        }
      }
    }
  }

  function ScoreAgainst(similarity: (seq<real>, seq<real>) -> real, query: seq<real>): seq<real> -> real {
    vector => similarity(query, vector)
  }

  function RowScore(row: Scored): real {
    row.score
  }

  /** Nodes, edges, concepts, embeddings. */
  function StatsOf(g: Graph): (nat, nat, nat, nat) {
    (|g.nodes|, |g.edges|, |g.concepts|, |g.embeddings|)
  }

  function FilterOf(edgeTypes: Option<seq<string>>): set<string> {
    if edgeTypes.Some? then set t | t in edgeTypes.value else {}
  }

  function Nodes(nodes: map<string, GraphNode>, ids: seq<string>): (ns: seq<GraphNode>)
    ensures |ns| == |ids| && forall i :: 0 <= i < |ids| ==> ns[i] == NodeOrUnknown(nodes, ids[i])
  {
    seq(|ids|, i requires 0 <= i < |ids| => NodeOrUnknown(nodes, ids[i]))
  }

  /** What a traversal answers, in terms of walks only. */
  ghost predicate Answers(nodes: map<string, GraphNode>, q: Query, start: string, maxDepth: int, t: Traversal) {
    exists ids :: IsAnswer(nodes, q, start, maxDepth, t, ids)
  }

  ghost predicate IsAnswer(nodes: map<string, GraphNode>, q: Query, start: string, maxDepth: int, t: Traversal,
                           ids: seq<string>)
  {
    && t.startId == start && t.nodes == Nodes(nodes, ids)
    && Sorting.Distinct(ids) && |ids| > 0 && ids[0] == start
    && (forall x :: x in ids <==> Reached(q, start, x, maxDepth))
    && NearestFirst(q, start, ids) && InVisitOrder(q, start, maxDepth, ids, t.edges)
    && Sorting.Distinct(t.edges) && Returned(q, start, maxDepth, t.edges)
  }

  /** Exactly the edges followed from above the depth bound. */
  ghost predicate Returned(q: Query, start: string, maxDepth: int, edges: seq<Edge>) {
    && (forall e :: e in edges ==> e in q.edges)
    && forall i: nat :: i < |q.edges| ==> (q.edges[i] in edges <==> Expands(q, start, maxDepth, i))
  }

  lemma AnswersOf(nodes: map<string, GraphNode>, q: Query, start: string, maxDepth: int, ids: seq<string>,
                  found: seq<Edge>)
    requires Sorting.Distinct(ids) && |ids| > 0 && ids[0] == start && NearestFirst(q, start, ids)
    requires InVisitOrder(q, start, maxDepth, ids, found)
    requires forall x :: x in ids <==> Reached(q, start, x, maxDepth)
    requires Sorting.Distinct(found) && forall e :: e in found ==> e in q.edges
    requires forall i: nat :: i < |q.edges| ==> (q.edges[i] in found <==> Expands(q, start, maxDepth, i))
    ensures Answers(nodes, q, start, maxDepth, Traversal(start, Nodes(nodes, ids), found))
  {
    hide Nodes, NearestFirst, InVisitOrder, Within, Expands, Sorting.Distinct;
    assert IsAnswer(nodes, q, start, maxDepth, Traversal(start, Nodes(nodes, ids), found), ids);
  }

  /** What every answer shows, without mentioning walks. */
  ghost predicate Contents(nodes: map<string, GraphNode>, edges: seq<Edge>, start: string,
                           edgeTypes: Option<seq<string>>, maxDepth: int, t: Traversal)
  {
    && (edgeTypes.Some? && edgeTypes.value != [] ==> forall e :: e in t.edges ==> e.key.edgeType in edgeTypes.value)
    && (forall e :: e in t.edges ==> e in edges)
    && start in nodes && t.startId == start && t.nodes != [] && t.nodes[0] == nodes[start]
    && (forall node :: node in t.nodes ==>
          node == if node.nodeId in nodes then nodes[node.nodeId]
                  else GraphNode(node.nodeId, "unknown", node.nodeId, map[]))
    && (maxDepth <= 0 ==> t.nodes == [nodes[start]] && t.edges == [])
  }

  lemma AnswersContents(nodes: map<string, GraphNode>, edges: seq<Edge>, start: string, edgeTypes: Option<seq<string>>,
                        direction: string, maxDepth: int, t: Traversal)
    requires Answers(nodes, Query(edges, FilterOf(edgeTypes), direction), start, maxDepth, t)
    requires start in nodes && forall id :: id in nodes ==> nodes[id].nodeId == id
    ensures Contents(nodes, edges, start, edgeTypes, maxDepth, t)
  {
    var q := Query(edges, FilterOf(edgeTypes), direction);
    assert edgeTypes.Some? && edgeTypes.value != [] ==> edgeTypes.value[0] in q.types;
    hide NearestFirst, InVisitOrder, Within, Expands;
    var ids :| IsAnswer(nodes, q, start, maxDepth, t, ids);
    forall e | e in t.edges ensures q.types != {} ==> e.key.edgeType in q.types {
      var i: nat :| i < |q.edges| && q.edges[i] == e;
      ExpandsExactly(q, start, maxDepth, i);
    }
    if maxDepth <= 0 {
      OnlyStart(q, start, maxDepth);
      hide Reached, Returned;
      OneOnly(ids, start);
      NothingReturned(q, start, maxDepth, t.edges);
    }
  }

  lemma OnlyStart(q: Query, start: string, maxDepth: int)
    requires maxDepth <= 0
    ensures forall x :: Reached(q, start, x, maxDepth) <==> x == start
  {
    hide Within;
    forall x ensures Reached(q, start, x, maxDepth) <==> x == start {
      DepthReaches(q, start, x, maxDepth);
      WithinZero(q, start, x);
    }
  }

  lemma OneOnly(ids: seq<string>, x: string)
    requires Sorting.Distinct(ids) && ids != [] && forall y :: y in ids <==> y == x
    ensures ids == [x]
  {
    assert ids[|ids| - 1] in ids && ids[0] in ids;
  }

  lemma NothingReturned(q: Query, start: string, maxDepth: int, edges: seq<Edge>)
    requires maxDepth <= 0 && Returned(q, start, maxDepth, edges)
    ensures edges == []
  {
    hide Expands;
    forall i: nat { NothingExpands(q, start, maxDepth, i); }
    forall e ensures e !in edges { assert e in q.edges ==> exists i: nat :: i < |q.edges| && q.edges[i] == e; }
    Sorting.NothingListed(edges);
  }

  lemma NothingExpands(q: Query, start: string, maxDepth: int, i: nat)
    requires maxDepth <= 0
    ensures !Expands(q, start, maxDepth, i)
  {
    forall a { NotBelowZero(q, start, a, maxDepth - 1); }
  }

  /**
   With a filter a traversal answers exactly what it answers without one when only
   the edges of the filter's types are there: the same nodes and edges, in the same order.
   */
  lemma FilteredAnswers(nodes: map<string, GraphNode>, q: Query, start: string, maxDepth: int, t: Traversal)
    requires q.types != {}
    ensures Answers(nodes, q, start, maxDepth, t) <==> Answers(nodes, Unfiltered(q), start, maxDepth, t)
  {
    hide Nodes, Within, Expands, Sorting.Distinct, Answers;
    forall ids ensures IsAnswer(nodes, q, start, maxDepth, t, ids) <==>
                       IsAnswer(nodes, Unfiltered(q), start, maxDepth, t, ids) {
      FilteredAnswer(nodes, q, start, maxDepth, t, ids);
    }
    AnswersMeans(nodes, q, start, maxDepth, t);
    AnswersMeans(nodes, Unfiltered(q), start, maxDepth, t);
  }

  lemma AnswersMeans(nodes: map<string, GraphNode>, q: Query, start: string, maxDepth: int, t: Traversal)
    ensures Answers(nodes, q, start, maxDepth, t) <==> exists ids :: IsAnswer(nodes, q, start, maxDepth, t, ids)
  {
    hide IsAnswer;
  }

  lemma FilteredAnswer(nodes: map<string, GraphNode>, q: Query, start: string, maxDepth: int, t: Traversal,
                       ids: seq<string>)
    requires q.types != {}
    ensures IsAnswer(nodes, q, start, maxDepth, t, ids) <==> IsAnswer(nodes, Unfiltered(q), start, maxDepth, t, ids)
  {
    hide Nodes, Within, Expands, Sorting.Distinct, InVisitOrder;
    forall x, d: int ensures Within(q, start, x, d) <==> Within(Unfiltered(q), start, x, d) {
      FilterRestricts(q, start, x, d);
    }
    FilterVisits(q, start, maxDepth, ids, t.edges);
    FilterReturns(q, start, maxDepth, t.edges);
  }

  /** The returned edges, of a query and of the same one without its filter. */
  lemma FilterReturns(q: Query, start: string, maxDepth: int, edges: seq<Edge>)
    requires q.types != {}
    ensures Returned(q, start, maxDepth, edges) <==> Returned(Unfiltered(q), start, maxDepth, edges)
  {
    hide Within, Expands;
    var u := Unfiltered(q);
    forall e { OfTypesExact(q.edges, q.types, e); }
    forall i: nat, j: nat | i < |q.edges| && j < |u.edges| && q.edges[i] == u.edges[j]
      ensures Expands(q, start, maxDepth, i) <==> Expands(u, start, maxDepth, j)
    {
      FilterExpands(q, start, maxDepth, i, j);
    }
    forall i: nat | i < |q.edges| && q.edges[i] !in u.edges ensures !Expands(q, start, maxDepth, i) {
      ExpandsExactly(q, start, maxDepth, i);
    }
    if Returned(q, start, maxDepth, edges) {
      forall e | e in edges ensures e in u.edges {
        var i: nat :| i < |q.edges| && q.edges[i] == e;
      }
      forall j: nat | j < |u.edges| ensures u.edges[j] in edges <==> Expands(u, start, maxDepth, j) {
        assert u.edges[j] in u.edges;
        var i: nat :| i < |q.edges| && q.edges[i] == u.edges[j];
      }
    }
    if Returned(u, start, maxDepth, edges) {
      forall i: nat | i < |q.edges| ensures q.edges[i] in edges <==> Expands(q, start, maxDepth, i) {
        if q.edges[i] in u.edges {
          var j: nat :| j < |u.edges| && u.edges[j] == q.edges[i];
        }
      }
    }
  }

  /** A returned edge never leads out of the returned nodes. */
  lemma ReturnedEdgesClosed(q: Query, start: string, maxDepth: int, i: nat)
    requires Expands(q, start, maxDepth, i)
    ensures Within(q, start, q.edges[i].key.sourceId, maxDepth)
    ensures Within(q, start, q.edges[i].key.targetId, maxDepth)
  {
    var a :| Within(q, start, a, maxDepth - 1) && Follows(q, i, a);
    var b := Neighbor(q.direction, q.edges[i], a).value;
    assert Joins(q, i, a, b);
    WithinExtend(q, start, a, b, maxDepth - 1);
    WithinMonotone(q, start, a, maxDepth - 1, maxDepth);
  }

  /** The ids a direction can follow the edge from. */
  predicate Followable(q: Query, e: Edge, a: string) {
    (q.direction in {"out", "both"} && a == e.key.sourceId) || (q.direction in {"in", "both"} && a == e.key.targetId)
  }

  /** The id is reached, and by no walk shorter than the depth bound. */
  ghost predicate AtTheRim(q: Query, start: string, maxDepth: int, a: string) {
    Reached(q, start, a, maxDepth) && !Within(q, start, a, maxDepth - 1)
  }

  /**
   Among allowed edges between returned nodes exactly those are missing that can
   only be followed from ids whose distance is the depth bound itself: from the
   source for `out`, from the target for `in`, from both ends for `both`.
   */
  lemma MissingEdgesAtTheRim(q: Query, start: string, maxDepth: int, i: nat)
    requires i < |q.edges| && Allowed(q, q.edges[i])
    requires Reached(q, start, q.edges[i].key.sourceId, maxDepth)
    requires Reached(q, start, q.edges[i].key.targetId, maxDepth)
    ensures !Expands(q, start, maxDepth, i) <==>
            forall a :: Followable(q, q.edges[i], a) ==> AtTheRim(q, start, maxDepth, a)
    ensures q.direction == "both" && !Expands(q, start, maxDepth, i) ==>
            && AtTheRim(q, start, maxDepth, q.edges[i].key.sourceId)
            && AtTheRim(q, start, maxDepth, q.edges[i].key.targetId)
  {
    hide Within;
    var e := q.edges[i];
    forall a ensures Follows(q, i, a) <==> Followable(q, e, a) {}
    if !Expands(q, start, maxDepth, i) {
      forall a | Followable(q, e, a) ensures AtTheRim(q, start, maxDepth, a) { assert Follows(q, i, a); }
    }
  }

  /** Rows of one score keep the insertion order, and the first ones are kept. */
  lemma SearchTiesInOrder(candidates: seq<Scored>, limit: int, score: real)
    ensures Sorting.WithKey(Sorting.Sort(candidates, RowScore), RowScore, score)
            == Sorting.WithKey(candidates, RowScore, score)
    ensures Sorting.WithKey(Sorting.Take(Sorting.Sort(candidates, RowScore), limit), RowScore, score)
            <= Sorting.WithKey(candidates, RowScore, score)
  {
    Sorting.SortStable(candidates, RowScore, score);
    Sorting.TakePrefix(Sorting.Sort(candidates, RowScore), limit, RowScore, score);
  }

  /** A search lists its rows by falling score, as many as the limit leaves, and lists nothing but candidates. */
  lemma SearchListed(candidates: seq<Scored>, limit: int)
    ensures var r := Sorting.Take(Sorting.Sort(candidates, RowScore), limit);
            && (forall i, j :: 0 <= i < j < |r| ==> r[i].score >= r[j].score)
            && (forall row :: row in r ==> row in candidates)
            && |r| == if limit >= |candidates| then |candidates|
                      else if limit >= 0 then limit
                      else if |candidates| + limit >= 0 then |candidates| + limit
                      else 0
  {
    Sorting.SortSorted(candidates, RowScore);
    Sorting.SortMembers(candidates, RowScore);
    var sorted, r := Sorting.Sort(candidates, RowScore), Sorting.Take(Sorting.Sort(candidates, RowScore), limit);
    forall i, j | 0 <= i < j < |r| ensures r[i].score >= r[j].score {
      assert RowScore(sorted[i]) >= RowScore(sorted[j]);
    }
  }

  /** Semantic search never drops a better row for a worse one. */
  lemma SearchKeepsBest(candidates: seq<Scored>, limit: int, kept: Scored, cut: Scored)
    requires kept in Sorting.Take(Sorting.Sort(candidates, RowScore), limit)
    requires cut in candidates && cut !in Sorting.Take(Sorting.Sort(candidates, RowScore), limit)
    ensures kept.score >= cut.score
  {
    Sorting.SortSorted(candidates, RowScore);
    Sorting.SortMembers(candidates, RowScore);
    var sorted := Sorting.Sort(candidates, RowScore);
    var i :| 0 <= i < |sorted| && sorted[i] == cut;
    Sorting.TakeMembers(sorted, limit);
    Sorting.TakeBest(candidates, RowScore, limit, kept, i);
  }
}
