/**
 The write side of the graph store on values: the primitive writes each upsert
 performs, the dictionaries and the edge list they leave, the invariant of every
 reachable store, and why every upsert and every list of upserts keeps it.
 */
module GraphUpserts {
  import opened PyText
  import opened Outcomes
  import opened GraphModel
  import opened GraphTraversal
  import Sorting

  /** Text embedding, whose arithmetic is the subject of module `Embeddings`. */
  type Embed = string -> seq<real>

  /**
   The store.  `order` is the insertion order shared by the node and the
   embedding dictionaries.
   */
  datatype Graph = Graph(
    nodes: map<string, GraphNode>,
    order: seq<string>,
    edges: seq<Edge>,
    embeddings: map<string, seq<real>>,
    concepts: map<string, Concept>,
    aliases: map<string, string>)

  const EMPTY := Graph(map[], [], [], map[], map[], map[])

  datatype Op =
    | UpsertNode(nodeId: string, kind: string, nodeLabel: Option<string>,
                 properties: map<string, Value>, text: Option<string>)
    | UpsertEdge(edge: Edge)
    | UpsertConcept(payload: Concept)

  datatype Write =
    | NodeWrite(node: GraphNode, vector: seq<real>)
    | EdgeWrite(edge: Edge)
    | ConceptWrite(record: Concept)
    | AliasWrite(alias: string, concept: string)

  // ----- what one call writes -----

  predicate Truthy(o: Option<string>) {
    o.Some? && o.value != ""
  }

  function NodeOf(op: Op): GraphNode
    requires op.UpsertNode?
  {
    GraphNode(op.nodeId, op.kind, if Truthy(op.nodeLabel) then op.nodeLabel.value else op.nodeId, op.properties)
  }

  function EmbedSource(op: Op): string
    requires op.UpsertNode?
  {
    if Truthy(op.text) then op.text.value
    else if Truthy(op.nodeLabel) then op.nodeLabel.value
    else op.nodeId
  }

  function Vector(embed: Embed, text: string): seq<real> {
    embed(text)
  }

  function JoinSpaces(words: seq<string>): string
  {
    if words == [] then ""
    else if |words| == 1 then words[0]
    else words[0] + " " + JoinSpaces(words[1..])
  }

  /** One space between any two neighbours, and nothing else added. */
  lemma {:induction false} JoinSpacesExact(a: seq<string>, b: seq<string>)
    ensures JoinSpaces(a + b) ==
            if a == [] then JoinSpaces(b) else if b == [] then JoinSpaces(a)
            else JoinSpaces(a) + " " + JoinSpaces(b)
    ensures |a| == 1 ==> JoinSpaces(a) == a[0]
    decreases |a|
  {
    if a == [] {
      assert a + b == b;
    } else if b == [] {
      assert a + b == a;
    } else {
      assert (a + b)[1..] == a[1..] + b;
      JoinSpacesExact(a[1..], b);
    }
  }

  function Strs(words: seq<string>): (v: Value)
    ensures v.List? && |v.items| == |words| && forall i :: 0 <= i < |words| ==> v.items[i] == Str(words[i])
  {
    List(seq(|words|, i requires 0 <= i < |words| => Str(words[i])))
  }

  function Stripped(payload: Concept): Concept {
    payload.(concept := Strip(payload.concept))
  }

  /** The concept mirrored as a node embedded over its name, definition and other names. */
  function ConceptNode(record: Concept): (op: Op)
    ensures op.UpsertNode?
  {
    UpsertNode(record.concept, "concept", Some(record.concept),
               map["definition" := Str(record.definition),
                   "aliases" := Strs(record.aliases),
                   "multilingual" := Strs(record.multilingual)],
               Some(JoinSpaces([record.concept, record.definition] + record.aliases + record.multilingual)))
  }

  function AliasWrites(names: seq<string>, concept: string): (ws: seq<Write>)
    ensures forall w :: w in ws ==> w.AliasWrite? && w.concept == concept
  {
    seq(|names|, i requires 0 <= i < |names| => AliasWrite(Normalize(names[i]), concept))
  }

  function PlainEdge(edgeType: string, source: string, target: string): Edge {
    Edge(EdgeKey(edgeType, source, target), map[])
  }

  function EdgeWrites(edgeType: string, source: string, targets: seq<string>): (ws: seq<Write>)
    ensures forall w :: w in ws ==> w.EdgeWrite? && w.edge.key.edgeType == edgeType
  {
    seq(|targets|, i requires 0 <= i < |targets| => EdgeWrite(PlainEdge(edgeType, source, targets[i])))
  }

  function BroaderWrites(record: Concept): (ws: seq<Write>)
    ensures forall w :: w in ws ==> w.EdgeWrite? && w.edge.key.edgeType == "broader"
  {
    if Truthy(record.broader) then [EdgeWrite(PlainEdge("broader", record.concept, record.broader.value))] else []
  }

  function NodeWrites(embed: Embed, op: Op): seq<Write>
    requires op.UpsertNode?
  {
    [NodeWrite(NodeOf(op), Vector(embed, EmbedSource(op)))]
  }

  /** The alias index lists the concept itself, then its aliases, then its multilingual names. */
  function Names(record: Concept): seq<string> {
    [record.concept] + record.aliases + record.multilingual
  }

  function ConceptEdgeWrites(record: Concept): (ws: seq<Write>)
    ensures forall w :: w in ws ==> w.EdgeWrite? && w.edge.key.edgeType in {"broader", "narrower", "related"}
  {
    BroaderWrites(record)
    + EdgeWrites("narrower", record.concept, record.narrower)
    + EdgeWrites("related", record.concept, record.related)
  }

  /** What follows the record itself: its names, its node, its edges. */
  function ConceptTailWrites(embed: Embed, record: Concept): seq<Write> {
    AliasWrites(Names(record), record.concept) + NodeWrites(embed, ConceptNode(record)) + ConceptEdgeWrites(record)
  }

  function ConceptWrites(embed: Embed, record: Concept): seq<Write> {
    [ConceptWrite(record)] + ConceptTailWrites(embed, record)
  }

  /** The writes of one call, in order; a rejected edge type writes nothing. */
  function Writes(embed: Embed, op: Op): seq<Write> {
    match op
    case UpsertNode(_, _, _, _, _) => NodeWrites(embed, op)
    case UpsertEdge(edge) => if RelationshipLabel(edge.key.edgeType).Ok? then [EdgeWrite(edge)] else []
    case UpsertConcept(payload) => ConceptWrites(embed, Stripped(payload))
  }

  // ----- the effect of writes -----

  function IndexOf(edges: seq<Edge>, key: EdgeKey): (i: nat)
    ensures i <= |edges|
    ensures i < |edges| ==> edges[i].key == key
    ensures forall j :: 0 <= j < i ==> edges[j].key != key
  {
    if edges == [] || edges[0].key == key then 0 else 1 + IndexOf(edges[1..], key)
  }

  /** Merge into the edge with the same key, or append a new edge. */
  function PutEdge(edges: seq<Edge>, e: Edge): seq<Edge> {
    var i := IndexOf(edges, e.key);
    if i < |edges| then edges[i := Edge(e.key, edges[i].properties + e.properties)] else edges + [e]
  }

  function PutId(order: seq<string>, id: string): seq<string> {
    if id in order then order else order + [id]
  }

  function Apply(g: Graph, w: Write): Graph {
    match w
    case NodeWrite(node, vector) =>
      g.(nodes := g.nodes[node.nodeId := node], order := PutId(g.order, node.nodeId),
         embeddings := g.embeddings[node.nodeId := vector])
    case EdgeWrite(edge) => g.(edges := PutEdge(g.edges, edge))
    case ConceptWrite(record) => g.(concepts := g.concepts[record.concept := record])
    case AliasWrite(alias, concept) => g.(aliases := g.aliases[alias := concept])
  }

  function ApplyAll(g: Graph, ws: seq<Write>): Graph
    decreases |ws|
  {
    if ws == [] then g else ApplyAll(Apply(g, ws[0]), ws[1..])
  }

  function Step(embed: Embed, g: Graph, op: Op): Graph {
    ApplyAll(g, Writes(embed, op))
  }

  function Run(embed: Embed, g: Graph, ops: seq<Op>): Graph
    decreases |ops|
  {
    if ops == [] then g else Run(embed, Step(embed, g, ops[0]), ops[1..])
  }

  lemma {:induction false} ApplyAllAppend(g: Graph, a: seq<Write>, b: seq<Write>)
    ensures ApplyAll(g, a + b) == ApplyAll(ApplyAll(g, a), b)
    decreases |a|
  {
    hide Apply;
    if a == [] {
      assert a + b == b;
    } else {
      assert (a + b)[1..] == a[1..] + b;
      ApplyAllAppend(Apply(g, a[0]), a[1..], b);
    }
  }

  lemma ApplyAllSnoc(g: Graph, a: seq<Write>, w: Write)
    ensures ApplyAll(g, a + [w]) == Apply(ApplyAll(g, a), w)
  {
    ApplyAllAppend(g, a, [w]);
    ApplyOne(ApplyAll(g, a), w);
  }

  lemma ApplyOne(g: Graph, w: Write)
    ensures ApplyAll(g, [w]) == Apply(g, w)
  {
    assert [w][1..] == [];
  }

  lemma StepNode(embed: Embed, g: Graph, op: Op)
    requires op.UpsertNode?
    ensures Step(embed, g, op) == Apply(g, NodeWrite(NodeOf(op), Vector(embed, EmbedSource(op))))
  {
    ApplyOne(g, NodeWrite(NodeOf(op), Vector(embed, EmbedSource(op))));
  }

  lemma StepEdge(embed: Embed, g: Graph, edge: Edge)
    ensures Step(embed, g, UpsertEdge(edge)) ==
            if IsIdentifier(edge.key.edgeType) then g.(edges := PutEdge(g.edges, edge)) else g
  {
    LabelExactlyForIdentifiers(edge.key.edgeType);
    ApplyOne(g, EdgeWrite(edge));
  }

  lemma StepConcept(embed: Embed, g: Graph, payload: Concept)
    ensures Step(embed, g, UpsertConcept(payload)) == ApplyAll(g, ConceptWrites(embed, Stripped(payload)))
  {
    hide ConceptWrites, ApplyAll;
  }

  /** A node call replaces the node and its embedding under the id, and nothing else. */
  lemma NodeUpserted(embed: Embed, g: Graph, nodeId: string, kind: string, nodeLabel: Option<string>,
                     properties: map<string, Value>, text: Option<string>)
    ensures var g' := Step(embed, g, UpsertNode(nodeId, kind, nodeLabel, properties, text));
            var caption := if nodeLabel.Some? && nodeLabel.value != "" then nodeLabel.value else nodeId;
            && g'.nodes == g.nodes[nodeId := GraphNode(nodeId, kind, caption, properties)]
            && g'.embeddings ==
               g.embeddings[nodeId := embed(if text.Some? && text.value != "" then text.value else caption)]
            && g'.order == (if nodeId in g.order then g.order else g.order + [nodeId])
            && g'.edges == g.edges && g'.concepts == g.concepts && g'.aliases == g.aliases
  {
    StepNode(embed, g, UpsertNode(nodeId, kind, nodeLabel, properties, text));
    hide Step;
  }

  /**
   An edge call with an identifier for a type merges the properties into the edge
   with the key, if there is one, and otherwise appends the edge; other edges and
   dictionaries stay.  Any other type leaves the store as it is.
   */
  lemma EdgeUpserted(embed: Embed, g: Graph, e: Edge)
    requires DistinctKeys(g.edges)
    ensures var g' := Step(embed, g, UpsertEdge(e));
            && (!IsIdentifier(e.key.edgeType) ==> g' == g)
            && g'.nodes == g.nodes && g'.order == g.order && g'.embeddings == g.embeddings
            && g'.concepts == g.concepts && g'.aliases == g.aliases
            && (IsIdentifier(e.key.edgeType) && (forall k :: 0 <= k < |g.edges| ==> g.edges[k].key != e.key) ==>
                  g'.edges == g.edges + [e])
            && forall i :: 0 <= i < |g.edges| && g.edges[i].key == e.key && IsIdentifier(e.key.edgeType) ==>
                 g'.edges == g.edges[i := Edge(e.key, g.edges[i].properties + e.properties)]
  {
    StepEdge(embed, g, e);
    hide Step, IsIdentifier;
    var k := IndexOf(g.edges, e.key);
    forall i | 0 <= i < |g.edges| && g.edges[i].key == e.key ensures i == k {}
  }

  // ----- the effect of a concept call, dictionary by dictionary -----

  function PutAliases(aliases: map<string, string>, names: seq<string>, concept: string): map<string, string> {
    if names == [] then aliases
    else PutAliases(aliases, names[..|names| - 1], concept)[Normalize(names[|names| - 1]) := concept]
  }

  /** One property-free edge of the given type to each target in turn. */
  function Link(edges: seq<Edge>, edgeType: string, source: string, targets: seq<string>): seq<Edge> {
    if targets == [] then edges
    else PutEdge(Link(edges, edgeType, source, targets[..|targets| - 1]),
                 PlainEdge(edgeType, source, targets[|targets| - 1]))
  }

  function LinkConcept(edges: seq<Edge>, record: Concept): seq<Edge> {
    var c := record.concept;
    var first := if Truthy(record.broader) then Link(edges, "broader", c, [record.broader.value]) else edges;
    Link(Link(first, "narrower", c, record.narrower), "related", c, record.related)
  }

  lemma AliasWritesSnoc(names: seq<string>, concept: string)
    requires names != []
    ensures var n := |names| - 1;
            AliasWrites(names, concept) ==
              AliasWrites(names[..n], concept) + [AliasWrite(Normalize(names[n]), concept)]
  {
    hide Normalize;
  }

  lemma {:induction false} ApplyAliases(g: Graph, names: seq<string>, concept: string)
    ensures ApplyAll(g, AliasWrites(names, concept)) == g.(aliases := PutAliases(g.aliases, names, concept))
    decreases |names|
  {
    hide PutEdge, PutId, Normalize;
    if names == [] {
      assert AliasWrites(names, concept) == [];
    } else {
      var n := |names| - 1;
      ApplyAliases(g, names[..n], concept);
      AliasWritesSnoc(names, concept);
      hide ApplyAll, AliasWrites;
      ApplyAllSnoc(g, AliasWrites(names[..n], concept), AliasWrite(Normalize(names[n]), concept));
    }
  }

  lemma {:induction false} ApplyLinks(g: Graph, edgeType: string, source: string, targets: seq<string>)
    ensures ApplyAll(g, EdgeWrites(edgeType, source, targets)) == g.(edges := Link(g.edges, edgeType, source, targets))
    decreases |targets|
  {
    hide PutEdge, PutId;
    if targets != [] {
      var n := |targets| - 1;
      var ws := EdgeWrites(edgeType, source, targets[..n]);
      ApplyLinks(g, edgeType, source, targets[..n]);
      ApplyAllSnoc(g, ws, EdgeWrite(PlainEdge(edgeType, source, targets[n])));
      assert EdgeWrites(edgeType, source, targets) == ws + [EdgeWrite(PlainEdge(edgeType, source, targets[n]))];
    }
  }

  lemma ApplyConceptEdges(g: Graph, record: Concept)
    ensures ApplyAll(g, ConceptEdgeWrites(record)) == g.(edges := LinkConcept(g.edges, record))
  {
    var c := record.concept;
    var b, n, r := BroaderWrites(record), EdgeWrites("narrower", c, record.narrower),
                   EdgeWrites("related", c, record.related);
    ApplyAllAppend(g, b + n, r);
    ApplyAllAppend(g, b, n);
    if Truthy(record.broader) {
      assert b == EdgeWrites("broader", c, [record.broader.value]);
      ApplyLinks(g, "broader", c, [record.broader.value]);
    }
    var g1 := ApplyAll(g, b);
    ApplyLinks(g1, "narrower", c, record.narrower);
    ApplyLinks(ApplyAll(g1, n), "related", c, record.related);
  }

  function PutNode(g: Graph, node: GraphNode, vector: seq<real>): Graph {
    g.(nodes := g.nodes[node.nodeId := node], order := PutId(g.order, node.nodeId),
       embeddings := g.embeddings[node.nodeId := vector])
  }

  /** The store after a concept call, dictionary by dictionary. */
  function PutConcept(embed: Embed, g: Graph, record: Concept): Graph {
    var node := NodeOf(ConceptNode(record));
    var vector := Vector(embed, EmbedSource(ConceptNode(record)));
    Graph(g.nodes[node.nodeId := node], PutId(g.order, node.nodeId), LinkConcept(g.edges, record),
          g.embeddings[node.nodeId := vector], g.concepts[record.concept := record],
          PutAliases(g.aliases, Names(record), record.concept))
  }

  lemma ConceptTailFields(embed: Embed, g: Graph, record: Concept)
    ensures var mirror := ConceptNode(record);
            var named := g.(aliases := PutAliases(g.aliases, Names(record), record.concept));
            ApplyAll(g, ConceptTailWrites(embed, record)) ==
            PutNode(named, NodeOf(mirror), Vector(embed, EmbedSource(mirror))).(edges := LinkConcept(g.edges, record))
  {
    var mirror := ConceptNode(record);
    var node := NodeWrite(NodeOf(mirror), Vector(embed, EmbedSource(mirror)));
    var a, e := AliasWrites(Names(record), record.concept), ConceptEdgeWrites(record);
    var named := g.(aliases := PutAliases(g.aliases, Names(record), record.concept));
    assert ConceptTailWrites(embed, record) == a + [node] + e;
    assert Apply(named, node) == PutNode(named, NodeOf(mirror), Vector(embed, EmbedSource(mirror)));
    assert PutNode(named, NodeOf(mirror), Vector(embed, EmbedSource(mirror))).edges == g.edges;
    hide *;
    ApplyAllAppend(g, a + [node], e);
    ApplyAliases(g, Names(record), record.concept);
    ApplyAllSnoc(g, a, node);
    ApplyConceptEdges(Apply(named, node), record);
  }

  lemma StepConceptFields(embed: Embed, g: Graph, payload: Concept)
    ensures Step(embed, g, UpsertConcept(payload)) == PutConcept(embed, g, Stripped(payload))
  {
    var record := Stripped(payload);
    StepConcept(embed, g, payload);
    ConceptSplit(embed, g, record);
    ConceptTailFields(embed, Apply(g, ConceptWrite(record)), record);
    hide ApplyAll, ConceptTailWrites, ConceptWrites, ConceptNode, Names, NodeOf, EmbedSource, LinkConcept,
      PutAliases, PutEdge, PutId, Step;
  }

  // ----- the invariant of every reachable store -----

  ghost predicate Consistent(g: Graph, dimension: nat) {
    && DistinctKeys(g.edges)
    && (forall e :: e in g.edges ==> IsIdentifier(e.key.edgeType))
    && g.embeddings.Keys == g.nodes.Keys
    && (forall id :: id in g.nodes <==> id in g.order) && Sorting.Distinct(g.order)
    && (forall id :: id in g.nodes ==> g.nodes[id].nodeId == id)
    && (forall id :: id in g.embeddings ==> |g.embeddings[id]| == dimension)
    && (forall c :: c in g.concepts ==> g.concepts[c].concept == c)
    && (forall a :: a in g.aliases ==> g.aliases[a] in g.concepts)
  }

  /** Concepts are mirrored as nodes: true between calls, not between the writes of one call. */
  ghost predicate Mirrored(g: Graph) {
    g.concepts.Keys <= g.nodes.Keys
  }

  /** What holds of the store between calls. */
  ghost predicate Sound(embed: Embed, g: Graph, dimension: nat) {
    (forall t :: |embed(t)| == dimension) && Consistent(g, dimension) && Mirrored(g)
  }

  ghost predicate Fits(g: Graph, w: Write, dimension: nat) {
    match w
    case NodeWrite(node, vector) => |vector| == dimension
    case EdgeWrite(edge) => IsIdentifier(edge.key.edgeType)
    case ConceptWrite(record) => true
    case AliasWrite(_, concept) => concept in g.concepts
  }

  lemma PutEdgeKeepsKeys(edges: seq<Edge>, e: Edge)
    requires DistinctKeys(edges)
    ensures DistinctKeys(PutEdge(edges, e))
  {
    var i := IndexOf(edges, e.key);
    var edges' := PutEdge(edges, e);
    if i < |edges| {
      assert forall j :: 0 <= j < |edges| ==> edges'[j].key == edges[j].key;
    }
  }

  lemma ApplyKeeps(g: Graph, w: Write, dimension: nat)
    requires Consistent(g, dimension) && Fits(g, w, dimension)
    ensures Consistent(Apply(g, w), dimension)
  {
    hide Consistent, Fits, Apply;
    match w
    case NodeWrite(_, _) => NodeKeeps(g, w, dimension);
    case EdgeWrite(_) => EdgeKeeps(g, w, dimension);
    case ConceptWrite(_) => IndexKeeps(g, w, dimension);
    case AliasWrite(_, _) => IndexKeeps(g, w, dimension);
  }

  lemma NodeKeeps(g: Graph, w: Write, dimension: nat)
    requires Consistent(g, dimension) && Fits(g, w, dimension) && w.NodeWrite?
    ensures Consistent(Apply(g, w), dimension)
  {
    hide IsIdentifier, DistinctKeys;
  }

  lemma EdgeKeeps(g: Graph, w: Write, dimension: nat)
    requires Consistent(g, dimension) && Fits(g, w, dimension) && w.EdgeWrite?
    ensures Consistent(Apply(g, w), dimension)
  {
    hide IsIdentifier, DistinctKeys, PutEdge;
    PutEdgeKeepsKeys(g.edges, w.edge);
    PutEdgeTypes(g.edges, w.edge);
  }

  lemma PutEdgeTypes(edges: seq<Edge>, e: Edge)
    ensures forall x :: x in PutEdge(edges, e) ==> x.key == e.key || x in edges
  {
    hide IndexOf;
  }

  lemma IndexKeeps(g: Graph, w: Write, dimension: nat)
    requires Consistent(g, dimension) && Fits(g, w, dimension) && (w.ConceptWrite? || w.AliasWrite?)
    ensures Consistent(Apply(g, w), dimension)
  {
    hide IsIdentifier, DistinctKeys;
  }

  lemma ApplyGrows(g: Graph, w: Write)
    ensures g.nodes.Keys <= Apply(g, w).nodes.Keys && g.concepts.Keys <= Apply(g, w).concepts.Keys
    ensures w.NodeWrite? ==> w.node.nodeId in Apply(g, w).nodes
    ensures !w.ConceptWrite? ==> Apply(g, w).concepts == g.concepts
  {
    hide PutEdge;
  }

  lemma FitsLater(g: Graph, first: Write, w: Write, dimension: nat)
    requires Fits(g, w, dimension)
    ensures Fits(Apply(g, first), w, dimension)
  {
    hide Apply, IsIdentifier;
    ApplyGrows(g, first);
  }

  /** Concepts and nodes only grow under writes. */
  lemma {:induction false} ApplyAllKeeps(g: Graph, ws: seq<Write>, dimension: nat)
    requires Consistent(g, dimension) && forall w :: w in ws ==> Fits(g, w, dimension)
    ensures Consistent(ApplyAll(g, ws), dimension)
    ensures g.nodes.Keys <= ApplyAll(g, ws).nodes.Keys
    ensures forall w :: w in ws && w.NodeWrite? ==> w.node.nodeId in ApplyAll(g, ws).nodes
    ensures (forall w :: w in ws ==> !w.ConceptWrite?) ==> ApplyAll(g, ws).concepts == g.concepts
    decreases |ws|
  {
    hide Consistent, Fits, Apply;
    if ws != [] {
      assert ws[0] in ws;
      ApplyKeeps(g, ws[0], dimension);
      ApplyGrows(g, ws[0]);
      var g' := Apply(g, ws[0]);
      forall w | w in ws[1..] ensures Fits(g', w, dimension) {
        assert w in ws;
        FitsLater(g, ws[0], w, dimension);
      }
      ApplyAllKeeps(g', ws[1..], dimension);
      forall w | w in ws && w.NodeWrite? ensures w.node.nodeId in ApplyAll(g, ws).nodes {
        if w != ws[0] { assert w in ws[1..]; }
      }
    }
  }

  lemma StepKeeps(embed: Embed, g: Graph, op: Op, dimension: nat)
    requires Sound(embed, g, dimension)
    ensures Sound(embed, Step(embed, g, op), dimension)
  {
    match op
    case UpsertNode(_, _, _, _, _) =>
      hide Apply, ApplyAll;
      ApplyAllKeeps(g, NodeWrites(embed, op), dimension);
    case UpsertEdge(edge) =>
      LabelExactlyForIdentifiers(edge.key.edgeType);
      hide Apply, ApplyAll, IsIdentifier, RelationshipLabel;
      ApplyAllKeeps(g, Writes(embed, op), dimension);
    case UpsertConcept(payload) =>
      StepConcept(embed, g, payload);
      hide Writes;
      ConceptKeeps(embed, g, Stripped(payload), dimension);
  }

  lemma ConceptSplit(embed: Embed, g: Graph, record: Concept)
    ensures ApplyAll(g, ConceptWrites(embed, record)) ==
            ApplyAll(Apply(g, ConceptWrite(record)), ConceptTailWrites(embed, record))
  {
    assert ConceptWrites(embed, record) == [ConceptWrite(record)] + ConceptTailWrites(embed, record);
    hide *;
    ApplyAllAppend(g, [ConceptWrite(record)], ConceptTailWrites(embed, record));
    ApplyOne(g, ConceptWrite(record));
  }

  lemma MirroredAfter(g: Graph, g': Graph, record: Concept)
    requires Mirrored(g) && g.nodes.Keys <= g'.nodes.Keys && record.concept in g'.nodes
    requires g'.concepts == Apply(g, ConceptWrite(record)).concepts
    ensures Mirrored(g')
  {
  }

  lemma ConceptKeeps(embed: Embed, g: Graph, record: Concept, dimension: nat)
    requires Sound(embed, g, dimension)
    ensures Sound(embed, ApplyAll(g, ConceptWrites(embed, record)), dimension)
  {
    var tail := ConceptTailWrites(embed, record);
    var g' := Apply(g, ConceptWrite(record));
    ApplyKeeps(g, ConceptWrite(record), dimension);
    assert record.concept in g'.concepts && g'.nodes == g.nodes;
    hide Apply, ApplyAll, ConceptTailWrites, ConceptWrites, Fits, Consistent, Mirrored;
    ConceptTailFits(embed, g', record, dimension);
    ConceptSplit(embed, g, record);
    ApplyAllKeeps(g', tail, dimension);
    MirroredAfter(g, ApplyAll(g', tail), record);
  }

  lemma ConceptTailFits(embed: Embed, g: Graph, record: Concept, dimension: nat)
    requires forall t :: |embed(t)| == dimension
    requires record.concept in g.concepts
    ensures exists w :: w in ConceptTailWrites(embed, record) && w.NodeWrite? && w.node.nodeId == record.concept
    ensures forall w :: w in ConceptTailWrites(embed, record) ==> Fits(g, w, dimension) && !w.ConceptWrite?
  {
    var node := NodeWrites(embed, ConceptNode(record));
    assert node[0] in node && node[0].node.nodeId == record.concept;
    forall w | w in ConceptEdgeWrites(record) ensures Fits(g, w, dimension) {
      ConceptEdgeTypes(w.edge.key.edgeType);
    }
  }

  lemma ConceptEdgeTypes(edgeType: string)
    requires edgeType in {"broader", "narrower", "related"}
    ensures IsIdentifier(edgeType)
  {
  }

  /** Every store reachable from the empty one, by any list of calls, is consistent. */
  lemma {:induction false} RunKeeps(embed: Embed, g: Graph, ops: seq<Op>, dimension: nat)
    requires Sound(embed, g, dimension)
    ensures Sound(embed, Run(embed, g, ops), dimension)
    decreases |ops|
  {
    if ops != [] {
      StepKeeps(embed, g, ops[0], dimension);
      RunKeeps(embed, Step(embed, g, ops[0]), ops[1..], dimension);
    }
  }

  lemma ReachableConsistent(embed: Embed, ops: seq<Op>, dimension: nat)
    requires forall t :: |embed(t)| == dimension
    ensures Consistent(Run(embed, EMPTY, ops), dimension) && Mirrored(Run(embed, EMPTY, ops))
  {
    RunKeeps(embed, EMPTY, ops, dimension);
  }
}
