/** Replaying any list of calls on the graph store is a whole-state no-op. */
module GraphReplay {
  import PyText
  import opened GraphModel
  import opened GraphTraversal
  import opened GraphUpserts

  // Each dictionary ends with the last value the list writes, and each edge with
  // its merged properties, whether the list is run once or twice.

  // ----- the last value a list writes to each key -----

  function NodePart(w: Write): map<string, GraphNode> {
    if w.NodeWrite? then map[w.node.nodeId := w.node] else map[]
  }

  function NodesOf(ws: seq<Write>): map<string, GraphNode> {
    if ws == [] then map[] else NodePart(ws[0]) + NodesOf(ws[1..])
  }

  function VectorPart(w: Write): map<string, seq<real>> {
    if w.NodeWrite? then map[w.node.nodeId := w.vector] else map[]
  }

  function VectorsOf(ws: seq<Write>): map<string, seq<real>> {
    if ws == [] then map[] else VectorPart(ws[0]) + VectorsOf(ws[1..])
  }

  function ConceptPart(w: Write): map<string, Concept> {
    if w.ConceptWrite? then map[w.record.concept := w.record] else map[]
  }

  function ConceptsOf(ws: seq<Write>): map<string, Concept> {
    if ws == [] then map[] else ConceptPart(ws[0]) + ConceptsOf(ws[1..])
  }

  function AliasPart(w: Write): map<string, string> {
    if w.AliasWrite? then map[w.alias := w.concept] else map[]
  }

  function AliasesOf(ws: seq<Write>): map<string, string> {
    if ws == [] then map[] else AliasPart(ws[0]) + AliasesOf(ws[1..])
  }

  /** The properties a list merges into one edge. */
  function PropertyPart(w: Write, key: EdgeKey): map<string, Value> {
    if w.EdgeWrite? && w.edge.key == key then w.edge.properties else map[]
  }

  function PropertiesOf(ws: seq<Write>, key: EdgeKey): map<string, Value> {
    if ws == [] then map[] else PropertyPart(ws[0], key) + PropertiesOf(ws[1..], key)
  }

  lemma PlusAssociates<K, V>(a: map<K, V>, b: map<K, V>, c: map<K, V>)
    ensures (a + b) + c == a + (b + c)
  {
  }

  lemma PlusNothing<K, V>(a: map<K, V>)
    ensures a + map[] == a
  {
  }

  lemma PlusOne<K, V>(a: map<K, V>, k: K, v: V)
    ensures a + map[k := v] == a[k := v]
  {
  }

  lemma PlusTwice<K, V>(a: map<K, V>, b: map<K, V>)
    ensures (a + b) + b == a + b
  {
  }

  lemma DictionariesStep(g: Graph, w: Write)
    ensures Apply(g, w).nodes == g.nodes + NodePart(w)
    ensures Apply(g, w).embeddings == g.embeddings + VectorPart(w)
    ensures Apply(g, w).concepts == g.concepts + ConceptPart(w)
    ensures Apply(g, w).aliases == g.aliases + AliasPart(w)
  {
    PlusNothing(g.nodes);
    PlusNothing(g.embeddings);
    PlusNothing(g.concepts);
    PlusNothing(g.aliases);
    match w
    case NodeWrite(node, vector) =>
      PlusOne(g.nodes, node.nodeId, node);
      PlusOne(g.embeddings, node.nodeId, vector);
    case EdgeWrite(_) =>
    case ConceptWrite(record) => PlusOne(g.concepts, record.concept, record);
    case AliasWrite(alias, concept) => PlusOne(g.aliases, alias, concept);
  }

  lemma {:induction false} DictionariesAfter(g: Graph, ws: seq<Write>)
    ensures ApplyAll(g, ws).nodes == g.nodes + NodesOf(ws)
    ensures ApplyAll(g, ws).embeddings == g.embeddings + VectorsOf(ws)
    ensures ApplyAll(g, ws).concepts == g.concepts + ConceptsOf(ws)
    ensures ApplyAll(g, ws).aliases == g.aliases + AliasesOf(ws)
    decreases |ws|
  {
    if ws != [] {
      var w, rest := ws[0], ws[1..];
      hide Apply, NodePart, VectorPart, ConceptPart, AliasPart;
      DictionariesStep(g, w);
      DictionariesAfter(Apply(g, w), rest);
      PlusAssociates(g.nodes, NodePart(w), NodesOf(rest));
      PlusAssociates(g.embeddings, VectorPart(w), VectorsOf(rest));
      PlusAssociates(g.concepts, ConceptPart(w), ConceptsOf(rest));
      PlusAssociates(g.aliases, AliasPart(w), AliasesOf(rest));
    }
  }

  // ----- the edge list -----

  function KeysOf(edges: seq<Edge>): seq<EdgeKey> {
    seq(|edges|, i requires 0 <= i < |edges| => edges[i].key)
  }

  function Lookup(edges: seq<Edge>, key: EdgeKey): map<string, Value> {
    var i := IndexOf(edges, key);
    if i < |edges| then edges[i].properties else map[]
  }

  lemma LookupPut(edges: seq<Edge>, e: Edge, key: EdgeKey)
    requires DistinctKeys(edges)
    ensures Lookup(PutEdge(edges, e), key) == Lookup(edges, key) + (if e.key == key then e.properties else map[])
  {
    PutEdgeKeepsKeys(edges, e);
    var edges', i, k := PutEdge(edges, e), IndexOf(edges, e.key), IndexOf(edges, key);
    var k' := IndexOf(edges', key);
    if i < |edges| {
      assert forall j :: 0 <= j < |edges| ==> edges'[j].key == edges[j].key;
      assert k == k';
    } else if e.key == key {
      assert edges'[|edges|].key == key;
      assert k' == |edges|;
    } else if k < |edges| {
      assert edges'[k].key == key;
    }
  }

  lemma PropertiesStep(g: Graph, w: Write, key: EdgeKey)
    requires DistinctKeys(g.edges)
    ensures DistinctKeys(Apply(g, w).edges)
    ensures Lookup(Apply(g, w).edges, key) == Lookup(g.edges, key) + PropertyPart(w, key)
  {
    if w.EdgeWrite? {
      LookupPut(g.edges, w.edge, key);
      PutEdgeKeepsKeys(g.edges, w.edge);
    }
  }

  lemma {:induction false} PropertiesAfter(g: Graph, ws: seq<Write>, key: EdgeKey)
    requires DistinctKeys(g.edges)
    ensures DistinctKeys(ApplyAll(g, ws).edges)
    ensures Lookup(ApplyAll(g, ws).edges, key) == Lookup(g.edges, key) + PropertiesOf(ws, key)
    decreases |ws|
  {
    if ws != [] {
      var w := ws[0];
      PropertiesStep(g, w, key);
      hide Apply, Lookup, PropertyPart, DistinctKeys;
      PropertiesAfter(Apply(g, w), ws[1..], key);
      PlusAssociates(Lookup(g.edges, key), PropertyPart(w, key), PropertiesOf(ws[1..], key));
    }
  }

  /** Keys and ids keep their positions, and every written one is present afterwards. */
  lemma {:induction false} KeysAfter(g: Graph, ws: seq<Write>)
    ensures KeysOf(g.edges) <= KeysOf(ApplyAll(g, ws).edges) && g.order <= ApplyAll(g, ws).order
    ensures forall w :: w in ws && w.EdgeWrite? ==> w.edge.key in KeysOf(ApplyAll(g, ws).edges)
    ensures forall w :: w in ws && w.NodeWrite? ==> w.node.nodeId in ApplyAll(g, ws).order
    decreases |ws|
  {
    if ws != [] {
      var w, g' := ws[0], Apply(g, ws[0]);
      KeysAfter(g', ws[1..]);
      KeysStep(g, w);
      hide Apply, KeysOf;
      var last := ApplyAll(g', ws[1..]);
      assert forall k :: k in KeysOf(g'.edges) ==> k in KeysOf(last.edges);
      assert forall id :: id in g'.order ==> id in last.order;
      forall v | v in ws ensures v == w || v in ws[1..] {}
    }
  }

  lemma KeysStep(g: Graph, w: Write)
    ensures KeysOf(g.edges) <= KeysOf(Apply(g, w).edges) && g.order <= Apply(g, w).order
    ensures w.EdgeWrite? ==> w.edge.key in KeysOf(Apply(g, w).edges)
    ensures w.NodeWrite? ==> w.node.nodeId in Apply(g, w).order
  {
    hide PutEdge, KeysOf;
    if w.EdgeWrite? { KeysPut(g.edges, w.edge); }
  }

  lemma KeysPut(edges: seq<Edge>, e: Edge)
    ensures KeysOf(edges) <= KeysOf(PutEdge(edges, e)) && e.key in KeysOf(PutEdge(edges, e))
    ensures e.key in KeysOf(edges) ==> KeysOf(PutEdge(edges, e)) == KeysOf(edges)
  {
    var i := IndexOf(edges, e.key);
    assert KeysOf(PutEdge(edges, e))[i] == e.key;
    if e.key in KeysOf(edges) {
      var k :| 0 <= k < |edges| && KeysOf(edges)[k] == e.key;
      assert edges[k].key == e.key;
    }
  }

  /** Writes whose keys are all present add none. */
  lemma {:induction false} KeysStay(g: Graph, ws: seq<Write>)
    requires forall w :: w in ws && w.EdgeWrite? ==> w.edge.key in KeysOf(g.edges)
    requires forall w :: w in ws && w.NodeWrite? ==> w.node.nodeId in g.order
    ensures KeysOf(ApplyAll(g, ws).edges) == KeysOf(g.edges) && ApplyAll(g, ws).order == g.order
    decreases |ws|
  {
    if ws != [] {
      assert ws[0] in ws;
      if ws[0].EdgeWrite? { KeysPut(g.edges, ws[0].edge); }
      KeysStay(Apply(g, ws[0]), ws[1..]);
    }
  }

  lemma EdgesDetermined(a: seq<Edge>, b: seq<Edge>)
    requires DistinctKeys(a) && DistinctKeys(b) && KeysOf(a) == KeysOf(b)
    requires forall k :: Lookup(a, k) == Lookup(b, k)
    ensures a == b
  {
    assert |KeysOf(a)| == |a| && |KeysOf(b)| == |b|;
    forall i | 0 <= i < |a| ensures a[i] == b[i] {
      assert KeysOf(a)[i] == KeysOf(b)[i];
      assert IndexOf(a, a[i].key) == i && IndexOf(b, b[i].key) == i;
      assert Lookup(a, a[i].key) == Lookup(b, a[i].key);
    }
  }

  // ----- replay -----

  lemma WritesReplay(g: Graph, ws: seq<Write>)
    requires DistinctKeys(g.edges)
    ensures ApplyAll(ApplyAll(g, ws), ws) == ApplyAll(g, ws)
  {
    hide ApplyAll, NodesOf, VectorsOf, ConceptsOf, AliasesOf;
    var once := ApplyAll(g, ws);
    DictionariesAfter(g, ws);
    DictionariesAfter(once, ws);
    PlusTwice(g.nodes, NodesOf(ws));
    PlusTwice(g.embeddings, VectorsOf(ws));
    PlusTwice(g.concepts, ConceptsOf(ws));
    PlusTwice(g.aliases, AliasesOf(ws));
    EdgesReplay(g, ws);
  }

  lemma EdgesReplay(g: Graph, ws: seq<Write>)
    requires DistinctKeys(g.edges)
    ensures ApplyAll(ApplyAll(g, ws), ws).edges == ApplyAll(g, ws).edges
    ensures ApplyAll(ApplyAll(g, ws), ws).order == ApplyAll(g, ws).order
  {
    hide ApplyAll, PropertiesOf, Lookup;
    var once := ApplyAll(g, ws);
    var twice := ApplyAll(once, ws);
    KeysAfter(g, ws);
    KeysStay(once, ws);
    PropertiesAfter(g, ws, EdgeKey("", "", ""));
    PropertiesAfter(once, ws, EdgeKey("", "", ""));
    forall k ensures Lookup(twice.edges, k) == Lookup(once.edges, k) {
      PropertiesAfter(g, ws, k);
      PropertiesAfter(once, ws, k);
      PlusTwice(Lookup(g.edges, k), PropertiesOf(ws, k));
    }
    EdgesDetermined(twice.edges, once.edges);
  }

  function AllWrites(embed: Embed, ops: seq<Op>): seq<Write>
    decreases |ops|
  {
    if ops == [] then [] else Writes(embed, ops[0]) + AllWrites(embed, ops[1..])
  }

  lemma {:induction false} RunIsWrites(embed: Embed, g: Graph, ops: seq<Op>)
    ensures Run(embed, g, ops) == ApplyAll(g, AllWrites(embed, ops))
    decreases |ops|
  {
    if ops != [] {
      RunIsWrites(embed, Step(embed, g, ops[0]), ops[1..]);
      ApplyAllAppend(g, Writes(embed, ops[0]), AllWrites(embed, ops[1..]));
    }
  }

  /**
   Running any list of calls again changes nothing: nodes, edge list with its
   order and merged properties, embeddings, concepts, alias index and insertion
   order are those of one run.  Rejected calls in the list are allowed.
   */
  lemma Replay(embed: Embed, g: Graph, ops: seq<Op>)
    requires DistinctKeys(g.edges)
    ensures Run(embed, Run(embed, g, ops), ops) == Run(embed, g, ops)
  {
    RunIsWrites(embed, g, ops);
    RunIsWrites(embed, Run(embed, g, ops), ops);
    WritesReplay(g, AllWrites(embed, ops));
  }

  /** The same from every store reachable from the empty one, whatever built it. */
  lemma ReplayFromReachable(embed: Embed, before: seq<Op>, ops: seq<Op>, dimension: nat)
    requires forall t :: |embed(t)| == dimension
    ensures var g := Run(embed, EMPTY, before);
            Run(embed, Run(embed, g, ops), ops) == Run(embed, g, ops)
  {
    ReachableConsistent(embed, before, dimension);
    Replay(embed, Run(embed, EMPTY, before), ops);
  }

  // ----- what a concept upsert leaves behind -----

  function Canonical(g: Graph, term: string): string {
    if Normalize(term) in g.aliases then g.aliases[Normalize(term)] else term
  }

  lemma {:induction false} AliasesKept(ws: seq<Write>, concept: string, alias: string)
    requires forall w :: w in ws && w.AliasWrite? ==> w.concept == concept
    ensures alias in AliasesOf(ws) ==> AliasesOf(ws)[alias] == concept
    ensures (exists w :: w in ws && w.AliasWrite? && w.alias == alias) ==> alias in AliasesOf(ws)
    decreases |ws|
  {
    if ws != [] {
      assert ws[0] in ws;
      AliasesKept(ws[1..], concept, alias);
      if exists w :: w in ws && w.AliasWrite? && w.alias == alias {
        var w :| w in ws && w.AliasWrite? && w.alias == alias;
        if w != ws[0] { assert w in ws[1..]; }
      }
    }
  }

  lemma {:induction false} ConceptsKept(ws: seq<Write>, concept: string)
    requires forall w :: w in ws && w.ConceptWrite? ==> w.record.concept != concept
    ensures concept !in ConceptsOf(ws)
    decreases |ws|
  {
    if ws != [] {
      assert ws[0] in ws;
      ConceptsKept(ws[1..], concept);
    }
  }

  lemma NormalizeStripped(s: string)
    ensures Normalize(PyText.Strip(s)) == Normalize(s)
  {
    PyText.StripStripped(s);
  }

  lemma {:induction false} NodesWithout(ws: seq<Write>)
    requires forall w :: w in ws ==> !w.NodeWrite?
    ensures NodesOf(ws) == map[]
    decreases |ws|
  {
    if ws != [] {
      assert ws[0] in ws;
      NodesWithout(ws[1..]);
    }
  }

  lemma {:induction false} NodeLast(a: seq<Write>, w: Write, b: seq<Write>)
    requires w.NodeWrite? && forall v :: v in b ==> !v.NodeWrite?
    ensures w.node.nodeId in NodesOf(a + [w] + b) && NodesOf(a + [w] + b)[w.node.nodeId] == w.node
    decreases |a|
  {
    var ws := a + [w] + b;
    if a == [] {
      assert ws[1..] == b;
      NodesWithout(b);
    } else {
      assert ws[1..] == a[1..] + [w] + b;
      NodeLast(a[1..], w, b);
    }
  }

  lemma AliasWritten(embed: Embed, record: Concept, name: string)
    requires name in Names(record)
    ensures AliasWrite(Normalize(name), record.concept) in ConceptTailWrites(embed, record)
  {
    var i :| 0 <= i < |Names(record)| && Names(record)[i] == name;
    var ws := AliasWrites(Names(record), record.concept);
    assert ws[i] in ws;
  }

  lemma TailAliases(embed: Embed, record: Concept, w: Write)
    requires w in ConceptTailWrites(embed, record)
    ensures !w.ConceptWrite? && (w.AliasWrite? ==> w.concept == record.concept)
  {
  }

  lemma ConceptFirst(record: Concept, tail: seq<Write>)
    ensures var ws := [ConceptWrite(record)] + tail;
            && AliasesOf(ws) == AliasesOf(tail) && NodesOf(ws) == NodesOf(tail)
            && ConceptsOf(ws) == map[record.concept := record] + ConceptsOf(tail)
  {
    var ws := [ConceptWrite(record)] + tail;
    assert ws[0] == ConceptWrite(record) && ws[1..] == tail;
  }

  /** A concept write is the only one; every alias written after it points to it. */
  lemma WrittenLast(record: Concept, tail: seq<Write>, alias: string)
    requires AliasWrite(alias, record.concept) in tail
    requires forall w :: w in tail ==> !w.ConceptWrite? && (w.AliasWrite? ==> w.concept == record.concept)
    ensures var ws := [ConceptWrite(record)] + tail;
            && alias in AliasesOf(ws) && AliasesOf(ws)[alias] == record.concept
            && record.concept in ConceptsOf(ws) && ConceptsOf(ws)[record.concept] == record
            && NodesOf(ws) == NodesOf(tail)
  {
    hide AliasesOf, NodesOf, ConceptsOf;
    AliasesKept(tail, record.concept, alias);
    ConceptsKept(tail, record.concept);
    ConceptFirst(record, tail);
  }

  /** What the three dictionaries hold under a concept's names once its writes are done. */
  lemma ConceptWritten(embed: Embed, record: Concept, name: string)
    requires name in Names(record)
    ensures var ws := ConceptWrites(embed, record);
            && Normalize(name) in AliasesOf(ws) && AliasesOf(ws)[Normalize(name)] == record.concept
            && record.concept in ConceptsOf(ws) && ConceptsOf(ws)[record.concept] == record
            && record.concept in NodesOf(ws) && NodesOf(ws)[record.concept].kind == "concept"
  {
    var tail := ConceptTailWrites(embed, record);
    AliasWritten(embed, record, name);
    forall w | w in tail ensures !w.ConceptWrite? && (w.AliasWrite? ==> w.concept == record.concept) {
      TailAliases(embed, record, w);
    }
    ConceptNodeWritten(embed, record);
    assert ConceptWrites(embed, record) == [ConceptWrite(record)] + tail;
    hide ConceptTailWrites, ConceptWrites, AliasesOf, ConceptsOf, NodesOf;
    WrittenLast(record, tail, Normalize(name));
  }

  lemma ConceptNodeWritten(embed: Embed, record: Concept)
    ensures record.concept in NodesOf(ConceptTailWrites(embed, record))
    ensures NodesOf(ConceptTailWrites(embed, record))[record.concept].kind == "concept"
  {
    NodeLast(AliasWrites(Names(record), record.concept), NodeWrites(embed, ConceptNode(record))[0],
             ConceptEdgeWrites(record));
  }

  /** The name under which a term of the payload enters the alias index. */
  lemma NameOfTerm(payload: Concept, term: string) returns (name: string)
    requires term in [payload.concept] + payload.aliases + payload.multilingual
    ensures name in Names(Stripped(payload)) && Normalize(name) == Normalize(term)
  {
    if term == payload.concept {
      NormalizeStripped(term);
      name := PyText.Strip(term);
      assert Names(Stripped(payload))[0] == name;
    } else {
      name := term;
      assert name in payload.aliases || name in payload.multilingual;
    }
  }

  lemma ReadBack(g: Graph, ws: seq<Write>, alias: string, concept: string)
    requires alias in AliasesOf(ws) && concept in ConceptsOf(ws) && concept in NodesOf(ws)
    ensures var g' := ApplyAll(g, ws);
            && alias in g'.aliases && g'.aliases[alias] == AliasesOf(ws)[alias]
            && concept in g'.concepts && g'.concepts[concept] == ConceptsOf(ws)[concept]
            && concept in g'.nodes && g'.nodes[concept] == NodesOf(ws)[concept]
  {
    DictionariesAfter(g, ws);
  }

  lemma RecordResolves(embed: Embed, g: Graph, record: Concept, name: string)
    requires name in Names(record)
    ensures var g' := ApplyAll(g, ConceptWrites(embed, record));
            Normalize(name) in g'.aliases && Canonical(g', name) == record.concept
            && record.concept in g'.concepts && g'.concepts[record.concept] == record
            && record.concept in g'.nodes && g'.nodes[record.concept].kind == "concept"
  {
    ConceptWritten(embed, record, name);
    hide *;
    ReadBack(g, ConceptWrites(embed, record), Normalize(name), record.concept);
    CanonicalIndexed(ApplyAll(g, ConceptWrites(embed, record)), name);
  }

  lemma CanonicalIndexed(g: Graph, term: string)
    requires Normalize(term) in g.aliases
    ensures Canonical(g, term) == g.aliases[Normalize(term)]
  {
  }

  lemma CanonicalNormalized(g: Graph, a: string, b: string)
    requires Normalize(a) == Normalize(b)
    requires a == b || Normalize(a) in g.aliases
    ensures Canonical(g, a) == Canonical(g, b)
  {
  }

  /**
   Right after `upsert_concept` the concept's name as given, each alias and each
   multilingual name resolve to the concept, whose record is the one just given.
   */
  lemma ConceptResolves(embed: Embed, g: Graph, payload: Concept, term: string)
    requires term in [payload.concept] + payload.aliases + payload.multilingual
    ensures var g' := Step(embed, g, UpsertConcept(payload));
            var record := Stripped(payload);
            Canonical(g', term) == record.concept
            && record.concept in g'.concepts && g'.concepts[record.concept] == record
            && record.concept in g'.nodes && g'.nodes[record.concept].kind == "concept"
  {
    hide *;
    StepConcept(embed, g, payload);
    var name := NameOfTerm(payload, term);
    RecordResolves(embed, g, Stripped(payload), name);
    CanonicalNormalized(Step(embed, g, UpsertConcept(payload)), name, term);
  }

  // ----- a concept call, dictionary by dictionary -----

  lemma {:induction false} PutAliasesExact(aliases: map<string, string>, names: seq<string>, concept: string, a: string)
    ensures var put := PutAliases(aliases, names, concept);
            && (a in put <==> a in aliases || exists name :: name in names && Normalize(name) == a)
            && (a in put ==>
                  put[a] == if exists name :: name in names && Normalize(name) == a then concept else aliases[a])
  {
    hide Normalize;
    if names != [] {
      var n := |names| - 1;
      assert names == names[..n] + [names[n]];
      PutAliasesExact(aliases, names[..n], concept, a);
    }
  }

  lemma PutKeys(edges: seq<Edge>, e: Edge, key: EdgeKey)
    ensures key in KeysOf(PutEdge(edges, e)) <==> key in KeysOf(edges) || key == e.key
  {
    KeysPut(edges, e);
    var after := PutEdge(edges, e);
    if key in KeysOf(after) {
      var k :| 0 <= k < |after| && KeysOf(after)[k] == key;
      assert after[k].key == key;
      assert k < |edges| ==> KeysOf(edges)[k] == edges[k].key;
    }
  }

  /** One property-free edge for each target, and nothing else about any edge. */
  lemma {:induction false} LinkExact(edges: seq<Edge>, edgeType: string, source: string, targets: seq<string>,
                                     key: EdgeKey)
    requires DistinctKeys(edges)
    ensures var linked := Link(edges, edgeType, source, targets);
            && DistinctKeys(linked) && KeysOf(edges) <= KeysOf(linked)
            && Lookup(linked, key) == Lookup(edges, key)
            && (key in KeysOf(linked) <==>
                  key in KeysOf(edges)
                  || (key.edgeType == edgeType && key.sourceId == source && key.targetId in targets))
    decreases |targets|
  {
    hide DistinctKeys, KeysOf, Lookup, PutEdge;
    if targets != [] {
      var n := |targets| - 1;
      assert targets == targets[..n] + [targets[n]];
      var front, e := Link(edges, edgeType, source, targets[..n]), PlainEdge(edgeType, source, targets[n]);
      LinkExact(edges, edgeType, source, targets[..n], key);
      PutEdgeKeepsKeys(front, e);
      LookupPut(front, e, key);
      PlusNothing(Lookup(front, key));
      KeysPut(front, e);
      PutKeys(front, e, key);
    }
  }

  /** The ontology edge a concept record asks for under this key. */
  ghost predicate Asks(record: Concept, key: EdgeKey) {
    && key.sourceId == record.concept
    && (|| (key.edgeType == "broader" && record.broader.Some? && record.broader.value == key.targetId != "")
        || (key.edgeType == "narrower" && key.targetId in record.narrower)
        || (key.edgeType == "related" && key.targetId in record.related))
  }

  lemma ConceptLinks(edges: seq<Edge>, record: Concept, key: EdgeKey)
    requires DistinctKeys(edges)
    ensures var linked := LinkConcept(edges, record);
            && KeysOf(edges) <= KeysOf(linked) && Lookup(linked, key) == Lookup(edges, key)
            && (key in KeysOf(linked) <==> key in KeysOf(edges) || Asks(record, key))
  {
    hide DistinctKeys, KeysOf, Lookup, Link;
    var c := record.concept;
    var first := if Truthy(record.broader) then Link(edges, "broader", c, [record.broader.value]) else edges;
    if Truthy(record.broader) { LinkExact(edges, "broader", c, [record.broader.value], key); }
    LinkExact(first, "narrower", c, record.narrower, key);
    LinkExact(Link(first, "narrower", c, record.narrower), "related", c, record.related, key);
  }

  /**
   A concept call, in the terms of its payload: the record under its stripped name;
   every name indexed; the mirror node and its embedding; and of the edges exactly
   those asked for are there besides the old ones, none with a property changed.
   */
  lemma ConceptUpserted(embed: Embed, g: Graph, payload: Concept, key: EdgeKey, alias: string)
    requires DistinctKeys(g.edges)
    ensures var g' := Step(embed, g, UpsertConcept(payload));
            var name := PyText.Strip(payload.concept);
            var record := payload.(concept := name);
            var names := [name] + payload.aliases + payload.multilingual;
            && g'.concepts == g.concepts[name := record]
            && g'.nodes == g.nodes[name := GraphNode(name, "concept", name,
                                                     map["definition" := Str(payload.definition),
                                                         "aliases" := Strs(payload.aliases),
                                                         "multilingual" := Strs(payload.multilingual)])]
            && g'.embeddings == g.embeddings[name := embed(JoinSpaces([name, payload.definition]
                                                                      + payload.aliases + payload.multilingual))]
            && g'.order == (if name in g.order then g.order else g.order + [name])
            && (alias in g'.aliases <==> alias in g.aliases || exists n :: n in names && Normalize(n) == alias)
            && (alias in g'.aliases ==>
                  g'.aliases[alias] == if exists n :: n in names && Normalize(n) == alias then name
                                       else g.aliases[alias])
            && KeysOf(g.edges) <= KeysOf(g'.edges) && Lookup(g'.edges, key) == Lookup(g.edges, key)
            && (key in KeysOf(g'.edges) <==> key in KeysOf(g.edges) || Asks(record, key))
  {
    hide DistinctKeys, KeysOf, Lookup, LinkConcept, PutAliases, Normalize, Step, Asks, JoinSpaces;
    var record := Stripped(payload);
    StepConceptFields(embed, g, payload);
    ConceptLinks(g.edges, record, key);
    PutAliasesExact(g.aliases, Names(record), record.concept, alias);
    JoinedNotEmpty(record.concept, [record.definition] + record.aliases + record.multilingual);
    assert [record.concept] + ([record.definition] + record.aliases + record.multilingual)
        == [record.concept, record.definition] + record.aliases + record.multilingual;
  }

  lemma JoinedNotEmpty(first: string, rest: seq<string>)
    requires rest != []
    ensures JoinSpaces([first] + rest) == first + " " + JoinSpaces(rest)
    ensures JoinSpaces([first] + rest) != ""
  {
    assert ([first] + rest)[1..] == rest;
  }
}
