/**
 Seeding the graph from ontology and catalog.  The loops over terms, datasets and
 columns perform one list of upserts, which is safe to run again; every declared
 edge is there afterwards, and each term maps to the datasets that carry it.
 */
module Seed {
  import opened Outcomes
  import opened GraphModel
  import opened GraphUpserts
  import opened GraphReplay
  import opened GraphStore
  import Records

  // ----- the upserts, in order -----

  function DatasetNode(ds: Records.Dataset): (op: Op)
    ensures op.UpsertNode?
  {
    var m := ds.meta;
    Op.UpsertNode(ds.id, "dataset", Some(m.title),
                  map["domain" := Str(m.domain), "owner" := Str(m.owner), "steward" := Str(m.steward),
                      "tags" := Strs(m.tags), "terms" := Strs(m.terms),
                      "sensitivity" := Str(m.sensitivity), "status" := Str(ds.status)],
                  Some(JoinSpaces([m.title, m.description, m.domain] + m.tags + m.terms)))
  }

  function ColumnId(ds: Records.Dataset, column: Records.Column): string {
    ds.id + ":" + column.name
  }

  function ColumnNode(ds: Records.Dataset, column: Records.Column): (op: Op)
    ensures op.UpsertNode?
  {
    Op.UpsertNode(ColumnId(ds, column), "column", Some(column.name),
                  map["datatype" := Str(column.dataType), "pii" := Bool(Records.IsPii(column))],
                  Some(column.name + " " + column.dataType))
  }

  function HasColumn(ds: Records.Dataset, column: Records.Column): Edge {
    PlainEdge("has_column", ds.id, ColumnId(ds, column))
  }

  function ColumnOps(ds: Records.Dataset, columns: seq<Records.Column>): seq<Op> {
    if columns == [] then []
    else
      var n := |columns| - 1;
      ColumnOps(ds, columns[..n]) + [ColumnNode(ds, columns[n]), Op.UpsertEdge(HasColumn(ds, columns[n]))]
  }

  function TermEdges(ds: Records.Dataset): seq<Edge> {
    var terms := ds.meta.terms;
    seq(|terms|, i requires 0 <= i < |terms| =>
      Edge(EdgeKey("mapping", ds.id, terms[i]), map["origin" := Str("term")]))
  }

  function MappingEdges(ds: Records.Dataset): seq<Edge> {
    var mappings := ds.meta.mappings;
    seq(|mappings|, i requires 0 <= i < |mappings| =>
      Edge(EdgeKey("mapping", ds.id, mappings[i].concept),
           map["origin" := Str("business_mapping"), "status" := Str(mappings[i].status)]))
  }

  function UpstreamEdges(ds: Records.Dataset): seq<Edge> {
    var inputs := ds.meta.lineageInputs;
    seq(|inputs|, i requires 0 <= i < |inputs| =>
      Edge(EdgeKey("lineage", inputs[i], ds.id), map["kind" := Str("input")]))
  }

  function DownstreamEdges(ds: Records.Dataset): seq<Edge> {
    var outputs := ds.meta.lineageOutputs;
    seq(|outputs|, i requires 0 <= i < |outputs| =>
      Edge(EdgeKey("lineage", ds.id, outputs[i]), map["kind" := Str("output")]))
  }

  function RelatedEdges(ds: Records.Dataset): seq<Edge> {
    var related := ds.meta.relatedDatasets;
    seq(|related|, i requires 0 <= i < |related| => PlainEdge("related_dataset", ds.id, related[i]))
  }

  function DatasetEdges(ds: Records.Dataset): seq<Edge> {
    TermEdges(ds) + MappingEdges(ds) + UpstreamEdges(ds) + DownstreamEdges(ds) + RelatedEdges(ds)
  }

  function EdgeOps(edges: seq<Edge>): seq<Op> {
    seq(|edges|, i requires 0 <= i < |edges| => Op.UpsertEdge(edges[i]))
  }

  function ConceptOps(concepts: seq<Concept>): seq<Op> {
    seq(|concepts|, i requires 0 <= i < |concepts| => Op.UpsertConcept(concepts[i]))
  }

  function DatasetOps(ds: Records.Dataset): seq<Op> {
    [DatasetNode(ds)] + ColumnOps(ds, ds.meta.schema) + EdgeOps(DatasetEdges(ds))
  }

  function CatalogOps(datasets: seq<Records.Dataset>): seq<Op> {
    if datasets == [] then []
    else var n := |datasets| - 1; CatalogOps(datasets[..n]) + DatasetOps(datasets[n])
  }

  function SeedOps(concepts: seq<Concept>, datasets: seq<Records.Dataset>): seq<Op> {
    ConceptOps(concepts) + CatalogOps(datasets)
  }

  // ----- running it -----

  lemma {:induction false} RunAppend(embed: Embed, g: Graph, a: seq<Op>, b: seq<Op>)
    ensures Run(embed, g, a + b) == Run(embed, Run(embed, g, a), b)
    decreases |a|
  {
    hide Step;
    if a == [] {
      assert a + b == b;
    } else {
      assert (a + b)[1..] == a[1..] + b;
      RunAppend(embed, Step(embed, g, a[0]), a[1..], b);
    }
  }

  lemma RunOne(embed: Embed, g: Graph, op: Op)
    ensures Run(embed, g, [op]) == Step(embed, g, op)
  {
    hide Step;
    assert Run(embed, Step(embed, g, op), [op][1..]) == Step(embed, g, op);
  }

  lemma RunMore(embed: Embed, g: Graph, ops: seq<Op>, op: Op)
    ensures Run(embed, g, ops + [op]) == Step(embed, Run(embed, g, ops), op)
  {
    hide Step, Run;
    RunAppend(embed, g, ops, [op]);
    RunOne(embed, Run(embed, g, ops), op);
  }

  method UpsertAll(store: InMemoryGraphStore, batch: seq<Edge>)
    requires store.Valid()
    modifies store, store.edges
    ensures store.Valid()
    ensures forall k :: 0 <= k < |store.edges| ==> store.edges[k] in old(store.edges) || fresh(store.edges[k])
    ensures store.View() == Run(store.embed, old(store.View()), EdgeOps(batch))
  {
    hide *;
    ghost var g := store.View();
    RunNoEdges(store.embed, g, batch);
    for i := 0 to |batch|
      invariant store.Valid()
      invariant forall k :: 0 <= k < |store.edges| ==> store.edges[k] in old(store.edges) || fresh(store.edges[k])
      invariant store.View() == Run(store.embed, g, EdgeOps(batch[..i]))
    {
      RunOneEdge(store.embed, g, batch, i);
      var e := batch[i];
      var _ := store.UpsertEdge(e.key.edgeType, e.key.sourceId, e.key.targetId, e.properties);
    }
    assert batch[..|batch|] == batch;
  }

  lemma RunNoEdges(embed: Embed, g: Graph, batch: seq<Edge>)
    ensures Run(embed, g, EdgeOps(batch[..0])) == g
  {
    assert EdgeOps(batch[..0]) == [];
  }

  lemma RunOneEdge(embed: Embed, g: Graph, batch: seq<Edge>, i: nat)
    requires i < |batch|
    ensures Run(embed, g, EdgeOps(batch[..i + 1])) ==
            Step(embed, Run(embed, g, EdgeOps(batch[..i])), Op.UpsertEdge(batch[i]))
  {
    hide Run, Step;
    assert EdgeOps(batch[..i + 1]) == EdgeOps(batch[..i]) + [Op.UpsertEdge(batch[i])];
    RunMore(embed, g, EdgeOps(batch[..i]), Op.UpsertEdge(batch[i]));
  }

  lemma RunNothing(embed: Embed, g: Graph)
    ensures Run(embed, g, []) == g
  {
  }

  method SeedColumns(store: InMemoryGraphStore, ds: Records.Dataset)
    requires store.Valid()
    modifies store, store.edges
    ensures store.Valid()
    ensures forall k :: 0 <= k < |store.edges| ==> store.edges[k] in old(store.edges) || fresh(store.edges[k])
    ensures store.View() == Run(store.embed, old(store.View()), ColumnOps(ds, ds.meta.schema))
  {
    hide *;
    ghost var g := store.View();
    var columns := ds.meta.schema;
    RunNoColumns(store.embed, g, ds, columns);
    for i := 0 to |columns|
      invariant store.Valid()
      invariant forall k :: 0 <= k < |store.edges| ==> store.edges[k] in old(store.edges) || fresh(store.edges[k])
      invariant store.View() == Run(store.embed, g, ColumnOps(ds, columns[..i]))
    {
      RunOneColumn(store.embed, g, ds, columns, i);
      var column := columns[i];
      var node, edge := ColumnNode(ds, column), HasColumn(ds, column);
      SameNode(node);
      store.UpsertNode(node.nodeId, node.kind, node.nodeLabel, node.properties, node.text);
      var _ := store.UpsertEdge(edge.key.edgeType, edge.key.sourceId, edge.key.targetId, edge.properties);
    }
    assert columns[..|columns|] == columns;
  }

  lemma RunNoColumns(embed: Embed, g: Graph, ds: Records.Dataset, columns: seq<Records.Column>)
    ensures Run(embed, g, ColumnOps(ds, columns[..0])) == g
  {
    assert columns[..0] == [];
    RunNothing(embed, g);
  }

  lemma RunOneColumn(embed: Embed, g: Graph, ds: Records.Dataset, columns: seq<Records.Column>, i: nat)
    requires i < |columns|
    ensures Run(embed, g, ColumnOps(ds, columns[..i + 1])) ==
            Step(embed, Step(embed, Run(embed, g, ColumnOps(ds, columns[..i])), ColumnNode(ds, columns[i])),
                 Op.UpsertEdge(HasColumn(ds, columns[i])))
  {
    hide Run, Step, ColumnNode, HasColumn;
    var before, node, edge := ColumnOps(ds, columns[..i]), ColumnNode(ds, columns[i]),
      Op.UpsertEdge(HasColumn(ds, columns[i]));
    assert columns[..i + 1][..i] == columns[..i];
    assert ColumnOps(ds, columns[..i + 1]) == before + [node] + [edge];
    RunMore(embed, g, before, node);
    RunMore(embed, g, before + [node], edge);
  }

  method SeedMappings(store: InMemoryGraphStore, ds: Records.Dataset)
    requires store.Valid()
    modifies store, store.edges
    ensures store.Valid()
    ensures forall k :: 0 <= k < |store.edges| ==> store.edges[k] in old(store.edges) || fresh(store.edges[k])
    ensures store.View() == Run(store.embed, old(store.View()), EdgeOps(TermEdges(ds) + MappingEdges(ds)))
  {
    hide *;
    RunEdges(store.embed, store.View(), TermEdges(ds), MappingEdges(ds));
    UpsertAll(store, TermEdges(ds));
    UpsertAll(store, MappingEdges(ds));
  }

  method SeedLineage(store: InMemoryGraphStore, ds: Records.Dataset)
    requires store.Valid()
    modifies store, store.edges
    ensures store.Valid()
    ensures forall k :: 0 <= k < |store.edges| ==> store.edges[k] in old(store.edges) || fresh(store.edges[k])
    ensures store.View() ==
            Run(store.embed, old(store.View()), EdgeOps(UpstreamEdges(ds) + DownstreamEdges(ds) + RelatedEdges(ds)))
  {
    hide *;
    RunEdges(store.embed, store.View(), UpstreamEdges(ds), DownstreamEdges(ds));
    RunEdges(store.embed, store.View(), UpstreamEdges(ds) + DownstreamEdges(ds), RelatedEdges(ds));
    UpsertAll(store, UpstreamEdges(ds));
    UpsertAll(store, DownstreamEdges(ds));
    UpsertAll(store, RelatedEdges(ds));
  }

  lemma RunEdges(embed: Embed, g: Graph, a: seq<Edge>, b: seq<Edge>)
    ensures Run(embed, g, EdgeOps(a + b)) == Run(embed, Run(embed, g, EdgeOps(a)), EdgeOps(b))
  {
    hide Run;
    assert EdgeOps(a + b) == EdgeOps(a) + EdgeOps(b);
    RunAppend(embed, g, EdgeOps(a), EdgeOps(b));
  }

  method SeedDataset(store: InMemoryGraphStore, ds: Records.Dataset)
    requires store.Valid()
    modifies store, store.edges
    ensures store.Valid()
    ensures forall k :: 0 <= k < |store.edges| ==> store.edges[k] in old(store.edges) || fresh(store.edges[k])
    ensures store.View() == Run(store.embed, old(store.View()), DatasetOps(ds))
  {
    hide *;
    DatasetRun(store.embed, store.View(), ds);
    var node := DatasetNode(ds);
    SameNode(node);
    store.UpsertNode(node.nodeId, node.kind, node.nodeLabel, node.properties, node.text);
    SeedColumns(store, ds);
    SeedMappings(store, ds);
    SeedLineage(store, ds);
  }

  lemma SameNode(op: Op)
    ensures op.UpsertNode? ==> op == Op.UpsertNode(op.nodeId, op.kind, op.nodeLabel, op.properties, op.text)
  {
  }

  lemma DatasetOpsSplit(ds: Records.Dataset)
    ensures DatasetOps(ds) == [DatasetNode(ds)] + ColumnOps(ds, ds.meta.schema)
                              + EdgeOps((TermEdges(ds) + MappingEdges(ds))
                                        + (UpstreamEdges(ds) + DownstreamEdges(ds) + RelatedEdges(ds)))
  {
    hide ColumnOps, EdgeOps, DatasetNode, TermEdges, MappingEdges, UpstreamEdges, DownstreamEdges, RelatedEdges;
    var a, b := TermEdges(ds) + MappingEdges(ds), UpstreamEdges(ds) + DownstreamEdges(ds) + RelatedEdges(ds);
    assert DatasetEdges(ds) == a + b;
  }

  /** The loops of one dataset, one after the other, are its list of upserts. */
  lemma DatasetRun(embed: Embed, g: Graph, ds: Records.Dataset)
    ensures var g1 := Run(embed, Step(embed, g, DatasetNode(ds)), ColumnOps(ds, ds.meta.schema));
            var g2 := Run(embed, g1, EdgeOps(TermEdges(ds) + MappingEdges(ds)));
            Run(embed, g2, EdgeOps(UpstreamEdges(ds) + DownstreamEdges(ds) + RelatedEdges(ds)))
            == Run(embed, g, DatasetOps(ds))
  {
    hide *;
    DatasetOpsSplit(ds);
    var node, columns := DatasetNode(ds), ColumnOps(ds, ds.meta.schema);
    var a, b := TermEdges(ds) + MappingEdges(ds), UpstreamEdges(ds) + DownstreamEdges(ds) + RelatedEdges(ds);
    RunOne(embed, g, node);
    RunAppend(embed, g, [node], columns);
    RunAppend(embed, g, [node] + columns, EdgeOps(a + b));
    RunEdges(embed, Run(embed, g, [node] + columns), a, b);
  }

  lemma RunNoConcepts(embed: Embed, g: Graph, concepts: seq<Concept>)
    ensures Run(embed, g, ConceptOps(concepts[..0])) == g
  {
    assert ConceptOps(concepts[..0]) == [];
  }

  lemma RunOneConcept(embed: Embed, g: Graph, concepts: seq<Concept>, i: nat)
    requires i < |concepts|
    ensures Run(embed, g, ConceptOps(concepts[..i + 1])) ==
            Step(embed, Run(embed, g, ConceptOps(concepts[..i])), Op.UpsertConcept(concepts[i]))
  {
    hide Run, Step;
    assert ConceptOps(concepts[..i + 1]) == ConceptOps(concepts[..i]) + [Op.UpsertConcept(concepts[i])];
    RunMore(embed, g, ConceptOps(concepts[..i]), Op.UpsertConcept(concepts[i]));
  }

  lemma RunNoDatasets(embed: Embed, g: Graph, datasets: seq<Records.Dataset>)
    ensures Run(embed, g, CatalogOps(datasets[..0])) == g
  {
    assert datasets[..0] == [];
  }

  lemma RunOneDataset(embed: Embed, g: Graph, datasets: seq<Records.Dataset>, i: nat)
    requires i < |datasets|
    ensures Run(embed, g, CatalogOps(datasets[..i + 1])) ==
            Run(embed, Run(embed, g, CatalogOps(datasets[..i])), DatasetOps(datasets[i]))
  {
    hide Run, DatasetOps;
    assert datasets[..i + 1][..i] == datasets[..i];
    RunAppend(embed, g, CatalogOps(datasets[..i]), DatasetOps(datasets[i]));
  }

  method SeedConcepts(store: InMemoryGraphStore, concepts: seq<Concept>)
    requires store.Valid()
    modifies store, store.edges
    ensures store.Valid()
    ensures forall k :: 0 <= k < |store.edges| ==> store.edges[k] in old(store.edges) || fresh(store.edges[k])
    ensures store.View() == Run(store.embed, old(store.View()), ConceptOps(concepts))
  {
    hide *;
    ghost var g := store.View();
    RunNoConcepts(store.embed, g, concepts);
    for i := 0 to |concepts|
      invariant store.Valid()
      invariant forall k :: 0 <= k < |store.edges| ==> store.edges[k] in old(store.edges) || fresh(store.edges[k])
      invariant store.View() == Run(store.embed, g, ConceptOps(concepts[..i]))
    {
      RunOneConcept(store.embed, g, concepts, i);
      var _ := store.UpsertConcept(concepts[i]);
    }
    assert concepts[..|concepts|] == concepts;
  }

  method SeedCatalog(store: InMemoryGraphStore, datasets: seq<Records.Dataset>)
    requires store.Valid()
    modifies store, store.edges
    ensures store.Valid()
    ensures forall k :: 0 <= k < |store.edges| ==> store.edges[k] in old(store.edges) || fresh(store.edges[k])
    ensures store.View() == Run(store.embed, old(store.View()), CatalogOps(datasets))
  {
    hide *;
    ghost var g := store.View();
    RunNoDatasets(store.embed, g, datasets);
    for i := 0 to |datasets|
      invariant store.Valid()
      invariant forall k :: 0 <= k < |store.edges| ==> store.edges[k] in old(store.edges) || fresh(store.edges[k])
      invariant store.View() == Run(store.embed, g, CatalogOps(datasets[..i]))
    {
      RunOneDataset(store.embed, g, datasets, i);
      SeedDataset(store, datasets[i]);
    }
    assert datasets[..|datasets|] == datasets;
  }

  /** Seed a store; the counts are those of the run. */
  method SeedStore(store: InMemoryGraphStore, concepts: seq<Concept>, datasets: seq<Records.Dataset>)
    returns (stats: (nat, nat, nat, nat))
    requires store.Valid()
    modifies store, store.edges
    ensures store.Valid() && store.View() == Run(store.embed, old(store.View()), SeedOps(concepts, datasets))
    ensures stats == StatsOf(store.View())
  {
    hide Run, Sound, ConceptOps, CatalogOps;
    RunAppend(store.embed, store.View(), ConceptOps(concepts), CatalogOps(datasets));
    SeedConcepts(store, concepts);
    SeedCatalog(store, datasets);
    stats := store.Stats();
  }

  // ----- what seeding means -----

  /** Seeding again, from whatever store, changes nothing and reports the same counts. */
  lemma SeedingIsIdempotent(embed: Embed, before: seq<Op>, concepts: seq<Concept>, datasets: seq<Records.Dataset>,
                            dimension: nat)
    requires forall t :: |embed(t)| == dimension
    ensures var once := Run(embed, Run(embed, EMPTY, before), SeedOps(concepts, datasets));
            var twice := Run(embed, once, SeedOps(concepts, datasets));
            twice == once && StatsOf(twice) == StatsOf(once)
  {
    hide Run, SeedOps;
    ReplayFromReachable(embed, before, SeedOps(concepts, datasets), dimension);
  }

  /** The edges a dataset stands for: to its columns, terms and mapped concepts, along its lineage, to its relatives. */
  ghost predicate Declares(ds: Records.Dataset, e: Edge) {
    || (exists c :: c in ds.meta.schema && e == Edge(EdgeKey("has_column", ds.id, ds.id + ":" + c.name), map[]))
    || (exists x :: x in ds.meta.terms && e == Edge(EdgeKey("mapping", ds.id, x), map["origin" := Str("term")]))
    || (exists m :: m in ds.meta.mappings &&
          e == Edge(EdgeKey("mapping", ds.id, m.concept),
                    map["origin" := Str("business_mapping"), "status" := Str(m.status)]))
    || (exists x :: x in ds.meta.lineageInputs &&
          e == Edge(EdgeKey("lineage", x, ds.id), map["kind" := Str("input")]))
    || (exists x :: x in ds.meta.lineageOutputs &&
          e == Edge(EdgeKey("lineage", ds.id, x), map["kind" := Str("output")]))
    || (exists x :: x in ds.meta.relatedDatasets && e == Edge(EdgeKey("related_dataset", ds.id, x), map[]))
  }

  lemma DatasetEdgesExact(ds: Records.Dataset, e: Edge)
    ensures Declares(ds, e) <==>
            e in DatasetEdges(ds) || exists column :: column in ds.meta.schema && e == HasColumn(ds, column)
  {
    TermEdgesExact(ds, e);
    LineageEdgesExact(ds, e);
    RelatedEdgesExact(ds, e);
    assert e in DatasetEdges(ds) <==>
           e in TermEdges(ds) || e in MappingEdges(ds) || e in UpstreamEdges(ds) || e in DownstreamEdges(ds)
             || e in RelatedEdges(ds);
    hide TermEdges, MappingEdges, UpstreamEdges, DownstreamEdges, RelatedEdges, DatasetEdges;
  }

  lemma TermEdgesExact(ds: Records.Dataset, e: Edge)
    ensures e in TermEdges(ds) <==>
            exists x :: x in ds.meta.terms && e == Edge(EdgeKey("mapping", ds.id, x), map["origin" := Str("term")])
    ensures e in MappingEdges(ds) <==>
            exists m :: m in ds.meta.mappings &&
              e == Edge(EdgeKey("mapping", ds.id, m.concept),
                        map["origin" := Str("business_mapping"), "status" := Str(m.status)])
  {
    var terms, mappings := ds.meta.terms, ds.meta.mappings;
    assert forall i :: 0 <= i < |terms| ==> terms[i] in terms && TermEdges(ds)[i].key.targetId == terms[i];
    assert forall i :: 0 <= i < |mappings| ==>
             mappings[i] in mappings && MappingEdges(ds)[i].key.targetId == mappings[i].concept;
    if x :| x in terms && e == Edge(EdgeKey("mapping", ds.id, x), map["origin" := Str("term")]) {
      var i :| 0 <= i < |terms| && terms[i] == x;
      assert TermEdges(ds)[i] == e;
    }
    if m :| m in mappings &&
            e == Edge(EdgeKey("mapping", ds.id, m.concept),
                      map["origin" := Str("business_mapping"), "status" := Str(m.status)]) {
      var i :| 0 <= i < |mappings| && mappings[i] == m;
      assert MappingEdges(ds)[i] == e;
    }
  }

  lemma LineageEdgesExact(ds: Records.Dataset, e: Edge)
    ensures e in UpstreamEdges(ds) <==>
            exists x :: x in ds.meta.lineageInputs
                        && e == Edge(EdgeKey("lineage", x, ds.id), map["kind" := Str("input")])
    ensures e in DownstreamEdges(ds) <==>
            exists x :: x in ds.meta.lineageOutputs
                        && e == Edge(EdgeKey("lineage", ds.id, x), map["kind" := Str("output")])
  {
    var inputs, outputs := ds.meta.lineageInputs, ds.meta.lineageOutputs;
    assert forall i :: 0 <= i < |inputs| ==> inputs[i] in inputs && UpstreamEdges(ds)[i].key.sourceId == inputs[i];
    assert forall i :: 0 <= i < |outputs| ==>
             outputs[i] in outputs && DownstreamEdges(ds)[i].key.targetId == outputs[i];
    if x :| x in inputs && e == Edge(EdgeKey("lineage", x, ds.id), map["kind" := Str("input")]) {
      var i :| 0 <= i < |inputs| && inputs[i] == x;
      assert UpstreamEdges(ds)[i] == e;
    }
    if x :| x in outputs && e == Edge(EdgeKey("lineage", ds.id, x), map["kind" := Str("output")]) {
      var i :| 0 <= i < |outputs| && outputs[i] == x;
      assert DownstreamEdges(ds)[i] == e;
    }
  }

  lemma RelatedEdgesExact(ds: Records.Dataset, e: Edge)
    ensures e in RelatedEdges(ds) <==>
            exists x :: x in ds.meta.relatedDatasets && e == Edge(EdgeKey("related_dataset", ds.id, x), map[])
  {
    var related := ds.meta.relatedDatasets;
    assert forall i :: 0 <= i < |related| ==> related[i] in related && RelatedEdges(ds)[i].key.targetId == related[i];
    if x :| x in related && e == Edge(EdgeKey("related_dataset", ds.id, x), map[]) {
      var i :| 0 <= i < |related| && related[i] == x;
      assert RelatedEdges(ds)[i] == e;
    }
  }

  /** The node of a dataset, and the node of one of its columns. */
  ghost predicate IsDatasetNode(ds: Records.Dataset, op: Op) {
    var m := ds.meta;
    op == Op.UpsertNode(ds.id, "dataset", Some(m.title),
                        map["domain" := Str(m.domain), "owner" := Str(m.owner), "steward" := Str(m.steward),
                            "tags" := Strs(m.tags), "terms" := Strs(m.terms), "sensitivity" := Str(m.sensitivity),
                            "status" := Str(ds.status)],
                        Some(JoinSpaces([m.title, m.description, m.domain] + m.tags + m.terms)))
  }

  ghost predicate IsColumnNode(ds: Records.Dataset, c: Records.Column, op: Op) {
    op == Op.UpsertNode(ds.id + ":" + c.name, "column", Some(c.name),
                        map["datatype" := Str(c.dataType), "pii" := Bool(c.pii.Some? && c.pii.value)],
                        Some(c.name + " " + c.dataType))
  }

  /** First the concepts in their order, then dataset after dataset. */
  lemma SeedOrder(concepts: seq<Concept>, datasets: seq<Records.Dataset>, ds: Records.Dataset)
    ensures |SeedOps(concepts, [])| == |concepts|
    ensures forall i :: 0 <= i < |concepts| ==> SeedOps(concepts, [])[i] == Op.UpsertConcept(concepts[i])
    ensures SeedOps(concepts, datasets + [ds]) == SeedOps(concepts, datasets) + DatasetOps(ds)
  {
    hide DatasetOps;
    assert (datasets + [ds])[..|datasets|] == datasets;
  }

  /** Of one dataset first its node, then each column's node and edge, then the edges: mappings behind terms. */
  lemma DatasetOrder(ds: Records.Dataset)
    ensures var ops, m, n := DatasetOps(ds), ds.meta, 1 + 2 * |ds.meta.schema|;
            && |ops| == n + |m.terms| + |m.mappings| + |m.lineageInputs| + |m.lineageOutputs| + |m.relatedDatasets|
            && IsDatasetNode(ds, ops[0])
            && (forall i :: 0 <= i < |m.terms| ==>
                  ops[n + i] == Op.UpsertEdge(Edge(EdgeKey("mapping", ds.id, m.terms[i]),
                                                   map["origin" := Str("term")])))
            && (forall i :: 0 <= i < |m.mappings| ==>
                  ops[n + |m.terms| + i] ==
                  Op.UpsertEdge(Edge(EdgeKey("mapping", ds.id, m.mappings[i].concept),
                                     map["origin" := Str("business_mapping"), "status" := Str(m.mappings[i].status)])))
  {
    ColumnsInOrder(ds, ds.meta.schema);
    MappingsInOrder(ds);
    hide ColumnOps, TermEdges, MappingEdges, UpstreamEdges, DownstreamEdges, RelatedEdges;
    var edges, n := DatasetEdges(ds), 1 + 2 * |ds.meta.schema|;
    hide DatasetEdges;
    assert forall i :: 0 <= i < |edges| ==> DatasetOps(ds)[n + i] == Op.UpsertEdge(edges[i]);
  }

  lemma MappingsInOrder(ds: Records.Dataset)
    ensures var edges, m := DatasetEdges(ds), ds.meta;
            && |edges| == |m.terms| + |m.mappings| + |m.lineageInputs| + |m.lineageOutputs| + |m.relatedDatasets|
            && (forall i :: 0 <= i < |m.terms| ==>
                  edges[i] == Edge(EdgeKey("mapping", ds.id, m.terms[i]), map["origin" := Str("term")]))
            && (forall i :: 0 <= i < |m.mappings| ==>
                  edges[|m.terms| + i] ==
                  Edge(EdgeKey("mapping", ds.id, m.mappings[i].concept),
                       map["origin" := Str("business_mapping"), "status" := Str(m.mappings[i].status)]))
  {
  }

  lemma {:induction false} ColumnsInOrder(ds: Records.Dataset, columns: seq<Records.Column>)
    ensures |ColumnOps(ds, columns)| == 2 * |columns|
    ensures forall i :: 0 <= i < |columns| ==>
              && IsColumnNode(ds, columns[i], ColumnOps(ds, columns)[2 * i])
              && ColumnOps(ds, columns)[2 * i + 1] == Op.UpsertEdge(HasColumn(ds, columns[i]))
  {
    if columns != [] {
      var n := |columns| - 1;
      ColumnsInOrder(ds, columns[..n]);
      hide IsColumnNode, HasColumn;
      assert IsColumnNode(ds, columns[n], ColumnNode(ds, columns[n])) by { ColumnNodeIs(ds, columns[n]); }
      hide ColumnNode;
    }
  }

  lemma ColumnNodeIs(ds: Records.Dataset, c: Records.Column)
    ensures IsColumnNode(ds, c, ColumnNode(ds, c))
  {
  }

  /** The upserts of one dataset, all of them: its node, a node for each column, its edges. */
  lemma DatasetOpsExactly(ds: Records.Dataset, op: Op)
    ensures op in DatasetOps(ds) <==>
              || IsDatasetNode(ds, op)
              || (exists c :: c in ds.meta.schema && IsColumnNode(ds, c, op))
              || (op.UpsertEdge? && Declares(ds, op.edge))
  {
    ColumnOpsExact(ds, ds.meta.schema, op);
    if op.UpsertEdge? { DatasetEdgesExact(ds, op.edge); }
    assert IsDatasetNode(ds, op) <==> op == DatasetNode(ds);
    forall c ensures IsColumnNode(ds, c, op) <==> op == ColumnNode(ds, c) {}
    hide DatasetNode, ColumnNode, IsDatasetNode, IsColumnNode, HasColumn, DatasetEdges, Declares;
    var edges := DatasetEdges(ds);
    assert op in EdgeOps(edges) <==> op.UpsertEdge? && op.edge in edges by {
      if op.UpsertEdge? && op.edge in edges {
        var i :| 0 <= i < |edges| && edges[i] == op.edge;
        assert EdgeOps(edges)[i] == op;
      }
    }
  }

  lemma {:induction false} ColumnOpsExact(ds: Records.Dataset, columns: seq<Records.Column>, op: Op)
    ensures op in ColumnOps(ds, columns) <==>
            exists c :: c in columns && (op == ColumnNode(ds, c) || op == Op.UpsertEdge(HasColumn(ds, c)))
  {
    hide ColumnNode, HasColumn;
    if columns != [] {
      var n := |columns| - 1;
      assert columns == columns[..n] + [columns[n]];
      ColumnOpsExact(ds, columns[..n], op);
    }
  }

  lemma TypesAreIdentifiers()
    ensures IsIdentifier("has_column") && IsIdentifier("mapping") && IsIdentifier("lineage")
            && IsIdentifier("related_dataset")
  {
  }

  lemma DeclaredType(ds: Records.Dataset, e: Edge)
    requires Declares(ds, e)
    ensures IsIdentifier(e.key.edgeType)
  {
    hide IsIdentifier;
    TypesAreIdentifiers();
  }

  lemma {:induction false} DatasetSeeded(datasets: seq<Records.Dataset>, ds: Records.Dataset, op: Op)
    requires ds in datasets && op in DatasetOps(ds)
    ensures op in CatalogOps(datasets)
  {
    hide DatasetOps;
    var n := |datasets| - 1;
    if datasets[n] != ds {
      assert datasets == datasets[..n] + [datasets[n]];
      DatasetSeeded(datasets[..n], ds, op);
    }
  }

  lemma {:induction false} WritesListed(embed: Embed, ops: seq<Op>, op: Op, w: Write)
    requires op in ops && w in Writes(embed, op)
    ensures w in AllWrites(embed, ops)
    decreases |ops|
  {
    hide Writes;
    if ops[0] != op {
      assert ops == [ops[0]] + ops[1..];
      WritesListed(embed, ops[1..], op, w);
    }
  }

  lemma KeyListed(edges: seq<Edge>, key: EdgeKey)
    requires key in KeysOf(edges)
    ensures HasEdge(edges, key)
  {
  }

  /** After seeding, from whatever store, every declared edge of every dataset is there. */
  lemma SeededEdges(embed: Embed, g: Graph, concepts: seq<Concept>, datasets: seq<Records.Dataset>,
                    ds: Records.Dataset, e: Edge)
    requires ds in datasets && Declares(ds, e)
    ensures HasEdge(Run(embed, g, SeedOps(concepts, datasets)).edges, e.key)
  {
    DeclaredType(ds, e);
    DatasetOpsExactly(ds, Op.UpsertEdge(e));
    hide Run, DatasetOps, CatalogOps, ConceptOps, Declares, KeysOf, HasEdge, AllWrites, ApplyAll, IsIdentifier,
      RelationshipLabel;
    var op, ops := Op.UpsertEdge(e), SeedOps(concepts, datasets);
    DatasetSeeded(datasets, ds, op);
    LabelExactlyForIdentifiers(e.key.edgeType);
    assert EdgeWrite(e) in Writes(embed, op);
    WritesListed(embed, ops, op, EdgeWrite(e));
    RunIsWrites(embed, g, ops);
    KeysAfter(g, AllWrites(embed, ops));
    KeyListed(Run(embed, g, ops).edges, e.key);
  }

  /** So the `mapping` edges at a term name every dataset that carries it. */
  lemma SeededTermMaps(embed: Embed, g: Graph, concepts: seq<Concept>, datasets: seq<Records.Dataset>,
                       ds: Records.Dataset, i: nat)
    requires ds in datasets && i < |ds.meta.terms|
    ensures ds.id in MappingSources(Run(embed, g, SeedOps(concepts, datasets)).edges, ds.meta.terms[i])
  {
    var e := TermEdges(ds)[i];
    assert Declares(ds, e) by { assert ds.meta.terms[i] in ds.meta.terms; }
    hide Run, SeedOps, MappingSources, DatasetEdges;
    SeededEdges(embed, g, concepts, datasets, ds, e);
    MappingSourcesExact(Run(embed, g, SeedOps(concepts, datasets)).edges, ds.meta.terms[i], ds.id);
  }
}
