/**
 The running portal: the dictionaries and logs its modules share, updated in
 place.  `Valid` is what every run keeps: catalog and histories agree, and the
 evidence is sound.  Every operation keeps it, takes the state where the function
 of the same operation says, and leaves exactly the evidence its contract names.
 */
module Portal {
  import opened Outcomes
  import opened Records
  import opened Catalog
  import opened Policy
  import Browse
  import DecisionLog
  import Evidence
  import Governance
  import Orchestrator
  import PyText
  import Sorting
  import SqlGate
  import Versions

  /** A history holding just the dataset's first snapshot. */
  ghost predicate Started(h: seq<Snapshot>, ds: Dataset, clock: nat) {
    |h| == 1 && h[0] == MakeSnapshot(ds, h[0].snapshotAt) && h[0].snapshotAt < clock
  }

  /** The dictionary by id; a later dataset replaces an earlier one. */
  function Indexed(datasets: seq<Dataset>): map<string, Dataset> {
    if datasets == [] then map[]
    else var n := |datasets| - 1; Indexed(datasets[..n])[datasets[n].id := datasets[n]]
  }

  /** The dataset at `i` is the last one with this id. */
  ghost predicate LastWith(datasets: seq<Dataset>, id: string, i: nat) {
    i < |datasets| && datasets[i].id == id && forall j :: i < j < |datasets| ==> datasets[j].id != id
  }

  /** An id is in the dictionary exactly when some dataset has it, and stands for the last one that does. */
  lemma {:induction false} LastWins(datasets: seq<Dataset>, id: string)
    ensures id in Indexed(datasets) <==> exists i: nat :: LastWith(datasets, id, i)
    ensures forall i: nat :: LastWith(datasets, id, i) ==>
            id in Indexed(datasets) && Indexed(datasets)[id] == datasets[i]
  {
    if datasets != [] {
      var n := |datasets| - 1;
      var front := datasets[..n];
      LastWins(front, id);
      if datasets[n].id == id {
        assert LastWith(datasets, id, n);
      } else {
        forall i: nat ensures LastWith(datasets, id, i) <==> LastWith(front, id, i) {
          if LastWith(front, id, i) { assert datasets[i] == front[i]; }
          if LastWith(datasets, id, i) { assert front[i] == datasets[i]; }
        }
      }
    }
  }

  method IndexById(datasets: seq<Dataset>) returns (data: map<string, Dataset>)
    ensures data == Indexed(datasets)
  {
    data := map[];
    for i := 0 to |datasets|
      invariant data == Indexed(datasets[..i])
    {
      assert datasets[..i + 1][..i] == datasets[..i];
      data := data[datasets[i].id := datasets[i]];
    }
    assert datasets[..|datasets|] == datasets;
  }

  /** What a dataset looks like before any change. */
  predicate Initial(ds: Dataset) {
    ds.version == "1.0.0" && ds.schemaVersion == "1.0.0" && ScoresInRange(ds.meta)
  }

  lemma {:induction false} IndexedInitial(datasets: seq<Dataset>)
    requires forall ds :: ds in datasets ==> Initial(ds)
    ensures forall id :: id in Indexed(datasets) ==> Indexed(datasets)[id].id == id && Initial(Indexed(datasets)[id])
  {
    hide Initial;
    if datasets != [] {
      var n := |datasets| - 1;
      assert datasets[n] in datasets;
      IndexedInitial(datasets[..n]);
    }
  }

  lemma StartedLoaded(w: World)
    requires w.data.Keys == w.history.Keys
    requires forall id :: id in w.data ==> w.data[id].id == id && Initial(w.data[id])
    requires forall id :: id in w.data ==> Started(w.history[id], w.data[id], w.clock)
    ensures Loaded(w)
  {
  }

  method MaskRows(rows: seq<Browse.Row>, maskedColumns: seq<string>) returns (masked: seq<Browse.Row>)
    ensures masked == Browse.MaskedAll(rows, maskedColumns)
  {
    hide Browse.Masked;
    masked := [];
    for i := 0 to |rows|
      invariant masked == Browse.MaskedAll(rows[..i], maskedColumns)
    {
      var row := Browse.ApplyMask(rows[i], maskedColumns);
      masked := masked + [row];
    }
    assert rows[..|rows|] == rows;
  }

  /** The portal as it starts without an evidence store. */
  method StartPortal(datasets: seq<Dataset>) returns (portal: Portal)
    requires forall ds :: ds in datasets ==> Initial(ds)
    ensures fresh(portal) && portal.Valid() && Seeded(portal.View()) && portal.data == Indexed(datasets)
    ensures portal.store == None
  {
    hide Governance.Sound, Governance.Governed, Initial, Indexed, Seeded, Loaded;
    Governance.EmptySound(None, 0);
    portal := new Portal(datasets, None, 0);
  }

  class Portal {
    var data: map<string, Dataset>
    var history: map<string, seq<Snapshot>>
    var auditLog: seq<AuditEvent>
    var decisionLog: seq<PolicyDecision>
    var store: Option<Tables>
    var clock: nat

    ghost function View(): World
      reads this
    {
      World(data, history, auditLog, decisionLog, store, clock)
    }

    ghost predicate Valid()
      reads this
    {
      Governance.Governed(View())
    }

    /**
     Start at time `now` with the given datasets, each with its first snapshot, over the
     evidence an earlier process left.
     */
    constructor (datasets: seq<Dataset>, store: Option<Tables>, now: nat)
      requires forall ds :: ds in datasets ==> Initial(ds)
      requires Governance.Sound(Governance.Booting(store, now))
      ensures Valid() && Loaded(View()) && data == Indexed(datasets)
      ensures this.store == store && auditLog == [] && decisionLog == [] && now <= clock
      ensures (store.Some? ==> store.value == Tables([], [])) ==> Seeded(View())
    {
      history, auditLog, decisionLog, clock := map[], [], [], now;
      this.store := store;
      var byId := IndexById(datasets);
      data := byId;
      new;
      hide Governance.Sound, Started, Initial, Loaded, Indexed;
      IndexedInitial(datasets);
      InitializeSchemaHistory();
      StartedLoaded(View());
      Governance.LoadedGoverned(Governance.Booting(store, now), View());
    }

    /** One snapshot of every dataset. */
    method InitializeSchemaHistory()
      requires history == map[] && forall id :: id in data ==> data[id].id == id
      modifies this
      ensures View() == old(View()).(history := history, clock := clock) && old(clock) <= clock
      ensures history.Keys == data.Keys
      ensures forall id :: id in data ==> Started(history[id], data[id], clock)
    {
      var waiting := data.Keys;
      while waiting != {}
        invariant waiting <= data.Keys && history.Keys == data.Keys - waiting
        invariant forall id :: id in history ==> Started(history[id], data[id], clock)
        invariant View() == old(View()).(history := history, clock := clock) && old(clock) <= clock
        decreases |waiting|
      {
        var id :| id in waiting;
        RecordSchemaSnapshot(data[id]);
        waiting := waiting - {id};
      }
    }

    // ----- recording -----

    method Now() returns (t: nat)
      modifies this`clock
      ensures View() == Tick(old(View())) && t == old(clock)
    {
      t := clock;
      clock := clock + 1;
    }

    method RecordSchemaSnapshot(ds: Dataset)
      modifies this
      ensures View() == Catalog.RecordSchemaSnapshot(old(View()), ds)
    {
      var entries := if ds.id in history then history[ds.id] else [];
      var at := Now();
      history := history[ds.id := entries + [MakeSnapshot(ds, at)]];
    }

    method RecordPolicyDecision(d: PolicyDecision)
      modifies this
      ensures View() == Evidence.RecordDecision(old(View()), d)
    {
      if store.Some? {
        var at := Now();
        var tables := store.value;
        store := Some(tables.(decisions := Evidence.PutDecision(tables.decisions, DecisionRow(d, at))));
      } else {
        decisionLog := decisionLog + [d];
      }
    }

    method RecordAuditEvent(e: AuditEvent)
      modifies this
      ensures View() == Evidence.RecordEvent(old(View()), e)
    {
      if store.Some? {
        var tables := store.value;
        store := Some(tables.(events := Evidence.PutEvent(tables.events, e)));
      }
      if store.None? { auditLog := auditLog + [e]; }
    }

    method IngestEvent(eventType: string, actor: string, datasetId: string, decision: string, decisionId: Option<nat>,
                       reason: string)
      modifies this
      ensures View() == Evidence.Emit(old(View()), actor, eventType, datasetId, decision, decisionId, reason, false)
    {
      var now := Now();
      RecordAuditEvent(AuditEvent(now, actor, eventType, datasetId, decision, decisionId, reason, false, now));
    }

    method RecordChange(id: string, action: string, change: Change, noop: bool)
      modifies this
      ensures View() == Evidence.Emit(old(View()), change.actor, action, id, "success", change.decisionId, "ok", noop)
    {
      var now := Now();
      RecordAuditEvent(AuditEvent(now, change.actor, action, id, "success", change.decisionId, "ok", noop, now));
    }

    // ----- catalog -----

    method StoreChanged(id: string, ds: Dataset, action: string, change: Change)
      modifies this
      ensures View() == Commit(old(View()), id, ds, action, change)
    {
      data := data[id := ds];
      RecordSchemaSnapshot(ds);
      RecordChange(ds.id, action, change, false);
    }

    method RegisterDataset(request: CreateRequest, change: Change) returns (r: Result<Dataset, CatalogError>)
      requires Valid()
      modifies this
      ensures Valid() && (View(), r) == Register(old(View()), request, change)
      ensures r.Err? <==> Refused(old(View()), Registering(request))
      ensures if r.Err? then View() == old(View())
              else Governance.ChangeLeaves(old(View()), View(), Registering(request), change, r.value)
    {
      hide Commit, AssignedId, ScoresInRange, Governance.Governed, Governance.ChangeLeaves, Refused;
      Governance.ActAudited(View(), Registering(request), change);
      var id := AssignedId(request, |data|);
      if id in data || !ScoresInRange(request.meta) { return Err(Invalid); }
      var now := Now();
      var ds := Dataset(id, request.meta.(lineageInputs := [], lineageOutputs := []), "1.0.0", "1.0.0", "registered",
                        now);
      StoreChanged(id, ds, "dataset.register", change);
      return Ok(ds);
    }

    method PatchDataset(id: string, patch: PatchRequest, change: Change) returns (r: Result<Dataset, CatalogError>)
      requires Valid()
      modifies this
      ensures Valid() && (View(), r) == Patch(old(View()), id, patch, change)
      ensures r.Err? <==> Refused(old(View()), Patching(id, patch))
      ensures if r.Err? then View() == old(View())
              else Governance.ChangeLeaves(old(View()), View(), Patching(id, patch), change, r.value)
      ensures r.Ok? ==> id in old(data) && Amends(old(data)[id].meta, patch, r.value.meta)
    {
      hide Commit, Versions.Bump, Patched, Amends, ScoresInRange, Governance.Governed, Governance.ChangeLeaves, Refused;
      if id in data { PatchedAmends(data[id].meta, patch); }
      Governance.ActAudited(View(), Patching(id, patch), change);
      if id !in data { return Err(NotFound); }
      var ds := data[id];
      var meta := Patched(ds.meta, patch);
      var schemaVersion := Some(ds.schemaVersion);
      if !patch.schema.Unset? { schemaVersion := Versions.Bump(ds.schemaVersion); }
      var version := Versions.Bump(ds.version);
      if schemaVersion.None? || version.None? || !ScoresInRange(meta) { return Err(Invalid); }
      var now := Now();
      var updated := Dataset(ds.id, meta, version.value, schemaVersion.value, ds.status, now);
      StoreChanged(id, updated, "dataset.patch", change);
      return Ok(updated);
    }

    method PublishDataset(id: string, change: Change) returns (r: Result<Dataset, CatalogError>)
      requires Valid()
      modifies this
      ensures Valid() && (View(), r) == Publish(old(View()), id, change)
      ensures r.Err? <==> Refused(old(View()), Publishing(id))
      ensures if r.Err? then View() == old(View())
              else Governance.ChangeLeaves(old(View()), View(), Publishing(id), change, r.value)
    {
      hide Commit, Versions.Bump, MetadataComplete, ScoresInRange, Governance.Governed, Governance.ChangeLeaves,
        Refused;
      Governance.ActAudited(View(), Publishing(id), change);
      if id !in data { return Err(NotFound); }
      var ds := data[id];
      if !MetadataComplete(ds) { return Err(Invalid); }
      if ds.status == "published" {
        RecordChange(ds.id, "dataset.publish", change, true);
        return Ok(ds);
      }
      var version := Versions.Bump(ds.version);
      if version.None? || !ScoresInRange(ds.meta) { return Err(Invalid); }
      var now := Now();
      var published := Restated(ds, "published", version.value, now);
      StoreChanged(id, published, "dataset.publish", change);
      return Ok(published);
    }

    method DeprecateDataset(id: string, change: Change) returns (r: Result<Dataset, CatalogError>)
      requires Valid()
      modifies this
      ensures Valid() && (View(), r) == Deprecate(old(View()), id, change)
      ensures r.Err? <==> Refused(old(View()), Deprecating(id))
      ensures if r.Err? then View() == old(View())
              else Governance.ChangeLeaves(old(View()), View(), Deprecating(id), change, r.value)
    {
      hide Commit, Versions.Bump, ScoresInRange, Governance.Governed, Governance.ChangeLeaves, Refused;
      Governance.ActAudited(View(), Deprecating(id), change);
      if id !in data { return Err(NotFound); }
      var ds := data[id];
      var version := Versions.Bump(ds.version);
      if version.None? || !ScoresInRange(ds.meta) { return Err(Invalid); }
      var now := Now();
      var deprecated := Restated(ds, "deprecated", version.value, now);
      StoreChanged(id, deprecated, "dataset.deprecate", change);
      return Ok(deprecated);
    }

    /**
     The merged listing: the store's newest rows replace the log's entries one by
     one.  It is the slice of all selected evidence, newest first.
     */
    method ListAuditEvents(limit: int, resource: Option<string>) returns (events: seq<AuditEvent>)
      requires Valid()
      ensures events == Evidence.ListAuditEvents(View(), limit, resource)
      ensures events == Sorting.Take(Evidence.FullListing(View(), resource), limit)
      ensures Evidence.IsListing(View(), limit, resource, events)
    {
      hide Evidence.Select, Evidence.IsListing, Evidence.FullListing, Evidence.Listable, Evidence.Events,
        Evidence.Limited,
        DecisionLog.InOrder, CatalogInv, Evidence.Past;
      Evidence.PushDownExact(View(), limit, resource);
      Evidence.ListingExactly(View(), limit, resource);
      events := Evidence.Select(auditLog, resource);
      if store.Some? {
        var persisted := Evidence.ListEvents(store.value, resource, limit);
        var byId := Evidence.MergeById([], events);
        for i := 0 to |persisted|
          invariant byId == Evidence.MergeById(Evidence.MergeById([], events), persisted[..i])
        {
          assert persisted[..i + 1][..i] == persisted[..i];
          byId := Evidence.PutById(byId, persisted[i]);
        }
        assert persisted[..|persisted|] == persisted;
        events := byId;
      }
      events := Sorting.Take(Sorting.Sort(events, Evidence.CreatedAt), limit);
    }

    // ----- policy, browse, queries -----

    method EvaluatePolicy(subject: string, resource: string, action: string, purpose: string)
      returns (d: PolicyDecision)
      requires Valid()
      modifies this
      ensures Valid() && (View(), d) == Evaluate(old(View()), subject, resource, action, purpose)
      ensures d !in Evidence.Decisions(old(View()))
      ensures Evidence.Decisions(View()) == Evidence.Decisions(old(View())) + {d}
      ensures Evidence.Events(View()) == Evidence.Events(old(View()))
    {
      hide Decide, Reason, Governance.Governed, Evidence.Decisions, Evidence.Events;
      Governance.EvaluateSound(View(), subject, resource, action, purpose);
      var verdict := Decide(data, subject, resource, action, purpose);
      var id := Now();
      d := PolicyDecision(id, subject, resource, action, verdict.effect, Reason(verdict.rule), verdict.obligations);
      RecordPolicyDecision(d);
    }

    method PreviewRows(rows: seq<Browse.Row>, id: string, user: string, purpose: string, limit: int, offset: int)
      returns (r: Result<Browse.Page, Browse.BrowseError>)
      requires Valid()
      modifies this
      ensures Valid() && (View(), r) == Browse.Preview(old(View()), rows, id, user, purpose, limit, offset)
      ensures if Governance.BadWindow(limit, offset) then View() == old(View()) && r.Err?
              else Governance.PreviewLeaves(old(View()), View(), id, user, r)
    {
      hide Evaluate, Evidence.Emit, Masking, Browse.Masked, Browse.Slice, Browse.ColumnNames, Governance.Governed,
        Governance.PreviewLeaves;
      Governance.PreviewAudited(View(), rows, id, user, purpose, limit, offset);
      if limit < 1 { return Err(Browse.LimitTooLow); }
      if limit > 100 { return Err(Browse.LimitTooHigh); }
      if offset < 0 { return Err(Browse.NegativeOffset); }
      if id !in data {
        IngestEvent("browse.preview", user, id, "denied", None, "dataset_not_found");
        return Err(Browse.DatasetNotFound);
      }
      var ds := data[id];
      var d := EvaluatePolicy(user, id, "preview", purpose);
      if d.effect != Allow {
        IngestEvent("browse.preview", user, id, "denied", Some(d.decisionId), d.reason);
        return Err(Browse.PermissionDenied(d.reason));
      }
      var selected := Browse.Slice(rows, offset, limit);
      var masked := MaskRows(selected, Masking(d));
      IngestEvent("browse.preview", user, id, "allowed", Some(d.decisionId), "ok");
      return Ok(Browse.Page(ds.id, d, Browse.ColumnNames(ds.meta.schema), masked, Browse.Smaller(limit, |masked|),
                            offset,
                            Masking(d), offset + |masked| < |rows|,
                            if "row_filter" in d.obligations then Some(d.obligations["row_filter"]) else None));
    }

    /** The preview of the portal itself, over its sample rows. */
    method Preview(id: string, user: string, purpose: string, limit: int, offset: int)
      returns (r: Result<Browse.Page, Browse.BrowseError>)
      requires Valid()
      modifies this
      ensures Valid() && (View(), r) ==
              Browse.Preview(old(View()), Browse.SAMPLE_ROWS, id, user, purpose, limit, offset)
      ensures if Governance.BadWindow(limit, offset) then View() == old(View()) && r.Err?
              else Governance.PreviewLeaves(old(View()), View(), id, user, r)
      ensures r.Ok? ==> r.value.rowCount == |r.value.rows| <= 2
    {
      hide Governance.Governed, Governance.PreviewLeaves;
      r := PreviewRows(Browse.SAMPLE_ROWS, id, user, purpose, limit, offset);
    }

    method ReadSchema(id: string, user: string, purpose: string)
      returns (r: Result<Browse.SchemaPage, Browse.BrowseError>)
      requires Valid()
      modifies this
      ensures Valid() && (View(), r) == Browse.Schema(old(View()), id, user, purpose)
      ensures if id !in old(data) then View() == old(View()) && r == Err(Browse.DatasetNotFound)
              else Governance.SchemaLeaves(old(View()), View(), id, user, r)
    {
      hide Evaluate, Evidence.Emit, Masking, Governance.Governed, Governance.SchemaLeaves;
      Governance.SchemaAudited(View(), id, user, purpose);
      if id !in data { return Err(Browse.DatasetNotFound); }
      var ds := data[id];
      var d := EvaluatePolicy(user, id, "schema", purpose);
      if d.effect != Allow {
        IngestEvent("browse.schema", user, id, "denied", Some(d.decisionId), d.reason);
        return Err(Browse.PermissionDenied(d.reason));
      }
      IngestEvent("browse.schema", user, id, "allowed", Some(d.decisionId), d.reason);
      return Ok(Browse.SchemaPage(ds.id, d.decisionId, FilledAll(ds.meta.schema), ds.meta.mappings, Masking(d),
                                  ds.meta.qualityScore, ds.meta.freshnessScore));
    }

    method ExecuteQuery(req: Orchestrator.Request) returns (r: Orchestrator.Response)
      requires Valid() && req.datasetIds != []
      modifies this
      ensures Valid() && (View(), r) == Orchestrator.Execute(old(View()), req)
      ensures Governance.QueryLeaves(old(View()), View(), req, r)
    {
      hide Evaluate, Evidence.Emit, PyText.Upper, PyText.Lower, PyText.Strip, PyText.Contains,
        Orchestrator.MentionsForbidden, SqlGate.WarningsOf, Orchestrator.Messages, Orchestrator.Answered,
        SqlGate.Raises, SqlGate.Accepts, Governance.Governed, Governance.QueryLeaves;
      Governance.QueryAudited(View(), req);
      Governance.Ticked(View());
      var requestId := Now();
      var id := req.datasetIds[0];
      if PyText.Upper(PyText.Strip(req.language)) != "SQL" {
        r := RejectQuery(req, requestId, "unsupported_language");
        return;
      }
      var mentions := MentionsForbidden(PyText.Lower(req.query));
      if mentions {
        r := RejectQuery(req, requestId, "forbidden_keyword_detected");
        return;
      }
      if |req.datasetIds| > 1 {
        r := RejectQuery(req, requestId, "cross_source_join_not_supported");
        return;
      }
      if id !in data {
        r := RejectQuery(req, requestId, "dataset_not_found");
        return;
      }
      r := ExecuteOn(req, requestId, data[id]);
    }

    method MentionsForbidden(lowered: string) returns (found: bool)
      ensures found == Orchestrator.MentionsForbidden(lowered)
    {
      hide PyText.Contains;
      found := false;
      for k := 0 to |SqlGate.FORBIDDEN|
        invariant found == exists j :: 0 <= j < k && PyText.Contains(lowered, SqlGate.FORBIDDEN[j])
      {
        if PyText.Contains(lowered, SqlGate.FORBIDDEN[k]) { found := true; }
      }
    }

    method RejectQuery(req: Orchestrator.Request, requestId: nat, reason: string) returns (r: Orchestrator.Response)
      requires req.datasetIds != []
      modifies this
      ensures (View(), r) == Orchestrator.Reject(old(View()), req, requestId, reason)
    {
      IngestEvent("browse.query", req.user, req.datasetIds[0], "rejected", None, reason);
      r := Orchestrator.Unanswered(requestId, req.datasetIds[0], None, Orchestrator.Rejected, "validation", [reason]);
    }

    method ExecuteOn(req: Orchestrator.Request, requestId: nat, ds: Dataset) returns (r: Orchestrator.Response)
      requires Valid() && req.datasetIds != []
      modifies this
      ensures (View(), r) == Orchestrator.ExecuteOn(old(View()), req, requestId, ds)
    {
      hide Evaluate, Evidence.Emit, SqlGate.WarningsOf, Orchestrator.Messages, Orchestrator.Answered, SqlGate.Raises,
        SqlGate.Accepts, Governance.Governed;
      var d := EvaluatePolicy(req.user, req.datasetIds[0], "query", req.purpose);
      if d.effect != Allow {
        IngestEvent("browse.query", req.user, ds.id, "denied", Some(d.decisionId), d.reason);
        return Orchestrator.Unanswered(requestId, ds.id, Some(d.decisionId), Orchestrator.Denied, "policy", [d.reason]);
      }
      var warnings := SqlGate.ValidateSqlQuery(req.query, ds.meta.sourceSystem);
      if warnings != [] {
        IngestEvent("browse.query", req.user, ds.id, "rejected", Some(d.decisionId), "query_safety_validation_failed");
        return Orchestrator.Unanswered(requestId, ds.id, Some(d.decisionId), Orchestrator.Rejected, "query_safety",
                                       Orchestrator.Messages(warnings));
      }
      var now := Now();
      IngestEvent("browse.query", req.user, ds.id, "allowed", Some(d.decisionId), "ok");
      return Orchestrator.Answered(requestId, ds, d, req, now);
    }
  }
}
