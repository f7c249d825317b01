/**
 Whole runs of the portal: catalog changes, policy evaluations, previews and queries
 in any order, with or without a store.  Each call leaves its audit event, and
 every reachable world keeps catalog, histories and evidence sound.
 */
module Governance {
  import opened Outcomes
  import opened Records
  import opened Catalog
  import opened Evidence
  import opened Policy
  import AuditTrail
  import Browse
  import DecisionLog
  import Orchestrator
  import PyText
  import Sorting
  import SqlGate
  import Versions

  datatype Call =
    | Changing(step: Action, change: Change)
    | Evaluating(subject: string, resource: string, action: string, purpose: string)
    | Previewing(rows: seq<Browse.Row>, id: string, user: string, purpose: string, limit: int, offset: int)
    | ReadingSchema(id: string, user: string, purpose: string)
    | Executing(request: Orchestrator.Request)

  /** A query request without datasets does not get past the validation of its model. */
  function Perform(w: World, c: Call): World {
    match c
    case Changing(step, change) => Act(w, step, change).0
    case Evaluating(subject, resource, action, purpose) => Evaluate(w, subject, resource, action, purpose).0
    case Previewing(rows, id, user, purpose, limit, offset) => 
      Browse.Preview(w, rows, id, user, purpose, limit, offset).0
    case ReadingSchema(id, user, purpose) => Browse.Schema(w, id, user, purpose).0
    case Executing(request) => if request.datasetIds == [] then w else Orchestrator.Execute(w, request).0
  }

  function Run(w: World, calls: seq<Call>): World
    decreases |calls|
  {
    if calls == [] then w else Run(Perform(w, calls[0]), calls[1..])
  }

  /** A run performs its calls one after the other, each in the world the ones before it left. */
  lemma {:induction false} RunOnward(w: World, calls: seq<Call>, more: seq<Call>)
    ensures Run(w, []) == w
    ensures Run(w, calls + more) == Run(Run(w, calls), more)
    ensures |more| == 1 ==> Run(w, calls + more) == Perform(Run(w, calls), more[0])
    decreases |calls|
  {
    hide Perform;
    if calls == [] {
      assert calls + more == more;
      if |more| == 1 { assert Run(Perform(w, more[0]), more[1..]) == Perform(w, more[0]); }
    } else {
      assert (calls + more)[1..] == calls[1..] + more;
      RunOnward(Perform(w, calls[0]), calls[1..], more);
    }
  }

  /** What each call does to the world. */
  lemma PerformExactly(w: World)
    ensures forall step, change :: Perform(w, Changing(step, change)) == Act(w, step, change).0
    ensures forall u, r, a, p :: Perform(w, Evaluating(u, r, a, p)) == Evaluate(w, u, r, a, p).0
    ensures forall rows, id, u, p, l, o ::
              Perform(w, Previewing(rows, id, u, p, l, o)) == Browse.Preview(w, rows, id, u, p, l, o).0
    ensures forall id, u, p :: Perform(w, ReadingSchema(id, u, p)) == Browse.Schema(w, id, u, p).0
    ensures forall req: Orchestrator.Request :: req.datasetIds != [] ==>
              Perform(w, Executing(req)) == Orchestrator.Execute(w, req).0
  {
    hide Act, Evaluate, Browse.Preview, Browse.Schema, Orchestrator.Execute;
  }

  // ----- what every run keeps -----

  ghost predicate IsBrowse(e: AuditEvent) {
    "browse." <= e.action
  }

  /**
   The decision an event names: made earlier, for the same subject, resource and action,
   with the effect the result reports.
   */
  ghost predicate Backs(d: PolicyDecision, e: AuditEvent) {
    && e.decisionId == Some(d.decisionId) && d.decisionId < e.id
    && d.subject == e.actor && d.resource == e.resource && e.action == "browse." + d.action
    && (d.effect == Deny <==> e.result == "denied")
  }

  ghost predicate Backed(w: World, e: AuditEvent) {
    && (e.result == "allowed" ==> e.decisionId.Some?)
    && (e.decisionId.Some? ==> exists d :: d in Decisions(w) && Backs(d, e))
  }

  ghost predicate UniqueDecisions(w: World) {
    forall c, d :: c in Decisions(w) && d in Decisions(w) && c.decisionId == d.decisionId ==> c == d
  }

  /** The evidence of a run: dated, listable, in order, and every browse event backed by a decision. */
  ghost predicate Sound(w: World) {
    && Past(w) && Listable(w) && UniqueDecisions(w) && DecisionLog.InOrder(w)
    && forall e :: e in Events(w) && IsBrowse(e) ==> Backed(w, e)
  }

  ghost predicate Governed(w: World) {
    CatalogInv(w) && Sound(w)
  }

  function Stamped(w: World, actor: string, action: string, resource: string, result: string, decisionId: Option<nat>,
                   reason: string, noop: bool): AuditEvent
  {
    AuditEvent(w.clock, actor, action, resource, result, decisionId, reason, noop, w.clock)
  }

  /** Emitting adds exactly the stamped event. */
  lemma EmitAdds(w: World, actor: string, action: string, resource: string, result: string, decisionId: Option<nat>,
                 reason: string, noop: bool)
    requires Past(w)
    ensures var w' := Emit(w, actor, action, resource, result, decisionId, reason, noop);
            var e := Stamped(w, actor, action, resource, result, decisionId, reason, noop);
            && Events(w') == Events(w) + {e} && e !in Events(w) && Decisions(w') == Decisions(w) && Past(w')
            && w'.data == w.data && w'.history == w.history && w'.clock == w.clock + 1
  {
    assert Events(Tick(w)) == Events(w) && Decisions(Tick(w)) == Decisions(w);
    RecordEventAdds(Tick(w), Stamped(w, actor, action, resource, result, decisionId, reason, noop));
    hide Events, Decisions;
  }

  /** A freshly stamped event keeps the evidence listable. */
  lemma EmitListable(w: World, actor: string, action: string, resource: string, result: string,
                     decisionId: Option<nat>, reason: string, noop: bool)
    requires Past(w) && Listable(w)
    ensures Listable(Emit(w, actor, action, resource, result, decisionId, reason, noop))
  {
    hide Events, DistinctIds, Emit;
    EmitAdds(w, actor, action, resource, result, decisionId, reason, noop);
    EmitDistinct(w, actor, action, resource, result, decisionId, reason, noop);
  }

  lemma EmitDistinct(w: World, actor: string, action: string, resource: string, result: string,
                     decisionId: Option<nat>, reason: string, noop: bool)
    requires Past(w) && DistinctIds(w.auditLog) && (w.store.Some? ==> DistinctIds(w.store.value.events))
    ensures var w' := Emit(w, actor, action, resource, result, decisionId, reason, noop);
            DistinctIds(w'.auditLog) && (w'.store.Some? ==> DistinctIds(w'.store.value.events))
  {
    hide DistinctIds;
    var e := Stamped(w, actor, action, resource, result, decisionId, reason, noop);
    var events := if w.store.Some? then w.store.value.events else w.auditLog;
    forall f | f in events ensures f.id < w.clock { assert f in Events(w); }
    NoneToReplace(events, e.id);
    DistinctMore(events, e);
  }

  lemma DistinctMore(events: seq<AuditEvent>, e: AuditEvent)
    requires DistinctIds(events) && forall f :: f in events ==> f.id < e.id
    ensures DistinctIds(events + [e])
  {
  }

  lemma EmitKeepsOrder(w: World, actor: string, action: string, resource: string, result: string,
                       decisionId: Option<nat>, reason: string, noop: bool)
    requires DecisionLog.InOrder(w)
    ensures DecisionLog.InOrder(Emit(w, actor, action, resource, result, decisionId, reason, noop))
  {
  }

  /** Emitting keeps the evidence sound if a browse event is backed. */
  lemma EmitSound(w: World, actor: string, action: string, resource: string, result: string, decisionId: Option<nat>,
                  reason: string, noop: bool)
    requires Sound(w)
    requires var e := Stamped(w, actor, action, resource, result, decisionId, reason, noop);
             IsBrowse(e) ==> Backed(w, e)
    ensures Sound(Emit(w, actor, action, resource, result, decisionId, reason, noop))
  {
    hide Events, Decisions, Listable, Emit, IsBrowse, DecisionLog.InOrder, Backs;
    EmitAdds(w, actor, action, resource, result, decisionId, reason, noop);
    EmitListable(w, actor, action, resource, result, decisionId, reason, noop);
    EmitKeepsOrder(w, actor, action, resource, result, decisionId, reason, noop);
    var w' := Emit(w, actor, action, resource, result, decisionId, reason, noop);
    forall e | e in Events(w') && IsBrowse(e) ensures Backed(w', e) {}
  }

  /** Evidence depends on logs and store only, and stays sound as time passes. */
  lemma SameEvidence(w: World, w': World)
    requires Sound(w) && w'.auditLog == w.auditLog && w'.decisionLog == w.decisionLog && w'.store == w.store
    requires w.clock <= w'.clock
    ensures Sound(w') && Events(w') == Events(w) && Decisions(w') == Decisions(w)
  {
    assert Events(w') == Events(w) && Decisions(w') == Decisions(w);
    hide Events, Decisions, IsBrowse, Backs;
    forall e | e in Events(w') && IsBrowse(e) ensures Backed(w', e) {}
  }

  lemma DecideListable(w: World, w': World)
    requires Listable(w) && Events(w') == Events(w) && w'.auditLog == w.auditLog
    requires w'.store.Some? ==> w.store.Some? && w'.store.value.events == w.store.value.events
    ensures Listable(w')
  {
  }

  lemma RecordLeavesEvents(w: World, d: PolicyDecision)
    ensures var w' := RecordDecision(w, d);
            && w'.auditLog == w.auditLog
            && (w'.store.Some? ==> w.store.Some? && w'.store.value.events == w.store.value.events)
  {
  }

  /** One evaluation keeps everything and adds its decision. */
  lemma EvaluateSound(w: World, subject: string, resource: string, action: string, purpose: string)
    requires Governed(w)
    ensures var (w', d) := Evaluate(w, subject, resource, action, purpose);
            && Governed(w') && w'.data == w.data && w'.history == w.history && w.clock < w'.clock
            && Decisions(w') == Decisions(w) + {d} && d !in Decisions(w) && Events(w') == Events(w)
            && d == DecisionOf(w, subject, resource, action, purpose)
  {
    hide Events, Decisions, Listable, IsBrowse, Backs, CatalogInv, DecisionLog.InOrder, RecordDecision, DecisionOf;
    var (w', d) := Evaluate(w, subject, resource, action, purpose);
    EvaluateRecords(w, subject, resource, action, purpose);
    SameEvidence(w, Tick(w));
    RecordLeavesEvents(Tick(w), d);
    DecideListable(Tick(w), w');
    DecisionLog.RecordKeepsOrder(Tick(w), d);
    OtherKeeps(w, w');
    forall e | e in Events(w') && IsBrowse(e) ensures Backed(w', e) {
      assert Backed(w, e);
    }
  }

  // ----- single calls -----

  /** A catalog change writes only events that need no decision. */
  lemma CommitSound(w: World, id: string, ds: Dataset, action: string, change: Change)
    requires Sound(w) && !("browse." <= action)
    ensures Sound(Commit(w, id, ds, action, change))
  {
    hide Sound, Emit;
    var w1 := RecordSchemaSnapshot(w.(data := w.data[id := ds]), ds);
    SameEvidence(w, w1);
    EmitSound(w1, change.actor, action, ds.id, "success", change.decisionId, "ok", false);
  }

  lemma ActSound(w: World, a: Action, change: Change)
    requires Governed(w)
    ensures Governed(Act(w, a, change).0)
  {
    hide Sound, Commit, Emit, CatalogInv, Versions.Bump, Patched, AssignedId, MetadataComplete, ScoresInRange,
      FilledAll, Restated;
    ActKeeps(w, a, change);
    SameEvidence(w, Tick(w));
    var (w', r) := Act(w, a, change);
    if r.Ok? {
      CatalogNames();
      match a
      case Registering(request) => CommitSound(Tick(w), r.value.id, r.value, "dataset.register", change);
      case Patching(id, p) => CommitSound(Tick(w), id, r.value, "dataset.patch", change);
      case Publishing(id) =>
        if w.data[id].status == "published" {
          EmitSound(w, change.actor, "dataset.publish", r.value.id, "success", change.decisionId, "ok", true);
        } else {
          CommitSound(Tick(w), id, r.value, "dataset.publish", change);
        }
      case Deprecating(id) => CommitSound(Tick(w), id, r.value, "dataset.deprecate", change);
    }
  }

  lemma CatalogNames()
    ensures !("browse." <= "dataset.register") && !("browse." <= "dataset.patch")
    ensures !("browse." <= "dataset.publish") && !("browse." <= "dataset.deprecate")
  {
    assert "browse."[0] != 'd';
  }

  /** A browse event backed by a decision just made. */
  lemma EmitBacked(w: World, d: PolicyDecision, browse: string, resource: string, result: string, reason: string)
    requires Governed(w) && d in Decisions(w) && d.resource == resource
    requires browse == "browse." + d.action && (d.effect == Deny <==> result == "denied")
    ensures var w' := Emit(w, d.subject, browse, resource, result, Some(d.decisionId), reason, false);
            var e := Stamped(w, d.subject, browse, resource, result, Some(d.decisionId), reason, false);
            && Governed(w') && w'.data == w.data
            && Events(w') == Events(w) + {e} && e !in Events(w) && Decisions(w') == Decisions(w)
  {
    hide Events, Decisions, Listable, CatalogInv, DecisionLog.InOrder, Emit;
    EmitAdds(w, d.subject, browse, resource, result, Some(d.decisionId), reason, false);
    var e := Stamped(w, d.subject, browse, resource, result, Some(d.decisionId), reason, false);
    assert Backs(d, e);
    EmitSound(w, d.subject, browse, resource, result, Some(d.decisionId), reason, false);
    OtherKeeps(w, Emit(w, d.subject, browse, resource, result, Some(d.decisionId), reason, false));
  }

  /** A browse event without a decision, not claiming to be allowed. */
  lemma EmitUnbacked(w: World, actor: string, browse: string, resource: string, result: string, reason: string)
    requires Governed(w) && result != "allowed"
    ensures var w' := Emit(w, actor, browse, resource, result, None, reason, false);
            var e := Stamped(w, actor, browse, resource, result, None, reason, false);
            && Governed(w') && w'.data == w.data
            && Events(w') == Events(w) + {e} && e !in Events(w) && Decisions(w') == Decisions(w)
  {
    hide Events, Decisions, Listable, CatalogInv, DecisionLog.InOrder, Emit;
    EmitAdds(w, actor, browse, resource, result, None, reason, false);
    EmitSound(w, actor, browse, resource, result, None, reason, false);
    OtherKeeps(w, Emit(w, actor, browse, resource, result, None, reason, false));
  }

  /** Exactly one event was added: who did what to which resource, backed by a decision made before. */
  ghost predicate OneEvent(w: World, w': World, e: AuditEvent, actor: string, action: string, resource: string) {
    && Events(w') == Events(w) + {e} && e !in Events(w)
    && e.actor == actor && e.action == action && e.resource == resource && Backed(w', e)
  }

  /** Exactly one decision was added, the one with this id. */
  ghost predicate OneDecision(w: World, w': World, id: nat) {
    exists d :: d !in Decisions(w) && d.decisionId == id && Decisions(w') == Decisions(w) + {d}
  }

  /** One event, and with it the decision it names or none. */
  ghost predicate Traced(w: World, w': World, e: AuditEvent, actor: string, action: string, resource: string) {
    && w'.data == w.data && w'.history == w.history && OneEvent(w, w', e, actor, action, resource)
    && if e.decisionId.Some? then OneDecision(w, w', e.decisionId.value) else Decisions(w') == Decisions(w)
  }

  /**
   What a preview leaves: an event, allowed exactly when rows are returned, and its
   decision unless the id is unknown.
   */
  ghost predicate PreviewLeaves(w: World, w': World, id: string, user: string,
                                r: Result<Browse.Page, Browse.BrowseError>)
  {
    exists e ::
      && Traced(w, w', e, user, "browse.preview", id)
      && (r.Ok? <==> e.result == "allowed") && (r.Err? <==> e.result == "denied")
      && (e.decisionId.None? <==> id !in w.data) && (r == Err(Browse.DatasetNotFound) <==> id !in w.data)
      && (r.Ok? ==> e.decisionId == Some(r.value.decision.decisionId) && e.reason == "ok")
      && (r == Err(Browse.DatasetNotFound) ==> e.reason == "dataset_not_found")
      && (r.Err? && r.error.PermissionDenied? ==> e.reason == r.error.reason)
  }

  ghost predicate SchemaLeaves(w: World, w': World, id: string, user: string,
                               r: Result<Browse.SchemaPage, Browse.BrowseError>)
  {
    exists e ::
      && Traced(w, w', e, user, "browse.schema", id) && e.decisionId.Some?
      && (r.Ok? <==> e.result == "allowed") && (r.Err? <==> e.result == "denied")
      && (r.Ok? ==> e.decisionId == Some(r.value.decisionId))
      && (r.Err? && r.error.PermissionDenied? ==> e.reason == r.error.reason)
  }

  ghost predicate QueryLeaves(w: World, w': World, req: Orchestrator.Request, r: Orchestrator.Response)
    requires req.datasetIds != []
  {
    exists e ::
      && Traced(w, w', e, req.user, "browse.query", req.datasetIds[0])
      && (e.result == "allowed" <==> r.status == Orchestrator.Succeeded)
      && (e.result == "denied" <==> r.status == Orchestrator.Denied)
      && e.decisionId == r.decisionId && r.datasetId == req.datasetIds[0]
      && (r.decisionId.None? ==> r.status == Orchestrator.Rejected)
      && (r.status == Orchestrator.Succeeded ==> e.reason == "ok")
      && (r.status == Orchestrator.Denied || r.decisionId.None? ==> r.warnings == [e.reason])
      && (r.status == Orchestrator.Rejected && r.decisionId.Some? ==> e.reason == "query_safety_validation_failed")
  }

  /** A decision and then its event. */
  lemma DecideAndEmit(w: World, w1: World, d: PolicyDecision, browse: string, result: string, reason: string)
    requires Governed(w1) && w1.data == w.data && w1.history == w.history
    requires Decisions(w1) == Decisions(w) + {d} && d !in Decisions(w) && Events(w1) == Events(w)
    requires browse == "browse." + d.action && (d.effect == Deny <==> result == "denied")
    ensures var w' := Emit(w1, d.subject, browse, d.resource, result, Some(d.decisionId), reason, false);
            var e := Stamped(w1, d.subject, browse, d.resource, result, Some(d.decisionId), reason, false);
            Governed(w') && Traced(w, w', e, d.subject, browse, d.resource)
  {
    hide Events, Decisions, CatalogInv, Emit, IsBrowse;
    EmitBacked(w1, d, browse, d.resource, result, reason);
    EmitLeavesCatalog(w1, d.subject, browse, d.resource, result, Some(d.decisionId), reason, false);
    var e := Stamped(w1, d.subject, browse, d.resource, result, Some(d.decisionId), reason, false);
    assert Backs(d, e);
  }

  /** An event without a decision. */
  lemma EmitTraced(w: World, w0: World, actor: string, browse: string, resource: string, result: string, reason: string)
    requires Governed(w0) && w0.data == w.data && w0.history == w.history && result != "allowed"
    requires Events(w0) == Events(w) && Decisions(w0) == Decisions(w)
    ensures var w' := Emit(w0, actor, browse, resource, result, None, reason, false);
            var e := Stamped(w0, actor, browse, resource, result, None, reason, false);
            Governed(w') && Traced(w, w', e, actor, browse, resource)
  {
    hide Events, Decisions, CatalogInv, Emit, IsBrowse;
    EmitUnbacked(w0, actor, browse, resource, result, reason);
    EmitLeavesCatalog(w0, actor, browse, resource, result, None, reason, false);
  }

  lemma BrowseNames()
    ensures "browse.preview" == "browse." + "preview" && "browse.schema" == "browse." + "schema"
    ensures "browse.query" == "browse." + "query"
    ensures "allowed" != "denied" && "rejected" != "denied" && "rejected" != "allowed"
  {
    assert "allowed"[0] != "denied"[0] && "rejected"[0] != "denied"[0] && "rejected"[0] != "allowed"[0];
  }

  /** Arguments a preview refuses before anything else. */
  predicate BadWindow(limit: int, offset: int) {
    limit < 1 || limit > 100 || offset < 0
  }

  /** A refused preview leaves no trace; any other leaves its event and its decision. */
  lemma PreviewAudited(w: World, rows: seq<Browse.Row>, id: string, user: string, purpose: string, limit: int,
                       offset: int)
    requires Governed(w)
    ensures var (w', r) := Browse.Preview(w, rows, id, user, purpose, limit, offset);
            && Governed(w')
            && if BadWindow(limit, offset) then w' == w && r.Err? && r != Err(Browse.DatasetNotFound)
               else PreviewLeaves(w, w', id, user, r)
  {
    hide Governed, Events, Decisions, Decide, Emit, Evaluate, Browse.PageOf, OneEvent, OneDecision, Traced;
    var (w', r) := Browse.Preview(w, rows, id, user, purpose, limit, offset);
    if !BadWindow(limit, offset) {
      BrowseNames();
      if id !in w.data {
        EmitTraced(w, w, user, "browse.preview", id, "denied", "dataset_not_found");
        var e := Stamped(w, user, "browse.preview", id, "denied", None, "dataset_not_found", false);
        assert Traced(w, w', e, user, "browse.preview", id);
      } else {
        PreviewDecided(w, rows, id, user, purpose, limit, offset);
      }
    }
  }

  lemma PreviewDecided(w: World, rows: seq<Browse.Row>, id: string, user: string, purpose: string, limit: int,
                       offset: int)
    requires Governed(w) && !BadWindow(limit, offset) && id in w.data
    ensures var (w', r) := Browse.Preview(w, rows, id, user, purpose, limit, offset);
            Governed(w') && PreviewLeaves(w, w', id, user, r)
  {
    hide Governed, Events, Decisions, Decide, Emit, Evaluate, Masking, Browse.MaskedAll, Browse.Slice, OneEvent,
      OneDecision, Traced;
    BrowseNames();
    var (w', r) := Browse.Preview(w, rows, id, user, purpose, limit, offset);
    var (w1, d) := Evaluate(w, user, id, "preview", purpose);
    EvaluateSound(w, user, id, "preview", purpose);
    var result := if d.effect != Allow then "denied" else "allowed";
    var reason := if d.effect != Allow then d.reason else "ok";
    DecideAndEmit(w, w1, d, "browse.preview", result, reason);
    var e := Stamped(w1, user, "browse.preview", id, result, Some(d.decisionId), reason, false);
    assert Traced(w, w', e, user, "browse.preview", id);
  }

  /** Reading a schema leaves an event and its decision when the dataset exists, and no trace when it does not. */
  lemma SchemaAudited(w: World, id: string, user: string, purpose: string)
    requires Governed(w)
    ensures var (w', r) := Browse.Schema(w, id, user, purpose);
            && Governed(w')
            && if id !in w.data then w' == w && r == Err(Browse.DatasetNotFound) else SchemaLeaves(w, w', id, user, r)
  {
    hide Governed, Events, Decisions, Decide, Emit, Evaluate, OneEvent, OneDecision, Masking, Traced;
    if id in w.data {
      BrowseNames();
      var (w', r) := Browse.Schema(w, id, user, purpose);
      var (w1, d) := Evaluate(w, user, id, "schema", purpose);
      EvaluateSound(w, user, id, "schema", purpose);
      var result := if d.effect != Allow then "denied" else "allowed";
      DecideAndEmit(w, w1, d, "browse.schema", result, d.reason);
      var e := Stamped(w1, user, "browse.schema", id, result, Some(d.decisionId), d.reason, false);
      assert Traced(w, w', e, user, "browse.schema", id);
    }
  }

  /**
   Every query leaves exactly one event, saying `allowed` exactly when the query
   succeeded, and naming the decision of its response; at most one decision is made.
   */
  lemma QueryAudited(w: World, req: Orchestrator.Request)
    requires Governed(w) && req.datasetIds != []
    ensures var (w', r) := Orchestrator.Execute(w, req);
            Governed(w') && QueryLeaves(w, w', req, r)
  {
    hide Governed, Events, Decisions, Emit, QueryLeaves, Orchestrator.ExecuteOn, Orchestrator.Reject, PyText.Upper,
      PyText.Lower, PyText.Strip, Orchestrator.MentionsForbidden;
    var w0, id := Tick(w), req.datasetIds[0];
    Ticked(w);
    if PyText.Upper(PyText.Strip(req.language)) != "SQL" {
      RejectAudited(w, w0, req, w.clock, "unsupported_language");
    } else if Orchestrator.MentionsForbidden(PyText.Lower(req.query)) {
      RejectAudited(w, w0, req, w.clock, "forbidden_keyword_detected");
    } else if |req.datasetIds| > 1 {
      RejectAudited(w, w0, req, w.clock, "cross_source_join_not_supported");
    } else if id !in w.data {
      RejectAudited(w, w0, req, w.clock, "dataset_not_found");
    } else {
      ExecuteAudited(w, w0, req, w.clock);
    }
  }

  lemma Ticked(w: World)
    requires Governed(w)
    ensures Governed(Tick(w)) && Events(Tick(w)) == Events(w) && Decisions(Tick(w)) == Decisions(w)
  {
    hide Events, Decisions, CatalogInv, Sound;
    SameEvidence(w, Tick(w));
    TickKeeps(w);
  }

  /** The same world but for its clock. */
  ghost predicate Later(w: World, w0: World) {
    w0.data == w.data && w0.history == w.history && Events(w0) == Events(w) && Decisions(w0) == Decisions(w)
  }

  lemma RejectAudited(w: World, w0: World, req: Orchestrator.Request, requestId: nat, reason: string)
    requires Governed(w0) && req.datasetIds != [] && Later(w, w0)
    ensures var (w', r) := Orchestrator.Reject(w0, req, requestId, reason);
            Governed(w') && QueryLeaves(w, w', req, r)
  {
    hide Governed, Events, Decisions, Emit, Traced;
    BrowseNames();
    var w' := Orchestrator.Reject(w0, req, requestId, reason).0;
    var e := Stamped(w0, req.user, "browse.query", req.datasetIds[0], "rejected", None, reason, false);
    EmitTraced(w, w0, req.user, "browse.query", req.datasetIds[0], "rejected", reason);
    assert Traced(w, w', e, req.user, "browse.query", req.datasetIds[0]);
  }

  /** How a query on an existing dataset ends, given its decision. */
  function Ending(d: PolicyDecision, passed: bool): (string, string, Orchestrator.Status) {
    if d.effect != Allow then ("denied", d.reason, Orchestrator.Denied)
    else if passed then ("allowed", "ok", Orchestrator.Succeeded)
    else ("rejected", "query_safety_validation_failed", Orchestrator.Rejected)
  }

  lemma ExecuteEnds(w: World, req: Orchestrator.Request, requestId: nat, ds: Dataset)
    requires req.datasetIds != []
    ensures var (w', r) := Orchestrator.ExecuteOn(w, req, requestId, ds);
            var (w1, d) := Evaluate(w, req.user, req.datasetIds[0], "query", req.purpose);
            var passed := SqlGate.WarningsOf(req.query, ds.meta.sourceSystem) == [];
            var (result, reason, status) := Ending(d, passed);
            var w2 := if d.effect == Allow && passed then Tick(w1) else w1;
            && w' == Emit(w2, req.user, "browse.query", ds.id, result, Some(d.decisionId), reason, false)
            && r.status == status && r.decisionId == Some(d.decisionId) && r.datasetId == ds.id
            && (status == Orchestrator.Denied ==> r.warnings == [d.reason])
  {
    hide Evaluate, Emit, SqlGate.WarningsOf, Orchestrator.Messages, Orchestrator.RowCount, PyText.Lower,
      PyText.Contains;
  }

  lemma ExecuteAudited(w: World, w0: World, req: Orchestrator.Request, requestId: nat)
    requires Governed(w0) && req.datasetIds != [] && Later(w, w0)
    requires req.datasetIds[0] in w0.data
    ensures var (w', r) := Orchestrator.ExecuteOn(w0, req, requestId, w0.data[req.datasetIds[0]]);
            Governed(w') && QueryLeaves(w, w', req, r)
  {
    hide Governed, Events, Decisions, Emit, Evaluate, Traced, Orchestrator.ExecuteOn, SqlGate.WarningsOf;
    BrowseNames();
    var id := req.datasetIds[0];
    var ds := w0.data[id];
    OwnId(w0, id);
    ExecuteEnds(w0, req, requestId, ds);
    var w' := Orchestrator.ExecuteOn(w0, req, requestId, ds).0;
    var (w1, d) := Evaluate(w0, req.user, id, "query", req.purpose);
    EvaluateSound(w0, req.user, id, "query", req.purpose);
    DecidedFor(w0, req.user, id, "query", req.purpose);
    Ticked(w1);
    var passed := SqlGate.WarningsOf(req.query, ds.meta.sourceSystem) == [];
    var w2 := if d.effect == Allow && passed then Tick(w1) else w1;
    var (result, reason, status) := Ending(d, passed);
    DecideAndEmit(w, w2, d, "browse.query", result, reason);
    var e := Stamped(w2, req.user, "browse.query", id, result, Some(d.decisionId), reason, false);
    assert Traced(w, w', e, req.user, "browse.query", id);
  }

  lemma DecidedFor(w: World, subject: string, resource: string, action: string, purpose: string)
    ensures var d := Evaluate(w, subject, resource, action, purpose).1;
            d.subject == subject && d.resource == resource && d.action == action
  {
  }

  lemma OwnId(w: World, id: string)
    requires Governed(w) && id in w.data
    ensures w.data[id].id == id
  {
    hide Versioned, Sound;
    assert Tracked(w, id);
  }

  // ----- what a catalog change leaves -----

  function NameOf(a: Action): string {
    match a
    case Registering(_) => "dataset.register"
    case Patching(_, _) => "dataset.patch"
    case Publishing(_) => "dataset.publish"
    case Deprecating(_) => "dataset.deprecate"
  }

  /** Publishing what is published already. */
  predicate Repeats(w: World, a: Action) {
    a.Publishing? && a.id in w.data && w.data[a.id].status == "published"
  }

  /** One event by the actor under the given decision; one new history entry unless the change repeats a publication. */
  ghost predicate ChangeLeaves(w: World, w': World, a: Action, change: Change, ds: Dataset) {
    && (exists e ::
          && Events(w') == Events(w) + {e} && e !in Events(w)
          && e.actor == change.actor && e.action == NameOf(a) && e.resource == ds.id
            && e.decisionId == change.decisionId
          && e.result == "success" && e.reason == "ok" && e.noop == Repeats(w, a))
    && Decisions(w') == Decisions(w) && w'.data == w.data[ds.id := ds]
    && if Repeats(w, a) then w'.history == w.history
       else exists s :: Pictures(s, ds) && w'.history == w.history[ds.id := HistoryOf(w, ds.id) + [s]]
  }

  lemma CommitLeaves(w: World, w0: World, ds: Dataset, a: Action, change: Change)
    requires Past(w0) && Later(w, w0) && !Repeats(w, a)
    ensures ChangeLeaves(w, Commit(w0, ds.id, ds, NameOf(a), change), a, change, ds)
  {
    hide Emit, NameOf, MakeSnapshot;
    var w1 := RecordSchemaSnapshot(w0.(data := w0.data[ds.id := ds]), ds);
    assert Events(w1) == Events(w) && Decisions(w1) == Decisions(w) && Past(w1);
    EmitAdds(w1, change.actor, NameOf(a), ds.id, "success", change.decisionId, "ok", false);
    hide Events, Decisions;
    var e := Stamped(w1, change.actor, NameOf(a), ds.id, "success", change.decisionId, "ok", false);
    assert Events(Commit(w0, ds.id, ds, NameOf(a), change)) == Events(w) + {e};
    SnapshotPictures(ds, w0.clock);
    assert w1.history == w.history[ds.id := HistoryOf(w, ds.id) + [MakeSnapshot(ds, w0.clock)]];
  }

  lemma RepeatLeaves(w: World, a: Action, change: Change, ds: Dataset)
    requires Past(w) && Repeats(w, a) && ds.id in w.data && w.data[ds.id] == ds
    ensures ChangeLeaves(w, Emit(w, change.actor, NameOf(a), ds.id, "success", change.decisionId, "ok", true), a,
                         change, ds)
  {
    hide Emit, NameOf, Events, Decisions;
    EmitAdds(w, change.actor, NameOf(a), ds.id, "success", change.decisionId, "ok", true);
    var w' := Emit(w, change.actor, NameOf(a), ds.id, "success", change.decisionId, "ok", true);
    var e := Stamped(w, change.actor, NameOf(a), ds.id, "success", change.decisionId, "ok", true);
    assert Events(w') == Events(w) + {e};
  }

  /** A refused change leaves no trace; a successful one leaves its event and its history entry. */
  lemma ActAudited(w: World, a: Action, change: Change)
    requires Governed(w)
    ensures var (w', r) := Act(w, a, change);
            Governed(w') && (r.Err? <==> Refused(w, a))
            && if r.Err? then w' == w else ChangeLeaves(w, w', a, change, r.value)
  {
    hide Sound, Commit, Emit, CatalogInv, Versions.Bump, Patched, AssignedId, MetadataComplete, ScoresInRange,
      FilledAll, Restated, ChangeLeaves, Events, Decisions, Refused;
    ActSound(w, a, change);
    ActOutcome(w, a, change);
    Ticked(w);
    assert Past(w) && Past(Tick(w)) by { SoundIsPast(w); SoundIsPast(Tick(w)); }
    var (w', r) := Act(w, a, change);
    if r.Ok? {
      if !a.Registering? { TrackedBumps(w, a.id); }
      ActCommits(w, a, change);
      if Repeats(w, a) { RepeatLeaves(w, a, change, r.value); } else { CommitLeaves(w, Tick(w), r.value, a, change); }
    }
  }

  lemma ActCommits(w: World, a: Action, change: Change)
    requires Act(w, a, change).1.Ok? && (!a.Registering? ==> a.id in w.data && w.data[a.id].id == a.id)
    ensures var (w', r) := Act(w, a, change);
            if Repeats(w, a) then
              && r.value == w.data[a.id]
              && w' == Emit(w, change.actor, NameOf(a), a.id, "success", change.decisionId, "ok", true)
            else w' == Commit(Tick(w), r.value.id, r.value, NameOf(a), change)
  {
    hide Commit, Emit, Versions.Bump, Patched, AssignedId, MetadataComplete, ScoresInRange, FilledAll;
  }

  lemma SoundIsPast(w: World)
    requires Sound(w)
    ensures Past(w)
  {
  }

  // ----- whole runs -----

  lemma PerformKeeps(w: World, c: Call)
    requires Governed(w)
    ensures Governed(Perform(w, c))
  {
    hide Governed, Browse.Preview, Browse.Schema, Orchestrator.Execute, Act, Evaluate;
    match c
    case Changing(step, change) => ActSound(w, step, change);
    case Evaluating(subject, resource, action, purpose) => EvaluateSound(w, subject, resource, action, purpose);
    case Previewing(rows, id, user, purpose, limit, offset) =>
      PreviewAudited(w, rows, id, user, purpose, limit, offset);
    case ReadingSchema(id, user, purpose) => SchemaAudited(w, id, user, purpose);
    case Executing(request) => if request.datasetIds != [] { QueryAudited(w, request); }
  }

  /** Every run keeps catalog and evidence as they should be. */
  lemma {:induction false} RunKeeps(w: World, calls: seq<Call>)
    requires Governed(w)
    ensures Governed(Run(w, calls))
    decreases |calls|
  {
    hide Governed, Perform;
    if calls != [] {
      PerformKeeps(w, calls[0]);
      RunKeeps(Perform(w, calls[0]), calls[1..]);
    }
  }

  /** The seeded catalog, with no evidence store or an empty one, is a start of runs. */
  lemma SeededGoverned(w: World)
    requires Seeded(w) && (w.store.Some? ==> w.store.value == Tables([], []))
    ensures Governed(w)
  {
    hide Tracked;
    LoadedInv(w);
    assert w.auditLog == [] by { AuditTrail.LoggedIsEvidence(w); }
    assert w.decisionLog == [] by { DecidedIsEvidence(w); }
  }

  lemma DecidedIsEvidence(w: World)
    ensures w.decisionLog != [] ==> Decisions(w) != {}
  {
    if w.decisionLog != [] { assert w.decisionLog[0] in Decisions(w); }
  }

  // ----- histories and audit log over runs -----

  lemma EmitTrail(w: World, actor: string, browse: string, resource: string, result: string, decisionId: Option<nat>,
                  reason: string, seeded: set<string>)
    requires AuditTrail.Trail(w, seeded) && "browse." <= browse
    ensures AuditTrail.Trail(Emit(w, actor, browse, resource, result, decisionId, reason, false), seeded)
  {
    var e := Stamped(w, actor, browse, resource, result, decisionId, reason, false);
    var w' := Emit(w, actor, browse, resource, result, decisionId, reason, false);
    assert w'.auditLog == w.auditLog + [e] && w'.history == w.history && w'.store.None?;
    assert browse[0] == 'b';
    hide AuditTrail.Paired, AuditTrail.Changes, Emit;
    AuditTrail.OtherEvent(w, w', seeded, e);
  }

  lemma EvaluateTrail(w: World, subject: string, resource: string, action: string, purpose: string, seeded: set<string>)
    requires AuditTrail.Trail(w, seeded)
    ensures AuditTrail.Trail(Evaluate(w, subject, resource, action, purpose).0, seeded)
  {
    hide DecisionOf;
    var w' := Evaluate(w, subject, resource, action, purpose).0;
    assert w'.history == w.history && w'.auditLog == w.auditLog && w'.store.None?;
    hide AuditTrail.Paired, AuditTrail.Changes, Evaluate;
    forall id ensures AuditTrail.Paired(HistoryOf(w', id), AuditTrail.Changes(w'.auditLog, id),
                                        AuditTrail.Seeds(seeded, id)) {
      assert HistoryOf(w', id) == HistoryOf(w, id);
    }
  }

  lemma BrowsePrefixes()
    ensures "browse." <= "browse.preview" && "browse." <= "browse.schema" && "browse." <= "browse.query"
  {
  }

  lemma PreviewTrail(w: World, rows: seq<Browse.Row>, id: string, user: string, purpose: string, limit: int,
                     offset: int, seeded: set<string>)
    requires AuditTrail.Trail(w, seeded)
    ensures AuditTrail.Trail(Browse.Preview(w, rows, id, user, purpose, limit, offset).0, seeded)
  {
    hide AuditTrail.Trail, Evaluate, Emit, Browse.PageOf;
    BrowsePrefixes();
    EvaluateTrail(w, user, id, "preview", purpose, seeded);
    var (w1, d) := Evaluate(w, user, id, "preview", purpose);
    EmitTrail(w, user, "browse.preview", id, "denied", None, "dataset_not_found", seeded);
    EmitTrail(w1, user, "browse.preview", id, "denied", Some(d.decisionId), d.reason, seeded);
    EmitTrail(w1, user, "browse.preview", id, "allowed", Some(d.decisionId), "ok", seeded);
  }

  lemma SchemaTrail(w: World, id: string, user: string, purpose: string, seeded: set<string>)
    requires AuditTrail.Trail(w, seeded)
    ensures AuditTrail.Trail(Browse.Schema(w, id, user, purpose).0, seeded)
  {
    hide AuditTrail.Trail, Evaluate, Emit, Masking;
    BrowsePrefixes();
    EvaluateTrail(w, user, id, "schema", purpose, seeded);
    var (w1, d) := Evaluate(w, user, id, "schema", purpose);
    EmitTrail(w1, user, "browse.schema", id, "denied", Some(d.decisionId), d.reason, seeded);
    EmitTrail(w1, user, "browse.schema", id, "allowed", Some(d.decisionId), d.reason, seeded);
  }

  lemma RejectTrail(w: World, req: Orchestrator.Request, requestId: nat, reason: string, seeded: set<string>)
    requires AuditTrail.Trail(w, seeded) && req.datasetIds != []
    ensures AuditTrail.Trail(Orchestrator.Reject(w, req, requestId, reason).0, seeded)
  {
    hide AuditTrail.Trail, Emit;
    BrowsePrefixes();
    EmitTrail(w, req.user, "browse.query", req.datasetIds[0], "rejected", None, reason, seeded);
  }

  lemma ExecuteOnTrail(w: World, req: Orchestrator.Request, requestId: nat, ds: Dataset, seeded: set<string>)
    requires AuditTrail.Trail(w, seeded) && req.datasetIds != []
    ensures AuditTrail.Trail(Orchestrator.ExecuteOn(w, req, requestId, ds).0, seeded)
  {
    hide AuditTrail.Trail, Evaluate, Emit, SqlGate.WarningsOf, Orchestrator.Messages, Orchestrator.Answered;
    BrowsePrefixes();
    EvaluateTrail(w, req.user, req.datasetIds[0], "query", req.purpose, seeded);
    var (w1, d) := Evaluate(w, req.user, req.datasetIds[0], "query", req.purpose);
    AuditTrail.TickTrail(w1, seeded);
    EmitTrail(w1, req.user, "browse.query", ds.id, "denied", Some(d.decisionId), d.reason, seeded);
    EmitTrail(w1, req.user, "browse.query", ds.id, "rejected", Some(d.decisionId), "query_safety_validation_failed",
              seeded);
    EmitTrail(Tick(w1), req.user, "browse.query", ds.id, "allowed", Some(d.decisionId), "ok", seeded);
  }

  lemma QueryTrail(w: World, req: Orchestrator.Request, seeded: set<string>)
    requires AuditTrail.Trail(w, seeded) && req.datasetIds != []
    ensures AuditTrail.Trail(Orchestrator.Execute(w, req).0, seeded)
  {
    hide AuditTrail.Trail, Orchestrator.Reject, Orchestrator.ExecuteOn, PyText.Upper, PyText.Lower, PyText.Strip,
      Orchestrator.MentionsForbidden;
    AuditTrail.TickTrail(w, seeded);
    RejectTrail(Tick(w), req, w.clock, "unsupported_language", seeded);
    RejectTrail(Tick(w), req, w.clock, "forbidden_keyword_detected", seeded);
    RejectTrail(Tick(w), req, w.clock, "cross_source_join_not_supported", seeded);
    RejectTrail(Tick(w), req, w.clock, "dataset_not_found", seeded);
    if req.datasetIds[0] in w.data { ExecuteOnTrail(Tick(w), req, w.clock, w.data[req.datasetIds[0]], seeded); }
  }

  lemma PerformTrail(w: World, c: Call, seeded: set<string>)
    requires Governed(w) && AuditTrail.Trail(w, seeded)
    ensures AuditTrail.Trail(Perform(w, c), seeded)
  {
    hide AuditTrail.Trail, Sound, CatalogInv, Browse.Preview, Browse.Schema, Orchestrator.Execute, Act, Evaluate;
    match c
    case Changing(step, change) => AuditTrail.ActKeepsTrail(w, step, change, seeded);
    case Evaluating(subject, resource, action, purpose) => EvaluateTrail(w, subject, resource, action, purpose, seeded);
    case Previewing(rows, id, user, purpose, limit, offset) =>
      PreviewTrail(w, rows, id, user, purpose, limit, offset, seeded);
    case ReadingSchema(id, user, purpose) => SchemaTrail(w, id, user, purpose, seeded);
    case Executing(request) => if request.datasetIds != [] { QueryTrail(w, request, seeded); }
  }

  /** Without a store, whatever is called in between, each history and its change events stay paired. */
  lemma {:induction false} RunKeepsTrail(w: World, calls: seq<Call>, seeded: set<string>)
    requires Governed(w) && AuditTrail.Trail(w, seeded)
    ensures AuditTrail.Trail(Run(w, calls), seeded)
    decreases |calls|
  {
    hide Governed, AuditTrail.Trail, Perform;
    if calls != [] {
      PerformKeeps(w, calls[0]);
      PerformTrail(w, calls[0], seeded);
      RunKeepsTrail(Perform(w, calls[0]), calls[1..], seeded);
    }
  }

  /**
   In every world a seeded portal can reach: the catalog agrees with its
   histories, every browse event is backed by its decision, the listings of events
   and of decisions are the newest of what is recorded,
     and without a store each history is paired with its audit events.
   */
  lemma ReachableWorlds(start: World, calls: seq<Call>, limit: int, resource: Option<string>)
    requires Seeded(start) && (start.store.Some? ==> start.store.value == Tables([], []))
    ensures var w := Run(start, calls);
            && CatalogInv(w)
            && (forall e :: e in Events(w) && IsBrowse(e) ==> Backed(w, e)) && UniqueDecisions(w)
            && Evidence.IsListing(w, limit, resource, ListAuditEvents(w, limit, resource))
            && DecisionLog.InOrder(w)
            && DecisionLog.IsListing(w, limit, resource, DecisionLog.ListDecisions(w, limit, resource))
            && (start.store.None? ==> AuditTrail.Trail(w, start.data.Keys))
  {
    hide Run, CatalogInv, Seeded, AuditTrail.Trail, DecisionLog.InOrder, Listable, Evidence.IsListing, ListAuditEvents,
      DecisionLog.IsListing, DecisionLog.ListDecisions, IsBrowse, Events, Backed;
    SeededGoverned(start);
    RunKeeps(start, calls);
    var w := Run(start, calls);
    ListingExactly(w, limit, resource);
    DecisionLog.ListDecisionsExact(w, limit, resource);
    if start.store.None? {
      AuditTrail.SeededTrail(start);
      RunKeepsTrail(start, calls, start.data.Keys);
    }
  }

  // ----- published datasets over runs -----

  /** A call that blanks a required field of a published dataset, and is not refused. */
  ghost predicate Blanks(w: World, c: Call) {
    c.Changing? && BlanksPublished(w, c.step) && !Refused(w, c.step)
  }

  lemma PerformKeepsComplete(w: World, c: Call)
    requires Governed(w) && PublishedComplete(w)
    ensures PublishedComplete(Perform(w, c)) <==> !Blanks(w, c)
  {
    hide CatalogInv, Sound, PublishedComplete, Act, Evaluate, Browse.Preview, Browse.Schema, Orchestrator.Execute,
      BlanksPublished, Refused, QueryLeaves, SchemaLeaves, PreviewLeaves, Events, Decisions;
    match c
    case Changing(step, change) =>
      ActKeepsComplete(w, step, change);
      ActOutcome(w, step, change);
    case Evaluating(subject, resource, action, purpose) =>
      EvaluateSound(w, subject, resource, action, purpose);
      SameData(w, Perform(w, c));
    case Previewing(rows, id, user, purpose, limit, offset) =>
      PreviewAudited(w, rows, id, user, purpose, limit, offset);
      PreviewData(w, rows, id, user, purpose, limit, offset);
      SameData(w, Perform(w, c));
    case ReadingSchema(id, user, purpose) =>
      SchemaAudited(w, id, user, purpose);
      SchemaData(w, id, user, purpose);
      SameData(w, Perform(w, c));
    case Executing(request) =>
      if request.datasetIds != [] {
        QueryAudited(w, request);
        QueryData(w, request);
      }
      SameData(w, Perform(w, c));
  }

  lemma SameData(w: World, w': World)
    requires w'.data == w.data
    ensures PublishedComplete(w') <==> PublishedComplete(w)
  {
  }

  lemma PreviewData(w: World, rows: seq<Browse.Row>, id: string, user: string, purpose: string, limit: int, offset: int)
    requires Governed(w)
    ensures Browse.Preview(w, rows, id, user, purpose, limit, offset).0.data == w.data
  {
    hide Governed, Browse.Preview, Events, Decisions, OneEvent, OneDecision;
    PreviewAudited(w, rows, id, user, purpose, limit, offset);
  }

  lemma SchemaData(w: World, id: string, user: string, purpose: string)
    requires Governed(w)
    ensures Browse.Schema(w, id, user, purpose).0.data == w.data
  {
    hide Governed, Browse.Schema, Events, Decisions, OneEvent, OneDecision;
    SchemaAudited(w, id, user, purpose);
  }

  lemma QueryData(w: World, req: Orchestrator.Request)
    requires Governed(w) && req.datasetIds != []
    ensures Orchestrator.Execute(w, req).0.data == w.data
  {
    hide Governed, Orchestrator.Execute, Events, Decisions, OneEvent, OneDecision;
    QueryAudited(w, req);
  }

  /** Before the run and after each of its calls every published dataset is complete. */
  ghost predicate AlwaysComplete(w: World, calls: seq<Call>)
    decreases |calls|
  {
    PublishedComplete(w) && (calls != [] ==> AlwaysComplete(Perform(w, calls[0]), calls[1..]))
  }

  ghost predicate BlanksSomewhere(w: World, calls: seq<Call>)
    decreases |calls|
  {
    calls != [] && (Blanks(w, calls[0]) || BlanksSomewhere(Perform(w, calls[0]), calls[1..]))
  }

  /** Published datasets stay complete through a run exactly when no call blanks a required field of one. */
  lemma {:induction false} RunKeepsComplete(w: World, calls: seq<Call>)
    requires Governed(w) && PublishedComplete(w)
    ensures AlwaysComplete(w, calls) <==> !BlanksSomewhere(w, calls)
    decreases |calls|
  {
    hide Governed, PublishedComplete, Perform, Blanks;
    if calls != [] {
      PerformKeeps(w, calls[0]);
      PerformKeepsComplete(w, calls[0]);
      if PublishedComplete(Perform(w, calls[0])) { RunKeepsComplete(Perform(w, calls[0]), calls[1..]); }
    }
  }

  /** In particular when no patch of the run blanks a required field. */
  lemma {:induction false} HarmlessPatches(w: World, calls: seq<Call>)
    requires forall c :: c in calls && c.Changing? && c.step.Patching? ==> !GivesBlank(c.step.patch)
    ensures !BlanksSomewhere(w, calls)
    decreases |calls|
  {
    hide GivesBlank, Perform, Refused;
    if calls != [] {
      assert calls[0] in calls;
      HarmlessPatches(Perform(w, calls[0]), calls[1..]);
    }
  }

  // ----- restarting over an existing store -----

  /** The state of a process before it loads its catalog. */
  function Booting(store: Option<Tables>, now: nat): World {
    World(map[], map[], [], [], store, now)
  }

  /** What a governed portal leaves in its store is a sound start for the next process. */
  lemma RestartSound(w: World)
    requires Sound(w) && w.store.Some?
    ensures Sound(Booting(w.store, w.clock))
  {
    var w0 := Booting(w.store, w.clock);
    assert Decisions(w0) == Decisions(w) && Events(w0) <= Events(w);
    hide Events, Decisions, IsBrowse, Backs;
    AgreeSubset(Events(w0), Events(w));
    forall e | e in Events(w0) && IsBrowse(e) ensures Backed(w0, e) { assert Backed(w, e); }
  }

  lemma EmptySound(store: Option<Tables>, now: nat)
    requires store.Some? ==> store.value == Tables([], [])
    ensures Sound(Booting(store, now))
  {
  }

  /** Loading a catalog over sound evidence gives a governed portal. */
  lemma LoadedGoverned(w0: World, w: World)
    requires Sound(w0) && Loaded(w) && w0.clock <= w.clock
    requires w.auditLog == w0.auditLog && w.decisionLog == w0.decisionLog && w.store == w0.store
    ensures Governed(w)
  {
    hide Sound, Loaded, CatalogInv;
    LoadedInv(w);
    SameEvidence(w0, w);
  }
}
