/**
 Schema histories and the audit log tell the same story when no evidence store is
 configured: the entries of a dataset's history, beyond the seeded one, are its
 changes in the log, one for one and in their order.
 */
module AuditTrail {
  import opened Records
  import opened Catalog
  import Evidence

  predicate CatalogAction(action: string) {
    action == "dataset.register" || action == "dataset.patch" || action == "dataset.publish"
      || action == "dataset.deprecate"
  }

  predicate IsChange(e: AuditEvent, id: string) {
    CatalogAction(e.action) && !e.noop && e.resource == id
  }

  /** The events that record a change of one dataset. */
  function Changes(events: seq<AuditEvent>, id: string): seq<AuditEvent> {
    if events == [] then []
    else var n := |events| - 1; Changes(events[..n], id) + (if IsChange(events[n], id) then [events[n]] else [])
  }

  /** The event is the one written with entry `j`: stamped next, and its action fits the entry's status. */
  ghost predicate Explains(h: seq<Snapshot>, j: nat, e: AuditEvent)
    requires j < |h|
  {
    && e.createdAt == h[j].snapshotAt + 1 && e.result == "success"
    && (e.action == "dataset.register" <==> j == 0)
    && (e.action == "dataset.register" ==> h[j].status == "registered")
    && (j > 0 && e.action == "dataset.patch" ==> h[j].status == h[j - 1].status)
    && (j > 0 && e.action == "dataset.publish" ==> h[j].status == "published" != h[j - 1].status)
    && (j > 0 && e.action == "dataset.deprecate" ==> h[j].status == "deprecated")
  }

  /** Entries beyond the first `seeds` correspond to the events one to one, in order. */
  ghost predicate Paired(h: seq<Snapshot>, events: seq<AuditEvent>, seeds: nat) {
    |h| == |events| + seeds && forall i :: 0 <= i < |events| ==> Explains(h, i + seeds, events[i])
  }

  function Seeds(seeded: set<string>, id: string): nat {
    if id in seeded then 1 else 0
  }

  ghost predicate Trail(w: World, seeded: set<string>) {
    w.store.None? && forall id :: Paired(HistoryOf(w, id), Changes(w.auditLog, id), Seeds(seeded, id))
  }

  lemma ChangesNext(events: seq<AuditEvent>, e: AuditEvent, id: string)
    ensures Changes(events + [e], id) == Changes(events, id) + (if IsChange(e, id) then [e] else [])
  {
    assert (events + [e])[..|events|] == events;
  }

  lemma PairedNext(h: seq<Snapshot>, events: seq<AuditEvent>, seeds: nat, s: Snapshot, e: AuditEvent)
    requires Paired(h, events, seeds) && Explains(h + [s], |h|, e)
    ensures Paired(h + [s], events + [e], seeds)
  {
    var h', events' := h + [s], events + [e];
    forall i | 0 <= i < |events'| ensures Explains(h', i + seeds, events'[i]) {
      if i < |events| {
        assert Explains(h, i + seeds, events[i]);
        assert h'[i + seeds] == h[i + seeds];
        assert i + seeds > 0 ==> h'[i + seeds - 1] == h[i + seeds - 1];
      }
    }
  }

  /** Another event leaves the trail alone. */
  lemma OtherEvent(w: World, w': World, seeded: set<string>, e: AuditEvent)
    requires Trail(w, seeded) && w'.history == w.history && w'.store.None? && w'.auditLog == w.auditLog + [e]
    requires !CatalogAction(e.action) || e.noop
    ensures Trail(w', seeded)
  {
    hide CatalogAction, Changes, Paired;
    forall id ensures Paired(HistoryOf(w', id), Changes(w'.auditLog, id), Seeds(seeded, id)) {
      ChangesNext(w.auditLog, e, id);
      assert HistoryOf(w', id) == HistoryOf(w, id);
      assert Changes(w.auditLog, id) + [] == Changes(w.auditLog, id);
    }
  }

  /** Committing a change extends history and trail together. */
  lemma CommitTrail(w: World, ds: Dataset, action: string, change: Change, seeded: set<string>)
    requires Trail(w, seeded) && CatalogAction(action)
    requires var e := AuditEvent(w.clock + 1, change.actor, action, ds.id, "success", change.decisionId, "ok", false,
                                 w.clock + 1);
             var h := HistoryOf(w, ds.id);
             Explains(h + [MakeSnapshot(ds, w.clock)], |h|, e)
    ensures Trail(Commit(w, ds.id, ds, action, change), seeded)
  {
    hide CatalogAction, Changes, Paired, Commit, Explains, MakeSnapshot;
    var s := MakeSnapshot(ds, w.clock);
    var e := AuditEvent(w.clock + 1, change.actor, action, ds.id, "success", change.decisionId, "ok", false,
                        w.clock + 1);
    var w' := Commit(w, ds.id, ds, action, change);
    CommitLogs(w, ds, action, change);
    forall id ensures Paired(HistoryOf(w', id), Changes(w'.auditLog, id), Seeds(seeded, id)) {
      ChangesNext(w.auditLog, e, id);
      assert Changes(w.auditLog, id) + [] == Changes(w.auditLog, id);
      assert id != ds.id ==> HistoryOf(w', id) == HistoryOf(w, id);
      if id == ds.id { PairedNext(HistoryOf(w, id), Changes(w.auditLog, id), Seeds(seeded, id), s, e); }
    }
  }

  lemma CommitLogs(w: World, ds: Dataset, action: string, change: Change)
    requires w.store.None?
    ensures var w' := Commit(w, ds.id, ds, action, change);
            var e := AuditEvent(w.clock + 1, change.actor, action, ds.id, "success", change.decisionId, "ok", false,
                                w.clock + 1);
            && w'.auditLog == w.auditLog + [e] && w'.store.None?
            && w'.history == w.history[ds.id := HistoryOf(w, ds.id) + [MakeSnapshot(ds, w.clock)]]
  {
    hide MakeSnapshot;
  }

  lemma TickTrail(w: World, seeded: set<string>)
    requires Trail(w, seeded)
    ensures Trail(Tick(w), seeded)
  {
    hide Paired, Changes;
    forall id ensures Paired(HistoryOf(Tick(w), id), Changes(w.auditLog, id), Seeds(seeded, id)) {
      assert HistoryOf(Tick(w), id) == HistoryOf(w, id);
    }
  }

  lemma LiveStatus(w: World, id: string)
    requires CatalogInv(w) && id in w.data
    ensures var h := HistoryOf(w, id); h != [] && h[|h| - 1].status == w.data[id].status && w.data[id].id == id
  {
    hide Versioned;
    assert Tracked(w, id);
  }

  /** Every catalog operation keeps the trail. */
  lemma ActKeepsTrail(w: World, a: Action, change: Change, seeded: set<string>)
    requires CatalogInv(w) && Trail(w, seeded)
    ensures Trail(Act(w, a, change).0, seeded)
  {
    hide Trail, CatalogInv, Commit, FilledAll, Patched, AssignedId, MetadataComplete, ScoresInRange;
    var (w', r) := Act(w, a, change);
    if r.Ok? {
      TickTrail(w, seeded);
      if a.Registering? {
        Unregistered(w, r.value.id);
        CommitTrail(Tick(w), r.value, "dataset.register", change, seeded);
      } else {
        LiveStatus(w, a.id);
        match a
        case Patching(id, p) => CommitTrail(Tick(w), r.value, "dataset.patch", change, seeded);
        case Publishing(id) =>
          if w.data[id].status == "published" {
            NoopTrail(w, id, change, seeded);
          } else {
            CommitTrail(Tick(w), r.value, "dataset.publish", change, seeded);
          }
        case Deprecating(id) => CommitTrail(Tick(w), r.value, "dataset.deprecate", change, seeded);
      }
    }
  }

  lemma Unregistered(w: World, id: string)
    requires CatalogInv(w) && id !in w.data
    ensures HistoryOf(w, id) == []
  {
  }

  lemma NoopTrail(w: World, id: string, change: Change, seeded: set<string>)
    requires Trail(w, seeded)
    ensures Trail(Evidence.Emit(w, change.actor, "dataset.publish", id, "success", change.decisionId, "ok", true),
                  seeded)
  {
    hide Changes, Paired;
    var e := AuditEvent(w.clock, change.actor, "dataset.publish", id, "success", change.decisionId, "ok", true,
                        w.clock);
    OtherEvent(w, Evidence.Emit(w, change.actor, "dataset.publish", id, "success", change.decisionId, "ok", true),
               seeded, e);
  }

  lemma LoggedIsEvidence(w: World)
    ensures w.auditLog != [] ==> Evidence.Events(w) != {}
  {
    if w.auditLog != [] { assert w.auditLog[0] in Evidence.Events(w); }
  }

  /** A seeded catalog starts with one entry for each dataset and no event. */
  lemma SeededTrail(w: World)
    requires Seeded(w) && w.store.None?
    ensures Trail(w, w.data.Keys)
  {
    LoggedIsEvidence(w);
  }
}
