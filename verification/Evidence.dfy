/** Where decisions and audit events are recorded and how they are listed. */
module Evidence {
  import opened Outcomes
  import opened Records
  import Sorting

  // ----- recording -----

  /** `INSERT OR REPLACE`: the row replaces one with the same id. */
  function PutEvent(rows: seq<AuditEvent>, e: AuditEvent): seq<AuditEvent> {
    WithoutEvent(rows, e.id) + [e]
  }

  function WithoutEvent(rows: seq<AuditEvent>, id: nat): seq<AuditEvent> {
    if rows == [] then []
    else (if rows[0].id == id then [] else [rows[0]]) + WithoutEvent(rows[1..], id)
  }

  function PutDecision(rows: seq<DecisionRow>, r: DecisionRow): seq<DecisionRow> {
    WithoutDecision(rows, r.decision.decisionId) + [r]
  }

  function WithoutDecision(rows: seq<DecisionRow>, id: nat): seq<DecisionRow> {
    if rows == [] then []
    else (if rows[0].decision.decisionId == id then [] else [rows[0]]) + WithoutDecision(rows[1..], id)
  }

  /** The decision goes to the configured store, otherwise to the log. */
  function RecordDecision(w: World, d: PolicyDecision): World {
    if w.store.Some? then
      var rows := PutDecision(w.store.value.decisions, DecisionRow(d, w.clock));
      Tick(w.(store := Some(w.store.value.(decisions := rows))))
    else w.(decisionLog := w.decisionLog + [d])
  }

  /** The event goes to the configured store, otherwise to the catalog's log. */
  function RecordEvent(w: World, e: AuditEvent): World {
    if w.store.Some? then w.(store := Some(w.store.value.(events := PutEvent(w.store.value.events, e))))
    else w.(auditLog := w.auditLog + [e])
  }

  /** Stamp a new event with a fresh id and time, and record it. */
  function Emit(w: World, actor: string, action: string, resource: string, result: string, decisionId: Option<nat>,
                reason: string, noop: bool): World
  {
    RecordEvent(Tick(w), AuditEvent(w.clock, actor, action, resource, result, decisionId, reason, noop, w.clock))
  }

  // ----- listing -----

  predicate Selected(resource: Option<string>, e: AuditEvent) {
    resource.None? || resource.value == "" || e.resource == resource.value
  }

  function Select(events: seq<AuditEvent>, resource: Option<string>): seq<AuditEvent> {
    if events == [] then []
    else (if Selected(resource, events[0]) then [events[0]] else []) + Select(events[1..], resource)
  }

  function CreatedAt(e: AuditEvent): real {
    e.createdAt as real
  }

  /** `LIMIT` of the SQLite store: a negative limit is none. */
  function Limited(rows: seq<AuditEvent>, limit: int): seq<AuditEvent> {
    if limit < 0 then rows else Sorting.Take(rows, limit)
  }

  /** The store's own listing: filter, newest first, limit. */
  function ListEvents(tables: Tables, resource: Option<string>, limit: int): seq<AuditEvent> {
    Limited(Sorting.Sort(Select(tables.events, resource), CreatedAt), limit)
  }

  /** One entry of the dictionary keyed by id: replaced in place or added at the end. */
  function PutById(events: seq<AuditEvent>, e: AuditEvent): seq<AuditEvent> {
    if events == [] then [e]
    else if events[0].id == e.id then [e] + events[1..]
    else [events[0]] + PutById(events[1..], e)
  }

  function MergeById(events: seq<AuditEvent>, more: seq<AuditEvent>): seq<AuditEvent> {
    if more == [] then events else PutById(MergeById(events, more[..|more| - 1]), more[|more| - 1])
  }

  /** The listing over log and store; only the store's newest `limit` rows are fetched before the merge. */
  function ListAuditEvents(w: World, limit: int, resource: Option<string>): seq<AuditEvent> {
    var own := Select(w.auditLog, resource);
    var merged :=
      if w.store.Some? then MergeById(MergeById([], own), ListEvents(w.store.value, resource, limit)) else own;
    Sorting.Take(Sorting.Sort(merged, CreatedAt), limit)
  }

  // ----- recorded evidence as sets -----

  ghost function Events(w: World): set<AuditEvent> {
    (set e | e in w.auditLog) + (if w.store.Some? then set e | e in w.store.value.events else {})
  }

  ghost function Decisions(w: World): set<PolicyDecision> {
    (set d | d in w.decisionLog) + (if w.store.Some? then set r | r in w.store.value.decisions :: r.decision else {})
  }

  /** Every recorded id and time lies in the past. */
  ghost predicate Past(w: World) {
    && (forall e :: e in Events(w) ==> e.id < w.clock && e.createdAt < w.clock)
    && (forall d :: d in Decisions(w) ==> d.decisionId < w.clock)
  }

  lemma {:induction false} NoneToReplace(rows: seq<AuditEvent>, id: nat)
    requires forall e :: e in rows ==> e.id != id
    ensures WithoutEvent(rows, id) == rows
  {
    if rows != [] {
      assert rows[0] in rows;
      NoneToReplace(rows[1..], id);
    }
  }

  lemma {:induction false} NoDecisionToReplace(rows: seq<DecisionRow>, id: nat)
    requires forall r :: r in rows ==> r.decision.decisionId != id
    ensures WithoutDecision(rows, id) == rows
  {
    if rows != [] {
      assert rows[0] in rows;
      NoDecisionToReplace(rows[1..], id);
    }
  }

  /** A row replaces the one with its id, and no other. */
  lemma {:induction false} WithoutExact(rows: seq<AuditEvent>, id: nat, e: AuditEvent)
    ensures e in WithoutEvent(rows, id) <==> e in rows && e.id != id
  {
    if rows != [] { WithoutExact(rows[1..], id, e); }
  }

  lemma {:induction false} WithoutDecisionExact(rows: seq<DecisionRow>, id: nat, r: DecisionRow)
    ensures r in WithoutDecision(rows, id) <==> r in rows && r.decision.decisionId != id
  {
    if rows != [] { WithoutDecisionExact(rows[1..], id, r); }
  }

  lemma PutExactly(tables: Tables, e: AuditEvent, r: DecisionRow)
    ensures forall x :: x in PutEvent(tables.events, e) <==> x == e || (x in tables.events && x.id != e.id)
    ensures forall x :: x in PutDecision(tables.decisions, r) <==>
              x == r || (x in tables.decisions && x.decision.decisionId != r.decision.decisionId)
  {
    forall x { WithoutExact(tables.events, e.id, x); }
    forall x { WithoutDecisionExact(tables.decisions, r.decision.decisionId, x); }
  }

  /** Recording a decision with a fresh id adds it to the evidence and removes nothing. */
  lemma RecordDecisionAdds(w: World, d: PolicyDecision)
    requires Past(w) && forall p :: p in Decisions(w) ==> p.decisionId != d.decisionId
    ensures Decisions(RecordDecision(w, d)) == Decisions(w) + {d}
    ensures Events(RecordDecision(w, d)) == Events(w)
    ensures RecordDecision(w, d).decisionLog == if w.store.Some? then w.decisionLog else w.decisionLog + [d]
  {
    if w.store.Some? {
      var rows := w.store.value.decisions;
      forall r | r in rows ensures r.decision.decisionId != d.decisionId { assert r.decision in Decisions(w); }
      NoDecisionToReplace(rows, d.decisionId);
      var rows' := rows + [DecisionRow(d, w.clock)];
      assert RecordDecision(w, d).store.value.decisions == rows';
      assert rows'[|rows|] == DecisionRow(d, w.clock);
      forall p ensures p in Decisions(RecordDecision(w, d)) <==> p in Decisions(w) + {d} {
        assert forall r :: r in rows' <==> r in rows || r == DecisionRow(d, w.clock);
      }
    }
  }

  /** Recording an event with a fresh id adds it to the evidence and removes nothing. */
  lemma RecordEventAdds(w: World, e: AuditEvent)
    requires forall f :: f in Events(w) ==> f.id != e.id
    ensures Events(RecordEvent(w, e)) == Events(w) + {e}
    ensures Decisions(RecordEvent(w, e)) == Decisions(w)
    ensures RecordEvent(w, e).auditLog == if w.store.Some? then w.auditLog else w.auditLog + [e]
  {
    if w.store.Some? {
      var rows := w.store.value.events;
      forall r | r in rows ensures r.id != e.id { assert r in Events(w); }
      NoneToReplace(rows, e.id);
    }
  }

  // ----- limit push-down -----

  lemma {:induction false} SelectExact(events: seq<AuditEvent>, resource: Option<string>, e: AuditEvent)
    ensures e in Select(events, resource) <==> e in events && Selected(resource, e)
  {
    if events != [] { SelectExact(events[1..], resource, e); }
  }

  ghost predicate DistinctIds(events: seq<AuditEvent>) {
    forall i, j :: 0 <= i < j < |events| ==> events[i].id != events[j].id
  }

  lemma {:induction false} SelectDistinct(events: seq<AuditEvent>, resource: Option<string>)
    requires DistinctIds(events)
    ensures DistinctIds(Select(events, resource))
  {
    if events != [] {
      var rest := Select(events[1..], resource);
      SelectDistinct(events[1..], resource);
      forall e | e in rest ensures e.id != events[0].id {
        SelectExact(events[1..], resource, e);
        var k :| 0 <= k < |events[1..]| && events[1..][k] == e;
        assert events[k + 1] == e;
      }
    }
  }

  /** Entries of the dictionary after one assignment. */
  lemma {:induction false} PutByIdExact(events: seq<AuditEvent>, e: AuditEvent)
    requires DistinctIds(events)
    ensures DistinctIds(PutById(events, e))
    ensures forall x :: x in PutById(events, e) <==> x == e || (x in events && x.id != e.id)
  {
    if events == [] {
    } else if events[0].id == e.id {
      var r := [e] + events[1..];
      assert forall i :: 1 <= i < |r| ==> r[i] == events[i];
    } else {
      var rest := events[1..];
      PutByIdExact(rest, e);
      var put := PutById(rest, e);
      forall x | x in put ensures x.id != events[0].id {
        if x != e {
          var k :| 0 <= k < |rest| && rest[k] == x;
          assert events[k + 1] == x;
        }
      }
      forall x ensures x in PutById(events, e) <==> x == e || (x in events && x.id != e.id) {
        assert x in events <==> x == events[0] || x in rest;
      }
    }
  }

  /** Events with the same id are the same event. */
  ghost predicate Agree(events: set<AuditEvent>) {
    forall x, y :: x in events && y in events && x.id == y.id ==> x == y
  }

  lemma {:induction false} MergeExact(events: seq<AuditEvent>, more: seq<AuditEvent>)
    requires DistinctIds(events) && Agree((set e | e in events) + (set e | e in more))
    ensures DistinctIds(MergeById(events, more))
    ensures forall x :: x in MergeById(events, more) <==> x in events || x in more
  {
    if more != [] {
      var n := |more| - 1;
      var front, e := more[..n], more[n];
      assert more == front + [e];
      MergeExact(events, front);
      PutByIdExact(MergeById(events, front), e);
      forall x ensures x in MergeById(events, more) <==> x in events || x in more {
        if x in MergeById(events, front) && x.id == e.id {
          assert x in (set f | f in events) + (set f | f in more) && e in (set f | f in events) + (set f | f in more);
        }
      }
    }
  }

  /** The worlds a listing is exact in: ids identify events, times are distinct, nothing is listed twice. */
  ghost predicate Listable(w: World) {
    && Agree(Events(w)) && Sorting.Injective(Events(w), CreatedAt)
    && DistinctIds(w.auditLog) && (w.store.Some? ==> DistinctIds(w.store.value.events))
  }

  /** The listing without any limit. */
  function FullListing(w: World, resource: Option<string>): seq<AuditEvent> {
    var own := Select(w.auditLog, resource);
    Sorting.Sort(if w.store.Some? then MergeById(MergeById([], own), Select(w.store.value.events, resource)) else own,
                 CreatedAt)
  }

  lemma AgreeSubset(s: set<AuditEvent>, t: set<AuditEvent>)
    requires s <= t
    ensures Agree(t) ==> Agree(s)
    ensures Sorting.Injective(t, CreatedAt) ==> Sorting.Injective(s, CreatedAt)
  {
  }

  /** A list of distinct events sorts strictly, without gain or loss. */
  lemma SortsStrictly(w: World, events: seq<AuditEvent>)
    requires Listable(w) && DistinctIds(events) && forall e :: e in events ==> e in Events(w)
    ensures Sorting.Strict(Sorting.Sort(events, CreatedAt), CreatedAt)
    ensures forall e :: e in Sorting.Sort(events, CreatedAt) <==> e in events
  {
    assert Sorting.Distinct(events);
    AgreeSubset(Sorting.Elements(events), Events(w));
    hide Events, DistinctIds;
    Sorting.SortStrict(events, CreatedAt);
    Sorting.SortMembers(events, CreatedAt);
  }

  lemma OwnEvents(w: World, resource: Option<string>)
    requires Listable(w)
    ensures var own := Select(w.auditLog, resource);
            && DistinctIds(own) && DistinctIds(MergeById([], own))
            && (forall e :: e in own <==> e in w.auditLog && Selected(resource, e))
            && (forall e :: e in MergeById([], own) <==> e in own)
            && (forall e :: e in own ==> e in Events(w))
  {
    var own := Select(w.auditLog, resource);
    SelectDistinct(w.auditLog, resource);
    forall e ensures e in own <==> e in w.auditLog && Selected(resource, e) {
      SelectExact(w.auditLog, resource, e);
    }
    AgreeSubset((set e | e in own), Events(w));
    hide Events, Select;
    assert (set e: AuditEvent | e in []) + (set e | e in own) == set e | e in own;
    MergeExact([], own);
  }

  lemma StoredEvents(w: World, resource: Option<string>)
    requires Listable(w) && w.store.Some?
    ensures var rows := Select(w.store.value.events, resource);
            && DistinctIds(rows)
            && (forall e :: e in rows <==> e in w.store.value.events && Selected(resource, e))
            && (forall e :: e in rows ==> e in Events(w))
  {
    var rows := Select(w.store.value.events, resource);
    SelectDistinct(w.store.value.events, resource);
    forall e ensures e in rows <==> e in w.store.value.events && Selected(resource, e) {
      SelectExact(w.store.value.events, resource, e);
    }
  }

  /** Merging any of the store's rows into the log's keeps both, each once. */
  lemma MergedEvents(w: World, own: seq<AuditEvent>, rows: seq<AuditEvent>)
    requires Listable(w) && DistinctIds(own)
    requires (forall e :: e in own ==> e in Events(w)) && (forall e :: e in rows ==> e in Events(w))
    ensures DistinctIds(MergeById(own, rows))
    ensures forall e :: e in MergeById(own, rows) <==> e in own || e in rows
    ensures forall e :: e in MergeById(own, rows) ==> e in Events(w)
  {
    AgreeSubset((set e | e in own) + (set e | e in rows), Events(w));
    hide Events, DistinctIds, Agree, MergeById;
    MergeExact(own, rows);
  }

  lemma InLimited(xs: seq<AuditEvent>, limit: int, e: AuditEvent)
    requires e in Limited(xs, limit)
    ensures e in xs
  {
  }

  /** The unlimited listing is the selected evidence, each event once, newest first. */
  lemma FullListingExact(w: World, resource: Option<string>)
    requires Listable(w)
    ensures Sorting.Strict(FullListing(w, resource), CreatedAt)
    ensures forall e :: e in FullListing(w, resource) <==>
              e in Events(w) && (resource.Some? && resource.value != "" ==> e.resource == resource.value)
  {
    var own := Select(w.auditLog, resource);
    OwnEvents(w, resource);
    if w.store.Some? {
      var rows := Select(w.store.value.events, resource);
      StoredEvents(w, resource);
      hide Select, DistinctIds, MergeById, Listable;
      MergedEvents(w, MergeById([], own), rows);
      SortsStrictly(w, MergeById(MergeById([], own), rows));
    } else {
      hide Select, DistinctIds, Listable;
      SortsStrictly(w, own);
    }
  }

  /** Fetching only the store's newest `limit` rows before the merge loses nothing, whatever the limit. */
  lemma PushDownExact(w: World, limit: int, resource: Option<string>)
    requires Listable(w)
    ensures ListAuditEvents(w, limit, resource) == Sorting.Take(FullListing(w, resource), limit)
  {
    if w.store.Some? {
      hide Select, DistinctIds, MergeById, Listable, Events;
      var own := MergeById([], Select(w.auditLog, resource));
      var rows := Select(w.store.value.events, resource);
      OwnEvents(w, resource);
      StoredEvents(w, resource);
      PushDownMerge(w, own, rows, limit);
    }
  }

  lemma PushDownMerge(w: World, own: seq<AuditEvent>, rows: seq<AuditEvent>, limit: int)
    requires Listable(w) && DistinctIds(own) && DistinctIds(rows)
    requires (forall e :: e in own ==> e in Events(w)) && (forall e :: e in rows ==> e in Events(w))
    ensures var cut := Limited(Sorting.Sort(rows, CreatedAt), limit);
            Sorting.Take(Sorting.Sort(MergeById(own, cut), CreatedAt), limit) ==
            Sorting.Take(Sorting.Sort(MergeById(own, rows), CreatedAt), limit)
  {
    hide DistinctIds, MergeById, Listable, Events;
    var part := Sorting.Sort(rows, CreatedAt);
    var cut := Limited(part, limit);
    SortsStrictly(w, rows);
    forall e | e in cut ensures e in Events(w) && e in rows { InLimited(part, limit, e); }
    MergedEvents(w, own, cut);
    MergedEvents(w, own, rows);
    SortsStrictly(w, MergeById(own, cut));
    SortsStrictly(w, MergeById(own, rows));
    var merged, full := Sorting.Sort(MergeById(own, cut), CreatedAt), Sorting.Sort(MergeById(own, rows), CreatedAt);
    var n: nat := if limit < 0 then |part| + |merged| + |full| else limit;
    assert cut == Sorting.Take(part, n);
    Sorting.CutThenMerge(part, merged, full, n, CreatedAt);
  }

  /** The events a listing is about: all of them, or those on the resource asked for. */
  ghost function Matching(w: World, resource: Option<string>): set<AuditEvent> {
    set e | e in Events(w) && (resource.Some? && resource.value != "" ==> e.resource == resource.value)
  }

  /**
   The newest of the matching events, as many as the limit leaves: a negative one leaves
   out so many of the oldest.
   */
  ghost predicate IsListing(w: World, limit: int, resource: Option<string>, r: seq<AuditEvent>) {
    var all := Matching(w, resource);
    && (forall i, j :: 0 <= i < j < |r| ==> r[i].createdAt > r[j].createdAt)
    && (forall e :: e in r ==> e in all)
    && (forall e, f :: e in r && f in all && f !in r ==> e.createdAt > f.createdAt)
    && |r| == if limit >= |all| then |all|
              else if limit >= 0 then limit
              else if |all| + limit >= 0 then |all| + limit
              else 0
  }

  lemma FullIsMatching(w: World, resource: Option<string>)
    requires Listable(w)
    ensures Sorting.Elements(FullListing(w, resource)) == Matching(w, resource)
    ensures |FullListing(w, resource)| == |Matching(w, resource)|
  {
    FullListingExact(w, resource);
    hide FullListing, Events, Listable;
    Sorting.DistinctSize(FullListing(w, resource));
  }

  lemma SliceIsNewest(full: seq<AuditEvent>, r: seq<AuditEvent>)
    requires Sorting.Strict(full, CreatedAt) && r <= full
    ensures forall i, j :: 0 <= i < j < |r| ==> r[i].createdAt > r[j].createdAt
    ensures forall e :: e in r ==> e in full
    ensures forall e, f :: e in r && f in full && f !in r ==> e.createdAt > f.createdAt
  {
    forall i, j | 0 <= i < j < |full| ensures full[i].createdAt > full[j].createdAt {
      assert CreatedAt(full[i]) > CreatedAt(full[j]);
    }
    forall k | 0 <= k < |r| ensures full[k] in r { assert r[k] == full[k]; }
    forall e, f | e in r && f in full && f !in r ensures e.createdAt > f.createdAt {
      var i :| 0 <= i < |r| && r[i] == e;
      var j :| 0 <= j < |full| && full[j] == f;
      assert full[i] == e;
    }
  }

  lemma TakeSize(full: seq<AuditEvent>, limit: int)
    ensures var r := Sorting.Take(full, limit);
            && r <= full
            && |r| == if limit >= |full| then |full|
                      else if limit >= 0 then limit
                      else if |full| + limit >= 0 then |full| + limit
                      else 0
  {
  }

  /**
   Whatever log and store hold, whatever the limit: the listing is the newest of the
   matching events, newest first.
   */
  lemma ListingExactly(w: World, limit: int, resource: Option<string>)
    requires Listable(w)
    ensures IsListing(w, limit, resource, ListAuditEvents(w, limit, resource))
  {
    PushDownExact(w, limit, resource);
    FullListingExact(w, resource);
    FullIsMatching(w, resource);
    hide FullListing, Events, Listable, ListAuditEvents, Matching, Sorting.Take, Sorting.Strict;
    var full := FullListing(w, resource);
    assert forall e :: e in full <==> e in Sorting.Elements(full);
    TakeSize(full, limit);
    SliceIsNewest(full, ListAuditEvents(w, limit, resource));
  }
}
