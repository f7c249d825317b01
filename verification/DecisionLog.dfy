/**
 Listing recorded policy decisions, newest first, from the log or from the
 configured store: the order that recording keeps, and what a listing holds.
 */
module DecisionLog {
  import opened Outcomes
  import opened Records
  import Evidence
  import Sorting

  predicate Wanted(resource: Option<string>, d: PolicyDecision) {
    resource.None? || resource.value == "" || d.resource == resource.value
  }

  /** The wanted decisions of the reversed log. */
  function NewestFirst(log: seq<PolicyDecision>, resource: Option<string>): seq<PolicyDecision> {
    if log == [] then []
    else var n := |log| - 1; (if Wanted(resource, log[n]) then [log[n]] else []) + NewestFirst(log[..n], resource)
  }

  function WantedRows(rows: seq<DecisionRow>, resource: Option<string>): seq<DecisionRow> {
    if rows == [] then []
    else (if Wanted(resource, rows[0].decision) then [rows[0]] else []) + WantedRows(rows[1..], resource)
  }

  function RecordedAt(r: DecisionRow): real {
    r.recordedAt as real
  }

  function Payloads(rows: seq<DecisionRow>): (r: seq<PolicyDecision>)
    ensures |r| == |rows| && forall i :: 0 <= i < |r| ==> r[i] == rows[i].decision
  {
    seq(|rows|, i requires 0 <= i < |rows| => rows[i].decision)
  }

  /** The store's own `LIMIT`, under which a negative limit is none, or a slice of the log. */
  function ListDecisions(w: World, limit: int, resource: Option<string>): seq<PolicyDecision> {
    if w.store.Some? then
      var sorted := Sorting.Sort(WantedRows(w.store.value.decisions, resource), RecordedAt);
      Payloads(if limit < 0 then sorted else Sorting.Take(sorted, limit))
    else Sorting.Take(NewestFirst(w.decisionLog, resource), limit)
  }

  // ----- the order of recording -----

  ghost predicate LogInOrder(log: seq<PolicyDecision>) {
    forall i, j :: 0 <= i < j < |log| ==> log[i].decisionId < log[j].decisionId
  }

  ghost predicate RowsInOrder(rows: seq<DecisionRow>) {
    forall i, j :: 0 <= i < j < |rows| ==>
      rows[i].recordedAt < rows[j].recordedAt && rows[i].decision.decisionId < rows[j].decision.decisionId
  }

  /** Decisions are kept in the order of recording; with a store configured from the start the log stays empty. */
  ghost predicate InOrder(w: World) {
    && LogInOrder(w.decisionLog)
    && (w.store.Some? ==>
          && RowsInOrder(w.store.value.decisions)
          && (forall r :: r in w.store.value.decisions ==> r.recordedAt < w.clock)
          && w.decisionLog == [])
  }

  lemma RecordKeepsOrder(w: World, d: PolicyDecision)
    requires InOrder(w) && forall p :: p in Evidence.Decisions(w) ==> p.decisionId < d.decisionId
    ensures InOrder(Evidence.RecordDecision(w, d))
  {
    if w.store.Some? {
      var rows := w.store.value.decisions;
      forall r | r in rows ensures r.decision.decisionId < d.decisionId { assert r.decision in Evidence.Decisions(w); }
      Evidence.NoDecisionToReplace(rows, d.decisionId);
    } else {
      forall p | p in w.decisionLog ensures p.decisionId < d.decisionId { assert p in Evidence.Decisions(w); }
    }
  }

  // ----- the listing -----

  function Age(d: PolicyDecision): real {
    d.decisionId as real
  }

  lemma NewestStep(log: seq<PolicyDecision>, resource: Option<string>)
    requires log != []
    ensures var n := |log| - 1;
            NewestFirst(log, resource) ==
            (if Wanted(resource, log[n]) then [log[n]] else []) + NewestFirst(log[..n], resource)
  {
  }

  lemma {:induction false} NewestMembers(log: seq<PolicyDecision>, resource: Option<string>, d: PolicyDecision)
    ensures d in NewestFirst(log, resource) <==> d in log && Wanted(resource, d)
  {
    hide NewestFirst, Wanted;
    if log == [] {
      NothingListed(resource);
    } else {
      var n := |log| - 1;
      assert log == log[..n] + [log[n]];
      NewestStep(log, resource);
      NewestMembers(log[..n], resource, d);
    }
  }

  lemma NothingListed(resource: Option<string>)
    ensures NewestFirst([], resource) == []
  {
  }

  lemma YoungestFirst(d: PolicyDecision, rest: seq<PolicyDecision>)
    requires Sorting.Strict(rest, Age) && forall x :: x in rest ==> Age(d) > Age(x)
    ensures Sorting.Strict([d] + rest, Age)
  {
  }

  lemma {:induction false} NewestFirstExact(log: seq<PolicyDecision>, resource: Option<string>)
    requires LogInOrder(log)
    ensures Sorting.Strict(NewestFirst(log, resource), Age)
    ensures forall d :: d in NewestFirst(log, resource) <==> d in log && Wanted(resource, d)
  {
    hide NewestFirst, Wanted, Sorting.Strict;
    forall d { NewestMembers(log, resource, d); }
    if log == [] {
      NothingListed(resource);
      NothingIsStrict();
    } else {
      var n := |log| - 1;
      var front := log[..n];
      NewestFirstExact(front, resource);
      forall d | d in NewestFirst(front, resource) ensures Age(log[n]) > Age(d) {
        var i :| 0 <= i < |front| && front[i] == d;
        assert log[i] == d;
      }
      YoungestFirst(log[n], NewestFirst(front, resource));
      NewestStep(log, resource);
      assert [] + NewestFirst(front, resource) == NewestFirst(front, resource);
    }
  }

  lemma NothingIsStrict()
    ensures Sorting.Strict([], Age)
  {
  }

  lemma {:induction false} WantedRowsExact(rows: seq<DecisionRow>, resource: Option<string>)
    requires RowsInOrder(rows)
    ensures Sorting.Distinct(WantedRows(rows, resource))
    ensures forall r :: r in WantedRows(rows, resource) <==> r in rows && Wanted(resource, r.decision)
  {
    if rows != [] {
      var rest := rows[1..];
      WantedRowsExact(rest, resource);
      assert rows == [rows[0]] + rest;
      assert rows[0] !in rest;
    }
  }

  /** Sorting the store's rows by time sorts their decisions by age. */
  lemma StoredExact(rows: seq<DecisionRow>, resource: Option<string>)
    requires RowsInOrder(rows)
    ensures var full := Payloads(Sorting.Sort(WantedRows(rows, resource), RecordedAt));
            && Sorting.Strict(full, Age)
            && forall d :: d in full <==> (exists r :: r in rows && r.decision == d) && Wanted(resource, d)
  {
    var wanted := WantedRows(rows, resource);
    WantedRowsExact(rows, resource);
    InjectiveTimes(rows, wanted);
    Sorting.SortStrict(wanted, RecordedAt);
    var sorted := Sorting.Sort(wanted, RecordedAt);
    hide WantedRows, Payloads, Sorting.Sort, RowsInOrder, Sorting.Strict;
    forall r ensures r in sorted <==> r in wanted {
      assert r in Sorting.Elements(sorted) <==> r in Sorting.Elements(wanted);
    }
    PayloadsStrict(rows, sorted);
    forall d { PayloadsOf(sorted, d); }
  }

  lemma PayloadsStrict(rows: seq<DecisionRow>, sorted: seq<DecisionRow>)
    requires RowsInOrder(rows) && (forall r :: r in sorted ==> r in rows) && Sorting.Strict(sorted, RecordedAt)
    ensures Sorting.Strict(Payloads(sorted), Age)
  {
    var full := Payloads(sorted);
    forall i, j | 0 <= i < j < |full| ensures Age(full[i]) > Age(full[j]) {
      LaterIsYounger(rows, sorted[i], sorted[j]);
    }
  }

  lemma PayloadsOf(rows: seq<DecisionRow>, d: PolicyDecision)
    ensures d in Payloads(rows) <==> exists r :: r in rows && r.decision == d
  {
    if r :| r in rows && r.decision == d {
      var k :| 0 <= k < |rows| && rows[k] == r;
      assert Payloads(rows)[k] == d;
    }
  }

  lemma InjectiveTimes(rows: seq<DecisionRow>, part: seq<DecisionRow>)
    requires RowsInOrder(rows) && forall r :: r in part ==> r in rows
    ensures Sorting.Injective(Sorting.Elements(part), RecordedAt)
  {
  }

  lemma LaterIsYounger(rows: seq<DecisionRow>, a: DecisionRow, b: DecisionRow)
    requires RowsInOrder(rows) && a in rows && b in rows && RecordedAt(a) > RecordedAt(b)
    ensures Age(a.decision) > Age(b.decision)
  {
    var i :| 0 <= i < |rows| && rows[i] == a;
    var j :| 0 <= j < |rows| && rows[j] == b;
  }

  /** The listing without any limit. */
  function AllDecisions(w: World, resource: Option<string>): seq<PolicyDecision> {
    if w.store.Some? then Payloads(Sorting.Sort(WantedRows(w.store.value.decisions, resource), RecordedAt))
    else NewestFirst(w.decisionLog, resource)
  }

  /** Every recorded decision about the resource, once, newest first. */
  lemma AllDecisionsExact(w: World, resource: Option<string>)
    requires InOrder(w)
    ensures Sorting.Strict(AllDecisions(w, resource), Age)
    ensures forall d :: d in AllDecisions(w, resource) <==>
              d in Evidence.Decisions(w) && (resource.Some? && resource.value != "" ==> d.resource == resource.value)
  {
    if w.store.Some? {
      StoredExact(w.store.value.decisions, resource);
    } else {
      NewestFirstExact(w.decisionLog, resource);
    }
  }

  lemma ListedPart(w: World, limit: int, resource: Option<string>)
    ensures ListDecisions(w, limit, resource) ==
            if w.store.Some? && limit < 0 then AllDecisions(w, resource)
            else Sorting.Take(AllDecisions(w, resource), limit)
  {
    hide WantedRows, Sorting.Sort, NewestFirst;
    if w.store.Some? && limit >= 0 {
      var sorted := Sorting.Sort(WantedRows(w.store.value.decisions, resource), RecordedAt);
      assert Payloads(Sorting.Take(sorted, limit)) == Sorting.Take(Payloads(sorted), limit);
    }
  }

  lemma CutIsOlder(full: seq<PolicyDecision>, r: seq<PolicyDecision>, d: PolicyDecision)
    requires Sorting.Strict(full, Age) && r <= full && d in full && d !in r
    ensures forall x :: x in r ==> d.decisionId < x.decisionId
  {
    var i :| 0 <= i < |full| && full[i] == d;
    forall k | 0 <= k < |r| ensures full[k] in r { assert full[k] == r[k]; }
    forall x | x in r ensures d.decisionId < x.decisionId {
      var k :| 0 <= k < |r| && r[k] == x;
      assert full[k] == x && Age(full[k]) > Age(full[i]);
    }
  }

  lemma PrefixIsStrict(full: seq<PolicyDecision>, r: seq<PolicyDecision>)
    requires Sorting.Strict(full, Age) && r <= full
    ensures Sorting.Strict(r, Age) && forall d :: d in r ==> d in full
  {
    forall i, j | 0 <= i < j < |r| ensures Age(r[i]) > Age(r[j]) { assert r[i] == full[i] && r[j] == full[j]; }
  }

  /** The decisions a listing is about: all of them, or those about the resource asked for. */
  ghost function Matching(w: World, resource: Option<string>): set<PolicyDecision> {
    set d | d in Evidence.Decisions(w) && (resource.Some? && resource.value != "" ==> d.resource == resource.value)
  }

  /**
   The newest of the matching decisions, newest first.  A limit that is not negative
   is the number of those listed, if there are so many; a negative one leaves out that
   many of the log, and none of the store.
   */
  ghost predicate IsListing(w: World, limit: int, resource: Option<string>, r: seq<PolicyDecision>) {
    var all := Matching(w, resource);
    && (forall i, j :: 0 <= i < j < |r| ==> r[i].decisionId > r[j].decisionId)
    && (forall d :: d in r ==> d in all)
    && (forall d, x :: d in all && d !in r && x in r ==> d.decisionId < x.decisionId)
    && |r| == if limit >= 0 then (if limit < |all| then limit else |all|)
              else if w.store.Some? then |all|
              else if |all| + limit >= 0 then |all| + limit else 0
  }

  lemma AllIsMatching(w: World, resource: Option<string>)
    requires InOrder(w)
    ensures forall d :: d in AllDecisions(w, resource) <==> d in Matching(w, resource)
    ensures |AllDecisions(w, resource)| == |Matching(w, resource)|
  {
    AllDecisionsExact(w, resource);
    hide AllDecisions, Evidence.Decisions, InOrder;
    Sorting.DistinctSize(AllDecisions(w, resource));
    assert Sorting.Elements(AllDecisions(w, resource)) == Matching(w, resource);
  }

  lemma PrefixSize(full: seq<PolicyDecision>, limit: int)
    ensures var r := Sorting.Take(full, limit);
            && r <= full
            && |r| == if limit >= 0 then (if limit < |full| then limit else |full|)
                      else if |full| + limit >= 0 then |full| + limit else 0
  {
  }

  /** Wherever decisions are recorded, and whatever the limit, the listing is the newest of the matching ones. */
  lemma ListDecisionsExact(w: World, limit: int, resource: Option<string>)
    requires InOrder(w)
    ensures IsListing(w, limit, resource, ListDecisions(w, limit, resource))
  {
    hide ListDecisions, AllDecisions, InOrder, Evidence.Decisions, Matching, Sorting.Take;
    AllDecisionsExact(w, resource);
    AllIsMatching(w, resource);
    ListedPart(w, limit, resource);
    var full, r := AllDecisions(w, resource), ListDecisions(w, limit, resource);
    PrefixSize(full, limit);
    PrefixIsStrict(full, r);
    forall i, j | 0 <= i < j < |r| ensures r[i].decisionId > r[j].decisionId { assert Age(r[i]) > Age(r[j]); }
    forall d | d in full && d !in r ensures forall x :: x in r ==> d.decisionId < x.decisionId {
      CutIsOlder(full, r, d);
    }
  }
}
