/**
 Running a query: the checks in their order, from the forbidden words over the policy
 decision and the gate to the answer.  A query succeeds when every check holds, a successful query only
 refers to its own table, and every refusal has the shape of the response helper.
 */
module Orchestrator {
  import opened Outcomes
  import opened PyText
  import opened Records
  import opened Policy
  import opened SqlGate
  import Evidence
  import SqlLists
  import SqlRules

  datatype Request = Request(
    language: string,
    user: string,
    purpose: string,
    datasetIds: seq<string>,
    query: string,
    dryRun: bool)

  datatype Status = Succeeded | Denied | Rejected

  datatype Cell = Count(n: int) | Day(at: nat)

  datatype Execution = Execution(elapsedMs: nat, source: string, bytesScanned: nat)

  datatype Response = Response(
    requestId: nat,
    datasetId: string,
    queryId: Option<nat>,
    decisionId: Option<nat>,
    status: Status,
    rowCount: int,
    columns: seq<string>,
    rows: seq<map<string, Cell>>,
    execution: Execution,
    warnings: seq<string>)

  // ----- the run of a query -----

  /** The crude test before any other: a forbidden keyword anywhere, even inside a longer word. */
  predicate MentionsForbidden(lowered: string) {
    exists k :: 0 <= k < |FORBIDDEN| && Contains(lowered, FORBIDDEN[k])
  }

  function Messages(warnings: seq<Warning>): seq<string> {
    seq(|warnings|, i requires 0 <= i < |warnings| => Message(warnings[i]))
  }

  function Unanswered(requestId: nat, datasetId: string, decisionId: Option<nat>, status: Status, source: string,
                      warnings: seq<string>): Response
  {
    Response(requestId, datasetId, None, decisionId, status, 0, [], [], Execution(0, source, 0), warnings)
  }

  function Audit(w: World, req: Request, datasetId: string, result: string, reason: string, decisionId: Option<nat>):
    World
  {
    Evidence.Emit(w, req.user, "browse.query", datasetId, result, decisionId, reason, false)
  }

  function RowCount(ds: Dataset, dryRun: bool): int {
    if dryRun then 0
    else
      var count := if "row_count" in ds.meta.profile then ds.meta.profile["row_count"] else 1000;
      if 2000 <= count then 2000 else count
  }

  function Answered(requestId: nat, ds: Dataset, d: PolicyDecision, req: Request, now: nat): Response {
    var rowCount := RowCount(ds, req.dryRun);
    var grouped := Contains(Lower(req.query), "group by");
    Response(requestId, ds.id, Some(now), Some(d.decisionId), Succeeded, rowCount,
             if grouped then ["week", "active_count"] else ["result"],
             if grouped then [map["week" := Day(now), "active_count" := Count(1)]]
             else [map["result" := Count(rowCount)]],
             Execution(100, "mock-trino", 1024), ["mock_execution_no_real_data"])
  }

  /** The part of the run that comes after an existing dataset was found. */
  function ExecuteOn(w: World, req: Request, requestId: nat, ds: Dataset): (World, Response)
    requires req.datasetIds != []
  {
    var (w1, d) := Evaluate(w, req.user, req.datasetIds[0], "query", req.purpose);
    if d.effect != Allow then
      (Audit(w1, req, ds.id, "denied", d.reason, Some(d.decisionId)),
       Unanswered(requestId, ds.id, Some(d.decisionId), Denied, "policy", [d.reason]))
    else
      var warnings := WarningsOf(req.query, ds.meta.sourceSystem);
      if warnings != [] then
        (Audit(w1, req, ds.id, "rejected", "query_safety_validation_failed", Some(d.decisionId)),
         Unanswered(requestId, ds.id, Some(d.decisionId), Rejected, "query_safety", Messages(warnings)))
      else
        (Audit(Tick(w1), req, ds.id, "allowed", "ok", Some(d.decisionId)), Answered(requestId, ds, d, req, w1.clock))
  }

  function Reject(w: World, req: Request, requestId: nat, reason: string): (World, Response)
    requires req.datasetIds != []
  {
    (Audit(w, req, req.datasetIds[0], "rejected", reason, None),
     Unanswered(requestId, req.datasetIds[0], None, Rejected, "validation", [reason]))
  }

  function Execute(w: World, req: Request): (World, Response)
    requires req.datasetIds != []
  {
    var w0 := Tick(w);
    var id := req.datasetIds[0];
    if Upper(Strip(req.language)) != "SQL" then Reject(w0, req, w.clock, "unsupported_language")
    else if MentionsForbidden(Lower(req.query)) then Reject(w0, req, w.clock, "forbidden_keyword_detected")
    else if |req.datasetIds| > 1 then Reject(w0, req, w.clock, "cross_source_join_not_supported")
    else if id !in w.data then Reject(w0, req, w.clock, "dataset_not_found")
    else ExecuteOn(w0, req, w.clock, w.data[id])
  }

  // ----- what every query is answered -----

  /** The text occurs somewhere in the query, in any letter case. */
  ghost predicate Occurs(text: string, query: string) {
    exists i: nat :: OccursAt(text, query, i)
  }

  ghost predicate OccursAt(text: string, query: string, i: nat) {
    i + |text| <= |query| && Lower(query[i..i + |text|]) == text
  }

  lemma OccursExactly(text: string, query: string)
    ensures Contains(Lower(query), text) <==> Occurs(text, query)
  {
    var t := Lower(query);
    forall i: nat ensures MatchesAt(t, i, text) <==> OccursAt(text, query, i) {
      if i + |text| <= |query| { LowerSlice(query, i, i + |text|); }
    }
    if Contains(t, text) {
      var i :| 0 <= i <= |t| && MatchesAt(t, i, text);
      assert OccursAt(text, query, i);
    }
    if i: nat :| OccursAt(text, query, i) { assert MatchesAt(t, i, text) && i <= |t|; }
  }

  lemma MentionsExactly(query: string)
    ensures MentionsForbidden(Lower(query)) <==>
            exists word :: SqlRules.IsForbidden(word) && Occurs(word, query)
  {
    hide Contains, Lower, Occurs;
    forall k | 0 <= k < |FORBIDDEN|
      ensures SqlRules.IsForbidden(FORBIDDEN[k])
      ensures Contains(Lower(query), FORBIDDEN[k]) <==> Occurs(FORBIDDEN[k], query)
    {
      OccursExactly(FORBIDDEN[k], query);
    }
    forall word | SqlRules.IsForbidden(word) ensures exists k :: 0 <= k < |FORBIDDEN| && FORBIDDEN[k] == word {
      SqlRules.ForbiddenListed(word);
    }
  }

  /** A refusal names its reasons and holds no data. */
  ghost predicate IsRefusal(r: Response, datasetId: string, decisionId: Option<nat>, status: Status, source: string,
                            reasons: seq<string>)
  {
    && r.datasetId == datasetId && r.decisionId == decisionId && r.status == status && r.warnings == reasons
    && r.queryId == None && r.rowCount == 0 && r.columns == [] && r.rows == []
    && r.execution.elapsedMs == 0 && r.execution.source == source && r.execution.bytesScanned == 0
  }

  /** An answer: the stored number of rows, a thousand if none is stored, two thousand at most, none in a dry run. */
  ghost predicate IsAnswer(r: Response, ds: Dataset, decisionId: nat, req: Request) {
    && r.datasetId == ds.id && r.decisionId == Some(decisionId) && r.status == Succeeded && r.queryId.Some?
    && r.warnings == ["mock_execution_no_real_data"]
    && r.execution == Execution(100, "mock-trino", 1024)
    && (var stored := if "row_count" in ds.meta.profile then ds.meta.profile["row_count"] else 1000;
        r.rowCount == if req.dryRun then 0 else if stored < 2000 then stored else 2000)
    && if Occurs("group by", req.query) then
         r.columns == ["week", "active_count"]
         && r.rows == [map["week" := Day(r.queryId.value), "active_count" := Count(1)]]
       else r.columns == ["result"] && r.rows == [map["result" := Count(r.rowCount)]]
  }

  /** The checks in their order, and what each of them answers. */
  lemma AnswersExactly(w: World, req: Request)
    requires req.datasetIds != []
    ensures var r, id := Execute(w, req).1, req.datasetIds[0];
            && r.requestId == w.clock
            && if Upper(Strip(req.language)) != "SQL" then
                 IsRefusal(r, id, None, Rejected, "validation", ["unsupported_language"])
               else if exists word :: SqlRules.IsForbidden(word) && Occurs(word, req.query) then
                 IsRefusal(r, id, None, Rejected, "validation", ["forbidden_keyword_detected"])
               else if |req.datasetIds| > 1 then
                 IsRefusal(r, id, None, Rejected, "validation", ["cross_source_join_not_supported"])
               else if id !in w.data then
                 IsRefusal(r, id, None, Rejected, "validation", ["dataset_not_found"])
               else
                 var ds, d := w.data[id], DecisionOf(Tick(w), req.user, id, "query", req.purpose);
                 var warnings := WarningsOf(req.query, ds.meta.sourceSystem);
                 if !Permitted(ds, req.user, "query", req.purpose) then
                   IsRefusal(r, ds.id, Some(d.decisionId), Denied, "policy", [d.reason])
                 else if warnings != [] then
                   IsRefusal(r, ds.id, Some(d.decisionId), Rejected, "query_safety", Messages(warnings))
                 else IsAnswer(r, ds, d.decisionId, req)
  {
    MentionsExactly(req.query);
    OccursExactly("group by", req.query);
    hide Permitted, Decide, Lower, Upper, Strip, MentionsForbidden, WarningsOf, Evidence.RecordEvent, Occurs,
      Evidence.RecordDecision, Contains, Messages, Reason, SqlRules.IsForbidden;
    var id := req.datasetIds[0];
    if id in w.data { QueryAllowed(w.data, req.user, id, req.purpose); }
  }

  // ----- when a query succeeds -----

  /** A query succeeds exactly when every rule is met, in whatever order they are asked. */
  lemma SucceedsExactly(w: World, req: Request)
    requires req.datasetIds != []
    ensures Execute(w, req).1.status == Succeeded <==>
              && Upper(Strip(req.language)) == "SQL"
              && (forall word :: SqlRules.IsForbidden(word) ==> !Occurs(word, req.query))
              && |req.datasetIds| == 1 && req.datasetIds[0] in w.data
              && Permitted(w.data[req.datasetIds[0]], req.user, "query", req.purpose)
              && Accepts(req.query, w.data[req.datasetIds[0]].meta.sourceSystem)
  {
    MentionsExactly(req.query);
    hide Permitted, Decide, Lower, Upper, Strip, MentionsForbidden, Accepts, WarningsOf, ExecuteOn, Audit, Occurs,
      SqlRules.IsForbidden;
    var id := req.datasetIds[0];
    if id in w.data {
      SucceedsOn(Tick(w), req, w.clock, w.data[id]);
      QueryAllowed(w.data, req.user, id, req.purpose);
      WarningsAreViolations(req.query, w.data[id].meta.sourceSystem);
    }
  }

  lemma SucceedsOn(w: World, req: Request, requestId: nat, ds: Dataset)
    requires req.datasetIds != []
    ensures ExecuteOn(w, req, requestId, ds).1.status == Succeeded <==>
              && Decide(w.data, req.user, req.datasetIds[0], "query", req.purpose).effect == Allow
              && WarningsOf(req.query, ds.meta.sourceSystem) == []
  {
    hide Decide, WarningsOf, Audit, Answered, Messages, Evidence.RecordDecision;
    assert Answered(requestId, ds, DecisionOf(w, req.user, req.datasetIds[0], "query", req.purpose), req,
                    Evaluate(w, req.user, req.datasetIds[0], "query", req.purpose).0.clock).status == Succeeded by {
      AnsweredSucceeds();
    }
  }

  lemma AnsweredSucceeds()
    ensures forall requestId, ds, d, req, now :: Answered(requestId, ds, d, req, now).status == Succeeded
  {
    hide RowCount, Contains, Lower;
  }

  lemma QueryAllowed(data: map<string, Dataset>, user: string, id: string, purpose: string)
    ensures Decide(data, user, id, "query", purpose).effect == Allow <==>
              id in data && Permitted(data[id], user, "query", purpose)
  {
    hide Permitted, Decide, Lower, Discovers;
    QueryKey();
    DecideAllowsExactly(data, user, id, "query", purpose);
  }

  /**
   An answer carries a query id, one row and at most two thousand counted rows,
   none in a dry run; a refusal carries no rows and at least one reason.
   */
  lemma ResponseShape(w: World, req: Request)
    requires req.datasetIds != []
    ensures var r := Execute(w, req).1;
            && r.warnings != []
            && (r.status == Succeeded <==> r.queryId.Some?)
            && (if r.status == Succeeded then |r.rows| == 1 && r.rowCount <= 2000 && (req.dryRun ==> r.rowCount == 0)
                else r.rows == [] && r.columns == [] && r.rowCount == 0)
  {
    hide ExecuteOn, Audit, MentionsForbidden, Lower, Upper, Strip;
    if req.datasetIds[0] in w.data { AnswerShape(Tick(w), req, w.clock, w.data[req.datasetIds[0]]); }
  }

  lemma AnswerShape(w: World, req: Request, requestId: nat, ds: Dataset)
    requires req.datasetIds != []
    ensures var r := ExecuteOn(w, req, requestId, ds).1;
            && r.warnings != []
            && (r.status == Succeeded <==> r.queryId.Some?)
            && (if r.status == Succeeded then |r.rows| == 1 && r.rowCount <= 2000 && (req.dryRun ==> r.rowCount == 0)
                else r.rows == [] && r.columns == [] && r.rowCount == 0)
  {
    hide Evaluate, WarningsOf, Audit, Message, Lower, Contains;
  }

  lemma QueryKey()
    ensures Lower("query") == "query" && !Discovers("query") && "query" != "create"
  {
  }

  /**
   Unless the dataset's table is itself named `from` or `join`, every FROM or JOIN
   in a successful query that is followed by whitespace and a name names that
   table; and so does every name listed after one, if the query has no comma.
   */
  lemma SucceededReferencesOwnTable(w: World, req: Request)
    requires req.datasetIds != []
    ensures Execute(w, req).1.status == Succeeded ==>
              && req.datasetIds[0] in w.data
              && var table := ExpectedTable(w.data[req.datasetIds[0]].meta.sourceSystem);
                 !IsKeyword(table) ==>
                   && ReferencesOnly(Strip(req.query), table)
                   && (',' !in Strip(req.query) ==> SqlLists.ListsOnly(Strip(req.query), table))
  {
    hide *;
    SucceedsExactly(w, req);
    if Execute(w, req).1.status == Succeeded {
      var source := w.data[req.datasetIds[0]].meta.sourceSystem;
      if !IsKeyword(ExpectedTable(source)) {
        ScanCompleteFor(req.query, source);
        if ',' !in Strip(req.query) { SqlLists.CommaFreeGuarded(req.query, source); }
      }
    }
  }
}
