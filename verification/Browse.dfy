/** Previewing rows and schemas under a policy decision, with PII columns masked. */
module Browse {
  import opened Outcomes
  import opened Records
  import opened Policy
  import opened PyText
  import Evidence

  type Row = map<string, string>

  datatype BrowseError =
    | LimitTooLow
    | LimitTooHigh
    | NegativeOffset
    | DatasetNotFound
    | PermissionDenied(reason: string)

  datatype Page = Page(
    datasetId: string,
    decision: PolicyDecision,
    columns: seq<string>,
    rows: seq<Row>,
    rowCount: int,
    offset: int,
    maskedColumns: seq<string>,
    hasMore: bool,
    rowFilter: Option<Obligation>)

  datatype SchemaPage = SchemaPage(
    datasetId: string,
    decisionId: nat,
    schema: seq<Column>,
    mappings: seq<Mapping>,
    maskedColumns: seq<string>,
    qualityScore: real,
    freshnessScore: real)

  /** The sample rows every preview shows. */
  const SAMPLE_ROWS: seq<Row> := [
    map["customer_id" := "C-1001", "customer_email" := "alice@example.com", "signup_at" := "2026-01-15T00:00:00Z",
        "event_timestamp" := "2026-06-20T12:10:00Z", "device_id" := "dev-88"],
    map["customer_id" := "C-1002", "customer_email" := "bob@example.com", "signup_at" := "2026-01-20T00:00:00Z",
        "event_timestamp" := "2026-06-21T09:11:00Z", "device_id" := "dev-01"]]

  // ----- masking -----

  function Masked(row: Row, columns: seq<string>): Row {
    map name | name in row :: if name in columns then "***" else row[name]
  }

  lemma MaskedMore(row: Row, columns: seq<string>, column: string)
    ensures var masked := Masked(row, columns);
            Masked(row, columns + [column]) == if column in masked then masked[column := "***"] else masked
  {
  }

  /** Overwrite the masked entries one after the other. */
  method ApplyMask(row: Row, maskedColumns: seq<string>) returns (masked: Row)
    ensures masked == Masked(row, maskedColumns)
  {
    masked := row;
    assert Masked(row, []) == row;
    if maskedColumns == [] { return; }
    hide Masked;
    for i := 0 to |maskedColumns|
      invariant masked == Masked(row, maskedColumns[..i])
    {
      var column := maskedColumns[i];
      MaskedMore(row, maskedColumns[..i], column);
      assert maskedColumns[..i + 1] == maskedColumns[..i] + [column];
      if column in masked { masked := masked[column := "***"]; }
    }
    assert maskedColumns[..|maskedColumns|] == maskedColumns;
  }

  function MaskedAll(rows: seq<Row>, columns: seq<string>): seq<Row> {
    seq(|rows|, i requires 0 <= i < |rows| => Masked(rows[i], columns))
  }

  // ----- preview -----

  /** Python's slice with a non-negative start. */
  function Slice(rows: seq<Row>, offset: nat, limit: nat): (page: seq<Row>)
    ensures |page| <= limit
  {
    if offset >= |rows| then []
    else if offset + limit >= |rows| then rows[offset..]
    else rows[offset..offset + limit]
  }

  function Smaller(a: int, b: int): int {
    if a <= b then a else b
  }

  function ColumnNames(columns: seq<Column>): seq<string> {
    seq(|columns|, i requires 0 <= i < |columns| => columns[i].name)
  }

  function PageOf(rows: seq<Row>, ds: Dataset, d: PolicyDecision, limit: nat, offset: nat): Page {
    var masked := MaskedAll(Slice(rows, offset, limit), Masking(d));
    Page(ds.id, d, ColumnNames(ds.meta.schema), masked, Smaller(limit, |masked|), offset, Masking(d),
         offset + |masked| < |rows|, if "row_filter" in d.obligations then Some(d.obligations["row_filter"]) else None)
  }

  function Preview(w: World, rows: seq<Row>, id: string, user: string, purpose: string, limit: int, offset: int):
    (World, Result<Page, BrowseError>)
  {
    if limit < 1 then (w, Err(LimitTooLow))
    else if limit > 100 then (w, Err(LimitTooHigh))
    else if offset < 0 then (w, Err(NegativeOffset))
    else if id !in w.data then
      (Evidence.Emit(w, user, "browse.preview", id, "denied", None, "dataset_not_found", false), Err(DatasetNotFound))
    else
      var (w1, d) := Evaluate(w, user, id, "preview", purpose);
      if d.effect != Allow then
        (Evidence.Emit(w1, user, "browse.preview", id, "denied", Some(d.decisionId), d.reason, false),
         Err(PermissionDenied(d.reason)))
      else
        (Evidence.Emit(w1, user, "browse.preview", id, "allowed", Some(d.decisionId), "ok", false),
         Ok(PageOf(rows, w.data[id], d, limit, offset)))
  }

  function Schema(w: World, id: string, user: string, purpose: string): (World, Result<SchemaPage, BrowseError>) {
    if id !in w.data then (w, Err(DatasetNotFound))
    else
      var ds := w.data[id];
      var (w1, d) := Evaluate(w, user, id, "schema", purpose);
      if d.effect != Allow then
        (Evidence.Emit(w1, user, "browse.schema", id, "denied", Some(d.decisionId), d.reason, false),
         Err(PermissionDenied(d.reason)))
      else
        (Evidence.Emit(w1, user, "browse.schema", id, "allowed", Some(d.decisionId), d.reason, false),
         Ok(SchemaPage(ds.id, d.decisionId, FilledAll(ds.meta.schema), ds.meta.mappings, Masking(d),
                       ds.meta.qualityScore, ds.meta.freshnessScore)))
  }

  // ----- previews say nothing about PII -----

  predicate Marked(columns: seq<Column>, name: string) {
    exists i :: 0 <= i < |columns| && columns[i].name == name && columns[i].pii == Some(true)
  }

  /** Two row tables that differ at most in PII columns. */
  ghost predicate SameButPii(a: seq<Row>, b: seq<Row>, columns: seq<Column>) {
    && |a| == |b|
    && forall i :: 0 <= i < |a| ==>
         && a[i].Keys == b[i].Keys
         && forall name :: name in a[i] && !Marked(columns, name) ==> a[i][name] == b[i][name]
  }

  /** Masking the PII columns hides those values, and changes no other value and no key. */
  lemma MaskedExactly(row: Row, columns: seq<Column>, name: string)
    ensures var masked := Masked(row, PiiNames(columns));
            && (name in masked <==> name in row)
            && (name in row ==> masked[name] == if Marked(columns, name) then "***" else row[name])
  {
    PiiNamesExact(columns, name);
  }

  /** Whether a user may preview a dataset. */
  ghost predicate MayPreview(w: World, id: string, user: string, purpose: string) {
    id in w.data && Permitted(w.data[id], user, "preview", purpose)
  }

  lemma PreviewIsAbout(w: World, id: string, user: string, purpose: string)
    requires id in w.data
    ensures var d := DecisionOf(w, user, id, "preview", purpose);
            && (d.effect == Allow <==> MayPreview(w, id, user, purpose))
            && (d.effect == Allow ==> Masking(d) == PiiNames(w.data[id].meta.schema))
  {
    hide Decide, Permitted, Lower, Masking, PiiNames, Reason, Discovers;
    PreviewKey();
    DecideAllowsExactly(w.data, user, id, "preview", purpose);
    if Permitted(w.data[id], user, "preview", purpose) { AllowedMasksPii(w, user, id, "preview", purpose); }
  }

  lemma PreviewKey()
    ensures Lower("preview") == "preview" && !Discovers("preview") && "preview" != "create"
  {
  }

  lemma MaskedRowsEqual(a: seq<Row>, b: seq<Row>, columns: seq<Column>, offset: nat, limit: nat)
    requires SameButPii(a, b, columns)
    ensures MaskedAll(Slice(a, offset, limit), PiiNames(columns)) ==
            MaskedAll(Slice(b, offset, limit), PiiNames(columns))
  {
    hide Masked, PiiNames, Marked;
    var pa, pb, names := Slice(a, offset, limit), Slice(b, offset, limit), PiiNames(columns);
    forall i | 0 <= i < |pa| ensures Masked(pa[i], names) == Masked(pb[i], names) {
      assert pa[i] == a[offset + i] && pb[i] == b[offset + i];
      MaskedRowEqual(pa[i], pb[i], columns);
    }
  }

  lemma MaskedRowEqual(a: Row, b: Row, columns: seq<Column>)
    requires a.Keys == b.Keys && forall name :: name in a && !Marked(columns, name) ==> a[name] == b[name]
    ensures Masked(a, PiiNames(columns)) == Masked(b, PiiNames(columns))
  {
    hide PiiNames, Marked;
    forall name | name in a ensures Masked(a, PiiNames(columns))[name] == Masked(b, PiiNames(columns))[name] {
      MaskedExactly(a, columns, name);
      MaskedExactly(b, columns, name);
    }
  }

  /** The answer to a preview, and the evidence it leaves, do not depend on any PII value. */
  lemma PreviewHidesPii(w: World, a: seq<Row>, b: seq<Row>, id: string, user: string, purpose: string, limit: int,
                        offset: int)
    requires id in w.data ==> SameButPii(a, b, w.data[id].meta.schema)
    ensures Preview(w, a, id, user, purpose, limit, offset) == Preview(w, b, id, user, purpose, limit, offset)
  {
    hide DecisionOf, MaskedAll, Slice, Masking, SameButPii;
    if 1 <= limit <= 100 && offset >= 0 && id in w.data {
      assert |a| == |b| by { SameLength(a, b, w.data[id].meta.schema); }
      PreviewIsAbout(w, id, user, purpose);
      if DecisionOf(w, user, id, "preview", purpose).effect == Allow {
        MaskedRowsEqual(a, b, w.data[id].meta.schema, offset, limit);
      }
    }
  }

  lemma SameLength(a: seq<Row>, b: seq<Row>, columns: seq<Column>)
    requires SameButPii(a, b, columns)
    ensures |a| == |b|
  {
  }

  // ----- pages tile the data -----

  /**
   One page: the masked rows from the offset on, as many as the limit allows; it is
   followed by more exactly when rows remain.
   */
  lemma OnePage(w: World, rows: seq<Row>, id: string, user: string, purpose: string, limit: int, offset: nat)
    requires MayPreview(w, id, user, purpose) && 1 <= limit <= 100
    ensures var (w', r) := Preview(w, rows, id, user, purpose, limit, offset);
            && r.Ok? && w'.data == w.data
            && var all := MaskedAll(rows, PiiNames(w.data[id].meta.schema));
               var end := Smaller(offset + limit, |rows|);
               && r.value.rowCount == |r.value.rows|
               && (offset <= |rows| ==> r.value.rows == all[offset..end] && r.value.hasMore == (end < |rows|))
               && (offset > |rows| ==> r.value.rows == [] && !r.value.hasMore)
  {
    hide DecisionOf, Permitted, Masking, MaskedAll, PiiNames, Slice, ColumnNames, Smaller, Evidence.RecordEvent;
    PreviewIsAbout(w, id, user, purpose);
    LeavesData(w, id, user, purpose);
    SliceMasked(rows, PiiNames(w.data[id].meta.schema), offset, limit);
  }

  /** What else a page says. */
  lemma PageTells(w: World, rows: seq<Row>, id: string, user: string, purpose: string, limit: int, offset: nat)
    requires MayPreview(w, id, user, purpose) && 1 <= limit <= 100
    ensures var (w', r) := Preview(w, rows, id, user, purpose, limit, offset);
            var m := w.data[id].meta;
            && r.Ok? && r.value.datasetId == w.data[id].id && r.value.offset == offset
            && r.value.decision.subject == user && r.value.decision.resource == id
            && r.value.decision.action == "preview" && r.value.decision.decisionId == w.clock
            && |r.value.columns| == |m.schema|
            && (forall i :: 0 <= i < |m.schema| ==> r.value.columns[i] == m.schema[i].name)
            && (forall name :: name in r.value.maskedColumns <==> Marked(m.schema, name))
            && r.value.rowFilter == if purpose == "analysis" && m.sensitivity == "high"
                                    then Some(Obligation.Names(["business_unit = current_user_unit"])) else None
  {
    hide Permitted, Marked, Lower, PiiNames, Decide, Reason, MaskedAll, Slice, Evidence.RecordEvent,
      Evidence.RecordDecision;
    PreviewIsAbout(w, id, user, purpose);
    PreviewKey();
    DecisionExactly(w, user, id, "preview", purpose);
    ObligationNames();
    forall name { PiiNamesExact(w.data[id].meta.schema, name); }
    forall name ensures name in PiiNames(w.data[id].meta.schema) <==> Marked(w.data[id].meta.schema, name) {
      MarkedExactly(w.data[id].meta.schema, name);
    }
  }

  lemma MarkedExactly(columns: seq<Column>, name: string)
    ensures name in PiiNames(columns) <==> Marked(columns, name)
  {
    PiiNamesExact(columns, name);
  }

  /** Which previews are refused, and how: bad arguments first, then unknown datasets, then missing permission. */
  lemma PreviewRefused(w: World, rows: seq<Row>, id: string, user: string, purpose: string, limit: int, offset: int)
    ensures var r := Preview(w, rows, id, user, purpose, limit, offset).1;
            && (r == Err(LimitTooLow) <==> limit < 1) && (r == Err(LimitTooHigh) <==> limit > 100)
            && (r == Err(NegativeOffset) <==> 1 <= limit <= 100 && offset < 0)
            && (r == Err(DatasetNotFound) <==> 1 <= limit <= 100 && offset >= 0 && id !in w.data)
            && (r == Err(PermissionDenied(DecisionOf(w, user, id, "preview", purpose).reason)) <==>
                  1 <= limit <= 100 && offset >= 0 && id in w.data && !MayPreview(w, id, user, purpose))
            && (r.Ok? <==> 1 <= limit <= 100 && offset >= 0 && MayPreview(w, id, user, purpose))
  {
    hide Permitted, DecisionOf, PageOf, Evidence.RecordEvent, Evidence.RecordDecision;
    if id in w.data { PreviewIsAbout(w, id, user, purpose); }
  }

  /** What reading a schema answers: refused without permission, otherwise the columns with their defaults. */
  lemma SchemaExactly(w: World, id: string, user: string, purpose: string)
    ensures var (w', r) := Schema(w, id, user, purpose);
            && (r == Err(DatasetNotFound) <==> id !in w.data)
            && (r.Ok? <==> id in w.data && Permitted(w.data[id], user, "schema", purpose))
            && (r.Ok? ==>
                  var p, m := r.value, w.data[id].meta;
                  && p.datasetId == w.data[id].id && p.decisionId == w.clock
                  && p.mappings == m.mappings && p.qualityScore == m.qualityScore
                  && p.freshnessScore == m.freshnessScore
                  && |p.schema| == |m.schema|
                  && (forall i :: 0 <= i < |m.schema| ==> SpelledFrom(p.schema[i], m.schema[i]))
                  && forall name :: name in p.maskedColumns <==> Marked(m.schema, name))
  {
    hide Permitted, Marked, Lower, PiiNames, Decide, Reason, Evidence.RecordEvent, Evidence.RecordDecision;
    if id in w.data {
      SchemaKey();
      DecideAllowsExactly(w.data, user, id, "schema", purpose);
      if Permitted(w.data[id], user, "schema", purpose) { AllowedMasksPii(w, user, id, "schema", purpose); }
      forall name { MarkedExactly(w.data[id].meta.schema, name); }
    }
  }

  /** The column with its two optional fields spelled out: no issues and no PII unless given. */
  ghost predicate SpelledFrom(full: Column, column: Column) {
    && full.name == column.name && full.dataType == column.dataType
    && full.nullableRatio == column.nullableRatio && full.distinctRatio == column.distinctRatio
    && full.qualityIssues == (if column.qualityIssues.Some? then column.qualityIssues else Some([]))
    && full.pii == if column.pii.Some? then column.pii else Some(false)
  }

  lemma SchemaKey()
    ensures Lower("schema") == "schema" && !Discovers("schema") && "schema" != "create"
  {
  }

  lemma SliceMasked(rows: seq<Row>, names: seq<string>, offset: nat, limit: nat)
    ensures var page := MaskedAll(Slice(rows, offset, limit), names);
            var end := Smaller(offset + limit, |rows|);
            && Smaller(limit, |page|) == |page|
            && (offset <= |rows| ==> page == MaskedAll(rows, names)[offset..end] && offset + |page| == end)
            && (offset > |rows| ==> page == [])
  {
    hide Masked;
  }

  lemma LeavesData(w: World, id: string, user: string, purpose: string)
    ensures Evaluate(w, user, id, "preview", purpose).0.data == w.data
    ensures forall w1: World, a, x, y, z, d, s, n :: Evidence.Emit(w1, a, x, y, z, d, s, n).data == w1.data
  {
  }

  /** Asking for page after page, advancing by the returned row count, as long as there is more. */
  ghost function ReadPages(w: World, rows: seq<Row>, id: string, user: string, purpose: string, limit: int,
                           offset: nat):
    (seq<seq<Row>>)
    requires MayPreview(w, id, user, purpose) && 1 <= limit <= 100 && offset <= |rows|
    decreases |rows| - offset
  {
    OnePage(w, rows, id, user, purpose, limit, offset);
    var (w', r) := Preview(w, rows, id, user, purpose, limit, offset);
    if r.value.hasMore then
      [r.value.rows] + ReadPages(w', rows, id, user, purpose, limit, offset + r.value.rowCount)
    else [r.value.rows]
  }

  ghost function Concat(pages: seq<seq<Row>>): seq<Row> {
    if pages == [] then [] else pages[0] + Concat(pages[1..])
  }

  /** The pages end, and together are all rows from the offset on, masked, each exactly once. */
  lemma {:induction false} PagesTile(w: World, rows: seq<Row>, id: string, user: string, purpose: string, limit: int,
                                     offset: nat)
    requires MayPreview(w, id, user, purpose) && 1 <= limit <= 100 && offset <= |rows|
    ensures Concat(ReadPages(w, rows, id, user, purpose, limit, offset)) ==
            MaskedAll(rows, PiiNames(w.data[id].meta.schema))[offset..]
    ensures |ReadPages(w, rows, id, user, purpose, limit, offset)| <= |rows| - offset + 1
    decreases |rows| - offset
  {
    hide Preview, Permitted, Masked, PiiNames;
    OnePage(w, rows, id, user, purpose, limit, offset);
    var (w', r) := Preview(w, rows, id, user, purpose, limit, offset);
    var all := MaskedAll(rows, PiiNames(w.data[id].meta.schema));
    if r.value.hasMore {
      var next := offset + r.value.rowCount;
      PagesTile(w', rows, id, user, purpose, limit, next);
      var rest := ReadPages(w', rows, id, user, purpose, limit, next);
      assert ([r.value.rows] + rest)[1..] == rest;
      assert all[offset..next] + all[next..] == all[offset..];
    } else {
      assert Concat([r.value.rows]) == r.value.rows + Concat([]);
    }
  }
}
