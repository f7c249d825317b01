/**
 Registering, patching, publishing and deprecating datasets: each operation on
 values, when it refuses, and what it keeps of the catalog and its histories.
 */
module Catalog {
  import opened Outcomes
  import opened Records
  import opened Versions
  import Evidence
  import PyText

  datatype CatalogError = NotFound | Invalid

  datatype Field<+T> = Unset | Null | Given(value: T)

  datatype CreateRequest = CreateRequest(id: Option<string>, meta: Metadata)

  datatype PatchRequest = PatchRequest(
    title: Field<string>,
    description: Field<string>,
    steward: Field<string>,
    domain: Field<string>,
    sourceSystem: Field<string>,
    sensitivity: Field<string>,
    updateFrequency: Field<string>,
    qualityScore: Field<real>,
    freshnessScore: Field<real>,
    tags: Field<seq<string>>,
    terms: Field<seq<string>>,
    relatedDatasets: Field<seq<string>>,
    schema: Field<seq<Column>>,
    lineageInputs: Field<seq<string>>,
    lineageOutputs: Field<seq<string>>,
    mappings: Field<seq<Mapping>>,
    profile: Field<map<string, int>>)

  /** Who changes the catalog, and under which decision. */
  datatype Change = Change(actor: string, decisionId: Option<nat>)

  // ----- the operations -----

  function PadThree(s: string): string
    decreases 3 - |s|
  {
    if |s| < 3 then PadThree("0" + s) else s
  }

  function AssignedId(request: CreateRequest, count: nat): string {
    if request.id.Some? && request.id.value != "" then request.id.value
    else "dataset-" + PadThree(PrintNat(count + 1))
  }

  function MakeSnapshot(ds: Dataset, at: nat): Snapshot {
    Snapshot(ds.version, ds.schemaVersion, at, ds.meta.schema, ds.meta.lineageInputs, ds.meta.lineageOutputs,
             ds.meta.mappings, ds.meta.tags, ds.meta.terms, ds.status, ds.meta.qualityScore, ds.meta.freshnessScore)
  }

  /** The entry shows the dataset as it is, in every field an entry has. */
  ghost predicate Pictures(s: Snapshot, ds: Dataset) {
    && s.version == ds.version && s.schemaVersion == ds.schemaVersion && s.status == ds.status
    && s.schema == ds.meta.schema && s.mappings == ds.meta.mappings
    && s.lineageInputs == ds.meta.lineageInputs && s.lineageOutputs == ds.meta.lineageOutputs
    && s.tags == ds.meta.tags && s.terms == ds.meta.terms
    && s.qualityScore == ds.meta.qualityScore && s.freshnessScore == ds.meta.freshnessScore
  }

  lemma SnapshotPictures(ds: Dataset, at: nat)
    ensures Pictures(MakeSnapshot(ds, at), ds) && MakeSnapshot(ds, at).snapshotAt == at
  {
  }

  function HistoryOf(w: World, id: string): seq<Snapshot> {
    if id in w.history then w.history[id] else []
  }

  function RecordSchemaSnapshot(w: World, ds: Dataset): World {
    Tick(w.(history := w.history[ds.id := HistoryOf(w, ds.id) + [MakeSnapshot(ds, w.clock)]]))
  }

  /** Store a new value of a dataset, snapshot it and audit the change. */
  function Commit(w: World, id: string, ds: Dataset, action: string, change: Change): World {
    Evidence.Emit(RecordSchemaSnapshot(w.(data := w.data[id := ds]), ds),
                  change.actor, action, ds.id, "success", change.decisionId, "ok", false)
  }

  /** What validating a dataset demands of its scores. */
  predicate ScoresInRange(m: Metadata) {
    0.0 <= m.qualityScore <= 1.0 && 0.0 <= m.freshnessScore <= 1.0
  }

  function Register(w: World, request: CreateRequest, change: Change): (World, Result<Dataset, CatalogError>) {
    var id := AssignedId(request, |w.data|);
    if id in w.data || !ScoresInRange(request.meta) then (w, Err(Invalid))
    else
      var ds := Dataset(id, request.meta.(lineageInputs := [], lineageOutputs := []), "1.0.0", "1.0.0", "registered",
                        w.clock);
      (Commit(Tick(w), id, ds, "dataset.register", change), Ok(ds))
  }

  function Updated<T>(f: Field<T>, prior: T): T {
    if f.Given? then f.value else prior
  }

  /** The dumped metadata, defaults filled in, with the given fields replaced. */
  function Patched(m: Metadata, p: PatchRequest): Metadata {
    m.(title := Updated(p.title, m.title),
       description := Updated(p.description, m.description),
       steward := Updated(p.steward, m.steward),
       domain := Updated(p.domain, m.domain),
       sourceSystem := Updated(p.sourceSystem, m.sourceSystem),
       sensitivity := Updated(p.sensitivity, m.sensitivity),
       updateFrequency := Updated(p.updateFrequency, m.updateFrequency),
       qualityScore := Updated(p.qualityScore, m.qualityScore),
       freshnessScore := Updated(p.freshnessScore, m.freshnessScore),
       tags := Updated(p.tags, m.tags),
       terms := Updated(p.terms, m.terms),
       relatedDatasets := Updated(p.relatedDatasets, m.relatedDatasets),
       schema := Updated(p.schema, FilledAll(m.schema)),
       lineageInputs := Updated(p.lineageInputs, m.lineageInputs),
       lineageOutputs := Updated(p.lineageOutputs, m.lineageOutputs),
       mappings := Updated(p.mappings, m.mappings),
       profile := Updated(p.profile, m.profile))
  }

  function Patch(w: World, id: string, p: PatchRequest, change: Change): (World, Result<Dataset, CatalogError>) {
    if id !in w.data then (w, Err(NotFound))
    else
      var ds := w.data[id];
      var schemaVersion := if p.schema.Unset? then Some(ds.schemaVersion) else Bump(ds.schemaVersion);
      var version := Bump(ds.version);
      var meta := Patched(ds.meta, p);
      if schemaVersion.None? || version.None? || !ScoresInRange(meta) then (w, Err(Invalid))
      else
        var updated := Dataset(ds.id, meta, version.value, schemaVersion.value, ds.status, w.clock);
        (Commit(Tick(w), id, updated, "dataset.patch", change), Ok(updated))
  }

  predicate MetadataComplete(ds: Dataset) {
    var m := ds.meta;
    && m.owner != "" && m.steward != "" && m.title != "" && m.description != "" && m.domain != ""
    && m.sensitivity != "" && m.updateFrequency != "" && m.sourceSystem != ""
    && m.schema != [] && m.distributions != []
  }

  /** A dataset dumped, given a new status and version, and validated again. */
  function Restated(ds: Dataset, status: string, version: string, at: nat): Dataset {
    Dataset(ds.id, ds.meta.(schema := FilledAll(ds.meta.schema)), version, ds.schemaVersion, status, at)
  }

  function Publish(w: World, id: string, change: Change): (World, Result<Dataset, CatalogError>) {
    if id !in w.data then (w, Err(NotFound))
    else
      var ds := w.data[id];
      if !MetadataComplete(ds) then (w, Err(Invalid))
      else if ds.status == "published" then
        (Evidence.Emit(w, change.actor, "dataset.publish", ds.id, "success", change.decisionId, "ok", true), Ok(ds))
      else
        var version := Bump(ds.version);
        if version.None? || !ScoresInRange(ds.meta) then (w, Err(Invalid))
        else
          var published := Restated(ds, "published", version.value, w.clock);
          (Commit(Tick(w), id, published, "dataset.publish", change), Ok(published))
  }

  function Deprecate(w: World, id: string, change: Change): (World, Result<Dataset, CatalogError>) {
    if id !in w.data then (w, Err(NotFound))
    else
      var ds := w.data[id];
      var version := Bump(ds.version);
      if version.None? || !ScoresInRange(ds.meta) then (w, Err(Invalid))
      else
        var deprecated := Restated(ds, "deprecated", version.value, w.clock);
        (Commit(Tick(w), id, deprecated, "dataset.deprecate", change), Ok(deprecated))
  }

  /** A catalog just loaded: every dataset with its first snapshot. */
  ghost predicate Loaded(w: World) {
    && w.data.Keys == w.history.Keys
    && (forall id :: id in w.data ==>
          && w.data[id].id == id && w.data[id].version == "1.0.0" && w.data[id].schemaVersion == "1.0.0"
          && |w.history[id]| == 1 && w.history[id][0] == MakeSnapshot(w.data[id], w.history[id][0].snapshotAt)
          && w.history[id][0].snapshotAt < w.clock && ScoresInRange(w.data[id].meta))
  }

  /** A loaded catalog without any evidence yet. */
  ghost predicate Seeded(w: World) {
    Loaded(w) && Evidence.Events(w) == {} && Evidence.Decisions(w) == {}
  }

  // ----- versions over whole runs -----

  /** The last component of a dotted version, read back from its text. */
  function Third(version: string): int {
    var parts := Split(version, '.');
    if |parts| == 3 && ParseInt(parts[2]).Some? then ParseInt(parts[2]).value else -1
  }

  /** One entry follows another: the same schema under the same number, or the next number. */
  ghost predicate Follows(a: Snapshot, b: Snapshot) {
    || (b.schemaVersion == a.schemaVersion && FilledAll(b.schema) == FilledAll(a.schema))
    || Third(b.schemaVersion) == Third(a.schemaVersion) + 1
  }

  /** Entry `i` carries version `1.0.i` and a schema version `1.0.k`, and follows its predecessor. */
  ghost predicate EntryFits(h: seq<Snapshot>, i: nat)
    requires i < |h|
  {
    && h[i].version == Dotted(1, 0, i)
    && h[i].schemaVersion == Dotted(1, 0, Third(h[i].schemaVersion))
    && if i == 0 then h[i].schemaVersion == "1.0.0"
       else Follows(h[i - 1], h[i]) && h[i - 1].snapshotAt < h[i].snapshotAt
  }

  ghost predicate Versioned(h: seq<Snapshot>) {
    h != [] && forall i :: 0 <= i < |h| ==> EntryFits(h, i)
  }

  /** The last entry is the live dataset. */
  ghost predicate Current(h: seq<Snapshot>, ds: Dataset) {
    h != [] && h[|h| - 1] == MakeSnapshot(ds, h[|h| - 1].snapshotAt)
  }

  ghost predicate Tracked(w: World, id: string) {
    && id in w.data && id in w.history && w.data[id].id == id
    && Versioned(w.history[id]) && Current(w.history[id], w.data[id])
    && w.history[id][|w.history[id]| - 1].snapshotAt < w.clock && ScoresInRange(w.data[id].meta)
  }

  ghost predicate CatalogInv(w: World) {
    w.data.Keys == w.history.Keys && forall id :: id in w.data ==> Tracked(w, id)
  }

  lemma ThirdOfDotted(a: int, b: int, c: int)
    ensures Third(Dotted(a, b, c)) == c
  {
    SplitDotted(a, b, c);
    ParsePrintInt(c);
  }

  lemma FirstVersion()
    ensures "1.0.0" == Dotted(1, 0, 0) && Third("1.0.0") == 0
  {
    assert PrintNat(0) == "0" && PrintNat(1) == "1";
    assert Dotted(1, 0, 0) == "1.0.0";
    ThirdOfDotted(1, 0, 0);
  }

  lemma FilledTwice(columns: seq<Column>)
    ensures FilledAll(FilledAll(columns)) == FilledAll(columns)
  {
  }

  /** What `Commit` leaves in data and history. */
  lemma CommitParts(w: World, ds: Dataset, action: string, change: Change)
    ensures var w' := Commit(w, ds.id, ds, action, change);
            && w'.data == w.data[ds.id := ds]
            && w'.history == w.history[ds.id := HistoryOf(w, ds.id) + [MakeSnapshot(ds, w.clock)]]
            && w'.clock == w.clock + 2 && w'.decisionLog == w.decisionLog
  {
  }

  lemma VersionedAppend(h: seq<Snapshot>, s: Snapshot)
    requires h == [] || Versioned(h)
    requires EntryFits(h + [s], |h|)
    ensures Versioned(h + [s])
  {
    hide Dotted, Third, Follows;
    var h' := h + [s];
    forall i | 0 <= i < |h'| ensures EntryFits(h', i) {
      if i < |h| {
        assert EntryFits(h, i);
        assert i > 0 ==> h'[i - 1] == h[i - 1];
      }
    }
  }

  /** The version of a history's last entry. */
  lemma LastFits(h: seq<Snapshot>)
    requires Versioned(h)
    ensures var last := h[|h| - 1];
            last.version == Dotted(1, 0, |h| - 1) && last.schemaVersion == Dotted(1, 0, Third(last.schemaVersion))
  {
    assert EntryFits(h, |h| - 1);
  }

  /** What a dataset may change into: the next version, and the same schema or the next schema version. */
  ghost predicate Successor(prior: Dataset, ds: Dataset) {
    && ds.id == prior.id && Bump(prior.version) == Some(ds.version)
    && (Bump(prior.schemaVersion) == Some(ds.schemaVersion)
        || (ds.schemaVersion == prior.schemaVersion && FilledAll(ds.meta.schema) == FilledAll(prior.meta.schema)))
  }

  /** The next value of a dataset fits at the end of its history. */
  lemma SuccessorFits(h: seq<Snapshot>, prior: Dataset, ds: Dataset, at: nat)
    requires Versioned(h) && Current(h, prior) && h[|h| - 1].snapshotAt < at && Successor(prior, ds)
    ensures EntryFits(h + [MakeSnapshot(ds, at)], |h|)
  {
    hide Dotted, Bump, Third, FilledAll, Versioned;
    var n := |h| - 1;
    var k := Third(h[n].schemaVersion);
    LastFits(h);
    BumpDotted(1, 0, n);
    BumpDotted(1, 0, k);
    ThirdOfDotted(1, 0, k + 1);
    assert (h + [MakeSnapshot(ds, at)])[n] == h[n];
  }

  /** Committing a successor of a dataset keeps the catalog consistent. */
  lemma CommitNext(w: World, ds: Dataset, action: string, change: Change)
    requires CatalogInv(w) && ds.id in w.data && Successor(w.data[ds.id], ds) && ScoresInRange(ds.meta)
    ensures CatalogInv(Commit(w, ds.id, ds, action, change))
  {
    hide Commit, Versioned, Successor, EntryFits;
    assert Tracked(w, ds.id);
    SuccessorFits(w.history[ds.id], w.data[ds.id], ds, w.clock);
    VersionedAppend(w.history[ds.id], MakeSnapshot(ds, w.clock));
    CommitParts(w, ds, action, change);
    var w' := Commit(w, ds.id, ds, action, change);
    forall id | id in w'.data ensures Tracked(w', id) {
      if id != ds.id { assert Tracked(w, id); }
    }
  }

  lemma FirstEntryFits(s: Snapshot)
    requires s.version == "1.0.0" && s.schemaVersion == "1.0.0"
    ensures Versioned([s])
  {
    hide Third, Dotted;
    FirstVersion();
    assert [] + [s] == [s];
    VersionedAppend([], s);
  }

  lemma CommitFirst(w: World, ds: Dataset, action: string, change: Change)
    requires CatalogInv(w) && ds.id !in w.data && ds.version == "1.0.0" && ds.schemaVersion == "1.0.0"
    requires ScoresInRange(ds.meta)
    ensures CatalogInv(Commit(w, ds.id, ds, action, change))
  {
    hide Commit, Versioned;
    assert HistoryOf(w, ds.id) == [];
    CommitParts(w, ds, action, change);
    FirstEntryFits(MakeSnapshot(ds, w.clock));
    assert [] + [MakeSnapshot(ds, w.clock)] == [MakeSnapshot(ds, w.clock)];
    var w' := Commit(w, ds.id, ds, action, change);
    forall id | id in w'.data ensures Tracked(w', id) {
      if id != ds.id { assert Tracked(w, id); }
    }
  }

  lemma TickKeeps(w: World)
    requires CatalogInv(w)
    ensures CatalogInv(Tick(w))
  {
    hide Versioned;
    forall id | id in w.data ensures Tracked(Tick(w), id) { assert Tracked(w, id); }
  }

  /** Anything that leaves data and history alone and does not turn back the clock. */
  lemma OtherKeeps(w: World, w': World)
    requires CatalogInv(w) && w'.data == w.data && w'.history == w.history && w.clock <= w'.clock
    ensures CatalogInv(w')
  {
    hide Versioned;
    forall id | id in w'.data ensures Tracked(w', id) { assert Tracked(w, id); }
  }

  lemma LoadedInv(w: World)
    requires Loaded(w)
    ensures CatalogInv(w)
  {
    FirstVersion();
    hide Third, Dotted;
  }

  // ----- every operation -----

  datatype Action =
    | Registering(request: CreateRequest)
    | Patching(id: string, patch: PatchRequest)
    | Publishing(id: string)
    | Deprecating(id: string)

  function Act(w: World, a: Action, change: Change): (World, Result<Dataset, CatalogError>) {
    match a
    case Registering(request) => Register(w, request, change)
    case Patching(id, p) => Patch(w, id, p, change)
    case Publishing(id) => Publish(w, id, change)
    case Deprecating(id) => Deprecate(w, id, change)
  }

  /** Versions of a tracked dataset always bump. */
  lemma TrackedBumps(w: World, id: string)
    requires CatalogInv(w) && id in w.data
    ensures Bump(w.data[id].version).Some? && Bump(w.data[id].schemaVersion).Some? && w.data[id].id == id
    ensures ScoresInRange(w.data[id].meta)
  {
    hide Versioned, Dotted, Third, Bump;
    assert Tracked(w, id);
    var h := w.history[id];
    LastFits(h);
    BumpDotted(1, 0, |h| - 1);
    BumpDotted(1, 0, Third(h[|h| - 1].schemaVersion));
  }

  lemma RegisterKeeps(w: World, request: CreateRequest, change: Change)
    requires CatalogInv(w)
    ensures CatalogInv(Register(w, request, change).0)
  {
    hide Commit, CatalogInv, AssignedId;
    var (w', r) := Register(w, request, change);
    if r.Ok? {
      TickKeeps(w);
      CommitFirst(Tick(w), r.value, "dataset.register", change);
    }
  }

  lemma PatchKeeps(w: World, id: string, p: PatchRequest, change: Change)
    requires CatalogInv(w)
    ensures CatalogInv(Patch(w, id, p, change).0)
  {
    hide Commit, CatalogInv, Bump;
    var (w', r) := Patch(w, id, p, change);
    if r.Ok? {
      TrackedBumps(w, id);
      TickKeeps(w);
      FilledTwice(w.data[id].meta.schema);
      CommitNext(Tick(w), r.value, "dataset.patch", change);
    }
  }

  lemma PublishKeeps(w: World, id: string, change: Change)
    requires CatalogInv(w)
    ensures CatalogInv(Publish(w, id, change).0)
  {
    hide Commit, CatalogInv, Bump, Evidence.RecordEvent;
    var (w', r) := Publish(w, id, change);
    if r.Ok? {
      TrackedBumps(w, id);
      TickKeeps(w);
      FilledTwice(w.data[id].meta.schema);
      if w.data[id].status == "published" {
        EmitLeavesCatalog(w, change.actor, "dataset.publish", id, "success", change.decisionId, "ok", true);
        OtherKeeps(w, w');
      } else {
        CommitNext(Tick(w), r.value, "dataset.publish", change);
      }
    }
  }

  lemma DeprecateKeeps(w: World, id: string, change: Change)
    requires CatalogInv(w)
    ensures CatalogInv(Deprecate(w, id, change).0)
  {
    hide Commit, CatalogInv, Bump;
    var (w', r) := Deprecate(w, id, change);
    if r.Ok? {
      TrackedBumps(w, id);
      TickKeeps(w);
      FilledTwice(w.data[id].meta.schema);
      CommitNext(Tick(w), r.value, "dataset.deprecate", change);
    }
  }

  lemma EmitLeavesCatalog(w: World, actor: string, action: string, resource: string, result: string,
                          decisionId: Option<nat>, reason: string, noop: bool)
    ensures var w' := Evidence.Emit(w, actor, action, resource, result, decisionId, reason, noop);
            w'.data == w.data && w'.history == w.history && w'.clock == w.clock + 1
  {
  }

  /** No operation breaks the link between datasets and their histories. */
  lemma ActKeeps(w: World, a: Action, change: Change)
    requires CatalogInv(w)
    ensures CatalogInv(Act(w, a, change).0)
  {
    hide CatalogInv, Register, Patch, Publish, Deprecate;
    match a
    case Registering(request) => RegisterKeeps(w, request, change);
    case Patching(id, p) => PatchKeeps(w, id, p, change);
    case Publishing(id) => PublishKeeps(w, id, change);
    case Deprecating(id) => DeprecateKeeps(w, id, change);
  }

  /** The number a text of decimal digits stands for. */
  ghost function Decimal(digits: string): nat
    requires forall i :: 0 <= i < |digits| ==> '0' <= digits[i] <= '9'
  {
    if digits == "" then 0
    else
      var n := |digits| - 1;
      assert forall i :: 0 <= i < n ==> digits[..n][i] == digits[i];
      10 * Decimal(digits[..n]) + (digits[n] as int - '0' as int)
  }

  /** The number in three digits, or in as many as it takes. */
  ghost predicate Numbered(digits: string, n: nat) {
    && (forall i :: 0 <= i < |digits| ==> '0' <= digits[i] <= '9') && Decimal(digits) == n
    && (|digits| == 3 || (|digits| > 3 && digits[0] != '0'))
  }

  /** The id asked for, or the next free-looking number. */
  ghost predicate Assigned(request: CreateRequest, count: nat, id: string) {
    if request.id.Some? && request.id.value != "" then id == request.id.value
    else "dataset-" <= id && Numbered(id[8..], count + 1)
  }

  lemma {:induction false} PrintedNumber(n: nat)
    ensures Decimal(PrintNat(n)) == n && (n > 0 ==> PrintNat(n)[0] != '0')
  {
    var s := PrintNat(n);
    if n >= 10 {
      PrintedNumber(n / 10);
      assert s[..|s| - 1] == PrintNat(n / 10);
    }
  }

  lemma PaddedNumber(s: string)
    requires forall i :: 0 <= i < |s| ==> '0' <= s[i] <= '9'
    ensures forall i :: 0 <= i < |"0" + s| ==> '0' <= ("0" + s)[i] <= '9'
    ensures Decimal("0" + s) == Decimal(s)
    decreases |s|
  {
    var z := "0" + s;
    if s == "" {
      assert z[..0] == "";
    } else {
      var n := |s| - 1;
      assert z[..|s|] == "0" + s[..n];
      assert forall i :: 0 <= i < n ==> s[..n][i] == s[i];
      PaddedNumber(s[..n]);
    }
  }

  lemma {:induction false} PadThreeExact(s: string)
    requires forall i :: 0 <= i < |s| ==> '0' <= s[i] <= '9'
    ensures var p := PadThree(s);
            && (forall i :: 0 <= i < |p| ==> '0' <= p[i] <= '9') && Decimal(p) == Decimal(s)
            && (if |s| <= 3 then |p| == 3 else p == s)
    decreases 3 - |s|
  {
    if |s| < 3 {
      PaddedNumber(s);
      PadThreeExact("0" + s);
    }
  }

  /** A number has only one such text. */
  lemma {:induction false} DigitsDetermined(a: string, b: string)
    requires |a| == |b|
    requires (forall i :: 0 <= i < |a| ==> '0' <= a[i] <= '9') && forall i :: 0 <= i < |b| ==> '0' <= b[i] <= '9'
    requires Decimal(a) == Decimal(b)
    ensures a == b
  {
    if a != "" {
      var n := |a| - 1;
      assert a == a[..n] + [a[n]] && b == b[..n] + [b[n]];
      DigitsDetermined(a[..n], b[..n]);
    }
  }

  function Power(n: nat): nat {
    if n == 0 then 1 else 10 * Power(n - 1)
  }

  lemma {:induction false} DecimalBounds(s: string)
    requires s != "" && forall i :: 0 <= i < |s| ==> '0' <= s[i] <= '9'
    ensures Decimal(s) < Power(|s|) && (s[0] != '0' ==> Decimal(s) >= Power(|s| - 1))
  {
    var n := |s| - 1;
    if n == 0 {
      assert s[..0] == "";
    } else {
      DecimalBounds(s[..n]);
    }
  }

  lemma {:induction false} PowerGrows(m: nat, n: nat)
    requires m <= n
    ensures Power(m) <= Power(n)
  {
    if m < n { PowerGrows(m, n - 1); }
  }

  lemma NumberedUnique(a: string, b: string, n: nat)
    requires Numbered(a, n) && Numbered(b, n)
    ensures a == b
  {
    DecimalBounds(a);
    DecimalBounds(b);
    if |a| < |b| { PowerGrows(|a|, |b| - 1); }
    if |b| < |a| { PowerGrows(|b|, |a| - 1); }
    DigitsDetermined(a, b);
  }

  /** A new dataset takes the id it asks for, or is numbered behind the datasets there are. */
  lemma AssignedIdExactly(request: CreateRequest, count: nat, id: string)
    ensures id == AssignedId(request, count) <==> Assigned(request, count, id)
  {
    if !(request.id.Some? && request.id.value != "") {
      var d := PadThree(PrintNat(count + 1));
      PrintedIsNumbered(count + 1);
      hide Numbered, PrintNat, PadThree;
      assert ("dataset-" + d)[8..] == d;
      if Assigned(request, count, id) {
        NumberedUnique(id[8..], d, count + 1);
        assert id == "dataset-" + id[8..];
      }
    }
  }

  lemma PrintedIsNumbered(n: nat)
    requires n > 0
    ensures Numbered(PadThree(PrintNat(n)), n)
  {
    var s := PrintNat(n);
    forall i | 0 <= i < |s| ensures '0' <= s[i] <= '9' { assert PyText.IsDigit(s[i]); }
    PrintedNumber(n);
    PaddedIsNumbered(s, n);
  }

  lemma PaddedIsNumbered(s: string, n: nat)
    requires (forall i :: 0 <= i < |s| ==> '0' <= s[i] <= '9') && Decimal(s) == n && s != "" && s[0] != '0'
    ensures Numbered(PadThree(s), n)
  {
    PadThreeExact(s);
  }

  /** A score outside the unit interval. */
  ghost predicate OutOfRange(score: real) {
    score < 0.0 || score > 1.0
  }

  /** A required field is empty. */
  ghost predicate Lacks(m: Metadata) {
    || m.title == "" || m.description == "" || m.owner == "" || m.steward == "" || m.domain == ""
    || m.sourceSystem == "" || m.sensitivity == "" || m.updateFrequency == ""
    || |m.schema| == 0 || |m.distributions| == 0
  }

  /** When an operation is refused. */
  ghost predicate Refused(w: World, a: Action) {
    match a
    case Registering(request) =>
      || OutOfRange(request.meta.qualityScore) || OutOfRange(request.meta.freshnessScore)
      || exists id :: id in w.data && Assigned(request, |w.data|, id)
    case Patching(id, p) =>
      || id !in w.data
      || OutOfRange(if p.qualityScore.Given? then p.qualityScore.value else w.data[id].meta.qualityScore)
      || OutOfRange(if p.freshnessScore.Given? then p.freshnessScore.value else w.data[id].meta.freshnessScore)
    case Publishing(id) => id !in w.data || Lacks(w.data[id].meta)
    case Deprecating(id) => id !in w.data
  }

  lemma RefusedMeans(w: World, a: Action)
    ensures Refused(w, a) <==>
            match a
            case Registering(request) => AssignedId(request, |w.data|) in w.data || !ScoresInRange(request.meta)
            case Patching(id, p) => id !in w.data || !ScoresInRange(Patched(w.data[id].meta, p))
            case Publishing(id) => id !in w.data || !MetadataComplete(w.data[id])
            case Deprecating(id) => id !in w.data
  {
    hide Assigned, AssignedId;
    if a.Registering? {
      forall id { AssignedIdExactly(a.request, |w.data|, id); }
    }
  }

  /** On a consistent catalog these are the only refusals, a refusal changes nothing, and success stores the result. */
  lemma ActOutcome(w: World, a: Action, change: Change)
    requires CatalogInv(w)
    ensures var (w', r) := Act(w, a, change);
            && (r.Err? <==> Refused(w, a)) && (r.Err? ==> w' == w)
            && (r.Ok? ==> w'.data == w.data[r.value.id := r.value])
  {
    RefusedMeans(w, a);
    hide CatalogInv, Bump, FilledAll, Patched, AssignedId, MetadataComplete, ScoresInRange, Refused;
    if !a.Registering? && a.id in w.data { TrackedBumps(w, a.id); }
  }

  // ----- what a patch does to the metadata -----

  const BLANK := PatchRequest(Unset, Unset, Unset, Unset, Unset, Unset, Unset, Unset, Unset, Unset, Unset, Unset, Unset,
                              Unset, Unset, Unset, Unset)

  /** The patch that gives every field a patch can give. */
  function PatchTo(m: Metadata): PatchRequest {
    PatchRequest(Given(m.title), Given(m.description), Given(m.steward), Given(m.domain), Given(m.sourceSystem),
                 Given(m.sensitivity), Given(m.updateFrequency), Given(m.qualityScore), Given(m.freshnessScore),
                 Given(m.tags), Given(m.terms), Given(m.relatedDatasets), Given(m.schema), Given(m.lineageInputs),
                 Given(m.lineageOutputs), Given(m.mappings), Given(m.profile))
  }

  function Or<T>(first: Field<T>, second: Field<T>): Field<T> {
    if second.Given? then second else first
  }

  /** Two patches in one, the second one's fields winning. */
  function Both(p: PatchRequest, q: PatchRequest): PatchRequest {
    PatchRequest(Or(p.title, q.title), Or(p.description, q.description), Or(p.steward, q.steward),
                 Or(p.domain, q.domain), Or(p.sourceSystem, q.sourceSystem), Or(p.sensitivity, q.sensitivity),
                 Or(p.updateFrequency, q.updateFrequency), Or(p.qualityScore, q.qualityScore),
                 Or(p.freshnessScore, q.freshnessScore), Or(p.tags, q.tags), Or(p.terms, q.terms),
                 Or(p.relatedDatasets, q.relatedDatasets), Or(p.schema, q.schema), Or(p.lineageInputs, q.lineageInputs),
                 Or(p.lineageOutputs, q.lineageOutputs), Or(p.mappings, q.mappings), Or(p.profile, q.profile))
  }

  /** The same metadata once defaults are filled in. */
  function FilledMeta(m: Metadata): Metadata {
    m.(schema := FilledAll(m.schema))
  }

  /**
   A blank patch changes nothing but filling in defaults; patching to given
   metadata reads it back, except for the fields a patch cannot name; and of
   two patches the later wins, field by field.
   */
  lemma PatchLaws(m: Metadata, target: Metadata, p: PatchRequest, q: PatchRequest)
    ensures Patched(m, BLANK) == FilledMeta(m)
    ensures Patched(m, PatchTo(target)) ==
            target.(tenantId := m.tenantId, owner := m.owner, distributions := m.distributions)
    ensures FilledMeta(Patched(Patched(m, p), q)) == FilledMeta(Patched(m, Both(p, q)))
  {
    FilledTwice(m.schema);
    if p.schema.Given? { FilledTwice(p.schema.value); }
  }

  /** The metadata after a patch, field by field: what the patch gives, and otherwise what was there. */
  ghost predicate Amends(prior: Metadata, p: PatchRequest, m: Metadata) {
    && m.tenantId == prior.tenantId && m.owner == prior.owner && m.distributions == prior.distributions
    && m.title == (if p.title.Given? then p.title.value else prior.title)
    && m.description == (if p.description.Given? then p.description.value else prior.description)
    && m.steward == (if p.steward.Given? then p.steward.value else prior.steward)
    && m.domain == (if p.domain.Given? then p.domain.value else prior.domain)
    && m.sourceSystem == (if p.sourceSystem.Given? then p.sourceSystem.value else prior.sourceSystem)
    && m.sensitivity == (if p.sensitivity.Given? then p.sensitivity.value else prior.sensitivity)
    && m.updateFrequency == (if p.updateFrequency.Given? then p.updateFrequency.value else prior.updateFrequency)
    && m.qualityScore == (if p.qualityScore.Given? then p.qualityScore.value else prior.qualityScore)
    && m.freshnessScore == (if p.freshnessScore.Given? then p.freshnessScore.value else prior.freshnessScore)
    && m.tags == (if p.tags.Given? then p.tags.value else prior.tags)
    && m.terms == (if p.terms.Given? then p.terms.value else prior.terms)
    && m.relatedDatasets == (if p.relatedDatasets.Given? then p.relatedDatasets.value else prior.relatedDatasets)
    && m.schema == (if p.schema.Given? then p.schema.value else FilledAll(prior.schema))
    && m.lineageInputs == (if p.lineageInputs.Given? then p.lineageInputs.value else prior.lineageInputs)
    && m.lineageOutputs == (if p.lineageOutputs.Given? then p.lineageOutputs.value else prior.lineageOutputs)
    && m.mappings == (if p.mappings.Given? then p.mappings.value else prior.mappings)
    && m.profile == if p.profile.Given? then p.profile.value else prior.profile
  }

  lemma PatchedAmends(m: Metadata, p: PatchRequest)
    ensures Amends(m, p, Patched(m, p))
  {
  }

  /**
   What success means: a new dataset starts at `1.0.0`; every other success but a
   repeated publication takes the version numbered by the length of the history so
   far; the schema number goes up exactly when the patch names the schema; and
   publishing or deprecating touches nothing else but the status.
   */
  lemma ActResult(w: World, a: Action, change: Change)
    requires CatalogInv(w) && Act(w, a, change).1.Ok?
    ensures var ds := Act(w, a, change).1.value;
            if a.Registering? then
              && Assigned(a.request, |w.data|, ds.id) && ds.id !in w.data && ds.updatedAt == w.clock
              && ds.status == "registered" && ds.version == "1.0.0" && ds.schemaVersion == "1.0.0"
              && ds.meta == a.request.meta.(lineageInputs := [], lineageOutputs := [])
            else
              && a.id in w.data && ds.id == a.id
              && var prior := w.data[a.id];
                 && (if a.Publishing? && prior.status == "published" then ds == prior
                     else ds.version == Dotted(1, 0, |w.history[a.id]|) && ds.updatedAt == w.clock
                          && (if a.Patching? then Amends(prior.meta, a.patch, ds.meta)
                              else ds.meta == FilledMeta(prior.meta)))
                 && Third(ds.schemaVersion) ==
                    Third(prior.schemaVersion) + (if a.Patching? && !a.patch.schema.Unset? then 1 else 0)
                 && (a.Patching? ==> ds.status == prior.status)
                 && (a.Publishing? ==> ds.status == "published" && !Lacks(prior.meta))
                 && (a.Deprecating? ==> ds.status == "deprecated")
  {
    hide CatalogInv, Versions.Bump, Versions.Dotted, Third, FilledAll, Patched, AssignedId, MetadataComplete, Commit,
      Amends, Lacks, Assigned, ScoresInRange;
    if a.Registering? {
      AssignedIdExactly(a.request, |w.data|, AssignedId(a.request, |w.data|));
    } else {
      TrackedBumpsTo(w, a.id);
      FilledTwice(w.data[a.id].meta.schema);
      RefusedMeans(w, Publishing(a.id));
      if a.Patching? { PatchedAmends(w.data[a.id].meta, a.patch); }
    }
  }

  lemma TrackedBumpsTo(w: World, id: string)
    requires CatalogInv(w) && id in w.data
    ensures id in w.history && w.data[id].id == id
    ensures Bump(w.data[id].version) == Some(Dotted(1, 0, |w.history[id]|))
    ensures var next := Bump(w.data[id].schemaVersion);
            && next.Some?
            && Third(next.value) == Third(w.data[id].schemaVersion) + 1
  {
    hide Versioned, Dotted, Third, Bump;
    assert Tracked(w, id);
    var h := w.history[id];
    LastFits(h);
    BumpDotted(1, 0, |h| - 1);
    var k := Third(h[|h| - 1].schemaVersion);
    BumpDotted(1, 0, k);
    ThirdOfDotted(1, 0, k + 1);
  }

  // ----- what a history says -----

  lemma {:induction false} NumbersGrow(h: seq<Snapshot>, i: nat, j: nat)
    requires Versioned(h) && i <= j < |h|
    ensures Third(h[i].schemaVersion) <= Third(h[j].schemaVersion)
    ensures h[i].schemaVersion == h[j].schemaVersion ==> FilledAll(h[i].schema) == FilledAll(h[j].schema)
    decreases j - i
  {
    hide Dotted, Third, FilledAll;
    if i < j {
      assert EntryFits(h, j);
      NumbersGrow(h, i, j - 1);
      SameNumber(h, i, j - 1);
    }
  }

  /** Equal numbers are equal version strings. */
  lemma SameNumber(h: seq<Snapshot>, i: nat, j: nat)
    requires Versioned(h) && i < |h| && j < |h|
    ensures Third(h[i].schemaVersion) == Third(h[j].schemaVersion) ==> h[i].schemaVersion == h[j].schemaVersion
  {
    hide Dotted, Third;
    assert EntryFits(h, i) && EntryFits(h, j);
  }

  lemma {:induction false} TimesGrow(h: seq<Snapshot>, i: nat, j: nat)
    requires Versioned(h) && i < j < |h|
    ensures h[i].snapshotAt < h[j].snapshotAt
    decreases j - i
  {
    hide Dotted, Third, Follows;
    assert EntryFits(h, j);
    if i < j - 1 { TimesGrow(h, i, j - 1); }
  }

  /**
   What every reachable history says: entry `i` has version `1.0.i`, the last
   entry is the live dataset, schema numbers and times never go back, and
   entries with the same schema version have the same columns once defaults
   are filled in.
   */
  lemma HistoryTells(w: World, id: string, i: nat, j: nat)
    requires CatalogInv(w) && id in w.data && i <= j < |w.history[id]|
    ensures var h := w.history[id];
            && h[i].version == Dotted(1, 0, i)
            && Current(h, w.data[id]) && Pictures(h[|h| - 1], w.data[id])
            && h[i].schemaVersion == Dotted(1, 0, Third(h[i].schemaVersion))
            && Third(h[i].schemaVersion) <= Third(h[j].schemaVersion)
            && (i < j ==> h[i].snapshotAt < h[j].snapshotAt)
            && (h[i].schemaVersion == h[j].schemaVersion ==> FilledAll(h[i].schema) == FilledAll(h[j].schema))
  {
    hide Dotted, Third, FilledAll;
    assert Tracked(w, id);
    var h := w.history[id];
    assert EntryFits(h, i);
    NumbersGrow(h, i, j);
    if i < j { TimesGrow(h, i, j); }
  }

  // ----- published and complete -----

  /** The patch blanks one of the fields validation requires. */
  predicate GivesBlank(p: PatchRequest) {
    || p.title == Given("") || p.description == Given("") || p.steward == Given("") || p.domain == Given("")
    || p.sourceSystem == Given("") || p.sensitivity == Given("") || p.updateFrequency == Given("")
    || p.schema == Given([])
  }

  lemma PatchedComplete(ds: Dataset, updated: Dataset, p: PatchRequest)
    requires updated.meta == Patched(ds.meta, p)
    ensures GivesBlank(p) ==> Lacks(updated.meta)
    ensures !Lacks(ds.meta) ==> (!Lacks(updated.meta) <==> !GivesBlank(p))
  {
  }

  lemma PublishIncomplete(w: World, id: string, change: Change)
    requires id in w.data && Lacks(w.data[id].meta)
    ensures Publish(w, id, change) == (w, Err(Invalid))
  {
  }

  /**
   A patch that blanks a required field leaves the dataset incomplete; a complete
   dataset stays complete exactly when the patch blanks none.  Either way it keeps
   its status, and publishing it afterwards is refused exactly when it is incomplete.
   */
  lemma PatchKeepsComplete(w: World, id: string, p: PatchRequest, change: Change)
    requires CatalogInv(w) && !Refused(w, Patching(id, p))
    ensures var (w', r) := Patch(w, id, p, change);
            && r.Ok? && id in w'.data && w'.data[id] == r.value && r.value.status == w.data[id].status
            && (GivesBlank(p) ==> Lacks(w'.data[id].meta))
            && (!Lacks(w.data[id].meta) ==> (!Lacks(w'.data[id].meta) <==> !GivesBlank(p)))
            && (Publish(w', id, change).1.Err? <==> Lacks(w'.data[id].meta))
            && (Lacks(w'.data[id].meta) ==> Publish(w', id, change) == (w', Err(Invalid)))
  {
    hide CatalogInv, Patched, ScoresInRange, MetadataComplete, Lacks, GivesBlank, Commit, Versions.Bump, Register,
      Publish, Deprecate;
    TrackedBumps(w, id);
    ActOutcome(w, Patching(id, p), change);
    var (w', r) := Patch(w, id, p, change);
    PatchedComplete(w.data[id], r.value, p);
    ActKeeps(w, Patching(id, p), change);
    ActOutcome(w', Publishing(id), change);
    if Lacks(w'.data[id].meta) { PublishIncomplete(w', id, change); }
  }

  /** Every published dataset meets the publishing conditions. */
  ghost predicate PublishedComplete(w: World) {
    forall id :: id in w.data && w.data[id].status == "published" ==> !Lacks(w.data[id].meta)
  }

  /** Which single operations can break that: a patch that blanks a required field of a published dataset. */
  predicate BlanksPublished(w: World, a: Action) {
    a.Patching? && a.id in w.data && w.data[a.id].status == "published" && GivesBlank(a.patch)
  }

  lemma RestatedComplete(ds: Dataset, status: string, version: string, at: nat)
    ensures !Lacks(Restated(ds, status, version, at).meta) <==> !Lacks(ds.meta)
    ensures Restated(ds, status, version, at).status == status
  {
  }

  lemma OneChanged(w: World, w': World, ds: Dataset)
    requires PublishedComplete(w) && w'.data == w.data[ds.id := ds]
    ensures PublishedComplete(w') <==> (ds.status == "published" ==> !Lacks(ds.meta))
  {
    hide Lacks;
    assert w'.data[ds.id] == ds;
  }

  /**
   That every published dataset is complete is kept by a successful operation
   exactly when it does not blank a required field of a published dataset.
   */
  lemma ActKeepsComplete(w: World, a: Action, change: Change)
    requires CatalogInv(w) && PublishedComplete(w)
    ensures var (w', r) := Act(w, a, change);
            PublishedComplete(w') <==> r.Err? || !BlanksPublished(w, a)
  {
    hide CatalogInv, PublishedComplete, MetadataComplete, Lacks, GivesBlank, Commit, Versions.Bump, Patched,
      ScoresInRange,
      AssignedId, Restated, FilledAll;
    ActOutcome(w, a, change);
    assert "registered"[0] != "published"[0] && "deprecated"[0] != "published"[0];
    var (w', r) := Act(w, a, change);
    if r.Ok? {
      OneChanged(w, w', r.value);
      if !a.Registering? {
        TrackedBumps(w, a.id);
        PublishedIsComplete(w, a.id);
        if a.Patching? && !Lacks(w.data[a.id].meta) { PatchedComplete(w.data[a.id], r.value, a.patch); }
        var version := Bump(w.data[a.id].version).value;
        RestatedComplete(w.data[a.id], "published", version, w.clock);
        RestatedComplete(w.data[a.id], "deprecated", version, w.clock);
      }
    }
  }

  lemma PublishedIsComplete(w: World, id: string)
    requires PublishedComplete(w) && id in w.data
    ensures w.data[id].status == "published" ==> !Lacks(w.data[id].meta)
  {
    hide Lacks;
  }
}
