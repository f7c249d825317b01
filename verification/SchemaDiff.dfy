/** Comparing two schema versions of a dataset. */
module SchemaDiff {
  import opened Outcomes
  import opened Records
  import opened Versions
  import opened Catalog
  import TextOrder

  datatype Diff = Diff(
    fromVersion: string,
    toVersion: string,
    added: seq<string>,
    removed: seq<string>,
    changed: map<string, (Column, Column)>,
    kept: seq<string>)

  /** The dictionary from schema version to entry; a later entry replaces an earlier one. */
  function VersionIndex(h: seq<Snapshot>): map<string, Snapshot> {
    if h == [] then map[]
    else var n := |h| - 1; VersionIndex(h[..n])[h[n].schemaVersion := h[n]]
  }

  function SchemaVersions(w: World, id: string): Result<seq<string>, CatalogError> {
    if id !in w.data then Err(NotFound)
    else var h := HistoryOf(w, id); Ok(seq(|h|, i requires 0 <= i < |h| => h[i].schemaVersion))
  }

  /** The dictionary from column name to column; a later column replaces an earlier one. */
  function ColumnsByName(columns: seq<Column>): map<string, Column> {
    if columns == [] then map[]
    else var n := |columns| - 1; ColumnsByName(columns[..n])[columns[n].name := columns[n]]
  }

  function NamesAmong(columns: seq<Column>, names: set<string>): seq<string> {
    if columns == [] then []
    else (if columns[0].name in names then [columns[0].name] else []) + NamesAmong(columns[1..], names)
  }

  /** Those of the names that some column has, sorted. */
  function Listed(columns: seq<Column>, names: set<string>): seq<string> {
    TextOrder.SortedNames(NamesAmong(columns, names))
  }

  /** The diff of two column lists. */
  function Compare(fromVersion: string, toVersion: string, prior: seq<Column>, next: seq<Column>): Diff {
    var before, after := ColumnsByName(prior), ColumnsByName(next);
    Diff(fromVersion, toVersion,
         Listed(next, after.Keys - before.Keys),
         Listed(prior, before.Keys - after.Keys),
         map name | name in before && name in after && before[name] != after[name] :: (before[name], after[name]),
         Listed(prior, set name | name in before && name in after && before[name] == after[name]))
  }

  function SchemaDiff(w: World, id: string, fromVersion: string, toVersion: string): Result<Diff, CatalogError> {
    if id !in w.data then Err(NotFound)
    else
      var index := VersionIndex(HistoryOf(w, id));
      if fromVersion !in index || toVersion !in index then Err(Invalid)
      else Ok(Compare(fromVersion, toVersion, index[fromVersion].schema, index[toVersion].schema))
  }

  // ----- the index -----

  /** Entry `k` is the last one of this version. */
  ghost predicate LastOf(h: seq<Snapshot>, version: string, k: nat) {
    k < |h| && h[k].schemaVersion == version && forall j :: k < j < |h| ==> h[j].schemaVersion != version
  }

  /** The index holds, for each listed version, an entry with that version, and nothing else. */
  lemma {:induction false} IndexExact(h: seq<Snapshot>, version: string)
    ensures version in VersionIndex(h) <==> exists i :: 0 <= i < |h| && h[i].schemaVersion == version
    ensures version in VersionIndex(h) ==>
              VersionIndex(h)[version].schemaVersion == version && VersionIndex(h)[version] in h
  {
    if h != [] {
      var n := |h| - 1;
      IndexExact(h[..n], version);
      assert forall i :: 0 <= i < n ==> h[..n][i] == h[i];
      assert h == h[..n] + [h[n]];
      if h[n].schemaVersion != version && exists i :: 0 <= i < |h| && h[i].schemaVersion == version {
        var i :| 0 <= i < |h| && h[i].schemaVersion == version;
        assert h[..n][i] == h[i];
      }
    }
  }

  /** Of several entries with one version the index holds the last. */
  lemma {:induction false} IndexLast(h: seq<Snapshot>, version: string, k: nat)
    requires LastOf(h, version, k)
    ensures version in VersionIndex(h) && VersionIndex(h)[version] == h[k]
  {
    var n := |h| - 1;
    if k < n {
      assert h[n].schemaVersion != version;
      IndexLast(h[..n], version, k);
    }
  }

  /** Whichever entry the index keeps, no schema is lost: all entries of one version hold the same columns. */
  lemma IndexLosesNoSchema(w: World, id: string, i: nat)
    requires CatalogInv(w) && id in w.data && i < |w.history[id]|
    ensures var h := w.history[id];
            && h[i].schemaVersion in VersionIndex(h)
            && FilledAll(VersionIndex(h)[h[i].schemaVersion].schema) == FilledAll(h[i].schema)
  {
    hide Versioned, FilledAll, VersionIndex;
    var h := w.history[id];
    IndexExact(h, h[i].schemaVersion);
    assert Tracked(w, id);
    var kept := VersionIndex(h)[h[i].schemaVersion];
    var j :| 0 <= j < |h| && h[j] == kept;
    if i <= j { NumbersGrow(h, i, j); } else { NumbersGrow(h, j, i); }
  }

  // ----- columns -----

  ghost predicate LastAt(columns: seq<Column>, name: string, k: nat) {
    k < |columns| && columns[k].name == name && forall j :: k < j < |columns| ==> columns[j].name != name
  }

  /** A column name resolves to its last occurrence. */
  lemma {:induction false} ColumnsByNameExact(columns: seq<Column>, name: string)
    ensures name !in ColumnsByName(columns) ==> forall k :: 0 <= k < |columns| ==> columns[k].name != name
    ensures name in ColumnsByName(columns) ==>
            exists k: nat :: LastAt(columns, name, k) && ColumnsByName(columns)[name] == columns[k]
  {
    if columns != [] {
      var n := |columns| - 1;
      ColumnsByNameExact(columns[..n], name);
      assert forall k :: 0 <= k < n ==> columns[..n][k] == columns[k];
      if columns[n].name == name {
        assert LastAt(columns, name, n);
      } else if name in ColumnsByName(columns) {
        var k: nat :| LastAt(columns[..n], name, k) && ColumnsByName(columns[..n])[name] == columns[..n][k];
        assert LastAt(columns, name, k);
      }
    }
  }

  /** Filling in defaults neither adds, drops nor reorders columns. */
  lemma {:induction false} ColumnsFilled(columns: seq<Column>)
    ensures ColumnsByName(FilledAll(columns)).Keys == ColumnsByName(columns).Keys
    ensures forall name :: name in ColumnsByName(columns) ==>
              ColumnsByName(FilledAll(columns))[name] == Filled(ColumnsByName(columns)[name])
  {
    if columns != [] {
      var n := |columns| - 1;
      ColumnsFilled(columns[..n]);
      assert FilledAll(columns)[..n] == FilledAll(columns[..n]);
    }
  }

  /** The columns of an entry, with defaults filled in. */
  ghost function Columns(s: Snapshot): map<string, Column> {
    ColumnsByName(FilledAll(s.schema))
  }

  /** The two columns spell out the same optional fields. */
  predicate SameFields(a: Column, b: Column) {
    a.qualityIssues.Some? == b.qualityIssues.Some? && a.pii.Some? == b.pii.Some?
  }

  lemma RawEquality(a: Column, b: Column)
    ensures a == b <==> Filled(a) == Filled(b) && SameFields(a, b)
  {
  }

  // ----- the diff -----

  /** A request is answered exactly when the dataset exists and both versions are listed. */
  lemma DiffAccepts(w: World, id: string, fromVersion: string, toVersion: string)
    ensures SchemaDiff(w, id, fromVersion, toVersion).Ok? <==>
              SchemaVersions(w, id).Ok? && fromVersion in SchemaVersions(w, id).value
                && toVersion in SchemaVersions(w, id).value
    ensures (SchemaDiff(w, id, fromVersion, toVersion) == Err(NotFound) <==> id !in w.data)
            && (SchemaVersions(w, id) == Err(NotFound) <==> id !in w.data)
    ensures id in w.data && id in w.history ==>
              var versions := SchemaVersions(w, id).value;
              |versions| == |w.history[id]|
              && forall i :: 0 <= i < |versions| ==> versions[i] == w.history[id][i].schemaVersion
  {
    if id in w.data {
      hide VersionIndex;
      var h, versions := HistoryOf(w, id), SchemaVersions(w, id).value;
      IndexExact(h, fromVersion);
      IndexExact(h, toVersion);
      assert forall i :: 0 <= i < |h| ==> versions[i] == h[i].schemaVersion;
    }
  }

  ghost function Names(names: seq<string>): set<string> {
    set name | name in names
  }

  lemma {:induction false} NamesAmongExact(columns: seq<Column>, names: set<string>, name: string)
    ensures name in NamesAmong(columns, names) <==>
              name in names && exists k :: 0 <= k < |columns| && columns[k].name == name
  {
    if columns != [] {
      NamesAmongExact(columns[1..], names, name);
      assert forall k :: 1 <= k < |columns| ==> columns[k] == columns[1..][k - 1];
    }
  }

  /** A list of names the columns have is sorted and loses none. */
  lemma ListedExact(columns: seq<Column>, names: set<string>)
    requires names <= ColumnsByName(columns).Keys
    ensures TextOrder.Ascending(Listed(columns, names)) && Names(Listed(columns, names)) == names
  {
    hide ColumnsByName, NamesAmong, TextOrder.SortedNames;
    TextOrder.SortedNamesExact(NamesAmong(columns, names));
    forall name ensures name in NamesAmong(columns, names) <==> name in names {
      NamesAmongExact(columns, names, name);
      ColumnsByNameExact(columns, name);
    }
  }

  /** The three lists of a diff, as sets; each is sorted. */
  lemma CompareExact(fromVersion: string, toVersion: string, prior: seq<Column>, next: seq<Column>)
    ensures var before, after := ColumnsByName(prior), ColumnsByName(next);
            var d := Compare(fromVersion, toVersion, prior, next);
            && d.fromVersion == fromVersion && d.toVersion == toVersion
            && TextOrder.Ascending(d.added) && TextOrder.Ascending(d.removed) && TextOrder.Ascending(d.kept)
            && Names(d.added) == after.Keys - before.Keys && Names(d.removed) == before.Keys - after.Keys
            && Names(d.kept) == (set name | name in before && name in after && before[name] == after[name])
            && d.changed == map name | name in before && name in after && before[name] != after[name] ::
                              (before[name], after[name])
  {
    hide ColumnsByName, Listed, Names, TextOrder.Ascending;
    var before, after := ColumnsByName(prior), ColumnsByName(next);
    ListedExact(next, after.Keys - before.Keys);
    ListedExact(prior, before.Keys - after.Keys);
    ListedExact(prior, set name | name in before && name in after && before[name] == after[name]);
  }

  /** Any two entries of a reachable history can be compared, and added and removed names are those entries' own. */
  lemma DiffOfEntries(w: World, id: string, i: nat, j: nat)
    requires CatalogInv(w) && id in w.data && i < |w.history[id]| && j < |w.history[id]|
    ensures var a, b := w.history[id][i], w.history[id][j];
            var r := SchemaDiff(w, id, a.schemaVersion, b.schemaVersion);
            && r.Ok?
            && Names(r.value.added) == Columns(b).Keys - Columns(a).Keys
            && Names(r.value.removed) == Columns(a).Keys - Columns(b).Keys
            && r.value.changed.Keys + Names(r.value.kept) == Columns(a).Keys * Columns(b).Keys
            && r.value.changed.Keys !! Names(r.value.kept)
            && (forall name :: name in Columns(a).Keys * Columns(b).Keys && Columns(a)[name] != Columns(b)[name] ==>
                  name in r.value.changed)
  {
    hide Versioned, FilledAll, VersionIndex, Compare, ColumnsByName, Names, TextOrder.Ascending;
    var a, b := w.history[id][i], w.history[id][j];
    IndexLosesNoSchema(w, id, i);
    IndexLosesNoSchema(w, id, j);
    var index := VersionIndex(w.history[id]);
    ColumnsFilled(index[a.schemaVersion].schema);
    ColumnsFilled(index[b.schemaVersion].schema);
    CompareExact(a.schemaVersion, b.schemaVersion, index[a.schemaVersion].schema, index[b.schemaVersion].schema);
  }

  /**
   Added, removed, changed and unchanged split all names and lead from the old
   names to the new ones; the lists are sorted.  A common column is listed as
   changed exactly when it differs once defaults are filled in, or spells out
   other optional fields.
   */
  lemma DiffPartitions(w: World, id: string, fromVersion: string, toVersion: string)
    requires SchemaDiff(w, id, fromVersion, toVersion).Ok?
    ensures var d := SchemaDiff(w, id, fromVersion, toVersion).value;
            var index := VersionIndex(HistoryOf(w, id));
            var before := ColumnsByName(index[fromVersion].schema);
            var after := ColumnsByName(index[toVersion].schema);
            && TextOrder.Ascending(d.added) && TextOrder.Ascending(d.removed) && TextOrder.Ascending(d.kept)
            && Names(d.added) + Names(d.removed) + d.changed.Keys + Names(d.kept) == before.Keys + after.Keys
            && Names(d.added) !! Names(d.removed) !! d.changed.Keys !! Names(d.kept)
            && before.Keys - Names(d.removed) + Names(d.added) == after.Keys
            && d.fromVersion == fromVersion && d.toVersion == toVersion
            && (forall name :: name in d.changed ==>
                  name in before && name in after && d.changed[name] == (before[name], after[name]))
            && (forall name :: name in d.changed <==>
                  name in before && name in after
                  && (Filled(before[name]) != Filled(after[name]) || !SameFields(before[name], after[name])))
  {
    hide VersionIndex, ColumnsByName, Compare, Names, TextOrder.Ascending;
    var index := VersionIndex(HistoryOf(w, id));
    var before := ColumnsByName(index[fromVersion].schema);
    var after := ColumnsByName(index[toVersion].schema);
    CompareExact(fromVersion, toVersion, index[fromVersion].schema, index[toVersion].schema);
    var d := Compare(fromVersion, toVersion, index[fromVersion].schema, index[toVersion].schema);
    forall name | name in before && name in after
      ensures name in d.changed <==>
              Filled(before[name]) != Filled(after[name]) || !SameFields(before[name], after[name])
    {
      RawEquality(before[name], after[name]);
    }
  }

  function Swapped(d: Diff): Diff {
    Diff(d.toVersion, d.fromVersion, d.removed, d.added,
         map name | name in d.changed :: (d.changed[name].1, d.changed[name].0), d.kept)
  }

  /** Comparing in the other direction swaps added with removed and before with after. */
  lemma DiffSwaps(w: World, id: string, fromVersion: string, toVersion: string)
    requires SchemaDiff(w, id, fromVersion, toVersion).Ok?
    ensures SchemaDiff(w, id, toVersion, fromVersion) == Ok(Swapped(SchemaDiff(w, id, fromVersion, toVersion).value))
  {
    hide VersionIndex, Compare;
    var index := VersionIndex(HistoryOf(w, id));
    CompareSwaps(fromVersion, toVersion, index[fromVersion].schema, index[toVersion].schema);
  }

  lemma CompareSwaps(fromVersion: string, toVersion: string, prior: seq<Column>, next: seq<Column>)
    ensures Compare(toVersion, fromVersion, next, prior) == Swapped(Compare(fromVersion, toVersion, prior, next))
  {
    CompareExact(fromVersion, toVersion, prior, next);
    CompareExact(toVersion, fromVersion, next, prior);
    var d, back := Compare(fromVersion, toVersion, prior, next), Compare(toVersion, fromVersion, next, prior);
    hide ColumnsByName, Listed, TextOrder.Ascending;
    var before, after := ColumnsByName(prior), ColumnsByName(next);
    assert back.changed == Swapped(d).changed;
    assert Names(back.kept) == Names(d.kept);
    forall name ensures name in back.kept <==> name in d.kept {
      assert name in Names(back.kept) <==> name in Names(d.kept);
    }
    TextOrder.AscendingDetermined(back.kept, d.kept);
  }

  /** A version compared with itself shows no difference. */
  lemma DiffWithItself(w: World, id: string, version: string)
    requires SchemaDiff(w, id, version, version).Ok?
    ensures var d := SchemaDiff(w, id, version, version).value;
            d.added == [] && d.removed == [] && d.changed == map[]
  {
    hide VersionIndex, ColumnsByName;
    var schema := VersionIndex(HistoryOf(w, id))[version].schema;
    CompareExact(version, version, schema, schema);
    var d := Compare(version, version, schema, schema);
    assert Names(d.added) == {} && Names(d.removed) == {};
    TextOrder.SomeName(d.added);
    TextOrder.SomeName(d.removed);
    hide Compare;
    forall name ensures name !in d.added && name !in d.removed {
      assert name !in Names(d.added) && name !in Names(d.removed);
    }
  }

  // ----- columns spelled out in full -----

  /** Every optional field of every column is written out. */
  predicate SpelledOut(columns: seq<Column>) {
    forall i :: 0 <= i < |columns| ==> Filled(columns[i]) == columns[i]
  }

  /** What an operation does not spell out: new columns as they were sent, with fields left out. */
  predicate Abridges(a: Action) {
    match a
    case Registering(request) => !SpelledOut(request.meta.schema)
    case Patching(_, p) => p.schema.Given? && !SpelledOut(p.schema.value)
    case Publishing(_) => false
    case Deprecating(_) => false
  }

  /**
   Publishing, deprecating and patching without new columns write an entry that is
   spelled out in full, and so does anything that sends its columns in full; the
   entry stands for its schema version.
   */
  lemma ActSpellsOut(w: World, a: Action, change: Change)
    requires CatalogInv(w) && Act(w, a, change).1.Ok? && !Abridges(a)
    requires !(a.Publishing? && a.id in w.data && w.data[a.id].status == "published")
    ensures var (w', r) := Act(w, a, change);
            && r.value.id in w'.history && w'.history[r.value.id] != []
            && var h := w'.history[r.value.id];
               && SpelledOut(h[|h| - 1].schema)
               && h[|h| - 1].schemaVersion in VersionIndex(h) && VersionIndex(h)[h[|h| - 1].schemaVersion] == h[|h| - 1]
  {
    hide CatalogInv, Bump, AssignedId, MetadataComplete, ScoresInRange, Commit;
    var (w', r) := Act(w, a, change);
    if !a.Registering? { TrackedBumps(w, a.id); }
    match a
    case Registering(_) => CommitParts(Tick(w), r.value, "dataset.register", change);
    case Patching(_, _) => CommitParts(Tick(w), r.value, "dataset.patch", change);
    case Publishing(_) => CommitParts(Tick(w), r.value, "dataset.publish", change);
    case Deprecating(_) => CommitParts(Tick(w), r.value, "dataset.deprecate", change);
  }

  lemma {:induction false} ColumnsSpelledOut(columns: seq<Column>)
    requires SpelledOut(columns)
    ensures forall name :: name in ColumnsByName(columns) ==>
            Filled(ColumnsByName(columns)[name]) == ColumnsByName(columns)[name]
  {
    if columns != [] { ColumnsSpelledOut(columns[..|columns| - 1]); }
  }

  /** Between entries spelled out in full no change is spurious: the columns listed as changed are those that differ. */
  lemma SpelledOutDiff(w: World, id: string, fromVersion: string, toVersion: string)
    requires SchemaDiff(w, id, fromVersion, toVersion).Ok?
    ensures var index := VersionIndex(HistoryOf(w, id));
            var d := SchemaDiff(w, id, fromVersion, toVersion).value;
            SpelledOut(index[fromVersion].schema) && SpelledOut(index[toVersion].schema) ==>
              forall name :: name in d.changed <==>
                && name in Columns(index[fromVersion]) && name in Columns(index[toVersion])
                && Columns(index[fromVersion])[name] != Columns(index[toVersion])[name]
  {
    hide VersionIndex, Compare, ColumnsByName, SpelledOut, Names, TextOrder.Ascending, FilledAll, Filled;
    var index := VersionIndex(HistoryOf(w, id));
    var a, b := index[fromVersion].schema, index[toVersion].schema;
    if SpelledOut(a) && SpelledOut(b) {
      CompareExact(fromVersion, toVersion, a, b);
      ColumnsFilled(a);
      ColumnsFilled(b);
      ColumnsSpelledOut(a);
      ColumnsSpelledOut(b);
    }
  }

  // ----- a column reported as changed though it did not change -----

  const PLAIN := Column("email", "string", 0.0, 1.0, None, None)

  const NULL_SCHEMA := BLANK.(schema := Null)

  /**
   A dataset registered with one column whose optional fields are left out, then
   patched with a null schema: the columns stay as they are, yet the diff of
   the two schema versions lists the column as changed.
   */
  lemma SpuriousChange(w: World, m: Metadata, change: Change)
    requires CatalogInv(w) && "d" !in w.data && m.schema == [PLAIN] && ScoresInRange(m)
    ensures var w1 := Register(w, CreateRequest(Some("d"), m), change).0;
            var w2 := Patch(w1, "d", NULL_SCHEMA, change).0;
            var d := SchemaDiff(w2, "d", "1.0.0", "1.0.1");
            && d.Ok? && d.value.changed.Keys == {"email"}
            && forall i :: 0 <= i < |w2.history["d"]| ==> FilledAll(w2.history["d"][i].schema) == [Filled(PLAIN)]
  {
    hide CatalogInv, Register, Patch, ColumnsByName, VersionIndex, ScoresInRange, Listed;
    var w1 := Register(w, CreateRequest(Some("d"), m), change).0;
    var w2 := Patch(w1, "d", NULL_SCHEMA, change).0;
    FirstEntry(w, m, change);
    var first := w1.history["d"][0];
    SecondEntry(w1, w1.data["d"], first, change);
    var h := w2.history["d"];
    assert h == [h[0], h[1]];
    TwoEntries(h[0], h[1]);
    assert "1.0.0"[4] != "1.0.1"[4];
    assert FilledAll([PLAIN]) == [Filled(PLAIN)] == FilledAll([Filled(PLAIN)]);
    OneColumn(PLAIN);
    OneColumn(Filled(PLAIN));
  }

  lemma FirstEntry(w: World, m: Metadata, change: Change)
    requires CatalogInv(w) && "d" !in w.data && m.schema == [PLAIN] && ScoresInRange(m)
    ensures var w1 := Register(w, CreateRequest(Some("d"), m), change).0;
            && "d" in w1.data && "d" in w1.history && |w1.history["d"]| == 1
            && var ds, entry := w1.data["d"], w1.history["d"][0];
               && ds.id == "d" && ds.version == "1.0.0" && ds.schemaVersion == "1.0.0"
               && ds.meta.schema == [PLAIN] && ScoresInRange(ds.meta)
               && entry.schemaVersion == "1.0.0" && entry.schema == [PLAIN]
  {
    hide Commit, Tracked;
    assert "d" !in w.history;
    var ds := Dataset("d", m.(lineageInputs := [], lineageOutputs := []), "1.0.0", "1.0.0", "registered", w.clock);
    CommitParts(Tick(w), ds, "dataset.register", change);
  }

  lemma SecondEntry(w: World, ds: Dataset, first: Snapshot, change: Change)
    requires "d" in w.data && w.data["d"] == ds && "d" in w.history && w.history["d"] == [first]
    requires ds.id == "d" && ds.version == "1.0.0" && ds.schemaVersion == "1.0.0"
    requires ds.meta.schema == [PLAIN] && ScoresInRange(ds.meta)
    ensures var w2 := Patch(w, "d", NULL_SCHEMA, change).0;
            && "d" in w2.data && "d" in w2.history && |w2.history["d"]| == 2 && w2.history["d"][0] == first
            && w2.history["d"][1].schemaVersion == "1.0.1" && w2.history["d"][1].schema == [Filled(PLAIN)]
  {
    hide Commit, Bump;
    SecondVersion();
    var ds2 := Dataset("d", Patched(ds.meta, NULL_SCHEMA), "1.0.1", "1.0.1", ds.status, w.clock);
    CommitParts(Tick(w), ds2, "dataset.patch", change);
    assert FilledAll([PLAIN]) == [Filled(PLAIN)];
  }

  lemma SecondVersion()
    ensures Bump("1.0.0") == Some("1.0.1")
  {
    hide Bump;
    BumpDotted(1, 0, 0);
    assert PrintNat(0) == "0" && PrintNat(1) == "1";
    assert Dotted(1, 0, 0) == "1.0.0" && Dotted(1, 0, 1) == "1.0.1";
  }

  lemma TwoEntries(a: Snapshot, b: Snapshot)
    ensures VersionIndex([a, b]) == map[a.schemaVersion := a][b.schemaVersion := b]
  {
    assert [a, b][..1] == [a] && [a][..0] == [];
    assert VersionIndex([a]) == map[a.schemaVersion := a];
  }

  lemma OneColumn(c: Column)
    ensures ColumnsByName([c]) == map[c.name := c]
  {
    assert [c][..0] == [];
  }
}
