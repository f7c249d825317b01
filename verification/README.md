# A verified model of the semantic data portal

The portal is a data catalog with a property graph beside it. Analysts find
datasets, ask the policy for access, preview masked rows and run guarded SQL;
every decision and every access is recorded. This project models its working
core in Dafny and proves what the modules promise together.

| file | what it models |
|---|---|
| `GraphModel`, `GraphWalks`, `GraphTraversal` | graph entities, walks, and the breadth-first traversal over a FIFO queue |
| `GraphUpserts`, `GraphReplay`, `GraphStore`, `Seed` | upserts as lists of writes, replay, the store object, and the seeding loops |
| `Versions`, `Catalog`, `SchemaDiff`, `AuditTrail` | version text, catalog changes, schema history and its diff, history against audit log |
| `Evidence`, `DecisionLog` | recording and listing audit events and policy decisions, with or without a store |
| `Policy`, `Browse`, `Orchestrator` | the policy cascade, masked previews, query execution |
| `SqlGate`, `SqlRules`, `SqlPhrases`, `SqlLists`, `SqlNesting` | the SQL gate, its rules on the query's own characters and words, texts spelled word by word, and what the gate does not look at |
| `Governance`, `Portal` | whole runs of the portal, and the portal object updated in place |
| `MigrationText`, `Migrations`, `Splitting` | the dimension substitution, the migration splitter, and what it returns without its loop |
| `DesignTokens` | the splice loop that resolves `var(...)` references |
| `Embeddings`, `Search` | token histograms, cosine similarity, and the store that uses them |
| `Records`, `Outcomes`, `PyText`, `Sorting`, `TextOrder` | shared records, results, Python text operations, stable sorting, sorted names |

State that the source updates in place is a class here: `GraphStore.InMemoryGraphStore`
with its `GraphEdge` objects, and `Portal.Portal` with the catalog dictionary,
the schema histories, both logs and the optional evidence store. Every method of
these classes is proved to take the state where a function on plain values says;
the theorems about runs are lemmas about those functions, and the invariant they
establish is the `Valid` of the class.

## How to read the results

* **Graph.** `Within` says that a walk of at most so many allowed edges exists.
  `Traverse` returns exactly those ids, nearest first, and exactly the edges
  followed from above the depth bound; a filter is the same as leaving out the
  edges of other types (`FilteredAnswers`). Replaying any list of upserts is proved
  by showing that each dictionary and each edge's properties after a run are the
  ones before it overlaid with the last writes, so a second overlay changes
  nothing.
* **Catalog.** `CatalogInv` ties each live dataset to its history; `Trail` pairs
  each history with the audit events of its changes; `Governed` adds what holds
  of the evidence. `ReachableWorlds` collects all of it for every run of catalog
  changes, evaluations, previews, schema reads and queries in any order.
* **Portal.** `Portal.Valid` is `Governed`: every operation of the object keeps it,
  and its contract names the one event, the decision and the history entry it leaves.
* **SQL gate.** `SqlRules` says what each rule objects to in the query as it was
  sent, and `AcceptedExactly` what passes them all. `Reference` is what one alternative of the pattern matches at a
  given position, overlapping matches included; `FindAll` is the leftmost,
  non-overlapping scan. `ScanDecides` says when the scan misses nothing, and
  `ListTail` and `Nested` what it does not look at.
* **Migrations.** `StatementsExactly` characterises the splitter by the one way of
  cutting the lines into pieces that end where a semicolon stands outside dollar
  quotes; `RenderExactly` does the same for the dimension substitution.
* **Design tokens.** The loop is compared with a recursive expansion that pays
  one step for each reference, for every budget and every token map, cyclic and
  incomplete ones included; `CleanExactly` says for which texts the two agree.

## Where the code does not do what one might expect

* In text the SQL gate accepts, every FROM or JOIN followed by whitespace and a
  name names the source's table exactly for the sources whose table is neither
  `from` nor `join` (`SqlGate.ScanCompleteExactly`). For such a table a reference
  can swallow the keyword of the next one, as in `select a from from x`.
* The gate does not look at names listed after a comma: `select a from a.t, x` is
  accepted for the table `t`. Lists are kept to the source's table exactly for the
  sources whose table is itself a forbidden word, and for those nothing at all is
  accepted (`SqlLists.ListGuardedExactly`). Text without a comma lists no other
  table (`SqlLists.CommaFreeGuarded`).
* Nor does it look behind an opening parenthesis, because its pattern demands
  whitespace after the keyword: `select a from a.t cross join(x cross join a.t)` is
  accepted for the table `t`, with the same exact condition on the source
  (`SqlNesting.NestingGuardedExactly`). Text without an opening parenthesis reads no
  other table after FROM or JOIN (`SqlNesting.ParenFreeGuarded`).
* The schema diff compares columns as they were written, defaults left out
  included. A patch with a null schema raises the schema version without
  touching a column, and the diff of the two versions can still list a column as
  changed (`SchemaDiff.SpuriousChange`; the exact condition is in
  `SchemaDiff.DiffPartitions`). Between entries spelled out in full, which is what
  every operation but a register or a patch with abridged columns writes, that does
  not happen (`SchemaDiff.ActSpellsOut`, `SchemaDiff.SpelledOutDiff`).
* Published datasets need not stay complete: a patch may blank a required text
  field or empty the schema. They stay complete exactly when no patch does that
  (`Catalog.PatchKeepsComplete` for one patch, `Governance.RunKeepsComplete` for
  every run).
* A subject outside the actor table is let through for unnamed actions on
  datasets with an empty tenant (`Policy.StrangersAllowed`).
* The pattern for relationship types ends in `$`, which also accepts a final
  newline; such a type then fails the alphabet check with the other message
  (`GraphModel.LabelExactlyForIdentifiers`).
* Rendering with a negative dimension produces text the pattern no longer
  matches, so a later rendering cannot correct it
  (`MigrationText.RenderAgainExactly`).

## Model

| member | source | states |
|---|---|---|
| `GraphModel.LabelExactlyForIdentifiers` | src/sdp/graph_store.py:80-101 | A label is produced for ASCII identifiers and for no other text; it is the name in upper case; the second exception is raised exactly for an identifier followed by one newline |
| `GraphModel.NormalizeAlike` | src/sdp/graph_store.py:68-69 | Two names are indexed alike exactly when, stripped, they agree character by character up to letter case and underscore for space |
| `GraphWalks.JoinsExactly` | src/sdp/graph_store.py:347-358 | An edge is followed exactly when the filter is empty or holds its type and the direction lets it lead from the one end to the other |
| `GraphWalks.FilterRestricts` | src/sdp/graph_store.py:338-358 | Walks under a filter are exactly the walks without one over the edges of its types, at every depth |
| `GraphWalks.WithinMonotone` | src/sdp/graph_store.py:342-365 | What is reached at some depth stays reached at a greater one |
| `GraphWalks.DirectionDuality` | src/sdp/graph_store.py:342-365 | b is reached from a outwards in d steps exactly when a is reached from b inwards; `both` is symmetric |
| `GraphWalks.Saturation` | src/sdp/graph_store.py:342-365 | From one less than the number of distinct ids (start and all ends of edges) on, a greater depth reaches nothing more |
| `GraphTraversal.BreadthFirst` | src/sdp/graph_store.py:342-365 | The FIFO loop with its visited depths terminates and returns exactly the ids within the depth bound, each once, in nondecreasing true distance, and each followed edge exactly once; both in the order in which they are met, id after id and edge after edge |
| `GraphStore.InMemoryGraphStore.Traverse` | src/sdp/graph_store.py:323-372 | Unknown start is an error; an edge filter with a bad type is an error; otherwise nodes, placeholders for dangling ends included, and edges are exactly those a walk of at most `max_depth` steps justifies, in visiting order; under a filter every returned edge has one of its types |
| `GraphStore.FilteredAnswers` | src/sdp/graph_store.py:338-372 | A filtered traversal answers exactly what an unfiltered one answers over the edges of the given types: the same nodes and edges in the same order |
| `GraphStore.InMemoryGraphStore.CheckLabels` | src/sdp/graph_store.py:333-335 | No exception exactly when every filter entry is an identifier |
| `GraphStore.ReturnedEdgesClosed` | src/sdp/graph_store.py:342-372 | Both ends of every returned edge are among the returned nodes |
| `GraphStore.MissingEdgesAtTheRim` | src/sdp/graph_store.py:342-372 | Among allowed edges between returned nodes exactly those are missing whose every end the direction could follow them from is reached at the depth bound and no earlier; for `both` that is both ends |
| `GraphStore.InMemoryGraphStore.constructor` | src/sdp/graph_store.py:195-202 | A new store is empty and valid |
| `GraphStore.InMemoryGraphStore.UpsertNode` | src/sdp/graph_store.py:206-224 | Replaces the node and its embedding, leaves the edges and everything else alone |
| `GraphStore.InMemoryGraphStore.MergeEdge` | src/sdp/graph_store.py:237-247 | Merges properties into the edge object with the key, in place, or appends one new object; other edge objects and the other fields do not change |
| `GraphStore.InMemoryGraphStore.UpsertEdge` | src/sdp/graph_store.py:226-247 | Fails exactly for types that are no identifiers, then without any change; otherwise the stored edge has the requested key and later properties win |
| `GraphStore.InMemoryGraphStore.IndexAliases` | src/sdp/graph_store.py:262-265 | Every name points to the concept afterwards, later names winning |
| `GraphStore.InMemoryGraphStore.LinkAll` | src/sdp/graph_store.py:283-290 | One edge upsert for each target, in order |
| `GraphStore.InMemoryGraphStore.UpsertConcept` | src/sdp/graph_store.py:249-291 | The record under its stripped name, its alias index entries, its mirror node and its ontology edges, as one step of the model |
| `GraphStore.InMemoryGraphStore.ConceptGraph` | src/sdp/graph_store.py:296-321 | Found exactly when the canonical form of the term is a concept; then its record and the sources of its `mapping` edges, sorted |
| `GraphStore.MappingSourcesExact` | src/sdp/graph_store.py:304-310 | The mapped datasets are in ascending order, and an id is among them exactly when a `mapping` edge leads from it to the concept |
| `TextOrder.SortedNamesExact` | src/sdp/catalog.py:334-338 | Sorting names keeps each once, in ascending order by code point |
| `TextOrder.AscendingDetermined` | src/sdp/catalog.py:334-338 | The sorted list is determined by which names it holds |
| `TextOrder.BeforeExactly` | src/sdp/catalog.py:334-338 | Names are ordered by their first differing character, a prefix before its extensions |
| `GraphStore.InMemoryGraphStore.SemanticSearch` | src/sdp/graph_store.py:374-393 | The `limit` best rows by falling score, ties in insertion order, over the embeddings of the requested kind |
| `GraphStore.SearchListed` | src/sdp/graph_store.py:392-393 | A search lists candidates only, by falling score, as many as the limit leaves |
| `GraphStore.CandidatesExact` | src/sdp/graph_store.py:379-391 | A row is a candidate exactly when it is the scored row of an embedded node of the requested kind |
| `GraphStore.CandidatesInOrder` | src/sdp/graph_store.py:379-391 | The candidate rows come in the insertion order of the nodes |
| `GraphStore.SearchKeepsBest` | src/sdp/graph_store.py:392-393 | No row kept scores below a row cut off, whatever the limit |
| `GraphStore.SearchTiesInOrder` | src/sdp/graph_store.py:392-393 | Rows of one score keep their insertion order, and the slice keeps the first of them |
| `GraphStore.InMemoryGraphStore.Stats` | src/sdp/graph_store.py:405-411 | Counts nodes, edges, concepts and embeddings |
| `Search.OpenStore` | src/sdp/graph_store.py:195-202 | A new store over the hashing embedding of a text and the rounded cosine of two vectors |
| `Search.RoundedMonotone` | src/sdp/graph_store.py:389-389 | Rounding to six places keeps the order of scores and the scores -1, 0 and 1 |
| `Search.RoundedExactly` | src/sdp/graph_store.py:389-389 | A rounded score is the nearest millionth, ties to the even one |
| `Search.ScoresBounded` | src/sdp/graph_store.py:374-393 | Every candidate of a search scores between -1 and 1 |
| `Search.FoundByOwnText` | src/sdp/graph_store.py:374-393 | A node searched for by the text it was embedded over is a candidate with score 1, and no candidate scores higher, unless the text embeds to the zero vector |
| `Search.UpsertedNode` | src/sdp/graph_store.py:206-224 | After a node upsert the node has the given kind and properties and its label, else its id, and the vector under its id is the embedding of its text, else its label, else its id |
| `GraphUpserts.StepKeeps` | src/sdp/graph_store.py:206-291 | Every upsert keeps the invariant: distinct edge keys, identifier types, embeddings keyed like nodes and of the right length, concepts mirrored by nodes, alias targets known |
| `GraphUpserts.ReachableConsistent` | src/sdp/graph_store.py:206-291 | So every store built by any list of upserts satisfies it |
| `GraphUpserts.NodeUpserted` | src/sdp/graph_store.py:206-224 | A node call replaces node and embedding under the id, with the fallbacks for label and text, and nothing else |
| `GraphUpserts.EdgeUpserted` | src/sdp/graph_store.py:226-247 | An edge call merges into the one edge with the key or appends the edge, and changes nothing else; a type that is no identifier changes nothing |
| `GraphUpserts.JoinSpacesExact` | src/sdp/graph_store.py:268-270 | Embedded texts are the parts with one space between neighbours |
| `GraphReplay.DictionariesAfter` | src/sdp/graph_store.py:206-291 | After any list of writes each dictionary is the one before overlaid with the last write to each key |
| `GraphReplay.PropertiesAfter` | src/sdp/graph_store.py:237-247 | After any list of writes the properties of an edge are the ones before overlaid with those written to its key, the last winning |
| `GraphReplay.Replay` | src/sdp/graph_store.py:206-291 | Running any list of upserts a second time changes nothing: nodes, edge list with order and merged properties, embeddings, concepts, aliases |
| `GraphReplay.ReplayFromReachable` | src/sdp/graph_store.py:206-291 | The same from every reachable store |
| `GraphReplay.ConceptResolves` | src/sdp/graph_store.py:249-321 | Right after a concept upsert the concept and each of its aliases and multilingual names resolve to it |
| `GraphReplay.ConceptUpserted` | src/sdp/graph_store.py:249-291 | A concept call in the terms of its payload: record, alias index, mirror node and embedding, and exactly the ontology edges asked for besides the old ones, with no property of any edge changed |
| `Seed.SeedStore` | src/sdp/seed.py:21-93 | The seeding loops take the store where one list of upserts takes it, and report the counts of the result |
| `Seed.SeedColumns` | src/sdp/seed.py:63-72 | The column loop upserts a node and a `has_column` edge for each column, in order |
| `Seed.SeedMappings` | src/sdp/seed.py:75-83 | The two mapping loops upsert an edge for each term and each business mapping, in order |
| `Seed.SeedLineage` | src/sdp/seed.py:86-91 | The three lineage loops upsert upstream, downstream and related edges, in order |
| `Seed.SeedingIsIdempotent` | src/sdp/seed.py:1-6 | Seeding again from any reachable store changes nothing and reports the same counts |
| `Seed.SeededEdges` | src/sdp/seed.py:63-91 | After seeding any store, every edge a dataset declares (columns, terms, mappings, lineage, related), written out with its key, is present |
| `Seed.SeededTermMaps` | src/sdp/seed.py:75-76 | After seeding, the `mapping` edges at a term name every dataset that carries it |
| `Seed.DatasetOpsExactly` | src/sdp/seed.py:40-91 | The upserts of a dataset are exactly its node, a node for each column, and its declared edges, with all their labels, properties and texts |
| `Seed.SeedOrder` | src/sdp/seed.py:27-40 | Concepts come first, in order, then dataset after dataset |
| `Seed.DatasetOrder` | src/sdp/seed.py:40-91 | Of a dataset first its node, then each column with its edge, then the edges, business mappings behind terms so that they win |
| `Versions.ParsePrintInt` | src/sdp/catalog.py:151-156 | Reading a printed integer back through the decimal parser gives the integer |
| `Versions.BumpDotted` | src/sdp/catalog.py:151-156 | Through split, parse and print, `a.b.c` bumps to `a.b.(c+1)` |
| `Versions.BumpExactly` | src/sdp/catalog.py:151-156 | Text without three components becomes `1.0.1`, a component that is no number is an error, otherwise the last component goes up by one |
| `Versions.DottedInjective` | src/sdp/catalog.py:151-156 | Different components print as different versions |
| `Catalog.PatchLaws` | src/sdp/catalog.py:426-437 | A blank patch only fills in defaults, a full patch reads back field by field except tenant, owner and distributions, and two patches are one with the later fields winning |
| `Catalog.AssignedIdExactly` | src/sdp/catalog.py:380-386 | The id of a new dataset is the one asked for, or `dataset-` and the next number in at least three digits |
| `Catalog.ActResult` | src/sdp/catalog.py:374-527 | What each success returns: the assigned id, start at `1.0.0` and the given metadata without lineage; then the version numbered by the history length; after a patch each field as given or as before; schema number raised exactly when the patch names the schema; otherwise only the status changes |
| `Catalog.ActOutcome` | src/sdp/catalog.py:374-527 | On a consistent catalog the listed refusals, written out field by field, are the only ones, version text never fails to parse, a refusal leaves data, history and logs unchanged, success stores the result |
| `Catalog.ActKeeps` | src/sdp/catalog.py:374-527 | Every operation keeps the catalog consistent with its histories |
| `Catalog.LoadedInv` | src/sdp/catalog.py:123-128 | A loaded catalog with its first snapshots is consistent |
| `Catalog.HistoryTells` | src/sdp/catalog.py:43-62 | Entry i has version `1.0.i`, the last entry shows the live dataset in every field, schema numbers and times never go back, entries with one schema version have equal columns after filling defaults |
| `Catalog.PatchKeepsComplete` | src/sdp/catalog.py:420-456 | A patch that blanks a required field leaves the dataset incomplete; a complete dataset stays complete exactly when the patch blanks none; the status stays, and publishing afterwards is refused exactly when the dataset is incomplete |
| `Catalog.ActKeepsComplete` | src/sdp/catalog.py:374-527 | That every published dataset is complete survives an operation exactly when it is refused or does not blank a required field of a published dataset |
| `SchemaDiff.IndexExact` | src/sdp/catalog.py:65-66 | The version index knows exactly the listed versions, each with an entry of that version |
| `SchemaDiff.IndexLast` | src/sdp/catalog.py:65-66 | Of several entries with one version the index holds the last |
| `SchemaDiff.IndexLosesNoSchema` | src/sdp/catalog.py:65-66 | On reachable histories the last-wins index holds, for each entry, the same columns after filling defaults |
| `SchemaDiff.ColumnsByNameExact` | src/sdp/catalog.py:315-316 | A column name resolves to its last occurrence |
| `SchemaDiff.DiffAccepts` | src/sdp/catalog.py:297-313 | A diff is answered exactly when the dataset exists and both versions are listed; the versions are those of the history, in order |
| `SchemaDiff.DiffOfEntries` | src/sdp/catalog.py:303-339 | For any two entries of a reachable history, added and removed are the differences of their own column names, and every column that differs after filling defaults is listed as changed |
| `SchemaDiff.DiffPartitions` | src/sdp/catalog.py:315-339 | The three name lists are sorted; the four parts are disjoint and cover all names, old minus removed plus added is new, a common column is listed as changed exactly when it differs after filling defaults or spells out different optional fields, and then with its column before and after |
| `SchemaDiff.DiffSwaps` | src/sdp/catalog.py:303-339 | Swapping the versions swaps added with removed and before with after |
| `SchemaDiff.DiffWithItself` | src/sdp/catalog.py:303-339 | A version does not differ from itself |
| `SchemaDiff.SpuriousChange` | src/sdp/catalog.py:315-339 | A concrete run in which the diff lists a column as changed although no entry differs after filling defaults |
| `SchemaDiff.ActSpellsOut` | src/sdp/catalog.py:39-62 | Publishing, deprecating, patching without new columns, and sending columns in full all write an entry with every optional field spelled out, which then stands for its schema version |
| `SchemaDiff.SpelledOutDiff` | src/sdp/catalog.py:303-339 | Between entries spelled out in full the columns listed as changed are exactly those that differ |
| `AuditTrail.ActKeepsTrail` | src/sdp/catalog.py:374-527 | Without a store every operation keeps each history in one-to-one, order-keeping correspondence with its change events, with fitting action, status and time |
| `AuditTrail.SeededTrail` | src/sdp/catalog.py:123-128 | Seeded datasets start with one entry and no event |
| `Evidence.RecordDecisionAdds` | src/sdp/evidence.py:37-42 | A decision with a new id is added, in log or store, and nothing is lost |
| `Evidence.RecordEventAdds` | src/sdp/catalog.py:32-36 | An event with a new id is added, in log or store, and nothing is lost |
| `Evidence.PutExactly` | src/sdp/evidence.py:37-48 | A stored row replaces the one with its id and no other |
| `Evidence.FullListingExact` | src/sdp/catalog.py:530-543 | The unlimited listing is the selected evidence of log and store, each event once, newest first |
| `Evidence.PushDownExact` | src/sdp/catalog.py:530-543 | For every limit, negative ones included, the listing that fetches only the newest `limit` stored rows before merging is the slice of the unlimited one |
| `Evidence.ListingExactly` | src/sdp/catalog.py:530-543 | With log and store, for every limit: the listing is the newest of the matching events, newest first, as many as the limit leaves |
| `DecisionLog.RecordKeepsOrder` | src/sdp/evidence.py:37-42 | Recording keeps decisions in the order they were made |
| `DecisionLog.AllDecisionsExact` | src/sdp/evidence.py:57-66 | Without a limit the listing is every recorded decision about the resource, once, newest first |
| `DecisionLog.ListDecisionsExact` | src/sdp/evidence.py:57-66 | With or without a store and for every limit: newest first, only decisions about the resource, whatever is left out is older than all that is listed, and how many are listed |
| `Policy.RolesOf` | src/sdp/authz.py:35-42 | Administrators are the three subjects with an administrator role, readers all subjects of the table; everyone else has no role and no tenant |
| `Policy.TenantsExactly` | src/sdp/authz.py:35-47 | `admin` and `security` reach every tenant, any other subject its own: `demo`, `external`, or the empty one outside the table |
| `Policy.DecideAllowsExactly` | src/sdp/policy.py:27-132 | The cascade allows exactly what the conjunction of tenant, sensitivity, purpose, mutation and reader conditions permits |
| `Policy.DecisionExactly` | src/sdp/policy.py:27-132 | Effect, reason and obligations of every decision, rule by rule in the order they are asked |
| `Policy.StrangersAllowed` | src/sdp/policy.py:27-132 | Exactly what a subject outside the table is allowed |
| `Policy.PiiNamesExact` | src/sdp/policy.py:120-123 | The masking list names exactly the PII columns |
| `Policy.AllowedMasksPii` | src/sdp/policy.py:120-132 | Every allowed access to a dataset carries the duty to mask exactly its PII columns |
| `Policy.RowFilterExactly` | src/sdp/policy.py:116-125 | A row filter is imposed exactly on allowed analysis queries and previews of highly sensitive data |
| `Policy.EvaluateRecords` | src/sdp/policy.py:11-12 | Each evaluation records exactly one decision, under a new id, for its subject, resource and action |
| `Browse.ApplyMask` | src/sdp/browse.py:92-98 | The overwriting loop masks exactly the listed entries |
| `Browse.MaskedExactly` | src/sdp/browse.py:92-98 | Masking hides the values of PII columns and changes no other value and no key |
| `Browse.PreviewHidesPii` | src/sdp/browse.py:9-89 | Row tables that differ only in PII columns give the same answer and leave the same evidence |
| `Browse.OnePage` | src/sdp/browse.py:59-87 | A page is the masked slice from the offset, empty beyond the last row; its row count is its length, and `has_more` says whether rows remain |
| `Browse.PageTells` | src/sdp/browse.py:78-90 | Dataset, decision, columns, masked columns and row filter of a page |
| `Browse.PreviewRefused` | src/sdp/browse.py:9-37 | Which previews are refused and with which error, in order: arguments, unknown dataset, permission |
| `Browse.SchemaExactly` | src/sdp/browse.py:101-134 | A schema is shown exactly with permission, with every column spelled out and the PII names listed |
| `Browse.PagesTile` | src/sdp/browse.py:59-87 | Advancing by the row count while there is more terminates, and the pages together are all masked rows, each once |
| `SqlGate.SafeIdentifierExact` | src/sdp/orchestrator.py:15-16 | A safe identifier keeps word characters and length, replaces every other character by an underscore, and is unchanged by a second pass |
| `SqlGate.ScanMissesNothing` | src/sdp/orchestrator.py:48-51 | If every name the scan returns is the expected table, and that is not a keyword, every overlapping reference names it as well |
| `SqlGate.FoundAreReferences` | src/sdp/orchestrator.py:48-51 | Every name the scan returns is a reference in the text |
| `SqlGate.ScanDecides` | src/sdp/orchestrator.py:48-59 | For an ordinary table name the two scan rules hold exactly when there is a FROM or JOIN followed by whitespace and a name, and every such name is the expected table |
| `SqlGate.WarningsAreViolations` | src/sdp/orchestrator.py:27-61 | The warnings are exactly the violated rules |
| `SqlGate.ValidateSqlQuery` | src/sdp/orchestrator.py:27-61 | The checks in their order, with the early return, yield exactly the violated rules; none exactly when the text is accepted |
| `SqlRules.CharacterRules` | src/sdp/orchestrator.py:34-39 | One statement, no comments, no literals: each warning is given exactly when the text as sent holds the character or pair |
| `SqlRules.WordRules` | src/sdp/orchestrator.py:32-46 | Each word rule is violated exactly when the text holds the word, in any letter case, between other characters; a query must start with `select` and a space |
| `SqlRules.ReferenceRules` | src/sdp/orchestrator.py:48-59 | A reference is missing exactly when there is none, and one is unauthorized exactly when some reference names another table |
| `SqlRules.AcceptedExactly` | src/sdp/orchestrator.py:27-61 | For a source whose table is no keyword, no warning is given exactly for text none of the rules objects to that refers to a table and only to the own one |
| `SqlRules.ReferenceExactly` | src/sdp/orchestrator.py:48-51 | What the pattern matches: keyword, whitespace, and the longest dotted name, at a word boundary |
| `SqlRules.TableExactly` | src/sdp/orchestrator.py:57-57 | A reference names what stands behind its last dot, lowered and made safe |
| `SqlRules.SourceExactly` | src/sdp/orchestrator.py:23-24 | The table of a source stands between its last slash and the slashes it ends in |
| `SqlGate.SwallowingEscapes` | src/sdp/orchestrator.py:48-59 | For a table named `from` or `join` a concrete accepted text has such a reference to another table |
| `SqlGate.ScanCompleteExactly` | src/sdp/orchestrator.py:27-61 | In accepted text every FROM or JOIN followed by whitespace and a name names the source table, exactly for the sources whose table is neither `from` nor `join` |
| `SqlGate.QuotedTextRefused` | src/sdp/orchestrator.py:38-39 | Text with a quotation mark is refused for every source |
| `SqlGate.DraftsRefused` | src/sdp/orchestrator.py:97-131 | Every drafted query is refused, because of the quoted interval |
| `SqlPhrases.SpellWords` | src/sdp/orchestrator.py:40-46 | A word found at word boundaries of a spelled text is one of the words of its phrase |
| `SqlPhrases.SpellAccepted` | src/sdp/orchestrator.py:27-61 | A phrase that selects, holds no forbidden word, and whose references the scan takes for the table is accepted |
| `SqlLists.CommaFreeGuarded` | src/sdp/orchestrator.py:48-59 | For an ordinary table, accepted text without a comma lists no other table |
| `SqlLists.NothingAccepted` | src/sdp/orchestrator.py:41-46 | For a source whose table is a forbidden word, `and` or `or`, nothing is accepted |
| `SqlLists.ListingEscapes` | src/sdp/orchestrator.py:48-59 | For every other source a concrete accepted text lists another table after a comma |
| `SqlLists.ListGuardedExactly` | src/sdp/orchestrator.py:27-61 | Names listed after commas are kept to the source table exactly for the sources whose table is a forbidden word, which are exactly those for which nothing is accepted |
| `SqlNesting.ParenFreeGuarded` | src/sdp/orchestrator.py:48-59 | For an ordinary table, accepted text without an opening parenthesis reads no other table |
| `SqlNesting.NestingEscapes` | src/sdp/orchestrator.py:48-59 | For every source whose table is no forbidden word a concrete accepted text without a comma joins another table inside parentheses |
| `SqlNesting.NestingGuardedExactly` | src/sdp/orchestrator.py:27-61 | Accepted text without a comma is kept to the source table inside parentheses exactly for the sources whose table is a forbidden word |
| `Orchestrator.SucceedsExactly` | src/sdp/orchestrator.py:210-280 | A query succeeds exactly when language, forbidden words, single dataset, existence, policy and gate all agree |
| `Orchestrator.SucceededReferencesOwnTable` | src/sdp/orchestrator.py:210-280 | Unless the table is a keyword, every FROM or JOIN of a successful query followed by whitespace and a name names the table of its dataset; without a comma so does every listed name |
| `Orchestrator.ResponseShape` | src/sdp/orchestrator.py:164-187 | Answers carry a query id, one row and at most 2000 counted rows, none in a dry run; refusals carry a reason and no rows |
| `Orchestrator.AnswersExactly` | src/sdp/orchestrator.py:161-310 | The response to every query: which check refuses it with which reason, and every field of an answer |
| `Governance.PreviewAudited` | src/sdp/browse.py:9-89 | A preview refused for its arguments leaves no trace; any other leaves exactly one event, allowed exactly when rows are returned, and exactly one new decision behind it unless the dataset is missing |
| `Governance.SchemaAudited` | src/sdp/browse.py:101-135 | Reading a schema leaves exactly one event, allowed exactly when the schema is returned, and one new decision behind it; for an unknown dataset it leaves no trace |
| `Governance.QueryAudited` | src/sdp/orchestrator.py:161-318 | Each query leaves exactly one event, allowed exactly when it succeeded and denied exactly when it was denied, naming the decision of its response; at most one decision is made |
| `Governance.ActAudited` | src/sdp/catalog.py:374-527 | A refused catalog change leaves no trace; a successful one leaves exactly one event by its actor under its decision, and one history entry unless it repeats a publication |
| `Governance.PerformKeeps` | src/sdp/browse.py:9-135 | Every call keeps catalog and evidence governed: each browse event with a decision id refers to an earlier decision for the same subject, resource and action whose effect matches, and allowed events always carry one |
| `Governance.RunOnward` | src/sdp/catalog.py:374-527 | A run performs its calls one after the other |
| `Governance.RunKeeps` | src/sdp/browse.py:9-135 | So does every run of calls in any order |
| `Governance.RunKeepsTrail` | src/sdp/catalog.py:374-527 | In every run without a store, histories and change events stay paired whatever is called in between |
| `Governance.PerformKeepsComplete` | src/sdp/catalog.py:374-527 | That every published dataset is complete survives a call exactly when it is no successful patch blanking a required field of one |
| `Governance.RunKeepsComplete` | src/sdp/catalog.py:374-527 | It holds all through a run exactly when no call of the run does that |
| `Governance.HarmlessPatches` | src/sdp/catalog.py:426-434 | In particular when no patch of the run blanks a required field |
| `Governance.SeededGoverned` | src/sdp/catalog.py:123-128 | The seeded portal is a start of such runs |
| `Governance.RestartSound` | src/sdp/evidence.py:26-34 | What a portal leaves in its store is a sound start for the next process |
| `Governance.ReachableWorlds` | src/sdp/catalog.py:374-543 | In every world a seeded portal can reach all of this holds at once, and listings are exact |
| `Portal.Portal.constructor` | src/sdp/catalog.py:25-29 | Over any sound evidence and from any time: the dictionary by id, one snapshot of each dataset, the invariant of all runs; the seeded state when there is no evidence yet |
| `Portal.StartPortal` | src/sdp/evidence.py:26-34 | Without an evidence store the portal starts in the seeded state, with its invariant |
| `Portal.IndexById` | src/sdp/catalog.py:25-25 | The dictionary by id of the list |
| `Portal.LastWins` | src/sdp/catalog.py:25-25 | An id is in it exactly when some dataset has it, and stands for the last one that does |
| `Portal.Portal.InitializeSchemaHistory` | src/sdp/catalog.py:123-128 | Exactly one first snapshot for every dataset |
| `Portal.Portal.RecordSchemaSnapshot` | src/sdp/catalog.py:60-62 | Appends one snapshot to the history of the dataset |
| `Portal.Portal.RecordPolicyDecision` | src/sdp/evidence.py:37-42 | Records in the store if configured, otherwise in the log |
| `Portal.Portal.RecordAuditEvent` | src/sdp/catalog.py:32-36 | Records in the store if configured, otherwise in the log, never in both |
| `Portal.Portal.IngestEvent` | src/sdp/catalog.py:560-581 | Stamps and records one event |
| `Portal.Portal.RegisterDataset` | src/sdp/catalog.py:374-417 | Keeps the invariant; refused exactly on the stated condition, then without a trace; otherwise leaves exactly one event and one history entry |
| `Portal.Portal.PatchDataset` | src/sdp/catalog.py:420-456 | Keeps the invariant; refused exactly on the stated condition, then without a trace; otherwise leaves exactly one event and one history entry |
| `Portal.Portal.PublishDataset` | src/sdp/catalog.py:459-499 | Keeps the invariant; refused exactly on the stated condition, then without a trace; otherwise leaves exactly one event and one history entry, none for a repeated publication |
| `Portal.Portal.DeprecateDataset` | src/sdp/catalog.py:502-527 | Keeps the invariant; refused exactly on the stated condition, then without a trace; otherwise leaves exactly one event and one history entry |
| `Portal.Portal.ListAuditEvents` | src/sdp/catalog.py:530-543 | The merging loop over stored rows yields the slice of all selected evidence, newest first |
| `Portal.Portal.EvaluatePolicy` | src/sdp/policy.py:27-132 | Keeps the invariant, adds exactly its one decision and no event |
| `Portal.Portal.PreviewRows` | src/sdp/browse.py:9-89 | Keeps the invariant, masks row by row, leaves no trace for refused arguments and otherwise exactly the event and decision of its answer |
| `Portal.Portal.Preview` | src/sdp/browse.py:41-89 | The same over the two sample rows of the portal; never more than two rows, and the row count is theirs |
| `Portal.MaskRows` | src/sdp/browse.py:60-60 | Masks every row of a page |
| `Portal.Portal.ReadSchema` | src/sdp/browse.py:101-135 | Keeps the invariant, leaves no trace for an unknown dataset and otherwise exactly the event and decision of its answer |
| `Portal.Portal.ExecuteQuery` | src/sdp/orchestrator.py:161-318 | Keeps the invariant and leaves exactly one event, allowed exactly when the query succeeded, and at most one decision, named by event and response |
| `Portal.Portal.ExecuteOn` | src/sdp/orchestrator.py:245-318 | The part after the dataset was found: decision, gate, answer, each with its event |
| `MigrationText.RenderStrip` | migrations/run_migrations.py:45-48 | Rendering commutes with stripping |
| `MigrationText.RenderLastWins` | migrations/run_migrations.py:45-48 | Rendering with a non-negative dimension and then another is rendering with the other |
| `MigrationText.RenderNegative` | migrations/run_migrations.py:45-48 | After a negative dimension a second rendering changes nothing |
| `MigrationText.RenderAgainExactly` | migrations/run_migrations.py:45-48 | The last dimension wins exactly when the first is non-negative, equal to it, or there is nothing to replace |
| `MigrationText.RenderExactly` | migrations/run_migrations.py:45-48 | The first vector type of a text takes the dimension and the rest is rendered in the same way |
| `MigrationText.RenderUnmarked` | migrations/run_migrations.py:45-48 | A text without one stays as it is |
| `MigrationText.RenderedDimension` | migrations/run_migrations.py:45-48 | Every dimension in a rendered text reads as the one rendered |
| `Migrations.SplitStatements` | migrations/run_migrations.py:51-69 | The line loop with buffer and dollar flag computes the specified statements |
| `MigrationText.SplitLinesExactly` | migrations/run_migrations.py:56-56 | The lines of a text are what its seven line-ending characters and `CRLF` separate |
| `MigrationText.LinedUnique` | migrations/run_migrations.py:56-56 | There is only one such list of lines |
| `Splitting.StatementsExactly` | migrations/run_migrations.py:51-69 | The statements are the stripped pieces of the lines, remarks left out, in the one way to cut them so that each piece but the last ends in a semicolon outside dollar quotes and none holds such an end before |
| `Splitting.SplitUnique` | migrations/run_migrations.py:51-69 | There is only one such way |
| `Splitting.NoEarlierEnd` | migrations/run_migrations.py:51-69 | No statement could have ended at an earlier one of its lines |
| `Migrations.SplittingIsStable` | migrations/run_migrations.py:51-69 | Splitting the newline-join of the statements gives the same statements |
| `Migrations.StatementsWhole` | migrations/run_migrations.py:51-69 | Every statement but the last ends in `;` and has an even number of `$$` |
| `Migrations.LinesKept` | migrations/run_migrations.py:51-69 | The statements keep all lines but comments and blanks, in order, up to surrounding whitespace |
| `Migrations.RenderingCommutes` | migrations/run_migrations.py:45-69 | Splitting the rendered text is rendering each statement, for every dimension |
| `DesignTokens.Resolve` | src/sdp/design_tokens.py:193-210 | The loop with its counter is the splice recursion with a hundred steps; a returned value holds no reference |
| `DesignTokens.RoundExactly` | src/sdp/design_tokens.py:200-209 | One round on any text: leftmost `var(`, first closing parenthesis, stripped name, its token put in place, or the exception |
| `DesignTokens.RoundEnds` | src/sdp/design_tokens.py:200-202 | Without a reference the text is returned; a reference without a closing parenthesis is an error |
| `DesignTokens.LoopIsExpansion` | src/sdp/design_tokens.py:193-210 | For every clean token map and every step limit the leftmost splice loop gives the result, or the exception, of recursive expansion; clean means that no literal parenthesis can complete a `var(` |
| `DesignTokens.CleanExactly` | src/sdp/design_tokens.py:193-210 | Cleanliness is exactly what that takes: a value loops as it expands behind every clean text, for all clean tokens and limits, if and only if it is clean |
| `DesignTokens.LoopIsExpansionOfStrings` | src/sdp/design_tokens.py:193-210 | The same for plain strings, read into literals and references |
| `DesignTokens.ParsedIsClosed` | src/sdp/design_tokens.py:193-196 | The names read from any string are closed, so the equivalence speaks of every string |
| `DesignTokens.ResolveAcyclic` | src/sdp/design_tokens.py:193-210 | Defined, acyclic values resolve to their full expansion exactly when that expands at most 100 references, and are called cyclic otherwise |
| `DesignTokens.TrapNeverResolves` | src/sdp/design_tokens.py:193-210 | A value that mentions a name from which every path ends undefined or goes in circles never resolves, whatever the limit |
| `DesignTokens.ResolvesExactly` | src/sdp/design_tokens.py:193-210 | Given enough steps a value resolves exactly when it mentions no such name |
| `DesignTokens.AllTokens` | src/sdp/design_tokens.py:185-190 | The loop over the tiers builds the merged ordered dictionary, each name once |
| `DesignTokens.LastTierWins` | src/sdp/design_tokens.py:185-190 | A name is among the merged tokens exactly when some tier has it, and stands for the value in the last one that does |
| `DesignTokens.MergedOrder` | src/sdp/design_tokens.py:185-190 | The names of earlier tiers come first; those a tier adds follow in its order |
| `DesignTokens.FlattenedExact` | src/sdp/design_tokens.py:213-216 | Flattening succeeds exactly when every token resolves within 100 splices, and then holds the resolved value of every name and nothing else; otherwise it fails as the first token that does |
| `DesignTokens.Flatten` | src/sdp/design_tokens.py:213-216 | Every token resolved, in the order of the dictionary, or the first failure; no reference is left |
| `DesignTokens.AliasChainsResolve` | src/sdp/design_tokens.py:193-216 | Tokens that mention at most one other each resolve if chains are at most 100 long |
| `Embeddings.EmbedTokens` | src/sdp/embeddings.py:39-51 | The accumulation loop over the mutable vector computes the normalised signed histogram |
| `Embeddings.EmbedText` | src/sdp/embeddings.py:39-51 | The embedding of a text is the normalised histogram of its tokens, and has norm 1 or is zero |
| `Embeddings.EmbeddedAlike` | src/sdp/embeddings.py:27-51 | Texts that agree up to case and margins, or as multisets of tokens, are embedded alike |
| `Embeddings.EmbeddingIgnoresOrder` | src/sdp/embeddings.py:39-51 | The embedding depends only on the multiset of tokens |
| `Embeddings.HistogramWeight` | src/sdp/embeddings.py:39-48 | The unnormalised vector has absolute sum at most the token count, and of the same parity |
| `Embeddings.HistogramCounts` | src/sdp/embeddings.py:43-48 | A component is the number of tokens hashed to it with positive sign less those with negative sign |
| `Embeddings.EmbeddingNorm` | src/sdp/embeddings.py:49-51 | The result has norm 1, or is zero exactly when the histogram is |
| `Embeddings.NormalisedExactly` | src/sdp/embeddings.py:49-52 | Every component is divided by the norm; zero vectors stay |
| `Embeddings.TokensIgnoreCaseAndMargins` | src/sdp/embeddings.py:27-36 | Case and surrounding whitespace do not change the tokens |
| `Embeddings.TokensExactly` | src/sdp/embeddings.py:27-36 | The tokens are the maximal word runs of the lowered, stripped text, in order, then the trigrams of that text with each whitespace run made one space |
| `Embeddings.CauchySchwarz` | src/sdp/embeddings.py:54-64 | The inequality behind the bound, for vectors of equal length |
| `Embeddings.CosineBounded` | src/sdp/embeddings.py:54-64 | Cosine similarity lies between -1 and 1 and is symmetric |
| `Embeddings.CosineSelf` | src/sdp/embeddings.py:54-64 | It is 1 on a nonzero vector with itself and 0 on a zero vector |
| `Embeddings.CosineExactly` | src/sdp/embeddings.py:54-64 | Similarity times both norms is the inner product; it is 0 for different lengths and zero vectors |

## Left out

- Text is ASCII: Unicode case folding, whitespace, digits and word characters beyond code point 127 are not modelled.
- Scores, ratios and vectors are real numbers; floating-point rounding is not modelled, the explicit rounding of scores to six places is.
- Times and UUIDs are drawn from one increasing counter, so they are distinct by construction; clashing timestamps are not modelled.
- MD5 is an index and a sign for each token, given as parameters; the square root is a parameter with its defining property. `GraphStore` takes embedding and similarity as parameters, `Search` gives it the real ones.
- Postgres, AGE, pgvector, SQLAlchemy and the SQL inside `src/sdp_core/stores.py`: an evidence store is two tables with replace by id, filter, newest first and limit; rows read back equal the rows written. A negative limit is none, as in SQLite; Postgres refuses it.
- Exchanging the evidence store in the middle of a run (`configure_evidence_store`).
- Details of audit events except the `noop` mark; free-text arguments that only enter the details.
- Completeness and recommendation scores, licences, creation times, and the range checks on column ratios.
- The order of the changed columns of a diff, which the source leaves to a set. Elsewhere the order of dictionaries is kept where it shows: nodes and embeddings, edges, merged events, tokens.
- Catalog search, facets, join candidates, profiles and mapping candidates: filters and scores over one dictionary.
- `draft_sql` beyond the text it composes, which is always refused (`SqlGate.DraftsRefused`).
- SQL itself: `SqlLists` reads the names after a reference that are separated by commas and whitespace, `SqlNesting` the name after opening parentheses; aliases, subqueries and quoted names are not parsed.
- Row tables are a parameter of the preview; the portal's own two rows are `Browse.SAMPLE_ROWS`.
- The loop of a patch over the keys of its dictionary is written field by field, and the metadata check of a publication as one conjunction.
- Connectors repeat the preview pattern over fixed rows; readiness, KPI and demo manifests are constant data.
- FastAPI routes, console pages, CSS output, logging sinks, configuration loading and OIDC token verification.
- Ontology patch review and score caching.
- Running migrations against a database: only the splitting and rendering of their text is modelled.
- Governance.RunKeeps: a query request without datasets is rejected by its own data model, so such a call changes nothing.
- Portal.Portal.IngestEvent: records any event it is given, so it does not keep the invariant by itself; the operations that call it do.
- Portal.Portal.constructor: datasets are loaded at version `1.0.0`, as the source's own are, over evidence that is sound; `Governance.RestartSound` shows that a portal leaves such evidence.
