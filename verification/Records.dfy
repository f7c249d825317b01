/**
 The records of the governed catalog and the state its modules share.  Wall-clock
 times and UUIDs are both drawn from one counter, which every use advances.
 */
module Records {
  import opened Outcomes

  // ----- catalog records -----

  /** A column; `None` marks a field the payload left unset. */
  datatype Column = Column(
    name: string,
    dataType: string,
    nullableRatio: real,
    distinctRatio: real,
    qualityIssues: Option<seq<string>>,
    pii: Option<bool>)

  /** The column with its defaults filled in. */
  function Filled(c: Column): Column {
    c.(qualityIssues := Some(if c.qualityIssues.Some? then c.qualityIssues.value else []), pii := Some(IsPii(c)))
  }

  predicate IsPii(c: Column) {
    c.pii.Some? && c.pii.value
  }

  function FilledAll(columns: seq<Column>): (r: seq<Column>)
    ensures |r| == |columns| && forall i :: 0 <= i < |r| ==> r[i] == Filled(columns[i])
  {
    seq(|columns|, i requires 0 <= i < |columns| => Filled(columns[i]))
  }

  datatype Mapping = Mapping(concept: string, status: string)

  /** The fields a request supplies and a dataset keeps. */
  datatype Metadata = Metadata(
    tenantId: string,
    title: string,
    description: string,
    owner: string,
    steward: string,
    domain: string,
    sourceSystem: string,
    sensitivity: string,
    updateFrequency: string,
    qualityScore: real,
    freshnessScore: real,
    tags: seq<string>,
    terms: seq<string>,
    relatedDatasets: seq<string>,
    schema: seq<Column>,
    distributions: seq<string>,
    mappings: seq<Mapping>,
    lineageInputs: seq<string>,
    lineageOutputs: seq<string>,
    profile: map<string, int>)

  datatype Dataset = Dataset(
    id: string,
    meta: Metadata,
    version: string,
    schemaVersion: string,
    status: string,
    updatedAt: nat)

  datatype Snapshot = Snapshot(
    version: string,
    schemaVersion: string,
    snapshotAt: nat,
    schema: seq<Column>,
    lineageInputs: seq<string>,
    lineageOutputs: seq<string>,
    mappings: seq<Mapping>,
    tags: seq<string>,
    terms: seq<string>,
    status: string,
    qualityScore: real,
    freshnessScore: real)

  // ----- evidence records -----

  datatype Effect = Allow | Deny

  datatype Obligation = Text(text: string) | Names(names: seq<string>) | Flag(flag: bool)

  datatype PolicyDecision = PolicyDecision(
    decisionId: nat,
    subject: string,
    resource: string,
    action: string,
    effect: Effect,
    reason: string,
    obligations: map<string, Obligation>)

  /** `noop` is the one detail of an event the model keeps. */
  datatype AuditEvent = AuditEvent(
    id: nat,
    actor: string,
    action: string,
    resource: string,
    result: string,
    decisionId: Option<nat>,
    reason: string,
    noop: bool,
    createdAt: nat)

  datatype DecisionRow = DecisionRow(decision: PolicyDecision, recordedAt: nat)

  /** A configured evidence store: two tables keyed by id. */
  datatype Tables = Tables(decisions: seq<DecisionRow>, events: seq<AuditEvent>)

  datatype World = World(
    data: map<string, Dataset>,
    history: map<string, seq<Snapshot>>,
    auditLog: seq<AuditEvent>,
    decisionLog: seq<PolicyDecision>,
    store: Option<Tables>,
    clock: nat)

  function Tick(w: World): World {
    w.(clock := w.clock + 1)
  }
}
