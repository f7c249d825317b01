/** Who may do what: the actor table and the cascade of policy rules. */
module Policy {
  import opened PyText
  import opened Records
  import Evidence

  // ----- actors -----

  datatype Role = Admin | PlatformAdmin | DataAnalyst | Security

  datatype Actor = Actor(tenantId: string, roles: set<Role>)

  function ActorOf(subject: string): Actor {
    var key := Lower(Strip(subject));
    if key == "admin" then Actor("demo", {Admin, DataAnalyst, PlatformAdmin})
    else if key == "security" then Actor("demo", {Security, PlatformAdmin})
    else if key == "data-admin" then Actor("demo", {Admin, DataAnalyst})
    else if key == "analyst" then Actor("demo", {DataAnalyst})
    else if key == "data-analyst" then Actor("demo", {DataAnalyst})
    else if key == "external-analyst" then Actor("external", {DataAnalyst})
    else Actor("", {})
  }

  predicate HasRole(subject: string, roles: set<Role>) {
    roles * ActorOf(subject).roles != {}
  }

  predicate CanAccessTenant(subject: string, tenantId: string) {
    PlatformAdmin in ActorOf(subject).roles || ActorOf(subject).tenantId == tenantId
  }

  predicate IsAdmin(subject: string) {
    HasRole(subject, {Admin, PlatformAdmin})
  }

  predicate HasReaderRole(subject: string) {
    HasRole(subject, {DataAnalyst, Admin, PlatformAdmin, Security})
  }

  predicate Mutates(action: string) {
    action == "publish" || action == "patch" || action == "deprecate"
  }

  predicate CanMutate(subject: string, action: string) {
    IsAdmin(subject) && (Lower(action) == "create" || Mutates(Lower(action)))
  }

  predicate Discovers(action: string) {
    action == "search" || action == "search_catalog" || action == "discover"
  }

  predicate Reads(action: string) {
    action == "query" || action == "preview" || action == "schema" || action == "search" || action == "list"
  }

  // ----- the decision -----

  /** The outcomes of the cascade, in its order. */
  datatype Rule =
    | MayCreate
    | CreateNeedsAdmin
    | MayDiscover
    | DiscoveryNeedsReader
    | UnknownDataset
    | TenantBoundary
    | CriticalNeedsReview
    | ExportNeedsApproval
    | MutationNeedsAdmin
    | ReadingNeedsReader
    | ConditionsMet

  datatype Verdict = Verdict(effect: Effect, rule: Rule, obligations: map<string, Obligation>)

  function Reason(rule: Rule): string {
    match rule
    case MayCreate => "관리자 권한으로 catalog mutation 권한 통과"
    case CreateNeedsAdmin => "create 작업은 admin 권한만 가능"
    case MayDiscover => "카탈로그 발견 정책 통과"
    case DiscoveryNeedsReader => "목록 조회는 인증된 사용자만 가능합니다."
    case UnknownDataset => "존재하지 않는 데이터셋입니다."
    case TenantBoundary => "tenant boundary denied"
    case CriticalNeedsReview => "critical 민감도 자산은 별도 심사 필요"
    case ExportNeedsApproval => "외부 반출 목적은 데이터 운영자 승인 필요"
    case MutationNeedsAdmin => "catalog mutation 작업은 admin 권한만 가능"
    case ReadingNeedsReader => "조회 권한이 없습니다."
    case ConditionsMet => "거버넌스 정책 조건 충족"
  }

  function RequiredRole(role: string): map<string, Obligation> {
    map["required_role" := Text(role)]
  }

  function PiiNames(columns: seq<Column>): seq<string> {
    if columns == [] then []
    else (if IsPii(columns[0]) then [columns[0].name] else []) + PiiNames(columns[1..])
  }

  function Grants(ds: Dataset, action: string, purpose: string): map<string, Obligation> {
    var base := map["tenant_id" := Text(ds.meta.tenantId), "masking" := Names(PiiNames(ds.meta.schema))];
    if (action == "query" || action == "preview") && purpose == "analysis" && ds.meta.sensitivity == "high" then
      base["row_filter" := Names(["business_unit = current_user_unit"])]
    else base
  }

  function Decide(data: map<string, Dataset>, subject: string, resource: string, action: string, purpose: string):
    Verdict
  {
    var key := Lower(action);
    if key == "create" then
      if IsAdmin(subject) then Verdict(Allow, MayCreate, RequiredRole("admin"))
      else Verdict(Deny, CreateNeedsAdmin, RequiredRole("admin"))
    else if Discovers(key) then
      if HasReaderRole(subject) then Verdict(Allow, MayDiscover, map["masking" := Names([])])
      else Verdict(Deny, DiscoveryNeedsReader, RequiredRole("data-analyst"))
    else if resource !in data then Verdict(Deny, UnknownDataset, map[])
    else
      var ds := data[resource];
      if !CanAccessTenant(subject, ds.meta.tenantId) then
        Verdict(Deny, TenantBoundary,
                map["tenant_id" := Text(ds.meta.tenantId), "actor_tenant_id" := Text(ActorOf(subject).tenantId)])
      else if ds.meta.sensitivity == "critical" && !IsAdmin(subject) then
        Verdict(Deny, CriticalNeedsReview, map["redact" := Flag(true), "masking" := Flag(true)])
      else if Lower(purpose) == "external-export" && !IsAdmin(subject) then
        Verdict(Deny, ExportNeedsApproval, RequiredRole("data-admin"))
      else if Mutates(key) && !CanMutate(subject, key) then
        Verdict(Deny, MutationNeedsAdmin, RequiredRole("admin"))
      else if Reads(key) && !HasReaderRole(subject) then
        Verdict(Deny, ReadingNeedsReader, RequiredRole("data-analyst"))
      else Verdict(Allow, ConditionsMet, Grants(ds, key, purpose))
  }

  function DecisionOf(w: World, subject: string, resource: string, action: string, purpose: string): PolicyDecision {
    var v := Decide(w.data, subject, resource, action, purpose);
    PolicyDecision(w.clock, subject, resource, action, v.effect, Reason(v.rule), v.obligations)
  }

  /** Decide under a fresh id and record the decision. */
  function Evaluate(w: World, subject: string, resource: string, action: string, purpose: string):
    (World, PolicyDecision)
  {
    var d := DecisionOf(w, subject, resource, action, purpose);
    (Evidence.RecordDecision(Tick(w), d), d)
  }

  // ----- what is allowed, whatever the order of the rules -----

  /** The administrators are the three subjects of the table with an administrator's role. */
  ghost predicate Administrator(subject: string) {
    var key := Lower(Strip(subject));
    key == "admin" || key == "security" || key == "data-admin"
  }

  /** The subjects of the table. */
  ghost predicate Known(subject: string) {
    var key := Lower(Strip(subject));
    Administrator(subject) || key == "analyst" || key == "data-analyst" || key == "external-analyst"
  }

  lemma RolesOf(subject: string)
    ensures IsAdmin(subject) <==> Administrator(subject)
    ensures HasReaderRole(subject) <==> Known(subject)
    ensures !Known(subject) ==> ActorOf(subject) == Actor("", {})
    ensures PlatformAdmin in ActorOf(subject).roles ==> Administrator(subject)
    ensures forall action :: CanMutate(subject, action) <==>
              Administrator(subject) && Lower(action) in {"create", "publish", "patch", "deprecate"}
  {
    hide Strip, Lower;
    var roles := ActorOf(subject).roles;
    if IsAdmin(subject) { assert Admin in roles || PlatformAdmin in roles; }
    if Administrator(subject) {
      assert Admin in {Admin, PlatformAdmin} * roles || PlatformAdmin in {Admin, PlatformAdmin} * roles;
    }
    if HasReaderRole(subject) { var role :| role in {DataAnalyst, Admin, PlatformAdmin, Security} * roles; }
    if Known(subject) {
      assert DataAnalyst in {DataAnalyst, Admin, PlatformAdmin, Security} * roles
        || Security in {DataAnalyst, Admin, PlatformAdmin, Security} * roles;
    }
  }

  /** The tenant a subject belongs to; outside the table it is the empty one. */
  ghost function HomeOf(subject: string): string {
    var key := Lower(Strip(subject));
    if Administrator(subject) || key == "analyst" || key == "data-analyst" then "demo"
    else if key == "external-analyst" then "external"
    else ""
  }

  /** Two subjects reach into every tenant, any other one into its own. */
  ghost predicate Reaches(subject: string, tenantId: string) {
    var key := Lower(Strip(subject));
    key == "admin" || key == "security" || tenantId == HomeOf(subject)
  }

  lemma TenantsExactly(subject: string, tenantId: string)
    ensures CanAccessTenant(subject, tenantId) <==> Reaches(subject, tenantId)
    ensures ActorOf(subject).tenantId == HomeOf(subject)
  {
    hide Lower, Strip;
  }

  /** The permission a subject has on a dataset, as a conjunction of independent conditions. */
  ghost predicate Permitted(ds: Dataset, subject: string, action: string, purpose: string) {
    var key := Lower(action);
    && Reaches(subject, ds.meta.tenantId)
    && (ds.meta.sensitivity == "critical" ==> Administrator(subject))
    && (Lower(purpose) == "external-export" ==> Administrator(subject))
    && (key == "publish" || key == "patch" || key == "deprecate" ==> Administrator(subject))
    && (key == "query" || key == "preview" || key == "schema" || key == "search" || key == "list" ==> Known(subject))
  }

  /** The cascade allows exactly what the independent conditions permit. */
  lemma DecideAllowsExactly(data: map<string, Dataset>, subject: string, resource: string, action: string,
                            purpose: string)
    ensures var allowed := Decide(data, subject, resource, action, purpose).effect == Allow;
            var key := Lower(action);
            if key == "create" then allowed <==> Administrator(subject)
            else if key == "search" || key == "search_catalog" || key == "discover" then allowed <==> Known(subject)
            else allowed <==> resource in data && Permitted(data[resource], subject, action, purpose)
  {
    hide Lower, ActorOf, IsAdmin, Administrator, Known, HasReaderRole, Grants, CanAccessTenant, Reaches;
    RolesOf(subject);
    if resource in data { TenantsExactly(subject, data[resource].meta.tenantId); }
    LowerTwice(action);
  }

  /**
   A subject outside the actor table is allowed exactly this much: an action no
   rule names, on a dataset with an empty tenant that is not critical, for a
   purpose other than external export.
   */
  lemma StrangersAllowed(data: map<string, Dataset>, subject: string, resource: string, action: string, purpose: string)
    requires !Known(subject)
    ensures Decide(data, subject, resource, action, purpose).effect == Allow <==>
              && resource in data && data[resource].meta.tenantId == "" && data[resource].meta.sensitivity != "critical"
              && Lower(purpose) != "external-export"
              && Lower(action) !in {"create", "search", "search_catalog", "discover", "publish", "patch", "deprecate",
                                    "query", "preview", "schema", "list"}
  {
    DecideAllowsExactly(data, subject, resource, action, purpose);
    hide Lower, ActorOf, Known, Decide, Strip, Administrator, Reaches;
    StrangersHome(subject);
  }

  lemma StrangersHome(subject: string)
    requires !Known(subject)
    ensures !Administrator(subject) && forall t :: Reaches(subject, t) <==> t == ""
  {
    hide Lower, Strip;
  }

  /**
   Every decision, its reason and its obligations, in the order in which the rules
   are asked and in the terms of the actor table.
   */
  lemma DecisionExactly(w: World, subject: string, resource: string, action: string, purpose: string)
    ensures var d := DecisionOf(w, subject, resource, action, purpose);
            var key, admin, known := Lower(action), Administrator(subject), Known(subject);
            var needs := (role: string) => map["required_role" := Text(role)];
            && d.subject == subject && d.resource == resource && d.action == action && d.decisionId == w.clock
            && (d.effect, d.reason, d.obligations) ==
               if key == "create" then
                 if admin then (Allow, "관리자 권한으로 catalog mutation 권한 통과", needs("admin"))
                 else (Deny, "create 작업은 admin 권한만 가능", needs("admin"))
               else if key in {"search", "search_catalog", "discover"} then
                 if known then (Allow, "카탈로그 발견 정책 통과", map["masking" := Names([])])
                 else (Deny, "목록 조회는 인증된 사용자만 가능합니다.", needs("data-analyst"))
               else if resource !in w.data then (Deny, "존재하지 않는 데이터셋입니다.", map[])
               else
                 var m := w.data[resource].meta;
                 if !Reaches(subject, m.tenantId) then
                   (Deny, "tenant boundary denied",
                    map["tenant_id" := Text(m.tenantId), "actor_tenant_id" := Text(HomeOf(subject))])
                 else if m.sensitivity == "critical" && !admin then
                   (Deny, "critical 민감도 자산은 별도 심사 필요", map["redact" := Flag(true), "masking" := Flag(true)])
                 else if Lower(purpose) == "external-export" && !admin then
                   (Deny, "외부 반출 목적은 데이터 운영자 승인 필요", needs("data-admin"))
                 else if key in {"publish", "patch", "deprecate"} && !admin then
                   (Deny, "catalog mutation 작업은 admin 권한만 가능", needs("admin"))
                 else if key in {"query", "preview", "schema", "search", "list"} && !known then
                   (Deny, "조회 권한이 없습니다.", needs("data-analyst"))
                 else
                   var base := map["tenant_id" := Text(m.tenantId), "masking" := Names(PiiNames(m.schema))];
                   (Allow, "거버넌스 정책 조건 충족",
                    if key in {"query", "preview"} && purpose == "analysis" && m.sensitivity == "high"
                    then base["row_filter" := Names(["business_unit = current_user_unit"])] else base)
  {
    hide Lower, Strip, ActorOf, IsAdmin, HasReaderRole, CanAccessTenant, Administrator, Known, HomeOf, Reaches,
      PiiNames;
    RolesOf(subject);
    LowerTwice(action);
    if resource in w.data { TenantsExactly(subject, w.data[resource].meta.tenantId); }
  }

  lemma {:induction false} PiiNamesExact(columns: seq<Column>, name: string)
    ensures name in PiiNames(columns) <==>
            exists i :: 0 <= i < |columns| && columns[i].name == name && columns[i].pii.Some? && columns[i].pii.value
  {
    if columns != [] {
      PiiNamesExact(columns[1..], name);
      if name in PiiNames(columns[1..]) {
        var i :| 0 <= i < |columns[1..]| && columns[1..][i].name == name && IsPii(columns[1..][i]);
        assert columns[i + 1].name == name;
      }
      if i :| 0 <= i < |columns| && columns[i].name == name && IsPii(columns[i]) {
        if i > 0 { assert columns[1..][i - 1] == columns[i]; }
      }
    }
  }

  /** What an allowed read must mask. */
  function Masking(d: PolicyDecision): seq<string> {
    if "masking" in d.obligations && d.obligations["masking"].Names? then d.obligations["masking"].names else []
  }

  /** Every allowed access to a dataset carries the duty to mask exactly its PII columns. */
  lemma AllowedMasksPii(w: World, subject: string, resource: string, action: string, purpose: string)
    requires Lower(action) != "create" && !Discovers(Lower(action))
    requires resource in w.data && Permitted(w.data[resource], subject, action, purpose)
    ensures DecisionOf(w, subject, resource, action, purpose).effect == Allow
    ensures Masking(DecisionOf(w, subject, resource, action, purpose)) == PiiNames(w.data[resource].meta.schema)
  {
    hide Lower, ActorOf, IsAdmin, HasReaderRole, CanAccessTenant, CanMutate, Permitted, Reason;
    DecideAllowsExactly(w.data, subject, resource, action, purpose);
  }

  /** A row filter is imposed exactly on allowed queries and previews for analysis of highly sensitive data. */
  lemma RowFilterExactly(w: World, subject: string, resource: string, action: string, purpose: string)
    ensures var d := DecisionOf(w, subject, resource, action, purpose);
            "row_filter" in d.obligations <==>
              && d.effect == Allow && (Lower(action) == "query" || Lower(action) == "preview") && purpose == "analysis"
              && resource in w.data && w.data[resource].meta.sensitivity == "high"
  {
    hide Lower, ActorOf, IsAdmin, HasReaderRole, CanAccessTenant, CanMutate, PiiNames;
    ObligationNames();
  }

  lemma ObligationNames()
    ensures "row_filter" != "tenant_id" && "row_filter" != "masking" && "row_filter" != "required_role"
    ensures "row_filter" != "actor_tenant_id" && "row_filter" != "redact"
  {
    assert "row_filter"[1] == 'o';
    assert "tenant_id"[1] != 'o' && "masking"[1] != 'o' && "required_role"[1] != 'o' && "actor_tenant_id"[1] != 'o'
      && "redact"[1] != 'o';
  }

  /** One evaluation records exactly one decision, under a new id, for the asking subject and resource. */
  lemma EvaluateRecords(w: World, subject: string, resource: string, action: string, purpose: string)
    requires Evidence.Past(w)
    ensures var (w', d) := Evaluate(w, subject, resource, action, purpose);
            && Evidence.Decisions(w') == Evidence.Decisions(w) + {d} && d !in Evidence.Decisions(w)
            && Evidence.Events(w') == Evidence.Events(w) && Evidence.Past(w')
            && d.subject == subject && d.resource == resource && d.action == action && d.decisionId == w.clock
            && w'.data == w.data && w'.history == w.history && w.clock < w'.clock
  {
    hide Decide;
    var d := DecisionOf(w, subject, resource, action, purpose);
    assert Evidence.Decisions(Tick(w)) == Evidence.Decisions(w) && Evidence.Events(Tick(w)) == Evidence.Events(w);
    hide Evidence.Decisions, Evidence.Events;
    Evidence.RecordDecisionAdds(Tick(w), d);
  }
}
