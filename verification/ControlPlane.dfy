/** Attestation of the live control plane against the contract, over an abstract read-only client. */
module ControlPlane {
  import opened Documents
  import opened Strings

  datatype Status = Pass | Fail | Unknown

  datatype Check = Unnamed | BindingCheck | ProtectionCheck | ImmutableCheck | FreshnessCheck

  /** How enforcement of the binding ruleset is known. */
  datatype Evidence = NoEvidence | Guarantee | DetailUnreadable | Corroborated

  datatype CheckResult = CheckResult(name: Check, status: Status, evidence: Evidence)

  /** A check reports, or a response of an unforeseen shape makes it raise. */
  datatype Outcome = Reported(result: CheckResult) | Raised

  datatype Request = Repository | BranchRules(branch: string) | Ruleset(id: Value) | ImmutableReleases

  /** One response; `failed` where there is an error instead of a body. */
  datatype ApiResult = ApiResult(status: int, body: Value, failed: bool)

  type Reader = Request -> ApiResult

  predicate IsOk(r: ApiResult) { 200 <= r.status < 300 && !r.failed }

  datatype Expected = Expected(
    repository: string, branch: string, workflow: string, protectionBranch: string, ruleTypes: seq<string>,
    codeOwnerReview: bool, minimumContexts: nat, immutableReleases: bool, strictChecks: bool, mergeQueue: bool)

  function Organization(e: Expected): string { CutAt(e.repository, '/') }

  // ---- values of unknown shape ----

  predicate IsTrue(v: Value) {
    match v
    case Null => false
    case Bool(b) => b
    case Int(n) => n != 0
    case Float(x) => x != 0.0
    case Text(s) => s != ""
    case List(items) => items != []
    case Mapping(fields) => fields != map[]
  }

  /** `isinstance(v, int)`: truth values are numbers. */
  predicate IsInt(v: Value) { v.Int? || v.Bool? }

  predicate IsNumber(v: Value) { IsInt(v) || v.Float? }

  function NumberOf(v: Value): real
    requires IsNumber(v)
  {
    match v
    case Bool(b) => if b then 1.0 else 0.0
    case Int(n) => n as real
    case Float(x) => x
  }

  predicate SameNumber(a: Value, b: Value) { IsNumber(a) && IsNumber(b) && NumberOf(a) == NumberOf(b) }

  /** `str(v.get(key, ""))`, with `show` for `str`. */
  function TextAt(v: Value, key: string, show: Value -> string): string
    requires v.Mapping?
  {
    if key in v.fields then show(v.fields[key]) else ""
  }

  /** The rules of one type in a response. */
  function RulesFor(items: seq<Value>, kind: string): (rules: seq<Value>)
    ensures forall rule <- rules :: rule.Mapping?
  {
    if items == [] then []
    else (if IsRule(items[0], kind) then [items[0]] else []) + RulesFor(items[1..], kind)
  }

  predicate IsRule(v: Value, kind: string) { v.Mapping? && Get(v, "type") == Text(kind) }

  lemma {:induction false} RulesForMeets(items: seq<Value>, kind: string)
    ensures forall v :: v in RulesFor(items, kind) <==> v in items && IsRule(v, kind)
  {
    if items != [] {
      RulesForMeets(items[1..], kind);
      assert items == [items[0]] + items[1..];
    }
  }

  /** The list of a branch-rules response, if it can be read. */
  function RulesOf(reader: Reader, branch: string): Option<seq<Value>> {
    var rules := reader(BranchRules(branch));
    if IsOk(rules) && rules.body.List? then Some(rules.body.items) else None
  }

  // ---- the binding ----

  function Parameter(rule: Value, key: string): Value
    requires rule.Mapping?
  {
    var parameters := Get(rule, "parameters");
    if parameters.Mapping? then Get(parameters, key) else Null
  }

  /** What a loop over `entries or []` goes through; None where it cannot be iterated. */
  function EntriesOf(rule: Value): Option<seq<Value>>
    requires rule.Mapping?
  {
    var entries := Parameter(rule, "workflows");
    if entries.List? then Some(entries.items)
    else if IsNumber(entries) && IsTrue(entries) then None
    else Some([])
  }

  predicate Binds(entry: Value, rule: Value, id: Value, e: Expected, show: Value -> string)
    requires rule.Mapping?
  {
    && entry.Mapping? && SameNumber(Get(entry, "repository_id"), id)
    && TextAt(entry, "path", show) == e.workflow && TextAt(entry, "ref", show) == "refs/heads/" + e.branch
    && TextAt(rule, "ruleset_source_type", show) == "Organization"
    && TextAt(rule, "ruleset_source", show) == Organization(e)
  }

  predicate RuleBinds(rule: Value, id: Value, e: Expected, show: Value -> string)
    requires rule.Mapping?
  {
    EntriesOf(rule).Some? && exists entry <- EntriesOf(rule).value :: Binds(entry, rule, id, e, show)
  }

  datatype Found = Bound(rule: Value) | Unbound | Broken

  /** The first rule that binds. */
  function FirstBinding(rules: seq<Value>, id: Value, e: Expected, show: Value -> string): (f: Found)
    requires forall rule <- rules :: rule.Mapping?
    ensures f.Bound? ==> f.rule in rules && f.rule.Mapping? && RuleBinds(f.rule, id, e, show)
  {
    if rules == [] then Unbound
    else if EntriesOf(rules[0]).None? then Broken
    else if RuleBinds(rules[0], id, e, show) then Bound(rules[0])
    else FirstBinding(rules[1..], id, e, show)
  }

  function Enforcement(reader: Reader, rule: Value, show: Value -> string): CheckResult
    requires rule.Mapping?
  {
    var id := Get(rule, "ruleset_id");
    if !IsInt(id) then CheckResult(Unnamed, Pass, Guarantee) else
    var detail := reader(Ruleset(id));
    if !IsOk(detail) || !detail.body.Mapping? then CheckResult(Unnamed, Pass, DetailUnreadable)
    else if TextAt(detail.body, "enforcement", show) != "active" then CheckResult(Unnamed, Fail, NoEvidence)
    else CheckResult(Unnamed, Pass, Corroborated)
  }

  function RepositoryId(reader: Reader): Option<Value> {
    var repository := reader(Repository);
    if !IsOk(repository) then Some(Null)
    else if !IsTrue(repository.body) then Some(Null)
    else if repository.body.Mapping? then Some(Get(repository.body, "id"))
    else None
  }

  function Binding(reader: Reader, e: Expected, show: Value -> string): Outcome {
    var id, rules := RepositoryId(reader), RulesOf(reader, e.branch);
    if id.None? then Raised
    else if !IsInt(id.value) || rules.None? then Reported(CheckResult(BindingCheck, Unknown, NoEvidence))
    else match FirstBinding(RulesFor(rules.value, "workflows"), id.value, e, show)
      case Broken => Raised
      case Unbound => Reported(CheckResult(BindingCheck, Fail, NoEvidence))
      case Bound(rule) => Reported(Enforcement(reader, rule, show).(name := BindingCheck))
  }

  method CheckRequiredWorkflowBinding(reader: Reader, e: Expected, show: Value -> string) returns (r: Outcome)
    ensures r == Binding(reader, e, show)
  {
    var unknown := Reported(CheckResult(BindingCheck, Unknown, NoEvidence));
    var repository := reader(Repository);
    if !IsOk(repository) {
      return unknown;
    }
    if IsTrue(repository.body) && !repository.body.Mapping? {
      return Raised;
    }
    var id := if IsTrue(repository.body) then Get(repository.body, "id") else Null;
    if !IsInt(id) {
      return unknown;
    }
    var rules := reader(BranchRules(e.branch));
    if !IsOk(rules) || !rules.body.List? {
      return unknown;
    }
    var workflowRules := RulesFor(rules.body.items, "workflows");
    var found := FindBinding(workflowRules, id, e, show);
    if found.Broken? {
      return Raised;
    }
    if found.Unbound? {
      return Reported(CheckResult(BindingCheck, Fail, NoEvidence));
    }
    var enforcement := Enforcement(reader, found.rule, show);
    enforcement := enforcement.(name := BindingCheck);
    return Reported(enforcement);
  }

  method FindBinding(rules: seq<Value>, id: Value, e: Expected, show: Value -> string) returns (found: Found)
    requires forall rule <- rules :: rule.Mapping?
    ensures found == FirstBinding(rules, id, e, show)
  {
    assert rules[0..] == rules;
    for i := 0 to |rules|
      invariant FirstBinding(rules, id, e, show) == FirstBinding(rules[i..], id, e, show)
    {
      assert rules[i..][1..] == rules[i + 1..];
      if EntriesOf(rules[i]).None? {
        return Broken;
      }
      var binds := SearchEntries(rules[i], id, e, show);
      if binds {
        return Bound(rules[i]);
      }
    }
    return Unbound;
  }

  method SearchEntries(rule: Value, id: Value, e: Expected, show: Value -> string) returns (binds: bool)
    requires rule.Mapping? && EntriesOf(rule).Some?
    ensures binds == RuleBinds(rule, id, e, show)
  {
    var entries := EntriesOf(rule).value;
    for j := 0 to |entries|
      invariant forall k :: 0 <= k < j ==> !Binds(entries[k], rule, id, e, show)
    {
      if Binds(entries[j], rule, id, e, show) {
        return true;
      }
    }
    return false;
  }

  // ---- protection ----

  function Present(items: seq<Value>, show: Value -> string): set<string> {
    set v | v in items && v.Mapping? && IsTrue(Get(v, "type")) :: show(Get(v, "type"))
  }

  predicate OwnersReview(rules: seq<Value>) {
    exists rule <- rules :: rule.Mapping? && Parameter(rule, "require_code_owner_review") == Bool(true)
  }

  /** `len(v or [])`; None where `v` has no length. */
  function Length(v: Value): Option<nat> {
    match v
    case Null => Some(0)
    case Bool(b) => if b then None else Some(0)
    case Int(n) => if n == 0 then Some(0) else None
    case Float(x) => if x == 0.0 then Some(0) else None
    case Text(s) => Some(|s|)
    case List(items) => Some(|items|)
    case Mapping(fields) => Some(|fields|)
  }

  /** The most contexts any rule binds. */
  function MostContexts(rules: seq<Value>): Option<nat>
    requires forall rule <- rules :: rule.Mapping?
  {
    if rules == [] then Some(0) else
    var checks := Parameter(rules[0], "required_status_checks");
    var here := if Get(rules[0], "parameters").Mapping? then Length(checks) else Some(0);
    var rest := MostContexts(rules[1..]);
    if here.None? || rest.None? then None else Some(if here.value > rest.value then here.value else rest.value)
  }

  function Protection(reader: Reader, e: Expected, show: Value -> string): Outcome {
    var items := RulesOf(reader, e.protectionBranch);
    if items.None? then Reported(CheckResult(ProtectionCheck, Unknown, NoEvidence)) else
    var present := Present(items.value, show);
    var most := MostContexts(RulesFor(items.value, "required_status_checks"));
    var reviewed :=
      e.codeOwnerReview && "pull_request" in present ==> OwnersReview(RulesFor(items.value, "pull_request"));
    if "required_status_checks" in present && most.None? then Raised
    else if (forall kind <- e.ruleTypes :: kind in present) && reviewed
      && ("required_status_checks" in present ==> most.value >= e.minimumContexts)
    then Reported(CheckResult(ProtectionCheck, Pass, NoEvidence))
    else Reported(CheckResult(ProtectionCheck, Fail, NoEvidence))
  }

  // ---- immutable releases and freshness ----

  function Immutable(reader: Reader, e: Expected): Outcome {
    var setting := reader(ImmutableReleases);
    var status :=
      if !e.immutableReleases then Pass
      else if !IsOk(setting) || !setting.body.Mapping? || !Get(setting.body, "enabled").Bool? then Unknown
      else if Get(setting.body, "enabled").b then Pass
      else Fail;
    Reported(CheckResult(ImmutableCheck, status, NoEvidence))
  }

  predicate IsStrict(rule: Value, e: Expected, show: Value -> string)
    requires rule.Mapping?
  {
    && TextAt(rule, "ruleset_source_type", show) == "Organization"
    && TextAt(rule, "ruleset_source", show) == Organization(e)
    && Parameter(rule, "strict_required_status_checks_policy") == Bool(true)
  }

  function Freshness(reader: Reader, e: Expected, show: Value -> string): Outcome {
    var items := RulesOf(reader, e.branch);
    var status :=
      if !e.strictChecks then Pass
      else if items.None? then Unknown
      else if e.mergeQueue && RulesFor(items.value, "merge_queue") != [] then Pass
      else if exists rule <- RulesFor(items.value, "required_status_checks") :: IsStrict(rule, e, show) then Pass
      else Fail;
    Reported(CheckResult(FreshnessCheck, status, NoEvidence))
  }

  method CheckRequiredStatusFreshness(reader: Reader, e: Expected, show: Value -> string) returns (r: Outcome)
    ensures r == Freshness(reader, e, show)
  {
    hide RulesFor, IsStrict;
    if !e.strictChecks {
      return Reported(CheckResult(FreshnessCheck, Pass, NoEvidence));
    }
    var rules := reader(BranchRules(e.branch));
    if !IsOk(rules) || !rules.body.List? {
      return Reported(CheckResult(FreshnessCheck, Unknown, NoEvidence));
    }
    if e.mergeQueue && RulesFor(rules.body.items, "merge_queue") != [] {
      return Reported(CheckResult(FreshnessCheck, Pass, NoEvidence));
    }
    var checks := RulesFor(rules.body.items, "required_status_checks");
    for i := 0 to |checks|
      invariant forall k :: 0 <= k < i ==> !IsStrict(checks[k], e, show)
    {
      if IsStrict(checks[i], e, show) {
        return Reported(CheckResult(FreshnessCheck, Pass, NoEvidence));
      }
    }
    return Reported(CheckResult(FreshnessCheck, Fail, NoEvidence));
  }

  // ---- the attestation ----

  predicate Passes(o: Outcome) { o.Reported? && o.result.status.Pass? }

  /** The four checks in their order, or None if one raises. */
  function Verified(reader: Reader, e: Expected, show: Value -> string): Option<seq<CheckResult>> {
    var b, p := Binding(reader, e, show), Protection(reader, e, show);
    var i, f := Immutable(reader, e), Freshness(reader, e, show);
    if b.Raised? || p.Raised? || i.Raised? || f.Raised? then None else Some([b.result, p.result, i.result, f.result])
  }

  method Verify(reader: Reader, e: Expected, show: Value -> string) returns (results: Option<seq<CheckResult>>)
    ensures results == Verified(reader, e, show)
  {
    var binding := CheckRequiredWorkflowBinding(reader, e, show);
    var protection := Protection(reader, e, show);
    var immutable := Immutable(reader, e);
    var freshness := CheckRequiredStatusFreshness(reader, e, show);
    if binding.Raised? || protection.Raised? || freshness.Raised? {
      return None;
    }
    return Some([binding.result, protection.result, immutable.result, freshness.result]);
  }

  function ExitCode(results: seq<CheckResult>): nat {
    if exists r <- results :: r.status.Fail? then 2
    else if exists r <- results :: !r.status.Pass? then 3
    else 0
  }

  function Conclusion(results: seq<CheckResult>): Status {
    if forall r <- results :: r.status.Pass? then Pass
    else if exists r <- results :: r.status.Fail? then Fail
    else Unknown
  }

  /** Exit code and JSON conclusion say the same of any results, and only complete success is success. */
  lemma ExitAgreesWithConclusion(results: seq<CheckResult>)
    ensures ExitCode(results) == match Conclusion(results) case Pass => 0 case Fail => 2 case Unknown => 3
    ensures ExitCode(results) == 0 <==> forall r <- results :: r.status.Pass?
  {
  }

  // ---- failing closed ----

  /** `b` answers like `a`, except that it fails some requests other than for a ruleset's detail. */
  ghost predicate FailsMore(a: Reader, b: Reader) {
    forall r: Request :: b(r) == a(r) || (!IsOk(b(r)) && !r.Ruleset?)
  }

  lemma BindingFailsClosed(a: Reader, b: Reader, e: Expected, show: Value -> string)
    requires FailsMore(a, b) && Passes(Binding(b, e, show))
    ensures Binding(a, e, show) == Binding(b, e, show)
  {
    assert b(Repository) == a(Repository);
    assert b(BranchRules(e.branch)) == a(BranchRules(e.branch));
    assert forall id :: b(Ruleset(id)) == a(Ruleset(id));
  }

  /** Losing any responses but a ruleset's detail never turns a check that does not pass into one that does. */
  lemma AttestationFailsClosed(a: Reader, b: Reader, e: Expected, show: Value -> string)
    requires FailsMore(a, b)
    ensures Passes(Binding(b, e, show)) ==> Passes(Binding(a, e, show))
    ensures Passes(Protection(b, e, show)) ==> Passes(Protection(a, e, show))
    ensures Passes(Immutable(b, e)) ==> Passes(Immutable(a, e))
    ensures Passes(Freshness(b, e, show)) ==> Passes(Freshness(a, e, show))
  {
    if Passes(Binding(b, e, show)) {
      BindingFailsClosed(a, b, e, show);
    }
    var protected := BranchRules(e.protectionBranch);
    assert b(protected) == a(protected) || !IsOk(b(protected));
    assert b(ImmutableReleases) == a(ImmutableReleases) || !IsOk(b(ImmutableReleases));
    assert b(BranchRules(e.branch)) == a(BranchRules(e.branch)) || !IsOk(b(BranchRules(e.branch)));
  }

  /** So no such loss turns an attestation that does not succeed into one that does. */
  lemma ExitFailsClosed(a: Reader, b: Reader, e: Expected, show: Value -> string)
    requires FailsMore(a, b) && Verified(b, e, show).Some? && ExitCode(Verified(b, e, show).value) == 0
    ensures Verified(a, e, show).Some? && ExitCode(Verified(a, e, show).value) == 0
  {
    var results := Verified(b, e, show).value;
    assert results[0].status.Pass? && results[1].status.Pass? && results[2].status.Pass? && results[3].status.Pass?;
    AttestationFailsClosed(a, b, e, show);
  }

  /** The reader `a` without any ruleset detail. */
  function WithoutDetails(a: Reader): Reader {
    (r: Request) => if r.Ruleset? then ApiResult(403, Null, true) else a(r)
  }

  /** A ruleset's detail is the exception: without it the binding passes exactly where a binding rule is found,
      so a binding that failed because its ruleset does not enforce then passes. */
  lemma LosingTheDetailPasses(a: Reader, e: Expected, show: Value -> string)
    ensures
      Passes(Binding(WithoutDetails(a), e, show)) <==> BindingRule(a, e, show).Some?
    ensures BindingRule(a, e, show).Some? ==>
      (Passes(Binding(a, e, show)) <==> Enforcement(a, BindingRule(a, e, show).value, show).status.Pass?)
  {
    var b := WithoutDetails(a);
    assert RepositoryId(b) == RepositoryId(a) && RulesOf(b, e.branch) == RulesOf(a, e.branch);
  }

  /** The rule whose enforcement decides the binding. */
  function BindingRule(reader: Reader, e: Expected, show: Value -> string): (r: Option<Value>)
    ensures r.Some? ==> r.value.Mapping?
  {
    var id, rules := RepositoryId(reader), RulesOf(reader, e.branch);
    if id.None? || !IsInt(id.value) || rules.None? then None else
    var found := FirstBinding(RulesFor(rules.value, "workflows"), id.value, e, show);
    if found.Bound? then Some(found.rule) else None
  }

  // ---- what passing means ----

  /** A binding passes only on a rule in force on the production branch that comes from the contract's
      organization and names the repository's own id, the workflow path and the production branch; and if that
      rule's ruleset could be read, it is active. */
  lemma BindingIsProven(reader: Reader, e: Expected, show: Value -> string)
    requires Passes(Binding(reader, e, show))
    ensures IsOk(reader(Repository)) && reader(Repository).body.Mapping? && RulesOf(reader, e.branch).Some?
    ensures exists rule <- RulesOf(reader, e.branch).value ::
      && IsRule(rule, "workflows") && RuleBinds(rule, Get(reader(Repository).body, "id"), e, show)
      && Enforced(reader, rule, show)
  {
    var items := RulesOf(reader, e.branch).value;
    RulesForMeets(items, "workflows");
    var rule := BindingRule(reader, e, show).value;
    assert rule in items && IsRule(rule, "workflows") && Enforced(reader, rule, show);
  }

  /** Rule `i` is the first of `rules` that binds, and the search gets as far as that. */
  predicate IsFirstBinding(rules: seq<Value>, i: nat, id: Value, e: Expected, show: Value -> string)
    requires forall rule <- rules :: rule.Mapping?
  {
    && i < |rules| && RuleBinds(rules[i], id, e, show)
    && forall j :: 0 <= j < i ==> EntriesOf(rules[j]).Some? && !RuleBinds(rules[j], id, e, show)
  }

  lemma {:induction false} FirstBindingAt(rules: seq<Value>, i: nat, id: Value, e: Expected, show: Value -> string)
    requires (forall rule <- rules :: rule.Mapping?) && IsFirstBinding(rules, i, id, e, show)
    ensures FirstBinding(rules, id, e, show) == Bound(rules[i])
  {
    hide RuleBinds, EntriesOf;
    if i == 0 {
      BindsIterates(rules[0], id, e, show);
    } else {
      assert EntriesOf(rules[0]).Some? && !RuleBinds(rules[0], id, e, show);
      FirstBindingAt(rules[1..], i - 1, id, e, show);
    }
  }

  lemma BindsIterates(rule: Value, id: Value, e: Expected, show: Value -> string)
    requires rule.Mapping? && RuleBinds(rule, id, e, show)
    ensures EntriesOf(rule).Some?
  {
  }

  lemma {:induction false} FirstBindingIsFirst(rules: seq<Value>, id: Value, e: Expected, show: Value -> string)
    returns (i: nat)
    requires (forall rule <- rules :: rule.Mapping?) && FirstBinding(rules, id, e, show).Bound?
    ensures IsFirstBinding(rules, i, id, e, show) && rules[i] == FirstBinding(rules, id, e, show).rule
  {
    hide RuleBinds, EntriesOf;
    i := 0;
    if !RuleBinds(rules[0], id, e, show) {
      var k := FirstBindingIsFirst(rules[1..], id, e, show);
      i := k + 1;
      assert forall j :: 0 < j < i ==> rules[j] == rules[1..][j - 1];
    }
  }

  /** The first rule that binds is in force. */
  ghost predicate BoundInForce(rules: seq<Value>, id: Value, e: Expected, reader: Reader, show: Value -> string)
    requires forall rule <- rules :: rule.Mapping?
  {
    exists i: nat :: IsFirstBinding(rules, i, id, e, show) && Enforced(reader, rules[i], show)
  }

  /** The search ends at a rule in force exactly where there is such a first rule. */
  lemma BoundIff(rules: seq<Value>, id: Value, e: Expected, reader: Reader, show: Value -> string)
    requires forall rule <- rules :: rule.Mapping?
    ensures
      var f := FirstBinding(rules, id, e, show);
      f.Bound? && Enforced(reader, f.rule, show) <==> BoundInForce(rules, id, e, reader, show)
  {
    hide Enforced;
    if FirstBinding(rules, id, e, show).Bound? {
      var i := FirstBindingIsFirst(rules, id, e, show);
      assert Enforced(reader, FirstBinding(rules, id, e, show).rule, show) <==> Enforced(reader, rules[i], show);
    }
    hide IsFirstBinding, FirstBinding;
    forall i: nat | IsFirstBinding(rules, i, id, e, show)
      ensures i < |rules| && FirstBinding(rules, id, e, show) == Bound(rules[i])
    {
      FirstIsIn(rules, i, id, e, show);
      FirstBindingAt(rules, i, id, e, show);
    }
  }

  /** A binding passes exactly where the repository's id and the branch's rules can be read and, of the workflow
      rules, one binds, none before it binds or has entries that cannot be gone through, and no readable detail
      says that its ruleset does not enforce. A later binding rule in force does not make up for the first. */
  lemma BindingIff(reader: Reader, e: Expected, show: Value -> string)
    ensures Passes(Binding(reader, e, show)) <==>
      && RepositoryId(reader).Some? && IsInt(RepositoryId(reader).value) && RulesOf(reader, e.branch).Some?
      && BoundInForce(RulesFor(RulesOf(reader, e.branch).value, "workflows"), RepositoryId(reader).value,
           e, reader, show)
  {
    hide RulesFor, FirstBinding, BoundInForce, RulesOf, RepositoryId, Enforced, Enforcement, IsInt;
    var id, items := RepositoryId(reader), RulesOf(reader, e.branch);
    if id.Some? && items.Some? && IsInt(id.value) {
      var rules := RulesFor(items.value, "workflows");
      BoundIff(rules, id.value, e, reader, show);
      if FirstBinding(rules, id.value, e, show).Bound? {
        EnforcementPasses(reader, FirstBinding(rules, id.value, e, show).rule, show);
      }
    }
  }

  lemma EnforcementPasses(reader: Reader, rule: Value, show: Value -> string)
    requires rule.Mapping?
    ensures Enforcement(reader, rule, show).status.Pass? <==> Enforced(reader, rule, show)
  {
  }

  lemma FirstIsIn(rules: seq<Value>, i: nat, id: Value, e: Expected, show: Value -> string)
    requires (forall rule <- rules :: rule.Mapping?) && IsFirstBinding(rules, i, id, e, show)
    ensures i < |rules|
  {
  }

  /** No readable detail says that the rule's ruleset is anything but active. */
  predicate Enforced(reader: Reader, rule: Value, show: Value -> string)
    requires rule.Mapping?
  {
    var detail := reader(Ruleset(Get(rule, "ruleset_id")));
    IsInt(Get(rule, "ruleset_id")) && IsOk(detail) && detail.body.Mapping? ==>
      TextAt(detail.body, "enforcement", show) == "active"
  }

  /** Freshness passes exactly where the contract asks for none, a merge queue is accepted and active, or a rule
      of the organization is strict. */
  lemma FreshnessIff(reader: Reader, e: Expected, show: Value -> string)
    ensures Passes(Freshness(reader, e, show)) <==>
      || !e.strictChecks
      || (RulesOf(reader, e.branch).Some? && exists rule <- RulesOf(reader, e.branch).value ::
            || (e.mergeQueue && IsRule(rule, "merge_queue"))
            || (IsRule(rule, "required_status_checks") && IsStrict(rule, e, show)))
  {
    if RulesOf(reader, e.branch).Some? {
      var items := RulesOf(reader, e.branch).value;
      RulesForMeets(items, "merge_queue");
      RulesForMeets(items, "required_status_checks");
      var queue := RulesFor(items, "merge_queue");
      assert queue != [] ==> queue[0] in queue;
      assert queue == [] ==> forall v :: v !in queue;
    }
  }

  lemma {:induction false} MostContextsMeets(rules: seq<Value>, minimum: nat)
    requires (forall rule <- rules :: rule.Mapping?) && MostContexts(rules).Some? && minimum > 0
    ensures MostContexts(rules).value >= minimum <==> exists rule <- rules :: BindsContexts(rule, minimum)
  {
    if rules != [] {
      MostContextsMeets(rules[1..], minimum);
      assert rules == [rules[0]] + rules[1..];
      var checks := Parameter(rules[0], "required_status_checks");
      var here := if Get(rules[0], "parameters").Mapping? then Length(checks).value else 0;
      assert here >= minimum <==> BindsContexts(rules[0], minimum);
      assert MostContexts(rules).value >= minimum <==> here >= minimum || MostContexts(rules[1..]).value >= minimum;
    }
  }

  predicate BindsContexts(rule: Value, minimum: nat) {
    && rule.Mapping? && Get(rule, "parameters").Mapping?
    && Length(Parameter(rule, "required_status_checks")).Some?
    && Length(Parameter(rule, "required_status_checks")).value >= minimum
  }

  /** Protection passes exactly where the branch's rules can be read, every required rule type is among them,
      and where reviews or status checks are, one of those asks for code owners and one binds enough contexts. */
  lemma ProtectionIff(reader: Reader, e: Expected, show: Value -> string)
    requires e.minimumContexts > 0
    ensures Passes(Protection(reader, e, show)) <==>
      RulesOf(reader, e.protectionBranch).Some? &&
      var items := RulesOf(reader, e.protectionBranch).value;
      && (forall kind <- e.ruleTypes :: kind in Present(items, show))
      && ("pull_request" in Present(items, show) && e.codeOwnerReview ==>
            exists rule <- items ::
              IsRule(rule, "pull_request") && Parameter(rule, "require_code_owner_review") == Bool(true))
      && ("required_status_checks" in Present(items, show) ==>
            && MostContexts(RulesFor(items, "required_status_checks")).Some?
            && exists rule <- items :: IsRule(rule, "required_status_checks") && BindsContexts(rule, e.minimumContexts))
  {
    hide RulesFor, MostContexts, Length, BindsContexts;
    if RulesOf(reader, e.protectionBranch).Some? {
      var items := RulesOf(reader, e.protectionBranch).value;
      RulesForMeets(items, "pull_request");
      RulesForMeets(items, "required_status_checks");
      var rules := RulesFor(items, "required_status_checks");
      if MostContexts(rules).Some? {
        MostContextsMeets(rules, e.minimumContexts);
      }
      assert (exists rule <- rules :: BindsContexts(rule, e.minimumContexts)) <==>
        exists rule <- items :: IsRule(rule, "required_status_checks") && BindsContexts(rule, e.minimumContexts);
    }
  }

  // ---- what the responses say, field by field ----

  predicate Has(v: Value, key: string, value: Value) {
    v.Mapping? && key in v.fields && v.fields[key] == value
  }

  /** What `str` makes of a field, a missing one being nothing, is `text`. */
  predicate Shows(v: Value, key: string, text: string, show: Value -> string) {
    v.Mapping? && if key in v.fields then show(v.fields[key]) == text else text == ""
  }

  /** The parameter `key` of a rule is `value`. */
  predicate HasParameter(rule: Value, key: string, value: Value) {
    rule.Mapping? && "parameters" in rule.fields && Has(rule.fields["parameters"], key, value)
  }

  lemma TruthIff(v: Value)
    ensures IsTrue(v) <==>
      v != Null && v != Bool(false) && v != Int(0) && v != Float(0.0) && v != Text("") && v != List([])
      && v != Mapping(map[])
  {
  }

  /** A branch's rules are read exactly from a successful response that is a list. */
  lemma ReadableIff(reader: Reader, branch: string, items: seq<Value>)
    ensures RulesOf(reader, branch) == Some(items) <==>
      exists status :: 200 <= status <= 299 && reader(BranchRules(branch)) == ApiResult(status, List(items), false)
  {
    if RulesOf(reader, branch) == Some(items) {
      var r := reader(BranchRules(branch));
      assert r == ApiResult(r.status, List(items), false);
    }
  }

  /** The repository's id is a number exactly where a successful response is a mapping that has one; there is none to
      be had exactly where a successful response is neither a mapping nor empty. */
  lemma RepositoryIdIff(reader: Reader, id: Value)
    requires id.Int? || id.Bool?
    ensures RepositoryId(reader) == Some(id) <==>
      exists status, body ::
        200 <= status <= 299 && reader(Repository) == ApiResult(status, body, false) && Has(body, "id", id)
    ensures RepositoryId(reader).None? <==>
      exists status, body ::
        && 200 <= status <= 299 && reader(Repository) == ApiResult(status, body, false) && !body.Mapping?
        && body != Null && body != Bool(false) && body != Int(0) && body != Float(0.0) && body != Text("")
        && body != List([])
  {
    var r := reader(Repository);
    TruthIff(r.body);
    if IsOk(r) {
      assert r == ApiResult(r.status, r.body, false);
    }
  }

  /** The rules of a type are the mappings that carry it, in their order. */
  lemma {:induction false} RulesForAppend(a: seq<Value>, b: seq<Value>, kind: string)
    ensures RulesFor(a + b, kind) == RulesFor(a, kind) + RulesFor(b, kind)
    ensures forall v :: RulesFor([v], kind) == if Has(v, "type", Text(kind)) then [v] else []
  {
    forall v ensures RulesFor([v], kind) == if Has(v, "type", Text(kind)) then [v] else [] {
      assert [v][1..] == [];
    }
    if a == [] {
      assert a + b == b;
    } else {
      assert (a + b)[1..] == a[1..] + b;
      RulesForAppend(a[1..], b, kind);
    }
  }

  lemma NumbersAgree(a: int, b: int, t: bool, x: real)
    ensures SameNumber(Int(a), Int(b)) <==> a == b
    ensures SameNumber(Bool(t), Int(a)) <==> a == if t then 1 else 0
    ensures SameNumber(Float(x), Int(a)) <==> x == a as real
    ensures forall v, w :: SameNumber(v, w) ==> !v.Null? && !v.Text? && !v.List? && !v.Mapping?
  {
  }

  /** A rule binds exactly if it comes from the contract's organization and one of its entries names the
      repository's own id, the workflow's path and the production branch. */
  lemma RuleBindsIff(rule: Value, id: Value, e: Expected, owner: string, name: string, show: Value -> string)
    requires rule.Mapping? && IsNumber(id) && e.repository == owner + "/" + name && '/' !in owner
    ensures RuleBinds(rule, id, e, show) <==>
      && Shows(rule, "ruleset_source_type", "Organization", show) && Shows(rule, "ruleset_source", owner, show)
      && exists items, entry, value ::
          && HasParameter(rule, "workflows", List(items)) && entry in items
          && Has(entry, "repository_id", value) && SameNumber(value, id)
          && Shows(entry, "path", e.workflow, show) && Shows(entry, "ref", "refs/heads/" + e.branch, show)
  {
    hide SameNumber;
    CutAtFirst(owner, "/" + name, '/');
    assert e.repository == owner + ("/" + name);
    NullIsNoNumber(id);
    if RuleBinds(rule, id, e, show) {
      var entry :| entry in EntriesOf(rule).value && Binds(entry, rule, id, e, show);
      assert HasParameter(rule, "workflows", List(EntriesOf(rule).value));
      assert Has(entry, "repository_id", Get(entry, "repository_id"));
    }
    forall items, entry, value |
      && HasParameter(rule, "workflows", List(items)) && entry in items
      && Has(entry, "repository_id", value) && SameNumber(value, id)
      ensures EntriesOf(rule) == Some(items) && Get(entry, "repository_id") == value
    {
    }
  }

  lemma NullIsNoNumber(id: Value)
    ensures !SameNumber(Null, id)
  {
  }

  /** Its entries cannot be gone through exactly if they are a number other than zero, or `true`. */
  lemma EntriesBreakIff(rule: Value)
    requires rule.Mapping?
    ensures EntriesOf(rule).None? <==>
      exists v :: HasParameter(rule, "workflows", v) && (v.Int? || v.Float? || v.Bool?)
        && v != Int(0) && v != Float(0.0) && v != Bool(false)
  {
    if EntriesOf(rule).None? {
      assert HasParameter(rule, "workflows", Parameter(rule, "workflows"));
    }
  }

  /** Rule by rule, and as far as the search gets: none in front of `i` binds or breaks it. */
  predicate Passed(rules: seq<Value>, i: nat, id: Value, e: Expected, show: Value -> string)
    requires (forall rule <- rules :: rule.Mapping?) && i <= |rules|
  {
    forall j :: 0 <= j < i ==> EntriesOf(rules[j]).Some? && !RuleBinds(rules[j], id, e, show)
  }

  lemma {:induction false} SearchEnds(rules: seq<Value>, id: Value, e: Expected, show: Value -> string)
    returns (i: nat)
    requires forall rule <- rules :: rule.Mapping?
    ensures i <= |rules| && Passed(rules, i, id, e, show)
    ensures match FirstBinding(rules, id, e, show)
      case Unbound => i == |rules|
      case Broken => i < |rules| && EntriesOf(rules[i]).None?
      case Bound(rule) =>
        i < |rules| && rule == rules[i] && EntriesOf(rules[i]).Some? && RuleBinds(rules[i], id, e, show)
  {
    hide EntriesOf, RuleBinds, Passed;
    i := 0;
    NonePassed(rules, id, e, show);
    if rules != [] && EntriesOf(rules[0]).Some? && !RuleBinds(rules[0], id, e, show) {
      var k := SearchEnds(rules[1..], id, e, show);
      i := k + 1;
      OneMorePassed(rules, k, id, e, show);
    }
  }

  lemma NonePassed(rules: seq<Value>, id: Value, e: Expected, show: Value -> string)
    requires forall rule <- rules :: rule.Mapping?
    ensures Passed(rules, 0, id, e, show)
  {
  }

  lemma OneMorePassed(rules: seq<Value>, k: nat, id: Value, e: Expected, show: Value -> string)
    requires rules != [] && (forall rule <- rules :: rule.Mapping?) && k <= |rules[1..]|
    requires EntriesOf(rules[0]).Some? && !RuleBinds(rules[0], id, e, show) && Passed(rules[1..], k, id, e, show)
    ensures Passed(rules, k + 1, id, e, show)
  {
    hide EntriesOf, RuleBinds;
    assert forall j :: 0 < j < k + 1 ==> rules[j] == rules[1..][j - 1];
  }

  // ---- failing, and not knowing ----

  /** How a ruleset's enforcement is known: by the endpoint's guarantee where the rule has no id or the detail cannot
      be read, else from the detail. */
  lemma EnforcementIs(reader: Reader, rule: Value, show: Value -> string)
    requires rule.Mapping?
    ensures
      var r := Enforcement(reader, rule, show);
      && ((forall id :: Has(rule, "ruleset_id", id) ==> !id.Int? && !id.Bool?) ==>
            r.status == Pass && r.evidence == Guarantee)
      && (forall id :: Has(rule, "ruleset_id", id) && (id.Int? || id.Bool?) ==>
            var detail := reader(Ruleset(id));
            if detail.failed || detail.status < 200 || detail.status > 299 || !detail.body.Mapping?
            then r.status == Pass && r.evidence == DetailUnreadable
            else if Shows(detail.body, "enforcement", "active", show)
            then r.status == Pass && r.evidence == Corroborated
            else r.status == Fail && r.evidence == NoEvidence)
  {
    if IsInt(Get(rule, "ruleset_id")) {
      assert Has(rule, "ruleset_id", Get(rule, "ruleset_id"));
    }
  }

  /** A binding is unknown exactly where the repository's response has no number for its id, or the branch's rules
      cannot be read, and never because of the rules. */
  lemma BindingUnknownIff(reader: Reader, e: Expected, show: Value -> string)
    ensures
      var r, id := Binding(reader, e, show), RepositoryId(reader);
      && (r.Raised? && id.Some? ==> (id.value.Int? || id.value.Bool?) && RulesOf(reader, e.branch).Some?)
      && (r.Reported? && r.result.status == Unknown <==>
            id.Some? && ((!id.value.Int? && !id.value.Bool?) || RulesOf(reader, e.branch).None?))
  {
    hide FirstBinding;
  }

  /** Where both can be read it fails exactly if no rule binds or the first that does is not in force, and raises
      exactly if the search meets entries it cannot go through. Its evidence is how that first rule is enforced. */
  lemma BindingFailsIff(reader: Reader, e: Expected, show: Value -> string)
    requires RepositoryId(reader).Some? && IsInt(RepositoryId(reader).value) && RulesOf(reader, e.branch).Some?
    ensures
      var r, id := Binding(reader, e, show), RepositoryId(reader).value;
      var rules := RulesFor(RulesOf(reader, e.branch).value, "workflows");
      && (r.Raised? <==> exists i: nat :: i < |rules| && Passed(rules, i, id, e, show) && EntriesOf(rules[i]).None?)
      && (r.Reported? && r.result.status == Fail <==>
            || Passed(rules, |rules|, id, e, show)
            || exists i: nat :: i < |rules| && Passed(rules, i, id, e, show) && EntriesOf(rules[i]).Some?
                 && RuleBinds(rules[i], id, e, show) && !Enforced(reader, rules[i], show))
      && (r.Reported? && r.result.status == Pass ==>
            exists i: nat :: i < |rules| && Passed(rules, i, id, e, show) && RuleBinds(rules[i], id, e, show)
              && r.result.evidence == Enforcement(reader, rules[i], show).evidence)
  {
    hide FirstBinding, EntriesOf, RuleBinds, Enforcement, Enforced, RulesFor, RulesOf, RepositoryId, IsInt;
    var id, rules := RepositoryId(reader).value, RulesFor(RulesOf(reader, e.branch).value, "workflows");
    var i := SearchEnds(rules, id, e, show);
    if FirstBinding(rules, id, e, show).Bound? {
      EnforcementDecides(reader, rules[i], show);
    }
  }

  lemma EnforcementDecides(reader: Reader, rule: Value, show: Value -> string)
    requires rule.Mapping?
    ensures Enforcement(reader, rule, show).status == if Enforced(reader, rule, show) then Pass else Fail
  {
  }

  /** The release setting: no response that is unclear passes or fails. */
  lemma ImmutableIff(reader: Reader, e: Expected)
    ensures
      var r, setting := Immutable(reader, e), reader(ImmutableReleases);
      var readable := !setting.failed && 200 <= setting.status <= 299;
      && r.Reported? && r.result.name == ImmutableCheck
      && (r.result.status == Pass <==> !e.immutableReleases || (readable && Has(setting.body, "enabled", Bool(true))))
      && (r.result.status == Fail <==> e.immutableReleases && readable && Has(setting.body, "enabled", Bool(false)))
      && (r.result.status == Unknown <==>
            && e.immutableReleases
            && !(readable && (Has(setting.body, "enabled", Bool(true)) || Has(setting.body, "enabled", Bool(false)))))
  {
  }

  /** Freshness is unknown exactly where it is asked for and the rules cannot be read; it never raises. */
  lemma FreshnessUnknownIff(reader: Reader, e: Expected, show: Value -> string)
    ensures
      var r := Freshness(reader, e, show);
      && r.Reported?
      && (r.result.status == Unknown <==> e.strictChecks && RulesOf(reader, e.branch).None?)
  {
  }

  lemma StrictIff(rule: Value, e: Expected, owner: string, name: string, show: Value -> string)
    requires rule.Mapping? && e.repository == owner + "/" + name && '/' !in owner
    ensures IsStrict(rule, e, show) <==>
      && Shows(rule, "ruleset_source_type", "Organization", show) && Shows(rule, "ruleset_source", owner, show)
      && HasParameter(rule, "strict_required_status_checks_policy", Bool(true))
  {
    CutAtFirst(owner, "/" + name, '/');
    assert e.repository == owner + ("/" + name);
  }

  /** The types present are what `str` makes of those types that are not empty. */
  lemma PresentIff(items: seq<Value>, kind: string, show: Value -> string)
    ensures kind in Present(items, show) <==>
      exists rule, v :: rule in items && Has(rule, "type", v) && IsTrue(v) && kind == show(v)
  {
    forall rule | rule in items && rule.Mapping? && IsTrue(Get(rule, "type"))
      ensures Has(rule, "type", Get(rule, "type"))
    {
    }
  }

  /** A rule binds as many contexts as the list it carries has. */
  lemma BindsContextsIff(rule: Value, minimum: nat)
    requires minimum > 0
    ensures BindsContexts(rule, minimum) <==>
      || (exists items :: HasParameter(rule, "required_status_checks", List(items)) && |items| >= minimum)
      || (exists s :: HasParameter(rule, "required_status_checks", Text(s)) && |s| >= minimum)
      || (exists fields :: HasParameter(rule, "required_status_checks", Mapping(fields)) && |fields| >= minimum)
  {
    if BindsContexts(rule, minimum) {
      var v := Parameter(rule, "required_status_checks");
      assert HasParameter(rule, "required_status_checks", v);
      match v
      case List(items) => assert HasParameter(rule, "required_status_checks", List(items));
      case Text(s) => assert HasParameter(rule, "required_status_checks", Text(s));
      case Mapping(fields) => assert HasParameter(rule, "required_status_checks", Mapping(fields));
      case _ =>
    }
  }

  lemma {:induction false} NoLengthIff(rules: seq<Value>)
    requires forall rule <- rules :: rule.Mapping?
    ensures MostContexts(rules).None? <==>
      exists rule, v :: rule in rules && HasParameter(rule, "required_status_checks", v)
        && (v.Int? || v.Float? || v.Bool?) && v != Int(0) && v != Float(0.0) && v != Bool(false)
  {
    if rules != [] {
      NoLengthIff(rules[1..]);
      assert rules == [rules[0]] + rules[1..];
      var v := Parameter(rules[0], "required_status_checks");
      if Length(v).None? {
        assert HasParameter(rules[0], "required_status_checks", v);
      }
    }
  }

  /** Protection is unknown exactly where the rules cannot be read, and raises exactly where status checks are present
      and one of their rules carries something without a length. */
  lemma ProtectionUnknownIff(reader: Reader, e: Expected, show: Value -> string)
    ensures
      var r, items := Protection(reader, e, show), RulesOf(reader, e.protectionBranch);
      && (r.Reported? && r.result.status == Unknown <==> items.None?)
      && (r.Raised? <==>
            && items.Some? && "required_status_checks" in Present(items.value, show)
            && MostContexts(RulesFor(items.value, "required_status_checks")).None?)
  {
    hide RulesFor, MostContexts, Present;
  }

  /** Four results in their order, each under its name, unless a check raises. */
  lemma FourResults(reader: Reader, e: Expected, show: Value -> string)
    ensures
      var results := Verified(reader, e, show);
      && (results.None? <==> Binding(reader, e, show).Raised? || Protection(reader, e, show).Raised?)
      && (results.Some? ==>
            && [Reported(results.value[0]), Reported(results.value[1]), Reported(results.value[2]),
                Reported(results.value[3])]
               == [Binding(reader, e, show), Protection(reader, e, show), Immutable(reader, e),
                   Freshness(reader, e, show)]
            && |results.value| == 4
            && results.value[0].name == BindingCheck && results.value[1].name == ProtectionCheck
            && results.value[2].name == ImmutableCheck && results.value[3].name == FreshnessCheck
            && forall i :: 1 <= i < 4 ==> results.value[i].evidence == NoEvidence)
  {
  }
}
