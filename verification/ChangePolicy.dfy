/** The changed files of a run, the gates they select and the companions they need. */
module ChangePolicy {
  import opened Documents
  import opened Ordering
  import opened Paths
  import opened Strings

  // ---- paths ----

  datatype Fault = NotALine | Backslash | NotCanonical | GitFailed | NoContext | Unavailable | ManyBases

  datatype Result<+T> = Ok(value: T) | Err(fault: Fault)

  function NormalizePath(path: string): Result<string> {
    if path == "" || '\0' in path || '\n' in path || '\r' in path then Err(NotALine)
    else if '\\' in path then Err(Backslash)
    else if IsAbsolute(path) || ".." in Parts(path) || StartsWith(path, "./") then Err(NotCanonical)
    else if AsPosix(path) == "." || AsPosix(path) != path then Err(NotCanonical)
    else Ok(AsPosix(path))
  }

  predicate IsForbidden(c: char) { c == '\0' || c == '\n' || c == '\r' || c == '\\' }

  /** Repository-relative in canonical form. */
  predicate IsCanonical(path: string) {
    && (forall c <- path :: !IsForbidden(c))
    && (forall component <- SplitOn(path, '/') :: component != "" && component != "." && component != "..")
  }

  lemma FirstComponent(path: string)
    ensures path == "" || IsAbsolute(path) ==> "" in SplitOn(path, '/')
    ensures StartsWith(path, "./") || path == "." ==> "." in SplitOn(path, '/')
  {
    var first := CutAt(path, '/');
    assert SplitOn(path, '/')[0] == first;
    if StartsWith(path, "./") || path == "." {
      assert path[0] == '.' && (|path| > 1 ==> path[1] == '/');
      assert CutAt(path[1..], '/') == "";
      assert first == ".";
    }
  }

  /** A path is accepted exactly when it is canonical, and then unchanged. */
  lemma AcceptedPathIff(path: string)
    ensures NormalizePath(path).Ok? <==> IsCanonical(path)
    ensures NormalizePath(path).Ok? ==> NormalizePath(path).value == path
  {
    FirstComponent(path);
    NormalIff(path);
    PartsAreComponents(SplitOn(path, '/'));
    if IsCanonical(path) {
      assert forall c <- SplitOn(path, '/') :: IsPart(c);
    }
  }

  function NormalizePaths(paths: seq<string>): Result<seq<string>> {
    if paths == [] then Ok([]) else
    var first := NormalizePath(paths[0]);
    if first.Err? then Err(first.fault) else
    var rest := NormalizePaths(paths[1..]);
    if rest.Err? then rest else Ok([first.value] + rest.value)
  }

  lemma {:induction false} AcceptedPathsIff(paths: seq<string>)
    ensures NormalizePaths(paths).Ok? <==> forall path <- paths :: IsCanonical(path)
    ensures NormalizePaths(paths).Ok? ==> NormalizePaths(paths).value == paths
  {
    if paths != [] {
      AcceptedPathIff(paths[0]);
      AcceptedPathsIff(paths[1..]);
      assert paths == [paths[0]] + paths[1..];
    }
  }

  // ---- the change set ----

  /** What git answers: None is a failed command. `diff` is asked at a merge base. */
  datatype Git = Git(
    unstaged: Option<seq<string>>, staged: Option<seq<string>>, untracked: Option<seq<string>>,
    baseExists: bool, mergeBases: Option<seq<string>>, diff: string -> Option<seq<string>>)

  datatype Source = Explicit | WorkingTree | Comparison | ComparisonAndWorkingTree | ComparisonUnavailable

  datatype Resolution = Resolution(files: seq<string>, source: Source)

  function GitPaths(answer: Option<seq<string>>): Result<seq<string>> {
    if answer.None? then Err(GitFailed) else NormalizePaths(answer.value)
  }

  function WorkingTreeFiles(git: Git): Result<seq<string>> {
    var unstaged, staged, untracked := GitPaths(git.unstaged), GitPaths(git.staged), GitPaths(git.untracked);
    if unstaged.Err? then unstaged else if staged.Err? then staged else if untracked.Err? then untracked
    else Ok(unstaged.value + staged.value + untracked.value)
  }

  function ComparisonFiles(git: Git): Result<seq<string>> {
    if !git.baseExists then Err(Unavailable)
    else if git.mergeBases.None? then Err(GitFailed)
    else if |git.mergeBases.value| != 1 then Err(ManyBases)
    else GitPaths(git.diff(git.mergeBases.value[0]))
  }

  function Resolved(explicit: seq<string>, compare: bool, git: Git): Result<Resolution> {
    var named, working, committed := NormalizePaths(explicit), WorkingTreeFiles(git), ComparisonFiles(git);
    if explicit != [] then
      (if named.Err? then Err(named.fault) else Ok(Resolution(SortedUnique(named.value), Explicit)))
    else if working.Err? then Err(working.fault)
    else if !compare then
      (if working.value == [] then Err(NoContext) else Ok(Resolution(SortedUnique(working.value), WorkingTree)))
    else if committed.Ok? then
      Ok(Resolution(SortedUnique(committed.value + working.value),
        if working.value == [] then Comparison else ComparisonAndWorkingTree))
    else if working.value == [] then Err(committed.fault)
    else Ok(Resolution(SortedUnique(working.value), ComparisonUnavailable))
  }

  method ResolveChangedFiles(explicit: seq<string>, compare: bool, git: Git) returns (r: Result<Resolution>)
    ensures r == Resolved(explicit, compare, git)
  {
    if explicit != [] {
      var named := NormalizePaths(explicit);
      if named.Err? {
        return Err(named.fault);
      }
      return Ok(Resolution(SortedUnique(named.value), Explicit));
    }
    var working := WorkingTreeFiles(git);
    if working.Err? {
      return Err(working.fault);
    }
    var committed: seq<string> := [];
    var source := WorkingTree;
    if compare {
      var answer := ComparisonFiles(git);
      if answer.Ok? {
        committed := answer.value;
        source := if working.value != [] then ComparisonAndWorkingTree else Comparison;
      } else if working.value == [] {
        return Err(answer.fault);
      } else {
        source := ComparisonUnavailable;
      }
    } else if working.value == [] {
      return Err(NoContext);
    }
    assert [] + working.value == working.value;
    return Ok(Resolution(SortedUnique(committed + working.value), source));
  }

  /** What the answers name: in `committed` only if the comparison succeeded. */
  function Named(answer: Option<seq<string>>): set<string> { if answer.Some? then Elements(answer.value) else {} }

  function WorkingSet(git: Git): set<string> { Named(git.unstaged) + Named(git.staged) + Named(git.untracked) }

  function CommittedSet(git: Git): set<string> {
    if ComparisonFiles(git).Ok? then Elements(ComparisonFiles(git).value) else {}
  }

  lemma WorkingIsUnion(git: Git)
    ensures WorkingTreeFiles(git).Ok? ==> Elements(WorkingTreeFiles(git).value) == WorkingSet(git)
    ensures WorkingTreeFiles(git).Ok? ==> forall path <- WorkingTreeFiles(git).value :: IsCanonical(path)
  {
    if WorkingTreeFiles(git).Ok? {
      AcceptedPathsIff(git.unstaged.value);
      AcceptedPathsIff(git.staged.value);
      AcceptedPathsIff(git.untracked.value);
    }
  }

  lemma CommittedAreCanonical(git: Git)
    ensures ComparisonFiles(git).Ok? ==> forall path <- ComparisonFiles(git).value :: IsCanonical(path)
  {
    if ComparisonFiles(git).Ok? {
      AcceptedPathsIff(git.diff(git.mergeBases.value[0]).value);
    }
  }

  /** A resolution lists, sorted and each once, exactly the union of its sources, all canonical; and it is
      empty only where the comparison succeeded and found nothing. */
  lemma ResolutionIsUnion(explicit: seq<string>, compare: bool, git: Git)
    requires Resolved(explicit, compare, git).Ok?
    ensures
      var r := Resolved(explicit, compare, git).value;
      && StrictlySorted(r.files)
      && Elements(r.files) == (if explicit != [] then Elements(explicit)
           else WorkingSet(git) + if compare then CommittedSet(git) else {})
      && (forall path <- r.files :: IsCanonical(path))
      && (r.files == [] ==> r.source == Comparison && ComparisonFiles(git) == Ok([]))
  {
    var r := Resolved(explicit, compare, git).value;
    AcceptedPathsIff(explicit);
    if explicit != [] {
      SortedKeeps(explicit);
    } else {
      WorkingIsUnion(git);
      CommittedAreCanonical(git);
      var working := WorkingTreeFiles(git).value;
      SortedKeeps(working);
      if ComparisonFiles(git).Ok? {
        var committed := ComparisonFiles(git).value;
        SortedKeeps(committed + working);
        assert Elements(committed + working) == Elements(committed) + Elements(working);
      }
    }
  }

  lemma SortedKeeps(paths: seq<string>)
    ensures StrictlySorted(SortedUnique(paths)) && Elements(SortedUnique(paths)) == Elements(paths)
    ensures (forall path <- paths :: IsCanonical(path)) ==> forall path <- SortedUnique(paths) :: IsCanonical(path)
    ensures SortedUnique(paths) == [] <==> paths == []
  {
    SortedUniqueMeets(paths);
    if forall path <- paths :: IsCanonical(path) {
      forall path <- SortedUnique(paths)
        ensures IsCanonical(path)
      {
        assert path in Elements(paths);
      }
    }
    assert paths != [] ==> paths[0] in Elements(SortedUnique(paths));
    assert SortedUnique(paths) != [] ==> SortedUnique(paths)[0] in Elements(paths);
  }

  predicate AllCanonical(answer: Option<seq<string>>) {
    answer.Some? && forall path <- answer.value :: IsCanonical(path)
  }

  /** The comparison has one merge base and its answer can be used. */
  predicate Compares(git: Git) {
    && git.baseExists && git.mergeBases.Some? && |git.mergeBases.value| == 1
    && AllCanonical(git.diff(git.mergeBases.value[0]))
  }

  /** When resolving fails: a file that is named or that git lists is not canonical, git does not answer, or
      the working tree is clean and there is no comparison to say so. No context is never an empty set. */
  lemma ResolutionFailsIff(explicit: seq<string>, compare: bool, git: Git)
    ensures Resolved(explicit, compare, git).Err? <==>
      if explicit != [] then exists path <- explicit :: !IsCanonical(path)
      else
        || !AllCanonical(git.unstaged) || !AllCanonical(git.staged) || !AllCanonical(git.untracked)
        || (WorkingSet(git) == {} && !(compare && Compares(git)))
  {
    AcceptedPathsIff(explicit);
    AnswerIff(git.unstaged);
    AnswerIff(git.staged);
    AnswerIff(git.untracked);
    ComparesIff(git);
    if WorkingTreeFiles(git).Ok? {
      WorkingIsUnion(git);
      var working := WorkingTreeFiles(git).value;
      assert working != [] ==> working[0] in Elements(working);
      assert working == [] ==> Elements(working) == {};
    }
  }

  lemma AnswerIff(answer: Option<seq<string>>)
    ensures GitPaths(answer).Ok? <==> AllCanonical(answer)
  {
    if answer.Some? {
      AcceptedPathsIff(answer.value);
    }
  }

  lemma ComparesIff(git: Git)
    ensures ComparisonFiles(git).Ok? <==> Compares(git)
  {
    if git.baseExists && git.mergeBases.Some? && |git.mergeBases.value| == 1 {
      AnswerIff(git.diff(git.mergeBases.value[0]));
    }
  }

  // ---- gates ----

  type Argv = seq<string>

  datatype Gate = Gate(prefixes: seq<string>, blocking: bool, commands: seq<Argv>)

  datatype Selected = Selected(id: string, blocking: bool, commands: seq<Argv>)

  predicate Matches(path: string, prefixes: seq<string>) {
    exists prefix <- prefixes :: StartsWith(path, prefix)
  }

  predicate AnyMatches(files: seq<string>, prefixes: seq<string>) {
    exists path <- files :: Matches(path, prefixes)
  }

  /** What validation leaves of the order and the gates. */
  predicate Ordered(order: seq<string>, gates: map<string, Gate>) {
    Distinct(order) && Elements(order) == gates.Keys
  }

  method SelectGates(order: seq<string>, gates: map<string, Gate>, files: seq<string>) returns (selected: seq<Selected>)
    requires Ordered(order, gates)
    ensures selected == Selection(order, gates, files)
  {
    selected := [];
    for i := 0 to |order|
      invariant selected == Selection(order[..i], gates, files)
    {
      assert order[..i + 1][..i] == order[..i] && order[i] in Elements(order);
      var gate := gates[order[i]];
      if AnyMatches(files, gate.prefixes) {
        selected := selected + [Selected(order[i], gate.blocking, gate.commands)];
      }
    }
    assert order[..|order|] == order;
  }

  function Selection(order: seq<string>, gates: map<string, Gate>, files: seq<string>): seq<Selected>
    requires Elements(order) <= gates.Keys
  {
    if order == [] then [] else
    var n := |order| - 1;
    assert order[n] in Elements(order) && Elements(order[..n]) <= Elements(order);
    var gate := gates[order[n]];
    Selection(order[..n], gates, files)
      + (if AnyMatches(files, gate.prefixes) then [Selected(order[n], gate.blocking, gate.commands)] else [])
  }

  function IdsOf(selected: seq<Selected>): seq<string> {
    seq(|selected|, i requires 0 <= i < |selected| => selected[i].id)
  }

  lemma {:induction false} SelectionMeets(order: seq<string>, gates: map<string, Gate>, files: seq<string>)
    requires Elements(order) <= gates.Keys && Distinct(order)
    ensures
      var ids := IdsOf(Selection(order, gates, files));
      && Distinct(ids)
      && (forall id :: id in ids <==> id in order && id in gates && AnyMatches(files, gates[id].prefixes))
    ensures forall s <- Selection(order, gates, files) ::
      s.id in gates && s == Selected(s.id, gates[s.id].blocking, gates[s.id].commands)
  {
    if order != [] {
      var n := |order| - 1;
      assert order == order[..n] + [order[n]] && order[n] in Elements(order);
      SelectionMeets(order[..n], gates, files);
      var before := Selection(order[..n], gates, files);
      var one := Selected(order[n], gates[order[n]].blocking, gates[order[n]].commands);
      assert IdsOf(before + [one]) == IdsOf(before) + [order[n]];
      DistinctOneMore(order[..n], order[n]);
      DistinctOneMore(IdsOf(before), order[n]);
      var matched := AnyMatches(files, gates[order[n]].prefixes);
      assert IdsOf(Selection(order, gates, files)) == if matched then IdsOf(before) + [order[n]] else IdsOf(before);
    }
  }

  lemma {:induction false} SelectionIsSubsequence(order: seq<string>, gates: map<string, Gate>, files: seq<string>)
    requires Elements(order) <= gates.Keys && Distinct(order)
    ensures Subsequence(IdsOf(Selection(order, gates, files)), order)
  {
    if order != [] {
      var n := |order| - 1;
      assert order[n] in Elements(order) && Elements(order[..n]) <= Elements(order);
      SelectionIsSubsequence(order[..n], gates, files);
      var before := IdsOf(Selection(order[..n], gates, files));
      var more := if AnyMatches(files, gates[order[n]].prefixes) then [order[n]] else [];
      assert IdsOf(Selection(order, gates, files)) == before + more && order == order[..n] + [order[n]];
      SubsequenceConcat(before, order[..n], more, [order[n]]);
    }
  }

  /** On a validated policy: a gate is selected exactly when it is named in the order and a file matches it,
      each at most once, in the order of the policy. */
  lemma SelectionIsOrderedFilter(order: seq<string>, gates: map<string, Gate>, files: seq<string>)
    requires Ordered(order, gates)
    ensures
      var ids := IdsOf(Selection(order, gates, files));
      && Subsequence(ids, order) && Distinct(ids)
      && (forall id :: id in ids <==> id in gates && AnyMatches(files, gates[id].prefixes))
  {
    SelectionMeets(order, gates, files);
    SelectionIsSubsequence(order, gates, files);
    assert forall id :: id in order <==> id in Elements(order);
  }

  /** Selecting distributes over the union of file sets; so more files never deselect a gate. */
  lemma SelectionDistributes(order: seq<string>, gates: map<string, Gate>, a: seq<string>, b: seq<string>)
    requires Ordered(order, gates)
    ensures Elements(IdsOf(Selection(order, gates, a + b)))
         == Elements(IdsOf(Selection(order, gates, a))) + Elements(IdsOf(Selection(order, gates, b)))
  {
    SelectionMeets(order, gates, a + b);
    SelectionMeets(order, gates, a);
    SelectionMeets(order, gates, b);
    forall id <- gates
      ensures AnyMatches(a + b, gates[id].prefixes) <==>
        AnyMatches(a, gates[id].prefixes) || AnyMatches(b, gates[id].prefixes)
    {
    }
  }

  // ---- validation of the gates ----

  predicate IsString(v: Value) { v.Text? && v.s != "" && '\0' !in v.s }

  function StringsIn(items: seq<Value>, allowEmptyItems: bool): Option<seq<string>> {
    if items == [] then Some([])
    else if !IsString(items[0]) && !(allowEmptyItems && items[0] == Text("")) then None
    else
      var rest := StringsIn(items[1..], allowEmptyItems);
      if rest.None? then None else Some([items[0].s] + rest.value)
  }

  function ValidStrings(v: Value, allowEmptyItems: bool): Option<seq<string>> {
    if !v.List? || v.items == [] then None else
    var strings := StringsIn(v.items, allowEmptyItems);
    if strings.Some? && Distinct(strings.value) then strings else None
  }

  const EXECUTABLES := {"@python", "ruff", "mypy", "uv"}

  function ValidArgv(v: Value): Option<Argv> {
    if !v.List? || v.items == [] then None else
    var argv := StringsIn(v.items, false);
    if argv.Some? && argv.value != [] && argv.value[0] in EXECUTABLES then argv else None
  }

  function ValidMatrix(items: seq<Value>): Option<seq<Argv>> {
    if items == [] then Some([]) else
    var first, rest := ValidArgv(items[0]), ValidMatrix(items[1..]);
    if first.None? || rest.None? then None else Some([first.value] + rest.value)
  }

  function ValidGate(v: Value): Option<Gate> {
    if !v.Mapping? || v.fields.Keys != {"match_any_prefix", "blocking", "commands"} then None else
    var prefixes := ValidStrings(Get(v, "match_any_prefix"), true);
    var blocking, commands := Get(v, "blocking"), Get(v, "commands");
    if prefixes.None? || !blocking.Bool? || !commands.List? || commands.items == [] || ValidMatrix(commands.items).None?
    then None
    else Some(Gate(prefixes.value, blocking.b, ValidMatrix(commands.items).value))
  }

  function ValidGates(order: seq<string>, gates: map<string, Value>): Option<map<string, Gate>> {
    if order == [] then Some(map[]) else
    var n := |order| - 1;
    var rest := ValidGates(order[..n], gates);
    if rest.None? || order[n] !in gates || ValidGate(gates[order[n]]).None? then None
    else Some(rest.value[order[n] := ValidGate(gates[order[n]]).value])
  }

  /** The gate order and the gates of a policy document, or None if validation fails it. */
  function ValidPolicy(order: Value, gates: Value): Option<(seq<string>, map<string, Gate>)> {
    var names := ValidStrings(order, false);
    if names.None? || !gates.Mapping? || Elements(names.value) != gates.fields.Keys then None else
    var valid := ValidGates(names.value, gates.fields);
    if valid.None? then None else Some((names.value, valid.value))
  }

  lemma {:induction false} ValidGatesMeet(order: seq<string>, gates: map<string, Value>)
    ensures
      var valid := ValidGates(order, gates);
      valid.Some? ==> valid.value.Keys == Elements(order)
    ensures
      var valid := ValidGates(order, gates);
      valid.Some? ==>
        forall id <- valid.value :: RunsOnlyAllowed(valid.value[id].commands) && valid.value[id].commands != []
  {
    if order != [] {
      var n := |order| - 1;
      assert order == order[..n] + [order[n]];
      ValidGatesMeet(order[..n], gates);
      if ValidGates(order, gates).Some? {
        var v := gates[order[n]];
        MatrixIsAllowed(Get(v, "commands").items);
      }
    }
  }

  predicate RunsOnlyAllowed(commands: seq<Argv>) {
    forall argv <- commands :: argv != [] && argv[0] in EXECUTABLES
  }

  lemma {:induction false} MatrixIsAllowed(items: seq<Value>)
    ensures ValidMatrix(items).Some? ==>
      RunsOnlyAllowed(ValidMatrix(items).value) && |ValidMatrix(items).value| == |items|
  {
    if items != [] {
      MatrixIsAllowed(items[1..]);
    }
  }

  /** A validated policy is what gate selection asks for, and every command it can select starts with an
      allowed executable. */
  lemma ValidPolicyIsOrdered(order: Value, gates: Value, files: seq<string>)
    requires ValidPolicy(order, gates).Some?
    ensures
      var (names, valid) := ValidPolicy(order, gates).value;
      && Ordered(names, valid)
      && forall s <- Selection(names, valid, files) :: s.commands != [] && RunsOnlyAllowed(s.commands)
  {
    var (names, valid) := ValidPolicy(order, gates).value;
    ValidGatesMeet(names, gates.fields);
    SelectionMeets(names, valid, files);
  }

  // ---- companions ----

  datatype Rule = Rule(id: string, prefixes: seq<string>, requireAny: seq<string>, requireAll: seq<string>)

  datatype Finding = Finding(rule: string, changed: seq<string>, requiredAny: seq<string>, missingAll: seq<string>)

  function Hits(files: seq<string>, prefixes: seq<string>): seq<string> {
    if files == [] then [] else (if Matches(files[0], prefixes) then [files[0]] else []) + Hits(files[1..], prefixes)
  }

  function Missing(paths: seq<string>, files: seq<string>): seq<string> {
    if paths == [] then [] else (if paths[0] in files then [] else [paths[0]]) + Missing(paths[1..], files)
  }

  predicate MissesAny(rule: Rule, files: seq<string>) { rule.requireAny != [] && !AnyMatches(files, rule.requireAny) }

  function FindingOf(rule: Rule, files: seq<string>): seq<Finding> {
    var hits, missing := Hits(files, rule.prefixes), Missing(rule.requireAll, files);
    if hits == [] || (!MissesAny(rule, files) && missing == []) then []
    else [Finding(rule.id, hits, if MissesAny(rule, files) then rule.requireAny else [], missing)]
  }

  function Findings(rules: seq<Rule>, files: seq<string>): seq<Finding> {
    if rules == [] then [] else Findings(rules[..|rules| - 1], files) + FindingOf(rules[|rules| - 1], files)
  }

  method CompanionFindings(rules: seq<Rule>, files: seq<string>) returns (findings: seq<Finding>)
    ensures findings == Findings(rules, files)
  {
    findings := [];
    for i := 0 to |rules|
      invariant findings == Findings(rules[..i], files)
    {
      assert rules[..i + 1][..i] == rules[..i];
      var hits := Hits(files, rules[i].prefixes);
      if hits == [] {
        continue;
      }
      var missingAny := rules[i].requireAny != [] && !AnyMatches(files, rules[i].requireAny);
      var missingAll := Missing(rules[i].requireAll, files);
      if missingAny || missingAll != [] {
        findings := findings + [Finding(rules[i].id, hits, if missingAny then rules[i].requireAny else [], missingAll)];
      }
    }
    assert rules[..|rules|] == rules;
  }

  /** The files satisfy a rule: they do not touch it, or bring what it asks for. */
  predicate Satisfies(files: seq<string>, rule: Rule) {
    || !AnyMatches(files, rule.prefixes)
    || ((rule.requireAny == [] || AnyMatches(files, rule.requireAny))
        && forall path <- rule.requireAll :: path in files)
  }

  lemma {:induction false} NoHits(files: seq<string>, prefixes: seq<string>)
    ensures Hits(files, prefixes) == [] <==> !AnyMatches(files, prefixes)
  {
    if files != [] {
      NoHits(files[1..], prefixes);
      assert files == [files[0]] + files[1..];
    }
  }

  lemma {:induction false} MissingMeets(paths: seq<string>, files: seq<string>)
    ensures forall path :: path in Missing(paths, files) <==> path in paths && path !in files
  {
    if paths != [] {
      MissingMeets(paths[1..], files);
      assert paths == [paths[0]] + paths[1..];
    }
  }

  lemma NoFinding(rule: Rule, files: seq<string>)
    ensures FindingOf(rule, files) == [] <==> Satisfies(files, rule)
  {
    NoHits(files, rule.prefixes);
    MissingMeets(rule.requireAll, files);
    var missing := Missing(rule.requireAll, files);
    assert missing != [] ==> missing[0] in missing;
    assert missing == [] ==> forall path :: path !in missing;
  }

  /** There are no findings exactly when the files satisfy every rule. */
  lemma {:induction false} NoFindingsIff(rules: seq<Rule>, files: seq<string>)
    ensures Findings(rules, files) == [] <==> forall rule <- rules :: Satisfies(files, rule)
  {
    if rules != [] {
      var n := |rules| - 1;
      NoFindingsIff(rules[..n], files);
      NoFinding(rules[n], files);
      assert rules == rules[..n] + [rules[n]];
    }
  }

  /** A finding says how to end it: the missing files, and one that matches what is asked for. */
  lemma FindingIsRepairable(rule: Rule, files: seq<string>, more: seq<string>)
    requires FindingOf(rule, files) != []
    requires
      var finding := FindingOf(rule, files)[0];
      && (forall path <- finding.missingAll :: path in more)
      && (finding.requiredAny != [] ==> AnyMatches(more, finding.requiredAny))
    ensures FindingOf(rule, files + more) == []
  {
    MissingMeets(rule.requireAll, files);
    var all := files + more;
    assert forall path :: path in files || path in more ==> path in all;
    NoFinding(rule, all);
    if rule.requireAny != [] {
      var from := if MissesAny(rule, files) then more else files;
      var path :| path in from && Matches(path, rule.requireAny);
      assert path in all;
    }
  }

  // ---- which fault, which source ----

  /** Which fault a path that is not canonical has. */
  lemma PathFaultIs(path: string)
    ensures
      var r := NormalizePath(path);
      && (r == Err(NotALine) <==> path == "" || '\0' in path || '\n' in path || '\r' in path)
      && (r == Err(Backslash) <==> r != Err(NotALine) && '\\' in path)
      && (r.Err? ==> r.fault in {NotALine, Backslash, NotCanonical})
  {
  }

  /** Of several paths the first that is not canonical gives the fault. */
  lemma {:induction false} FirstPathFaults(paths: seq<string>, i: nat)
    requires i < |paths| && !IsCanonical(paths[i]) && forall j :: 0 <= j < i ==> IsCanonical(paths[j])
    ensures NormalizePath(paths[i]).Err? && NormalizePaths(paths) == Err(NormalizePath(paths[i]).fault)
  {
    hide IsCanonical;
    AcceptedPathIff(paths[0]);
    AcceptedPathIff(paths[i]);
    if i > 0 {
      FirstPathFaults(paths[1..], i - 1);
    }
  }

  /** A resolution says where its files come from. */
  lemma SourceIs(explicit: seq<string>, compare: bool, git: Git)
    requires Resolved(explicit, compare, git).Ok?
    ensures
      var source := Resolved(explicit, compare, git).value.source;
      && (source == Explicit <==> explicit != [])
      && (source == WorkingTree <==> explicit == [] && !compare)
      && (source == Comparison <==> explicit == [] && compare && Compares(git) && WorkingSet(git) == {})
      && (source == ComparisonAndWorkingTree <==> explicit == [] && compare && Compares(git) && WorkingSet(git) != {})
      && (source == ComparisonUnavailable <==> explicit == [] && compare && !Compares(git))
  {
    ComparesIff(git);
    WorkingIsUnion(git);
    if explicit == [] {
      var working := WorkingTreeFiles(git).value;
      assert working != [] ==> working[0] in Elements(working);
    }
  }

  /** An answer of git's in use: the fault is that there is none, or that of its first bad path. */
  predicate AnswerFaults(answer: Option<seq<string>>, fault: Fault) {
    if answer.None? then fault == GitFailed else NormalizePaths(answer.value) == Err(fault)
  }

  /** A resolution fails for the named paths; else for the first of git's three answers about the working tree; else,
      where that is clean, for want of a comparison. */
  lemma ResolutionFaultIs(explicit: seq<string>, compare: bool, git: Git)
    ensures
      var r := Resolved(explicit, compare, git);
      && (explicit != [] ==> (r.Err? <==> NormalizePaths(explicit).Err?))
      && (explicit != [] && r.Err? ==> NormalizePaths(explicit) == Err(r.fault))
      && (explicit == [] && r.Err? ==>
            && (!AllCanonical(git.unstaged) ==> AnswerFaults(git.unstaged, r.fault))
            && (AllCanonical(git.unstaged) && !AllCanonical(git.staged) ==> AnswerFaults(git.staged, r.fault))
            && (AllCanonical(git.unstaged) && AllCanonical(git.staged) && !AllCanonical(git.untracked) ==>
                  AnswerFaults(git.untracked, r.fault))
            && (AllCanonical(git.unstaged) && AllCanonical(git.staged) && AllCanonical(git.untracked) ==>
                  ComparisonFaults(compare, git, r.fault)))
  {
    AnswerIff(git.unstaged);
    AnswerIff(git.staged);
    AnswerIff(git.untracked);
  }

  /** Why there is no comparison. */
  predicate ComparisonFaults(compare: bool, git: Git, fault: Fault) {
    if !compare then fault == NoContext
    else if !git.baseExists then fault == Unavailable
    else if git.mergeBases.None? then fault == GitFailed
    else if |git.mergeBases.value| != 1 then fault == ManyBases
    else AnswerFaults(git.diff(git.mergeBases.value[0]), fault)
  }

  // ---- what a finding says ----

  lemma {:induction false} HitsAppend(a: seq<string>, b: seq<string>, prefixes: seq<string>)
    ensures Hits(a + b, prefixes) == Hits(a, prefixes) + Hits(b, prefixes)
  {
    hide Matches;
    if a == [] {
      assert a + b == b;
    } else {
      assert (a + b)[1..] == a[1..] + b;
      HitsAppend(a[1..], b, prefixes);
    }
  }

  lemma {:induction false} MissingAppend(a: seq<string>, b: seq<string>, files: seq<string>)
    ensures Missing(a + b, files) == Missing(a, files) + Missing(b, files)
  {
    if a == [] {
      assert a + b == b;
    } else {
      assert (a + b)[1..] == a[1..] + b;
      MissingAppend(a[1..], b, files);
    }
  }

  /** A path is a hit, or missing, by itself; with the two lemmas above this makes hits and missing paths the filtered
      lists, in order. */
  lemma OnePath(path: string, prefixes: seq<string>, files: seq<string>)
    ensures Hits([path], prefixes) == if exists prefix <- prefixes :: prefix <= path then [path] else []
    ensures Missing([path], files) == if path in files then [] else [path]
  {
    assert [path][1..] == [];
  }

  /** The finding of a rule that is not satisfied: its id, the files that touch it, what it asks for if none of that is
      there, and the paths it asks for that are not there. */
  lemma FindingIs(rule: Rule, files: seq<string>)
    ensures FindingOf(rule, files) ==
      if Satisfies(files, rule) then [] else [Finding(rule.id, Hits(files, rule.prefixes),
        if AnyMatches(files, rule.requireAny) then [] else rule.requireAny, Missing(rule.requireAll, files))]
  {
    NoFinding(rule, files);
  }

  /** Findings come in the order of their rules. */
  lemma {:induction false} FindingsAppend(a: seq<Rule>, b: seq<Rule>, files: seq<string>)
    ensures Findings(a + b, files) == Findings(a, files) + Findings(b, files)
  {
    hide FindingOf;
    if b == [] {
      assert a + b == a;
    } else {
      var n := |b| - 1;
      assert (a + b)[..|a| + n] == a + b[..n] && (a + b)[|a| + n] == b[n];
      FindingsAppend(a, b[..n], files);
    }
  }

  lemma FindingsOfOne(rule: Rule, files: seq<string>)
    ensures Findings([rule], files) == FindingOf(rule, files)
  {
    hide FindingOf;
    assert [rule][..0] == [] && [] + FindingOf(rule, files) == FindingOf(rule, files);
  }

  // ---- exactly which policies are valid ----

  function TextsOf(strings: seq<string>): seq<Value> {
    if strings == [] then [] else [Text(strings[0])] + TextsOf(strings[1..])
  }

  lemma {:induction false} StringsInIff(items: seq<Value>, allowEmptyItems: bool, strings: seq<string>)
    ensures StringsIn(items, allowEmptyItems) == Some(strings) <==>
      items == TextsOf(strings) && forall s <- strings :: '\0' !in s && (allowEmptyItems || s != "")
  {
    if items == [] {
      assert strings != [] ==> TextsOf(strings) != [];
    } else if strings != [] {
      StringsInIff(items[1..], allowEmptyItems, strings[1..]);
      assert strings == [strings[0]] + strings[1..] && items == [items[0]] + items[1..];
      assert forall s :: s in strings <==> s == strings[0] || s in strings[1..];
      assert items == TextsOf(strings) <==> items[0] == Text(strings[0]) && items[1..] == TextsOf(strings[1..]);
      FirstString(items, allowEmptyItems, strings);
    }
  }

  lemma FirstString(items: seq<Value>, allowEmptyItems: bool, strings: seq<string>)
    requires items != [] && strings != []
    ensures StringsIn(items, allowEmptyItems) == Some(strings) <==>
      && items[0] == Text(strings[0]) && '\0' !in strings[0] && (allowEmptyItems || strings[0] != "")
      && StringsIn(items[1..], allowEmptyItems) == Some(strings[1..])
  {
    assert strings == [strings[0]] + strings[1..];
    assert forall rest: seq<string>, s :: [s] + rest == strings ==> s == strings[0] && rest == strings[1..];
  }

  /** A list of texts is valid if it has one, none twice, and none with a NUL or, where that is not allowed, empty. */
  lemma ValidStringsIff(v: Value, allowEmptyItems: bool, strings: seq<string>)
    ensures ValidStrings(v, allowEmptyItems) == Some(strings) <==>
      && v == List(TextsOf(strings)) && strings != [] && Distinct(strings)
      && forall s <- strings :: '\0' !in s && (allowEmptyItems || s != "")
  {
    if v.List? {
      StringsInIff(v.items, allowEmptyItems, strings);
    }
  }

  /** A command is such a list, repetitions allowed, that starts with an allowed executable. */
  lemma ValidArgvIff(v: Value, argv: Argv)
    ensures ValidArgv(v) == Some(argv) <==>
      && v == List(TextsOf(argv)) && argv != [] && argv[0] in {"@python", "ruff", "mypy", "uv"}
      && forall s <- argv :: '\0' !in s && s != ""
  {
    if v.List? {
      StringsInIff(v.items, false, argv);
    }
  }

  lemma {:induction false} ValidMatrixIff(items: seq<Value>, commands: seq<Argv>)
    ensures ValidMatrix(items) == Some(commands) <==>
      |items| == |commands| && forall i :: 0 <= i < |items| ==> ValidArgv(items[i]) == Some(commands[i])
  {
    hide ValidArgv;
    if items != [] && commands != [] {
      ValidMatrixIff(items[1..], commands[1..]);
      assert commands == [commands[0]] + commands[1..];
      assert forall i :: 0 < i < |items| ==> items[i] == items[1..][i - 1];
      assert forall i :: 0 < i < |commands| ==> commands[i] == commands[1..][i - 1];
    }
  }

  /** A gate has exactly three fields: valid prefixes, which may be empty, a truth value, and at least one command. */
  lemma ValidGateIff(v: Value, gate: Gate)
    ensures ValidGate(v) == Some(gate) <==>
      && v.Mapping? && v.fields.Keys == {"match_any_prefix", "blocking", "commands"}
      && ValidStrings(v.fields["match_any_prefix"], true) == Some(gate.prefixes)
      && v.fields["blocking"] == Bool(gate.blocking)
      && v.fields["commands"].List? && gate.commands != []
      && ValidMatrix(v.fields["commands"].items) == Some(gate.commands)
  {
    hide ValidStrings, ValidMatrix;
    if v.Mapping? && v.fields.Keys == {"match_any_prefix", "blocking", "commands"} {
      assert "match_any_prefix" in v.fields && "blocking" in v.fields && "commands" in v.fields;
      if v.fields["commands"].List? {
        ValidMatrixIff(v.fields["commands"].items, gate.commands);
      }
    }
  }

  lemma {:induction false} ValidGatesIff(order: seq<string>, gates: map<string, Value>, valid: map<string, Gate>)
    requires Distinct(order)
    ensures ValidGates(order, gates) == Some(valid) <==>
      valid.Keys == Elements(order) && forall id <- order :: id in gates && ValidGate(gates[id]) == Some(valid[id])
  {
    hide ValidGate;
    if order != [] {
      var n := |order| - 1;
      var last := order[n];
      assert order == order[..n] + [last];
      DistinctOneMore(order[..n], last);
      ValidGatesIff(order[..n], gates, valid - {last});
      if ValidGates(order, gates) == Some(valid) {
        var rest := ValidGates(order[..n], gates).value;
        ValidGatesMeet(order[..n], gates);
        assert rest == valid - {last};
      } else if last in valid {
        assert (valid - {last})[last := valid[last]] == valid;
      }
    }
  }

  /** A policy is valid exactly if its order is a list of distinct names, of the gates and no others, and every gate
      is valid; selection works on just these. */
  lemma ValidPolicyIff(order: Value, gates: Value, names: seq<string>, valid: map<string, Gate>)
    ensures ValidPolicy(order, gates) == Some((names, valid)) <==>
      && ValidStrings(order, false) == Some(names)
      && gates.Mapping? && gates.fields.Keys == Elements(names) && valid.Keys == Elements(names)
      && forall id <- names :: id in gates.fields && ValidGate(gates.fields[id]) == Some(valid[id])
  {
    hide ValidGate, ValidStrings;
    ValidStringsIff(order, false, names);
    if gates.Mapping? && ValidStrings(order, false) == Some(names) {
      ValidGatesIff(names, gates.fields, valid);
    }
  }
}
