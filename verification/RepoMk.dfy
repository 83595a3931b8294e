/** Structural validation of a repository's `Repo.mk`. */
module RepoMk {
  import opened Strings
  import opened MakeLines
  import opened MakeProjection
  import opened MakeVariables
  import opened MakeSyntax

  const REQUIRED_LEAVES := ["repo-setup", "repo-validate", "repo-check", "repo-test"]
  const FACADE_TARGETS := {"help", "setup", "validate", "check", "test"}

  // ---- declared and phony targets ----

  predicate IsSpecial(name: string) { StartsWith(name, ".") }

  function Ordinary(names: seq<string>): seq<string> {
    if names == [] then [] else (if IsSpecial(names[0]) then [] else [names[0]]) + Ordinary(names[1..])
  }

  /** The targets one logical line declares. */
  function TargetsOf(logical: string): seq<string> {
    var rule := ParseRule(logical);
    if rule.None? then [] else Ordinary(rule.value.names)
  }

  function PhonyOf(logical: string): seq<string> {
    var names := ParsePhony(RStrip(CutAt(logical, '#')));
    if names.None? then [] else names.value
  }

  /** Every name `of` finds on some line. */
  function NamesOn(lines: seq<string>, of: string -> seq<string>): set<string> {
    if lines == [] then {} else (set n | n in of(lines[0])) + NamesOn(lines[1..], of)
  }

  function DeclaredIn(lines: seq<string>): set<string> { NamesOn(Texts(Joined(lines)), TargetsOf) }
  function PhonyIn(lines: seq<string>): set<string> { NamesOn(Texts(Joined(lines)), PhonyOf) }

  function Numbered(start: nat, names: seq<string>): (r: seq<(nat, string)>)
    ensures |r| == |names|
  {
    seq(|names|, i requires 0 <= i < |names| => (start, names[i]))
  }

  function Declarations(lines: seq<Logical>): seq<(nat, string)> {
    if lines == [] then [] else Numbered(lines[0].start, TargetsOf(lines[0].text)) + Declarations(lines[1..])
  }

  method MakeTargetDeclarations(text: string) returns (declarations: seq<(nat, string)>)
    ensures declarations == Declarations(Joined(Splitlines(text)))
  {
    declarations := [];
    var lines := LogicalLines(text);
    assert lines[0..] == lines;
    for i := 0 to |lines|
      invariant Declarations(lines) == declarations + Declarations(lines[i..])
    {
      assert lines[i..][1..] == lines[i + 1..];
      var here := Numbered(lines[i].start, TargetsOf(lines[i].text));
      Assoc(declarations, here, Declarations(lines[i + 1..]));
      declarations := declarations + here;
    }
    assert declarations + [] == declarations;
  }

  method MakePhonyTargets(text: string) returns (phony: set<string>)
    ensures phony == PhonyIn(Splitlines(text))
  {
    phony := {};
    var lines := LogicalLines(text);
    var texts := Texts(lines);
    assert texts[0..] == texts;
    for i := 0 to |texts|
      invariant NamesOn(texts, PhonyOf) == phony + NamesOn(texts[i..], PhonyOf)
    {
      assert texts[i..][1..] == texts[i + 1..];
      phony := phony + set n | n in PhonyOf(texts[i]);
    }
  }

  lemma {:induction false} NamesOnAppend(a: seq<string>, b: seq<string>, of: string -> seq<string>)
    ensures NamesOn(a + b, of) == NamesOn(a, of) + NamesOn(b, of)
  {
    if a == [] {
      assert a + b == b;
    } else {
      assert (a + b)[1..] == a[1..] + b;
      NamesOnAppend(a[1..], b, of);
    }
  }

  lemma {:induction false} NamesOnAt(lines: seq<string>, of: string -> seq<string>, i: nat)
    requires i < |lines|
    ensures (set n | n in of(lines[i])) <= NamesOn(lines, of)
  {
    if i > 0 {
      NamesOnAt(lines[1..], of, i - 1);
    }
  }

  /** The numbered declarations name exactly the declared targets. */
  lemma {:induction false} DeclarationsName(lines: seq<Logical>)
    ensures (set d | d in Declarations(lines) :: d.1) == NamesOn(Texts(lines), TargetsOf)
  {
    if lines != [] {
      DeclarationsName(lines[1..]);
      var here, there := Numbered(lines[0].start, TargetsOf(lines[0].text)), Declarations(lines[1..]);
      var names := TargetsOf(lines[0].text);
      assert forall n :: n in names ==> exists i :: 0 <= i < |names| && names[i] == n && here[i].1 == n;
      assert (set d | d in here :: d.1) == set n | n in names;
      assert (set d | d in here + there :: d.1) == (set d | d in here :: d.1) + (set d | d in there :: d.1);
    }
  }

  // ---- implemented leaves ----

  /** A recipe line behind a rule: blank and comment lines may stand between them. */
  predicate ScanRecipe(rest: seq<string>, prefix: char) {
    rest != [] &&
    if rest[0] != "" && rest[0][0] == prefix then NonBlank(rest[0][1..]) || ScanRecipe(rest[1..], prefix)
    else if NonBlank(rest[0]) && !StartsWith(LStrip(rest[0]), "#") then false
    else ScanRecipe(rest[1..], prefix)
  }

  predicate HasRecipe(rule: Rule, rest: seq<string>, prefix: char) {
    NonBlank(InlineRecipe(rule)) || ScanRecipe(rest, prefix)
  }

  function LeavesOf(names: seq<string>): set<string> {
    set n | n in Ordinary(names) && n in REQUIRED_LEAVES
  }

  /** The leaves a line implements, before the physical lines `rest`. */
  function Credited(line: Line, s: Scope, rest: seq<string>): set<string> {
    if line.Target? && (CreditsPrerequisites(line.rule, s.vars) || HasRecipe(line.rule, rest, s.prefix))
    then LeavesOf(line.rule.names) else {}
  }

  function Leaves(lines: seq<string>, s: Scope): set<string>
    decreases |lines|
  {
    if lines == [] then {} else
    var (logical, used) := Extend(lines[0], lines[1..]);
    var rest, line := lines[1 + used..], LineOf(logical, s.prefix);
    Credited(line, s, rest) + Leaves(rest, Advance(line, s))
  }

  function ImplementedIn(lines: seq<string>): set<string> { Leaves(lines, START) }

  method JoinContinued(physical: seq<string>, at: nat) returns (logical: string, index: nat)
    requires at < |physical|
    ensures at < index <= |physical|
    ensures Extend(physical[at], physical[at + 1..]) == (logical, index - at - 1)
  {
    logical, index := physical[at], at;
    while Continued(logical) && index + 1 < |physical|
      invariant at <= index < |physical|
      invariant
        var (text, used) := Extend(logical, physical[index + 1..]);
        Extend(physical[at], physical[at + 1..]) == (text, used + index - at)
    {
      assert physical[index + 1..][1..] == physical[index + 2..];
      index := index + 1;
      logical := Unslash(logical) + physical[index];
    }
    index := index + 1;
  }

  method FindRecipe(physical: seq<string>, index: nat, prefix: char, inline: bool) returns (found: bool)
    requires index <= |physical|
    ensures found == (inline || ScanRecipe(physical[index..], prefix))
  {
    found := inline;
    var scan := index;
    while scan < |physical| && !found
      invariant index <= scan <= |physical|
      invariant (inline || ScanRecipe(physical[index..], prefix)) == (found || ScanRecipe(physical[scan..], prefix))
    {
      var line := physical[scan];
      assert physical[scan..][1..] == physical[scan + 1..];
      if line != "" && line[0] == prefix {
        found := NonBlank(line[1..]);
      } else if NonBlank(line) && !StartsWith(LStrip(line), "#") {
        break;
      }
      scan := scan + 1;
    }
  }

  /** One line's effect on the recipe prefix and on the variables, changed in place. */
  method Apply(line: Line, table: VariableTable, prefix: char) returns (p: char)
    requires table.Valid()
    modifies table, table.variables.Values
    ensures table.Valid() && fresh(table.variables.Values - old(table.variables.Values))
    ensures Scope(p, table.View()) == Advance(line, old(Scope(prefix, table.View())))
  {
    p := prefix;
    match line
    case PrefixChange(_, value) =>
      p := PrefixFrom(value);
    case Variable(a) =>
      table.RecordAssignment(a.name, a.op, a.value);
    case Undefine(name) =>
      table.Undefine(name);
    case _ =>
  }

  /** The leaves a line implements, with the physical lines behind it starting at `index`. */
  method Implements(line: Line, table: VariableTable, prefix: char, physical: seq<string>, index: nat)
    returns (leaves: set<string>)
    requires table.Valid() && index <= |physical|
    ensures leaves == Credited(line, Scope(prefix, table.View()), physical[index..])
  {
    if !line.Target? {
      return {};
    }
    leaves := LeavesOf(line.rule.names);
    if leaves != {} {
      var proven := table.ProvenTokens(SpaceBars(Prerequisites(line.rule)), {});
      var hasPrerequisite := '=' !in Prerequisites(line.rule) && proven != [];
      var hasRecipe := FindRecipe(physical, index, prefix, NonBlank(InlineRecipe(line.rule)));
      if !hasPrerequisite && !hasRecipe {
        leaves := {};
      }
    }
  }

  method LeavesOfLines(physical: seq<string>) returns (implemented: set<string>)
    ensures implemented == ImplementedIn(physical)
  {
    hide LineOf, Credited, Advance, Extend;
    implemented := {};
    var table := new VariableTable();
    var prefix, index := '\t', 0;
    assert physical[0..] == physical;
    while index < |physical|
      invariant 0 <= index <= |physical| && table.Valid() && fresh(table) && fresh(table.variables.Values)
      invariant ImplementedIn(physical) == implemented + Leaves(physical[index..], Scope(prefix, table.View()))
      decreases |physical| - index
    {
      ghost var scope := Scope(prefix, table.View());
      var logical, next := JoinContinued(physical, index);
      LeavesStep(physical, index, scope, logical, next);
      var line := LineOf(logical, prefix);
      var leaves := Implements(line, table, prefix, physical, next);
      implemented := implemented + leaves;
      prefix := Apply(line, table, prefix);
      index := next;
    }
  }

  method ImplementedLeaves(text: string) returns (implemented: set<string>)
    ensures implemented == ImplementedIn(Splitlines(text))
  {
    implemented := LeavesOfLines(Splitlines(text));
  }

  lemma LeavesStep(physical: seq<string>, index: nat, s: Scope, logical: string, next: nat)
    requires index < |physical| && index < next <= |physical|
    requires Extend(physical[index], physical[index + 1..]) == (logical, next - index - 1)
    ensures
      var line := LineOf(logical, s.prefix);
      Leaves(physical[index..], s) == Credited(line, s, physical[next..]) + Leaves(physical[next..], Advance(line, s))
  {
    hide LineOf, Credited, Advance, Extend;
    assert physical[index..][1..] == physical[index + 1..];
    assert physical[index..][next - index..] == physical[next..];
  }

  // ---- the verdict ----

  datatype Verdict =
    | Accepted
    | Missing(leaf: string)
    | NotPhony(leaf: string)
    | Idle(leaf: string)
    | Redefines(line: nat, target: string)

  function CheckLeaves(leaves: seq<string>, declared: set<string>, phony: set<string>, implemented: set<string>)
    : Verdict
  {
    if leaves == [] then Accepted
    else if leaves[0] !in declared then Missing(leaves[0])
    else if leaves[0] !in phony then NotPhony(leaves[0])
    else if leaves[0] !in implemented then Idle(leaves[0])
    else CheckLeaves(leaves[1..], declared, phony, implemented)
  }

  function CheckFacade(declarations: seq<(nat, string)>): Verdict {
    if declarations == [] then Accepted
    else if declarations[0].1 in FACADE_TARGETS then Redefines(declarations[0].0, declarations[0].1)
    else CheckFacade(declarations[1..])
  }

  /** The verdict on a file with these lines and this projection. */
  function Judge(lines: seq<string>, unconditional: seq<string>): Verdict {
    var leaves := CheckLeaves(REQUIRED_LEAVES,
      DeclaredIn(unconditional), PhonyIn(unconditional), ImplementedIn(unconditional));
    if !leaves.Accepted? then leaves else CheckFacade(Declarations(Joined(lines)))
  }

  function Validate(text: string): Verdict {
    Judge(Splitlines(text), Splitlines(Unconditional(text)))
  }

  method RequireLeaves(declared: set<string>, phony: set<string>, implemented: set<string>) returns (v: Verdict)
    ensures v == CheckLeaves(REQUIRED_LEAVES, declared, phony, implemented)
  {
    var leaves := REQUIRED_LEAVES;
    assert leaves[0..] == leaves;
    for i := 0 to |leaves|
      invariant CheckLeaves(REQUIRED_LEAVES, declared, phony, implemented)
             == CheckLeaves(leaves[i..], declared, phony, implemented)
    {
      var leaf := leaves[i];
      assert leaves[i..][1..] == leaves[i + 1..];
      if leaf !in declared {
        return Missing(leaf);
      }
      if leaf !in phony {
        return NotPhony(leaf);
      }
      if leaf !in implemented {
        return Idle(leaf);
      }
    }
    return Accepted;
  }

  method RefuseFacade(declarations: seq<(nat, string)>) returns (v: Verdict)
    ensures v == CheckFacade(declarations)
  {
    assert declarations[0..] == declarations;
    for i := 0 to |declarations|
      invariant CheckFacade(declarations) == CheckFacade(declarations[i..])
    {
      assert declarations[i..][1..] == declarations[i + 1..];
      if declarations[i].1 in FACADE_TARGETS {
        return Redefines(declarations[i].0, declarations[i].1);
      }
    }
    return Accepted;
  }

  method ValidateRepoMkText(text: string) returns (v: Verdict)
    ensures v == Validate(text)
  {
    var declarations := MakeTargetDeclarations(text);
    var unconditional := UnconditionalText(text);
    var top := MakeTargetDeclarations(unconditional);
    DeclarationsName(Joined(Splitlines(unconditional)));
    var phony := MakePhonyTargets(unconditional);
    var implemented := ImplementedLeaves(unconditional);
    v := RequireLeaves(set d | d in top :: d.1, phony, implemented);
    if v.Accepted? {
      v := RefuseFacade(declarations);
    }
  }
}
