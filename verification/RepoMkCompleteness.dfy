/** What the leaf scan must credit, in whole files. */
module RepoMkCompleteness {
  import opened Strings
  import opened MakeLines
  import opened MakeWords
  import opened MakeVariables
  import opened MakeGrammar
  import opened MakeSoundness
  import opened MakeSyntax
  import opened MakeCompleteness
  import opened MakeReading
  import opened RepoMk
  import opened RepoMkAdmission
  import opened RepoMkRules
  import RepoMkWork

  // ---- going on behind a finished part ----

  lemma {:induction false} LeavesBehind(a: seq<string>, b: seq<string>, s: Scope)
    requires !EndsContinued(a)
    ensures Leaves(b, ScopeAfter(Visited(a), s)) <= Leaves(a + b, s)
    decreases |a|
  {
    hide LineOf, Credited, Advance, Extend, Leaves;
    if a == [] {
      assert a + b == b;
    } else {
      var all := a + b;
      assert all[1..] == a[1..] + b && all[0] == a[0] && [a[0]] + a[1..] == a;
      ExtendWithin(a[0], a[1..], b);
      var (logical, used) := Extend(a[0], a[1..]);
      var rest, line := a[1 + used..], LineOf(logical, s.prefix);
      assert all[1 + used..] == rest + b;
      assert EndsContinued(rest) ==> EndsContinued(a);
      LeavesBehind(rest, b, Advance(line, s));
      LeavesCons(all, s, logical, used);
      assert Visited(a) == [logical] + Visited(rest);
      assert ([logical] + Visited(rest))[1..] == Visited(rest);
    }
  }

  /** None of these lines assigns the variable or undefines it. */
  ghost predicate LeaveAlone(logicals: seq<string>, s: Scope, name: string) {
    logicals == [] ||
    var line := LineOf(logicals[0], s.prefix);
    && (line.Variable? ==> line.assignment.name != name)
    && (line.Undefine? ==> line.name != name)
    && LeaveAlone(logicals[1..], Advance(line, s), name)
  }

  lemma {:induction false} LeftAlone(logicals: seq<string>, s: Scope, name: string)
    requires LeaveAlone(logicals, s, name)
    ensures
      var t := ScopeAfter(logicals, s);
      (name in t.vars <==> name in s.vars) && (name in s.vars ==> t.vars[name] == s.vars[name])
  {
    hide LineOf, Recorded;
    if logicals != [] {
      var line := LineOf(logicals[0], s.prefix);
      OneLeavesAlone(line, s, name);
      LeftAlone(logicals[1..], Advance(line, s), name);
    }
  }

  lemma OneLeavesAlone(line: Line, s: Scope, name: string)
    requires (line.Variable? ==> line.assignment.name != name) && (line.Undefine? ==> line.name != name)
    ensures
      var t := Advance(line, s);
      (name in t.vars <==> name in s.vars) && (name in s.vars ==> t.vars[name] == s.vars[name])
  {
    if line.Variable? {
      var a := line.assignment;
      OthersStay(s.vars, a.name, a.op, a.value);
      var after := Recorded(s.vars, a.name, a.op, a.value);
      assert name in after <==> name in after - {a.name};
      assert name in s.vars <==> name in s.vars - {a.name};
      assert name in after ==> after[name] == (after - {a.name})[name];
    }
  }

  // ---- the rule line ----

  lemma OtherPrefix(logical: string, prefix: char)
    requires logical != "" && logical[0] != prefix && logical[0] != '\t'
    ensures LineOf(logical, prefix) == LineOf(logical, '\t')
  {
    hide ParseAssignment, ParseUndefine, ParseRule, ParseRecipePrefix;
  }

  lemma BlankInFront(text: string, vars: Variables, resolving: set<string>)
    ensures Proven(" " + text, vars, resolving) == Proven(text, vars, resolving)
  {
    hide ProvenWords;
    var s := " " + text;
    assert s[1..] == text && IsSpace(s[0]) && Close("") == [];
    assert SplitFrom(s, 0, "") == Close("") + SplitFrom(s[1..], 0, "");
    assert SplitWords(s) == SplitWords(text);
  }

  lemma WrittenIsPlain(name: string, form: Form)
    requires CanBeWritten(name, form)
    ensures
      var after := " " + Written(name, form);
      && CutAt(CutAt(after, ';'), '#') == after && SpaceBars(after) == after && '=' !in after
      && !Continued(after)
  {
    hide CutAt, Written, SpaceBars;
    var after := " " + Written(name, form);
    WrittenHasNoMark(name, form);
    assert forall c <- after :: c == ' ' || c in Written(name, form);
    Whole(after, ';');
    Whole(after, '#');
    NoBars(after);
    assert after[|after| - 1] in after;
  }

  lemma WrittenHasNoMark(name: string, form: Form)
    requires CanBeWritten(name, form)
    ensures forall c <- Written(name, form) :: c !in {';', '#', '|', '=', '\\'}
  {
    forall c <- name
      ensures c !in {';', '#', '|', '=', '\\'}
    {
      assert form.Bare? ==> c == name[0];
      assert !form.Bare? ==> IsNameChar(c);
    }
  }

  /** A leaf whose only prerequisite is a reference is credited wherever that reference proves something. */
  lemma ReferenceIsCredited(leaf: string, name: string, form: Form, s: Scope, rest: seq<string>)
    requires leaf in {"repo-setup", "repo-validate", "repo-check", "repo-test"} && CanBeWritten(name, form)
    requires s.prefix != 'r' && Proven(Written(name, form), s.vars, {}) != []
    ensures leaf in Credited(LineOf(RuleText(leaf, " " + Written(name, form)), s.prefix), s, rest)
  {
    hide Proven, LineOf, CutAt, Written, SpaceBars, HasRecipe;
    var after := " " + Written(name, form);
    LeafIsName(leaf);
    assert after[0] == ' ';
    LineReads(leaf, after);
    OtherPrefix(RuleText(leaf, after), s.prefix);
    WrittenIsPlain(name, form);
    BlankInFront(Written(name, form), s.vars, {});
    PrerequisitesCredit(leaf, Rule([leaf], after), s, rest);
  }

  lemma PrerequisitesCredit(leaf: string, rule: Rule, s: Scope, rest: seq<string>)
    requires rule.names == [leaf] && leaf in REQUIRED_LEAVES && !IsSpecial(leaf) && CreditsPrerequisites(rule, s.vars)
    ensures leaf in Credited(Target(rule), s, rest)
  {
    hide CreditsPrerequisites, HasRecipe;
    assert Ordinary([leaf][1..]) == [];
    assert Ordinary([leaf]) == [leaf];
  }

  lemma LeafIsName(leaf: string)
    requires leaf in {"repo-setup", "repo-validate", "repo-check", "repo-test"}
    ensures IsName(leaf) && !IsSpecial(leaf) && leaf in REQUIRED_LEAVES && leaf[0] == 'r'
  {
    NameIff(leaf);
    assert forall c <- leaf :: 'a' <= c <= 'z' || c == '-';
  }

  lemma RuleIsScanned(leaf: string, name: string, form: Form, s: Scope, rest: seq<string>)
    requires leaf in {"repo-setup", "repo-validate", "repo-check", "repo-test"} && CanBeWritten(name, form)
    requires s.prefix != 'r' && Proven(Written(name, form), s.vars, {}) != []
    ensures leaf in Leaves([RuleText(leaf, " " + Written(name, form))] + rest, s)
  {
    hide Proven, LineOf, Credited, Advance, Leaves;
    var line := RuleText(leaf, " " + Written(name, form));
    RuleEnds(leaf, name, form);
    FirstIsScanned(line, s, rest);
    ReferenceIsCredited(leaf, name, form, s, rest);
  }

  lemma RuleEnds(leaf: string, name: string, form: Form)
    requires CanBeWritten(name, form)
    ensures !Continued(RuleText(leaf, " " + Written(name, form)))
  {
    hide Written;
    WrittenIsPlain(name, form);
    var line, after := RuleText(leaf, " " + Written(name, form)), " " + Written(name, form);
    assert line[|line| - 1] == after[|after| - 1];
  }

  lemma FirstIsScanned(line: string, s: Scope, rest: seq<string>)
    requires !Continued(line)
    ensures Credited(LineOf(line, s.prefix), s, rest) <= Leaves([line] + rest, s)
  {
    hide LineOf, Credited, Advance;
    var lines := [line] + rest;
    assert lines[1..] == rest && lines[1 + 0..] == rest && Extend(line, rest) == (line, 0);
    LeavesCons(lines, s, line, 0);
  }

  // ---- whole files ----

  /** Text with something visible outside all references. */
  ghost predicate IsVisible(value: string) {
    exists t :: WellFormed(t, false) && HasSolidLiteral(t, false) && Print(t) == value
  }

  lemma VisibleIsProven(value: string, vars: Variables, resolving: set<string>)
    requires IsVisible(value)
    ensures Proven(value, vars, resolving) != []
  {
    var t :| WellFormed(t, false) && HasSolidLiteral(t, false) && Print(t) == value;
    assert Print(MakeGrammar.End) == "";
    LiteralIsProven(t, MakeGrammar.End, vars, resolving);
  }

  lemma AssignedIsProven(vars: Variables, name: string, op: Operator, value: string, form: Form)
    requires CanBeWritten(name, form) && IsVisible(value) && (op == Recursive || op == Simple || op == Posix)
    ensures
      var after := Recorded(vars, name, op, value);
      && name in after
      && forall later: Variables :: name in later && later[name] == after[name] ==>
           Proven(Written(name, form), later, {}) != []
  {
    hide Proven;
    var after := Recorded(vars, name, op, value);
    forall later: Variables | name in later && later[name] == after[name]
      ensures Proven(Written(name, form), later, {}) != []
    {
      ReferenceProves(name, form, later, {});
      VisibleIsProven(value, vars, {});
      VisibleIsProven(value, later, {} + {name});
    }
  }

  /** The scan behind a line that assigns visible text. */
  lemma AssignmentIsScanned(front: seq<string>, s: Scope, name: string, gap: string, op: Operator, text: string,
      space: string, value: string)
    requires IsAssignment(name, gap, op, text, space, value) && '#' !in value
    requires !Continued(AssignmentOf(name, gap, text, space, value)) && s.prefix != name[0]
    ensures
      var line := AssignmentOf(name, gap, text, space, value);
      && !EndsContinued([line])
      && ScopeAfter(Visited([line]), s) == s.(vars := Recorded(s.vars, name, op, value))
  {
    hide ParseAssignment, Recorded;
    var line := AssignmentOf(name, gap, text, space, value);
    AssignmentParses(name, gap, op, text, space, value);
    assert line[0] == name[0];
    LineIsAssignment(line, Assignment(name, op, value), s.prefix);
    Whole(value, '#');
    assert Extend(line, [line][1..]) == (line, 0) && [line][1 + 0..] == [];
    assert Visited([line]) == [line];
    assert [line][1..] == [];
  }

  /** In every file: behind a line that assigns visible text to a variable, by `=`, `:=`, `::=` or `:::=`, and lines
      that leave the variable alone, a leaf whose only prerequisite is a reference to it, written in any of the three
      ways, is implemented. */
  lemma AssignedReferenceIsCredited(front: seq<string>, between: seq<string>, behind: seq<string>, leaf: string,
      name: string, form: Form, gap: string, op: Operator, text: string, space: string, value: string)
    requires leaf in {"repo-setup", "repo-validate", "repo-check", "repo-test"} && CanBeWritten(name, form)
    requires IsAssignment(name, gap, op, text, space, value) && (op == Recursive || op == Simple || op == Posix)
    requires IsVisible(value) && '#' !in value && !Continued(AssignmentOf(name, gap, text, space, value))
    requires !EndsContinued(front) && ScopeAfter(Visited(front), START).prefix != name[0]
    requires !EndsContinued(between)
    requires
      var s := ScopeAfter(Visited(front), START);
      var t := s.(vars := Recorded(s.vars, name, op, value));
      LeaveAlone(Visited(between), t, name) && ScopeAfter(Visited(between), t).prefix != 'r'
    ensures leaf in ImplementedIn(
      front + ([AssignmentOf(name, gap, text, space, value)]
        + (between + ([RuleText(leaf, " " + Written(name, form))] + behind))))
  {
    hide Proven, Recorded, Leaves, Visited, ScopeAfter, LeaveAlone;
    var line, rule := AssignmentOf(name, gap, text, space, value), RuleText(leaf, " " + Written(name, form));
    var s := ScopeAfter(Visited(front), START);
    var t := s.(vars := Recorded(s.vars, name, op, value));
    var u := ScopeAfter(Visited(between), t);
    AssignmentIsScanned(front, s, name, gap, op, text, space, value);
    LeftAlone(Visited(between), t, name);
    AssignedIsProven(s.vars, name, op, value, form);
    RuleIsScanned(leaf, name, form, u, behind);
    LeavesBehind(between, [rule] + behind, t);
    LeavesBehind([line], between + ([rule] + behind), s);
    LeavesBehind(front, [line] + (between + ([rule] + behind)), START);
  }

  // ---- exactly what is credited ----

  /** The scan passes over lines that are blank, blank behind the prefix, or comments not behind it. */
  predicate IsPassed(line: string, prefix: char) {
    if line != "" && line[0] == prefix then !NonBlank(line[1..])
    else !NonBlank(line) || (LStrip(line) != "" && LStrip(line)[0] == '#')
  }

  /** Line `m` begins with the prefix and has text, and the lines in front of it are passed over. */
  predicate IsRecipeAt(rest: seq<string>, m: nat, prefix: char) {
    && m < |rest| && rest[m] != "" && rest[m][0] == prefix && NonBlank(rest[m][1..])
    && forall j :: 0 <= j < m ==> IsPassed(rest[j], prefix)
  }

  lemma {:induction false} ScanRecipeIff(rest: seq<string>, prefix: char)
    ensures ScanRecipe(rest, prefix) <==> exists m: nat :: IsRecipeAt(rest, m, prefix)
  {
    if rest != [] {
      ScanRecipeIff(rest[1..], prefix);
      CommentBegins(rest[0]);
      if IsPassed(rest[0], prefix) && ScanRecipe(rest[1..], prefix) {
        var m: nat :| IsRecipeAt(rest[1..], m, prefix);
        assert forall j :: 0 < j < m + 1 ==> rest[j] == rest[1..][j - 1];
        assert IsRecipeAt(rest, m + 1, prefix);
      } else if ScanRecipe(rest, prefix) {
        assert IsRecipeAt(rest, 0, prefix);
      } else if m: nat :| IsRecipeAt(rest, m, prefix) {
        assert m > 0 ==> IsPassed(rest[0], prefix) && IsRecipeAt(rest[1..], m - 1, prefix);
      }
    }
  }

  lemma CommentBegins(line: string)
    ensures StartsWith(LStrip(line), "#") <==> LStrip(line) != "" && LStrip(line)[0] == '#'
  {
  }

  /** The prerequisites, up to a `;` or `#`, hold no `=` and prove something with every `|` as a blank. */
  ghost predicate PrerequisitesProve(after: string, vars: Variables) {
    exists p, more :: IsUpToMark(after, p, more) && '=' !in p && Proven(SpaceBars(p), vars, {}) != []
  }

  /** There is text behind the first `;`. */
  ghost predicate InlineHasText(after: string) {
    exists p, recipe :: after == p + ";" + recipe && ';' !in p && NonBlank(recipe)
  }

  /** A line credits exactly the required leaves among its targets, and that if it is a rule whose prerequisites prove
      something, or that has text behind its first `;`, or a recipe line behind it. */
  lemma CreditedIff(line: Line, s: Scope, rest: seq<string>, leaf: string)
    ensures leaf in Credited(line, s, rest) <==>
      && line.Target? && leaf in line.rule.names && leaf in {"repo-setup", "repo-validate", "repo-check", "repo-test"}
      && (|| PrerequisitesProve(line.rule.after, s.vars) || InlineHasText(line.rule.after)
          || exists m: nat :: IsRecipeAt(rest, m, s.prefix))
  {
    hide Proven, IsRecipeAt, SpaceBars, NonBlank, PrerequisitesProve, InlineHasText, CreditsPrerequisites, InlineRecipe;
    if line.Target? {
      OrdinaryIff(line.rule.names, leaf);
      ScanRecipeIff(rest, s.prefix);
      PrerequisitesIff(line.rule, s.vars);
      InlineIff(line.rule);
    }
  }

  lemma PrerequisitesIff(rule: Rule, vars: Variables)
    ensures CreditsPrerequisites(rule, vars) <==> PrerequisitesProve(rule.after, vars)
  {
    hide Proven, SpaceBars, CutAt;
    UpToMark(rule.after);
  }

  /** `p` is what stands in front of the first `;` or `#`. */
  predicate IsUpToMark(after: string, p: string, more: string) {
    after == p + more && ';' !in p && '#' !in p && (more == "" || more[0] == ';' || more[0] == '#')
  }

  lemma UpToMark(after: string)
    ensures forall p, more :: IsUpToMark(after, p, more) ==> p == CutAt(CutAt(after, ';'), '#')
    ensures exists p, more :: IsUpToMark(after, p, more)
  {
    MarkIsThere(after);
    forall r, more | IsUpToMark(after, r, more)
      ensures r == CutAt(CutAt(after, ';'), '#')
    {
      MarkIsFirst(r, more);
    }
  }

  lemma MarkIsThere(after: string)
    ensures var p := CutAt(CutAt(after, ';'), '#'); p <= after && IsUpToMark(after, p, after[|p|..])
  {
    var q := CutAt(after, ';');
    var p := CutAt(q, '#');
    assert after == p + after[|p|..];
    assert forall c <- p :: c in q;
  }

  lemma MarkIsFirst(p: string, more: string)
    requires IsUpToMark(p + more, p, more)
    ensures CutAt(CutAt(p + more, ';'), '#') == p
  {
    CutAtOf(p, more, ';');
    CutAtOf(p, CutAt(more, ';'), '#');
  }

  lemma InlineIff(rule: Rule)
    ensures NonBlank(InlineRecipe(rule)) <==> InlineHasText(rule.after)
  {
    hide NonBlank;
    var after := rule.after;
    forall p, recipe | after == p + ";" + recipe && ';' !in p
      ensures InlineRecipe(rule) == recipe
    {
      assert after == p + (";" + recipe);
      CutAtFirst(p, ";" + recipe, ';');
      assert after[|p| + 1..] == recipe;
    }
    var q := CutAt(after, ';');
    if |q| < |after| {
      assert after == q + ";" + after[|q| + 1..];
    } else {
      NothingIsBlank();
    }
  }

  lemma NothingIsBlank()
    ensures !NonBlank("")
  {
  }

  lemma {:induction false} CreditCounts(lines: seq<string>, s: Scope, k: nat, leaf: string)
    requires k < |Visited(lines)|
    requires
      var scope := ScopeAfter(Visited(lines)[..k], s);
      leaf in Credited(LineOf(Visited(lines)[k], scope.prefix), scope, Behind(lines, k))
    ensures leaf in Leaves(lines, s)
    decreases |lines|
  {
    hide LineOf, Credited, Advance, Extend;
    var (logical, used) := Extend(lines[0], lines[1..]);
    var rest := lines[1 + used..];
    LeavesCons(lines, s, logical, used);
    if k > 0 {
      assert Visited(lines)[..k][1..] == Visited(rest)[..k - 1];
      CreditCounts(rest, Advance(LineOf(logical, s.prefix), s), k - 1, leaf);
    }
  }

  /** The implemented leaves are those that some logical line credits, read in the scope of the lines in front of it
      and with the physical lines behind it. */
  lemma ImplementedIff(lines: seq<string>, leaf: string)
    ensures leaf in ImplementedIn(lines) <==> exists k: nat :: IsCreditedAt(lines, k, leaf)
  {
    hide Credited, LineOf;
    if leaf in ImplementedIn(lines) {
      var k := RepoMkWork.CreditHasLine(lines, START, leaf);
      assert IsCreditedAt(lines, k, leaf);
    }
    if k: nat :| IsCreditedAt(lines, k, leaf) {
      CreditCounts(lines, START, k, leaf);
    }
  }

  predicate IsCreditedAt(lines: seq<string>, k: nat, leaf: string) {
    k < |Visited(lines)| &&
    var scope := ScopeAfter(Visited(lines)[..k], START);
    leaf in Credited(LineOf(Visited(lines)[k], scope.prefix), scope, Behind(lines, k))
  }
}
