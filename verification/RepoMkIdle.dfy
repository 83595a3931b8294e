/**
 Rules that are credited although they give Make nothing to do: an input for each hypothesis of `RepoMkWork` about
 whole lines. Values and single appended words are in `MakeLimits`, a backslash that ends the file in `RepoMkLimits`.
 */
module RepoMkIdle {
  import opened Strings
  import opened MakeLines
  import opened MakeProjection
  import opened MakeVariables
  import opened MakeGrammar
  import opened MakeExpansion
  import opened MakeSoundness
  import opened MakeSyntax
  import opened MakeFile
  import opened MakeAgreement
  import opened MakeLimits
  import opened RepoMk
  import opened RepoMkRecipes
  import opened RepoMkAdmission
  import opened RepoMkWork
  import opened RepoMkRules
  import opened RepoMkLimits

  const LEAF := "repo-test"

  /** Make with nothing in its environment. */
  const FRESH := FromEnvironment(map[])

  lemma LeafIsSimple()
    ensures IsName(LEAF) && LEAF[0] == 'r' && LEAF in REQUIRED_LEAVES && LeavesOf([LEAF]) == {LEAF}
  {
    assert LEAF == REQUIRED_LEAVES[3] == "repo-test" && IsName("repo-test") && !IsSpecial("repo-test");
    LeafOf(LEAF);
  }

  /** The empty environment is enough to find a line idle. */
  lemma IdleIn(lines: seq<string>, k: nat)
    requires k < |Gathered(lines)|
    requires
      !WorksBehind(LEAF, Gathered(lines)[k].text, Gathered(lines)[k + 1..],
        MakeAfter(Texts(Gathered(lines))[..k], FRESH, NOWHERE), NOWHERE, false)
    ensures !HasWork(LEAF, lines, k, NOWHERE, false)
  {
    assert FRESH == FromEnvironment(map[]);
  }

  lemma IdleAtOnce(lines: seq<string>, line: string, behind: seq<Logical>)
    requires Gathered(lines) == [Logical(1, line)] + behind && !Works(LEAF, line, behind, FRESH, NOWHERE, false)
    ensures !HasWork(LEAF, lines, 0, NOWHERE, false)
  {
    hide Gathered, Works, HasWork, FromEnvironment;
    assert Texts(Gathered(lines))[..0] == [];
    assert MakeAfter([], FRESH, NOWHERE) == Running(FRESH);
    assert Gathered(lines)[1..] == behind;
    IdleIn(lines, 0);
  }

  lemma NoReferences(after: string)
    requires '$' !in after && '\\' !in after
    ensures Unquoted(RuleText(LEAF, after)) && Bracketed(CutAt(CutAt(after, ';'), '#'))
  {
    LeafIsSimple();
    forall c | c in LEAF
      ensures c != '\\'
    {
      assert IsNameChar(c);
    }
    assert forall c <- RuleText(LEAF, after) :: c in LEAF || c == ':' || c in after;
    NoMarkUnquoted(RuleText(LEAF, after));
    PlainIsBracketed(CutAt(CutAt(after, ';'), '#'));
  }

  lemma {:induction false} BlankExpands(s: string, store: Store)
    requires s == "" || s == " "
    ensures Expand(s, store, NOWHERE, {}) == Some(s) && !Fine(Some(s), false)
  {
    assert " "[1..] == "" && " "[..1] == " " && " " + "" == " ";
  }

  /** A rule without prerequisites, inline recipe and recipe lines with text. */
  lemma BlankRuleIsIdle(after: string, p: string, behind: seq<Logical>, m: Make)
    requires !At(after, 0, ':') && !At(after, 0, '=') && '$' !in after && '\\' !in after && m.prefix == '\t'
    requires p == CutAt(CutAt(after, ';'), '#') && (p == "" || p == " ") && !At(after, |p|, ';')
    requires forall l <- RecipeOf(behind, '\t') :: !NonBlank(l.text)
    ensures !Works(LEAF, RuleText(LEAF, after), behind, m, NOWHERE, false)
  {
    hide Reads, RecipeOf, Expand, Fine, NonBlank, CutAt, Unquoted;
    LeafIsSimple();
    NoReferences(after);
    RuleReadsAlike(LEAF, after, m.open);
    NoEqualsNoTargetVariable(p);
    BlankExpands(p, m.store);
  }

  lemma {:induction false} NothingGathered(lines: seq<string>, number: nat, start: nat)
    requires forall line <- lines :: !Escapes(line)
    ensures
      var all := GatheredFrom(lines, number, "", start);
      && |all| == |lines| && Texts(all) == lines && forall i :: 0 <= i < |lines| ==> all[i].text == lines[i]
  {
    hide Escapes, Unescaped;
    if lines != [] {
      assert "" + lines[0] == lines[0];
      NothingGathered(lines[1..], number + 1, number);
      var rest := GatheredFrom(lines[1..], number + 1, "", number);
      assert ([Logical(number, lines[0])] + rest)[1..] == rest && lines == [lines[0]] + lines[1..];
    }
  }

  // ---- recipes in comments ----

  const COMMENTED := " # ; x"

  lemma CommentedReads()
    ensures CutAt(COMMENTED, ';') == " # " && CutAt(CutAt(COMMENTED, ';'), '#') == " "
    ensures NonBlank(InlineRecipe(Rule([LEAF], COMMENTED)))
  {
    CutAtFirst(" # ", "; x", ';');
    assert " # " + "; x" == COMMENTED;
    CutAtFirst(" ", "# ", '#');
    assert " " + "# " == " # ";
    assert COMMENTED[4..] == " x" && !IsSpace(" x"[1]);
  }

  lemma InlineCredits(after: string, line: string)
    requires SimpleRule(LEAF, after) && line == RuleText(LEAF, after) && after != "" && !Continued(after)
    requires NonBlank(InlineRecipe(Rule([LEAF], after)))
    ensures ImplementedIn([line]) == {LEAF}
  {
    hide CreditsPrerequisites, NonBlank, InlineRecipe, ImplementedIn, SimpleRule, LeavesOf;
    LeafIsSimple();
    assert line[|line| - 1] == after[|after| - 1];
    LoneLine(line, [], LEAF, after);
    assert [line] + [] == [line];
  }

  lemma IdleAlone(line: string)
    requires !Continued(line) && !Works(LEAF, line, [], FRESH, NOWHERE, false)
    ensures !HasWork(LEAF, [line], 0, NOWHERE, false)
  {
    hide Works, HasWork;
    NothingGathered([line], 1, 0);
    var all := Gathered([line]);
    assert all == [Logical(1, line)] + [];
    IdleAtOnce([line], line, []);
  }

  lemma CommentedText()
    ensures RuleText(LEAF, COMMENTED) == "repo-test: # ; x" && SimpleRule(LEAF, COMMENTED) && !Continued(COMMENTED)
  {
    LeafIsSimple();
  }

  /** `repo-test: # ; x`: to the analyser an inline recipe, to Make a comment. */
  lemma CommentedRecipeIsIdle()
    ensures
      var line := "repo-test: # ; x";
      ImplementedIn([line]) == {LEAF} && !HasWork(LEAF, [line], 0, NOWHERE, false)
  {
    hide ImplementedIn, HasWork, Works, InlineRecipe, NonBlank, RecipeOf, CutAt, SimpleRule, IsName, RuleText;
    CommentedText();
    CommentedReads();
    var line := RuleText(LEAF, COMMENTED);
    InlineCredits(COMMENTED, line);
    assert RecipeOf([], '\t') == [] by {
      NothingToRead();
    }
    BlankRuleIsIdle(COMMENTED, " ", [], FRESH);
    assert line[|line| - 1] == 'x';
    IdleAlone(line);
  }

  lemma NothingToRead()
    ensures RecipeOf([], '\t') == []
  {
  }

  lemma CreditedByScan(rest: seq<string>)
    requires ScanRecipe(rest, '\t')
    ensures LEAF in ImplementedIn([RuleText(LEAF, "")] + rest)
  {
    hide LineOf, ScanRecipe, LeavesOf;
    var line := RuleText(LEAF, "");
    LeafIsSimple();
    LineReads(LEAF, "");
    assert line[|line| - 1] == ':';
    var lines := [line] + rest;
    assert lines[1..] == rest && lines[1 + 0..] == rest;
    LeavesCons(lines, START, line, 0);
  }

  /** A rule without anything behind its colon, and what Make gathers behind it. */
  lemma IdleByScan(rest: seq<string>, behind: seq<Logical>)
    requires GatheredFrom(rest, 2, "", 1) == behind && forall l <- RecipeOf(behind, '\t') :: !NonBlank(l.text)
    ensures !HasWork(LEAF, [RuleText(LEAF, "")] + rest, 0, NOWHERE, false)
  {
    hide RecipeOf, NonBlank, Works, HasWork, CutAt;
    var line := RuleText(LEAF, "");
    var lines := [line] + rest;
    assert line[|line| - 1] == ':' && lines[1..] == rest && "" + line == line;
    assert Gathered(lines) == [Logical(1, line)] + behind;
    Whole("", ';');
    Whole("", '#');
    BlankRuleIsIdle("", "", behind, FRESH);
    IdleAtOnce(lines, line, behind);
  }

  lemma EmptyText()
    ensures RuleText(LEAF, "") == "repo-test:"
  {
  }

  /** Two physical lines, the first continued by one backslash. */
  lemma TwoAreOne(first: string, second: string)
    requires Slashes(first) == 1 && Slashes(second) == 0
    ensures GatheredFrom([first, second], 2, "", 1) == [Logical(2, Unescaped(first) + second)]
  {
    hide Slashes;
    var lines := [first, second];
    assert lines[1..] == [second] && [second][1..] == [] && "" + Unescaped(first) == Unescaped(first);
    assert GatheredFrom([], 4, "", 2) == [];
    assert GatheredFrom([second], 3, Unescaped(first), 2) == [Logical(2, Unescaped(first) + second)] + [];
  }

  lemma SingleReading(text: string)
    ensures
      var reading := Reads(text, '\t', true);
      && (reading.BlankLine? ==> RecipeOf([Logical(2, text)], '\t') == [])
      && (reading.RecipeLine? ==> RecipeOf([Logical(2, text)], '\t') == [Logical(2, reading.text)])
  {
    hide Reads;
    var lines := [Logical(2, text)];
    assert lines[1..] == [] && RecipeOf(lines[1..], '\t') == [];
  }

  const NOTE := "# note \\"
  const ECHO := "\techo hi"

  lemma NoteIsScanned()
    ensures ScanRecipe([NOTE, ECHO], '\t') && Slashes(NOTE) == 1 && Slashes(ECHO) == 0
    ensures IsComment(Unescaped(NOTE) + ECHO, '\t')
  {
    var rest := [NOTE, ECHO];
    assert rest[1..] == [ECHO] && !IsSpace(ECHO[1..][0]);
    assert ScanRecipe([ECHO], '\t');
    assert !IsSpace(NOTE[0]) && LStrip(NOTE) == NOTE && StartsWith(NOTE, "#");
    assert NOTE[..|NOTE| - 1] == "# note " && Slashes("# note ") == 0;
    CommentContinues(NOTE, '\t');
    CommentExtends(Unescaped(NOTE), ECHO, '\t');
  }

  /** `repo-test:`, `# note \`, and a recipe line: the comment goes on over the recipe. */
  lemma SwallowedRecipeIsIdle()
    ensures
      var lines := ["repo-test:", "# note \\", "\techo hi"];
      LEAF in ImplementedIn(lines) && !HasWork(LEAF, lines, 0, NOWHERE, false)
  {
    hide Reads, ScanRecipe, Slashes, IsComment, ImplementedIn, HasWork, RecipeOf, GatheredFrom, Unescaped, NonBlank;
    var rest, text := [NOTE, ECHO], Unescaped(NOTE) + ECHO;
    NoteIsScanned();
    CreditedByScan(rest);
    TwoAreOne(NOTE, ECHO);
    CommentReads(text, '\t');
    SingleReading(text);
    IdleByScan(rest, [Logical(2, text)]);
    EmptyText();
    assert [RuleText(LEAF, "")] + rest == ["repo-test:", NOTE, ECHO];
  }

  const LONE := "\t\\"

  lemma LoneIsScanned()
    ensures ScanRecipe([LONE, ""], '\t') && Slashes(LONE) == 1 && Slashes("") == 0
    ensures Unescaped(LONE) + "" == "\t " && Reads("\t ", '\t', true) == RecipeLine(" ") && !NonBlank(" ")
  {
    assert !IsSpace(LONE[1..][0]);
    assert LONE[..1] == "\t" && Slashes("\t") == 0;
    assert "\t "[1..] == " ";
  }

  /** `repo-test:`, then a recipe line of one backslash and a blank line: to the shell it is nothing. */
  lemma BackslashRecipeIsIdle()
    ensures
      var lines := ["repo-test:", "\t\\", ""];
      LEAF in ImplementedIn(lines) && !HasWork(LEAF, lines, 0, NOWHERE, false)
  {
    hide Reads, ScanRecipe, Slashes, ImplementedIn, HasWork, RecipeOf, GatheredFrom, Unescaped, NonBlank;
    var rest := [LONE, ""];
    LoneIsScanned();
    CreditedByScan(rest);
    TwoAreOne(LONE, "");
    SingleReading("\t ");
    IdleByScan(rest, [Logical(2, "\t ")]);
    EmptyText();
    assert [RuleText(LEAF, "")] + rest == ["repo-test:", LONE, ""];
  }

  // ---- a variable of the target ----

  const PRIVATE := " X = y ; z"

  lemma PrivateReads()
    ensures CutAt(PRIVATE, ';') == " X = y " && CutAt(CutAt(PRIVATE, ';'), '#') == " X = y "
  {
    hide CutAt;
    CutAtFirst(" X = y ", "; z", ';');
    assert " X = y " + "; z" == PRIVATE;
    Whole(" X = y ", '#');
  }

  lemma PrivateHasRecipe()
    ensures NonBlank(InlineRecipe(Rule([LEAF], PRIVATE)))
  {
    hide CutAt;
    PrivateReads();
    assert PRIVATE[8..] == " z" && !IsSpace(" z"[1]);
  }

  lemma PrivateIsVariable()
    ensures IsTargetVariable(" X = y ")
  {
    hide DefinitionOf, Skip;
    SkipOf(" ", "X = y ");
    assert " " + "X = y " == " X = y ";
    assert "X" + (" " + ("=" + (" " + "y "))) == "X = y ";
    DefinitionReads("X", " ", Recursive, "=", " ", "y ");
  }

  lemma PrivateText()
    ensures RuleText(LEAF, PRIVATE) == "repo-test: X = y ; z" && SimpleRule(LEAF, PRIVATE) && !Continued(PRIVATE)
  {
    LeafIsSimple();
  }

  lemma VariableIsIdle(line: string, behind: seq<Logical>, m: Make)
    requires Reads(line, m.prefix, m.open).TargetVariable?
    ensures !Works(LEAF, line, behind, m, NOWHERE, false)
  {
    hide Reads;
  }

  /** `repo-test: X = y ; z`: to Make the recipe is part of the value of a variable of the target. */
  lemma TargetVariableIsIdle()
    ensures
      var line := "repo-test: X = y ; z";
      ImplementedIn([line]) == {LEAF} && !HasWork(LEAF, [line], 0, NOWHERE, false)
  {
    hide IsTargetVariable, ImplementedIn, HasWork, Works, NonBlank, InlineRecipe, CutAt, Reads, Unquoted, RuleText;
    hide Bracketed, SimpleRule, IsName;
    PrivateText();
    LeafIsSimple();
    PrivateReads();
    PrivateHasRecipe();
    PrivateIsVariable();
    var line := RuleText(LEAF, PRIVATE);
    InlineCredits(PRIVATE, line);
    NoReferences(PRIVATE);
    RuleReadsAlike(LEAF, PRIVATE, false);
    VariableIsIdle(line, [], FRESH);
    assert line[|line| - 1] == 'z';
    IdleAlone(line);
  }

  // ---- a target pattern ----

  const PATTERN := " repo-%:"

  lemma PatternText()
    ensures RuleText(LEAF, PATTERN) == "repo-test: repo-%:" && SimpleRule(LEAF, PATTERN)
    ensures PATTERN[|PATTERN| - 1] == ':'
  {
    LeafIsSimple();
  }

  lemma PatternIsWhole()
    ensures CutAt(CutAt(PATTERN, ';'), '#') == PATTERN
  {
    hide CutAt;
    Whole(PATTERN, ';');
    Whole(PATTERN, '#');
  }

  lemma PatternCredits()
    ensures ImplementedIn([RuleText(LEAF, PATTERN)]) == {LEAF}
  {
    hide LineOf, Proven, LeavesOf, RuleText, ImplementedIn, CutAt, SpaceBars, SimpleRule, IsName;
    PatternText();
    PatternIsWhole();
    LeafIsSimple();
    PatternIsProven();
    var line := RuleText(LEAF, PATTERN);
    assert line[|line| - 1] == ':';
    LoneLine(line, [], LEAF, PATTERN);
    assert [line] + [] == [line];
  }

  lemma PatternReads()
    ensures Reads(RuleText(LEAF, PATTERN), '\t', false) == RuleLine([LEAF], PATTERN, None)
  {
    hide Reads, IsTargetVariable, Unquoted, Bracketed, RuleText, IsName, CutAt;
    LeafIsSimple();
    PatternText();
    PatternIsWhole();
    NoReferences(PATTERN);
    RuleReadsAlike(LEAF, PATTERN, false);
    NoEqualsNoTargetVariable(PATTERN);
  }

  /** `repo-test: repo-%:`: what the analyser credits as a prerequisite is the pattern of a static pattern rule
      without prerequisites. */
  lemma PatternIsCredited()
    ensures
      var line := "repo-test: repo-%:";
      && ImplementedIn([line]) == {LEAF}
      && Reads(line, '\t', false) == RuleLine([LEAF], PATTERN, None)
      && Expand(PATTERN, map[], NOWHERE, {}) == Some(PATTERN) && ':' in PATTERN
  {
    hide ImplementedIn, Reads, Expand, RuleText;
    PatternText();
    PatternCredits();
    PatternReads();
    LiteralExpands(PATTERN, map[]);
  }

  lemma PatternIsProven()
    ensures Proven(SpaceBars(PATTERN), map[], {}) != []
  {
    hide SpaceBars, ProvenWords, HasSolidLiteral, WellFormed, Literals, Print;
    var t := Literals(PATTERN);
    LiteralsText(PATTERN, false);
    NoBars(PATTERN);
    LiteralsAreSolid(PATTERN, 1);
    LiteralProves(t);
  }

  lemma LiteralProves(t: Text)
    requires WellFormed(t, false) && HasSolidLiteral(t, false)
    ensures Proven(Print(t), map[], {}) != []
  {
    LiteralIsProven(t, MakeGrammar.End, map[], {});
  }

  lemma {:induction false} LiteralsAreSolid(s: string, i: nat)
    requires i < |s| && !IsSpace(s[i])
    ensures HasSolidLiteral(Literals(s), false)
  {
    if i > 0 {
      LiteralsAreSolid(s[1..], i - 1);
    }
  }

  lemma {:induction false} LiteralExpands(s: string, store: Store)
    requires '$' !in s
    ensures Expand(s, store, NOWHERE, {}) == Some(s)
  {
    if s != "" {
      LiteralExpands(s[1..], store);
      ExpandChar(s[..1], s[1..], store, NOWHERE, {});
      assert s == s[..1] + s[1..] && s[..1][..1] == s[..1];
    }
  }

  // ---- a variable that is emptied where the analyser does not look ----

  const REFERENCE := " $(X)"

  lemma ReferenceEnds()
    ensures !Continued(RuleText(LEAF, REFERENCE)) && RuleText(LEAF, REFERENCE) == "repo-test: $(X)"
  {
  }

  lemma ReferenceReads()
    ensures REFERENCE == " " + Ref("X") && Bracketed(REFERENCE) && Unquoted(RuleText(LEAF, REFERENCE))
    ensures CutAt(CutAt(REFERENCE, ';'), '#') == REFERENCE
  {
    hide CutAt, Unquoted, Print;
    assert IsName("X");
    RefText("X");
    var t := Group(false, Literals("X"), MakeGrammar.End);
    assert WellFormed(t, false);
    PlainIsBracketed(" ");
    BracketedConcat(" ", Ref("X"));
    Whole(REFERENCE, ';');
    Whole(REFERENCE, '#');
    ReferenceEnds();
    NoMarkUnquoted("repo-test: $(X)");
  }

  /** `$(X)` is nothing. */
  predicate LacksX(store: Store) { "X" !in store || store["X"] == Lazy("") }

  lemma EmptyReferenceExpands(store: Store)
    requires LacksX(store)
    ensures Expand(REFERENCE, store, NOWHERE, {}) == Some(" ") && !Fine(Some(" "), false)
  {
    assert IsName("X");
    assert REFERENCE == " " + Ref("X");
    ExpandRef("X", store, NOWHERE, {});
    ExpandChar(" ", Ref("X"), store, NOWHERE, {});
    assert {} + {"X"} == {"X"};
    assert "X" in store ==> Expand("", store, NOWHERE, {"X"}) == Some("");
    assert " "[..1] == " " && " " + "" == " ";
  }

  /** With an empty `X` the rule is idle ... */
  lemma EmptyReferenceIsIdle(m: Make)
    requires m.prefix == '\t' && LacksX(m.store)
    ensures !Works(LEAF, RuleText(LEAF, REFERENCE), [], m, NOWHERE, false)
  {
    hide Reads, Unquoted, Bracketed, Expand, Fine, RuleText, IsName, IsTargetVariable, NonBlank;
    LeafIsSimple();
    ReferenceReads();
    RuleReadsAlike(LEAF, REFERENCE, m.open);
    NoEqualsNoTargetVariable(REFERENCE);
    EmptyReferenceExpands(m.store);
    NothingToRead();
  }

  lemma ReferenceIsProven(vars: Variables)
    requires "X" in vars && vars["X"] == Deferred("y")
    ensures Proven(SpaceBars(REFERENCE), vars, {}) != [] && '=' !in REFERENCE
  {
    hide Proven, Ref, SpaceBars;
    NoBars(REFERENCE);
    assert IsName("X");
    SpaceRef("X", vars, {});
    ProvenRef("X", vars, {});
    LetterProven(vars, {"X"});
    assert {} + {"X"} == {"X"};
    ReferenceReads();
  }

  /** ... and with an `X` that holds `y` it is credited. */
  lemma ReferenceIsCredited(s: Scope)
    requires s.prefix == '\t' && "X" in s.vars && s.vars["X"] == Deferred("y")
    ensures Leaves([RuleText(LEAF, REFERENCE)], s) == {LEAF}
  {
    hide LineOf, Proven, LeavesOf, CutAt, SpaceBars, IsName, Unquoted, Bracketed, RuleText, HasRecipe;
    var line := RuleText(LEAF, REFERENCE);
    LeafIsSimple();
    ReferenceReads();
    ReferenceEnds();
    LineReads(LEAF, REFERENCE);
    ReferenceIsProven(s.vars);
    var lines := [line];
    assert lines[1..] == [] && lines[1 + 0..] == [];
    LeavesCons(lines, s, line, 0);
  }

  /** A line that is not continued and credits nothing. */
  lemma LeavesBehind(line: string, rest: seq<string>, s: Scope)
    requires !Continued(line)
    ensures Leaves(rest, Advance(LineOf(line, s.prefix), s)) <= Leaves([line] + rest, s)
  {
    var lines := [line] + rest;
    assert lines[1..] == rest && lines[1 + 0..] == rest;
    LeavesCons(lines, s, line, 0);
  }

  lemma DefineStep(name: string, value: string, m: Make)
    requires IsName(name)
    ensures Step(AssignmentLine(name, Recursive, value), m, NOWHERE)
         == Running(Make(m.prefix, m.store[name := Lazy(value)], false))
  {
    forall c | c in name
      ensures c != '$'
    {
      NameCharIsPlain(c);
    }
  }

  const FILLED := "X = y"
  const EMPTIED := "X ="

  /** The two assignments, alone and behind a tab. */
  lemma AssignmentsRead(open: bool)
    ensures LineOf(FILLED, '\t') == Variable(Assignment("X", Recursive, "y"))
    ensures Reads(FILLED, '\t', open) == AssignmentLine("X", Recursive, "y")
    ensures Reads(EMPTIED, '\t', open) == AssignmentLine("X", Recursive, "")
    ensures Reads("\t" + EMPTIED, '\t', false) == AssignmentLine("X", Recursive, "")
  {
    assert AssignmentText("X", " ", "y") == FILLED && AssignmentText("X", "", "") == EMPTIED;
    assert IsName("X");
    AssignmentLineReads("X", " ", "y");
    AssignmentReadsInMake("", "X", " ", "y", '\t', open);
    AssignmentReadsInMake("", "X", "", "", '\t', open);
    AssignmentReadsInMake("\t", "X", "", "", '\t', false);
    assert "" + FILLED == FILLED && "" + EMPTIED == EMPTIED;
  }

  /** A file whose last line is the rule, read by Make with an empty `X`. */
  lemma IdleAtEnd(front: seq<string>, m: Make)
    requires (forall line <- front :: !Continued(line) || Slashes(line) == 2)
    requires MakeAfter(front, FRESH, NOWHERE) == Running(m)
    requires m.prefix == '\t' && LacksX(m.store)
    ensures !HasWork(LEAF, front + [RuleText(LEAF, REFERENCE)], |front|, NOWHERE, false)
  {
    hide Works, HasWork, MakeAfter, RuleText, GatheredFrom, Slashes, FromEnvironment;
    var line, k := RuleText(LEAF, REFERENCE), |front|;
    var lines := front + [line];
    ReferenceEnds();
    forall l <- lines
      ensures !Escapes(l)
    {
      assert l in front || l == line;
      NoSlash(l);
    }
    NothingGathered(lines, 1, 0);
    assert lines[..k] == front && Gathered(lines)[k + 1..] == [];
    EmptyReferenceIsIdle(m);
    IdleIn(lines, k);
  }

  lemma TwoSteps(first: string, second: string, m1: Make, m2: Make)
    requires Step(Reads(first, '\t', false), FRESH, NOWHERE) == Running(m1)
    requires Step(Reads(second, m1.prefix, m1.open), m1, NOWHERE) == Running(m2)
    ensures MakeAfter([first, second], FRESH, NOWHERE) == Running(m2)
  {
    hide Step, Reads;
    assert [first, second][1..] == [second] && [second][1..] == [];
    assert MakeAfter([], m2, NOWHERE) == Running(m2);
    assert MakeAfter([second], m1, NOWHERE) == Running(m2);
  }

  const WITH_X := Make('\t', map["X" := Lazy("y")], false)
  const WITHOUT_X := Make('\t', map["X" := Lazy("")], false)

  lemma FilledStep()
    ensures Step(AssignmentLine("X", Recursive, "y"), FRESH, NOWHERE) == Running(WITH_X)
    ensures Step(AssignmentLine("X", Recursive, ""), WITH_X, NOWHERE) == Running(WITHOUT_X)
  {
    assert IsName("X");
    DefineStep("X", "y", FRESH);
    DefineStep("X", "", WITH_X);
    assert map["X" := Lazy("y")]["X" := Lazy("")] == WITHOUT_X.store;
    assert FRESH.store == map[] && map[]["X" := Lazy("y")] == WITH_X.store;
  }

  lemma IndentedCredits()
    ensures LEAF in ImplementedIn([FILLED, "\t" + EMPTIED, RuleText(LEAF, REFERENCE)])
  {
    hide LineOf, Reads, Leaves, ImplementedIn, RuleText;
    var rule, indented := RuleText(LEAF, REFERENCE), "\t" + EMPTIED;
    AssignmentsRead(false);
    var s := Advance(LineOf(FILLED, '\t'), START);
    assert s == Scope('\t', map["X" := Deferred("y")]);
    TabIsRecipe(indented, s);
    LeavesBehind(FILLED, [indented, rule], START);
    LeavesBehind(indented, [rule], s);
    ReferenceIsCredited(s);
    assert [FILLED] + [indented, rule] == [FILLED, indented, rule] && [indented] + [rule] == [indented, rule];
    LeavesAreImplemented([FILLED, indented, rule]);
  }

  /** `X = y`, TAB `X =`, `repo-test: $(X)`: no rule is open, so to Make the tab only indents an assignment. */
  lemma IndentedAssignmentIsIdle()
    ensures
      var lines := ["X = y", "\tX =", "repo-test: $(X)"];
      LEAF in ImplementedIn(lines) && !HasWork(LEAF, lines, 2, NOWHERE, false)
  {
    hide Reads, Step, ImplementedIn, HasWork, RuleText;
    var rule, indented := RuleText(LEAF, REFERENCE), "\t" + EMPTIED;
    var lines := [FILLED, indented, rule];
    ReferenceEnds();
    assert indented == "\tX =";
    assert lines == ["X = y", "\tX =", "repo-test: $(X)"];
    AssignmentsRead(false);
    FilledStep();
    TwoSteps(FILLED, indented, WITH_X, WITHOUT_X);
    IdleAtEnd([FILLED, indented], WITHOUT_X);
    assert [FILLED, indented] + [rule] == lines;
    IndentedCredits();
  }

  lemma LeavesAreImplemented(lines: seq<string>)
    ensures ImplementedIn(lines) == Leaves(lines, START)
  {
  }

  lemma TabIsRecipe(line: string, s: Scope)
    requires line != "" && line[0] == '\t' && s.prefix == '\t'
    ensures Advance(LineOf(line, '\t'), s) == s
  {
  }

  // ---- two backslashes ----

  const DOUBLED := "Z = a \\\\"

  lemma DoubledSlashes()
    ensures Slashes(DOUBLED) == 2 && Continued(DOUBLED)
  {
    assert DOUBLED[..7][..6] == "Z = a " && Slashes("Z = a ") == 0;
    assert DOUBLED[..7] == "Z = a \\" && Slashes("Z = a \\") == 1;
  }

  lemma DoubledIsWritten()
    ensures "" + AssignmentText("Z", " ", "a \\\\") == DOUBLED
  {
  }

  lemma DoubledReads()
    ensures Reads(DOUBLED, '\t', false) == AssignmentLine("Z", Recursive, "a \\\\")
  {
    hide Reads;
    assert IsName("Z");
    DoubledIsWritten();
    AssignmentReadsInMake("", "Z", " ", "a \\\\", '\t', false);
  }

  const JOINED := "Z = a \\ X ="

  lemma DoubledIsJoined()
    ensures Continued(DOUBLED) && Unslash(DOUBLED) + EMPTIED == JOINED && !Continued(JOINED)
  {
  }

  lemma JoinedReads()
    ensures LineOf(JOINED, '\t') == Variable(Assignment("Z", Recursive, "a \\ X ="))
  {
    hide LineOf;
    assert IsName("Z");
    assert JOINED == AssignmentText("Z", " ", "a \\ X =");
    AssignmentLineReads("Z", " ", "a \\ X =");
  }

  const WITH_XZ := Make('\t', map["X" := Lazy("y"), "Z" := Lazy("a \\\\")], false)
  const WITHOUT_XZ := Make('\t', map["X" := Lazy(""), "Z" := Lazy("a \\\\")], false)

  lemma DoubledSteps()
    ensures Step(AssignmentLine("Z", Recursive, "a \\\\"), WITH_X, NOWHERE) == Running(WITH_XZ)
    ensures Step(AssignmentLine("X", Recursive, ""), WITH_XZ, NOWHERE) == Running(WITHOUT_XZ)
  {
    hide Step;
    assert IsName("Z") && IsName("X");
    DefineStep("Z", "a \\\\", WITH_X);
    DefineStep("X", "", WITH_XZ);
    assert map["X" := Lazy("y")]["Z" := Lazy("a \\\\")] == WITH_XZ.store;
    assert WITH_XZ.store["X" := Lazy("")] == WITHOUT_XZ.store;
  }

  lemma DoubledRun()
    ensures MakeAfter([FILLED, DOUBLED, EMPTIED], FRESH, NOWHERE) == Running(WITHOUT_XZ)
  {
    hide Reads, Step, FromEnvironment;
    AssignmentsRead(false);
    DoubledReads();
    FilledStep();
    DoubledSteps();
    assert FRESH.prefix == '\t' && !FRESH.open by {
      FreshIsClosed();
    }
    assert [FILLED, DOUBLED, EMPTIED][1..] == [DOUBLED, EMPTIED];
    assert [DOUBLED, EMPTIED][1..] == [EMPTIED] && [EMPTIED][1..] == [];
    assert MakeAfter([], WITHOUT_XZ, NOWHERE) == Running(WITHOUT_XZ);
    assert MakeAfter([EMPTIED], WITH_XZ, NOWHERE) == Running(WITHOUT_XZ);
    assert MakeAfter([DOUBLED, EMPTIED], WITH_X, NOWHERE) == Running(WITHOUT_XZ);
  }

  lemma FreshIsClosed()
    ensures FRESH.prefix == '\t' && !FRESH.open
  {
  }

  lemma DoubledAll()
    ensures LEAF in ImplementedIn([FILLED, DOUBLED, EMPTIED, RuleText(LEAF, REFERENCE)])
  {
    hide LineOf, Reads, Leaves, ImplementedIn, RuleText;
    var rule := RuleText(LEAF, REFERENCE);
    AssignmentsRead(false);
    var s := Advance(LineOf(FILLED, '\t'), START);
    assert s == Scope('\t', map["X" := Deferred("y")]);
    LeavesBehind(FILLED, [DOUBLED, EMPTIED, rule], START);
    assert [FILLED] + [DOUBLED, EMPTIED, rule] == [FILLED, DOUBLED, EMPTIED, rule];
    DoubledCredits(s);
    LeavesAreImplemented([FILLED, DOUBLED, EMPTIED, rule]);
  }

  /** `X = y`, `Z = a \\`, `X =`, `repo-test: $(X)`: the analyser joins the second line with the third, Make does
      not, because its two backslashes are one escaped. */
  lemma DoubledBackslashIsIdle()
    ensures
      var lines := ["X = y", "Z = a \\\\", "X =", "repo-test: $(X)"];
      LEAF in ImplementedIn(lines) && !HasWork(LEAF, lines, 3, NOWHERE, false)
  {
    hide ImplementedIn, HasWork, MakeAfter, Slashes, RuleText;
    var rule := RuleText(LEAF, REFERENCE);
    ReferenceEnds();
    var lines := [FILLED, DOUBLED, EMPTIED, rule];
    assert lines == ["X = y", "Z = a \\\\", "X =", "repo-test: $(X)"];
    DoubledSlashes();
    DoubledRun();
    IdleAtEnd([FILLED, DOUBLED, EMPTIED], WITHOUT_XZ);
    assert [FILLED, DOUBLED, EMPTIED] + [rule] == lines;
    DoubledAll();
  }

  lemma DoubledCredits(s: Scope)
    requires s == Scope('\t', map["X" := Deferred("y")])
    ensures LEAF in Leaves([DOUBLED, EMPTIED, RuleText(LEAF, REFERENCE)], s)
  {
    hide LineOf, Leaves, RuleText, Unslash;
    var rule := RuleText(LEAF, REFERENCE);
    var lines := [DOUBLED, EMPTIED, rule];
    DoubledIsJoined();
    JoinedReads();
    assert lines[1..] == [EMPTIED, rule] && lines[1..][1..] == [rule] && lines[2..] == [rule];
    assert Extend(JOINED, [rule]) == (JOINED, 0);
    assert Extend(DOUBLED, [EMPTIED, rule]) == (JOINED, 1);
    LeavesCons(lines, s, JOINED, 1);
    ReferenceIsCredited(Advance(LineOf(JOINED, '\t'), s));
  }

  // ---- an assignment in a block ----

  /** A line that is no recipe is of the kind its first word gives it. */
  lemma KindByWord(word: string, rest: string)
    requires word != "" && word !in MakeProjection.MODIFIERS && (rest == "" || IsSpace(rest[0]))
    requires forall i :: 0 <= i < |word| ==> !IsSpace(word[i]) && word[i] != '#'
    ensures KindOf(word + rest) == KindOfDirective(word)
  {
    var line, code := word + rest, CutAt(rest, '#');
    assert '#' !in word && line[0] == word[0];
    CutAtOf(word, rest, '#');
    WordBefore(word, code, "");
    assert "" + word == word;
  }

  const OPENING := "ifdef NEVER"
  const CLOSING := "endif"

  lemma BlockKinds()
    ensures KindOf(OPENING) == OpenConditional && KindOf(CLOSING) == CloseConditional
    ensures KindOf(FILLED) == Plain && KindOf(EMPTIED) == Plain
  {
    hide KindOf;
    KindByWord("ifdef", " NEVER");
    KindByWord("endif", "");
    KindByWord("X", " = y");
    KindByWord("X", " =");
    assert "ifdef" + " NEVER" == OPENING && "endif" + "" == CLOSING && "X" + " = y" == FILLED && "X" + " =" == EMPTIED;
  }

  lemma RuleKind()
    ensures KindOf(RuleText(LEAF, REFERENCE)) == Plain
  {
    hide KindOf;
    KindByWord("repo-test:", " $(X)");
    assert "repo-test:" + " $(X)" == RuleText(LEAF, REFERENCE);
  }

  lemma {:induction false} ProjectStep(line: string, rest: seq<string>, n: Nesting)
    ensures Project(Mark([line] + rest, KindOf), n)
         == [Shown(Marked(KindOf(line), line), n)] + Project(Mark(rest, KindOf), Enter(n, KindOf(line)))
  {
    hide KindOf;
    assert ([line] + rest)[1..] == rest;
    assert Mark([line] + rest, KindOf)[1..] == Mark(rest, KindOf);
  }

  lemma BlockProjects(rule: string)
    requires KindOf(rule) == Plain
    ensures Projected([FILLED, OPENING, EMPTIED, CLOSING, rule]) == [FILLED, "", "", "", rule]
  {
    hide KindOf, Project;
    BlockKinds();
    ProjectStep(FILLED, [OPENING, EMPTIED, CLOSING, rule], TOP);
    ProjectStep(OPENING, [EMPTIED, CLOSING, rule], TOP);
    ProjectStep(EMPTIED, [CLOSING, rule], Nesting(1, 0));
    ProjectStep(CLOSING, [rule], Nesting(1, 0));
    ProjectStep(rule, [], TOP);
    assert [FILLED] + [OPENING, EMPTIED, CLOSING, rule] == [FILLED, OPENING, EMPTIED, CLOSING, rule];
    assert [OPENING] + [EMPTIED, CLOSING, rule] == [OPENING, EMPTIED, CLOSING, rule];
    assert [EMPTIED] + [CLOSING, rule] == [EMPTIED, CLOSING, rule];
    assert [CLOSING] + [rule] == [CLOSING, rule] && [rule] + [] == [rule];
    assert Project(Mark([], KindOf), TOP) == [] by {
      NothingProjects();
    }
  }

  lemma NothingProjects()
    ensures Project(Mark([], KindOf), TOP) == []
  {
  }

  lemma BlankKeepsLeaves(rest: seq<string>, s: Scope)
    ensures Leaves(rest, s) <= Leaves([""] + rest, s)
  {
    LeavesBehind("", rest, s);
  }

  lemma BlockCredits(rule: string)
    requires rule == RuleText(LEAF, REFERENCE)
    ensures LEAF in ImplementedIn([FILLED, "", "", "", rule])
  {
    hide LineOf, Reads, Leaves, ImplementedIn;
    AssignmentsRead(false);
    var s := Advance(LineOf(FILLED, '\t'), START);
    assert s == Scope('\t', map["X" := Deferred("y")]);
    LeavesBehind(FILLED, ["", "", "", rule], START);
    BlankKeepsLeaves(["", "", rule], s);
    BlankKeepsLeaves(["", rule], s);
    BlankKeepsLeaves([rule], s);
    ReferenceIsCredited(s);
    assert [FILLED] + ["", "", "", rule] == [FILLED, "", "", "", rule];
    assert [""] + ["", "", rule] == ["", "", "", rule] && [""] + ["", rule] == ["", "", rule];
    assert [""] + [rule] == ["", rule];
    LeavesAreImplemented([FILLED, "", "", "", rule]);
  }

  /** A conditional block that empties `X` is blanked, so the analyser does not see it; where Make takes the block,
      it reads only the lines outside and inside of it. */
  lemma BlockAssignmentIsIdle()
    ensures LEAF in ImplementedIn(Projected(["X = y", "ifdef NEVER", "X =", "endif", "repo-test: $(X)"]))
    ensures !HasWork(LEAF, ["X = y", "X =", "repo-test: $(X)"], 2, NOWHERE, false)
  {
    hide Reads, Step, ImplementedIn, HasWork, Projected, KindOf, RuleText;
    var rule := RuleText(LEAF, REFERENCE);
    ReferenceEnds();
    RuleKind();
    BlockProjects(rule);
    BlockCredits(rule);
    AssignmentsRead(false);
    FilledStep();
    TwoSteps(FILLED, EMPTIED, WITH_X, WITHOUT_X);
    IdleAtEnd([FILLED, EMPTIED], WITHOUT_X);
    assert [FILLED, EMPTIED] + [rule] == ["X = y", "X =", "repo-test: $(X)"];
  }

  // ---- whitespace that is none to Make ----

  const NARROW := "X\U{A0}= y"

  lemma NarrowReads()
    ensures Reads(NARROW, '\t', false) == AssignmentLine("X\U{A0}", Recursive, "y")
  {
    hide Uncommented;
    var s1, s2, s3 := "\U{A0}= y", "= y", " y";
    assert NARROW[1..] == s1 && s1[1..] == s2 && s2[1..] == s3 && s3[1..] == "y";
    NoOperatorHere(NARROW);
    NoOperatorHere(s1);
    assert StartsWith(s2, "=") && NameSpan(s2) == 0;
    assert NameSpan(s1) == 1;
    assert NameSpan(NARROW) == 2;
    assert Skip(s2) == s2 && OperatorAt(s2) == Some((Recursive, s3)) && Skip(s3) == "y";
    assert NARROW[2..] == s2 && NARROW[..2] == "X\U{A0}";
    NarrowIsCode();
    assert Skip(NARROW) == NARROW;
  }

  lemma NarrowIsCode()
    ensures Uncommented(NARROW) == NARROW
  {
    hide Uncommented;
    Whole(NARROW, '#');
    PlainIsBracketed(NARROW);
    NoMarkUnquoted(NARROW);
    CodeIs(NARROW);
  }

  lemma NarrowIsAssignment()
    ensures LineOf(NARROW, '\t') == Variable(Assignment("X", Recursive, "y"))
  {
    assert "X" + ("\U{A0}" + ("=" + (" " + "y"))) == NARROW && IsName("X");
    AssignmentReads("X", "\U{A0}", Recursive, "=", " ", "y");
    Whole("y", '#');
    hide ParseBareAssignment;
    assert ParseRecipePrefix(NARROW).None? && NARROW[0] == 'X';
    assert AfterModifier(NARROW).None?;
  }

  lemma NarrowStep()
    ensures
      var m := Make('\t', map["X\U{A0}" := Lazy("y")], false);
      Step(Reads(NARROW, '\t', false), FRESH, NOWHERE) == Running(m) && "X" !in m.store
  {
    hide Reads;
    NarrowReads();
    assert "X\U{A0}" != RECIPE_PREFIX && '$' !in "X\U{A0}";
    assert |"X\U{A0}"| == 2 && |"X"| == 1;
    assert FRESH.store == map[];
  }

  /** `X = y` with a no-break space in front of the operator, then `repo-test: $(X)`: to Make the space is part of
      the name, and `X` has no value. */
  lemma NoBreakSpaceIsIdle()
    ensures
      var lines := ["X\U{A0}= y", "repo-test: $(X)"];
      LEAF in ImplementedIn(lines) && !HasWork(LEAF, lines, 1, NOWHERE, false)
  {
    hide Reads, Step, ImplementedIn, HasWork, RuleText, LineOf, Leaves;
    var rule := RuleText(LEAF, REFERENCE);
    ReferenceEnds();
    NarrowIsAssignment();
    NarrowStep();
    var s := Advance(LineOf(NARROW, '\t'), START);
    assert s == Scope('\t', map["X" := Deferred("y")]);
    LeavesBehind(NARROW, [rule], START);
    ReferenceIsCredited(s);
    assert [NARROW] + [rule] == [NARROW, rule] == ["X\U{A0}= y", "repo-test: $(X)"];
    LeavesAreImplemented([NARROW, rule]);
    var m := Make('\t', map["X\U{A0}" := Lazy("y")], false);
    OneStep(NARROW, m);
    IdleAtEnd([NARROW], m);
  }

  lemma OneStep(line: string, m: Make)
    requires Step(Reads(line, '\t', false), FRESH, NOWHERE) == Running(m)
    ensures MakeAfter([line], FRESH, NOWHERE) == Running(m)
  {
    hide Step, Reads;
    assert [line][1..] == [] && MakeAfter([], m, NOWHERE) == Running(m);
  }

  // ---- a line break that is none to Make ----

  const REMARK := "# note"

  function BreakFile(front: string, b: char, middle: string, last: string): string {
    front + [b] + (middle + "\n" + last)
  }

  lemma UnbrokenHasNoReturn(s: string)
    requires Unbroken(s)
    ensures '\r' !in s && '\n' !in s
  {
  }

  lemma LastLineSplits(line: string)
    requires Unbroken(line) && line != ""
    ensures Splitlines(line) == [line] && UniversalNewlines(line) == line
  {
    LoneLineAgrees(line);
    UnbrokenHasNoReturn(line);
    UniversalKeeps(line, "");
    assert line + "" == line;
  }

  /** Read as text the file has three lines ... */
  lemma BreakFileReads(front: string, b: char, middle: string, last: string)
    requires IsLineBreak(b) && Unbroken(front) && Unbroken(middle) && Unbroken(last) && middle != "" && last != ""
    ensures Splitlines(UniversalNewlines(BreakFile(front, b, middle, last))) == [front, middle, last]
  {
    hide Splitlines, Unbroken, UniversalNewlines;
    var tail := middle + "\n" + last;
    LastLineSplits(last);
    SplitFirstLine(middle, last);
    UnbrokenHasNoReturn(front);
    UnbrokenHasNoReturn(middle);
    assert '\r' !in middle + "\n";
    UniversalKeeps(middle + "\n", last);
    UniversalKeeps(front, [b] + tail);
    assert BreakFile(front, b, middle, last) == front + ([b] + tail);
    var c := if b == '\r' then '\n' else b;
    assert tail[0] == middle[0] && middle[0] in middle;
    BreakReads(b, c, tail);
    assert front + ([c] + tail) == front + [c] + tail;
    SplitAtBreak(front, c, tail);
    assert [front] + ([middle] + [last]) == [front, middle, last];
  }

  lemma BreakReads(b: char, c: char, rest: string)
    requires c == (if b == '\r' then '\n' else b) && UniversalNewlines(rest) == rest && rest != "" && rest[0] != '\n'
    ensures UniversalNewlines([b] + rest) == [c] + rest
  {
    var s := [b] + rest;
    assert s[1..] == rest && s[0] == b && s[1] == rest[0];
    assert !StartsWith(s, "\r\n");
  }

  /** ... and to Make it has two. */
  lemma BreakFileLines(front: string, b: char, middle: string, last: string)
    requires b != '\n' && Unbroken(front) && Unbroken(middle) && Unbroken(last) && middle != "" && last != ""
    ensures PhysicalLines(BreakFile(front, b, middle, last)) == [front + [b] + middle, last]
  {
    hide Unbroken, CutAt;
    var first := front + [b] + middle;
    UnbrokenHasNoReturn(front);
    UnbrokenHasNoReturn(middle);
    UnbrokenHasNoReturn(last);
    var file := BreakFile(front, b, middle, last);
    assert file == first + ("\n" + last);
    CutAtFirst(first, "\n" + last, '\n');
    assert first[|first| - 1] == middle[|middle| - 1] && middle[|middle| - 1] in middle;
    assert file[|first| + 1..] == last;
    Whole(last, '\n');
    assert PhysicalLines(last) == [last];
  }

  /** A comment, a line break, an assignment, and the rule on its own line. */
  function BrokenFile(b: char): string { BreakFile(REMARK, b, FILLED, RuleText(LEAF, REFERENCE)) }

  lemma PartsAreUnbroken()
    ensures Unbroken(REMARK) && Unbroken(FILLED) && Unbroken(RuleText(LEAF, REFERENCE))
  {
    ReferenceEnds();
  }

  lemma RemarkReads(b: char)
    ensures Reads(REMARK + [b] + FILLED, '\t', false) == BlankLine
  {
    var line := REMARK + [b] + FILLED;
    assert line[0] == '#';
    assert Uncommented(line) == "" && Skip("") == "";
  }

  lemma RemarkIsOther()
    ensures Advance(LineOf(REMARK, '\t'), START) == START
  {
    assert REMARK[0] == '#' && CutAt(REMARK, '#') == "";
    assert NameLength(REMARK) == 0 && AfterModifier(REMARK).None? && FirstMark(REMARK) == 0;
    assert ParseUndefine("").None?;
  }

  /** `# note`, any line break of `str.splitlines` but a line feed (for instance a lone carriage return or a form
      feed), `X = y`, then `repo-test: $(X)`: to Make the assignment is part of the comment. */
  lemma LineBreakIsIdle(b: char)
    requires IsLineBreak(b) && b != '\n'
    ensures LEAF in ImplementedIn(Splitlines(UniversalNewlines(BrokenFile(b))))
    ensures !HasWork(LEAF, PhysicalLines(BrokenFile(b)), 1, NOWHERE, false)
  {
    hide Reads, Step, ImplementedIn, HasWork, RuleText, LineOf, Leaves, IsLineBreak, BreakFile, Splitlines, Unbroken;
    var rule, first := RuleText(LEAF, REFERENCE), REMARK + [b] + FILLED;
    PartsAreUnbroken();
    ReferenceEnds();
    BreakFileReads(REMARK, b, FILLED, rule);
    BreakFileLines(REMARK, b, FILLED, rule);
    RemarkIsOther();
    AssignmentsRead(false);
    var s := Advance(LineOf(FILLED, '\t'), START);
    assert s == Scope('\t', map["X" := Deferred("y")]);
    LeavesBehind(REMARK, [FILLED, rule], START);
    LeavesBehind(FILLED, [rule], START);
    ReferenceIsCredited(s);
    assert [REMARK] + [FILLED, rule] == [REMARK, FILLED, rule] && [FILLED] + [rule] == [FILLED, rule];
    LeavesAreImplemented([REMARK, FILLED, rule]);
    RemarkReads(b);
    RemarkStep();
    OneStep(first, FRESH);
    assert first[|first| - 1] == 'y';
    IdleAtEnd([first], FRESH);
    assert [first] + [rule] == [first, rule];
  }

  lemma RemarkStep()
    ensures Step(BlankLine, FRESH, NOWHERE) == Running(FRESH) && FRESH.prefix == '\t' && LacksX(FRESH.store)
  {
  }
}
