/** The plain way to write a `Repo.mk`: such files are always accepted. */
module RepoMkTemplate {
  import opened Strings
  import opened MakeLines
  import opened MakeProjection
  import opened MakeVariables
  import opened MakeGrammar
  import opened MakeSoundness
  import opened MakeSyntax
  import opened MakeFile
  import opened MakeAgreement
  import opened MakeReading
  import opened RepoMk
  import opened RepoMkAdmission
  import opened RepoMkWork
  import opened RepoMkRules
  import opened RepoMkLimits

  // ---- the template ----

  function Spaced(names: seq<string>): string {
    if names == [] then "" else " " + (names[0] + Spaced(names[1..]))
  }

  function RuleLines(names: seq<string>, afters: seq<string>): (lines: seq<string>)
    requires |names| == |afters|
    ensures |lines| == |names|
  {
    if names == [] then [] else [RuleText(names[0], afters[0])] + RuleLines(names[1..], afters[1..])
  }

  const PHONY := ".PHONY"

  /** One `.PHONY` line for the four leaves, and a rule line for each. */
  function Template(afters: seq<string>): seq<string>
    requires |afters| == |REQUIRED_LEAVES|
  {
    [RuleText(PHONY, Spaced(REQUIRED_LEAVES))] + RuleLines(REQUIRED_LEAVES, afters)
  }

  /** Prerequisites with visible text outside references, without the characters that mean something else. */
  ghost predicate IsPlainList(after: string) {
    && (forall i :: 0 <= i < |after| ==> after[i] !in {':', '=', ';', '#', '|'})
    && after != "" && after[|after| - 1] != '\\'
    && exists t :: WellFormed(t, false) && HasSolidLiteral(t, false) && Print(t) == after
  }

  ghost predicate ArePlainLists(afters: seq<string>) { forall after <- afters :: IsPlainList(after) }

  /** For instance a single name. */
  lemma NameIsPlainList(name: string)
    requires IsName(name)
    ensures IsPlainList(" " + name)
  {
    assert forall i :: 0 <= i < |name| ==> IsNameChar(name[i]);
    LiteralsText(name, true);
    EnclosedIsWellFormed(Literals(name));
    var t := Lit(' ', Literals(name));
    assert Solid(name[0], false);
    assert Print(t) == [' '] + name && [' '] + name == " " + name;
    assert WellFormed(t, false) && HasSolidLiteral(t, false);
  }

  // ---- reading the lines ----

  lemma {:induction false} FirstWord(s: string, word: string)
    requires word != "" || (s != "" && !IsSpace(s[0]))
    ensures WordsFrom(s, word) != [] && WordsFrom(s, word)[0] != "" && WordsFrom(s, word)[0][0] == (word + s)[0]
    decreases |s|
  {
    if s != "" && !IsSpace(s[0]) {
      FirstWord(s[1..], word + [s[0]]);
    }
  }

  lemma OrdinaryLineIsPlain(line: string)
    requires line != "" && (line[0] == 'r' || line[0] == '.')
    ensures KindOf(line) == Plain
  {
    var code := CutAt(line, '#');
    assert code[0] == line[0];
    FirstWord(code, "");
    assert "" + code == code;
    var word := Words(code)[0];
    assert Directive(Words(code)) == word;
  }

  lemma {:induction false} AllPlain(lines: seq<string>)
    requires forall line <- lines :: KindOf(line) == Plain
    ensures Project(Mark(lines, KindOf), TOP) == lines
  {
    hide KindOf;
    if lines != [] {
      AllPlain(lines[1..]);
      assert lines == [lines[0]] + lines[1..];
      assert Mark(lines, KindOf)[1..] == Mark(lines[1..], KindOf);
    }
  }

  lemma {:induction false} NothingJoined(lines: seq<string>, number: nat, start: nat)
    requires forall line <- lines :: !Continued(line)
    ensures Texts(JoinFrom(lines, number, "", start)) == lines
  {
    if lines != [] {
      NothingJoined(lines[1..], number + 1, number);
      assert "" + lines[0] == lines[0] && lines == [lines[0]] + lines[1..];
      assert JoinFrom(lines, number, "", start)[1..] == JoinFrom(lines[1..], number + 1, "", number);
    }
  }

  lemma {:induction false} WordsSpaced(names: seq<string>)
    requires forall name <- names :: name != "" && forall i :: 0 <= i < |name| ==> !IsSpace(name[i])
    ensures Words(Spaced(names)) == names
  {
    if names != [] {
      WordsSpaced(names[1..]);
      WordBefore(names[0], Spaced(names[1..]), "");
      var s := Spaced(names);
      assert s[1..] == names[0] + Spaced(names[1..]) && [] + WordsFrom(s[1..], "") == WordsFrom(s[1..], "");
      assert names == [names[0]] + names[1..] && "" + names[0] == names[0];
    }
  }

  // ---- the rule lines ----

  lemma RuleLineReads(name: string, after: string)
    requires name in REQUIRED_LEAVES && IsPlainList(after)
    ensures
      var line := RuleText(name, after);
      && LineOf(line, '\t') == Target(Rule([name], after)) && !Continued(line) && line[0] == 'r'
      && TargetsOf(line) == [name]
  {
    hide LineOf, ParseRule, WellFormed, HasSolidLiteral, Print;
    LeafNames();
    LineReads(name, after);
    LeafOf(name);
    assert Ordinary([name]) == [name] + Ordinary([]);
    var line := RuleText(name, after);
    assert line[|line| - 1] == after[|after| - 1] && line[0] == name[0];
    TargetLine(line);
  }

  lemma TargetLine(line: string)
    requires LineOf(line, '\t').Target?
    ensures ParseRule(line) == Some(LineOf(line, '\t').rule)
  {
  }

  /** A name with no blank and no comment mark in it. */
  predicate IsLeafName(name: string) {
    && IsName(name) && name[0] == 'r' && !IsSpecial(name)
    && forall i :: 0 <= i < |name| ==> !IsSpace(name[i]) && name[i] != '#'
  }

  lemma LeafNames()
    ensures forall name <- REQUIRED_LEAVES :: IsLeafName(name)
  {
    NameIsVisible("repo-setup");
    NameIsVisible("repo-validate");
    NameIsVisible("repo-check");
    NameIsVisible("repo-test");
  }

  lemma NameIsVisible(name: string)
    requires IsName(name)
    ensures forall i :: 0 <= i < |name| ==> !IsSpace(name[i]) && name[i] != '#'
  {
    forall i | 0 <= i < |name|
      ensures !IsSpace(name[i]) && name[i] != '#'
    {
      assert IsNameChar(name[i]);
    }
  }

  lemma RuleLineCredits(name: string, after: string, rest: seq<string>)
    requires name in REQUIRED_LEAVES && IsPlainList(after)
    ensures Credited(LineOf(RuleText(name, after), '\t'), START, rest) == {name}
  {
    RuleLineReads(name, after);
    LeafNames();
    LeafOf(name);
    var t :| WellFormed(t, false) && HasSolidLiteral(t, false) && Print(t) == after;
    Whole(after, ';');
    Whole(after, '#');
    NoBars(after);
    LiteralIsProven(t, MakeGrammar.End, map[], {});
    assert CreditsPrerequisites(Rule([name], after), map[]);
  }

  // ---- the whole file ----

  lemma {:induction false} RuleLinesAre(names: seq<string>, afters: seq<string>)
    requires |names| == |afters| && ArePlainLists(afters) && forall name <- names :: name in REQUIRED_LEAVES
    ensures forall line <- RuleLines(names, afters) :: line != "" && line[0] == 'r' && !Continued(line)
    ensures NamesOn(RuleLines(names, afters), TargetsOf) == set name | name in names
  {
    hide LineOf, TargetsOf, IsPlainList;
    if names != [] {
      var line, rest := RuleText(names[0], afters[0]), RuleLines(names[1..], afters[1..]);
      RuleLinesAre(names[1..], afters[1..]);
      RuleLineReads(names[0], afters[0]);
      assert names == [names[0]] + names[1..];
      assert ([line] + rest)[1..] == rest;
      assert (set n | n in [names[0]]) == {names[0]};
    }
  }

  lemma {:induction false} RuleLinesLeaves(names: seq<string>, afters: seq<string>, tail: seq<string>)
    requires |names| == |afters| && ArePlainLists(afters) && forall name <- names :: name in REQUIRED_LEAVES
    ensures Leaves(RuleLines(names, afters) + tail, START) == (set name | name in names) + Leaves(tail, START)
  {
    hide LineOf, Credited, TargetsOf, IsPlainList, Advance, RuleText, Leaves, Continued;
    var lines := RuleLines(names, afters);
    if names == [] {
      assert lines + tail == tail;
    } else {
      var line, rest := RuleText(names[0], afters[0]), RuleLines(names[1..], afters[1..]);
      RuleLinesLeaves(names[1..], afters[1..], tail);
      RuleLineReads(names[0], afters[0]);
      RuleLineCredits(names[0], afters[0], rest + tail);
      TargetKeepsScope(LineOf(line, '\t'));
      UncontinuedLeaves(line, rest + tail);
      assert names == [names[0]] + names[1..];
      assert lines + tail == [line] + (rest + tail);
    }
  }

  lemma TargetKeepsScope(line: Line)
    requires line.Target?
    ensures Advance(line, START) == START
  {
  }

  lemma UncontinuedLeaves(line: string, rest: seq<string>)
    requires !Continued(line)
    ensures Leaves([line] + rest, START)
         == Credited(LineOf(line, '\t'), START, rest) + Leaves(rest, Advance(LineOf(line, '\t'), START))
  {
    var lines := [line] + rest;
    assert lines[1..] == rest && lines[1 + 0..] == rest;
    LeavesCons(lines, START, line, 0);
  }

  lemma PhonyNames(names: string)
    requires names != "" && names[0] == ' ' && '#' !in names && !IsSpace(names[|names| - 1])
    ensures PhonyOf(RuleText(PHONY, names)) == Words(names)
  {
    hide Words, CutAt, RStrip, LStrip;
    var line := RuleText(PHONY, names);
    assert '#' !in PHONY && '#' !in line;
    Whole(line, '#');
    assert line[|line| - 1] == names[|names| - 1];
    RStripOf(line, "");
    assert line + "" == line;
    PhonyParsesNames(names);
  }

  lemma PhonyParsesNames(names: string)
    ensures ParsePhony(RuleText(PHONY, names)) == Some(Words(names))
  {
    hide Words, LStrip;
    var line, tail := RuleText(PHONY, names), ":" + names;
    assert line == PHONY + tail && line[|PHONY|..] == tail && StartsWith(line, PHONY);
    LStripOf("", tail);
    assert "" + tail == tail && tail[1..] == names && StartsWith(tail, ":");
  }

  lemma PhonyIsOneWord()
    ensures Words(PHONY) == [PHONY]
  {
    WordBefore(PHONY, "", "");
    assert PHONY + "" == PHONY && "" + PHONY == PHONY && WordsFrom("", "") == [];
  }

  lemma PhonyIsTarget(names: string)
    requires names != "" && names[0] == ' '
    ensures LineOf(RuleText(PHONY, names), '\t').Target? && TargetsOf(RuleText(PHONY, names)) == []
  {
    var line := RuleText(PHONY, names);
    assert line[0] == '.' && line[1] == 'P';
    assert Ordinary([PHONY]) == [] + Ordinary([PHONY][1..]);
    hide RuleText, Words, ParseRule, ParseAssignment, ParseRecipePrefix, ParseUndefine, CutAt;
    PhonyParses(names);
    PhonyIsOneWord();
    PhonyIsNoAssignment(line);
  }

  lemma PhonyLineReads()
    ensures
      var line := RuleText(PHONY, Spaced(REQUIRED_LEAVES));
      && PhonyOf(line) == REQUIRED_LEAVES && TargetsOf(line) == [] && !Continued(line)
      && LineOf(line, '\t').Target?
  {
    hide PhonyOf, TargetsOf, LineOf, Words;
    var names := Spaced(REQUIRED_LEAVES);
    var line := RuleText(PHONY, names);
    LeafNames();
    SpacedIsClean(REQUIRED_LEAVES);
    WordsSpaced(REQUIRED_LEAVES);
    assert names[0] == ' ';
    PhonyNames(names);
    PhonyIsTarget(names);
    assert line[|line| - 1] == names[|names| - 1];
    assert REQUIRED_LEAVES[3][|REQUIRED_LEAVES[3]| - 1] == 't';
  }

  lemma NotPrefix(s: string, word: string)
    requires s != "" && word != "" && s[0] != word[0]
    ensures !StartsWith(s, word)
  {
  }

  lemma PhonyIsNoAssignment(line: string)
    requires |line| > 1 && line[0] == '.' && line[1] == 'P'
    ensures ParseAssignment(line).None? && ParseRecipePrefix(line).None? && ParseUndefine(CutAt(line, '#')).None?
  {
    NotPrefix(line, "override");
    NotPrefix(line, "export");
    NotPrefix(line, "private");
    assert ".RECIPEPREFIX"[1] == 'R';
    var code := CutAt(line, '#');
    assert code[0] == '.';
    NotPrefix(code, "override");
    NotPrefix(code, "undefine");
  }

  lemma {:induction false} SpacedIsClean(names: seq<string>)
    requires names != []
    requires forall name <- names :: name != "" && forall i :: 0 <= i < |name| ==> !IsSpace(name[i]) && name[i] != '#'
    ensures '#' !in Spaced(names) && Spaced(names) != "" && !IsSpace(Spaced(names)[|Spaced(names)| - 1])
    ensures Spaced(names)[|Spaced(names)| - 1] == names[|names| - 1][|names[|names| - 1]| - 1]
  {
    assert names[0] in names;
    if |names| > 1 {
      SpacedIsClean(names[1..]);
    } else {
      assert Spaced(names[1..]) == "";
    }
  }

  lemma TemplateLines(afters: seq<string>)
    requires |afters| == |REQUIRED_LEAVES| && ArePlainLists(afters)
    ensures
      var lines := Template(afters);
      && (forall line <- lines :: line != "" && (line[0] == 'r' || line[0] == '.') && !Continued(line))
      && (forall leaf <- REQUIRED_LEAVES :: leaf in Leaves(lines, START) && leaf in NamesOn(lines, PhonyOf))
      && NamesOn(lines, TargetsOf) == set leaf | leaf in REQUIRED_LEAVES
  {
    hide LineOf, Credited, TargetsOf, PhonyOf, IsPlainList, Advance, NamesOn, Leaves, RuleLines, Spaced;
    var phony, rules := RuleText(PHONY, Spaced(REQUIRED_LEAVES)), RuleLines(REQUIRED_LEAVES, afters);
    RuleLinesAre(REQUIRED_LEAVES, afters);
    RuleLinesLeaves(REQUIRED_LEAVES, afters, []);
    assert rules + [] == rules;
    PhonyLineReads();
    assert phony[0] == '.';
    UncontinuedLeaves(phony, rules);
    TargetKeepsScope(LineOf(phony, '\t'));
    NamesOnCons(phony, rules, TargetsOf);
    NamesOnCons(phony, rules, PhonyOf);
  }

  lemma NamesOnCons(line: string, rest: seq<string>, of: string -> seq<string>)
    ensures NamesOn([line] + rest, of) == (set n | n in of(line)) + NamesOn(rest, of)
  {
    assert ([line] + rest)[1..] == rest;
  }

  /** Every file of this form is accepted: the checks do not refuse plain use, and the hypotheses of the
      theorems about accepted files are met by all of these. */
  lemma TemplateIsAdmitted(afters: seq<string>)
    requires |afters| == |REQUIRED_LEAVES| && ArePlainLists(afters)
    ensures Admitted(Template(afters)) && !EndsContinued(Template(afters))
    ensures forall leaf <- REQUIRED_LEAVES :: leaf in ImplementedIn(Projected(Template(afters)))
  {
    hide KindOf, Judge, Template, Leaves, NamesOn, ArePlainLists, TargetsOf, PhonyOf;
    var lines := Template(afters);
    TemplateLines(afters);
    forall line <- lines
      ensures KindOf(line) == Plain
    {
      OrdinaryLineIsPlain(line);
    }
    AllPlain(lines);
    NothingJoined(lines, 1, 0);
    assert lines != [] ==> lines[|lines| - 1] in lines;
    AcceptedIff(lines, lines);
    FacadeIsOther();
  }

  lemma FacadeIsOther()
    ensures (set leaf | leaf in REQUIRED_LEAVES) !! FACADE_TARGETS
  {
    LeafNames();
    assert forall target <- FACADE_TARGETS :: target[0] != 'r';
  }

  // ---- and it is in the fragment ----

  /** A rule line with well-bracketed prerequisites, no comment and no inline recipe. */
  ghost predicate IsSimpleLine(line: string) {
    && line != "" && (line[0] == 'r' || line[0] == '.') && '#' !in line && ';' !in line && !Continued(line)
    && IsPlainHead(line[..FirstMark(line)]) && PlainBlanks(line[..FirstMark(line)])
    && LineOf(line, '\t').Target? && !At(LineOf(line, '\t').rule.after, 0, ':')
    && Bracketed(Prerequisites(LineOf(line, '\t').rule))
  }

  lemma SimpleLineIsPlain(line: string, open: bool)
    requires IsSimpleLine(line)
    ensures IsPlainLine(line, '\t', open)
  {
    hide LineOf, Token, Bracketed, Prerequisites, IsPlainHead, PlainBlanks;
    assert forall i :: 0 <= i < |line| ==> line[i] in line;
    TokenBegins(line);
    NotDirective(Token(line));
  }

  lemma SimpleLineIsInFragment(line: string, v: View, strict: bool)
    requires IsSimpleLine(line) && v.scope == START
    ensures InFragment(line, v, strict) && Follow(line, v).scope == START
  {
    hide LineOf, Reads, IsPlainLine, Bracketed, Prerequisites, IsPlainHead, PlainBlanks;
    SimpleLineIsPlain(line, v.open);
  }

  // ---- rules whose targets begin with a reference ----

  lemma {:induction false} NothingStops(s: string, escaped: bool)
    requires '#' !in s
    ensures Stop(s, escaped, COMMENT) == |s|
    decreases |s|
  {
    if s != "" {
      var n := if s[0] == '$' then ReferenceSpan(s) else 1;
      assert s[0] in s && forall c <- s[n..] :: c in s;
      NothingStops(s[n..], if s[0] == '$' then s[n - 1] == '\\' else s[0] == '\\' && !escaped);
    }
  }

  lemma ReferencesCompute(line: string)
    requires line != "" && line[0] == '$'
    ensures RuleAt(line) == ComputedRule(line)
  {
    var stop := Stop(line, false, COMMENT_OR_RECIPE);
    var head := line[..stop];
    assert stop > 0 && head[0] == '$' && Skip(head) == head;
    var targets := head[..Stop(head, false, COLON)];
    assert targets[0] == '$' && targets[0] in targets;
  }

  lemma ReferenceIsNoDirective(word: string)
    requires word != "" && word[0] == '$'
    ensures word !in DIRECTIVES && word != "undefine"
  {
    assert forall directive <- DIRECTIVES :: directive[0] != '$';
  }

  /** A rule line that begins with a reference and has no comment and no `=` is in the fragment, wherever it stands. */
  lemma ReferenceRuleIsInFragment(line: string, v: View, strict: bool)
    requires line != "" && line[0] == '$' && '=' !in line && '#' !in line
    requires LineOf(line, v.scope.prefix).Target?
    ensures InFragment(line, v, strict)
  {
    hide LineOf, Stop, RuleAt, DefinitionOf, Token, IsPlainLine;
    RecipeIsPrefixed(line, v.scope.prefix);
    NothingStops(line, false);
    assert Uncommented(line) == line && Skip(line) == line;
    NoEqualsNoDefinition(line);
    TokenBegins(line);
    ReferenceIsNoDirective(Token(line));
    ReferencesCompute(line);
  }

  lemma {:induction false} SimpleLinesAreFragment(lines: seq<string>, v: View, strict: bool)
    requires (forall line <- lines :: IsSimpleLine(line)) && v.scope == START
    ensures Fragment(lines, v, strict)
  {
    hide InFragment, IsSimpleLine, Follow;
    if lines != [] {
      assert lines[0] in lines;
      SimpleLineIsInFragment(lines[0], v, strict);
      SimpleLinesAreFragment(lines[1..], Follow(lines[0], v), strict);
    }
  }

  /** Lines without continuations are visited one by one. */
  lemma {:induction false} EachVisited(lines: seq<string>)
    requires forall line <- lines :: !Continued(line)
    ensures Visited(lines) == lines
  {
    if lines != [] {
      EachVisited(lines[1..]);
      assert lines == [lines[0]] + lines[1..] && lines[1 + 0..] == lines[1..];
    }
  }

  lemma {:induction false} BehindUncontinued(lines: seq<string>, k: nat)
    requires (forall line <- lines :: !Continued(line)) && k < |lines| == |Visited(lines)|
    ensures Behind(lines, k) == lines[k + 1..]
    decreases k
  {
    assert lines[1 + 0..] == lines[1..];
    if k > 0 {
      EachVisited(lines[1..]);
      BehindUncontinued(lines[1..], k - 1);
    }
  }

  lemma SimpleLinesNeedNoRecipe(lines: seq<string>, k: nat)
    requires (forall line <- lines :: IsSimpleLine(line)) && k < |lines| && Visited(lines) == lines
    requires ScopeAfter(lines[..k], START) == START
    ensures RecipesAreSeen(lines, k)
  {
    hide LineOf, Bracketed, CreditsPrerequisites, IsSimpleLine, ScanRecipe, NonBlank, InlineRecipe, Visited, Behind;
    BehindUncontinued(lines, k) by {
      SimpleLinesEnd(lines);
    }
    assert IsSimpleLine(lines[k]);
    SimpleHasNoInline(lines[k]);
    SimpleIsNoRecipe(lines[k + 1..]);
  }

  lemma SimpleLinesEnd(lines: seq<string>)
    requires forall line <- lines :: IsSimpleLine(line)
    ensures forall line <- lines :: !Continued(line)
  {
  }

  lemma SimpleIsNoRecipe(lines: seq<string>)
    requires forall line <- lines :: IsSimpleLine(line)
    ensures !ScanRecipe(lines, '\t')
  {
    hide LineOf, Bracketed, IsPlainHead, PlainBlanks;
    if lines != [] {
      assert IsSimpleLine(lines[0]);
      assert !IsSpace(lines[0][0]) && LStrip(lines[0]) == lines[0];
    }
  }

  lemma SimpleHasNoInline(line: string)
    requires IsSimpleLine(line)
    ensures !NonBlank(InlineRecipe(LineOf(line, '\t').rule))
  {
    hide Bracketed, LStrip;
    var rule := LineOf(line, '\t').rule;
    TargetLine(line);
    var head, colons := MakeSyntax.RuleIsWritten(line);
    assert forall c <- rule.after :: c in line;
    Whole(rule.after, ';');
  }

  lemma {:induction false} SimpleLinesKeepScope(lines: seq<string>)
    requires forall line <- lines :: IsSimpleLine(line)
    ensures ScopeAfter(lines, START) == START
  {
    hide LineOf;
    if lines != [] {
      assert IsSimpleLine(lines[0]);
      SimpleLinesKeepScope(lines[1..]);
    }
  }

  lemma RuleHasNoMark(name: string, after: string, mark: char)
    requires IsName(name) && (mark == '#' || mark == ';') && mark !in after
    ensures mark !in RuleText(name, after)
  {
    forall c | c in name
      ensures c != mark
    {
      NameCharIsPlain(c);
    }
    assert forall c <- RuleText(name, after) :: c in name || c == ':' || c in after;
  }

  lemma PlainListHasNoMark(after: string)
    requires IsPlainList(after)
    ensures '#' !in after && ';' !in after && !At(after, 0, ':')
  {
  }

  lemma RuleLineIsSimple(name: string, after: string)
    requires name in REQUIRED_LEAVES && IsPlainList(after)
    ensures IsSimpleLine(RuleText(name, after))
  {
    hide LineOf, TargetsOf, RuleText, CutAt, IsPlainHead, PlainBlanks, IsName, IsSpecial;
    RuleLineReads(name, after);
    LeafNames();
    assert IsLeafName(name);
    NameIsNameChars(name);
    HeadOf(name, after);
    PlainListHasNoMark(after);
    Whole(after, ';');
    Whole(after, '#');
    RuleHasNoMark(name, after, '#');
    RuleHasNoMark(name, after, ';');
  }

  lemma NameIsNameChars(name: string)
    requires IsName(name)
    ensures name != "" && forall i :: 0 <= i < |name| ==> IsNameChar(name[i])
  {
  }

  predicate AreNames(s: string) { forall i :: 0 <= i < |s| ==> s[i] == ' ' || IsNameChar(s[i]) }

  lemma PhonyLineIsSimple()
    ensures IsSimpleLine(RuleText(PHONY, Spaced(REQUIRED_LEAVES)))
  {
    assert Spaced(REQUIRED_LEAVES)[0] == ' ';
    hide IsSimpleLine, Spaced;
    LeafNames();
    SpacedIsText(REQUIRED_LEAVES);
    NamesAreSimple(Spaced(REQUIRED_LEAVES));
  }

  lemma NamesArePlain(names: string)
    requires AreNames(names)
    ensures '$' !in names && (forall i :: 0 <= i < |PHONY| ==> IsNameChar(PHONY[i]))
  {
    assert forall c <- names :: c == ' ' || IsNameChar(c);
  }

  lemma PhonyLineIsPlain(names: string)
    requires names != "" && names[0] == ' ' && AreNames(names)
    ensures
      var line := RuleText(PHONY, names);
      line != "" && line[0] == '.' && '#' !in line && ';' !in line && !Continued(line)
  {
    var line := RuleText(PHONY, names);
    assert line[|line| - 1] == names[|names| - 1];
    assert forall c <- names :: c == ' ' || IsNameChar(c);
    assert forall c <- line :: c in PHONY || c == ':' || c in names;
  }

  lemma NamesAreSimple(names: string)
    requires names != "" && names[0] == ' ' && AreNames(names)
    ensures IsSimpleLine(RuleText(PHONY, names))
  {
    hide LineOf, TargetsOf, Prerequisites, Words, ParseRule, IsPlainHead, PlainBlanks, Bracketed, AreNames, RuleText;
    var line := RuleText(PHONY, names);
    NamesArePlain(names);
    PhonyIsTarget(names);
    PlainIsBracketed(names);
    PhonyPrerequisites(names);
    TargetLine(line);
    PhonyParses(names);
    HeadOf(PHONY, names);
    PhonyLineIsPlain(names);
  }

  lemma {:induction false} SpacedIsText(names: seq<string>)
    requires forall name <- names :: IsLeafName(name)
    ensures AreNames(Spaced(names))
  {
    if names != [] {
      assert IsLeafName(names[0]);
      SpacedIsText(names[1..]);
    }
  }

  lemma PhonyPrerequisites(names: string)
    requires names != "" && names[0] == ' ' && AreNames(names)
    requires LineOf(RuleText(PHONY, names), '\t').Target?
    ensures Prerequisites(LineOf(RuleText(PHONY, names), '\t').rule) == names
  {
    hide LineOf, ParseRule, Words, CutAt, AreNames;
    TargetLine(RuleText(PHONY, names));
    PhonyParses(names);
    WholeNames(names);
  }

  lemma PhonyParses(names: string)
    requires names != "" && names[0] == ' '
    ensures ParseRule(RuleText(PHONY, names)) == Some(Rule(Words(PHONY), names))
  {
    hide ParseRule, Words;
    MakeSyntax.RuleReads(PHONY, ":", names);
  }

  lemma WholeNames(names: string)
    requires AreNames(names)
    ensures CutAt(CutAt(names, ';'), '#') == names
  {
    assert forall i :: 0 <= i < |names| ==> names[i] != ';' && names[i] != '#';
    Whole(names, ';');
    Whole(names, '#');
  }

  lemma {:induction false} RuleLinesAreSimple(names: seq<string>, afters: seq<string>)
    requires |names| == |afters| && ArePlainLists(afters) && forall name <- names :: name in REQUIRED_LEAVES
    ensures forall line <- RuleLines(names, afters) :: IsSimpleLine(line)
  {
    hide IsSimpleLine, IsPlainList;
    if names != [] {
      RuleLineIsSimple(names[0], afters[0]);
      RuleLinesAreSimple(names[1..], afters[1..]);
    }
  }

  lemma SimpleLinesAreInScope(lines: seq<string>, strict: bool)
    requires forall line <- lines :: IsSimpleLine(line)
    ensures InScope(lines, strict)
  {
    hide LineOf, Fragment, RecipesAreSeen, IsPlainLine, IsSimpleLine, Visited, Slashes;
    SimpleLinesEnd(lines);
    forall line <- lines
      ensures Slashes(line) <= 1
    {
      NoSlash(line);
    }
    EachVisited(lines);
    SimpleLinesAreFragment(lines, BEGIN, strict);
    forall k | 0 <= k < |lines|
      ensures LeafRuleIsPlain(lines, k) && RecipesAreSeen(lines, k)
    {
      assert forall line <- lines[..k] :: line in lines;
      SimpleLinesKeepScope(lines[..k]);
      SimpleLineIsPlain(lines[k], false);
      SimpleLinesNeedNoRecipe(lines, k);
    }
  }

  /** Such a file lies in the scope of the theorem about accepted files. */
  lemma TemplateIsInScope(afters: seq<string>, strict: bool)
    requires |afters| == |REQUIRED_LEAVES| && ArePlainLists(afters)
    ensures InScope(Template(afters), strict)
  {
    hide IsSimpleLine, InScope, IsPlainList;
    PhonyLineIsSimple();
    RuleLinesAreSimple(REQUIRED_LEAVES, afters);
    SimpleLinesAreInScope(Template(afters), strict);
  }

  // ---- a file that a blank line makes unacceptable ----

  const SLASHED := "repo-test: \\"

  /** The template with a backslash for the last leaf's prerequisites. */
  function Slashed(afters: seq<string>): (lines: seq<string>)
    requires |afters| == 3
    ensures lines != []
  {
    [RuleText(PHONY, Spaced(REQUIRED_LEAVES))] + RuleLines(REQUIRED_LEAVES[..3], afters) + [SLASHED]
  }

  lemma SlashedLineNames()
    ensures Texts(Joined([SLASHED])) == [Unslash(SLASHED)] && TargetsOf(Unslash(SLASHED)) == ["repo-test"]
  {
    SlashedText();
    SlashedJoins(SLASHED);
    SlashedTargets();
  }

  lemma SlashedText()
    ensures Continued(SLASHED) && Unslash(SLASHED) == RuleText("repo-test", "  ")
  {
    assert SLASHED == "repo-test: \\";
  }

  lemma SlashedJoins(line: string)
    requires Continued(line)
    ensures Texts(Joined([line])) == [Unslash(line)]
  {
    hide Unslash;
    var closed := Unslash(line);
    assert [line][1..] == [] && "" + closed == closed;
    assert JoinFrom([line], 1, "", 0) == JoinFrom([], 2, closed, 1) == [Logical(1, closed)];
    assert [Logical(1, closed)][1..] == [];
  }

  lemma SlashedTargets()
    ensures TargetsOf(RuleText("repo-test", "  ")) == ["repo-test"]
  {
    hide LineOf, ParseRule, RuleText;
    assert IsName("repo-test") && "repo-test" == REQUIRED_LEAVES[3];
    LineReads("repo-test", "  ");
    TargetLine(RuleText("repo-test", "  "));
    LeafOf("repo-test");
    assert Ordinary(["repo-test"]) == ["repo-test"] + Ordinary(["repo-test"][1..]);
  }

  /** The lines in front of the last one. */
  lemma SlashedFront(afters: seq<string>)
    requires |afters| == 3 && ArePlainLists(afters)
    ensures
      var front := Slashed(afters)[..|Slashed(afters)| - 1];
      && Slashed(afters) == front + [SLASHED] && front != []
      && (forall line <- front :: line != "" && (line[0] == 'r' || line[0] == '.') && !Continued(line))
      && NamesOn(front, TargetsOf) == (set leaf | leaf in REQUIRED_LEAVES[..3])
      && (set leaf | leaf in REQUIRED_LEAVES) <= NamesOn(front, PhonyOf)
  {
    hide LineOf, TargetsOf, PhonyOf, IsPlainList, NamesOn, RuleLines, Spaced;
    var phony, rules := RuleText(PHONY, Spaced(REQUIRED_LEAVES)), RuleLines(REQUIRED_LEAVES[..3], afters);
    RuleLinesAre(REQUIRED_LEAVES[..3], afters);
    PhonyLineReads();
    assert phony[0] == '.';
    NamesOnCons(phony, rules, TargetsOf);
    NamesOnCons(phony, rules, PhonyOf);
    assert Slashed(afters)[..|Slashed(afters)| - 1] == [phony] + rules;
  }

  lemma SlashedLeaves(afters: seq<string>, tail: seq<string>)
    requires |afters| == 3 && ArePlainLists(afters)
    ensures
      var front := Slashed(afters)[..|Slashed(afters)| - 1];
      ImplementedIn(front + tail) == (set leaf | leaf in REQUIRED_LEAVES[..3]) + Leaves(tail, START)
  {
    hide LineOf, TargetsOf, PhonyOf, IsPlainList, NamesOn, RuleLines, Spaced, Credited, Leaves;
    var phony, rules := RuleText(PHONY, Spaced(REQUIRED_LEAVES)), RuleLines(REQUIRED_LEAVES[..3], afters);
    RuleLinesLeaves(REQUIRED_LEAVES[..3], afters, tail);
    PhonyLineReads();
    UncontinuedLeaves(phony, rules + tail);
    TargetKeepsScope(LineOf(phony, '\t'));
    PhonyIsUncredited(rules + tail);
    var front := Slashed(afters)[..|Slashed(afters)| - 1];
    assert front + tail == [phony] + (rules + tail);
  }

  lemma PhonyIsUncredited(rest: seq<string>)
    ensures Credited(LineOf(RuleText(PHONY, Spaced(REQUIRED_LEAVES)), '\t'), START, rest) == {}
  {
    hide LineOf, Words, CreditsPrerequisites, HasRecipe;
    var line := RuleText(PHONY, Spaced(REQUIRED_LEAVES));
    PhonyLineReads();
    TargetLine(line);
  }

  lemma {:induction false} PlainFront(lines: seq<string>)
    requires lines != [] && forall line <- lines :: line != "" && (line[0] == 'r' || line[0] == '.') && !Continued(line)
    ensures Texts(Joined(lines)) == lines && !EndsContinued(lines)
    ensures forall line <- lines :: KindOf(line) == Plain
  {
    hide KindOf;
    NothingJoined(lines, 1, 0);
    assert lines[|lines| - 1] in lines;
    forall line <- lines
      ensures KindOf(line) == Plain
    {
      OrdinaryLineIsPlain(line);
    }
  }

  lemma SlashedNames(afters: seq<string>)
    requires |afters| == 3 && ArePlainLists(afters)
    ensures
      var kept := Slashed(afters);
      && DeclaredIn(kept) == (set leaf | leaf in REQUIRED_LEAVES) == DeclaredIn(kept + [""])
      && (set leaf | leaf in REQUIRED_LEAVES) <= PhonyIn(kept)
  {
    hide TargetsOf, PhonyOf, ArePlainLists, NamesOn, Slashed, KindOf, JoinFrom;
    var kept := Slashed(afters);
    var front := kept[..|kept| - 1];
    SlashedFront(afters);
    PlainFront(front);
    SlashedLineNames();
    NamesGrow(front, [SLASHED], TargetsOf);
    NamesGrow(front, [SLASHED], PhonyOf);
    OneName(Unslash(SLASHED), "repo-test");
    BlankCloses(kept, 1, "", 0);
    assert REQUIRED_LEAVES == REQUIRED_LEAVES[..3] + ["repo-test"];
  }

  lemma OneName(line: string, name: string)
    requires TargetsOf(line) == [name]
    ensures NamesOn([line], TargetsOf) == {name}
  {
    assert [line][1..] == [];
  }

  /** A whole file: the template with `repo-test: \` and a blank line at its end is accepted and ends in no
      backslash, and with one more blank line it is not accepted. */
  lemma BlankLineLosesAcceptance(afters: seq<string>)
    requires |afters| == 3 && ArePlainLists(afters)
    ensures
      var file := Slashed(afters) + [""];
      && Admitted(file) && !EndsContinued(file) && !Admitted(file + [""])
      && HangsOnBackslash(DropLastBlank(Projected(file)))
  {
    hide TargetsOf, PhonyOf, ArePlainLists, NamesOn, Slashed, KindOf, Leaves, Judge, JoinFrom, HangsOnBackslash;
    var kept := Slashed(afters);
    var front, file := kept[..|kept| - 1], kept + [""];
    SlashedFront(afters);
    PlainFront(front);
    SlashedIsPlain(file, front);
    SlashedNames(afters);
    SlashedLeaves(afters, [SLASHED]);
    SlashedLeaves(afters, [SLASHED, ""]);
    TrailingBackslashIsCredited(SLASHED);
    assert front + [SLASHED, ""] == file;
    assert REQUIRED_LEAVES == REQUIRED_LEAVES[..3] + ["repo-test"];
    FacadeIsOther();
    AcceptedIff(file, kept);
    assert Admitted(file) && !EndsContinued(file);
    BlankLineProjects(file);
    AcceptedIff(file + [""], file);
    LastLeafIsNoOther();
    BlankKeepsLeavesIff(file);
  }

  lemma LastLeafIsNoOther()
    ensures "repo-test" !in REQUIRED_LEAVES[..3] && "repo-test" in REQUIRED_LEAVES
  {
    assert REQUIRED_LEAVES[..3] == ["repo-setup", "repo-validate", "repo-check"];
    assert "repo-setup"[5] == 's' && "repo-validate"[5] == 'v' && "repo-check"[5] == 'c' && "repo-test"[5] == 't';
    assert REQUIRED_LEAVES[3] == "repo-test";
  }

  lemma SlashedIsPlain(file: seq<string>, front: seq<string>)
    requires file == front + [SLASHED, ""] && forall line <- front :: KindOf(line) == Plain
    ensures Projected(file) == file
  {
    hide KindOf, Project, Mark;
    OrdinaryLineIsPlain(SLASHED);
    BlankIsPlain();
    AllPlain(file);
  }

  lemma BlankIsPlain()
    ensures KindOf("") == Plain
  {
    assert CutAt("", '#') == "" && Words("") == [];
  }
}
