/** The line recognisers of the analyser: each is one of its regular expressions, made deterministic. */
module MakeSyntax {
  import opened Strings
  import opened MakeVariables

  datatype Rule = Rule(names: seq<string>, after: string)
  datatype Assignment = Assignment(name: string, op: Operator, value: string)

  /** The index of the first `:`, `=` or `#`. */
  function FirstMark(s: string): (n: nat)
    ensures n <= |s|
    ensures n < |s| ==> s[n] == ':' || s[n] == '=' || s[n] == '#'
  {
    if s == "" || s[0] == ':' || s[0] == '=' || s[0] == '#' then 0 else 1 + FirstMark(s[1..])
  }

  predicate At(s: string, i: nat, c: char) { i < |s| && s[i] == c }

  /** A rule: text, then a `:` or `::` that does not begin an assignment, before any `=` or `#`.
      The index behind its colons, or 0 when the line is no rule. */
  function RuleEnd(line: string): (end: nat)
    ensures end <= |line|
  {
    var n := FirstMark(line);
    if n == 0 || IsSpace(line[0]) || Colons(line[n..]) == 0 then 0 else n + Colons(line[n..])
  }

  /** How many of the colons at the front of `s` end a target list. */
  function Colons(s: string): (n: nat)
    ensures n <= |s|
  {
    if !At(s, 0, ':') then 0
    else if At(s, 1, ':') then if At(s, 2, '=') then 0 else 2
    else if At(s, 1, '=') then 0 else 1
  }

  function ParseRule(line: string): Option<Rule> {
    if RuleEnd(line) == 0 then None
    else Some(Rule(Words(line[..FirstMark(line)]), line[RuleEnd(line)..]))
  }

  function NameLength(s: string): (n: nat)
    ensures n <= |s|
  {
    if s == "" || !IsNameStart(s[0]) then 0 else 1 + NameRun(s[1..])
  }

  function NameRun(s: string): (n: nat)
    ensures n <= |s|
  {
    if s == "" || !IsNameChar(s[0]) then 0 else 1 + NameRun(s[1..])
  }

  /** An assignment operator and the text behind it. */
  function ParseOperator(s: string): Option<(Operator, string)> {
    if At(s, 0, '=') then Some((Recursive, s[1..]))
    else if At(s, 1, '=') && s[0] == ':' then Some((Simple, s[2..]))
    else if At(s, 1, '=') && s[0] == '+' then Some((Append, s[2..]))
    else if At(s, 1, '=') && s[0] == '?' then Some((Default, s[2..]))
    else if At(s, 1, '=') && s[0] == '!' then Some((Shell, s[2..]))
    else if At(s, 2, '=') && s[0] == ':' && s[1] == ':' then Some((Simple, s[3..]))
    else if At(s, 3, '=') && s[0] == ':' && s[1] == ':' && s[2] == ':' then Some((Posix, s[4..]))
    else None
  }

  /** `NAME op value`, with nothing before the name. */
  function ParseBareAssignment(s: string): Option<Assignment> {
    var n := NameLength(s);
    var op := ParseOperator(LStrip(s[n..]));
    if n == 0 || op.None? then None
    else Some(Assignment(s[..n], op.value.0, LStrip(op.value.1)))
  }

  /** The text after a leading modifier word and the whitespace that follows it. */
  function AfterWord(s: string, word: string): (r: Option<string>)
    requires word != ""
    ensures r.Some? ==> |r.value| < |s|
  {
    if StartsWith(s, word) && |word| < |s| && IsSpace(s[|word|]) then Some(LStrip(s[|word|..])) else None
  }

  function AfterModifier(s: string): (r: Option<string>)
    ensures r.Some? ==> |r.value| < |s|
  {
    if AfterWord(s, "override").Some? then AfterWord(s, "override")
    else if AfterWord(s, "export").Some? then AfterWord(s, "export")
    else AfterWord(s, "private")
  }

  /** As many modifiers as possible; the last one is the name itself if nothing else fits. */
  function ParseAssignment(s: string): Option<Assignment>
    decreases |s|
  {
    var rest := AfterModifier(s);
    var inner := if rest.Some? then ParseAssignment(rest.value) else None;
    if inner.Some? then inner else ParseBareAssignment(s)
  }

  /** `undefine NAME`, optionally behind `override`, and nothing else. */
  function ParseUndefine(s: string): Option<string> {
    var over := AfterWord(s, "override");
    var rest := AfterWord(if over.Some? then over.value else s, "undefine");
    if rest.None? then None else
    var n := NameLength(rest.value);
    if n == 0 || NonBlank(rest.value[n..]) then None else Some(rest.value[..n])
  }

  /** The operator and the value given to `.RECIPEPREFIX`; `:::=` is not one of the operators seen here. */
  function ParseRecipePrefix(line: string): Option<(Operator, string)> {
    if !StartsWith(line, ".RECIPEPREFIX") then None else
    var op := ParseOperator(LStrip(line[|".RECIPEPREFIX"|..]));
    if op.None? || op.value.0 == Posix then None else Some((op.value.0, LStrip(op.value.1)))
  }

  /** The recipe prefix after a `.RECIPEPREFIX` line: its first character, or a tab if it is empty. */
  function PrefixFrom(value: string): char {
    var v := LStrip(CutAt(value, '#'));
    if v == "" then '\t' else v[0]
  }

  /** The names a `.PHONY` line gives, on a line already without its comment. */
  function ParsePhony(line: string): Option<seq<string>> {
    if !StartsWith(line, ".PHONY") then None else
    var s := LStrip(line[|".PHONY"|..]);
    if StartsWith(s, ":") then Some(Words(s[1..])) else None
  }

  /** What a logical line is to the leaf scan, in the order it tests. */
  datatype Line =
    | Recipe
    | PrefixChange(op: Operator, value: string)
    | Variable(assignment: Assignment)
    | Undefine(name: string)
    | Target(rule: Rule)
    | Other

  function LineOf(logical: string, prefix: char): Line {
    if logical != "" && logical[0] == prefix then Recipe
    else if ParseRecipePrefix(logical).Some? then
      var (op, value) := ParseRecipePrefix(logical).value;
      PrefixChange(op, value)
    else if ParseAssignment(logical).Some? then
      var a := ParseAssignment(logical).value;
      Variable(a.(value := CutAt(a.value, '#')))
    else if ParseUndefine(CutAt(logical, '#')).Some? then Undefine(ParseUndefine(CutAt(logical, '#')).value)
    else if ParseRule(logical).Some? then Target(ParseRule(logical).value)
    else Other
  }

  /** What the scan carries from line to line: the recipe prefix and the variables. */
  datatype Scope = Scope(prefix: char, vars: Variables)

  const START := Scope('\t', map[])

  function Advance(line: Line, s: Scope): Scope {
    match line
    case PrefixChange(_, value) => s.(prefix := PrefixFrom(value))
    case Variable(a) => s.(vars := Recorded(s.vars, a.name, a.op, a.value))
    case Undefine(name) => s.(vars := s.vars - {name})
    case _ => s
  }

  /** The prerequisites of a rule as written: up to an inline recipe and up to a comment. */
  function Prerequisites(rule: Rule): string {
    CutAt(CutAt(rule.after, ';'), '#')
  }

  /** The text of an inline recipe, after the first `;`. */
  function InlineRecipe(rule: Rule): string {
    var n := |CutAt(rule.after, ';')|;
    if n < |rule.after| then rule.after[n + 1..] else ""
  }

  /** `text.replace("|", " ")`. */
  function SpaceBars(text: string): (r: string)
    ensures |r| == |text|
  {
    if text == "" then "" else [if text[0] == '|' then ' ' else text[0]] + SpaceBars(text[1..])
  }

  lemma {:induction false} NoBars(s: string)
    requires '|' !in s
    ensures SpaceBars(s) == s
  {
    if s != "" {
      NoBars(s[1..]);
    }
  }

  /** Whether the prerequisites of a rule are credited as an implementation. */
  predicate CreditsPrerequisites(rule: Rule, vars: Variables) {
    '=' !in Prerequisites(rule) && Proven(SpaceBars(Prerequisites(rule)), vars, {}) != []
  }

  /** The operator of an assignment stops a rule from being seen, unless it is `:::=`. */
  lemma OperatorMark(s: string)
    requires ParseOperator(s).Some?
    ensures Colons(s[FirstMark(s)..]) == if ParseOperator(s).value.0 == Posix then 2 else 0
  {
    var tail := s[FirstMark(s)..];
    assert FirstMark(s) <= 1 && forall i :: 0 <= i < |tail| ==> tail[i] == s[FirstMark(s) + i];
  }

  /** A bare assignment reads as a rule exactly when its operator is `:::=`, whose first two colons
      pass for those of a double-colon rule. */
  lemma AssignmentOrRule(line: string)
    requires ParseBareAssignment(line).Some?
    ensures RuleEnd(line) > 0 <==> ParseBareAssignment(line).value.op == Posix
  {
    var rest := LStrip(line[NameLength(line)..]);
    MarksAfterName(line);
    OperatorMark(rest);
    assert line[|line| - |rest|..][FirstMark(rest)..] == line[FirstMark(line)..];
  }

  lemma {:induction false} MarksAfterName(line: string)
    ensures
      var n := NameLength(line);
      var rest := LStrip(line[n..]);
      && n <= |line| - |rest|
      && FirstMark(line) == |line| - |rest| + FirstMark(rest)
      && line[|line| - |rest|..] == rest
  {
    var n := NameLength(line);
    NameRunHasNoMark(if n == 0 then "" else line[1..]);
    if n > 0 {
      SkipNoMark(line, n);
    }
    SpaceHasNoMark(line[n..]);
    assert line[n..][|line[n..]| - |LStrip(line[n..])|..] == line[|line| - |LStrip(line[n..])|..];
  }

  lemma {:induction false} NameRunHasNoMark(s: string)
    ensures forall i :: 0 <= i < NameRun(s) ==> s[i] != ':' && s[i] != '=' && s[i] != '#'
  {
    if s != "" && IsNameChar(s[0]) {
      NameRunHasNoMark(s[1..]);
      forall i | 0 <= i < NameRun(s) ensures s[i] != ':' && s[i] != '=' && s[i] != '#' {
        if i > 0 {
          assert s[i] == s[1..][i - 1];
        }
      }
    }
  }

  lemma {:induction false} SkipNoMark(s: string, n: nat)
    requires n <= |s| && forall i :: 0 <= i < n ==> s[i] != ':' && s[i] != '=' && s[i] != '#'
    ensures FirstMark(s) == n + FirstMark(s[n..])
  {
    if n > 0 {
      assert s[1..][n - 1..] == s[n..];
      SkipNoMark(s[1..], n - 1);
    }
  }

  lemma {:induction false} SpaceHasNoMark(s: string)
    ensures
      var rest := LStrip(s);
      && FirstMark(s) == |s| - |rest| + FirstMark(rest)
      && s[|s| - |rest|..] == rest
  {
    if s != "" && IsSpace(s[0]) {
      SpaceHasNoMark(s[1..]);
      assert s[1..][|s| - 1 - |LStrip(s)|..] == s[|s| - |LStrip(s)|..];
    }
  }

  // ---- the recognisers and what they recognise ----

  /** The ways an operator is written. */
  function OperatorTexts(op: Operator): set<string> {
    match op
    case Recursive => {"="}
    case Simple => {":=", "::="}
    case Posix => {":::="}
    case Append => {"+="}
    case Default => {"?="}
    case Shell => {"!="}
  }

  lemma {:induction false} NameRunOf(run: string, tail: string)
    requires (forall i :: 0 <= i < |run| ==> IsNameChar(run[i])) && (tail == "" || !IsNameChar(tail[0]))
    ensures NameRun(run + tail) == |run|
  {
    if run == "" {
      assert run + tail == tail;
    } else {
      assert (run + tail)[1..] == run[1..] + tail;
      NameRunOf(run[1..], tail);
    }
  }

  lemma OperatorReads(op: Operator, text: string, rest: string)
    requires text in OperatorTexts(op)
    ensures ParseOperator(text + rest) == Some((op, rest)) && text != "" && !IsNameChar(text[0]) && !IsSpace(text[0])
  {
    var s := text + rest;
    assert s[|text|..] == rest && forall i :: 0 <= i < |text| ==> s[i] == text[i];
  }

  /** A name, an operator and a value, with blanks between them, read as that assignment ... */
  lemma AssignmentReads(name: string, gap: string, op: Operator, text: string, space: string, value: string)
    requires IsName(name) && AllSpace(gap) && AllSpace(space) && text in OperatorTexts(op)
    requires value == "" || !IsSpace(value[0])
    ensures ParseBareAssignment(name + (gap + (text + (space + value)))) == Some(Assignment(name, op, value))
  {
    var behind := space + value;
    OperatorReads(op, text, behind);
    var tail := gap + (text + behind);
    var s := name + tail;
    assert s[1..] == name[1..] + tail;
    assert tail[0] == if gap == "" then text[0] else gap[0];
    NameRunOf(name[1..], tail);
    assert s[|name|..] == tail && s[..|name|] == name;
    LStripOf(gap, text + behind);
    LStripOf(space, value);
  }

  lemma OperatorWritten(s: string) returns (text: string)
    requires ParseOperator(s).Some?
    ensures text in OperatorTexts(ParseOperator(s).value.0) && s == text + ParseOperator(s).value.1
  {
    if At(s, 0, '=') {
      text := "=";
    } else if At(s, 1, '=') {
      text := match s[0] case ':' => ":=" case '+' => "+=" case '?' => "?=" case _ => "!=";
    } else if At(s, 2, '=') && s[0] == ':' && s[1] == ':' {
      text := "::=";
    } else {
      text := ":::=";
    }
    assert forall i :: 0 <= i < |text| ==> s[i] == text[i];
    assert s == s[..|text|] + s[|text|..] && s[..|text|] == text;
  }

  lemma {:induction false} NameRunIsName(s: string)
    ensures forall i :: 0 <= i < NameRun(s) ==> IsNameChar(s[i])
  {
    if s != "" && IsNameChar(s[0]) {
      NameRunIsName(s[1..]);
      forall i | 0 <= i < NameRun(s)
        ensures IsNameChar(s[i])
      {
        assert i > 0 ==> s[i] == s[1..][i - 1];
      }
    }
  }

  /** ... and nothing else reads as an assignment. */
  lemma AssignmentIsWritten(line: string) returns (gap: string, text: string, space: string)
    requires ParseBareAssignment(line).Some?
    ensures
      var a := ParseBareAssignment(line).value;
      && IsName(a.name) && AllSpace(gap) && AllSpace(space) && text in OperatorTexts(a.op)
      && (a.value == "" || !IsSpace(a.value[0]))
      && line == a.name + (gap + (text + (space + a.value)))
  {
    var n := NameLength(line);
    NameRunIsName(line[1..]);
    forall i | 0 <= i < n
      ensures IsNameChar(line[i])
    {
      assert i > 0 ==> line[i] == line[1..][i - 1];
    }
    gap := LStripped(line[n..]);
    text := OperatorWritten(LStrip(line[n..]));
    space := LStripped(ParseOperator(LStrip(line[n..])).value.1);
    assert line == line[..n] + line[n..];
  }

  predicate IsTargetList(s: string) {
    s != "" && !IsSpace(s[0]) && forall i :: 0 <= i < |s| ==> s[i] != ':' && s[i] != '=' && s[i] != '#'
  }

  /** A single colon not in front of `:` or `=`, or a double one not in front of `=`. */
  predicate EndsTargets(colons: string, after: string) {
    (colons == ":" && !At(after, 0, ':') && !At(after, 0, '=')) || (colons == "::" && !At(after, 0, '='))
  }

  /** A target list, colons that do not begin an assignment, and the rest read as that rule ... */
  lemma RuleReads(targets: string, colons: string, after: string)
    requires IsTargetList(targets) && EndsTargets(colons, after)
    ensures ParseRule(targets + (colons + after)) == Some(Rule(Words(targets), after))
  {
    var line := targets + (colons + after);
    assert forall i :: 0 <= i < |targets| ==> line[i] == targets[i];
    assert line[..|targets|] == targets && line[|targets|..] == colons + after;
    SkipNoMark(line, |targets|);
    assert Colons(colons + after) == |colons| && FirstMark(colons + after) == 0;
    assert line[|targets| + |colons|..] == after;
  }

  /** ... and nothing else reads as a rule. */
  lemma RuleIsWritten(line: string) returns (targets: string, colons: string)
    requires ParseRule(line).Some?
    ensures IsTargetList(targets) && EndsTargets(colons, ParseRule(line).value.after)
    ensures ParseRule(line).value.names == Words(targets) && line == targets + (colons + ParseRule(line).value.after)
  {
    hide Words, Colons;
    var n := FirstMark(line);
    var k := Colons(line[n..]);
    NoMarkBefore(line);
    ColonsWritten(line[n..]);
    targets, colons := line[..n], line[n..][..k];
    assert line[n..][k..] == line[n + k..];
  }

  lemma ColonsWritten(s: string)
    requires Colons(s) > 0
    ensures EndsTargets(s[..Colons(s)], s[Colons(s)..])
  {
    var k := Colons(s);
    assert s[..k] == if k == 1 then ":" else "::";
    assert forall i :: 0 <= i < |s| - k ==> s[k..][i] == s[k + i];
  }

  lemma {:induction false} NoMarkBefore(s: string)
    ensures forall i :: 0 <= i < FirstMark(s) ==> s[i] != ':' && s[i] != '=' && s[i] != '#'
  {
    if s != "" && s[0] != ':' && s[0] != '=' && s[0] != '#' {
      NoMarkBefore(s[1..]);
      forall i | 0 <= i < FirstMark(s)
        ensures s[i] != ':' && s[i] != '=' && s[i] != '#'
      {
        assert i > 0 ==> s[i] == s[1..][i - 1];
      }
    }
  }
}
