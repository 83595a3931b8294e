/** When the recipe that earns a rule its credit is a recipe to Make as well. */
module RepoMkRecipes {
  import opened Strings
  import opened MakeLines
  import opened MakeSyntax
  import opened MakeGrammar
  import opened MakeFile
  import opened MakeAgreement
  import opened RepoMk

  // ---- inline recipes ----

  /** The code takes what stands behind the first `;` for a recipe. To Make it is one exactly if no comment begins
      in front of it and no assignment to a variable of the target stands there. */
  lemma InlineRecipeIff(line: string, prefix: char, open: bool)
    requires IsPlainLine(line, prefix, open) && LineOf(line, prefix).Target?
    ensures
      var reading, rule := Reads(line, prefix, open), LineOf(line, prefix).rule;
      && (reading.RuleLine? <==> !IsTargetVariable(Prerequisites(rule)))
      && (reading.RuleLine? && ';' in rule.after ==>
            reading.recipe == if '#' in CutAt(rule.after, ';') then None else Some(InlineRecipe(rule)))
      && (reading.RuleLine? && ';' !in rule.after ==> reading.recipe == None)
  {
    hide LineOf, Reads, IsTargetVariable;
    ReadAlike(line, prefix, open);
    var rule := LineOf(line, prefix).rule;
    var q := CutAt(rule.after, ';');
    assert ';' in rule.after <==> |q| < |rule.after|;
    PrerequisitesEnd(rule.after);
    if '#' !in q {
      Whole(q, '#');
    }
  }

  // ---- recipe lines ----

  /** Where the scan stops with success. */
  function FirstRecipe(rest: seq<string>, prefix: char): (m: nat)
    requires ScanRecipe(rest, prefix)
    ensures m < |rest|
  {
    if IsRecipe(rest[0], prefix) then 0 else 1 + FirstRecipe(rest[1..], prefix)
  }

  predicate IsRecipe(line: string, prefix: char) { line != "" && line[0] == prefix && NonBlank(line[1..]) }

  /** The logical line that begins with `front` and the first of `lines`. */
  function FirstLogical(front: string, lines: seq<string>): string
    decreases |lines|
  {
    if lines == [] then front
    else if Escapes(lines[0]) then FirstLogical(front + Unescaped(lines[0]), lines[1..])
    else front + lines[0]
  }

  function Tail(s: string): string { if s == "" then "" else s[1..] }

  lemma {:induction false} GatheredBegins(lines: seq<string>, number: nat, front: string, start: nat)
    requires lines != []
    ensures
      var all := GatheredFrom(lines, number, front, start);
      && all != [] && all[0] == Logical(if front == "" then number else start, FirstLogical(front, lines))
      && forall i :: 0 < i < |all| ==> all[i].start > number
    decreases |lines|
  {
    var first := if front == "" then number else start;
    if Escapes(lines[0]) {
      if |lines| > 1 {
        GatheredBegins(lines[1..], number + 1, front + Unescaped(lines[0]), first);
      }
    } else if |lines| > 1 {
      GatheredBegins(lines[1..], number + 1, "", first);
    }
  }

  lemma {:induction false} RecipeAbove(lines: seq<Logical>, prefix: char, low: nat)
    requires forall i :: 0 <= i < |lines| ==> lines[i].start > low
    ensures forall l <- RecipeOf(lines, prefix) :: l.start > low
  {
    hide Reads;
    if lines != [] {
      RecipeAbove(lines[1..], prefix, low);
    }
  }

  lemma {:induction false} FirstLogicalStarts(front: string, lines: seq<string>)
    ensures front <= FirstLogical(front, lines)
    decreases |lines|
  {
    if lines != [] && Escapes(lines[0]) {
      FirstLogicalStarts(front + Unescaped(lines[0]), lines[1..]);
    }
  }

  lemma {:induction false} SlashesBehind(line: string, i: nat)
    requires i < |line| && line[i] != '\\'
    ensures Slashes(line) <= |line| - 1 - i
  {
    if Continued(line) {
      SlashesBehind(line[..|line| - 1], i);
    }
  }

  // ---- lines between the rule and its recipe ----

  predicate IsComment(s: string, prefix: char) {
    s != "" && s[0] != prefix && Skip(s) != "" && Skip(s)[0] == '#'
  }

  lemma CommentStays(s: string, n: nat, tail: string, prefix: char) returns (space: string)
    requires IsComment(s, prefix) && |s| - |Skip(s)| < n <= |s|
    ensures IsComment(s[..n] + tail, prefix)
  {
    space := Skipped(s);
    var y := Skip(s);
    assert s[..n] + tail == space + (y[..n - |space|] + tail);
    SkipOf(space, y[..n - |space|] + tail);
    assert (s[..n] + tail)[0] == s[0];
  }

  lemma CommentContinues(s: string, prefix: char)
    requires IsComment(s, prefix)
    ensures IsComment(Unescaped(s), prefix)
  {
    var space := Skipped(s);
    assert s[|space|] == '#';
    SlashesBehind(s, |space|);
    var _ := CommentStays(s, |s| - (Slashes(s) + 1) / 2, " ", prefix);
  }

  lemma CommentExtends(s: string, tail: string, prefix: char)
    requires IsComment(s, prefix)
    ensures IsComment(s + tail, prefix)
  {
    var _ := CommentStays(s, |s|, tail, prefix);
    assert s[..|s|] == s;
  }

  lemma CommentReads(s: string, prefix: char)
    requires IsComment(s, prefix)
    ensures Reads(s, prefix, true) == BlankLine
  {
    var space := Skipped(s);
    var y := Skip(s);
    PlainIsBracketed(space);
    StopsAt(space, y, COMMENT);
    assert s == space + y && s[..|space|] == space;
    SkipNothing(space);
  }

  lemma SpaceReads(s: string, prefix: char)
    requires Skip(s) == "" && (s == "" || s[0] != prefix)
    ensures Reads(s, prefix, true) == BlankLine
  {
    var space := Skipped(s);
    assert space == s;
    assert forall i :: 0 <= i < |CutAt(s, '#')| ==> CutAt(s, '#')[i] == s[i];
    BlankReads(s, prefix, true);
  }

  /** A line the scan passes over. */
  predicate IsSkipped(line: string, prefix: char) {
    if line != "" && line[0] == prefix then !NonBlank(line[1..]) else !NonBlank(line) || StartsWith(LStrip(line), "#")
  }

  lemma ScanSkips(rest: seq<string>, prefix: char)
    requires ScanRecipe(rest, prefix) && !IsRecipe(rest[0], prefix)
    ensures IsSkipped(rest[0], prefix) && ScanRecipe(rest[1..], prefix)
  {
  }

  lemma LStripKeeps(s: string)
    ensures NonBlank(s) <==> LStrip(s) != ""
  {
    var space := LStripped(s);
    if LStrip(s) != "" {
      assert !IsSpace(s[|space|]);
    }
  }

  /** Make passes over the line as well. */
  predicate Passes(line: string, prefix: char) {
    (line != "" && line[0] == prefix) || Skip(line) == "" || Skip(line)[0] == '#'
  }

  lemma SkippedKinds(line: string, prefix: char)
    requires IsSkipped(line, prefix) && Passes(line, prefix) && prefix != '\\'
    ensures Escapes(line) ==> IsComment(line, prefix)
    ensures !(line != "" && line[0] == prefix) ==> Reads(line, prefix, true) == BlankLine
  {
    if line != "" && line[0] == prefix {
      assert |line| > 1 ==> line[1..][|line| - 2] == line[|line| - 1];
    } else if Skip(line) == "" {
      SpaceReads(line, prefix);
      var space := Skipped(line);
      assert line != "" ==> IsSpacing(line[|line| - 1]);
    } else {
      CommentReads(line, prefix);
    }
  }

  /** What stands in front of a line that only the analyser passes over. */
  lemma OddLead(line: string, prefix: char) returns (lead: string)
    requires IsSkipped(line, prefix) && !Passes(line, prefix)
    ensures lead != "" && lead <= line && AllSpacing(lead[..|lead| - 1])
    ensures IsSpace(lead[|lead| - 1]) && !IsSpacing(lead[|lead| - 1])
  {
    var space := Skipped(line);
    var blanks := LStripped(line);
    assert line[|space|] == Skip(line)[0];
    if LStrip(line) != "" {
      LStripKeeps(line);
      assert line[|blanks|] == LStrip(line)[0] == '#';
      assert forall i :: 0 <= i < |space| ==> line[i] != '#';
    }
    lead := line[..|space| + 1];
    assert lead[|space|] == blanks[|space|];
    assert lead[..|space|] == space;
  }

  lemma OddReads(lead: string, rest: string, prefix: char)
    requires lead != "" && AllSpacing(lead[..|lead| - 1]) && lead[0] != prefix
    requires IsSpace(lead[|lead| - 1]) && !IsSpacing(lead[|lead| - 1])
    ensures !Reads(lead + rest, prefix, true).BlankLine? && !Reads(lead + rest, prefix, true).RecipeLine?
  {
    hide Stop, RuleAt, DefinitionOf, Token, Skip;
    var space, line := lead[..|lead| - 1], lead + rest;
    assert forall i :: 0 <= i < |lead| - 1 ==> lead[i] == space[i];
    assert forall c <- lead :: IsSpace(c);
    LiteralsText(lead, false);
    var e := StopBehind(Literals(lead), rest, false, COMMENT);
    var y := Uncommented(line)[|space|..];
    assert y[0] == lead[|lead| - 1] && Uncommented(line) == space + y;
    SkipOf(space, y);
    assert line[0] == lead[0];
    DefinitionIsAssignment(Skip(Uncommented(line)));
    RuleIsNoRecipe(line);
  }

  lemma DefinitionIsAssignment(s: string)
    ensures DefinitionOf(s).Some? ==> DefinitionOf(s).value.AssignmentLine?
  {
  }

  lemma RuleIsNoRecipe(line: string)
    ensures !RuleAt(line).BlankLine? && !RuleAt(line).RecipeLine?
  {
  }

  lemma OddLogical(lines: seq<string>, prefix: char)
    requires lines != [] && IsSkipped(lines[0], prefix) && !Passes(lines[0], prefix)
    ensures
      var reading := Reads(FirstLogical("", lines), prefix, true);
      !reading.BlankLine? && !reading.RecipeLine?
  {
    hide Reads, Slashes, IsSkipped;
    var line := lines[0];
    var lead := OddLead(line, prefix);
    assert line[|lead| - 1] == lead[|lead| - 1] != '\\';
    SlashesBehind(line, |lead| - 1);
    var front := if Escapes(line) then Unescaped(line) else line;
    assert "" + front == front && lead <= front;
    FirstLogicalStarts(front, lines[1..]);
    var logical := FirstLogical("", lines);
    assert logical == lead + logical[|lead|..];
    OddReads(lead, logical[|lead|..], prefix);
  }

  /** A line that Make does not pass over ends its search. */
  lemma OddLine(lines: seq<string>, number: nat, start: nat, prefix: char)
    requires lines != [] && IsSkipped(lines[0], prefix) && !Passes(lines[0], prefix)
    ensures RecipeOf(GatheredFrom(lines, number, "", start), prefix) == []
  {
    hide Reads, IsSkipped, Passes, GatheredFrom, FirstLogical;
    GatheredBegins(lines, number, "", start);
    OddLogical(lines, prefix);
  }

  /** The line is the start of a logical line: no comment in front is continued onto it. */
  predicate StartsLogical(lines: seq<string>, front: string, m: nat)
    requires m < |lines|
  {
    if m == 0 then front == "" else !Escapes(lines[m - 1])
  }

  /** Make takes line `m` as a recipe line, once and with this text, if it starts a logical line, and not at all
      otherwise. */
  ghost predicate TakesLine(all: seq<Logical>, number: nat, starts: bool, text: string) {
    && (starts ==> Logical(number, text) in all)
    && forall l <- all :: l.start == number ==> starts && l.text == text
  }

  /** Every line in front of line `m` that starts a logical line is one that Make passes over. */
  predicate PassesUpTo(lines: seq<string>, front: string, m: nat, prefix: char)
    requires m <= |lines|
  {
    forall i :: 0 <= i < m && StartsLogical(lines, front, i) ==> Passes(lines[i], prefix)
  }

  lemma PassesStep(lines: seq<string>, front: string, next: string, m: nat, prefix: char)
    requires 0 < m <= |lines| && (next == "" <==> !Escapes(lines[0]))
    ensures PassesUpTo(lines, front, m, prefix) <==>
      (front == "" ==> Passes(lines[0], prefix)) && PassesUpTo(lines[1..], next, m - 1, prefix)
    ensures m < |lines| ==> (StartsLogical(lines, front, m) <==> StartsLogical(lines[1..], next, m - 1))
  {
    hide Passes, Escapes;
    var rest := lines[1..];
    forall i | 0 < i < |lines|
      ensures StartsLogical(lines, front, i) <==> StartsLogical(rest, next, i - 1)
    {
      assert i > 1 ==> rest[i - 2] == lines[i - 1];
    }
    if PassesUpTo(rest, next, m - 1, prefix) && (front == "" ==> Passes(lines[0], prefix)) {
      forall i | 0 <= i < m && StartsLogical(lines, front, i)
        ensures Passes(lines[i], prefix)
      {
        assert i > 0 ==> StartsLogical(rest, next, i - 1) && rest[i - 1] == lines[i];
      }
    }
    if PassesUpTo(lines, front, m, prefix) {
      forall i | 0 <= i < m - 1 && StartsLogical(rest, next, i)
        ensures Passes(rest[i], prefix)
      {
        assert StartsLogical(lines, front, i + 1) && rest[i] == lines[i + 1];
      }
      assert front == "" ==> StartsLogical(lines, front, 0);
    }
  }

  /** Make takes the line the scan stops at as a recipe line exactly when it is the start of a logical line and
      Make passes over all in front of it. */
  lemma {:induction false} FoundRecipe(lines: seq<string>, number: nat, front: string, start: nat, prefix: char)
    requires ScanRecipe(lines, prefix) && prefix != '\\' && (front == "" || IsComment(front, prefix))
    ensures
      var m, all := FirstRecipe(lines, prefix), RecipeOf(GatheredFrom(lines, number, front, start), prefix);
      TakesLine(all, number + m, StartsLogical(lines, front, m) && PassesUpTo(lines, front, m, prefix),
        Tail(FirstLogical("", lines[m..])))
    decreases |lines|
  {
    hide Reads, ScanRecipe, Escapes, Unescaped, FirstLogical, Tail, IsComment, TakesLine, GatheredFrom, RecipeOf;
    hide IsRecipe, Passes, PassesUpTo, StartsLogical;
    var m := FirstRecipe(lines, prefix);
    if IsRecipe(lines[0], prefix) {
      assert lines[0..] == lines;
      NothingInFront(lines, front, prefix);
      FoundFirst(lines, number, front, start, prefix);
    } else {
      ScanSkips(lines, prefix);
      var first := if front == "" then number else start;
      assert lines[m..] == lines[1..][m - 1..];
      var next := if Escapes(lines[0]) then front + Unescaped(lines[0]) else "";
      NextIsThere(lines[0], front, next);
      PassesStep(lines, front, next, m, prefix);
      if front == "" && !Passes(lines[0], prefix) {
        OddLine(lines, number, start, prefix);
        NothingTaken(number + m, Tail(FirstLogical("", lines[m..])));
      } else {
        if Escapes(lines[0]) {
          SkippedFront(lines[0], front, prefix);
        }
        FoundRecipe(lines[1..], number + 1, next, first, prefix);
        FoundBehind(lines, number, front, start, prefix, next, number + m,
          StartsLogical(lines, front, m) && PassesUpTo(lines, front, m, prefix), Tail(FirstLogical("", lines[m..])));
      }
    }
  }

  lemma NothingInFront(lines: seq<string>, front: string, prefix: char)
    requires lines != []
    ensures PassesUpTo(lines, front, 0, prefix) && (StartsLogical(lines, front, 0) <==> front == "")
  {
  }

  lemma NothingTaken(number: nat, text: string)
    ensures TakesLine([], number, false, text)
  {
  }

  lemma NextIsThere(line: string, front: string, next: string)
    requires next == if Escapes(line) then front + Unescaped(line) else ""
    ensures next == "" <==> !Escapes(line)
  {
  }

  lemma FoundFirst(lines: seq<string>, number: nat, front: string, start: nat, prefix: char)
    requires lines != [] && IsRecipe(lines[0], prefix) && prefix != '\\' && (front == "" || IsComment(front, prefix))
    ensures TakesLine(RecipeOf(GatheredFrom(lines, number, front, start), prefix), number, front == "",
      Tail(FirstLogical("", lines)))
  {
    hide Reads, Escapes, Unescaped, FirstLogical, Tail, IsComment, GatheredFrom, IsRecipe;
    var gathered := GatheredFrom(lines, number, front, start);
    GatheredBegins(lines, number, front, start);
    RecipeAbove(gathered[1..], prefix, number);
    if front == "" {
      RecipeStays(lines, prefix);
    } else {
      FirstLogicalStarts(front, lines);
      var logical := FirstLogical(front, lines);
      CommentExtends(front, logical[|front|..], prefix);
      assert front + logical[|front|..] == logical;
      CommentReads(logical, prefix);
    }
  }

  /** A line that is passed over adds no recipe line with a later number. */
  lemma FoundBehind(lines: seq<string>, number: nat, front: string, start: nat, prefix: char, next: string,
      target: nat, starts: bool, text: string)
    requires lines != [] && IsSkipped(lines[0], prefix) && prefix != '\\'
    requires (if front == "" then Passes(lines[0], prefix) else IsComment(front, prefix)) && target > number
    requires next == if Escapes(lines[0]) then front + Unescaped(lines[0]) else ""
    requires
      var first := if front == "" then number else start;
      TakesLine(RecipeOf(GatheredFrom(lines[1..], number + 1, next, first), prefix), target, starts, text)
    ensures TakesLine(RecipeOf(GatheredFrom(lines, number, front, start), prefix), target, starts, text)
  {
    hide Reads, Escapes, Unescaped, FirstLogical, Tail, IsComment, IsSkipped, RecipeOf, Passes;
    if !Escapes(lines[0]) {
      var first := if front == "" then number else start;
      var rest := GatheredFrom(lines[1..], number + 1, "", first);
      SkippedLogical(lines[0], front, prefix);
      RecipeStep(Logical(first, front + lines[0]), rest, prefix);
      assert GatheredFrom(lines, number, front, start) == [Logical(first, front + lines[0])] + rest;
    }
  }

  lemma RecipeStep(head: Logical, rest: seq<Logical>, prefix: char)
    ensures
      var reading, all := Reads(head.text, prefix, true), RecipeOf([head] + rest, prefix);
      && (reading.RecipeLine? ==> all == [Logical(head.start, reading.text)] + RecipeOf(rest, prefix))
      && (reading.BlankLine? ==> all == RecipeOf(rest, prefix))
  {
    hide Reads;
    assert ([head] + rest)[1..] == rest;
  }

  lemma RecipeStays(lines: seq<string>, prefix: char)
    requires lines != [] && IsRecipe(lines[0], prefix) && prefix != '\\'
    ensures Reads(FirstLogical("", lines), prefix, true) == RecipeLine(Tail(FirstLogical("", lines)))
  {
    hide Slashes;
    SlashesBehind(lines[0], 0);
    var front := if Escapes(lines[0]) then Unescaped(lines[0]) else lines[0];
    assert front[0] == prefix;
    assert "" + front == front;
    FirstLogicalStarts(front, lines[1..]);
  }

  lemma SkippedFront(line: string, front: string, prefix: char)
    requires IsSkipped(line, prefix) && prefix != '\\' && Escapes(line)
    requires if front == "" then Passes(line, prefix) else IsComment(front, prefix)
    ensures IsComment(front + Unescaped(line), prefix) && front + Unescaped(line) != ""
  {
    hide IsSkipped, Reads, Passes;
    if front == "" {
      SkippedKinds(line, prefix);
      CommentContinues(line, prefix);
      assert front + Unescaped(line) == Unescaped(line);
    } else {
      CommentExtends(front, Unescaped(line), prefix);
    }
  }

  lemma SkippedLogical(line: string, front: string, prefix: char)
    requires IsSkipped(line, prefix) && prefix != '\\'
    requires if front == "" then Passes(line, prefix) else IsComment(front, prefix)
    ensures
      var reading := Reads(front + line, prefix, true);
      reading.BlankLine? || (front == "" && reading.RecipeLine?)
  {
    hide IsSkipped, Uncommented, Passes;
    if front == "" {
      assert front + line == line;
      SkippedKinds(line, prefix);
    } else {
      CommentExtends(front, line, prefix);
      CommentReads(front + line, prefix);
    }
  }

  /** The line the scan stops at starts a logical line, every logical line in front of it is blank or a comment to
      Make as well, and it has more in it than the backslashes that continue it. */
  predicate RecipeInSight(rest: seq<string>, prefix: char) {
    ScanRecipe(rest, prefix) &&
    var m := FirstRecipe(rest, prefix);
    StartsLogical(rest, "", m) && PassesUpTo(rest, "", m, prefix) && NonBlank(Tail(FirstLogical("", rest[m..])))
  }

  /** For all lines: a credited recipe line is one to Make, with text in it, exactly when it is in sight. A comment
      in front that ends in a backslash swallows it, whitespace that is none to Make stops the search, and a
      backslash alone is no text. */
  lemma ScannedRecipeIff(rest: seq<string>, prefix: char)
    requires ScanRecipe(rest, prefix) && prefix != '\\'
    ensures RecipeInSight(rest, prefix) <==>
      exists l <- RecipeOf(Gathered(rest), prefix) :: l.start == 1 + FirstRecipe(rest, prefix) && NonBlank(l.text)
  {
    hide ScanRecipe, RecipeOf, Tail, FirstLogical, NonBlank, Escapes, StartsLogical, PassesUpTo;
    FoundRecipe(rest, 1, "", 0, prefix);
    var m := FirstRecipe(rest, prefix);
    var text := Tail(FirstLogical("", rest[m..]));
    if RecipeInSight(rest, prefix) {
      assert Logical(1 + m, text).start == 1 + m;
    }
  }

  // ---- either ----

  /** The rule or a line behind it has a recipe with text to Make, at the place that earned it the credit. */
  ghost predicate TakesRecipe(reading: Reading, rest: seq<string>, prefix: char) {
    reading.RuleLine? &&
    ( (reading.recipe.Some? && NonBlank(reading.recipe.value)) ||
      (ScanRecipe(rest, prefix) && exists l <- RecipeOf(Gathered(rest), prefix) ::
         l.start == 1 + FirstRecipe(rest, prefix) && NonBlank(l.text)))
  }

  /** The recipe that earned a rule its credit is in Make's sight too. */
  predicate RecipeSeen(rule: MakeSyntax.Rule, rest: seq<string>, prefix: char) {
    && !IsTargetVariable(Prerequisites(rule))
    && ((NonBlank(InlineRecipe(rule)) && '#' !in CutAt(rule.after, ';')) || RecipeInSight(rest, prefix))
  }

  /** A recipe credit is Make's recipe exactly when: the rule is no assignment to a variable of its target, and no
      `#` stands in front of the first `;`, or no continued comment and no whitespace unknown to Make in front of
      the first recipe line, which has more in it than a backslash. */
  lemma CreditedRecipeIff(line: string, prefix: char, open: bool, rest: seq<string>)
    requires IsPlainLine(line, prefix, open) && LineOf(line, prefix).Target? && prefix != '\\'
    requires HasRecipe(LineOf(line, prefix).rule, rest, prefix)
    ensures TakesRecipe(Reads(line, prefix, open), rest, prefix) <==>
            RecipeSeen(LineOf(line, prefix).rule, rest, prefix)
  {
    hide LineOf, Reads, IsTargetVariable, ScanRecipe, RecipeOf, Prerequisites, RecipeInSight, IsPlainLine;
    var rule := LineOf(line, prefix).rule;
    InlineRecipeIff(line, prefix, open);
    if ';' !in rule.after {
      Whole(rule.after, ';');
    }
    InlineNeedsMark(rule);
    if ScanRecipe(rest, prefix) {
      ScannedRecipeIff(rest, prefix);
    }
    InSightIsScanned(rest, prefix);
  }

  lemma InlineNeedsMark(rule: MakeSyntax.Rule)
    ensures NonBlank(InlineRecipe(rule)) ==> ';' in rule.after
  {
  }

  lemma InSightIsScanned(rest: seq<string>, prefix: char)
    ensures RecipeInSight(rest, prefix) ==> ScanRecipe(rest, prefix)
  {
  }
}
