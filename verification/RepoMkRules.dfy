/** How plain rule and assignment lines read, to the analyser and to Make. */
module RepoMkRules {
  import opened Strings
  import opened MakeVariables
  import opened MakeGrammar
  import opened MakeSyntax
  import opened MakeFile
  import opened MakeAgreement

  // ---- rule lines ----

  function RuleText(name: string, after: string): string { name + (":" + after) }

  predicate SimpleRule(name: string, after: string) {
    IsName(name) && !At(after, 0, ':') && !At(after, 0, '=')
  }

  lemma NoWordInFront(name: string, after: string, word: string)
    requires IsName(name) && word != "" && ':' !in word
    ensures AfterWord(RuleText(name, after), word).None?
  {
    var s := RuleText(name, after);
    assert s[|name|] == ':' && forall i :: 0 <= i < |name| ==> s[i] == name[i];
    assert StartsWith(s, word) ==> forall i :: 0 <= i < |word| ==> word[i] == s[i];
  }

  lemma {:induction false} WordsOf(run: string, word: string)
    requires (forall i :: 0 <= i < |run| ==> IsNameChar(run[i])) && word + run != ""
    ensures WordsFrom(run, word) == [word + run]
  {
    if run == "" {
      assert word + run == word;
    } else {
      assert !IsSpace(run[0]) && (word + [run[0]]) + run[1..] == word + run;
      WordsOf(run[1..], word + [run[0]]);
    }
  }

  lemma NoAssignment(name: string, after: string)
    requires SimpleRule(name, after)
    ensures ParseAssignment(RuleText(name, after)).None?
  {
    var s := RuleText(name, after);
    NoWordInFront(name, after, "override");
    NoWordInFront(name, after, "export");
    NoWordInFront(name, after, "private");
    assert s[1..] == name[1..] + (":" + after);
    NameRunOf(name[1..], ":" + after);
    assert s[NameLength(s)..] == ":" + after;
    assert LStrip(":" + after) == ":" + after;
    assert ParseOperator(":" + after).None?;
  }

  lemma NameAndColon(name: string)
    requires IsName(name)
    ensures '#' !in name + ":"
  {
    assert forall i :: 0 <= i < |name| ==> IsNameChar(name[i]);
  }

  lemma NoUndefine(name: string, after: string)
    requires SimpleRule(name, after)
    ensures ParseUndefine(CutAt(RuleText(name, after), '#')).None?
  {
    hide CutAt, AfterWord;
    NameAndColon(name);
    CutAtOf(name + ":", after, '#');
    assert RuleText(name, after) == name + ":" + after;
    assert CutAt(RuleText(name, after), '#') == RuleText(name, CutAt(after, '#'));
    hide RuleText;
    NoWordInFront(name, CutAt(after, '#'), "override");
    NoWordInFront(name, CutAt(after, '#'), "undefine");
  }

  lemma LineReads(name: string, after: string)
    requires SimpleRule(name, after)
    ensures LineOf(RuleText(name, after), '\t') == Target(Rule([name], after))
  {
    assert RuleText(name, after)[0] == name[0];
    NoAssignment(name, after);
    NoUndefine(name, after);
    MakeSyntax.RuleReads(name, ":", after);
    WordsOf(name, "");
    assert "" + name == name;
    assert ParseRecipePrefix(RuleText(name, after)).None?;
  }

  lemma TokenBegins(s: string)
    requires s != "" && !IsSpace(s[0])
    ensures Token(s) != "" && Token(s)[0] == s[0]
  {
  }

  lemma NotDirective(word: string)
    requires word != "" && (word[0] == 'r' || word[0] == '.')
    ensures word !in DIRECTIVES && word != "undefine"
  {
    assert forall directive <- DIRECTIVES :: directive[0] != 'r' && directive[0] != '.';
  }

  lemma HeadOf(name: string, after: string)
    requires name != "" && forall i :: 0 <= i < |name| ==> IsNameChar(name[i])
    ensures RuleText(name, after)[..FirstMark(RuleText(name, after))] == name && IsPlainHead(name)
    ensures PlainBlanks(name)
  {
    var line := RuleText(name, after);
    forall i | 0 <= i < |name|
      ensures line[i] != ':' && line[i] != '=' && line[i] != '#'
    {
      NameCharIsPlain(name[i]);
      assert line[i] == name[i];
    }
    SkipNoMark(line, |name|);
    assert line[|name|] == ':' && line[..|name|] == name;
    forall i | 0 <= i < |name|
      ensures !IsSpace(name[i])
    {
      NameCharIsPlain(name[i]);
    }
    forall c | c in name
      ensures c !in {'$', '\\', '&', ';', '#', ':', '='}
    {
      NameCharIsPlain(c);
    }
  }

  lemma NoMarkUnquoted(s: string)
    requires '\\' !in s
    ensures Unquoted(s)
  {
  }

  /** A rule for one target that begins no directive, as Make reads it. */
  lemma RuleReadsAlike(name: string, after: string, open: bool)
    requires SimpleRule(name, after) && name[0] == 'r'
    requires Unquoted(RuleText(name, after)) && Bracketed(CutAt(CutAt(after, ';'), '#'))
    ensures Reads(RuleText(name, after), '\t', open) == RuleReading(Rule([name], after))
  {
    hide Reads, RuleReading, Bracketed, LineOf, Token, Unquoted, IsPlainHead, CutAt;
    var line := RuleText(name, after);
    LineReads(name, after);
    HeadOf(name, after);
    assert line != "" && line[0] == 'r';
    TokenBegins(line);
    NotDirective(Token(line));
    ReadAlike(line, '\t', open);
  }

  // ---- assignment lines ----

  function AssignmentText(name: string, space: string, value: string): string {
    name + (" " + ("=" + (space + value)))
  }

  predicate SimpleAssignment(name: string, space: string, value: string) {
    && IsName(name) && name !in MODIFIERS && AllBlank(space) && (value == "" || !IsSpace(value[0]))
    && '#' !in value && ';' !in value && '$' !in value && PlainBlanks(value)
  }

  lemma AssignmentLineReads(name: string, space: string, value: string)
    requires SimpleAssignment(name, space, value)
    ensures LineOf(AssignmentText(name, space, value), '\t') == Variable(Assignment(name, Recursive, value))
  {
    hide ParseAssignment, ParseBareAssignment, Token;
    var line := AssignmentText(name, space, value);
    AssignmentReads(name, " ", Recursive, "=", space, value);
    forall c | c in name
      ensures !IsSpace(c)
    {
      NameCharIsPlain(c);
    }
    TokenBefore(name, " " + ("=" + (space + value)));
    AssignmentIsPlain(name, space, value);
    NoModifier(line);
    Whole(value, '#');
    assert line[0] == name[0];
    assert ParseRecipePrefix(line).None?;
  }

  lemma AssignmentIsPlain(name: string, space: string, value: string)
    requires SimpleAssignment(name, space, value)
    ensures PlainBlanks(CutAt(AssignmentText(name, space, value), '#'))
  {
    hide CutAt;
    var line := AssignmentText(name, space, value);
    forall c | c in name
      ensures !IsSpace(c) && c != '#'
    {
      NameCharIsPlain(c);
    }
    assert forall c <- space :: IsBlank(c);
    forall c | c in line
      ensures c != '#' && (IsSpace(c) ==> IsBlank(c))
    {
      assert c in name || c in " " || c in "=" || c in space || c in value;
    }
    Whole(line, '#');
    assert forall i :: 0 <= i < |line| ==> line[i] in line;
  }

  /** Also behind blanks, wherever Make does not take the line for a recipe. */
  lemma AssignmentReadsInMake(lead: string, name: string, space: string, value: string, prefix: char, open: bool)
    requires SimpleAssignment(name, space, value) && AllBlank(lead) && (open ==> lead == "" && name[0] != prefix)
    ensures Reads(lead + AssignmentText(name, space, value), prefix, open) == AssignmentLine(name, Recursive, value)
  {
    hide Uncommented, DefinitionOf, Skip, Bracketed;
    var line := lead + AssignmentText(name, space, value);
    Whole(value, '#');
    PlainIsBracketed(value);
    AssignmentHasNoMark(lead, name, space, value);
    assert lead == "" ==> line[0] == name[0];
    var _ := DefinitionLine(lead, name, " ", Recursive, "=", space, value);
  }

  lemma AssignmentHasNoMark(lead: string, name: string, space: string, value: string)
    requires SimpleAssignment(name, space, value) && AllBlank(lead)
    ensures Unquoted(lead + AssignmentText(name, space, value))
  {
    var line := lead + AssignmentText(name, space, value);
    forall c | c in name
      ensures c != '#' && c != ';'
    {
      NameCharIsPlain(c);
    }
    assert forall c <- lead :: IsBlank(c);
    assert forall c <- space :: IsBlank(c);
    assert forall c <- line :: c in lead || c in name || c in " " || c in "=" || c in space || c in value;
    assert forall i :: 0 <= i < |line| ==> line[i] in line;
  }
}
