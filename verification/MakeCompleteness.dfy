/** What the analysis must see: the references it looks through and the assignments it reads, as they are written. */
module MakeCompleteness {
  import opened Strings
  import opened MakeWords
  import opened MakeVariables
  import opened MakeGrammar
  import opened MakeSoundness
  import opened MakeSyntax

  // ---- names ----

  /** A name starts with a letter or an underscore; digits, dots and dashes may follow. */
  lemma NameIff(s: string)
    ensures IsName(s) <==>
      && s != "" && ('A' <= s[0] <= 'Z' || 'a' <= s[0] <= 'z' || s[0] == '_')
      && forall c <- s ::
          'A' <= c <= 'Z' || 'a' <= c <= 'z' || '0' <= c <= '9' || c == '_' || c == '.' || c == '-'
  {
    assert forall i :: 0 <= i < |s| ==> s[i] in s;
  }

  // ---- references ----

  /** How a reference is written: `$(NAME)`, `${NAME}`, or `$N` for a name of one letter, digit or underscore. */
  datatype Form = Round | Curly | Bare

  function Written(name: string, form: Form): string {
    match form
    case Round => "$(" + name + ")"
    case Curly => "${" + name + "}"
    case Bare => "$" + name
  }

  predicate CanBeWritten(name: string, form: Form) {
    match form
    case Bare =>
      |name| == 1 &&
      ('A' <= name[0] <= 'Z' || 'a' <= name[0] <= 'z' || '0' <= name[0] <= '9' || name[0] == '_')
    case _ => IsName(name)
  }

  lemma GroupIsOneWord(name: string, brace: bool)
    requires IsName(name)
    ensures
      var w := Written(name, if brace then Curly else Round);
      SplitWords(w) == [w] && Run(w, 0) == Some(0) && !HasLiteral(w) && ReferenceName(w) == Some(name)
  {
    var w := Written(name, if brace then Curly else Round);
    GroupSplits(name, brace);
    assert w[2..|w| - 1] == name;
    hide HasLiteral, SplitWords, Run;
    RunOfGroup(name, brace);
  }

  lemma GroupSplits(name: string, brace: bool)
    requires IsName(name)
    ensures
      var w := Written(name, if brace then Curly else Round);
      SplitWords(w) == [w] && !HasLiteral(w)
  {
    var w := Written(name, if brace then Curly else Round);
    assert forall i :: 0 <= i < |name| ==> IsNameChar(name[i]);
    LiteralsText(name, true);
    var t := Group(brace, Literals(name), End);
    assert Print(t) == w && Print(End) == "";
    SplitGroup(brace, Literals(name), End, "");
    assert "" + w == w;
    LiteralTest(t);
  }

  lemma RunOfGroup(name: string, brace: bool)
    requires IsName(name)
    ensures Run(Written(name, if brace then Curly else Round), 0) == Some(0)
  {
    var w := Written(name, if brace then Curly else Round);
    LiteralsText(name, true);
    RunBody(Literals(name), 1);
    var close := [Closer(brace)];
    RunAppend(name, close, 1);
    assert w[2..] == name + close && close[1..] == "";
  }

  lemma BareIsOneWord(name: string)
    requires CanBeWritten(name, Bare)
    ensures
      var w := Written(name, Bare);
      SplitWords(w) == [w] && Run(w, 0) == Some(0) && !HasLiteral(w) && ReferenceName(w) == Some(name)
  {
    var w := Written(name, Bare);
    var t := Single(name[0], End);
    assert Print(End) == "" && Print(t) == w && w[2..] == "" && w[1..] == name;
    SplitSingle(name[0], End, "");
    assert "" + w == w && SplitFrom("", 0, w) == [w];
    LiteralTest(t);
  }

  lemma WrittenIsOneWord(name: string, form: Form)
    requires CanBeWritten(name, form)
    ensures
      var w := Written(name, form);
      SplitWords(w) == [w] && Run(w, 0) == Some(0) && !HasLiteral(w) && ReferenceName(w) == Some(name)
  {
    if form.Bare? {
      BareIsOneWord(name);
    } else {
      GroupIsOneWord(name, form.Curly?);
    }
  }

  /** A reference that is a text of its own proves exactly what its variable holds: the words kept of it, or what the
      text kept of it proves with the name refused; and nothing if the name is unknown or refused, or sixteen names
      are being resolved already. */
  lemma ReferenceProves(name: string, form: Form, vars: Variables, resolving: set<string>)
    requires CanBeWritten(name, form)
    ensures Proven(Written(name, form), vars, resolving) ==
      if name !in vars || name in resolving || |resolving| >= 16 then []
      else match vars[name]
        case Evaluated(tokens) => tokens
        case Deferred(raw) => Proven(raw, vars, resolving + {name})
  {
    WrittenIsOneWord(name, form);
    var w := Written(name, form);
    assert [w][1..] == [];
    assert ProvenWords([w], vars, resolving) == ProvenWord(w, vars, resolving) + [];
  }

  /** A word without text outside references that is written in none of the three ways proves nothing. */
  lemma OthersProveNothing(word: string, vars: Variables, resolving: set<string>)
    requires SplitWords(word) == [word] && !HasLiteral(word)
    requires forall name, form :: CanBeWritten(name, form) ==> word != Written(name, form)
    ensures Proven(word, vars, resolving) == []
  {
    assert [word][1..] == [];
    assert ProvenWords([word], vars, resolving) == ProvenWord(word, vars, resolving) + [];
    var name := ReferenceName(word);
    if name.Some? {
      FoundIsWritten(word);
    }
  }

  lemma FoundIsWritten(word: string)
    requires ReferenceName(word).Some?
    ensures exists name, form :: CanBeWritten(name, form) && word == Written(name, form)
  {
    var name := ReferenceName(word).value;
    if |word| == 2 {
      assert word == Written(name, Bare) && CanBeWritten(name, Bare);
    } else {
      assert word == word[..2] + name + word[|word| - 1..];
      var form := if word[1] == '{' then Curly else Round;
      assert word == Written(name, form) && CanBeWritten(name, form);
    }
  }

  /** A word that opens no reference without closing it. */
  predicate IsWhole(word: string) { word != "" && Run(word, 0) == Some(0) }

  /** Words separated by blanks prove what each proves alone, in their order. */
  lemma {:induction false} WordsProveSeparately(word: string, words: seq<string>, vars: Variables,
      resolving: set<string>)
    requires IsWhole(word) && forall w <- words :: IsWhole(w)
    ensures Proven(JoinWords([word] + words), vars, resolving)
         == Proven(word, vars, resolving) + Proven(JoinWords(words), vars, resolving)
  {
    hide ProvenWord;
    WholeWordsSplit(words);
    WholeWordsSplit([word] + words);
    WholeWordsSplit([word]);
    assert JoinWords([word]) == word;
    ProvenWordsAppend([word], words, vars, resolving);
  }

  lemma {:induction false} WholeWordsSplit(words: seq<string>)
    requires forall w <- words :: IsWhole(w)
    ensures SplitWords(JoinWords(words)) == words
  {
    hide Run;
    if words != [] {
      assert words[0] in words && forall w <- words[1..] :: w in words;
      WholeWordsSplit(words[1..]);
      SplitJoinCons(words[0], words[1..]);
      assert [words[0]] + words[1..] == words;
    }
  }

  /** References are such words. */
  lemma WrittenIsWhole(name: string, form: Form)
    requires CanBeWritten(name, form)
    ensures IsWhole(Written(name, form))
  {
    WrittenIsOneWord(name, form);
  }

  // ---- what a later reference proves ----

  /** Behind an assignment a reference to its variable proves: with `=` what the value proves then; with `:=`, `::=`
      and `:::=` what it proved where it was assigned; with `+=` that behind what the variable proved before, or,
      where that is kept as text, the text and the value together; with `?=` and `!=` nothing, unless `?=` finds the
      variable set. */
  lemma ReferenceBehindAssignment(vars: Variables, name: string, op: Operator, value: string, form: Form)
    requires CanBeWritten(name, form)
    ensures
      var after := Recorded(vars, name, op, value);
      var proven := Proven(Written(name, form), after, {});
      && (op == Recursive || (op == Append && name !in vars) ==> proven == Proven(value, after, {name}))
      && (op == Simple || op == Posix ==> proven == Proven(value, vars, {}))
      && (op == Append && name in vars && vars[name].Evaluated? ==>
            proven == vars[name].tokens + Proven(value, vars, {}))
      && (op == Append && name in vars && vars[name].Deferred? ==>
            proven == Proven(vars[name].raw + " " + value, after, {name}))
      && (op == Default ==> proven == if name in vars then Proven(Written(name, form), vars, {}) else [])
      && (op == Shell ==> proven == [])
  {
    hide Proven;
    ReferenceProves(name, form, Recorded(vars, name, op, value), {});
    assert {} + {name} == {name};
  }

  /** A variable that `?=` or `!=` has made keeps words, not text: what is appended to it is proven at once, and stays
      whatever becomes of other variables. */
  lemma AppendedBehindDefault(vars: Variables, name: string, op: Operator, value: string, more: string, form: Form,
      later: Variables)
    requires CanBeWritten(name, form) && ((op == Default && name !in vars) || op == Shell)
    requires
      var after := Recorded(Recorded(vars, name, op, value), name, Append, more);
      name in after && name in later && later[name] == after[name]
    ensures Proven(Written(name, form), later, {}) == Proven(more, Recorded(vars, name, op, value), {})
  {
    hide Proven;
    ReferenceProves(name, form, later, {});
    var proven := Proven(more, Recorded(vars, name, op, value), {});
    assert [] + proven == proven;
  }

  /** And no other variable's entry changes. */
  lemma OthersStay(vars: Variables, name: string, op: Operator, value: string)
    ensures Recorded(vars, name, op, value) - {name} == vars - {name}
  {
    hide Proven;
  }

  // ---- assignments as they are written ----

  /** `NAME op VALUE`, with blanks around the operator. */
  function AssignmentOf(name: string, gap: string, text: string, space: string, value: string): string {
    name + (gap + (text + (space + value)))
  }

  predicate IsAssignment(name: string, gap: string, op: Operator, text: string, space: string, value: string) {
    && IsName(name) && AllSpace(gap) && AllSpace(space) && text in OperatorTexts(op)
    && (value == "" || !IsSpace(value[0]))
  }

  lemma NoModifierHere(s: string)
    requires s != "" && !IsNameStart(s[0])
    ensures ParseAssignment(s).None?
  {
    assert AfterWord(s, "override").None? && AfterWord(s, "export").None? && AfterWord(s, "private").None?;
  }

  lemma WordIsName(name: string, tail: string, word: string)
    requires forall i :: 0 <= i < |name| ==> !IsSpace(name[i])
    requires forall i :: 0 <= i < |word| ==> IsNameChar(word[i])
    requires word != "" && AfterWord(name + tail, word).Some? && tail != "" && !IsNameChar(tail[0])
    ensures word == name && AfterWord(name + tail, word) == Some(LStrip(tail))
  {
    var s := name + tail;
    assert s[|name|] == tail[0] && forall i :: 0 <= i < |name| ==> s[i] == name[i];
    assert IsSpace(s[|word|]) && forall i :: 0 <= i < |word| ==> s[i] == word[i];
    assert s[..|name|] == name && s[|name|..] == tail;
  }

  /** What stands behind a name that is a modifier begins with the operator. */
  lemma OperatorIsNoAssignment(name: string, tail: string, rest: string)
    requires IsName(name) && tail != "" && !IsNameChar(tail[0]) && LStrip(tail) == rest
    requires rest != "" && !IsNameStart(rest[0])
    ensures
      var inner := AfterModifier(name + tail);
      inner.Some? ==> ParseAssignment(inner.value).None?
  {
    hide LStrip, AfterWord, ParseAssignment;
    var s := name + tail;
    NameHasNoSpace(name);
    NoModifierHere(rest);
    if AfterWord(s, "override").Some? {
      WordIsName(name, tail, "override");
    } else if AfterWord(s, "export").Some? {
      WordIsName(name, tail, "export");
    } else if AfterWord(s, "private").Some? {
      WordIsName(name, tail, "private");
    }
  }

  /** Also a variable that is called like a modifier is assigned. */
  lemma AssignmentParses(name: string, gap: string, op: Operator, text: string, space: string, value: string)
    requires IsAssignment(name, gap, op, text, space, value)
    ensures ParseAssignment(AssignmentOf(name, gap, text, space, value)) == Some(Assignment(name, op, value))
  {
    hide ParseBareAssignment, AfterModifier;
    var rest := text + (space + value);
    var tail := gap + rest;
    AssignmentReads(name, gap, op, text, space, value);
    OperatorReads(op, text, space + value);
    assert rest[0] == text[0] && tail[0] == if gap == "" then text[0] else gap[0];
    LStripOf(gap, rest);
    OperatorIsNoAssignment(name, tail, rest);
  }

  lemma NameHasNoSpace(name: string)
    requires IsName(name)
    ensures forall i :: 0 <= i < |name| ==> !IsSpace(name[i])
  {
  }

  /** A modifier in front makes no difference. */
  lemma ModifierIsSkipped(word: string, space: string, s: string)
    requires word == "override" || word == "export" || word == "private"
    requires space != "" && AllSpace(space) && s != "" && !IsSpace(s[0]) && ParseAssignment(s).Some?
    ensures ParseAssignment(word + (space + s)) == ParseAssignment(s)
  {
    var line := word + (space + s);
    assert line[..|word|] == word && line[|word|..] == space + s && line[|word|] == space[0];
    LStripOf(space, s);
    assert AfterWord(line, word) == Some(s);
    assert line[0] == word[0];
    assert AfterModifier(line) == Some(s);
  }

  /** What the leaf scan takes from such a line behind any number of modifiers: the assignment, without a comment. */
  lemma LineIsAssignment(line: string, a: Assignment, prefix: char)
    requires ParseAssignment(line) == Some(a) && line[0] != prefix && line[0] != '.'
    ensures LineOf(line, prefix) == Variable(Assignment(a.name, a.op, CutAt(a.value, '#')))
  {
    assert ParseRecipePrefix(line).None?;
  }

  // ---- the other lines as they are written ----

  lemma WordInFront(word: string, space: string, s: string)
    requires word != "" && space != "" && AllSpace(space) && (s == "" || !IsSpace(s[0]))
    ensures AfterWord(word + (space + s), word) == Some(s)
  {
    var line := word + (space + s);
    assert line[..|word|] == word && line[|word|..] == space + s && line[|word|] == space[0];
    LStripOf(space, s);
  }

  lemma UndefineBehind(space: string, name: string, tail: string)
    requires space != "" && AllSpace(space) && AllSpace(tail) && IsName(name)
    ensures
      var code := "undefine" + (space + (name + tail));
      AfterWord(code, "override").None? && ParseUndefine(code) == Some(name)
  {
    hide AfterWord;
    var code := "undefine" + (space + (name + tail));
    WordInFront("undefine", space, name + tail);
    NoOverride(code);
    var s := name + tail;
    assert s[1..] == name[1..] + tail;
    assert tail != "" ==> !IsNameChar(tail[0]);
    NameRunOf(name[1..], tail);
    assert s[..|name|] == name && s[|name|..] == tail;
    SpaceIsBlank(tail);
  }

  lemma NoOverride(code: string)
    requires code != "" && code[0] == 'u'
    ensures AfterWord(code, "override").None?
  {
  }

  lemma SpaceIsBlank(s: string)
    requires AllSpace(s)
    ensures !NonBlank(s)
  {
  }

  /** `undefine NAME` is recognised, also behind `override`, ... */
  lemma UndefineParses(gap: string, space: string, name: string, tail: string)
    requires gap != "" && AllSpace(gap) && space != "" && AllSpace(space) && AllSpace(tail) && IsName(name)
    ensures ParseUndefine("undefine" + (space + (name + tail))) == Some(name)
    ensures ParseUndefine("override" + (gap + ("undefine" + (space + (name + tail))))) == Some(name)
  {
    hide AfterWord;
    var code := "undefine" + (space + (name + tail));
    UndefineBehind(space, name, tail);
    WordInFront("override", gap, code);
    WordInFront("undefine", space, name + tail);
  }

  /** ... and nothing else is. */
  lemma ParsedUndefine(code: string) returns (front: string, space: string, tail: string)
    requires ParseUndefine(code).Some?
    ensures front == "" || exists gap :: gap != "" && AllSpace(gap) && front == "override" + gap
    ensures space != "" && AllSpace(space) && AllSpace(tail) && IsName(ParseUndefine(code).value)
    ensures code == front + ("undefine" + (space + (ParseUndefine(code).value + tail)))
  {
    hide NameLength;
    var over := AfterWord(code, "override");
    var rest := if over.Some? then over.value else code;
    front := "";
    if over.Some? {
      var gap := WordWritten(code, "override");
      front := "override" + gap;
      assert code == front + rest;
    }
    space := WordWritten(rest, "undefine");
    var s := AfterWord(rest, "undefine").value;
    var n := NameLength(s);
    NameLengthIsName(s);
    tail := s[n..];
    assert s == s[..n] + tail;
    assert front == "" ==> code == front + rest;
  }

  lemma WordWritten(s: string, word: string) returns (space: string)
    requires word != "" && AfterWord(s, word).Some?
    ensures space != "" && AllSpace(space) && s == word + (space + AfterWord(s, word).value)
  {
    space := LStripped(s[|word|..]);
    assert s == word + s[|word|..];
  }

  lemma NameLengthIsName(s: string)
    requires NameLength(s) > 0
    ensures IsName(s[..NameLength(s)])
  {
    NameRunIsName(s[1..]);
    var name := s[..NameLength(s)];
    forall i | 0 <= i < |name|
      ensures IsNameChar(name[i])
    {
      assert i > 0 ==> name[i] == s[1..][i - 1];
    }
  }

  /** A recipe prefix is set with any operator but `:::=` ... */
  lemma PrefixParses(gap: string, op: Operator, text: string, space: string, value: string)
    requires AllSpace(gap) && AllSpace(space) && text in OperatorTexts(op) && (value == "" || !IsSpace(value[0]))
    ensures ParseRecipePrefix(".RECIPEPREFIX" + (gap + (text + (space + value))))
         == if op == Posix then None else Some((op, value))
  {
    var line := ".RECIPEPREFIX" + (gap + (text + (space + value)));
    OperatorReads(op, text, space + value);
    assert line[|".RECIPEPREFIX"|..] == gap + (text + (space + value));
    assert (text + (space + value))[0] == text[0];
    LStripOf(gap, text + (space + value));
    LStripOf(space, value);
  }

  /** ... and by nothing else. */
  lemma ParsedPrefix(line: string) returns (gap: string, text: string, space: string)
    requires ParseRecipePrefix(line).Some?
    ensures
      var (op, value) := ParseRecipePrefix(line).value;
      && op != Posix && AllSpace(gap) && AllSpace(space) && text in OperatorTexts(op)
      && (value == "" || !IsSpace(value[0]))
      && line == ".RECIPEPREFIX" + (gap + (text + (space + value)))
  {
    var rest := line[|".RECIPEPREFIX"|..];
    gap := LStripped(rest);
    text := OperatorWritten(LStrip(rest));
    space := LStripped(ParseOperator(LStrip(rest)).value.1);
    assert line == ".RECIPEPREFIX" + rest;
  }

  /** The new prefix is the first character of the value, and the tab again if there is none in front of a comment. */
  lemma PrefixIs(value: string)
    requires value == "" || !IsSpace(value[0])
    ensures PrefixFrom(value) == if value == "" || value[0] == '#' then '\t' else value[0]
  {
  }

  /** The kinds of line, each tested where those in front of it do not fit: a recipe line is nothing else, a prefix
      change no assignment, and a line that is neither of these nor an assignment or `undefine` may be a rule. */
  lemma LineIs(logical: string, prefix: char)
    ensures
      var line, code := LineOf(logical, prefix), CutAt(logical, '#');
      var recipe := logical != "" && logical[0] == prefix;
      var change, assignment, undefined := ParseRecipePrefix(logical), ParseAssignment(logical), ParseUndefine(code);
      && (line == Recipe <==> recipe)
      && (line.PrefixChange? <==> !recipe && change.Some?)
      && (line.PrefixChange? ==> change == Some((line.op, line.value)))
      && (line.Variable? <==> !recipe && change.None? && assignment.Some?)
      && (line.Undefine? <==> !recipe && change.None? && assignment.None? && undefined.Some?)
      && (line.Undefine? ==> undefined == Some(line.name))
      && (line.Target? <==> !recipe && change.None? && assignment.None? && undefined.None? && ParseRule(logical).Some?)
      && (line.Target? ==> ParseRule(logical) == Some(line.rule))
  {
    hide ParseRecipePrefix, ParseAssignment, ParseUndefine, ParseRule;
    var change := ParseRecipePrefix(logical);
    if change.Some? {
      assert change == Some((change.value.0, change.value.1));
    }
  }
}
