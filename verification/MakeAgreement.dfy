/** Where the analyser's recognisers and Make read a line alike: `MakeSyntax` against `MakeFile`. */
module MakeAgreement {
  import opened Strings
  import opened MakeLines
  import opened MakeVariables
  import opened MakeGrammar
  import opened MakeSoundness
  import opened MakeSyntax
  import opened MakeFile

  // ---- physical lines ----

  /** No line ends in more than one backslash. */
  predicate SingleSlashes(lines: seq<string>) { forall line <- lines :: Slashes(line) <= 1 }

  lemma SingleSlash(line: string)
    requires Slashes(line) <= 1
    ensures Escapes(line) <==> Continued(line)
    ensures Continued(line) ==> Unescaped(line) == Unslash(line)
  {
  }

  /** Where no line ends in two backslashes, Make joins lines as `_logical_lines` does. */
  lemma {:induction false} GatheredIsJoined(lines: seq<string>, number: nat, front: string, start: nat)
    requires SingleSlashes(lines)
    ensures GatheredFrom(lines, number, front, start) == JoinFrom(lines, number, front, start)
  {
    if lines != [] {
      var first := if front == "" then number else start;
      SingleSlash(lines[0]);
      GatheredIsJoined(lines[1..], number + 1, if Continued(lines[0]) then front + Unslash(lines[0]) else "", first);
    }
  }

  /** Every line break is a line feed, or a carriage return in front of one. */
  predicate PlainBreaks(file: string) {
    forall i :: 0 <= i < |file| && IsLineBreak(file[i]) ==> file[i] == '\n' || BreaksWithNext(file, i)
  }

  predicate BreaksWithNext(file: string, i: nat) {
    i + 1 < |file| && file[i] == '\r' && file[i + 1] == '\n'
  }

  lemma {:induction false} PlainFilesAgree(file: string)
    requires PlainBreaks(file)
    ensures Splitlines(UniversalNewlines(file)) == PhysicalLines(file)
    decreases |file|
  {
    var line := CutAt(file, '\n');
    if |line| == |file| {
      assert forall i :: 0 <= i < |file| ==> file[i] == line[i] && line[i] in line;
      LoneLineAgrees(file);
    } else {
      var rest := file[|line| + 1..];
      assert file == line + ("\n" + rest);
      BreaksOfParts(file, line, rest);
      PlainFilesAgree(rest);
      var body := Uncarried(line);
      LineAgrees(line, body, rest);
    }
  }

  lemma LoneLineAgrees(file: string)
    requires Unbroken(file)
    ensures Splitlines(UniversalNewlines(file)) == if file == "" then [] else [file]
  {
    assert '\r' !in file;
    UniversalKeeps(file, "");
    LineLengthOf(file, "");
    assert file + "" == file && UniversalNewlines("") == "";
  }

  lemma BreaksOfParts(file: string, line: string, rest: string)
    requires file == line + ("\n" + rest) && PlainBreaks(file) && '\n' !in line
    ensures PlainBreaks(rest) && Unbroken(Uncarried(line))
  {
    forall i | 0 <= i < |rest| && IsLineBreak(rest[i])
      ensures rest[i] == '\n' || BreaksWithNext(rest, i)
    {
      var j := |line| + 1 + i;
      assert file[j] == rest[i] && (i + 1 < |rest| ==> file[j + 1] == rest[i + 1]);
    }
    forall i | 0 <= i < |Uncarried(line)|
      ensures !IsLineBreak(line[i])
    {
      assert file[i] == line[i] && line[i] in line;
      assert i + 1 < |line| ==> file[i + 1] == line[i + 1] && line[i + 1] in line;
    }
  }

  lemma LineAgrees(line: string, body: string, rest: string)
    requires body == Uncarried(line) && Unbroken(body)
    ensures Splitlines(UniversalNewlines(line + ("\n" + rest))) == [body] + Splitlines(UniversalNewlines(rest))
  {
    hide Splitlines;
    assert '\r' !in body;
    var tail := if body == line then "\n" + rest else "\r\n" + rest;
    assert line + ("\n" + rest) == body + tail;
    UniversalKeeps(body, tail);
    if body == line {
      UniversalKeeps("\n", rest);
    } else {
      assert StartsWith(tail, "\r\n") && tail[2..] == rest;
    }
    assert UniversalNewlines(tail) == "\n" + UniversalNewlines(rest);
    Assoc(body, "\n", UniversalNewlines(rest));
    SplitFirstLine(body, UniversalNewlines(rest));
  }

  lemma {:induction false} UnbrokenMeansPlain(file: string)
    requires forall line <- PhysicalLines(file) :: Unbroken(line)
    ensures PlainBreaks(file)
    decreases |file|
  {
    var line := CutAt(file, '\n');
    if file != "" && |line| < |file| {
      var rest := file[|line| + 1..];
      assert PhysicalLines(file) == [Uncarried(line)] + PhysicalLines(rest);
      UnbrokenMeansPlain(rest);
      forall i | 0 <= i < |file| && IsLineBreak(file[i])
        ensures file[i] == '\n' || BreaksWithNext(file, i)
      {
        if i < |line| {
          assert Uncarried(line) in PhysicalLines(file) && file[i] == line[i] && line[i] in line;
        } else if i > |line| {
          assert file[i] == rest[i - |line| - 1];
          assert BreaksWithNext(rest, i - |line| - 1) ==> BreaksWithNext(file, i);
        }
      }
    } else if file != "" {
      assert file in PhysicalLines(file);
    }
  }

  /** Read as text and split by `splitlines`, a file has the lines Make sees exactly when it breaks its lines as
      Make does. */
  lemma LinesAgreeIff(file: string)
    ensures Splitlines(UniversalNewlines(file)) == PhysicalLines(file) <==> PlainBreaks(file)
  {
    if PlainBreaks(file) {
      PlainFilesAgree(file);
    }
    SplitlinesUnbroken(UniversalNewlines(file));
    if Splitlines(UniversalNewlines(file)) == PhysicalLines(file) {
      UnbrokenMeansPlain(file);
    }
  }

  // ---- blanks ----

  /** No whitespace but spaces and tabs. */
  predicate PlainBlanks(s: string) { forall i :: 0 <= i < |s| && IsSpace(s[i]) ==> IsBlank(s[i]) }

  predicate AllBlank(s: string) { forall i :: 0 <= i < |s| ==> IsBlank(s[i]) }

  predicate AllSpacing(s: string) { forall i :: 0 <= i < |s| ==> IsSpacing(s[i]) }

  lemma {:induction false} SkipOf(space: string, s: string)
    requires AllSpacing(space) && (s == "" || !IsSpacing(s[0]))
    ensures Skip(space + s) == s
  {
    if space == "" {
      assert space + s == s;
    } else {
      assert (space + s)[1..] == space[1..] + s;
      SkipOf(space[1..], s);
    }
  }

  lemma {:induction false} Skipped(s: string) returns (space: string)
    ensures AllSpacing(space) && s == space + Skip(s) && (Skip(s) == "" || !IsSpacing(Skip(s)[0]))
  {
    space := "";
    if s != "" && IsSpacing(s[0]) {
      var rest := Skipped(s[1..]);
      space := [s[0]] + rest;
      assert s == [s[0]] + s[1..];
    }
  }

  lemma {:induction false} TrimOf(s: string, space: string)
    requires AllSpacing(space) && (s == "" || !IsSpacing(s[|s| - 1]))
    ensures Trim(s + space) == s
  {
    if space == "" {
      assert s + space == s;
    } else {
      var n := |space| - 1;
      assert (s + space)[..|s + space| - 1] == s + space[..n] && (s + space)[|s + space| - 1] == space[n];
      TrimOf(s, space[..n]);
    }
  }

  lemma {:induction false} NamesAreWords(s: string, word: string)
    requires PlainBlanks(s)
    ensures TargetNamesFrom(s, word) == WordsFrom(s, word)
    decreases |s|
  {
    if s != "" {
      var rest := s[1..];
      assert forall i :: 0 <= i < |rest| ==> rest[i] == s[i + 1];
      NamesAreWords(rest, if IsSpace(s[0]) then "" else word + [s[0]]);
    }
  }

  // ---- marks ----

  predicate Free(s: string, marks: set<char>) { forall i :: 0 <= i < |s| ==> s[i] !in marks }

  predicate EndsEscaped(s: string, escaped: bool) { if s == "" then escaped else s[|s| - 1] == '\\' }

  lemma ReferenceOfGroup(b: bool, body: Text, rest: string)
    requires WellFormed(body, true)
    ensures
      var s := Print(Group(b, body, End)) + rest;
      && s != "" && s[0] == '$' && ReferenceSpan(s) == |Print(body)| + 3
      && s[ReferenceSpan(s)..] == rest && s[ReferenceSpan(s) - 1] == Closer(b)
  {
    var s := Print(Group(b, body, End)) + rest;
    PrintGroup(b, body, End, rest);
    assert Print(End) + rest == rest;
    CloseSkipsBody(body, [Closer(b)] + rest, b, 1);
  }

  lemma StopChar(c: char, rest: string, escaped: bool, marks: set<char>)
    requires c != '$' && c !in marks
    ensures Stop([c] + rest, escaped, marks) == 1 + Stop(rest, c == '\\' && !escaped, marks)
  {
    assert ([c] + rest)[1..] == rest;
  }

  lemma StopReference(head: string, rest: string, escaped: bool, marks: set<char>)
    requires head != "" && head[0] == '$' && ReferenceSpan(head + rest) == |head|
    ensures Stop(head + rest, escaped, marks) == |head| + Stop(rest, head[|head| - 1] == '\\', marks)
  {
    assert (head + rest)[|head|..] == rest && (head + rest)[|head| - 1] == head[|head| - 1];
  }

  /** Behind well-bracketed text without marks the search goes on with what follows. */
  lemma {:induction false} StopBehind(t: Text, rest: string, escaped: bool, marks: set<char>) returns (e: bool)
    requires WellFormed(t, false) && Free(Print(t), marks)
    ensures Stop(Print(t) + rest, escaped, marks) == |Print(t)| + Stop(rest, e, marks)
    ensures e ==> EndsEscaped(Print(t), escaped)
    decreases t, 0
  {
    hide Stop, ReferenceSpan;
    match t
    case End =>
      assert Print(t) + rest == rest;
      e := escaped;
    case Lit(c, next) =>
      Assoc([c], Print(next), rest);
      FreeTail([c], Print(next), marks);
      assert [c][0] !in marks;
      StopChar(c, Print(next) + rest, escaped, marks);
      e := StopBehind(next, rest, c == '\\' && !escaped, marks);
    case Dollar(next) =>
      e := StopBehindReference("$$", next, rest, escaped, marks);
    case Single(c, next) =>
      e := StopBehindReference(['$', c], next, rest, escaped, marks);
    case Group(b, body, next) =>
      var head := ['$', Opener(b)] + Print(body) + [Closer(b)];
      assert Print(Group(b, body, End)) == head + "" == head;
      ReferenceOfGroup(b, body, Print(next) + rest);
      e := StopBehindReference(head, next, rest, escaped, marks);
  }

  lemma {:induction false} StopBehindReference(head: string, next: Text, rest: string, escaped: bool, marks: set<char>)
    returns (e: bool)
    requires WellFormed(next, false) && Free(head + Print(next), marks)
    requires |head| > 1 && head[0] == '$'
    requires (|head| == 2 && head[1] != '(' && head[1] != '{') ||
             ReferenceSpan(head + (Print(next) + rest)) == |head|
    ensures Stop(head + Print(next) + rest, escaped, marks) == |head + Print(next)| + Stop(rest, e, marks)
    ensures e ==> EndsEscaped(head + Print(next), escaped)
    decreases next, 1
  {
    hide Stop, Print, WellFormed;
    Assoc(head, Print(next), rest);
    FreeTail(head, Print(next), marks);
    StopReference(head, Print(next) + rest, escaped, marks);
    e := StopBehind(next, rest, head[|head| - 1] == '\\', marks);
  }

  lemma FreeTail(a: string, b: string, marks: set<char>)
    requires Free(a + b, marks)
    ensures Free(a, marks) && Free(b, marks)
  {
    assert forall i :: 0 <= i < |a| ==> (a + b)[i] == a[i];
    assert forall i :: 0 <= i < |b| ==> (a + b)[|a| + i] == b[i];
  }

  /** Well-bracketed text without marks, then a mark that no backslash stands in front of, or nothing. */
  lemma StopsAt(s: string, tail: string, marks: set<char>)
    requires Bracketed(s) && Free(s, marks) && '$' !in marks
    requires tail == "" || (tail[0] in marks && !Continued(s))
    ensures Stop(s + tail, false, marks) == |s|
  {
    var t :| WellFormed(t, false) && Print(t) == s;
    var e := StopBehind(t, tail, false, marks);
  }

  // ---- assignments ----

  /** The operators are written the same. */
  lemma OperatorAgrees(op: Operator, text: string, rest: string)
    requires text in OperatorTexts(op)
    ensures OperatorAt(text + rest) == Some((op, rest))
  {
    var s := text + rest;
    assert s[|text|..] == rest && StartsWith(s, text);
    assert text in {"=", ":=", "::=", ":::=", "+=", "?=", "!="};
    assert forall i :: 0 <= i < |text| ==> s[i] == text[i];
    NotPrefix(s, "=", 0);
    NotPrefix(s, ":=", 0);
    NotPrefix(s, ":=", 1);
    NotPrefix(s, "::=", 1);
    NotPrefix(s, "::=", 2);
    NotPrefix(s, ":::=", 0);
    NotPrefix(s, "+=", 0);
    NotPrefix(s, "?=", 0);
  }

  lemma NotPrefix(s: string, word: string, i: nat)
    requires i < |word|
    ensures i < |s| && s[i] != word[i] ==> !StartsWith(s, word)
  {
  }

  /** What every operator begins with. */
  lemma NoOperator(s: string)
    requires s != "" && s[0] != '=' && s[0] != ':'
    requires |s| == 1 || s[1] != '='
    ensures OperatorAt(s).None?
  {
  }

  lemma {:induction false} NameSpanOf(name: string, tail: string)
    requires (forall i :: 0 <= i < |name| ==> IsNameChar(name[i]))
    requires tail != "" && (IsBlank(tail[0]) || OperatorAt(tail).Some?)
    ensures NameSpan(name + tail) == |name|
  {
    if name == "" {
      assert name + tail == tail;
    } else {
      assert (name + tail)[1..] == name[1..] + tail;
      NameCharIsPlain(name[0]);
      NoOperatorHere(name + tail);
      NameSpanOf(name[1..], tail);
    }
  }

  lemma NameCharIsPlain(c: char)
    requires IsNameChar(c)
    ensures !IsSpace(c) && c !in {'=', ':', '+', '?', '!', '$', '#', ';', '\\'}
  {
  }

  lemma NoOperatorHere(s: string)
    requires s != "" && s[0] !in {'=', ':', '+', '?', '!'}
    ensures OperatorAt(s).None?
  {
  }

  /** A name, an operator and a value, with blanks between them, is an assignment to Make. */
  lemma DefinitionReads(name: string, gap: string, op: Operator, text: string, space: string, value: string)
    requires name != "" && forall i :: 0 <= i < |name| ==> IsNameChar(name[i])
    requires AllBlank(gap) && AllBlank(space) && text in OperatorTexts(op)
    requires value == "" || !IsSpace(value[0])
    ensures DefinitionOf(name + (gap + (text + (space + value)))) == Some(AssignmentLine(name, op, value))
  {
    var behind := text + (space + value);
    var s := name + (gap + behind);
    OperatorReads(op, text, space + value);
    OperatorAgrees(op, text, space + value);
    assert (gap + behind)[0] == if gap == "" then text[0] else gap[0];
    assert gap == "" ==> gap + behind == behind;
    NameSpanOf(name, gap + behind);
    assert s[|name|..] == gap + behind && s[..|name|] == name;
    SkipOf(gap, behind);
    SkipOf(space, value);
  }

  lemma {:induction false} SkipBefore(s: string, tail: string)
    requires tail != "" && !IsSpacing(tail[0])
    ensures Skip(s + tail) == Skip(s) + tail
    ensures forall c <- Skip(s) :: c in s
  {
    if s == "" {
      assert s + tail == tail;
    } else {
      assert (s + tail)[1..] == s[1..] + tail;
      if IsSpacing(s[0]) {
        SkipBefore(s[1..], tail);
      }
    }
  }

  predicate IsPlainHead(s: string) { forall c <- s :: c !in {'$', '\\', '&', ';', '#', ':', '='} }

  lemma {:induction false} NameSpanWithin(head: string, tail: string)
    requires IsPlainHead(head) && tail != "" && tail[0] == ':'
    ensures NameSpan(head + tail) <= |head|
  {
    if head == "" {
      assert head + tail == tail;
    } else {
      var s := head + tail;
      assert s[0] == head[0] && head[0] in head && s[1..] == head[1..] + tail;
      if !IsBlank(s[0]) {
        assert s[1] == if |head| > 1 then head[1] else tail[0];
        assert |head| > 1 ==> head[1] in head;
        NoOperator(s);
        assert forall c <- head[1..] :: c in head;
        NameSpanWithin(head[1..], tail);
      }
    }
  }

  lemma ColonsAreNoOperator(colons: string, tail: string)
    requires EndsTargets(colons, tail) && !At(tail, 0, ':')
    ensures OperatorAt(colons + tail).None?
  {
    var s := colons + tail;
    assert s[0] == ':' && (tail != "" ==> s[|colons|] == tail[0]);
    NotPrefix(s, ":=", 1);
    NotPrefix(s, "::=", 1);
    NotPrefix(s, "::=", 2);
    NotPrefix(s, ":::=", 1);
    NotPrefix(s, ":::=", 2);
    NotPrefix(s, "=", 0);
    NotPrefix(s, "+=", 0);
    NotPrefix(s, "?=", 0);
    NotPrefix(s, "!=", 0);
  }

  /** Targets and colons that do not begin an assignment are no assignment to Make. */
  lemma RuleIsNoDefinition(head: string, colons: string, tail: string)
    requires IsPlainHead(head) && EndsTargets(colons, tail) && !At(tail, 0, ':')
    ensures DefinitionOf(head + (colons + tail)).None?
  {
    var rest := colons + tail;
    var s := head + rest;
    NameSpanWithin(head, rest);
    var n := NameSpan(s);
    assert s[n..] == head[n..] + rest;
    SkipBefore(head[n..], rest);
    var x := Skip(head[n..]);
    assert forall c <- x :: c in head;
    if x == "" {
      assert x + rest == rest;
      ColonsAreNoOperator(colons, tail);
    } else {
      assert (x + rest)[0] == x[0] && x[0] in x;
      assert (x + rest)[1] == if |x| > 1 then x[1] else ':';
      assert |x| > 1 ==> x[1] in x;
      NoOperator(x + rest);
    }
  }

  lemma NoEqualsNoDefinition(s: string)
    requires '=' !in s
    ensures DefinitionOf(s).None?
  {
    var rest := Skip(s[NameSpan(s)..]);
    var space := Skipped(s[NameSpan(s)..]);
    forall c | c in rest
      ensures c in s
    {
      var i :| 0 <= i < |rest| && rest[i] == c;
      assert s[NameSpan(s)..][|space| + i] == c;
    }
    if OperatorAt(rest).Some? {
      OperatorHasEquals(rest);
    }
  }

  lemma OperatorHasEquals(s: string)
    requires OperatorAt(s).Some?
    ensures '=' in s
  {
    var i := |s| - |OperatorAt(s).value.1| - 1;
    assert s[i] == '=';
  }

  lemma {:induction false} NoEqualsNoTargetVariable(tail: string)
    requires '=' !in tail
    ensures !IsTargetVariable(tail)
    decreases |tail|
  {
    var s := Skip(tail);
    var space := Skipped(tail);
    assert forall i :: 0 <= i < |s| ==> s[i] == tail[|space| + i];
    NoEqualsNoDefinition(s);
    if Token(s) in MODIFIERS {
      assert forall c <- s[|Token(s)|..] :: c in s;
      NoEqualsNoTargetVariable(s[|Token(s)|..]);
    }
  }

  // ---- words in front ----

  lemma {:induction false} TokenBefore(word: string, rest: string)
    requires (forall c <- word :: !IsSpace(c)) && (rest == "" || IsBlank(rest[0]))
    ensures Token(word + rest) == word
  {
    if word == "" {
      assert word + rest == rest;
    } else {
      assert (word + rest)[1..] == word[1..] + rest && word == [word[0]] + word[1..];
      assert word[0] in word && forall c <- word[1..] :: c in word;
      TokenBefore(word[1..], rest);
    }
  }

  /** A word that the analyser finds in front of a blank is Make's first token. */
  lemma AfterWordToken(s: string, word: string)
    requires word != "" && (forall c <- word :: !IsSpace(c) && c != '#') && AfterWord(s, word).Some?
    requires PlainBlanks(CutAt(s, '#'))
    ensures Token(s) == word
  {
    var rest := s[|word|..];
    assert s == word + rest;
    CutAtOf(word, rest, '#');
    assert CutAt(rest, '#')[0] == rest[0];
    assert CutAt(s, '#')[|word|] == rest[0];
    TokenBefore(word, rest);
  }

  lemma NoModifier(s: string)
    requires Token(s) !in MODIFIERS && PlainBlanks(CutAt(s, '#'))
    ensures ParseAssignment(s) == ParseBareAssignment(s)
  {
    hide AfterWord, Token, ParseBareAssignment, PlainBlanks, CutAt;
    if AfterWord(s, "override").Some? {
      AfterWordToken(s, "override");
    }
    if AfterWord(s, "export").Some? {
      AfterWordToken(s, "export");
    }
    if AfterWord(s, "private").Some? {
      AfterWordToken(s, "private");
    }
  }

  // ---- whole lines ----

  /** No backslash stands in front of a `#` or a `;`. */
  predicate Unquoted(s: string) {
    forall i :: 0 < i < |s| && s[i] in COMMENT_OR_RECIPE ==> s[i - 1] != '\\'
  }

  lemma CodeIs(line: string)
    requires Unquoted(line) && Bracketed(CutAt(line, '#'))
    ensures Uncommented(line) == CutAt(line, '#')
  {
    var code := CutAt(line, '#');
    assert line == code + line[|code|..];
    StopsAt(code, line[|code|..], COMMENT);
  }

  lemma SkipNothing(s: string)
    requires AllSpacing(s)
    ensures Skip(s) == ""
  {
    SkipOf(s, "");
    assert s + "" == s;
  }

  lemma BlankReads(line: string, prefix: char, open: bool)
    requires Unquoted(line) && AllSpacing(CutAt(line, '#')) && (line == "" || line[0] != prefix)
    ensures Reads(line, prefix, open) == BlankLine
  {
    var code := CutAt(line, '#');
    assert forall c <- code :: IsSpacing(c);
    PlainIsBracketed(code);
    CodeIs(line);
    SkipNothing(code);
  }

  /** How an assignment reads, also one to a special name or behind blanks. */
  lemma DefinitionLine(lead: string, name: string, gap: string, op: Operator, text: string, space: string,
      value: string)
    returns (line: string)
    requires name != "" && forall i :: 0 <= i < |name| ==> IsNameChar(name[i])
    requires AllBlank(lead) && AllBlank(gap) && AllBlank(space) && text in OperatorTexts(op)
    requires value == "" || !IsSpace(value[0])
    requires Unquoted(lead + (name + (gap + (text + (space + value))))) && Bracketed(CutAt(value, '#'))
    ensures line == lead + (name + (gap + (text + (space + value))))
    ensures Skip(Uncommented(line)) != ""
    ensures DefinitionOf(Skip(Uncommented(line))) == Some(AssignmentLine(name, op, CutAt(value, '#')))
  {
    hide Skip, CutAt, Bracketed, Uncommented, DefinitionOf;
    line := lead + (name + (gap + (text + (space + value))));
    var head, v := name + (gap + (text + space)), CutAt(value, '#');
    HeadIsPlain(name, gap, op, text, space);
    assert forall c <- lead :: IsBlank(c);
    assert line == (lead + head) + value && head + v == name + (gap + (text + (space + v)));
    CutAtOf(lead + head, value, '#');
    PlainIsBracketed(lead + head);
    BracketedConcat(lead + head, v);
    CodeIs(line);
    NameCharIsPlain(name[0]);
    assert (lead + head) + v == lead + (head + v);
    SkipOf(lead, head + v);
    DefinitionReads(name, gap, op, text, space, v);
  }

  lemma HeadIsPlain(name: string, gap: string, op: Operator, text: string, space: string)
    requires forall i :: 0 <= i < |name| ==> IsNameChar(name[i])
    requires AllSpace(gap) && AllSpace(space) && text in OperatorTexts(op)
    ensures forall c <- name + (gap + (text + space)) :: c != '$' && c != '#'
  {
    forall c | c in name
      ensures c != '$' && c != '#'
    {
      NameCharIsPlain(c);
    }
    assert forall c <- gap :: IsSpace(c);
    assert forall c <- space :: IsSpace(c);
    assert text in {"=", ":=", "::=", ":::=", "+=", "?=", "!="};
    assert forall c <- text :: c in {'=', ':', '+', '?', '!'};
  }

  /** The whitespace around an operator is code of the line. */
  lemma GapsAreBlank(line: string, name: string, gap: string, op: Operator, text: string, space: string, value: string)
    requires forall i :: 0 <= i < |name| ==> IsNameChar(name[i])
    requires AllSpace(gap) && AllSpace(space) && text in OperatorTexts(op)
    requires line == name + (gap + (text + (space + value))) && PlainBlanks(CutAt(line, '#'))
    ensures AllBlank(gap) && AllBlank(space)
  {
    hide CutAt;
    var head := name + (gap + (text + space));
    HeadIsPlain(name, gap, op, text, space);
    assert line == head + value;
    CutAtOf(head, value, '#');
    var code := CutAt(line, '#');
    assert forall i :: 0 <= i < |gap| ==> code[|name| + i] == gap[i];
    assert forall i :: 0 <= i < |space| ==> code[|name| + |gap| + |text| + i] == space[i];
  }

  lemma VariableReads(line: string, prefix: char, open: bool)
    requires LineOf(line, prefix).Variable? && Token(line) !in MODIFIERS && PlainBlanks(CutAt(line, '#'))
    requires Unquoted(line) && Bracketed(LineOf(line, prefix).assignment.value)
    ensures
      var a := LineOf(line, prefix).assignment;
      Reads(line, prefix, open) == AssignmentLine(a.name, a.op, a.value)
  {
    hide Token, Bracketed, Uncommented, DefinitionOf, PlainBlanks, CutAt;
    NoModifier(line);
    var a := ParseBareAssignment(line).value;
    var gap, text, space := AssignmentIsWritten(line);
    GapsAreBlank(line, a.name, gap, a.op, text, space, a.value);
    assert "" + line == line;
    var _ := DefinitionLine("", a.name, gap, a.op, text, space, a.value);
  }

  lemma PrefixChangeIsWritten(line: string) returns (gap: string, text: string, space: string)
    requires ParseRecipePrefix(line).Some?
    ensures
      var (op, value) := ParseRecipePrefix(line).value;
      && AllSpace(gap) && AllSpace(space) && text in OperatorTexts(op) && (value == "" || !IsSpace(value[0]))
      && line == RECIPE_PREFIX + (gap + (text + (space + value)))
  {
    hide ParseOperator;
    var rest := line[|RECIPE_PREFIX|..];
    gap := LStripped(rest);
    text := OperatorWritten(LStrip(rest));
    space := LStripped(ParseOperator(LStrip(rest)).value.1);
    assert line == RECIPE_PREFIX + rest;
  }

  lemma PrefixChangeReads(line: string, prefix: char, open: bool)
    requires LineOf(line, prefix).PrefixChange? && Unquoted(line) && '$' !in LineOf(line, prefix).value
    requires PlainBlanks(CutAt(line, '#'))
    ensures
      var change := LineOf(line, prefix);
      && Reads(line, prefix, open) == AssignmentLine(RECIPE_PREFIX, change.op, CutAt(change.value, '#'))
      && LStrip(CutAt(change.value, '#')) == CutAt(change.value, '#')
  {
    hide Uncommented, DefinitionOf, CutAt, ParseRecipePrefix, Bracketed, Unquoted, OperatorTexts, PlainBlanks;
    var gap, text, space := PrefixChangeIsWritten(line);
    var (op, value) := ParseRecipePrefix(line).value;
    ValueIsPlain(value);
    GapsAreBlank(line, RECIPE_PREFIX, gap, op, text, space, value);
    assert "" + line == line;
    var _ := DefinitionLine("", RECIPE_PREFIX, gap, op, text, space, value);
  }

  lemma ValueIsPlain(value: string)
    requires '$' !in value && (value == "" || !IsSpace(value[0]))
    ensures Bracketed(CutAt(value, '#')) && LStrip(CutAt(value, '#')) == CutAt(value, '#')
  {
    PlainIsBracketed(CutAt(value, '#'));
    LStripOf("", CutAt(value, '#'));
    assert "" + CutAt(value, '#') == CutAt(value, '#');
  }

  lemma FrontIsName(s: string)
    requires NameLength(s) > 0
    ensures IsName(s[..NameLength(s)])
  {
    NameRunIsName(s[1..]);
    forall i | 0 <= i < NameLength(s)
      ensures IsNameChar(s[i])
    {
      assert i > 0 ==> s[i] == s[1..][i - 1];
    }
  }

  /** How an `undefine` without modifier is written. */
  lemma UndefineIsWritten(code: string) returns (gap: string, tail: string)
    requires ParseUndefine(code).Some? && Token(code) !in MODIFIERS && PlainBlanks(CutAt(code, '#'))
    ensures
      var name := ParseUndefine(code).value;
      && IsName(name) && AllSpace(gap) && gap != "" && AllSpace(tail)
      && code == "undefine" + (gap + (name + tail))
  {
    hide IsName, NameLength, NonBlank, Token, LStrip, PlainBlanks, CutAt;
    if AfterWord(code, "override").Some? {
      AfterWordToken(code, "override");
    }
    var rest := AfterWord(code, "undefine").value;
    var n := NameLength(rest);
    FrontIsName(rest);
    gap := LStripped(code[|"undefine"|..]);
    tail := rest[n..];
    assert rest == rest[..n] + tail && code == "undefine" + code[|"undefine"|..];
    assert AllSpace(tail) by {
      BlankIsSpace(tail);
    }
    assert gap != "" by {
      GapIsThere(code, gap, rest);
    }
  }

  lemma BlankIsSpace(s: string)
    requires !NonBlank(s)
    ensures AllSpace(s)
  {
  }

  lemma GapIsThere(code: string, gap: string, rest: string)
    requires AfterWord(code, "undefine") == Some(rest) && code[|"undefine"|..] == gap + rest
    ensures gap != ""
  {
    var s := code[|"undefine"|..];
    assert IsSpace(s[0]);
    assert |LStrip(s)| < |s|;
  }

  lemma UndefineReads(line: string, prefix: char, open: bool)
    requires LineOf(line, prefix).Undefine? && Token(line) !in MODIFIERS && Unquoted(line)
    requires PlainBlanks(CutAt(line, '#'))
    ensures Reads(line, prefix, open) == UndefineLine(LineOf(line, prefix).name)
  {
    hide Uncommented, DefinitionOf, Trim, Skip, Token, ParseUndefine, PlainBlanks;
    var code := CutAt(line, '#');
    TokenOfPrefix(code, line);
    ModifiersAreLong(code);
    UndefineCode(code);
    PlainIsBracketed(code);
    CodeIs(line);
  }

  lemma UndefineCode(code: string)
    requires ParseUndefine(code).Some? && Token(code) !in MODIFIERS && '#' !in code && PlainBlanks(code)
    ensures '$' !in code && Skip(code) == code && code != "" && DefinitionOf(code).None?
    ensures Token(code) == "undefine" && Trim(Skip(code[|"undefine"|..])) == ParseUndefine(code).value
  {
    hide DefinitionOf, Trim, Skip, ParseUndefine, Token, IsName;
    Whole(code, '#');
    var gap, tail := UndefineIsWritten(code);
    var name := ParseUndefine(code).value;
    UndefineBlanks(code, gap, name, tail);
    UndefineIsPlain(gap, name, tail);
    SkipOf("", code);
    assert "" + code == code && code[0] == 'u';
    NoEqualsNoDefinition(code);
    TokenBefore("undefine", gap + (name + tail));
    NameEndsPlain(name);
    SkipOf(gap, name + tail);
    assert code[|"undefine"|..] == gap + (name + tail);
    TrimOf(name, tail);
  }

  lemma UndefineBlanks(code: string, gap: string, name: string, tail: string)
    requires PlainBlanks(code) && code == "undefine" + (gap + (name + tail)) && AllSpace(gap) && AllSpace(tail)
    ensures AllBlank(gap) && AllBlank(tail)
  {
    var n := |"undefine"|;
    assert forall i :: 0 <= i < |gap| ==> code[n + i] == gap[i];
    assert forall i :: 0 <= i < |tail| ==> code[n + |gap| + |name| + i] == tail[i];
  }

  lemma NameEndsPlain(name: string)
    requires IsName(name)
    ensures name != "" && !IsSpace(name[0]) && !IsSpace(name[|name| - 1])
  {
    NameCharIsPlain(name[0]);
    NameCharIsPlain(name[|name| - 1]);
  }

  lemma UndefineIsPlain(gap: string, name: string, tail: string)
    requires AllSpace(gap) && AllSpace(tail) && IsName(name)
    ensures forall c <- "undefine" + (gap + (name + tail)) :: c != '$' && c != '='
  {
    forall c | c in name
      ensures c != '$' && c != '='
    {
      NameCharIsPlain(c);
    }
    assert forall c <- gap :: IsSpace(c);
    assert forall c <- tail :: IsSpace(c);
  }

  lemma {:induction false} TokenOfPrefix(front: string, s: string)
    requires front <= s
    ensures Token(front) == Token(s) || Token(front) == front
  {
    if front != "" && !IsSpacing(s[0]) {
      assert front[0] == s[0] && front == [front[0]] + front[1..];
      TokenOfPrefix(front[1..], s[1..]);
    }
  }

  /** An `undefine` is no lone modifier. */
  lemma ModifiersAreLong(code: string)
    requires ParseUndefine(code).Some?
    ensures code !in MODIFIERS
  {
  }

  // ---- rules ----

  /** What a rule line is to Make, in the analyser's terms. */
  function RuleReading(rule: MakeSyntax.Rule): Reading {
    var p := Prerequisites(rule);
    if IsTargetVariable(p) then TargetVariable(rule.names)
    else RuleLine(rule.names, p, if At(rule.after, |p|, ';') then Some(rule.after[|p| + 1..]) else None)
  }

  lemma PrerequisitesEnd(after: string)
    ensures
      var p := CutAt(CutAt(after, ';'), '#');
      p <= after && Free(p, COMMENT_OR_RECIPE) && (|p| < |after| ==> after[|p|] in COMMENT_OR_RECIPE)
  {
    var q := CutAt(after, ';');
    var p := CutAt(q, '#');
    assert forall i :: 0 <= i < |p| ==> p[i] in p && p[i] == q[i] && q[i] in q;
  }

  lemma RuleAtParts(line: string, front: string, head: string, p: string)
    requires front <= line && Stop(line, false, COMMENT_OR_RECIPE) == |front| && Skip(front) == front
    requires front[..Stop(front, false, COLON)] == head && head != "" && |head| < |front|
    requires forall c <- head :: c !in {'$', '\\', '&'}
    requires
      var tail := front[|head| + 1..];
      (if StartsWith(tail, ":") then tail[1..] else tail) == p
    ensures RuleAt(line) ==
      if IsTargetVariable(p) then TargetVariable(TargetNames(head))
      else RuleLine(TargetNames(head), p, if At(line, |front|, ';') then Some(line[|front| + 1..]) else None)
  {
    hide Stop, TargetNames, IsTargetVariable, Skip;
    assert line[..|front|] == front;
  }

  lemma HeadIsCut(head: string, colons: string, after: string, p: string)
    requires IsTargetList(head) && IsPlainHead(head) && EndsTargets(colons, after) && !At(after, 0, ':') && p <= after
    ensures
      var front := head + (colons + p);
      && Skip(front) == front && front[..Stop(front, false, COLON)] == head && head != "" && |head| < |front|
      && (forall c <- head :: c !in {'$', '\\', '&'}) && (colons == ":" || colons == "::") && !At(p, 0, ':')
  {
    hide Skip, Stop, Bracketed;
    var front := head + (colons + p);
    SkipOf("", front);
    assert "" + front == front && front[0] == head[0];
    assert forall i :: 0 <= i < |head| ==> head[i] in head;
    PlainIsBracketed(head);
    StopsAt(head, colons + p, COLON);
  }

  lemma RuleAtReads(head: string, colons: string, rule: MakeSyntax.Rule)
    requires IsTargetList(head) && IsPlainHead(head) && rule.names == TargetNames(head)
    requires EndsTargets(colons, rule.after) && !At(rule.after, 0, ':')
    requires Unquoted(head + (colons + rule.after)) && Bracketed(Prerequisites(rule))
    ensures RuleAt(head + (colons + rule.after)) == RuleReading(rule)
  {
    hide Stop, TargetNames, IsTargetVariable, Skip, Bracketed, CutAt, RuleAt, StartsWith, IsTargetList, IsPlainHead;
    hide Unquoted, EndsTargets, Free;
    var after, p := rule.after, Prerequisites(rule);
    var line := RuleStopsAt(head, colons, after, p);
    HeadIsCut(head, colons, after, p);
    BehindColons(head, colons, p);
    RuleAtBehind(line, head + (colons + p), head, p, after);
  }

  lemma RuleAtBehind(line: string, front: string, head: string, p: string, after: string)
    requires p <= after && line == front + after[|p|..] && Stop(line, false, COMMENT_OR_RECIPE) == |front|
    requires Skip(front) == front && front[..Stop(front, false, COLON)] == head && head != "" && |head| < |front|
    requires forall c <- head :: c !in {'$', '\\', '&'}
    requires
      var tail := front[|head| + 1..];
      (if StartsWith(tail, ":") then tail[1..] else tail) == p
    ensures RuleAt(line) ==
      if IsTargetVariable(p) then TargetVariable(TargetNames(head))
      else RuleLine(TargetNames(head), p, if At(after, |p|, ';') then Some(after[|p| + 1..]) else None)
  {
    hide Stop, TargetNames, IsTargetVariable, Skip, CutAt, RuleAt, StartsWith;
    RuleAtParts(line, front, head, p);
    if |p| < |after| {
      assert line[|front|] == after[|p|] && line[|front| + 1..] == after[|p| + 1..];
    }
  }

  lemma RuleStopsAt(head: string, colons: string, after: string, p: string) returns (line: string)
    requires IsTargetList(head) && IsPlainHead(head) && EndsTargets(colons, after)
    requires Unquoted(head + (colons + after)) && p == CutAt(CutAt(after, ';'), '#') && Bracketed(p)
    ensures line == head + (colons + after) && p <= after && line == head + (colons + p) + after[|p|..]
    ensures Stop(line, false, COMMENT_OR_RECIPE) == |head + (colons + p)|
  {
    hide Stop, Bracketed, CutAt;
    var front, rest := head + (colons + p), after[|p|..];
    line := head + (colons + after);
    PrerequisitesEnd(after);
    assert line == front + rest;
    FrontIsFree(head, colons, p);
    PlainIsBracketed(head + colons);
    BracketedConcat(head + colons, p);
    assert head + colons + p == front;
    if rest != "" {
      assert line[|front|] == rest[0] && front[|front| - 1] == line[|front| - 1];
    }
    StopsAt(front, rest, COMMENT_OR_RECIPE);
  }

  lemma FrontIsFree(head: string, colons: string, p: string)
    requires IsPlainHead(head) && (colons == ":" || colons == "::") && Free(p, COMMENT_OR_RECIPE)
    ensures Free(head + (colons + p), COMMENT_OR_RECIPE) && '$' !in head + colons
  {
    var s := head + (colons + p);
    forall i | 0 <= i < |s|
      ensures s[i] !in COMMENT_OR_RECIPE
    {
      if i < |head| {
        assert s[i] == head[i] && head[i] in head;
      } else if i < |head| + |colons| {
        assert s[i] == colons[i - |head|];
      } else {
        assert s[i] == p[i - |head| - |colons|];
      }
    }
  }

  lemma BehindColons(head: string, colons: string, p: string)
    requires (colons == ":" || colons == "::") && !At(p, 0, ':')
    ensures
      var tail := (head + (colons + p))[|head| + 1..];
      (if StartsWith(tail, ":") then tail[1..] else tail) == p
  {
    var tail := (head + (colons + p))[|head| + 1..];
    assert tail == colons[1..] + p;
    if colons == ":" {
      assert tail == p;
    } else {
      assert tail[0] == ':' && tail[..1] == ":" && tail[1..] == p;
    }
  }

  /** A rule line is no assignment and no directive to Make. */
  lemma RuleCode(head: string, colons: string, after: string) returns (code: string)
    requires IsTargetList(head) && IsPlainHead(head) && EndsTargets(colons, after) && !At(after, 0, ':')
    requires Token(head + (colons + after)) !in DIRECTIVES + {"undefine"}
    ensures code == Skip(Uncommented(head + (colons + after))) && code != ""
    ensures DefinitionOf(code).None? && Token(code) !in DIRECTIVES + {"undefine"}
  {
    hide Stop, DefinitionOf, Skip, Token, Uncommented, IsTargetList, IsPlainHead, EndsTargets;
    var line := head + (colons + after);
    var y := RuleUncommented(head, colons, after);
    code := head + (colons + y);
    HeadIsCut(head, colons, after, y);
    TailStaysPlain(colons, after, y);
    RuleIsNoDefinition(head, colons, y);
    TokenOfPrefix(code, line);
    assert code[|head|] == ':';
    DirectivesHaveNoColon();
  }

  lemma TailStaysPlain(colons: string, after: string, y: string)
    requires y <= after && EndsTargets(colons, after) && !At(after, 0, ':')
    ensures EndsTargets(colons, y) && !At(y, 0, ':')
  {
  }

  lemma RuleUncommented(head: string, colons: string, after: string) returns (y: string)
    requires IsPlainHead(head) && EndsTargets(colons, after)
    ensures y <= after && Uncommented(head + (colons + after)) == head + (colons + y)
    ensures head + (colons + y) <= head + (colons + after)
  {
    hide Stop;
    var line, front := head + (colons + after), head + colons;
    assert line == front + after;
    FrontIsFree(head, colons, "");
    assert front == head + (colons + "");
    LiteralsText(front, false);
    FreeOfComment(front);
    var e := StopBehind(Literals(front), after, false, COMMENT);
    y := after[..Stop(after, e, COMMENT)];
    assert line[..|front| + |y|] == head + (colons + y);
  }

  lemma FreeOfComment(s: string)
    requires Free(s, COMMENT_OR_RECIPE)
    ensures Free(s, COMMENT)
  {
  }

  lemma DirectivesHaveNoColon()
    ensures forall word <- DIRECTIVES + {"undefine"} :: ':' !in word
  {
  }

  lemma RuleLineIsWritten(line: string) returns (head: string, colons: string)
    requires ParseRule(line).Some?
    ensures IsTargetList(head) && EndsTargets(colons, ParseRule(line).value.after)
    ensures ParseRule(line).value.names == Words(head) && line == head + (colons + ParseRule(line).value.after)
    ensures head == line[..FirstMark(line)]
  {
    hide ParseRule, Words;
    head, colons := RuleIsWritten(line);
    var rest := colons + ParseRule(line).value.after;
    assert line == head + rest;
    assert forall i :: 0 <= i < |head| ==> line[i] == head[i];
    SkipNoMark(line, |head|);
    assert line[|head|..] == rest && rest[0] == ':';
  }

  lemma TargetReads(line: string, prefix: char, open: bool)
    requires LineOf(line, prefix).Target? && Token(line) !in DIRECTIVES + {"undefine"} && Unquoted(line)
    requires IsPlainHead(line[..FirstMark(line)]) && PlainBlanks(line[..FirstMark(line)])
    requires
      var rule := LineOf(line, prefix).rule;
      !At(rule.after, 0, ':') && Bracketed(Prerequisites(rule))
    ensures Reads(line, prefix, open) == RuleReading(LineOf(line, prefix).rule)
  {
    hide Uncommented, DefinitionOf, RuleAt, RuleReading, IsPlainHead, Unquoted, Prerequisites, Bracketed, PlainBlanks;
    var rule := LineOf(line, prefix).rule;
    assert ParseRule(line) == Some(rule) && !(line != "" && line[0] == prefix);
    ReadsRule(line, prefix, open, rule);
  }

  lemma ReadsRule(line: string, prefix: char, open: bool, rule: MakeSyntax.Rule)
    requires ParseRule(line) == Some(rule) && !(line != "" && line[0] == prefix)
    requires Token(line) !in DIRECTIVES + {"undefine"} && Unquoted(line)
    requires IsPlainHead(line[..FirstMark(line)]) && PlainBlanks(line[..FirstMark(line)])
    requires !At(rule.after, 0, ':') && Bracketed(Prerequisites(rule))
    ensures Reads(line, prefix, open) == RuleReading(rule)
  {
    hide ParseRule, Uncommented, DefinitionOf, RuleAt, RuleReading, IsPlainHead, Unquoted, Prerequisites;
    hide Bracketed, WordsFrom, TargetNamesFrom, Skip, Token, PlainBlanks;
    var head, colons := RuleLineIsWritten(line);
    NamesAreWords(head, "");
    var code := RuleCode(head, colons, rule.after);
    RuleAtReads(head, colons, rule);
  }

  // ---- all lines ----

  /** What the analyser takes a line for, in Make's terms. */
  function ReadingOf(line: Line, logical: string): Reading {
    match line
    case Recipe => RecipeLine(if logical == "" then "" else logical[1..])
    case PrefixChange(op, value) => AssignmentLine(RECIPE_PREFIX, op, CutAt(value, '#'))
    case Variable(a) => AssignmentLine(a.name, a.op, a.value)
    case Undefine(name) => UndefineLine(name)
    case Target(rule) => RuleReading(rule)
    case Other => BlankLine
  }

  /** A line that leaves no room for two readings: a recipe line behind an open rule; or no whitespace but spaces
      and tabs among the targets of a rule and in all other code, no directive or modifier in front, no escaped
      `#` or `;`, a literal recipe prefix, well-bracketed values and prerequisites, targets without references or
      escapes, and nothing but comments beside recipes, assignments, `undefine` and rules. */
  ghost predicate IsPlainLine(logical: string, prefix: char, open: bool) {
    var line := LineOf(logical, prefix);
    if line.Recipe? then open
    else
      && PlainBlanks(if line.Target? then logical[..FirstMark(logical)] else CutAt(logical, '#'))
      && Token(logical) !in DIRECTIVES && Unquoted(logical)
      && match line
         case PrefixChange(_, value) => '$' !in value
         case Variable(a) => Bracketed(a.value)
         case Target(rule) =>
           && Token(logical) != "undefine" && IsPlainHead(logical[..FirstMark(logical)])
           && !At(rule.after, 0, ':') && Bracketed(Prerequisites(rule))
         case Other => !NonBlank(CutAt(logical, '#'))
         case _ => true
  }

  /** On such a line the regular expressions and Make agree. */
  lemma ReadAlike(logical: string, prefix: char, open: bool)
    requires IsPlainLine(logical, prefix, open)
    ensures Reads(logical, prefix, open) == ReadingOf(LineOf(logical, prefix), logical)
  {
    hide LineOf, Reads, RuleReading, IsPlainHead, Unquoted, Prerequisites, Bracketed, CutAt, Token, NonBlank;
    hide PlainBlanks, ParseRule, AllSpacing;
    match LineOf(logical, prefix)
    case Recipe => RecipeReads(logical, prefix, open);
    case PrefixChange(_, _) => PrefixChangeReads(logical, prefix, open);
    case Variable(_) => VariableReads(logical, prefix, open);
    case Undefine(_) => UndefineReads(logical, prefix, open);
    case Target(_) =>
      TargetReads(logical, prefix, open);
    case Other =>
      RecipeIsPrefixed(logical, prefix);
      BlanksAreSpacing(CutAt(logical, '#'));
      BlankReads(logical, prefix, open);
  }

  lemma BlanksAreSpacing(s: string)
    requires PlainBlanks(s) && !NonBlank(s)
    ensures AllSpacing(s)
  {
  }

  lemma RecipeIsPrefixed(logical: string, prefix: char)
    ensures LineOf(logical, prefix).Recipe? <==> logical != "" && logical[0] == prefix
  {
  }

  lemma RecipeReads(logical: string, prefix: char, open: bool)
    requires LineOf(logical, prefix).Recipe? && open
    ensures logical != "" && Reads(logical, prefix, open) == RecipeLine(logical[1..])
  {
  }
}
