/** How an executable file is read before it is searched for release writers. */
module ReleaseSources {
  import opened Strings

  // ---- comments ----

  /** Whether the scan is inside quotes, and whether the last character was a backslash. */
  datatype Scan = Scan(quote: Option<char>, escaped: bool)

  const OUTSIDE := Scan(None, false)

  predicate IsQuote(c: char) { c == '"' || c == '\'' }

  function Next(s: Scan, c: char): Scan {
    var quote :=
      if s.quote.Some? then (if c == s.quote.value && !s.escaped then None else s.quote)
      else if IsQuote(c) then Some(c)
      else None;
    Scan(quote, c == '\\')
  }

  /** The scan behind `text`, started at `s`. */
  function Run(s: Scan, text: string): Scan
    decreases |text|
  {
    if text == "" then s else Run(Next(s, text[0]), text[1..])
  }

  /** The character at `i` starts a comment. */
  predicate StartsComment(s: Scan, text: string, i: nat)
    requires i < |text|
  {
    text[i] == '#' && Run(s, text[..i]).quote.None?
  }

  predicate Clean(s: Scan, text: string) {
    forall i :: 0 <= i < |text| ==> !StartsComment(s, text, i)
  }

  lemma {:induction false} RunAppend(s: Scan, a: string, b: string)
    ensures Run(s, a + b) == Run(Run(s, a), b)
    decreases |a|
  {
    if a == "" {
      assert a + b == b;
    } else {
      assert (a + b)[1..] == a[1..] + b;
      RunAppend(Next(s, a[0]), a[1..], b);
    }
  }

  lemma CleanAppend(s: Scan, a: string, b: string)
    ensures Clean(s, a + b) <==> Clean(s, a) && Clean(Run(s, a), b)
  {
    forall i | 0 <= i < |a|
      ensures StartsComment(s, a + b, i) == StartsComment(s, a, i)
    {
      assert (a + b)[..i] == a[..i];
    }
    forall i | 0 <= i < |b|
      ensures StartsComment(s, a + b, |a| + i) == StartsComment(Run(s, a), b, i)
    {
      assert (a + b)[..|a| + i] == a + b[..i];
      RunAppend(s, a, b[..i]);
    }
    if Clean(s, a + b) {
      forall i | 0 <= i < |b|
        ensures !StartsComment(Run(s, a), b, i)
      {
        assert !StartsComment(s, a + b, |a| + i);
      }
    } else {
      var i :| 0 <= i < |a + b| && StartsComment(s, a + b, i);
      assert if i < |a| then StartsComment(s, a, i) else StartsComment(s, a + b, |a| + (i - |a|));
      assert i >= |a| ==> StartsComment(Run(s, a), b, i - |a|);
    }
  }

  /** The longest prefix before any character that starts a comment. */
  predicate IsStripped(line: string, code: string) {
    && code <= line
    && Clean(OUTSIDE, code)
    && (|code| < |line| ==> StartsComment(OUTSIDE, line, |code|))
  }

  method StripComments(line: string) returns (code: string)
    ensures IsStripped(line, code)
  {
    code := "";
    var quote: Option<char> := None;
    var escaped := false;
    for i := 0 to |line|
      invariant code == line[..i] && Run(OUTSIDE, code) == Scan(quote, escaped) && Clean(OUTSIDE, code)
    {
      var c := line[i];
      OneMore(code, c);
      if quote.Some? {
        code := code + [c];
        if c == quote.value && !escaped {
          quote := None;
        }
      } else if IsQuote(c) {
        quote := Some(c);
        code := code + [c];
      } else if c == '#' {
        return;
      } else {
        code := code + [c];
      }
      escaped := c == '\\';
    }
  }

  lemma OneMore(code: string, c: char)
    ensures Run(OUTSIDE, code + [c]) == Next(Run(OUTSIDE, code), c)
    ensures Clean(OUTSIDE, code) ==>
      (Clean(OUTSIDE, code + [c]) <==> !(c == '#' && Run(OUTSIDE, code).quote.None?))
  {
    RunAppend(OUTSIDE, code, [c]);
    CleanAppend(OUTSIDE, code, [c]);
    assert StartsComment(Run(OUTSIDE, code), [c], 0) <==> c == '#' && Run(OUTSIDE, code).quote.None?;
  }

  lemma ShorterIsUnclean(line: string, shorter: string, code: string)
    requires IsStripped(line, shorter) && code <= line && |shorter| < |code|
    ensures !Clean(OUTSIDE, code)
  {
    assert code[..|shorter|] == line[..|shorter|];
    assert StartsComment(OUTSIDE, code, |shorter|);
  }

  /** There is one such prefix, and it strips to itself. */
  lemma StrippingIsIdempotent(line: string, code: string, again: string)
    requires IsStripped(line, code) && (IsStripped(line, again) || IsStripped(code, again))
    ensures again == code
  {
    if |again| < |code| {
      if IsStripped(line, again) {
        ShorterIsUnclean(line, again, code);
      } else {
        ShorterIsUnclean(code, again, code);
      }
    } else if |code| < |again| {
      ShorterIsUnclean(line, code, again);
    }
  }

  /** A line as a reader sees it: plain stretches and closed quotations. */
  datatype Segment = Plain(text: string) | Quoted(mark: char, body: string)

  /** In a quotation its mark stands only behind a backslash. */
  predicate IsBody(mark: char, body: string) {
    && (mark == '\'' || mark == '"')
    && (forall i :: 0 <= i < |body| && body[i] == mark ==> i > 0 && body[i - 1] == '\\')
  }

  /** A closing mark stands behind no backslash. */
  predicate IsSegment(segment: Segment) {
    match segment
    case Plain(text) => '\'' !in text && '"' !in text && '#' !in text
    case Quoted(mark, body) => IsBody(mark, body) && !Slashed(body)
  }

  predicate Slashed(body: string) { body != "" && body[|body| - 1] == '\\' }

  function Show(segment: Segment): string {
    match segment
    case Plain(text) => text
    case Quoted(mark, body) => [mark] + body + [mark]
  }

  function ShowAll(segments: seq<Segment>): string {
    if segments == [] then "" else Show(segments[0]) + ShowAll(segments[1..])
  }

  lemma {:induction false} PlainIsClean(s: Scan, text: string)
    requires IsSegment(Plain(text)) && s.quote.None?
    ensures Run(s, text).quote.None? && Clean(s, text)
    decreases |text|
  {
    if text != "" {
      PlainIsClean(Next(s, text[0]), text[1..]);
      assert text == [text[0]] + text[1..];
      assert Run(s, [text[0]]) == Run(Next(s, text[0]), []);
      CleanAppend(s, [text[0]], text[1..]);
    }
  }

  lemma {:induction false} QuotedIsClean(s: Scan, text: string)
    requires s.quote.Some? && IsQuote(s.quote.value)
    requires forall i :: 0 < i < |text| && text[i] == s.quote.value ==> text[i - 1] == '\\'
    requires text != "" && text[0] == s.quote.value ==> s.escaped
    ensures Clean(s, text) && Run(s, text) == if text == "" then s else Scan(s.quote, Slashed(text))
    decreases |text|
  {
    if text != "" {
      assert text[0] == s.quote.value ==> s.escaped;
      QuotedIsClean(Next(s, text[0]), text[1..]);
      assert text == [text[0]] + text[1..];
      assert Run(s, [text[0]]) == Run(Next(s, text[0]), []);
      CleanAppend(s, [text[0]], text[1..]);
    }
  }

  /** An open quotation hides every `#` in it. */
  lemma OpenIsClean(s: Scan, mark: char, body: string)
    requires IsBody(mark, body) && s.quote.None?
    ensures Clean(s, [mark] + body) && Run(s, [mark] + body) == Scan(Some(mark), Slashed(body))
  {
    assert Run(s, [mark]) == Run(Next(s, mark), []);
    QuotedIsClean(Next(s, mark), body);
    CleanAppend(s, [mark], body);
    RunAppend(s, [mark], body);
  }

  lemma SegmentIsClean(s: Scan, segment: Segment)
    requires IsSegment(segment) && s.quote.None?
    ensures Run(s, Show(segment)).quote.None? && Clean(s, Show(segment))
  {
    match segment
    case Plain(text) => PlainIsClean(s, text);
    case Quoted(mark, body) =>
      OpenIsClean(s, mark, body);
      var open := Run(s, [mark] + body);
      assert Run(open, [mark]) == Run(Next(open, mark), []);
      CleanAppend(s, [mark] + body, [mark]);
      RunAppend(s, [mark] + body, [mark]);
  }

  lemma {:induction false} SegmentsAreClean(s: Scan, segments: seq<Segment>)
    requires (forall segment <- segments :: IsSegment(segment)) && s.quote.None?
    ensures Run(s, ShowAll(segments)).quote.None? && Clean(s, ShowAll(segments))
    decreases |segments|
  {
    if segments != [] {
      var first, rest := Show(segments[0]), ShowAll(segments[1..]);
      SegmentIsClean(s, segments[0]);
      SegmentsAreClean(Run(s, first), segments[1..]);
      CleanAppend(s, first, rest);
      RunAppend(s, first, rest);
    }
  }

  /** Behind closed quotations and plain text, `#` and the rest go; nothing before them does. */
  lemma CommentIsCut(segments: seq<Segment>, comment: string)
    requires forall segment <- segments :: IsSegment(segment)
    ensures IsStripped(ShowAll(segments) + ("#" + comment), ShowAll(segments))
  {
    SegmentsAreClean(OUTSIDE, segments);
    var code := ShowAll(segments);
    assert (code + ("#" + comment))[..|code|] == code;
  }

  /** A quotation that is never closed keeps the line whole, whatever `#` it holds. */
  lemma OpenQuotationIsKept(segments: seq<Segment>, mark: char, body: string)
    requires (forall segment <- segments :: IsSegment(segment)) && IsBody(mark, body)
    ensures
      var line := ShowAll(segments) + ([mark] + body);
      IsStripped(line, line)
  {
    SegmentsAreClean(OUTSIDE, segments);
    OpenIsClean(Run(OUTSIDE, ShowAll(segments)), mark, body);
    CleanAppend(OUTSIDE, ShowAll(segments), [mark] + body);
  }

  // ---- Python literals ----

  /** A token span: rows from 0, columns from 0, the end column exclusive. */
  datatype Token = Token(blanked: bool, row: nat, column: nat, endRow: nat, endColumn: nat)

  function Min(a: nat, b: nat): nat { if a < b then a else b }

  function Spaces(n: nat): (r: string)
    ensures |r| == n && forall c <- r :: c == ' '
  {
    seq(n, i => ' ')
  }

  /** `line[:start] + " " * (end - start) + line[end:]`. */
  function BlankSpan(line: string, start: nat, end: nat): string {
    line[..Min(start, |line|)] + Spaces(if end > start then end - start else 0) + line[Min(end, |line|)..]
  }

  function From(t: Token, row: nat): nat { if row == t.row then t.column else 0 }
  function To(t: Token, row: nat, length: nat): nat { if row == t.endRow then t.endColumn else length }

  function BlankLine(line: string, row: nat, t: Token): string {
    if t.blanked && t.row <= row <= t.endRow then BlankSpan(line, From(t, row), To(t, row, |line|)) else line
  }

  function BlankLineAll(line: string, row: nat, tokens: seq<Token>): string
    decreases |tokens|
  {
    if tokens == [] then line else BlankLineAll(BlankLine(line, row, tokens[0]), row, tokens[1..])
  }

  /** The lines are overwritten in place, one token after the other. */
  method BlankTokens(lines: array<string>, tokens: seq<Token>)
    modifies lines
    ensures forall i :: 0 <= i < lines.Length ==> lines[i] == BlankLineAll(old(lines[i]), i, tokens)
  {
    assert tokens[0..] == tokens;
    for k := 0 to |tokens|
      invariant forall i :: 0 <= i < lines.Length ==>
        BlankLineAll(lines[i], i, tokens[k..]) == BlankLineAll(old(lines[i]), i, tokens)
    {
      assert tokens[k..][1..] == tokens[k + 1..];
      BlankToken(lines, tokens[k]);
    }
  }

  method BlankToken(lines: array<string>, t: Token)
    modifies lines
    ensures forall i :: 0 <= i < lines.Length ==> lines[i] == BlankLine(old(lines[i]), i, t)
  {
    if t.blanked {
      var index := t.row;
      while index <= t.endRow && index < lines.Length
        invariant t.row <= index
        invariant forall i :: 0 <= i < lines.Length ==>
          lines[i] == if i < index then BlankLine(old(lines[i]), i, t) else old(lines[i])
      {
        var start := if index == t.row then t.column else 0;
        var end := if index == t.endRow then t.endColumn else |lines[index]|;
        lines[index] := BlankSpan(lines[index], start, end);
        index := index + 1;
      }
    }
  }

  /** On a line of this length the span lies inside the line. */
  predicate InRange(t: Token, row: nat, length: nat) {
    && (row == t.row < t.endRow ==> t.column <= length)
    && (row == t.endRow ==> t.endColumn <= length)
    && (row == t.row == t.endRow ==> t.column <= t.endColumn)
  }

  /** Place by place: not in front of the token's start and not behind its end. */
  predicate Covers(t: Token, row: nat, column: nat) {
    && t.blanked
    && (t.row < row || (t.row == row && t.column <= column))
    && (row < t.endRow || (row == t.endRow && column < t.endColumn))
  }

  predicate Covered(tokens: seq<Token>, row: nat, column: nat) {
    exists t <- tokens :: Covers(t, row, column)
  }

  /** Blanking keeps every length and turns exactly the union of the spans into spaces. */
  lemma {:induction false} BlankingIsUnion(line: string, row: nat, tokens: seq<Token>)
    requires forall t <- tokens :: InRange(t, row, |line|)
    ensures |BlankLineAll(line, row, tokens)| == |line|
    ensures forall c :: 0 <= c < |line| ==>
      BlankLineAll(line, row, tokens)[c] == if Covered(tokens, row, c) then ' ' else line[c]
    decreases |tokens|
  {
    if tokens != [] {
      var once := BlankLine(line, row, tokens[0]);
      assert tokens[0] in tokens && InRange(tokens[0], row, |line|);
      assert |once| == |line|;
      assert forall c :: 0 <= c < |line| ==> once[c] == if Covers(tokens[0], row, c) then ' ' else line[c];
      BlankingIsUnion(once, row, tokens[1..]);
      forall c | 0 <= c < |line|
        ensures Covered(tokens, row, c) <==>
          Covers(tokens[0], row, c) || Covered(tokens[1..], row, c)
      {
        assert tokens == [tokens[0]] + tokens[1..];
      }
    }
  }

  /** So the order of the tokens, and repetitions among them, do not matter. */
  lemma BlankingOrderIsIrrelevant(line: string, row: nat, a: seq<Token>, b: seq<Token>)
    requires forall t <- a :: InRange(t, row, |line|)
    requires forall t :: t in a <==> t in b
    ensures BlankLineAll(line, row, a) == BlankLineAll(line, row, b)
  {
    BlankingIsUnion(line, row, a);
    BlankingIsUnion(line, row, b);
    forall c | 0 <= c < |line|
      ensures Covered(a, row, c) == Covered(b, row, c)
    {
    }
  }

  // ---- assignments ----

  const UNRESOLVED := "\0"

  datatype Assigned = Assigned(name: string, value: string)

  /** The value without its quotes: first and last character equal and a quote, or no character at all. */
  function Unquoted(value: string): string {
    if |value| > 0 && IsQuote(value[0]) && value[|value| - 1] == value[0] && |value| > 1 then value[1..|value| - 1]
    else if |value| == 1 && IsQuote(value[0]) then ""
    else value
  }

  /** The values `name` is assigned, line by line; `matches` is what the assignment pattern finds. */
  function ValuesOf(lines: seq<string>, matches: string -> Option<Assigned>, name: string): seq<string> {
    if lines == [] then [] else
    var found := matches(lines[0]);
    (if found.Some? && found.value.name == name then [Unquoted(found.value.value)] else [])
      + ValuesOf(lines[1..], matches, name)
  }

  predicate Agree(values: seq<string>) {
    forall v <- values :: v == values[0]
  }

  function Agreed(values: seq<string>): string
    requires values != []
  {
    if Agree(values) then values[0] else UNRESOLVED
  }

  /** A name stands for its value when all its assignments agree, and for no value otherwise. */
  predicate Reads(values: seq<string>, found: map<string, string>, name: string) {
    && (name in found <==> values != [])
    && (name in found ==> found[name] == Agreed(values))
  }

  ghost predicate IsCollection(lines: seq<string>, matches: string -> Option<Assigned>, found: map<string, string>) {
    forall name :: Reads(ValuesOf(lines, matches, name), found, name)
  }

  method CollectAssignments(lines: seq<string>, matches: string -> Option<Assigned>)
    returns (found: map<string, string>)
    ensures IsCollection(lines, matches, found)
  {
    found := map[];
    for i := 0 to |lines|
      invariant IsCollection(lines[..i], matches, found)
    {
      assert lines[..i + 1] == lines[..i] + [lines[i]];
      CollectOneMore(lines[..i], lines[i], matches, found);
      var hit := matches(lines[i]);
      if hit.Some? {
        found := Collect(found, hit.value.name, Unquoted(hit.value.value));
      }
    }
    assert lines[..|lines|] == lines;
  }

  /** A name assigned a second value is no literal any more. */
  function Collect(found: map<string, string>, name: string, value: string): map<string, string> {
    if name in found && found[name] != value then found[name := UNRESOLVED]
    else if name in found then found
    else found[name := value]
  }

  lemma CollectOneMore(lines: seq<string>, line: string, matches: string -> Option<Assigned>, found: map<string,
      string>)
    requires IsCollection(lines, matches, found)
    ensures
      var hit := matches(line);
      IsCollection(lines + [line], matches,
        if hit.Some? then Collect(found, hit.value.name, Unquoted(hit.value.value)) else found)
  {
    var hit := matches(line);
    var after := if hit.Some? then Collect(found, hit.value.name, Unquoted(hit.value.value)) else found;
    forall name
      ensures Reads(ValuesOf(lines + [line], matches, name), after, name)
    {
      ValuesOfAppend(lines, [line], matches, name);
      var before := ValuesOf(lines, matches, name);
      assert Reads(before, found, name);
      if Hits(matches, line, name) {
        assert ValuesOf([line], matches, name) == [Unquoted(hit.value.value)];
        CollectJoins(before, found, name, Unquoted(hit.value.value));
      } else {
        assert ValuesOf([line], matches, name) == [] && before + [] == before;
      }
    }
  }

  lemma CollectJoins(values: seq<string>, found: map<string, string>, name: string, value: string)
    requires Reads(values, found, name)
    ensures Reads(values + [value], Collect(found, name, value), name)
  {
    AgreedOneMore(values, [value]);
  }

  predicate Hits(matches: string -> Option<Assigned>, line: string, name: string) {
    matches(line).Some? && matches(line).value.name == name
  }

  lemma {:induction false} ValuesOfAppend(a: seq<string>, b: seq<string>, matches: string -> Option<Assigned>,
      name: string)
    ensures ValuesOf(a + b, matches, name) == ValuesOf(a, matches, name) + ValuesOf(b, matches, name)
  {
    if a == [] {
      assert a + b == b;
    } else {
      assert (a + b)[1..] == a[1..] + b;
      ValuesOfAppend(a[1..], b, matches, name);
    }
  }

  /** Joining one more value. */
  lemma AgreedOneMore(values: seq<string>, more: seq<string>)
    requires |more| <= 1
    ensures values == [] || more == [] ==> values + more == if values == [] then more else values
    ensures values != [] && more != [] ==>
      Agreed(values + more) == if Agreed(values) == more[0] then more[0] else UNRESOLVED
    ensures more != [] ==> Agreed(more) == more[0]
  {
    if values != [] && more != [] {
      assert (values + more)[0] == values[0] && more[0] in values + more;
      assert forall v :: v in values ==> v in values + more;
      assert Agree(values + more) <==> Agree(values) && more[0] == values[0];
    }
  }

  lemma {:induction false} ValuesAreLines(lines: seq<string>, matches: string -> Option<Assigned>, name: string,
      v: string)
    ensures v in ValuesOf(lines, matches, name) <==>
      exists line <- lines :: Assigns(matches, line, name, v)
  {
    if lines != [] {
      ValuesAreLines(lines[1..], matches, name, v);
      assert lines == [lines[0]] + lines[1..];
      assert v in ValuesOf(lines, matches, name) <==>
        Assigns(matches, lines[0], name, v) || v in ValuesOf(lines[1..], matches, name);
    }
  }

  predicate Assigns(matches: string -> Option<Assigned>, line: string, name: string, v: string) {
    Hits(matches, line, name) && Unquoted(matches(line).value.value) == v
  }

  /** Only which lines there are counts, neither their order nor how often they stand there. */
  lemma CollectionOrderIsIrrelevant(
      a: seq<string>, b: seq<string>, matches: string -> Option<Assigned>,
      foundA: map<string, string>, foundB: map<string, string>)
    requires IsCollection(a, matches, foundA) && IsCollection(b, matches, foundB)
    requires forall line :: line in a <==> line in b
    ensures foundA == foundB
  {
    forall name
      ensures name in foundA <==> name in foundB
      ensures name in foundA ==> foundA[name] == foundB[name]
    {
      SameValues(a, b, matches, name);
      assert Reads(ValuesOf(a, matches, name), foundA, name) && Reads(ValuesOf(b, matches, name), foundB, name);
    }
  }

  lemma SameValues(a: seq<string>, b: seq<string>, matches: string -> Option<Assigned>, name: string)
    requires forall line :: line in a <==> line in b
    ensures
      var va, vb := ValuesOf(a, matches, name), ValuesOf(b, matches, name);
      (va == [] <==> vb == []) && (va != [] ==> Agreed(va) == Agreed(vb))
  {
    var va, vb := ValuesOf(a, matches, name), ValuesOf(b, matches, name);
    forall v
      ensures v in va <==> v in vb
    {
      ValuesAreLines(a, matches, name, v);
      ValuesAreLines(b, matches, name, v);
    }
    assert va != [] ==> va[0] in vb;
    assert vb != [] ==> vb[0] in va;
    assert va != [] && Agree(va) ==> vb[0] == va[0] && Agree(vb);
    assert vb != [] && Agree(vb) ==> va[0] == vb[0] && Agree(va);
  }

  /** A value in quotes is what stands between them, a single quote is nothing, any other value stays. */
  lemma UnquotedIff(value: string, body: string, mark: char)
    ensures mark == '\'' || mark == '"' ==> Unquoted([mark] + body + [mark]) == body && Unquoted([mark]) == ""
    ensures value == "" || (value[0] != '\'' && value[0] != '"') || value[|value| - 1] != value[0] ==>
      Unquoted(value) == value
  {
    var quoted := [mark] + body + [mark];
    assert quoted[1..|quoted| - 1] == body;
  }

  /** A name is in the collection exactly if some line assigns it; it stands for `v` exactly if every line that does
      assigns `v`, and for nothing exactly if two of them disagree or one assigns the marker itself. */
  lemma CollectedIff(lines: seq<string>, matches: string -> Option<Assigned>, found: map<string, string>, name: string,
      v: string)
    requires IsCollection(lines, matches, found)
    ensures name in found <==> exists line <- lines :: matches(line).Some? && matches(line).value.name == name
    ensures name in found ==>
      && (v != "\0" ==>
            (found[name] == v <==>
              forall line <- lines :: matches(line).Some? && matches(line).value.name == name ==>
                Unquoted(matches(line).value.value) == v))
      && (found[name] == "\0" || exists line <- lines :: Assigns(matches, line, name, found[name]))
  {
    var values := ValuesOf(lines, matches, name);
    assert Reads(values, found, name);
    forall w
      ensures w in values <==> exists line <- lines :: Assigns(matches, line, name, w)
    {
      ValuesAreLines(lines, matches, name, w);
    }
    if values != [] {
      assert values[0] in values;
      AgreedIff(values, v);
    }
    forall line <- lines | matches(line).Some? && matches(line).value.name == name
      ensures Unquoted(matches(line).value.value) in values
    {
      assert Assigns(matches, line, name, Unquoted(matches(line).value.value));
    }
  }

  lemma AgreedIff(values: seq<string>, v: string)
    requires values != []
    ensures v != UNRESOLVED ==> (Agreed(values) == v <==> forall w <- values :: w == v)
  {
    assert values[0] in values;
  }
}
