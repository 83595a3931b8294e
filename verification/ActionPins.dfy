/** Composite-action pins in a workflow, and how they advance to another revision. */
module ActionPins {
  import opened Strings

  const USES := "uses:"
  const ACTIONS := "Quantum-L9/l9-ci-core/.github/actions/"

  predicate IsNameChar(c: char) {
    'A' <= c <= 'Z' || 'a' <= c <= 'z' || '0' <= c <= '9' || c == '.' || c == '_' || c == '-'
  }

  predicate IsReferenceChar(c: char) { !IsSpace(c) && c != '#' }

  // ---- one line ----

  /** `dash` is the space behind a leading `-`, `comment` what follows a `#`. */
  datatype Pin = Pin(indent: string, dash: Option<string>, gap: string, name: string, sha: string, space: string,
    comment: Option<string>)

  predicate AllOf(s: string, kind: char -> bool) { forall c <- s :: kind(c) }

  predicate IsPin(p: Pin) {
    && AllOf(p.indent, IsSpace) && (p.dash.Some? ==> AllOf(p.dash.value, IsSpace)) && AllOf(p.gap, IsSpace)
    && p.name != "" && AllOf(p.name, IsNameChar)
    && p.sha != "" && AllOf(p.sha, IsReferenceChar)
    && AllOf(p.space, IsSpace)
  }

  function PrintDash(dash: Option<string>): string { if dash.Some? then "-" + dash.value else "" }
  function PrintComment(comment: Option<string>): string { if comment.Some? then "#" + comment.value else "" }

  function Suffix(p: Pin): string { p.space + PrintComment(p.comment) }
  function Reference(p: Pin): string { p.sha + Suffix(p) }
  function Action(p: Pin): string { ACTIONS + (p.name + ("@" + Reference(p))) }
  function Print(p: Pin): string { p.indent + (PrintDash(p.dash) + (USES + (p.gap + Action(p)))) }

  /** The longest prefix of `s` all of `kind`. */
  function Span(s: string, kind: char -> bool): (r: string)
    ensures r <= s
  {
    if s == "" || !kind(s[0]) then "" else [s[0]] + Span(s[1..], kind)
  }

  function Behind(s: string, prefix: string): string
    requires prefix <= s
  {
    s[|prefix|..]
  }

  function ParseSuffix(s: string): Option<(string, Option<string>)> {
    var space := Span(s, IsSpace);
    var rest := Behind(s, space);
    if rest == "" then Some((space, None))
    else if rest[0] == '#' then Some((space, Some(rest[1..])))
    else None
  }

  function ParseAction(s: string): Option<Pin> {
    if !StartsWith(s, ACTIONS) then None else
    var name := Span(Behind(s, ACTIONS), IsNameChar);
    var at := Behind(Behind(s, ACTIONS), name);
    if name == "" || at == "" || at[0] != '@' then None else
    var sha := Span(at[1..], IsReferenceChar);
    var suffix := ParseSuffix(Behind(at[1..], sha));
    if sha == "" || suffix.None? then None
    else Some(Pin("", None, "", name, sha, suffix.value.0, suffix.value.1))
  }

  function ParseDash(s: string): Option<string> {
    if s != "" && s[0] == '-' then Some(Span(s[1..], IsSpace)) else None
  }

  lemma DashIsPrefix(s: string)
    ensures PrintDash(ParseDash(s)) <= s
  {
  }

  /** What the pin pattern finds on a line. */
  function Parse(line: string): Option<Pin> {
    var indent := Span(line, IsSpace);
    var dashed := Behind(line, indent);
    DashIsPrefix(dashed);
    var uses := Behind(dashed, PrintDash(ParseDash(dashed)));
    if !StartsWith(uses, USES) then None else
    var gap := Span(Behind(uses, USES), IsSpace);
    var pin := ParseAction(Behind(Behind(uses, USES), gap));
    if pin.None? then None
    else Some(pin.value.(indent := indent, dash := ParseDash(dashed), gap := gap))
  }

  lemma {:induction false} SpanIsKind(s: string, kind: char -> bool)
    ensures AllOf(Span(s, kind), kind)
  {
    if s != "" && kind(s[0]) {
      SpanIsKind(s[1..], kind);
    }
  }

  lemma {:induction false} SpanOf(a: string, rest: string, kind: char -> bool)
    requires AllOf(a, kind) && (rest == "" || !kind(rest[0]))
    ensures Span(a + rest, kind) == a && Behind(a + rest, a) == rest
  {
    if a == "" {
      assert a + rest == rest;
    } else {
      assert a == [a[0]] + a[1..];
      assert (a + rest)[1..] == a[1..] + rest;
      SpanOf(a[1..], rest, kind);
    }
  }

  lemma PrefixThenBehind(s: string, prefix: string)
    requires prefix <= s
    ensures prefix + Behind(s, prefix) == s
  {
  }

  lemma SuffixRoundTrip(space: string, comment: Option<string>)
    requires AllOf(space, IsSpace)
    ensures ParseSuffix(space + PrintComment(comment)) == Some((space, comment))
  {
    SpanOf(space, PrintComment(comment), IsSpace);
    assert comment.Some? ==> PrintComment(comment)[1..] == comment.value;
  }

  lemma ActionRoundTrip(p: Pin)
    requires IsPin(p)
    ensures ParseAction(Action(p)) == Some(p.(indent := "", dash := None, gap := ""))
  {
    var at := "@" + Reference(p);
    assert Behind(Action(p), ACTIONS) == p.name + at;
    SpanOf(p.name, at, IsNameChar);
    assert at[1..] == Reference(p);
    assert Suffix(p) == "" || !IsReferenceChar(Suffix(p)[0]) by {
      assert p.space != "" ==> Suffix(p)[0] == p.space[0] && p.space[0] in p.space;
    }
    SpanOf(p.sha, Suffix(p), IsReferenceChar);
    SuffixRoundTrip(p.space, p.comment);
  }

  lemma DashRoundTrip(dash: Option<string>, rest: string)
    requires rest != "" && !IsSpace(rest[0]) && rest[0] != '-' && (dash.Some? ==> AllOf(dash.value, IsSpace))
    ensures ParseDash(PrintDash(dash) + rest) == dash && Behind(PrintDash(dash) + rest, PrintDash(dash)) == rest
  {
    if dash.Some? {
      DashSpans(dash.value, rest);
    } else {
      assert PrintDash(dash) + rest == rest;
    }
  }

  lemma DashSpans(space: string, rest: string)
    requires rest != "" && !IsSpace(rest[0]) && AllOf(space, IsSpace)
    ensures
      var s := "-" + space + rest;
      s[0] == '-' && Span(s[1..], IsSpace) == space && "-" + space <= s && Behind(s, "-" + space) == rest
  {
    hide Span;
    var s := "-" + space + rest;
    SpanOf(space, rest, IsSpace);
    assert s[1..] == space + rest && s[..|"-" + space|] == "-" + space;
  }

  /** Reading a printed pin line gives the pin back ... */
  lemma PrintedParses(p: Pin)
    requires IsPin(p)
    ensures Parse(Print(p)) == Some(p)
  {
    var uses := USES + (p.gap + Action(p));
    var dashed := PrintDash(p.dash) + uses;
    SpanOf(p.indent, dashed, IsSpace);
    DashRoundTrip(p.dash, uses);
    assert Behind(uses, USES) == p.gap + Action(p);
    SpanOf(p.gap, Action(p), IsSpace);
    ActionRoundTrip(p);
  }

  lemma ActionPrints(s: string)
    requires ParseAction(s).Some?
    ensures IsPin(ParseAction(s).value) && Action(ParseAction(s).value) == s
  {
    hide Span;
    var p := ParseAction(s).value;
    var named := Behind(s, ACTIONS);
    PrefixThenBehind(s, ACTIONS);
    SpanIsKind(named, IsNameChar);
    PrefixThenBehind(named, p.name);
    var at := Behind(named, p.name);
    assert at == "@" + at[1..];
    SpanIsKind(at[1..], IsReferenceChar);
    PrefixThenBehind(at[1..], p.sha);
    SuffixPrints(Behind(at[1..], p.sha));
  }

  lemma SuffixPrints(s: string)
    requires ParseSuffix(s).Some?
    ensures var (space, comment) := ParseSuffix(s).value; AllOf(space, IsSpace) && space + PrintComment(comment) == s
  {
    var space := Span(s, IsSpace);
    SpanIsKind(s, IsSpace);
    PrefixThenBehind(s, space);
    var rest := Behind(s, space);
    assert rest != "" ==> rest == [rest[0]] + rest[1..];
  }

  /** ... and printing a pin that was read gives the line back: a pin line has one decomposition. */
  lemma ParsedPrints(line: string)
    requires Parse(line).Some?
    ensures IsPin(Parse(line).value) && Print(Parse(line).value) == line
  {
    var p := Parse(line).value;
    SpanIsKind(line, IsSpace);
    PrefixThenBehind(line, p.indent);
    var dashed := Behind(line, p.indent);
    DashIsPrefix(dashed);
    PrefixThenBehind(dashed, PrintDash(p.dash));
    if p.dash.Some? {
      SpanIsKind(dashed[1..], IsSpace);
    }
    var uses := Behind(dashed, PrintDash(p.dash));
    PrefixThenBehind(uses, USES);
    SpanIsKind(Behind(uses, USES), IsSpace);
    PrefixThenBehind(Behind(uses, USES), p.gap);
    ActionPrints(Behind(Behind(uses, USES), p.gap));
  }

  // ---- the whole text ----

  function SplitLines(text: string): (lines: seq<string>)
    ensures lines != []
  {
    SplitOn(text, '\n')
  }

  /** A full pin gets the new SHA; every other line stays. */
  function RewriteLine(line: string, sha: string): string {
    var pin := Parse(line);
    if pin.Some? && IsFull(pin.value.sha) then Print(pin.value.(sha := sha)) else line
  }

  /** The reference a line pins, if it pins one. */
  function ReferenceOn(line: string): Option<string> {
    var pin := Parse(line);
    if pin.Some? then Some(pin.value.sha) else None
  }

  datatype Change = Change(line: nat, before: string, after: string)

  predicate ChangesReference(reference: Option<string>, sha: string) {
    reference.Some? && IsFull(reference.value) && reference.value != sha
  }

  predicate Changes(line: string, sha: string) {
    ChangesReference(ReferenceOn(line), sha)
  }

  function RewriteLines(lines: seq<string>, sha: string): (r: seq<string>)
    ensures |r| == |lines|
  {
    seq(|lines|, i requires 0 <= i < |lines| => RewriteLine(lines[i], sha))
  }

  function ChangeOf(reference: Option<string>, number: nat, sha: string): seq<Change> {
    if ChangesReference(reference, sha) then [Change(number, reference.value, sha)] else []
  }

  type References = seq<Option<string>>

  function ReferencesOn(lines: seq<string>): (r: References)
    ensures |r| == |lines|
  {
    seq(|lines|, i requires 0 <= i < |lines| => ReferenceOn(lines[i]))
  }

  /** The changes among the first `n` lines. */
  function ChangesOf(references: References, n: nat, sha: string): seq<Change>
    requires n <= |references|
  {
    if n == 0 then [] else ChangesOf(references, n - 1, sha) + ChangeOf(references[n - 1], n, sha)
  }

  function AllChanges(lines: seq<string>, sha: string): seq<Change> {
    ChangesOf(ReferencesOn(lines), |lines|, sha)
  }

  method RewriteOne(line: string, number: nat, sha: string) returns (now: string, changed: seq<Change>)
    ensures now == RewriteLine(line, sha)
    ensures changed == ChangeOf(ReferenceOn(line), number, sha)
  {
    var pin := Parse(line);
    RewriteOwn(line, sha);
    if pin.None? || pin.value.sha == sha || !IsFull(pin.value.sha) {
      return line, [];
    }
    return Print(pin.value.(sha := sha)), [Change(number, pin.value.sha, sha)];
  }

  method RewriteAll(before: seq<string>, sha: string) returns (lines: seq<string>, changed: seq<Change>)
    ensures lines == RewriteLines(before, sha) && changed == AllChanges(before, sha)
  {
    lines, changed := before, [];
    for i := 0 to |lines|
      invariant |lines| == |before| && lines[..i] == RewriteLines(before[..i], sha) && lines[i..] == before[i..]
      invariant changed == AllChanges(before[..i], sha)
    {
      LinesOneMore(before, i, sha);
      AllChangesOneMore(before, i, sha);
      assert lines[i] == lines[i..][0] == before[i];
      var now, change := RewriteOne(lines[i], i + 1, sha);
      ghost var was := lines;
      lines := lines[i := now];
      assert lines[..i + 1] == was[..i] + [now] && lines[i + 1..] == was[i..][1..] == before[i + 1..];
      changed := changed + change;
    }
    assert before[..|before|] == before && lines[..|lines|] == lines;
  }

  lemma LinesOneMore(lines: seq<string>, i: nat, sha: string)
    requires i < |lines|
    ensures RewriteLines(lines[..i + 1], sha) == RewriteLines(lines[..i], sha) + [RewriteLine(lines[i], sha)]
  {
    hide RewriteLine;
    var a, b := RewriteLines(lines[..i + 1], sha), RewriteLines(lines[..i], sha);
    assert a[..i] == b;
    assert a[i] == RewriteLine(lines[i], sha);
    assert a == a[..i] + [a[i]];
  }

  lemma AllChangesOneMore(lines: seq<string>, i: nat, sha: string)
    requires i < |lines|
    ensures AllChanges(lines[..i + 1], sha) == AllChanges(lines[..i], sha) + ChangeOf(ReferenceOn(lines[i]), i + 1, sha)
  {
    ReferencesOneMore(lines, i);
    ChangesOneMore(ReferencesOn(lines[..i]), ReferenceOn(lines[i]), sha);
  }

  lemma ReferencesOneMore(lines: seq<string>, i: nat)
    requires i < |lines|
    ensures ReferencesOn(lines[..i + 1]) == ReferencesOn(lines[..i]) + [ReferenceOn(lines[i])]
  {
    hide ReferenceOn;
    var a, b := ReferencesOn(lines[..i + 1]), ReferencesOn(lines[..i]);
    assert a[..i] == b;
    assert a[i] == ReferenceOn(lines[i]);
    assert a == a[..i] + [a[i]];
  }

  lemma ChangesOneMore(references: References, reference: Option<string>, sha: string)
    ensures ChangesOf(references + [reference], |references| + 1, sha)
         == ChangesOf(references, |references|, sha) + ChangeOf(reference, |references| + 1, sha)
  {
    ChangesWithin(references, references + [reference], |references|, sha);
  }

  lemma {:induction false} ChangesWithin(a: References, b: References, n: nat, sha: string)
    requires n <= |a| && a <= b
    ensures ChangesOf(a, n, sha) == ChangesOf(b, n, sha)
  {
    if n > 0 {
      ChangesWithin(a, b, n - 1, sha);
    }
  }

  method Rewrite(text: string, sha: string) returns (rewritten: string, changed: seq<Change>)
    ensures rewritten == JoinLines(RewriteLines(SplitLines(text), sha))
    ensures changed == AllChanges(SplitLines(text), sha)
  {
    var lines;
    lines, changed := RewriteAll(SplitLines(text), sha);
    rewritten := JoinLines(lines);
  }

  lemma RewriteOwn(line: string, sha: string)
    ensures !Changes(line, sha) ==> RewriteLine(line, sha) == line
    ensures Changes(line, sha) ==> RewriteLine(line, sha) != line || !IsFull(sha)
  {
    if Parse(line).Some? {
      ParsedPrints(line);
      assert Parse(line).value.sha == sha ==> Parse(line).value.(sha := sha) == Parse(line).value;
      if IsFull(sha) {
        RewrittenPin(line, sha);
      }
    }
  }

  lemma FullIsReference(sha: string)
    requires IsFull(sha)
    ensures sha != "" && AllOf(sha, IsReferenceChar) && '\n' !in sha
  {
  }

  /** What rewriting does to the pin of a line: everything but the SHA stays. */
  lemma RewrittenPin(line: string, sha: string)
    requires IsFull(sha)
    ensures
      var pin := Parse(line);
      Parse(RewriteLine(line, sha)) == if pin.Some? && IsFull(pin.value.sha) then Some(pin.value.(sha := sha)) else pin
  {
    if Parse(line).Some? {
      ParsedPrints(line);
      FullIsReference(sha);
      PrintedParses(Parse(line).value.(sha := sha));
    }
  }

  lemma RewrittenIsLine(line: string, sha: string)
    requires '\n' !in line && IsFull(sha)
    ensures '\n' !in RewriteLine(line, sha)
  {
    if Parse(line).Some? {
      var p := Parse(line).value;
      ParsedPrints(line);
      FullIsReference(sha);
      var q := p.(sha := sha);
      PrintParts(p);
      PrintParts(q);
      NotIn(Prefix(p), p.sha, Suffix(p));
      NotIn(Prefix(q), q.sha, Suffix(q));
    }
  }

  lemma NotIn(a: string, b: string, c: string)
    ensures '\n' !in a + (b + c) <==> '\n' !in a && '\n' !in b && '\n' !in c
  {
  }

  /** A printed pin is its prefix, its SHA and its suffix; the prefix does not depend on the SHA. */
  function Prefix(p: Pin): string { p.indent + (PrintDash(p.dash) + (USES + (p.gap + (ACTIONS + (p.name + "@"))))) }

  lemma PrintParts(p: Pin)
    ensures Print(p) == Prefix(p) + (p.sha + Suffix(p))
  {
    var r := Reference(p);
    assert p.name + ("@" + r) == (p.name + "@") + r;
    assert ACTIONS + ((p.name + "@") + r) == (ACTIONS + (p.name + "@")) + r;
    var a := ACTIONS + (p.name + "@");
    assert p.gap + (a + r) == (p.gap + a) + r;
    var b := p.gap + a;
    assert USES + (b + r) == (USES + b) + r;
    var c := USES + b;
    assert PrintDash(p.dash) + (c + r) == (PrintDash(p.dash) + c) + r;
    assert p.indent + ((PrintDash(p.dash) + c) + r) == (p.indent + (PrintDash(p.dash) + c)) + r;
  }

  lemma RewriteTwiceLine(line: string, a: string, b: string)
    requires IsFull(a) && IsFull(b)
    ensures RewriteLine(RewriteLine(line, a), b) == RewriteLine(line, b)
  {
    RewrittenPin(line, a);
    var pin := Parse(line);
    if pin.Some? && IsFull(pin.value.sha) {
      assert pin.value.(sha := a).(sha := b) == pin.value.(sha := b);
    }
  }

  /** The lines of a rewritten text are the rewritten lines. */
  lemma RewrittenLines(text: string, sha: string)
    requires IsFull(sha)
    ensures SplitLines(JoinLines(RewriteLines(SplitLines(text), sha))) == RewriteLines(SplitLines(text), sha)
  {
    SplitJoins(text, '\n');
    var lines := SplitLines(text);
    forall i | 0 <= i < |lines|
      ensures '\n' !in RewriteLine(lines[i], sha)
    {
      RewrittenIsLine(lines[i], sha);
    }
    JoinSplits(RewriteLines(lines, sha), '\n');
  }

  function Rewritten(text: string, sha: string): string { JoinLines(RewriteLines(SplitLines(text), sha)) }

  /** Advancing to `a` and then to `b` is advancing to `b`; so advancing is idempotent, and going back is possible. */
  lemma RewriteTwice(text: string, a: string, b: string)
    requires IsFull(a) && IsFull(b)
    ensures Rewritten(Rewritten(text, a), b) == Rewritten(text, b)
  {
    RewrittenLines(text, a);
    var lines := SplitLines(text);
    forall i | 0 <= i < |lines|
      ensures RewriteLine(RewriteLine(lines[i], a), b) == RewriteLine(lines[i], b)
    {
      RewriteTwiceLine(lines[i], a, b);
    }
    assert RewriteLines(RewriteLines(lines, a), b) == RewriteLines(lines, b);
  }

  // ---- pins, floating references and drift ----

  datatype Found = Found(line: nat, reference: string)

  function PinsIn(references: References): seq<Found> {
    if references == [] then [] else
    var n := |references| - 1;
    PinsIn(references[..n]) + (if references[n].Some? then [Found(n + 1, references[n].value)] else [])
  }

  function Pins(text: string): seq<Found> { PinsIn(ReferencesOn(SplitLines(text))) }

  function Select(found: seq<Found>, keep: Found -> bool): seq<Found> {
    if found == [] then [] else (if keep(found[0]) then [found[0]] else []) + Select(found[1..], keep)
  }

  predicate Floats(f: Found) { !IsFull(f.reference) }
  function DriftsFrom(sha: string): Found -> bool { (f: Found) => f.reference != sha }

  function Floating(text: string): seq<Found> { Select(Pins(text), Floats) }
  function Drift(text: string, sha: string): seq<Found> { Select(Pins(text), DriftsFrom(sha)) }

  lemma {:induction false} SelectsNone(found: seq<Found>, keep: Found -> bool)
    ensures Select(found, keep) == [] <==> forall f <- found :: !keep(f)
  {
    if found != [] {
      SelectsNone(found[1..], keep);
      assert found == [found[0]] + found[1..];
    }
  }

  /** The reference a found one becomes: floating ones stay. */
  function Advance(f: Found, sha: string): Found {
    if IsFull(f.reference) then f.(reference := sha) else f
  }

  predicate Advances(before: Option<string>, after: Option<string>, sha: string) {
    after == if before.Some? && IsFull(before.value) then Some(sha) else before
  }

  lemma {:induction false} AdvancedPins(before: References, after: References, sha: string)
    requires |before| == |after| && forall i :: 0 <= i < |before| ==> Advances(before[i], after[i], sha)
    ensures |PinsIn(after)| == |PinsIn(before)|
    ensures forall i :: 0 <= i < |PinsIn(before)| ==> PinsIn(after)[i] == Advance(PinsIn(before)[i], sha)
  {
    if before != [] {
      var n := |before| - 1;
      AdvancedPins(before[..n], after[..n], sha);
      assert Advances(before[n], after[n], sha);
    }
  }

  lemma RewrittenPins(lines: seq<string>, sha: string)
    requires IsFull(sha)
    ensures
      var before, after := PinsIn(ReferencesOn(lines)), PinsIn(ReferencesOn(RewriteLines(lines, sha)));
      |after| == |before| && forall i :: 0 <= i < |before| ==> after[i] == Advance(before[i], sha)
  {
    forall i | 0 <= i < |lines|
      ensures Advances(ReferenceOn(lines[i]), ReferenceOn(RewriteLine(lines[i], sha)), sha)
    {
      RewrittenPin(lines[i], sha);
    }
    AdvancedPins(ReferencesOn(lines), ReferencesOn(RewriteLines(lines, sha)), sha);
  }

  /** Rewriting keeps the number of lines and every line that is no full pin, and finds the same pins on the
      same lines, each full one at the new SHA. */
  lemma RewriteTouchesOnlyPins(text: string, sha: string)
    requires IsFull(sha)
    ensures
      var lines, after := SplitLines(text), SplitLines(Rewritten(text, sha));
      && |after| == |lines|
      && (forall i :: 0 <= i < |lines| && !Changes(lines[i], sha) ==> after[i] == lines[i])
      && |Pins(Rewritten(text, sha))| == |Pins(text)|
      && (forall i :: 0 <= i < |Pins(text)| ==> Pins(Rewritten(text, sha))[i] == Advance(Pins(text)[i], sha))
  {
    RewrittenLines(text, sha);
    var lines := SplitLines(text);
    RewrittenPins(lines, sha);
    forall i | 0 <= i < |lines| && !Changes(lines[i], sha)
      ensures RewriteLine(lines[i], sha) == lines[i]
    {
      RewriteOwn(lines[i], sha);
    }
  }

  /** Where nothing floats, nothing drifts behind a rewrite. */
  lemma RewriteLeavesNoDrift(text: string, sha: string)
    requires IsFull(sha) && Floating(text) == []
    ensures Drift(Rewritten(text, sha), sha) == [] && Floating(Rewritten(text, sha)) == []
  {
    RewriteTouchesOnlyPins(text, sha);
    SelectsNone(Pins(text), Floats);
    var after := Pins(Rewritten(text, sha));
    forall f <- after
      ensures f.reference == sha
    {
      var i :| 0 <= i < |after| && after[i] == f;
      assert f == Advance(Pins(text)[i], sha) && Pins(text)[i] in Pins(text);
    }
    SelectsNone(after, DriftsFrom(sha));
    SelectsNone(after, Floats);
  }

  lemma {:induction false} NoChangeAmong(references: References, n: nat, sha: string)
    requires n <= |references|
    ensures ChangesOf(references, n, sha) == [] <==> forall i :: 0 <= i < n ==> !ChangesReference(references[i], sha)
  {
    hide ChangeOf, ChangesReference;
    if n > 0 {
      NoChangeAmong(references, n - 1, sha);
      NoChangeBehind(ChangesOf(references, n - 1, sha), references[n - 1], n, sha);
    }
  }

  lemma NoChangeBehind(before: seq<Change>, reference: Option<string>, n: nat, sha: string)
    ensures before + ChangeOf(reference, n, sha) == [] <==> before == [] && !ChangesReference(reference, sha)
  {
    hide IsFull;
    var change := ChangeOf(reference, n, sha);
    assert |before + change| == |before| + |change|;
  }

  lemma NoChange(lines: seq<string>, sha: string)
    ensures AllChanges(lines, sha) == [] <==> forall line <- lines :: !Changes(line, sha)
  {
    var references := ReferencesOn(lines);
    NoChangeAmong(references, |lines|, sha);
    assert forall i :: 0 <= i < |lines| ==> (ChangesReference(references[i], sha) <==> Changes(lines[i], sha));
  }

  /** No change is reported exactly when the text stays as it is. */
  lemma UnchangedIff(text: string, sha: string)
    requires IsFull(sha)
    ensures AllChanges(SplitLines(text), sha) == [] <==> Rewritten(text, sha) == text
  {
    var lines := SplitLines(text);
    NoChange(lines, sha);
    SplitJoins(text, '\n');
    RewrittenLines(text, sha);
    ChangedLines(lines, sha);
  }

  lemma ChangedLines(lines: seq<string>, sha: string)
    requires IsFull(sha)
    ensures RewriteLines(lines, sha) == lines <==> forall line <- lines :: !Changes(line, sha)
  {
    forall i | 0 <= i < |lines|
      ensures RewriteLines(lines, sha)[i] == lines[i] <==> !Changes(lines[i], sha)
    {
      RewriteOwn(lines[i], sha);
    }
  }

  // ---- the decision ----

  datatype Mode = Write | Check | DryRun

  /** The exit code, and the workflow file behind the call; None is a missing or linked file. */
  function Decided(file: Option<string>, sha: string, mode: Mode): (nat, Option<string>) {
    if !IsFull(sha) || file.None? || Pins(file.value) == [] then (2, file)
    else if Floating(file.value) != [] then (1, file)
    else if mode.Check? then (if Drift(file.value, sha) == [] then 0 else 1, file)
    else if mode.DryRun? then (0, file)
    else (0, Some(Rewritten(file.value, sha)))
  }

  method Run(file: Option<string>, sha: string, mode: Mode) returns (exit: nat, after: Option<string>)
    ensures (exit, after) == Decided(file, sha, mode)
  {
    after := file;
    if !IsFull(sha) {
      return 2, file;
    }
    if file.None? {
      return 2, file;
    }
    var text := file.value;
    if Pins(text) == [] {
      return 2, file;
    }
    if Floating(text) != [] {
      return 1, file;
    }
    if mode.Check? {
      return if Drift(text, sha) == [] then 0 else 1, file;
    }
    var rewritten, changed := Rewrite(text, sha);
    UnchangedIff(text, sha);
    if changed == [] {
      return 0, file;
    }
    if mode.DryRun? {
      return 0, file;
    }
    return 0, Some(rewritten);
  }

  /** A write that succeeds makes the check succeed, and a second write leaves the file alone; a check
      succeeds exactly when a write would change nothing. */
  lemma WriteThenCheck(file: Option<string>, sha: string)
    requires Decided(file, sha, Write).0 == 0
    ensures
      var after := Decided(file, sha, Write).1;
      && Decided(after, sha, Check) == (0, after)
      && Decided(after, sha, Write) == (0, after)
      && (Decided(file, sha, Check).0 == 0 <==> after == file)
  {
    var text := file.value;
    RewriteLeavesNoDrift(text, sha);
    PinsRemain(text, sha);
    RewriteTwice(text, sha, sha);
    CheckedIff(text, sha);
  }

  lemma PinsRemain(text: string, sha: string)
    requires IsFull(sha)
    ensures Pins(Rewritten(text, sha)) == [] <==> Pins(text) == []
  {
    RewriteTouchesOnlyPins(text, sha);
  }

  lemma CheckedIff(text: string, sha: string)
    requires IsFull(sha) && Floating(text) == []
    ensures Drift(text, sha) == [] <==> Rewritten(text, sha) == text
  {
    var lines := SplitLines(text);
    UnchangedIff(text, sha);
    NoChange(lines, sha);
    var references := ReferencesOn(lines);
    DriftIsChange(references, sha);
    if Drift(text, sha) == [] {
      forall i | 0 <= i < |lines|
        ensures !Changes(lines[i], sha)
      {
        assert !ChangesReference(references[i], sha);
      }
    } else {
      var i :| 0 <= i < |references| && ChangesReference(references[i], sha);
      assert Changes(lines[i], sha);
    }
  }

  lemma DriftIsChange(references: References, sha: string)
    requires Select(PinsIn(references), Floats) == []
    ensures Select(PinsIn(references), DriftsFrom(sha)) == [] <==>
      forall i :: 0 <= i < |references| ==> !ChangesReference(references[i], sha)
  {
    PinsAreReferences(references);
    var found := PinsIn(references);
    SelectsNone(found, DriftsFrom(sha));
    SelectsNone(found, Floats);
    if f :| f in found && DriftsFrom(sha)(f) {
      assert !Floats(f) && ChangesReference(references[f.line - 1], sha);
    } else {
      forall i | 0 <= i < |references| && references[i].Some?
        ensures references[i].value == sha
      {
        assert !DriftsFrom(sha)(Found(i + 1, references[i].value));
      }
    }
  }

  lemma {:induction false} PinsAreReferences(references: References)
    ensures forall f <- PinsIn(references) :: 0 < f.line <= |references| && references[f.line - 1] == Some(f.reference)
    ensures forall i :: 0 <= i < |references| && references[i].Some? ==>
      Found(i + 1, references[i].value) in PinsIn(references)
  {
    if references != [] {
      var n := |references| - 1;
      PinsAreReferences(references[..n]);
    }
  }

  // ---- in the file's own terms ----

  /** A full SHA is forty lowercase hexadecimal digits. */
  lemma FullIff(sha: string)
    ensures IsFull(sha) <==> |sha| == 40 && forall c <- sha :: c in "0123456789abcdef"
  {
    assert forall c <- sha :: IsHex(c) <==> c in "0123456789abcdef" by {
      HexDigits();
    }
    assert forall i :: 0 <= i < |sha| ==> sha[i] in sha;
  }

  lemma HexDigits()
    ensures forall c :: IsHex(c) <==> c in "0123456789abcdef"
  {
    var digits := "0123456789abcdef";
    assert digits[0] == '0' && digits[1] == '1' && digits[2] == '2' && digits[3] == '3';
    assert digits[4] == '4' && digits[5] == '5' && digits[6] == '6' && digits[7] == '7';
    assert digits[8] == '8' && digits[9] == '9' && digits[10] == 'a' && digits[11] == 'b';
    assert digits[12] == 'c' && digits[13] == 'd' && digits[14] == 'e' && digits[15] == 'f';
  }

  /** `line` uses one of Core's own actions at `reference`. */
  ghost predicate UsesCore(line: string, reference: string) {
    exists indent: string, dash: string, gap: string, name: string, space: string, comment: string ::
      IsUse(line, indent, dash, gap, name, reference, space, comment)
  }

  predicate IsUse(line: string, indent: string, dash: string, gap: string, name: string, reference: string,
      space: string, comment: string) {
    && line == indent + dash + "uses:" + gap + "Quantum-L9/l9-ci-core/.github/actions/" + name + "@" + reference
               + space + comment
    && (forall c <- indent + gap + space :: IsSpace(c))
    && (dash == "" || (dash[0] == '-' && forall c <- dash[1..] :: IsSpace(c)))
    && name != "" && (forall c <- name ::
          'A' <= c <= 'Z' || 'a' <= c <= 'z' || '0' <= c <= '9' || c == '.' || c == '_' || c == '-')
    && reference != "" && (forall c <- reference :: !IsSpace(c) && c != '#')
    && (comment == "" || comment[0] == '#')
  }

  lemma Regroup(a: string, b: string, c: string, d: string, e: string, f: string, g: string, h: string, i: string,
      j: string)
    ensures a + (b + (c + (d + (e + (f + (g + (h + (i + j)))))))) == a + b + c + d + e + f + g + h + i + j
  {
    var rest := c + (d + (e + (f + (g + (h + (i + j))))));
    assert a + (b + rest) == (a + b) + rest;
    assert (a + b + c) + (d + (e + (f + (g + (h + (i + j)))))) == (a + b) + (c + (d + (e + (f + (g + (h + (i + j)))))));
    assert (a + b + c + d) + (e + (f + (g + (h + (i + j))))) == (a + b + c) + (d + (e + (f + (g + (h + (i + j))))));
    assert (a + b + c + d + e) + (f + (g + (h + (i + j)))) == (a + b + c + d) + (e + (f + (g + (h + (i + j)))));
    assert (a + b + c + d + e + f) + (g + (h + (i + j))) == (a + b + c + d + e) + (f + (g + (h + (i + j))));
  }

  lemma PrintedText(p: Pin)
    ensures Print(p) == p.indent + PrintDash(p.dash) + "uses:" + p.gap + "Quantum-L9/l9-ci-core/.github/actions/"
      + p.name + "@" + p.sha + p.space + PrintComment(p.comment)
  {
    Regroup(p.indent, PrintDash(p.dash), "uses:", p.gap, "Quantum-L9/l9-ci-core/.github/actions/", p.name, "@", p.sha,
      p.space, PrintComment(p.comment));
  }

  /** A line pins `reference` exactly if it is written so. */
  lemma ReferenceOnIff(line: string, reference: string)
    ensures ReferenceOn(line) == Some(reference) <==> UsesCore(line, reference)
  {
    hide UsesCore, Parse;
    if ReferenceOn(line) == Some(reference) {
      ParsedPrints(line);
      PrintedIsUsed(Parse(line).value);
    }
    if UsesCore(line, reference) {
      UsedIsPinned(line, reference);
    }
  }

  lemma PrintedIsUsed(p: Pin)
    requires IsPin(p)
    ensures UsesCore(Print(p), p.sha)
  {
    hide Print;
    PrintedText(p);
    var dash, comment := PrintDash(p.dash), PrintComment(p.comment);
    assert p.dash.Some? ==> dash[1..] == p.dash.value;
    assert forall c <- p.indent + p.gap + p.space :: c in p.indent || c in p.gap || c in p.space;
    assert IsUse(Print(p), p.indent, dash, p.gap, p.name, p.sha, p.space, comment);
  }

  lemma UsedIsPinned(line: string, reference: string)
    requires UsesCore(line, reference)
    ensures ReferenceOn(line) == Some(reference)
  {
    hide Parse, Print;
    var indent: string, dash: string, gap: string, name: string, space: string, comment: string :|
      IsUse(line, indent, dash, gap, name, reference, space, comment);
    var p := Pin(indent, if dash == "" then None else Some(dash[1..]), gap, name, reference, space,
      if comment == "" then None else Some(comment[1..]));
    assert PrintDash(p.dash) == dash && PrintComment(p.comment) == comment;
    assert forall c :: c in indent || c in gap || c in space ==> c in indent + gap + space;
    assert IsPin(p);
    PrintedText(p);
    PrintedParses(p);
  }

  /** The changes are those of the lines that pin another full SHA, with their numbers, in order. */
  lemma ChangesIff(lines: seq<string>, sha: string, change: Change)
    ensures change in AllChanges(lines, sha) <==>
      && 1 <= change.line <= |lines| && change.after == sha && change.before != sha && IsFull(change.before)
      && ReferenceOn(lines[change.line - 1]) == Some(change.before)
    ensures ChangesRiseTo(AllChanges(lines, sha), |lines|)
  {
    hide ReferenceOn, ChangesOf, IsFull;
    ChangesAmong(ReferencesOn(lines), |lines|, sha, change);
    ChangesRise(ReferencesOn(lines), |lines|, sha);
  }

  lemma {:induction false} ChangesAmong(references: References, n: nat, sha: string, change: Change)
    requires n <= |references|
    ensures change in ChangesOf(references, n, sha) <==>
      && 1 <= change.line <= n && change.after == sha && change.before != sha && IsFull(change.before)
      && references[change.line - 1] == Some(change.before)
  {
    hide IsFull;
    if n > 0 {
      ChangesAmong(references, n - 1, sha, change);
    }
  }

  lemma {:induction false} ChangesRise(references: References, n: nat, sha: string)
    requires n <= |references|
    ensures ChangesRiseTo(ChangesOf(references, n, sha), n)
  {
    hide IsFull;
    if n > 0 {
      ChangesRise(references, n - 1, sha);
    }
  }

  predicate ChangesRiseTo(all: seq<Change>, n: nat) {
    && (forall i :: 0 <= i < |all| ==> 1 <= all[i].line <= n)
    && forall i, j :: 0 <= i < j < |all| ==> all[i].line < all[j].line
  }

  predicate PinsRiseTo(all: seq<Found>, n: nat) {
    && (forall i :: 0 <= i < |all| ==> 1 <= all[i].line <= n)
    && forall i, j :: 0 <= i < j < |all| ==> all[i].line < all[j].line
  }

  /** The pins of a text are its lines' references with their numbers, in order. */
  lemma PinsIff(text: string, f: Found)
    ensures f in Pins(text) <==>
      1 <= f.line <= |SplitLines(text)| && ReferenceOn(SplitLines(text)[f.line - 1]) == Some(f.reference)
    ensures PinsRiseTo(Pins(text), |SplitLines(text)|)
  {
    hide ReferenceOn;
    var references := ReferencesOn(SplitLines(text));
    PinsAreReferences(references);
    if 1 <= f.line <= |references| {
      assert references[f.line - 1] == ReferenceOn(SplitLines(text)[f.line - 1]);
      assert Found(f.line - 1 + 1, f.reference) == f;
    }
    PinsRise(ReferencesOn(SplitLines(text)));
  }

  lemma {:induction false} PinsRise(references: References)
    ensures PinsRiseTo(PinsIn(references), |references|)
  {
    if references != [] {
      PinsRise(references[..|references| - 1]);
    }
  }

  lemma {:induction false} SelectIff(found: seq<Found>, keep: Found -> bool, f: Found)
    ensures f in Select(found, keep) <==> f in found && keep(f)
  {
    if found != [] {
      SelectIff(found[1..], keep, f);
      assert found == [found[0]] + found[1..];
    }
  }

  /** What floats and what drifts. */
  lemma FoundIff(text: string, sha: string, f: Found)
    ensures f in Floating(text) <==> f in Pins(text) && !IsFull(f.reference)
    ensures f in Drift(text, sha) <==> f in Pins(text) && f.reference != sha
  {
    SelectIff(Pins(text), Floats, f);
    SelectIff(Pins(text), DriftsFrom(sha), f);
  }

  lemma PinsOnLines(text: string)
    ensures Pins(text) != [] <==> exists line <- SplitLines(text), reference :: ReferenceOn(line) == Some(reference)
  {
    hide ReferenceOn, SplitLines, Pins;
    if Pins(text) != [] {
      PinsIff(text, Pins(text)[0]);
    }
    if line, reference :| line in SplitLines(text) && ReferenceOn(line) == Some(reference) {
      var f := OnLine(text, line, reference);
    }
  }

  lemma FloatingOnLines(text: string)
    ensures Floating(text) != [] <==>
      exists line <- SplitLines(text), reference :: ReferenceOn(line) == Some(reference) && !IsFull(reference)
  {
    hide ReferenceOn, SplitLines, Pins, Floating, IsFull;
    if Floating(text) != [] {
      FoundIff(text, "", Floating(text)[0]);
      PinsIff(text, Floating(text)[0]);
    }
    if line, reference :| line in SplitLines(text) && ReferenceOn(line) == Some(reference) && !IsFull(reference) {
      var f := OnLine(text, line, reference);
      FoundIff(text, "", f);
    }
  }

  lemma DriftOnLines(text: string, sha: string)
    ensures Drift(text, sha) != [] <==>
      exists line <- SplitLines(text), reference :: ReferenceOn(line) == Some(reference) && reference != sha
  {
    hide ReferenceOn, SplitLines, Pins, Drift;
    if Drift(text, sha) != [] {
      FoundIff(text, sha, Drift(text, sha)[0]);
      PinsIff(text, Drift(text, sha)[0]);
    }
    if line, reference :| line in SplitLines(text) && ReferenceOn(line) == Some(reference) && reference != sha {
      var f := OnLine(text, line, reference);
      FoundIff(text, sha, f);
    }
  }

  lemma OnLine(text: string, line: string, reference: string) returns (f: Found)
    requires line in SplitLines(text) && ReferenceOn(line) == Some(reference)
    ensures f in Pins(text) && f.reference == reference
  {
    hide ReferenceOn, SplitLines, Pins;
    var i :| 0 <= i < |SplitLines(text)| && SplitLines(text)[i] == line;
    f := Found(i + 1, reference);
    PinsIff(text, f);
  }

  /** Exit 2 exactly for a SHA that is not full, a missing file or one that uses no action of Core's; 1 exactly if
      otherwise a reference floats, or drifts in a check; only a write that ends with 0 touches the file. */
  lemma ExitIff(file: Option<string>, sha: string, mode: Mode)
    ensures
      var (exit, after) := Decided(file, sha, mode);
      var usable := IsFull(sha) && file.Some?
        && exists line <- SplitLines(file.value), reference :: ReferenceOn(line) == Some(reference);
      && (exit == 2 <==> !usable)
      && (exit == 1 <==>
            && usable
            && exists line <- SplitLines(file.value), reference ::
                 ReferenceOn(line) == Some(reference) && (!IsFull(reference) || (mode.Check? && reference != sha)))
      && (exit == 0 || exit == 1 || exit == 2)
      && after == if exit == 0 && mode.Write? then Some(Rewritten(file.value, sha)) else file
  {
    hide Pins, Floating, Drift, IsFull, ReferenceOn, SplitLines, Rewritten;
    if file.Some? {
      PinsOnLines(file.value);
      FloatingOnLines(file.value);
      DriftOnLines(file.value, sha);
    }
  }
}
