/** Bounded expansion of shell references, and full substitution as its reference. */
module ReleaseExpansion {
  import opened Strings
  import ReleaseSources

  const UNRESOLVED := ReleaseSources.UNRESOLVED
  const ROUNDS := 8

  predicate IsNameStart(c: char) { 'A' <= c <= 'Z' || 'a' <= c <= 'z' || c == '_' }
  predicate IsNamePart(c: char) { IsNameStart(c) || '0' <= c <= '9' }

  function NamePartLength(s: string): (n: nat)
    ensures n <= |s|
  {
    if s == "" || !IsNamePart(s[0]) then 0 else 1 + NamePartLength(s[1..])
  }

  /** The length of the name `s` starts with, 0 if it starts with none. */
  function NameLength(s: string): (n: nat)
    ensures n <= |s|
  {
    if s == "" || !IsNameStart(s[0]) then 0 else NamePartLength(s)
  }

  predicate IsName(name: string) { name != "" && NameLength(name) == |name| }

  /** The reference `s` starts with, `$NAME` or `${NAME}`, and how many characters it takes: 0 if there is none. */
  function Reference(s: string): (r: (string, nat))
    requires s != ""
    ensures r.1 <= |s|
  {
    if s[0] != '$' then ("", 0) else ReferenceBehind(s)
  }

  function ReferenceBehind(s: string): (r: (string, nat))
    requires s != ""
    ensures r.1 <= |s|
  {
    var bare := NameLength(s[1..]);
    var braced := if |s| > 1 && s[1] == '{' then NameLength(s[2..]) else 0;
    if bare > 0 then (s[1..1 + bare], 1 + bare)
    else if braced > 0 && 2 + braced < |s| && s[2 + braced] == '}' then (s[2..2 + braced], 3 + braced)
    else ("", 0)
  }

  datatype Shell = Shell(values: map<string, string>, guarded: set<string>)

  function Substitute(name: string, shell: Shell): string {
    if name in shell.guarded then "0.0.0" else if name in shell.values then shell.values[name] else UNRESOLVED
  }

  /** `EXPANSION.sub(substitute, s)`: one round over all references, left to right. */
  function Sub(s: string, shell: Shell): string
    decreases |s|
  {
    if s == "" then "" else
    var (name, used) := Reference(s);
    if used == 0 then [s[0]] + Sub(s[1..], shell) else Substitute(name, shell) + Sub(s[used..], shell)
  }

  function Expanded(s: string, shell: Shell, rounds: nat): (r: string)
    ensures '$' !in r
    decreases rounds
  {
    if '$' !in s then s
    else if rounds == 0 || Sub(s, shell) == s then UNRESOLVED
    else Expanded(Sub(s, shell), shell, rounds - 1)
  }

  method Expand(value: string, shell: Shell) returns (r: string)
    ensures r == Expanded(value, shell, ROUNDS)
  {
    var current := value;
    for i := 0 to ROUNDS
      invariant Expanded(current, shell, ROUNDS - i) == Expanded(value, shell, ROUNDS)
    {
      if '$' !in current {
        return current;
      }
      var expanded := Sub(current, shell);
      if expanded == current {
        break;
      }
      current := expanded;
    }
    return if '$' !in current then current else UNRESOLVED;
  }

  // ---- the marker stays ----

  predicate Marked(s: string) { '\0' in s }

  lemma {:induction false} NamesAreUnmarked(s: string)
    ensures forall i :: 0 <= i < NamePartLength(s) ==> IsNamePart(s[i])
  {
    if s != "" && IsNamePart(s[0]) {
      NamesAreUnmarked(s[1..]);
      forall i | 0 <= i < NamePartLength(s)
        ensures IsNamePart(s[i])
      {
        assert i > 0 ==> s[i] == s[1..][i - 1];
      }
    }
  }

  lemma ReferenceIsUnmarked(s: string)
    requires s != ""
    ensures !Marked(s[..Reference(s).1])
  {
    NamesAreUnmarked(s[1..]);
    if |s| > 1 {
      NamesAreUnmarked(s[2..]);
    }
    var used := Reference(s).1;
    forall i | 0 <= i < used
      ensures s[i] != '\0'
    {
      if i >= 2 {
        assert s[i] == s[1..][i - 1] && s[i] == s[2..][i - 2];
      }
    }
  }

  lemma {:induction false} SubKeepsMark(s: string, shell: Shell)
    requires Marked(s)
    ensures Marked(Sub(s, shell))
    decreases |s|
  {
    var (name, used) := Reference(s);
    ReferenceIsUnmarked(s);
    if used == 0 {
      if s[0] != '\0' {
        SubKeepsMark(s[1..], shell);
      }
    } else {
      assert s == s[..used] + s[used..];
      SubKeepsMark(s[used..], shell);
    }
  }

  /** Once the marker stands in the text, no later round loses it. */
  lemma {:induction false} MarkSurvives(s: string, shell: Shell, rounds: nat)
    requires Marked(s)
    ensures Marked(Expanded(s, shell, rounds))
    decreases rounds
  {
    if '$' in s && rounds > 0 && Sub(s, shell) != s {
      SubKeepsMark(s, shell);
      MarkSurvives(Sub(s, shell), shell, rounds - 1);
    }
  }

  /** The names of all references in `s`, braced or not. */
  function Names(s: string): set<string>
    decreases |s|
  {
    if s == "" then {} else
    var (name, used) := Reference(s);
    if used == 0 then Names(s[1..]) else {name} + Names(s[used..])
  }

  lemma {:induction false} UnknownNameMarks(s: string, shell: Shell, name: string)
    requires name in Names(s) && Marked(Substitute(name, shell))
    ensures Marked(Sub(s, shell))
    decreases |s|
  {
    var (first, used) := Reference(s);
    if used == 0 {
      UnknownNameMarks(s[1..], shell, name);
    } else if first != name {
      UnknownNameMarks(s[used..], shell, name);
    }
  }

  /** Whatever the text: a reference to an unassigned or conflicting name fails closed. */
  lemma UnknownNameFailsClosed(s: string, shell: Shell, rounds: nat, name: string)
    requires name in Names(s) && Substitute(name, shell) == UNRESOLVED
    ensures Marked(Expanded(s, shell, rounds))
  {
    UnknownNameMarks(s, shell, name);
    NamesNeedDollar(s, name);
    if rounds > 0 && Sub(s, shell) != s {
      MarkSurvives(Sub(s, shell), shell, rounds - 1);
    }
  }

  lemma {:induction false} NamesNeedDollar(s: string, name: string)
    requires name in Names(s)
    ensures '$' in s
    decreases |s|
  {
    var (_, used) := Reference(s);
    if used == 0 {
      NamesNeedDollar(s[1..], name);
    }
  }

  // ---- templates of references ----

  /** Text, or a reference: `${NAME}`, or `$NAME` if it is bare. */
  datatype Piece = Literal(text: string) | Ref(name: string, bare: bool)

  type Template = seq<Piece>

  predicate IsPiece(p: Piece) {
    match p
    case Literal(text) => text != "" && '$' !in text
    case Ref(name, _) => IsName(name)
  }

  predicate IsTemplate(t: Template) { forall p <- t :: IsPiece(p) }

  function Show(p: Piece): string {
    match p
    case Literal(text) => text
    case Ref(name, bare) => if bare then "$" + name else "${" + name + "}"
  }

  function ShowAll(t: Template): string {
    if t == [] then "" else Show(t[0]) + ShowAll(t[1..])
  }

  /** No bare reference is followed by a character that would read as part of its name. */
  predicate Separated(t: Template) {
    forall i :: 0 <= i < |t| - 1 && IsBare(t[i]) ==> !BeginsWithNamePart(t[i + 1])
  }

  predicate IsBare(p: Piece) { p.Ref? && p.bare }

  predicate BeginsWithNamePart(p: Piece) { p.Literal? && p.text != "" && IsNamePart(p.text[0]) }

  type Assignments = map<string, Template>

  function Refs(t: Template): set<string> { set p | p in t && p.Ref? :: p.name }

  /** For each of these names that no guard covers: its value is a printed template, with references to these
      names only, or it is unassigned or conflicting. What other names stand for does not matter. */
  predicate Prints(values: Assignments, shell: Shell, names: set<string>) {
    forall name <- names - shell.guarded :: PrintsName(values, shell, names, name)
  }

  predicate PrintsName(values: Assignments, shell: Shell, names: set<string>, name: string) {
    if name in values then
      && IsTemplate(values[name]) && Refs(values[name]) <= names
      && name in shell.values && ShowAll(values[name]) == shell.values[name]
    else name in shell.values ==> shell.values[name] == UNRESOLVED
  }

  /** Full recursive substitution, at most `depth` references deep. */
  function Resolve(t: Template, values: Assignments, guarded: set<string>, depth: nat): Option<string>
    decreases depth, |t|
  {
    if t == [] then Some("") else
    var first := ResolvePiece(t[0], values, guarded, depth);
    var rest := Resolve(t[1..], values, guarded, depth);
    Concat(first, rest)
  }

  function Concat(a: Option<string>, b: Option<string>): Option<string> {
    if a.Some? && b.Some? then Some(a.value + b.value) else None
  }

  function ResolvePiece(p: Piece, values: Assignments, guarded: set<string>, depth: nat): Option<string>
    decreases depth, 0
  {
    match p
    case Literal(text) => Some(text)
    case Ref(name, _) =>
      if depth == 0 then None
      else if name in guarded then Some("0.0.0")
      else if name in values then Resolve(values[name], values, guarded, depth - 1)
      else None
  }

  /** One round on templates. */
  function StepPiece(p: Piece, values: Assignments, guarded: set<string>): Template {
    match p
    case Literal(_) => [p]
    case Ref(name, _) =>
      if name in guarded then [Literal("0.0.0")]
      else if name in values then values[name]
      else [Literal(UNRESOLVED)]
  }

  function Step(t: Template, values: Assignments, guarded: set<string>): Template {
    if t == [] then [] else StepPiece(t[0], values, guarded) + Step(t[1..], values, guarded)
  }

  predicate IsUnknown(p: Piece, values: Assignments, guarded: set<string>) {
    p.Ref? && p.name !in guarded && p.name !in values
  }

  lemma {:induction false} ShowAppend(a: Template, b: Template)
    ensures ShowAll(a + b) == ShowAll(a) + ShowAll(b)
  {
    if a == [] {
      assert a + b == b;
    } else {
      assert (a + b)[1..] == a[1..] + b;
      ShowAppend(a[1..], b);
    }
  }

  lemma {:induction false} NameEnds(name: string, rest: string)
    requires NamePartLength(name) == |name| && (rest == "" || !IsNamePart(rest[0]))
    ensures NamePartLength(name + rest) == |name|
  {
    if name == "" {
      assert name + rest == rest;
    } else {
      NameEnds(name[1..], rest);
      assert (name + rest)[1..] == name[1..] + rest;
    }
  }

  lemma BracedPrinted(name: string, rest: string)
    requires IsName(name)
    ensures
      var s := Show(Ref(name, false)) + rest;
      Reference(s) == (name, |name| + 3) && s[|name| + 3..] == rest
  {
    var s := Show(Ref(name, false)) + rest;
    NameEnds(name, "}" + rest);
    assert s[2..] == name + ("}" + rest);
    assert s[1..][0] == '{';
    assert s[2..2 + |name|] == name;
  }

  lemma BarePrinted(name: string, rest: string)
    requires IsName(name) && (rest == "" || !IsNamePart(rest[0]))
    ensures
      var s := Show(Ref(name, true)) + rest;
      Reference(s) == (name, |name| + 1) && s[|name| + 1..] == rest
  {
    var s := Show(Ref(name, true)) + rest;
    NameEnds(name, rest);
    assert s[1..] == name + rest;
    assert s[1..1 + |name|] == name;
  }

  lemma SubChar(c: char, rest: string, shell: Shell)
    requires c != '$'
    ensures Sub([c] + rest, shell) == [c] + Sub(rest, shell)
  {
    hide ReferenceBehind, Substitute;
    var s := [c] + rest;
    assert s[0] == c && s[1..] == rest;
  }

  lemma {:induction false} SubLiteral(text: string, rest: string, shell: Shell)
    requires '$' !in text
    ensures Sub(text + rest, shell) == text + Sub(rest, shell)
  {
    hide Sub;
    if text == "" {
      assert text + rest == rest;
    } else {
      SubLiteral(text[1..], rest, shell);
      SubChar(text[0], text[1..] + rest, shell);
      assert text + rest == [text[0]] + (text[1..] + rest);
      assert text == [text[0]] + text[1..];
    }
  }

  lemma SubPiece(p: Piece, rest: string, values: Assignments, shell: Shell, names: set<string>)
    requires IsPiece(p) && Prints(values, shell, names) && (p.Ref? ==> p.name in names)
    requires IsBare(p) ==> rest == "" || !IsNamePart(rest[0])
    ensures Sub(Show(p) + rest, shell) == ShowAll(StepPiece(p, values, shell.guarded)) + Sub(rest, shell)
  {
    match p
    case Literal(text) =>
      SubLiteral(text, rest, shell);
      assert ShowAll([p]) == text + "" == text;
    case Ref(name, bare) =>
      if bare {
        BarePrinted(name, rest);
      } else {
        BracedPrinted(name, rest);
      }
      assert ShowAll([Literal("0.0.0")]) == "0.0.0" + "";
      assert ShowAll([Literal(UNRESOLVED)]) == UNRESOLVED + "";
      assert name !in shell.guarded ==> PrintsName(values, shell, names, name);
      assert Substitute(name, shell) == ShowAll(StepPiece(p, values, shell.guarded));
  }

  /** What follows a bare reference in print, if it is separated. */
  lemma SeparatedPrint(t: Template)
    requires t != [] && IsTemplate(t) && Separated(t)
    ensures Separated(t[1..])
    ensures IsBare(t[0]) ==> ShowAll(t[1..]) == "" || !IsNamePart(ShowAll(t[1..])[0])
  {
    var rest := t[1..];
    assert forall i :: 0 <= i < |rest| ==> rest[i] == t[i + 1];
    if rest != [] {
      assert IsPiece(rest[0]) && (IsBare(t[0]) ==> !BeginsWithNamePart(t[1]));
    }
  }

  /** One round on a printed template prints the stepped template. */
  lemma {:induction false} SubPrinted(t: Template, values: Assignments, shell: Shell, names: set<string>)
    requires IsTemplate(t) && Separated(t) && Prints(values, shell, names) && Refs(t) <= names
    ensures Sub(ShowAll(t), shell) == ShowAll(Step(t, values, shell.guarded))
  {
    if t != [] {
      RefsCons(t);
      SeparatedPrint(t);
      SubPiece(t[0], ShowAll(t[1..]), values, shell, names);
      SubPrinted(t[1..], values, shell, names);
      ShowAppend(StepPiece(t[0], values, shell.guarded), Step(t[1..], values, shell.guarded));
    }
  }

  lemma RefsCons(t: Template)
    requires t != []
    ensures Refs(t) == Refs([t[0]]) + Refs(t[1..])
    ensures t[0].Ref? ==> t[0].name in Refs(t)
  {
    assert forall p :: p in t <==> p in [t[0]] || p in t[1..];
  }

  lemma RefsConcat(a: Template, b: Template)
    ensures Refs(a + b) == Refs(a) + Refs(b)
  {
    assert forall p :: p in a + b <==> p in a || p in b;
  }

  /** One round stays within the names. */
  lemma {:induction false} StepIsTemplate(t: Template, values: Assignments, shell: Shell, names: set<string>)
    requires IsTemplate(t) && Prints(values, shell, names) && Refs(t) <= names
    ensures IsTemplate(Step(t, values, shell.guarded)) && Refs(Step(t, values, shell.guarded)) <= names
  {
    if t != [] {
      RefsCons(t);
      StepIsTemplate(t[1..], values, shell, names);
      assert IsPiece(t[0]);
      var now := StepPiece(t[0], values, shell.guarded);
      assert t[0].Ref? && t[0].name !in shell.guarded ==> PrintsName(values, shell, names, t[0].name);
      assert IsTemplate(now) && Refs(now) <= names;
      RefsConcat(now, Step(t[1..], values, shell.guarded));
    }
  }

  lemma {:induction false} ResolveAppend(a: Template, b: Template, values: Assignments, guarded: set<string>,
      depth: nat)
    ensures Resolve(a + b, values, guarded, depth)
         == Concat(Resolve(a, values, guarded, depth), Resolve(b, values, guarded, depth))
    decreases |a|
  {
    if a == [] {
      assert a + b == b;
      var rest := Resolve(b, values, guarded, depth);
      assert rest.Some? ==> "" + rest.value == rest.value;
    } else {
      assert (a + b)[1..] == a[1..] + b;
      ResolveAppend(a[1..], b, values, guarded, depth);
      ConcatAssoc(ResolvePiece(a[0], values, guarded, depth),
        Resolve(a[1..], values, guarded, depth), Resolve(b, values, guarded, depth));
    }
  }

  lemma ConcatAssoc(a: Option<string>, b: Option<string>, c: Option<string>)
    ensures Concat(Concat(a, b), c) == Concat(a, Concat(b, c))
  {
    if a.Some? && b.Some? && c.Some? {
      Assoc(a.value, b.value, c.value);
    }
  }

  lemma ResolveOne(p: Piece, values: Assignments, guarded: set<string>, depth: nat)
    ensures Resolve([p], values, guarded, depth) == ResolvePiece(p, values, guarded, depth)
  {
    assert [p][1..] == [];
    var first := ResolvePiece(p, values, guarded, depth);
    assert first.Some? ==> first.value + "" == first.value;
  }

  /** A round takes one level off the depth, unless it meets an unknown name. */
  lemma {:induction false} StepResolves(t: Template, values: Assignments, guarded: set<string>, depth: nat)
    requires depth > 0 && forall p <- t :: !IsUnknown(p, values, guarded)
    ensures Resolve(t, values, guarded, depth) == Resolve(Step(t, values, guarded), values, guarded, depth - 1)
    decreases |t|
  {
    if t != [] {
      StepResolves(t[1..], values, guarded, depth);
      var now := StepPiece(t[0], values, guarded);
      ResolveAppend(now, Step(t[1..], values, guarded), values, guarded, depth - 1);
      assert !IsUnknown(t[0], values, guarded);
      assert Resolve(now, values, guarded, depth - 1) == ResolvePiece(t[0], values, guarded, depth) by {
        ResolveOne(t[0], values, guarded, depth - 1);
        ResolveOne(Literal("0.0.0"), values, guarded, depth - 1);
      }
    }
  }

  lemma {:induction false} UnknownIsUnresolved(t: Template, values: Assignments, guarded: set<string>, depth: nat,
      i: nat)
    requires i < |t| && IsUnknown(t[i], values, guarded)
    ensures Resolve(t, values, guarded, depth).None? && Marked(ShowAll(Step(t, values, guarded)))
    decreases i
  {
    var now, rest := StepPiece(t[0], values, guarded), Step(t[1..], values, guarded);
    ShowAppend(now, rest);
    if i == 0 {
      assert ShowAll(now) == UNRESOLVED + "";
      assert ShowAll(now)[0] == '\0';
    } else {
      UnknownIsUnresolved(t[1..], values, guarded, depth, i - 1);
    }
  }

  lemma {:induction false} NoReferenceLeft(t: Template, values: Assignments, guarded: set<string>, depth: nat)
    requires IsTemplate(t)
    ensures '$' !in ShowAll(t) ==> Resolve(t, values, guarded, depth) == Some(ShowAll(t))
    ensures '$' in ShowAll(t) && depth == 0 ==> Resolve(t, values, guarded, depth).None?
    decreases |t|
  {
    if t != [] {
      NoReferenceLeft(t[1..], values, guarded, depth);
      assert IsPiece(t[0]);
      assert t[0].Ref? ==> Show(t[0])[0] == '$';
    }
  }

  predicate AllKnown(t: Template, values: Assignments, guarded: set<string>) {
    forall p <- t :: !IsUnknown(p, values, guarded)
  }

  lemma UnknownMarks(t: Template, values: Assignments, shell: Shell, names: set<string>, rounds: nat)
    requires IsTemplate(t) && Separated(t) && Prints(values, shell, names) && Refs(t) <= names
    requires '$' in ShowAll(t) && !AllKnown(t, values, shell.guarded)
    ensures IsExact(Resolve(t, values, shell.guarded, rounds), Expanded(ShowAll(t), shell, rounds))
  {
    var i :| 0 <= i < |t| && IsUnknown(t[i], values, shell.guarded);
    UnknownIsUnresolved(t, values, shell.guarded, rounds, i);
    SubPrinted(t, values, shell, names);
    MarkedRound(ShowAll(t), shell, rounds);
  }

  lemma MarkedRound(s: string, shell: Shell, rounds: nat)
    requires '$' in s && Marked(Sub(s, shell))
    ensures Marked(Expanded(s, shell, rounds))
  {
    if rounds > 0 {
      MarkSurvives(Sub(s, shell), shell, rounds - 1);
    }
  }

  lemma KnownRound(t: Template, values: Assignments, shell: Shell, names: set<string>, depth: nat)
    returns (next: Template)
    requires IsTemplate(t) && Separated(t) && Prints(values, shell, names) && Refs(t) <= names
    requires depth > 0 && AllKnown(t, values, shell.guarded)
    ensures next == Step(t, values, shell.guarded) && IsTemplate(next) && Refs(next) <= names
    ensures ShowAll(next) == Sub(ShowAll(t), shell)
    ensures Resolve(next, values, shell.guarded, depth - 1) == Resolve(t, values, shell.guarded, depth)
  {
    next := Step(t, values, shell.guarded);
    SubPrinted(t, values, shell, names);
    StepIsTemplate(t, values, shell, names);
    StepResolves(t, values, shell.guarded, depth);
  }

  predicate IsExact(full: Option<string>, got: string) {
    if full.Some? then got == full.value else Marked(got)
  }

  lemma LastRoundIsExact(t: Template, values: Assignments, shell: Shell, rounds: nat)
    requires IsTemplate(t) && ('$' !in ShowAll(t) || rounds == 0)
    ensures IsExact(Resolve(t, values, shell.guarded, rounds), Expanded(ShowAll(t), shell, rounds))
  {
    NoReferenceLeft(t, values, shell.guarded, rounds);
    assert Marked(UNRESOLVED);
  }

  /** A round that changes nothing is the end, and stands for no resolution. */
  lemma RoundIsExact(s: string, shell: Shell, rounds: nat, full: Option<string>)
    requires '$' in s && rounds > 0 && IsExact(full, Expanded(Sub(s, shell), shell, rounds - 1))
    ensures IsExact(full, Expanded(s, shell, rounds))
  {
  }

  /** In none of so many rounds is a bare reference followed by a name character, be it of the text or of a value
      put next to it. */
  predicate StaysSeparated(t: Template, values: Assignments, guarded: set<string>, rounds: nat)
    decreases rounds
  {
    rounds > 0 ==> Separated(t) && StaysSeparated(Step(t, values, guarded), values, guarded, rounds - 1)
  }

  /** Expansion of a text of references, braced or bare, and no other `$`, in any number of rounds: it is full
      recursive substitution to that depth, or it carries the marker. Only the names reachable from the text need
      to stand for such texts, and no bare reference may run into a name character on the way. */
  lemma {:induction false} ExpansionIsExactOrFailsClosed(t: Template, values: Assignments, shell: Shell,
      names: set<string>, rounds: nat)
    requires IsTemplate(t) && Refs(t) <= names && Prints(values, shell, names)
    requires StaysSeparated(t, values, shell.guarded, rounds)
    ensures IsExact(Resolve(t, values, shell.guarded, rounds), Expanded(ShowAll(t), shell, rounds))
    decreases rounds
  {
    hide Resolve, Expanded, ShowAll, IsExact, Prints, AllKnown, IsTemplate, Refs, Separated, Step;
    if '$' !in ShowAll(t) || rounds == 0 {
      LastRoundIsExact(t, values, shell, rounds);
    } else if !AllKnown(t, values, shell.guarded) {
      UnknownMarks(t, values, shell, names, rounds);
    } else {
      var next := KnownRound(t, values, shell, names, rounds);
      ExpansionIsExactOrFailsClosed(next, values, shell, names, rounds - 1);
      RoundIsExact(ShowAll(t), shell, rounds, Resolve(t, values, shell.guarded, rounds));
    }
  }

  // ---- when references stay separated ----

  /** No reachable value is a template that ends in a bare reference or is not separated itself. */
  predicate ValuesEndClosed(values: Assignments, guarded: set<string>, names: set<string>) {
    forall name <- names - guarded :: name in values ==> IsClosed(values[name]) && Refs(values[name]) <= names
  }

  predicate IsClosed(t: Template) { Separated(t) && (t != [] ==> !IsBare(t[|t| - 1])) }

  lemma ClosedConcat(a: Template, b: Template)
    requires IsClosed(a) && IsClosed(b)
    ensures IsClosed(a + b)
  {
    var t := a + b;
    forall i | 0 <= i < |t| - 1 && IsBare(t[i])
      ensures !BeginsWithNamePart(t[i + 1])
    {
      assert i < |a| ==> t[i] == a[i];
      assert i + 1 < |a| ==> t[i + 1] == a[i + 1];
      assert i >= |a| ==> t[i] == b[i - |a|] && t[i + 1] == b[i + 1 - |a|];
    }
    assert b != [] ==> t[|t| - 1] == b[|b| - 1];
    assert b == [] ==> t == a;
  }

  lemma PieceIsClosed(p: Piece, values: Assignments, guarded: set<string>, names: set<string>)
    requires ValuesEndClosed(values, guarded, names) && (p.Ref? ==> p.name in names)
    ensures IsClosed(StepPiece(p, values, guarded)) && Refs(StepPiece(p, values, guarded)) <= names
  {
  }

  lemma {:induction false} StepIsClosed(t: Template, values: Assignments, guarded: set<string>, names: set<string>)
    requires Refs(t) <= names && ValuesEndClosed(values, guarded, names)
    ensures IsClosed(Step(t, values, guarded)) && Refs(Step(t, values, guarded)) <= names
  {
    if t != [] {
      RefsCons(t);
      StepIsClosed(t[1..], values, guarded, names);
      var now := StepPiece(t[0], values, guarded);
      PieceIsClosed(t[0], values, guarded, names);
      ClosedConcat(now, Step(t[1..], values, guarded));
      RefsConcat(now, Step(t[1..], values, guarded));
    }
  }

  /** Where no reachable value ends in a bare reference, it is enough to look at the text and the values alone; in
      particular where all references are braced. */
  lemma {:induction false} ClosedValuesStaySeparated(t: Template, values: Assignments, guarded: set<string>,
      names: set<string>, rounds: nat)
    requires Separated(t) && Refs(t) <= names && ValuesEndClosed(values, guarded, names)
    ensures StaysSeparated(t, values, guarded, rounds)
    decreases rounds
  {
    if rounds > 0 {
      StepIsClosed(t, values, guarded, names);
      ClosedValuesStaySeparated(Step(t, values, guarded), values, guarded, names, rounds - 1);
    }
  }

  /** `A=$B`, `B=x` and `Bc=y`. */
  const MERGING := map["A" := [Ref("B", true)], "B" := [Literal("x")], "Bc" := [Literal("y")]]
  const MERGING_SHELL := Shell(map["A" := "$B", "B" := "x", "Bc" := "y"], {})

  lemma MergingPrints()
    ensures Prints(MERGING, MERGING_SHELL, {"A", "B", "Bc"})
  {
    assert IsName("B");
    ShowOne(Ref("B", true));
    ShowOne(Literal("x"));
    ShowOne(Literal("y"));
  }

  lemma ShowOne(p: Piece)
    ensures ShowAll([p]) == Show(p)
  {
    assert ShowAll([p]) == Show(p) + "";
  }

  /** `${A}c`. */
  const MERGED := [Ref("A", false), Literal("c")]

  lemma MergedRounds()
    ensures ShowAll(MERGED) == "${A}c"
    ensures Sub("${A}c", MERGING_SHELL) == "$Bc" && Sub("$Bc", MERGING_SHELL) == "y"
  {
    hide Sub;
    MergingPrints();
    assert IsName("A") && IsName("Bc");
    ShowOne(Literal("c"));
    assert MERGED[1..] == [Literal("c")] && ShowAll(MERGED) == "${A}" + "c" == "${A}c";
    SubPrinted(MERGED, MERGING, MERGING_SHELL, {"A", "B", "Bc"});
    assert [Literal("c")][1..] == [] && Step([], MERGING, {}) == [];
    assert Step([Literal("c")], MERGING, {}) == [Literal("c")] + [];
    var next := [Ref("B", true), Literal("c")];
    assert Step(MERGED, MERGING, {}) == [Ref("B", true)] + [Literal("c")] == next;
    assert next[1..] == [Literal("c")] && ShowAll(next) == "$B" + "c" == "$Bc";
    var bare := [Ref("Bc", true)];
    ShowOne(bare[0]);
    ShowOne(Literal("y"));
    assert "$" + "Bc" == "$Bc" && ShowAll(bare) == "$Bc" && MERGING["Bc"] == [Literal("y")];
    SubPrinted(bare, MERGING, MERGING_SHELL, {"A", "B", "Bc"});
    assert [Literal("y")] + [] == [Literal("y")];
    assert bare[1..] == [] && Step(bare, MERGING, {}) == [Literal("y")] + [];
  }

  /** With these three assignments `${A}c` stands for `xc`. The first round puts `$B` in front of the `c`, the second
      reads the name `Bc` there: the result is `y`, without the marker. */
  lemma BareReferenceMerges()
    ensures Resolve(MERGED, MERGING, {}, ROUNDS) == Some("xc") && Expanded("${A}c", MERGING_SHELL, ROUNDS) == "y"
    ensures !StaysSeparated(MERGED, MERGING, {}, ROUNDS)
  {
    MergedResolves();
    MergedRounds();
    ExpandedInTwo("${A}c", "$Bc", "y", MERGING_SHELL);
    MergedIsNotSeparated();
  }

  lemma ExpandedInTwo(text: string, next: string, last: string, shell: Shell)
    requires '$' in text && '$' in next && '$' !in last && Sub(text, shell) == next && Sub(next, shell) == last
    ensures Expanded(text, shell, ROUNDS) == last
  {
    hide Sub;
    assert Expanded(last, shell, 6) == last;
    assert Expanded(next, shell, 7) == last;
  }

  lemma MergedResolves()
    ensures Resolve(MERGED, MERGING, {}, ROUNDS) == Some("xc")
  {
    hide Resolve;
    ResolveOne(Literal("x"), MERGING, {}, 6);
    ResolveOne(Ref("B", true), MERGING, {}, 7);
    ResolveOne(Ref("A", false), MERGING, {}, 8);
    ResolveOne(Literal("c"), MERGING, {}, 8);
    ResolveAppend([Ref("A", false)], [Literal("c")], MERGING, {}, 8);
    assert [Ref("A", false)] + [Literal("c")] == MERGED && "x" + "c" == "xc";
  }

  lemma MergedIsNotSeparated()
    ensures !StaysSeparated(MERGED, MERGING, {}, ROUNDS)
  {
    assert MERGED[1..] == [Literal("c")] && [Literal("c")][1..] == [];
    assert Step([Literal("c")], MERGING, {}) == [Literal("c")] + [];
    var next := Step(MERGED, MERGING, {});
    assert next == [Ref("B", true)] + [Literal("c")];
    assert IsBare(next[0]) && BeginsWithNamePart(next[1]);
    assert !Separated(next);
    assert !StaysSeparated(next, MERGING, {}, 7);
  }

  // ---- names and rounds ----

  /** A name starts with a letter or an underscore; digits may follow. */
  lemma NameIff(name: string)
    ensures IsName(name) <==>
      && name != "" && !('0' <= name[0] <= '9')
      && forall c <- name :: 'A' <= c <= 'Z' || 'a' <= c <= 'z' || '0' <= c <= '9' || c == '_'
  {
    NamePartsIff(name);
    assert forall i :: 0 <= i < |name| ==> name[i] in name;
  }

  lemma {:induction false} NamePartsIff(s: string)
    ensures NamePartLength(s) == |s| <==> forall i :: 0 <= i < |s| ==> IsNamePart(s[i])
  {
    if s != "" {
      NamePartsIff(s[1..]);
      assert forall i :: 0 < i < |s| ==> s[i] == s[1..][i - 1];
    }
  }

  function LinkName(k: nat): (name: string)
    ensures |name| == k + 1 && forall c <- name :: c == 'v'
  {
    if k == 0 then "v" else LinkName(k - 1) + "v"
  }

  function Braced(name: string): string { "${" + name + "}" }

  /** `v` is `x`, and each of the next names refers to the one before it. */
  predicate IsChain(shell: Shell, n: nat) {
    shell.guarded == {} &&
    forall k :: 0 <= k < n ==>
      && LinkName(k) in shell.values
      && shell.values[LinkName(k)] == if k == 0 then "x" else Braced(LinkName(k - 1))
  }

  lemma BracedSub(name: string, shell: Shell)
    requires IsName(name)
    ensures Sub(Braced(name), shell) == Substitute(name, shell)
  {
    var s := Show(Ref(name, false)) + "";
    assert s == Braced(name);
    BracedPrinted(name, "");
    assert Substitute(name, shell) + "" == Substitute(name, shell);
  }

  lemma {:induction false} ChainExpands(shell: Shell, n: nat, k: nat, rounds: nat)
    requires IsChain(shell, n) && k < n
    ensures Expanded(Braced(LinkName(k)), shell, rounds) == if k < rounds then "x" else "\0"
    decreases k
  {
    hide Sub;
    var s, next := Braced(LinkName(k)), if k == 0 then "x" else Braced(LinkName(k - 1));
    NameIff(LinkName(k));
    assert LinkName(k)[0] in LinkName(k);
    assert s[0] == '$';
    if rounds > 0 {
      BracedSub(LinkName(k), shell);
      assert Sub(s, shell) == next && |next| < |s|;
      if k > 0 {
        ChainExpands(shell, n, k - 1, rounds - 1);
      } else {
        assert '$' !in next;
      }
    }
  }

  /** Expansion follows a chain of references exactly up to eight; behind that it gives up. */
  lemma EightRounds(shell: Shell, n: nat, k: nat)
    requires IsChain(shell, n) && k < n
    ensures Expanded(Braced(LinkName(k)), shell, ROUNDS) == if k < 8 then "x" else "\0"
  {
    ChainExpands(shell, n, k, ROUNDS);
  }

  lemma {:induction false} LiteralHasNoNames(text: string, rest: string)
    requires '$' !in text
    ensures Names(text + rest) == Names(rest)
  {
    if text == "" {
      assert text + rest == rest;
    } else {
      assert (text + rest)[1..] == text[1..] + rest;
      LiteralHasNoNames(text[1..], rest);
    }
  }

  /** The names found in a text are those of its references. */
  lemma {:induction false} NamesAreRefs(t: Template)
    requires IsTemplate(t) && Separated(t)
    ensures Names(ShowAll(t)) == Refs(t)
  {
    hide Reference, IsName;
    if t != [] {
      RefsCons(t);
      SeparatedPrint(t);
      NamesAreRefs(t[1..]);
      assert [t[0]][1..] == [] && t[0] in t && IsPiece(t[0]);
      FirstNames(t[0], ShowAll(t[1..]));
    }
  }

  lemma FirstNames(p: Piece, rest: string)
    requires IsPiece(p) && (IsBare(p) ==> rest == "" || !IsNamePart(rest[0]))
    ensures Names(Show(p) + rest) == Refs([p]) + Names(rest)
  {
    hide Reference, IsName;
    match p
    case Literal(text) => LiteralHasNoNames(text, rest);
    case Ref(name, bare) =>
      if bare {
        BarePrinted(name, rest);
      } else {
        BracedPrinted(name, rest);
      }
      var s := Show(p) + rest;
      assert Names(s) == {name} + Names(rest);
      assert Refs([p]) == {name};
  }
}
