/**
 Well-bracketed Make text as a grammar, and what the analyser's scanners make of text printed
 from it. Brackets inside a reference belong to nested references; outside they are plain text.
 */
module MakeGrammar {
  import opened Strings
  import opened MakeWords

  datatype Text =
    | End
    | Lit(c: char, rest: Text)                     // one character
    | Dollar(rest: Text)                           // $$
    | Single(c: char, rest: Text)                  // $c
    | Group(brace: bool, body: Text, rest: Text)   // $(body) or ${body}

  predicate IsBracket(c: char) { IsOpener(c) || IsCloser(c) }

  predicate WellFormed(t: Text, inside: bool) {
    match t
    case End => true
    case Lit(c, rest) => c != '$' && (inside ==> !IsBracket(c)) && WellFormed(rest, inside)
    case Dollar(rest) => WellFormed(rest, inside)
    case Single(c, rest) => c != '$' && !IsOpener(c) && (inside ==> !IsCloser(c)) && WellFormed(rest, inside)
    case Group(_, body, rest) => WellFormed(body, true) && WellFormed(rest, inside)
  }

  function Opener(brace: bool): char { if brace then '{' else '(' }
  function Closer(brace: bool): char { if brace then '}' else ')' }

  function Print(t: Text): string {
    match t
    case End => ""
    case Lit(c, rest) => [c] + Print(rest)
    case Dollar(rest) => "$$" + Print(rest)
    case Single(c, rest) => ['$', c] + Print(rest)
    case Group(b, body, rest) => ['$', Opener(b)] + Print(body) + [Closer(b)] + Print(rest)
  }

  ghost predicate Bracketed(s: string) {
    exists t :: WellFormed(t, false) && Print(t) == s
  }

  function Then(a: Text, b: Text): Text {
    match a
    case End => b
    case Lit(c, rest) => Lit(c, Then(rest, b))
    case Dollar(rest) => Dollar(Then(rest, b))
    case Single(c, rest) => Single(c, Then(rest, b))
    case Group(brace, body, rest) => Group(brace, body, Then(rest, b))
  }

  lemma {:induction false} PrintThen(a: Text, b: Text)
    ensures Print(Then(a, b)) == Print(a) + Print(b)
  {
    match a
    case End =>
    case Lit(c, rest) =>
      PrintThen(rest, b);
      Assoc([c], Print(rest), Print(b));
    case Dollar(rest) =>
      PrintThen(rest, b);
      Assoc("$$", Print(rest), Print(b));
    case Single(c, rest) =>
      PrintThen(rest, b);
      Assoc(['$', c], Print(rest), Print(b));
    case Group(brace, body, rest) =>
      PrintThen(rest, b);
      Assoc(['$', Opener(brace)] + Print(body) + [Closer(brace)], Print(rest), Print(b));
  }

  lemma {:induction false} WellFormedThen(a: Text, b: Text, inside: bool)
    requires WellFormed(a, inside) && WellFormed(b, inside)
    ensures WellFormed(Then(a, b), inside)
  {
    match a
    case End =>
    case Lit(c, rest) => WellFormedThen(rest, b, inside);
    case Dollar(rest) => WellFormedThen(rest, b, inside);
    case Single(c, rest) => WellFormedThen(rest, b, inside);
    case Group(brace, body, rest) => WellFormedThen(rest, b, inside);
  }

  /** Text without references. */
  function Literals(s: string): Text {
    if s == "" then End else Lit(s[0], Literals(s[1..]))
  }

  lemma {:induction false} LiteralsText(s: string, inside: bool)
    requires forall i :: 0 <= i < |s| ==> s[i] != '$' && (inside ==> !IsBracket(s[i]))
    ensures WellFormed(Literals(s), inside) && Print(Literals(s)) == s
  {
    if s != "" {
      LiteralsText(s[1..], inside);
    }
  }

  lemma PlainIsBracketed(s: string)
    requires '$' !in s
    ensures Bracketed(s)
  {
    LiteralsText(s, false);
  }

  lemma BracketedConcat(a: string, b: string)
    requires Bracketed(a) && Bracketed(b)
    ensures Bracketed(a + b)
  {
    var t :| WellFormed(t, false) && Print(t) == a;
    var u :| WellFormed(u, false) && Print(u) == b;
    WellFormedThen(t, u, false);
    PrintThen(t, u);
  }

  lemma PrintGroup(b: bool, body: Text, rest: Text, tail: string)
    ensures
      var s := Print(Group(b, body, rest)) + tail;
      && |s| > 1 && s[0] == '$' && s[1] == Opener(b) && s[..2] == ['$', Opener(b)]
      && s[2..] == Print(body) + ([Closer(b)] + (Print(rest) + tail))
  {
    var head, inner, after := ['$', Opener(b)], Print(body), Print(rest) + tail;
    assert Print(Group(b, body, rest)) == head + inner + [Closer(b)] + Print(rest);
    assert Print(Group(b, body, rest)) + tail == head + (inner + ([Closer(b)] + after));
  }

  // ---- the literal test ----

  predicate HasOuterLiteral(t: Text) {
    match t
    case End => false
    case Lit(_, _) => true
    case Dollar(_) => true
    case Single(_, rest) => HasOuterLiteral(rest)
    case Group(_, _, rest) => HasOuterLiteral(rest)
  }

  lemma {:induction false} LiteralSkipsBody(t: Text, depth: nat, tail: string)
    requires WellFormed(t, true) && depth > 0 && tail != ""
    ensures HasLiteralFrom(Print(t) + tail, depth) == HasLiteralFrom(tail, depth)
  {
    var s := Print(t) + tail;
    match t
    case End => assert s == tail;
    case Lit(c, rest) =>
      assert s[1..] == Print(rest) + tail;
      LiteralSkipsBody(rest, depth, tail);
    case Dollar(rest) =>
      assert s[2..] == Print(rest) + tail;
      LiteralSkipsBody(rest, depth, tail);
    case Single(c, rest) =>
      assert s[2..] == Print(rest) + tail;
      LiteralSkipsBody(rest, depth, tail);
    case Group(b, body, rest) =>
      var after := [Closer(b)] + (Print(rest) + tail);
      LiteralSkipsBody(body, depth + 1, after);
      LiteralSkipsBody(rest, depth, tail);
      LiteralSkipsGroup(b, body, rest, depth, tail);
  }

  lemma LiteralSkipsGroup(b: bool, body: Text, rest: Text, depth: nat, tail: string)
    requires depth > 0
    requires
      var after := [Closer(b)] + (Print(rest) + tail);
      HasLiteralFrom(Print(body) + after, depth + 1) == HasLiteralFrom(after, depth + 1)
    ensures
      HasLiteralFrom(Print(Group(b, body, rest)) + tail, depth) == HasLiteralFrom(Print(rest) + tail, depth)
  {
    PrintGroup(b, body, rest, tail);
    var after := [Closer(b)] + (Print(rest) + tail);
    assert after[1..] == Print(rest) + tail;
  }

  /** On printed text the scanner finds a literal exactly when one stands outside all references. */
  lemma {:induction false} LiteralTest(t: Text)
    requires WellFormed(t, false)
    ensures HasLiteral(Print(t)) <==> HasOuterLiteral(t)
  {
    var s := Print(t);
    match t
    case End =>
    case Lit(c, rest) =>
    case Dollar(rest) =>
    case Single(c, rest) =>
      assert s[2..] == Print(rest);
      LiteralTest(rest);
    case Group(b, body, rest) =>
      PrintGroup(b, body, rest, "");
      assert s + "" == s && Print(rest) + "" == Print(rest);
      var after := [Closer(b)] + Print(rest);
      LiteralSkipsBody(body, 1, after);
      assert after[1..] == Print(rest);
      LiteralTest(rest);
  }

  // ---- the word splitter ----

  lemma {:induction false} RunBody(t: Text, depth: nat)
    requires WellFormed(t, true) && depth > 0
    ensures Run(Print(t), depth) == Some(depth)
  {
    var s := Print(t);
    match t
    case End =>
    case Lit(c, rest) => assert s[1..] == Print(rest); RunBody(rest, depth);
    case Dollar(rest) => assert s[2..] == Print(rest); RunBody(rest, depth);
    case Single(c, rest) => assert s[2..] == Print(rest); RunBody(rest, depth);
    case Group(b, body, rest) =>
      PrintGroup(b, body, rest, "");
      assert s + "" == s && Print(rest) + "" == Print(rest);
      RunBody(body, depth + 1);
      RunAppend(Print(body), [Closer(b)] + Print(rest), depth + 1);
      assert ([Closer(b)] + Print(rest))[1..] == Print(rest);
      RunBody(rest, depth);
  }
}
