module MakeSoundness {
  import opened Strings
  import opened MakeWords
  import opened MakeVariables
  import opened MakeGrammar
  import opened MakeExpansion

  /** The analyser can prove something about `name`. */
  predicate ProvesName(name: string, vars: Variables, resolving: set<string>) {
    && Resolvable(Some(name), vars, resolving)
    && match vars[name]
       case Evaluated(tokens) => tokens != []
       case Deferred(raw) => Proven(raw, vars, resolving + {name}) != []
  }

  /** A character that counts: not whitespace, and, if `strict`, no order-only separator and no `;` in front
      of a recipe. */
  predicate Solid(c: char, strict: bool) { !IsSpace(c) && (strict ==> c != '|' && c != ';') }

  /** Some item of `t` outside all references is proven to leave text behind. */
  predicate HasProvenItem(t: Text, vars: Variables, resolving: set<string>, strict: bool) {
    match t
    case End => false
    case Lit(c, rest) => Solid(c, strict) || HasProvenItem(rest, vars, resolving, strict)
    case Dollar(_) => true
    case Single(c, rest) =>
      (IsVariableName([c]) && ProvesName([c], vars, resolving)) || HasProvenItem(rest, vars, resolving, strict)
    case Group(_, body, rest) =>
      || (IsVariableName(Print(body)) && ProvesName(Print(body), vars, resolving))
      || HasProvenItem(rest, vars, resolving, strict)
  }

  lemma {:induction false} ProvenItemThen(a: Text, b: Text, vars: Variables, resolving: set<string>)
    ensures HasProvenItem(Then(a, b), vars, resolving, false)
       <==> HasProvenItem(a, vars, resolving, false) || HasProvenItem(b, vars, resolving, false)
  {
    match a
    case End =>
    case Lit(c, rest) => ProvenItemThen(rest, b, vars, resolving);
    case Dollar(rest) =>
    case Single(c, rest) => ProvenItemThen(rest, b, vars, resolving);
    case Group(brace, body, rest) => ProvenItemThen(rest, b, vars, resolving);
  }

  predicate NoOuterSpace(t: Text) {
    match t
    case End => true
    case Lit(c, rest) => !IsSpace(c) && NoOuterSpace(rest)
    case Dollar(rest) => NoOuterSpace(rest)
    case Single(_, rest) => NoOuterSpace(rest)
    case Group(_, _, rest) => NoOuterSpace(rest)
  }

  lemma {:induction false} NoOuterSpaceThen(a: Text, b: Text)
    ensures NoOuterSpace(Then(a, b)) <==> NoOuterSpace(a) && NoOuterSpace(b)
  {
    match a
    case End =>
    case Lit(c, rest) => NoOuterSpaceThen(rest, b);
    case Dollar(rest) => NoOuterSpaceThen(rest, b);
    case Single(c, rest) => NoOuterSpaceThen(rest, b);
    case Group(brace, body, rest) => NoOuterSpaceThen(rest, b);
  }

  lemma {:induction false} LiteralWordIsProven(t: Text, vars: Variables, resolving: set<string>)
    requires NoOuterSpace(t) && HasOuterLiteral(t)
    ensures HasProvenItem(t, vars, resolving, false)
  {
    match t
    case Lit(c, rest) =>
    case Dollar(rest) =>
    case Single(c, rest) => LiteralWordIsProven(rest, vars, resolving);
    case Group(brace, body, rest) => LiteralWordIsProven(rest, vars, resolving);
  }

  lemma NameCharacters(w: string)
    requires |w| > 3 && IsName(w[2..|w| - 1])
    ensures forall j :: 2 <= j < |w| - 1 ==> IsNameChar(w[j])
  {
    forall j | 2 <= j < |w| - 1 ensures IsNameChar(w[j]) {
      assert w[2..|w| - 1][j - 2] == w[j];
    }
  }

  /** A word without literal text that reads as one reference is one reference. */
  lemma ReferenceShape(t: Text)
    requires WellFormed(t, false) && !HasOuterLiteral(t) && ReferenceName(Print(t)).Some?
    ensures var name := ReferenceName(Print(t)).value;
      IsVariableName(name) &&
      match t
      case Single(c, rest) => rest == End && name == [c]
      case Group(_, body, rest) => rest == End && name == Print(body)
      case _ => false
  {
    var w := Print(t);
    var name := ReferenceName(w).value;
    match t
    case End =>
    case Single(c, rest) =>
      RestStartsWithDollar(rest);
      assert w[1] == c;
    case Group(b, body, rest) =>
      RestStartsWithDollar(rest);
      var k := 2 + |Print(body)|;
      assert w[1] == Opener(b) && w[k] == Closer(b) && w[2..k] == Print(body);
      NameCharacters(w);
  }

  lemma RestStartsWithDollar(t: Text)
    requires !HasOuterLiteral(t)
    ensures t == End || (Print(t) != "" && |Print(t)| > 1)
    ensures t == End ==> Print(t) == ""
  {
  }

  lemma WordIsProven(t: Text, vars: Variables, resolving: set<string>)
    requires WellFormed(t, false) && NoOuterSpace(t) && ProvenWord(Print(t), vars, resolving) != []
    ensures HasProvenItem(t, vars, resolving, false)
  {
    LiteralTest(t);
    if HasOuterLiteral(t) {
      LiteralWordIsProven(t, vars, resolving);
    } else {
      ReferenceShape(t);
    }
  }

  lemma {:induction false} ProvenWordsAppend(a: seq<string>, b: seq<string>, vars: Variables, resolving: set<string>)
    ensures ProvenWords(a + b, vars, resolving) == ProvenWords(a, vars, resolving) + ProvenWords(b, vars, resolving)
  {
    if a == [] {
      assert a + b == b;
    } else {
      assert (a + b)[1..] == a[1..] + b;
      ProvenWordsAppend(a[1..], b, vars, resolving);
    }
  }

  lemma PushItem(p: Text, item: Text, vars: Variables, resolving: set<string>)
    requires WellFormed(p, false) && NoOuterSpace(p) && WellFormed(item, false) && NoOuterSpace(item)
    ensures WellFormed(Then(p, item), false) && NoOuterSpace(Then(p, item))
    ensures Print(Then(p, item)) == Print(p) + Print(item)
    ensures HasProvenItem(Then(p, item), vars, resolving, false)
       ==> HasProvenItem(p, vars, resolving, false) || HasProvenItem(item, vars, resolving, false)
  {
    WellFormedThen(p, item, false);
    NoOuterSpaceThen(p, item);
    PrintThen(p, item);
    ProvenItemThen(p, item, vars, resolving);
  }

  /** The splitter moves past one reference as a whole. */
  lemma SplitGroup(b: bool, body: Text, rest: Text, current: string)
    requires WellFormed(body, true)
    ensures SplitFrom(Print(Group(b, body, rest)), 0, current)
         == SplitFrom(Print(rest), 0, current + Print(Group(b, body, End)))
  {
    var s := Print(Group(b, body, rest));
    var head, after := ['$', Opener(b)], [Closer(b)] + Print(rest);
    PrintGroup(b, body, rest, "");
    assert s + "" == s && Print(rest) + "" == Print(rest);
    RunBody(body, 1);
    SplitRun(Print(body), after, 1, current + head);
    assert after[1..] == Print(rest);
    GroupText(b, body, current);
  }

  lemma GroupText(b: bool, body: Text, current: string)
    ensures current + ['$', Opener(b)] + Print(body) + [Closer(b)] == current + Print(Group(b, body, End))
  {
  }

  lemma LastWordIsProven(p: Text, vars: Variables, resolving: set<string>)
    requires WellFormed(p, false) && NoOuterSpace(p) && ProvenWords(Close(Print(p)), vars, resolving) != []
    ensures HasProvenItem(p, vars, resolving, false)
  {
    hide ProvenWord, Proven, Print, WellFormed, NoOuterSpace, HasProvenItem;
    assert [Print(p)][1..] == [];
    WordIsProven(p, vars, resolving);
  }

  lemma SplitLit(c: char, rest: Text, current: string)
    requires c != '$'
    ensures SplitFrom(Print(Lit(c, rest)), 0, current) ==
      if IsSpace(c) then Close(current) + SplitFrom(Print(rest), 0, "") else SplitFrom(Print(rest), 0, current + [c])
  {
    assert Print(Lit(c, rest))[1..] == Print(rest);
  }

  lemma SplitSingle(c: char, rest: Text, current: string)
    requires c != '$' && !IsOpener(c)
    ensures SplitFrom(Print(Single(c, rest)), 0, current) == SplitFrom(Print(rest), 0, current + Print(Single(c, End)))
  {
    var s := Print(Single(c, rest));
    assert s[2..] == Print(rest) && s[..2] == Print(Single(c, End));
  }

  /** What the word analysis proves of printed text comes from one item of it. */
  lemma {:induction false} ProvenComesFromItem(t: Text, p: Text, vars: Variables, resolving: set<string>)
    requires WellFormed(t, false) && WellFormed(p, false) && NoOuterSpace(p)
    requires ProvenWords(SplitFrom(Print(t), 0, Print(p)), vars, resolving) != []
    ensures HasProvenItem(p, vars, resolving, false) || HasProvenItem(t, vars, resolving, false)
    decreases t
  {
    hide ProvenWord, Proven, SplitFrom, ProvenWords, Close;
    match t
    case End =>
      SplitEnd(Print(p));
      LastWordIsProven(p, vars, resolving);
    case Lit(c, rest) =>
      SplitLit(c, rest, Print(p));
      if IsSpace(c) {
        ProvenWordsAppend(Close(Print(p)), SplitFrom(Print(rest), 0, ""), vars, resolving);
        if ProvenWords(SplitFrom(Print(rest), 0, ""), vars, resolving) == [] {
          LastWordIsProven(p, vars, resolving);
        } else {
          ProvenComesFromItem(rest, End, vars, resolving);
        }
      } else {
        PushItem(p, Lit(c, End), vars, resolving);
        assert Print(Lit(c, End)) == [c];
        ProvenComesFromItem(rest, Then(p, Lit(c, End)), vars, resolving);
      }
    case Dollar(rest) =>
    case Single(c, rest) =>
      SplitSingle(c, rest, Print(p));
      PushItem(p, Single(c, End), vars, resolving);
      ProvenComesFromItem(rest, Then(p, Single(c, End)), vars, resolving);
    case Group(b, body, rest) =>
      SplitGroup(b, body, rest, Print(p));
      PushItem(p, Group(b, body, End), vars, resolving);
      ProvenComesFromItem(rest, Then(p, Group(b, body, End)), vars, resolving);
  }

  lemma SplitEnd(current: string)
    ensures SplitFrom(Print(End), 0, current) == Close(current)
  {
  }

  lemma {:induction false} OuterLiteralThen(a: Text, b: Text)
    ensures HasOuterLiteral(Then(a, b)) <==> HasOuterLiteral(a) || HasOuterLiteral(b)
  {
    match a
    case End =>
    case Lit(c, rest) =>
    case Dollar(rest) =>
    case Single(c, rest) => OuterLiteralThen(rest, b);
    case Group(brace, body, rest) => OuterLiteralThen(rest, b);
  }

  /** A word with a literal in it is proven, with all that follows it. */
  lemma LiteralWordGoes(p: Text, more: seq<string>, vars: Variables, resolving: set<string>)
    requires WellFormed(p, false) && HasOuterLiteral(p)
    ensures ProvenWords(Close(Print(p)) + more, vars, resolving) != []
  {
    LiteralTest(p);
    ProvenWordsAppend(Close(Print(p)), more, vars, resolving);
    assert Print(p) != "" && [Print(p)][0] == Print(p);
    assert ProvenWords([Print(p)], vars, resolving) == [Print(p)] + ProvenWords([], vars, resolving);
  }

  /** The other way round for literals: visible text outside references is always proven. */
  lemma {:induction false} LiteralIsProven(t: Text, p: Text, vars: Variables, resolving: set<string>)
    requires WellFormed(t, false) && WellFormed(p, false) && (HasOuterLiteral(p) || HasSolidLiteral(t, false))
    ensures ProvenWords(SplitFrom(Print(t), 0, Print(p)), vars, resolving) != []
    decreases t
  {
    hide ProvenWord, ProvenWords, Proven, HasLiteral;
    var s := Print(t);
    match t
    case End =>
      LiteralWordGoes(p, [], vars, resolving);
      assert Close(Print(p)) + [] == Close(Print(p));
    case Lit(c, rest) =>
      assert s[1..] == Print(rest);
      if IsSpace(c) {
        if HasOuterLiteral(p) {
          LiteralWordGoes(p, SplitFrom(Print(rest), 0, ""), vars, resolving);
        } else {
          LiteralIsProven(rest, End, vars, resolving);
          ProvenWordsAppend(Close(Print(p)), SplitFrom(Print(rest), 0, ""), vars, resolving);
        }
      } else {
        LiteralPushed(p, Lit(c, End));
        assert Print(Lit(c, End)) == [c];
        LiteralIsProven(rest, Then(p, Lit(c, End)), vars, resolving);
      }
    case Dollar(rest) =>
      assert s[2..] == Print(rest) && s[..2] == Print(Dollar(End));
      LiteralPushed(p, Dollar(End));
      LiteralIsProven(rest, Then(p, Dollar(End)), vars, resolving);
    case Single(c, rest) =>
      assert s[2..] == Print(rest) && s[..2] == Print(Single(c, End));
      LiteralPushed(p, Single(c, End));
      LiteralIsProven(rest, Then(p, Single(c, End)), vars, resolving);
    case Group(b, body, rest) =>
      SplitGroup(b, body, rest, Print(p));
      LiteralPushed(p, Group(b, body, End));
      LiteralIsProven(rest, Then(p, Group(b, body, End)), vars, resolving);
  }

  lemma LiteralPushed(p: Text, item: Text)
    requires WellFormed(p, false) && WellFormed(item, false)
    ensures WellFormed(Then(p, item), false) && Print(Then(p, item)) == Print(p) + Print(item)
    ensures HasOuterLiteral(Then(p, item)) <==> HasOuterLiteral(p) || HasOuterLiteral(item)
  {
    WellFormedThen(p, item, false);
    PrintThen(p, item);
    OuterLiteralThen(p, item);
  }

  // ---- expansion of printed text ----

  lemma CloseSkipsChar(c: char, tail: string, brace: bool, n: nat)
    requires n > 0 && !IsBracket(c)
    ensures FindClose([c] + tail, Opener(brace), Closer(brace), n)
         == 1 + FindClose(tail, Opener(brace), Closer(brace), n)
  {
    assert ([c] + tail)[1..] == tail;
  }

  lemma CloseSkipsPair(c: char, d: char, tail: string, brace: bool, n: nat)
    requires n > 0 && !IsBracket(c) && !IsBracket(d)
    ensures FindClose([c, d] + tail, Opener(brace), Closer(brace), n)
         == 2 + FindClose(tail, Opener(brace), Closer(brace), n)
  {
    CloseSkipsChar(d, tail, brace, n);
    CloseSkipsChar(c, [d] + tail, brace, n);
    assert [c, d] + tail == [c] + ([d] + tail);
  }

  /** Well-bracketed text never closes a reference it did not open. */
  lemma {:induction false} CloseSkipsBody(t: Text, tail: string, brace: bool, n: nat)
    requires WellFormed(t, true) && n > 0
    ensures FindClose(Print(t) + tail, Opener(brace), Closer(brace), n)
         == |Print(t)| + FindClose(tail, Opener(brace), Closer(brace), n)
  {
    match t
    case End =>
      assert Print(t) + tail == tail;
    case Lit(c, rest) =>
      CloseSkipsBody(rest, tail, brace, n);
      CloseSkipsChar(c, Print(rest) + tail, brace, n);
      Assoc([c], Print(rest), tail);
    case Dollar(rest) =>
      CloseSkipsBody(rest, tail, brace, n);
      CloseSkipsPair('$', '$', Print(rest) + tail, brace, n);
      Assoc("$$", Print(rest), tail);
    case Single(c, rest) =>
      CloseSkipsBody(rest, tail, brace, n);
      CloseSkipsPair('$', c, Print(rest) + tail, brace, n);
      Assoc(['$', c], Print(rest), tail);
    case Group(b, body, rest) =>
      CloseSkipsBody(rest, tail, brace, n);
      CloseSkipsBody(body, [Closer(b)] + (Print(rest) + tail), brace, if b == brace then n + 1 else n);
      CloseSkipsGroup(b, body, rest, tail, brace, n);
  }

  lemma CloseSkipsGroup(b: bool, body: Text, rest: Text, tail: string, brace: bool, n: nat)
    requires n > 0
    ensures
      var m := if b == brace then n + 1 else n;
      var after := [Closer(b)] + (Print(rest) + tail);
      && |Print(Group(b, body, rest))| == |Print(body)| + |Print(rest)| + 3
      && FindClose(Print(Group(b, body, rest)) + tail, Opener(brace), Closer(brace), n)
         == 2 + FindClose(Print(body) + after, Opener(brace), Closer(brace), m)
      && FindClose(after, Opener(brace), Closer(brace), m)
         == 1 + FindClose(Print(rest) + tail, Opener(brace), Closer(brace), n)
  {
    var s := Print(Group(b, body, rest)) + tail;
    var after := [Closer(b)] + (Print(rest) + tail);
    PrintGroup(b, body, rest, tail);
    assert s[1..][1..] == Print(body) + after;
    assert after[1..] == Print(rest) + tail;
  }

  lemma ExpandGroup(b: bool, body: Text, rest: Text, store: Store, world: World, busy: set<string>)
    requires WellFormed(body, true)
    ensures Expand(Print(Group(b, body, rest)), store, world, busy)
         == Glue(Lookup(Print(body), store, world, busy), Expand(Print(rest), store, world, busy))
  {
    hide Print, WellFormed, Lookup;
    var s := Print(Group(b, body, rest));
    PrintGroup(b, body, rest, "");
    assert s + "" == s && Print(rest) + "" == Print(rest);
    var after := [Closer(b)] + Print(rest);
    CloseSkipsBody(body, after, b, 1);
    var k := |Print(body)|;
    assert s[2..2 + k] == Print(body) && s[3 + k..] == Print(rest);
  }

  lemma ExpandSingle(c: char, rest: Text, store: Store, world: World, busy: set<string>)
    requires c != '$' && !IsOpener(c)
    ensures Expand(Print(Single(c, rest)), store, world, busy)
         == Glue(Lookup([c], store, world, busy), Expand(Print(rest), store, world, busy))
  {
    var s := Print(Single(c, rest));
    assert s[1..2] == [c] && s[2..] == Print(rest);
  }

  lemma ExpandChar(s: string, rest: string, store: Store, world: World, busy: set<string>)
    requires s == "$$" || (|s| == 1 && s[0] != '$')
    ensures Expand(s + rest, store, world, busy) == Glue(Some(s[..1]), Expand(rest, store, world, busy))
  {
    var text := s + rest;
    assert text[|s|..] == rest && text[..1] == s[..1];
    if s == "$$" {
      assert s[..1] == "$";
      assert text[0] == '$' && text[1] == '$' && |text| > 1;
    } else {
      assert text[1..] == rest;
    }
  }

  // ---- text that is there ----

  predicate HasSolid(s: string, strict: bool) {
    exists i :: 0 <= i < |s| && Solid(s[i], strict)
  }

  /** Make either stops or produces text that counts. */
  predicate Fine(r: Option<string>, strict: bool) {
    r.None? || HasSolid(r.value, strict)
  }

  lemma FineGlue(a: Option<string>, b: Option<string>, strict: bool)
    requires Fine(a, strict) || Fine(b, strict)
    ensures Fine(Glue(a, b), strict)
  {
    if a.Some? && b.Some? {
      SolidConcat(a.value, b.value, strict);
    }
  }

  lemma SolidConcat(a: string, b: string, strict: bool)
    ensures HasSolid(a + b, strict) <==> HasSolid(a, strict) || HasSolid(b, strict)
  {
    var s := a + b;
    if HasSolid(a, strict) {
      var i :| 0 <= i < |a| && Solid(a[i], strict);
      assert Solid(s[i], strict);
    }
    if HasSolid(b, strict) {
      var i :| 0 <= i < |b| && Solid(b[i], strict);
      assert Solid(s[|a| + i], strict);
    }
  }

  /** A literal character that counts, outside all references. */
  predicate HasSolidLiteral(t: Text, strict: bool) {
    match t
    case End => false
    case Lit(c, rest) => Solid(c, strict) || HasSolidLiteral(rest, strict)
    case Dollar(_) => true
    case Single(_, rest) => HasSolidLiteral(rest, strict)
    case Group(_, _, rest) => HasSolidLiteral(rest, strict)
  }

  lemma {:induction false} LiteralIsFine(t: Text, store: Store, world: World, busy: set<string>, strict: bool)
    requires WellFormed(t, false) && HasSolidLiteral(t, strict)
    ensures Fine(Expand(Print(t), store, world, busy), strict)
  {
    match t
    case Lit(c, rest) =>
      ExpandChar([c], Print(rest), store, world, busy);
      if Solid(c, strict) {
        assert Solid([c][0], strict);
      } else {
        LiteralIsFine(rest, store, world, busy, strict);
      }
      FineGlue(Some([c]), Expand(Print(rest), store, world, busy), strict);
    case Dollar(rest) =>
      ExpandChar("$$", Print(rest), store, world, busy);
      assert Solid("$"[0], strict);
      FineGlue(Some("$"), Expand(Print(rest), store, world, busy), strict);
    case Single(c, rest) =>
      ExpandSingle(c, rest, store, world, busy);
      LiteralIsFine(rest, store, world, busy, strict);
      FineGlue(Lookup([c], store, world, busy), Expand(Print(rest), store, world, busy), strict);
    case Group(b, body, rest) =>
      ExpandGroup(b, body, rest, store, world, busy);
      LiteralIsFine(rest, store, world, busy, strict);
      FineGlue(Lookup(Print(body), store, world, busy), Expand(Print(rest), store, world, busy), strict);
  }

  // ---- text behind a value the file did not write ----

  lemma {:induction false} CloseExtends(a: string, b: string, open: char, close: char, n: nat) returns (m: nat)
    requires n > 0
    ensures m > 0
    ensures FindClose(a + b, open, close, n) ==
      var end := FindClose(a, open, close, n);
      if end < |a| then end else |a| + FindClose(b, open, close, m)
  {
    if a == "" {
      assert a + b == b;
      m := n;
    } else if a[0] == close && n == 1 {
      m := 1;
    } else {
      assert (a + b)[1..] == a[1..] + b;
      m := CloseExtends(a[1..], b, open, close, if a[0] == open then n + 1 else if a[0] == close then n - 1 else n);
    }
  }

  /** Whatever stands before it, well-bracketed text that is proven stays proven: an unterminated
      reference in front cannot swallow it, because nothing in it closes that reference. */
  lemma {:induction false} FineBehind(e: string, t: Text, tail: string, store: Store, world: World, busy: set<string>,
      strict: bool)
    requires WellFormed(t, true) && tail == " " + Print(t) && Fine(Expand(Print(t), store, world, busy), strict)
    ensures Fine(Expand(e + tail, store, world, busy), strict)
    decreases |e|
  {
    var s := e + tail;
    if e == "" {
      assert s == tail;
      ExpandChar(" ", Print(t), store, world, busy);
      FineGlue(Some(" "), Expand(Print(t), store, world, busy), strict);
    } else if e[0] != '$' {
      assert s == e[..1] + (e[1..] + tail);
      ExpandChar(e[..1], e[1..] + tail, store, world, busy);
      FineBehind(e[1..], t, tail, store, world, busy, strict);
      FineGlue(Some(e[..1]), Expand(e[1..] + tail, store, world, busy), strict);
    } else if |e| == 1 {
      assert s[1..2] == " " && s[2..] == Print(t);
      FineGlue(Lookup(" ", store, world, busy), Expand(Print(t), store, world, busy), strict);
    } else {
      FineBehindReference(e, t, tail, store, world, busy, strict);
    }
  }

  lemma {:induction false} FineBehindReference(e: string, t: Text, tail: string, store: Store, world: World,
      busy: set<string>, strict: bool)
    requires WellFormed(t, true) && tail == " " + Print(t) && Fine(Expand(Print(t), store, world, busy), strict)
    requires |e| > 1 && e[0] == '$'
    ensures Fine(Expand(e + tail, store, world, busy), strict)
    decreases |e|, 1
  {
    hide Print, Lookup, Fine;
    var s := e + tail;
    assert s[2..] == e[2..] + tail && s[1..2] == e[1..2];
    if e[1] == '(' || e[1] == '{' {
      FineBehindGroup(e, t, tail, store, world, busy, strict);
    } else {
      FineBehind(e[2..], t, tail, store, world, busy, strict);
      FineGlue(if e[1] == '$' then Some("$") else Lookup(e[1..2], store, world, busy),
               Expand(e[2..] + tail, store, world, busy), strict);
    }
  }

  lemma {:induction false} FineBehindGroup(e: string, t: Text, tail: string, store: Store, world: World,
      busy: set<string>, strict: bool)
    requires WellFormed(t, true) && tail == " " + Print(t) && Fine(Expand(Print(t), store, world, busy), strict)
    requires |e| > 1 && e[0] == '$' && (e[1] == '(' || e[1] == '{')
    ensures Fine(Expand(e + tail, store, world, busy), strict)
    decreases |e|, 0
  {
    hide Lookup, Solid, Expand, Fine, Print, WellFormed, FindClose;
    var s := e + tail;
    var close := if e[1] == '(' then ')' else '}';
    assert s[2..] == e[2..] + tail && s[0] == e[0] && s[1] == e[1];
    ExpandReference(s, store, world, busy);
    var m := CloseExtends(e[2..], tail, e[1], close, 1);
    var k := FindClose(e[2..], e[1], close, 1);
    if k < |e| - 2 {
      SlicesBehind(e, tail, k);
      FineBehind(e[3 + k..], t, tail, store, world, busy, strict);
      FineGlue(Lookup(e[2..2 + k], store, world, busy), Expand(e[3 + k..] + tail, store, world, busy), strict);
    } else {
      NeverCloses(t, e[1] == '{', m);
      StoppingIsFine(strict);
    }
  }

  lemma SlicesBehind(e: string, tail: string, k: nat)
    requires k + 2 < |e|
    ensures (e + tail)[2..2 + k] == e[2..2 + k] && (e + tail)[3 + k..] == e[3 + k..] + tail
  {
  }

  lemma StoppingIsFine(strict: bool)
    ensures Fine(None, strict)
  {
  }

  /** A reference in brackets, closed or not. */
  lemma ExpandReference(s: string, store: Store, world: World, busy: set<string>)
    requires |s| > 1 && s[0] == '$' && (s[1] == '(' || s[1] == '{')
    ensures
      var k := FindClose(s[2..], s[1], if s[1] == '(' then ')' else '}', 1);
      Expand(s, store, world, busy) ==
        if k == |s| - 2 then None
        else Glue(Lookup(s[2..2 + k], store, world, busy), Expand(s[3 + k..], store, world, busy))
  {
    hide Lookup, FindClose;
  }

  lemma NeverCloses(t: Text, brace: bool, m: nat)
    requires WellFormed(t, true) && m > 0
    ensures FindClose(" " + Print(t), Opener(brace), Closer(brace), m) == 1 + |Print(t)|
  {
    CloseSkipsBody(t, "", brace, m);
    assert Print(t) + "" == Print(t);
    CloseSkipsChar(' ', Print(t), brace, m);
  }
}
