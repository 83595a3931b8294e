/** `_unconditional_text`: blanking of conditional and `define` blocks. */
module MakeProjection {
  import opened Strings

  datatype Kind = OpenDefine | CloseDefine | OpenConditional | CloseConditional | Plain

  const MODIFIERS := {"override", "export", "private"}
  const CONDITIONALS := {"ifdef", "ifndef", "ifeq", "ifneq"}

  /** The first word that is not a modifier, or the last word if all are. */
  function Directive(words: seq<string>): string {
    if words == [] then "" else if words[0] in MODIFIERS && |words| > 1 then Directive(words[1..]) else words[0]
  }

  function DirectiveOf(line: string): string {
    if StartsWith(line, "\t") then "" else Directive(Words(CutAt(line, '#')))
  }

  function KindOf(line: string): Kind {
    KindOfDirective(DirectiveOf(line))
  }

  function KindOfDirective(d: string): Kind {
    if d == "endef" then CloseDefine
    else if d == "define" then OpenDefine
    else if d in CONDITIONALS then OpenConditional
    else if d == "endif" then CloseConditional
    else Plain
  }

  /** A physical line with the directive it carries. */
  datatype Marked = Marked(kind: Kind, line: string)

  /** Every line with the kind that `kind` gives it; `KindOf` in the program, arbitrary in most proofs. */
  function Mark(lines: seq<string>, kind: string -> Kind): (r: seq<Marked>)
    ensures |r| == |lines|
  {
    if lines == [] then [] else [Marked(kind(lines[0]), lines[0])] + Mark(lines[1..], kind)
  }

  lemma {:induction false} MarkAt(lines: seq<string>, kind: string -> Kind, i: nat)
    requires i < |lines|
    ensures Mark(lines, kind)[i] == Marked(kind(lines[i]), lines[i])
  {
    if i > 0 {
      MarkAt(lines[1..], kind, i - 1);
    }
  }

  /** Open conditionals and open definitions; inside a definition nothing but definitions counts. */
  datatype Nesting = Nesting(conditional: nat, defining: nat)

  const TOP := Nesting(0, 0)

  function Enter(n: Nesting, k: Kind): Nesting {
    if n.defining > 0 then
      if k.CloseDefine? then n.(defining := n.defining - 1)
      else if k.OpenDefine? then n.(defining := n.defining + 1)
      else n
    else match k
      case OpenDefine => n.(defining := 1)
      case OpenConditional => n.(conditional := n.conditional + 1)
      case CloseConditional => if n.conditional > 0 then n.(conditional := n.conditional - 1) else n
      case _ => n
  }

  predicate Keeps(n: Nesting, k: Kind) {
    n == TOP && !k.OpenDefine? && !k.OpenConditional?
  }

  function Shown(m: Marked, n: Nesting): string {
    if Keeps(n, m.kind) then m.line else ""
  }

  function Project(lines: seq<Marked>, n: Nesting): (kept: seq<string>)
    ensures |kept| == |lines|
  {
    if lines == [] then [] else [Shown(lines[0], n)] + Project(lines[1..], Enter(n, lines[0].kind))
  }

  function After(lines: seq<Marked>, n: Nesting): Nesting {
    if lines == [] then n else After(lines[1..], Enter(n, lines[0].kind))
  }

  /** The lines of the unconditional projection, before they are joined. */
  function Kept(text: string): seq<string> {
    Project(Mark(Splitlines(text), KindOf), TOP)
  }

  function Unconditional(text: string): string {
    JoinLines(Kept(text))
  }

  lemma {:induction false} DirectiveBehind(modifiers: seq<string>, word: string, rest: seq<string>)
    requires (forall m <- modifiers :: m in {"override", "export", "private"})
    requires rest == [] || word !in {"override", "export", "private"}
    ensures Directive(modifiers + ([word] + rest)) == word
  {
    var words := modifiers + ([word] + rest);
    if modifiers != [] {
      assert modifiers[0] in modifiers && forall m <- modifiers[1..] :: m in modifiers;
      assert words[1..] == modifiers[1..] + ([word] + rest);
      DirectiveBehind(modifiers[1..], word, rest);
    } else {
      assert words == [word] + rest;
    }
  }

  /** A line opens or closes a block by its first word behind any modifiers, comments left out; a recipe line and a
      line without words do neither. */
  lemma KindIs(line: string, modifiers: seq<string>, word: string, rest: seq<string>)
    requires (forall m <- modifiers :: m in {"override", "export", "private"})
    requires rest == [] || word !in {"override", "export", "private"}
    ensures (line != "" && line[0] == '\t') || Words(CutAt(line, '#')) == [] ==> KindOf(line) == Plain
    ensures (line == "" || line[0] != '\t') && Words(CutAt(line, '#')) == modifiers + ([word] + rest) ==>
      && (KindOf(line) == OpenDefine <==> word == "define")
      && (KindOf(line) == CloseDefine <==> word == "endef")
      && (KindOf(line) == OpenConditional <==> word in {"ifdef", "ifndef", "ifeq", "ifneq"})
      && (KindOf(line) == CloseConditional <==> word == "endif")
  {
    hide Words, CutAt;
    DirectiveBehind(modifiers, word, rest);
    assert line != "" ==> (StartsWith(line, "\t") <==> line[0] == '\t');
  }

  method DirectiveWord(raw: string) returns (directive: string)
    ensures directive == DirectiveOf(raw) && KindOf(raw) == KindOfDirective(directive)
  {
    var words := if StartsWith(raw, "\t") then [] else Words(CutAt(raw, '#'));
    directive := if words != [] then words[0] else "";
    while directive in MODIFIERS && |words| > 1
      invariant DirectiveOf(raw) == Directive(words)
      invariant directive == if words != [] then words[0] else ""
      decreases |words|
    {
      words := words[1..];
      directive := words[0];
    }
  }

  /** One line's effect on the two counters, and whether the line survives. */
  method Track(directive: string, conditional: nat, defining: nat) returns (c: nat, d: nat, keep: bool)
    ensures Nesting(c, d) == Enter(Nesting(conditional, defining), KindOfDirective(directive))
    ensures keep == Keeps(Nesting(conditional, defining), KindOfDirective(directive))
  {
    c, d, keep := conditional, defining, false;
    if defining > 0 {
      if directive == "endef" {
        d := d - 1;
      } else if directive == "define" {
        d := d + 1;
      }
    } else if directive == "define" {
      d := d + 1;
    } else if directive in CONDITIONALS {
      c := c + 1;
    } else if directive == "endif" && conditional > 0 {
      c := c - 1;
    } else {
      keep := conditional == 0;
    }
  }

  method UnconditionalText(text: string) returns (r: string)
    ensures r == Unconditional(text)
  {
    var physical := Splitlines(text);
    ghost var marked := Mark(physical, KindOf);
    var kept: seq<string>, conditional: nat, defining: nat := [], 0, 0;
    for i := 0 to |physical|
      invariant Kept(text) == kept + Project(marked[i..], Nesting(conditional, defining))
    {
      ghost var before := Nesting(conditional, defining);
      var directive := DirectiveWord(physical[i]);
      var keep;
      conditional, defining, keep := Track(directive, conditional, defining);
      var line := if keep then physical[i] else "";
      MarkAt(physical, KindOf, i);
      ProjectStep(marked, i, before);
      Assoc(kept, [line], Project(marked[i + 1..], Nesting(conditional, defining)));
      kept := kept + [line];
    }
    assert kept + [] == kept;
    r := JoinLines(kept);
  }

  lemma ProjectStep(lines: seq<Marked>, i: nat, n: Nesting)
    requires i < |lines|
    ensures Project(lines[i..], n) == [Shown(lines[i], n)] + Project(lines[i + 1..], Enter(n, lines[i].kind))
  {
    assert lines[i..][1..] == lines[i + 1..];
  }

  // ---- the block grammar ----

  datatype Block =
    | End
    | Line(line: string, rest: Block)
    | Conditional(open: string, body: Block, close: string, rest: Block)
    | Definition(open: string, inner: Body, close: string, rest: Block)

  /** A `define` body: any lines, among which only nested definitions are recognised. */
  datatype Body =
    | Done
    | Text(line: Marked, rest: Body)
    | Nested(open: string, inner: Body, close: string, rest: Body)

  ghost predicate WellFormedBody(b: Body) {
    match b
    case Done => true
    case Text(m, rest) => !m.kind.OpenDefine? && !m.kind.CloseDefine? && WellFormedBody(rest)
    case Nested(_, inner, _, rest) => WellFormedBody(inner) && WellFormedBody(rest)
  }

  ghost predicate WellNested(b: Block) {
    match b
    case End => true
    case Line(_, rest) => WellNested(rest)
    case Conditional(_, body, _, rest) => WellNested(body) && WellNested(rest)
    case Definition(_, inner, _, rest) => WellFormedBody(inner) && WellNested(rest)
  }

  function Wrap(o: Marked, inner: seq<Marked>, c: Marked, rest: seq<Marked>): seq<Marked> {
    [o] + inner + [c] + rest
  }

  function PrintBody(b: Body): seq<Marked> {
    match b
    case Done => []
    case Text(m, rest) => [m] + PrintBody(rest)
    case Nested(o, inner, c, rest) =>
      Wrap(Marked(OpenDefine, o), PrintBody(inner), Marked(CloseDefine, c), PrintBody(rest))
  }

  function PrintBlock(b: Block): seq<Marked> {
    match b
    case End => []
    case Line(l, rest) => [Marked(Plain, l)] + PrintBlock(rest)
    case Conditional(o, body, c, rest) =>
      Wrap(Marked(OpenConditional, o), PrintBlock(body), Marked(CloseConditional, c), PrintBlock(rest))
    case Definition(o, inner, c, rest) =>
      Wrap(Marked(OpenDefine, o), PrintBody(inner), Marked(CloseDefine, c), PrintBlock(rest))
  }

  function Blanks(n: nat): (r: seq<string>)
    ensures |r| == n
  {
    seq(n, _ => "")
  }

  /** The top-level plain lines at their places, everything else blank. */
  function TopLevel(b: Block): seq<string> {
    match b
    case End => []
    case Line(l, rest) => [l] + TopLevel(rest)
    case Conditional(o, body, c, rest) => Blanks(|PrintBlock(body)| + 2) + TopLevel(rest)
    case Definition(o, inner, c, rest) => Blanks(|PrintBody(inner)| + 2) + TopLevel(rest)
  }

  lemma BlanksAdd(a: nat, b: nat)
    ensures Blanks(a) + Blanks(b) == Blanks(a + b)
  {
  }

  lemma {:induction false} ProjectAppend(a: seq<Marked>, b: seq<Marked>, n: Nesting)
    ensures Project(a + b, n) == Project(a, n) + Project(b, After(a, n))
    ensures After(a + b, n) == After(b, After(a, n))
  {
    if a == [] {
      assert a + b == b;
    } else {
      assert (a + b)[1..] == a[1..] + b;
      ProjectAppend(a[1..], b, Enter(n, a[0].kind));
    }
  }

  lemma ProjectPrefix(a: seq<Marked>, b: seq<Marked>, n: Nesting)
    ensures Project(a + b, n)[..|a|] == Project(a, n)
  {
    ProjectAppend(a, b, n);
  }

  /** One enclosed stretch, seen from outside. */
  lemma Enclosed(o: Marked, inner: seq<Marked>, c: Marked, rest: seq<Marked>, n: Nesting, deeper: Nesting)
    requires deeper == Enter(n, o.kind) && !Keeps(n, o.kind)
    requires After(inner, deeper) == deeper && Project(inner, deeper) == Blanks(|inner|)
    requires Enter(deeper, c.kind) == n && !Keeps(deeper, c.kind)
    ensures After(Wrap(o, inner, c, rest), n) == After(rest, n)
    ensures Project(Wrap(o, inner, c, rest), n) == Blanks(|inner| + 2) + Project(rest, n)
  {
    hide Project, After, Enter, Keeps, Blanks;
    var tail := inner + ([c] + rest);
    WrapParts(o, inner, c, rest);
    ProjectCons(o, tail, n);
    ProjectAppend(inner, [c] + rest, deeper);
    ProjectCons(c, rest, deeper);
    BlanksAround(|inner|, Project(rest, n));
  }

  lemma WrapParts(o: Marked, inner: seq<Marked>, c: Marked, rest: seq<Marked>)
    ensures Wrap(o, inner, c, rest) == [o] + (inner + ([c] + rest))
  {
  }

  lemma BlanksAround(n: nat, rest: seq<string>)
    ensures [""] + (Blanks(n) + ([""] + rest)) == Blanks(n + 2) + rest
  {
  }

  lemma ProjectCons(m: Marked, rest: seq<Marked>, n: Nesting)
    ensures Project([m] + rest, n) == [Shown(m, n)] + Project(rest, Enter(n, m.kind))
    ensures After([m] + rest, n) == After(rest, Enter(n, m.kind))
  {
    assert ([m] + rest)[1..] == rest;
  }

  lemma {:induction false} ProjectBody(b: Body, n: Nesting)
    requires WellFormedBody(b) && n.defining > 0
    ensures After(PrintBody(b), n) == n && Project(PrintBody(b), n) == Blanks(|PrintBody(b)|)
  {
    match b
    case Done =>
    case Text(m, rest) => ProjectBody(rest, n);
    case Nested(o, inner, c, rest) =>
      var deeper := n.(defining := n.defining + 1);
      ProjectBody(inner, deeper);
      ProjectBody(rest, n);
      Enclosed(Marked(OpenDefine, o), PrintBody(inner), Marked(CloseDefine, c), PrintBody(rest), n, deeper);
  }

  /** A printed block leaves the counters alone and shows its top level, or nothing inside a conditional. */
  ghost predicate ProjectsTo(marked: seq<Marked>, n: Nesting, shown: seq<string>) {
    After(marked, n) == n && Project(marked, n) == shown
  }

  function ShownOf(b: Block, c: nat): seq<string> {
    if c == 0 then TopLevel(b) else Blanks(|PrintBlock(b)|)
  }

  lemma ProjectLine(l: string, rest: Block, c: nat)
    requires ProjectsTo(PrintBlock(rest), Nesting(c, 0), ShownOf(rest, c))
    ensures ProjectsTo(PrintBlock(Line(l, rest)), Nesting(c, 0), ShownOf(Line(l, rest), c))
  {
    hide Project, After, PrintBlock, TopLevel;
    var m := Marked(Plain, l);
    LinePrints(l, rest);
    ProjectCons(m, PrintBlock(rest), Nesting(c, 0));
    BlanksAdd(1, |PrintBlock(rest)|);
    assert c > 0 ==> [""] == Blanks(1);
  }

  lemma LinePrints(l: string, rest: Block)
    ensures PrintBlock(Line(l, rest)) == [Marked(Plain, l)] + PrintBlock(rest)
    ensures TopLevel(Line(l, rest)) == [l] + TopLevel(rest)
  {
  }

  /** A stretch that shows nothing of its inside, and what follows it. */
  lemma ProjectWrapped(o: Marked, inner: seq<Marked>, close: Marked, rest: Block, c: nat, deeper: Nesting)
    requires deeper == Enter(Nesting(c, 0), o.kind) && !Keeps(Nesting(c, 0), o.kind)
    requires ProjectsTo(inner, deeper, Blanks(|inner|))
    requires Enter(deeper, close.kind) == Nesting(c, 0) && !Keeps(deeper, close.kind)
    requires ProjectsTo(PrintBlock(rest), Nesting(c, 0), ShownOf(rest, c))
    ensures
      var all := Wrap(o, inner, close, PrintBlock(rest));
      ProjectsTo(all, Nesting(c, 0),
        if c == 0 then Blanks(|inner| + 2) + TopLevel(rest) else Blanks(|all|))
  {
    hide Project, After, PrintBlock, TopLevel, Enter, Keeps, Blanks;
    Enclosed(o, inner, close, PrintBlock(rest), Nesting(c, 0), deeper);
    BlanksAdd(|inner| + 2, |PrintBlock(rest)|);
  }

  lemma {:induction false} ProjectBlock(b: Block, c: nat)
    requires WellNested(b)
    ensures ProjectsTo(PrintBlock(b), Nesting(c, 0), ShownOf(b, c))
  {
    match b
    case End =>
    case Line(l, rest) =>
      ProjectBlock(rest, c);
      ProjectLine(l, rest, c);
    case Conditional(o, body, close, rest) =>
      hide ProjectsTo, PrintBlock, TopLevel, Wrap;
      ProjectBlock(body, c + 1);
      ProjectBlock(rest, c);
      ProjectWrapped(Marked(OpenConditional, o), PrintBlock(body), Marked(CloseConditional, close), rest,
        c, Nesting(c + 1, 0));
      ConditionalPrints(o, body, close, rest);
    case Definition(o, inner, close, rest) =>
      ProjectBody(inner, Nesting(c, 1));
      ProjectBlock(rest, c);
      hide ProjectsTo, PrintBlock, TopLevel, Wrap;
      ProjectWrapped(Marked(OpenDefine, o), PrintBody(inner), Marked(CloseDefine, close), rest, c, Nesting(c, 1));
      DefinitionPrints(o, inner, close, rest);
  }

  lemma ConditionalPrints(o: string, body: Block, close: string, rest: Block)
    ensures PrintBlock(Conditional(o, body, close, rest))
         == Wrap(Marked(OpenConditional, o), PrintBlock(body), Marked(CloseConditional, close), PrintBlock(rest))
    ensures TopLevel(Conditional(o, body, close, rest)) == Blanks(|PrintBlock(body)| + 2) + TopLevel(rest)
  {
  }

  lemma DefinitionPrints(o: string, inner: Body, close: string, rest: Block)
    ensures PrintBlock(Definition(o, inner, close, rest))
         == Wrap(Marked(OpenDefine, o), PrintBody(inner), Marked(CloseDefine, close), PrintBlock(rest))
    ensures TopLevel(Definition(o, inner, close, rest)) == Blanks(|PrintBody(inner)| + 2) + TopLevel(rest)
  {
  }

  /** The counters meet the grammar: only top-level plain lines survive, each at its own index. */
  lemma ProjectionMeetsGrammar(text: string, b: Block)
    requires WellNested(b) && Mark(Splitlines(text), KindOf) == PrintBlock(b)
    ensures Kept(text) == TopLevel(b)
  {
    ProjectBlock(b, 0);
  }

  /** What the blocks of a file contain never reaches its projection. */
  lemma BlockContentsAreInvisible(x: string, y: string, b: Block, c: Block)
    requires WellNested(b) && WellNested(c) && TopLevel(b) == TopLevel(c)
    requires Mark(Splitlines(x), KindOf) == PrintBlock(b) && Mark(Splitlines(y), KindOf) == PrintBlock(c)
    ensures Unconditional(x) == Unconditional(y)
  {
    ProjectionMeetsGrammar(x, b);
    ProjectionMeetsGrammar(y, c);
  }

  lemma {:induction false} ProjectedLines(lines: seq<string>, n: Nesting, kind: string -> Kind)
    ensures forall k <- Project(Mark(lines, kind), n) :: k in lines || k == ""
  {
    if lines != [] {
      ProjectedLines(lines[1..], Enter(n, kind(lines[0])), kind);
    }
  }

  lemma SplitProjected(lines: seq<string>, n: Nesting, kind: string -> Kind)
    requires forall l <- lines :: Unbroken(l)
    ensures Splitlines(JoinLines(Project(Mark(lines, kind), n))) == DropLastBlank(Project(Mark(lines, kind), n))
  {
    ProjectedLines(lines, n, kind);
    JoinThenSplit(Project(Mark(lines, kind), n));
  }

  lemma SplitUnconditional(text: string)
    ensures Splitlines(Unconditional(text)) == DropLastBlank(Kept(text))
  {
    SplitlinesUnbroken(text);
    SplitProjected(Splitlines(text), TOP, KindOf);
  }

  /** On line lists the projection is idempotent, well nested or not. */
  lemma {:induction false} ProjectIdempotent(lines: seq<string>, n: Nesting, kind: string -> Kind)
    requires kind("") == Plain
    ensures Project(Mark(Project(Mark(lines, kind), n), kind), TOP) == Project(Mark(lines, kind), n)
  {
    if lines != [] {
      var m := Marked(kind(lines[0]), lines[0]);
      var next := Enter(n, m.kind);
      ProjectIdempotent(lines[1..], next, kind);
      var rest := Project(Mark(lines[1..], kind), next);
      assert Project(Mark(lines, kind), n) == [Shown(m, n)] + rest;
      assert ([Shown(m, n)] + rest)[1..] == rest;
    }
  }

  lemma {:induction false} MarkAppend(a: seq<string>, b: seq<string>, kind: string -> Kind)
    ensures Mark(a + b, kind) == Mark(a, kind) + Mark(b, kind)
  {
    if a == [] {
      assert a + b == b;
    } else {
      assert (a + b)[1..] == a[1..] + b;
      MarkAppend(a[1..], b, kind);
    }
  }

  lemma ProjectTwiceDropsBlank(kept: seq<string>, again: seq<string>, kind: string -> Kind)
    requires Project(Mark(kept, kind), TOP) == kept && again == DropLastBlank(kept)
    ensures Project(Mark(again, kind), TOP) == again
  {
    if kept != [] && kept[|kept| - 1] == "" {
      assert kept == again + [""];
      MarkAppend(again, [""], kind);
      ProjectPrefix(Mark(again, kind), Mark([""], kind), TOP);
    }
  }

  lemma IdempotentFor(lines: seq<string>, kind: string -> Kind)
    requires kind("") == Plain && forall l <- lines :: Unbroken(l)
    ensures
      var kept := Project(Mark(lines, kind), TOP);
      var once := JoinLines(kept);
      JoinLines(Project(Mark(Splitlines(once), kind), TOP)) == once <==> |kept| <= 1 || kept[|kept| - 1] != ""
  {
    hide Project, Mark, JoinLines, Splitlines;
    SplitProjected(lines, TOP, kind);
    ProjectIdempotent(lines, TOP, kind);
    var kept := Project(Mark(lines, kind), TOP);
    var again := Splitlines(JoinLines(kept));
    ProjectTwiceDropsBlank(kept, again, kind);
    JoinDropLastBlank(kept, Project(Mark(again, kind), TOP));
  }

  lemma BlankIsPlain()
    ensures KindOf("") == Plain
  {
  }

  /** On texts it is not: each pass loses one trailing blank line. This is exactly when nothing changes. */
  lemma UnconditionalIdempotent(text: string)
    ensures Unconditional(Unconditional(text)) == Unconditional(text)
       <==> |Kept(text)| <= 1 || Kept(text)[|Kept(text)| - 1] != ""
  {
    hide Project, Mark, JoinLines, Splitlines, KindOf;
    BlankIsPlain();
    SplitlinesUnbroken(text);
    IdempotentFor(Splitlines(text), KindOf);
  }

  lemma JoinDropLastBlank(lines: seq<string>, dropped: seq<string>)
    requires dropped == DropLastBlank(lines)
    ensures JoinLines(dropped) == JoinLines(lines) <==> |lines| <= 1 || lines[|lines| - 1] != ""
  {
    if |lines| > 1 && lines[|lines| - 1] == "" {
      JoinSnoc(dropped, "");
      assert lines == dropped + [""];
    }
  }

  lemma {:induction false} JoinSnoc(lines: seq<string>, last: string)
    requires lines != []
    ensures JoinLines(lines + [last]) == JoinLines(lines) + "\n" + last
  {
    assert (lines + [last])[1..] == lines[1..] + [last];
    JoinLinesStep(lines + [last]);
    if |lines| > 1 {
      JoinLinesStep(lines);
      JoinSnoc(lines[1..], last);
    }
  }
}
