/** What an accepted `Repo.mk` makes Make do. */
module RepoMkWork {
  import opened Strings
  import opened MakeLines
  import opened MakeExpansion
  import opened MakeSoundness
  import opened MakeSyntax
  import opened MakeFile
  import opened MakeAgreement
  import opened MakeReading
  import opened RepoMk
  import opened RepoMkRecipes
  import opened RepoMkAdmission

  /** The line that earns a leaf its credit. */
  lemma {:induction false} CreditHasLine(lines: seq<string>, s: Scope, leaf: string) returns (k: nat)
    requires leaf in Leaves(lines, s)
    ensures k < |Visited(lines)|
    ensures
      var scope := ScopeAfter(Visited(lines)[..k], s);
      leaf in Credited(LineOf(Visited(lines)[k], scope.prefix), scope, Behind(lines, k))
    decreases |lines|
  {
    hide LineOf, Credited, Advance, Extend;
    var (logical, used) := Extend(lines[0], lines[1..]);
    var rest := lines[1 + used..];
    LeavesCons(lines, s, logical, used);
    if leaf in Credited(LineOf(logical, s.prefix), s, rest) {
      k := 0;
    } else {
      var j := CreditHasLine(rest, Advance(LineOf(logical, s.prefix), s), leaf);
      k := j + 1;
      assert Visited(lines)[..k][1..] == Visited(rest)[..j];
    }
  }

  /** What Make makes of a line, by its own reading: a rule for the leaf with prerequisites that expand to
      something, or with an inline recipe or a recipe line behind it that has text in it. */
  ghost predicate Works(leaf: string, line: string, behind: seq<Logical>, m: Make, world: World, strict: bool) {
    var reading := Reads(line, m.prefix, m.open);
    && reading.RuleLine? && leaf in reading.targets
    && (|| Fine(Expand(reading.prerequisites, m.store, world, {}), strict)
        || (reading.recipe.Some? && NonBlank(reading.recipe.value))
        || exists l <- RecipeOf(behind, m.prefix) :: NonBlank(l.text))
  }

  /** So it does after this run, unless Make has stopped in it with an error. */
  ghost predicate WorksBehind(leaf: string, line: string, behind: seq<Logical>, run: Progress, world: World,
      strict: bool) {
    match run
    case Running(m) => Works(leaf, line, behind, m, world, strict)
    case Stopped => true
    case Beyond => false
  }

  /** In every environment Make has stopped with an error before the `k`-th logical line, or that line works. */
  ghost predicate HasWork(leaf: string, lines: seq<string>, k: nat, world: World, strict: bool) {
    k < |Gathered(lines)| &&
    forall env ::
      WorksBehind(leaf, Gathered(lines)[k].text, Gathered(lines)[k + 1..],
        MakeAfter(Texts(Gathered(lines))[..k], FromEnvironment(env), world), world, strict)
  }

  /** No line ends in two backslashes, every logical line is in the fragment, a rule that names a required leaf is
      a plain line, and one credited for its recipe alone has it in Make's sight. */
  ghost predicate InScope(lines: seq<string>, strict: bool) {
    && SingleSlashes(lines) && !EndsContinued(lines) && Fragment(Visited(lines), BEGIN, strict)
    && forall k :: 0 <= k < |Visited(lines)| ==> LeafRuleIsPlain(lines, k) && RecipesAreSeen(lines, k)
  }

  ghost predicate LeafRuleIsPlain(lines: seq<string>, k: nat)
    requires k < |Visited(lines)|
  {
    var scope := ScopeAfter(Visited(lines)[..k], START);
    var line := LineOf(Visited(lines)[k], scope.prefix);
    line.Target? && (exists leaf <- REQUIRED_LEAVES :: leaf in line.rule.names)
    ==> IsPlainLine(Visited(lines)[k], scope.prefix, false)
  }

  predicate RecipesAreSeen(lines: seq<string>, k: nat)
    requires k < |Visited(lines)|
  {
    var scope := ScopeAfter(Visited(lines)[..k], START);
    var line := LineOf(Visited(lines)[k], scope.prefix);
    line.Target? && !CreditsPrerequisites(line.rule, scope.vars) && HasRecipe(line.rule, Behind(lines, k), scope.prefix)
    ==> RecipeSeen(line.rule, Behind(lines, k), scope.prefix)
  }

  lemma {:induction false} GatheredExtends(lines: seq<string>, number: nat, front: string, start: nat, text: string,
      used: nat)
    requires lines != [] && SingleSlashes(lines) && !EndsContinued(lines) && !Continued(front)
    requires Extend(front + lines[0], lines[1..]) == (text, used)
    ensures
      var first := if front == "" then number else start;
      GatheredFrom(lines, number, front, start)
      == [Logical(first, text)] + GatheredFrom(lines[1 + used..], number + 1 + used, "", first)
    decreases |lines|
  {
    hide Slashes, Escapes, Unescaped, Unslash;
    var rest := lines[1..];
    var first := if front == "" then number else start;
    SingleSlash(lines[0]);
    UnslashTail(front, lines[0]);
    if Continued(lines[0]) {
      assert rest != [] && rest[|rest| - 1] == lines[|lines| - 1];
      assert rest[1 + (used - 1)..] == lines[1 + used..];
      GatheredExtends(rest, number + 1, front + Unslash(lines[0]), first, text, used - 1);
    }
  }

  /** Make's logical lines are those the leaf scan visits, and what is behind one of them is the same too. */
  lemma {:induction false} GatheredIsVisited(lines: seq<string>, number: nat, start: nat)
    requires SingleSlashes(lines) && !EndsContinued(lines)
    ensures Texts(GatheredFrom(lines, number, "", start)) == Visited(lines)
    decreases |lines|
  {
    hide Extend, Slashes, SingleSlashes, EndsContinued;
    if lines != [] {
      var (text, used) := Extend(lines[0], lines[1..]);
      assert "" + lines[0] == lines[0];
      hide GatheredFrom;
      GatheredExtends(lines, number, "", start, text, used);
      RestIsLegible(lines, 1 + used);
      GatheredIsVisited(lines[1 + used..], number + 1 + used, number);
      TextsCons(Logical(number, text), GatheredFrom(lines[1 + used..], number + 1 + used, "", number));
    }
  }

  lemma TextsCons(head: Logical, rest: seq<Logical>)
    ensures Texts([head] + rest) == [head.text] + Texts(rest)
  {
    assert ([head] + rest)[1..] == rest;
  }

  lemma RestIsLegible(lines: seq<string>, n: nat)
    requires n <= |lines| && SingleSlashes(lines) && !EndsContinued(lines)
    ensures SingleSlashes(lines[n..]) && !EndsContinued(lines[n..])
  {
    assert forall line <- lines[n..] :: line in lines;
  }

  lemma {:induction false} GatheredBehind(lines: seq<string>, number: nat, start: nat, k: nat) returns (n: nat, s: nat)
    requires SingleSlashes(lines) && !EndsContinued(lines) && k < |Visited(lines)|
    ensures |GatheredFrom(lines, number, "", start)| == |Visited(lines)|
    ensures GatheredFrom(lines, number, "", start)[k + 1..] == GatheredFrom(Behind(lines, k), n, "", s)
    decreases k
  {
    hide Extend, Slashes;
    var (text, used) := Extend(lines[0], lines[1..]);
    assert "" + lines[0] == lines[0];
    GatheredExtends(lines, number, "", start, text, used);
    GatheredIsVisited(lines, number, start);
    RestIsLegible(lines, 1 + used);
    n, s := number + 1 + used, number;
    if k > 0 {
      n, s := GatheredBehind(lines[1 + used..], n, s, k - 1);
    }
  }

  lemma {:induction false} OrdinaryIsNamed(names: seq<string>, name: string)
    requires name in Ordinary(names)
    ensures name in names
  {
    if names[0] != name || IsSpecial(names[0]) {
      OrdinaryIsNamed(names[1..], name);
    }
  }

  lemma CreditedForOne(line: Line, s: Scope, rest: seq<string>, leaf: string)
    requires leaf in Credited(line, s, rest)
    ensures line.Target? && leaf in line.rule.names
    ensures CreditsPrerequisites(line.rule, s.vars) || HasRecipe(line.rule, rest, s.prefix)
  {
    OrdinaryIsNamed(line.rule.names, leaf);
  }

  /** A credited line whose recipe is in sight works. */
  lemma SeenRecipeWorks(leaf: string, line: string, rest: seq<string>, n: nat, s: nat, m: Make, world: World,
      strict: bool)
    requires IsPlainLine(line, m.prefix, m.open) && LineOf(line, m.prefix).Target? && m.prefix != '\\'
    requires leaf in LineOf(line, m.prefix).rule.names
    requires RecipeSeen(LineOf(line, m.prefix).rule, rest, m.prefix)
    ensures Works(leaf, line, GatheredFrom(rest, n, "", s), m, world, strict)
  {
    hide LineOf, Reads, IsTargetVariable, ScanRecipe, IsPlainLine, Prerequisites, Fine, RecipeOf, Tail, FirstLogical;
    var rule := LineOf(line, m.prefix).rule;
    ReadAlike(line, m.prefix, m.open);
    InlineRecipeIff(line, m.prefix, m.open);
    if NonBlank(InlineRecipe(rule)) && '#' !in CutAt(rule.after, ';') {
      InlineNeedsMark(rule);
    } else {
      FoundRecipe(rest, n, "", s, m.prefix);
    }
  }

  /** The recipe prefix is never a backslash in the fragment. */
  lemma {:induction false} PrefixStaysPlain(logicals: seq<string>, v: View, strict: bool)
    requires Fragment(logicals, v, strict) && v.scope.prefix != '\\'
    ensures ViewAfter(logicals, v).scope.prefix != '\\'
  {
    hide IsPlainLine, LineOf, Reads, AssignmentOk, PrefixFrom;
    if logicals != [] {
      PrefixStaysPlain(logicals[1..], Follow(logicals[0], v), strict);
    }
  }

  lemma LineWorks(leaf: string, lines: seq<string>, k: nat, env: map<string, string>, world: World, strict: bool)
    requires InScope(lines, strict) && k < |Visited(lines)| == |Gathered(lines)| && leaf in REQUIRED_LEAVES
    requires Texts(Gathered(lines)) == Visited(lines)
    requires
      var scope := ScopeAfter(Visited(lines)[..k], START);
      leaf in Credited(LineOf(Visited(lines)[k], scope.prefix), scope, Behind(lines, k))
    ensures
      WorksBehind(leaf, Visited(lines)[k], Gathered(lines)[k + 1..],
        MakeAfter(Visited(lines)[..k], FromEnvironment(env), world), world, strict)
  {
    hide LineOf, Credited, Reads, CreditsPrerequisites, HasRecipe, RecipeSeen, Fragment, Fine, Expand, RecipeOf, Behind;
    hide MakeAfter, FromEnvironment, ScopeAfter, ViewAfter, Visited, GatheredFrom, Works, InFragment, Describes;
    hide SingleSlashes, IsPlainLine;
    var logicals, scope := Visited(lines), ScopeAfter(Visited(lines)[..k], START);
    var line := LineOf(logicals[k], scope.prefix);
    CreditedForOne(line, scope, Behind(lines, k), leaf);
    assert LeafRuleIsPlain(lines, k);
    if CreditsPrerequisites(line.rule, scope.vars) {
      CreditedLineWorks(leaf, lines, k, env, world, strict);
    } else {
      assert RecipesAreSeen(lines, k);
      EnvironmentIsDescribed(env, strict);
      FragmentFront(logicals, BEGIN, strict, k);
      RunModels(logicals[..k], BEGIN, FromEnvironment(env), world, strict);
      ViewHoldsScope(logicals[..k], BEGIN);
      PrefixStaysPlain(logicals[..k], BEGIN, strict);
      var end := MakeAfter(logicals[..k], FromEnvironment(env), world);
      if end.Running? {
        StepUsesPrefix(ViewAfter(logicals[..k], BEGIN), end.make, strict);
        ReadsAnyway(logicals[k], scope.prefix, false, end.make.open);
        var n, s := GatheredBehind(lines, 1, 0, k);
        SeenRecipeWorks(leaf, logicals[k], Behind(lines, k), n, s, end.make, world, strict);
      }
    }
  }

  lemma CreditedLineWorks(leaf: string, lines: seq<string>, k: nat, env: map<string, string>, world: World,
      strict: bool)
    requires Fragment(Visited(lines), BEGIN, strict) && k < |Visited(lines)| == |Gathered(lines)|
    requires
      var scope := ScopeAfter(Visited(lines)[..k], START);
      var line := LineOf(Visited(lines)[k], scope.prefix);
      && line.Target? && leaf in line.rule.names && CreditsPrerequisites(line.rule, scope.vars)
      && IsPlainLine(Visited(lines)[k], scope.prefix, false)
    ensures
      WorksBehind(leaf, Visited(lines)[k], Gathered(lines)[k + 1..],
        MakeAfter(Visited(lines)[..k], FromEnvironment(env), world), world, strict)
  {
    hide LineOf, Reads, CreditsPrerequisites, Fragment, Fine, Expand, RecipeOf, MakeAfter, FromEnvironment, ScopeAfter;
    hide Visited, GatheredFrom;
    FragmentFront(Visited(lines), BEGIN, strict, k);
    CreditedPrerequisitesAreThere(Visited(lines), k, env, world, strict);
  }

  lemma {:induction false} FragmentFront(logicals: seq<string>, v: View, strict: bool, k: nat)
    requires k <= |logicals| && Fragment(logicals, v, strict)
    ensures Fragment(logicals[..k], v, strict)
  {
    hide InFragment, Follow;
    if k > 0 {
      FragmentFront(logicals[1..], Follow(logicals[0], v), strict, k - 1);
      assert logicals[..k][1..] == logicals[1..][..k - 1];
    }
  }

  lemma AcceptedLinesHaveWork(lines: seq<string>, unconditional: seq<string>, leaf: string, world: World, strict: bool)
    returns (k: nat)
    requires Judge(lines, unconditional).Accepted? && leaf in REQUIRED_LEAVES && InScope(unconditional, strict)
    ensures HasWork(leaf, unconditional, k, world, strict)
  {
    hide Judge, Credited, LineOf, Works, MakeAfter, RecipesAreSeen, Fragment;
    AcceptedIff(lines, unconditional);
    k := CreditHasLine(unconditional, START, leaf);
    GatheredIsVisited(unconditional, 1, 0);
    TextsAt(Gathered(unconditional), k);
    forall env
      ensures
        WorksBehind(leaf, Gathered(unconditional)[k].text, Gathered(unconditional)[k + 1..],
          MakeAfter(Texts(Gathered(unconditional))[..k], FromEnvironment(env), world), world, strict)
    {
      LineWorks(leaf, unconditional, k, env, world, strict);
    }
  }

  lemma {:induction false} RecipeGrows(a: seq<Logical>, b: seq<Logical>, prefix: char)
    ensures forall l <- RecipeOf(a, prefix) :: l in RecipeOf(a + b, prefix)
  {
    hide Reads;
    if a != [] {
      assert (a + b)[1..] == a[1..] + b && (a + b)[0] == a[0];
      RecipeGrows(a[1..], b, prefix);
    }
  }

  lemma BlankGathers(lines: seq<string>)
    requires SingleSlashes(lines) && !EndsContinued(lines)
    ensures Gathered(lines + [""]) == Gathered(lines) + [Logical(|lines| + 1, "")]
  {
    hide Slashes;
    assert Slashes("") == 0 by {
      assert !Continued("");
      NoSlash("");
    }
    GatheredIsJoined(lines, 1, "", 0);
    GatheredIsJoined(lines + [""], 1, "", 0);
    JoinAppend(lines, [""], 1, "", 0);
    var n := 1 + |lines|;
    assert [""][1..] == [] && "" + "" == "" && JoinFrom([], n + 1, "", n) == [];
    assert JoinFrom([""], n, "", 0) == [Logical(n, "")];
  }

  lemma NoSlash(line: string)
    ensures !Continued(line) ==> Slashes(line) == 0
  {
  }

  lemma WorksWithMore(leaf: string, line: string, a: seq<Logical>, b: seq<Logical>, run: Progress, world: World,
      strict: bool)
    requires WorksBehind(leaf, line, a, run, world, strict)
    ensures WorksBehind(leaf, line, a + b, run, world, strict)
  {
    hide Reads, Fine, Expand, RecipeOf, NonBlank;
    if run.Running? {
      RecipeGrows(a, b, run.make.prefix);
    }
  }

  /** The blank line that the projection drops makes no difference to Make. */
  lemma WorkDespiteBlank(leaf: string, lines: seq<string>, k: nat, world: World, strict: bool)
    requires SingleSlashes(lines) && !EndsContinued(lines) && HasWork(leaf, lines, k, world, strict)
    ensures HasWork(leaf, lines + [""], k, world, strict)
  {
    hide WorksBehind, Gathered, SingleSlashes, FromEnvironment, MakeAfter;
    var all, blank := Gathered(lines), [Logical(|lines| + 1, "")];
    BlankGathers(lines);
    TextsAppend(all, blank);
    assert Texts(all + blank)[..k] == Texts(all)[..k] && (all + blank)[k] == all[k];
    assert (all + blank)[k + 1..] == all[k + 1..] + blank;
    forall env
      ensures WorksBehind(leaf, all[k].text, all[k + 1..] + blank,
        MakeAfter(Texts(all)[..k], FromEnvironment(env), world), world, strict)
    {
      WorksWithMore(leaf, all[k].text, all[k + 1..], blank,
        MakeAfter(Texts(all)[..k], FromEnvironment(env), world), world, strict);
    }
  }

  /** Every leaf of an accepted file that breaks its lines as Make does and is in scope has a rule that, in Make's
      own lines and read by Make, gives it a recipe with text in it or prerequisites that are something when
      expanded. What Make makes of these, beyond the expansion (patterns, a second expansion, recipes that do
      nothing), is not part of it. Blocks are blanked for Make too: a file without conditionals and definitions is
      its own projection. */
  lemma AcceptedLeafHasWork(file: string, leaf: string, world: World, strict: bool) returns (k: nat)
    requires Validate(UniversalNewlines(file)).Accepted? && leaf in REQUIRED_LEAVES
    requires PlainBreaks(file) && InScope(DropLastBlank(Projected(PhysicalLines(file))), strict)
    ensures HasWork(leaf, Projected(PhysicalLines(file)), k, world, strict)
  {
    hide Judge, Projected, InScope, HasWork, PlainBreaks, PhysicalLines, UniversalNewlines, Splitlines, Validate;
    var text, lines := UniversalNewlines(file), PhysicalLines(file);
    LinesAgreeIff(file);
    AdmittedIsAccepted(text);
    var kept := DropLastBlank(Projected(lines));
    k := AcceptedLinesHaveWork(lines, kept, leaf, world, strict);
    if Projected(lines) != kept {
      assert Projected(lines) == kept + [""];
      ScopeIsClosed(kept, strict);
      WorkDespiteBlank(leaf, kept, k, world, strict);
    }
  }

  lemma ScopeIsClosed(lines: seq<string>, strict: bool)
    requires InScope(lines, strict)
    ensures SingleSlashes(lines) && !EndsContinued(lines)
  {
  }

  lemma {:induction false} TextsAt(logicals: seq<Logical>, k: nat)
    requires k < |logicals|
    ensures Texts(logicals)[k] == logicals[k].text
  {
    if k > 0 {
      TextsAt(logicals[1..], k - 1);
    }
  }
}
