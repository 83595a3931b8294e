/** What acceptance of a `Repo.mk` means, and what later lines of the file can do to it. */
module RepoMkAdmission {
  import opened Strings
  import opened MakeLines
  import opened MakeProjection
  import opened MakeVariables
  import opened MakeSyntax
  import opened MakeReading
  import opened RepoMk

  // ---- acceptance ----

  lemma {:induction false} LeavesAccepted(leaves: seq<string>, declared: set<string>, phony: set<string>,
      implemented: set<string>)
    ensures CheckLeaves(leaves, declared, phony, implemented).Accepted?
       <==> forall leaf <- leaves :: leaf in declared && leaf in phony && leaf in implemented
  {
    if leaves != [] {
      LeavesAccepted(leaves[1..], declared, phony, implemented);
      assert forall leaf :: leaf in leaves <==> leaf == leaves[0] || leaf in leaves[1..];
    }
  }

  lemma {:induction false} FacadeAccepted(declarations: seq<(nat, string)>)
    ensures CheckFacade(declarations).Accepted? <==> forall d <- declarations :: d.1 !in FACADE_TARGETS
  {
    if declarations != [] {
      FacadeAccepted(declarations[1..]);
      assert forall d :: d in declarations <==> d == declarations[0] || d in declarations[1..];
    }
  }

  /** A file is accepted exactly when every leaf is unconditionally declared, phony and implemented, and
      no line of it, conditional or not, declares a target of the facade. */
  lemma AcceptedIff(lines: seq<string>, unconditional: seq<string>)
    ensures Judge(lines, unconditional).Accepted? <==>
      && (forall leaf <- REQUIRED_LEAVES ::
            leaf in DeclaredIn(unconditional) && leaf in PhonyIn(unconditional) && leaf in ImplementedIn(unconditional))
      && DeclaredIn(lines) !! FACADE_TARGETS
  {
    LeavesAccepted(REQUIRED_LEAVES, DeclaredIn(unconditional), PhonyIn(unconditional), ImplementedIn(unconditional));
    FacadeAccepted(Declarations(Joined(lines)));
    DeclarationsName(Joined(lines));
    assert forall d <- Declarations(Joined(lines)) :: d.1 in DeclaredIn(lines);
  }

  // ---- what is declared, what is phony, and the first fault ----

  lemma {:induction false} NamesOnIff(lines: seq<string>, of: string -> seq<string>, name: string)
    ensures name in NamesOn(lines, of) <==> exists line <- lines :: name in of(line)
  {
    if lines != [] {
      NamesOnIff(lines[1..], of, name);
      assert lines == [lines[0]] + lines[1..];
    }
  }

  lemma {:induction false} OrdinaryIff(names: seq<string>, name: string)
    ensures name in Ordinary(names) <==> name in names && (name == "" || name[0] != '.')
  {
    if names != [] {
      OrdinaryIff(names[1..], name);
    }
  }

  /** Declared are the targets of all rule lines that do not begin with a dot. */
  lemma DeclaredIff(lines: seq<string>, name: string)
    ensures name in DeclaredIn(lines) <==>
      && (name == "" || name[0] != '.')
      && exists line <- Texts(Joined(lines)) :: ParseRule(line).Some? && name in ParseRule(line).value.names
  {
    hide ParseRule;
    NamesOnIff(Texts(Joined(lines)), TargetsOf, name);
    forall line
      ensures name in TargetsOf(line) <==>
        (name == "" || name[0] != '.') && ParseRule(line).Some? && name in ParseRule(line).value.names
    {
      if ParseRule(line).Some? {
        OrdinaryIff(ParseRule(line).value.names, name);
      }
    }
  }

  /** Up to a comment the line is `.PHONY`, a colon, blanks between them, and names. */
  ghost predicate NamesPhony(line: string, name: string) {
    exists space, names ::
      AllSpace(space) && RStrip(CutAt(line, '#')) == ".PHONY" + (space + (":" + names)) && name in Words(names)
  }

  lemma PhonyIff(lines: seq<string>, name: string)
    ensures name in PhonyIn(lines) <==> exists line <- Texts(Joined(lines)) :: NamesPhony(line, name)
  {
    hide NamesPhony;
    NamesOnIff(Texts(Joined(lines)), PhonyOf, name);
    forall line
      ensures name in PhonyOf(line) <==> NamesPhony(line, name)
    {
      PhonyWritten(line, name);
    }
  }

  lemma PhonyWritten(line: string, name: string)
    ensures name in PhonyOf(line) <==> NamesPhony(line, name)
  {
    hide Words, RStrip, CutAt;
    var code := RStrip(CutAt(line, '#'));
    forall space, names | AllSpace(space) && code == ".PHONY" + (space + (":" + names))
      ensures ParsePhony(code) == Some(Words(names))
    {
      assert code[|".PHONY"|..] == space + (":" + names);
      LStripOf(space, ":" + names);
    }
    if ParsePhony(code).Some? {
      var rest := code[|".PHONY"|..];
      var space := LStripped(rest);
      assert code == ".PHONY" + rest && LStrip(rest) == ":" + LStrip(rest)[1..];
    }
  }

  /** A leaf of the list is in order. */
  predicate InOrder(leaf: string, declared: set<string>, phony: set<string>, implemented: set<string>) {
    leaf in declared && leaf in phony && leaf in implemented
  }

  /** The first leaf that is not in order is reported, for the first thing that it lacks. */
  lemma {:induction false} FirstLeafIsReported(leaves: seq<string>, declared: set<string>, phony: set<string>,
      implemented: set<string>, k: nat)
    requires k < |leaves| && !InOrder(leaves[k], declared, phony, implemented)
    requires forall j :: 0 <= j < k ==> InOrder(leaves[j], declared, phony, implemented)
    ensures CheckLeaves(leaves, declared, phony, implemented) ==
      if leaves[k] !in declared then Missing(leaves[k])
      else if leaves[k] !in phony then NotPhony(leaves[k])
      else Idle(leaves[k])
  {
    if k > 0 {
      FirstLeafIsReported(leaves[1..], declared, phony, implemented, k - 1);
    }
  }

  /** Where all leaves are in order, the first declaration of a facade target is, with the number of the physical line
      its logical line starts on. */
  lemma {:induction false} FirstFacadeIsReported(logicals: seq<Logical>, k: nat, i: nat)
    requires k < |logicals| && i < |TargetsOf(logicals[k].text)|
    requires TargetsOf(logicals[k].text)[i] in {"help", "setup", "validate", "check", "test"}
    requires forall j :: 0 <= j < i ==> TargetsOf(logicals[k].text)[j] !in FACADE_TARGETS
    requires forall j :: 0 <= j < k ==> forall name <- TargetsOf(logicals[j].text) :: name !in FACADE_TARGETS
    ensures CheckFacade(Declarations(logicals)) == Redefines(logicals[k].start, TargetsOf(logicals[k].text)[i])
  {
    hide TargetsOf;
    var here := Numbered(logicals[0].start, TargetsOf(logicals[0].text));
    if k > 0 {
      FirstFacadeIsReported(logicals[1..], k - 1, i);
      FacadeSkips(here, Declarations(logicals[1..]), |here|);
    } else {
      FacadeSkips(here, Declarations(logicals[1..]), i);
      assert (here + Declarations(logicals[1..]))[i..][0] == here[i];
    }
  }

  lemma {:induction false} FacadeSkips(a: seq<(nat, string)>, b: seq<(nat, string)>, n: nat)
    requires n <= |a| && forall j :: 0 <= j < n ==> a[j].1 !in FACADE_TARGETS
    ensures CheckFacade(a + b) == CheckFacade((a + b)[n..])
  {
    if n > 0 {
      assert (a + b)[1..] == a[1..] + b && (a + b)[0] == a[0];
      FacadeSkips(a[1..], b, n - 1);
      assert (a + b)[n..] == (a[1..] + b)[n - 1..];
    } else {
      assert (a + b)[0..] == a + b;
    }
  }

  /** So the verdict on a file names its first leaf that is not in order, if there is one, ... */
  lemma VerdictOnLeaves(lines: seq<string>, unconditional: seq<string>, k: nat)
    requires k < 4
    requires
      var leaves := ["repo-setup", "repo-validate", "repo-check", "repo-test"];
      var d, p, i := DeclaredIn(unconditional), PhonyIn(unconditional), ImplementedIn(unconditional);
      !InOrder(leaves[k], d, p, i) && forall j :: 0 <= j < k ==> InOrder(leaves[j], d, p, i)
    ensures
      var leaf := ["repo-setup", "repo-validate", "repo-check", "repo-test"][k];
      Judge(lines, unconditional) ==
        if leaf !in DeclaredIn(unconditional) then Missing(leaf)
        else if leaf !in PhonyIn(unconditional) then NotPhony(leaf)
        else Idle(leaf)
  {
    hide DeclaredIn, PhonyIn, ImplementedIn, Declarations;
    FirstLeafIsReported(["repo-setup", "repo-validate", "repo-check", "repo-test"],
      DeclaredIn(unconditional), PhonyIn(unconditional), ImplementedIn(unconditional), k);
  }

  /** ... and else its first declaration of a target of the facade. */
  lemma VerdictOnFacade(lines: seq<string>, unconditional: seq<string>)
    requires forall leaf <- {"repo-setup", "repo-validate", "repo-check", "repo-test"} ::
      InOrder(leaf, DeclaredIn(unconditional), PhonyIn(unconditional), ImplementedIn(unconditional))
    ensures Judge(lines, unconditional) == CheckFacade(Declarations(Joined(lines)))
  {
    hide DeclaredIn, PhonyIn, ImplementedIn, Declarations;
    LeavesAccepted(REQUIRED_LEAVES, DeclaredIn(unconditional), PhonyIn(unconditional), ImplementedIn(unconditional));
    forall leaf <- REQUIRED_LEAVES
      ensures InOrder(leaf, DeclaredIn(unconditional), PhonyIn(unconditional), ImplementedIn(unconditional))
    {
      assert leaf in {"repo-setup", "repo-validate", "repo-check", "repo-test"};
    }
  }

  // ---- implemented targets are declared ----

  lemma CreditedIsTarget(logical: string, s: Scope, rest: seq<string>, leaf: string)
    requires leaf in Credited(LineOf(logical, s.prefix), s, rest)
    ensures leaf in TargetsOf(logical)
  {
  }

  lemma {:induction false} LeavesOnLines(lines: seq<string>, s: Scope, leaf: string) returns (k: nat)
    requires leaf in Leaves(lines, s)
    ensures k < |Visited(lines)| && leaf in TargetsOf(Visited(lines)[k])
    decreases |lines|
  {
    hide LineOf, Credited, Advance, TargetsOf;
    var (logical, used) := Extend(lines[0], lines[1..]);
    var rest := lines[1 + used..];
    LeavesCons(lines, s, logical, used);
    if leaf in Credited(LineOf(logical, s.prefix), s, rest) {
      CreditedIsTarget(logical, s, rest, leaf);
      k := 0;
    } else {
      var j := LeavesOnLines(rest, Advance(LineOf(logical, s.prefix), s), leaf);
      k := j + 1;
    }
  }

  lemma LeavesCons(lines: seq<string>, s: Scope, logical: string, used: nat)
    requires lines != [] && Extend(lines[0], lines[1..]) == (logical, used)
    ensures
      var rest, line := lines[1 + used..], LineOf(logical, s.prefix);
      && Visited(lines) == [logical] + Visited(rest)
      && Leaves(lines, s) == Credited(line, s, rest) + Leaves(rest, Advance(line, s))
  {
    hide LineOf, Credited, Advance, Extend;
  }

  /** A backslash at the end of a line never decides which targets the line declares. */
  lemma TargetsOfUnslashed(logical: string)
    requires Continued(logical)
    ensures TargetsOf(Unslash(logical)) == TargetsOf(logical)
  {
    var n := |logical| - 1;
    assert Unslash(logical) == logical[..n] + " ";
    assert logical == logical[..n] + "\\";
    RuleEndIgnoresTail(logical[..n], ' ');
    RuleEndIgnoresTail(logical[..n], '\\');
    if RuleEnd(logical) > 0 {
      var m := FirstMark(logical[..n]);
      assert logical[..m] == logical[..n][..m] == Unslash(logical)[..m];
    }
  }

  lemma {:induction false} FirstMarkSnoc(s: string, c: char)
    requires c != ':' && c != '=' && c != '#'
    ensures FirstMark(s + [c]) == if FirstMark(s) < |s| then FirstMark(s) else |s| + 1
  {
    if s == "" {
      assert FirstMark([c]) == 1;
    } else {
      assert (s + [c])[1..] == s[1..] + [c];
      FirstMarkSnoc(s[1..], c);
    }
  }

  lemma ColonsIgnoreTail(s: string, c: char)
    requires c != ':' && c != '='
    ensures Colons(s + [c]) == Colons(s)
  {
    var t := s + [c];
    assert forall i :: 0 <= i < |s| ==> t[i] == s[i];
  }

  lemma TailBehindMark(s: string, c: char)
    requires c != ':' && c != '=' && c != '#'
    ensures Colons((s + [c])[FirstMark(s + [c])..]) == Colons(s[FirstMark(s)..])
  {
    FirstMarkSnoc(s, c);
    var n := FirstMark(s);
    if n < |s| {
      assert (s + [c])[n..] == s[n..] + [c];
      ColonsIgnoreTail(s[n..], c);
    }
  }

  lemma RuleEndIgnoresTail(s: string, c: char)
    requires c != ':' && c != '=' && c != '#'
    ensures RuleEnd(s + [c]) == RuleEnd(s)
    ensures RuleEnd(s) > 0 ==> FirstMark(s + [c]) == FirstMark(s) <= |s|
  {
    FirstMarkSnoc(s, c);
    TailBehindMark(s, c);
    assert s != "" ==> (s + [c])[0] == s[0];
  }

  /** The implemented leaves of any text are among its declared targets. */
  lemma ImplementedAreDeclared(lines: seq<string>)
    ensures ImplementedIn(lines) <= DeclaredIn(lines)
  {
    hide TargetsOf, Leaves, NamesOn, Texts;
    forall leaf | leaf in ImplementedIn(lines) ensures leaf in DeclaredIn(lines) {
      var visited, texts := Visited(lines), Texts(Joined(lines));
      var k := LeavesOnLines(lines, START, leaf);
      JoinersAgree(lines);
      if texts[k] != visited[k] {
        TargetsOfUnslashed(visited[k]);
      }
      NamesOnAt(texts, TargetsOf, k);
      assert leaf in TargetsOf(texts[k]);
    }
  }

  // ---- monotonicity ----

  lemma {:induction false} ExtendWithin(logical: string, a: seq<string>, b: seq<string>)
    requires !EndsContinued([logical] + a)
    ensures Extend(logical, a + b) == Extend(logical, a)
    decreases |a|
  {
    if Continued(logical) && a != [] {
      assert (a + b)[1..] == a[1..] + b && (a + b)[0] == a[0];
      assert a[0] != "" ==> Continued(Unslash(logical) + a[0]) == Continued(a[0]);
      assert EndsContinued([Unslash(logical) + a[0]] + a[1..]) ==> EndsContinued([logical] + a);
      ExtendWithin(Unslash(logical) + a[0], a[1..], b);
    }
  }

  lemma {:induction false} ScanRecipeGrows(a: seq<string>, b: seq<string>, prefix: char)
    requires ScanRecipe(a, prefix)
    ensures ScanRecipe(a + b, prefix)
  {
    assert (a + b)[1..] == a[1..] + b && (a + b)[0] == a[0];
    if ScanRecipe(a[1..], prefix) {
      ScanRecipeGrows(a[1..], b, prefix);
    }
  }

  lemma CreditedGrows(line: Line, s: Scope, a: seq<string>, b: seq<string>)
    ensures Credited(line, s, a) <= Credited(line, s, a + b)
  {
    if line.Target? && ScanRecipe(a, s.prefix) {
      ScanRecipeGrows(a, b, s.prefix);
    }
  }

  lemma {:induction false} LeavesGrow(a: seq<string>, b: seq<string>, s: Scope)
    requires !EndsContinued(a)
    ensures Leaves(a, s) <= Leaves(a + b, s)
    decreases |a|
  {
    hide LineOf, Credited, Advance;
    if a != [] {
      var all := a + b;
      assert all[1..] == a[1..] + b && all[0] == a[0] && [a[0]] + a[1..] == a;
      ExtendWithin(a[0], a[1..], b);
      var (logical, used) := Extend(a[0], a[1..]);
      var rest, line := a[1 + used..], LineOf(logical, s.prefix);
      assert all[1 + used..] == rest + b;
      CreditedGrows(line, s, rest, b);
      assert EndsContinued(rest) ==> EndsContinued(a);
      LeavesGrow(rest, b, Advance(line, s));
    }
  }

  lemma NamesGrow(a: seq<string>, b: seq<string>, of: string -> seq<string>)
    requires !EndsContinued(a)
    ensures NamesOn(Texts(Joined(a + b)), of) == NamesOn(Texts(Joined(a)), of) + NamesOn(Texts(Joined(b)), of)
  {
    JoinAppend(a, b, 1, "", 0);
    TextsAppend(Joined(a), JoinFrom(b, 1 + |a|, "", 0));
    NumbersIrrelevant(b, 1 + |a|, 1, "", 0, 0);
    NamesOnAppend(Texts(Joined(a)), Texts(Joined(b)), of);
  }

  lemma {:induction false} TextsAppend(a: seq<Logical>, b: seq<Logical>)
    ensures Texts(a + b) == Texts(a) + Texts(b)
  {
    if a == [] {
      assert a + b == b;
    } else {
      assert (a + b)[1..] == a[1..] + b;
      TextsAppend(a[1..], b);
    }
  }

  /** More lines at the end only add declarations, phony names and implementations. */
  lemma JudgeGrows(lines: seq<string>, more: seq<string>, kept: seq<string>, extra: seq<string>)
    requires !EndsContinued(lines) && !EndsContinued(kept)
    requires Judge(lines, kept).Accepted? && DeclaredIn(more) !! FACADE_TARGETS
    ensures Judge(lines + more, kept + extra).Accepted?
  {
    AcceptedIff(lines, kept);
    AcceptedIff(lines + more, kept + extra);
    NamesGrow(kept, extra, TargetsOf);
    NamesGrow(kept, extra, PhonyOf);
    LeavesGrow(kept, extra, START);
    NamesGrow(lines, more, TargetsOf);
  }

  /** The projection of a longer file continues the projection of the shorter one. */
  lemma KeptAppend(lines: seq<string>, more: seq<string>, kind: string -> Kind) returns (extra: seq<string>)
    requires more != []
    ensures DropLastBlank(Project(Mark(lines + more, kind), TOP)) == Project(Mark(lines, kind), TOP) + extra
  {
    MarkAppend(lines, more, kind);
    ProjectAppend(Mark(lines, kind), Mark(more, kind), TOP);
    extra := DropLastBlank(Project(Mark(more, kind), After(Mark(lines, kind), TOP)));
  }

  /** The projected lines of a file with these lines, before joining and splitting drops a last blank one. */
  function Projected(lines: seq<string>): seq<string> { Project(Mark(lines, KindOf), TOP) }

  predicate Admitted(lines: seq<string>) { Judge(lines, DropLastBlank(Projected(lines))).Accepted? }

  lemma AdmittedIsAccepted(text: string)
    ensures Validate(text).Accepted? <==> Admitted(Splitlines(text))
  {
    SplitUnconditional(text);
  }

  /** A blank line behind a continuation joins to nothing new. */
  lemma {:induction false} BlankCloses(lines: seq<string>, number: nat, buffer: string, start: nat)
    requires EndsContinued(lines)
    ensures JoinFrom(lines + [""], number, buffer, start) == JoinFrom(lines, number, buffer, start)
  {
    var first := if buffer == "" then number else start;
    assert (lines + [""])[1..] == lines[1..] + [""];
    if |lines| == 1 {
      var joined := buffer + Unslash(lines[0]);
      assert lines[1..] == [] && [] + [""] == [""] && [""][1..] == [] && joined + "" == joined;
      assert JoinFrom([""], number + 1, joined, first) == [Logical(first, joined + "")] + [];
    } else if Continued(lines[0]) {
      BlankCloses(lines[1..], number + 1, buffer + Unslash(lines[0]), first);
    } else {
      BlankCloses(lines[1..], number + 1, "", first);
    }
  }

  lemma BlankKeepsNames(lines: seq<string>, of: string -> seq<string>)
    ensures NamesOn(Texts(Joined(lines)), of) <= NamesOn(Texts(Joined(lines + [""])), of)
  {
    if EndsContinued(lines) {
      BlankCloses(lines, 1, "", 0);
    } else {
      NamesGrow(lines, [""], of);
    }
  }

  lemma {:induction false} ProjectionEnds(lines: seq<Marked>, n: Nesting)
    requires lines != [] && !Continued(lines[|lines| - 1].line)
    ensures !EndsContinued(Project(lines, n))
  {
    if |lines| > 1 {
      ProjectionEnds(lines[1..], Enter(n, lines[0].kind));
    }
  }

  lemma ProjectedIsClosed(lines: seq<string>)
    requires !EndsContinued(lines)
    ensures !EndsContinued(Projected(lines))
  {
    if lines != [] {
      MarkAt(lines, KindOf, |lines| - 1);
      ProjectionEnds(Mark(lines, KindOf), TOP);
    }
  }

  /** The verdict with the dropped blank line back in its place. */
  lemma WithBlank(lines: seq<string>)
    requires Admitted(lines) && forall leaf <- REQUIRED_LEAVES :: leaf in ImplementedIn(Projected(lines))
    ensures Judge(lines, Projected(lines)).Accepted?
  {
    hide Judge, Projected, NamesOn, Joined, Texts, ImplementedIn;
    var kept, projected := DropLastBlank(Projected(lines)), Projected(lines);
    AcceptedIff(lines, kept);
    AcceptedIff(lines, projected);
    if projected != kept {
      assert projected == kept + [""];
      BlankKeepsNames(kept, TargetsOf);
      BlankKeepsNames(kept, PhonyOf);
    }
  }

  lemma MoreIsAdmitted(lines: seq<string>, more: seq<string>)
    requires Admitted(lines) && !EndsContinued(lines) && DeclaredIn(more) !! FACADE_TARGETS
    requires forall leaf <- REQUIRED_LEAVES :: leaf in ImplementedIn(Projected(lines))
    ensures Admitted(lines + more)
  {
    hide Judge, ImplementedIn, DeclaredIn;
    if more == [] {
      assert lines + more == lines;
    } else {
      var extra := KeptAppend(lines, more, KindOf);
      WithBlank(lines);
      ProjectedIsClosed(lines);
      JudgeGrows(lines, more, Projected(lines), extra);
    }
  }

  lemma BlankLineProjects(lines: seq<string>)
    ensures DropLastBlank(Projected(lines + [""])) == Projected(lines) && DeclaredIn([""]) == {}
  {
    MarkAppend(lines, [""], KindOf);
    ProjectAppend(Mark(lines, KindOf), Mark([""], KindOf), TOP);
    assert Projected(lines + [""]) == Projected(lines) + [""];
    assert [""][1..] == [] && "" + "" == "";
    assert JoinFrom([""], 1, "", 0) == [Logical(1, "")] + JoinFrom([], 2, "", 1);
    assert [Logical(1, "")][1..] == [];
    assert ParseRule("").None?;
  }

  // ---- a last line that ends in a backslash ----

  /** The leaves credited on the logical lines in front of the last one. */
  function EarlierLeaves(lines: seq<string>, s: Scope): set<string>
    requires lines != []
    decreases |lines|
  {
    var (logical, used) := Extend(lines[0], lines[1..]);
    var rest, line := lines[1 + used..], LineOf(logical, s.prefix);
    if rest == [] then {} else Credited(line, s, rest) + EarlierLeaves(rest, Advance(line, s))
  }

  function LastLogical(lines: seq<string>): string
    requires lines != []
  {
    Visited(lines)[|Visited(lines)| - 1]
  }

  /** What the scan carries when it comes to the last logical line. */
  function LastScope(lines: seq<string>): Scope
    requires lines != []
  {
    ScopeAfter(Visited(lines)[..|Visited(lines)| - 1], START)
  }

  lemma {:induction false} LeavesSplit(lines: seq<string>, s: Scope)
    requires lines != []
    ensures
      var scope := ScopeAfter(Visited(lines)[..|Visited(lines)| - 1], s);
      Leaves(lines, s) == EarlierLeaves(lines, s) + Credited(LineOf(LastLogical(lines), scope.prefix), scope, [])
    decreases |lines|
  {
    hide LineOf, Credited, Advance, Extend;
    var (logical, used) := Extend(lines[0], lines[1..]);
    var rest, line := lines[1 + used..], LineOf(logical, s.prefix);
    LeavesCons(lines, s, logical, used);
    if rest != [] {
      LeavesSplit(rest, Advance(line, s));
      var n := |Visited(rest)|;
      assert Visited(lines)[..n][1..] == Visited(rest)[..n - 1] && Visited(lines)[..n][0] == logical;
    } else {
      assert Visited(lines)[..0] == [];
    }
  }

  /** A blank line behind a continuation only takes the backslash off. */
  lemma {:induction false} ExtendBlank(logical: string, a: seq<string>)
    requires EndsContinued([logical] + a)
    ensures
      var (text, used) := Extend(logical, a);
      && (used == |a| ==> Continued(text))
      && Extend(logical, a + [""]) == if used == |a| then (Unslash(text), used + 1) else (text, used)
    decreases |a|
  {
    var all := a + [""];
    if a == [] {
      assert all == [""] && all[1..] == [] && Unslash(logical) + "" == Unslash(logical);
      assert Extend(Unslash(logical), []) == (Unslash(logical), 0);
    } else if Continued(logical) {
      assert all[1..] == a[1..] + [""] && all[0] == a[0];
      assert EndsContinued([Unslash(logical) + a[0]] + a[1..]);
      ExtendBlank(Unslash(logical) + a[0], a[1..]);
    }
  }

  lemma {:induction false} ScanIgnoresBlank(a: seq<string>, prefix: char)
    ensures ScanRecipe(a + [""], prefix) <==> ScanRecipe(a, prefix)
  {
    var all := a + [""];
    if a == [] {
      assert all == [""] && all[1..] == [];
    } else {
      assert all[1..] == a[1..] + [""] && all[0] == a[0];
      ScanIgnoresBlank(a[1..], prefix);
    }
  }

  lemma CreditIgnoresBlank(line: Line, s: Scope, a: seq<string>)
    ensures Credited(line, s, a + [""]) == Credited(line, s, a)
  {
    ScanIgnoresBlank(a, s.prefix);
  }

  lemma EarlierCons(lines: seq<string>, s: Scope, logical: string, used: nat)
    requires lines != [] && Extend(lines[0], lines[1..]) == (logical, used)
    ensures
      var rest, line := lines[1 + used..], LineOf(logical, s.prefix);
      && Visited(lines) == [logical] + Visited(rest)
      && EarlierLeaves(lines, s)
         == if rest == [] then {} else Credited(line, s, rest) + EarlierLeaves(rest, Advance(line, s))
  {
    hide LineOf, Credited, Advance, Extend;
  }

  /** With a blank line behind it the last logical line loses its backslash, and nothing else changes. */
  lemma {:induction false} BlankUnslashes(lines: seq<string>, s: Scope)
    requires EndsContinued(lines)
    ensures Visited(lines) != [] && Continued(LastLogical(lines))
    ensures
      var n := |Visited(lines)| - 1;
      && Visited(lines + [""]) == Visited(lines)[..n] + [Unslash(LastLogical(lines))]
      && EarlierLeaves(lines + [""], s) == EarlierLeaves(lines, s)
    decreases |lines|
  {
    hide LineOf, Credited, Advance, Extend, EarlierLeaves, Visited, Unslash;
    var all := lines + [""];
    var (logical, used) := Extend(lines[0], lines[1..]);
    var rest, line := lines[1 + used..], LineOf(logical, s.prefix);
    assert [lines[0]] + lines[1..] == lines && all[1..] == lines[1..] + [""];
    ExtendBlank(lines[0], lines[1..]);
    EarlierCons(lines, s, logical, used);
    if rest == [] {
      NothingVisited();
      assert all[2 + used..] == [] && Visited(lines) == [logical];
      EarlierCons(all, s, Unslash(logical), used + 1);
    } else {
      assert all[1 + used..] == rest + [""] && EndsContinued(rest);
      EarlierCons(all, s, logical, used);
      CreditIgnoresBlank(line, s, rest);
      BlankUnslashes(rest, Advance(line, s));
      var n := |Visited(lines)| - 1;
      assert Visited(lines)[..n] == [logical] + Visited(rest)[..n - 1];
    }
  }

  lemma NothingVisited()
    ensures Visited([]) == []
  {
  }

  /** A rule that names the leaf with proven prerequisites or an inline recipe. */
  predicate Implements(line: Line, vars: Variables, leaf: string) {
    && line.Target? && leaf in LeavesOf(line.rule.names)
    && (CreditsPrerequisites(line.rule, vars) || NonBlank(InlineRecipe(line.rule)))
  }

  /** The text ends in a backslash, and for some required leaf no earlier line is credited, and the last line only
      for that backslash: without it, it is no rule that names the leaf with proven prerequisites or an inline
      recipe. */
  predicate HangsOnBackslash(lines: seq<string>) {
    EndsContinued(lines) &&
    (var last := LastLogical(lines);
     Continued(last) &&
     exists leaf <- REQUIRED_LEAVES ::
       && leaf !in EarlierLeaves(lines, START)
       && !Implements(LineOf(Unslash(last), LastScope(lines).prefix), LastScope(lines).vars, leaf))
  }

  lemma CreditAlone(line: Line, s: Scope, leaf: string)
    requires leaf in REQUIRED_LEAVES
    ensures leaf in Credited(line, s, []) <==> Implements(line, s.vars, leaf)
  {
  }

  /** What the leaves of the text with a blank line behind it are. */
  lemma BlankLeaves(lines: seq<string>, leaf: string)
    requires EndsContinued(lines) && leaf in REQUIRED_LEAVES
    ensures Continued(LastLogical(lines))
    ensures leaf in ImplementedIn(lines + [""]) <==>
      || leaf in EarlierLeaves(lines, START)
      || Implements(LineOf(Unslash(LastLogical(lines)), LastScope(lines).prefix), LastScope(lines).vars, leaf)
  {
    hide LineOf, Credited, Advance, Extend, Implements, Leaves, EarlierLeaves, Visited;
    var all := lines + [""];
    VisitedIsAfterNothing(lines);
    BlankUnslashes(lines, START);
    LeavesSplit(all, START);
    var n := |Visited(lines)| - 1;
    assert Visited(all)[..n] == Visited(lines)[..n];
    var scope := LastScope(lines);
    CreditAlone(LineOf(Unslash(LastLogical(lines)), scope.prefix), scope, leaf);
  }

  lemma BlankKeepsLeavesIff(lines: seq<string>)
    requires Admitted(lines) && !EndsContinued(lines)
    ensures (forall leaf <- REQUIRED_LEAVES :: leaf in ImplementedIn(Projected(lines)))
       <==> !HangsOnBackslash(DropLastBlank(Projected(lines)))
  {
    hide Projected, Judge, LineOf, Leaves, EarlierLeaves, LastLogical, LastScope, Implements;
    var kept := DropLastBlank(Projected(lines));
    AcceptedIff(lines, kept);
    ProjectedIsClosed(lines);
    if EndsContinued(kept) {
      assert Projected(lines) == kept + [""];
      forall leaf | leaf in REQUIRED_LEAVES
        ensures leaf in ImplementedIn(Projected(lines)) <==>
          || leaf in EarlierLeaves(kept, START)
          || (Continued(LastLogical(kept)) &&
              Implements(LineOf(Unslash(LastLogical(kept)), LastScope(kept).prefix), LastScope(kept).vars, leaf))
      {
        BlankLeaves(kept, leaf);
      }
      BlankLeaves(kept, REQUIRED_LEAVES[0]);
    } else if Projected(lines) != kept {
      assert Projected(lines) == kept + [""];
      LeavesGrow(kept, [""], START);
    }
  }

  /**
   Admission is not monotone for every accepted file that ends in no backslash: the projection drops a last
   blank line, and with it uncovers a backslash in front. The file stays accepted whatever follows that declares
   no target of the facade, exactly when its projected text does not hang on such a backslash.
   */
  lemma AdmissionIsMonotoneIff(lines: seq<string>)
    requires Admitted(lines) && !EndsContinued(lines)
    ensures (forall more :: DeclaredIn(more) !! FACADE_TARGETS ==> Admitted(lines + more)) <==>
      !HangsOnBackslash(DropLastBlank(Projected(lines)))
  {
    hide HangsOnBackslash, DeclaredIn, PhonyIn, ImplementedIn, Projected, Judge, EndsContinued;
    BlankKeepsLeavesIff(lines);
    if forall leaf <- REQUIRED_LEAVES :: leaf in ImplementedIn(Projected(lines)) {
      forall more | DeclaredIn(more) !! FACADE_TARGETS
        ensures Admitted(lines + more)
      {
        MoreIsAdmitted(lines, more);
      }
    }
    BlankLineProjects(lines);
    if Admitted(lines + [""]) {
      AcceptedIff(lines + [""], Projected(lines));
    }
  }

  /** In particular a file stays accepted if its projection does not end in a backslash either. */
  lemma AdmissionIsMonotone(text: string, longer: string, more: seq<string>)
    requires Splitlines(longer) == Splitlines(text) + more
    requires Validate(text).Accepted? && DeclaredIn(more) !! FACADE_TARGETS
    requires !EndsContinued(Splitlines(text)) && !EndsContinued(Splitlines(Unconditional(text)))
    ensures Validate(longer).Accepted?
  {
    hide Judge, Validate, DeclaredIn, PhonyIn, Splitlines, Unconditional, Project, Mark, Leaves;
    var lines := Splitlines(text);
    var kept := DropLastBlank(Projected(lines));
    AdmittedIsAccepted(text);
    AdmittedIsAccepted(longer);
    SplitUnconditional(text);
    AcceptedIff(lines, kept);
    if Projected(lines) != kept {
      assert Projected(lines) == kept + [""];
      LeavesGrow(kept, [""], START);
    }
    MoreIsAdmitted(lines, more);
  }
}
