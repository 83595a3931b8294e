/**
 Where the analysis stops being exact or sound: the inputs behind each hypothesis of the
 soundness theorem, and the length of reference chain at which the depth cap shows.
 */
module MakeLimits {
  import opened Strings
  import opened MakeWords
  import opened MakeVariables
  import opened MakeGrammar
  import opened MakeExpansion
  import opened MakeSoundness

  // ---- one reference ----

  function Ref(name: string): string { "$(" + name + ")" }

  lemma RefText(name: string)
    requires IsName(name)
    ensures WellFormed(Literals(name), true) && Print(Literals(name)) == name
    ensures Print(Group(false, Literals(name), End)) == Ref(name)
  {
    assert forall i :: 0 <= i < |name| ==> IsNameChar(name[i]);
    LiteralsText(name, true);
    assert Print(End) == "";
  }

  /** A plain reference is one word, and proves what its variable proves. */
  lemma ProvenRef(name: string, vars: Variables, resolving: set<string>)
    requires IsName(name)
    ensures Proven(Ref(name), vars, resolving) ==
      if !Resolvable(Some(name), vars, resolving) then []
      else match vars[name]
        case Evaluated(tokens) => tokens
        case Deferred(raw) => Proven(raw, vars, resolving + {name})
  {
    RefText(name);
    var t := Group(false, Literals(name), End);
    SplitGroup(false, Literals(name), End, "");
    assert "" + Ref(name) == Ref(name) && Print(End) == "";
    LiteralTest(t);
    var w := Ref(name);
    assert w[2..|w| - 1] == name && w[1] == '(' && w[|w| - 1] == ')';
    assert SplitWords(w) == [w];
    assert ProvenWords([w], vars, resolving) == ProvenWord(w, vars, resolving) + [];
  }

  lemma ExpandRef(name: string, store: Store, world: World, busy: set<string>)
    requires IsName(name)
    ensures Expand(Ref(name), store, world, busy) == Lookup(name, store, world, busy)
  {
    RefText(name);
    ExpandGroup(false, Literals(name), End, store, world, busy);
    var value := Lookup(name, store, world, busy);
    if value.Some? {
      assert value.value + "" == value.value;
    }
  }

  // ---- words appended after the fact ----

  const NOWHERE := World((_, _) => Some(""), _ => "", (_, _) => None)

  /** `A op` (empty), `B := y`, `A += $(B)`, `B :=` */
  function LateAppendVars(op: Operator): Variables {
    Recorded(Recorded(Recorded(Recorded(map[], "A", op, ""), "B", Simple, "y"), "A", Append, Ref("B")), "B", Simple, "")
  }

  function LateAppendStore(op: Operator): Option<Store> {
    var s1 := Assign(map[], "A", op, "", NOWHERE);
    var s2 := if s1.None? then None else Assign(s1.value, "B", Simple, "y", NOWHERE);
    var s3 := if s2.None? then None else Assign(s2.value, "A", Append, Ref("B"), NOWHERE);
    if s3.None? then None else Assign(s3.value, "B", Simple, "", NOWHERE)
  }

  lemma LiteralLetter()
    ensures Proven("", map[], {}) == [] && forall v :: Proven("y", v, {}) == ["y"]
    ensures forall v :: Proven("", v, {}) == []
  {
    assert SplitWords("") == [];
    forall v ensures Proven("y", v, {}) == ["y"] {
      CharProven("y", v, {});
    }
  }

  lemma AppendLetter(vars: Variables)
    requires "A" in vars && "B" in vars && vars["B"] == Evaluated(["y"])
    ensures Recorded(vars, "A", Append, Ref("B")) == vars["A" := match vars["A"]
      case Deferred(raw) => Deferred(raw + " " + Ref("B"))
      case Evaluated(tokens) => Evaluated(tokens + ["y"])]
  {
    assert IsName("B");
    hide Proven, IsName, Ref;
    ProvenRef("B", vars, {});
  }

  /** The table behind the four lines. */
  lemma LateAppendTable(op: Operator)
    requires op != Append
    ensures LateAppendVars(op)
         == map["A" := if op == Recursive then Deferred(" " + Ref("B")) else Evaluated(["y"]), "B" := Evaluated([])]
  {
    LiteralLetter();
    hide Proven, Ref;
    var v1 := Recorded(map[], "A", op, "");
    assert v1 == map["A" := if op == Recursive then Deferred("") else Evaluated([])];
    var v2 := Recorded(v1, "B", Simple, "y");
    assert v2 == v1["B" := Evaluated(["y"])];
    AppendLetter(v2);
    assert [] + ["y"] == ["y"] && "" + " " + Ref("B") == " " + Ref("B");
  }

  lemma LateAppendAnalysed(op: Operator)
    requires op != Append
    ensures Proven(Ref("A"), LateAppendVars(op), {}) == if op == Recursive then [] else ["y"]
  {
    LateAppendTable(op);
    assert IsName("A") && IsName("B");
    ProvenRef("A", LateAppendVars(op), {});
    if op == Recursive {
      SpaceRef("B", LateAppendVars(op), {"A"});
      ProvenRef("B", LateAppendVars(op), {"A"});
    }
  }

  lemma SpaceRef(name: string, vars: Variables, resolving: set<string>)
    requires IsName(name)
    ensures Proven(" " + Ref(name), vars, resolving) == Proven(Ref(name), vars, resolving)
  {
    assert (" " + Ref(name))[1..] == Ref(name);
    assert [] + SplitWords(Ref(name)) == SplitWords(Ref(name));
  }

  lemma LateAppendExpanded(op: Operator)
    requires op != Append
    ensures LateAppendStore(op).Some?
    ensures Expand(Ref("A"), LateAppendStore(op).value, NOWHERE, {}) == Some(if op == Simple then " y" else " ")
  {
    assert IsName("A") && IsName("B");
    var s1 := Assign(map[], "A", op, "", NOWHERE).value;
    assert s1 == map["A" := if op == Simple then Fixed("") else Lazy("")];
    ExpandLetter(s1);
    var s2 := s1["B" := Fixed("y")];
    assert Assign(s1, "B", Simple, "y", NOWHERE) == Some(s2);
    ExpandRef("B", s2, NOWHERE, {});
    var s3 := s2["A" := if op == Simple then Fixed(" y") else Lazy(" " + Ref("B"))];
    assert "" + " " + "y" == " y" && "" + " " + Ref("B") == " " + Ref("B");
    assert Assign(s2, "A", Append, Ref("B"), NOWHERE) == Some(s3);
    var s4 := s3["B" := Fixed("")];
    assert LateAppendStore(op) == Some(s4);
    ExpandRef("A", s4, NOWHERE, {});
    assert {} + {"A"} == {"A"};
    if op != Simple {
      ExpandChar(" ", Ref("B"), s4, NOWHERE, {"A"});
      ExpandRef("B", s4, NOWHERE, {"A"});
      assert " "[..1] == " " && " " + "" == " ";
    }
  }

  lemma ExpandLetter(store: Store)
    ensures Expand("y", store, NOWHERE, {}) == Some("y") && Expand("", store, NOWHERE, {}) == Some("")
  {
    assert "y"[1..] == "" && "y"[..1] == "y" && "y" + "" == "y";
  }

  /** The fourth line empties what the third appended. The analyser still credits `$(A)` although Make
      expands it to a blank exactly when `A` was made by `:::=`, `?=` or `!=`: it has kept words that
      Make keeps as a reference. */
  lemma LateAppendIsUnsound(op: Operator)
    requires op != Append
    ensures LateAppendStore(op).Some?
    ensures
      Proven(Ref("A"), LateAppendVars(op), {}) != []
      && !Fine(Expand(Ref("A"), LateAppendStore(op).value, NOWHERE, {}), false)
      <==> op == Posix || op == Default || op == Shell
  {
    LateAppendAnalysed(op);
    LateAppendExpanded(op);
    assert Solid(" y"[1], false);
  }

  lemma LetterIsName()
    ensures IsName("V")
  {
  }

  lemma NoTextExpands(store: Store, busy: set<string>)
    ensures Expand("", store, NOWHERE, busy) == Some("")
  {
  }

  /** `V := |` makes `$(V)` a credited prerequisite that names no target, and `V := ;` one that only begins a
      recipe without text. */
  lemma MarkIsCredited(mark: string)
    requires mark == "|" || mark == ";"
    ensures Proven(Ref("V"), Recorded(map[], "V", Simple, mark), {}) == [mark]
    ensures Assign(map[], "V", Simple, mark, NOWHERE).Some?
    ensures Expand(Ref("V"), Assign(map[], "V", Simple, mark, NOWHERE).value, NOWHERE, {}) == Some(mark)
    ensures Fine(Some(mark), false) && !Fine(Some(mark), true)
  {
    hide Proven, Expand, IsName, Ref;
    assert IsName("V") by {
      LetterIsName();
    }
    CharProven(mark, map[], {});
    ProvenRef("V", Recorded(map[], "V", Simple, mark), {});
    ExpandChar(mark, "", map[], NOWHERE, {});
    assert mark[..1] == mark && mark + "" == mark;
    NoTextExpands(map[], {});
    ExpandRef("V", map["V" := Fixed(mark)], NOWHERE, {});
    assert Solid(mark[0], false);
  }

  /** The value of an environment variable that leaves a reference open. */
  const OPEN := "$(y"

  lemma OpenExpanded(store: Store)
    ensures Expand(OPEN + " " + ")", store, NOWHERE, {"X"}) == Some("")
  {
    hide Expand, FindClose;
    var body := Literals("y ");
    LiteralsText("y ", true);
    ExpandGroup(false, body, End, store, NOWHERE, {"X"});
    OpenIsGroup();
    assert !IsVariableName("y ") by {
      assert "y "[1] == ' ';
    }
    assert Expand("", store, NOWHERE, {"X"}) == Some("") by {
      NoTextExpands(store, {"X"});
    }
    assert Print(End) == "" && "" + "" == "";
    assert Lookup("y ", store, NOWHERE, {"X"}) == Some("");
  }

  lemma OpenIsGroup()
    ensures Print(Group(false, Literals("y "), End)) == OPEN + " " + ")"
  {
    LiteralsText("y ", true);
    assert Print(End) == "";
    assert ['$', Opener(false)] + "y " + [Closer(false)] + "" == OPEN + " " + ")";
  }

  /** `X += )` makes `$(X)` a credited prerequisite. With `$(y` in the environment as `X` the bracket closes that
      reference, and Make expands the whole to nothing. */
  lemma BracketBehindEnvironmentIsCredited()
    ensures Proven(Ref("X"), Recorded(map[], "X", Append, ")"), {}) == [")"]
    ensures
      var store := Assign(map["X" := Lazy(OPEN)], "X", Append, ")", NOWHERE);
      store.Some? && Expand(Ref("X"), store.value, NOWHERE, {}) == Some("")
  {
    assert IsName("X");
    ProvenRef("X", map["X" := Deferred(")")], {});
    CloserProven({"X"});
    var store := map["X" := Lazy(OPEN + " " + ")")];
    assert map["X" := Lazy(OPEN)]["X" := Lazy(OPEN + " " + ")")] == store;
    assert Assign(map["X" := Lazy(OPEN)], "X", Append, ")", NOWHERE) == Some(store);
    ExpandRef("X", store, NOWHERE, {});
    assert {} + {"X"} == {"X"};
    OpenExpanded(store);
  }

  lemma CloserProven(resolving: set<string>)
    ensures Proven(")", map["X" := Deferred(")")], resolving) == [")"]
  {
    var s := ")";
    assert s[1..] == "" && "" + [s[0]] == s;
    assert SplitFrom("", 0, s) == [s];
    assert SplitWords(s) == [s];
    assert HasLiteral(s);
    assert ProvenWords([s], map["X" := Deferred(")")], resolving)
        == ProvenWord(s, map["X" := Deferred(")")], resolving) + ProvenWords([], map["X" := Deferred(")")], resolving);
  }

  const BARE := "$((a)b)"

  lemma BareBracketAnalysed()
    ensures SplitWords(BARE) == [BARE] && HasLiteral(BARE)
  {
    var s := BARE;
    var s2, s3, s4, s5, s6 := "(a)b)", "a)b)", ")b)", "b)", ")";
    assert s[2..] == s2 && s2[1..] == s3 && s3[1..] == s4 && s4[1..] == s5 && s5[1..] == s6 && s6[1..] == "";
    assert Run(s6, 0).Some?;
    assert Run(s5, 0).Some?;
    assert Run(s4, 1).Some?;
    assert Run(s3, 1).Some?;
    assert Run(s2, 1).Some?;
    SplitRun(s, "", 0, "");
    assert s + "" == s && "" + s == s;
    assert HasLiteralFrom(s4, 1);
    assert HasLiteralFrom(s3, 1);
    assert HasLiteralFrom(s2, 1);
  }

  lemma BareBracketExpanded()
    ensures Expand(BARE, map[], NOWHERE, {}) == Some("")
  {
    var s := BARE;
    var s2, s3, s4, s5, s6 := "(a)b)", "a)b)", ")b)", "b)", ")";
    assert s[2..] == s2 && s2[1..] == s3 && s3[1..] == s4 && s4[1..] == s5 && s5[1..] == s6;
    assert FindClose(s6, '(', ')', 1) == 0;
    assert FindClose(s5, '(', ')', 1) == 1;
    assert FindClose(s4, '(', ')', 2) == 2;
    assert FindClose(s3, '(', ')', 2) == 3;
    assert FindClose(s2, '(', ')', 1) == 4;
    var body := s[2..6];
    assert body[0] == '(' && |body| == 4 && s[7..] == "";
    assert !IsVariableName(body) && Lookup(body, map[], NOWHERE, {}) == Some("");
    assert "" + "" == "";
  }

  /** `$((a)b)` is one reference to Make. The analyser closes it at the first bracket and credits
      the rest as literal text, although the whole may expand to nothing. */
  lemma BareBracketIsCredited()
    ensures Proven(BARE, map[], {}) != [] && Expand(BARE, map[], NOWHERE, {}) == Some("")
  {
    BareBracketAnalysed();
    BareBracketExpanded();
    assert ProvenWords([BARE], map[], {}) == [BARE] + ProvenWords([], map[], {});
  }

  // ---- the depth cap ----

  function ChainName(i: nat): (name: string)
    ensures |name| == i + 1 && IsName(name)
  {
    if i == 0 then "v" else ChainName(i - 1) + "v"
  }

  function ChainNames(n: nat): (names: set<string>)
    ensures |names| == n && forall s <- names :: |s| <= n
  {
    if n == 0 then {} else ChainNames(n - 1) + {ChainName(n - 1)}
  }

  /** `v = $(vv)`, `vv = $(vvv)`, and so on; the last of the `n` variables is literal text. */
  function ChainFrom(i: nat, n: nat): Variables
    requires i <= n
    decreases n - i
  {
    if i == n then map[]
    else ChainFrom(i + 1, n)[ChainName(i) := Deferred(if i == n - 1 then "y" else Ref(ChainName(i + 1)))]
  }

  lemma {:induction false} ChainLookup(i: nat, k: nat, n: nat)
    requires i <= k < n
    ensures ChainName(k) in ChainFrom(i, n)
    ensures ChainFrom(i, n)[ChainName(k)] == Deferred(if k == n - 1 then "y" else Ref(ChainName(k + 1)))
    decreases n - i
  {
    if i < k {
      ChainLookup(i + 1, k, n);
      assert |ChainName(i)| != |ChainName(k)|;
    }
  }

  lemma ChainGrows(k: nat)
    ensures ChainName(k) !in ChainNames(k) && ChainNames(k + 1) == ChainNames(k) + {ChainName(k)}
  {
  }

  lemma {:induction false} ChainProven(k: nat, n: nat)
    requires k < n
    ensures Proven(Ref(ChainName(k)), ChainFrom(0, n), ChainNames(k))
         == if n <= MAX_REFERENCE_DEPTH then ["y"] else []
    decreases n - k
  {
    hide Proven, ChainFrom, IsName, Ref, ChainName, ChainNames;
    var vars := ChainFrom(0, n);
    ChainLookup(0, k, n);
    ProvenRef(ChainName(k), vars, ChainNames(k));
    if k < MAX_REFERENCE_DEPTH {
      ChainGrows(k);
      if k == n - 1 {
        LetterProven(vars, ChainNames(k + 1));
      } else {
        ChainProven(k + 1, n);
      }
    }
  }

  lemma CharProven(s: string, vars: Variables, resolving: set<string>)
    requires |s| == 1 && !IsSpace(s[0]) && s[0] != '$' && !IsBracket(s[0])
    ensures Proven(s, vars, resolving) == [s]
  {
    assert s[1..] == "" && "" + [s[0]] == s;
    assert SplitFrom("", 0, s) == [s];
    assert SplitWords(s) == [s];
    assert HasLiteral(s);
    assert ProvenWords([s], vars, resolving) == ProvenWord(s, vars, resolving) + ProvenWords([], vars, resolving);
  }

  lemma LetterProven(vars: Variables, resolving: set<string>)
    ensures Proven("y", vars, resolving) == ["y"]
  {
    CharProven("y", vars, resolving);
  }

  /** A chain of references is followed to its end exactly when it has at most sixteen variables. */
  lemma CapIsExact(n: nat)
    requires n > 0
    ensures Proven(Ref(ChainName(0)), ChainFrom(0, n), {}) == if n <= MAX_REFERENCE_DEPTH then ["y"] else []
  {
    ChainProven(0, n);
  }
}
