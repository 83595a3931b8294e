/**
 Soundness of the Make analysis. The analyser's variables and Make's are carried side by
 side over the logical lines of a file; a prerequisite the analyser credits is there when
 Make expands it, whatever the environment holds.
 */
module MakeReading {
  import opened Strings
  import opened MakeVariables
  import opened MakeGrammar
  import opened MakeExpansion
  import opened MakeSoundness
  import opened MakeSyntax
  import opened MakeFile
  import opened MakeAgreement

  // ---- the abstraction relation ----

  /** Text that no value in front of it can disturb. */
  predicate Enclosed(t: Text) { WellFormed(t, true) }

  /** No order-only separator, and no `;`. */
  predicate Markless(s: string) { '|' !in s && ';' !in s }

  /** `s` is `t`; or, unless the whole is the file's own, `t` appended to a value the file did not write. */
  ghost predicate EndsWith(s: string, t: Text, own: bool) {
    s == Print(t) || (!own && Enclosed(t) && exists e: string :: s == e + (" " + Print(t)))
  }

  ghost predicate Tracks(known: Known, value: Value, own: bool, strict: bool) {
    && (own && value.Lazy? ==> Bracketed(value.raw))
    && match known
       case Deferred(raw) =>
         && value.Lazy? && (strict ==> Markless(raw))
         && exists t :: WellFormed(t, false) && Print(t) == raw && EndsWith(value.raw, t, own)
       case Evaluated(tokens) =>
         tokens != [] ==>
           match value
           case Fixed(text) => HasSolid(text, strict)
           case Lazy(raw) => exists t :: WellFormed(t, false) && HasSolidLiteral(t, strict) && EndsWith(raw, t, own)
  }

  /** `late` names the variables the analyser keeps as evaluated words although Make may keep them recursive,
      `owned` those whose value, if any, the file alone has written. */
  ghost predicate Models(vars: Variables, store: Store, late: set<string>, owned: set<string>, strict: bool) {
    && (forall n :: n in vars ==> n in store && Tracks(vars[n], store[n], n in owned, strict))
    && (forall n :: n in store && n !in vars ==> store[n].Lazy? && n !in owned)
    && (forall n :: n in vars && n in store && vars[n].Evaluated? && store[n].Lazy? ==> n in late)
  }

  // ---- expansion of what is proven ----

  lemma FineAtEnd(s: string, t: Text, own: bool, store: Store, world: World, busy: set<string>, strict: bool)
    requires EndsWith(s, t, own) && Fine(Expand(Print(t), store, world, busy), strict)
    ensures Fine(Expand(s, store, world, busy), strict)
  {
    if s != Print(t) {
      var e: string :| s == e + (" " + Print(t));
      FineBehind(e, t, " " + Print(t), store, world, busy, strict);
    }
  }

  lemma {:induction false} BarlessItem(t: Text, vars: Variables, resolving: set<string>, strict: bool)
    requires HasProvenItem(t, vars, resolving, false) && (strict ==> Markless(Print(t)))
    ensures HasProvenItem(t, vars, resolving, strict)
  {
    match t
    case Lit(c, rest) =>
      assert c in Print(t) && forall d :: d in Print(rest) ==> d in Print(t);
      if !Solid(c, strict) {
        BarlessItem(rest, vars, resolving, strict);
      }
    case Dollar(rest) =>
    case Single(c, rest) =>
      assert forall d :: d in Print(rest) ==> d in Print(t);
      if HasProvenItem(rest, vars, resolving, false) {
        BarlessItem(rest, vars, resolving, strict);
      }
    case Group(b, body, rest) =>
      assert forall d :: d in Print(rest) ==> d in Print(t);
      if HasProvenItem(rest, vars, resolving, false) {
        BarlessItem(rest, vars, resolving, strict);
      }
  }

  /** A proven item leaves text behind, however deep the references it goes through. */
  lemma {:induction false} ProvenItemIsFine(t: Text, vars: Variables, resolving: set<string>, store: Store,
      late: set<string>, owned: set<string>, world: World, busy: set<string>, strict: bool)
    requires WellFormed(t, false) && HasProvenItem(t, vars, resolving, strict)
    requires Models(vars, store, late, owned, strict)
    ensures Fine(Expand(Print(t), store, world, busy), strict)
    decreases Budget(resolving), 1, t
  {
    match t
    case Lit(c, rest) =>
      ExpandChar([c], Print(rest), store, world, busy);
      if Solid(c, strict) {
        assert Solid([c][0], strict);
      } else {
        ProvenItemIsFine(rest, vars, resolving, store, late, owned, world, busy, strict);
      }
      FineGlue(Some([c]), Expand(Print(rest), store, world, busy), strict);
    case Dollar(rest) =>
      ExpandChar("$$", Print(rest), store, world, busy);
      assert Solid("$"[0], strict);
      FineGlue(Some("$"), Expand(Print(rest), store, world, busy), strict);
    case Single(c, rest) =>
      ExpandSingle(c, rest, store, world, busy);
      if IsVariableName([c]) && ProvesName([c], vars, resolving) {
        ProvenNameIsFine([c], vars, resolving, store, late, owned, world, busy, strict);
      } else {
        ProvenItemIsFine(rest, vars, resolving, store, late, owned, world, busy, strict);
      }
      FineGlue(Lookup([c], store, world, busy), Expand(Print(rest), store, world, busy), strict);
    case Group(b, body, rest) =>
      ExpandGroup(b, body, rest, store, world, busy);
      if IsVariableName(Print(body)) && ProvesName(Print(body), vars, resolving) {
        ProvenNameIsFine(Print(body), vars, resolving, store, late, owned, world, busy, strict);
      } else {
        ProvenItemIsFine(rest, vars, resolving, store, late, owned, world, busy, strict);
      }
      FineGlue(Lookup(Print(body), store, world, busy), Expand(Print(rest), store, world, busy), strict);
  }

  lemma {:induction false} ProvenNameIsFine(name: string, vars: Variables, resolving: set<string>, store: Store,
      late: set<string>, owned: set<string>, world: World, busy: set<string>, strict: bool)
    requires IsVariableName(name) && ProvesName(name, vars, resolving) && Models(vars, store, late, owned, strict)
    ensures Fine(Lookup(name, store, world, busy), strict)
    decreases Budget(resolving), 0
  {
    assert Tracks(vars[name], store[name], name in owned, strict);
    if store[name].Lazy? && name !in busy {
      var raw := store[name].raw;
      match vars[name]
      case Evaluated(_) =>
        var t :| WellFormed(t, false) && HasSolidLiteral(t, strict) && EndsWith(raw, t, name in owned);
        LiteralIsFine(t, store, world, busy + {name}, strict);
        FineAtEnd(raw, t, name in owned, store, world, busy + {name}, strict);
      case Deferred(text) =>
        var t :| WellFormed(t, false) && Print(t) == text && EndsWith(raw, t, name in owned);
        ProvenComesFromItem(t, End, vars, resolving + {name});
        BarlessItem(t, vars, resolving + {name}, strict);
        ProvenItemIsFine(t, vars, resolving + {name}, store, late, owned, world, busy + {name}, strict);
        FineAtEnd(raw, t, name in owned, store, world, busy + {name}, strict);
    }
  }

  /** What the analyser proves of a well-bracketed text is there when Make expands it. */
  lemma ProvenIsFine(t: Text, vars: Variables, store: Store, late: set<string>, owned: set<string>, world: World,
      strict: bool)
    requires WellFormed(t, false) && Proven(Print(t), vars, {}) != [] && Models(vars, store, late, owned, strict)
    requires strict ==> Markless(Print(t))
    ensures Fine(Expand(Print(t), store, world, {}), strict)
  {
    ProvenComesFromItem(t, End, vars, {});
    BarlessItem(t, vars, {}, strict);
    ProvenItemIsFine(t, vars, {}, store, late, owned, world, {}, strict);
  }

  // ---- one assignment on both sides ----

  lemma {:induction false} NoVariablesMeansLiteral(t: Text, strict: bool)
    requires HasProvenItem(t, map[], {}, strict)
    ensures HasSolidLiteral(t, strict)
  {
    match t
    case Lit(c, rest) => if !Solid(c, strict) { NoVariablesMeansLiteral(rest, strict); }
    case Dollar(_) =>
    case Single(c, rest) => NoVariablesMeansLiteral(rest, strict);
    case Group(b, body, rest) => NoVariablesMeansLiteral(rest, strict);
  }

  /** On text the analysis knows no variables for it is exact: something is proven exactly when visible text
      stands outside all references. */
  lemma LiteralsAreProvenExactly(t: Text)
    requires WellFormed(t, false)
    ensures Proven(Print(t), map[], {}) != [] <==> HasSolidLiteral(t, false)
  {
    if Proven(Print(t), map[], {}) != [] {
      ProvenComesFromItem(t, End, map[], {});
      NoVariablesMeansLiteral(t, false);
    } else if HasSolidLiteral(t, false) {
      LiteralIsProven(t, End, map[], {});
    }
  }

  lemma ProvenAloneIsLiteral(t: Text, strict: bool)
    requires WellFormed(t, false) && Proven(Print(t), map[], {}) != [] && (strict ==> Markless(Print(t)))
    ensures HasSolidLiteral(t, strict)
  {
    ProvenComesFromItem(t, End, map[], {});
    BarlessItem(t, map[], {}, strict);
    NoVariablesMeansLiteral(t, strict);
  }

  lemma {:induction false} LiteralThen(a: Text, b: Text, strict: bool)
    requires HasSolidLiteral(a, strict) || HasSolidLiteral(b, strict)
    ensures HasSolidLiteral(Then(a, b), strict)
  {
    match a
    case End =>
    case Lit(c, rest) => if !Solid(c, strict) { LiteralThen(rest, b, strict); }
    case Dollar(_) =>
    case Single(c, rest) => LiteralThen(rest, b, strict);
    case Group(_, _, rest) => LiteralThen(rest, b, strict);
  }

  lemma {:induction false} EnclosedIsWellFormed(t: Text)
    requires Enclosed(t)
    ensures WellFormed(t, false)
  {
    match t
    case End =>
    case Lit(c, rest) => EnclosedIsWellFormed(rest);
    case Dollar(rest) => EnclosedIsWellFormed(rest);
    case Single(c, rest) => EnclosedIsWellFormed(rest);
    case Group(_, _, rest) => EnclosedIsWellFormed(rest);
  }

  /** Appending `+= value` behind a text, for the text itself and for whatever ends with it. */
  lemma AppendText(t: Text, v: Text, strict: bool) returns (r: Text)
    requires WellFormed(t, false) && WellFormed(v, false)
    ensures WellFormed(r, false) && Print(r) == Print(t) + " " + Print(v)
    ensures Enclosed(t) && Enclosed(v) ==> Enclosed(r)
    ensures HasSolidLiteral(t, strict) || HasSolidLiteral(v, strict) ==> HasSolidLiteral(r, strict)
  {
    var tail := Lit(' ', v);
    r := Then(t, tail);
    WellFormedThen(t, tail, false);
    if Enclosed(t) && Enclosed(v) {
      WellFormedThen(t, tail, true);
    }
    PrintThen(t, tail);
    Assoc(Print(t), " ", Print(v));
    if HasSolidLiteral(t, strict) || HasSolidLiteral(v, strict) {
      LiteralThen(t, tail, strict);
    }
  }

  lemma EndsWithAppend(s: string, t: Text, v: Text, r: Text, own: bool)
    requires EndsWith(s, t, own) && Print(r) == Print(t) + " " + Print(v)
    requires !own && Enclosed(t) ==> Enclosed(r)
    ensures EndsWith(s + " " + Print(v), r, own)
  {
    hide Print;
    if s != Print(t) {
      var e: string :| s == e + (" " + Print(t));
      assert s + " " + Print(v) == e + (" " + Print(r));
    }
  }

  lemma EndsWithAny(e: string, v: Text)
    requires Enclosed(v)
    ensures EndsWith(e + " " + Print(v), v, false)
  {
    assert e + " " + Print(v) == e + (" " + Print(v));
  }

  /** The escaped text of `:::=`, as a text of its own. */
  function Escaped(s: string): Text {
    if s == "" then End else if s[0] == '$' then Dollar(Escaped(s[1..])) else Lit(s[0], Escaped(s[1..]))
  }

  lemma {:induction false} EscapedText(s: string, strict: bool)
    ensures WellFormed(Escaped(s), false) && Print(Escaped(s)) == Escape(s)
    ensures HasSolid(s, strict) ==> HasSolidLiteral(Escaped(s), strict)
  {
    if s != "" {
      EscapedText(s[1..], strict);
      if HasSolid(s, strict) && !Solid(s[0], strict) {
        var i :| 0 <= i < |s| && Solid(s[i], strict);
        assert Solid(s[1..][i - 1], strict);
      }
    }
  }

  function LateAfter(late: set<string>, vars: Variables, name: string, op: Operator): set<string> {
    match op
    case Recursive => late - {name}
    case Simple => late - {name}
    case Posix => late + {name}
    case Append => late
    case Default => if name in vars then late else late + {name}
    case Shell => late + {name}
  }

  function OwnedAfter(owned: set<string>, name: string, op: Operator): set<string> {
    match op
    case Append => owned
    case Default => owned
    case Shell => owned - {name}
    case _ => owned + {name}
  }

  /** What an assignment must meet for the analyser to follow Make: a well-bracketed value; on `+=` onto what may
      end a value from outside, also no bracket outside references; and on `+=` onto a variable made by `?=`,
      `!=` or `:::=`, words proven without looking at any variable. */
  ghost predicate AssignmentOk(vars: Variables, late: set<string>, owned: set<string>, a: Assignment, strict: bool) {
    && (strict ==> Markless(a.value))
    && (exists t :: WellFormed(t, a.op == Append && a.name !in owned) && Print(t) == a.value)
    && (a.op == Append && a.name in late && Proven(a.value, vars, {}) != [] ==> Proven(a.value, map[], {}) != [])
  }

  /** `+=` onto a recursive variable. */
  lemma AppendLazy(known: Known, raw: string, v: Text, more: seq<string>, own: bool, strict: bool)
    requires Tracks(known, Lazy(raw), own, strict) && WellFormed(v, !own) && (strict ==> Markless(Print(v)))
    requires known.Evaluated? && more != [] ==> HasSolidLiteral(v, strict)
    ensures
      var value := Print(v);
      Tracks(if known.Deferred? then Deferred(known.raw + " " + value) else Evaluated(known.tokens + more),
        Lazy(raw + " " + value), own, strict)
  {
    hide Print, WellFormed, HasSolidLiteral;
    if !own {
      EnclosedIsWellFormed(v);
    }
    if own {
      var t :| WellFormed(t, false) && Print(t) == raw;
      var r := AppendText(t, v, strict);
    }
    if known.Deferred? {
      var t :| WellFormed(t, false) && Print(t) == known.raw && EndsWith(raw, t, own);
      var r := AppendText(t, v, strict);
      EndsWithAppend(raw, t, v, r, own);
    } else if known.tokens != [] {
      var t :| WellFormed(t, false) && HasSolidLiteral(t, strict) && EndsWith(raw, t, own);
      var r := AppendText(t, v, strict);
      EndsWithAppend(raw, t, v, r, own);
    } else if more != [] && !own {
      EndsWithAny(raw, v);
    }
  }

  lemma AppendTracks(vars: Variables, store: Store, late: set<string>, owned: set<string>, a: Assignment, world: World,
      strict: bool)
    requires Models(vars, store, late, owned, strict) && AssignmentOk(vars, late, owned, a, strict)
    requires a.op == Append && a.name in vars
    ensures
      var r := Assign(store, a.name, Append, a.value, world);
      r.Some? ==>
        Tracks(Recorded(vars, a.name, Append, a.value)[a.name], r.value[a.name], a.name in owned, strict)
  {
    hide Print, WellFormed, Proven, Expand, HasSolidLiteral;
    var own := a.name in owned;
    var v :| WellFormed(v, !own) && Print(v) == a.value;
    assert Tracks(vars[a.name], store[a.name], own, strict);
    if !own {
      EnclosedIsWellFormed(v);
    }
    var more := Proven(a.value, vars, {});
    if store[a.name].Fixed? {
      AppendFixed(vars, store, late, owned, a, v, vars[a.name].tokens, world, strict);
    } else {
      if vars[a.name].Evaluated? && more != [] {
        ProvenAloneIsLiteral(v, strict);
      }
      AppendLazy(vars[a.name], store[a.name].raw, v, more, own, strict);
    }
  }

  lemma AppendFixed(vars: Variables, store: Store, late: set<string>, owned: set<string>, a: Assignment, v: Text,
      tokens: seq<string>, world: World, strict: bool)
    requires Models(vars, store, late, owned, strict)
    requires WellFormed(v, false) && Print(v) == a.value && (strict ==> Markless(a.value))
    requires a.name in vars && vars[a.name] == Evaluated(tokens) && store[a.name].Fixed?
    ensures
      var now := Expand(a.value, store, world, {});
      now.Some? && tokens + Proven(a.value, vars, {}) != [] ==>
        HasSolid(store[a.name].text + " " + now.value, strict)
  {
    var now := Expand(a.value, store, world, {});
    assert Tracks(vars[a.name], store[a.name], a.name in owned, strict);
    if now.Some? && tokens + Proven(a.value, vars, {}) != [] {
      if tokens == [] {
        ProvenIsFine(v, vars, store, late, owned, world, strict);
      }
      SolidConcat(store[a.name].text + " ", now.value, strict);
      SolidConcat(store[a.name].text, " ", strict);
    }
  }

  /** What one assignment leaves in the assigned name. */
  lemma AssignTracks(vars: Variables, store: Store, late: set<string>, owned: set<string>, a: Assignment, world: World,
      strict: bool)
    requires Models(vars, store, late, owned, strict) && AssignmentOk(vars, late, owned, a, strict)
    ensures
      var r := Assign(store, a.name, a.op, a.value, world);
      r.Some? ==>
        && a.name in r.value
        && Tracks(Recorded(vars, a.name, a.op, a.value)[a.name], r.value[a.name],
             a.name in OwnedAfter(owned, a.name, a.op), strict)
  {
    hide Print, WellFormed, Proven, Expand, HasSolidLiteral, HasSolid, Escape;
    var v :| WellFormed(v, a.op == Append && a.name !in owned) && Print(v) == a.value;
    if a.op == Append && a.name !in owned {
      EnclosedIsWellFormed(v);
    }
    var now := Expand(a.value, store, world, {});
    if Proven(a.value, vars, {}) != [] {
      ProvenIsFine(v, vars, store, late, owned, world, strict);
    }
    match a.op
    case Recursive =>
    case Simple =>
    case Posix =>
      if now.Some? {
        EscapedText(now.value, strict);
      }
    case Append =>
      if a.name in vars {
        AppendTracks(vars, store, late, owned, a, world, strict);
      } else if a.name in store {
        EndsWithAny(store[a.name].raw, v);
      }
    case Default =>
    case Shell =>
  }

  /** An assignment changes the assigned name only, and both sides know of it afterwards. */
  lemma AssignFrame(vars: Variables, store: Store, a: Assignment, world: World)
    ensures
      var vars' := Recorded(vars, a.name, a.op, a.value);
      a.name in vars' && vars' - {a.name} == vars - {a.name}
    ensures
      var r := Assign(store, a.name, a.op, a.value, world);
      r.Some? ==> a.name in r.value && r.value - {a.name} == store - {a.name}
  {
    hide Proven, Expand, Escape;
  }

  lemma AssignedLate(vars: Variables, store: Store, late: set<string>, owned: set<string>, a: Assignment, world: World,
      strict: bool)
    requires Models(vars, store, late, owned, strict)
    ensures
      var vars', r := Recorded(vars, a.name, a.op, a.value), Assign(store, a.name, a.op, a.value, world);
      r.Some? && a.name in vars' && a.name in r.value && vars'[a.name].Evaluated? && r.value[a.name].Lazy? ==>
        a.name in LateAfter(late, vars, a.name, a.op)
  {
    hide Proven, Expand, Escape, Tracks;
  }

  lemma AssignModels(vars: Variables, store: Store, late: set<string>, owned: set<string>, a: Assignment, world: World,
      strict: bool)
    requires Models(vars, store, late, owned, strict) && AssignmentOk(vars, late, owned, a, strict)
    ensures
      var r := Assign(store, a.name, a.op, a.value, world);
      r.Some? ==>
        Models(Recorded(vars, a.name, a.op, a.value), r.value, LateAfter(late, vars, a.name, a.op),
          OwnedAfter(owned, a.name, a.op), strict)
  {
    hide Tracks, AssignmentOk, Recorded, Assign;
    AssignTracks(vars, store, late, owned, a, world, strict);
    AssignFrame(vars, store, a, world);
    AssignedLate(vars, store, late, owned, a, world, strict);
    var r := Assign(store, a.name, a.op, a.value, world);
    if r.Some? {
      var vars', store' := Recorded(vars, a.name, a.op, a.value), r.value;
      forall n | n != a.name
        ensures n in vars' <==> n in vars
        ensures n in store' <==> n in store
        ensures n in vars' ==> vars'[n] == vars[n]
        ensures n in store' ==> store'[n] == store[n]
        ensures n in OwnedAfter(owned, a.name, a.op) <==> n in owned
      {
        assert n in vars' <==> n in vars' - {a.name};
        assert n in vars <==> n in vars - {a.name};
        assert n in store' <==> n in store' - {a.name};
        assert n in store <==> n in store - {a.name};
        assert n in vars' ==> vars'[n] == (vars' - {a.name})[n];
        assert n in store' ==> store'[n] == (store' - {a.name})[n];
      }
    }
  }

  // ---- reading a file ----

  function ScopeAfter(logicals: seq<string>, s: Scope): Scope {
    if logicals == [] then s else ScopeAfter(logicals[1..], Advance(LineOf(logicals[0], s.prefix), s))
  }

  /** What is followed along the file: the analyser's scope, whether a rule may be open to recipe lines, whether
      that is `sure`, and the two sets of names `Models` speaks of. */
  datatype View = View(scope: Scope, open: bool, sure: bool, late: set<string>, owned: set<string>)

  const BEGIN := View(START, false, true, {}, {})

  /** Behind computed targets it is unknown whether a rule is open, until a line opens one or closes it. */
  predicate SureAfter(reading: Reading, sure: bool) {
    !reading.ComputedRule? && (sure || !(reading.BlankLine? || reading.RecipeLine?))
  }

  function Follow(logical: string, v: View): View {
    var line := LineOf(logical, v.scope.prefix);
    var reading := Reads(logical, v.scope.prefix, v.open);
    var open := reading.ComputedRule? || OpenAfter(reading, v.open);
    var sure := SureAfter(reading, v.sure);
    match line
    case Variable(a) =>
      View(Advance(line, v.scope), open, sure, LateAfter(v.late, v.scope.vars, a.name, a.op),
        OwnedAfter(v.owned, a.name, a.op))
    case Undefine(name) => View(Advance(line, v.scope), open, sure, v.late - {name}, v.owned + {name})
    case _ => View(Advance(line, v.scope), open, sure, v.late, v.owned)
  }

  function ViewAfter(logicals: seq<string>, v: View): View {
    if logicals == [] then v else ViewAfter(logicals[1..], Follow(logicals[0], v))
  }

  /** To Make a rule with computed targets, to the analyser nothing that changes a variable. */
  predicate IsComputedRule(logical: string, prefix: char, open: bool) {
    && Reads(logical, prefix, open).ComputedRule?
    && (LineOf(logical, prefix).Target? || LineOf(logical, prefix).Other?)
  }

  /** A recipe line that does nothing, or is an error, where no rule is open. */
  predicate IsHarmless(logical: string, prefix: char) {
    Reads(logical, prefix, false).Fault? || Reads(logical, prefix, false).BlankLine?
  }

  /** A line of the straight-line fragment. The recipe prefix is set by `=` or `:=`, and to no backslash, which
      would also continue lines. */
  ghost predicate InFragment(logical: string, v: View, strict: bool) {
    && (IsPlainLine(logical, v.scope.prefix, v.open) || IsComputedRule(logical, v.scope.prefix, v.open))
    && (!v.sure && LineOf(logical, v.scope.prefix).Recipe? ==> IsHarmless(logical, v.scope.prefix))
    && match LineOf(logical, v.scope.prefix)
       case PrefixChange(op, value) => (op == Recursive || op == Simple) && PrefixFrom(value) != '\\'
       case Variable(a) => AssignmentOk(v.scope.vars, v.late, v.owned, a, strict)
       case _ => true
  }

  ghost predicate Fragment(logicals: seq<string>, v: View, strict: bool) {
    logicals == [] || (InFragment(logicals[0], v, strict) && Fragment(logicals[1..], Follow(logicals[0], v), strict))
  }

  /** The analyser's view describes Make's state. */
  ghost predicate Describes(v: View, m: Make, strict: bool) {
    && Models(v.scope.vars, m.store, v.late, v.owned, strict) && v.scope.prefix == m.prefix
    && (v.sure ==> v.open == m.open)
  }

  lemma NamesArePlain(logical: string, prefix: char)
    requires Token(logical) !in DIRECTIVES
    requires LineOf(logical, prefix).Target? || PlainBlanks(CutAt(logical, '#'))
    ensures
      match LineOf(logical, prefix)
      case Variable(a) => IsName(a.name)
      case Undefine(name) => IsName(name)
      case _ => true
  {
    hide Token;
    match LineOf(logical, prefix)
    case Variable(_) =>
      NoModifier(logical);
      var _, _, _ := AssignmentIsWritten(logical);
    case Undefine(_) =>
      var code := CutAt(logical, '#');
      Whole(code, '#');
      TokenOfPrefix(code, logical);
      ModifiersAreLong(code);
      var _, _ := UndefineIsWritten(code);
    case _ =>
  }

  /** Wherever the run goes on, the view describes Make's state. */
  ghost predicate DescribesEnd(run: Progress, v: View, strict: bool) {
    match run
    case Running(m) => Describes(v, m, strict)
    case Stopped => true
    case Beyond => false
  }

  /** Only a line with the recipe prefix is read differently behind a rule. */
  lemma ReadsAnyway(logical: string, prefix: char, open: bool, other: bool)
    requires !LineOf(logical, prefix).Recipe?
    ensures Reads(logical, prefix, open) == Reads(logical, prefix, other)
    ensures IsPlainLine(logical, prefix, open) ==> IsPlainLine(logical, prefix, other)
  {
    hide PlainBlanks, CutAt, Uncommented, DefinitionOf, RuleAt, Token, Skip, ParseRule, ParseAssignment;
    hide ParseUndefine, ParseRecipePrefix, Unquoted, FirstMark, Bracketed, IsPlainHead, NonBlank;
    RecipeIsPrefixed(logical, prefix);
  }

  lemma StepModels(logical: string, v: View, m: Make, world: World, strict: bool)
    requires InFragment(logical, v, strict) && Describes(v, m, strict)
    ensures DescribesEnd(Step(Reads(logical, m.prefix, m.open), m, world), Follow(logical, v), strict)
  {
    hide LineOf, Reads, IsPlainLine, Describes, Step, Follow, DescribesEnd;
    StepUsesPrefix(v, m, strict);
    if LineOf(logical, v.scope.prefix).Recipe? {
      RecipeModels(logical, v, m, world, strict);
    } else {
      ReadsAnyway(logical, v.scope.prefix, v.open, m.open);
      if IsPlainLine(logical, v.scope.prefix, v.open) {
        PlainModels(logical, v, m, world, strict);
      } else {
        ComputedModels(logical, v, m, world, strict);
      }
    }
  }

  lemma RecipeModels(logical: string, v: View, m: Make, world: World, strict: bool)
    requires IsPlainLine(logical, v.scope.prefix, v.open) && Describes(v, m, strict)
    requires LineOf(logical, v.scope.prefix).Recipe? && (v.sure || IsHarmless(logical, v.scope.prefix))
    ensures DescribesEnd(Step(Reads(logical, m.prefix, m.open), m, world), Follow(logical, v), strict)
  {
    hide LineOf, Reads, Models;
    RecipeReads(logical, v.scope.prefix, true);
  }

  lemma ComputedModels(logical: string, v: View, m: Make, world: World, strict: bool)
    requires IsComputedRule(logical, v.scope.prefix, v.open) && Describes(v, m, strict)
    requires Reads(logical, v.scope.prefix, v.open) == Reads(logical, m.prefix, m.open)
    ensures DescribesEnd(Step(Reads(logical, m.prefix, m.open), m, world), Follow(logical, v), strict)
  {
    hide LineOf, Reads, Models;
  }

  lemma PlainModels(logical: string, v: View, m: Make, world: World, strict: bool)
    requires InFragment(logical, v, strict) && Describes(v, m, strict) && IsPlainLine(logical, m.prefix, m.open)
    requires !LineOf(logical, m.prefix).Recipe?
    requires Reads(logical, m.prefix, v.open) == Reads(logical, m.prefix, m.open)
    ensures DescribesEnd(Step(Reads(logical, m.prefix, m.open), m, world), Follow(logical, v), strict)
  {
    hide LineOf, Reads, AssignmentOk, Models, Assign, Recorded, Expand, LateAfter, OwnedAfter, RuleReading, Token;
    hide PlainBlanks, CutAt, IsComputedRule, IsHarmless;
    var line := LineOf(logical, m.prefix);
    ReadAlike(logical, m.prefix, m.open);
    NamesArePlain(logical, m.prefix);
    match line
    case PrefixChange(_, value) => PrefixAgrees(logical, m, value);
    case Variable(a) =>
      NameIsNoReference(a.name);
      AssignModels(v.scope.vars, m.store, v.late, v.owned, a, world, strict);
    case Undefine(name) =>
      NameIsNoReference(name);
      UndefineModels(v.scope.vars, m.store, v.late, v.owned, name, strict);
    case Target(rule) => RuleReadingIsRule(rule);
    case Other =>
  }

  lemma RuleReadingIsRule(rule: MakeSyntax.Rule)
    ensures RuleReading(rule).TargetVariable? || RuleReading(rule).RuleLine?
  {
  }

  lemma NameIsNoReference(name: string)
    requires IsName(name)
    ensures name != "" && '$' !in name && name != RECIPE_PREFIX
  {
    forall c | c in name
      ensures c != '$'
    {
      NameCharIsPlain(c);
    }
  }

  lemma PrefixAgrees(logical: string, m: Make, value: string)
    requires LineOf(logical, m.prefix).PrefixChange? && LineOf(logical, m.prefix).value == value
    requires Unquoted(logical) && '$' !in value && PlainBlanks(CutAt(logical, '#'))
    ensures
      var v := CutAt(value, '#');
      && PrefixFrom(value) == (if v == "" then '\t' else v[0]) && '$' !in v
  {
    PrefixChangeReads(logical, m.prefix, m.open);
  }

  lemma UndefineModels(vars: Variables, store: Store, late: set<string>, owned: set<string>, name: string, strict: bool)
    requires Models(vars, store, late, owned, strict)
    ensures Models(vars - {name}, store - {name}, late - {name}, owned + {name}, strict)
  {
    hide Tracks;
  }

  /** Through every run of lines of the fragment the analyser's view describes Make's state. */
  lemma {:induction false} RunModels(logicals: seq<string>, v: View, m: Make, world: World, strict: bool)
    requires Fragment(logicals, v, strict) && Describes(v, m, strict)
    ensures DescribesEnd(MakeAfter(logicals, m, world), ViewAfter(logicals, v), strict)
  {
    hide Describes, InFragment, Step, Reads, Follow;
    if logicals != [] {
      StepModels(logicals[0], v, m, world, strict);
      StepUsesPrefix(v, m, strict);
      var next := Step(Reads(logicals[0], m.prefix, m.open), m, world);
      if next.Running? {
        RunModels(logicals[1..], Follow(logicals[0], v), next.make, world, strict);
      }
    }
  }

  lemma StepUsesPrefix(v: View, m: Make, strict: bool)
    requires Describes(v, m, strict)
    ensures v.scope.prefix == m.prefix && (v.sure ==> v.open == m.open)
  {
  }

  lemma {:induction false} ViewHoldsScope(logicals: seq<string>, v: View)
    ensures ViewAfter(logicals, v).scope == ScopeAfter(logicals, v.scope)
  {
    hide LineOf, Reads, Advance;
    if logicals != [] {
      ViewHoldsScope(logicals[1..], Follow(logicals[0], v));
    }
  }

  // ---- `|` in prerequisites ----

  function SpaceChar(c: char): char { if c == '|' then ' ' else c }

  function Unbarred(t: Text): Text {
    match t
    case End => End
    case Lit(c, rest) => Lit(SpaceChar(c), Unbarred(rest))
    case Dollar(rest) => Dollar(Unbarred(rest))
    case Single(c, rest) => Single(SpaceChar(c), Unbarred(rest))
    case Group(b, body, rest) => Group(b, Unbarred(body), Unbarred(rest))
  }

  lemma {:induction false} SpaceBarsAppend(a: string, b: string)
    ensures SpaceBars(a + b) == SpaceBars(a) + SpaceBars(b)
  {
    if a == "" {
      assert a + b == b;
    } else {
      assert (a + b)[1..] == a[1..] + b;
      SpaceBarsAppend(a[1..], b);
    }
  }

  lemma {:induction false} SpaceBarsAt(s: string, i: nat)
    requires i < |s|
    ensures SpaceBars(s)[i] == SpaceChar(s[i])
  {
    if i > 0 {
      SpaceBarsAt(s[1..], i - 1);
    }
  }

  lemma UnbarredPair(c: char, d: char)
    ensures SpaceBars([c]) == [SpaceChar(c)] && SpaceBars([c, d]) == [SpaceChar(c), SpaceChar(d)]
  {
    assert [d][1..] == [] && [c][1..] == [] && [c, d][1..] == [d];
    assert SpaceBars([d]) == [SpaceChar(d)] + [];
  }

  lemma {:induction false} UnbarredText(t: Text, inside: bool)
    requires WellFormed(t, inside)
    ensures WellFormed(Unbarred(t), inside) && Print(Unbarred(t)) == SpaceBars(Print(t))
  {
    hide SpaceBars;
    match t
    case End => NothingUnbarred();
    case Lit(c, rest) =>
      UnbarredText(rest, inside);
      UnbarredPair(c, c);
      SpaceBarsAppend([c], Print(rest));
    case Dollar(rest) =>
      UnbarredText(rest, inside);
      UnbarredPair('$', '$');
      SpaceBarsAppend("$$", Print(rest));
    case Single(c, rest) =>
      UnbarredText(rest, inside);
      UnbarredPair('$', c);
      SpaceBarsAppend(['$', c], Print(rest));
    case Group(b, body, rest) =>
      UnbarredText(body, true);
      UnbarredText(rest, inside);
      UnbarredGroup(b, Print(body), Print(rest));
  }

  lemma NothingUnbarred()
    ensures SpaceBars("") == ""
  {
  }

  lemma UnbarredGroup(b: bool, body: string, rest: string)
    ensures SpaceBars(['$', Opener(b)] + body + [Closer(b)] + rest)
         == ['$', Opener(b)] + SpaceBars(body) + [Closer(b)] + SpaceBars(rest)
  {
    SpaceBarsAppend(['$', Opener(b)] + body + [Closer(b)], rest);
    SpaceBarsAppend(['$', Opener(b)] + body, [Closer(b)]);
    SpaceBarsAppend(['$', Opener(b)], body);
  }

  lemma NameHasNoBar(body: Text)
    requires WellFormed(body, true) && IsVariableName(Print(Unbarred(body)))
    ensures Print(Unbarred(body)) == Print(body)
  {
    UnbarredText(body, true);
    var s := Print(body);
    forall i | 0 <= i < |s| ensures SpaceBars(s)[i] == s[i] {
      SpaceBarsAt(s, i);
    }
  }

  /** A proof found after `|` became a space is a proof about the text as written. */
  lemma {:induction false} ItemDespiteBars(t: Text, vars: Variables)
    requires WellFormed(t, false) && HasProvenItem(Unbarred(t), vars, {}, false) && ';' !in Print(t)
    ensures HasProvenItem(t, vars, {}, true)
  {
    match t
    case Lit(c, rest) =>
      assert Print(t)[0] == c;
      if !Solid(c, true) {
        ItemDespiteBars(rest, vars);
      }
    case Dollar(_) =>
    case Single(c, rest) =>
      if HasProvenItem(Unbarred(rest), vars, {}, false) {
        ItemDespiteBars(rest, vars);
      }
    case Group(b, body, rest) =>
      if HasProvenItem(Unbarred(rest), vars, {}, false) {
        ItemDespiteBars(rest, vars);
      } else {
        NameHasNoBar(body);
      }
  }

  lemma {:induction false} WeakerBar(t: Text, vars: Variables, strict: bool)
    requires HasProvenItem(t, vars, {}, true)
    ensures HasProvenItem(t, vars, {}, strict)
  {
    match t
    case Lit(c, rest) => if !Solid(c, true) { WeakerBar(rest, vars, strict); }
    case Dollar(_) =>
    case Single(c, rest) => if HasProvenItem(rest, vars, {}, true) { WeakerBar(rest, vars, strict); }
    case Group(_, _, rest) => if HasProvenItem(rest, vars, {}, true) { WeakerBar(rest, vars, strict); }
  }

  // ---- the theorem ----

  /**
   Soundness. Whatever the environment and the world hold: when the analyser credits a rule, a plain line behind
   lines of the fragment, for its prerequisites, then Make, reading the lines by its own rules, either stops with
   an error or reads that rule too, of those targets, and expands its prerequisites to something other than
   whitespace. If `strict`, for files that assign no `|` and no `;`, the expansion has more in it than
   separators: a prerequisite or the text of a recipe, unless a `:` in it makes a pattern of it.
   */
  lemma CreditedPrerequisitesAreThere(logicals: seq<string>, k: nat, env: map<string, string>, world: World,
      strict: bool)
    requires k < |logicals| && Fragment(logicals[..k], BEGIN, strict)
    requires LineOf(logicals[k], ScopeAfter(logicals[..k], START).prefix).Target?
    requires IsPlainLine(logicals[k], ScopeAfter(logicals[..k], START).prefix, false)
    requires
      var rule := LineOf(logicals[k], ScopeAfter(logicals[..k], START).prefix).rule;
      CreditsPrerequisites(rule, ScopeAfter(logicals[..k], START).vars)
    ensures
      match MakeAfter(logicals[..k], FromEnvironment(env), world)
      case Running(m) =>
        var reading := Reads(logicals[k], m.prefix, m.open);
        && reading.RuleLine?
        && reading.targets == LineOf(logicals[k], ScopeAfter(logicals[..k], START).prefix).rule.names
        && Fine(Expand(reading.prerequisites, m.store, world, {}), strict)
      case Stopped => true
      case Beyond => false
  {
    hide LineOf, Reads, CreditsPrerequisites, Expand, Fragment, Describes, IsPlainLine, FromEnvironment;
    EnvironmentIsDescribed(env, strict);
    RunModels(logicals[..k], BEGIN, FromEnvironment(env), world, strict);
    ViewHoldsScope(logicals[..k], BEGIN);
    var end := MakeAfter(logicals[..k], FromEnvironment(env), world);
    if end.Running? {
      CreditedRuleIsThere(logicals[k], ViewAfter(logicals[..k], BEGIN), end.make, world, strict);
    }
  }

  lemma EnvironmentIsDescribed(env: map<string, string>, strict: bool)
    ensures Describes(BEGIN, FromEnvironment(env), strict)
  {
  }

  /** A credited line, as Make reads it. */
  lemma CreditedRuleIsThere(logical: string, v: View, m: Make, world: World, strict: bool)
    requires Describes(v, m, strict)
    requires LineOf(logical, v.scope.prefix).Target? && IsPlainLine(logical, v.scope.prefix, false)
    requires CreditsPrerequisites(LineOf(logical, v.scope.prefix).rule, v.scope.vars)
    ensures
      var reading, rule := Reads(logical, m.prefix, m.open), LineOf(logical, v.scope.prefix).rule;
      && reading.RuleLine? && reading.targets == rule.names
      && Fine(Expand(reading.prerequisites, m.store, world, {}), strict)
  {
    hide LineOf, Reads, Proven, Expand, Models, Bracketed, Fine, CutAt, SpaceBars, IsTargetVariable;
    var rule := LineOf(logical, v.scope.prefix).rule;
    ReadsAnyway(logical, v.scope.prefix, false, m.open);
    ReadAlike(logical, m.prefix, m.open);
    NoEqualsNoTargetVariable(Prerequisites(rule));
    PrerequisitesEnd(rule.after);
    assert forall i :: 0 <= i < |Prerequisites(rule)| ==> Prerequisites(rule)[i] != ';';
    PrerequisitesAreFine(Prerequisites(rule), v.scope.vars, m.store, v.late, v.owned, world, strict);
  }

  lemma PrerequisitesAreFine(text: string, vars: Variables, store: Store, late: set<string>, owned: set<string>,
      world: World, strict: bool)
    requires Bracketed(text) && ';' !in text && Proven(SpaceBars(text), vars, {}) != []
    requires Models(vars, store, late, owned, strict)
    ensures Fine(Expand(text, store, world, {}), strict)
  {
    var t :| WellFormed(t, false) && Print(t) == text;
    UnbarredText(t, false);
    ProvenComesFromItem(Unbarred(t), End, vars, {});
    ItemDespiteBars(t, vars);
    WeakerBar(t, vars, strict);
    ProvenItemIsFine(t, vars, {}, store, late, owned, world, {}, strict);
  }
}
