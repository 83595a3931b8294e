/** What the analyser knows of each variable, and which words it can prove non-empty. */
module MakeVariables {
  import opened Strings
  import opened MakeWords

  /** A recursive variable keeps its text; a simple one keeps the words proven when it was assigned. */
  datatype Known = Deferred(raw: string) | Evaluated(tokens: seq<string>)
  type Variables = map<string, Known>

  datatype Operator = Recursive | Simple | Posix | Append | Default | Shell

  const MAX_REFERENCE_DEPTH := 16

  predicate IsNameStart(c: char) { 'A' <= c <= 'Z' || 'a' <= c <= 'z' || c == '_' }
  predicate IsNameChar(c: char) { IsNameStart(c) || '0' <= c <= '9' || c == '.' || c == '-' }

  predicate IsName(s: string) {
    s != "" && IsNameStart(s[0]) && forall i :: 0 <= i < |s| ==> IsNameChar(s[i])
  }

  predicate IsShortName(c: char) { IsNameStart(c) || '0' <= c <= '9' }

  /** The name in a word that is exactly one plain reference: `$(NAME)`, `${NAME}` or `$N`. */
  function ReferenceName(word: string): Option<string> {
    if |word| == 2 && word[0] == '$' && IsShortName(word[1]) then Some(word[1..])
    else if |word| > 3 && word[0] == '$' && (word[1], word[|word| - 1]) in {('(', ')'), ('{', '}')}
            && IsName(word[2..|word| - 1]) then Some(word[2..|word| - 1])
    else None
  }

  function Budget(resolving: set<string>): nat {
    if |resolving| < MAX_REFERENCE_DEPTH then MAX_REFERENCE_DEPTH - |resolving| else 0
  }

  /** The words of `text` proven non-empty after expansion, not looking through `resolving` again. */
  function Proven(text: string, vars: Variables, resolving: set<string>): seq<string>
    decreases Budget(resolving), 2, 0
  {
    ProvenWords(SplitWords(text), vars, resolving)
  }

  function ProvenWords(words: seq<string>, vars: Variables, resolving: set<string>): seq<string>
    decreases Budget(resolving), 1, |words|
  {
    if words == [] then [] else ProvenWord(words[0], vars, resolving) + ProvenWords(words[1..], vars, resolving)
  }

  predicate Resolvable(name: Option<string>, vars: Variables, resolving: set<string>) {
    name.Some? && name.value in vars && name.value !in resolving && |resolving| < MAX_REFERENCE_DEPTH
  }

  function ProvenWord(word: string, vars: Variables, resolving: set<string>): seq<string>
    decreases Budget(resolving), 0, 0
  {
    var name := ReferenceName(word);
    if HasLiteral(word) then [word]
    else if !Resolvable(name, vars, resolving) then []
    else match vars[name.value]
      case Evaluated(tokens) => tokens
      case Deferred(raw) => Proven(raw, vars, resolving + {name.value})
  }

  /** The effect of one global assignment. */
  function Recorded(vars: Variables, name: string, op: Operator, value: string): Variables {
    match op
    case Recursive => vars[name := Deferred(value)]
    case Simple => vars[name := Evaluated(Proven(value, vars, {}))]
    case Posix => vars[name := Evaluated(Proven(value, vars, {}))]
    case Append =>
      if name !in vars then vars[name := Deferred(value)]
      else (match vars[name]
            case Evaluated(tokens) => vars[name := Evaluated(tokens + Proven(value, vars, {}))]
            case Deferred(raw) => vars[name := Deferred(raw + " " + value)])
    case Default => if name in vars then vars else vars[name := Evaluated([])]
    case Shell => vars[name := Evaluated([])]
  }

  // ---- the mutable table ----

  class Variable {
    var raw: Option<string>
    var tokens: Option<seq<string>>

    constructor (raw: Option<string>, tokens: Option<seq<string>>)
      ensures this.raw == raw && this.tokens == tokens
    {
      this.raw, this.tokens := raw, tokens;
    }

    function Known(): Known
      reads this
    {
      if tokens.Some? then Evaluated(tokens.value) else if raw.Some? then Deferred(raw.value) else Evaluated([])
    }
  }

  /** No two names share an object, and each object carries exactly one of the two values. */
  ghost predicate AreDistinct(variables: map<string, Variable>)
    reads variables.Values
  {
    && (forall a, b :: a in variables && b in variables && a != b ==> variables[a] != variables[b])
    && (forall a :: a in variables ==> variables[a].raw.Some? != variables[a].tokens.Some?)
  }

  ghost function ViewOf(variables: map<string, Variable>): Variables
    reads variables.Values
  {
    map name | name in variables :: variables[name].Known()
  }

  lemma Entered(variables: map<string, Variable>, name: string, variable: Variable)
    requires AreDistinct(variables) && variable !in variables.Values && variable.raw.Some? != variable.tokens.Some?
    ensures
      var after := variables[name := variable];
      && AreDistinct(after) && after.Values <= variables.Values + {variable}
      && ViewOf(after) == ViewOf(variables)[name := variable.Known()]
  {
    var after := variables[name := variable];
    forall n | n in variables
      ensures variables[n] != variable
    {
      assert variables[n] in variables.Values;
    }
    forall v | v in after.Values
      ensures v in variables.Values + {variable}
    {
      var n :| n in after && after[n] == v;
      assert n != name ==> variables[n] in variables.Values;
    }
  }

  class VariableTable {
    var variables: map<string, Variable>

    ghost predicate Valid()
      reads this, variables.Values
    {
      AreDistinct(variables)
    }

    ghost function View(): Variables
      reads this, variables.Values
    {
      ViewOf(variables)
    }

    constructor ()
      ensures Valid() && View() == map[] && variables == map[]
    {
      variables := map[];
    }

    method ProvenTokens(text: string, resolving: set<string>) returns (proven: seq<string>)
      requires Valid()
      ensures proven == Proven(text, View(), resolving)
      decreases Budget(resolving)
    {
      proven := [];
      var words := SplitMakeWords(text);
      assert words[0..] == words;
      for i := 0 to |words|
        invariant Proven(text, View(), resolving) == proven + ProvenWords(words[i..], View(), resolving)
      {
        var word := words[i];
        assert words[i..][1..] == words[i + 1..];
        Assoc(proven, ProvenWord(word, View(), resolving), ProvenWords(words[i + 1..], View(), resolving));
        var literal := HasLiteralText(word);
        if literal {
          proven := proven + [word];
          continue;
        }
        var name := ReferenceName(word);
        if name.None? || name.value !in variables || name.value in resolving || |resolving| >= MAX_REFERENCE_DEPTH {
          assert ProvenWord(word, View(), resolving) == [];
          assert proven + [] == proven;
          continue;
        }
        var variable := variables[name.value];
        assert View()[name.value] == variable.Known();
        if variable.tokens.Some? {
          proven := proven + variable.tokens.value;
        } else if variable.raw.Some? {
          var more := ProvenTokens(variable.raw.value, resolving + {name.value});
          proven := proven + more;
        }
      }
      assert proven + [] == proven;
    }

    /** `variables[name] = _Variable(...)`. */
    method Define(name: string, raw: Option<string>, tokens: Option<seq<string>>)
      requires Valid() && raw.Some? != tokens.Some?
      modifies this
      ensures Valid() && fresh(variables.Values - old(variables.Values))
      ensures View() == old(View())[name := if tokens.Some? then Evaluated(tokens.value) else Deferred(raw.value)]
    {
      hide Proven, AreDistinct, ViewOf;
      var variable := new Variable(raw, tokens);
      Entered(variables, name, variable);
      variables := variables[name := variable];
    }

    /** `+=` on a variable already in the table: the object changes in place. */
    method Extend(name: string, value: string)
      requires Valid() && name in variables
      modifies variables[name]
      ensures Valid() && View() == Recorded(old(View()), name, Append, value)
    {
      hide Proven;
      var current := variables[name];
      assert View()[name] == current.Known();
      if current.tokens.Some? {
        var more := ProvenTokens(value, {});
        current.tokens := Some(current.tokens.value + more);
      } else {
        current.raw := Some((if current.raw.Some? then current.raw.value else "") + " " + value);
      }
      assert forall n :: n in variables && n != name ==> variables[n] != current;
    }

    method RecordAssignment(name: string, op: Operator, value: string)
      requires Valid()
      modifies this, variables.Values
      ensures Valid() && View() == Recorded(old(View()), name, op, value)
      ensures fresh(variables.Values - old(variables.Values))
    {
      match op
      case Recursive =>
        Define(name, Some(value), None);
      case Simple =>
        var tokens := ProvenTokens(value, {});
        Define(name, None, Some(tokens));
      case Posix =>
        var tokens := ProvenTokens(value, {});
        Define(name, None, Some(tokens));
      case Append =>
        if name !in variables {
          Define(name, Some(value), None);
        } else {
          Extend(name, value);
        }
      case Default =>
        if name !in variables {
          Define(name, None, Some([]));
        }
      case Shell =>
        Define(name, None, Some([]));
    }

    method Undefine(name: string)
      requires Valid()
      modifies this
      ensures Valid() && View() == old(View()) - {name}
      ensures variables.Values <= old(variables.Values)
    {
      variables := variables - {name};
      assert forall n :: n in variables ==> variables[n] == old(variables)[n] && variables[n] in old(variables).Values;
    }
  }
}
