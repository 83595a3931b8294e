/**
 Reference semantics of GNU Make variables (manual sections 3.7, 6.2 and 6.6): what a
 text expands to, and what an assignment does. It knows nothing of the analyser.
 Whatever is not a plain variable name between the brackets (a function, a substitution,
 an automatic or computed name) has the value an arbitrary `World` gives it.
 */
module MakeExpansion {
  import opened Strings
  import opened MakeVariables

  /** A recursive variable is expanded at each use, a simple one was expanded when assigned. */
  datatype Value = Lazy(raw: string) | Fixed(text: string)
  type Store = map<string, Value>

  /** What `other` references and `shell` commands stand for, and what becomes of a `rule` whose targets must be
      expanded first: whether it is open to recipe lines, or `None` when Make stops. */
  datatype World = World(
    other: (string, Store) -> Option<string>,
    shell: string -> string,
    rule: (string, Store) -> Option<bool>)

  /** The offset of the bracket that closes the `n`-th level, counting brackets of one kind
      only; `|s|` when nothing closes it. */
  function FindClose(s: string, open: char, close: char, n: nat): (r: nat)
    requires n > 0
    ensures r <= |s|
  {
    if s == "" || (s[0] == close && n == 1) then 0
    else 1 + FindClose(s[1..], open, close, if s[0] == open then n + 1 else if s[0] == close then n - 1 else n)
  }

  function Glue(a: Option<string>, b: Option<string>): Option<string> {
    if a.None? || b.None? then None else Some(a.value + b.value)
  }

  predicate IsVariableName(body: string) {
    IsName(body) || (|body| == 1 && IsShortName(body[0]))
  }

  /** The expansion of `text`, or `None` when Make stops: an unterminated reference, or a
      recursive variable (one of `busy`) that refers to itself. */
  function Expand(text: string, store: Store, world: World, busy: set<string>): Option<string>
    decreases |store.Keys - busy|, |text|, 1
  {
    if text == "" then Some("")
    else if text[0] != '$' || |text| == 1 then Glue(Some(text[..1]), Expand(text[1..], store, world, busy))
    else if text[1] == '$' then Glue(Some("$"), Expand(text[2..], store, world, busy))
    else if text[1] == '(' || text[1] == '{' then
      var end := FindClose(text[2..], text[1], if text[1] == '(' then ')' else '}', 1);
      if end == |text| - 2 then None
      else Glue(Lookup(text[2..2 + end], store, world, busy), Expand(text[3 + end..], store, world, busy))
    else Glue(Lookup(text[1..2], store, world, busy), Expand(text[2..], store, world, busy))
  }

  function Lookup(body: string, store: Store, world: World, busy: set<string>): Option<string>
    decreases |store.Keys - busy|, |body|, 0
  {
    if !IsVariableName(body) then world.other(body, store)
    else if body !in store then Some("")
    else match store[body]
      case Fixed(text) => Some(text)
      case Lazy(raw) =>
        if body in busy then None
        else
          Shrinks(store.Keys, busy, body);
          Expand(raw, store, world, busy + {body})
  }

  lemma Shrinks(keys: set<string>, busy: set<string>, name: string)
    requires name in keys && name !in busy
    ensures |keys - (busy + {name})| < |keys - busy|
  {
    assert keys - (busy + {name}) == (keys - busy) - {name};
  }

  /** `:::=` doubles every `$`, so that the value survives a later expansion. */
  function Escape(s: string): string {
    if s == "" then "" else (if s[0] == '$' then "$$" else s[..1]) + Escape(s[1..])
  }

  /** The store after `name op value`, or `None` when Make stops. */
  function Assign(store: Store, name: string, op: Operator, value: string, world: World): Option<Store> {
    var now := Expand(value, store, world, {});
    match op
    case Recursive => Some(store[name := Lazy(value)])
    case Simple => if now.None? then None else Some(store[name := Fixed(now.value)])
    case Posix => if now.None? then None else Some(store[name := Lazy(Escape(now.value))])
    case Append =>
      if name !in store then Some(store[name := Lazy(value)])
      else (match store[name]
            case Lazy(raw) => Some(store[name := Lazy(raw + " " + value)])
            case Fixed(text) => if now.None? then None else Some(store[name := Fixed(text + " " + now.value)]))
    case Default => if name in store then Some(store) else Some(store[name := Lazy(value)])
    case Shell => if now.None? then None else Some(store[name := Lazy(world.shell(now.value))])
  }
}
