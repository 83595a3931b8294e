/**
 How GNU Make itself reads a makefile (manual sections 3.1, 3.7, 4.2, 5.1, 6.2, 6.5 and 6.11): which physical
 lines make a logical one, what each logical line is, and what it does. Like `MakeExpansion` it knows nothing
 of the analyser. Directives, modifiers, and names that must be expanded first lie beyond it; what becomes of targets
 that must be is for a `World` to say.
 */
module MakeFile {
  import opened Strings
  import opened MakeLines
  import opened MakeVariables
  import opened MakeExpansion

  // ---- physical lines and blanks ----

  /** What separates words; no other character does. */
  predicate IsBlank(c: char) { c == ' ' || c == '\t' }

  /** What is passed over in front of a word. */
  predicate IsSpacing(c: char) { c == ' ' || '\t' <= c <= '\r' }

  function Skip(s: string): (r: string)
    ensures |r| <= |s|
  {
    if s != "" && IsSpacing(s[0]) then Skip(s[1..]) else s
  }

  function Trim(s: string): (r: string)
    ensures r <= s
  {
    if s != "" && IsSpacing(s[|s| - 1]) then Trim(s[..|s| - 1]) else s
  }

  function TargetNames(s: string): seq<string> { TargetNamesFrom(s, "") }

  function TargetNamesFrom(s: string, word: string): seq<string> {
    var closed := if word == "" then [] else [word];
    if s == "" then closed
    else if IsBlank(s[0]) then closed + TargetNamesFrom(s[1..], "")
    else TargetNamesFrom(s[1..], word + [s[0]])
  }

  /** A line ends at a line feed and nowhere else; a carriage return in front of it goes with it. */
  function PhysicalLines(file: string): seq<string> {
    var line := CutAt(file, '\n');
    if file == "" then []
    else if |line| == |file| then [file]
    else [Uncarried(line)] + PhysicalLines(file[|line| + 1..])
  }

  function Uncarried(line: string): string {
    if line != "" && line[|line| - 1] == '\r' then line[..|line| - 1] else line
  }

  // ---- logical lines ----

  /** The number of backslashes `line` ends in. */
  function Slashes(line: string): (n: nat)
    ensures n <= |line|
  {
    if Continued(line) then 1 + Slashes(line[..|line| - 1]) else 0
  }

  /** An odd number of backslashes escapes the line break, an even number escapes itself. */
  predicate Escapes(line: string) { Slashes(line) % 2 == 1 }

  /** Half of the backslashes stay, and the line break is a blank. */
  function Unescaped(line: string): string {
    line[..|line| - (Slashes(line) + 1) / 2] + " "
  }

  function GatheredFrom(lines: seq<string>, number: nat, front: string, start: nat): seq<Logical> {
    if lines == [] then
      if front == "" then [] else [Logical(start, front)]
    else
      var first := if front == "" then number else start;
      if Escapes(lines[0]) then GatheredFrom(lines[1..], number + 1, front + Unescaped(lines[0]), first)
      else [Logical(first, front + lines[0])] + GatheredFrom(lines[1..], number + 1, "", first)
  }

  /** The logical lines, each with the number of its first physical line. */
  function Gathered(lines: seq<string>): seq<Logical> { GatheredFrom(lines, 1, "", 0) }

  // ---- marks outside references ----

  /** How many characters the reference at the front of `s` takes; all of them if nothing closes it. */
  function ReferenceSpan(s: string): (n: nat)
    requires s != "" && s[0] == '$'
    ensures 0 < n <= |s|
  {
    if |s| == 1 then 1
    else if s[1] == '(' || s[1] == '{' then
      var end := FindClose(s[2..], s[1], if s[1] == '(' then ')' else '}', 1);
      if end == |s| - 2 then |s| else 3 + end
    else 2
  }

  /** How much of `s` stands before the first of `marks` that is in no reference and behind no odd number of
      backslashes; `escaped` is whether such a number stands in front of `s`. */
  function Stop(s: string, escaped: bool, marks: set<char>): (n: nat)
    ensures n <= |s|
  {
    if s == "" then 0
    else if s[0] == '$' then
      var n := ReferenceSpan(s);
      n + Stop(s[n..], s[n - 1] == '\\', marks)
    else if s[0] in marks && !escaped then 0
    else 1 + Stop(s[1..], s[0] == '\\' && !escaped, marks)
  }

  const COMMENT := {'#'}
  const COMMENT_OR_RECIPE := {'#', ';'}
  const COLON := {':'}

  function Uncommented(s: string): string { s[..Stop(s, false, COMMENT)] }

  // ---- assignments ----

  /** The assignment operator at the front of `s`, and the text behind it. */
  function OperatorAt(s: string): Option<(Operator, string)> {
    if StartsWith(s, "=") then Some((Recursive, s[1..]))
    else if StartsWith(s, ":=") then Some((Simple, s[2..]))
    else if StartsWith(s, "::=") then Some((Simple, s[3..]))
    else if StartsWith(s, ":::=") then Some((Posix, s[4..]))
    else if StartsWith(s, "+=") then Some((Append, s[2..]))
    else if StartsWith(s, "?=") then Some((Default, s[2..]))
    else if StartsWith(s, "!=") then Some((Shell, s[2..]))
    else None
  }

  /** How much of `s` the name of a variable takes: up to a blank, a colon or an operator outside references. */
  function NameSpan(s: string): (n: nat)
    ensures n <= |s|
  {
    if s == "" || IsBlank(s[0]) || s[0] == ':' || OperatorAt(s).Some? then 0
    else if s[0] == '$' then ReferenceSpan(s) + NameSpan(s[ReferenceSpan(s)..])
    else 1 + NameSpan(s[1..])
  }

  /** What a logical line is to Make. */
  datatype Reading =
    | BlankLine                                                               // or a comment
    | RecipeLine(text: string)
    | AssignmentLine(name: string, op: Operator, value: string)
    | UndefineLine(name: string)
    | TargetVariable(targets: seq<string>)
    | RuleLine(targets: seq<string>, prerequisites: string, recipe: Option<string>)
    | ComputedRule(text: string)                                              // targets expanded, escaped, grouped
    | Fault                                                                   // Make stops
    | Foreign                                                                 // not modelled

  /** A name, an operator behind it, possibly after blanks, and a value. */
  function DefinitionOf(s: string): Option<Reading> {
    var n := NameSpan(s);
    var op := OperatorAt(Skip(s[n..]));
    if op.None? then None else Some(AssignmentLine(s[..n], op.value.0, Skip(op.value.1)))
  }

  // ---- one logical line ----

  /** The text up to the first blank. */
  function Token(s: string): (r: string)
    ensures r <= s
  {
    if s == "" || IsSpacing(s[0]) then "" else [s[0]] + Token(s[1..])
  }

  const MODIFIERS := {"export", "override", "private"}

  const DIRECTIVES := {
    "define", "endef", "ifdef", "ifndef", "ifeq", "ifneq", "else", "endif", "include", "-include", "sinclude",
    "override", "export", "unexport", "private", "vpath", "load", "-load"
  }

  /** Behind the colons of a rule: an assignment, possibly behind modifiers, belongs to the targets only. */
  predicate IsTargetVariable(tail: string)
    decreases |tail|
  {
    var s := Skip(tail);
    DefinitionOf(s).Some? || (Token(s) in MODIFIERS && IsTargetVariable(s[|Token(s)|..]))
  }

  /** A rule: targets, one colon or two, prerequisites, and a recipe behind a `;` in front of any comment. */
  function RuleAt(line: string): Reading {
    var stop := Stop(line, false, COMMENT_OR_RECIPE);
    var head := Skip(line[..stop]);
    var targets := head[..Stop(head, false, COLON)];
    if exists c <- targets :: c in {'$', '\\', '&'} then ComputedRule(line)
    else if |targets| == |head| then Fault
    else if targets == "" then Foreign
    else
      var tail := head[|targets| + 1..];
      var behind := if StartsWith(tail, ":") then tail[1..] else tail;
      if IsTargetVariable(behind) then TargetVariable(TargetNames(targets))
      else RuleLine(TargetNames(targets), behind,
        if stop < |line| && line[stop] == ';' then Some(line[stop + 1..]) else None)
  }

  /** A line in front of which a rule is open or not. Only behind a rule does the prefix make a recipe line. */
  function Reads(line: string, prefix: char, open: bool): Reading {
    var prefixed := line != "" && line[0] == prefix;
    var code := Skip(Uncommented(line));
    if open && prefixed then RecipeLine(line[1..])
    else if code == "" then BlankLine
    else if DefinitionOf(code).Some? then DefinitionOf(code).value
    else if Token(code) == "undefine" then UndefineLine(Trim(Skip(code[|"undefine"|..])))
    else if Token(code) in DIRECTIVES then Foreign
    else if prefixed then Fault
    else RuleAt(line)
  }

  /** Comments, blank lines and recipe lines leave the rule open, another rule opens, all else closes it. */
  predicate OpenAfter(reading: Reading, open: bool) {
    reading.RuleLine? || (open && (reading.BlankLine? || reading.RecipeLine?))
  }

  // ---- a run of lines ----

  datatype Make = Make(prefix: char, store: Store, open: bool)

  /** Make goes on, has stopped with an error, or has met a line that is not modelled. */
  datatype Progress = Running(make: Make) | Stopped | Beyond

  const RECIPE_PREFIX := ".RECIPEPREFIX"

  function Define(m: Make, name: string, op: Operator, value: string, world: World): Progress {
    if name == "" then Stopped
    else if name == RECIPE_PREFIX then
      if (op == Recursive || op == Simple) && '$' !in value then
        Running(m.(prefix := if value == "" then '\t' else value[0]))
      else Beyond
    else if '$' in name then Beyond
    else
      var store := Assign(m.store, name, op, value, world);
      if store.None? then Stopped else Running(m.(store := store.value))
  }

  /** The effect of a line. The prerequisites of a rule are expanded at once, its recipe is not. */
  function Step(reading: Reading, m: Make, world: World): Progress {
    var next := m.(open := OpenAfter(reading, m.open));
    match reading
    case AssignmentLine(name, op, value) => Define(next, name, op, value, world)
    case UndefineLine(name) =>
      if name == "" then Stopped
      else if '$' in name || name == RECIPE_PREFIX then Beyond
      else Running(next.(store := m.store - {name}))
    case RuleLine(_, prerequisites, _) =>
      if Expand(prerequisites, m.store, world, {}).None? then Stopped else Running(next)
    case ComputedRule(text) =>
      var open := world.rule(text, m.store);
      if open.None? then Stopped else Running(m.(open := open.value))
    case Fault => Stopped
    case Foreign => Beyond
    case _ => Running(next)
  }

  function MakeAfter(lines: seq<string>, m: Make, world: World): Progress {
    if lines == [] then Running(m) else
    var next := Step(Reads(lines[0], m.prefix, m.open), m, world);
    if next.Running? then MakeAfter(lines[1..], next.make, world) else next
  }

  /** Every environment variable is a recursive variable of the same name. */
  function FromEnvironment(env: map<string, string>): Make {
    Make('\t', map n | n in env :: Lazy(env[n]), false)
  }

  /** The recipe lines of the rule in front of these lines. */
  function RecipeOf(lines: seq<Logical>, prefix: char): seq<Logical> {
    if lines == [] then [] else
    var reading := Reads(lines[0].text, prefix, true);
    if reading.RecipeLine? then [Logical(lines[0].start, reading.text)] + RecipeOf(lines[1..], prefix)
    else if reading.BlankLine? then RecipeOf(lines[1..], prefix)
    else []
  }
}
