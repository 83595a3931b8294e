/** Verification of a `sha256sum`-style manifest. */
module ChecksumManifest {
  import opened Ordering
  import opened Paths
  import opened Strings

  /** What a name below the root is: a link or a file outside, nothing, or a regular file with this digest. */
  datatype Target = Unreachable | Absent | File(digest: string)

  datatype Complaint =
    | NoManifest | Malformed | Duplicate | BadDigest | UnsafePath | UnsafeFile | MissingFile | Mismatch | Empty

  datatype Problem = Problem(line: nat, complaint: Complaint)

  const HEX := 64
  const SEPARATOR := "  "
  const OFFSET := 66

  datatype Entry = Entry(digest: string, name: string)

  function ReadEntry(raw: string): Option<Entry> {
    if |raw| < OFFSET + 1 || raw[HEX..OFFSET] != SEPARATOR then None else Some(Entry(raw[..HEX], raw[OFFSET..]))
  }

  predicate IsSafe(name: string) {
    !IsAbsolute(name) && ".." !in Parts(name) && name != "" && name != "."
  }

  predicate IsDigest(digest: string) { forall c <- digest :: IsHex(c) }

  /** What is wrong with an entry by itself. */
  function FaultOf(entry: Entry, lookup: string -> Target): Option<Complaint> {
    if !IsDigest(entry.digest) then Some(BadDigest)
    else if !IsSafe(entry.name) then Some(UnsafePath)
    else match lookup(entry.name)
      case Unreachable => Some(UnsafeFile)
      case Absent => Some(MissingFile)
      case File(digest) => if digest == entry.digest then None else Some(Mismatch)
  }

  /** A line read by itself: the name of a well-formed entry, and what is wrong besides a repeated name. */
  datatype Reading = Reading(name: Option<string>, own: Option<Complaint>)

  function ReadLine(raw: string, lookup: string -> Target): Reading {
    if !NonBlank(raw) then Reading(None, None)
    else if ReadEntry(raw).None? then Reading(None, Some(Malformed))
    else Reading(Some(ReadEntry(raw).value.name), FaultOf(ReadEntry(raw).value, lookup))
  }

  function ReadAll(lines: seq<string>, lookup: string -> Target): (r: seq<Reading>)
    ensures |r| == |lines|
  {
    seq(|lines|, i requires 0 <= i < |lines| => ReadLine(lines[i], lookup))
  }

  predicate IsNew(name: Option<string>, names: seq<string>) { name.Some? ==> name.value !in names }

  /** What is reported of a line: the first thing found. */
  function Fault(reading: Reading, isNew: bool): Option<Complaint> {
    if isNew then reading.own else Some(Duplicate)
  }

  function Listed(name: Option<string>): seq<string> { if name.Some? then [name.value] else [] }

  /** The names of the well-formed lines among the first `n`. */
  function Names(readings: seq<Reading>, n: nat): seq<string>
    requires n <= |readings|
  {
    if n == 0 then [] else Names(readings, n - 1) + Listed(readings[n - 1].name)
  }

  function Reported(fault: Option<Complaint>, line: nat): seq<Problem> {
    if fault.Some? then [Problem(line, fault.value)] else []
  }

  function Problems(readings: seq<Reading>, n: nat): seq<Problem>
    requires n <= |readings|
  {
    if n == 0 then [] else
    Problems(readings, n - 1) + Reported(Fault(readings[n - 1], IsNew(readings[n - 1].name, Names(readings, n - 1))), n)
  }

  /** All problems of a manifest, the empty one included. */
  function Report(lines: seq<string>, lookup: string -> Target): seq<Problem> {
    var readings := ReadAll(lines, lookup);
    Problems(readings, |lines|) + if Names(readings, |lines|) == [] then [Problem(0, Empty)] else []
  }

  method VerifyLines(lines: seq<string>, lookup: string -> Target) returns (errors: seq<Problem>)
    ensures errors == Report(lines, lookup)
  {
    hide ReadLine;
    errors := [];
    var seen: set<string> := {};
    var entries := 0;
    ghost var readings := ReadAll(lines, lookup);
    for i := 0 to |lines|
      invariant errors == Problems(readings, i)
      invariant seen == Elements(Names(readings, i)) && entries == |Names(readings, i)|
    {
      var name, complaint := CheckLine(lines[i], seen, lookup);
      ghost var names := Names(readings, i);
      ListedMore(names, name);
      SeenIsNames(seen, names, name);
      assert readings[i] == ReadLine(lines[i], lookup);
      assert Names(readings, i + 1) == names + Listed(name);
      errors := errors + Reported(complaint, i + 1);
      entries := entries + |Listed(name)|;
      seen := seen + Elements(Listed(name));
    }
    if entries == 0 {
      errors := errors + [Problem(0, Empty)];
    }
  }

  lemma SeenIsNames(seen: set<string>, names: seq<string>, name: Option<string>)
    requires seen == Elements(names)
    ensures IsNew(name, names) <==> (name.Some? ==> name.value !in seen)
  {
  }

  /** The text is None where the manifest is a link or no file. */
  method VerifyChecksumManifest(text: Option<string>, lookup: string -> Target) returns (errors: seq<Problem>)
    ensures errors == if text.None? then [Problem(0, NoManifest)] else Report(Splitlines(text.value), lookup)
  {
    if text.None? {
      return [Problem(0, NoManifest)];
    }
    errors := VerifyLines(Splitlines(text.value), lookup);
  }

  method CheckLine(raw: string, seen: set<string>, lookup: string -> Target)
    returns (name: Option<string>, complaint: Option<Complaint>)
    ensures name == ReadLine(raw, lookup).name
    ensures complaint == Fault(ReadLine(raw, lookup), name.Some? ==> name.value !in seen)
  {
    if !NonBlank(raw) {
      return None, None;
    }
    var entry := ReadEntry(raw);
    if entry.None? {
      return None, Some(Malformed);
    }
    name := Some(entry.value.name);
    if entry.value.name in seen {
      return name, Some(Duplicate);
    }
    complaint := CheckFile(entry.value.digest, entry.value.name, lookup);
  }

  method CheckFile(digest: string, name: string, lookup: string -> Target) returns (complaint: Option<Complaint>)
    ensures complaint == FaultOf(Entry(digest, name), lookup)
  {
    if !IsDigest(digest) {
      return Some(BadDigest);
    }
    if !IsSafe(name) {
      return Some(UnsafePath);
    }
    var target := lookup(name);
    if target.Unreachable? {
      return Some(UnsafeFile);
    }
    if target.Absent? {
      return Some(MissingFile);
    }
    return if target.digest == digest then None else Some(Mismatch);
  }

  lemma ListedMore(names: seq<string>, name: Option<string>)
    ensures |names + Listed(name)| == |names| + |Listed(name)|
    ensures Elements(names + Listed(name)) == Elements(names) + Elements(Listed(name))
    ensures name.Some? ==> Elements(Listed(name)) == {name.value}
    ensures Distinct(names + Listed(name)) <==> Distinct(names) && IsNew(name, names)
  {
    if name.Some? {
      DistinctOneMore(names, name.value);
    } else {
      assert names + [] == names;
    }
  }

  // ---- what it means to pass ----

  /** The line is blank, or names a safe regular file below the root by its digest. */
  predicate Holds(raw: string, lookup: string -> Target) {
    NonBlank(raw) ==>
      && ReadEntry(raw).Some? && IsDigest(ReadEntry(raw).value.digest) && IsSafe(ReadEntry(raw).value.name)
      && lookup(ReadEntry(raw).value.name) == File(ReadEntry(raw).value.digest)
  }

  /** No line among the first `n` is wrong by itself or repeats a name. */
  predicate Clean(readings: seq<Reading>, n: nat)
    requires n <= |readings|
  {
    n == 0 ||
    (Clean(readings, n - 1) && readings[n - 1].own.None? && IsNew(readings[n - 1].name, Names(readings, n - 1)))
  }

  lemma {:induction false} NoProblems(readings: seq<Reading>, n: nat)
    requires n <= |readings|
    ensures Problems(readings, n) == [] <==> Clean(readings, n)
  {
    hide Names, Fault, Reported, IsNew;
    if n > 0 {
      NoProblems(readings, n - 1);
      NothingReported(Problems(readings, n - 1), readings[n - 1], Names(readings, n - 1), n);
    }
  }

  lemma NothingReported(before: seq<Problem>, reading: Reading, names: seq<string>, n: nat)
    ensures before + Reported(Fault(reading, IsNew(reading.name, names)), n) == [] <==>
      before == [] && reading.own.None? && IsNew(reading.name, names)
  {
    var more := Reported(Fault(reading, IsNew(reading.name, names)), n);
    assert |before + more| == |before| + |more|;
  }

  lemma {:induction false} CleanMeans(readings: seq<Reading>, n: nat)
    requires n <= |readings|
    ensures Clean(readings, n) <==> Distinct(Names(readings, n)) && forall i :: 0 <= i < n ==> readings[i].own.None?
  {
    if n > 0 {
      CleanMeans(readings, n - 1);
      ListedMore(Names(readings, n - 1), readings[n - 1].name);
    }
  }

  lemma ReadingHolds(raw: string, lookup: string -> Target)
    ensures ReadLine(raw, lookup).own.None? <==> Holds(raw, lookup)
  {
  }

  /** A manifest passes exactly when it has an entry, names no path twice, and every line that is not blank
      names a safe regular file below the root with the digest it has. */
  lemma PassesIff(lines: seq<string>, lookup: string -> Target)
    ensures Report(lines, lookup) == [] <==>
      var names := Names(ReadAll(lines, lookup), |lines|);
      names != [] && Distinct(names) && forall raw <- lines :: Holds(raw, lookup)
  {
    var readings := ReadAll(lines, lookup);
    NoProblems(readings, |lines|);
    CleanMeans(readings, |lines|);
    forall i | 0 <= i < |lines|
      ensures readings[i].own.None? <==> Holds(lines[i], lookup)
    {
      ReadingHolds(lines[i], lookup);
    }
  }

  // ---- round trip ----

  /** A name that can stand on a line of its own. */
  predicate IsEntry(entry: Entry) {
    && |entry.digest| == HEX && IsDigest(entry.digest) && IsSafe(entry.name) && Unbroken(entry.name)
  }

  function Print(entry: Entry): string { entry.digest + (SEPARATOR + entry.name) }

  function PrintAll(entries: seq<Entry>): seq<string> {
    seq(|entries|, i requires 0 <= i < |entries| => Print(entries[i]))
  }

  function NamesOf(entries: seq<Entry>): seq<string> {
    seq(|entries|, i requires 0 <= i < |entries| => entries[i].name)
  }

  lemma EntryRoundTrip(entry: Entry)
    requires IsEntry(entry)
    ensures ReadEntry(Print(entry)) == Some(entry) && NonBlank(Print(entry)) && Unbroken(Print(entry))
  {
    var raw := Print(entry);
    assert raw[..HEX] == entry.digest && raw[HEX..OFFSET] == SEPARATOR && raw[OFFSET..] == entry.name;
    assert raw[0] == entry.digest[0] && entry.digest[0] in entry.digest;
    forall i | 0 <= i < |raw|
      ensures !IsLineBreak(raw[i])
    {
      if i < HEX {
        assert raw[i] == entry.digest[i] && entry.digest[i] in entry.digest;
      } else if i >= OFFSET {
        assert raw[i] == entry.name[i - OFFSET];
      }
    }
  }

  lemma {:induction false} PrintedNames(entries: seq<Entry>, n: nat, lookup: string -> Target)
    requires n <= |entries| && forall entry <- entries :: IsEntry(entry)
    ensures Names(ReadAll(PrintAll(entries), lookup), n) == NamesOf(entries)[..n]
  {
    if n > 0 {
      PrintedNames(entries, n - 1, lookup);
      EntryRoundTrip(entries[n - 1]);
      assert NamesOf(entries)[..n] == NamesOf(entries)[..n - 1] + [entries[n - 1].name];
    }
  }

  /** The text of a manifest. */
  function Manifest(entries: seq<Entry>): string { JoinLines(PrintAll(entries)) }

  lemma ManifestLines(entries: seq<Entry>)
    requires forall entry <- entries :: IsEntry(entry)
    ensures Splitlines(Manifest(entries)) == PrintAll(entries)
  {
    var lines := PrintAll(entries);
    forall i | 0 <= i < |lines|
      ensures Unbroken(lines[i]) && lines[i] != ""
    {
      assert entries[i] in entries;
      EntryRoundTrip(entries[i]);
    }
    JoinThenSplit(lines);
  }

  /** A manifest printed from safe, distinct names passes exactly as long as every file has the digest it was
      printed with: every change, removal or relinking of a listed file is seen. */
  lemma ManifestSeesEveryChange(entries: seq<Entry>, lookup: string -> Target)
    requires entries != [] && Distinct(NamesOf(entries)) && forall entry <- entries :: IsEntry(entry)
    ensures Report(Splitlines(Manifest(entries)), lookup) == [] <==>
      forall entry <- entries :: lookup(entry.name) == File(entry.digest)
  {
    ManifestLines(entries);
    PrintedNames(entries, |entries|, lookup);
    assert NamesOf(entries)[..|entries|] == NamesOf(entries);
    var lines := PrintAll(entries);
    PassesIff(lines, lookup);
    forall i | 0 <= i < |entries|
      ensures Holds(lines[i], lookup) <==> lookup(entries[i].name) == File(entries[i].digest)
    {
      PrintedHolds(entries[i], lookup);
    }
    PointwiseIff(lines, entries, lookup);
  }

  lemma PrintedHolds(entry: Entry, lookup: string -> Target)
    requires IsEntry(entry)
    ensures Holds(Print(entry), lookup) <==> lookup(entry.name) == File(entry.digest)
  {
    EntryRoundTrip(entry);
  }

  lemma PointwiseIff(lines: seq<string>, entries: seq<Entry>, lookup: string -> Target)
    requires |lines| == |entries|
    requires forall i :: 0 <= i < |entries| ==>
      (Holds(lines[i], lookup) <==> lookup(entries[i].name) == File(entries[i].digest))
    ensures (forall raw <- lines :: Holds(raw, lookup)) <==>
      forall entry <- entries :: lookup(entry.name) == File(entry.digest)
  {
    if forall raw <- lines :: Holds(raw, lookup) {
      forall entry <- entries
        ensures lookup(entry.name) == File(entry.digest)
      {
        var i :| 0 <= i < |entries| && entries[i] == entry;
        assert lines[i] in lines;
      }
    } else {
      var raw :| raw in lines && !Holds(raw, lookup);
      var i :| 0 <= i < |lines| && lines[i] == raw;
      assert entries[i] in entries;
    }
  }

  // ---- exactly what is reported ----

  /** The line is sixty-four characters, two blanks and a name. */
  predicate Spells(raw: string, digest: string, name: string) {
    raw == digest + ("  " + name) && |digest| == 64 && name != ""
  }

  lemma ReadEntryIff(raw: string, entry: Entry)
    ensures ReadEntry(raw) == Some(entry) <==> Spells(raw, entry.digest, entry.name)
  {
    if ReadEntry(raw) == Some(entry) {
      assert raw == raw[..64] + (raw[64..66] + raw[66..]);
    }
    if Spells(raw, entry.digest, entry.name) {
      assert raw[..64] == entry.digest && raw[64..66] == "  " && raw[66..] == entry.name;
    }
  }

  /** A name stays below the root: it is not absolute, not the root itself, and no component leads upwards. */
  lemma SafeIff(name: string)
    ensures IsSafe(name) <==>
      name != "" && name != "." && name[0] != '/' && ".." !in SplitOn(name, '/')
  {
    PartsAreComponents(SplitOn(name, '/'));
  }

  /** An entry is wrong by itself for the first of: a character of the digest, the path, what it leads to. */
  predicate IsWrong(digest: string, name: string, lookup: string -> Target, complaint: Complaint) {
    var hex := forall c <- digest :: c in "0123456789abcdef";
    match complaint
    case BadDigest => !hex
    case UnsafePath => hex && !IsSafe(name)
    case UnsafeFile => hex && IsSafe(name) && lookup(name) == Unreachable
    case MissingFile => hex && IsSafe(name) && lookup(name) == Absent
    case Mismatch => hex && IsSafe(name) && lookup(name).File? && lookup(name).digest != digest
    case _ => false
  }

  lemma HexIs(c: char)
    ensures IsHex(c) <==> c in "0123456789abcdef"
  {
    var digits := "0123456789abcdef";
    assert digits[0] == '0' && digits[1] == '1' && digits[2] == '2' && digits[3] == '3';
    assert digits[4] == '4' && digits[5] == '5' && digits[6] == '6' && digits[7] == '7';
    assert digits[8] == '8' && digits[9] == '9' && digits[10] == 'a' && digits[11] == 'b';
    assert digits[12] == 'c' && digits[13] == 'd' && digits[14] == 'e' && digits[15] == 'f';
  }

  lemma FaultIff(entry: Entry, lookup: string -> Target, complaint: Complaint)
    ensures FaultOf(entry, lookup) == Some(complaint) <==> IsWrong(entry.digest, entry.name, lookup, complaint)
  {
    hide IsSafe;
    forall c <- entry.digest
      ensures IsHex(c) <==> c in "0123456789abcdef"
    {
      HexIs(c);
    }
  }

  /** Line `i` spells this name. */
  ghost predicate IsNamed(lines: seq<string>, i: nat, name: string) {
    i < |lines| && NonBlank(lines[i]) && exists digest :: Spells(lines[i], digest, name)
  }

  /** What is reported of line `i`: that it is malformed, that it repeats the name of a line above it, or else what is
      wrong with it by itself. Blank lines are passed over. */
  ghost predicate Complains(lines: seq<string>, i: nat, lookup: string -> Target, complaint: Complaint)
    requires i < |lines|
  {
    && NonBlank(lines[i])
    && ((complaint == Malformed && forall digest, name :: !Spells(lines[i], digest, name))
        || exists digest, name ::
             && Spells(lines[i], digest, name)
             && if exists j :: 0 <= j < i && IsNamed(lines, j, name) then complaint == Duplicate
                else IsWrong(digest, name, lookup, complaint))
  }

  lemma ReadingIs(raw: string, lookup: string -> Target, entry: Entry)
    ensures
      var reading := ReadLine(raw, lookup);
      && (!NonBlank(raw) ==> reading == Reading(None, None))
      && (NonBlank(raw) && Spells(raw, entry.digest, entry.name) ==>
            reading == Reading(Some(entry.name), FaultOf(entry, lookup)))
      && (NonBlank(raw) && (forall digest, name :: !Spells(raw, digest, name)) ==>
            reading == Reading(None, Some(Malformed)))
  {
    hide FaultOf, Spells;
    ReadEntryIff(raw, entry);
    if ReadEntry(raw).Some? {
      ReadEntryIff(raw, ReadEntry(raw).value);
    }
  }

  lemma NameIs(raw: string, lookup: string -> Target, name: string)
    ensures ReadLine(raw, lookup).name == Some(name) <==>
      NonBlank(raw) && exists digest :: Spells(raw, digest, name)
  {
    hide FaultOf, Spells;
    if ReadEntry(raw).Some? {
      ReadEntryIff(raw, ReadEntry(raw).value);
    }
    forall digest | Spells(raw, digest, name)
      ensures ReadEntry(raw) == Some(Entry(digest, name))
    {
      ReadEntryIff(raw, Entry(digest, name));
    }
  }

  lemma {:induction false} NamesAre(lines: seq<string>, lookup: string -> Target, n: nat, name: string)
    requires n <= |lines|
    ensures name in Names(ReadAll(lines, lookup), n) <==> exists j :: 0 <= j < n && IsNamed(lines, j, name)
  {
    hide ReadLine, Spells;
    if n > 0 {
      NamesAre(lines, lookup, n - 1, name);
      NameIs(lines[n - 1], lookup, name);
      assert IsNamed(lines, n - 1, name) <==> ReadAll(lines, lookup)[n - 1].name == Some(name);
    }
  }

  lemma LineComplains(lines: seq<string>, i: nat, lookup: string -> Target, complaint: Complaint)
    requires i < |lines|
    ensures
      var readings := ReadAll(lines, lookup);
      Fault(readings[i], IsNew(readings[i].name, Names(readings, i))) == Some(complaint) <==>
        Complains(lines, i, lookup, complaint)
  {
    hide ReadLine, Spells, FaultOf, IsWrong;
    var raw := lines[i];
    var readings := ReadAll(lines, lookup);
    if digest, name :| Spells(raw, digest, name) {
      var entry := Entry(digest, name);
      ReadEntryIff(raw, entry);
      ReadingIs(raw, lookup, entry);
      NamesAre(lines, lookup, i, name);
      FaultIff(entry, lookup, complaint);
      forall d, n | Spells(raw, d, n)
        ensures d == digest && n == name
      {
        ReadEntryIff(raw, Entry(d, n));
      }
    } else {
      ReadingIs(raw, lookup, Entry("", ""));
    }
  }

  lemma {:induction false} ProblemsIff(lines: seq<string>, lookup: string -> Target, n: nat, p: Problem)
    requires n <= |lines|
    ensures p in Problems(ReadAll(lines, lookup), n) <==>
      1 <= p.line <= n && Complains(lines, p.line - 1, lookup, p.complaint)
  {
    hide ReadLine, Complains, Names, IsNew, Fault;
    if n > 0 {
      ProblemsIff(lines, lookup, n - 1, p);
      LineComplains(lines, n - 1, lookup, p.complaint);
    }
  }

  /** Every problem is reported, with the number of its line, and nothing else is; a manifest without any entry is one
      problem more. */
  lemma ReportIff(lines: seq<string>, lookup: string -> Target, p: Problem)
    ensures p in Report(lines, lookup) <==>
      || (1 <= p.line <= |lines| && Complains(lines, p.line - 1, lookup, p.complaint))
      || (p == Problem(0, Empty) && forall j, name :: 0 <= j < |lines| ==> !IsNamed(lines, j, name))
  {
    hide ReadLine, Complains, IsNamed;
    ProblemsIff(lines, lookup, |lines|, p);
    var names := Names(ReadAll(lines, lookup), |lines|);
    forall name
      ensures name in names <==> exists j :: 0 <= j < |lines| && IsNamed(lines, j, name)
    {
      NamesAre(lines, lookup, |lines|, name);
    }
    if names == [] {
      forall j, name | 0 <= j < |lines|
        ensures !IsNamed(lines, j, name)
      {
        assert name !in names;
      }
    } else {
      assert names[0] in names;
    }
  }

  predicate RiseTo(problems: seq<Problem>, n: nat) {
    && (forall i :: 0 <= i < |problems| ==> problems[i].line <= n)
    && forall i, j :: 0 <= i < j < |problems| ==> problems[i].line < problems[j].line
  }

  /** Line by line, at most one problem each. */
  lemma {:induction false} ProblemsRise(readings: seq<Reading>, n: nat)
    requires n <= |readings|
    ensures RiseTo(Problems(readings, n), n)
  {
    hide Names, Fault, IsNew;
    if n > 0 {
      ProblemsRise(readings, n - 1);
    }
  }
}
