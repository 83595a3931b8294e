/** The repositories the registry requires, projected into the verifier policy with a receipt. */
module RegistryProjection {
  import opened Documents
  import opened Ordering
  import opened Strings

  /** `str.casefold`, SHA-256 in hex of a text, and `str` of a document value. */
  datatype Host = Host(fold: string -> string, digest: string -> string, show: Value -> string)

  datatype Fault =
    | NoMapping | WrongSchema | NotCanonical | NoRepositories | NoneCurrent
    | BadEntry | BadId | BadProvider(id: string) | BadOwner(id: string) | BadName(id: string)
    | Duplicate(id: string) | NoClass(id: string) | BadLifecycle(id: string)
    | TypeError

  datatype Result<+T> = Ok(value: T) | Err(fault: Fault)

  // ---- one entry ----

  predicate IsNameChar(c: char) {
    'A' <= c <= 'Z' || 'a' <= c <= 'z' || '0' <= c <= '9' || c == '_' || c == '.' || c == '-'
  }

  predicate IsName(v: Value) { v.Text? && v.s != "" && forall c <- v.s :: IsNameChar(c) }

  predicate IsFilled(v: Value) { v.Text? && v.s != "" }

  const LIFECYCLES := {"current", "superseded", "retired"}

  datatype Member = Member(id: string, name: string, current: bool)

  predicate NamesGithub(e: Value)
    requires e.Mapping?
  {
    var coordinate := Get(e, "coordinate");
    coordinate.Mapping? && Get(coordinate, "provider") == Text("github")
  }

  predicate HasCoordinate(e: Value)
    requires e.Mapping?
  {
    NamesGithub(e) &&
    IsName(Get(Get(e, "coordinate"), "organization")) && IsName(Get(Get(e, "coordinate"), "repository"))
  }

  function FullName(e: Value): string
    requires e.Mapping? && HasCoordinate(e)
  {
    Get(Get(e, "coordinate"), "organization").s + "/" + Get(Get(e, "coordinate"), "repository").s
  }

  /** A well-formed entry read by itself. */
  function Read(e: Value): Option<Member> {
    if e.Mapping? && IsFilled(Get(e, "id")) && HasCoordinate(e) && IsFilled(Get(e, "class_ref"))
      && Get(e, "lifecycle").Text? && Get(e, "lifecycle").s in LIFECYCLES
    then Some(Member(Get(e, "id").s, FullName(e), Get(e, "lifecycle").s == "current"))
    else None
  }

  // ---- the loop ----

  datatype Seen = Seen(ids: set<string>, folds: set<string>, required: seq<string>)

  /** One turn of the loop, its checks in the order of the source. A lifecycle that cannot be hashed is no
      `ProjectionError` there. */
  function Take(e: Value, seen: Seen, host: Host): Result<Seen> {
    if !e.Mapping? then Err(BadEntry) else
    var id := Get(e, "id");
    if !IsFilled(id) || id.s in seen.ids then Err(BadId)
    else if !NamesGithub(e) then Err(BadProvider(id.s))
    else if !IsName(Get(Get(e, "coordinate"), "organization")) then Err(BadOwner(id.s))
    else if !IsName(Get(Get(e, "coordinate"), "repository")) then Err(BadName(id.s))
    else if host.fold(FullName(e)) in seen.folds then Err(Duplicate(id.s))
    else if !IsFilled(Get(e, "class_ref")) then Err(NoClass(id.s))
    else if Get(e, "lifecycle").List? || Get(e, "lifecycle").Mapping? then Err(TypeError)
    else if !Get(e, "lifecycle").Text? || Get(e, "lifecycle").s !in LIFECYCLES then Err(BadLifecycle(id.s))
    else Ok(Seen(seen.ids + {id.s}, seen.folds + {host.fold(FullName(e))},
      if Get(e, "lifecycle").s == "current" then seen.required + [FullName(e)] else seen.required))
  }

  function TakeAll(entries: seq<Value>, seen: Seen, host: Host): Result<Seen>
    decreases |entries|
  {
    if entries == [] then Ok(seen) else
    var next := Take(entries[0], seen, host);
    if next.Err? then next else TakeAll(entries[1..], next.value, host)
  }

  /** `sorted(xs, key=fold)`: stable insertion. */
  function InsertBy(x: string, xs: seq<string>, fold: string -> string): seq<string> {
    if xs == [] || !Less(fold(xs[0]), fold(x)) then [x] + xs else [xs[0]] + InsertBy(x, xs[1..], fold)
  }

  function SortedBy(xs: seq<string>, fold: string -> string): seq<string> {
    if xs == [] then [] else InsertBy(xs[0], SortedBy(xs[1..], fold), fold)
  }

  const SCHEMA := Text("l9.repository-registry/v1")
  const ARTIFACT := Text("l9.repository-registry/global@1")
  const NOTHING := Seen({}, {}, [])

  function Header(registry: Value): Result<seq<Value>> {
    if !registry.Mapping? then Err(NoMapping)
    else if Get(registry, "schema") != SCHEMA then Err(WrongSchema)
    else if Get(registry, "artifact_id") != ARTIFACT || Get(registry, "canonical") != Bool(true) then Err(NotCanonical)
    else if !Get(registry, "repositories").List? || Get(registry, "repositories").items == [] then Err(NoRepositories)
    else Ok(Get(registry, "repositories").items)
  }

  function ProjectedEntries(entries: seq<Value>, host: Host): Result<seq<string>> {
    var seen := TakeAll(entries, NOTHING, host);
    if seen.Err? then Err(seen.fault)
    else if seen.value.required == [] then Err(NoneCurrent)
    else Ok(SortedBy(seen.value.required, host.fold))
  }

  function Projected(registry: Value, host: Host): Result<seq<string>> {
    var entries := Header(registry);
    if entries.Err? then Err(entries.fault) else ProjectedEntries(entries.value, host)
  }

  method Project(registry: Value, host: Host) returns (r: Result<seq<string>>)
    ensures r == Projected(registry, host)
  {
    var header := Header(registry);
    if header.Err? {
      return Err(header.fault);
    }
    var entries := header.value;
    var ids: set<string>, folds: set<string>, required: seq<string> := {}, {}, [];
    assert entries[0..] == entries;
    for i := 0 to |entries|
      invariant TakeAll(entries, NOTHING, host) == TakeAll(entries[i..], Seen(ids, folds, required), host)
    {
      assert entries[i..][1..] == entries[i + 1..];
      var next := Take(entries[i], Seen(ids, folds, required), host);
      if next.Err? {
        return Err(next.fault);
      }
      ids, folds, required := next.value.ids, next.value.folds, next.value.required;
    }
    if required == [] {
      return Err(NoneCurrent);
    }
    return Ok(SortedBy(required, host.fold));
  }

  // ---- what is accepted ----

  function Ids(members: seq<Member>): seq<string> { seq(|members|, i requires 0 <= i < |members| => members[i].id) }

  function Folds(members: seq<Member>, fold: string -> string): seq<string> {
    seq(|members|, i requires 0 <= i < |members| => fold(members[i].name))
  }

  function Current(members: seq<Member>): seq<string> {
    if members == [] then [] else
    var n := |members| - 1;
    Current(members[..n]) + (if members[n].current then [members[n].name] else [])
  }

  predicate AllRead(entries: seq<Value>) { forall e <- entries :: Read(e).Some? }

  function Members(entries: seq<Value>): (r: seq<Member>)
    requires AllRead(entries)
    ensures |r| == |entries|
  {
    seq(|entries|, i requires 0 <= i < |entries| => Read(entries[i]).value)
  }

  /** The members seen so far. */
  function SeenOf(members: seq<Member>, fold: string -> string): Seen {
    Seen(Elements(Ids(members)), Elements(Folds(members, fold)), Current(members))
  }

  /** Every entry is well-formed, and no two share an id or, up to case, a coordinate. */
  predicate Acceptable(entries: seq<Value>, host: Host) {
    AllRead(entries) && Distinct(Ids(Members(entries))) && Distinct(Folds(Members(entries), host.fold))
  }

  lemma TakeReads(e: Value, seen: Seen, host: Host)
    ensures
      var m := Read(e);
      Take(e, seen, host).Ok? <==> m.Some? && m.value.id !in seen.ids && host.fold(m.value.name) !in seen.folds
    ensures
      var m := Read(e);
      Take(e, seen, host).Ok? ==> Take(e, seen, host).value == Seen(
        seen.ids + {m.value.id}, seen.folds + {host.fold(m.value.name)},
        seen.required + if m.value.current then [m.value.name] else [])
  {
  }

  lemma SeenOneMore(members: seq<Member>, m: Member, fold: string -> string)
    ensures SeenOf(members + [m], fold) == Seen(
      Elements(Ids(members)) + {m.id}, Elements(Folds(members, fold)) + {fold(m.name)},
      Current(members) + if m.current then [m.name] else [])
    ensures Distinct(Ids(members + [m])) <==> Distinct(Ids(members)) && m.id !in Elements(Ids(members))
    ensures Distinct(Folds(members + [m], fold)) <==>
      Distinct(Folds(members, fold)) && fold(m.name) !in Elements(Folds(members, fold))
  {
    assert (members + [m])[..|members|] == members;
    assert Ids(members + [m]) == Ids(members) + [m.id];
    assert Folds(members + [m], fold) == Folds(members, fold) + [fold(m.name)];
    DistinctOneMore(Ids(members), m.id);
    DistinctOneMore(Folds(members, fold), fold(m.name));
  }

  lemma PrefixIsAcceptable(entries: seq<Value>, host: Host, n: nat)
    requires n <= |entries|
    ensures Acceptable(entries, host) ==> Acceptable(entries[..n], host)
  {
    if Acceptable(entries, host) {
      forall e <- entries[..n]
        ensures Read(e).Some?
      {
        assert e in entries;
      }
      var all, some := Members(entries), Members(entries[..n]);
      assert forall i :: 0 <= i < n ==>
        Ids(some)[i] == Ids(all)[i] && Folds(some, host.fold)[i] == Folds(all, host.fold)[i];
    }
  }

  /** The loop goes through exactly on acceptable entries, and has then seen their members. */
  lemma {:induction false} TakeAllAccepts(before: seq<Value>, rest: seq<Value>, host: Host)
    requires Acceptable(before, host)
    ensures
      var r := TakeAll(rest, SeenOf(Members(before), host.fold), host);
      && (r.Ok? <==> Acceptable(before + rest, host))
      && (r.Ok? ==> r.value == SeenOf(Members(before + rest), host.fold))
    decreases |rest|
  {
    if rest == [] {
      assert before + rest == before;
    } else {
      var now := before + [rest[0]];
      assert before + rest == now + rest[1..];
      AcceptOneMore(before, rest[0], host);
      assert (before + rest)[..|now|] == now;
      PrefixIsAcceptable(before + rest, host, |now|);
      if Acceptable(now, host) {
        TakeAllAccepts(now, rest[1..], host);
      }
    }
  }

  lemma AcceptOneMore(before: seq<Value>, e: Value, host: Host)
    requires Acceptable(before, host)
    ensures
      var r := Take(e, SeenOf(Members(before), host.fold), host);
      && (r.Ok? <==> Acceptable(before + [e], host))
      && (r.Ok? ==> r.value == SeenOf(Members(before + [e]), host.fold))
  {
    hide Read, Take;
    TakeReads(e, SeenOf(Members(before), host.fold), host);
    assert e in before + [e];
    if Read(e).Some? {
      SeenOneMore(Members(before), Read(e).value, host.fold);
      assert Members(before + [e]) == Members(before) + [Read(e).value];
    }
  }

  // ---- the order ----

  function FoldAll(xs: seq<string>, fold: string -> string): seq<string> {
    seq(|xs|, i requires 0 <= i < |xs| => fold(xs[i]))
  }

  /** Strictly ordered by casefold key: so no two names differ only in case. */
  predicate Canonical(xs: seq<string>, fold: string -> string) { StrictlySorted(FoldAll(xs, fold)) }

  lemma {:induction false} InsertByKeeps(x: string, xs: seq<string>, fold: string -> string)
    requires Canonical(xs, fold) && fold(x) !in FoldAll(xs, fold)
    ensures Canonical(InsertBy(x, xs, fold), fold) && Elements(InsertBy(x, xs, fold)) == Elements(xs) + {x}
  {
    if xs == [] {
    } else if !Less(fold(xs[0]), fold(x)) {
      assert fold(xs[0]) == FoldAll(xs, fold)[0];
      LessIsTotal(fold(x), fold(xs[0]));
      CanonicalCons(x, xs, fold);
      ElementsCons(x, xs);
    } else {
      assert FoldAll(xs[1..], fold) == FoldAll(xs, fold)[1..];
      InsertByKeeps(x, xs[1..], fold);
      PutInFront(x, xs, InsertBy(x, xs[1..], fold), fold);
    }
  }

  /** The head of `xs` in front of what the rest has become. */
  lemma PutInFront(x: string, xs: seq<string>, rest: seq<string>, fold: string -> string)
    requires xs != [] && Canonical(xs, fold) && Less(fold(xs[0]), fold(x))
    requires Canonical(rest, fold) && Elements(rest) == Elements(xs[1..]) + {x}
    ensures Canonical([xs[0]] + rest, fold) && Elements([xs[0]] + rest) == Elements(xs) + {x}
  {
    forall y <- rest
      ensures Less(fold(xs[0]), fold(y))
    {
      assert y in Elements(rest);
      if y != x {
        var i :| 0 <= i < |xs[1..]| && xs[1..][i] == y;
        assert Less(FoldAll(xs, fold)[0], FoldAll(xs, fold)[i + 1]);
      }
    }
    CanonicalPut(xs[0], rest, fold);
    ElementsCons(xs[0], rest);
    ElementsCons(xs[0], xs[1..]);
    assert xs == [xs[0]] + xs[1..];
  }

  lemma ElementsCons(x: string, xs: seq<string>)
    ensures Elements([x] + xs) == {x} + Elements(xs)
  {
  }

  lemma CanonicalPut(x: string, xs: seq<string>, fold: string -> string)
    requires Canonical(xs, fold) && forall y <- xs :: Less(fold(x), fold(y))
    ensures Canonical([x] + xs, fold)
  {
    assert FoldAll([x] + xs, fold) == [fold(x)] + FoldAll(xs, fold);
  }

  lemma CanonicalCons(x: string, xs: seq<string>, fold: string -> string)
    requires xs != [] && Canonical(xs, fold) && Less(fold(x), fold(xs[0]))
    ensures Canonical([x] + xs, fold)
  {
    forall i | 0 <= i < |xs|
      ensures Less(fold(x), fold(xs[i]))
    {
      if i > 0 {
        assert Less(FoldAll(xs, fold)[0], FoldAll(xs, fold)[i]);
        LessIsTransitive(fold(x), fold(xs[0]), fold(xs[i]));
      }
    }
    CanonicalPut(x, xs, fold);
  }

  lemma {:induction false} SortedByMeets(xs: seq<string>, fold: string -> string)
    requires Distinct(FoldAll(xs, fold))
    ensures Canonical(SortedBy(xs, fold), fold) && Elements(SortedBy(xs, fold)) == Elements(xs)
  {
    if xs != [] {
      var rest := SortedBy(xs[1..], fold);
      assert FoldAll(xs[1..], fold) == FoldAll(xs, fold)[1..];
      SortedByMeets(xs[1..], fold);
      forall i | 0 <= i < |rest|
        ensures FoldAll(rest, fold)[i] != fold(xs[0])
      {
        assert rest[i] in Elements(xs[1..]);
        var j :| 0 <= j < |xs[1..]| && xs[1..][j] == rest[i];
        assert FoldAll(xs, fold)[0] != FoldAll(xs, fold)[j + 1];
      }
      InsertByKeeps(xs[0], rest, fold);
      assert xs == [xs[0]] + xs[1..];
    }
  }

  /** A set of names has one canonical listing. */
  lemma CanonicalIsUnique(xs: seq<string>, ys: seq<string>, fold: string -> string)
    requires Canonical(xs, fold) && Canonical(ys, fold) && Elements(xs) == Elements(ys)
    ensures xs == ys
  {
    var fx, fy := FoldAll(xs, fold), FoldAll(ys, fold);
    SameFolds(xs, ys, fold);
    SameFolds(ys, xs, fold);
    SortedIsUnique(fx, fy);
    forall i | 0 <= i < |xs|
      ensures xs[i] == ys[i]
    {
      assert ys[i] in Elements(xs);
      var j :| 0 <= j < |xs| && xs[j] == ys[i];
      assert fx[j] == fy[i] == fx[i];
      LessIsTotal(fx[i], fx[j]);
    }
  }

  lemma SameFolds(xs: seq<string>, ys: seq<string>, fold: string -> string)
    requires Elements(xs) <= Elements(ys)
    ensures Elements(FoldAll(xs, fold)) <= Elements(FoldAll(ys, fold))
  {
    forall f <- Elements(FoldAll(xs, fold))
      ensures f in Elements(FoldAll(ys, fold))
    {
      var i :| 0 <= i < |xs| && FoldAll(xs, fold)[i] == f;
      assert xs[i] in Elements(xs);
      var j :| 0 <= j < |ys| && ys[j] == xs[i];
      assert FoldAll(ys, fold)[j] == f;
    }
  }

  /** The names of the current members. */
  function NamesOf(members: seq<Member>): set<string> {
    set m | m in members && m.current :: m.name
  }

  lemma {:induction false} CurrentAreNamed(members: seq<Member>)
    ensures Elements(Current(members)) == NamesOf(members)
  {
    if members != [] {
      var n := |members| - 1;
      var m := members[n];
      assert members == members[..n] + [m];
      CurrentAreNamed(members[..n]);
      assert NamesOf(members) == NamesOf(members[..n]) + if m.current then {m.name} else {};
      assert Elements(Current(members[..n]) + [m.name]) == Elements(Current(members[..n])) + {m.name};
    }
  }

  lemma {:induction false} CurrentIsDistinct(members: seq<Member>, fold: string -> string)
    requires Distinct(Folds(members, fold))
    ensures Distinct(FoldAll(Current(members), fold))
  {
    if members != [] {
      var n := |members| - 1;
      var m := members[n];
      assert members == members[..n] + [m];
      SeenOneMore(members[..n], m, fold);
      CurrentIsDistinct(members[..n], fold);
      assert !m.current ==> Current(members) == Current(members[..n]);
      if m.current {
        CurrentFoldsAreSeen(members[..n], fold);
        var before := Current(members[..n]);
        assert FoldAll(before + [m.name], fold) == FoldAll(before, fold) + [fold(m.name)];
        DistinctOneMore(FoldAll(before, fold), fold(m.name));
      }
    }
  }

  lemma CurrentFoldsAreSeen(members: seq<Member>, fold: string -> string)
    ensures Elements(FoldAll(Current(members), fold)) <= Elements(Folds(members, fold))
  {
    CurrentAreNamed(members);
    var names := Current(members);
    forall i | 0 <= i < |names|
      ensures fold(names[i]) in Elements(Folds(members, fold))
    {
      assert names[i] in Elements(names);
      var m :| m in members && m.current && m.name == names[i];
      var j :| 0 <= j < |members| && members[j] == m;
      assert Folds(members, fold)[j] == fold(names[i]);
    }
  }

  /** The names of the current entries. */
  function CurrentNames(entries: seq<Value>): set<string> {
    set e | e in entries && Read(e).Some? && Read(e).value.current :: Read(e).value.name
  }

  lemma MembersAreRead(entries: seq<Value>)
    requires AllRead(entries)
    ensures NamesOf(Members(entries)) == CurrentNames(entries)
  {
    var members := Members(entries);
    forall name
      ensures name in NamesOf(members) <==> name in CurrentNames(entries)
    {
      if name in CurrentNames(entries) {
        var e :| e in entries && Read(e).Some? && Read(e).value.current && Read(e).value.name == name;
        var i :| 0 <= i < |entries| && entries[i] == e;
        assert members[i] == Read(e).value && members[i] in members;
      }
      if name in NamesOf(members) {
        var m :| m in members && m.current && m.name == name;
        var i :| 0 <= i < |members| && members[i] == m;
        assert entries[i] in entries && Read(entries[i]).value == m;
      }
    }
  }

  /** Entries are accepted exactly when they are acceptable and one is current, and the result lists exactly
      the current coordinates in canonical order. */
  lemma ProjectionIsCanonical(entries: seq<Value>, host: Host)
    ensures ProjectedEntries(entries, host).Ok? <==> Acceptable(entries, host) && CurrentNames(entries) != {}
    ensures ProjectedEntries(entries, host).Ok? ==>
      var members := ProjectedEntries(entries, host).value;
      Elements(members) == CurrentNames(entries) && Canonical(members, host.fold)
  {
    assert [] + entries == entries;
    assert SeenOf(Members([]), host.fold) == NOTHING;
    TakeAllAccepts([], entries, host);
    if Acceptable(entries, host) {
      var members := Members(entries);
      CurrentIsDistinct(members, host.fold);
      CurrentAreNamed(members);
      MembersAreRead(entries);
      SortedByMeets(Current(members), host.fold);
      assert Current(members) != [] ==> Current(members)[0] in Elements(Current(members));
    }
  }

  // ---- the order of the entries does not matter ----

  function MapAll<T>(xs: seq<T>, f: T -> string): (r: seq<string>)
    ensures |r| == |xs|
  {
    seq(|xs|, i requires 0 <= i < |xs| => f(xs[i]))
  }

  function Without<T>(xs: seq<T>, i: nat): seq<T>
    requires i < |xs|
  {
    xs[..i] + xs[i + 1..]
  }

  lemma MultisetOf<T>(xs: seq<T>, i: nat)
    requires i < |xs|
    ensures multiset(xs) == multiset(Without(xs, i)) + multiset{xs[i]}
  {
    assert xs == xs[..i] + [xs[i]] + xs[i + 1..];
  }

  lemma MapWithout<T>(xs: seq<T>, f: T -> string, i: nat)
    requires i < |xs|
    ensures multiset(MapAll(xs, f)) == multiset(MapAll(Without(xs, i), f)) + multiset{f(xs[i])}
  {
    MultisetOf(MapAll(xs, f), i);
    assert Without(MapAll(xs, f), i) == MapAll(Without(xs, i), f);
  }

  lemma {:induction false} MapMultiset<T>(a: seq<T>, b: seq<T>, f: T -> string)
    requires multiset(a) == multiset(b)
    ensures multiset(MapAll(a, f)) == multiset(MapAll(b, f))
    decreases |a|
  {
    if a == [] {
      assert |multiset(b)| == |b|;
    } else {
      assert a[0] in multiset(b);
      var i :| 0 <= i < |b| && b[i] == a[0];
      MultisetOf(b, i);
      MultisetOf(a, 0);
      assert multiset(Without(a, 0)) == multiset(a) - multiset{a[0]};
      assert multiset(Without(b, i)) == multiset(b) - multiset{a[0]};
      MapMultiset(Without(a, 0), Without(b, i), f);
      MapWithout(b, f, i);
      MapWithout(a, f, 0);
    }
  }

  lemma {:induction false} DistinctIsMultiset(xs: seq<string>)
    ensures Distinct(xs) <==> forall x <- xs :: multiset(xs)[x] == 1
  {
    if xs != [] {
      var n := |xs| - 1;
      assert xs == xs[..n] + [xs[n]];
      DistinctOneMore(xs[..n], xs[n]);
      DistinctIsMultiset(xs[..n]);
      assert multiset(xs) == multiset(xs[..n]) + multiset{xs[n]};
      assert xs[n] in xs;
      assert forall x :: x in xs[..n] ==> x in xs;
    }
  }

  lemma DistinctPermutes(xs: seq<string>, ys: seq<string>)
    requires multiset(xs) == multiset(ys)
    ensures Distinct(xs) <==> Distinct(ys)
  {
    DistinctIsMultiset(xs);
    DistinctIsMultiset(ys);
    assert forall x :: x in xs <==> x in multiset(xs);
    assert forall y :: y in ys <==> y in multiset(ys);
  }

  function IdOf(e: Value): string { if Read(e).Some? then Read(e).value.id else "" }
  function NameOf(e: Value): string { if Read(e).Some? then Read(e).value.name else "" }

  lemma AcceptablePermutes(a: seq<Value>, b: seq<Value>, host: Host)
    requires multiset(a) == multiset(b) && Acceptable(a, host)
    ensures Acceptable(b, host)
  {
    forall e <- b
      ensures Read(e).Some?
    {
      assert e in multiset(b) && e in multiset(a);
    }
    IdsPermute(a, b);
    FoldsPermute(a, b, host);
  }

  lemma IdsPermute(a: seq<Value>, b: seq<Value>)
    requires multiset(a) == multiset(b) && AllRead(a) && AllRead(b)
    ensures Distinct(Ids(Members(a))) <==> Distinct(Ids(Members(b)))
  {
    MapMultiset(a, b, IdOf);
    assert Ids(Members(a)) == MapAll(a, IdOf);
    assert Ids(Members(b)) == MapAll(b, IdOf);
    DistinctPermutes(Ids(Members(a)), Ids(Members(b)));
  }

  lemma FoldsPermute(a: seq<Value>, b: seq<Value>, host: Host)
    requires multiset(a) == multiset(b) && AllRead(a) && AllRead(b)
    ensures Distinct(Folds(Members(a), host.fold)) <==> Distinct(Folds(Members(b), host.fold))
  {
    var foldOf := (e: Value) => host.fold(NameOf(e));
    MapMultiset(a, b, foldOf);
    FoldsAreMapped(a, host, foldOf);
    FoldsAreMapped(b, host, foldOf);
    DistinctPermutes(Folds(Members(a), host.fold), Folds(Members(b), host.fold));
  }

  lemma FoldsAreMapped(entries: seq<Value>, host: Host, foldOf: Value -> string)
    requires AllRead(entries) && forall e :: foldOf(e) == host.fold(NameOf(e))
    ensures Folds(Members(entries), host.fold) == MapAll(entries, foldOf)
  {
    forall i | 0 <= i < |entries|
      ensures Folds(Members(entries), host.fold)[i] == MapAll(entries, foldOf)[i]
    {
      assert NameOf(entries[i]) == Members(entries)[i].name;
    }
  }

  /** Permuting the entries changes neither whether they are accepted nor what they project to. */
  lemma EntryOrderIsIrrelevant(a: seq<Value>, b: seq<Value>, host: Host)
    requires multiset(a) == multiset(b)
    ensures
      var ra, rb := ProjectedEntries(a, host), ProjectedEntries(b, host);
      if ra.Ok? then rb == ra else rb.Err?
  {
    ProjectionIsCanonical(a, host);
    ProjectionIsCanonical(b, host);
    forall e
      ensures e in a <==> e in b
    {
      assert e in a <==> e in multiset(a);
      assert e in b <==> e in multiset(b);
    }
    assert CurrentNames(a) == CurrentNames(b);
    if Acceptable(a, host) {
      AcceptablePermutes(a, b, host);
    } else if Acceptable(b, host) {
      AcceptablePermutes(b, a, host);
    }
    if ProjectedEntries(a, host).Ok? {
      CanonicalIsUnique(ProjectedEntries(a, host).value, ProjectedEntries(b, host).value, host.fold);
    }
  }

  // ---- the receipt ----

  const RECEIPT_SCHEMA := Text("l9.required-repositories-projection/v1")
  const SOURCE_REPOSITORY := Text("Quantum-L9/.github")
  const SOURCE_PATH := Text("semantics/repository_registry.yaml")

  function Texts(xs: seq<string>): Value { List(seq(|xs|, i requires 0 <= i < |xs| => Text(xs[i]))) }

  function Digest(members: seq<string>, host: Host): Value { Text(host.digest(JoinLines(members) + "\n")) }

  /** The projected policy and its receipt; None is a refused commit. */
  function Render(members: seq<string>, policy: map<string, Value>, source: string, commit: string, host: Host)
    : Option<(Value, Value)>
  {
    if !IsFull(commit) then None else
    Some((
      Mapping(policy["required_repositories" := Texts(members)]),
      Mapping(map[
        "schema" := RECEIPT_SCHEMA,
        "non_canonical" := Bool(true),
        "source" := Mapping(map[
          "repository" := SOURCE_REPOSITORY, "path" := SOURCE_PATH, "commit" := Text(commit),
          "sha256" := Text(host.digest(source)), "artifact_id" := ARTIFACT]),
        "rule" := Text("lifecycle == current"),
        "generated_by" := Text("tools/project_required_repositories.py"),
        "members" := Texts(members),
        "members_sha256" := Digest(members, host)])))
  }

  datatype Problem = BadSchema | NoMembers | BadDigest | NotInOrder | NotTheRegistry | NoFullSha | PolicyDiffers

  /** A list of texts as the strings it holds. */
  function StringsOf(items: seq<Value>): Option<seq<string>> {
    if items == [] then Some([])
    else if !items[0].Text? || StringsOf(items[1..]).None? then None
    else Some([items[0].s] + StringsOf(items[1..]).value)
  }

  function SourceOf(receipt: Value): Value
    requires receipt.Mapping?
  {
    if "source" in receipt.fields then receipt.fields["source"] else Mapping(map[])
  }

  function CommitOf(source: Value, host: Host): string
    requires source.Mapping?
  {
    if "commit" in source.fields then host.show(source.fields["commit"]) else ""
  }

  function If(c: bool, p: Problem): seq<Problem> { if c then [p] else [] }

  /** What the verification reports, in its order; a value of the wrong type where a method is called on it is
      no report. */
  function Verified(policy: Value, receipt: Value, host: Host): Result<seq<Problem>>
    requires policy.Mapping? && receipt.Mapping?
  {
    var members := Get(receipt, "members");
    var schema := If(Get(receipt, "schema") != RECEIPT_SCHEMA, BadSchema);
    if !members.List? || members.items == [] then Ok(schema + [NoMembers]) else
    var names := StringsOf(members.items);
    var source := SourceOf(receipt);
    if names.None? || !source.Mapping? then Err(TypeError) else
    Ok(schema
      + If(Get(receipt, "members_sha256") != Digest(names.value, host), BadDigest)
      + If(names.value != SortedBy(names.value, host.fold), NotInOrder)
      + If(Get(source, "repository") != SOURCE_REPOSITORY || Get(source, "path") != SOURCE_PATH, NotTheRegistry)
      + If(!IsFull(CommitOf(source, host)), NoFullSha)
      + If(Get(policy, "required_repositories") != members, PolicyDiffers))
  }

  method Verify(policy: Value, receipt: Value, host: Host) returns (r: Result<seq<Problem>>)
    requires policy.Mapping? && receipt.Mapping?
    ensures r == Verified(policy, receipt, host)
  {
    var members := Get(receipt, "members");
    var problems := If(Get(receipt, "schema") != RECEIPT_SCHEMA, BadSchema);
    if !members.List? || members.items == [] {
      return Ok(problems + [NoMembers]);
    }
    var names := StringsOf(members.items);
    if names.None? {
      return Err(TypeError);
    }
    problems := problems + If(Get(receipt, "members_sha256") != Digest(names.value, host), BadDigest);
    problems := problems + If(names.value != SortedBy(names.value, host.fold), NotInOrder);
    var source := SourceOf(receipt);
    if !source.Mapping? {
      return Err(TypeError);
    }
    problems := problems +
      If(Get(source, "repository") != SOURCE_REPOSITORY || Get(source, "path") != SOURCE_PATH, NotTheRegistry);
    problems := problems + If(!IsFull(CommitOf(source, host)), NoFullSha);
    problems := problems + If(Get(policy, "required_repositories") != members, PolicyDiffers);
    return Ok(problems);
  }

  lemma {:induction false} StringsOfTexts(xs: seq<string>)
    ensures StringsOf(Texts(xs).items) == Some(xs)
  {
    if xs != [] {
      StringsOfTexts(xs[1..]);
      assert Texts(xs).items[1..] == Texts(xs[1..]).items;
      assert xs == [xs[0]] + xs[1..];
    }
  }

  lemma {:induction false} CanonicalIsSorted(xs: seq<string>, fold: string -> string)
    requires Canonical(xs, fold)
    ensures SortedBy(xs, fold) == xs
  {
    if xs != [] {
      assert FoldAll(xs[1..], fold) == FoldAll(xs, fold)[1..];
      CanonicalIsSorted(xs[1..], fold);
      if |xs| > 1 {
        assert Less(FoldAll(xs, fold)[0], FoldAll(xs, fold)[1]);
        LessIsTotal(fold(xs[0]), fold(xs[1]));
      }
      assert xs == [xs[0]] + xs[1..];
    }
  }

  lemma RenderedFields(members: seq<string>, policy: map<string, Value>, source: string, commit: string, host: Host)
    requires (forall s :: host.show(Text(s)) == s) && Render(members, policy, source, commit, host).Some?
    ensures
      var (p, receipt) := Render(members, policy, source, commit, host).value;
      p.Mapping? && receipt.Mapping? && Agrees(p, receipt, members, host)
  {
    var (p, receipt) := Render(members, policy, source, commit, host).value;
    assert CommitOf(SourceOf(receipt), host) == commit;
  }

  /** A receipt that is whole, names the registry at a full SHA and lists what the policy requires. */
  predicate Agrees(policy: Value, receipt: Value, members: seq<string>, host: Host)
    requires policy.Mapping? && receipt.Mapping?
  {
    && Get(receipt, "members") == Texts(members) && Get(policy, "required_repositories") == Texts(members)
    && Get(receipt, "schema") == RECEIPT_SCHEMA && Get(receipt, "members_sha256") == Digest(members, host)
    && SourceOf(receipt).Mapping?
    && Get(SourceOf(receipt), "repository") == SOURCE_REPOSITORY && Get(SourceOf(receipt), "path") == SOURCE_PATH
    && IsFull(CommitOf(SourceOf(receipt), host))
  }

  /** For every policy and receipt: the offline verification passes exactly when they agree on some members, at
      least one, in canonical order. */
  lemma VerifyPassesIff(policy: Value, receipt: Value, host: Host)
    requires policy.Mapping? && receipt.Mapping?
    ensures Verified(policy, receipt, host) == Ok([]) <==>
      exists members: seq<string> ::
        members != [] && Agrees(policy, receipt, members, host) && SortedBy(members, host.fold) == members
  {
    if Verified(policy, receipt, host) == Ok([]) {
      var items := Get(receipt, "members").items;
      TextsOfStrings(items);
      PassesWith(policy, receipt, StringsOf(items).value, host);
    }
    forall members: seq<string> | members != [] && Agrees(policy, receipt, members, host)
      && SortedBy(members, host.fold) == members
      ensures Verified(policy, receipt, host) == Ok([])
    {
      PassesWith(policy, receipt, members, host);
    }
  }

  lemma {:induction false} TextsOfStrings(items: seq<Value>)
    requires StringsOf(items).Some?
    ensures Texts(StringsOf(items).value) == List(items)
  {
    if items != [] {
      TextsOfStrings(items[1..]);
      var xs := StringsOf(items).value;
      assert xs[1..] == StringsOf(items[1..]).value;
      assert items == [items[0]] + items[1..] && Texts(xs).items == [items[0]] + Texts(xs[1..]).items;
    }
  }

  lemma PassesWith(policy: Value, receipt: Value, members: seq<string>, host: Host)
    requires policy.Mapping? && receipt.Mapping? && Get(receipt, "members") == Texts(members)
    ensures Verified(policy, receipt, host) == Ok([]) <==>
      members != [] && Agrees(policy, receipt, members, host) && SortedBy(members, host.fold) == members
  {
    StringsOfTexts(members);
    assert |Texts(members).items| == |members|;
    if Verified(policy, receipt, host).Ok? {
      var problems := Verified(policy, receipt, host).value;
      assert problems != [] <==> |problems| > 0;
    }
  }

  /** Whatever is projected and rendered passes the offline verification. */
  lemma RenderedPassesVerify(registry: Value, policy: map<string, Value>, source: string, commit: string, host: Host)
    requires forall s :: host.show(Text(s)) == s
    requires Projected(registry, host).Ok?
    requires Render(Projected(registry, host).value, policy, source, commit, host).Some?
    ensures
      var (p, receipt) := Render(Projected(registry, host).value, policy, source, commit, host).value;
      p.Mapping? && receipt.Mapping? && Verified(p, receipt, host) == Ok([])
  {
    var members := Projected(registry, host).value;
    ProjectionIsCanonical(Header(registry).value, host);
    assert members != [] by {
      assert Elements([]) == {};
    }
    CanonicalIsSorted(members, host.fold);
    RenderedFields(members, policy, source, commit, host);
    var (p, receipt) := Render(members, policy, source, commit, host).value;
    PassesWith(p, receipt, members, host);
  }

  // ---- field by field ----

  predicate Has(v: Value, key: string, value: Value) { v.Mapping? && key in v.fields && v.fields[key] == value }

  predicate IsPlainName(s: string) {
    s != "" && forall c <- s ::
      'A' <= c <= 'Z' || 'a' <= c <= 'z' || '0' <= c <= '9' || c == '_' || c == '.' || c == '-'
  }

  /** An entry of the registry, with its coordinate `owner/name` on github. */
  ghost predicate IsEntry(e: Value, id: string, owner: string, name: string, lifecycle: string) {
    && Has(e, "id", Text(id)) && id != "" && IsPlainName(owner) && IsPlainName(name)
    && (exists coordinate ::
          && Has(e, "coordinate", coordinate) && Has(coordinate, "provider", Text("github"))
          && Has(coordinate, "organization", Text(owner)) && Has(coordinate, "repository", Text(name)))
    && (exists s :: Has(e, "class_ref", Text(s)) && s != "")
    && Has(e, "lifecycle", Text(lifecycle)) && lifecycle in {"current", "superseded", "retired"}
  }

  /** Exactly such entries are read, as what they say. */
  lemma ReadIff(e: Value, m: Member)
    ensures Read(e) == Some(m) <==>
      exists owner, name, lifecycle ::
        && IsEntry(e, m.id, owner, name, lifecycle) && m.name == owner + "/" + name
        && (m.current <==> lifecycle == "current")
  {
    if Read(e) == Some(m) {
      var coordinate := e.fields["coordinate"];
      assert Has(e, "coordinate", coordinate) && Has(e, "class_ref", Text(e.fields["class_ref"].s));
      assert IsEntry(e, m.id, coordinate.fields["organization"].s, coordinate.fields["repository"].s,
        e.fields["lifecycle"].s);
    }
  }

  /** A registry is one of the schema, the artifact itself and canonical, with at least one entry. */
  lemma HeaderIff(registry: Value, entries: seq<Value>)
    ensures Header(registry) == Ok(entries) <==>
      && Has(registry, "schema", Text("l9.repository-registry/v1"))
      && Has(registry, "artifact_id", Text("l9.repository-registry/global@1")) && Has(registry, "canonical", Bool(true))
      && Has(registry, "repositories", List(entries)) && entries != []
  {
  }

  /** What is reported of a registry that is none: the first of these. */
  lemma HeaderFaults(registry: Value)
    ensures
      var header := Header(registry);
      && (header == Err(NoMapping) <==> !registry.Mapping?)
      && (registry.Mapping? ==>
            var named := Has(registry, "schema", Text("l9.repository-registry/v1"));
            var canonical := Has(registry, "artifact_id", Text("l9.repository-registry/global@1"))
              && Has(registry, "canonical", Bool(true));
            && (header == Err(WrongSchema) <==> !named)
            && (header == Err(NotCanonical) <==> named && !canonical)
            && (header.Err? && named && canonical ==> header == Err(NoRepositories)))
  {
  }

  /** The first check an entry fails is the one reported, under its id once it has a new one. */
  lemma TakeFaults(e: Value, seen: Seen, host: Host, id: string, coordinate: Value, owner: string, name: string)
    ensures Take(e, seen, host) == Err(BadEntry) <==> !e.Mapping?
    ensures e.Mapping? && (forall s :: Has(e, "id", Text(s)) ==> s == "" || s in seen.ids) ==>
      Take(e, seen, host) == Err(BadId)
    ensures Has(e, "id", Text(id)) && id != "" && id !in seen.ids ==>
      && ((forall c :: Has(e, "coordinate", c) ==> !Has(c, "provider", Text("github"))) ==>
            Take(e, seen, host) == Err(BadProvider(id)))
      && (Has(e, "coordinate", coordinate) && Has(coordinate, "provider", Text("github")) ==>
            TakesFrom(e, seen, host, id, coordinate, owner, name))
  {
    if e.Mapping? && NamesGithub(e) {
      assert Has(e, "coordinate", e.fields["coordinate"]);
      assert Has(e.fields["coordinate"], "provider", Text("github"));
    }
  }

  /** With an id and a provider: the owner, then the name, then the coordinate, the class and the lifecycle. */
  ghost predicate TakesFrom(e: Value, seen: Seen, host: Host, id: string, coordinate: Value, owner: string,
      name: string) {
    var r := Take(e, seen, host);
    && ((forall s :: Has(coordinate, "organization", Text(s)) ==> !IsPlainName(s)) ==> r == Err(BadOwner(id)))
    && (Has(coordinate, "organization", Text(owner)) && IsPlainName(owner) ==>
          && ((forall s :: Has(coordinate, "repository", Text(s)) ==> !IsPlainName(s)) ==> r == Err(BadName(id)))
          && (Has(coordinate, "repository", Text(name)) && IsPlainName(name) ==>
                var known := host.fold(owner + "/" + name) in seen.folds;
                var classed := exists s :: Has(e, "class_ref", Text(s)) && s != "";
                var listed := exists v :: Has(e, "lifecycle", v) && (v.List? || v.Mapping?);
                var living := exists s ::
                  Has(e, "lifecycle", Text(s)) && s in {"current", "superseded", "retired"};
                && (known ==> r == Err(Duplicate(id)))
                && (!known && !classed ==> r == Err(NoClass(id)))
                && (!known && classed && listed ==> r == Err(TypeError))
                && (!known && classed && !listed && !living ==> r == Err(BadLifecycle(id)))
                && (!known && classed && living ==> r.Ok?)))
  }

  /** A full commit is rendered: the policy with its list replaced and every other field kept, and the receipt with
      exactly these fields. */
  lemma RenderIs(members: seq<string>, policy: map<string, Value>, source: string, commit: string, host: Host)
    ensures Render(members, policy, source, commit, host).Some? <==> IsFull(commit)
    ensures IsFull(commit) ==>
      var (p, receipt) := Render(members, policy, source, commit, host).value;
      && p.Mapping?
      && p.fields - {"required_repositories"} == policy - {"required_repositories"}
      && Has(p, "required_repositories", List(Listed(members)))
      && receipt == Mapping(map[
           "schema" := Text("l9.required-repositories-projection/v1"),
           "non_canonical" := Bool(true),
           "source" := Mapping(map["repository" := Text("Quantum-L9/.github"),
             "path" := Text("semantics/repository_registry.yaml"), "commit" := Text(commit),
             "sha256" := Text(host.digest(source)), "artifact_id" := Text("l9.repository-registry/global@1")]),
           "rule" := Text("lifecycle == current"),
           "generated_by" := Text("tools/project_required_repositories.py"),
           "members" := List(Listed(members)),
           "members_sha256" := Text(host.digest(JoinLines(members) + "\n"))])
  {
    hide IsFull;
    ListedTexts(members);
  }

  function Listed(members: seq<string>): seq<Value> {
    if members == [] then [] else [Text(members[0])] + Listed(members[1..])
  }

  lemma {:induction false} ListedTexts(members: seq<string>)
    ensures Texts(members) == List(Listed(members))
  {
    if members != [] {
      ListedTexts(members[1..]);
      assert Texts(members).items == [Text(members[0])] + Texts(members[1..]).items;
    }
  }

  /** Each problem is reported exactly if it is there: of a receipt that lists texts and whose source, if it has one,
      is a mapping. */
  lemma ProblemsAre(policy: Value, receipt: Value, members: seq<string>, source: Value, host: Host)
    requires policy.Mapping? && receipt.Mapping? && source.Mapping?
    requires Has(receipt, "members", List(Listed(members))) && members != []
    requires Has(receipt, "source", source) || ("source" !in receipt.fields && source == Mapping(map[]))
    ensures
      var r := Verified(policy, receipt, host);
      && r.Ok?
      && (BadSchema in r.value <==> !Has(receipt, "schema", Text("l9.required-repositories-projection/v1")))
      && NoMembers !in r.value
      && (BadDigest in r.value <==>
            !Has(receipt, "members_sha256", Text(host.digest(JoinLines(members) + "\n"))))
      && (NotInOrder in r.value <==> SortedBy(members, host.fold) != members)
      && (NotTheRegistry in r.value <==>
            !Has(source, "repository", Text("Quantum-L9/.github"))
            || !Has(source, "path", Text("semantics/repository_registry.yaml")))
      && (NoFullSha in r.value <==>
            !IsFull(if "commit" in source.fields then host.show(source.fields["commit"]) else ""))
      && (PolicyDiffers in r.value <==> !Has(policy, "required_repositories", List(Listed(members))))
  {
    hide If, SortedBy, IsFull, Has;
    ListedTexts(members);
    StringsOfTexts(members);
    assert |Texts(members).items| == |members|;
    HasGet(receipt, "members", Texts(members));
    HasGet(receipt, "schema", RECEIPT_SCHEMA);
    HasGet(receipt, "members_sha256", Digest(members, host));
    HasGet(source, "repository", SOURCE_REPOSITORY);
    HasGet(source, "path", SOURCE_PATH);
    HasGet(policy, "required_repositories", Texts(members));
    SourceIs(receipt, source);
    ProblemsListed(
      Get(receipt, "schema") != RECEIPT_SCHEMA, Get(receipt, "members_sha256") != Digest(members, host),
      members != SortedBy(members, host.fold),
      Get(source, "repository") != SOURCE_REPOSITORY || Get(source, "path") != SOURCE_PATH,
      !IsFull(CommitOf(source, host)), Get(policy, "required_repositories") != Texts(members));
  }

  lemma ProblemsListed(a: bool, b: bool, c: bool, d: bool, e: bool, f: bool)
    ensures
      var r := If(a, BadSchema) + If(b, BadDigest) + If(c, NotInOrder) + If(d, NotTheRegistry) + If(e, NoFullSha)
        + If(f, PolicyDiffers);
      && (BadSchema in r <==> a) && (BadDigest in r <==> b) && (NotInOrder in r <==> c)
      && (NotTheRegistry in r <==> d) && (NoFullSha in r <==> e) && (PolicyDiffers in r <==> f) && NoMembers !in r
  {
    hide If;
    InIf(a, BadSchema);
    InIf(b, BadDigest);
    InIf(c, NotInOrder);
    InIf(d, NotTheRegistry);
    InIf(e, NoFullSha);
    InIf(f, PolicyDiffers);
  }

  lemma InIf(c: bool, p: Problem)
    ensures forall q :: q in If(c, p) <==> c && q == p
  {
  }

  lemma HasGet(v: Value, key: string, value: Value)
    requires v.Mapping? && value != Null
    ensures Get(v, key) == value <==> Has(v, key, value)
  {
  }

  lemma SourceIs(receipt: Value, source: Value)
    requires receipt.Mapping?
    requires Has(receipt, "source", source) || ("source" !in receipt.fields && source == Mapping(map[]))
    ensures SourceOf(receipt) == source
  {
  }

  /** Without members nothing else is looked at but the schema. */
  lemma NoMembersIsReported(policy: Value, receipt: Value, host: Host)
    requires policy.Mapping? && receipt.Mapping?
    requires forall items :: Has(receipt, "members", List(items)) ==> items == []
    ensures
      var problems := Verified(policy, receipt, host);
      problems == Ok(if Has(receipt, "schema", Text("l9.required-repositories-projection/v1")) then [NoMembers]
                     else [BadSchema, NoMembers])
  {
    var members := Get(receipt, "members");
    assert members.List? ==> Has(receipt, "members", List(members.items));
    assert [BadSchema] + [NoMembers] == [BadSchema, NoMembers] && [] + [NoMembers] == [NoMembers];
  }

  /** Entries that are all accepted but none of them current are the fault that is left. */
  lemma NoneCurrentIff(entries: seq<Value>, host: Host)
    ensures Acceptable(entries, host) ==>
      (ProjectedEntries(entries, host) == Err(NoneCurrent) <==> Current(Members(entries)) == [])
  {
    hide Read, Take;
    TakeAllAccepts([], entries, host);
    assert [] + entries == entries;
    assert SeenOf(Members([]), host.fold) == NOTHING;
  }

  /** The first entry that is refused is the one reported. */
  lemma FirstEntryFaults(before: seq<Value>, e: Value, rest: seq<Value>, host: Host)
    requires Acceptable(before, host) && Take(e, SeenOf(Members(before), host.fold), host).Err?
    ensures ProjectedEntries(before + ([e] + rest), host)
         == Err(Take(e, SeenOf(Members(before), host.fold), host).fault)
  {
    hide Read, Take;
    TakeAllAccepts([], before, host);
    assert [] + before == before && SeenOf(Members([]), host.fold) == NOTHING;
    TakeAllGoesOn(before, [e] + rest, NOTHING, host);
  }

  lemma {:induction false} TakeAllGoesOn(a: seq<Value>, b: seq<Value>, seen: Seen, host: Host)
    requires TakeAll(a, seen, host).Ok?
    ensures TakeAll(a + b, seen, host) == TakeAll(b, TakeAll(a, seen, host).value, host)
    decreases |a|
  {
    hide Take;
    if a == [] {
      assert a + b == b;
    } else {
      assert (a + b)[1..] == a[1..] + b;
      TakeAllGoesOn(a[1..], b, Take(a[0], seen, host).value, host);
    }
  }

  lemma {:induction false} StringsOfIff(items: seq<Value>)
    ensures StringsOf(items).Some? <==> forall item <- items :: item.Text?
  {
    if items != [] {
      StringsOfIff(items[1..]);
      assert items == [items[0]] + items[1..];
    }
  }

  /** The verification raises exactly on a list that holds something else than texts, or on a source that is no
      mapping. */
  lemma VerifyRaisesIff(policy: Value, receipt: Value, host: Host)
    requires policy.Mapping? && receipt.Mapping?
    ensures Verified(policy, receipt, host).Err? ==> Verified(policy, receipt, host) == Err(TypeError)
    ensures Verified(policy, receipt, host).Err? <==>
      exists items :: Has(receipt, "members", List(items)) && items != [] &&
        ((exists item <- items :: !item.Text?) || exists v :: Has(receipt, "source", v) && !v.Mapping?)
  {
    hide If, SortedBy, IsFull, StringsOf;
    if Get(receipt, "members").List? {
      var items := Get(receipt, "members").items;
      StringsOfIff(items);
      assert Has(receipt, "members", List(items));
      assert "source" in receipt.fields ==> Has(receipt, "source", receipt.fields["source"]);
    }
  }
}
