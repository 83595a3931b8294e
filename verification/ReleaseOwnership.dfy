/** Which executable surface may mutate which tag namespace. */
module ReleaseOwnership {
  import opened Strings
  import opened Ordering
  import opened ReleaseExpansion

  /** `matches` is what the namespace's pattern says of a whole ref. */
  datatype Namespace = Namespace(key: string, matches: string -> bool, writer: string)

  const PREFIX := "refs/tags/"

  function Candidate(target: string): string {
    if StartsWith(target, PREFIX) then target[|PREFIX|..] else target
  }

  function FirstMatch(candidate: string, namespaces: seq<Namespace>): string {
    if namespaces == [] then "other"
    else if namespaces[0].matches(candidate) then namespaces[0].key
    else FirstMatch(candidate, namespaces[1..])
  }

  function Classified(target: string, namespaces: seq<Namespace>): Option<string> {
    if Marked(target) then None else Some(FirstMatch(Candidate(target), namespaces))
  }

  method Classify(target: string, namespaces: seq<Namespace>) returns (key: Option<string>)
    ensures key == Classified(target, namespaces)
  {
    if target == UNRESOLVED || Marked(target) {
      assert UNRESOLVED[0] == '\0';
      return None;
    }
    assert namespaces[0..] == namespaces;
    for i := 0 to |namespaces|
      invariant FirstMatch(Candidate(target), namespaces) == FirstMatch(Candidate(target), namespaces[i..])
    {
      assert namespaces[i..][1..] == namespaces[i + 1..];
      if namespaces[i].matches(Candidate(target)) {
        return Some(namespaces[i].key);
      }
    }
    return Some("other");
  }

  lemma {:induction false} FirstMatchIff(candidate: string, namespaces: seq<Namespace>, i: nat)
    requires i <= |namespaces| && forall j :: 0 <= j < i ==> !namespaces[j].matches(candidate)
    requires i < |namespaces| ==> namespaces[i].matches(candidate)
    ensures FirstMatch(candidate, namespaces) == if i < |namespaces| then namespaces[i].key else "other"
  {
    if i > 0 {
      FirstMatchIff(candidate, namespaces[1..], i - 1);
    }
  }

  /** Namespace `i`, or none if that is their number, is the first whose pattern matches the whole name. */
  ghost predicate IsFirstOf(name: string, namespaces: seq<Namespace>, i: nat) {
    && i <= |namespaces| && (i < |namespaces| ==> namespaces[i].matches(name))
    && forall j :: 0 <= j < i ==> !namespaces[j].matches(name)
  }

  /** The target `refs/tags/NAME`, and NAME itself where it does not begin so, belong to the first namespace that
      matches NAME, to `other` exactly if none does, and to nothing exactly if the unresolved marker is in NAME. */
  lemma ClassifiedIff(name: string, namespaces: seq<Namespace>, i: nat)
    requires IsFirstOf(name, namespaces, i)
    ensures
      var key := if '\0' in name then None else Some(if i < |namespaces| then namespaces[i].key else "other");
      && Classified("refs/tags/" + name, namespaces) == key
      && (!("refs/tags/" <= name) ==> Classified(name, namespaces) == key)
  {
    var target := "refs/tags/" + name;
    assert target[|"refs/tags/"|..] == name && ('\0' in target <==> '\0' in name);
    FirstMatchIff(name, namespaces, i);
  }

  /** There always is one such index, so the prefix never makes a difference. */
  lemma PrefixIsIrrelevant(name: string, namespaces: seq<Namespace>)
    requires !("refs/tags/" <= name)
    ensures Classified("refs/tags/" + name, namespaces) == Classified(name, namespaces)
  {
    var i := FirstOf(name, namespaces);
    ClassifiedIff(name, namespaces, i);
  }

  lemma {:induction false} FirstOf(name: string, namespaces: seq<Namespace>) returns (i: nat)
    ensures IsFirstOf(name, namespaces, i)
  {
    i := 0;
    if namespaces != [] && !namespaces[0].matches(name) {
      var k := FirstOf(name, namespaces[1..]);
      i := k + 1;
      assert forall j :: 0 < j < i ==> namespaces[j] == namespaces[1..][j - 1];
    }
  }

  /** A target of references is classified only if substitution resolves it in full, and then as what
      it resolves to, whatever the names it does not reach stand for. */
  lemma ClassifiedTargetsAreResolved(t: Template, values: Assignments, shell: Shell, names: set<string>,
      namespaces: seq<Namespace>)
    requires IsTemplate(t) && Refs(t) <= names && Prints(values, shell, names)
    requires StaysSeparated(t, values, shell.guarded, ROUNDS)
    ensures
      var full := Resolve(t, values, shell.guarded, ROUNDS);
      Classified(Expanded(ShowAll(t), shell, ROUNDS), namespaces)
        == if full.Some? then Classified(full.value, namespaces) else None
  {
    ExpansionIsExactOrFailsClosed(t, values, shell, names, ROUNDS);
  }

  // ---- the verdict ----

  datatype Site = Site(path: string, line: nat, namespace: Option<string>)

  datatype Violation =
    | Unresolved(site: Site)
    | Inactive(key: string, writer: string)
    | Trespass(key: string, path: string, owns: Option<string>, sites: seq<Site>)

  function UnresolvedOf(sites: seq<Site>): seq<Violation> {
    if sites == [] then []
    else (if sites[0].namespace.None? then [Unresolved(sites[0])] else []) + UnresolvedOf(sites[1..])
  }

  predicate Writes(site: Site, path: string, key: string) { site.path == path && site.namespace == Some(key) }

  function SitesOf(sites: seq<Site>, path: string, key: string): seq<Site> {
    if sites == [] then []
    else (if Writes(sites[0], path, key) then [sites[0]] else []) + SitesOf(sites[1..], path, key)
  }

  function PathsOf(sites: seq<Site>, key: string): seq<string> {
    if sites == [] then []
    else (if sites[0].namespace == Some(key) then [sites[0].path] else []) + PathsOf(sites[1..], key)
  }

  /** The namespace a path is the authorised writer of; the last one if it is of several. */
  function Owns(namespaces: seq<Namespace>, path: string): Option<string> {
    if namespaces == [] then None
    else if namespaces[|namespaces| - 1].writer == path then Some(namespaces[|namespaces| - 1].key)
    else Owns(namespaces[..|namespaces| - 1], path)
  }

  function TrespassesOf(writers: seq<string>, ns: Namespace, sites: seq<Site>, namespaces: seq<Namespace>)
    : seq<Violation>
  {
    if writers == [] then [] else
    (if writers[0] == ns.writer then []
     else [Trespass(ns.key, writers[0], Owns(namespaces, writers[0]), SitesOf(sites, writers[0], ns.key))])
      + TrespassesOf(writers[1..], ns, sites, namespaces)
  }

  function Writers(sites: seq<Site>, key: string): seq<string> { SortedUnique(PathsOf(sites, key)) }

  function Judged(ns: Namespace, sites: seq<Site>, namespaces: seq<Namespace>): seq<Violation> {
    var writers := Writers(sites, ns.key);
    var inactive := if ns.writer in writers then [] else [Inactive(ns.key, ns.writer)];
    if writers == [ns.writer] then [] else inactive + TrespassesOf(writers, ns, sites, namespaces)
  }

  function JudgedAll(some: seq<Namespace>, sites: seq<Site>, namespaces: seq<Namespace>): seq<Violation> {
    if some == [] then [] else Judged(some[0], sites, namespaces) + JudgedAll(some[1..], sites, namespaces)
  }

  function Evaluated(sites: seq<Site>, namespaces: seq<Namespace>): seq<Violation> {
    UnresolvedOf(sites) + JudgedAll(namespaces, sites, namespaces)
  }

  method Authorized(namespaces: seq<Namespace>) returns (authorized: map<string, string>)
    ensures forall path ::
      Owns(namespaces, path) == if path in authorized then Some(authorized[path]) else None
  {
    authorized := map[];
    for i := 0 to |namespaces|
      invariant forall path ::
        Owns(namespaces[..i], path) == if path in authorized then Some(authorized[path]) else None
    {
      assert namespaces[..i + 1][..i] == namespaces[..i];
      authorized := authorized[namespaces[i].writer := namespaces[i].key];
    }
    assert namespaces[..|namespaces|] == namespaces;
  }

  method JudgeNamespace(ns: Namespace, sites: seq<Site>, namespaces: seq<Namespace>, authorized: map<string, string>)
    returns (violations: seq<Violation>)
    requires forall path ::
      Owns(namespaces, path) == if path in authorized then Some(authorized[path]) else None
    ensures violations == Judged(ns, sites, namespaces)
  {
    violations := [];
    var writers := Writers(sites, ns.key);
    if writers == [ns.writer] {
      return;
    }
    if ns.writer !in writers {
      violations := [Inactive(ns.key, ns.writer)];
    }
    ghost var first := violations;
    assert writers[0..] == writers;
    for i := 0 to |writers|
      invariant violations + TrespassesOf(writers[i..], ns, sites, namespaces)
             == first + TrespassesOf(writers, ns, sites, namespaces)
    {
      assert writers[i..][1..] == writers[i + 1..];
      if writers[i] != ns.writer {
        var owns := if writers[i] in authorized then Some(authorized[writers[i]]) else None;
        violations := violations + [Trespass(ns.key, writers[i], owns, SitesOf(sites, writers[i], ns.key))];
      }
    }
  }

  method ReportUnresolved(sites: seq<Site>) returns (violations: seq<Violation>)
    ensures violations == UnresolvedOf(sites)
  {
    violations := [];
    assert sites[0..] == sites;
    for i := 0 to |sites|
      invariant violations + UnresolvedOf(sites[i..]) == UnresolvedOf(sites)
    {
      assert sites[i..][1..] == sites[i + 1..];
      Assoc(violations, [Unresolved(sites[i])], UnresolvedOf(sites[i + 1..]));
      assert [] + UnresolvedOf(sites[i + 1..]) == UnresolvedOf(sites[i + 1..]);
      if sites[i].namespace.None? {
        violations := violations + [Unresolved(sites[i])];
      }
    }
    assert violations + [] == violations;
  }

  method Evaluate(sites: seq<Site>, namespaces: seq<Namespace>) returns (violations: seq<Violation>)
    ensures violations == Evaluated(sites, namespaces)
  {
    var authorized := Authorized(namespaces);
    violations := ReportUnresolved(sites);
    assert namespaces[0..] == namespaces;
    for i := 0 to |namespaces|
      invariant violations + JudgedAll(namespaces[i..], sites, namespaces) == Evaluated(sites, namespaces)
    {
      var more := JudgeNamespace(namespaces[i], sites, namespaces, authorized);
      JudgedStep(violations, namespaces, i, sites);
      violations := violations + more;
    }
    assert violations + [] == violations;
  }

  lemma JudgedStep(violations: seq<Violation>, namespaces: seq<Namespace>, i: nat, sites: seq<Site>)
    requires i < |namespaces|
    ensures violations + JudgedAll(namespaces[i..], sites, namespaces)
         == violations + Judged(namespaces[i], sites, namespaces) + JudgedAll(namespaces[i + 1..], sites, namespaces)
  {
    assert namespaces[i..][1..] == namespaces[i + 1..];
    Assoc(violations, Judged(namespaces[i], sites, namespaces), JudgedAll(namespaces[i + 1..], sites, namespaces));
  }

  // ---- what the verdict means ----

  /** The paths that mutate a namespace. */
  function Mutators(sites: seq<Site>, key: string): set<string> {
    set site | site in sites && site.namespace == Some(key) :: site.path
  }

  lemma {:induction false} PathsAreMutators(sites: seq<Site>, key: string)
    ensures Elements(PathsOf(sites, key)) == Mutators(sites, key)
  {
    if sites != [] {
      PathsAreMutators(sites[1..], key);
      assert sites == [sites[0]] + sites[1..];
      var here := if sites[0].namespace == Some(key) then [sites[0].path] else [];
      assert Elements(here + PathsOf(sites[1..], key)) == Elements(here) + Elements(PathsOf(sites[1..], key));
    }
  }

  lemma WritersAreMutators(sites: seq<Site>, key: string)
    ensures StrictlySorted(Writers(sites, key)) && Elements(Writers(sites, key)) == Mutators(sites, key)
  {
    SortedUniqueMeets(PathsOf(sites, key));
    PathsAreMutators(sites, key);
  }

  lemma {:induction false} NothingUnresolved(sites: seq<Site>)
    ensures UnresolvedOf(sites) == [] <==> forall site <- sites :: site.namespace.Some?
  {
    if sites != [] {
      NothingUnresolved(sites[1..]);
      assert sites == [sites[0]] + sites[1..];
    }
  }

  lemma {:induction false} TrespassersAreReported(writers: seq<string>, ns: Namespace, sites: seq<Site>,
      namespaces: seq<Namespace>, path: string)
    ensures path in writers && path != ns.writer <==>
      Trespass(ns.key, path, Owns(namespaces, path), SitesOf(sites, path, ns.key))
      in TrespassesOf(writers, ns, sites, namespaces)
    ensures forall v <- TrespassesOf(writers, ns, sites, namespaces) ::
      v.Trespass? && v == Trespass(ns.key, v.path, Owns(namespaces, v.path), SitesOf(sites, v.path, ns.key))
  {
    if writers != [] {
      TrespassersAreReported(writers[1..], ns, sites, namespaces, path);
      assert writers == [writers[0]] + writers[1..];
    }
  }

  lemma NamespaceIsClean(ns: Namespace, sites: seq<Site>, namespaces: seq<Namespace>)
    ensures Judged(ns, sites, namespaces) == [] <==> Mutators(sites, ns.key) == {ns.writer}
  {
    WritersAreMutators(sites, ns.key);
    var writers := Writers(sites, ns.key);
    if Mutators(sites, ns.key) == {ns.writer} {
      assert Elements([ns.writer]) == {ns.writer};
      SortedIsUnique(writers, [ns.writer]);
    } else if ns.writer in writers {
      assert ns.writer in Elements(writers);
      var path :| path in Mutators(sites, ns.key) && path != ns.writer;
      assert path in Elements(writers);
      TrespassersAreReported(writers, ns, sites, namespaces, path);
    }
  }

  lemma {:induction false} NamespacesAreClean(some: seq<Namespace>, sites: seq<Site>, namespaces: seq<Namespace>)
    ensures JudgedAll(some, sites, namespaces) == [] <==> forall ns <- some :: Mutators(sites, ns.key) == {ns.writer}
  {
    if some != [] {
      NamespaceIsClean(some[0], sites, namespaces);
      NamespacesAreClean(some[1..], sites, namespaces);
      assert some == [some[0]] + some[1..];
    }
  }

  /** No violation exactly when every site resolves and each namespace is mutated by its authorised writer and
      by nothing else. */
  lemma ConformingIff(sites: seq<Site>, namespaces: seq<Namespace>)
    ensures Evaluated(sites, namespaces) == [] <==>
      && (forall site <- sites :: site.namespace.Some?)
      && (forall ns <- namespaces :: Mutators(sites, ns.key) == {ns.writer})
  {
    NothingUnresolved(sites);
    NamespacesAreClean(namespaces, sites, namespaces);
  }

  /** Then no authorised writer reaches into a namespace that is not its own. */
  lemma ConformingWritersStayHome(sites: seq<Site>, namespaces: seq<Namespace>, site: Site, ns: Namespace)
    requires Evaluated(sites, namespaces) == [] && site in sites && ns in namespaces && site.namespace == Some(ns.key)
    ensures site.path == ns.writer
  {
    ConformingIff(sites, namespaces);
    assert site.path in Mutators(sites, ns.key);
  }

  lemma {:induction false} JudgedAllHas(some: seq<Namespace>, sites: seq<Site>, namespaces: seq<Namespace>,
      ns: Namespace)
    requires ns in some
    ensures forall v <- Judged(ns, sites, namespaces) :: v in JudgedAll(some, sites, namespaces)
  {
    if some[0] != ns {
      assert some == [some[0]] + some[1..];
      JudgedAllHas(some[1..], sites, namespaces, ns);
    }
  }

  lemma {:induction false} SitesOfMeets(sites: seq<Site>, path: string, key: string, site: Site)
    ensures site in SitesOf(sites, path, key) <==> site in sites && Writes(site, path, key)
  {
    if sites != [] {
      SitesOfMeets(sites[1..], path, key, site);
      assert sites == [sites[0]] + sites[1..];
    }
  }

  /** Every mutation of a namespace by a path that is not its writer is reported, with the namespace that path
      does own. */
  lemma EveryTrespassIsReported(sites: seq<Site>, namespaces: seq<Namespace>, site: Site, ns: Namespace)
    requires site in sites && ns in namespaces && site.namespace == Some(ns.key) && site.path != ns.writer
    ensures exists v <- Evaluated(sites, namespaces) ::
      v.Trespass? && v.key == ns.key && v.path == site.path && v.owns == Owns(namespaces, site.path) && site in v.sites
  {
    WritersAreMutators(sites, ns.key);
    assert site.path in Elements(Writers(sites, ns.key));
    TrespassersAreReported(Writers(sites, ns.key), ns, sites, namespaces, site.path);
    var v := Trespass(ns.key, site.path, Owns(namespaces, site.path), SitesOf(sites, site.path, ns.key));
    JudgedAllHas(namespaces, sites, namespaces, ns);
    assert v in Judged(ns, sites, namespaces);
    SitesOfMeets(sites, site.path, ns.key, site);
  }

  // ---- every report is true, and everything true is reported ----

  /** The path is the writer of the last namespace that says so, and of none if none does. */
  lemma {:induction false} OwnsIff(namespaces: seq<Namespace>, path: string, i: nat)
    requires i <= |namespaces| && (i > 0 ==> namespaces[i - 1].writer == path)
    requires forall j :: i <= j < |namespaces| ==> namespaces[j].writer != path
    ensures Owns(namespaces, path) == if i > 0 then Some(namespaces[i - 1].key) else None
  {
    if i < |namespaces| {
      OwnsIff(namespaces[..|namespaces| - 1], path, i);
    }
  }

  /** The sites of a trespass are those of the path in the namespace, in the order of all sites. */
  lemma {:induction false} SitesOfAppend(a: seq<Site>, b: seq<Site>, path: string, key: string)
    ensures SitesOf(a + b, path, key) == SitesOf(a, path, key) + SitesOf(b, path, key)
  {
    hide SitesOf;
    if a == [] {
      assert a + b == b;
      NoSites(path, key);
    } else {
      SitesOfAppend(a[1..], b, path, key);
      SitesOfCons(a[0], a[1..], path, key);
      SitesOfCons(a[0], a[1..] + b, path, key);
      assert [a[0]] + a[1..] == a && [a[0]] + (a[1..] + b) == a + b;
      Assoc(SitesOf([a[0]], path, key), SitesOf(a[1..], path, key), SitesOf(b, path, key));
    }
  }

  lemma NoSites(path: string, key: string)
    ensures SitesOf([], path, key) == []
  {
  }

  lemma SitesOfCons(site: Site, rest: seq<Site>, path: string, key: string)
    ensures SitesOf([site] + rest, path, key) == SitesOf([site], path, key) + SitesOf(rest, path, key)
  {
    SitesOfOne(site, path, key);
    assert ([site] + rest)[1..] == rest;
  }

  lemma SitesOfOne(site: Site, path: string, key: string)
    ensures SitesOf([site], path, key) == if site.path == path && site.namespace == Some(key) then [site] else []
  {
    assert [site][1..] == [];
  }

  predicate Mutates(sites: seq<Site>, path: string, key: string) {
    exists site <- sites :: site.path == path && site.namespace == Some(key)
  }

  /** What a violation says of the sites and the policy. */
  ghost predicate IsJustified(v: Violation, sites: seq<Site>, namespaces: seq<Namespace>) {
    match v
    case Unresolved(site) => site in sites && site.namespace.None?
    case Inactive(key, writer) =>
      exists ns <- namespaces :: ns.key == key && ns.writer == writer && !Mutates(sites, writer, key)
    case Trespass(key, path, owns, found) =>
      && (exists ns <- namespaces :: ns.key == key && ns.writer != path && Mutates(sites, path, key))
      && owns == Owns(namespaces, path) && found == SitesOf(sites, path, key)
  }

  lemma {:induction false} UnresolvedIff(sites: seq<Site>, v: Violation)
    ensures v in UnresolvedOf(sites) <==> v.Unresolved? && v.site in sites && v.site.namespace.None?
  {
    if sites != [] {
      UnresolvedIff(sites[1..], v);
      assert sites == [sites[0]] + sites[1..];
    }
  }

  lemma {:induction false} TrespassIff(writers: seq<string>, ns: Namespace, sites: seq<Site>,
      namespaces: seq<Namespace>, v: Violation)
    ensures v in TrespassesOf(writers, ns, sites, namespaces) <==>
      && v.Trespass? && v.key == ns.key && v.path in writers && v.path != ns.writer
      && v.owns == Owns(namespaces, v.path) && v.sites == SitesOf(sites, v.path, ns.key)
  {
    hide Owns, SitesOf;
    if writers != [] {
      TrespassIff(writers[1..], ns, sites, namespaces, v);
      assert writers == [writers[0]] + writers[1..];
    }
  }

  lemma WritersIff(sites: seq<Site>, path: string, key: string)
    ensures path in Writers(sites, key) <==> Mutates(sites, path, key)
  {
    WritersAreMutators(sites, key);
    assert path in Writers(sites, key) <==> path in Elements(Writers(sites, key));
  }

  lemma JudgedIff(ns: Namespace, sites: seq<Site>, namespaces: seq<Namespace>, v: Violation)
    ensures v in Judged(ns, sites, namespaces) <==>
      || (v == Inactive(ns.key, ns.writer) && !Mutates(sites, ns.writer, ns.key))
      || (&& v.Trespass? && v.key == ns.key && v.path != ns.writer && Mutates(sites, v.path, ns.key)
          && v.owns == Owns(namespaces, v.path) && v.sites == SitesOf(sites, v.path, ns.key))
  {
    hide Owns, SitesOf, Writers, Mutates;
    TrespassIff(Writers(sites, ns.key), ns, sites, namespaces, v);
    WritersIff(sites, ns.writer, ns.key);
    if v.Trespass? {
      WritersIff(sites, v.path, ns.key);
    }
  }

  lemma {:induction false} JudgedAllIff(some: seq<Namespace>, sites: seq<Site>, namespaces: seq<Namespace>,
      v: Violation)
    ensures v in JudgedAll(some, sites, namespaces) <==> exists ns <- some :: v in Judged(ns, sites, namespaces)
  {
    hide Judged;
    if some != [] {
      JudgedAllIff(some[1..], sites, namespaces, v);
      assert some == [some[0]] + some[1..];
    }
  }

  /** The verdict lists exactly what is wrong: unresolved sites, writers that do not write, and trespasses. */
  lemma VerdictIsExact(sites: seq<Site>, namespaces: seq<Namespace>, v: Violation)
    ensures v in Evaluated(sites, namespaces) <==> IsJustified(v, sites, namespaces)
  {
    hide Owns, SitesOf, Judged, Mutates;
    UnresolvedIff(sites, v);
    JudgedAllIff(namespaces, sites, namespaces, v);
    forall ns <- namespaces
      ensures v in Judged(ns, sites, namespaces) <==>
        || (v == Inactive(ns.key, ns.writer) && !Mutates(sites, ns.writer, ns.key))
        || (&& v.Trespass? && v.key == ns.key && v.path != ns.writer && Mutates(sites, v.path, ns.key)
            && v.owns == Owns(namespaces, v.path) && v.sites == SitesOf(sites, v.path, ns.key))
    {
      JudgedIff(ns, sites, namespaces, v);
    }
  }
}
