/** The repository execution contract and the generated Makefile, over an abstract file map. */
module Facade {
  import opened Documents
  import opened Strings
  import MakeProjection
  import opened RepoMk
  import opened RepoMkAdmission

  type Bytes = seq<bv8>

  datatype Entry = File(content: Bytes) | Symlink | Directory

  type Files = map<string, Entry>

  const CONTRACT_PATH := ".l9/repo-workflow.json"
  const MAKEFILE_PATH := "Makefile"
  const REPO_MK_PATH := "Repo.mk"

  datatype Failure =
    | MissingContract | UnreadableContract | NotAMapping
    | UnsupportedKeys(keys: set<string>) | MissingKeys(keys: set<string>)
    | WrongSchema | UnsupportedFacade | WrongPhases
    | MissingTemplate | MissingMakefile | Drift
    | MissingRepoMk | BadRepoMk(verdict: Verdict)
    | MakefileIsSymlink | CannotWrite

  datatype Outcome<+T> = Ok(value: T) | Fail(failure: Failure)

  /** What the installed tool brings along: the facade templates, the JSON parser and the text decoder. */
  datatype Core = Core(templates: map<string, Entry>, parse: Bytes -> Option<Value>, decode: Bytes -> string)

  // ---- the contract ----

  const KEYS := {"schema", "facade", "required_phases"}
  const SCHEMA := Text("l9.repo-execution/v2")
  const PHASES := List([Text("setup"), Text("validate"), Text("check"), Text("test")])

  function Content(files: Files, path: string): Option<Bytes> {
    if path in files && files[path].File? then Some(files[path].content) else None
  }

  function LoadContract(core: Core, files: Files): Outcome<Value> {
    var content := Content(files, CONTRACT_PATH);
    if content.None? then Fail(MissingContract) else
    var data := core.parse(content.value);
    if data.None? then Fail(UnreadableContract)
    else if !data.value.Mapping? then Fail(NotAMapping)
    else Ok(data.value)
  }

  /** The facade a contract names, once its checks have passed in their order. */
  function ValidateContract(core: Core, data: Value): Outcome<string> {
    if !data.Mapping? then Fail(NotAMapping)
    else if !(data.fields.Keys <= KEYS) then Fail(UnsupportedKeys(data.fields.Keys - KEYS))
    else if !(KEYS <= data.fields.Keys) then Fail(MissingKeys(KEYS - data.fields.Keys))
    else if data.fields["schema"] != SCHEMA then Fail(WrongSchema)
    else if !data.fields["facade"].Text? || data.fields["facade"].s !in core.templates then Fail(UnsupportedFacade)
    else if data.fields["required_phases"] != PHASES then Fail(WrongPhases)
    else Ok(data.fields["facade"].s)
  }

  /** The contract document of a facade. */
  function Document(facade: string): Value {
    Mapping(map["schema" := SCHEMA, "facade" := Text(facade), "required_phases" := PHASES])
  }

  /** Exactly one document per facade is admitted: three fields and no other. */
  lemma ContractIsExact(core: Core, data: Value, facade: string)
    ensures ValidateContract(core, data) == Ok(facade) <==> facade in core.templates && data == Document(facade)
  {
    var exact := Document(facade).fields;
    assert exact.Keys == KEYS;
    if ValidateContract(core, data) == Ok(facade) {
      assert data.fields == exact;
    }
  }

  /** What is wrong with any other document: the first of these, in this order. */
  lemma ContractFaults(core: Core, data: Value)
    ensures !data.Mapping? ==> ValidateContract(core, data) == Fail(NotAMapping)
    ensures data.Mapping? ==>
      var fields, keys := data.fields, {"schema", "facade", "required_phases"};
      var fault := ValidateContract(core, data);
      && (fields.Keys - keys != {} ==> fault == Fail(UnsupportedKeys(fields.Keys - keys)))
      && (fields.Keys < keys ==> fault == Fail(MissingKeys(keys - fields.Keys)))
      && (fields.Keys == keys ==>
            var named := exists facade <- core.templates :: fields["facade"] == Text(facade);
            var phases := List([Text("setup"), Text("validate"), Text("check"), Text("test")]);
            && (fault == Fail(WrongSchema) <==> fields["schema"] != Text("l9.repo-execution/v2"))
            && (fields["schema"] == Text("l9.repo-execution/v2") ==>
                  && (fault == Fail(UnsupportedFacade) <==> !named)
                  && (fault == Fail(WrongPhases) <==> named && fields["required_phases"] != phases)))
  {
  }

  function FacadeOf(core: Core, files: Files): Outcome<string> {
    var data := LoadContract(core, files);
    if data.Fail? then Fail(data.failure) else ValidateContract(core, data.value)
  }

  function Render(core: Core, facade: string): Outcome<Bytes> {
    if facade !in core.templates then Fail(UnsupportedFacade)
    else if !core.templates[facade].File? then Fail(MissingTemplate)
    else Ok(core.templates[facade].content)
  }

  function Expected(core: Core, files: Files): Outcome<Bytes> {
    var facade := FacadeOf(core, files);
    if facade.Fail? then Fail(facade.failure) else Render(core, facade.value)
  }

  // ---- the execution ----

  datatype Unit = Unit

  function Verified(core: Core, files: Files): Outcome<Unit> {
    var expected := Expected(core, files);
    if expected.Fail? then Fail(expected.failure) else
    var content := Content(files, MAKEFILE_PATH);
    if content.None? then Fail(MissingMakefile)
    else if content.value != expected.value then Fail(Drift)
    else Ok(Unit)
  }

  function RepoMkVerdict(core: Core, files: Files): Outcome<Unit> {
    var content := Content(files, REPO_MK_PATH);
    if content.None? then Fail(MissingRepoMk) else
    var verdict := RepoMk.Validate(core.decode(content.value));
    if verdict.Accepted? then Ok(Unit) else Fail(BadRepoMk(verdict))
  }

  function Validated(core: Core, files: Files): Outcome<Unit> {
    if Verified(core, files).Fail? then Verified(core, files) else RepoMkVerdict(core, files)
  }

  /** What reconciling answers and the tree it leaves. */
  function Reconciled(core: Core, files: Files): (Outcome<bool>, Files) {
    var expected := Expected(core, files);
    if expected.Fail? then (Fail(expected.failure), files)
    else if Content(files, MAKEFILE_PATH) == Some(expected.value) then (Ok(false), files)
    else if MAKEFILE_PATH !in files || files[MAKEFILE_PATH].File? then
      (Ok(true), files[MAKEFILE_PATH := File(expected.value)])
    else (Fail(if files[MAKEFILE_PATH].Symlink? then MakefileIsSymlink else CannotWrite), files)
  }

  class RepositoryExecution {
    const core: Core
    var files: Files

    constructor (core: Core, files: Files)
      ensures this.core == core && this.files == files
    {
      this.core, this.files := core, files;
    }

    method VerifyMakefile() returns (r: Outcome<Unit>)
      ensures r == Verified(core, files)
    {
      var expected := Expected(core, files);
      if expected.Fail? {
        return Fail(expected.failure);
      }
      if MAKEFILE_PATH !in files || !files[MAKEFILE_PATH].File? {
        return Fail(MissingMakefile);
      }
      if files[MAKEFILE_PATH].content != expected.value {
        return Fail(Drift);
      }
      return Ok(Unit);
    }

    method Validate() returns (r: Outcome<Unit>)
      ensures r == Validated(core, files)
    {
      var facade := FacadeOf(core, files);
      if facade.Fail? {
        return Fail(facade.failure);
      }
      r := VerifyMakefile();
      if r.Fail? {
        return;
      }
      if REPO_MK_PATH !in files || !files[REPO_MK_PATH].File? {
        return Fail(MissingRepoMk);
      }
      var verdict := RepoMk.ValidateRepoMkText(core.decode(files[REPO_MK_PATH].content));
      if !verdict.Accepted? {
        return Fail(BadRepoMk(verdict));
      }
    }

    method Reconcile() returns (r: Outcome<bool>)
      modifies this`files
      ensures (r, files) == Reconciled(core, old(files))
    {
      var expected := Expected(core, files);
      if expected.Fail? {
        return Fail(expected.failure);
      }
      if MAKEFILE_PATH in files && files[MAKEFILE_PATH].Symlink? {
        return Fail(MakefileIsSymlink);
      }
      if MAKEFILE_PATH in files && files[MAKEFILE_PATH].File? && files[MAKEFILE_PATH].content == expected.value {
        return Ok(false);
      }
      if MAKEFILE_PATH in files && files[MAKEFILE_PATH].Directory? {
        return Fail(CannotWrite);
      }
      files := files[MAKEFILE_PATH := File(expected.value)];
      return Ok(true);
    }
  }

  /** The Makefile verifies exactly when the contract is the one document of some facade of this tool, the
      facade's template is a regular file, and the Makefile is a regular file with the template's very bytes. */
  lemma VerifiedIff(core: Core, files: Files)
    ensures Verified(core, files).Ok? <==>
      exists facade <- core.templates ::
        && CONTRACT_PATH in files && files[CONTRACT_PATH].File?
        && core.parse(files[CONTRACT_PATH].content) == Some(Document(facade))
        && core.templates[facade].File?
        && MAKEFILE_PATH in files && files[MAKEFILE_PATH] == core.templates[facade]
  {
    hide ValidateContract;
    var data := LoadContract(core, files);
    forall facade: string | data.Ok?
      ensures ValidateContract(core, data.value) == Ok(facade) <==>
        facade in core.templates && data.value == Document(facade)
    {
      ContractIsExact(core, data.value, facade);
    }
    if FacadeOf(core, files).Ok? {
      assert FacadeOf(core, files).value in core.templates;
    }
  }

  /** A tree is in order: its contract is the document of a facade, its Makefile the facade's very bytes, and its
      `Repo.mk` declares, as phony, and implements the four leaves and redefines no verb of the facade. */
  ghost predicate InOrder(core: Core, files: Files) {
    && (exists facade <- core.templates ::
          && ".l9/repo-workflow.json" in files && files[".l9/repo-workflow.json"].File?
          && core.parse(files[".l9/repo-workflow.json"].content) == Some(Mapping(map[
               "schema" := Text("l9.repo-execution/v2"),
               "facade" := Text(facade),
               "required_phases" := List([Text("setup"), Text("validate"), Text("check"), Text("test")])]))
          && core.templates[facade].File?
          && "Makefile" in files && files["Makefile"] == core.templates[facade])
    && "Repo.mk" in files && files["Repo.mk"].File?
    && var text := core.decode(files["Repo.mk"].content);
       var kept := Splitlines(MakeProjection.Unconditional(text));
       && {"repo-setup", "repo-validate", "repo-check", "repo-test"}
            <= DeclaredIn(kept) * PhonyIn(kept) * ImplementedIn(kept)
       && DeclaredIn(Splitlines(text)) !! {"help", "setup", "validate", "check", "test"}
  }

  /** Validation succeeds exactly on such a tree. */
  lemma ValidatedIff(core: Core, files: Files)
    ensures Validated(core, files) == Ok(Unit) <==> InOrder(core, files)
  {
    hide DeclaredIn, PhonyIn, ImplementedIn, Splitlines, MakeProjection.Unconditional, Judge;
    VerifiedIff(core, files);
    if REPO_MK_PATH in files && files[REPO_MK_PATH].File? {
      var text := core.decode(files[REPO_MK_PATH].content);
      AcceptedIff(Splitlines(text), Splitlines(MakeProjection.Unconditional(text)));
    }
  }

  /** What is reported first where the contract is in order: a missing template, then the Makefile, then `Repo.mk`. */
  lemma ValidatedFails(core: Core, files: Files, facade: string)
    requires facade in core.templates && FacadeOf(core, files) == Ok(facade)
    ensures
      var template, r := core.templates[facade], Validated(core, files);
      && (!template.File? ==> r == Fail(MissingTemplate))
      && (template.File? ==>
            var makefile := "Makefile" in files && files["Makefile"].File?;
            var repoMk := "Repo.mk" in files && files["Repo.mk"].File?;
            && (r == Fail(MissingMakefile) <==> !makefile)
            && (r == Fail(Drift) <==> makefile && files["Makefile"] != template)
            && (makefile && files["Makefile"] == template ==>
                  && (r == Fail(MissingRepoMk) <==> !repoMk)
                  && (repoMk && !Validate(core.decode(files["Repo.mk"].content)).Accepted? ==>
                        r == Fail(BadRepoMk(Validate(core.decode(files["Repo.mk"].content)))))))
  {
    hide Validate;
  }

  /** And where it is not: nothing else is looked at. */
  lemma ContractFailsFirst(core: Core, files: Files)
    ensures FacadeOf(core, files).Fail? ==> Validated(core, files) == Fail(FacadeOf(core, files).failure)
    ensures !(".l9/repo-workflow.json" in files && files[".l9/repo-workflow.json"].File?) ==>
      FacadeOf(core, files) == Fail(MissingContract)
    ensures ".l9/repo-workflow.json" in files && files[".l9/repo-workflow.json"].File? ==>
      var data := core.parse(files[".l9/repo-workflow.json"].content);
      && (data.None? ==> FacadeOf(core, files) == Fail(UnreadableContract))
      && (data.Some? ==> FacadeOf(core, files) == ValidateContract(core, data.value))
  {
  }

  /** What writing the Makefile leaves alone: the contract and Repo.mk are other files. */
  lemma WritingKeepsTheRest(core: Core, files: Files, content: Bytes)
    ensures
      var after := files[MAKEFILE_PATH := File(content)];
      && Expected(core, after) == Expected(core, files)
      && RepoMkVerdict(core, after) == RepoMkVerdict(core, files)
      && (Verified(core, after).Ok? <==> Expected(core, files) == Ok(content))
  {
    assert CONTRACT_PATH[0] != MAKEFILE_PATH[0] && REPO_MK_PATH[0] != MAKEFILE_PATH[0];
  }

  /** Reconciling succeeds unless the contract or the facade is bad or something other than a file stands in
      the way, which the failure then names. It reports no change exactly when the Makefile verified before, and a
      failure changes nothing. */
  lemma ReconcileOutcome(core: Core, files: Files)
    ensures
      var (r, after) := Reconciled(core, files);
      && (r.Ok? <==> Expected(core, files).Ok? && (MAKEFILE_PATH in files ==> files[MAKEFILE_PATH].File?))
      && (r == Ok(false) <==> Verified(core, files).Ok?)
      && (Expected(core, files).Fail? ==> r == Fail(Expected(core, files).failure))
      && (Expected(core, files).Ok? ==>
            && (r == Fail(MakefileIsSymlink) <==> MAKEFILE_PATH in files && files[MAKEFILE_PATH].Symlink?)
            && (r == Fail(CannotWrite) <==> MAKEFILE_PATH in files && files[MAKEFILE_PATH].Directory?))
      && (r != Ok(true) <==> after == files)
      && after - {MAKEFILE_PATH} == files - {MAKEFILE_PATH}
  {
    var (r, after) := Reconciled(core, files);
    if r == Ok(true) {
      assert Content(after, MAKEFILE_PATH) != Content(files, MAKEFILE_PATH);
    }
  }

  /** Behind a successful reconcile the Makefile verifies, another one writes nothing, and the tree validates
      exactly when its Repo.mk did before. */
  lemma ReconcileConverges(core: Core, files: Files)
    requires Reconciled(core, files).0.Ok?
    ensures
      var after := Reconciled(core, files).1;
      && Verified(core, after).Ok?
      && Reconciled(core, after) == (Ok(false), after)
      && Validated(core, after) == RepoMkVerdict(core, files)
  {
    WritingKeepsTheRest(core, files, Expected(core, files).value);
    ReconcileOutcome(core, files);
  }
}
