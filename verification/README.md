# A verified model of the l9-ci-core policy tools

This project models the parts of `tools/` that decide something and proves what those decisions mean. It is
checked as a whole with `dafny verify dfyconfig.toml`.

## What is modelled

**The Make-fragment analyser** (`tools/l9_repo/contract.py`). `Repo.mk` is accepted only if every required
leaf is declared, phony and implemented outside every conditional and `define` block.

- `MakeLines`, `MakeProjection`, `MakeWords` model the two line joiners, the block blanking with its two nesting
  counters, the word splitter and the literal test: each loop is a method proved against a function, and the
  functions are related to a grammar of blocks (`MakeProjection`) and of Make text (`MakeGrammar`).
- `MakeVariables` models the table of variables the scan changes in place; `MakeVariableBounds` proves what the
  cycle guard and the depth cap do.
- `MakeSyntax` replaces the regular expressions by deterministic recognisers of one logical line.
- `MakeExpansion` and `MakeFile` are the reference, written from the GNU Make manual without regard to the analyser:
  how Make breaks a file into lines, joins them, tells blanks, finds comments, recipes and assignments outside
  references, reads a logical line with or without an open rule (sections 3.1, 3.7, 4.2, 5.1, 6.5 and 6.11), and what
  expansion and each assignment operator do (sections 6.2, 6.5 and 6.6). Functions, automatic variables, the shell and
  what becomes of a rule whose targets must be expanded first are an arbitrary `World`; the environment is arbitrary.
- `MakeAgreement` proves where the regular expressions and Make read a line alike, and on which files `splitlines`
  and Make see the same lines. `MakeSoundness` and `MakeReading`
  prove the analyser sound against the reference: a relation between the analyser's table and Make's state holds
  through every assignment and every line, so a credited prerequisite list is never blank.
- `MakeCompleteness` and `RepoMkCompleteness` prove the other direction, what the analyser must see: every way to write a
  reference, an assignment, an `undefine` or a prefix change, and in whole files exactly which lines earn a leaf its
  credit.
- `RepoMk`, `RepoMkAdmission`, `RepoMkRecipes` and `RepoMkWork` hold the leaf scan, the verdict, what acceptance means,
  what later lines can do to it, when a credited recipe is one to Make, and what an accepted leaf makes Make do.
- `MakeLimits`, `RepoMkLimits` and `RepoMkIdle` show, on concrete inputs, why each hypothesis is there; `RepoMkTemplate`
  shows that every file written in the plain way meets them and is accepted. `RepoMkRules` reads their lines.
- `Facade` is the repository execution over an abstract file map: contract, generated Makefile, reconcile.

**The single-flight lock** (`tools/l9_repo/locking.py`, module `Lock`): any number of processes, one file-system
operation a step, crashes and intruding files between any two steps.

**The release-writer check** (`tools/check_release_writers.py`): `ReleaseSources` (comment stripping, blanking of
Python literals, assignment collection), `ReleaseExpansion` (bounded expansion), `ReleaseOwnership` (classification
and the verdict).

**Companions**: `ActionPins` (`tools/advance_core_action_pins.py`), `RegistryProjection`
(`tools/project_required_repositories.py`), `ChangePolicy` (`tools/l9_repo/change_policy.py` and the validation of its
gates), `AgentCheck` and `ChecksumManifest` (`tools/l9_repo/__main__.py`), `ControlPlane`
(`tools/verify_control_plane.py`). `Strings`, `Ordering`, `Paths` and `Documents` hold what they share.

## What the proofs found

Where a promise of the code is not met for all inputs, the model keeps the code and states the exact condition.

- **A blank line after a trailing backslash is lost.** The unconditional projection is joined and split again, which
  drops one blank last line and uncovers the backslash. `BlankLineLosesAcceptance` gives whole files that are accepted,
  end in no backslash, and are no longer accepted with one more blank line. `AdmissionIsMonotoneIff` says exactly for
  which files acceptance survives every later line: those whose last logical line is not needed for the backslash it
  ends in. For the same reason `_unconditional_text` is idempotent on lines but on texts only under the condition of
  `UnconditionalIdempotent`.
- **Recipes that Make does not see.** The scan takes the text behind the first `;` for a recipe even inside a comment
  (`repo-test: # ; x`) or in the value of a target's variable (`repo-test: X = y ; z`), looks for recipe lines among
  physical lines, so also behind a comment that ends in a backslash and swallows them, and counts a lone backslash as
  text. `CreditedRecipeIff` says exactly when the credited recipe is one to Make; `CommentedRecipeIsIdle`,
  `TargetVariableIsIdle`, `SwallowedRecipeIsIdle` and `BackslashRecipeIsIdle` are the inputs. With any of them as its
  only rule Make has nothing to do for the leaf.
- **Lines that Make reads otherwise.** A line behind a tab is an assignment to Make as long as no rule is open, and two
  backslashes at the end of a line continue nothing; the analyser misses the assignment in both cases
  (`IndentedAssignmentIsIdle`, `DoubledBackslashIsIdle`). An assignment inside a conditional is blanked, so one that
  empties a variable is not seen (`BlockAssignmentIsIdle`). `repo-test: repo-%:` is credited for a target pattern
  (`PatternIsCredited`). `ReadAlike` says on which lines both read the same.
- **Whitespace that Make does not know.** `\s` matches a no-break space, so `X<U+00A0>= y` assigns `X`; to Make the space
  belongs to the name, and `X` stays empty (`NoBreakSpaceIsIdle`). `splitlines` breaks a line at every Unicode line
  break, so what follows one in a comment is read as code; to Make it is still comment (`LineBreakIsIdle`, for each such
  character). The two see the same lines of a file exactly if every line break in it is a line feed or a carriage return
  in front of one (`LinesAgreeIff`).
- **Late `+=`.** The table keeps a variable made by `:::=`, `?=` or `!=` as words already evaluated, while Make keeps
  it recursive. If a variable appended to it is emptied afterwards, the analyser still counts its word
  (`LateAppendIsUnsound`: exactly these three operators). Soundness therefore asks that such an append be proven
  without looking at variables.
- **`+=` behind the environment.** A bracket appended to an environment variable can close a reference that its value
  leaves open (`BracketBehindEnvironmentIsCredited`). Soundness asks for values without such brackets only where an
  environment value may stand in front, not on variables the file has made itself.
- **`|` or `;` from a variable** is credited although it names no target (`MarkIsCredited`); soundness is stated with and
  without that case. **A bare bracket inside a reference** is closed at a different place by Make
  (`BareBracketIsCredited`); soundness asks for well-bracketed text.
- **The depth cap is exact**: a chain of references is followed to its end exactly up to sixteen variables
  (`CapIsExact`), and the cap is invisible in stores of at most sixteen variables.
- **`:::=` also reads as a rule.** An unmodified assignment is taken for a rule line by the declaration scan
  exactly when its operator is `:::=`, so its name counts as a declared target (`AssignmentOrRule`).
- **A bare reference takes in what follows it.** Where `A` stands for `$B`, the release check expands `${A}c` to `$Bc`
  and then reads the name `Bc` (`BareReferenceMerges`). Expansion is exact as long as no round puts a character of a name
  behind a bare reference, which holds if no value ends in one.
- **Reclaiming a stale lock is three separate operations.** Exclusion needs both stated hypotheses: without them two
  reclaimers collide (`TwoReclaimersCollide`), or a slow live creator is evicted (`LiveCreatorIsEvicted`).
- **A ruleset's unreadable detail is not fail-closed.** All other lost responses are; losing this one turns a binding
  that failed for enforcement into one that passes (`LosingTheDetailPasses`). The code's documentation says it
  intends this.
- In `project`, a `lifecycle` that is a list or a mapping raises a type error and not the declared `ProjectionError`;
  in the release, receipt and attestation checks a few other unforeseen value shapes raise as well. The models have a
  result for this.

## Model

| member | source | states |
|---|---|---|
| MakeLines.LogicalLines | tools/l9_repo/contract.py:141-157 | the buffer loop joins continuations as the specification `Joined` does, with the number of the first physical line |
| MakeLines.JoinersAgree | tools/l9_repo/contract.py:401-406 | the lines the leaf scan visits equal those of `_logical_lines` exactly when the last physical line is not continued; otherwise they differ in that backslash |
| MakeLines.JoiningConservesLength | tools/l9_repo/contract.py:141-157 | joining loses no character: each continuation's backslash becomes one space |
| MakeLines.StartsIncrease | tools/l9_repo/contract.py:141-157 | logical lines start on strictly increasing physical lines of the file |
| MakeLines.JoinAppend | tools/l9_repo/contract.py:141-157 | a file that does not end in a continuation is joined independently of what follows |
| MakeProjection.DirectiveWord | tools/l9_repo/contract.py:206-210 | the modifier loop finds the directive a line carries; a recipe line carries none |
| MakeProjection.Track | tools/l9_repo/contract.py:211-230 | one line's effect on the two counters and whether it survives |
| MakeProjection.UnconditionalText | tools/l9_repo/contract.py:192-231 | the loop computes the projection of the file |
| MakeProjection.ProjectionMeetsGrammar | tools/l9_repo/contract.py:192-231 | for every well-nested tree of plain lines, conditionals and nested definitions exactly the top-level plain lines are kept and the rest is blanked at its index |
| MakeProjection.KindIs | tools/l9_repo/contract.py:206-227 | a line opens or closes a block exactly by its first word behind modifiers, `define`, `endef`, `ifdef`, `ifndef`, `ifeq`, `ifneq` or `endif`; recipe lines and comments never do |
| MakeProjection.BlockContentsAreInvisible | tools/l9_repo/contract.py:468-472 | files with the same top level and the same number of lines have the same projection, so declared, phony and implemented targets do not depend on what blocks contain |
| MakeProjection.ProjectAppend | tools/l9_repo/contract.py:202-231 | the projection of a concatenation continues with the counters the first part leaves |
| MakeProjection.ProjectIdempotent | tools/l9_repo/contract.py:192-231 | on line lists the projection is idempotent, well nested or not |
| MakeProjection.UnconditionalIdempotent | tools/l9_repo/contract.py:192-231 | on texts it is idempotent exactly when the projection has at most one line or its last line is not blank |
| MakeProjection.SplitUnconditional | tools/l9_repo/contract.py:231-231 | splitting the joined projection gives the projected lines without one blank last line |
| MakeWords.SplitMakeWords | tools/l9_repo/contract.py:248-275 | the index and depth loop computes the word list of its specification |
| MakeWords.HasLiteralText | tools/l9_repo/contract.py:278-298 | the scan with early return computes the literal test |
| MakeWords.SplitLosesOnlyOuterSpace | tools/l9_repo/contract.py:248-275 | the words together are the text without its whitespace outside references |
| MakeWords.NoEmptyWord | tools/l9_repo/contract.py:248-275 | no word is empty |
| MakeWords.SplitNormalForm | tools/l9_repo/contract.py:248-275 | splitting the words joined by blanks gives the same words |
| MakeGrammar.LiteralTest | tools/l9_repo/contract.py:278-298 | on text printed from literals, `$$` and well-bracketed references the test is true exactly when a literal or `$$` stands outside all references |
| MakeVariables.VariableTable.constructor | tools/l9_repo/contract.py:392-393 | the scan starts with no variable |
| MakeVariables.VariableTable.ProvenTokens | tools/l9_repo/contract.py:301-336 | the accumulating recursion computes the proven words on every table, cyclic ones included |
| MakeCompleteness.ReferenceProves | tools/l9_repo/contract.py:73-75 | `$(NAME)`, `${NAME}` and `$N` each prove exactly the words kept of the variable, or what its text proves with the name refused; nothing if it is unknown or refused or sixteen names are being resolved |
| MakeCompleteness.WordsProveSeparately | tools/l9_repo/contract.py:317-336 | words separated by blanks prove what each proves alone, in order |
| MakeCompleteness.ReferenceBehindAssignment | tools/l9_repo/contract.py:339-362 | for each operator, what a later reference to the assigned variable proves |
| MakeVariables.VariableTable.Define | tools/l9_repo/contract.py:345-348 | a fresh variable object replaces the entry and no other entry changes |
| MakeVariables.VariableTable.Extend | tools/l9_repo/contract.py:349-355 | `+=` changes the existing object in place, its words or its raw text |
| MakeVariables.VariableTable.RecordAssignment | tools/l9_repo/contract.py:339-362 | every operator changes the table as specified |
| MakeVariables.VariableTable.Undefine | tools/l9_repo/contract.py:419-422 | the entry is gone and no other changes |
| MakeVariableBounds.ResolvingMoreProvesLess | tools/l9_repo/contract.py:325-335 | refusing more names yields a subsequence of the words |
| MakeVariableBounds.CapInvisible | tools/l9_repo/contract.py:326-331 | with at most sixteen variables the result is that of the version with the cycle guard and no depth cap |
| MakeLimits.CapIsExact | tools/l9_repo/contract.py:326-331 | a chain of n references is proven exactly when n is at most sixteen |
| MakeSyntax.AssignmentOrRule | tools/l9_repo/contract.py:58-70 | an unmodified assignment line also matches the rule pattern exactly when its operator is `:::=` |
| MakeSyntax.AssignmentReads | tools/l9_repo/contract.py:67-70 | a name, an operator as Make writes it and a value, blanks between them, read as that assignment |
| MakeSyntax.AssignmentIsWritten | tools/l9_repo/contract.py:67-70 | and every line read as an unmodified assignment is written so |
| MakeCompleteness.AssignmentParses | tools/l9_repo/contract.py:67-70 | such an assignment is recorded, also of a variable called like a modifier |
| MakeCompleteness.ModifierIsSkipped | tools/l9_repo/contract.py:67-70 | `override`, `export` and `private` in front make no difference |
| MakeCompleteness.UndefineParses | tools/l9_repo/contract.py:71-71 | `undefine NAME` is recognised, also behind `override` |
| MakeCompleteness.ParsedUndefine | tools/l9_repo/contract.py:71-71 | and nothing else is |
| MakeCompleteness.PrefixParses | tools/l9_repo/contract.py:62-64 | `.RECIPEPREFIX` with any operator but `:::=` is a prefix change |
| MakeCompleteness.ParsedPrefix | tools/l9_repo/contract.py:62-64 | and nothing else is |
| MakeCompleteness.PrefixIs | tools/l9_repo/contract.py:411-412 | the new prefix is the first character of the value in front of a comment, or the tab |
| MakeCompleteness.LineIs | tools/l9_repo/contract.py:407-425 | what a line is taken for: each kind exactly where those tested before it do not fit |
| MakeSyntax.RuleReads | tools/l9_repo/contract.py:56-58 | a target list and colons that do not begin an assignment read as that rule |
| MakeSyntax.RuleIsWritten | tools/l9_repo/contract.py:56-58 | and every line read as a rule is written so |
| MakeSoundness.ProvenComesFromItem | tools/l9_repo/contract.py:301-336 | a proven word of printed text comes from one literal or one reference to a name that is itself proven |
| MakeSoundness.LiteralIsProven | tools/l9_repo/contract.py:317-320 | visible text outside references is always proven |
| MakeReading.LiteralsAreProvenExactly | tools/l9_repo/contract.py:301-336 | where no variable is known something is proven exactly when visible text stands outside references |
| MakeSoundness.LiteralIsFine | tools/l9_repo/contract.py:278-298 | text with a visible literal outside references never expands to a blank |
| MakeSoundness.FineBehind | tools/l9_repo/contract.py:349-355 | nothing put in front of it with a blank, as `+=` onto an environment value does, makes such a text expand to a blank |
| MakeReading.ProvenItemIsFine | tools/l9_repo/contract.py:317-336 | under the relation between table and store a proven item expands to something visible or not at all |
| MakeReading.AssignModels | tools/l9_repo/contract.py:339-362 | every assignment, for every operator, keeps the relation between the analyser's table and Make's store; brackets outside references are excluded only from `+=` onto what may end an environment value |
| MakeAgreement.LinesAgreeIff | tools/l9_repo/contract.py:147-147 | a file read as text and split by `splitlines` has the lines Make sees exactly if each of its line breaks is a line feed or a carriage return in front of one |
| MakeAgreement.ReadAlike | tools/l9_repo/contract.py:407-425 | on a plain line, with no whitespace but spaces and tabs in code or among targets, the regular expressions and Make's own reading agree: recipe line, prefix change, assignment, `undefine`, rule with its prerequisites and recipe, or nothing |
| MakeAgreement.GatheredIsJoined | tools/l9_repo/contract.py:141-157 | where no line ends in two backslashes Make joins lines as `_logical_lines` does, with the same numbers |
| MakeReading.RunModels | tools/l9_repo/contract.py:407-422 | through every run over lines of the fragment, read by Make's own rules, rules with computed targets among them, the analyser's table and recipe prefix describe Make's state, and so does whether a rule is open wherever that can be known, or Make has stopped |
| MakeReading.CreditedPrerequisitesAreThere | tools/l9_repo/contract.py:433-453 | soundness: for every environment and world, behind lines of the fragment, Make either stops or reads the credited plain line as a rule for the same targets and expands its prerequisites to something not blank; in files that assign no vertical bar and no `;`, to something with a prerequisite or a recipe in it, unless a `:` makes a pattern of it |
| MakeLimits.LateAppendIsUnsound | tools/l9_repo/contract.py:345-362 | for four given lines the analyser credits what Make expands to a blank exactly if the first operator is `:::=`, `?=` or `!=` |
| MakeLimits.MarkIsCredited | tools/l9_repo/contract.py:438-442 | a variable holding only a vertical bar or only a semicolon is credited and names nothing |
| MakeLimits.BracketBehindEnvironmentIsCredited | tools/l9_repo/contract.py:349-355 | a bracket appended by `+=` is credited, and with an open reference in the environment Make expands the whole to nothing |
| MakeLimits.BareBracketIsCredited | tools/l9_repo/contract.py:283-296 | a reference with a bare bracket is credited as literal text and may expand to nothing |
| RepoMk.MakeTargetDeclarations | tools/l9_repo/contract.py:160-178 | the loop lists the ordinary targets of every rule line with its number |
| RepoMk.DeclarationsName | tools/l9_repo/contract.py:168-178 | the numbered declarations name exactly the declared targets |
| RepoMk.MakePhonyTargets | tools/l9_repo/contract.py:181-189 | the loop collects the names of all `.PHONY` lines |
| RepoMk.JoinContinued | tools/l9_repo/contract.py:402-406 | the indexed joiner takes exactly the lines its specification takes |
| RepoMk.FindRecipe | tools/l9_repo/contract.py:443-451 | the scan with `break` finds a recipe line behind blank and comment lines |
| RepoMk.Apply | tools/l9_repo/contract.py:409-422 | one line's effect on the recipe prefix and, in place, on the variables |
| RepoMk.Implements | tools/l9_repo/contract.py:426-453 | the leaves a rule line implements, by prerequisites, inline recipe or recipe line |
| RepoMk.ImplementedLeaves | tools/l9_repo/contract.py:365-454 | the whole scan computes the implemented leaves |
| RepoMk.RequireLeaves | tools/l9_repo/contract.py:474-486 | the first required leaf that is missing, not phony or idle decides, in this order |
| RepoMk.RefuseFacade | tools/l9_repo/contract.py:487-490 | the first declaration of a facade target decides |
| RepoMk.ValidateRepoMkText | tools/l9_repo/contract.py:457-490 | the verdict on a text, with its reason |
| RepoMkCompleteness.AssignedReferenceIsCredited | tools/l9_repo/contract.py:384-389 | in every file: behind a line that assigns visible text by `=`, `:=`, `::=` or `:::=`, and lines that leave the variable alone, a leaf whose only prerequisite is a reference to it, in any of its three forms, is implemented |
| RepoMkCompleteness.ScanRecipeIff | tools/l9_repo/contract.py:443-451 | a recipe is found exactly if a line begins with the prefix and has text, and all lines in front of it are blank, blank behind the prefix, or comments |
| RepoMkCompleteness.CreditedIff | tools/l9_repo/contract.py:426-453 | a rule credits exactly the required leaves among its targets, and that if its prerequisites prove something, text stands behind its first `;`, or a recipe line behind it |
| RepoMkCompleteness.ImplementedIff | tools/l9_repo/contract.py:401-454 | implemented are exactly the leaves that some logical line credits in the scope in front of it |
| RepoMkAdmission.AcceptedIff | tools/l9_repo/contract.py:473-490 | accepted exactly when every leaf is unconditionally declared, phony and implemented and no line, conditional or not, declares a facade target |
| RepoMkAdmission.DeclaredIff | tools/l9_repo/contract.py:168-178 | declared are exactly the targets of rule lines that do not begin with a dot |
| RepoMkAdmission.PhonyIff | tools/l9_repo/contract.py:181-189 | phony are exactly the names behind `.PHONY` and a colon, up to a comment |
| RepoMkAdmission.VerdictOnLeaves | tools/l9_repo/contract.py:474-486 | the first leaf that is not in order is reported, as missing, not phony or idle in this order |
| RepoMkAdmission.VerdictOnFacade | tools/l9_repo/contract.py:487-490 | where all leaves are in order the declarations decide |
| RepoMkAdmission.FirstFacadeIsReported | tools/l9_repo/contract.py:487-490 | and then the first target of the facade is reported with the line its logical line starts on |
| RepoMkAdmission.ImplementedAreDeclared | tools/l9_repo/contract.py:401-454 | for every file the implemented leaves are among the declared targets |
| RepoMkAdmission.LeavesGrow | tools/l9_repo/contract.py:401-454 | lines behind an unfinished scan only add implemented leaves |
| RepoMkAdmission.AdmissionIsMonotoneIff | tools/l9_repo/contract.py:457-490 | an accepted file that ends in no backslash stays accepted whatever follows that declares no facade target, except exactly if its projected text ends in one and some leaf is credited by no earlier line and, without the backslash, not by the last line's prerequisites or inline recipe either |
| RepoMkAdmission.AdmissionIsMonotone | tools/l9_repo/contract.py:457-490 | so it is for every file whose projection ends in no backslash either |
| RepoMkRecipes.InlineRecipeIff | tools/l9_repo/contract.py:433-437 | the text behind the first `;` is Make's inline recipe exactly when no comment begins in front of it and no assignment to a variable of the target stands there |
| RepoMkRecipes.ScannedRecipeIff | tools/l9_repo/contract.py:443-451 | for every list of physical lines Make takes the line the scan stops at as a recipe line with text exactly when no comment in front is continued onto it, nothing Make sees as code stands in front, and it is more than backslashes |
| RepoMkRecipes.CreditedRecipeIff | tools/l9_repo/contract.py:433-453 | so a credited recipe is one to Make exactly under these two conditions |
| RepoMkWork.AcceptedLeafHasWork | tools/l9_repo/contract.py:384-389 | each leaf of an accepted file that breaks its lines as Make does and is in scope has a rule that Make, in its own lines, by its own reading and in every environment, gives a recipe with text or prerequisites that expand to something, or Make stops in front of it |
| RepoMkIdle.CommentedRecipeIsIdle | tools/l9_repo/contract.py:433-437 | `repo-test: # ; x` is credited for a recipe and gives Make nothing to do |
| RepoMkIdle.TargetVariableIsIdle | tools/l9_repo/contract.py:372-374 | `repo-test: X = y ; z` is credited for a recipe; to Make it is a variable of the target |
| RepoMkIdle.SwallowedRecipeIsIdle | tools/l9_repo/contract.py:443-451 | a recipe line behind a comment that ends in a backslash is credited; to Make it is part of the comment |
| RepoMkIdle.BackslashRecipeIsIdle | tools/l9_repo/contract.py:447-448 | a recipe line of one backslash is credited; to Make it has no text |
| RepoMkIdle.IndentedAssignmentIsIdle | tools/l9_repo/contract.py:407-408 | an assignment behind a tab with no rule open is passed over; to Make it empties the credited variable |
| RepoMkIdle.DoubledBackslashIsIdle | tools/l9_repo/contract.py:401-406 | a line ending in two backslashes is joined with the next; Make keeps them apart, and the next one empties the credited variable |
| RepoMkIdle.BlockAssignmentIsIdle | tools/l9_repo/contract.py:211-230 | an assignment in a conditional is blanked; where Make takes it, it empties the credited variable |
| RepoMkIdle.PatternIsCredited | tools/l9_repo/contract.py:438-442 | `repo-test: repo-%:` is credited for what Make expands to a target pattern without prerequisites |
| RepoMkIdle.NoBreakSpaceIsIdle | tools/l9_repo/contract.py:67-70 | an assignment with a no-break space in front of its operator is recorded; to Make the space is part of the name, and the credited variable is empty |
| RepoMkIdle.LineBreakIsIdle | tools/l9_repo/contract.py:394-394 | for every line break but the line feed: an assignment behind it in a comment is recorded; to Make it is comment, and the credited variable is empty |
| RepoMkTemplate.TemplateIsAdmitted | tools/l9_repo/contract.py:457-490 | every file of one `.PHONY` line and a rule with a literal prerequisite for each leaf is accepted |
| RepoMkTemplate.TemplateIsInScope | tools/l9_repo/contract.py:384-389 | and lies in the scope of `AcceptedLeafHasWork` |
| RepoMkTemplate.ReferenceRuleIsInFragment | tools/l9_repo/contract.py:56-58 | so is every rule line that begins with a reference, without comment or `=`, wherever it stands in the fragment |
| RepoMkTemplate.BlankLineLosesAcceptance | tools/l9_repo/contract.py:202-231 | each such file with `repo-test: \` and a blank line at its end is accepted, ends in no backslash, and with one more blank line is refused |
| RepoMkLimits.TrailingBackslashIsCredited | tools/l9_repo/contract.py:402-406 | a rule that ends the file in a backslash is credited for it, and with a blank line behind it is not |
| Facade.ContractIsExact | tools/l9_repo/contract.py:101-127 | for each facade exactly one document is admitted: the three fields with their values |
| Facade.RepositoryExecution.constructor | tools/l9_repo/contract.py:496-497 | the execution works on the given tree |
| Facade.VerifiedIff | tools/l9_repo/contract.py:513-521 | the Makefile verifies exactly when the contract is the one document of some facade, its template is a regular file and the Makefile has the template's bytes |
| Facade.ContractFaults | tools/l9_repo/contract.py:101-127 | every other document has the first of these faults: no mapping, foreign keys, missing keys, schema, facade, phases |
| Facade.ContractFailsFirst | tools/l9_repo/contract.py:87-98 | a missing, unreadable or faulty contract is what is reported, whatever else is wrong |
| Facade.ValidatedIff | tools/l9_repo/contract.py:523-528 | validation succeeds exactly if the contract is the document of a facade, the Makefile its very bytes, and `Repo.mk` declares, as phony, and implements the four leaves and redefines no verb |
| Facade.ValidatedFails | tools/l9_repo/contract.py:511-528 | where the contract is in order, a missing template, then the Makefile, then `Repo.mk` is reported |
| Facade.RepositoryExecution.Validate | tools/l9_repo/contract.py:523-528 | the three validations in their order, without mutation |
| Facade.RepositoryExecution.Reconcile | tools/l9_repo/contract.py:530-544 | the answer and the tree it leaves |
| Facade.ReconcileOutcome | tools/l9_repo/contract.py:530-544 | reconciling succeeds exactly when the facade renders and no link or directory is in the way, reports no change exactly when the Makefile verified, and changes nothing else |
| Facade.ReconcileConverges | tools/l9_repo/contract.py:530-544 | behind a success the Makefile verifies, a second call writes nothing, and validation depends on Repo.mk alone |
| Lock.UndisturbedStep | tools/l9_repo/locking.py:34-43 | while locks are fresh every step keeps whoever holds the creator, and only the creator's release removes the directory |
| Lock.FreshExclusion | tools/l9_repo/locking.py:34-70 | in every interleaving with crashes in which each `stat` sees a fresh lock at most one process holds it, and only its creator removes it |
| Lock.OrderlyStep | tools/l9_repo/locking.py:44-60 | every careful step keeps: a live holder made the directory, a live reclaimer is alone and faces a dead creator's lock |
| Lock.ReclaimExclusion | tools/l9_repo/locking.py:44-70 | exclusion at single operations if reclaim starts only on a crashed creator's lock and while nobody else reclaims |
| Lock.RivalInGapWins | tools/l9_repo/locking.py:54-60 | a rival's `mkdir` between the reclaimer's `rmdir` and `mkdir` makes the reclaimer busy |
| Lock.StaleLockIsAcquired | tools/l9_repo/locking.py:34-64 | alone in front of a stale lock with at most an owner file naming nobody alive, a process acquires it in at most eleven steps and is named in it |
| Lock.FreshLockIsRefused | tools/l9_repo/locking.py:37-43 | in front of any present directory that its clock calls fresh a process is busy after two steps and has changed nothing |
| Lock.VanishedLockIsRefused | tools/l9_repo/locking.py:38-43 | so it is if the directory vanishes between `mkdir` and `stat` |
| Lock.ForeignEntryIsRefused | tools/l9_repo/locking.py:44-50 | and in front of a stale one with a foreign entry, whose owner file stays |
| Lock.OwnerDecides | tools/l9_repo/locking.py:14-27 | in front of a stale lock with a name, six steps change nothing and refuse exactly if the name is that of a live process |
| Lock.AttemptEnds | tools/l9_repo/locking.py:34-70 | whatever all others do, every step brings an attempt nearer to its end, none waits or starts over, and fourteen end it |
| Lock.AttemptAloneEnters | tools/l9_repo/locking.py:34-64 | an undisturbed attempt is inside or refused after at most eleven steps, whatever its clock and `kill` say |
| Lock.LostLockIsRefused | tools/l9_repo/locking.py:44-60 | who finds the directory gone while it reclaims is refused and makes none |
| Lock.LostLockIsGivenUp | tools/l9_repo/locking.py:62-70 | who finds it gone before its name is written gives up and makes none |
| Lock.IntruderSavesDirectory | tools/l9_repo/locking.py:54-70 | a foreign entry put in front of a `rmdir` saves the directory |
| Lock.WriteNeedsFile | tools/l9_repo/locking.py:62-64 | the name is written as long as the owner file is there |
| Lock.RefusalIsHarmless | tools/l9_repo/locking.py:42-60 | no step that refuses touches the directory |
| Lock.ReleaseRemoves | tools/l9_repo/locking.py:65-70 | leaving removes the directory unless something foreign was put into it |
| Lock.TwoReclaimersCollide | tools/l9_repo/locking.py:44-60 | two reclaimers of one dead lock can both be inside |
| Lock.LiveCreatorIsEvicted | tools/l9_repo/locking.py:44-64 | a live creator that has not yet written its name can be evicted |
| ReleaseSources.StripComments | tools/check_release_writers.py:205-228 | the quote-state loop returns the longest prefix before any `#` outside quotes |
| ReleaseSources.StrippingIsIdempotent | tools/check_release_writers.py:205-228 | there is one such prefix and it strips to itself |
| ReleaseSources.CommentIsCut | tools/check_release_writers.py:205-228 | behind plain text and closed quotations, escapes included, exactly the comment goes |
| ReleaseSources.OpenQuotationIsKept | tools/check_release_writers.py:216-219 | a quotation that is never closed keeps the line whole |
| ReleaseSources.BlankToken | tools/check_release_writers.py:250-257 | one token overwrites its span on every line it covers and no other |
| ReleaseSources.BlankTokens | tools/check_release_writers.py:247-258 | the loop overwrites the lines in place, token after token |
| ReleaseSources.BlankingIsUnion | tools/check_release_writers.py:247-258 | for spans in range, in any order, every length is kept and exactly the union of the spans becomes spaces |
| ReleaseSources.BlankingOrderIsIrrelevant | tools/check_release_writers.py:247-258 | order and repetition of the tokens do not matter |
| ReleaseSources.CollectAssignments | tools/check_release_writers.py:261-277 | a name stands for v exactly when all its assignments have value v, else for no value |
| ReleaseSources.UnquotedIff | tools/check_release_writers.py:267-269 | a value in equal quotes is what stands between them; any other stays |
| ReleaseSources.CollectedIff | tools/check_release_writers.py:261-277 | a name is collected exactly if a line assigns it, and stands for v exactly if every such line assigns v |
| ReleaseSources.CollectionOrderIsIrrelevant | tools/check_release_writers.py:261-277 | only which lines there are counts, not their order or repetition |
| ReleaseExpansion.Expand | tools/check_release_writers.py:295-318 | the bounded loop with its early exits computes the specified expansion |
| ReleaseExpansion.Expanded | tools/check_release_writers.py:302-318 | no `$` is ever left |
| ReleaseExpansion.EightRounds | tools/check_release_writers.py:302-318 | a chain of references is followed exactly up to eight |
| ReleaseExpansion.MarkSurvives | tools/check_release_writers.py:307-318 | once the unresolved marker stands in the text no later round loses it |
| ReleaseExpansion.UnknownNameFailsClosed | tools/check_release_writers.py:307-312 | any reference, braced or not, to an unassigned or conflicting name leaves the marker |
| ReleaseExpansion.ExpansionIsExactOrFailsClosed | tools/check_release_writers.py:295-318 | for a text of references, braced or not, and no other `$`, in any number of rounds, the result is full recursive substitution to that depth, or carries the marker, as long as no round puts a character of a name behind a bare reference; only the names the text reaches need to stand for such texts |
| ReleaseExpansion.ClosedValuesStaySeparated | tools/check_release_writers.py:295-318 | no round ever does if no value ends in a bare reference and none is in front of such a character from the start, so for braced references alone nothing is asked |
| ReleaseExpansion.BareReferenceMerges | tools/check_release_writers.py:295-318 | with `A` as `$B`, `B` as `x` and `Bc` as `y`, `${A}c` becomes `y` without the marker where substitution gives `xc` |
| ReleaseOwnership.Classify | tools/check_release_writers.py:344-352 | the search returns the first matching namespace, `other` for none, and nothing for an unresolved ref |
| ReleaseOwnership.ClassifiedIff | tools/check_release_writers.py:344-352 | `refs/tags/NAME`, like NAME, belongs to the first namespace whose pattern matches NAME, to `other` exactly if none does, and to nothing exactly if it holds the marker |
| ReleaseOwnership.PrefixIsIrrelevant | tools/check_release_writers.py:348-348 | the prefix never makes a difference |
| ReleaseOwnership.ClassifiedTargetsAreResolved | tools/check_release_writers.py:344-352 | under the same condition on bare references a target is classified only if substitution within eight levels resolves it, and then as what it resolves to, whatever the names it does not reach stand for |
| ReleaseOwnership.Authorized | tools/check_release_writers.py:465-467 | the namespace a path is the writer of, the last one if of several |
| ReleaseOwnership.OwnsIff | tools/check_release_writers.py:465-467 | it is the last namespace that names the path as its writer |
| ReleaseOwnership.JudgeNamespace | tools/check_release_writers.py:477-505 | the violations reported for one namespace, in their order |
| ReleaseOwnership.Evaluate | tools/check_release_writers.py:463-506 | the loops report unresolved sites and each namespace's violations |
| ReleaseOwnership.VerdictIsExact | tools/check_release_writers.py:463-506 | a violation is reported exactly if it is one: a site that does not resolve, a writer that does not write, a path that mutates another's namespace, with all its sites |
| ReleaseOwnership.ConformingIff | tools/check_release_writers.py:463-506 | no violation exactly when every site resolves and each namespace is mutated by its authorised writer and nothing else |
| ReleaseOwnership.ConformingWritersStayHome | tools/check_release_writers.py:486-505 | then a site that mutates a namespace is in its writer, so distinct writers never cross-write |
| ReleaseOwnership.EveryTrespassIsReported | tools/check_release_writers.py:486-505 | every mutation by another path is reported, with the namespace that path owns and the site |
| ActionPins.PrintedParses | tools/advance_core_action_pins.py:37-40 | reading a printed pin line gives back its parts |
| ActionPins.ParsedPrints | tools/advance_core_action_pins.py:37-40 | printing what was read gives back the line: a pin line has one decomposition |
| ActionPins.ReferenceOnIff | tools/advance_core_action_pins.py:37-40 | a line pins a reference exactly if it uses one of Core's own actions at it, written out character by character |
| ActionPins.RewriteOne | tools/advance_core_action_pins.py:69-78 | one turn of the loop: the new line, and a change exactly where a full pin differs |
| ActionPins.Rewrite | tools/advance_core_action_pins.py:60-79 | the loop over the lines computes the rewritten text and the list of changes |
| ActionPins.ChangesIff | tools/advance_core_action_pins.py:66-79 | the changes are exactly the lines that pin another full SHA, with their numbers and both SHAs, in order |
| ActionPins.PinsIff | tools/advance_core_action_pins.py:82-89 | the pins are exactly the references with their lines, in order |
| ActionPins.RewriteTwice | tools/advance_core_action_pins.py:60-79 | advancing to a and then to b is advancing to b |
| ActionPins.RewriteTouchesOnlyPins | tools/advance_core_action_pins.py:60-89 | the number of lines, every line that is no full pin, floating references and the places of all pins stay; full pins get the new SHA |
| ActionPins.RewriteLeavesNoDrift | tools/advance_core_action_pins.py:45-89 | where nothing floats, nothing drifts or floats behind a rewrite |
| ActionPins.UnchangedIff | tools/advance_core_action_pins.py:146-151 | no change is reported exactly when the text stays as it is |
| ActionPins.Run | tools/advance_core_action_pins.py:106-157 | the exit code and the file behind each mode |
| ActionPins.ExitIff | tools/advance_core_action_pins.py:106-157 | exit 2 exactly for an unusable SHA or file, 1 exactly if otherwise a reference floats, or drifts in a check; only a successful write touches the file, a dry run never |
| ActionPins.WriteThenCheck | tools/advance_core_action_pins.py:128-157 | behind a successful write the check succeeds and a second write changes nothing; the check succeeds exactly when a write would change nothing |
| RegistryProjection.Project | tools/project_required_repositories.py:72-123 | the loop with its checks in their order computes the projection or the first fault |
| RegistryProjection.ReadIff | tools/project_required_repositories.py:90-118 | which entries are read, field by field |
| RegistryProjection.HeaderIff | tools/project_required_repositories.py:75-89 | which registries are |
| RegistryProjection.TakeFaults | tools/project_required_repositories.py:90-118 | of an entry that is refused, the first check it fails is reported |
| RegistryProjection.FirstEntryFaults | tools/project_required_repositories.py:90-118 | of several entries, the first that is refused |
| RegistryProjection.ProjectionIsCanonical | tools/project_required_repositories.py:84-123 | accepted exactly when every entry is well-formed, ids and case-folded coordinates are distinct and one is current; the result is exactly the current coordinates, strictly ordered by case-folded key |
| RegistryProjection.EntryOrderIsIrrelevant | tools/project_required_repositories.py:90-123 | permuting the entries changes neither acceptance nor result |
| RegistryProjection.VerifyPassesIff | tools/project_required_repositories.py:216-244 | for every policy and receipt: no problem exactly when both agree on some members, at least one, in canonical order with their digest, the registry as source and a full commit |
| RegistryProjection.ProblemsAre | tools/project_required_repositories.py:216-244 | each problem is reported exactly if it is there |
| RegistryProjection.VerifyRaisesIff | tools/project_required_repositories.py:216-244 | verification raises exactly on members that are no texts or a source that is no mapping |
| RegistryProjection.RenderIs | tools/project_required_repositories.py:130-158 | the rendered policy differs in its list only, and the receipt has exactly these fields |
| RegistryProjection.RenderedPassesVerify | tools/project_required_repositories.py:130-158 | every policy and receipt rendered from a projection passes the verification |
| ChangePolicy.AcceptedPathIff | tools/l9_repo/change_policy.py:56-75 | accepted exactly when every component is non-empty and no `.` or `..` and no forbidden character occurs, and then unchanged |
| ChangePolicy.PathFaultIs | tools/l9_repo/change_policy.py:56-75 | which fault a refused path has |
| ChangePolicy.ResolutionIsUnion | tools/l9_repo/change_policy.py:143-169 | the files are strictly sorted and exactly the union of the sources, all canonical, and empty only where the comparison succeeded and found nothing |
| ChangePolicy.ResolutionFailsIff | tools/l9_repo/change_policy.py:143-161 | exactly when resolving fails: a path that is not canonical, git not answering, or a clean tree without a comparison |
| ChangePolicy.SourceIs | tools/l9_repo/change_policy.py:143-169 | the source that is named is the one the files come from |
| ChangePolicy.ResolutionFaultIs | tools/l9_repo/change_policy.py:143-161 | and the fault is that of the first answer that cannot be used |
| ChangePolicy.SelectGates | tools/l9_repo/change_policy.py:194-207 | on a validated policy the loop is total and computes the selection |
| ChangePolicy.SelectionIsOrderedFilter | tools/l9_repo/change_policy.py:194-207 | a gate is selected exactly when a file matches it, at most once, in the policy's order |
| ChangePolicy.SelectionDistributes | tools/l9_repo/change_policy.py:194-207 | selecting distributes over the union of file sets |
| ChangePolicy.ValidPolicyIsOrdered | tools/l9_repo/__main__.py:339-360 | validation leaves distinct gates in an order that names each, and every command selection can yield starts with an allowed executable |
| ChangePolicy.ValidPolicyIff | tools/l9_repo/__main__.py:339-360 | a policy is valid exactly if its order names each gate once and every gate is valid |
| ChangePolicy.ValidGateIff | tools/l9_repo/__main__.py:346-360 | a gate is valid exactly with its three fields, distinct prefixes and commands |
| ChangePolicy.CompanionFindings | tools/l9_repo/change_policy.py:210-235 | the loop lists each unmet rule with its hits and what is missing |
| ChangePolicy.FindingIs | tools/l9_repo/change_policy.py:210-235 | a finding lists the files that touch the rule, what is asked for if none of it is there, and the missing paths |
| ChangePolicy.NoFindingsIff | tools/l9_repo/change_policy.py:210-235 | no finding exactly when every rule that a file touches has what it asks for |
| ChangePolicy.FindingIsRepairable | tools/l9_repo/change_policy.py:225-234 | adding what a finding names ends it |
| AgentCheck.Run.constructor | tools/l9_repo/__main__.py:713-715 | the finding counter starts at the companion findings |
| AgentCheck.Run.RecordCheck | tools/l9_repo/__main__.py:718-732 | a structural or integrity step is recorded and counted |
| AgentCheck.Run.Record | tools/l9_repo/__main__.py:734-781 | a command is recorded whatever it does, and the counters stay the counts of the record |
| AgentCheck.Run.RecordGates | tools/l9_repo/__main__.py:783-790 | every command of every selected gate is recorded |
| AgentCheck.Run.Execute | tools/l9_repo/__main__.py:718-832 | nothing short-circuits: the record is complete, and the exit code is the one recomputed from it |
| AgentCheck.AgentCheck | tools/l9_repo/__main__.py:712-832 | the check of a change set under a policy |
| AgentCheck.VerdictMeans | tools/l9_repo/__main__.py:827-832 | 2 exactly with a blocking infrastructure step, 0 exactly with no companion finding and every blocking step passed |
| AgentCheck.NonBlockingIsIrrelevant | tools/l9_repo/__main__.py:766-770 | how the commands of non-blocking gates end never changes the exit code |
| AgentCheck.StepCount | tools/l9_repo/__main__.py:718-825 | five steps and one for each command of the selected gates |
| AgentCheck.RecordIs | tools/l9_repo/__main__.py:718-825 | the record, place by place, with every exit code and class |
| AgentCheck.CommandIsRecorded | tools/l9_repo/__main__.py:734-790 | each command of each gate at its place, with its exit code; 2, 126, 127 and a command that cannot be started are infrastructure |
| AgentCheck.InfrastructureIff | tools/l9_repo/__main__.py:674-692 | a run exits 2 exactly if structure or tree fail, a blocking command exits with 2, 126 or 127 or cannot be started, or make cannot; a phase of make that exits 2 is a finding |
| AgentCheck.PassIff | tools/l9_repo/__main__.py:712-832 | a run passes exactly when the files satisfy all companion rules, structure and tree are sound, every command of every matched blocking gate succeeds and so do the three phases |
| ChecksumManifest.VerifyLines | tools/l9_repo/__main__.py:242-285 | the loop reports each line's first problem, and an empty manifest |
| ChecksumManifest.VerifyChecksumManifest | tools/l9_repo/__main__.py:236-287 | the report on a manifest file |
| ChecksumManifest.PassesIff | tools/l9_repo/__main__.py:236-287 | a manifest passes exactly when it has an entry, names no path twice and every line that is not blank names a safe regular file below the root with its digest |
| ChecksumManifest.ReportIff | tools/l9_repo/__main__.py:236-287 | a problem is reported exactly if its line has it, the first of: malformed, repeated, digest, path, link, absence, content |
| ChecksumManifest.ManifestSeesEveryChange | tools/l9_repo/__main__.py:236-287 | a manifest printed from safe distinct names passes exactly as long as every listed file has the digest it was printed with |
| ControlPlane.FindBinding | tools/verify_control_plane.py:383-406 | the nested loops find the first rule with a matching entry |
| ControlPlane.CheckRequiredStatusFreshness | tools/verify_control_plane.py:602-701 | the branches and the loop with early return decide freshness |
| ControlPlane.BindingIff | tools/verify_control_plane.py:335-475 | a binding passes exactly where the id and the branch's rules can be read, one workflow rule binds, none before it binds or breaks the search, and no readable detail says its ruleset does not enforce |
| ControlPlane.RuleBindsIff | tools/verify_control_plane.py:383-406 | which rules bind, field by field |
| ControlPlane.BindingFailsIff | tools/verify_control_plane.py:373-430 | where both can be read it fails exactly if no rule binds or the first that does is not in force |
| ControlPlane.BindingUnknownIff | tools/verify_control_plane.py:351-372 | it is unknown exactly where the id or the rules cannot be read |
| ControlPlane.EnforcementIs | tools/verify_control_plane.py:433-475 | how enforcement is known in each case |
| ControlPlane.ReadableIff | tools/verify_control_plane.py:364-372 | rules are read exactly from a successful response that is a list |
| ControlPlane.RepositoryIdIff | tools/verify_control_plane.py:351-362 | and the id from one that is a mapping with a number |
| ControlPlane.BindingIsProven | tools/verify_control_plane.py:335-430 | then a rule in force comes from the organization and names the repository's own id, the workflow path and the production branch |
| ControlPlane.ProtectionIff | tools/verify_control_plane.py:478-554 | protection passes exactly where the rules can be read and have every required type, code-owner review and enough bound contexts |
| ControlPlane.ProtectionUnknownIff | tools/verify_control_plane.py:478-554 | protection is unknown exactly where the rules cannot be read |
| ControlPlane.ImmutableIff | tools/verify_control_plane.py:557-599 | the release setting passes exactly if none is asked for or `enabled` is true, fails exactly if it is false, and is unknown otherwise |
| ControlPlane.FreshnessIff | tools/verify_control_plane.py:602-701 | freshness passes exactly where none is asked for, an accepted merge queue is active, or a rule of the organization is strict |
| ControlPlane.FreshnessUnknownIff | tools/verify_control_plane.py:602-639 | freshness is unknown exactly where it is asked for and the rules cannot be read |
| ControlPlane.FourResults | tools/verify_control_plane.py:704-710 | four results in their order, each under its own name |
| ControlPlane.AttestationFailsClosed | tools/verify_control_plane.py:335-701 | losing any responses but a ruleset's detail never turns a check that does not pass into one that does |
| ControlPlane.ExitFailsClosed | tools/verify_control_plane.py:704-727 | nor an attestation that does not succeed |
| ControlPlane.LosingTheDetailPasses | tools/verify_control_plane.py:433-475 | without details the binding passes exactly where a binding rule is found |
| ControlPlane.ExitAgreesWithConclusion | tools/verify_control_plane.py:722-755 | exit code and JSON conclusion agree on every result list, and only complete success is success |

## Left out

- The file system, git, subprocesses, HTTP, clocks, the environment and parsing of JSON, YAML, tokens and arguments: their answers are inputs; wording of messages is not modelled.
- MakeReading.CreditedPrerequisitesAreThere: covers straight-line files only, as `InFragment` says: no directives, `include`, modifiers such as `override`, escaped `#` or `;`, whitespace in code other than spaces and tabs, lines ending in two backslashes, assignments to computed names, or changes of the recipe prefix by other operators than `=` and `:=`; behind a rule with computed targets, recipe lines only that do nothing or are errors if no rule is open. The credited rule itself has literal targets. Command-line overrides, `make -e` and `$(eval)` are not modelled: a `World` answers from the variables and cannot change them.
- RepoMkWork.AcceptedLeafHasWork: says what Make reads and expands, not what it then does: a target pattern behind a `:` from a variable, a second expansion asked for by `.SECONDEXPANSION`, and recipes that do nothing or expand to nothing count as work. Blocks are taken as blank, as in the projected text.
- MakeFile: the amount of whitespace around a continuation, and wildcards in targets are not modelled; escaped and grouped targets are left to `World`. Characters are code points, not bytes.
- Make's functions and automatic variables expand to anything `World` says; a reference on its own is never proven by them.
- The regular expressions of `contract.py` are deterministic recognisers in `MakeSyntax`, one per pattern; `\s` is `Strings.IsSpace`.
- Lock.ReclaimExclusion: listing the directory and testing its entries is one step, process numbers are not reused, and a write to an owner file that another process has unlinked goes nowhere or to its replacement.
- ReleaseSources.CollectAssignments: which lines are assignments is the pattern's answer; the search for tag, push and release commands in `scan_file` is not modelled.
- ReleaseSources.BlankTokens: takes token spans; the fallback to comment stripping for text that does not tokenise is not modelled.
- ReleaseExpansion.ExpansionIsExactOrFailsClosed: asks that no round puts a character of a name behind a bare reference; without that the code is not exact, as `BareReferenceMerges` shows.
- RegistryProjection.Project: case folding and SHA-256 are arbitrary functions; fetching, writing and comparing files are not modelled.
- AgentCheck.AgentCheck: redaction, report files and the fingerprint are not modelled; whether the tree stayed intact is an input.
- ChecksumManifest.VerifyChecksumManifest: what a path resolves to is an input for each name.
- ControlPlane.Verify: loading the contract and describing results; `str` of a value is an arbitrary function.
- `worktree_fingerprint`, `redact_text`, report rendering, `contract_wiring.py`, `doctor`, `status`, the command line and the remaining validators have no property beyond their own text.
