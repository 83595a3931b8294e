/** One run of `agent-check`: every step is taken, and the recorded steps determine the exit code. */
module AgentCheck {
  import opened ChangePolicy

  datatype Name = Structural | Command(gate: string, index: nat) | Phase(name: string) | NonMutation

  /** `pass`, `finding` and `infrastructure`. */
  datatype Kind = Pass | Found | Infrastructure

  datatype Step = Step(name: Name, code: int, kind: Kind, blocking: bool)

  /** A command either exits with a code or cannot be started. */
  datatype Outcome = Exit(code: int) | NotStarted

  /** `_classify_exit`. */
  function ClassifyExit(code: int): Kind {
    if code == 0 then Pass else if code in {2, 126, 127} then Infrastructure else Found
  }

  /** `classify_make_phase`: a facade phase that completed is never infrastructure. */
  function ClassifyPhase(code: int): Kind { if code == 0 then Pass else Found }

  /** What a run meets: whether validation passes, how each command ends, and whether the tree stayed as it was. */
  datatype World = World(valid: bool, outcome: Name -> Outcome, intact: bool)

  // ---- what is recorded ----

  function StepOf(name: Name, blocking: bool, world: World): Step {
    var outcome := world.outcome(name);
    if outcome.NotStarted? then Step(name, 127, Infrastructure, blocking)
    else
      Step(name, outcome.code,
        if name.Phase? then ClassifyPhase(outcome.code) else ClassifyExit(outcome.code), blocking)
  }

  function StructuralStep(world: World): Step {
    if world.valid then Step(Structural, 0, Pass, true) else Step(Structural, 2, Infrastructure, true)
  }

  function NonMutationStep(world: World): Step {
    if world.intact then Step(NonMutation, 0, Pass, true) else Step(NonMutation, 2, Infrastructure, true)
  }

  /** The step of the `i`-th command of a gate, counted from 1. */
  function CommandStep(gate: Selected, i: nat, world: World): Step {
    StepOf(Command(gate.id, i), gate.blocking, world)
  }

  /** The steps of the first `n` commands of a gate. */
  function CommandSteps(gate: Selected, n: nat, world: World): (r: seq<Step>)
    ensures |r| == n
  {
    seq(n, i requires 0 <= i < n => CommandStep(gate, i + 1, world))
  }

  function GateSteps(gates: seq<Selected>, world: World): seq<Step> {
    if gates == [] then [] else
    var n := |gates| - 1;
    GateSteps(gates[..n], world) + CommandSteps(gates[n], |gates[n].commands|, world)
  }

  function PhaseSteps(world: World): seq<Step> {
    [StepOf(Phase("validate"), true, world), StepOf(Phase("check"), true, world), StepOf(Phase("test"), true, world)]
  }

  /** The complete record of a run. */
  function AllSteps(gates: seq<Selected>, world: World): seq<Step> {
    [StructuralStep(world)] + GateSteps(gates, world) + PhaseSteps(world) + [NonMutationStep(world)]
  }

  predicate Blocks(s: Step, kind: Kind) { s.blocking && s.kind == kind }

  function Count(steps: seq<Step>, kind: Kind): nat {
    if steps == [] then 0
    else Count(steps[..|steps| - 1], kind) + if Blocks(steps[|steps| - 1], kind) then 1 else 0
  }

  /** The exit code, recomputed from the record and the companion findings. */
  function Verdict(steps: seq<Step>, companions: nat): nat {
    if Count(steps, Infrastructure) > 0 then 2
    else if companions + Count(steps, Found) > 0 then 1
    else 0
  }

  lemma CountOneMore(steps: seq<Step>, s: Step)
    ensures Count(steps + [s], Found) == Count(steps, Found) + if Blocks(s, Found) then 1 else 0
    ensures Count(steps + [s], Infrastructure)
         == Count(steps, Infrastructure) + if Blocks(s, Infrastructure) then 1 else 0
  {
    assert (steps + [s])[..|steps|] == steps;
  }

  // ---- the run ----

  class Run {
    var steps: seq<Step>
    var findings: nat
    var infrastructure: nat
    const companions: nat

    /** The counters are the counts of the record. */
    predicate Valid()
      reads this
    {
      findings == companions + Count(steps, Found) && infrastructure == Count(steps, Infrastructure)
    }

    constructor (companions: nat)
      ensures Valid() && steps == [] && this.companions == companions
    {
      this.companions := companions;
      steps, findings, infrastructure := [], companions, 0;
    }

    method RecordCheck(name: Name, ok: bool)
      requires Valid()
      modifies this
      ensures Valid()
      ensures steps == old(steps) + [if ok then Step(name, 0, Pass, true) else Step(name, 2, Infrastructure, true)]
    {
      CountOneMore(steps, if ok then Step(name, 0, Pass, true) else Step(name, 2, Infrastructure, true));
      if ok {
        steps := steps + [Step(name, 0, Pass, true)];
      } else {
        infrastructure := infrastructure + 1;
        steps := steps + [Step(name, 2, Infrastructure, true)];
      }
    }

    /** `record`: runs one command and keeps what it finds. */
    method Record(name: Name, blocking: bool, world: World)
      requires Valid()
      modifies this
      ensures Valid() && steps == old(steps) + [StepOf(name, blocking, world)]
    {
      var outcome := world.outcome(name);
      CountOneMore(steps, StepOf(name, blocking, world));
      if outcome.NotStarted? {
        infrastructure := infrastructure + if blocking then 1 else 0;
        steps := steps + [Step(name, 127, Infrastructure, blocking)];
        return;
      }
      var kind := if name.Phase? then ClassifyPhase(outcome.code) else ClassifyExit(outcome.code);
      if blocking && kind == Found {
        findings := findings + 1;
      }
      if blocking && kind == Infrastructure {
        infrastructure := infrastructure + 1;
      }
      steps := steps + [Step(name, outcome.code, kind, blocking)];
    }

    method RecordGate(gate: Selected, world: World)
      requires Valid()
      modifies this
      ensures Valid() && steps == old(steps) + CommandSteps(gate, |gate.commands|, world)
    {
      for i := 0 to |gate.commands|
        invariant Valid() && steps == old(steps) + CommandSteps(gate, i, world)
      {
        Record(Command(gate.id, i + 1), gate.blocking, world);
        assert CommandSteps(gate, i + 1, world)
            == CommandSteps(gate, i, world) + [CommandStep(gate, i + 1, world)];
      }
    }

    method RecordGates(gates: seq<Selected>, world: World)
      requires Valid()
      modifies this
      ensures Valid() && steps == old(steps) + GateSteps(gates, world)
    {
      for i := 0 to |gates|
        invariant Valid() && steps == old(steps) + GateSteps(gates[..i], world)
      {
        assert gates[..i + 1][..i] == gates[..i];
        RecordGate(gates[i], world);
      }
      assert gates[..|gates|] == gates;
    }

    /** Nothing short-circuits: the record is complete whatever fails, and the exit code is recomputed from it. */
    method Execute(gates: seq<Selected>, world: World) returns (exit: nat)
      requires Valid() && steps == []
      modifies this
      ensures Valid() && steps == AllSteps(gates, world)
      ensures exit == Verdict(AllSteps(gates, world), companions)
    {
      RecordCheck(Structural, world.valid);
      RecordGates(gates, world);
      Record(Phase("validate"), true, world);
      Record(Phase("check"), true, world);
      Record(Phase("test"), true, world);
      RecordCheck(NonMutation, world.intact);
      if infrastructure > 0 {
        exit := 2;
      } else if findings > 0 {
        exit := 1;
      } else {
        exit := 0;
      }
    }
  }

  // ---- what the record says ----

  lemma {:induction false} CountAppend(a: seq<Step>, b: seq<Step>, kind: Kind)
    ensures Count(a + b, kind) == Count(a, kind) + Count(b, kind)
  {
    if b == [] {
      assert a + b == a;
    } else {
      var n := |b| - 1;
      assert (a + b)[..|a| + n] == a + b[..n];
      CountAppend(a, b[..n], kind);
    }
  }

  lemma {:induction false} NoneCounted(steps: seq<Step>, kind: Kind)
    ensures Count(steps, kind) == 0 <==> forall s <- steps :: !Blocks(s, kind)
  {
    if steps != [] {
      var n := |steps| - 1;
      NoneCounted(steps[..n], kind);
      assert steps == steps[..n] + [steps[n]];
    }
  }

  /** 2 exactly with a blocking infrastructure step, 0 exactly when every blocking step passed and no companion
      is missing. */
  lemma VerdictMeans(steps: seq<Step>, companions: nat)
    ensures Verdict(steps, companions) == 2 <==> exists s <- steps :: Blocks(s, Infrastructure)
    ensures Verdict(steps, companions) == 0 <==> companions == 0 && forall s <- steps :: s.blocking ==> s.kind == Pass
    ensures Verdict(steps, companions) <= 2
  {
    NoneCounted(steps, Infrastructure);
    NoneCounted(steps, Found);
    assert forall s <- steps :: (s.blocking ==> s.kind == Pass) <==> !Blocks(s, Infrastructure) && !Blocks(s, Found);
  }

  /** The steps that can block. */
  function Blocking(steps: seq<Step>): seq<Step> {
    if steps == [] then [] else
    var n := |steps| - 1;
    Blocking(steps[..n]) + if steps[n].blocking then [steps[n]] else []
  }

  lemma {:induction false} CountBlocking(steps: seq<Step>, kind: Kind)
    ensures Count(Blocking(steps), kind) == Count(steps, kind)
  {
    if steps != [] {
      var n := |steps| - 1;
      CountBlocking(steps[..n], kind);
      CountAppend(Blocking(steps[..n]), if steps[n].blocking then [steps[n]] else [], kind);
    }
  }

  lemma {:induction false} BlockingAppend(a: seq<Step>, b: seq<Step>)
    ensures Blocking(a + b) == Blocking(a) + Blocking(b)
  {
    if b == [] {
      assert a + b == a;
    } else {
      var n := |b| - 1;
      assert (a + b)[..|a| + n] == a + b[..n];
      BlockingAppend(a, b[..n]);
    }
  }

  lemma {:induction false} NoCommandBlocks(gate: Selected, n: nat, world: World)
    requires !gate.blocking
    ensures Blocking(CommandSteps(gate, n, world)) == []
  {
    if n > 0 {
      NoCommandBlocks(gate, n - 1, world);
      assert CommandSteps(gate, n, world)[..n - 1] == CommandSteps(gate, n - 1, world);
      assert CommandSteps(gate, n, world)[n - 1] == CommandStep(gate, n, world);
    }
  }

  predicate Agree(gate: Selected, a: World, b: World) {
    gate.blocking ==>
      forall i :: 1 <= i <= |gate.commands| ==> a.outcome(Command(gate.id, i)) == b.outcome(Command(gate.id, i))
  }

  lemma SameCommands(gate: Selected, a: World, b: World)
    requires Agree(gate, a, b)
    ensures Blocking(CommandSteps(gate, |gate.commands|, a)) == Blocking(CommandSteps(gate, |gate.commands|, b))
  {
    if gate.blocking {
      forall i: nat | 1 <= i <= |gate.commands|
        ensures CommandStep(gate, i, a) == CommandStep(gate, i, b)
      {
        assert a.outcome(Command(gate.id, i)) == b.outcome(Command(gate.id, i));
      }
      forall i | 0 <= i < |gate.commands|
        ensures CommandSteps(gate, |gate.commands|, a)[i] == CommandSteps(gate, |gate.commands|, b)[i]
      {
        assert CommandStep(gate, i + 1, a) == CommandStep(gate, i + 1, b);
      }
      assert CommandSteps(gate, |gate.commands|, a) == CommandSteps(gate, |gate.commands|, b);
    } else {
      NoCommandBlocks(gate, |gate.commands|, a);
      NoCommandBlocks(gate, |gate.commands|, b);
    }
  }

  lemma {:induction false} SameGates(gates: seq<Selected>, a: World, b: World)
    requires forall gate <- gates :: Agree(gate, a, b)
    ensures Blocking(GateSteps(gates, a)) == Blocking(GateSteps(gates, b))
  {
    if gates != [] {
      var n := |gates| - 1;
      SameGates(gates[..n], a, b);
      SameCommands(gates[n], a, b);
      BlockingAppend(GateSteps(gates[..n], a), CommandSteps(gates[n], |gates[n].commands|, a));
      BlockingAppend(GateSteps(gates[..n], b), CommandSteps(gates[n], |gates[n].commands|, b));
    }
  }

  /** However the commands of non-blocking gates end, the exit code is the same. */
  lemma NonBlockingIsIrrelevant(gates: seq<Selected>, companions: nat, a: World, b: World)
    requires a.valid == b.valid && a.intact == b.intact
    requires forall name :: a.outcome(Phase(name)) == b.outcome(Phase(name))
    requires forall gate <- gates :: Agree(gate, a, b)
    ensures Verdict(AllSteps(gates, a), companions) == Verdict(AllSteps(gates, b), companions)
  {
    SameGates(gates, a, b);
    SamePhases(a, b);
    BlockingOfAll(gates, a);
    BlockingOfAll(gates, b);
    VerdictOfBlocking(AllSteps(gates, a), companions);
    VerdictOfBlocking(AllSteps(gates, b), companions);
  }

  lemma SamePhases(a: World, b: World)
    requires forall name :: a.outcome(Phase(name)) == b.outcome(Phase(name))
    ensures PhaseSteps(a) == PhaseSteps(b)
  {
  }

  lemma VerdictOfBlocking(steps: seq<Step>, companions: nat)
    ensures Verdict(steps, companions) == Verdict(Blocking(steps), companions)
  {
    CountBlocking(steps, Found);
    CountBlocking(steps, Infrastructure);
  }

  lemma BlockingOfAll(gates: seq<Selected>, world: World)
    ensures Blocking(AllSteps(gates, world))
         == Blocking([StructuralStep(world)]) + Blocking(GateSteps(gates, world))
          + Blocking(PhaseSteps(world)) + Blocking([NonMutationStep(world)])
  {
    BlockingAppend([StructuralStep(world)], GateSteps(gates, world));
    BlockingAppend([StructuralStep(world)] + GateSteps(gates, world), PhaseSteps(world));
    BlockingAppend([StructuralStep(world)] + GateSteps(gates, world) + PhaseSteps(world), [NonMutationStep(world)]);
  }

  function CommandsIn(gates: seq<Selected>): nat {
    if gates == [] then 0 else CommandsIn(gates[..|gates| - 1]) + |gates[|gates| - 1].commands|
  }

  lemma {:induction false} GateStepCount(gates: seq<Selected>, world: World)
    ensures |GateSteps(gates, world)| == CommandsIn(gates)
  {
    if gates != [] {
      GateStepCount(gates[..|gates| - 1], world);
    }
  }

  /** A run records five steps and one for each command of the selected gates, whatever the commands do. */
  lemma StepCount(gates: seq<Selected>, world: World)
    ensures |AllSteps(gates, world)| == 5 + CommandsIn(gates)
  {
    GateStepCount(gates, world);
  }

  // ---- the whole check ----

  /** A command of a selected blocking gate ends in this class. */
  predicate CommandBlocks(gates: seq<Selected>, world: World, kind: Kind) {
    exists gate <- gates, i: nat | 1 <= i <= |gate.commands| :: Blocks(CommandStep(gate, i, world), kind)
  }

  lemma {:induction false} GatesBlock(gates: seq<Selected>, world: World, kind: Kind)
    ensures (exists s <- GateSteps(gates, world) :: Blocks(s, kind)) <==> CommandBlocks(gates, world, kind)
  {
    if gates != [] {
      var n := |gates| - 1;
      var gate := gates[n];
      var here := CommandSteps(gate, |gate.commands|, world);
      GatesBlock(gates[..n], world, kind);
      assert gates == gates[..n] + [gate];
      forall i: nat | 1 <= i <= |gate.commands|
        ensures CommandStep(gate, i, world) in here
      {
        assert here[i - 1] == CommandStep(gate, i, world);
      }
      forall s <- here
        ensures exists i: nat :: 1 <= i <= |gate.commands| && s == CommandStep(gate, i, world)
      {
        var i :| 0 <= i < |here| && here[i] == s;
        assert s == CommandStep(gate, i + 1, world);
      }
    }
  }

  lemma AllBlock(gates: seq<Selected>, world: World, kind: Kind)
    ensures (exists s <- AllSteps(gates, world) :: Blocks(s, kind)) <==>
      || Blocks(StructuralStep(world), kind) || Blocks(NonMutationStep(world), kind)
      || CommandBlocks(gates, world, kind) || exists s <- PhaseSteps(world) :: Blocks(s, kind)
  {
    GatesBlock(gates, world, kind);
    var all := AllSteps(gates, world);
    assert all[0] == StructuralStep(world) && all[|all| - 1] == NonMutationStep(world);
    forall s
      ensures s in all <==>
        || s == StructuralStep(world) || s == NonMutationStep(world)
        || s in GateSteps(gates, world) || s in PhaseSteps(world)
    {
    }
  }

  /** What one recorded step says of how its command ended. */
  predicate Records(s: Step, name: Name, blocking: bool, outcome: Outcome) {
    && s.name == name && s.blocking == blocking
    && (outcome.NotStarted? ==> s.code == 127) && (outcome.Exit? ==> s.code == outcome.code)
    && (s.kind == Pass <==> outcome == Exit(0))
    && (s.kind == Infrastructure <==>
          outcome == NotStarted || (!name.Phase? && outcome in {Exit(2), Exit(126), Exit(127)}))
  }

  lemma {:induction false} GateStepsAt(gates: seq<Selected>, world: World, k: nat, i: nat)
    requires k < |gates| && i < |gates[k].commands|
    ensures
      var at, steps := CommandsIn(gates[..k]) + i, GateSteps(gates, world);
      at < |steps| && Records(steps[at], Command(gates[k].id, i + 1), gates[k].blocking,
        world.outcome(Command(gates[k].id, i + 1)))
  {
    var n := |gates| - 1;
    GateStepCount(gates[..n], world);
    assert gates[..n] + [gates[n]] == gates;
    if k < n {
      GateStepsAt(gates[..n], world, k, i);
      assert gates[..n][..k] == gates[..k];
    } else {
      assert CommandSteps(gates[n], |gates[n].commands|, world)[i] == CommandStep(gates[n], i + 1, world);
    }
  }

  /** The record, place by place: the structure first, then the commands, the three phases and the state of the tree
      at the end, each with its own exit code and class. */
  lemma RecordIs(gates: seq<Selected>, world: World)
    ensures
      var steps, n := AllSteps(gates, world), |AllSteps(gates, world)|;
      && n == 5 + CommandsIn(gates)
      && steps[0] == Step(Structural, if world.valid then 0 else 2, if world.valid then Pass else Infrastructure, true)
      && Records(steps[n - 4], Phase("validate"), true, world.outcome(Phase("validate")))
      && Records(steps[n - 3], Phase("check"), true, world.outcome(Phase("check")))
      && Records(steps[n - 2], Phase("test"), true, world.outcome(Phase("test")))
      && steps[n - 1]
           == Step(NonMutation, if world.intact then 0 else 2, if world.intact then Pass else Infrastructure, true)
  {
    hide Records;
    GateStepCount(gates, world);
    PhasesAre(world);
  }

  /** Command `i` of gate `k` stands behind the structure and all commands in front of it. */
  lemma CommandIsRecorded(gates: seq<Selected>, world: World, k: nat, i: nat)
    requires k < |gates| && i < |gates[k].commands|
    ensures
      var at, steps := 1 + CommandsIn(gates[..k]) + i, AllSteps(gates, world);
      at < |steps| && Records(steps[at], Command(gates[k].id, i + 1), gates[k].blocking,
        world.outcome(Command(gates[k].id, i + 1)))
  {
    hide Records;
    GateStepsAt(gates, world, k, i);
    var at := CommandsIn(gates[..k]) + i;
    assert AllSteps(gates, world)[1 + at] == GateSteps(gates, world)[at];
  }

  lemma PhasesAre(world: World)
    ensures
      var steps := PhaseSteps(world);
      && |steps| == 3
      && Records(steps[0], Phase("validate"), true, world.outcome(Phase("validate")))
      && Records(steps[1], Phase("check"), true, world.outcome(Phase("check")))
      && Records(steps[2], Phase("test"), true, world.outcome(Phase("test")))
  {
  }

  /** Exit code 2 exactly when the structure or the tree fails, a blocking command or `make` cannot be started, or
      such a command exits with 2, 126 or 127: a phase that exits 2 is a finding. */
  lemma InfrastructureIff(gates: seq<Selected>, companions: nat, world: World)
    ensures Verdict(AllSteps(gates, world), companions) == 2 <==>
      || !world.valid || !world.intact
      || (exists gate <- gates, i: nat |
            gate.blocking && 1 <= i <= |gate.commands| ::
            world.outcome(Command(gate.id, i)) in {NotStarted, Exit(2), Exit(126), Exit(127)})
      || exists name <- {"validate", "check", "test"} :: world.outcome(Phase(name)) == NotStarted
  {
    AllBlock(gates, world, Infrastructure);
    VerdictMeans(AllSteps(gates, world), companions);
    PhasesBlock(world);
    forall gate: Selected, i: nat
      ensures Blocks(CommandStep(gate, i, world), Infrastructure) <==>
        gate.blocking && world.outcome(Command(gate.id, i)) in {NotStarted, Exit(2), Exit(126), Exit(127)}
    {
    }
  }

  lemma PhasesBlock(world: World)
    ensures (exists s <- PhaseSteps(world) :: Blocks(s, Infrastructure)) <==>
      exists name <- {"validate", "check", "test"} :: world.outcome(Phase(name)).NotStarted?
    ensures (exists s <- PhaseSteps(world) :: Blocks(s, Infrastructure) || Blocks(s, Found)) <==>
      exists name <- {"validate", "check", "test"} :: world.outcome(Phase(name)) != Exit(0)
  {
    var steps := PhaseSteps(world);
    assert steps[0] in steps && steps[1] in steps && steps[2] in steps;
    assert forall name ::
      Blocks(StepOf(Phase(name), true, world), Infrastructure) <==> world.outcome(Phase(name)).NotStarted?;
    assert forall name :: Blocks(StepOf(Phase(name), true, world), Found) <==>
      world.outcome(Phase(name)).Exit? && world.outcome(Phase(name)) != Exit(0);
  }

  /** The check of a change set under a policy: the run and its exit code. */
  method AgentCheck(order: seq<string>, gates: map<string, Gate>, rules: seq<Rule>, files: seq<string>, world: World)
    returns (run: Run, exit: nat)
    requires Ordered(order, gates)
    ensures fresh(run) && run.Valid() && run.steps == AllSteps(Selection(order, gates, files), world)
    ensures exit == Verdict(run.steps, |Findings(rules, files)|)
  {
    var companion := CompanionFindings(rules, files);
    run := new Run(|companion|);
    var selected := SelectGates(order, gates, files);
    exit := run.Execute(selected, world);
  }

  /** The check passes exactly when the files satisfy every companion rule, structure and tree are sound, every
      command of every blocking gate that a file matches succeeds, and so do the three phases. */
  lemma PassIff(order: seq<string>, gates: map<string, Gate>, rules: seq<Rule>, files: seq<string>, world: World)
    requires Ordered(order, gates)
    ensures Verdict(AllSteps(Selection(order, gates, files), world), |Findings(rules, files)|) == 0 <==>
      && (forall rule <- rules :: Satisfies(files, rule))
      && world.valid && world.intact
      && (forall id <- gates, i: nat |
            gates[id].blocking && AnyMatches(files, gates[id].prefixes) && 1 <= i <= |gates[id].commands| ::
            world.outcome(Command(id, i)) == Exit(0))
      && (forall name <- {"validate", "check", "test"} :: world.outcome(Phase(name)) == Exit(0))
  {
    var selected := Selection(order, gates, files);
    var steps := AllSteps(selected, world);
    NoFindingsIff(rules, files);
    VerdictMeans(steps, |Findings(rules, files)|);
    AllBlock(selected, world, Found);
    AllBlock(selected, world, Infrastructure);
    PhasesBlock(world);
    SelectedCommandsPass(order, gates, files, world);
    assert forall s <- steps :: (s.blocking ==> s.kind == Pass) <==> !Blocks(s, Infrastructure) && !Blocks(s, Found);
  }

  lemma SelectedCommandsPass(order: seq<string>, gates: map<string, Gate>, files: seq<string>, world: World)
    requires Ordered(order, gates)
    ensures
      var selected := Selection(order, gates, files);
      !CommandBlocks(selected, world, Found) && !CommandBlocks(selected, world, Infrastructure) <==>
      forall id <- gates, i: nat |
        gates[id].blocking && AnyMatches(files, gates[id].prefixes) && 1 <= i <= |gates[id].commands| ::
        world.outcome(Command(id, i)) == Exit(0)
  {
    hide Selection, AnyMatches;
    var selected := Selection(order, gates, files);
    SelectionMeets(order, gates, files);
    SelectionIsOrderedFilter(order, gates, files);
    assert forall gate: Selected, i: nat ::
      gate.blocking && world.outcome(Command(gate.id, i)) != Exit(0) <==>
      Blocks(CommandStep(gate, i, world), Found) || Blocks(CommandStep(gate, i, world), Infrastructure);
    if !CommandBlocks(selected, world, Found) && !CommandBlocks(selected, world, Infrastructure) {
      forall id <- gates, i: nat |
        gates[id].blocking && AnyMatches(files, gates[id].prefixes) && 1 <= i <= |gates[id].commands|
        ensures world.outcome(Command(id, i)) == Exit(0)
      {
        assert id in IdsOf(selected);
        var k :| 0 <= k < |selected| && selected[k].id == id;
        assert selected[k] in selected;
        assert !Blocks(CommandStep(selected[k], i, world), Found);
      }
    } else {
      var gate, i: nat :| gate in selected && 1 <= i <= |gate.commands|
        && (Blocks(CommandStep(gate, i, world), Found) || Blocks(CommandStep(gate, i, world), Infrastructure));
      assert gate.id in IdsOf(selected) by {
        var k :| 0 <= k < |selected| && selected[k] == gate;
        assert IdsOf(selected)[k] == gate.id;
      }
      assert world.outcome(Command(gate.id, i)) != Exit(0);
    }
  }
}
