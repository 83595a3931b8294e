/**
 The single-flight directory lock as a transition system: any number of processes, one
 file-system operation a step, and crashes between any two steps.
 */
module Lock {
  import opened Strings

  type Process = nat

  /** What the `owner` file says; content that is no number reads like an empty file. */
  datatype Owner = NoFile | Unreadable | Pid(pid: Process)

  /** The lock directory. `creator` and `foreign` (an entry that is not a regular `owner` file) are for the proofs
      and `iterdir`. */
  datatype Dir = Dir(creator: Process, owner: Owner, foreign: bool)

  datatype Point =
    | Start                        // mkdir
    | Stat                         // stat, after mkdir found the directory there
    | List                         // iterdir, after the age exceeded `stale_after`
    | Inspect                      // owner.is_file()
    | Read                         // owner.read_text()
    | Probe(pid: Process)          // kill(pid, 0)
    | Unlink | Remove | Remake     // owner.unlink, rmdir, mkdir of the reclaim path
    | Open | Write                 // creation of the owner file, then its content
    | Inside                       // the guarded operation
    | Release | RemoveOwn          // the `finally` block: owner.unlink, rmdir
    | Done | Busy

  /** Between a successful `mkdir` and the `rmdir` that ends the context. */
  predicate Holds(pc: Point) {
    pc.Open? || pc.Write? || pc.Inside? || pc.Release? || pc.RemoveOwn?
  }

  /** Between a staleness test that let the process through and its `mkdir`. */
  predicate Reclaims(pc: Point) {
    pc.List? || pc.Inspect? || pc.Read? || pc.Probe? || pc.Unlink? || pc.Remove? || pc.Remake?
  }

  datatype State = State(path: Option<Dir>, pc: map<Process, Point>, crashed: set<Process>)

  /** A step of `p`: `stale` is what its clock says if it stats, `alive` what `kill` says of a process outside the
      system. */
  datatype Event = Run(p: Process, stale: bool, alive: bool) | Crash(p: Process) | Intrude

  function Move(s: State, p: Process, pc: Point): State { s.(pc := s.pc[p := pc]) }

  function Create(s: State, p: Process): State {
    Move(s, p, Open).(path := Some(Dir(p, NoFile, false)))
  }

  function SetOwner(s: State, owner: Owner): State {
    if s.path.None? then s else s.(path := Some(s.path.value.(owner := owner)))
  }

  predicate Removable(s: State) {
    s.path.Some? && s.path.value.owner.NoFile? && !s.path.value.foreign
  }

  predicate IsAlive(s: State, pid: Process, alive: bool) {
    if pid in s.pc then pid !in s.crashed else alive
  }

  function RunStep(s: State, p: Process, stale: bool, alive: bool): State
    requires p in s.pc
  {
    match s.pc[p]
    case Start => if s.path.None? then Create(s, p) else Move(s, p, Stat)
    case Stat => Move(s, p, if s.path.Some? && stale then List else Busy)
    case List => Move(s, p, if s.path.Some? && !s.path.value.foreign then Inspect else Busy)
    case Inspect => Move(s, p, if s.path.Some? && !s.path.value.owner.NoFile? then Read else Unlink)
    case Read => Move(s, p, if s.path.Some? && s.path.value.owner.Pid? then Probe(s.path.value.owner.pid) else Unlink)
    case Probe(pid) => Move(s, p, if pid > 0 && IsAlive(s, pid, alive) then Busy else Unlink)
    case Unlink => SetOwner(Move(s, p, Remove), NoFile)
    case Remove => if Removable(s) then Move(s, p, Remake).(path := None) else Move(s, p, Busy)
    case Remake => if s.path.None? then Create(s, p) else Move(s, p, Busy)
    case Open => if s.path.None? then Move(s, p, Release) else SetOwner(Move(s, p, Write), Unreadable)
    case Write =>
      if s.path.Some? && !s.path.value.owner.NoFile? then SetOwner(Move(s, p, Inside), Pid(p)) else Move(s, p, Inside)
    case Inside => Move(s, p, Release)
    case Release => SetOwner(Move(s, p, RemoveOwn), NoFile)
    case RemoveOwn => if Removable(s) then Move(s, p, Done).(path := None) else Move(s, p, Done)
    case Done => s
    case Busy => s
  }

  function Step(s: State, e: Event): State {
    match e
    case Run(p, stale, alive) => if p in s.pc && p !in s.crashed then RunStep(s, p, stale, alive) else s
    case Crash(p) => s.(crashed := s.crashed + {p})
    case Intrude => if s.path.None? then s else s.(path := Some(s.path.value.(foreign := true)))
  }

  function After(s: State, run: seq<Event>): State
    decreases |run|
  {
    if run == [] then s else After(Step(s, run[0]), run[1..])
  }

  /** Every process at the start; a lock may have been left behind. */
  predicate Initial(s: State) {
    forall p <- s.pc :: s.pc[p] == Start
  }

  predicate Live(s: State, p: Process) { p in s.pc && p !in s.crashed }

  ghost predicate Excludes(s: State) {
    forall p, q :: Live(s, p) && Live(s, q) && Holds(s.pc[p]) && Holds(s.pc[q]) ==> p == q
  }

  // ---- without reclaim ----

  /** Every `stat` finds a lock younger than `stale_after`. */
  predicate Fresh(run: seq<Event>) {
    forall e <- run :: e.Run? ==> !e.stale
  }

  /** Crashed or not, whoever holds is the creator of the directory, and nobody reclaims. */
  ghost predicate Undisturbed(s: State) {
    && (forall p <- s.pc :: !Reclaims(s.pc[p]))
    && (forall p <- s.pc :: Holds(s.pc[p]) ==> s.path.Some? && s.path.value.creator == p)
  }

  lemma UndisturbedStep(s: State, e: Event)
    requires Undisturbed(s) && (e.Run? ==> !e.stale)
    ensures Undisturbed(Step(s, e))
    ensures s.path.Some? && Step(s, e).path.None? ==> e.Run? && e.p == s.path.value.creator && s.pc[e.p].RemoveOwn?
  {
  }

  lemma {:induction false} UndisturbedRun(s: State, run: seq<Event>)
    requires Undisturbed(s) && Fresh(run)
    ensures Undisturbed(After(s, run))
    decreases |run|
  {
    if run != [] {
      UndisturbedStep(s, run[0]);
      UndisturbedRun(Step(s, run[0]), run[1..]);
    }
  }

  /** While every lock is fresh, no two processes ever hold it, crashed ones included, and the
      directory is only ever removed by its creator's own release. */
  lemma FreshExclusion(s: State, run: seq<Event>, next: Event)
    requires Initial(s) && Fresh(run + [next])
    ensures
      var t := After(s, run);
      && (forall p, q :: p in t.pc && q in t.pc && Holds(t.pc[p]) && Holds(t.pc[q]) ==> p == q)
      && (t.path.Some? && Step(t, next).path.None? ==>
            next.Run? && next.p == t.path.value.creator && t.pc[next.p].RemoveOwn?)
  {
    assert next in run + [next] && forall e <- run :: e in run + [next];
    UndisturbedRun(s, run);
    UndisturbedStep(After(s, run), next);
  }

  // ---- with reclaim ----

  /** A reclaim may start only on a lock whose creator crashed, and while no other live process reclaims. */
  ghost predicate Careful(s: State, e: Event) {
    e.Run? && Live(s, e.p) && s.pc[e.p].Stat? && e.stale && s.path.Some? ==>
      && s.path.value.creator in s.crashed
      && (forall q :: Live(s, q) && Reclaims(s.pc[q]) ==> q == e.p)
  }

  ghost predicate CarefulRun(s: State, run: seq<Event>)
    decreases |run|
  {
    run == [] || (Careful(s, run[0]) && CarefulRun(Step(s, run[0]), run[1..]))
  }

  /** What every careful run keeps: a live holder is the creator of the directory, ... */
  ghost predicate HoldersOwn(s: State) {
    forall p :: Live(s, p) && Holds(s.pc[p]) ==> s.path.Some? && s.path.value.creator == p
  }

  /** ... a live reclaimer is alone, ... */
  ghost predicate OneReclaimer(s: State) {
    forall p, q :: Live(s, p) && Live(s, q) && Reclaims(s.pc[p]) && Reclaims(s.pc[q]) ==> p == q
  }

  /** ... and until its `rmdir` it faces the lock of a crashed creator. */
  ghost predicate DeadLock(s: State) {
    forall p :: Live(s, p) && Reclaims(s.pc[p]) && !s.pc[p].Remake? ==>
      s.path.Some? && s.path.value.creator in s.crashed
  }

  ghost predicate Orderly(s: State) {
    HoldersOwn(s) && OneReclaimer(s) && DeadLock(s)
  }

  /** Only the process that moves changes its point; only an `rmdir` removes the directory and only a `mkdir`
      makes one. */
  lemma StepFrame(s: State, e: Event)
    ensures
      var t := Step(s, e);
      && t.pc.Keys == s.pc.Keys && s.crashed <= t.crashed && (e.Run? ==> t.crashed == s.crashed)
      && (forall q <- s.pc :: !(e.Run? && e.p == q) ==> t.pc[q] == s.pc[q])
      && (s.path.Some? && t.path.Some? ==> t.path.value.creator == s.path.value.creator)
      && (s.path.Some? && t.path.None? ==> e.Run? && Live(s, e.p) && (s.pc[e.p].Remove? || s.pc[e.p].RemoveOwn?))
      && (s.path.None? && t.path.Some? ==> e.Run? && Live(s, e.p) && t.path.value.creator == e.p)
  {
  }

  lemma HoldersOwnStep(s: State, e: Event)
    requires Orderly(s)
    ensures HoldersOwn(Step(s, e))
  {
    StepFrame(s, e);
    var t := Step(s, e);
    forall p | Live(t, p) && Holds(t.pc[p])
      ensures t.path.Some? && t.path.value.creator == p
    {
      HolderKeeps(s, e, p);
    }
  }

  lemma HolderKeeps(s: State, e: Event, p: Process)
    requires Orderly(s) && Live(Step(s, e), p) && Holds(Step(s, e).pc[p])
    ensures Step(s, e).path.Some? && Step(s, e).path.value.creator == p
  {
    StepFrame(s, e);
    if !(e.Run? && e.p == p) {
      assert Live(s, p) && Holds(s.pc[p]);
    } else {
      assert Live(s, p);
    }
  }

  lemma OneReclaimerStep(s: State, e: Event)
    requires Orderly(s) && Careful(s, e)
    ensures OneReclaimer(Step(s, e))
  {
    StepFrame(s, e);
    var t := Step(s, e);
    forall p | Live(t, p) && Reclaims(t.pc[p])
      ensures Live(s, p) && (Reclaims(s.pc[p]) || (e.Run? && e.p == p && s.pc[p].Stat? && e.stale && s.path.Some?))
    {
    }
  }

  lemma DeadLockStep(s: State, e: Event)
    requires Orderly(s) && Careful(s, e)
    ensures DeadLock(Step(s, e))
  {
    StepFrame(s, e);
    var t := Step(s, e);
    forall p | Live(t, p) && Reclaims(t.pc[p]) && !t.pc[p].Remake?
      ensures t.path.Some? && t.path.value.creator in t.crashed
    {
      ReclaimerFacesTheDead(s, e, p);
    }
  }

  lemma ReclaimerFacesTheDead(s: State, e: Event, p: Process)
    requires Orderly(s) && Careful(s, e)
    requires var t := Step(s, e); Live(t, p) && Reclaims(t.pc[p]) && !t.pc[p].Remake?
    ensures Step(s, e).path.Some? && Step(s, e).path.value.creator in Step(s, e).crashed
  {
    StepFrame(s, e);
    assert Live(s, p);
    if e.Run? && e.p == p {
    } else {
      assert Reclaims(s.pc[p]) && s.path.Some? && s.path.value.creator in s.crashed;
      if e.Run? && Live(s, e.p) {
        assert s.pc[e.p].RemoveOwn? ==> Holds(s.pc[e.p]);
      }
    }
  }

  lemma OrderlyStep(s: State, e: Event)
    requires Orderly(s) && Careful(s, e)
    ensures Orderly(Step(s, e))
  {
    HoldersOwnStep(s, e);
    OneReclaimerStep(s, e);
    DeadLockStep(s, e);
  }

  lemma {:induction false} OrderlyRun(s: State, run: seq<Event>)
    requires Orderly(s) && CarefulRun(s, run)
    ensures Orderly(After(s, run))
    decreases |run|
  {
    if run != [] {
      OrderlyStep(s, run[0]);
      OrderlyRun(Step(s, run[0]), run[1..]);
    }
  }

  /** Mutual exclusion with reclaim, at the granularity of single operations; and the directory a live
      holder made is still there. */
  lemma ReclaimExclusion(s: State, run: seq<Event>)
    requires Initial(s) && CarefulRun(s, run)
    ensures Excludes(After(s, run)) && HoldersOwn(After(s, run))
  {
    OrderlyRun(s, run);
  }

  lemma AfterTwo(s: State, e: Event, f: Event)
    ensures After(s, [e, f]) == Step(Step(s, e), f)
  {
    assert [e, f][1..] == [f] && [f][1..] == [];
    assert After(Step(s, e), [f]) == After(Step(Step(s, e), f), []);
  }

  /** A rival's `mkdir` in the gap between the reclaimer's `rmdir` and `mkdir` makes the reclaimer busy. */
  lemma RivalInGapWins(s: State, p: Process, q: Process, e: Event, f: Event)
    requires p != q && Live(s, p) && Live(s, q) && s.pc[p].Remake? && s.pc[q].Start? && s.path.None?
    requires e.Run? && e.p == q && f.Run? && f.p == p
    ensures
      var t := After(s, [e, f]);
      p in t.pc && q in t.pc && t.pc[p] == Busy && t.pc[q] == Open && t.path == Some(Dir(q, NoFile, false))
  {
    AfterTwo(s, e, f);
  }

  // ---- what one attempt does ----

  /** The steps of `p` alone, its clock saying `stale`; `alive` is what `kill` says of other processes. */
  function Alone(p: Process, alive: bool, n: nat): seq<Event> {
    if n == 0 then [] else [Run(p, true, alive)] + Alone(p, alive, n - 1)
  }

  lemma {:induction false} AloneThen(s: State, p: Process, alive: bool, n: nat, m: nat)
    ensures After(s, Alone(p, alive, n + m)) == After(After(s, Alone(p, alive, n)), Alone(p, alive, m))
    decreases n
  {
    if n > 0 {
      assert Alone(p, alive, n + m)[1..] == Alone(p, alive, n + m - 1);
      assert Alone(p, alive, n)[1..] == Alone(p, alive, n - 1);
      AloneThen(Step(s, Run(p, true, alive)), p, alive, n - 1, m);
    }
  }

  lemma OneMore(s: State, p: Process, alive: bool)
    ensures After(s, Alone(p, alive, 1)) == Step(s, Run(p, true, alive))
  {
    assert Alone(p, alive, 1)[1..] == [];
  }

  /** What an attempt finds: a dead creator's directory with at most an owner file that names nobody alive. */
  predicate Reclaimable(s: State, dir: Dir, alive: bool) {
    !dir.foreign && (dir.owner.Pid? ==> !NamesLive(s, dir.owner.pid, alive))
  }

  function Claimed(s: State, p: Process): State {
    Move(s, p, Inside).(path := Some(Dir(p, Pid(p), false)))
  }

  lemma EnterFresh(s: State, p: Process, alive: bool)
    requires Live(s, p) && s.path.None? && (s.pc[p].Start? || s.pc[p].Remake?)
    ensures After(s, Alone(p, alive, 3)) == Claimed(s, p)
  {
    AloneThen(s, p, alive, 1, 2);
    OneMore(s, p, alive);
    var t := Create(s, p);
    AloneThen(t, p, alive, 1, 1);
    OneMore(t, p, alive);
    OneMore(Step(t, Run(p, true, alive)), p, alive);
    assert Step(Step(t, Run(p, true, alive)), Run(p, true, alive)).pc == s.pc[p := Inside];
  }

  /** The state from which `p` unlinks the owner file and removes the directory. */
  lemma Demolish(s: State, p: Process, alive: bool)
    requires Live(s, p) && s.pc[p].Unlink? && s.path.Some? && !s.path.value.foreign
    ensures After(s, Alone(p, alive, 2)) == Move(s, p, Remake).(path := None)
  {
    AloneThen(s, p, alive, 1, 1);
    OneMore(s, p, alive);
    var t := Step(s, Run(p, true, alive));
    OneMore(t, p, alive);
    assert Step(t, Run(p, true, alive)).pc == s.pc[p := Remake];
  }

  lemma Moves(s: State, p: Process, a: Point, b: Point)
    ensures Move(Move(s, p, a), p, b) == Move(s, p, b)
  {
    assert s.pc[p := a][p := b] == s.pc[p := b];
  }

  predicate IsNext(s: State, a: Point, b: Point, alive: bool)
    requires s.path.Some?
  {
    match a
    case Start => b == Stat
    case Stat => b == List
    case List => b == Inspect
    case Inspect => b == if s.path.value.owner.NoFile? then Unlink else Read
    case Read => b == if s.path.value.owner.Pid? then Probe(s.path.value.owner.pid) else Unlink
    case Probe(q) => b == if NamesLive(s, q, alive) then Busy else Unlink
    case _ => false
  }

  /** A step that only moves on, in front of a directory without foreign entries. */
  lemma MovesOn(s: State, p: Process, a: Point, b: Point, alive: bool)
    requires Live(s, p) && s.path.Some? && !s.path.value.foreign
    requires IsNext(s, a, b, alive)
    ensures After(Move(s, p, a), Alone(p, alive, 1)) == Move(s, p, b)
  {
    OneMore(Move(s, p, a), p, alive);
    Moves(s, p, a, b);
  }

  lemma InPlace(s: State, p: Process)
    requires p in s.pc
    ensures Move(s, p, s.pc[p]) == s
  {
    assert s.pc[p := s.pc[p]] == s.pc;
  }

  /** From `mkdir` to the look at the owner file. */
  lemma ToInspect(s: State, p: Process, alive: bool)
    requires Live(s, p) && s.pc[p].Start? && s.path.Some? && !s.path.value.foreign
    ensures After(s, Alone(p, alive, 3)) == Move(s, p, Inspect)
  {
    hide Alone, After;
    InPlace(s, p);
    MovesOn(s, p, Start, Stat, alive);
    MovesOn(s, p, Stat, List, alive);
    MovesOn(s, p, List, Inspect, alive);
    AloneThen(s, p, alive, 1, 1);
    AloneThen(s, p, alive, 2, 1);
  }

  /** From `mkdir` to the decision about the owner: three steps, or up to five if there is a file to read. */
  lemma Examine(s: State, p: Process, alive: bool) returns (n: nat)
    requires Live(s, p) && s.pc[p].Start? && s.path.Some? && Reclaimable(s, s.path.value, alive)
    ensures n <= 6 && After(s, Alone(p, alive, n)) == Move(s, p, Unlink)
  {
    hide Alone, After;
    ToInspect(s, p, alive);
    AloneThen(s, p, alive, 3, 1);
    var owner := s.path.value.owner;
    if owner.NoFile? {
      MovesOn(s, p, Inspect, Unlink, alive);
      n := 4;
    } else {
      MovesOn(s, p, Inspect, Read, alive);
      AloneThen(s, p, alive, 4, 1);
      if owner.Pid? {
        MovesOn(s, p, Read, Probe(owner.pid), alive);
        MovesOn(s, p, Probe(owner.pid), Unlink, alive);
        AloneThen(s, p, alive, 5, 1);
        n := 6;
      } else {
        MovesOn(s, p, Read, Unlink, alive);
        n := 5;
      }
    }
  }

  /** Progress: alone in front of a stale lock that holds at most an owner file naming no live process,
      a process acquires it, and the file then names the new owner. */
  lemma StaleLockIsAcquired(s: State, p: Process, alive: bool) returns (n: nat)
    requires Live(s, p) && s.pc[p].Start? && (s.path.Some? ==> Reclaimable(s, s.path.value, alive))
    ensures n <= 11 && After(s, Alone(p, alive, n)) == Claimed(s, p)
  {
    if s.path.None? {
      n := 3;
      EnterFresh(s, p, alive);
    } else {
      var k := Examine(s, p, alive);
      var t := Move(s, p, Unlink);
      Demolish(t, p, alive);
      var u := Move(t, p, Remake).(path := None);
      EnterFresh(u, p, alive);
      AloneThen(s, p, alive, k, 2);
      AloneThen(s, p, alive, k + 2, 3);
      n := k + 5;
      assert Claimed(u, p).pc == s.pc[p := Inside];
    }
  }

  /** Leaving undoes entering: the directory stays as it is while the process is inside, and then is gone, unless
      something foreign was put into it. */
  lemma ReleaseRemoves(s: State, p: Process, alive: bool)
    requires Live(s, p) && s.pc[p].Inside? && s.path.Some?
    ensures After(s, Alone(p, alive, 1)) == Move(s, p, Release)
    ensures
      var t := After(s, Alone(p, alive, 3));
      && t.pc == s.pc[p := Done]
      && t.path == if s.path.value.foreign then Some(s.path.value.(owner := NoFile)) else None
  {
    var e := Run(p, true, alive);
    AloneThen(s, p, alive, 1, 2);
    OneMore(s, p, alive);
    var t := Step(s, e);
    AloneThen(t, p, alive, 1, 1);
    OneMore(t, p, alive);
    OneMore(Step(t, e), p, alive);
    assert Step(Step(t, e), e).pc == s.pc[p := Done];
  }

  // ---- refusals ----

  /** Every present directory is refused while the clock says that it is fresh. */
  lemma FreshLockIsRefused(s: State, p: Process, first: bool, a: bool, b: bool)
    requires Live(s, p) && s.pc[p].Start? && s.path.Some?
    ensures After(s, [Run(p, first, a), Run(p, false, b)]) == Move(s, p, Busy)
  {
    AfterTwo(s, Run(p, first, a), Run(p, false, b));
    assert s.pc[p := Stat][p := Busy] == s.pc[p := Busy];
  }

  /** So is one that another process's last step removes between `mkdir` and `stat`, whatever the clock says. */
  lemma VanishedLockIsRefused(s: State, p: Process, q: Process, first: bool, a: bool, c: bool, d: bool, stale: bool,
      b: bool)
    requires p != q && Live(s, p) && Live(s, q) && s.pc[p].Start? && s.pc[q].RemoveOwn? && Removable(s)
    ensures After(s, [Run(p, first, a), Run(q, c, d), Run(p, stale, b)])
         == Move(Move(s, q, Done), p, Busy).(path := None)
  {
    var e, f, g := Run(p, first, a), Run(q, c, d), Run(p, stale, b);
    AfterThree(s, e, f, g);
    assert s.pc[p := Stat][q := Done][p := Busy] == s.pc[q := Done][p := Busy];
  }

  lemma AfterThree(s: State, e: Event, f: Event, g: Event)
    ensures After(s, [e, f, g]) == Step(Step(Step(s, e), f), g)
  {
    assert [e, f, g][1..] == [f, g];
    AfterTwo(Step(s, e), f, g);
  }

  /** And a stale one in which something foreign stands; its owner file is not touched. */
  lemma ForeignEntryIsRefused(s: State, p: Process, a: bool, b: bool, c: bool, d: bool, e: bool)
    requires Live(s, p) && s.pc[p].Start? && s.path.Some? && s.path.value.foreign
    ensures After(s, [Run(p, a, b), Run(p, true, c), Run(p, d, e)]) == Move(s, p, Busy)
  {
    AfterThree(s, Run(p, a, b), Run(p, true, c), Run(p, d, e));
    assert s.pc[p := Stat][p := List][p := Busy] == s.pc[p := Busy];
  }

  /** The process a stale lock names is alive: it is not process 0, and in the system it has not crashed. */
  predicate NamesLive(s: State, pid: Process, alive: bool) {
    pid > 0 && (if pid in s.pc then pid !in s.crashed else alive)
  }

  /** In front of a stale lock with an owner's name six steps decide, and change nothing: the attempt is refused
      exactly if the name is that of a live process, and goes on to reclaim otherwise. */
  lemma OwnerDecides(s: State, p: Process, q: Process, alive: bool)
    requires Live(s, p) && s.pc[p].Start? && s.path.Some? && !s.path.value.foreign && s.path.value.owner == Pid(q)
    ensures After(s, Alone(p, alive, 6)) == Move(s, p, if NamesLive(s, q, alive) then Busy else Unlink)
  {
    hide Alone, After;
    ToInspect(s, p, alive);
    MovesOn(s, p, Inspect, Read, alive);
    MovesOn(s, p, Read, Probe(q), alive);
    MovesOn(s, p, Probe(q), if NamesLive(s, q, alive) then Busy else Unlink, alive);
    AloneThen(s, p, alive, 3, 1);
    AloneThen(s, p, alive, 4, 1);
    AloneThen(s, p, alive, 5, 1);
  }

  lemma AloneOne(s: State, p: Process, alive: bool, n: nat)
    requires n > 0
    ensures After(s, Alone(p, alive, n)) == After(Step(s, Run(p, true, alive)), Alone(p, alive, n - 1))
  {
    assert Alone(p, alive, n)[1..] == Alone(p, alive, n - 1);
  }

  // ---- every attempt ends ----

  /** The most steps a process still takes. */
  function StepsLeft(pc: Point): nat {
    match pc
    case Start => 14
    case Stat => 13
    case List => 12
    case Inspect => 11
    case Read => 10
    case Probe(_) => 9
    case Unlink => 8
    case Remove => 7
    case Remake => 6
    case Open => 5
    case Write => 4
    case Inside => 3
    case Release => 2
    case RemoveOwn => 1
    case Done => 0
    case Busy => 0
  }

  lemma EachStepCounts(s: State, e: Event, p: Process)
    requires p in s.pc
    ensures
      var t := Step(s, e);
      && p in t.pc && (p in s.crashed ==> p in t.crashed)
      && StepsLeft(t.pc[p]) <= StepsLeft(s.pc[p])
      && (e.Run? && e.p == p && Live(s, p) && StepsLeft(s.pc[p]) > 0 ==> StepsLeft(t.pc[p]) < StepsLeft(s.pc[p]))
  {
  }

  function OwnSteps(run: seq<Event>, p: Process): nat {
    if run == [] then 0 else (if run[0].Run? && run[0].p == p then 1 else 0) + OwnSteps(run[1..], p)
  }

  /** No attempt waits or starts over, whatever all others do in between: each step of its own brings it nearer to
      its end, and after fourteen it has left the lock or was refused. */
  lemma {:induction false} AttemptEnds(s: State, run: seq<Event>, p: Process)
    requires p in s.pc
    ensures
      var t := After(s, run);
      && p in t.pc && (p in s.crashed ==> p in t.crashed)
      && (Live(t, p) ==>
            StepsLeft(t.pc[p]) + OwnSteps(run, p) <= StepsLeft(s.pc[p]) || t.pc[p] == Done || t.pc[p] == Busy)
    decreases |run|
  {
    hide Step;
    if run != [] {
      EachStepCounts(s, run[0], p);
      AttemptEnds(Step(s, run[0]), run[1..], p);
    }
  }

  /** Every attempt that nobody disturbs is inside or refused after at most eleven steps, whatever its clock and
      `kill` say at each of them. */
  lemma {:induction false} AttemptAloneEnters(s: State, run: seq<Event>, p: Process) returns (n: nat)
    requires Live(s, p) && StepsLeft(s.pc[p]) >= 3 && (s.pc[p].Open? || s.pc[p].Write? ==> s.path.Some?)
    requires (forall e <- run :: e.Run? && e.p == p) && |run| + 3 >= StepsLeft(s.pc[p])
    ensures n <= |run| && n + 3 <= StepsLeft(s.pc[p])
    ensures var t := After(s, run[..n]); p in t.pc && (t.pc[p] == Inside || t.pc[p] == Busy)
    decreases |run|
  {
    n := 0;
    if s.pc[p] != Inside {
      assert run[0] in run;
      var t := Step(s, run[0]);
      n := 1;
      assert run[..1][1..] == [];
      if t.pc[p] != Busy {
        var k := AttemptAloneEnters(t, run[1..], p);
        n := k + 1;
        assert run[..n][1..] == run[1..][..k];
      }
    }
  }

  // ---- crashes, intruders and lost writes ----

  /** A crashed process takes no further step, and what it made stays. */
  lemma {:induction false} CrashIsFinal(s: State, p: Process, run: seq<Event>)
    requires p in s.pc
    ensures
      var t := After(s, [Crash(p)] + run);
      p in t.pc && t.pc[p] == s.pc[p] && !Live(t, p)
    ensures Step(s, Crash(p)).path == s.path
  {
    assert ([Crash(p)] + run)[1..] == run;
    CrashedStays(Step(s, Crash(p)), p, run);
  }

  lemma {:induction false} CrashedStays(s: State, p: Process, run: seq<Event>)
    requires p in s.pc && p in s.crashed
    ensures
      var t := After(s, run);
      p in t.pc && t.pc[p] == s.pc[p] && p in t.crashed
    decreases |run|
  {
    if run != [] {
      CrashedStays(Step(s, run[0]), p, run[1..]);
    }
  }

  /** Something foreign put into the directory in front of a `rmdir` saves it: a reclaimer is refused, and an owner
      leaves it behind. */
  lemma IntruderSavesDirectory(s: State, p: Process, stale: bool, alive: bool)
    requires Live(s, p) && (s.pc[p].Remove? || s.pc[p].RemoveOwn?) && s.path.Some?
    ensures
      After(s, [Intrude, Run(p, stale, alive)])
      == Move(s, p, if s.pc[p].Remove? then Busy else Done).(path := Some(s.path.value.(foreign := true)))
  {
    AfterTwo(s, Intrude, Run(p, stale, alive));
  }

  /** The name is written into the owner file as long as that is there; without it the write is lost. */
  lemma WriteNeedsFile(s: State, e: Event)
    requires e.Run? && Live(s, e.p) && s.pc[e.p].Write? && s.path.Some?
    ensures
      var owner := if s.path.value.owner.NoFile? then NoFile else Pid(e.p);
      Step(s, e) == Move(s, e.p, Inside).(path := Some(s.path.value.(owner := owner)))
  {
  }

  /** Who finds the directory gone while it reclaims is refused, and makes none. */
  lemma {:induction false} LostLockIsRefused(s: State, p: Process, run: seq<Event>) returns (n: nat)
    requires Live(s, p) && Reclaims(s.pc[p]) && !s.pc[p].Remake? && s.path.None?
    requires (forall e <- run :: e.Run? && e.p == p) && |run| + 6 >= StepsLeft(s.pc[p])
    ensures n <= |run| && n + 6 <= StepsLeft(s.pc[p]) && After(s, run[..n]) == Move(s, p, Busy)
    decreases |run|
  {
    assert run[0] in run && run[..1][1..] == [];
    var t := Step(s, run[0]);
    n := 1;
    Moves(s, p, t.pc[p], Busy);
    if t.pc[p] != Busy {
      n := LostLockIsRefused(t, p, run[1..]);
      n := n + 1;
      assert run[..n][1..] == run[1..][..n - 1];
    }
  }

  /** An owner whose directory is gone before its file is written gives up and makes none. */
  lemma LostLockIsGivenUp(s: State, p: Process, alive: bool)
    requires Live(s, p) && s.pc[p].Open? && s.path.None?
    ensures After(s, Alone(p, alive, 3)) == Move(s, p, Done)
  {
    AloneOne(s, p, alive, 3);
    AloneOne(Move(s, p, Release), p, alive, 2);
    AloneOne(Move(s, p, RemoveOwn), p, alive, 1);
    Moves(s, p, Release, RemoveOwn);
    Moves(s, p, RemoveOwn, Done);
  }

  /** No refusal ever touches the directory: only `Unlink`, and what follows it, writes to the lock. */
  lemma RefusalIsHarmless(s: State, e: Event)
    requires e.Run? && Live(s, e.p) && Step(s, e).pc[e.p] == Busy
    ensures Step(s, e).path == s.path
  {
  }

  // ---- without the hypotheses ----

  /** Two reclaimers of one dead lock: both pass the staleness test, one rebuilds the directory, the other
      removes that and rebuilds it again. Both are inside. */
  lemma TwoReclaimersCollide()
    ensures exists s, run :: Initial(s) && s.path.Some? && s.path.value.creator in s.crashed && !Excludes(After(s, run))
  {
    var s := State(Some(Dir(9, NoFile, false)), map[1 := Start, 2 := Start], {9});
    var run := BothRemove(s);
    assert !Excludes(After(s, run)) by {
      var t := After(s, run);
      assert Live(t, 1) && Live(t, 2) && Holds(t.pc[1]) && Holds(t.pc[2]);
    }
  }

  lemma BothRemove(s: State) returns (run: seq<Event>)
    requires Live(s, 1) && Live(s, 2) && s.pc[1].Start? && s.pc[2].Start? && Removable(s)
    ensures After(s, run) == Move(Move(s, 1, Open), 2, Open).(path := Some(Dir(2, NoFile, false)))
  {
    var first := Alone(1, false, 5) + Alone(2, false, 5);
    AfterAppend(s, Alone(1, false, 5), Alone(2, false, 5));
    ToRemove(s, 1);
    var s1 := Move(s, 1, Remove);
    ToRemove(s1, 2);
    var s2 := Move(s1, 2, Remove);
    var second := BothRebuild(s2);
    run := first + second;
    AfterAppend(s, first, second);
    assert s2.pc[1 := Open][2 := Open] == s.pc[1 := Open][2 := Open];
  }

  lemma BothRebuild(s: State) returns (run: seq<Event>)
    requires Live(s, 1) && Live(s, 2) && s.pc[1].Remove? && s.pc[2].Remove? && Removable(s)
    ensures After(s, run) == Move(Move(s, 1, Open), 2, Open).(path := Some(Dir(2, NoFile, false)))
  {
    run := Alone(1, false, 2) + Alone(2, false, 2);
    AfterAppend(s, Alone(1, false, 2), Alone(2, false, 2));
    Rebuild(s, 1);
    Rebuild(Move(s, 1, Open).(path := Some(Dir(1, NoFile, false))), 2);
  }

  lemma Created(s: State, p: Process)
    requires Live(s, p) && s.pc[p].Start? && s.path.None?
    ensures After(s, Alone(p, false, 1)) == Create(s, p)
  {
    OneMore(s, p, false);
  }

  /** A reclaim of a lock whose creator is alive but has not yet written its name: both are inside. */
  lemma LiveCreatorIsEvicted()
    ensures exists s, run :: Initial(s) && s.path.None? && s.crashed == {} && !Excludes(After(s, run))
  {
    hide After, Step, Alone;
    var s := State(None, map[1 := Start, 2 := Start], {});
    var run := Alone(1, false, 1) + Alone(2, false, 5) + Alone(2, false, 2);
    AfterAppend(s, Alone(1, false, 1) + Alone(2, false, 5), Alone(2, false, 2));
    AfterAppend(s, Alone(1, false, 1), Alone(2, false, 5));
    Created(s, 1);
    var s1 := Create(s, 1);
    ToRemove(s1, 2);
    var s2 := Move(s1, 2, Remove);
    Rebuild(s2, 2);
    var s3 := After(s, run);
    assert Holds(s3.pc[1]) && Holds(s3.pc[2]) && Live(s3, 1) && Live(s3, 2);
  }

  lemma {:induction false} AfterAppend(s: State, a: seq<Event>, b: seq<Event>)
    ensures After(s, a + b) == After(After(s, a), b)
    decreases |a|
  {
    if a == [] {
      assert a + b == b;
    } else {
      assert (a + b)[1..] == a[1..] + b;
      AfterAppend(Step(s, a[0]), a[1..], b);
    }
  }

  lemma ToRemove(s: State, p: Process)
    requires Live(s, p) && s.pc[p].Start? && s.path.Some? && s.path.value.owner.NoFile? && !s.path.value.foreign
    ensures After(s, Alone(p, false, 5)) == Move(s, p, Remove)
  {
    var e := Run(p, true, false);
    var t1, t2, t3 := Move(s, p, Stat), Move(s, p, List), Move(s, p, Inspect);
    assert Step(s, e) == t1 && Step(t1, e) == t2 && Step(t2, e) == t3 && Step(t3, e) == Move(s, p, Unlink);
    OneMore(s, p, false); OneMore(t1, p, false); OneMore(t2, p, false); OneMore(t3, p, false);
    OneMore(Move(s, p, Unlink), p, false);
    AloneThen(s, p, false, 1, 1);
    AloneThen(s, p, false, 2, 1);
    AloneThen(s, p, false, 3, 1);
    AloneThen(s, p, false, 4, 1);
    assert Step(Move(s, p, Unlink), e) == Move(s, p, Remove);
  }

  lemma Rebuild(s: State, p: Process)
    requires Live(s, p) && s.pc[p].Remove? && Removable(s)
    ensures After(s, Alone(p, false, 2)) == Move(s, p, Open).(path := Some(Dir(p, NoFile, false)))
  {
    var e := Run(p, true, false);
    AloneThen(s, p, false, 1, 1);
    OneMore(s, p, false);
    OneMore(Step(s, e), p, false);
    assert Step(Step(s, e), e).pc == s.pc[p := Open];
  }
}
