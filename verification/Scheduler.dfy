// One scheduler round of src/scheduler.rs: role tasks forked under a semaphore, each working on its own
// entry of a shared map in lock-protected sections, and joined.
module Scheduler {
  import opened Bytes
  import opened Sums

  // ---------------------------------------------------------------- one role's entry and task

  datatype Daily = Daily(content: Bytes, carClaimed: bool, nextClaim: int)
  type Periodic = Bytes

  /** A role's entry; rest is its name, display and what the round does not touch. */
  datatype RoleState = RoleState(daily: Daily, study: bool, periodic: Periodic, rest: Bytes)

  const NEW_ROLE := RoleState(Daily([], false, 0), false, [], [])

  datatype Plan = Plan(daily: bool, weekly: bool, periodic: bool)

  /** What the server and the clock make of one task: whether token and login succeed, how the role info
      changes the periodic state at login and after the daily tasks (None when that request fails), what
      the daily and periodic tasks make of their copies, when a car claim is due and its next time. */
  datatype Session = Session(
    token: bool, login: bool,
    refresh: Periodic -> Periodic,
    daily: Daily -> Daily,
    refreshAgain: Option<Periodic -> Periodic>,
    periodic: Periodic -> Periodic,
    claimDue: Daily -> bool,
    nextClaim: int)

  datatype Job = Job(key: Bytes, plan: Plan, session: Session)

  /** The sections of run_one between which other tasks may run. */
  datatype Stage =
    | Start | Refresh | ReadDaily | WriteDaily | WriteWeekly
    | ReadPeriodic | DecideClaim | WriteClaim | WritePeriodic | Finished

  /** A task's stage and the copies it works on. */
  datatype Local = Local(stage: Stage, daily: Daily, periodic: Periodic)

  const FRESH := Local(Start, NEW_ROLE.daily, NEW_ROLE.periodic)

  /** A role's entry in the map, if any, together with its task. */
  datatype Own = Own(local: Local, cell: Option<RoleState>)

  function Entry(cell: Option<RoleState>): RoleState { if cell.Some? then cell.value else NEW_ROLE }

  function AfterLogin(plan: Plan): Stage { if plan.daily then ReadDaily else AfterDaily(plan) }
  function AfterDaily(plan: Plan): Stage { if plan.weekly then WriteWeekly else AfterWeekly(plan) }
  function AfterWeekly(plan: Plan): Stage { if plan.periodic then ReadPeriodic else Finished }

  /** One section of run_one. */
  function RoleStep(job: Job, own: Own): Own
    requires own.local.stage != Finished
  {
    var l, rs := own.local, Entry(own.cell);
    match l.stage
    case Start =>
      own.(local := l.(stage := if job.session.token && job.session.login then Refresh else Finished))
    case Refresh =>
      Own(l.(stage := AfterLogin(job.plan)), Some(rs.(periodic := job.session.refresh(rs.periodic))))
    case ReadDaily => own.(local := l.(stage := WriteDaily, daily := job.session.daily(rs.daily)))
    case WriteDaily =>
      var again := job.session.refreshAgain;
      Own(l.(stage := AfterDaily(job.plan)),
          Some(rs.(daily := l.daily, periodic := if again.Some? then again.value(rs.periodic) else rs.periodic)))
    case WriteWeekly => Own(l.(stage := AfterWeekly(job.plan)), Some(rs.(study := true)))
    case ReadPeriodic => own.(local := l.(stage := DecideClaim, periodic := job.session.periodic(rs.periodic)))
    case DecideClaim =>
      own.(local := l.(stage := if own.cell.Some? && job.session.claimDue(rs.daily)
                                then WriteClaim else WritePeriodic))
    case WriteClaim =>
      Own(l.(stage := WritePeriodic),
          Some(rs.(daily := rs.daily.(carClaimed := true, nextClaim := job.session.nextClaim))))
    case WritePeriodic => Own(l.(stage := Finished), Some(rs.(periodic := l.periodic)))
  }

  /** How many sections are left at most. */
  function Rank(stage: Stage): nat {
    match stage
    case Start => 9
    case Refresh => 8
    case ReadDaily => 7
    case WriteDaily => 6
    case WriteWeekly => 5
    case ReadPeriodic => 4
    case DecideClaim => 3
    case WriteClaim => 2
    case WritePeriodic => 1
    case Finished => 0
  }

  lemma RankDecreases(job: Job, own: Own)
    requires own.local.stage != Finished
    ensures Rank(RoleStep(job, own).local.stage) < Rank(own.local.stage)
  {
  }

  /** The entry a task leaves when nobody else runs. */
  function RunAlone(job: Job, own: Own): Option<RoleState>
    decreases Rank(own.local.stage)
  {
    if own.local.stage == Finished then own.cell
    else
      RankDecreases(job, own);
      RunAlone(job, RoleStep(job, own))
  }

  // ---------------------------------------------------------------- what a task does, all at once

  function DailyEffect(job: Job, rs: RoleState): RoleState {
    var again := job.session.refreshAgain;
    if !job.plan.daily then rs
    else rs.(daily := job.session.daily(rs.daily),
             periodic := if again.Some? then again.value(rs.periodic) else rs.periodic)
  }

  function PeriodicEffect(job: Job, rs: RoleState): RoleState {
    if !job.plan.periodic then rs
    else
      rs.(periodic := job.session.periodic(rs.periodic),
          daily := if job.session.claimDue(rs.daily)
                   then rs.daily.(carClaimed := true, nextClaim := job.session.nextClaim) else rs.daily)
  }

  /** A task run by itself: nothing without token and login; otherwise the refresh, then the planned parts. */
  lemma RunAloneIs(job: Job, cell: Option<RoleState>)
    ensures RunAlone(job, Own(FRESH, cell))
            == if !job.session.token || !job.session.login then cell
               else
                 var rs := if cell.Some? then cell.value else RoleState(Daily([], false, 0), false, [], []);
                 var a := DailyEffect(job, rs.(periodic := job.session.refresh(rs.periodic)));
                 Some(PeriodicEffect(job, if job.plan.weekly then a.(study := true) else a))
  {
    var own := RoleStep(job, Own(FRESH, cell));
    if own.local.stage != Finished {
      var logged := RoleStep(job, own);
      RunFromDaily(job, logged);
    }
  }

  lemma RunFromDaily(job: Job, own: Own)
    requires own.cell.Some? && own.local.stage == AfterLogin(job.plan)
    ensures var a := DailyEffect(job, own.cell.value);
            RunAlone(job, own) == Some(PeriodicEffect(job, if job.plan.weekly then a.(study := true) else a))
  {
    hide PeriodicEffect;
    var next := if job.plan.daily then RoleStep(job, RoleStep(job, own)) else own;
    RunFromWeekly(job, next);
  }

  lemma RunFromWeekly(job: Job, own: Own)
    requires own.cell.Some? && own.local.stage == AfterDaily(job.plan)
    ensures RunAlone(job, own)
            == Some(PeriodicEffect(job, if job.plan.weekly then own.cell.value.(study := true) else own.cell.value))
  {
    hide PeriodicEffect;
    RunFromPeriodic(job, if job.plan.weekly then RoleStep(job, own) else own);
  }

  lemma RunFromPeriodic(job: Job, own: Own)
    requires own.cell.Some? && own.local.stage == AfterWeekly(job.plan)
    ensures RunAlone(job, own) == Some(PeriodicEffect(job, own.cell.value))
  {
    if job.plan.periodic {
      var decided := RoleStep(job, RoleStep(job, own));
      var claimed := if decided.local.stage == WriteClaim then RoleStep(job, decided) else decided;
      assert RunAlone(job, own) == RunAlone(job, decided) == RunAlone(job, claimed);
      assert RunAlone(job, claimed) == RoleStep(job, claimed).cell;
    }
  }

  // ---------------------------------------------------------------- the round

  type Roles = map<Bytes, RoleState>

  datatype Task = Queued | Running(local: Local) | Done

  /** The shared map, the free permits of the semaphore, the tasks and how many have been spawned. */
  datatype Round = Round(roles: Roles, free: nat, tasks: seq<Task>, spawned: nat)

  datatype Action = Spawn | Acquire(task: nat) | Work(task: nat) | Release(task: nat)

  function Cell(roles: Roles, key: Bytes): Option<RoleState> { if key in roles then Some(roles[key]) else None }

  function Put(roles: Roles, key: Bytes, cell: Option<RoleState>): Roles {
    if cell.Some? then roles[key := cell.value] else roles - {key}
  }

  predicate Enabled(r: Round, a: Action) {
    match a
    case Spawn => r.spawned < |r.tasks|
    case Acquire(i) => i < r.spawned <= |r.tasks| && r.tasks[i] == Queued && r.free > 0
    case Work(i) => i < |r.tasks| && r.tasks[i].Running? && r.tasks[i].local.stage != Finished
    case Release(i) => i < |r.tasks| && r.tasks[i].Running? && r.tasks[i].local.stage == Finished
  }

  function Step(jobs: seq<Job>, r: Round, a: Action): Round
    requires |r.tasks| == |jobs| && Enabled(r, a)
  {
    match a
    case Spawn => r.(spawned := r.spawned + 1)
    case Acquire(i) => r.(free := r.free - 1, tasks := r.tasks[i := Running(FRESH)])
    case Work(i) =>
      var own := RoleStep(jobs[i], Own(r.tasks[i].local, Cell(r.roles, jobs[i].key)));
      r.(roles := Put(r.roles, jobs[i].key, own.cell), tasks := r.tasks[i := Running(own.local)])
    case Release(i) => r.(free := r.free + 1, tasks := r.tasks[i := Done])
  }

  function Begin(jobs: seq<Job>, roles: Roles, concurrency: nat): Round {
    Round(roles, concurrency, seq(|jobs|, i => Queued), 0)
  }

  /** The round after some steps, or nothing if one was not enabled when taken. */
  function After(jobs: seq<Job>, roles: Roles, concurrency: nat, run: seq<Action>): (o: Option<Round>)
    ensures o.Some? ==> |o.value.tasks| == |jobs|
  {
    if run == [] then Some(Begin(jobs, roles, concurrency))
    else
      var before := After(jobs, roles, concurrency, run[..|run| - 1]);
      var a := run[|run| - 1];
      if before.Some? && Enabled(before.value, a) then Some(Step(jobs, before.value, a)) else None
  }

  /** All join handles are ready. */
  predicate Joined(r: Round) { forall i :: 0 <= i < |r.tasks| ==> r.tasks[i] == Done }

  predicate DistinctKeys(jobs: seq<Job>) { forall i, j :: 0 <= i < j < |jobs| ==> jobs[i].key != jobs[j].key }

  // ---------------------------------------------------------------- the invariant

  function LocalOf(t: Task): Local {
    match t
    case Queued => FRESH
    case Running(l) => l
    case Done => FRESH.(stage := Finished)
  }

  function Holds(t: Task): nat { if t.Running? then 1 else 0 }

  /** What the entry of a job will be once its task is through, however far it is. */
  function Outlook(job: Job, t: Task, roles: Roles): Option<RoleState> {
    RunAlone(job, Own(LocalOf(t), Cell(roles, job.key)))
  }

  ghost predicate Permits(r: Round, concurrency: nat) {
    && r.spawned <= |r.tasks|
    && r.free + Sum(r.tasks, Holds) == concurrency
    && forall i :: r.spawned <= i < |r.tasks| ==> r.tasks[i] == Queued
  }

  /** Every task is on its way to what it would do alone from the initial map; other entries are untouched. */
  ghost predicate OnCourse(jobs: seq<Job>, roles: Roles, r: Round)
    requires |r.tasks| == |jobs|
  {
    && (forall i :: 0 <= i < |jobs| ==>
          Outlook(jobs[i], r.tasks[i], r.roles) == RunAlone(jobs[i], Own(FRESH, Cell(roles, jobs[i].key))))
    && (forall key :: (forall i :: 0 <= i < |jobs| ==> jobs[i].key != key) ==> Cell(r.roles, key) == Cell(roles, key))
  }

  lemma PutCell(roles: Roles, key: Bytes, cell: Option<RoleState>, other: Bytes)
    ensures Cell(Put(roles, key, cell), other) == if other == key then cell else Cell(roles, other)
  {
  }

  lemma StepKeepsPermits(jobs: seq<Job>, r: Round, a: Action, concurrency: nat)
    requires |r.tasks| == |jobs| && Enabled(r, a) && Permits(r, concurrency)
    ensures Permits(Step(jobs, r, a), concurrency)
  {
    hide RoleStep, Sum;
    if !a.Spawn? {
      SumAfter(r.tasks, Holds, a.task, Step(jobs, r, a).tasks[a.task]);
    }
  }

  lemma StepStaysOnCourse(jobs: seq<Job>, roles: Roles, r: Round, a: Action)
    requires |r.tasks| == |jobs| && Enabled(r, a) && DistinctKeys(jobs) && OnCourse(jobs, roles, r)
    ensures OnCourse(jobs, roles, Step(jobs, r, a))
  {
    hide RoleStep, RunAlone;
    match a
    case Spawn =>
    case Acquire(i) =>
    case Work(i) => WorkStaysOnCourse(jobs, roles, r, i);
    case Release(i) => FinishedIsThrough(jobs[i], r.tasks[i].local, Cell(r.roles, jobs[i].key));
  }

  lemma FinishedIsThrough(job: Job, local: Local, cell: Option<RoleState>)
    requires local.stage == Finished
    ensures RunAlone(job, Own(local, cell)) == cell == RunAlone(job, Own(FRESH.(stage := Finished), cell))
  {
  }

  lemma WorkStaysOnCourse(jobs: seq<Job>, roles: Roles, r: Round, i: nat)
    requires |r.tasks| == |jobs| && Enabled(r, Work(i)) && DistinctKeys(jobs) && OnCourse(jobs, roles, r)
    ensures OnCourse(jobs, roles, Step(jobs, r, Work(i)))
  {
    hide RoleStep, Put, Cell;
    var t := Step(jobs, r, Work(i));
    var own := RoleStep(jobs[i], Own(r.tasks[i].local, Cell(r.roles, jobs[i].key)));
    forall key ensures Cell(t.roles, key) == if key == jobs[i].key then own.cell else Cell(r.roles, key) {
      PutCell(r.roles, jobs[i].key, own.cell, key);
    }
    forall j | 0 <= j < |jobs|
      ensures Outlook(jobs[j], t.tasks[j], t.roles) == Outlook(jobs[j], r.tasks[j], r.roles)
    {
      if j == i {
        assert Own(own.local, own.cell) == own;
      } else {
        assert jobs[j].key != jobs[i].key;
      }
    }
  }

  // ---------------------------------------------------------------- running the roles one after another

  function OneByOne(jobs: seq<Job>, roles: Roles): Roles {
    if jobs == [] then roles
    else
      var before := OneByOne(jobs[..|jobs| - 1], roles);
      var job := jobs[|jobs| - 1];
      Put(before, job.key, RunAlone(job, Own(FRESH, Cell(before, job.key))))
  }

  lemma {:induction false} OneByOneCells(jobs: seq<Job>, roles: Roles, key: Bytes)
    requires DistinctKeys(jobs)
    ensures forall i :: 0 <= i < |jobs| && jobs[i].key == key ==>
              Cell(OneByOne(jobs, roles), key) == RunAlone(jobs[i], Own(FRESH, Cell(roles, key)))
    ensures (forall i :: 0 <= i < |jobs| ==> jobs[i].key != key) ==>
              Cell(OneByOne(jobs, roles), key) == Cell(roles, key)
  {
    hide RunAlone, Put, Cell;
    if jobs != [] {
      var n := |jobs| - 1;
      var before, job := OneByOne(jobs[..n], roles), jobs[n];
      OneByOneCells(jobs[..n], roles, key);
      PutCell(before, job.key, RunAlone(job, Own(FRESH, Cell(before, job.key))), key);
      assert forall i :: 0 <= i < n ==> jobs[..n][i] == jobs[i];
    }
  }

  lemma SameCells(a: Roles, b: Roles)
    requires forall key :: Cell(a, key) == Cell(b, key)
    ensures a == b
  {
    forall key ensures key in a <==> key in b {
      assert Cell(a, key) == Cell(b, key);
    }
    forall key | key in a ensures a[key] == b[key] {
      assert Cell(a, key) == Cell(b, key);
    }
  }

  // ---------------------------------------------------------------- whole rounds

  lemma {:induction false} RoundKeepsPermits(jobs: seq<Job>, roles: Roles, concurrency: nat, run: seq<Action>)
    ensures var r := After(jobs, roles, concurrency, run);
            r.Some? ==> Permits(r.value, concurrency)
  {
    hide Permits, Enabled, Step;
    if run == [] {
      BeginsWithPermits(jobs, roles, concurrency);
    } else {
      var before, a := After(jobs, roles, concurrency, run[..|run| - 1]), run[|run| - 1];
      RoundKeepsPermits(jobs, roles, concurrency, run[..|run| - 1]);
      if before.Some? && Enabled(before.value, a) {
        StepKeepsPermits(jobs, before.value, a, concurrency);
      }
    }
  }

  lemma BeginsWithPermits(jobs: seq<Job>, roles: Roles, concurrency: nat)
    ensures Permits(Begin(jobs, roles, concurrency), concurrency)
  {
    SumOfZeros(Begin(jobs, roles, concurrency).tasks, Holds);
  }

  lemma {:induction false} RoundStaysOnCourse(jobs: seq<Job>, roles: Roles, concurrency: nat, run: seq<Action>)
    requires DistinctKeys(jobs)
    ensures var r := After(jobs, roles, concurrency, run);
            r.Some? ==> OnCourse(jobs, roles, r.value)
  {
    hide OnCourse, Enabled, Step;
    if run == [] {
      BeginsOnCourse(jobs, roles, concurrency);
    } else {
      var before, a := After(jobs, roles, concurrency, run[..|run| - 1]), run[|run| - 1];
      RoundStaysOnCourse(jobs, roles, concurrency, run[..|run| - 1]);
      if before.Some? && Enabled(before.value, a) {
        StepStaysOnCourse(jobs, roles, before.value, a);
      }
    }
  }

  lemma BeginsOnCourse(jobs: seq<Job>, roles: Roles, concurrency: nat)
    ensures OnCourse(jobs, roles, Begin(jobs, roles, concurrency))
  {
    hide RunAlone;
  }

  /** At no time do more roles run than the concurrency allows. */
  lemma ConcurrencyIsBounded(jobs: seq<Job>, roles: Roles, concurrency: nat, run: seq<Action>)
    requires After(jobs, roles, concurrency, run).Some?
    ensures Sum(After(jobs, roles, concurrency, run).value.tasks, Holds) <= concurrency
  {
    RoundKeepsPermits(jobs, roles, concurrency, run);
  }

  /** Any interleaving that joins all tasks ends in the map the roles leave one after another. */
  lemma RoundIsSerialisable(jobs: seq<Job>, roles: Roles, concurrency: nat, run: seq<Action>)
    requires DistinctKeys(jobs) && After(jobs, roles, concurrency, run).Some?
    requires Joined(After(jobs, roles, concurrency, run).value)
    ensures After(jobs, roles, concurrency, run).value.roles == OneByOne(jobs, roles)
  {
    hide RunAlone, OneByOne, Cell;
    RoundStaysOnCourse(jobs, roles, concurrency, run);
    var r := After(jobs, roles, concurrency, run).value;
    forall key ensures Cell(r.roles, key) == Cell(OneByOne(jobs, roles), key) {
      OneByOneCells(jobs, roles, key);
      if i :| 0 <= i < |jobs| && jobs[i].key == key {
        FinishedIsThrough(jobs[i], LocalOf(r.tasks[i]), Cell(r.roles, key));
      }
    }
    SameCells(r.roles, OneByOne(jobs, roles));
  }

  // ---------------------------------------------------------------- every role runs exactly once

  function Acquisitions(run: seq<Action>, i: nat): nat {
    if run == [] then 0
    else Acquisitions(run[..|run| - 1], i) + if run[|run| - 1] == Acquire(i) then 1 else 0
  }

  lemma {:induction false} AcquiredOnce(jobs: seq<Job>, roles: Roles, concurrency: nat, run: seq<Action>, i: nat)
    requires i < |jobs| && After(jobs, roles, concurrency, run).Some?
    ensures Acquisitions(run, i) == if After(jobs, roles, concurrency, run).value.tasks[i] == Queued then 0 else 1
  {
    hide RoleStep;
    if run != [] {
      AcquiredOnce(jobs, roles, concurrency, run[..|run| - 1], i);
    }
  }

  /** By the end of the round every planned role has run exactly once. */
  lemma EveryRoleRunsOnce(jobs: seq<Job>, roles: Roles, concurrency: nat, run: seq<Action>, i: nat)
    requires i < |jobs| && After(jobs, roles, concurrency, run).Some?
    requires Joined(After(jobs, roles, concurrency, run).value)
    ensures Acquisitions(run, i) == 1
  {
    hide After;
    AcquiredOnce(jobs, roles, concurrency, run, i);
  }

  // ---------------------------------------------------------------- the round ends

  function Weight(t: Task): nat {
    match t
    case Queued => 11
    case Running(l) => Rank(l.stage) + 1
    case Done => 0
  }

  function Remaining(r: Round): int { |r.tasks| - r.spawned + Sum(r.tasks, Weight) }

  lemma StepUsesUp(jobs: seq<Job>, r: Round, a: Action)
    requires |r.tasks| == |jobs| && Enabled(r, a)
    ensures Remaining(Step(jobs, r, a)) < Remaining(r)
  {
    hide RoleStep, Sum, Rank;
    if !a.Spawn? {
      SumAfter(r.tasks, Weight, a.task, Step(jobs, r, a).tasks[a.task]);
      StartRank();
      if a.Work? {
        RankDecreases(jobs[a.task], Own(r.tasks[a.task].local, Cell(r.roles, jobs[a.task].key)));
      }
    }
  }

  lemma StartRank()
    ensures Rank(FRESH.stage) == 9
  {
  }

  lemma {:induction false} SumOfQueued(n: nat)
    ensures Sum(seq(n, i => Queued), Weight) == 11 * n
  {
    if n > 0 {
      SumOfQueued(n - 1);
      assert seq(n, i => Queued)[..n - 1] == seq(n - 1, i => Queued);
    }
  }

  /** Every run is finite: twelve steps per role are the most. */
  lemma {:induction false} RoundsAreFinite(jobs: seq<Job>, roles: Roles, concurrency: nat, run: seq<Action>)
    requires After(jobs, roles, concurrency, run).Some?
    ensures |run| + Remaining(After(jobs, roles, concurrency, run).value) <= 12 * |jobs|
    ensures |run| <= 12 * |jobs|
  {
    hide Enabled, Step, Remaining;
    RoundKeepsPermits(jobs, roles, concurrency, run);
    RemainingIsNat(After(jobs, roles, concurrency, run).value, concurrency);
    if run == [] {
      RemainingAtBegin(jobs, roles, concurrency);
    } else {
      RoundsAreFinite(jobs, roles, concurrency, run[..|run| - 1]);
      StepUsesUp(jobs, After(jobs, roles, concurrency, run[..|run| - 1]).value, run[|run| - 1]);
    }
  }

  lemma RemainingIsNat(r: Round, concurrency: nat)
    requires Permits(r, concurrency)
    ensures Remaining(r) >= 0
  {
  }

  lemma RemainingAtBegin(jobs: seq<Job>, roles: Roles, concurrency: nat)
    ensures Remaining(Begin(jobs, roles, concurrency)) == 12 * |jobs|
  {
    SumOfQueued(|jobs|);
    assert Begin(jobs, roles, concurrency).tasks == seq(|jobs|, i => Queued);
  }

  /** With at least one permit some step is always possible until every task is joined; without permits
      no role ever starts. */
  lemma NoDeadlockIff(jobs: seq<Job>, roles: Roles, concurrency: nat, run: seq<Action>)
    requires After(jobs, roles, concurrency, run).Some?
    ensures var r := After(jobs, roles, concurrency, run).value;
            && (concurrency > 0 && !Joined(r) ==> exists a :: Enabled(r, a))
            && (concurrency == 0 ==> forall i :: 0 <= i < |jobs| ==> r.tasks[i] == Queued)
  {
    hide Sum;
    RoundKeepsPermits(jobs, roles, concurrency, run);
    var r := After(jobs, roles, concurrency, run).value;
    if concurrency > 0 && !Joined(r) {
      SomeStep(r, concurrency);
    }
    if concurrency == 0 {
      NobodyRuns(jobs, roles, run);
    }
  }

  lemma SomeStep(r: Round, concurrency: nat)
    requires Permits(r, concurrency) && concurrency > 0 && !Joined(r)
    ensures exists a :: Enabled(r, a)
  {
    var i :| 0 <= i < |r.tasks| && r.tasks[i] != Done;
    if r.spawned < |r.tasks| {
      assert Enabled(r, Spawn);
    } else if j :| 0 <= j < |r.tasks| && r.tasks[j].Running? {
      assert Enabled(r, Work(j)) || Enabled(r, Release(j));
    } else {
      SumOfZeros(r.tasks, Holds);
      assert Enabled(r, Acquire(i));
    }
  }

  lemma {:induction false} NobodyRuns(jobs: seq<Job>, roles: Roles, run: seq<Action>)
    requires After(jobs, roles, 0, run).Some?
    ensures var r := After(jobs, roles, 0, run).value;
            r.free == 0 && forall i :: 0 <= i < |jobs| ==> r.tasks[i] == Queued
  {
    if run != [] {
      NobodyRuns(jobs, roles, run[..|run| - 1]);
    }
  }
}
