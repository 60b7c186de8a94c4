// When a scheduler round of src/scheduler.rs is serialisable: exactly with one permit at most, or with
// role keys that differ.
module Serialisability {
  import opened Bytes
  import opened Sums
  import opened Scheduler

  // ---------------------------------------------------------------- serial orders

  /** A permutation of the first n numbers: n of them, and every one is there. */
  predicate IsOrder(order: seq<nat>, n: nat) {
    && |order| == n
    && (forall k :: 0 <= k < n ==> order[k] < n)
    && (forall i :: 0 <= i < n ==> i in order)
  }

  function Arrange(jobs: seq<Job>, order: seq<nat>): (r: seq<Job>)
    requires forall k :: 0 <= k < |order| ==> order[k] < |jobs|
    ensures |r| == |order| && forall k :: 0 <= k < |order| ==> r[k] == jobs[order[k]]
  {
    if order == [] then [] else Arrange(jobs, order[..|order| - 1]) + [jobs[order[|order| - 1]]]
  }

  /** The map that running the roles one after another leaves, in some order. */
  ghost predicate IsSerial(jobs: seq<Job>, roles: Roles, end: Roles) {
    exists order :: IsOrder(order, |jobs|) && end == OneByOne(Arrange(jobs, order), roles)
  }

  // ---------------------------------------------------------------- one permit

  function Through(t: Task): nat { if t == Done then 1 else 0 }

  /** The tasks that are done, in the order they finished, have run one by one; at most one more is running,
      and it is on its way to what it would do after them. */
  ghost predicate InTurn(jobs: seq<Job>, roles: Roles, r: Round, order: seq<nat>, running: Option<nat>)
    requires |r.tasks| == |jobs|
  {
    && (forall k :: 0 <= k < |order| ==> order[k] < |jobs|)
    && (forall i :: 0 <= i < |jobs| && r.tasks[i] == Done ==> i in order)
    && |order| == Sum(r.tasks, Through)
    && (forall i :: 0 <= i < |jobs| ==> (r.tasks[i].Running? <==> running == Some(i)))
    && var base := OneByOne(Arrange(jobs, order), roles);
       match running
       case None => r.roles == base
       case Some(i) =>
         && i < |jobs|
         && Outlook(jobs[i], r.tasks[i], r.roles) == RunAlone(jobs[i], Own(FRESH, Cell(base, jobs[i].key)))
         && forall key :: key != jobs[i].key ==> Cell(r.roles, key) == Cell(base, key)
  }

  lemma AcquireInTurn(jobs: seq<Job>, roles: Roles, r: Round, order: seq<nat>, running: Option<nat>, i: nat)
    requires |r.tasks| == |jobs| && InTurn(jobs, roles, r, order, running) && Enabled(r, Acquire(i))
    requires Permits(r, 1)
    ensures InTurn(jobs, roles, Step(jobs, r, Acquire(i)), order, Some(i))
  {
    hide RunAlone, OneByOne, Sum, Cell;
    if running.Some? {
      SumCovers(r.tasks, Holds, running.value);
    }
    SumAfter(r.tasks, Through, i, Running(FRESH));
  }

  lemma WorkInTurn(jobs: seq<Job>, roles: Roles, r: Round, order: seq<nat>, running: Option<nat>, i: nat)
    requires |r.tasks| == |jobs| && InTurn(jobs, roles, r, order, running) && Enabled(r, Work(i))
    ensures InTurn(jobs, roles, Step(jobs, r, Work(i)), order, running)
  {
    hide RoleStep, OneByOne, Sum, Cell, Put;
    var t := Step(jobs, r, Work(i));
    var own := RoleStep(jobs[i], Own(r.tasks[i].local, Cell(r.roles, jobs[i].key)));
    SumAfter(r.tasks, Through, i, t.tasks[i]);
    forall key ensures Cell(t.roles, key) == if key == jobs[i].key then own.cell else Cell(r.roles, key) {
      PutCell(r.roles, jobs[i].key, own.cell, key);
    }
    assert Own(own.local, own.cell) == own;
  }

  lemma ReleaseInTurn(jobs: seq<Job>, roles: Roles, r: Round, order: seq<nat>, running: Option<nat>, i: nat)
    requires |r.tasks| == |jobs| && InTurn(jobs, roles, r, order, running) && Enabled(r, Release(i))
    ensures InTurn(jobs, roles, Step(jobs, r, Release(i)), order + [i], None)
  {
    hide Sum, Cell, Put, RunAlone;
    var t := Step(jobs, r, Release(i));
    SumAfter(r.tasks, Through, i, Done);
    var base, job := OneByOne(Arrange(jobs, order), roles), jobs[i];
    var end := RunAlone(job, Own(FRESH, Cell(base, job.key)));
    assert (order + [i])[..|order|] == order;
    var list := Arrange(jobs, order + [i]);
    assert list[..|list| - 1] == Arrange(jobs, order);
    assert OneByOne(list, roles) == Put(base, job.key, end);
    FinishedIsThrough(job, r.tasks[i].local, Cell(r.roles, job.key));
    forall key ensures Cell(r.roles, key) == Cell(Put(base, job.key, end), key) {
      PutCell(base, job.key, end, key);
    }
    SameCells(r.roles, Put(base, job.key, end));
  }

  lemma BeginsInTurn(jobs: seq<Job>, roles: Roles, concurrency: nat)
    ensures InTurn(jobs, roles, Begin(jobs, roles, concurrency), [], None)
  {
    SumOfZeros(Begin(jobs, roles, concurrency).tasks, Through);
  }

  lemma {:induction false} RunsInTurn(jobs: seq<Job>, roles: Roles, run: seq<Action>)
    returns (order: seq<nat>, running: Option<nat>)
    requires After(jobs, roles, 1, run).Some?
    ensures InTurn(jobs, roles, After(jobs, roles, 1, run).value, order, running)
  {
    hide InTurn, Step, Enabled;
    if run == [] {
      order, running := [], None;
      BeginsInTurn(jobs, roles, 1);
    } else {
      var r, a := After(jobs, roles, 1, run[..|run| - 1]).value, run[|run| - 1];
      order, running := RunsInTurn(jobs, roles, run[..|run| - 1]);
      RoundKeepsPermits(jobs, roles, 1, run[..|run| - 1]);
      match a
      case Spawn => SpawnInTurn(jobs, roles, r, order, running);
      case Acquire(i) =>
        AcquireInTurn(jobs, roles, r, order, running, i);
        running := Some(i);
      case Work(i) => WorkInTurn(jobs, roles, r, order, running, i);
      case Release(i) =>
        ReleaseInTurn(jobs, roles, r, order, running, i);
        order, running := order + [i], None;
    }
  }

  lemma SpawnInTurn(jobs: seq<Job>, roles: Roles, r: Round, order: seq<nat>, running: Option<nat>)
    requires |r.tasks| == |jobs| && InTurn(jobs, roles, r, order, running) && Enabled(r, Spawn)
    ensures InTurn(jobs, roles, Step(jobs, r, Spawn), order, running)
  {
    hide RunAlone, OneByOne, Sum, Cell;
  }

  /** With one permit the roles run one by one. */
  lemma OnePermitIsSerial(jobs: seq<Job>, roles: Roles, run: seq<Action>)
    requires After(jobs, roles, 1, run).Some? && Joined(After(jobs, roles, 1, run).value)
    ensures IsSerial(jobs, roles, After(jobs, roles, 1, run).value.roles)
  {
    hide OneByOne, Sum, After;
    var order, running := RunsInTurn(jobs, roles, run);
    SumOfOnes(After(jobs, roles, 1, run).value.tasks, Through);
    assert running == None;
    assert IsOrder(order, |jobs|);
  }

  lemma Unpermuted(jobs: seq<Job>)
    ensures var order := seq(|jobs|, k => k);
            IsOrder(order, |jobs|) && Arrange(jobs, order) == jobs
  {
    var order := seq(|jobs|, k => k);
    forall i | 0 <= i < |jobs| ensures i in order {
      assert order[i] == i;
    }
  }

  lemma NobodyJoins(jobs: seq<Job>, roles: Roles, run: seq<Action>)
    requires After(jobs, roles, 0, run).Some?
    ensures jobs != [] ==> !Joined(After(jobs, roles, 0, run).value)
  {
    NobodyRuns(jobs, roles, run);
    assert jobs != [] ==> After(jobs, roles, 0, run).value.tasks[0] == Queued;
  }

  /** With at most one permit, or with keys that differ, every joined round leaves the map of some serial
      order. */
  lemma SafeRoundsAreSerial(jobs: seq<Job>, roles: Roles, concurrency: nat, run: seq<Action>)
    requires concurrency <= 1 || DistinctKeys(jobs)
    requires After(jobs, roles, concurrency, run).Some? && Joined(After(jobs, roles, concurrency, run).value)
    ensures IsSerial(jobs, roles, After(jobs, roles, concurrency, run).value.roles)
  {
    hide After, OneByOne;
    if concurrency == 1 {
      OnePermitIsSerial(jobs, roles, run);
    } else {
      if concurrency == 0 {
        NobodyJoins(jobs, roles, run);
      }
      RoundIsSerialisable(jobs, roles, concurrency, run);
      Unpermuted(jobs);
    }
  }

  // ---------------------------------------------------------------- two tasks on one key

  /** A daily run that appends to its copy, and a session that fails to log in unless it is to run one. */
  function Appending(d: Daily): Daily { d.(content := d.content + [0]) }
  function ClashSession(on: bool): Session { Session(on, on, p => p, Appending, None, p => p, d => false, 0) }

  /** Plans for the keys of which only two do anything: their daily tasks. */
  function Clash(keys: seq<Bytes>, i: nat, j: nat): (jobs: seq<Job>)
    ensures |jobs| == |keys|
    ensures forall k :: 0 <= k < |keys| ==>
              jobs[k] == Job(keys[k], Plan(k == i || k == j, false, false), ClashSession(k == i || k == j))
  {
    seq(|keys|, k requires 0 <= k < |keys| =>
      Job(keys[k], Plan(k == i || k == j, false, false), ClashSession(k == i || k == j)))
  }

  function Appends(job: Job): nat { if job.session.token then 1 else 0 }

  function Content(roles: Roles, key: Bytes): Bytes { Entry(Cell(roles, key)).daily.content }

  ghost predicate FromClash(job: Job, key: Bytes) {
    || job.session == ClashSession(false)
    || (job.key == key && job.plan == Plan(true, false, false) && job.session == ClashSession(true))
  }

  /** Run alone, each of the two appends one. */
  lemma AloneAppends(job: Job, key: Bytes, cell: Option<RoleState>)
    requires FromClash(job, key)
    ensures |Entry(RunAlone(job, Own(FRESH, cell))).daily.content| == |Entry(cell).daily.content| + Appends(job)
    ensures job.session == ClashSession(false) ==> RunAlone(job, Own(FRESH, cell)) == cell
  {
    RunAloneIs(job, cell);
  }

  /** One after another they append one for each, in any order. */
  lemma {:induction false} SerialAppends(jobs: seq<Job>, roles: Roles, key: Bytes)
    requires forall k :: 0 <= k < |jobs| ==> FromClash(jobs[k], key)
    ensures |Content(OneByOne(jobs, roles), key)| == |Content(roles, key)| + Sum(jobs, Appends)
  {
    hide RunAlone, Put, Cell, Entry, ClashSession;
    if jobs != [] {
      var n := |jobs| - 1;
      var before, job := OneByOne(jobs[..n], roles), jobs[n];
      SerialAppends(jobs[..n], roles, key);
      var end := RunAlone(job, Own(FRESH, Cell(before, job.key)));
      AloneAppends(job, key, Cell(before, job.key));
      PutCell(before, job.key, end, key);
      NoTokenNoAppend(job);
    }
  }

  lemma NoTokenNoAppend(job: Job)
    ensures job.session == ClashSession(false) ==> Appends(job) == 0
  {
  }

  lemma OneMore(jobs: seq<Job>, roles: Roles, concurrency: nat, run: seq<Action>, a: Action)
    requires var o := After(jobs, roles, concurrency, run); o.Some? && Enabled(o.value, a)
    ensures After(jobs, roles, concurrency, run + [a])
            == Some(Step(jobs, After(jobs, roles, concurrency, run).value, a))
  {
    assert (run + [a])[..|run|] == run;
  }

  lemma {:induction false} SpawnAll(jobs: seq<Job>, roles: Roles, concurrency: nat, n: nat) returns (run: seq<Action>)
    requires n <= |jobs|
    ensures After(jobs, roles, concurrency, run) == Some(Begin(jobs, roles, concurrency).(spawned := n))
  {
    hide After;
    if n == 0 {
      run := [];
      NothingRun(jobs, roles, concurrency);
    } else {
      run := SpawnAll(jobs, roles, concurrency, n - 1);
      OneMore(jobs, roles, concurrency, run, Spawn);
      run := run + [Spawn];
    }
  }

  lemma NothingRun(jobs: seq<Job>, roles: Roles, concurrency: nat)
    ensures After(jobs, roles, concurrency, []) == Some(Begin(jobs, roles, concurrency))
  {
  }

  /** Everything spawned and task i able to start. */
  predicate CanStart(r: Round, i: nat) { i < |r.tasks| && r.spawned == |r.tasks| && r.free > 0 && r.tasks[i] == Queued }

  /** One of the two runs up to where it has copied its daily state. */
  lemma ReadDailyCopy(jobs: seq<Job>, roles: Roles, concurrency: nat, run: seq<Action>, i: nat)
    returns (more: seq<Action>)
    requires After(jobs, roles, concurrency, run).Some? && CanStart(After(jobs, roles, concurrency, run).value, i)
    requires jobs[i].plan == Plan(true, false, false) && jobs[i].session == ClashSession(true)
    ensures var r, rs := After(jobs, roles, concurrency, run).value,
                         Entry(Cell(After(jobs, roles, concurrency, run).value.roles, jobs[i].key));
            After(jobs, roles, concurrency, more)
            == Some(Round(r.roles[jobs[i].key := rs], r.free - 1,
                          r.tasks[i := Running(Local(WriteDaily, Appending(rs.daily), FRESH.periodic))], r.spawned))
  {
    hide After;
    var r := After(jobs, roles, concurrency, run).value;
    OneMore(jobs, roles, concurrency, run, Acquire(i));
    OneMore(jobs, roles, concurrency, run + [Acquire(i)], Work(i));
    var a := run + [Acquire(i)] + [Work(i)];
    assert After(jobs, roles, concurrency, a).value.roles == r.roles by {
      SameCells(Put(r.roles, jobs[i].key, Cell(r.roles, jobs[i].key)), r.roles);
    }
    OneMore(jobs, roles, concurrency, a, Work(i));
    OneMore(jobs, roles, concurrency, a + [Work(i)], Work(i));
    more := a + [Work(i)] + [Work(i)];
    var t, rs := After(jobs, roles, concurrency, more).value, Entry(Cell(r.roles, jobs[i].key));
    assert t.tasks == r.tasks[i := Running(Local(WriteDaily, Appending(rs.daily), FRESH.periodic))];
    SameCells(t.roles, r.roles[jobs[i].key := rs]);
  }

  /** And from there to its end, writing its copy over what is there. */
  lemma WriteDailyCopy(jobs: seq<Job>, roles: Roles, concurrency: nat, run: seq<Action>, i: nat, d: Daily)
    returns (more: seq<Action>)
    requires var o := After(jobs, roles, concurrency, run);
             o.Some? && i < |jobs| && o.value.tasks[i] == Running(Local(WriteDaily, d, FRESH.periodic))
    requires jobs[i].plan == Plan(true, false, false) && jobs[i].session == ClashSession(true)
    ensures var r := After(jobs, roles, concurrency, run).value;
            After(jobs, roles, concurrency, more)
            == Some(Round(r.roles[jobs[i].key := Entry(Cell(r.roles, jobs[i].key)).(daily := d)], r.free + 1,
                          r.tasks[i := Done], r.spawned))
  {
    hide After;
    OneMore(jobs, roles, concurrency, run, Work(i));
    OneMore(jobs, roles, concurrency, run + [Work(i)], Release(i));
    more := run + [Work(i)] + [Release(i)];
    assert After(jobs, roles, concurrency, more).value.tasks
           == After(jobs, roles, concurrency, run).value.tasks[i := Done];
  }

  /** A task that cannot log in comes and goes. */
  lemma Idle(jobs: seq<Job>, roles: Roles, concurrency: nat, run: seq<Action>, i: nat) returns (more: seq<Action>)
    requires After(jobs, roles, concurrency, run).Some? && CanStart(After(jobs, roles, concurrency, run).value, i)
    requires jobs[i].session == ClashSession(false)
    ensures var r := After(jobs, roles, concurrency, run).value;
            After(jobs, roles, concurrency, more) == Some(r.(tasks := r.tasks[i := Done]))
  {
    hide After;
    var r := After(jobs, roles, concurrency, run).value;
    OneMore(jobs, roles, concurrency, run, Acquire(i));
    OneMore(jobs, roles, concurrency, run + [Acquire(i)], Work(i));
    SameCells(Put(r.roles, jobs[i].key, Cell(r.roles, jobs[i].key)), r.roles);
    OneMore(jobs, roles, concurrency, run + [Acquire(i)] + [Work(i)], Release(i));
    more := run + [Acquire(i)] + [Work(i)] + [Release(i)];
    assert After(jobs, roles, concurrency, more).value.tasks == r.tasks[i := Done];
  }

  lemma {:induction false} IdleAll(jobs: seq<Job>, roles: Roles, concurrency: nat, run: seq<Action>, n: nat)
    returns (more: seq<Action>)
    requires var o := After(jobs, roles, concurrency, run);
             && o.Some? && n <= |jobs| && o.value.spawned == |jobs| && o.value.free > 0
             && (forall k :: 0 <= k < |jobs| ==>
                   o.value.tasks[k] == Done
                   || (k < n && o.value.tasks[k] == Queued && jobs[k].session == ClashSession(false)))
    ensures var r := After(jobs, roles, concurrency, run).value;
            var o := After(jobs, roles, concurrency, more);
            o.Some? && Joined(o.value) && o.value.roles == r.roles
    decreases n
  {
    hide After, ClashSession;
    more := run;
    if n > 0 {
      if After(jobs, roles, concurrency, run).value.tasks[n - 1] == Queued {
        more := Idle(jobs, roles, concurrency, run, n - 1);
      }
      more := IdleAll(jobs, roles, concurrency, more, n - 1);
    }
  }

  /** Two plans on one key and two permits: some sessions and some run from the start lose a daily result.
      Both tasks append to the role's daily content, and only one of the two is there at the end. */
  lemma LosingRun(keys: seq<Bytes>, i: nat, j: nat, concurrency: nat, roles: Roles) returns (run: seq<Action>)
    requires i < j < |keys| && keys[i] == keys[j] && concurrency >= 2
    ensures var o := After(Clash(keys, i, j), roles, concurrency, run);
            && o.Some? && Joined(o.value)
            && Content(o.value.roles, keys[i]) == Content(roles, keys[i]) + [0]
  {
    hide After, ClashSession;
    var jobs, key := Clash(keys, i, j), keys[i];
    var d := Appending(Entry(Cell(roles, key)).daily);
    run := SpawnAll(jobs, roles, concurrency, |jobs|);
    run := ReadDailyCopy(jobs, roles, concurrency, run, i);
    run := ReadDailyCopy(jobs, roles, concurrency, run, j);
    run := WriteDailyCopy(jobs, roles, concurrency, run, i, d);
    run := WriteDailyCopy(jobs, roles, concurrency, run, j, d);
    run := IdleAll(jobs, roles, concurrency, run, |jobs|);
  }

  /** So that run leaves a map that no serial order of the roles leaves. */
  lemma SharedKeyLosesUpdate(keys: seq<Bytes>, i: nat, j: nat, concurrency: nat, roles: Roles)
    returns (run: seq<Action>)
    requires i < j < |keys| && keys[i] == keys[j] && concurrency >= 2
    ensures var o := After(Clash(keys, i, j), roles, concurrency, run);
            o.Some? && Joined(o.value) && !IsSerial(Clash(keys, i, j), roles, o.value.roles)
  {
    hide After, ClashSession, OneByOne, Content;
    var jobs, key := Clash(keys, i, j), keys[i];
    run := LosingRun(keys, i, j, concurrency, roles);
    forall order | IsOrder(order, |jobs|)
      ensures |Content(OneByOne(Arrange(jobs, order), roles), key)| >= |Content(roles, key)| + 2
    {
      var list := Arrange(jobs, order);
      SerialAppends(list, roles, key);
      assert i in order && j in order;
      var p :| 0 <= p < |order| && order[p] == i;
      var q :| 0 <= q < |order| && order[q] == j;
      TokensAppend(jobs, i, j);
      SumCoversTwo(list, Appends, if p < q then p else q, if p < q then q else p);
    }
  }

  lemma TokensAppend(jobs: seq<Job>, i: nat, j: nat)
    requires i < |jobs| && j < |jobs|
    requires jobs[i].session == ClashSession(true) && jobs[j].session == ClashSession(true)
    ensures Appends(jobs[i]) == 1 && Appends(jobs[j]) == 1
  {
  }

  // ---------------------------------------------------------------- the exact condition

  predicate Distinct(keys: seq<Bytes>) { forall i, j :: 0 <= i < j < |keys| ==> keys[i] != keys[j] }

  predicate HaveKeys(jobs: seq<Job>, keys: seq<Bytes>) {
    |jobs| == |keys| && forall k :: 0 <= k < |keys| ==> jobs[k].key == keys[k]
  }

  /** For given role keys and concurrency: whatever the plans, the server and the initial map, every joined
      round leaves the map of some serial order, if and only if there is at most one permit or no key is
      repeated. */
  lemma SerialisableIff(keys: seq<Bytes>, concurrency: nat)
    ensures (forall jobs, roles, run ::
               HaveKeys(jobs, keys) && After(jobs, roles, concurrency, run).Some?
               && Joined(After(jobs, roles, concurrency, run).value)
               ==> IsSerial(jobs, roles, After(jobs, roles, concurrency, run).value.roles))
            <==> concurrency <= 1 || Distinct(keys)
  {
    hide After, IsSerial;
    if concurrency <= 1 || Distinct(keys) {
      forall jobs, roles, run | HaveKeys(jobs, keys) && After(jobs, roles, concurrency, run).Some?
                                && Joined(After(jobs, roles, concurrency, run).value)
        ensures IsSerial(jobs, roles, After(jobs, roles, concurrency, run).value.roles)
      {
        SafeRoundsAreSerial(jobs, roles, concurrency, run);
      }
    } else {
      var i, j :| 0 <= i < j < |keys| && keys[i] == keys[j];
      var run := SharedKeyLosesUpdate(keys, i, j, concurrency, map[]);
      assert HaveKeys(Clash(keys, i, j), keys);
    }
  }
}
