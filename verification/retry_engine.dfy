/**
  The task list and the retry-round loop of `run_cli` in
  `cli/driveplot_fast.py`.

  Every round is a full barrier: all pending tasks are fetched (each with
  its own local retries) and merged before the next round starts. Within a
  round each task writes its own `(instant, model)` cell, so the order in
  which futures complete changes neither the table nor the set of tasks
  left failing; the model merges them in submission order and its contracts
  describe the outcome cell by cell.
 */
module RetryEngine {
  import opened Wrappers
  import opened Fetch

  /** `max_retry_rounds`. */
  const MaxRetryRounds: nat := 3
  /** The `max_retries` default that `run_cli` leaves in place. */
  const AttemptsPerTask: nat := 3
  const FirstRoundWorkers: nat := 30
  const RetryRoundWorkers: nat := 10

  /** The pool size of a round: 30 workers for the first, 10 for each retry round. */
  function Workers(round: nat): nat {
    if round == 1 then FirstRoundWorkers else RetryRoundWorkers
  }

  /** `results`: departure instant to traffic model to minutes. */
  type Table = map<int, map<TrafficModel, real>>

  /** The value stored for a task, if any. */
  function Cell(table: Table, t: Task): Option<real> {
    if t.at in table && t.model in table[t.at] then Some(table[t.at][t.model]) else None
  }

  /** `b` only adds to `a`: no instant disappears and no stored value changes. */
  ghost predicate Extends(a: Table, b: Table) {
    && a.Keys <= b.Keys
    && forall t :: Cell(a, t).Some? ==> Cell(b, t) == Cell(a, t)
  }

  predicate NoDup<T(==)>(s: seq<T>) {
    forall i, j :: 0 <= i < j < |s| ==> s[i] != s[j]
  }

  /** None of the tasks has a stored value yet. */
  predicate Unwritten(table: Table, tasks: seq<Task>) {
    forall t :: t in tasks ==> Cell(table, t).None?
  }

  /** The departure instants the tasks mention. */
  function Instants(tasks: seq<Task>): set<int>
    decreases |tasks|
  {
    if |tasks| == 0 then {} else {tasks[0].at} + Instants(tasks[1..])
  }

  lemma {:induction false} InstantsMembers(tasks: seq<Task>)
    ensures forall x :: x in Instants(tasks) <==> exists t :: t in tasks && t.at == x
    decreases |tasks|
  {
    if |tasks| > 0 {
      InstantsMembers(tasks[1..]);
      assert forall t :: t in tasks <==> t == tasks[0] || t in tasks[1..];
    }
  }

  /** Tasks drawn from a list mention only instants of that list. */
  lemma InstantsSubset(a: seq<Task>, b: seq<Task>)
    requires forall t :: t in a ==> t in b
    ensures Instants(a) <= Instants(b)
    ensures (forall t :: t in b ==> t in a) ==> Instants(a) == Instants(b)
  {
    InstantsMembers(a);
    InstantsMembers(b);
    if forall t :: t in b ==> t in a {
      forall x | x in Instants(b) ensures x in Instants(a) {
        var t :| t in b && t.at == x;
        assert t in a;
      }
    }
  }

  /** The task list: an optimistic and then a pessimistic task for every grid instant. */
  function BuildTasks(grid: seq<int>): (ts: seq<Task>)
    ensures |ts| == 2 * |grid|
    ensures forall i :: 0 <= i < |grid| ==>
      ts[2 * i] == Task(grid[i], Optimistic) && ts[2 * i + 1] == Task(grid[i], Pessimistic)
  {
    if |grid| == 0 then []
    else [Task(grid[0], Optimistic), Task(grid[0], Pessimistic)] + BuildTasks(grid[1..])
  }

  /** A task is in the task list exactly when its instant is a grid instant. */
  lemma {:induction false} BuildTasksMembers(grid: seq<int>)
    ensures forall t :: t in BuildTasks(grid) <==> t.at in grid
    decreases |grid|
  {
    if |grid| > 0 {
      BuildTasksMembers(grid[1..]);
      var ts := BuildTasks(grid);
      assert ts == [Task(grid[0], Optimistic), Task(grid[0], Pessimistic)] + BuildTasks(grid[1..]);
      assert forall x :: x in grid <==> x == grid[0] || x in grid[1..];
      forall t: Task | t.at == grid[0] ensures t in ts {
        if t.model == Optimistic { assert ts[0] == t; } else { assert ts[1] == t; }
      }
    }
  }

  /** On a grid without repeated instants, no task occurs twice in the task list. */
  lemma {:induction false} BuildTasksNoDup(grid: seq<int>)
    requires NoDup(grid)
    ensures NoDup(BuildTasks(grid))
    decreases |grid|
  {
    if |grid| > 0 {
      var rest := BuildTasks(grid[1..]);
      var ts := BuildTasks(grid);
      assert NoDup(grid[1..]);
      BuildTasksNoDup(grid[1..]);
      BuildTasksMembers(grid[1..]);
      assert grid[0] !in grid[1..];
      assert ts == [Task(grid[0], Optimistic), Task(grid[0], Pessimistic)] + rest;
      forall i, j | 0 <= i < j < |ts| ensures ts[i] != ts[j] {
        if j >= 2 {
          assert ts[j] == rest[j - 2];
          if i >= 2 {
            assert ts[i] == rest[i - 2];
          }
        }
      }
    }
  }

  /** The task list holds every (instant, model) pair of the grid, each exactly once. */
  lemma BuildTasksExact(grid: seq<int>)
    requires NoDup(grid)
    ensures NoDup(BuildTasks(grid))
    ensures forall t :: t in BuildTasks(grid) <==> t.at in grid
    ensures Instants(BuildTasks(grid)) == set i | i in grid
  {
    BuildTasksMembers(grid);
    BuildTasksNoDup(grid);
    BuildTasksInstants(grid);
  }

  /** The instants of the task list are those of the grid. */
  lemma BuildTasksInstants(grid: seq<int>)
    ensures Instants(BuildTasks(grid)) == set i | i in grid
  {
    var ts := BuildTasks(grid);
    InstantsMembers(ts);
    forall x | x in grid ensures x in Instants(ts) {
      var k :| 0 <= k < |grid| && grid[k] == x;
      assert ts[2 * k] == Task(x, Optimistic);
    }
    forall x | x in Instants(ts) ensures x in grid {
      var t :| t in ts && t.at == x;
      var j :| 0 <= j < |ts| && ts[j] == t;
      assert ts[j].at == grid[j / 2];
    }
  }

  /**
    The body of the `as_completed` loop for one finished task: the instant
    gets a (possibly empty) row, and a successful value is stored under the
    task's model.
   */
  function Merge(table: Table, task: Task, duration: Option<real>): (r: Table)
    ensures r.Keys == table.Keys + {task.at}
    ensures Cell(r, task) == (if duration.Some? then duration else Cell(table, task))
    ensures forall t :: t != task ==> Cell(r, t) == Cell(table, t)
  {
    var row := if task.at in table then table[task.at] else map[];
    match duration
    case Some(d) => table[task.at := row[task.model := d]]
    case None => table[task.at := row]
  }

  /** What one round leaves behind: the table, the tasks to retry and the cells it wrote. */
  datatype RoundResult = RoundResult(table: Table, failed: seq<Task>, written: seq<Task>)

  /**
    The outcome of every task in every round after its local retries: the
    view of the directions call that the round loop has.
   */
  type Outcomes = (Task, nat) -> Option<real>

  /** The round-level outcomes produced by `fetch_single_eta` with its default three tries. */
  function Retried(o: Oracle): (out: Outcomes)
    ensures forall t, round :: out(t, round) == FetchSingleEta(o, t, round, AttemptsPerTask).duration
  {
    (t: Task, round: nat) => FetchSingleEta(o, t, round, AttemptsPerTask).duration
  }

  /**
    One round over the pending tasks: each is fetched and merged, and the
    ones that failed are queued for the next round. Every task ends up either
    written or queued, never both.
   */
  function RunRound(out: Outcomes, table: Table, pending: seq<Task>, round: nat): (r: RoundResult)
    ensures |r.failed| + |r.written| == |pending|
    decreases |pending|
  {
    if |pending| == 0 then RoundResult(table, [], [])
    else
      var t0 := pending[0];
      var d := out(t0, round);
      var rest := RunRound(out, Merge(table, pending[0], d), pending[1..], round);
      if d.Some? then RoundResult(rest.table, rest.failed, [t0] + rest.written)
      else RoundResult(rest.table, [t0] + rest.failed, rest.written)
  }

  /** A round gives every pending instant a row and drops none. */
  lemma {:induction false} RoundKeys(out: Outcomes, table: Table, pending: seq<Task>, round: nat)
    ensures RunRound(out, table, pending, round).table.Keys == table.Keys + Instants(pending)
    decreases |pending|
  {
    if |pending| > 0 {
      var d := out(pending[0], round);
      RoundKeys(out, Merge(table, pending[0], d), pending[1..], round);
    }
  }

  /** A round queues exactly the tasks whose fetch failed and writes exactly the others. */
  lemma {:induction false} RoundPartition(out: Outcomes, table: Table, pending: seq<Task>, round: nat)
    ensures var r := RunRound(out, table, pending, round);
      && (forall t :: t in r.failed <==> t in pending && out(t, round).None?)
      && (forall t :: t in r.written <==> t in pending && out(t, round).Some?)
    decreases |pending|
  {
    if |pending| > 0 {
      var d := out(pending[0], round);
      RoundPartition(out, Merge(table, pending[0], d), pending[1..], round);
      assert forall t :: t in pending <==> t == pending[0] || t in pending[1..];
    }
  }

  /** Distinct pending tasks give distinct queued tasks and distinct written cells. */
  lemma {:induction false} RoundNoDup(out: Outcomes, table: Table, pending: seq<Task>, round: nat)
    requires NoDup(pending)
    ensures NoDup(RunRound(out, table, pending, round).failed)
    ensures NoDup(RunRound(out, table, pending, round).written)
    decreases |pending|
  {
    if |pending| > 0 {
      var d := out(pending[0], round);
      var rest := RunRound(out, Merge(table, pending[0], d), pending[1..], round);
      RoundNoDup(out, Merge(table, pending[0], d), pending[1..], round);
      RoundPartition(out, Merge(table, pending[0], d), pending[1..], round);
      assert pending[0] !in pending[1..];
      assert pending[0] !in rest.failed && pending[0] !in rest.written;
    }
  }

  /** Cells of tasks that were not pending are left as they were. */
  lemma {:induction false} RoundUntouched(out: Outcomes, table: Table, pending: seq<Task>, round: nat, t: Task)
    requires t !in pending
    ensures Cell(RunRound(out, table, pending, round).table, t) == Cell(table, t)
    decreases |pending|
  {
    if |pending| > 0 {
      var d := out(pending[0], round);
      RoundUntouched(out, Merge(table, pending[0], d), pending[1..], round, t);
    }
  }

  /**
    When the pending tasks are distinct and none has a value yet, each cell
    is written at most once: a round stores a task's value exactly when its
    fetch succeeded, and changes no value already stored.
   */
  lemma {:induction false} RoundWrites(out: Outcomes, table: Table, pending: seq<Task>, round: nat)
    requires NoDup(pending) && Unwritten(table, pending)
    ensures Extends(table, RunRound(out, table, pending, round).table)
    ensures forall t :: t in pending ==> Cell(RunRound(out, table, pending, round).table, t) == out(t, round)
    decreases |pending|
  {
    if |pending| > 0 {
      var t0 := pending[0];
      var d := out(t0, round);
      var m := Merge(table, pending[0], d);
      assert t0 !in pending[1..];
      assert Unwritten(m, pending[1..]);
      RoundWrites(out, m, pending[1..], round);
      RoundUntouched(out, m, pending[1..], round, t0);
    }
  }

  /** The value of the first round in `first..last` whose fetch succeeded, if any. */
  function FirstSuccess(out: Outcomes, t: Task, first: nat, last: nat): Option<real>
    decreases last - first
  {
    if first > last then None
    else
      var d := out(t, first);
      if d.Some? then d else FirstSuccess(out, t, first + 1, last)
  }

  /** Trying one more round changes the outcome only of tasks that failed every round so far. */
  lemma {:induction false} FirstSuccessExtend(out: Outcomes, t: Task, first: nat, last: nat)
    requires first <= last + 1
    ensures FirstSuccess(out, t, first, last + 1) ==
      if FirstSuccess(out, t, first, last).Some? then FirstSuccess(out, t, first, last)
      else out(t, last + 1)
    decreases last + 1 - first
  {
    if first <= last {
      FirstSuccessExtend(out, t, first + 1, last);
    }
  }

  /** One line of the progress report: round, pool size, tasks submitted, tasks still failing. */
  datatype RoundLog = RoundLog(round: nat, workers: nat, submitted: nat, failed: nat)

  /** The engine between rounds: the table, the tasks to retry, the cells written so far and the rounds run. */
  datatype EngineState = EngineState(results: Table, failed: seq<Task>, writes: seq<Task>, log: seq<RoundLog>)

  /** The state after running one more round on `s`. */
  function Step(out: Outcomes, s: EngineState, round: nat): (r: EngineState)
    ensures r.log == s.log + [RoundLog(round + 1, Workers(round + 1), |s.failed|, |r.failed|)]
  {
    var rr := RunRound(out, s.results, s.failed, round + 1);
    EngineState(rr.table, rr.failed, s.writes + rr.written,
                s.log + [RoundLog(round + 1, Workers(round + 1), |s.failed|, |rr.failed|)])
  }

  /**
    `while failed_tasks and retry_round < max_retry_rounds`: run rounds until
    nothing fails or the round budget is spent, logging each round.
   */
  function RetryRounds(out: Outcomes, s: EngineState, round: nat): (r: EngineState)
    requires round <= MaxRetryRounds && |s.log| == round
    ensures round <= |r.log| <= MaxRetryRounds
    ensures |r.log| == round <==> |s.failed| == 0 || round == MaxRetryRounds
    ensures |r.failed| > 0 ==> |r.log| == MaxRetryRounds
    decreases MaxRetryRounds - round
  {
    if |s.failed| == 0 || round >= MaxRetryRounds then s
    else RetryRounds(out, Step(out, s, round), round + 1)
  }

  /**
    The log `r` ends with after the loop started from `s` at `round`: it
    extends the log of `s` by one line per round run, each numbered and
    sized by its round, each over at least one task and over as many tasks
    as the round before left failing, and the last one counting the tasks
    left.
   */
  predicate LoggedFrom(s: EngineState, r: EngineState, round: nat) {
    && round == |s.log| <= |r.log|
    && r.log[..round] == s.log
    && (forall k :: round <= k < |r.log| ==> r.log[k].round == k + 1 && r.log[k].workers == Workers(k + 1))
    && (forall k :: round <= k < |r.log| ==> r.log[k].submitted > 0)
    && (|r.log| > round ==> r.log[round].submitted == |s.failed|)
    && (forall k :: round < k < |r.log| ==> r.log[k].submitted == r.log[k - 1].failed)
    && (|r.log| > round ==> r.log[|r.log| - 1].failed == |r.failed|)
  }

  /** The round log the loop writes, by induction on the rounds left. */
  lemma {:induction false} RetryRoundsLog(out: Outcomes, s: EngineState, round: nat)
    requires round <= MaxRetryRounds && |s.log| == round
    ensures LoggedFrom(s, RetryRounds(out, s, round), round)
    decreases MaxRetryRounds - round
  {
    if |s.failed| > 0 && round < MaxRetryRounds {
      var s' := Step(out, s, round);
      RetryRoundsLog(out, s', round + 1);
      var r := RetryRounds(out, s', round + 1);
      assert RetryRounds(out, s, round) == r;
      LoggedStep(s, s', r, round);
    }
  }

  /** One round of `RetryRoundsLog`: a line put in front of the rest of the log. */
  lemma LoggedStep(s: EngineState, s': EngineState, r: EngineState, round: nat)
    requires |s.log| == round && |s.failed| > 0
    requires s'.log == s.log + [RoundLog(round + 1, Workers(round + 1), |s.failed|, |s'.failed|)]
    requires LoggedFrom(s', r, round + 1)
    requires |r.log| == round + 1 ==> r == s'
    ensures LoggedFrom(s, r, round)
  {
    var line := RoundLog(round + 1, Workers(round + 1), |s.failed|, |s'.failed|);
    assert r.log[..round] == s.log by {
      assert r.log[..round] == r.log[..round + 1][..round];
    }
    assert r.log[round] == line by {
      assert r.log[round] == r.log[..round + 1][round];
    }
  }

  /** The round loop's invariant after `rounds` rounds over the task list `tasks`. */
  ghost predicate Invariant(out: Outcomes, tasks: seq<Task>, s: EngineState, rounds: nat) {
    && NoDup(tasks) && NoDup(s.failed) && NoDup(s.writes)
    && s.results.Keys == (if rounds == 0 then {} else Instants(tasks))
    && (forall t :: t in s.failed <==> t in tasks && FirstSuccess(out, t, 1, rounds).None?)
    && (forall t :: t in tasks ==> Cell(s.results, t) == FirstSuccess(out, t, 1, rounds))
    && (forall t :: t !in tasks ==> Cell(s.results, t).None?)
    && (forall t :: t in s.writes <==> Cell(s.results, t).Some?)
  }

  /** Before the first round every task is pending and the table is empty. */
  lemma InitialInvariant(out: Outcomes, tasks: seq<Task>)
    requires NoDup(tasks)
    ensures Invariant(out, tasks, EngineState(map[], tasks, [], []), 0)
  {
  }

  /** The first success over one more round: the earlier one if any, else this round's outcome. */
  lemma FirstSuccessStep(out: Outcomes, round: nat)
    ensures forall t: Task :: FirstSuccess(out, t, 1, round + 1) ==
                              (if FirstSuccess(out, t, 1, round).Some? then FirstSuccess(out, t, 1, round) else out(t, round + 1))
  {
    forall t: Task ensures FirstSuccess(out, t, 1, round + 1) ==
      (if FirstSuccess(out, t, 1, round).Some? then FirstSuccess(out, t, 1, round) else out(t, round + 1)) {
      FirstSuccessExtend(out, t, 1, round);
    }
  }

  /** After a round, the queued tasks are those that failed every round so far. */
  lemma StepFailed(out: Outcomes, tasks: seq<Task>, s: EngineState, round: nat)
    requires NoDup(s.failed)
    requires forall t :: t in s.failed <==> t in tasks && FirstSuccess(out, t, 1, round).None?
    ensures var rr := RunRound(out, s.results, s.failed, round + 1);
      && NoDup(rr.failed) && NoDup(rr.written)
      && (forall t :: t in rr.failed <==> t in tasks && FirstSuccess(out, t, 1, round + 1).None?)
      && (forall t :: t in rr.written <==> t in tasks && FirstSuccess(out, t, 1, round).None? && FirstSuccess(out, t, 1, round + 1).Some?)
  {
    RoundPartition(out, s.results, s.failed, round + 1);
    RoundNoDup(out, s.results, s.failed, round + 1);
    FirstSuccessStep(out, round);
  }

  /** After a round, every task's cell holds its first success so far, and other cells stay empty. */
  lemma StepCells(out: Outcomes, tasks: seq<Task>, s: EngineState, round: nat)
    requires NoDup(s.failed)
    requires forall t :: t in s.failed <==> t in tasks && FirstSuccess(out, t, 1, round).None?
    requires forall t :: t in tasks ==> Cell(s.results, t) == FirstSuccess(out, t, 1, round)
    requires forall t :: t !in tasks ==> Cell(s.results, t).None?
    ensures var rr := RunRound(out, s.results, s.failed, round + 1);
      && Extends(s.results, rr.table)
      && (forall t :: t in tasks ==> Cell(rr.table, t) == FirstSuccess(out, t, 1, round + 1))
      && (forall t :: t !in tasks ==> Cell(rr.table, t).None?)
  {
    var rr := RunRound(out, s.results, s.failed, round + 1);
    assert Unwritten(s.results, s.failed);
    RoundWrites(out, s.results, s.failed, round + 1);
    forall t: Task | t !in s.failed ensures Cell(rr.table, t) == Cell(s.results, t) {
      RoundUntouched(out, s.results, s.failed, round + 1, t);
    }
    FirstSuccessStep(out, round);
  }

  /** After a round, the instants of the table are those of the whole task list. */
  lemma StepKeys(out: Outcomes, tasks: seq<Task>, s: EngineState, round: nat)
    requires s.results.Keys == (if round == 0 then {} else Instants(tasks))
    requires forall t :: t in s.failed <==> t in tasks && FirstSuccess(out, t, 1, round).None?
    ensures RunRound(out, s.results, s.failed, round + 1).table.Keys == Instants(tasks)
  {
    RoundKeys(out, s.results, s.failed, round + 1);
    InstantsSubset(s.failed, tasks);
  }

  /** After a round, the cells written so far are exactly the cells holding a value, each listed once. */
  lemma StepWrites(out: Outcomes, s: EngineState, round: nat)
    requires NoDup(s.failed) && NoDup(s.writes) && Unwritten(s.results, s.failed)
    requires forall t :: t in s.writes <==> Cell(s.results, t).Some?
    ensures var rr := RunRound(out, s.results, s.failed, round + 1);
      && NoDup(s.writes + rr.written)
      && forall t :: t in s.writes + rr.written <==> Cell(rr.table, t).Some?
  {
    var rr := RunRound(out, s.results, s.failed, round + 1);
    RoundPartition(out, s.results, s.failed, round + 1);
    RoundNoDup(out, s.results, s.failed, round + 1);
    RoundWrites(out, s.results, s.failed, round + 1);
    forall t: Task | t !in s.failed ensures Cell(rr.table, t) == Cell(s.results, t) {
      RoundUntouched(out, s.results, s.failed, round + 1, t);
    }
    var w := s.writes + rr.written;
    forall i, j | 0 <= i < j < |w| ensures w[i] != w[j] {
      if i < |s.writes| <= j {
        assert w[i] in s.writes && w[j] in rr.written;
      }
    }
    assert forall t :: t in w <==> t in s.writes || t in rr.written;
  }

  /** A round keeps the invariant, one round further on, and only adds to the table. */
  lemma StepPreservesInvariant(out: Outcomes, tasks: seq<Task>, s: EngineState, round: nat)
    requires Invariant(out, tasks, s, round)
    requires |s.failed| > 0
    ensures Invariant(out, tasks, Step(out, s, round), round + 1)
    ensures Extends(s.results, Step(out, s, round).results)
  {
    var rr := RunRound(out, s.results, s.failed, round + 1);
    var s' := Step(out, s, round);
    assert s'.results == rr.table && s'.failed == rr.failed && s'.writes == s.writes + rr.written;
    assert Unwritten(s.results, s.failed);
    StepFailed(out, tasks, s, round);
    StepCells(out, tasks, s, round);
    StepKeys(out, tasks, s, round);
    StepWrites(out, s, round);
    InvariantFrom(out, tasks, s', round + 1);
  }

  /** The invariant from its parts, as the step lemmas deliver them. */
  lemma InvariantFrom(out: Outcomes, tasks: seq<Task>, s: EngineState, rounds: nat)
    requires rounds > 0
    requires NoDup(tasks) && NoDup(s.failed) && NoDup(s.writes)
    requires s.results.Keys == Instants(tasks)
    requires forall t :: t in s.failed <==> t in tasks && FirstSuccess(out, t, 1, rounds).None?
    requires forall t :: t in tasks ==> Cell(s.results, t) == FirstSuccess(out, t, 1, rounds)
    requires forall t :: t !in tasks ==> Cell(s.results, t).None?
    requires forall t :: t in s.writes <==> Cell(s.results, t).Some?
    ensures Invariant(out, tasks, s, rounds)
  {
  }

  /** The loop keeps the invariant to its end, and the table only grows. */
  lemma {:induction false} RetryRoundsInvariant(out: Outcomes, tasks: seq<Task>, s: EngineState, round: nat)
    requires round <= MaxRetryRounds && |s.log| == round
    requires Invariant(out, tasks, s, round)
    ensures Invariant(out, tasks, RetryRounds(out, s, round), |RetryRounds(out, s, round).log|)
    ensures Extends(s.results, RetryRounds(out, s, round).results)
    decreases MaxRetryRounds - round, 1
  {
    if |s.failed| > 0 && round < MaxRetryRounds {
      RetryRoundsInvariantStep(out, tasks, s, round);
    }
  }

  /** The inductive step of `RetryRoundsInvariant`: one round, then the rest of the loop. */
  lemma {:induction false} RetryRoundsInvariantStep(out: Outcomes, tasks: seq<Task>, s: EngineState, round: nat)
    requires round < MaxRetryRounds && |s.log| == round && |s.failed| > 0
    requires Invariant(out, tasks, s, round)
    ensures Invariant(out, tasks, RetryRounds(out, s, round), |RetryRounds(out, s, round).log|)
    ensures Extends(s.results, RetryRounds(out, s, round).results)
    decreases MaxRetryRounds - round, 0
  {
    var s' := Step(out, s, round);
    StepPreservesInvariant(out, tasks, s, round);
    RetryRoundsInvariant(out, tasks, s', round + 1);
    var r := RetryRounds(out, s', round + 1);
    assert RetryRounds(out, s, round) == r;
    ExtendsTransitive(s.results, s'.results, r.results);
  }

  lemma ExtendsTransitive(a: Table, b: Table, c: Table)
    requires Extends(a, b) && Extends(b, c)
    ensures Extends(a, c)
  {
  }

  /**
    The whole retry engine on a task list: at most three rounds, the first
    over every task with 30 workers and each later one over exactly the
    tasks that failed the round before with 10 workers. On a list without
    repeats, a task ends with a value exactly when some round's fetch
    succeeded, the value is that of the first such round, the tasks left
    failing are exactly those whose fetch failed in every round run, and
    every stored cell was written once.
   */
  function RunEngine(o: Oracle, tasks: seq<Task>): (r: EngineState)
    ensures RoundsLogged(tasks, r)
    ensures NoDup(tasks) ==> Resolved(Retried(o), tasks, r)
  {
    EngineLogged(Retried(o), tasks);
    EngineInvariant(o, tasks);
    RetryRounds(Retried(o), EngineState(map[], tasks, [], []), 0)
  }

  /**
    The round log of a finished engine run over `tasks`: at most three
    rounds, none exactly when there is no task, each over at least one task,
    the first over every task with 30 workers, each later one with 10
    workers over as many tasks as the round before left failing, and the
    last one's failures are the tasks left.
   */
  predicate RoundsLogged(tasks: seq<Task>, r: EngineState) {
    && |r.log| <= MaxRetryRounds
    && (|tasks| == 0 <==> |r.log| == 0)
    && (|r.log| > 0 ==> r.log[0].round == 1 && r.log[0].workers == FirstRoundWorkers && r.log[0].submitted == |tasks|)
    && (forall k :: 0 < k < |r.log| ==> r.log[k].round == k + 1 && r.log[k].workers == RetryRoundWorkers)
    && (forall k :: 0 <= k < |r.log| ==> r.log[k].submitted > 0)
    && (forall k :: 0 < k < |r.log| ==> r.log[k].submitted == r.log[k - 1].failed)
    && (|r.failed| > 0 ==> |r.log| == MaxRetryRounds)
    && (|r.log| > 0 ==> r.log[|r.log| - 1].failed == |r.failed|)
  }

  /**
    The outcome of a finished engine run over `tasks` (without repeats): the
    table has a row for every instant of the list, a task's cell holds the
    value of its first successful round among those run and no other cell
    is filled, the tasks left failing are exactly those that failed every
    round, and every stored cell was written once.
   */
  ghost predicate Resolved(out: Outcomes, tasks: seq<Task>, r: EngineState) {
    && r.results.Keys == Instants(tasks)
    && NoDup(r.failed) && NoDup(r.writes)
    && (forall t :: t in r.failed <==> t in tasks && FirstSuccess(out, t, 1, |r.log|).None?)
    && (forall t :: t in tasks ==> Cell(r.results, t) == FirstSuccess(out, t, 1, |r.log|))
    && (forall t :: t !in tasks ==> Cell(r.results, t).None?)
    && (forall t :: t in r.writes <==> Cell(r.results, t).Some?)
  }

  /** The round log of the whole loop: its length and its first round. */
  lemma EngineLogStart(out: Outcomes, tasks: seq<Task>)
    ensures var r := RetryRounds(out, EngineState(map[], tasks, [], []), 0);
      && |r.log| <= MaxRetryRounds
      && (|tasks| == 0 <==> |r.log| == 0)
      && (|r.log| > 0 ==> r.log[0].round == 1 && r.log[0].workers == FirstRoundWorkers && r.log[0].submitted == |tasks|)
      && (|r.failed| > 0 ==> |r.log| == MaxRetryRounds)
  {
    RetryRoundsLog(out, EngineState(map[], tasks, [], []), 0);
  }

  /** The round log of the whole loop: the retry rounds and the last round's failures. */
  lemma EngineLogRounds(out: Outcomes, tasks: seq<Task>)
    ensures var r := RetryRounds(out, EngineState(map[], tasks, [], []), 0);
      && (forall k :: 0 < k < |r.log| ==> r.log[k].round == k + 1 && r.log[k].workers == RetryRoundWorkers)
      && (forall k :: 0 <= k < |r.log| ==> r.log[k].submitted > 0)
      && (forall k :: 0 < k < |r.log| ==> r.log[k].submitted == r.log[k - 1].failed)
      && (|r.log| > 0 ==> r.log[|r.log| - 1].failed == |r.failed|)
  {
    RetryRoundsLog(out, EngineState(map[], tasks, [], []), 0);
  }

  /** The round log of the whole loop, as `RoundsLogged` states it. */
  lemma EngineLogged(out: Outcomes, tasks: seq<Task>)
    ensures RoundsLogged(tasks, RetryRounds(out, EngineState(map[], tasks, [], []), 0))
  {
    EngineLogStart(out, tasks);
    EngineLogRounds(out, tasks);
  }

  /** What the invariant says once the loop has ended. */
  lemma EngineInvariant(o: Oracle, tasks: seq<Task>)
    ensures NoDup(tasks) ==> Resolved(Retried(o), tasks, RetryRounds(Retried(o), EngineState(map[], tasks, [], []), 0))
  {
    var out := Retried(o);
    var s := EngineState(map[], tasks, [], []);
    if NoDup(tasks) {
      InitialInvariant(out, tasks);
      RetryRoundsInvariant(out, tasks, s, 0);
      var r := RetryRounds(out, s, 0);
      if |r.log| == 0 {
        assert |tasks| == 0;
        assert Instants(tasks) == {};
      }
    }
  }
}
