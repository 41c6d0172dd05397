/**
  `run_cli` of `cli/driveplot_fast.py` from the time grid on: the task list,
  the retry rounds, the assembly with its early exit, the best and worst
  indices and the text plot.
 */
module DrivePlot {
  import opened Wrappers
  import Utils
  import opened Fetch
  import opened RetryEngine
  import opened Assembly
  import TextPlot

  /** What stops `run_cli` with an exception: a bad window or a flat plot. */
  datatype CliError =
    | BadWindow(reason: Utils.GridError)
    | PlotFailed(cause: TextPlot.PlotError)

  /** `min_idx` and `max_idx`. */
  datatype Picks = Picks(best: nat, worst: nat)

  /**
    A run that returned: its status code, the grid, the engine's final
    state, the assembled series, the picks and the text plot lines (both
    only when the ASCII output was asked for and some point survived).
   */
  datatype CliRun = CliRun(code: int, grid: seq<int>, engine: EngineState, assembled: Assembled, picks: Option<Picks>, plot: seq<string>)

  function TimesOf(series: seq<Point>): (ts: seq<int>)
    ensures |ts| == |series| && forall i :: 0 <= i < |series| ==> ts[i] == series[i].at
  {
    seq(|series|, i requires 0 <= i < |series| => series[i].at)
  }

  function OptimisticOf(series: seq<Point>): (vs: seq<real>)
    ensures |vs| == |series| && forall i :: 0 <= i < |series| ==> vs[i] == series[i].optimistic
  {
    seq(|series|, i requires 0 <= i < |series| => series[i].optimistic)
  }

  function PessimisticOf(series: seq<Point>): (vs: seq<real>)
    ensures |vs| == |series| && forall i :: 0 <= i < |series| ==> vs[i] == series[i].pessimistic
  {
    seq(|series|, i requires 0 <= i < |series| => series[i].pessimistic)
  }

  /** A strictly increasing list has no repeats. */
  lemma IncreasingNoDup(s: seq<int>)
    requires Utils.StrictlyIncreasing(s)
    ensures NoDup(s)
  {
  }

  /** The engine run on a valid grid: its table holds exactly the grid's instants. */
  lemma GridEngine(o: Oracle, grid: seq<int>)
    requires Utils.StrictlyIncreasing(grid)
    ensures NoDup(BuildTasks(grid))
    ensures RunEngine(o, BuildTasks(grid)).results.Keys == set i | i in grid
  {
    IncreasingNoDup(grid);
    BuildTasksExact(grid);
  }

  /** Every point assembled from a grid run is at one of the grid's instants. */
  lemma SeriesOnGrid(o: Oracle, grid: seq<int>)
    requires Utils.StrictlyIncreasing(grid)
    ensures forall p :: p in Assemble(RunEngine(o, BuildTasks(grid)).results).series ==> p.at in grid
  {
    GridEngine(o, grid);
  }

  /** So every point of a grid run is an instant of the day. */
  lemma SeriesWithinDay(o: Oracle, grid: seq<int>, series: seq<Point>)
    requires Utils.StrictlyIncreasing(grid) && Utils.WithinDay(grid)
    requires series == Assemble(RunEngine(o, BuildTasks(grid)).results).series
    ensures Utils.WithinDay(TimesOf(series))
  {
    SeriesOnGrid(o, grid);
    forall i | 0 <= i < |series| ensures 0 <= series[i].at < Utils.MinutesPerDay {
      assert series[i] in series;
      var j :| 0 <= j < |grid| && grid[j] == series[i].at;
    }
    TimesWithinDay(series);
  }

  /** The instants of points of the day are instants of the day. */
  lemma TimesWithinDay(series: seq<Point>)
    requires forall i :: 0 <= i < |series| ==> 0 <= series[i].at < Utils.MinutesPerDay
    ensures Utils.WithinDay(TimesOf(series))
  {
  }

  /** The plot stage, reached when some point survived and the ASCII output is on. */
  function PlotStage(series: seq<Point>, interval: int): (r: Result<(Picks, seq<string>), TextPlot.PlotError>)
    requires |series| > 0 && interval > 0
    requires Utils.WithinDay(TimesOf(series))
    ensures r.Ok? ==>
      var avg := Averages(series);
      var best := r.value.0.best;
      var worst := r.value.0.worst;
      && best < |avg| && worst < |avg|
      && (forall k :: 0 <= k < |avg| ==> avg[best] <= avg[k] <= avg[worst])
      && (forall k :: 0 <= k < best ==> avg[best] < avg[k])
      && (forall k :: 0 <= k < worst ==> avg[k] < avg[worst])
    ensures r.Err? <==> TextPlot.Low(OptimisticOf(series), PessimisticOf(series)) == TextPlot.High(OptimisticOf(series), PessimisticOf(series))
  {
    var avg := Averages(series);
    var picks := Picks(FirstMinIndex(avg), FirstMaxIndex(avg));
    var opt := OptimisticOf(series);
    var pes := PessimisticOf(series);
    match TextPlot.Render(TimesOf(series), opt, pes, picks.best, picks.worst, interval)
    case Err(e) => Err(e)
    case Ok(lines) => Ok((picks, lines))
  }

  /** The end of an ASCII run in which some point survived: the picks and the text plot. */
  function Finish(grid: seq<int>, engine: EngineState, a: Assembled, interval: int): (r: Result<CliRun, CliError>)
    requires |a.series| > 0 && interval > 0
    requires Utils.WithinDay(TimesOf(a.series))
    ensures r.Err? ==> r.error.PlotFailed?
    ensures r.Ok? ==> r.value.grid == grid && r.value.engine == engine && r.value.assembled == a
    ensures r.Ok? ==> r.value.code == 0 && r.value.picks.Some?
  {
    match PlotStage(a.series, interval)
    case Err(e) => Err(PlotFailed(e))
    case Ok(res) => Ok(CliRun(0, grid, engine, a, Some(res.0), res.1))
  }

  /**
    What `run_cli` does once the table is assembled: the early exit with
    status 1 when no point survived, the plain return without the ASCII
    output, or the picks and the plot.
   */
  function Conclude(grid: seq<int>, engine: EngineState, a: Assembled, ascii: bool, interval: int): (r: Result<CliRun, CliError>)
    requires Utils.WithinDay(TimesOf(a.series)) && interval > 0
    ensures r.Err? ==> r.error.PlotFailed? && ascii
    ensures r.Ok? ==> r.value.grid == grid && r.value.engine == engine && r.value.assembled == a
    ensures r.Ok? ==> (r.value.code == 1 <==> |a.series| == 0)
    ensures r.Ok? ==> (r.value.code == 0 || r.value.code == 1)
    ensures r.Ok? ==> (r.value.picks.Some? <==> ascii && r.value.code == 0)
  {
    var code := ExitStatus(a);
    if code == 1 || !ascii then Ok(CliRun(code, grid, engine, a, None, []))
    else Finish(grid, engine, a, interval)
  }

  /** The part of `run_cli` after a grid was built. */
  function RunOnGrid(grid: seq<int>, o: Oracle, ascii: bool, interval: int): (r: Result<CliRun, CliError>)
    requires Utils.StrictlyIncreasing(grid) && Utils.WithinDay(grid) && interval > 0
    ensures r.Err? ==> r.error.PlotFailed? && ascii
    ensures r.Ok? ==> r.value.grid == grid
    ensures r.Ok? ==> r.value.engine == RunEngine(o, BuildTasks(grid))
    ensures r.Ok? ==> r.value.assembled == Assemble(r.value.engine.results)
    ensures r.Ok? ==> (r.value.code == 1 <==> |r.value.assembled.series| == 0)
    ensures r.Ok? ==> (r.value.code == 0 || r.value.code == 1)
    ensures r.Ok? ==> (r.value.picks.Some? <==> ascii && r.value.code == 0)
  {
    var engine := RunEngine(o, BuildTasks(grid));
    var a := Assemble(engine.results);
    SeriesWithinDay(o, grid, a.series);
    Conclude(grid, engine, a, ascii, interval)
  }

  /** `run_cli` from `minute_grid` on, for the window `sh:sm`..`eh:em` every `interval` minutes. */
  function RunCli(sh: int, sm: int, eh: int, em: int, interval: int, o: Oracle, ascii: bool): (r: Result<CliRun, CliError>)
    requires interval > 0 || Utils.Window(sh, sm, eh, em).Err?
    ensures r.Err? && r.error.BadWindow? <==> Utils.MinuteGrid(sh, sm, eh, em, interval).Err?
    ensures Utils.MinuteGrid(sh, sm, eh, em, interval).Err? ==> r == Err(BadWindow(Utils.MinuteGrid(sh, sm, eh, em, interval).error))
    ensures r.Err? && r.error.PlotFailed? ==> ascii
    ensures r.Ok? ==> r.value.grid == Utils.MinuteGrid(sh, sm, eh, em, interval).value
    ensures r.Ok? ==> r.value.engine == RunEngine(o, BuildTasks(r.value.grid))
    ensures r.Ok? ==> r.value.assembled == Assemble(r.value.engine.results)
    ensures r.Ok? ==> (r.value.code == 1 <==> |r.value.assembled.series| == 0)
    ensures r.Ok? ==> (r.value.picks.Some? <==> ascii && r.value.code == 0)
  {
    match Utils.MinuteGrid(sh, sm, eh, em, interval)
    case Err(e) => Err(BadWindow(e))
    case Ok(grid) =>
      Utils.MinuteGridShape(sh, sm, eh, em, interval);
      RunOnGrid(grid, o, ascii, interval)
  }


  // ----- what a run promises -----

  /** A round in which all three attempts fail stores nothing for the task. */
  lemma RetriedNone(o: Oracle, t: Task, round: nat)
    requires forall attempt :: 0 <= attempt < AttemptsPerTask ==> o(t, round, attempt).None?
    ensures Retried(o)(t, round).None?
  {
    assert Retried(o)(t, round) == FetchSingleEta(o, t, round, AttemptsPerTask).duration;
  }

  /** A round range in which every fetch failed yields no first success. */
  lemma {:induction false} FirstSuccessNone(out: Outcomes, t: Task, first: nat, last: nat)
    requires forall round :: first <= round <= last ==> out(t, round).None?
    ensures FirstSuccess(out, t, first, last).None?
    decreases last - first
  {
    if first <= last {
      FirstSuccessNone(out, t, first + 1, last);
    }
  }

  /** A task that fails in every round stays failed and never gets a cell. */
  lemma EngineExhausted(o: Oracle, tasks: seq<Task>, t: Task)
    requires NoDup(tasks) && t in tasks
    requires forall round :: 1 <= round <= MaxRetryRounds ==> Retried(o)(t, round).None?
    ensures t in RunEngine(o, tasks).failed
    ensures Cell(RunEngine(o, tasks).results, t).None?
  {
    var e := RunEngine(o, tasks);
    FirstSuccessNone(Retried(o), t, 1, |e.log|);
  }

  /** An instant with a missing cell contributes no point. */
  lemma AssembleMissing(table: Table, t: Task)
    requires Cell(table, t).None?
    ensures forall p :: p in Assemble(table).series ==> p.at != t.at
  {
    assert !Complete(table, t.at) by {
      match t.model
      case Optimistic => assert t.at !in table || Optimistic !in table[t.at];
      case Pessimistic =>
    }
    forall p | p in Assemble(table).series ensures p.at != t.at {
      assert Agrees(table, p);
    }
  }

  /**
    A task whose every attempt in every one of the three rounds fails ends
    among the failed tasks, and its instant is not a point of the series.
   */
  lemma Exhausted(o: Oracle, grid: seq<int>, t: Task)
    requires Utils.StrictlyIncreasing(grid) && t.at in grid
    requires forall round, attempt :: 1 <= round <= MaxRetryRounds && 0 <= attempt < AttemptsPerTask ==> o(t, round, attempt).None?
    ensures t in RunEngine(o, BuildTasks(grid)).failed
    ensures forall p :: p in Assemble(RunEngine(o, BuildTasks(grid)).results).series ==> p.at != t.at
  {
    var tasks := BuildTasks(grid);
    GridEngine(o, grid);
    BuildTasksMembers(grid);
    forall round | 1 <= round <= MaxRetryRounds ensures Retried(o)(t, round).None? {
      RetriedNone(o, t, round);
    }
    EngineExhausted(o, tasks, t);
    AssembleMissing(RunEngine(o, tasks).results, t);
  }

  /** Every instant of a grid has both tasks in the task list. */
  lemma GridTasks(grid: seq<int>, k: nat)
    requires k < |grid|
    ensures Task(grid[k], Optimistic) in BuildTasks(grid)
    ensures Task(grid[k], Pessimistic) in BuildTasks(grid)
  {
    var ts := BuildTasks(grid);
    assert ts[2 * k] == Task(grid[k], Optimistic);
    assert ts[2 * k + 1] == Task(grid[k], Pessimistic);
  }

  /** With nothing left failing, every task's cell is its first success. */
  lemma EngineSettled(o: Oracle, tasks: seq<Task>, t: Task)
    requires NoDup(tasks) && t in tasks
    requires |RunEngine(o, tasks).failed| == 0
    ensures Cell(RunEngine(o, tasks).results, t) == FirstSuccess(Retried(o), t, 1, |RunEngine(o, tasks).log|)
    ensures Cell(RunEngine(o, tasks).results, t).Some?
  {
    assert t !in RunEngine(o, tasks).failed;
  }

  /** An instant with both cells stored is a point carrying them. */
  lemma AssemblePresent(table: Table, at: int)
    requires Cell(table, Task(at, Optimistic)).Some? && Cell(table, Task(at, Pessimistic)).Some?
    ensures exists p :: (p in Assemble(table).series && p.at == at
      && Some(p.optimistic) == Cell(table, Task(at, Optimistic))
      && Some(p.pessimistic) == Cell(table, Task(at, Pessimistic)))
  {
    var a := Assemble(table);
    assert Complete(table, at);
    var p :| p in a.series && p.at == at;
    assert Agrees(table, p);
    assert Some(p.optimistic) == Cell(table, Task(at, Optimistic));
  }

  /** The point at `at` exists and carries the first success of each model within `rounds` rounds. */
  ghost predicate Settled(o: Oracle, series: seq<Point>, at: int, rounds: nat) {
    exists p :: p in series && p.at == at
      && Some(p.optimistic) == FirstSuccess(Retried(o), Task(at, Optimistic), 1, rounds)
      && Some(p.pessimistic) == FirstSuccess(Retried(o), Task(at, Pessimistic), 1, rounds)
  }

  /** With nothing left failing, grid instant `k` is settled. */
  lemma NoFailuresOnGrid(o: Oracle, grid: seq<int>, engine: EngineState, series: seq<Point>, k: nat)
    requires Utils.StrictlyIncreasing(grid) && k < |grid|
    requires engine == RunEngine(o, BuildTasks(grid)) && |engine.failed| == 0
    requires series == Assemble(engine.results).series
    ensures exists p :: (p in series && p.at == grid[k]
      && Some(p.optimistic) == FirstSuccess(Retried(o), Task(grid[k], Optimistic), 1, |engine.log|)
      && Some(p.pessimistic) == FirstSuccess(Retried(o), Task(grid[k], Pessimistic), 1, |engine.log|))
  {
    var tasks := BuildTasks(grid);
    GridEngine(o, grid);
    GridTasks(grid, k);
    EngineSettled(o, tasks, Task(grid[k], Optimistic));
    EngineSettled(o, tasks, Task(grid[k], Pessimistic));
    AssemblePresent(engine.results, grid[k]);
  }

  /** With nothing left failing, every grid instant is settled. */
  lemma NoFailuresAll(o: Oracle, grid: seq<int>, engine: EngineState, series: seq<Point>)
    requires Utils.StrictlyIncreasing(grid)
    requires engine == RunEngine(o, BuildTasks(grid)) && |engine.failed| == 0
    requires series == Assemble(engine.results).series
    ensures forall k :: 0 <= k < |grid| ==> Settled(o, series, grid[k], |engine.log|)
  {
    forall k | 0 <= k < |grid| ensures Settled(o, series, grid[k], |engine.log|) {
      NoFailuresOnGrid(o, grid, engine, series, k);
    }
  }

  /** What a returned run is made of: a nonempty increasing grid, the engine run on it and its assembly. */
  lemma CliShape(sh: int, sm: int, eh: int, em: int, interval: int, o: Oracle, ascii: bool)
    requires interval > 0
    requires RunCli(sh, sm, eh, em, interval, o, ascii).Ok?
    ensures var run := RunCli(sh, sm, eh, em, interval, o, ascii).value;
      && |run.grid| >= 1 && Utils.StrictlyIncreasing(run.grid)
      && run.engine == RunEngine(o, BuildTasks(run.grid))
      && run.assembled == Assemble(run.engine.results)
  {
    Utils.MinuteGridShape(sh, sm, eh, em, interval);
  }

  /**
    A run that ends with no task failing exits with status 0, and every grid
    instant made it into the series with the values of the first successful
    rounds.
   */
  lemma CliNoFailures(sh: int, sm: int, eh: int, em: int, interval: int, o: Oracle, ascii: bool)
    requires interval > 0
    requires RunCli(sh, sm, eh, em, interval, o, ascii).Ok?
    requires |RunCli(sh, sm, eh, em, interval, o, ascii).value.engine.failed| == 0
    ensures var run := RunCli(sh, sm, eh, em, interval, o, ascii).value;
      && run.code == 0
      && forall k :: 0 <= k < |run.grid| ==> Settled(o, run.assembled.series, run.grid[k], |run.engine.log|)
  {
    var run := RunCli(sh, sm, eh, em, interval, o, ascii).value;
    CliShape(sh, sm, eh, em, interval, o, ascii);
    NoFailuresAll(o, run.grid, run.engine, run.assembled.series);
    assert Settled(o, run.assembled.series, run.grid[0], |run.engine.log|);
  }

  /**
    At the level of `run_cli`: a task of the grid that no attempt of any round
    answers is reported failed and has no point.
   */
  lemma CliExhausted(sh: int, sm: int, eh: int, em: int, interval: int, o: Oracle, ascii: bool, t: Task)
    requires interval > 0
    requires RunCli(sh, sm, eh, em, interval, o, ascii).Ok?
    requires t.at in RunCli(sh, sm, eh, em, interval, o, ascii).value.grid
    requires forall round, attempt :: 1 <= round <= MaxRetryRounds && 0 <= attempt < AttemptsPerTask ==> o(t, round, attempt).None?
    ensures var run := RunCli(sh, sm, eh, em, interval, o, ascii).value;
      && t in run.engine.failed
      && forall p :: p in run.assembled.series ==> p.at != t.at
  {
    var run := RunCli(sh, sm, eh, em, interval, o, ascii).value;
    CliShape(sh, sm, eh, em, interval, o, ascii);
    Exhausted(o, run.grid, t);
  }

  /** No point survives exactly when no instant of the table is complete. */
  lemma AssembleEmpty(table: Table)
    ensures |Assemble(table).series| == 0 <==> forall k :: k in table ==> !Complete(table, k)
  {
    var a := Assemble(table);
    if |a.series| > 0 {
      assert Agrees(table, a.series[0]);
    }
    if k :| k in table && Complete(table, k) {
      var p :| p in a.series && p.at == k;
    }
  }

  /** The series of a grid run is empty exactly when no grid instant is complete. */
  lemma ExitCodeOnGrid(o: Oracle, grid: seq<int>, engine: EngineState, a: Assembled)
    requires Utils.StrictlyIncreasing(grid)
    requires engine == RunEngine(o, BuildTasks(grid))
    requires a == Assemble(engine.results)
    ensures |a.series| == 0 <==> forall k :: 0 <= k < |grid| ==> !Complete(engine.results, grid[k])
  {
    GridEngine(o, grid);
    EmptyOnKeys(engine.results, grid);
  }

  /** `AssembleEmpty` with the table's keys listed by a sequence. */
  lemma EmptyOnKeys(table: Table, grid: seq<int>)
    requires table.Keys == set i | i in grid
    ensures |Assemble(table).series| == 0 <==> forall k :: 0 <= k < |grid| ==> !Complete(table, grid[k])
  {
    AssembleEmpty(table);
    if forall k :: 0 <= k < |grid| ==> !Complete(table, grid[k]) {
      forall x | x in table
        ensures !Complete(table, x)
      {
        var k :| 0 <= k < |grid| && grid[k] == x;
      }
    }
  }

  /**
    `run_cli` returns 1 exactly when no grid instant ended with both models
    stored.
   */
  lemma CliExitCode(sh: int, sm: int, eh: int, em: int, interval: int, o: Oracle, ascii: bool)
    requires interval > 0
    requires RunCli(sh, sm, eh, em, interval, o, ascii).Ok?
    ensures var run := RunCli(sh, sm, eh, em, interval, o, ascii).value;
      run.code == 1 <==> forall k :: 0 <= k < |run.grid| ==> !Complete(run.engine.results, run.grid[k])
  {
    var run := RunCli(sh, sm, eh, em, interval, o, ascii).value;
    CliShape(sh, sm, eh, em, interval, o, ascii);
    ExitCodeOnGrid(o, run.grid, run.engine, run.assembled);
  }

  /** `best` is the first smallest average and `worst` the first largest. */
  predicate FirstExtremes(avg: seq<real>, best: nat, worst: nat) {
    && best < |avg| && worst < |avg|
    && (forall k :: 0 <= k < |avg| ==> avg[best] <= avg[k] <= avg[worst])
    && (forall k :: 0 <= k < best ==> avg[best] < avg[k])
    && (forall k :: 0 <= k < worst ==> avg[k] < avg[worst])
  }

  /** The picks and plot of a finished ASCII run. */
  lemma FinishPicks(grid: seq<int>, engine: EngineState, a: Assembled, interval: int)
    requires |a.series| > 0 && interval > 0
    requires Utils.WithinDay(TimesOf(a.series))
    requires Finish(grid, engine, a, interval).Ok?
    ensures var run := Finish(grid, engine, a, interval).value;
      var avg := Averages(a.series);
      && run.picks.Some?
      && run.picks.value.best == FirstMinIndex(avg) && run.picks.value.worst == FirstMaxIndex(avg)
      && TextPlot.Render(TimesOf(a.series), OptimisticOf(a.series), PessimisticOf(a.series), run.picks.value.best, run.picks.value.worst, interval) == Ok(run.plot)
  {
    var series := a.series;
    var avg := Averages(series);
    var picks := Picks(FirstMinIndex(avg), FirstMaxIndex(avg));
    var plot := TextPlot.Render(TimesOf(series), OptimisticOf(series), PessimisticOf(series), picks.best, picks.worst, interval);
    if plot.Ok? {
      assert PlotStage(series, interval) == Ok((picks, plot.value));
    }
  }

  /** When `Conclude` picks, the picks are the first extremes and the plot is rendered with them. */
  lemma ConcludePicks(grid: seq<int>, engine: EngineState, a: Assembled, ascii: bool, interval: int)
    requires Utils.WithinDay(TimesOf(a.series)) && interval > 0
    requires Conclude(grid, engine, a, ascii, interval).Ok? && Conclude(grid, engine, a, ascii, interval).value.picks.Some?
    ensures var run := Conclude(grid, engine, a, ascii, interval).value;
      && FirstExtremes(Averages(a.series), run.picks.value.best, run.picks.value.worst)
      && Utils.WithinDay(TimesOf(a.series))
      && TextPlot.Render(TimesOf(a.series), OptimisticOf(a.series), PessimisticOf(a.series), run.picks.value.best, run.picks.value.worst, interval) == Ok(run.plot)
  {
    FinishPicks(grid, engine, a, interval);
  }

  /** The same for the part of `run_cli` after the grid. */
  lemma OnGridPicks(grid: seq<int>, o: Oracle, ascii: bool, interval: int)
    requires Utils.StrictlyIncreasing(grid) && Utils.WithinDay(grid) && interval > 0
    requires RunOnGrid(grid, o, ascii, interval).Ok? && RunOnGrid(grid, o, ascii, interval).value.picks.Some?
    ensures var run := RunOnGrid(grid, o, ascii, interval).value;
      var series := run.assembled.series;
      && FirstExtremes(Averages(series), run.picks.value.best, run.picks.value.worst)
      && Utils.WithinDay(TimesOf(series))
      && TextPlot.Render(TimesOf(series), OptimisticOf(series), PessimisticOf(series), run.picks.value.best, run.picks.value.worst, interval) == Ok(run.plot)
  {
    var engine := RunEngine(o, BuildTasks(grid));
    var a := Assemble(engine.results);
    SeriesWithinDay(o, grid, a.series);
    assert RunOnGrid(grid, o, ascii, interval) == Conclude(grid, engine, a, ascii, interval);
    ConcludePicks(grid, engine, a, ascii, interval);
  }

  /**
    When a run returns picks, `min_idx` and `max_idx` are the first smallest
    and first largest average, every point is an instant of the day, and the
    plot lines are the text plot drawn with those picks.
   */
  lemma CliPicks(sh: int, sm: int, eh: int, em: int, interval: int, o: Oracle, ascii: bool)
    requires interval > 0
    requires RunCli(sh, sm, eh, em, interval, o, ascii).Ok?
    requires RunCli(sh, sm, eh, em, interval, o, ascii).value.picks.Some?
    ensures var run := RunCli(sh, sm, eh, em, interval, o, ascii).value;
      var series := run.assembled.series;
      && FirstExtremes(Averages(series), run.picks.value.best, run.picks.value.worst)
      && Utils.WithinDay(TimesOf(series))
      && TextPlot.Render(TimesOf(series), OptimisticOf(series), PessimisticOf(series), run.picks.value.best, run.picks.value.worst, interval) == Ok(run.plot)
  {
    var grid := Utils.MinuteGrid(sh, sm, eh, em, interval).value;
    Utils.MinuteGridShape(sh, sm, eh, em, interval);
    assert RunCli(sh, sm, eh, em, interval, o, ascii) == RunOnGrid(grid, o, ascii, interval);
    OnGridPicks(grid, o, ascii, interval);
  }
}
