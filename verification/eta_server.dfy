/**
  The `eta_series` tool of `mcp_server/server.py`: one directions call per
  traffic model for every grid instant, in grid order and without retries,
  then the per-row averages and the best and worst departures.
 */
module EtaServer {
  import opened Wrappers
  import Utils
  import Text
  import Fetch
  import Assembly

  /**
    The directions call for a departure instant and traffic model: the
    duration in minutes, rounded as the tool rounds it, or `None` when the
    call raises.
   */
  type Directions = (int, Fetch.TrafficModel) -> Option<real>

  /** What makes the tool fail: a bad time window, or the first directions call that raised. */
  datatype ServerError =
    | GridFailed(reason: Utils.GridError)
    | DirectionsFailed(at: int, model: Fetch.TrafficModel)

  /** One entry of `series`. */
  datatype Row = Row(departure: int, optimistic: real, pessimistic: real, average: real)

  /** `best_time` or `worst_time`: everything read off one index. */
  datatype TimePoint = TimePoint(departure: string, average: real, optimistic: real, pessimistic: real)

  datatype Insights = Insights(best: TimePoint, worst: TimePoint, difference: real)

  /** The tool's result, together with the pauses it took between instants. */
  datatype EtaSeries = EtaSeries(series: seq<Row>, insights: Insights, sleeps: seq<real>)

  /** Both calls for every instant from `i` on answer. */
  predicate Answered(dirs: Directions, grid: seq<int>, i: nat)
    requires i <= |grid|
  {
    forall j :: i <= j < |grid| ==> dirs(grid[j], Fetch.Optimistic).Some? && dirs(grid[j], Fetch.Pessimistic).Some?
  }

  /**
    `e` is the first call from instant `i` on that raised: every earlier
    instant answered both calls, and the optimistic call of an instant goes
    before its pessimistic one.
   */
  predicate FirstFailure(dirs: Directions, grid: seq<int>, i: nat, e: ServerError)
    requires i <= |grid|
  {
    exists j :: i <= j < |grid| && FailsAt(dirs, grid, i, j, e)
  }

  predicate FailsAt(dirs: Directions, grid: seq<int>, i: nat, j: nat, e: ServerError)
    requires i <= j < |grid|
  {
    && (forall k :: i <= k < j ==> dirs(grid[k], Fetch.Optimistic).Some? && dirs(grid[k], Fetch.Pessimistic).Some?)
    && e.DirectionsFailed? && e.at == grid[j]
    && (if dirs(grid[j], Fetch.Optimistic).None? then e.model == Fetch.Optimistic
        else dirs(grid[j], Fetch.Pessimistic).None? && e.model == Fetch.Pessimistic)
  }

  /** `row` is what instant `t` yields when both of its calls answer. */
  predicate RowFor(dirs: Directions, t: int, row: Row) {
    && dirs(t, Fetch.Optimistic).Some? && dirs(t, Fetch.Pessimistic).Some?
    && var o := dirs(t, Fetch.Optimistic).value;
       var p := dirs(t, Fetch.Pessimistic).value;
       row == Row(t, o, p, (o + p) / 2.0)
  }

  /** The loop over the grid from instant `i` on. */
  function Rows(dirs: Directions, grid: seq<int>, i: nat): (r: Result<seq<Row>, ServerError>)
    requires i <= |grid|
    ensures r.Ok? <==> Answered(dirs, grid, i)
    ensures r.Ok? ==> |r.value| == |grid| - i
    ensures r.Ok? ==> forall k :: 0 <= k < |r.value| ==> RowFor(dirs, grid[i + k], r.value[k])
    ensures r.Err? ==> FirstFailure(dirs, grid, i, r.error)
    decreases |grid| - i
  {
    if i == |grid| then Ok([])
    else
      match dirs(grid[i], Fetch.Optimistic)
      case None =>
        assert FailsAt(dirs, grid, i, i, DirectionsFailed(grid[i], Fetch.Optimistic));
        Err(DirectionsFailed(grid[i], Fetch.Optimistic))
      case Some(o) =>
        match dirs(grid[i], Fetch.Pessimistic)
        case None =>
          assert FailsAt(dirs, grid, i, i, DirectionsFailed(grid[i], Fetch.Pessimistic));
          Err(DirectionsFailed(grid[i], Fetch.Pessimistic))
        case Some(p) =>
          match Rows(dirs, grid, i + 1)
          case Err(e) =>
            var j :| i + 1 <= j < |grid| && FailsAt(dirs, grid, i + 1, j, e);
            assert FailsAt(dirs, grid, i, j, e);
            Err(e)
          case Ok(rest) => Ok([Row(grid[i], o, p, (o + p) / 2.0)] + rest)
  }

  /** The value the insights read off one index of the series. */
  function PointAt(series: seq<Row>, k: nat): (tp: TimePoint)
    requires k < |series| && 0 <= series[k].departure < Utils.MinutesPerDay
    ensures tp.average == series[k].average
    ensures tp.optimistic == series[k].optimistic && tp.pessimistic == series[k].pessimistic
    ensures tp.departure == Text.FormatHHMM(series[k].departure)
  {
    var row := series[k];
    TimePoint(Text.FormatHHMM(row.departure), row.average, row.optimistic, row.pessimistic)
  }

  /** The averages of the series, in order. */
  function AveragesOf(series: seq<Row>): (avg: seq<real>)
    ensures |avg| == |series|
    ensures forall k :: 0 <= k < |series| ==> avg[k] == series[k].average
  {
    seq(|series|, k requires 0 <= k < |series| => series[k].average)
  }

  /** `sleep_backoff(i)` for `i = 1..n`. */
  function Sleeps(n: nat): (s: seq<real>)
    ensures |s| == n
    ensures forall k :: 0 <= k < n ==> s[k] == Utils.SleepBackoff(k + 1)
  {
    seq(n, k requires 0 <= k < n => Utils.SleepBackoff(k + 1))
  }

  /**
    `eta_series` for the window `sh:sm`..`eh:em` sampled every `interval`
    minutes. It fails on a bad window or on the first directions call that
    raises; otherwise there is one row per grid instant and the insights come
    from the first cheapest and first dearest average.
   */
  function EtaSeriesOf(sh: int, sm: int, eh: int, em: int, interval: int, dirs: Directions): (r: Result<EtaSeries, ServerError>)
    requires interval > 0 || Utils.Window(sh, sm, eh, em).Err?
    ensures Utils.MinuteGrid(sh, sm, eh, em, interval).Err? <==> r.Err? && r.error.GridFailed?
    ensures r.Err? && r.error.GridFailed? ==> r.error.reason == Utils.MinuteGrid(sh, sm, eh, em, interval).error
    ensures Utils.MinuteGrid(sh, sm, eh, em, interval).Ok? ==>
      var grid := Utils.MinuteGrid(sh, sm, eh, em, interval).value;
      && (r.Ok? <==> Answered(dirs, grid, 0))
      && (r.Err? ==> FirstFailure(dirs, grid, 0, r.error))
      && (r.Ok? ==> |r.value.series| == |grid| && |r.value.sleeps| == |grid|)
  {
    match Utils.MinuteGrid(sh, sm, eh, em, interval)
    case Err(e) => Err(GridFailed(e))
    case Ok(grid) =>
      Utils.MinuteGridShape(sh, sm, eh, em, interval);
      match Rows(dirs, grid, 0)
      case Err(e) => Err(e)
      case Ok(series) => Ok(Summarize(series))
  }

  /**
    The tail of a successful run: the insights from the first cheapest and
    the first dearest row, and one pause per row.
   */
  function Summarize(series: seq<Row>): (r: EtaSeries)
    requires |series| > 0
    requires forall k :: 0 <= k < |series| ==> 0 <= series[k].departure < Utils.MinutesPerDay
    ensures r.series == series && |r.sleeps| == |series|
    ensures forall k :: 0 <= k < |series| ==> r.sleeps[k] == Utils.SleepBackoff(k + 1)
    ensures forall j, k :: 0 <= j <= k < |series| ==> r.sleeps[j] <= r.sleeps[k] <= 2.0
    ensures exists m :: FirstCheapest(series, m) && r.insights.best == PointAt(series, m)
    ensures exists m :: FirstDearest(series, m) && r.insights.worst == PointAt(series, m)
    ensures r.insights.difference == r.insights.worst.average - r.insights.best.average
    ensures r.insights.difference >= 0.0
  {
    var avg := AveragesOf(series);
    var minIdx := Assembly.FirstMinIndex(avg);
    var maxIdx := Assembly.FirstMaxIndex(avg);
    var best := PointAt(series, minIdx);
    var worst := PointAt(series, maxIdx);
    Picked(series);
    SleepsRise(|series|);
    EtaSeries(series, Insights(best, worst, worst.average - best.average), Sleeps(|series|))
  }

  /** Index `m` holds the first smallest average of the series. */
  predicate FirstCheapest(series: seq<Row>, m: nat) {
    && m < |series|
    && (forall k :: 0 <= k < |series| ==> series[m].average <= series[k].average)
    && (forall k :: 0 <= k < m ==> series[m].average < series[k].average)
  }

  /** Index `m` holds the first largest average of the series. */
  predicate FirstDearest(series: seq<Row>, m: nat) {
    && m < |series|
    && (forall k :: 0 <= k < |series| ==> series[k].average <= series[m].average)
    && (forall k :: 0 <= k < m ==> series[k].average < series[m].average)
  }

  /** A successful run is `Summarize` applied to the rows of the grid. */
  lemma Unfold(sh: int, sm: int, eh: int, em: int, interval: int, dirs: Directions)
      returns (grid: seq<int>, series: seq<Row>)
    requires interval > 0
    requires EtaSeriesOf(sh, sm, eh, em, interval, dirs).Ok?
    ensures Utils.MinuteGrid(sh, sm, eh, em, interval) == Ok(grid)
    ensures |grid| > 0
    ensures Rows(dirs, grid, 0) == Ok(series) && |series| == |grid|
    ensures forall k :: 0 <= k < |series| ==> 0 <= series[k].departure < Utils.MinutesPerDay
    ensures EtaSeriesOf(sh, sm, eh, em, interval, dirs) == Ok(Summarize(series))
  {
    grid := Utils.MinuteGrid(sh, sm, eh, em, interval).value;
    Utils.MinuteGridShape(sh, sm, eh, em, interval);
    series := Rows(dirs, grid, 0).value;
    DeparturesInDay(dirs, grid);
  }

  /** The rows of a grid within the day depart within the day. */
  lemma DeparturesInDay(dirs: Directions, grid: seq<int>)
    requires Utils.WithinDay(grid)
    requires Rows(dirs, grid, 0).Ok?
    ensures forall k :: 0 <= k < |Rows(dirs, grid, 0).value| ==>
      0 <= Rows(dirs, grid, 0).value[k].departure < Utils.MinutesPerDay
  {
    var series := Rows(dirs, grid, 0).value;
    RowsOf(dirs, grid, series);
    forall k | 0 <= k < |series|
      ensures 0 <= series[k].departure < Utils.MinutesPerDay
    {
      assert series[k].departure == grid[k];
    }
  }

  /**
    A successful run: one row per grid instant, holding the two answers for
    that instant and their mean.
   */
  lemma EtaSeriesRows(sh: int, sm: int, eh: int, em: int, interval: int, dirs: Directions)
    requires interval > 0
    requires EtaSeriesOf(sh, sm, eh, em, interval, dirs).Ok?
    ensures Utils.MinuteGrid(sh, sm, eh, em, interval).Ok?
    ensures var grid := Utils.MinuteGrid(sh, sm, eh, em, interval).value;
      var r := EtaSeriesOf(sh, sm, eh, em, interval, dirs).value;
      && |r.series| == |grid|
      && (forall k :: 0 <= k < |grid| ==> RowFor(dirs, grid[k], r.series[k]))
  {
    var grid, series := Unfold(sh, sm, eh, em, interval, dirs);
    RowsOf(dirs, grid, series);
  }

  /** The rows `Rows` returns from the first instant, indexed by grid position. */
  lemma RowsOf(dirs: Directions, grid: seq<int>, series: seq<Row>)
    requires Rows(dirs, grid, 0) == Ok(series)
    ensures |series| == |grid|
    ensures forall k :: 0 <= k < |grid| ==> RowFor(dirs, grid[k], series[k])
  {
    forall k | 0 <= k < |grid|
      ensures RowFor(dirs, grid[k], series[k])
    {
      assert grid[0 + k] == grid[k];
    }
  }


  /**
    The pauses of a successful run: one after each grid instant, growing
    with the instant's position and never above two seconds.
   */
  lemma EtaSeriesSleeps(sh: int, sm: int, eh: int, em: int, interval: int, dirs: Directions)
    requires interval > 0
    requires EtaSeriesOf(sh, sm, eh, em, interval, dirs).Ok?
    ensures var r := EtaSeriesOf(sh, sm, eh, em, interval, dirs).value;
      && (forall k :: 0 <= k < |r.sleeps| ==> r.sleeps[k] == Utils.SleepBackoff(k + 1))
      && (forall j, k :: 0 <= j <= k < |r.sleeps| ==> r.sleeps[j] <= r.sleeps[k] <= 2.0)
  {
    var grid, series := Unfold(sh, sm, eh, em, interval, dirs);
    var r := Summarize(series);
  }

  /**
    The insights of a successful run: `best_time` is read off the first
    cheapest row, `worst_time` off the first dearest one, and the difference
    between them is never negative.
   */
  lemma EtaSeriesInsights(sh: int, sm: int, eh: int, em: int, interval: int, dirs: Directions)
    requires interval > 0
    requires EtaSeriesOf(sh, sm, eh, em, interval, dirs).Ok?
    ensures var r := EtaSeriesOf(sh, sm, eh, em, interval, dirs).value;
      && |r.series| > 0
      && (forall k :: 0 <= k < |r.series| ==> 0 <= r.series[k].departure < Utils.MinutesPerDay)
      && (exists m :: FirstCheapest(r.series, m) && r.insights.best == PointAt(r.series, m))
      && (exists m :: FirstDearest(r.series, m) && r.insights.worst == PointAt(r.series, m))
      && r.insights.difference == r.insights.worst.average - r.insights.best.average
      && r.insights.difference >= 0.0
  {
    var grid, series := Unfold(sh, sm, eh, em, interval, dirs);
    var r := Summarize(series);
  }

  /** The first smallest and first largest average are where the insights look. */
  lemma Picked(series: seq<Row>)
    requires |series| > 0
    ensures FirstCheapest(series, Assembly.FirstMinIndex(AveragesOf(series)))
    ensures FirstDearest(series, Assembly.FirstMaxIndex(AveragesOf(series)))
  {
  }

  /** The pauses never shrink and never exceed two seconds. */
  lemma SleepsRise(n: nat)
    ensures forall j, k :: 0 <= j <= k < n ==> Sleeps(n)[j] <= Sleeps(n)[k] <= 2.0
  {
    forall j, k | 0 <= j <= k < n ensures Sleeps(n)[j] <= Sleeps(n)[k] <= 2.0 {
      Utils.SleepBackoffMonotone(j + 1, k + 1);
    }
  }
}
