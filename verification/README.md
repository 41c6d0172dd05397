# Drive-time sampling, retry rounds and text plot — a Dafny model

This project models the core logic of a small drive-time tool. Its command
line `run_cli` and its server tool `eta_series` take a date and a start and
end time. They sample departure instants on a fixed grid and ask a directions
service for two traffic estimates per instant, an optimistic one and a
pessimistic one. The command line retries failed requests in rounds, keeps
only the instants where both answers came back, and draws a 20-row character
plot with an hour axis. The server tool instead fails the whole call at its
first failed request. Both pick the first cheapest and the first dearest
departure by average duration.

The model has these modules:

- `Utils` covers `minute_grid` and `sleep_backoff`. Departure instants are
  integer minutes since midnight on the chosen date.
- `Fetch` covers `fetch_single_eta`: up to three tries with linear waits.
  The directions service is an oracle `(task, round, attempt) -> Option<real>`.
- `RetryEngine` covers the task list and the round loop of `run_cli`. It is
  a recursive function over rounds, with a result table keyed by instant and
  traffic model.
- `Assembly` covers the filtering into a time-ordered series, the exit code,
  and the first-minimum and first-maximum indices.
- `Text` covers decimal text, `%H:%M` fields, `lstrip('0') or '0'` and
  `:3d` padding.
- `TextPlot` covers `print_simple_text_plot`: the scaled grid, the value
  rows, the axis line and the hour axis.
- `XTicks` covers the 30-minute tick positions and hour labels, shared by
  both entry points.
- `EtaServer` covers the rows, the sleep schedule and the insights of
  `eta_series`.
- `DrivePlot` covers `run_cli` from the grid to the exit code and the plot.

Durations are exact `real` minutes.

## Model

| member | source | states |
|---|---|---|
| Utils.Window | mcp_server/utils.py:43-48 | the start/end pair is accepted exactly when both clocks are valid and the end is strictly later; otherwise the error says which check failed |
| Utils.MinuteGrid | mcp_server/utils.py:29-55 | the grid is rejected exactly when the window is; otherwise it has `(end-start) div interval + 1` instants, starting at `start`, spaced by `interval`, all within `[start, end]`, with the last instant plus one interval past `end` |
| Utils.MinuteGridShape | mcp_server/utils.py:49-55 | an accepted grid is non-empty, strictly increasing, and lies within the day |
| Utils.SleepBackoff | mcp_server/utils.py:58-60 | the delay is a quarter second per step up to step 8 and 2 seconds from step 8 on, that is `min(0.25 * i, 2.0)`, so always between 0 and 2 seconds |
| Utils.SleepBackoffMonotone | mcp_server/utils.py:58-60 | the delay never decreases as the step index grows |
| Fetch.Attempts | cli/driveplot_fast.py:47-60 | from a given attempt on: the first successful try is returned with every earlier try failed, or every remaining try failed; one wait per failed try except the last |
| Fetch.FetchSingleEta | cli/driveplot_fast.py:42-60 | a duration comes back exactly when some of the `max_retries` tries succeeds, and it is the first such try's value; on failure all tries failed and `max_retries - 1` waits of `(attempt+1)*0.5` were taken |
| RetryEngine.BuildTasks | cli/driveplot_fast.py:101-105 | two tasks per grid instant, optimistic then pessimistic, in grid order |
| RetryEngine.BuildTasksExact | cli/driveplot_fast.py:101-105 | on a grid without repeats the task list has no repeats, holds exactly the tasks at grid instants, and covers exactly the grid's instants |
| RetryEngine.Merge | cli/driveplot_fast.py:137-142 | a fetched answer creates its instant's entry, stores a success in its own cell only, and leaves every other cell alone |
| RetryEngine.RunRound | cli/driveplot_fast.py:129-148 | every submitted task is counted once, either as written or as failed |
| RetryEngine.RoundKeys | cli/driveplot_fast.py:136-139 | after a round the table has an entry for every submitted instant, even when both of its fetches failed |
| RetryEngine.RoundPartition | cli/driveplot_fast.py:135-148 | the next round's failed list is exactly the submitted tasks whose fetch failed; the written ones are exactly those that succeeded |
| RetryEngine.RoundNoDup | cli/driveplot_fast.py:130-148 | without repeats among the submitted tasks, neither the failed nor the written list has repeats |
| RetryEngine.RoundUntouched | cli/driveplot_fast.py:138-142 | a task not submitted in the round keeps its cell |
| RetryEngine.RoundWrites | cli/driveplot_fast.py:138-145 | when the submitted cells are empty, the round only adds cells and never overwrites one; each submitted cell ends up holding that round's answer |
| RetryEngine.RetryRounds | cli/driveplot_fast.py:107-148 | at most three rounds run; no further round runs exactly when nothing failed or three rounds are done; tasks left failing imply three rounds ran |
| RetryEngine.RetryRoundsLog | cli/driveplot_fast.py:113-148 | each logged round has the next number and 30 or 10 workers; it submits at least one task, and as many tasks as the previous round left failing; the last round's failures are the tasks left |
| RetryEngine.InitialInvariant | cli/driveplot_fast.py:107-110 | before the loop the table is empty and every task is pending |
| RetryEngine.StepPreservesInvariant | cli/driveplot_fast.py:113-148 | one more round keeps the loop invariant: failed tasks are those with no success so far, each cell holds its first success, cells are only added, each is written once |
| RetryEngine.RetryRoundsInvariant | cli/driveplot_fast.py:113-156 | the whole loop keeps the invariant and only ever extends the table |
| RetryEngine.RunEngine | cli/driveplot_fast.py:101-156 | the round log is well formed. On a task list without repeats: a task ends with a value exactly when some round succeeded, and the value is the first successful round's. The tasks left failing are exactly those that failed every round run. Every stored cell was written exactly once |
| Assembly.SortedKeys | cli/driveplot_fast.py:159 | the table's instants, each exactly once, in strictly increasing order |
| Assembly.CollectSound | cli/driveplot_fast.py:161-169 | every kept point is an instant of the list with both models present, carrying the table's two values |
| Assembly.CollectComplete | cli/driveplot_fast.py:161-169 | every listed instant with both models present is kept |
| Assembly.CollectOrdered | cli/driveplot_fast.py:159-169 | instants listed in increasing order are kept in increasing order |
| Assembly.Assemble | cli/driveplot_fast.py:158-171 | the series is in time order; it holds exactly the complete instants with their stored values; kept plus skipped equals the number of instants in the table |
| Assembly.ExitStatus | cli/driveplot_fast.py:176-178 | the status is 1 exactly when nothing was kept, and 0 otherwise |
| Assembly.Averages | cli/driveplot_fast.py:201 | one average per point, the mean of its two durations |
| Assembly.FirstMinIndex | cli/driveplot_fast.py:204 | the index holds a least value and every earlier value is strictly larger |
| Assembly.FirstMaxIndex | cli/driveplot_fast.py:205 | the index holds a greatest value and every earlier value is strictly smaller |
| Assembly.FirstMinIndexUnique | cli/driveplot_fast.py:204 | any index with the first-minimum property is the one chosen |
| Assembly.FirstMaxIndexUnique | cli/driveplot_fast.py:205 | any index with the first-maximum property is the one chosen |
| Assembly.BestNotWorse | cli/driveplot_fast.py:204-205 | the best average never exceeds the worst, so the reported difference is not negative |
| Text.DecimalRoundTrip | cli/driveplot_fast.py:309-310 | `int(str(n)) == n`: the decimal text of a number reads back as that number. This is the inverse that Text.HourLabelIsDecimal rests on to show that `str(int(hour))` is the zero-stripped hour field |
| Text.FormatHHMM | cli/driveplot_fast.py:167 | five characters, a colon in the middle, two-digit hour and minute fields reading back as the instant's hour and minute |
| Text.OnTheHour | cli/driveplot_fast.py:307-308 | the minute field is "00" exactly on the hour |
| Text.StripPadding | cli/driveplot_fast.py:225 | stripping the zero padding of a two-digit hour gives its plain decimal, with "00" becoming "0" |
| Text.HourLabelIsDecimal | cli/driveplot_fast.py:222-225 | the label of an instant's hour field is the plain decimal of its hour |
| Text.IntToText | cli/driveplot_fast.py:297 | non-negative numbers print as their decimal; negative ones as a minus sign followed by the decimal of the magnitude |
| Text.PadLeft3 | cli/driveplot_fast.py:297 | the text is right-aligned in at least three columns with blanks in front |
| TextPlot.Trunc | cli/driveplot_fast.py:268 | `int(x)` rounds toward zero: down for non-negative values, up for negative ones |
| TextPlot.ScaleRange | cli/driveplot_fast.py:267-268 | a value between the minimum and maximum scales to a level in `[0, 19]`; the minimum scales to 0 and the maximum to 19 |
| TextPlot.ScaleMonotone | cli/driveplot_fast.py:267-268 | a larger value never scales to a lower level |
| TextPlot.LowHighBound | cli/driveplot_fast.py:261-262 | every plotted value lies between the two series' overall minimum and maximum |
| TextPlot.DrawColumnCells | cli/driveplot_fast.py:274-286 | drawing one column changes only that column; each cell gets `*` on the average row, else `o` on the pessimistic row, else `+` on the optimistic row, else stays blank |
| TextPlot.DrawColumnsCells | cli/driveplot_fast.py:274-286 | after the loop every drawn column shows the series marks of its own values, and undrawn columns are blank |
| TextPlot.PlotGrid | cli/driveplot_fast.py:261-292 | the plot fails with a division by zero exactly when every value is the same; otherwise the grid has 20 rows as wide as the series |
| TextPlot.PlotGridCells | cli/driveplot_fast.py:271-292 | each cell is `W` at the worst column's average row, else `B` at the best column's average row, else the column's series mark: `W` wins over `B`, and `*` wins over `o`, which wins over `+` |
| TextPlot.RowLabels | cli/driveplot_fast.py:295-297 | the row labels run from `int(max)` on the top row down to `int(min)` on the bottom row, never increase downward, and stay between the two |
| TextPlot.AxisLine | cli/driveplot_fast.py:299 | the axis line is 8 blanks and a corner under the value rows' `|`, followed by one dash per sample starting one column before the first plot column |
| TextPlot.ValueLineColumns | cli/driveplot_fast.py:297 | for labels of at most three characters, the plot row starts right after the 10-character label prefix |
| TextPlot.HourMarkMeaning | cli/driveplot_fast.py:306-310 | a sample gets a mark exactly on the hour, and the mark is the hour in plain decimal |
| TextPlot.Marks | cli/driveplot_fast.py:306-310 | one mark per sample, for that sample's instant |
| TextPlot.XAxisContents | cli/driveplot_fast.py:301-320 | both the as-written and the corrected axis start with 10 blanks and, blanks aside, hold exactly the hour marks in sample order |
| TextPlot.XAxisAsWrittenMisplaces | cli/driveplot_fast.py:301-320 | with 15-minute samples from 08:15, the loop as written puts the "9" one column right of the 09:00 sample and leaves that sample's column blank |
| TextPlot.XAxisAligned | cli/driveplot_fast.py:301-320 | when marks do not run into each other, every hour's mark starts at its own sample's column |
| TextPlot.XAxisAsWrittenFirstMark | cli/driveplot_fast.py:302-317 | on the axis as written, when the first on-the-hour sample is sample `j > 0`, its mark starts at text column 10 + `60 // interval` and everything before it is blank. That is not column 10 + `j` unless `j == 60 // interval` |
| TextPlot.AxisFromGap | cli/driveplot_fast.py:306-317 | on the axis as written, each later mark starts `max(60 // interval, length of the previous mark)` columns after the previous mark starts, with blanks in between; a negative repeat count gives no blanks |
| TextPlot.Render | cli/driveplot_fast.py:258-324 | the plot fails exactly when every value is equal. Otherwise it prints 20 value rows, row `i` labelled with the truncated level `max - i/19 * (max - min)` and followed by row `i` of the grid; then the axis line, the hour axis exactly as the loop builds it, and the legend lines |
| TextPlot.RenderColumns | cli/driveplot_fast.py:294-299 | for non-negative durations under 1000 minutes, each value row shows the plot cell of sample `c` at text column 10 + `c` |
| TextPlot.RenderRow | cli/driveplot_fast.py:295-297 | for non-negative durations under 1000 minutes, each value row is the 10-column label followed by the row of the plot grid; the label is the truncated level right-aligned in 3 columns, then ` min | ` |
| XTicks.TickStep | cli/driveplot_fast.py:213 | the step is at least 1; for intervals up to 30 it is the most samples that fit in half an hour |
| XTicks.TickPositions | cli/driveplot_fast.py:214 | the positions are the multiples of the step below the sample count, in order, and every such multiple is listed |
| XTicks.TickLabelWhen | cli/driveplot_fast.py:222-228 | a label is non-empty exactly on the hour |
| XTicks.TickLabelText | cli/driveplot_fast.py:222-225 | a non-empty label is the hour in plain decimal, and is the same mark the text plot's axis uses |
| XTicks.MidnightLabel | cli/driveplot_fast.py:225 | the 00:00 label is "0" |
| XTicks.TickLabels | cli/driveplot_fast.py:219-228 | one label per position, each the label of the instant at that position |
| XTicks.MakeTicks | mcp_server/server.py:183-195 | ticks sit at every multiple of the step below the sample count, each labelled from the instant at its position |
| XTicks.HalfHourTicks | cli/driveplot_fast.py:212-228 | when the interval divides 30, the k-th tick falls 30k minutes after the first sample; on a grid starting on the hour, exactly every other tick is labelled |
| EtaServer.Rows | mcp_server/server.py:115-133 | the rows succeed exactly when every remaining instant gets both answers; then there is one row per instant, in grid order. Otherwise the error names the first instant and model that failed |
| EtaServer.RowsOf | mcp_server/server.py:115-133 | a successful run has one row per grid instant, each holding that instant's two answers and their mean |
| EtaServer.PointAt | mcp_server/server.py:145-156 | every field of a reported point comes from the one chosen row, with its departure as `HH:MM` |
| EtaServer.Sleeps | mcp_server/server.py:115-135 | after the i-th instant (counting from 1) the server pauses for `sleep_backoff(i)` |
| EtaServer.EtaSeriesOf | mcp_server/server.py:106-159 | a bad window fails with the grid's error. Otherwise the call succeeds exactly when every directions call answers, and fails with the first failing call's error. On success there is one row and one pause per grid instant |
| EtaServer.Summarize | mcp_server/server.py:137-159 | best and worst are whole rows at the first minimum and first maximum average; the difference is worst minus best and is not negative; the pauses rise and stay at most 2 seconds |
| EtaServer.EtaSeriesRows | mcp_server/server.py:108-133 | a successful series has exactly one row per grid instant in grid order, each with both answers and their mean |
| EtaServer.EtaSeriesSleeps | mcp_server/server.py:115-135 | a successful run pauses `sleep_backoff(1..n)` in turn; the pauses never decrease and never exceed 2 seconds |
| EtaServer.EtaSeriesInsights | mcp_server/server.py:137-159 | best and worst come from the first cheapest and first dearest rows; the difference is their gap and is not negative |
| EtaServer.Picked | mcp_server/server.py:138-140 | `index(min(...))` and `index(max(...))` on the averages pick the first cheapest and first dearest rows |
| DrivePlot.GridEngine | cli/driveplot_fast.py:101-148 | the grid's task list has no repeats, and the finished table has an entry for exactly the grid's instants |
| DrivePlot.EngineExhausted | cli/driveplot_fast.py:113-156 | a task whose fetch fails in all three rounds ends in the failed list and has no stored value |
| DrivePlot.EngineSettled | cli/driveplot_fast.py:113-156 | when nothing is left failing, every task holds its first successful round's value |
| DrivePlot.AssemblePresent | cli/driveplot_fast.py:161-169 | an instant with both values stored is kept, with those values |
| DrivePlot.AssembleMissing | cli/driveplot_fast.py:161-171 | an instant missing a value is skipped |
| DrivePlot.Exhausted | cli/driveplot_fast.py:113-171 | a task whose every try fails in all three rounds is reported as failed, and its instant is skipped |
| DrivePlot.NoFailuresAll | cli/driveplot_fast.py:113-171 | with no failures left, every grid instant is kept with its first successful values for both models |
| DrivePlot.AssembleEmpty | cli/driveplot_fast.py:158-178 | nothing is kept exactly when no instant in the table is complete |
| DrivePlot.ExitCodeOnGrid | cli/driveplot_fast.py:158-178 | on the engine's table, nothing is kept exactly when no grid instant got both models |
| DrivePlot.PlotStage | cli/driveplot_fast.py:191-253 | the chosen indices are the first minimum and first maximum of the averages; the plot fails exactly when every duration is the same |
| DrivePlot.Conclude | cli/driveplot_fast.py:176-255 | the exit code is 1 exactly when nothing was kept and 0 otherwise; best and worst are chosen only in ASCII mode with data; only the ASCII plot can fail |
| DrivePlot.RunOnGrid | cli/driveplot_fast.py:101-255 | the run over a grid is the engine on that grid's tasks, then assembly, then the exit code and optional plot, as above |
| DrivePlot.RunCli | cli/driveplot_fast.py:63-255 | a bad window fails with the grid's error; otherwise the grid is the minute grid, fed through the engine and assembly, and the code is 1 exactly when nothing was kept |
| DrivePlot.CliShape | cli/driveplot_fast.py:92-110 | a finished run's grid is non-empty and increasing, and the engine ran on exactly that grid's tasks |
| DrivePlot.CliNoFailures | cli/driveplot_fast.py:113-178 | when no task is left failing, the run exits 0 and every grid instant is plotted with its first successful values |
| DrivePlot.CliExhausted | cli/driveplot_fast.py:113-171 | a task whose every try fails in every round is reported as failed, and its instant never appears in the series |
| DrivePlot.CliExitCode | cli/driveplot_fast.py:158-178 | the run exits 1 exactly when no grid instant got both models |
| DrivePlot.FinishPicks | cli/driveplot_fast.py:201-253 | the plotted best and worst are the first minimum and first maximum of the averages, and the printed plot is the text plot of the series |
| DrivePlot.CliPicks | cli/driveplot_fast.py:190-253 | in ASCII mode with data, best and worst are the first minimum and first maximum of the averages, and the printed plot is the text plot of the series with them marked |

## Left out

- Geocoding, directions, the static map and `save_image` are network I/O.
  `fetch_single_eta`'s directions call is an oracle indexed by task, round
  and attempt. The server's directions call is a function of instant and
  traffic model.
- The thread pool and `as_completed`: a round handles its tasks in
  submission order. Every task writes its own cell, and the failed set is a
  set, so the contracts speak of membership, never of positions.
- Worker counts: they are recorded in the round log only.
- `time.sleep`: the waits of `fetch_single_eta` and the pauses of
  `sleep_backoff` are returned as lists of durations, never slept.
- Dates and time zones: `ZoneInfo`, daylight-saving time,
  `datetime.timestamp()` and `isoformat()`. Instants are minutes since
  midnight of the chosen date. A server row's departure is that minute,
  not the ISO text.
- Parsing the `YYYY-MM-DD` and `HH:MM` argument strings: the model starts
  from the parsed hour and minute numbers.
- Floating-point behaviour: durations are exact minutes. `round(x / 60, 1)`,
  the server's `round(..., 1)` of averages and difference, and the `.1f`
  formatting are left out.
- The rich console output, the table printed by `run_cli`, the progress
  bars and warnings, and `print` itself: the plot is returned as a list of
  lines.
- The confirmation prompt and its exit code 2, argparse, plotext and
  matplotlib drawing, base64 PNG encoding and FastMCP tool registration.
  The plotext and matplotlib x ticks are modelled through `XTicks`; the
  drawing itself is not.
- The plot's last legend line, which prints best and worst with `.1f`
  values, and the trailing blank line: `TextPlot.Render` ends with the
  fixed legend lines before them.
- `minute_grid` with `interval_minutes <= 0`: the source loops forever on a
  valid window, so the model requires a positive interval whenever the
  window is valid.
- TextPlot.RenderColumns and TextPlot.RenderRow require non-negative
  durations under 1000 minutes, so that the `:3d` label keeps the rows
  aligned. The source does not demand either bound; directions durations
  are never negative. A label wider than three
  characters pushes its row right, as in the source.
- EtaServer.EtaSeriesOf: the pauses are modelled on the success path only.
  On failure the source has already paused for the earlier instants before
  raising, and the model reports only the error.
- Fetch.FetchSingleEta: the final warning message is left out. Only its
  `None` result is modelled.

## Findings

| source | as written | input that shows it | evidently intended | confidence | as-written member | corrected member |
|---|---|---|---|---|---|---|
| cli/driveplot_fast.py:301-320 | the first hour mark is put `60 // interval` blanks after the 10-blank indent, whatever the position of its sample (`prev_hour_len` starts at 0 and `i == 0` is only true for the first sample) | samples every 15 minutes at 08:15, 08:30, 08:45, 09:00: the 09:00 sample is plot column 13, but its "9" is printed at column 14 | each hour mark starts under its own sample's plot column | not executed | TextPlot.XAxisAsWritten, the axis TextPlot.Render prints (shown by TextPlot.XAxisAsWrittenMisplaces and TextPlot.XAxisAsWrittenFirstMark) | TextPlot.XAxis (proved by TextPlot.XAxisAligned) |
