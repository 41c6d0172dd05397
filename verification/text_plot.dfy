/**
  `print_simple_text_plot` of `cli/driveplot_fast.py`: the 20-row character
  grid of the three series with the best and worst markers, the value rows
  around it and the hour axis under it.
 */
module TextPlot {
  import opened Wrappers
  import Text
  import Utils
  import Assembly

  /** Number of value rows of the plot. */
  const Height: nat := 20

  /** The exception the plot raises: every value equal makes `scale` divide by zero. */
  datatype PlotError = ZeroDivision

  /** `int(x)`: truncation toward zero. */
  function Trunc(x: real): (n: int)
    ensures x >= 0.0 ==> n as real <= x < n as real + 1.0
    ensures x < 0.0 ==> n as real - 1.0 < x <= n as real
  {
    if x >= 0.0 then x.Floor else -((-x).Floor)
  }

  /** `scale(val)`: the value's rung on a 0..19 ladder from `lo` to `hi`. */
  function Scale(val: real, lo: real, hi: real): int
    requires lo < hi
  {
    Trunc((val - lo) / (hi - lo) * (Height - 1) as real)
  }

  /** A value between the bounds lands on a rung of the ladder; the bounds land on its ends. */
  lemma ScaleRange(val: real, lo: real, hi: real)
    requires lo < hi && lo <= val <= hi
    ensures 0 <= Scale(val, lo, hi) < Height
    ensures val == lo ==> Scale(val, lo, hi) == 0
    ensures val == hi ==> Scale(val, lo, hi) == Height - 1
  {
    var f := (val - lo) / (hi - lo);
    UnitFraction(val - lo, hi - lo);
    assert 0.0 <= f * 19.0 <= 19.0;
  }

  /** A part over its whole lies in the unit interval, and is one for the whole itself. */
  lemma UnitFraction(a: real, d: real)
    requires 0.0 <= a <= d && 0.0 < d
    ensures 0.0 <= a / d <= 1.0
    ensures a == d ==> a / d == 1.0
  {
  }

  /** A larger value never lands on a lower rung. */
  lemma ScaleMonotone(v: real, w: real, lo: real, hi: real)
    requires lo < hi && lo <= v <= w
    ensures Scale(v, lo, hi) <= Scale(w, lo, hi)
  {
    var a := (v - lo) / (hi - lo);
    var b := (w - lo) / (hi - lo);
    assert a <= b by {
      assert (w - lo) - (v - lo) >= 0.0;
      assert b - a == ((w - lo) - (v - lo)) / (hi - lo);
    }
    assert a * 19.0 <= b * 19.0;
  }

  /** `height - 1 - scale(val)`: the grid row of a value, row 0 at the top. */
  function RowOf(val: real, lo: real, hi: real): int
    requires lo < hi
  {
    Height - 1 - Scale(val, lo, hi)
  }

  /** The character grid, one string per row. */
  type Grid = seq<seq<char>>

  predicate Shaped(g: Grid, width: nat) {
    |g| == Height && forall r :: 0 <= r < |g| ==> |g[r]| == width
  }

  /** The empty grid. */
  function Blank(width: nat): (g: Grid)
    ensures Shaped(g, width)
    ensures forall r, c :: 0 <= r < Height && 0 <= c < width ==> g[r][c] == ' '
  {
    seq(Height, _ => seq(width, _ => ' '))
  }

  /** `grid[r][c] = ch`. */
  function Put(g: Grid, r: nat, c: nat, ch: char): (g': Grid)
    requires r < |g| && c < |g[r]|
    ensures |g'| == |g|
    ensures forall r' :: 0 <= r' < |g| ==> |g'[r']| == |g[r']|
    ensures g'[r][c] == ch
    ensures forall r', c' :: 0 <= r' < |g| && 0 <= c' < |g[r']| && (r', c') != (r, c) ==> g'[r'][c'] == g[r'][c']
  {
    g[r := g[r][c := ch]]
  }

  /** The three series rows of one column, each a rung of the ladder. */
  datatype Rows = Rows(opt: int, pes: int, avg: int)

  predicate OnGrid(rows: Rows) {
    0 <= rows.opt < Height && 0 <= rows.pes < Height && 0 <= rows.avg < Height
  }

  /**
    One iteration of the drawing loop: `o` on an empty cell, then `+` on an
    empty cell, then `*` over an empty cell or a `+` or `o`.
   */
  function DrawColumn(g: Grid, width: nat, c: nat, rows: Rows): (g': Grid)
    requires Shaped(g, width) && c < width && OnGrid(rows)
    ensures Shaped(g', width)
  {
    var g1 := if g[rows.pes][c] == ' ' then Put(g, rows.pes, c, 'o') else g;
    var g2 := if g1[rows.opt][c] == ' ' then Put(g1, rows.opt, c, '+') else g1;
    var ch := g2[rows.avg][c];
    if ch == ' ' || ch == '+' || ch == 'o' then Put(g2, rows.avg, c, '*') else g2
  }

  /** What a column shows once drawn: `*` wins its row, `o` beats `+`. */
  function SeriesMark(r: int, rows: Rows): char {
    if r == rows.avg then '*'
    else if r == rows.pes then 'o'
    else if r == rows.opt then '+'
    else ' '
  }

  /** Drawing a blank column leaves every other column alone and gives each cell its series mark. */
  lemma DrawColumnCells(g: Grid, width: nat, c: nat, rows: Rows)
    requires Shaped(g, width) && c < width && OnGrid(rows)
    requires forall r :: 0 <= r < Height ==> g[r][c] == ' '
    ensures forall r, c' :: 0 <= r < Height && 0 <= c' < width && c' != c ==>
      DrawColumn(g, width, c, rows)[r][c'] == g[r][c']
    ensures forall r :: 0 <= r < Height ==> DrawColumn(g, width, c, rows)[r][c] == SeriesMark(r, rows)
  {
  }

  /** The rows of column `c` for the given series and bounds. */
  function ColumnRows(opt: seq<real>, pes: seq<real>, lo: real, hi: real, c: nat): Rows
    requires |opt| == |pes| && c < |opt| && lo < hi
  {
    Rows(RowOf(opt[c], lo, hi), RowOf(pes[c], lo, hi), RowOf((opt[c] + pes[c]) / 2.0, lo, hi))
  }

  /** The series bounds are honoured by every value. */
  predicate Bounded(opt: seq<real>, pes: seq<real>, lo: real, hi: real) {
    forall i :: 0 <= i < |opt| && i < |pes| ==> lo <= opt[i] <= hi && lo <= pes[i] <= hi
  }

  /** Within the bounds, every series of every column lands on the grid. */
  lemma ColumnRowsOnGrid(opt: seq<real>, pes: seq<real>, lo: real, hi: real, c: nat)
    requires |opt| == |pes| && c < |opt| && lo < hi && Bounded(opt, pes, lo, hi)
    ensures OnGrid(ColumnRows(opt, pes, lo, hi, c))
  {
    ScaleRange(opt[c], lo, hi);
    ScaleRange(pes[c], lo, hi);
    ScaleRange((opt[c] + pes[c]) / 2.0, lo, hi);
  }

  /** `for i in range(n)`: the first `n` columns drawn onto `g`. */
  function DrawColumns(g: Grid, opt: seq<real>, pes: seq<real>, lo: real, hi: real, n: nat): (g': Grid)
    requires |opt| == |pes| && n <= |opt| && lo < hi && Bounded(opt, pes, lo, hi)
    requires Shaped(g, |opt|)
    ensures Shaped(g', |opt|)
  {
    if n == 0 then g
    else
      ColumnRowsOnGrid(opt, pes, lo, hi, n - 1);
      DrawColumn(DrawColumns(g, opt, pes, lo, hi, n - 1), |opt|, n - 1, ColumnRows(opt, pes, lo, hi, n - 1))
  }

  /** After drawing `n` columns on a blank grid, those columns show their marks and the rest stay blank. */
  lemma {:induction false} DrawColumnsCells(width: nat, opt: seq<real>, pes: seq<real>, lo: real, hi: real, n: nat)
    requires |opt| == |pes| == width && n <= width && lo < hi && Bounded(opt, pes, lo, hi)
    ensures forall r, c :: 0 <= r < Height && 0 <= c < n ==>
      DrawColumns(Blank(width), opt, pes, lo, hi, n)[r][c] == SeriesMark(r, ColumnRows(opt, pes, lo, hi, c))
    ensures forall r, c :: 0 <= r < Height && n <= c < width ==>
      DrawColumns(Blank(width), opt, pes, lo, hi, n)[r][c] == ' '
  {
    if n > 0 {
      DrawColumnsCells(width, opt, pes, lo, hi, n - 1);
      var g := DrawColumns(Blank(width), opt, pes, lo, hi, n - 1);
      var rows := ColumnRows(opt, pes, lo, hi, n - 1);
      ColumnRowsOnGrid(opt, pes, lo, hi, n - 1);
      DrawColumnCells(g, width, n - 1, rows);
      var g' := DrawColumns(Blank(width), opt, pes, lo, hi, n);
      assert g' == DrawColumn(g, width, n - 1, rows);
      forall r, c | 0 <= r < Height && 0 <= c < n
        ensures g'[r][c] == SeriesMark(r, ColumnRows(opt, pes, lo, hi, c))
      {
        if c < n - 1 {
          assert g'[r][c] == g[r][c];
        }
      }
      forall r, c | 0 <= r < Height && n <= c < width
        ensures g'[r][c] == ' '
      {
        assert g'[r][c] == g[r][c];
      }
    }
  }

  /** `min(min(opt_min), min(pes_min))`. */
  function Low(opt: seq<real>, pes: seq<real>): real
    requires |opt| > 0 && |pes| > 0
  {
    var a := Assembly.MinOf(opt);
    var b := Assembly.MinOf(pes);
    if a <= b then a else b
  }

  /** `max(max(opt_min), max(pes_min))`. */
  function High(opt: seq<real>, pes: seq<real>): real
    requires |opt| > 0 && |pes| > 0
  {
    var a := Assembly.MaxOf(opt);
    var b := Assembly.MaxOf(pes);
    if a >= b then a else b
  }

  /** Every value lies between `Low` and `High`. */
  lemma LowHighBound(opt: seq<real>, pes: seq<real>)
    requires |opt| == |pes| > 0
    ensures Bounded(opt, pes, Low(opt, pes), High(opt, pes))
    ensures Low(opt, pes) <= High(opt, pes)
  {
  }

  /** The cell the plot shows: `W`, then `B`, then the column's series mark. */
  function ExpectedCell(opt: seq<real>, pes: seq<real>, lo: real, hi: real, minIdx: nat, maxIdx: nat, r: int, c: nat): char
    requires |opt| == |pes| && c < |opt| && minIdx < |opt| && maxIdx < |opt| && lo < hi
  {
    if c == maxIdx && r == ColumnRows(opt, pes, lo, hi, maxIdx).avg then 'W'
    else if c == minIdx && r == ColumnRows(opt, pes, lo, hi, minIdx).avg then 'B'
    else SeriesMark(r, ColumnRows(opt, pes, lo, hi, c))
  }

  /**
    The plot grid: the three series drawn column by column, then `B` at the
    best column's average row and `W` at the worst one's. With all values
    equal the scale divides by zero.
   */
  function PlotGrid(opt: seq<real>, pes: seq<real>, minIdx: nat, maxIdx: nat): (r: Result<Grid, PlotError>)
    requires |opt| == |pes| > 0 && minIdx < |opt| && maxIdx < |opt|
    ensures r.Err? <==> Low(opt, pes) == High(opt, pes)
    ensures r.Ok? ==> Shaped(r.value, |opt|)
  {
    var lo := Low(opt, pes);
    var hi := High(opt, pes);
    LowHighBound(opt, pes);
    if lo == hi then Err(ZeroDivision)
    else
      var g := DrawColumns(Blank(|opt|), opt, pes, lo, hi, |opt|);
      ColumnRowsOnGrid(opt, pes, lo, hi, minIdx);
      ColumnRowsOnGrid(opt, pes, lo, hi, maxIdx);
      var g' := Put(g, ColumnRows(opt, pes, lo, hi, minIdx).avg, minIdx, 'B');
      Ok(Put(g', ColumnRows(opt, pes, lo, hi, maxIdx).avg, maxIdx, 'W'))
  }

  /**
    Every cell of the plot, described without the drawing order: the worst
    marker wins over the best marker, both win over the series, the average
    takes its row, and `o` beats `+` where the two other series meet.
   */
  lemma PlotGridCells(opt: seq<real>, pes: seq<real>, minIdx: nat, maxIdx: nat)
    requires |opt| == |pes| > 0 && minIdx < |opt| && maxIdx < |opt|
    requires Low(opt, pes) < High(opt, pes)
    ensures var g := PlotGrid(opt, pes, minIdx, maxIdx).value;
      forall r, c :: 0 <= r < Height && 0 <= c < |opt| ==>
        g[r][c] == ExpectedCell(opt, pes, Low(opt, pes), High(opt, pes), minIdx, maxIdx, r, c)
  {
    LowHighBound(opt, pes);
    ColumnRowsOnGrid(opt, pes, Low(opt, pes), High(opt, pes), minIdx);
    ColumnRowsOnGrid(opt, pes, Low(opt, pes), High(opt, pes), maxIdx);
    DrawColumnsCells(|opt|, opt, pes, Low(opt, pes), High(opt, pes), |opt|);
  }

  /** Truncation toward zero never reverses the order of two reals. */
  lemma TruncMonotone(x: real, y: real)
    requires x <= y
    ensures Trunc(x) <= Trunc(y)
  {
  }

  /** The value a share `a` of the span below `hi`. */
  function Lerp(a: real, lo: real, hi: real): real {
    hi - a * (hi - lo)
  }

  /** A unit-interval share stays within the span. */
  lemma LerpBetween(a: real, lo: real, hi: real)
    requires 0.0 <= a <= 1.0 && lo < hi
    ensures lo <= Lerp(a, lo, hi) <= hi
  {
    var d := hi - lo;
    var m := a * d;
    assert 0.0 <= m <= d;
    assert m == a * (hi - lo);
  }

  /** A larger share gives a lower value. */
  lemma LerpFalls(a: real, b: real, lo: real, hi: real)
    requires a <= b && lo < hi
    ensures Lerp(b, lo, hi) <= Lerp(a, lo, hi)
  {
    var d := hi - lo;
    assert (b - a) * d >= 0.0;
    assert b * d - a * d == (b - a) * d;
  }

  /** `max_val - (i / (height - 1)) * (max_val - min_val)`: the value at the height of row `i`. */
  function Level(i: nat, lo: real, hi: real): real {
    Lerp(i as real / (Height - 1) as real, lo, hi)
  }

  /** The label of value row `i`. */
  function RowLabel(i: nat, lo: real, hi: real): int {
    Trunc(Level(i, lo, hi))
  }

  /** Row levels stay between the bounds. */
  lemma LevelBetween(i: nat, lo: real, hi: real)
    requires i < Height && lo < hi
    ensures lo <= Level(i, lo, hi) <= hi
  {
    UnitFraction(i as real, (Height - 1) as real);
    LerpBetween(i as real / (Height - 1) as real, lo, hi);
  }

  /** A lower row has a level no higher than the row above it. */
  lemma LevelFalls(i: nat, j: nat, lo: real, hi: real)
    requires i <= j && lo < hi
    ensures Level(j, lo, hi) <= Level(i, lo, hi)
  {
    LerpFalls(i as real / (Height - 1) as real, j as real / (Height - 1) as real, lo, hi);
  }

  /** The labels run from the largest value at the top down to the smallest at the bottom. */
  lemma RowLabels(lo: real, hi: real)
    requires lo < hi
    ensures RowLabel(0, lo, hi) == Trunc(hi)
    ensures RowLabel(Height - 1, lo, hi) == Trunc(lo)
    ensures forall i, j :: 0 <= i <= j < Height ==> RowLabel(j, lo, hi) <= RowLabel(i, lo, hi)
    ensures forall i :: 0 <= i < Height ==> Trunc(lo) <= RowLabel(i, lo, hi) <= Trunc(hi)
  {
    forall i, j | 0 <= i <= j < Height
      ensures RowLabel(j, lo, hi) <= RowLabel(i, lo, hi)
    {
      LevelFalls(i, j, lo, hi);
      TruncMonotone(Level(j, lo, hi), Level(i, lo, hi));
    }
    forall i | 0 <= i < Height
      ensures Trunc(lo) <= RowLabel(i, lo, hi) <= Trunc(hi)
    {
      LevelBetween(i, lo, hi);
      TruncMonotone(lo, Level(i, lo, hi));
      TruncMonotone(Level(i, lo, hi), hi);
    }
  }

  /** `f"{int(val):3d} min | {''.join(grid[i])}"`. */
  function ValueLine(tag: int, row: string): string {
    Text.PadLeft3(Text.IntToText(tag)) + " min | " + row
  }

  /** Columns in front of the first grid column: the label, " min | ", and the axis indent. */
  const Indent: nat := 10

  /**
    The line under the value rows: the corner sits under the rows' `|` and
    the dashes start one column before the first grid column.
   */
  function AxisLine(width: nat): (s: string)
    ensures |s| == Indent - 1 + width && s[Indent - 2] == '+'
    ensures forall i :: 0 <= i < Indent - 2 ==> s[i] == ' '
    ensures s[Indent - 1..] == seq(width, _ => '-')
  {
    "        +" + seq(width, _ => '-')
  }

  /** A value row of a label of at most three characters puts grid column `c` at `Indent + c`. */
  lemma ValueLineColumns(tag: int, row: string)
    requires -99 <= tag < 1000
    ensures |ValueLine(tag, row)| == Indent + |row|
    ensures ValueLine(tag, row)[..Indent] == Text.PadLeft3(Text.IntToText(tag)) + " min | "
    ensures ValueLine(tag, row)[Indent..] == row
  {
    if tag >= 0 {
      Text.DecimalWidth(tag);
    } else {
      Text.DecimalWidth(-tag);
    }
  }

  // ----- the hour axis -----

  /** `str(int(hour))` for a sample at the top of an hour, nothing for any other sample. */
  function HourMark(t: int): string
    requires 0 <= t < Utils.MinutesPerDay
  {
    Text.HourLabelIsDecimal(t);
    if Text.MinuteField(t) == "00" then Text.NatToDecimal(Text.DecimalValue(Text.HourField(t))) else ""
  }

  /** A sample carries a mark exactly when it falls on the hour, and the mark is the hour's number. */
  lemma HourMarkMeaning(t: int)
    requires 0 <= t < Utils.MinutesPerDay
    ensures HourMark(t) != "" <==> t % Utils.MinutesPerHour == 0
    ensures HourMark(t) != "" ==> HourMark(t) == Text.NatToDecimal(t / Utils.MinutesPerHour)
    ensures Text.AllDigits(HourMark(t))
  {
    Text.OnTheHour(t);
    Text.HourLabelIsDecimal(t);
  }

  /** The mark of every sample, in order. */
  function Marks(times: seq<int>): (marks: seq<string>)
    requires Utils.WithinDay(times)
    ensures |marks| == |times|
    ensures forall k :: 0 <= k < |times| ==> marks[k] == HourMark(times[k])
  {
    seq(|times|, k requires 0 <= k < |times| => HourMark(times[k]))
  }

  /**
    The x-axis loop as written, from sample `i` on: the first sample gets no
    spacing, every later mark is put `perHour - prevLen` blanks after the
    previous one.
   */
  function AxisFrom(marks: seq<string>, i: nat, perHour: int, prevLen: nat): string
    requires i <= |marks|
    decreases |marks| - i
  {
    if i == |marks| then ""
    else if marks[i] == "" then AxisFrom(marks, i + 1, perHour, prevLen)
    else
      var spacing := if i == 0 then 0 else perHour - prevLen;
      Text.Spaces(spacing) + marks[i] + AxisFrom(marks, i + 1, perHour, |marks[i]|)
  }

  /** The x-axis line as the plot writes it. */
  function XAxisAsWritten(times: seq<int>, interval: int): string
    requires interval > 0 && Utils.WithinDay(times)
  {
    Text.Spaces(Indent) + AxisFrom(Marks(times), 0, Utils.MinutesPerHour / interval, 0)
  }

  /**
    With samples every 15 minutes from 08:15, the sample at 09:00 is grid
    column 3, drawn at text column 13, but its mark lands at text column 14:
    the first mark is spaced a whole hour from the start of the axis
    whatever its own position.
   */
  lemma XAxisAsWrittenMisplaces()
    ensures var times := [495, 510, 525, 540];
      Utils.WithinDay(times) &&
      XAxisAsWritten(times, 15) == "              9" &&
      XAxisAsWritten(times, 15)[Indent + 3] == ' '
  {
    var times := [495, 510, 525, 540];
    HourMarkMeaning(495);
    HourMarkMeaning(510);
    HourMarkMeaning(525);
    HourMarkMeaning(540);
    assert Text.NatToDecimal(9) == "9";
    var marks := Marks(times);
    assert marks == ["", "", "", "9"];
    assert AxisFrom(marks, 3, 4, 0) == Text.Spaces(4) + "9";
  }

  /** Samples without a mark add nothing to the axis and leave the previous mark's length as it was. */
  lemma {:induction false} AxisFromSkips(marks: seq<string>, i: nat, j: nat, perHour: int, prevLen: nat)
    requires i <= j <= |marks|
    requires forall k :: i <= k < j ==> marks[k] == ""
    ensures AxisFrom(marks, i, perHour, prevLen) == AxisFrom(marks, j, perHour, prevLen)
    decreases j - i
  {
    if i < j {
      AxisFromSkips(marks, i + 1, j, perHour, prevLen);
    }
  }

  /** Two runs of blanks in a row are one run. */
  lemma SpacesJoin(a: nat, b: nat)
    ensures Text.Spaces(a) + Text.Spaces(b) == Text.Spaces(a + b)
  {
  }

  /**
    On the axis as written, the first hour mark of a grid whose first sample
    is not on the hour starts `60 / interval` columns after the indent,
    whatever the index `j` of its sample: everything before it is blank.
    It sits under its own sample only when `j` is `60 / interval`.
   */
  lemma XAxisAsWrittenFirstMark(times: seq<int>, interval: int, j: nat)
    requires interval > 0 && Utils.WithinDay(times) && 0 < j < |times|
    requires times[j] % Utils.MinutesPerHour == 0
    requires forall k :: 0 <= k < j ==> times[k] % Utils.MinutesPerHour != 0
    ensures var at := Indent + Utils.MinutesPerHour / interval;
      && MarkAt(XAxisAsWritten(times, interval), at, Text.NatToDecimal(times[j] / Utils.MinutesPerHour))
      && BlankBetween(XAxisAsWritten(times, interval), 0, at)
  {
    MarksUpToFirstHour(times, j);
    PerHourBounds(interval);
    AxisLead(Marks(times), j, Utils.MinutesPerHour / interval);
  }

  /** The indent and the axis loop's output up to the first mark `j > 0`. */
  lemma AxisLead(marks: seq<string>, j: nat, perHour: nat)
    requires 0 < j < |marks| && marks[j] != ""
    requires forall k :: 0 <= k < j ==> marks[k] == ""
    ensures var line := Text.Spaces(Indent) + AxisFrom(marks, 0, perHour, 0);
      MarkAt(line, Indent + perHour, marks[j]) && BlankBetween(line, 0, Indent + perHour)
  {
    var rest := AxisFrom(marks, j + 1, perHour, |marks[j]|);
    AxisFromLead(marks, j, perHour);
    SpacesJoin(Indent, perHour);
    assert Text.Spaces(Indent) + AxisFrom(marks, 0, perHour, 0) == Text.Spaces(Indent + perHour) + marks[j] + rest;
    LeadLayout(Text.Spaces(Indent + perHour), marks[j], rest);
  }

  /** No sample before the first on-the-hour sample `j` has a mark, and `j`'s mark is its hour. */
  lemma MarksUpToFirstHour(times: seq<int>, j: nat)
    requires Utils.WithinDay(times) && j < |times|
    requires times[j] % Utils.MinutesPerHour == 0
    requires forall k :: 0 <= k < j ==> times[k] % Utils.MinutesPerHour != 0
    ensures forall k :: 0 <= k < j ==> Marks(times)[k] == ""
    ensures Marks(times)[j] == Text.NatToDecimal(times[j] / Utils.MinutesPerHour)
  {
    forall k | 0 <= k < j
      ensures Marks(times)[k] == ""
    {
      HourMarkMeaning(times[k]);
    }
    HourMarkMeaning(times[j]);
  }

  /** The samples per hour at a positive interval are a whole number between 0 and 60. */
  lemma PerHourBounds(interval: int)
    requires interval > 0
    ensures 0 <= Utils.MinutesPerHour / interval <= Utils.MinutesPerHour
  {
  }

  /** Before the first mark the axis loop writes nothing; the first mark, when it is not sample 0, gets a whole hour of blanks. */
  lemma AxisFromLead(marks: seq<string>, j: nat, perHour: int)
    requires 0 < j < |marks| && marks[j] != ""
    requires forall k :: 0 <= k < j ==> marks[k] == ""
    ensures AxisFrom(marks, 0, perHour, 0) == Text.Spaces(perHour) + marks[j] + AxisFrom(marks, j + 1, perHour, |marks[j]|)
  {
    AxisFromSkips(marks, 0, j, perHour, 0);
    assert AxisFrom(marks, 0, perHour, 0) == AxisFrom(marks, j, perHour, 0);
    AxisFromMark(marks, j, perHour, 0);
  }

  /** Where the pieces of `pad + mark + rest` sit when `pad` is blank. */
  lemma LeadLayout(pad: string, mark: string, rest: string)
    requires forall c :: 0 <= c < |pad| ==> pad[c] == ' '
    ensures MarkAt(pad + mark + rest, |pad|, mark) && BlankBetween(pad + mark + rest, 0, |pad|)
  {
    SliceMiddle(pad, mark, rest);
  }

  /**
    On the axis as written, the mark of a later sample `j` starts
    `max(perHour, |marks[i]|)` columns after the start of the previous mark
    `i`: the loop puts `perHour - |marks[i]|` blanks between them, and none
    when that count is negative.
   */
  lemma AxisFromGap(marks: seq<string>, i: nat, j: nat, perHour: int, prevLen: nat)
    requires i < j < |marks| && marks[i] != "" && marks[j] != ""
    requires forall k :: i < k < j ==> marks[k] == ""
    ensures var out := AxisFrom(marks, i, perHour, prevLen);
      var a := if i == 0 || perHour < prevLen then 0 else perHour - prevLen;
      var b := a + (if perHour < |marks[i]| then |marks[i]| else perHour);
      MarkAt(out, a, marks[i]) && BlankBetween(out, a + |marks[i]|, b) && MarkAt(out, b, marks[j])
  {
    var pad := Text.Spaces(if i == 0 then 0 else perHour - prevLen);
    var gap := Text.Spaces(perHour - |marks[i]|);
    var rest := AxisFrom(marks, j + 1, perHour, |marks[j]|);
    AxisFromPair(marks, i, j, perHour, prevLen);
    var at := if i == 0 || perHour < prevLen then 0 else perHour - prevLen;
    var next := at + (if perHour < |marks[i]| then |marks[i]| else perHour);
    GapColumns(i, perHour, prevLen, |marks[i]|);
    GapLayout(pad, marks[i], gap, marks[j], rest, at, next);
  }

  /** What the axis loop writes from a mark `i` through the next mark `j`. */
  lemma AxisFromPair(marks: seq<string>, i: nat, j: nat, perHour: int, prevLen: nat)
    requires i < j < |marks| && marks[i] != "" && marks[j] != ""
    requires forall k :: i < k < j ==> marks[k] == ""
    ensures AxisFrom(marks, i, perHour, prevLen) ==
      Text.Spaces(if i == 0 then 0 else perHour - prevLen) + marks[i]
      + (Text.Spaces(perHour - |marks[i]|) + marks[j] + AxisFrom(marks, j + 1, perHour, |marks[j]|))
  {
    var tail := AxisFrom(marks, j, perHour, |marks[i]|);
    AxisFromMark(marks, i, perHour, prevLen);
    AxisFromSkips(marks, i + 1, j, perHour, |marks[i]|);
    assert AxisFrom(marks, i + 1, perHour, |marks[i]|) == tail;
    AxisFromMark(marks, j, perHour, |marks[i]|);
    assert tail == Text.Spaces(perHour - |marks[i]|) + marks[j] + AxisFrom(marks, j + 1, perHour, |marks[j]|);
  }

  /** The piece the axis loop adds for a marked sample `i`. */
  lemma AxisFromMark(marks: seq<string>, i: nat, perHour: int, prevLen: nat)
    requires i < |marks| && marks[i] != ""
    ensures AxisFrom(marks, i, perHour, prevLen) ==
      Text.Spaces(if i == 0 then 0 else perHour - prevLen) + marks[i] + AxisFrom(marks, i + 1, perHour, |marks[i]|)
  {
  }

  /** `line` shows `mark` from column `at` on. */
  predicate MarkAt(line: string, at: int, mark: string) {
    0 <= at && at + |mark| <= |line| && line[at .. at + |mark|] == mark
  }

  /** Columns `from` up to `upto` of `line` exist and are blank. */
  predicate BlankBetween(line: string, from: int, upto: int) {
    0 <= from && upto <= |line| && forall c :: from <= c < upto ==> line[c] == ' '
  }

  /** The widths of the blanks the axis loop puts before a mark and after it. */
  lemma GapColumns(i: nat, perHour: int, prevLen: nat, len: nat)
    ensures var at := if i == 0 || perHour < prevLen then 0 else perHour - prevLen;
      && |Text.Spaces(if i == 0 then 0 else perHour - prevLen)| == at
      && at + len + |Text.Spaces(perHour - len)| == at + (if perHour < len then len else perHour)
  {
  }

  /** Where the pieces of `pad + first + (gap + second + rest)` sit when `gap` is blank. */
  lemma GapLayout(pad: string, first: string, gap: string, second: string, rest: string, at: nat, next: nat)
    requires forall c :: 0 <= c < |gap| ==> gap[c] == ' '
    requires at == |pad| && next == |pad| + |first| + |gap|
    ensures var out := pad + first + (gap + second + rest);
      && MarkAt(out, at, first)
      && BlankBetween(out, at + |first|, next)
      && MarkAt(out, next, second)
  {
    var out := pad + first + (gap + second + rest);
    SliceMiddle(pad, first, gap + second + rest);
    assert out == (pad + first + gap) + second + rest;
    SliceMiddle(pad + first + gap, second, rest);
    forall c | |pad| + |first| <= c < |pad| + |first| + |gap|
      ensures out[c] == ' '
    {
      assert out[c] == gap[c - |pad| - |first|];
    }
  }

  /**
    The intended x-axis loop from sample `i` on, `col` characters after the
    indent: each mark starts at its own sample's column, or right after the
    previous mark when that one is still running.
   */
  function AlignedFrom(marks: seq<string>, i: nat, col: nat): string
    requires i <= |marks|
    decreases |marks| - i
  {
    if i == |marks| then ""
    else if marks[i] == "" then AlignedFrom(marks, i + 1, col)
    else Text.Spaces(i - col) + marks[i] + AlignedFrom(marks, i + 1, (if col < i then i else col) + |marks[i]|)
  }

  /** The x-axis line with every hour mark under its own sample. */
  function XAxis(times: seq<int>): string
    requires Utils.WithinDay(times)
  {
    Text.Spaces(Indent) + AlignedFrom(Marks(times), 0, 0)
  }

  /** No mark runs into the column of the next marked sample. */
  predicate Separated(marks: seq<string>) {
    forall i, j :: 0 <= i < j < |marks| && marks[j] != "" ==> i + |marks[i]| <= j
  }

  /** From sample `i` on, with no earlier output past any later marked column, every mark sits at its column. */
  lemma {:induction false} AlignedFromPlaces(marks: seq<string>, i: nat, col: nat)
    requires i <= |marks| && Separated(marks)
    requires forall j :: i <= j < |marks| && marks[j] != "" ==> col <= j
    ensures forall k :: i <= k < |marks| && marks[k] != "" ==>
      k - col + |marks[k]| <= |AlignedFrom(marks, i, col)| &&
      AlignedFrom(marks, i, col)[k - col .. k - col + |marks[k]|] == marks[k]
    decreases |marks| - i
  {
    if i < |marks| {
      if marks[i] == "" {
        AlignedFromPlaces(marks, i + 1, col);
      } else {
        var col' := i + |marks[i]|;
        AlignedFromPlaces(marks, i + 1, col');
        var rest := AlignedFrom(marks, i + 1, col');
        PlacesStep(marks, i, col, AlignedFrom(marks, i, col), Text.Spaces(i - col), rest);
      }
    }
  }

  /** One step of `AlignedFromPlaces`: the mark of sample `i`, padded to its column, in front of the rest. */
  lemma PlacesStep(marks: seq<string>, i: nat, col: nat, out: string, pad: string, rest: string)
    requires i < |marks| && marks[i] != "" && col <= i
    requires out == pad + marks[i] + rest && |pad| == i - col
    requires forall k :: i + 1 <= k < |marks| && marks[k] != "" ==> i + |marks[i]| <= k
    requires forall k :: i + 1 <= k < |marks| && marks[k] != "" ==>
      k - (i + |marks[i]|) + |marks[k]| <= |rest| &&
      rest[k - (i + |marks[i]|) .. k - (i + |marks[i]|) + |marks[k]|] == marks[k]
    ensures forall k :: i <= k < |marks| && marks[k] != "" ==>
      k - col + |marks[k]| <= |out| &&
      out[k - col .. k - col + |marks[k]|] == marks[k]
  {
    var col' := i + |marks[i]|;
    forall k | i <= k < |marks| && marks[k] != ""
      ensures k - col + |marks[k]| <= |out|
      ensures out[k - col .. k - col + |marks[k]|] == marks[k]
    {
      if k == i {
        SliceMiddle(pad, marks[i], rest);
      } else {
        assert k - col == |pad + marks[i]| + (k - col');
        SliceAfter(pad + marks[i], rest, k - col', |marks[k]|);
      }
    }
  }

  /** The middle piece of a concatenation is found at the end of the head. */
  lemma SliceMiddle(head: string, mid: string, tail: string)
    ensures (head + mid + tail)[|head| .. |head| + |mid|] == mid
  {
    assert (head + mid + tail)[|head| .. |head| + |mid|] == (head + (mid + tail))[|head| .. |head| + |mid|];
  }

  /** A slice of the tail of a concatenation is the same slice of the tail alone. */
  lemma SliceAfter(head: string, tail: string, x: nat, n: nat)
    requires x + n <= |tail|
    ensures (head + tail)[|head| + x .. |head| + x + n] == tail[x .. x + n]
  {
  }

  /** The text with its blanks removed. */
  function Unspaced(s: string): string {
    if |s| == 0 then "" else (if s[0] == ' ' then "" else [s[0]]) + Unspaced(s[1..])
  }

  lemma {:induction false} UnspacedConcat(a: string, b: string)
    ensures Unspaced(a + b) == Unspaced(a) + Unspaced(b)
  {
    if |a| > 0 {
      assert (a + b)[1..] == a[1..] + b;
      UnspacedConcat(a[1..], b);
    } else {
      assert a + b == b;
    }
  }

  lemma {:induction false} UnspacedBlanks(s: string)
    requires forall i :: 0 <= i < |s| ==> s[i] == ' '
    ensures Unspaced(s) == ""
  {
    if |s| > 0 {
      UnspacedBlanks(s[1..]);
    }
  }

  lemma {:induction false} UnspacedDigits(s: string)
    requires Text.AllDigits(s)
    ensures Unspaced(s) == s
  {
    if |s| > 0 {
      UnspacedDigits(s[1..]);
      assert s == [s[0]] + s[1..];
    }
  }

  /** The marks from sample `i` on, written one after the other. */
  function Joined(marks: seq<string>, i: nat): string
    requires i <= |marks|
    decreases |marks| - i
  {
    if i == |marks| then "" else marks[i] + Joined(marks, i + 1)
  }

  /** Every mark is a run of digits. */
  predicate DigitMarks(marks: seq<string>) {
    forall k :: 0 <= k < |marks| ==> Text.AllDigits(marks[k])
  }

  /** The marks of a day's samples are runs of digits. */
  lemma MarksAreDigits(times: seq<int>)
    requires Utils.WithinDay(times)
    ensures DigitMarks(Marks(times))
  {
    forall k | 0 <= k < |times| ensures Text.AllDigits(Marks(times)[k]) {
      HourMarkMeaning(times[k]);
    }
  }

  /** Blanks, then a mark, then the rest: apart from blanks, the mark and then the rest. */
  lemma UnspacedPiece(pad: string, mark: string, rest: string)
    requires forall i :: 0 <= i < |pad| ==> pad[i] == ' '
    requires Text.AllDigits(mark)
    ensures Unspaced(pad + mark + rest) == mark + Unspaced(rest)
  {
    UnspacedConcat(pad, mark);
    UnspacedBlanks(pad);
    UnspacedDigits(mark);
    var head := pad + mark;
    assert Unspaced(head) == mark by {
      assert Unspaced(head) == [] + mark;
    }
    UnspacedConcat(head, rest);
  }

  /** One step of the two lemmas below: a piece of axis and its marks, one mark longer. */
  lemma PieceJoined(line: string, pad: string, mark: string, rest: string, joined: string, joinedRest: string)
    requires line == pad + mark + rest && joined == mark + joinedRest
    requires forall i :: 0 <= i < |pad| ==> pad[i] == ' '
    requires Text.AllDigits(mark)
    requires Unspaced(rest) == joinedRest
    ensures Unspaced(line) == joined
  {
    UnspacedPiece(pad, mark, rest);
  }

  /** Apart from its blanks, the axis as written is the marks in sample order. */
  lemma {:induction false} AxisFromContents(marks: seq<string>, i: nat, perHour: int, prevLen: nat)
    requires i <= |marks| && DigitMarks(marks)
    ensures Unspaced(AxisFrom(marks, i, perHour, prevLen)) == Joined(marks, i)
    decreases |marks| - i
  {
    if i < |marks| {
      if marks[i] == "" {
        AxisFromContents(marks, i + 1, perHour, prevLen);
        assert Joined(marks, i) == "" + Joined(marks, i + 1);
      } else {
        var spacing := if i == 0 then 0 else perHour - prevLen;
        var rest := AxisFrom(marks, i + 1, perHour, |marks[i]|);
        AxisFromContents(marks, i + 1, perHour, |marks[i]|);
        PieceJoined(AxisFrom(marks, i, perHour, prevLen), Text.Spaces(spacing), marks[i], rest,
                    Joined(marks, i), Joined(marks, i + 1));
      }
    }
  }

  /** Apart from its blanks, the aligned axis is the marks in sample order. */
  lemma {:induction false} AlignedFromContents(marks: seq<string>, i: nat, col: nat)
    requires i <= |marks| && DigitMarks(marks)
    ensures Unspaced(AlignedFrom(marks, i, col)) == Joined(marks, i)
    decreases |marks| - i
  {
    if i < |marks| {
      if marks[i] == "" {
        AlignedFromContents(marks, i + 1, col);
        assert Joined(marks, i) == "" + Joined(marks, i + 1);
      } else {
        var col' := (if col < i then i else col) + |marks[i]|;
        var rest := AlignedFrom(marks, i + 1, col');
        AlignedFromContents(marks, i + 1, col');
        PieceJoined(AlignedFrom(marks, i, col), Text.Spaces(i - col), marks[i], rest,
                    Joined(marks, i), Joined(marks, i + 1));
      }
    }
  }

  /**
    Both axes open with the ten-column indent, and apart from blanks both
    hold exactly the hour numbers of the on-the-hour samples, in order.
   */
  lemma XAxisContents(times: seq<int>, interval: int)
    requires interval > 0 && Utils.WithinDay(times)
    ensures XAxisAsWritten(times, interval)[..Indent] == Text.Spaces(Indent)
    ensures XAxis(times)[..Indent] == Text.Spaces(Indent)
    ensures Unspaced(XAxisAsWritten(times, interval)) == Joined(Marks(times), 0)
    ensures Unspaced(XAxis(times)) == Joined(Marks(times), 0)
  {
    MarksAreDigits(times);
    var marks := Marks(times);
    AxisFromContents(marks, 0, Utils.MinutesPerHour / interval, 0);
    AlignedFromContents(marks, 0, 0);
    UnspacedBlanks(Text.Spaces(Indent));
    UnspacedConcat(Text.Spaces(Indent), AxisFrom(marks, 0, Utils.MinutesPerHour / interval, 0));
    UnspacedConcat(Text.Spaces(Indent), AlignedFrom(marks, 0, 0));
  }

  /**
    The intended axis, given marks that do not run into each other: every
    sample on the hour has its hour's number starting at the same text column
    as its grid column in the value rows.
   */
  lemma XAxisAligned(times: seq<int>)
    requires Utils.WithinDay(times) && Separated(Marks(times))
    ensures forall k :: 0 <= k < |times| && times[k] % Utils.MinutesPerHour == 0 ==>
      var mark := Text.NatToDecimal(times[k] / Utils.MinutesPerHour);
      Indent + k + |mark| <= |XAxis(times)| && XAxis(times)[Indent + k .. Indent + k + |mark|] == mark
  {
    var marks := Marks(times);
    var line := Text.Spaces(Indent) + AlignedFrom(marks, 0, 0);
    AlignedLine(marks);
    assert XAxis(times) == line;
    forall k | 0 <= k < |times| && times[k] % Utils.MinutesPerHour == 0
      ensures marks[k] != "" && marks[k] == Text.NatToDecimal(times[k] / Utils.MinutesPerHour)
    {
      HourMarkMeaning(times[k]);
    }
  }

  /** Every mark of separated marks starts at its sample's column after the indent. */
  lemma AlignedLine(marks: seq<string>)
    requires Separated(marks)
    ensures var line := Text.Spaces(Indent) + AlignedFrom(marks, 0, 0);
      forall k :: 0 <= k < |marks| && marks[k] != "" ==>
        Indent + k + |marks[k]| <= |line| && line[Indent + k .. Indent + k + |marks[k]|] == marks[k]
  {
    var out := AlignedFrom(marks, 0, 0);
    AlignedFromPlaces(marks, 0, 0);
    forall k | 0 <= k < |marks| && marks[k] != ""
      ensures Indent + k + |marks[k]| <= |Text.Spaces(Indent) + out|
      ensures (Text.Spaces(Indent) + out)[Indent + k .. Indent + k + |marks[k]|] == marks[k]
    {
      SliceAfter(Text.Spaces(Indent), out, k, |marks[k]|);
    }
  }

  // ----- the whole plot -----

  /** The fixed lines printed under the x-axis. */
  const Footer: seq<string> := [
    "          Hour of Day",
    "",
    "LEGEND:",
    "  + = Optimistic  |  o = Pessimistic  |  * = Average"
  ]

  /**
    The printed plot: twenty value rows, each labelled with its level from
    the maximum down to the minimum, the axis line, the hour axis as the
    loop builds it, and the legend. It fails when every value is the same.
   */
  function Render(times: seq<int>, opt: seq<real>, pes: seq<real>, minIdx: nat, maxIdx: nat, interval: int): (r: Result<seq<string>, PlotError>)
    requires |times| == |opt| == |pes| > 0 && minIdx < |opt| && maxIdx < |opt| && Utils.WithinDay(times)
    requires interval > 0
    ensures r.Err? <==> Low(opt, pes) == High(opt, pes)
    ensures r.Ok? ==> |r.value| == Height + 2 + |Footer|
    ensures r.Ok? ==> forall i :: 0 <= i < Height ==>
      r.value[i] == ValueLine(Trunc(Level(i, Low(opt, pes), High(opt, pes))), PlotGrid(opt, pes, minIdx, maxIdx).value[i])
    ensures r.Ok? ==> r.value[Height] == AxisLine(|opt|) && r.value[Height + 1] == XAxisAsWritten(times, interval)
    ensures r.Ok? ==> r.value[Height + 2..] == Footer
  {
    match PlotGrid(opt, pes, minIdx, maxIdx)
    case Err(e) => Err(e)
    case Ok(g) =>
      var lo := Low(opt, pes);
      var hi := High(opt, pes);
      var rows := seq(Height, i requires 0 <= i < Height => ValueLine(RowLabel(i, lo, hi), g[i]));
      var lines := rows + [AxisLine(|opt|), XAxisAsWritten(times, interval)] + Footer;
      assert lines[Height + 2..] == Footer;
      assert forall i :: 0 <= i < Height ==> lines[i] == rows[i];
      Ok(lines)
  }

  /**
    For durations under a thousand minutes every value row is as wide as the
    indent plus the grid, and the character at text column `Indent + c` of
    row `r` is the plot cell of sample `c`.
   */
  lemma RenderColumns(times: seq<int>, opt: seq<real>, pes: seq<real>, minIdx: nat, maxIdx: nat, interval: int)
    requires |times| == |opt| == |pes| > 0 && minIdx < |opt| && maxIdx < |opt| && Utils.WithinDay(times)
    requires interval > 0
    requires 0.0 <= Low(opt, pes) < High(opt, pes) < 1000.0
    ensures var lines := Render(times, opt, pes, minIdx, maxIdx, interval).value;
      forall r, c :: 0 <= r < Height && 0 <= c < |opt| ==>
        |lines[r]| == Indent + |opt| &&
        lines[r][Indent + c] == ExpectedCell(opt, pes, Low(opt, pes), High(opt, pes), minIdx, maxIdx, r, c)
  {
    var lines := Render(times, opt, pes, minIdx, maxIdx, interval).value;
    PlotGridCells(opt, pes, minIdx, maxIdx);
    forall r | 0 <= r < Height
      ensures |lines[r]| == Indent + |opt|
      ensures lines[r][Indent..] == PlotGrid(opt, pes, minIdx, maxIdx).value[r]
    {
      RenderRow(times, opt, pes, minIdx, maxIdx, interval, r);
    }
  }

  /**
    Value row `r` of the plot is grid row `r` behind a ten-column label: the
    truncated level of the row, right-aligned in three columns, then " min | ".
   */
  lemma RenderRow(times: seq<int>, opt: seq<real>, pes: seq<real>, minIdx: nat, maxIdx: nat, interval: int, r: nat)
    requires |times| == |opt| == |pes| > 0 && minIdx < |opt| && maxIdx < |opt| && Utils.WithinDay(times)
    requires interval > 0
    requires 0.0 <= Low(opt, pes) < High(opt, pes) < 1000.0 && r < Height
    ensures |Render(times, opt, pes, minIdx, maxIdx, interval).value[r]| == Indent + |opt|
    ensures Render(times, opt, pes, minIdx, maxIdx, interval).value[r][..Indent] ==
      Text.PadLeft3(Text.IntToText(Trunc(Level(r, Low(opt, pes), High(opt, pes))))) + " min | "
    ensures Render(times, opt, pes, minIdx, maxIdx, interval).value[r][Indent..] == PlotGrid(opt, pes, minIdx, maxIdx).value[r]
  {
    var lo := Low(opt, pes);
    var hi := High(opt, pes);
    var g := PlotGrid(opt, pes, minIdx, maxIdx).value;
    assert Render(times, opt, pes, minIdx, maxIdx, interval).value[r] == ValueLine(RowLabel(r, lo, hi), g[r]);
    LevelBetween(r, lo, hi);
    TruncMonotone(lo, Level(r, lo, hi));
    TruncMonotone(Level(r, lo, hi), hi);
    ValueLineColumns(RowLabel(r, lo, hi), g[r]);
  }
}
