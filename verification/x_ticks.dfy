/**
  The tick marks under both charts (`cli/driveplot_fast.py` and the
  matplotlib branch of `eta_series` in `mcp_server/server.py` derive them the
  same way): a tick every half hour of samples, labelled with the hour only
  at the top of an hour.
 */
module XTicks {
  import Utils
  import Text
  import TextPlot

  /** `max(1, 30 // interval)`: the number of samples between two ticks. */
  function TickStep(interval: int): (step: int)
    requires interval > 0
    ensures step >= 1
    ensures interval <= 30 ==> step * interval <= 30 < (step + 1) * interval
    ensures interval > 30 ==> step == 1
  {
    var q := 30 / interval;
    if q >= 1 then q else 1
  }

  /** `list(range(0, n, step))`. */
  function TickPositions(n: nat, step: int): (ps: seq<int>)
    requires step >= 1
    ensures forall k :: 0 <= k < |ps| ==> ps[k] == k * step && 0 <= ps[k] < n
    ensures forall x :: 0 <= x < n && x % step == 0 ==> x in ps
  {
    var ps := Utils.Samples(0, n - 1, step);
    forall x | 0 <= x < n && x % step == 0 ensures x in ps {
      MultipleListed(n, step, x);
    }
    ps
  }

  /** A multiple of the step below `n` is one of the sampled positions. */
  lemma MultipleListed(n: nat, step: int, x: int)
    requires step >= 1 && 0 <= x < n && x % step == 0
    ensures x in Utils.Samples(0, n - 1, step)
  {
    var ps := Utils.Samples(0, n - 1, step);
    var k := x / step;
    assert x == k * step;
    Utils.StepCount(n - 1, step);
    DivMonotone(x, n - 1, step);
    assert ps[k] == x;
  }

  /** Integer division by a positive number keeps the order. */
  lemma DivMonotone(a: int, b: int, d: int)
    requires 0 <= a <= b && d > 0
    ensures a / d <= b / d
  {
    if a / d > b / d {
      Utils.MulAtLeast(a / d - b / d, d);
      assert false;
    }
  }

  /** `hour.lstrip('0') or '0'` when `minute == '00'`, the empty label otherwise. */
  function TickLabel(t: int): string
    requires 0 <= t < Utils.MinutesPerDay
  {
    if Text.MinuteField(t) == "00" then Text.HourLabel(Text.HourField(t)) else ""
  }

  /** A tick is labelled exactly at the top of an hour. */
  lemma TickLabelWhen(t: int)
    requires 0 <= t < Utils.MinutesPerDay
    ensures TickLabel(t) != "" <==> t % Utils.MinutesPerHour == 0
  {
    Text.OnTheHour(t);
    if Text.MinuteField(t) == "00" {
      Text.HourLabelIsDecimal(t);
    }
  }

  /**
    The label is the hour's number without leading zeros (midnight reads
    "0"), the same text the text plot puts on its own axis.
   */
  lemma TickLabelText(t: int)
    requires 0 <= t < Utils.MinutesPerDay
    ensures TickLabel(t) != "" ==> TickLabel(t) == Text.NatToDecimal(t / Utils.MinutesPerHour)
    ensures TickLabel(t) == TextPlot.HourMark(t)
  {
    Text.HourLabelIsDecimal(t);
    var hh := Text.HourField(t);
    if Text.MinuteField(t) == "00" {
      assert TickLabel(t) == Text.HourLabel(hh);
      assert TextPlot.HourMark(t) == Text.NatToDecimal(Text.DecimalValue(hh));
    } else {
      assert TickLabel(t) == "";
      assert TextPlot.HourMark(t) == "";
    }
  }

  /** The first hour of the day is labelled "0" rather than left blank. */
  lemma MidnightLabel()
    ensures TickLabel(0) == "0"
  {
    TickLabelWhen(0);
    TickLabelText(0);
    assert Text.NatToDecimal(0) == "0";
  }

  /**
    `text` is the right label for a tick at `t`: present exactly at the top
    of an hour, and then the hour's number.
   */
  predicate LabelFor(t: int, text: string)
    requires 0 <= t
  {
    && (text != "" <==> t % Utils.MinutesPerHour == 0)
    && (text != "" ==> text == Text.NatToDecimal(t / Utils.MinutesPerHour))
  }

  /** Every tick label is the right one. */
  lemma TickLabelMeaning(t: int)
    requires 0 <= t < Utils.MinutesPerDay
    ensures LabelFor(t, TickLabel(t))
  {
    TickLabelWhen(t);
    TickLabelText(t);
  }

  /** The ticks of a chart: where they go and what they say. */
  datatype Ticks = Ticks(positions: seq<int>, labels: seq<string>)

  /** The labels of the ticks at positions `ps`. */
  function TickLabels(times: seq<int>, ps: seq<int>): (labels: seq<string>)
    requires Utils.WithinDay(times)
    requires forall k :: 0 <= k < |ps| ==> 0 <= ps[k] < |times|
    ensures |labels| == |ps|
    ensures forall k :: 0 <= k < |ps| ==> LabelFor(times[ps[k]], labels[k])
  {
    var labels := seq(|ps|, k requires 0 <= k < |ps| => TickLabel(times[ps[k]]));
    TickLabelsMeaning(times, ps, labels);
    labels
  }

  /** Each label of the list is the right one for its tick. */
  lemma TickLabelsMeaning(times: seq<int>, ps: seq<int>, labels: seq<string>)
    requires Utils.WithinDay(times)
    requires forall k :: 0 <= k < |ps| ==> 0 <= ps[k] < |times|
    requires |labels| == |ps| && forall k :: 0 <= k < |ps| ==> labels[k] == TickLabel(times[ps[k]])
    ensures forall k :: 0 <= k < |ps| ==> LabelFor(times[ps[k]], labels[k])
  {
    forall k | 0 <= k < |ps| ensures LabelFor(times[ps[k]], labels[k]) {
      TickLabelMeaning(times[ps[k]]);
    }
  }

  /** The tick positions and labels for samples `times` taken every `interval` minutes. */
  function MakeTicks(times: seq<int>, interval: int): (r: Ticks)
    requires interval > 0 && Utils.WithinDay(times)
    ensures |r.labels| == |r.positions|
    ensures forall k :: 0 <= k < |r.positions| ==> r.positions[k] == k * TickStep(interval) && 0 <= r.positions[k] < |times|
    ensures forall x :: 0 <= x < |times| && x % TickStep(interval) == 0 ==> x in r.positions
    ensures forall k :: 0 <= k < |r.positions| ==> LabelFor(times[r.positions[k]], r.labels[k])
  {
    var ps := TickPositions(|times|, TickStep(interval));
    Ticks(ps, TickLabels(times, ps))
  }

  /**
    On a grid of `interval` minutes that divides half an hour, the ticks fall
    exactly every thirty minutes from the first sample; so when the grid
    starts on the hour, every other tick carries an hour label.
   */
  lemma HalfHourTicks(times: seq<int>, interval: int)
    requires interval > 0 && 30 % interval == 0 && Utils.WithinDay(times) && |times| > 0
    requires forall j :: 0 <= j < |times| ==> times[j] == times[0] + j * interval
    ensures var r := MakeTicks(times, interval);
      forall k :: 0 <= k < |r.positions| ==> times[r.positions[k]] == times[0] + 30 * k
    ensures times[0] % Utils.MinutesPerHour == 0 ==>
      var r := MakeTicks(times, interval);
      forall k :: 0 <= k < |r.positions| ==> (r.labels[k] != "" <==> k % 2 == 0)
  {
    var r := MakeTicks(times, interval);
    forall k | 0 <= k < |r.positions|
      ensures times[r.positions[k]] == times[0] + 30 * k
      ensures times[0] % Utils.MinutesPerHour == 0 ==> (r.labels[k] != "" <==> k % 2 == 0)
    {
      HalfHourTick(times, interval, r, k);
    }
  }

  /** The `k`-th tick of such a grid: its instant and whether it is labelled. */
  lemma HalfHourTick(times: seq<int>, interval: int, r: Ticks, k: nat)
    requires interval > 0 && 30 % interval == 0 && Utils.WithinDay(times) && |times| > 0
    requires forall j :: 0 <= j < |times| ==> times[j] == times[0] + j * interval
    requires r == MakeTicks(times, interval) && k < |r.positions|
    ensures times[r.positions[k]] == times[0] + 30 * k
    ensures times[0] % Utils.MinutesPerHour == 0 ==> (r.labels[k] != "" <==> k % 2 == 0)
  {
    var p := r.positions[k];
    TickInstant(times[0], interval, p, k, times[p]);
    if times[0] % Utils.MinutesPerHour == 0 {
      TickLabelParity(times[0], k, times[p], r.labels[k]);
    }
  }

  /** The instant of the `k`-th tick is `k` half hours after the first sample. */
  lemma TickInstant(t0: int, interval: int, p: int, k: nat, tp: int)
    requires interval > 0 && 30 % interval == 0
    requires p == k * TickStep(interval) && tp == t0 + p * interval
    ensures tp == t0 + 30 * k
  {
    HalfHourStep(interval, k);
  }

  /** A tick `k` half hours after a start on the hour is labelled exactly when `k` is even. */
  lemma TickLabelParity(t0: int, k: nat, tp: int, text: string)
    requires t0 % Utils.MinutesPerHour == 0 && tp == t0 + 30 * k && 0 <= tp
    requires LabelFor(tp, text)
    ensures text != "" <==> k % 2 == 0
  {
    HalfHoursOnTheHour(t0, k);
  }

  /** `k` ticks of a step dividing half an hour span `k` half hours. */
  lemma HalfHourStep(interval: int, k: int)
    requires interval > 0 && 30 % interval == 0
    ensures (k * TickStep(interval)) * interval == 30 * k
  {
    var step := TickStep(interval);
    assert step * interval == 30;
    assert (k * step) * interval == k * (step * interval);
  }

  /** From a start on the hour, `k` half hours later is on the hour exactly for even `k`. */
  lemma HalfHoursOnTheHour(start: int, k: int)
    requires start % 60 == 0 && k >= 0
    ensures (start + 30 * k) % 60 == 0 <==> k % 2 == 0
  {
    var q := start / 60;
    assert start == 60 * q;
    if k % 2 == 0 {
      assert start + 30 * k == 60 * (q + k / 2);
    } else {
      assert start + 30 * k == 60 * (q + k / 2) + 30;
    }
  }
}
