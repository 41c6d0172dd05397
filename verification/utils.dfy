/**
  The sampling grid and the polite delay of `mcp_server/utils.py`.

  A grid instant is a wall-clock time on the chosen date, written as whole
  minutes since midnight. All instants of one grid share a single time zone,
  so adding the step and comparing with the end happen on the wall clock.
 */
module Utils {
  import opened Wrappers

  const MinutesPerHour: int := 60
  const MinutesPerDay: int := 1440

  /** The ValueErrors the grid construction raises. */
  datatype GridError =
    | InvalidClock   // `datetime(...)` rejects an hour outside 0..23 or a minute outside 0..59
    | InvalidRange   // "end must be after start"

  /** Minutes since midnight of the wall-clock time `h:m`, or None when `datetime` rejects it. */
  function ClockMinutes(h: int, m: int): (r: Option<int>)
    ensures r.Some? <==> 0 <= h < 24 && 0 <= m < 60
    ensures r.Some? ==> 0 <= r.value < MinutesPerDay && r.value == h * MinutesPerHour + m
    ensures r.Some? ==> r.value / MinutesPerHour == h && r.value % MinutesPerHour == m
  {
    if 0 <= h < 24 && 0 <= m < 60 then Some(h * MinutesPerHour + m) else None
  }

  /** The checked window `(start, end)`: both clock times valid and `start < end`. */
  function Window(sh: int, sm: int, eh: int, em: int): (r: Result<(int, int), GridError>)
    ensures r.Ok? <==> ClockMinutes(sh, sm).Some? && ClockMinutes(eh, em).Some?
                       && ClockMinutes(sh, sm).value < ClockMinutes(eh, em).value
    ensures r.Ok? ==> r.value == (ClockMinutes(sh, sm).value, ClockMinutes(eh, em).value)
    ensures r == Err(InvalidRange) <==> ClockMinutes(sh, sm).Some? && ClockMinutes(eh, em).Some?
                                        && ClockMinutes(eh, em).value <= ClockMinutes(sh, sm).value
  {
    match (ClockMinutes(sh, sm), ClockMinutes(eh, em))
    case (Some(s), Some(e)) => if e <= s then Err(InvalidRange) else Ok((s, e))
    case _ => Err(InvalidClock)
  }

  /** The sampling loop: `cursor`, `cursor + interval`, ... for as long as the cursor is `<= end`. */
  function Samples(cursor: int, end: int, interval: int): (r: seq<int>)
    requires interval > 0
    ensures |r| == if cursor > end then 0 else (end - cursor) / interval + 1
    ensures forall k :: 0 <= k < |r| ==> r[k] == cursor + k * interval
    ensures forall k :: 0 <= k < |r| ==> cursor <= r[k] <= end
    ensures |r| > 0 ==> r[0] == cursor && r[|r| - 1] + interval > end
    decreases end - cursor
  {
    if cursor > end then []
    else
      var rest := Samples(cursor + interval, end, interval);
      var r := [cursor] + rest;
      forall k | 0 < k < |r|
        ensures r[k] == cursor + k * interval
      {
        assert r[k] == rest[k - 1];
        NextStep(cursor, interval, k);
      }
      StepCount(end - cursor, interval);
      r
  }

  /** One step after `cursor`, then `k - 1` more, is `k` steps after `cursor`. */
  lemma NextStep(cursor: int, interval: int, k: int)
    ensures cursor + interval + (k - 1) * interval == cursor + k * interval
  {
    assert k * interval == (k - 1) * interval + interval;
  }

  /** One step fewer fits in a window that is one step shorter. */
  lemma StepCount(span: int, interval: int)
    requires span >= 0 && interval > 0
    ensures span - interval < 0 ==> span / interval == 0
    ensures span - interval >= 0 ==> (span - interval) / interval + 1 == span / interval
  {
    if span - interval < 0 {
      DivUnique(span, interval, 0, span);
    } else {
      var q := (span - interval) / interval;
      var m := (span - interval) % interval;
      assert span - interval == q * interval + m;
      assert span == (q + 1) * interval + m;
      DivUnique(span, interval, q + 1, m);
    }
  }

  /** Euclidean division has a single quotient. */
  lemma DivUnique(a: int, b: int, q: int, m: int)
    requires b > 0 && 0 <= m < b && a == q * b + m
    ensures a / b == q
  {
    var q' := a / b;
    var m' := a % b;
    assert (q - q') * b == m' - m;
    if q > q' {
      MulAtLeast(q - q', b);
    } else if q < q' {
      MulAtLeast(q' - q, b);
    }
  }

  lemma MulAtLeast(x: int, b: int)
    requires x >= 1 && b > 0
    ensures x * b >= b
  {
    assert x * b == (x - 1) * b + b;
    assert (x - 1) * b >= 0;
  }

  /**
    `minute_grid`: the instants from `start` to `end` inclusive at the given
    step. A bad clock time or a window with `end <= start` raises before any
    instant is produced. A step that is not positive never lets the loop end,
    so a caller whose window is valid must pass a positive step.
   */
  function MinuteGrid(sh: int, sm: int, eh: int, em: int, interval: int): (r: Result<seq<int>, GridError>)
    requires interval > 0 || Window(sh, sm, eh, em).Err?
    ensures r.Err? <==> Window(sh, sm, eh, em).Err?
    ensures r.Err? ==> r.error == Window(sh, sm, eh, em).error
    ensures r.Ok? ==>
      var start := sh * MinutesPerHour + sm;
      var end := eh * MinutesPerHour + em;
      && |r.value| == (end - start) / interval + 1
      && r.value[0] == start
      && (forall k :: 0 <= k < |r.value| ==> r.value[k] == start + k * interval)
      && (forall k :: 0 <= k < |r.value| ==> start <= r.value[k] <= end < MinutesPerDay)
      && r.value[|r.value| - 1] + interval > end
  {
    match Window(sh, sm, eh, em)
    case Err(e) => Err(e)
    case Ok((start, end)) => Ok(Samples(start, end, interval))
  }

  /** Every grid instant lies strictly after the ones before it. */
  predicate StrictlyIncreasing(s: seq<int>) {
    forall i, j :: 0 <= i < j < |s| ==> s[i] < s[j]
  }

  /** Every grid instant is a wall-clock minute of the date. */
  predicate WithinDay(s: seq<int>) {
    forall i :: 0 <= i < |s| ==> 0 <= s[i] < MinutesPerDay
  }

  /** A successful grid is non-empty, strictly increasing and within one day. */
  lemma MinuteGridShape(sh: int, sm: int, eh: int, em: int, interval: int)
    requires interval > 0
    requires MinuteGrid(sh, sm, eh, em, interval).Ok?
    ensures var g := MinuteGrid(sh, sm, eh, em, interval).value;
      |g| >= 1 && StrictlyIncreasing(g) && WithinDay(g)
  {
    var g := MinuteGrid(sh, sm, eh, em, interval).value;
    var start := sh * MinutesPerHour + sm;
    forall i, j | 0 <= i < j < |g| ensures g[i] < g[j] {
      assert g[j] - g[i] == (j - i) * interval;
      MulAtLeast(j - i, interval);
    }
  }

  /** `sleep_backoff(i)`: a delay of `0.25 * i` seconds, capped at two seconds. */
  function SleepBackoff(i: nat): (r: real)
    ensures 0.0 <= r <= 2.0
    ensures i <= 8 ==> r == 0.25 * i as real
    ensures i >= 8 ==> r == 2.0
  {
    if 0.25 * i as real <= 2.0 then 0.25 * i as real else 2.0
  }

  /** The delay never shrinks as the call counter grows. */
  lemma SleepBackoffMonotone(i: nat, j: nat)
    requires i <= j
    ensures SleepBackoff(i) <= SleepBackoff(j)
  {
  }
}
