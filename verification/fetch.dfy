/**
  `fetch_single_eta` of `cli/driveplot_fast.py`: one (instant, traffic model)
  query with local retries and a growing pause between tries.

  The directions call is an oracle. Origin and destination are the same for
  every task of a run, so a task names only its departure instant and its
  traffic model.
 */
module Fetch {
  import opened Wrappers

  /** The two traffic models the drive-time code asks for. */
  datatype TrafficModel = Optimistic | Pessimistic

  /** One unit of work: departure instant (minutes since midnight) and traffic model. */
  datatype Task = Task(at: int, model: TrafficModel)

  /**
    What the directions call does on try `attempt` (from 0) of `task` during
    retry round `round` (from 1): a duration in minutes, already rounded as
    the source rounds it, or None when the call raises.
   */
  type Oracle = (Task, nat, nat) -> Option<real>

  /** The pause unit in seconds between two tries of the same task. */
  const BackoffBase: real := 0.5

  /** The pause after the failed try `attempt`: `(attempt + 1) * 0.5` seconds. */
  function RetryWait(attempt: nat): real {
    (attempt + 1) as real * BackoffBase
  }

  /** The value a fetch returns, together with the pauses it slept through. */
  datatype Fetched = Fetched(task: Task, duration: Option<real>, waits: seq<real>)

  /**
    The tries from `attempt` up to `maxRetries - 1`. The pauses taken are as
    many as the failed tries that are followed by another try.
   */
  function Attempts(o: Oracle, t: Task, round: nat, attempt: nat, maxRetries: nat): (r: (Option<real>, seq<real>))
    requires attempt < maxRetries
    ensures r.0.Some? ==>
      && attempt + |r.1| < maxRetries
      && o(t, round, attempt + |r.1|) == r.0
      && forall a :: attempt <= a < attempt + |r.1| ==> o(t, round, a).None?
    ensures r.0.None? ==>
      && attempt + |r.1| == maxRetries - 1
      && forall a :: attempt <= a < maxRetries ==> o(t, round, a).None?
    ensures forall j :: 0 <= j < |r.1| ==> r.1[j] == RetryWait(attempt + j)
    decreases maxRetries - attempt
  {
    match o(t, round, attempt)
    case Some(d) => (Some(d), [])
    case None =>
      if attempt < maxRetries - 1 then
        var rest := Attempts(o, t, round, attempt + 1, maxRetries);
        (rest.0, [RetryWait(attempt)] + rest.1)
      else
        (None, [])
  }

  /**
    `fetch_single_eta`: at most `maxRetries` tries, the value of the first
    one that succeeds, a pause of `(k + 1) * 0.5` seconds after the failed
    try k unless it was the last, and None only when every try failed.
    With `maxRetries < 1` the source returns a bare None that its caller
    cannot unpack, so callers must allow at least one try.
   */
  function FetchSingleEta(o: Oracle, t: Task, round: nat, maxRetries: nat): (r: Fetched)
    requires maxRetries >= 1
    ensures r.task == t
    ensures r.duration.Some? <==> exists a :: 0 <= a < maxRetries && o(t, round, a).Some?
    ensures r.duration.Some? ==>
      && |r.waits| < maxRetries
      && r.duration == o(t, round, |r.waits|)
      && forall a :: 0 <= a < |r.waits| ==> o(t, round, a).None?
    ensures r.duration.None? ==>
      && |r.waits| == maxRetries - 1
      && forall a :: 0 <= a < maxRetries ==> o(t, round, a).None?
    ensures forall j :: 0 <= j < |r.waits| ==> r.waits[j] == (j + 1) as real * 0.5
  {
    var (d, waits) := Attempts(o, t, round, 0, maxRetries);
    Fetched(t, d, waits)
  }
}
