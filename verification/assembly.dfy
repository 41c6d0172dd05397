/**
  Step 5 of `run_cli` in `cli/driveplot_fast.py` (sorting the instants,
  keeping those where both traffic models succeeded) and the best/worst
  computation shared with `eta_series` in `mcp_server/server.py`.
 */
module Assembly {
  import opened Wrappers
  import opened Fetch
  import RetryEngine
  import Utils

  /** One kept departure: its instant and both durations in minutes. */
  datatype Point = Point(at: int, optimistic: real, pessimistic: real)

  /** What the assembly hands on: the kept points and `failed_count`. */
  datatype Assembled = Assembled(series: seq<Point>, skipped: nat)

  /** A non-empty set of instants has a least element. */
  lemma {:induction false} HasMinimum(s: set<int>)
    requires s != {}
    ensures exists m :: m in s && forall x :: x in s ==> m <= x
    decreases |s|
  {
    assert exists y :: y in s by {
      if forall y :: y !in s {
        assert false;
      }
    }
    var y :| y in s;
    if s != {y} {
      HasMinimum(s - {y});
      var m :| m in s - {y} && forall x :: x in s - {y} ==> m <= x;
      var b := if y < m then y else m;
      forall x | x in s ensures b <= x {
        if x != y {
          assert x in s - {y};
        }
      }
      assert b in s;
    } else {
      assert forall x :: x in s ==> y <= x;
    }
  }

  /** The least instant of a non-empty set. */
  function Least(s: set<int>): (m: int)
    requires s != {}
    ensures m in s && forall x :: x in s ==> m <= x
  {
    HasMinimum(s);
    var m :| m in s && forall x :: x in s ==> m <= x;
    m
  }

  /** `sorted(results.keys())`: the instants in ascending order, each once. */
  function SortedKeys(s: set<int>): (r: seq<int>)
    ensures Utils.StrictlyIncreasing(r)
    ensures forall x :: x in r <==> x in s
    ensures |r| == |s|
    decreases |s|
  {
    if s == {} then []
    else
      var m := Least(s);
      var rest := SortedKeys(s - {m});
      assert forall i :: 0 <= i < |rest| ==> m < rest[i] by {
        forall i | 0 <= i < |rest| ensures m < rest[i] {
          assert rest[i] in s - {m};
        }
      }
      [m] + rest
  }

  /** Successive departure instants of the series increase. */
  predicate InTimeOrder(series: seq<Point>) {
    forall i, j :: 0 <= i < j < |series| ==> series[i].at < series[j].at
  }

  /** The table holds both durations of `p` under `p`'s instant. */
  predicate Complete(table: RetryEngine.Table, k: int) {
    k in table && Optimistic in table[k] && Pessimistic in table[k]
  }

  /** The point of `series` is what the table holds for its instant. */
  predicate Agrees(table: RetryEngine.Table, p: Point) {
    Complete(table, p.at) && table[p.at][Optimistic] == p.optimistic && table[p.at][Pessimistic] == p.pessimistic
  }

  /**
    The loop over the sorted instants: a complete instant becomes a point,
    any other adds one to `failed_count`.
   */
  function Collect(table: RetryEngine.Table, keys: seq<int>): (a: Assembled)
    requires forall i :: 0 <= i < |keys| ==> keys[i] in table
    ensures |a.series| + a.skipped == |keys|
    ensures |a.series| <= |keys|
    decreases |keys|
  {
    if |keys| == 0 then Assembled([], 0)
    else
      var k := keys[0];
      var rest := Collect(table, keys[1..]);
      if Complete(table, k) then
        Assembled([Point(k, table[k][Optimistic], table[k][Pessimistic])] + rest.series, rest.skipped)
      else
        Assembled(rest.series, rest.skipped + 1)
  }

  /** Every kept point carries the stored durations of one of the instants looked at. */
  lemma {:induction false} CollectSound(table: RetryEngine.Table, keys: seq<int>)
    requires forall i :: 0 <= i < |keys| ==> keys[i] in table
    ensures forall p :: p in Collect(table, keys).series ==> Agrees(table, p) && p.at in keys
    decreases |keys|
  {
    if |keys| > 0 {
      CollectSound(table, keys[1..]);
    }
  }

  /** Every complete instant looked at is kept. */
  lemma {:induction false} CollectComplete(table: RetryEngine.Table, keys: seq<int>)
    requires forall i :: 0 <= i < |keys| ==> keys[i] in table
    ensures forall k :: k in keys && Complete(table, k) ==> exists p :: p in Collect(table, keys).series && p.at == k
    decreases |keys|
  {
    if |keys| > 0 {
      CollectComplete(table, keys[1..]);
      var a := Collect(table, keys);
      if Complete(table, keys[0]) {
        assert a.series[0].at == keys[0];
      }
      assert forall k :: k in keys <==> k == keys[0] || k in keys[1..];
    }
  }

  /** Instants looked at in ascending order give points in ascending order. */
  lemma {:induction false} CollectOrdered(table: RetryEngine.Table, keys: seq<int>)
    requires forall i :: 0 <= i < |keys| ==> keys[i] in table
    requires Utils.StrictlyIncreasing(keys)
    ensures InTimeOrder(Collect(table, keys).series)
    decreases |keys|
  {
    if |keys| > 0 {
      var rest := Collect(table, keys[1..]);
      CollectOrdered(table, keys[1..]);
      CollectSound(table, keys[1..]);
      forall q | q in rest.series ensures keys[0] < q.at {
        var i :| 0 <= i < |keys[1..]| && keys[1..][i] == q.at;
        assert keys[i + 1] == q.at;
      }
    }
  }

  /**
    The assembly of `run_cli`: the points are exactly the instants at which
    both models succeeded, in ascending time order and with the stored
    durations, and every other instant of the table is counted as skipped.
   */
  function Assemble(table: RetryEngine.Table): (a: Assembled)
    ensures InTimeOrder(a.series)
    ensures forall p :: p in a.series ==> Agrees(table, p)
    ensures forall k :: Complete(table, k) ==> exists p :: p in a.series && p.at == k
    ensures |a.series| + a.skipped == |table.Keys|
  {
    var keys := SortedKeys(table.Keys);
    CollectSound(table, keys);
    CollectComplete(table, keys);
    CollectOrdered(table, keys);
    Collect(table, keys)
  }

  /** `run_cli`'s early exit: status 1 when no point survives the filter. */
  function ExitStatus(a: Assembled): (code: int)
    ensures code == 1 <==> |a.series| == 0
    ensures code == 0 || code == 1
  {
    if |a.series| == 0 then 1 else 0
  }

  /** `(o + p) / 2`: the average of the two models at one point. */
  function Average(p: Point): real {
    (p.optimistic + p.pessimistic) / 2.0
  }

  /** `avg_min`: the averages in series order. */
  function Averages(series: seq<Point>): (avg: seq<real>)
    ensures |avg| == |series|
    ensures forall i :: 0 <= i < |series| ==> avg[i] == Average(series[i])
  {
    seq(|series|, i requires 0 <= i < |series| => Average(series[i]))
  }

  /** `min(a)`: the least value of a non-empty list. */
  function MinOf(a: seq<real>): (m: real)
    requires |a| > 0
    ensures m in a
    ensures forall j :: 0 <= j < |a| ==> m <= a[j]
  {
    if |a| == 1 then a[0]
    else
      var m := MinOf(a[1..]);
      assert forall j :: 1 <= j < |a| ==> a[j] == a[1..][j - 1];
      if a[0] <= m then a[0] else m
  }

  /** `max(a)`: the greatest value of a non-empty list. */
  function MaxOf(a: seq<real>): (m: real)
    requires |a| > 0
    ensures m in a
    ensures forall j :: 0 <= j < |a| ==> a[j] <= m
  {
    if |a| == 1 then a[0]
    else
      var m := MaxOf(a[1..]);
      assert forall j :: 1 <= j < |a| ==> a[j] == a[1..][j - 1];
      if a[0] >= m then a[0] else m
  }

  /** `a.index(v)`: the position of the first occurrence of `v`. */
  function IndexOf(a: seq<real>, v: real): (k: nat)
    requires v in a
    ensures k < |a| && a[k] == v
    ensures forall j :: 0 <= j < k ==> a[j] != v
  {
    if a[0] == v then 0
    else
      assert v in a[1..] by {
        var i :| 0 <= i < |a| && a[i] == v;
        assert a[1..][i - 1] == v;
      }
      var k := IndexOf(a[1..], v);
      assert forall j :: 1 <= j < k + 1 ==> a[j] == a[1..][j - 1];
      k + 1
  }

  /**
    `a.index(min(a))`: the first position holding the least value. No value
    is below it, and every value before it is strictly greater.
   */
  function FirstMinIndex(a: seq<real>): (k: nat)
    requires |a| > 0
    ensures k < |a|
    ensures forall j :: 0 <= j < |a| ==> a[k] <= a[j]
    ensures forall j :: 0 <= j < k ==> a[k] < a[j]
  {
    IndexOf(a, MinOf(a))
  }

  /**
    `a.index(max(a))`: the first position holding the greatest value. No
    value is above it, and every value before it is strictly smaller.
   */
  function FirstMaxIndex(a: seq<real>): (k: nat)
    requires |a| > 0
    ensures k < |a|
    ensures forall j :: 0 <= j < |a| ==> a[j] <= a[k]
    ensures forall j :: 0 <= j < k ==> a[j] < a[k]
  {
    IndexOf(a, MaxOf(a))
  }

  /** The first minimum is the only position with both properties: ties go to the earliest instant. */
  lemma FirstMinIndexUnique(a: seq<real>, k: nat)
    requires k < |a|
    requires forall j :: 0 <= j < |a| ==> a[k] <= a[j]
    requires forall j :: 0 <= j < k ==> a[k] < a[j]
    ensures FirstMinIndex(a) == k
  {
  }

  /** The first maximum is the only position with both properties: ties go to the earliest instant. */
  lemma FirstMaxIndexUnique(a: seq<real>, k: nat)
    requires k < |a|
    requires forall j :: 0 <= j < |a| ==> a[j] <= a[k]
    requires forall j :: 0 <= j < k ==> a[j] < a[k]
    ensures FirstMaxIndex(a) == k
  {
  }

  /** The worst average is never below the best one, so their difference is never negative. */
  lemma BestNotWorse(a: seq<real>)
    requires |a| > 0
    ensures a[FirstMinIndex(a)] <= a[FirstMaxIndex(a)]
    ensures a[FirstMaxIndex(a)] - a[FirstMinIndex(a)] >= 0.0
  {
  }
}
