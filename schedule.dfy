/** The worker's timing: the tick interval, the sleep floor and the watchdog
    that restarts the capture process. Times are integer milliseconds read
    from a clock the caller supplies. */
module Schedule {

  /** `INTERVAL`: the capture period and the tick period, 2 s. */
  const IntervalMs := 2000

  /** The shortest sleep between two ticks, 0.2 s. */
  const MinSleepMs := 200

  /** The watchdog restarts the capture process once it is older than 15 minutes. */
  const RestartAfterMs := 15 * 60 * 1000

  /** How long the loop sleeps after a tick whose work took `spentMs`:
      never below the floor, and the rest of the interval when that is longer. */
  function SleepMillis(spentMs: int): (d: int)
    ensures d >= MinSleepMs && d >= IntervalMs - spentMs
    ensures d == MinSleepMs || d == IntervalMs - spentMs
  {
    if IntervalMs - spentMs > MinSleepMs then IntervalMs - spentMs else MinSleepMs
  }

  /** The watchdog's test: strictly more than the threshold has elapsed since
      the capture process was started at `proctime`. */
  predicate RestartDue(now: int, proctime: int)
    ensures RestartDue(now, proctime) ==> now > proctime
  {
    now - proctime > RestartAfterMs
  }

  /** The clock readings, among the successive watchdog checks `checks`, at
      which the watchdog restarts a process first started at `start`. */
  function Restarts(start: int, checks: seq<int>): (r: seq<int>)
    ensures |r| <= |checks|
    ensures forall i :: 0 <= i < |r| ==> r[i] in checks
    decreases |checks|
  {
    if checks == [] then []
    else if RestartDue(checks[0], start) then [checks[0]] + Restarts(checks[0], checks[1..])
    else Restarts(start, checks[1..])
  }

  /** When the running process was started, after the checks `checks`: at the
      first start, or at one of the checks, more than the threshold later. */
  function StartedAt(start: int, checks: seq<int>): (t: int)
    ensures t == start || (t in checks && t - start > RestartAfterMs)
    decreases |checks|
  {
    if checks == [] then start
    else if RestartDue(checks[0], start) then StartedAt(checks[0], checks[1..])
    else StartedAt(start, checks[1..])
  }

  /** One more watchdog check: the process is restarted at `now` when it is
      due and otherwise keeps its start time. */
  lemma {:induction false} StartedAtNext(start: int, checks: seq<int>, now: int)
    ensures StartedAt(start, checks + [now])
      == if RestartDue(now, StartedAt(start, checks)) then now else StartedAt(start, checks)
    decreases |checks|
  {
    if checks != [] {
      assert (checks + [now])[1..] == checks[1..] + [now];
      StartedAtNext(if RestartDue(checks[0], start) then checks[0] else start, checks[1..], now);
    }
  }

  /** One more watchdog check: it adds `now` to the restarts exactly when a
      restart is due. */
  lemma {:induction false} RestartsNext(start: int, checks: seq<int>, now: int)
    ensures Restarts(start, checks + [now])
      == Restarts(start, checks) + if RestartDue(now, StartedAt(start, checks)) then [now] else []
    decreases |checks|
  {
    if checks != [] {
      assert (checks + [now])[1..] == checks[1..] + [now];
      var next := if RestartDue(checks[0], start) then checks[0] else start;
      RestartsNext(next, checks[1..], now);
      if RestartDue(checks[0], start) {
        var tail := if RestartDue(now, StartedAt(next, checks[1..])) then [now] else [];
        assert [checks[0]] + (Restarts(next, checks[1..]) + tail)
          == [checks[0]] + Restarts(next, checks[1..]) + tail;
      }
    }
  }

  /** Consecutive start times lie more than the threshold apart. */
  predicate Spaced(starts: seq<int>)
  {
    forall i :: 0 <= i < |starts| - 1 ==> starts[i + 1] - starts[i] > RestartAfterMs
  }

  /** Restarts are spaced: the first comes more than the threshold after the
      initial start, and each later one more than the threshold after the one
      before it. The watchdog never restarts a process that is not yet due. */
  lemma {:induction false} RestartsSpaced(start: int, checks: seq<int>)
    ensures Spaced([start] + Restarts(start, checks))
    decreases |checks|
  {
    if checks != [] && RestartDue(checks[0], start) {
      RestartsSpaced(checks[0], checks[1..]);
      var tail := [checks[0]] + Restarts(checks[0], checks[1..]);
      var r := [start] + Restarts(start, checks);
      assert r == [start] + tail;
      forall i | 0 <= i < |r| - 1
        ensures r[i + 1] - r[i] > RestartAfterMs
      {
        if i > 0 {
          assert r[i] == tail[i - 1] && r[i + 1] == tail[i];
        }
      }
      assert Spaced(r);
    } else if checks != [] {
      RestartsSpaced(start, checks[1..]);
    }
  }

  /** The last restart (or the initial start when there was none) is when the
      running process was started. */
  lemma {:induction false} StartedAtLastRestart(start: int, checks: seq<int>)
    ensures var r := [start] + Restarts(start, checks); StartedAt(start, checks) == r[|r| - 1]
    decreases |checks|
  {
    if checks != [] {
      StartedAtLastRestart(if RestartDue(checks[0], start) then checks[0] else start, checks[1..]);
    }
  }

  /** Right after any watchdog check, the running process is at most 15 minutes old. */
  lemma {:induction false} AgeBounded(start: int, checks: seq<int>)
    requires checks != []
    ensures checks[|checks| - 1] - StartedAt(start, checks) <= RestartAfterMs
    decreases |checks|
  {
    if |checks| > 1 {
      AgeBounded(if RestartDue(checks[0], start) then checks[0] else start, checks[1..]);
    }
  }
}
