/**
 `TimeCountPolicy`: a counter of calls in windows of fixed length.
 */
module TimeCount {

  /** The two fields that change. */
  datatype Window = Window(begin: int, count: int)

  /** A window starts afresh when it has run out, and also as long as nothing is counted. */
  predicate Starts(w: Window, period: int, now: int) {
    w.count == 0 || now - w.begin >= period
  }

  function Counted(w: Window, period: int, now: int, num: int): Window {
    if Starts(w, period, now) then Window(now, num) else Window(w.begin, w.count + num)
  }

  predicate Admits(w: Window, period: int, max: int, now: int, num: int) {
    Starts(w, period, now) || w.count + num <= max
  }

  class TimeCountPolicy {
    var timePeriod: int
    var maxCount: int
    var beginTimestamp: int
    var currentCount: int

    ghost function State(): Window
      reads this
    {
      Window(beginTimestamp, currentCount)
    }

    constructor (timePeriod: int, maxCount: int, now: int)
      ensures this.timePeriod == timePeriod && this.maxCount == maxCount && State() == Window(now, 0)
    {
      this.timePeriod, this.maxCount, beginTimestamp, currentCount := timePeriod, maxCount, now, 0;
    }

    method Init(timePeriod: int, maxCount: int, now: int)
      modifies this
      ensures this.timePeriod == timePeriod && this.maxCount == maxCount && State() == Window(now, 0)
    {
      this.timePeriod, this.maxCount, beginTimestamp, currentCount := timePeriod, maxCount, now, 0;
    }

    /** A call that is refused is counted like any other. */
    method IncreaseCount(num: int, now: int) returns (ret: int)
      modifies `beginTimestamp, `currentCount
      ensures State() == Counted(old(State()), timePeriod, now, num)
      ensures ret == if old(Admits(State(), timePeriod, maxCount, now, num)) then 0 else -1
    {
      ret := 0;
      if currentCount == 0 || now - beginTimestamp >= timePeriod {
        beginTimestamp := now;
        currentCount := num;
      } else {
        currentCount := currentCount + num;
        if currentCount > maxCount {
          ret := -1;
        }
      }
    }
  }

  // ----- runs of single calls -----

  predicate Nondecreasing(times: seq<int>) {
    forall i, j | 0 <= i <= j < |times| :: times[i] <= times[j]
  }

  /** The state after single calls at `times`, from one in which nothing is counted. */
  function After(times: seq<int>, period: int, created: int): Window {
    if times == [] then Window(created, 0)
    else
      var n := |times| - 1;
      Counted(After(times[..n], period, created), period, times[n], 1)
  }

  /** Whether call `i` of a run is accepted. */
  predicate Accepted(times: seq<int>, period: int, max: int, created: int, i: nat)
    requires i < |times|
  {
    Admits(After(times[..i], period, created), period, max, times[i], 1)
  }

  /** The call that starts the window of call `i`: the first call, and every call at least
      `period` after the start of the window before it. */
  function Start(times: seq<int>, period: int, i: nat): (r: nat)
    requires i < |times|
    ensures r <= i
  {
    if i == 0 then 0
    else
      var s := Start(times, period, i - 1);
      if times[i] - times[s] >= period then i else s
  }

  function Quota(max: int): nat {
    if max < 1 then 1 else max
  }

  lemma {:induction false} StartOfPrefix(times: seq<int>, period: int, i: nat, n: nat)
    requires i < n <= |times|
    ensures Start(times[..n], period, i) == Start(times, period, i)
  {
    if i > 0 { StartOfPrefix(times, period, i - 1, n); }
  }

  /** The counter holds where the current window began and how many calls it has seen. */
  lemma {:induction false} RunIsWindows(times: seq<int>, period: int, created: int)
    ensures times != [] ==>
      var i := |times| - 1;
      var s := Start(times, period, i);
      After(times, period, created) == Window(times[s], i - s + 1)
  {
    if |times| > 1 {
      var n := |times| - 1;
      RunIsWindows(times[..n], period, created);
      StartOfPrefix(times, period, n - 1, n);
    }
  }

  /** Each window accepts exactly its first `max(1, max)` calls. */
  lemma AcceptedIff(times: seq<int>, period: int, max: int, created: int, i: nat)
    requires i < |times|
    ensures Accepted(times, period, max, created, i) <==> i - Start(times, period, i) < Quota(max)
  {
    RunIsWindows(times[..i], period, created);
    if i > 0 { StartOfPrefix(times, period, i - 1, i); }
  }

  predicate IsStart(times: seq<int>, period: int, i: nat)
    requires i < |times|
  {
    Start(times, period, i) == i
  }

  lemma {:induction false} StartIsStart(times: seq<int>, period: int, i: nat)
    requires i < |times|
    ensures IsStart(times, period, Start(times, period, i))
    ensures forall j | Start(times, period, i) <= j <= i :: Start(times, period, j) == Start(times, period, i)
  {
    if i > 0 { StartIsStart(times, period, i - 1); }
  }

  /** Windows start at least `period` apart. */
  lemma StartsApart(times: seq<int>, period: int, i: nat, j: nat)
    requires Nondecreasing(times) && i < j < |times| && IsStart(times, period, i) && IsStart(times, period, j)
    ensures times[j] - times[i] >= period
  {
    var s := Start(times, period, j - 1);
    StartIsStart(times, period, j - 1);
    assert s <= i ==> Start(times, period, i) == s;
  }

  // ----- the bound over any interval -----

  predicate Within(t: int, period: int, x: int) {
    t <= x < t + period
  }

  /** How many of the first `n` calls fall into `[t, t + period)` and are accepted. */
  function AcceptedWithin(times: seq<int>, period: int, max: int, created: int, t: int, n: nat): nat
    requires n <= |times|
  {
    if n == 0 then 0
    else
      AcceptedWithin(times, period, max, created, t, n - 1)
      + if Within(t, period, times[n - 1]) && Accepted(times, period, max, created, n - 1) then 1 else 0
  }

  /** One window contributes no more than its quota, and one less when it began before the
      interval. */
  lemma {:induction false} WindowWithin(times: seq<int>, period: int, max: int, created: int, t: int, i: nat)
    requires i < |times|
    ensures var s := Start(times, period, i);
      AcceptedWithin(times, period, max, created, t, i + 1) - AcceptedWithin(times, period, max, created, t, s)
        <= (if i - s + 1 < Quota(max) then i - s + 1 else Quota(max)) - (if times[s] < t then 1 else 0)
  {
    hide Accepted;
    AcceptedIff(times, period, max, created, i);
    if Start(times, period, i) < i { WindowWithin(times, period, max, created, t, i - 1); }
  }

  /** Nothing counts before the interval has begun. */
  lemma {:induction false} NoneBefore(times: seq<int>, period: int, max: int, created: int, t: int, n: nat)
    requires Nondecreasing(times) && n < |times| && times[n] < t
    ensures AcceptedWithin(times, period, max, created, t, n) == 0
  {
    if n > 0 { NoneBefore(times, period, max, created, t, n - 1); }
  }

  lemma {:induction false} WithinOfPrefix(times: seq<int>, more: seq<int>, period: int, max: int, created: int,
                                          t: int, n: nat)
    requires n <= |times|
    ensures AcceptedWithin(times + more, period, max, created, t, n)
         == AcceptedWithin(times, period, max, created, t, n)
  {
    if n > 0 {
      WithinOfPrefix(times, more, period, max, created, t, n - 1);
      assert (times + more)[..n - 1] == times[..n - 1];
    }
  }

  /** Any interval as long as the period has fewer accepted calls than twice the quota. */
  lemma {:induction false} TwoWindowBound(times: seq<int>, period: int, max: int, created: int, t: int, n: nat)
    requires Nondecreasing(times) && n <= |times|
    ensures AcceptedWithin(times, period, max, created, t, n) < 2 * Quota(max)
  {
    hide Accepted, Start;
    if n == 0 {
    } else if !Within(t, period, times[n - 1]) {
      TwoWindowBound(times, period, max, created, t, n - 1);
    } else {
      var s := Start(times, period, n - 1);
      WindowWithin(times, period, max, created, t, n - 1);
      if times[s] < t {
        NoneBefore(times, period, max, created, t, s);
      } else if s > 0 {
        var r := Start(times, period, s - 1);
        StartIsStart(times, period, n - 1);
        StartIsStart(times, period, s - 1);
        StartsApart(times, period, r, s);
        WindowWithin(times, period, max, created, t, s - 1);
        NoneBefore(times, period, max, created, t, r);
      }
    }
  }

  /** One call at 0, `max - 1` calls just before the first window ends, `max` calls just after
      it. */
  function Burst(period: int, max: nat): seq<int> {
    seq(2 * max, i requires 0 <= i < 2 * max => if i == 0 then 0 else if i < max then period - 1 else period)
  }

  lemma {:induction false} BurstStarts(period: int, max: nat, i: nat)
    requires 2 <= period && 1 <= max && i < 2 * max
    ensures Start(Burst(period, max), period, i) == if i < max then 0 else max
  {
    if i > 0 { BurstStarts(period, max, i - 1); }
  }

  lemma {:induction false} BurstWithin(period: int, max: nat, created: int, n: nat)
    requires 2 <= period && 1 <= max && 1 <= n <= 2 * max
    ensures AcceptedWithin(Burst(period, max), period, max, created, 1, n) == n - 1
  {
    hide Accepted;
    if n > 1 {
      BurstWithin(period, max, created, n - 1);
      BurstStarts(period, max, n - 1);
      AcceptedIff(Burst(period, max), period, max, created, n - 1);
    }
  }

  /** The bound cannot be improved for any quota. */
  lemma TwoWindowBoundIsTight(period: int, max: nat, created: int)
    requires 2 <= period && 1 <= max
    ensures Nondecreasing(Burst(period, max))
    ensures AcceptedWithin(Burst(period, max), period, max, created, 1, 2 * max) == 2 * Quota(max) - 1
  {
    BurstWithin(period, max, created, 2 * max);
  }
}
