/**
 `SwitchKeyStats`: the requests and errors of one key in windows of fixed length, and the
 latch that asks for a switch to another data centre.
 */
module SwitchStats {

  datatype Conf = Conf(keyId: string, interval: int, threshold: int, ratio: int, errorCodes: set<int>)

  datatype Stats = Stats(begin: int, requests: int, errors: int, latched: bool)

  datatype Event = Request(time: int) | Error(time: int) | Reset(time: int)

  /** Enough requests, and the success ratio in percent, which is not counted below zero, is
      at most the minimum. */
  predicate Failing(conf: Conf, requests: int, errors: int) {
    requests >= conf.threshold && AtMost(requests, errors, conf.ratio)
  }

  predicate AtMost(requests: int, errors: int, minimum: int) {
    if errors > requests then 0 <= minimum else (requests - errors) * 100 <= minimum * requests
  }

  function Step(conf: Conf, s: Stats, e: Event): Stats {
    match e
    case Reset(now) => Stats(now, 0, 0, false)
    case Request(now) =>
      if s.latched then s
      else if now - s.begin < conf.interval then s.(requests := s.requests + 1)
      else Stats(now, 1, 0, false)
    case Error(now) =>
      if s.latched then s
      else if now - s.begin < conf.interval then
        var requests, errors := if s.requests == 0 then 1 else s.requests, if s.requests == 0 then 1 else s.errors + 1;
        Stats(s.begin, requests, errors, Failing(conf, requests, errors))
      else Stats(now, 1, 1, false)
  }

  class SwitchKeyStats {
    var beginTimestamp: int
    var requests: int
    var errors: int
    var toBeSwitched: bool
    const timeInterval: int
    const minimalRequestThreshold: int
    const minimalSuccRatio: int
    const errcodeList: set<int>
    const keyId: string

    ghost function State(): Stats
      reads this
    {
      Stats(beginTimestamp, requests, errors, toBeSwitched)
    }

    ghost function Configured(): Conf {
      Conf(keyId, timeInterval, minimalRequestThreshold, minimalSuccRatio, errcodeList)
    }

    constructor (conf: Conf, now: int)
      ensures State() == Stats(now, 0, 0, false) && Configured() == conf
    {
      beginTimestamp, requests, errors, toBeSwitched := now, 0, 0, false;
      keyId, timeInterval, minimalRequestThreshold := conf.keyId, conf.interval, conf.threshold;
      minimalSuccRatio, errcodeList := conf.ratio, conf.errorCodes;
    }

    method IncrementRequests(now: int)
      modifies this
      ensures State() == Step(Configured(), old(State()), Request(now))
    {
      if now - beginTimestamp < timeInterval {
        if !toBeSwitched {
          requests := requests + 1;
        }
      } else {
        if !toBeSwitched {
          requests := 1;
          errors := 0;
          beginTimestamp := now;
        }
      }
    }

    /** The percentage of requests without an error, not counted below zero. The request count is
        never zero when it is taken. */
    method SuccessRatio() returns (ratio: real)
      requires requests > 0
      ensures errors <= requests ==> ratio * requests as real == 100.0 * (requests - errors) as real
      ensures errors >= requests ==> ratio == 0.0
      ensures errors == 0 ==> ratio == 100.0
      ensures forall minimum: int ::
        (ratio <= minimum as real <==> AtMost(requests, errors, minimum))
    {
      ratio := ((requests - errors) * 100) as real / requests as real;
      RatioIs(requests, errors);
      forall minimum: int
        ensures ratio <= minimum as real <==> (requests - errors) * 100 <= minimum * requests
      {
        RatioAtMost((requests - errors) * 100, requests, minimum);
      }
      if ratio < 0.0 {
        RatioAtMost((requests - errors) * 100, requests, 0);
        ratio := 0.0;
      } else {
        RatioSign((requests - errors) * 100, requests);
      }
    }

    method IncrementErrors(now: int)
      requires requests >= 0
      modifies this
      ensures State() == Step(Configured(), old(State()), Error(now))
    {
      if now - beginTimestamp < timeInterval {
        if !toBeSwitched {
          if requests == 0 {
            requests := 1;
            errors := 1;
          } else {
            errors := errors + 1;
          }
          var ratio := SuccessRatio();
          if requests >= minimalRequestThreshold && ratio <= minimalSuccRatio as real {
            toBeSwitched := true;
          }
        }
      } else {
        if !toBeSwitched {
          requests := 1;
          errors := 1;
          beginTimestamp := now;
        }
      }
    }

    method Reset(now: int)
      modifies this
      ensures State() == Step(Configured(), old(State()), Event.Reset(now))
    {
      requests := 0;
      errors := 0;
      beginTimestamp := now;
      toBeSwitched := false;
    }

    method NeedSwitch() returns (r: bool)
      ensures r == State().latched
    {
      return toBeSwitched;
    }

    method IsExist(error: int) returns (r: bool)
      ensures r <==> error in Configured().errorCodes
    {
      return error in errcodeList;
    }
  }

  lemma RatioIs(requests: int, errors: int)
    requires requests > 0
    ensures var ratio := ((requests - errors) * 100) as real / requests as real;
      && ratio * requests as real == 100.0 * (requests - errors) as real
      && (ratio < 0.0 <==> errors > requests)
      && (errors == requests ==> ratio == 0.0) && (errors == 0 ==> ratio == 100.0)
  {
    RatioSign((requests - errors) * 100, requests);
  }

  /** The minimum is met exactly when the errors make up the rest of a hundred percent. */
  lemma AtMostIs(requests: int, errors: int, minimum: int)
    requires requests >= 1 && errors >= 0
    ensures AtMost(requests, errors, minimum) <==> 0 <= minimum && errors * 100 >= (100 - minimum) * requests
  {
    assert (100 - minimum) * requests == 100 * requests - minimum * requests;
    if 0 <= minimum { assert minimum * requests >= 0; } else { assert minimum * requests < 0; }
  }

  lemma RatioAtMost(part: int, whole: int, minimum: int)
    requires whole > 0
    ensures part as real / whole as real <= minimum as real <==> part <= minimum * whole
  {
    var q := part as real / whole as real;
    assert q * whole as real == part as real;
    assert (minimum * whole) as real == minimum as real * whole as real;
    if q <= minimum as real { assert q * whole as real <= minimum as real * whole as real; }
    if q > minimum as real { assert q * whole as real > minimum as real * whole as real; }
  }

  lemma RatioSign(part: int, whole: int)
    requires whole > 0
    ensures part as real / whole as real >= 0.0 <==> part >= 0
  {
    var q := part as real / whole as real;
    assert q * whole as real == part as real;
    if q >= 0.0 { assert q * whole as real >= 0.0; }
    if q < 0.0 { assert q * whole as real < 0.0; }
  }

  // ----- runs -----

  function After(conf: Conf, events: seq<Event>, created: int): Stats {
    if events == [] then Stats(created, 0, 0, false)
    else
      var n := |events| - 1;
      Step(conf, After(conf, events[..n], created), events[n])
  }

  function Errors(calls: seq<Event>): (k: nat)
    ensures k <= |calls|
  {
    if calls == [] then 0
    else Errors(calls[..|calls| - 1]) + if calls[|calls| - 1].Error? then 1 else 0
  }

  /** The requests of a window: the calls that are not errors, and one more when the window
      begins with an error. */
  function Requests(calls: seq<Event>): (k: nat)
    ensures calls != [] ==> 1 <= k <= |calls|
  {
    if calls == [] then 0
    else if |calls| == 1 then 1
    else Requests(calls[..|calls| - 1]) + if calls[|calls| - 1].Error? then 0 else 1
  }

  lemma {:induction false} RequestsAre(calls: seq<Event>)
    ensures Requests(calls) == |calls| - Errors(calls) + if calls != [] && calls[0].Error? then 1 else 0
  {
    if |calls| > 1 { RequestsAre(calls[..|calls| - 1]); }
  }

  /** When the calls of a window latch the key. `byCall` says that the window was begun by its
      first call, because the one before had run out, and not by a reset; such a first call
      is never looked at. */
  predicate Trips(conf: Conf, calls: seq<Event>, byCall: bool) {
    && calls != [] && calls[|calls| - 1].Error? && (byCall ==> |calls| > 1)
    && Failing(conf, Requests(calls), Errors(calls))
  }

  /** The history behind the counters: the window is `events[from..to]`. */
  datatype History = History(begin: int, from: nat, to: nat, byCall: bool, latched: bool)

  function HistoryAfter(conf: Conf, events: seq<Event>, created: int): (h: History)
    ensures h.from <= h.to <= |events| && (!h.latched ==> h.to == |events|) && (h.byCall ==> h.from < h.to)
  {
    if events == [] then History(created, 0, 0, false, false)
    else
      var n := |events| - 1;
      var h := HistoryAfter(conf, events[..n], created);
      match events[n]
      case Reset(now) => History(now, n + 1, n + 1, false, false)
      case _ =>
        if h.latched then h
        else if events[n].time - h.begin < conf.interval then
          History(h.begin, h.from, n + 1, h.byCall, Trips(conf, events[h.from..], h.byCall))
        else History(events[n].time, n, n + 1, true, false)
  }

  function Window(conf: Conf, events: seq<Event>, created: int): (w: seq<Event>)
    ensures HistoryAfter(conf, events, created).byCall ==> w != []
  {
    var h := HistoryAfter(conf, events, created);
    events[h.from..h.to]
  }

  /** How one more event changes the window. */
  lemma WindowStep(conf: Conf, events: seq<Event>, created: int)
    requires events != []
    ensures var n := |events| - 1;
      var h, h' := HistoryAfter(conf, events[..n], created), HistoryAfter(conf, events, created);
      var w, w' := Window(conf, events[..n], created), Window(conf, events, created);
      if events[n].Reset? then w' == [] && h' == History(events[n].time, n + 1, n + 1, false, false)
      else if h.latched then w' == w && h' == h
      else if events[n].time - h.begin < conf.interval then
        w' == w + [events[n]] && h' == History(h.begin, h.from, n + 1, h.byCall, Trips(conf, w', h.byCall))
      else w' == [events[n]] && h' == History(events[n].time, n, n + 1, true, false)
  {
    hide Trips, HistoryAfter;
    var n := |events| - 1;
    HistoryStep(conf, events, created);
    var h := HistoryAfter(conf, events[..n], created);
    SliceOfPrefix(events, n, h.from, h.to);
    if !h.latched { assert events[h.from..] == events[h.from..n + 1] == events[h.from..n] + [events[n]]; }
  }

  lemma SliceOfPrefix<T>(s: seq<T>, n: nat, i: nat, j: nat)
    requires i <= j <= n <= |s|
    ensures s[..n][i..j] == s[i..j]
  {
  }

  lemma HistoryStep(conf: Conf, events: seq<Event>, created: int)
    requires events != []
    ensures var n := |events| - 1;
      var h, h' := HistoryAfter(conf, events[..n], created), HistoryAfter(conf, events, created);
      h' ==
        if events[n].Reset? then History(events[n].time, n + 1, n + 1, false, false)
        else if h.latched then h
        else if events[n].time - h.begin < conf.interval then
          History(h.begin, h.from, n + 1, h.byCall, Trips(conf, events[h.from..], h.byCall))
        else History(events[n].time, n, n + 1, true, false)
  {
    hide Trips;
  }

  lemma CountsStep(calls: seq<Event>, e: Event)
    ensures Errors(calls + [e]) == Errors(calls) + if e.Error? then 1 else 0
    ensures Requests(calls + [e]) == Requests(calls) + if e.Error? && calls != [] then 0 else 1
  {
    assert (calls + [e])[..|calls|] == calls;
  }

  /** The four fields say what the history says, at every point of every run. */
  lemma {:induction false} CountersAreHistory(conf: Conf, events: seq<Event>, created: int)
    ensures var h, w := HistoryAfter(conf, events, created), Window(conf, events, created);
      After(conf, events, created) == Stats(h.begin, Requests(w), Errors(w), h.latched)
  {
    hide Failing, HistoryAfter, Window, Requests, Errors;
    CountsOfFew();
    if events == [] {
      NothingYet(conf, created);
    } else {
      var n := |events| - 1;
      CountersAreHistory(conf, events[..n], created);
      WindowStep(conf, events, created);
      var w := Window(conf, events[..n], created);
      CountsStep(w, events[n]);
      CountsStep([], events[n]);
      assert [] + [events[n]] == [events[n]];
    }
  }

  lemma NothingYet(conf: Conf, created: int)
    ensures HistoryAfter(conf, [], created) == History(created, 0, 0, false, false) && Window(conf, [], created) == []
  {
  }

  lemma CountsOfFew()
    ensures Requests([]) == 0 && Errors([]) == 0
  {
  }

  predicate Clocked(events: seq<Event>, created: int) {
    && (forall i | 0 <= i < |events| :: created <= events[i].time)
    && (forall i, j | 0 <= i < j < |events| :: events[i].time <= events[j].time)
  }

  /** The window holds calls only, all of them less than the interval apart; before it comes
      a reset, the creation of the key, or nothing that its first call could still belong to. */
  lemma {:induction false} WindowIsRecent(conf: Conf, events: seq<Event>, created: int)
    requires Clocked(events, created)
    ensures var h := HistoryAfter(conf, events, created);
      && (forall i | h.from <= i < h.to :: !events[i].Reset? && h.begin <= events[i].time)
      && (forall i, j | h.from <= i < j < h.to :: events[j].time - events[i].time < conf.interval)
      && (!h.byCall && h.from > 0 ==> events[h.from - 1].Reset? && h.begin == events[h.from - 1].time)
      && (!h.byCall && h.from == 0 ==> h.begin == created)
      && (h.byCall ==> h.from < h.to && h.begin == events[h.from].time)
  {
    hide Trips, HistoryAfter, Window;
    if events == [] {
      NothingYet(conf, created);
    } else {
      var n := |events| - 1;
      WindowIsRecent(conf, events[..n], created);
      WindowStep(conf, events, created);
      assert !HistoryAfter(conf, events[..n], created).latched ==> HistoryAfter(conf, events[..n], created).to == n;
    }
  }

  /** A key is latched exactly when the calls of its window trip it, and they trip it for the
      first time. */
  lemma {:induction false} LatchedIff(conf: Conf, events: seq<Event>, created: int)
    ensures var h, w := HistoryAfter(conf, events, created), Window(conf, events, created);
      && (h.latched <==> Trips(conf, w, h.byCall))
      && forall k | 0 <= k < |w| :: !Trips(conf, w[..k], h.byCall)
  {
    hide Failing, Requests, Errors, HistoryAfter, Window;
    if events == [] {
      NothingYet(conf, created);
    } else {
      var n := |events| - 1;
      LatchedIff(conf, events[..n], created);
      WindowStep(conf, events, created);
      var w := Window(conf, events[..n], created);
      assert forall k | 0 <= k < |w| :: (w + [events[n]])[..k] == w[..k];
      assert (w + [events[n]])[..|w|] == w;
      assert [events[n]][..0] == [];
    }
  }

  /** A key is latched exactly when its window ends in an error, is not just the call that began
      it because the one before had run out, has at least the threshold number of requests, and
      its errors make up at least what the minimum ratio leaves of a hundred percent. */
  lemma LatchedWhen(conf: Conf, events: seq<Event>, created: int)
    ensures var w := Window(conf, events, created);
      After(conf, events, created).latched <==>
        && w != [] && w[|w| - 1].Error? && (HistoryAfter(conf, events, created).byCall ==> |w| > 1)
        && Requests(w) >= conf.threshold
        && 0 <= conf.ratio && Errors(w) * 100 >= (100 - conf.ratio) * Requests(w)
  {
    hide AtMost, HistoryAfter, Window, After;
    CountersAreHistory(conf, events, created);
    LatchedIff(conf, events, created);
    var w := Window(conf, events, created);
    if w != [] { AtMostIs(Requests(w), Errors(w), conf.ratio); }
  }

  /** An error inside the window latches the key at once when, counted, it makes the errors that
      many; the first call after a reset counts as a request as well. */
  lemma ErrorLatchesIff(conf: Conf, events: seq<Event>, now: int, created: int)
    requires var s := After(conf, events, created); !s.latched && now - s.begin < conf.interval
    ensures var s := After(conf, events, created);
      var requests, errors := if s.requests == 0 then 1 else s.requests, if s.requests == 0 then 1 else s.errors + 1;
      After(conf, events + [Error(now)], created).latched <==>
        requests >= conf.threshold && 0 <= conf.ratio && errors * 100 >= (100 - conf.ratio) * requests
  {
    hide AtMost, HistoryAfter, Window;
    CountersAreHistory(conf, events, created);
    var s := After(conf, events, created);
    assert (events + [Error(now)])[..|events|] == events;
    AtMostIs(if s.requests == 0 then 1 else s.requests, if s.requests == 0 then 1 else s.errors + 1, conf.ratio);
  }

  /** A key is never latched without evidence: at least the threshold number of calls in
      sequence, all less than the interval apart, the last of them an error, and errors that make
      up at least what the minimum ratio leaves of a hundred percent. */
  lemma LatchedHasEvidence(conf: Conf, events: seq<Event>, created: int)
    requires Clocked(events, created) && After(conf, events, created).latched
    ensures var w := Window(conf, events, created);
      && w != [] && |w| >= conf.threshold && w[|w| - 1].Error?
      && (forall i | 0 <= i < |w| :: !w[i].Reset?)
      && (forall i, j | 0 <= i < j < |w| :: w[j].time - w[i].time < conf.interval)
      && Requests(w) >= conf.threshold
      && 0 <= conf.ratio && Errors(w) * 100 >= (100 - conf.ratio) * Requests(w)
  {
    hide HistoryAfter, After, Requests, Errors;
    LatchedWhen(conf, events, created);
    WindowIsRecent(conf, events, created);
  }

  /** An error on its own latches the key exactly when one request is enough and no success is
      asked for, and only after a reset: after a window that has run out it does not. */
  lemma LoneErrorLatchesIff(conf: Conf, events: seq<Event>, created: int)
    requires |Window(conf, events, created)| == 1 && Window(conf, events, created)[0].Error?
    ensures After(conf, events, created).latched
       <==> !HistoryAfter(conf, events, created).byCall && conf.threshold <= 1 && 0 <= conf.ratio
  {
    CountersAreHistory(conf, events, created);
    LatchedIff(conf, events, created);
    assert Errors(Window(conf, events, created)) == 1;
  }
}
