/**
 `FixFreqControlRule`: a limit on all requests, and below it a limit for each list of
 parameter values.
 */
module Limiter {
  import opened Options
  import opened TimeCount

  const SERVICE_NAME := "service_name"

  datatype Request = Request(serviceName: string, params: map<string, string>, masterTime: int, ruleTime: int)

  /** Passed, or the exception thrown on behalf of the master or of a rule. */
  datatype Outcome = Pass | MasterReject | RuleReject

  /** The value of one key in a request. */
  function ValueOf(r: Request, key: string): Option<string> {
    if key in r.params then Some(r.params[key])
    else if key == SERVICE_NAME then Some(r.serviceName)
    else None
  }

  predicate Resolves(r: Request, keys: seq<string>) {
    forall i | 0 <= i < |keys| :: ValueOf(r, keys[i]).Some?
  }

  function Values(r: Request, keys: seq<string>): (v: seq<string>)
    requires Resolves(r, keys)
    ensures |v| == |keys|
  {
    seq(|keys|, i requires 0 <= i < |keys| => ValueOf(r, keys[i]).value)
  }

  datatype RuleConfig = RuleConfig(values: seq<string>, period: int, max: int)

  datatype Config = Config(period: int, max: int, keys: seq<string>, rules: seq<RuleConfig>)

  /** The first rule for a list of values, or `|rules|`. */
  function FirstFor(rules: seq<RuleConfig>, values: seq<string>): (k: nat)
    ensures k <= |rules|
    ensures k < |rules| ==> rules[k].values == values
    ensures forall j | 0 <= j < k :: rules[j].values != values
  {
    if rules == [] || rules[0].values == values then 0 else 1 + FirstFor(rules[1..], values)
  }

  /** The rule a request falls under, or `|rules|`. */
  function RuleFor(cfg: Config, r: Request): (k: nat)
    ensures k <= |cfg.rules|
  {
    if Resolves(r, cfg.keys) then FirstFor(cfg.rules, Values(r, cfg.keys)) else |cfg.rules|
  }

  /** A request falls under the first rule whose values are, key for key, its parameters of these
      names; only `service_name` may be missing among them and is then the name of the service. */
  lemma RuleForIs(cfg: Config, r: Request, j: nat)
    requires j <= RuleFor(cfg, r) && j < |cfg.rules|
    ensures j == RuleFor(cfg, r) <==>
      && |cfg.rules[j].values| == |cfg.keys|
      && forall i | 0 <= i < |cfg.keys| ::
           var key, value := cfg.keys[i], cfg.rules[j].values[i];
           if key in r.params then value == r.params[key] else key == "service_name" && value == r.serviceName
  {
    hide FirstFor;
    var values := cfg.rules[j].values;
    if Resolves(r, cfg.keys) {
      var wanted := Values(r, cfg.keys);
      assert forall i | 0 <= i < |cfg.keys| :: ValueOf(r, cfg.keys[i]) == Some(wanted[i]);
      if |values| == |wanted| && (forall i | 0 <= i < |wanted| :: values[i] == wanted[i]) { assert values == wanted; }
    } else {
      var i :| 0 <= i < |cfg.keys| && ValueOf(r, cfg.keys[i]).None?;
      assert cfg.keys[i] !in r.params && cfg.keys[i] != "service_name";
    }
  }

  datatype State = State(master: Window, rules: seq<Window>)

  predicate Fits(cfg: Config, s: State) {
    |s.rules| == |cfg.rules|
  }

  function OutcomeOf(cfg: Config, s: State, r: Request): Outcome
    requires Fits(cfg, s)
  {
    var k := RuleFor(cfg, r);
    if !Admits(s.master, cfg.period, cfg.max, r.masterTime, 1) then MasterReject
    else if k < |cfg.rules| && !Admits(s.rules[k], cfg.rules[k].period, cfg.rules[k].max, r.ruleTime, 1) then RuleReject
    else Pass
  }

  function Next(cfg: Config, s: State, r: Request): (t: State)
    requires Fits(cfg, s)
    ensures Fits(cfg, t)
  {
    var k := RuleFor(cfg, r);
    State(
      Counted(s.master, cfg.period, r.masterTime, 1),
      if k < |cfg.rules| && Admits(s.master, cfg.period, cfg.max, r.masterTime, 1)
      then s.rules[k := Counted(s.rules[k], cfg.rules[k].period, r.ruleTime, 1)]
      else s.rules)
  }

  class Rule {
    const valueList: seq<string>
    const policy: TimeCountPolicy

    constructor (values: seq<string>, period: int, max: int, now: int)
      ensures valueList == values && fresh(policy)
      ensures policy.timePeriod == period && policy.maxCount == max && policy.State() == Window(now, 0)
    {
      valueList := values;
      policy := new TimeCountPolicy(period, max, now);
    }

    ghost function Configured(): RuleConfig
      reads policy
    {
      RuleConfig(valueList, policy.timePeriod, policy.maxCount)
    }
  }

  class FixFreqControlRule {
    const master: TimeCountPolicy
    const keyList: seq<string>
    var rules: seq<Rule>

    ghost function Policies(): set<object>
      reads this
    {
      {master} + set k | 0 <= k < |rules| :: rules[k].policy
    }

    ghost predicate Valid()
      reads this
    {
      && (forall k | 0 <= k < |rules| :: rules[k].policy != master)
      && (forall i, j | 0 <= i < j < |rules| :: rules[i].policy != rules[j].policy)
    }

    ghost function Configured(): (c: Config)
      reads this, Policies()
      ensures |c.rules| == |rules|
    {
      Config(master.timePeriod, master.maxCount, keyList,
        seq(|rules|, k requires 0 <= k < |rules| reads this, Policies() => rules[k].Configured()))
    }

    ghost function Counters(): (s: State)
      reads this, Policies()
      ensures |s.rules| == |rules|
    {
      State(master.State(), seq(|rules|, k requires 0 <= k < |rules| reads this, Policies() => rules[k].policy.State()))
    }

    /** The rules of `init`, once its text has been split. */
    constructor (cfg: Config, now: int)
      ensures Valid() && fresh(Policies()) && Configured() == cfg
      ensures Counters() == State(Window(now, 0), seq(|cfg.rules|, k => Window(now, 0)))
    {
      master := new TimeCountPolicy(cfg.period, cfg.max, now);
      keyList := cfg.keys;
      rules := [];
      new;
      var i := 0;
      while i < |cfg.rules|
        invariant i <= |cfg.rules| && |rules| == i
        invariant fresh(master) && master.timePeriod == cfg.period && master.maxCount == cfg.max
        invariant master.State() == Window(now, 0)
        invariant Valid() && forall k | 0 <= k < i :: fresh(rules[k].policy)
        invariant forall k | 0 <= k < i ::
          rules[k].Configured() == cfg.rules[k] && rules[k].policy.State() == Window(now, 0)
      {
        var r := cfg.rules[i];
        var rule := new Rule(r.values, r.period, r.max, now);
        rules := rules + [rule];
        i := i + 1;
      }
    }

    method Lookup(values: seq<string>) returns (rule: Rule?)
      ensures var k := FirstFor(Configured().rules, values);
        rule == if k < |rules| then rules[k] else null
    {
      var i := 0;
      while i < |rules|
        invariant i <= |rules|
        invariant forall j | 0 <= j < i :: rules[j].valueList != values
      {
        if values == rules[i].valueList {
          assert Configured().rules[i].values == values;
          return rules[i];
        }
        i := i + 1;
      }
      return null;
    }

    /** The loop that collects a value for every key, and stops at the first it cannot find. */
    method CollectValues(r: Request) returns (values: seq<string>)
      ensures |values| <= |keyList| && (|values| == |keyList| <==> Resolves(r, keyList))
      ensures Resolves(r, keyList) ==> values == Values(r, keyList)
    {
      values := [];
      var i := 0;
      while i < |keyList|
        invariant i == |values| <= |keyList|
        invariant forall j | 0 <= j < i :: ValueOf(r, keyList[j]) == Some(values[j])
      {
        if keyList[i] in r.params {
          values := values + [r.params[keyList[i]]];
        } else if keyList[i] == SERVICE_NAME {
          values := values + [r.serviceName];
        } else {
          assert ValueOf(r, keyList[i]).None?;
          break;
        }
        i := i + 1;
      }
    }

    method CheckRule(r: Request) returns (outcome: Outcome)
      requires Valid()
      modifies Policies()
      ensures Configured() == old(Configured())
      ensures Counters() == Next(old(Configured()), old(Counters()), r)
      ensures outcome == OutcomeOf(old(Configured()), old(Counters()), r)
    {
      hide FirstFor, Resolves, Values, Counted, Admits;
      ghost var cfg, before := Configured(), Counters();
      var ret := master.IncreaseCount(1, r.masterTime);
      assert Configured() == cfg && Counters() == before.(master := master.State());
      if ret != 0 { return MasterReject; }
      var values := CollectValues(r);
      if |values| < |keyList| { return Pass; }
      var rule := Lookup(values);
      if rule != null {
        ghost var k := RuleFor(cfg, r);
        assert rule == rules[k] && rule.policy.State() == before.rules[k];
        ret := rule.policy.IncreaseCount(1, r.ruleTime);
        assert Configured() == cfg;
        assert Counters().rules == before.rules[k := rule.policy.State()];
        if ret != 0 { return RuleReject; }
      }
      return Pass;
    }
  }

  // ----- runs -----

  function Initial(cfg: Config, created: int): (s: State)
    ensures Fits(cfg, s)
  {
    State(Window(created, 0), seq(|cfg.rules|, k => Window(created, 0)))
  }

  function StateAfter(cfg: Config, reqs: seq<Request>, created: int): (s: State)
    ensures Fits(cfg, s)
  {
    if reqs == [] then Initial(cfg, created)
    else
      var n := |reqs| - 1;
      Next(cfg, StateAfter(cfg, reqs[..n], created), reqs[n])
  }

  function OutcomeAt(cfg: Config, reqs: seq<Request>, created: int, i: nat): Outcome
    requires i < |reqs|
  {
    OutcomeOf(cfg, StateAfter(cfg, reqs[..i], created), reqs[i])
  }

  function MasterTimes(reqs: seq<Request>): (times: seq<int>)
    ensures |times| == |reqs|
  {
    seq(|reqs|, i requires 0 <= i < |reqs| => reqs[i].masterTime)
  }

  predicate MasterAccepts(cfg: Config, reqs: seq<Request>, created: int, i: nat)
    requires i < |reqs|
  {
    Accepted(MasterTimes(reqs), cfg.period, cfg.max, created, i)
  }

  /** When rule `k` is called: by the requests that the master accepts and that fall under
      rule `k`. */
  function RuleTimes(cfg: Config, reqs: seq<Request>, created: int, k: nat): seq<int> {
    if reqs == [] then []
    else
      var n := |reqs| - 1;
      RuleTimes(cfg, reqs[..n], created, k)
      + if MasterAccepts(cfg, reqs, created, n) && RuleFor(cfg, reqs[n]) == k then [reqs[n].ruleTime] else []
  }

  /** The counters are those of the master alone and of every rule alone. */
  lemma {:induction false} CountersAreIndependent(cfg: Config, reqs: seq<Request>, created: int)
    ensures var s := StateAfter(cfg, reqs, created);
      && s.master == After(MasterTimes(reqs), cfg.period, created)
      && forall k | 0 <= k < |cfg.rules| ::
           s.rules[k] == After(RuleTimes(cfg, reqs, created, k), cfg.rules[k].period, created)
  {
    hide RuleFor, Counted, Admits;
    if reqs != [] {
      var n := |reqs| - 1;
      CountersAreIndependent(cfg, reqs[..n], created);
      assert MasterTimes(reqs)[..n] == MasterTimes(reqs[..n]);
      forall k | 0 <= k < |cfg.rules|
        ensures StateAfter(cfg, reqs, created).rules[k]
             == After(RuleTimes(cfg, reqs, created, k), cfg.rules[k].period, created)
      {
        var before, p := RuleTimes(cfg, reqs[..n], created, k), cfg.rules[k].period;
        assert (before + [reqs[n].ruleTime])[..|before|] == before;
        assert before + [] == before;
        assert After(before + [reqs[n].ruleTime], p, created)
            == Counted(After(before, p, created), p, reqs[n].ruleTime, 1);
      }
    }
  }

  /** What decides the fate of a request: the master on its own history, then the rule on
      its own history. */
  lemma OutcomeIff(cfg: Config, reqs: seq<Request>, created: int, i: nat)
    requires i < |reqs|
    ensures OutcomeAt(cfg, reqs, created, i) == MasterReject <==> !MasterAccepts(cfg, reqs, created, i)
    ensures var k := RuleFor(cfg, reqs[i]);
      OutcomeAt(cfg, reqs, created, i) == RuleReject <==>
        && MasterAccepts(cfg, reqs, created, i) && k < |cfg.rules|
        && var times := RuleTimes(cfg, reqs[..i + 1], created, k);
           times != [] && !Accepted(times, cfg.rules[k].period, cfg.rules[k].max, created, |times| - 1)
  {
    hide RuleFor, Admits;
    CountersAreIndependent(cfg, reqs[..i], created);
    assert MasterTimes(reqs)[..i] == MasterTimes(reqs[..i]) == MasterTimes(reqs[..i + 1])[..i];
    assert reqs[..i + 1][..i] == reqs[..i];
    var k := RuleFor(cfg, reqs[i]);
    var before := RuleTimes(cfg, reqs[..i], created, k);
    assert (before + [reqs[i].ruleTime])[..|before|] == before;
  }

  // ----- conservation -----

  function MasterAcceptances(cfg: Config, reqs: seq<Request>, created: int): nat {
    if reqs == [] then 0
    else
      var n := |reqs| - 1;
      MasterAcceptances(cfg, reqs[..n], created) + if MasterAccepts(cfg, reqs, created, n) then 1 else 0
  }

  /** How many requests the master accepts that fall under no rule. */
  function Unmatched(cfg: Config, reqs: seq<Request>, created: int): nat {
    if reqs == [] then 0
    else
      var n := |reqs| - 1;
      Unmatched(cfg, reqs[..n], created)
      + if MasterAccepts(cfg, reqs, created, n) && RuleFor(cfg, reqs[n]) == |cfg.rules| then 1 else 0
  }

  /** How often the first `m` rules are called, all together. */
  function RuleSteps(cfg: Config, reqs: seq<Request>, created: int, m: nat): nat {
    if m == 0 then 0 else RuleSteps(cfg, reqs, created, m - 1) + |RuleTimes(cfg, reqs, created, m - 1)|
  }

  lemma RuleTimesStep(cfg: Config, reqs: seq<Request>, created: int, k: nat)
    requires reqs != []
    ensures var n := |reqs| - 1;
      |RuleTimes(cfg, reqs, created, k)| == |RuleTimes(cfg, reqs[..n], created, k)|
        + if MasterAccepts(cfg, reqs, created, n) && RuleFor(cfg, reqs[n]) == k then 1 else 0
  {
  }

  lemma {:induction false} RuleStepsStep(cfg: Config, reqs: seq<Request>, created: int, m: nat)
    requires reqs != []
    ensures var n := |reqs| - 1;
      RuleSteps(cfg, reqs, created, m) == RuleSteps(cfg, reqs[..n], created, m)
        + if MasterAccepts(cfg, reqs, created, n) && RuleFor(cfg, reqs[n]) < m then 1 else 0
  {
    hide MasterAccepts, RuleFor, RuleTimes;
    if m > 0 {
      RuleStepsStep(cfg, reqs, created, m - 1);
      RuleTimesStep(cfg, reqs, created, m - 1);
    }
  }

  /** Every request that the master accepts calls exactly one rule or falls under none. */
  lemma {:induction false} Conservation(cfg: Config, reqs: seq<Request>, created: int)
    ensures RuleSteps(cfg, reqs, created, |cfg.rules|) + Unmatched(cfg, reqs, created)
         == MasterAcceptances(cfg, reqs, created)
  {
    hide MasterAccepts, RuleFor;
    if reqs == [] {
      NoSteps(cfg, created, |cfg.rules|);
    } else {
      Conservation(cfg, reqs[..|reqs| - 1], created);
      RuleStepsStep(cfg, reqs, created, |cfg.rules|);
    }
  }

  lemma {:induction false} NoSteps(cfg: Config, created: int, m: nat)
    ensures RuleSteps(cfg, [], created, m) == 0
  {
    if m > 0 { NoSteps(cfg, created, m - 1); }
  }

  // ----- the bounds on requests that pass -----

  /** How many requests pass at a time in `[t, t + period of the master)`. */
  function PassedWithin(cfg: Config, reqs: seq<Request>, created: int, t: int): nat {
    if reqs == [] then 0
    else
      var n := |reqs| - 1;
      PassedWithin(cfg, reqs[..n], created, t)
      + if Within(t, cfg.period, reqs[n].masterTime) && OutcomeAt(cfg, reqs, created, n) == Pass then 1 else 0
  }

  /** How many requests under rule `k` pass at a time in `[t, t + period of the rule)`. */
  function PassedUnder(cfg: Config, reqs: seq<Request>, created: int, k: nat, t: int): nat
    requires k < |cfg.rules|
  {
    if reqs == [] then 0
    else
      var n := |reqs| - 1;
      PassedUnder(cfg, reqs[..n], created, k, t)
      + if RuleFor(cfg, reqs[n]) == k && Within(t, cfg.rules[k].period, reqs[n].ruleTime)
           && OutcomeAt(cfg, reqs, created, n) == Pass then 1 else 0
  }

  lemma {:induction false} PassedAreAccepted(cfg: Config, reqs: seq<Request>, created: int, t: int)
    ensures PassedWithin(cfg, reqs, created, t)
         <= AcceptedWithin(MasterTimes(reqs), cfg.period, cfg.max, created, t, |reqs|)
  {
    hide OutcomeAt, Accepted, RuleFor, RuleTimes, Within;
    if reqs != [] {
      var n := |reqs| - 1;
      PassedAreAccepted(cfg, reqs[..n], created, t);
      OutcomeIff(cfg, reqs, created, n);
      assert MasterTimes(reqs) == MasterTimes(reqs[..n]) + [reqs[n].masterTime];
      WithinOfPrefix(MasterTimes(reqs[..n]), [reqs[n].masterTime], cfg.period, cfg.max, created, t, n);
    }
  }

  lemma {:induction false} PassedAreAcceptedByRule(cfg: Config, reqs: seq<Request>, created: int, k: nat, t: int)
    requires k < |cfg.rules|
    ensures var times := RuleTimes(cfg, reqs, created, k);
      PassedUnder(cfg, reqs, created, k, t)
      <= AcceptedWithin(times, cfg.rules[k].period, cfg.rules[k].max, created, t, |times|)
  {
    hide OutcomeAt, Accepted, RuleFor, MasterAccepts, Within;
    if reqs != [] {
      var n := |reqs| - 1;
      PassedAreAcceptedByRule(cfg, reqs[..n], created, k, t);
      OutcomeIff(cfg, reqs, created, n);
      assert reqs[..n + 1] == reqs;
      var before := RuleTimes(cfg, reqs[..n], created, k);
      WithinOfPrefix(before, [reqs[n].ruleTime], cfg.rules[k].period, cfg.rules[k].max, created, t, |before|);
      assert before + [] == before && (before + [reqs[n].ruleTime])[|before|] == reqs[n].ruleTime;
    }
  }

  /** The clock never goes back between its readings. */
  predicate Clocked(reqs: seq<Request>) {
    && (forall i | 0 <= i < |reqs| :: reqs[i].masterTime <= reqs[i].ruleTime)
    && (forall i, j | 0 <= i < j < |reqs| :: reqs[i].ruleTime <= reqs[j].masterTime)
  }

  lemma {:induction false} RuleTimesAreClocked(cfg: Config, reqs: seq<Request>, created: int, k: nat)
    requires Clocked(reqs)
    ensures var times := RuleTimes(cfg, reqs, created, k);
      && Nondecreasing(times)
      && (times != [] ==> reqs != [] && times[|times| - 1] <= reqs[|reqs| - 1].ruleTime)
  {
    hide MasterAccepts, RuleFor;
    if reqs != [] { RuleTimesAreClocked(cfg, reqs[..|reqs| - 1], created, k); }
  }

  /** In any interval as long as its period, fewer requests pass than twice the quota of the
      master, and fewer under each rule than twice the quota of that rule. */
  lemma PassedIsBounded(cfg: Config, reqs: seq<Request>, created: int, t: int)
    requires Clocked(reqs)
    ensures PassedWithin(cfg, reqs, created, t) < 2 * Quota(cfg.max)
    ensures forall k | 0 <= k < |cfg.rules| :: PassedUnder(cfg, reqs, created, k, t) < 2 * Quota(cfg.rules[k].max)
  {
    hide PassedWithin, PassedUnder, AcceptedWithin, RuleTimes;
    PassedAreAccepted(cfg, reqs, created, t);
    TwoWindowBound(MasterTimes(reqs), cfg.period, cfg.max, created, t, |reqs|);
    forall k | 0 <= k < |cfg.rules| ensures PassedUnder(cfg, reqs, created, k, t) < 2 * Quota(cfg.rules[k].max) {
      var times := RuleTimes(cfg, reqs, created, k);
      PassedAreAcceptedByRule(cfg, reqs, created, k, t);
      RuleTimesAreClocked(cfg, reqs, created, k);
      TwoWindowBound(times, cfg.rules[k].period, cfg.rules[k].max, created, t, |times|);
    }
  }
}
