/**
 `RelaySwitchMgr`: the pools of all services and of all sites, and the decision to switch a
 site to its next data centre.
 */
module SwitchMgr {
  import opened SwitchStats
  import opened Pools

  /** What one call reads from outside: the clock when it counts the error, when it resets the
      group of the tripped key, and when it resets the other pool; the next data centre of the
      site; the global switch; and whether the site is known to the core server. */
  datatype Reading = Reading(now: int, later: int, after: int, nextIdc: string, switchOn: bool, inApiPool: bool)

  /** `switchOns` are the sites for which `set_switch_on` has been called. */
  datatype Manager = Manager(
    service: map<string, Entry>, site: map<int, Entry>, serviceInit: bool, siteInit: bool, switchOns: seq<int>)

  function SwitchOn(site: int, r: Reading): seq<int> {
    if r.nextIdc != "" && r.switchOn && r.inApiPool then [site] else []
  }

  /** Whether counting one more error latches the key. */
  predicate TripsNow<T>(pool: map<T, Entry>, key: T, now: int) {
    IsLatched(On(pool, key, Error(now)), key)
  }

  /** The block of `try_service_switch` and of `try_site_switch` under the lock of the pool. */
  function ErrorBlock<T>(pool: map<T, Entry>, key: T, r: Reading): map<T, Entry> {
    var counted := On(pool, key, Error(r.now));
    if TripsNow(pool, key, r.now) then ResetGroup(counted, key, r.later) else counted
  }

  predicate ServiceConcerned(m: Manager, name: string, error: int) {
    m.serviceInit && name in m.service && error !in m.service[name].conf.errorCodes
  }

  predicate SiteConcerned(m: Manager, site: int, error: int) {
    m.siteInit && site in m.site && error in m.site[site].conf.errorCodes
  }

  datatype Result = Result(m: Manager, ret: int)

  function ServiceSwitched(m: Manager, site: int, name: string, error: int, r: Reading): Result {
    if !ServiceConcerned(m, name, error) then Result(m, -1)
    else if TripsNow(m.service, name, r.now) then
      Result(m.(service := ErrorBlock(m.service, name, r), site := ResetGroup(m.site, site, r.after),
                switchOns := m.switchOns + SwitchOn(site, r)), 1)
    else Result(m.(service := ErrorBlock(m.service, name, r)), 0)
  }

  function SiteSwitched(m: Manager, site: int, name: string, error: int, r: Reading): Result {
    if !SiteConcerned(m, site, error) then Result(m, -1)
    else if TripsNow(m.site, site, r.now) then
      Result(m.(site := ErrorBlock(m.site, site, r), service := ResetGroup(m.service, name, r.after),
                switchOns := m.switchOns + SwitchOn(site, r)), 1)
    else Result(m.(site := ErrorBlock(m.site, site, r)), 0)
  }

  function Switched(m: Manager, site: int, name: string, error: int, a: Reading, b: Reading): Result {
    var first := ServiceSwitched(m, site, name, error, a);
    if first.ret == 1 then first
    else
      var second := SiteSwitched(first.m, site, name, error, b);
      if second.ret == -1 && first.ret == -1 then Result(second.m, -1)
      else if second.ret == 1 then Result(second.m, 1)
      else Result(second.m, 0)
  }

  predicate ServiceTrips(m: Manager, name: string, error: int, now: int) {
    ServiceConcerned(m, name, error) && TripsNow(m.service, name, now)
  }

  predicate SiteTrips(m: Manager, site: int, error: int, now: int) {
    SiteConcerned(m, site, error) && TripsNow(m.site, site, now)
  }

  /** After a trip the keys with the same `keyId` as `key` have been reset and every other key is
      untouched. */
  predicate OnlyGroupReset<T>(before: map<T, Entry>, after: map<T, Entry>, key: T, now: int) {
    && after.Keys == before.Keys
    && forall k | k in before ::
         after[k] == if key in before && before[k].conf.keyId == before[key].conf.keyId
                     then Entry(before[k].conf, Stats(now, 0, 0, false)) else before[k]
  }

  /** Counting an error trips a key that is in its window exactly when the errors then make up at
      least what the minimum ratio leaves of a hundred percent of enough requests. */
  lemma TripsNowIff<T>(pool: map<T, Entry>, key: T, now: int)
    requires key in pool ==> var s := pool[key].stats; !s.latched && s.requests >= 0 && s.errors >= 0
    ensures TripsNow(pool, key, now) <==>
      && key in pool && now - pool[key].stats.begin < pool[key].conf.interval
      && var s, c := pool[key].stats, pool[key].conf;
         var requests, errors := if s.requests == 0 then 1 else s.requests, if s.requests == 0 then 1 else s.errors + 1;
         requests >= c.threshold && 0 <= c.ratio && errors * 100 >= (100 - c.ratio) * requests
  {
    hide AtMost;
    if key in pool {
      var s := pool[key].stats;
      AtMostIs(if s.requests == 0 then 1 else s.requests, if s.requests == 0 then 1 else s.errors + 1,
               pool[key].conf.ratio);
    }
  }

  lemma TripResetsGroup<T>(pool: map<T, Entry>, key: T, r: Reading)
    requires TripsNow(pool, key, r.now)
    ensures OnlyGroupReset(pool, ErrorBlock(pool, key, r), key, r.later)
  {
    hide Step;
  }

  lemma CountThenReset<T>(pool: map<T, Entry>, key: T, e: Event, now: int)
    ensures OnlyGroupReset(pool, ResetGroup(On(pool, key, e), key, now), key, now)
    ensures OnlyGroupReset(pool, ResetGroup(pool, key, now), key, now)
  {
    hide Step;
  }

  /** -1: nothing happened, because the error concerns neither the service, whose list does not
      have it, nor the site, whose list has it. 0: the error was counted where it is a concern, and
      no key tripped. 1: the service tripped, or else the site did; the groups of both have been
      reset, every other key is untouched. */
  lemma OutcomeIs(m: Manager, site: int, name: string, error: int, a: Reading, b: Reading)
    ensures var r := Switched(m, site, name, error, a, b);
      var forService := m.serviceInit && name in m.service && error !in m.service[name].conf.errorCodes;
      var forSite := m.siteInit && site in m.site && error in m.site[site].conf.errorCodes;
      var first := forService && TripsNow(m.service, name, a.now);
      var trips := first || (forSite && TripsNow(m.site, site, b.now));
      var w := if first then a else b;
      && (r.ret == -1 <==> !forService && !forSite)
      && (r.ret == -1 ==> r.m == m)
      && (r.ret == 1 <==> trips)
      && (r.ret == 1 ==> OnlyGroupReset(m.service, r.m.service, name, if first then a.later else b.after))
      && (r.ret == 1 ==> OnlyGroupReset(m.site, r.m.site, site, if first then a.after else b.later))
      && (r.ret == 0 ==>
           && r.m.service == (if forService then On(m.service, name, Error(a.now)) else m.service)
           && r.m.site == (if forSite then On(m.site, site, Error(b.now)) else m.site))
      && r.m.switchOns == m.switchOns + (if trips && w.nextIdc != "" && w.switchOn && w.inApiPool then [site] else [])
      && -1 <= r.ret <= 1
  {
    hide On, ResetGroup, OnlyGroupReset;
    assert m.switchOns + [] == m.switchOns;
    if ServiceTrips(m, name, error, a.now) {
      TripResetsGroup(m.service, name, a);
      CountThenReset(m.site, site, Error(0), a.after);
    } else if SiteTrips(m, site, error, b.now) {
      TripResetsGroup(m.site, site, b);
      CountThenReset(m.service, name, Error(a.now), b.after);
    }
  }

  class RelaySwitchMgr {
    const servicePool: SwitchStatsPool<string>
    const sitePool: SwitchStatsPool<int>
    var isServiceInit: bool
    var isSiteInit: bool
    /** The calls of `set_switch_on` made so far. */
    var switchOns: seq<int>

    ghost function Repr(): set<object>
      reads servicePool, sitePool
    {
      {this, servicePool, sitePool} + servicePool.stats.Values + sitePool.stats.Values
    }

    ghost predicate Valid()
      reads servicePool, sitePool, servicePool.stats.Values, sitePool.stats.Values
    {
      && servicePool.Valid() && sitePool.Valid()
      && servicePool.stats.Values !! sitePool.stats.Values
    }

    ghost function State(): Manager
      reads this, servicePool, sitePool, servicePool.stats.Values, sitePool.stats.Values
    {
      Manager(servicePool.Content(), sitePool.Content(), isServiceInit, isSiteInit, switchOns)
    }

    constructor ()
      ensures Valid() && fresh(Repr()) && State() == Manager(map[], map[], false, false, [])
    {
      servicePool := new SwitchStatsPool<string>();
      sitePool := new SwitchStatsPool<int>();
      isServiceInit, isSiteInit, switchOns := false, false, [];
    }

    method InitServiceStatsPool(conf: map<string, Conf>, now: int)
      requires Valid()
      modifies servicePool
      ensures Valid() && fresh(Repr() - old(Repr()))
      ensures State() == old(State()).(service :=
        if isServiceInit then old(servicePool.Content()) else old(servicePool.Content()) + Initial(conf, now))
    {
      hide SwitchStatsPool.Valid, SwitchStatsPool.Content, On, ResetGroup, Initial, Step;
      if isServiceInit { return; }
      servicePool.Init(conf, now);
    }

    method InitSiteStatsPool(conf: map<int, Conf>, now: int)
      requires Valid()
      modifies sitePool
      ensures Valid() && fresh(Repr() - old(Repr()))
      ensures State() == old(State()).(site :=
        if isSiteInit then old(sitePool.Content()) else old(sitePool.Content()) + Initial(conf, now))
    {
      hide SwitchStatsPool.Valid, SwitchStatsPool.Content, On, ResetGroup, Initial, Step;
      if isSiteInit { return; }
      sitePool.Init(conf, now);
    }

    method InitService(conf: map<string, Conf>, now: int)
      requires Valid()
      modifies `isServiceInit, servicePool
      ensures Valid() && fresh(Repr() - old(Repr()))
      ensures State() == old(State()).(serviceInit := true,
        service := if old(isServiceInit) then old(State().service) else old(State().service) + Initial(conf, now))
    {
      hide SwitchStatsPool.Valid, SwitchStatsPool.Content, Initial;
      InitServiceStatsPool(conf, now);
      isServiceInit := true;
    }

    method InitSite(conf: map<int, Conf>, now: int)
      requires Valid()
      modifies `isSiteInit, sitePool
      ensures Valid() && fresh(Repr() - old(Repr()))
      ensures State() == old(State()).(siteInit := true,
        site := if old(isSiteInit) then old(State().site) else old(State().site) + Initial(conf, now))
    {
      hide SwitchStatsPool.Valid, SwitchStatsPool.Content, Initial;
      InitSiteStatsPool(conf, now);
      isSiteInit := true;
    }

    method Init(serviceConf: map<string, Conf>, siteConf: map<int, Conf>, now: int, later: int)
      requires Valid()
      modifies this, servicePool, sitePool
      ensures Valid() && fresh(Repr() - old(Repr()))
      ensures State() == Manager(
        if old(isServiceInit) then old(State().service) else old(State().service) + Initial(serviceConf, now),
        if old(isSiteInit) then old(State().site) else old(State().site) + Initial(siteConf, later),
        true, true, old(switchOns))
    {
      hide Valid, Initial;
      InitService(serviceConf, now);
      InitSite(siteConf, later);
    }

    method ReInitService(conf: map<string, Conf>, now: int)
      requires Valid()
      modifies `isServiceInit, servicePool
      ensures Valid() && fresh(Repr() - old(Repr()))
      ensures State() == old(State()).(service := Initial(conf, now), serviceInit := true)
    {
      hide SwitchStatsPool.Valid, SwitchStatsPool.Content, Initial;
      isServiceInit := false;
      servicePool.Clear();
      assert servicePool.Content() == map[];
      InitServiceStatsPool(conf, now);
      assert map[] + Initial(conf, now) == Initial(conf, now);
      isServiceInit := true;
    }

    method ReInitSite(conf: map<int, Conf>, now: int)
      requires Valid()
      modifies `isSiteInit, sitePool
      ensures Valid() && fresh(Repr() - old(Repr()))
      ensures State() == old(State()).(site := Initial(conf, now), siteInit := true)
    {
      hide SwitchStatsPool.Valid, SwitchStatsPool.Content, Initial;
      isSiteInit := false;
      sitePool.Clear();
      InitSiteStatsPool(conf, now);
      assert map[] + Initial(conf, now) == Initial(conf, now);
      isSiteInit := true;
    }

    /** After a change of the configuration, both pools start afresh. */
    method ReInit(serviceConf: map<string, Conf>, siteConf: map<int, Conf>, now: int, later: int)
      requires Valid()
      modifies this, servicePool, sitePool
      ensures Valid() && fresh(Repr() - old(Repr()))
      ensures State() == Manager(Initial(serviceConf, now), Initial(siteConf, later), true, true, old(switchOns))
    {
      hide Valid;
      ReInitService(serviceConf, now);
      ReInitSite(siteConf, later);
    }

    method ServiceRequest(name: string, now: int)
      requires Valid()
      modifies servicePool.stats.Values
      ensures Valid() && State() == old(State()).(
        service := if isServiceInit then On(old(State().service), name, Request(now)) else old(State().service))
    {
      hide SwitchStatsPool.Valid, SwitchStatsPool.Content, Step;
      if isServiceInit {
        var isKey := servicePool.IsSwitchKey(name);
        if isKey {
          servicePool.IncrementRequests(name, now);
        }
      }
    }

    method SiteRequest(site: int, now: int)
      requires Valid()
      modifies sitePool.stats.Values
      ensures Valid() && State() == old(State()).(
        site := if isSiteInit then On(old(State().site), site, Request(now)) else old(State().site))
    {
      hide SwitchStatsPool.Valid, SwitchStatsPool.Content, Step;
      if isSiteInit {
        var isKey := sitePool.IsSwitchKey(site);
        if isKey {
          sitePool.IncrementRequests(site, now);
        }
      }
    }

    method IncrRequest(site: int, name: string, now: int, later: int)
      requires Valid()
      modifies servicePool.stats.Values, sitePool.stats.Values
      ensures Valid()
      ensures State() == old(State()).(
        service := if isServiceInit then On(old(State().service), name, Request(now)) else old(State().service),
        site := if isSiteInit then On(old(State().site), site, Request(later)) else old(State().site))
    {
      hide Valid, On;
      ServiceRequest(name, now);
      SiteRequest(site, later);
    }

    method SetSwitchOn(site: int, r: Reading)
      modifies `switchOns
      ensures switchOns == old(switchOns) + SwitchOn(site, r)
    {
      if r.nextIdc == "" { return; }
      if r.switchOn {
        if r.inApiPool {
          switchOns := switchOns + [site];
        }
      }
    }

    /** Under the lock of the services: count an error, and on a trip switch the site on and reset
        the group. */
    method ServiceErrors(site: int, name: string, r: Reading) returns (switched: bool)
      requires Valid()
      modifies `switchOns, servicePool.stats.Values
      ensures Valid() && switched == TripsNow(old(State().service), name, r.now)
      ensures State() == old(State()).(
        service := ErrorBlock(old(State().service), name, r),
        switchOns := old(switchOns) + if switched then SwitchOn(site, r) else [])
    {
      hide SwitchStatsPool.Valid, SwitchStatsPool.Content, On, ResetGroup, Step, SwitchOn;
      servicePool.IncrementErrors(name, r.now);
      switched := servicePool.NeedSwitch(name);
      if switched {
        SetSwitchOn(site, r);
        servicePool.Reset(name, r.later);
      }
    }

    method ResetService(name: string, now: int)
      requires Valid()
      modifies servicePool.stats.Values
      ensures Valid() && State() == old(State()).(service := ResetGroup(old(State().service), name, now))
    {
      hide SwitchStatsPool.Valid, SwitchStatsPool.Content, ResetGroup;
      servicePool.Reset(name, now);
    }

    /** Under the lock of the sites: count an error, and on a trip switch the site on and reset
        the group. */
    method SiteErrors(site: int, r: Reading) returns (switched: bool)
      requires Valid()
      modifies `switchOns, sitePool.stats.Values
      ensures Valid() && switched == TripsNow(old(State().site), site, r.now)
      ensures State() == old(State()).(
        site := ErrorBlock(old(State().site), site, r),
        switchOns := old(switchOns) + if switched then SwitchOn(site, r) else [])
    {
      hide SwitchStatsPool.Valid, SwitchStatsPool.Content, On, ResetGroup, Step, SwitchOn;
      sitePool.IncrementErrors(site, r.now);
      switched := sitePool.NeedSwitch(site);
      if switched {
        SetSwitchOn(site, r);
        sitePool.Reset(site, r.later);
      }
    }

    method ResetSite(site: int, now: int)
      requires Valid()
      modifies sitePool.stats.Values
      ensures Valid() && State() == old(State()).(site := ResetGroup(old(State().site), site, now))
    {
      hide SwitchStatsPool.Valid, SwitchStatsPool.Content, ResetGroup;
      sitePool.Reset(site, now);
    }

    /** An error that is not in the list of the service counts against the service. */
    method TryServiceSwitch(site: int, name: string, error: int, r: Reading) returns (ret: int)
      requires Valid()
      modifies `switchOns, servicePool.stats.Values, sitePool.stats.Values
      ensures Valid()
      ensures Result(State(), ret) == ServiceSwitched(old(State()), site, name, error, r)
    {
      hide Valid, On, ResetGroup, Step, SwitchOn, ErrorBlock, TripsNow, SwitchStatsPool.Content;
      var isKey := servicePool.IsSwitchKey(name);
      var isExist := servicePool.IsExist(name, error);
      if !(isServiceInit && isKey && !isExist) { return -1; }
      var switched := ServiceErrors(site, name, r);
      if switched {
        ResetSite(site, r.after);
        return 1;
      }
      return 0;
    }

    /** An error that is in the list of the site counts against the site. */
    method TrySiteSwitch(site: int, name: string, error: int, r: Reading) returns (ret: int)
      requires Valid()
      modifies `switchOns, servicePool.stats.Values, sitePool.stats.Values
      ensures Valid()
      ensures Result(State(), ret) == SiteSwitched(old(State()), site, name, error, r)
    {
      hide Valid, On, ResetGroup, Step, SwitchOn, ErrorBlock, TripsNow, SwitchStatsPool.Content;
      var isKey := sitePool.IsSwitchKey(site);
      var isExist := sitePool.IsExist(site, error);
      if !(isSiteInit && isKey && isExist) { return -1; }
      var switched := SiteErrors(site, r);
      if switched {
        ResetService(name, r.after);
        return 1;
      }
      return 0;
    }

    method TrySwitch(site: int, name: string, error: int, a: Reading, b: Reading) returns (ret: int)
      requires Valid()
      modifies `switchOns, servicePool.stats.Values, sitePool.stats.Values
      ensures Valid()
      ensures Result(State(), ret) == Switched(old(State()), site, name, error, a, b)
    {
      ret := TryServiceSwitch(site, name, error, a);
      if ret != 1 {
        var ret1 := TrySiteSwitch(site, name, error, b);
        if ret1 == -1 && ret == -1 {
          return -1;
        } else if ret1 == 1 {
          return 1;
        } else {
          return 0;
        }
      } else {
        return 1;
      }
    }
  }
}
