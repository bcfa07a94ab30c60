/**
 Runs of the blocks that the threads of the relay execute under the lock of a pool, in any
 order. The checks that the source makes outside the locks only decide which blocks a thread
 executes, so every run of the relay is one of these.
 */
module Interleavings {
  import opened SwitchStats
  import opened Pools
  import opened SwitchMgr

  datatype PoolBlock<T> =
    | Count(key: T, now: int)
    | CountError(key: T, r: Reading)
    | ResetKey(key: T, now: int)
    | Restart(conf: map<T, Conf>, now: int)

  function PoolStep<T>(pool: map<T, Entry>, b: PoolBlock<T>): map<T, Entry> {
    match b
    case Count(key, now) => On(pool, key, Request(now))
    case CountError(key, r) => ErrorBlock(pool, key, r)
    case ResetKey(key, now) => ResetGroup(pool, key, now)
    case Restart(conf, now) => Initial(conf, now)
  }

  function PoolRun<T>(pool: map<T, Entry>, blocks: seq<PoolBlock<T>>): map<T, Entry> {
    if blocks == [] then pool
    else
      var n := |blocks| - 1;
      PoolStep(PoolRun(pool, blocks[..n]), blocks[n])
  }

  // ----- no latch outlives its block -----

  predicate NoneLatched<T>(pool: map<T, Entry>) {
    forall k | k in pool :: !pool[k].stats.latched
  }

  lemma StepKeepsNoneLatched<T>(pool: map<T, Entry>, b: PoolBlock<T>)
    requires NoneLatched(pool)
    ensures NoneLatched(PoolStep(pool, b))
  {
  }

  /** Whenever the lock of a pool is free, no key in it asks for a switch. */
  lemma {:induction false} NeverLatched<T>(pool: map<T, Entry>, blocks: seq<PoolBlock<T>>)
    requires NoneLatched(pool)
    ensures NoneLatched(PoolRun(pool, blocks))
  {
    if blocks != [] {
      NeverLatched(pool, blocks[..|blocks| - 1]);
      StepKeepsNoneLatched(PoolRun(pool, blocks[..|blocks| - 1]), blocks[|blocks| - 1]);
    }
  }

  // ----- the history of one key -----

  /** What a block means for one key. */
  function EventsIn<T(==)>(pool: map<T, Entry>, b: PoolBlock<T>, key: T): seq<Event> {
    match b
    case Count(k, now) => if k == key then [Request(now)] else []
    case CountError(k, r) =>
      (if k == key then [Error(r.now)] else [])
      + (if TripsNow(pool, k, r.now) && SameGroup(pool, key, k) then [Reset(r.later)] else [])
    case ResetKey(k, now) => if SameGroup(pool, key, k) then [Reset(now)] else []
    case Restart(_, _) => []
  }

  function EventsOf<T(==)>(pool: map<T, Entry>, blocks: seq<PoolBlock<T>>, key: T): seq<Event> {
    if blocks == [] then []
    else
      var n := |blocks| - 1;
      EventsOf(pool, blocks[..n], key) + EventsIn(PoolRun(pool, blocks[..n]), blocks[n], key)
  }

  predicate NoRestart<T>(blocks: seq<PoolBlock<T>>) {
    forall i | 0 <= i < |blocks| :: !blocks[i].Restart?
  }

  lemma {:induction false} AfterTwo(conf: Conf, events: seq<Event>, e: Event, f: Event, created: int)
    ensures After(conf, events + [e], created) == Step(conf, After(conf, events, created), e)
    ensures After(conf, events + ([e] + [f]), created) == Step(conf, Step(conf, After(conf, events, created), e), f)
  {
    assert (events + [e])[..|events|] == events;
    assert (events + ([e] + [f]))[..|events| + 1] == events + [e];
  }

  /** One block is, for each key, exactly the events it means. */
  lemma BlockIsEvents<T>(pool: map<T, Entry>, b: PoolBlock<T>, key: T, events: seq<Event>, created: int)
    requires key in pool && !b.Restart? && pool[key].stats == After(pool[key].conf, events, created)
    ensures key in PoolStep(pool, b) && PoolStep(pool, b)[key].conf == pool[key].conf
    ensures PoolStep(pool, b)[key].stats == After(pool[key].conf, events + EventsIn(pool, b, key), created)
  {
    hide After, Step;
    var conf := pool[key].conf;
    assert events + [] == events;
    match b
    case Count(k, now) => AfterTwo(conf, events, Request(now), Reset(now), created);
    case CountError(k, r) =>
      AfterTwo(conf, events, Error(r.now), Reset(r.later), created);
      AfterTwo(conf, events, Reset(r.later), Reset(r.later), created);
      assert [] + [] == events[|events|..] && [] + [Reset(r.later)] == [Reset(r.later)];
      assert [Error(r.now)] + [] == [Error(r.now)];
      ResetIsFresh(conf, r.later);
    case ResetKey(k, now) =>
      AfterTwo(conf, events, Reset(now), Reset(now), created);
      ResetIsFresh(conf, now);
  }

  lemma ResetIsFresh(conf: Conf, now: int)
    ensures forall s :: Step(conf, s, Reset(now)) == Fresh(now)
  {
  }

  /** In any interleaving, the statistics of a key depend on its own events only. */
  lemma {:induction false} KeysAreIndependent<T>(pool: map<T, Entry>, blocks: seq<PoolBlock<T>>, key: T, created: int)
    requires key in pool && pool[key].stats == Fresh(created) && NoRestart(blocks)
    ensures var end := PoolRun(pool, blocks);
      && key in end && end[key].conf == pool[key].conf
      && end[key].stats == After(pool[key].conf, EventsOf(pool, blocks, key), created)
  {
    hide EventsIn, PoolStep;
    if blocks != [] {
      var n := |blocks| - 1;
      KeysAreIndependent(pool, blocks[..n], key, created);
      BlockIsEvents(PoolRun(pool, blocks[..n]), blocks[n], key, EventsOf(pool, blocks[..n], key), created);
    }
  }

  /** What justifies a trip: at least the threshold number of calls in sequence, all less than
      the interval apart, the last one an error, and errors that make up at least what the minimum
      ratio leaves of a hundred percent. */
  predicate IsEvidence(conf: Conf, w: seq<Event>) {
    && w != [] && |w| >= conf.threshold && w[|w| - 1].Error?
    && (forall i | 0 <= i < |w| :: !w[i].Reset?)
    && (forall i, j | 0 <= i < j < |w| :: w[j].time - w[i].time < conf.interval)
    && Requests(w) >= conf.threshold
    && 0 <= conf.ratio && Errors(w) * 100 >= (100 - conf.ratio) * Requests(w)
  }

  lemma TripSinceFresh<T>(pool: map<T, Entry>, blocks: seq<PoolBlock<T>>, key: T, r: Reading, created: int)
    requires key in pool && pool[key].stats == Fresh(created) && NoRestart(blocks)
    requires TripsNow(PoolRun(pool, blocks), key, r.now)
    requires Clocked(EventsOf(pool, blocks, key) + [Error(r.now)], created)
    ensures IsEvidence(pool[key].conf, Window(pool[key].conf, EventsOf(pool, blocks, key) + [Error(r.now)], created))
  {
    hide Clocked, Window, Failing, Requests, Errors, Step, After;
    KeysAreIndependent(pool, blocks, key, created);
    AfterTwo(pool[key].conf, EventsOf(pool, blocks, key), Error(r.now), Error(r.now), created);
    LatchedHasEvidence(pool[key].conf, EventsOf(pool, blocks, key) + [Error(r.now)], created);
  }

  /** How many blocks of a run have been executed when its last restart has, or none. */
  function Restarted<T>(blocks: seq<PoolBlock<T>>): (k: nat)
    ensures k <= |blocks| && (k > 0 ==> blocks[k - 1].Restart?) && NoRestart(blocks[k..])
  {
    var n := |blocks|;
    if n == 0 || blocks[n - 1].Restart? then n
    else
      var k := Restarted(blocks[..n - 1]);
      assert forall i | k <= i < n - 1 :: blocks[i] == blocks[..n - 1][k..][i - k];
      k
  }

  /** A restart forgets everything before it. */
  lemma {:induction false} RunSinceRestart<T>(pool: map<T, Entry>, blocks: seq<PoolBlock<T>>, k: nat)
    requires k <= |blocks| && (k > 0 ==> blocks[k - 1].Restart?)
    ensures PoolRun(pool, blocks)
         == PoolRun(if k == 0 then pool else Initial(blocks[k - 1].conf, blocks[k - 1].now), blocks[k..])
    decreases |blocks| - k
  {
    hide Initial;
    var n := |blocks| - 1;
    if k <= n {
      RunSinceRestart(pool, blocks[..n], k);
      assert blocks[..n][k..] == blocks[k..][..n - k];
    }
  }

  /** In any interleaving that starts with an empty pool, and whatever changes of the
      configuration it holds, a key trips only with evidence from its own calls since its group
      was last reset or the configuration last changed. */
  lemma TripHasEvidence<T>(blocks: seq<PoolBlock<T>>, key: T, r: Reading)
    requires TripsNow(PoolRun(map[], blocks), key, r.now)
    ensures var k := Restarted(blocks);
      && k > 0 && key in blocks[k - 1].conf
      && var conf, created := blocks[k - 1].conf[key], blocks[k - 1].now;
         var events := EventsOf(Initial(blocks[k - 1].conf, created), blocks[k..], key) + [Error(r.now)];
         Clocked(events, created) ==> IsEvidence(conf, Window(conf, events, created))
  {
    hide Clocked, Window, IsEvidence, Step;
    var k := Restarted(blocks);
    RunSinceRestart(map[], blocks, k);
    KeysStay(if k == 0 then map[] else Initial(blocks[k - 1].conf, blocks[k - 1].now), blocks[k..]);
    var conf, created := blocks[k - 1].conf[key], blocks[k - 1].now;
    var start := Initial(blocks[k - 1].conf, created);
    var events := EventsOf(start, blocks[k..], key) + [Error(r.now)];
    if Clocked(events, created) { TripSinceFresh(start, blocks[k..], key, r, created); }
  }

  lemma {:induction false} KeysStay<T>(pool: map<T, Entry>, blocks: seq<PoolBlock<T>>)
    requires NoRestart(blocks)
    ensures PoolRun(pool, blocks).Keys == pool.Keys
  {
    if blocks != [] { KeysStay(pool, blocks[..|blocks| - 1]); }
  }

  // ----- both pools -----

  /** `OnService` carries the site that a trip of the service would switch. */
  datatype Block =
    | OnService(site: int, b: PoolBlock<string>)
    | OnSite(s: PoolBlock<int>)

  function SwitchesOn<T>(pool: map<T, Entry>, b: PoolBlock<T>, site: int): seq<int> {
    if b.CountError? && TripsNow(pool, b.key, b.r.now) then SwitchOn(site, b.r) else []
  }

  function ManagerStep(m: Manager, block: Block): Manager {
    match block
    case OnService(site, b) =>
      m.(service := PoolStep(m.service, b), switchOns := m.switchOns + SwitchesOn(m.service, b, site))
    case OnSite(b) =>
      m.(site := PoolStep(m.site, b),
         switchOns := m.switchOns + if b.CountError? then SwitchesOn(m.site, b, b.key) else [])
  }

  function ManagerRun(m: Manager, blocks: seq<Block>): Manager {
    if blocks == [] then m
    else
      var n := |blocks| - 1;
      ManagerStep(ManagerRun(m, blocks[..n]), blocks[n])
  }

  predicate Quiescent(m: Manager) {
    NoneLatched(m.service) && NoneLatched(m.site)
  }

  lemma {:induction false} AlwaysQuiescent(m: Manager, blocks: seq<Block>)
    requires Quiescent(m)
    ensures Quiescent(ManagerRun(m, blocks))
  {
    hide PoolStep, NoneLatched;
    if blocks != [] {
      var n := |blocks| - 1;
      AlwaysQuiescent(m, blocks[..n]);
      var before := ManagerRun(m, blocks[..n]);
      match blocks[n]
      case OnService(_, b) => StepKeepsNoneLatched(before.service, b);
      case OnSite(b) => StepKeepsNoneLatched(before.site, b);
    }
  }

  function ServiceBlocks(blocks: seq<Block>): seq<PoolBlock<string>> {
    if blocks == [] then []
    else
      var n := |blocks| - 1;
      ServiceBlocks(blocks[..n]) + if blocks[n].OnService? then [blocks[n].b] else []
  }

  function SiteBlocks(blocks: seq<Block>): seq<PoolBlock<int>> {
    if blocks == [] then []
    else
      var n := |blocks| - 1;
      SiteBlocks(blocks[..n]) + if blocks[n].OnSite? then [blocks[n].s] else []
  }

  lemma RunOneMore<T>(pool: map<T, Entry>, blocks: seq<PoolBlock<T>>, b: PoolBlock<T>)
    ensures PoolRun(pool, blocks + [b]) == PoolStep(PoolRun(pool, blocks), b)
  {
    assert (blocks + [b])[..|blocks|] == blocks;
  }

  /** Each pool sees a run of its own blocks. */
  lemma {:induction false} PoolsAreIndependent(m: Manager, blocks: seq<Block>)
    ensures ManagerRun(m, blocks).service == PoolRun(m.service, ServiceBlocks(blocks))
    ensures ManagerRun(m, blocks).site == PoolRun(m.site, SiteBlocks(blocks))
  {
    hide PoolStep, PoolRun;
    if blocks == [] {
      NoBlocks(m.service);
      NoBlocks(m.site);
    } else {
      var n := |blocks| - 1;
      PoolsAreIndependent(m, blocks[..n]);
      assert ServiceBlocks(blocks[..n]) + [] == ServiceBlocks(blocks[..n]);
      assert SiteBlocks(blocks[..n]) + [] == SiteBlocks(blocks[..n]);
      match blocks[n]
      case OnService(_, b) => RunOneMore(m.service, ServiceBlocks(blocks[..n]), b);
      case OnSite(b) => RunOneMore(m.site, SiteBlocks(blocks[..n]), b);
    }
  }

  lemma NoBlocks<T>(pool: map<T, Entry>)
    ensures PoolRun(pool, []) == pool
  {
  }

  /** The blocks that a call of `trySwitch` executes when no other thread comes in between. */
  function BlocksOfSwitch(m: Manager, site: int, name: string, error: int, a: Reading, b: Reading): seq<Block> {
    (if ServiceConcerned(m, name, error) then [OnService(site, CountError(name, a))] else [])
    + (if ServiceTrips(m, name, error, a.now) then [OnSite(ResetKey(site, a.after))]
       else if SiteConcerned(m, site, error) then
         [OnSite(CountError(site, b))]
         + (if SiteTrips(m, site, error, b.now) then [OnService(site, ResetKey(name, b.after))] else [])
       else [])
  }

  lemma ManagerOneMore(m: Manager, blocks: seq<Block>, b: Block)
    ensures ManagerRun(m, blocks + [b]) == ManagerStep(ManagerRun(m, blocks), b)
  {
    assert (blocks + [b])[..|blocks|] == blocks;
  }

  /** `trySwitch` on its own is one of the runs. */
  lemma SwitchIsRun(m: Manager, site: int, name: string, error: int, a: Reading, b: Reading)
    ensures Switched(m, site, name, error, a, b).m == ManagerRun(m, BlocksOfSwitch(m, site, name, error, a, b))
  {
    hide On, ResetGroup, SwitchOn, ManagerRun, ErrorBlock, TripsNow, ServiceConcerned;
    var blocks := BlocksOfSwitch(m, site, name, error, a, b);
    var counting, siteCounting := OnService(site, CountError(name, a)), OnSite(CountError(site, b));
    var first, second := ServiceConcerned(m, name, error), SiteConcerned(m, site, error);
    NothingRun(m);
    ManagerOneMore(m, [], counting);
    ManagerOneMore(m, [], siteCounting);
    assert [] + [counting] == [counting] && [] + [siteCounting] == [siteCounting];
    if ServiceTrips(m, name, error, a.now) {
      assert blocks == [counting] + [OnSite(ResetKey(site, a.after))];
      ManagerOneMore(m, [counting], OnSite(ResetKey(site, a.after)));
    } else if SiteTrips(m, site, error, b.now) {
      var counted := (if first then [counting] else []) + [siteCounting];
      var reset := OnService(site, ResetKey(name, b.after));
      assert blocks == counted + [reset];
      ManagerOneMore(m, if first then [counting] else [], siteCounting);
      ManagerOneMore(m, counted, reset);
    } else if second {
      assert blocks == (if first then [counting] else []) + [siteCounting];
      ManagerOneMore(m, if first then [counting] else [], siteCounting);
    } else {
      assert blocks == if first then [counting] else [];
      assert first ==>
        ManagerRun(m, [counting]) == ManagerStep(m, counting) == m.(service := ErrorBlock(m.service, name, a));
    }
  }

  lemma NothingRun(m: Manager)
    ensures ManagerRun(m, []) == m && m.switchOns + [] == m.switchOns
  {
  }

  // ----- runs of calls -----

  /** A call of `trySwitch`, with what it reads. */
  datatype Call = Call(site: int, name: string, error: int, a: Reading, b: Reading)

  function CallRun(m: Manager, calls: seq<Call>): Manager {
    if calls == [] then m
    else
      var n := |calls| - 1;
      var c := calls[n];
      Switched(CallRun(m, calls[..n]), c.site, c.name, c.error, c.a, c.b).m
  }

  function BlocksOf(m: Manager, c: Call): seq<Block> {
    BlocksOfSwitch(m, c.site, c.name, c.error, c.a, c.b)
  }

  function BlocksOfRun(m: Manager, calls: seq<Call>): seq<Block> {
    if calls == [] then []
    else
      var n := |calls| - 1;
      BlocksOfRun(m, calls[..n]) + BlocksOf(CallRun(m, calls[..n]), calls[n])
  }

  lemma {:induction false} ManagerRunSplits(m: Manager, a: seq<Block>, b: seq<Block>)
    ensures ManagerRun(m, a + b) == ManagerRun(ManagerRun(m, a), b)
    decreases |b|
  {
    hide ManagerStep;
    if b == [] {
      assert a + b == a;
    } else {
      var n := |b| - 1;
      ManagerRunSplits(m, a, b[..n]);
      assert (a + b)[..|a| + n] == a + b[..n];
    }
  }

  lemma {:induction false} CallsAreRun(m: Manager, calls: seq<Call>)
    ensures CallRun(m, calls) == ManagerRun(m, BlocksOfRun(m, calls))
  {
    hide ManagerRun, BlocksOfSwitch, Switched;
    if calls == [] {
      NothingRun(m);
    } else {
      var n := |calls| - 1;
      CallsAreRun(m, calls[..n]);
      var c, before := calls[n], CallRun(m, calls[..n]);
      SwitchIsRun(before, c.site, c.name, c.error, c.a, c.b);
      ManagerRunSplits(m, BlocksOfRun(m, calls[..n]), BlocksOf(before, c));
    }
  }

  lemma {:induction false} ServiceBlocksSplit(a: seq<Block>, b: seq<Block>)
    ensures ServiceBlocks(a + b) == ServiceBlocks(a) + ServiceBlocks(b)
    ensures SiteBlocks(a + b) == SiteBlocks(a) + SiteBlocks(b)
    decreases |b|
  {
    hide ServiceBlocks, SiteBlocks;
    if b == [] {
      NoneOfEither();
      assert a + b == a && ServiceBlocks(a) + [] == ServiceBlocks(a) && SiteBlocks(a) + [] == SiteBlocks(a);
    } else {
      var n := |b| - 1;
      ServiceBlocksSplit(a, b[..n]);
      assert (a + b)[..|a| + n] == a + b[..n] && (a + b)[|a| + n] == b[n];
      LastBlock(a + b);
      LastBlock(b);
    }
  }

  lemma LastBlock(blocks: seq<Block>)
    requires blocks != []
    ensures var n := |blocks| - 1;
      && ServiceBlocks(blocks) == ServiceBlocks(blocks[..n]) + (if blocks[n].OnService? then [blocks[n].b] else [])
      && SiteBlocks(blocks) == SiteBlocks(blocks[..n]) + (if blocks[n].OnSite? then [blocks[n].s] else [])
  {
  }

  lemma {:induction false} EventsSplit<T>(pool: map<T, Entry>, a: seq<PoolBlock<T>>, b: seq<PoolBlock<T>>, key: T)
    ensures EventsOf(pool, a + b, key) == EventsOf(pool, a, key) + EventsOf(PoolRun(pool, a), b, key)
    ensures PoolRun(pool, a + b) == PoolRun(PoolRun(pool, a), b)
    decreases |b|
  {
    hide EventsOf, PoolRun, PoolStep, EventsIn;
    var mid := PoolRun(pool, a);
    if b == [] {
      NoneYet(mid, key);
      assert a + b == a && EventsOf(pool, a, key) + [] == EventsOf(pool, a, key);
    } else {
      var n := |b| - 1;
      EventsSplit(pool, a, b[..n], key);
      assert (a + b)[..|a| + n] == a + b[..n] && (a + b)[|a| + n] == b[n];
      LastEvents(pool, a + b, key);
      LastEvents(mid, b, key);
    }
  }

  lemma LastEvents<T>(pool: map<T, Entry>, blocks: seq<PoolBlock<T>>, key: T)
    requires blocks != []
    ensures var n := |blocks| - 1;
      && EventsOf(pool, blocks, key)
         == EventsOf(pool, blocks[..n], key) + EventsIn(PoolRun(pool, blocks[..n]), blocks[n], key)
      && PoolRun(pool, blocks) == PoolStep(PoolRun(pool, blocks[..n]), blocks[n])
  {
    hide EventsIn, PoolStep;
  }

  lemma NoneYet<T>(pool: map<T, Entry>, key: T)
    ensures EventsOf(pool, [], key) == [] && PoolRun(pool, []) == pool
  {
  }

  /** When the errors of a key are counted. */
  function ErrorTimes(events: seq<Event>): seq<int> {
    if events == [] then []
    else
      var n := |events| - 1;
      ErrorTimes(events[..n]) + if events[n].Error? then [events[n].time] else []
  }

  lemma {:induction false} ErrorTimesSplit(a: seq<Event>, b: seq<Event>)
    ensures ErrorTimes(a + b) == ErrorTimes(a) + ErrorTimes(b)
    decreases |b|
  {
    if b == [] {
      assert a + b == a && ErrorTimes(a) + [] == ErrorTimes(a);
    } else {
      var n := |b| - 1;
      ErrorTimesSplit(a, b[..n]);
      assert (a + b)[..|a| + n] == a + b[..n];
    }
  }

  /** What counting an error and resetting a group mean for the errors of a key. */
  lemma ErrorTimesIn<T>(pool: map<T, Entry>, b: PoolBlock<T>, key: T)
    requires b.CountError? || b.ResetKey?
    ensures ErrorTimes(EventsIn(pool, b, key)) == if b.CountError? && b.key == key then [b.r.now] else []
  {
    assert forall e: Event :: [e][..0] == [];
    assert forall e: Event :: ErrorTimes([e]) == if e.Error? then [e.time] else [];
    if b.CountError? {
      ErrorTimesSplit(if b.key == key then [Error(b.r.now)] else [],
                      if TripsNow(pool, b.key, b.r.now) && SameGroup(pool, key, b.key) then [Reset(b.r.later)] else []);
    }
  }

  /** When the errors of a few blocks are counted against a key. */
  function CountedBy<T(==)>(blocks: seq<PoolBlock<T>>, key: T): seq<int> {
    if blocks == [] then []
    else
      var n := |blocks| - 1;
      CountedBy(blocks[..n], key)
      + if blocks[n].CountError? && blocks[n].key == key then [blocks[n].r.now] else []
  }

  predicate ErrorsAndResets<T>(blocks: seq<PoolBlock<T>>) {
    forall i | 0 <= i < |blocks| :: blocks[i].CountError? || blocks[i].ResetKey?
  }

  lemma {:induction false} ErrorTimesOf<T>(pool: map<T, Entry>, blocks: seq<PoolBlock<T>>, key: T)
    requires ErrorsAndResets(blocks)
    ensures ErrorTimes(EventsOf(pool, blocks, key)) == CountedBy(blocks, key)
  {
    hide EventsIn;
    if blocks != [] {
      var n := |blocks| - 1;
      ErrorTimesOf(pool, blocks[..n], key);
      ErrorTimesIn(PoolRun(pool, blocks[..n]), blocks[n], key);
      ErrorTimesSplit(EventsOf(pool, blocks[..n], key), EventsIn(PoolRun(pool, blocks[..n]), blocks[n], key));
    }
  }

  /** A call keeps the configurations and executes error and reset blocks only. */
  lemma CallKeeps(m: Manager, c: Call)
    ensures var r := Switched(m, c.site, c.name, c.error, c.a, c.b).m;
      && r.serviceInit == m.serviceInit && r.siteInit == m.siteInit
      && r.service.Keys == m.service.Keys && r.site.Keys == m.site.Keys
      && (forall k | k in m.service :: r.service[k].conf == m.service[k].conf)
      && (forall k | k in m.site :: r.site[k].conf == m.site[k].conf)
  {
    hide Step;
  }

  lemma {:induction false} RunKeeps(m: Manager, calls: seq<Call>)
    ensures var r := CallRun(m, calls);
      && r.serviceInit == m.serviceInit && r.siteInit == m.siteInit
      && r.service.Keys == m.service.Keys && r.site.Keys == m.site.Keys
      && (forall k | k in m.service :: r.service[k].conf == m.service[k].conf)
      && (forall k | k in m.site :: r.site[k].conf == m.site[k].conf)
  {
    hide Switched;
    if calls != [] {
      RunKeeps(m, calls[..|calls| - 1]);
      CallKeeps(CallRun(m, calls[..|calls| - 1]), calls[|calls| - 1]);
    }
  }

  /** What one call counts against a service and against a site. */
  lemma CallCounts(m: Manager, c: Call, service: string, site: int)
    ensures var blocks := BlocksOf(m, c);
      && ErrorsAndResets(ServiceBlocks(blocks)) && ErrorsAndResets(SiteBlocks(blocks))
      && CountedBy(ServiceBlocks(blocks), service)
         == (if m.serviceInit && service in m.service && c.name == service
                && c.error !in m.service[service].conf.errorCodes then [c.a.now] else [])
      && CountedBy(SiteBlocks(blocks), site)
         == (if m.siteInit && site in m.site && c.site == site && c.error in m.site[site].conf.errorCodes
                && !FailsOver(m, c) then [c.b.now] else [])
  {
    hide TripsNow, ServiceBlocks, SiteBlocks, CountedBy, BlocksOf;
    var first := if ServiceConcerned(m, c.name, c.error) then [OnService(c.site, CountError(c.name, c.a))] else [];
    var second :=
      if FailsOver(m, c) then [OnSite(ResetKey(c.site, c.a.after))]
      else if SiteConcerned(m, c.site, c.error) then [OnSite(CountError(c.site, c.b))] else [];
    var third :=
      if !FailsOver(m, c) && SiteTrips(m, c.site, c.error, c.b.now)
      then [OnService(c.site, ResetKey(c.name, c.b.after))] else [];
    assert BlocksOf(m, c) == first + (second + third) by { ThreeParts(m, c, first, second, third); }
    ServiceBlocksSplit(first, second + third);
    ServiceBlocksSplit(second, third);
    AtMostOne(first, service, site);
    AtMostOne(second, service, site);
    AtMostOne(third, service, site);
    CountedSplit(ServiceBlocks(first), ServiceBlocks(second) + ServiceBlocks(third), service);
    CountedSplit(ServiceBlocks(second), ServiceBlocks(third), service);
    CountedSplit(SiteBlocks(first), SiteBlocks(second) + SiteBlocks(third), site);
    CountedSplit(SiteBlocks(second), SiteBlocks(third), site);
  }

  lemma ThreeParts(m: Manager, c: Call, first: seq<Block>, second: seq<Block>, third: seq<Block>)
    requires first == if ServiceConcerned(m, c.name, c.error) then [OnService(c.site, CountError(c.name, c.a))] else []
    requires second ==
      if FailsOver(m, c) then [OnSite(ResetKey(c.site, c.a.after))]
      else if SiteConcerned(m, c.site, c.error) then [OnSite(CountError(c.site, c.b))] else []
    requires third ==
      if !FailsOver(m, c) && SiteTrips(m, c.site, c.error, c.b.now)
      then [OnService(c.site, ResetKey(c.name, c.b.after))] else []
    ensures BlocksOf(m, c) == first + (second + third)
  {
    hide TripsNow;
  }

  lemma AtMostOne(blocks: seq<Block>, service: string, site: int)
    requires |blocks| <= 1
    ensures ServiceBlocks(blocks) == if blocks != [] && blocks[0].OnService? then [blocks[0].b] else []
    ensures SiteBlocks(blocks) == if blocks != [] && blocks[0].OnSite? then [blocks[0].s] else []
    ensures CountedBy(ServiceBlocks(blocks), service)
         == if blocks != [] && blocks[0].OnService? && blocks[0].b.CountError? && blocks[0].b.key == service
            then [blocks[0].b.r.now] else []
    ensures CountedBy(SiteBlocks(blocks), site)
         == if blocks != [] && blocks[0].OnSite? && blocks[0].s.CountError? && blocks[0].s.key == site
            then [blocks[0].s.r.now] else []
  {
    if blocks != [] {
      assert blocks[..0] == [] && ServiceBlocks([]) == [] && SiteBlocks([]) == [];
      assert forall b: PoolBlock<string> :: [b][..0] == [];
      assert forall b: PoolBlock<int> :: [b][..0] == [];
    }
  }

  lemma {:induction false} CountedSplit<T>(a: seq<PoolBlock<T>>, b: seq<PoolBlock<T>>, key: T)
    ensures CountedBy(a + b, key) == CountedBy(a, key) + CountedBy(b, key)
    decreases |b|
  {
    if b == [] {
      assert a + b == a && CountedBy(a, key) + [] == CountedBy(a, key);
    } else {
      var n := |b| - 1;
      CountedSplit(a, b[..n], key);
      assert (a + b)[..|a| + n] == a + b[..n];
    }
  }

  /** The service trips at once, so that the site is not looked at. */
  predicate FailsOver(m: Manager, c: Call) {
    && m.serviceInit && c.name in m.service && c.error !in m.service[c.name].conf.errorCodes
    && TripsNow(m.service, c.name, c.a.now)
  }

  /** The calls for a service whose error is outside its list. */
  function OutsideList(calls: seq<Call>, service: string, codes: set<int>): seq<int> {
    if calls == [] then []
    else
      var n := |calls| - 1;
      OutsideList(calls[..n], service, codes)
      + if calls[n].name == service && calls[n].error !in codes then [calls[n].a.now] else []
  }

  /** The calls for a site whose error is inside its list and whose service does not trip first. */
  function InsideList(m: Manager, calls: seq<Call>, site: int, codes: set<int>): seq<int> {
    if calls == [] then []
    else
      var n := |calls| - 1;
      InsideList(m, calls[..n], site, codes)
      + if calls[n].site == site && calls[n].error in codes && !FailsOver(CallRun(m, calls[..n]), calls[n])
        then [calls[n].b.now] else []
  }

  /** In any run of calls, the errors of a service are exactly those outside its list, and the
      errors of a site exactly those inside its list that no trip of the service forestalls. */
  lemma {:induction false} ErrorsAreOfLists(m: Manager, calls: seq<Call>, service: string, site: int)
    requires m.serviceInit && m.siteInit && service in m.service && site in m.site
    ensures ErrorTimes(EventsOf(m.service, ServiceBlocks(BlocksOfRun(m, calls)), service))
         == OutsideList(calls, service, m.service[service].conf.errorCodes)
    ensures ErrorTimes(EventsOf(m.site, SiteBlocks(BlocksOfRun(m, calls)), site))
         == InsideList(m, calls, site, m.site[site].conf.errorCodes)
  {
    hide EventsOf, ErrorTimes, BlocksOf, PoolRun, Switched, FailsOver, ErrorsAndResets, CountedBy, ServiceBlocks,
         SiteBlocks;
    if calls == [] {
      NoEvents(m.service, service);
      NoEvents(m.site, site);
      NoneOfEither();
    } else {
      var n := |calls| - 1;
      var c, before, blocks := calls[n], CallRun(m, calls[..n]), BlocksOfRun(m, calls[..n]);
      ErrorsAreOfLists(m, calls[..n], service, site);
      RunKeeps(m, calls[..n]);
      CallCounts(before, c, service, site);
      var more := BlocksOf(before, c);
      ServiceBlocksSplit(blocks, more);
      OneMoreCall(m.service, ServiceBlocks(blocks), ServiceBlocks(more), service);
      OneMoreCall(m.site, SiteBlocks(blocks), SiteBlocks(more), site);
    }
  }

  lemma NoneOfEither()
    ensures ServiceBlocks([]) == [] && SiteBlocks([]) == []
  {
  }

  lemma NoEvents<T>(pool: map<T, Entry>, key: T)
    ensures ErrorTimes(EventsOf(pool, [], key)) == []
  {
  }

  lemma OneMoreCall<T>(pool: map<T, Entry>, blocks: seq<PoolBlock<T>>, more: seq<PoolBlock<T>>, key: T)
    requires ErrorsAndResets(more)
    ensures ErrorTimes(EventsOf(pool, blocks + more, key))
         == ErrorTimes(EventsOf(pool, blocks, key)) + CountedBy(more, key)
  {
    hide EventsOf, ErrorTimes, CountedBy;
    EventsSplit(pool, blocks, more, key);
    ErrorTimesSplit(EventsOf(pool, blocks, key), EventsOf(PoolRun(pool, blocks), more, key));
    ErrorTimesOf(PoolRun(pool, blocks), more, key);
  }
}
