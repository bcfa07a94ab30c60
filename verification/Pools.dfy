/**
 `SwitchStatsPool`: the statistics of all keys. Keys with the same `keyId` form a group that
 is reset together.
 */
module Pools {
  import opened SwitchStats

  datatype Entry = Entry(conf: Conf, stats: Stats)

  function Fresh(now: int): Stats {
    Stats(now, 0, 0, false)
  }

  function On<T>(pool: map<T, Entry>, key: T, e: Event): (r: map<T, Entry>)
    ensures r.Keys == pool.Keys
  {
    if key in pool then pool[key := Entry(pool[key].conf, Step(pool[key].conf, pool[key].stats, e))] else pool
  }

  predicate SameGroup<T>(pool: map<T, Entry>, k: T, key: T) {
    k in pool && key in pool && pool[k].conf.keyId == pool[key].conf.keyId
  }

  function ResetGroup<T>(pool: map<T, Entry>, key: T, now: int): (r: map<T, Entry>)
    ensures r.Keys == pool.Keys
  {
    map k | k in pool :: if SameGroup(pool, k, key) then Entry(pool[k].conf, Fresh(now)) else pool[k]
  }

  predicate IsLatched<T>(pool: map<T, Entry>, key: T) {
    key in pool && pool[key].stats.latched
  }

  function Initial<T>(conf: map<T, Conf>, now: int): map<T, Entry> {
    map k | k in conf :: Entry(conf[k], Fresh(now))
  }

  class SwitchStatsPool<T(==,!new)> {
    var stats: map<T, SwitchKeyStats>

    ghost predicate Valid()
      reads this, stats.Values
    {
      && (forall k, l | k in stats && l in stats && k != l :: stats[k] != stats[l])
      && (forall k | k in stats :: stats[k].requests >= 0)
    }

    ghost function Content(): (r: map<T, Entry>)
      reads this, stats.Values
      ensures r.Keys == stats.Keys
    {
      map k | k in stats :: Entry(stats[k].Configured(), stats[k].State())
    }

    constructor ()
      ensures Valid() && stats == map[] && Content() == map[]
    {
      stats := map[];
    }

    method IsSwitchKey(key: T) returns (r: bool)
      ensures r <==> key in Content()
    {
      return key in stats;
    }

    method IncrementRequests(key: T, now: int)
      requires Valid()
      modifies stats.Values
      ensures Valid() && Content() == On(old(Content()), key, Request(now))
    {
      if key in stats {
        stats[key].IncrementRequests(now);
      }
    }

    method IncrementErrors(key: T, now: int)
      requires Valid()
      modifies stats.Values
      ensures Valid() && Content() == On(old(Content()), key, Error(now))
    {
      if key in stats {
        stats[key].IncrementErrors(now);
      }
    }

    method NeedSwitch(key: T) returns (r: bool)
      ensures r <==> IsLatched(Content(), key)
    {
      if key in stats {
        r := stats[key].NeedSwitch();
        return;
      }
      return false;
    }

    method IsExist(key: T, error: int) returns (r: bool)
      ensures r <==> key in Content() && error in Content()[key].conf.errorCodes
    {
      if key in stats {
        r := stats[key].IsExist(error);
        return;
      }
      return false;
    }

    /** `reset` of one key: every key of its group is reset. */
    method Reset(key: T, now: int)
      requires Valid()
      modifies stats.Values
      ensures Valid() && Content() == ResetGroup(old(Content()), key, now)
    {
      if key in stats {
        var keyId := stats[key].keyId;
        var todo := stats.Keys;
        while todo != {}
          invariant todo <= stats.Keys && Valid()
          invariant forall k | k in stats ::
            stats[k].State() == if k !in todo && stats[k].keyId == keyId then Fresh(now) else old(stats[k].State())
        {
          var k :| k in todo;
          if stats[k].keyId == keyId {
            stats[k].Reset(now);
          }
          todo := todo - {k};
        }
      }
    }

    method Clear()
      modifies this
      ensures Valid() && Content() == map[]
    {
      stats := map[];
    }

    /** One round of the loop of `init`. */
    method Put(key: T, conf: Conf, now: int)
      requires Valid()
      modifies this
      ensures Valid() && stats.Keys == old(stats).Keys + {key} && fresh(stats[key])
      ensures stats[key].Configured() == conf && stats[key].State() == Fresh(now)
      ensures forall k | k in old(stats) && k != key :: stats[k] == old(stats)[k]
    {
      var stat := new SwitchKeyStats(conf, now);
      assert stat.State() == Fresh(now);
      stats := stats[key := stat];
    }

    /** `init`: an entry for every key of the configuration. */
    method Init(conf: map<T, Conf>, now: int)
      requires Valid()
      modifies this
      ensures Valid() && Content() == old(Content()) + Initial(conf, now)
      ensures fresh(stats.Values - old(stats.Values))
    {
      hide Content, Valid;
      Entries();
      var todo := conf.Keys;
      ghost var before := stats;
      while todo != {}
        invariant todo <= conf.Keys && stats.Keys == before.Keys + (conf.Keys - todo)
        invariant Valid() && unchanged(old(stats.Values))
        invariant forall k | k in stats ::
          if k in conf && k !in todo then
            fresh(stats[k]) && stats[k].Configured() == conf[k] && stats[k].State() == Fresh(now)
          else stats[k] == before[k]
      {
        var key :| key in todo;
        Put(key, conf[key], now);
        todo := todo - {key};
      }
      ContentIs(old(Content()) + Initial(conf, now));
    }

    lemma Entries()
      ensures forall k | k in stats :: Content()[k] == Entry(stats[k].Configured(), stats[k].State())
    {
    }

    lemma ContentIs(pool: map<T, Entry>)
      requires pool.Keys == stats.Keys
      requires forall k | k in stats :: pool[k] == Entry(stats[k].Configured(), stats[k].State())
      ensures Content() == pool
    {
    }
  }
}
