/**
 * The adapter with its registry of live pools, and the refresh that changes
 * a live pool's parameters in place.  Each method is proved to make exactly
 * the setter calls, reach exactly the state and send exactly the notices
 * that module `Reconcile` defines.
 */
module Adapter {
  import opened Snapshots
  import opened Params
  import opened Reconcile

  /** A registered pool: the wrapper's name and alias together with the
      tunable fields of the executor it wraps.  `writes` records every setter
      call, in order, and stands in for the setters' effects beyond the field. */
  class ExecutorWrapper {
    const threadPoolName: string
    var threadPoolAliasName: string
    var corePoolSize: int
    var maximumPoolSize: int
    var keepAliveTime: int
    const queueType: string
    const queueCapacity: int
    const rejectType: string
    ghost var writes: seq<Write>

    /** The executor's own invariant: its snapshot is at rest. */
    ghost predicate Valid()
      reads this
    {
      AtRest(Fields())
    }

    /** The snapshot of the tracked fields (`ExecutorConverter.convert`). */
    function Fields(): MainFields
      reads this
    {
      MainFields(threadPoolName, corePoolSize, maximumPoolSize, keepAliveTime,
                 queueType, queueCapacity, rejectType, threadPoolAliasName)
    }

    /** A pool as the executor's constructor admits it. */
    constructor (name: string, alias: string, core: int, max: int, keepAlive: int,
                 queueType: string, queueCapacity: int, rejectType: string)
      requires 0 <= core <= max && 0 < max && 0 <= keepAlive
      ensures Valid()
      ensures Fields() == MainFields(name, core, max, keepAlive, queueType, queueCapacity, rejectType, alias)
      ensures writes == []
    {
      threadPoolName, threadPoolAliasName := name, alias;
      corePoolSize, maximumPoolSize, keepAliveTime := core, max, keepAlive;
      this.queueType, this.queueCapacity, this.rejectType := queueType, queueCapacity, rejectType;
      writes := [];
    }

    /** `setMaximumPoolSize`: rejected unless positive and at least the core size. */
    method SetMaximumPoolSize(n: int)
      requires Valid() && 0 < n && corePoolSize <= n
      modifies this
      ensures Valid()
      ensures Fields() == Apply(old(Fields()), Write.SetMaximumPoolSize(n))
      ensures writes == old(writes) + [Write.SetMaximumPoolSize(n)]
    {
      maximumPoolSize := n;
      writes := writes + [Write.SetMaximumPoolSize(n)];
    }

    /** `setCorePoolSize`: rejected if negative or above the max size. */
    method SetCorePoolSize(n: int)
      requires Valid() && 0 <= n <= maximumPoolSize
      modifies this
      ensures Valid()
      ensures Fields() == Apply(old(Fields()), Write.SetCorePoolSize(n))
      ensures writes == old(writes) + [Write.SetCorePoolSize(n)]
    {
      corePoolSize := n;
      writes := writes + [Write.SetCorePoolSize(n)];
    }

    /** `setKeepAliveTime`: rejected if negative. */
    method SetKeepAliveTime(t: int)
      requires Valid() && 0 <= t
      modifies this
      ensures Valid()
      ensures Fields() == Apply(old(Fields()), Write.SetKeepAliveTime(t))
      ensures writes == old(writes) + [Write.SetKeepAliveTime(t)]
    {
      keepAliveTime := t;
      writes := writes + [Write.SetKeepAliveTime(t)];
    }

    /** `setThreadPoolAliasName` on the wrapper. */
    method SetThreadPoolAliasName(alias: string)
      requires Valid()
      modifies this
      ensures Valid()
      ensures Fields() == Apply(old(Fields()), Write.SetThreadPoolAliasName(alias))
      ensures writes == old(writes) + [Write.SetThreadPoolAliasName(alias)]
    {
      threadPoolAliasName := alias;
      writes := writes + [Write.SetThreadPoolAliasName(alias)];
    }
  }

  /** The state and setter log of every pool of a registry, by name. */
  ghost function PoolsOf(ws: map<string, ExecutorWrapper>): map<string, Pool>
    reads ws.Values
  {
    map k | k in ws :: Pool(ws[k].Fields(), ws[k].writes)
  }

  /** Two registries with the same names that agree everywhere but at `k`
      differ by the update at `k`. */
  lemma OnlyEntryChanged(pre: map<string, Pool>, post: map<string, Pool>, k: string, v: Pool)
    requires post.Keys == pre.Keys && k in post && post[k] == v
    requires forall j :: j in pre && j != k ==> post[j] == pre[j]
    ensures post == pre[k := v]
  {
  }

  /** Concatenation of notice logs is associative: a hint to the solver,
      which otherwise re-derives this for every loop step. */
  lemma AppendAssoc(a: seq<Notice>, b: seq<Notice>, c: seq<Notice>)
    ensures a + (b + c) == (a + b) + c
  {
  }

  /** The adapter: the registry of live pools by name, and the log of the
      change notices it has dispatched (`NoticeManager.doNoticeAsync`). */
  class DtpAdapter {
    var executors: map<string, ExecutorWrapper>
    ghost var notices: seq<Notice>

    /** Distinct names denote distinct pools, and every pool is at rest. */
    ghost predicate Valid()
      reads this`executors, executors.Values
    {
      (forall k1, k2 :: k1 in executors && k2 in executors && k1 != k2 ==> executors[k1] != executors[k2])
      && (forall k :: k in executors ==> executors[k].Valid())
    }

    /** The registered pools. */
    ghost function Wrappers(): set<ExecutorWrapper>
      reads this`executors
    {
      executors.Values
    }

    /** The state and setter log of every registered pool, by name. */
    ghost function Pools(): map<string, Pool>
      reads this`executors, executors.Values
    {
      PoolsOf(executors)
    }

    /** An adapter over the pools found by discovery. */
    constructor (discovered: map<string, ExecutorWrapper>)
      requires forall k1, k2 :: k1 in discovered && k2 in discovered && k1 != k2 ==> discovered[k1] != discovered[k2]
      requires forall k :: k in discovered ==> discovered[k].Valid()
      ensures Valid()
      ensures executors == discovered && notices == []
    {
      executors := discovered;
      notices := [];
    }

    /** `getExecutorWrappers`: the registry itself. */
    function ExecutorWrappers(): (r: map<string, ExecutorWrapper>)
      reads this`executors
    {
      executors
    }

    /** `getMultiPoolStats`: one entry per registered pool, in the map's
        iteration order (unspecified, so `order` is any enumeration of the
        names); the empty list for an empty registry.  Each entry is the
        pool's snapshot, standing in for its converted stats. */
    method GetMultiPoolStats() returns (stats: seq<MainFields>, ghost order: seq<string>)
      ensures executors == map[] ==> stats == []
      ensures Enumerates(order, executors.Keys)
      ensures |stats| == |order|
      ensures forall i :: 0 <= i < |order| ==> order[i] in executors && stats[i] == executors[order[i]].Fields()
    {
      var wrappers := ExecutorWrappers();
      if wrappers == map[] {
        return [], [];
      }
      stats, order := [], [];
      var remaining := wrappers.Keys;
      while remaining != {}
        invariant remaining <= wrappers.Keys
        invariant Distinct(order)
        invariant forall k :: k in order <==> k in wrappers && k !in remaining
        invariant |stats| == |order|
        invariant forall i :: 0 <= i < |order| ==> order[i] in wrappers && stats[i] == wrappers[order[i]].Fields()
        decreases remaining
      {
        var k :| k in remaining;
        stats := stats + [wrappers[k].Fields()];
        order := order + [k];
        remaining := remaining - {k};
      }
    }

    /** `doRefreshPoolSize`: the safe resize.  Each setter call below is
        checked against the executor's rejection rules, so the pool is at
        rest after every single write. */
    method DoRefreshPoolSize(executor: ExecutorWrapper, props: TpExecutorProps)
      requires executor.Valid() && !ContainsInvalidParams(props)
      modifies executor
      ensures executor.Valid()
      ensures executor.writes == old(executor.writes) + ResizeWrites(old(executor.Fields()), props)
      ensures executor.Fields() == ApplyAll(old(executor.Fields()), ResizeWrites(old(executor.Fields()), props))
    {
      ghost var f := executor.Fields();
      ResizeIsSafe(f, props);
      ApplyAllShort(f, SetMaximumPoolSize(props.maximumPoolSize), SetCorePoolSize(props.corePoolSize));
      ApplyAllShort(f, SetCorePoolSize(props.corePoolSize), SetMaximumPoolSize(props.maximumPoolSize));
      if props.maximumPoolSize >= executor.maximumPoolSize {
        if props.maximumPoolSize != executor.maximumPoolSize {
          executor.SetMaximumPoolSize(props.maximumPoolSize);
        }
        if props.corePoolSize != executor.corePoolSize {
          executor.SetCorePoolSize(props.corePoolSize);
        }
        return;
      }
      if props.corePoolSize != executor.corePoolSize {
        executor.SetCorePoolSize(props.corePoolSize);
      }
      if props.maximumPoolSize != executor.maximumPoolSize {
        executor.SetMaximumPoolSize(props.maximumPoolSize);
      }
    }

    /** `doRefresh`: the safe resize, then the keep-alive if it differs, then
        the alias if the desired one is not blank. */
    method DoRefresh(wrapper: ExecutorWrapper, props: TpExecutorProps)
      requires wrapper.Valid() && !ContainsInvalidParams(props)
      modifies wrapper
      ensures wrapper.Valid()
      ensures wrapper.writes == old(wrapper.writes) + RefreshWrites(old(wrapper.Fields()), props)
      ensures wrapper.Fields() == ApplyAll(old(wrapper.Fields()), RefreshWrites(old(wrapper.Fields()), props))
    {
      ghost var f := wrapper.Fields();
      DoRefreshPoolSize(wrapper, props);
      ghost var g := wrapper.Fields();
      ghost var rs := ResizeWrites(f, props);
      ghost var ka := if f.keepAliveTime != props.keepAliveTime then [SetKeepAliveTime(props.keepAliveTime)] else [];
      ghost var al := if IsNotBlank(props.threadPoolAliasName) then [SetThreadPoolAliasName(props.threadPoolAliasName)] else [];
      ApplyAllAppend(f, rs, ka);
      ApplyAllAppend(f, rs + ka, al);
      ApplyAllShort(g, SetKeepAliveTime(props.keepAliveTime), SetKeepAliveTime(props.keepAliveTime));
      ResizeIsSafe(f, props);
      if wrapper.keepAliveTime != props.keepAliveTime {
        wrapper.SetKeepAliveTime(props.keepAliveTime);
      }
      ghost var h := wrapper.Fields();
      assert h == ApplyAll(f, rs + ka);
      ApplyAllShort(h, SetThreadPoolAliasName(props.threadPoolAliasName), SetThreadPoolAliasName(props.threadPoolAliasName));
      if IsNotBlank(props.threadPoolAliasName) {
        wrapper.SetThreadPoolAliasName(props.threadPoolAliasName);
      }
      assert rs + ka + al == RefreshWrites(f, props);
    }

    /** The single-pool refresh: the guard clauses, the snapshot before,
        `doRefresh`, the snapshot after, and one notice carrying the snapshot
        before and the changed keys when the two snapshots differ. */
    method Refresh(name: string, wrapper: ExecutorWrapper?, props: Option<TpExecutorProps>)
      requires wrapper != null ==> wrapper.Valid()
      modifies this`notices, if wrapper == null then {} else {wrapper}
      ensures wrapper == null ==> notices == old(notices)
      ensures wrapper != null ==>
                var o := RefreshOutcome(old(wrapper.Fields()), props);
                && wrapper.Valid()
                && wrapper.Fields() == o.after
                && wrapper.writes == old(wrapper.writes) + o.writes
                && notices == old(notices) + NoticeLog(o.notice)
      ensures |notices| <= |old(notices)| + 1
    {
      if props.None? || wrapper == null || ContainsInvalidParams(props.value) {
        return;
      }
      var oldFields := wrapper.Fields();
      DoRefresh(wrapper, props.value);
      var newFields := wrapper.Fields();
      if oldFields == newFields {
        return;
      }
      var diffKeys := DiffKeys(oldFields, newFields);
      notices := notices + [Notice(oldFields, diffKeys)];
    }

    /** The batch refresh.  With an empty list or an empty registry it does
        nothing.  Otherwise it builds the name-keyed lookup and refreshes
        every registered pool once, with the record of its own name or with
        none; the map's iteration order is unspecified, so `order` is any
        enumeration of the names and fixes the order of the notices. */
    method RefreshAll(name: string, propsList: seq<TpExecutorProps>) returns (ghost order: seq<string>)
      requires Valid()
      modifies this`notices, Wrappers()
      ensures Valid() && executors == old(executors)
      ensures propsList == [] || executors == map[] ==> order == [] && notices == old(notices) && Pools() == old(Pools())
      ensures propsList != [] && executors != map[] ==> Enumerates(order, executors.Keys)
      ensures Pools() == BatchResult(old(Pools()), Lookup(propsList))
      ensures notices == old(notices) + BatchNotices(order, old(Pools()), Lookup(propsList))
    {
      var wrappers := ExecutorWrappers();
      if propsList == [] || wrappers == map[] {
        if propsList == [] {
          BatchWithoutRecordsIsNoOp(Pools());
        }
        return [];
      }
      var tmpMap := Lookup(propsList);
      ghost var start, sent := Pools(), [];
      order, sent := RefreshEach(name, tmpMap, start);
      VisitedEnd(start, tmpMap, order, sent);
      ValidFromPools();
    }

    /** Every pool of a valid adapter is at rest, and conversely. */
    lemma PoolsAtRest()
      requires Valid()
      ensures AllAtRest(Pools())
    {
      forall k | k in executors ensures AtRest(Pools()[k].fields) {
        assert Pools()[k].fields == executors[k].Fields();
      }
    }

    /** Conversely, distinct pools that are all at rest make a valid adapter. */
    lemma ValidFromPools()
      requires forall k1, k2 :: k1 in executors && k2 in executors && k1 != k2 ==> executors[k1] != executors[k2]
      requires AllAtRest(Pools())
      ensures Valid()
    {
      forall k | k in executors ensures executors[k].Valid() {
        assert Pools()[k].fields == executors[k].Fields();
      }
    }

    /** One visit of the batch: the single refresh of the pool named `k`,
        not yet visited, with the lookup's record of its name.  That pool
        alone changes, and `sent`, its notice if any, is appended to the
        notices. */
    method VisitPool(name: string, wrappers: map<string, ExecutorWrapper>, tmpMap: map<string, TpExecutorProps>, k: string,
                     ghost start: map<string, Pool>, ghost remaining: set<string>,
                     ghost order: seq<string>, ghost sent: seq<Notice>)
      returns (ghost n: seq<Notice>)
      requires Visited(start, tmpMap, remaining, order, sent) && AllAtRest(start) && k in remaining
      requires wrappers.Keys == start.Keys
      requires PoolsOf(wrappers) == BatchProgress(start, tmpMap, start.Keys - remaining)
      requires forall j :: j in wrappers && j != k ==> wrappers[j] != wrappers[k]
      modifies this`notices, wrappers[k]
      ensures Visited(start, tmpMap, remaining - {k}, order + [k], sent + n)
      ensures PoolsOf(wrappers) == BatchProgress(start, tmpMap, start.Keys - (remaining - {k}))
      ensures notices == old(notices) + n
    {
      VisitStep(start, tmpMap, remaining, order, sent, k);
      assert wrappers[k].Fields() == PoolsOf(wrappers)[k].fields;
      n := RefreshPool(name, wrappers, k, Find(tmpMap, k));
    }

    /** The single refresh of pool `k` of the registry `wrappers`: that
        pool's entry becomes its refreshed state, every other pool is left
        as it was, and `n`, the notice if any, is appended to the notices. */
    method RefreshPool(name: string, wrappers: map<string, ExecutorWrapper>, k: string, props: Option<TpExecutorProps>)
      returns (ghost n: seq<Notice>)
      requires k in wrappers && wrappers[k].Valid()
      requires forall j :: j in wrappers && j != k ==> wrappers[j] != wrappers[k]
      modifies this`notices, wrappers[k]
      ensures PoolsOf(wrappers) == old(PoolsOf(wrappers))[k := Refreshed(old(PoolsOf(wrappers))[k], props)]
      ensures n == NoticeLog(RefreshOutcome(old(wrappers[k].Fields()), props).notice)
      ensures notices == old(notices) + n
    {
      ghost var pre := PoolsOf(wrappers);
      ghost var o := RefreshOutcome(wrappers[k].Fields(), props);
      assert pre[k] == Pool(wrappers[k].Fields(), wrappers[k].writes);
      n := NoticeLog(o.notice);
      Refresh(name, wrappers[k], props);
      ghost var post := PoolsOf(wrappers);
      forall j | j in wrappers && j != k ensures post[j] == pre[j] {
        assert wrappers[j] != wrappers[k];
      }
      assert post[k] == Pool(o.after, pre[k].log + o.writes);
      OnlyEntryChanged(pre, post, k, Refreshed(pre[k], props));
    }

    /** `executorWrappers.forEach(...)`: a single refresh of every registered
        pool, in an unspecified order, with the lookup's record of its name. */
    method RefreshEach(name: string, tmpMap: map<string, TpExecutorProps>, ghost start: map<string, Pool>)
      returns (ghost order: seq<string>, ghost sent: seq<Notice>)
      requires Valid() && start == Pools()
      modifies this`notices, Wrappers()
      ensures executors == old(executors)
      ensures Visited(start, tmpMap, {}, order, sent)
      ensures Pools() == BatchProgress(start, tmpMap, start.Keys - {})
      ensures notices == old(notices) + sent
    {
      var wrappers := ExecutorWrappers();
      PoolsAtRest();
      VisitedStart(start, tmpMap);
      order, sent := [], [];
      var remaining := wrappers.Keys;
      while remaining != {}
        invariant Visited(start, tmpMap, remaining, order, sent)
        invariant PoolsOf(wrappers) == BatchProgress(start, tmpMap, start.Keys - remaining)
        invariant notices == old(notices) + sent
        decreases remaining
      {
        var k :| k in remaining;
        ghost var n := VisitPool(name, wrappers, tmpMap, k, start, remaining, order, sent);
        AppendAssoc(old(notices), sent, n);
        order, sent := order + [k], sent + n;
        remaining := remaining - {k};
      }
    }
  }
}
