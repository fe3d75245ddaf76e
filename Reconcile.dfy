/**
 * The reconciliation engine as values: the writes a refresh issues against a
 * live pool, the state they lead to, the notice it sends, and the lookup a
 * batch refresh builds.  The imperative adapter in module `Adapter` is
 * proved to follow these definitions step by step.
 */
module Reconcile {
  import opened Snapshots
  import opened Params

  /** One call of a setter on the live pool, in the order it is made. */
  datatype Write =
    | SetMaximumPoolSize(size: int)
    | SetCorePoolSize(size: int)
    | SetKeepAliveTime(time: int)
    | SetThreadPoolAliasName(alias: string)

  /** The invariant a live pool keeps at rest and between any two writes:
      a non-negative core size no larger than a positive max size, and a
      non-negative keep-alive. */
  predicate AtRest(f: MainFields)
  {
    0 <= f.corePoolSize <= f.maxPoolSize && 0 < f.maxPoolSize && 0 <= f.keepAliveTime
  }

  /** Does the pool accept the write in state `f`?  These are the executor's
      own rejection rules: `setCorePoolSize` refuses a negative size or one
      above the current max, `setMaximumPoolSize` refuses a non-positive size
      or one below the current core, `setKeepAliveTime` a negative time. */
  predicate Accepts(f: MainFields, w: Write)
  {
    match w
    case SetMaximumPoolSize(n) => 0 < n && f.corePoolSize <= n
    case SetCorePoolSize(n) => 0 <= n <= f.maxPoolSize
    case SetKeepAliveTime(t) => 0 <= t
    case SetThreadPoolAliasName(_) => true
  }

  /** The state after one write. */
  function Apply(f: MainFields, w: Write): MainFields
  {
    match w
    case SetMaximumPoolSize(n) => f.(maxPoolSize := n)
    case SetCorePoolSize(n) => f.(corePoolSize := n)
    case SetKeepAliveTime(t) => f.(keepAliveTime := t)
    case SetThreadPoolAliasName(s) => f.(threadPoolAliasName := s)
  }

  /** The state after a sequence of writes, made in order. */
  function ApplyAll(f: MainFields, ws: seq<Write>): MainFields
    decreases |ws|
  {
    if ws == [] then f else ApplyAll(Apply(f, ws[0]), ws[1..])
  }

  /** Every write of `ws` is accepted in the state reached just before it. */
  predicate AllAccepted(f: MainFields, ws: seq<Write>)
    decreases |ws|
  {
    ws == [] || (Accepts(f, ws[0]) && AllAccepted(Apply(f, ws[0]), ws[1..]))
  }

  /** Every write of `ws` changes the state reached just before it. */
  predicate AllEffective(f: MainFields, ws: seq<Write>)
    decreases |ws|
  {
    ws == [] || (Apply(f, ws[0]) != f && AllEffective(Apply(f, ws[0]), ws[1..]))
  }

  lemma {:induction false} ApplyAllAppend(f: MainFields, a: seq<Write>, b: seq<Write>)
    ensures ApplyAll(f, a + b) == ApplyAll(ApplyAll(f, a), b)
    decreases |a|
  {
    if a == [] {
      assert a + b == b;
    } else {
      assert (a + b)[0] == a[0] && (a + b)[1..] == a[1..] + b;
      ApplyAllAppend(Apply(f, a[0]), a[1..], b);
    }
  }

  lemma {:induction false} AllAcceptedAppend(f: MainFields, a: seq<Write>, b: seq<Write>)
    ensures AllAccepted(f, a + b) <==> AllAccepted(f, a) && AllAccepted(ApplyAll(f, a), b)
    decreases |a|
  {
    if a == [] {
      assert a + b == b;
    } else {
      assert (a + b)[0] == a[0] && (a + b)[1..] == a[1..] + b;
      AllAcceptedAppend(Apply(f, a[0]), a[1..], b);
    }
  }

  lemma ApplyAllShort(f: MainFields, v: Write, w: Write)
    ensures ApplyAll(f, [v]) == Apply(f, v)
    ensures ApplyAll(f, [v, w]) == Apply(Apply(f, v), w)
    ensures AllAccepted(f, [v]) <==> Accepts(f, v)
    ensures AllAccepted(f, [v, w]) <==> Accepts(f, v) && Accepts(Apply(f, v), w)
  {
    var g := Apply(f, v);
    assert [v][0] == v && [v][1..] == [];
    assert [w][0] == w && [w][1..] == [];
    assert [v, w][0] == v && [v, w][1..] == [w];
    assert ApplyAll(g, [w]) == ApplyAll(Apply(g, w), []);
    assert ApplyAll(f, [v, w]) == ApplyAll(g, [w]);
    assert AllAccepted(g, [w]) == (Accepts(g, w) && AllAccepted(Apply(g, w), []));
    assert AllAccepted(f, [v, w]) == (Accepts(f, v) && AllAccepted(g, [w]));
  }

  /** An accepted write keeps a pool at rest. */
  lemma AcceptedWriteStaysAtRest(f: MainFields, w: Write)
    requires AtRest(f) && Accepts(f, w)
    ensures AtRest(Apply(f, w))
  {
  }

  /** If every write is accepted, every intermediate state is at rest. */
  lemma {:induction false} AcceptedWritesStayAtRest(f: MainFields, ws: seq<Write>)
    requires AtRest(f) && AllAccepted(f, ws)
    ensures forall k :: 0 <= k <= |ws| ==> AtRest(ApplyAll(f, ws[..k]))
    decreases |ws|
  {
    if ws != [] {
      AcceptedWriteStaysAtRest(f, ws[0]);
      AcceptedWritesStayAtRest(Apply(f, ws[0]), ws[1..]);
      forall k | 0 <= k <= |ws| ensures AtRest(ApplyAll(f, ws[..k])) {
        if k > 0 {
          assert ws[..k][0] == ws[0] && ws[..k][1..] == ws[1..][..k - 1];
        } else {
          assert ws[..k] == [];
        }
      }
    }
  }

  // ----- Safe resize (doRefreshPoolSize) -----

  /** The writes of the safe resize: when the desired max is at least the
      live max, max is written before core; otherwise core before max; a
      size is written only when it differs from the live one. */
  function ResizeWrites(f: MainFields, p: TpExecutorProps): (r: seq<Write>)
    ensures forall w :: w in r ==> w == SetMaximumPoolSize(p.maximumPoolSize) || w == SetCorePoolSize(p.corePoolSize)
    ensures SetMaximumPoolSize(p.maximumPoolSize) in r <==> p.maximumPoolSize != f.maxPoolSize
    ensures SetCorePoolSize(p.corePoolSize) in r <==> p.corePoolSize != f.corePoolSize
    ensures |r| == (if p.maximumPoolSize != f.maxPoolSize then 1 else 0) + (if p.corePoolSize != f.corePoolSize then 1 else 0)
    ensures forall i, j :: 0 <= i < |r| && 0 <= j < |r| && r[i].SetMaximumPoolSize? && r[j].SetCorePoolSize? ==>
              (if p.maximumPoolSize >= f.maxPoolSize then i < j else j < i)
  {
    var setMax := if p.maximumPoolSize != f.maxPoolSize then [SetMaximumPoolSize(p.maximumPoolSize)] else [];
    var setCore := if p.corePoolSize != f.corePoolSize then [SetCorePoolSize(p.corePoolSize)] else [];
    if p.maximumPoolSize >= f.maxPoolSize then setMax + setCore else setCore + setMax
  }

  /** The safe resize is accepted write by write, keeps the pool at rest in
      every intermediate state, and ends at exactly the desired sizes. */
  lemma ResizeIsSafe(f: MainFields, p: TpExecutorProps)
    requires AtRest(f) && !ContainsInvalidParams(p)
    ensures AllAccepted(f, ResizeWrites(f, p))
    ensures forall k :: 0 <= k <= |ResizeWrites(f, p)| ==> AtRest(ApplyAll(f, ResizeWrites(f, p)[..k]))
    ensures ApplyAll(f, ResizeWrites(f, p)) == f.(corePoolSize := p.corePoolSize, maxPoolSize := p.maximumPoolSize)
  {
    var ws := ResizeWrites(f, p);
    var c, m := p.corePoolSize, p.maximumPoolSize;
    var goal := f.(corePoolSize := c, maxPoolSize := m);
    if m >= f.maxPoolSize {
      ApplyAllShort(f, SetMaximumPoolSize(m), SetCorePoolSize(c));
      ApplyAllShort(f, SetCorePoolSize(c), SetCorePoolSize(c));
      if m != f.maxPoolSize && c != f.corePoolSize {
        assert ws == [SetMaximumPoolSize(m), SetCorePoolSize(c)];
      } else if m != f.maxPoolSize {
        assert ws == [SetMaximumPoolSize(m)];
      } else if c != f.corePoolSize {
        assert ws == [SetCorePoolSize(c)];
      } else {
        assert ws == [] && f == goal;
      }
    } else {
      ApplyAllShort(f, SetCorePoolSize(c), SetMaximumPoolSize(m));
      ApplyAllShort(f, SetMaximumPoolSize(m), SetMaximumPoolSize(m));
      if c != f.corePoolSize {
        assert ws == [SetCorePoolSize(c), SetMaximumPoolSize(m)];
      } else {
        assert ws == [SetMaximumPoolSize(m)];
      }
    }
    AcceptedWritesStayAtRest(f, ws);
  }

  /** No write of the safe resize is redundant: each changes the live value. */
  lemma ResizeWritesAreEffective(f: MainFields, p: TpExecutorProps)
    ensures AllEffective(f, ResizeWrites(f, p))
  {
    var ws := ResizeWrites(f, p);
    var c, m := p.corePoolSize, p.maximumPoolSize;
    if m != f.maxPoolSize && c != f.corePoolSize {
      if m >= f.maxPoolSize {
        assert ws == [SetMaximumPoolSize(m), SetCorePoolSize(c)];
        assert AllEffective(f.(maxPoolSize := m), [SetCorePoolSize(c)]);
      } else {
        assert ws == [SetCorePoolSize(c), SetMaximumPoolSize(m)];
        assert AllEffective(f.(corePoolSize := c), [SetMaximumPoolSize(m)]);
      }
    }
  }

  // ----- Single-pool refresh (doRefresh and the snapshot gate) -----

  /** The writes of `doRefresh`: the safe resize, then the keep-alive when it
      differs, then the alias whenever the desired alias is not blank. */
  function RefreshWrites(f: MainFields, p: TpExecutorProps): seq<Write>
  {
    ResizeWrites(f, p)
    + (if f.keepAliveTime != p.keepAliveTime then [SetKeepAliveTime(p.keepAliveTime)] else [])
    + (if IsNotBlank(p.threadPoolAliasName) then [SetThreadPoolAliasName(p.threadPoolAliasName)] else [])
  }

  /** `doRefresh` sets the keep-alive exactly when it differs from the
      desired one, and sets the alias exactly when the desired alias is not
      blank, each at most once and only to the desired value. */
  lemma KeepAliveAndAliasWrites(f: MainFields, p: TpExecutorProps)
    ensures forall t :: SetKeepAliveTime(t) in RefreshWrites(f, p) <==>
              t == p.keepAliveTime && f.keepAliveTime != p.keepAliveTime
    ensures forall a :: SetThreadPoolAliasName(a) in RefreshWrites(f, p) <==>
              a == p.threadPoolAliasName && IsNotBlank(p.threadPoolAliasName)
  {
    var rs := ResizeWrites(f, p);
    var ka := if f.keepAliveTime != p.keepAliveTime then [SetKeepAliveTime(p.keepAliveTime)] else [];
    var al := if IsNotBlank(p.threadPoolAliasName) then [SetThreadPoolAliasName(p.threadPoolAliasName)] else [];
    assert RefreshWrites(f, p) == rs + ka + al;
    assert forall t :: SetKeepAliveTime(t) !in rs;
    assert forall a :: SetThreadPoolAliasName(a) !in rs;
  }

  /** The alias a refresh leaves: the desired one if it is not blank. */
  function RefreshedAlias(f: MainFields, p: TpExecutorProps): string
  {
    if IsNotBlank(p.threadPoolAliasName) then p.threadPoolAliasName else f.threadPoolAliasName
  }

  /** With valid parameters every write of `doRefresh` is accepted, the pool
      stays at rest, and it ends with the desired sizes and keep-alive, the
      alias given by `RefreshedAlias`, and every other field as it was. */
  lemma RefreshWritesResult(f: MainFields, p: TpExecutorProps)
    requires AtRest(f) && !ContainsInvalidParams(p)
    ensures AllAccepted(f, RefreshWrites(f, p))
    ensures ApplyAll(f, RefreshWrites(f, p)) ==
              f.(corePoolSize := p.corePoolSize, maxPoolSize := p.maximumPoolSize,
                 keepAliveTime := p.keepAliveTime, threadPoolAliasName := RefreshedAlias(f, p))
    ensures AtRest(ApplyAll(f, RefreshWrites(f, p)))
  {
    var rs := ResizeWrites(f, p);
    var ka := if f.keepAliveTime != p.keepAliveTime then [SetKeepAliveTime(p.keepAliveTime)] else [];
    var al := if IsNotBlank(p.threadPoolAliasName) then [SetThreadPoolAliasName(p.threadPoolAliasName)] else [];
    ResizeIsSafe(f, p);
    var g := ApplyAll(f, rs);
    var h := ApplyAll(g, ka);
    AllAcceptedAppend(f, rs, ka);
    ApplyAllAppend(f, rs, ka);
    AllAcceptedAppend(f, rs + ka, al);
    ApplyAllAppend(f, rs + ka, al);
    assert h == g.(keepAliveTime := p.keepAliveTime);
    assert AllAccepted(h, al);
  }

  /** What a change notice carries: the snapshot before the refresh and the
      names of the fields that changed. */
  datatype Notice = Notice(before: MainFields, changedKeys: seq<string>)

  /** The observable result of one single-pool refresh: the new state, the
      setter calls made, and the notice sent, if any. */
  datatype Outcome = Outcome(after: MainFields, writes: seq<Write>, notice: Option<Notice>)

  /** The single-pool refresh as a value.  Absent or invalid parameters
      leave the pool untouched; otherwise the writes of `doRefresh` are
      made and a notice is sent exactly when the snapshots differ. */
  function RefreshOutcome(f: MainFields, props: Option<TpExecutorProps>): (o: Outcome)
    ensures props.None? || ContainsInvalidParams(props.value) ==> o == Outcome(f, [], None)
    ensures o.after == ApplyAll(f, o.writes)
    ensures o.notice.None? <==> o.after == f
    ensures o.notice.Some? ==>
              o.notice.value.before == f && o.notice.value.changedKeys != []
              && forall g :: FieldName(g) in o.notice.value.changedKeys <==> Differs(f, o.after, g)
  {
    if props.None? || ContainsInvalidParams(props.value) then Outcome(f, [], None)
    else
      var ws := RefreshWrites(f, props.value);
      var after := ApplyAll(f, ws);
      Outcome(after, ws, if f == after then None else Some(Notice(f, DiffKeys(f, after))))
  }

  /** The notices a refresh appends to the notification log: none or one. */
  function NoticeLog(n: Option<Notice>): seq<Notice>
  {
    if n.Some? then [n.value] else []
  }

  /** With valid parameters, a refresh ends in the desired state and stays at rest. */
  lemma RefreshReachesDesired(f: MainFields, p: TpExecutorProps)
    requires AtRest(f) && !ContainsInvalidParams(p)
    ensures AllAccepted(f, RefreshOutcome(f, Some(p)).writes)
    ensures RefreshOutcome(f, Some(p)).after ==
              f.(corePoolSize := p.corePoolSize, maxPoolSize := p.maximumPoolSize,
                 keepAliveTime := p.keepAliveTime, threadPoolAliasName := RefreshedAlias(f, p))
  {
    RefreshWritesResult(f, p);
  }

  /** Refreshing twice with the same parameters: the second refresh leaves
      the state as the first left it and sends no notice; the only setter
      it calls is the alias setter, with the alias the pool already has. */
  lemma RefreshIdempotent(f: MainFields, p: TpExecutorProps)
    requires AtRest(f) && !ContainsInvalidParams(p)
    ensures var first := RefreshOutcome(f, Some(p));
            var second := RefreshOutcome(first.after, Some(p));
            second.after == first.after && second.notice.None?
            && second.writes == (if IsNotBlank(p.threadPoolAliasName) then [SetThreadPoolAliasName(p.threadPoolAliasName)] else [])
  {
    RefreshWritesResult(f, p);
    var g := RefreshOutcome(f, Some(p)).after;
    RefreshWritesResult(g, p);
    assert ResizeWrites(g, p) == [];
  }

  /** A notice is sent exactly when the snapshots differ, which is exactly
      when some write of the refresh changed a tracked field. */
  lemma NoticeIffSomeFieldChanged(f: MainFields, props: Option<TpExecutorProps>)
    ensures RefreshOutcome(f, props).notice.Some? <==> exists g :: Differs(f, RefreshOutcome(f, props).after, g)
  {
    var o := RefreshOutcome(f, props);
    SomeFieldDiffers(f, o.after);
    if o.notice.Some? {
      var g :| g in DeclarationOrder && Differs(f, o.after, g);
    } else {
      assert forall g :: !Differs(f, o.after, g);
    }
  }

  // ----- Batch refresh -----

  /** The name-keyed lookup built from the desired-parameter list, entry
      by entry, so that a later entry replaces an earlier one of the same name. */
  function Lookup(ps: seq<TpExecutorProps>): (m: map<string, TpExecutorProps>)
    decreases |ps|
  {
    if ps == [] then map[]
    else Lookup(ps[..|ps| - 1])[ps[|ps| - 1].threadPoolName := ps[|ps| - 1]]
  }

  /** The keys of the lookup are exactly the names listed, each mapped to a
      record of that name. */
  lemma {:induction false} LookupKeys(ps: seq<TpExecutorProps>)
    ensures forall k :: k in Lookup(ps) <==> exists i :: 0 <= i < |ps| && ps[i].threadPoolName == k
    ensures forall k :: k in Lookup(ps) ==> Lookup(ps)[k].threadPoolName == k
    decreases |ps|
  {
    if ps != [] {
      var init := ps[..|ps| - 1];
      LookupKeys(init);
      assert Lookup(ps) == Lookup(init)[ps[|ps| - 1].threadPoolName := ps[|ps| - 1]];
      forall k | k in Lookup(ps) ensures exists i :: 0 <= i < |ps| && ps[i].threadPoolName == k {
        if k != ps[|ps| - 1].threadPoolName {
          var i :| 0 <= i < |init| && init[i].threadPoolName == k;
          assert ps[i] == init[i];
        }
      }
      forall i | 0 <= i < |ps| ensures ps[i].threadPoolName in Lookup(ps) {
        if i < |init| { assert init[i] == ps[i]; }
      }
    }
  }

  /** Last entry wins: an entry with no later entry of the same name is the
      one the lookup holds for that name. */
  lemma {:induction false} LookupLastWins(ps: seq<TpExecutorProps>, i: nat)
    requires i < |ps|
    requires forall j :: i < j < |ps| ==> ps[j].threadPoolName != ps[i].threadPoolName
    ensures ps[i].threadPoolName in Lookup(ps) && Lookup(ps)[ps[i].threadPoolName] == ps[i]
    decreases |ps|
  {
    if i < |ps| - 1 {
      var init := ps[..|ps| - 1];
      assert init[i] == ps[i];
      assert forall j :: i < j < |init| ==> init[j] == ps[j];
      LookupLastWins(init, i);
    }
  }

  /** `tmpMap.get(k)`: the record for key `k`, or `None` when there is none. */
  function Find(m: map<string, TpExecutorProps>, k: string): Option<TpExecutorProps>
  {
    if k in m then Some(m[k]) else None
  }

  /** A registered pool as a batch refresh sees it: its snapshot and the
      log of the setter calls made on it so far. */
  datatype Pool = Pool(fields: MainFields, log: seq<Write>)

  /** A single refresh never leaves a pool that was at rest out of rest. */
  lemma RefreshStaysAtRest(f: MainFields, props: Option<TpExecutorProps>)
    requires AtRest(f)
    ensures AtRest(RefreshOutcome(f, props).after)
  {
    if props.Some? && !ContainsInvalidParams(props.value) {
      RefreshWritesResult(f, props.value);
    }
  }

  /** The pool after a single refresh with `props`: the outcome's state,
      and its writes appended to the log. */
  function Refreshed(p: Pool, props: Option<TpExecutorProps>): Pool
  {
    var o := RefreshOutcome(p.fields, props);
    Pool(o.after, p.log + o.writes)
  }

  /** Every pool of the registry is at rest. */
  predicate AllAtRest(pools: map<string, Pool>)
  {
    forall k :: k in pools ==> AtRest(pools[k].fields)
  }

  /** The registry part-way through a batch refresh: each pool in `done`
      has had its single refresh with the lookup's record of its name, the
      others are as they were. */
  function BatchProgress(start: map<string, Pool>, lookup: map<string, TpExecutorProps>,
                         done: set<string>): map<string, Pool>
  {
    map k | k in start :: if k in done then Refreshed(start[k], Find(lookup, k)) else start[k]
  }

  /** The registry after a batch refresh: every pool refreshed once with
      the record of its own name, or with none. */
  function BatchResult(start: map<string, Pool>, lookup: map<string, TpExecutorProps>): (r: map<string, Pool>)
    ensures r.Keys == start.Keys
    ensures AllAtRest(start) ==> AllAtRest(r)
    ensures forall k :: k in start && k !in lookup ==> r[k] == start[k]
  {
    BatchProgressSteps(start, lookup, start.Keys);
    BatchProgress(start, lookup, start.Keys)
  }

  /** Nothing changes before any pool is visited; the set of pools visited
      only grows the refreshed part; registries at rest stay at rest. */
  lemma BatchProgressSteps(start: map<string, Pool>, lookup: map<string, TpExecutorProps>, done: set<string>)
    ensures BatchProgress(start, lookup, {}) == start
    ensures BatchProgress(start, lookup, done).Keys == start.Keys
    ensures AllAtRest(start) ==> AllAtRest(BatchProgress(start, lookup, done))
    ensures forall k :: k in start && k !in lookup ==> BatchProgress(start, lookup, done)[k] == start[k]
  {
    if AllAtRest(start) {
      forall k | k in start ensures AtRest(BatchProgress(start, lookup, done)[k].fields) {
        RefreshStaysAtRest(start[k].fields, Find(lookup, k));
      }
    }
  }

  /** Visiting one more pool replaces just that pool by its refreshed state. */
  lemma BatchProgressVisit(start: map<string, Pool>, lookup: map<string, TpExecutorProps>,
                           done: set<string>, k: string)
    requires k in start && k !in done
    ensures BatchProgress(start, lookup, done + {k})
            == BatchProgress(start, lookup, done)[k := Refreshed(start[k], Find(lookup, k))]
  {
  }

  /** With an empty lookup, a batch refresh leaves every pool as it was. */
  lemma BatchWithoutRecordsIsNoOp(start: map<string, Pool>)
    ensures BatchResult(start, map[]) == start
  {
    forall k | k in start ensures BatchResult(start, map[])[k] == start[k] {
      assert Find(map[], k) == None;
    }
  }

  /** The notices a batch refresh sends, visiting the keys in `order`; each
      pool is refreshed from its state at the start of the batch with the
      record of the same name. */
  function BatchNotices(order: seq<string>, start: map<string, Pool>,
                        lookup: map<string, TpExecutorProps>): seq<Notice>
    decreases |order|
  {
    if order == [] then []
    else
      var k := order[|order| - 1];
      BatchNotices(order[..|order| - 1], start, lookup)
      + (if k in start then NoticeLog(RefreshOutcome(start[k].fields, Find(lookup, k)).notice) else [])
  }

  /** Visiting one more key appends that pool's notice, if any. */
  lemma BatchNoticesSnoc(order: seq<string>, k: string, start: map<string, Pool>,
                         lookup: map<string, TpExecutorProps>)
    requires k in start
    ensures BatchNotices(order + [k], start, lookup)
            == BatchNotices(order, start, lookup) + NoticeLog(RefreshOutcome(start[k].fields, Find(lookup, k)).notice)
  {
    assert (order + [k])[..|order|] == order;
  }

  /** No name occurs twice in `order`. */
  ghost predicate Distinct(order: seq<string>)
  {
    forall i, j :: 0 <= i < j < |order| ==> order[i] != order[j]
  }

  /** `order` lists every key of `keys` exactly once. */
  ghost predicate Enumerates(order: seq<string>, keys: set<string>)
  {
    Distinct(order) && forall k :: k in order <==> k in keys
  }

  /** A batch part-way through: `order` lists, once each, the keys of
      `start` that are not `remaining`, and `sent` holds the notices the
      visits in that order have sent. */
  ghost predicate Visited(start: map<string, Pool>, lookup: map<string, TpExecutorProps>,
                    remaining: set<string>, order: seq<string>, sent: seq<Notice>)
  {
    && remaining <= start.Keys
    && Distinct(order)
    && (forall k :: k in order <==> k in start && k !in remaining)
    && sent == BatchNotices(order, start, lookup)
  }

  /** Before any visit nothing is visited and no pool has changed. */
  lemma VisitedStart(start: map<string, Pool>, lookup: map<string, TpExecutorProps>)
    ensures Visited(start, lookup, start.Keys, [], [])
    ensures BatchProgress(start, lookup, start.Keys - start.Keys) == start
  {
    assert start.Keys - start.Keys == {};
    BatchProgressSteps(start, lookup, {});
  }

  /** After every key is visited, the order enumerates the keys and the
      registry is the batch's result. */
  lemma VisitedEnd(start: map<string, Pool>, lookup: map<string, TpExecutorProps>, order: seq<string>, sent: seq<Notice>)
    requires Visited(start, lookup, {}, order, sent)
    ensures Enumerates(order, start.Keys) && sent == BatchNotices(order, start, lookup)
    ensures BatchProgress(start, lookup, start.Keys - {}) == BatchResult(start, lookup)
  {
    assert start.Keys - {} == start.Keys;
  }

  /** Visiting a key not yet visited: that pool is still as it was at the
      start (and at rest if the registry was), and afterwards it alone is
      refreshed, it is the last key of the order and its notice, if any,
      is the last one sent. */
  lemma VisitStep(start: map<string, Pool>, lookup: map<string, TpExecutorProps>,
                  remaining: set<string>, order: seq<string>, sent: seq<Notice>, k: string)
    requires Visited(start, lookup, remaining, order, sent) && k in remaining
    ensures BatchProgress(start, lookup, start.Keys - remaining)[k] == start[k]
    ensures AllAtRest(start) ==> AtRest(start[k].fields)
    ensures Visited(start, lookup, remaining - {k}, order + [k],
                    sent + NoticeLog(RefreshOutcome(start[k].fields, Find(lookup, k)).notice))
    ensures BatchProgress(start, lookup, start.Keys - (remaining - {k}))
            == BatchProgress(start, lookup, start.Keys - remaining)[k := Refreshed(start[k], Find(lookup, k))]
  {
    var done := start.Keys - remaining;
    assert start.Keys - (remaining - {k}) == done + {k};
    BatchProgressVisit(start, lookup, done, k);
    BatchNoticesSnoc(order, k, start, lookup);
    assert Distinct(order + [k]);
  }

  /** In a batch refresh from a list of records, a registered pool that no
      record names is left as it was, and a pool that records name is
      refreshed with the last record of its name and with no other. */
  lemma {:induction false} BatchUsesOwnRecord(start: map<string, Pool>, ps: seq<TpExecutorProps>, k: string)
    requires k in start
    ensures (forall i :: 0 <= i < |ps| ==> ps[i].threadPoolName != k) ==>
              BatchResult(start, Lookup(ps))[k] == start[k]
    ensures forall i :: 0 <= i < |ps| && ps[i].threadPoolName == k
                        && (forall j :: i < j < |ps| ==> ps[j].threadPoolName != k) ==>
              BatchResult(start, Lookup(ps))[k] == Refreshed(start[k], Some(ps[i]))
  {
    LookupKeys(ps);
    forall i | 0 <= i < |ps| && ps[i].threadPoolName == k && (forall j :: i < j < |ps| ==> ps[j].threadPoolName != k)
      ensures BatchResult(start, Lookup(ps))[k] == Refreshed(start[k], Some(ps[i]))
    {
      LookupLastWins(ps, i);
      assert Find(Lookup(ps), k) == Some(ps[i]);
    }
  }

  /** Examples: growing (5, 10) to (8, 20) writes max then
      core; shrinking (8, 20) to (2, 10) writes core then max; desired
      (core 5, max 3) is rejected and changes nothing. */
  lemma ResizeExamples(f: MainFields)
    ensures ResizeWrites(f.(corePoolSize := 5, maxPoolSize := 10), TpExecutorProps("p", 8, 20, 60, ""))
              == [SetMaximumPoolSize(20), SetCorePoolSize(8)]
    ensures ResizeWrites(f.(corePoolSize := 8, maxPoolSize := 20), TpExecutorProps("p", 2, 10, 60, ""))
              == [SetCorePoolSize(2), SetMaximumPoolSize(10)]
    ensures RefreshOutcome(f, Some(TpExecutorProps("p", 5, 3, 60, "a"))) == Outcome(f, [], None)
  {
  }
}
