# Reconciliation engine of the dynamic thread-pool adapter

This project models the reconciliation engine of `AbstractDtpAdapter` from
dynamic-tp in Dafny. The engine changes a live thread pool's tunable
parameters in place:

- core size;
- max size;
- keep-alive;
- alias.

It also decides whether a change notice is due. The model has four parts:

- **Safe resize** (`doRefreshPoolSize`). It writes the new core and max sizes
  in an order that keeps `core <= max` at every step: max first when the
  desired max is at least the live max, core first otherwise. It writes a
  size only when it differs from the live one.
- **Single refresh** (`refresh(name, wrapper, platforms, props)` and
  `doRefresh`). Guard clauses return early without any change. Otherwise the
  refresh takes a snapshot, runs the safe resize, sets the keep-alive if it
  differs and the alias if the desired one is not blank, and takes a second
  snapshot. When the two snapshots differ it sends one notice. The notice
  carries the snapshot from before and the names of the changed fields, listed
  in the declaration order of `MainFields` (an order the model fixes).
- **Batch refresh** (`refresh(name, propsList, platforms)`). It does nothing
  when the list or the registry is empty. Otherwise it builds a lookup keyed
  by pool name, where the last record of a name wins, and refreshes every
  registered pool with the record of its own name, or with none.
- **Registry and stats**. This part covers the `executors` map,
  `getExecutorWrappers` and `getMultiPoolStats`.

The model has four modules:

- `Snapshots`: the tracked fields of a pool (`MainFields`) and the
  field-by-field diff.
- `Params`: the desired parameters, the validity check and Java's blank test.
- `Reconcile`: the engine as pure values. It defines:
  - the setter calls a refresh makes (`Write`);
  - the state they lead to;
  - the executor's rejection rules;
  - the outcome and notice of a single refresh;
  - the lookup, the result and the notices of a batch refresh.
- `Adapter`: the imperative part. `ExecutorWrapper` is a class whose setter
  methods update its fields in place and append to a ghost log of setter
  calls. `DtpAdapter` holds the registry map and a ghost log of the notices it
  has sent. Each of its methods is proved to make exactly the setter calls,
  reach exactly the state and send exactly the notices that `Reconcile`
  defines.

The map's iteration order is unspecified. Where it matters (stats, notice
order in a batch), the methods return a ghost `order`: any enumeration of the
registry's names, which fixes the order of the results.

## Model

All source cells refer to `adapter/adapter-common/src/main/java/com/dtp/adapter/common/AbstractDtpAdapter.java`.

| member | source | states |
|---|---|---|
| Snapshots.DeclarationOrderComplete | adapter/adapter-common/src/main/java/com/dtp/adapter/common/AbstractDtpAdapter.java:122 | the declaration order lists every tracked field, by strictly increasing rank |
| Snapshots.DiffOver | adapter/adapter-common/src/main/java/com/dtp/adapter/common/AbstractDtpAdapter.java:122 | a field is in the diff over a list exactly when it is in the list and the two snapshots disagree on it |
| Snapshots.DiffOverInOrder | adapter/adapter-common/src/main/java/com/dtp/adapter/common/AbstractDtpAdapter.java:122 | the diff over an ordered field list keeps that order |
| Snapshots.Diff | adapter/adapter-common/src/main/java/com/dtp/adapter/common/AbstractDtpAdapter.java:116-122 | the diff holds exactly the fields on which the snapshots disagree, in declaration order, and is empty exactly when the snapshots are equal |
| Snapshots.DiffOverDeclarationOrder | adapter/adapter-common/src/main/java/com/dtp/adapter/common/AbstractDtpAdapter.java:116-122 | over all tracked fields the diff is empty exactly when the snapshots are equal |
| Snapshots.SomeFieldDiffers | adapter/adapter-common/src/main/java/com/dtp/adapter/common/AbstractDtpAdapter.java:116 | unequal snapshots disagree on at least one tracked field |
| Snapshots.Names | adapter/adapter-common/src/main/java/com/dtp/adapter/common/AbstractDtpAdapter.java:123 | the names list has one name per field, in the same order |
| Snapshots.DiffKeys | adapter/adapter-common/src/main/java/com/dtp/adapter/common/AbstractDtpAdapter.java:122-123 | a field's name is among the changed keys exactly when the snapshots disagree on that field; the keys are empty exactly when the snapshots are equal |
| Snapshots.FieldNameInjective | adapter/adapter-common/src/main/java/com/dtp/adapter/common/AbstractDtpAdapter.java:123 | distinct fields are reported under distinct names |
| Reconcile.ApplyAllAppend | adapter/adapter-common/src/main/java/com/dtp/adapter/common/AbstractDtpAdapter.java:137-144 | making two runs of setter calls one after the other is making their concatenation |
| Reconcile.AllAcceptedAppend | adapter/adapter-common/src/main/java/com/dtp/adapter/common/AbstractDtpAdapter.java:137-144 | a concatenation of setter calls is accepted exactly when the first run is accepted and the second run is accepted from where the first ends |
| Reconcile.AcceptedWriteStaysAtRest | adapter/adapter-common/src/main/java/com/dtp/adapter/common/AbstractDtpAdapter.java:150-167 | a setter call the executor accepts keeps `0 <= core <= max`, `max > 0` and `keepAlive >= 0` |
| Reconcile.AcceptedWritesStayAtRest | adapter/adapter-common/src/main/java/com/dtp/adapter/common/AbstractDtpAdapter.java:150-167 | if every call of a run is accepted, every intermediate state keeps `core <= max` |
| Params.ContainsInvalidParams | adapter/adapter-common/src/main/java/com/dtp/adapter/common/AbstractDtpAdapter.java:109 | the guard on the desired parameters: a negative core size, a non-positive max size, a max below the core or a negative keep-alive is invalid, and then the refresh changes nothing (`RefreshOutcome`) |
| Params.IsNotBlank | adapter/adapter-common/src/main/java/com/dtp/adapter/common/AbstractDtpAdapter.java:142 | `StringUtils.isNotBlank`: the alias holds some character that Java does not count as whitespace; the empty string (and so `null`) is blank |
| Reconcile.ResizeWrites | adapter/adapter-common/src/main/java/com/dtp/adapter/common/AbstractDtpAdapter.java:150-167 | the resize sets only the desired max and the desired core; it sets max exactly when max differs and core exactly when core differs; it writes max before core when the desired max is at least the live max, and core before max otherwise |
| Reconcile.ResizeIsSafe | adapter/adapter-common/src/main/java/com/dtp/adapter/common/AbstractDtpAdapter.java:150-167 | with valid desired sizes and a pool at rest, the executor accepts every setter call, every intermediate state keeps `core <= max`, and the final state has exactly the desired core and max with every other field unchanged |
| Reconcile.ResizeWritesAreEffective | adapter/adapter-common/src/main/java/com/dtp/adapter/common/AbstractDtpAdapter.java:152-165 | no setter call of the resize is redundant: each changes the value it sets |
| Reconcile.RefreshWrites | adapter/adapter-common/src/main/java/com/dtp/adapter/common/AbstractDtpAdapter.java:137-144 | the setter calls of `doRefresh`, in order: the resize's calls, then the keep-alive call when it differs, then the alias call when the alias is not blank; what they achieve is stated by `KeepAliveAndAliasWrites` and `RefreshWritesResult` |
| Reconcile.KeepAliveAndAliasWrites | adapter/adapter-common/src/main/java/com/dtp/adapter/common/AbstractDtpAdapter.java:139-144 | the keep-alive is set, to the desired value, exactly when it differs; the alias is set, to the desired value, exactly when the desired alias is not blank |
| Reconcile.RefreshWritesResult | adapter/adapter-common/src/main/java/com/dtp/adapter/common/AbstractDtpAdapter.java:133-148 | with valid parameters every setter call of `doRefresh` is accepted; the pool ends at rest with the desired core, max and keep-alive, the desired alias if it is not blank and the old alias otherwise, and every other field as it was |
| Reconcile.RefreshOutcome | adapter/adapter-common/src/main/java/com/dtp/adapter/common/AbstractDtpAdapter.java:104-131 | absent or invalid parameters give no change, no setter call and no notice; the new state is the result of the setter calls; a notice is sent exactly when the state changed, and it carries the snapshot from before and a non-empty list holding exactly the names of the changed fields |
| Reconcile.RefreshReachesDesired | adapter/adapter-common/src/main/java/com/dtp/adapter/common/AbstractDtpAdapter.java:113-144 | with valid parameters the refresh is accepted call by call and ends in the desired state |
| Reconcile.RefreshIdempotent | adapter/adapter-common/src/main/java/com/dtp/adapter/common/AbstractDtpAdapter.java:116-167 | a second refresh with the same parameters leaves the state as the first left it and sends no notice; its only setter call is the alias setter, when the alias is not blank |
| Reconcile.NoticeIffSomeFieldChanged | adapter/adapter-common/src/main/java/com/dtp/adapter/common/AbstractDtpAdapter.java:116-124 | a notice is sent exactly when some tracked field changed |
| Reconcile.Lookup | adapter/adapter-common/src/main/java/com/dtp/adapter/common/AbstractDtpAdapter.java:100 | `StreamUtil.toMap` keyed by pool name: the records are entered from first to last, so a later record of a name replaces an earlier one; its keys and the last-wins rule are stated by `LookupKeys` and `LookupLastWins` |
| Reconcile.LookupKeys | adapter/adapter-common/src/main/java/com/dtp/adapter/common/AbstractDtpAdapter.java:100 | the lookup's keys are exactly the names listed, and each maps to a record of that name |
| Reconcile.LookupLastWins | adapter/adapter-common/src/main/java/com/dtp/adapter/common/AbstractDtpAdapter.java:100 | when names repeat, the lookup holds the last record of each name |
| Reconcile.Find | adapter/adapter-common/src/main/java/com/dtp/adapter/common/AbstractDtpAdapter.java:101 | `tmpMap.get(k)`: the record of that name, or `None`, which the guard of `refresh` then skips |
| Reconcile.RefreshStaysAtRest | adapter/adapter-common/src/main/java/com/dtp/adapter/common/AbstractDtpAdapter.java:109-114 | a single refresh never takes a pool out of rest, whatever the parameters |
| Reconcile.BatchResult | adapter/adapter-common/src/main/java/com/dtp/adapter/common/AbstractDtpAdapter.java:94-102 | the batch keeps the set of registered names; a registry at rest stays at rest; a pool whose name is not in the lookup is left as it was |
| Reconcile.BatchProgressSteps | adapter/adapter-common/src/main/java/com/dtp/adapter/common/AbstractDtpAdapter.java:101 | part-way through the batch, the registry keeps its names and stays at rest, and unmatched pools are untouched; before any visit nothing has changed |
| Reconcile.BatchProgressVisit | adapter/adapter-common/src/main/java/com/dtp/adapter/common/AbstractDtpAdapter.java:101 | visiting one more pool changes only that pool, to its refreshed state |
| Reconcile.BatchWithoutRecordsIsNoOp | adapter/adapter-common/src/main/java/com/dtp/adapter/common/AbstractDtpAdapter.java:96-97 | with no records, the batch leaves every pool as it was |
| Reconcile.BatchNoticesSnoc | adapter/adapter-common/src/main/java/com/dtp/adapter/common/AbstractDtpAdapter.java:101 | visiting one more pool appends that pool's notice, if any, to the batch's notices |
| Reconcile.VisitedStart | adapter/adapter-common/src/main/java/com/dtp/adapter/common/AbstractDtpAdapter.java:101 | the batch starts with nothing visited, nothing sent and nothing changed |
| Reconcile.VisitedEnd | adapter/adapter-common/src/main/java/com/dtp/adapter/common/AbstractDtpAdapter.java:101 | once every pool is visited, the visit order lists every name exactly once, the notices sent are the batch's notices, and the registry is the batch's result |
| Reconcile.VisitStep | adapter/adapter-common/src/main/java/com/dtp/adapter/common/AbstractDtpAdapter.java:101 | an unvisited pool is still in its starting state; visiting it makes it the last name of the order, its notice (if any) the last notice sent, and its refreshed state its only change |
| Reconcile.BatchUsesOwnRecord | adapter/adapter-common/src/main/java/com/dtp/adapter/common/AbstractDtpAdapter.java:100-101 | a pool that no record names is left as it was; a pool that records name is refreshed with the last record of its name |
| Reconcile.ResizeExamples | adapter/adapter-common/src/main/java/com/dtp/adapter/common/AbstractDtpAdapter.java:150-167 | growing (5, 10) to (8, 20) writes max then core; shrinking (8, 20) to (2, 10) writes core then max; desired core 5 with max 3 changes nothing |
| Adapter.ExecutorWrapper.Fields | adapter/adapter-common/src/main/java/com/dtp/adapter/common/AbstractDtpAdapter.java:113-115 | `ExecutorConverter.convert`: the snapshot of the tracked fields of the wrapper and its executor, taken before and after `doRefresh` |
| Adapter.ExecutorWrapper.SetMaximumPoolSize | adapter/adapter-common/src/main/java/com/dtp/adapter/common/AbstractDtpAdapter.java:153 | callable only with a positive size at least the live core; sets the max, logs the call and keeps the pool at rest |
| Adapter.ExecutorWrapper.SetCorePoolSize | adapter/adapter-common/src/main/java/com/dtp/adapter/common/AbstractDtpAdapter.java:156 | callable only with a non-negative size at most the live max; sets the core, logs the call and keeps the pool at rest |
| Adapter.ExecutorWrapper.SetKeepAliveTime | adapter/adapter-common/src/main/java/com/dtp/adapter/common/AbstractDtpAdapter.java:140 | callable only with a non-negative time; sets the keep-alive and logs the call |
| Adapter.ExecutorWrapper.SetThreadPoolAliasName | adapter/adapter-common/src/main/java/com/dtp/adapter/common/AbstractDtpAdapter.java:143 | sets the wrapper's alias and logs the call |
| Adapter.DtpAdapter.constructor | adapter/adapter-common/src/main/java/com/dtp/adapter/common/AbstractDtpAdapter.java:49 | the registry holds the discovered pools, and no notice has been sent |
| Adapter.DtpAdapter.ExecutorWrappers | adapter/adapter-common/src/main/java/com/dtp/adapter/common/AbstractDtpAdapter.java:69-71 | the registry's current map; its wrapper objects are shared with the caller |
| Adapter.DtpAdapter.GetMultiPoolStats | adapter/adapter-common/src/main/java/com/dtp/adapter/common/AbstractDtpAdapter.java:79-88 | an empty registry gives the empty list; otherwise there is one entry per registered pool, in iteration order, each that pool's snapshot |
| Adapter.DtpAdapter.DoRefreshPoolSize | adapter/adapter-common/src/main/java/com/dtp/adapter/common/AbstractDtpAdapter.java:150-167 | every setter call the resize makes is accepted by the executor; the calls made are exactly `ResizeWrites` and the pool ends in their result |
| Adapter.DtpAdapter.DoRefresh | adapter/adapter-common/src/main/java/com/dtp/adapter/common/AbstractDtpAdapter.java:133-148 | the calls made are exactly `RefreshWrites`, and the pool ends at rest in their result |
| Adapter.DtpAdapter.Refresh | adapter/adapter-common/src/main/java/com/dtp/adapter/common/AbstractDtpAdapter.java:104-131 | a null wrapper changes nothing; otherwise the pool's new state, its setter calls and the notices appended are those of `RefreshOutcome`; one refresh appends at most one notice |
| Adapter.DtpAdapter.RefreshAll | adapter/adapter-common/src/main/java/com/dtp/adapter/common/AbstractDtpAdapter.java:94-102 | an empty list or registry changes nothing and sends nothing; otherwise the registry keeps its pools, every pool ends in `BatchResult` of the lookup, and the notices are the batch's notices in the visit order |
| Adapter.DtpAdapter.RefreshEach | adapter/adapter-common/src/main/java/com/dtp/adapter/common/AbstractDtpAdapter.java:101 | the `forEach` visits every registered name once, leaves every pool refreshed with its own record, and appends exactly the notices of those visits |
| Adapter.DtpAdapter.VisitPool | adapter/adapter-common/src/main/java/com/dtp/adapter/common/AbstractDtpAdapter.java:101 | one visit of the `forEach` moves the batch one step, as `VisitStep` describes |
| Adapter.DtpAdapter.RefreshPool | adapter/adapter-common/src/main/java/com/dtp/adapter/common/AbstractDtpAdapter.java:104-131 | refreshing one registered pool changes only that pool and appends only its notice |
| Adapter.DtpAdapter.PoolsAtRest | adapter/adapter-common/src/main/java/com/dtp/adapter/common/AbstractDtpAdapter.java:49 | every pool in a valid registry is at rest |
| Adapter.DtpAdapter.ValidFromPools | adapter/adapter-common/src/main/java/com/dtp/adapter/common/AbstractDtpAdapter.java:49 | distinct pools that are all at rest make a valid registry |

## Left out

- The Spring `ApplicationReadyEvent` listener, the `getBean` lookup and the catch-all `try` around start-up (lines 52-60). They are framework wiring; any exception there is logged and swallowed.
- `initialize` and `register` (lines 62-66): their bodies are empty.
- `initNotifyItems`, `AlarmManager.initAlarm` and `updateNotifyInfo` (lines 90-92, 147) are alert configuration calls into code outside this file. The `platforms` argument only feeds them, so it is not modelled.
- `NoticeManager.doNoticeAsync` (line 124) is asynchronous delivery. It is reduced to appending the notice to the ghost log `notices`. The call also passes the wrapper; the notice keeps only the snapshot from before, whose `threadPoolName` identifies the pool.
- Logging and `PROPERTIES_CHANGE_SHOW_STYLE` formatting (lines 117-118, 125-130) are not modelled. The `name` argument is used only there, so it is passed along but has no effect.
- `GetterBaseEquator` (lines 47, 122) compares by reflection. It is replaced by a fixed field-by-field diff over `MainFields`. The order in which the changed keys are listed is not fixed by this file; reporting them in the declaration order of `MainFields` is the model's choice. `TpMainFields` and `ExecutorConverter` are not part of this model. The tracked fields are pool name, core size, max size, keep-alive, queue type, queue capacity, reject policy and alias; the alias is tracked so that an alias change is reported. `ExecutorWrapper.Fields` plays the converter's role.
- `MetricsConverter.convert` (line 86) is not modelled. Each stats entry is the pool's snapshot rather than its exported stats.
- `TimeUnit` conversion (line 139) is not modelled. Keep-alive is a single integer in one common unit.
- Thread safety of the `HashMap` registry and concurrent refreshes of one pool are not modelled; the model is sequential.
- The worker threads and the queue of `ThreadPoolExecutor` are not modelled. Only the core, max and keep-alive fields are kept, with the setters' rejection rules: `setCorePoolSize` refuses a negative size or one above the max, the semantics of Java 9 and later. The `allowCoreThreadTimeOut` rule that a keep-alive of 0 is refused is also left out.
- A `null` alias is modelled as the empty string. Both are blank, and neither is ever written by a refresh.
- ContainsInvalidParams: the validity check is inherited from an interface whose text is not part of this model. It is assumed to reject a negative core size, a non-positive max size, a max size below the core size and a negative keep-alive.
- Adapter.DtpAdapter.Valid: the registry invariant assumes that no wrapper object is registered under two names. The source does not exclude that case, but a shared wrapper would be refreshed twice.
- Adapter.DtpAdapter.ExecutorWrappers: the Java getter returns the mutable `HashMap` itself, so a caller can add or remove pools through it; the model returns the map as an immutable value, so such changes (which could also break the registry invariant `Valid`) are not modelled, and no pool is added or removed after construction.
- The wrapper and the `ThreadPoolExecutor` it wraps are one object (`ExecutorWrapper`), so two wrappers sharing one executor cannot be expressed. In the source a resize through one such wrapper would also change the other's snapshot; the model does not capture that aliasing.
- Reconcile.RefreshIdempotent: the second run is not free of setter calls, as one might expect. The source calls the alias setter again whenever the desired alias is not blank, so the lemma states that this is the only call and that it changes nothing.
