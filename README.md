# Coroot cache read path, generic `CMap` and `World` helpers in Dafny

This project models three parts of the Coroot observability backend and
proves properties of the model.

- **The chunk cache read path** (`cache/client.go`). A registry maps each
  project to its store. A store maps each query fingerprint to the
  query's on-disk chunks and holds a project step. `QueryRange` aligns the
  window to the step grid. It keeps the chunks that meet the window and
  reads them in ascending `Created` order into one result sink, so the
  newest chunk wins where chunks overlap. The first failed read aborts the
  call. `GetStep` picks the coarsest step among the chunks that meet a
  window. `GetTo` bounds queryable time by the sources' minimum update
  time less one project step.
- **`CMap`** (`utils/map.go`). A lock-guarded key/value store whose Go
  storage map starts out nil and is allocated lazily.
- **`World`** (`model/world.go`). Lookups over a project's applications
  and nodes, a lazily built `(namespace, name)` index, get-or-create, and
  the collection of Coroot's own components.

Files:

- `wrappers.dfy`: `Option` and `Result`.
- `timeseries.dfy`: times, Go integer division and `Time.Truncate`.
- `collections.dfy`: `maps.Values` and the multiset of a map's values.
- `cmap.dfy`: the `CMap` class.
- `cache.dfy`: the chunk index, selection, ordering, merging and the client.
- `world.dfy`: `World` and the classes it points to.

Modelling choices:

- `chunk.Read` is a function parameter of type `ChunkReader`. It returns
  either the cells it writes or an error. A cell is a (series, point index)
  slot. Applying a read is map override (`res + cells`), so a later read
  overwrites an earlier one cell by cell. The fill function is folded into
  the reader.
- `QueryRange` also returns `readLog`: the chunks whose `Read` was invoked,
  in call order. The source has no such value. It is how the model states
  which chunks are read and in which order.
- `queryHash` and `getMinUpdateTime` are function parameters.
- A chunk's `To()` is the descriptor field `lastTs`.
- `Time.Truncate(d)` is not among the modelled files. It is taken to be
  Go's `t / d * d`, which rounds toward zero. `Truncate` writes that out.
- `sort.Slice` is modelled by an insertion sort. Its contract is "sorted
  by `Created` and a permutation of the input". Equal `Created` values may
  come in any order, as with the unstable library sort.
- Go map iteration order is unspecified. Loops over maps pick keys with
  `:|`, and results are stated as multisets or as sets of ids.
- A Go nil map is `None`: `CMap.storage` and `World.appsByNsAndName`.
- In the source, a query with no index entry returns `nil, nil`. The model
  returns `Success(map[])`, the empty result.
- `IsCorootComponent()`, `ApplicationTypes()`, `Name.Value()` and
  `K8sName.Value()` are fields (`corootComponent`, `types`, `name`,
  `k8sName`). `NewApplication` is the `Application` constructor; it fixes
  only the id, `Custom = false` and the empty instance list.

## Model

| member | source | states |
|---|---|---|
| Timeseries.Quot | cache/client.go:51 | Go's `/` for a positive divisor rounds toward zero: `q*d <= a < q*d + d` for `a >= 0`, and the mirror bound for `a < 0` |
| Timeseries.Truncate | cache/client.go:43-44 | the truncated time is a multiple of the step and lies less than one step from `t`, on the side of zero, which pins it to Go's `t / d * d` |
| Cache.GridAlignment | cache/client.go:43-51 | with the point count `ResultPoints` written as Go's `int(to.Sub(from)/step + 1)` (line 51): after truncation, `from' + (points - 1) * step == to'`, so the reads cover exactly the aligned window; `from <= to` gives at least one point |
| Cache.InsertByCreatedSorted | cache/client.go:54-56 | inserting a chunk into a list sorted by `Created` keeps it sorted |
| Cache.InsertByCreatedAdds | cache/client.go:54-56 | inserting a chunk adds exactly one occurrence of it and loses nothing |
| Cache.SortByCreated | cache/client.go:53-56 | the result is sorted by `Created` and is a permutation of the input |
| Cache.SelectedCount | cache/client.go:60-63 | with `Intersects` the negation of the skip test at lines 61 and 88 (`ch.From > to` or `ch.To() < from`), the chunk filter keeps each chunk that meets `[from', to']` as often as it occurs, and drops every other chunk |
| Cache.SelectedSorted | cache/client.go:54-63 | filtering a list sorted by `Created` leaves it sorted |
| Cache.MergeAllWritten | cache/client.go:65-69 | a merge succeeds only when every read in it succeeded |
| Cache.LastWriter | cache/client.go:60-69 | the index of the last chunk whose read writes a cell: that read writes it and no later one does; -1 exactly when no read writes it |
| Cache.MergeLastWriteWins | cache/client.go:60-69 | after a successful merge, a cell is in the result iff some read wrote it, and it then holds the value of the last read that wrote it |
| Cache.LastWriterIsNewest | cache/client.go:53-63 | in a list sorted by `Created`, the last chunk that writes a cell is a newest one among the chunks that write it |
| Cache.MergeNewestWins | cache/client.go:53-69 | for chunks in ascending `Created` order, each result cell holds the write of a chunk with the greatest `Created` among the chunks that wrote that cell |
| Cache.ReadChunks | cache/client.go:60-70 | the loop's result is the merge of the chunks it read; on success it read exactly the intersecting chunks in list order; on failure it read the intersecting chunks up to and including chunk `i`, all earlier reads succeeded and the last read's error is returned |
| Cache.UnreadAreNewer | cache/client.go:53-69 | the intersecting chunks of a sorted list are, as a multiset, those up to and including position `i` plus those after it; the ones up to `i` are a sub-multiset of all, and every intersecting chunk left unread is not older than chunk `i` |
| Cache.SelectedEndsWith | cache/client.go:54-65 | for an intersecting chunk `i` of a sorted list, the chunks read up to it stay sorted and end with it |
| Cache.StoppedRead | cache/client.go:60-69 | a loop stopped by the failed read of chunk `i` has read, in order, only intersecting chunks, ending with chunk `i`; every intersecting chunk it did not read is at least as new |
| Cache.CompleteRead | cache/client.go:60-70 | a loop that ran to the end has read every intersecting chunk, as often as it occurs, in `Created` order |
| Cache.Cache.GetCacheClient | cache/client.go:19-24 | a fresh client bound to this cache and the given project |
| Cache.Client.QueryRange | cache/client.go:31-75 | unknown project: `UnknownProject`, no reads. Query not indexed: empty result, no reads. Otherwise the reads are in non-decreasing `Created` order, all with the aligned `from'`, the window's point count and `step`. On success every intersecting chunk was read, no other was, and the result is their ordered merge. On failure the last read failed and its error is returned; all earlier reads succeeded; no chunk was read after it |
| Cache.Client.GetStep | cache/client.go:77-100 | unknown project: error. Otherwise the largest positive `Step` among all chunks of all queries that meet the raw `[from, to]` (meeting as `Intersects` states the skip test at line 88), or the project step if none has one |
| Cache.StepForIsUnique | cache/client.go:85-99 | the step `GetStep` specifies is unique for a project and window |
| Cache.Client.GetTo | cache/client.go:102-121 | passes on the min-update error; a zero min update time gives 0 before the project is looked up; then an unknown project errors; otherwise the result plus the project step equals the min update time |
| Collections.Values | cache/client.go:53 | `maps.Values`: one value per key; the values form the multiset of the map's values |
| Utils.CMap.constructor | utils/map.go:7-10 | the zero `CMap`: storage is nil and holds nothing |
| Utils.CMap.Store | utils/map.go:12-19 | allocates storage if nil; the new contents are the old ones with `key` bound to `value` |
| Utils.CMap.Load | utils/map.go:21-26 | `ok` iff the key is bound (never on nil storage); when `ok`, the value is the bound one |
| Utils.CMap.LoadOrStore | utils/map.go:28-40 | key present: returns its value with `loaded`, contents unchanged. Key absent: inserts `value` and returns it with `!loaded` |
| Utils.CMap.Delete | utils/map.go:42-46 | removes `key` and nothing else; on nil storage a no-op that allocates nothing |
| Utils.CMap.AllValues | utils/map.go:48-59 | exactly one value per key; together they are the multiset of the stored values; the map is unchanged |
| Utils.CMap.Range | utils/map.go:61-69 | each visited entry is a stored binding; no key is visited twice; `f` held on every visited entry but the last; either every entry was visited or `f` returned false on the last one |
| Utils.CMap.EntireMap | utils/map.go:71-80 | returns a map equal to the current contents |
| Utils.StoreThenLoad | utils/map.go:12-26 | `Load(k)` after `Store(k, v)` gives `(v, true)`; every other key keeps its binding |
| Model.World.NewWorld | model/world.go:41-48 | the context holds `from`, `to`, `step` and `rawStep`; applications, custom applications and AWS discovery errors are empty |
| Model.World.GetApplication | model/world.go:50-52 | non-nil iff the id is bound in `Applications`, and then the bound application; reads only |
| Model.World.GetApplicationByNsAndName | model/world.go:54-62 | the first call builds an index holding every `(namespace, name)` of an application id, each bound to an application with that namespace and name; later calls keep the index unchanged; the result is the index entry or nil |
| Model.World.GetOrCreateApplication | model/world.go:64-76 | id present: returns that application and leaves `Applications` unchanged. Id absent: adds a fresh application with that id and `Custom = custom` under the id, and nothing else |
| Model.World.GetNode | model/world.go:78-85 | nil iff no node has the name as `Name` or `K8sName`; otherwise the first such node in `Nodes` order |
| Model.World.GetCorootComponents | model/world.go:87-106 | every result is a coroot component of `Applications`, or a non-external owner of an upstream of a Coroot CE/EE component; ids are pairwise distinct; each such component's id is in the result |
| Model.World.ComponentsById | model/world.go:87-104 | the map the loops build binds each component under its id; it covers every coroot component and every non-external upstream owner of a Coroot CE/EE component, and holds nothing else |
| Model.ComponentsFromIndex | model/world.go:87-106 | the values of a map in which each application is bound under its own id have distinct ids and cover every key |

## Left out

- Locking: the registry `RWMutex`, the `CMap` mutex and `World.Mu`. All operations are modelled as sequential, atomic steps.
- The `sync.WaitGroup` in `QueryRange`. The reads inside it run one after another, so it changes nothing.
- The check-then-insert race in `GetOrCreateApplication`: two callers can both miss and both insert. A sequential model cannot show it.
- `klog` logging and `time.Now`/`time.Since` timing in `QueryRange`. These are I/O and wall clock.
- The body of `chunk.Read`: decoding, filling and how series identities are made. The model takes it as an abstract reader.
- `utils.NewConcurrentMap` and its sharding function. The result sink is a plain map; the sharding function is constant and has no effect.
- `queryHash`, `getMinUpdateTime`, `getStatus` and the `timeseries` methods `Truncate`, `Sub`, `Add` and `To()`. These are not among the modelled files; they are parameters, fields or the stated arithmetic.
- `GetStatus`: a one-line delegation to `getStatus`.
- int64 overflow of times and durations. Times are unbounded integers.
- Cache.Client.QueryRange: requires `step > 0` once the project and the query are found. With `step == 0` the Go code divides by zero at the truncation; negative steps are not modelled. The unknown-project and unindexed-query returns are modelled for every step.
- Cache.Client.QueryRange: returns the merged cells rather than one `MetricValues` per series; the series values and the `nil` versus empty slice distinction are not modelled.
- Floating point: samples are carried as `real` and never computed with.
- `clickhouse/queries.go`: constant SQL text and `fmt.Sprintf` composition, with no logic to verify.
- `NewApplication`, `IsCorootComponent`, `ApplicationTypes` and the `Node`/`Application`/`Instance` structures beyond the fields used here. These are defined in files that are not part of this model.
- `World.Categories`, `World.CheckConfigs`, `World.IntegrationStatus`: the helpers do not touch them.
- Utils.CMap.Load: on a miss, Go returns the zero value of the value type; the model leaves that value unspecified.
- Utils.CMap.Range: returns the sequence of calls made, which the Go method does not; a callback with side effects is not modelled.
