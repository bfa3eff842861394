# async_tools: string-keyed concurrent maps, modelled in Dafny

Package `async_tools` offers two generic maps from `string` to `*T` that are
safe to share between goroutines: `SyncMap[T]`, guarded by one `sync.Mutex`,
and `RWMap[T]`, guarded by a `sync.RWMutex` where `Load` and `Range` take the
shared lock. Both own an unsynchronised table, `internalMap[T]`. That table
wraps a Go `map[string]*T`, creates it lazily on first use so that a zero-value
container works, and does the real work of the six operations `Load`, `Store`,
`LoadAndDelete`, `Delete`, `LoadOrStore` and `Range`.

The model has three modules:

- `Table` (table.dfy) describes the abstract table as values. Each operation is
  a function from the contents before the call to the contents after it and to
  its results. Their contracts state what the operation means in terms of
  `Lookup`, the read of one key: the round trip of `Store` then `Load`, that
  `Delete` removes only its key, and how `LoadAndDelete` and `LoadOrStore`
  relate to a plain load, store and delete. `Range` is described by `Trace`,
  the sequence of callback calls made when the map's entries are visited in a
  given order. `IsEnumeration` says when a sequence of entries is such an
  order: each entry of the map exactly once. Lemmas prove what the iteration
  promises: each key is visited at most once, with its stored value; no call
  follows the first one that returns false; and a callback that always
  returns true visits every entry exactly once.
- `AsyncTools` (map.dfy) holds the classes `InternalMap`, `SyncMap` and
  `RWMap`. `InternalMap.dirty` is an `Option<map<string, T>>`, where `None`
  stands for the nil map of a zero value. `Init` assigns it lazily, and every
  operation calls `Init` first, just as the Go code does. This is why even
  `Load` and `Range` may change the field, although they never change the
  contents. Each method states its whole new state and its results through the
  `Table` functions. `Range` is a loop over the keys that picks each next key
  arbitrarily (`:|`), which models Go's unspecified map iteration order. It
  leaves the loop with `break` at the first false answer. It returns the calls
  it made, plus a ghost iteration order of all entries that those calls follow.
  `SyncMap` and `RWMap` own an `InternalMap` (the Go field `dirty`) and
  forward each call to it. Their contracts are the same as those of the table
  method they call.
- `AsyncToolsTest` (map_test.dfy) contains the package's two tests as client
  methods. Each starts from a zero-value container, stores four entries, loads
  each one back and ranges over the container. Each is proved to pass.

Callbacks are pure `(string, T) -> bool` functions. Pointers are modelled as
values: a `*T` result is an `Option<T>`, with `None` standing for `nil`. The
`any` result of `LoadOrStore` is a `T`, because it is always the stored value.

The doc comments on `SyncMap.Range` and `RWMap.Range` (map.go:146-150,
214-218) say that `Range` does not block other methods and that `f` may call
any method on the map. The code does the opposite: it holds the lock while `f`
runs (map.go:155-158, 223-226). So a callback that calls any `SyncMap`
method, or an `RWMap` writer, deadlocks. A nested `RWMap.Load` or `Range` takes
the read lock a second time, which Go's `RWMutex` forbids because it deadlocks
once a writer is waiting. The model follows the code in that callbacks cannot
touch the container. The locking itself is not modelled.

## Model

| member | source | states |
|---|---|---|
| `Table.Lookup` | map.go:20-25 | `ok` is true exactly when the key is present. The value is then the stored one, and `nil` (`None`) otherwise. `ok` always agrees with whether a value was returned. |
| `Table.Put` | map.go:28-32 | After a store, the key reads the stored value with `ok = true`. Every other key reads exactly as before. The key set grows by the key alone. |
| `Table.Without` | map.go:50-54 | After a delete, the key is absent and every other key reads as before. Deleting an absent key leaves the table equal to what it was. |
| `Table.LoadAndDeleteStep` | map.go:36-47 | Returns what a `Load` of the key would have returned, and leaves the table as a `Delete` would. On a hit it returns the prior value with `loaded` and the key is gone. On a miss it returns `(nil, false)` and the table is unchanged. |
| `Table.LoadOrStoreStep` | map.go:59-70 | `loaded` is true exactly when the key was present. A present key keeps its value, which is returned, and the table is unchanged. An absent key is stored with the given value, which is returned. Either way the key then reads the returned value, and no other key changes. |
| `Table.LoadOrStoreKeepsFirst` | map.go:56-70 | On a fresh key, a first `LoadOrStore(k, v1)` stores `v1` and reports not loaded. A second `LoadOrStore(k, v2)` returns `v1` with `loaded` and leaves the table as it was, whatever `v2` is. |
| `Table.IsEnumeration` | map.go:86 | A sequence of entries is an iteration order of the map when it holds each entry of the map exactly once, with its stored value. |
| `Table.Trace` | map.go:86-90 | `f` is called on each entry of the order in turn. The call answered false is the last one. There are at most as many calls as entries in the order. |
| `Table.TraceShape` | map.go:83-91 | The calls of a range are a prefix of the iteration order. Every call but the last returned true. The calls stop short of the whole order only when the last call returned false. |
| `Table.RangeAtMostOnce` | map.go:72-76 | For any iteration order of the entries, every call is on a present key with its stored value, and no key is visited twice. |
| `Table.RangeStopsAtFirstFalse` | map.go:72-73 | For any iteration order, no call follows the first one answered false. A range that visits fewer entries than the table holds ended on a false answer. |
| `Table.RangeComplete` | map.go:72-73 | If `f` returns true on every entry, the range makes exactly as many calls as the table has entries, and calls `f` on every `(key, value)` pair. |
| `AsyncTools.InternalMap.constructor` | map.go:7-9 | A zero-value table has a nil map and empty contents. |
| `AsyncTools.InternalMap.Init` | map.go:11-15 | A nil map becomes an empty map, and an existing map is left exactly as it was. So the contents never change and a second call does nothing. |
| `AsyncTools.InternalMap.Load` | map.go:20-25 | The map is initialised and its contents are unchanged. The results are `Lookup` of the key in the prior contents. |
| `AsyncTools.InternalMap.Store` | map.go:28-32 | The new map is the prior contents with `Put` of the key and value. |
| `AsyncTools.InternalMap.LoadAndDelete` | map.go:36-47 | The new map and both results are those of `LoadAndDeleteStep` on the prior contents. |
| `AsyncTools.InternalMap.Delete` | map.go:50-54 | The new map is `Without` the key, applied to the prior contents. |
| `AsyncTools.InternalMap.LoadOrStore` | map.go:59-70 | The new map and both results are those of `LoadOrStoreStep` on the prior contents. |
| `AsyncTools.InternalMap.Range` | map.go:83-91 | The contents are unchanged. The calls made are `Trace` along an iteration order of exactly the entries present, so the `Table` range lemmas apply to them. |
| `AsyncTools.SyncMap.constructor` | map.go:93-96 | A zero-value `SyncMap` owns a fresh table with a nil map and empty contents. |
| `AsyncTools.SyncMap.Load` | map.go:101-106 | Same effect and results as `InternalMap.Load` on the owned table. |
| `AsyncTools.SyncMap.Store` | map.go:109-114 | Same effect as `InternalMap.Store` on the owned table. |
| `AsyncTools.SyncMap.LoadAndDelete` | map.go:118-123 | Same effect and results as `InternalMap.LoadAndDelete` on the owned table. |
| `AsyncTools.SyncMap.Delete` | map.go:126-131 | Same effect as `InternalMap.Delete` on the owned table. |
| `AsyncTools.SyncMap.LoadOrStore` | map.go:136-141 | Same effect and results as `InternalMap.LoadOrStore` on the owned table. |
| `AsyncTools.SyncMap.Range` | map.go:154-159 | Same effect and calls as `InternalMap.Range` on the owned table. |
| `AsyncTools.RWMap.constructor` | map.go:161-164 | A zero-value `RWMap` owns a fresh table with a nil map and empty contents. |
| `AsyncTools.RWMap.Load` | map.go:169-174 | Same effect and results as `InternalMap.Load` on the owned table. |
| `AsyncTools.RWMap.Store` | map.go:177-182 | Same effect as `InternalMap.Store` on the owned table. |
| `AsyncTools.RWMap.LoadAndDelete` | map.go:186-191 | Same effect and results as `InternalMap.LoadAndDelete` on the owned table. |
| `AsyncTools.RWMap.Delete` | map.go:194-199 | Same effect as `InternalMap.Delete` on the owned table. |
| `AsyncTools.RWMap.LoadOrStore` | map.go:204-209 | Same effect and results as `InternalMap.LoadOrStore` on the owned table. |
| `AsyncTools.RWMap.Range` | map.go:222-227 | Same effect and calls as `InternalMap.Range` on the owned table. |
| `AsyncToolsTest.TestData` | map_test.go:15-30 | The tests' data has four entries with pairwise distinct keys. |
| `AsyncToolsTest.TestSyncMap` | map_test.go:12-57 | The `SyncMap` test passes. After four stores on a zero-value map, each key loads back with `ok` and its value, and every entry `Range` hands to the callback carries its stored value. |
| `AsyncToolsTest.TestRWMap` | map_test.go:59-104 | The same test on an `RWMap` passes. |

## Left out

- Locking: the `sync.Mutex` and `sync.RWMutex` fields, `Lock`/`RLock`, the deferred unlocks, and the split into shared and exclusive modes (the fields at map.go:94 and 162, and every `Lock`/`RLock` and deferred unlock in map.go:102-224). The model is sequential, so the locks have no effect in it.
- Concurrency: the `Range` doc comments' claims about entries stored or deleted concurrently, and that `Range` does not block other methods (map.go:75-79, 146-150, 214-218). These concern concurrent use, which a sequential model cannot express.
- Reentrant callbacks: a callback that calls methods on the map it is ranging over. Callbacks are pure functions here. In the Go code a callback that calls any `SyncMap` method, or an `RWMap` writer, deadlocks. A nested `RWMap.Load` or `Range` takes the read lock again, which Go's `RWMutex` forbids because it deadlocks once a writer is waiting.
- Pointer identity: the model does not say that the `*T` returned by `Load`, `LoadAndDelete` and `LoadOrStore`, or passed to `Range`'s callback as `value`, is the pointer stored in the map (map.go:31, 67-69, 86-87). Values are returned as plain values. So a write through such a pointer, which in Go changes what later `Load`s return, cannot be expressed in the model.
- The untyped `any` result of `LoadOrStore` (map.go:59) is modelled as `T`.
- Go's randomised map iteration order: the model allows any order, and does not model the randomisation.
- Callbacks that panic, and the cost of `Range` (`O(N)` even after an early stop, map.go:81-82).
- interface.go declares the method set `cmap[T]` and contains no logic. Its methods are the ones modelled on each class.
- `AsyncToolsTest.TestSyncMap` and `AsyncToolsTest.TestRWMap`: the Go callbacks check each value themselves and always return true. The model passes a callback that returns true, then checks the calls that `Range` returns.
