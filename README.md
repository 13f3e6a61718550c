# Day-keyed article count cache

A model of `LocalMapStorage`, the in-memory cache that the article count
service keeps per day. The cache is a table from a day key to the list of
article day counts recorded for that day. Every key given to `Put` or `Get`
is first truncated to a multiple of `TRUNCATE_TO_DAY` (24 hours), counted
from Go's zero time. A day here is therefore a UTC day: a 24-hour period
from the zero time. All instants of one UTC day address one slot, whatever
the instant's `Location`. The comment "midnight" on that constant holds
only in UTC: two instants on the same local day in UTC+2 can get different
keys. `Put` overwrites that slot.
`Get` returns the slot's list and a found flag. Nothing is ever removed, so
the table only grows. The unexported `size` reports how many day keys are
held. The package-level `StorageImpl` is a store built with an empty map.

Files:

- `time.dfy` (module `Time`): the part of Go's time package the cache uses.
  Instants and durations are integer nanoseconds counted from Go's zero time.
  `Truncate` is Go's `Time.Truncate`: it rounds down to a multiple of the
  duration, and it returns the instant unchanged when the duration is not
  positive.
- `storage.dfy` (module `Storage`): the day key, the table operations as
  functions, the class `LocalMapStorage` with `Put`, `Get` and `Size`, and a
  history model. In the history model each method call on one store value is
  one atomic step, because that value's reader/writer lock serialises the
  calls. A concurrent run is
  therefore some sequence of calls, and the lemmas hold for every such
  sequence.
- `storage_test.dfy` (module `StorageTest`): the package's load test,
  serialised. It puts one payload for each of 10000 consecutive days, then
  gets every day back. It is split into a loading half (`LoadDays`) and a
  checking half (`GetAllDays`).
- Every store keeps the invariant `Valid()`: each key it holds is the start of
  a day. The constructor establishes it and `Put` keeps it. It is what makes
  every held entry one that `Get` can find, and so what `Size` counts.

Design points:

- Instants are unbounded integers rather than naturals. Go rounds down
  toward the past even before the zero time. Dafny's `%` is Euclidean, so
  `t - t % d` is that rounding for every integer `t` when `d > 0`.
- Go's `Get` on a missing key returns the zero value, a nil slice. The model
  returns the empty sequence with `found == false`.
- The element type `messages.ArticleDayCount` is not defined in the
  repository (`messages/messages.go` only defines `ArticleCount`). It is the
  type parameter `T`.

## Model

| member | source | states |
|---|---|---|
| `Time.Truncate` | storage/storage.go:17-18 | The key rounds down to the greatest multiple of the duration that is not after the instant, and stays unchanged for a non-positive duration. |
| `Time.TruncateUnique` | storage/storage.go:17-18 | Truncation is the round-down: any multiple of the duration whose period holds the instant is the result. |
| `Time.TruncateIdempotent` | storage/storage.go:35 | Truncating an already truncated key gives the same key. |
| `Time.TruncateShift` | storage/storage_test.go:19 | Moving an instant by whole periods moves its truncation by the same amount. |
| `Storage.DayKey` | storage/storage.go:17-18 | The key of an instant is the start of its day: a multiple of 24 hours, at most the instant, less than 24 hours before it. |
| `Storage.DayKeyIffSameDay` | storage/storage.go:35 | Two instants get the same key exactly when they lie in the same day since the zero time (both directions). |
| `Storage.DayKeyIdempotent` | storage/storage.go:43 | Normalising a day key leaves it unchanged, and an instant is its own key exactly when it lies on a day boundary. |
| `Storage.DayKeyShift` | storage/storage_test.go:19 | The instant n days later has the key n days later. |
| `Storage.LookupEmpty` | storage/storage.go:13-16 | On the empty table, `Get` reports not found with a nil list for every instant. |
| `Storage.LookupSameDay` | storage/storage.go:43-47 | `Get` gives the same answer for every instant of one day. |
| `Storage.LookupOnBoundary` | storage/storage.go:43 | `Get` at a day's start answers as `Get` at any instant of that day. |
| `Storage.PutOnBoundary` | storage/storage.go:35-38 | `Put` at a day's start writes the same slot, with the same resulting table, as `Put` at any instant of that day. |
| `Storage.NormalisedReachable` | storage/storage.go:43-47 | In a table whose keys are all day starts, `Get` on any held key finds that key's list. |
| `Storage.PutThenGet` | storage/storage.go:34-48 | After `Put(t, v)`, `Get(t')` gives `(v, true)` when `t'` is on `t`'s day and gives the earlier answer on every other day. |
| `Storage.PutOverwrites` | storage/storage.go:38 | A second `Put` to the same day replaces the first list entirely. |
| `Storage.PutFrame` | storage/storage.go:34-39 | `Put` leaves every other key's presence and value unchanged. |
| `Storage.PutSize` | storage/storage.go:38 | `Put` raises the number of keys by 1 when the day was new and by 0 otherwise. |
| `Storage.PutKeepsNormalised` | storage/storage.go:35-38 | `Put` keeps every stored key a day boundary. |
| `Storage.RunLookup` | storage/storage.go:34-48 | After any serialised history the last write wins: `Get` returns the latest `Put` to that day, or else the answer of the starting table. |
| `Storage.RunKeys` | storage/storage.go:27 | The keys after a history are the starting keys plus the days that were `Put`, and nothing else: keys are never removed. |
| `Storage.RunKeysOrderFree` | storage/storage_test.go:19-41 | Which days are present does not depend on the order in which concurrent calls were serialised. |
| `Storage.NeverPutNotFound` | storage/storage.go:41-47 | From the empty store, `Get` on a day that no `Put` touched reports not found, through the flag only. |
| `Storage.RunSize` | storage/storage.go:51-55 | From the empty store, `size` after a history is the number of distinct days that were `Put`. |
| `Storage.RunSizeMonotone` | storage/storage.go:27 | `size` never decreases along a history: the table has no removal. |
| `Storage.LastPutDistinct` | storage/storage.go:34-38 | When no two `Put`s in a history write to the same day, the latest `Put` to a `Put`'s day is that `Put` itself. |
| `Storage.RunDistinctPuts` | storage/storage_test.go:19-41 | When the `Put`s write to pairwise distinct days, as in the load test, `Get` afterwards returns each `Put`'s own list in every serialisation order. |
| `Storage.RunKeepsNormalised` | storage/storage.go:35-43 | Every table reached from a normalised one holds only day keys. |
| `Storage.LocalMapStorage.constructor` | storage/storage.go:13-16 | `StorageImpl` starts with an empty map, so `size` is 0 and every `Get` reports not found. |
| `Storage.LocalMapStorage.Put` | storage/storage.go:34-39 | The new table is the old one with the truncated key set to the value. Other keys are unchanged. The size changes by 1 for a new day and by 0 otherwise. The invariant that every key is a day start is kept. |
| `Storage.LocalMapStorage.Get` | storage/storage.go:42-48 | `found` is true exactly when the truncated key is held. The list is the stored one, or nil when absent. The method changes nothing. |
| `Storage.LocalMapStorage.Size` | storage/storage.go:51-55 | Reports the number of day keys held, every one of which `Get` finds with its list, and changes nothing. |
| `StorageTest.LoadDays` | storage/storage_test.go:19-33 | Putting one payload for each of 10000 consecutive days into an empty store leaves exactly 10000 keys, each day's key holding the payload. |
| `StorageTest.GetAllDays` | storage/storage_test.go:36-41 | On a store holding the payload for each of the 10000 days, `Get` finds every day with that payload. |
| `StorageTest.LoadThenGetAll` | storage/storage_test.go:14-41 | After putting one payload for each of 10000 consecutive days into a fresh store, every day is found with that payload, and the store holds exactly 10000 keys. |

## Left out

- The `sync.RWMutex` locking in `Put`, `Get` and `size`: each method is one atomic step, and concurrency appears only as the order of a history of calls.
- Copies of the store: `DB = storage.StorageImpl` in `indexer/indexer.go` and `repository/repository.go` copies the struct. Each copy then has its own `RWMutex` but shares the one `internal` map, so calls through different copies are not serialised against each other. The model covers calls through one store value only.
- The `Storage` interface: its `Put(key string, …)` does not match the concrete `Put(key time.Time, …)`. Only the concrete type's methods are modelled.
- Go `time.Time` details that affect map-key equality, such as the `Location` and the monotonic clock reading: keys are one integer instant domain.
- The range of Go's time representation: instants are unbounded integers, so times beyond Go's 64-bit limits are not modelled.
- Slice aliasing: Go stores the caller's slice header, so a caller that later writes into the slice's array changes what `Get` returns. The model stores the list as a value.
- `TRUNCATE_TO_DAY` is a package variable in Go, and nothing in the repository reassigns it. The model uses it as the constant 24 hours.
- `StorageTest.LoadThenGetAll`: the test steps days with `AddDate(0, 0, 1)` in local time. The model steps by exactly 24 hours, which is what `AddDate` does in UTC.
- `StorageTest.LoadThenGetAll`: the test builds its payloads through a range copy, so every item keeps its zero value, and it checks only the found flag. The model checks the found flag and the returned list for one payload shared by all days.
- The aggregation in `indexer/indexer.go`: `wikipediafetcher` returns nil and `GetArticleCountsForDateRange` has an empty loop followed by a sleep, so there is no fetch, merge or ranking code to model.
- `repository/repository.go`, `service/service.go`, `main/main.go` and the `demo` programs: goroutine stubs, HTTP handlers, process startup and client wrappers, with no cache logic.
