# Caching, create-once key store (rkms `DynamoDBStore`)

This project models the key store of rkms, a key-management service. For each
identifier the store holds a map from key name to encrypted key material. It keeps
the keys in a DynamoDB table and puts an in-memory cache with a time-to-live in
front of it. It has two operations:

- `GetEncryptedDataKeys` reads through the cache. A live cache entry answers at
  once. Otherwise the store makes a consistent read of the table. A missing row is
  "not found", which is not an error. A row that does not unmarshal is an error. A
  readable row is cached with the default expiration.
- `SetEncryptedDataKeysConditionally` writes once. It puts the row on the condition
  `attribute_not_exists(id)`. A failed condition becomes `IDAlreadyExists(id)`. Any
  other failure is passed on unchanged. The cache is filled only after the write
  succeeds.

Modules, leaf first:

- `Types` (types.dfy): identifiers, key maps, the stored `Item`, rows as the table
  holds them (`Record`), errors, and `Result`/`Option`.
- `DurableTable` (durable_table.dfy): the table as a `map` from id to row, with the
  two backend calls the store makes: a consistent get and a put-if-absent.
- `KeysCache` (keys_cache.dfy): the cache as a `map` from id to keys and expiry, on
  an integer clock.
- `CachingStore` (caching_store.dfy): the store as a state machine over the table
  and the cache. `Get` and `SetConditionally` are pure transition functions.
  `CacheConsistent` is the invariant that every cached entry is a readable row of
  the table with the same keys. Below them are the one-call properties.
- `Store` (dynamodb_store.dfy): the class `DynamoDBStore` with fields `table` and
  `keysCache`, updated in place. Each method is proved equal to its transition
  function in `CachingStore`. `Scenario` is a client session that uses only the
  methods' contracts.
- `Traces` (traces.dfy): sequences of calls, including conditional puts by other
  writers that share the table. Each run is compared with a run against the bare
  table. The lemmas cover cache transparency, create-once, and exactly one winner
  among repeated writes.

The environment is passed in as parameters:

- The clock readings are parameters. A Get reads the clock twice: at the cache
  lookup (`now`) and when it sets the cache entry after the backend read returns
  (`fillTime`). A put reads it once, when it sets the entry after the put returns
  (`now`).
- `fault: Option<string>` is a failure of the backend call itself: network,
  throttling, or a cancelled context.
- Whether the condition fails, and whether a row decodes, depend only on the table.

Cache behaviour follows the go-cache library that dynamodb_store.go:40 configures.
An entry set with the default expiration `d` gets a deadline `d` after insertion
only when `d > 0`. An expiration of zero or less means entries never expire. An
entry is served while the clock has not passed its deadline. So a time-to-live of
zero does not switch the cache off; it makes entries permanent. Because of this,
the cacheless reference used for cache transparency is an explicit read of the
table alone (`CachingStore.ReadTable`, `Traces.RunDirect`), not a zero
time-to-live.

A cache hit answers without calling the backend, so it also hides a fault that
call would have hit. For that reason, cache transparency is exact only when the
reads reach a healthy backend (`Traces.CacheIsInvisibleWhenHealthy`). In general,
the store and the bare table agree on every reply except that case
(`Traces.CacheIsTransparent`).

## Model

| member | source | states |
|---|---|---|
| `Types.Marshal` | dynamodb_store.go:86-87 | the attribute values the put carries unmarshal back to exactly the item built from `id` and the keys |
| `Types.Unmarshal` | dynamodb_store.go:71-76 | a readable row unmarshals to exactly the item it holds; a row fails to unmarshal exactly when it is unreadable, and the error is a decode failure carrying the reason |
| `Types.UnmarshalMarshal` | dynamodb_store.go:86-87 | a row the store writes reads back as the item written |
| `DurableTable.GetItemConsistent` | dynamodb_store.go:51-61 | a consistent read: with no fault, it is absent exactly when the table has no row for `id` and otherwise returns that row; a fault comes back as a read error |
| `DurableTable.PutItemIfAbsent` | dynamodb_store.go:89-96 | a conditional put: written exactly when there is no fault and no row; the condition fails exactly when there is no fault and a row; the table changes only by adding the new row; no existing row is changed |
| `KeysCache.DefaultExpiry` | dynamodb_store.go:40 | the default expiration gives a deadline exactly `ttl` after the clock reading at which the entry is set when `ttl > 0`, and no deadline otherwise |
| `KeysCache.Lookup` | dynamodb_store.go:47 | the cache answers for `id` exactly when it holds a live entry for it, and returns that entry's keys |
| `KeysCache.Insert` | dynamodb_store.go:78 | setting an entry adds `id`, gives it the keys and the default expiry, and keeps every other entry |
| `KeysCache.InsertedIsLiveUntilTtl` | dynamodb_store.go:40 | a freshly set entry is served until its time-to-live has elapsed, and always when the expiration is not positive |
| `KeysCache.InsertedExpiresAfterTtl` | dynamodb_store.go:40 | after its time-to-live an entry is no longer served |
| `CachingStore.StoredKeys` | dynamodb_store.go:71-79 | the keys a read returns for `id` exist exactly when the table has a row that unmarshals, and they are that row's keys |
| `CachingStore.ReadTable` | dynamodb_store.go:61-79 | a read of the table alone: a fault gives that backend error; otherwise "not found" exactly when there is no row, success exactly when the row unmarshals, and an error only from unmarshalling |
| `CachingStore.WriteResult` | dynamodb_store.go:97-109 | the write succeeds exactly when the put was written; a failed condition is IDAlreadyExists(id); any other put error is returned as it came |
| `CachingStore.Get` | dynamodb_store.go:45-80 | a read never changes the table; on an error or "not found" nothing changes; any change is one cache entry for `id` with the keys returned, expiring from the time it is set; the cache invariant is preserved |
| `CachingStore.SetConditionally` | dynamodb_store.go:85-110 | succeeds exactly when there is no fault and no row for `id`; on success the table gains exactly the new row and the cache gets `id` with the keys; on failure nothing changes; the cache invariant is preserved |
| `CachingStore.GetCacheHit` | dynamodb_store.go:46-49 | a live cache entry is returned with no error and no change, whatever the backend would do |
| `CachingStore.GetBackendError` | dynamodb_store.go:61-65 | on a miss, a backend read error is returned as it came and nothing changes |
| `CachingStore.GetAbsent` | dynamodb_store.go:67-69 | on a miss with no row, the result is "not found" with no error, and nothing is cached |
| `CachingStore.GetUndecodable` | dynamodb_store.go:71-76 | on a miss with an unreadable row, the result is a decode error, not "not found", and nothing is cached |
| `CachingStore.GetFillsCache` | dynamodb_store.go:78-79 | on a miss with a readable row, its keys are returned; the cache maps `id` to them with the default expiry counted from the time the entry is set, after the backend read; every other entry and the table are unchanged |
| `CachingStore.NeverSetIsNotFound` | dynamodb_store.go:67-69 | with a consistent cache, an identifier with no row is "not found", or the backend error when the read fails |
| `CachingStore.GetIsTransparent` | dynamodb_store.go:47-79 | with a consistent cache, Get answers what a read of the table alone answers; the one exception is a cache hit that hides a backend fault, and it still returns exactly the table's keys |
| `CachingStore.SetWhenPresent` | dynamodb_store.go:96-101 | when `id` has a row, the write fails with IDAlreadyExists(id) and nothing changes; with a consistent cache, a later Get still answers what the table held |
| `CachingStore.SetBackendError` | dynamodb_store.go:103-106 | any other put failure is returned as it came, with neither the table nor the cache changed |
| `CachingStore.ReadYourWrite` | dynamodb_store.go:108-109 | after a successful write, Get of `id` returns exactly the keys written; while the entry lives, this holds even if the backend would fail |
| `CachingStore.WriteExpiresAfterTtl` | dynamodb_store.go:40 | once the written entry's time-to-live has elapsed, Get goes back to the backend: a backend fault now reaches the caller |
| `Store.DynamoDBStore.constructor` | dynamodb_store.go:39-41 | a store over an existing table starts with an empty cache and the configured expiration, and satisfies the invariant |
| `Store.DynamoDBStore.GetEncryptedDataKeys` | dynamodb_store.go:45-80 | the method's result and new state are those of `CachingStore.Get`; the table is unchanged; the invariant is kept; an error leaves the cache unchanged |
| `Store.DynamoDBStore.SetEncryptedDataKeysConditionally` | dynamodb_store.go:85-110 | the method's result and new state are those of `CachingStore.SetConditionally`; it succeeds exactly when there is no fault and no row; only then does the table gain the row; on error neither field changes |
| `Traces.Step` | dynamodb_store.go:45-110 | one call, by this store or by another writer, keeps the cache invariant and changes no existing row |
| `Traces.Run` | dynamodb_store.go:45-110 | a run gives one reply per call and keeps the cache invariant |
| `Traces.RunDirect` | dynamodb_store.go:61-106 | the cacheless run gives one reply per call |
| `Traces.StepAgrees` | dynamodb_store.go:47-49 | one call agrees with the same call against the bare table, and leaves the same rows; a cache hit that hides a fault returns exactly the keys the table holds |
| `Traces.CacheIsTransparent` | dynamodb_store.go:47-49 | from a consistent state, any run ends with the same rows as the cacheless run; every reply equals the cacheless one, except a cache hit that hides a backend fault, which returns exactly the keys the table holds at that call |
| `Traces.CacheIsInvisibleWhenHealthy` | dynamodb_store.go:47-79 | when reads reach a healthy backend, the replies of any run equal those with no cache at all |
| `Traces.RowsAreNeverOverwritten` | dynamodb_store.go:89-96 | no run, including writes by other writers, removes or changes an existing row |
| `Traces.LaterWritesLose` | dynamodb_store.go:96-101 | once `id` has a row, in a run made only of fault-free writes of `id`, each fails with IDAlreadyExists(id) and the run changes nothing |
| `Traces.LaterWritesLoseAnyRun` | dynamodb_store.go:83-84 | once `id` has a row, in any run, with reads, other identifiers' writes, other writers' puts and failed calls in between, every later fault-free write of `id` fails with IDAlreadyExists(id) |
| `Traces.ExactlyOneWriteWins` | dynamodb_store.go:89-109 | of several fault-free writes of a new `id`, exactly the first succeeds; the rest fail with IDAlreadyExists(id); the table keeps the first keys; a later Get returns them |

## Left out

- `NewDynamoDBStore` (dynamodb_store.go:29-42): the session, region, client and table name are configuration. Only the cache's default expiration is modelled, as the constructor's `cacheExpiration`. The cleanup interval is not modelled.
- The AWS SDK's attribute-value encoding (`MarshalMap`, `UnmarshalMap`) is reduced to `Record`: a row either unmarshals into an `Item` or it does not. Go's zero values for missing attributes (for example, a row without `keys` read back as a nil map) are not modelled.
- The marshal error that dynamodb_store.go:87 assigns and dynamodb_store.go:96 overwrites without checking is not modelled. Marshalling an `Item` cannot fail in the model.
- Error codes are not inspected. The table decides whether the condition fails. Every other failure is one injected `fault` string.
- Requests DynamoDB itself rejects are not modelled apart from `fault`. These include an empty `id` key attribute and an item over the size limit; for them both calls always fail. With no `fault`, the model answers `Get("")` with `Ok(None)` and lets `SetConditionally("", …)` succeed.
- A put that commits in DynamoDB but still reports a failure, such as a timeout after commit, is not modelled. A fault means nothing was written.
- Logging (dynamodb_store.go:35, 63, 74, 104) is left out, because callers cannot observe it.
- `context.Context` cancellations and deadlines are modelled only as one more `fault`.
- Concurrency is left out. This covers go-cache's locking, racing conditional puts and interleaved Get/Set. The model is sequential, and put-if-absent is atomic by construction. Concurrent writers appear only as `Traces.ForeignPut` steps between calls. `Traces.ExactlyOneWriteWins` covers a sequence of writes, not a parallel race.
- go-cache's background sweep of expired entries is left out. Lookup already ignores expired entries, so the sweep does not change what the store returns.
- The clock is an integer parameter whose unit matches the expiration. The conversion of minutes to nanoseconds and the overflow of `time.Duration` are not modelled.
- The cache and `Get` hold key maps as values. The pointers `&item.Keys` and `&encryptedKeysMap` (dynamodb_store.go:78, 108) are not modelled, so writes through them by a caller who still holds the map are not modelled either.
- A not-found result is `Ok(None)`. Go's `nil` map, and its distinction from an empty map, are not modelled.
