/** The store object itself: the table it writes through its client and the cache
    it owns, updated in place by its two operations. */
module Store {
  import opened Types
  import opened DurableTable
  import opened KeysCache
  import opened CachingStore

  class DynamoDBStore {
    var table: Table      // the rows of the DynamoDB table the client talks to
    var keysCache: Cache  // the store's cache of recently read or written keys
    const ttl: int        // the cache's default expiration, in clock ticks

    /** The store's state as a value. */
    ghost function Model(): State
      reads this
    {
      State(table, keysCache, ttl)
    }

    /** The object invariant: the cache holds nothing the table does not. */
    ghost predicate Valid()
      reads this
    {
      CacheConsistent(Model())
    }

    /** A store over an existing table, with an empty cache whose default
        expiration is `cacheExpiration`. */
    constructor (cacheExpiration: int, existing: Table)
      ensures Valid()
      ensures table == existing && keysCache == map[] && ttl == cacheExpiration
    {
      table := existing;
      keysCache := map[];
      ttl := cacheExpiration;
    }

    /** Reads the keys for `id`, looking in the cache at time `now` and, on a miss,
        setting the entry at time `fillTime`, once the backend read has returned;
        `fault` is what goes wrong with that read, if anything. `Ok(None)` means no
        row exists for `id`. */
    method GetEncryptedDataKeys(id: Id, now: int, fillTime: int, fault: Option<string>)
      returns (r: Result<Option<Keys>>)
      requires Valid()
      modifies this
      ensures Valid()
      ensures Outcome(r, Model()) == Get(old(Model()), id, now, fillTime, fault)
      ensures table == old(table)
      ensures r.Err? ==> keysCache == old(keysCache)
    {
      var cached := Lookup(keysCache, id, now);
      if cached.Some? {
        return Ok(cached);
      }
      var result := GetItemConsistent(table, id, fault);
      if result.ReadError? {
        return Err(BackendFailure(result.cause));
      }
      if result.Absent? {
        return Ok(None);
      }
      var item := Unmarshal(result.record);
      if item.Err? {
        return Err(item.error);
      }
      keysCache := Insert(keysCache, id, item.value.keys, ttl, fillTime);
      return Ok(Some(item.value.keys));
    }

    /** Stores `encryptedKeysMap` under `id` unless the table already has a row for
        it; `fault` is what goes wrong with the put, if anything, and `now` is the
        clock when the cache entry is set, after the put has returned. */
    method SetEncryptedDataKeysConditionally(id: Id, encryptedKeysMap: Keys, now: int, fault: Option<string>)
      returns (r: Result<()>)
      requires Valid()
      modifies this
      ensures Valid()
      ensures Outcome(r, Model()) == SetConditionally(old(Model()), id, encryptedKeysMap, now, fault)
      ensures r.Ok? <==> fault.None? && id !in old(table)
      ensures r.Ok? ==> table == old(table)[id := Encoded(Item(id, encryptedKeysMap))]
      ensures r.Err? ==> table == old(table) && keysCache == old(keysCache)
    {
      var marshalled := Marshal(Item(id, encryptedKeysMap));
      var put := PutItemIfAbsent(table, id, marshalled, fault);
      table := put.table;
      if put.result == ConditionFailed {
        return Err(IDAlreadyExists(id));
      }
      if put.result.PutError? {
        return Err(BackendFailure(put.result.cause));
      }
      keysCache := Insert(keysCache, id, encryptedKeysMap, ttl, now);
      return Ok(());
    }
  }

  /** A caller's session against an empty table, using only the methods' contracts:
      not found, a first write, reading it back, a second write refused, and the
      first keys still there. */
  method Scenario(ttl: int, t0: int)
  {
    var store := new DynamoDBStore(ttl, map[]);
    var got := store.GetEncryptedDataKeys("tenant-42", t0, t0, None);
    assert got == Ok(None);
    var put := store.SetEncryptedDataKeysConditionally("tenant-42", map["dek" := "ct1"], t0, None);
    assert put == Ok(());
    got := store.GetEncryptedDataKeys("tenant-42", t0, t0, None);
    assert got == Ok(Some(map["dek" := "ct1"]));
    put := store.SetEncryptedDataKeysConditionally("tenant-42", map["dek" := "ct2"], t0, None);
    assert put == Err(IDAlreadyExists("tenant-42"));
    got := store.GetEncryptedDataKeys("tenant-42", t0 + 1, t0 + 2, None);
    assert got == Ok(Some(map["dek" := "ct1"]));
  }
}
