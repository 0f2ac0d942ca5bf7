/** The caching key store as a state machine over the table and the cache: the
    read-through Get and the create-once SetConditionally, the invariant that ties
    the cache to the table, and what each call does to both. */
module CachingStore {
  import opened Types
  import opened DurableTable
  import opened KeysCache

  /** The store's state: the table, the cache, and the cache's default expiration. */
  datatype State = State(table: Table, cache: Cache, ttl: int)

  /** What a call returns, and the state it leaves. */
  datatype Outcome<T> = Outcome(result: Result<T>, next: State)

  /** The keys a successful read of the table returns for `id`, if any. */
  function StoredKeys(t: Table, id: Id): (r: Option<Keys>)
    ensures r.Some? <==> id in t && Unmarshal(t[id]).Ok?
    ensures r.Some? ==> r.value == Unmarshal(t[id]).value.keys
  {
    if id in t && t[id].Encoded? then Some(t[id].item.keys) else None
  }

  /** Every cached identifier has a readable row in the table, with the same keys. */
  ghost predicate CacheConsistent(s: State) {
    forall id | id in s.cache :: StoredKeys(s.table, id) == Some(s.cache[id].keys)
  }

  /** A read of the table alone, with no cache in front of it: what the store
      would answer with the cache switched off. */
  function ReadTable(t: Table, id: Id, fault: Option<string>): (r: Result<Option<Keys>>)
    ensures fault.Some? ==> r == Err(BackendFailure(fault.value))
    ensures fault.None? ==> (r == Ok(None) <==> id !in t)
    ensures fault.None? && id in t ==> (r.Ok? <==> StoredKeys(t, id).Some?)
    ensures r.Ok? && r.value.Some? ==> fault.None? && StoredKeys(t, id) == r.value
    ensures r.Err? && fault.None? ==> id in t && r == Err(Unmarshal(t[id]).error)
  {
    match GetItemConsistent(t, id, fault)
    case ReadError(cause) => Err(BackendFailure(cause))
    case Absent => Ok(None)
    case Found(record) =>
      match Unmarshal(record)
      case Err(e) => Err(e)
      case Ok(item) => Ok(Some(item.keys))
  }

  /** How the store reports the outcome of its conditional put. */
  function WriteResult(id: Id, r: PutResult): (res: Result<()>)
    ensures res.Ok? <==> r == Written
    ensures r == ConditionFailed ==> res == Err(IDAlreadyExists(id))
    ensures r.PutError? ==> res == Err(BackendFailure(r.cause))
  {
    match r
    case Written => Ok(())
    case ConditionFailed => Err(IDAlreadyExists(id))
    case PutError(cause) => Err(BackendFailure(cause))
  }

  /** GetEncryptedDataKeys: a live cache entry answers at once; otherwise the table
      is read and a found, readable row is cached. `Ok(None)` is "not found".
      The clock is read twice: at the lookup (`now`) and, after the backend read
      has returned, when the entry is set (`fillTime`). */
  function Get(s: State, id: Id, now: int, fillTime: int, fault: Option<string>): (out: Outcome<Option<Keys>>)
    ensures out.next.table == s.table && out.next.ttl == s.ttl
    ensures out.result.Err? || out.result == Ok(None) ==> out.next == s
    ensures out.next != s ==> out.next.cache == Insert(s.cache, id, out.result.value.value, s.ttl, fillTime)
    ensures CacheConsistent(s) ==> CacheConsistent(out.next)
  {
    match Lookup(s.cache, id, now)
    case Some(keys) => Outcome(Ok(Some(keys)), s)
    case None =>
      var r := ReadTable(s.table, id, fault);
      if r.Ok? && r.value.Some? then
        Outcome(r, s.(cache := Insert(s.cache, id, r.value.value, s.ttl, fillTime)))
      else
        Outcome(r, s)
  }

  /** SetEncryptedDataKeysConditionally: a conditional put of `keys` under `id`;
      only when it is written does the cache learn of it. `now` is the clock when
      the entry is set, after the put has returned. */
  function SetConditionally(s: State, id: Id, keys: Keys, now: int, fault: Option<string>): (out: Outcome<()>)
    ensures out.result.Ok? <==> fault.None? && id !in s.table
    ensures out.next.table == if out.result.Ok? then s.table[id := Marshal(Item(id, keys))] else s.table
    ensures out.result.Ok? ==> out.next.cache == Insert(s.cache, id, keys, s.ttl, now)
    ensures out.result.Err? ==> out.next == s
    ensures out.next.ttl == s.ttl
    ensures CacheConsistent(s) ==> CacheConsistent(out.next)
  {
    var put := PutItemIfAbsent(s.table, id, Marshal(Item(id, keys)), fault);
    var r := WriteResult(id, put.result);
    if r.Ok? then Outcome(r, State(put.table, Insert(s.cache, id, keys, s.ttl, now), s.ttl))
    else Outcome(r, s)
  }

  /** A live cache entry is returned with no error, and nothing changes. */
  lemma GetCacheHit(s: State, id: Id, now: int, fillTime: int, fault: Option<string>)
    requires id in s.cache && Live(s.cache[id], now)
    ensures Get(s, id, now, fillTime, fault) == Outcome(Ok(Some(s.cache[id].keys)), s)
  {
  }

  /** On a miss, a failed backend read is returned as it came, and nothing changes. */
  lemma GetBackendError(s: State, id: Id, now: int, fillTime: int, cause: string)
    requires Lookup(s.cache, id, now).None?
    ensures Get(s, id, now, fillTime, Some(cause)) == Outcome(Err(BackendFailure(cause)), s)
  {
  }

  /** On a miss, an identifier the table does not hold is "not found", not an
      error, and nothing is cached. */
  lemma GetAbsent(s: State, id: Id, now: int, fillTime: int)
    requires Lookup(s.cache, id, now).None? && id !in s.table
    ensures Get(s, id, now, fillTime, None) == Outcome(Ok(None), s)
  {
  }

  /** On a miss, a row that does not unmarshal is an error, not "not found", and
      nothing is cached. */
  lemma GetUndecodable(s: State, id: Id, now: int, fillTime: int)
    requires Lookup(s.cache, id, now).None? && id in s.table && s.table[id].Unreadable?
    ensures Get(s, id, now, fillTime, None) == Outcome(Err(DecodeFailure(s.table[id].reason)), s)
  {
  }

  /** On a miss, a readable row is returned and cached with the default expiration,
      counted from when the entry is set; no other entry and no row changes. */
  lemma GetFillsCache(s: State, id: Id, now: int, fillTime: int)
    requires Lookup(s.cache, id, now).None? && id in s.table && s.table[id].Encoded?
    ensures var out := Get(s, id, now, fillTime, None);
      && out.result == Ok(Some(s.table[id].item.keys))
      && out.next.table == s.table
      && out.next.cache == s.cache[id := Entry(s.table[id].item.keys, DefaultExpiry(s.ttl, fillTime))]
  {
  }

  /** An identifier with no row is never found, whatever the cache holds. */
  lemma NeverSetIsNotFound(s: State, id: Id, now: int, fillTime: int, fault: Option<string>)
    requires CacheConsistent(s) && id !in s.table
    ensures Get(s, id, now, fillTime, fault).result == if fault.None? then Ok(None) else Err(BackendFailure(fault.value))
  {
  }

  /** With a consistent cache, Get answers what a read of the table alone answers,
      except that a cache hit does not see a fault the backend read would have hit;
      it then returns exactly the keys the table holds. */
  lemma GetIsTransparent(s: State, id: Id, now: int, fillTime: int, fault: Option<string>)
    requires CacheConsistent(s)
    ensures var r := Get(s, id, now, fillTime, fault).result;
      || r == ReadTable(s.table, id, fault)
      || (fault.Some? && ReadTable(s.table, id, fault) == Err(BackendFailure(fault.value))
          && r == Ok(StoredKeys(s.table, id)) && StoredKeys(s.table, id).Some?)
    ensures fault.None? ==> Get(s, id, now, fillTime, fault).result == ReadTable(s.table, id, fault)
  {
  }

  /** When the table already holds `id`, the conditional put fails with
      IDAlreadyExists(id), nothing changes, and a later Get still answers what the
      table held before. */
  lemma SetWhenPresent(s: State, id: Id, keys: Keys, now: int, later: int, fillTime: int)
    requires id in s.table
    ensures SetConditionally(s, id, keys, now, None) == Outcome(Err(IDAlreadyExists(id)), s)
    ensures CacheConsistent(s) ==>
      Get(SetConditionally(s, id, keys, now, None).next, id, later, fillTime, None).result
        == ReadTable(s.table, id, None)
  {
  }

  /** Any other failure of the put is returned as it came, with no change. */
  lemma SetBackendError(s: State, id: Id, keys: Keys, now: int, cause: string)
    ensures SetConditionally(s, id, keys, now, Some(cause)) == Outcome(Err(BackendFailure(cause)), s)
  {
  }

  /** Read-your-write: after a successful SetConditionally, a Get of `id` returns
      exactly the keys written, from the cache while the entry lives (whatever the
      backend would do) and from the table afterwards. */
  lemma ReadYourWrite(s: State, id: Id, keys: Keys, now: int, fault: Option<string>,
                      later: int, fillTime: int, readFault: Option<string>)
    requires SetConditionally(s, id, keys, now, fault).result.Ok?
    requires readFault.None? || s.ttl <= 0 || later <= now + s.ttl
    ensures Get(SetConditionally(s, id, keys, now, fault).next, id, later, fillTime, readFault).result == Ok(Some(keys))
  {
  }

  /** Expiry: once the written entry's time-to-live has elapsed, Get goes back to
      the table, which shows in a backend fault reaching the caller. */
  lemma WriteExpiresAfterTtl(s: State, id: Id, keys: Keys, now: int, fault: Option<string>,
                             later: int, fillTime: int, cause: string)
    requires SetConditionally(s, id, keys, now, fault).result.Ok?
    requires s.ttl > 0 && later > now + s.ttl
    ensures Get(SetConditionally(s, id, keys, now, fault).next, id, later, fillTime, Some(cause)).result
         == Err(BackendFailure(cause))
  {
  }
}
