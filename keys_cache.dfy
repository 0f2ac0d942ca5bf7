/** The in-memory cache in front of the table: entries stamped with an expiry at
    insertion, on an integer clock. */
module KeysCache {
  import opened Types

  /** An entry's expiry: none, or the last instant at which it is still served. */
  datatype Expiry = Never | At(deadline: int)

  datatype Entry = Entry(keys: Keys, expiry: Expiry)

  type Cache = map<Id, Entry>

  /** The expiry an entry gets when set with the default expiration `ttl` at time
      `now`: a default of zero or less means entries never expire, a positive one
      gives a deadline `ttl` ticks after insertion. */
  function DefaultExpiry(ttl: int, now: int): (e: Expiry)
    ensures e.At? <==> ttl > 0
    ensures e.At? ==> e.deadline - now == ttl
  {
    if ttl > 0 then At(now + ttl) else Never
  }

  /** An entry is served until the clock passes its deadline. */
  predicate Live(e: Entry, now: int) {
    match e.expiry
    case Never => true
    case At(deadline) => now <= deadline
  }

  /** The cache's Get: the keys of a live entry for `id`, if there is one. */
  function Lookup(c: Cache, id: Id, now: int): (r: Option<Keys>)
    ensures r.Some? <==> id in c && Live(c[id], now)
    ensures r.Some? ==> r.value == c[id].keys
  {
    if id in c && Live(c[id], now) then Some(c[id].keys) else None
  }

  /** The cache's Set with the default expiration: replaces any entry for `id` and
      leaves every other entry as it was. */
  function Insert(c: Cache, id: Id, keys: Keys, ttl: int, now: int): (c': Cache)
    ensures c'.Keys == c.Keys + {id}
    ensures c'[id] == Entry(keys, DefaultExpiry(ttl, now))
    ensures forall other | other in c && other != id :: c'[other] == c[other]
  {
    c[id := Entry(keys, DefaultExpiry(ttl, now))]
  }

  /** A freshly set entry is served until its time-to-live has elapsed, and forever
      when the default expiration is not positive. */
  lemma InsertedIsLiveUntilTtl(c: Cache, id: Id, keys: Keys, ttl: int, now: int, later: int)
    requires ttl <= 0 || later <= now + ttl
    ensures Lookup(Insert(c, id, keys, ttl, now), id, later) == Some(keys)
  {
  }

  /** Once its time-to-live has elapsed, the entry is no longer served. */
  lemma InsertedExpiresAfterTtl(c: Cache, id: Id, keys: Keys, ttl: int, now: int, later: int)
    requires ttl > 0 && later > now + ttl
    ensures Lookup(Insert(c, id, keys, ttl, now), id, later) == None
  {
  }
}
