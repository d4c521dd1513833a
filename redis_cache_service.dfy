/** The key-value cache wrapper: logical keys are turned into Redis keys by one pure
    function, values are stored as their JSON encoding (here: the value itself) with an
    optional time-to-live in seconds. */
module Redis {
  import opened Wrappers
  import opened Models
  import opened StepLog

  /** The type argument `T` a cache call is instantiated with. */
  datatype CachedType = AuthorListType | AuthorType

  /** A cached payload; its constructor is the shape its JSON encoding has. */
  datatype Value = AuthorList(authors: set<AuthorWithBooks>) | SingleAuthor(author: AuthorWithBooks)

  predicate HasType(v: Value, t: CachedType) {
    match t
    case AuthorListType => v.AuthorList?
    case AuthorType => v.SingleAuthor?
  }

  /** A Redis string: empty, or the JSON text of a value. */
  datatype RedisString = EmptyString | Json(value: Value)

  /** A Redis entry with its expiry in seconds (`None`: the key never expires). */
  datatype Entry = Entry(content: RedisString, expiry: Option<nat>)

  /** What `GetCacheAsync<T>` produces: the default (no value), a decoded value, or
      the exception deserialising a payload of another shape raises. */
  datatype Lookup = Miss | Hit(value: Value) | Undecodable

  type Database = map<string, Entry>

  /** The Redis key for a logical key: the interpolated string `{nameof(T)}:${key}`,
      whose `$` before `{key}` is a literal dollar sign. `nameof(T)` inside a generic
      method is the name of the type parameter itself, the literal "T", whatever type
      `T` is instantiated with; so `t` does not take part. */
  function PhysicalKey(t: CachedType, key: string): (r: string)
    ensures |r| == |key| + 3 && r[..3] == "T:$" && r[3..] == key
  {
    "T" + ":$" + key
  }

  /** The slot a logical key lands in does not depend on the cached type. */
  lemma PhysicalKeyIgnoresType(t1: CachedType, t2: CachedType, key: string)
    ensures PhysicalKey(t1, key) == PhysicalKey(t2, key)
  {
  }

  /** Distinct logical keys land in distinct slots. */
  lemma PhysicalKeyInjective(t1: CachedType, t2: CachedType, k1: string, k2: string)
    requires PhysicalKey(t1, k1) == PhysicalKey(t2, k2)
    ensures k1 == k2
  {
    assert k1 == PhysicalKey(t1, k1)[3..];
  }

  /** `GetCacheAsync<T>(key)` as a function of the database. */
  function Read(db: Database, t: CachedType, key: string): (r: Lookup)
    ensures r.Miss? <==> PhysicalKey(t, key) !in db || db[PhysicalKey(t, key)].content.EmptyString?
    ensures r.Hit? ==> HasType(r.value, t) && db[PhysicalKey(t, key)].content == Json(r.value)
    ensures r.Undecodable? <==>
              PhysicalKey(t, key) in db && db[PhysicalKey(t, key)].content.Json? &&
              !HasType(db[PhysicalKey(t, key)].content.value, t)
  {
    var k := PhysicalKey(t, key);
    if k !in db || db[k].content.EmptyString? then Miss
    else if HasType(db[k].content.value, t) then Hit(db[k].content.value)
    else Undecodable
  }

  class RedisCacheService {
    /** The contents of the Redis database the connection was opened on. */
    var database: Database
    /** Where every call records the step it performs. */
    const log: Log

    /** Connecting hands over whatever the server already holds. */
    constructor (existing: Database, log: Log)
      ensures database == existing && this.log == log
    {
      database := existing;
      this.log := log;
    }

    /** `SetCacheAsync<T>(key, value, expiry)`: stores the encoding of `value` under the
        physical key, with the given expiry; no other key changes. */
    method SetCache(t: CachedType, key: string, value: Value, expiry: Option<nat>)
      requires HasType(value, t)
      modifies this, log
      ensures database == old(database)[PhysicalKey(t, key) := Entry(Json(value), expiry)]
      ensures log.steps == old(log.steps) + [CacheSet(PhysicalKey(t, key), expiry)]
    {
      database := database[PhysicalKey(t, key) := Entry(Json(value), expiry)];
      log.steps := log.steps + [CacheSet(PhysicalKey(t, key), expiry)];
    }

    /** `GetCacheAsync<T>(key)`: the default on an absent or empty entry, else the
        decoded payload. */
    method GetCache(t: CachedType, key: string) returns (r: Lookup)
      modifies log
      ensures r == Read(database, t, key)
      ensures log.steps == old(log.steps) + [CacheGet(PhysicalKey(t, key))]
    {
      r := Read(database, t, key);
      log.steps := log.steps + [CacheGet(PhysicalKey(t, key))];
    }

    /** `DeleteCacheAsync<T>(key)`: removes the physical key, if present. */
    method DeleteCache(t: CachedType, key: string)
      modifies this, log
      ensures database == old(database) - {PhysicalKey(t, key)}
      ensures log.steps == old(log.steps) + [CacheDelete(PhysicalKey(t, key))]
    {
      database := database - {PhysicalKey(t, key)};
      log.steps := log.steps + [CacheDelete(PhysicalKey(t, key))];
    }
  }

  /** A Set followed by a Get of the same key and type returns the value stored. */
  lemma ReadAfterSet(db: Database, t: CachedType, key: string, v: Value, expiry: Option<nat>)
    requires HasType(v, t)
    ensures Read(db[PhysicalKey(t, key) := Entry(Json(v), expiry)], t, key) == Hit(v)
  {
  }

  /** A Set under one type is seen by a Get of the same key under any type. */
  lemma ReadAfterSetOtherType(db: Database, t: CachedType, u: CachedType, key: string, v: Value,
                              expiry: Option<nat>)
    requires HasType(v, t) && !HasType(v, u)
    ensures Read(db[PhysicalKey(t, key) := Entry(Json(v), expiry)], u, key) == Undecodable
  {
    PhysicalKeyIgnoresType(t, u, key);
  }

  /** A Delete followed by a Get of the same key returns no value, whatever the types. */
  lemma ReadAfterDelete(db: Database, t: CachedType, u: CachedType, key: string)
    ensures Read(db - {PhysicalKey(t, key)}, u, key) == Miss
  {
    PhysicalKeyIgnoresType(t, u, key);
  }

  /** Set and Delete of one logical key leave the reads of every other logical key as they were. */
  lemma ReadOtherKey(db: Database, t: CachedType, u: CachedType, key: string, other: string,
                     e: Entry)
    requires other != key
    ensures Read(db[PhysicalKey(t, key) := e], u, other) == Read(db, u, other)
    ensures Read(db - {PhysicalKey(t, key)}, u, other) == Read(db, u, other)
  {
    if PhysicalKey(t, key) == PhysicalKey(u, other) {
      PhysicalKeyInjective(t, u, key, other);
    }
  }
}
