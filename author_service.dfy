/** `AuthorService`: the cache-aside layer over the authors table. Reads consult the
    cache first and populate it on a miss; writes delete the affected cache entries,
    and they do so BEFORE writing to the store. */
module AuthorSvc {
  import opened Wrappers
  import opened Models
  import opened IntText
  import opened Db
  import opened Redis
  import opened AuthorRepo
  import opened StepLog

  /** The logical key of the cached author list. */
  const AllAuthorsKey: string := "authors_all"

  /** `TimeSpan.FromMinutes(5)` and `TimeSpan.FromHours(1)`, in seconds. */
  const CollectionTtl: nat := 300
  const SingleTtl: nat := 3600

  /** The logical key of one cached author: `authorId.ToString()`. It never equals the
      collection key, because a rendered int starts with `-` or a digit. */
  function AuthorKey(authorId: int): (key: string)
    ensures key != AllAuthorsKey
  {
    IntToStringNotALetter(authorId);
    assert AllAuthorsKey[0] == 'a';
    IntToString(authorId)
  }

  /** The Redis keys the two families land in. */
  function AllSlot(): (k: string) {
    PhysicalKey(AuthorListType, AllAuthorsKey)
  }

  function AuthorSlot(authorId: int): (k: string) {
    PhysicalKey(AuthorType, AuthorKey(authorId))
  }

  /** The collection entry and a single-author entry never share a Redis key. */
  lemma SlotsDisjoint(authorId: int)
    ensures AllSlot() != AuthorSlot(authorId)
  {
    if AllSlot() == AuthorSlot(authorId) {
      PhysicalKeyInjective(AuthorListType, AuthorType, AllAuthorsKey, AuthorKey(authorId));
    }
  }

  lemma AllSlotsDisjoint()
    ensures forall authorId :: AuthorSlot(authorId) != AllSlot()
  {
    forall authorId ensures AuthorSlot(authorId) != AllSlot() {
      SlotsDisjoint(authorId);
    }
  }

  /** Two authors share a Redis key only if they are the same author. */
  lemma AuthorSlotsDistinct(i: int, j: int)
    requires AuthorSlot(i) == AuthorSlot(j)
    ensures i == j
  {
    PhysicalKeyInjective(AuthorType, AuthorType, AuthorKey(i), AuthorKey(j));
    IntToStringInjective(i, j);
  }

  /** A single author lives in the cache longer than the author list. */
  lemma TtlAsymmetry()
    ensures CollectionTtl < SingleTtl
  {
  }

  /** The collection key holds author lists and every other key holds single authors. */
  ghost predicate CacheWellTyped(db: Database) {
    forall k :: k in db && db[k].content.Json? ==> (db[k].content.value.AuthorList? <==> k == AllSlot())
  }

  /** Every entry of `db` holds what `store` would return now for its key. */
  ghost predicate Agrees(db: Database, store: AppDbContext)
    reads store
  {
    && store.Valid()
    && CacheWellTyped(db)
    && (AllSlot() in db && db[AllSlot()].content.Json? ==>
          db[AllSlot()].content.value == AuthorList(store.AuthorsView()))
    && (forall authorId :: AuthorSlot(authorId) in db && db[AuthorSlot(authorId)].content.Json? ==>
          authorId in store.authors &&
          db[AuthorSlot(authorId)].content.value == SingleAuthor(store.LoadAuthor(authorId)))
  }

  /** A cache holding only the author list as the store gives it, whatever its expiry,
      agrees with the store: the state a `GetAllAuthors` miss leaves behind. */
  lemma ListOnlyCacheAgrees(store: AppDbContext, expiry: Option<nat>)
    requires store.Valid()
    ensures Agrees(map[AllSlot() := Entry(Json(AuthorList(store.AuthorsView())), expiry)], store)
  {
    AllSlotsDisjoint();
  }

  class AuthorService {
    const authorRepository: AuthorRepository
    const cacheService: RedisCacheService
    /** The log the cache and the repository both record their steps in. */
    const log: Log

    constructor (authorRepository: AuthorRepository, cacheService: RedisCacheService)
      requires authorRepository.context.Valid() && cacheService.log == authorRepository.log
      ensures this.authorRepository == authorRepository && this.cacheService == cacheService
      ensures log == cacheService.log && Valid()
      ensures cacheService.database == map[] ==> Coherent()
    {
      this.authorRepository := authorRepository;
      this.cacheService := cacheService;
      log := cacheService.log;
    }

    /** The store is well formed and both collaborators record in this service's log. */
    ghost predicate Valid()
      reads authorRepository.context
    {
      && authorRepository.context.Valid()
      && cacheService.log == log && authorRepository.log == log
    }

    /** Every cached entry agrees with what the store would return now. */
    ghost predicate Coherent()
      reads cacheService, authorRepository.context
    {
      Agrees(cacheService.database, authorRepository.context)
    }

    /** The author list: from the cache on a hit, without touching the store; on a miss
        from the store, caching it for five minutes only when it is non-empty. */
    method GetAllAuthors() returns (r: Result<set<AuthorWithBooks>>)
      requires Valid()
      modifies cacheService, log
      ensures Valid()
      ensures var before := Read(old(cacheService.database), AuthorListType, AllAuthorsKey);
              before.Hit? ==>
                && r == Ok(before.value.authors)
                && cacheService.database == old(cacheService.database)
                && log.steps == old(log.steps) + [CacheGet(AllSlot())]
      ensures var before := Read(old(cacheService.database), AuthorListType, AllAuthorsKey);
              before.Undecodable? ==>
                && r == DeserializationFailed
                && cacheService.database == old(cacheService.database)
                && log.steps == old(log.steps) + [CacheGet(AllSlot())]
      ensures var before := Read(old(cacheService.database), AuthorListType, AllAuthorsKey);
              var all := authorRepository.context.AuthorsView();
              before.Miss? ==>
                && r == Ok(all)
                && cacheService.database ==
                     (if all != {}
                      then old(cacheService.database)[AllSlot() := Entry(Json(AuthorList(all)), Some(CollectionTtl))]
                      else old(cacheService.database))
                && log.steps == old(log.steps) + [CacheGet(AllSlot()), StoreRead] +
                              (if all != {} then [CacheSet(AllSlot(), Some(CollectionTtl))] else [])
      ensures CacheWellTyped(old(cacheService.database)) ==> r.Ok? && CacheWellTyped(cacheService.database)
      ensures old(Coherent()) ==> Coherent() && r == Ok(authorRepository.context.AuthorsView())
    {
      var cached := cacheService.GetCache(AuthorListType, AllAuthorsKey);
      if cached.Hit? {
        return Ok(cached.value.authors);
      } else if cached.Undecodable? {
        return DeserializationFailed;
      }
      var authors := authorRepository.GetAllAuthors();
      if authors != {} {
        cacheService.SetCache(AuthorListType, AllAuthorsKey, AuthorList(authors), Some(CollectionTtl));
        AllSlotsDisjoint();
      }
      r := Ok(authors);
    }

    /** The author list straight from the store; the cache is neither read nor written. */
    method GetAllAuthorsWithoutCache() returns (r: set<AuthorWithBooks>)
      requires Valid()
      modifies log
      ensures r == authorRepository.context.AuthorsView()
      ensures unchanged(cacheService)
      ensures log.steps == old(log.steps) + [StoreRead]
    {
      r := authorRepository.GetAllAuthors();
    }

    /** Stores a new author with the given name and biography, then drops the cached
        author list; cached single authors stay. */
    method AddAuthor(name: string, biography: string)
      requires Valid()
      modifies cacheService, log, authorRepository.context`authors, authorRepository.context`nextAuthorId
      ensures Valid()
      ensures var id := old(authorRepository.context.nextAuthorId);
              && id !in old(authorRepository.context.authors)
              && authorRepository.context.authors == old(authorRepository.context.authors)[id := Author(id, name, biography)]
      ensures cacheService.database == old(cacheService.database) - {AllSlot()}
      ensures forall authorId :: AuthorSlot(authorId) in old(cacheService.database) ==>
                AuthorSlot(authorId) in cacheService.database &&
                cacheService.database[AuthorSlot(authorId)] == old(cacheService.database)[AuthorSlot(authorId)]
      ensures log.steps == old(log.steps) + [StoreWrite, CacheDelete(AllSlot())]
      ensures old(Coherent()) ==> Coherent()
    {
      var author := Author(0, name, biography);
      var _ := authorRepository.AddAuthor(author);
      cacheService.DeleteCache(AuthorListType, AllAuthorsKey);
      AllSlotsDisjoint();
    }

    /** One author: from the cache on a hit; on a miss from the store, cached for an hour
        only when the author exists (a missing id is never cached). */
    method GetAuthorById(authorId: int) returns (r: Result<Option<AuthorWithBooks>>)
      requires Valid()
      modifies cacheService, log
      ensures Valid()
      ensures var before := Read(old(cacheService.database), AuthorType, AuthorKey(authorId));
              before.Hit? ==>
                && r == Ok(Some(before.value.author))
                && cacheService.database == old(cacheService.database)
                && log.steps == old(log.steps) + [CacheGet(AuthorSlot(authorId))]
      ensures var before := Read(old(cacheService.database), AuthorType, AuthorKey(authorId));
              before.Undecodable? ==>
                && r == DeserializationFailed
                && cacheService.database == old(cacheService.database)
                && log.steps == old(log.steps) + [CacheGet(AuthorSlot(authorId))]
      ensures var before := Read(old(cacheService.database), AuthorType, AuthorKey(authorId));
              var store := authorRepository.context;
              before.Miss? ==>
                if authorId in store.authors then
                  && r == Ok(Some(store.LoadAuthor(authorId)))
                  && cacheService.database == old(cacheService.database)[AuthorSlot(authorId) :=
                       Entry(Json(SingleAuthor(store.LoadAuthor(authorId))), Some(SingleTtl))]
                  && log.steps == old(log.steps) + [CacheGet(AuthorSlot(authorId)), StoreRead,
                                            CacheSet(AuthorSlot(authorId), Some(SingleTtl))]
                else
                  && r == Ok(None)
                  && cacheService.database == old(cacheService.database)
                  && log.steps == old(log.steps) + [CacheGet(AuthorSlot(authorId)), StoreRead]
      ensures CacheWellTyped(old(cacheService.database)) ==> r.Ok? && CacheWellTyped(cacheService.database)
      ensures old(Coherent()) ==>
                && Coherent()
                && r == Ok(if authorId in authorRepository.context.authors
                           then Some(authorRepository.context.LoadAuthor(authorId)) else None)
    {
      var cached := cacheService.GetCache(AuthorType, AuthorKey(authorId));
      if cached.Hit? {
        return Ok(Some(cached.value.author));
      } else if cached.Undecodable? {
        return DeserializationFailed;
      }
      var author := authorRepository.GetAuthorById(authorId);
      if author.Some? {
        cacheService.SetCache(AuthorType, AuthorKey(authorId), SingleAuthor(author.value), Some(SingleTtl));
        SlotsDisjoint(authorId);
        forall j | AuthorSlot(j) == AuthorSlot(authorId) ensures j == authorId {
          AuthorSlotsDistinct(j, authorId);
        }
      }
      r := Ok(author);
    }

    /** Drops the author's cache entry and the author list, then updates the biography in
        the store (a no-op there when the author does not exist). */
    method UpdateAuthorBiography(authorId: int, newBiography: string)
      requires Valid()
      modifies cacheService, log, authorRepository.context`authors
      ensures Valid()
      ensures var old_authors := old(authorRepository.context.authors);
              authorRepository.context.authors ==
                if authorId in old_authors
                then old_authors[authorId := old_authors[authorId].(biography := newBiography)]
                else old_authors
      ensures cacheService.database == old(cacheService.database) - {AuthorSlot(authorId), AllSlot()}
      ensures log.steps == old(log.steps) + [CacheDelete(AuthorSlot(authorId)), CacheDelete(AllSlot()), StoreWrite]
      ensures old(Coherent()) ==> Coherent()
    {
      cacheService.DeleteCache(AuthorType, AuthorKey(authorId));
      cacheService.DeleteCache(AuthorListType, AllAuthorsKey);
      authorRepository.UpdateAuthorBiography(authorId, newBiography);
    }

    /** Drops the author's cache entry and the author list, then deletes the author from
        the store (a no-op there when the author does not exist). */
    method DeleteAuthor(authorId: int)
      requires Valid()
      modifies cacheService, log, authorRepository.context`authors
      ensures Valid()
      ensures authorRepository.context.authors == old(authorRepository.context.authors) - {authorId}
      ensures cacheService.database == old(cacheService.database) - {AuthorSlot(authorId), AllSlot()}
      ensures log.steps == old(log.steps) + [CacheDelete(AuthorSlot(authorId)), CacheDelete(AllSlot()), StoreWrite]
      ensures old(Coherent()) ==> Coherent()
    {
      cacheService.DeleteCache(AuthorType, AuthorKey(authorId));
      cacheService.DeleteCache(AuthorListType, AllAuthorsKey);
      authorRepository.DeleteAuthor(authorId);
    }
  }
}
