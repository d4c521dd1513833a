# Online bookstore: cache-aside author service, repositories and Redis wrapper

This project models the core of the Onlinebookstore console application in Dafny,
and proves properties of that model:

- the `AuthorService` cache-aside layer,
- the `RedisCacheService` key-value wrapper it uses,
- the `AuthorRepository`, `BookRepository` and `OrderRepository` classes over a shared
  Entity Framework context,
- `BookService`.

The state is two finite tables:

- **Store.** The `AppDbContext` is a class (`Db.AppDbContext`). It holds one map per table
  (authors, books, orders), keyed by the store-assigned id, plus one identity counter per
  table. `Valid()` says every row sits under its own id and the counters are fresh. A context
  is opened onto the rows and counters the database already holds.
- **Cache.** The Redis database is a class (`Redis.RedisCacheService`). Its one field is a
  `map<string, Entry>`. An entry is the payload and an optional expiry in seconds. JSON
  encoding is the identity. A payload of the wrong shape for the requested type does not
  decode. The model returns this as the `Undecodable` lookup result, and the services
  return `DeserializationFailed`.

Repositories and services are classes. They hold their collaborators in `const` fields,
as the C# primary constructors do. Each method states its new state in terms of the old
one.

Reads use `Include(a => a.Books)`, so an author is loaded with the books whose `AuthorID`
is the author's id (`Db.AppDbContext.LoadAuthor`). The books are not stored on the author.

Keys work like this:

- The Redis key of a logical key is `"T:$" + key`, for every type argument. `nameof(T)` is
  the literal name of the type parameter, and the `$` before `{key}` in the interpolated
  string is a literal character.
- `AuthorService` uses two logical key families: `"authors_all"` and `authorId.ToString()`.
- `IntText` renders an int and proves that rendering injective through a parse that undoes
  it. From this, the model proves that the two families never share a Redis key, and that
  two authors never share one either.

The cache wrapper and the authors repository share one ghost log (`StepLog.Log`), and
each of their operations appends its own step: a cache get, set or delete of one Redis key,
a store read or a store write. `AuthorService` requires both to write to the same log, so
the steps a service call records follow from the calls it makes, in order. This is how the
model states two facts:

- A cache hit does not read the store.
- `UpdateAuthorBiography` and `DeleteAuthor` delete both cache keys before they write to
  the store, as the code does.

The class also has a `Coherent()` predicate: every cached entry equals what the store
would return now. Every `AuthorService` operation preserves it. Under it, the cached reads
return exactly the store's data.

`BookService` writes do not invalidate the author cache, although cached authors carry
their books. `Scenarios.BookWriteLeavesAuthorListStale` shows a cached author list that
differs from the store after a book is added.

Behaviour of the code worth knowing:

- The code deletes cache entries before the store write in update and delete. `AddAuthor`
  writes first, then deletes.
- There is no negative-stock guard. `UpdateBookStockAsync` subtracts unconditionally, with
  C# `int` wrap-around.
- There is no per-entity-type key namespace. Every key has the prefix `T:$`.
- Only authors are cached. Books are not.
- There is no order-placement workflow, stock check or price snapshot.
  `CreateOrderAsync` stores the total and lines it is given.
- Cache failures and decode failures are not turned into misses. A payload that does not
  decode raises, which is modelled as `DeserializationFailed`.

## Model

| member | source | states |
|---|---|---|
| CSharpInt.Wrap | Onlinebookstore/Repositories/BookRepository.cs:29 | the result is the Int32 congruent to the input modulo 2^32, and equals the input when that fits |
| CSharpInt.Subtract | Onlinebookstore/Repositories/BookRepository.cs:29 | C# `int` subtraction: the exact difference when it fits, otherwise shifted by 2^32 up or down |
| IntText.NatToString | Onlinebookstore/Services/AuthorService.cs:53 | a non-empty digit string, one digit exactly for n < 10, no leading zero |
| IntText.IntToString | Onlinebookstore/Services/AuthorService.cs:53 | `int.ToString()`: starts with `-` exactly for negative numbers, otherwise only digits |
| IntText.ParseNatToString | Onlinebookstore/Services/AuthorService.cs:53 | parsing the decimal rendering of a natural number gives the number back |
| IntText.ParseIntToString | Onlinebookstore/Services/AuthorService.cs:53 | parsing `i.ToString()` gives `i` back, for every int |
| IntText.IntToStringInjective | Onlinebookstore/Services/AuthorService.cs:53 | two ints with the same rendering are equal |
| IntText.IntToStringNotALetter | Onlinebookstore/Services/AuthorService.cs:53 | no rendered int starts with a lower-case letter |
| Db.AppDbContext.constructor | Onlinebookstore/AppDbContext.cs:14-17 | a context opened onto the database holds exactly the rows and identity counters the database already has, and is Valid |
| Db.AppDbContext.BooksOf | Onlinebookstore/AppDbContext.cs:38-40 | the books of an author are exactly the stored books whose AuthorID is that author |
| Db.AppDbContext.LoadAuthor | Onlinebookstore/Repositories/AuthorRepository.cs:24-26 | the loaded author is the stored row under that id, with exactly the books that reference it |
| Db.AppDbContext.AuthorsView | Onlinebookstore/Repositories/AuthorRepository.cs:11 | contains every stored author loaded with its books, and nothing else |
| Redis.PhysicalKey | Onlinebookstore/Redis/RedisCacheService.cs:22 | the Redis key is the prefix "T:$" followed by the logical key, which can be read back from it |
| Redis.PhysicalKeyIgnoresType | Onlinebookstore/Redis/RedisCacheService.cs:22 | a logical key's slot is the same for every cached type |
| Redis.PhysicalKeyInjective | Onlinebookstore/Redis/RedisCacheService.cs:22 | different logical keys give different Redis keys |
| Redis.Read | Onlinebookstore/Redis/RedisCacheService.cs:25-35 | a miss exactly when the key is absent or holds an empty string; a hit holds the stored value of the requested type; otherwise not decodable |
| Redis.RedisCacheService.constructor | Onlinebookstore/Redis/RedisCacheService.cs:11-16 | the service sees whatever the database already holds |
| Redis.RedisCacheService.SetCache | Onlinebookstore/Redis/RedisCacheService.cs:18-23 | only the one Redis key changes; it holds the value with the supplied expiry (`None`: no expiry); one set of that key is logged |
| Redis.RedisCacheService.GetCache | Onlinebookstore/Redis/RedisCacheService.cs:25-35 | the result is `Read` of the current database; the database is not changed; one get of that key is logged |
| Redis.RedisCacheService.DeleteCache | Onlinebookstore/Redis/RedisCacheService.cs:37-40 | only the one Redis key is removed; one delete of that key is logged |
| Redis.ReadAfterSet | Onlinebookstore/Redis/RedisCacheService.cs:18-35 | a Get after a Set of the same key and type returns the value set |
| Redis.ReadAfterSetOtherType | Onlinebookstore/Redis/RedisCacheService.cs:22-34 | a Get under another type reads the same slot and fails to decode |
| Redis.ReadAfterDelete | Onlinebookstore/Redis/RedisCacheService.cs:29-40 | a Get after a Delete of the same key returns the default, whatever the types |
| Redis.ReadOtherKey | Onlinebookstore/Redis/RedisCacheService.cs:22-39 | Set and Delete of one key leave every other key's Get unchanged |
| AuthorRepo.AuthorRepository.constructor | Onlinebookstore/Repositories/AuthorRepository.cs:6 | the repository works on the context it is given |
| AuthorRepo.AuthorRepository.GetAllAuthors | Onlinebookstore/Repositories/AuthorRepository.cs:9-12 | returns every stored author with its books; one store read is logged |
| AuthorRepo.AuthorRepository.AddAuthor | Onlinebookstore/Repositories/AuthorRepository.cs:15-19 | inserts exactly one author under a fresh id; existing authors and other tables are unchanged; one store write is logged |
| AuthorRepo.AuthorRepository.GetAuthorById | Onlinebookstore/Repositories/AuthorRepository.cs:22-27 | returns the author with that id and its books, or none exactly when no such author exists; one store read is logged |
| AuthorRepo.AuthorRepository.UpdateAuthorBiography | Onlinebookstore/Repositories/AuthorRepository.cs:30-38 | changes only that author's biography if present; otherwise the store is unchanged; one store write is logged |
| AuthorRepo.AuthorRepository.DeleteAuthor | Onlinebookstore/Repositories/AuthorRepository.cs:41-49 | removes exactly that author if present; otherwise a no-op; one store write is logged |
| BookRepo.BookRepository.constructor | Onlinebookstore/Repositories/BookRepository.cs:6 | the repository works on the context it is given |
| BookRepo.BookRepository.GetAllBooks | Onlinebookstore/Repositories/BookRepository.cs:8-11 | returns every stored book and nothing else |
| BookRepo.BookRepository.AddBook | Onlinebookstore/Repositories/BookRepository.cs:13-17 | inserts exactly one book under a fresh id; other books unchanged |
| BookRepo.BookRepository.GetBookById | Onlinebookstore/Repositories/BookRepository.cs:18-23 | returns the book with that id, or none exactly when it does not exist |
| BookRepo.BookRepository.UpdateBookStock | Onlinebookstore/Repositories/BookRepository.cs:24-32 | if present, only that book's stock changes, to old minus quantity in C# `int` arithmetic; otherwise a no-op |
| BookRepo.StockCanGoNegative | Onlinebookstore/Repositories/BookRepository.cs:29 | taking more than the stock leaves a negative stock: there is no lower bound |
| BookRepo.StockWrapsAround | Onlinebookstore/Repositories/BookRepository.cs:29 | subtracting 1 from the smallest int gives the largest |
| OrderRepo.OrderRepository.constructor | Onlinebookstore/Repositories/OrderRepository.cs:6 | the repository works on the context it is given |
| OrderRepo.OrderRepository.CreateOrder | Onlinebookstore/Repositories/OrderRepository.cs:9-21 | adds exactly one order, with the given customer, total and lines; the total is not recomputed; earlier orders unchanged |
| OrderRepo.OrderRepository.GetCustomerOrders | Onlinebookstore/Repositories/OrderRepository.cs:23-30 | returns exactly the stored orders of that customer |
| BookSvc.BookService.constructor | Onlinebookstore/Services/BookService.cs:6 | the service works on the repository it is given |
| BookSvc.BookService.GetAllBooks | Onlinebookstore/Services/BookService.cs:8-11 | returns exactly the stored books, with no cache in between |
| BookSvc.BookService.AddBook | Onlinebookstore/Services/BookService.cs:13-23 | the new book's title, author id, price and stock are the arguments; it gets a fresh id |
| BookSvc.BookService.UpdateStock | Onlinebookstore/Services/BookService.cs:25-28 | forwards the quantity unchanged: the book's stock becomes old stock minus quantity |
| BookSvc.PositiveChangeLowersStock | Onlinebookstore/Program.cs:131-134 | a positive menu "change" lowers the stock by that amount |
| BookSvc.NegativeChangeRaisesStock | Onlinebookstore/Program.cs:131-134 | a negative menu "change" raises the stock by its magnitude |
| AuthorSvc.AuthorKey | Onlinebookstore/Services/AuthorService.cs:53 | an author's key `authorId.ToString()` never equals "authors_all" |
| AuthorSvc.SlotsDisjoint | Onlinebookstore/Services/AuthorService.cs:11-53 | the collection entry and any single-author entry never share a Redis key |
| AuthorSvc.AllSlotsDisjoint | Onlinebookstore/Services/AuthorService.cs:11-53 | the same, for all author ids at once |
| AuthorSvc.AuthorSlotsDistinct | Onlinebookstore/Services/AuthorService.cs:53 | two author ids share a Redis key only if they are equal |
| AuthorSvc.TtlAsymmetry | Onlinebookstore/Services/AuthorService.cs:23-65 | the single-author TTL (1 h) is longer than the collection TTL (5 min) |
| AuthorSvc.ListOnlyCacheAgrees | Onlinebookstore/Services/AuthorService.cs:17-24 | a cache holding just the store's author list under "authors_all", as a miss leaves it, agrees with the store |
| AuthorSvc.AuthorService.constructor | Onlinebookstore/Services/AuthorService.cs:6 | the service keeps the repository and cache it is given, which share its log, and is coherent over an empty cache |
| AuthorSvc.AuthorService.GetAllAuthors | Onlinebookstore/Services/AuthorService.cs:8-27 | hit: the cached list, no store read, cache unchanged; miss: the store's list, cached with a 300 s TTL only if non-empty; decode failures are reported; keeps the cache well-typed and coherent, and under coherence returns exactly the store's list |
| AuthorSvc.AuthorService.GetAllAuthorsWithoutCache | Onlinebookstore/Services/AuthorService.cs:29-32 | the store's list; the cache is neither read nor changed |
| AuthorSvc.AuthorService.AddAuthor | Onlinebookstore/Services/AuthorService.cs:34-48 | adds one author with the given name and biography under a fresh id, then removes only "authors_all" from the cache; per-author entries are untouched; keeps coherence |
| AuthorSvc.AuthorService.GetAuthorById | Onlinebookstore/Services/AuthorService.cs:50-69 | hit: the cached author, no store read; miss: the store's author or none, cached with a 3600 s TTL only when it exists; a missing id leaves the cache unchanged; under coherence returns exactly the store's answer |
| AuthorSvc.AuthorService.UpdateAuthorBiography | Onlinebookstore/Services/AuthorService.cs:71-81 | deletes the author's key, then "authors_all", then writes the store; afterwards both keys are gone and every other entry is unchanged; keeps coherence |
| AuthorSvc.AuthorService.DeleteAuthor | Onlinebookstore/Services/AuthorService.cs:83-93 | the same deletion order; the author is removed if present; keeps coherence |
| Scenarios.BookWriteLeavesAuthorListStale | Onlinebookstore/Services/BookService.cs:13-23 | after a book is added to a cached author, the author list served differs from the store's |
| Scenarios.ReserveTwiceFromFive | Onlinebookstore/Repositories/BookRepository.cs:24-32 | two reservations of 3 from a stock of 5 both succeed and leave -1 |

## Left out

- `async`/`Task`: every call is awaited before the next one, so the methods are sequential.
  Concurrent writers and their races are not modelled.
- The Redis connection (`ConnectionMultiplexer.Connect`), network failures and an unavailable
  cache are not modelled. No failure of a cache or store call is modelled.
- Newtonsoft JSON is the identity. Only two of its behaviours are modelled: a payload that
  does not decode as the requested type, and an empty string read as the default.
- A JSON `null` payload is not modelled, because the service never caches null.
- After `Include(a => a.Books)`, Entity Framework's fix-up points every loaded book's
  `Author` back at its author. Under Newtonsoft's default settings, `SetCacheAsync` therefore
  raises a reference-loop error on every miss that loads an author with at least one book, and
  nothing is cached. The model drops the back-reference and caches such authors and author
  lists; on those misses its cache population differs from the program's.
- Time is not modelled. Expiries are recorded in seconds (300 and 3600), and entries never
  expire in the model. `DateTime.UtcNow` in `CreateOrderAsync` is the `orderDate` parameter.
- Results of `ToListAsync()` without `OrderBy` are modelled as sets, so list order is not
  modelled. Ids are unique, so nothing else is lost.
- Ids are unbounded integers. Overflow of the identity counters is not modelled.
- Ids a caller sets before `Add` are not modelled: the store always assigns a fresh id.
- What the database does with an author's books when the author is deleted (a cascade, or a
  foreign-key error) depends on the schema. It is not modelled: only the author row goes.
- `decimal` prices and totals are integer cents. Fractions of a cent are not representable.
- The ids of order details, and their link back to the order, are not modelled.
- `ThenInclude(od => od.Book)` in `GetCustomerOrdersAsync` is not modelled.
- The `Customer` entity is not modelled.
- `int.ToString()` is modelled in the invariant culture. A culture whose negative sign is not
  `-` is not modelled.
- Program.cs (the console menu, input parsing, printing) is not modelled. It is cited only for
  how the stock change is passed on.
- AppDbContext.cs column and table mapping and the connection string are not modelled. Only
  the Author-Book foreign key is kept, as `Db.AppDbContext.BooksOf`.
