/** `AuthorRepository`: thin reads and writes on the authors table. */
module AuthorRepo {
  import opened Wrappers
  import opened Models
  import opened Db
  import opened StepLog

  class AuthorRepository {
    const context: AppDbContext
    /** Where every call records the step it performs. */
    const log: Log

    constructor (context: AppDbContext, log: Log)
      ensures this.context == context && this.log == log
    {
      this.context := context;
      this.log := log;
    }

    /** All authors, each with its books. */
    method GetAllAuthors() returns (r: set<AuthorWithBooks>)
      requires context.Valid()
      modifies log
      ensures r == context.AuthorsView()
      ensures log.steps == old(log.steps) + [StoreRead]
    {
      r := context.AuthorsView();
      log.steps := log.steps + [StoreRead];
    }

    /** Inserts the author; the table's identity column gives it a fresh id, which is
        returned (EF Core writes it back into the tracked object). Nothing else changes. */
    method AddAuthor(author: Author) returns (id: int)
      requires context.Valid()
      modifies context`authors, context`nextAuthorId, log
      ensures context.Valid()
      ensures log.steps == old(log.steps) + [StoreWrite]
      ensures id == old(context.nextAuthorId) && id !in old(context.authors)
      ensures context.authors == old(context.authors)[id := author.(authorId := id)]
      ensures context.nextAuthorId == id + 1
    {
      id := context.nextAuthorId;
      context.authors := context.authors[id := author.(authorId := id)];
      context.nextAuthorId := id + 1;
      log.steps := log.steps + [StoreWrite];
    }

    /** The first author whose `AuthorID` is `authorId`, with its books, or null. */
    method GetAuthorById(authorId: int) returns (r: Option<AuthorWithBooks>)
      requires context.Valid()
      ensures r.Some? <==> authorId in context.authors
      modifies log
      ensures r.Some? ==> r.value == context.LoadAuthor(authorId)
      ensures log.steps == old(log.steps) + [StoreRead]
    {
      if authorId in context.authors {
        r := Some(context.LoadAuthor(authorId));
      } else {
        r := None;
      }
      log.steps := log.steps + [StoreRead];
    }

    /** If the author exists, replaces its biography and nothing else; otherwise a no-op. */
    method UpdateAuthorBiography(authorId: int, biography: string)
      requires context.Valid()
      modifies context`authors, log
      ensures context.Valid()
      ensures log.steps == old(log.steps) + [StoreWrite]
      ensures context.authors ==
                if authorId in old(context.authors)
                then old(context.authors)[authorId := old(context.authors)[authorId].(biography := biography)]
                else old(context.authors)
    {
      if authorId in context.authors {
        var author := context.authors[authorId];
        context.authors := context.authors[authorId := author.(biography := biography)];
      }
      log.steps := log.steps + [StoreWrite];
    }

    /** Removes the author if it exists; otherwise a no-op. */
    method DeleteAuthor(authorId: int)
      requires context.Valid()
      modifies context`authors, log
      ensures context.Valid()
      ensures log.steps == old(log.steps) + [StoreWrite]
      ensures context.authors == old(context.authors) - {authorId}
    {
      if authorId in context.authors {
        context.authors := context.authors - {authorId};
      }
      log.steps := log.steps + [StoreWrite];
    }
  }
}
