/** The relational store behind the repositories: one table per entity, each a map
    from the store-assigned identifier to the row, and one identity counter per table. */
module Db {
  import opened Models

  /** The shape of the tables: each row under its own identifier, each identifier
      below its table's identity counter, and identities starting at 1. */
  ghost predicate WellKeyed(authors: map<int, Author>, books: map<int, Book>, orders: map<int, Order>,
                            nextAuthorId: int, nextBookId: int, nextOrderId: int)
  {
    && 1 <= nextAuthorId && 1 <= nextBookId && 1 <= nextOrderId
    && (forall id :: id in authors ==> 1 <= id < nextAuthorId && authors[id].authorId == id)
    && (forall id :: id in books ==> 1 <= id < nextBookId && books[id].bookId == id)
    && (forall id :: id in orders ==> 1 <= id < nextOrderId && orders[id].orderId == id)
  }

  class AppDbContext {
    var authors: map<int, Author>
    var books: map<int, Book>
    var orders: map<int, Order>
    /** The next value each table's identity column hands out (identities start at 1). */
    var nextAuthorId: int
    var nextBookId: int
    var nextOrderId: int

    /** Every row is stored under its own identifier, and every identifier was handed
        out by the table's counter, so the counter's value is always fresh. */
    ghost predicate Valid()
      reads this
    {
      WellKeyed(authors, books, orders, nextAuthorId, nextBookId, nextOrderId)
    }

    /** Opening a context onto the database sees the rows and identity counters it
        already holds. */
    constructor (authors: map<int, Author>, books: map<int, Book>, orders: map<int, Order>,
                 nextAuthorId: int, nextBookId: int, nextOrderId: int)
      requires WellKeyed(authors, books, orders, nextAuthorId, nextBookId, nextOrderId)
      ensures Valid()
      ensures this.authors == authors && this.books == books && this.orders == orders
      ensures this.nextAuthorId == nextAuthorId && this.nextBookId == nextBookId
      ensures this.nextOrderId == nextOrderId
    {
      this.authors, this.books, this.orders := authors, books, orders;
      this.nextAuthorId, this.nextBookId, this.nextOrderId := nextAuthorId, nextBookId, nextOrderId;
    }

    /** The books table's foreign key `Book.AuthorID` read backwards: the books of one author. */
    function BooksOf(authorId: int): (r: set<Book>)
      reads this
      requires Valid()
      ensures forall id :: id in books && books[id].authorId == authorId ==> books[id] in r
      ensures forall b :: b in r ==> b.authorId == authorId && b.bookId in books && books[b.bookId] == b
    {
      set id | id in books && books[id].authorId == authorId :: books[id]
    }

    /** The author stored under `id`, loaded with its books. */
    function LoadAuthor(id: int): (a: AuthorWithBooks)
      reads this
      requires Valid() && id in authors
      ensures a.author == authors[id] && a.author.authorId == id
      ensures forall bid :: bid in books && books[bid].authorId == id ==> books[bid] in a.books
      ensures forall b :: b in a.books ==> b.authorId == id && b.bookId in books && books[b.bookId] == b
    {
      AuthorWithBooks(authors[id], BooksOf(id))
    }

    /** Every stored author, each loaded with its books. */
    function AuthorsView(): (r: set<AuthorWithBooks>)
      reads this
      requires Valid()
      ensures forall id :: id in authors ==> LoadAuthor(id) in r
      ensures forall a :: a in r ==> a.author.authorId in authors && a == LoadAuthor(a.author.authorId)
    {
      set id | id in authors :: LoadAuthor(id)
    }
  }
}
