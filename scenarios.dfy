/** Whole-system runs over one store and one cache, put together as the source's
    services are put together by their constructors. */
module Scenarios {
  import opened Wrappers
  import opened CSharpInt
  import opened Models
  import opened Db
  import opened Redis
  import opened AuthorRepo
  import opened BookRepo
  import opened StepLog
  import opened AuthorSvc
  import opened BookSvc

  /** `BookService` writes never invalidate the author cache, although a cached author
      carries its books. Start from a coherent state in which the author list is cached,
      as a `GetAllAuthors` miss leaves it; after a book is added for that author, the list
      served is the cached one and differs from what the store holds. */
  method BookWriteLeavesAuthorListStale() returns (served: Result<set<AuthorWithBooks>>, stored: set<AuthorWithBooks>)
    ensures served.Ok? && served.value != stored
  {
    var author := Author(1, "Name", "Biography");
    var context := new AppDbContext(map[1 := author], map[], map[], 2, 1, 1);
    OnlyAuthorView(context, author);
    var listed := context.AuthorsView();
    ListOnlyCacheAgrees(context, Some(CollectionTtl));

    var log := new Log();
    var cache := new RedisCacheService(map[AllSlot() := Entry(Json(AuthorList(listed)), Some(CollectionTtl))], log);
    var authorRepository := new AuthorRepository(context, log);
    var authorService := new AuthorService(authorRepository, cache);
    var bookRepository := new BookRepository(context);
    var bookService := new BookService(bookRepository);
    assert authorService.Coherent();

    bookService.AddBook("Title", 1, 1000, 5);
    OnlyBookOf(context, Book(1, "Title", 1, 1000, 5));
    OnlyAuthorView(context, author);
    stored := context.AuthorsView();

    served := authorService.GetAllAuthors();
  }

  /** A store holding one author lists exactly that author with its books. */
  lemma OnlyAuthorView(context: AppDbContext, author: Author)
    requires context.Valid() && context.authors == map[author.authorId := author]
    ensures context.AuthorsView() == {AuthorWithBooks(author, context.BooksOf(author.authorId))}
  {
    var view := context.AuthorsView();
    assert context.LoadAuthor(author.authorId) in view;
    assert forall a :: a in view ==> a == context.LoadAuthor(author.authorId);
  }

  /** A store holding one book lists it among its author's books and nowhere else. */
  lemma OnlyBookOf(context: AppDbContext, book: Book)
    requires context.Valid() && context.books == map[book.bookId := book]
    ensures context.BooksOf(book.authorId) == {book}
  {
    var books := context.BooksOf(book.authorId);
    assert context.books[book.bookId] in books;
    assert forall b :: b in books ==> b == book;
  }

  /** There is no stock guard: two reservations of 3 from a stock of 5 both go through
      and leave the stock at -1. */
  method ReserveTwiceFromFive() returns (stock: Int32)
    ensures stock == -1
  {
    var context := new AppDbContext(map[], map[], map[], 1, 1, 1);
    var bookRepository := new BookRepository(context);
    var bookService := new BookService(bookRepository);
    bookService.AddBook("Title", 1, 1000, 5);
    bookService.UpdateStock(1, 3);
    bookService.UpdateStock(1, 3);
    var book := bookRepository.GetBookById(1);
    stock := book.value.stock;
  }
}
