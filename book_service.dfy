/** `BookService`: forwards to `BookRepository`; books are never cached. */
module BookSvc {
  import opened CSharpInt
  import opened Models
  import opened Db
  import opened BookRepo

  class BookService {
    const bookRepository: BookRepository

    constructor (bookRepository: BookRepository)
      ensures this.bookRepository == bookRepository
    {
      this.bookRepository := bookRepository;
    }

    /** Exactly the repository's books: every read reflects the store. */
    method GetAllBooks() returns (r: set<Book>)
      requires bookRepository.context.Valid()
      ensures forall id :: id in bookRepository.context.books ==> bookRepository.context.books[id] in r
      ensures forall b :: b in r ==>
                b.bookId in bookRepository.context.books && bookRepository.context.books[b.bookId] == b
    {
      r := bookRepository.GetAllBooks();
    }

    /** Builds a book from the arguments and inserts it: the new row carries exactly the
        given title, author id, price and stock, under a fresh id. */
    method AddBook(title: string, authorId: int, price: int, stock: Int32)
      requires bookRepository.context.Valid()
      modifies bookRepository.context`books, bookRepository.context`nextBookId
      ensures bookRepository.context.Valid()
      ensures var id := old(bookRepository.context.nextBookId);
              && id !in old(bookRepository.context.books)
              && bookRepository.context.books
                 == old(bookRepository.context.books)[id := Book(id, title, authorId, price, stock)]
    {
      var book := Book(0, title, authorId, price, stock);
      var _ := bookRepository.AddBook(book);
    }

    /** Passes `quantity` to the repository unchanged, so the stock drops by `quantity`. */
    method UpdateStock(bookId: int, quantity: Int32)
      requires bookRepository.context.Valid()
      modifies bookRepository.context`books
      ensures bookRepository.context.Valid()
      ensures var old_books := old(bookRepository.context.books);
              bookRepository.context.books ==
                if bookId in old_books
                then old_books[bookId := old_books[bookId].(stock := Subtract(old_books[bookId].stock, quantity))]
                else old_books
    {
      bookRepository.UpdateBookStock(bookId, quantity);
    }
  }

  /** The menu asks for a "positive or negative" stock change and forwards it as the
      quantity to subtract, so entering a positive k lowers the stock by k ... */
  lemma PositiveChangeLowersStock(stock: Int32, change: Int32)
    requires 0 < change && MinInt32 <= stock - change
    ensures Subtract(stock, change) == stock - change < stock
  {
  }

  /** ... and entering a negative change raises it by its magnitude. */
  lemma NegativeChangeRaisesStock(stock: Int32, change: Int32)
    requires change < 0 && stock - change <= MaxInt32
    ensures Subtract(stock, change) == stock - change > stock
  {
  }
}
