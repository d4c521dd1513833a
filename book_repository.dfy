/** `BookRepository`: reads and writes on the books table. */
module BookRepo {
  import opened Wrappers
  import opened CSharpInt
  import opened Models
  import opened Db

  class BookRepository {
    const context: AppDbContext

    constructor (context: AppDbContext)
      ensures this.context == context
    {
      this.context := context;
    }

    /** Every stored book. */
    method GetAllBooks() returns (r: set<Book>)
      requires context.Valid()
      ensures forall id :: id in context.books ==> context.books[id] in r
      ensures forall b :: b in r ==> b.bookId in context.books && context.books[b.bookId] == b
    {
      r := set id | id in context.books :: context.books[id];
    }

    /** Inserts the book under a fresh store-assigned id, which is returned. */
    method AddBook(book: Book) returns (id: int)
      requires context.Valid()
      modifies context`books, context`nextBookId
      ensures context.Valid()
      ensures id == old(context.nextBookId) && id !in old(context.books)
      ensures context.books == old(context.books)[id := book.(bookId := id)]
      ensures context.nextBookId == id + 1
    {
      id := context.nextBookId;
      context.books := context.books[id := book.(bookId := id)];
      context.nextBookId := id + 1;
    }

    /** The first book whose `BookID` is `bookId`, or null. */
    method GetBookById(bookId: int) returns (r: Option<Book>)
      requires context.Valid()
      ensures r.Some? <==> bookId in context.books
      ensures r.Some? ==> r.value == context.books[bookId] && r.value.bookId == bookId
    {
      if bookId in context.books {
        r := Some(context.books[bookId]);
      } else {
        r := None;
      }
    }

    /** If the book exists, subtracts `quantity` from its stock (`book.Stock -= quantity`,
        C#'s wrapping `int` subtraction, with no lower bound) and changes nothing else;
        otherwise a no-op. */
    method UpdateBookStock(bookId: int, quantity: Int32)
      requires context.Valid()
      modifies context`books
      ensures context.Valid()
      ensures context.books ==
                if bookId in old(context.books)
                then old(context.books)[bookId := old(context.books)[bookId].(stock := Subtract(old(context.books)[bookId].stock, quantity))]
                else old(context.books)
    {
      if bookId in context.books {
        var book := context.books[bookId];
        context.books := context.books[bookId := book.(stock := Subtract(book.stock, quantity))];
      }
    }
  }

  /** Nothing stops the stock from going negative: taking more than is in stock leaves
      a negative stock. */
  lemma StockCanGoNegative(stock: Int32, quantity: Int32)
    requires 0 <= stock < quantity
    ensures Subtract(stock, quantity) < 0
    ensures Subtract(stock, quantity) == stock - quantity
  {
  }

  /** At the bottom of the range the subtraction wraps around to the top. */
  lemma StockWrapsAround()
    ensures Subtract(MinInt32, 1) == MaxInt32
  {
  }
}
