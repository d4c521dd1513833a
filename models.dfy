/** The entities of the bookstore, as the store holds them. Prices are integer cents
    (the source uses `decimal`); the navigation properties `Book.Author` and
    `Book.OrderDetails` are dropped, and an author's `Books` collection is not stored:
    it is derived from `Book.AuthorID` when an author is loaded. */
module Models {
  import opened CSharpInt

  /** A row of the authors table: `AuthorID`, `Name`, `Biography`. */
  datatype Author = Author(authorId: int, name: string, biography: string)

  /** A row of the books table. `stock` is a C# `int`. */
  datatype Book = Book(bookId: int, title: string, authorId: int, price: int, stock: Int32)

  /** One line of an order: the book, the quantity and the price as the caller gave it. */
  datatype OrderDetail = OrderDetail(bookId: int, quantity: int, price: int)

  /** An order with its lines; `orderDate` is a timestamp supplied by the caller. */
  datatype Order = Order(orderId: int, customerId: int, orderDate: int, totalAmount: int,
                         orderDetails: seq<OrderDetail>)

  /** An author as the repository loads it, `Include(a => a.Books)`: the row together
      with every book whose `AuthorID` is this author's id. */
  datatype AuthorWithBooks = AuthorWithBooks(author: Author, books: set<Book>)
}
