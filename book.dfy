/** `struct Book` and its validating constructor (models/book.h). */
module BookModel {
  import opened Wrappers
  import opened Numbers

  datatype Book = Book(id: int, title: string, authorId: int, description: string, year: int,
                       genreId: int, publisherId: int, pages: int)

  datatype BookError = EmptyTitle | EmptyAuthor | YearInFuture

  /**
   * `Book(t, a, desc, y, g, p, pg, id = -1)`: stores the arguments and runs
   * `validate()`. The author check tests `to_string(author_id)` for
   * emptiness, which never holds, so only the title and the year decide.
   */
  function NewBook(title: string, authorId: int, description: string, year: int, genreId: int,
                   publisherId: int, pages: int, currentYear: int, id: int := -1): (r: Result<Book, BookError>)
    ensures r.Success? <==> title != "" && year <= currentYear
    ensures r.Success? ==> r.value == Book(id, title, authorId, description, year, genreId, publisherId, pages)
    ensures r != Failure(EmptyAuthor)
  {
    if title == "" then Failure(EmptyTitle)
    else if |IntToString(authorId)| == 0 then Failure(EmptyAuthor)
    else if year > currentYear then Failure(YearInFuture)
    else Success(Book(id, title, authorId, description, year, genreId, publisherId, pages))
  }

  /** Rebuilding a stored row through the constructor (what every read of the table does). */
  predicate BookRebuilds(b: Book, currentYear: int) {
    NewBook(b.title, b.authorId, b.description, b.year, b.genreId, b.publisherId, b.pages, currentYear, b.id).Success?
  }
}
