/** The `books` table: the shape of one row and the constraints the table
    keeps (primary key, unique stored-file path, non-null columns). */
module Models {
  import opened Common

  /** One row of `books`. `name` and `author` are nullable columns;
      `date_published`, `genre`, `file_path` and `is_denied` are not. */
  datatype Book = Book(
    id: int,
    name: Option<string>,
    author: Option<string>,
    datePublished: Date,
    genre: string,
    filePath: string,
    isDenied: bool)

  /** `id` is the primary key. */
  predicate UniqueIds(books: seq<Book>)
  {
    forall i, j | 0 <= i < j < |books| :: books[i].id != books[j].id
  }

  /** `file_path` carries a unique constraint. */
  predicate UniqueFilePaths(books: seq<Book>)
  {
    forall i, j | 0 <= i < j < |books| :: books[i].filePath != books[j].filePath
  }

  predicate PathTaken(books: seq<Book>, path: string)
  {
    exists i | 0 <= i < |books| :: books[i].filePath == path
  }

  /** Every id was drawn from the serial sequence, which starts at 1 and
      will hand out `nextId` next. */
  predicate IdsIssued(books: seq<Book>, nextId: int)
  {
    forall i | 0 <= i < |books| :: 1 <= books[i].id < nextId
  }

  predicate TableInvariant(books: seq<Book>, nextId: int)
  {
    UniqueIds(books) && UniqueFilePaths(books) && IdsIssued(books, nextId)
  }

  /** A new row as INSERT leaves it: `is_denied` takes its default, false. */
  function NewRow(id: int, name: string, author: string, datePublished: Date, genre: string, filePath: string): Book
  {
    Book(id, Some(name), Some(author), datePublished, genre, filePath, false)
  }

  /** Appending a row with the next serial id and an unused path keeps every
      table constraint. */
  lemma {:induction false} InsertKeepsInvariant(books: seq<Book>, nextId: int, row: Book)
    requires TableInvariant(books, nextId)
    requires row.id == nextId && 1 <= nextId
    requires !PathTaken(books, row.filePath)
    ensures TableInvariant(books + [row], nextId + 1)
  {
    var t := books + [row];
    forall i, j | 0 <= i < j < |t| ensures t[i].id != t[j].id && t[i].filePath != t[j].filePath {
      if j == |books| {
        assert t[i] == books[i];
      }
    }
  }
}
