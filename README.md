# Book catalog with denylist-controlled distribution

A Dafny model of the core of a small catalog service for plain-text books.
Clients register a book (metadata plus an uploaded file), list and search the
catalog, download a book's file, read it in an online viewer, and upload an
XLSX denylist whose first sheet names books and whose second sheet names
authors; every matching catalog row is then flagged as denied, which blocks
downloads but, as the code stands, not the viewer.

The model keeps the service's state in one in-memory `Store` object
(`book_service.dfy`): the `books` table as a sequence of rows, the serial
sequence behind `id` as a counter, and the upload directory as a map from
path to bytes. Operations that change that state (`SaveBookFile`,
`CreateBook`, `UpdateDenylist`, and the two endpoints built on them) are
methods with `modifies` clauses whose postconditions give the whole new state
in terms of specification functions (`DenyListed`, `CountListed`, `NewRow`).
Lookup, search, the download decision, denylist extraction and the viewer are
pure functions over the table and the file map, and the properties the
service promises are lemmas about those functions.

Modules follow the source files:

- `Common` (`common.dfy`): `Option`, `Result`, bytes, dates, the ASCII
  case-insensitive substring match, `EndsWith`, the f-string rendering of an
  optional value, and the HTTP error type.
- `Models` (`models.dfy`): the `books` row and the table constraints
  (primary key, unique `file_path`, ids drawn from the serial sequence).
- `BookSchema` (`schemas.dfy`): `BookCreate` and `Book` with their field
  length limits as a validator.
- `BookService` (`book_service.dfy`): lookup, filtered search, denylist
  marking and counting, and the `Store` class.
- `BooksApi` (`books_api.dfy`): the create, download and denylist-upload
  endpoints.
- `WebViewer` (`web_viewer.dfy`): the online viewer.

Behaviour the model keeps on purpose:

- The form parser treats an empty form value as not sent. An empty name,
  author or date is refused with 422 before the handler runs, so nothing is
  written; an empty genre falls back to the optional field's `None` default.
- Registering a book writes the file before anything is validated or
  inserted. A form that fails validation (no `genre` or an empty one, which
  the form treats as optional but the schema requires; a name or author over 255 characters; a
  genre over 100; a date that does not parse) and an insert that hits the
  unique `file_path` constraint both end in a 500, with the file already
  written. A second upload under an existing file name overwrites the first
  book's content, so that book now serves the new bytes.
- The serial id is drawn before the unique check, so a rejected insert still
  uses up an id (`Store.CreateBook` advances `nextId` on both paths).
- The denylist count is the number of rows matched, already denied or not,
  so repeating an upload reports the same count.
- The viewer never looks at `is_denied`.
- Every denylist failure after the extension check, including the
  reader's own failure, is answered 500, because it is raised inside the
  `try` block whose handler maps every exception to 500.

The model follows the code in three places where a reader might expect
otherwise. A malformed date or a missing genre on create gives 500, because
the schema object is built inside the handler. A workbook with fewer than two
sheets or without a `name` column gives 500. The denylist inputs are lists,
not sets, and duplicates in them do not change the result.

## Model

| member | source | states |
|---|---|---|
| `Models.InsertKeepsInvariant` | app/db/models.py:9-15 | appending a row with the next serial id and an unused `file_path` keeps ids unique, paths unique and every id issued by the sequence |
| `BookSchema.ValidateBase` | app/schemas/book.py:6-11 | no errors exactly when name and author are present and at most 255 characters, the date parsed, and genre is present and at most 100 characters; each error kind (missing name, name too long, missing author, author too long, bad date, missing genre, genre too long) is reported exactly when its field fails that way |
| `BookSchema.MakeBookCreate` | app/api/v1/books.py:31-36 | the form values make a `BookCreate` exactly when the lengths fit, the date parsed and a genre was sent, carrying the fields unchanged; otherwise the errors are the validator's |
| `BookSchema.FromRow` | app/schemas/book.py:19-28 | a row passes the response schema exactly when name and author are non-null and within their limits and the genre is within its limit; the response carries the row's id, fields and denied flag |
| `BookSchema.CreatedRowIsValidResponse` | app/schemas/book.py:14-25 | a row inserted from a valid `BookCreate` always serialises, with the new id and `is_denied` false |
| `BookService.JoinPath` | app/services/book_service.py:19 | the path ends with the file name; an absolute name is the path itself; otherwise the path is the directory, then one `/` unless the directory is empty or already ends with one, then the name |
| `BookService.UploadPathsDistinct` | app/services/book_service.py:19 | a relative file name is saved at `uploads/<name>`, and two uploads share a path exactly when their file names are equal |
| `BookService.GetBookById` | app/services/book_service.py:36-40 | `None` exactly when no row has the id; otherwise the first row carrying it |
| `BookService.GetBookByIdFindsRow` | app/services/book_service.py:40 | with unique ids the lookup returns exactly the row with that id |
| `BookService.GetBookByIdIgnoresDenial` | app/services/book_service.py:40 | tables that differ only in denied flags give the same lookup up to that flag |
| `Common.ContainsIgnoringCase` | app/services/book_service.py:49-56 | the `ILIKE '%filter%'` test: an empty filter matches every value, and a filter that occurs in the value as it is always matches |
| `Common.ContainsIgnoringCaseFolds` | app/services/book_service.py:49-56 | the match ignores case on both sides: lower-casing the value or the filter first gives the same answer |
| `BookService.Matches` | app/services/book_service.py:48-56 | with no filter taking part every row matches; an active name or author filter never matches a NULL column; a date filter matches only that date; a matching row contains an active genre filter case-insensitively |
| `BookService.GetBooks` | app/services/book_service.py:43-57 | a row is returned exactly when it is in the table and satisfies every active filter; each matching row appears as often as in the table and no other row appears, so no row is listed twice |
| `BookService.GetBooksUnfiltered` | app/services/book_service.py:48-57 | with every filter absent or empty the whole table is returned, in table order |
| `BookService.GetBooksSound` | app/services/book_service.py:49-56 | every returned row contains the name, author and genre filters case-insensitively and has exactly the filtered date |
| `BookService.GetBooksConjunction` | app/services/book_service.py:48-57 | filters on different parameters combine with AND: the combined result is the intersection of the single results and equals filtering one result by the other |
| `BookService.Listed` | app/services/book_service.py:73-75 | with both lists empty no row matches; a row whose name and author are both NULL never matches; a matching row has its name or its author on one of the lists |
| `BookService.DenyListed` | app/services/book_service.py:73-77 | every row whose name is in `names` or whose author is in `authors` ends denied; every other row is unchanged; no field other than `is_denied` changes |
| `BookService.CountListed` | app/services/book_service.py:77-81 | the count is at most the number of rows and is zero exactly when no row matches |
| `BookService.CountListedIsMatchedRows` | app/services/book_service.py:77-81 | the count equals the number of matched rows, already denied or not |
| `BookService.EmptyDenylistChangesNothing` | app/services/book_service.py:70-71 | with both lists empty the table is unchanged and the count is 0 |
| `BookService.DenyListedKeepsInvariant` | app/services/book_service.py:73-77 | marking keeps the primary key and the unique `file_path` constraint |
| `BookService.DenylistRepeatable` | app/services/book_service.py:73-81 | marking again with the same lists leaves the table as the first marking did and reports the same count |
| `BookService.Store.SaveBookFile` | app/services/book_service.py:15-22 | the path is the upload directory joined with the file name, the bytes read back at that path are the upload, and every other path is unchanged |
| `BookService.Store.CreateBook` | app/services/book_service.py:25-33 | an unused path appends exactly one row with the next id, the submitted fields, the path and `is_denied` false; a used path is rejected and the table is unchanged; the id counter advances either way |
| `BookService.MarkListed` | app/services/book_service.py:73-77 | scanning the rows marks exactly the table `DenyListed` describes and counts exactly `CountListed` of the rows |
| `BookService.Store.UpdateDenylist` | app/services/book_service.py:60-81 | the new table is `DenyListed` of the old one and the result is `CountListed` of the old one; the table constraints still hold |
| `BooksApi.FormDefault` | app/api/v1/books.py:18 | an empty `genre` form value becomes the `None` default; any other value is kept |
| `BooksApi.EmptyGenreRefused` | app/api/v1/books.py:18-36 | an empty genre is treated like no genre, and the schema refuses both |
| `BooksApi.CreateBook` | app/api/v1/books.py:13-37 | an empty name, author or date is refused with 422 and nothing changes, not even the files; otherwise the file is written first on every path; invalid form values give 500 with the table and the id counter unchanged; once the values are valid the id counter advances by one; a used path then gives 500 with no new row; otherwise one row is added, the response carries its fields, and downloading its id returns the uploaded bytes |
| `BooksApi.DownloadBook` | app/api/v1/books.py:54-64 | 404 when the id is unknown, otherwise 403 when denied, otherwise 500 when the name is NULL or the file is missing, otherwise the stored bytes named `name + ".txt"`; a download succeeds exactly when a non-denied row with a name and a present file exists |
| `BooksApi.DownloadRefusalIgnoresFiles` | app/api/v1/books.py:59-63 | the 404 and 403 answers are the same whatever the upload directory holds |
| `BooksApi.DownloadServesLatestUpload` | app/api/v1/books.py:64 | a non-denied row serves the bytes last written to its path, so a later upload under the same name replaces an existing book's content |
| `BooksApi.DenylistedDownloadForbidden` | app/api/v1/books.py:62-63 | after a denylist update that matches a row, downloading that row is forbidden |
| `BooksApi.DropMissing` | app/api/v1/books.py:99-100 | a string is kept exactly when it is a present cell of the column |
| `BooksApi.DropMissingAppend` | app/api/v1/books.py:99-100 | dropping missing cells keeps the order of the present cells |
| `BooksApi.ProcessingFailed` | app/api/v1/books.py:109-111 | every processing failure answers 500 with the fixed prefix followed by the exception's text |
| `BooksApi.ProcessingFailedKeepsMessage` | app/api/v1/books.py:109-111 | two failures give the same answer exactly when their exception texts are equal |
| `BooksApi.ReadDenylist` | app/api/v1/books.py:79-100 | a name not ending in `.xlsx` gives 400; every later failure gives 500 with the exception text; extraction succeeds exactly when there are at least two sheets each with a `name` column, taking book names from the first and author names from the second |
| `BooksApi.ExtraSheetsIgnored` | app/api/v1/books.py:87-94 | sheets after the second do not change the result |
| `BooksApi.UploadDenylist` | app/api/v1/books.py:67-111 | a refused workbook leaves the table unchanged and returns its error; otherwise the table is marked with the extracted lists and the reported count is the matched-row count |
| `WebViewer.ViewBook` | app/routers/web_viever.py:14-40 | 404 when the id is unknown, 500 with its own message when the file is missing, the generic 500 when the bytes do not decode, otherwise the page built from the row's name, author and file text; every case is decided by the looked-up row's name, author and path, never by its denied flag |
| `WebViewer.Page` | app/routers/web_viever.py:29-39 | the page opens and closes with the template's fixed text, and its length is that fixed text plus the name twice, the author once and the text once, so nothing is escaped or dropped |
| `WebViewer.PageLayout` | app/routers/web_viever.py:29-39 | the page holds the name in `<title>` and `<h1>`, the author in `<h2>` and the file text verbatim in `<pre>` |
| `WebViewer.ViewIgnoresDenylist` | app/routers/web_viever.py:17-27 | the viewer's answer is the same before and after any denylist marking |
| `WebViewer.DeniedBookViewable` | app/routers/web_viever.py:17-40 | a denied book whose file is present and readable is still shown |

## Left out

- Reading the XLSX file is a library call. `ReadDenylist` and `UploadDenylist` take its output as a parameter: the sheets in file order, each a map from column header to cells read as text, or the text of the exception the reader raised.
- Database sessions, commits, refreshes and transactions are replaced by direct changes to the `Store`. Database failures other than the unique `file_path` violation (connection loss, timeouts) are not modelled.
- `GetBooks`: the `ILIKE` match is modelled as substring search after ASCII lower-casing. Unicode case folding and the `%` and `_` wildcards and the `\` escape character inside a filter string are not modelled.
- `GetBooks`: the model returns rows in table order. The database gives no order without `ORDER BY`; the contracts that do not mention order hold for any order.
- `GetBooks`: the date filter is taken as already parsed. A non-empty string that is not a date, which the database would reject with an error, is not modelled.
- `BooksApi.CreateBook`: the form date arrives as `DateField`: empty, already parsed, or a non-empty string that does not parse. Calendar validity of a parsed date is not checked. The 422 answer's structured detail (which field, which error) is reduced to `Field required`.
- The upload directory is a map from path to bytes. Creating the directory at start-up, `os.path.join` with `..` or with separators inside a file name, failures to open a path for writing, and streaming the upload or the download are not modelled.
- `WebViewer.ViewBook`: reading the file as UTF-8 text with newline translation is a parameter, `decode`. A decoding failure is an uncaught exception and gives 500.
- `BookService.Store.CreateBook`: does not model the 32-bit limit of the `Integer` id column; ids are unbounded.
- `BookService.Store.SaveBookFile`: does not model two concurrent uploads under one file name. Concurrency is out of scope.
- HTML escaping is not modelled. The viewer interpolates name, author and text verbatim, and the model records exactly that.
- The detail text of unhandled exceptions is the framework's generic `Internal Server Error`. The model does not keep the exception's message.
- The list endpoint's serialisation of each row is `FromRow`. The endpoint itself only passes its parameters through.
- Routing, dependency injection, settings and the database URL are wiring. The migration only mirrors `app/db/models.py`.
