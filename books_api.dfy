/** The book endpoints: registering a book (file first, then the row),
    downloading it with its denial check, and uploading a denylist workbook. */
module BooksApi {
  import opened Common
  import opened Models
  import BookSchema
  import opened BookService

  // ---------------------------------------------------------------------
  // Create book

  /** The create form's `date_published` as it arrives: empty, a string that
      parses as a date, or a non-empty string that does not. */
  datatype DateField = EmptyDate | ParsedDate(date: Date) | UnparsableDate

  /** The framework's answer when a required form field is absent. */
  const FieldRequired := HttpError(422, "Field required")

  /** The form parser treats an empty form value as not sent, so an empty
      `genre` falls back to the `None` default. */
  function FormDefault(genre: Option<string>): (r: Option<string>)
    ensures r.Some? <==> genre.Some? && genre.value != ""
    ensures r.Some? ==> r == genre
  {
    if genre == Some("") then None else genre
  }

  /** A required form field (`name`, `author`, `date_published`) sent empty
      counts as absent, and the request is refused before the handler runs. */
  predicate FormIncomplete(name: string, author: string, datePublished: DateField)
  {
    name == "" || author == "" || datePublished == EmptyDate
  }

  /** The `BookCreate` the handler builds from form values that reached it. */
  function SubmittedBook(name: string, author: string, datePublished: DateField, genre: Option<string>): Result<BookSchema.BookCreate, seq<BookSchema.FieldError>>
  {
    BookSchema.MakeBookCreate(name, author,
      if datePublished.ParsedDate? then Some(datePublished.date) else None, FormDefault(genre))
  }

  /** An empty genre is the same as no genre, and both are refused by the
      schema, which requires one. */
  lemma EmptyGenreRefused(name: string, author: string, datePublished: DateField)
    ensures SubmittedBook(name, author, datePublished, Some("")) == SubmittedBook(name, author, datePublished, None)
    ensures SubmittedBook(name, author, datePublished, Some("")).Err?
  {
  }

  /** A request with an empty required field is refused with 422 and nothing
      is written. Otherwise the handler saves the uploaded file, then
      validates the form fields, then inserts the row. A validation failure
      and a duplicate path are both exceptions the handler does not catch, so
      both answer 500, and in both cases the file has already been written. */
  method CreateBook(
    store: Store, name: string, author: string, datePublished: DateField, genre: Option<string>,
    filename: string, content: seq<byte>)
    returns (r: Result<BookSchema.Book, HttpError>)
    requires store.Valid()
    modifies store
    ensures store.Valid()
    ensures FormIncomplete(name, author, datePublished) ==>
      && r == Err(FieldRequired)
      && store.books == old(store.books) && store.nextId == old(store.nextId) && store.files == old(store.files)
    ensures !FormIncomplete(name, author, datePublished) ==>
      store.files == old(store.files)[JoinPath(UploadDirectory, filename) := content]
    ensures (!FormIncomplete(name, author, datePublished) &&
             SubmittedBook(name, author, datePublished, genre).Err?) ==>
      && r == Err(InternalServerError)
      && store.books == old(store.books) && store.nextId == old(store.nextId)
    ensures (!FormIncomplete(name, author, datePublished) &&
             SubmittedBook(name, author, datePublished, genre).Ok?) ==>
      store.nextId == old(store.nextId) + 1
    ensures (!FormIncomplete(name, author, datePublished) &&
             SubmittedBook(name, author, datePublished, genre).Ok? &&
             PathTaken(old(store.books), JoinPath(UploadDirectory, filename))) ==>
      r == Err(InternalServerError) && store.books == old(store.books)
    ensures (!FormIncomplete(name, author, datePublished) &&
             SubmittedBook(name, author, datePublished, genre).Ok? &&
             !PathTaken(old(store.books), JoinPath(UploadDirectory, filename))) ==>
      && store.books == old(store.books) +
        [NewRow(old(store.nextId), name, author, datePublished.date, genre.value, JoinPath(UploadDirectory, filename))]
      && r == Ok(BookSchema.Book(old(store.nextId), name, author, datePublished.date, genre.value, false))
      && DownloadBook(store.books, store.files, old(store.nextId)) == Ok(FileDownload(content, name + ".txt"))
  {
    if FormIncomplete(name, author, datePublished) {
      return Err(FieldRequired);
    }
    var path := store.SaveBookFile(filename, content);
    var data := SubmittedBook(name, author, datePublished, genre);
    if data.Err? {
      return Err(InternalServerError);
    }
    var inserted := store.CreateBook(data.value, path);
    if inserted.Err? {
      return Err(InternalServerError);
    }
    var row := inserted.value;
    BookSchema.CreatedRowIsValidResponse(data.value, row.id, path);
    var response := BookSchema.FromRow(row);
    assert response.Ok?;
    DownloadServesLatestUpload(store.books, old(store.files), |store.books| - 1, content);
    r := Ok(response.value);
  }

  // ---------------------------------------------------------------------
  // Download book

  datatype FileDownload = FileDownload(content: seq<byte>, filename: string)

  const DeniedForDownload := HttpError(403, "This book is denied for download")

  /** 404 for an unknown id, then 403 for a denied row, then the file's bytes
      under the name `name + ".txt"`. A NULL name cannot be concatenated and a
      missing file cannot be streamed; both end in 500. */
  function DownloadBook(books: seq<Book>, files: map<string, seq<byte>>, bookId: int): (r: Result<FileDownload, HttpError>)
    ensures GetBookById(books, bookId).None? ==> r == Err(BookNotFound)
    ensures GetBookById(books, bookId).Some? && GetBookById(books, bookId).value.isDenied ==> r == Err(DeniedForDownload)
    ensures r.Ok? <==>
      && GetBookById(books, bookId).Some?
      && var b := GetBookById(books, bookId).value;
      && !b.isDenied && b.name.Some? && b.filePath in files
    ensures r.Ok? ==>
      var b := GetBookById(books, bookId).value;
      r.value == FileDownload(files[b.filePath], b.name.value + ".txt")
    ensures (GetBookById(books, bookId).Some? && !GetBookById(books, bookId).value.isDenied && r.Err?) ==>
      r == Err(InternalServerError)
    ensures r.Err? ==> r.error in {BookNotFound, DeniedForDownload, InternalServerError}
  {
    match GetBookById(books, bookId)
    case None => Err(BookNotFound)
    case Some(b) =>
      if b.isDenied then Err(DeniedForDownload)
      else if b.name.None? then Err(InternalServerError)
      else if b.filePath !in files then Err(InternalServerError)
      else Ok(FileDownload(files[b.filePath], b.name.value + ".txt"))
  }

  /** The 404 and 403 answers are decided before any file is touched: they
      are the same whatever the upload directory holds. */
  lemma DownloadRefusalIgnoresFiles(books: seq<Book>, files: map<string, seq<byte>>, others: map<string, seq<byte>>, bookId: int)
    requires DownloadBook(books, files, bookId) in {Err(BookNotFound), Err(DeniedForDownload)}
    ensures DownloadBook(books, others, bookId) == DownloadBook(books, files, bookId)
  {
  }

  /** Downloading a row that is not denied serves whatever was last written
      to its path: right after the upload this is the uploaded content, and
      after a later upload under the same file name it is that upload's. */
  lemma DownloadServesLatestUpload(books: seq<Book>, files: map<string, seq<byte>>, i: int, content: seq<byte>)
    requires UniqueIds(books) && 0 <= i < |books|
    requires !books[i].isDenied && books[i].name.Some?
    ensures DownloadBook(books, files[books[i].filePath := content], books[i].id)
      == Ok(FileDownload(content, books[i].name.value + ".txt"))
  {
    GetBookByIdFindsRow(books, i);
  }

  /** After a denylist update that matches a row, downloading it is
      forbidden, whether or not its file exists. */
  lemma DenylistedDownloadForbidden(books: seq<Book>, names: seq<string>, authors: seq<string>, files: map<string, seq<byte>>, i: int)
    requires UniqueIds(books) && 0 <= i < |books|
    requires Listed(books[i], names, authors)
    ensures DownloadBook(DenyListed(books, names, authors), files, books[i].id) == Err(DeniedForDownload)
  {
    var denied := DenyListed(books, names, authors);
    forall k | 0 <= k < |books| ensures denied[k].id == books[k].id {
      assert denied[k].(isDenied := books[k].isDenied) == books[k];
    }
    GetBookByIdFindsRow(denied, i);
  }

  // ---------------------------------------------------------------------
  // Upload denylist

  /** The cells of one column, top to bottom; `None` is a missing cell. */
  type Column = seq<Option<string>>

  /** One sheet of the workbook as the reader returns it: column headers to
      columns, every cell read as text. */
  type Sheet = map<string, Column>

  datatype Denylist = Denylist(names: seq<string>, authors: seq<string>)

  datatype DenylistReport = DenylistReport(message: string, booksDeniedCount: nat)

  const NameColumn := "name"

  const NotAnXlsxFile := HttpError(400, "incorrect file type. Please upload an XLSX file.")

  const TooFewSheets := "file must contain at least two sheets: one for book names and one for author names."

  const NoNameColumn := "each file must contain a 'name' column in both sheets."

  /** Every exception raised while the workbook is processed is answered 500
      with the exception's text. */
  function ProcessingFailed(message: string): (e: HttpError)
    ensures e.status == 500
    ensures |ProcessingPrefix| <= |e.detail| && e.detail[..|ProcessingPrefix|] == ProcessingPrefix
    ensures e.detail[|ProcessingPrefix|..] == message
  {
    HttpError(500, ProcessingPrefix + message)
  }

  const ProcessingPrefix := "Error occurred while processing the file: "

  /** The exception's text is kept whole: different failures give different
      answers. */
  lemma ProcessingFailedKeepsMessage(m1: string, m2: string)
    ensures ProcessingFailed(m1) == ProcessingFailed(m2) <==> m1 == m2
  {
    if ProcessingFailed(m1) == ProcessingFailed(m2) {
      assert m1 == ProcessingFailed(m1).detail[|ProcessingPrefix|..];
    }
  }

  /** The present cells of a column, in order. */
  function DropMissing(cells: Column): (r: seq<string>)
    ensures |r| <= |cells|
    ensures forall s :: s in r <==> Some(s) in cells
  {
    if cells == [] then []
    else
      assert cells == [cells[0]] + cells[1..];
      Present(cells[0]) + DropMissing(cells[1..])
  }

  function Present(cell: Option<string>): seq<string>
  {
    match cell
    case None => []
    case Some(s) => [s]
  }

  /** Dropping missing cells keeps the order of the present ones. */
  lemma {:induction false} DropMissingAppend(upper: Column, lower: Column)
    ensures DropMissing(upper + lower) == DropMissing(upper) + DropMissing(lower)
  {
    if upper != [] {
      DropMissingAppend(upper[1..], lower);
      assert (upper + lower)[0] == upper[0];
      assert (upper + lower)[1..] == upper[1..] + lower;
    } else {
      assert upper + lower == lower;
    }
  }

  /** Checks the extension, then, on the reader's result, that there are two
      sheets with a `name` column each, and takes the book names from the
      first sheet and the author names from the second. `workbook` is the
      reader's output, or the text of the exception it raised. */
  function ReadDenylist(filename: string, workbook: Result<seq<Sheet>, string>): (r: Result<Denylist, HttpError>)
    ensures !EndsWith(filename, ".xlsx") ==> r == Err(NotAnXlsxFile)
    ensures EndsWith(filename, ".xlsx") && r.Err? ==> r.error.status == 500
    ensures EndsWith(filename, ".xlsx") && workbook.Err? ==> r == Err(ProcessingFailed(workbook.error))
    ensures EndsWith(filename, ".xlsx") && workbook.Ok? && |workbook.value| < 2 ==>
      r == Err(ProcessingFailed(TooFewSheets))
    ensures (EndsWith(filename, ".xlsx") && workbook.Ok? && |workbook.value| >= 2 &&
             (NameColumn !in workbook.value[0] || NameColumn !in workbook.value[1])) ==>
      r == Err(ProcessingFailed(NoNameColumn))
    ensures r.Ok? <==>
      && EndsWith(filename, ".xlsx") && workbook.Ok? && |workbook.value| >= 2
      && NameColumn in workbook.value[0] && NameColumn in workbook.value[1]
    ensures r.Ok? ==>
      && (forall s :: s in r.value.names <==> Some(s) in workbook.value[0][NameColumn])
      && (forall s :: s in r.value.authors <==> Some(s) in workbook.value[1][NameColumn])
  {
    if !EndsWith(filename, ".xlsx") then Err(NotAnXlsxFile)
    else match workbook
      case Err(message) => Err(ProcessingFailed(message))
      case Ok(sheets) =>
        if |sheets| < 2 then Err(ProcessingFailed(TooFewSheets))
        else if NameColumn !in sheets[0] || NameColumn !in sheets[1] then Err(ProcessingFailed(NoNameColumn))
        else Ok(Denylist(DropMissing(sheets[0][NameColumn]), DropMissing(sheets[1][NameColumn])))
  }

  /** Only the first two sheets, by position, are read. */
  lemma ExtraSheetsIgnored(filename: string, sheets: seq<Sheet>, more: seq<Sheet>)
    requires |sheets| >= 2
    ensures ReadDenylist(filename, Ok(sheets + more)) == ReadDenylist(filename, Ok(sheets))
  {
    assert (sheets + more)[0] == sheets[0] && (sheets + more)[1] == sheets[1];
  }

  /** Marks every row the workbook's lists match and reports the count. A
      refused workbook leaves the table as it was. */
  method UploadDenylist(store: Store, filename: string, workbook: Result<seq<Sheet>, string>)
    returns (r: Result<DenylistReport, HttpError>)
    requires store.Valid()
    modifies store`books
    ensures store.Valid()
    ensures ReadDenylist(filename, workbook).Err? ==>
      r == Err(ReadDenylist(filename, workbook).error) && store.books == old(store.books)
    ensures ReadDenylist(filename, workbook).Ok? ==>
      var lists := ReadDenylist(filename, workbook).value;
      && store.books == DenyListed(old(store.books), lists.names, lists.authors)
      && r == Ok(DenylistReport("Black list was updated.", CountListed(old(store.books), lists.names, lists.authors)))
  {
    var lists := ReadDenylist(filename, workbook);
    if lists.Err? {
      return Err(lists.error);
    }
    var count := store.UpdateDenylist(lists.value.names, lists.value.authors);
    r := Ok(DenylistReport("Black list was updated.", count));
  }
}
