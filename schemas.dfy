/** The request and response schemas of a book: `BookCreate` for what a
    client submits, `Book` for what the API returns. Field constraints
    become a validator that reports every failing field, in field order. */
module BookSchema {
  import opened Common
  import Models

  const NameMaxLength := 255
  const AuthorMaxLength := 255
  const GenreMaxLength := 100

  /** What a client submits; there is no id and no denied flag. */
  datatype BookCreate = BookCreate(name: string, author: string, datePublished: Date, genre: string)

  /** What the API returns: the submitted fields plus `id` and `is_denied`. */
  datatype Book = Book(id: int, name: string, author: string, datePublished: Date, genre: string, isDenied: bool)

  datatype FieldError =
    | NameMissing | NameTooLong
    | AuthorMissing | AuthorTooLong
    | DateInvalid
    | GenreMissing | GenreTooLong

  function NameErrors(name: Option<string>): seq<FieldError>
  {
    match name
    case None => [NameMissing]
    case Some(s) => if |s| <= NameMaxLength then [] else [NameTooLong]
  }

  function AuthorErrors(author: Option<string>): seq<FieldError>
  {
    match author
    case None => [AuthorMissing]
    case Some(s) => if |s| <= AuthorMaxLength then [] else [AuthorTooLong]
  }

  function DateErrors(date: Option<Date>): seq<FieldError>
  {
    if date.Some? then [] else [DateInvalid]
  }

  function GenreErrors(genre: Option<string>): seq<FieldError>
  {
    match genre
    case None => [GenreMissing]
    case Some(s) => if |s| <= GenreMaxLength then [] else [GenreTooLong]
  }

  /** Validation of the `BookBase` fields. A `None` date stands for a string
      that does not parse as a date; a `None` genre is the create form's
      default when no genre is sent, which the required `genre` field refuses. */
  function ValidateBase(name: Option<string>, author: Option<string>, date: Option<Date>, genre: Option<string>): (errors: seq<FieldError>)
    ensures errors == [] <==>
      && name.Some? && |name.value| <= NameMaxLength
      && author.Some? && |author.value| <= AuthorMaxLength
      && date.Some?
      && genre.Some? && |genre.value| <= GenreMaxLength
    ensures NameMissing in errors <==> name.None?
    ensures NameTooLong in errors <==> name.Some? && |name.value| > NameMaxLength
    ensures AuthorMissing in errors <==> author.None?
    ensures AuthorTooLong in errors <==> author.Some? && |author.value| > AuthorMaxLength
    ensures DateInvalid in errors <==> date.None?
    ensures GenreMissing in errors <==> genre.None?
    ensures GenreTooLong in errors <==> genre.Some? && |genre.value| > GenreMaxLength
  {
    NameErrors(name) + AuthorErrors(author) + DateErrors(date) + GenreErrors(genre)
  }

  /** Constructing a `BookCreate` from the create form's values. */
  function MakeBookCreate(name: string, author: string, date: Option<Date>, genre: Option<string>): (r: Result<BookCreate, seq<FieldError>>)
    ensures r.Ok? <==>
      |name| <= NameMaxLength && |author| <= AuthorMaxLength && date.Some? && genre.Some? && |genre.value| <= GenreMaxLength
    ensures r.Ok? ==> r.value == BookCreate(name, author, date.value, genre.value)
    ensures r.Err? ==> r.error == ValidateBase(Some(name), Some(author), date, genre)
  {
    var errors := ValidateBase(Some(name), Some(author), date, genre);
    if errors == [] then Ok(BookCreate(name, author, date.value, genre.value)) else Err(errors)
  }

  /** Validating a table row against the response schema `Book`, as the
      response model does before a row is sent back. */
  function FromRow(row: Models.Book): (r: Result<Book, seq<FieldError>>)
    ensures r.Ok? <==>
      && row.name.Some? && |row.name.value| <= NameMaxLength
      && row.author.Some? && |row.author.value| <= AuthorMaxLength
      && |row.genre| <= GenreMaxLength
    ensures r.Ok? ==>
      && r.value.id == row.id && r.value.isDenied == row.isDenied
      && Some(r.value.name) == row.name && Some(r.value.author) == row.author
      && r.value.datePublished == row.datePublished && r.value.genre == row.genre
  {
    var errors := ValidateBase(row.name, row.author, Some(row.datePublished), Some(row.genre));
    if errors == [] then
      Ok(Book(row.id, row.name.value, row.author.value, row.datePublished, row.genre, row.isDenied))
    else
      Err(errors)
  }

  /** A row inserted from a validated `BookCreate` always passes the response
      schema, returning the submitted fields with the new id and `is_denied`
      false. */
  lemma CreatedRowIsValidResponse(data: BookCreate, id: int, filePath: string)
    requires MakeBookCreate(data.name, data.author, Some(data.datePublished), Some(data.genre)).Ok?
    ensures FromRow(Models.NewRow(id, data.name, data.author, data.datePublished, data.genre, filePath))
      == Ok(Book(id, data.name, data.author, data.datePublished, data.genre, false))
  {
  }
}
