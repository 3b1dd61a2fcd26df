/** The catalog service: lookup and filtered search over the `books` table,
    bulk denylist marking, and the store that holds the table and the upload
    directory. */
module BookService {
  import opened Common
  import opened Models
  import BookSchema

  // ---------------------------------------------------------------------
  // File repository: paths under the upload directory

  const UploadDirectory := "uploads"

  /** `os.path.join(dir, name)` for two components with `/` as separator:
      an absolute `name` replaces `dir`. */
  function JoinPath(dir: string, name: string): (path: string)
    ensures EndsWith(path, name)
    ensures |name| > 0 && name[0] == '/' ==> path == name
    ensures !(|name| > 0 && name[0] == '/') ==>
      && |dir| + |name| <= |path| && path[..|dir|] == dir
      && path[|dir|..|path| - |name|] == (if dir == [] || dir[|dir| - 1] == '/' then "" else "/")
  {
    if |name| > 0 && name[0] == '/' then name
    else if dir == [] || dir[|dir| - 1] == '/' then dir + name
    else dir + "/" + name
  }

  /** A relative file name is stored directly under the upload directory,
      and different relative names never share a path, so two uploads
      collide exactly when their file names are equal. */
  lemma {:induction false} UploadPathsDistinct(f1: string, f2: string)
    requires f1 == [] || f1[0] != '/'
    requires f2 == [] || f2[0] != '/'
    ensures JoinPath(UploadDirectory, f1) == UploadDirectory + "/" + f1
    ensures JoinPath(UploadDirectory, f1) == JoinPath(UploadDirectory, f2) <==> f1 == f2
  {
    var p1, p2 := JoinPath(UploadDirectory, f1), JoinPath(UploadDirectory, f2);
    if p1 == p2 {
      var n := |UploadDirectory + "/"|;
      assert f1 == p1[n..];
      assert f2 == p2[n..];
    }
  }

  // ---------------------------------------------------------------------
  // Lookup by id

  /** The first row with the given id, as `filter(id == book_id).first()`. */
  function GetBookById(books: seq<Book>, bookId: int): (r: Option<Book>)
    ensures r.None? <==> forall i | 0 <= i < |books| :: books[i].id != bookId
    ensures r.Some? ==> exists i | 0 <= i < |books| ::
      && books[i] == r.value && r.value.id == bookId
      && forall j | 0 <= j < i :: books[j].id != bookId
  {
    if books == [] then None
    else if books[0].id == bookId then Some(books[0])
    else
      var r := GetBookById(books[1..], bookId);
      assert r.Some? ==> exists i | 0 <= i < |books[1..]| ::
        && books[1..][i] == r.value && r.value.id == bookId
        && forall j | 0 <= j < i :: books[1..][j].id != bookId;
      assert r.Some? ==> exists i | 1 <= i < |books| ::
        && books[i] == r.value && r.value.id == bookId
        && forall j | 0 <= j < i :: books[j].id != bookId;
      r
  }

  /** With ids unique (the primary key), the lookup finds exactly the row
      carrying that id. */
  lemma GetBookByIdFindsRow(books: seq<Book>, i: int)
    requires UniqueIds(books) && 0 <= i < |books|
    ensures GetBookById(books, books[i].id) == Some(books[i])
  {
  }

  /** Two tables that agree on every row except, perhaps, its denied flag
      give the same lookup up to that flag. */
  lemma GetBookByIdIgnoresDenial(books: seq<Book>, others: seq<Book>, bookId: int)
    requires |books| == |others|
    requires forall i | 0 <= i < |books| :: others[i].(isDenied := books[i].isDenied) == books[i]
    ensures GetBookById(others, bookId).None? <==> GetBookById(books, bookId).None?
    ensures GetBookById(books, bookId).Some? ==>
      GetBookById(others, bookId).value.(isDenied := GetBookById(books, bookId).value.isDenied)
        == GetBookById(books, bookId).value
  {
    if GetBookById(books, bookId).Some? {
      var i :| 0 <= i < |books| && books[i] == GetBookById(books, bookId).value
        && forall j | 0 <= j < i :: books[j].id != bookId;
      var k :| 0 <= k < |others| && others[k] == GetBookById(others, bookId).value
        && others[k].id == bookId && forall j | 0 <= j < k :: others[j].id != bookId;
      assert others[i].id == books[i].id;
      assert books[k].id == others[k].id;
      assert i == k;
    }
  }

  // ---------------------------------------------------------------------
  // Filtered search

  /** The optional query parameters of the list endpoint. A `None` date also
      stands for an empty date string, which is ignored like `None`. */
  datatype Filters = Filters(name: Option<string>, author: Option<string>, datePublished: Option<Date>, genre: Option<string>)

  /** A text filter takes part only when it is truthy: present and non-empty. */
  predicate Active(filter: Option<string>)
  {
    filter.Some? && filter.value != ""
  }

  /** `column ILIKE '%filter%'`; a NULL column never matches an active filter. */
  predicate TextMatches(filter: Option<string>, column: Option<string>)
  {
    !Active(filter) || (column.Some? && ContainsIgnoringCase(column.value, filter.value))
  }

  predicate DateMatches(filter: Option<Date>, column: Date)
  {
    filter.None? || column == filter.value
  }

  /** The conjunction of every filter that takes part. */
  predicate Matches(b: Book, f: Filters): (r: bool)
    ensures !Active(f.name) && !Active(f.author) && f.datePublished.None? && !Active(f.genre) ==> r
    ensures Active(f.name) && b.name.None? ==> !r
    ensures Active(f.author) && b.author.None? ==> !r
    ensures f.datePublished.Some? && b.datePublished != f.datePublished.value ==> !r
    ensures r && Active(f.genre) ==> ContainsIgnoringCase(b.genre, f.genre.value)
  {
    && TextMatches(f.name, b.name)
    && TextMatches(f.author, b.author)
    && DateMatches(f.datePublished, b.datePublished)
    && TextMatches(f.genre, Some(b.genre))
  }

  predicate Unfiltered(f: Filters)
  {
    !Active(f.name) && !Active(f.author) && f.datePublished.None? && !Active(f.genre)
  }

  /** The rows that satisfy every active filter, in table order. */
  function GetBooks(books: seq<Book>, f: Filters): (r: seq<Book>)
    ensures |r| <= |books|
    ensures forall b :: b in r <==> b in books && Matches(b, f)
    ensures forall b :: multiset(r)[b] == if Matches(b, f) then multiset(books)[b] else 0
  {
    assert books != [] ==> books == [books[0]] + books[1..];
    if books == [] then []
    else if Matches(books[0], f) then [books[0]] + GetBooks(books[1..], f)
    else GetBooks(books[1..], f)
  }

  /** With no filter taking part, every row is listed, in table order. */
  lemma {:induction false} GetBooksUnfiltered(books: seq<Book>, f: Filters)
    requires Unfiltered(f)
    ensures GetBooks(books, f) == books
  {
    if books != [] {
      GetBooksUnfiltered(books[1..], f);
      assert books == [books[0]] + books[1..];
    }
  }

  /** A row survives a text filter only if its column contains the filter
      text, ignoring case; a date filter keeps only rows with that date. */
  lemma GetBooksSound(books: seq<Book>, f: Filters, b: Book)
    requires b in GetBooks(books, f)
    ensures Active(f.name) ==> b.name.Some? && ContainsIgnoringCase(b.name.value, f.name.value)
    ensures Active(f.author) ==> b.author.Some? && ContainsIgnoringCase(b.author.value, f.author.value)
    ensures f.datePublished.Some? ==> b.datePublished == f.datePublished.value
    ensures Active(f.genre) ==> ContainsIgnoringCase(b.genre, f.genre.value)
  {
  }

  /** Two filter sets that never constrain the same parameter. */
  predicate Disjoint(f1: Filters, f2: Filters)
  {
    && !(Active(f1.name) && Active(f2.name))
    && !(Active(f1.author) && Active(f2.author))
    && !(f1.datePublished.Some? && f2.datePublished.Some?)
    && !(Active(f1.genre) && Active(f2.genre))
  }

  function PickText(a: Option<string>, b: Option<string>): Option<string>
  {
    if Active(a) then a else b
  }

  /** The query that sends the parameters of both filter sets. */
  function Combine(f1: Filters, f2: Filters): Filters
  {
    Filters(
      PickText(f1.name, f2.name),
      PickText(f1.author, f2.author),
      if f1.datePublished.Some? then f1.datePublished else f2.datePublished,
      PickText(f1.genre, f2.genre))
  }

  /** Filters combine with AND: the combined query returns the rows both
      single queries return, and equals filtering one result by the other. */
  lemma {:induction false} GetBooksConjunction(books: seq<Book>, f1: Filters, f2: Filters)
    requires Disjoint(f1, f2)
    ensures forall b :: b in GetBooks(books, Combine(f1, f2)) <==> b in GetBooks(books, f1) && b in GetBooks(books, f2)
    ensures GetBooks(books, Combine(f1, f2)) == GetBooks(GetBooks(books, f1), f2)
  {
    if books != [] {
      GetBooksConjunction(books[1..], f1, f2);
      var b := books[0];
      assert Matches(b, Combine(f1, f2)) <==> Matches(b, f1) && Matches(b, f2);
      if Matches(b, f1) {
        assert GetBooks(books, f1) == [b] + GetBooks(books[1..], f1);
        assert GetBooks(books, f1)[1..] == GetBooks(books[1..], f1);
      }
    }
    forall b ensures b in GetBooks(books, Combine(f1, f2)) <==> b in GetBooks(books, f1) && b in GetBooks(books, f2) {
      assert Matches(b, Combine(f1, f2)) <==> Matches(b, f1) && Matches(b, f2);
    }
  }

  // ---------------------------------------------------------------------
  // Denylist

  /** The WHERE clause `name IN names OR author IN authors`; a NULL column
      is never in a list. */
  predicate Listed(b: Book, names: seq<string>, authors: seq<string>): (r: bool)
    ensures names == [] && authors == [] ==> !r
    ensures b.name.None? && b.author.None? ==> !r
    ensures r ==> exists n | n in names + authors :: Some(n) in [b.name, b.author]
  {
    (b.name.Some? && b.name.value in names) || (b.author.Some? && b.author.value in authors)
  }

  function MarkIfListed(b: Book, names: seq<string>, authors: seq<string>): Book
  {
    if Listed(b, names, authors) then b.(isDenied := true) else b
  }

  /** The table after `UPDATE books SET is_denied = true WHERE …`. */
  function DenyListed(books: seq<Book>, names: seq<string>, authors: seq<string>): (r: seq<Book>)
    ensures |r| == |books|
    ensures forall i | 0 <= i < |books| :: Listed(books[i], names, authors) ==> r[i].isDenied
    ensures forall i | 0 <= i < |books| :: !Listed(books[i], names, authors) ==> r[i] == books[i]
    ensures forall i | 0 <= i < |books| :: r[i].(isDenied := books[i].isDenied) == books[i]
  {
    if books == [] then []
    else DenyListed(books[..|books| - 1], names, authors) + [MarkIfListed(books[|books| - 1], names, authors)]
  }

  /** The number of rows the UPDATE matches, denied already or not. */
  function CountListed(books: seq<Book>, names: seq<string>, authors: seq<string>): (n: nat)
    ensures n <= |books|
    ensures n == 0 <==> forall i | 0 <= i < |books| :: !Listed(books[i], names, authors)
  {
    if books == [] then 0
    else
      var prefix := books[..|books| - 1];
      assert forall i | 0 <= i < |prefix| :: prefix[i] == books[i];
      CountListed(prefix, names, authors) + if Listed(books[|books| - 1], names, authors) then 1 else 0
  }

  ghost function ListedRows(books: seq<Book>, names: seq<string>, authors: seq<string>): set<int>
  {
    set i | 0 <= i < |books| && Listed(books[i], names, authors)
  }

  /** The count is the number of matched rows: those whose name or author is
      on the lists, wherever they stand in the table. */
  lemma {:induction false} CountListedIsMatchedRows(books: seq<Book>, names: seq<string>, authors: seq<string>)
    ensures CountListed(books, names, authors) == |ListedRows(books, names, authors)|
  {
    if books == [] {
      assert ListedRows(books, names, authors) == {};
    } else {
      var n := |books| - 1;
      var prefix := books[..n];
      CountListedIsMatchedRows(prefix, names, authors);
      var last := if Listed(books[n], names, authors) then {n} else {};
      assert ListedRows(books, names, authors) == ListedRows(prefix, names, authors) + last;
      assert n !in ListedRows(prefix, names, authors);
    }
  }

  /** Empty lists match nothing: the table is left as it is and the count is 0. */
  lemma EmptyDenylistChangesNothing(books: seq<Book>)
    ensures DenyListed(books, [], []) == books
    ensures CountListed(books, [], []) == 0
  {
  }

  /** Marking leaves every table constraint in force. */
  lemma DenyListedKeepsInvariant(books: seq<Book>, nextId: int, names: seq<string>, authors: seq<string>)
    requires TableInvariant(books, nextId)
    ensures TableInvariant(DenyListed(books, names, authors), nextId)
  {
    var r := DenyListed(books, names, authors);
    forall i | 0 <= i < |books| ensures r[i].id == books[i].id && r[i].filePath == books[i].filePath {
      assert r[i].(isDenied := books[i].isDenied) == books[i];
    }
  }

  /** Marking again with the same lists changes nothing more, and the count
      it reports is the same: every matched row is counted, not only the
      rows whose flag flips. */
  lemma {:induction false} DenylistRepeatable(books: seq<Book>, names: seq<string>, authors: seq<string>)
    ensures DenyListed(DenyListed(books, names, authors), names, authors) == DenyListed(books, names, authors)
    ensures CountListed(DenyListed(books, names, authors), names, authors) == CountListed(books, names, authors)
  {
    var once := DenyListed(books, names, authors);
    if books != [] {
      var n := |books| - 1;
      DenylistRepeatable(books[..n], names, authors);
      assert once[..n] == DenyListed(books[..n], names, authors);
      assert Listed(once[n], names, authors) <==> Listed(books[n], names, authors);
    }
  }

  // ---------------------------------------------------------------------
  // The store

  datatype DbError = UniqueViolation(column: string)

  /** The database table together with the upload directory. `nextId` is the
      serial sequence behind `id`; `files` maps each written path to its bytes. */
  class Store {
    var books: seq<Book>
    var nextId: int
    var files: map<string, seq<byte>>

    ghost predicate Valid()
      reads this
    {
      TableInvariant(books, nextId) && 1 <= nextId
    }

    constructor()
      ensures Valid()
      ensures books == [] && nextId == 1 && files == map[]
    {
      books := [];
      nextId := 1;
      files := map[];
    }

    /** Writes the upload under the upload directory, replacing whatever
        that path held before. */
    method SaveBookFile(filename: string, content: seq<byte>) returns (path: string)
      modifies this`files
      ensures path == JoinPath(UploadDirectory, filename)
      ensures files == old(files)[path := content]
      ensures path in files && files[path] == content
    {
      path := JoinPath(UploadDirectory, filename);
      files := files[path := content];
    }

    /** Inserts a row for the submitted fields. The serial id is drawn before
        the unique check, so a rejected insert still uses up that id. */
    method CreateBook(data: BookSchema.BookCreate, filePath: string) returns (r: Result<Book, DbError>)
      requires Valid()
      modifies this`books, this`nextId
      ensures Valid()
      ensures nextId == old(nextId) + 1
      ensures PathTaken(old(books), filePath) ==> r == Err(UniqueViolation("file_path")) && books == old(books)
      ensures !PathTaken(old(books), filePath) ==>
        && r == Ok(NewRow(old(nextId), data.name, data.author, data.datePublished, data.genre, filePath))
        && books == old(books) + [r.value]
    {
      var id := nextId;
      nextId := nextId + 1;
      if PathTaken(books, filePath) {
        r := Err(UniqueViolation("file_path"));
      } else {
        var row := NewRow(id, data.name, data.author, data.datePublished, data.genre, filePath);
        InsertKeepsInvariant(books, id, row);
        books := books + [row];
        r := Ok(row);
      }
    }

    /** Sets `is_denied` on every row whose name is in `names` or whose author
        is in `authors`, and returns how many rows were matched. */
    method UpdateDenylist(names: seq<string>, authors: seq<string>) returns (count: nat)
      requires Valid()
      modifies this`books
      ensures Valid()
      ensures books == DenyListed(old(books), names, authors)
      ensures count == CountListed(old(books), names, authors)
    {
      if names == [] && authors == [] {
        EmptyDenylistChangesNothing(books);
        return 0;
      }
      var marked;
      marked, count := MarkListed(books, names, authors);
      DenyListedKeepsInvariant(books, nextId, names, authors);
      books := marked;
    }
  }

  /** The row scan of the UPDATE: marks each matched row and counts it. */
  method MarkListed(rows: seq<Book>, names: seq<string>, authors: seq<string>) returns (marked: seq<Book>, count: nat)
    ensures marked == DenyListed(rows, names, authors)
    ensures count == CountListed(rows, names, authors)
  {
    marked := rows;
    count := 0;
    var i := 0;
    while i < |marked|
      invariant 0 <= i <= |marked| == |rows|
      invariant forall k | 0 <= k < i :: marked[k] == MarkIfListed(rows[k], names, authors)
      invariant forall k | i <= k < |marked| :: marked[k] == rows[k]
      invariant count == CountListed(rows[..i], names, authors)
    {
      CountListedStep(rows, i, names, authors);
      if Listed(marked[i], names, authors) {
        count := count + 1;
      }
      marked := marked[i := MarkIfListed(marked[i], names, authors)];
      i := i + 1;
    }
    assert rows[..i] == rows;
    DenyListedMatchesRows(rows, marked, names, authors);
  }

  lemma CountListedStep(books: seq<Book>, i: int, names: seq<string>, authors: seq<string>)
    requires 0 <= i < |books|
    ensures CountListed(books[..i + 1], names, authors)
      == CountListed(books[..i], names, authors) + if Listed(books[i], names, authors) then 1 else 0
  {
    assert books[..i + 1][..i] == books[..i];
  }

  lemma DenyListedMatchesRows(books: seq<Book>, rows: seq<Book>, names: seq<string>, authors: seq<string>)
    requires |rows| == |books|
    requires forall k | 0 <= k < |books| :: rows[k] == MarkIfListed(books[k], names, authors)
    ensures rows == DenyListed(books, names, authors)
  {
    var r := DenyListed(books, names, authors);
    forall k | 0 <= k < |books| ensures rows[k] == r[k] {
      assert r[k].(isDenied := books[k].isDenied) == books[k];
    }
  }
}
