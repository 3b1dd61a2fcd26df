/** The online viewer: looks a book up, reads its file as text and renders
    it in a small HTML page. It does not consult the denied flag. */
module WebViewer {
  import opened Common
  import opened Models
  import opened BookService

  const FileMissing := HttpError(500, "Book file not found on server")

  /** `<tag>content</tag>`, with the content as it is. */
  function Element(tag: string, content: string): (e: string)
    ensures |e| == 2 * |tag| + 5 + |content|
    ensures OccursAt(content, e, |tag| + 2)
  {
    "<" + tag + ">" + content + "</" + tag + ">"
  }

  const PageOpen := "\n    <html>\n        <head>"
  const AfterTitle := "</head>\n        <body>\n            "
  const AfterHeading := "\n            "
  const AfterAuthor := "\n            <hr>\n            "
  const PageClose := "\n        </body>\n    </html>\n    "

  /** The fixed text of the page: the whitespace between the elements and
      the brackets and names of the four tags, 44 characters in all. */
  const PageFixedLength := |PageOpen| + |AfterTitle| + |AfterHeading| + |AfterAuthor| + |PageClose| + 44

  /** Name, author and text are interpolated as they are, without escaping. */
  function Page(name: string, author: string, text: string): (page: string)
    ensures |PageOpen| <= |page| && page[..|PageOpen|] == PageOpen
    ensures EndsWith(page, PageClose)
    ensures |page| == PageFixedLength + 2 * |name| + |author| + |text|
  {
    PageOpen + Element("title", name) + AfterTitle + Element("h1", name) + AfterHeading
      + Element("h2", author) + AfterAuthor + Element("pre", text) + PageClose
  }

  /** 404 for an unknown id; 500 with its own message when the file is gone;
      otherwise the page. `decode` reads the bytes as UTF-8 text; a file that
      does not decode raises an exception the handler does not catch (500). */
  function ViewBook(books: seq<Book>, files: map<string, seq<byte>>, decode: seq<byte> -> Option<string>, bookId: int)
    : (r: Result<string, HttpError>)
    ensures GetBookById(books, bookId).None? ==> r == Err(BookNotFound)
    ensures GetBookById(books, bookId).Some? && GetBookById(books, bookId).value.filePath !in files ==>
      r == Err(FileMissing)
    ensures (GetBookById(books, bookId).Some? && GetBookById(books, bookId).value.filePath in files &&
             decode(files[GetBookById(books, bookId).value.filePath]).None?) ==>
      r == Err(InternalServerError)
    ensures r.Ok? <==>
      && GetBookById(books, bookId).Some?
      && var b := GetBookById(books, bookId).value;
      && b.filePath in files && decode(files[b.filePath]).Some?
    ensures r.Ok? ==>
      var b := GetBookById(books, bookId).value;
      r.value == Page(Show(b.name), Show(b.author), decode(files[b.filePath]).value)
    ensures r.Err? ==> r.error in {BookNotFound, FileMissing, InternalServerError}
  {
    match GetBookById(books, bookId)
    case None => Err(BookNotFound)
    case Some(b) =>
      if b.filePath !in files then Err(FileMissing)
      else match decode(files[b.filePath])
        case None => Err(InternalServerError)
        case Some(text) => Ok(Page(Show(b.name), Show(b.author), text))
  }

  lemma OccursAtEnd(s: string, x: string)
    ensures OccursAt(x, s + x, |s|)
  {
    assert (s + x)[|s|..|s| + |x|] == x;
  }

  lemma OccursBeforeMore(x: string, s: string, i: int, more: string)
    requires OccursAt(x, s, i)
    ensures OccursAt(x, s + more, i)
  {
    assert (s + more)[i..i + |x|] == s[i..i + |x|];
  }

  // Each piece is found at the end of a prefix of the page, then carried
  // through the pieces appended after it.

  lemma TitleInPage(name: string, author: string, text: string)
    ensures IsSubstring(Element("title", name), Page(name, author, text))
  {
    var x := Element("title", name);
    var s := PageOpen + x;
    OccursAtEnd(PageOpen, x);
    OccursBeforeMore(x, s, |PageOpen|, AfterTitle);
    OccursBeforeMore(x, s + AfterTitle, |PageOpen|, Element("h1", name));
    OccursBeforeMore(x, s + AfterTitle + Element("h1", name), |PageOpen|, AfterHeading);
    OccursBeforeMore(x, s + AfterTitle + Element("h1", name) + AfterHeading, |PageOpen|, Element("h2", author));
    OccursBeforeMore(x, s + AfterTitle + Element("h1", name) + AfterHeading + Element("h2", author), |PageOpen|,
      AfterAuthor);
    OccursBeforeMore(x, s + AfterTitle + Element("h1", name) + AfterHeading + Element("h2", author) + AfterAuthor,
      |PageOpen|, Element("pre", text));
    OccursBeforeMore(x, s + AfterTitle + Element("h1", name) + AfterHeading + Element("h2", author) + AfterAuthor
      + Element("pre", text), |PageOpen|, PageClose);
    OccursAtImpliesSubstring(x, Page(name, author, text), |PageOpen|);
  }

  lemma HeadingInPage(name: string, author: string, text: string)
    ensures IsSubstring(Element("h1", name), Page(name, author, text))
  {
    var x := Element("h1", name);
    var before := PageOpen + Element("title", name) + AfterTitle;
    var i := |before|;
    OccursAtEnd(before, x);
    OccursBeforeMore(x, before + x, i, AfterHeading);
    OccursBeforeMore(x, before + x + AfterHeading, i, Element("h2", author));
    OccursBeforeMore(x, before + x + AfterHeading + Element("h2", author), i, AfterAuthor);
    OccursBeforeMore(x, before + x + AfterHeading + Element("h2", author) + AfterAuthor, i, Element("pre", text));
    OccursBeforeMore(x, before + x + AfterHeading + Element("h2", author) + AfterAuthor + Element("pre", text), i,
      PageClose);
    OccursAtImpliesSubstring(x, Page(name, author, text), i);
  }

  lemma AuthorInPage(name: string, author: string, text: string)
    ensures IsSubstring(Element("h2", author), Page(name, author, text))
  {
    var x := Element("h2", author);
    var before := PageOpen + Element("title", name) + AfterTitle + Element("h1", name) + AfterHeading;
    var i := |before|;
    OccursAtEnd(before, x);
    OccursBeforeMore(x, before + x, i, AfterAuthor);
    OccursBeforeMore(x, before + x + AfterAuthor, i, Element("pre", text));
    OccursBeforeMore(x, before + x + AfterAuthor + Element("pre", text), i, PageClose);
    OccursAtImpliesSubstring(x, Page(name, author, text), i);
  }

  lemma TextInPage(name: string, author: string, text: string)
    ensures IsSubstring(Element("pre", text), Page(name, author, text))
  {
    var x := Element("pre", text);
    var before := PageOpen + Element("title", name) + AfterTitle + Element("h1", name) + AfterHeading
      + Element("h2", author) + AfterAuthor;
    var i := |before|;
    OccursAtEnd(before, x);
    OccursBeforeMore(x, before + x, i, PageClose);
    OccursAtImpliesSubstring(x, Page(name, author, text), i);
  }

  /** The name stands in the title and the first heading, the author in the
      second heading, and the text, verbatim, inside `<pre>`. */
  lemma PageLayout(name: string, author: string, text: string)
    ensures IsSubstring(Element("title", name), Page(name, author, text))
    ensures IsSubstring(Element("h1", name), Page(name, author, text))
    ensures IsSubstring(Element("h2", author), Page(name, author, text))
    ensures IsSubstring(Element("pre", text), Page(name, author, text))
  {
    TitleInPage(name, author, text);
    HeadingInPage(name, author, text);
    AuthorInPage(name, author, text);
    TextInPage(name, author, text);
  }

  /** Denylist marking does not change what the viewer shows. */
  lemma ViewIgnoresDenylist(
    books: seq<Book>, names: seq<string>, authors: seq<string>,
    files: map<string, seq<byte>>, decode: seq<byte> -> Option<string>, bookId: int)
    ensures ViewBook(DenyListed(books, names, authors), files, decode, bookId) == ViewBook(books, files, decode, bookId)
  {
    GetBookByIdIgnoresDenial(books, DenyListed(books, names, authors), bookId);
  }

  /** A denied book whose file is present and readable is still shown. */
  lemma DeniedBookViewable(books: seq<Book>, files: map<string, seq<byte>>, decode: seq<byte> -> Option<string>, i: int)
    requires UniqueIds(books) && 0 <= i < |books|
    requires books[i].isDenied
    requires books[i].filePath in files && decode(files[books[i].filePath]).Some?
    ensures ViewBook(books, files, decode, books[i].id)
      == Ok(Page(Show(books[i].name), Show(books[i].author), decode(files[books[i].filePath]).value))
  {
    GetBookByIdFindsRow(books, i);
  }
}
