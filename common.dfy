/** Shared value types for the book catalog: optional values and results,
    bytes, already-parsed dates, the string helpers the catalog's matching
    relies on, and the HTTP error responses the endpoints raise. */
module Common {

  datatype Option<+T> = None | Some(value: T)

  datatype Result<+T, +E> = Ok(value: T) | Err(error: E)

  newtype byte = x: int | 0 <= x < 256

  /** A calendar date, taken as already parsed from its ISO form. */
  datatype Date = Date(year: int, month: int, day: int)

  /** ASCII lower-casing of one character; every other character is kept. */
  function LowerChar(c: char): char
  {
    if 'A' <= c <= 'Z' then (c as int + 32) as char else c
  }

  function Lower(s: string): string
  {
    seq(|s|, i requires 0 <= i < |s| => LowerChar(s[i]))
  }

  /** `needle` occurs in `hay` starting at position `i`. */
  predicate OccursAt(needle: string, hay: string, i: int)
  {
    0 <= i && i + |needle| <= |hay| && hay[i..i + |needle|] == needle
  }

  predicate IsSubstring(needle: string, hay: string)
  {
    exists i | 0 <= i <= |hay| - |needle| :: OccursAt(needle, hay, i)
  }

  /** The text match `column ILIKE '%needle%'`, with ASCII case folding. */
  predicate ContainsIgnoringCase(hay: string, needle: string): (r: bool)
    ensures needle == [] ==> r
    ensures IsSubstring(needle, hay) ==> r
  {
    LoweredSubstring(needle, hay);
    IsSubstring(Lower(needle), Lower(hay))
  }

  /** An empty needle, and any needle occurring as it is, still occurs once
      both sides are lower-cased. */
  lemma LoweredSubstring(needle: string, hay: string)
    ensures needle == [] ==> IsSubstring(Lower(needle), Lower(hay))
    ensures IsSubstring(needle, hay) ==> IsSubstring(Lower(needle), Lower(hay))
  {
    if needle == [] {
      OccursAtImpliesSubstring(Lower(needle), Lower(hay), 0);
    }
    if IsSubstring(needle, hay) {
      var i :| 0 <= i <= |hay| - |needle| && OccursAt(needle, hay, i);
      assert Lower(hay)[i..i + |needle|] == Lower(needle) by {
        forall k | 0 <= k < |needle| ensures Lower(hay)[i..i + |needle|][k] == Lower(needle)[k] {
          assert hay[i + k] == needle[k];
        }
      }
      OccursAtImpliesSubstring(Lower(needle), Lower(hay), i);
    }
  }

  /** The match folds case on both sides: lower-casing the column or the
      filter first changes nothing. */
  lemma ContainsIgnoringCaseFolds(hay: string, needle: string)
    ensures ContainsIgnoringCase(Lower(hay), needle) == ContainsIgnoringCase(hay, needle)
    ensures ContainsIgnoringCase(hay, Lower(needle)) == ContainsIgnoringCase(hay, needle)
  {
    assert Lower(Lower(hay)) == Lower(hay);
    assert Lower(Lower(needle)) == Lower(needle);
  }

  /** Python's `s.endswith(suffix)`. */
  predicate EndsWith(s: string, suffix: string)
  {
    |suffix| <= |s| && s[|s| - |suffix|..] == suffix
  }

  /** How a Python f-string shows an optional string: `None` prints as "None". */
  function Show(o: Option<string>): string
  {
    match o
    case Some(s) => s
    case None => "None"
  }

  lemma {:induction false} OccursAtImpliesSubstring(needle: string, hay: string, i: int)
    requires OccursAt(needle, hay, i)
    ensures IsSubstring(needle, hay)
  {
    assert 0 <= i <= |hay| - |needle|;
  }

  /** An HTTP error response: status code and `detail` text. */
  datatype HttpError = HttpError(status: int, detail: string)

  /** What the framework answers when a handler raises an exception it does
      not turn into an HTTP error itself. */
  const InternalServerError := HttpError(500, "Internal Server Error")

  /** Raised by both the download endpoint and the viewer for an unknown id. */
  const BookNotFound := HttpError(404, "Book not found")
}
