/** The books.com.tw search-result crawler (crawlPractice.py, class BooksParser): the
    metadata of one result entry, with its publication date found in the entry's text. */
module BooksParser {
  import opened Wrappers
  import opened TextSearch

  /** One `li.item` search result, as far as the parser queries it: the texts of the
      elements it selects (all `a[rel='go_author']` and all `span.price strong b`
      elements in document order), the href of the cover link and the whole text of
      the entry. */
  datatype BookEntry = BookEntry(
    title: string,
    authors: seq<string>,
    publisher: string,
    prices: seq<string>,
    summary: string,
    image: string,
    coverHref: string,
    text: string)

  /** The metadata dictionary of one result. */
  datatype BookMeta = BookMeta(
    title: string,
    author: string,
    publish: string,
    discount: string,
    price: string,
    summary: string,
    image: string,
    link: string,
    date: string)

  /** Why reading an entry raises: no author element, no price element, or no date in
      the entry's text. */
  datatype BookError = NoAuthor | NoPrice | NoDate

  /** The scheme put in front of the cover link's protocol-relative href. */
  const Scheme: string := "https:"

  /** The length of a date of the form DDDD-DD-DD. */
  const DateLength: nat := 10

  /** The `[0-9]` of Python's regular expressions: an ASCII digit. */
  predicate IsDigit(c: char) {
    '0' <= c <= '9'
  }

  /** The pattern `[0-9]{4}-[0-9]{2}-[0-9]{2}` matches `s` at position i. */
  predicate IsDateAt(s: string, i: int) {
    0 <= i && i + DateLength <= |s|
    && IsDigit(s[i]) && IsDigit(s[i + 1]) && IsDigit(s[i + 2]) && IsDigit(s[i + 3])
    && s[i + 4] == '-' && IsDigit(s[i + 5]) && IsDigit(s[i + 6])
    && s[i + 7] == '-' && IsDigit(s[i + 8]) && IsDigit(s[i + 9])
  }

  /** The pattern matches at i and nowhere before. */
  ghost predicate LeftmostDateAt(s: string, i: int) {
    IsDateAt(s, i) && forall j :: 0 <= j < i ==> !IsDateAt(s, j)
  }

  /** The leftmost position at or after `from` where a date starts, if any. */
  function SearchDate(s: string, from: nat): (r: Option<nat>)
    requires from <= |s|
    ensures r.Some? ==> from <= r.value && IsDateAt(s, r.value)
    ensures r.Some? ==> forall i :: from <= i < r.value ==> !IsDateAt(s, i)
    ensures r.None? ==> forall i :: from <= i ==> !IsDateAt(s, i)
    decreases |s| - from
  {
    if from + DateLength > |s| then None
    else if IsDateAt(s, from) then Some(from)
    else SearchDate(s, from + 1)
  }

  /** `re.search("[0-9]{4}-[0-9]{2}-[0-9]{2}", s).group()`: the leftmost date in `s`. */
  function FindDate(s: string): (r: Option<string>)
    ensures r.None? <==> forall i :: !IsDateAt(s, i)
    ensures r.Some? ==> |r.value| == DateLength && IsDateAt(r.value, 0)
    ensures r.Some? ==> exists i :: LeftmostDateAt(s, i) && s[i..i + DateLength] == r.value
  {
    match SearchDate(s, 0)
    case None => None
    case Some(i) =>
      assert LeftmostDateAt(s, i);
      Some(s[i..i + DateLength])
  }

  /** Text after the first date does not change which date is found. */
  lemma FindDateAppend(s: string, t: string)
    requires FindDate(s).Some?
    ensures FindDate(s + t) == FindDate(s)
  {
    var i := SearchDate(s, 0).value;
    assert (s + t)[i..i + DateLength] == s[i..i + DateLength];
    assert IsDateAt(s + t, i);
    forall j | 0 <= j < i ensures !IsDateAt(s + t, j) {
      assert !IsDateAt(s, j);
      assert (s + t)[j..j + DateLength] == s[j..j + DateLength];
    }
    var k := SearchDate(s + t, 0).value;
    assert k == i;
  }

  /** An example: the date of "出版日期：2019-01-30" is "2019-01-30". */
  lemma FindDateExample(s: string)
    requires s == "出版日期：2019-01-30"
    ensures FindDate(s) == Some("2019-01-30")
  {
    assert IsDateAt(s, 5);
    assert forall i :: 0 <= i < 5 ==> !IsDigit(s[i]);
    assert s[5..15] == "2019-01-30";
  }

  /** The metadata of one result entry (`parse_article_meta`): title, publisher,
      summary and image text as read, the first author, the first price element as the
      discount and the last one as the price, the cover href made absolute, and the
      leftmost date of the entry's text. The fields are read in that order, so the
      first missing one decides the error. */
  function ParseArticleMeta(e: BookEntry): (r: Result<BookMeta, BookError>)
    ensures r.Success? <==> |e.authors| > 0 && |e.prices| > 0 && exists i :: IsDateAt(e.text, i)
    ensures |e.authors| == 0 ==> r == Failure(NoAuthor)
    ensures |e.authors| > 0 && |e.prices| == 0 ==> r == Failure(NoPrice)
    ensures |e.authors| > 0 && |e.prices| > 0 && FindDate(e.text).None? ==> r == Failure(NoDate)
    ensures r.Success? ==> r.value.author == e.authors[0]
    ensures r.Success? ==> r.value.discount == e.prices[0] && r.value.price == e.prices[|e.prices| - 1]
    ensures r.Success? ==> r.value.title == e.title && r.value.publish == e.publisher
    ensures r.Success? ==> r.value.summary == e.summary && r.value.image == e.image
    ensures r.Success? ==> StartsWith(r.value.link, Scheme) && r.value.link[|Scheme|..] == e.coverHref
    ensures r.Success? ==> Some(r.value.date) == FindDate(e.text)
  {
    if |e.authors| == 0 then Failure(NoAuthor)
    else if |e.prices| == 0 then Failure(NoPrice)
    else
      match FindDate(e.text)
      case None => Failure(NoDate)
      case Some(date) =>
        Success(BookMeta(e.title, e.authors[0], e.publisher, e.prices[0], e.prices[|e.prices| - 1],
          e.summary, e.image, Scheme + e.coverHref, date))
  }

  /** With a single price element, the discount and the price are the same text. */
  lemma SinglePriceIsAlsoDiscount(e: BookEntry)
    requires |e.prices| == 1
    requires ParseArticleMeta(e).Success?
    ensures ParseArticleMeta(e).value.discount == ParseArticleMeta(e).value.price == e.prices[0]
  {
  }

  /** The date field is a date of the entry's text at a position before which no date starts. */
  lemma DateFieldIsLeftmost(e: BookEntry)
    requires ParseArticleMeta(e).Success?
    ensures exists i :: LeftmostDateAt(e.text, i) && e.text[i..i + DateLength] == ParseArticleMeta(e).value.date
  {
  }
}
