# crawler_tool core, modelled in Dafny

A model of the logic in `crawlPractice.py` of crawler_tool, a small crawler for two
sites: the PTT forum and the books.com.tw search page. Four pieces are modelled:

- **Display width** (`DisplayWidth`, display_width.dfy): the 38-row table of
  `(upper bound, width)` pairs, the per-code-point width `char_width` (shift-out and
  shift-in take no column; otherwise the first row whose bound is at least the code
  point decides; beyond the last bound, 1 column) and `get_width`, the sum over a string.
- **PTT post metadata** (`PttParser.ParseArticleMeta`, ptt_parser.dfy): title, push
  count and date are copied; author and title link are read in that order, and when
  either is missing the deleted-post fallback runs: link becomes `"EMPTY"`, and the
  author becomes the first `[\w*]` token of a title marked `(本文已被刪除)`, or else the
  first `<\w*>` token of a title marked with both `(已被` and `刪除)`, or stays what it
  was (missing, or the author already read when only the link was missing).
- **PTT pagination** (`PttParser.GetPagesMeta`): a loop over exactly `numPages` pages;
  each page's next URL is the domain `https://www.ptt.cc` followed by the href of its
  second `.action-bar a.btn.wide` button. The walk is proved equal to a recursive
  definition, which is then characterised by lemmas: when it succeeds, how it splits,
  and in which order the pages' posts appear.
- **Book metadata** (`BooksParser.ParseArticleMeta`, books_parser.dfy): first author,
  first price element as discount and last as price, cover href prefixed with `https:`,
  and the leftmost `DDDD-DD-DD` date of the entry's text.

`TextSearch` (text_search.dfy) models the two pieces of Python string matching used:
`sub in s`, and `re.search` of a pattern `open(\w*)close`. The regular expression's
meaning is stated as a predicate (`TokenAt`), and, for a closing delimiter that is not
a word character (`]` and `>` are not), the greedy scan is proved to find its leftmost
match. `Wrappers` holds `Option` and `Result`.

A page fetch is a parameter `site: string -> Page`, a function from URL to what the
HTML library would return for that page. An entry is a record of the texts and hrefs
the code reads from it, and an optional field stands for an element the code may fail
to find. Where the source raises an exception, the model returns `None` or `Failure`.

Facts of the code worth noting:

- The width table has 38 rows.
- With one price element, discount and price are both that element's text
  (`BooksParser.SinglePriceIsAlsoDiscount`).
- Only the first `go_author` element is read.
- The image field is the `.text` of the cover image.
- The deleted-post markers are the Chinese strings `(本文已被刪除)`, `(已被` and `刪除)`.

## Model

| member | source | states |
|---|---|---|
| `DisplayWidth.WidthsWellFormed` | crawlPractice.py:167-176 | the table has 38 rows, its bounds strictly ascend, every width is at most 2, and the last bound is 1114109 |
| `DisplayWidth.FirstCovering` | crawlPractice.py:185-188 | the scan returns the first row whose bound is at least the code point: that row covers it and every earlier row's bound is below it; none means every bound is below it |
| `DisplayWidth.CharWidth` | crawlPractice.py:182-189 | a width is 0, 1 or 2; 0x0E and 0x0F are 0 wide whatever the table says; above 1114109 the width is 1 |
| `DisplayWidth.CharWidthFirstRow` | crawlPractice.py:183-189 | for any code point other than 0x0E and 0x0F, the width is that of the first row whose bound is at least it, and 1 when no bound is |
| `DisplayWidth.CharWidthInRow` | crawlPractice.py:167-176 | every code point in a row's interval (above the previous bound, up to its own), other than 0x0E and 0x0F, has that row's width |
| `DisplayWidth.AsciiIsNarrow` | crawlPractice.py:168 | code points up to 126, other than 0x0E and 0x0F, are 1 column wide |
| `DisplayWidth.C1ControlsTakeNoColumn` | crawlPractice.py:168 | code points 127 to 159 are 0 columns wide |
| `DisplayWidth.RangeFrom4E00IsWide` | crawlPractice.py:172-173 | code points 19968 to 55203 (U+4E00 to U+D7A3) are 2 columns wide |
| `DisplayWidth.FullwidthFormsAreWide` | crawlPractice.py:174 | code points 65280 to 65376 (fullwidth forms) are 2 columns wide |
| `DisplayWidth.GetWidth` | crawlPractice.py:178-190 | a string is at most twice as wide as it is long |
| `DisplayWidth.GetWidthSingle` | crawlPractice.py:190 | a one-character string is as wide as its character |
| `DisplayWidth.GetWidthAppend` | crawlPractice.py:190 | width is additive: the width of a + b is the width of a plus the width of b |
| `DisplayWidth.ShiftsTakeNoColumn` | crawlPractice.py:183-184 | a string of shift-out and shift-in characters has width 0 |
| `DisplayWidth.PrintableAsciiWidth` | crawlPractice.py:190 | printable ASCII text is exactly as wide as it is long |
| `DisplayWidth.RangeFrom4E00TextWidth` | crawlPractice.py:190 | text of code points U+4E00 to U+D7A3 is exactly twice as wide as it is long |
| `TextSearch.Contains` | crawlPractice.py:88-93 | Python's `sub in s`: a prefix of s, or contained in s without its first character; the empty string is in every string, and a contained string is no longer than s |
| `TextSearch.ContainsIff` | crawlPractice.py:88 | `sub in s` holds exactly when a copy of sub starts at some position of s |
| `TextSearch.NotContainsChar` | crawlPractice.py:93 | a string lacking one of sub's characters does not contain sub |
| `TextSearch.WordRunEnd` | crawlPractice.py:90 | the greedy run of word characters from a position: all characters before the end are word characters, the one at the end is not |
| `TextSearch.TokenEndUnique` | crawlPractice.py:90 | a match of `open(\w*)close` starting at a given position ends at only one place when the closing delimiter is not a word character (`]` and `>` are not) |
| `TextSearch.SearchToken` | crawlPractice.py:90 | the search finds a match of `open(\w*)close` with no match starting before it, and finds nothing only when there is no match at all; both for a closing delimiter that is not a word character (`]` and `>` are not) |
| `TextSearch.FirstToken` | crawlPractice.py:90-92 | the first group is made of word characters and the title contains it between the delimiters; there is no group exactly when the pattern matches nowhere; for a closing delimiter that is not a word character |
| `TextSearch.FirstTokenLeftmost` | crawlPractice.py:90-92 | the first group is the text between the delimiters of the leftmost match, for a closing delimiter that is not a word character |
| `PttParser.RecoverAuthor` | crawlPractice.py:88-97 | the fallback changes the author only to a run of word characters that the title holds between `[` and `]` or between `<` and `>` |
| `PttParser.ParseArticleMeta` | crawlPractice.py:73-100 | title, push and date are copied; with both author and link present both are copied and no fallback runs; otherwise link is "EMPTY" and the author is the fallback's, starting from the author read (missing if the author was missing) |
| `PttParser.DeletedTitleAuthor` | crawlPractice.py:88-92 | on fallback, a title containing `(本文已被刪除)` gives as author the text of its leftmost `[\w*]` match, and link "EMPTY" |
| `PttParser.RemovedTitleAuthor` | crawlPractice.py:93-97 | on fallback, a title containing `(已被` and `刪除)` but not `(本文已被刪除)` gives as author the text of its leftmost `<\w*>` match, and link "EMPTY" |
| `PttParser.FallbackKeepsAuthor` | crawlPractice.py:87-98 | on fallback, when the title has no marker or no token of the kind its marker asks for, the author stays as read: missing, or the structural author when only the link was missing |
| `PttParser.DeletedTitleExample` | crawlPractice.py:89 | "(本文已被刪除)[okok]" with author or link missing gives author "okok" and link "EMPTY" |
| `PttParser.RemovedTitleExample` | crawlPractice.py:94 | "(已被admin刪除) <okok> op" with author or link missing gives author "okok" and link "EMPTY" |
| `PttParser.ParseNextLink` | crawlPractice.py:102-107 | there is a next link exactly when a second button with an href exists; the link is the domain followed by that href |
| `PttParser.NextLinkOnlySecondButton` | crawlPractice.py:104-106 | pages that agree on their second button have the same next link, whatever their other buttons |
| `PttParser.ParseEntries` | crawlPractice.py:116 | one metadata record per entry, in entry order |
| `PttParser.GetMetadata` | crawlPractice.py:110-117 | a page yields its posts and next link exactly when its second button has an href; the posts are the entries' metadata in order, the link is the domain followed by that href |
| `PttParser.UrlAt` | crawlPractice.py:121-126 | the successive values of `nowlink`: the start URL after 0 steps, each later one the next link of the page at the one before; None only after at least one step, once a page on the way has no next link; every URL after the first starts with the domain |
| `PttParser.PagesMeta` | crawlPractice.py:119-128 | the posts of the first page followed by those of n - 1 pages from its next link; None when one of the n pages has no next link; zero pages give no posts |
| `PttParser.PagesMetaFirstPage` | crawlPractice.py:121-126 | a successful walk of at least one page needs the first page's next link and begins with exactly the posts of the first page's entries |
| `PttParser.UrlAtShift` | crawlPractice.py:119-128 | k + 1 steps of the walk from a page are k steps from that page's next link |
| `PttParser.PagesMetaDefined` | crawlPractice.py:110-128 | a walk of n pages succeeds exactly when each of the n pages, the last included, has a next link |
| `PttParser.PagesMetaSplit` | crawlPractice.py:119-128 | walking a + b pages gives the posts of a pages followed by those of b pages from where the first a pages ended |
| `PttParser.PagesMetaLastPage` | crawlPractice.py:123-126 | the posts of page k + 1 come right after those of the first k pages, in order |
| `PttParser.GetPagesMeta` | crawlPractice.py:119-128 | the loop fetches exactly numPages pages (none when numPages <= 0), following each next link, and returns the concatenated posts of the walk; it reports failure where the source raises |
| `BooksParser.SearchDate` | crawlPractice.py:161 | the position found starts a `[0-9]{4}-[0-9]{2}-[0-9]{2}` match and no match starts before it; nothing is found only when nothing matches |
| `BooksParser.FindDate` | crawlPractice.py:161-162 | the date is a 10-character DDDD-DD-DD substring of the text at the leftmost matching position; there is none exactly when nothing matches |
| `BooksParser.FindDateAppend` | crawlPractice.py:161 | text appended after a date does not change which date is found |
| `BooksParser.FindDateExample` | crawlPractice.py:161 | the date of "出版日期：2019-01-30" is "2019-01-30" |
| `BooksParser.ParseArticleMeta` | crawlPractice.py:146-164 | succeeds exactly when there is an author element, a price element and a date; the error is NoAuthor, else NoPrice, else NoDate, in reading order; author is the first author element, discount the first price element, price the last, link "https:" followed by the cover href, date the leftmost date of the text; other fields copied |
| `BooksParser.SinglePriceIsAlsoDiscount` | crawlPractice.py:153-154 | with one price element, discount and price are both its text |
| `BooksParser.DateFieldIsLeftmost` | crawlPractice.py:161-162 | the date field is a substring of the entry text at a date position before which no date starts |

## Left out

- `fetch` and `requests.get`: network I/O, including the `over18` cookie and the PTT
  fetch that requests each URL twice. A page fetch is the `site` parameter, and
  transport failures are not modelled.
- `parse_article_entries` of both parsers, and every CSS-selector query and `.text` or
  `.attrs` access: these belong to the third-party `requests_html` library. Entries and
  pages are records of the values those queries return.
- A missing required element (PTT title, push or date; book title, publisher, summary,
  cover image or cover link) makes the source crash. The records treat these fields as
  always present.
- `TextSearch.IsWordChar`: Python's Unicode `\w` is approximated as ASCII letters,
  digits and `_` plus every non-ASCII character, whereas Python counts only non-ASCII
  letters and digits. So non-ASCII spaces (U+00A0, the ideographic space U+3000),
  punctuation, symbols, combining marks and control characters are word characters in
  the model but not in Python: `[公告　x]` matches `[\w*]` in the model only.
- `DisplayWidth.GetWidth`: Dafny characters are Unicode scalar values, so lone
  surrogates, which a Python string may hold, are not covered.
- The `__main__` block: console output, including the commented-out padding of PTT
  titles to 70 columns.
- The stub methods of `SimpleParser`, whose bodies are `pass`, and the `start_url`
  attribute, which the modelled code does not read.
- The default `numPages=5` of `get_pages_meta`: `GetPagesMeta` always takes the page
  count as an argument.
- A walk that fails part-way returns `None` in the model. The source raises, and the
  posts collected so far are lost to the caller.
