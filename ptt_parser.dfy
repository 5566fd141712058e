/** The PTT forum crawler (crawlPractice.py, class PTTParser): the metadata of one post
    entry with the fallback for deleted posts, the link to the next listing page, and
    the walk over a fixed number of listing pages. */
module PttParser {
  import opened Wrappers
  import opened TextSearch

  /** One `div.r-ent` row of a listing page, as far as the parser queries it. Title,
      push count and date are always present; the author and the href of the title's
      link are missing on rows of deleted posts. */
  datatype PostEntry = PostEntry(
    title: string,
    push: string,
    date: string,
    author: Option<string>,
    link: Option<string>)

  /** The metadata dictionary built for one entry. It always has a link, which is the
      sentinel EmptyLink when the entry had none; it may lack an author. */
  datatype PostMeta = PostMeta(
    title: string,
    push: string,
    date: string,
    author: Option<string>,
    link: string)

  /** What one fetched listing page offers the parser: its entries, and the hrefs of
      its `.action-bar a.btn.wide` buttons in document order (None for a button
      without an href). */
  datatype Page = Page(entries: seq<PostEntry>, buttons: seq<Option<string>>)

  const Domain: string := "https://www.ptt.cc"

  /** The link stored for an entry whose author or link could not be read. */
  const EmptyLink: string := "EMPTY"

  /** Title markers of a post deleted by its author, and of one removed by someone else. */
  const DeletedMarker: string := "(本文已被刪除)"
  const RemovedOpenMarker: string := "(已被"
  const RemovedCloseMarker: string := "刪除)"

  /** The author the fallback settles on:  the first `[\w*]` token of a title marked as
      deleted, else the first `<\w*>` token of a title marked as removed, else (also
      when that token is missing) the author read before the fallback began. */
  function RecoverAuthor(title: string, author: Option<string>): (r: Option<string>)
    ensures r != author ==> r.Some? && forall c :: c in r.value ==> IsWordChar(c)
    ensures r != author ==> r.Some? && (Contains(title, ['['] + r.value + [']']) || Contains(title, ['<'] + r.value + ['>']))
  {
    if Contains(title, DeletedMarker) then
      match FirstToken(title, '[', ']')
      case Some(name) => Some(name)
      case None => author
    else if Contains(title, RemovedOpenMarker) && Contains(title, RemovedCloseMarker) then
      match FirstToken(title, '<', '>')
      case Some(name) => Some(name)
      case None => author
    else
      author
  }

  /** Whether parsing an entry ends in the fallback: reading its author or its link fails. */
  predicate NeedsFallback(e: PostEntry) {
    e.author.None? || e.link.None?
  }

  /** The metadata of one entry (`parse_article_meta`). The author is read before the
      link, so when only the link is missing the fallback starts from the author that
      was read. */
  function ParseArticleMeta(e: PostEntry): (m: PostMeta)
    ensures m.title == e.title && m.push == e.push && m.date == e.date
    ensures !NeedsFallback(e) ==> m.author == e.author && m.link == e.link.value
    ensures NeedsFallback(e) ==> m.link == EmptyLink && m.author == RecoverAuthor(e.title, e.author)
  {
    var base := PostMeta(e.title, e.push, e.date, e.author, EmptyLink);
    match (e.author, e.link)
    case (Some(_), Some(href)) => base.(link := href)
    case _ => base.(author := RecoverAuthor(e.title, e.author))
  }

  /** A title marked as deleted by its author yields the text of its first `[\w*]`
      token as the author. */
  lemma DeletedTitleAuthor(e: PostEntry, i: int, j: int)
    requires NeedsFallback(e) && Contains(e.title, DeletedMarker)
    requires TokenAt(e.title, '[', ']', i, j)
    requires forall i', j' :: 0 <= i' < i ==> !TokenAt(e.title, '[', ']', i', j')
    ensures ParseArticleMeta(e).author == Some(e.title[i + 1..j])
    ensures ParseArticleMeta(e).link == EmptyLink
  {
    FirstTokenLeftmost(e.title, '[', ']', i, j);
  }

  /** The title carries the markers of a post removed by someone else, and not the
      marker of one deleted by its author. */
  predicate RemovedOnly(title: string) {
    !Contains(title, DeletedMarker) && Contains(title, RemovedOpenMarker) && Contains(title, RemovedCloseMarker)
  }

  /** A title marked as removed by someone else, and not as deleted by its author,
      yields the text of its first `<\w*>` token as the author. */
  lemma RemovedTitleAuthor(e: PostEntry, i: int, j: int)
    requires NeedsFallback(e) && RemovedOnly(e.title)
    requires TokenAt(e.title, '<', '>', i, j)
    requires forall i', j' :: 0 <= i' < i ==> !TokenAt(e.title, '<', '>', i', j')
    ensures ParseArticleMeta(e).author == Some(e.title[i + 1..j])
    ensures ParseArticleMeta(e).link == EmptyLink
  {
    FirstTokenLeftmost(e.title, '<', '>', i, j);
  }

  /** When the fallback finds no token of the kind the title's marker asks for, or the
      title carries no marker, the author stays as read: missing, or the author read
      before the link turned out to be missing. */
  lemma FallbackKeepsAuthor(e: PostEntry)
    requires NeedsFallback(e)
    requires Contains(e.title, DeletedMarker) ==> forall i, j :: !TokenAt(e.title, '[', ']', i, j)
    requires RemovedOnly(e.title) ==> forall i, j :: !TokenAt(e.title, '<', '>', i, j)
    ensures ParseArticleMeta(e).author == e.author
    ensures ParseArticleMeta(e).link == EmptyLink
  {
  }

  /** The example of a deleted post: "(本文已被刪除)[okok]" has author "okok". */
  lemma DeletedTitleExample(e: PostEntry)
    requires e.title == "(本文已被刪除)[okok]" && NeedsFallback(e)
    ensures ParseArticleMeta(e).author == Some("okok")
    ensures ParseArticleMeta(e).link == EmptyLink
  {
    var t := e.title;
    assert t[..|DeletedMarker|] == DeletedMarker;
    assert forall i :: 0 <= i < 8 ==> t[i] != '[';
    DeletedTitleAuthor(e, 8, 13);
    assert t[9..13] == "okok";
  }

  /** The example of a removed post: "(已被admin刪除) <okok> op" has author "okok". */
  lemma RemovedTitleExample(e: PostEntry)
    requires e.title == "(已被admin刪除) <okok> op" && NeedsFallback(e)
    ensures ParseArticleMeta(e).author == Some("okok")
    ensures ParseArticleMeta(e).link == EmptyLink
  {
    RemovedExampleMarkers(e.title);
    RemovedExampleToken(e.title);
    RemovedTitleAuthor(e, 12, 17);
    assert e.title[13..17] == "okok";
  }

  /** The removed-post example title carries only the removed-by-someone-else markers. */
  lemma RemovedExampleMarkers(t: string)
    requires t == "(已被admin刪除) <okok> op"
    ensures RemovedOnly(t)
  {
    assert Contains(t, RemovedOpenMarker) by {
      assert t[..|RemovedOpenMarker|] == RemovedOpenMarker;
    }
    assert Contains(t, RemovedCloseMarker) by {
      assert t[8..8 + |RemovedCloseMarker|] == RemovedCloseMarker;
      ContainsAt(t, RemovedCloseMarker, 8);
    }
    NotContainsChar(t, DeletedMarker, '本');
  }

  /** The removed-post example title's first `<\w*>` match runs from 12 to 17. */
  lemma RemovedExampleToken(t: string)
    requires t == "(已被admin刪除) <okok> op"
    ensures TokenAt(t, '<', '>', 12, 17)
    ensures forall i, j :: 0 <= i < 12 ==> !TokenAt(t, '<', '>', i, j)
  {
    assert forall i :: 0 <= i < 12 ==> t[i] != '<';
  }

  /** The absolute link to the next listing page (`parse_nextlink`): the domain
      followed by the href of the second button; the first one leads back. */
  function ParseNextLink(p: Page): (r: Option<string>)
    ensures r.Some? <==> |p.buttons| >= 2 && p.buttons[1].Some?
    ensures r.Some? ==> StartsWith(r.value, Domain) && r.value[|Domain|..] == p.buttons[1].value
  {
    if |p.buttons| >= 2 && p.buttons[1].Some? then Some(Domain + p.buttons[1].value) else None
  }

  /** Only the second button decides the next link. */
  lemma NextLinkOnlySecondButton(p: Page, q: Page)
    requires |p.buttons| >= 2 && |q.buttons| >= 2 && p.buttons[1] == q.buttons[1]
    ensures ParseNextLink(p) == ParseNextLink(q)
  {
  }

  /** The metadata of every entry of a page, in order. */
  function ParseEntries(es: seq<PostEntry>): (ms: seq<PostMeta>)
    ensures |ms| == |es|
    ensures forall i :: 0 <= i < |es| ==> ms[i] == ParseArticleMeta(es[i])
  {
    if es == [] then [] else [ParseArticleMeta(es[0])] + ParseEntries(es[1..])
  }

  /** The posts of the page at `url` with the link to the page after it
      (`get_metadata`); None when the next link cannot be read, where the source
      raises. */
  function GetMetadata(site: string -> Page, url: string): (r: Option<(seq<PostMeta>, string)>)
    ensures r.Some? <==> |site(url).buttons| >= 2 && site(url).buttons[1].Some?
    ensures r.Some? ==> |r.value.0| == |site(url).entries|
    ensures r.Some? ==> forall i :: 0 <= i < |r.value.0| ==> r.value.0[i] == ParseArticleMeta(site(url).entries[i])
    ensures r.Some? ==> r.value.1 == Domain + site(url).buttons[1].value
  {
    match ParseNextLink(site(url))
    case None => None
    case Some(next) => Some((ParseEntries(site(url).entries), next))
  }

  /** The URL of the page reached after k steps of the walk from `url`: each step
      follows the next link of the current page. None once a page on the way has no
      next link. */
  function UrlAt(site: string -> Page, url: string, k: nat): (r: Option<string>)
    ensures k == 0 ==> r == Some(url)
    ensures r.None? ==> k > 0
    ensures k > 0 && r.Some? ==> StartsWith(r.value, Domain)
  {
    if k == 0 then Some(url)
    else
      match UrlAt(site, url, k - 1)
      case None => None
      case Some(u) => ParseNextLink(site(u))
  }

  /** `acc` in front of an optional sequence. */
  function Prepend<T>(acc: seq<T>, r: Option<seq<T>>): Option<seq<T>> {
    match r
    case None => None
    case Some(xs) => Some(acc + xs)
  }

  /** Prepending nothing changes nothing, and prepending twice is prepending the
      concatenation. */
  lemma PrependLaws<T>(a: seq<T>, b: seq<T>, r: Option<seq<T>>)
    ensures Prepend([], r) == r
    ensures Prepend(a, Prepend(b, r)) == Prepend(a + b, r)
  {
    match r {
      case None =>
      case Some(xs) =>
        assert [] + xs == xs;
        assert a + (b + xs) == (a + b) + xs;
    }
  }

  /** The posts of n pages from `url` on: those of the first page, then those of the
      n - 1 pages from its next link on; None when one of the n pages has no next
      link. */
  function PagesMeta(site: string -> Page, url: string, n: nat): (r: Option<seq<PostMeta>>)
    ensures n == 0 ==> r == Some([])
    decreases n
  {
    if n == 0 then Some([])
    else
      match GetMetadata(site, url)
      case None => None
      case Some((posts, next)) => Prepend(posts, PagesMeta(site, next, n - 1))
  }

  /** A successful walk starts with the posts of its first page, which therefore has
      a next link. */
  lemma PagesMetaFirstPage(site: string -> Page, url: string, n: nat)
    requires n > 0 && PagesMeta(site, url, n).Some?
    ensures ParseNextLink(site(url)).Some?
    ensures |site(url).entries| <= |PagesMeta(site, url, n).value|
    ensures PagesMeta(site, url, n).value[..|site(url).entries|] == ParseEntries(site(url).entries)
  {
    var (posts, next) := GetMetadata(site, url).value;
    var rest := PagesMeta(site, next, n - 1).value;
    assert PagesMeta(site, url, n).value == posts + rest;
    assert (posts + rest)[..|posts|] == posts;
  }

  /** One more step of the walk is one step from the first page's next link. */
  lemma {:induction false} UrlAtShift(site: string -> Page, url: string, k: nat)
    ensures UrlAt(site, url, k + 1) ==
      match ParseNextLink(site(url))
      case None => None
      case Some(next) => UrlAt(site, next, k)
  {
    if k > 0 {
      UrlAtShift(site, url, k - 1);
    }
  }

  /** The walk of n pages succeeds exactly when every one of the n pages, the last one
      included, has a next link. */
  lemma {:induction false} PagesMetaDefined(site: string -> Page, url: string, n: nat)
    ensures PagesMeta(site, url, n).Some? <==> UrlAt(site, url, n).Some?
    decreases n
  {
    if n > 0 {
      UrlAtShift(site, url, n - 1);
      match ParseNextLink(site(url))
      case None =>
      case Some(next) => PagesMetaDefined(site, next, n - 1);
    }
  }

  /** Walking a + b pages is walking a pages and then b pages from where they ended. */
  lemma {:induction false} PagesMetaSplit(site: string -> Page, url: string, a: nat, b: nat)
    ensures PagesMeta(site, url, a + b) ==
      match (PagesMeta(site, url, a), UrlAt(site, url, a))
      case (Some(xs), Some(u)) => Prepend(xs, PagesMeta(site, u, b))
      case _ => None
    decreases a
  {
    if a == 0 {
      match PagesMeta(site, url, b)
      case None =>
      case Some(ys) => assert [] + ys == ys;
    } else {
      UrlAtShift(site, url, a - 1);
      PagesMetaDefined(site, url, a);
      match GetMetadata(site, url)
      case None =>
      case Some((posts, next)) =>
        PagesMetaSplit(site, next, a - 1, b);
        assert a + b - 1 == a - 1 + b;
        match (PagesMeta(site, next, a - 1), UrlAt(site, next, a - 1)) {
          case (Some(xs), Some(u)) =>
            PrependLaws(posts, xs, PagesMeta(site, u, b));
          case _ =>
        }
    }
  }

  /** The posts of page k + 1 of the walk follow those of the first k pages. */
  lemma PagesMetaLastPage(site: string -> Page, url: string, k: nat)
    requires UrlAt(site, url, k + 1).Some?
    ensures UrlAt(site, url, k).Some? && PagesMeta(site, url, k).Some?
    ensures PagesMeta(site, url, k + 1)
      == Some(PagesMeta(site, url, k).value + ParseEntries(site(UrlAt(site, url, k).value).entries))
  {
    PagesMetaDefined(site, url, k);
    PagesMetaSplit(site, url, k, 1);
    var u := UrlAt(site, url, k).value;
    var posts := ParseEntries(site(u).entries);
    assert GetMetadata(site, u).Some?;
    assert PagesMeta(site, u, 1) == Some(posts + []);
    assert posts + [] == posts;
  }

  /** The posts of `numPages` listing pages from `url` on (`get_pages_meta`): the loop
      fetches exactly that many pages, never stopping early, and follows each page's
      next link; None where the source raises because a page has no next link. */
  method GetPagesMeta(site: string -> Page, url: string, numPages: int) returns (r: Option<seq<PostMeta>>)
    ensures r == PagesMeta(site, url, if numPages < 0 then 0 else numPages)
  {
    var n: nat := if numPages < 0 then 0 else numPages;
    var collectPost: seq<PostMeta> := [];
    var nowLink := url;
    PrependLaws(collectPost, collectPost, PagesMeta(site, url, n));
    for i := 0 to n
      invariant PagesMeta(site, url, n) == Prepend(collectPost, PagesMeta(site, nowLink, n - i))
    {
      var got := GetMetadata(site, nowLink);
      if got.None? {
        return None;
      }
      var (postData, nextLink) := got.value;
      assert PagesMeta(site, nowLink, n - i) == Prepend(postData, PagesMeta(site, nextLink, n - i - 1));
      PrependLaws(collectPost, postData, PagesMeta(site, nextLink, n - i - 1));
      collectPost := collectPost + postData;
      nowLink := nextLink;
    }
    assert collectPost + [] == collectPost;
    r := Some(collectPost);
  }
}
