/** Step 1 of the scraper, `collect_book_urls`: visit listing pages
    1..numPages of the catalogue and gather the absolute address of every
    book they link to, in page order. A listing page that could not be
    fetched contributes nothing. */
module Catalogue {
  import opened Wrappers
  import opened Exceptions
  import opened Text
  import opened Folds

  const BASE_URL: string := "https://books.toscrape.com/"
  const CATALOGUE_URL: string := BASE_URL + "catalogue/"
  const NUM_CATALOGUE_PAGES: nat := 10

  /** The relative-path segment stripped from every link. */
  const PARENT_DIR: string := "../"

  /** The address of listing page `n`. The source builds page 1 by a
      separate branch; both branches agree with the general pattern. */
  function PageUrl(n: nat): (r: string)
    ensures r == CATALOGUE_URL + "page-" + NatToString(n) + ".html"
  {
    if n == 1 then CATALOGUE_URL + "page-1.html"
    else CATALOGUE_URL + "page-" + NatToString(n) + ".html"
  }

  /** Different page numbers give different addresses. */
  lemma PageUrlInjective(m: nat, n: nat)
    ensures PageUrl(m) == PageUrl(n) ==> m == n
  {
    if PageUrl(m) == PageUrl(n) {
      var pre := CATALOGUE_URL + "page-";
      var a := NatToString(m);
      var b := NatToString(n);
      assert |pre + a + ".html"| == |pre + b + ".html"|;
      assert a == (pre + a + ".html")[|pre|..|pre| + |a|];
      assert b == (pre + b + ".html")[|pre|..|pre| + |b|];
      NatToStringInjective(m, n);
    }
  }

  /** The listing addresses `collect_book_urls(numPages)` requests, in
      order; no page is requested twice. (A negative page count requests
      nothing, as the empty `range` does.) */
  function PageRequests(numPages: nat): (r: seq<string>)
    ensures |r| == numPages
    ensures forall i :: 0 <= i < numPages ==> r[i] == PageUrl(i + 1)
    ensures forall i, j :: 0 <= i < j < numPages ==> r[i] != r[j]
    decreases numPages
  {
    if numPages == 0 then []
    else
      var r := PageRequests(numPages - 1) + [PageUrl(numPages)];
      DistinctPages(r);
      r
  }

  /** Addresses of consecutive page numbers are pairwise distinct. */
  lemma DistinctPages(r: seq<string>)
    requires forall i :: 0 <= i < |r| ==> r[i] == PageUrl(i + 1)
    ensures forall i, j :: 0 <= i < j < |r| ==> r[i] != r[j]
  {
    forall i, j | 0 <= i < j < |r|
      ensures r[i] != r[j]
    {
      assert r[i] == PageUrl(i + 1) && r[j] == PageUrl(j + 1);
      PageUrlInjective(i + 1, j + 1);
    }
  }

  /** A link on a listing page made absolute: every non-overlapping
      `"../"` is removed, then the catalogue root is put in front. */
  function ResolveHref(href: string): (r: string)
    ensures IsPrefix(CATALOGUE_URL, r)
    ensures |r| <= |CATALOGUE_URL| + |href|
    ensures !Contains(href, PARENT_DIR) ==> r == CATALOGUE_URL + href
  {
    CATALOGUE_URL + Replace(href, PARENT_DIR, "")
  }

  /** A link of the form `../../x`, with no `"../"` in `x`, resolves to the
      catalogue root followed by `x`. */
  lemma ResolveRelativeHref(k: nat, rest: string)
    requires !Contains(rest, PARENT_DIR)
    ensures ResolveHref(Repeat(PARENT_DIR, k) + rest) == CATALOGUE_URL + rest
  {
    ReplaceLeadingRepeats(PARENT_DIR, "", k, rest);
    RepeatEmpty(k);
    assert Replace(rest, PARENT_DIR, "") == rest;
    assert Replace(Repeat(PARENT_DIR, k) + rest, PARENT_DIR, "") == "" + rest;
    assert "" + rest == rest;
  }

  lemma {:induction false} RepeatEmpty(k: nat)
    ensures Repeat("", k) == ""
  {
    if k > 0 {
      RepeatEmpty(k - 1);
    }
  }

  // ------------------------------------------------------- listing pages

  /** An `<a>` tag and its `href` attribute, if it has one. */
  datatype Anchor = Anchor(href: Option<string>)

  /** An `<h3>` tag and the first `<a>` inside it, if any. */
  datatype Heading = Heading(link: Option<Anchor>)

  /** An `<article class="product_pod">` and the first `<h3>` inside it. */
  datatype Article = Article(heading: Option<Heading>)

  /** A fetched listing page: its product articles in document order. */
  datatype Listing = Listing(articles: seq<Article>)

  /** The link of an article that has all of its parts. */
  function Href(a: Article): Option<string> {
    if a.heading.Some? && a.heading.value.link.Some? then a.heading.value.link.value.href
    else None
  }

  /** The book address one article contributes. An article without an
      `<h3>` raises (`None.find`), one whose `<h3>` has no `<a>` is
      skipped, and an `<a>` without `href` raises a `KeyError`. */
  function ArticleUrl(a: Article): (r: Result<Option<string>, Exception>)
    ensures r.Success? && r.value.Some? <==> Href(a).Some?
    ensures Href(a).Some? ==> r == Success(Some(ResolveHref(Href(a).value)))
    ensures r.Failure? <==> a.heading.None? || (a.heading.value.link.Some? && a.heading.value.link.value.href.None?)
  {
    match a.heading
    case None => Failure(AttributeError("find"))
    case Some(h) =>
      match h.link
      case None => Success(None)
      case Some(anchor) =>
        match anchor.href
        case None => Failure(KeyError("href"))
        case Some(href) => Success(Some(ResolveHref(href)))
  }

  function ArticleLinks(a: Article): Result<seq<string>, Exception> {
    AsSeq(ArticleUrl(a))
  }

  /** The book addresses one listing page contributes, in document order. */
  function ListingUrls(page: Listing): (r: Result<seq<string>, Exception>)
    ensures r.Failure? <==> exists i :: 0 <= i < |page.articles| && ArticleUrl(page.articles[i]).Failure?
    ensures r.Success? ==> forall u :: u in r.value ==> IsPrefix(CATALOGUE_URL, u)
  {
    var r := FlatMap(ArticleLinks, page.articles);
    if r.Success? then
      assert forall u :: u in r.value ==> IsPrefix(CATALOGUE_URL, u) by {
        FlatMapValue(ArticleLinks, page.articles);
        forall u | u in r.value
          ensures IsPrefix(CATALOGUE_URL, u)
        {
          ConcatMembers(Outputs(ArticleLinks, page.articles), u);
        }
      }
      r
    else r
  }

  /** A page whose every article carries a link yields exactly one address
      per article, in the same order. */
  lemma LinkedListing(page: Listing)
    requires forall i :: 0 <= i < |page.articles| ==> Href(page.articles[i]).Some?
    ensures ListingUrls(page).Success?
    ensures |ListingUrls(page).value| == |page.articles|
    ensures forall i :: 0 <= i < |page.articles| ==>
              ListingUrls(page).value[i] == ResolveHref(Href(page.articles[i]).value)
  {
    var outs := Outputs(ArticleLinks, page.articles);
    FlatMapValue(ArticleLinks, page.articles);
    ConcatSingletons(outs);
  }

  // ------------------------------------------------------------ the crawl

  /** What one listing response contributes; a failed fetch contributes
      nothing. */
  function PageLinks(response: Option<Listing>): (r: Result<seq<string>, Exception>)
    ensures response.None? ==> r == Success([])
    ensures response.Some? ==>
              (r.Failure? <==> exists i :: 0 <= i < |response.value.articles| && ArticleUrl(response.value.articles[i]).Failure?)
    ensures r.Success? ==> forall u :: u in r.value ==> IsPrefix(CATALOGUE_URL, u)
  {
    match response
    case None => Success([])
    case Some(page) => ListingUrls(page)
  }

  /** `collect_book_urls`: `responses[i]` is the response to
      `PageRequests(|responses|)[i]`. Since those addresses are pairwise
      distinct, any fetch function (address to optional page) gives such a
      sequence, so nothing is lost by taking the responses as input. The
      addresses of all fetched pages are concatenated in page order,
      without deduplication or sorting. */
  function CollectBookUrls(responses: seq<Option<Listing>>): (r: Result<seq<string>, Exception>)
    ensures r.Failure? <==> exists i :: 0 <= i < |responses| && PageLinks(responses[i]).Failure?
    ensures r.Success? ==> forall u :: u in r.value ==> IsPrefix(CATALOGUE_URL, u)
    ensures (forall i :: 0 <= i < |responses| ==> responses[i].None?) ==> r == Success([])
  {
    var r := FlatMap(PageLinks, responses);
    var outs := Outputs(PageLinks, responses);
    if r.Success? then
      FlatMapValue(PageLinks, responses);
      assert forall u :: u in r.value ==> IsPrefix(CATALOGUE_URL, u) by {
        forall u | u in r.value
          ensures IsPrefix(CATALOGUE_URL, u)
        {
          ConcatMembers(outs, u);
          var i :| 0 <= i < |outs| && u in outs[i];
          assert PageLinks(responses[i]).Success?;
        }
      }
      assert (forall i :: 0 <= i < |responses| ==> responses[i].None?) ==> r.value == [] by {
        if forall i :: 0 <= i < |responses| ==> responses[i].None? {
          ConcatOfEmpties(outs);
        }
      }
      r
    else r
  }

  /** Crawling pages `a` then pages `b` concatenates their addresses, and
      the first exception wins. */
  lemma CollectAppend(a: seq<Option<Listing>>, b: seq<Option<Listing>>)
    ensures CollectBookUrls(a + b) == Then(CollectBookUrls(a), CollectBookUrls(b))
  {
    FlatMapAppend(PageLinks, a, b);
  }

  /** A listing page whose fetch failed changes nothing. */
  lemma CollectSkipsFailedPage(a: seq<Option<Listing>>, b: seq<Option<Listing>>)
    ensures CollectBookUrls(a + [None] + b) == CollectBookUrls(a + b)
  {
    CollectAppend(a + [None], b);
    CollectAppend(a, [None]);
    CollectAppend(a, b);
    assert CollectBookUrls([None]) == Success([]);
    match CollectBookUrls(a)
    case Failure(e) =>
    case Success(x) =>
      assert x + [] == x;
  }

  /** One fetched page of two linked articles gives their two addresses. */
  lemma OnePageOfTwo(h1: string, h2: string)
    ensures CollectBookUrls([Some(Listing([Linked(h1), Linked(h2)]))]) == Success([ResolveHref(h1), ResolveHref(h2)])
  {
    var p := Some(Listing([Linked(h1), Linked(h2)]));
    LinkedListing(p.value);
    assert Href(Linked(h1)) == Some(h1) && Href(Linked(h2)) == Some(h2);
    var v := ListingUrls(p.value).value;
    assert v == [v[0], v[1]];
    FlatMapOne(PageLinks, p);
  }

  /** Two fetched pages of two linked articles each give four addresses:
      page 1's before page 2's, left to right within a page, duplicates
      kept. */
  lemma TwoPagesOfTwo(h1: string, h2: string, h3: string, h4: string)
    ensures CollectBookUrls([Some(Listing([Linked(h1), Linked(h2)])), Some(Listing([Linked(h3), Linked(h4)]))])
         == Success([ResolveHref(h1), ResolveHref(h2), ResolveHref(h3), ResolveHref(h4)])
  {
    var p1 := Some(Listing([Linked(h1), Linked(h2)]));
    var p2 := Some(Listing([Linked(h3), Linked(h4)]));
    OnePageOfTwo(h1, h2);
    OnePageOfTwo(h3, h4);
    CollectAppend([p1], [p2]);
    assert [p1] + [p2] == [p1, p2];
    assert [ResolveHref(h1), ResolveHref(h2)] + [ResolveHref(h3), ResolveHref(h4)]
        == [ResolveHref(h1), ResolveHref(h2), ResolveHref(h3), ResolveHref(h4)];
  }

  /** An article whose heading links to `href`. */
  function Linked(href: string): Article {
    Article(Some(Heading(Some(Anchor(Some(href))))))
  }
}
