# books.toscrape.com scraper, modelled in Dafny

This project models the pure core of a small scraper for the practice shop
books.toscrape.com. The scraper works in three steps:

1. **Collect book addresses.** It requests catalogue listing pages 1..10.
   On every fetched page it takes the link of each product article and
   makes it absolute by deleting each non-overlapping `"../"`, in one
   left-to-right pass, and prefixing the catalogue root.
2. **Parse each book page** into a 14-field record. Each field comes from
   one anchor on the page and falls back to a default when the anchor is
   missing:
   - title and category;
   - star rating, through the word-to-number rating map;
   - the product-information table: UPC, product type, three prices,
     availability text and review count;
   - description.
3. **Build the table.** Records of the pages that were fetched are kept,
   in reference order. Each record becomes one row in a fixed 14-column
   order, and the columns are renamed to Russian labels.

What is modelled:
- Fetching is abstract. A listing or book page is `Some(parsed page)` or
  `None` when the request failed. The parsed page holds exactly the parts
  the scraper queries.
- A Python exception that escapes is a `Failure`: an `AttributeError`
  from `None.find` or `None.get_text`, a `KeyError` from a missing
  `href`, or a `ValueError` from `float` or `int`. Failures propagate the
  way the uncaught exception would end the run.
- One generic fold, `Folds.FlatMap`, is every loop that appends:
  - articles of a listing page;
  - listing pages of the crawl;
  - book references of the main loop.

  The first failure aborts the fold. Otherwise the outputs are
  concatenated in order.
- Text operations are stated over `seq<char>`:
  - `str.replace` is a single left-to-right pass;
  - `re.search(r"[\d.]+")` takes the first maximal run of ASCII digits
    and dots;
  - `re.search(r"\((\d+) available\)")` takes the leftmost match, with
    greedy digits;
  - `float` of such a run is an exact `real`, accepted iff the run has at
    most one dot and at least one digit;
  - `int` accepts an optional sign and ASCII digits.

Two consequences of the code are worth stating. The number of reviews
is whatever `int` makes of the table cell: `"007"` gives 7, `"+5"` gives
5, and `"-3"` gives a negative count of -3, while a cell `int` rejects
raises. A missing key gives 0. A price, by contrast, is never negative:
the run the price regex extracts holds only digits and dots, so it is
either a non-negative number or a run `float` rejects, and such a
malformed run raises rather than defaulting to 0.

## Model

| member | source | states |
|---|---|---|
| Text.Replace | web_scraping.py:102 | `str.replace` leaves a string without the pattern unchanged and never lengthens it when deleting |
| Text.ReplaceLeadingRepeats | web_scraping.py:102 | deleting `"../"` from k leading copies followed by a tail gives the tail with its own copies deleted |
| Text.ReplaceIsSinglePass | web_scraping.py:102 | `"..././"` loses only its non-overlapping `"../"`, leaving `"../"`: the deletion is one pass, not repeated to a fixpoint |
| Text.ContainsIff | web_scraping.py:170 | the `in` test holds iff the needle occurs at some index |
| Text.NatToString | web_scraping.py:89 | the decimal page number in an f-string is non-empty, all digits, with no leading zero unless the number is 0 |
| Text.ParseNatToString | web_scraping.py:89 | reading the decimal form of n back gives n |
| Text.NatToStringInjective | web_scraping.py:89 | different numbers have different decimal forms |
| Text.NatToStringOfDigits | web_scraping.py:172 | a canonical digit string is the decimal form of its value |
| Text.ParseIntToString | web_scraping.py:174 | `int` reads back the decimal form of every integer, sign included |
| Text.LeadingZeros | web_scraping.py:174 | leading zeros do not change the value of a digit string |
| Text.DigitsSplit | web_scraping.py:174 | every non-empty digit string is some zeros followed by the decimal form of its value |
| Text.ParseIntOfParts | web_scraping.py:174 | `int` reads a sign, any number of leading zeros and a decimal form n as n, negated after `-` |
| Text.ParseIntAccepts | web_scraping.py:174 | `int` accepts a text iff it is an optional sign, zeros and a decimal form |
| Catalogue.PageUrl | web_scraping.py:86-89 | the special page-1 branch gives the same address as the general `page-{n}.html` pattern |
| Catalogue.PageUrlInjective | web_scraping.py:85-89 | different page numbers give different listing addresses |
| Catalogue.PageRequests | web_scraping.py:85-89 | the crawl requests exactly pages 1..numPages, in order, none twice |
| Catalogue.DistinctPages | web_scraping.py:85-89 | addresses of consecutive page numbers are pairwise distinct |
| Catalogue.ResolveHref | web_scraping.py:100-102 | every resolved address starts with the catalogue root; a link without `"../"` is appended to it verbatim |
| Catalogue.ResolveRelativeHref | web_scraping.py:102 | a link `../../x`, with no `"../"` left in x, resolves to the catalogue root followed by x |
| Catalogue.ArticleUrl | web_scraping.py:98-103 | an article contributes an address iff it has a linked `<a>` with an `href`; a missing `<h3>` or a missing `href` raises; a missing `<a>` is skipped |
| Catalogue.ListingUrls | web_scraping.py:96-103 | a listing page raises iff one of its articles raises; every address it yields is under the catalogue root |
| Catalogue.LinkedListing | web_scraping.py:96-103 | a page whose articles all carry links yields one address per article, in document order |
| Catalogue.PageLinks | web_scraping.py:91-103 | a listing whose fetch failed gives no addresses; a fetched one raises iff one of its articles raises; every address is under the catalogue root |
| Catalogue.CollectBookUrls | web_scraping.py:79-108 | the crawl raises iff some fetched page raises; every address is under the catalogue root; with no page fetched it yields nothing |
| Catalogue.CollectAppend | web_scraping.py:85-105 | crawling pages a then b concatenates their address lists, with no dedup or sorting |
| Catalogue.CollectSkipsFailedPage | web_scraping.py:91-93 | a listing page whose fetch failed contributes nothing |
| Catalogue.OnePageOfTwo | web_scraping.py:96-103 | one fetched page of two linked articles gives their two resolved addresses, left to right |
| Catalogue.TwoPagesOfTwo | web_scraping.py:85-105 | two pages of two linked articles give four addresses, page by page, left to right |
| Ratings.Stars | web_scraping.py:43-49 | a rating is 0..5 stars, and 0 only when unrated |
| Ratings.RatingOfToken | web_scraping.py:141 | a class token maps to its `RATING_MAP` value, or to 0 when it is not a key |
| Ratings.TokenRoundTrip | web_scraping.py:43-49 | the rating map is a bijection between the five words and 1..5 stars |
| Ratings.OtherTokensHead | web_scraping.py:140 | the filtered class list is empty iff every token is `star-rating`; its head is the first other token |
| Ratings.RatingOfMarker | web_scraping.py:137-143 | no star tag, or only the `star-rating` class, gives 0; otherwise the first other class token decides the rating |
| Ratings.FirstTokenDecides | web_scraping.py:140-141 | an unknown first token gives 0 even when a valid word follows |
| InfoTable.DescribesStep | web_scraping.py:149-152 | adding one complete row updates the map so the last row with each header holds that header's value |
| InfoTable.InfoMap | web_scraping.py:148-152 | reading the rows raises iff some row lacks a `<th>` or `<td>`; otherwise the keys are exactly the headers and each maps to its last row's cell |
| InfoTable.LastDuplicateWins | web_scraping.py:152-154 | a repeated header keeps the value of its last row; an absent key reads as the default |
| Prices.RunLength | web_scraping.py:160 | the run of digits and dots at the start of a string is maximal |
| Prices.FindRun | web_scraping.py:160 | there is no match iff the text has no digit or dot; otherwise the match is the first maximal run |
| Prices.FirstRunUnique | web_scraping.py:160 | the first maximal run is unique in position and content |
| Prices.DotFreeRun | web_scraping.py:161 | a run without a dot is a number iff it is non-empty |
| Prices.DottedRun | web_scraping.py:161 | a run with a dot is a number iff there is no second dot and it is not the lone dot |
| Prices.DecimalValue | web_scraping.py:161 | `float` of a run succeeds iff the run has at most one dot and at least one digit, and its value is never negative |
| Prices.DecimalValueOfDigits | web_scraping.py:161 | a digit string reads as its integer value |
| Prices.DecimalValueOfParts | web_scraping.py:161 | `whole.frac` reads as whole plus frac over a power of ten |
| Prices.ParsePrice | web_scraping.py:158-161 | text without digit or dot gives 0.0; otherwise the first run is read by `float`, and a run it rejects raises; a price is never negative |
| Prices.ParsePriceSterling | web_scraping.py:159 | `"£51.77"` gives 51.77 |
| Prices.ParsePriceMissingKey | web_scraping.py:163-165 | the default `"0"` for a missing price key gives 0.0 |
| Prices.ParsePriceLoneDot | web_scraping.py:160-161 | a price whose only run is `"."` raises |
| Stock.AvailabilityOf | web_scraping.py:169-170 | the status is "In stock" iff the text contains `In stock` |
| Stock.DigitRun | web_scraping.py:171 | the `\d+` group is the maximal digit run at its position |
| Stock.AvailableAtIff | web_scraping.py:171 | the greedy matcher finds digits d at i iff `(d available)` with d a maximal non-empty digit run starts at i |
| Stock.FindAvailable | web_scraping.py:171 | the search returns the leftmost position where the pattern matches, and nothing when none does |
| Stock.NumAvailable | web_scraping.py:171-172 | no match gives 0; otherwise the count is the value of the leftmost match's digits |
| Stock.InStockExample | web_scraping.py:168-172 | `"In stock (22 available)"` is in stock with 22 copies |
| Stock.OutOfStockExample | web_scraping.py:169-172 | `"Out of stock"` is out of stock with 0 copies |
| BookPage.Title | web_scraping.py:124-125 | no product block gives ""; a block without `<h1>` raises, and only then; otherwise the title is the heading's text |
| BookPage.Category | web_scraping.py:128-134 | the third breadcrumb item when there are more than two; "" without a breadcrumb or with two items or fewer; a non-empty category is one of the items |
| BookPage.ReviewCount | web_scraping.py:174 | a missing key gives 0; a present cell gives a count iff `int` accepts it; a sign, leading zeros and the decimal form of n give n, negated after `-` |
| BookPage.ReviewCountExamples | web_scraping.py:174 | `"007"` gives 7, `"+5"` gives 5, `"-3"` gives -3, `"1.0"` raises, and a missing key gives 0 |
| BookPage.PriceParsesIff | web_scraping.py:158-161 | a price parses iff its first run, if any, is one `float` accepts |
| BookPage.ExtractBook | web_scraping.py:121-191 | the page raises iff its heading, a table row, a price run or the review cell is malformed; otherwise each of the 14 fields is its anchor's value or default, and `price` equals the tax-inclusive price |
| BookPage.ParseBookPage | web_scraping.py:115-119 | a failed fetch gives no record; a fetched page gives a record for its own address unless it raises |
| BookPage.EmptyPageDefaults | web_scraping.py:121-189 | a page with no anchors gives the all-defaults record |
| Pipeline.ScrapeRaises | web_scraping.py:209-215 | the main loop raises iff some fetched book page raises |
| Pipeline.ScrapeIsKept | web_scraping.py:211-214 | without an exception the loop's records are exactly those of the fetched pages that parse, in reference order |
| Pipeline.ScrapedRecordsSound | web_scraping.py:211-214 | every kept record belongs to a fetched reference and has price equal to the tax-inclusive price |
| Pipeline.ScrapeAppend | web_scraping.py:211-214 | the records of a then b are a's records followed by b's |
| Pipeline.ScrapeAllFetched | web_scraping.py:211-214 | when every fetch succeeds there is one record per reference, in order, each carrying its reference's address |
| Pipeline.FailedFetchDropsOne | web_scraping.py:212-214 | a fetch that fails removes exactly that reference's record, at the position given by the records kept before it, and leaves the others in order |
| Pipeline.FetchedGivesOne | web_scraping.py:212-214 | in a run that does not raise, a fetched reference gives exactly one record |
| Pipeline.HeadersMatchColumns | web_scraping.py:220-254 | there are 14 distinct column keys and one label per column |
| Pipeline.TableRow | web_scraping.py:220-236 | cell i of a row is the record's value under the key `COLUMNS[i]` |
| Pipeline.Main | web_scraping.py:198-254 | the run raises iff the crawl raises or some fetched book page raises; the table carries the 14 renamed headers, and every row has 14 cells |
| Pipeline.MainRows | web_scraping.py:205-236 | the table has one row per kept record, in reference order, and row i lays out the i-th kept record in column order |
| Pipeline.MainAllFetched | web_scraping.py:205-236 | when every book page is fetched, row j exists for reference j and its last cell is that reference's address as text |
| Folds.FlatMap | web_scraping.py:97-103 | an appending loop raises iff some step raises, and the exception is the first step's |
| Folds.FlatMapValue | web_scraping.py:97-103 | without an exception the loop's result is its steps' outputs concatenated in order |
| Folds.FlatMapAppend | web_scraping.py:211-214 | looping over a + b is looping over a then over b |
| Folds.FlatMapDropOne | web_scraping.py:212-214 | a step that outputs one item, replaced by one that outputs none, removes exactly that item |

## Left out

- `get_page` is not modelled. This covers the HTTP request, the
  fake-agent header, the timeout and the status check. Its outcome is an
  input: `Some(page)` or `None`.
- BeautifulSoup is not modelled. Every `find`, `find_all`,
  `find_next_sibling` and `get_text(strip=True)` result is part of the
  input page. Whitespace stripping and HTML structure are out of scope.
- `polite_sleep`, `tqdm` progress bars and every `print` are left out.
  They only add delay and console output.
- Building the `pandas` frame and `to_excel` are left out. The model stops
  at the header row and the list of 14-cell rows.
- Prices.DecimalValue gives exact real numbers, not IEEE doubles. It
  therefore does not model binary rounding or the overflow of a very long
  run to `inf`, and it handles only the
  digit-and-dot texts the price regex can produce.
- BookPage.ReviewCount does not accept what Python's `int` also allows:
  surrounding whitespace, underscores between digits, and non-ASCII
  digits. Its contract is weaker than `int` there.
- Stock.NumAvailable: Python 3.11 and later make `int` raise a
  `ValueError` for a digit string longer than 4300 digits
  (`sys.int_max_str_digits`); the model returns the value instead.
- BookPage.ReviewCount: likewise returns the value of a cell longer than
  4300 digits, where Python 3.11 and later raise a `ValueError`.
- Prices.FindRun and Stock.DigitRun treat only ASCII `0`-`9` as `\d`.
  Python's `\d` also matches other Unicode decimal digits.
- `collect_book_urls` takes the page count as an argument. A negative
  count is not modelled; the count is a `nat`, and the source's 10 is
  `NUM_CATALOGUE_PAGES`.
- The main loop's truthiness test on the record is not modelled
  separately. A built record always has 14 keys, so it is always kept.
- The model does not say that requesting the same address twice gives
  the same response. Each reference carries its own fetch outcome.
