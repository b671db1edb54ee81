/** Step 3 of the scraper, `main`: crawl the listing pages, parse every
    book reference in order keeping only the pages that could be fetched,
    and lay the records out in the fixed 14-column order. */
module Pipeline {
  import opened Wrappers
  import opened Exceptions
  import opened Folds
  import opened Catalogue
  import opened BookPage
  import opened Ratings
  import opened Stock

  /** One book reference and the outcome of fetching it. */
  datatype Fetched = Fetched(url: string, response: Option<Page>)

  function BookRows(f: Fetched): Result<seq<Book>, Exception> {
    AsSeq(ParseBookPage(f.url, f.response))
  }

  /** The loop of `main` over the references: every fetched page gives its
      record, in reference order; a failed fetch gives none; the first page
      that raises aborts the run. */
  function ScrapeBooks(fetched: seq<Fetched>): Result<seq<Book>, Exception> {
    FlatMap(BookRows, fetched)
  }

  /** The loop raises exactly when some fetched page raises. */
  lemma ScrapeRaises(fetched: seq<Fetched>)
    ensures ScrapeBooks(fetched).Failure? <==>
            exists i :: 0 <= i < |fetched| && fetched[i].response.Some? && PageRaises(fetched[i].response.value)
  {
    assert forall i :: 0 <= i < |fetched| && BookRows(fetched[i]).Failure? ==>
             fetched[i].response.Some? && PageRaises(fetched[i].response.value);
  }

  /** The records the main loop keeps, defined reference by reference: a
      fetched page that parses gives its record, anything else gives
      none. */
  function KeptRecords(fetched: seq<Fetched>): seq<Book>
    decreases |fetched|
  {
    if |fetched| == 0 then []
    else
      var f := fetched[0];
      var head := if f.response.Some? && ExtractBook(f.url, f.response.value).Success?
                  then [ExtractBook(f.url, f.response.value).value] else [];
      head + KeptRecords(fetched[1..])
  }

  /** When no page raises, the loop's records are exactly the kept
      records, in reference order. */
  lemma {:induction false} ScrapeIsKept(fetched: seq<Fetched>)
    requires ScrapeBooks(fetched).Success?
    ensures ScrapeBooks(fetched).value == KeptRecords(fetched)
    decreases |fetched|
  {
    if |fetched| > 0 {
      var rest := fetched[1..];
      assert BookRows(fetched[0]).Success?;
      assert FlatMap(BookRows, rest).Success?;
      ScrapeIsKept(rest);
    }
  }

  /** Every record comes from a reference whose fetch succeeded, carries
      that reference, and has its price equal to its price incl. tax. */
  lemma ScrapedRecordsSound(fetched: seq<Fetched>, b: Book)
    requires ScrapeBooks(fetched).Success? && b in ScrapeBooks(fetched).value
    ensures exists i :: 0 <= i < |fetched| && fetched[i].response.Some? && b.bookUrl == fetched[i].url
    ensures b.price == b.priceInclTax
  {
    var outs := Outputs(BookRows, fetched);
    FlatMapValue(BookRows, fetched);
    ConcatMembers(outs, b);
    var i :| 0 <= i < |outs| && b in outs[i];
    RecordOfReference(fetched[i], b);
  }

  /** The record a reference contributes belongs to it. */
  lemma RecordOfReference(f: Fetched, b: Book)
    requires b in OutputOf(BookRows(f))
    ensures f.response.Some? && b.bookUrl == f.url && b.price == b.priceInclTax
  {
  }

  /** Parsing references `a` then `b` concatenates their records; the
      first exception wins. */
  lemma ScrapeAppend(a: seq<Fetched>, b: seq<Fetched>)
    ensures ScrapeBooks(a + b) == Then(ScrapeBooks(a), ScrapeBooks(b))
  {
    FlatMapAppend(BookRows, a, b);
  }

  /** When every reference could be fetched, there is one record per
      reference, in reference order. */
  lemma ScrapeAllFetched(fetched: seq<Fetched>)
    requires forall i :: 0 <= i < |fetched| ==> fetched[i].response.Some?
    requires ScrapeBooks(fetched).Success?
    ensures |ScrapeBooks(fetched).value| == |fetched|
    ensures forall i :: 0 <= i < |fetched| ==>
              Success(ScrapeBooks(fetched).value[i]) == ExtractBook(fetched[i].url, fetched[i].response.value)
  {
    var outs := Outputs(BookRows, fetched);
    forall i | 0 <= i < |outs|
      ensures |outs[i]| == 1
    {
      assert BookRows(fetched[i]).Success?;
    }
    FlatMapValue(BookRows, fetched);
    ConcatSingletons(outs);
  }

  /** A fetch that fails instead of succeeding removes exactly that
      reference's record and leaves every other record as it was. */
  lemma FailedFetchDropsOne(fetched: seq<Fetched>, k: nat)
    requires k < |fetched| && fetched[k].response.Some?
    requires ScrapeBooks(fetched).Success?
    ensures var books := ScrapeBooks(fetched).value;
            var j := |KeptRecords(fetched[..k])|;
            j < |books| && ScrapeBooks(fetched[k := Fetched(fetched[k].url, None)]) == Success(books[..j] + books[j + 1..])
  {
    var lost := Fetched(fetched[k].url, None);
    assert BookRows(lost) == Success([]);
    FetchedGivesOne(fetched, k);
    FlatMapDropOne(BookRows, fetched, k, lost);
    var out := FlatMap(BookRows, fetched).value;
    var before := FlatMap(BookRows, fetched[..k]);
    assert |before.value| < |out| && FlatMap(BookRows, fetched[k := lost]) == Success(out[..|before.value|] + out[|before.value| + 1..]);
    FlatMapPrefix(BookRows, fetched, k);
    ScrapeIsKept(fetched[..k]);
    assert before.value == KeptRecords(fetched[..k]);
  }

  /** In a run that does not raise, a fetched reference gives one record. */
  lemma FetchedGivesOne(fetched: seq<Fetched>, k: nat)
    requires k < |fetched| && fetched[k].response.Some?
    requires ScrapeBooks(fetched).Success?
    ensures |OutputOf(BookRows(fetched[k]))| == 1
  {
    var page := fetched[k].response.value;
    ScrapeRaises(fetched);
    assert !PageRaises(page);
    assert ExtractBook(fetched[k].url, page).Success?;
  }

  // -------------------------------------------------------------- output

  /** The column order `main` gives the table. */
  const COLUMNS: seq<string> := [
    "title", "category", "rating", "price", "price_excl_tax", "price_incl_tax", "tax",
    "availability", "num_available", "num_reviews", "upc", "product_type", "description", "book_url"]

  /** The labels the columns are renamed to, position by position. */
  const HEADERS: seq<string> := [
    "Название", "Категория", "Рейтинг (1-5)", "Цена (£)", "Цена без налога (£)",
    "Цена с налогом (£)", "Налог (£)", "Наличие", "Кол-во на складе", "Кол-во отзывов",
    "UPC", "Тип продукта", "Описание", "URL страницы"]

  /** The renaming is one label per column. */
  lemma HeadersMatchColumns()
    ensures |HEADERS| == |COLUMNS| == 14
    ensures forall i, j :: 0 <= i < j < |COLUMNS| ==> COLUMNS[i] != COLUMNS[j]
  {
  }

  /** A value in the output table. */
  datatype Cell = Str(text: string) | Integer(integer: int) | Decimal(decimal: real)

  /** The record as the dictionary `parse_book_page` returns: the value
      stored under each key. */
  function Field(b: Book, key: string): Option<Cell> {
    if key == "title" then Some(Str(b.title))
    else if key == "category" then Some(Str(b.category))
    else if key == "rating" then Some(Integer(Stars(b.rating)))
    else if key == "price" then Some(Decimal(b.price))
    else if key == "price_excl_tax" then Some(Decimal(b.priceExclTax))
    else if key == "price_incl_tax" then Some(Decimal(b.priceInclTax))
    else if key == "tax" then Some(Decimal(b.tax))
    else if key == "availability" then Some(Str(b.availability.Label()))
    else if key == "num_available" then Some(Integer(b.numAvailable))
    else if key == "num_reviews" then Some(Integer(b.numReviews))
    else if key == "upc" then Some(Str(b.upc))
    else if key == "product_type" then Some(Str(b.productType))
    else if key == "description" then Some(Str(b.description))
    else if key == "book_url" then Some(Str(b.bookUrl))
    else None
  }

  /** A record laid out as one table row: cell `i` is the record's value
      under column `i`. */
  function TableRow(b: Book): (row: seq<Cell>)
    ensures |row| == |COLUMNS|
    ensures forall i :: 0 <= i < |COLUMNS| ==> Field(b, COLUMNS[i]) == Some(row[i])
  {
    [Str(b.title), Str(b.category), Integer(Stars(b.rating)), Decimal(b.price),
     Decimal(b.priceExclTax), Decimal(b.priceInclTax), Decimal(b.tax),
     Str(b.availability.Label()), Integer(b.numAvailable), Integer(b.numReviews),
     Str(b.upc), Str(b.productType), Str(b.description), Str(b.bookUrl)]
  }

  /** The table handed to the spreadsheet writer. */
  datatype Table = Table(headers: seq<string>, rows: seq<seq<Cell>>)

  /** Pairs each reference with the response to its fetch. */
  function Zip(urls: seq<string>, responses: seq<Option<Page>>): (fetched: seq<Fetched>)
    requires |urls| == |responses|
    ensures |fetched| == |urls|
    ensures forall i :: 0 <= i < |urls| ==> fetched[i] == Fetched(urls[i], responses[i])
  {
    seq(|urls|, i requires 0 <= i < |urls| => Fetched(urls[i], responses[i]))
  }

  /** `main`: `listings[i]` answers the request for listing page `i + 1`,
      and `details[j]` the request for the `j`-th reference collected. */
  function Main(listings: seq<Option<Listing>>, details: seq<Option<Page>>): (r: Result<Table, Exception>)
    requires |listings| == NUM_CATALOGUE_PAGES
    requires CollectBookUrls(listings).Success? ==> |details| == |CollectBookUrls(listings).value|
    ensures r.Failure? <==>
              CollectBookUrls(listings).Failure? ||
              exists j :: 0 <= j < |details| && details[j].Some? && PageRaises(details[j].value)
    ensures r.Success? ==> r.value.headers == HEADERS
    ensures r.Success? ==> forall i :: 0 <= i < |r.value.rows| ==> |r.value.rows[i]| == |COLUMNS|
  {
    match CollectBookUrls(listings)
    case Failure(e) => Failure(e)
    case Success(urls) =>
      var fetched := Zip(urls, details);
      assert forall j :: 0 <= j < |details| ==> fetched[j].response == details[j];
      ScrapeRaises(fetched);
      match ScrapeBooks(fetched)
      case Failure(e) => Failure(e)
      case Success(books) => Success(Table(HEADERS, TableRows(books)))
  }

  function TableRows(books: seq<Book>): (rows: seq<seq<Cell>>)
    ensures |rows| == |books|
    ensures forall i :: 0 <= i < |books| ==> rows[i] == TableRow(books[i])
  {
    seq(|books|, i requires 0 <= i < |books| => TableRow(books[i]))
  }

  /** For any fetch outcomes, the table has one row per kept record, in
      reference order: row `i` lays out the `i`-th record of a fetched
      page that parsed. */
  lemma MainRows(listings: seq<Option<Listing>>, details: seq<Option<Page>>)
    requires |listings| == NUM_CATALOGUE_PAGES
    requires CollectBookUrls(listings).Success? && |details| == |CollectBookUrls(listings).value|
    requires Main(listings, details).Success?
    ensures var kept := KeptRecords(Zip(CollectBookUrls(listings).value, details));
            var rows := Main(listings, details).value.rows;
            |rows| == |kept| && forall i :: 0 <= i < |kept| ==> rows[i] == TableRow(kept[i])
  {
    var fetched := Zip(CollectBookUrls(listings).value, details);
    assert ScrapeBooks(fetched).Success?;
    ScrapeIsKept(fetched);
  }

  /** When every book page could be fetched, the table has one row per
      collected reference, in discovery order. */
  lemma MainAllFetched(listings: seq<Option<Listing>>, details: seq<Option<Page>>)
    requires |listings| == NUM_CATALOGUE_PAGES
    requires CollectBookUrls(listings).Success? && |details| == |CollectBookUrls(listings).value|
    requires forall j :: 0 <= j < |details| ==> details[j].Some?
    requires Main(listings, details).Success?
    ensures |Main(listings, details).value.rows| == |details|
    ensures forall j :: 0 <= j < |details| ==>
              Main(listings, details).value.rows[j][13] == Str(CollectBookUrls(listings).value[j])
  {
    var urls := CollectBookUrls(listings).value;
    var fetched := Zip(urls, details);
    assert ScrapeBooks(fetched).Success?;
    ScrapeAllFetched(fetched);
    var books := ScrapeBooks(fetched).value;
    forall j | 0 <= j < |details|
      ensures Main(listings, details).value.rows[j][13] == Str(urls[j])
    {
      assert books[j].bookUrl == urls[j];
    }
  }
}
