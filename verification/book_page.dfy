/** Step 2 of the scraper, `parse_book_page`: one fetched book page read
    into a fixed-shape record, each field taken from its anchor with a
    default when the anchor is missing. */
module BookPage {
  import opened Wrappers
  import opened Exceptions
  import opened Ratings
  import opened InfoTable
  import opened Prices
  import opened Stock
  import Text

  /** `<div class="product_main">` and the text of its first `<h1>`, if any. */
  datatype ProductMain = ProductMain(heading: Option<string>)

  /** What the scraper reads from a fetched book page, each part absent when
      its anchor is missing:
      - productMain: the product block and its heading;
      - breadcrumb: the texts of the `<li>` items of `ul.breadcrumb`;
      - starClasses: the class tokens of `p.star-rating`;
      - table: the rows of `table.table-striped`;
      - description: the text of the `<p>` that follows
        `div#product_description` inside `article.product_page` (absent when
        any of the three is missing, which all give the same default). */
  datatype Page = Page(
    productMain: Option<ProductMain>,
    breadcrumb: Option<seq<string>>,
    starClasses: Option<seq<string>>,
    table: Option<seq<Row>>,
    description: Option<string>)

  /** One row of the output table, in the column order of `main`. */
  datatype Book = Book(
    title: string,
    category: string,
    rating: Rating,
    price: real,
    priceExclTax: real,
    priceInclTax: real,
    tax: real,
    availability: Availability,
    numAvailable: nat,
    numReviews: int,
    upc: string,
    productType: string,
    description: string,
    bookUrl: string)

  const UPC: string := "UPC"
  const PRODUCT_TYPE: string := "Product Type"
  const PRICE_EXCL_TAX: string := "Price (excl. tax)"
  const PRICE_INCL_TAX: string := "Price (incl. tax)"
  const TAX: string := "Tax"
  const AVAILABILITY: string := "Availability"

  /** The title: "" without the product block; a block without `<h1>`
      raises (`None.get_text`). */
  function Title(main: Option<ProductMain>): (r: Result<string, Exception>)
    ensures r.Failure? <==> main == Some(ProductMain(None))
    ensures main.None? ==> r == Success("")
    ensures r.Success? && main.Some? ==> main.value.heading == Some(r.value)
  {
    match main
    case None => Success("")
    case Some(ProductMain(None)) => Failure(AttributeError("get_text"))
    case Some(ProductMain(Some(t))) => Success(t)
  }

  /** The category: the third breadcrumb item (Home > Books > category >
      title), or "" when there are fewer than three or no breadcrumb. */
  function Category(breadcrumb: Option<seq<string>>): (r: string)
    ensures breadcrumb.Some? && |breadcrumb.value| > 2 ==> r == breadcrumb.value[2]
    ensures breadcrumb.None? || |breadcrumb.value| <= 2 ==> r == ""
    ensures r != "" ==> breadcrumb.Some? && r in breadcrumb.value
  {
    if breadcrumb.Some? && |breadcrumb.value| > 2 then breadcrumb.value[2] else ""
  }

  /** The table value `parse_price` gets for `key`: "0" when absent. */
  function PriceText(info: map<string, string>, key: string): string {
    Lookup(info, key, "0")
  }

  const NUM_REVIEWS: string := "Number of reviews"

  /** `int(info.get("Number of reviews", 0))`: 0 when the key is absent,
      the signed value of a cell `int` accepts (a sign, leading zeros and
      digits), and a `ValueError` for any other cell. */
  function ReviewCount(info: map<string, string>): (r: Result<int, Exception>)
    ensures NUM_REVIEWS !in info ==> r == Success(0)
    ensures NUM_REVIEWS in info ==> (r.Success? <==> Text.ParseInt(info[NUM_REVIEWS]).Some?)
    ensures forall sign, k: nat, n: nat ::
              NUM_REVIEWS in info && Text.IsSign(sign) && info[NUM_REVIEWS] == sign + Text.Repeat("0", k) + Text.NatToString(n)
              ==> r == Success(Text.Signed(sign, n))
    ensures forall v: int :: NUM_REVIEWS in info && info[NUM_REVIEWS] == Text.IntToString(v) ==> r == Success(v)
  {
    if NUM_REVIEWS in info then
      var text := info[NUM_REVIEWS];
      assert forall sign, k: nat, n: nat :: Text.IsSign(sign) && text == sign + Text.Repeat("0", k) + Text.NatToString(n)
               ==> Text.ParseInt(text) == Some(Text.Signed(sign, n)) by {
        forall sign, k: nat, n: nat | Text.IsSign(sign) && text == sign + Text.Repeat("0", k) + Text.NatToString(n)
          ensures Text.ParseInt(text) == Some(Text.Signed(sign, n))
        {
          Text.ParseIntOfParts(sign, k, n);
        }
      }
      assert forall v: int :: text == Text.IntToString(v) ==> Text.ParseInt(text) == Some(v) by {
        forall v: int | text == Text.IntToString(v)
          ensures Text.ParseInt(text) == Some(v)
        {
          Text.ParseIntToString(v);
        }
      }
      match Text.ParseInt(text)
      case None => Failure(ValueError(text))
      case Some(v) => Success(v)
    else Success(0)
  }

  /** Cells that are not in canonical form: `int` drops leading zeros and a
      `+`, keeps a `-`, and rejects a decimal point. */
  lemma ReviewCountExamples()
    ensures ReviewCount(map[NUM_REVIEWS := "007"]) == Success(7)
    ensures ReviewCount(map[NUM_REVIEWS := "+5"]) == Success(5)
    ensures ReviewCount(map[NUM_REVIEWS := "-3"]) == Success(-3)
    ensures ReviewCount(map[NUM_REVIEWS := "1.0"]).Failure?
    ensures ReviewCount(map[]) == Success(0)
  {
    assert "007" == "" + Text.Repeat("0", 2) + Text.NatToString(7);
    Text.ParseIntOfParts("", 2, 7);
    assert "+5" == "+" + Text.Repeat("0", 0) + Text.NatToString(5);
    Text.ParseIntOfParts("+", 0, 5);
    assert "-3" == "-" + Text.Repeat("0", 0) + Text.NatToString(3);
    Text.ParseIntOfParts("-", 0, 3);
    assert !Text.IsDigit("1.0"[1]);
  }

  /** `float` accepts the first run of digits and dots of `raw`, if any. */
  ghost predicate PriceParses(raw: string) {
    forall i: nat, run :: IsFirstRun(raw, i, run) ==> IsFloatText(run)
  }

  /** Some step of `parse_book_page` raises on this page: the title block
      lacks its heading, a table row lacks a cell, a price run is not a
      number, or the review count is not an integer. */
  ghost predicate PageRaises(page: Page) {
    || page.productMain == Some(ProductMain(None))
    || (page.table.Some? && exists i :: 0 <= i < |page.table.value| && !Complete(page.table.value[i]))
    || (InfoOf(page.table).Success? &&
         var info := InfoOf(page.table).value;
         || !PriceParses(PriceText(info, PRICE_EXCL_TAX))
         || !PriceParses(PriceText(info, PRICE_INCL_TAX))
         || !PriceParses(PriceText(info, TAX))
         || (NUM_REVIEWS in info && Text.ParseInt(info[NUM_REVIEWS]).None?))
  }

  /** A run `float` accepts, or no run, gives a price. */
  lemma PriceParsesIff(raw: string)
    ensures ParsePrice(raw).Success? <==> PriceParses(raw)
  {
    var r := FindRun(raw);
    if r.Some? {
      var i: nat :| IsFirstRun(raw, i, r.value);
      forall j: nat, run | IsFirstRun(raw, j, run)
        ensures run == r.value
      {
        FirstRunUnique(raw, i, r.value, j, run);
      }
    }
  }

  /** The record `parse_book_page` builds from a fetched page, or the
      exception it raises. */
  function ExtractBook(url: string, page: Page): (r: Result<Book, Exception>)
    ensures r.Failure? <==> PageRaises(page)
    ensures r.Success? ==>
      var b := r.value;
      var info := InfoOf(page.table).value;
      && b.bookUrl == url
      && b.price == b.priceInclTax
      && (page.productMain.None? ==> b.title == "")
      && (page.productMain.Some? ==> page.productMain.value.heading == Some(b.title))
      && (page.breadcrumb.Some? && |page.breadcrumb.value| >= 3 ==> b.category == page.breadcrumb.value[2])
      && (page.breadcrumb.None? || |page.breadcrumb.value| < 3 ==> b.category == "")
      && b.rating == RatingOfMarker(page.starClasses)
      && b.upc == Lookup(info, UPC, "")
      && b.productType == Lookup(info, PRODUCT_TYPE, "")
      && ParsePrice(PriceText(info, PRICE_EXCL_TAX)) == Success(b.priceExclTax)
      && ParsePrice(PriceText(info, PRICE_INCL_TAX)) == Success(b.priceInclTax)
      && ParsePrice(PriceText(info, TAX)) == Success(b.tax)
      && b.availability == AvailabilityOf(Lookup(info, AVAILABILITY, ""))
      && b.numAvailable == NumAvailable(Lookup(info, AVAILABILITY, ""))
      && ReviewCount(info) == Success(b.numReviews)
      && b.description == page.description.GetOr("")
  {
    var title :- Title(page.productMain);
    var info :- InfoOf(page.table);
    PriceParsesIff(PriceText(info, PRICE_EXCL_TAX));
    PriceParsesIff(PriceText(info, PRICE_INCL_TAX));
    PriceParsesIff(PriceText(info, TAX));
    var priceExclTax :- ParsePrice(PriceText(info, PRICE_EXCL_TAX));
    var priceInclTax :- ParsePrice(PriceText(info, PRICE_INCL_TAX));
    var tax :- ParsePrice(PriceText(info, TAX));
    var availability := Lookup(info, AVAILABILITY, "");
    var numReviews :- ReviewCount(info);
    Success(Book(
      title,
      Category(page.breadcrumb),
      RatingOfMarker(page.starClasses),
      priceInclTax,
      priceExclTax,
      priceInclTax,
      tax,
      AvailabilityOf(availability),
      NumAvailable(availability),
      numReviews,
      Lookup(info, UPC, ""),
      Lookup(info, PRODUCT_TYPE, ""),
      page.description.GetOr(""),
      url))
  }

  /** `parse_book_page(url)` given the outcome of fetching `url`: a failed
      fetch gives no record at all, and a fetched page gives a complete
      record for `url` unless some step raises. */
  function ParseBookPage(url: string, response: Option<Page>): (r: Result<Option<Book>, Exception>)
    ensures response.None? ==> r == Success(None)
    ensures response.Some? ==> (r.Failure? <==> PageRaises(response.value))
    ensures response.Some? && r.Success? ==> r.value.Some? && r.value.value.bookUrl == url
    ensures r.Success? && r.value.Some? ==> r.value.value.price == r.value.value.priceInclTax
  {
    match response
    case None => Success(None)
    case Some(page) =>
      var book :- ExtractBook(url, page);
      Success(Some(book))
  }

  /** A page with none of its anchors gives the all-defaults record. */
  lemma EmptyPageDefaults(url: string)
    ensures ParseBookPage(url, Some(Page(None, None, None, None, None)))
         == Success(Some(Book("", "", Unrated, 0.0, 0.0, 0.0, 0.0, OutOfStock, 0, 0, "", "", "", url)))
  {
    ParsePriceMissingKey();
    assert !(exists i: nat :: Text.OccursAt("", IN_STOCK, i));
    assert forall j: nat, d :: !MatchesAt("", j, d);
  }
}
