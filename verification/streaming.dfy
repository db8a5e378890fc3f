/** The streaming run (src/streaming_processor.py): every configured
    category is fetched page by page from the category-search API, each
    page is turned into deals as soon as it arrives, and the deals of all
    categories are deduplicated, sorted and written once at the end.

    The HTTP client is a parameter: `fetch(key, page)` is the response to
    the request for page `page` of category `key`. */
module Streaming {
  import opened Common
  import opened Products
  import opened Ordering
  import opened Rounding

  /** `MAX_PAGES` in src/config.py:38: no category is read past this page count. */
  const MaxPages: int := 100

  /** `pagination.numberOfPages` on page 0: absent (the default 1 is used),
      a whole number, or a value `min`/`range` reject (null, a string, a
      float), which raises. */
  datatype PageCount = Absent | Whole(n: int) | Invalid

  /** What one POST to the category-search API yields.
      `RequestFailed`: the request raised or the status was not 200.
      `MalformedBody`: `resp.json()` raised; nothing catches this below the
      per-category handler.
      `Body`: the decoded `products` list (absent = empty) and page count. */
  datatype Response =
    | RequestFailed
    | MalformedBody
    | Body(products: seq<RawProduct>, numberOfPages: PageCount)

  /** The API client: the response for (category key, page number). */
  type Fetcher = (string, nat) -> Response

  /** Every deal is a genuine discount of category `key`, dated `date`. */
  predicate Stamped(deals: seq<Deal>, key: string, date: string) {
    forall d :: d in deals ==> GenuineDiscount(d) && d.category == key && d.scrapedDate == date
  }

  // ---------------------------------------------------------------------
  // One page

  /** A product as `process_product` sees it on a page of category `key`:
      normalised, and tagged with the category key. */
  function TagOne(p: RawProduct, key: string): (r: RawProduct)
    ensures r.category == Some(key)
    ensures r.price == p.price
    ensures r.code == p.code && r.url == p.url && r.images == p.images
  {
    Normalize(p).(category := Some(key))
  }

  /** A page's products, each tagged. */
  function Tagged(products: seq<RawProduct>, key: string): (r: seq<RawProduct>)
    ensures |r| == |products|
    ensures forall i :: 0 <= i < |r| ==> r[i] == TagOne(products[i], key)
  {
    seq(|products|, i requires 0 <= i < |products| => TagOne(products[i], key))
  }

  /** The deals of one page of products, in page order. */
  function PageDeals(products: seq<RawProduct>, key: string, date: string): (r: seq<Deal>)
    ensures |r| <= |products|
    ensures Stamped(r, key, date)
  {
    var tagged := Tagged(products, key);
    AcceptedMembers(tagged, date, BaseUrl);
    Accepted(tagged, date, BaseUrl)
  }

  /** A page's deals are exactly the accepted products of the page: each
      accepted product's deal (as a product of category `key`) is there,
      and nothing else is. */
  lemma {:induction false} PageDealsMembers(products: seq<RawProduct>, key: string, date: string)
    ensures forall i :: 0 <= i < |products| && ProcessProduct(TagOne(products[i], key), date, BaseUrl).Some?
              ==> ProcessProduct(TagOne(products[i], key), date, BaseUrl).value in PageDeals(products, key, date)
    ensures forall d :: d in PageDeals(products, key, date) ==>
              exists i :: 0 <= i < |products| && ProcessProduct(TagOne(products[i], key), date, BaseUrl) == Some(d)
  {
    var tagged := Tagged(products, key);
    AcceptedMembers(tagged, date, BaseUrl);
  }

  /** `fetch_and_process_page`: `None` when the call raises (a malformed
      body); a failed request gives no deals; otherwise the page's deals. */
  function FetchPage(resp: Response, key: string, date: string): (r: Option<seq<Deal>>)
    ensures r.None? <==> resp.MalformedBody?
    ensures resp.RequestFailed? ==> r == Some([])
    ensures resp.Body? && resp.products == [] ==> r == Some([])
    ensures r.Some? ==> Stamped(r.value, key, date)
    ensures resp.Body? ==> r.Some? && |r.value| <= |resp.products|
  {
    match resp
    case RequestFailed => Some([])
    case MalformedBody => None
    case Body(products, _) => Some(PageDeals(products, key, date))
  }

  // ---------------------------------------------------------------------
  // One category

  /** `ds` in front of a result that may have failed. */
  function Prepend(ds: seq<Deal>, rest: Option<seq<Deal>>): Option<seq<Deal>> {
    if rest.None? then None else Some(ds + rest.value)
  }

  lemma PrependPrepend(a: seq<Deal>, b: seq<Deal>, rest: Option<seq<Deal>>)
    ensures Prepend(a, Prepend(b, rest)) == Prepend(a + b, rest)
  {
    if rest.Some? {
      assert a + (b + rest.value) == (a + b) + rest.value;
    }
  }

  /** `min(total_pages, MAX_PAGES)`: `None` when the page count makes
      `min` or `range` raise. */
  function PagesToScrape(count: PageCount): (r: Option<int>)
    ensures r.None? <==> count.Invalid?
    ensures r.Some? ==> r.value <= MaxPages
    ensures count.Absent? ==> r == Some(1)
    ensures count.Whole? && count.n <= MaxPages ==> r == Some(count.n)
    ensures count.Whole? && count.n >= MaxPages ==> r == Some(MaxPages)
  {
    match count
    case Absent => Some(1)
    case Whole(n) => Some(if n < MaxPages then n else MaxPages)
    case Invalid => None
  }

  /** The `range(1, pages_to_scrape)` loop from page `page` on. When
      `stopOnEmpty` holds (page 0 had no products) the loop ends at the
      first page that yields no deals; otherwise every page is read. A
      page that raises fails the whole category. */
  function RemainingPages(fetch: nat -> Response, key: string, date: string,
                          page: nat, pages: int, stopOnEmpty: bool): (r: Option<seq<Deal>>)
    ensures r.Some? ==> Stamped(r.value, key, date)
    decreases pages - page
  {
    if page >= pages then Some([])
    else
      var pd := FetchPage(fetch(page), key, date);
      if pd.None? then None
      else if pd.value == [] && stopOnEmpty then Some([])
      else Prepend(pd.value, RemainingPages(fetch, key, date, page + 1, pages, stopOnEmpty))
  }

  /** Reference: read every page in `[lo, hi)` and concatenate, failing if
      any page raises. */
  function AllPages(fetch: nat -> Response, key: string, date: string, lo: nat, hi: int): Option<seq<Deal>>
    decreases hi - lo
  {
    if lo >= hi then Some([])
    else
      var pd := FetchPage(fetch(lo), key, date);
      if pd.None? then None else Prepend(pd.value, AllPages(fetch, key, date, lo + 1, hi))
  }

  /** The first page in `[lo, hi)` that yields no deals, or `hi` if none does. */
  function FirstEmptyPage(fetch: nat -> Response, key: string, date: string, lo: nat, hi: int): (p: nat)
    ensures lo <= p
    ensures lo <= hi ==> p <= hi
    ensures p < hi ==> FetchPage(fetch(p), key, date) == Some([])
    ensures forall q: nat :: lo <= q < p && q < hi ==> FetchPage(fetch(q), key, date) != Some([])
    decreases hi - lo
  {
    if lo >= hi then lo
    else if FetchPage(fetch(lo), key, date) == Some([]) then lo
    else FirstEmptyPage(fetch, key, date, lo + 1, hi)
  }

  /** Without the early stop the loop reads every page. */
  lemma {:induction false} RemainingPagesReadsAll(fetch: nat -> Response, key: string, date: string, page: nat, pages: int)
    ensures RemainingPages(fetch, key, date, page, pages, false) == AllPages(fetch, key, date, page, pages)
    decreases pages - page
  {
    if page < pages {
      RemainingPagesReadsAll(fetch, key, date, page + 1, pages);
    }
  }

  /** With the early stop the loop reads exactly the pages before the first
      page that yields no deals. */
  lemma {:induction false} RemainingPagesStopsAtEmpty(fetch: nat -> Response, key: string, date: string, page: nat, pages: int)
    ensures RemainingPages(fetch, key, date, page, pages, true)
            == AllPages(fetch, key, date, page, FirstEmptyPage(fetch, key, date, page, pages))
    decreases pages - page
  {
    if page < pages && FetchPage(fetch(page), key, date) != Some([]) {
      RemainingPagesStopsAtEmpty(fetch, key, date, page + 1, pages);
    }
  }

  /** `scrape_and_process_category` for one category: `None` when it raises
      (the run then records the category as failed), `Some([])` when page 0
      cannot be fetched, otherwise the page-0 deals followed by those of the
      remaining pages. */
  function CategoryDeals(fetch: nat -> Response, key: string, date: string): (r: Option<seq<Deal>>)
    ensures fetch(0).RequestFailed? ==> r == Some([])
    ensures fetch(0).MalformedBody? ==> r.None?
    ensures fetch(0).Body? && fetch(0).numberOfPages.Invalid? ==> r.None?
    ensures r.Some? ==> Stamped(r.value, key, date)
  {
    match fetch(0)
    case RequestFailed => Some([])
    case MalformedBody => None
    case Body(products, count) =>
      var pages := PagesToScrape(count);
      if pages.None? then None
      else Prepend(PageDeals(products, key, date),
                   RemainingPages(fetch, key, date, 1, pages.value, products == []))
  }

  /** The pages a category reads: when page 0 has products, pages 1 up to
      `min(numberOfPages, MAX_PAGES)`; when page 0 has none, only up to the
      first page without deals. */
  lemma CategoryDealsPages(fetch: nat -> Response, key: string, date: string)
    requires fetch(0).Body? && !fetch(0).numberOfPages.Invalid?
    ensures var products := fetch(0).products;
            var pages := PagesToScrape(fetch(0).numberOfPages).value;
            var last := if products == [] then FirstEmptyPage(fetch, key, date, 1, pages) else pages;
            CategoryDeals(fetch, key, date) == Prepend(PageDeals(products, key, date), AllPages(fetch, key, date, 1, last))
  {
    var pages := PagesToScrape(fetch(0).numberOfPages).value;
    RemainingPagesReadsAll(fetch, key, date, 1, pages);
    RemainingPagesStopsAtEmpty(fetch, key, date, 1, pages);
  }

  lemma {:induction false} RemainingPagesLocal(f: nat -> Response, g: nat -> Response, key: string, date: string,
                                               page: nat, pages: int, stopOnEmpty: bool)
    requires forall p: nat :: page <= p < pages ==> f(p) == g(p)
    ensures RemainingPages(f, key, date, page, pages, stopOnEmpty) == RemainingPages(g, key, date, page, pages, stopOnEmpty)
    decreases pages - page
  {
    if page < pages {
      assert f(page) == g(page);
      RemainingPagesLocal(f, g, key, date, page + 1, pages, stopOnEmpty);
    }
  }

  /** A category never reads past `MAX_PAGES`: two clients that agree on
      pages `0 .. MAX_PAGES - 1` give the same result. */
  lemma CategoryDealsReadsAtMostMaxPages(f: nat -> Response, g: nat -> Response, key: string, date: string)
    requires forall p: nat :: p < MaxPages ==> f(p) == g(p)
    ensures CategoryDeals(f, key, date) == CategoryDeals(g, key, date)
  {
    assert f(0) == g(0);
    if f(0).Body? && !f(0).numberOfPages.Invalid? {
      var pages := PagesToScrape(f(0).numberOfPages).value;
      RemainingPagesLocal(f, g, key, date, 1, pages, f(0).products == []);
    }
  }

  /** `scrape_and_process_category`, with the page loop. */
  method ScrapeCategory(fetch: nat -> Response, key: string, date: string) returns (r: Option<seq<Deal>>)
    ensures r == CategoryDeals(fetch, key, date)
    ensures r.Some? ==> Stamped(r.value, key, date)
  {
    var first := fetch(0);
    if first.RequestFailed? {
      return Some([]);
    }
    if first.MalformedBody? {
      return None;
    }
    var pagesToScrape := PagesToScrape(first.numberOfPages);
    if pagesToScrape.None? {
      return None;
    }
    var pages := pagesToScrape.value;
    var stop := first.products == [];
    var acc := PageDeals(first.products, key, date);
    var page: nat := 1;
    while page < pages
      invariant Prepend(acc, RemainingPages(fetch, key, date, page, pages, stop)) == CategoryDeals(fetch, key, date)
      decreases pages - page
    {
      var pageDeals := FetchPage(fetch(page), key, date);
      if pageDeals.None? {
        return None;
      }
      if pageDeals.value == [] && stop {
        break;
      }
      PrependPrepend(acc, pageDeals.value, RemainingPages(fetch, key, date, page + 1, pages, stop));
      acc := acc + pageDeals.value;
      page := page + 1;
    }
    assert acc + [] == acc;
    return Some(acc);
  }

  // ---------------------------------------------------------------------
  // All categories

  /** The client as seen by one category. */
  function ForCategory(fetch: Fetcher, key: string): nat -> Response {
    (p: nat) => fetch(key, p)
  }

  /** What one category adds to `all_deals`: its deals, or nothing if it failed. */
  function Contribution(fetch: Fetcher, key: string, date: string): (r: seq<Deal>)
    ensures Stamped(r, key, date)
  {
    CategoryDeals(ForCategory(fetch, key), key, date).GetOr([])
  }

  /** `all_deals`: the contributions of the categories, in configuration order. */
  function Collected(categories: seq<string>, fetch: Fetcher, date: string): (r: seq<Deal>)
    ensures forall d :: d in r ==> GenuineDiscount(d) && d.scrapedDate == date && d.category in categories
    decreases |categories|
  {
    if categories == [] then []
    else
      var rest := Collected(categories[1..], fetch, date);
      assert forall d :: d in rest ==> d.category in categories by {
        forall d | d in rest
          ensures d.category in categories
        {
          var i :| 0 <= i < |categories[1..]| && categories[1..][i] == d.category;
          assert categories[i + 1] == d.category;
        }
      }
      Contribution(fetch, categories[0], date) + rest
  }

  /** `failed_categories`: the categories whose scrape raised, in order. */
  function FailedCategories(categories: seq<string>, fetch: Fetcher, date: string): (r: seq<string>)
    decreases |categories|
  {
    if categories == [] then []
    else
      var key := categories[0];
      (if CategoryDeals(ForCategory(fetch, key), key, date).None? then [key] else [])
      + FailedCategories(categories[1..], fetch, date)
  }

  lemma {:induction false} FailedCategoriesMembers(categories: seq<string>, fetch: Fetcher, date: string)
    ensures forall key :: key in FailedCategories(categories, fetch, date)
              <==> key in categories && CategoryDeals(ForCategory(fetch, key), key, date).None?
    decreases |categories|
  {
    if categories != [] {
      FailedCategoriesMembers(categories[1..], fetch, date);
      assert forall key :: key in categories <==> key == categories[0] || key in categories[1..];
    }
  }

  lemma {:induction false} CollectedAppend(a: seq<string>, b: seq<string>, fetch: Fetcher, date: string)
    ensures Collected(a + b, fetch, date) == Collected(a, fetch, date) + Collected(b, fetch, date)
    decreases |a|
  {
    if a == [] {
      assert a + b == b;
    } else {
      assert (a + b)[0] == a[0];
      assert (a + b)[1..] == a[1..] + b;
      CollectedAppend(a[1..], b, fetch, date);
      var c := Contribution(fetch, a[0], date);
      assert c + (Collected(a[1..], fetch, date) + Collected(b, fetch, date))
             == (c + Collected(a[1..], fetch, date)) + Collected(b, fetch, date);
    }
  }

  lemma CollectedSingle(key: string, fetch: Fetcher, date: string)
    ensures Collected([key], fetch, date) == Contribution(fetch, key, date)
  {
    assert [key][1..] == [];
    assert Contribution(fetch, key, date) + [] == Contribution(fetch, key, date);
  }

  /** A failing category costs only its own deals: the others' deals are
      collected exactly as if it were not configured. */
  lemma {:induction false} FailedCategoryIsSkipped(a: seq<string>, key: string, b: seq<string>, fetch: Fetcher, date: string)
    requires CategoryDeals(ForCategory(fetch, key), key, date).None?
    ensures Collected(a + [key] + b, fetch, date) == Collected(a + b, fetch, date)
  {
    var ca, cb := Collected(a, fetch, date), Collected(b, fetch, date);
    CollectedSingle(key, fetch, date);
    assert Collected([key], fetch, date) == [];
    CollectedAppend(a, [key], fetch, date);
    assert Collected(a + [key], fetch, date) == ca;
    CollectedAppend(a + [key], b, fetch, date);
    CollectedAppend(a, b, fetch, date);
  }

  // ---------------------------------------------------------------------
  // The run

  /** The outcome of a run: the returned deals, what was written to
      `deals.json` (`None`: nothing written) and the failed categories. */
  datatype RunOutcome = RunOutcome(deals: seq<Deal>, written: Option<seq<Deal>>, failed: seq<string>)

  /** `run_streaming_processor` for the categories `categories` (in
      configuration order) on the day `today`. */
  function RunStreaming(categories: seq<string>, fetch: Fetcher, today: string): (r: RunOutcome)
    ensures r.written.Some? <==> Collected(categories, fetch, today) != []
    ensures r.written.Some? ==> r.written.value == r.deals
    ensures r.written.None? ==> r.deals == []
    ensures forall key :: key in r.failed
              <==> key in categories && CategoryDeals(ForCategory(fetch, key), key, today).None?
  {
    var all := Collected(categories, fetch, today);
    var failed := FailedCategories(categories, fetch, today);
    FailedCategoriesMembers(categories, fetch, today);
    if all == [] then RunOutcome([], None, failed)
    else
      var final := SortByDiscount(Deduplicated(all));
      RunOutcome(final, Some(final), failed)
  }

  /** The final list: genuine discounts of the configured categories, all
      dated `today`, non-empty codes unique, discounts never increasing, and
      exactly the first deal of each code among the collected deals. */
  lemma {:induction false} RunStreamingFinalList(categories: seq<string>, fetch: Fetcher, today: string)
    ensures var all := Collected(categories, fetch, today);
            var r := RunStreaming(categories, fetch, today).deals;
            && UniqueCodes(r)
            && SortedByDiscount(r)
            && |r| <= |all|
            && (forall d :: d in r ==> GenuineDiscount(d) && d.scrapedDate == today && d.category in categories)
            && (forall i :: 0 <= i < |all| && IsFirstOfCode(all, i) ==> all[i] in r)
            && (forall x :: x in r ==> exists i :: 0 <= i < |all| && IsFirstOfCode(all, i) && all[i] == x)
  {
    var all := Collected(categories, fetch, today);
    var r := RunStreaming(categories, fetch, today).deals;
    FinalListFacts(all);
    forall d | d in r
      ensures d in all
    {
      var i :| 0 <= i < |all| && IsFirstOfCode(all, i) && all[i] == d;
    }
  }

  /** The earlier category wins: when a deal of category `key` shares its
      non-empty code with a deal of a category configured before it, that
      deal is not in the final list. */
  lemma {:induction false} EarlierCategoryWins(a: seq<string>, key: string, b: seq<string>, fetch: Fetcher, today: string,
                            x: Deal, y: Deal)
    requires key !in a
    requires x in Collected(a, fetch, today)
    requires y in Contribution(fetch, key, today)
    requires y.productCode != "" && x.productCode == y.productCode
    ensures y !in RunStreaming(a + [key] + b, fetch, today).deals
  {
    var cats := a + [key] + b;
    var before := Collected(a, fetch, today);
    var all := Collected(cats, fetch, today);
    CollectedAppend(a + [key], b, fetch, today);
    CollectedAppend(a, [key], fetch, today);
    assert all[..|before|] == before;
    var m :| 0 <= m < |before| && before[m] == x;
    assert all[m] == x;
    assert y !in before by {
      assert y.category == key;
    }
    forall k | 0 <= k < |before|
      ensures all[k] != y
    {
      assert all[k] == before[k];
    }
    forall k | 0 <= k < |all| && all[k] == y
      ensures !IsFirstOfCode(all, k)
    {
      assert m < k;
    }
    RunStreamingFinalList(cats, fetch, today);
  }

  /** A product whose list price is `price` and whose `DISCOUNT` entry is `sale`. */
  function ListedProduct(code: string, price: real, sale: real): RawProduct {
    RawProduct(Some(code), None, None, Some(map["value" := JNum(price)]), None,
               [map["priceType" := JStr("DISCOUNT"), "value" := JNum(sale)]], [], None, None, None)
  }

  /** Two categories with one page each: `A` lists `A1` at half price and
      `A2` at full price, `B` lists `A1` again at 30% off. */
  function CrossListedFetcher(): Fetcher {
    (key: string, page: nat) =>
      if page != 0 then RequestFailed
      else if key == "A" then Body([ListedProduct("A1", 100.0, 50.0), ListedProduct("A2", 100.0, 100.0)], Absent)
      else if key == "B" then Body([ListedProduct("A1", 100.0, 70.0)], Absent)
      else RequestFailed
  }

  lemma ListedDeal(code: string, price: real, sale: real, key: string, today: string, pct: real)
    requires 0.0 < sale < price && pct == (price - sale) / price * 100.0 && IsHundredths(pct)
    ensures ProcessProduct(TagOne(ListedProduct(code, price, sale), key), today, BaseUrl)
            == Some(Deal(code, "", "", price, sale, pct, key, "", "", false, today))
  {
    var p := ListedProduct(code, price, sale);
    var e := p.priceList[0];
    assert IsDiscountEntry(e);
    assert FirstDiscount(p.priceList) == Some(0);
    assert PromotionFrom(e)["value"] == JNum(sale);
    Round2OfHundredths(pct);
  }

  lemma UnlistedDiscount(code: string, price: real, key: string, today: string)
    ensures ProcessProduct(TagOne(ListedProduct(code, price, price), key), today, BaseUrl).None?
  {
    var p := ListedProduct(code, price, price);
    assert FirstDiscount(p.priceList) == Some(0);
    assert PromotionFrom(p.priceList[0])["value"] == JNum(price);
  }

  lemma {:induction false} CrossListedPageA(today: string)
    ensures CategoryDeals(ForCategory(CrossListedFetcher(), "A"), "A", today)
            == Some([Deal("A1", "", "", 100.0, 50.0, 50.0, "A", "", "", false, today)])
  {
    var x, y := ListedProduct("A1", 100.0, 50.0), ListedProduct("A2", 100.0, 100.0);
    var d := Deal("A1", "", "", 100.0, 50.0, 50.0, "A", "", "", false, today);
    assert IsHundredths(50.0);
    ListedDeal("A1", 100.0, 50.0, "A", today, 50.0);
    UnlistedDiscount("A2", 100.0, "A", today);
    var tagged := Tagged([x, y], "A");
    assert tagged == [TagOne(x, "A")] + [TagOne(y, "A")];
    AcceptedAppend([TagOne(x, "A")], [TagOne(y, "A")], today, BaseUrl);
    AcceptedSingle(TagOne(x, "A"), today, BaseUrl);
    AcceptedSingle(TagOne(y, "A"), today, BaseUrl);
    assert PageDeals([x, y], "A", today) == [d];
    assert [d] + [] == [d];
  }

  lemma {:induction false} CrossListedPageB(today: string)
    ensures CategoryDeals(ForCategory(CrossListedFetcher(), "B"), "B", today)
            == Some([Deal("A1", "", "", 100.0, 70.0, 30.0, "B", "", "", false, today)])
  {
    var x := ListedProduct("A1", 100.0, 70.0);
    var d := Deal("A1", "", "", 100.0, 70.0, 30.0, "B", "", "", false, today);
    assert IsHundredths(30.0);
    ListedDeal("A1", 100.0, 70.0, "B", today, 30.0);
    assert Tagged([x], "B") == [TagOne(x, "B")];
    AcceptedSingle(TagOne(x, "B"), today, BaseUrl);
    assert PageDeals([x], "B", today) == [d];
    assert [d] + [] == [d];
  }

  lemma {:induction false} CrossListedCollected(today: string)
    ensures Collected(["A", "B"], CrossListedFetcher(), today)
            == [Deal("A1", "", "", 100.0, 50.0, 50.0, "A", "", "", false, today),
                Deal("A1", "", "", 100.0, 70.0, 30.0, "B", "", "", false, today)]
  {
    var fetch := CrossListedFetcher();
    CrossListedPageA(today);
    CrossListedPageB(today);
    CollectedSingle("A", fetch, today);
    CollectedSingle("B", fetch, today);
    CollectedAppend(["A"], ["B"], fetch, today);
    assert ["A"] + ["B"] == ["A", "B"];
  }

  /** Cross-listed product, concretely: the final list holds category `A`'s
      `A1` at 50% off; `B`'s re-listing at 30% off and the undiscounted `A2`
      are gone. */
  lemma {:induction false} CrossListedScenario(today: string)
    ensures RunStreaming(["A", "B"], CrossListedFetcher(), today).deals
            == [Deal("A1", "", "", 100.0, 50.0, 50.0, "A", "", "", false, today)]
  {
    var dA := Deal("A1", "", "", 100.0, 50.0, 50.0, "A", "", "", false, today);
    var dB := Deal("A1", "", "", 100.0, 70.0, 30.0, "B", "", "", false, today);
    CrossListedCollected(today);
    DuplicatePairDeduplicated(dA, dB);
    assert SortByDiscount([dA]) == [dA];
  }

  /** `run_streaming_processor`, with the loop over the categories. */
  method RunStreamingProcessor(categories: seq<string>, fetch: Fetcher, today: string) returns (r: RunOutcome)
    ensures r == RunStreaming(categories, fetch, today)
    ensures UniqueCodes(r.deals) && SortedByDiscount(r.deals)
  {
    var allDeals: seq<Deal> := [];
    var failed: seq<string> := [];
    for i := 0 to |categories|
      invariant allDeals == Collected(categories[..i], fetch, today)
      invariant failed == FailedCategories(categories[..i], fetch, today)
    {
      var key := categories[i];
      var deals := ScrapeCategory(ForCategory(fetch, key), key, today);
      CollectedAppend(categories[..i], [key], fetch, today);
      FailedCategoriesAppend(categories[..i], [key], fetch, today);
      assert categories[..i + 1] == categories[..i] + [key];
      assert Collected([key], fetch, today) == Contribution(fetch, key, today) + [];
      if deals.Some? {
        allDeals := allDeals + deals.value;
      } else {
        failed := failed + [key];
      }
    }
    assert categories[..|categories|] == categories;
    RunStreamingFinalList(categories, fetch, today);
    if allDeals == [] {
      return RunOutcome([], None, failed);
    }
    var finalDeals := DeduplicateAndSort(allDeals);
    return RunOutcome(finalDeals, Some(finalDeals), failed);
  }

  lemma {:induction false} FailedCategoriesAppend(a: seq<string>, b: seq<string>, fetch: Fetcher, date: string)
    ensures FailedCategories(a + b, fetch, date) == FailedCategories(a, fetch, date) + FailedCategories(b, fetch, date)
    decreases |a|
  {
    if a == [] {
      assert a + b == b;
    } else {
      assert (a + b)[0] == a[0];
      assert (a + b)[1..] == a[1..] + b;
      FailedCategoriesAppend(a[1..], b, fetch, date);
      var key := a[0];
      var h: seq<string> := if CategoryDeals(ForCategory(fetch, key), key, date).None? then [key] else [];
      assert h + (FailedCategories(a[1..], fetch, date) + FailedCategories(b, fetch, date))
             == (h + FailedCategories(a[1..], fetch, date)) + FailedCategories(b, fetch, date);
    }
  }
}
