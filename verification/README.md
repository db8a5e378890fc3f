# HKTVmall deal pipeline: a Dafny model

This project models the deal pipeline of the HKTVmall scraper in Dafny.
The model covers the streaming run in `src/streaming_processor.py` and the batch run in `src/processor.py`.

- **Product normaliser.** The category-search API lists prices in `priceList`. `_normalize_product` copies the first `DISCOUNT` entry into `promotionPrice`.
- **Acceptance rule.** `process_product` reads both prices with `_safe_float`, which wraps Python's `float()`. It rejects a product when a price is missing, unreadable or not positive, or when the sale price is not below the list price. Otherwise it builds a deal record:
  - the discount, rounded to two decimals with Python's round-half-even `round`;
  - the image URL, with an `https:` scheme added to protocol-relative URLs;
  - the product URL, made absolute with `BASE_URL`;
  - the stock flag;
  - the run's date.
- **Pagination.** Page 0 of a category gives the page count. The remaining pages are read up to `min(numberOfPages, MAX_PAGES)`. A failed request yields no deals. A malformed response body fails the whole category.
- **The streaming run.** Categories are processed in configuration order, and a category that fails is skipped. The collected deals are deduplicated and sorted. The list is written only when at least one deal was collected.
- **Deduplication and ordering.** The first deal with a given non-empty `product_code` is kept. Deals with an empty code are never merged. The survivors are stably sorted by discount, largest first.
- **The batch run.** It filters and deduplicates the saved raw products in one loop and sorts them. It writes the list even when it is empty.

The HTTP client, the file system and the clock are parameters of the model:

- `fetch(category, page)` is the API's response.
- `Option<seq<RawProduct>>` is the raw products file, `None` when it does not exist.
- `today` is `date.today().isoformat()`.

Modules:

- `Common`: `Option`, JSON values, prefixes, a generic filter-map and subsequences.
- `FloatParse`: `float()` on JSON values and strings, and `_safe_float`.
- `Rounding`: `round(x, 2)`.
- `Products`: the normaliser and `process_product`.
- `Ordering`: `deduplicate_and_sort`.
- `Streaming`: pages, categories and `run_streaming_processor`.
- `Batch`: `run_processor`.

The model states the following behaviours of the code explicitly, because they are easy to get wrong:

- Deduplication keeps the FIRST deal of a code. When a product is listed in several categories, the earliest configured category wins. `Streaming.EarlierCategoryWins` and `Streaming.CrossListedScenario` state this.
- `discount_pct` is rounded to two decimals.
- There is no `last_updated` change tracking.
- There is no retry of failed pages.
- There is no separate deduplication within a category.
- There is no partial publication after each category.
- A failed page request does not abort the category. It contributes no deals.
- Pagination stops early only when page 0 had no products. The test `if not page_deals and not products` looks at page 0's `products`, not the current page's. With products on page 0, every page up to the cap is read.
- The streaming run writes nothing when no deal was collected. The batch run writes even an empty list.

## Model

| member | source | states |
|---|---|---|
| FloatParse.SafeFloat | src/streaming_processor.py:42-52 | no value exactly when the object is missing, the key is missing or null, or `float()` rejects the value; otherwise the converted value |
| FloatParse.ToFloat | src/processor.py:31-34 | numbers convert to themselves; null, lists and objects are rejected (the `TypeError` path) |
| FloatParse.ConvertibleHasDigit | src/processor.py:31-34 | any string `float()` accepts holds a decimal digit, so blank, sign-only and point-only text is rejected |
| FloatParse.ParseNatString | src/streaming_processor.py:50 | reading the decimal text of any natural number gives back that number |
| FloatParse.ParseNegativeFraction | src/streaming_processor.py:50 | `-whole.frac` is read back as minus the whole part plus the fraction scaled by its digit count |
| FloatParse.ParsePointFraction | src/streaming_processor.py:50 | a price written `whole.frac` (such as `12.50` or `.5`) is read back as the whole part plus the fraction scaled by its digit count |
| FloatParse.ParseScientific | src/streaming_processor.py:50 | `digits e exp` is read back as the digits' value times ten to the exponent's value |
| Rounding.RoundHalfEven | src/streaming_processor.py:88 | the chosen integer is within one half of the input, and an exact tie goes to the even neighbour |
| Rounding.Round2 | src/streaming_processor.py:88 | `round(x, 2)` is within half a hundredth of `x` and is a whole number of hundredths; on an exact tie the number of hundredths is even |
| Rounding.Round2Monotone | src/streaming_processor.py:88 | rounding to two decimals never reverses an order |
| Rounding.Round2Idempotent | src/processor.py:52 | rounding an already rounded discount changes nothing |
| Rounding.Round2Percent | src/processor.py:52 | a percentage strictly between 0 and 100 rounds into [0, 100] |
| Products.FirstDiscount | src/streaming_processor.py:61-69 | the position found is a `DISCOUNT` entry and no earlier entry is one; with no position, no entry is one |
| Products.Normalize | src/streaming_processor.py:55-70 | only `promotionPrice` changes; the first `DISCOUNT` entry (currency default HKD, formatted text default empty) becomes it; without one the product is unchanged |
| Products.NormalizedSalePrice | src/streaming_processor.py:64-68 | after normalising, the sale price `process_product` reads is the first `DISCOUNT` entry's value |
| Products.WithScheme | src/streaming_processor.py:93-97 | the image URL never starts with `//` and still ends with the original; `https:` is prepended exactly to protocol-relative URLs |
| Products.ImageUrl | src/streaming_processor.py:91-97 | no images give an empty image URL; otherwise the first image's URL (empty when absent), with `https:` prepended exactly when it starts with `//`; the result never starts with `//` |
| Products.ProductUrl | src/streaming_processor.py:100-102 | the result ends with the raw URL; empty stays empty, absolute stays as is, relative gets the base URL |
| Products.ProductUrlIdempotent | src/processor.py:64-66 | with an absolute base URL, every non-empty product URL becomes absolute and making it absolute again changes nothing |
| Products.InStock | src/streaming_processor.py:105-107 | in stock exactly when the nested status code is present and equals `inStock` |
| Products.DiscountBounds | src/streaming_processor.py:83-88 | for positive prices with the sale below the list price, the unrounded discount lies strictly between 0 and 100 |
| Products.ProcessProduct | src/streaming_processor.py:73-121 | rejected exactly under the rejection rule; otherwise a genuine discount whose fields are the prices as read, the rounded discount, the copied identity fields with their defaults, the derived URLs, the stock flag and the run date |
| Products.AcceptedDiscountIsGenuine | src/processor.py:45-52 | every accepted deal's unrounded discount is strictly between 0 and 100 and the stored one is within half a hundredth of it |
| Products.DiscountOrdersBySalePrice | src/processor.py:52 | for the same list price, a lower sale price never gets a smaller stored discount |
| Products.Accepted | src/processor.py:104-107 | the filtered deals are no more than the raw products, each a genuine discount dated with the run date |
| Products.AcceptedAppend | src/processor.py:104-107 | the deals of two concatenated product lists are the deals of each, in order |
| Products.AcceptedMembers | src/streaming_processor.py:190-196 | every accepted product's deal is kept and every kept deal comes from an accepted product |
| Ordering.DeduplicatedUnique | src/streaming_processor.py:278-284 | after deduplication no non-empty code occurs twice |
| Ordering.DeduplicatedCodes | src/streaming_processor.py:278-284 | deduplication loses no product code |
| Ordering.DeduplicatedSubsequence | src/streaming_processor.py:278-284 | deduplication only deletes: the result is a subsequence of the input, no longer and drawn from it |
| Ordering.DeduplicatedKeepsFirsts | src/streaming_processor.py:280-284 | every deal that is the first with its code, or has the empty code, is kept |
| Ordering.DeduplicatedOnlyFirsts | src/streaming_processor.py:280-284 | every kept deal is the first with its code or has the empty code |
| Ordering.DeduplicatedKeepsEmptyCodes | src/streaming_processor.py:280-283 | deals with an empty code all pass through, in order |
| Ordering.DeduplicatedOfUnique | src/streaming_processor.py:278-284 | a list whose codes are already unique is unchanged |
| Ordering.DeduplicatedIdempotent | src/streaming_processor.py:278-284 | deduplicating twice equals deduplicating once |
| Ordering.DuplicatePairDeduplicated | src/streaming_processor.py:280-281 | of two deals sharing a non-empty code only the first survives |
| Ordering.SortByDiscount | src/streaming_processor.py:286 | the sorted list is a permutation of the input with discounts never increasing |
| Ordering.SortStable | src/streaming_processor.py:286 | deals with equal discounts keep their input order |
| Ordering.SortedDeterminedByRuns | src/streaming_processor.py:286 | two sorted lists with the same deals in the same order at every discount are equal, so the stable descending sort is unique |
| Ordering.SortOfSorted | src/processor.py:116 | sorting an already sorted list changes nothing |
| Ordering.SortUnique | src/streaming_processor.py:286 | sorting keeps codes unique |
| Ordering.FinalListFacts | src/streaming_processor.py:273-289 | the final list has unique codes, non-increasing discounts, the input's order among equal discounts, exactly the first deal of each code, and no more deals than the input |
| Ordering.DeduplicateAndSort | src/streaming_processor.py:273-289 | the loop with the set of seen codes, then the sort, yields the deduplicated, sorted list: unique codes, non-increasing discounts, no longer than the input |
| Streaming.PageDeals | src/streaming_processor.py:188-198 | a page gives no more deals than products, each a genuine discount tagged with the page's category and dated with the run date |
| Streaming.PageDealsMembers | src/streaming_processor.py:190-196 | a page's deals are exactly the deals of its normalised, tagged, accepted products |
| Streaming.FetchPage | src/streaming_processor.py:152-198 | fails exactly on a malformed body; a failed request or an empty product list gives no deals; other pages give stamped deals no more than the products |
| Streaming.PagesToScrape | src/streaming_processor.py:232-249 | the page bound is 1 without a page count, the count capped at 100 otherwise, and an invalid count fails |
| Streaming.FirstEmptyPage | src/streaming_processor.py:259-262 | the page found yields no deals and no earlier page in range is empty |
| Streaming.RemainingPages | src/streaming_processor.py:249-268 | the deals of the remaining pages are all stamped with the category and date |
| Streaming.RemainingPagesReadsAll | src/streaming_processor.py:250-264 | when page 0 had products, the loop reads and concatenates every page up to the bound |
| Streaming.RemainingPagesStopsAtEmpty | src/streaming_processor.py:259-262 | when page 0 had none, the loop reads exactly the pages before the first page without deals |
| Streaming.CategoryDeals | src/streaming_processor.py:201-270 | a failed page-0 request gives no deals; a malformed page 0 or invalid page count fails the category; deals are stamped with the category and run date |
| Streaming.CategoryDealsPages | src/streaming_processor.py:237-264 | a category yields page 0's deals followed by every page up to the bound, or up to the first page without deals when page 0 had no products |
| Streaming.CategoryDealsReadsAtMostMaxPages | src/streaming_processor.py:249-250 | clients that agree on pages below 100 give the same category result |
| Streaming.ScrapeCategory | src/streaming_processor.py:201-270 | the page loop with its early exits computes the category result |
| Streaming.Collected | src/streaming_processor.py:315-324 | all collected deals are genuine, dated with the run date and of a configured category |
| Streaming.FailedCategoriesMembers | src/streaming_processor.py:322-324 | a category is listed as failed exactly when its scrape raised |
| Streaming.CollectedAppend | src/streaming_processor.py:315-320 | the deals of two category lists are the deals of each, in order |
| Streaming.FailedCategoryIsSkipped | src/streaming_processor.py:316-324 | a failing category removes only its own deals; the rest are collected as if it were not configured |
| Streaming.RunStreaming | src/streaming_processor.py:292-342 | the list is written exactly when some deal was collected, and what is written is what is returned; nothing written means an empty result; the failed categories are exactly those whose scrape raised |
| Streaming.RunStreamingFinalList | src/streaming_processor.py:328-337 | the final list has unique codes, non-increasing discounts, genuine deals of configured categories dated today, and exactly the first deal of each code |
| Streaming.EarlierCategoryWins | src/streaming_processor.py:278-284 | a deal sharing its non-empty code with a deal of an earlier category is not in the final list |
| Streaming.CrossListedScenario | src/streaming_processor.py:315-337 | with `A1` at 50% off in category A and 30% off in category B, the final list is A's `A1` alone; an undiscounted product is dropped |
| Streaming.RunStreamingProcessor | src/streaming_processor.py:292-342 | the loop over categories, then deduplication and sorting, gives the run's outcome, with unique codes and non-increasing discounts |
| Batch.KeepFirstAccepted | src/processor.py:101-113 | the filtering loop with the set of seen codes keeps exactly the first accepted deal of each code, in input order |
| Batch.RunProcessor | src/processor.py:88-125 | a missing file gives an empty result and no write; otherwise the deduplicated, sorted deals are returned and written, even when empty |
| Batch.BatchDealsFacts | src/processor.py:101-116 | the batch list has unique codes, non-increasing discounts, genuine deals dated today, and exactly the first accepted deal of each code |
| Batch.RejectedProductClaimsNoCode | src/processor.py:104-113 | a rejected product claims no code: removing it leaves the result unchanged |

## Left out

- Network, browser and file I/O: the Playwright request context, headers, `asyncio.sleep(REQUEST_DELAY)`, logging, `json.load`/`json.dump`. They are parameters or have no effect on the returned and written lists.
- `atomic_write_json`: the temporary-file-and-rename write is not modelled. A write is the value `Some(list)`.
- The request parameters `query`, `currentPage` and `pageSize` (`PAGE_SIZE`) are not modelled. They only shape the request, which the `fetch` parameter abstracts.
- `totalNumberOfResults` is not modelled. It is only logged.
- IEEE-754 doubles are not modelled. Prices and discounts are exact reals, so the representation error of binary floating point is left out, and so are `inf`, `nan`, `float` overflow and `1e400`-style literals.
- `FloatParse.ParseDecimal` covers `float()` on ASCII text only: whitespace, an optional sign, digits with an optional point, and an optional exponent. It leaves out `inf`/`nan`, `_` separators, non-ASCII digits and whitespace.
- A JSON null in a product's `code`, `name`, `brandName`, `url` or `_category` is read as an absent key, so the deal carries the default (`""`, or `"unknown"` for the category), where Python stores null in the record. Deduplication is unaffected: a null code, like an empty one, is never merged.
- JSON shapes that make Python raise inside `process_product` are outside the model because raw products are typed. Examples are a list where `price` should be an object, or a non-string `url`.
- A `numberOfPages` that is a float larger than 100 is treated as invalid. Python's `min` turns it into 100.
- A `numberOfPages` that is a boolean is treated as invalid. Python treats it as 0 or 1.
- `Streaming.RemainingPages`: its contract only says the deals are stamped. What it computes is stated by `Streaming.RemainingPagesReadsAll` and `Streaming.RemainingPagesStopsAtEmpty`.
- `src/scraper.py`, `HKTVMall.py` and `src/emailer.py` are not part of this model: they are the older scraper and the notification mailer.
- `src/config.py` is not part of this model apart from the constants `BASE_URL` and `MAX_PAGES`. In this revision it does not define `CATE_SEARCH_API_URL` or `API_TIMEOUT`, or a `query` for each category, although the streaming run imports them.
