/** The batch run `run_processor` (src/processor.py:88-125): load the raw
    products saved by the scraper, keep the accepted ones, drop later deals
    whose code was already kept, sort by discount and write the list.

    The file system is a parameter: `raws` is `None` when the raw products
    file does not exist, otherwise its decoded contents. */
module Batch {
  import opened Common
  import opened Products
  import opened Ordering

  /** The list `run_processor` returns and writes for the raw products `raws`. */
  function BatchDeals(raws: seq<RawProduct>, today: string): seq<Deal> {
    SortByDiscount(Deduplicated(Accepted(raws, today, BaseUrl)))
  }

  /** The loop of `run_processor`: each raw product is run through
      `process_product`, rejected ones are skipped, and an accepted deal is
      kept unless its non-empty code was kept before. */
  method KeepFirstAccepted(products: seq<RawProduct>, today: string) returns (kept: seq<Deal>)
    ensures kept == Deduplicated(Accepted(products, today, BaseUrl))
  {
    var seen: set<string> := {};
    kept := [];
    for i := 0 to |products|
      invariant kept == Deduplicated(Accepted(products[..i], today, BaseUrl))
      invariant seen == Codes(Accepted(products[..i], today, BaseUrl)) - {""}
    {
      var raw := products[i];
      var accepted := Accepted(products[..i], today, BaseUrl);
      assert products[..i + 1] == products[..i] + [raw];
      AcceptedSnoc(products[..i], raw, today);
      var deal := ProcessProduct(raw, today, BaseUrl);
      if deal.None? {
        assert Accepted(products[..i + 1], today, BaseUrl) == accepted + [];
        assert accepted + [] == accepted;
        continue;
      }
      var d := deal.value;
      assert Accepted(products[..i + 1], today, BaseUrl) == accepted + [d];
      DeduplicatedSnoc(accepted, d);
      CodesSnoc(accepted, d);
      var code := d.productCode;
      if code != "" && code in seen {
        continue;
      }
      if code != "" {
        seen := seen + {code};
      }
      kept := kept + [d];
    }
    assert products[..|products|] == products;
  }

  /** `run_processor`: with no raw products file nothing is written and the
      result is empty; otherwise the deduplicated, sorted deals are returned
      and written, even when there are none. */
  method RunProcessor(raws: Option<seq<RawProduct>>, today: string)
    returns (deals: seq<Deal>, written: Option<seq<Deal>>)
    ensures raws.None? ==> deals == [] && written.None?
    ensures raws.Some? ==> written == Some(deals) && deals == BatchDeals(raws.value, today)
    ensures UniqueCodes(deals) && SortedByDiscount(deals)
    ensures forall d :: d in deals ==> GenuineDiscount(d) && d.scrapedDate == today
  {
    if raws.None? {
      return [], None;
    }
    var kept := KeepFirstAccepted(raws.value, today);
    deals := SortByDiscount(kept);
    written := Some(deals);
    BatchDealsFacts(raws.value, today);
  }

  /** One more raw product adds its deal, if accepted, at the end. */
  lemma AcceptedSnoc(raws: seq<RawProduct>, raw: RawProduct, today: string)
    ensures var deal := ProcessProduct(raw, today, BaseUrl);
            Accepted(raws + [raw], today, BaseUrl)
            == Accepted(raws, today, BaseUrl) + (if deal.Some? then [deal.value] else [])
  {
    AcceptedAppend(raws, [raw], today, BaseUrl);
    AcceptedSingle(raw, today, BaseUrl);
  }

  /** The batch list: unique non-empty codes, discounts never increasing,
      genuine discounts dated `today`, and exactly the first accepted deal of
      each code. */
  lemma BatchDealsFacts(raws: seq<RawProduct>, today: string)
    ensures var accepted := Accepted(raws, today, BaseUrl);
            var r := BatchDeals(raws, today);
            && UniqueCodes(r)
            && SortedByDiscount(r)
            && |r| <= |raws|
            && (forall d :: d in r ==> GenuineDiscount(d) && d.scrapedDate == today)
            && (forall i :: 0 <= i < |accepted| && IsFirstOfCode(accepted, i) ==> accepted[i] in r)
            && (forall x :: x in r ==> exists i :: 0 <= i < |accepted| && IsFirstOfCode(accepted, i) && accepted[i] == x)
  {
    var accepted := Accepted(raws, today, BaseUrl);
    var r := BatchDeals(raws, today);
    FinalListFacts(accepted);
    forall d | d in r
      ensures d in accepted
    {
      var i :| 0 <= i < |accepted| && IsFirstOfCode(accepted, i) && accepted[i] == d;
    }
  }

  /** Deduplication runs after the accept/reject rule: a rejected product
      claims no code, so removing it changes nothing, and a later accepted
      product with the same code is kept. */
  lemma RejectedProductClaimsNoCode(a: seq<RawProduct>, raw: RawProduct, b: seq<RawProduct>, today: string)
    requires ProcessProduct(raw, today, BaseUrl).None?
    ensures BatchDeals(a + [raw] + b, today) == BatchDeals(a + b, today)
  {
    AcceptedAppend(a + [raw], b, today, BaseUrl);
    AcceptedAppend(a, [raw], today, BaseUrl);
    AcceptedAppend(a, b, today, BaseUrl);
    AcceptedSingle(raw, today, BaseUrl);
    assert Accepted(a, today, BaseUrl) + [] == Accepted(a, today, BaseUrl);
  }
}
