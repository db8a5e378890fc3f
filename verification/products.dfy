/** The product normaliser and the accept/reject rule that turns one raw
    product of the category-search feed into a deal record.

    `process_product` and `_safe_float` exist as identical copies in
    src/streaming_processor.py and src/processor.py; both call sites use the
    single definition here. */
module Products {
  import opened Common
  import opened FloatParse
  import opened Rounding

  /** `BASE_URL` in src/config.py:14, prefixed to relative product URLs. */
  const BaseUrl: string := "https://www.hktvmall.com"

  /** One entry of a raw product's `images` list. */
  datatype Image = Image(url: Option<string>)

  /** `stock.stockLevelStatus` of a raw product. */
  datatype StockLevelStatus = StockLevelStatus(code: Option<string>)

  /** `stock` of a raw product. */
  datatype Stock = Stock(stockLevelStatus: Option<StockLevelStatus>)

  /** A raw product as the feed delivers it. `None` stands for an absent key;
      for `price` and `promotionPrice` it also stands for JSON null. A null
      `code`, `name`, `brandName`, `url` or `_category` is also read as absent,
      so the deal gets the default text where Python would store null. Absent
      lists are empty. `category` is the `_category` tag the pipeline adds. */
  datatype RawProduct = RawProduct(
    code: Option<string>,
    name: Option<string>,
    brandName: Option<string>,
    price: Option<Object>,
    promotionPrice: Option<Object>,
    priceList: seq<Object>,
    images: seq<Image>,
    url: Option<string>,
    stock: Option<Stock>,
    category: Option<string>)

  /** The deal record the pipeline persists. */
  datatype Deal = Deal(
    productCode: string,
    productName: string,
    brand: string,
    originalPrice: real,
    salePrice: real,
    discountPct: real,
    category: string,
    imageUrl: string,
    productUrl: string,
    inStock: bool,
    scrapedDate: string)

  // ---------------------------------------------------------------------
  // _normalize_product

  predicate IsDiscountEntry(e: Object) {
    Get(e, "priceType") == Some(JStr("DISCOUNT"))
  }

  /** Position of the first `DISCOUNT` entry of a price list, if any. */
  function FirstDiscount(priceList: seq<Object>): (r: Option<nat>)
    ensures r.Some? ==>
              && r.value < |priceList|
              && IsDiscountEntry(priceList[r.value])
              && forall j :: 0 <= j < r.value ==> !IsDiscountEntry(priceList[j])
    ensures r.None? ==> forall j :: 0 <= j < |priceList| ==> !IsDiscountEntry(priceList[j])
    decreases |priceList|
  {
    if priceList == [] then None
    else if IsDiscountEntry(priceList[0]) then Some(0)
    else
      var rest := FirstDiscount(priceList[1..]);
      if rest.None? then None else Some(rest.value + 1)
  }

  /** The `promotionPrice` object built from a `DISCOUNT` entry: its currency
      (default `HKD`), its value (null when absent) and its formatted text
      (default empty). */
  function PromotionFrom(e: Object): Object {
    map[
      "currencyIso" := GetOrDefault(e, "currencyIso", JStr("HKD")),
      "value" := GetOrDefault(e, "value", JNull),
      "formattedValue" := GetOrDefault(e, "formattedValue", JStr(""))
    ]
  }

  /** `_normalize_product`: copy the first `DISCOUNT` entry of `priceList`
      into `promotionPrice`; later `DISCOUNT` entries are ignored, and with
      none the product is returned unchanged. */
  function Normalize(p: RawProduct): (r: RawProduct)
    ensures r.(promotionPrice := p.promotionPrice) == p
    ensures (forall i :: 0 <= i < |p.priceList| ==> !IsDiscountEntry(p.priceList[i])) ==> r == p
    ensures forall i ::
              (0 <= i < |p.priceList| && IsDiscountEntry(p.priceList[i])
               && forall j :: 0 <= j < i ==> !IsDiscountEntry(p.priceList[j]))
              ==> r.promotionPrice == Some(PromotionFrom(p.priceList[i]))
  {
    var first := FirstDiscount(p.priceList);
    if first.None? then p
    else p.(promotionPrice := Some(PromotionFrom(p.priceList[first.value])))
  }

  /** After normalisation the sale price read by `process_product` is the
      value of the first `DISCOUNT` entry, read by the same `_safe_float`. */
  lemma NormalizedSalePrice(p: RawProduct, i: nat)
    requires i < |p.priceList| && IsDiscountEntry(p.priceList[i])
    requires forall j :: 0 <= j < i ==> !IsDiscountEntry(p.priceList[j])
    ensures SafeFloat(Normalize(p).promotionPrice, "value") == SafeFloat(Some(p.priceList[i]), "value")
  {
    var e := p.priceList[i];
    assert Normalize(p).promotionPrice == Some(PromotionFrom(e));
    if "value" !in e {
      assert PromotionFrom(e)["value"] == JNull;
    } else {
      assert PromotionFrom(e)["value"] == e["value"];
    }
  }

  // ---------------------------------------------------------------------
  // Field derivations of process_product

  /** A protocol-relative URL (`//host/...`) gets the `https:` scheme. */
  function WithScheme(img: string): (r: string)
    ensures !StartsWith(r, "//")
    ensures EndsWith(r, img)
    ensures StartsWith(img, "//") ==> r == "https:" + img
    ensures !StartsWith(img, "//") ==> r == img
  {
    if StartsWith(img, "//") then
      var r := "https:" + img;
      assert r[|r| - |img|..] == img;
      assert r[0] == 'h';
      r
    else
      assert img[|img| - |img|..] == img;
      img
  }

  /** The image URL of a deal: empty without images, otherwise the first
      image's `url` (default empty) with its scheme fixed. */
  function ImageUrl(images: seq<Image>): (r: string)
    ensures images == [] ==> r == ""
    ensures !StartsWith(r, "//")
    ensures images != [] && StartsWith(images[0].url.GetOr(""), "//") ==>
              r == "https:" + images[0].url.GetOr("")
    ensures images != [] && !StartsWith(images[0].url.GetOr(""), "//") ==>
              r == images[0].url.GetOr("")
  {
    if images == [] then "" else WithScheme(images[0].url.GetOr(""))
  }

  /** The product URL of a deal: a non-empty relative `url` is prefixed with
      the site's base URL, anything else is kept. */
  function ProductUrl(url: Option<string>, baseUrl: string): (r: string)
    ensures var u := url.GetOr("");
            && EndsWith(r, u)
            && (u == "" ==> r == "")
            && (StartsWith(u, "http") ==> r == u)
            && (u != "" && !StartsWith(u, "http") ==> r == baseUrl + u)
  {
    var u := url.GetOr("");
    if u != [] && !StartsWith(u, "http") then
      var r := baseUrl + u;
      assert r[|r| - |u|..] == u;
      r
    else
      assert u[|u| - |u|..] == u;
      u
  }

  /** With an absolute base URL every non-empty product URL is absolute, and
      making it absolute again changes nothing. */
  lemma ProductUrlIdempotent(url: Option<string>, baseUrl: string)
    requires StartsWith(baseUrl, "http")
    ensures url.GetOr("") != "" ==> StartsWith(ProductUrl(url, baseUrl), "http")
    ensures ProductUrl(Some(ProductUrl(url, baseUrl)), baseUrl) == ProductUrl(url, baseUrl)
  {
    var u := url.GetOr("");
    if u != "" && !StartsWith(u, "http") {
      var r := baseUrl + u;
      assert r[..4] == baseUrl[..4];
    }
  }

  /** `stock.stockLevelStatus.code == "inStock"`, a missing level reading as
      out of stock. */
  function InStock(stock: Option<Stock>): (r: bool)
    ensures r <==> && stock.Some?
                   && stock.value.stockLevelStatus.Some?
                   && stock.value.stockLevelStatus.value.code == Some("inStock")
  {
    var status := stock.GetOr(Stock(None)).stockLevelStatus.GetOr(StockLevelStatus(None));
    status.code.GetOr("") == "inStock"
  }

  /** The unrounded discount percentage. */
  function ExactDiscount(original: real, sale: real): real
    requires original != 0.0
  {
    (original - sale) / original * 100.0
  }

  /** A genuine discount lies strictly between 0 and 100 percent. */
  lemma DiscountBounds(original: real, sale: real)
    requires 0.0 < sale < original
    ensures 0.0 < ExactDiscount(original, sale) < 100.0
  {
    QuotientBounds(original - sale, original);
  }

  lemma QuotientBounds(n: real, d: real)
    requires 0.0 < n < d
    ensures 0.0 < n / d < 1.0
  {
    var q := n / d;
    assert q * d == n;
    assert (1.0 - q) * d == d - n;
    PositiveFactor(q, d);
    PositiveFactor(1.0 - q, d);
  }

  lemma PositiveFactor(x: real, y: real)
    requires y > 0.0 && x * y > 0.0
    ensures x > 0.0
  {
  }

  // ---------------------------------------------------------------------
  // process_product

  /** The rejection rule: a price missing or unreadable, a price not
      positive, or a sale price that is not below the original price. */
  predicate Rejected(original: Option<real>, sale: Option<real>) {
    || original.None?
    || sale.None?
    || original.value <= 0.0
    || sale.value <= 0.0
    || sale.value >= original.value
  }

  /** A genuine discount: both prices positive, the sale price strictly
      below the original, and a stored percentage in [0, 100]. */
  predicate GenuineDiscount(d: Deal) {
    && 0.0 < d.salePrice < d.originalPrice
    && 0.0 <= d.discountPct <= 100.0
  }

  /** `d` is the record `process_product` builds from `raw`: the two prices
      as `_safe_float` reads them, the discount rounded to two decimals, the
      identity fields copied (code, name and brand defaulting to empty, the
      category to `unknown`), the derived URLs and stock flag, and the run's
      date. */
  predicate IsDealOf(d: Deal, raw: RawProduct, scrapedDate: string, baseUrl: string) {
    && SafeFloat(raw.price, "value") == Some(d.originalPrice)
    && SafeFloat(raw.promotionPrice, "value") == Some(d.salePrice)
    && d.originalPrice != 0.0
    && d.discountPct == Round2(ExactDiscount(d.originalPrice, d.salePrice))
    && d.productCode == raw.code.GetOr("")
    && d.productName == raw.name.GetOr("")
    && d.brand == raw.brandName.GetOr("")
    && d.category == raw.category.GetOr("unknown")
    && d.imageUrl == ImageUrl(raw.images)
    && d.productUrl == ProductUrl(raw.url, baseUrl)
    && d.inStock == InStock(raw.stock)
    && d.scrapedDate == scrapedDate
  }

  /** `process_product`: `None` exactly when the rejection rule applies;
      otherwise the deal built from `raw`, which carries a genuine discount. */
  function ProcessProduct(raw: RawProduct, scrapedDate: string, baseUrl: string): (r: Option<Deal>)
    ensures r.None? <==> Rejected(SafeFloat(raw.price, "value"), SafeFloat(raw.promotionPrice, "value"))
    ensures r.Some? ==> GenuineDiscount(r.value) && IsDealOf(r.value, raw, scrapedDate, baseUrl)
  {
    var original := SafeFloat(raw.price, "value");
    var sale := SafeFloat(raw.promotionPrice, "value");
    if original.None? || sale.None? then None
    else if original.value <= 0.0 || sale.value <= 0.0 then None
    else if sale.value >= original.value then None
    else
      var exact := ExactDiscount(original.value, sale.value);
      DiscountBounds(original.value, sale.value);
      Round2Percent(exact);
      Some(Deal(
        productCode := raw.code.GetOr(""),
        productName := raw.name.GetOr(""),
        brand := raw.brandName.GetOr(""),
        originalPrice := original.value,
        salePrice := sale.value,
        discountPct := Round2(exact),
        category := raw.category.GetOr("unknown"),
        imageUrl := ImageUrl(raw.images),
        productUrl := ProductUrl(raw.url, baseUrl),
        inStock := InStock(raw.stock),
        scrapedDate := scrapedDate))
  }

  /** Every accepted deal's unrounded discount lies strictly between 0 and
      100, and its stored discount is that value rounded to two decimals. */
  lemma AcceptedDiscountIsGenuine(raw: RawProduct, scrapedDate: string, baseUrl: string)
    requires ProcessProduct(raw, scrapedDate, baseUrl).Some?
    ensures var d := ProcessProduct(raw, scrapedDate, baseUrl).value;
            && 0.0 < ExactDiscount(d.originalPrice, d.salePrice) < 100.0
            && -0.005 <= d.discountPct - ExactDiscount(d.originalPrice, d.salePrice) <= 0.005
  {
    var d := ProcessProduct(raw, scrapedDate, baseUrl).value;
    DiscountBounds(d.originalPrice, d.salePrice);
  }

  /** A deeper discount never gets a smaller stored percentage: for the same
      original price, a lower sale price rounds to at least the same value. */
  lemma DiscountOrdersBySalePrice(original: real, sale1: real, sale2: real)
    requires 0.0 < sale1 <= sale2 < original
    ensures Round2(ExactDiscount(original, sale2)) <= Round2(ExactDiscount(original, sale1))
  {
    var q1, q2 := (original - sale1) / original, (original - sale2) / original;
    assert q1 * original == original - sale1;
    assert q2 * original == original - sale2;
    Round2Monotone(ExactDiscount(original, sale2), ExactDiscount(original, sale1));
  }

  // ---------------------------------------------------------------------
  // Filtering a list of raw products

  /** `process_product` with the run's date and base URL fixed. */
  function Processor(scrapedDate: string, baseUrl: string): RawProduct -> Option<Deal> {
    raw => ProcessProduct(raw, scrapedDate, baseUrl)
  }

  /** The deals of a list of raw products, in input order, rejected products
      dropped; each is a genuine discount stamped with the run's date. */
  function Accepted(raws: seq<RawProduct>, scrapedDate: string, baseUrl: string): (r: seq<Deal>)
    ensures |r| <= |raws|
    ensures forall d :: d in r ==> GenuineDiscount(d) && d.scrapedDate == scrapedDate
  {
    var r := FilterMap(raws, Processor(scrapedDate, baseUrl));
    FilterMapMembers(raws, Processor(scrapedDate, baseUrl));
    r
  }

  /** Filtering distributes over concatenation: the deals of `a + b` are the
      deals of `a` followed by the deals of `b`. */
  lemma AcceptedAppend(a: seq<RawProduct>, b: seq<RawProduct>, scrapedDate: string, baseUrl: string)
    ensures Accepted(a + b, scrapedDate, baseUrl)
            == Accepted(a, scrapedDate, baseUrl) + Accepted(b, scrapedDate, baseUrl)
  {
    FilterMapAppend(a, b, Processor(scrapedDate, baseUrl));
  }

  /** A single raw product yields its deal, or nothing when rejected. */
  lemma AcceptedSingle(raw: RawProduct, scrapedDate: string, baseUrl: string)
    ensures var deal := ProcessProduct(raw, scrapedDate, baseUrl);
            Accepted([raw], scrapedDate, baseUrl) == (if deal.Some? then [deal.value] else [])
  {
    assert [raw][1..] == [];
  }

  /** A raw product is represented in the filtered list exactly when it is
      accepted: every accepted product's deal is in it, and every deal in it
      is the deal of some input product. */
  lemma {:induction false} AcceptedMembers(raws: seq<RawProduct>, scrapedDate: string, baseUrl: string)
    ensures forall i :: 0 <= i < |raws| && ProcessProduct(raws[i], scrapedDate, baseUrl).Some?
              ==> ProcessProduct(raws[i], scrapedDate, baseUrl).value in Accepted(raws, scrapedDate, baseUrl)
    ensures forall d :: d in Accepted(raws, scrapedDate, baseUrl)
              ==> exists i :: 0 <= i < |raws| && ProcessProduct(raws[i], scrapedDate, baseUrl) == Some(d)
  {
    FilterMapMembers(raws, Processor(scrapedDate, baseUrl));
  }
}
