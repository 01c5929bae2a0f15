/** One item block of the Yes24 category listing and the listing record the
    scraper normalises it into (yes24/yes24_scraper.py, lines 69-112).

    An item block is what the HTML parser found: each of the four container
    divs (`info_name`, `info_pubGrp`, `info_price`, `info_rating`) may be
    missing, and inside a present container each inner element may be
    missing; a present element is given by its stripped text. */
module Listing {
  import opened Wrappers
  import opened Numbers
  import opened Strings

  /** `div.info_name`: `a.gd_name` and `span.gd_nameE`. */
  datatype NameBox = NameBox(title: Option<string>, subtitle: Option<string>)

  /** `div.info_pubGrp`: `span.info_auth`, `span.info_pub`, `span.info_date`. */
  datatype PubBox = PubBox(author: Option<string>, publisher: Option<string>, date: Option<string>)

  /** `div.info_price`: the discount rate, the sale price and the struck-out
      list price. */
  datatype PriceBox = PriceBox(discount: Option<string>, sale: Option<string>, list: Option<string>)

  /** `div.info_rating`: `span.saleNum`, the review count and the grade. */
  datatype RatingBox = RatingBox(saleNum: Option<string>, reviews: Option<string>, grade: Option<string>)

  /** One `div.itemUnit`; `tags` are the texts of `div.info_tag span.tag a`
      in document order. */
  datatype ItemBlock = ItemBlock(
    name: Option<NameBox>,
    pubGrp: Option<PubBox>,
    price: Option<PriceBox>,
    rating: Option<RatingBox>,
    tags: seq<string>)

  /** A decimal number `mantissa / 10^scale`: the value of a rating such as
      "4.5" (mantissa 45, scale 1). */
  datatype Decimal = Decimal(mantissa: nat, scale: nat)

  const ZeroRating := Decimal(0, 0)

  /** The listing record, one CSV row. */
  datatype Book = Book(
    title: string,
    subtitle: string,
    author: string,
    publisher: string,
    pubDate: string,
    discountRate: nat,
    salePrice: nat,
    originalPrice: nat,
    salesIndex: nat,
    reviewCount: nat,
    rating: Decimal,
    tags: string)

  /** The marker that follows an author's name ("홍길동 저"). */
  const AuthorMark := " 저"
  const TagSeparator := ", "

  predicate HasContainers(item: ItemBlock) {
    item.name.Some? && item.pubGrp.Some? && item.price.Some? && item.rating.Some?
  }

  /** Text fields: the element's text, `""` when the element is absent. */
  function Text(e: Option<string>): string {
    e.GetOr("")
  }

  /** The author text with every `" 저"` removed. */
  function Author(e: Option<string>): string {
    match e
    case Some(t) => RemoveAll(t, AuthorMark)
    case None => ""
  }

  /** The sale price with its thousands separators removed, `"0"` when absent. */
  function SalePriceText(e: Option<string>): string {
    match e
    case Some(t) => RemoveChar(t, ',')
    case None => "0"
  }

  /** The list price cleaned like the sale price; when absent, the sale
      price string itself. */
  function OriginalPriceText(list: Option<string>, sale: Option<string>): string {
    match list
    case Some(t) => RemoveChar(t, ',')
    case None => SalePriceText(sale)
  }

  /** The sales index text reduced to its digits; `"0"` when the element is
      absent or its text is empty. */
  function SalesIndexText(e: Option<string>): string {
    var t := e.GetOr("");
    if t != "" then KeepDigits(t) else "0"
  }

  /** The review count text reduced to its digits; `"0"` when absent. */
  function ReviewCountText(e: Option<string>): string {
    KeepDigits(e.GetOr("0"))
  }

  /** `r.replace('.', '', 1).isdigit()`: the test a rating text must pass. */
  predicate RatingAccepted(r: string) {
    IsDigits(RemoveFirst(r, '.'))
  }

  /** `float(r)` for an accepted rating text, 0.0 otherwise. */
  function ParseRating(r: string): Decimal {
    match ParseDecimal(RemoveFirst(r, '.'))
    case Some(m) =>
      var k := FirstIndex(r, '.');
      Decimal(m, if k < |r| then |r| - k - 1 else 0)
    case None => ZeroRating
  }

  /** The normalisation of one item block. `None` stands for the exception
      raised when a container div is missing (the source calls `select_one`
      on `None`). */
  function Extract(item: ItemBlock): (r: Option<Book>)
    ensures r.Some? <==> HasContainers(item)
    ensures r.Some? && item.price.value.list.None? ==> r.value.originalPrice == r.value.salePrice
  {
    if !HasContainers(item) then None
    else
      var name, pub, price, rating := item.name.value, item.pubGrp.value, item.price.value, item.rating.value;
      Some(Book(
        title := Text(name.title),
        subtitle := Text(name.subtitle),
        author := Author(pub.author),
        publisher := Text(pub.publisher),
        pubDate := Text(pub.date),
        discountRate := ParseIntOrZero(price.discount.GetOr("0")),
        salePrice := ParseIntOrZero(SalePriceText(price.sale)),
        originalPrice := ParseIntOrZero(OriginalPriceText(price.list, price.sale)),
        salesIndex := ParseIntOrZero(SalesIndexText(rating.saleNum)),
        reviewCount := ParseIntOrZero(ReviewCountText(rating.reviews)),
        rating := ParseRating(rating.grade.GetOr("0")),
        tags := Join(item.tags, TagSeparator)))
  }

  // ---------------------------------------------------------------------
  // Numbers printed with thousands separators

  /** A grouped rendering cleans to the same digits whether only ',' or
      every non-digit is removed, and those digits read back as `n`. */
  lemma GroupedCleansToValue(n: nat)
    ensures var g := ShowGrouped(n);
            RemoveChar(g, ',') == KeepDigits(g) && ParseIntOrZero(KeepDigits(g)) == n
  {
    GroupedDigits(n);
    ParseIntOrZeroMeaning(KeepDigits(ShowGrouped(n)));
  }

  lemma {:induction false} GroupedDigits(n: nat)
    ensures var g := ShowGrouped(n);
            RemoveChar(g, ',') == KeepDigits(g) && IsDigits(KeepDigits(g)) &&
            DigitsValue(KeepDigits(g)) == n
  {
    if n < 1000 {
      ShowNatValue(n);
      DigitsAreClean(ShowNat(n));
    } else {
      var g', p := ShowGrouped(n / 1000), Pad3(n % 1000);
      GroupedDigits(n / 1000);
      var d' := KeepDigits(g');
      CleanGroupStep(g', p);
      DigitsValueAppend(d', p);
      Pad3Value(n % 1000);
      assert Pow10(3) == 1000;
    }
  }

  /** Cleaning one more ",ddd" group appends its three digits. */
  lemma CleanGroupStep(g': string, p: string)
    requires AllDigits(p) && RemoveChar(g', ',') == KeepDigits(g')
    ensures RemoveChar(g' + "," + p, ',') == KeepDigits(g' + "," + p) == KeepDigits(g') + p
  {
    assert RemoveChar(",", ',') == [] && KeepDigits(",") == [];
    DigitsAreClean(p);
    RemoveCharAppend(g', ",", ',');
    KeepDigitsAppend(g', ",");
    assert RemoveChar(g' + ",", ',') == KeepDigits(g' + ",") == KeepDigits(g');
    RemoveCharAppend(g' + ",", p, ',');
    KeepDigitsAppend(g' + ",", p);
  }

  /** Every integer field is the value of its cleaned text: the discount
      text as it is, the prices without ',', the counts reduced to their
      digits. */
  lemma IntegerFields(item: ItemBlock)
    requires HasContainers(item)
    ensures var b, price, rating := Extract(item).value, item.price.value, item.rating.value;
            b.discountRate == CleanValue(price.discount.GetOr("0")) &&
            b.salePrice == CleanValue(SalePriceText(price.sale)) &&
            b.originalPrice == CleanValue(OriginalPriceText(price.list, price.sale)) &&
            b.salesIndex == CleanValue(SalesIndexText(rating.saleNum)) &&
            b.reviewCount == CleanValue(ReviewCountText(rating.reviews))
  {
    var price, rating := item.price.value, item.rating.value;
    ParseIntOrZeroMeaning(price.discount.GetOr("0"));
    ParseIntOrZeroMeaning(SalePriceText(price.sale));
    ParseIntOrZeroMeaning(OriginalPriceText(price.list, price.sale));
    ParseIntOrZeroMeaning(SalesIndexText(rating.saleNum));
    ParseIntOrZeroMeaning(ReviewCountText(rating.reviews));
  }

  /** A sale price shown as "12,600" is stored as 12600; an absent list
      price makes the original price equal to it, a present one is read the
      same way. */
  lemma PriceFields(item: ItemBlock, n: nat)
    requires HasContainers(item) && item.price.value.sale == Some(ShowGrouped(n))
    ensures Extract(item).value.salePrice == n
    ensures item.price.value.list.None? ==> Extract(item).value.originalPrice == n
    ensures forall m: nat :: item.price.value.list == Some(ShowGrouped(m)) ==>
              Extract(item).value.originalPrice == m
  {
    GroupedCleansToValue(n);
    forall m: nat | item.price.value.list == Some(ShowGrouped(m))
      ensures Extract(item).value.originalPrice == m
    {
      GroupedCleansToValue(m);
    }
  }

  /** Only ',' is removed from a price, so a price text ending in anything
      else that is not a digit, such as "12,600원", reads as 0. */
  lemma PriceWithSuffix(item: ItemBlock, t: string)
    requires HasContainers(item) && |t| > 0
    requires !IsDigit(t[|t| - 1]) && t[|t| - 1] != ','
    ensures item.price.value.sale == Some(t) ==> Extract(item).value.salePrice == 0
    ensures item.price.value.list == Some(t) ==> Extract(item).value.originalPrice == 0
  {
    var init, last := t[..|t| - 1], t[|t| - 1];
    assert t == init + [last];
    RemoveCharAppend(init, [last], ',');
    assert RemoveChar([last], ',') == [last];
    var r := RemoveChar(t, ',');
    assert r[|r| - 1] == last;
    assert ParseDecimal(r) == None;
  }

  /** The discount rate is parsed without any cleaning: "10" gives 10 but
      "10%" gives 0. */
  lemma DiscountField(item: ItemBlock, n: nat)
    requires HasContainers(item)
    ensures item.price.value.discount == Some(ShowNat(n)) ==> Extract(item).value.discountRate == n
    ensures item.price.value.discount == Some(ShowNat(n) + "%") ==> Extract(item).value.discountRate == 0
    ensures item.price.value.discount.None? ==> Extract(item).value.discountRate == 0
  {
    ParseShowNat(n);
    var t := ShowNat(n) + "%";
    assert !IsDigit(t[|t| - 1]);
  }

  /** Sales index and review count keep only the digits of their text:
      "1,234" and "판매지수 1,234" both give 1234. */
  lemma CountFieldsFromText(prefix: string, n: nat)
    requires forall i :: 0 <= i < |prefix| ==> !IsDigit(prefix[i])
    ensures ParseIntOrZero(SalesIndexText(Some(prefix + ShowGrouped(n)))) == n
    ensures ParseIntOrZero(ReviewCountText(Some(prefix + ShowGrouped(n)))) == n
  {
    var g := ShowGrouped(n);
    GroupedCleansToValue(n);
    KeepDigitsAppend(prefix, g);
    KeepDigitsEmpty(prefix);
    assert KeepDigits(prefix + g) == KeepDigits(g);
  }

  /** Text without a digit, an empty text and an absent element all give a
      sales index and a review count of 0. */
  lemma CountFieldsWithoutDigits(e: Option<string>)
    requires e.Some? ==> forall i :: 0 <= i < |e.value| ==> !IsDigit(e.value[i])
    ensures ParseIntOrZero(SalesIndexText(e)) == 0
    ensures ParseIntOrZero(ReviewCountText(e)) == 0
  {
    if e.Some? {
      KeepDigitsEmpty(e.value);
    } else {
      ParseShowNat(0);
      assert ReviewCountText(e) == "0" == ShowNat(0);
    }
  }

  // ---------------------------------------------------------------------
  // Ratings

  /** A rating text is accepted exactly when it consists of digits and
      points, has at most one point and at least one digit. */
  lemma RatingAcceptance(r: string)
    ensures RatingAccepted(r) <==>
              (forall i :: 0 <= i < |r| ==> IsDigit(r[i]) || r[i] == '.') &&
              Count(r, '.') <= 1 && Count(r, '.') < |r|
    ensures !RatingAccepted(r) ==> ParseRating(r) == ZeroRating
  {
    DigitsAroundOneSeparator(r, '.');
    ParseDecimalMeaning(RemoveFirst(r, '.'));
  }

  /** "w.f" is read as the decimal number w.f. */
  lemma RatingWithPoint(w: string, f: string)
    requires AllDigits(w) && AllDigits(f) && |w| + |f| > 0
    ensures ParseRating(w + "." + f) == Decimal(DigitsValue(w) * Pow10(|f|) + DigitsValue(f), |f|)
  {
    var r := w + "." + f;
    assert '.' !in w by {
      forall i | 0 <= i < |w| ensures w[i] != '.' { assert IsDigit(w[i]); }
    }
    FirstIndexAfter(w, '.', f);
    RemoveFirstAfter(w, '.', f);
    DigitsValueAppend(w, f);
    ParseDecimalMeaning(w + f);
  }

  /** A rating without a point is read as a whole number. */
  lemma RatingWhole(w: string)
    requires IsDigits(w)
    ensures ParseRating(w) == Decimal(DigitsValue(w), 0)
  {
    assert '.' !in w by {
      forall i | 0 <= i < |w| ensures w[i] != '.' { assert IsDigit(w[i]); }
    }
    ParseDecimalMeaning(w);
  }

  /** "4.5" is 4.5, while ".", "4.5.1", "" and an absent grade are 0.0. */
  lemma RatingExamples()
    ensures ParseRating("4.5") == Decimal(45, 1)
    ensures ParseRating(".") == ZeroRating
    ensures ParseRating("4.5.1") == ZeroRating
    ensures ParseRating("") == ZeroRating
    ensures ParseRating(None.GetOr("0")) == ZeroRating
  {
  }

  // ---------------------------------------------------------------------
  // Text fields

  /** The trailing author marker is removed: "홍길동 저" becomes "홍길동". */
  lemma AuthorMarkRemoved(name: string)
    ensures Author(Some(name + AuthorMark)) == Author(Some(name))
  {
    var s := name + AuthorMark;
    forall j | 0 <= j < |name| < j + |AuthorMark| ensures !OccursAt(s, AuthorMark, j) {
      assert j == |name| - 1;
      assert s[j + 1] == ' ';
    }
    RemoveAllAppend(name, AuthorMark, AuthorMark);
    assert AuthorMark[..|AuthorMark|] == AuthorMark;
    assert RemoveAll(AuthorMark, AuthorMark) == RemoveAll([], AuthorMark) == [];
  }

  /** Author text is kept as it is exactly when it contains no " 저". */
  lemma AuthorUnchanged(t: string)
    ensures Author(Some(t)) == t <==> !Occurs(t, AuthorMark)
  {
    RemoveAllUnchanged(t, AuthorMark);
  }

  /** Each absent inner element, independently of the others, gives its
      field's default: an empty text, a zero number, a 0.0 rating. */
  lemma AbsentElementDefaults(item: ItemBlock)
    requires HasContainers(item)
    ensures var b, name, pub := Extract(item).value, item.name.value, item.pubGrp.value;
            (name.title.None? ==> b.title == "") &&
            (name.subtitle.None? ==> b.subtitle == "") &&
            (pub.author.None? ==> b.author == "") &&
            (pub.publisher.None? ==> b.publisher == "") &&
            (pub.date.None? ==> b.pubDate == "")
    ensures var b, price, rating := Extract(item).value, item.price.value, item.rating.value;
            (price.discount.None? ==> b.discountRate == 0) &&
            (price.sale.None? ==> b.salePrice == 0) &&
            (price.sale.None? && price.list.None? ==> b.originalPrice == 0) &&
            (rating.saleNum.None? ==> b.salesIndex == 0) &&
            (rating.reviews.None? ==> b.reviewCount == 0) &&
            (rating.grade.None? ==> b.rating == ZeroRating)
  {
    ParseShowNat(0);
    assert ShowNat(0) == "0";
    CountFieldsWithoutDigits(None);
    RatingWhole("0");
  }

  /** The tags field lists the tag texts in order: empty without tags, and
      split at ", " it gives the tags back when no tag holds a comma. */
  lemma TagsField(item: ItemBlock)
    requires HasContainers(item)
    ensures item.tags == [] ==> Extract(item).value.tags == ""
    ensures item.tags != [] && (forall t, i :: t in item.tags && 0 <= i < |t| ==> t[i] != ',') ==>
              Split(Extract(item).value.tags, TagSeparator) == item.tags
  {
    if item.tags != [] && (forall t, i :: t in item.tags && 0 <= i < |t| ==> t[i] != ',') {
      SplitJoin(item.tags, TagSeparator);
    }
  }
}
