# Yes24 listing collector — a Dafny model

`scrape_yes24_books` (yes24/yes24_scraper.py) collects one category listing
of the Yes24 bookshop. It requests listing pages 1, 2 and 3 in turn. It turns
every `div.itemUnit` block of a page into a flat listing record: title,
subtitle, author, publisher, publication date, discount rate, sale and list
prices, sales index, review count, rating and tags. It writes the records to
a CSV file only when at least one was collected.

The model has five modules:

- `Wrappers`: `Option` and `Result`.
- `Numbers`: Python's `str.isdigit` and `int(...)` on ASCII digits, and the
  decimal renderings (`"12600"`, `"12,600"`) used to state properties.
- `Strings`: the string operations the scraper calls:
  - `replace(",", "")` is `RemoveChar`;
  - `re.sub(r'[^0-9]', '', ...)` is `KeepDigits`;
  - `replace(" 저", "")` is `RemoveAll`;
  - `replace('.', '', 1)` is `RemoveFirst`;
  - `", ".join` is `Join`, with `Split` as its inverse for stating properties.
- `Listing`: an item block and the record it is normalised into. An item
  block holds four optional containers (`info_name`, `info_pubGrp`,
  `info_price`, `info_rating`), each of optional stripped texts, plus the
  tag texts. `Extract` is the body of the item `try` block.
  - It gives `None` exactly when a container is missing: the source then
    calls `select_one` on `None` and the exception drops the item.
  - Every integer field goes through `ParseIntOrZero`, which is
    `int(s) if s.isdigit() else 0`.
  - The rating goes through `ParseRating`, which is
    `float(r) if r.replace('.', '', 1).isdigit() else 0.0`.
- `Scraper`: the page loop, as the method `ScrapeBooks`. The answer to the
  request for page `p` is the input `responses[p - 1]`: either the page's
  item blocks or a request error.
  - An error or an empty page ends the loop (`break`).
  - The item loop is the method `AppendPage`. It appends the record of each
    item whose extraction did not raise.
  - The result is `NoFile`, or `Csv(rows)` when records were collected.
  - The method also returns the page numbers it requested.
  - Both are proved equal to specification functions (`PagesRead`,
    `RequestCount`, `AllRecords`). Lemmas then state what those mean:
    stop at the first failing or empty page, ignore later pages, keep
    page-then-item order, and drop exactly the items without their
    containers.

Three behaviours of the code are easy to misread; the model follows the
code in each:

- An item whose whole `div.info_price` block is missing gives no record.
  `info_price.select_one` is then called on `None`, which raises, and the
  item is dropped (lines 81-82, 115-117). So a page of two complete items
  and one without a price block gives two records
  (`Scraper.ThreeItemPageWithoutPriceBlock`). A record with both prices 0
  comes only from an item whose price block is present but holds no price
  elements (`Scraper.ThreeItemPageWithoutPrices`).
- A failed page request does not skip to the next page. It ends the whole
  loop (lines 122-124).
- Numbers are not stripped of currency markers. The discount rate is not
  cleaned at all, so `"10%"` reads as 0 (`Listing.DiscountField`). The
  prices lose only `,`, so `"12,600원"` reads as 0
  (`Listing.PriceWithSuffix`).

## Model

| member | source | states |
|---|---|---|
| Numbers.ParseDecimalMeaning | yes24/yes24_scraper.py:105-109 | the digit parser behind `ParseIntOrZero` accepts exactly the non-empty all-digit strings and reads them as their base-ten value |
| Numbers.ParseIntOrZeroMeaning | yes24/yes24_scraper.py:105-109 | `ParseIntOrZero`, the rule `int(s) if s.isdigit() else 0`, equals the reference `CleanValue`: the decimal value of an all-digit string and 0 for every other string, `""` included |
| Numbers.ParseShowNat | yes24/yes24_scraper.py:105-109 | reading the decimal rendering of any n gives n back |
| Numbers.DigitsValue | yes24/yes24_scraper.py:105-109 | the value of a k-digit string is below 10^k |
| Strings.RemoveChar | yes24/yes24_scraper.py:83-84 | `replace(",", "")` never lengthens the text |
| Strings.RemoveCharRemoves | yes24/yes24_scraper.py:83-84 | after `replace(c, "")` no `c` is left and every other character of the text still occurs |
| Strings.RemoveCharAppend | yes24/yes24_scraper.py:83-84 | removing a character distributes over concatenation |
| Strings.RemoveCharAbsent | yes24/yes24_scraper.py:83-84 | a text without the character is unchanged |
| Strings.KeepDigits | yes24/yes24_scraper.py:89-92 | `re.sub(r'[^0-9]', '', t)` never lengthens the text |
| Strings.KeepDigitsKeepsDigits | yes24/yes24_scraper.py:89-92 | `re.sub(r'[^0-9]', '', t)` leaves only digits, and every digit of the text still occurs |
| Strings.KeepDigitsAppend | yes24/yes24_scraper.py:89-92 | keeping digits distributes over concatenation |
| Strings.KeepDigitsEmpty | yes24/yes24_scraper.py:89-92 | the result is empty exactly when the text has no digit |
| Strings.KeepDigitsOfDigits | yes24/yes24_scraper.py:89-92 | an all-digit text is unchanged |
| Strings.DigitsAreClean | yes24/yes24_scraper.py:83-92 | both cleanings leave an all-digit text unchanged |
| Strings.RemoveAll | yes24/yes24_scraper.py:76 | `t.replace(pat, "")` never lengthens the text |
| Strings.RemoveAllUnchanged | yes24/yes24_scraper.py:76 | `t.replace(pat, "")` returns `t` exactly when `pat` does not occur in `t` |
| Strings.RemoveAllAppend | yes24/yes24_scraper.py:76 | when no occurrence straddles the boundary, removing every occurrence distributes over concatenation |
| Strings.RemoveFirst | yes24/yes24_scraper.py:110 | `replace('.', '', 1)` removes one character when the text contains `'.'` and changes nothing otherwise |
| Strings.RemoveFirstAfter | yes24/yes24_scraper.py:110 | the character removed is the first `'.'`: `u + "." + v` becomes `u + v` when `u` has no `'.'` |
| Strings.RemoveFirstAt | yes24/yes24_scraper.py:110 | the text is cut around its first `'.'` |
| Strings.DigitsAroundOneSeparator | yes24/yes24_scraper.py:110 | removing the first separator leaves a non-empty run of digits exactly when the text has only digits and separators, at most one separator and at least one digit |
| Strings.SplitJoin | yes24/yes24_scraper.py:111 | `Join`, the `", ".join`, is undone by splitting at the separator when there is at least one part and no part holds a comma |
| Listing.Extract | yes24/yes24_scraper.py:69-112 | an item yields a record exactly when `HasContainers` holds, that is when all four container divs are present; an absent list price makes the original price equal to the sale price |
| Listing.IntegerFields | yes24/yes24_scraper.py:82-92 | each integer field is `CleanValue` of its cleaned text: the discount text as it is, the prices after `SalePriceText` / `OriginalPriceText` (`,` removed, `"0"` or the sale price text when absent), the counts after `SalesIndexText` / `ReviewCountText` (digits only, `"0"` when absent or empty) |
| Listing.PriceFields | yes24/yes24_scraper.py:83-84 | a sale price shown with thousands separators is read as its value; an absent list price gives that same value; a present one is read the same way |
| Listing.PriceWithSuffix | yes24/yes24_scraper.py:83-84 | a sale or list price text ending in a character that is neither a digit nor `,`, such as `"12,600원"`, reads as 0 |
| Listing.DiscountField | yes24/yes24_scraper.py:82 | a discount given as digits is read as its value; `"10%"` and an absent element give 0 |
| Listing.CountFieldsFromText | yes24/yes24_scraper.py:88-92 | a sales index or review count text made of a digit-free prefix and a grouped number (`"1,234"`, `"판매지수 1,234"`) gives that number |
| Listing.CountFieldsWithoutDigits | yes24/yes24_scraper.py:88-92 | a text without digits, an empty text and an absent element give 0 for both counts |
| Listing.GroupedCleansToValue | yes24/yes24_scraper.py:83-92 | a number printed with thousands separators cleans to the same digits by either rule and reads back as the number |
| Listing.RatingAcceptance | yes24/yes24_scraper.py:94 | `RatingAccepted` (the test `r.replace('.', '', 1).isdigit()`) holds exactly when the text has only digits and points, at most one point and at least one digit; `ParseRating` of a rejected text is 0.0 |
| Listing.RatingWithPoint | yes24/yes24_scraper.py:110 | `ParseRating` reads `"w.f"` as the decimal number w.f, with one fractional digit of scale per digit of f |
| Listing.RatingWhole | yes24/yes24_scraper.py:110 | `ParseRating` reads a rating without a point as a whole number |
| Listing.RatingExamples | yes24/yes24_scraper.py:94 | `"4.5"` is 4.5, while `"."`, `"4.5.1"`, `""` and an absent grade are 0.0 |
| Listing.AuthorMarkRemoved | yes24/yes24_scraper.py:76 | `Author` removes a trailing `" 저"` |
| Listing.AuthorUnchanged | yes24/yes24_scraper.py:76 | `Author` keeps the text unchanged exactly when it contains no `" 저"` |
| Listing.AbsentElementDefaults | yes24/yes24_scraper.py:70-94 | each absent inner element, on its own, gives `""` for a text field (`Text`, `Author`), 0 for a number and 0.0 for the rating |
| Listing.TagsField | yes24/yes24_scraper.py:97 | no tags give `""`; when there are tags and none holds a comma, the field splits back at `", "` into the tag texts in document order |
| Scraper.PageRecords | yes24/yes24_scraper.py:67-117 | a page yields at most one record per item block |
| Scraper.PagesRead | yes24/yes24_scraper.py:63-65 | the pages read are the leading pages on which `EndsLoop` (failed or empty) is false, and the next one ends the loop |
| Scraper.RequestCount | yes24/yes24_scraper.py:38-65 | no more requests than pages, and at least one |
| Scraper.AppendPage | yes24/yes24_scraper.py:67-117 | the item loop appends exactly the page's records to those collected so far |
| Scraper.ScrapeBooks | yes24/yes24_scraper.py:36-134 | pages 1, 2, … are requested in order up to the first failing or empty one; the output is no file when no record was collected and otherwise every record of the pages read |
| Scraper.PageRecordsStep | yes24/yes24_scraper.py:67-113 | one more item appends its record, or nothing when its extraction raises |
| Scraper.PageRecordsAppend | yes24/yes24_scraper.py:67-117 | the records of consecutive runs of items concatenate |
| Scraper.FailedItemDropped | yes24/yes24_scraper.py:115-117 | an item without its containers is dropped and the items after it are still processed |
| Scraper.AllItemsExtracted | yes24/yes24_scraper.py:67-113 | when every item has its containers, record i is the normalisation of item i |
| Scraper.ThreeItemPageWithoutPriceBlock | yes24/yes24_scraper.py:81-82 | two complete items and one without its price container give the two complete records only |
| Scraper.ThreeItemPageWithoutPrices | yes24/yes24_scraper.py:81-84 | an item whose price container holds no price elements still gives a record, with both prices 0 |
| Scraper.StopsAtFirstEnd | yes24/yes24_scraper.py:63-65 | the first failing or empty page is the last one requested |
| Scraper.LaterPagesIgnored | yes24/yes24_scraper.py:122-124 | the answers to pages after the one that ended the loop change neither the requests nor the records |
| Scraper.CollectedIsPageThenItemOrder | yes24/yes24_scraper.py:113 | the records are those of the items of the pages read, taken in page-then-item order |
| Scraper.NothingWrittenWhenFirstPageEnds | yes24/yes24_scraper.py:127-134 | when page 1 fails or is empty, one request is made and no record is collected, so no file is written |

## Left out

- The HTTP request is not modelled: the URL, headers and query parameters (lines 18-54), `requests.get` and `raise_for_status`. Each page's answer is an input, either item blocks or an error.
- `ScrapeBooks` takes one answer for each of the three pages (`|responses| == 3`). An answer that is never requested plays no part (`Scraper.LaterPagesIgnored`).
- BeautifulSoup parsing and CSS selection are not modelled: an item block is given as optional, already stripped texts.
- Exceptions other than a missing container are not modelled: inside the item loop, and on the page (parsing errors other than `requests.RequestException`).
- `time.sleep`, loguru logging and the log file (line 10) are I/O and are left out.
- `os.makedirs`, the pandas data frame and `to_csv` with `utf-8-sig` are I/O. The output is the sequence of rows, or no file.
- Listing.ParseRating: the rating is the exact decimal `mantissa / 10^scale`, not the rounded binary float that `float()` returns. It is not normalised either: `"4.5"` and `"4.50"` give `Decimal(45, 1)` and `Decimal(450, 2)`, the same number but different record values, whereas the source gives the same float and the same CSV cell. Equality of two records is therefore not equality of their ratings as numbers.
- Numbers.IsDigit: digits are ASCII `'0'..'9'` only. Python's `isdigit` accepts more, and the model does not follow it there:
  - Decimal digits of other scripts, such as the full-width `"１２"`, pass `isdigit`, and `int()` and `float()` read them. The source gives 12 for such a discount rate or price, and 4.5 for the rating `"４.５"`; the model gives 0 and 0.0.
  - Other digit characters, such as `"²"`, also pass `isdigit`, but `int()` and `float()` raise on them and the item is dropped. The model keeps the item with 0 in that field.
  - The sales index and review count are not affected: `re.sub(r'[^0-9]', '', ...)` already removes every non-ASCII digit before the test.
- starbucks_stores/data/starbucks_scraper.py is not part of this model: a network loop over region codes with nothing to verify.
- yes24/agent_eda.py is not part of this model: data-frame loading, float conversions and chart rendering.
