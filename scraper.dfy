/** The page loop of `scrape_yes24_books` (yes24/yes24_scraper.py, lines
    36-134): pages 1 to 3 are requested in turn, the records of each page's
    item blocks are appended in order, and a CSV file is written only when
    at least one record was collected.

    The HTTP request and the HTML parsing are not modelled: the answer to
    the request for page `p` is `responses[p - 1]`, either the page's item
    blocks or the request error. */
module Scraper {
  import opened Wrappers
  import opened Numbers
  import opened Listing

  const FirstPage := 1
  const LastPage := 3

  /** The answer to one page request. */
  type Response = Result<seq<ItemBlock>>

  /** What the run leaves on disk: nothing, or a CSV file with one row per
      record. */
  datatype CsvOutput = NoFile | Csv(rows: seq<Book>)

  /** A failed request or a page without item blocks ends the loop. */
  predicate EndsLoop(r: Response) {
    r.Err? || r.value == []
  }

  /** The values of the outcomes that are present, in order: what a loop
      keeps when it skips every element on which `f` fails. */
  function Kept<T, U>(f: T -> Option<U>, xs: seq<T>): (ys: seq<U>)
    ensures |ys| <= |xs|
  {
    if xs == [] then []
    else
      var last := xs[|xs| - 1];
      Kept(f, xs[..|xs| - 1]) + (if f(last).Some? then [f(last).value] else [])
  }

  /** The records of one page: those of the item blocks whose extraction
      did not raise, in document order. */
  function PageRecords(items: seq<ItemBlock>): (books: seq<Book>)
    ensures |books| <= |items|
  {
    Kept(Extract, items)
  }

  /** The number of leading pages whose items are collected: the loop stops
      at the first response that ends it. */
  function PagesRead(responses: seq<Response>): (k: nat)
    ensures k <= |responses|
    ensures forall i :: 0 <= i < k ==> !EndsLoop(responses[i])
    ensures k < |responses| ==> EndsLoop(responses[k])
  {
    if responses == [] || EndsLoop(responses[0]) then 0
    else 1 + PagesRead(responses[1..])
  }

  /** The requests made: every page read, plus the one that ended the loop. */
  function RequestCount(responses: seq<Response>): (n: nat)
    ensures n <= |responses|
    ensures responses != [] ==> n >= 1
  {
    var k := PagesRead(responses);
    if k < |responses| then k + 1 else k
  }

  /** The records of the first `k` pages, page after page. */
  function Collected(responses: seq<Response>, k: nat): seq<Book>
    requires k <= |responses| && forall i :: 0 <= i < k ==> responses[i].Ok?
  {
    if k == 0 then [] else Collected(responses, k - 1) + PageRecords(responses[k - 1].value)
  }

  /** Every record the run collects. */
  function AllRecords(responses: seq<Response>): seq<Book> {
    Collected(responses, PagesRead(responses))
  }

  /** The inner loop over one page's item blocks: each item's record is
      appended to `books`; an item whose extraction raises is skipped. */
  method AppendPage(books: seq<Book>, items: seq<ItemBlock>) returns (result: seq<Book>)
    ensures result == books + PageRecords(items)
  {
    result := books;
    for j := 0 to |items|
      invariant result == books + PageRecords(items[..j])
    {
      var book := Extract(items[j]);
      PageRecordsStep(items, j);
      if book.Some? {
        result := result + [book.value];
      }
    }
    assert items[..|items|] == items;
  }

  /** `scrape_yes24_books`: requests pages 1, 2, 3 until one fails or is
      empty, accumulates the records of the pages read, and writes them when
      there is at least one. */
  method ScrapeBooks(responses: seq<Response>) returns (output: CsvOutput, requested: seq<nat>)
    requires |responses| == LastPage
    ensures |requested| == RequestCount(responses)
    ensures forall i :: 0 <= i < |requested| ==> requested[i] == FirstPage + i
    ensures output == if AllRecords(responses) == [] then NoFile else Csv(AllRecords(responses))
  {
    var allBooks: seq<Book> := [];
    requested := [];
    for page := FirstPage to LastPage + 1
      invariant |requested| == page - FirstPage
      invariant forall i :: 0 <= i < |requested| ==> requested[i] == FirstPage + i
      invariant forall i :: 0 <= i < page - FirstPage ==> !EndsLoop(responses[i])
      invariant allBooks == Collected(responses, page - FirstPage)
    {
      requested := requested + [page];
      var response := responses[page - FirstPage];
      if response.Err? {
        StopsAtFirstEnd(responses, page - FirstPage);
        break;
      }
      var items := response.value;
      if items == [] {
        StopsAtFirstEnd(responses, page - FirstPage);
        break;
      }
      allBooks := AppendPage(allBooks, items);
    }
    if allBooks != [] {
      output := Csv(allBooks);
    } else {
      output := NoFile;
    }
  }

  // ---------------------------------------------------------------------
  // One page

  /** One more element appends its value, if it has one. */
  lemma KeptStep<T, U>(f: T -> Option<U>, xs: seq<T>, j: nat)
    requires j < |xs|
    ensures Kept(f, xs[..j + 1]) == Kept(f, xs[..j]) + (if f(xs[j]).Some? then [f(xs[j]).value] else [])
  {
    assert xs[..j + 1][..j] == xs[..j];
  }

  /** Values of consecutive runs concatenate. */
  lemma {:induction false} KeptAppend<T, U>(f: T -> Option<U>, a: seq<T>, b: seq<T>)
    ensures Kept(f, a + b) == Kept(f, a) + Kept(f, b)
  {
    if b == [] {
      assert a + b == a;
    } else {
      var b' := b[..|b| - 1];
      assert (a + b)[..|a + b| - 1] == a + b';
      KeptAppend(f, a, b');
    }
  }

  /** When no element fails, value i is that of element i. */
  lemma {:induction false} KeptAll<T, U>(f: T -> Option<U>, xs: seq<T>)
    requires forall i :: 0 <= i < |xs| ==> f(xs[i]).Some?
    ensures |Kept(f, xs)| == |xs|
    ensures forall i :: 0 <= i < |xs| ==> Kept(f, xs)[i] == f(xs[i]).value
  {
    if xs != [] {
      var init := xs[..|xs| - 1];
      KeptAll(f, init);
      forall i | 0 <= i < |xs| ensures Kept(f, xs)[i] == f(xs[i]).value {
        if i < |init| { assert xs[i] == init[i]; }
      }
    }
  }

  /** Processing one more item appends its record, if it has one. */
  lemma PageRecordsStep(items: seq<ItemBlock>, j: nat)
    requires j < |items|
    ensures PageRecords(items[..j + 1]) ==
              PageRecords(items[..j]) + (if Extract(items[j]).Some? then [Extract(items[j]).value] else [])
  {
    KeptStep(Extract, items, j);
  }

  /** Records of consecutive runs of items concatenate. */
  lemma PageRecordsAppend(a: seq<ItemBlock>, b: seq<ItemBlock>)
    ensures PageRecords(a + b) == PageRecords(a) + PageRecords(b)
  {
    KeptAppend(Extract, a, b);
  }

  /** An item whose extraction raises is dropped; the items after it on
      the same page are still processed. */
  lemma FailedItemDropped(before: seq<ItemBlock>, bad: ItemBlock, after: seq<ItemBlock>)
    requires !HasContainers(bad)
    ensures PageRecords(before + [bad] + after) == PageRecords(before) + PageRecords(after)
  {
    KeptAppend(Extract, before + [bad], after);
    KeptAppend(Extract, before, [bad]);
    KeptStep(Extract, [bad], 0);
    assert [bad][..1] == [bad] && [bad][..0] == [];
  }

  /** When every item has its containers, each yields exactly one record,
      at its own position. */
  lemma AllItemsExtracted(items: seq<ItemBlock>)
    requires forall i :: 0 <= i < |items| ==> HasContainers(items[i])
    ensures |PageRecords(items)| == |items|
    ensures forall i :: 0 <= i < |items| ==> PageRecords(items)[i] == Extract(items[i]).value
  {
    KeptAll(Extract, items);
  }

  /** A page of three items, two complete and one without its price
      container, yields the two complete items' records only. */
  lemma ThreeItemPageWithoutPriceBlock(good1: ItemBlock, good2: ItemBlock, third: ItemBlock)
    requires HasContainers(good1) && HasContainers(good2) && third.price.None?
    ensures PageRecords([good1, good2, third]) == [Extract(good1).value, Extract(good2).value]
  {
    FailedItemDropped([good1, good2], third, []);
    assert [good1, good2] + [third] + [] == [good1, good2, third];
    AllItemsExtracted([good1, good2]);
  }

  /** Had the third item only lacked the inner price elements, it would
      yield a third record with both prices 0. */
  lemma ThreeItemPageWithoutPrices(good1: ItemBlock, good2: ItemBlock, third: ItemBlock)
    requires HasContainers(good1) && HasContainers(good2) && HasContainers(third)
    requires third.price == Some(PriceBox(None, None, None))
    ensures var books := PageRecords([good1, good2, third]);
            |books| == 3 && books[2].salePrice == 0 && books[2].originalPrice == 0
  {
    var items := [good1, good2, third];
    AllItemsExtracted(items);
    assert items[2] == third;
    ParseShowNat(0);
    assert ShowNat(0) == "0";
  }

  // ---------------------------------------------------------------------
  // The page loop

  /** The first response that ends the loop is the last page requested,
      and only the pages before it contribute records. */
  lemma StopsAtFirstEnd(responses: seq<Response>, k: nat)
    requires k < |responses| && EndsLoop(responses[k])
    requires forall i :: 0 <= i < k ==> !EndsLoop(responses[i])
    ensures PagesRead(responses) == k
    ensures RequestCount(responses) == k + 1
  {
  }

  /** The first pages fix the records collected from them. */
  lemma {:induction false} CollectedPrefix(responses: seq<Response>, others: seq<Response>, k: nat)
    requires k <= |responses| && k <= |others| && responses[..k] == others[..k]
    requires forall i :: 0 <= i < k ==> responses[i].Ok?
    ensures forall i :: 0 <= i < k ==> others[i].Ok?
    ensures Collected(responses, k) == Collected(others, k)
  {
    assert forall i :: 0 <= i < k ==> responses[i] == responses[..k][i] == others[..k][i] == others[i];
    if k > 0 {
      assert responses[..k - 1] == responses[..k][..k - 1];
      assert others[..k - 1] == others[..k][..k - 1];
      CollectedPrefix(responses, others, k - 1);
    }
  }

  /** Once a response ends the loop, the answers to later pages change
      neither the requests made nor the records collected. */
  lemma LaterPagesIgnored(responses: seq<Response>, others: seq<Response>, k: nat)
    requires k < |responses| && k < |others| && responses[..k + 1] == others[..k + 1]
    requires EndsLoop(responses[k])
    ensures PagesRead(responses) == PagesRead(others)
    ensures RequestCount(responses) == RequestCount(others)
    ensures AllRecords(responses) == AllRecords(others)
  {
    var n := PagesRead(responses);
    assert forall i :: 0 <= i <= k ==> responses[i] == responses[..k + 1][i] == others[..k + 1][i] == others[i];
    assert n <= k;
    StopsAtFirstEnd(responses, n);
    StopsAtFirstEnd(others, n);
    assert responses[..n] == responses[..k + 1][..n];
    assert others[..n] == others[..k + 1][..n];
    CollectedPrefix(responses, others, n);
  }

  /** The item blocks of the first `k` pages, page after page. */
  function ItemsOf(responses: seq<Response>, k: nat): seq<ItemBlock>
    requires k <= |responses| && forall i :: 0 <= i < k ==> responses[i].Ok?
  {
    if k == 0 then [] else ItemsOf(responses, k - 1) + responses[k - 1].value
  }

  /** Page boundaries play no part in which records come out or in their
      order: the run's records are those of the items of the pages read,
      taken as one sequence in page-then-item order. */
  lemma {:induction false} CollectedIsPageThenItemOrder(responses: seq<Response>, k: nat)
    requires k <= |responses| && forall i :: 0 <= i < k ==> responses[i].Ok?
    ensures Collected(responses, k) == PageRecords(ItemsOf(responses, k))
  {
    if k > 0 {
      CollectedIsPageThenItemOrder(responses, k - 1);
      PageRecordsAppend(ItemsOf(responses, k - 1), responses[k - 1].value);
    }
  }

  /** A first page that fails or is empty leaves no file behind, after a
      single request. */
  lemma NothingWrittenWhenFirstPageEnds(responses: seq<Response>)
    requires |responses| == LastPage && EndsLoop(responses[0])
    ensures AllRecords(responses) == []
    ensures RequestCount(responses) == 1
  {
  }
}
