/** The record filter inside the crawl loop: for each
    `.s-main-slot .s-result-item` node, in document order, the callback of
    `.each` trims the title, first price and rating texts, makes the detail
    URL absolute, and pushes `[title, price, rating, url]` onto `products`
    when title, price and url are all truthy. The selector lookups
    themselves are done by cheerio; here each node arrives as the texts
    those lookups return. */
module Extract {
  import opened Basics
  import opened Strings
  import opened Seqs

  /** The raw texts read from one result node: `h2 a span` text, the first
      `.a-price span.a-offscreen` text, `.a-row span.a-icon-alt` text, and
      the `href` attribute of `h2 a`, which is `undefined` when there is no
      such anchor. */
  datatype ResultItem = ResultItem(titleText: string, priceText: string, ratingText: string, href: Option<string>)

  /** One row of the batch, `[title, price, rating, url]`. */
  datatype Product = Product(title: string, price: string, rating: string, url: string)

  const Origin: string := "https://www.amazon.com"

  /** `'https://www.amazon.com' + href`. JavaScript renders an `undefined`
      operand of `+` as the text "undefined". */
  function AbsoluteUrl(href: Option<string>): string
  {
    Origin + (match href case Some(h) => h case None => "undefined")
  }

  /** The URL always starts with the origin, so it is never empty; the
      `href`, or "undefined" when there is none, follows. */
  lemma AbsoluteUrlShape(href: Option<string>)
    ensures var url := AbsoluteUrl(href);
      |url| >= |Origin| > 0 && url[..|Origin|] == Origin &&
      url[|Origin|..] == (if href.Some? then href.value else "undefined")
  {
  }

  /** The four values the callback computes for a node. */
  function Candidate(item: ResultItem): Product
  {
    Product(Trim(item.titleText), Trim(item.priceText), Trim(item.ratingText), AbsoluteUrl(item.href))
  }

  /** `if (title && price && url)`: an empty string is falsy. */
  predicate IsKept(p: Product)
  {
    p.title != "" && p.price != "" && p.url != ""
  }

  /** A node whose candidate passes the test. */
  predicate Keeps(item: ResultItem)
  {
    IsKept(Candidate(item))
  }

  /** What every pushed record satisfies: the test passed, the title and
      price start with a non-blank character, and the URL is absolute. */
  predicate WellFormed(p: Product)
  {
    IsKept(p) && !IsWhitespace(p.title[0]) && !IsWhitespace(p.price[0]) &&
    |p.url| >= |Origin| && p.url[..|Origin|] == Origin
  }

  /** The batch the callback builds for the nodes `items`: the candidates
      of the kept nodes, in document order. */
  function KeptRecords(items: seq<ResultItem>): seq<Product>
  {
    FilterMap(items, Keeps, Candidate)
  }

  /** The positions of the nodes that are kept. */
  function KeptPositions(items: seq<ResultItem>): seq<nat>
  {
    Positions(items, Keeps)
  }

  /** A kept node yields a well-formed record. */
  lemma KeptIsWellFormed(item: ResultItem)
    requires Keeps(item)
    ensures WellFormed(Candidate(item))
  {
    TrimIsInnerText(item.titleText);
    TrimIsInnerText(item.priceText);
    AbsoluteUrlShape(item.href);
  }

  /** The url test never rejects anything: a node is kept exactly when its
      trimmed title and trimmed price are non-empty, i.e. when neither text
      is all whitespace. The rating plays no part. */
  lemma UrlTestNeverFails(item: ResultItem)
    ensures Keeps(item) <==>
      (exists i :: 0 <= i < |item.titleText| && !IsWhitespace(item.titleText[i])) &&
      (exists i :: 0 <= i < |item.priceText| && !IsWhitespace(item.priceText[i]))
  {
    TrimEmptyIff(item.titleText);
    TrimEmptyIff(item.priceText);
    AbsoluteUrlShape(item.href);
  }

  /** The batch is exactly the candidates of the kept nodes, one record per
      kept node, in document order, and every record in it is well formed. */
  lemma KeptRecordsInOrder(items: seq<ResultItem>)
    ensures |KeptRecords(items)| == |KeptPositions(items)| <= |items|
    ensures forall j :: 0 <= j < |KeptRecords(items)| ==>
      KeptRecords(items)[j] == Candidate(items[KeptPositions(items)[j]])
    ensures forall j :: 0 <= j < |KeptRecords(items)| ==> WellFormed(KeptRecords(items)[j])
  {
    FilterMapAtPositions(items, Keeps, Candidate);
    forall j | 0 <= j < |KeptRecords(items)| ensures WellFormed(KeptRecords(items)[j]) {
      KeptIsWellFormed(items[KeptPositions(items)[j]]);
    }
  }

  /** The `.each` callback run over the nodes in order, pushing onto a
      fresh `products` array. */
  method CollectProducts(items: seq<ResultItem>) returns (products: seq<Product>)
    ensures products == KeptRecords(items)
  {
    products := [];
    var i := 0;
    while i < |items|
      invariant 0 <= i <= |items|
      invariant products == KeptRecords(items[..i])
    {
      var title := Trim(items[i].titleText);
      var price := Trim(items[i].priceText);
      var rating := Trim(items[i].ratingText);
      var url := AbsoluteUrl(items[i].href);
      if title != "" && price != "" && url != "" {
        products := products + [Product(title, price, rating, url)];
      }
      assert items[..i + 1][..i] == items[..i];
      i := i + 1;
    }
    assert items[..i] == items;
  }
}
