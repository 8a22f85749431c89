/** The read side: `GET /api/randomdel`, guarded by `basicAuth`. The
    handler turns the `page` query parameter into a LIMIT/OFFSET read of
    the `randomdel` table, counts the table's rows, and answers with the
    page of rows and the pagination metadata.

    The database is outside the model; the handler takes the results of
    its two queries as inputs. To state what clients see, the table is
    also modelled as the sequence of its rows in insertion order, read by
    `SELECT ... LIMIT ... OFFSET ...` as a slice. */
module ReadApi {
  import opened Basics
  import opened Extract
  import opened BasicAuth

  /** `limit`: rows per page. */
  const PageSize: nat := 10

  /** `parseInt(req.query.page) || 1`. `parsed` is what `parseInt` returns,
      `None` for `NaN` (no parameter, or no leading digits). `NaN` and `0`
      are falsy and give page 1; any other value, negative ones included,
      is used as it is. */
  function RequestedPage(parsed: Option<int>): (page: int)
    ensures page != 0
    ensures parsed.Some? && parsed.value != 0 ==> page == parsed.value
    ensures parsed.None? || parsed == Some(0) ==> page == 1
  {
    match parsed
    case Some(v) => if v != 0 then v else 1
    case None => 1
  }

  /** `(page - 1) * limit`: the number of rows on the pages before `page`.
      It is a multiple of the page size, and negative exactly when the page
      is. */
  function Offset(page: int): (offset: int)
    ensures offset % PageSize == 0 && offset / PageSize == page - 1
    ensures offset >= 0 <==> page >= 1
  {
    (page - 1) * PageSize
  }

  /** `Math.ceil(totalItems / limit)`, in exact integer arithmetic: the
      fewest pages of `PageSize` rows that hold `totalItems` rows. */
  function TotalPages(totalItems: nat): (pages: nat)
    ensures pages == 0 <==> totalItems == 0
    ensures totalItems > 0 ==> (pages - 1) * PageSize < totalItems <= pages * PageSize
  {
    (totalItems + PageSize - 1) / PageSize
  }

  /** The page count is the only number with the ceiling property. */
  lemma TotalPagesUnique(totalItems: nat, pages: nat)
    requires totalItems > 0
    requires (pages - 1) * PageSize < totalItems <= pages * PageSize
    ensures pages == TotalPages(totalItems)
  {
  }

  /** A stored row: the auto-increment `id` and the four columns. */
  datatype Row = Row(id: nat, product: Product)

  /** What the handler answers. */
  datatype Reply =
    | Listing(currentPage: int, totalPages: nat, totalItems: nat, data: seq<Row>) // 200
    | ErrorReply(status: nat, key: string, text: string) // JSON `{ key: text }`
    | InternalError // an exception reached Express, which answers 500

  const SelectFailed: string := "Failed to retrieve products"
  const CountFailed: string := "Failed to count products"

  /** The route handler, given what its two queries return (`None` when a
      query fails): the page read first, the count second, and a 500 for
      whichever fails first. */
  function ListHandler(parsed: Option<int>, selected: Option<seq<Row>>, counted: Option<nat>): (r: Reply)
    ensures selected.None? ==> r == ErrorReply(500, "error", SelectFailed)
    ensures selected.Some? && counted.None? ==> r == ErrorReply(500, "error", CountFailed)
    ensures r.Listing? <==> selected.Some? && counted.Some?
    ensures r.Listing? ==>
      r.currentPage == RequestedPage(parsed) && r.data == selected.value &&
      r.totalItems == counted.value && r.totalPages == TotalPages(counted.value)
  {
    match selected
    case None => ErrorReply(500, "error", SelectFailed)
    case Some(rows) =>
      match counted
      case None => ErrorReply(500, "error", CountFailed)
      case Some(total) =>
        Listing(RequestedPage(parsed), TotalPages(total), total, rows)
  }

  /** `basicAuth` followed by the handler. */
  function Route(header: Option<string>, config: Credentials, decode: string -> string,
                 parsed: Option<int>, selected: Option<seq<Row>>, counted: Option<nat>): (r: Reply)
    ensures r.Listing? ==> Decide(header, config, decode) == Proceed
    ensures Decide(header, config, decode) == Proceed ==> r == ListHandler(parsed, selected, counted)
    ensures Decide(header, config, decode).Unauthorized? ==>
      r == ErrorReply(401, "message", Decide(header, config, decode).message)
    ensures Decide(header, config, decode) == Crashed ==> r == InternalError
  {
    match Decide(header, config, decode)
    case Proceed => ListHandler(parsed, selected, counted)
    case Unauthorized(message) => ErrorReply(401, "message", message)
    case Crashed => InternalError
  }

  /** A request without credentials gets a 401 and no data. */
  lemma NoHeaderNoData(config: Credentials, decode: string -> string,
                       parsed: Option<int>, selected: Option<seq<Row>>, counted: Option<nat>)
    ensures Route(None, config, decode, parsed, selected, counted)
         == ErrorReply(401, "message", MissingHeader)
  {
  }

  // ---------------------------------------------------------------------------
  // The table as a sequence of rows

  function Min(a: int, b: int): int { if a <= b then a else b }

  /** `SELECT * FROM randomdel LIMIT limit OFFSET offset` on a table holding
      `table`, in insertion order: at most `limit` rows, starting with the
      row at `offset`. A negative offset makes the statement invalid. */
  function Select(table: seq<Row>, limit: nat, offset: int): (r: Option<seq<Row>>)
    ensures r.None? <==> offset < 0
    ensures r.Some? ==> |r.value| == Min(limit, |table| - Min(offset, |table|))
    ensures r.Some? ==> forall i :: 0 <= i < |r.value| ==> r.value[i] == table[offset + i]
  {
    if offset < 0 then None
    else Some(table[Min(offset, |table|)..Min(offset + limit, |table|)])
  }

  /** The reply to an authorised request when the table holds `table`. */
  function Serve(table: seq<Row>, parsed: Option<int>): Reply
  {
    ListHandler(parsed, Select(table, PageSize, Offset(RequestedPage(parsed))), Some(|table|))
  }

  /** A negative page number gets a 500: its offset is negative. */
  lemma NegativePageFails(table: seq<Row>, v: int)
    requires v < 0
    ensures Serve(table, Some(v)) == ErrorReply(500, "error", SelectFailed)
  {
  }

  /** Pages `1..k` in order. */
  function PagesUpTo(table: seq<Row>, k: nat): seq<Row>
  {
    if k == 0 then [] else PagesUpTo(table, k - 1) + Serve(table, Some(k)).data
  }

  /** Page `k` of a table holds the rows from `(k - 1) * 10` up to
      `k * 10`, cut off at the end of the table. */
  lemma PageRows(table: seq<Row>, k: nat)
    requires k >= 1
    ensures Serve(table, Some(k)).data ==
      table[Min((k - 1) * PageSize, |table|)..Min(k * PageSize, |table|)]
  {
    var offset := (k - 1) * PageSize;
    assert Offset(k) == offset && k * PageSize == offset + PageSize;
  }

  /** Page `k + 1` starts one page size after page `k`. */
  lemma PageStart(k: int)
    ensures k * PageSize == (k - 1) * PageSize + PageSize
  {
  }

  /** Reading one more page appends that page's slice of the table. */
  lemma PagesUpToStep(table: seq<Row>, k: nat)
    requires k >= 1
    ensures PagesUpTo(table, k) ==
      PagesUpTo(table, k - 1) + table[Min((k - 1) * PageSize, |table|)..Min(k * PageSize, |table|)]
  {
    PageRows(table, k);
  }

  /** Reading pages `1..k` in order yields the first `k * PageSize` rows. */
  lemma {:induction false} PagesUpToPrefix(table: seq<Row>, k: nat)
    ensures PagesUpTo(table, k) == table[..Min(k * PageSize, |table|)]
  {
    if k > 0 {
      PagesUpToPrefix(table, k - 1);
      PagesUpToStep(table, k);
      PageStart(k);
      var lo := Min((k - 1) * PageSize, |table|);
      var hi := Min(k * PageSize, |table|);
      assert lo <= hi;
      PrefixThenSlice(table, lo, hi);
      assert PagesUpTo(table, k) == table[..lo] + table[lo..hi];
    }
  }

  lemma PrefixThenSlice<T>(s: seq<T>, lo: nat, hi: nat)
    requires lo <= hi <= |s|
    ensures s[..lo] + s[lo..hi] == s[..hi]
  {
  }

  /** The pages from 1 to `totalPages`, read in order, give back the whole
      table: every row once, in order. */
  lemma PagesCoverTable(table: seq<Row>)
    ensures PagesUpTo(table, TotalPages(|table|)) == table
  {
    PagesUpToPrefix(table, TotalPages(|table|));
    assert table[..|table|] == table;
  }

  /** Every page from 1 to `totalPages` has rows, and every page after it
      is empty. */
  lemma PageEmptyIff(table: seq<Row>, page: int)
    requires page >= 1
    ensures Serve(table, Some(page)).Listing?
    ensures Serve(table, Some(page)).data == [] <==> page > TotalPages(|table|)
  {
    var n := |table|;
    var t := TotalPages(n);
    if page <= t {
      assert (page - 1) * PageSize <= (t - 1) * PageSize;
    } else {
      assert t * PageSize <= (page - 1) * PageSize;
    }
  }

  /** With ten rows stored, page 2 is empty and there is one page. */
  lemma TenRowsPageTwo(table: seq<Row>)
    requires |table| == PageSize
    ensures Serve(table, Some(2)) == Listing(2, 1, PageSize, [])
  {
  }

  /** The auto-increment table after a batch insert: each new row gets the
      next id. */
  function Append(table: seq<Row>, batch: seq<Product>): (t: seq<Row>)
    ensures |t| == |table| + |batch| && t[..|table|] == table
    ensures forall k :: 0 <= k < |batch| ==> t[|table| + k] == Row(|table| + k + 1, batch[k])
  {
    table + seq(|batch|, k requires 0 <= k < |batch| => Row(|table| + k + 1, batch[k]))
  }

  /** A record written by a batch insert is read back, with the same four
      fields, at a fixed position of a fixed page. */
  lemma InsertedRecordReadBack(table: seq<Row>, batch: seq<Product>, k: nat)
    requires k < |batch|
    ensures var t := Append(table, batch);
      var i := |table| + k;
      var r := Serve(t, Some(i / PageSize + 1));
      r.Listing? && i % PageSize < |r.data| && r.data[i % PageSize].product == batch[k]
  {
    var t := Append(table, batch);
    var i := |table| + k;
    var page := i / PageSize + 1;
    assert Offset(page) == i - i % PageSize;
  }
}
