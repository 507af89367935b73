/** The HTML table source: each `table tbody tr` row arrives as the texts of its
    `td` cells (HTML parsing is foreign); cell 0 holds `ip:port`, cell 4 the
    protocol. */
module Html {
  import opened Wrappers
  import opened Text
  import opened Protocols

  /** One response of the HTML table source: the rows' cell texts, or a request
      that raised. */
  datatype HtmlResponse = Rows(rows: seq<seq<string>>) | TransportError

  /** How one row is handled. */
  datatype RowResult =
    | NoCells                                       // `if not cols: continue`
    | TooShort                                      // `cols[4]` raises
    | Row(proxy: string, protocol: Option<Protocol>)

  function RowOf(cells: seq<string>): RowResult {
    if cells == [] then NoCells
    else if |cells| < 5 then TooShort
    else Row(Strip(cells[0]), HtmlClassify(cells[4]))
  }

  /** A row with cells that cannot be read: it makes the whole page raise. */
  predicate IsShort(cells: seq<string>) {
    cells != [] && |cells| < 5
  }

  /** The single-entry buckets a readable row adds. */
  function RowCollected(proxy: string, protocol: Option<Protocol>): Collected {
    match protocol
    case Some(p) => NothingCollected.Add(p, proxy)
    case None => NothingCollected
  }

  /** Adding one row's outcome in front of the rest of the page's. */
  function Step(r: RowResult, rest: Option<Collected>): Option<Collected> {
    match r
    case NoCells => rest
    case TooShort => None
    case Row(proxy, protocol) =>
      if rest.Some? then Some(RowCollected(proxy, protocol).Then(rest.value)) else None
  }

  /** The buckets of a page's rows, or `None` when a row makes the page raise. */
  function CollectRows(rows: seq<seq<string>>): Option<Collected>
    decreases |rows|
  {
    if rows == [] then Some(NothingCollected) else Step(RowOf(rows[0]), CollectRows(rows[1..]))
  }

  /** Reference reading of one row: its stripped first cell when it is readable
      and its fifth cell names protocol `p`. */
  function RowFiled(r: seq<string>, p: Protocol): seq<string> {
    if |r| >= 5 && Classify(r[4]) == Some(p) then [Strip(r[0])] else []
  }

  /** Reference reading of a page: the rows' readings, in row order. */
  function Filed(rows: seq<seq<string>>, p: Protocol): seq<string>
    decreases |rows|
  {
    if rows == [] then [] else RowFiled(rows[0], p) + Filed(rows[1..], p)
  }

  /** A page fails exactly when one of its rows is non-empty with fewer than five
      cells: a single such row loses the whole page. */
  lemma {:induction false} ShortRowFailsPage(rows: seq<seq<string>>)
    ensures CollectRows(rows).None? <==> exists i :: 0 <= i < |rows| && IsShort(rows[i])
    decreases |rows|
  {
    if rows != [] {
      ShortRowFailsPage(rows[1..]);
      if (exists i :: 0 <= i < |rows[1..]| && IsShort(rows[1..][i])) {
        var i :| 0 <= i < |rows[1..]| && IsShort(rows[1..][i]);
        assert IsShort(rows[i + 1]);
      }
      if (exists i :: 0 <= i < |rows| && IsShort(rows[i])) && !IsShort(rows[0]) {
        var i :| 0 <= i < |rows| && IsShort(rows[i]);
        assert i != 0;
        assert IsShort(rows[1..][i - 1]);
      }
    }
  }

  /** A row that does not make the page raise puts its reading in front of the
      rest of the page's buckets. */
  lemma RowStepContent(r: seq<string>, rest: Collected, p: Protocol)
    requires Step(RowOf(r), Some(rest)).Some?
    ensures Step(RowOf(r), Some(rest)).value.Get(p) == RowFiled(r, p) + rest.Get(p)
  {
    if r != [] {
      assert |r| >= 5;
      var c := RowCollected(Strip(r[0]), HtmlClassify(r[4]));
      assert Step(RowOf(r), Some(rest)) == Some(c.Then(rest));
      RowCollectedGet(Strip(r[0]), HtmlClassify(r[4]), p);
      SameClassification(r[4]);
    }
  }

  lemma RowCollectedGet(proxy: string, protocol: Option<Protocol>, p: Protocol)
    ensures RowCollected(proxy, protocol).Get(p) == if protocol == Some(p) then [proxy] else []
  {
  }

  /** When a page is read, each bucket holds exactly the rows filed under it. */
  lemma {:induction false} CollectRowsContent(rows: seq<seq<string>>, p: Protocol)
    requires CollectRows(rows).Some?
    ensures CollectRows(rows).value.Get(p) == Filed(rows, p)
    decreases |rows|
  {
    if rows != [] {
      var rest := CollectRows(rows[1..]);
      assert CollectRows(rows) == Step(RowOf(rows[0]), rest);
      assert rest.Some?;
      CollectRowsContent(rows[1..], p);
      RowStepContent(rows[0], rest.value, p);
    }
  }

  /** What one response of the HTML table source amounts to: no rows end the
      crawl, a failed request or an unreadable row fail the page. */
  function HtmlPage(resp: HtmlResponse): (r: PageOutcome)
    ensures r.Exhausted? <==> resp == Rows([])
    ensures r.Failed? <==>
              resp.TransportError? || exists i :: 0 <= i < |resp.rows| && IsShort(resp.rows[i])
    ensures r.Parsed? ==> forall p :: r.batch.Get(p) == Filed(resp.rows, p)
  {
    match resp
    case TransportError => Failed
    case Rows(rows) =>
      if rows == [] then Exhausted
      else
        ShortRowFailsPage(rows);
        match CollectRows(rows)
        case Some(c) =>
          assert forall p :: c.Get(p) == Filed(rows, p) by {
            forall p
              ensures c.Get(p) == Filed(rows, p)
            {
              CollectRowsContent(rows, p);
            }
          }
          Parsed(c)
        case None => Failed
  }
}
