/** The three source types: a text list fetched once per protocol URL, and the JSON
    API and HTML table sources driven through pages by a cursor. A page request is
    an oracle from cursor value to response; each fetch first clears the
    source's directory and then saves as it goes. */
module Fetch {
  import opened Wrappers
  import opened Text
  import opened Protocols
  import opened Json
  import opened Html
  import opened Store

  /* ----------------------------------------------------------- text list */

  datatype TextResponse = Response(status: int, body: string) | TransportError

  /** One entry of a text-list source's `urls`. */
  datatype UrlEntry = UrlEntry(protocol: string, url: string)

  /** The proxies of a response body: its stripped, non-blank lines. */
  function TextLines(body: string): (r: seq<string>)
    ensures forall x :: x in r ==> x != [] && Strip(x) == x && BreakFree(x, IsLineBoundary)
    ensures (set x | x in r) == Unique(SplitLines(body))
  {
    var lines := SplitLines(body);
    var r := StrippedNonBlank(lines);
    StrippedNonBlankMembers(lines);
    forall x | x in r
      ensures BreakFree(x, IsLineBoundary)
    {
      var l :| l in lines && Strip(l) != [] && Strip(l) == x;
      StripBreakFree(l, IsLineBoundary);
    }
    r
  }

  /** Reference: the lines a text-list source contributes to file `file`, i.e. those
      of every status-200 response to a URL listed under that protocol, in order. */
  function TextEntries(urls: seq<UrlEntry>, get: string -> TextResponse, file: string): seq<string>
    decreases |urls|
  {
    if urls == [] then []
    else
      var resp := get(urls[0].url);
      (if urls[0].protocol == file && resp.Response? && resp.status == 200 then TextLines(resp.body) else [])
      + TextEntries(urls[1..], get, file)
  }

  /** The lines of a status-200 response to a URL listed under `file` are among
      the reference lines for that file. */
  lemma {:induction false} TextEntriesHas(urls: seq<UrlEntry>, get: string -> TextResponse, file: string, i: nat, x: string)
    requires i < |urls| && urls[i].protocol == file
    requires get(urls[i].url).Response? && get(urls[i].url).status == 200
    requires x in TextLines(get(urls[i].url).body)
    ensures x in TextEntries(urls, get, file)
    decreases |urls|
  {
    var resp := get(urls[0].url);
    var head := if urls[0].protocol == file && resp.Response? && resp.status == 200 then TextLines(resp.body) else [];
    var tail := TextEntries(urls[1..], get, file);
    assert TextEntries(urls, get, file) == head + tail;
    if i == 0 {
      assert x in head;
    } else {
      assert urls[1..][i - 1] == urls[i];
      TextEntriesHas(urls[1..], get, file, i - 1, x);
      assert x in tail;
    }
  }

  /** The loop of `fetch_text_list` over the configured URLs: a status-200
      response's lines are saved under the URL's protocol, anything else is
      skipped. */
  function SaveUrls(raw: Raw, name: string, urls: seq<UrlEntry>, get: string -> TextResponse): Raw
    decreases |urls|
  {
    if urls == [] then raw
    else
      var resp := get(urls[0].url);
      var batch := if resp.Response? && resp.status == 200 then TextLines(resp.body) else [];
      SaveUrls(Save(raw, name, urls[0].protocol, batch), name, urls[1..], get)
  }

  /** Each file of the source ends up with what it had, followed by the reference
      lines for it; it exists exactly when it did or some lines were saved. */
  lemma {:induction false} SaveUrlsFile(raw: Raw, name: string, urls: seq<UrlEntry>, get: string -> TextResponse, f: string)
    ensures Entries(SaveUrls(raw, name, urls, get), (name, f)) == Entries(raw, (name, f)) + TextEntries(urls, get, f)
    ensures (name, f) in SaveUrls(raw, name, urls, get) <==> (name, f) in raw || TextEntries(urls, get, f) != []
    decreases |urls|
  {
    if urls != [] {
      var resp := get(urls[0].url);
      var batch := if resp.Response? && resp.status == 200 then TextLines(resp.body) else [];
      var next := Save(raw, name, urls[0].protocol, batch);
      var head: seq<string> := if urls[0].protocol == f then batch else [];
      SaveUrlsFile(next, name, urls[1..], get, f);
      assert TextEntries(urls, get, f) == head + TextEntries(urls[1..], get, f);
      assert Entries(next, (name, f)) == Entries(raw, (name, f)) + head;
      assert (name, f) in next <==> (name, f) in raw || head != [];
      AppendAssoc(Entries(raw, (name, f)), head, TextEntries(urls[1..], get, f));
    } else {
      assert Entries(raw, (name, f)) + [] == Entries(raw, (name, f));
    }
  }

  /** Files of other sources are left alone. */
  lemma {:induction false} SaveUrlsOutside(raw: Raw, name: string, urls: seq<UrlEntry>, get: string -> TextResponse, k: Key)
    requires k.0 != name
    ensures k in SaveUrls(raw, name, urls, get) <==> k in raw
    ensures Entries(SaveUrls(raw, name, urls, get), k) == Entries(raw, k)
    decreases |urls|
  {
    if urls != [] {
      var resp := get(urls[0].url);
      var batch := if resp.Response? && resp.status == 200 then TextLines(resp.body) else [];
      SaveUrlsOutside(Save(raw, name, urls[0].protocol, batch), name, urls[1..], get, k);
    }
  }

  /** `fetch_text_list`: clear the source, then save each URL's lines. Every file
      of the source holds exactly the reference lines for it, no empty file is
      created, and other sources are untouched. */
  function FetchTextList(raw: Raw, name: string, urls: seq<UrlEntry>, get: string -> TextResponse): (r: Raw)
    ensures forall f :: Entries(r, (name, f)) == TextEntries(urls, get, f)
    ensures forall f :: (name, f) in r <==> TextEntries(urls, get, f) != []
    ensures SameOutside(r, raw, name)
  {
    var cleared := ClearSource(raw, name);
    var r := SaveUrls(cleared, name, urls, get);
    forall f
      ensures Entries(r, (name, f)) == TextEntries(urls, get, f)
      ensures (name, f) in r <==> TextEntries(urls, get, f) != []
    {
      SaveUrlsFile(cleared, name, urls, get, f);
      assert (name, f) !in cleared;
    }
    forall k: Key | k.0 != name
      ensures (k in r <==> k in raw) && Entries(r, k) == Entries(raw, k)
    {
      SaveUrlsOutside(cleared, name, urls, get, k);
    }
    r
  }

  /** Every non-blank line of a status-200 response reaches the file of the
      URL's protocol, stripped. */
  lemma BodyLineSaved(raw: Raw, name: string, urls: seq<UrlEntry>, get: string -> TextResponse, i: nat, l: string)
    requires i < |urls|
    requires get(urls[i].url).Response? && get(urls[i].url).status == 200
    requires l in SplitLines(get(urls[i].url).body) && Strip(l) != []
    ensures Strip(l) in Entries(FetchTextList(raw, name, urls, get), (name, urls[i].protocol))
  {
    var body := get(urls[i].url).body;
    assert Strip(l) in Unique(SplitLines(body));
    assert Strip(l) in TextLines(body);
    TextEntriesHas(urls, get, urls[i].protocol, i, Strip(l));
  }

  /* ---------------------------------------------------------- pagination */

  /** The trace of a paginated fetch: the cursor values requested, in order, and
      the batches saved, one per page that was read. */
  datatype Crawl = Crawl(requested: seq<int>, saved: seq<Collected>)

  /** Every saved batch is the page read at the cursor requested at that
      position, and only the last requested page can be missing from `saved`,
      in which case it was not read. */
  ghost predicate Traced(r: Crawl, page: int -> PageOutcome) {
    && |r.requested| >= 1
    && (|r.saved| == |r.requested| || |r.saved| == |r.requested| - 1)
    && (forall k :: 0 <= k < |r.saved| ==> page(r.requested[k]) == Parsed(r.saved[k]))
    && (|r.saved| < |r.requested| ==> !page(r.requested[|r.saved|]).Parsed?)
  }

  /** The `while True` loop of `fetch_json_api` from page `cur`, `count` pages
      already done: stop on a page that is not read, else save it, stop once
      `count` reaches `limit`, else go on with the next page number. */
  function JsonLoop(page: int -> PageOutcome, cur: int, count: nat, limit: int): (r: Crawl)
    ensures Traced(r, page)
    ensures forall k :: 0 <= k < |r.requested| ==> r.requested[k] == cur + k
    ensures |r.requested| <= if limit - count > 1 then limit - count else 1
    ensures |r.saved| == |r.requested| ==> count + |r.requested| >= limit
    decreases if limit - count > 0 then limit - count else 0
  {
    var out := page(cur);
    if !out.Parsed? then Crawl([cur], [])
    else if count + 1 >= limit then Crawl([cur], [out.batch])
    else
      var rest := JsonLoop(page, cur + 1, count + 1, limit);
      Crawl([cur] + rest.requested, [out.batch] + rest.saved)
  }

  /** The pages of a JSON API source as the loop sees them. */
  function JsonPages(get: int -> JsonResponse, m: Mapping): int -> PageOutcome {
    c => JsonPage(get(c), m)
  }

  function JsonCrawl(get: int -> JsonResponse, m: Mapping, start: int, limit: int): Crawl {
    JsonLoop(JsonPages(get, m), start, 0, limit)
  }

  /** JSON pagination: the page numbers requested are `start, start + 1, ...`; at
      most `max(limit, 1)` pages are requested; the fetch ends at the first page
      that is not read (nothing is saved for it) or after `max(limit, 1)` pages. */
  lemma JsonCrawlShape(get: int -> JsonResponse, m: Mapping, start: int, limit: int)
    ensures var r := JsonCrawl(get, m, start, limit);
      && Traced(r, JsonPages(get, m))
      && (forall k :: 0 <= k < |r.requested| ==> r.requested[k] == start + k)
      && 1 <= |r.requested| <= (if limit > 1 then limit else 1)
      && (|r.saved| == |r.requested| ==> |r.requested| == (if limit > 1 then limit else 1))
  {
  }

  /** The `while True` loop of `fetch_html_table` from offset `cur`: stop on a page
      that is not read, else save it, advance by `step`, stop once past `limit`.
      The first offset is requested whatever `limit` is. */
  function HtmlLoop(page: int -> PageOutcome, cur: int, step: int, limit: int): (r: Crawl)
    requires step > 0
    ensures Traced(r, page)
    ensures forall k :: 0 <= k < |r.requested| ==> r.requested[k] == cur + k * step
    ensures forall k :: 1 <= k < |r.requested| ==> r.requested[k] <= limit
    ensures |r.saved| == |r.requested| ==> r.requested[|r.requested| - 1] + step > limit
    decreases if cur <= limit then limit - cur + 1 else 0
  {
    var out := page(cur);
    if !out.Parsed? then Crawl([cur], [])
    else if cur + step > limit then Crawl([cur], [out.batch])
    else
      var rest := HtmlLoop(page, cur + step, step, limit);
      ShiftOffsets(rest.requested, cur, step);
      TracedCons(page, cur, out.batch, rest);
      var r := Crawl([cur] + rest.requested, [out.batch] + rest.saved);
      assert forall k :: 1 <= k < |r.requested| ==> r.requested[k] == rest.requested[k - 1];
      r
  }

  /** A read page in front of a traced crawl gives a traced crawl. */
  lemma TracedCons(page: int -> PageOutcome, cur: int, batch: Collected, rest: Crawl)
    requires page(cur) == Parsed(batch) && Traced(rest, page)
    ensures Traced(Crawl([cur] + rest.requested, [batch] + rest.saved), page)
  {
    var r := Crawl([cur] + rest.requested, [batch] + rest.saved);
    assert forall k :: 1 <= k < |r.saved| ==> r.saved[k] == rest.saved[k - 1] && r.requested[k] == rest.requested[k - 1];
    assert |r.saved| < |r.requested| ==> r.requested[|r.saved|] == rest.requested[|rest.saved|];
  }

  lemma ShiftOffsets(rest: seq<int>, cur: int, step: int)
    requires forall k :: 0 <= k < |rest| ==> rest[k] == cur + step + k * step
    ensures forall k :: 0 <= k < |rest| + 1 ==> ([cur] + rest)[k] == cur + k * step
  {
    forall k | 1 <= k < |rest| + 1
      ensures ([cur] + rest)[k] == cur + k * step
    {
      assert ([cur] + rest)[k] == rest[k - 1];
      assert (k - 1) * step + step == k * step;
    }
  }

  function HtmlPages(get: int -> HtmlResponse): int -> PageOutcome {
    c => HtmlPage(get(c))
  }

  function HtmlCrawl(get: int -> HtmlResponse, start: int, step: int, limit: int): Crawl
    requires step > 0
  {
    HtmlLoop(HtmlPages(get), start, step, limit)
  }

  /** HTML pagination: exactly one page is requested when `start` is already past
      `limit`, and otherwise at most `(limit - start) / step + 1`. */
  lemma HtmlCrawlBound(get: int -> HtmlResponse, start: int, step: int, limit: int)
    requires step > 0
    ensures start > limit ==> |HtmlCrawl(get, start, step, limit).requested| == 1
    ensures start <= limit ==> |HtmlCrawl(get, start, step, limit).requested| <= (limit - start) / step + 1
  {
    var n := |HtmlCrawl(get, start, step, limit).requested|;
    HtmlCrawlLast(get, start, step, limit);
    CrawlCount(n, start, step, limit);
  }

  /** The arithmetic of the bound: a crawl whose second offset and last offset
      are within `limit` has at most `(limit - start) / step + 1` offsets. */
  lemma CrawlCount(n: nat, start: int, step: int, limit: int)
    requires step > 0 && n >= 1
    requires n > 1 ==> start + step <= limit && (n - 1) * step <= limit - start
    ensures start > limit ==> n == 1
    ensures start <= limit ==> n <= (limit - start) / step + 1
  {
    if n > 1 {
      DivBound(n - 1, step, limit - start);
    }
  }

  lemma HtmlCrawlLast(get: int -> HtmlResponse, start: int, step: int, limit: int)
    requires step > 0
    ensures var n := |HtmlCrawl(get, start, step, limit).requested|;
      n > 1 ==> start + step <= limit && (n - 1) * step <= limit - start
  {
  }

  /** `a * b <= c` bounds `a` by the Euclidean quotient `c / b`. */
  lemma DivBound(a: nat, b: int, c: int)
    requires b > 0 && a * b <= c
    ensures a <= c / b
  {
    var q := c / b;
    assert c == q * b + c % b && c % b < b;
    if a > q {
      assert (q + 1) * b == q * b + b;
      MulMono(q + 1, a, b);
      assert false;
    }
  }

  lemma MulMono(x: int, y: int, b: int)
    requires x <= y && b > 0
    ensures x * b <= y * b
  {
  }

  /** The offset of the `k`-th page of an HTML crawl from `cur`. */
  function Offset(cur: int, step: int, k: nat): int {
    cur + k * step
  }

  /** Partial results survive a JSON fetch: when pages `cur .. cur + n - 1` are
      read, page `cur + n` is not, and the page allowance is not used up before
      it, exactly those `n` batches are saved and page `cur + n` is the last one
      requested. */
  lemma {:induction false} JsonLoopStops(page: int -> PageOutcome, cur: int, count: nat, limit: int, n: nat)
    requires forall c :: cur <= c < cur + n ==> page(c).Parsed?
    requires !page(cur + n).Parsed?
    requires count + n < limit
    ensures var r := JsonLoop(page, cur, count, limit);
      && |r.requested| == n + 1 && |r.saved| == n
      && (forall k :: 0 <= k <= n ==> r.requested[k] == cur + k)
      && (forall k :: 0 <= k < n ==> r.saved[k] == page(r.requested[k]).batch)
    decreases n
  {
    if n > 0 {
      assert page(cur).Parsed?;
      JsonLoopStops(page, cur + 1, count + 1, limit, n - 1);
    }
  }

  /** Partial results survive an HTML fetch: when the pages at offsets
      `cur, cur + step, ..., cur + (n - 1) * step` are read, the one at
      `cur + n * step` is not, and that offset is within `limit` (unless it is the
      first), exactly those `n` batches are saved and nothing after it is
      requested. */
  lemma {:induction false} HtmlLoopStops(page: int -> PageOutcome, cur: int, step: int, limit: int, n: nat)
    requires step > 0
    requires forall k: nat :: k < n ==> page(Offset(cur, step, k)).Parsed?
    requires !page(Offset(cur, step, n)).Parsed?
    requires n == 0 || Offset(cur, step, n) <= limit
    ensures var r := HtmlLoop(page, cur, step, limit);
      && |r.requested| == n + 1 && |r.saved| == n
      && (forall k :: 0 <= k <= n ==> r.requested[k] == Offset(cur, step, k))
      && (forall k :: 0 <= k < n ==> r.saved[k] == page(r.requested[k]).batch)
    decreases n
  {
    if n == 0 {
      assert Offset(cur, step, 0) == cur;
    } else {
      assert Offset(cur, step, 0) == cur;
      assert page(cur).Parsed?;
      MulMono(1, n, step);
      assert cur + step <= limit;
      var next := cur + step;
      forall k: nat | k < n - 1
        ensures page(Offset(next, step, k)).Parsed?
      {
        assert Offset(next, step, k) == Offset(cur, step, k + 1);
      }
      assert Offset(cur + step, step, n - 1) == Offset(cur, step, n);
      HtmlLoopStops(page, cur + step, step, limit, n - 1);
    }
  }

  /** `fetch_json_api`: clear the source, then save the batches of the crawl. */
  function FetchJsonApi(raw: Raw, name: string, get: int -> JsonResponse, m: Mapping, start: int, limit: int): (r: Raw)
    ensures forall p :: Entries(r, (name, Name(p))) == Flatten(JsonCrawl(get, m, start, limit).saved, p)
    ensures forall p :: (name, Name(p)) in r <==> Flatten(JsonCrawl(get, m, start, limit).saved, p) != []
    ensures forall f :: (name, f) in r ==> IsProtocolFile(f)
    ensures SameOutside(r, raw, name)
  {
    SaveAll(ClearSource(raw, name), name, JsonCrawl(get, m, start, limit).saved)
  }

  /** `fetch_html_table`: clear the source, then save the batches of the crawl. */
  function FetchHtmlTable(raw: Raw, name: string, get: int -> HtmlResponse, start: int, step: int, limit: int): (r: Raw)
    requires step > 0
    ensures forall p :: Entries(r, (name, Name(p))) == Flatten(HtmlCrawl(get, start, step, limit).saved, p)
    ensures forall p :: (name, Name(p)) in r <==> Flatten(HtmlCrawl(get, start, step, limit).saved, p) != []
    ensures forall f :: (name, f) in r ==> IsProtocolFile(f)
    ensures SameOutside(r, raw, name)
  {
    SaveAll(ClearSource(raw, name), name, HtmlCrawl(get, start, step, limit).saved)
  }

  /** A page with a row of one to four cells ends an HTML fetch: what the earlier
      offsets saved stays, nothing of that page or later is saved. */
  lemma ShortRowEndsHtmlFetch(get: int -> HtmlResponse, start: int, step: int, limit: int, n: nat, i: nat)
    requires step > 0
    requires forall k: nat :: k < n ==> HtmlPage(get(Offset(start, step, k))).Parsed?
    requires n == 0 || Offset(start, step, n) <= limit
    requires get(Offset(start, step, n)).Rows? && i < |get(Offset(start, step, n)).rows|
    requires IsShort(get(Offset(start, step, n)).rows[i])
    ensures var r := HtmlCrawl(get, start, step, limit);
      && |r.requested| == n + 1 && |r.saved| == n
      && (forall k :: 0 <= k < n ==> r.saved[k] == HtmlPage(get(Offset(start, step, k))).batch)
  {
    var page := HtmlPages(get);
    assert !page(Offset(start, step, n)).Parsed?;
    forall k: nat | k < n
      ensures page(Offset(start, step, k)).Parsed?
    {
    }
    HtmlLoopStops(page, start, step, limit, n);
  }
}
