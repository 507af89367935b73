/** `main`: fetch every configured source in order, deduplicate the raw tier into
    the clean tier, then rebuild the active tier from the clean one. The network
    is a set of oracles, one per kind of request. */
module Pipeline {
  import opened Text
  import opened Protocols
  import opened Json
  import opened Html
  import opened Store
  import opened Fetch
  import opened Dedup
  import opened Liveness

  /** One entry of the configuration's `sources`, by its `type`. A type the
      dispatch does not know is skipped. */
  datatype SourceConfig =
    | TextList(name: string, urls: seq<UrlEntry>)
    | JsonApi(name: string, mapping: Mapping, start: int, limit: int)
    | HtmlTable(name: string, start: int, step: int, limit: int)
    | Unrecognised(name: string, kind: string)

  /** The answers of the network: text-list URLs, pages of a JSON API or HTML
      table source (by source name and page value), and liveness probes (by
      proxy URL). */
  datatype Net = Net(
    text: string -> TextResponse,
    json: (string, int) -> JsonResponse,
    html: (string, int) -> HtmlResponse,
    probe: string -> ProbeOutcome)

  /** The three tiers: raw files per source, clean and active files per protocol. */
  datatype Disk = Disk(raw: Raw, clean: map<Protocol, seq<string>>, active: map<Protocol, seq<string>>)

  /** An HTML table source pages forward. */
  predicate Steps(s: SourceConfig) {
    s.HtmlTable? ==> s.step > 0
  }

  /** The dispatch on a source's type. Only the source's own directory changes. */
  function FetchSource(raw: Raw, s: SourceConfig, net: Net): (r: Raw)
    requires Steps(s)
    ensures SameOutside(r, raw, s.name)
    ensures s.Unrecognised? ==> r == raw
  {
    match s
    case TextList(name, urls) => FetchTextList(raw, name, urls, net.text)
    case JsonApi(name, m, start, limit) => FetchJsonApi(raw, name, c => net.json(name, c), m, start, limit)
    case HtmlTable(name, start, step, limit) => FetchHtmlTable(raw, name, c => net.html(name, c), start, step, limit)
    case Unrecognised(_, _) => raw
  }

  /** A fetch clears its directory first, so what it leaves there does not
      depend on what was there before. */
  lemma FetchSourceForgets(a: Raw, b: Raw, s: SourceConfig, net: Net, f: string)
    requires Steps(s) && !s.Unrecognised?
    ensures Entries(FetchSource(a, s, net), (s.name, f)) == Entries(FetchSource(b, s, net), (s.name, f))
  {
    if s.JsonApi? || s.HtmlTable? {
      SameProtocolFiles(FetchSource(a, s, net), FetchSource(b, s, net), s.name, f);
    }
  }

  /** Two stores whose source directory holds only protocol files, with the same
      entries in each, agree on every file of that directory. */
  lemma SameProtocolFiles(ra: Raw, rb: Raw, name: string, f: string)
    requires forall p :: Entries(ra, (name, Name(p))) == Entries(rb, (name, Name(p)))
    requires forall g :: (name, g) in ra ==> IsProtocolFile(g)
    requires forall g :: (name, g) in rb ==> IsProtocolFile(g)
    ensures Entries(ra, (name, f)) == Entries(rb, (name, f))
  {
    if IsProtocolFile(f) {
      var p := if f == "http" then Http else if f == "socks4" then Socks4 else Socks5;
      assert f == Name(p);
    }
  }

  /** The sources, fetched one after another in configuration order. */
  function FetchAll(raw: Raw, sources: seq<SourceConfig>, net: Net): Raw
    requires forall i :: 0 <= i < |sources| ==> Steps(sources[i])
    decreases |sources|
  {
    if sources == [] then raw
    else FetchSource(FetchAll(raw, sources[..|sources| - 1], net), sources[|sources| - 1], net)
  }

  /** A directory that no configured source is named after keeps its files. */
  lemma {:induction false} FetchAllKeepsOthers(raw: Raw, sources: seq<SourceConfig>, net: Net, k: Key)
    requires forall i :: 0 <= i < |sources| ==> Steps(sources[i])
    requires forall i :: 0 <= i < |sources| ==> sources[i].name != k.0
    ensures k in FetchAll(raw, sources, net) <==> k in raw
    ensures Entries(FetchAll(raw, sources, net), k) == Entries(raw, k)
    decreases |sources|
  {
    if sources != [] {
      FetchAllKeepsOthers(raw, sources[..|sources| - 1], net, k);
    }
  }

  /** Of several sources with one name, the last one decides that directory: it
      holds what that source's fetch leaves there, whatever came before. */
  lemma {:induction false} LastOfNameDecides(raw: Raw, sources: seq<SourceConfig>, net: Net, i: nat, f: string)
    requires forall j :: 0 <= j < |sources| ==> Steps(sources[j])
    requires i < |sources| && !sources[i].Unrecognised?
    requires forall j :: i < j < |sources| ==> sources[j].name != sources[i].name
    ensures Entries(FetchAll(raw, sources, net), (sources[i].name, f)) == Entries(FetchSource(raw, sources[i], net), (sources[i].name, f))
    decreases |sources|
  {
    var init := sources[..|sources| - 1];
    var name := sources[i].name;
    if i == |sources| - 1 {
      FetchSourceForgets(FetchAll(raw, init, net), raw, sources[i], net, f);
    } else {
      LastOfNameDecides(raw, init, net, i, f);
    }
  }

  /** Every entry a text-list source saves is well formed. */
  lemma {:induction false} TextEntriesWellFormed(urls: seq<UrlEntry>, get: string -> TextResponse, f: string)
    ensures forall x :: x in TextEntries(urls, get, f) ==> WellFormed(x)
    decreases |urls|
  {
    if urls != [] {
      TextEntriesWellFormed(urls[1..], get, f);
      var resp := get(urls[0].url);
      if urls[0].protocol == f && resp.Response? && resp.status == 200 {
        forall x | x in TextLines(resp.body)
          ensures WellFormed(x)
        {
          assert BreakFree(x, IsLineBoundary);
        }
      }
    }
  }

  /** End to end for a text list: a line served with status 200 for a URL filed
      under protocol `p` reaches the clean set of `p`, provided the source is the
      last one of its name and is not named after a tier directory. */
  lemma TextProxyReachesClean(raw: Raw, sources: seq<SourceConfig>, net: Net, i: nat, p: Protocol, x: string)
    requires forall j :: 0 <= j < |sources| ==> Steps(sources[j])
    requires i < |sources| && sources[i].TextList? && IsSourceDir(sources[i].name)
    requires forall j :: i < j < |sources| ==> sources[j].name != sources[i].name
    requires x in TextEntries(sources[i].urls, net.text, Name(p))
    ensures x in CleanSet(FetchAll(raw, sources, net), p)
  {
    var s := sources[i];
    var r := FetchAll(raw, sources, net);
    var k := (s.name, Name(p));
    LastOfNameDecides(raw, sources, net, i, Name(p));
    assert Entries(r, k) == TextEntries(s.urls, net.text, Name(p));
    TextEntriesWellFormed(s.urls, net.text, Name(p));
    FileProxiesOfSaved(r, s.name, p);
    assert k in r && x in FileProxies(r, k.0, p);
  }

  /** The directories under the proxies root that can hold source files, in
      whatever order the listing gives them. */
  method ListDirectories(raw: Raw) returns (dirs: seq<string>)
    ensures forall k: Key :: k in raw ==> k.0 in dirs
  {
    dirs := Enumerate(set k: Key | k in raw :: k.0);
  }

  /** `main`. The raw tier is the configured fetches applied in order; the clean
      tier holds, per protocol, each unique proxy of the raw tier once, and
      exists only where there is one; a protocol whose clean file yields a live
      proxy gets exactly its clean proxies that answered status 200, each once, and any
      other protocol keeps its old active file. */
  method Run(disk: Disk, sources: seq<SourceConfig>, net: Net) returns (out: Disk)
    requires forall i :: 0 <= i < |sources| ==> Steps(sources[i])
    ensures out.raw == FetchAll(disk.raw, sources, net)
    ensures forall p :: p in out.clean <==> CleanSet(out.raw, p) != {}
    ensures forall p :: p in out.clean ==>
              (forall x :: x in out.clean[p] <==> x in CleanSet(out.raw, p)) && NoDuplicates(out.clean[p])
    ensures forall p :: Refreshed(out.clean, p, net.probe) ==>
              p in out.active
              && forall x :: x in out.active[p] <==> x in CleanSet(out.raw, p) && net.probe(ProxyUrl(p, x)) == Status(200)
    ensures forall p :: Refreshed(out.clean, p, net.probe) ==> NoDuplicates(out.active[p])
    ensures forall p :: !Refreshed(out.clean, p, net.probe) ==>
              (p in out.active <==> p in disk.active) && (p in disk.active ==> out.active[p] == disk.active[p])
  {
    var raw := FetchAll(disk.raw, sources, net);
    var dirs := ListDirectories(raw);
    var clean := Deduplicate(raw, dirs);
    var active := CheckLiveness(clean, disk.active, net.probe);
    forall p
      ensures Listed(raw, dirs, p) == CleanSet(raw, p)
    {
      ListingComplete(raw, dirs, p);
    }
    forall p | Refreshed(clean, p, net.probe)
      ensures p in active
      ensures forall x :: x in active[p] <==> x in CleanSet(raw, p) && net.probe(ProxyUrl(p, x)) == Status(200)
      ensures NoDuplicates(active[p])
    {
      CleanEntriesWellFormed(clean, raw, dirs, p);
      ActiveFromClean(clean[p], p, net.probe, active[p]);
      WorkingOnce(clean[p], p, net.probe, active[p]);
    }
    out := Disk(raw, clean, active);
  }
}
