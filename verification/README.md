# Proxy manager — a Dafny model

This project models the data logic of `proxy_manager.py`, a script that builds a
catalogue of free proxies in three tiers:

- it fetches proxy lists from configured sources into `proxies/<source>/<protocol>.txt` (the raw tier);
- it merges them per protocol into `proxies/clean/<protocol>.txt`;
- it keeps in `proxies/active/<protocol>.txt` the clean proxies that answer a probe.

The network is replaced by oracles: one from URL to response, one from page value to page, and one from proxy URL to probe outcome. The disk is replaced by maps.

Modules, leaf first:

| module | file | what it holds |
|---|---|---|
| `Wrappers` | wrappers.dfy | `Option` |
| `Text` | text.dfy | the Python string operations the script relies on: `strip()` with Python's whitespace set, ASCII `lower()`, substring `in`, `splitlines()`, reading a text file line by line (universal newlines), `split('.')`, and the `'\n'.join(xs) + '\n'` file layout |
| `Protocols` | protocols.dfy | the three protocols, the substring classification, and per-protocol page buckets |
| `Json` | json.dfy | decoded JSON values, the `list_key` path, how an item becomes `ip:port` entries, and what one JSON page amounts to |
| `Html` | html.dfy | how table rows (cell texts) become entries, and what one HTML page amounts to |
| `Store` | store.dfy | the raw tier as a map from (source directory, file stem) to saved entries; `save_proxies` and `clear_source_dir` |
| `Fetch` | fetch.dfy | `fetch_text_list`, and the JSON and HTML pagination loops as terminating recursive functions over a page oracle |
| `Dedup` | dedup.dfy | `deduplicate_proxies`: the directory walk as a method, against a set-comprehension reference |
| `Liveness` | liveness.dfy | `check_single_proxy` and `check_proxies_liveness` |
| `Pipeline` | pipeline.dfy | `main`: the fetches in configuration order, then the dedup step, then the liveness step |

How the three tiers are represented:

- A raw file is the sequence of entries saved into it. Its text is `FileText` of that sequence, with each entry followed by `"\n"`.
- Deduplication reads that text back the way the script does, line by line, stripping each line and dropping blank ones. So an entry that contains a line end is split on reading, just as it would be on disk.
- A clean file is the sequence of unique proxies, in whatever order the set yields them.
- An active file holds the working proxies, stated up to order, because pool completion order is not modelled.

Behaviour of the code that the model keeps:

- The first HTML offset is requested even when it is past `limit`.
- A table row with one to four cells raises at `cols[4]`. That loses its page and ends the fetch of that source, but the earlier pages stay saved.
- An active file is rewritten only when at least one proxy works. Otherwise the file from an earlier run stays.
- The `'https'` alternative of the JSON classification never decides anything.
- A text-list URL may be filed under any protocol string. Only `http`, `socks4` and `socks5` files are read by the dedup step.
- The JSON loop does not look at the HTTP status. A non-200 page with a JSON body is read like any other.

What the script does not do, and the model therefore does not do either:

- The script has no concurrent crawler, no retry queue and no circuit breaker: a page that fails ends its source's fetch at once.
- The script probes a single endpoint, `http://httpbin.org/ip`, with no fallback endpoint.
- A run does not fully replace the three tiers:
  - a raw directory is cleared only when a configured source of that name is fetched, so an empty configuration re-deduplicates the old raw files;
  - the active tier is never cleared;
  - a protocol with no working proxy keeps its old active file.

## Model

| member | source | states |
|---|---|---|
| Text.Strip | proxy_manager.py:55 | the result is no longer than the input, is empty exactly when the input is all whitespace, and otherwise starts and ends with a non-space character |
| Text.StripCutsSpaceRuns | proxy_manager.py:55 | the result equals `rstrip` applied to `lstrip` of the input, each defined independently as dropping one whitespace character at a time from its end, so the longest leading and trailing whitespace runs are cut off; it is empty exactly when `lstrip` leaves nothing |
| Text.StripIdempotent | proxy_manager.py:208 | stripping a stripped line changes nothing |
| Text.ContainsLowerStrip | proxy_manager.py:167 | for a non-empty, space-free needle, stripping before lower-casing does not change whether the needle occurs |
| Text.SplitOn | proxy_manager.py:55 | no line holds a line boundary, and a non-empty text yields at least one line |
| Text.SplitOnLine | proxy_manager.py:55 | text up to a single line boundary is one line, and splitting goes on after that boundary; a `\r` ends its line alone unless a `\n` follows |
| Text.SplitOnCrLf | proxy_manager.py:55 | text up to a `\r\n` pair is one line, and the pair is a single boundary |
| Text.SplitOnLast | proxy_manager.py:55 | a final piece with no line boundary is the last line, with no empty line after it |
| Text.FileTextAppend | proxy_manager.py:34-35 | appending a batch to a file appends its text, so a file built by several saves reads as all their entries in order |
| Text.ReadBack | proxy_manager.py:206-209 | a file of entries free of line ends reads back, line by line, as exactly those entries |
| Text.StrippedNonBlankMembers | proxy_manager.py:55 | the list comprehension keeps every non-blank line stripped and nothing else, and each kept entry is non-blank and already stripped |
| Text.StrippedNonBlankUnchanged | proxy_manager.py:247 | entries that are already stripped and non-blank pass through unchanged |
| Text.JoinSplit | proxy_manager.py:89 | joining the dot-separated pieces of a key rebuilds it |
| Text.SplitJoin | proxy_manager.py:89 | splitting dot-joined keys that hold no dot gives back those keys |
| Protocols.ClassifyPriority | proxy_manager.py:113-117 | a string is filed under a protocol exactly when its lower-cased form contains that protocol's name and no name tried earlier (socks4, then socks5, then http); it is dropped exactly when it contains none, so it is filed at most once |
| Protocols.HttpsRedundant | proxy_manager.py:117 | the JSON test with its extra `'https'` alternative files every string as the plain test does |
| Protocols.SameClassification | proxy_manager.py:167-171 | the HTML cell test, which strips before lower-casing, and the JSON test both agree with the plain classification |
| Protocols.ClassifyIgnoresCase | proxy_manager.py:114 | lower-casing a string first does not change its bucket |
| Json.Get | proxy_manager.py:102-103 | a lookup finds nothing exactly when no field has that key; otherwise it gives the value of a field with that key after which no field has it, so the last of duplicated keys wins |
| Json.GetSnoc | proxy_manager.py:102-103 | a field added last decides the lookup of its own key and leaves every other key's lookup as it was |
| Json.NavigateEdgeCases | proxy_manager.py:87-94 | an empty path gives the body; a non-object before the path ends gives `[]`; a missing key gives `[]`; a key the object has descends into its value and the rest of the path is followed from there |
| Json.NavigateAppend | proxy_manager.py:89-94 | following a path in two stages is following it at once |
| Json.ListKeyFollowsKeys | proxy_manager.py:88-94 | a `list_key` written as dot-joined keys is followed one key at a time |
| Json.NoListKeyIsWholeBody | proxy_manager.py:87-88 | an absent or empty `list_key` takes the whole body as the item list |
| Json.Strings | proxy_manager.py:113-114 | an array of protocol strings is read element for element, and it fails exactly when some element is not a string |
| Json.Item | proxy_manager.py:101-111 | an item raises at `item.get` exactly when it is not an object; it is skipped exactly when it is an object whose ip or port is missing or falsy; an entry comes only from an object with both present, and its proxy is exactly `ip:port` |
| Json.ItemProtocols | proxy_manager.py:101-114 | for an object with a truthy ip and port: no protocols field gives an entry with no protocol strings; a string gives itself; an object gives its keys; an array gives its elements in order, and raises exactly when one of them is not a string; `null`, a number or a boolean raises |
| Json.KeysMembers | proxy_manager.py:113 | iterating an object's protocols field yields each of its keys exactly once and nothing else |
| Json.EntryCollected | proxy_manager.py:113-117 | an entry's proxy lands in each bucket once per protocol string classified there |
| Json.CollectItemsAppend | proxy_manager.py:101-117 | an item list is processed piecewise: any raising item fails the page, otherwise the pieces' buckets are concatenated |
| Json.SkippedItemContributesNothing | proxy_manager.py:105 | removing an item without a truthy ip or port changes nothing, wherever it sits |
| Json.StringProtocolsLikeList | proxy_manager.py:109-111 | two objects with the same ip and port, one whose protocols field is a string and one whose field is a one-element list of that string, give the same item |
| Json.RaisingItemFailsPage | proxy_manager.py:101-133 | a page fails exactly when one of its items is not an object, or is an object with a truthy ip and port whose protocols field cannot be iterated as strings; an object missing a truthy ip or port is skipped whatever its protocols field holds |
| Json.CollectItemsContent | proxy_manager.py:99-117 | on a page that is read, each bucket equals the reference reading: every entry's proxy once per protocol string naming that bucket, in item order |
| Json.JsonPage | proxy_manager.py:79-117 | falsy items end the crawl; a failed request, an undecodable body, truthy items that are not a list, or a raising item fail the page; otherwise the buckets are the reference reading |
| Html.ShortRowFailsPage | proxy_manager.py:162-167 | a page fails exactly when one of its rows has one to four cells |
| Html.CollectRowsContent | proxy_manager.py:160-171 | on a page that is read, each bucket holds the stripped first cell of every row of five or more cells whose fifth cell names that protocol, in row order |
| Html.HtmlPage | proxy_manager.py:152-171 | no rows end the crawl; a failed request or a short row fail the page; otherwise the buckets are the reference reading of the rows |
| Store.Save | proxy_manager.py:24-35 | a batch is appended to its file; the file exists afterwards exactly when it did or the batch is non-empty; every other file is unchanged |
| Store.SaveAppendsText | proxy_manager.py:34-35 | the text appended, `'\n'.join(batch) + '\n'`, extends the file text of the stored entries by the batch's file text |
| Store.JoinedIsFileText | proxy_manager.py:35 | `'\n'.join(batch) + '\n'` of a non-empty batch is each entry followed by a line end |
| Store.ClearSource | proxy_manager.py:37-42 | no file of the source remains, and files of other sources are untouched |
| Store.ClearAfterSave | proxy_manager.py:37-42 | clearing a source after saving into it is the same as just clearing it |
| Store.SaveCollected | proxy_manager.py:119-121 | each protocol file grows by that protocol's bucket and exists exactly when it did or the bucket is non-empty; every other file is unchanged |
| Store.SaveAll | proxy_manager.py:173-175 | after the batches of successive pages are saved, each protocol file is its old entries followed by that protocol's entries of every batch in order |
| Fetch.TextLines | proxy_manager.py:55 | the proxies of a body are, as a set, exactly the stripped forms of its non-blank lines; each is non-blank, stripped and free of line boundaries |
| Fetch.TextEntriesHas | proxy_manager.py:49-55 | a proxy of a status-200 response is among the reference entries of the file its URL is filed under |
| Fetch.BodyLineSaved | proxy_manager.py:44-56 | every non-blank line of a status-200 response is saved, stripped, into the file of the protocol its URL is filed under |
| Fetch.SaveUrlsFile | proxy_manager.py:49-56 | after the URL loop, each file of the source is its old entries followed by the lines of every status-200 response to a URL filed under it, in URL order, and it exists exactly when it did or such lines were saved |
| Fetch.SaveUrlsOutside | proxy_manager.py:44-56 | the URL loop leaves other sources' files alone |
| Fetch.FetchTextList | proxy_manager.py:44-59 | after the fetch, each file of the source holds exactly those lines, no empty file exists, and other sources are untouched |
| Fetch.JsonLoop | proxy_manager.py:75-133 | the pages requested are consecutive from the first; every saved batch is the page read at its position; only the last page requested may be unread, and then nothing is saved for it; the loop stops early only at an unread page |
| Fetch.JsonCrawlShape | proxy_manager.py:72-129 | pages `start, start + 1, ...` are requested, at least one and at most `max(limit, 1)`, and all are read only when exactly `max(limit, 1)` were requested |
| Fetch.JsonLoopStops | proxy_manager.py:76-133 | when pages before a failing page are read and the page allowance is not used up, exactly their batches are saved and the failing page is the last one requested |
| Fetch.HtmlLoop | proxy_manager.py:149-185 | the offsets requested are `start + k * step`; every offset after the first is within `limit`; only the last offset may be unread; when all are read the next offset would pass `limit` |
| Fetch.HtmlCrawlBound | proxy_manager.py:145-181 | a start past `limit` requests exactly one page, and otherwise at most `(limit - start) / step + 1` pages are requested |
| Fetch.HtmlCrawlLast | proxy_manager.py:179-181 | when more than one offset is requested, the second and the last are within `limit` |
| Fetch.HtmlLoopStops | proxy_manager.py:149-185 | when the offsets before a failing one are read and that one is within `limit`, exactly their batches are saved and nothing after it is requested |
| Fetch.FetchJsonApi | proxy_manager.py:61-133 | after the fetch, each protocol file of the source holds that protocol's entries of the saved batches, in page order, and exists exactly when there are such entries; the source has no other files; other sources are untouched |
| Fetch.FetchHtmlTable | proxy_manager.py:135-185 | after the HTML crawl, each protocol file of the source holds that protocol's entries of the saved batches, in page order, and exists exactly when there are such entries; the source has no other files; other sources are untouched |
| Fetch.ShortRowEndsHtmlFetch | proxy_manager.py:162-185 | a row of one to four cells at some offset ends the fetch there, keeping exactly the batches of the earlier offsets |
| Dedup.ListedMembers | proxy_manager.py:199-209 | a proxy is in the union exactly when some listed source directory's file has a line that strips to it |
| Dedup.ListingComplete | proxy_manager.py:195-209 | in whatever order the directories are listed, a listing that names every source directory gives the union over the whole raw tier |
| Dedup.AddLines | proxy_manager.py:206-209 | reading one file adds to the set exactly the stripped, non-blank lines of that file |
| Dedup.CollectProtocol | proxy_manager.py:196-209 | the nested loops over the listing and each file's lines build exactly that union |
| Dedup.Enumerate | proxy_manager.py:213-214 | a set is written out with every member once and nothing else |
| Dedup.ListedWellFormed | proxy_manager.py:206-209 | every proxy of the walk is non-blank, stripped and free of line ends |
| Dedup.ReadBackEntries | proxy_manager.py:206-209 | a file of such entries reads back as exactly those entries, and as a set as exactly their set |
| Dedup.FileProxiesOfSaved | proxy_manager.py:204-209 | a source file of well-formed saved entries contributes exactly those entries |
| Dedup.DeduplicateProtocol | proxy_manager.py:195-215 | one protocol's clean file exists exactly when the union is non-empty, and then holds each of its proxies once; other protocols are untouched |
| Dedup.Deduplicate | proxy_manager.py:187-215 | the old clean tier is dropped; each protocol's clean file holds the union once each and exists only when the union is non-empty |
| Dedup.CleanEntriesWellFormed | proxy_manager.py:246-247 | the liveness step reads a clean file back as exactly its entries |
| Liveness.ProxyUrl | proxy_manager.py:219-222 | the proxy URL starts with the protocol's name, then `://`, and the rest is exactly the proxy |
| Liveness.ProxyUrlInjective | proxy_manager.py:219-222 | different protocol and proxy pairs are probed through different proxy URLs |
| Liveness.CheckSingle | proxy_manager.py:217-229 | the proxy comes back exactly when its probe answered status 200, and nothing comes back on another status or an exception |
| Liveness.LiveExactlyOn200 | proxy_manager.py:260-262 | a non-empty proxy is kept exactly when its probe answered status 200 |
| Liveness.LiveFilterMembers | proxy_manager.py:260-262 | the working list holds exactly the live input proxies, never more often than the input does |
| Liveness.CheckProtocol | proxy_manager.py:249-262 | the pool's working list is, up to order, the live proxies of the list |
| Liveness.CheckProtocolFile | proxy_manager.py:240-270 | a protocol's active file is replaced by its working list when that is non-empty; otherwise it is left as it was; other protocols are untouched |
| Liveness.CheckLiveness | proxy_manager.py:231-270 | every protocol whose clean file yields a live proxy gets exactly those proxies, up to order; every other protocol keeps the active file it had |
| Liveness.WorkingOnce | proxy_manager.py:249-262 | the working list holds each proxy at most once when the clean list it was checked from does |
| Liveness.ActiveFromClean | proxy_manager.py:246-267 | on a clean file from the dedup step, a rewritten active file holds exactly the clean proxies whose probe answered status 200, so it is a subset of the clean file |
| Liveness.NoneLive | proxy_manager.py:260-264 | a list with no live proxy gives an empty working list |
| Liveness.AllDeadKeepsActive | proxy_manager.py:264-270 | when every probe fails, no active file is rewritten |
| Pipeline.FetchSource | proxy_manager.py:276-282 | a fetch changes only its own source's directory, and an unknown source type changes nothing |
| Pipeline.FetchSourceForgets | proxy_manager.py:47 | what a fetch leaves in its directory does not depend on what was there before |
| Pipeline.FetchAllKeepsOthers | proxy_manager.py:276-282 | a directory that no configured source is named after keeps its files |
| Pipeline.LastOfNameDecides | proxy_manager.py:276-282 | of several sources with one name, the last one alone decides that directory |
| Pipeline.TextEntriesWellFormed | proxy_manager.py:55 | every entry a text-list source saves is non-blank, stripped and free of line ends |
| Pipeline.TextProxyReachesClean | proxy_manager.py:272-285 | a line served with status 200 for a URL of a text-list source, filed under a protocol, reaches that protocol's clean set, provided no later configured source has the same name (a later one clears the directory) and the name is not `clean` or `active`; every HTML source is configured with `step > 0` |
| Pipeline.ListDirectories | proxy_manager.py:199-202 | the directory listing names every source directory that holds a file |
| Pipeline.Run | proxy_manager.py:272-288 | the raw tier is the fetches in order; the clean tier is, per protocol, the union of the raw tier once each; a protocol with a live clean proxy gets exactly its clean proxies that answered status 200, each once; any other protocol keeps its active file |

## Left out

- HTTP requests, timeouts, the random User-Agent, JSON decoding and HTML parsing are foreign code. They become oracles: a text-list response is a status and a body, a JSON page is a decoded value or a failure, an HTML page is the cell texts of its `table tbody tr` rows or a failure, and a probe is a status or an exception.
- The request parameters are not modelled. A JSON or HTML page is named by source name and page value, so two sources of one name see the same pages.
- Configuration loading, printing and progress counting are left out, and so are `os.makedirs` and the existence checks on directories.
- The thread pool of the liveness step is left out. Its only effect on the result is the order of the working list, so results are stated up to order.
- `lower()` folds ASCII letters only. Python's full Unicode case mapping is not modelled. The three protocol names are ASCII, but a non-ASCII letter whose lower case is ASCII, such as the Kelvin sign, is not folded.
- JSON numbers are integers. Floats are not modelled. `f"{v}"` of an array or object ip or port is a fixed placeholder rather than Python's `repr`.
- Fetch.HtmlLoop: requires `step > 0`. With a zero or negative `step`, the script repeats or walks back until a page is empty or fails, which may never happen. The same precondition is carried by Fetch.HtmlCrawl, Fetch.FetchHtmlTable, Fetch.HtmlCrawlBound, Fetch.HtmlCrawlLast, Fetch.HtmlLoopStops and Fetch.ShortRowEndsHtmlFetch. Through `Steps` (every HTML source has `step > 0`) it is also carried by Pipeline.FetchSource, Pipeline.FetchAll, Pipeline.FetchSourceForgets, Pipeline.FetchAllKeepsOthers, Pipeline.LastOfNameDecides, Pipeline.TextProxyReachesClean and Pipeline.Run. The model says nothing about a configuration with a non-positive step.
- Pipeline.Run: source names and text-list protocol strings are taken as single path components: not empty, not `.` or `..`, and with no `/`. For other names `os.path.join` reaches another directory, for example a parent or a nested one, which the model does not follow, because it keys files by the name itself.
- A source named `clean` or `active` would clear and write into a tier directory. The model keeps the raw tier separate from the clean and active tiers, so this collision is not modelled.
- update_readme.py is not part of this model. It is a fixed Markdown template plus file writes.
- The rotating crawler, the retry queue, the circuit breaker and multi-endpoint probing are absent from the code, so they are not modelled.
