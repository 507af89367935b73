/** The three proxy protocols, how a free-form protocol string is sorted into one
    of them, and the per-protocol buckets a page of results is collected into. */
module Protocols {
  import opened Wrappers
  import opened Text

  datatype Protocol = Http | Socks4 | Socks5

  /** The bucket key and file name stem (`<name>.txt`) of a protocol; it is also the
      substring the classification looks for. */
  function Name(p: Protocol): string {
    match p
    case Http => "http"
    case Socks4 => "socks4"
    case Socks5 => "socks5"
  }

  /** Order in which the classification tests the protocols. */
  function Rank(p: Protocol): nat {
    match p
    case Socks4 => 0
    case Socks5 => 1
    case Http => 2
  }

  /** The HTML table's test on an already lower-cased protocol text. */
  function Bucket(t: string): Option<Protocol> {
    if Contains(t, "socks4") then Some(Socks4)
    else if Contains(t, "socks5") then Some(Socks5)
    else if Contains(t, "http") then Some(Http)
    else None
  }

  /** The JSON API's test, which also has an `'https' in t` alternative for http. */
  function JsonBucket(t: string): Option<Protocol> {
    if Contains(t, "socks4") then Some(Socks4)
    else if Contains(t, "socks5") then Some(Socks5)
    else if Contains(t, "http") || Contains(t, "https") then Some(Http)
    else None
  }

  /** The protocol a protocol string is filed under, if any. */
  function Classify(s: string): Option<Protocol> {
    Bucket(Lower(s))
  }

  /** JSON API: `proto.lower()` then the tests. */
  function JsonClassify(s: string): Option<Protocol> {
    JsonBucket(Lower(s))
  }

  /** HTML table: `cell.strip().lower()` then the tests. */
  function HtmlClassify(cell: string): Option<Protocol> {
    Bucket(Lower(Strip(cell)))
  }

  /** A string is filed under `p` exactly when its lower-cased form contains `p`'s
      name and no protocol tried earlier; it is dropped exactly when it contains
      none of the three names. So a string is filed at most once. */
  lemma ClassifyPriority(s: string, p: Protocol)
    ensures Classify(s) == Some(p) <==>
              Contains(Lower(s), Name(p))
              && forall q :: Rank(q) < Rank(p) ==> !Contains(Lower(s), Name(q))
    ensures Classify(s) == None <==> forall q :: !Contains(Lower(s), Name(q))
  {
    var t := Lower(s);
    assert Name(Socks4) == "socks4" && Name(Socks5) == "socks5" && Name(Http) == "http";
    if Classify(s) == None {
      forall q
        ensures !Contains(t, Name(q))
      {
      }
    }
    match p
    case Socks4 =>
    case Socks5 =>
      if Contains(t, "socks5") && !Contains(t, "socks4") {
        forall q | Rank(q) < Rank(p)
          ensures !Contains(t, Name(q))
        {
        }
      }
    case Http =>
      if Contains(t, "http") && !Contains(t, "socks4") && !Contains(t, "socks5") {
        forall q | Rank(q) < Rank(p)
          ensures !Contains(t, Name(q))
        {
        }
      }
  }

  /** The `'https' in t` alternative of the JSON test never decides anything. */
  lemma HttpsRedundant(t: string)
    ensures JsonBucket(t) == Bucket(t)
  {
    if Contains(t, "https") {
      ContainsPrefix(t, "https", "http");
    }
  }

  /** The JSON API and the HTML table file a protocol string alike: the JSON test's
      extra alternative and the HTML side's strip change nothing. */
  lemma SameClassification(s: string)
    ensures JsonClassify(s) == Classify(s)
    ensures HtmlClassify(s) == Classify(s)
  {
    HttpsRedundant(Lower(s));
    assert SpaceFree("socks4") && SpaceFree("socks5") && SpaceFree("http");
    ContainsLowerStrip(s, "socks4");
    ContainsLowerStrip(s, "socks5");
    ContainsLowerStrip(s, "http");
  }

  /** Classification ignores letter case. */
  lemma ClassifyIgnoresCase(s: string)
    ensures Classify(Lower(s)) == Classify(s)
  {
    assert Lower(Lower(s)) == Lower(s);
  }

  /** The proxies of one page, per protocol, in the order they were found. */
  datatype Collected = Collected(http: seq<string>, socks4: seq<string>, socks5: seq<string>) {

    function Get(p: Protocol): seq<string> {
      match p
      case Http => http
      case Socks4 => socks4
      case Socks5 => socks5
    }

    /** `collected[p].append(proxy)` */
    function Add(p: Protocol, proxy: string): (c: Collected)
      ensures c.Get(p) == Get(p) + [proxy]
      ensures forall q :: q != p ==> c.Get(q) == Get(q)
    {
      match p
      case Http => this.(http := http + [proxy])
      case Socks4 => this.(socks4 := socks4 + [proxy])
      case Socks5 => this.(socks5 := socks5 + [proxy])
    }

    /** Two pages' worth (or two halves of a page) one after the other. */
    function Then(other: Collected): (c: Collected)
      ensures forall p :: c.Get(p) == Get(p) + other.Get(p)
    {
      Collected(http + other.http, socks4 + other.socks4, socks5 + other.socks5)
    }
  }

  /** Joining buckets is associative. */
  lemma ThenAssoc(a: Collected, b: Collected, c: Collected)
    ensures a.Then(b).Then(c) == a.Then(b.Then(c))
  {
  }

  /** What one fetched page amounts to for a pagination loop: no items (the
      source is exhausted), a failure that ends the fetch, or the page's buckets. */
  datatype PageOutcome = Exhausted | Failed | Parsed(batch: Collected)

  const NothingCollected: Collected := Collected([], [], [])
}
