/** `check_single_proxy` and `check_proxies_liveness`: every clean proxy is tried
    against one fixed endpoint, `http://httpbin.org/ip`, through itself, and the
    protocol's active file is replaced by the ones that answered with status 200
    — but only when at least one did. The probe request is an oracle from the
    proxy URL to an outcome. */
module Liveness {
  import opened Wrappers
  import opened Text
  import opened Protocols
  import opened Dedup

  /** What a probe request through a proxy comes to: an HTTP status, or an
      exception (refused connection, timeout, bad proxy URL, ...). */
  datatype ProbeOutcome = Status(code: int) | ProbeError

  /** The proxy URL used for both the `http` and `https` keys of a probe. */
  function ProxyUrl(p: Protocol, proxy: string): (u: string)
    ensures |u| == |Name(p)| + 3 + |proxy|
    ensures u[..|Name(p)|] == Name(p) && u[|Name(p)|..|Name(p)| + 3] == "://"
    ensures u[|Name(p)| + 3..] == proxy
  {
    Name(p) + "://" + proxy
  }

  /** Different (protocol, proxy) pairs are probed through different proxy URLs,
      so the oracle can answer each independently. */
  lemma ProxyUrlInjective(p: Protocol, q: Protocol, x: string, y: string)
    requires ProxyUrl(p, x) == ProxyUrl(q, y)
    ensures p == q && x == y
  {
    var u, v := ProxyUrl(p, x), ProxyUrl(q, y);
    assert u[0] == Name(p)[0] && v[0] == Name(q)[0];
    if p != Http && q != Http {
      assert u[5] == Name(p)[5] && v[5] == Name(q)[5];
    }
    assert p == q;
    assert x == u[|Name(p)| + 3..] && y == v[|Name(q)| + 3..];
  }

  /** `check_single_proxy`: the proxy back on status 200, nothing otherwise. */
  function CheckSingle(proxy: string, p: Protocol, probe: string -> ProbeOutcome): (r: Option<string>)
    ensures r.Some? <==> probe(ProxyUrl(p, proxy)) == Status(200)
    ensures r.Some? ==> r.value == proxy
  {
    match probe(ProxyUrl(p, proxy))
    case Status(code) => if code == 200 then Some(proxy) else None
    case ProbeError => None
  }

  /** `if result:` — the check returned a non-empty proxy. */
  predicate Live(proxy: string, p: Protocol, probe: string -> ProbeOutcome) {
    var r := CheckSingle(proxy, p, probe);
    r.Some? && r.value != []
  }

  /** A non-empty proxy is kept exactly when its probe answers status 200: any
      other status and any exception drop it. */
  lemma LiveExactlyOn200(proxy: string, p: Protocol, probe: string -> ProbeOutcome)
    requires proxy != []
    ensures Live(proxy, p, probe) <==> probe(ProxyUrl(p, proxy)) == Status(200)
  {
  }

  /** Reference: the live proxies of a list, in list order. */
  function LiveFilter(proxies: seq<string>, p: Protocol, probe: string -> ProbeOutcome): seq<string>
    decreases |proxies|
  {
    if proxies == [] then []
    else
      var init := proxies[..|proxies| - 1];
      var last := proxies[|proxies| - 1];
      LiveFilter(init, p, probe) + (if Live(last, p, probe) then [last] else [])
  }

  /** The filter keeps exactly the live entries, each as often as the list has it. */
  lemma {:induction false} LiveFilterMembers(proxies: seq<string>, p: Protocol, probe: string -> ProbeOutcome)
    ensures forall x :: x in LiveFilter(proxies, p, probe) <==> x in proxies && Live(x, p, probe)
    ensures multiset(LiveFilter(proxies, p, probe)) <= multiset(proxies)
    decreases |proxies|
  {
    if proxies != [] {
      var init := proxies[..|proxies| - 1];
      var last := proxies[|proxies| - 1];
      assert proxies == init + [last];
      LiveFilterMembers(init, p, probe);
    }
  }

  /** The filter of one more proxy adds that proxy when it is live. */
  lemma LiveFilterSnoc(proxies: seq<string>, i: nat, p: Protocol, probe: string -> ProbeOutcome)
    requires i < |proxies|
    ensures LiveFilter(proxies[..i + 1], p, probe)
         == LiveFilter(proxies[..i], p, probe) + (if Live(proxies[i], p, probe) then [proxies[i]] else [])
  {
    assert proxies[..i + 1][..i] == proxies[..i];
  }

  /** The pool of `check_proxies_liveness` over one protocol's list: each probe's
      result is appended as it completes. Completion order is not modelled, so
      the list is stated up to order: it holds each live proxy as often as the
      input does. */
  method CheckProtocol(proxies: seq<string>, p: Protocol, probe: string -> ProbeOutcome)
    returns (working: seq<string>)
    ensures multiset(working) == multiset(LiveFilter(proxies, p, probe))
  {
    working := [];
    var i := 0;
    while i < |proxies|
      invariant 0 <= i <= |proxies|
      invariant multiset(working) == multiset(LiveFilter(proxies[..i], p, probe))
    {
      var result := CheckSingle(proxies[i], p, probe);
      LiveFilterSnoc(proxies, i, p, probe);
      if result.Some? && result.value != [] {
        working := working + [result.value];
      }
      i := i + 1;
    }
    assert proxies[..i] == proxies;
  }

  /** The working list holds each proxy at most once when the list it was
      checked from does. */
  lemma WorkingOnce(proxies: seq<string>, p: Protocol, probe: string -> ProbeOutcome, working: seq<string>)
    requires NoDuplicates(proxies)
    requires multiset(working) == multiset(LiveFilter(proxies, p, probe))
    ensures NoDuplicates(working)
  {
    LiveFilterMembers(proxies, p, probe);
    NoDuplicatesCount(proxies);
    NoDuplicatesCount(working);
  }

  /** What the liveness step reads from a clean file holding `entries`. */
  function ReadClean(entries: seq<string>): seq<string> {
    StrippedNonBlank(ReadLines(FileText(entries)))
  }

  /** Whether protocol `p`'s active file gets rewritten. */
  predicate Refreshed(clean: map<Protocol, seq<string>>, p: Protocol, probe: string -> ProbeOutcome) {
    p in clean && LiveFilter(ReadClean(clean[p]), p, probe) != []
  }

  /** One protocol of `check_proxies_liveness`: no clean file, or no live proxy,
      leaves the active file as it was. */
  method CheckProtocolFile(
    clean: map<Protocol, seq<string>>, active: map<Protocol, seq<string>>, p: Protocol, probe: string -> ProbeOutcome)
    returns (next: map<Protocol, seq<string>>)
    ensures Refreshed(clean, p, probe) ==>
              p in next && multiset(next[p]) == multiset(LiveFilter(ReadClean(clean[p]), p, probe))
    ensures !Refreshed(clean, p, probe) ==> (p in next <==> p in active) && (p in active ==> next[p] == active[p])
    ensures forall q :: q != p ==> (q in next <==> q in active) && (q in active ==> next[q] == active[q])
  {
    next := active;
    if p in clean {
      var proxies := ReadClean(clean[p]);
      var working := CheckProtocol(proxies, p, probe);
      if working != [] {
        next := active[p := working];
      } else {
        assert multiset(LiveFilter(proxies, p, probe)) == multiset{};
      }
    }
  }

  /** `check_proxies_liveness`: each protocol whose clean file yields a live proxy
      gets an active file of exactly its live proxies; every other protocol keeps
      the active file it had, stale or not. */
  method CheckLiveness(clean: map<Protocol, seq<string>>, active: map<Protocol, seq<string>>, probe: string -> ProbeOutcome)
    returns (next: map<Protocol, seq<string>>)
    ensures forall p :: Refreshed(clean, p, probe) ==>
              p in next && multiset(next[p]) == multiset(LiveFilter(ReadClean(clean[p]), p, probe))
    ensures forall p :: !Refreshed(clean, p, probe) ==> (p in next <==> p in active) && (p in active ==> next[p] == active[p])
  {
    var a := CheckProtocolFile(clean, active, Http, probe);
    var b := CheckProtocolFile(clean, a, Socks4, probe);
    next := CheckProtocolFile(clean, b, Socks5, probe);
    forall p | Refreshed(clean, p, probe)
      ensures p in next && multiset(next[p]) == multiset(LiveFilter(ReadClean(clean[p]), p, probe))
    {
      match p
      case Http =>
      case Socks4 =>
      case Socks5 =>
    }
    forall p | !Refreshed(clean, p, probe)
      ensures (p in next <==> p in active) && (p in active ==> next[p] == active[p])
    {
      match p
      case Http =>
      case Socks4 =>
      case Socks5 =>
    }
  }

  /** On a clean file written by the dedup step, the active file of a refreshed
      protocol holds exactly the clean proxies whose probe answered 200, each once. */
  lemma ActiveFromClean(entries: seq<string>, p: Protocol, probe: string -> ProbeOutcome, working: seq<string>)
    requires forall x :: x in entries ==> WellFormed(x)
    requires multiset(working) == multiset(LiveFilter(ReadClean(entries), p, probe))
    ensures forall x :: x in working <==> x in entries && probe(ProxyUrl(p, x)) == Status(200)
  {
    ReadBackEntries(entries);
    assert ReadClean(entries) == entries;
    LiveFilterMembers(entries, p, probe);
    SameMembers(working, LiveFilter(entries, p, probe));
    forall x | x in entries
      ensures Live(x, p, probe) <==> probe(ProxyUrl(p, x)) == Status(200)
    {
      LiveExactlyOn200(x, p, probe);
    }
  }

  lemma SameMembers(a: seq<string>, b: seq<string>)
    requires multiset(a) == multiset(b)
    ensures forall x :: x in a <==> x in b
  {
    forall x
      ensures x in a <==> x in b
    {
      assert x in a <==> x in multiset(a);
      assert x in b <==> x in multiset(b);
    }
  }

  /** A list none of whose proxies is live leaves nothing working. */
  lemma {:induction false} NoneLive(proxies: seq<string>, p: Protocol, probe: string -> ProbeOutcome)
    requires forall x :: x in proxies ==> !Live(x, p, probe)
    ensures LiveFilter(proxies, p, probe) == []
    decreases |proxies|
  {
    if proxies != [] {
      var init := proxies[..|proxies| - 1];
      assert forall x :: x in init ==> x in proxies;
      NoneLive(init, p, probe);
    }
  }

  /** When every probe fails, nothing is rewritten: the active tier stays exactly
      as it was, even though its proxies were not checked in this run. */
  lemma AllDeadKeepsActive(clean: map<Protocol, seq<string>>, p: Protocol, probe: string -> ProbeOutcome)
    requires forall u :: probe(u) != Status(200)
    ensures !Refreshed(clean, p, probe)
  {
    if p in clean {
      var xs := ReadClean(clean[p]);
      forall x | x in xs
        ensures !Live(x, p, probe)
      {
        assert probe(ProxyUrl(p, x)) != Status(200);
      }
      NoneLive(xs, p, probe);
    }
  }
}
