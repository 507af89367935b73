/** The raw tier of the proxy directory, `proxies/<source>/<file>.txt`, as a map
    from (source directory, file stem) to the entries written to that file. The
    file's text is `FileText` of those entries. */
module Store {
  import opened Text
  import opened Protocols

  type Key = (string, string)

  type Raw = map<Key, seq<string>>

  /** The entries of a file; an absent file has none. */
  function Entries(raw: Raw, k: Key): seq<string> {
    if k in raw then raw[k] else []
  }

  /** A file stem one of the three protocols is saved under. */
  predicate IsProtocolFile(f: string) {
    f == "http" || f == "socks4" || f == "socks5"
  }

  /** Two stores agree on every file outside source directory `source`. */
  ghost predicate SameOutside(a: Raw, b: Raw, source: string) {
    forall k: Key :: k.0 != source ==> (k in a <==> k in b) && Entries(a, k) == Entries(b, k)
  }

  /** `save_proxies`: append a batch to `<source>/<file>.txt`; an empty batch does
      not touch the disk, so it does not create the file either. */
  function Save(raw: Raw, source: string, file: string, proxies: seq<string>): (r: Raw)
    ensures Entries(r, (source, file)) == Entries(raw, (source, file)) + proxies
    ensures (source, file) in r <==> (source, file) in raw || proxies != []
    ensures forall k: Key :: k != (source, file) ==> (k in r <==> k in raw) && Entries(r, k) == Entries(raw, k)
  {
    if proxies == [] then raw else raw[(source, file) := Entries(raw, (source, file)) + proxies]
  }

  /** What `save_proxies` writes, `'\n'.join(proxies) + '\n'`, is the file text of
      the batch, so appending it extends the file text of the stored entries. */
  lemma {:induction false} SaveAppendsText(raw: Raw, source: string, file: string, proxies: seq<string>)
    requires proxies != []
    ensures FileText(Entries(Save(raw, source, file, proxies), (source, file)))
         == FileText(Entries(raw, (source, file))) + JoinSep(proxies, '\n') + "\n"
  {
    JoinedIsFileText(proxies);
    FileTextAppend(Entries(raw, (source, file)), proxies);
  }

  lemma {:induction false} JoinedIsFileText(proxies: seq<string>)
    requires proxies != []
    ensures JoinSep(proxies, '\n') + "\n" == FileText(proxies)
    decreases |proxies|
  {
    if |proxies| > 1 {
      JoinedIsFileText(proxies[1..]);
    } else {
      assert proxies[1..] == [];
    }
  }

  /** `clear_source_dir`: remove every file of one source directory. */
  function ClearSource(raw: Raw, source: string): (r: Raw)
    ensures forall k: Key :: k.0 == source ==> k !in r
    ensures SameOutside(r, raw, source)
  {
    map k | k in raw && k.0 != source :: raw[k]
  }

  /** Clearing a source after saving into it is just clearing it. */
  lemma ClearAfterSave(raw: Raw, source: string, file: string, proxies: seq<string>)
    ensures ClearSource(Save(raw, source, file, proxies), source) == ClearSource(raw, source)
  {
  }

  /** Saving a page's buckets: `for proto, proxies in collected.items(): if proxies: save_proxies(...)`. */
  function SaveCollected(raw: Raw, source: string, c: Collected): (r: Raw)
    ensures forall p :: Entries(r, (source, Name(p))) == Entries(raw, (source, Name(p))) + c.Get(p)
    ensures forall p :: (source, Name(p)) in r <==> (source, Name(p)) in raw || c.Get(p) != []
    ensures forall k: Key :: (k.0 != source || !IsProtocolFile(k.1)) ==>
              (k in r <==> k in raw) && Entries(r, k) == Entries(raw, k)
  {
    var a := Save(raw, source, "http", c.http);
    var b := Save(a, source, "socks4", c.socks4);
    var r := Save(b, source, "socks5", c.socks5);
    forall p
      ensures Entries(r, (source, Name(p))) == Entries(raw, (source, Name(p))) + c.Get(p)
      ensures (source, Name(p)) in r <==> (source, Name(p)) in raw || c.Get(p) != []
    {
      assert p == Http || p == Socks4 || p == Socks5;
    }
    r
  }

  /** One protocol's entries of a sequence of batches, in order. */
  function Flatten(cs: seq<Collected>, p: Protocol): seq<string>
    decreases |cs|
  {
    if cs == [] then [] else cs[0].Get(p) + Flatten(cs[1..], p)
  }

  /** Saving the batches of successive pages, in order. */
  function SaveAll(raw: Raw, source: string, cs: seq<Collected>): (r: Raw)
    ensures forall p :: Entries(r, (source, Name(p))) == Entries(raw, (source, Name(p))) + Flatten(cs, p)
    ensures forall p :: (source, Name(p)) in r <==> (source, Name(p)) in raw || Flatten(cs, p) != []
    ensures forall k: Key :: (k.0 != source || !IsProtocolFile(k.1)) ==>
              (k in r <==> k in raw) && Entries(r, k) == Entries(raw, k)
    decreases |cs|
  {
    if cs == [] then raw
    else
      var r := SaveAll(SaveCollected(raw, source, cs[0]), source, cs[1..]);
      forall p
        ensures Entries(raw, (source, Name(p))) + cs[0].Get(p) + Flatten(cs[1..], p)
             == Entries(raw, (source, Name(p))) + Flatten(cs, p)
      {
        AppendAssoc(Entries(raw, (source, Name(p))), cs[0].Get(p), Flatten(cs[1..], p));
      }
      r
  }
}
