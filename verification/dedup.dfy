/** `deduplicate_proxies`: for each protocol, the union of the stripped, non-blank
    lines of `<source>/<protocol>.txt` over every source directory, written to the
    clean tier as one file per protocol that has any. */
module Dedup {
  import opened Text
  import opened Protocols
  import opened Store

  /** The walk skips the two tier directories that live beside the sources. */
  predicate IsSourceDir(d: string) {
    d != "clean" && d != "active"
  }

  /** The proxies directory `d` contributes to protocol `p`. */
  function FileProxies(raw: Raw, d: string, p: Protocol): set<string> {
    var k := (d, Name(p));
    if IsSourceDir(d) && k in raw then Unique(ReadLines(FileText(raw[k]))) else {}
  }

  /** Reference: the unique proxies of protocol `p` over the whole raw tier. */
  function CleanSet(raw: Raw, p: Protocol): set<string> {
    set k: Key, x | k in raw && x in FileProxies(raw, k.0, p) :: x
  }

  /** The union over a directory listing, taken in listing order. */
  function Listed(raw: Raw, dirs: seq<string>, p: Protocol): set<string>
    decreases |dirs|
  {
    if dirs == [] then {} else Listed(raw, dirs[..|dirs| - 1], p) + FileProxies(raw, dirs[|dirs| - 1], p)
  }

  /** A proxy is in the union exactly when some listed directory contributes it. */
  lemma {:induction false} ListedMembers(raw: Raw, dirs: seq<string>, p: Protocol, x: string)
    ensures x in Listed(raw, dirs, p) <==> exists i :: 0 <= i < |dirs| && x in FileProxies(raw, dirs[i], p)
    decreases |dirs|
  {
    if dirs != [] {
      var init := dirs[..|dirs| - 1];
      ListedMembers(raw, init, p, x);
      if x in Listed(raw, init, p) {
        var i :| 0 <= i < |init| && x in FileProxies(raw, init[i], p);
        assert dirs[i] == init[i];
      }
      if exists i :: 0 <= i < |dirs| && x in FileProxies(raw, dirs[i], p) {
        var i :| 0 <= i < |dirs| && x in FileProxies(raw, dirs[i], p);
        if i < |dirs| - 1 {
          assert init[i] == dirs[i];
        }
      }
    }
  }

  /** Whatever order the directories are listed in, a listing that names every
      source directory yields exactly the reference set. */
  lemma ListingComplete(raw: Raw, dirs: seq<string>, p: Protocol)
    requires forall k: Key :: k in raw ==> k.0 in dirs
    ensures Listed(raw, dirs, p) == CleanSet(raw, p)
  {
    forall x
      ensures x in Listed(raw, dirs, p) <==> x in CleanSet(raw, p)
    {
      ListedMembers(raw, dirs, p, x);
      if x in Listed(raw, dirs, p) {
        var i :| 0 <= i < |dirs| && x in FileProxies(raw, dirs[i], p);
        var k := (dirs[i], Name(p));
        assert k in raw && x in FileProxies(raw, k.0, p);
      }
      if x in CleanSet(raw, p) {
        var k: Key :| k in raw && x in FileProxies(raw, k.0, p);
        var i :| 0 <= i < |dirs| && dirs[i] == k.0;
      }
    }
  }

  lemma UniqueSnoc(lines: seq<string>, l: string)
    ensures Unique(lines + [l]) == Unique(lines) + (if Strip(l) != [] then {Strip(l)} else {})
  {
    assert forall m :: m in lines + [l] <==> m in lines || m == l;
  }

  /** The union over one more directory of the listing. */
  lemma ListedSnoc(raw: Raw, dirs: seq<string>, i: nat, p: Protocol)
    requires i < |dirs|
    ensures Listed(raw, dirs[..i + 1], p) == Listed(raw, dirs[..i], p) + FileProxies(raw, dirs[i], p)
  {
    assert dirs[..i + 1][..i] == dirs[..i];
  }

  /** The set of one more line of a file. */
  lemma UniquePrefix(lines: seq<string>, j: nat)
    requires j < |lines|
    ensures Unique(lines[..j + 1]) == Unique(lines[..j]) + (if Strip(lines[j]) != [] then {Strip(lines[j])} else {})
  {
    assert lines[..j + 1] == lines[..j] + [lines[j]];
    UniqueSnoc(lines[..j], lines[j]);
  }

  /** The inner loop of the walk: every stripped non-blank line of one file is
      added to the set. */
  method AddLines(before: set<string>, lines: seq<string>) returns (all: set<string>)
    ensures all == before + Unique(lines)
  {
    all := before;
    var j := 0;
    while j < |lines|
      invariant 0 <= j <= |lines|
      invariant all == before + Unique(lines[..j])
    {
      UniquePrefix(lines, j);
      var q := Strip(lines[j]);
      if q != [] {
        assert before + Unique(lines[..j + 1]) == (before + Unique(lines[..j])) + {q};
        all := all + {q};
      }
      j := j + 1;
    }
    assert lines[..j] == lines;
  }

  /** One protocol's pass of the walk: over the listing, over each file's lines,
      adding every stripped non-blank line to a set. */
  method CollectProtocol(raw: Raw, dirs: seq<string>, p: Protocol) returns (all: set<string>)
    ensures all == Listed(raw, dirs, p)
  {
    all := {};
    var i := 0;
    while i < |dirs|
      invariant 0 <= i <= |dirs|
      invariant all == Listed(raw, dirs[..i], p)
    {
      var d := dirs[i];
      var k := (d, Name(p));
      ListedSnoc(raw, dirs, i, p);
      if IsSourceDir(d) && k in raw {
        all := AddLines(all, ReadLines(FileText(raw[k])));
        assert FileProxies(raw, d, p) == Unique(ReadLines(FileText(raw[k])));
      } else {
        assert FileProxies(raw, d, p) == {};
      }
      i := i + 1;
    }
    assert dirs[..i] == dirs;
  }

  /** No entry occurs twice. */
  predicate NoDuplicates(xs: seq<string>) {
    forall i, j :: 0 <= i < j < |xs| ==> xs[i] != xs[j]
  }

  /** No entry occurs twice exactly when, counted, every entry occurs at most once. */
  lemma {:induction false} NoDuplicatesCount(xs: seq<string>)
    ensures NoDuplicates(xs) <==> forall x :: multiset(xs)[x] <= 1
    decreases |xs|
  {
    if xs != [] {
      var t := xs[1..];
      NoDuplicatesCount(t);
      assert xs == [xs[0]] + t;
      assert multiset(xs) == multiset{xs[0]} + multiset(t);
      if NoDuplicates(xs) {
        assert xs[0] !in t;
        assert NoDuplicates(t) by {
          forall i, j | 0 <= i < j < |t|
            ensures t[i] != t[j]
          {
            assert t[i] == xs[i + 1] && t[j] == xs[j + 1];
          }
        }
      }
      if forall x :: multiset(xs)[x] <= 1 {
        assert multiset(xs)[xs[0]] <= 1;
        assert multiset(t)[xs[0]] == 0;
        assert forall x :: multiset(t)[x] <= multiset(xs)[x];
        forall i, j | 0 <= i < j < |xs|
          ensures xs[i] != xs[j]
        {
          assert xs[j] == t[j - 1] && xs[j] in t;
          if i > 0 {
            assert xs[i] == t[i - 1];
          }
        }
      }
    }
  }

  /** Writing a set out, one element after another, in whatever order it yields
      them. */
  method Enumerate(s: set<string>) returns (xs: seq<string>)
    ensures forall x :: x in xs <==> x in s
    ensures NoDuplicates(xs)
  {
    xs := [];
    var rest := s;
    while rest != {}
      invariant rest <= s
      invariant forall x :: x in xs <==> x in s && x !in rest
      invariant NoDuplicates(xs)
      decreases |rest|
    {
      var x :| x in rest;
      xs := xs + [x];
      rest := rest - {x};
    }
  }

  /** An entry of the clean tier: non-blank, already stripped, and free of line
      ends, so it reads back as itself. */
  predicate WellFormed(x: string) {
    x != [] && Strip(x) == x && BreakFree(x, IsNewline)
  }

  /** Every proxy of the walk is well formed. */
  lemma ListedWellFormed(raw: Raw, dirs: seq<string>, p: Protocol, x: string)
    requires x in Listed(raw, dirs, p)
    ensures WellFormed(x)
  {
    ListedMembers(raw, dirs, p, x);
    var i :| 0 <= i < |dirs| && x in FileProxies(raw, dirs[i], p);
    var lines := ReadLines(FileText(raw[(dirs[i], Name(p))]));
    var l :| l in lines && Strip(l) != [] && Strip(l) == x;
    StripIdempotent(l);
    StripBreakFree(l, IsNewline);
  }

  /** A file of well-formed entries reads back line by line as exactly those
      entries, in order, and as a set as exactly their set. */
  lemma ReadBackEntries(xs: seq<string>)
    requires forall x :: x in xs ==> WellFormed(x)
    ensures StrippedNonBlank(ReadLines(FileText(xs))) == xs
    ensures Unique(ReadLines(FileText(xs))) == set x | x in xs
  {
    ReadBack(xs, IsNewline);
    StrippedNonBlankUnchanged(xs);
  }

  /** A source file built from well-formed saved entries contributes exactly
      those entries. */
  lemma FileProxiesOfSaved(raw: Raw, d: string, p: Protocol)
    requires IsSourceDir(d)
    requires forall x :: x in Entries(raw, (d, Name(p))) ==> WellFormed(x)
    ensures FileProxies(raw, d, p) == set x | x in Entries(raw, (d, Name(p)))
  {
    ReadBackEntries(Entries(raw, (d, Name(p))));
  }

  /** One protocol of `deduplicate_proxies`: its clean file is written only when
      the walk found something. */
  method DeduplicateProtocol(clean: map<Protocol, seq<string>>, raw: Raw, dirs: seq<string>, p: Protocol)
    returns (next: map<Protocol, seq<string>>)
    ensures p in next <==> Listed(raw, dirs, p) != {}
    ensures p in next ==> (forall x :: x in next[p] <==> x in Listed(raw, dirs, p)) && NoDuplicates(next[p])
    ensures forall q :: q != p ==> (q in next <==> q in clean) && (q in clean ==> next[q] == clean[q])
  {
    var all := CollectProtocol(raw, dirs, p);
    if all != {} {
      var xs := Enumerate(all);
      next := clean[p := xs];
    } else {
      next := clean - {p};
    }
  }

  /** `deduplicate_proxies`: the clean tier is emptied, then each protocol's file
      holds the unique proxies of the walk, each once, and exists only when there
      are some. Every entry is well formed. */
  method Deduplicate(raw: Raw, dirs: seq<string>) returns (clean: map<Protocol, seq<string>>)
    ensures forall p :: p in clean <==> Listed(raw, dirs, p) != {}
    ensures forall p :: p in clean ==>
              (forall x :: x in clean[p] <==> x in Listed(raw, dirs, p)) && NoDuplicates(clean[p])
  {
    clean := map[];
    clean := DeduplicateProtocol(clean, raw, dirs, Http);
    clean := DeduplicateProtocol(clean, raw, dirs, Socks4);
    clean := DeduplicateProtocol(clean, raw, dirs, Socks5);
    forall p
      ensures p in clean <==> Listed(raw, dirs, p) != {}
    {
      match p
      case Http =>
      case Socks4 =>
      case Socks5 =>
    }
  }

  /** Every entry of the clean tier is well formed, so liveness checking reads it
      back unchanged. */
  lemma CleanEntriesWellFormed(clean: map<Protocol, seq<string>>, raw: Raw, dirs: seq<string>, p: Protocol)
    requires p in clean
    requires forall x :: x in clean[p] <==> x in Listed(raw, dirs, p)
    ensures forall x :: x in clean[p] ==> WellFormed(x)
    ensures StrippedNonBlank(ReadLines(FileText(clean[p]))) == clean[p]
  {
    forall x | x in clean[p]
      ensures WellFormed(x)
    {
      ListedWellFormed(raw, dirs, p, x);
    }
    ReadBackEntries(clean[p]);
  }
}
