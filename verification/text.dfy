/** The handful of Python string operations the proxy manager relies on:
    `str.strip()`, `str.lower()`, the substring test `n in s`, `str.splitlines()`,
    line-by-line reading of a text file, `str.split('.')` and the
    `'\n'.join(xs) + '\n'` file layout written by `save_proxies`. */
module Text {

  /** Whitespace as Python's `str.isspace()` sees it, i.e. what `str.strip()` removes. */
  predicate IsSpace(c: char) {
    || c == ' '
    || '\t' <= c <= '\r'
    || '\U{1C}' <= c <= '\U{1F}'
    || c == '\U{85}' || c == '\U{A0}' || c == '\U{1680}'
    || '\U{2000}' <= c <= '\U{200A}'
    || c == '\U{2028}' || c == '\U{2029}' || c == '\U{202F}' || c == '\U{205F}' || c == '\U{3000}'
  }

  /** Line boundaries of `str.splitlines()`. */
  predicate IsLineBoundary(c: char) {
    || c == '\n' || c == '\r' || c == '\U{0B}' || c == '\U{0C}'
    || '\U{1C}' <= c <= '\U{1E}'
    || c == '\U{85}' || c == '\U{2028}' || c == '\U{2029}'
  }

  /** Line endings of a text file read in universal-newlines mode. */
  predicate IsNewline(c: char) {
    c == '\n' || c == '\r'
  }

  predicate SpaceFree(s: string) {
    forall k :: 0 <= k < |s| ==> !IsSpace(s[k])
  }

  predicate BreakFree(s: string, brk: char -> bool) {
    forall k :: 0 <= k < |s| ==> !brk(s[k])
  }

  /* ---------------------------------------------------------------- strip */

  /** Index of the first non-space character at or after `i` (|s| if none). */
  function SkipSpaces(s: string, i: nat): (j: nat)
    requires i <= |s|
    ensures i <= j <= |s|
    ensures forall k :: i <= k < j ==> IsSpace(s[k])
    ensures j < |s| ==> !IsSpace(s[j])
    decreases |s| - i
  {
    if i < |s| && IsSpace(s[i]) then SkipSpaces(s, i + 1) else i
  }

  /** One past the last non-space character of `s[lo..hi]` (`lo` if none). */
  function TrimEnd(s: string, lo: nat, hi: nat): (j: nat)
    requires lo <= hi <= |s|
    ensures lo <= j <= hi
    ensures forall k :: j <= k < hi ==> IsSpace(s[k])
    ensures j > lo ==> !IsSpace(s[j - 1])
    decreases hi - lo
  {
    if hi > lo && IsSpace(s[hi - 1]) then TrimEnd(s, lo, hi - 1) else hi
  }

  /** The slice `s[b.0..b.1]` that `str.strip()` keeps: everything outside it is
      whitespace, and it starts and ends with a non-space character. */
  function StripBounds(s: string): (b: (nat, nat))
    ensures b.0 <= b.1 <= |s|
    ensures forall k :: 0 <= k < b.0 ==> IsSpace(s[k])
    ensures forall k :: b.1 <= k < |s| ==> IsSpace(s[k])
    ensures b.0 < b.1 ==> !IsSpace(s[b.0]) && !IsSpace(s[b.1 - 1])
    ensures b.0 == b.1 ==> forall k :: 0 <= k < |s| ==> IsSpace(s[k])
  {
    var i := SkipSpaces(s, 0);
    (i, TrimEnd(s, i, |s|))
  }

  /** `t.lstrip()`, one character at a time. */
  function TrimLeft(t: string): string
    decreases |t|
  {
    if t != [] && IsSpace(t[0]) then TrimLeft(t[1..]) else t
  }

  /** `t.rstrip()`, one character at a time. */
  function TrimRight(t: string): string
    decreases |t|
  {
    if t != [] && IsSpace(t[|t| - 1]) then TrimRight(t[..|t| - 1]) else t
  }

  /** A whitespace run of length `i` followed by a non-space character (or the
      end) is what `TrimLeft` removes. */
  lemma {:induction false} TrimLeftIs(t: string, i: nat)
    requires i <= |t| && forall k :: 0 <= k < i ==> IsSpace(t[k])
    requires i < |t| ==> !IsSpace(t[i])
    ensures TrimLeft(t) == t[i..]
    decreases i
  {
    if i > 0 {
      assert forall k :: 0 <= k < i - 1 ==> t[1..][k] == t[k + 1];
      TrimLeftIs(t[1..], i - 1);
      assert t[1..][i - 1..] == t[i..];
    }
  }

  /** A whitespace run from `j` to the end, preceded by a non-space character (or
      the start), is what `TrimRight` removes. */
  lemma {:induction false} TrimRightIs(t: string, j: nat)
    requires j <= |t| && forall k :: j <= k < |t| ==> IsSpace(t[k])
    requires j > 0 ==> !IsSpace(t[j - 1])
    ensures TrimRight(t) == t[..j]
    decreases |t| - j
  {
    if j < |t| {
      var u := t[..|t| - 1];
      assert forall k :: j <= k < |u| ==> u[k] == t[k];
      TrimRightIs(u, j);
      assert u[..j] == t[..j];
    }
  }

  /** Python's `s.strip()`. */
  function Strip(s: string): (r: string)
    ensures |r| <= |s|
    ensures r == [] <==> forall k :: 0 <= k < |s| ==> IsSpace(s[k])
    ensures r != [] ==> !IsSpace(r[0]) && !IsSpace(r[|r| - 1])
  {
    var b := StripBounds(s);
    s[b.0..b.1]
  }

  /** `str.strip()` is `lstrip()` followed by `rstrip()`; a string that is all
      whitespace is one leading run and strips to nothing. */
  lemma StripCutsSpaceRuns(s: string)
    ensures Strip(s) == [] <==> TrimLeft(s) == []
    ensures Strip(s) == TrimRight(TrimLeft(s))
  {
    var b := StripBounds(s);
    if b.0 < b.1 {
      StripCutsAt(s, b.0, b.1);
    } else {
      TrimLeftIs(s, |s|);
      assert Strip(s) == [];
    }
  }

  /** `StripCutsSpaceRuns` for a string that is not all whitespace. */
  lemma StripCutsAt(s: string, i: nat, j: nat)
    requires (i, j) == StripBounds(s) && i < j
    ensures Strip(s) != [] && TrimLeft(s) != []
    ensures Strip(s) == TrimRight(TrimLeft(s))
  {
    TrimLeftIs(s, i);
    TrimRightOfDrop(s, i, j);
    assert Strip(s) == s[i..j];
  }

  /** `TrimRightIs` for the part of `s` from `i` on. */
  lemma TrimRightOfDrop(s: string, i: nat, j: nat)
    requires i <= j <= |s| && forall k :: j <= k < |s| ==> IsSpace(s[k])
    requires j > i ==> !IsSpace(s[j - 1])
    ensures TrimRight(s[i..]) == s[i..j]
  {
    var u := s[i..];
    forall k | j - i <= k < |u|
      ensures IsSpace(u[k])
    {
      assert u[k] == s[i + k];
    }
    if j > i {
      assert u[j - i - 1] == s[j - 1];
    }
    TrimRightIs(u, j - i);
    var x, y := u[..j - i], s[i..j];
    forall k | 0 <= k < |x|
      ensures x[k] == y[k]
    {
      assert x[k] == s[i + k];
    }
  }

  /** Stripping never introduces a character that was not there. */
  lemma StripBreakFree(s: string, brk: char -> bool)
    requires BreakFree(s, brk)
    ensures BreakFree(Strip(s), brk)
  {
  }

  /** `str.strip()` is idempotent. */
  lemma StripIdempotent(s: string)
    ensures Strip(Strip(s)) == Strip(s)
  {
  }

  /* ---------------------------------------------------------------- lower */

  /** Python's `str.lower()` restricted to ASCII letters. */
  function LowerChar(c: char): char {
    if 'A' <= c <= 'Z' then (c as int + 32) as char else c
  }

  /** `s.lower()`; the ensures is there so that proofs about substrings can use
      it without unfolding the body. */
  function Lower(s: string): (r: string)
    ensures |r| == |s|
    ensures forall k :: 0 <= k < |s| ==> r[k] == LowerChar(s[k])
  {
    seq(|s|, k requires 0 <= k < |s| => LowerChar(s[k]))
  }

  /** Lower-casing keeps whitespace whitespace and everything else non-whitespace. */
  lemma LowerCharKeepsSpace(c: char)
    ensures IsSpace(LowerChar(c)) <==> IsSpace(c)
  {
  }

  /* ------------------------------------------------------------ substring */

  predicate OccursAt(s: string, n: string, k: int) {
    0 <= k && k + |n| <= |s| && s[k..k + |n|] == n
  }

  /** Python's substring test `n in s`. */
  predicate Contains(s: string, n: string) {
    exists k :: 0 <= k <= |s| - |n| && OccursAt(s, n, k)
  }

  /** A needle that is a prefix of an occurring needle occurs too: `'https' in s`
      implies `'http' in s`. */
  lemma ContainsPrefix(s: string, n: string, m: string)
    requires m <= n
    requires Contains(s, n)
    ensures Contains(s, m)
  {
    var k :| 0 <= k <= |s| - |n| && OccursAt(s, n, k);
    assert s[k..k + |m|] == s[k..k + |n|][..|m|];
    assert OccursAt(s, m, k);
  }

  /** Cutting whitespace off both ends cannot create or destroy an occurrence of a
      non-empty needle that has no whitespace in it. */
  lemma ContainsTrimmed(u: string, i: nat, j: nat, n: string)
    requires i <= j <= |u|
    requires forall k :: 0 <= k < i ==> IsSpace(u[k])
    requires forall k :: j <= k < |u| ==> IsSpace(u[k])
    requires n != [] && SpaceFree(n)
    ensures Contains(u[i..j], n) <==> Contains(u, n)
  {
    var t := u[i..j];
    if Contains(t, n) {
      var k :| 0 <= k <= |t| - |n| && OccursAt(t, n, k);
      SliceOccurs(u, i, j, n, k);
    }
    if Contains(u, n) {
      var k :| 0 <= k <= |u| - |n| && OccursAt(u, n, k);
      assert u[k] == n[0];
      assert u[k + |n| - 1] == n[|n| - 1];
      assert i <= k && k + |n| <= j;
      SliceOccurs(u, i, j, n, k - i);
    }
  }

  /** An occurrence inside a slice is an occurrence in the whole string, shifted. */
  lemma SliceOccurs(u: string, i: nat, j: nat, n: string, k: nat)
    requires i <= j <= |u| && k + |n| <= j - i
    ensures OccursAt(u[i..j], n, k) <==> OccursAt(u, n, i + k)
  {
    var x, y := u[i..j][k..k + |n|], u[i + k..i + k + |n|];
    assert forall m :: 0 <= m < |n| ==> x[m] == y[m];
  }

  /** Stripping before lower-casing does not change whether a whitespace-free,
      non-empty needle occurs. */
  lemma ContainsLowerStrip(s: string, n: string)
    requires n != [] && SpaceFree(n)
    ensures Contains(Lower(Strip(s)), n) <==> Contains(Lower(s), n)
  {
    var b := StripBounds(s);
    var u := Lower(s);
    assert Lower(Strip(s)) == u[b.0..b.1];
    forall k | 0 <= k < b.0
      ensures IsSpace(u[k])
    {
      LowerCharKeepsSpace(s[k]);
    }
    forall k | b.1 <= k < |u|
      ensures IsSpace(u[k])
    {
      LowerCharKeepsSpace(s[k]);
    }
    ContainsTrimmed(u, b.0, b.1, n);
  }

  /* ---------------------------------------------------------- line splits */

  /** Index of the first character at or after `i` accepted by `brk` (|s| if none). */
  function NextBreak(s: string, brk: char -> bool, i: nat): (j: nat)
    requires i <= |s|
    ensures i <= j <= |s|
    ensures forall k :: i <= k < j ==> !brk(s[k])
    ensures j < |s| ==> brk(s[j])
    decreases |s| - i
  {
    if i < |s| && !brk(s[i]) then NextBreak(s, brk, i + 1) else i
  }

  /** Cuts `s` into lines ending at each character `brk` accepts, a "\r\n" pair
      counting as one line end; the text after the last line end is a line only
      when it is non-empty. With `IsLineBoundary` this is `str.splitlines()`, with
      `IsNewline` it is iterating over an open text file (line ends dropped). */
  function SplitOn(s: string, brk: char -> bool): (lines: seq<string>)
    ensures forall l :: l in lines ==> BreakFree(l, brk)
    ensures s != [] ==> lines != []
    decreases |s|
  {
    if s == [] then []
    else
      var i := NextBreak(s, brk, 0);
      if i == |s| then [s]
      else
        var next := if s[i] == '\r' && i + 1 < |s| && s[i + 1] == '\n' then i + 2 else i + 1;
        [s[..i]] + SplitOn(s[next..], brk)
  }

  /** A line ended by a single line-end character is cut off the front. */
  lemma SplitOnLine(a: string, c: char, b: string, brk: char -> bool)
    requires BreakFree(a, brk) && brk(c)
    requires c != '\r' || b == [] || b[0] != '\n'
    ensures SplitOn(a + [c] + b, brk) == [a] + SplitOn(b, brk)
  {
    var s := a + [c] + b;
    assert forall k :: 0 <= k < |a| ==> s[k] == a[k];
    assert s[|a|] == c;
    var i := NextBreak(s, brk, 0);
    assert i == |a|;
    assert s[..i] == a;
    assert s[i + 1..] == b;
  }

  /** A line ended by "\r\n" is cut off the front, the pair counting as one end. */
  lemma SplitOnCrLf(a: string, b: string, brk: char -> bool)
    requires BreakFree(a, brk) && brk('\r')
    ensures SplitOn(a + "\r\n" + b, brk) == [a] + SplitOn(b, brk)
  {
    var s := a + "\r\n" + b;
    assert forall k :: 0 <= k < |a| ==> s[k] == a[k];
    assert s[|a|] == '\r' && s[|a| + 1] == '\n';
    var i := NextBreak(s, brk, 0);
    assert i == |a|;
    assert s[..i] == a;
    assert s[i + 2..] == b;
  }

  /** Text without a line end, and not empty, is one last line. */
  lemma SplitOnLast(a: string, brk: char -> bool)
    requires BreakFree(a, brk) && a != []
    ensures SplitOn(a, brk) == [a]
  {
    assert NextBreak(a, brk, 0) == |a|;
  }

  function SplitLines(s: string): seq<string> {
    SplitOn(s, IsLineBoundary)
  }

  function ReadLines(s: string): seq<string> {
    SplitOn(s, IsNewline)
  }

  /** What `save_proxies` writes for a batch: each entry followed by "\n". */
  function FileText(entries: seq<string>): string {
    if entries == [] then [] else entries[0] + "\n" + FileText(entries[1..])
  }

  /** Appending a batch to a file appends its text: a file built by several saves
      reads as the text of all their entries in order. */
  lemma {:induction false} FileTextAppend(a: seq<string>, b: seq<string>)
    ensures FileText(a + b) == FileText(a) + FileText(b)
    decreases |a|
  {
    if a == [] {
      assert a + b == b;
    } else {
      assert a + b != [] && (a + b)[0] == a[0];
      assert (a + b)[1..] == a[1..] + b;
      FileTextAppend(a[1..], b);
      calc {
        FileText(a + b);
        a[0] + "\n" + FileText(a[1..] + b);
        a[0] + "\n" + (FileText(a[1..]) + FileText(b));
        (a[0] + "\n" + FileText(a[1..])) + FileText(b);
      }
    }
  }

  /** Reading a file back line by line gives exactly the entries written, provided
      none of them contains a line end. */
  lemma {:induction false} ReadBack(entries: seq<string>, brk: char -> bool)
    requires brk('\n')
    requires forall e :: e in entries ==> BreakFree(e, brk)
    ensures SplitOn(FileText(entries), brk) == entries
    decreases |entries|
  {
    if entries != [] {
      var e := entries[0];
      assert e in entries;
      assert FileText(entries) == e + ['\n'] + FileText(entries[1..]);
      SplitOnLine(e, '\n', FileText(entries[1..]), brk);
      assert forall x :: x in entries[1..] ==> x in entries;
      ReadBack(entries[1..], brk);
    }
  }

  /** Regrouping a concatenation of three lists; stated once so that the proofs
      appending batches to files can cite it. */
  lemma AppendAssoc(a: seq<string>, b: seq<string>, c: seq<string>)
    ensures a + b + c == a + (b + c)
  {
  }

  /** The stripped, non-blank lines as a set: `line.strip()` of every line that
      is not blank. */
  function Unique(lines: seq<string>): set<string> {
    set l | l in lines && Strip(l) != [] :: Strip(l)
  }

  /** The stripped, non-blank lines, in order: `[l.strip() for l in lines if l.strip()]`. */
  function StrippedNonBlank(lines: seq<string>): seq<string>
    decreases |lines|
  {
    if lines == [] then []
    else
      var t := Strip(lines[0]);
      (if t == [] then [] else [t]) + StrippedNonBlank(lines[1..])
  }

  /** Every non-blank line is kept, stripped. */
  lemma {:induction false} StrippedNonBlankHas(lines: seq<string>, l: string)
    requires l in lines && Strip(l) != []
    ensures Strip(l) in StrippedNonBlank(lines)
    decreases |lines|
  {
    if l != lines[0] {
      var k :| 0 <= k < |lines| && lines[k] == l;
      assert lines[1..][k - 1] == l;
      StrippedNonBlankHas(lines[1..], l);
    }
  }

  /** Every entry is some non-blank line stripped, so it is non-blank and already
      stripped itself. */
  lemma {:induction false} StrippedNonBlankFrom(lines: seq<string>, x: string)
    requires x in StrippedNonBlank(lines)
    ensures x != [] && Strip(x) == x
    ensures exists l :: l in lines && Strip(l) != [] && Strip(l) == x
    decreases |lines|
  {
    var t := Strip(lines[0]);
    if t != [] && x == t {
      StripIdempotent(lines[0]);
      assert lines[0] in lines;
    } else {
      StrippedNonBlankFrom(lines[1..], x);
      var l :| l in lines[1..] && Strip(l) != [] && Strip(l) == x;
      assert l in lines;
    }
  }

  /** The result holds every non-blank line stripped and nothing else. */
  lemma StrippedNonBlankMembers(lines: seq<string>)
    ensures forall x :: x in StrippedNonBlank(lines) ==> x != [] && Strip(x) == x
    ensures forall x :: x in StrippedNonBlank(lines) <==> exists l :: l in lines && Strip(l) != [] && Strip(l) == x
  {
  }

  /** Entries that are already stripped and non-blank pass through unchanged. */
  lemma {:induction false} StrippedNonBlankUnchanged(xs: seq<string>)
    requires forall x :: x in xs ==> x != [] && Strip(x) == x
    ensures StrippedNonBlank(xs) == xs
    decreases |xs|
  {
    if xs != [] {
      assert xs[0] in xs;
      assert forall x :: x in xs[1..] ==> x in xs;
      StrippedNonBlankUnchanged(xs[1..]);
      assert [xs[0]] + xs[1..] == xs;
    }
  }

  /* ---------------------------------------------------------- split('.') */

  /** Index of the first `sep` at or after `i` (|s| if none). */
  function IndexOf(s: string, sep: char, i: nat): (j: nat)
    requires i <= |s|
    ensures i <= j <= |s|
    ensures forall k :: i <= k < j ==> s[k] != sep
    ensures j < |s| ==> s[j] == sep
    decreases |s| - i
  {
    if i < |s| && s[i] != sep then IndexOf(s, sep, i + 1) else i
  }

  /** Python's `s.split(sep)` for a one-character separator: always at least one
      piece, empty pieces kept. */
  function SplitSep(s: string, sep: char): (parts: seq<string>)
    ensures |parts| >= 1
    ensures forall p :: p in parts ==> sep !in p
    decreases |s|
  {
    var j := IndexOf(s, sep, 0);
    if j == |s| then [s] else [s[..j]] + SplitSep(s[j + 1..], sep)
  }

  /** Python's `sep.join(parts)`. */
  function JoinSep(parts: seq<string>, sep: char): string
    decreases |parts|
  {
    if parts == [] then []
    else if |parts| == 1 then parts[0]
    else parts[0] + [sep] + JoinSep(parts[1..], sep)
  }

  /** Joining the pieces of a split gives back the string. */
  lemma {:induction false} JoinSplit(s: string, sep: char)
    ensures JoinSep(SplitSep(s, sep), sep) == s
    decreases |s|
  {
    var j := IndexOf(s, sep, 0);
    if j < |s| {
      JoinSplit(s[j + 1..], sep);
      assert s == s[..j] + [sep] + s[j + 1..];
    }
  }

  /** Splitting a join of separator-free pieces gives back the pieces. */
  lemma {:induction false} SplitJoin(parts: seq<string>, sep: char)
    requires |parts| >= 1
    requires forall p :: p in parts ==> sep !in p
    ensures SplitSep(JoinSep(parts, sep), sep) == parts
    decreases |parts|
  {
    var s := JoinSep(parts, sep);
    var p := parts[0];
    var j := IndexOf(s, sep, 0);
    if |parts| == 1 {
      assert s == p && p in parts;
      assert j == |s|;
    } else {
      assert s == p + [sep] + JoinSep(parts[1..], sep);
      assert p in parts;
      assert forall k :: 0 <= k < |p| ==> s[k] == p[k] && s[k] != sep;
      assert s[|p|] == sep;
      assert j == |p|;
      assert s[..j] == p;
      assert s[j + 1..] == JoinSep(parts[1..], sep);
      assert forall q :: q in parts[1..] ==> q in parts;
      SplitJoin(parts[1..], sep);
    }
  }
}
