// Character and string helpers of the command-line record store: the
// C-locale character classes, whitespace trimming and upper-casing of
// NUL-terminated buffers in place, case-insensitive comparison, and the
// splitting of a line into the runs between separator characters.

module Text {

  import opened Wrappers

  const Nul: char := '\0'

  /** `isspace` in the C locale: space, tab, newline, vertical tab, form feed, carriage return. */
  predicate IsSpace(c: char)
  {
    c == ' ' || c == '\t' || c == '\n' || c == '\U{000B}' || c == '\U{000C}' || c == '\r'
  }

  /** `toupper` in the C locale: only the letters a..z change. */
  function ToUpper(c: char): (u: char)
    ensures 'a' <= c <= 'z' ==> u as int == c as int - 32 && 'A' <= u <= 'Z'
    ensures !('a' <= c <= 'z') ==> u == c
    ensures u == Nul <==> c == Nul
  {
    if 'a' <= c <= 'z' then (c as int - 32) as char else c
  }

  /** A string with every character replaced by its upper-case form. */
  function Upper(s: string): (r: string)
    ensures |r| == |s|
    ensures forall i :: 0 <= i < |s| ==> r[i] == ToUpper(s[i])
  {
    seq(|s|, i requires 0 <= i < |s| => ToUpper(s[i]))
  }

  predicate AllSpace(s: string)
  {
    forall i :: 0 <= i < |s| ==> IsSpace(s[i])
  }

  // ---------------------------------------------------------------------
  // Trimming, as a function on strings

  /** The number of whitespace characters at the front of `s`. */
  function LeadingSpaces(s: string): (n: nat)
    ensures n <= |s|
    ensures AllSpace(s[..n])
    ensures n < |s| ==> !IsSpace(s[n])
    decreases |s|
  {
    if |s| > 0 && IsSpace(s[0]) then
      var m := LeadingSpaces(s[1..]);
      assert forall k :: 1 <= k < m + 1 ==> s[k] == s[1..][k - 1];
      m + 1
    else 0
  }

  /**
   * The end of `s` with its trailing whitespace removed, not moving below
   * `lo` (the point where the leading whitespace ended).
   */
  function TrimmedEnd(s: string, lo: nat): (e: nat)
    requires lo <= |s|
    ensures lo <= e <= |s|
    ensures AllSpace(s[e..])
    ensures e > lo ==> !IsSpace(s[e - 1])
    decreases |s|
  {
    if |s| > lo && IsSpace(s[|s| - 1]) then
      var e := TrimmedEnd(s[..|s| - 1], lo);
      assert forall k :: e <= k < |s| - 1 ==> s[k] == s[..|s| - 1][k];
      e
    else |s|
  }

  /** `s` without its leading and trailing whitespace. */
  function Trimmed(s: string): (r: string)
    ensures |r| <= |s|
  {
    var b := LeadingSpaces(s);
    s[b..TrimmedEnd(s, b)]
  }

  /**
   * Trimming removes exactly a whitespace prefix and a whitespace suffix:
   * what is left sits between them unchanged, and it neither starts nor
   * ends with whitespace.
   */
  lemma TrimmedShape(s: string)
    ensures var r := Trimmed(s);
      && (|r| > 0 ==> !IsSpace(r[0]) && !IsSpace(r[|r| - 1]))
      && exists i :: 0 <= i <= |s| - |r| && AllSpace(s[..i]) && s[i..i + |r|] == r && AllSpace(s[i + |r|..])
  {
    var b := LeadingSpaces(s);
    var e := TrimmedEnd(s, b);
    assert s[b..b + |Trimmed(s)|] == Trimmed(s);
  }

  /**
   * Any split of `s` into a whitespace prefix, a middle that neither starts
   * nor ends with whitespace, and a whitespace suffix has Trimmed(s) as its
   * middle.
   */
  lemma {:induction false} TrimmedUnique(s: string, i: nat, j: nat)
    requires i <= j <= |s|
    requires AllSpace(s[..i]) && AllSpace(s[j..])
    requires i < j ==> !IsSpace(s[i]) && !IsSpace(s[j - 1])
    ensures Trimmed(s) == s[i..j]
  {
    var b := LeadingSpaces(s);
    var e := TrimmedEnd(s, b);
  }

  /** Trimming twice is trimming once. */
  lemma TrimmedIdempotent(s: string)
    ensures Trimmed(Trimmed(s)) == Trimmed(s)
  {
    var r := Trimmed(s);
    TrimmedShape(s);
    TrimmedUnique(r, 0, |r|);
    assert r[0..|r|] == r;
  }

  /** Empty or all-whitespace text trims to the empty string, and only such text does. */
  lemma TrimmedEmpty(s: string)
    ensures Trimmed(s) == [] <==> AllSpace(s)
  {
    if AllSpace(s) {
      TrimmedUnique(s, 0, 0);
    } else {
      var k :| 0 <= k < |s| && !IsSpace(s[k]);
      var b := LeadingSpaces(s);
    }
  }

  /** Trimming never changes text that has no whitespace at either end. */
  lemma TrimmedClean(s: string)
    requires |s| > 0 ==> !IsSpace(s[0]) && !IsSpace(s[|s| - 1])
    ensures Trimmed(s) == s
  {
    TrimmedUnique(s, 0, |s|);
  }

  // ---------------------------------------------------------------------
  // NUL-terminated buffers

  /** `a` holds a NUL-terminated string starting at position `at`. */
  predicate IsCString(a: seq<char>, at: nat)
  {
    exists k :: at <= k < |a| && a[k] == Nul
  }

  /** `strlen` of the string that starts at `at`. */
  function StrLen(a: seq<char>, at: nat): (n: nat)
    requires IsCString(a, at)
    ensures at + n < |a| && a[at + n] == Nul
    ensures forall k :: at <= k < at + n ==> a[k] != Nul
    decreases |a| - at
  {
    if a[at] == Nul then 0
    else
      var k :| at <= k < |a| && a[k] == Nul;
      assert IsCString(a, at + 1) by { assert at + 1 <= k; }
      1 + StrLen(a, at + 1)
  }

  /** The characters of the string that starts at `at`, without its terminator. */
  function CStr(a: seq<char>, at: nat): (s: string)
    requires IsCString(a, at)
    ensures Nul !in s
  {
    a[at..at + StrLen(a, at)]
  }

  /** A buffer whose string at `at` is `s` followed by its terminator. */
  lemma CStrIs(a: seq<char>, at: nat, s: string)
    requires at + |s| < |a| && a[at..at + |s|] == s && a[at + |s|] == Nul && Nul !in s
    ensures IsCString(a, at) && CStr(a, at) == s
  {
    assert forall k :: at <= k < at + |s| ==> a[k] == s[k - at];
    var n := StrLen(a, at);
  }

  /** The first loop of `cms_trim`: the position after the leading whitespace. */
  method SkipSpaces(buf: array<char>, at: nat) returns (start: nat)
    requires IsCString(buf[..], at)
    ensures start == at + LeadingSpaces(CStr(buf[..], at))
  {
    ghost var s := CStr(buf[..], at);
    ghost var n := |s|;
    start := at;
    while buf[start] != Nul && IsSpace(buf[start])
      invariant at <= start <= at + n
      invariant forall k :: at <= k < start ==> IsSpace(buf[k])
      decreases at + n - start
    {
      start := start + 1;
    }
    assert start - at == LeadingSpaces(s) by {
      var m := LeadingSpaces(s);
    }
  }

  /**
   * The next two loops of `cms_trim`: `strlen` from `start`, then back over
   * the trailing whitespace, never below `start`.
   */
  method TrimEndIndex(buf: array<char>, at: nat, start: nat) returns (end: nat)
    requires IsCString(buf[..], at)
    requires start == at + LeadingSpaces(CStr(buf[..], at))
    ensures end == at + TrimmedEnd(CStr(buf[..], at), start - at)
  {
    ghost var s := CStr(buf[..], at);
    ghost var n := |s|;
    end := start;
    while buf[end] != Nul
      invariant start <= end <= at + n
      decreases at + n - end
    {
      end := end + 1;
    }
    while end > start && IsSpace(buf[end - 1])
      invariant start <= end <= at + n
      invariant forall k :: end <= k < at + n ==> IsSpace(buf[k])
    {
      end := end - 1;
    }
    assert end - at == TrimmedEnd(s, start - at) by {
      var e := TrimmedEnd(s, start - at);
    }
  }

  /** `memmove` of `len` characters from `from` down to `to`, copying front to back. */
  method MoveDown(buf: array<char>, to: nat, from: nat, len: nat)
    requires to <= from && from + len <= buf.Length
    modifies buf
    ensures buf[to..to + len] == old(buf[from..from + len])
    ensures buf[..to] == old(buf[..to])
    ensures buf[to + len..] == old(buf[to + len..])
  {
    var i := 0;
    while i < len
      invariant 0 <= i <= len
      invariant forall k :: to <= k < to + i ==> buf[k] == old(buf[from + (k - to)])
      invariant forall k :: to + i <= k < buf.Length ==> buf[k] == old(buf[k])
      invariant buf[..to] == old(buf[..to])
    {
      buf[to + i] := buf[from + i];
      i := i + 1;
    }
  }

  /**
   * Where the trimmed text sits in the buffer: between the end of the
   * leading whitespace and the end of the text before the trailing
   * whitespace.
   */
  lemma TrimmedInBuffer(a: seq<char>, at: nat, start: nat, end: nat)
    requires IsCString(a, at)
    requires start == at + LeadingSpaces(CStr(a, at))
    requires end == at + TrimmedEnd(CStr(a, at), start - at)
    ensures start <= end < |a|
    ensures a[start..end] == Trimmed(CStr(a, at))
    ensures Nul !in a[start..end]
  {
    TrimmedSlice(a, at, at + StrLen(a, at), CStr(a, at), start, end);
  }

  /** Trimming a slice of a buffer is a narrower slice of the same buffer. */
  lemma TrimmedSlice(a: seq<char>, i: nat, j: nat, s: string, lo: nat, hi: nat)
    requires i <= j <= |a| && s == a[i..j]
    requires lo == i + LeadingSpaces(s) && hi == i + TrimmedEnd(s, lo - i)
    ensures a[lo..hi] == Trimmed(s)
  {
    SubSlice(a, i, j, s, lo, hi);
  }

  /** A slice of a buffer that lies inside the slice `s` is a slice of `s`. */
  lemma SubSlice(a: seq<char>, i: nat, j: nat, s: string, lo: nat, hi: nat)
    requires i <= lo <= hi <= j <= |a| && s == a[i..j]
    ensures a[lo..hi] == s[lo - i..hi - i]
  {
    forall k | 0 <= k < hi - lo
      ensures a[lo..hi][k] == s[lo - i..hi - i][k]
    {
      assert s[lo - i + k] == a[lo + k];
    }
  }

  /** Writing the terminator right after the trimmed text. */
  lemma NulWritten(a: seq<char>, w: seq<char>, at: nat, start: nat, end: nat, t: string)
    requires at <= start <= end < |a| && a[start..end] == t && w == a[end := Nul]
    ensures w[start..start + (end - start + 1)] == t + [Nul]
    ensures w[..at] == a[..at]
    ensures w[end + 1..] == a[end + 1..]
  {
  }

  /** Writing the terminator and moving the text down leaves it as the string at `at`. */
  lemma TrimmedMoved(w: seq<char>, b: seq<char>, at: nat, start: nat, len: nat, t: string)
    requires at <= start && start + len <= |w| == |b| && len == |t| + 1
    requires w[start..start + len] == t + [Nul] && Nul !in t
    requires b[at..at + len] == w[start..start + len]
    ensures IsCString(b, at) && CStr(b, at) == t
  {
    assert b[at..at + |t|] == (t + [Nul])[..|t|];
    CStrIs(b, at, t);
  }

  /** `cms_trim` on a buffer that is present. */
  method TrimAt(buf: array<char>, at: nat)
    requires IsCString(buf[..], at)
    modifies buf
    ensures IsCString(buf[..], at)
    ensures CStr(buf[..], at) == Trimmed(old(CStr(buf[..], at)))
    ensures buf[..at] == old(buf[..at])
    ensures buf[at + old(StrLen(buf[..], at)) + 1..] == old(buf[at + StrLen(buf[..], at) + 1..])
  {
    ghost var n := StrLen(buf[..], at);
    var start, end := TrimBounds(buf, at);
    KeepBetween(buf, at, start, end, Trimmed(CStr(buf[..], at)), at + n + 1);
  }

  /** The first three loops of `cms_trim`: where the trimmed text sits in the buffer. */
  method TrimBounds(buf: array<char>, at: nat) returns (start: nat, end: nat)
    requires IsCString(buf[..], at)
    ensures at <= start <= end <= at + StrLen(buf[..], at)
    ensures buf[start..end] == Trimmed(CStr(buf[..], at))
  {
    start := SkipSpaces(buf, at);
    end := TrimEndIndex(buf, at, start);
    TrimmedInBuffer(buf[..], at, start, end);
  }

  /**
   * The end of `cms_trim`: a terminator written at `end`, then the text
   * from `start` moved down to `at` when it does not already start there.
   */
  method KeepBetween(buf: array<char>, at: nat, start: nat, end: nat, ghost t: string, ghost keep: nat)
    requires at <= start <= end < keep <= buf.Length && buf[start..end] == t && Nul !in t
    modifies buf
    ensures IsCString(buf[..], at) && CStr(buf[..], at) == t
    ensures buf[..at] == old(buf[..at])
    ensures buf[keep..] == old(buf[keep..])
  {
    ghost var a := buf[..];
    buf[end] := Nul;
    ghost var w := buf[..];
    var len := end - start + 1;
    NulWritten(a, w, at, start, end, t);
    if start != at {
      MoveDown(buf, at, start, len);
      TrimmedMoved(w, buf[..], at, start, len, t);
      SuffixKept(buf[..], w, at + len, keep);
    } else {
      TrimmedMoved(w, w, at, start, len, t);
    }
    SuffixKept(w, a, end + 1, keep);
  }

  /** A buffer tail that is unchanged from `i` on is unchanged from any later `j`. */
  lemma SuffixKept(x: seq<char>, y: seq<char>, i: nat, j: nat)
    requires i <= j <= |x| == |y| && x[i..] == y[i..]
    ensures x[j..] == y[j..]
  {
    assert x[j..] == x[i..][j - i..];
    assert y[j..] == y[i..][j - i..];
  }

  /**
   * `cms_trim`: removes the leading and trailing whitespace of the string
   * at `at` in place, writing a new terminator and moving the remaining
   * characters to the front. The buffer before `at` is not touched, and the
   * same buffer is returned (NULL for NULL).
   */
  method Trim(buf: array?<char>, at: nat) returns (r: array?<char>)
    requires buf != null ==> IsCString(buf[..], at)
    modifies buf
    ensures r == buf
    ensures buf != null ==> IsCString(buf[..], at)
    ensures buf != null ==> CStr(buf[..], at) == Trimmed(old(CStr(buf[..], at)))
    ensures buf != null ==> buf[..at] == old(buf[..at])
    ensures buf != null ==> buf[at + old(StrLen(buf[..], at)) + 1..] == old(buf[at + StrLen(buf[..], at) + 1..])
  {
    if buf != null {
      TrimAt(buf, at);
    }
    r := buf;
  }

  /**
   * `cms_str_to_upper`: replaces every character of the string at the
   * front of the buffer by its upper-case form, in place; the terminator
   * and everything after it stay where they were.
   */
  method ToUpperInPlace(buf: array?<char>)
    requires buf != null ==> IsCString(buf[..], 0)
    modifies buf
    ensures buf != null ==> IsCString(buf[..], 0) && CStr(buf[..], 0) == Upper(old(CStr(buf[..], 0)))
    ensures buf != null ==> forall k :: StrLen(old(buf[..]), 0) <= k < buf.Length ==> buf[k] == old(buf[k])
  {
    if buf == null {
      return;
    }
    ghost var a := buf[..];
    ghost var n := StrLen(a, 0);
    var p := 0;
    while buf[p] != Nul
      invariant 0 <= p <= n
      invariant forall k :: 0 <= k < p ==> buf[k] == ToUpper(a[k])
      invariant forall k :: p <= k < buf.Length ==> buf[k] == a[k]
      decreases n - p
    {
      buf[p] := ToUpper(buf[p]);
      p := p + 1;
    }
    assert buf[0..n] == Upper(CStr(a, 0));
    CStrIs(buf[..], 0, Upper(CStr(a, 0)));
  }

  // ---------------------------------------------------------------------
  // Comparisons that ignore case

  /**
   * `cms_string_equals_ignore_case` on two present strings: the scan stops
   * at the first character pair that differs under `toupper`, or when one
   * string ends, and succeeds only if both end together.
   */
  function EqualsIgnoreCase(a: string, b: string): (r: bool)
    ensures r <==> |a| == |b| && forall i :: 0 <= i < |a| ==> ToUpper(a[i]) == ToUpper(b[i])
  {
    if a == [] || b == [] then a == [] && b == []
    else
      ToUpper(a[0]) == ToUpper(b[0]) && EqualsIgnoreCase(a[1..], b[1..])
  }

  /** The same comparison on possibly NULL strings: NULL equals nothing. */
  function StringEqualsIgnoreCase(a: Option<string>, b: Option<string>): (r: bool)
    ensures r <==> a.Some? && b.Some? && Upper(a.value) == Upper(b.value)
  {
    assert a.Some? && b.Some? && Upper(a.value) == Upper(b.value) ==>
      forall i :: 0 <= i < |a.value| ==> Upper(a.value)[i] == Upper(b.value)[i];
    a.Some? && b.Some? && EqualsIgnoreCase(a.value, b.value)
  }

  /** Case-insensitive equality is reflexive and symmetric on present strings. */
  lemma EqualsIgnoreCaseEquivalence(a: string, b: string)
    ensures StringEqualsIgnoreCase(Some(a), Some(a))
    ensures StringEqualsIgnoreCase(Some(a), Some(b)) == StringEqualsIgnoreCase(Some(b), Some(a))
  {
  }

  // ---------------------------------------------------------------------
  // Splitting into tokens

  /** The length of the run of characters other than `sep` at the front of `s`. */
  function RunLength(s: string, sep: char): (n: nat)
    ensures n <= |s|
    ensures sep !in s[..n]
    ensures n < |s| ==> s[n] == sep
    decreases |s|
  {
    if s == [] || s[0] == sep then 0
    else
      var m := RunLength(s[1..], sep);
      assert s[..m + 1] == [s[0]] + s[1..][..m];
      m + 1
  }

  /** The run length is the only position that fits its description. */
  lemma {:induction false} RunLengthUnique(s: string, sep: char, m: nat)
    requires m <= |s| && sep !in s[..m] && (m < |s| ==> s[m] == sep)
    ensures RunLength(s, sep) == m
  {
    if m > 0 {
      assert s[0] in s[..m];
      assert s[1..][..m - 1] == s[..m][1..];
      RunLengthUnique(s[1..], sep, m - 1);
    }
  }

  /**
   * The maximal runs of characters other than `sep`, in order: the
   * separator runs between them, before the first and after the last are
   * dropped. This is what `strtok` yields with a one-character delimiter
   * set, and what the record-line parser collects between tab runs.
   */
  function Tokens(s: string, sep: char): (ts: seq<string>)
    ensures forall t :: t in ts ==> |t| > 0 && sep !in t
    decreases |s|
  {
    if s == [] then []
    else if s[0] == sep then Tokens(s[1..], sep)
    else
      var n := RunLength(s, sep);
      [s[..n]] + Tokens(s[n..], sep)
  }

  /** Every token is a piece of `s`: it holds no character `s` lacks. */
  lemma {:induction false} TokensInside(s: string, sep: char, t: string)
    requires t in Tokens(s, sep)
    ensures forall c :: c in t ==> c in s
    decreases |s|
  {
    if s != [] {
      if s[0] == sep {
        TokensInside(s[1..], sep, t);
      } else {
        var n := RunLength(s, sep);
        if t != s[..n] {
          TokensInside(s[n..], sep, t);
        }
      }
    }
  }

  /** `fs` joined with one `sep` between consecutive elements. */
  function JoinWith(fs: seq<string>, sep: char): string
  {
    if fs == [] then []
    else if |fs| == 1 then fs[0]
    else fs[0] + [sep] + JoinWith(fs[1..], sep)
  }

  /** Leading separators do not change the tokens. */
  lemma {:induction false} TokensSkipSeparators(s: string, sep: char, k: nat)
    requires k <= |s| && forall i :: 0 <= i < k ==> s[i] == sep
    ensures Tokens(s, sep) == Tokens(s[k..], sep)
  {
    if k > 0 {
      TokensSkipSeparators(s[1..], sep, k - 1);
      assert s[1..][k - 1..] == s[k..];
    }
  }

  /** A non-empty separator-free field at the front is the first token. */
  lemma TokensFront(f: string, rest: string, sep: char)
    requires |f| > 0 && sep !in f
    ensures rest == [] ==> Tokens(f, sep) == [f]
    ensures Tokens(f + [sep] + rest, sep) == [f] + Tokens(rest, sep)
  {
    var s := f + [sep] + rest;
    assert s[..|f|] == f;
    RunLengthUnique(s, sep, |f|);
    assert s[|f|..] == [sep] + rest;
    assert ([sep] + rest)[1..] == rest;
    assert f[..|f|] == f;
    RunLengthUnique(f, sep, |f|);
  }

  /**
   * Joining non-empty, separator-free fields with the separator and
   * splitting the result again gives back the fields.
   */
  lemma {:induction false} TokensOfJoin(fs: seq<string>, sep: char)
    requires forall f :: f in fs ==> |f| > 0 && sep !in f
    ensures Tokens(JoinWith(fs, sep), sep) == fs
  {
    if fs == [] {
    } else if |fs| == 1 {
      assert fs[0] in fs;
      TokensFront(fs[0], [], sep);
      assert fs == [fs[0]];
    } else {
      assert fs[0] in fs;
      assert forall f :: f in fs[1..] ==> f in fs;
      TokensOfJoin(fs[1..], sep);
      TokensOfJoinStep(fs, sep);
    }
  }

  /** One field more in front of a join that splits back. */
  lemma TokensOfJoinStep(fs: seq<string>, sep: char)
    requires |fs| >= 2 && |fs[0]| > 0 && sep !in fs[0]
    requires Tokens(JoinWith(fs[1..], sep), sep) == fs[1..]
    ensures Tokens(JoinWith(fs, sep), sep) == fs
  {
    var rest := JoinWith(fs[1..], sep);
    assert JoinWith(fs, sep) == fs[0] + [sep] + rest;
    TokensFront(fs[0], rest, sep);
    assert fs == [fs[0]] + fs[1..];
  }
}
