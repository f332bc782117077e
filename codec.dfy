// The text file behind the store. Saving writes a table-name line, a
// column header and one tab-separated line per record; opening reads the
// lines back, skipping blank lines and everything up to the first line
// that names the "ID" and "Mark" columns, and parses every later line
// strictly into a record. A file is modelled as the sequence of its lines.

module Codec {

  import opened Status
  import opened Text
  import opened Numbers
  import opened Records

  const Tab: char := '\t'
  const TableLine: string := "Table Name: StudentRecords"
  const HeaderLine: string := "ID\tName\tProgramme\tMark"

  // ---------------------------------------------------------------------
  // One record line

  /**
   * The checks on the four trimmed fields of a line, in the order the
   * parser makes them: none may be empty; the id must be a decimal
   * `long` greater than zero that fills its field; the mark must be a
   * number that fills its field; name and programme must fit their
   * columns; the record built from them (the id narrowed to `int`) must
   * pass the validator, whose status is passed on.
   */
  function ParseFields(f: seq<string>): (r: Result<Record>)
    requires |f| == 4
    ensures r.Success? ==> IsValid(r.value)
    ensures r.Success? ==> r.value.name == f[1] && r.value.programme == f[2]
    ensures r.Failure? ==> r.status == ParseError || r.status == InvalidArgument
  {
    if f[0] == [] || f[1] == [] || f[2] == [] || f[3] == [] then Failure(ParseError)
    else
      var id := StrToL(f[0]);
      if id.rangeError || id.end == 0 || id.end != |f[0]| || id.value <= 0 then Failure(ParseError)
      else
        var mark := StrToF(f[3]);
        if mark.rangeError || mark.end == 0 || mark.end != |f[3]| then Failure(ParseError)
        else if |f[1]| > MaxNameLen || |f[2]| > MaxProgrammeLen then Failure(ParseError)
        else
          var rec := Record(ToInt32(id.value), f[1], f[2], mark.value);
          var v := ValidateRecord(rec);
          if v == Ok then Success(rec) else Failure(v)
  }

  /**
   * A record line: exactly four fields between tab runs (tabs before the
   * first and after the last field are allowed), each trimmed, then
   * checked by ParseFields.
   */
  function ParseLine(line: string): Result<Record>
  {
    var ts := Tokens(line, Tab);
    if |ts| != 4 then Failure(ParseError)
    else ParseFields([Trimmed(ts[0]), Trimmed(ts[1]), Trimmed(ts[2]), Trimmed(ts[3])])
  }

  /** The line `fprintf` writes for a record: id, name, programme and mark to two decimals. */
  function FormatLine(r: Record): string
  {
    FormatInt(r.id) + [Tab] + r.name + [Tab] + r.programme + [Tab] + FormatFixed2(r.mark)
  }

  // ---------------------------------------------------------------------
  // The line parser, on its own copy of the line

  /** The buffer holds the string `t` at `f`, with its terminator. */
  ghost predicate FieldAt(b: seq<char>, f: nat, t: string)
  {
    f + |t| < |b| && b[f..f + |t|] == t && b[f + |t|] == Nul
  }

  /** A line copied into a buffer: from `from` on the buffer still holds the line. */
  ghost predicate CopyFrom(buf: seq<char>, line: string, from: nat)
  {
    && |buf| == |line| + 1 && buf[|line|] == Nul && Nul !in line && from <= |line|
    && forall k :: from <= k < |line| ==> buf[k] == line[k]
  }

  /** Steps over a run of tabs. */
  method SkipTabs(buf: array<char>, from: nat, ghost line: string) returns (c: nat)
    requires CopyFrom(buf[..], line, from)
    ensures from <= c <= |line|
    ensures forall k :: from <= k < c ==> line[k] == Tab
    ensures c < |line| ==> line[c] != Tab
  {
    c := from;
    while buf[c] == Tab
      invariant from <= c <= |line|
      invariant forall k :: from <= k < c ==> line[k] == Tab
      decreases |line| - c
    {
      c := c + 1;
    }
  }

  /** Steps to the end of a field: the next tab or the terminator. */
  method FieldEnd(buf: array<char>, from: nat, ghost line: string) returns (c: nat)
    requires CopyFrom(buf[..], line, from)
    ensures from <= c <= |line|
    ensures c - from == RunLength(line[from..], Tab)
  {
    c := from;
    while buf[c] != Nul && buf[c] != Tab
      invariant from <= c <= |line|
      invariant forall k :: from <= k < c ==> line[k] != Tab
      decreases |line| - c
    {
      c := c + 1;
    }
    assert line[from..][..c - from] == line[from..c];
    RunLengthUnique(line[from..], Tab, c - from);
  }

  /** The field that starts at `start` is the next token. */
  lemma TokensAtField(line: string, start: nat, end: nat)
    requires start < |line| && line[start] != Tab
    requires start <= end <= |line| && end - start == RunLength(line[start..], Tab)
    ensures end > start
    ensures Tokens(line[start..], Tab) == [line[start..end]] + Tokens(line[end..], Tab)
  {
    var s := line[start..];
    assert s[..end - start] == line[start..end];
    assert s[end - start..] == line[end..];
  }

  /** A run of tabs does not change the tokens that follow it. */
  lemma TokensAfterTabs(line: string, from: nat, c: nat)
    requires from <= c <= |line| && forall k :: from <= k < c ==> line[k] == Tab
    ensures Tokens(line[from..], Tab) == Tokens(line[c..], Tab)
  {
    var s := line[from..];
    forall i | 0 <= i < c - from
      ensures s[i] == Tab
    {
      assert s[i] == line[from + i];
    }
    TokensSkipSeparators(s, Tab, c - from);
    assert s[c - from..] == line[c..];
  }

  /**
   * The fields found so far, before `cursor`: the j-th is the j-th token,
   * terminated in place, and each ends before the next begins.
   */
  ghost predicate FieldsFound(b: seq<char>, ts: seq<string>, fields: seq<nat>, cursor: nat)
  {
    && |fields| <= |ts|
    && (forall j :: 0 <= j < |fields| ==> FieldAt(b, fields[j], ts[j]) && fields[j] + |ts[j]| <= cursor)
    && (forall j, k :: 0 <= j < k < |fields| ==> fields[j] + |ts[j]| < fields[k])
  }

  /** Terminating the buffer at or after the cursor, where no terminator was, keeps the fields found. */
  lemma FieldsKept(b: seq<char>, w: seq<char>, p: nat, ts: seq<string>, fields: seq<nat>, cursor: nat)
    requires cursor <= p < |b| && b[p] != Nul && w == b[p := Nul]
    requires FieldsFound(b, ts, fields, cursor)
    ensures FieldsFound(w, ts, fields, cursor)
  {
    forall j | 0 <= j < |fields|
      ensures FieldAt(w, fields[j], ts[j])
    {
      var f, t := fields[j], ts[j];
      assert w[f..f + |t|] == b[f..f + |t|];
    }
  }

  /** A new field at `start`, where the buffer is not yet terminated, joins the fields found. */
  lemma FieldsAppended(b: seq<char>, ts: seq<string>, fields: seq<nat>, start: nat, cursor: nat)
    requires FieldsFound(b, ts, fields, start) && start < |b| && b[start] != Nul
    requires |fields| < |ts| && FieldAt(b, start, ts[|fields|]) && start + |ts[|fields|]| <= cursor
    ensures FieldsFound(b, ts, fields + [start], cursor)
  {
    var fs := fields + [start];
    forall j, k | 0 <= j < k < |fs|
      ensures fs[j] + |ts[j]| < fs[k]
    {
      if k == |fields| {
        assert fs[j] + |ts[j]| != start;
      }
    }
  }

  /** The next token of a sequence of tokens, split off. */
  lemma NextToken(ts: seq<string>, n: nat, x: string, rest: seq<string>)
    requires n <= |ts| && ts[n..] == [x] + rest
    ensures n < |ts| && ts[n] == x && ts[n + 1..] == rest
  {
    assert ts[n..][0] == x;
    assert ts[n..][1..] == rest;
  }

  /** The field just ended at `end` is in the buffer, terminated. */
  lemma NewField(b: seq<char>, line: string, start: nat, end: nat)
    requires start <= end < |b| && b[end] == Nul && end <= |line|
    requires forall k :: start <= k < end ==> b[k] == line[k]
    ensures FieldAt(b, start, line[start..end])
  {
    assert b[start..end] == line[start..end];
  }

  /** The string at `f` is the one the buffer holds there. */
  lemma FieldIsCStr(b: seq<char>, f: nat, t: string)
    requires FieldAt(b, f, t) && Nul !in t
    ensures IsCString(b, f) && CStr(b, f) == t && StrLen(b, f) == |t|
  {
    CStrIs(b, f, t);
  }

  /** Changing the buffer only before `lo` or only from `hi` on keeps a field that lies elsewhere. */
  lemma FieldFramed(b: seq<char>, w: seq<char>, f: nat, t: string, lo: nat, hi: nat)
    requires FieldAt(b, f, t) && |w| == |b| && lo <= hi <= |b|
    requires w[..lo] == b[..lo] && w[hi..] == b[hi..]
    requires f + |t| < lo || hi <= f
    ensures FieldAt(w, f, t)
  {
    if hi <= f {
      assert forall k :: f <= k <= f + |t| ==> w[k] == w[hi..][k - hi] == b[hi..][k - hi] == b[k];
    } else {
      assert forall k :: f <= k <= f + |t| ==> w[k] == w[..lo][k] == b[..lo][k] == b[k];
    }
    assert w[f..f + |t|] == b[f..f + |t|];
  }

  /**
   * What the splitting loop knows at a field boundary `cursor`: the line
   * from there on is still in the buffer, the fields found so far are the
   * first of the tokens `ts`, and the rest of the line holds the others.
   */
  ghost predicate Scanned(b: seq<char>, line: string, ts: seq<string>, fields: seq<nat>, cursor: nat)
  {
    && CopyFrom(b, line, cursor)
    && (cursor < |line| ==> line[cursor] != Tab)
    && FieldsFound(b, ts, fields, cursor)
    && Tokens(line[cursor..], Tab) == ts[|fields|..]
  }

  /** Terminating the line's copy at a tab keeps the copy after it. */
  lemma CopyAfterWrite(b: seq<char>, line: string, from: nat, p: nat)
    requires CopyFrom(b, line, from) && from <= p < |line|
    ensures CopyFrom(b[p := Nul], line, p + 1)
  {
  }

  /** The field from `start` ends at a tab, which becomes its terminator; the tab run after it is skipped. */
  lemma ScannedTab(b: seq<char>, line: string, ts: seq<string>, fields: seq<nat>, start: nat, end: nat, next: nat)
    requires Scanned(b, line, ts, fields, start) && start < |line|
    requires start <= end < |line| && end - start == RunLength(line[start..], Tab) && line[end] == Tab
    requires end < next <= |line| && (forall k :: end <= k < next ==> line[k] == Tab)
    requires next < |line| ==> line[next] != Tab
    ensures Scanned(b[end := Nul], line, ts, fields + [start], next)
  {
    var w := b[end := Nul];
    TokensAtField(line, start, end);
    TokensAfterTabs(line, end, next);
    NextToken(ts, |fields|, line[start..end], Tokens(line[next..], Tab));
    FieldsKept(b, w, end, ts, fields, start);
    NewField(w, line, start, end);
    FieldsAppended(w, ts, fields, start, next);
  }

  /** The field from `start` runs to the end of the line. */
  lemma ScannedEnd(b: seq<char>, line: string, ts: seq<string>, fields: seq<nat>, start: nat, end: nat)
    requires Scanned(b, line, ts, fields, start) && start < |line|
    requires start <= end == |line| && end - start == RunLength(line[start..], Tab)
    ensures Scanned(b, line, ts, fields + [start], end)
  {
    TokensAtField(line, start, end);
    NextToken(ts, |fields|, line[start..end], Tokens(line[end..], Tab));
    NewField(b, line, start, end);
    FieldsAppended(b, ts, fields, start, end);
  }

  /**
   * The splitting loop of the parser: skips leading tabs, then collects
   * up to four field starts, terminating each field where its tab run
   * begins. On return the fields found are the first tokens of the line,
   * and the line has more tokens exactly when the cursor is not at the
   * terminator.
   */
  method SplitFields(buf: array<char>, ghost line: string) returns (fields: seq<nat>, cursor: nat)
    requires CopyFrom(buf[..], line, 0)
    modifies buf
    ensures |fields| <= 4
    ensures Scanned(buf[..], line, Tokens(line, Tab), fields, cursor)
    ensures |Tokens(line, Tab)| == |fields| <==> buf[cursor] == Nul
    ensures |fields| == 4 || buf[cursor] == Nul
  {
    ghost var ts := Tokens(line, Tab);
    fields := [];
    cursor := SkipTabs(buf, 0, line);
    TokensAfterTabs(line, 0, cursor);
    assert line[0..] == line;
    while buf[cursor] != Nul && |fields| < 4
      invariant |fields| <= 4
      invariant Scanned(buf[..], line, ts, fields, cursor)
      decreases |line| - cursor
    {
      var start := cursor;
      cursor := TakeField(buf, line, ts, fields, start);
      fields := fields + [start];
    }
    ScannedRest(buf[..], line, ts, fields, cursor);
  }

  /**
   * One pass of the splitting loop: the field at `start` runs to the next
   * tab or the terminator; a tab is overwritten with a terminator and the
   * tabs after it are skipped.
   */
  method TakeField(buf: array<char>, ghost line: string, ghost ts: seq<string>, ghost fields: seq<nat>, start: nat)
    returns (cursor: nat)
    requires Scanned(buf[..], line, ts, fields, start) && buf[start] != Nul
    modifies buf
    ensures start < cursor <= |line|
    ensures Scanned(buf[..], line, ts, fields + [start], cursor)
  {
    cursor := FieldEnd(buf, start, line);
    if buf[cursor] == Tab {
      ghost var b := buf[..];
      buf[cursor] := Nul;
      assert buf[..] == b[cursor := Nul];
      CopyAfterWrite(b, line, start, cursor);
      var next := SkipTabs(buf, cursor + 1, line);
      ScannedTab(b, line, ts, fields, start, cursor, next);
      cursor := next;
    } else {
      ScannedEnd(buf[..], line, ts, fields, start, cursor);
    }
  }

  /** At the terminator no tokens are left; anywhere else at least one is. */
  lemma ScannedRest(b: seq<char>, line: string, ts: seq<string>, fields: seq<nat>, cursor: nat)
    requires Scanned(b, line, ts, fields, cursor)
    ensures |ts| == |fields| <==> b[cursor] == Nul
  {
    if cursor < |line| {
      assert Tokens(line[cursor..], Tab) != [];
    }
  }

  /**
   * What the trimming loop knows before field `i`: the fields before it
   * are trimmed and not empty, the others are still the tokens.
   */
  ghost predicate TrimmedUpTo(b: seq<char>, fields: seq<nat>, ts: seq<string>, i: nat)
    requires |fields| == 4 && |ts| == 4
  {
    && (forall j :: 0 <= j < i && j < 4 ==> FieldAt(b, fields[j], Trimmed(ts[j])) && Trimmed(ts[j]) != [])
    && (forall j :: i <= j < 4 ==> FieldAt(b, fields[j], ts[j]))
  }

  /** Trimming field `i` in place keeps the other fields where they are. */
  lemma TrimmedStep(b: seq<char>, w: seq<char>, fields: seq<nat>, ts: seq<string>, i: nat)
    requires |fields| == 4 && |ts| == 4 && i < 4
    requires forall j, k :: 0 <= j < k < 4 ==> fields[j] + |ts[j]| < fields[k]
    requires TrimmedUpTo(b, fields, ts, i)
    requires |w| == |b| && w[..fields[i]] == b[..fields[i]]
    requires fields[i] + |ts[i]| + 1 <= |b| && w[fields[i] + |ts[i]| + 1..] == b[fields[i] + |ts[i]| + 1..]
    requires IsCString(w, fields[i]) && CStr(w, fields[i]) == Trimmed(ts[i])
    ensures FieldAt(w, fields[i], Trimmed(ts[i]))
    ensures Trimmed(ts[i]) != [] ==> TrimmedUpTo(w, fields, ts, i + 1)
  {
    var lo, hi := fields[i], fields[i] + |ts[i]| + 1;
    forall j | 0 <= j < 4 && j != i
      ensures FieldAt(w, fields[j], if j < i then Trimmed(ts[j]) else ts[j])
    {
      FieldFramed(b, w, fields[j], if j < i then Trimmed(ts[j]) else ts[j], lo, hi);
    }
    NewField(w, w, fields[i], fields[i] + |Trimmed(ts[i])|);
  }

  /**
   * `cms_trim` on each of the four fields in turn, stopping at the first
   * one that trims to nothing.
   */
  method TrimFields(buf: array<char>, fields: seq<nat>, ghost ts: seq<string>) returns (ok: bool)
    requires |fields| == 4 && |ts| == 4 && forall t :: t in ts ==> Nul !in t
    requires forall j, k :: 0 <= j < k < 4 ==> fields[j] + |ts[j]| < fields[k]
    requires TrimmedUpTo(buf[..], fields, ts, 0)
    modifies buf
    ensures ok <==> forall j :: 0 <= j < 4 ==> Trimmed(ts[j]) != []
    ensures ok ==> TrimmedUpTo(buf[..], fields, ts, 4)
  {
    var i := 0;
    while i < 4
      invariant i <= 4
      invariant TrimmedUpTo(buf[..], fields, ts, i)
    {
      assert ts[i] in ts;
      FieldIsCStr(buf[..], fields[i], ts[i]);
      ghost var b := buf[..];
      TrimAt(buf, fields[i]);
      TrimmedStep(b, buf[..], fields, ts, i);
      if buf[fields[i]] == Nul {
        return false;
      }
      i := i + 1;
    }
    return true;
  }

  /**
   * The checks and conversions on the four trimmed, non-empty fields, as
   * the parser makes them.
   */
  method ConvertFields(idText: string, name: string, programme: string, markText: string)
    returns (r: Result<Record>)
    requires idText != [] && name != [] && programme != [] && markText != []
    ensures r == ParseFields([idText, name, programme, markText])
  {
    var id := StrToL(idText);
    if id.rangeError || id.end == 0 || id.end != |idText| || id.value <= 0 {
      return Failure(ParseError);
    }
    var mark := StrToF(markText);
    if mark.rangeError || mark.end == 0 || mark.end != |markText| {
      return Failure(ParseError);
    }
    if |name| > MaxNameLen || |programme| > MaxProgrammeLen {
      return Failure(ParseError);
    }
    var rec := Record(ToInt32(id.value), name, programme, mark.value);
    var status := ValidateRecord(rec);
    if status != Ok {
      return Failure(status);
    }
    return Success(rec);
  }

  /** The tokens of a line without a NUL hold no NUL. */
  lemma TokensNulFree(line: string)
    requires Nul !in line
    ensures forall t :: t in Tokens(line, Tab) ==> Nul !in t
  {
    forall t | t in Tokens(line, Tab)
      ensures Nul !in t
    {
      TokensInside(line, Tab, t);
    }
  }

  /** All four fields found are where the trimming loop starts from. */
  lemma FoundUntrimmed(b: seq<char>, ts: seq<string>, fields: seq<nat>, cursor: nat)
    requires |fields| == 4 && |ts| == 4 && FieldsFound(b, ts, fields, cursor)
    ensures TrimmedUpTo(b, fields, ts, 0)
    ensures forall j, k :: 0 <= j < k < 4 ==> fields[j] + |ts[j]| < fields[k]
  {
  }

  /** After trimming, each field reads as its trimmed token. */
  lemma FieldsTrimmed(b: seq<char>, fields: seq<nat>, ts: seq<string>)
    requires |fields| == 4 && |ts| == 4 && forall t :: t in ts ==> Nul !in t
    requires TrimmedUpTo(b, fields, ts, 4)
    ensures forall j :: 0 <= j < 4 ==> IsCString(b, fields[j]) && CStr(b, fields[j]) == Trimmed(ts[j]) != []
  {
    forall j | 0 <= j < 4
      ensures IsCString(b, fields[j]) && CStr(b, fields[j]) == Trimmed(ts[j])
    {
      assert ts[j] in ts;
      FieldIsCStr(b, fields[j], Trimmed(ts[j]));
    }
  }

  /** A line without exactly four tokens is a parse error. */
  lemma ParseLineWrongCount(line: string)
    requires |Tokens(line, Tab)| != 4
    ensures ParseLine(line) == Failure(ParseError)
  {
  }

  /** A field that trims to nothing is a parse error. */
  lemma ParseFieldsEmpty(f: seq<string>)
    requires |f| == 4 && (f[0] == [] || f[1] == [] || f[2] == [] || f[3] == [])
    ensures ParseFields(f) == Failure(ParseError)
  {
  }

  /** ParseLine, once the line is known to have four tokens. */
  lemma ParseLineOfFour(line: string)
    requires |Tokens(line, Tab)| == 4
    ensures var ts := Tokens(line, Tab);
      ParseLine(line) == ParseFields([Trimmed(ts[0]), Trimmed(ts[1]), Trimmed(ts[2]), Trimmed(ts[3])])
  {
  }

  /**
   * The line parser itself: the line is copied into a buffer, split into
   * fields in place, each field trimmed in place, and the fields checked
   * and converted. It decides exactly as ParseLine.
   */
  method ParseRecordLine(line: string) returns (r: Result<Record>)
    requires Nul !in line
    ensures r == ParseLine(line)
  {
    ghost var ts := Tokens(line, Tab);
    var buf := new char[|line| + 1](k => if 0 <= k < |line| then line[k] else Nul);
    assert CopyFrom(buf[..], line, 0);
    var fields, cursor := SplitFields(buf, line);
    if |fields| != 4 || buf[cursor] != Nul {
      ParseLineWrongCount(line);
      return Failure(ParseError);
    }
    ParseLineOfFour(line);
    TokensNulFree(line);
    FoundUntrimmed(buf[..], ts, fields, cursor);
    r := ParseFourFields(buf, fields, ts);
  }

  /** The four fields found: each trimmed in place, then checked and converted. */
  method ParseFourFields(buf: array<char>, fields: seq<nat>, ghost ts: seq<string>) returns (r: Result<Record>)
    requires |fields| == 4 && |ts| == 4 && forall t :: t in ts ==> Nul !in t
    requires forall j, k :: 0 <= j < k < 4 ==> fields[j] + |ts[j]| < fields[k]
    requires TrimmedUpTo(buf[..], fields, ts, 0)
    modifies buf
    ensures r == ParseFields([Trimmed(ts[0]), Trimmed(ts[1]), Trimmed(ts[2]), Trimmed(ts[3])])
  {
    var ok := TrimFields(buf, fields, ts);
    if !ok {
      ParseFieldsEmpty([Trimmed(ts[0]), Trimmed(ts[1]), Trimmed(ts[2]), Trimmed(ts[3])]);
      return Failure(ParseError);
    }
    FieldsTrimmed(buf[..], fields, ts);
    r := ConvertFields(CStr(buf[..], fields[0]), CStr(buf[..], fields[1]),
                       CStr(buf[..], fields[2]), CStr(buf[..], fields[3]));
  }

  // ---------------------------------------------------------------------
  // Whole files

  /** The lines of a saved file: the two header lines, then the records in storage order. */
  function SaveLines(rs: seq<Record>): seq<string>
  {
    [TableLine, HeaderLine] + FormatLines(rs)
  }

  /** The record lines, one per record in storage order. */
  function FormatLines(rs: seq<Record>): (ls: seq<string>)
    ensures |ls| == |rs| && forall k :: 0 <= k < |rs| ==> ls[k] == FormatLine(rs[k])
  {
    seq(|rs|, k requires 0 <= k < |rs| => FormatLine(rs[k]))
  }

  /** `sub` occurs in `s` at position `i`. */
  predicate OccursAt(s: string, sub: string, i: nat)
  {
    i + |sub| <= |s| && s[i..i + |sub|] == sub
  }

  /** `strstr(s, sub) != NULL`. */
  predicate Contains(s: string, sub: string)
  {
    exists i: nat :: i <= |s| && OccursAt(s, sub, i)
  }

  /** The loose header test: a line naming both the id and the mark column. */
  predicate IsHeader(t: string)
  {
    Contains(t, "ID") && Contains(t, "Mark")
  }

  /**
   * Reading the remaining lines of a file into the records gathered so
   * far. Each line is trimmed; blank lines are skipped; before the header
   * every line is skipped, the header included; after it every line must
   * parse (any failure is PARSE_ERROR) and be added as a new id (a
   * repeated id is DUPLICATE). A file without a header is a PARSE_ERROR.
   */
  function Scan(lines: seq<string>, headerSeen: bool, rows: seq<Record>): Result<seq<Record>>
    decreases |lines|
  {
    if lines == [] then
      if headerSeen then Success(rows) else Failure(ParseError)
    else
      var t := Trimmed(lines[0]);
      if t == [] then Scan(lines[1..], headerSeen, rows)
      else if !headerSeen then Scan(lines[1..], IsHeader(t), rows)
      else match ParseLine(t)
        case Failure(_) => Failure(ParseError)
        case Success(r) =>
          match Added(rows, r, true)
          case Failure(e) => Failure(e)
          case Success(more) => Scan(lines[1..], true, more)
  }

  /** The records a whole file holds, or the status opening it reports. */
  function LoadLines(lines: seq<string>): Result<seq<Record>>
  {
    Scan(lines, false, [])
  }

  // ---------------------------------------------------------------------
  // What loading promises

  /**
   * Whatever a file holds, a successful load yields valid records with
   * distinct ids, and a failed one reports PARSE_ERROR or DUPLICATE.
   */
  lemma {:induction false} ScanKeepsInvariant(lines: seq<string>, headerSeen: bool, rows: seq<Record>)
    requires StoreInvariant(rows)
    ensures Scan(lines, headerSeen, rows).Success? ==> StoreInvariant(Scan(lines, headerSeen, rows).value)
    ensures Scan(lines, headerSeen, rows).Failure? ==>
      Scan(lines, headerSeen, rows).status in {ParseError, Duplicate}
    decreases |lines|
  {
    if lines != [] {
      var t := Trimmed(lines[0]);
      if t == [] || !headerSeen {
        ScanKeepsInvariant(lines[1..], if t == [] then headerSeen else IsHeader(t), rows);
      } else if ParseLine(t).Success? {
        var r := ParseLine(t).value;
        AddedKeepsInvariant(rows, r, true);
        InsertOutcome(rows, r);
        if Added(rows, r, true).Success? {
          ScanKeepsInvariant(lines[1..], true, Added(rows, r, true).value);
        }
      }
    }
  }

  lemma LoadKeepsInvariant(lines: seq<string>)
    ensures LoadLines(lines).Success? ==> StoreInvariant(LoadLines(lines).value)
    ensures LoadLines(lines).Failure? ==> LoadLines(lines).status in {ParseError, Duplicate}
  {
    ScanKeepsInvariant(lines, false, []);
  }

  // ---------------------------------------------------------------------
  // Saving and loading again

  /**
   * Text that can stand as a field: no tab, no line break and no NUL inside
   * (a line break would split the saved line when it is read back line by
   * line, and a C string ends at its first NUL), and no whitespace at
   * either end.
   */
  predicate Storable(s: string)
  {
    Tab !in s && '\n' !in s && Nul !in s && (|s| > 0 ==> !IsSpace(s[0]) && !IsSpace(s[|s| - 1]))
  }

  /** A record as it reads back: the mark rounded to the two decimals written. */
  function RoundedMark(r: Record): (q: Record)
    requires IsValid(r)
    ensures IsValid(q) && q.id == r.id && q.name == r.name && q.programme == r.programme
  {
    r.(mark := Rounded2(r.mark))
  }

  function RoundedMarks(rs: seq<Record>): (qs: seq<Record>)
    requires forall k :: 0 <= k < |rs| ==> IsValid(rs[k])
    ensures |qs| == |rs| && forall k :: 0 <= k < |rs| ==> qs[k] == RoundedMark(rs[k])
  {
    seq(|rs|, k requires 0 <= k < |rs| => RoundedMark(rs[k]))
  }

  /** The text `%d` writes for a positive id: a field that trims to itself. */
  lemma IdText(id: nat)
    ensures var t := Decimal(id); t != [] && Storable(t) && Trimmed(t) == t
  {
    var t := Decimal(id);
    assert IsDigit(t[0]) && IsDigit(t[|t| - 1]);
    TrimmedClean(t);
  }

  /** The text `%.2f` writes for a mark: a field that trims to itself. */
  lemma MarkText(m: real)
    requires m >= 0.0
    ensures var t := FormatFixed2(m); t != [] && Storable(t) && Trimmed(t) == t
  {
    var n := Hundredths(m);
    var t := FormatFixed2(m);
    var q := Decimal(n / 100);
    FixedBodyShape(n);
    assert t == FixedBody(n);
    assert forall k :: 0 <= k < |t| ==> t[k] != Tab by {
      forall k | 0 <= k < |t|
        ensures t[k] != Tab
      {
        if k < |q| {
          assert t[k] == q[k];
        } else if k > |q| {
          assert t[k] == t[|q| + 1..][k - |q| - 1];
        }
      }
    }
    assert IsDigit(t[0]) by { assert t[0] == q[0]; }
    assert IsDigit(t[|t| - 1]) by { assert t[|t| - 1] == t[|q| + 1..][1]; }
    TrimmedClean(t);
  }

  /** A record line is its four fields joined by single tabs. */
  lemma FormatLineFields(r: Record)
    requires r.id > 0
    ensures FormatLine(r) == JoinWith([Decimal(r.id), r.name, r.programme, FormatFixed2(r.mark)], Tab)
  {
    var m := FormatFixed2(r.mark);
    var fs := [Decimal(r.id), r.name, r.programme, m];
    assert fs[3..] == [m];
    assert JoinWith(fs[3..], Tab) == m;
    assert fs[2..][1..] == fs[3..];
    assert JoinWith(fs[2..], Tab) == r.programme + [Tab] + m;
    assert fs[1..][1..] == fs[2..];
    assert JoinWith(fs[1..], Tab) == r.name + [Tab] + r.programme + [Tab] + m;
    assert JoinWith(fs, Tab) == Decimal(r.id) + [Tab] + (r.name + [Tab] + r.programme + [Tab] + m);
  }

  /** The four fields of a line are what ParseFields sees when they are already trimmed. */
  lemma ParseLineOfFields(line: string, fs: seq<string>)
    requires Tokens(line, Tab) == fs && |fs| == 4
    requires forall k :: 0 <= k < 4 ==> Trimmed(fs[k]) == fs[k]
    ensures ParseLine(line) == ParseFields(fs)
  {
    FourFields(fs, Trimmed(fs[0]), Trimmed(fs[1]), Trimmed(fs[2]), Trimmed(fs[3]));
  }

  /** A sequence of four is the display of its four elements. */
  lemma FourFields(fs: seq<string>, a: string, b: string, c: string, d: string)
    requires |fs| == 4 && fs[0] == a && fs[1] == b && fs[2] == c && fs[3] == d
    ensures [a, b, c, d] == fs
  {
    assert fs == [fs[0]] + fs[1..];
    assert fs[1..] == [fs[1]] + fs[2..];
    assert fs[2..] == [fs[2], fs[3]];
  }

  /** The fields of a saved record pass every check of the parser. */
  lemma ParseSavedFields(r: Record)
    requires IsValid(r)
    ensures ParseFields([Decimal(r.id), r.name, r.programme, FormatFixed2(r.mark)]) == Success(RoundedMark(r))
  {
    IdText(r.id);
    MarkText(r.mark);
    StrToLDecimal(r.id);
    StrToFFixed(r.mark);
  }

  /** A saved record line parses back into the record with its mark rounded. */
  lemma ParseFormatLine(r: Record)
    requires IsValid(r) && Storable(r.name) && Storable(r.programme)
    ensures ParseLine(FormatLine(r)) == Success(RoundedMark(r))
  {
    var fs := [Decimal(r.id), r.name, r.programme, FormatFixed2(r.mark)];
    IdText(r.id);
    MarkText(r.mark);
    FormatLineFields(r);
    TokensOfJoin(fs, Tab);
    TrimmedClean(r.name);
    TrimmedClean(r.programme);
    ParseLineOfFields(FormatLine(r), fs);
    ParseSavedFields(r);
  }

  /** A saved record line is not blank and has no whitespace to trim. */
  lemma FormatLineTrimmed(r: Record)
    requires r.id > 0 && r.mark >= 0.0
    ensures Trimmed(FormatLine(r)) == FormatLine(r) && FormatLine(r) != []
  {
    var idText := Decimal(r.id);
    var markText := FormatFixed2(r.mark);
    IdText(r.id);
    MarkText(r.mark);
    var line := FormatLine(r);
    assert line[0] == idText[0];
    assert line[|line| - 1] == markText[|markText| - 1];
    TrimmedClean(line);
  }

  /** A string lacking the first character of `sub` does not contain it. */
  lemma NotContains(s: string, sub: string)
    requires sub != [] && sub[0] !in s
    ensures !Contains(s, sub)
  {
  }

  /** The table-name line is skipped: it is not blank and does not name the mark column. */
  lemma TableLineSkipped()
    ensures Trimmed(TableLine) == TableLine && TableLine != [] && !IsHeader(TableLine)
  {
    TrimmedClean(TableLine);
    TableLineHasNoM();
    NotContains(TableLine, "Mark");
  }

  /** No character of the table-name line is an upper-case M. */
  lemma TableLineHasNoM()
    ensures 'M' !in TableLine
  {
    forall i | 0 <= i < |TableLine|
      ensures TableLine[i] != 'M'
    {
      if i < 7 {
        assert TableLine[i] in "Table N";
      } else if i < 13 {
        assert TableLine[i] in "ame: S";
      } else if i < 20 {
        assert TableLine[i] in "tudentR";
      } else {
        assert TableLine[i] in "ecords";
      }
    }
  }

  /** The column-header line is the header. */
  lemma HeaderLineIsHeader()
    ensures Trimmed(HeaderLine) == HeaderLine && HeaderLine != [] && IsHeader(HeaderLine)
  {
    TrimmedClean(HeaderLine);
    assert OccursAt(HeaderLine, "ID", 0);
    assert OccursAt(HeaderLine, "Mark", 18);
  }

  /** A non-blank line before the header is skipped; it is the header if it names both columns. */
  lemma ScanSkips(lines: seq<string>, headerSeen: bool, rows: seq<Record>)
    requires lines != [] && Trimmed(lines[0]) != [] && !headerSeen
    ensures Scan(lines, headerSeen, rows) == Scan(lines[1..], IsHeader(Trimmed(lines[0])), rows)
  {
  }

  /** One record line after the header: parsed and appended as a new id. */
  lemma ScanRow(lines: seq<string>, rows: seq<Record>, q: Record)
    requires lines != [] && Trimmed(lines[0]) == lines[0] && lines[0] != []
    requires ParseLine(lines[0]) == Success(q) && Added(rows, q, true) == Success(rows + [q])
    ensures Scan(lines, true, rows) == Scan(lines[1..], true, rows + [q])
  {
  }

  /** Each line is already trimmed, not blank, and parses into the record at its position. */
  predicate ParsesAs(lines: seq<string>, qs: seq<Record>)
    decreases |lines|
  {
    |lines| == |qs| &&
    (lines != [] ==>
      && Trimmed(lines[0]) == lines[0] && lines[0] != []
      && ParseLine(lines[0]) == Success(qs[0])
      && ParsesAs(lines[1..], qs[1..]))
  }

  /**
   * Lines each parsing into the next of `qs`, whose ids are new and
   * distinct, are read after the header into exactly `qs`, in order.
   */
  lemma {:induction false} ScanParsedRows(lines: seq<string>, qs: seq<Record>, rows: seq<Record>)
    requires ParsesAs(lines, qs)
    requires StoreInvariant(rows + qs)
    ensures Scan(lines, true, rows) == Success(rows + qs)
    decreases |lines|
  {
    if lines == [] {
      assert rows + qs == rows;
    } else {
      var q := qs[0];
      NewRowAdded(rows, qs);
      ScanRow(lines, rows, q);
      MoveFront(rows, qs);
      ScanParsedRows(lines[1..], qs[1..], rows + [q]);
    }
  }

  lemma MoveFront(rows: seq<Record>, qs: seq<Record>)
    requires qs != []
    ensures rows + [qs[0]] + qs[1..] == rows + qs
  {
    assert qs == [qs[0]] + qs[1..];
  }

  /** The first of `qs` is added to `rows` as a new id. */
  lemma NewRowAdded(rows: seq<Record>, qs: seq<Record>)
    requires qs != [] && StoreInvariant(rows + qs)
    ensures Added(rows, qs[0], true) == Success(rows + [qs[0]])
  {
    var q := qs[0];
    assert (rows + qs)[|rows|] == q;
    assert !HasId(rows, q.id) by {
      forall k | 0 <= k < |rows|
        ensures rows[k].id != q.id
      {
        assert (rows + qs)[k] == rows[k];
      }
    }
    InsertOutcome(rows, q);
  }

  /** Every record line of a saved file reads back as its record with the mark rounded. */
  lemma {:induction false} SavedLinesParse(rs: seq<Record>)
    requires forall k :: 0 <= k < |rs| ==> IsValid(rs[k]) && Storable(rs[k].name) && Storable(rs[k].programme)
    ensures ParsesAs(FormatLines(rs), RoundedMarks(rs))
    decreases |rs|
  {
    if rs != [] {
      SavedLinesParse(rs[1..]);
      SavedLineParses(rs[0]);
      SavedLinesTail(rs);
      ParsesAsCons(FormatLines(rs), RoundedMarks(rs));
    }
  }

  /** The line of one valid, storable record is trimmed, not blank, and parses back. */
  lemma SavedLineParses(r: Record)
    requires IsValid(r) && Storable(r.name) && Storable(r.programme)
    ensures Trimmed(FormatLine(r)) == FormatLine(r) && FormatLine(r) != []
    ensures ParseLine(FormatLine(r)) == Success(RoundedMark(r))
  {
    FormatLineTrimmed(r);
    ParseFormatLine(r);
  }

  lemma ParsesAsCons(lines: seq<string>, qs: seq<Record>)
    requires lines != [] && |lines| == |qs|
    requires Trimmed(lines[0]) == lines[0] && lines[0] != [] && ParseLine(lines[0]) == Success(qs[0])
    requires ParsesAs(lines[1..], qs[1..])
    ensures ParsesAs(lines, qs)
  {
  }

  lemma SavedLinesTail(rs: seq<Record>)
    requires rs != [] && forall k :: 0 <= k < |rs| ==> IsValid(rs[k])
    ensures FormatLines(rs)[1..] == FormatLines(rs[1..])
    ensures RoundedMarks(rs)[1..] == RoundedMarks(rs[1..])
  {
  }

  /** Rounding marks keeps ids, so it keeps the store invariant. */
  lemma RoundedMarksKeepInvariant(rs: seq<Record>)
    requires StoreInvariant(rs)
    ensures StoreInvariant(RoundedMarks(rs))
  {
  }

  /** The two lines a save writes first bring the scan to the records, header seen. */
  lemma SavedHeadSkipped(rest: seq<string>)
    ensures Scan([TableLine, HeaderLine] + rest, false, []) == Scan(rest, true, [])
  {
    var lines := [TableLine, HeaderLine] + rest;
    TableLineSkipped();
    HeaderLineIsHeader();
    ScanSkips(lines, false, []);
    ScanSkips(lines[1..], false, []);
    assert lines[1..][1..] == rest;
  }

  /**
   * Opening a saved file gives back the records, in storage order, with
   * ids, names and programmes unchanged and marks rounded to the two
   * decimals written, provided no name or programme holds a tab, a line
   * break or a NUL, or starts or ends with whitespace.
   */
  lemma SaveLoadRoundTrip(rs: seq<Record>)
    requires StoreInvariant(rs)
    requires forall k :: 0 <= k < |rs| ==> Storable(rs[k].name) && Storable(rs[k].programme)
    ensures LoadLines(SaveLines(rs)) == Success(RoundedMarks(rs))
  {
    RecordLinesLoad(rs);
    SavedHeadSkipped(FormatLines(rs));
  }

  /** The record lines alone, read past the header, give back the rounded records. */
  lemma RecordLinesLoad(rs: seq<Record>)
    requires StoreInvariant(rs)
    requires forall k :: 0 <= k < |rs| ==> Storable(rs[k].name) && Storable(rs[k].programme)
    ensures Scan(FormatLines(rs), true, []) == Success(RoundedMarks(rs))
  {
    SavedLinesParse(rs);
    RoundedMarksKeepInvariant(rs);
    ParsedLinesLoad(FormatLines(rs), RoundedMarks(rs));
  }

  /** Lines that each parse, holding distinct valid records, load as those records. */
  lemma ParsedLinesLoad(lines: seq<string>, qs: seq<Record>)
    requires ParsesAs(lines, qs) && StoreInvariant(qs)
    ensures Scan(lines, true, []) == Success(qs)
  {
    assert [] + qs == qs;
    ScanParsedRows(lines, qs, []);
  }
}
