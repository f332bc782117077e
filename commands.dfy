// The command layer of the record store: splitting an input line into a
// command word and its arguments and looking the word up in the command
// table, the argument grammar of SHOW and the dispatch to the views, the
// parser of a student id argument, and the case-insensitive prefix test
// the SHOW grammar relies on.

module Commands {

  import opened Wrappers
  import opened Status
  import opened Text
  import opened Numbers
  import opened Records
  import opened Database
  import opened Summary

  /** CMS_MAX_COMMAND_LEN: the size of every local command buffer. */
  const MaxCommandLen: nat := 256

  // ---------------------------------------------------------------------
  // Local buffers

  /**
   * What survives `strncpy` into a CMS_MAX_COMMAND_LEN buffer followed by
   * a terminator in its last slot: the first 255 characters.
   */
  function Truncated(s: string): (r: string)
    ensures |r| < MaxCommandLen
    ensures |r| <= |s| && r == s[..|r|]
    ensures |s| < MaxCommandLen ==> r == s
    ensures |s| >= MaxCommandLen ==> |r| == MaxCommandLen - 1
  {
    if |s| < MaxCommandLen then s else s[..MaxCommandLen - 1]
  }

  /** Copying a NUL-free string into a fresh command buffer. */
  method CopyToBuffer(s: string) returns (buf: array<char>)
    requires Nul !in s
    ensures fresh(buf) && buf.Length == MaxCommandLen
    ensures IsCString(buf[..], 0) && CStr(buf[..], 0) == Truncated(s)
  {
    buf := new char[MaxCommandLen];
    var i := 0;
    while i < MaxCommandLen
      invariant i <= MaxCommandLen
      invariant forall k :: 0 <= k < i ==> buf[k] == if k < |s| then s[k] else Nul
    {
      buf[i] := if i < |s| then s[i] else Nul;
      i := i + 1;
    }
    buf[MaxCommandLen - 1] := Nul;
    var t := Truncated(s);
    assert buf[0..|t|] == t;
    CStrIs(buf[..], 0, t);
  }

  // ---------------------------------------------------------------------
  // Prefix test

  /** `text` begins with `prefix` when both are upper-cased. */
  function PrefixIgnoringCase(text: string, prefix: string): (r: bool)
    ensures r <==> |prefix| <= |text| && forall i :: 0 <= i < |prefix| ==> ToUpper(text[i]) == ToUpper(prefix[i])
  {
    |prefix| <= |text| && EqualsIgnoreCase(text[..|prefix|], prefix)
  }

  /**
   * `starts_with_ignore_case`: false for a NULL text or prefix; otherwise
   * the scan fails at the end of the text or at the first pair of
   * characters that differ under `toupper`, and succeeds once the prefix
   * is used up. An empty prefix matches any text.
   */
  method StartsWithIgnoreCase(text: Option<string>, prefix: Option<string>) returns (b: bool)
    ensures b <==> text.Some? && prefix.Some? && PrefixIgnoringCase(text.value, prefix.value)
    ensures text.Some? && prefix == Some([]) ==> b
  {
    if text.None? || prefix.None? {
      return false;
    }
    var t, p := text.value, prefix.value;
    var i := 0;
    while i < |p|
      invariant i <= |p| && i <= |t|
      invariant forall k :: 0 <= k < i ==> ToUpper(t[k]) == ToUpper(p[k])
    {
      if i == |t| {
        return false;
      }
      if ToUpper(t[i]) != ToUpper(p[i]) {
        return false;
      }
      i := i + 1;
    }
    return true;
  }

  // ---------------------------------------------------------------------
  // SHOW

  /** What a SHOW command asks for. */
  datatype ShowRequest =
    | ShowSummaryOf
    | ShowProgrammes
    | ShowAll
    | ShowSorted(key: SortKey, order: SortOrder)

  /** The sort key a word names, ignoring case. */
  function SortKeyOf(w: string): (k: Option<SortKey>)
    ensures k.Some? ==> k.value != KeyNone
    ensures k == Some(KeyId) <==> EqualsIgnoreCase(w, "ID")
    ensures k == Some(KeyMark) <==> EqualsIgnoreCase(w, "MARK")
  {
    if EqualsIgnoreCase(w, "ID") then Some(KeyId)
    else if EqualsIgnoreCase(w, "MARK") then Some(KeyMark)
    else None
  }

  /** The sort order a word names, ignoring case. */
  function SortOrderOf(w: string): Option<SortOrder>
  {
    if EqualsIgnoreCase(w, "DESC") then Some(Desc)
    else if EqualsIgnoreCase(w, "ASC") then Some(Asc)
    else None
  }

  /**
   * The space-separated words after SHOW ALL: SORT, BY, the key, then at
   * most an order; anything missing, unknown or extra is rejected.
   */
  function SortClause(ws: seq<string>): (r: Result<ShowRequest>)
    ensures r.Success? ==> r.value.ShowSorted? && r.value.key != KeyNone
    ensures r.Failure? ==> r.status == InvalidArgument
  {
    if |ws| == 0 || !EqualsIgnoreCase(ws[0], "SORT") then Failure(InvalidArgument)
    else if |ws| == 1 || !EqualsIgnoreCase(ws[1], "BY") then Failure(InvalidArgument)
    else if |ws| == 2 then Failure(InvalidArgument)
    else match SortKeyOf(ws[2])
      case None => Failure(InvalidArgument)
      case Some(key) =>
        if |ws| == 3 then Success(ShowSorted(key, Asc))
        else match SortOrderOf(ws[3])
          case None => Failure(InvalidArgument)
          case Some(order) =>
            if |ws| == 4 then Success(ShowSorted(key, order)) else Failure(InvalidArgument)
  }

  /**
   * The argument grammar of SHOW: missing arguments are rejected; the
   * rest is read from the trimmed text.
   */
  function ParseShow(args: Option<string>): (r: Result<ShowRequest>)
    ensures args.None? || args == Some([]) ==> r == Failure(InvalidArgument)
    ensures r.Failure? ==> r.status == InvalidArgument
  {
    if args.None? || args.value == [] then Failure(InvalidArgument)
    else ShowText(Trimmed(Truncated(args.value)))
  }

  /**
   * The trimmed arguments of SHOW: SUMMARY or PROGRAMMES (any case) select
   * those views; otherwise the text must begin with ALL (any case), and
   * what follows it, trimmed, is read as the listing's clause.
   */
  function ShowText(t: string): (r: Result<ShowRequest>)
    ensures r.Failure? ==> r.status == InvalidArgument
  {
    if EqualsIgnoreCase(t, "SUMMARY") then Success(ShowSummaryOf)
    else if EqualsIgnoreCase(t, "PROGRAMMES") then Success(ShowProgrammes)
    else if !PrefixIgnoringCase(t, "ALL") then Failure(InvalidArgument)
    else AllClause(Trimmed(t[3..]))
  }

  /** What follows SHOW ALL: nothing, or a sort clause split at spaces. */
  function AllClause(rest: string): (r: Result<ShowRequest>)
    ensures r.Failure? ==> r.status == InvalidArgument
  {
    if rest == [] then Success(ShowAll)
    else SortClause(Tokens(Truncated(rest), ' '))
  }

  /** The status SHOW reports: ERROR before parsing when nothing is loaded. */
  function ShowStatus(loaded: bool, args: Option<string>): (s: CmsStatus)
    ensures !loaded ==> s == Error
    ensures loaded ==> (s == Ok <==> ParseShow(args).Success?)
    ensures loaded && s != Ok ==> s == InvalidArgument
  {
    if !loaded then Error
    else match ParseShow(args)
      case Failure(e) => e
      case Success(_) => Ok
  }

  /** What a SHOW command produced, in place of the text it prints. */
  datatype ShowOutput =
    | NoOutput
    | Listing(records: seq<Record>)
    | SummaryReport(summary: Option<MarkSummary>)
    | ProgrammeTable(stats: seq<ProgrammeStat>)

  /**
   * `handle_show`: ERROR when no store is loaded, the grammar's status
   * when the arguments do not parse, otherwise the status and output of
   * the view the arguments select; the store is not changed.
   */
  method HandleShow(db: StudentDatabase?, args: Option<string>) returns (s: CmsStatus, out: ShowOutput)
    requires db != null ==> db.Valid()
    ensures s == ShowStatus(db != null && db.isLoaded, args)
    ensures s != Ok ==> out == NoOutput
    ensures s == Ok && ParseShow(args) == Success(ShowAll) ==> out == Listing(db.Records())
    ensures s == Ok && ParseShow(args).Success? && ParseShow(args).value.ShowSorted? ==>
      var key, order := ParseShow(args).value.key, ParseShow(args).value.order;
      && out.Listing?
      && multiset(out.records) == multiset(db.Records())
      && Sorted(out.records, key, order)
    ensures s == Ok && ParseShow(args) == Success(ShowProgrammes) ==> out == ProgrammeTable(Stats(db.Records()))
    ensures s == Ok && ParseShow(args) == Success(ShowSummaryOf) ==>
      && out.SummaryReport?
      && (out.summary.Some? <==> db.count > 0)
      && (out.summary.Some? ==> IsHighest(db.Records(), out.summary.value.highest)
                                && IsLowest(db.Records(), out.summary.value.lowest))
  {
    if db == null || !db.isLoaded {
      return Error, NoOutput;
    }
    var request := ParseShow(args);
    if request.Failure? {
      return request.status, NoOutput;
    }
    match request.value
    case ShowSummaryOf =>
      var summary;
      s, summary := ShowSummary(db);
      out := SummaryReport(summary);
    case ShowProgrammes =>
      var stats;
      s, stats := ProgrammeStats(db);
      out := ProgrammeTable(stats);
    case ShowAll =>
      var shown;
      s, shown := ShowAllSorted(db, KeyNone, Asc);
      out := Listing(shown);
    case ShowSorted(key, order) =>
      var shown;
      s, shown := ShowAllSorted(db, key, order);
      out := Listing(shown);
  }

  // ---------------------------------------------------------------------
  // Student id arguments

  /** The text begins with ID= (either letter in either case). */
  predicate IdPrefixed(t: string)
  {
    |t| >= 3 && (t[0] == 'I' || t[0] == 'i') && (t[1] == 'D' || t[1] == 'd') && t[2] == '='
  }

  /** The text the number is read from: after an ID= prefix, trimmed again. */
  function IdText(t: string): string
  {
    if IdPrefixed(t) then Trimmed(t[3..]) else t
  }

  /**
   * The id argument as the code reads it: the arguments, truncated to the
   * buffer and trimmed, must not be empty; the number is then read from
   * the text after an optional ID= prefix.
   */
  function StudentId(args: Option<string>): (r: Result<Int32>)
    ensures r.Failure? ==> r.status == InvalidArgument
  {
    if args.None? || args.value == [] then Failure(InvalidArgument)
    else
      var t := Trimmed(Truncated(args.value));
      if t == [] then Failure(InvalidArgument) else IdNumber(IdText(t))
  }

  /**
   * `strtol` must read a number without a range error, the number must be
   * positive, and only whitespace may follow it. The `long` is then cast to
   * `int`, which wraps numbers beyond the `int` range.
   */
  function IdNumber(u: string): (r: Result<Int32>)
    ensures r.Failure? ==> r.status == InvalidArgument
  {
    var c := StrToL(u);
    if c.rangeError || c.end == 0 || c.value <= 0 then Failure(InvalidArgument)
    else if !AllSpace(u[c.end..]) then Failure(InvalidArgument)
    else Success(ToInt32(c.value))
  }

  /** The buffer holds the string `t` and then its terminator. */
  lemma CStrChars(a: seq<char>, t: string)
    requires IsCString(a, 0) && CStr(a, 0) == t
    ensures |t| < |a| && a[|t|] == Nul
    ensures forall k :: 0 <= k < |t| ==> a[k] == t[k]
  {
    assert a[0..|t|] == t;
  }

  /** After the ID= prefix the buffer holds the rest of the text. */
  lemma AfterPrefix(a: seq<char>, t: string)
    requires IsCString(a, 0) && CStr(a, 0) == t && |t| >= 3
    ensures IsCString(a, 3) && CStr(a, 3) == t[3..]
  {
    CStrChars(a, t);
    assert a[3..3 + |t[3..]|] == t[3..];
    CStrIs(a, 3, t[3..]);
  }

  /**
   * The text at `at` in the buffer with the ID= prefix skipped when there
   * is one, trimmed in place.
   */
  method SkipIdPrefix(buf: array<char>, ghost t: string) returns (at: nat)
    requires IsCString(buf[..], 0) && CStr(buf[..], 0) == t && t != []
    modifies buf
    ensures IsCString(buf[..], at) && CStr(buf[..], at) == IdText(t)
  {
    CStrChars(buf[..], t);
    if (buf[0] == 'I' || buf[0] == 'i') && (buf[1] == 'D' || buf[1] == 'd') && buf[2] == '=' {
      assert IdPrefixed(t);
      AfterPrefix(buf[..], t);
      TrimAt(buf, 3);
      return 3;
    }
    assert !IdPrefixed(t);
    return 0;
  }

  /** Reading the number at `at` and checking that only whitespace follows it. */
  method ReadId(buf: array<char>, at: nat) returns (s: CmsStatus, id: Option<Int32>)
    requires IsCString(buf[..], at)
    ensures var r := IdNumber(CStr(buf[..], at));
      && (r.Success? ==> s == Ok && id == Some(r.value))
      && (r.Failure? ==> s == r.status && id == None)
  {
    ghost var u := CStr(buf[..], at);
    var c := StrToL(CStr(buf[..], at));
    if c.rangeError || c.end == 0 || c.value <= 0 {
      return InvalidArgument, None;
    }
    CStrSuffix(buf[..], at, u, c.end);
    var blank := OnlySpaces(buf, at + c.end);
    if !blank {
      return InvalidArgument, None;
    }
    return Ok, Some(ToInt32(c.value));
  }

  /** The scan after the number: true when only whitespace is left before the terminator. */
  method OnlySpaces(buf: array<char>, from: nat) returns (b: bool)
    requires IsCString(buf[..], from)
    ensures b == AllSpace(CStr(buf[..], from))
  {
    ghost var u := CStr(buf[..], from);
    assert forall k :: from <= k < from + |u| ==> buf[k] == u[k - from];
    var p := from;
    while buf[p] != Nul
      invariant from <= p <= from + |u|
      invariant AllSpace(u[..p - from])
      decreases from + |u| - p
    {
      if !IsSpace(buf[p]) {
        assert u[p - from] == buf[p];
        return false;
      }
      assert u[..p + 1 - from] == u[..p - from] + [u[p - from]];
      p := p + 1;
    }
    assert u[..p - from] == u;
    return true;
  }

  /** The string `j` characters into a C string is the rest of its text. */
  lemma CStrSuffix(a: seq<char>, at: nat, u: string, j: nat)
    requires IsCString(a, at) && CStr(a, at) == u && j <= |u|
    ensures IsCString(a, at + j) && CStr(a, at + j) == u[j..]
  {
    assert a[at + j..at + j + |u[j..]|] == u[j..];
    CStrIs(a, at + j, u[j..]);
  }

  /**
   * `parse_student_id_argument`: the arguments are copied into a command
   * buffer and trimmed in place, an ID= prefix is skipped and the rest
   * trimmed again, `strtol` reads the number, and a scan checks that only
   * whitespace follows it. The id is produced only on success.
   */
  method ParseStudentIdArgument(args: Option<string>) returns (s: CmsStatus, id: Option<Int32>)
    requires args.Some? ==> Nul !in args.value
    ensures StudentId(args).Success? ==> s == Ok && id == Some(StudentId(args).value)
    ensures StudentId(args).Failure? ==> s == StudentId(args).status && id == None
  {
    if args.None? || args.value == [] {
      return InvalidArgument, None;
    }
    var buf := CopyToBuffer(args.value);
    ghost var t := Trimmed(Truncated(args.value));
    TrimAt(buf, 0);
    if buf[0] == Nul {
      assert t == [];
      return InvalidArgument, None;
    }
    var at := SkipIdPrefix(buf, t);
    s, id := ReadId(buf, at);
  }

  /**
   * The id parser with the cast made safe: numbers beyond the `int` range
   * are rejected like the others, so an accepted id is always positive.
   */
  function StudentIdChecked(args: Option<string>): (r: Result<Int32>)
    ensures r.Success? ==> r.value > 0
    ensures r.Failure? ==> r.status == InvalidArgument
  {
    if args.None? || args.value == [] then Failure(InvalidArgument)
    else
      var t := Trimmed(Truncated(args.value));
      if t == [] then Failure(InvalidArgument) else IdNumberChecked(IdText(t))
  }

  /** The number reader that also rejects numbers beyond the `int` range. */
  function IdNumberChecked(u: string): (r: Result<Int32>)
    ensures r.Success? ==> r.value > 0
    ensures r.Failure? ==> r.status == InvalidArgument
  {
    var c := StrToL(u);
    if c.rangeError || c.end == 0 || c.value <= 0 || c.value > IntMax then Failure(InvalidArgument)
    else if !AllSpace(u[c.end..]) then Failure(InvalidArgument)
    else Success(c.value)
  }

  /** Missing, empty or all-whitespace arguments are rejected by both readings. */
  lemma BlankIdRejected(args: Option<string>)
    requires args.None? || AllSpace(args.value)
    ensures StudentId(args) == Failure(InvalidArgument)
    ensures StudentIdChecked(args) == Failure(InvalidArgument)
  {
    if args.Some? && args.value != [] {
      var c := Truncated(args.value);
      assert AllSpace(c) by {
        assert forall k :: 0 <= k < |c| ==> c[k] == args.value[k];
      }
      TrimmedEmpty(c);
    }
  }

  /** A number below 10^k has at most k digits. */
  lemma {:induction false} DecimalLength(n: nat, k: nat)
    requires 1 <= k && n < Pow10(k)
    ensures |Decimal(n)| <= k
    decreases k
  {
    if n >= 10 {
      assert k >= 2;
      DecimalLength(n / 10, k - 1);
    }
  }

  /** A positive number below 10^10 prints as at most ten digits that `strtol` reads back whole. */
  lemma DecimalRead(n: nat)
    requires 0 < n < 10_000_000_000
    ensures var d := Decimal(n);
      && |d| <= 10 && IsDigit(d[0]) && IsDigit(d[|d| - 1])
      && StrToL(d) == Conversion(n, |d|, false)
  {
    assert Pow10(10) == 10_000_000_000;
    DecimalLength(n, 10);
    StrToLDecimal(n);
  }

  /** Digits, alone or after ID=, are already trimmed, and the number text is the digits. */
  lemma PrefixedDigits(prefix: string, d: string)
    requires prefix == "" || prefix == "ID=" || prefix == "id="
    requires 0 < |d| <= 10 && IsDigit(d[0]) && IsDigit(d[|d| - 1])
    ensures Trimmed(Truncated(prefix + d)) == prefix + d
    ensures IdText(prefix + d) == d
  {
    var t := prefix + d;
    if prefix == "" {
      assert t == d;
      TrimmedClean(d);
      assert !IdPrefixed(d);
    } else {
      IdDigits(prefix, d, t);
    }
  }

  /** ID= followed by digits. */
  lemma IdDigits(prefix: string, d: string, t: string)
    requires prefix == "ID=" || prefix == "id="
    requires 0 < |d| <= 10 && IsDigit(d[0]) && IsDigit(d[|d| - 1])
    requires t == prefix + d
    ensures Trimmed(Truncated(t)) == t && IdPrefixed(t) && t[3..] == d && Trimmed(d) == d
  {
    assert |t| == 3 + |d|;
    assert t[0] == prefix[0] && t[1] == prefix[1] && t[2] == prefix[2];
    assert t[|t| - 1] == d[|d| - 1];
    assert t[3..] == d;
    TrimmedClean(t);
    TrimmedClean(d);
  }

  /** What both number readers make of the digits of a positive number. */
  lemma IdNumberDecimal(n: nat)
    requires 0 < n < 10_000_000_000
    ensures IdNumber(Decimal(n)) == Success(ToInt32(n))
    ensures IdNumberChecked(Decimal(n)) == if n <= IntMax then Success(n) else Failure(InvalidArgument)
  {
    DecimalRead(n);
    assert Decimal(n)[|Decimal(n)|..] == [];
  }

  /**
   * A positive `int` written in decimal, alone or after ID= (in either
   * case), reads back as itself.
   */
  lemma StudentIdRoundTrip(n: nat, prefix: string)
    requires 0 < n <= IntMax && (prefix == "" || prefix == "ID=" || prefix == "id=")
    ensures StudentId(Some(prefix + Decimal(n))) == Success(n)
    ensures StudentIdChecked(Some(prefix + Decimal(n))) == Success(n)
  {
    DecimalRead(n);
    PrefixedDigits(prefix, Decimal(n));
    IdNumberDecimal(n);
  }

  /**
   * With a 64-bit `long`, a number past the `int` range passes the
   * "greater than 0" test and is then cast: 4294967296 becomes the id 0,
   * which the test meant to reject; the checked reading rejects it.
   */
  lemma StudentIdWraps()
    ensures StudentId(Some(Decimal(0x1_0000_0000))) == Success(0)
    ensures StudentIdChecked(Some(Decimal(0x1_0000_0000))) == Failure(InvalidArgument)
  {
    var d := Decimal(0x1_0000_0000);
    DecimalRead(0x1_0000_0000);
    PrefixedDigits("", d);
    assert "" + d == d;
    IdNumberDecimal(0x1_0000_0000);
  }

  // ---------------------------------------------------------------------
  // The command table and the command line

  /** The commands that have a handler. */
  datatype Handler =
    | OpenHandler | ShowHandler | InsertHandler | QueryHandler
    | UpdateHandler | DeleteHandler | SaveHandler | HelpHandler

  /** A row of the command table: the word, and its handler (none for the words that end the session). */
  datatype CommandMapping = CommandMapping(name: string, handler: Option<Handler>)

  /** COMMANDS, in the order the lookup tries them. */
  const CommandTable: seq<CommandMapping> := [
    CommandMapping("OPEN", Some(OpenHandler)),
    CommandMapping("SHOW", Some(ShowHandler)),
    CommandMapping("INSERT", Some(InsertHandler)),
    CommandMapping("QUERY", Some(QueryHandler)),
    CommandMapping("UPDATE", Some(UpdateHandler)),
    CommandMapping("DELETE", Some(DeleteHandler)),
    CommandMapping("SAVE", Some(SaveHandler)),
    CommandMapping("HELP", Some(HelpHandler)),
    CommandMapping("EXIT", None),
    CommandMapping("QUIT", None)
  ]

  /** Whether the session goes on after a command. */
  datatype CommandResult = Continue | Exit

  /** The first of the first `count` rows of the table with this exact word, or -1. */
  function FindCommand(word: string, count: nat): (i: int)
    requires count <= |CommandTable|
    ensures -1 <= i < count
    ensures i >= 0 ==> CommandTable[i].name == word && forall k :: 0 <= k < i ==> CommandTable[k].name != word
    ensures i < 0 <==> forall k :: 0 <= k < count ==> CommandTable[k].name != word
  {
    if count == 0 then -1
    else
      var i := FindCommand(word, count - 1);
      if i >= 0 then i
      else if CommandTable[count - 1].name == word then count - 1
      else -1
  }

  /** What a command line leads to. */
  datatype Dispatch =
    | Blank
    | Leave
    | Call(handler: Handler, args: Option<string>)
    | Unknown(word: string)

  /** What the upper-cased command word selects, with the arguments that follow it. */
  function Dispatched(word: string, args: Option<string>): Dispatch
  {
    var i := FindCommand(word, |CommandTable|);
    if i < 0 then Unknown(word)
    else match CommandTable[i].handler
      case None => Leave
      case Some(h) => Call(h, args)
  }

  /**
   * How a line is read: truncated to the command buffer and trimmed;
   * blank means nothing to do; otherwise the word is the text before the
   * first space, upper-cased, and the arguments, when there is a space,
   * are what follows it, trimmed.
   */
  function CommandLine(line: string): Dispatch
  {
    var t := Trimmed(Truncated(line));
    if t == [] then Blank
    else
      var n := RunLength(t, ' ');
      Dispatched(Upper(t[..n]), if n < |t| then Some(Trimmed(t[n + 1..])) else None)
  }

  /** The length of the command word: up to the first space or the terminator. */
  method FindSpace(buf: array<char>) returns (n: nat)
    requires IsCString(buf[..], 0)
    ensures n == RunLength(CStr(buf[..], 0), ' ')
    ensures n < buf.Length && (n < |CStr(buf[..], 0)| <==> buf[n] == ' ')
  {
    ghost var t := CStr(buf[..], 0);
    assert forall k :: 0 <= k < |t| ==> buf[k] == t[k];
    n := 0;
    while buf[n] != Nul && buf[n] != ' '
      invariant n <= |t| && ' ' !in t[..n]
      decreases |t| - n
    {
      assert t[..n + 1] == t[..n] + [t[n]];
      n := n + 1;
    }
    RunLengthUnique(t, ' ', n);
  }

  /**
   * Ending the word at the space and trimming what follows in place: the
   * buffer then holds the word at its front and the arguments after it.
   */
  method SplitAt(buf: array<char>, n: nat, ghost t: string)
    requires IsCString(buf[..], 0) && CStr(buf[..], 0) == t && n < |t| && buf[n] == ' '
    modifies buf
    ensures IsCString(buf[..], 0) && CStr(buf[..], 0) == t[..n]
    ensures IsCString(buf[..], n + 1) && CStr(buf[..], n + 1) == Trimmed(t[n + 1..])
  {
    ghost var a := buf[..];
    buf[n] := Nul;
    EndWord(a, buf[..], n, t);
    ghost var before := buf[..];
    TrimAt(buf, n + 1);
    WordKept(before, buf[..], n, t[..n]);
  }

  /** Writing the terminator over the space leaves the word and the arguments as two strings. */
  lemma EndWord(a: seq<char>, b: seq<char>, n: nat, t: string)
    requires IsCString(a, 0) && CStr(a, 0) == t && n < |t| && b == a[n := Nul]
    ensures IsCString(b, 0) && CStr(b, 0) == t[..n]
    ensures IsCString(b, n + 1) && CStr(b, n + 1) == t[n + 1..]
  {
    assert a[0..|t|] == t && a[|t|] == Nul;
    assert b[n + 1..n + 1 + |t[n + 1..]|] == t[n + 1..];
    CStrIs(b, n + 1, t[n + 1..]);
    assert b[0..n] == t[..n];
    CStrIs(b, 0, t[..n]);
  }

  /** Trimming after the terminator keeps the word in front of it. */
  lemma WordKept(before: seq<char>, after: seq<char>, n: nat, w: string)
    requires IsCString(before, 0) && CStr(before, 0) == w && |w| == n
    requires n < |after| == |before| && after[..n + 1] == before[..n + 1]
    ensures IsCString(after, 0) && CStr(after, 0) == w
  {
    assert before[0..n] == w && before[n] == Nul;
    assert after[0..n] == before[..n + 1][..n];
    CStrIs(after, 0, w);
  }

  /** The table lookup: the first row whose word equals `word`. */
  method LookupCommand(word: string) returns (i: int)
    ensures i == FindCommand(word, |CommandTable|)
  {
    var k := 0;
    while k < |CommandTable|
      invariant k <= |CommandTable|
      invariant FindCommand(word, k) < 0
    {
      if CommandTable[k].name == word {
        return k;
      }
      k := k + 1;
    }
    return -1;
  }

  /**
   * `cms_execute_command`: INVALID_ARGUMENT without a store or a line,
   * with the result untouched; otherwise the result starts as CONTINUE,
   * and the line is read as CommandLine says. A blank line is OK; EXIT and
   * QUIT are OK and set the result to EXIT; an unknown word is
   * INVALID_ARGUMENT; a known word calls its handler with the arguments,
   * whose status is the command's (SHOW's is computed here, HELP only
   * prints and is OK, the other handlers are outside this model and leave
   * the status open).
   */
  method ExecuteCommand(db: StudentDatabase?, line: Option<string>)
    returns (s: Option<CmsStatus>, result: Option<CommandResult>, d: Option<Dispatch>)
    requires db != null ==> db.Valid()
    requires line.Some? ==> Nul !in line.value
    ensures db == null || line.None? ==> s == Some(InvalidArgument) && result == None && d == None
    ensures db != null && line.Some? ==> d == Some(CommandLine(line.value))
    ensures d.Some? ==> result == Some(if d.value.Leave? then Exit else Continue)
    ensures d.Some? && (d.value.Blank? || d.value.Leave?) ==> s == Some(Ok)
    ensures d.Some? && d.value.Unknown? ==> s == Some(InvalidArgument)
    ensures d.Some? && d.value.Call? && d.value.handler == ShowHandler ==> s == Some(ShowStatus(db.isLoaded, d.value.args))
    ensures d.Some? && d.value.Call? && d.value.handler == HelpHandler ==> s == Some(Ok)
    ensures d.Some? && d.value.Call? && d.value.handler !in {ShowHandler, HelpHandler} ==> s == None
  {
    if db == null || line.None? {
      return Some(InvalidArgument), None, None;
    }
    result := Some(Continue);
    var buf := CopyToBuffer(line.value);
    ghost var t := Trimmed(Truncated(line.value));
    TrimAt(buf, 0);
    if buf[0] == Nul {
      return Some(Ok), result, Some(Blank);
    }
    var n := FindSpace(buf);
    var args: Option<string> := None;
    if buf[n] == ' ' {
      SplitAt(buf, n, t);
      args := Some(CStr(buf[..], n + 1));
    } else {
      assert t[..n] == t;
    }
    ToUpperInPlace(buf);
    var word := CStr(buf[..], 0);
    var i := LookupCommand(word);
    if i < 0 {
      return Some(InvalidArgument), result, Some(Unknown(word));
    }
    match CommandTable[i].handler
    case None =>
      return Some(Ok), Some(Exit), Some(Leave);
    case Some(h) =>
      d := Some(Call(h, args));
      if h == ShowHandler {
        var status, _ := HandleShow(db, args);
        s := Some(status);
      } else if h == HelpHandler {
        s := Some(Ok);
      } else {
        s := None;
      }
  }

  // ---------------------------------------------------------------------
  // Properties of the command line

  /** A line does nothing exactly when what fits in the buffer is all whitespace. */
  lemma BlankLine(line: string)
    ensures CommandLine(line) == Blank <==> AllSpace(Truncated(line))
  {
    TrimmedEmpty(Truncated(line));
  }

  /** A word alone on the line is looked up upper-cased, with no arguments. */
  lemma WordAlone(w: string)
    requires IsWord(w) && |w| < MaxCommandLen
    ensures CommandLine(w) == Dispatched(Upper(w), None)
  {
    TrimmedClean(w);
    assert ' ' !in w[..|w|] by {
      assert forall k :: 0 <= k < |w| ==> !IsSpace(w[k]);
    }
    RunLengthUnique(w, ' ', |w|);
    assert w[..|w|] == w;
  }

  /**
   * A word, one space and arguments that neither begin nor end with
   * whitespace: the word is looked up upper-cased and the arguments are
   * passed on as they are, in their own case.
   */
  lemma WordThenArgs(w: string, args: string)
    requires IsWord(w) && |args| > 0 && !IsSpace(args[0]) && !IsSpace(args[|args| - 1])
    requires |w| + 1 + |args| < MaxCommandLen
    ensures CommandLine(w + " " + args) == Dispatched(Upper(w), Some(args))
  {
    var line := w + " " + args;
    assert line[|line| - 1] == args[|args| - 1];
    TrimmedClean(line);
    assert line[..|w|] == w;
    assert ' ' !in line[..|w|] by {
      assert forall k :: 0 <= k < |w| ==> !IsSpace(w[k]);
    }
    RunLengthUnique(line, ' ', |w|);
    assert line[|w| + 1..] == args;
    TrimmedClean(args);
  }

  /** The table's words are upper-case and distinct. */
  lemma TableWords()
    ensures forall k :: 0 <= k < |CommandTable| ==> Upper(CommandTable[k].name) == CommandTable[k].name
    ensures forall j, k :: 0 <= j < k < |CommandTable| ==> CommandTable[j].name != CommandTable[k].name
  {
    forall k | 0 <= k < |CommandTable|
      ensures Upper(CommandTable[k].name) == CommandTable[k].name
    {
      var n := CommandTable[k].name;
      assert forall i :: 0 <= i < |n| ==> 'A' <= n[i] <= 'Z';
    }
  }

  /**
   * A word that equals a table word when case is ignored selects that
   * row: its handler with the arguments, or the end of the session.
   */
  lemma KnownWord(w: string, args: Option<string>, k: nat)
    requires k < |CommandTable| && EqualsIgnoreCase(w, CommandTable[k].name)
    ensures Dispatched(Upper(w), args)
         == if CommandTable[k].handler.None? then Leave else Call(CommandTable[k].handler.value, args)
  {
    TableWords();
    var name := CommandTable[k].name;
    assert Upper(w) == Upper(name);
    assert FindCommand(Upper(w), |CommandTable|) == k;
  }

  /** A word that matches no table word in any case is unknown. */
  lemma UnknownWord(w: string, args: Option<string>)
    requires forall k :: 0 <= k < |CommandTable| ==> !EqualsIgnoreCase(w, CommandTable[k].name)
    ensures Dispatched(Upper(w), args) == Unknown(Upper(w))
  {
    TableWords();
  }

  /** EXIT and QUIT, in any case, end the session whatever follows them. */
  lemma LeaveWords(w: string, args: Option<string>)
    requires EqualsIgnoreCase(w, "EXIT") || EqualsIgnoreCase(w, "QUIT")
    ensures Dispatched(Upper(w), args) == Leave
  {
    if EqualsIgnoreCase(w, "EXIT") {
      KnownWord(w, args, 8);
    } else {
      KnownWord(w, args, 9);
    }
  }

  // ---------------------------------------------------------------------
  // Properties of the SHOW grammar

  /** A word of a command: not empty, no whitespace in it. */
  predicate IsWord(w: string)
  {
    |w| > 0 && forall i :: 0 <= i < |w| ==> !IsSpace(w[i])
  }

  /** Words joined with single spaces neither begin nor end with whitespace. */
  lemma {:induction false} JoinedEnds(ws: seq<string>)
    requires ws != [] && forall k :: 0 <= k < |ws| ==> IsWord(ws[k])
    ensures var j := JoinWith(ws, ' ');
      |j| > 0 && !IsSpace(j[0]) && !IsSpace(j[|j| - 1])
  {
    var j := JoinWith(ws, ' ');
    assert IsWord(ws[0]);
    if |ws| > 1 {
      JoinedEnds(ws[1..]);
      assert j == ws[0] + [' '] + JoinWith(ws[1..], ' ');
      assert j[0] == ws[0][0];
    }
  }

  /** Words without whitespace hold no space, as `strtok` needs. */
  lemma WordsHaveNoSpace(ws: seq<string>)
    requires forall k :: 0 <= k < |ws| ==> IsWord(ws[k])
    ensures forall w :: w in ws ==> |w| > 0 && ' ' !in w
  {
    forall w | w in ws
      ensures |w| > 0 && ' ' !in w
    {
      var k :| 0 <= k < |ws| && ws[k] == w;
      assert IsWord(ws[k]);
    }
  }

  /** Text starting with A is neither SUMMARY nor PROGRAMMES in any case. */
  lemma NotOtherView(t: string)
    requires |t| > 0 && t[0] == 'A'
    ensures !EqualsIgnoreCase(t, "SUMMARY") && !EqualsIgnoreCase(t, "PROGRAMMES")
  {
    assert ToUpper(t[0]) != ToUpper("SUMMARY"[0]);
    assert ToUpper(t[0]) != ToUpper("PROGRAMMES"[0]);
  }

  /** How ALL, a gap of whitespace and joined words trim. */
  lemma TrimmedAllThen(gap: string, j: string)
    requires AllSpace(gap) && |j| > 0 && !IsSpace(j[0]) && !IsSpace(j[|j| - 1])
    ensures Trimmed("ALL" + gap + j) == "ALL" + gap + j
    ensures ("ALL" + gap + j)[3..] == gap + j
    ensures Trimmed(gap + j) == j
  {
    var a := "ALL" + gap + j;
    assert a[|a| - 1] == j[|j| - 1];
    TrimmedClean(a);
    var tail := gap + j;
    assert a[3..] == tail;
    assert tail[..|gap|] == gap;
    assert tail[|gap|..|tail|] == j;
    TrimmedUnique(tail, |gap|, |tail|);
  }

  /** The steps ParseShow takes on text that trims to itself and starts with ALL. */
  lemma ParseShowAll(a: string, rest: string)
    requires 3 <= |a| < MaxCommandLen && a[..3] == "ALL"
    requires Trimmed(a) == a && Trimmed(a[3..]) == rest && rest != []
    ensures ParseShow(Some(a)) == SortClause(Tokens(rest, ' '))
  {
    assert Truncated(a) == a;
    assert ParseShow(Some(a)) == ShowText(a);
    assert a[0] == a[..3][0] == 'A';
    NotOtherView(a);
    PrefixAll(a);
    assert ShowText(a) == AllClause(rest);
    assert Truncated(rest) == rest;
  }

  /** Text that begins with ALL passes the prefix test for ALL. */
  lemma PrefixAll(a: string)
    requires 3 <= |a| && a[..3] == "ALL"
    ensures PrefixIgnoringCase(a, "ALL")
  {
    assert forall i :: 0 <= i < 3 ==> a[i] == "ALL"[i];
  }

  /**
   * After ALL and any run of whitespace (none at all included, so that
   * ALLSORT BY ID is accepted too), space-separated words are judged by the
   * sort clause alone.
   */
  lemma ShowAllThen(gap: string, ws: seq<string>)
    requires AllSpace(gap)
    requires ws != [] && forall k :: 0 <= k < |ws| ==> IsWord(ws[k])
    requires 3 + |gap| + |JoinWith(ws, ' ')| < MaxCommandLen
    ensures ParseShow(Some("ALL" + gap + JoinWith(ws, ' '))) == SortClause(ws)
  {
    var j := JoinWith(ws, ' ');
    JoinedEnds(ws);
    TrimmedAllThen(gap, j);
    var a := "ALL" + gap + j;
    assert a[..3] == "ALL";
    ParseShowAll(a, j);
    WordsHaveNoSpace(ws);
    TokensOfJoin(ws, ' ');
  }

  /** The key and order words the help text names. */
  function KeyWord(key: SortKey): string
  {
    match key
    case KeyId => "ID"
    case KeyMark => "MARK"
    case KeyNone => "NONE"
  }

  function OrderWord(order: SortOrder): string
  {
    match order
    case Asc => "ASC"
    case Desc => "DESC"
  }

  /** A word equal, ignoring case, to an upper-case keyword upper-cases to that keyword. */
  lemma UpperOfMatch(w: string, k: string)
    requires EqualsIgnoreCase(w, k) && Upper(k) == k
    ensures Upper(w) == k
  {
    assert forall i :: 0 <= i < |w| ==> Upper(w)[i] == Upper(k)[i];
  }

  /**
   * The sort clause accepts nothing but SORT BY key [order] in any case: an
   * accepted clause upper-cases to exactly those words, with ASC when the
   * order is left out.
   */
  lemma SortClauseAccepts(ws: seq<string>, key: SortKey, order: SortOrder)
    requires SortClause(ws) == Success(ShowSorted(key, order))
    ensures UpperAll(ws) == SortWords(key, Some(order))
         || (order == Asc && UpperAll(ws) == SortWords(key, None))
  {
    UpperOfMatch(ws[0], "SORT");
    UpperOfMatch(ws[1], "BY");
    if key == KeyId {
      UpperOfMatch(ws[2], "ID");
    } else {
      UpperOfMatch(ws[2], "MARK");
    }
    var us := UpperAll(ws);
    if |ws| == 3 {
      assert us == SortWords(key, None);
    } else {
      if order == Desc {
        UpperOfMatch(ws[3], "DESC");
      } else {
        UpperOfMatch(ws[3], "ASC");
      }
      assert us == SortWords(key, Some(order));
    }
  }

  /**
   * Which view the trimmed SHOW arguments select: SUMMARY and PROGRAMMES
   * exactly for those words in any case, the plain listing exactly for ALL
   * with nothing after it, and a sorted listing only through the sort clause
   * after ALL.
   */
  lemma ShowTextViews(t: string)
    ensures ShowText(t) == Success(ShowSummaryOf) <==> EqualsIgnoreCase(t, "SUMMARY")
    ensures ShowText(t) == Success(ShowProgrammes) <==> EqualsIgnoreCase(t, "PROGRAMMES")
    ensures ShowText(t) == Success(ShowAll) <==> PrefixIgnoringCase(t, "ALL") && Trimmed(t[3..]) == []
    ensures ShowText(t).Success? && ShowText(t).value.ShowSorted? ==>
      && PrefixIgnoringCase(t, "ALL")
      && ShowText(t) == SortClause(Tokens(Truncated(Trimmed(t[3..])), ' '))
  {
    if PrefixIgnoringCase(t, "ALL") {
      assert ToUpper(t[0]) == 'A';
      assert !EqualsIgnoreCase(t, "SUMMARY") && !EqualsIgnoreCase(t, "PROGRAMMES");
    }
    if EqualsIgnoreCase(t, "SUMMARY") {
      assert !EqualsIgnoreCase(t, "PROGRAMMES");
    }
  }

  /** The words of a sort clause, with or without the order. */
  function SortWords(key: SortKey, order: Option<SortOrder>): seq<string>
  {
    ["SORT", "BY", KeyWord(key)] + if order.Some? then [OrderWord(order.value)] else []
  }

  /** The sort clause reads back the key and order it was written with; ASC when none. */
  lemma SortClauseOfWords(key: SortKey, order: Option<SortOrder>)
    requires key != KeyNone
    ensures SortClause(SortWords(key, order)) == Success(ShowSorted(key, if order.Some? then order.value else Asc))
  {
    var ws := SortWords(key, order);
    assert EqualsIgnoreCase(ws[0], "SORT") && EqualsIgnoreCase(ws[1], "BY");
    assert SortKeyOf(ws[2]) == Some(key) by {
      if key == KeyMark {
        assert !EqualsIgnoreCase("MARK", "ID");
      }
    }
    if order.Some? {
      assert SortOrderOf(ws[3]) == order by {
        if order.value == Asc {
          assert !EqualsIgnoreCase("ASC", "DESC");
        }
      }
    }
  }

  /** The words of a sort clause are short words. */
  lemma SortWordsShape(key: SortKey, order: Option<SortOrder>)
    ensures var ws := SortWords(key, order);
      && ws != [] && (forall k :: 0 <= k < |ws| ==> IsWord(ws[k]))
      && |JoinWith(ws, ' ')| <= 20
  {
    var ws := SortWords(key, order);
    assert JoinWith(ws, ' ') == ws[0] + [' '] + JoinWith(ws[1..], ' ');
    assert JoinWith(ws[1..], ' ') == ws[1] + [' '] + JoinWith(ws[2..], ' ');
    if order.Some? {
      assert JoinWith(ws[2..], ' ') == ws[2] + [' '] + JoinWith(ws[3..], ' ');
      assert JoinWith(ws[3..], ' ') == ws[3];
    } else {
      assert JoinWith(ws[2..], ' ') == ws[2];
    }
  }

  /** The arguments of SHOW that ask for a sort: ALL, then the sort clause. */
  function SortText(key: SortKey, order: Option<SortOrder>): string
  {
    "ALL " + JoinWith(SortWords(key, order), ' ')
  }

  /**
   * SHOW ALL SORT BY ID|MARK [ASC|DESC] asks for that sort; without an
   * order the listing ascends.
   */
  lemma ShowSortRoundTrip(key: SortKey, order: Option<SortOrder>)
    requires key != KeyNone
    ensures ParseShow(Some(SortText(key, order)))
         == Success(ShowSorted(key, if order.Some? then order.value else Asc))
  {
    var ws := SortWords(key, order);
    var j := JoinWith(ws, ' ');
    assert SortText(key, order) == "ALL" + " " + j;
    SortWordsShape(key, order);
    ShowAllThen(" ", ws);
    SortClauseOfWords(key, order);
  }

  /** Every word upper-cased. */
  function UpperAll(ws: seq<string>): (us: seq<string>)
    ensures |us| == |ws| && forall i :: 0 <= i < |ws| ==> us[i] == Upper(ws[i])
  {
    seq(|ws|, i requires 0 <= i < |ws| => Upper(ws[i]))
  }

  /** Upper-casing commutes with taking a slice. */
  lemma UpperSlice(s: string, i: nat, j: nat)
    requires i <= j <= |s|
    ensures Upper(s)[i..j] == Upper(s[i..j])
  {
  }

  /** Upper-casing one side does not change a comparison that ignores case. */
  lemma EqualsUpper(a: string, b: string)
    ensures EqualsIgnoreCase(Upper(a), b) == EqualsIgnoreCase(a, b)
  {
    if |a| == |b| {
      assert forall i :: 0 <= i < |a| ==> ToUpper(Upper(a)[i]) == ToUpper(a[i]);
    }
  }

  /** Upper-casing keeps the leading whitespace: `toupper` leaves whitespace alone. */
  lemma {:induction false} LeadingSpacesUpper(s: string)
    ensures LeadingSpaces(Upper(s)) == LeadingSpaces(s)
    decreases |s|
  {
    if |s| > 0 && IsSpace(s[0]) {
      assert Upper(s)[1..] == Upper(s[1..]);
      LeadingSpacesUpper(s[1..]);
    }
  }

  /** Upper-casing keeps the trailing whitespace. */
  lemma {:induction false} TrimmedEndUpper(s: string, lo: nat)
    requires lo <= |s|
    ensures TrimmedEnd(Upper(s), lo) == TrimmedEnd(s, lo)
    decreases |s|
  {
    if |s| > lo && IsSpace(s[|s| - 1]) {
      assert Upper(s)[..|s| - 1] == Upper(s[..|s| - 1]);
      TrimmedEndUpper(s[..|s| - 1], lo);
    }
  }

  /** Upper-casing commutes with trimming. */
  lemma TrimmedUpper(s: string)
    ensures Trimmed(Upper(s)) == Upper(Trimmed(s))
  {
    LeadingSpacesUpper(s);
    TrimmedEndUpper(s, LeadingSpaces(s));
    UpperSlice(s, LeadingSpaces(s), TrimmedEnd(s, LeadingSpaces(s)));
  }

  /** Upper-casing commutes with splitting at spaces. */
  lemma {:induction false} TokensUpper(s: string)
    ensures Tokens(Upper(s), ' ') == UpperAll(Tokens(s, ' '))
    decreases |s|
  {
    if s != [] {
      var u := Upper(s);
      if s[0] == ' ' {
        assert u[0] == ' ';
        assert u[1..] == Upper(s[1..]);
        TokensUpper(s[1..]);
      } else {
        var n := RunLength(s, ' ');
        assert u[..n] == Upper(s[..n]);
        assert u[n..] == Upper(s[n..]);
        assert ' ' !in u[..n] by {
          assert forall k :: 0 <= k < n ==> u[k] == ToUpper(s[k]) && s[k] != ' ';
        }
        RunLengthUnique(u, ' ', n);
        TokensUpper(s[n..]);
        assert UpperAll([s[..n]] + Tokens(s[n..], ' ')) == [Upper(s[..n])] + UpperAll(Tokens(s[n..], ' '));
      }
    }
  }

  /** The keywords of the sort clause are recognised whatever the case of the word. */
  lemma KeywordsUpper(w: string)
    ensures EqualsIgnoreCase(Upper(w), "SORT") == EqualsIgnoreCase(w, "SORT")
    ensures EqualsIgnoreCase(Upper(w), "BY") == EqualsIgnoreCase(w, "BY")
    ensures SortKeyOf(Upper(w)) == SortKeyOf(w)
    ensures SortOrderOf(Upper(w)) == SortOrderOf(w)
  {
    EqualsUpper(w, "SORT");
    EqualsUpper(w, "BY");
    EqualsUpper(w, "ID");
    EqualsUpper(w, "MARK");
    EqualsUpper(w, "DESC");
    EqualsUpper(w, "ASC");
  }

  /** The sort clause ignores the case of its words. */
  lemma SortClauseUpper(ws: seq<string>)
    ensures SortClause(UpperAll(ws)) == SortClause(ws)
  {
    SortClauseAlike(UpperAll(ws), ws);
  }

  /** Two word lists that agree on every keyword test get the same verdict. */
  lemma SortClauseAlike(us: seq<string>, ws: seq<string>)
    requires |us| == |ws|
    requires forall k :: 0 <= k < |ws| ==> us[k] == Upper(ws[k])
    ensures SortClause(us) == SortClause(ws)
  {
    if |ws| > 0 {
      KeywordsUpper(ws[0]);
    }
    if |ws| > 1 {
      KeywordsUpper(ws[1]);
    }
    if |ws| > 2 {
      KeywordsUpper(ws[2]);
    }
    if |ws| > 3 {
      KeywordsUpper(ws[3]);
    }
  }

  /** The clause after ALL ignores case. */
  lemma AllClauseUpper(rest: string)
    ensures AllClause(Upper(rest)) == AllClause(rest)
  {
    if rest != [] {
      var r := Truncated(rest);
      assert Truncated(Upper(rest)) == Upper(r);
      TokensUpper(r);
      SortClauseUpper(Tokens(r, ' '));
    }
  }

  /** The trimmed arguments of SHOW are read the same whatever their case. */
  lemma ShowTextUpper(t: string)
    ensures ShowText(Upper(t)) == ShowText(t)
  {
    EqualsUpper(t, "SUMMARY");
    EqualsUpper(t, "PROGRAMMES");
    var ut := Upper(t);
    assert PrefixIgnoringCase(ut, "ALL") == PrefixIgnoringCase(t, "ALL");
    if |t| >= 3 {
      assert ut[3..] == Upper(t[3..]);
      TrimmedUpper(t[3..]);
      AllClauseUpper(Trimmed(t[3..]));
    }
  }

  /** SHOW reads its arguments the same whatever their case. */
  lemma ParseShowIgnoresCase(a: string)
    ensures ParseShow(Some(Upper(a))) == ParseShow(Some(a))
  {
    if a != [] {
      var c := Truncated(a);
      assert Truncated(Upper(a)) == Upper(c);
      TrimmedUpper(c);
      ShowTextUpper(Trimmed(c));
    }
  }
}
