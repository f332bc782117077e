# Course management system: student-record store, in Dafny

This project models the core of a small command-line course management
system written in C. The system keeps student records in a growable array,
loads them from and saves them to a tab-separated text file, shows them
sorted, summarised or grouped by programme, and reads commands typed at a
prompt. Every operation reports its outcome as a status code.

The modules follow the C sources:

- `Status` (status.dfy) holds the eight status codes and the message table
  of `src/cms_status.c`.
- `Text` (text.dfy) holds the string helpers of `src/utils.c`.
  - `cms_trim` and `cms_str_to_upper` work in place on NUL-terminated
    `array<char>` buffers.
  - Case-insensitive equality is a function.
  - `Tokens` is the split into runs between separators, which both the
    record-line parser and `strtok` perform.
- `Numbers` (numbers.dfy) holds the conversions the parsers and the save
  routine use:
  - `strtol`, with the 64-bit `long` range and its range error;
  - `strtof` on decimal text;
  - the `(int)` narrowing, written out as 32-bit wrap-around;
  - the `%d` and `%.2f` formats.
- `Records` (records.dfy) holds the record, the validator, and the meaning
  of lookup, insert, update, delete and query on the sequence of stored
  records.
- `Codec` (codec.dfy) holds the file format and the strict line parser.
  - The parser (`database_parse_record_line`) is imperative: it walks a
    cursor over a buffer copy of the line, writes terminators and trims in
    place. It is proved to decide exactly as the functional `ParseLine`.
  - `Scan` and `LoadLines` state what opening a file yields, and the
    save/load round trip is proved.
- `Database` (database.dfy) holds the class `StudentDatabase`. Its fields
  are the struct's: the record array, `count`, `capacity`, the file path,
  and the loaded and dirty flags. Each method changes them as the C function
  does, and is proved against `Records` and `Codec`.
- `Summary` (summary.dfy) holds the read-only views of `src/summary.c`:
  - the comparator;
  - the sorted listing on a fresh copy;
  - the highest and lowest mark with their students;
  - the programme table built by the counting loop.
- `Commands` (commands.dfy) holds from `src/commands.c`:
  - the line splitter and table lookup of `cms_execute_command`;
  - the SHOW grammar;
  - the student-id argument parser;
  - the case-insensitive prefix test.

Where the repository's own files disagree with `src/`, the model follows `src/`:

- The store's first allocation holds 8 records, because `src/database.c:10`
  redefines the initial capacity. `include/config.h:18` says 16.
- The test sources expect a query on an unopened store to report NOT_FOUND
  (`tests/test_database.c:157-165`). The code reports ERROR
  (`src/database.c:262-264`), and so does the model.

Files are modelled as sequences of lines. The outcome of writing one (it
cannot be opened, it cannot be closed, or it is written) is a parameter of
`Save`. Marks are `real`. NULL stores, lines, paths and argument strings
are `StudentDatabase?`, `array?` or `Option` values where the C code tests
for them.

## Model

| member | source | states |
|---|---|---|
| Status.Code | include/cms.h:9-19 | Every status's code lies in 0..7, the range the enumeration spans; FromCode maps each code back to its status. |
| Status.FromCode | include/cms.h:9-19 | Exactly the codes 0..7 name a status, and the status named has that code. |
| Status.StatusMessage | src/cms_status.c:3-24 | The message function is total and never empty. A code of the enumeration gives that status' fixed text; any other value gives "Unknown status". |
| Status.MessagesDistinct | src/cms_status.c:5-20 | The eight messages are pairwise distinct, and none of them is the unknown-status text. |
| Status.MessageOfCode | src/cms_status.c:4-20 | Looking up a status by its own code gives that status' message. |
| Text.ToUpper | src/utils.c:33 | `toupper`: a..z become A..Z (code minus 32); every other character, NUL included, is unchanged. |
| Text.Upper | src/utils.c:32-34 | Upper-casing keeps the length and replaces each character by its `toupper`. |
| Text.LeadingSpaces | src/utils.c:11-14 | The length of the longest whitespace prefix: all of it is whitespace, and the next character is not. |
| Text.TrimmedEnd | src/utils.c:16-19 | The end of the text once the trailing whitespace is removed, never below the start: everything after it is whitespace, the character before it is not. |
| Text.TrimmedShape | src/utils.c:11-24 | The trimmed text is the input minus a whitespace prefix and a whitespace suffix, with the interior kept in order; it neither starts nor ends with whitespace. |
| Text.TrimmedUnique | src/utils.c:11-24 | Any split into whitespace, a middle that neither starts nor ends with whitespace, and whitespace has the trimmed text as its middle, so trimming removes maximal runs. |
| Text.TrimmedIdempotent | src/utils.c:7-25 | Trimming twice equals trimming once. |
| Text.TrimmedEmpty | src/utils.c:16-20 | Text trims to the empty string exactly when it is empty or all whitespace. |
| Text.TrimmedClean | src/utils.c:11-24 | Text without whitespace at either end is unchanged by trimming. |
| Text.StrLen | src/utils.c:16 | `strlen`: the distance to the first NUL, with no NUL before it. |
| Text.SkipSpaces | src/utils.c:11-14 | The first loop of `cms_trim` stops after the leading whitespace of the string. |
| Text.TrimEndIndex | src/utils.c:16-19 | The end position, moved back over the trailing whitespace but never below the start, marks the end of the trimmed text. |
| Text.MoveDown | src/utils.c:23 | `memmove` downward: the target range receives the old source range, and every slot outside the target range is unchanged. |
| Text.TrimmedInBuffer | src/utils.c:11-20 | The characters between the two positions are exactly the trimmed text, with no NUL among them. |
| Text.TrimBounds | src/utils.c:11-19 | The three scanning loops find bounds inside the string that enclose exactly its trimmed text. |
| Text.KeepBetween | src/utils.c:20-24 | Writing the terminator at the end and moving the text down leaves the trimmed text as the string at the buffer's start; the bytes before it and after the old terminator are kept. |
| Text.TrimAt | src/utils.c:11-25 | The string becomes the trimmed old string in place; the bytes before it and after its old terminator are untouched. |
| Text.Trim | src/utils.c:7-25 | `cms_trim` returns the buffer it was given (NULL for NULL), and the string in it becomes its own trimmed text; nothing outside the old string changes. |
| Text.ToUpperInPlace | src/utils.c:28-35 | `cms_str_to_upper` turns the string into its upper-cased form, and leaves the terminator and everything after it alone. |
| Text.EqualsIgnoreCase | src/utils.c:41-48 | On two strings, true exactly when they have equal length and agree at every position under `toupper`. |
| Text.StringEqualsIgnoreCase | src/utils.c:37-49 | True exactly when both strings are present (not NULL) and their upper-cased forms are equal. |
| Text.EqualsIgnoreCaseEquivalence | src/utils.c:37-49 | The comparison is reflexive and symmetric on present strings. |
| Text.RunLength | src/database.c:398-400 | The field scan stops at the first separator or at the end, and the separator is not in the part scanned. |
| Text.RunLengthUnique | src/database.c:398-400 | The run length is the only length with that description. |
| Text.Tokens | src/database.c:391-408 | The fields between separator runs are non-empty and separator-free. |
| Text.TokensSkipSeparators | src/database.c:392-394 | Leading separators do not change the fields. |
| Text.TokensFront | src/database.c:396-407 | A non-empty, separator-free field followed by one separator is the first field, and the rest splits as before. |
| Text.TokensOfJoin | src/database.c:179-183 | Non-empty, separator-free fields joined by single separators split back into exactly those fields. |
| Numbers.ToInt32 | src/database.c:438 | The `(int)` cast keeps any value in the `int` range; otherwise it is congruent to the value modulo 2^32. |
| Numbers.Decimal | src/database.c:179 | `%d` of a non-negative number is a non-empty digit string without leading zeros whose value is the number. |
| Numbers.FormatInt | src/database.c:179 | For a non-negative id, `%d` is that digit string. |
| Numbers.Hundredths | src/database.c:179 | `%.2f` rounds a mark to the nearest hundredth: the hundredths written lie within one half of the mark times 100. |
| Numbers.Rounded2 | src/database.c:179 | The value `%.2f` shows is within 0.005 of the mark, is not negative, and does not exceed 100 when the mark does not. |
| Numbers.SignAt | src/database.c:423 | `strtol`/`strtof` read at most one sign character, giving +1 or -1. |
| Numbers.StrToL | src/database.c:423-424 | `strtol` consumes a prefix of the text. Without digits it consumes nothing and gives 0 without error. The value always lies in the 64-bit `long` range, clamped there when the digits exceed it. |
| Numbers.StrToF | src/database.c:429-430 | `strtof` consumes a prefix of the text, giving 0 when nothing is consumed. The model never reports a range error; see "## Left out". |
| Numbers.DigitRunUnique | src/database.c:423 | The digit run `strtol` reads is the only run of digits followed by a non-digit. |
| Numbers.StrToLDecimal | src/database.c:423-424 | `strtol` reads back what `%d` wrote, consuming all of it, without error. |
| Numbers.StrToFFixed | src/database.c:429-430 | `strtof` reads back what `%.2f` wrote, consuming all of it: the mark rounded to hundredths. |
| Records.ValidateRecord | src/database.c:357-377 | OK exactly when the id is positive, the name and programme are non-empty and at most 64 characters, and 0 <= mark <= 100 with both bounds allowed; INVALID_ARGUMENT otherwise. |
| Records.FirstIndexOf | src/database.c:311-321 | The linear lookup gives the first position holding the id, or -1 exactly when no record has it. |
| Records.InsertOutcome | src/database.c:327-349 | Adding with duplicates refused succeeds exactly for a valid record with a new id, and then appends it. An invalid record is INVALID_ARGUMENT; a known id is DUPLICATE. |
| Records.AddedKeepsInvariant | src/database.c:323-355 | Adding, with either duplicate policy, keeps every record valid and the ids distinct. |
| Records.UpdateKeepsIds | src/database.c:211-223 | An update succeeds exactly for a valid record whose id is present. It then changes only the matching slot, so every id stays where it was and the invariant holds. |
| Records.DeleteRemoves | src/database.c:237-250 | Deleting succeeds exactly for a present id, otherwise NOT_FOUND. On success it removes exactly the records with that id (one, since ids are distinct), keeps the others in order, shortens the store by one and keeps the invariant. |
| Records.RemovedKeepsInvariant | src/database.c:245-250 | Closing the gap left by one record keeps the others valid with distinct ids. |
| Records.DeletedIsWithout | src/database.c:245-250 | With distinct ids, the records before and after the matching slot are the records without that id. |
| Records.QueryFinds | src/database.c:265-269 | With distinct ids, a query returns the one record with the id, or NOT_FOUND exactly when there is none. |
| Codec.ParseFields | src/database.c:421-445 | A successful parse yields a valid record carrying the name and programme fields. Failures are PARSE_ERROR or the validator's INVALID_ARGUMENT. |
| Codec.SkipTabs | src/database.c:392-394 | The tab loop stops at the first non-tab after the cursor. |
| Codec.FieldEnd | src/database.c:398-400 | The field loop stops at the next tab or the terminator. |
| Codec.SplitFields | src/database.c:391-412 | The splitting loop finds at most four fields, and they are the first fields of the line. The cursor is at the terminator exactly when the line has no more fields. |
| Codec.TakeField | src/database.c:397-407 | One pass records the field's start, ends the field at its tab with a terminator, and skips the tab run, keeping the loop's invariant. |
| Codec.ScannedRest | src/database.c:410 | At the terminator no fields are left; anywhere else at least one is. |
| Codec.TrimFields | src/database.c:414-419 | Trimming the four fields in place succeeds exactly when none of them trims to nothing, and leaves each as its trimmed text. |
| Codec.ConvertFields | src/database.c:421-445 | The conversion steps give exactly ParseFields' verdict on the four trimmed fields. |
| Codec.ParseLineWrongCount | src/database.c:410-412 | A line without exactly four fields is PARSE_ERROR. |
| Codec.ParseFieldsEmpty | src/database.c:414-419 | A field that trims to nothing is PARSE_ERROR. |
| Codec.ParseRecordLine | src/database.c:379-446 | The in-place parser decides exactly as ParseLine: four fields between tab runs, each trimmed and non-empty, then the id, mark, length and validator checks. |
| Codec.ParseFourFields | src/database.c:414-445 | Trimming the four fields in place and converting them gives ParseFields of the trimmed fields. |
| Codec.FormatLines | src/database.c:177-184 | One line per record, in storage order, each the record's formatted line. |
| Codec.ScanKeepsInvariant | src/database.c:105-133 | Reading lines after any valid start ends in valid records with distinct ids, or fails with PARSE_ERROR or DUPLICATE. |
| Codec.LoadKeepsInvariant | src/database.c:103-140 | Any file loads as valid records with distinct ids, or fails with PARSE_ERROR (a bad line or no header) or DUPLICATE (a repeated id). |
| Codec.RoundedMark | src/database.c:179 | The record as it reads back keeps its id, name and programme and stays valid. |
| Codec.ParseFormatLine | src/database.c:179-183 | The line saved for a valid record parses back into that record with its mark rounded. This holds when its name and programme are storable: no tab, line break or NUL inside, and no whitespace at either end. |
| Codec.FormatLineTrimmed | src/database.c:179-183 | A saved record line is not blank and has no whitespace to trim. |
| Codec.TableLineSkipped | src/database.c:112-117 | The table-name line is not blank and does not pass the header test. |
| Codec.HeaderLineIsHeader | src/database.c:112-117 | The column-header line passes the header test. |
| Codec.ScanSkips | src/database.c:112-117 | Before the header every non-blank line is skipped; the header is the first one naming both "ID" and "Mark". |
| Codec.ScanRow | src/database.c:119-132 | After the header a line that parses, with a new id, is appended and reading goes on. |
| Codec.ScanParsedRows | src/database.c:105-133 | Lines that each parse into the next record, with distinct ids, are read into exactly those records, in order. |
| Codec.SavedLinesParse | src/database.c:177-184 | Every record line of a saved file parses back into its record with the mark rounded. |
| Codec.SavedHeadSkipped | src/database.c:174-175 | The two lines a save writes first bring the reader to the records, with the header seen. |
| Codec.SaveLoadRoundTrip | src/database.c:174-184 | Opening a saved file gives back the records in storage order, with ids, names and programmes unchanged and marks rounded to two decimals. This holds when no name or programme holds a tab, a line break or a NUL, or starts or ends with whitespace. |
| Database.GrownCapacity | src/database.c:291-309 | The capacity is unchanged when large enough; otherwise it becomes at least the minimum, at most twice the minimum or the initial capacity. |
| Database.GrowthForAppend | src/database.c:296-299 | Growing a full array by one record gives 8 for an empty array and doubles any other. |
| Database.OpenKeepsInvariant | src/database.c:83-147 | Opening yields valid records with distinct ids, or fails with INVALID_ARGUMENT, IO, PARSE_ERROR or DUPLICATE. |
| Database.SaveThenOpen | src/database.c:149-192 | Reopening what a save wrote, through the same path, gives back the records, marks rounded to two decimals. This holds under the same storable-text condition as the round trip above. |
| Database.CloseGap | src/database.c:245-249 | The `memmove` leaves the first n-1 slots holding the records without the one at the index, in order; the slots after them are untouched. |
| Database.ScanAt | src/database.c:105-132 | One pass of the reading loop in each case: a blank line is skipped; before the header a line is skipped and may be the header; after it a bad line is PARSE_ERROR and a good one is added. |
| Database.ReadTrimmed | src/database.c:105-106 | A line read into a buffer and trimmed in place is the trimmed line. |
| Database.StudentDatabase.constructor | src/database.c:22-28 | A zeroed store: no records, capacity 0, no path, not loaded, not dirty. |
| Database.StudentDatabase.SetFile | src/database.c:55-66 | NULL, empty and paths of 260 characters or more are INVALID_ARGUMENT and keep the old path. Any other path replaces it, and nothing else changes. |
| Database.StudentDatabase.GetFile | src/database.c:68-73 | The remembered path, or NULL when it is empty. |
| Database.StudentDatabase.FindIndex | src/database.c:311-321 | The scan returns the first position of the id among the stored records, or -1. |
| Database.StudentDatabase.EnsureCapacity | src/database.c:291-309 | The capacity becomes the grown capacity, and the records, count, path and flags are kept. |
| Database.StudentDatabase.AddRecord | src/database.c:323-355 | The outcome is as described for adding. On failure the records and dirty flag are unchanged; on success the records are the added ones, the store is dirty when asked, and only an appended record grows the capacity. |
| Database.StudentDatabase.Append | src/database.c:344-353 | The record is stored after the last one, the capacity grows as needed, and the flags and path are kept. |
| Database.StudentDatabase.Insert | src/database.c:194-202 | ERROR when not loaded, otherwise the add verdict with duplicates refused. Failure changes no record, count, capacity or dirty flag. Success appends the record and marks the store dirty. |
| Database.StudentDatabase.Update | src/database.c:204-224 | ERROR when not loaded, then as described for updating. Failure changes nothing; success replaces only the slot with the id and marks the store dirty. |
| Database.StudentDatabase.Delete | src/database.c:226-256 | ERROR when not loaded, NOT_FOUND for an absent id; `deleted` is true exactly on success. Success removes the record, keeps the others in order and marks the store dirty. Failure changes nothing. |
| Database.StudentDatabase.Query | src/database.c:258-271 | ERROR when not loaded, otherwise the one record with the id or NOT_FOUND. |
| Database.StudentDatabase.Move | src/database.c:448-462 | The store takes over the other's array, count, capacity, path and flags; the other is left empty, not loaded, clean and without a path. |
| Database.StudentDatabase.ReadLines | src/database.c:102-133 | The reading loop, on an empty scratch store, gives exactly the records or the status LoadLines describes. |
| Database.StudentDatabase.Open | src/database.c:83-147 | All or nothing. The outcome is the file's records or the status reading it reports. Success leaves the file's records, the path, loaded and clean. Failure leaves the store exactly as it was. |
| Database.StudentDatabase.Save | src/database.c:149-192 | ERROR when not loaded. INVALID_ARGUMENT for a path of 260 characters or more, or when no path is known. A given path replaces the old one before the file is opened, so an IO failure still changes it. With a usable path, a file that cannot be opened or closed is IO. Nothing is written when the open fails; otherwise the lines written are the header lines and one line per record. Only a complete save clears the dirty flag. |
| Database.StudentDatabase.WriteLines | src/database.c:174-184 | The lines written are the two header lines, then one line per record in order. |
| Summary.CompareRecords | src/summary.c:220-248 | The comparator gives -1, 0 or 1, and always 0 without a key. |
| Summary.CompareMeaning | src/summary.c:220-248 | Swapping the arguments negates the result. Ascending and descending order by id or by mark mean <= and >= on that field. |
| Summary.InOrderPreorder | src/summary.c:220-248 | The order the comparator induces is reflexive, total and transitive, as `qsort` needs. |
| Summary.LeastFrom | src/summary.c:71 | The position of a record that may stand before every record after the sorted front. |
| Summary.Swap | src/summary.c:71 | Exchanging two slots keeps the same records. |
| Summary.SortInPlace | src/summary.c:69-71 | The copy ends up sorted by the comparator and is a permutation of what it held. |
| Summary.CopyRecords | src/summary.c:63-67 | A fresh array holding the stored records. |
| Summary.ShowAllSorted | src/summary.c:45-77 | INVALID_ARGUMENT without a store, ERROR when not loaded. Otherwise OK, listing a sorted permutation of the records, in storage order when there is no key. The store is not changed. |
| Summary.SortedByIdUnique | src/summary.c:69-71 | Sorted by id, with distinct ids, the listing is the same however the sort breaks ties. |
| Summary.NamesWithMarkMembers | src/summary.c:113-137 | A name is listed for a mark exactly when some record with that name has that mark. |
| Summary.CollectNames | src/summary.c:115-123 | The name loop lists the names of the records with the mark, in storage order. |
| Summary.MarkRange | src/summary.c:94-106 | The accumulator loop ends with the maximum and the minimum mark of the records. |
| Summary.ShowSummary | src/summary.c:79-140 | INVALID_ARGUMENT without a store, ERROR when not loaded, nothing to report for an empty store. Otherwise: the record count, the highest and lowest marks, and exactly the students with each. |
| Summary.FindProgrammeStat | src/summary.c:250-257 | The first of the first `count` rows with the programme's name, or -1 (NULL) exactly when none has it. |
| Summary.TallyNames | src/summary.c:164-169 | Counting a record adds its programme to the table's names and keeps them distinct. |
| Summary.TallyTotal | src/summary.c:164-170 | Counting a record adds one to the sum of the counts. |
| Summary.TallyOrder | src/summary.c:164-169 | Counting one more record keeps the rows in the order their programmes first appear. |
| Summary.StatsNames | src/summary.c:157-172 | The table has one row per distinct programme: no programme twice, and the rows name exactly the records' programmes. |
| Summary.StatsCounts | src/summary.c:157-172 | Each row's count is the number of records of its programme. |
| Summary.StatsTotal | src/summary.c:157-172 | The counts add up to the number of records. |
| Summary.StatsOrder | src/summary.c:157-172 | The rows stand in the order their programmes first appear among the records. |
| Summary.TallyInto | src/summary.c:164-170 | One pass of the counter loop turns the table's filled rows into the table with the record counted. |
| Summary.ProgrammeStats | src/summary.c:142-172 | INVALID_ARGUMENT without a store, ERROR when not loaded. Otherwise the table the counter loop builds is the programme table of the records. |
| Commands.Truncated | src/commands.c:164-166 | What survives `strncpy` into a 256-character buffer with a forced terminator is the first 255 characters, the whole text when shorter. |
| Commands.CopyToBuffer | src/commands.c:87-89 | The command buffer holds the truncated line as a C string. |
| Commands.PrefixIgnoringCase | src/commands.c:614-629 | The text is at least as long as the prefix and agrees with it under `toupper`. |
| Commands.StartsWithIgnoreCase | src/commands.c:614-629 | False when either is NULL; otherwise true exactly when the prefix matches ignoring case. An empty prefix matches any text. |
| Commands.SortKeyOf | src/commands.c:213-221 | A word names the id key exactly when it equals ID ignoring case, and the mark key exactly when it equals MARK ignoring case. No word names the empty key. |
| Commands.SortClause | src/commands.c:197-241 | An accepted clause is a sort by a real key; anything else is INVALID_ARGUMENT. |
| Commands.ParseShow | src/commands.c:159-243 | Missing or empty arguments are INVALID_ARGUMENT, and every rejection is INVALID_ARGUMENT. |
| Commands.ShowText | src/commands.c:169-191 | Every rejection of the trimmed arguments is INVALID_ARGUMENT. |
| Commands.AllClause | src/commands.c:187-197 | Every rejection of what follows ALL is INVALID_ARGUMENT. |
| Commands.ShowStatus | src/commands.c:153-162 | ERROR before any parsing when nothing is loaded. Otherwise OK exactly when the arguments parse, INVALID_ARGUMENT when not. |
| Commands.HandleShow | src/commands.c:153-244 | The status is ShowStatus'. A rejected command shows nothing. ALL lists the records, a sort lists a sorted permutation, PROGRAMMES shows the programme table, and SUMMARY reports the highest and lowest marks of a non-empty store. |
| Commands.StudentId | src/commands.c:439-473 | Every rejection of an id argument is INVALID_ARGUMENT. |
| Commands.IdNumber | src/commands.c:458-471 | Every rejection of the number text is INVALID_ARGUMENT. |
| Commands.SkipIdPrefix | src/commands.c:446-456 | After trimming, an ID= prefix in either case is skipped and the rest trimmed again, leaving the number text. |
| Commands.ReadId | src/commands.c:458-471 | Reading the number gives the number reader's verdict: the id on success, INVALID_ARGUMENT otherwise. |
| Commands.OnlySpaces | src/commands.c:464-469 | The scan after the number is true exactly when only whitespace is left. |
| Commands.ParseStudentIdArgument | src/commands.c:435-473 | The parser's status and id are StudentId's; the id is produced only on success. |
| Commands.StudentIdChecked | src/commands.c:435-473 | With the cast made safe, an accepted id is always positive; every rejection is INVALID_ARGUMENT. |
| Commands.IdNumberChecked | src/commands.c:458-471 | The checked number reader accepts only positive ids. |
| Commands.BlankIdRejected | src/commands.c:439-449 | Missing, empty or all-whitespace arguments are INVALID_ARGUMENT under both readings. |
| Commands.IdNumberDecimal | src/commands.c:458-471 | The digits of a positive number read as that number narrowed to `int`, which the checked reader rejects past the `int` range. |
| Commands.StudentIdRoundTrip | src/commands.c:451-473 | A positive `int` in decimal, alone or after ID= in either case, reads back as itself. |
| Commands.StudentIdWraps | src/commands.c:460-471 | "4294967296" passes the positive test and is cast to the id 0; the checked reader rejects it. |
| Commands.FindCommand | src/commands.c:105-116 | The first table row with exactly the word, or -1 exactly when none has it. |
| Commands.FindSpace | src/commands.c:97 | `strchr` for a space: the word runs to the first space, and a space is found exactly when one is in the text. |
| Commands.SplitAt | src/commands.c:98-101 | The space becomes a terminator: the word is what precedes it, and the arguments are what follows, trimmed in place. |
| Commands.LookupCommand | src/commands.c:105-116 | The loop over the table finds the first row with the word, or -1. |
| Commands.ExecuteCommand | src/commands.c:79-120 | INVALID_ARGUMENT with the result untouched when the store or line is missing. Otherwise the result starts as CONTINUE and the line is read as CommandLine says. A blank line is OK; EXIT or QUIT is OK with result EXIT; an unknown word is INVALID_ARGUMENT; SHOW's status is its handler's; HELP is OK. |
| Commands.BlankLine | src/commands.c:87-94 | A line does nothing exactly when what fits in the buffer is all whitespace. |
| Commands.WordAlone | src/commands.c:96-116 | A word alone on the line is looked up upper-cased, without arguments. |
| Commands.WordThenArgs | src/commands.c:96-116 | A word, a space and arguments: the word is looked up upper-cased, and the arguments are passed on in their own case. |
| Commands.TableWords | src/commands.c:36-47 | The table's words are upper-case and distinct. |
| Commands.KnownWord | src/commands.c:103-115 | A word equal to a table word ignoring case selects that row: its handler with the arguments, or the end of the session. |
| Commands.UnknownWord | src/commands.c:103-119 | A word matching no table word in any case is unknown. |
| Commands.LeaveWords | src/commands.c:105-113 | EXIT and QUIT, in any case, end the session whatever follows them. |
| Commands.ParseShowAll | src/commands.c:182-197 | Trimmed text beginning with ALL, with words after it, is judged by the sort clause on those words split at spaces. |
| Commands.ShowAllThen | src/commands.c:182-243 | After ALL and any run of whitespace, including none (so ALLSORT BY ID is accepted), the words are judged by the sort clause alone. |
| Commands.SortClauseOfWords | src/commands.c:197-241 | SORT BY key [order] reads back that key and order, with ASC when no order is given. |
| Commands.SortClauseAccepts | src/commands.c:197-241 | The sort clause accepts nothing but SORT BY ID\|MARK, optionally followed by ASC\|DESC, in any case. An accepted clause upper-cases to exactly those words, and the order is ASC when left out. Any other key, order, missing word or extra word is rejected. |
| Commands.ShowTextViews | src/commands.c:169-197 | SUMMARY and PROGRAMMES are selected exactly by those words, in any case. The plain listing is selected exactly by ALL with nothing after it. A sorted listing comes only from ALL followed by a sort clause. |
| Commands.ShowSortRoundTrip | src/commands.c:182-243 | SHOW ALL SORT BY ID\|MARK [ASC\|DESC] asks for exactly that sort, ascending when no order is given. |
| Commands.SortClauseUpper | src/commands.c:197-241 | The sort clause gives the same verdict whatever the case of its words. |
| Commands.ShowTextUpper | src/commands.c:169-191 | The trimmed arguments are read the same whatever their case. |
| Commands.ParseShowIgnoresCase | src/commands.c:159-243 | SHOW reads its arguments the same whatever their case. |

## Left out

- Console I/O is not modelled. This covers the prompts, `cms_run_cli`, `cms_read_line`, `print_records_table`, `print_record`, `handle_help`, every printed message and src/main.c. The views return what they would print (records, a summary, a table) instead.
- The handlers OPEN, INSERT, QUERY, UPDATE, DELETE and SAVE of src/commands.c are not part of this model, because they read their records from interactive prompts. Commands.ExecuteCommand leaves their status open (`None`); the store operations they call are modelled in `Database`.
- Commands.ExecuteCommand: for a handler other than SHOW and HELP it states only the dispatch, not the handler's status, for the reason above. HELP only prints its text (src/commands.c:408-424), which is left out, and its OK status is stated.
- Commands.HandleShow: for SUMMARY it states the highest and lowest marks but not the count and the name lists. Summary.ShowSummary states those for the same store.
- File I/O is not modelled. A file is the sequence of its lines; `fopen` failure is a missing file, and the save outcome is a parameter. `fgets` truncation of long lines is not modelled; line lengths are unbounded, and lines hold no NUL.
- Codec.SaveLoadRoundTrip and Database.SaveThenOpen assume storable names and programmes. A file is a sequence of lines, and the writer does not split a line. In C a name holding a line break is written by `%s` (`src/database.c:179`), and `fgets` (`src/database.c:105`) reads it back as two lines, so reopening fails with PARSE_ERROR. The round trip is therefore stated only for names and programmes without a line break, tab or NUL.
- A Dafny `char` stands for one C `char`, that is one byte. The length bounds (`strlen(name) > 64`, `src/database.c:370-375`) count these bytes. Multibyte encodings such as UTF-8 are not modelled: `|name|` counts bytes, not Unicode characters.
- Floating point is not modelled. Marks are exact `real` values; `%.2f` is rounding half up to hundredths.
- Numbers.StrToF: reads only decimal text (sign, digits, optional point and digits). Exponents, hexadecimal floats, `inf` and `nan` are not modelled. `strtof`'s range errors are not modelled either: the model never reports one. C sets ERANGE for decimal text past the `float` range (forty nines) and, under glibc, for non-zero text below it (`0.` then fifty zeros then `1`). `database_parse_record_line` then answers PARSE_ERROR (`src/database.c:429-430`), where the model reads the number and the validator decides; an overflowing mark gives INVALID_ARGUMENT there instead.
- Averages are not modelled: the summary's average, the programme averages and the "highest average" programme (src/summary.c:94-111, 171, 174-199). They are floating-point output only. The `total_mark` field of a programme row is left out with them.
- Summary.SortInPlace: a selection sort stands for `qsort`. It is specified as a sorted permutation only; which of two equal records comes first is not modelled, as `qsort` does not fix it.
- The comparator's global key and order (src/summary.c:18-19, 69-70) are passed as parameters.
- Allocation failure of `malloc`, `calloc` and `realloc`, which returns ERROR, is not modelled. Every allocation succeeds.
- `database_reset` and `database_free` are not modelled; they only release memory.
- `database_is_loaded`, `database_is_dirty`, `database_records` and `database_record_count` are plain reads of the fields `isLoaded`, `isDirty`, `records` and `count`, with false, false, NULL and 0 for a NULL store. They have no separate members.
- NULL record and output arguments are not modelled. Records are values and outputs are return values, so the model has no such argument. The C code answers INVALID_ARGUMENT for each of them:
  - the record in insert, update and the validator (src/database.c:195, 205, 358);
  - `out_record` in query (src/database.c:259);
  - `line` or `out_record` in the line parser (src/database.c:380);
  - `dest` or `src` in the move (src/database.c:449);
  - `out_id` in the id parser (src/commands.c:436-438).

  A NULL `result` in `cms_execute_command` only skips the writes to it (src/commands.c:83, 108). Every caller in `src/` passes the address of a local variable or a field.
- A NULL store passed to the store's own methods is not modelled. The views and handlers that test for NULL take a `StudentDatabase?` and are modelled with that case.
- `size_t` and `int` overflow of the count, the capacity and the index casts is not modelled. These are unbounded naturals.
- `strncpy` truncation of names and programmes in the parser cannot occur, because their length is checked first. Truncation of the copied programme name in the programme table cannot occur either, since stored programmes have at most 64 characters.

## Findings

| source | as written | input that shows it | evidently intended | confidence | as-written member | corrected member |
|---|---|---|---|---|---|---|
| src/commands.c:460-471 | `strtol` returns a 64-bit `long`; the test `value <= 0` runs before the `(int)` cast, so a number past the `int` range passes and is narrowed with wrap-around | the argument `4294967296` is accepted as student id 0 (and `4294967297` as id 1) | numbers outside 1..INT_MAX are rejected with INVALID_ARGUMENT, so an accepted id is always positive | medium, not executed; assumes a 64-bit `long` and a wrapping cast | Commands.StudentIdWraps | Commands.StudentIdChecked |

`Commands.ParseStudentIdArgument` keeps the behaviour as written, since it models the code. `Commands.StudentIdChecked` is the corrected reading, with its positivity proved. `Commands.StudentIdRoundTrip` shows that both readings agree on every id in the `int` range.
