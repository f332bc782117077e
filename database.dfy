// The student-record store: a growable array of records with a count, the
// path of its file and two flags. Every operation that changes the store is
// a method on the class below, proved against the meaning Records and Codec
// give it on the sequence of stored records.

module Database {

  import opened Wrappers
  import opened Status
  import opened Text
  import opened Records
  import opened Codec

  const InitialCapacity: nat := 8
  const MaxFilePathLen: nat := 260

  /**
   * The capacity the store grows to when it must hold `min` records:
   * unchanged when it already can; otherwise the initial capacity for an
   * empty array and double the old capacity for any other, raised to `min`
   * when that is still short.
   */
  function GrownCapacity(capacity: nat, min: nat): (c: nat)
    ensures c >= min && c >= capacity
    ensures capacity >= min ==> c == capacity
    ensures capacity < min ==> c <= if 2 * min > InitialCapacity then 2 * min else InitialCapacity
  {
    if capacity >= min then capacity
    else
      var doubled := if capacity == 0 then InitialCapacity else capacity * 2;
      if doubled < min then min else doubled
  }

  /**
   * Growing for one more record when the array is full: the first
   * allocation holds eight, every later one doubles.
   */
  lemma GrowthForAppend(capacity: nat)
    ensures GrownCapacity(capacity, capacity + 1) == if capacity == 0 then InitialCapacity else 2 * capacity
  {
  }

  /** What the caller's file holds when the store writes it. */
  datatype WriteOutcome = OpenFails | CloseFails | Written

  /**
   * What opening a file makes of the store: a missing or empty path is
   * INVALID_ARGUMENT, a file that cannot be opened is I/O, a path too long
   * to keep is INVALID_ARGUMENT; otherwise the file's records or the status
   * reading it reported.
   */
  function OpenOutcome(path: Option<string>, file: Option<seq<string>>): Result<seq<Record>>
  {
    if path.None? || path.value == [] then Failure(InvalidArgument)
    else if file.None? then Failure(Io)
    else if |path.value| >= MaxFilePathLen then Failure(InvalidArgument)
    else LoadLines(file.value)
  }

  /**
   * Opening either fails with one of four statuses or yields valid records
   * with distinct ids.
   */
  lemma OpenKeepsInvariant(path: Option<string>, file: Option<seq<string>>)
    ensures OpenOutcome(path, file).Success? ==> StoreInvariant(OpenOutcome(path, file).value)
    ensures OpenOutcome(path, file).Failure? ==>
      OpenOutcome(path, file).status in {InvalidArgument, Io, ParseError, Duplicate}
  {
    if file.Some? {
      LoadKeepsInvariant(file.value);
    }
  }

  /**
   * What a save leaves in the file, reopened through the same path: the
   * same records in the same order, marks rounded to two decimals, when no
   * name or programme holds a tab, a line break or a NUL, or starts or ends
   * with whitespace.
   */
  lemma SaveThenOpen(path: string, rs: seq<Record>)
    requires 0 < |path| < MaxFilePathLen
    requires StoreInvariant(rs)
    requires forall k :: 0 <= k < |rs| ==> Storable(rs[k].name) && Storable(rs[k].programme)
    ensures OpenOutcome(Some(path), Some(SaveLines(rs))) == Success(RoundedMarks(rs))
  {
    SaveLoadRoundTrip(rs);
  }

  /**
   * `memmove` of the records after `index` one slot down: the first
   * `n - 1` slots then hold the first `n` records without the one at
   * `index`, in order.
   */
  method CloseGap(a: array<Record>, index: nat, n: nat)
    requires index < n <= a.Length
    modifies a
    ensures a[..n - 1] == old(a[..index]) + old(a[index + 1..n])
    ensures a[n - 1..] == old(a[n - 1..])
  {
    ghost var before := a[..];
    var k := index;
    while k + 1 < n
      invariant index <= k < n
      invariant a[..index] == before[..index]
      invariant forall j :: index <= j < k ==> a[j] == before[j + 1]
      invariant a[k..] == before[k..]
      modifies a
    {
      a[k] := a[k + 1];
      k := k + 1;
    }
    ShiftedDown(a[..], before, index, n);
  }

  /** Slots `index` to `n - 2` holding their right neighbours: the record at `index` is gone. */
  lemma ShiftedDown(x: seq<Record>, before: seq<Record>, index: nat, n: nat)
    requires index < n <= |x| == |before| && x[..index] == before[..index]
    requires forall j :: index <= j < n - 1 ==> x[j] == before[j + 1]
    ensures x[..n - 1] == before[..index] + before[index + 1..n]
  {
    var joined := before[..index] + before[index + 1..n];
    forall j | 0 <= j < n - 1
      ensures x[j] == joined[j]
    {
      if j < index {
        assert x[j] == x[..index][j];
      }
    }
  }

  /** The slices of a prefix are the slices of the whole. */
  lemma SliceParts(a: seq<Record>, n: nat, index: nat)
    requires index < n <= |a|
    ensures a[..index] == a[..n][..index] && a[index + 1..n] == a[..n][index + 1..]
  {
  }

  /** One step of Scan, at line `i`, in each of its cases. */
  lemma ScanAt(lines: seq<string>, i: nat, headerSeen: bool, rows: seq<Record>)
    requires i < |lines|
    ensures var t := Trimmed(lines[i]);
      var here := Scan(lines[i..], headerSeen, rows);
      && (t == [] ==> here == Scan(lines[i + 1..], headerSeen, rows))
      && (t != [] && !headerSeen ==> here == Scan(lines[i + 1..], IsHeader(t), rows))
      && (t != [] && headerSeen && ParseLine(t).Failure? ==> here == Failure(ParseError))
      && (t != [] && headerSeen && ParseLine(t).Success? ==>
            var a := Added(rows, ParseLine(t).value, true);
            here == if a.Failure? then Failure(a.status) else Scan(lines[i + 1..], true, a.value))
  {
    assert lines[i..][0] == lines[i] && lines[i..][1..] == lines[i + 1..];
  }

  /** One line as the open loop sees it: read into a buffer and trimmed in place. */
  method ReadTrimmed(line: string) returns (t: string)
    requires Nul !in line
    ensures t == Trimmed(line)
  {
    var buf := new char[|line| + 1](k => if 0 <= k < |line| then line[k] else Nul);
    assert buf[..][0..|line|] == line;
    CStrIs(buf[..], 0, line);
    TrimAt(buf, 0);
    t := CStr(buf[..], 0);
  }

  class StudentDatabase {
    var records: array<Record>
    var count: nat
    var capacity: nat
    var filePath: string
    var isLoaded: bool
    var isDirty: bool

    /** The array is as large as the capacity, the first `count` slots hold valid records with distinct ids. */
    ghost predicate Valid()
      reads this, records
    {
      && records.Length == capacity
      && count <= capacity
      && StoreInvariant(records[..count])
      && |filePath| < MaxFilePathLen
    }

    /** The stored records, in storage order. */
    function Records(): seq<Record>
      reads this, records
      requires Valid()
    {
      records[..count]
    }

    /** An empty store: no records, no array, no file, neither loaded nor dirty. */
    constructor Init()
      ensures Valid()
      ensures Records() == [] && capacity == 0 && filePath == [] && !isLoaded && !isDirty
      ensures fresh(records)
    {
      records := new Record[0];
      count := 0;
      capacity := 0;
      filePath := [];
      isLoaded := false;
      isDirty := false;
    }

    /**
     * Remembering the file path: NULL, empty and paths of 260 characters
     * or more are INVALID_ARGUMENT and leave the old path; any other path
     * replaces it.
     */
    method SetFile(path: Option<string>) returns (s: CmsStatus)
      requires Valid()
      modifies this
      ensures Valid()
      ensures s == Ok <==> path.Some? && 0 < |path.value| < MaxFilePathLen
      ensures s != Ok ==> s == InvalidArgument
      ensures filePath == if s == Ok then path.value else old(filePath)
      ensures records == old(records) && count == old(count) && capacity == old(capacity)
      ensures isLoaded == old(isLoaded) && isDirty == old(isDirty)
    {
      if path.None? || path.value == [] {
        return InvalidArgument;
      }
      if |path.value| >= MaxFilePathLen {
        return InvalidArgument;
      }
      filePath := path.value;
      return Ok;
    }

    /** The remembered path, or NULL when there is none. */
    function GetFile(): (p: Option<string>)
      reads this
      ensures p.Some? <==> filePath != []
      ensures p.Some? ==> p.value == filePath
    {
      if filePath == [] then None else Some(filePath)
    }

    /** The position of the first record with the id, or -1: a scan in storage order. */
    method FindIndex(id: int) returns (i: int)
      requires Valid()
      ensures i == FirstIndexOf(Records(), id)
    {
      var k := 0;
      while k < count
        invariant k <= count
        invariant forall j :: 0 <= j < k ==> records[j].id != id
      {
        if records[k].id == id {
          return k;
        }
        k := k + 1;
      }
      return -1;
    }

    /**
     * Making room for `min` records: the capacity becomes
     * GrownCapacity(capacity, min), the records are carried over.
     */
    method EnsureCapacity(min: nat)
      requires Valid()
      modifies this
      ensures Valid()
      ensures capacity == GrownCapacity(old(capacity), min)
      ensures count == old(count) && Records() == old(Records())
      ensures records == old(records) || fresh(records)
      ensures filePath == old(filePath) && isLoaded == old(isLoaded) && isDirty == old(isDirty)
    {
      if capacity >= min {
        return;
      }
      var newCapacity := if capacity == 0 then InitialCapacity else capacity * 2;
      if newCapacity < min {
        newCapacity := min;
      }
      var grown := new Record[newCapacity];
      var i := 0;
      while i < count
        invariant i <= count
        invariant grown[..i] == records[..i]
        modifies grown
      {
        grown[i] := records[i];
        i := i + 1;
      }
      assert grown[..count] == records[..count];
      records := grown;
      capacity := newCapacity;
    }

    /**
     * Adding a record as Added describes it: on failure nothing changes;
     * on success the records become Added's, the dirty flag is raised when
     * asked for, and an appended record may grow the capacity.
     */
    method AddRecord(r: Record, failOnDuplicate: bool, markDirty: bool) returns (s: CmsStatus)
      requires Valid()
      modifies this, records
      ensures Valid()
      ensures s == Ok <==> Added(old(Records()), r, failOnDuplicate).Success?
      ensures s != Ok ==> s == Added(old(Records()), r, failOnDuplicate).status
      ensures s != Ok ==> Records() == old(Records()) && isDirty == old(isDirty)
      ensures s == Ok ==> Records() == Added(old(Records()), r, failOnDuplicate).value
      ensures s == Ok ==> isDirty == (old(isDirty) || markDirty)
      ensures capacity == if s == Ok && !HasId(old(Records()), r.id) then GrownCapacity(old(capacity), old(count) + 1) else old(capacity)
      ensures records == old(records) || fresh(records)
      ensures filePath == old(filePath) && isLoaded == old(isLoaded)
    {
      ghost var rs := Records();
      AddedKeepsInvariant(rs, r, failOnDuplicate);
      s := ValidateRecord(r);
      if s != Ok {
        return;
      }
      var index := FindIndex(r.id);
      if index >= 0 {
        if failOnDuplicate {
          return Duplicate;
        }
        records[index] := r;
        assert records[..count] == rs[index := r];
        if markDirty {
          isDirty := true;
        }
        return Ok;
      }
      Append(r);
      if markDirty {
        isDirty := true;
      }
    }

    /** The new-record path of `add_record`: grow the array if full, then store the record after the last. */
    method Append(r: Record)
      requires Valid() && StoreInvariant(Records() + [r])
      modifies this, records
      ensures Valid() && Records() == old(Records()) + [r]
      ensures capacity == GrownCapacity(old(capacity), old(count) + 1)
      ensures records == old(records) || fresh(records)
      ensures filePath == old(filePath) && isLoaded == old(isLoaded) && isDirty == old(isDirty)
    {
      ghost var rs := Records();
      EnsureCapacity(count + 1);
      records[count] := r;
      count := count + 1;
      assert records[..count] == rs + [r];
    }

    /** Insertion: ERROR on a store not loaded, otherwise an add that refuses duplicates and marks the store dirty. */
    method Insert(r: Record) returns (s: CmsStatus)
      requires Valid()
      modifies this, records
      ensures Valid()
      ensures !old(isLoaded) ==> s == Error
      ensures old(isLoaded) ==> (s == Ok <==> Added(old(Records()), r, true).Success?)
      ensures old(isLoaded) && s != Ok ==> s == Added(old(Records()), r, true).status
      ensures s != Ok ==> Records() == old(Records()) && isDirty == old(isDirty) && capacity == old(capacity)
      ensures s == Ok ==> Records() == old(Records()) + [r] && isDirty
      ensures s == Ok ==> capacity == GrownCapacity(old(capacity), old(count) + 1)
      ensures records == old(records) || fresh(records)
      ensures filePath == old(filePath) && isLoaded == old(isLoaded)
    {
      if !isLoaded {
        return Error;
      }
      InsertOutcome(Records(), r);
      s := AddRecord(r, true, true);
    }

    /**
     * Updating the record with the new record's id: ERROR when not loaded,
     * then as Updated; on failure nothing changes, on success only that
     * slot, and the store becomes dirty.
     */
    method Update(r: Record) returns (s: CmsStatus)
      requires Valid()
      modifies this, records
      ensures Valid()
      ensures !old(isLoaded) ==> s == Error
      ensures old(isLoaded) ==> (s == Ok <==> Updated(old(Records()), r).Success?)
      ensures old(isLoaded) && s != Ok ==> s == Updated(old(Records()), r).status
      ensures s != Ok ==> Records() == old(Records()) && isDirty == old(isDirty)
      ensures s == Ok ==> Records() == Updated(old(Records()), r).value && isDirty
      ensures records == old(records) && capacity == old(capacity)
      ensures filePath == old(filePath) && isLoaded == old(isLoaded)
    {
      if !isLoaded {
        return Error;
      }
      ghost var rs := Records();
      UpdateKeepsIds(rs, r);
      s := ValidateRecord(r);
      if s != Ok {
        return;
      }
      var index := FindIndex(r.id);
      if index < 0 {
        return NotFound;
      }
      records[index] := r;
      assert records[..count] == rs[index := r];
      isDirty := true;
    }

    /**
     * Deleting the record with the id: ERROR when not loaded, then as
     * Deleted, the later records moved one slot down in place; `deleted`
     * tells whether a record went.
     */
    method Delete(id: int) returns (s: CmsStatus, deleted: bool)
      requires Valid()
      modifies this, records
      ensures Valid()
      ensures deleted <==> s == Ok
      ensures !old(isLoaded) ==> s == Error
      ensures old(isLoaded) ==> (s == Ok <==> Deleted(old(Records()), id).Success?)
      ensures old(isLoaded) && s != Ok ==> s == Deleted(old(Records()), id).status
      ensures s != Ok ==> Records() == old(Records()) && isDirty == old(isDirty)
      ensures s == Ok ==> Records() == Deleted(old(Records()), id).value && isDirty
      ensures records == old(records) && capacity == old(capacity)
      ensures filePath == old(filePath) && isLoaded == old(isLoaded)
    {
      if !isLoaded {
        return Error, false;
      }
      ghost var rs := Records();
      DeleteRemoves(rs, id);
      var index := FindIndex(id);
      if index < 0 {
        return NotFound, false;
      }
      ghost var before := records[..];
      SliceParts(before, count, index);
      CloseGap(records, index, count);
      count := count - 1;
      assert Records() == rs[..index] + rs[index + 1..];
      isDirty := true;
      return Ok, true;
    }

    /** The record with the id: ERROR when not loaded, then as Queried. */
    method Query(id: int) returns (r: Result<Record>)
      requires Valid()
      ensures !isLoaded ==> r == Failure(Error)
      ensures isLoaded ==> r == Queried(Records(), id)
    {
      if !isLoaded {
        return Failure(Error);
      }
      var index := FindIndex(id);
      if index < 0 {
        return Failure(NotFound);
      }
      return Success(records[index]);
    }

    /**
     * Taking over another store's contents; the other store is left empty,
     * not loaded, clean and without a path.
     */
    method Move(src: StudentDatabase)
      requires Valid() && src.Valid() && src != this
      modifies this, src
      ensures Valid() && src.Valid()
      ensures records == old(src.records) && count == old(src.count) && capacity == old(src.capacity)
      ensures Records() == old(src.Records())
      ensures filePath == old(src.filePath) && isLoaded == old(src.isLoaded) && isDirty == old(src.isDirty)
      ensures src.Records() == [] && src.capacity == 0 && src.filePath == []
      ensures !src.isLoaded && !src.isDirty
    {
      records := src.records;
      count := src.count;
      capacity := src.capacity;
      filePath := src.filePath;
      isLoaded := src.isLoaded;
      isDirty := src.isDirty;
      src.records := new Record[0];
      src.count := 0;
      src.capacity := 0;
      src.isLoaded := false;
      src.isDirty := false;
      src.filePath := [];
    }

    /**
     * The reading loop of open, on a fresh scratch store: each line is
     * trimmed, blank lines are skipped, lines up to the header are
     * skipped, and every later line is parsed and added as a new record.
     */
    method ReadLines(lines: seq<string>) returns (s: CmsStatus)
      requires Valid() && Records() == []
      requires forall k :: 0 <= k < |lines| ==> Nul !in lines[k]
      modifies this, records
      ensures Valid()
      ensures s == Ok <==> LoadLines(lines).Success?
      ensures s != Ok ==> s == LoadLines(lines).status
      ensures s == Ok ==> Records() == LoadLines(lines).value
      ensures records == old(records) || fresh(records)
      ensures filePath == old(filePath) && isLoaded == old(isLoaded) && isDirty == old(isDirty)
    {
      var headerSeen := false;
      var i := 0;
      while i < |lines|
        invariant i <= |lines|
        invariant Valid()
        invariant Scan(lines[i..], headerSeen, Records()) == LoadLines(lines)
        invariant records == old(records) || fresh(records)
        invariant filePath == old(filePath) && isLoaded == old(isLoaded) && isDirty == old(isDirty)
      {
        ScanAt(lines, i, headerSeen, Records());
        var t := ReadTrimmed(lines[i]);
        if t == [] {
          i := i + 1;
          continue;
        }
        if !headerSeen {
          headerSeen := Contains(t, "ID") && Contains(t, "Mark");
          i := i + 1;
          continue;
        }
        var r := ParseRecordLine(t);
        if r.Failure? {
          return ParseError;
        }
        s := AddRecord(r.value, true, false);
        if s != Ok {
          return;
        }
        i := i + 1;
      }
      if !headerSeen {
        return ParseError;
      }
      return Ok;
    }

    /**
     * Opening a file, all or nothing: the outcome is OpenOutcome; on
     * success the store holds the file's records, remembers the path, is
     * loaded and clean; on failure it is left as it was.
     */
    method Open(path: Option<string>, file: Option<seq<string>>) returns (s: CmsStatus)
      requires Valid()
      requires file.Some? ==> forall k :: 0 <= k < |file.value| ==> Nul !in file.value[k]
      modifies this
      ensures Valid()
      ensures s == Ok <==> OpenOutcome(path, file).Success?
      ensures s != Ok ==> s == OpenOutcome(path, file).status
      ensures s == Ok ==> Records() == OpenOutcome(path, file).value
      ensures s == Ok ==> filePath == path.value && isLoaded && !isDirty
      ensures s != Ok ==> records == old(records) && count == old(count) && capacity == old(capacity)
      ensures s != Ok ==> filePath == old(filePath) && isLoaded == old(isLoaded) && isDirty == old(isDirty)
    {
      if path.None? || path.value == [] {
        return InvalidArgument;
      }
      if file.None? {
        return Io;
      }
      var temp := new StudentDatabase.Init();
      s := temp.SetFile(path);
      if s != Ok {
        return;
      }
      s := temp.ReadLines(file.value);
      if s != Ok {
        return;
      }
      temp.isLoaded := true;
      temp.isDirty := false;
      Move(temp);
    }

    /**
     * Saving: ERROR when not loaded; a given non-empty path replaces the
     * remembered one first (INVALID_ARGUMENT when it cannot); without a
     * path it is INVALID_ARGUMENT; a file that cannot be opened or closed
     * is I/O. The lines written are the two header lines and one line per
     * record; only a save that succeeds makes the store clean.
     */
    method Save(path: Option<string>, outcome: WriteOutcome) returns (s: CmsStatus, written: seq<string>)
      requires Valid()
      modifies this
      ensures Valid()
      ensures !old(isLoaded) ==> s == Error && filePath == old(filePath)
      ensures old(isLoaded) && path.Some? && path.value != [] ==>
        filePath == (if |path.value| < MaxFilePathLen then path.value else old(filePath))
      ensures old(isLoaded) && (path.None? || path.value == []) ==> filePath == old(filePath)
      ensures old(isLoaded) && path.Some? && |path.value| >= MaxFilePathLen ==> s == InvalidArgument
      ensures s == Ok <==> (old(isLoaded) && filePath != [] && outcome == Written
                            && (path.Some? ==> |path.value| < MaxFilePathLen))
      ensures s != Ok ==> isDirty == old(isDirty)
      ensures s == Ok ==> !isDirty && written == SaveLines(Records())
      ensures old(isLoaded) && filePath != [] && (path.Some? ==> |path.value| < MaxFilePathLen) && outcome != Written
        ==> s == Io
      ensures outcome == CloseFails && s == Io ==> written == SaveLines(Records())
      ensures s != Ok && s != Io ==> written == []
      ensures outcome == OpenFails ==> written == []
      ensures old(isLoaded) && filePath == [] ==> s == InvalidArgument
      ensures records == old(records) && count == old(count) && capacity == old(capacity)
      ensures isLoaded == old(isLoaded)
    {
      written := [];
      if !isLoaded {
        return Error, written;
      }
      if path.Some? && path.value != [] {
        s := SetFile(path);
        if s != Ok {
          return;
        }
      }
      var target := GetFile();
      if target.None? {
        return InvalidArgument, written;
      }
      if outcome == OpenFails {
        return Io, written;
      }
      written := WriteLines();
      if outcome == CloseFails {
        return Io, written;
      }
      isDirty := false;
      return Ok, written;
    }

    /** The lines `database_save` writes: the two header lines, then one line per record in order. */
    method WriteLines() returns (written: seq<string>)
      requires Valid()
      ensures written == SaveLines(Records())
    {
      written := [TableLine, HeaderLine];
      var i := 0;
      while i < count
        invariant i <= count
        invariant written == [TableLine, HeaderLine] + FormatLines(records[..i])
      {
        assert FormatLines(records[..i + 1]) == FormatLines(records[..i]) + [FormatLine(records[i])];
        written := written + [FormatLine(records[i])];
        i := i + 1;
      }
      assert records[..count] == Records();
    }
  }
}
