// The read-only views of the store: the listing sorted on a copy of the
// records, the highest and lowest mark with the students who have them, and
// the number of students per programme. None of them changes the store.

module Summary {

  import opened Wrappers
  import opened Status
  import opened Records
  import opened Database

  datatype SortKey = KeyNone | KeyId | KeyMark
  datatype SortOrder = Asc | Desc

  // ---------------------------------------------------------------------
  // The comparator

  /**
   * The comparator the sort uses, with the key and order it reads from
   * globals passed in: -1, 0 or 1 by id or by mark, negated for a
   * descending order; always 0 without a key.
   */
  function CompareRecords(a: Record, b: Record, key: SortKey, order: SortOrder): (c: int)
    ensures -1 <= c <= 1
    ensures key == KeyNone ==> c == 0
  {
    var base :=
      match key
      case KeyId => if a.id < b.id then -1 else if a.id > b.id then 1 else 0
      case KeyMark => if a.mark < b.mark then -1 else if a.mark > b.mark then 1 else 0
      case KeyNone => 0;
    if order == Desc then -base else base
  }

  /** `a` may stand before `b` in the sorted listing. */
  predicate InOrder(a: Record, b: Record, key: SortKey, order: SortOrder)
  {
    CompareRecords(a, b, key, order) <= 0
  }

  /**
   * What the comparator means: ascending or descending id or mark;
   * swapping its arguments negates it.
   */
  lemma CompareMeaning(a: Record, b: Record, key: SortKey, order: SortOrder)
    ensures CompareRecords(a, b, key, order) == -CompareRecords(b, a, key, order)
    ensures key == KeyId && order == Asc ==> (InOrder(a, b, key, order) <==> a.id <= b.id)
    ensures key == KeyId && order == Desc ==> (InOrder(a, b, key, order) <==> a.id >= b.id)
    ensures key == KeyMark && order == Asc ==> (InOrder(a, b, key, order) <==> a.mark <= b.mark)
    ensures key == KeyMark && order == Desc ==> (InOrder(a, b, key, order) <==> a.mark >= b.mark)
  {
  }

  /** The comparator is a total preorder, as `qsort` needs. */
  lemma InOrderPreorder(a: Record, b: Record, c: Record, key: SortKey, order: SortOrder)
    ensures InOrder(a, a, key, order)
    ensures InOrder(a, b, key, order) || InOrder(b, a, key, order)
    ensures InOrder(a, b, key, order) && InOrder(b, c, key, order) ==> InOrder(a, c, key, order)
  {
  }

  predicate Sorted(s: seq<Record>, key: SortKey, order: SortOrder)
  {
    forall i, j :: 0 <= i < j < |s| ==> InOrder(s[i], s[j], key, order)
  }

  // ---------------------------------------------------------------------
  // The sorted listing

  /** The position of a least record of `a[from..]` under the comparator. */
  method LeastFrom(a: array<Record>, from: nat, key: SortKey, order: SortOrder) returns (m: nat)
    requires from < a.Length
    ensures from <= m < a.Length
    ensures forall q :: from <= q < a.Length ==> InOrder(a[m], a[q], key, order)
  {
    m := from;
    var k := from + 1;
    while k < a.Length
      invariant from <= m < k <= a.Length
      invariant forall q :: from <= q < k ==> InOrder(a[m], a[q], key, order)
    {
      if CompareRecords(a[k], a[m], key, order) < 0 {
        forall q | from <= q < k
          ensures InOrder(a[k], a[q], key, order)
        {
          InOrderPreorder(a[k], a[m], a[q], key, order);
        }
        m := k;
      }
      k := k + 1;
    }
  }

  /** Exchanging two slots keeps the same records. */
  method Swap(a: array<Record>, i: nat, j: nat)
    requires i < a.Length && j < a.Length
    modifies a
    ensures a[..] == old(a[..])[i := old(a[j])][j := old(a[i])]
    ensures multiset(a[..]) == multiset(old(a[..]))
  {
    a[i], a[j] := a[j], a[i];
  }

  /**
   * Sorting the copy in place (a selection sort stands for `qsort`): the
   * array ends up ordered by the comparator and holds the same records.
   */
  method SortInPlace(a: array<Record>, key: SortKey, order: SortOrder)
    modifies a
    ensures Sorted(a[..], key, order)
    ensures multiset(a[..]) == multiset(old(a[..]))
  {
    var i := 0;
    while i < a.Length
      invariant i <= a.Length
      invariant SelectedUpTo(a[..], i, key, order)
      invariant multiset(a[..]) == multiset(old(a[..]))
    {
      var m := LeastFrom(a, i, key, order);
      ghost var before := a[..];
      Swap(a, i, m);
      SelectionStep(before, a[..], i, m, key, order);
      i := i + 1;
    }
  }

  /** What selection sort has done after `i` passes: a sorted front, none of it after anything behind. */
  predicate SelectedUpTo(s: seq<Record>, i: nat, key: SortKey, order: SortOrder)
  {
    && (forall p, q :: 0 <= p < q < i && q < |s| ==> InOrder(s[p], s[q], key, order))
    && (forall p, q :: 0 <= p < i <= q < |s| ==> InOrder(s[p], s[q], key, order))
  }

  /** Swapping a least record of the rest to position `i` extends the sorted front. */
  lemma SelectionStep(s: seq<Record>, t: seq<Record>, i: nat, m: nat, key: SortKey, order: SortOrder)
    requires i <= m < |s| && SelectedUpTo(s, i, key, order)
    requires forall q :: i <= q < |s| ==> InOrder(s[m], s[q], key, order)
    requires t == s[i := s[m]][m := s[i]]
    ensures SelectedUpTo(t, i + 1, key, order)
  {
    forall p, q | 0 <= p < i + 1 <= q < |t|
      ensures InOrder(t[p], t[q], key, order)
    {
      if p == i && q == m {
        assert t[q] == s[i];
      } else if p == i {
        assert t[q] == s[q];
      }
    }
  }

  /** The copy of the stored records that the sorted listing works on. */
  method CopyRecords(db: StudentDatabase) returns (copy: array<Record>)
    requires db.Valid()
    ensures fresh(copy) && copy[..] == db.Records()
  {
    copy := new Record[db.count];
    var i := 0;
    while i < db.count
      invariant i <= db.count
      invariant copy[..i] == db.records[..i]
    {
      copy[i] := db.records[i];
      i := i + 1;
    }
  }

  /**
   * SHOW ALL, with or without a sort: INVALID_ARGUMENT without a store,
   * ERROR when it is not loaded, otherwise OK with the records listed in
   * storage order (no key) or sorted by the key on a copy; the store
   * itself is not touched.
   */
  method ShowAllSorted(db: StudentDatabase?, key: SortKey, order: SortOrder) returns (s: CmsStatus, shown: seq<Record>)
    requires db != null ==> db.Valid()
    ensures db == null ==> s == InvalidArgument && shown == []
    ensures db != null && !db.isLoaded ==> s == Error && shown == []
    ensures db != null && db.isLoaded ==> s == Ok
    ensures db != null && db.isLoaded ==> multiset(shown) == multiset(db.Records())
    ensures db != null && db.isLoaded ==> Sorted(shown, key, order)
    ensures db != null && db.isLoaded && key == KeyNone ==> shown == db.Records()
  {
    if db == null {
      return InvalidArgument, [];
    }
    if !db.isLoaded {
      return Error, [];
    }
    if key == KeyNone || db.count == 0 {
      return Ok, db.records[..db.count];
    }
    var copy := CopyRecords(db);
    SortInPlace(copy, key, order);
    return Ok, copy[..];
  }

  /**
   * With the id as key, ids distinct and the order fixed, there is only
   * one sorted arrangement of the records: the listing does not depend on
   * how the sort breaks ties.
   */
  lemma {:induction false} SortedByIdUnique(s: seq<Record>, t: seq<Record>, order: SortOrder)
    requires DistinctIds(s) && multiset(s) == multiset(t)
    requires Sorted(s, KeyId, order) && Sorted(t, KeyId, order)
    ensures s == t
    decreases |s|
  {
    if s != [] {
      HeadsEqual(s, t, order);
      SameTails(s, t);
      SortedTail(s, KeyId, order);
      SortedTail(t, KeyId, order);
      assert DistinctIds(s[1..]) by {
        forall i, j | 0 <= i < j < |s[1..]|
          ensures s[1..][i].id != s[1..][j].id
        {
          assert s[1..][i] == s[i + 1] && s[1..][j] == s[j + 1];
        }
      }
      SortedByIdUnique(s[1..], t[1..], order);
      assert s == [s[0]] + s[1..] && t == [t[0]] + t[1..];
    }
  }

  /** Dropping the same first record from both sides keeps equal multisets equal. */
  lemma SameTails(s: seq<Record>, t: seq<Record>)
    requires s != [] && t != [] && s[0] == t[0] && multiset(s) == multiset(t)
    ensures multiset(s[1..]) == multiset(t[1..])
  {
    assert s == [s[0]] + s[1..] && t == [t[0]] + t[1..];
    assert multiset(s) == multiset{s[0]} + multiset(s[1..]);
    assert multiset(t) == multiset{t[0]} + multiset(t[1..]);
    assert multiset(s[1..]) == multiset(s) - multiset{s[0]};
    assert multiset(t[1..]) == multiset(t) - multiset{t[0]};
  }

  /** The tail of a sorted sequence is sorted. */
  lemma SortedTail(s: seq<Record>, key: SortKey, order: SortOrder)
    requires s != [] && Sorted(s, key, order)
    ensures Sorted(s[1..], key, order)
  {
    forall i, j | 0 <= i < j < |s[1..]|
      ensures InOrder(s[1..][i], s[1..][j], key, order)
    {
      assert s[1..][i] == s[i + 1] && s[1..][j] == s[j + 1];
    }
  }

  /** Two sorted arrangements of the same records with distinct ids start alike. */
  lemma HeadsEqual(s: seq<Record>, t: seq<Record>, order: SortOrder)
    requires s != [] && DistinctIds(s) && multiset(s) == multiset(t)
    requires Sorted(s, KeyId, order) && Sorted(t, KeyId, order)
    ensures |t| == |s| && t[0] == s[0]
  {
    assert |t| == |s| by { assert |multiset(t)| == |multiset(s)|; }
    assert s[0] in multiset(t);
    assert t[0] in multiset(s);
    var i :| 0 <= i < |t| && t[i] == s[0];
    var j :| 0 <= j < |s| && s[j] == t[0];
    CompareMeaning(s[0], s[j], KeyId, order);
    CompareMeaning(t[0], t[i], KeyId, order);
    assert j == 0;
  }

  // ---------------------------------------------------------------------
  // Highest and lowest mark

  /** `m` is the highest mark of the records. */
  predicate IsHighest(rs: seq<Record>, m: real)
  {
    (exists k :: 0 <= k < |rs| && rs[k].mark == m) && forall k :: 0 <= k < |rs| ==> rs[k].mark <= m
  }

  /** `m` is the lowest mark of the records. */
  predicate IsLowest(rs: seq<Record>, m: real)
  {
    (exists k :: 0 <= k < |rs| && rs[k].mark == m) && forall k :: 0 <= k < |rs| ==> m <= rs[k].mark
  }

  /** The names of the records with mark `m`, in storage order. */
  function NamesWithMark(rs: seq<Record>, m: real): (ns: seq<string>)
    ensures |ns| <= |rs|
  {
    if rs == [] then []
    else
      var last := rs[|rs| - 1];
      NamesWithMark(rs[..|rs| - 1], m) + (if last.mark == m then [last.name] else [])
  }

  /** A name is listed exactly when some record with that name has the mark. */
  lemma {:induction false} NamesWithMarkMembers(rs: seq<Record>, m: real, n: string)
    ensures n in NamesWithMark(rs, m) <==> exists k :: 0 <= k < |rs| && rs[k].mark == m && rs[k].name == n
    decreases |rs|
  {
    if rs != [] {
      var init := rs[..|rs| - 1];
      NamesWithMarkMembers(init, m, n);
      if n in NamesWithMark(init, m) {
        var k :| 0 <= k < |init| && init[k].mark == m && init[k].name == n;
        assert rs[k] == init[k];
      }
      if exists k :: 0 <= k < |rs| && rs[k].mark == m && rs[k].name == n {
        var k :| 0 <= k < |rs| && rs[k].mark == m && rs[k].name == n;
        if k < |init| {
          assert init[k] == rs[k];
        }
      }
    }
  }

  /** The figures SHOW SUMMARY prints, apart from the average. */
  datatype MarkSummary = MarkSummary(count: nat, highest: real, lowest: real,
                                     highestNames: seq<string>, lowestNames: seq<string>)

  /** The names of the stored records with mark `m`, gathered in storage order. */
  method CollectNames(db: StudentDatabase, m: real) returns (names: seq<string>)
    requires db.Valid()
    ensures names == NamesWithMark(db.Records(), m)
  {
    names := [];
    var i := 0;
    while i < db.count
      invariant i <= db.count
      invariant names == NamesWithMark(db.records[..i], m)
    {
      assert db.records[..i + 1][..i] == db.records[..i];
      if db.records[i].mark == m {
        names := names + [db.records[i].name];
      }
      i := i + 1;
    }
    assert db.records[..db.count] == db.Records();
  }

  /** The scan for the highest and the lowest mark of a non-empty store. */
  method MarkRange(db: StudentDatabase) returns (highest: real, lowest: real)
    requires db.Valid() && db.count > 0
    ensures IsHighest(db.Records(), highest) && IsLowest(db.Records(), lowest)
  {
    highest := db.records[0].mark;
    lowest := db.records[0].mark;
    var i := 0;
    while i < db.count
      invariant i <= db.count
      invariant exists k :: 0 <= k < db.count && db.records[k].mark == highest
      invariant exists k :: 0 <= k < db.count && db.records[k].mark == lowest
      invariant forall k :: 0 <= k < i ==> lowest <= db.records[k].mark <= highest
    {
      if db.records[i].mark > highest {
        highest := db.records[i].mark;
      }
      if db.records[i].mark < lowest {
        lowest := db.records[i].mark;
      }
      i := i + 1;
    }
  }

  /**
   * SHOW SUMMARY: INVALID_ARGUMENT without a store, ERROR when it is not
   * loaded, nothing to report for an empty store; otherwise the number of
   * records, the highest and the lowest mark, and the names of the
   * students with each, in storage order.
   */
  method ShowSummary(db: StudentDatabase?) returns (s: CmsStatus, summary: Option<MarkSummary>)
    requires db != null ==> db.Valid()
    ensures db == null ==> s == InvalidArgument && summary == None
    ensures db != null && !db.isLoaded ==> s == Error && summary == None
    ensures db != null && db.isLoaded ==> s == Ok
    ensures summary.Some? <==> db != null && db.isLoaded && db.count > 0
    ensures summary.Some? ==>
      var rs, v := db.Records(), summary.value;
      && v.count == |rs|
      && IsHighest(rs, v.highest) && IsLowest(rs, v.lowest)
      && v.highestNames == NamesWithMark(rs, v.highest)
      && v.lowestNames == NamesWithMark(rs, v.lowest)
  {
    if db == null {
      return InvalidArgument, None;
    }
    if !db.isLoaded {
      return Error, None;
    }
    if db.count == 0 {
      return Ok, None;
    }
    var highest, lowest := MarkRange(db);
    var highestNames := CollectNames(db, highest);
    var lowestNames := CollectNames(db, lowest);
    return Ok, Some(MarkSummary(db.count, highest, lowest, highestNames, lowestNames));
  }

  // ---------------------------------------------------------------------
  // Students per programme

  /** One row of the programme table: the programme and how many students take it. */
  datatype ProgrammeStat = ProgrammeStat(name: string, count: nat)

  /** The first of the first `count` rows naming the programme, or -1. */
  function FindProgrammeStat(stats: seq<ProgrammeStat>, count: nat, name: string): (i: int)
    requires count <= |stats|
    ensures -1 <= i < count
    ensures i >= 0 ==> stats[i].name == name && forall k :: 0 <= k < i ==> stats[k].name != name
    ensures i < 0 <==> forall k :: 0 <= k < count ==> stats[k].name != name
  {
    if count == 0 then -1
    else
      var i := FindProgrammeStat(stats, count - 1, name);
      if i >= 0 then i
      else if stats[count - 1].name == name then count - 1
      else -1
  }

  /** Counting one more student of programme `p`: its row goes up by one, or a new row starts. */
  function Tally(stats: seq<ProgrammeStat>, p: string): seq<ProgrammeStat>
  {
    var i := FindProgrammeStat(stats, |stats|, p);
    if i < 0 then stats + [ProgrammeStat(p, 1)]
    else stats[i := ProgrammeStat(p, stats[i].count + 1)]
  }

  /** The programme table of the records, built in storage order. */
  function Stats(rs: seq<Record>): (stats: seq<ProgrammeStat>)
    ensures |stats| <= |rs|
  {
    if rs == [] then []
    else Tally(Stats(rs[..|rs| - 1]), rs[|rs| - 1].programme)
  }

  /** The number of records of programme `p`. */
  function CountOf(rs: seq<Record>, p: string): nat
  {
    if rs == [] then 0
    else CountOf(rs[..|rs| - 1], p) + if rs[|rs| - 1].programme == p then 1 else 0
  }

  /** The position of the first record of programme `p`, or |rs| when there is none. */
  function FirstOf(rs: seq<Record>, p: string): (k: nat)
    ensures k <= |rs|
    ensures k < |rs| ==> rs[k].programme == p
    ensures forall j :: 0 <= j < k ==> rs[j].programme != p
  {
    if rs == [] then 0
    else if rs[0].programme == p then 0
    else 1 + FirstOf(rs[1..], p)
  }

  /** The sum of the counts of a table. */
  function Total(stats: seq<ProgrammeStat>): nat
  {
    if stats == [] then 0 else Total(stats[..|stats| - 1]) + stats[|stats| - 1].count
  }

  /** The programmes the rows of a table name. */
  function Names(stats: seq<ProgrammeStat>): set<string>
  {
    if stats == [] then {} else Names(stats[..|stats| - 1]) + {stats[|stats| - 1].name}
  }

  /** The programmes of the records. */
  function Programmes(rs: seq<Record>): set<string>
  {
    if rs == [] then {} else Programmes(rs[..|rs| - 1]) + {rs[|rs| - 1].programme}
  }

  /** No programme has two rows. */
  predicate DistinctNames(stats: seq<ProgrammeStat>)
  {
    forall i, j :: 0 <= i < j < |stats| ==> stats[i].name != stats[j].name
  }

  /** A programme is named by a table exactly when some row has it. */
  lemma {:induction false} NamesMember(stats: seq<ProgrammeStat>, p: string)
    ensures p in Names(stats) <==> exists i :: 0 <= i < |stats| && stats[i].name == p
    decreases |stats|
  {
    if stats != [] {
      var init := stats[..|stats| - 1];
      NamesMember(init, p);
      if exists i :: 0 <= i < |init| && init[i].name == p {
        var i :| 0 <= i < |init| && init[i].name == p;
        assert stats[i] == init[i];
      }
      if exists i :: 0 <= i < |stats| && stats[i].name == p {
        var i :| 0 <= i < |stats| && stats[i].name == p;
        if i < |init| {
          assert init[i] == stats[i];
        }
      }
    }
  }

  /** A programme is among the records' exactly when some record has it. */
  lemma {:induction false} ProgrammesMember(rs: seq<Record>, p: string)
    ensures p in Programmes(rs) <==> exists k :: 0 <= k < |rs| && rs[k].programme == p
    decreases |rs|
  {
    if rs != [] {
      var init := rs[..|rs| - 1];
      ProgrammesMember(init, p);
      if exists k :: 0 <= k < |init| && init[k].programme == p {
        var k :| 0 <= k < |init| && init[k].programme == p;
        assert rs[k] == init[k];
      }
      if exists k :: 0 <= k < |rs| && rs[k].programme == p {
        var k :| 0 <= k < |rs| && rs[k].programme == p;
        if k < |init| {
          assert init[k] == rs[k];
        }
      }
    }
  }

  /** Rewriting a row without renaming it keeps the names of the table. */
  lemma {:induction false} NamesUpdate(stats: seq<ProgrammeStat>, i: nat, x: ProgrammeStat)
    requires i < |stats| && x.name == stats[i].name
    ensures Names(stats[i := x]) == Names(stats)
    decreases |stats|
  {
    var n := |stats| - 1;
    if i < n {
      assert stats[i := x][..n] == stats[..n][i := x];
      NamesUpdate(stats[..n], i, x);
    } else {
      assert stats[i := x][..n] == stats[..n];
    }
  }

  /** Tallying adds the programme to the names and keeps them distinct. */
  lemma TallyNames(stats: seq<ProgrammeStat>, p: string)
    requires DistinctNames(stats)
    ensures Names(Tally(stats, p)) == Names(stats) + {p}
    ensures DistinctNames(Tally(stats, p))
  {
    var f := FindProgrammeStat(stats, |stats|, p);
    if f < 0 {
      NamesAppended(stats, ProgrammeStat(p, 1));
    } else {
      var ts := stats[f := ProgrammeStat(p, stats[f].count + 1)];
      NamesMember(stats, p);
      NamesUpdate(stats, f, ts[f]);
      assert forall i :: 0 <= i < |ts| ==> ts[i].name == stats[i].name;
    }
  }

  /** A row for a programme not yet named adds that name and keeps the names distinct. */
  lemma NamesAppended(stats: seq<ProgrammeStat>, x: ProgrammeStat)
    requires DistinctNames(stats) && forall k :: 0 <= k < |stats| ==> stats[k].name != x.name
    ensures Names(stats + [x]) == Names(stats) + {x.name}
    ensures DistinctNames(stats + [x])
  {
    var ts := stats + [x];
    assert ts[..|stats|] == stats;
    forall i, j | 0 <= i < j < |ts|
      ensures ts[i].name != ts[j].name
    {
      assert ts[i] == stats[i];
    }
  }

  /**
   * The programme table has one row per distinct programme: no
   * programme twice, and the rows name exactly the records' programmes.
   */
  lemma {:induction false} StatsNames(rs: seq<Record>)
    ensures DistinctNames(Stats(rs))
    ensures Names(Stats(rs)) == Programmes(rs)
    decreases |rs|
  {
    if rs != [] {
      StatsNames(rs[..|rs| - 1]);
      TallyNames(Stats(rs[..|rs| - 1]), rs[|rs| - 1].programme);
    }
  }

  /** Each row counts exactly the records of its programme. */
  lemma {:induction false} StatsCounts(rs: seq<Record>)
    ensures forall i :: 0 <= i < |Stats(rs)| ==> Stats(rs)[i].count == CountOf(rs, Stats(rs)[i].name)
    decreases |rs|
  {
    if rs != [] {
      var init := rs[..|rs| - 1];
      var p := rs[|rs| - 1].programme;
      StatsCounts(init);
      StatsNames(init);
      var ss := Stats(init);
      var f := FindProgrammeStat(ss, |ss|, p);
      var ts := Stats(rs);
      assert ts == Tally(ss, p);
      if f < 0 {
        NamesMember(ss, p);
        CountOfNone(init, p);
      }
    }
  }

  /** Counting a programme that no record has gives zero. */
  lemma {:induction false} CountOfNone(rs: seq<Record>, p: string)
    requires p !in Programmes(rs)
    ensures CountOf(rs, p) == 0
    decreases |rs|
  {
    if rs != [] {
      CountOfNone(rs[..|rs| - 1], p);
    }
  }

  /** The counts add up to the number of records. */
  lemma {:induction false} StatsTotal(rs: seq<Record>)
    ensures Total(Stats(rs)) == |rs|
    decreases |rs|
  {
    if rs != [] {
      var init := rs[..|rs| - 1];
      var p := rs[|rs| - 1].programme;
      StatsTotal(init);
      StatsStep(rs);
      TallyTotal(Stats(init), p);
    }
  }

  /** Counting one more record adds one to the total. */
  lemma TallyTotal(ss: seq<ProgrammeStat>, p: string)
    ensures Total(Tally(ss, p)) == Total(ss) + 1
  {
    var f := FindProgrammeStat(ss, |ss|, p);
    if f < 0 {
      assert (ss + [ProgrammeStat(p, 1)])[..|ss|] == ss;
    } else {
      TotalUpdate(ss, f, ProgrammeStat(p, ss[f].count + 1));
    }
  }

  /** Changing one row's count changes the total by the difference. */
  lemma {:induction false} TotalUpdate(ss: seq<ProgrammeStat>, i: nat, x: ProgrammeStat)
    requires i < |ss|
    ensures Total(ss[i := x]) + ss[i].count == Total(ss) + x.count
    decreases |ss|
  {
    var n := |ss| - 1;
    if i < n {
      assert ss[i := x][..n] == ss[..n][i := x];
      TotalUpdate(ss[..n], i, x);
    } else {
      assert ss[i := x][..n] == ss[..n];
    }
  }

  /** Rows stand in the order their programmes first appear among the records. */
  predicate FirstAppearanceOrder(stats: seq<ProgrammeStat>, rs: seq<Record>)
  {
    forall i, j :: 0 <= i < j < |stats| ==> FirstOf(rs, stats[i].name) < FirstOf(rs, stats[j].name)
  }

  /** The programme table lists programmes in the order they first appear. */
  lemma {:induction false} StatsOrder(rs: seq<Record>)
    ensures FirstAppearanceOrder(Stats(rs), rs)
    decreases |rs|
  {
    if rs != [] {
      var init := rs[..|rs| - 1];
      StatsOrder(init);
      StatsNames(init);
      TallyOrder(Stats(init), init, rs);
    }
  }

  /** One more record keeps the table in first-appearance order. */
  lemma TallyOrder(ss: seq<ProgrammeStat>, init: seq<Record>, rs: seq<Record>)
    requires rs != [] && init == rs[..|rs| - 1]
    requires FirstAppearanceOrder(ss, init) && Names(ss) == Programmes(init)
    ensures FirstAppearanceOrder(Tally(ss, rs[|rs| - 1].programme), rs)
  {
    var p := rs[|rs| - 1].programme;
    var f := FindProgrammeStat(ss, |ss|, p);
    forall i | 0 <= i < |ss|
      ensures FirstOf(rs, ss[i].name) == FirstOf(init, ss[i].name) < |init|
    {
      NamesMember(ss, ss[i].name);
      ProgrammesMember(init, ss[i].name);
      FirstOfPrefix(init, rs, ss[i].name);
    }
    assert FirstAppearanceOrder(ss, rs);
    if f < 0 {
      NamesMember(ss, p);
      ProgrammesMember(init, p);
      forall k | 0 <= k < |init|
        ensures rs[k].programme != p
      {
        assert rs[k] == init[k];
      }
      FirstOfLast(rs, p);
      AppendedOrder(ss, rs, p);
    } else {
      UpdatedOrder(ss, rs, f, ProgrammeStat(p, ss[f].count + 1));
    }
  }

  /** A row for a programme first seen after all the others goes last. */
  lemma AppendedOrder(ss: seq<ProgrammeStat>, rs: seq<Record>, p: string)
    requires FirstAppearanceOrder(ss, rs)
    requires forall i :: 0 <= i < |ss| ==> FirstOf(rs, ss[i].name) < FirstOf(rs, p)
    ensures FirstAppearanceOrder(ss + [ProgrammeStat(p, 1)], rs)
  {
    var ts := ss + [ProgrammeStat(p, 1)];
    forall i, j | 0 <= i < j < |ts|
      ensures FirstOf(rs, ts[i].name) < FirstOf(rs, ts[j].name)
    {
      assert ts[i] == ss[i];
      if j < |ss| {
        assert ts[j] == ss[j];
      }
    }
  }

  /** Counting into a row keeps its name, so the order stands. */
  lemma UpdatedOrder(ss: seq<ProgrammeStat>, rs: seq<Record>, f: nat, x: ProgrammeStat)
    requires FirstAppearanceOrder(ss, rs) && f < |ss| && x.name == ss[f].name
    ensures FirstAppearanceOrder(ss[f := x], rs)
  {
    var ts := ss[f := x];
    assert forall i :: 0 <= i < |ts| ==> ts[i].name == ss[i].name;
  }

  /** Appending records does not move the first record of a programme that already occurs. */
  lemma FirstOfPrefix(init: seq<Record>, rs: seq<Record>, p: string)
    requires |init| <= |rs| && rs[..|init|] == init
    requires exists k :: 0 <= k < |init| && init[k].programme == p
    ensures FirstOf(rs, p) == FirstOf(init, p) < |init|
  {
    var k :| 0 <= k < |init| && init[k].programme == p;
    assert rs[k] == init[k];
    var i := FirstOf(init, p);
    assert rs[i] == init[i];
    assert forall q :: 0 <= q < i ==> rs[q] == init[q];
  }

  /** A programme seen first in the last record is first found there. */
  lemma FirstOfLast(rs: seq<Record>, p: string)
    requires rs != [] && rs[|rs| - 1].programme == p
    requires forall k :: 0 <= k < |rs| - 1 ==> rs[k].programme != p
    ensures FirstOf(rs, p) == |rs| - 1
  {
  }

  /** One more record tallies its programme into the table of the others. */
  lemma StatsStep(rs: seq<Record>)
    requires rs != []
    ensures Stats(rs) == Tally(Stats(rs[..|rs| - 1]), rs[|rs| - 1].programme)
  {
  }

  /**
   * One pass of the counter loop: find the programme's row among the
   * first `programmeCount`, starting a zeroed one at the end when there is
   * none, and add one to its count.
   */
  method TallyInto(rows: array<ProgrammeStat>, programmeCount: nat, p: string) returns (newCount: nat)
    requires programmeCount < rows.Length
    modifies rows
    ensures newCount <= programmeCount + 1
    ensures rows[..newCount] == Tally(old(rows[..programmeCount]), p)
  {
    ghost var before := rows[..programmeCount];
    var index := FindProgrammeStat(rows[..programmeCount], programmeCount, p);
    ghost var found := index;
    newCount := programmeCount;
    if index < 0 {
      rows[newCount] := ProgrammeStat(p, 0);
      index := newCount;
      newCount := newCount + 1;
    }
    rows[index] := ProgrammeStat(rows[index].name, rows[index].count + 1);
    if found < 0 {
      assert rows[..newCount] == before + [ProgrammeStat(p, 1)];
    } else {
      assert rows[..newCount] == before[found := ProgrammeStat(p, before[found].count + 1)];
    }
  }

  /**
   * SHOW PROGRAMMES: INVALID_ARGUMENT without a store, ERROR when it is
   * not loaded, an empty table for an empty store; otherwise the table
   * built by the counter loop over a zeroed array of rows, which is
   * Stats of the records.
   */
  method ProgrammeStats(db: StudentDatabase?) returns (s: CmsStatus, stats: seq<ProgrammeStat>)
    requires db != null ==> db.Valid()
    ensures db == null ==> s == InvalidArgument && stats == []
    ensures db != null && !db.isLoaded ==> s == Error && stats == []
    ensures db != null && db.isLoaded ==> s == Ok && stats == Stats(db.Records())
  {
    if db == null {
      return InvalidArgument, [];
    }
    if !db.isLoaded {
      return Error, [];
    }
    if db.count == 0 {
      return Ok, [];
    }
    var rows := new ProgrammeStat[db.count](_ => ProgrammeStat([], 0));
    var programmeCount: nat := 0;
    var i := 0;
    while i < db.count
      invariant i <= db.count == rows.Length
      invariant programmeCount <= i
      invariant rows[..programmeCount] == Stats(db.records[..i])
    {
      programmeCount := TallyInto(rows, programmeCount, db.records[i].programme);
      assert db.records[..i + 1][..i] == db.records[..i];
      StatsStep(db.records[..i + 1]);
      i := i + 1;
    }
    assert db.records[..db.count] == db.Records();
    return Ok, rows[..programmeCount];
  }
}
