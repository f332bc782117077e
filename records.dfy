// Student records, the validator every stored record passes, and the
// meaning of the store's operations on the sequence of its records: the
// linear lookup by id and what insert, update, delete and query make of
// the sequence. The class in module Database carries these out on its
// growable array; the lemmas here are what the store promises about them.

module Records {

  import opened Status
  import opened Numbers

  const MaxNameLen: nat := 64
  const MaxProgrammeLen: nat := 64
  const MinMark: real := 0.0
  const MaxMark: real := 100.0

  /** One row of the table. */
  datatype Record = Record(id: Int32, name: string, programme: string, mark: real)

  /** The constraints a record must meet to enter the store. */
  predicate IsValid(r: Record)
  {
    && r.id > 0
    && 0 < |r.name| <= MaxNameLen
    && 0 < |r.programme| <= MaxProgrammeLen
    && MinMark <= r.mark <= MaxMark
  }

  /**
   * The validator: OK exactly for a record with a positive id, a non-empty
   * name and programme of at most 64 characters each, and a mark between
   * 0 and 100 with both bounds allowed; INVALID_ARGUMENT otherwise.
   */
  function ValidateRecord(r: Record): (s: CmsStatus)
    ensures s == Ok <==> IsValid(r)
    ensures s != Ok ==> s == InvalidArgument
  {
    if r.id <= 0 then InvalidArgument
    else if r.name == [] || r.programme == [] then InvalidArgument
    else if r.mark < MinMark || r.mark > MaxMark then InvalidArgument
    else if |r.name| > MaxNameLen then InvalidArgument
    else if |r.programme| > MaxProgrammeLen then InvalidArgument
    else Ok
  }

  predicate HasId(rs: seq<Record>, id: int)
  {
    exists k :: 0 <= k < |rs| && rs[k].id == id
  }

  /** No two records share an id. */
  predicate DistinctIds(rs: seq<Record>)
  {
    forall i, j :: 0 <= i < j < |rs| ==> rs[i].id != rs[j].id
  }

  /** What the store keeps true of its records: valid, with distinct ids. */
  predicate StoreInvariant(rs: seq<Record>)
  {
    DistinctIds(rs) && forall k :: 0 <= k < |rs| ==> IsValid(rs[k])
  }

  /** The position of the first record with the given id, or -1. */
  function FirstIndexOf(rs: seq<Record>, id: int): (i: int)
    ensures -1 <= i < |rs|
    ensures i >= 0 ==> rs[i].id == id && forall k :: 0 <= k < i ==> rs[k].id != id
    ensures i < 0 <==> !HasId(rs, id)
  {
    if rs == [] then -1
    else if rs[0].id == id then 0
    else
      var j := FirstIndexOf(rs[1..], id);
      if j < 0 then -1 else j + 1
  }

  /**
   * Adding a record: it must be valid; a record with the same id is
   * either a duplicate or overwritten in place, depending on the flag;
   * otherwise the record goes after the existing ones.
   */
  function Added(rs: seq<Record>, r: Record, failOnDuplicate: bool): Result<seq<Record>>
  {
    var v := ValidateRecord(r);
    if v != Ok then Failure(v)
    else
      var i := FirstIndexOf(rs, r.id);
      if i >= 0 then
        if failOnDuplicate then Failure(Duplicate) else Success(rs[i := r])
      else Success(rs + [r])
  }

  /** Replacing the record whose id is the new record's id. */
  function Updated(rs: seq<Record>, r: Record): Result<seq<Record>>
  {
    var v := ValidateRecord(r);
    if v != Ok then Failure(v)
    else
      var i := FirstIndexOf(rs, r.id);
      if i < 0 then Failure(NotFound) else Success(rs[i := r])
  }

  /** Removing the record with the given id, closing the gap. */
  function Deleted(rs: seq<Record>, id: int): Result<seq<Record>>
  {
    var i := FirstIndexOf(rs, id);
    if i < 0 then Failure(NotFound) else Success(rs[..i] + rs[i + 1..])
  }

  /** The record with the given id. */
  function Queried(rs: seq<Record>, id: int): Result<Record>
  {
    var i := FirstIndexOf(rs, id);
    if i < 0 then Failure(NotFound) else Success(rs[i])
  }

  /** The records whose id is not `id`, in their order: a reference for deletion. */
  function Without(rs: seq<Record>, id: int): (ws: seq<Record>)
    ensures |ws| <= |rs|
  {
    if rs == [] then []
    else if rs[0].id == id then Without(rs[1..], id)
    else [rs[0]] + Without(rs[1..], id)
  }

  // ---------------------------------------------------------------------
  // What the operations promise

  /**
   * Insertion succeeds exactly for a valid record whose id is new, and
   * then appends it; otherwise it reports INVALID_ARGUMENT for an invalid
   * record and DUPLICATE for a known id.
   */
  lemma InsertOutcome(rs: seq<Record>, r: Record)
    ensures Added(rs, r, true).Success? <==> IsValid(r) && !HasId(rs, r.id)
    ensures Added(rs, r, true).Success? ==> Added(rs, r, true).value == rs + [r]
    ensures !IsValid(r) ==> Added(rs, r, true) == Failure(InvalidArgument)
    ensures IsValid(r) && HasId(rs, r.id) ==> Added(rs, r, true) == Failure(Duplicate)
  {
  }

  /** Adding keeps the records valid and their ids distinct, with either flag. */
  lemma AddedKeepsInvariant(rs: seq<Record>, r: Record, failOnDuplicate: bool)
    requires StoreInvariant(rs)
    ensures Added(rs, r, failOnDuplicate).Success? ==> StoreInvariant(Added(rs, r, failOnDuplicate).value)
  {
    var i := FirstIndexOf(rs, r.id);
    if ValidateRecord(r) == Ok && i < 0 {
      var ns := rs + [r];
      forall a, b | 0 <= a < b < |ns|
        ensures ns[a].id != ns[b].id
      {
        if b == |rs| {
          assert rs[a].id != r.id;
        }
      }
    }
  }

  /**
   * An update never changes an id: on success the same ids stand in the
   * same order, the slot that held the record's id now holds the record,
   * every other slot is unchanged, and the invariant is kept.
   */
  lemma UpdateKeepsIds(rs: seq<Record>, r: Record)
    requires StoreInvariant(rs)
    ensures Updated(rs, r).Success? <==> IsValid(r) && HasId(rs, r.id)
    ensures Updated(rs, r).Success? ==>
      var ns := Updated(rs, r).value;
      && |ns| == |rs|
      && (forall k :: 0 <= k < |rs| ==> ns[k].id == rs[k].id)
      && (forall k :: 0 <= k < |rs| ==> ns[k] == if rs[k].id == r.id then r else rs[k])
      && StoreInvariant(ns)
  {
  }

  /**
   * With distinct ids, deleting an id that is present removes exactly the
   * record with that id and keeps the others in their order; an absent id
   * is NOT_FOUND. The invariant is kept.
   */
  lemma DeleteRemoves(rs: seq<Record>, id: int)
    requires StoreInvariant(rs)
    ensures Deleted(rs, id).Success? <==> HasId(rs, id)
    ensures Deleted(rs, id).Failure? ==> Deleted(rs, id).status == NotFound
    ensures Deleted(rs, id).Success? ==>
      && Deleted(rs, id).value == Without(rs, id)
      && |Deleted(rs, id).value| == |rs| - 1
      && StoreInvariant(Deleted(rs, id).value)
  {
    var i := FirstIndexOf(rs, id);
    if i >= 0 {
      RemovedKeepsInvariant(rs, i);
      DeletedIsWithout(rs, id, i);
    }
  }

  /** Taking one record out keeps the others valid with distinct ids. */
  lemma RemovedKeepsInvariant(rs: seq<Record>, i: nat)
    requires StoreInvariant(rs) && i < |rs|
    ensures |rs[..i] + rs[i + 1..]| == |rs| - 1
    ensures StoreInvariant(rs[..i] + rs[i + 1..])
  {
    var ns := rs[..i] + rs[i + 1..];
    assert forall k :: 0 <= k < |ns| ==> ns[k] == rs[if k < i then k else k + 1];
  }

  /** Removing the only record with the id at `i` is filtering the id out. */
  lemma DeletedIsWithout(rs: seq<Record>, id: int, i: nat)
    requires DistinctIds(rs) && i < |rs| && rs[i].id == id
    ensures rs[..i] + rs[i + 1..] == Without(rs, id)
  {
    var front, back := rs[..i], rs[i + 1..];
    assert forall k :: 0 <= k < |front| ==> front[k].id != id by {
      forall k | 0 <= k < |front| ensures front[k].id != id {
        assert front[k] == rs[k];
      }
    }
    assert forall k :: 0 <= k < |back| ==> back[k].id != id by {
      forall k | 0 <= k < |back| ensures back[k].id != id {
        assert back[k] == rs[i + 1 + k];
      }
    }
    WithoutAbsent(front, id);
    WithoutAbsent(back, id);
    WithoutAround(rs, id, i);
  }

  /** Filtering around a record with the id: the parts before and after, each filtered. */
  lemma WithoutAround(rs: seq<Record>, id: int, i: nat)
    requires i < |rs| && rs[i].id == id
    ensures Without(rs, id) == Without(rs[..i], id) + Without(rs[i + 1..], id)
  {
    WithoutAppend(rs[..i], rs[i..], id);
    assert rs[i..][1..] == rs[i + 1..];
    assert rs[..i] + rs[i..] == rs;
  }

  /** Filtering out an id that does not occur changes nothing. */
  lemma {:induction false} WithoutAbsent(rs: seq<Record>, id: int)
    requires forall k :: 0 <= k < |rs| ==> rs[k].id != id
    ensures Without(rs, id) == rs
  {
    if rs != [] {
      WithoutAbsent(rs[1..], id);
    }
  }

  /** Filtering distributes over concatenation. */
  lemma {:induction false} WithoutAppend(xs: seq<Record>, ys: seq<Record>, id: int)
    ensures Without(xs + ys, id) == Without(xs, id) + Without(ys, id)
  {
    if xs != [] {
      assert (xs + ys)[1..] == xs[1..] + ys;
      WithoutAppend(xs[1..], ys, id);
    } else {
      assert xs + ys == ys;
    }
  }

  /**
   * With distinct ids, a query finds the one record with the id, or
   * reports NOT_FOUND when there is none.
   */
  lemma QueryFinds(rs: seq<Record>, id: int)
    requires DistinctIds(rs)
    ensures Queried(rs, id).Success? <==> HasId(rs, id)
    ensures Queried(rs, id).Failure? ==> Queried(rs, id).status == NotFound
    ensures forall k :: 0 <= k < |rs| && rs[k].id == id ==> Queried(rs, id) == Success(rs[k])
  {
  }
}
