/**
 * Sequences of rows: the specification side of sql_processor/table.c. Conditions select rows,
 * `SortById` is what qsort with the id comparator must produce, and a map of rows is an index.
 */
module Rows {
  import opened Wrappers
  import opened Records

  const BUCKET_COUNT := 16
  const RECORD_NAME_SIZE := 64

  /** At most RECORD_NAME_SIZE - 1 characters of a name are stored. */
  function StoredName(name: string): string {
    if |name| < RECORD_NAME_SIZE then name else name[..RECORD_NAME_SIZE - 1]
  }

  datatype Comparison = EQ | LT | LE | GT | GE

  /** Whether two integers stand in the relation a condition names. */
  predicate Compare(left: int, comparison: Comparison, right: int) {
    match comparison
    case EQ => left == right
    case LT => left < right
    case LE => left <= right
    case GT => left > right
    case GE => left >= right
  }

  /** The remainder of C: it has the sign of the dividend. */
  function TruncatedRemainder(a: int, b: nat): int
    requires b > 0
  {
    if a >= 0 then a % b else -((-a) % b)
  }

  /** The bucket of an id, computed as the source does: remainder, then a fix-up for negatives. */
  function BucketIndex(id: int): (b: int)
    ensures 0 <= b < BUCKET_COUNT
  {
    var bucket := TruncatedRemainder(id, BUCKET_COUNT);
    if bucket < 0 then bucket + BUCKET_COUNT else bucket
  }

  /** The fix-up gives the residue class of every id, negative ones included. */
  lemma BucketIndexIsResidue(id: int)
    ensures BucketIndex(id) == id % BUCKET_COUNT
  {
    if id < 0 {
      var q, r := (-id) / BUCKET_COUNT, (-id) % BUCKET_COUNT;
      assert -id == q * BUCKET_COUNT + r;
    }
  }

  // ---------------------------------------------------------------- conditions

  datatype Condition =
    | All
    | InBucket(bucket: int)
    | IdIs(comparison: Comparison, value: int)
    | NameIs(name: string)
    | AgeIs(comparison: Comparison, value: int)
  {
    predicate Matches(r: Record) {
      match this
      case All => true
      case InBucket(bucket) => BucketIndex(r.id) == bucket
      case IdIs(comparison, value) => Compare(r.id, comparison, value)
      case NameIs(name) => r.name == name
      case AgeIs(comparison, value) => Compare(r.age, comparison, value)
    }
  }

  /** The rows that satisfy a condition, in order. */
  function Filter(rows: seq<Record>, c: Condition): (s: seq<Record>)
  {
    if rows == [] then []
    else
      var last := rows[|rows| - 1];
      Filter(rows[..|rows| - 1], c) + if c.Matches(last) then [last] else []
  }

  lemma FilterAppend(rows: seq<Record>, r: Record, c: Condition)
    ensures Filter(rows + [r], c) == Filter(rows, c) + if c.Matches(r) then [r] else []
  {
    assert (rows + [r])[..|rows|] == rows;
  }

  lemma {:induction false} FilterMembers(rows: seq<Record>, c: Condition)
    ensures forall r :: r in Filter(rows, c) <==> r in rows && c.Matches(r)
  {
    if rows != [] {
      var init, last := rows[..|rows| - 1], rows[|rows| - 1];
      FilterMembers(init, c);
      assert rows == init + [last];
    }
  }

  ghost predicate Ascending(rows: seq<Record>) {
    forall i, j :: 0 <= i < j < |rows| ==> rows[i].id < rows[j].id
  }

  ghost predicate Distinct(rows: seq<Record>) {
    forall i, j :: 0 <= i < j < |rows| ==> rows[i].id != rows[j].id
  }

  lemma {:induction false} FilterAscending(rows: seq<Record>, c: Condition)
    requires Ascending(rows)
    ensures Ascending(Filter(rows, c))
  {
    if rows != [] {
      var init := rows[..|rows| - 1];
      FilterAscending(init, c);
      FilterMembers(init, c);
      var s := Filter(init, c);
      forall i | 0 <= i < |s|
        ensures s[i].id < rows[|rows| - 1].id
      {
        assert s[i] in init;
      }
    }
  }

  lemma LastIsLargest(a: seq<Record>, r: Record)
    requires Ascending(a) && r in a
    ensures r == a[|a| - 1] || r.id < a[|a| - 1].id
  {
    var i :| 0 <= i < |a| && a[i] == r;
  }

  /** Two ascending sequences with the same rows are the same sequence. */
  lemma {:induction false} AscendingUnique(a: seq<Record>, b: seq<Record>)
    requires Ascending(a) && Ascending(b)
    requires forall r :: r in a <==> r in b
    ensures a == b
  {
    assert a != [] ==> a[|a| - 1] in a;
    assert b != [] ==> b[|b| - 1] in b;
    if a != [] && b != [] {
      var x, y := a[|a| - 1], b[|b| - 1];
      LastIsLargest(b, x);
      LastIsLargest(a, y);
      var a', b' := a[..|a| - 1], b[..|b| - 1];
      forall r
        ensures r in a' <==> r in b'
      {
        InitMembers(a, r);
        InitMembers(b, r);
      }
      AscendingUnique(a', b');
      assert a == a' + [x] && b == b' + [y];
    }
  }

  lemma InitMembers(a: seq<Record>, r: Record)
    requires Ascending(a) && a != []
    ensures r in a[..|a| - 1] <==> r in a && r != a[|a| - 1]
  {
    var init, last := a[..|a| - 1], a[|a| - 1];
    assert a == init + [last];
    if r in init {
      var i :| 0 <= i < |init| && init[i] == r;
      assert a[i].id < last.id;
    }
  }

  // ---------------------------------------------------------------- sorting

  /** Puts `r` behind the last row that does not have a larger id. */
  function InsertById(rows: seq<Record>, r: Record): (s: seq<Record>)
    ensures |s| == |rows| + 1
  {
    if rows == [] || rows[|rows| - 1].id <= r.id then rows + [r]
    else InsertById(rows[..|rows| - 1], r) + [rows[|rows| - 1]]
  }

  function SortById(rows: seq<Record>): (s: seq<Record>)
    ensures |s| == |rows|
  {
    if rows == [] then [] else InsertById(SortById(rows[..|rows| - 1]), rows[|rows| - 1])
  }

  lemma {:induction false} InsertByIdMembers(rows: seq<Record>, r: Record)
    ensures forall x :: x in InsertById(rows, r) <==> x == r || x in rows
  {
    if rows != [] && rows[|rows| - 1].id > r.id {
      var init, last := rows[..|rows| - 1], rows[|rows| - 1];
      assert rows == init + [last];
      InsertByIdMembers(init, r);
    }
  }

  lemma {:induction false} InsertByIdAscending(rows: seq<Record>, r: Record)
    requires Ascending(rows) && forall i :: 0 <= i < |rows| ==> rows[i].id != r.id
    ensures Ascending(InsertById(rows, r))
  {
    if rows != [] && rows[|rows| - 1].id > r.id {
      var init, last := rows[..|rows| - 1], rows[|rows| - 1];
      InsertByIdAscending(init, r);
      InsertByIdMembers(init, r);
      var s := InsertById(init, r);
      forall i | 0 <= i < |s|
        ensures s[i].id < last.id
      {
        assert s[i] in s;
      }
    }
  }

  /** Sorting rows with distinct ids gives the same rows in strictly ascending order. */
  lemma {:induction false} SortByIdCorrect(rows: seq<Record>)
    requires Distinct(rows)
    ensures Ascending(SortById(rows))
    ensures forall r :: r in SortById(rows) <==> r in rows
  {
    if rows != [] {
      var init, last := rows[..|rows| - 1], rows[|rows| - 1];
      assert rows == init + [last];
      SortByIdCorrect(init);
      var s := SortById(init);
      forall i | 0 <= i < |s|
        ensures s[i].id != last.id
      {
        assert s[i] in init;
        var j :| 0 <= j < |init| && init[j] == s[i];
        assert rows[j].id != rows[|rows| - 1].id;
      }
      InsertByIdMembers(s, last);
      InsertByIdAscending(s, last);
    }
  }

  // ---------------------------------------------------------------- index and scan

  /** The map an index holds after its rows were inserted one by one. */
  ghost function IndexOf(rows: seq<Record>): map<int, Pointer> {
    if rows == [] then map[]
    else IndexOf(rows[..|rows| - 1])[rows[|rows| - 1].id := Some(rows[|rows| - 1])]
  }

  ghost function Lookup(index: map<int, Pointer>, id: int): Pointer {
    if id in index then index[id] else None
  }

  /** The first row with an id, as a scan finds it. */
  function FindRow(rows: seq<Record>, id: int): Pointer {
    if rows == [] then None else if rows[0].id == id then Some(rows[0]) else FindRow(rows[1..], id)
  }

  lemma {:induction false} FindRowCorrect(rows: seq<Record>, id: int)
    ensures FindRow(rows, id).Some? ==> FindRow(rows, id).value in rows && FindRow(rows, id).value.id == id
    ensures FindRow(rows, id).None? ==> forall r :: r in rows ==> r.id != id
  {
    if rows != [] {
      FindRowCorrect(rows[1..], id);
      assert rows == [rows[0]] + rows[1..];
    }
  }

  lemma {:induction false} IndexOfCorrect(rows: seq<Record>, id: int)
    ensures Lookup(IndexOf(rows), id).Some? ==>
              Lookup(IndexOf(rows), id).value in rows && Lookup(IndexOf(rows), id).value.id == id
    ensures id !in IndexOf(rows) ==> forall r :: r in rows ==> r.id != id
    ensures id in IndexOf(rows) ==> IndexOf(rows)[id].Some?
  {
    if rows != [] {
      var init, last := rows[..|rows| - 1], rows[|rows| - 1];
      assert rows == init + [last];
      IndexOfCorrect(init, id);
    }
  }

  /** With distinct ids, looking an id up in the index is scanning for it. */
  lemma IndexIsScan(rows: seq<Record>, id: int)
    requires Distinct(rows)
    ensures Lookup(IndexOf(rows), id) == FindRow(rows, id)
  {
    IndexOfCorrect(rows, id);
    FindRowCorrect(rows, id);
  }

  lemma {:induction false} FilterById(rows: seq<Record>, id: int)
    requires Ascending(rows)
    ensures Filter(rows, IdIs(EQ, id)) == match FindRow(rows, id) case None => [] case Some(r) => [r]
  {
    var s := Filter(rows, IdIs(EQ, id));
    FilterMembers(rows, IdIs(EQ, id));
    FilterAscending(rows, IdIs(EQ, id));
    FindRowCorrect(rows, id);
    assert s == [] || s[0] in s;
    match FindRow(rows, id)
    case None =>
      assert forall r :: r in s ==> r in rows && r.id == id;
    case Some(r) =>
      assert r in s;
      AscendingUnique(s, [r]);
  }

  // ---------------------------------------------------------------- gathering the buckets

  /** All rows of a row of buckets, bucket by bucket. */
  function Concat(parts: seq<seq<Record>>): seq<Record> {
    if parts == [] then [] else Concat(parts[..|parts| - 1]) + parts[|parts| - 1]
  }

  /** Every row lies in the bucket of its id, and ids are distinct within a bucket. */
  ghost predicate Bucketed(parts: seq<seq<Record>>) {
    forall i :: 0 <= i < |parts| ==> Distinct(parts[i]) && forall r :: r in parts[i] ==> BucketIndex(r.id) == i
  }

  lemma {:induction false} ConcatMembers(parts: seq<seq<Record>>)
    requires Bucketed(parts)
    ensures forall r :: r in Concat(parts) <==> BucketIndex(r.id) < |parts| && r in parts[BucketIndex(r.id)]
  {
    if parts != [] {
      var init, last := parts[..|parts| - 1], parts[|parts| - 1];
      assert Bucketed(init) by {
        assert forall i :: 0 <= i < |init| ==> init[i] == parts[i];
      }
      ConcatMembers(init);
    }
  }

  lemma {:induction false} ConcatDistinct(parts: seq<seq<Record>>)
    requires Bucketed(parts)
    ensures Distinct(Concat(parts))
  {
    if parts != [] {
      var init, last := parts[..|parts| - 1], parts[|parts| - 1];
      assert Bucketed(init) by {
        assert forall i :: 0 <= i < |init| ==> init[i] == parts[i];
      }
      ConcatDistinct(init);
      ConcatMembers(init);
      var a := Concat(init);
      forall i, j | 0 <= i < |a| && 0 <= j < |last|
        ensures a[i].id != last[j].id
      {
        assert a[i] in a && last[j] in last;
      }
    }
  }

  /** Collecting all buckets and sorting gives every stored row once, in strictly ascending id order. */
  lemma CollectedCorrect(parts: seq<seq<Record>>)
    requires Bucketed(parts)
    ensures Ascending(SortById(Concat(parts)))
    ensures forall r :: r in SortById(Concat(parts)) <==>
              BucketIndex(r.id) < |parts| && r in parts[BucketIndex(r.id)]
  {
    ConcatDistinct(parts);
    ConcatMembers(parts);
    SortByIdCorrect(Concat(parts));
  }

  /** The rows of a log as the buckets share them out. */
  ghost function Shares(log: seq<Record>): seq<seq<Record>> {
    seq(BUCKET_COUNT, i => Filter(log, InBucket(i)))
  }

  lemma AscendingDistinct(rows: seq<Record>)
    requires Ascending(rows)
    ensures Distinct(rows)
  {
  }

  lemma SharesBucketed(log: seq<Record>)
    requires Ascending(log)
    ensures Bucketed(Shares(log))
  {
    forall i | 0 <= i < BUCKET_COUNT
      ensures Distinct(Shares(log)[i]) && forall r :: r in Shares(log)[i] ==> BucketIndex(r.id) == i
    {
      FilterAscending(log, InBucket(i));
      FilterMembers(log, InBucket(i));
    }
  }

  /** Sharing a log out over the buckets, collecting and sorting gives the log back. */
  lemma SharesCollect(log: seq<Record>)
    requires Ascending(log)
    ensures SortById(Concat(Shares(log))) == log
  {
    var parts := Shares(log);
    SharesBucketed(log);
    CollectedCorrect(parts);
    forall r
      ensures r in SortById(Concat(parts)) <==> r in log
    {
      FilterMembers(log, InBucket(BucketIndex(r.id)));
    }
    AscendingUnique(SortById(Concat(parts)), log);
  }

  /** Scanning only the bucket of an id finds what scanning the whole log finds. */
  lemma FindInShare(log: seq<Record>, id: int)
    requires Ascending(log)
    ensures FindRow(Filter(log, InBucket(BucketIndex(id))), id) == FindRow(log, id)
  {
    var share := Filter(log, InBucket(BucketIndex(id)));
    FilterMembers(log, InBucket(BucketIndex(id)));
    FindRowCorrect(share, id);
    FindRowCorrect(log, id);
    AscendingDistinct(log);
  }
}
