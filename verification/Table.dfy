/**
 * sql_processor/table.c without its locks: sixteen buckets of rows, each with its own B+ tree.
 * The ghost field `log` is the plain list of rows the table stands for, in order of insertion.
 */
module Tables {
  import opened Wrappers
  import opened Records
  import opened Rows
  import opened BPTrees

  /** The capacity after growing: 8 at first, then doubled. */
  function NextCapacity(capacity: nat): nat {
    if capacity == 0 then 8 else capacity * 2
  }

  /** A larger array with the same first `count` rows. */
  method Reallocate(records: array<Record>, count: nat) returns (grown: array<Record>)
    requires count <= records.Length
    ensures fresh(grown) && grown.Length == NextCapacity(records.Length) && count < grown.Length
    ensures grown[..count] == records[..count]
  {
    grown := new Record[NextCapacity(records.Length)];
    for index := 0 to count
      invariant grown[..index] == records[..index]
    {
      grown[index] := records[index];
    }
  }

  /** Appends one row to a growable array, doubling the capacity (8 at first) when it is full. */
  method AppendRecord(records: array<Record>, count: nat, record: Record) returns (grown: array<Record>)
    requires count <= records.Length
    modifies records
    ensures grown == records || fresh(grown)
    ensures count < grown.Length
    ensures grown.Length == if count < records.Length then records.Length
                            else if records.Length == 0 then 8 else 2 * records.Length
    ensures grown[..count + 1] == old(records[..count]) + [record]
  {
    grown := records;
    if count == records.Length {
      grown := Reallocate(records, count);
    }
    assert grown[..count] == old(records[..count]);
    grown[count] := record;
  }

  /** Sorts the first `count` rows by id, in place. */
  method SortRecordsById(records: array<Record>, count: nat)
    requires count <= records.Length
    modifies records
    ensures records[..count] == SortById(old(records[..count]))
  {
    ghost var rows := records[..count];
    for i := 0 to count
      invariant records[..i] == SortById(rows[..i])
      invariant records[i..count] == rows[i..]
    {
      assert rows[..i + 1][..i] == rows[..i];
      assert records[i] == rows[i];
      assert forall j :: i < j < count ==> records[j] == rows[j];
      InsertSorted(records, i);
      assert records[i + 1..count] == rows[i + 1..];
    }
    assert rows[..count] == rows;
  }

  /** Where a row lands among rows of which exactly those from `j` on have larger ids. */
  lemma {:induction false} InsertPlace(rows: seq<Record>, r: Record, j: nat)
    requires j <= |rows| && (j > 0 ==> rows[j - 1].id <= r.id)
    requires forall k :: j <= k < |rows| ==> rows[k].id > r.id
    ensures InsertById(rows, r) == rows[..j] + [r] + rows[j..]
  {
    if j < |rows| {
      var init, last := rows[..|rows| - 1], rows[|rows| - 1];
      InsertPlace(init, r, j);
      assert init[..j] == rows[..j] && init[j..] + [last] == rows[j..];
    }
  }

  /** Moves row `i` down to its place among the sorted rows before it. */
  method InsertSorted(records: array<Record>, i: nat)
    requires i < records.Length
    modifies records
    ensures records[..i + 1] == InsertById(old(records[..i]), old(records[i]))
    ensures forall j :: i < j < records.Length ==> records[j] == old(records[j])
  {
    var r := records[i];
    ghost var before := records[..i];
    var j := i;
    while j > 0 && records[j - 1].id > r.id
      invariant j <= i
      invariant forall k :: 0 <= k < j ==> records[k] == before[k]
      invariant forall k :: j < k <= i ==> records[k] == before[k - 1]
      invariant forall k :: j <= k < i ==> before[k].id > r.id
      invariant forall k :: i < k < records.Length ==> records[k] == old(records[k])
    {
      records[j] := records[j - 1];
      j := j - 1;
    }
    records[j] := r;
    InsertPlace(before, r, j);
    Spliced(before, r, j, records[..i + 1]);
  }

  lemma Spliced(rows: seq<Record>, r: Record, j: nat, whole: seq<Record>)
    requires j <= |rows| && |whole| == |rows| + 1 && whole[j] == r
    requires forall k :: 0 <= k < j ==> whole[k] == rows[k]
    requires forall k :: j < k < |whole| ==> whole[k] == rows[k - 1]
    ensures whole == rows[..j] + [r] + rows[j..]
  {
  }

  ghost predicate NoneHas(rows: seq<Record>, id: int) {
    forall r :: r in rows ==> r.id != id
  }

  // ---------------------------------------------------------------- buckets

  class TableBucket {
    var rows: array<Record>
    var size: nat
    const pkIndex: BPTree

    ghost function Stored(): seq<Record>
      requires size <= rows.Length
      reads this, rows
    {
      rows[..size]
    }

    /** The rows have distinct ids, and the B+ tree maps every id to its row. */
    ghost predicate Valid()
      reads this, rows, pkIndex, pkIndex.Nodes()
    {
      && size <= rows.Length
      && Distinct(Stored())
      && pkIndex.Valid()
      && pkIndex.Contents() == IndexOf(Stored())
    }

    ghost predicate Stores(stored: seq<Record>)
      reads this, rows
    {
      size <= rows.Length && Stored() == stored
    }

    ghost predicate Holds(stored: seq<Record>)
      reads this, rows, pkIndex, pkIndex.Nodes()
    {
      Valid() && Stored() == stored
    }

    /** Nothing is stored yet, and all parts lie in `s`. */
    ghost predicate Empty(s: set<object>)
      reads this, rows, pkIndex, pkIndex.Nodes()
    {
      Holds([]) && pkIndex.Nodes() == {} && this in s && rows in s && pkIndex in s
    }

    constructor ()
      ensures Valid() && Stored() == [] && fresh(rows) && fresh(pkIndex) && pkIndex.Nodes() == {}
    {
      rows := new Record[0];
      size := 0;
      pkIndex := new BPTree();
    }

    /** Doubles the capacity (8 at first) when the array is full; the rows stay what they are. */
    method EnsureCapacity()
      requires Valid()
      modifies this`rows
      ensures Valid() && size < rows.Length && Stored() == old(Stored())
      ensures rows.Length == if size < old(rows.Length) then old(rows.Length)
                             else if old(rows.Length) == 0 then 8 else 2 * old(rows.Length)
      ensures rows == old(rows) || fresh(rows)
    {
      if size == rows.Length {
        var newRows := Reallocate(rows, size);
        rows := newRows;
      }
    }

    method Push(record: Record)
      requires size < rows.Length
      modifies this`size, rows
      ensures size <= rows.Length && Stored() == old(Stored()) + [record]
    {
      rows[size] := record;
      size := size + 1;
    }

    /** The objects the bucket consists of. */
    ghost function Parts(): set<object>
      reads this, pkIndex
    {
      {this, rows, pkIndex} + pkIndex.Nodes()
    }

    /** Whatever the bucket consists of now, it consisted of before or is new. */
    twostate predicate Renewed()
      reads this, pkIndex
    {
      && (rows == old(rows) || fresh(rows))
      && forall n :: n in pkIndex.Nodes() ==> n in old(pkIndex.Nodes()) || fresh(n)
    }

    twostate lemma PartsRenewed(new s: set<object>)
      requires Renewed() && old(Parts()) <= s
      ensures forall o :: o in Parts() ==> o in s || fresh(o)
    {
    }

    /** The part of an insertion done under the bucket lock: the index first, then the row. */
    method Insert(record: Record) returns (ok: bool)
      requires Valid()
      modifies this, rows, pkIndex, pkIndex.Nodes()
      ensures Valid() && Renewed()
      ensures ok <==> record.id !in old(pkIndex.Contents())
      ensures Stored() == old(Stored()) + if ok then [record] else []
    {
      EnsureCapacity();
      ok := InsertReady(record);
    }

    method InsertReady(record: Record) returns (ok: bool)
      requires Valid() && size < rows.Length
      modifies this`size, rows, pkIndex, pkIndex.Nodes()
      ensures Valid() && forall n :: n in pkIndex.Nodes() ==> n in old(pkIndex.Nodes()) || fresh(n)
      ensures ok <==> record.id !in old(pkIndex.Contents())
      ensures Stored() == old(Stored()) + if ok then [record] else []
    {
      ok := pkIndex.Insert(record.id, Some(record));
      if ok {
        IndexAppend(Stored(), record);
        Push(record);
      }
    }

    /** The first stored row with an id. */
    method Scan(id: int) returns (record: Pointer)
      requires size <= rows.Length
      ensures record.Some? ==> record.value in Stored() && record.value.id == id
      ensures record.None? ==> NoneHas(Stored(), id)
    {
      for index := 0 to size
        invariant forall j :: 0 <= j < index ==> rows[j].id != id
      {
        if rows[index].id == id {
          assert rows[index] == Stored()[index];
          return Some(rows[index]);
        }
      }
      return None;
    }

    /** Nothing the bucket consists of was written. */
    twostate predicate Frozen()
      reads this, rows, pkIndex, pkIndex.Nodes()
    {
      unchanged(this) && unchanged(rows) && unchanged(pkIndex) && unchanged(pkIndex.Nodes())
    }

    twostate lemma HoldsKept(new stored: seq<Record>)
      requires Frozen()
      ensures old(Holds(stored)) ==> Holds(stored)
    {
    }

    /** Looks an id up in the index: exactly what a scan of the rows would find. */
    method FindById(id: int) returns (record: Pointer)
      requires Valid()
      ensures record == FindRow(Stored(), id)
    {
      record := pkIndex.Search(id);
      IndexIsScan(Stored(), id);
    }
  }

  lemma IndexAppend(rows: seq<Record>, record: Record)
    requires Distinct(rows) && record.id !in IndexOf(rows)
    ensures Distinct(rows + [record]) && IndexOf(rows + [record]) == IndexOf(rows)[record.id := Some(record)]
  {
    assert (rows + [record])[..|rows|] == rows;
    IndexOfCorrect(rows, record.id);
    forall j | 0 <= j < |rows|
      ensures rows[j].id != record.id
    {
      assert rows[j] in rows;
    }
  }

  // ---------------------------------------------------------------- the table

  /** Ids are handed out 1, 2, 3, ... and stored names fit their field. */
  ghost predicate LogOk(log: seq<Record>) {
    forall i :: 0 <= i < |log| ==> log[i].id == i + 1 && |log[i].name| < RECORD_NAME_SIZE
  }

  class Table {
    var nextId: int
    const buckets: seq<TableBucket>
    ghost var log: seq<Record>
    ghost var shares: seq<seq<Record>>
    ghost var owned: set<object>

    ghost predicate Valid()
      reads this, owned
    {
      nextId == |log| + 1 && Consistent()
    }

    /** The buckets hold the log; nothing is said about the id counter. */
    ghost predicate Consistent()
      reads this`log, this`shares, this`owned, owned
    {
      && |buckets| == BUCKET_COUNT
      && (forall b :: b in buckets ==> b in owned && b.pkIndex in owned)
      && Owning(owned)
      && Dealt(log, shares)
      && Separate()
      && Holding(shares)
    }

    /** Bucket `i` stores exactly `rows[i]`, indexed. */
    ghost predicate Holding(rows: seq<seq<Record>>)
      reads buckets, set b | b in buckets :: b.rows, set b | b in buckets :: b.pkIndex,
            set b, n | b in buckets && n in b.pkIndex.Nodes() :: n
    {
      |rows| == |buckets| && forall i :: 0 <= i < |buckets| ==> buckets[i].Holds(rows[i])
    }

    /** All objects the buckets consist of lie in `s`, and the table itself does not. */
    ghost predicate Owning(s: set<object>)
      reads buckets, set b | b in buckets :: b.pkIndex
    {
      this !in s && forall i :: 0 <= i < |buckets| ==> buckets[i].Parts() <= s
    }

    ghost predicate Separate()
      reads buckets, set b | b in buckets :: b.pkIndex
    {
      forall i, j :: 0 <= i < j < |buckets| ==> Apart(buckets[i], buckets[j])
    }

    constructor ()
      ensures Valid() && log == [] && fresh(owned)
    {
      ghost var parts;
      var made;
      made, parts := MakeBuckets();
      buckets := made;
      nextId := 1;
      log, shares, owned := [], Shares([]), parts;
    }

    /** Sixteen empty buckets that share nothing. */
    static method MakeBuckets() returns (made: seq<TableBucket>, ghost parts: set<object>)
      ensures |made| == BUCKET_COUNT && fresh(parts) && forall o :: o in parts ==> !(o is Table)
      ensures forall b :: b in made ==> fresh(b) && fresh(b.pkIndex) && b.Holds([]) && b.Parts() <= parts
      ensures forall i, j :: 0 <= i < j < |made| ==> Apart(made[i], made[j])
    {
      made, parts := [], {};
      for i := 0 to BUCKET_COUNT
        invariant |made| == i && fresh(parts) && forall o :: o in parts ==> !(o is Table)
        invariant forall b :: b in made ==> b.Empty(parts)
        invariant forall j, k :: 0 <= j < k < i ==> Apart(made[j], made[k])
      {
        made, parts := AddBucket(made, parts);
      }
    }

    /** One more empty bucket that shares nothing with the others. */
    static method AddBucket(made: seq<TableBucket>, ghost parts: set<object>)
      returns (more: seq<TableBucket>, ghost all: set<object>)
      requires forall o :: o in parts ==> !(o is Table)
      requires forall b :: b in made ==> b.Empty(parts)
      requires forall i, j :: 0 <= i < j < |made| ==> Apart(made[i], made[j])
      ensures |more| == |made| + 1 && fresh(all - parts) && forall o :: o in all ==> !(o is Table)
      ensures forall b :: b in more ==> b.Empty(all)
      ensures forall i, j :: 0 <= i < j < |more| ==> Apart(more[i], more[j])
    {
      var bucket := new TableBucket();
      more := made + [bucket];
      all := parts + bucket.Parts();
    }

    /** The bucket responsible for an id. */
    function BucketOf(id: int): TableBucket
      requires |buckets| == BUCKET_COUNT
    {
      buckets[BucketIndex(id)]
    }

    /** A row goes into its bucket; the other buckets stay as they are and apart from it. */
    method StoreInBucket(row: Record, ghost b: nat, ghost before: seq<seq<Record>>) returns (ok: bool)
      requires |buckets| == BUCKET_COUNT && Separate() && Holding(before) && b == BucketIndex(row.id)
      requires row.id !in IndexOf(before[b])
      modifies buckets[b], buckets[b].rows, buckets[b].pkIndex, buckets[b].pkIndex.Nodes()
      ensures ok && buckets[b].Holds(before[b] + [row])
      ensures forall i :: 0 <= i < |buckets| && i != b ==>
                unchanged(buckets[i]) && unchanged(buckets[i].pkIndex) && buckets[i].Holds(before[i])
      ensures forall i :: 0 <= i < |buckets| && i != b ==> Apart(buckets[b], buckets[i])
      ensures buckets[b].Renewed()
    {
      assert buckets[b].Holds(before[b]);
      ok := BucketOf(row.id).Insert(row);
      forall i | 0 <= i < |buckets| && i != b
        ensures buckets[i].Holds(before[i]) && Apart(buckets[b], buckets[i])
        ensures unchanged(buckets[i]) && unchanged(buckets[i].pkIndex)
      {
        assert if b < i then old(Apart(buckets[b], buckets[i])) else old(Apart(buckets[i], buckets[b]));
        buckets[i].HoldsKept(before[i]);
      }
    }

    /** The rows of one bucket grow, every other bucket keeps its own. */
    method StoreApart(row: Record, ghost b: nat, ghost before: seq<seq<Record>>, ghost after: seq<seq<Record>>)
      returns (ok: bool)
      requires |buckets| == BUCKET_COUNT && Separate() && Holding(before) && b == BucketIndex(row.id)
      requires row.id !in IndexOf(before[b]) && after == before[b := before[b] + [row]]
      modifies buckets[b], buckets[b].rows, buckets[b].pkIndex, buckets[b].pkIndex.Nodes()
      ensures ok && Separate() && Holding(after)
      ensures buckets[b].Renewed()
      ensures forall i :: 0 <= i < |buckets| && i != b ==> unchanged(buckets[i]) && unchanged(buckets[i].pkIndex)
    {
      ok := StoreInBucket(row, b, before);
      forall i, j | 0 <= i < j < |buckets|
        ensures Apart(buckets[i], buckets[j])
      {
        if i != b && j != b {
          assert old(Apart(buckets[i], buckets[j]));
        }
      }
    }

    /** Stores a row in its bucket; the objects of the table are the old ones and new ones. */
    method StoreRow(row: Record, ghost b: nat, ghost before: seq<seq<Record>>, ghost after: seq<seq<Record>>,
                    ghost parts: set<object>)
      returns (ok: bool, ghost more: set<object>)
      requires |buckets| == BUCKET_COUNT && Separate() && Holding(before) && b == BucketIndex(row.id)
      requires row.id !in IndexOf(before[b]) && after == before[b := before[b] + [row]] && Owning(parts)
      modifies buckets[b], buckets[b].rows, buckets[b].pkIndex, buckets[b].pkIndex.Nodes()
      ensures ok && Separate() && Holding(after) && Owning(more) && parts <= more && forall o :: o in more ==> o in parts || fresh(o)
    {
      ok := StoreApart(row, b, before, after);
      more := parts + buckets[b].Parts();
      buckets[b].PartsRenewed(parts);
      OwningGrows(b, parts);
    }

    twostate lemma OwningGrows(new b: nat, parts: set<object>)
      requires b < |buckets| && old(Owning(parts))
      requires forall i :: 0 <= i < |buckets| && i != b ==> unchanged(buckets[i]) && unchanged(buckets[i].pkIndex)
      ensures Owning(parts + buckets[b].Parts())
    {
      forall i | 0 <= i < |buckets|
        ensures buckets[i].Parts() <= parts + buckets[b].Parts()
      {
        assert i != b ==> buckets[i].Parts() == old(buckets[i].Parts());
      }
    }

    /** Stores one row under the next id, touching only the bucket of that id. */
    method Insert(name: string, age: int) returns (record: Pointer)
      requires Valid()
      modifies this, owned
      ensures Valid() && forall o :: o in owned ==> o in old(owned) || fresh(o)
      ensures record == Some(Record(old(nextId), if |name| <= 63 then name else name[..63], age))
      ensures nextId == old(nextId) + 1
      ensures log == old(log) + [record.value]
    {
      var recordId := nextId;
      nextId := nextId + 1;
      record := InsertUnder(recordId, name, age);
    }

    /** The part of an insertion after the id is known. */
    method InsertUnder(recordId: int, name: string, age: int) returns (record: Pointer)
      requires Consistent() && recordId == |log| + 1
      modifies this`log, this`shares, this`owned, owned
      ensures forall o :: o in owned ==> o in old(owned) || fresh(o)
      ensures Consistent() && record == Some(Record(recordId, StoredName(name), age))
      ensures log == old(log) + [record.value]
    {
      var row := Record(recordId, StoredName(name), age);
      ghost var grown := ShareGrows(log, shares, row);
      var ok;
      ghost var parts;
      ok, parts := StoreRow(row, BucketIndex(recordId), shares, grown, owned);
      AddToLog(row, grown, parts);
      record := if ok then Some(row) else None;
    }

    twostate lemma BucketsKept(new rows: seq<seq<Record>>, parts: set<object>)
      requires forall i :: 0 <= i < |buckets| ==> buckets[i].Frozen()
      ensures old(Holding(rows)) ==> Holding(rows)
      ensures old(Owning(parts)) ==> Owning(parts)
      ensures old(Separate()) ==> Separate()
    {
      if old(Holding(rows)) {
        forall i | 0 <= i < |buckets|
          ensures buckets[i].Holds(rows[i])
        {
          assert old(buckets[i].Holds(rows[i]));
          buckets[i].HoldsKept(rows[i]);
        }
      }
      if old(Separate()) {
        forall i, j | 0 <= i < j < |buckets|
          ensures Apart(buckets[i], buckets[j])
        {
          assert old(Apart(buckets[i], buckets[j]));
        }
      }
    }

    /** Records what the buckets have become. */
    ghost method AddToLog(row: Record, grown: seq<seq<Record>>, parts: set<object>)
      requires |buckets| == BUCKET_COUNT && Dealt(log + [row], grown) && Separate() && Holding(grown) && Owning(parts)
      modifies this`log, this`shares, this`owned
      ensures Consistent() && log == old(log) + [row] && owned == parts
    {
      log, shares, owned := log + [row], grown, parts;
      BucketsKept(grown, parts);
    }

    // -------------------------------------------------------------- queries

    /** Looks up one id through the index of its bucket. */
    method FindById(id: int) returns (record: Pointer)
      requires Valid()
      ensures record == FindRow(log, id)
    {
      var b := BucketIndex(id);
      assert buckets[b].Holds(shares[b]);
      record := BucketOf(id).FindById(id);
      LogAscending(log);
      FindInShare(log, id);
    }

    /** Looks up one id by scanning all rows of all buckets; agrees with `FindById` for every id. */
    method ScanById(id: int) returns (record: Pointer)
      requires Valid()
      ensures record == FindRow(log, id)
    {
      LogAscending(log);
      for b := 0 to BUCKET_COUNT
        invariant forall i :: 0 <= i < b ==> NoneHas(shares[i], id)
      {
        assert buckets[b].Holds(shares[b]);
        record := buckets[b].Scan(id);
        if record.Some? {
          ScanFound(log, b, record.value);
          return;
        }
      }
      ScanMissed(log, shares, id);
      return None;
    }

    /** Appends all rows of one bucket to the result while its lock is held. */
    method CollectBucketRows(bucket: TableBucket, records: array<Record>, count: nat)
      returns (grown: array<Record>, total: nat)
      requires bucket.size <= bucket.rows.Length && count <= records.Length && records != bucket.rows
      modifies records
      ensures grown == records || fresh(grown)
      ensures total <= grown.Length && grown[..total] == old(records[..count]) + bucket.Stored()
    {
      grown, total := records, count;
      var rows := bucket.rows;
      for index := 0 to bucket.size
        invariant grown == records || fresh(grown)
        invariant grown != rows
        invariant total == count + index && total <= grown.Length
        invariant rows[..] == old(rows[..])
        invariant grown[..total] == old(records[..count]) + rows[..index]
      {
        grown := AppendRecord(grown, total, rows[index]);
        total := total + 1;
      }
    }

    /** Collects the rows of all buckets, bucket by bucket. */
    method CollectBuckets(ghost parts: seq<seq<Record>>) returns (records: array<Record>, count: nat)
      requires |buckets| == |parts| == BUCKET_COUNT
      requires forall i :: 0 <= i < BUCKET_COUNT ==> buckets[i].Stores(parts[i])
      ensures fresh(records) && count <= records.Length && records[..count] == Concat(parts)
    {
      records, count := new Record[0], 0;
      for b := 0 to BUCKET_COUNT
        invariant fresh(records) && count <= records.Length
        invariant records[..count] == Concat(parts[..b])
      {
        assert parts[..b + 1][..b] == parts[..b];
        assert old(buckets[b].Stores(parts[b]));
        records, count := CollectBucketRows(buckets[b], records, count);
      }
      assert parts[..BUCKET_COUNT] == parts;
    }

    /** Collects all rows and sorts them by id: the log. */
    method CollectAllSorted() returns (records: array<Record>, count: nat)
      requires Valid()
      ensures fresh(records) && count <= records.Length && records[..count] == log
    {
      forall i | 0 <= i < BUCKET_COUNT
        ensures buckets[i].Stores(shares[i])
      {
        assert buckets[i].Holds(shares[i]);
      }
      records, count := CollectBuckets(shares);
      SortRecordsById(records, count);
      LogAscending(log);
      SharesCollect(log);
    }

    /** The rows among the first `count` that satisfy a condition, in order. */
    method Select(all: array<Record>, count: nat, condition: Condition) returns (rows: seq<Record>)
      requires count <= all.Length
      ensures rows == Filter(all[..count], condition)
    {
      var records, total := new Record[0], 0;
      for index := 0 to count
        invariant fresh(records) && records != all && total <= records.Length
        invariant records[..total] == Filter(all[..index], condition)
      {
        assert all[..index + 1][..index] == all[..index];
        if condition.Matches(all[index]) {
          records := AppendRecord(records, total, all[index]);
          total := total + 1;
        }
      }
      rows := records[..total];
    }

    /** SELECT without a condition. */
    method CollectAll() returns (rows: seq<Record>)
      requires Valid()
      ensures rows == log
    {
      var records, count := CollectAllSorted();
      rows := records[..count];
    }

    method FindByName(name: string) returns (rows: seq<Record>)
      requires Valid()
      ensures rows == Filter(log, NameIs(name))
      ensures forall r :: r in rows <==> r in log && r.name == name
    {
      FilterMembers(log, NameIs(name));
      var records, count := CollectAllSorted();
      rows := Select(records, count, NameIs(name));
    }

    method FindByAge(comparison: Comparison, age: int) returns (rows: seq<Record>)
      requires Valid()
      ensures rows == Filter(log, AgeIs(comparison, age))
      ensures comparison == EQ ==> forall r :: r in rows <==> r in log && r.age == age
      ensures comparison == LT ==> forall r :: r in rows <==> r in log && r.age < age
      ensures comparison == LE ==> forall r :: r in rows <==> r in log && r.age <= age
      ensures comparison == GT ==> forall r :: r in rows <==> r in log && r.age > age
      ensures comparison == GE ==> forall r :: r in rows <==> r in log && r.age >= age
    {
      FilterMembers(log, AgeIs(comparison, age));
      var records, count := CollectAllSorted();
      rows := Select(records, count, AgeIs(comparison, age));
    }

    /** Equality goes through the index, the other comparisons through collect, sort and filter. */
    method FindByIdCondition(comparison: Comparison, id: int) returns (rows: seq<Record>)
      requires Valid()
      ensures rows == Filter(log, IdIs(comparison, id))
      ensures comparison == EQ ==> forall r :: r in rows <==> r in log && r.id == id
      ensures comparison == LT ==> forall r :: r in rows <==> r in log && r.id < id
      ensures comparison == LE ==> forall r :: r in rows <==> r in log && r.id <= id
      ensures comparison == GT ==> forall r :: r in rows <==> r in log && r.id > id
      ensures comparison == GE ==> forall r :: r in rows <==> r in log && r.id >= id
    {
      FilterMembers(log, IdIs(comparison, id));
      if comparison == EQ {
        var record := FindById(id);
        LogAscending(log);
        FilterById(log, id);
        rows := if record.None? then [] else [record.value];
      } else {
        var records, count := CollectAllSorted();
        rows := Select(records, count, IdIs(comparison, id));
      }
    }

    /** Two buckets share no object. */
    static ghost predicate Apart(a: TableBucket, b: TableBucket)
      reads a, b, a.pkIndex, b.pkIndex
    {
      a != b && a.rows != b.rows && a.pkIndex != b.pkIndex && a.pkIndex.Nodes() !! b.pkIndex.Nodes()
    }
  }

  lemma LogAscending(log: seq<Record>)
    requires LogOk(log)
    ensures Ascending(log)
  {
  }

  lemma ScanFound(log: seq<Record>, b: nat, r: Record)
    requires LogOk(log) && r in Filter(log, InBucket(b))
    ensures FindRow(log, r.id) == Some(r)
  {
    FilterMembers(log, InBucket(b));
    FindRowCorrect(log, r.id);
    assert Distinct(log);
  }

  lemma ScanMissed(log: seq<Record>, shares: seq<seq<Record>>, id: int)
    requires Dealt(log, shares) && forall i :: 0 <= i < BUCKET_COUNT ==> NoneHas(shares[i], id)
    ensures FindRow(log, id) == None
  {
    FindRowCorrect(log, id);
    FilterMembers(log, InBucket(BucketIndex(id)));
    assert NoneHas(shares[BucketIndex(id)], id);
  }

  /** The log is well-formed, and `shares` is the log dealt out to the buckets. */
  ghost predicate Dealt(log: seq<Record>, shares: seq<seq<Record>>) {
    LogOk(log) && shares == Shares(log)
  }

  /** A new row joins the share of its bucket and no other. */
  lemma ShareGrows(log: seq<Record>, shares: seq<seq<Record>>, row: Record) returns (grown: seq<seq<Record>>)
    requires Dealt(log, shares) && row.id == |log| + 1 && |row.name| < RECORD_NAME_SIZE
    ensures |shares| == BUCKET_COUNT && row.id !in IndexOf(shares[BucketIndex(row.id)])
    ensures Dealt(log + [row], grown)
    ensures grown == shares[BucketIndex(row.id) := shares[BucketIndex(row.id)] + [row]]
  {
    FreshId(log, row.id);
    grown := Shares(log + [row]);
    forall i | 0 <= i < BUCKET_COUNT
      ensures Shares(log + [row])[i] == if i == BucketIndex(row.id) then Shares(log)[i] + [row] else Shares(log)[i]
    {
      FilterAppend(log, row, InBucket(i));
    }
  }

  /** An id that was not handed out yet is in no index. */
  lemma FreshId(log: seq<Record>, id: int)
    requires LogOk(log) && id > |log|
    ensures id !in IndexOf(Filter(log, InBucket(BucketIndex(id))))
  {
    var share := Filter(log, InBucket(BucketIndex(id)));
    IndexOfCorrect(share, id);
    FilterMembers(log, InBucket(BucketIndex(id)));
  }
}
