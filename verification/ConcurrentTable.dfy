/**
 * sql_processor/table.c under concurrency, as a state machine over any number of threads that
 * insert, look up and scan. Locks are held across several steps: a writer first updates the index
 * of its bucket and then the rows, a scan reads the rows of a bucket one at a time.
 */
module ConcurrentTables {
  import opened Wrappers
  import opened Records
  import opened Rows

  /**
   * Where a thread is. `IdHold` holds the id mutex, `Writing` and `Indexed` hold the write lock of
   * the bucket of their row, `FindHold` and `FindSeen` the read lock of the bucket of their id, and
   * `ScanHold` the read lock of bucket `|shares|`. A scan carries what it has read from the buckets
   * already visited. Readers remember in `begun` the rows stored when they began.
   */
  datatype Thread =
    | Idle
    | IdWait(name: string, age: int)
    | IdHold(name: string, age: int)
    | Issued(row: Record)
    | Writing(row: Record)
    | Indexed(row: Record)
    | FindWait(id: int, begun: seq<seq<Record>>)
    | FindHold(id: int, begun: seq<seq<Record>>)
    | FindSeen(id: int, found: Pointer, begun: seq<seq<Record>>)
    | Found(id: int, found: Pointer, begun: seq<seq<Record>>)
    | ScanWait(shares: seq<seq<Record>>, begun: seq<seq<Record>>)
    | ScanHold(shares: seq<seq<Record>>, part: seq<Record>, begun: seq<seq<Record>>)
    | Scanned(result: seq<Record>, shares: seq<seq<Record>>, begun: seq<seq<Record>>)
  {
    predicate HasRow() { Issued? || Writing? || Indexed? }

    /** Holds the write lock of bucket `b`. */
    predicate Writes(b: int) { (Writing? || Indexed?) && BucketIndex(row.id) == b }

    /** Holds the read lock of bucket `b`. */
    predicate Reads(b: int) {
      (ScanHold? && |shares| == b) || ((FindHold? || FindSeen?) && BucketIndex(id) == b)
    }
  }

  datatype Db = Db(nextId: int, rows: seq<seq<Record>>, index: seq<map<int, Pointer>>, threads: seq<Thread>)

  datatype Action =
    | StartInsert(name: string, age: int)
    | LockId
    | Issue
    | LockWrite
    | InsertIndex
    | AppendRow
    | StartFind(id: int)
    | LockFind
    | Search
    | UnlockFind
    | StartScan
    | LockRead
    | ReadRow
    | UnlockRead
    | Leave

  ghost predicate Shaped(s: Db) {
    |s.rows| == BUCKET_COUNT && |s.index| == BUCKET_COUNT
  }

  ghost predicate Init(s: Db) {
    && Shaped(s)
    && s.nextId == 1
    && (forall b :: 0 <= b < BUCKET_COUNT ==> s.rows[b] == [] && s.index[b] == map[])
    && (forall i :: 0 <= i < |s.threads| ==> s.threads[i].Idle?)
  }

  // ---------------------------------------------------------------- steps

  ghost predicate Enabled(s: Db, t: nat, a: Action)
    requires Shaped(s)
  {
    t < |s.threads| &&
    var th := s.threads[t];
    match a
    case StartInsert(_, _) => th.Idle?
    case LockId => th.IdWait? && forall j :: 0 <= j < |s.threads| ==> !s.threads[j].IdHold?
    case Issue => th.IdHold?
    case LockWrite =>
      th.Issued? && forall j :: 0 <= j < |s.threads| ==>
        !s.threads[j].Writes(BucketIndex(th.row.id)) && !s.threads[j].Reads(BucketIndex(th.row.id))
    case InsertIndex => th.Writing?
    case AppendRow => th.Indexed?
    case StartFind(_) => th.Idle?
    case LockFind =>
      th.FindWait? && forall j :: 0 <= j < |s.threads| ==> !s.threads[j].Writes(BucketIndex(th.id))
    case Search => th.FindHold?
    case UnlockFind => th.FindSeen?
    case StartScan => th.Idle?
    case LockRead => th.ScanWait? && forall j :: 0 <= j < |s.threads| ==> !s.threads[j].Writes(|th.shares|)
    case ReadRow => th.ScanHold? && |th.shares| < BUCKET_COUNT && |th.part| < |s.rows[|th.shares|]|
    case UnlockRead => th.ScanHold? && |th.shares| < BUCKET_COUNT && |th.part| == |s.rows[|th.shares|]|
    case Leave => th.Scanned? || th.Found?
  }

  /** The state of the acting thread after its step. A duplicate key would make an insertion give up. */
  ghost function After(s: Db, t: nat, a: Action): Thread
    requires Shaped(s) && Enabled(s, t, a)
  {
    var th := s.threads[t];
    match a
    case StartInsert(name, age) => IdWait(name, age)
    case LockId => IdHold(th.name, th.age)
    case Issue => Issued(Record(s.nextId, StoredName(th.name), th.age))
    case LockWrite => Writing(th.row)
    case InsertIndex => if th.row.id in s.index[BucketIndex(th.row.id)] then Idle else Indexed(th.row)
    case AppendRow => Idle
    case StartFind(id) => FindWait(id, s.rows)
    case LockFind => FindHold(th.id, th.begun)
    case Search => FindSeen(th.id, Lookup(s.index[BucketIndex(th.id)], th.id), th.begun)
    case UnlockFind => Found(th.id, th.found, th.begun)
    case StartScan => ScanWait([], s.rows)
    case LockRead => ScanHold(th.shares, [], th.begun)
    case ReadRow => ScanHold(th.shares, th.part + [s.rows[|th.shares|][|th.part|]], th.begun)
    case UnlockRead =>
      var shares := th.shares + [th.part];
      if |shares| == BUCKET_COUNT then Scanned(SortById(Concat(shares)), shares, th.begun)
      else ScanWait(shares, th.begun)
    case Leave => Idle
  }

  ghost function Next(s: Db, t: nat, a: Action): (s': Db)
    requires Shaped(s) && Enabled(s, t, a)
    ensures Shaped(s')
  {
    var threads := s.threads[t := After(s, t, a)];
    var th := s.threads[t];
    if a == Issue then
      s.(threads := threads, nextId := s.nextId + 1)
    else if a == InsertIndex && th.row.id !in s.index[BucketIndex(th.row.id)] then
      var b := BucketIndex(th.row.id);
      s.(threads := threads, index := s.index[b := s.index[b][th.row.id := Some(th.row)]])
    else if a == AppendRow then
      var b := BucketIndex(th.row.id);
      s.(threads := threads, rows := s.rows[b := s.rows[b] + [th.row]])
    else
      s.(threads := threads)
  }

  // ---------------------------------------------------------------- invariant

  ghost predicate Unstored(s: Db, id: int)
    requires Shaped(s)
  {
    forall r :: r in s.rows[BucketIndex(id)] ==> r.id != id
  }

  /** Rows are only appended. */
  ghost predicate Grown(begun: seq<seq<Record>>, rows: seq<seq<Record>>) {
    |rows| == |begun| == BUCKET_COUNT && forall b :: 0 <= b < BUCKET_COUNT ==> begun[b] <= rows[b]
  }

  /** What a lookup found is stored now; when it found nothing, nothing was there when it began. */
  ghost predicate FindOk(rows: seq<seq<Record>>, id: int, found: Pointer, begun: seq<seq<Record>>) {
    && Grown(begun, rows)
    && (found.Some? ==> found.value.id == id && found.value in rows[BucketIndex(id)])
    && (found.None? ==> forall r :: r in begun[BucketIndex(id)] ==> r.id != id)
  }

  /** What a scan has read lies between what was stored when it began and what is stored now. */
  ghost predicate ScanOk(rows: seq<seq<Record>>, shares: seq<seq<Record>>, begun: seq<seq<Record>>) {
    && Grown(begun, rows) && |shares| <= BUCKET_COUNT
    && (forall b :: 0 <= b < |shares| ==> begun[b] <= shares[b] <= rows[b])
  }

  ghost predicate ThreadOk(s: Db, i: nat)
    requires Shaped(s) && i < |s.threads|
  {
    match s.threads[i]
    case Issued(r) => 1 <= r.id < s.nextId && Unstored(s, r.id)
    case Writing(r) => 1 <= r.id < s.nextId && Unstored(s, r.id)
    case Indexed(r) => 1 <= r.id < s.nextId && Unstored(s, r.id)
    case FindWait(_, begun) => Grown(begun, s.rows)
    case FindHold(_, begun) => Grown(begun, s.rows)
    case FindSeen(id, found, begun) => FindOk(s.rows, id, found, begun)
    case Found(id, found, begun) => FindOk(s.rows, id, found, begun)
    case ScanWait(shares, begun) => ScanOk(s.rows, shares, begun) && |shares| < BUCKET_COUNT
    case ScanHold(shares, part, begun) =>
      ScanOk(s.rows, shares, begun) && |shares| < BUCKET_COUNT && part <= s.rows[|shares|]
    case Scanned(result, shares, begun) =>
      ScanOk(s.rows, shares, begun) && |shares| == BUCKET_COUNT && result == SortById(Concat(shares))
    case _ => true
  }

  /** Locks exclude, and no id was issued twice. */
  ghost predicate PairOk(s: Db, i: nat, j: nat)
    requires i < |s.threads| && j < |s.threads|
  {
    i != j ==> PairFine(s.threads[i], s.threads[j])
  }

  ghost predicate PairFine(x: Thread, y: Thread) {
    && !(x.IdHold? && y.IdHold?)
    && (x.HasRow() && y.HasRow() ==> x.row.id != y.row.id)
    && (x.Writing? || x.Indexed? ==> !y.Writes(BucketIndex(x.row.id)) && !y.Reads(BucketIndex(x.row.id)))
  }

  /** Outside the two halves of an insertion the index of a bucket is the index of its rows. */
  ghost predicate BucketOk(s: Db, b: nat)
    requires Shaped(s) && b < BUCKET_COUNT
  {
    && Distinct(s.rows[b])
    && (forall r :: r in s.rows[b] ==> BucketIndex(r.id) == b && 1 <= r.id < s.nextId)
    && ((forall i :: 0 <= i < |s.threads| ==> !(s.threads[i].Indexed? && s.threads[i].Writes(b))) ==>
          s.index[b] == IndexOf(s.rows[b]))
    && (forall i :: 0 <= i < |s.threads| && s.threads[i].Indexed? && s.threads[i].Writes(b) ==>
          s.index[b] == IndexOf(s.rows[b])[s.threads[i].row.id := Some(s.threads[i].row)])
  }

  /** Every issued id is stored or on its way. */
  ghost predicate IdOk(s: Db, id: int)
    requires Shaped(s)
  {
    1 <= id < s.nextId ==>
      !Unstored(s, id) || exists i :: 0 <= i < |s.threads| && s.threads[i].HasRow() && s.threads[i].row.id == id
  }

  ghost predicate Inv(s: Db) {
    && Shaped(s) && s.nextId >= 1
    && (forall i {:trigger ThreadOk(s, i)} :: 0 <= i < |s.threads| ==> ThreadOk(s, i))
    && (forall i, j {:trigger PairOk(s, i, j)} :: 0 <= i < |s.threads| && 0 <= j < |s.threads| ==> PairOk(s, i, j))
    && (forall b {:trigger BucketOk(s, b)} :: 0 <= b < BUCKET_COUNT ==> BucketOk(s, b))
    && (forall id {:trigger IdOk(s, id)} :: IdOk(s, id))
  }

  lemma InitInv(s: Db)
    requires Init(s)
    ensures Inv(s)
  {
    forall i | 0 <= i < |s.threads|
      ensures ThreadOk(s, i)
    {
      assert s.threads[i].Idle?;
    }
    forall i, j | 0 <= i < |s.threads| && 0 <= j < |s.threads|
      ensures PairOk(s, i, j)
    {
      assert s.threads[i].Idle? && s.threads[j].Idle?;
    }
  }

  // ---------------------------------------------------------------- each step keeps it

  /** A thread that gains no lock and no row stays compatible with the others. */
  lemma PairWeakens(x: Thread, x': Thread, y: Thread)
    requires PairFine(x, y) && PairFine(y, x)
    requires x'.IdHold? ==> x.IdHold?
    requires x'.HasRow() ==> x.HasRow() && x.row == x'.row
    requires x'.Writing? || x'.Indexed? ==> x.Writing? || x.Indexed?
    requires forall b :: x'.Reads(b) ==> x.Reads(b)
    ensures PairFine(x', y) && PairFine(y, x')
  {
  }

  /** Taking a lock needs that nobody else is in the way; a new id is nobody else's. */
  lemma OwnPairKept(s: Db, t: nat, a: Action, j: nat)
    requires Inv(s) && Enabled(s, t, a) && j < |s.threads| && j != t
    ensures PairFine(After(s, t, a), s.threads[j]) && PairFine(s.threads[j], After(s, t, a))
  {
    var x, y := s.threads[t], s.threads[j];
    assert PairOk(s, t, j) && PairOk(s, j, t);
    match a
    case LockId =>
    case Issue => assert ThreadOk(s, j);
    case LockWrite =>
    case LockFind =>
    case LockRead =>
    case _ => PairWeakens(x, After(s, t, a), y);
  }

  lemma PairsKept(s: Db, t: nat, a: Action, i: nat, j: nat)
    requires Inv(s) && Enabled(s, t, a) && i < |s.threads| && j < |s.threads|
    ensures PairOk(Next(s, t, a), i, j)
  {
    assert PairOk(s, i, j);
    if i == t && j != t {
      OwnPairKept(s, t, a, j);
    } else if j == t && i != t {
      OwnPairKept(s, t, a, i);
    }
  }

  /** A writer never meets its own key in the index: `bptree_insert` sees no duplicate. */
  lemma NoDuplicate(s: Db, t: nat)
    requires Inv(s) && t < |s.threads| && s.threads[t].Writing?
    ensures s.threads[t].row.id !in s.index[BucketIndex(s.threads[t].row.id)]
    ensures s.index[BucketIndex(s.threads[t].row.id)] == IndexOf(s.rows[BucketIndex(s.threads[t].row.id)])
  {
    var row := s.threads[t].row;
    var b := BucketIndex(row.id);
    assert ThreadOk(s, t) && BucketOk(s, b);
    forall i | 0 <= i < |s.threads|
      ensures !(s.threads[i].Indexed? && s.threads[i].Writes(b))
    {
      assert PairOk(s, t, i);
    }
    IndexOfCorrect(s.rows[b], row.id);
  }

  lemma OtherThreadKept(s: Db, t: nat, a: Action, i: nat)
    requires Inv(s) && Enabled(s, t, a) && i < |s.threads| && i != t
    ensures ThreadOk(Next(s, t, a), i)
  {
    assert ThreadOk(s, i) && PairOk(s, t, i);
    var s' := Next(s, t, a);
    assert forall b :: 0 <= b < BUCKET_COUNT ==> s.rows[b] <= s'.rows[b];
    if a == AppendRow && s.threads[i].HasRow() {
      AppendKeepsUnstored(s, t, i);
    }
  }

  lemma AppendKeepsUnstored(s: Db, t: nat, i: nat)
    requires Inv(s) && Enabled(s, t, AppendRow) && i < |s.threads| && i != t && s.threads[i].HasRow()
    ensures Unstored(Next(s, t, AppendRow), s.threads[i].row.id)
  {
    assert ThreadOk(s, i) && PairOk(s, t, i);
  }

  /** A lookup searches under the read lock, so it finds what a scan of the rows would. */
  lemma SearchFinds(s: Db, t: nat)
    requires Inv(s) && t < |s.threads| && s.threads[t].FindHold?
    ensures var id := s.threads[t].id;
      Lookup(s.index[BucketIndex(id)], id) == FindRow(s.rows[BucketIndex(id)], id)
  {
    var b := BucketIndex(s.threads[t].id);
    forall j | 0 <= j < |s.threads|
      ensures !s.threads[j].Writes(b)
    {
      assert PairOk(s, j, t);
    }
    ReaderLookup(s, b, s.threads[t].id);
  }

  lemma SearchKept(s: Db, t: nat)
    requires Inv(s) && Enabled(s, t, Search)
    ensures ThreadOk(Next(s, t, Search), t)
  {
    var th := s.threads[t];
    assert ThreadOk(s, t);
    SearchFinds(s, t);
    FindRowCorrect(s.rows[BucketIndex(th.id)], th.id);
    assert th.begun[BucketIndex(th.id)] <= s.rows[BucketIndex(th.id)];
  }

  /** What a scan reads under the read lock is part of what is stored. */
  lemma ReadKept(s: Db, t: nat)
    requires Inv(s) && Enabled(s, t, ReadRow)
    ensures ThreadOk(Next(s, t, ReadRow), t)
  {
    assert ThreadOk(s, t);
  }

  lemma BucketRead(s: Db, t: nat)
    requires Inv(s) && Enabled(s, t, UnlockRead)
    ensures ThreadOk(Next(s, t, UnlockRead), t)
  {
    assert ThreadOk(s, t);
  }

  lemma OwnThreadKept(s: Db, t: nat, a: Action)
    requires Inv(s) && Enabled(s, t, a)
    ensures ThreadOk(Next(s, t, a), t)
  {
    assert ThreadOk(s, t);
    match a
    case Issue => assert BucketOk(s, BucketIndex(s.nextId));
    case Search => SearchKept(s, t);
    case ReadRow => ReadKept(s, t);
    case UnlockRead => BucketRead(s, t);
    case _ =>
  }

  lemma BucketsKept(s: Db, t: nat, a: Action, b: nat)
    requires Inv(s) && Enabled(s, t, a) && b < BUCKET_COUNT
    ensures BucketOk(Next(s, t, a), b)
  {
    match a
    case InsertIndex => IndexedBucket(s, t, b);
    case AppendRow => AppendedBucket(s, t, b);
    case _ => OtherBucket(s, t, a, b);
  }

  /** Only the two halves of an insertion concern a bucket. */
  lemma OtherBucket(s: Db, t: nat, a: Action, b: nat)
    requires Inv(s) && Enabled(s, t, a) && b < BUCKET_COUNT && a != InsertIndex && a != AppendRow
    ensures BucketOk(Next(s, t, a), b)
  {
    var s' := Next(s, t, a);
    assert BucketOk(s, b);
    assert !s.threads[t].Indexed? && !s'.threads[t].Indexed?;
    assert forall i :: 0 <= i < |s.threads| && i != t ==> s'.threads[i] == s.threads[i];
  }

  lemma IndexedBucket(s: Db, t: nat, b: nat)
    requires Inv(s) && Enabled(s, t, InsertIndex) && b < BUCKET_COUNT
    ensures BucketOk(Next(s, t, InsertIndex), b)
  {
    assert BucketOk(s, b) && ThreadOk(s, t);
    NoDuplicate(s, t);
    var s' := Next(s, t, InsertIndex);
    forall i | 0 <= i < |s.threads| && i != t
      ensures s'.threads[i] == s.threads[i] && (s.threads[t].Writes(b) ==> !s.threads[i].Writes(b))
    {
      assert PairOk(s, t, i);
    }
    assert s'.threads[t] == Indexed(s.threads[t].row);
    assert s'.threads[t].Writes(b) <==> s.threads[t].Writes(b);
  }

  lemma AppendedBucket(s: Db, t: nat, b: nat)
    requires Inv(s) && Enabled(s, t, AppendRow) && b < BUCKET_COUNT
    ensures BucketOk(Next(s, t, AppendRow), b)
  {
    assert BucketOk(s, b) && ThreadOk(s, t);
    var s' := Next(s, t, AppendRow);
    var row := s.threads[t].row;
    forall i | 0 <= i < |s.threads| && i != t
      ensures s'.threads[i] == s.threads[i] && (s.threads[t].Writes(b) ==> !s.threads[i].Writes(b))
    {
      assert PairOk(s, t, i);
    }
    if s.threads[t].Writes(b) {
      assert (s.rows[b] + [row])[..|s.rows[b]|] == s.rows[b];
    }
  }

  lemma IdsKept(s: Db, t: nat, a: Action, id: int)
    requires Inv(s) && Enabled(s, t, a)
    ensures IdOk(Next(s, t, a), id)
  {
    assert IdOk(s, id) && ThreadOk(s, t);
    var s' := Next(s, t, a);
    if a == InsertIndex {
      NoDuplicate(s, t);
    }
    if 1 <= id < s'.nextId && Unstored(s', id) {
      IdPending(s, t, a, id);
    }
  }

  lemma AppendStores(s: Db, t: nat)
    requires Shaped(s) && Enabled(s, t, AppendRow)
    ensures !Unstored(Next(s, t, AppendRow), s.threads[t].row.id)
  {
    var row := s.threads[t].row;
    var rows := Next(s, t, AppendRow).rows[BucketIndex(row.id)];
    assert rows[|rows| - 1] == row && row in rows;
  }

  /** An issued id that is not stored after a step is with a thread after it. */
  lemma IdPending(s: Db, t: nat, a: Action, id: int)
    requires Inv(s) && Enabled(s, t, a)
    requires 1 <= id < Next(s, t, a).nextId && Unstored(Next(s, t, a), id)
    requires a == InsertIndex ==> s.threads[t].row.id !in s.index[BucketIndex(s.threads[t].row.id)]
    ensures exists i :: 0 <= i < |s.threads| && Next(s, t, a).threads[i].HasRow() && Next(s, t, a).threads[i].row.id == id
  {
    var s' := Next(s, t, a);
    if a == Issue && id == s.nextId {
      assert s'.threads[t].HasRow() && s'.threads[t].row.id == id;
    } else {
      assert IdOk(s, id);
      assert Unstored(s, id) by {
        var b := BucketIndex(id);
        assert s.rows[b] <= s'.rows[b];
        assert forall r :: r in s.rows[b] ==> r in s'.rows[b];
      }
      var i :| 0 <= i < |s.threads| && s.threads[i].HasRow() && s.threads[i].row.id == id;
      if a == AppendRow {
        AppendStores(s, t);
      }
      assert s'.threads[i].HasRow() && s'.threads[i].row.id == id;
    }
  }

  /** Every step of every thread keeps the invariant. */
  lemma StepInv(s: Db, t: nat, a: Action)
    requires Inv(s) && Enabled(s, t, a)
    ensures Inv(Next(s, t, a))
  {
    var s' := Next(s, t, a);
    forall i | 0 <= i < |s'.threads|
      ensures ThreadOk(s', i)
    {
      if i == t {
        OwnThreadKept(s, t, a);
      } else {
        OtherThreadKept(s, t, a, i);
      }
    }
    forall i, j | 0 <= i < |s'.threads| && 0 <= j < |s'.threads|
      ensures PairOk(s', i, j)
    {
      PairsKept(s, t, a, i, j);
    }
    forall b | 0 <= b < BUCKET_COUNT
      ensures BucketOk(s', b)
    {
      BucketsKept(s, t, a, b);
    }
    forall id
      ensures IdOk(s', id)
    {
      IdsKept(s, t, a, id);
    }
  }

  // ---------------------------------------------------------------- whole runs

  datatype Step = Step(thread: nat, action: Action)

  ghost predicate IsRun(trace: seq<Db>, steps: seq<Step>) {
    && |trace| == |steps| + 1
    && forall i :: 0 <= i < |steps| ==>
         && Shaped(trace[i]) && Enabled(trace[i], steps[i].thread, steps[i].action)
         && trace[i + 1] == Next(trace[i], steps[i].thread, steps[i].action)
  }

  lemma {:induction false} RunInv(trace: seq<Db>, steps: seq<Step>, i: nat)
    requires IsRun(trace, steps) && Init(trace[0]) && i < |trace|
    ensures Inv(trace[i]) && |trace[i].threads| == |trace[0].threads|
  {
    if i == 0 {
      InitInv(trace[0]);
    } else {
      RunInv(trace, steps, i - 1);
      StepInv(trace[i - 1], steps[i - 1].thread, steps[i - 1].action);
    }
  }

  /** The buckets are append-only: stored rows stay where they are. */
  lemma {:induction false} RunAppends(trace: seq<Db>, steps: seq<Step>, i: nat, j: nat)
    requires IsRun(trace, steps) && Init(trace[0]) && i <= j < |trace|
    ensures Shaped(trace[i]) && Shaped(trace[j])
    ensures forall b :: 0 <= b < BUCKET_COUNT ==> trace[i].rows[b] <= trace[j].rows[b]
    decreases j
  {
    RunInv(trace, steps, i);
    RunInv(trace, steps, j);
    if i < j {
      RunAppends(trace, steps, i, j - 1);
      assert trace[j] == Next(trace[j - 1], steps[j - 1].thread, steps[j - 1].action);
    }
  }

  // ---------------------------------------------------------------- scans

  predicate Scanning(th: Thread) { th.ScanWait? || th.ScanHold? || th.Scanned? }

  /** Step `start` is the latest in which thread `t` took up what it is doing in state `i`. */
  ghost predicate StartedBy(steps: seq<Step>, t: nat, a: Action, start: nat, i: nat) {
    && start < i <= |steps| && steps[start] == Step(t, a)
    && forall k :: start < k < i ==> steps[k] != Step(t, a)
  }

  lemma StillStarted(steps: seq<Step>, t: nat, a: Action, start: nat, i: nat)
    requires i < |steps| && StartedBy(steps, t, a, start, i) && steps[i] != Step(t, a)
    ensures StartedBy(steps, t, a, start, i + 1)
  {
  }

  ghost predicate ReadAt(trace: seq<Db>, th: Thread, b: nat, k: nat) {
    Scanning(th) && b < |th.shares| && k < |trace| && b < |trace[k].rows| && th.shares[b] == trace[k].rows[b]
  }

  /** At some state from `start` to `i` bucket `b` held exactly what the scan read from it. */
  ghost predicate Moment(trace: seq<Db>, th: Thread, b: nat, start: nat, i: nat) {
    exists k :: start <= k <= i && ReadAt(trace, th, b, k)
  }

  /** Every scan was started by a step, and read each bucket as it was at one moment since then. */
  lemma {:induction false} ScanMoments(trace: seq<Db>, steps: seq<Step>, i: nat, t: nat) returns (start: nat)
    requires IsRun(trace, steps) && Init(trace[0]) && i < |trace|
    requires t < |trace[i].threads| && Scanning(trace[i].threads[t])
    ensures StartedBy(steps, t, StartScan, start, i) && trace[i].threads[t].begun == trace[start].rows
    ensures forall b :: 0 <= b < |trace[i].threads[t].shares| ==> Moment(trace, trace[i].threads[t], b, start, i)
  {
    assert i > 0;
    RunInv(trace, steps, i - 1);
    var p, th := trace[i - 1].threads[t], trace[i].threads[t];
    var step := steps[i - 1];
    assert trace[i] == Next(trace[i - 1], step.thread, step.action);
    if step.thread == t && step.action == StartScan {
      start := i - 1;
    } else {
      ScanStep(trace[i - 1], step.thread, step.action, t);
      start := ScanMoments(trace, steps, i - 1, t);
      StillStarted(steps, t, StartScan, start, i - 1);
      MomentsExtend(trace, p, th, start, i - 1, i);
    }
  }

  lemma MomentsExtend(trace: seq<Db>, p: Thread, th: Thread, start: nat, k: nat, i: nat)
    requires start <= k < |trace| && i == k + 1 && Scanning(p) && Scanning(th) && p.shares <= th.shares
    requires |th.shares| <= |p.shares| + 1 && (|p.shares| < |th.shares| ==> ReadAt(trace, th, |p.shares|, k))
    requires forall b :: 0 <= b < |p.shares| ==> Moment(trace, p, b, start, k)
    ensures forall b :: 0 <= b < |th.shares| ==> Moment(trace, th, b, start, i)
  {
    forall b | 0 <= b < |th.shares|
      ensures Moment(trace, th, b, start, i)
    {
      if b < |p.shares| {
        assert Moment(trace, p, b, start, k);
        var m :| start <= m <= k && ReadAt(trace, p, b, m);
        assert ReadAt(trace, th, b, m);
      } else {
        assert ReadAt(trace, th, b, k);
      }
    }
  }

  /** A scan under way keeps its beginning and what it read, and adds a whole bucket at a time. */
  lemma ScanStep(s: Db, j: nat, a: Action, t: nat)
    requires Inv(s) && Enabled(s, j, a) && t < |s.threads| && Scanning(Next(s, j, a).threads[t])
    requires !(j == t && a == StartScan)
    ensures var p, th := s.threads[t], Next(s, j, a).threads[t];
      && Scanning(p) && p.begun == th.begun && p.shares <= th.shares && |th.shares| <= |p.shares| + 1
      && (|th.shares| > |p.shares| ==>
            |p.shares| < |s.rows| && th.shares[|p.shares|] == s.rows[|p.shares|])
  {
    assert ThreadOk(s, t);
  }

  lemma PrefixBucketed(s: Db, shares: seq<seq<Record>>)
    requires Inv(s) && |shares| <= BUCKET_COUNT
    requires forall b :: 0 <= b < |shares| ==> shares[b] <= s.rows[b]
    ensures Bucketed(shares)
  {
    forall b | 0 <= b < |shares|
      ensures Distinct(shares[b]) && forall r :: r in shares[b] ==> BucketIndex(r.id) == b
    {
      assert BucketOk(s, b);
      assert forall r :: r in shares[b] ==> r in s.rows[b];
      assert forall i :: 0 <= i < |shares[b]| ==> shares[b][i] == s.rows[b][i];
    }
  }

  /**
   * A finished scan has every row stored when it began, only rows stored by the time it ended, no
   * row twice, and all of them in strictly ascending id order.
   */
  lemma ScanCorrect(s: Db, t: nat)
    requires Inv(s) && t < |s.threads| && s.threads[t].Scanned?
    ensures Ascending(s.threads[t].result)
    ensures |s.threads[t].begun| == BUCKET_COUNT
    ensures forall b, r :: 0 <= b < BUCKET_COUNT && r in s.threads[t].begun[b] ==> r in s.threads[t].result
    ensures forall r :: r in s.threads[t].result ==> r in s.rows[BucketIndex(r.id)]
  {
    var th := s.threads[t];
    assert ThreadOk(s, t);
    PrefixBucketed(s, th.shares);
    CollectedCorrect(th.shares);
    forall b, r | 0 <= b < BUCKET_COUNT && r in th.begun[b]
      ensures r in th.result
    {
      assert th.begun[b] <= th.shares[b];
      assert r in th.shares[b];
      assert Bucketed(th.shares);
      assert BucketIndex(r.id) == b;
    }
  }

  /** The same for a run, with the step that started the scan. */
  lemma FinishedScan(trace: seq<Db>, steps: seq<Step>, i: nat, t: nat) returns (start: nat)
    requires IsRun(trace, steps) && Init(trace[0]) && i < |trace|
    requires t < |trace[i].threads| && trace[i].threads[t].Scanned?
    ensures Shaped(trace[i]) && StartedBy(steps, t, StartScan, start, i) && Shaped(trace[start])
    ensures trace[i].threads[t].begun == trace[start].rows
    ensures trace[i].threads[t].result == SortById(Concat(trace[i].threads[t].shares))
    ensures |trace[i].threads[t].shares| == BUCKET_COUNT &&
            forall b :: 0 <= b < BUCKET_COUNT ==> Moment(trace, trace[i].threads[t], b, start, i)
    ensures Ascending(trace[i].threads[t].result)
    ensures forall b, r :: 0 <= b < BUCKET_COUNT && r in trace[start].rows[b] ==> r in trace[i].threads[t].result
    ensures forall r :: r in trace[i].threads[t].result ==> r in trace[i].rows[BucketIndex(r.id)]
  {
    start := ScanMoments(trace, steps, i, t);
    RunInv(trace, steps, i);
    RunInv(trace, steps, start);
    assert ThreadOk(trace[i], t);
    ScanCorrect(trace[i], t);
  }

  // ---------------------------------------------------------------- lookups, quiescence, deadlock

  /** Whoever may read a bucket finds in its index what a scan of its rows would find. */
  lemma ReaderLookup(s: Db, b: nat, id: int)
    requires Inv(s) && b < BUCKET_COUNT && forall j :: 0 <= j < |s.threads| ==> !s.threads[j].Writes(b)
    ensures Lookup(s.index[b], id) == FindRow(s.rows[b], id)
  {
    assert BucketOk(s, b);
    IndexIsScan(s.rows[b], id);
  }

  ghost predicate HasId(rows: seq<Record>, id: int) {
    exists i :: 0 <= i < |rows| && rows[i].id == id
  }

  /** With no insertion under way, the stored ids are exactly 1, ..., nextId - 1, each stored once. */
  lemma Quiescent(s: Db)
    requires Inv(s) && forall i :: 0 <= i < |s.threads| ==> !s.threads[i].HasRow()
    ensures forall id :: 1 <= id < s.nextId <==> !Unstored(s, id)
    ensures |SortById(Concat(s.rows))| == s.nextId - 1
    ensures forall i :: 0 <= i < s.nextId - 1 ==> SortById(Concat(s.rows))[i].id == i + 1
  {
    PrefixBucketed(s, s.rows);
    CollectedCorrect(s.rows);
    var all := SortById(Concat(s.rows));
    forall id
      ensures 1 <= id < s.nextId <==> !Unstored(s, id)
      ensures !Unstored(s, id) <==> HasId(all, id)
    {
      assert IdOk(s, id) && BucketOk(s, BucketIndex(id));
      StoredHasId(s, all, id);
    }
    CountingUp(all, s.nextId - 1);
  }

  lemma StoredHasId(s: Db, all: seq<Record>, id: int)
    requires Shaped(s) && forall r :: r in all <==> r in s.rows[BucketIndex(r.id)]
    ensures !Unstored(s, id) <==> HasId(all, id)
  {
    if !Unstored(s, id) {
      var r :| r in s.rows[BucketIndex(id)] && r.id == id;
      assert r in all;
    }
    if HasId(all, id) {
      var i :| 0 <= i < |all| && all[i].id == id;
      assert all[i] in all;
    }
  }

  /** An ascending sequence whose ids are exactly 1, ..., n is numbered from one. */
  lemma {:induction false} CountingUp(rows: seq<Record>, n: nat)
    requires Ascending(rows) && forall id :: 1 <= id <= n <==> HasId(rows, id)
    ensures |rows| == n && forall i :: 0 <= i < n ==> rows[i].id == i + 1
  {
    assert HasId(rows, n) <==> n >= 1;
    if rows != [] {
      var init, last := rows[..|rows| - 1], rows[|rows| - 1];
      assert HasId(rows, last.id);
      assert last.id == n;
      forall id
        ensures 1 <= id <= n - 1 <==> HasId(init, id)
      {
        IdsWithoutLast(rows, id);
      }
      CountingUp(init, n - 1);
    }
  }

  lemma IdsWithoutLast(rows: seq<Record>, id: int)
    requires Ascending(rows) && rows != []
    ensures HasId(rows[..|rows| - 1], id) <==> HasId(rows, id) && id != rows[|rows| - 1].id
  {
    var init, last := rows[..|rows| - 1], rows[|rows| - 1];
    if HasId(init, id) {
      var i :| 0 <= i < |init| && init[i].id == id;
      assert rows[i].id == id;
    }
    if HasId(rows, id) && id != last.id {
      var i :| 0 <= i < |rows| && rows[i].id == id;
      assert init[i].id == id;
    }
  }

  /** A thread that waits for a lock or holds one. */
  predicate Active(th: Thread) {
    !th.Idle? && !th.Found? && !th.Scanned?
  }

  predicate Holds(th: Thread) {
    th.IdHold? || th.Writing? || th.Indexed? || th.FindHold? || th.FindSeen? || th.ScanHold?
  }

  /** A thread that holds a lock can take its next step; no thread ever waits while holding one. */
  lemma HolderMoves(s: Db, t: nat)
    requires Inv(s) && t < |s.threads|
    requires Holds(s.threads[t])
    ensures exists a :: Enabled(s, t, a)
  {
    assert ThreadOk(s, t);
    match s.threads[t]
    case IdHold(_, _) => assert Enabled(s, t, Issue);
    case Writing(_) => assert Enabled(s, t, InsertIndex);
    case Indexed(_) => assert Enabled(s, t, AppendRow);
    case FindHold(_, _) => assert Enabled(s, t, Search);
    case FindSeen(_, _, _) => assert Enabled(s, t, UnlockFind);
    case ScanHold(shares, part, _) =>
      if |part| < |s.rows[|shares|]| {
        assert Enabled(s, t, ReadRow);
      } else {
        assert Enabled(s, t, UnlockRead);
      }
  }

  /** No deadlock: while an insertion, lookup or scan is under way, some thread engaged in one can move. */
  lemma NoDeadlock(s: Db, t: nat)
    requires Inv(s) && t < |s.threads| && Active(s.threads[t])
    ensures exists j, a :: 0 <= j < |s.threads| && Active(s.threads[j]) && Enabled(s, j, a)
  {
    if j :| 0 <= j < |s.threads| && Holds(s.threads[j]) {
      HolderMoves(s, j);
    } else {
      match s.threads[t]
      case IdWait(_, _) => assert Enabled(s, t, LockId);
      case Issued(_) => assert Enabled(s, t, LockWrite);
      case FindWait(_, _) => assert Enabled(s, t, LockFind);
      case ScanWait(_, _) => assert Enabled(s, t, LockRead);
    }
  }
}
