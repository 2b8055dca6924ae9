/**
 * A concurrent run of sql_processor/table.c in which a full scan returns what the table held at no
 * moment.
 */
module ScanWitness {
  import opened Records
  import opened Rows
  import opened ConcurrentTables
  import opened Histories

  /** A run together with its last state. */
  datatype Run = Run(trace: seq<Db>, steps: seq<Step>)
  {
    ghost predicate Valid() {
      IsRun(trace, steps) && Init(trace[0]) && Shaped(Last())
    }

    ghost function Last(): Db
      requires |trace| > 0
    {
      trace[|trace| - 1]
    }
  }

  lemma Continue(r: Run, t: nat, a: Action) returns (q: Run)
    requires r.Valid() && Enabled(r.Last(), t, a)
    ensures q.Valid() && q.trace == r.trace + [Next(r.Last(), t, a)]
  {
    q := Run(r.trace + [Next(r.Last(), t, a)], r.steps + [Step(t, a)]);
    assert q.trace[0] == r.trace[0];
    forall i | 0 <= i < |q.steps|
      ensures Shaped(q.trace[i]) && Enabled(q.trace[i], q.steps[i].thread, q.steps[i].action)
      ensures q.trace[i + 1] == Next(q.trace[i], q.steps[i].thread, q.steps[i].action)
    {
      if i < |r.steps| {
        assert q.trace[i] == r.trace[i] && q.trace[i + 1] == r.trace[i + 1] && q.steps[i] == r.steps[i];
      }
    }
  }

  /** Nobody but perhaps thread `t` holds a lock. */
  ghost predicate Calm(s: Db, t: nat) {
    forall j :: 0 <= j < |s.threads| && j != t ==> s.threads[j].Idle? || s.threads[j].ScanWait?
  }

  /** `q` goes on from `r`, and in between the rows are those at the end of `r`. */
  ghost predicate Extends(q: Run, r: Run)
    requires |r.trace| > 0
  {
    && |r.trace| < |q.trace| && r.trace == q.trace[..|r.trace|]
    && forall k :: |r.trace| <= k < |q.trace| - 1 ==> q.trace[k].rows == r.Last().rows
  }

  lemma GoOn(r0: Run, r: Run, t: nat, a: Action) returns (q: Run)
    requires |r0.trace| > 0 && r.Valid() && Enabled(r.Last(), t, a)
    requires r == r0 || (Extends(r, r0) && r.Last().rows == r0.Last().rows)
    ensures q.Valid() && Extends(q, r0) && q.Last() == Next(r.Last(), t, a)
  {
    q := Continue(r, t, a);
  }

  /** The first half of an insertion: the id is issued and the bucket is locked. */
  lemma BeginInsert(r: Run, t: nat, name: string, age: int) returns (q: Run)
    requires r.Valid() && t < |r.Last().threads| && r.Last().threads[t].Idle? && Calm(r.Last(), t)
    ensures q.Valid() && Extends(q, r)
    ensures var s, row := r.Last(), Record(r.Last().nextId, StoredName(name), age);
      q.Last() == s.(nextId := s.nextId + 1, threads := s.threads[t := Writing(row)])
  {
    q := GoOn(r, r, t, StartInsert(name, age));
    q := GoOn(r, q, t, LockId);
    q := GoOn(r, q, t, Issue);
    q := GoOn(r, q, t, LockWrite);
  }

  /** An insertion that meets no other lock holder goes through and stores its row. */
  lemma WholeInsert(r: Run, t: nat, name: string, age: int) returns (q: Run)
    requires r.Valid() && t < |r.Last().threads| && r.Last().threads[t].Idle? && Calm(r.Last(), t)
    ensures q.Valid() && Extends(q, r)
    ensures var s, row := r.Last(), Record(r.Last().nextId, StoredName(name), age);
            var b := BucketIndex(row.id);
      && q.Last().nextId == s.nextId + 1 && q.Last().threads == s.threads
      && q.Last().rows == s.rows[b := s.rows[b] + [row]]
  {
    q := BeginInsert(r, t, name, age);
    RunInv(q.trace, q.steps, |q.trace| - 1);
    NoDuplicate(q.Last(), t);
    q := GoOn(r, q, t, InsertIndex);
    q := GoOn(r, q, t, AppendRow);
    assert q.Last().threads == r.Last().threads;
  }

  /** A scan that meets no writer reads its next bucket as it is, here one with at most one row. */
  lemma WholeRead(r: Run, t: nat) returns (q: Run)
    requires r.Valid() && t < |r.Last().threads| && r.Last().threads[t].ScanWait? && Calm(r.Last(), t)
    requires |r.Last().threads[t].shares| < BUCKET_COUNT && |r.Last().rows[|r.Last().threads[t].shares|]| <= 1
    ensures q.Valid() && Extends(q, r)
    ensures var s, th := r.Last(), r.Last().threads[t];
            var shares := th.shares + [s.rows[|th.shares|]];
      q.Last() == s.(threads := s.threads[t :=
        if |shares| == BUCKET_COUNT then Scanned(SortById(Concat(shares)), shares, th.begun)
        else ScanWait(shares, th.begun)])
  {
    var s := r.Last();
    var bucket := s.rows[|s.threads[t].shares|];
    q := GoOn(r, r, t, LockRead);
    if |bucket| == 1 {
      q := GoOn(r, q, t, ReadRow);
      assert [] + [bucket[0]] == bucket;
    }
    q := GoOn(r, q, t, UnlockRead);
  }

  /** Bucket 2 is not filled before bucket 1. */
  ghost predicate InOrder(s: Db) {
    |s.rows| == BUCKET_COUNT && (s.rows[2] != [] ==> s.rows[1] != [])
  }

  ghost predicate AllInOrder(r: Run) {
    forall k :: 0 <= k < |r.trace| ==> InOrder(r.trace[k])
  }

  lemma StillInOrder(q: Run, r: Run)
    requires |r.trace| > 0 && AllInOrder(r) && Extends(q, r) && InOrder(q.Last())
    ensures AllInOrder(q)
  {
    forall k | 0 <= k < |q.trace|
      ensures InOrder(q.trace[k])
    {
      if k < |r.trace| {
        assert q.trace[k] == r.trace[k];
      }
    }
  }

  /** A reading thread 0 beside an idle thread 1, after a run that kept the order. */
  ghost predicate Scene(r: Run) {
    && r.Valid() && AllInOrder(r) && |r.Last().threads| == 2
    && r.Last().threads[0].ScanWait? && r.Last().threads[1].Idle?
  }

  ghost function Seen(r: Run): seq<seq<Record>>
    requires Scene(r)
  {
    r.Last().threads[0].shares
  }

  lemma SceneReads(r: Run) returns (q: Run)
    requires Scene(r) && |Seen(r)| + 1 < BUCKET_COUNT && |r.Last().rows[|Seen(r)|]| <= 1
    ensures Scene(q) && q.Last().nextId == r.Last().nextId && q.Last().rows == r.Last().rows
    ensures Seen(q) == Seen(r) + [r.Last().rows[|Seen(r)|]]
  {
    q := WholeRead(r, 0);
    StillInOrder(q, r);
  }

  lemma SceneInserts(r: Run) returns (q: Run)
    requires Scene(r) && (BucketIndex(r.Last().nextId) == 2 ==> r.Last().rows[1] != [])
    ensures Scene(q) && q.Last().nextId == r.Last().nextId + 1 && Seen(q) == Seen(r)
    ensures var rows, b, row := r.Last().rows, BucketIndex(r.Last().nextId), Record(r.Last().nextId, "a", 1);
      q.Last().rows == rows[b := rows[b] + [row]]
  {
    q := WholeInsert(r, 1, "a", 1);
    StillInOrder(q, r);
  }

  lemma SceneOpens() returns (r: Run)
    ensures Scene(r) && Seen(r) == [] && r.Last().nextId == 1
    ensures forall b :: 0 <= b < BUCKET_COUNT ==> r.Last().rows[b] == []
  {
    var s := Db(1, seq(BUCKET_COUNT, _ => []), seq(BUCKET_COUNT, _ => map[]), [Idle, Idle]);
    var r0 := Run([s], []);
    r := GoOn(r0, r0, 0, StartScan);
    StillInOrder(r, r0);
  }

  /** The reader has passed bucket 1 when two rows are stored, and then finds the later one. */
  lemma SceneOvertakes() returns (r: Run)
    ensures Scene(r) && |Seen(r)| == 3 && Seen(r)[1] == [] && Seen(r)[2] != []
    ensures forall b :: 3 <= b < BUCKET_COUNT ==> r.Last().rows[b] == []
  {
    r := SceneOpens();
    r := SceneReads(r);
    r := SceneReads(r);
    r := SceneInserts(r);
    r := SceneInserts(r);
    r := SceneReads(r);
  }

  /** It goes on to the last bucket and answers. */
  lemma SceneEnds(r: Run) returns (q: Run)
    requires Scene(r) && 3 <= |Seen(r)| < BUCKET_COUNT
    requires forall b :: 3 <= b < BUCKET_COUNT ==> r.Last().rows[b] == []
    ensures q.Valid() && AllInOrder(q) && |q.Last().threads| == 2 && q.Last().threads[0].Scanned?
    ensures Seen(r) <= q.Last().threads[0].shares
    decreases BUCKET_COUNT - |Seen(r)|
  {
    if |Seen(r)| + 1 < BUCKET_COUNT {
      q := SceneReads(r);
      q := SceneEnds(q);
    } else {
      q := WholeRead(r, 0);
      StillInOrder(q, r);
    }
  }

  lemma LastInv(r: Run)
    requires r.Valid()
    ensures Inv(r.Last())
  {
    RunInv(r.trace, r.steps, |r.trace| - 1);
  }

  /** A result with a row of bucket 2 but none of bucket 1 is no table that was filled in order. */
  lemma NeverShown(r: Run, k: nat, shares: seq<seq<Record>>)
    requires r.Valid() && AllInOrder(r) && k < |r.trace|
    requires Bucketed(shares) && |shares| == BUCKET_COUNT && shares[1] == [] && shares[2] != []
    ensures !Shows(r.trace, k, SortById(Concat(shares)))
  {
    RunInv(r.trace, r.steps, k);
    TableMembers(r.trace[k]);
    CollectedCorrect(shares);
    var result := SortById(Concat(shares));
    assert shares[2][0] in shares[2];
    assert shares[2][0] in result && InOrder(r.trace[k]);
    if Stored(r.trace[k], shares[2][0]) {
      var x := r.trace[k].rows[1][0];
      assert x in r.trace[k].rows[1] && BucketOk(r.trace[k], 1);
      assert Stored(r.trace[k], x) && x !in result;
    }
  }

  /**
   * A scan is no snapshot: it can pass bucket 1, let the ids 1 and 2 be stored, and then find id 2
   * in bucket 2. What this finished scan returns was the table at no moment of the run, and one of
   * the rows it returns was stored after one it missed.
   */
  lemma NoSnapshot() returns (r: Run)
    ensures r.Valid() && |r.Last().threads| == 2 && r.Last().threads[0].Scanned?
    ensures forall k :: 0 <= k < |r.trace| ==> !Shows(r.trace, k, r.Last().threads[0].result)
    ensures !NoOvertaking(r.trace, r.steps, |r.steps|, r.Last().threads[0].result)
  {
    r := SceneOvertakes();
    r := SceneEnds(r);
    LastInv(r);
    var th := r.Last().threads[0];
    assert ThreadOk(r.Last(), 0);
    PrefixBucketed(r.Last(), th.shares);
    forall k | 0 <= k < |r.trace|
      ensures !Shows(r.trace, k, th.result)
    {
      NeverShown(r, k, th.shares);
    }
    var start := SnapshotExactly(r.trace, r.steps, |r.steps|, 0);
  }
}
