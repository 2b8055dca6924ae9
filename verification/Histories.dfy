/**
 * What clients of sql_processor/table.c can tell from whole concurrent runs: when each row was
 * stored, that every lookup answers as of one moment, and exactly when a full scan does.
 */
module Histories {
  import opened Wrappers
  import opened Records
  import opened Rows
  import opened ConcurrentTables

  // ---------------------------------------------------------------- when rows are stored

  ghost predicate Stored(s: Db, r: Record)
    requires Shaped(s)
  {
    r in s.rows[BucketIndex(r.id)]
  }

  /** Step `m` is the one that stores the row. */
  ghost predicate StoresAt(trace: seq<Db>, steps: seq<Step>, m: nat, r: Record) {
    && m < |steps| && m < |trace| && steps[m].action == AppendRow
    && steps[m].thread < |trace[m].threads| && trace[m].threads[steps[m].thread] == Indexed(r)
  }

  /** A step stores at most one row, and only where `StoresAt` says. */
  lemma StepStores(s: Db, t: nat, a: Action, r: Record)
    requires Inv(s) && Enabled(s, t, a)
    ensures Stored(Next(s, t, a), r) <==> Stored(s, r) || (a == AppendRow && s.threads[t] == Indexed(r))
    ensures a == AppendRow && s.threads[t] == Indexed(r) ==> !Stored(s, r)
  {
    assert ThreadOk(s, t);
    if a == AppendRow {
      var row := s.threads[t].row;
      AppendStores(s, t);
      assert forall x :: x in s.rows[BucketIndex(row.id)] + [row] <==> x in s.rows[BucketIndex(row.id)] || x == row;
    }
  }

  ghost predicate StoredBefore(trace: seq<Db>, steps: seq<Step>, i: nat, r: Record) {
    exists m: nat :: m < i && StoresAt(trace, steps, m, r)
  }

  lemma StoredBeforeNext(trace: seq<Db>, steps: seq<Step>, i: nat, r: Record)
    ensures StoredBefore(trace, steps, i + 1, r) <==> StoredBefore(trace, steps, i, r) || StoresAt(trace, steps, i, r)
  {
  }

  /** A row is stored in a state exactly when some earlier step stored it. */
  lemma {:induction false} StoredByStep(trace: seq<Db>, steps: seq<Step>, i: nat, r: Record)
    requires IsRun(trace, steps) && Init(trace[0]) && i < |trace|
    ensures Shaped(trace[i])
    ensures Stored(trace[i], r) <==> StoredBefore(trace, steps, i, r)
  {
    RunInv(trace, steps, i);
    if i > 0 {
      RunInv(trace, steps, i - 1);
      StoredByStep(trace, steps, i - 1, r);
      var step := steps[i - 1];
      assert trace[i] == Next(trace[i - 1], step.thread, step.action);
      StepStores(trace[i - 1], step.thread, step.action, r);
      StoredBeforeNext(trace, steps, i - 1, r);
    }
  }

  /** So a row that step `m` stores is in the table from then on and not before. */
  lemma StoredSince(trace: seq<Db>, steps: seq<Step>, m: nat, i: nat, r: Record)
    requires IsRun(trace, steps) && Init(trace[0]) && i < |trace| && StoresAt(trace, steps, m, r)
    ensures Shaped(trace[i]) && (Stored(trace[i], r) <==> m < i)
  {
    RunInv(trace, steps, m);
    StepStores(trace[m], steps[m].thread, AppendRow, r);
    StoredByStep(trace, steps, i, r);
    if m >= i {
      RunAppends(trace, steps, i, m);
    }
  }

  // ---------------------------------------------------------------- lookups

  predicate Finding(th: Thread) { th.FindWait? || th.FindHold? || th.FindSeen? || th.Found? }

  /** The answer of the lookup is that of a scan of its bucket in state `k`. */
  ghost predicate AnswersAt(trace: seq<Db>, th: Thread, k: nat) {
    && (th.FindSeen? || th.Found?) && k < |trace| && Shaped(trace[k])
    && th.found == FindRow(trace[k].rows[BucketIndex(th.id)], th.id)
  }

  ghost predicate Answers(trace: seq<Db>, th: Thread, start: nat, i: nat) {
    th.FindSeen? || th.Found? ==> exists k :: start <= k <= i && AnswersAt(trace, th, k)
  }

  lemma FindStep(s: Db, j: nat, a: Action, t: nat)
    requires Inv(s) && Enabled(s, j, a) && t < |s.threads| && Finding(Next(s, j, a).threads[t])
    requires !(j == t && a == StartFind(Next(s, j, a).threads[t].id))
    ensures var p, th := s.threads[t], Next(s, j, a).threads[t];
      && Finding(p) && p.id == th.id && p.begun == th.begun
      && (th.FindSeen? || th.Found? ==>
            || ((p.FindSeen? || p.Found?) && p.found == th.found)
            || th.found == FindRow(s.rows[BucketIndex(th.id)], th.id))
  {
    if j == t && a == Search {
      SearchFinds(s, t);
    }
  }

  /** Every lookup was started by a step, and answers as of one moment since then. */
  lemma {:induction false} FindMoment(trace: seq<Db>, steps: seq<Step>, i: nat, t: nat) returns (start: nat)
    requires IsRun(trace, steps) && Init(trace[0]) && i < |trace|
    requires t < |trace[i].threads| && Finding(trace[i].threads[t])
    ensures var th := trace[i].threads[t];
      && StartedBy(steps, t, StartFind(th.id), start, i) && th.begun == trace[start].rows
      && Answers(trace, th, start, i)
  {
    assert i > 0;
    RunInv(trace, steps, i - 1);
    var p, th := trace[i - 1].threads[t], trace[i].threads[t];
    var step := steps[i - 1];
    assert trace[i] == Next(trace[i - 1], step.thread, step.action);
    if step == Step(t, StartFind(th.id)) {
      start := i - 1;
    } else {
      FindStep(trace[i - 1], step.thread, step.action, t);
      start := FindMoment(trace, steps, i - 1, t);
      StillStarted(steps, t, StartFind(th.id), start, i - 1);
      AnswerStays(trace, p, th, start, i - 1);
    }
  }

  lemma AnswerStays(trace: seq<Db>, p: Thread, th: Thread, start: nat, k: nat)
    requires start <= k < |trace| && Shaped(trace[k]) && Finding(p) && Finding(th) && p.id == th.id
    requires Answers(trace, p, start, k)
    requires th.FindSeen? || th.Found? ==>
               || ((p.FindSeen? || p.Found?) && p.found == th.found)
               || th.found == FindRow(trace[k].rows[BucketIndex(th.id)], th.id)
    ensures Answers(trace, th, start, k + 1)
  {
    if th.FindSeen? || th.Found? {
      if (p.FindSeen? || p.Found?) && p.found == th.found {
        var m :| start <= m <= k && AnswersAt(trace, p, m);
        assert AnswersAt(trace, th, m);
      } else {
        assert AnswersAt(trace, th, k);
      }
    }
  }

  /**
   * A finished lookup answers as of one moment since it began: it finds every row stored before it
   * began, and only rows stored by the time it ended.
   */
  lemma FinishedFind(trace: seq<Db>, steps: seq<Step>, i: nat, t: nat) returns (start: nat)
    requires IsRun(trace, steps) && Init(trace[0]) && i < |trace|
    requires t < |trace[i].threads| && trace[i].threads[t].Found?
    ensures var th := trace[i].threads[t];
      && StartedBy(steps, t, StartFind(th.id), start, i) && Shaped(trace[i])
      && (exists k :: start <= k <= i && AnswersAt(trace, th, k))
      && (th.found.Some? ==> Stored(trace[i], th.found.value) && th.found.value.id == th.id)
      && (forall m: nat, r :: m < start && StoresAt(trace, steps, m, r) && r.id == th.id ==> th.found == Some(r))
  {
    start := FindMoment(trace, steps, i, t);
    RunInv(trace, steps, i);
    assert ThreadOk(trace[i], t);
    var th := trace[i].threads[t];
    forall m: nat, r | m < start && StoresAt(trace, steps, m, r) && r.id == th.id
      ensures th.found == Some(r)
    {
      StoredSince(trace, steps, m, start, r);
      StoredSince(trace, steps, m, i, r);
      assert BucketOk(trace[i], BucketIndex(r.id));
    }
  }

  // ---------------------------------------------------------------- snapshots

  /** The result is the whole table of state `k`, sorted. */
  ghost predicate Shows(trace: seq<Db>, k: nat, result: seq<Record>) {
    k < |trace| && Shaped(trace[k]) && result == SortById(Concat(trace[k].rows))
  }

  ghost predicate IsSnapshot(trace: seq<Db>, start: nat, i: nat, result: seq<Record>) {
    exists k :: start <= k <= i && Shows(trace, k, result)
  }

  /** No returned row was stored after a row that the scan missed. */
  ghost predicate NoOvertaking(trace: seq<Db>, steps: seq<Step>, i: nat, result: seq<Record>) {
    forall m: nat, n: nat, q, r ::
      m < n < i && StoresAt(trace, steps, m, q) && StoresAt(trace, steps, n, r) && r in result ==> q in result
  }

  lemma TableMembers(s: Db)
    requires Inv(s)
    ensures Ascending(SortById(Concat(s.rows)))
    ensures forall r :: r in SortById(Concat(s.rows)) <==> Stored(s, r)
  {
    PrefixBucketed(s, s.rows);
    CollectedCorrect(s.rows);
  }

  lemma ShownIsFair(trace: seq<Db>, steps: seq<Step>, i: nat, k: nat, result: seq<Record>)
    requires IsRun(trace, steps) && Init(trace[0]) && k <= i < |trace| && Shows(trace, k, result)
    ensures NoOvertaking(trace, steps, i, result)
  {
    RunInv(trace, steps, k);
    TableMembers(trace[k]);
    forall m: nat, n: nat, q, r |
      m < n < i && StoresAt(trace, steps, m, q) && StoresAt(trace, steps, n, r) && r in result
      ensures q in result
    {
      StoredSince(trace, steps, n, k, r);
      StoredSince(trace, steps, m, k, q);
    }
  }

  /** Every returned row is stored in state `k`. */
  ghost predicate Covers(trace: seq<Db>, k: nat, result: seq<Record>) {
    k < |trace| && Shaped(trace[k]) && forall r :: r in result ==> Stored(trace[k], r)
  }

  /** The first state since `start` in which everything returned is stored. */
  lemma {:induction false} FirstCover(trace: seq<Db>, steps: seq<Step>, start: nat, i: nat, result: seq<Record>)
    returns (k: nat)
    requires IsRun(trace, steps) && Init(trace[0]) && start <= i < |trace| && Covers(trace, i, result)
    ensures start <= k <= i && Covers(trace, k, result)
    ensures k == start || !Covers(trace, k - 1, result)
    decreases i
  {
    if i > start && Covers(trace, i - 1, result) {
      k := FirstCover(trace, steps, start, i - 1, result);
    } else {
      k := i;
    }
  }

  /** Where the last returned row is stored, everything stored is returned. */
  lemma FairAtCover(trace: seq<Db>, steps: seq<Step>, k: nat, i: nat, result: seq<Record>, q: Record)
    requires IsRun(trace, steps) && Init(trace[0]) && 0 < k <= i < |trace|
    requires NoOvertaking(trace, steps, i, result) && Covers(trace, k, result) && !Covers(trace, k - 1, result)
    requires Stored(trace[k], q)
    ensures q in result
  {
    RunInv(trace, steps, k - 1);
    var r :| r in result && !Stored(trace[k - 1], r);
    StoredByStep(trace, steps, k - 1, r);
    StoredByStep(trace, steps, k, r);
    StoredBeforeNext(trace, steps, k - 1, r);
    StoredByStep(trace, steps, k, q);
    var m: nat :| m < k && StoresAt(trace, steps, m, q);
    assert m == k - 1 ==> q == r;
  }

  lemma FairIsShown(trace: seq<Db>, steps: seq<Step>, start: nat, i: nat, result: seq<Record>)
    requires IsRun(trace, steps) && Init(trace[0]) && start <= i < |trace| && Ascending(result)
    requires Covers(trace, i, result) && Shaped(trace[start])
    requires forall q :: Stored(trace[start], q) ==> q in result
    requires NoOvertaking(trace, steps, i, result)
    ensures IsSnapshot(trace, start, i, result)
  {
    var k := FirstCover(trace, steps, start, i, result);
    RunInv(trace, steps, k);
    TableMembers(trace[k]);
    forall q
      ensures q in result <==> Stored(trace[k], q)
    {
      if k > start && Stored(trace[k], q) {
        FairAtCover(trace, steps, k, i, result, q);
      }
    }
    AscendingUnique(result, SortById(Concat(trace[k].rows)));
    assert Shows(trace, k, result);
  }

  /**
   * A finished scan returns the table of one moment since it began if and only if no returned row
   * was stored after a row it missed.
   */
  lemma SnapshotExactly(trace: seq<Db>, steps: seq<Step>, i: nat, t: nat) returns (start: nat)
    requires IsRun(trace, steps) && Init(trace[0]) && i < |trace|
    requires t < |trace[i].threads| && trace[i].threads[t].Scanned?
    ensures StartedBy(steps, t, StartScan, start, i) && trace[i].threads[t].begun == trace[start].rows
    ensures var result := trace[i].threads[t].result;
      && (IsSnapshot(trace, start, i, result) <==> NoOvertaking(trace, steps, i, result))
      && (IsSnapshot(trace, 0, i, result) ==> IsSnapshot(trace, start, i, result))
  {
    start := FinishedScan(trace, steps, i, t);
    var result := trace[i].threads[t].result;
    assert IsSnapshot(trace, start, i, result) ==> IsSnapshot(trace, 0, i, result);
    if IsSnapshot(trace, 0, i, result) {
      var k :| 0 <= k <= i && Shows(trace, k, result);
      ShownIsFair(trace, steps, i, k, result);
    }
    if NoOvertaking(trace, steps, i, result) {
      FairIsShown(trace, steps, start, i, result);
    }
  }

  /** When nothing was stored since it began, a finished scan is the whole table. */
  lemma QuietScan(trace: seq<Db>, steps: seq<Step>, i: nat, t: nat)
    requires IsRun(trace, steps) && Init(trace[0]) && i < |trace|
    requires t < |trace[i].threads| && trace[i].threads[t].Scanned? && trace[i].threads[t].begun == trace[i].rows
    ensures trace[i].threads[t].result == SortById(Concat(trace[i].rows))
  {
    var start := SnapshotExactly(trace, steps, i, t);
    var result := trace[i].threads[t].result;
    RunInv(trace, steps, i);
    ScanCorrect(trace[i], t);
    forall m: nat, n: nat, q, r |
      m < n < i && StoresAt(trace, steps, m, q) && StoresAt(trace, steps, n, r) && r in result
      ensures q in result
    {
      StoredSince(trace, steps, m, i, q);
    }
    var k :| start <= k <= i && Shows(trace, k, result);
    RunAppends(trace, steps, start, k);
    RunAppends(trace, steps, k, i);
    SameRows(trace[start].rows, trace[k].rows);
  }

  lemma SameRows(a: seq<seq<Record>>, b: seq<seq<Record>>)
    requires |a| == |b| == BUCKET_COUNT
    requires forall i :: 0 <= i < BUCKET_COUNT ==> a[i] <= b[i]
    requires forall i :: 0 <= i < BUCKET_COUNT ==> b[i] <= a[i]
    ensures a == b
  {
    forall i | 0 <= i < BUCKET_COUNT
      ensures a[i] == b[i]
    {
      assert a[i] <= b[i] <= a[i];
    }
  }
}
