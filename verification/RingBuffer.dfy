/**
 * The bounded job queue inside server/thread_pool.c: a ring of file descriptors with head, tail
 * and size. The critical sections of the pool are methods on its fields; each is proved to be a
 * step on the ring as a value, and the steps are proved to be those of a FIFO queue.
 */
module RingBuffers {

  /** The queue fields of the pool. */
  datatype Ring = Ring(jobs: seq<int>, head: nat, tail: nat, size: nat, stopRequested: bool)
  {
    ghost predicate Valid() {
      && head < |jobs| && tail < |jobs| && size <= |jobs|
      && tail == (head + size) % |jobs|
    }

    /** The queued descriptors, oldest first. */
    ghost function Queue(): (q: seq<int>)
      requires Valid()
      ensures |q| == size
    {
      seq(size, i requires 0 <= i < size => jobs[(head + i) % |jobs|])
    }

    predicate Accepts() {
      !stopRequested && size < |jobs|
    }

    /** Storing an accepted descriptor at the tail. */
    function Push(fd: int): Ring
      requires tail < |jobs|
    {
      this.(jobs := jobs[tail := fd], tail := (tail + 1) % |jobs|, size := size + 1)
    }

    /** Taking the descriptor at the head. */
    function Pop(): Ring
      requires |jobs| > 0 && size > 0
    {
      this.(head := (head + 1) % |jobs|, size := size - 1)
    }
  }

  /** Indices below twice the capacity wrap at most once. */
  lemma Wrapped(x: nat, n: nat)
    requires x < 2 * n
    ensures x % n == if x < n then x else x - n
  {
  }

  /** An accepted descriptor goes to the end of the queue, across the wrap-around too. */
  lemma PushAppends(r: Ring, fd: int)
    requires r.Valid() && r.size < |r.jobs|
    ensures r.Push(fd).Valid() && r.Push(fd).Queue() == r.Queue() + [fd]
  {
    var n := |r.jobs|;
    Wrapped(r.head + r.size, n);
    Wrapped(r.head + r.size + 1, n);
    Wrapped(r.tail + 1, n);
    assert r.Push(fd).Valid();
    forall i | 0 <= i <= r.size
      ensures r.Push(fd).Queue()[i] == (r.Queue() + [fd])[i]
    {
      Wrapped(r.head + i, n);
    }
  }

  /** A worker takes the front of the queue. */
  lemma PopTakesFront(r: Ring)
    requires r.Valid() && r.size > 0
    ensures r.Pop().Valid()
    ensures r.jobs[r.head] == r.Queue()[0] && r.Pop().Queue() == r.Queue()[1..]
  {
    var n := |r.jobs|;
    Wrapped(r.head + r.size, n);
    Wrapped(r.head + 1, n);
    Wrapped(r.head, n);
    Wrapped(r.Pop().head + (r.size - 1), n);
    assert r.Pop().Valid();
    forall i | 0 <= i < r.size - 1
      ensures r.Pop().Queue()[i] == r.Queue()[1..][i]
    {
      Wrapped(r.head + i + 1, n);
      Wrapped(r.Pop().head + i, n);
    }
  }

  /** The part of the pool that is shared between threads and guarded by its mutex. */
  class ThreadPool {
    const jobs: array<int>
    var head: nat
    var tail: nat
    var size: nat
    var stopRequested: bool

    ghost function State(): Ring
      reads this, jobs
    {
      Ring(jobs[..], head, tail, size, stopRequested)
    }

    ghost predicate Valid()
      reads this, jobs
    {
      State().Valid()
    }

    constructor (queueCapacity: nat)
      requires queueCapacity > 0
      ensures Valid() && fresh(jobs) && jobs.Length == queueCapacity && !stopRequested
      ensures State().Queue() == []
    {
      jobs := new int[queueCapacity](_ => 0);
      head, tail, size, stopRequested := 0, 0, 0, false;
    }

    /** thread_pool_init: no pool without a worker and a place in the queue. */
    static method Init(workerCount: nat, queueCapacity: nat) returns (pool: ThreadPool?)
      ensures pool == null <==> workerCount == 0 || queueCapacity == 0
      ensures pool != null ==> fresh(pool) && fresh(pool.jobs) && pool.Valid() && pool.State().Queue() == []
      ensures pool != null ==> pool.jobs.Length == queueCapacity && !pool.stopRequested
    {
      if workerCount == 0 || queueCapacity == 0 {
        return null;
      }
      pool := new ThreadPool(queueCapacity);
    }

    /** thread_pool_submit under the mutex: accept into the queue, or refuse and change nothing. */
    method Submit(clientFd: int) returns (accepted: bool)
      requires Valid()
      modifies this`tail, this`size, jobs
      ensures Valid() && (accepted <==> !old(stopRequested) && old(size) < jobs.Length)
      ensures State() == if accepted then old(State()).Push(clientFd) else old(State())
      ensures State().Queue() == old(State().Queue()) + if accepted then [clientFd] else []
    {
      accepted := false;
      if !stopRequested && size < jobs.Length {
        PushAppends(State(), clientFd);
        jobs[tail] := clientFd;
        tail := (tail + 1) % jobs.Length;
        size := size + 1;
        accepted := true;
        assert State() == old(State()).Push(clientFd);
      }
    }

    /** The dequeue of a worker under the mutex. */
    method Take() returns (clientFd: int)
      requires Valid() && size > 0
      modifies this`head, this`size
      ensures Valid() && State() == old(State()).Pop()
      ensures [clientFd] + State().Queue() == old(State().Queue())
    {
      PopTakesFront(State());
      clientFd := jobs[head];
      head := (head + 1) % jobs.Length;
      size := size - 1;
    }

    /** thread_pool_shutdown under the mutex. */
    method Shutdown()
      requires Valid()
      modifies this`stopRequested
      ensures Valid() && State() == old(State()).(stopRequested := true)
      ensures State().Queue() == old(State().Queue())
    {
      stopRequested := true;
    }
  }
}
