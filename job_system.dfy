// The scheduler of the job system: the job pool, the submitted counter
// `currentLabel`, the completed counter `finishedLabel`, and the operations
// Execute, Dispatch, IsBusy and Wait, together with one turn of a worker thread.
//
// The model is sequential. A worker turn is a method, `WorkerStep`; `poll()`
// (wake one worker, then yield) is modelled as one worker taking its turn, so
// the loops that retry a push on a full pool and the loop of `Wait`
// (JobSystem.cpp:146, 159, 196) make progress exactly when some worker does. Jobs are opaque values: a
// plain job is an id, a dispatch group carries the values its closure captures.
//
// Three ghost logs give the counters their meaning: `submitted` holds every
// unit of work promised (one per `currentLabel` increment), `executed` every
// unit a worker finished (one per `finishedLabel` increment), and `pending`
// the units already promised but not yet pushed. The invariant is
// `submitted == executed + queue + pending`; between calls `pending` is empty.

module JobSystem {
  import opened RingBuffer
  import opened Dispatch

  /** A unit of work held by the job pool. */
  datatype Job =
    | Task(id: nat)
    | Group(jobCount: Uint32, groupSize: Uint32, groupIndex: Uint32, callback: nat)

  /** The calls of the user's dispatch callback that running `job` makes. */
  function Invocations(job: Job): seq<JobDispatchArgs>
  {
    match job
    case Task(_) => []
    case Group(jobCount, groupSize, groupIndex, _) => GroupInvocations(jobCount, groupSize, groupIndex)
  }

  /** The callback calls of a sequence of jobs run one after the other. */
  function Calls(jobs: seq<Job>): seq<JobDispatchArgs>
  {
    if jobs == [] then [] else Calls(jobs[..|jobs| - 1]) + Invocations(jobs[|jobs| - 1])
  }

  /** The group jobs `Dispatch` pushes, in the order it pushes them. */
  function GroupJobs(jobCount: Uint32, groupSize: Uint32, callback: nat): seq<Job>
    requires groupSize > 0
  {
    var count := GroupCount(jobCount, groupSize);
    seq(count, g requires 0 <= g < count => Group(jobCount, groupSize, g, callback))
  }

  /** The first `n` group jobs make exactly the calls of the first `n` groups. */
  lemma {:induction false} GroupJobsCalls(jobCount: Uint32, groupSize: Uint32, callback: nat, n: nat)
    requires groupSize > 0
    requires n <= GroupCount(jobCount, groupSize)
    ensures Calls(GroupJobs(jobCount, groupSize, callback)[..n]) == InvocationsOfGroups(jobCount, groupSize, n)
  {
    if n > 0 {
      var jobs := GroupJobs(jobCount, groupSize, callback);
      assert jobs[..n][..n - 1] == jobs[..n - 1];
      GroupJobsCalls(jobCount, groupSize, callback, n - 1);
    }
  }

  /** Running every group of a dispatch calls the callback once for each index below `jobCount`, in increasing order, with group `jobIndex / groupSize`. */
  lemma DispatchedCallsAreWholeRange(jobCount: Uint32, groupSize: Uint32, callback: nat)
    requires groupSize > 0
    ensures Calls(GroupJobs(jobCount, groupSize, callback)) == WholeRange(jobCount, groupSize)
  {
    var jobs := GroupJobs(jobCount, groupSize, callback);
    assert jobs[..|jobs|] == jobs;
    GroupJobsCalls(jobCount, groupSize, callback, |jobs|);
    DispatchPartitionsRange(jobCount, groupSize);
  }

  /** Two sequences that agree once the same suffix is appended are equal. */
  lemma CancelSuffix<T>(a: seq<T>, b: seq<T>, r: seq<T>)
    requires a + r == b + r
    ensures a == b
  {
    assert a == (a + r)[..|a|];
    assert b == (b + r)[..|b|];
  }

  /** If the first pending unit moved into the completed-or-queued part and the log is unchanged, exactly that unit was appended there. */
  lemma AppendedOnce<T>(e0: seq<T>, q0: seq<T>, p0: seq<T>, e1: seq<T>, q1: seq<T>, p1: seq<T>, sub: seq<T>)
    requires p0 != [] && p1 == p0[1..]
    requires sub == e0 + q0 + p0 && sub == e1 + q1 + p1
    ensures e1 + q1 == e0 + q0 + [p0[0]]
  {
    assert e0 + q0 + p0 == (e0 + q0 + [p0[0]]) + p1;
    CancelSuffix(e1 + q1, e0 + q0 + [p0[0]], p1);
  }

  /** Running one job: a group closure runs its loop; a plain job makes no callback calls. */
  method Run(job: Job) returns (calls: seq<JobDispatchArgs>)
    ensures calls == Invocations(job)
  {
    match job
    case Task(_) =>
      calls := [];
    case Group(jobCount, groupSize, groupIndex, _) =>
      calls := RunGroup(jobCount, groupSize, groupIndex);
  }

  /** The process-wide state of the job system. */
  class Scheduler {
    const jobPool: ThreadSafeRingBuffer<Job>
    var currentLabel: nat
    var finishedLabel: nat
    ghost var submitted: seq<Job>
    ghost var executed: seq<Job>
    ghost var pending: seq<Job>

    ghost predicate Valid()
      reads this, jobPool, jobPool.data
    {
      && jobPool.Valid()
      && jobPool.capacity == JobPoolCapacity
      && currentLabel == |submitted|
      && finishedLabel == |executed|
      && submitted == executed + jobPool.Contents() + pending
    }

    /** The counters account for every unit of work: the completed ones, the queued ones and the ones still to be pushed. */
    lemma LabelsAccount()
      requires Valid()
      ensures finishedLabel + |jobPool.Contents()| + |pending| == currentLabel
      ensures finishedLabel <= currentLabel
      ensures pending == [] ==> finishedLabel + |jobPool.Contents()| == currentLabel
    {
    }

    /** `Initialize`: both counters start at zero and the pool is empty (thread creation is not modelled). */
    constructor Initialize()
      ensures Valid() && pending == []
      ensures currentLabel == 0 && finishedLabel == 0
      ensures submitted == [] && executed == [] && jobPool.Contents() == []
      ensures fresh(jobPool) && fresh(jobPool.data)
    {
      jobPool := new ThreadSafeRingBuffer<Job>(JobPoolCapacity);
      currentLabel := 0;
      finishedLabel := 0;
      submitted, executed, pending := [], [], [];
    }

    /** Busy exactly when some submitted unit of work has not been completed. */
    function IsBusy(): (busy: bool)
      reads this, jobPool, jobPool.data
      requires Valid()
      ensures busy <==> executed != submitted
      ensures busy <==> jobPool.Contents() != [] || pending != []
    {
      LabelsAccount();
      finishedLabel < currentLabel
    }

    /** One turn of a worker thread: pop a job if there is one, run it, then count it as finished. */
    method WorkerStep() returns (ran: bool, calls: seq<JobDispatchArgs>)
      requires Valid()
      modifies this, jobPool
      ensures Valid()
      ensures currentLabel == old(currentLabel) && submitted == old(submitted) && pending == old(pending)
      ensures ran <==> old(jobPool.Contents()) != []
      ensures ran ==> jobPool.Contents() == old(jobPool.Contents())[1..]
      ensures ran ==> executed == old(executed) + [old(jobPool.Contents())[0]]
      ensures ran ==> finishedLabel == old(finishedLabel) + 1
      ensures ran ==> calls == Invocations(old(jobPool.Contents())[0])
      ensures !ran ==> executed == old(executed) && finishedLabel == old(finishedLabel) && calls == []
      ensures !ran ==> jobPool.Contents() == old(jobPool.Contents())
    {
      // the worker's `job` variable: whatever it held after its previous turn
      var job: Job := *;
      var popped;
      popped, job := jobPool.PopFront(job);
      calls := [];
      if popped {
        calls := Run(job);
        finishedLabel := finishedLabel + 1;
        executed := executed + [job];
      }
      ran := popped;
    }

    /** One `push_back` of the first pending unit of work; on success it is no longer pending. */
    method TryPush(job: Job) returns (pushed: bool)
      requires Valid() && pending != [] && pending[0] == job
      modifies this, jobPool, jobPool.data
      ensures Valid()
      ensures currentLabel == old(currentLabel) && submitted == old(submitted) && executed == old(executed)
      ensures pushed <==> |old(jobPool.Contents())| < JobPoolCapacity - 1
      ensures pushed ==> pending == old(pending)[1..] && jobPool.Contents() == old(jobPool.Contents()) + [job]
      ensures !pushed ==> pending == old(pending) && jobPool.Contents() == old(jobPool.Contents())
    {
      pushed := jobPool.PushBack(job);
      if pushed {
        pending := pending[1..];
      }
    }

    /** One retry on a full pool: `poll()` lets a worker take its turn, which frees a slot, so the next `push_back` succeeds. */
    method PollThenPush(job: Job) returns (pushed: bool)
      requires Valid() && pending != [] && pending[0] == job
      requires |jobPool.Contents()| == JobPoolCapacity - 1
      modifies this, jobPool, jobPool.data
      ensures Valid() && pushed
      ensures currentLabel == old(currentLabel) && submitted == old(submitted)
      ensures old(executed) <= executed
      ensures pending == old(pending)[1..]
      ensures jobPool.Contents() != [] && jobPool.Contents()[|jobPool.Contents()| - 1] == job
    {
      // poll(): one worker takes its turn
      var _, _ := WorkerStep();
      pushed := TryPush(job);
    }

    /** Pushes the first pending unit of work, polling while the pool is full. */
    method PushWithRetry(job: Job)
      requires Valid() && pending != [] && pending[0] == job
      modifies this, jobPool, jobPool.data
      ensures Valid()
      ensures pending == old(pending)[1..]
      ensures currentLabel == old(currentLabel) && submitted == old(submitted)
      ensures old(executed) <= executed
      ensures executed + jobPool.Contents() == old(executed) + old(jobPool.Contents()) + [job]
      ensures jobPool.Contents() != [] && jobPool.Contents()[|jobPool.Contents()| - 1] == job
    {
      ghost var e0, q0, p0 := executed, jobPool.Contents(), pending;
      var pushed := TryPush(job);
      while !pushed
        invariant Valid()
        invariant currentLabel == old(currentLabel) && submitted == old(submitted)
        invariant old(executed) <= executed
        invariant !pushed ==> pending == old(pending) && |jobPool.Contents()| == JobPoolCapacity - 1
        invariant pushed ==> pending == old(pending)[1..]
        invariant pushed ==> jobPool.Contents() != [] && jobPool.Contents()[|jobPool.Contents()| - 1] == job
        decreases if pushed then 0 else 1
      {
        pushed := PollThenPush(job);
      }
      AppendedOnce(e0, q0, p0, executed, jobPool.Contents(), pending, submitted);
    }

    /** Promises one unit of work, then pushes the job. */
    method Execute(job: Job)
      requires Valid() && pending == []
      modifies this, jobPool, jobPool.data
      ensures Valid() && pending == []
      ensures currentLabel == old(currentLabel) + 1
      ensures submitted == old(submitted) + [job]
      ensures old(executed) <= executed
      ensures executed + jobPool.Contents() == old(executed) + old(jobPool.Contents()) + [job]
      ensures IsBusy()
    {
      currentLabel := currentLabel + 1;
      submitted := submitted + [job];
      pending := [job];
      PushWithRetry(job);
    }

    /** Promises one unit of work per group, then pushes the groups in increasing group order; nothing when the range or the group size is empty. */
    method Dispatch(jobCount: Uint32, groupSize: Uint32, callback: nat)
      requires Valid() && pending == []
      modifies this, jobPool, jobPool.data
      ensures Valid() && pending == []
      ensures old(executed) <= executed
      ensures jobCount == 0 || groupSize == 0 ==>
                currentLabel == old(currentLabel) && submitted == old(submitted) &&
                executed == old(executed) && jobPool.Contents() == old(jobPool.Contents())
      ensures jobCount > 0 && groupSize > 0 ==>
                currentLabel == old(currentLabel) + GroupCount(jobCount, groupSize) &&
                submitted == old(submitted) + GroupJobs(jobCount, groupSize, callback) &&
                executed + jobPool.Contents() ==
                  old(executed) + old(jobPool.Contents()) + GroupJobs(jobCount, groupSize, callback) &&
                IsBusy()
    {
      if jobCount == 0 || groupSize == 0 {
        return;
      }
      var groupCount := GroupCount(jobCount, groupSize);
      currentLabel := currentLabel + groupCount;
      ghost var groups := GroupJobs(jobCount, groupSize, callback);
      submitted := submitted + groups;
      pending := groups;
      for groupIndex := 0 to groupCount
        invariant Valid()
        invariant pending == groups[groupIndex..]
        invariant currentLabel == old(currentLabel) + groupCount
        invariant submitted == old(submitted) + groups
        invariant old(executed) <= executed
        invariant groupIndex > 0 ==> jobPool.Contents() != []
      {
        PushWithRetry(Group(jobCount, groupSize, groupIndex, callback));
      }
    }

    /** Returns only once every submitted unit of work has been completed. */
    method Wait()
      requires Valid() && pending == []
      modifies this, jobPool
      ensures Valid() && pending == []
      ensures currentLabel == old(currentLabel) && submitted == old(submitted)
      ensures !IsBusy()
      ensures executed == submitted && finishedLabel == currentLabel && jobPool.Contents() == []
    {
      while IsBusy()
        invariant Valid() && pending == []
        invariant currentLabel == old(currentLabel) && submitted == old(submitted)
        decreases |jobPool.Contents()|
      {
        // poll(): one worker takes its turn
        var _, _ := WorkerStep();
      }
    }
  }

  /** A single job followed by `Wait` has run exactly once, and the system is then idle. */
  method ExecuteThenWait(id: nat) returns (busyAfterExecute: bool, busyAfterWait: bool, ghost executed: seq<Job>)
    ensures busyAfterExecute && !busyAfterWait
    ensures executed == [Task(id)]
  {
    var system := new Scheduler.Initialize();
    system.Execute(Task(id));
    busyAfterExecute := system.IsBusy();
    system.Wait();
    busyAfterWait := system.IsBusy();
    executed := system.executed;
  }

  /** A dispatch followed by `Wait` has called the callback once for each index below `jobCount`, in group `jobIndex / groupSize`. */
  method DispatchThenWait(jobCount: Uint32, groupSize: Uint32, callback: nat)
    returns (groupsRun: nat, busyAfterWait: bool, ghost calls: seq<JobDispatchArgs>)
    ensures !busyAfterWait
    ensures jobCount == 0 || groupSize == 0 ==> groupsRun == 0 && calls == []
    ensures jobCount > 0 && groupSize > 0 ==>
              groupsRun == GroupCount(jobCount, groupSize) && calls == WholeRange(jobCount, groupSize)
  {
    var system := new Scheduler.Initialize();
    system.Dispatch(jobCount, groupSize, callback);
    ghost var promised := system.submitted;
    assert jobCount > 0 && groupSize > 0 ==> promised == GroupJobs(jobCount, groupSize, callback);
    assert jobCount == 0 || groupSize == 0 ==> promised == [];
    system.Wait();
    assert system.executed == promised;
    busyAfterWait := system.IsBusy();
    groupsRun := system.finishedLabel;
    calls := Calls(system.executed);
    if jobCount > 0 && groupSize > 0 {
      DispatchedCallsAreWholeRange(jobCount, groupSize, callback);
    }
  }
}
