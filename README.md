# JobSystem scheduling core, modelled in Dafny

This project models the scheduling core of a small worker-thread job system in
Dafny. It covers three parts:

- **The job pool** (`ThreadSafeRingBuffer`). It is a fixed-capacity circular FIFO.
  `push_back` writes at `head` and advances it. `pop_front` reads at `tail` and
  advances it. It is full when `(head + 1) % capacity == tail` and empty when
  `tail == head`, so it holds at most `capacity - 1` items (255 for the pool of 256).
- **Range partitioning** (`Dispatch`). `jobCount` indices are cut into
  `groupCount = ceil(jobCount / groupSize)` groups. The closure of group `g` calls
  the user job with `JobDispatchArgs { jobIndex, groupIndex }` for each index of
  `[g * groupSize, min(g * groupSize + groupSize, jobCount))`, in increasing order.
- **Label accounting**. `currentLabel` counts promised units of work, and
  `finishedLabel` counts units a worker has finished. `IsBusy` is
  `finishedLabel < currentLabel`, and `Wait` returns once it is false.

Files:

- `ring_buffer.dfy` (module `RingBuffer`). Pure functions on the buffer's indices
  and the items they delimit (`Window`), with lemmas. Also the class
  `ThreadSafeRingBuffer`, whose methods update an `array` and the two indices in
  place.
- `dispatch.dfy` (module `Dispatch`). The group arithmetic, once with uint32
  wrap-around as the source writes it (`…AsWritten`) and once without overflow.
  Also the loop of one group closure (`RunGroup`) and the partition theorem.
- `job_system.dfy` (module `JobSystem`). The class `Scheduler` holds the
  process-wide state: the job pool and the two labels. Its methods are
  `Initialize`, `Execute`, `Dispatch`, `IsBusy`, `Wait` and one worker turn
  (`WorkerStep`).

The model is sequential, and each ring-buffer operation is one atomic step.
`poll()` wakes one worker and yields; the model treats it as one worker taking
its turn (`WorkerStep`). So the loops that poll until a push succeeds
(JobSystem.cpp:146, 196) and the loop of `Wait` (JobSystem.cpp:159) terminate in the
model:

- A full pool loses one item in the next worker turn.
- A busy system has a queued job.

The `Scheduler` keeps three ghost logs: `submitted`, `executed` and `pending`
(promised but not yet pushed). Its invariant is
`submitted == executed + queue + pending`, with `currentLabel == |submitted|` and
`finishedLabel == |executed|`. This gives `finishedLabel + queued <= currentLabel`,
with equality once no push is pending.

The argument record `JobDispatchArgs` of JobSystem.h:5-9 is the datatype
`Dispatch.JobDispatchArgs`, with both fields 32-bit unsigned.

Jobs are opaque values. `Task(id)` is a job given to `Execute`. `Group(...)` is a
dispatch group closure, holding the values it captures.

## Model

| member | source | states |
|---|---|---|
| `RingBuffer.Next` | JobSystem.cpp:27 | the next slot stays below the capacity; it is 0 exactly after the last slot, otherwise one more |
| `RingBuffer.WindowLength` | JobSystem.cpp:55-58 | the number of items held between `tail` and `head` is `(head - tail + capacity) % capacity`, and it never exceeds `capacity - 1` |
| `RingBuffer.FullIffAtMost` | JobSystem.cpp:27-28 | the fullness test `(head + 1) % capacity == tail` holds exactly when `capacity - 1` items are held |
| `RingBuffer.EmptyIffNone` | JobSystem.cpp:45 | the emptiness test `tail == head` holds exactly when no item is held |
| `RingBuffer.WindowPush` | JobSystem.cpp:27-31 | if the buffer is not full, writing at `head` and advancing `head` appends exactly that item to the held items |
| `RingBuffer.WindowPop` | JobSystem.cpp:45-48 | if the buffer is not empty, the slot at `tail` holds the oldest item, and advancing `tail` removes exactly that item |
| `RingBuffer.JobPoolHoldsAtMost255` | JobSystem.cpp:65 | the pool of capacity 256 holds at most 255 pending jobs |
| `RingBuffer.ThreadSafeRingBuffer.constructor` | JobSystem.cpp:55-58 | a new buffer has `head == tail == 0` and holds nothing |
| `RingBuffer.ThreadSafeRingBuffer.PushBack` | JobSystem.cpp:23-36 | a full buffer returns false and changes neither index nor the array. Otherwise it returns true, stores the item at the old `head`, advances `head` modulo the capacity, keeps `tail` and every other slot, and appends the item to the contents |
| `RingBuffer.ThreadSafeRingBuffer.PopFront` | JobSystem.cpp:41-53 | an empty buffer returns false and leaves the caller's item and both indices as they were. Otherwise it returns the oldest item `data[tail]`, advances `tail` modulo the capacity and drops that item from the contents |
| `Dispatch.GroupCount` | JobSystem.cpp:170 | the group count is the ceiling of `jobCount / groupSize`. The groups cover every index (`count * groupSize >= jobCount`), one group fewer would not, the count is at most `jobCount`, and it is zero only for `jobCount == 0` |
| `Dispatch.GroupCountWraps` | JobSystem.cpp:170 | with `jobCount = 0xFFFFFFFF` and `groupSize = 2`, the uint32 group count is 0 where the ceiling is `0x80000000` |
| `Dispatch.AsWrittenDropsDispatchOnOverflow` | JobSystem.cpp:170 | whenever `jobCount + groupSize - 1` does not fit in 32 bits, the uint32 group count is 0 while there is work to do |
| `Dispatch.GroupEndFits` | JobSystem.cpp:181-182 | if `jobCount + groupSize - 1` fits in 32 bits, `groupJobOffset + groupSize` fits too for every group of the dispatch |
| `Dispatch.AsWrittenAgreesWithoutOverflow` | JobSystem.cpp:170-182 | if `jobCount + groupSize - 1` fits in 32 bits, the uint32 group count, group offset and group end are exactly the unbounded values |
| `Dispatch.GroupRangeNonEmpty` | JobSystem.cpp:175-182 | each group's range is non-empty, at most `groupSize` long and inside `[0, jobCount)`. Each group ends where the next begins, and the last group ends at `jobCount` |
| `Dispatch.RunGroup` | JobSystem.cpp:178-193 | the closure's loop calls the job once for each index of its range. Call `k` gets `jobIndex == groupJobOffset + k` and the closure's `groupIndex` |
| `Dispatch.GroupIsSlice` | JobSystem.cpp:181-191 | the calls of group `g` are exactly the indices `[offset, end)` in increasing order, each with `groupIndex == jobIndex / groupSize` |
| `Dispatch.GroupsCoverPrefix` | JobSystem.cpp:175-192 | groups `0 .. n - 1` together call the job exactly for the indices below the end of group `n - 1`, in increasing order |
| `Dispatch.DispatchPartitionsRange` | JobSystem.cpp:170-192 | all groups together call the job exactly once for each index of `[0, jobCount)`, in increasing order, with `groupIndex == jobIndex / groupSize`. The ranges are contiguous, disjoint and exhaustive |
| `JobSystem.GroupJobsCalls` | JobSystem.cpp:175-196 | running the first `n` group jobs in push order makes the calls of groups `0 .. n - 1` |
| `JobSystem.DispatchedCallsAreWholeRange` | JobSystem.cpp:162-200 | running every group job of one dispatch calls the callback once per index below `jobCount`, in increasing order, with `groupIndex == jobIndex / groupSize` |
| `JobSystem.Run` | JobSystem.cpp:96 | running a popped job makes exactly the callback calls that job stands for |
| `JobSystem.Scheduler.LabelsAccount` | JobSystem.cpp:68-69 | `finishedLabel + queued + pending == currentLabel`, so `finishedLabel <= currentLabel`. In the model, where a worker turn pops, runs and counts a job in one step, `finishedLabel + queued == currentLabel` when no push is pending |
| `JobSystem.Scheduler.Initialize` | JobSystem.cpp:72-75 | both labels start at 0 and the job pool starts empty |
| `JobSystem.Scheduler.IsBusy` | JobSystem.cpp:151-155 | `finishedLabel < currentLabel` holds exactly when some submitted unit of work has not been completed. In the model, that means a job is queued or still to be pushed |
| `JobSystem.Scheduler.WorkerStep` | JobSystem.cpp:93-98 | a worker turn on an empty pool changes nothing. Otherwise it pops the oldest job, makes that job's calls, and only then raises `finishedLabel` by exactly 1; `currentLabel` is untouched |
| `JobSystem.Scheduler.TryPush` | JobSystem.cpp:146 | one `push_back` succeeds exactly when fewer than 255 jobs are queued, and then appends the job; a failed push changes nothing |
| `JobSystem.Scheduler.PollThenPush` | JobSystem.cpp:146 | one retry on a full pool always succeeds: after the worker turn that `poll()` stands for, `push_back` returns true, the job is the newest queued item and no longer pending, the labels' promises are unchanged and completions are only added |
| `JobSystem.Scheduler.PushWithRetry` | JobSystem.cpp:146 | the retry loop ends with the job pushed exactly once as the newest item: `executed + queue` grows by exactly the job, the labels' promises are unchanged and earlier completions are kept |
| `JobSystem.Scheduler.Execute` | JobSystem.cpp:140-149 | `currentLabel` rises by exactly 1 before the job becomes visible, the job is appended exactly once after the pool's contents and the jobs completed meanwhile (`executed + queue` grows by exactly the job). In the model, where workers run only when the caller polls, `IsBusy()` holds afterwards |
| `JobSystem.Scheduler.Dispatch` | JobSystem.cpp:162-200 | if `jobCount == 0` or `groupSize == 0`, the labels and the pool are unchanged. Otherwise `currentLabel` rises by exactly `groupCount`, the group jobs `0 .. groupCount - 1` are appended once each in increasing order (`executed + queue` grows by exactly those jobs). In the model, `IsBusy()` holds afterwards |
| `JobSystem.Scheduler.Wait` | JobSystem.cpp:157-160 | returns only when `!IsBusy()`. Then every submitted unit of work has been executed exactly once, in the model in submission order, `finishedLabel == currentLabel` and the pool is empty |
| `JobSystem.ExecuteThenWait` | JobSystem.cpp:140-160 | after `Execute(job)` the system is busy; after `Wait()` it is idle, and the job has run exactly once |
| `JobSystem.DispatchThenWait` | JobSystem.cpp:162-200 | after `Dispatch` and `Wait()` the system is idle and `groupCount` groups have run. The callback got each index below `jobCount` exactly once, in group `jobIndex / groupSize`. An empty dispatch runs nothing |

## Findings

| source | as written | input that shows it | evidently intended | confidence | as-written member | corrected member |
|---|---|---|---|---|---|---|
| JobSystem.cpp:170 | `groupCount = (jobCount + groupSize - 1) / groupSize` is computed in uint32, so the sum wraps | `jobCount = 0xFFFFFFFF`, `groupSize = 2`: the sum wraps to 0 and `groupCount` is 0. No group is pushed, `currentLabel` is unchanged, and none of the indices is visited. The same happens for every input whose sum overflows | `groupCount = ceil(jobCount / groupSize)`, here `0x80000000` | not executed; follows from uint32 arithmetic | `Dispatch.AsWrittenDropsDispatchOnOverflow` | `Dispatch.GroupCount` |

`Scheduler.Dispatch` uses the overflow-free `GroupCount`, `GroupJobOffset` and
`GroupJobEnd`. `Dispatch.AsWrittenAgreesWithoutOverflow` shows these give the same
values as the source whenever `jobCount + groupSize - 1` fits in 32 bits. When the
sum overflows, the source drops the dispatch. Lines 181-182 never overflow in the
source as written: whenever line 170 does not overflow, `Dispatch.GroupEndFits`
shows that they fit.

## Left out

- Thread creation, `hardware_concurrency`, `detach`, and the thread affinity and naming calls in `Initialize` (JobSystem.cpp:77-130). They are operating-system plumbing with no effect on the counters or the queue.
- The mutex, the condition variable, `notify_one` and `yield`. The model is sequential, and each ring-buffer operation is one atomic step.
- `poll()` is modelled as one worker turn. In the model, the retry loops in `Execute`, `Dispatch` and `Wait` terminate because a worker takes its turn whenever the caller polls. This is a fairness assumption, not a proof about real threads.
- `JobSystem.Scheduler.LabelsAccount`: a job that a worker has popped (JobSystem.cpp:93) but not yet counted (JobSystem.cpp:97) is not a state of the model, because `WorkerStep` pops, runs and counts in one step. In the source, such a job keeps `finishedLabel + queued < currentLabel` with nothing pending.
- `JobSystem.Scheduler.IsBusy`: for the same reason, the model's "busy means queued or pending" leaves out the job a worker is running, which also keeps the system busy in the source.
- `JobSystem.Scheduler.Execute`: "`IsBusy()` holds afterwards" holds in the model because workers run only when the caller polls. In the source an awake worker can finish the job before `Execute` returns.
- `JobSystem.Scheduler.Dispatch`: the same applies to "`IsBusy()` holds afterwards".
- `JobSystem.Scheduler.Wait`: in the model, completion order is pop order, which is submission order. With several workers in the source, completions can interleave; only the pop order is FIFO.
- `JobSystem.Scheduler.Wait`: that the system stays idle after `Wait` returns is not stated as a lemma. In the model it follows from `WorkerStep` changing nothing on an empty pool. In the source it depends on other threads, which the model does not have.
- Atomicity of `finishedLabel` (`std::atomic`): it is a plain counter raised by a worker turn.
- The 64-bit width of `currentLabel` and `finishedLabel`: they are unbounded naturals. Wrap-around after 2^64 submissions is not modelled.
- Several threads calling `Execute` or `Dispatch` at once: the model has one submitting caller. `currentLabel += …` (JobSystem.cpp:143, 173) is a plain read-modify-write, so the code itself assumes one submitting thread.
- User callbacks and `std::function`. A job is an opaque value. A dispatch callback is an id, and its effect is the sequence of `JobDispatchArgs` it receives. A fault raised inside a job, and what it does to the worker, is not modelled.
- `RingBuffer.ThreadSafeRingBuffer.constructor` requires a positive capacity. A zero-capacity template instance would divide by zero in `% capacity`, and the job pool uses 256.
- The per-thread `job` variable keeps whatever it held after a failed pop. `WorkerStep` models that as an arbitrary value, because the worker does not use it then.
