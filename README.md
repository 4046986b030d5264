# Round-robin task manager, modelled in Dafny

The task manager is a small thread pool. Building it starts one worker
thread per unit of available parallelism. Each worker owns the receiving
end of its own channel, and the manager keeps the sending ends in a shared,
mutex-protected record (`TaskManagerData`) together with a dispatch counter
`next`. `work(f)` takes the lock, reads `next`, increments it, picks sender
`next % parallel`, releases the lock and sends `f`. A worker takes tasks
from its channel in arrival order and runs them. It stops once every sender
is gone. Cloning the manager clones the `Arc`, so all clones share one
counter and one set of channels.

The project has three modules:

- `Dispatch` (`dispatch.dfy`) describes the shared record as a value,
  `PoolState`. Each channel is the FIFO sequence of tasks still waiting in
  it. `dead` holds the workers whose receiver is gone. The module defines
  the operations as functions on that value: `Fresh` (construction),
  `Submit` (one `work`), `SubmitAll` (several `work` calls in a row),
  `Recv` (one `recv`) and `Kill` (a worker thread ends because a task
  panicked).
- `DispatchProperties` (`dispatch_properties.dfy`) proves what the dispatch
  rule guarantees over whole runs of submissions:
  - the i-th submission goes to worker `(next + i) % parallel`;
  - it fails with its own task exactly when that worker is dead;
  - what each channel holds afterwards, and in which order;
  - every run of `parallel` submissions feeds each live worker once;
  - no task is lost or duplicated.
- `TaskManagerModel` (`task_manager.dfy`) holds the objects.
  - `TaskManagerData` is a class whose fields `next`, `parallel`, `queues`
    and `dead` the methods update in place. Each method's postcondition
    ties the new state to the matching `Dispatch` function.
  - `TaskManager` is the handle. It holds a reference to one
    `TaskManagerData`, and `Clone` returns a new handle on the same record.

## Model

| member | source | states |
|---|---|---|
| `Dispatch.PoolState.Valid` | src/task_manager.rs:10-14 | The record has at least one worker and exactly one channel per worker. A dead worker's channel holds nothing. |
| `Dispatch.Fresh` | src/task_manager.rs:26-43 | `new` builds a valid record: counter 0, `parallel` workers, every channel empty, no dead worker. |
| `Dispatch.Target` | src/task_manager.rs:58 | The index of the chosen sender is always below `parallel`, so the lookup is in bounds. |
| `DispatchProperties.TargetIsMod` | src/task_manager.rs:58 | The chosen worker equals `next % parallel`. |
| `DispatchProperties.TargetSuccessor` | src/task_manager.rs:56-58 | Consecutive counter values visit the workers cyclically: the worker after `parallel - 1` is worker 0. |
| `Dispatch.Submit` | src/task_manager.rs:54-62 | The counter advances by one whether or not the send succeeds. A send fails exactly when the target worker is dead; it then hands back the same task and leaves every channel unchanged. Otherwise the task is appended to the target's channel and to no other channel. |
| `Dispatch.SubmitAll` | src/task_manager.rs:54-62 | After n calls of `work`, the counter has advanced by n, there is one result per task, and the state is still valid. |
| `Dispatch.Recv` | src/task_manager.rs:47-48 | `recv` yields nothing exactly when the channel is empty. Otherwise it yields the head of the channel, leaves the rest in order, and changes no other channel. |
| `Dispatch.Kill` | src/task_manager.rs:48-49 | A worker that ends drops the tasks still waiting in its channel and is then dead. Nothing else in the record changes. |
| `DispatchProperties.SubmitAllResults` | src/task_manager.rs:56-61 | The i-th of consecutive submissions fails, handing back its own task, exactly when worker `(next + i) % parallel` is dead. Otherwise it succeeds. |
| `DispatchProperties.SubmitAllQueues` | src/task_manager.rs:56-61 | After consecutive submissions, a dead worker's channel is unchanged. A live worker's channel is its old contents followed by the tasks routed to it, in submission order. |
| `DispatchProperties.LiveQueueOf` | src/task_manager.rs:56-61 | A live worker's channel after consecutive submissions is its old contents followed by exactly the tasks routed to it, in submission order. |
| `DispatchProperties.DeadQueueOf` | src/task_manager.rs:56-61 | A dead worker's channel is unchanged by any run of submissions. |
| `DispatchProperties.ArrivalOrder` | src/task_manager.rs:56-61 | A live worker reached after k more submissions receives the tasks at positions k, k + parallel, k + 2·parallel, ... of the submitted run, in that order, after what it already held. |
| `DispatchProperties.RoundRobinFromFresh` | src/task_manager.rs:26-62 | From a freshly built manager every submission succeeds. Worker w holds exactly the tasks at positions w, w + parallel, ...: every such position is present, in order, and no other task is. |
| `DispatchProperties.EveryWorkerOncePerRound` | src/task_manager.rs:56-58 | Any `parallel` consecutive submissions put exactly one task on each live worker. |
| `DispatchProperties.SubmitConserves` | src/task_manager.rs:54-62 | One submission either enqueues its task or hands it back: the multiset of waiting plus handed-back tasks grows by exactly that task. |
| `DispatchProperties.SubmitAllConserves` | src/task_manager.rs:54-62 | Over any run of submissions, every task either waits in exactly one channel or was handed back; none is lost or duplicated. |
| `DispatchProperties.NoDeadWorkerNoLoss` | src/task_manager.rs:54-62 | With every worker alive, every submission succeeds, and the channels gain exactly the submitted tasks. |
| `DispatchProperties.DeadWorkerRejects` | src/task_manager.rs:45-62 | After worker i has ended, a submission routed to it fails, hands back its task and leaves the channels unchanged. One routed to a live worker still succeeds. The counter advances either way. |
| `DispatchProperties.TwoWorkerScenario` | src/task_manager.rs:45-62 | With two workers: the first task goes to worker 0 and is received there. The second, after worker 0 has died, goes to worker 1. The third is routed to worker 0 again and handed back. |
| `TaskManagerModel.TaskManagerData.constructor` | src/task_manager.rs:28-38 | The loop builds one empty channel per worker. The new record is `Fresh(parallel)`. |
| `TaskManagerModel.TaskManager.constructor` | src/task_manager.rs:26-43 | `new` returns a handle on a newly allocated record that equals `Fresh(parallel)`. |
| `TaskManagerModel.TaskManagerData.Work` | src/task_manager.rs:54-62 | The in-place update of the record and the result are exactly those of `Submit`. |
| `TaskManagerModel.TaskManagerData.WorkerStep` | src/task_manager.rs:47-49 | One `recv` updates the record and returns exactly what `Recv` describes. |
| `TaskManagerModel.TaskManagerData.RunWorker` | src/task_manager.rs:45-52 | The worker loop runs exactly the tasks that were waiting, in arrival order. It leaves its channel empty. When the channel is empty, it exits exactly when the caller-supplied `closed` flag says every sender is gone, and the worker is then dead; no other field changes. |
| `TaskManagerModel.TaskManagerData.Kill` | src/task_manager.rs:48-49 | A worker's end updates the record exactly as `Dispatch.Kill` describes. |
| `TaskManagerModel.TaskManager.Work` | src/task_manager.rs:54-62 | Submitting through a handle updates the shared record exactly as `Submit` describes. |
| `TaskManagerModel.TaskManager.Clone` | src/task_manager.rs:65-74 | A clone is a new handle on the same shared record. |
| `TaskManagerModel.SubmitThroughClone` | src/task_manager.rs:54-74 | One task submitted through a handle and the next through its clone act exactly like two consecutive submissions through one handle. The counter advances by two. |

## Left out

- Threads, the `Arc<Mutex<..>>` and lock poisoning are not modelled. Each method is one atomic step, while in the source only the counter update runs under the lock.
- `DispatchProperties.ArrivalOrder`: this lemma and `RoundRobinFromFresh` describe one sequential submitter. `work` sends after releasing the lock, so concurrent submitters can reach one channel out of counter order.
- Blocking in `recv` is not modelled. An empty channel makes `Recv` return `None`. `RunWorker` stops there and takes from its `closed` parameter whether every sender was gone, which is when the real worker returns instead of waiting; it then marks itself dead.
- `available_parallelism` is a system query. The worker count is a parameter required to be positive, which the non-zero type returned by that query guarantees. The `unwrap` failure of the query is not modelled.
- Running a task is not modelled. A task that panics is modelled only by its effect: `Kill` marks the worker dead and drops its queued tasks.
- `Dispatch.Target`: the counter is a `nat`, so overflow of `usize` is not modelled (a panic under the lock with overflow checks on, which poisons the mutex for every later `work`; a wrap-around without them). `Target` is written as repeated subtraction, and `TargetIsMod` proves it equal to `%`.
- Shutting the pool down by dropping every handle is not modelled, apart from the `closed` parameter of `RunWorker`.
- Clones of a `Sender` are not modelled separately: sending through a cloned sender is sending into the same channel.
