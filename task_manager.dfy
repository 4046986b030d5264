/**
  The task manager as objects. `TaskManagerData` is the shared dispatch
  record whose counter `work` advances under its lock before sending outside
  it; `TaskManager` is the handle callers submit through, and its clones
  share one record.
  Every method is one atomic step of the sequential model, and its
  postcondition ties the record's new value to the functions of `Dispatch`.
 */
module TaskManagerModel {
  import opened Dispatch
  import DispatchProperties

  class TaskManagerData<T> {
    var next: nat
    var parallel: nat
    /** The channel behind each worker's `Sender`, as the tasks waiting in it. */
    var queues: seq<seq<T>>
    /** Workers whose thread has ended, so that their `Receiver` is gone. */
    var dead: set<nat>

    function Model(): PoolState<T>
      reads this
    {
      PoolState(next, parallel, queues, dead)
    }

    ghost predicate Valid()
      reads this
    {
      Model().Valid()
    }

    /** `TaskManager::new`: one channel (and worker) per unit of parallelism, counter at 0. */
    constructor (parallel: nat)
      requires parallel > 0
      ensures Valid() && Model() == Fresh(parallel)
    {
      var channels: seq<seq<T>> := [];
      var k := 0;
      while k < parallel
        invariant k <= parallel && |channels| == k
        invariant forall w | 0 <= w < k :: channels[w] == []
      {
        channels := channels + [[]];
        k := k + 1;
      }
      assert channels == seq(parallel, _ => []);
      this.next := 0;
      this.parallel := parallel;
      this.queues := channels;
      this.dead := {};
    }

    /**
      `work`: read the counter, advance it, pick worker `next % parallel`
      and send the task to it; a dead worker's channel refuses the task and
      hands it back.
     */
    method Work(t: T) returns (r: SendResult<T>)
      requires Valid()
      modifies this
      ensures Valid()
      ensures Model() == Submit(old(Model()), t).0 && r == Submit(old(Model()), t).1
    {
      var n := next;
      next := next + 1;
      var w := n % parallel;
      DispatchProperties.TargetIsMod(n, parallel);
      if w in dead {
        r := Err(t);
      } else {
        queues := queues[w := queues[w] + [t]];
        r := Ok;
      }
    }

    /** One `recv` by worker `i`: take the task at the head of its channel, if there is one. */
    method WorkerStep(i: nat) returns (got: Option<T>)
      requires Valid() && i < parallel && i !in dead
      modifies this
      ensures Valid()
      ensures Model() == Recv(old(Model()), i).0 && got == Recv(old(Model()), i).1
    {
      if queues[i] == [] {
        got := None;
      } else {
        got := Some(queues[i][0]);
        queues := queues[i := queues[i][1..]];
      }
    }

    /**
      `thread_worker`: worker `i` receives and runs the tasks of its channel
      in arrival order. When the channel is empty it stops if every sender
      is gone (`closed`), dropping its receiver, so that the worker is then
      dead; otherwise it would wait in `recv` for more.
     */
    method RunWorker(i: nat, closed: bool) returns (ran: seq<T>, exited: bool)
      requires Valid() && i < parallel && i !in dead
      modifies this
      ensures Valid()
      ensures ran == old(queues[i])
      ensures Model() == old(Model()).(queues := old(queues)[i := []],
                                       dead := if closed then old(dead) + {i} else old(dead))
      ensures exited == closed && (exited <==> i in dead)
    {
      ran := [];
      while true
        invariant Valid() && i < parallel && i !in dead
        invariant next == old(next) && parallel == old(parallel) && dead == old(dead)
        invariant ran + queues[i] == old(queues[i])
        invariant queues == old(queues)[i := queues[i]]
        decreases |queues[i]|
      {
        var got := WorkerStep(i);
        if got.None? {
          break;
        }
        ran := ran + [got.value];
      }
      exited := closed;
      if closed {
        dead := dead + {i};
      }
    }

    /**
      The task worker `i` was running panicked: the thread ends and drops
      its receiver with whatever was still queued. Nothing else is told.
     */
    method Kill(i: nat)
      requires Valid() && i < parallel && i !in dead
      modifies this
      ensures Valid()
      ensures Model() == Dispatch.Kill(old(Model()), i)
    {
      queues := queues[i := []];
      dead := dead + {i};
    }
  }

  /** The handle: a shared reference to one `TaskManagerData`. */
  class TaskManager<T> {
    const data: TaskManagerData<T>

    constructor (parallel: nat)
      requires parallel > 0
      ensures fresh(data) && data.Valid() && data.Model() == Fresh(parallel)
    {
      data := new TaskManagerData(parallel);
    }

    /** A further handle on an existing record. */
    constructor Share(data: TaskManagerData<T>)
      ensures this.data == data
    {
      this.data := data;
    }

    method Work(t: T) returns (r: SendResult<T>)
      requires data.Valid()
      modifies data
      ensures data.Valid()
      ensures data.Model() == Submit(old(data.Model()), t).0 && r == Submit(old(data.Model()), t).1
    {
      r := data.Work(t);
    }

    /** `Clone::clone`: a new handle on the same record, so the same counter and channels. */
    method Clone() returns (c: TaskManager<T>)
      ensures fresh(c) && c.data == data
    {
      c := new TaskManager.Share(data);
    }
  }

  /**
    Submitting one task through a handle and the next through its clone has
    the same effect as submitting both through one handle: the clone adds no
    state of its own and advances the same counter.
   */
  method SubmitThroughClone<T>(h: TaskManager<T>, a: T, b: T) returns (ra: SendResult<T>, rb: SendResult<T>)
    requires h.data.Valid()
    modifies h.data
    ensures h.data.Valid()
    ensures h.data.Model() == SubmitAll(old(h.data.Model()), [a, b]).0
    ensures [ra, rb] == SubmitAll(old(h.data.Model()), [a, b]).1
    ensures h.data.next == old(h.data.next) + 2
  {
    ghost var m0 := h.data.Model();
    var c := h.Clone();
    ra := h.Work(a);
    ghost var m1 := h.data.Model();
    rb := c.Work(b);
    ghost var m2 := h.data.Model();
    assert m1 == Submit(m0, a).0 && ra == Submit(m0, a).1;
    assert m2 == Submit(m1, b).0 && rb == Submit(m1, b).1;
    assert [a, b][1..] == [b] && [b][1..] == [];
    assert SubmitAll(m1, [b]).0 == m2 && SubmitAll(m1, [b]).1 == [rb] + [];
    assert SubmitAll(m0, [a, b]).0 == m2 && SubmitAll(m0, [a, b]).1 == [ra] + [rb];
  }
}
