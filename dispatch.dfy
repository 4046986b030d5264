/**
  The round-robin dispatch rule of the task manager, as values.

  `PoolState` is the shared record `TaskManagerData`: the dispatch counter
  `next`, the worker count `parallel`, and for every worker the channel that
  its `Sender` feeds, seen here as the FIFO sequence of tasks waiting in it.
  `dead` holds the workers whose receiving end is gone (the worker thread
  ended because a task panicked), so that sending to them fails.
  Tasks are opaque values of type `T`.
 */
module Dispatch {

  /** What `work` returns: `Ok(())`, or `SendError` handing the undelivered task back. */
  datatype SendResult<T> = Ok | Err(task: T)

  datatype Option<T> = None | Some(value: T)

  datatype PoolState<T> = PoolState(next: nat, parallel: nat, queues: seq<seq<T>>, dead: set<nat>)
  {
    /** One channel per worker, at least one worker, and a dead worker's channel holds nothing. */
    predicate Valid() {
      && parallel > 0
      && |queues| == parallel
      && (forall i | i in dead :: i < parallel && queues[i] == [])
    }
  }

  /** The state `new` builds: counter 0 and one empty channel for each of `parallel` workers. */
  function Fresh<T>(parallel: nat): (s: PoolState<T>)
    requires parallel > 0
    ensures s.Valid() && s.next == 0 && s.parallel == parallel && s.dead == {}
    ensures forall w | 0 <= w < parallel :: s.queues[w] == []
  {
    PoolState(0, parallel, seq(parallel, _ => []), {})
  }

  /**
    The worker that a submission reading counter value `next` is sent to:
    `next % parallel`, written as repeated subtraction of `parallel`.
   */
  function Target(next: nat, parallel: nat): (w: nat)
    requires parallel > 0
    ensures w < parallel
    decreases next
  {
    if next < parallel then next else Target(next - parallel, parallel)
  }

  /**
    One call of `work(t)`: read the counter, advance it, pick worker
    `next % parallel` and send `t` to its channel. The counter advances
    whether or not the send succeeds; a send to a dead worker changes no
    channel and hands `t` back.
   */
  function Submit<T>(s: PoolState<T>, t: T): (r: (PoolState<T>, SendResult<T>))
    requires s.Valid()
    ensures r.0.Valid()
    ensures r.0.next == s.next + 1 && r.0.parallel == s.parallel && r.0.dead == s.dead
    ensures r.1.Err? <==> Target(s.next, s.parallel) in s.dead
    ensures r.1.Err? ==> r.1.task == t && r.0.queues == s.queues
    ensures r.1.Ok? ==> forall w | 0 <= w < s.parallel ::
      r.0.queues[w] == if w == Target(s.next, s.parallel) then s.queues[w] + [t] else s.queues[w]
  {
    var w := Target(s.next, s.parallel);
    var advanced := s.(next := s.next + 1);
    if w in s.dead then (advanced, Err(t))
    else (advanced.(queues := s.queues[w := s.queues[w] + [t]]), Ok)
  }

  /** Back-to-back calls of `work`, one per task of `ts`, in order, with the result of each. */
  function SubmitAll<T>(s: PoolState<T>, ts: seq<T>): (r: (PoolState<T>, seq<SendResult<T>>))
    requires s.Valid()
    ensures r.0.Valid() && |r.1| == |ts|
    ensures r.0.next == s.next + |ts| && r.0.parallel == s.parallel && r.0.dead == s.dead
    decreases |ts|
  {
    if ts == [] then (s, [])
    else
      var first := Submit(s, ts[0]);
      var rest := SubmitAll(first.0, ts[1..]);
      (rest.0, [first.1] + rest.1)
  }

  /**
    One `recv` by worker `i`: the task at the head of its channel, or `None`
    when the channel is empty (the worker would block there).
   */
  function Recv<T>(s: PoolState<T>, i: nat): (r: (PoolState<T>, Option<T>))
    requires s.Valid() && i < s.parallel && i !in s.dead
    ensures r.0.Valid()
    ensures r.0.next == s.next && r.0.parallel == s.parallel && r.0.dead == s.dead
    ensures r.1.None? <==> s.queues[i] == []
    ensures r.1.None? ==> r.0.queues == s.queues
    ensures r.1.Some? ==> [r.1.value] + r.0.queues[i] == s.queues[i]
    ensures forall j | 0 <= j < s.parallel && j != i :: r.0.queues[j] == s.queues[j]
  {
    if s.queues[i] == [] then (s, None)
    else (s.(queues := s.queues[i := s.queues[i][1..]]), Some(s.queues[i][0]))
  }

  /**
    Worker `i` ends because the task it was running panicked: its receiver is
    dropped together with the tasks still buffered in its channel, and no
    other part of the state learns of it.
   */
  function Kill<T>(s: PoolState<T>, i: nat): (r: PoolState<T>)
    requires s.Valid() && i < s.parallel && i !in s.dead
    ensures r.Valid() && r.dead == s.dead + {i}
    ensures r.next == s.next && r.parallel == s.parallel
    ensures r.queues[i] == [] && forall j | 0 <= j < s.parallel && j != i :: r.queues[j] == s.queues[j]
  {
    s.(queues := s.queues[i := []], dead := s.dead + {i})
  }

  /** The tasks of `ts`, in order, whose submission starting from counter `n` targets worker `w`. */
  function Routed<T>(ts: seq<T>, n: nat, p: nat, w: nat): seq<T>
    requires p > 0
    decreases |ts|
  {
    if ts == [] then []
    else (if Target(n, p) == w then [ts[0]] else []) + Routed(ts[1..], n + 1, p, w)
  }

  /** All tasks waiting in the channels, worker 0's first. */
  function Gather<T>(qs: seq<seq<T>>): seq<T>
  {
    if qs == [] then [] else qs[0] + Gather(qs[1..])
  }

  /** The tasks handed back by the failed submissions among `rs`, in order. */
  function Rejected<T>(rs: seq<SendResult<T>>): seq<T>
  {
    if rs == [] then []
    else (if rs[0].Err? then [rs[0].task] else []) + Rejected(rs[1..])
  }
}
