/**
  What the dispatch rule guarantees over whole runs of submissions: where the
  i-th submission goes, what each channel holds afterwards, that no task is
  lost or duplicated, and how a dead worker shows up.
 */
module DispatchProperties {
  import opened Dispatch

  /** Division by a positive `p` has exactly one quotient and remainder. */
  lemma ModUnique(x: int, p: int, q: int, r: int)
    requires p > 0 && 0 <= r < p && x == q * p + r
    ensures x % p == r && x / p == q
  {
    var d := q - x / p;
    assert x == (x / p) * p + x % p;
    assert d * p == x % p - r;
    MulAtLeast(d, p);
    MulAtLeast(-d, p);
    assert (-d) * p == -(d * p);
  }

  /** A positive multiple of a positive `p` is at least `p`. */
  lemma {:induction false} MulAtLeast(d: int, p: int)
    requires p > 0
    ensures d >= 1 ==> d * p >= p
    decreases if d > 0 then d else 0
  {
    if d > 1 {
      MulAtLeast(d - 1, p);
      assert d * p == (d - 1) * p + p;
    }
  }

  /** The target worker is the counter modulo the worker count, as `work` computes it. */
  lemma {:induction false} TargetIsMod(n: nat, p: nat)
    requires p > 0
    ensures Target(n, p) == n % p
    decreases n
  {
    if n < p {
      ModUnique(n, p, 0, n);
    } else {
      TargetIsMod(n - p, p);
      var m := n - p;
      ModUnique(m, p, m / p, m % p);
      ModUnique(n, p, m / p + 1, m % p);
    }
  }

  /** Consecutive counter values visit the workers cyclically: 0, 1, ..., parallel - 1, 0, ... */
  lemma {:induction false} TargetSuccessor(n: nat, p: nat)
    requires p > 0
    ensures Target(n + 1, p) == if Target(n, p) + 1 == p then 0 else Target(n, p) + 1
    decreases n
  {
    if n < p {
      if n + 1 == p {
        assert Target(n + 1, p) == Target(0, p);
      }
    } else {
      TargetSuccessor(n - p, p);
      assert Target(n + 1, p) == Target(n - p + 1, p);
    }
  }

  /**
    Of back-to-back submissions starting from counter `s.next`, the i-th is
    sent to worker `(s.next + i) % parallel`; it fails, handing back its own
    task, exactly when that worker is dead.
   */
  lemma {:induction false} SubmitAllResults<T>(s: PoolState<T>, ts: seq<T>)
    requires s.Valid()
    ensures forall i {:trigger SubmitAll(s, ts).1[i]} | 0 <= i < |ts| ::
      SubmitAll(s, ts).1[i] == if Target(s.next + i, s.parallel) in s.dead then Err(ts[i]) else Ok
    decreases |ts|
  {
    if ts != [] {
      var s1 := Submit(s, ts[0]).0;
      SubmitAllResults(s1, ts[1..]);
      forall i | 0 <= i < |ts|
        ensures SubmitAll(s, ts).1[i] == if Target(s.next + i, s.parallel) in s.dead then Err(ts[i]) else Ok
      {
        if i > 0 {
          assert s1.next + (i - 1) == s.next + i;
          assert ts[1..][i - 1] == ts[i];
        }
      }
    }
  }

  /**
    After back-to-back submissions, each live worker's channel holds what it
    held before followed by exactly the tasks routed to it, in submission
    order; a dead worker's channel is unchanged.
   */
  lemma SubmitAllQueues<T>(s: PoolState<T>, ts: seq<T>)
    requires s.Valid()
    ensures forall w | 0 <= w < s.parallel ::
      SubmitAll(s, ts).0.queues[w] ==
        if w in s.dead then s.queues[w] else s.queues[w] + Routed(ts, s.next, s.parallel, w)
  {
    forall w | 0 <= w < s.parallel
      ensures SubmitAll(s, ts).0.queues[w] ==
        if w in s.dead then s.queues[w] else s.queues[w] + Routed(ts, s.next, s.parallel, w)
    {
      if w in s.dead {
        DeadQueueOf(s, ts, w);
      } else {
        LiveQueueOf(s, ts, w);
      }
    }
  }

  /** A dead worker's channel never changes. */
  lemma {:induction false} DeadQueueOf<T>(s: PoolState<T>, ts: seq<T>, w: nat)
    requires s.Valid() && w < s.parallel && w in s.dead
    ensures SubmitAll(s, ts).0.queues[w] == s.queues[w]
    decreases |ts|
  {
    if ts != [] {
      var s1 := Submit(s, ts[0]).0;
      DeadQueueOf(s1, ts[1..], w);
      SubmitQueueAt(s, ts[0], w);
      SubmitAllUnfold(s, ts);
    }
  }

  /** A live worker's channel gains exactly the tasks routed to it, in order. */
  lemma {:induction false} LiveQueueOf<T>(s: PoolState<T>, ts: seq<T>, w: nat)
    requires s.Valid() && w < s.parallel && w !in s.dead
    ensures SubmitAll(s, ts).0.queues[w] == s.queues[w] + Routed(ts, s.next, s.parallel, w)
    decreases |ts|
  {
    if ts != [] {
      var s1 := Submit(s, ts[0]).0;
      LiveQueueOf(s1, ts[1..], w);
      LiveQueueAt(s, ts[0], w);
      SubmitAllUnfold(s, ts);
      LiveCombine(s.queues[w], s1.queues[w], SubmitAll(s1, ts[1..]).0.queues[w], ts[0],
                  Target(s.next, s.parallel) == w, Routed(ts[1..], s1.next, s1.parallel, w),
                  Routed(ts, s.next, s.parallel, w));
    }
  }

  /** `SubmitQueueAt` for a live worker. */
  lemma LiveQueueAt<T>(s: PoolState<T>, t: T, w: nat)
    requires s.Valid() && w < s.parallel && w !in s.dead
    ensures Submit(s, t).0.queues[w] == if Target(s.next, s.parallel) == w then s.queues[w] + [t] else s.queues[w]
  {
    SubmitQueueAt(s, t, w);
  }

  /** The last step of `LiveQueueOf`, on the channel contents alone. */
  lemma LiveCombine<T>(q0: seq<T>, q1: seq<T>, q2: seq<T>, t: T, hit: bool, rest: seq<T>, routed: seq<T>)
    requires q1 == if hit then q0 + [t] else q0
    requires q2 == q1 + rest
    requires routed == (if hit then [t] else []) + rest
    ensures q2 == q0 + routed
  {
    if hit {
      AppendAssoc(q0, [t], rest);
    } else {
      assert [] + rest == rest;
    }
  }

  /** Concatenation is associative. */
  lemma AppendAssoc<T>(a: seq<T>, b: seq<T>, c: seq<T>)
    ensures (a + b) + c == a + (b + c)
  {
  }

  /** One submission adds its task to the target worker's channel only, and only if that worker is alive. */
  lemma SubmitQueueAt<T>(s: PoolState<T>, t: T, w: nat)
    requires s.Valid() && w < s.parallel
    ensures Submit(s, t).0.queues[w] ==
      if w !in s.dead && Target(s.next, s.parallel) == w then s.queues[w] + [t] else s.queues[w]
  {
  }

  /** Advancing the counter by a positive distance below `p` changes the target worker. */
  lemma {:induction false} TargetsDiffer(n: nat, k: nat, p: nat)
    requires 0 < k < p
    ensures Target(n + k, p) != Target(n, p)
    decreases n
  {
    if n < p {
      if n + k >= p {
        assert Target(n + k, p) == Target(n + k - p, p);
      }
    } else {
      TargetsDiffer(n - p, k, p);
      assert Target(n + k, p) == Target(n - p + k, p);
    }
  }

  /** From counter `n`, worker `w` is the target again after `(w - n) mod p` more submissions. */
  lemma DistanceToWorker(n: nat, p: nat, w: nat)
    requires w < p
    ensures (w - n) % p < p && Target(n + (w - n) % p, p) == w
  {
    var q, k := (w - n) / p, (w - n) % p;
    TargetIsMod(n + k, p);
    ModUnique(n + k, p, -q, w);
  }

  /** How many of the positions k, k + p, k + 2p, ... lie below `len`. */
  function Hits(k: nat, len: nat, p: nat): nat
    requires p > 0
  {
    if k < len then (len - k - 1) / p + 1 else 0
  }

  lemma HitsStep(k: nat, len: nat, p: nat)
    requires k < p && len > 0
    ensures Hits(k, len, p) == if k == 0 then 1 + Hits(p - 1, len - 1, p) else Hits(k - 1, len - 1, p)
  {
    if k == 0 {
      if p < len {
        var a := len - p - 1;
        ModUnique(len - 1, p, a / p + 1, a % p);
      } else {
        ModUnique(len - 1, p, 0, len - 1);
      }
    }
  }

  /** Every position w + j * p below `len` is one of the positions Hits(w, len, p) counts. */
  lemma HitsCover(w: nat, j: nat, len: nat, p: nat)
    requires w < p && w + j * p < len
    ensures j < Hits(w, len, p)
  {
    var e := len - 1 - (w + j * p);
    ModUnique(len - w - 1, p, j + e / p, e % p);
  }

  /**
    How many tasks worker `w` is sent by back-to-back submissions from counter
    `n`, when `k < p` further submissions bring the counter to `w`: one for
    each of the positions k, k + p, k + 2p, ... of `ts`.
   */
  lemma {:induction false} RoutedCount<T>(ts: seq<T>, n: nat, p: nat, w: nat, k: nat)
    requires k < p && Target(n + k, p) == w
    ensures |Routed(ts, n, p, w)| == Hits(k, |ts|, p)
    decreases |ts|
  {
    if ts != [] {
      HitsStep(k, |ts|, p);
      if k == 0 {
        assert Target(n + 1 + (p - 1), p) == w;
        RoutedCount(ts[1..], n + 1, p, w, p - 1);
      } else {
        TargetsDiffer(n, k, p);
        RoutedCount(ts[1..], n + 1, p, w, k - 1);
      }
    }
  }

  /**
    Round robin in closed form: under the same distance `k`, the j-th task
    worker `w` is sent is the task at position k + j * p of `ts`.
   */
  lemma {:induction false} RoutedStride<T>(ts: seq<T>, n: nat, p: nat, w: nat, k: nat)
    requires k < p && Target(n + k, p) == w
    ensures forall j | 0 <= j < |Routed(ts, n, p, w)| ::
      k + j * p < |ts| && Routed(ts, n, p, w)[j] == ts[k + j * p]
    decreases |ts|
  {
    if ts != [] {
      if k == 0 {
        assert Target(n + 1 + (p - 1), p) == w;
        RoutedStride(ts[1..], n + 1, p, w, p - 1);
        StrideWhenTargeted(ts, n, p, w);
      } else {
        TargetsDiffer(n, k, p);
        RoutedStride(ts[1..], n + 1, p, w, k - 1);
        StrideWhenSkipped(ts, n, p, w, k);
      }
    }
  }

  /** The step of RoutedStride where the first submission itself goes to `w`. */
  lemma StrideWhenTargeted<T>(ts: seq<T>, n: nat, p: nat, w: nat)
    requires ts != [] && p > 0 && Target(n, p) == w
    requires forall j | 0 <= j < |Routed(ts[1..], n + 1, p, w)| ::
      (p - 1) + j * p < |ts[1..]| && Routed(ts[1..], n + 1, p, w)[j] == ts[1..][(p - 1) + j * p]
    ensures forall j | 0 <= j < |Routed(ts, n, p, w)| ::
      j * p < |ts| && Routed(ts, n, p, w)[j] == ts[j * p]
  {
    var rest := Routed(ts[1..], n + 1, p, w);
    assert Routed(ts, n, p, w) == [ts[0]] + rest;
    forall j | 0 < j < |Routed(ts, n, p, w)|
      ensures j * p < |ts| && Routed(ts, n, p, w)[j] == ts[j * p]
    {
      StrideShift(j, p);
      assert Routed(ts, n, p, w)[j] == rest[j - 1];
    }
  }

  /** The step of RoutedStride where the first submission goes elsewhere. */
  lemma StrideWhenSkipped<T>(ts: seq<T>, n: nat, p: nat, w: nat, k: nat)
    requires ts != [] && 0 < k < p && Target(n, p) != w
    requires forall j | 0 <= j < |Routed(ts[1..], n + 1, p, w)| ::
      (k - 1) + j * p < |ts[1..]| && Routed(ts[1..], n + 1, p, w)[j] == ts[1..][(k - 1) + j * p]
    ensures forall j | 0 <= j < |Routed(ts, n, p, w)| ::
      k + j * p < |ts| && Routed(ts, n, p, w)[j] == ts[k + j * p]
  {
    var rest := Routed(ts[1..], n + 1, p, w);
    assert Routed(ts, n, p, w) == rest;
    forall j | 0 <= j < |rest|
      ensures k + j * p < |ts| && rest[j] == ts[k + j * p]
    {
      assert rest[j] == ts[1..][(k - 1) + j * p];
    }
  }

  lemma StrideShift(j: int, p: int)
    ensures (p - 1) + (j - 1) * p + 1 == j * p
  {
  }

  /**
    What a live worker's channel holds after back-to-back submissions: what
    it held before, then the tasks at positions k, k + p, k + 2p, ... of
    `ts`, where `k < p` more submissions bring the counter to that worker.
   */
  lemma ArrivalOrder<T>(s: PoolState<T>, ts: seq<T>, w: nat, k: nat)
    requires s.Valid() && w < s.parallel && w !in s.dead
    requires k < s.parallel && Target(s.next + k, s.parallel) == w
    ensures var q := SubmitAll(s, ts).0.queues[w];
      && |q| == |s.queues[w]| + Hits(k, |ts|, s.parallel)
      && q[..|s.queues[w]|] == s.queues[w]
      && forall j | 0 <= j < Hits(k, |ts|, s.parallel) ::
           k + j * s.parallel < |ts| && q[|s.queues[w]| + j] == ts[k + j * s.parallel]
  {
    SubmitAllQueues(s, ts);
    RoutedCount(ts, s.next, s.parallel, w, k);
    RoutedStride(ts, s.next, s.parallel, w, k);
  }

  /**
    From a freshly built pool, every submission succeeds, and worker `w`
    holds exactly the tasks at positions w, w + parallel, w + 2 * parallel,
    ... of `ts`, in that order: the i-th submission (counting from 0) is
    the (i / parallel)-th task of worker `i % parallel`.
   */
  lemma RoundRobinFromFresh<T>(p: nat, ts: seq<T>)
    requires p > 0
    ensures forall i | 0 <= i < |ts| :: SubmitAll(Fresh<T>(p), ts).1[i] == Ok
    ensures forall w | 0 <= w < p ::
      var q := SubmitAll(Fresh<T>(p), ts).0.queues[w];
      && |q| == Hits(w, |ts|, p)
      && (forall j | 0 <= j < |q| :: w + j * p < |ts| && q[j] == ts[w + j * p])
      && (forall j: nat | w + j * p < |ts| :: j < |q|)
  {
    var s := Fresh<T>(p);
    SubmitAllResults(s, ts);
    forall w | 0 <= w < p
      ensures var q := SubmitAll(s, ts).0.queues[w];
        && |q| == Hits(w, |ts|, p)
        && (forall j | 0 <= j < |q| :: w + j * p < |ts| && q[j] == ts[w + j * p])
        && (forall j: nat | w + j * p < |ts| :: j < |q|)
    {
      FreshWorkerHolds(s, ts, w);
    }
  }

  lemma FreshWorkerHolds<T>(s: PoolState<T>, ts: seq<T>, w: nat)
    requires s.Valid() && s.next == 0 && s.dead == {} && w < s.parallel && s.queues[w] == []
    ensures var q := SubmitAll(s, ts).0.queues[w];
      && |q| == Hits(w, |ts|, s.parallel)
      && (forall j | 0 <= j < |q| :: w + j * s.parallel < |ts| && q[j] == ts[w + j * s.parallel])
      && (forall j: nat | w + j * s.parallel < |ts| :: j < |q|)
  {
    ArrivalOrder(s, ts, w, w);
    forall j: nat | w + j * s.parallel < |ts|
      ensures j < Hits(w, |ts|, s.parallel)
    {
      HitsCover(w, j, |ts|, s.parallel);
    }
  }

  /** Any `parallel` consecutive submissions put exactly one task on every live worker. */
  lemma EveryWorkerOncePerRound<T>(s: PoolState<T>, ts: seq<T>)
    requires s.Valid() && |ts| == s.parallel
    ensures forall w | 0 <= w < s.parallel && w !in s.dead ::
      |SubmitAll(s, ts).0.queues[w]| == |s.queues[w]| + 1
  {
    forall w | 0 <= w < s.parallel && w !in s.dead
      ensures |SubmitAll(s, ts).0.queues[w]| == |s.queues[w]| + 1
    {
      var k := (w - s.next) % s.parallel;
      DistanceToWorker(s.next, s.parallel, w);
      ArrivalOrder(s, ts, w, k);
      ModUnique(s.parallel - k - 1, s.parallel, 0, s.parallel - k - 1);
    }
  }

  lemma {:induction false} GatherDistributes<T>(a: seq<seq<T>>, b: seq<seq<T>>)
    ensures Gather(a + b) == Gather(a) + Gather(b)
    decreases |a|
  {
    if a == [] {
      assert a + b == b;
    } else {
      assert (a + b)[0] == a[0];
      assert (a + b)[1..] == a[1..] + b;
      GatherDistributes(a[1..], b);
    }
  }

  /** Appending one task to one channel adds exactly that task to the pool's contents. */
  lemma {:induction false} GatherAppend<T>(qs: seq<seq<T>>, w: nat, t: T)
    requires w < |qs|
    ensures multiset(Gather(qs[w := qs[w] + [t]])) == multiset(Gather(qs)) + multiset{t}
  {
    var qs' := qs[w := qs[w] + [t]];
    assert qs == qs[..w] + [qs[w]] + qs[w + 1..];
    assert qs' == qs[..w] + [qs[w] + [t]] + qs[w + 1..];
    GatherDistributes(qs[..w] + [qs[w]], qs[w + 1..]);
    GatherDistributes(qs[..w], [qs[w]]);
    GatherDistributes(qs[..w] + [qs[w] + [t]], qs[w + 1..]);
    GatherDistributes(qs[..w], [qs[w] + [t]]);
    assert Gather([qs[w]]) == qs[w];
    assert Gather([qs[w] + [t]]) == qs[w] + [t];
  }

  /** One submission either enqueues its task or hands it back. */
  lemma SubmitConserves<T>(s: PoolState<T>, t: T)
    requires s.Valid()
    ensures multiset(Gather(Submit(s, t).0.queues)) + multiset(Rejected([Submit(s, t).1]))
         == multiset(Gather(s.queues)) + multiset{t}
  {
    var s1, x := Submit(s, t).0, Submit(s, t).1;
    var w := Target(s.next, s.parallel);
    assert Rejected([x]) == (if x.Err? then [t] else []) + Rejected([]);
    if x.Ok? {
      GatherAppend(s.queues, w, t);
      assert s1.queues == s.queues[w := s.queues[w] + [t]];
    }
  }

  /**
    No task is lost or duplicated: every submitted task either waits in
    exactly one channel or was handed back by a failed submission.
   */
  lemma {:induction false} SubmitAllConserves<T>(s: PoolState<T>, ts: seq<T>)
    requires s.Valid()
    ensures multiset(Gather(SubmitAll(s, ts).0.queues)) + multiset(Rejected(SubmitAll(s, ts).1))
         == multiset(Gather(s.queues)) + multiset(ts)
    decreases |ts|
  {
    if ts != [] {
      var s1, x := Submit(s, ts[0]).0, Submit(s, ts[0]).1;
      var s2, xs := SubmitAll(s1, ts[1..]).0, SubmitAll(s1, ts[1..]).1;
      SubmitAllUnfold(s, ts);
      SubmitConserves(s, ts[0]);
      SubmitAllConserves(s1, ts[1..]);
      RejectedSplit(x, xs);
      MultisetSplit(ts);
      Rebalance(multiset(Gather(s.queues)), multiset(Gather(s1.queues)), multiset(Gather(s2.queues)),
                multiset(Rejected([x])), multiset(Rejected(xs)), multiset{ts[0]}, multiset(ts[1..]));
    }
  }

  /** One step of `SubmitAll`: the first submission, then the rest from the state it leaves. */
  lemma SubmitAllUnfold<T>(s: PoolState<T>, ts: seq<T>)
    requires s.Valid() && ts != []
    ensures SubmitAll(s, ts).0 == SubmitAll(Submit(s, ts[0]).0, ts[1..]).0
    ensures SubmitAll(s, ts).1 == [Submit(s, ts[0]).1] + SubmitAll(Submit(s, ts[0]).0, ts[1..]).1
  {
  }

  /** A non-empty sequence holds its head and its tail. */
  lemma MultisetSplit<T>(ts: seq<T>)
    requires ts != []
    ensures multiset(ts) == multiset{ts[0]} + multiset(ts[1..])
  {
    assert ts == [ts[0]] + ts[1..];
  }

  lemma Rebalance<T>(before: multiset<T>, mid: multiset<T>, after: multiset<T>,
                     back: multiset<T>, laterBack: multiset<T>, first: multiset<T>, rest: multiset<T>)
    requires mid + back == before + first
    requires after + laterBack == mid + rest
    ensures after + (back + laterBack) == before + (first + rest)
  {
    assert forall z :: (after + (back + laterBack))[z] == (before + (first + rest))[z] by {
      forall z ensures (after + (back + laterBack))[z] == (before + (first + rest))[z] {
        assert (mid + back)[z] == (before + first)[z];
        assert (after + laterBack)[z] == (mid + rest)[z];
      }
    }
  }

  lemma RejectedSplit<T>(x: SendResult<T>, xs: seq<SendResult<T>>)
    ensures Rejected([x] + xs) == Rejected([x]) + Rejected(xs)
    ensures multiset(Rejected([x] + xs)) == multiset(Rejected([x])) + multiset(Rejected(xs))
  {
    assert ([x] + xs)[1..] == xs;
    assert Rejected([x]) == (if x.Err? then [x.task] else []) + Rejected([]);
  }

  /** With every worker alive, every submission succeeds and every task is enqueued. */
  lemma NoDeadWorkerNoLoss<T>(s: PoolState<T>, ts: seq<T>)
    requires s.Valid() && s.dead == {}
    ensures forall i | 0 <= i < |ts| :: SubmitAll(s, ts).1[i] == Ok
    ensures multiset(Gather(SubmitAll(s, ts).0.queues)) == multiset(Gather(s.queues)) + multiset(ts)
  {
    SubmitAllResults(s, ts);
    SubmitAllConserves(s, ts);
    RejectedOfOks(SubmitAll(s, ts).1);
  }

  lemma {:induction false} RejectedOfOks<T>(rs: seq<SendResult<T>>)
    requires forall i | 0 <= i < |rs| :: rs[i] == Ok
    ensures Rejected(rs) == []
    decreases |rs|
  {
    if rs != [] {
      RejectedOfOks(rs[1..]);
    }
  }

  /**
    Once worker `i` has died, the next submission routed to it fails, hands
    back its task and changes no channel, while one routed to a live worker
    still succeeds; the counter advances either way.
   */
  lemma DeadWorkerRejects<T>(s: PoolState<T>, i: nat, t: T)
    requires s.Valid() && i < s.parallel && i !in s.dead
    ensures var k := Kill(s, i);
      && Submit(k, t).0.next == s.next + 1
      && (Target(s.next, s.parallel) == i ==> Submit(k, t).1 == Err(t) && Submit(k, t).0.queues == k.queues)
      && (Target(s.next, s.parallel) !in s.dead + {i} ==> Submit(k, t).1 == Ok)
  {
  }

  /**
    Two workers: a first task is sent to worker 0 and panics there; a second
    goes to worker 1 and succeeds; a third is routed to worker 0 again and is
    handed back.
   */
  lemma TwoWorkerScenario<T>(a: T, b: T, c: T)
    ensures var s0 := Fresh<T>(2);
      var (s1, ra) := Submit(s0, a);
      var (s2, got) := Recv(s1, 0);
      var s3 := Kill(s2, 0);
      var (s4, rb) := Submit(s3, b);
      var (s5, rc) := Submit(s4, c);
      && ra == Ok && got == Some(a) && rb == Ok && rc == Err(c)
      && s5.queues[1] == [b] && s5.next == 3
  {
  }
}
