/** Background revalidation in the cache (pkg/cache/cache.go) as interleaved steps: the
    bounded job queue, the workers, the mutex `inflightMu` and the set of keys being
    refreshed.

    Three entry points feed the queue.  A stale SWR hit queues a `Single` job and a stale
    SWRMany hit a `Many` job; both mark their keys only when a worker runs them.  A stale
    SWRWithFallback hit marks the key itself, and it sends the `Canonical` job while it
    still holds the mutex.  Every other critical section is one step.
  */
module CacheWorkers {
  import opened Common

  datatype Job<K> = Single(key: K) | Many(keys: seq<K>) | Canonical(key: K)

  datatype Worker<K(==)> =
    | Idle
    | NeedsMark(job: Job<K>)         // has a job, and must lock to mark its keys
    | Refreshing(keys: set<K>)       // calls the origin and writes the result
    | NeedsUnmark(keys: set<K>)      // must lock to unmark its keys

  /** `holder` is the key of a SWRWithFallback caller that has marked it and waits, with the
      mutex, for room in the queue. */
  datatype State<K(==)> = State(
    queue: seq<Job<K>>, workers: seq<Worker<K>>, inflight: set<K>, holder: Option<K>)

  datatype Event<K> =
    | SendSingle(key: K)
    | SendMany(keys: seq<K>)
    | FallbackLock(key: K)
    | FallbackSend
    | Dequeue(w: nat)
    | Mark(w: nat)
    | Refreshed(w: nat)
    | Unmark(w: nat)

  function Init<K>(n: nat): State<K>
  {
    State([], seq(n, _ => Idle), {}, None)
  }

  predicate Enabled<K>(cap: nat, s: State<K>, e: Event<K>)
  {
    match e
    case SendSingle(_) => |s.queue| < cap
    case SendMany(_) => |s.queue| < cap
    case FallbackLock(_) => s.holder.None?
    case FallbackSend => s.holder.Some? && |s.queue| < cap
    case Dequeue(w) => w < |s.workers| && s.workers[w].Idle? && s.queue != []
    case Mark(w) => w < |s.workers| && s.workers[w].NeedsMark? && !s.workers[w].job.Canonical? && s.holder.None?
    case Refreshed(w) => w < |s.workers| && s.workers[w].Refreshing?
    case Unmark(w) => w < |s.workers| && s.workers[w].NeedsUnmark? && s.holder.None?
  }

  /** A canonical job's key is marked already; the others still have to be. */
  function Start<K>(j: Job<K>): Worker<K>
  {
    if j.Canonical? then Refreshing({j.key}) else NeedsMark(j)
  }

  /** The keys of a job that no one is refreshing yet. */
  function Unclaimed<K>(j: Job<K>, inflight: set<K>): set<K>
    requires !j.Canonical?
  {
    match j
    case Single(key) => {key} - inflight
    case Many(keys) => (set k | k in keys) - inflight
  }

  /** The marking loop of revalidateMany, under the mutex: marks every key no one is
      refreshing yet and lists it once, also when the job names it twice. */
  method MarkMany<K(==)>(keys: seq<K>, inflight: set<K>) returns (marked: set<K>, toRefresh: seq<K>)
    ensures marked == inflight + Unclaimed(Many(keys), inflight)
    ensures forall k :: k in toRefresh <==> k in Unclaimed(Many(keys), inflight)
    ensures forall i, j :: 0 <= i < j < |toRefresh| ==> toRefresh[i] != toRefresh[j]
  {
    marked, toRefresh := inflight, [];
    for i := 0 to |keys|
      invariant marked == inflight + set k | k in toRefresh
      invariant forall k :: k in toRefresh <==> k in keys[..i] && k !in inflight
      invariant forall a, b :: 0 <= a < b < |toRefresh| ==> toRefresh[a] != toRefresh[b]
    {
      assert keys[..i + 1] == keys[..i] + [keys[i]];
      if keys[i] !in marked {
        marked := marked + {keys[i]};
        toRefresh := toRefresh + [keys[i]];
      }
    }
    assert keys[..|keys|] == keys;
  }

  /** The unmarking loop of its deferred part. */
  method UnmarkMany<K(==)>(keys: seq<K>, inflight: set<K>) returns (left: set<K>)
    ensures left == inflight - set k | k in keys
  {
    left := inflight;
    for i := 0 to |keys|
      invariant left == inflight - set k | k in keys[..i]
    {
      assert keys[..i + 1] == keys[..i] + [keys[i]];
      left := left - {keys[i]};
    }
    assert keys[..|keys|] == keys;
  }

  function Apply<K>(cap: nat, s: State<K>, e: Event<K>): State<K>
    requires Enabled(cap, s, e)
  {
    match e
    case SendSingle(key) => s.(queue := s.queue + [Single(key)])
    case SendMany(keys) => s.(queue := s.queue + [Many(keys)])
    case FallbackLock(key) =>
      if key in s.inflight then s else s.(inflight := s.inflight + {key}, holder := Some(key))
    case FallbackSend => s.(queue := s.queue + [Canonical(s.holder.value)], holder := None)
    case Dequeue(w) => s.(queue := s.queue[1..], workers := s.workers[w := Start(s.queue[0])])
    case Mark(w) =>
      var keys := Unclaimed(s.workers[w].job, s.inflight);
      s.(inflight := s.inflight + keys,
         workers := s.workers[w := if keys == {} then Idle else Refreshing(keys)])
    case Refreshed(w) => s.(workers := s.workers[w := NeedsUnmark(s.workers[w].keys)])
    case Unmark(w) =>
      s.(inflight := s.inflight - s.workers[w].keys, workers := s.workers[w := Idle])
  }

  predicate Legal<K>(cap: nat, s: State<K>, es: seq<Event<K>>)
    decreases |es|
  {
    es == [] || (Enabled(cap, s, es[0]) && Legal(cap, Apply(cap, s, es[0]), es[1..]))
  }

  function After<K>(cap: nat, s: State<K>, es: seq<Event<K>>): State<K>
    requires Legal(cap, s, es)
    decreases |es|
  {
    if es == [] then s else After(cap, Apply(cap, s, es[0]), es[1..])
  }

  // ---------- Who owns a key that is being refreshed ----------

  ghost function JobOwns<K>(j: Job<K>, k: K): nat
  {
    if j == Canonical(k) then 1 else 0
  }

  ghost function WorkerOwns<K>(w: Worker<K>, k: K): nat
  {
    if (w.Refreshing? || w.NeedsUnmark?) && k in w.keys then 1 else 0
  }

  ghost function QueueOwners<K>(q: seq<Job<K>>, k: K): nat
  {
    if q == [] then 0 else JobOwns(q[0], k) + QueueOwners(q[1..], k)
  }

  ghost function WorkerOwners<K>(ws: seq<Worker<K>>, k: K): nat
  {
    if ws == [] then 0 else WorkerOwns(ws[0], k) + WorkerOwners(ws[1..], k)
  }

  /** How many owners `k` has: the waiting fallback caller, the queued fallback jobs and the
      workers that are refreshing it. */
  ghost function Owners<K>(s: State<K>, k: K): nat
  {
    (if s.holder == Some(k) then 1 else 0) + QueueOwners(s.queue, k) + WorkerOwners(s.workers, k)
  }

  /** The in-flight set is the disjoint union of the owners' keys: a key in it has exactly
      one owner, any other key has none. */
  ghost predicate Inv<K(!new)>(cap: nat, s: State<K>)
  {
    && (forall k :: Owners(s, k) == if k in s.inflight then 1 else 0)
    && |s.queue| <= cap
    && forall w :: 0 <= w < |s.workers| && s.workers[w].NeedsMark? ==> !s.workers[w].job.Canonical?
  }

  lemma {:induction false} QueueSnoc<K>(q: seq<Job<K>>, j: Job<K>, k: K)
    ensures QueueOwners(q + [j], k) == QueueOwners(q, k) + JobOwns(j, k)
  {
    if q == [] {
      assert q + [j] == [j];
    } else {
      assert (q + [j])[1..] == q[1..] + [j];
      QueueSnoc(q[1..], j, k);
    }
  }

  lemma {:induction false} WorkerUpdate<K>(ws: seq<Worker<K>>, w: nat, x: Worker<K>, k: K)
    requires w < |ws|
    ensures WorkerOwners(ws[w := x], k) + WorkerOwns(ws[w], k) == WorkerOwners(ws, k) + WorkerOwns(x, k)
    decreases |ws|
  {
    if w == 0 {
      assert ws[w := x][1..] == ws[1..];
    } else {
      assert ws[w := x][1..] == ws[1..][w - 1 := x];
      WorkerUpdate(ws[1..], w - 1, x, k);
    }
  }

  lemma {:induction false} IdleOwnNothing<K>(ws: seq<Worker<K>>, k: K)
    requires forall w :: 0 <= w < |ws| ==> WorkerOwns(ws[w], k) == 0
    ensures WorkerOwners(ws, k) == 0
  {
    if ws == [] {
    } else {
      IdleOwnNothing(ws[1..], k);
    }
  }

  lemma InitInv<K(!new)>(cap: nat, n: nat)
    ensures Inv(cap, Init<K>(n))
  {
    forall k: K ensures Owners(Init<K>(n), k) == 0 { IdleOwnNothing(Init<K>(n).workers, k); }
  }

  /** How one step changes the number of owners of one key. */
  lemma StepOwners<K(!new)>(cap: nat, s: State<K>, e: Event<K>, k: K)
    requires Inv(cap, s) && Enabled(cap, s, e)
    ensures Owners(Apply(cap, s, e), k) == if k in Apply(cap, s, e).inflight then 1 else 0
  {
    var s' := Apply(cap, s, e);
    assert Owners(s, k) == if k in s.inflight then 1 else 0;
    if e.SendSingle? || e.SendMany? || e.FallbackSend? {
      QueueSnoc(s.queue, s'.queue[|s.queue|], k);
    } else if !e.FallbackLock? {
      WorkerUpdate(s.workers, e.w, s'.workers[e.w], k);
    }
  }

  /** Every step keeps the invariant. */
  lemma StepInv<K(!new)>(cap: nat, s: State<K>, e: Event<K>)
    requires Inv(cap, s) && Enabled(cap, s, e)
    ensures Inv(cap, Apply(cap, s, e))
  {
    forall k ensures Owners(Apply(cap, s, e), k) == if k in Apply(cap, s, e).inflight then 1 else 0 {
      StepOwners(cap, s, e, k);
    }
  }

  lemma {:induction false} RunInv<K(!new)>(cap: nat, s: State<K>, es: seq<Event<K>>)
    requires Inv(cap, s) && Legal(cap, s, es)
    ensures Inv(cap, After(cap, s, es))
    decreases |es|
  {
    if es == [] {
    } else {
      StepInv(cap, s, es[0]);
      RunInv(cap, Apply(cap, s, es[0]), es[1..]);
    }
  }

  /** In every interleaving: the in-flight set is the disjoint union of what the waiting
      caller, the queued fallback jobs and the running workers own. */
  lemma OneOwner<K(!new)>(cap: nat, n: nat, es: seq<Event<K>>, k: K)
    requires Legal(cap, Init<K>(n), es)
    ensures var s := After(cap, Init<K>(n), es); Owners(s, k) == if k in s.inflight then 1 else 0
  {
    InitInv<K>(cap, n);
    RunInv(cap, Init<K>(n), es);
  }

  lemma {:induction false} OwnersOfTwo<K>(ws: seq<Worker<K>>, v: nat, w: nat, k: K)
    requires v < w < |ws|
    ensures WorkerOwners(ws, k) >= WorkerOwns(ws[v], k) + WorkerOwns(ws[w], k)
  {
    if v == 0 { OwnersOfOne(ws[1..], w - 1, k); } else { OwnersOfTwo(ws[1..], v - 1, w - 1, k); }
  }

  lemma {:induction false} OwnersOfOne<K>(ws: seq<Worker<K>>, w: nat, k: K)
    requires w < |ws|
    ensures WorkerOwners(ws, k) >= WorkerOwns(ws[w], k)
  {
    if w == 0 {
    } else {
      OwnersOfOne(ws[1..], w - 1, k);
    }
  }

  lemma {:induction false} QueuedOwns<K>(q: seq<Job<K>>, i: nat)
    requires i < |q| && q[i].Canonical?
    ensures QueueOwners(q, q[i].key) >= 1
  {
    if i == 0 {
    } else {
      QueuedOwns(q[1..], i - 1);
    }
  }

  /** No job unmarks another's key: the keys a worker removes are those of no other worker,
      of no queued fallback job and not those of the waiting caller. */
  lemma UnmarkIsPrivate<K(!new)>(cap: nat, s: State<K>, w: nat)
    requires Inv(cap, s) && Enabled(cap, s, Unmark(w))
    ensures var s' := Apply(cap, s, Unmark(w));
            && s'.inflight == s.inflight - s.workers[w].keys
            && (forall v, k :: 0 <= v < |s.workers| && v != w && WorkerOwns(s.workers[v], k) == 1 ==> k in s'.inflight)
            && (forall i :: 0 <= i < |s.queue| && s.queue[i].Canonical? ==> s.queue[i].key in s'.inflight)
  {
    var s' := Apply(cap, s, Unmark(w));
    StepInv(cap, s, Unmark(w));
    forall v, k | 0 <= v < |s.workers| && v != w && WorkerOwns(s.workers[v], k) == 1 ensures k in s'.inflight {
      assert s'.workers[v] == s.workers[v];
      OwnersOfOne(s'.workers, v, k);
      assert Owners(s', k) >= 1;
    }
    forall i | 0 <= i < |s.queue| && s.queue[i].Canonical? ensures s.queue[i].key in s'.inflight {
      QueuedOwns(s'.queue, i);
      assert Owners(s', s.queue[i].key) >= 1;
    }
  }

  function JobKeys<K>(j: Job<K>): set<K>
  {
    match j case Single(key) => {key} case Many(keys) => set k | k in keys case Canonical(key) => {key}
  }

  /** No key of a job is passed over: when a worker marks them, it goes on to refresh exactly
      those that no one is refreshing yet. */
  lemma MarkRefreshes<K(!new)>(cap: nat, s: State<K>, w: nat)
    requires Inv(cap, s) && Enabled(cap, s, Mark(w))
    ensures var s' := Apply(cap, s, Mark(w));
            var keys := JobKeys(s.workers[w].job);
            && s'.inflight == s.inflight + keys
            && (keys <= s.inflight ==> s'.workers[w] == Idle)
            && (!(keys <= s.inflight) ==> s'.workers[w] == Refreshing(keys - s.inflight))
            && forall k :: k in keys ==> Owners(s', k) == 1
  {
    StepInv(cap, s, Mark(w));
    var keys := JobKeys(s.workers[w].job);
    assert Unclaimed(s.workers[w].job, s.inflight) == keys - s.inflight;
    assert keys - s.inflight == {} <==> keys <= s.inflight;
  }

  // ---------- Jobs are started in the order they were sent ----------

  /** The jobs a run sends to the queue. */
  function SentIn<K>(cap: nat, s: State<K>, es: seq<Event<K>>): seq<Job<K>>
    requires Legal(cap, s, es)
    decreases |es|
  {
    if es == [] then []
    else
      (match es[0]
       case SendSingle(key) => [Single(key)]
       case SendMany(keys) => [Many(keys)]
       case FallbackSend => [Canonical(s.holder.value)]
       case _ => []) + SentIn(cap, Apply(cap, s, es[0]), es[1..])
  }

  /** `started` are the jobs that workers have taken up in the run, by what those workers do. */
  ghost predicate Began<K>(cap: nat, s: State<K>, es: seq<Event<K>>, started: seq<Job<K>>)
    requires Legal(cap, s, es)
    decreases |es|
  {
    if es == [] then started == []
    else
      var s' := Apply(cap, s, es[0]);
      if es[0].Dequeue? then
        && started != []
        && s'.workers[es[0].w]
           == (if started[0].Canonical? then Refreshing({started[0].key}) else NeedsMark(started[0]))
        && Began(cap, s', es[1..], started[1..])
      else Began(cap, s', es[1..], started)
  }

  /** In every run: what was started and what is still queued is what was queued and what was
      sent, in that order. */
  lemma {:induction false} StartedInOrder<K>(cap: nat, s: State<K>, es: seq<Event<K>>) returns (started: seq<Job<K>>)
    requires Legal(cap, s, es)
    ensures Began(cap, s, es, started)
    ensures started + After(cap, s, es).queue == s.queue + SentIn(cap, s, es)
    decreases |es|
  {
    if es == [] {
      started := [];
    } else {
      var s' := Apply(cap, s, es[0]);
      var rest := StartedInOrder(cap, s', es[1..]);
      var more := SentIn(cap, s', es[1..]);
      if es[0].Dequeue? {
        started := [s.queue[0]] + rest;
        assert started[1..] == rest && s.queue == [s.queue[0]] + s'.queue;
        ConcatAssociative([s.queue[0]], rest, After(cap, s, es).queue);
        ConcatAssociative([s.queue[0]], s'.queue, more);
        assert [] + more == more;
      } else {
        started := rest;
        ConcatAssociative(s.queue, s'.queue[|s.queue|..], more);
        assert s'.queue == s.queue + s'.queue[|s.queue|..];
      }
    }
  }

  /** No two workers refresh the same key at the same time. */
  lemma NoDoubleRefresh<K(!new)>(cap: nat, s: State<K>, v: nat, w: nat, k: K)
    requires Inv(cap, s) && v < w < |s.workers|
    ensures WorkerOwns(s.workers[v], k) + WorkerOwns(s.workers[w], k) <= 1
  {
    OwnersOfTwo(s.workers, v, w, k);
    assert Owners(s, k) <= 1;
  }

  /** Once queue and workers are idle, nothing is marked: no key is blocked for good. */
  lemma QuietMeansUnmarked<K(!new)>(cap: nat, s: State<K>)
    requires Inv(cap, s) && s.queue == [] && s.holder.None?
    requires forall w :: 0 <= w < |s.workers| ==> s.workers[w].Idle?
    ensures s.inflight == {}
  {
    forall k | k in s.inflight ensures false {
      assert Owners(s, k) == 1;
      IdleOwnNothing(s.workers, k);
    }
  }

  // ---------- Progress, and the one way to get stuck ----------

  predicate Unfinished<K>(s: State<K>)
  {
    s.queue != [] || s.holder.Some? || exists w :: 0 <= w < |s.workers| && !s.workers[w].Idle?
  }

  /** A step of the pool itself, as opposed to a new call arriving. */
  predicate Internal<K>(e: Event<K>)
  {
    e.FallbackSend? || e.Dequeue? || e.Mark? || e.Refreshed? || e.Unmark?
  }

  /** A caller waits with the mutex for room in a full queue, and every worker waits for
      that mutex. */
  predicate Stuck<K>(cap: nat, s: State<K>)
  {
    && s.holder.Some? && |s.queue| == cap
    && forall w :: 0 <= w < |s.workers| ==> s.workers[w].NeedsMark? || s.workers[w].NeedsUnmark?
  }

  /** Work that is left can go on if and only if the pool is not stuck in that way. */
  lemma Progress<K(!new)>(cap: nat, s: State<K>)
    requires Inv(cap, s) && cap >= 1 && |s.workers| >= 1 && Unfinished(s)
    ensures (exists e :: Internal(e) && Enabled(cap, s, e)) <==> !Stuck(cap, s)
  {
    if !Stuck(cap, s) {
      var e := SomeStep(cap, s);
      assert Internal(e) && Enabled(cap, s, e);
    }
  }

  lemma SomeStep<K(!new)>(cap: nat, s: State<K>) returns (e: Event<K>)
    requires Inv(cap, s) && cap >= 1 && |s.workers| >= 1 && Unfinished(s) && !Stuck(cap, s)
    ensures Internal(e) && Enabled(cap, s, e)
  {
    if w :| 0 <= w < |s.workers| && s.workers[w].Refreshing? {
      e := Refreshed(w);
    } else if s.holder.Some? && |s.queue| < cap {
      e := FallbackSend;
    } else if w :| 0 <= w < |s.workers| && s.workers[w].Idle? && s.queue != [] {
      e := Dequeue(w);
    } else {
      var w :| 0 <= w < |s.workers| && !s.workers[w].Idle?;
      e := if s.workers[w].NeedsMark? then Mark(w) else Unmark(w);
    }
  }

  // How many steps of its own the pool has left, at most.

  function StepsOf<K>(w: Worker<K>): nat
  {
    match w case Idle => 0 case NeedsMark(_) => 3 case Refreshing(_) => 2 case NeedsUnmark(_) => 1
  }

  function StepsOfAll<K>(ws: seq<Worker<K>>): nat
  {
    if ws == [] then 0 else StepsOf(ws[0]) + StepsOfAll(ws[1..])
  }

  function StepsLeft<K>(s: State<K>): nat
  {
    (if s.holder.Some? then 5 else 0) + 4 * |s.queue| + StepsOfAll(s.workers)
  }

  lemma {:induction false} StepsUpdate<K>(ws: seq<Worker<K>>, w: nat, x: Worker<K>)
    requires w < |ws|
    ensures StepsOfAll(ws[w := x]) + StepsOf(ws[w]) == StepsOfAll(ws) + StepsOf(x)
    decreases |ws|
  {
    if w == 0 {
      assert ws[w := x][1..] == ws[1..];
    } else {
      assert ws[w := x][1..] == ws[1..][w - 1 := x];
      StepsUpdate(ws[1..], w - 1, x);
    }
  }

  lemma FewerStepsLeft<K>(cap: nat, s: State<K>, e: Event<K>)
    requires Enabled(cap, s, e) && Internal(e)
    ensures StepsLeft(Apply(cap, s, e)) < StepsLeft(s)
  {
    if !e.FallbackSend? { StepsUpdate(s.workers, e.w, Apply(cap, s, e).workers[e.w]); }
  }

  lemma {:induction false} BoundedSteps<K>(cap: nat, s: State<K>, es: seq<Event<K>>)
    requires Legal(cap, s, es) && forall i :: 0 <= i < |es| ==> Internal(es[i])
    ensures |es| + StepsLeft(After(cap, s, es)) <= StepsLeft(s)
    decreases |es|
  {
    if es == [] {
    } else {
      assert Internal(es[0]);
      FewerStepsLeft(cap, s, es[0]);
      BoundedSteps(cap, Apply(cap, s, es[0]), es[1..]);
    }
  }

  /** When no new calls arrive, every order of the pool's own steps is bounded, and where it
      can go no further the pool is stuck, or all is done and no key is marked. */
  lemma EveryDrainEnds<K(!new)>(cap: nat, s: State<K>, es: seq<Event<K>>)
    requires Inv(cap, s) && cap >= 1 && |s.workers| >= 1
    requires Legal(cap, s, es) && forall i :: 0 <= i < |es| ==> Internal(es[i])
    ensures |es| <= StepsLeft(s)
    ensures var s' := After(cap, s, es);
            || (exists e :: Internal(e) && Enabled(cap, s', e))
            || Stuck(cap, s')
            || (!Unfinished(s') && s'.inflight == {})
  {
    var s' := After(cap, s, es);
    BoundedSteps(cap, s, es);
    RunInv(cap, s, es);
    SameWorkers(cap, s, es);
    if Unfinished(s') { Progress(cap, s'); } else { QuietMeansUnmarked(cap, s'); }
  }

  lemma {:induction false} SameWorkers<K>(cap: nat, s: State<K>, es: seq<Event<K>>)
    requires Legal(cap, s, es)
    ensures |After(cap, s, es).workers| == |s.workers|
    decreases |es|
  {
    if es == [] {
    } else {
      SameWorkers(cap, Apply(cap, s, es[0]), es[1..]);
    }
  }

  /** Once stuck, no step is possible ever again: no call gets through, no worker moves. */
  lemma StuckForever<K(!new)>(cap: nat, s: State<K>, es: seq<Event<K>>)
    requires Stuck(cap, s) && Legal(cap, s, es)
    ensures es == []
  {
  }

  lemma {:induction false} Extend<K>(cap: nat, s: State<K>, es: seq<Event<K>>, e: Event<K>)
    requires Legal(cap, s, es) && Enabled(cap, After(cap, s, es), e)
    ensures Legal(cap, s, es + [e]) && After(cap, s, es + [e]) == Apply(cap, After(cap, s, es), e)
    decreases |es|
  {
    if es == [] {
      assert es + [e] == [e] && [e][1..] == [];
    } else {
      assert (es + [e])[1..] == es[1..] + [e];
      Extend(cap, Apply(cap, s, es[0]), es[1..], e);
    }
  }

  /** The first `j` workers hold a job of `key` and wait to mark it; `q` more are queued. */
  function Loaded<K>(n: nat, j: nat, q: nat, key: K): State<K>
    requires j <= n
  {
    State(seq(q, _ => Single(key)), seq(n, i => if i < j then NeedsMark(Single(key)) else Idle), {}, None)
  }

  lemma {:induction false} LoadWorkers<K>(cap: nat, n: nat, j: nat, key: K) returns (es: seq<Event<K>>)
    requires cap >= 1 && j <= n
    ensures Legal(cap, Init<K>(n), es) && After(cap, Init<K>(n), es) == Loaded(n, j, 0, key)
    decreases j
  {
    if j == 0 {
      es := [];
      assert Init<K>(n).workers == Loaded(n, 0, 0, key).workers;
    } else {
      es := LoadWorkers(cap, n, j - 1, key);
      var s := Loaded(n, j - 1, 0, key);
      Extend(cap, Init<K>(n), es, SendSingle(key));
      es := es + [SendSingle(key)];
      Extend(cap, Init<K>(n), es, Dequeue(j - 1));
      es := es + [Dequeue(j - 1)];
      assert s.workers[j - 1 := NeedsMark(Single(key))] == Loaded(n, j, 0, key).workers;
    }
  }

  lemma {:induction false} LoadQueue<K>(cap: nat, n: nat, q: nat, key: K) returns (es: seq<Event<K>>)
    requires 1 <= cap && q <= cap
    ensures Legal(cap, Init<K>(n), es) && After(cap, Init<K>(n), es) == Loaded(n, n, q, key)
    decreases q
  {
    if q == 0 {
      es := LoadWorkers(cap, n, n, key);
    } else {
      es := LoadQueue(cap, n, q - 1, key);
      Extend(cap, Init<K>(n), es, SendSingle(key));
      es := es + [SendSingle(key)];
      assert Loaded(n, n, q - 1, key).queue + [Single(key)] == Loaded(n, n, q, key).queue;
    }
  }

  /** The stuck state can be reached for every queue size and every number of workers. */
  lemma StuckReachable<K>(cap: nat, n: nat, key: K) returns (es: seq<Event<K>>)
    requires cap >= 1
    ensures Legal(cap, Init<K>(n), es) && Stuck(cap, After(cap, Init<K>(n), es))
  {
    es := LoadQueue(cap, n, cap, key);
    Extend(cap, Init<K>(n), es, FallbackLock(key));
    es := es + [FallbackLock(key)];
  }

  // ---------- How much load it takes ----------

  function Busy<K>(ws: seq<Worker<K>>): nat
  {
    if ws == [] then 0 else (if ws[0].Idle? then 0 else 1) + Busy(ws[1..])
  }

  /** The jobs under way: queued, with a worker, or with the waiting caller. */
  function Load<K>(s: State<K>): nat
  {
    |s.queue| + Busy(s.workers) + (if s.holder.Some? then 1 else 0)
  }

  /** The load never exceeds `q` in the run. */
  predicate LoadWithin<K>(cap: nat, s: State<K>, es: seq<Event<K>>, q: nat)
    requires Legal(cap, s, es)
    decreases |es|
  {
    Load(s) <= q && (es != [] ==> LoadWithin(cap, Apply(cap, s, es[0]), es[1..], q))
  }

  lemma {:induction false} BusyBound<K>(ws: seq<Worker<K>>)
    ensures Busy(ws) <= |ws|
    ensures (forall w :: 0 <= w < |ws| ==> !ws[w].Idle?) ==> Busy(ws) == |ws|
  {
    if ws == [] {
    } else {
      BusyBound(ws[1..]);
    }
  }

  lemma {:induction false} LoadAtEnd<K>(cap: nat, s: State<K>, es: seq<Event<K>>, q: nat)
    requires Legal(cap, s, es) && LoadWithin(cap, s, es, q)
    ensures Load(After(cap, s, es)) <= q
    decreases |es|
  {
    if es == [] {
    } else {
      LoadAtEnd(cap, Apply(cap, s, es[0]), es[1..], q);
    }
  }

  /** No run has more than fits: the queue, a job per worker, and one waiting caller. */
  lemma {:induction false} LoadBound<K(!new)>(cap: nat, s: State<K>, es: seq<Event<K>>)
    requires Inv(cap, s) && Legal(cap, s, es)
    ensures LoadWithin(cap, s, es, cap + |s.workers| + 1)
    decreases |es|
  {
    BusyBound(s.workers);
    if es == [] {
    } else {
      StepInv(cap, s, es[0]);
      LoadBound(cap, Apply(cap, s, es[0]), es[1..]);
    }
  }

  lemma {:induction false} LoadMonotone<K>(cap: nat, s: State<K>, es: seq<Event<K>>, p: nat, q: nat)
    requires Legal(cap, s, es) && LoadWithin(cap, s, es, p) && p <= q
    ensures LoadWithin(cap, s, es, q)
    decreases |es|
  {
    if es == [] {
    } else {
      LoadMonotone(cap, Apply(cap, s, es[0]), es[1..], p, q);
    }
  }

  /** Being stuck takes everything there is room for. */
  lemma StuckLoad<K>(cap: nat, s: State<K>)
    requires Stuck(cap, s)
    ensures Load(s) == cap + |s.workers| + 1
  {
    BusyBound(s.workers);
  }

  ghost predicate NeverStuckWithin<K(!new)>(cap: nat, n: nat, q: nat)
  {
    forall es: seq<Event<K>> :: Legal(cap, Init<K>(n), es) && LoadWithin(cap, Init<K>(n), es, q) ==>
      !Stuck(cap, After(cap, Init<K>(n), es))
  }

  /** With `n` workers, runs whose load never exceeds `q` are never stuck if and only if the
      queue and the workers have room for `q`. */
  lemma NeverStuckIff<K(!new)>(cap: nat, n: nat, q: nat, key: K)
    requires cap >= 1
    ensures NeverStuckWithin<K>(cap, n, q) <==> q <= cap + n
  {
    if q <= cap + n {
      forall es: seq<Event<K>> | Legal(cap, Init<K>(n), es) && LoadWithin(cap, Init<K>(n), es, q)
        ensures !Stuck(cap, After(cap, Init<K>(n), es))
      {
        SameWorkers(cap, Init<K>(n), es);
        LoadAtEnd(cap, Init<K>(n), es, q);
        if Stuck(cap, After(cap, Init<K>(n), es)) { StuckLoad(cap, After(cap, Init<K>(n), es)); }
      }
    } else {
      var es := StuckReachable(cap, n, key);
      InitInv<K>(cap, n);
      LoadBound(cap, Init<K>(n), es);
      LoadMonotone(cap, Init<K>(n), es, cap + n + 1, q);
    }
  }

  /** Without SWRWithFallback callers the pool never gets stuck. */
  lemma {:induction false} NoFallbackNeverStuck<K>(cap: nat, s: State<K>, es: seq<Event<K>>)
    requires Legal(cap, s, es) && s.holder.None?
    requires forall i :: 0 <= i < |es| ==> !es[i].FallbackLock?
    ensures !Stuck(cap, After(cap, s, es))
    decreases |es|
  {
    if es == [] {
    } else {
      assert !es[0].FallbackLock?;
      NoFallbackNeverStuck(cap, Apply(cap, s, es[0]), es[1..]);
    }
  }
}
