/** The buffer and the batch processor (pkg/buffer, pkg/batch) as interleaved steps.

    Producers, the bounded channel, the consumers with their timers, and Close take turns in
    any order.  A producer holds the buffer's read lock from `Enter` to the end of its send;
    Close waits for the write lock, closes the channel and then waits for every consumer.
    A flush takes time: it starts when a consumer enters `Flushing` or `Draining` and ends
    with `Flushed`.
  */
module BatchProcessor {
  import opened Common

  datatype Config = Config(capacity: nat, drop: bool, batchSize: int, consumers: int)

  /** A consumer is in its select, in a flush, in its last flush, or gone. */
  datatype Phase = Collecting | Flushing | Draining | Done

  datatype Consumer<T> = Consumer(phase: Phase, batch: seq<T>, flushes: seq<seq<T>>)

  datatype State<T> = State(
    waiting: seq<T>,             // items of producers inside Buffer(), not yet sent
    queue: seq<T>,               // the channel
    closing: bool,               // Close is called and waits for, or has had, the write lock
    closed: bool,                // the channel is closed
    returned: bool,              // Close has returned
    consumers: seq<Consumer<T>>,
    accepted: seq<T>,            // history: items in the order they entered the channel
    receivers: seq<nat>)         // history: which consumer received the i-th accepted item

  datatype Event<T> =
    | Enter(item: T)             // Buffer() takes the read lock and finds the buffer open
    | Reject(item: T)            // Buffer() finds the buffer closed
    | Send(p: nat)               // a waiting producer's item enters the channel
    | Drop(p: nat)               // drop mode, channel full
    | Handoff(p: nat, c: nat)    // unbuffered channel: straight to a consumer
    | Receive(c: nat)
    | Tick(c: nat)               // the flush timer fires
    | Flushed(c: nat)            // the flush function returns
    | Hangup(c: nat)             // the consumer sees the closed, empty channel
    | CloseCalled
    | CloseChannel
    | CloseReturns

  function ConsumerCount(cfg: Config): (n: nat)
    ensures n >= 1
  {
    if cfg.consumers <= 0 then 1 else cfg.consumers
  }

  function Idle<T>(): Consumer<T> { Consumer(Collecting, [], []) }

  function Init<T>(cfg: Config): State<T>
  {
    State([], [], false, false, false, seq(ConsumerCount(cfg), _ => Idle()), [], [])
  }

  // ---------- One consumer ----------

  /** The largest batch: at least one item, whatever the configured size. */
  function Limit(cfg: Config): nat { if cfg.batchSize < 1 then 1 else cfg.batchSize }

  function Take<T>(cfg: Config, k: Consumer<T>, item: T): Consumer<T>
  {
    var batch := k.batch + [item];
    k.(batch := batch, phase := if |batch| >= cfg.batchSize then Flushing else Collecting)
  }

  function Fire<T>(k: Consumer<T>): Consumer<T>
  {
    if k.batch == [] then k else k.(phase := Flushing)
  }

  function EndFlush<T>(k: Consumer<T>): Consumer<T>
  {
    Consumer(if k.phase == Draining then Done else Collecting, [], k.flushes + [k.batch])
  }

  function SeeClosed<T>(k: Consumer<T>): Consumer<T>
  {
    k.(phase := if k.batch == [] then Done else Draining)
  }

  // ---------- Steps of the whole ----------

  predicate Enabled<T>(cfg: Config, s: State<T>, e: Event<T>)
  {
    match e
    case Enter(_) => !s.closing
    case Reject(_) => s.closed
    case Send(p) => p < |s.waiting| && |s.queue| < cfg.capacity
    case Drop(p) => p < |s.waiting| && cfg.drop && |s.queue| >= cfg.capacity
    case Handoff(p, c) =>
      p < |s.waiting| && cfg.capacity == 0 && c < |s.consumers| && s.consumers[c].phase == Collecting
    case Receive(c) => c < |s.consumers| && s.consumers[c].phase == Collecting && s.queue != []
    case Tick(c) => c < |s.consumers| && s.consumers[c].phase == Collecting
    case Flushed(c) => c < |s.consumers| && s.consumers[c].phase in {Flushing, Draining}
    case Hangup(c) => c < |s.consumers| && s.consumers[c].phase == Collecting && s.closed && s.queue == []
    case CloseCalled => true
    case CloseChannel => s.closing && !s.closed && s.waiting == []
    case CloseReturns => s.closed && forall c :: 0 <= c < |s.consumers| ==> s.consumers[c].phase == Done
  }

  function Apply<T>(cfg: Config, s: State<T>, e: Event<T>): State<T>
    requires Enabled(cfg, s, e)
  {
    match e
    case Enter(item) => s.(waiting := s.waiting + [item])
    case Reject(_) => s
    case Send(p) =>
      s.(waiting := Without(s.waiting, p), queue := s.queue + [s.waiting[p]],
         accepted := s.accepted + [s.waiting[p]])
    case Drop(p) => s.(waiting := Without(s.waiting, p))
    case Handoff(p, c) =>
      s.(waiting := Without(s.waiting, p), accepted := s.accepted + [s.waiting[p]],
         receivers := s.receivers + [c],
         consumers := s.consumers[c := Take(cfg, s.consumers[c], s.waiting[p])])
    case Receive(c) =>
      s.(queue := s.queue[1..], receivers := s.receivers + [c],
         consumers := s.consumers[c := Take(cfg, s.consumers[c], s.queue[0])])
    case Tick(c) => s.(consumers := s.consumers[c := Fire(s.consumers[c])])
    case Flushed(c) => s.(consumers := s.consumers[c := EndFlush(s.consumers[c])])
    case Hangup(c) => s.(consumers := s.consumers[c := SeeClosed(s.consumers[c])])
    case CloseCalled => s.(closing := true)
    case CloseChannel => s.(closed := true)
    case CloseReturns => s.(returned := true)
  }

  /** Every event of the list is possible when its turn comes. */
  predicate Legal<T>(cfg: Config, s: State<T>, es: seq<Event<T>>)
    decreases |es|
  {
    es == [] || (Enabled(cfg, s, es[0]) && Legal(cfg, Apply(cfg, s, es[0]), es[1..]))
  }

  function After<T>(cfg: Config, s: State<T>, es: seq<Event<T>>): State<T>
    requires Legal(cfg, s, es)
    decreases |es|
  {
    if es == [] then s else After(cfg, Apply(cfg, s, es[0]), es[1..])
  }

  // ---------- The invariant ----------

  function Flat<T>(xss: seq<seq<T>>): seq<T>
  {
    if xss == [] then [] else Flat(xss[..|xss| - 1]) + xss[|xss| - 1]
  }

  /** Everything a consumer has received, in order. */
  function Stream<T>(k: Consumer<T>): seq<T> { Flat(k.flushes) + k.batch }

  /** The items of `xs` whose receiver is `c`, in order. */
  function Received<T>(xs: seq<T>, who: seq<nat>, c: nat): seq<T>
    requires |who| == |xs|
  {
    if xs == [] then []
    else Received(xs[..|xs| - 1], who[..|who| - 1], c) + (if who[|who| - 1] == c then [xs[|xs| - 1]] else [])
  }

  /** Batches keep within the limit; `over` says the channel is closed and empty. */
  ghost predicate WellSized<T>(cfg: Config, k: Consumer<T>, over: bool)
  {
    && (forall i :: 0 <= i < |k.flushes| ==> 1 <= |k.flushes[i]| <= Limit(cfg))
    && match k.phase
       case Collecting => |k.batch| < Limit(cfg)
       case Flushing => 1 <= |k.batch| <= Limit(cfg)
       case Draining => 1 <= |k.batch| <= Limit(cfg) && over
       case Done => k.batch == [] && over
  }

  ghost predicate ConsumerOk<T>(cfg: Config, s: State<T>, c: nat)
    requires c < |s.consumers| && |s.receivers| <= |s.accepted|
  {
    && Stream(s.consumers[c]) == Received(s.accepted[..|s.receivers|], s.receivers, c)
    && WellSized(cfg, s.consumers[c], s.closed && s.queue == [])
  }

  ghost predicate Inv<T>(cfg: Config, s: State<T>)
  {
    && |s.consumers| == ConsumerCount(cfg)
    && |s.receivers| <= |s.accepted|
    && s.queue == s.accepted[|s.receivers|..]
    && |s.queue| <= cfg.capacity
    && (forall i :: 0 <= i < |s.receivers| ==> s.receivers[i] < |s.consumers|)
    && (s.closed ==> s.closing && s.waiting == [])
    && (s.returned ==> s.closed && forall c :: 0 <= c < |s.consumers| ==> s.consumers[c].phase == Done)
    && (forall c :: 0 <= c < |s.consumers| ==> ConsumerOk(cfg, s, c))
  }

  lemma InitInv<T>(cfg: Config)
    ensures Inv(cfg, Init<T>(cfg))
  {
  }

  lemma {:induction false} ReceivedSnoc<T>(xs: seq<T>, who: seq<nat>, x: T, r: nat, c: nat)
    requires |who| == |xs|
    ensures Received(xs + [x], who + [r], c) == Received(xs, who, c) + (if r == c then [x] else [])
  {
    assert (xs + [x])[..|xs|] == xs && (who + [r])[..|who|] == who;
  }

  lemma {:induction false} FlatSnoc<T>(xss: seq<seq<T>>, xs: seq<T>)
    ensures Flat(xss + [xs]) == Flat(xss) + xs
  {
    assert (xss + [xs])[..|xss|] == xss;
  }

  lemma TakeStream<T>(cfg: Config, k: Consumer<T>, item: T)
    ensures Stream(Take(cfg, k, item)) == Stream(k) + [item]
  {
    assert Flat(k.flushes) + (k.batch + [item]) == (Flat(k.flushes) + k.batch) + [item];
  }

  /** A step that hands the next accepted item to a consumer. */
  lemma TakeOk<T>(cfg: Config, s: State<T>, s': State<T>, c: nat, item: T)
    requires Inv(cfg, s) && c < |s.consumers| && s.consumers[c].phase == Collecting
    requires s'.receivers == s.receivers + [c] && |s'.receivers| <= |s'.accepted|
    requires s'.accepted[..|s'.receivers|] == s.accepted[..|s.receivers|] + [item]
    requires s'.consumers == s.consumers[c := Take(cfg, s.consumers[c], item)]
    requires s'.closed == s.closed && (s.queue == [] ==> s'.queue == [])
    ensures forall d :: 0 <= d < |s'.consumers| ==> ConsumerOk(cfg, s', d)
  {
    var k := s.consumers[c];
    forall d | 0 <= d < |s'.consumers| ensures ConsumerOk(cfg, s', d) {
      assert ConsumerOk(cfg, s, d);
      ReceivedSnoc(s.accepted[..|s.receivers|], s.receivers, item, c, d);
      TakeStream(cfg, k, item);
    }
  }

  /** A step that changes one consumer without receiving anything. */
  lemma UpdateOk<T>(cfg: Config, s: State<T>, s': State<T>, c: nat, k': Consumer<T>)
    requires Inv(cfg, s) && c < |s.consumers|
    requires s' == s.(consumers := s.consumers[c := k'])
    requires ConsumerOk(cfg, s', c)
    ensures forall d :: 0 <= d < |s'.consumers| ==> ConsumerOk(cfg, s', d)
  {
    forall d | 0 <= d < |s'.consumers| ensures ConsumerOk(cfg, s', d) {
      assert ConsumerOk(cfg, s, d);
    }
  }

  /** A step that leaves the consumers and what they have received alone. */
  lemma SameConsumersOk<T>(cfg: Config, s: State<T>, s': State<T>)
    requires Inv(cfg, s) && s'.consumers == s.consumers && s'.receivers == s.receivers
    requires s.accepted <= s'.accepted
    requires s.closed && s.queue == [] ==> s'.closed && s'.queue == []
    ensures forall d :: 0 <= d < |s'.consumers| ==> ConsumerOk(cfg, s', d)
  {
    assert s'.accepted[..|s.receivers|] == s.accepted[..|s.receivers|];
    forall d | 0 <= d < |s'.consumers| ensures ConsumerOk(cfg, s', d) {
      assert ConsumerOk(cfg, s, d);
    }
  }

  lemma OutsideStepInv<T>(cfg: Config, s: State<T>, e: Event<T>)
    requires Inv(cfg, s) && Enabled(cfg, s, e)
    requires e.Enter? || e.Reject? || e.Send? || e.Drop? || e.CloseCalled? || e.CloseChannel? || e.CloseReturns?
    ensures Inv(cfg, Apply(cfg, s, e))
  {
    SameConsumersOk(cfg, s, Apply(cfg, s, e));
  }

  lemma ReceiveStepInv<T>(cfg: Config, s: State<T>, e: Event<T>)
    requires Inv(cfg, s) && Enabled(cfg, s, e) && (e.Handoff? || e.Receive?)
    ensures Inv(cfg, Apply(cfg, s, e))
  {
    var s' := Apply(cfg, s, e);
    var n := |s.receivers|;
    if e.Handoff? {
      assert s.accepted[..n] == s.accepted;
      assert s'.accepted[..n + 1] == s.accepted + [s.waiting[e.p]];
      TakeOk(cfg, s, s', e.c, s.waiting[e.p]);
    } else {
      assert s'.accepted[..n + 1] == s.accepted[..n] + [s.queue[0]];
      TakeOk(cfg, s, s', e.c, s.queue[0]);
    }
  }

  lemma EndFlushStream<T>(k: Consumer<T>)
    ensures Stream(EndFlush(k)) == Stream(k)
  {
    FlatSnoc(k.flushes, k.batch);
  }

  lemma StaysWellSized<T>(cfg: Config, k: Consumer<T>, over: bool)
    requires WellSized(cfg, k, over)
    ensures k.phase == Collecting ==> WellSized(cfg, Fire(k), over)
    ensures k.phase in {Flushing, Draining} ==> WellSized(cfg, EndFlush(k), over)
    ensures k.phase == Collecting && over ==> WellSized(cfg, SeeClosed(k), over)
  {
  }

  lemma ConsumerStepOk<T>(cfg: Config, s: State<T>, e: Event<T>)
    requires Enabled(cfg, s, e) && (e.Tick? || e.Flushed? || e.Hangup?)
    requires |s.receivers| <= |s.accepted| && ConsumerOk(cfg, s, e.c)
    ensures ConsumerOk(cfg, Apply(cfg, s, e), e.c)
  {
    var k, k' := s.consumers[e.c], Apply(cfg, s, e).consumers[e.c];
    StaysWellSized(cfg, k, s.closed && s.queue == []);
    assert Stream(k') == Stream(k) by {
      if e.Flushed? { EndFlushStream(k); }
    }
  }

  lemma ConsumerStepInv<T>(cfg: Config, s: State<T>, e: Event<T>)
    requires Inv(cfg, s) && Enabled(cfg, s, e) && (e.Tick? || e.Flushed? || e.Hangup?)
    ensures Inv(cfg, Apply(cfg, s, e))
  {
    ConsumerStepOk(cfg, s, e);
    UpdateOk(cfg, s, Apply(cfg, s, e), e.c, Apply(cfg, s, e).consumers[e.c]);
  }

  /** Every step keeps the invariant. */
  lemma StepInv<T>(cfg: Config, s: State<T>, e: Event<T>)
    requires Inv(cfg, s) && Enabled(cfg, s, e)
    ensures Inv(cfg, Apply(cfg, s, e))
  {
    if e.Handoff? || e.Receive? {
      ReceiveStepInv(cfg, s, e);
    } else if e.Tick? || e.Flushed? || e.Hangup? {
      ConsumerStepInv(cfg, s, e);
    } else {
      OutsideStepInv(cfg, s, e);
    }
  }

  lemma {:induction false} RunInv<T>(cfg: Config, s: State<T>, es: seq<Event<T>>)
    requires Inv(cfg, s) && Legal(cfg, s, es)
    ensures Inv(cfg, After(cfg, s, es))
    decreases |es|
  {
    if es == [] {
    } else {
      StepInv(cfg, s, es[0]);
      RunInv(cfg, Apply(cfg, s, es[0]), es[1..]);
    }
  }

  // ---------- Conservation ----------

  /** What the consumers hold in their batches. */
  function Pending<T>(ks: seq<Consumer<T>>): multiset<T>
  {
    if ks == [] then multiset{} else Pending(ks[..|ks| - 1]) + multiset(ks[|ks| - 1].batch)
  }

  /** What the consumers have flushed. */
  function AllFlushed<T>(ks: seq<Consumer<T>>): multiset<T>
  {
    if ks == [] then multiset{} else AllFlushed(ks[..|ks| - 1]) + multiset(Flat(ks[|ks| - 1].flushes))
  }

  function Sum<T>(bags: seq<multiset<T>>): multiset<T>
  {
    if bags == [] then multiset{} else Sum(bags[..|bags| - 1]) + bags[|bags| - 1]
  }

  lemma Regroup<T>(a: multiset<T>, b: multiset<T>, c: multiset<T>)
    ensures (a + c) + b == (a + b) + c
    ensures a + (b + c) == (a + b) + c
  {
  }

  lemma {:induction false} SumUpdate<T>(bags: seq<multiset<T>>, c: nat, x: T)
    requires c < |bags|
    ensures Sum(bags[c := bags[c] + multiset{x}]) == Sum(bags) + multiset{x}
    decreases |bags|
  {
    var n := |bags| - 1;
    if c == n {
      assert bags[c := bags[c] + multiset{x}][..n] == bags[..n];
      Regroup(Sum(bags[..n]), bags[n], multiset{x});
    } else {
      assert bags[c := bags[c] + multiset{x}][..n] == bags[..n][c := bags[c] + multiset{x}];
      SumUpdate(bags[..n], c, x);
      Regroup(Sum(bags[..n]), bags[n], multiset{x});
    }
  }

  lemma {:induction false} SumOfNothing<T>(bags: seq<multiset<T>>)
    requires forall c :: 0 <= c < |bags| ==> bags[c] == multiset{}
    ensures Sum(bags) == multiset{}
  {
    if bags == [] {
    } else {
      SumOfNothing(bags[..|bags| - 1]);
    }
  }

  /** What each of the n consumers has received. */
  function Shares<T>(xs: seq<T>, who: seq<nat>, n: nat): seq<multiset<T>>
    requires |who| == |xs|
  {
    seq(n, c requires 0 <= c < n => multiset(Received(xs, who, c)))
  }

  lemma SharesSnoc<T>(xs: seq<T>, who: seq<nat>, x: T, r: nat, n: nat)
    requires |who| == |xs| && r < n
    ensures Shares(xs + [x], who + [r], n) == Shares(xs, who, n)[r := Shares(xs, who, n)[r] + multiset{x}]
  {
    forall c | 0 <= c < n
      ensures multiset(Received(xs + [x], who + [r], c))
           == if c == r then multiset(Received(xs, who, c)) + multiset{x} else multiset(Received(xs, who, c))
    {
      ReceivedSnoc(xs, who, x, r, c);
      assert Received(xs, who, c) + [] == Received(xs, who, c);
    }
  }

  /** Splitting a sequence by receiver loses and adds nothing. */
  lemma {:induction false} SplitConserves<T>(xs: seq<T>, who: seq<nat>, n: nat)
    requires |who| == |xs| && forall i :: 0 <= i < |who| ==> who[i] < n
    ensures Sum(Shares(xs, who, n)) == multiset(xs)
    decreases |xs|
  {
    if xs == [] {
      SumOfNothing(Shares(xs, who, n));
    } else {
      var m := |xs| - 1;
      assert xs == xs[..m] + [xs[m]] && who == who[..m] + [who[m]];
      SplitConserves(xs[..m], who[..m], n);
      SharesSnoc(xs[..m], who[..m], xs[m], who[m], n);
      SumUpdate(Shares(xs[..m], who[..m], n), who[m], xs[m]);
    }
  }

  lemma Interleave<T>(a: multiset<T>, b: multiset<T>, c: multiset<T>, d: multiset<T>)
    ensures (a + c) + (b + d) == (a + b) + (c + d)
  {
  }

  /** Pending or flushed is received. */
  lemma {:induction false} StreamsAddUp<T>(ks: seq<Consumer<T>>, bags: seq<multiset<T>>)
    requires |bags| == |ks| && forall c :: 0 <= c < |ks| ==> bags[c] == multiset(Stream(ks[c]))
    ensures Pending(ks) + AllFlushed(ks) == Sum(bags)
    decreases |ks|
  {
    if ks == [] {
    } else {
      var n := |ks| - 1;
      StreamsAddUp(ks[..n], bags[..n]);
      Interleave(Pending(ks[..n]), AllFlushed(ks[..n]), multiset(ks[n].batch), multiset(Flat(ks[n].flushes)));
    }
  }

  /** In every reachable state the accepted items are, as a multiset, exactly those queued,
      those pending in a consumer's batch, and those flushed. */
  lemma {:induction false} Conservation<T>(cfg: Config, es: seq<Event<T>>)
    requires Legal(cfg, Init<T>(cfg), es)
    ensures var s := After(cfg, Init<T>(cfg), es);
            multiset(s.accepted) == multiset(s.queue) + Pending(s.consumers) + AllFlushed(s.consumers)
  {
    InitInv<T>(cfg);
    RunInv(cfg, Init<T>(cfg), es);
    InvConserves(cfg, After(cfg, Init<T>(cfg), es));
  }

  lemma {:induction false} InvConserves<T>(cfg: Config, s: State<T>)
    requires Inv(cfg, s)
    ensures multiset(s.accepted) == multiset(s.queue) + Pending(s.consumers) + AllFlushed(s.consumers)
  {
    var n := |s.receivers|;
    ReceivedConserves(cfg, s);
    assert s.accepted == s.accepted[..n] + s.queue;
    AddQueue(multiset(s.accepted[..n]), multiset(s.queue), Pending(s.consumers), AllFlushed(s.consumers));
  }

  lemma AddQueue<T>(received: multiset<T>, queued: multiset<T>, pending: multiset<T>, flushed: multiset<T>)
    requires pending + flushed == received
    ensures received + queued == queued + pending + flushed
  {
  }

  lemma {:induction false} ReceivedConserves<T>(cfg: Config, s: State<T>)
    requires Inv(cfg, s)
    ensures Pending(s.consumers) + AllFlushed(s.consumers) == multiset(s.accepted[..|s.receivers|])
  {
    var xs := s.accepted[..|s.receivers|];
    var bags := Shares(xs, s.receivers, |s.consumers|);
    forall c | 0 <= c < |s.consumers| ensures bags[c] == multiset(Stream(s.consumers[c])) {
      assert ConsumerOk(cfg, s, c);
    }
    StreamsAddUp(s.consumers, bags);
    SplitConserves(xs, s.receivers, |s.consumers|);
  }

  // ---------- After Close has returned ----------

  lemma {:induction false} NothingPending<T>(ks: seq<Consumer<T>>)
    requires forall c :: 0 <= c < |ks| ==> ks[c].batch == []
    ensures Pending(ks) == multiset{}
  {
    if ks == [] {
    } else {
      NothingPending(ks[..|ks| - 1]);
    }
  }

  /** When Close returns, every accepted item has been flushed. */
  lemma CloseFlushesAll<T>(cfg: Config, es: seq<Event<T>>)
    requires Legal(cfg, Init<T>(cfg), es) && After(cfg, Init<T>(cfg), es).returned
    ensures var s := After(cfg, Init<T>(cfg), es); multiset(s.accepted) == AllFlushed(s.consumers)
  {
    var s := After(cfg, Init<T>(cfg), es);
    InitInv<T>(cfg);
    RunInv(cfg, Init<T>(cfg), es);
    Conservation(cfg, es);
    assert ConsumerOk(cfg, s, 0);
    forall c | 0 <= c < |s.consumers| ensures s.consumers[c].batch == [] {
      assert ConsumerOk(cfg, s, c);
    }
    NothingPending(s.consumers);
  }

  /** And nothing is accepted or flushed any more, whatever is called later. */
  lemma {:induction false} NothingAfterClose<T>(cfg: Config, s: State<T>, es: seq<Event<T>>)
    requires Inv(cfg, s) && s.returned && Legal(cfg, s, es)
    ensures After(cfg, s, es) == s
    decreases |es|
  {
    if es == [] {
    } else {
      assert ConsumerOk(cfg, s, 0);
      assert Apply(cfg, s, es[0]) == s;
      NothingAfterClose(cfg, s, es[1..]);
    }
  }

  // ---------- Order and batch sizes ----------

  /** `sub` occurs in `xs` in order, at the strictly increasing positions `at`. */
  ghost predicate PickedAt<T>(sub: seq<T>, xs: seq<T>, at: seq<nat>)
  {
    && |at| == |sub|
    && (forall i :: 0 <= i < |at| ==> at[i] < |xs| && xs[at[i]] == sub[i])
    && (forall i, j :: 0 <= i < j < |at| ==> at[i] < at[j])
  }

  lemma PickedSnoc<T>(sub: seq<T>, xs: seq<T>, at: seq<nat>, x: T)
    requires PickedAt(sub, xs, at)
    ensures PickedAt(sub, xs + [x], at)
    ensures PickedAt(sub + [x], xs + [x], at + [|xs|])
  {
  }

  lemma {:induction false} ReceivedPicked<T>(xs: seq<T>, who: seq<nat>, c: nat) returns (at: seq<nat>)
    requires |who| == |xs|
    ensures PickedAt(Received(xs, who, c), xs, at)
    decreases |xs|
  {
    if xs == [] {
      at := [];
    } else {
      var m := |xs| - 1;
      var front := ReceivedPicked(xs[..m], who[..m], c);
      PickedSnoc(Received(xs[..m], who[..m], c), xs[..m], front, xs[m]);
      assert xs == xs[..m] + [xs[m]];
      at := if who[m] == c then front + [m] else front;
    }
  }

  /** In every reachable state each flush of each consumer holds between one and
      max(1, batchSize) items, and its flushes, one after the other, list accepted items in
      the order of acceptance. */
  lemma {:induction false} FlushesInOrder<T>(cfg: Config, es: seq<Event<T>>, c: nat) returns (at: seq<nat>)
    requires Legal(cfg, Init<T>(cfg), es) && c < ConsumerCount(cfg)
    ensures var s := After(cfg, Init<T>(cfg), es);
            && c < |s.consumers|
            && PickedAt(Flat(s.consumers[c].flushes), s.accepted, at)
            && forall f :: f in s.consumers[c].flushes ==> 1 <= |f| <= Limit(cfg)
  {
    var s := After(cfg, Init<T>(cfg), es);
    InitInv<T>(cfg);
    RunInv(cfg, Init<T>(cfg), es);
    assert ConsumerOk(cfg, s, c);
    var n := |s.receivers|;
    at := ReceivedPicked(s.accepted[..n], s.receivers, c);
    var flat := Flat(s.consumers[c].flushes);
    assert Stream(s.consumers[c])[..|flat|] == flat;
    at := at[..|flat|];
  }

  lemma {:induction false} SoleReceiver<T>(xs: seq<T>, who: seq<nat>)
    requires |who| == |xs| && forall i :: 0 <= i < |who| ==> who[i] == 0
    ensures Received(xs, who, 0) == xs
    decreases |xs|
  {
    if xs == [] {
    } else {
      var m := |xs| - 1;
      SoleReceiver(xs[..m], who[..m]);
      assert xs == xs[..m] + [xs[m]];
    }
  }

  /** With one consumer nothing is reordered: flushed, then pending, then queued is the order
      of acceptance. */
  lemma SingleConsumerKeepsOrder<T>(cfg: Config, es: seq<Event<T>>)
    requires Legal(cfg, Init<T>(cfg), es) && ConsumerCount(cfg) == 1
    ensures var s := After(cfg, Init<T>(cfg), es);
            |s.consumers| == 1 && Flat(s.consumers[0].flushes) + s.consumers[0].batch + s.queue == s.accepted
  {
    var s := After(cfg, Init<T>(cfg), es);
    InitInv<T>(cfg);
    RunInv(cfg, Init<T>(cfg), es);
    assert ConsumerOk(cfg, s, 0);
    SoleReceiver(s.accepted[..|s.receivers|], s.receivers);
  }

  // ---------- Close returns ----------

  function Weight<T>(k: Consumer<T>): nat
  {
    match k.phase
    case Collecting => if k.batch == [] then 1 else 3
    case Flushing => 2
    case Draining => 1
    case Done => 0
  }

  function Weights<T>(ks: seq<Consumer<T>>): nat
  {
    if ks == [] then 0 else Weights(ks[..|ks| - 1]) + Weight(ks[|ks| - 1])
  }

  /** How much is left to do until Close returns. */
  function Left<T>(s: State<T>): nat
  {
    4 * |s.waiting| + 3 * |s.queue| + Weights(s.consumers)
    + (if s.closed then 0 else 1) + (if s.returned then 0 else 1)
  }

  lemma {:induction false} WeightsUpdate<T>(ks: seq<Consumer<T>>, c: nat, k: Consumer<T>)
    requires c < |ks|
    ensures Weights(ks[c := k]) == Weights(ks) - Weight(ks[c]) + Weight(k)
    decreases |ks|
  {
    var n := |ks| - 1;
    if c < n {
      WeightsUpdate(ks[..n], c, k);
      assert ks[c := k][..n] == ks[..n][c := k];
    } else {
      assert ks[c := k][..n] == ks[..n];
    }
  }

  lemma CollectingWeights<T>(cfg: Config, k: Consumer<T>, item: T)
    requires k.phase == Collecting
    ensures Weight(Take(cfg, k, item)) <= Weight(k) + 2
    ensures Weight(SeeClosed(k)) < Weight(k)
    ensures Fire(k) == k || Weight(Fire(k)) < Weight(k)
  {
  }

  lemma FlushingWeights<T>(k: Consumer<T>)
    requires k.phase in {Flushing, Draining}
    ensures Weight(EndFlush(k)) < Weight(k)
  {
  }

  /** A consumer's step lowers its weight, if it changes anything. */
  lemma ConsumerTowardsReturn<T>(cfg: Config, s: State<T>, e: Event<T>)
    requires Enabled(cfg, s, e) && (e.Tick? || e.Flushed? || e.Hangup?)
    ensures Apply(cfg, s, e) == s || Left(Apply(cfg, s, e)) < Left(s)
  {
    var k := s.consumers[e.c];
    WeightsUpdate(s.consumers, e.c, Apply(cfg, s, e).consumers[e.c]);
    match e
    case Tick(c) => if Fire(k) == k { assert s.consumers[c := k] == s.consumers; }
    case Flushed(_) => FlushingWeights(k);
    case _ =>
  }

  /** Once Close is called, every step that changes anything brings its return closer. */
  lemma StepTowardsReturn<T>(cfg: Config, s: State<T>, e: Event<T>)
    requires Inv(cfg, s) && s.closing && Enabled(cfg, s, e)
    ensures Apply(cfg, s, e) == s || Left(Apply(cfg, s, e)) < Left(s)
  {
    var s' := Apply(cfg, s, e);
    match e
    case Handoff(p, c) =>
      WeightsUpdate(s.consumers, c, s'.consumers[c]);
      CollectingWeights(cfg, s.consumers[c], s.waiting[p]);
    case Receive(c) =>
      WeightsUpdate(s.consumers, c, s'.consumers[c]);
      CollectingWeights(cfg, s.consumers[c], s.queue[0]);
    case Tick(_) => ConsumerTowardsReturn(cfg, s, e);
    case Flushed(_) => ConsumerTowardsReturn(cfg, s, e);
    case Hangup(_) => ConsumerTowardsReturn(cfg, s, e);
    case _ =>
  }

  /** And until it returns, such a step is possible: Close is never stuck. */
  lemma CloseProgress<T>(cfg: Config, s: State<T>) returns (e: Event<T>)
    requires Inv(cfg, s) && s.closing && !s.returned
    ensures Enabled(cfg, s, e) && Apply(cfg, s, e) != s
  {
    if c :| 0 <= c < |s.consumers| && s.consumers[c].phase in {Flushing, Draining} {
      e := Flushed(c);
    } else if forall c :: 0 <= c < |s.consumers| ==> s.consumers[c].phase == Done {
      assert ConsumerOk(cfg, s, 0);
      e := CloseReturns;
    } else {
      var c :| 0 <= c < |s.consumers| && s.consumers[c].phase == Collecting;
      if s.queue != [] {
        e := Receive(c);
      } else if s.waiting == [] {
        e := if s.closed then Hangup(c) else CloseChannel;
      } else {
        e := if cfg.capacity == 0 then Handoff(0, c) else Send(0);
      }
    }
  }

  /** Every step of the run changes the state. */
  ghost predicate Changing<T>(cfg: Config, s: State<T>, es: seq<Event<T>>)
    requires Legal(cfg, s, es)
    decreases |es|
  {
    es == [] || (Apply(cfg, s, es[0]) != s && Changing(cfg, Apply(cfg, s, es[0]), es[1..]))
  }

  /** So Close returns under every schedule: a run that keeps changing the state is at most
      `Left` steps long, and where it cannot go on, Close has returned. */
  lemma {:induction false} EveryScheduleReturns<T>(cfg: Config, s: State<T>, es: seq<Event<T>>)
    requires Inv(cfg, s) && s.closing && Legal(cfg, s, es) && Changing(cfg, s, es)
    ensures |es| <= Left(s)
    ensures var end := After(cfg, s, es);
            end.returned || exists e :: Enabled(cfg, end, e) && Apply(cfg, end, e) != end
    decreases |es|
  {
    if es == [] {
      if !s.returned { var e := CloseProgress(cfg, s); }
    } else {
      StepInv(cfg, s, es[0]);
      StepTowardsReturn(cfg, s, es[0]);
      EveryScheduleReturns(cfg, Apply(cfg, s, es[0]), es[1..]);
    }
  }

  // ---------- The consumer loop itself ----------

  /** What one turn of the select yields. */
  datatype Select<T> = Item(item: T) | Timer | Hungup

  /** One turn of the loop, flush included, in terms of the steps above. */
  function Turn<T>(cfg: Config, k: Consumer<T>, sel: Select<T>): Consumer<T>
  {
    var k' := match sel
              case Item(x) => Take(cfg, k, x)
              case Timer => Fire(k)
              case Hungup => SeeClosed(k);
    if k'.phase in {Flushing, Draining} then EndFlush(k') else k'
  }

  function Turns<T>(cfg: Config, sels: seq<Select<T>>): Consumer<T>
  {
    if sels == [] then Idle()
    else
      var k := Turns(cfg, sels[..|sels| - 1]);
      if k.phase == Done then k else Turn(cfg, k, sels[|sels| - 1])
  }

  /** The loop of one consumer goroutine, over what its selects yield. */
  method Process<T>(cfg: Config, sels: seq<Select<T>>) returns (flushes: seq<seq<T>>, batch: seq<T>, done: bool)
    ensures Turns(cfg, sels) == Consumer(if done then Done else Collecting, batch, flushes)
  {
    batch, flushes, done := [], [], false;
    var i := 0;
    while i < |sels| && !done
      invariant 0 <= i <= |sels|
      invariant Turns(cfg, sels[..i]) == Consumer(if done then Done else Collecting, batch, flushes)
      decreases |sels| - i
    {
      assert sels[..i + 1][..i] == sels[..i];
      match sels[i] {
        case Hungup =>
          if |batch| > 0 {
            flushes, batch := flushes + [batch], [];
          }
          done := true;
        case Item(x) =>
          batch := batch + [x];
          if |batch| >= cfg.batchSize {
            flushes, batch := flushes + [batch], [];
          }
        case Timer =>
          if |batch| > 0 {
            flushes, batch := flushes + [batch], [];
          }
      }
      i := i + 1;
    }
    if done { DoneStays(cfg, sels, i); } else { assert sels[..i] == sels; }
  }

  lemma {:induction false} DoneStays<T>(cfg: Config, sels: seq<Select<T>>, i: nat)
    requires i <= |sels| && Turns(cfg, sels[..i]).phase == Done
    ensures Turns(cfg, sels) == Turns(cfg, sels[..i])
    decreases |sels|
  {
    if i == |sels| {
      assert sels[..i] == sels;
    } else {
      assert sels[..|sels| - 1][..i] == sels[..i];
      DoneStays(cfg, sels[..|sels| - 1], i);
    }
  }

  ghost predicate SeenClosed<T>(sels: seq<Select<T>>)
  {
    exists i :: 0 <= i < |sels| && sels[i].Hungup?
  }

  /** The items received before the channel was seen closed. */
  ghost function Items<T>(sels: seq<Select<T>>): seq<T>
  {
    if sels == [] then []
    else
      var front, last := sels[..|sels| - 1], sels[|sels| - 1];
      Items(front) + (if last.Item? && !SeenClosed(front) then [last.item] else [])
  }

  /** The loop flushes or still holds exactly the items it received, in order and in batches
      of the allowed size; it ends when it sees the channel closed, and then holds nothing. */
  lemma {:induction false} TurnsKeepAll<T>(cfg: Config, sels: seq<Select<T>>)
    ensures var k := Turns(cfg, sels);
            && Stream(k) == Items(sels)
            && k.phase == (if SeenClosed(sels) then Done else Collecting)
            && WellSized(cfg, k, SeenClosed(sels))
    decreases |sels|
  {
    if sels == [] {
    } else {
      var front, last := sels[..|sels| - 1], sels[|sels| - 1];
      TurnsKeepAll(cfg, front);
      var k := Turns(cfg, front);
      assert SeenClosed(sels) <==> SeenClosed(front) || last.Hungup? by {
        if i :| 0 <= i < |front| && front[i].Hungup? { assert sels[i].Hungup?; }
        if last.Hungup? { assert sels[|sels| - 1].Hungup?; }
      }
      if k.phase != Done { TurnKeepsAll(cfg, k, last); }
    }
  }

  lemma TurnKeepsAll<T>(cfg: Config, k: Consumer<T>, sel: Select<T>)
    requires k.phase == Collecting && WellSized(cfg, k, false)
    ensures Stream(Turn(cfg, k, sel)) == Stream(k) + (if sel.Item? then [sel.item] else [])
    ensures Turn(cfg, k, sel).phase == (if sel.Hungup? then Done else Collecting)
    ensures WellSized(cfg, Turn(cfg, k, sel), sel.Hungup?)
  {
    TurnStream(cfg, k, sel);
    TurnSized(cfg, k, sel);
  }

  lemma TurnStream<T>(cfg: Config, k: Consumer<T>, sel: Select<T>)
    ensures Stream(Turn(cfg, k, sel)) == Stream(k) + (if sel.Item? then [sel.item] else [])
  {
    match sel
    case Item(x) =>
      TakeStream(cfg, k, x);
      EndFlushStream(Take(cfg, k, x));
    case Timer =>
      EndFlushStream(Fire(k));
    case Hungup =>
      EndFlushStream(SeeClosed(k));
  }

  lemma TurnSized<T>(cfg: Config, k: Consumer<T>, sel: Select<T>)
    requires k.phase == Collecting && WellSized(cfg, k, false)
    ensures Turn(cfg, k, sel).phase == (if sel.Hungup? then Done else Collecting)
    ensures WellSized(cfg, Turn(cfg, k, sel), sel.Hungup?)
  {
    match sel
    case Item(x) => StaysWellSized(cfg, Take(cfg, k, x), false);
    case Timer => StaysWellSized(cfg, Fire(k), false);
    case Hungup => StaysWellSized(cfg, SeeClosed(k), true);
  }

  // ---------- When the loop flushes ----------

  ghost function ItemsIn<T>(sels: seq<Select<T>>): seq<T>
  {
    if sels == [] then []
    else ItemsIn(sels[..|sels| - 1]) + (if sels[|sels| - 1].Item? then [sels[|sels| - 1].item] else [])
  }

  /** What the loop gets to see: it ends when it sees the channel closed. */
  ghost function Heard<T>(sels: seq<Select<T>>): seq<Select<T>>
  {
    if sels == [] then []
    else if SeenClosed(sels[..|sels| - 1]) then Heard(sels[..|sels| - 1])
    else sels
  }

  /** A stretch of selects ends in a cut: with the timer, with the closed channel, or with the
      item that makes the batch full. */
  ghost predicate Cut<T>(cfg: Config, st: seq<Select<T>>)
  {
    && st != []
    && var last := st[|st| - 1];
       last.Timer? || last.Hungup? || |ItemsIn(st)| == Limit(cfg)
  }

  ghost predicate NoCutWithin<T>(cfg: Config, st: seq<Select<T>>)
  {
    forall n :: 0 < n < |st| ==> !Cut(cfg, st[..n])
  }

  /** The items of the stretches that have any, in order. */
  ghost function Batches<T>(ss: seq<seq<Select<T>>>): seq<seq<T>>
  {
    if ss == [] then []
    else
      var items := ItemsIn(ss[|ss| - 1]);
      Batches(ss[..|ss| - 1]) + (if items == [] then [] else [items])
  }

  /** `ss` are the stretches of `sels` up to each cut, and `open` is what came since. */
  ghost predicate Stretches<T>(cfg: Config, sels: seq<Select<T>>, ss: seq<seq<Select<T>>>, open: seq<Select<T>>)
  {
    && Flat(ss) + open == sels
    && (forall i :: 0 <= i < |ss| ==> Cut(cfg, ss[i]) && NoCutWithin(cfg, ss[i]))
    && !Cut(cfg, open) && NoCutWithin(cfg, open)
  }

  lemma ItemsInSnoc<T>(st: seq<Select<T>>, sel: Select<T>)
    ensures ItemsIn(st + [sel]) == ItemsIn(st) + (if sel.Item? then [sel.item] else [])
  {
    assert (st + [sel])[..|st|] == st;
  }

  lemma BatchesSnoc<T>(ss: seq<seq<Select<T>>>, st: seq<Select<T>>)
    ensures Batches(ss + [st]) == Batches(ss) + (if ItemsIn(st) == [] then [] else [ItemsIn(st)])
  {
    assert (ss + [st])[..|ss|] == ss;
  }

  lemma NoCutSnoc<T>(cfg: Config, open: seq<Select<T>>, sel: Select<T>)
    requires !Cut(cfg, open) && NoCutWithin(cfg, open)
    ensures NoCutWithin(cfg, open + [sel])
  {
    forall n | 0 < n < |open + [sel]| ensures !Cut(cfg, (open + [sel])[..n]) {
      assert (open + [sel])[..n] == open[..n];
      assert n == |open| ==> open[..n] == open;
    }
  }

  lemma CutsSnoc<T>(cfg: Config, ss: seq<seq<Select<T>>>, st: seq<Select<T>>)
    requires forall i :: 0 <= i < |ss| ==> Cut(cfg, ss[i]) && NoCutWithin(cfg, ss[i])
    requires Cut(cfg, st) && NoCutWithin(cfg, st)
    ensures forall i :: 0 <= i < |ss + [st]| ==> Cut(cfg, (ss + [st])[i]) && NoCutWithin(cfg, (ss + [st])[i])
  {
  }

  /** One more select ends the open stretch ... */
  lemma StretchEnds<T>(cfg: Config, sels: seq<Select<T>>, ss: seq<seq<Select<T>>>, open: seq<Select<T>>, sel: Select<T>)
    requires Stretches(cfg, sels, ss, open) && Cut(cfg, open + [sel])
    ensures Stretches(cfg, sels + [sel], ss + [open + [sel]], [])
  {
    NoCutSnoc(cfg, open, sel);
    CutsSnoc(cfg, ss, open + [sel]);
    FlatSnoc(ss, open + [sel]);
    ConcatAssociative(Flat(ss), open, [sel]);
    assert Flat(ss + [open + [sel]]) + [] == Flat(ss + [open + [sel]]);
  }

  /** ... or stays in it. */
  lemma StretchGoesOn<T>(cfg: Config, sels: seq<Select<T>>, ss: seq<seq<Select<T>>>, open: seq<Select<T>>,
                         sel: Select<T>)
    requires Stretches(cfg, sels, ss, open) && !Cut(cfg, open + [sel])
    ensures Stretches(cfg, sels + [sel], ss, open + [sel])
  {
    NoCutSnoc(cfg, open, sel);
    ConcatAssociative(Flat(ss), open, [sel]);
  }

  /** A turn that cuts flushes the items there are, if any, and one that does not keeps them. */
  lemma TurnCuts<T>(cfg: Config, k: Consumer<T>, open: seq<Select<T>>, sel: Select<T>)
    requires k.phase == Collecting && k.batch == ItemsIn(open) && |k.batch| < Limit(cfg)
    ensures var items := ItemsIn(open + [sel]);
            var flushed := if items == [] then k.flushes else k.flushes + [items];
            var k' := Turn(cfg, k, sel);
            (k'.batch, k'.flushes) == if Cut(cfg, open + [sel]) then ([], flushed) else (items, k.flushes)
  {
    ItemsInSnoc(open, sel);
    assert (open + [sel])[|open|] == sel;
    match sel
    case Item(x) => assert |k.batch + [x]| >= cfg.batchSize <==> |k.batch + [x]| == Limit(cfg);
    case Timer => assert k.batch + [] == k.batch;
    case Hungup => assert k.batch + [] == k.batch;
  }

  /** Consumer `k` has flushed the items of the stretches `ss` up to each cut of what it heard,
      where there were any, and holds those that came since. */
  ghost predicate FlushedAtCuts<T>(cfg: Config, heard: seq<Select<T>>, k: Consumer<T>,
                                   ss: seq<seq<Select<T>>>, open: seq<Select<T>>)
  {
    Stretches(cfg, heard, ss, open) && k.flushes == Batches(ss) && k.batch == ItemsIn(open)
  }

  lemma OneMoreSelect<T>(cfg: Config, k: Consumer<T>, sels: seq<Select<T>>, sel: Select<T>,
                         ss: seq<seq<Select<T>>>, open: seq<Select<T>>)
    returns (ss': seq<seq<Select<T>>>, open': seq<Select<T>>)
    requires FlushedAtCuts(cfg, sels, k, ss, open) && k.phase == Collecting && |k.batch| < Limit(cfg)
    ensures FlushedAtCuts(cfg, sels + [sel], Turn(cfg, k, sel), ss', open')
  {
    TurnCuts(cfg, k, open, sel);
    if Cut(cfg, open + [sel]) {
      StretchEnds(cfg, sels, ss, open, sel);
      BatchesSnoc(ss, open + [sel]);
      ss', open' := ss + [open + [sel]], [];
    } else {
      StretchGoesOn(cfg, sels, ss, open, sel);
      ss', open' := ss, open + [sel];
    }
  }

  lemma TurnsSnoc<T>(cfg: Config, sels: seq<Select<T>>, sel: Select<T>)
    requires Turns(cfg, sels).phase != Done
    ensures Turns(cfg, sels + [sel]) == Turn(cfg, Turns(cfg, sels), sel)
  {
    assert (sels + [sel])[..|sels|] == sels;
  }

  /** A consumer that has not seen the channel closed goes on with its next turn. */
  lemma NextTurn<T>(cfg: Config, front: seq<Select<T>>, last: Select<T>)
    requires !SeenClosed(front)
    ensures var k := Turns(cfg, front); k.phase == Collecting && |k.batch| < Limit(cfg)
    ensures Turns(cfg, front + [last]) == Turn(cfg, Turns(cfg, front), last)
    ensures Heard(front) == front && Heard(front + [last]) == front + [last]
  {
    TurnsKeepAll(cfg, front);
    TurnsSnoc(cfg, front, last);
    HeardAll(front);
    assert (front + [last])[..|front|] == front;
  }

  lemma NoMoreTurns<T>(cfg: Config, front: seq<Select<T>>, last: Select<T>)
    requires SeenClosed(front)
    ensures Turns(cfg, front + [last]) == Turns(cfg, front) && Heard(front + [last]) == Heard(front)
  {
    TurnsKeepAll(cfg, front);
    assert (front + [last])[..|front|] == front;
  }

  /** From what its selects yield, for every configuration: the loop flushes exactly where the
      timer fires, where the channel is seen closed and where the batch gets full, each time the
      items received since the last such cut, if any; it holds the items received since. */
  lemma {:induction false} FlushesAtCuts<T>(cfg: Config, sels: seq<Select<T>>)
    returns (ss: seq<seq<Select<T>>>, open: seq<Select<T>>)
    ensures FlushedAtCuts(cfg, Heard(sels), Turns(cfg, sels), ss, open)
    decreases |sels|
  {
    if sels == [] {
      ss, open := [], [];
    } else {
      var front, last := sels[..|sels| - 1], sels[|sels| - 1];
      assert sels == front + [last];
      ss, open := FlushesAtCuts(cfg, front);
      if SeenClosed(front) {
        NoMoreTurns(cfg, front, last);
      } else {
        NextTurn(cfg, front, last);
        ss, open := OneMoreSelect(cfg, Turns(cfg, front), front, last, ss, open);
      }
    }
  }

  lemma HeardAll<T>(sels: seq<Select<T>>)
    requires !SeenClosed(sels)
    ensures Heard(sels) == sels
  {
    if sels != [] {
      var front := sels[..|sels| - 1];
      forall i | 0 <= i < |front| ensures !front[i].Hungup? { assert !sels[i].Hungup?; }
    }
  }

  // ---------- The same in every interleaving ----------

  /** What a step yields to the select of consumer `c`. */
  function SelectOf<T>(cfg: Config, s: State<T>, e: Event<T>, c: nat): seq<Select<T>>
    requires Enabled(cfg, s, e)
  {
    match e
    case Handoff(p, d) => if d == c then [Item(s.waiting[p])] else []
    case Receive(d) => if d == c then [Item(s.queue[0])] else []
    case Tick(d) => if d == c then [Timer] else []
    case Hangup(d) => if d == c then [Hungup] else []
    case _ => []
  }

  function SelectsOf<T>(cfg: Config, s: State<T>, es: seq<Event<T>>, c: nat): seq<Select<T>>
    requires Legal(cfg, s, es)
    decreases |es|
  {
    if es == [] then []
    else SelectOf(cfg, s, es[0], c) + SelectsOf(cfg, Apply(cfg, s, es[0]), es[1..], c)
  }

  /** A consumer once the flush it is in, if any, is over. */
  function Settled<T>(k: Consumer<T>): Consumer<T>
  {
    if k.phase in {Flushing, Draining} then EndFlush(k) else k
  }

  /** A step either yields consumer `c` nothing and leaves what it comes to, or is its turn. */
  lemma StepOfConsumer<T>(cfg: Config, s: State<T>, e: Event<T>, c: nat)
    requires Enabled(cfg, s, e) && c < |s.consumers|
    ensures var one, k, ks := SelectOf(cfg, s, e, c), s.consumers[c], Apply(cfg, s, e).consumers;
            && |ks| == |s.consumers|
            && if one == [] then Settled(ks[c]) == Settled(k)
               else k.phase == Collecting && |one| == 1 && Settled(ks[c]) == Turn(cfg, k, one[0])
  {
  }

  lemma StepRefines<T>(cfg: Config, s: State<T>, e: Event<T>, c: nat, sels: seq<Select<T>>)
    requires Enabled(cfg, s, e) && c < |s.consumers| && Settled(s.consumers[c]) == Turns(cfg, sels)
    ensures |Apply(cfg, s, e).consumers| == |s.consumers|
    ensures Settled(Apply(cfg, s, e).consumers[c]) == Turns(cfg, sels + SelectOf(cfg, s, e, c))
  {
    var one := SelectOf(cfg, s, e, c);
    StepOfConsumer(cfg, s, e, c);
    if one == [] {
      assert sels + one == sels;
    } else {
      assert one == [one[0]];
      TurnsSnoc(cfg, sels, one[0]);
    }
  }

  /** In every interleaving each consumer is what the loop makes of what its selects yield. */
  lemma {:induction false} ConsumerRefines<T>(cfg: Config, s: State<T>, es: seq<Event<T>>, c: nat, sels: seq<Select<T>>)
    requires Legal(cfg, s, es) && c < |s.consumers| && Settled(s.consumers[c]) == Turns(cfg, sels)
    ensures c < |After(cfg, s, es).consumers|
    ensures Settled(After(cfg, s, es).consumers[c]) == Turns(cfg, sels + SelectsOf(cfg, s, es, c))
    decreases |es|
  {
    if es == [] {
      assert sels + [] == sels;
    } else {
      var s1 := Apply(cfg, s, es[0]);
      StepRefines(cfg, s, es[0], c, sels);
      ConsumerRefines(cfg, s1, es[1..], c, sels + SelectOf(cfg, s, es[0], c));
      ConcatAssociative(sels, SelectOf(cfg, s, es[0], c), SelectsOf(cfg, s1, es[1..], c));
    }
  }

  /** So in every run of the whole, once a flush under way is over, a consumer has flushed
      exactly at the cuts of what it saw, and holds what came since. */
  lemma FlushesInEveryRun<T>(cfg: Config, es: seq<Event<T>>, c: nat)
    returns (ss: seq<seq<Select<T>>>, open: seq<Select<T>>)
    requires Legal(cfg, Init<T>(cfg), es) && c < ConsumerCount(cfg)
    ensures var ks := After(cfg, Init<T>(cfg), es).consumers;
            c < |ks| && FlushedAtCuts(cfg, Heard(SelectsOf(cfg, Init<T>(cfg), es, c)), Settled(ks[c]), ss, open)
  {
    ConsumerRefines(cfg, Init<T>(cfg), es, c, []);
    var sels := SelectsOf(cfg, Init<T>(cfg), es, c);
    assert [] + sels == sels;
    ss, open := FlushesAtCuts(cfg, sels);
  }

  /** As many consumers as configured run throughout, and at least one. */
  lemma {:induction false} ConsumersStay<T>(cfg: Config, s: State<T>, es: seq<Event<T>>)
    requires Legal(cfg, s, es)
    ensures |After(cfg, s, es).consumers| == |s.consumers|
    ensures |Init<T>(cfg).consumers| == if cfg.consumers < 1 then 1 else cfg.consumers
    decreases |es|
  {
    if es == [] {
    } else {
      ConsumersStay(cfg, Apply(cfg, s, es[0]), es[1..]);
    }
  }

  /** The timer of a consumer that holds items makes them its next flush. */
  lemma TickFlushes<T>(cfg: Config, s: State<T>, c: nat)
    requires Enabled(cfg, s, Tick(c)) && s.consumers[c].batch != []
    ensures var s1 := Apply(cfg, s, Tick(c));
            && Enabled(cfg, s1, Flushed(c))
            && Apply(cfg, s1, Flushed(c)).consumers[c]
               == Consumer(Collecting, [], s.consumers[c].flushes + [s.consumers[c].batch])
  {
  }

  // ---------- Every item a producer brings ----------

  ghost function Entered<T>(es: seq<Event<T>>): multiset<T>
  {
    if es == [] then multiset{}
    else (if es[0].Enter? then multiset{es[0].item} else multiset{}) + Entered(es[1..])
  }

  ghost function Dropped<T>(cfg: Config, s: State<T>, es: seq<Event<T>>): multiset<T>
    requires Legal(cfg, s, es)
    decreases |es|
  {
    if es == [] then multiset{}
    else (if es[0].Drop? then multiset{s.waiting[es[0].p]} else multiset{})
         + Dropped(cfg, Apply(cfg, s, es[0]), es[1..])
  }

  /** The items accepted or still waiting. */
  ghost function Held<T>(s: State<T>): multiset<T>
  {
    multiset(s.accepted) + multiset(s.waiting)
  }

  lemma Carry<T>(end: multiset<T>, dropped: multiset<T>, mid: multiset<T>, entered: multiset<T>,
                 drop: multiset<T>, start: multiset<T>, enter: multiset<T>)
    requires end + dropped == mid + entered && mid + drop == start + enter
    ensures end + (drop + dropped) == start + (enter + entered)
  {
    calc {
      end + (drop + dropped);
      (end + dropped) + drop;
      (mid + drop) + entered;
      start + (enter + entered);
    }
  }

  lemma WithoutOne<T>(xs: seq<T>, p: nat)
    requires p < |xs|
    ensures multiset(Without(xs, p)) + multiset{xs[p]} == multiset(xs)
  {
    assert xs == xs[..p] + [xs[p]] + xs[p + 1..];
  }

  lemma Moved<T>(accepted: seq<T>, waiting: seq<T>, p: nat)
    requires p < |waiting|
    ensures multiset(accepted + [waiting[p]]) + multiset(Without(waiting, p)) == multiset(accepted) + multiset(waiting)
    ensures multiset(accepted) + multiset(Without(waiting, p)) + multiset{waiting[p]}
         == multiset(accepted) + multiset(waiting)
  {
    WithoutOne(waiting, p);
  }

  lemma StepLedger<T>(cfg: Config, s: State<T>, e: Event<T>)
    requires Enabled(cfg, s, e)
    ensures var s' := Apply(cfg, s, e);
            Held(s') + (if e.Drop? then multiset{s.waiting[e.p]} else multiset{})
            == Held(s) + (if e.Enter? then multiset{e.item} else multiset{})
  {
    var s' := Apply(cfg, s, e);
    match e
    case Enter(item) => assert multiset(s.waiting + [item]) == multiset(s.waiting) + multiset{item};
    case Send(p) => Moved(s.accepted, s.waiting, p);
    case Drop(p) => Moved(s.accepted, s.waiting, p);
    case Handoff(p, _) => Moved(s.accepted, s.waiting, p);
    case _ => assert s'.accepted == s.accepted && s'.waiting == s.waiting;
  }

  /** Whenever the run drops an item, dropping is configured and the channel is full. */
  ghost predicate DropsWhenFull<T>(cfg: Config, s: State<T>, es: seq<Event<T>>)
    requires Legal(cfg, s, es)
    decreases |es|
  {
    es != [] ==>
      && (es[0].Drop? ==> cfg.drop && |s.queue| == cfg.capacity)
      && DropsWhenFull(cfg, Apply(cfg, s, es[0]), es[1..])
  }

  lemma {:induction false} NeverDropsWithRoom<T>(cfg: Config, s: State<T>, es: seq<Event<T>>)
    requires Inv(cfg, s) && Legal(cfg, s, es)
    ensures DropsWhenFull(cfg, s, es)
    decreases |es|
  {
    if es == [] {
    } else {
      StepInv(cfg, s, es[0]);
      NeverDropsWithRoom(cfg, Apply(cfg, s, es[0]), es[1..]);
    }
  }

  /** Every item that enters is accepted, still waiting, or dropped; and nothing is dropped
      unless dropping is configured. */
  lemma {:induction false} ProducerLedger<T>(cfg: Config, s: State<T>, es: seq<Event<T>>)
    requires Legal(cfg, s, es)
    ensures var s' := After(cfg, s, es);
            Held(s') + Dropped(cfg, s, es) == Held(s) + Entered(es)
    ensures !cfg.drop ==> Dropped(cfg, s, es) == multiset{}
    decreases |es|
  {
    if es == [] {
    } else {
      var s1, s' := Apply(cfg, s, es[0]), After(cfg, s, es);
      StepLedger(cfg, s, es[0]);
      ProducerLedger(cfg, s1, es[1..]);
      Carry(Held(s'), Dropped(cfg, s1, es[1..]), Held(s1), Entered(es[1..]),
            if es[0].Drop? then multiset{s.waiting[es[0].p]} else multiset{}, Held(s),
            if es[0].Enter? then multiset{es[0].item} else multiset{});
    }
  }
}

/** The buffer object: the channel, and the flag that Close sets under the write lock. */
module Buffer {

  /** What a call of Buffer comes to; `Blocks` means it waits, still holding the read lock. */
  datatype Sent = Buffered | Dropped | Closed | Blocks

  class Buffer<T> {
    const capacity: nat
    const drop: bool
    var queue: seq<T>
    var isClosed: bool
    ghost var accepted: seq<T>
    ghost var received: seq<T>

    /** Nothing is lost or reordered inside the channel, and it never holds more than fits. */
    ghost predicate Valid()
      reads this
    {
      accepted == received + queue && |queue| <= capacity
    }

    constructor (capacity: nat, drop: bool)
      ensures Valid() && this.capacity == capacity && this.drop == drop
      ensures queue == [] && !isClosed && accepted == []
    {
      this.capacity, this.drop := capacity, drop;
      queue, isClosed := [], false;
      accepted, received := [], [];
    }

    /** A closed buffer accepts nothing; a full one drops or blocks, as configured.  `waiting`
        says that a consumer already waits at the channel, which is then empty: it is handed
        the item, also by a channel without room of its own. */
    method Buffer(item: T, waiting: bool) returns (r: Sent)
      requires Valid() && (waiting ==> queue == [])
      modifies this
      ensures Valid() && isClosed == old(isClosed)
      ensures r == if isClosed then Closed
                   else if waiting || |old(queue)| < capacity then Buffered
                   else if drop then Dropped else Blocks
      ensures accepted == if r == Buffered then old(accepted) + [item] else old(accepted)
      ensures received == if r == Buffered && waiting then old(received) + [item] else old(received)
    {
      if isClosed {
        return Closed;
      }
      if waiting {
        accepted, received := accepted + [item], received + [item];
        return Buffered;
      }
      if |queue| < capacity {
        queue, accepted := queue + [item], accepted + [item];
        return Buffered;
      }
      return if drop then Dropped else Blocks;
    }

    /** A receive from the channel: the oldest item, nothing yet, or the end of it. */
    method Receive() returns (item: seq<T>, ok: bool)
      requires Valid()
      modifies this
      ensures Valid() && isClosed == old(isClosed) && accepted == old(accepted)
      ensures received == old(received) + item && |item| <= 1
      ensures item == [] <==> old(queue) == []
      ensures ok <==> old(queue) != [] || !isClosed
    {
      if queue == [] {
        return [], !isClosed;
      }
      item, ok := [queue[0]], true;
      queue, received := queue[1..], received + item;
    }

    /** Closing twice is closing once; what is queued stays for the consumers. */
    method Close()
      requires Valid()
      modifies this`isClosed
      ensures Valid() && isClosed
    {
      if !isClosed {
        isClosed := true;
      }
    }
  }
}
