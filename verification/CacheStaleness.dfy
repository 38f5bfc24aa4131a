/** Bounded staleness of the cache (pkg/cache/cache.go) over every interleaving.

    A write reads the clock and touches the store in two steps, and so does a read: Get looks
    up first and then reads the clock, GetMany, SWR and SWRWithFallback read the clock first.
    Entries may be evicted at any time.  Background refreshes are writes like any other.
    Restore is not part of this run.
  */
module CacheStaleness {
  import opened Common
  import opened CacheModel

  /** A write: its clock reading is `stamp`. */
  datatype Written<K, V> = Written(key: K, value: V, hit: CacheHit, stamp: int)

  datatype Reader<K, V> =
    | Found(key: K, entry: Entry<V>, at: nat)   // Get has its entry, not yet the time
    | Timed(key: K, now: int)                   // the others have the time, not yet the entry

  /** An answer from the cache: decided with the reading `now`, from the entry looked up after
      the first `at` writes, and served at the time `served`, after the first `writes`. */
  datatype Answered<K, V> =
    Answered(key: K, value: V, hit: CacheHit, now: int, at: nat, served: int, writes: nat)

  datatype State<K(==), V> = State(
    clock: int,
    store: Store<K, V>,
    writers: seq<Written<K, V>>,     // stamped, not yet in the store
    readers: seq<Reader<K, V>>,
    history: seq<Written<K, V>>,     // writes in the order they reached the store
    answers: seq<Answered<K, V>>)

  datatype Event<K(==), V> =
    | Tick(t: int)
    | Stamp(key: K, value: V, hit: CacheHit)
    | Commit(i: nat)
    | Evict(keys: set<K>)            // capacity, TTL, Remove, Clear
    | GetLook(key: K)
    | GetDecide(i: nat)
    | ReadClock(key: K)
    | LookDecide(i: nat)

  function EntryOf<K, V>(c: Config<V>, w: Written<K, V>): Entry<V>
  {
    Entry(w.value, w.hit, w.stamp + c.freshFor, w.stamp + c.staleFor)
  }

  /** The usual lifetime is `staleFor`; an entry configured fresh for longer is served longer. */
  function Lifetime<V>(c: Config<V>): int
  {
    if c.freshFor < c.staleFor then c.staleFor else c.freshFor
  }

  function Init<K, V>(t: int): State<K, V>
  {
    State(t, map[], [], [], [], [])
  }

  predicate Enabled<K, V>(s: State<K, V>, e: Event<K, V>)
  {
    match e
    case Tick(t) => t >= s.clock
    case Stamp(_, _, _) => true
    case Commit(i) => i < |s.writers|
    case Evict(_) => true
    case GetLook(key) => key in s.store
    case GetDecide(i) => i < |s.readers| && s.readers[i].Found?
    case ReadClock(_) => true
    case LookDecide(i) => i < |s.readers| && s.readers[i].Timed?
  }

  function Apply<K, V>(c: Config<V>, s: State<K, V>, e: Event<K, V>): State<K, V>
    requires Enabled(s, e)
  {
    match e
    case Tick(t) => s.(clock := t)
    case Stamp(key, value, hit) => s.(writers := s.writers + [Written(key, value, hit, s.clock)])
    case Commit(i) =>
      var w := s.writers[i];
      s.(writers := Without(s.writers, i), store := s.store[w.key := EntryOf(c, w)], history := s.history + [w])
    case Evict(keys) => s.(store := s.store - keys)
    case GetLook(key) => s.(readers := s.readers + [Found(key, s.store[key], |s.history|)])
    case GetDecide(i) =>
      var r := s.readers[i];
      var s1 := s.(readers := Without(s.readers, i));
      if s.clock < r.entry.staleUntil
      then
        var a := Answered(r.key, r.entry.value, r.entry.hit, s.clock, r.at, s.clock, |s.history|);
        s1.(answers := s.answers + [a])
      else s1.(store := s.store - {r.key})
    case ReadClock(key) => s.(readers := s.readers + [Timed(key, s.clock)])
    case LookDecide(i) =>
      var r := s.readers[i];
      var s1 := s.(readers := Without(s.readers, i));
      if r.key !in s.store then s1
      else
        var e := s.store[r.key];
        if r.now < e.freshUntil || r.now < e.staleUntil
        then s1.(answers := s.answers + [Answered(r.key, e.value, e.hit, r.now, |s.history|, s.clock, |s.history|)])
        else s1.(store := s.store - {r.key})
  }

  predicate Legal<K, V>(c: Config<V>, s: State<K, V>, es: seq<Event<K, V>>)
    decreases |es|
  {
    es == [] || (Enabled(s, es[0]) && Legal(c, Apply(c, s, es[0]), es[1..]))
  }

  function After<K, V>(c: Config<V>, s: State<K, V>, es: seq<Event<K, V>>): State<K, V>
    requires Legal(c, s, es)
    decreases |es|
  {
    if es == [] then s else After(c, Apply(c, s, es[0]), es[1..])
  }

  // ---------- The invariant ----------

  /** The place of the latest write to `k` in the order of the store. */
  function Latest<K(==), V>(ws: seq<Written<K, V>>, k: K): (r: Option<nat>)
    ensures r.None? ==> forall j :: 0 <= j < |ws| ==> ws[j].key != k
    ensures r.Some? ==>
      r.value < |ws| && ws[r.value].key == k && forall j :: r.value < j < |ws| ==> ws[j].key != k
  {
    if ws == [] then None
    else if ws[|ws| - 1].key == k then Some(|ws| - 1)
    else
      var r := Latest(ws[..|ws| - 1], k);
      assert forall j :: 0 <= j < |ws| - 1 ==> ws[j] == ws[..|ws| - 1][j];
      r
  }

  /** `e` is what the latest of the first `at` writes to `k` put into the store. */
  ghost predicate IsLatest<K, V>(c: Config<V>, ws: seq<Written<K, V>>, at: nat, k: K, e: Entry<V>)
  {
    at <= |ws| && Latest(ws[..at], k).Some? && e == EntryOf(c, ws[Latest(ws[..at], k).value])
  }

  ghost predicate Sound<K, V>(c: Config<V>, ws: seq<Written<K, V>>, a: Answered<K, V>)
  {
    && a.at <= a.writes <= |ws| && Latest(ws[..a.at], a.key).Some?
    && var w := ws[Latest(ws[..a.at], a.key).value];
       a.value == w.value && a.hit == w.hit && a.now <= a.served && a.now < w.stamp + Lifetime(c)
  }

  ghost predicate ReaderOk<K, V>(c: Config<V>, s: State<K, V>, r: Reader<K, V>)
  {
    match r
    case Found(key, entry, at) => IsLatest(c, s.history, at, key, entry)
    case Timed(_, now) => now <= s.clock
  }

  ghost predicate Inv<K, V>(c: Config<V>, s: State<K, V>)
  {
    && (forall k :: k in s.store ==> IsLatest(c, s.history, |s.history|, k, s.store[k]))
    && (forall i :: 0 <= i < |s.writers| ==> s.writers[i].stamp <= s.clock)
    && (forall i :: 0 <= i < |s.history| ==> s.history[i].stamp <= s.clock)
    && (forall i :: 0 <= i < |s.readers| ==> ReaderOk(c, s, s.readers[i]))
    && (forall i :: 0 <= i < |s.answers| ==> Sound(c, s.history, s.answers[i]))
  }

  /** What was found or answered before stays so when one more write reaches the store. */
  lemma OneMoreWrite<K, V>(c: Config<V>, ws: seq<Written<K, V>>, w: Written<K, V>, at: nat)
    requires at <= |ws|
    ensures (ws + [w])[..at] == ws[..at]
    ensures Latest(ws + [w], w.key) == Some(|ws|)
    ensures forall k :: k != w.key ==> Latest(ws + [w], k) == Latest(ws, k)
  {
    assert (ws + [w])[..|ws|] == ws;
  }

  lemma CommitStore<K, V>(c: Config<V>, s: State<K, V>, i: nat)
    requires Inv(c, s) && i < |s.writers|
    ensures var s' := Apply(c, s, Commit(i));
            forall k :: k in s'.store ==> IsLatest(c, s'.history, |s'.history|, k, s'.store[k])
  {
    var s', w, n := Apply(c, s, Commit(i)), s.writers[i], |s.history|;
    OneMoreWrite(c, s.history, w, n);
    assert s'.history[..n + 1] == s'.history && s.history[..n] == s.history;
    forall k | k in s'.store ensures IsLatest(c, s'.history, n + 1, k, s'.store[k]) {
      if k != w.key { assert IsLatest(c, s.history, n, k, s.store[k]); }
    }
  }

  lemma CommitInv<K, V>(c: Config<V>, s: State<K, V>, i: nat)
    requires Inv(c, s) && i < |s.writers|
    ensures Inv(c, Apply(c, s, Commit(i)))
  {
    var s' := Apply(c, s, Commit(i));
    CommitStore(c, s, i);
    forall j | 0 <= j < |s'.readers| ensures ReaderOk(c, s', s'.readers[j]) {
      assert ReaderOk(c, s, s.readers[j]);
      if s.readers[j].Found? { OneMoreWrite(c, s.history, s.writers[i], s.readers[j].at); }
    }
    forall j | 0 <= j < |s'.answers| ensures Sound(c, s'.history, s'.answers[j]) {
      assert Sound(c, s.history, s.answers[j]);
      OneMoreWrite(c, s.history, s.writers[i], s.answers[j].at);
    }
  }

  lemma GetDecideInv<K, V>(c: Config<V>, s: State<K, V>, i: nat)
    requires Inv(c, s) && Enabled(s, GetDecide(i))
    ensures Inv(c, Apply(c, s, GetDecide(i)))
  {
    var s' := Apply(c, s, GetDecide(i));
    assert ReaderOk(c, s, s.readers[i]);
    assert s'.history == s.history && s'.clock == s.clock;
    forall j | 0 <= j < |s'.readers| ensures ReaderOk(c, s', s'.readers[j]) {
      assert ReaderOk(c, s, s.readers[if j < i then j else j + 1]);
    }
  }

  lemma LookDecideInv<K, V>(c: Config<V>, s: State<K, V>, i: nat)
    requires Inv(c, s) && Enabled(s, LookDecide(i))
    ensures Inv(c, Apply(c, s, LookDecide(i)))
  {
    var s' := Apply(c, s, LookDecide(i));
    assert ReaderOk(c, s, s.readers[i]);
    assert s'.history == s.history && s'.clock == s.clock;
    forall j | 0 <= j < |s'.readers| ensures ReaderOk(c, s', s'.readers[j]) {
      assert ReaderOk(c, s, s.readers[if j < i then j else j + 1]);
    }
  }

  lemma StepInv<K, V>(c: Config<V>, s: State<K, V>, e: Event<K, V>)
    requires Inv(c, s) && Enabled(s, e)
    ensures Inv(c, Apply(c, s, e))
  {
    if e.Commit? {
      CommitInv(c, s, e.i);
    } else if e.GetDecide? {
      GetDecideInv(c, s, e.i);
    } else if e.LookDecide? {
      LookDecideInv(c, s, e.i);
    } else {
      var s' := Apply(c, s, e);
      forall j | 0 <= j < |s'.readers| ensures ReaderOk(c, s', s'.readers[j]) {
        if j < |s.readers| { assert ReaderOk(c, s, s.readers[j]); }
      }
    }
  }

  lemma {:induction false} RunInv<K, V>(c: Config<V>, s: State<K, V>, es: seq<Event<K, V>>)
    requires Inv(c, s) && Legal(c, s, es)
    ensures Inv(c, After(c, s, es))
    decreases |es|
  {
    if es == [] {
    } else {
      StepInv(c, s, es[0]);
      RunInv(c, Apply(c, s, es[0]), es[1..]);
    }
  }

  /** In every run, whatever is evicted, deleted or refreshed in between: an answer from the
      cache for a key is the most recent write to that key when it was looked up, and when it
      is served that write is younger than its lifetime (the stale time) plus the time since
      the reading the answer was decided with. */
  lemma BoundedStaleness<K, V>(c: Config<V>, t: int, es: seq<Event<K, V>>, i: nat)
    requires Legal(c, Init<K, V>(t), es) && i < |After(c, Init<K, V>(t), es).answers|
    ensures var s := After(c, Init<K, V>(t), es);
            var a := s.answers[i];
            && a.at <= a.writes <= |s.history| && a.now <= a.served
            && Latest(s.history[..a.at], a.key).Some?
            && var w := s.history[Latest(s.history[..a.at], a.key).value];
               a.value == w.value && a.hit == w.hit && a.served - w.stamp < Lifetime(c) + (a.served - a.now)
  {
    RunInv(c, Init<K, V>(t), es);
    var s := After(c, Init<K, V>(t), es);
    assert Sound(c, s.history, s.answers[i]);
  }

  // ---------- The exact conditions ----------

  ghost predicate LagWithin<K, V>(s: State<K, V>, d: nat)
  {
    forall i :: 0 <= i < |s.answers| ==> s.answers[i].served - s.answers[i].now <= d
  }

  ghost predicate ServedInTime<K, V>(c: Config<V>, s: State<K, V>)
  {
    forall i :: 0 <= i < |s.answers| ==>
      var a := s.answers[i];
      Sound(c, s.history, a) && a.served - s.history[Latest(s.history[..a.at], a.key).value].stamp < Lifetime(c)
  }

  ghost predicate ReachedBy<K, V>(c: Config<V>, t: int, es: seq<Event<K, V>>, s: State<K, V>)
  {
    Legal(c, Init<K, V>(t), es) && s == After(c, Init<K, V>(t), es)
  }

  lemma {:induction false} OneMore<K, V>(c: Config<V>, s: State<K, V>, es: seq<Event<K, V>>, e: Event<K, V>)
    requires Legal(c, s, es) && Enabled(After(c, s, es), e)
    ensures Legal(c, s, es + [e]) && After(c, s, es + [e]) == Apply(c, After(c, s, es), e)
    decreases |es|
  {
    if es == [] {
      assert [e][1..] == [];
      assert Legal(c, Apply(c, s, e), []);
    } else {
      assert (es + [e])[1..] == es[1..] + [e];
      OneMore(c, Apply(c, s, es[0]), es[1..], e);
    }
  }

  lemma Extend<K, V>(c: Config<V>, t: int, es: seq<Event<K, V>>, s: State<K, V>, e: Event<K, V>)
    returns (es': seq<Event<K, V>>, s': State<K, V>)
    requires ReachedBy(c, t, es, s) && Enabled(s, e)
    ensures s' == Apply(c, s, e) && ReachedBy(c, t, es', s') && es' == es + [e]
  {
    OneMore(c, Init(t), es, e);
    es', s' := es + [e], Apply(c, s, e);
  }

  lemma OneWrite<K, V>(c: Config<V>, k: K, v: V) returns (es: seq<Event<K, V>>, s: State<K, V>)
    ensures ReachedBy(c, 0, es, s) && es == [Stamp(k, v, Hit), Commit(0)]
    ensures var w := Written(k, v, Hit, 0); s == State(0, map[k := EntryOf(c, w)], [], [], [w], [])
  {
    es, s := [], Init(0);
    assert Legal(c, Init<K, V>(0), []);
    es, s := Extend(c, 0, es, s, Stamp(k, v, Hit));
    es, s := Extend(c, 0, es, s, Commit(0));
  }

  /** One write, read back `d` late by a caller whose reading is of its last moment. */
  lemma LateAnswer<K, V>(c: Config<V>, k: K, v: V, d: nat) returns (es: seq<Event<K, V>>, s: State<K, V>)
    requires Lifetime(c) > 0
    ensures ReachedBy(c, 0, es, s)
    ensures |s.answers| == 1 && |s.history| == 1 && s.history[0].key == k && s.history[0].stamp == 0
    ensures s.answers[0].key == k && s.answers[0].at == 1
    ensures s.answers[0].served - s.answers[0].now == d && s.answers[0].served == Lifetime(c) - 1 + d
  {
    var last := Lifetime(c) - 1;
    es, s := OneWrite(c, k, v);
    es, s := Extend(c, 0, es, s, Tick(last));
    es, s := Extend(c, 0, es, s, ReadClock(k));
    es, s := Extend(c, 0, es, s, Tick(last + d));
    es, s := Extend(c, 0, es, s, LookDecide(0));
  }

  /** Runs whose answers are served at most `d` after their readings keep every served value
      younger than the lifetime exactly when `d` is 0. */
  lemma ServedInTimeIff<K(!new), V(!new)>(c: Config<V>, d: nat, k: K, v: V)
    requires Lifetime(c) > 0
    ensures (forall t, es: seq<Event<K, V>>, s :: ReachedBy(c, t, es, s) && LagWithin(s, d) ==> ServedInTime(c, s))
       <==> d == 0
  {
    if d == 0 {
      forall t, es: seq<Event<K, V>>, s | ReachedBy(c, t, es, s) && LagWithin(s, d) ensures ServedInTime(c, s) {
        RunInv(c, Init<K, V>(t), es);
        forall i | 0 <= i < |s.answers| ensures Sound(c, s.history, s.answers[i]) {}
      }
    } else {
      var es, s := LateAnswer<K, V>(c, k, v, d);
      assert s.history[..1] == s.history;
      assert !ServedInTime(c, s) by { assert s.answers[0].served >= Lifetime(c); }
      assert ReachedBy(c, 0, es, s) && LagWithin(s, d);
    }
  }

  /** The value served is still the most recent write to its key. */
  ghost predicate Current<K, V>(s: State<K, V>, a: Answered<K, V>)
    requires a.at <= a.writes <= |s.history|
  {
    Latest(s.history[..a.at], a.key) == Latest(s.history[..a.writes], a.key)
  }

  /** An answer is overtaken exactly when the key is written between its lookup and the time it
      is served.  Only Get has such a gap: the others look up last. */
  lemma CurrentIff<K, V>(c: Config<V>, s: State<K, V>, i: nat)
    requires Inv(c, s) && i < |s.answers|
    ensures var a := s.answers[i];
            && a.at <= a.writes <= |s.history|
            && (Current(s, a) <==> forall j :: a.at <= j < a.writes ==> s.history[j].key != a.key)
  {
    var a := s.answers[i];
    assert Sound(c, s.history, a);
    var before, after := s.history[..a.at], s.history[..a.writes];
    assert forall j :: 0 <= j < a.at ==> before[j] == after[j];
    var p, q := Latest(before, a.key), Latest(after, a.key);
    assert after[p.value].key == a.key;
    if p == q {
      forall j | a.at <= j < a.writes ensures s.history[j].key != a.key { assert after[j] == s.history[j]; }
    } else {
      assert q.Some? && p.value < q.value;
      assert s.history[q.value] == after[q.value];
    }
  }

  // ---------- An expired read deletes what it did not judge ----------

  /** A Get that finds its entry expired deletes the key, whatever is stored there by then: a
      write is lost exactly when the key was written since the lookup and is still stored. */
  lemma ExpiredReadDeletes<K, V>(c: Config<V>, s: State<K, V>, i: nat)
    requires Inv(c, s) && Enabled(s, GetDecide(i)) && s.clock >= s.readers[i].entry.staleUntil
    ensures var r, s' := s.readers[i], Apply(c, s, GetDecide(i));
            && s'.store == s.store - {r.key} && s'.answers == s.answers
            && r.at <= |s.history|
            && (r.key in s.store ==>
                  && Latest(s.history, r.key).Some?
                  && s.store[r.key] == EntryOf(c, s.history[Latest(s.history, r.key).value])
                  && (Latest(s.history, r.key).value >= r.at
                      <==> exists j :: r.at <= j < |s.history| && s.history[j].key == r.key))
  {
    var r := s.readers[i];
    assert ReaderOk(c, s, r);
    assert s.history[..|s.history|] == s.history;
    if r.key in s.store { assert IsLatest(c, s.history, |s.history|, r.key, s.store[r.key]); }
  }

  /** Such a run: the key is written a second time, nothing is evicted, and yet it is not there. */
  lemma LostWrite<K, V>(c: Config<V>, k: K, v: V) returns (es: seq<Event<K, V>>, s: State<K, V>)
    ensures ReachedBy(c, 0, es, s) && forall i :: 0 <= i < |es| ==> !es[i].Evict?
    ensures |s.history| == 2 && s.history[1] == Written(k, v, Hit, s.clock) && k !in s.store && s.answers == []
  {
    var t := if c.staleFor < 0 then 0 else c.staleFor;
    es, s := OneWrite(c, k, v);
    es, s := Extend(c, 0, es, s, GetLook(k));
    es, s := Extend(c, 0, es, s, Tick(t));
    es, s := Extend(c, 0, es, s, Stamp(k, v, Hit));
    es, s := Extend(c, 0, es, s, Commit(0));
    es, s := Extend(c, 0, es, s, GetDecide(0));
  }

  ghost predicate GapWithin<K, V>(s: State<K, V>, m: nat)
  {
    forall i :: 0 <= i < |s.answers| ==> s.answers[i].writes - s.answers[i].at <= m
  }

  ghost predicate AllCurrent<K, V>(c: Config<V>, s: State<K, V>)
  {
    forall i :: 0 <= i < |s.answers| ==> Sound(c, s.history, s.answers[i]) && Current(s, s.answers[i])
  }

  /** A write of `k`, its lookup by Get, and the clock reading of the next write of `k`. */
  lemma LookedUp<K, V>(c: Config<V>, k: K, v: V) returns (es: seq<Event<K, V>>, s: State<K, V>)
    ensures ReachedBy(c, 0, es, s)
    ensures var w := Written(k, v, Hit, 0);
            s == State(0, map[k := EntryOf(c, w)], [w], [Found(k, EntryOf(c, w), 1)], [w], [])
  {
    es, s := OneWrite(c, k, v);
    es, s := Extend(c, 0, es, s, GetLook(k));
    es, s := Extend(c, 0, es, s, Stamp(k, v, Hit));
  }

  /** A Get that is overtaken by one write of its key. */
  lemma OvertakenGet<K, V>(c: Config<V>, k: K, v: V) returns (es: seq<Event<K, V>>, s: State<K, V>)
    requires c.staleFor > 0
    ensures ReachedBy(c, 0, es, s)
    ensures |s.answers| == 1 && |s.history| == 2 && s.history[1].key == k
    ensures s.answers[0].key == k && s.answers[0].at == 1 && s.answers[0].writes == 2
  {
    es, s := LookedUp(c, k, v);
    es, s := Extend(c, 0, es, s, Commit(0));
    es, s := Extend(c, 0, es, s, GetDecide(0));
  }

  /** Runs with at most `m` writes between a lookup and its answer serve only current values
      exactly when `m` is 0. */
  lemma AllCurrentIff<K(!new), V(!new)>(c: Config<V>, m: nat, k: K, v: V)
    requires c.staleFor > 0
    ensures (forall t, es: seq<Event<K, V>>, s :: ReachedBy(c, t, es, s) && GapWithin(s, m) ==> AllCurrent(c, s))
       <==> m == 0
  {
    if m == 0 {
      forall t, es: seq<Event<K, V>>, s | ReachedBy(c, t, es, s) && GapWithin(s, m) ensures AllCurrent(c, s) {
        RunInv(c, Init<K, V>(t), es);
        forall i | 0 <= i < |s.answers| ensures Sound(c, s.history, s.answers[i]) && Current(s, s.answers[i]) {
          CurrentIff(c, s, i);
        }
      }
    } else {
      var es, s := OvertakenGet<K, V>(c, k, v);
      RunInv(c, Init<K, V>(0), es);
      CurrentIff(c, s, 0);
      assert !AllCurrent(c, s) by { assert s.history[1].key == s.answers[0].key; }
      assert ReachedBy(c, 0, es, s) && GapWithin(s, m);
    }
  }
}
