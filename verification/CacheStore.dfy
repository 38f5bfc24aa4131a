/** The stale-while-revalidate cache's entries (pkg/cache): lookups, writes, SWR, SWRMany and
    SWRWithFallback as they change the store.

    A clock reading is a parameter wherever the source reads the clock.  The origin is a
    function of what it is asked for.  Background jobs are returned as requests to queue;
    the queue and its workers are in CacheWorkers.
  */
module CacheModel {
  import opened Common

  // The zero value of the source's CacheHit is Null.
  datatype CacheHit = Null | Hit | Miss

  datatype Op = Noop | WriteValue | WriteNull

  datatype Entry<V> = Entry(value: V, hit: CacheHit, freshUntil: int, staleUntil: int)

  /** How long entries stay fresh and usable, and the zero value of V. */
  datatype Config<V> = Config(freshFor: int, staleFor: int, zero: V)

  type Store<K(==), V> = map<K, Entry<V>>

  function ValueEntry<V>(c: Config<V>, v: V, now: int): Entry<V>
  {
    Entry(v, Hit, now + c.freshFor, now + c.staleFor)
  }

  function NullEntry<V>(c: Config<V>, now: int): Entry<V>
  {
    Entry(c.zero, Null, now + c.freshFor, now + c.staleFor)
  }

  // ---------- Lookups ----------

  predicate Usable<K, V>(m: Store<K, V>, k: K, now: int)
  {
    k in m && now < m[k].staleUntil
  }

  /** The store without those of `keys` that are past their stale time. */
  function Prune<K, V>(m: Store<K, V>, keys: seq<K>, now: int): Store<K, V>
  {
    map k | k in m && (k in keys ==> Usable(m, k, now)) :: m[k]
  }

  function Hits<K, V>(m: Store<K, V>, keys: seq<K>, now: int): map<K, CacheHit>
  {
    map k | k in keys :: if Usable(m, k, now) then m[k].hit else Miss
  }

  function Values<K, V>(m: Store<K, V>, keys: seq<K>, now: int): map<K, V>
  {
    map k | k in keys && Usable(m, k, now) :: m[k].value
  }

  lemma LookupSnoc<K, V>(m: Store<K, V>, ks: seq<K>, k: K, now: int)
    ensures Prune(m, ks + [k], now) == if Usable(m, k, now) then Prune(m, ks, now) else Prune(m, ks, now) - {k}
    ensures Hits(m, ks + [k], now) == Hits(m, ks, now)[k := if Usable(m, k, now) then m[k].hit else Miss]
    ensures Values(m, ks + [k], now)
         == if Usable(m, k, now) then Values(m, ks, now)[k := m[k].value] else Values(m, ks, now)
  {
    assert forall x :: x in ks + [k] <==> x in ks || x == k;
  }

  // ---------- SWR ----------

  /** Applies the operation an origin call ends with to one key. */
  function Write<K, V>(c: Config<V>, m: Store<K, V>, k: K, v: V, op: Op, now: int): Store<K, V>
  {
    match op
    case WriteValue => m[k := ValueEntry(c, v, now)]
    case WriteNull => m[k := NullEntry(c, now)]
    case Noop => m
  }

  /** What a single-key call leaves and returns; `queued` asks for a background refresh. */
  datatype Answer<K(==), V, E> = Answer(store: Store<K, V>, value: V, hit: CacheHit, err: Option<E>, queued: bool)

  /** `now` is the reading at the start, `later` the one a fetched value is written with. */
  function SWR<K, V, E>(c: Config<V>, m: Store<K, V>, k: K, now: int, later: int,
                        origin: K -> (V, Option<E>), op: Option<E> -> Op): Answer<K, V, E>
  {
    if k in m && now < m[k].freshUntil then Answer(m, m[k].value, m[k].hit, None, false)
    else if Usable(m, k, now) then Answer(m, m[k].value, m[k].hit, None, true)
    else
      var (v, err) := origin(k);
      var hit := if err.Some? then Miss else
                 match op(err) case Noop => Null case WriteValue => Hit case WriteNull => Null;
      Answer(Write(c, m - {k}, k, v, op(err), later), v, hit, err, false)
  }

  // ---------- SWRMany ----------

  /** First occurrences, in order. */
  function Distinct<K(==)>(keys: seq<K>): seq<K>
  {
    if keys == [] then []
    else
      var front, k := keys[..|keys| - 1], keys[|keys| - 1];
      if k in front then Distinct(front) else Distinct(front) + [k]
  }

  function Missing<K, V>(m: Store<K, V>, ks: seq<K>, now: int): seq<K>
  {
    if ks == [] then []
    else
      var k := ks[|ks| - 1];
      Missing(m, ks[..|ks| - 1], now) + (if Usable(m, k, now) then [] else [k])
  }

  /** Queued for refresh by SWRMany: a value, not a null, strictly past its fresh time. */
  predicate ManyQueues<K, V>(m: Store<K, V>, k: K, now: int, check: int)
  {
    Usable(m, k, now) && m[k].hit == Hit && m[k].freshUntil < check < m[k].staleUntil
  }

  function StaleKeys<K, V>(m: Store<K, V>, ks: seq<K>, now: int, check: int): seq<K>
  {
    if ks == [] then []
    else
      var k := ks[|ks| - 1];
      StaleKeys(m, ks[..|ks| - 1], now, check) + (if ManyQueues(m, k, now, check) then [k] else [])
  }

  /** What the origin returns for a list of keys: maybe a map, maybe an error. */
  datatype Fetched<K(==), V, E> = Fetched(found: Option<map<K, V>>, err: Option<E>)

  function WriteAll<K, V>(c: Config<V>, m: Store<K, V>, vs: map<K, V>, now: int): Store<K, V>
  {
    m + map k | k in vs :: ValueEntry(c, vs[k], now)
  }

  function WriteNulls<K, V>(c: Config<V>, m: Store<K, V>, ks: seq<K>, now: int): Store<K, V>
  {
    m + map k | k in ks :: NullEntry(c, now)
  }

  lemma WriteNoNulls<K, V>(c: Config<V>, m: Store<K, V>, now: int)
    ensures WriteNulls(c, m, [], now) == m
  {
  }

  lemma WriteNullsSnoc<K, V>(c: Config<V>, m: Store<K, V>, ks: seq<K>, k: K, now: int)
    ensures WriteNulls(c, m, ks + [k], now) == WriteNulls(c, m, ks, now)[k := NullEntry(c, now)]
  {
    assert forall x :: x in ks + [k] <==> x in ks || x == k;
  }

  function NotIn<K(==), V>(ks: seq<K>, vs: map<K, V>): seq<K>
  {
    if ks == [] then []
    else
      var k := ks[|ks| - 1];
      NotIn(ks[..|ks| - 1], vs) + (if k in vs then [] else [k])
  }

  datatype ManyAnswer<K(==), V, E> = ManyAnswer(
    store: Store<K, V>, values: map<K, V>, hits: map<K, CacheHit>, err: Option<E>,
    stale: seq<K>, asked: seq<seq<K>>)

  /** The clock readings of one SWRMany call, in order: in GetMany, for the freshness check, in
      SetMany and in SetNullMany. */
  datatype Readings = Readings(look: int, check: int, write: int, writeNull: int)

  // Store, values and hits after the origin's answer for the missing keys.

  function FillStore<K, V, E>(c: Config<V>, m: Store<K, V>, missing: seq<K>, f: Fetched<K, V, E>, op: Op,
                              t: Readings): Store<K, V>
  {
    match op
    case WriteValue =>
      if f.found.None? then m
      else WriteNulls(c, WriteAll(c, m, f.found.value, t.write), NotIn(missing, f.found.value), t.writeNull)
    case WriteNull => WriteNulls(c, m, missing, t.writeNull)
    case Noop => m
  }

  function FillValues<K, V, E>(values: map<K, V>, f: Fetched<K, V, E>, op: Op): map<K, V>
  {
    if op == WriteValue && f.found.Some? then values + f.found.value else values
  }

  function FillHits<K, V, E>(hits: map<K, CacheHit>, missing: seq<K>, f: Fetched<K, V, E>, op: Op): map<K, CacheHit>
  {
    match op
    case WriteValue =>
      if f.found.None? then hits
      else hits + (map k | k in f.found.value :: Hit) + (map k | k in NotIn(missing, f.found.value) :: Null)
    case WriteNull => hits + map k | k in missing :: Null
    case Noop => hits
  }

  function Fill<K, V, E>(c: Config<V>, m: Store<K, V>, values: map<K, V>, hits: map<K, CacheHit>, missing: seq<K>,
                         f: Fetched<K, V, E>, op: Op, t: Readings): (Store<K, V>, map<K, V>, map<K, CacheHit>)
  {
    (FillStore(c, m, missing, f, op, t), FillValues(values, f, op), FillHits(hits, missing, f, op))
  }

  /** No stored entry is a miss. */
  predicate NoMiss<K, V>(m: Store<K, V>)
  {
    forall k :: k in m ==> m[k].hit != Miss
  }

  function SWRMany<K, V, E>(c: Config<V>, m: Store<K, V>, keys: seq<K>, t: Readings,
                            origin: seq<K> -> Fetched<K, V, E>, op: Option<E> -> Op): ManyAnswer<K, V, E>
  {
    var pruned := Prune(m, keys, t.look);
    var hits, values := Hits(m, keys, t.look), Values(m, keys, t.look);
    var missing := Missing(m, Distinct(keys), t.look);
    var stale := StaleKeys(m, Distinct(keys), t.look, t.check);
    if missing == [] then ManyAnswer(pruned, values, hits, None, stale, [])
    else
      var f := origin(missing);
      var (store, values', hits') := Fill(c, pruned, values, hits, missing, f, op(f.err), t);
      ManyAnswer(store, values', hits', f.err, stale, [missing])
  }

  // ---------- SWRMany against SWR on each key ----------

  /** SWR on one key after the other, at one instant. */
  function SWREach<K, V, E>(c: Config<V>, m: Store<K, V>, ks: seq<K>, now: int,
                            origin: K -> (V, Option<E>), op: Option<E> -> Op): Store<K, V>
  {
    if ks == [] then m
    else SWR(c, SWREach(c, m, ks[..|ks| - 1], now, origin, op), ks[|ks| - 1], now, now, origin, op).store
  }

  datatype NotFound = NotFound

  /** The origin behind both calls: a table, a missing row being the not-found error for one
      key and an absence from the map for many. */
  function OneFrom<K, V>(c: Config<V>, world: map<K, V>): K -> (V, Option<NotFound>)
  {
    k => if k in world then (world[k], None) else (c.zero, Some(NotFound))
  }

  function ManyFrom<K, V>(world: map<K, V>): seq<K> -> Fetched<K, V, NotFound>
  {
    ks => Fetched(Some(map k | k in ks && k in world :: world[k]), None)
  }

  /** Found values are written, not-found keys are written as null. */
  function WriteThrough(err: Option<NotFound>): Op
  {
    if err.None? then WriteValue else WriteNull
  }

  /** The entry a requested key has afterwards. */
  function Settled<K, V>(c: Config<V>, m: Store<K, V>, k: K, world: map<K, V>, now: int): Entry<V>
  {
    if Usable(m, k, now) then m[k]
    else if k in world then ValueEntry(c, world[k], now)
    else NullEntry(c, now)
  }

  /** The store in which exactly the requested keys are settled. */
  function Settle<K, V>(c: Config<V>, m: Store<K, V>, ks: seq<K>, world: map<K, V>, now: int): Store<K, V>
  {
    m + map k | k in ks :: Settled(c, m, k, world, now)
  }

  lemma {:induction false} MissingMembers<K, V>(m: Store<K, V>, ks: seq<K>, now: int, k: K)
    ensures k in Missing(m, ks, now) <==> k in ks && !Usable(m, k, now)
  {
    if ks == [] {
    } else {
      MissingMembers(m, ks[..|ks| - 1], now, k);
      assert ks == ks[..|ks| - 1] + [ks[|ks| - 1]];
    }
  }

  lemma {:induction false} NotInMembers<K, V>(ks: seq<K>, vs: map<K, V>, k: K)
    ensures k in NotIn(ks, vs) <==> k in ks && k !in vs
  {
    if ks == [] {
    } else {
      NotInMembers(ks[..|ks| - 1], vs, k);
      assert ks == ks[..|ks| - 1] + [ks[|ks| - 1]];
    }
  }

  lemma {:induction false} DistinctMembers<K>(keys: seq<K>, k: K)
    ensures k in Distinct(keys) <==> k in keys
  {
    if keys == [] {
    } else {
      DistinctMembers(keys[..|keys| - 1], k);
      assert keys == keys[..|keys| - 1] + [keys[|keys| - 1]];
    }
  }

  /** Past its stale time but still fresh: possible only where entries are configured fresh for
      longer than stale.  SWR serves such an entry, GetMany and so SWRMany delete it. */
  predicate Overdue<V>(e: Entry<V>, now: int)
  {
    e.staleUntil <= now < e.freshUntil
  }

  lemma OneSettles<K, V>(c: Config<V>, m: Store<K, V>, k: K, world: map<K, V>, now: int)
    requires k in m ==> !Overdue(m[k], now)
    ensures SWR(c, m, k, now, now, OneFrom(c, world), WriteThrough).store == m[k := Settled(c, m, k, world, now)]
  {
  }

  lemma SettleSnoc<K, V>(c: Config<V>, m: Store<K, V>, front: seq<K>, k: K, world: map<K, V>, now: int)
    requires k !in front
    ensures var m' := Settle(c, m, front, world, now);
            && (k in m' <==> k in m) && (k in m ==> m'[k] == m[k])
            && m'[k := Settled(c, m', k, world, now)] == Settle(c, m, front + [k], world, now)
  {
    var m', all := Settle(c, m, front, world, now), Settle(c, m, front + [k], world, now);
    assert forall x :: x in front + [k] <==> x in front || x == k;
    assert m'[k := Settled(c, m, k, world, now)].Keys == all.Keys;
  }

  /** SWR on each of several distinct keys settles those keys. */
  lemma {:induction false} EachSettles<K, V>(c: Config<V>, m: Store<K, V>, ks: seq<K>, world: map<K, V>, now: int)
    requires forall k :: k in ks && k in m ==> !Overdue(m[k], now)
    requires forall i, j :: 0 <= i < j < |ks| ==> ks[i] != ks[j]
    ensures SWREach(c, m, ks, now, OneFrom(c, world), WriteThrough) == Settle(c, m, ks, world, now)
  {
    if ks == [] {
    } else {
      var front, k := ks[..|ks| - 1], ks[|ks| - 1];
      EachSettles(c, m, front, world, now);
      assert ks == front + [k] && k !in front;
      SettleSnoc(c, m, front, k, world, now);
      OneSettles(c, Settle(c, m, front, world, now), k, world, now);
    }
  }

  lemma WritesSettle<K, V>(c: Config<V>, m: Store<K, V>, keys: seq<K>, world: map<K, V>, now: int,
                           missing: seq<K>, vs: map<K, V>, absent: seq<K>)
    requires forall k :: k in missing <==> k in keys && !Usable(m, k, now)
    requires vs == map k | k in missing && k in world :: world[k]
    requires forall k :: k in absent <==> k in missing && k !in vs
    ensures WriteNulls(c, WriteAll(c, Prune(m, keys, now), vs, now), absent, now) == Settle(c, m, keys, world, now)
  {
    var left, right := WriteNulls(c, WriteAll(c, Prune(m, keys, now), vs, now), absent, now),
                       Settle(c, m, keys, world, now);
    assert left.Keys == right.Keys;
  }

  lemma PruneSettles<K, V>(c: Config<V>, m: Store<K, V>, keys: seq<K>, world: map<K, V>, now: int)
    requires forall k :: k in keys ==> Usable(m, k, now)
    ensures Prune(m, keys, now) == Settle(c, m, keys, world, now)
  {
  }

  lemma MissingOfDistinct<K, V>(m: Store<K, V>, keys: seq<K>, now: int)
    ensures forall k :: k in Missing(m, Distinct(keys), now) <==> k in keys && !Usable(m, k, now)
  {
    forall k ensures k in Missing(m, Distinct(keys), now) <==> k in keys && !Usable(m, k, now) {
      MissingMembers(m, Distinct(keys), now, k);
      DistinctMembers(keys, k);
    }
  }

  /** SWRMany, with duplicates or not, settles the same keys in the same way. */
  lemma ManySettles<K, V>(c: Config<V>, m: Store<K, V>, keys: seq<K>, world: map<K, V>, now: int)
    ensures SWRMany(c, m, keys, Readings(now, now, now, now), ManyFrom(world), WriteThrough).store
         == Settle(c, m, keys, world, now)
  {
    var missing := Missing(m, Distinct(keys), now);
    MissingOfDistinct(m, keys, now);
    if missing == [] {
      forall k | k in keys ensures Usable(m, k, now) { assert k !in missing; }
      PruneSettles(c, m, keys, world, now);
    } else {
      var vs := ManyFrom(world)(missing).found.value;
      forall k ensures k in NotIn(missing, vs) <==> k in missing && k !in vs { NotInMembers(missing, vs, k); }
      WritesSettle(c, m, keys, world, now, missing, vs, NotIn(missing, vs));
    }
  }

  lemma SettleSame<K, V>(c: Config<V>, m: Store<K, V>, ks: seq<K>, ks': seq<K>, world: map<K, V>, now: int)
    requires forall k :: k in ks <==> k in ks'
    ensures Settle(c, m, ks, world, now) == Settle(c, m, ks', world, now)
  {
  }

  /** A fresh entry is left alone by SWR on any keys. */
  lemma {:induction false} EachKeepsFresh<K, V>(c: Config<V>, m: Store<K, V>, ks: seq<K>, world: map<K, V>,
                                                now: int, k: K)
    requires k in m && now < m[k].freshUntil
    ensures var m' := SWREach(c, m, ks, now, OneFrom(c, world), WriteThrough); k in m' && m'[k] == m[k]
  {
    if ks == [] {
    } else {
      EachKeepsFresh(c, m, ks[..|ks| - 1], world, now, k);
    }
  }

  /** At one instant, SWRMany leaves the store that SWR on each distinct key leaves, if and only
      if no requested entry is past its stale time while still fresh. */
  lemma ManyRefinesEach<K, V>(c: Config<V>, m: Store<K, V>, keys: seq<K>, world: map<K, V>, now: int)
    requires c.staleFor > 0
    ensures SWRMany(c, m, keys, Readings(now, now, now, now), ManyFrom(world), WriteThrough).store
         == SWREach(c, m, Distinct(keys), now, OneFrom(c, world), WriteThrough)
       <==> forall k :: k in keys && k in m ==> !Overdue(m[k], now)
  {
    forall k ensures k in Distinct(keys) <==> k in keys { DistinctMembers(keys, k); }
    ManySettles(c, m, keys, world, now);
    if k :| k in keys && k in m && Overdue(m[k], now) {
      EachKeepsFresh(c, m, Distinct(keys), world, now, k);
      assert Settle(c, m, keys, world, now)[k].staleUntil == now + c.staleFor;
    } else {
      DistinctOnce(keys);
      EachSettles(c, m, Distinct(keys), world, now);
      SettleSame(c, m, Distinct(keys), keys, world, now);
    }
  }

  lemma {:induction false} DistinctOnce<K>(keys: seq<K>)
    ensures forall i, j :: 0 <= i < j < |Distinct(keys)| ==> Distinct(keys)[i] != Distinct(keys)[j]
  {
    if keys == [] {
    } else {
      var front, k := keys[..|keys| - 1], keys[|keys| - 1];
      DistinctOnce(front);
      if k !in front { DistinctMembers(front, k); }
    }
  }

  // ---------- What the origin is asked, and what the caller is told ----------

  /** `sub` lists, in order, elements of `keys` at their first occurrence. */
  ghost predicate FirstAt<K>(sub: seq<K>, keys: seq<K>, at: seq<nat>)
  {
    && |at| == |sub|
    && (forall i :: 0 <= i < |at| ==> at[i] < |keys| && keys[at[i]] == sub[i] && sub[i] !in keys[..at[i]])
    && (forall i, j :: 0 <= i < j < |at| ==> at[i] < at[j])
  }

  lemma FirstAtSnoc<K>(sub: seq<K>, keys: seq<K>, at: seq<nat>, k: K)
    requires FirstAt(sub, keys, at)
    ensures FirstAt(sub, keys + [k], at)
    ensures k !in keys ==> FirstAt(sub + [k], keys + [k], at + [|keys|])
  {
    assert forall i :: 0 <= i < |at| ==> (keys + [k])[..at[i]] == keys[..at[i]];
    assert (keys + [k])[..|keys|] == keys;
  }

  lemma DistinctSnoc<K, V>(front: seq<K>, k: K, m: Store<K, V>, now: int, check: int)
    ensures var d, d' := Distinct(front), Distinct(front + [k]);
            if k in front then d' == d
            else && Missing(m, d', now) == Missing(m, d, now) + (if Usable(m, k, now) then [] else [k])
                 && StaleKeys(m, d', now, check)
                    == StaleKeys(m, d, now, check) + (if ManyQueues(m, k, now, check) then [k] else [])
  {
    assert (front + [k])[..|front|] == front;
    assert (Distinct(front) + [k])[..|Distinct(front)|] == Distinct(front);
  }

  lemma {:induction false} MissingInOrder<K, V>(m: Store<K, V>, keys: seq<K>, now: int) returns (at: seq<nat>)
    ensures FirstAt(Missing(m, Distinct(keys), now), keys, at)
    decreases |keys|
  {
    if keys == [] {
      at := [];
    } else {
      var front, k := keys[..|keys| - 1], keys[|keys| - 1];
      assert keys == front + [k];
      at := MissingInOrder(m, front, now);
      FirstAtSnoc(Missing(m, Distinct(front), now), front, at, k);
      DistinctSnoc(front, k, m, now, now);
      if k !in front && !Usable(m, k, now) { at := at + [|front|]; }
    }
  }

  /** Whatever the origin and the operation: SWRMany asks the origin at most once, for exactly
      the requested keys that are not usable, each once, in the order of first occurrence. */
  lemma AskedOnce<K, V, E>(c: Config<V>, m: Store<K, V>, keys: seq<K>, t: Readings,
                           origin: seq<K> -> Fetched<K, V, E>, op: Option<E> -> Op) returns (at: seq<nat>)
    ensures var asked := SWRMany(c, m, keys, t, origin, op).asked;
            && |asked| <= 1
            && (asked == [] <==> forall k :: k in keys ==> Usable(m, k, t.look))
            && (asked != [] ==> FirstAt(asked[0], keys, at))
            && (asked != [] ==> forall k :: k in asked[0] <==> k in keys && !Usable(m, k, t.look))
  {
    at := MissingInOrder(m, keys, t.look);
    var missing := Missing(m, Distinct(keys), t.look);
    MissingOfDistinct(m, keys, t.look);
    if missing != [] { assert missing[0] in missing; }
  }

  lemma {:induction false} StaleInOrder<K, V>(m: Store<K, V>, keys: seq<K>, now: int, check: int) returns (at: seq<nat>)
    ensures FirstAt(StaleKeys(m, Distinct(keys), now, check), keys, at)
    ensures forall k :: k in StaleKeys(m, Distinct(keys), now, check) <==> k in keys && ManyQueues(m, k, now, check)
    decreases |keys|
  {
    if keys == [] {
      at := [];
    } else {
      var front, k := keys[..|keys| - 1], keys[|keys| - 1];
      assert keys == front + [k];
      at := StaleInOrder(m, front, now, check);
      FirstAtSnoc(StaleKeys(m, Distinct(front), now, check), front, at, k);
      DistinctSnoc(front, k, m, now, check);
      if k !in front && ManyQueues(m, k, now, check) { at := at + [|front|]; }
    }
  }

  /** SWRMany queues for refresh exactly the requested keys whose entry is a usable value past
      its fresh time, each once, in the order of first occurrence. */
  lemma RefreshedOnce<K, V, E>(c: Config<V>, m: Store<K, V>, keys: seq<K>, t: Readings,
                               origin: seq<K> -> Fetched<K, V, E>, op: Option<E> -> Op) returns (at: seq<nat>)
    ensures var stale := SWRMany(c, m, keys, t, origin, op).stale;
            && FirstAt(stale, keys, at)
            && forall k :: k in stale <==> k in keys && k in m && t.look < m[k].staleUntil && m[k].hit == Hit
                                           && m[k].freshUntil < t.check < m[k].staleUntil
  {
    at := StaleInOrder(m, keys, t.look, t.check);
  }

  // ---------- Per key, for every origin and every operation ----------

  function Find<K, X>(m: map<K, X>, k: K): Option<X>
  {
    if k in m then Some(m[k]) else None
  }

  /** The key is requested and has no entry, or one past its stale time. */
  predicate Gone<K, V>(m: Store<K, V>, keys: seq<K>, now: int, k: K)
  {
    k in keys && (k !in m || m[k].staleUntil <= now)
  }

  /** What the origin's answer `f` with operation `op` makes of a key: its entry, if it gets one. */
  function Given<K, V, E>(c: Config<V>, gone: bool, k: K, f: Fetched<K, V, E>, op: Op, t: Readings): Option<Entry<V>>
  {
    if op == WriteValue && f.found.Some? && k in f.found.value then
      Some(Entry(f.found.value[k], Hit, t.write + c.freshFor, t.write + c.staleFor))
    else if gone && ((op == WriteValue && f.found.Some?) || op == WriteNull) then
      Some(Entry(c.zero, Null, t.writeNull + c.freshFor, t.writeNull + c.staleFor))
    else None
  }

  lemma LookedUp<K, V>(m: Store<K, V>, keys: seq<K>, now: int, k: K)
    ensures Find(Prune(m, keys, now), k) == if Gone(m, keys, now, k) then None else Find(m, k)
    ensures Find(Hits(m, keys, now), k)
         == if k !in keys then None else if Gone(m, keys, now, k) then Some(Miss) else Some(m[k].hit)
    ensures Find(Values(m, keys, now), k)
         == if k !in keys || Gone(m, keys, now, k) then None else Some(m[k].value)
  {
  }

  /** Nothing is asked where nothing is missing; then only usable entries are requested, and
      they are reported as they are.  Otherwise, whatever the origin answers: a key gets the
      entry that the operation gives it, a missing key that gets none is no longer stored and
      is reported as a miss, and every other key keeps its entry; the error is the origin's. */
  lemma ManyPerKey<K, V, E>(c: Config<V>, m: Store<K, V>, keys: seq<K>, t: Readings,
                            origin: seq<K> -> Fetched<K, V, E>, op: Option<E> -> Op, k: K)
    ensures var a := SWRMany(c, m, keys, t, origin, op);
            var gone := Gone(m, keys, t.look, k);
            var given := if a.asked == [] then None
                         else Given(c, gone, k, origin(a.asked[0]), op(origin(a.asked[0]).err), t);
            && (a.asked == [] ==> !gone)
            && a.err == (if a.asked == [] then None else origin(a.asked[0]).err)
            && Find(a.store, k) == (if given.Some? then given else if gone then None else Find(m, k))
            && Find(a.hits, k) == (if given.Some? then Some(given.value.hit)
                                       else if gone then Some(Miss)
                                       else if k in keys then Some(m[k].hit) else None)
            && Find(a.values, k) == (if given.Some? && given.value.hit == Hit then Some(given.value.value)
                                         else if k in keys && !gone then Some(m[k].value) else None)
  {
    LookedUp(m, keys, t.look, k);
    MissingOfDistinct(m, keys, t.look);
    var missing := Missing(m, Distinct(keys), t.look);
    if missing != [] {
      var f := origin(missing);
      var pruned, values, hits := Prune(m, keys, t.look), Values(m, keys, t.look), Hits(m, keys, t.look);
      StoreFilled(c, pruned, missing, f, op(f.err), t, k);
      HitsFilled(c, hits, missing, f, op(f.err), t, k);
      ValuesFilled(c, values, missing, f, op(f.err), t, k);
    } else {
      assert k !in missing;
    }
  }

  lemma WrittenPerKey<K, V>(c: Config<V>, m: Store<K, V>, vs: map<K, V>, ks: seq<K>, t: Readings, k: K)
    ensures Find(WriteAll(c, m, vs, t.write), k)
         == if k in vs then Some(Entry(vs[k], Hit, t.write + c.freshFor, t.write + c.staleFor)) else Find(m, k)
    ensures Find(WriteNulls(c, m, ks, t.writeNull), k)
         == if k in ks then Some(Entry(c.zero, Null, t.writeNull + c.freshFor, t.writeNull + c.staleFor))
            else Find(m, k)
  {
  }

  lemma FoundStore<K, V>(c: Config<V>, m: Store<K, V>, missing: seq<K>, vs: map<K, V>, t: Readings, k: K)
    ensures Find(WriteNulls(c, WriteAll(c, m, vs, t.write), NotIn(missing, vs), t.writeNull), k)
         == if k in vs then Some(Entry(vs[k], Hit, t.write + c.freshFor, t.write + c.staleFor))
            else if k in missing then Some(Entry(c.zero, Null, t.writeNull + c.freshFor, t.writeNull + c.staleFor))
            else Find(m, k)
  {
    var absent, all := NotIn(missing, vs), WriteAll(c, m, vs, t.write);
    NotInMembers(missing, vs, k);
    WrittenPerKey(c, m, vs, absent, t, k);
    WrittenPerKey(c, all, vs, absent, t, k);
  }

  lemma FoundHits<K, V>(hits: map<K, CacheHit>, missing: seq<K>, vs: map<K, V>, k: K)
    ensures Find(hits + (map x | x in vs :: Hit) + (map x | x in NotIn(missing, vs) :: Null), k)
         == if k in vs then Some(Hit) else if k in missing then Some(Null) else Find(hits, k)
  {
    NotInMembers(missing, vs, k);
  }

  lemma StoreFilled<K, V, E>(c: Config<V>, m: Store<K, V>, missing: seq<K>, f: Fetched<K, V, E>, op: Op,
                             t: Readings, k: K)
    ensures var given := Given(c, k in missing, k, f, op, t);
            Find(FillStore(c, m, missing, f, op, t), k) == if given.Some? then given else Find(m, k)
  {
    match op
    case WriteValue => if f.found.Some? { FoundStore(c, m, missing, f.found.value, t, k); }
    case WriteNull => WrittenPerKey(c, m, map[], missing, t, k);
    case Noop =>
  }

  lemma HitsFilled<K, V, E>(c: Config<V>, hits: map<K, CacheHit>, missing: seq<K>, f: Fetched<K, V, E>, op: Op,
                            t: Readings, k: K)
    ensures var given := Given(c, k in missing, k, f, op, t);
            Find(FillHits(hits, missing, f, op), k) == if given.Some? then Some(given.value.hit) else Find(hits, k)
  {
    if op == WriteValue && f.found.Some? { FoundHits(hits, missing, f.found.value, k); }
  }

  lemma ValuesFilled<K, V, E>(c: Config<V>, values: map<K, V>, missing: seq<K>, f: Fetched<K, V, E>, op: Op,
                              t: Readings, k: K)
    ensures var given := Given(c, k in missing, k, f, op, t);
            Find(FillValues(values, f, op), k)
            == if given.Some? && given.value.hit == Hit then Some(given.value.value) else Find(values, k)
  {
  }

  /** Under Noop nothing is cached: the store only loses the requested entries past their stale
      time, and every missing key is reported as a miss, with the origin's error. */
  lemma NoopCachesNothing<K, V, E>(c: Config<V>, m: Store<K, V>, keys: seq<K>, t: Readings,
                                   origin: seq<K> -> Fetched<K, V, E>, op: Option<E> -> Op)
    requires var asked := SWRMany(c, m, keys, t, origin, op).asked; asked != [] ==> op(origin(asked[0]).err) == Noop
    ensures var a := SWRMany(c, m, keys, t, origin, op);
            && a.store == (map k | k in m && !(k in keys && m[k].staleUntil <= t.look) :: m[k])
            && (forall k :: Gone(m, keys, t.look, k) ==> k in a.hits && a.hits[k] == Miss && k !in a.values)
  {
    var a := SWRMany(c, m, keys, t, origin, op);
    forall k ensures k in a.store <==> k in m && !(k in keys && m[k].staleUntil <= t.look)
             ensures k in a.store ==> a.store[k] == m[k]
    {
      ManyPerKey(c, m, keys, t, origin, op, k);
    }
    forall k | Gone(m, keys, t.look, k) ensures k in a.hits && a.hits[k] == Miss && k !in a.values {
      ManyPerKey(c, m, keys, t, origin, op, k);
    }
  }

  /** No requested key is reported as a miss, and each is reported with what the store now
      says: the usable entry, the fetched value, or null. */
  lemma NoKeyLeftMiss<K, V>(c: Config<V>, m: Store<K, V>, keys: seq<K>, world: map<K, V>, t: Readings, k: K)
    requires k in keys && (k in m ==> m[k].hit != Miss)
    ensures var a := SWRMany(c, m, keys, t, ManyFrom(world), WriteThrough);
            && k in a.hits && k in a.store && a.hits[k] == a.store[k].hit != Miss
            && (a.hits[k] == Hit ==> k in a.values && a.values[k] == a.store[k].value)
  {
    MissingOfDistinct(m, keys, t.look);
    var missing := Missing(m, Distinct(keys), t.look);
    if missing != [] {
      NotInMembers(missing, ManyFrom(world)(missing).found.value, k);
    } else {
      assert k !in missing;
    }
  }

  /** The one difference in refreshing: SWR queues a refresh for every entry that is stale,
      SWRMany not for nulls and not at the very instant freshness ends.  They agree on a key
      if and only if neither is the case. */
  lemma QueueingAgrees<K, V, E>(c: Config<V>, m: Store<K, V>, k: K, now: int,
                                origin: K -> (V, Option<E>), op: Option<E> -> Op)
    requires k in m ==> m[k].hit != Miss
    ensures (SWR(c, m, k, now, now, origin, op).queued <==> ManyQueues(m, k, now, now))
            <==> !(Usable(m, k, now) && (m[k].freshUntil == now || (m[k].hit == Null && m[k].freshUntil < now)))
  {
  }

  // ---------- SWRWithFallback ----------

  predicate Serves<K, V>(m: Store<K, V>, k: K, now: int)
  {
    k in m && (now < m[k].freshUntil || now < m[k].staleUntil)
  }

  /** After a fetch without error SWR reports Null for a key it did not cache, and not Miss,
      exactly when the operation for success is Noop: the hit keeps the zero value of its type. */
  lemma NoopReportsNull<K, V, E>(c: Config<V>, m: Store<K, V>, k: K, now: int, later: int,
                                 origin: K -> (V, Option<E>), op: Option<E> -> Op)
    requires !Serves(m, k, now) && origin(k).1 == None
    ensures var a := SWR(c, m, k, now, later, origin, op); a.hit == Null && k !in a.store <==> op(None) == Noop
  {
  }

  /** The store without the expired ones among `cands`. */
  function DropExpired<K, V>(m: Store<K, V>, cands: seq<K>, now: int): Store<K, V>
  {
    map k | k in m && (k in cands ==> Serves(m, k, now)) :: m[k]
  }

  datatype Served<K(==), V, E> = Served(
    store: Store<K, V>, value: V, hit: CacheHit, err: Option<E>, refresh: Option<K>)

  /** The i-th candidate is the first that can be served.  It is, and refreshed under its own
      key if it is stale and no refresh of that key is under way (`busy`); the expired
      candidates before it are gone. */
  ghost predicate ServedAt<K, V, E>(m: Store<K, V>, busy: set<K>, cands: seq<K>, now: int, i: nat, a: Served<K, V, E>)
  {
    && i < |cands| && Serves(m, cands[i], now)
    && (forall j :: 0 <= j < i ==> !Serves(m, cands[j], now))
    && a == Served(DropExpired(m, cands[..i], now), m[cands[i]].value, m[cands[i]].hit, None,
                   if now < m[cands[i]].freshUntil || cands[i] in busy then None else Some(cands[i]))
  }

  /** None can be served.  The origin decides under which key its value is cached. */
  ghost predicate FetchedFor<K, V, E>(c: Config<V>, m: Store<K, V>, cands: seq<K>, now: int, later: int,
                                      fetched: (V, K, Option<E>), op: Op, a: Served<K, V, E>)
  {
    && (forall j :: 0 <= j < |cands| ==> !Serves(m, cands[j], now))
    && var pruned := DropExpired(m, cands, now);
       a == if fetched.2.Some? then Served(pruned, c.zero, Miss, fetched.2, None)
            else Served(Write(c, pruned, fetched.1, fetched.0, op, later), fetched.0,
                        match op case WriteValue => Hit case WriteNull => Null case Noop => Miss,
                        None, None)
  }

  ghost predicate ServesFirst<K, V, E>(c: Config<V>, m: Store<K, V>, busy: set<K>, cands: seq<K>, now: int, later: int,
                                       fetched: (V, K, Option<E>), op: Op, a: Served<K, V, E>)
  {
    (exists i: nat :: ServedAt(m, busy, cands, now, i, a)) || FetchedFor(c, m, cands, now, later, fetched, op, a)
  }

  // ---------- From write to expiry ----------

  /** A value written at `t` is served by SWR until its fresh time has passed, then served with
      a refresh until its stale time has passed, and then it is gone: the origin's value, error
      and hit are returned, and kept or not as the operation says.  No other key is touched. */
  lemma ServedUntilStale<K, V, E>(c: Config<V>, m: Store<K, V>, k: K, v: V, t: int, now: int, later: int,
                                  origin: K -> (V, Option<E>), op: Option<E> -> Op)
    ensures var m1 := Write(c, m, k, v, WriteValue, t);
            var a := SWR(c, m1, k, now, later, origin, op);
            var (fetched, err) := origin(k);
            && (now < t + c.freshFor ==> a == Answer(m1, v, Hit, None, false))
            && (t + c.freshFor <= now < t + c.staleFor ==> a == Answer(m1, v, Hit, None, true))
            && (t + c.freshFor <= now && t + c.staleFor <= now ==>
                  && a.value == fetched && a.err == err && !a.queued
                  && Find(a.store, k)
                     == (match op(err)
                         case WriteValue => Some(Entry(fetched, Hit, later + c.freshFor, later + c.staleFor))
                         case WriteNull => Some(Entry(c.zero, Null, later + c.freshFor, later + c.staleFor))
                         case Noop => None)
                  && (err.Some? ==> a.hit == Miss) && (err.None? && op(err) == WriteValue ==> a.hit == Hit))
            && (forall x :: x != k ==> Find(a.store, x) == Find(m, x))
  {
  }

  /** A null written at `t` is served likewise. */
  lemma NullUntilStale<K, V, E>(c: Config<V>, m: Store<K, V>, k: K, v: V, t: int, now: int, later: int,
                                origin: K -> (V, Option<E>), op: Option<E> -> Op)
    ensures var m1 := Write(c, m, k, v, WriteNull, t);
            var a := SWR(c, m1, k, now, later, origin, op);
            && (now < t + c.freshFor ==> a == Answer(m1, c.zero, Null, None, false))
            && (t + c.freshFor <= now < t + c.staleFor ==> a == Answer(m1, c.zero, Null, None, true))
  {
  }

  /** Lookups serve a value written at `t` until its stale time has passed, and then drop it. */
  lemma FoundUntilStale<K, V>(c: Config<V>, m: Store<K, V>, k: K, v: V, t: int, keys: seq<K>, now: int)
    requires k in keys
    ensures var m1 := Write(c, m, k, v, WriteValue, t);
            if now < t + c.staleFor then
              && Find(Hits(m1, keys, now), k) == Some(Hit) && Find(Values(m1, keys, now), k) == Some(v)
              && Find(Prune(m1, keys, now), k) == Find(m1, k)
            else
              && Find(Hits(m1, keys, now), k) == Some(Miss) && Find(Values(m1, keys, now), k) == None
              && Find(Prune(m1, keys, now), k) == None
  {
  }

  // ---------- SWRWithFallback against SWR ----------

  /** With one candidate a served entry is served as SWR serves it, and its refresh is queued
      when SWR queues one and none is under way. */
  lemma FallbackServesOne<K, V, E>(c: Config<V>, m: Store<K, V>, busy: set<K>, k: K, now: int, later: int,
                                   fetched: (V, K, Option<E>), op: Op, a: Served<K, V, E>,
                                   origin: K -> (V, Option<E>), one: Option<E> -> Op)
    requires ServesFirst(c, m, busy, [k], now, later, fetched, op, a) && Serves(m, k, now)
    ensures var b := SWR(c, m, k, now, later, origin, one);
            a == Served(b.store, b.value, b.hit, b.err, if b.queued && k !in busy then Some(k) else None)
  {
    assert [k][0] == k && [k][..0] == [] && DropExpired(m, [], now) == m;
    var i: nat :| ServedAt(m, busy, [k], now, i, a);
    assert i == 0;
  }

  /** A fetched one ends as with SWR if there is no error, the origin's key is the candidate and
      the operation writes.  With Noop it is reported as a miss where SWR reports null, and with
      an error nothing is written or returned, whatever the operation. */
  lemma FallbackFetchesOne<K, V, E>(c: Config<V>, m: Store<K, V>, busy: set<K>, k: K, now: int, later: int,
                                    fetched: (V, K, Option<E>), op: Op, a: Served<K, V, E>,
                                    origin: K -> (V, Option<E>), one: Option<E> -> Op)
    requires ServesFirst(c, m, busy, [k], now, later, fetched, op, a) && !Serves(m, k, now)
    requires origin(k) == (fetched.0, fetched.2) && one(fetched.2) == op
    ensures var b := SWR(c, m, k, now, later, origin, one);
            && (fetched.1 == k && fetched.2.None? && op != Noop ==> a == Served(b.store, b.value, b.hit, None, None))
            && (fetched.2.None? && op == Noop ==> a == Served(b.store, b.value, Miss, None, None) && b.hit == Null)
            && (fetched.2.Some? ==> a == Served(m - {k}, c.zero, Miss, fetched.2, None) && b.value == fetched.0)
  {
    assert [k][0] == k;
    assert FetchedFor(c, m, [k], now, later, fetched, op, a);
    assert DropExpired(m, [k], now) == m - {k};
  }

  lemma DropOneFirst<K, V>(m: Store<K, V>, cands: seq<K>, now: int, i: nat)
    requires cands != [] && !Serves(m, cands[0], now) && i <= |cands| - 1
    ensures DropExpired(m - {cands[0]}, cands[1..][..i], now) == DropExpired(m, cands[..i + 1], now)
  {
    assert cands[..i + 1] == [cands[0]] + cands[1..][..i];
  }

  lemma ServedLater<K, V, E>(m: Store<K, V>, busy: set<K>, cands: seq<K>, now: int, i: nat, a: Served<K, V, E>)
    requires cands != [] && !Serves(m, cands[0], now)
    ensures ServedAt(m, busy, cands, now, i + 1, a) <==> ServedAt(m - {cands[0]}, busy, cands[1..], now, i, a)
  {
    var m1, rest := m - {cands[0]}, cands[1..];
    assert forall j :: 0 <= j < |rest| ==> rest[j] == cands[j + 1];
    assert forall x :: Serves(m1, x, now) <==> Serves(m, x, now);
    if i < |rest| {
      DropOneFirst(m, cands, now, i);
      assert (forall j :: 0 <= j < i + 1 ==> !Serves(m, cands[j], now))
        <==> (forall j :: 0 <= j < i ==> !Serves(m1, rest[j], now));
    }
  }

  lemma FetchedLater<K, V, E>(c: Config<V>, m: Store<K, V>, cands: seq<K>, now: int, later: int,
                              fetched: (V, K, Option<E>), op: Op, a: Served<K, V, E>)
    requires cands != [] && !Serves(m, cands[0], now)
    ensures FetchedFor(c, m, cands, now, later, fetched, op, a)
       <==> FetchedFor(c, m - {cands[0]}, cands[1..], now, later, fetched, op, a)
  {
    var m1, rest := m - {cands[0]}, cands[1..];
    assert rest[..|rest|] == rest && cands[..|rest| + 1] == cands;
    DropOneFirst(m, cands, now, |rest|);
    assert forall x :: Serves(m1, x, now) <==> Serves(m, x, now);
    assert forall j :: 0 <= j < |rest| ==> rest[j] == cands[j + 1];
    assert (forall j :: 0 <= j < |cands| ==> !Serves(m, cands[j], now))
      <==> (forall j :: 0 <= j < |rest| ==> !Serves(m1, rest[j], now));
  }

  /** A first candidate that cannot be served counts for nothing but its removal. */
  lemma FallbackSkips<K, V, E>(c: Config<V>, m: Store<K, V>, busy: set<K>, cands: seq<K>, now: int, later: int,
                               fetched: (V, K, Option<E>), op: Op, a: Served<K, V, E>)
    requires cands != [] && !Serves(m, cands[0], now)
    ensures ServesFirst(c, m, busy, cands, now, later, fetched, op, a)
       <==> ServesFirst(c, m - {cands[0]}, busy, cands[1..], now, later, fetched, op, a)
  {
    FetchedLater(c, m, cands, now, later, fetched, op, a);
    if i: nat :| ServedAt(m, busy, cands, now, i, a) {
      assert i > 0;
      ServedLater(m, busy, cands, now, i - 1, a);
    }
    if i: nat :| ServedAt(m - {cands[0]}, busy, cands[1..], now, i, a) {
      ServedLater(m, busy, cands, now, i, a);
    }
  }

  // ---------- Restore ----------

  /** Restoring one dumped entry: it is written like a new value, if it is not expired. */
  function RestoreEntry<K, V>(c: Config<V>, m: Store<K, V>, k: K, e: Entry<V>, now: int, later: int): Store<K, V>
  {
    if now < e.freshUntil || now < e.staleUntil then m[k := ValueEntry(c, e.value, later)] else m
  }

  /** Dump and restore is not a round trip: the entry comes back as it was exactly when it was
      a value whose lifetimes start at the moment of the restore.  A null comes back as a hit,
      and an entry past both its times not at all. */
  lemma RestoreRestamps<K, V>(c: Config<V>, m: Store<K, V>, k: K, e: Entry<V>, now: int, later: int)
    ensures var m' := RestoreEntry(c, m, k, e, now, later);
            if now < e.freshUntil || now < e.staleUntil then
              && k in m' && m'[k].value == e.value && m'[k].hit == Hit && m' - {k} == m - {k}
              && (m'[k] == e <==>
                    e.hit == Hit && e.freshUntil == later + c.freshFor && e.staleUntil == later + c.staleFor)
            else
              m' == m
  {
  }
}

/** The cache object: the methods that read and change the store. */
module Cache {
  import opened Common
  import opened CacheModel
  import M = CacheModel

  class Cache<K(==), V> {
    const config: Config<V>
    var entries: Store<K, V>
    var inflight: set<K>    // keys whose fallback refresh is queued or running

    constructor (c: Config<V>)
      ensures config == c && entries == map[] && inflight == {}
    {
      config := c;
      entries, inflight := map[], {};
    }

    method Get(k: K, now: int) returns (v: V, hit: CacheHit)
      modifies this`entries
      ensures entries == Prune(old(entries), [k], now)
      ensures hit == Hits(old(entries), [k], now)[k]
      ensures v == if Usable(old(entries), k, now) then old(entries)[k].value else config.zero
      ensures old(NoMiss(entries)) ==> NoMiss(entries)
    {
      if k !in entries {
        return config.zero, Miss;
      }
      var e := entries[k];
      if now < e.staleUntil {
        return e.value, e.hit;
      }
      entries := entries - {k};
      return config.zero, Miss;
    }

    method GetMany(keys: seq<K>, now: int) returns (values: map<K, V>, hits: map<K, CacheHit>)
      modifies this`entries
      ensures entries == Prune(old(entries), keys, now)
      ensures values == Values(old(entries), keys, now)
      ensures hits == Hits(old(entries), keys, now)
      ensures old(NoMiss(entries)) ==> NoMiss(entries)
    {
      values, hits := map[], map[];
      for i := 0 to |keys|
        invariant entries == Prune(old(entries), keys[..i], now)
        invariant values == Values(old(entries), keys[..i], now)
        invariant hits == Hits(old(entries), keys[..i], now)
      {
        var key := keys[i];
        assert keys[..i + 1] == keys[..i] + [key];
        LookupSnoc(old(entries), keys[..i], key, now);
        if key !in entries {
          hits := hits[key := Miss];
        } else if now < entries[key].staleUntil {
          values := values[key := entries[key].value];
          hits := hits[key := entries[key].hit];
        } else {
          entries := entries - {key};
          hits := hits[key := Miss];
        }
      }
      assert keys[..|keys|] == keys;
    }

    method Set(k: K, v: V, now: int)
      modifies this`entries
      ensures entries == Write(config, old(entries), k, v, WriteValue, now)
      ensures old(NoMiss(entries)) ==> NoMiss(entries)
    {
      entries := entries[k := Entry(v, Hit, now + config.freshFor, now + config.staleFor)];
    }

    method SetNull(k: K, now: int)
      modifies this`entries
      ensures entries == Write(config, old(entries), k, config.zero, WriteNull, now)
      ensures old(NoMiss(entries)) ==> NoMiss(entries)
    {
      entries := entries[k := Entry(config.zero, Null, now + config.freshFor, now + config.staleFor)];
    }

    method SetMany(values: map<K, V>, now: int)
      modifies this`entries
      ensures entries == WriteAll(config, old(entries), values, now)
      ensures old(NoMiss(entries)) ==> NoMiss(entries)
    {
      var rest := values.Keys;
      while rest != {}
        invariant rest <= values.Keys
        invariant entries.Keys == old(entries).Keys + (values.Keys - rest)
        invariant forall k :: k in values && k !in rest ==> entries[k] == ValueEntry(config, values[k], now)
        invariant forall k :: k in entries && (k !in values || k in rest) ==> entries[k] == old(entries)[k]
        decreases rest
      {
        var key :| key in rest;
        entries := entries[key := ValueEntry(config, values[key], now)];
        rest := rest - {key};
      }
    }

    method SetNullMany(keys: seq<K>, now: int)
      modifies this`entries
      ensures entries == WriteNulls(config, old(entries), keys, now)
      ensures old(NoMiss(entries)) ==> NoMiss(entries)
    {
      assert WriteNulls(config, entries, [], now) == entries;
      for i := 0 to |keys|
        invariant entries == WriteNulls(config, old(entries), keys[..i], now)
      {
        WriteNullsSnoc(config, old(entries), keys[..i], keys[i], now);
        assert keys[..i + 1] == keys[..i] + [keys[i]];
        entries := entries[keys[i] := NullEntry(config, now)];
      }
      assert keys[..|keys|] == keys;
    }

    method SWR<E>(k: K, now: int, later: int, origin: K -> (V, Option<E>), op: Option<E> -> Op)
      returns (v: V, hit: CacheHit, err: Option<E>, queued: bool)
      modifies this`entries
      ensures Answer(entries, v, hit, err, queued) == M.SWR(config, old(entries), k, now, later, origin, op)
      ensures old(NoMiss(entries)) ==> NoMiss(entries)
    {
      if k in entries {
        var e := entries[k];
        if now < e.freshUntil {
          return e.value, e.hit, None, false;
        }
        if now < e.staleUntil {
          return e.value, e.hit, None, true;
        }
        entries := entries - {k};
      }
      assert entries == old(entries) - {k};
      var r := origin(k);
      v, err, queued := r.0, r.1, false;
      match op(err) {
        case WriteValue => Set(k, v, later);
        case WriteNull => SetNull(k, later);
        case Noop =>
      }
      if err.Some? {
        return v, Miss, err, false;
      }
      hit := Null;
      match op(err) {
        case Noop =>
        case WriteValue => hit := Hit;
        case WriteNull => hit := Null;
      }
    }

    /** Whether a looked-up key is to be refreshed: a value past its fresh time. */
    method NeedsRefresh(key: K, hit: CacheHit, check: int, ghost m: Store<K, V>, ghost keys: seq<K>, ghost now: int)
      returns (refresh: bool)
      requires key in keys && hit == Hits(m, keys, now)[key] && entries == Prune(m, keys, now)
      requires NoMiss(m)
      ensures hit == Miss <==> !Usable(m, key, now)
      ensures refresh == ManyQueues(m, key, now, check)
    {
      if hit == Miss || hit == Null {
        return false;
      }
      return key in entries && check > entries[key].freshUntil && check < entries[key].staleUntil;
    }

    /** The split of the requested keys into those to fetch and those to refresh. */
    method Classify(keys: seq<K>, hits: map<K, CacheHit>, check: int, ghost m: Store<K, V>, ghost now: int)
      returns (missing: seq<K>, stale: seq<K>)
      requires hits == Hits(m, keys, now) && entries == Prune(m, keys, now)
      requires NoMiss(m)
      ensures missing == Missing(m, Distinct(keys), now)
      ensures stale == StaleKeys(m, Distinct(keys), now, check)
    {
      missing, stale := [], [];
      var seen: set<K> := {};
      for i := 0 to |keys|
        invariant forall k :: k in seen <==> k in keys[..i]
        invariant missing == Missing(m, Distinct(keys[..i]), now)
        invariant stale == StaleKeys(m, Distinct(keys[..i]), now, check)
      {
        var key := keys[i];
        assert keys[..i + 1] == keys[..i] + [key];
        DistinctSnoc(keys[..i], key, m, now, check);
        if key !in seen {
          seen := seen + {key};
          var refresh := NeedsRefresh(key, hits[key], check, m, keys, now);
          if hits[key] == Miss {
            missing := missing + [key];
          } else if refresh {
            stale := stale + [key];
          }
        }
      }
      assert keys[..|keys|] == keys;
    }

    method Absent(missing: seq<K>, found: map<K, V>) returns (absent: seq<K>)
      ensures absent == NotIn(missing, found)
    {
      absent := [];
      for i := 0 to |missing|
        invariant absent == NotIn(missing[..i], found)
      {
        assert missing[..i + 1][..i] == missing[..i];
        if missing[i] !in found {
          absent := absent + [missing[i]];
        }
      }
      assert missing[..|missing|] == missing;
    }

    /** Writes the origin's answer: the values it found, and null for what it did not. */
    method FillMissing<E>(missing: seq<K>, f: Fetched<K, V, E>, op: Op, t: Readings,
                          values: map<K, V>, hits: map<K, CacheHit>)
      returns (values': map<K, V>, hits': map<K, CacheHit>)
      modifies this`entries
      ensures (entries, values', hits') == Fill(config, old(entries), values, hits, missing, f, op, t)
      ensures old(NoMiss(entries)) ==> NoMiss(entries)
    {
      values', hits' := values, hits;
      match op {
        case WriteValue =>
          if f.found.Some? {
            var vs := f.found.value;
            SetMany(vs, t.write);
            values', hits' := values' + vs, hits' + map k | k in vs :: Hit;
            var absent := Absent(missing, vs);
            if |absent| > 0 {
              SetNullMany(absent, t.writeNull);
            } else {
              WriteNoNulls(config, entries, t.writeNull);
            }
            hits' := hits' + map k | k in absent :: Null;
          }
        case WriteNull =>
          SetNullMany(missing, t.writeNull);
          hits' := hits' + map k | k in missing :: Null;
        case Noop =>
      }
    }

    method SWRMany<E>(keys: seq<K>, t: Readings, origin: seq<K> -> Fetched<K, V, E>, op: Option<E> -> Op)
      returns (values: map<K, V>, hits: map<K, CacheHit>, err: Option<E>, stale: seq<K>, asked: seq<seq<K>>)
      requires NoMiss(entries)
      modifies this`entries
      ensures ManyAnswer(entries, values, hits, err, stale, asked)
           == M.SWRMany(config, old(entries), keys, t, origin, op)
      ensures NoMiss(entries)
    {
      values, hits := GetMany(keys, t.look);
      var missing;
      missing, stale := Classify(keys, hits, t.check, old(entries), t.look);
      err, asked := None, [];
      if |missing| > 0 {
        var f := origin(missing);
        asked, err := [missing], f.err;
        values, hits := FillMissing(missing, f, op(f.err), t, values, hits);
      }
    }

    /** `fetched` is what the origin would return: a value, the key to cache it under, an error. */
    method SWRWithFallback<E>(cands: seq<K>, now: int, later: int, fetched: (V, K, Option<E>), op: Op)
      returns (v: V, hit: CacheHit, err: Option<E>, refresh: Option<K>)
      modifies this
      ensures ServesFirst(config, old(entries), old(inflight), cands, now, later, fetched, op,
                          Served(entries, v, hit, err, refresh))
      ensures inflight == if refresh.Some? then old(inflight) + {refresh.value} else old(inflight)
      ensures old(NoMiss(entries)) ==> NoMiss(entries)
    {
      for i := 0 to |cands|
        invariant entries == DropExpired(old(entries), cands[..i], now) && inflight == old(inflight)
        invariant forall j :: 0 <= j < i ==> !Serves(old(entries), cands[j], now)
      {
        var key := cands[i];
        assert cands[..i + 1] == cands[..i] + [key];
        if key in entries {
          var e := entries[key];
          if now < e.freshUntil {
            assert ServedAt<K, V, E>(old(entries), inflight, cands, now, i,
                                     Served(entries, e.value, e.hit, None, None));
            return e.value, e.hit, None, None;
          }
          if now < e.staleUntil {
            refresh := if key in inflight then None else Some(key);
            assert ServedAt<K, V, E>(old(entries), inflight, cands, now, i,
                                     Served(entries, e.value, e.hit, None, refresh));
            if key !in inflight {
              inflight := inflight + {key};
            }
            return e.value, e.hit, None, refresh;
          }
          entries := entries - {key};
        }
      }
      assert cands[..|cands|] == cands;
      if fetched.2.Some? {
        return config.zero, Miss, fetched.2, None;
      }
      match op {
        case WriteValue =>
          Set(fetched.1, fetched.0, later);
          return fetched.0, Hit, None, None;
        case WriteNull =>
          SetNull(fetched.1, later);
          return fetched.0, Null, None, None;
        case Noop =>
          return fetched.0, Miss, None, None;
      }
    }
  }
}
