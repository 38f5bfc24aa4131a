/** The in-memory counter (pkg/counter/memory.go).

    The source expires entries lazily: an entry past its expiry stays in the map until an
    operation on its key finds it.  `LazyStep` is that behaviour; `EagerStep` is a counter
    whose entries vanish the moment they expire.  They give the same answers in every run
    whose clock does not go back.  Values are 64-bit: sums wrap around.
  */
module CounterModel {
  import opened Common

  const MAX: int := 0x7fff_ffff_ffff_ffff
  const WORD: int := 0x1_0000_0000_0000_0000

  type int64 = x: int | -MAX - 1 <= x <= MAX

  /** The 64-bit value an exact sum is stored as. */
  function Wrap(x: int): int64
  {
    (x + MAX + 1) % WORD - MAX - 1
  }

  lemma {:induction false} WrapAdd(x: int, y: int)
    ensures Wrap(Wrap(x) + y) == Wrap(x + y)
  {
    var k := (x + MAX + 1) / WORD;
    assert Wrap(x) == x - k * WORD;
    WrapPeriod(x + y, k);
  }

  lemma WrapSmall(x: int64)
    ensures Wrap(x as int) == x
  {
  }

  lemma WrapPeriod(x: int, k: int)
    ensures Wrap(x - k * WORD) == Wrap(x)
  {
  }

  /** `expiry` is the time after which the entry is dead; None means never. */
  datatype Entry = Entry(value: int64, expiry: Option<int>)

  type Entries = map<string, Entry>

  predicate Expired(e: Entry, now: int)
  {
    e.expiry.Some? && now > e.expiry.value
  }

  predicate Live(m: Entries, key: string, now: int)
  {
    key in m && !Expired(m[key], now)
  }

  /** A variadic time to live: only the first one counts, and only if it is positive. */
  function Expiry(ttl: seq<int>, now: int): Option<int>
  {
    if |ttl| > 0 && ttl[0] > 0 then Some(now + ttl[0]) else None
  }

  datatype Op =
    | Increment(key: string, value: int64, ttl: seq<int>)
    | Decrement(key: string, value: int64, ttl: seq<int>)
    | Get(key: string)
    | MultiGet(keys: seq<string>)
    | DecrementIfExists(key: string, value: int64)
    | SetIfNotExists(key: string, value: int64, ttl: seq<int>)
    | Delete(key: string)

  datatype Answer =
    | Number(n: int64)
    | Numbers(ns: map<string, int64>)
    | Decremented(left: int64, existed: bool, success: bool)
    | WasSet(stored: bool)
    | Done

  // ---------- The source: lazy expiry ----------

  /** The entry an increment or decrement starts from. */
  function Base(m: Entries, key: string, ttl: seq<int>, now: int): Entry
  {
    if Live(m, key, now) then m[key] else Entry(0, Expiry(ttl, now))
  }

  function Add(e: Entry, delta: int): Entry
  {
    Entry(Wrap(e.value + delta), e.expiry)
  }

  function Drop(m: Entries, key: string): Entries
  {
    m - {key}
  }

  /** The keys among `keys` that a read finds missing or expired are removed. */
  function DropDead(m: Entries, keys: seq<string>, now: int): Entries
  {
    map k | k in m && (k in keys ==> Live(m, k, now)) :: m[k]
  }

  function ReadAll(m: Entries, keys: seq<string>, now: int): map<string, int64>
  {
    map k | k in keys :: if Live(m, k, now) then m[k].value else 0
  }

  function LazyStep(m: Entries, op: Op, now: int): (Entries, Answer)
  {
    match op
    case Increment(key, value, ttl) =>
      var e := Add(Base(m, key, ttl, now), value);
      (m[key := e], Number(e.value))
    case Decrement(key, value, ttl) =>
      var e := Add(Base(m, key, ttl, now), -(value as int));
      (m[key := e], Number(e.value))
    case Get(key) =>
      if Live(m, key, now) then (m, Number(m[key].value)) else (Drop(m, key), Number(0))
    case MultiGet(keys) =>
      (DropDead(m, keys, now), Numbers(ReadAll(m, keys, now)))
    case DecrementIfExists(key, value) =>
      if !Live(m, key, now) then (Drop(m, key), Decremented(0, false, false))
      else if m[key].value < value then (m, Decremented(m[key].value, true, false))
      else
        var e := Add(m[key], -(value as int));
        (m[key := e], Decremented(e.value, true, true))
    case SetIfNotExists(key, value, ttl) =>
      if Live(m, key, now) then (m, WasSet(false))
      else (m[key := Entry(value, Expiry(ttl, now))], WasSet(true))
    case Delete(key) => (Drop(m, key), Done)
  }

  // ---------- The reference: entries vanish when they expire ----------

  /** What is left of `m` at time `now`. */
  function Purge(m: Entries, now: int): Entries
  {
    map k | k in m && !Expired(m[k], now) :: m[k]
  }

  function Lookup(m: Entries, key: string): int64
  {
    if key in m then m[key].value else 0
  }

  /** A counter that never holds a dead entry; it knows nothing of expiry otherwise. */
  function EagerStep(m0: Entries, op: Op, now: int): (Entries, Answer)
  {
    var m := Purge(m0, now);
    match op
    case Increment(key, value, ttl) =>
      var e := Add(if key in m then m[key] else Entry(0, Expiry(ttl, now)), value);
      (m[key := e], Number(e.value))
    case Decrement(key, value, ttl) =>
      var e := Add(if key in m then m[key] else Entry(0, Expiry(ttl, now)), -(value as int));
      (m[key := e], Number(e.value))
    case Get(key) => (m, Number(Lookup(m, key)))
    case MultiGet(keys) => (m, Numbers(map k | k in keys :: Lookup(m, k)))
    case DecrementIfExists(key, value) =>
      if key !in m then (m, Decremented(0, false, false))
      else if m[key].value < value then (m, Decremented(m[key].value, true, false))
      else (m[key := Add(m[key], -(value as int))], Decremented(Add(m[key], -(value as int)).value, true, true))
    case SetIfNotExists(key, value, ttl) =>
      if key in m then (m, WasSet(false)) else (m[key := Entry(value, Expiry(ttl, now))], WasSet(true))
    case Delete(key) => (m - {key}, Done)
  }

  // ---------- Runs ----------

  type Timed = (Op, int)

  predicate Monotone(ops: seq<Timed>)
  {
    forall i, j :: 0 <= i < j < |ops| ==> ops[i].1 <= ops[j].1
  }

  function LazyRun(m: Entries, ops: seq<Timed>): (Entries, seq<Answer>)
    decreases |ops|
  {
    if ops == [] then (m, [])
    else
      var (m1, a) := LazyStep(m, ops[0].0, ops[0].1);
      var (m2, rest) := LazyRun(m1, ops[1..]);
      (m2, [a] + rest)
  }

  function EagerRun(m: Entries, ops: seq<Timed>): (Entries, seq<Answer>)
    decreases |ops|
  {
    if ops == [] then (m, [])
    else
      var (m1, a) := EagerStep(m, ops[0].0, ops[0].1);
      var (m2, rest) := EagerRun(m1, ops[1..]);
      (m2, [a] + rest)
  }

  /** The same live entries at `now`; what else the maps hold does not matter. */
  ghost predicate SameLive(m: Entries, m': Entries, now: int)
  {
    forall k :: Live(m, k, now) == Live(m', k, now) && (Live(m, k, now) ==> m[k] == m'[k])
  }

  /** Dead entries stay dead, so removing them may be put off. */
  lemma SameLiveLater(m: Entries, m': Entries, now: int, later: int)
    requires SameLive(m, m', now) && now <= later
    ensures SameLive(m, m', later)
  {
    forall k ensures Live(m, k, later) == Live(m', k, later) && (Live(m, k, later) ==> m[k] == m'[k]) {
      assert Live(m, k, later) ==> Live(m, k, now);
      assert Live(m', k, later) ==> Live(m', k, now);
    }
  }

  lemma PurgeIsLive(lazy: Entries, eager: Entries, now: int)
    requires SameLive(lazy, eager, now)
    ensures SameLive(lazy, Purge(eager, now), now)
    ensures forall k :: Live(lazy, k, now) <==> k in Purge(eager, now)
    ensures forall k :: k in Purge(eager, now) ==> Purge(eager, now)[k] == lazy[k]
  {
    assert forall k :: Live(Purge(eager, now), k, now) == Live(eager, k, now);
  }

  lemma WriteSame(m: Entries, m': Entries, key: string, e: Entry, now: int)
    requires SameLive(m, m', now)
    ensures SameLive(m[key := e], m'[key := e], now)
  {
    forall k | k != key
      ensures Live(m[key := e], k, now) == Live(m, k, now) && Live(m'[key := e], k, now) == Live(m', k, now) {
    }
  }

  lemma RemoveSame(m: Entries, m': Entries, keys: set<string>, now: int)
    requires SameLive(m, m', now)
    ensures SameLive(m - keys, m' - keys, now)
    ensures (forall k :: k in keys ==> !Live(m, k, now)) ==> SameLive(m - keys, m', now)
  {
    forall k | k !in keys
      ensures Live(m - keys, k, now) == Live(m, k, now) && Live(m' - keys, k, now) == Live(m', k, now) {
    }
  }

  lemma ReadAllSame(m: Entries, m': Entries, keys: seq<string>, now: int)
    requires SameLive(m, m', now) && forall k :: Live(m, k, now) <==> k in m'
    ensures SameLive(DropDead(m, keys, now), m', now)
    ensures ReadAll(m, keys, now) == map k | k in keys :: Lookup(m', k)
  {
    var dead := set k | k in keys && !Live(m, k, now);
    RemoveSame(m, m', dead, now);
    assert DropDead(m, keys, now) == m - dead;
  }

  /** One operation: the same answer, and the same live entries after it. */
  lemma StepRefines(lazy: Entries, eager: Entries, op: Op, now: int)
    requires SameLive(lazy, eager, now)
    ensures LazyStep(lazy, op, now).1 == EagerStep(eager, op, now).1
    ensures SameLive(LazyStep(lazy, op, now).0, EagerStep(eager, op, now).0, now)
  {
    var m := Purge(eager, now);
    PurgeIsLive(lazy, eager, now);
    match op
    case Increment(key, value, ttl) =>
      WriteSame(lazy, m, key, Add(Base(lazy, key, ttl, now), value), now);
    case Decrement(key, value, ttl) =>
      WriteSame(lazy, m, key, Add(Base(lazy, key, ttl, now), -(value as int)), now);
    case Get(key) =>
      RemoveSame(lazy, m, {key}, now);
    case MultiGet(keys) =>
      ReadAllSame(lazy, m, keys, now);
    case DecrementIfExists(key, value) =>
      RemoveSame(lazy, m, {key}, now);
      if Live(lazy, key, now) { WriteSame(lazy, m, key, Add(lazy[key], -(value as int)), now); }
    case SetIfNotExists(key, value, ttl) =>
      WriteSame(lazy, m, key, Entry(value, Expiry(ttl, now)), now);
    case Delete(key) =>
      RemoveSame(lazy, m, {key}, now);
  }

  /** Over every sequence of operations whose clock does not go back, lazy expiry answers
      as eager expiry does. */
  lemma {:induction false} LazyRefinesEager(lazy: Entries, eager: Entries, ops: seq<Timed>, start: int)
    requires Monotone(ops) && (ops != [] ==> start <= ops[0].1)
    requires SameLive(lazy, eager, start)
    ensures LazyRun(lazy, ops).1 == EagerRun(eager, ops).1
    decreases |ops|
  {
    if ops == [] {
    } else {
      var now := ops[0].1;
      SameLiveLater(lazy, eager, start, now);
      StepRefines(lazy, eager, ops[0].0, now);
      assert forall i :: 0 <= i < |ops[1..]| ==> ops[1..][i] == ops[i + 1];
      LazyRefinesEager(LazyStep(lazy, ops[0].0, now).0, EagerStep(eager, ops[0].0, now).0, ops[1..], now);
    }
  }

  // ---------- The ledger of a key ----------

  /** For each key in the map, the exact sum booked on it since it was last created. */
  type Books = map<string, int>

  function Book(m: Entries, books: Books, key: string, now: int): int
  {
    if Live(m, key, now) && key in books then books[key] else 0
  }

  function Post(m: Entries, books: Books, op: Op, now: int): Books
  {
    match op
    case Increment(key, value, _) => books[key := Book(m, books, key, now) + value]
    case Decrement(key, value, _) => books[key := Book(m, books, key, now) - value]
    case Get(key) => if Live(m, key, now) then books else books - {key}
    case MultiGet(keys) => map k | k in books && (k in keys ==> Live(m, k, now)) :: books[k]
    case DecrementIfExists(key, value) =>
      if !Live(m, key, now) then books - {key}
      else if m[key].value < value then books
      else books[key := Book(m, books, key, now) - value]
    case SetIfNotExists(key, value, _) => if Live(m, key, now) then books else books[key := value]
    case Delete(key) => books - {key}
  }

  ghost predicate Balanced(m: Entries, books: Books)
  {
    m.Keys == books.Keys && forall k :: k in m ==> m[k].value == Wrap(books[k])
  }

  function PostAll(m: Entries, books: Books, ops: seq<Timed>): Books
    decreases |ops|
  {
    if ops == [] then books
    else PostAll(LazyStep(m, ops[0].0, ops[0].1).0, Post(m, books, ops[0].0, ops[0].1), ops[1..])
  }

  lemma WriteBalanced(m: Entries, books: Books, key: string, e: Entry, x: int)
    requires Balanced(m, books) && e.value == Wrap(x)
    ensures Balanced(m[key := e], books[key := x])
  {
  }

  lemma AddBalanced(m: Entries, books: Books, key: string, ttl: seq<int>, now: int, delta: int)
    requires Balanced(m, books)
    ensures Balanced(m[key := Add(Base(m, key, ttl, now), delta)], books[key := Book(m, books, key, now) + delta])
  {
    var x := Book(m, books, key, now);
    assert Base(m, key, ttl, now).value == Wrap(x);
    WrapAdd(x, delta);
    WriteBalanced(m, books, key, Add(Base(m, key, ttl, now), delta), x + delta);
  }

  lemma StepBalanced(m: Entries, books: Books, op: Op, now: int)
    requires Balanced(m, books)
    ensures Balanced(LazyStep(m, op, now).0, Post(m, books, op, now))
  {
    match op
    case Increment(key, value, ttl) => AddBalanced(m, books, key, ttl, now, value);
    case Decrement(key, value, ttl) => AddBalanced(m, books, key, ttl, now, -(value as int));
    case DecrementIfExists(key, value) => AddBalanced(m, books, key, [], now, -(value as int));
    case SetIfNotExists(key, value, ttl) =>
      WrapSmall(value);
      WriteBalanced(m, books, key, Entry(value, Expiry(ttl, now)), value);
    case _ =>
  }

  /** Conservation: after every run, a stored value is the initial value plus the increments
      minus the decrements that took effect, modulo 2^64. */
  lemma {:induction false} Conservation(m: Entries, books: Books, ops: seq<Timed>)
    requires Balanced(m, books)
    ensures Balanced(LazyRun(m, ops).0, PostAll(m, books, ops))
    decreases |ops|
  {
    if ops == [] {
    } else {
      StepBalanced(m, books, ops[0].0, ops[0].1);
      Conservation(LazyStep(m, ops[0].0, ops[0].1).0, Post(m, books, ops[0].0, ops[0].1), ops[1..]);
    }
  }

  // ---------- The same from the operations and their answers alone ----------

  /** What an operation with that answer adds to the value of a live key. */
  function Delta(op: Op, a: Answer, key: string): int
  {
    match op
    case Increment(k, value, _) => if k == key then value as int else 0
    case Decrement(k, value, _) => if k == key then -(value as int) else 0
    case DecrementIfExists(k, value) => if k == key && a.Decremented? && a.success then -(value as int) else 0
    case _ => 0
  }

  function Deltas(ops: seq<Timed>, answers: seq<Answer>, key: string): int
    requires |ops| == |answers|
  {
    if ops == [] then 0 else Delta(ops[0].0, answers[0], key) + Deltas(ops[1..], answers[1..], key)
  }

  /** `key` is not deleted, and no operation is later than `expiry`. */
  predicate Outlives(ops: seq<Timed>, key: string, expiry: Option<int>)
  {
    forall i :: 0 <= i < |ops| ==> ops[i].0 != Delete(key) && (expiry.Some? ==> ops[i].1 <= expiry.value)
  }

  lemma {:induction false} OneAnswerEach(m: Entries, ops: seq<Timed>)
    ensures |LazyRun(m, ops).1| == |ops|
    decreases |ops|
  {
    if ops == [] {
    } else {
      OneAnswerEach(LazyStep(m, ops[0].0, ops[0].1).0, ops[1..]);
    }
  }

  lemma DeltaStep(m: Entries, op: Op, now: int, key: string, balance: int)
    requires Live(m, key, now) && op != Delete(key) && m[key].value == Wrap(balance)
    ensures var (m', a) := LazyStep(m, op, now);
            && key in m' && m'[key].expiry == m[key].expiry
            && m'[key].value == Wrap(balance + Delta(op, a, key))
  {
    WrapAdd(balance, Delta(op, LazyStep(m, op, now).1, key));
  }

  /** As long as a key lives, its value is the exact balance it started with plus the increments
      minus the decrements that were made or answered as successful, modulo 2^64; its expiry
      stays. */
  lemma {:induction false} LifetimeBalance(m: Entries, ops: seq<Timed>, key: string, balance: int)
    requires key in m && m[key].value == Wrap(balance) && Outlives(ops, key, m[key].expiry)
    ensures var (m', answers) := LazyRun(m, ops);
            && |answers| == |ops| && key in m' && m'[key].expiry == m[key].expiry
            && m'[key].value == Wrap(balance + Deltas(ops, answers, key))
    decreases |ops|
  {
    OneAnswerEach(m, ops);
    if ops == [] {
    } else {
      var (m1, a) := LazyStep(m, ops[0].0, ops[0].1);
      DeltaStep(m, ops[0].0, ops[0].1, key, balance);
      assert forall i :: 0 <= i < |ops[1..]| ==> ops[1..][i] == ops[i + 1];
      LifetimeBalance(m1, ops[1..], key, balance + Delta(ops[0].0, a, key));
      var answers := LazyRun(m, ops).1;
      assert answers[0] == a && answers[1..] == LazyRun(m1, ops[1..]).1;
    }
  }

  /** The operation makes an entry for `key` where there is none: its value and its expiry. */
  function Opening(op: Op, key: string, now: int): Option<(int, Option<int>)>
  {
    match op
    case Increment(k, value, ttl) => if k == key then Some((value as int, Expiry(ttl, now))) else None
    case Decrement(k, value, ttl) => if k == key then Some((-(value as int), Expiry(ttl, now))) else None
    case SetIfNotExists(k, value, ttl) => if k == key then Some((value as int, Expiry(ttl, now))) else None
    case _ => None
  }

  lemma Opens(m: Entries, op: Op, now: int, key: string, opening: int, expiry: Option<int>)
    requires !Live(m, key, now) && Opening(op, key, now) == Some((opening, expiry))
    ensures var m' := LazyStep(m, op, now).0; key in m' && m'[key] == Entry(Wrap(opening), expiry)
  {
    if op.SetIfNotExists? { WrapSmall(op.value); }
  }

  /** From its creation on: the value is what it was created with plus what was added since,
      until it expires by the time to live it was created with. */
  lemma BalanceSinceCreation(m: Entries, op: Op, now: int, m1: Entries, ops: seq<Timed>, key: string,
                             opening: int, expiry: Option<int>)
    requires !Live(m, key, now) && Opening(op, key, now) == Some((opening, expiry)) && Outlives(ops, key, expiry)
    requires m1 == LazyStep(m, op, now).0
    ensures var (m', answers) := LazyRun(m1, ops);
            && |answers| == |ops| && key in m' && m'[key].expiry == expiry
            && m'[key].value == Wrap(opening + Deltas(ops, answers, key))
  {
    Opens(m, op, now, key, opening, expiry);
    LifetimeBalance(m1, ops, key, opening);
  }

  // ---------- Expiry, in clock readings ----------

  /** A key created at `created` is still there at `t`: always, or up to the first time to live
      given with it, if that is positive. */
  predicate StillThere(ttl: seq<int>, created: int, t: int)
  {
    if ttl == [] || ttl[0] <= 0 then true else t <= created + ttl[0]
  }

  /** `op` creates `key` with this value and time to live. */
  predicate Creates(op: Op, key: string, opening: int, ttl: seq<int>)
  {
    match op
    case Increment(k, value, ttl') => k == key && opening == value as int && ttl == ttl'
    case Decrement(k, value, ttl') => k == key && opening == -(value as int) && ttl == ttl'
    case SetIfNotExists(k, value, ttl') => k == key && opening == value as int && ttl == ttl'
    case _ => false
  }

  /** What every operation on `key` is answered at `t`, when its value is `n` or it is not there. */
  ghost predicate AnswersFor(m: Entries, key: string, t: int, there: bool, n: int64)
  {
    && LazyStep(m, Get(key), t).1 == Number(if there then n else 0)
    && (forall keys :: key in keys ==>
          var a := LazyStep(m, MultiGet(keys), t).1;
          a.Numbers? && key in a.ns && a.ns[key] == if there then n else 0)
    && (forall v, ttl :: LazyStep(m, Increment(key, v, ttl), t).1 == Number(Wrap((if there then n else 0) + v)))
    && (forall v, ttl :: LazyStep(m, Decrement(key, v, ttl), t).1 == Number(Wrap((if there then n else 0) - v)))
    && (forall v :: LazyStep(m, DecrementIfExists(key, v), t).1
                    == if !there then Decremented(0, false, false)
                       else if n < v then Decremented(n, true, false)
                       else Decremented(Wrap(n - v), true, true))
    && (forall v, ttl :: LazyStep(m, SetIfNotExists(key, v, ttl), t).1 == WasSet(!there))
  }

  lemma AnswersIfLive(m: Entries, key: string, t: int, there: bool, n: int64)
    requires there ==> Live(m, key, t) && m[key].value == n
    requires !there ==> !Live(m, key, t)
    ensures AnswersFor(m, key, t, there, n)
  {
  }

  /** A key is live up to its expiry, and not after it. */
  lemma ThereByClock(m: Entries, op: Op, created: int, m1: Entries, ops: seq<Timed>, key: string,
                     opening: int, ttl: seq<int>, t: int)
    requires !Live(m, key, created) && Creates(op, key, opening, ttl) && m1 == LazyStep(m, op, created).0
    requires forall i :: 0 <= i < |ops| ==> ops[i].0 != Delete(key) && StillThere(ttl, created, ops[i].1)
    ensures var (m', answers) := LazyRun(m1, ops);
            && |answers| == |ops| && key in m' && m'[key].value == Wrap(opening + Deltas(ops, answers, key))
            && (Live(m', key, t) <==> StillThere(ttl, created, t))
  {
    BalanceSinceCreation(m, op, created, m1, ops, key, opening, Expiry(ttl, created));
  }

  /** Between its creation and its expiry a key answers with its balance, and after its expiry
      as one that was never there: in clock readings, for every operation, whatever was done to
      it in the meantime short of deleting it. */
  lemma AnswersByClock(m: Entries, op: Op, created: int, m1: Entries, ops: seq<Timed>, m2: Entries,
                       answers: seq<Answer>, key: string, opening: int, ttl: seq<int>, t: int)
    requires !Live(m, key, created) && Creates(op, key, opening, ttl) && m1 == LazyStep(m, op, created).0
    requires forall i :: 0 <= i < |ops| ==> ops[i].0 != Delete(key) && StillThere(ttl, created, ops[i].1)
    requires (m2, answers) == LazyRun(m1, ops)
    ensures |answers| == |ops|
    ensures AnswersFor(m2, key, t, StillThere(ttl, created, t), Wrap(opening + Deltas(ops, answers, key)))
  {
    ThereByClock(m, op, created, m1, ops, key, opening, ttl, t);
    AnswersIfLive(m2, key, t, StillThere(ttl, created, t), m2[key].value);
  }

  /** A deleted key answers as one that was never there. */
  lemma DeleteForgets(m: Entries, key: string, now: int, t: int)
    ensures AnswersFor(LazyStep(m, Delete(key), now).0, key, t, false, 0)
  {
    AnswersIfLive(LazyStep(m, Delete(key), now).0, key, t, false, 0);
  }

  /** The credit discipline: values are set and raised by non-negative amounts and lowered
      only by the checked decrement, by positive amounts. */
  predicate Credit(op: Op)
  {
    match op
    case Increment(_, value, _) => value >= 0
    case SetIfNotExists(_, value, _) => value >= 0
    case DecrementIfExists(_, value) => value > 0
    case Decrement(_, _, _) => false
    case _ => true
  }

  predicate NoneNegative(m: Entries)
  {
    forall k :: k in m ==> m[k].value >= 0
  }

  predicate NoneOver(books: Books)
  {
    forall k :: k in books ==> books[k] <= MAX
  }

  predicate NeverNegative(m: Entries, ops: seq<Timed>)
    decreases |ops|
  {
    NoneNegative(m) && (ops != [] ==> NeverNegative(LazyStep(m, ops[0].0, ops[0].1).0, ops[1..]))
  }

  predicate NeverOver(m: Entries, books: Books, ops: seq<Timed>)
    decreases |ops|
  {
    && NoneOver(books)
    && (ops != [] ==>
          NeverOver(LazyStep(m, ops[0].0, ops[0].1).0, Post(m, books, ops[0].0, ops[0].1), ops[1..]))
  }

  lemma CreditStep(m: Entries, books: Books, op: Op, now: int)
    requires Balanced(m, books) && Credit(op)
    requires forall k :: k in books ==> 0 <= books[k] <= MAX
    ensures forall k :: k in Post(m, books, op, now) ==> 0 <= Post(m, books, op, now)[k] < WORD
  {
    if op.DecrementIfExists? && op.key in m {
      assert m[op.key].value == books[op.key];
    }
  }

  /** A balance that fits 65 bits is stored as a negative value exactly when it overflows. */
  lemma NegativeIffOver(m: Entries, books: Books)
    requires Balanced(m, books) && forall k :: k in books ==> 0 <= books[k] < WORD
    ensures NoneNegative(m) <==> NoneOver(books)
  {
    assert forall k :: k in books ==> (m[k].value >= 0 <==> books[k] <= MAX);
  }

  /** Under the credit discipline no stored value is ever negative if and only if no exact
      balance ever exceeds the largest 64-bit integer. */
  lemma {:induction false} CreditNeverNegative(m: Entries, books: Books, ops: seq<Timed>)
    requires Balanced(m, books) && forall k :: k in books ==> 0 <= books[k] < WORD
    requires forall i :: 0 <= i < |ops| ==> Credit(ops[i].0)
    ensures NeverNegative(m, ops) <==> NeverOver(m, books, ops)
    decreases |ops|
  {
    NegativeIffOver(m, books);
    if ops == [] || !NoneOver(books) {
    } else {
      CreditStep(m, books, ops[0].0, ops[0].1);
      StepBalanced(m, books, ops[0].0, ops[0].1);
      assert forall i :: 0 <= i < |ops[1..]| ==> ops[1..][i] == ops[i + 1];
      CreditNeverNegative(LazyStep(m, ops[0].0, ops[0].1).0, Post(m, books, ops[0].0, ops[0].1), ops[1..]);
    }
  }

  /** Every stored value is its exact balance, not just its residue. */
  predicate Exact(m: Entries, books: Books)
  {
    m.Keys == books.Keys && forall k :: k in m ==> m[k].value == books[k]
  }

  predicate AlwaysExact(m: Entries, books: Books, ops: seq<Timed>)
    decreases |ops|
  {
    && Exact(m, books)
    && (ops != [] ==>
          AlwaysExact(LazyStep(m, ops[0].0, ops[0].1).0, Post(m, books, ops[0].0, ops[0].1), ops[1..]))
  }

  lemma ExactIffNotOver(m: Entries, books: Books)
    requires Balanced(m, books) && forall k :: k in books ==> 0 <= books[k] < WORD
    ensures Exact(m, books) <==> NoneOver(books)
    ensures NoneOver(books) ==> NoneNegative(m)
  {
    assert forall k :: k in books ==> (m[k].value == books[k] <==> books[k] <= MAX);
  }

  /** Under the credit discipline every value is throughout the run what was there initially
      plus the increments minus the decrements that took effect, exactly, if and only if no
      balance ever exceeds the largest 64-bit integer; so it is at the end. */
  lemma {:induction false} ExactBalance(m: Entries, books: Books, ops: seq<Timed>)
    requires Balanced(m, books) && forall k :: k in books ==> 0 <= books[k] < WORD
    requires forall i :: 0 <= i < |ops| ==> Credit(ops[i].0)
    ensures AlwaysExact(m, books, ops) <==> NeverOver(m, books, ops)
    ensures NeverOver(m, books, ops) ==>
      Exact(LazyRun(m, ops).0, PostAll(m, books, ops)) && NoneNegative(LazyRun(m, ops).0)
    decreases |ops|
  {
    ExactIffNotOver(m, books);
    if ops == [] || !NoneOver(books) {
    } else {
      CreditStep(m, books, ops[0].0, ops[0].1);
      StepBalanced(m, books, ops[0].0, ops[0].1);
      assert forall i :: 0 <= i < |ops[1..]| ==> ops[1..][i] == ops[i + 1];
      ExactBalance(LazyStep(m, ops[0].0, ops[0].1).0, Post(m, books, ops[0].0, ops[0].1), ops[1..]);
    }
  }

  /** The balance of `key`, as operations and answers give it, never exceeds the largest
      64-bit integer. */
  predicate WithinMax(ops: seq<Timed>, answers: seq<Answer>, key: string, balance: int)
    requires |ops| == |answers|
  {
    && balance <= MAX
    && (ops != [] ==> WithinMax(ops[1..], answers[1..], key, balance + Delta(ops[0].0, answers[0], key)))
  }

  /** The value of `key` is that balance throughout. */
  predicate ExactThroughout(m: Entries, ops: seq<Timed>, key: string, balance: int)
    decreases |ops|
  {
    && key in m && m[key].value == balance
    && (ops != [] ==>
          var (m1, a) := LazyStep(m, ops[0].0, ops[0].1);
          ExactThroughout(m1, ops[1..], key, balance + Delta(ops[0].0, a, key)))
  }

  lemma CreditDelta(m: Entries, op: Op, now: int, key: string)
    requires Live(m, key, now) && Credit(op) && m[key].value >= 0
    ensures 0 <= m[key].value + Delta(op, LazyStep(m, op, now).1, key) < WORD
  {
  }

  lemma WrapExact(x: int)
    requires 0 <= x < WORD
    ensures Wrap(x) == x <==> x <= MAX
  {
  }

  /** One key as long as it lives, from operations and answers alone: under the credit
      discipline its value is the exact balance throughout if and only if that balance never
      exceeds the largest 64-bit integer; so it is at the end, and not negative. */
  lemma {:induction false} ExactLifetime(m: Entries, ops: seq<Timed>, key: string, balance: int)
    requires key in m && m[key].value == Wrap(balance) && 0 <= balance < WORD && Outlives(ops, key, m[key].expiry)
    requires forall i :: 0 <= i < |ops| ==> Credit(ops[i].0)
    ensures var (m', answers) := LazyRun(m, ops);
            && |answers| == |ops| && key in m' && m'[key].expiry == m[key].expiry
            && (ExactThroughout(m, ops, key, balance) <==> WithinMax(ops, answers, key, balance))
            && (WithinMax(ops, answers, key, balance) ==> m'[key].value == balance + Deltas(ops, answers, key) >= 0)
    decreases |ops|
  {
    LifetimeBalance(m, ops, key, balance);
    WrapExact(balance);
    if ops == [] || balance > MAX {
    } else {
      ExactStep(m, ops, key, balance);
    }
  }

  lemma {:induction false} ExactStep(m: Entries, ops: seq<Timed>, key: string, balance: int)
    requires key in m && m[key].value == balance >= 0 && ops != [] && Outlives(ops, key, m[key].expiry)
    requires forall i :: 0 <= i < |ops| ==> Credit(ops[i].0)
    ensures var (m', answers) := LazyRun(m, ops);
            && |answers| == |ops| && key in m'
            && (ExactThroughout(m, ops, key, balance) <==> WithinMax(ops, answers, key, balance))
            && (WithinMax(ops, answers, key, balance) ==> m'[key].value == balance + Deltas(ops, answers, key) >= 0)
    decreases |ops|, 0
  {
    OneAnswerEach(m, ops);
    var (m1, a) := LazyStep(m, ops[0].0, ops[0].1);
    WrapSmall(balance);
    DeltaStep(m, ops[0].0, ops[0].1, key, balance);
    CreditDelta(m, ops[0].0, ops[0].1, key);
    assert forall i :: 0 <= i < |ops[1..]| ==> ops[1..][i] == ops[i + 1];
    ExactLifetime(m1, ops[1..], key, balance + Delta(ops[0].0, a, key));
    var answers := LazyRun(m, ops).1;
    assert answers[0] == a && answers[1..] == LazyRun(m1, ops[1..]).1;
  }

  /** The same from the operation that created the key. */
  lemma ExactSinceCreation(m: Entries, op: Op, now: int, m1: Entries, ops: seq<Timed>, key: string,
                           opening: int, expiry: Option<int>)
    requires !Live(m, key, now) && Opening(op, key, now) == Some((opening, expiry)) && Outlives(ops, key, expiry)
    requires m1 == LazyStep(m, op, now).0
    requires Credit(op) && forall i :: 0 <= i < |ops| ==> Credit(ops[i].0)
    ensures var (m', answers) := LazyRun(m1, ops);
            && |answers| == |ops| && key in m' && m'[key].expiry == expiry
            && (ExactThroughout(m1, ops, key, opening) <==> WithinMax(ops, answers, key, opening))
            && (WithinMax(ops, answers, key, opening) ==> m'[key].value == opening + Deltas(ops, answers, key) >= 0)
  {
    Opens(m, op, now, key, opening, expiry);
    ExactLifetime(m1, ops, key, opening);
  }

  /** Without the bound the value does go negative: two increments by the largest integer. */
  lemma OverflowGoesNegative()
    ensures var ops := [(Increment("k", MAX, []), 0), (Increment("k", MAX, []), 0)];
            "k" in LazyRun(map[], ops).0 && LazyRun(map[], ops).0["k"].value == -2
  {
    var one := LazyStep(map[], Increment("k", MAX, []), 0).0;
    var two := LazyStep(one, Increment("k", MAX, []), 0).0;
    var ops: seq<Timed> := [(Increment("k", MAX, []), 0), (Increment("k", MAX, []), 0)];
    assert ops[1..] == [(Increment("k", MAX, []), 0)];
    assert LazyRun(one, ops[1..]).0 == two by {
      assert ops[1..][1..] == [];
    }
    assert LazyRun(map[], ops).0 == two;
  }
}

/** The counter object: every method rewrites `entries` under the source's lock. */
module MemoryCounter {
  import opened Common
  import opened CounterModel

  class Counter {
    var entries: Entries

    constructor ()
      ensures entries == map[]
    {
      entries := map[];
    }

    method Increment(key: string, value: int64, ttl: seq<int>, now: int) returns (n: int64)
      modifies this
      ensures (entries, Number(n)) == LazyStep(old(entries), Op.Increment(key, value, ttl), now)
    {
      var e;
      if key in entries && !Expired(entries[key], now) {
        e := entries[key];
      } else {
        e := Entry(0, None);
        if |ttl| > 0 && ttl[0] > 0 {
          e := e.(expiry := Some(now + ttl[0]));
        }
      }
      e := e.(value := Wrap(e.value + value));
      entries := entries[key := e];
      return e.value;
    }

    method Decrement(key: string, value: int64, ttl: seq<int>, now: int) returns (n: int64)
      modifies this
      ensures (entries, Number(n)) == LazyStep(old(entries), Op.Decrement(key, value, ttl), now)
    {
      var e;
      if key in entries && !Expired(entries[key], now) {
        e := entries[key];
      } else {
        e := Entry(0, None);
        if |ttl| > 0 && ttl[0] > 0 {
          e := e.(expiry := Some(now + ttl[0]));
        }
      }
      e := e.(value := Wrap(e.value - value));
      entries := entries[key := e];
      return e.value;
    }

    method Get(key: string, now: int) returns (n: int64)
      modifies this
      ensures (entries, Number(n)) == LazyStep(old(entries), Op.Get(key), now)
    {
      if key !in entries || Expired(entries[key], now) {
        entries := entries - {key};
        return 0;
      }
      return entries[key].value;
    }

    method MultiGet(keys: seq<string>, now: int) returns (result: map<string, int64>)
      modifies this
      ensures (entries, Numbers(result)) == LazyStep(old(entries), Op.MultiGet(keys), now)
    {
      result := map[];
      for i := 0 to |keys|
        invariant entries == DropDead(old(entries), keys[..i], now)
        invariant result == ReadAll(old(entries), keys[..i], now)
      {
        var key := keys[i];
        assert keys[..i + 1] == keys[..i] + [key];
        if key in entries && !Expired(entries[key], now) {
          result := result[key := entries[key].value];
        } else {
          entries := entries - {key};
          result := result[key := 0];
        }
      }
      assert keys[..|keys|] == keys;
    }

    method DecrementIfExists(key: string, value: int64, now: int)
      returns (left: int64, existed: bool, success: bool)
      modifies this
      ensures (entries, Decremented(left, existed, success))
           == LazyStep(old(entries), Op.DecrementIfExists(key, value), now)
    {
      if key !in entries || Expired(entries[key], now) {
        entries := entries - {key};
        return 0, false, false;
      }
      var e := entries[key];
      if e.value < value {
        return e.value, true, false;
      }
      e := e.(value := Wrap(e.value - value));
      entries := entries[key := e];
      return e.value, true, true;
    }

    method SetIfNotExists(key: string, value: int64, ttl: seq<int>, now: int) returns (stored: bool)
      modifies this
      ensures (entries, WasSet(stored)) == LazyStep(old(entries), Op.SetIfNotExists(key, value, ttl), now)
    {
      if key in entries && !Expired(entries[key], now) {
        return false;
      }
      var e := Entry(value, None);
      if |ttl| > 0 && ttl[0] > 0 {
        e := e.(expiry := Some(now + ttl[0]));
      }
      entries := entries[key := e];
      return true;
    }

    method Delete(key: string, now: int)
      modifies this
      ensures (entries, Done) == LazyStep(old(entries), Op.Delete(key), now)
    {
      entries := entries - {key};
    }
  }
}
