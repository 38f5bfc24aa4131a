/** Keyset paging over key_last_used_v1 (pkg/clickhouse/key_last_used.go), and the loop that
    drains one partition page by page (svc/ctrl/worker/keylastusedsync).

    The query filters rows by `time >= cursor.time` before it takes the maximum per group,
    keeps the groups after the composite cursor (time, key_id), orders by it and limits.
    The table is fixed during a drain.  `hash` stands for cityHash64.
  */
module KeyPaging {
  import opened Common

  /** One stored row; also one output row, whose time is then the group's maximum. */
  datatype Row = Row(workspace: string, keySpace: string, key: string, time: int)

  datatype Cursor = Cursor(time: int, key: string)

  predicate SameGroup(r: Row, s: Row)
  {
    r.workspace == s.workspace && r.keySpace == s.keySpace && r.key == s.key
  }

  // ---------- The order of the pages ----------

  /** Byte-wise order of strings. */
  predicate StringLess(a: string, b: string)
  {
    if b == [] then false
    else if a == [] then true
    else a[0] < b[0] || (a[0] == b[0] && StringLess(a[1..], b[1..]))
  }

  lemma {:induction false} StringOrder(a: string, b: string)
    ensures !(StringLess(a, b) && StringLess(b, a))
    ensures StringLess(a, b) || StringLess(b, a) || a == b
    ensures !StringLess(a, a)
  {
    if a == [] || b == [] || a[0] != b[0] {
    } else {
      StringOrder(a[1..], b[1..]);
      assert a == [a[0]] + a[1..] && b == [b[0]] + b[1..];
    }
    if a == [] {
    } else {
      StringOrder(a[1..], a[1..]);
    }
  }

  lemma {:induction false} StringTransitive(a: string, b: string, c: string)
    requires StringLess(a, b) && StringLess(b, c)
    ensures StringLess(a, c)
  {
    if a == [] || b[0] != a[0] || c[0] != a[0] {
    } else {
      StringTransitive(a[1..], b[1..], c[1..]);
    }
  }

  /** Up to some place the strings are equal, and there `a` ends or has the smaller character. */
  ghost predicate DiffersAt(a: string, b: string, k: nat)
  {
    k <= |a| && k < |b| && a[..k] == b[..k] && (k == |a| || a[k] < b[k])
  }

  lemma {:induction false} StringLessIff(a: string, b: string)
    ensures StringLess(a, b) <==> exists k :: DiffersAt(a, b, k)
  {
    forall k: nat | k > 0 && DiffersAt(a, b, k) ensures a != [] && b != [] && a[0] == b[0] {
      assert a[..k][0] == a[0] && b[..k][0] == b[0];
    }
    if a == [] || b == [] || a[0] != b[0] {
      assert StringLess(a, b) ==> DiffersAt(a, b, 0);
    } else {
      StringLessIff(a[1..], b[1..]);
      if k: nat :| DiffersAt(a[1..], b[1..], k) {
        assert a[..k + 1] == [a[0]] + a[1..][..k] && b[..k + 1] == [b[0]] + b[1..][..k];
        assert DiffersAt(a, b, k + 1);
      }
      if k: nat :| DiffersAt(a, b, k) {
        assert k > 0 && a[1..][..k - 1] == a[..k][1..] && b[1..][..k - 1] == b[..k][1..];
        assert DiffersAt(a[1..], b[1..], k - 1);
      }
    }
  }

  /** The row lies after the cursor: HAVING, and the order of the output. */
  predicate After(c: Cursor, r: Row)
  {
    r.time > c.time || (r.time == c.time && StringLess(c.key, r.key))
  }

  function At(r: Row): Cursor { Cursor(r.time, r.key) }

  predicate Less(r: Row, s: Row) { After(At(r), s) }

  lemma AfterTransitive(c: Cursor, r: Row, s: Row)
    requires After(c, r) && Less(r, s)
    ensures After(c, s)
  {
    if r.time == c.time && s.time == r.time { StringTransitive(c.key, r.key, s.key); }
  }

  lemma LessAsymmetric(r: Row, s: Row)
    ensures !(Less(r, s) && Less(s, r)) && !Less(r, r)
  {
    StringOrder(r.key, s.key);
  }

  // ---------- The query ----------

  function Matching(t: set<Row>, hash: string -> nat, n: nat, p: nat): set<Row>
    requires n > 0
  {
    set r | r in t && hash(r.key) % n == p
  }

  predicate IsLatest(s: set<Row>, r: Row)
  {
    forall x :: x in s && SameGroup(x, r) ==> x.time <= r.time
  }

  /** The latest row of every group, as max(time) with GROUP BY gives it. */
  function Latest(s: set<Row>): set<Row>
  {
    set r | r in s && IsLatest(s, r)
  }

  /** The rows of `s` after the cursor. */
  function Beyond(s: set<Row>, c: Cursor): set<Row>
  {
    set r | r in s && After(c, r)
  }

  /** The groups the query selects: rows before the cursor's time are gone before the
      maximum is taken. */
  function Selected(t: set<Row>, c: Cursor, hash: string -> nat, n: nat, p: nat): set<Row>
    requires n > 0
  {
    Beyond(Latest(set r | r in Matching(t, hash, n, p) && r.time >= c.time), c)
  }

  /** The same groups when the filter is left out. */
  function Later(t: set<Row>, c: Cursor, hash: string -> nat, n: nat, p: nat): set<Row>
    requires n > 0
  {
    Beyond(Latest(Matching(t, hash, n, p)), c)
  }

  /** Filtering before aggregating changes nothing. */
  lemma FilterFirst(t: set<Row>, c: Cursor, hash: string -> nat, n: nat, p: nat)
    requires n > 0
    ensures Selected(t, c, hash, n, p) == Later(t, c, hash, n, p)
  {
    var all := Matching(t, hash, n, p);
    var filtered := set r | r in all && r.time >= c.time;
    forall r | r in all && r.time >= c.time
      ensures IsLatest(all, r) <==> IsLatest(filtered, r)
    {
      if IsLatest(filtered, r) {
        forall x | x in all && SameGroup(x, r) ensures x.time <= r.time {
          if x.time >= c.time { assert x in filtered; }
        }
      }
    }
  }

  // ---------- The same in terms of the stored rows ----------

  /** No stored row of the same workspace, key space and key is later. */
  ghost predicate LastUse(t: set<Row>, r: Row)
  {
    && r in t
    && forall x :: x in t && x.workspace == r.workspace && x.keySpace == r.keySpace && x.key == r.key ==>
         x.time <= r.time
  }

  /** In the partition, and strictly after the cursor by time and then by key id. */
  ghost predicate Due(r: Row, c: Cursor, hash: string -> nat, n: nat, p: nat)
    requires n > 0
  {
    hash(r.key) % n == p && (c.time < r.time || (c.time == r.time && StringLess(c.key, r.key)))
  }

  lemma LaterIff(t: set<Row>, c: Cursor, hash: string -> nat, n: nat, p: nat, r: Row)
    requires n > 0
    ensures r in Later(t, c, hash, n, p) <==> LastUse(t, r) && Due(r, c, hash, n, p)
  {
    var all := Matching(t, hash, n, p);
    if r in all && IsLatest(all, r) {
      forall x | x in t && x.workspace == r.workspace && x.keySpace == r.keySpace && x.key == r.key
        ensures x.time <= r.time
      {
        assert x in all && SameGroup(x, r);
      }
    }
  }

  lemma Fewer(a: set<Row>, b: set<Row>, x: Row)
    requires a <= b - {x} && x in b
    ensures |a| < |b|
  {
    var rest := b - a;
    assert x in rest && b == a + rest;
    assert |b| == |a| + |rest|;
  }

  /** Every stored row has a last use of its group, not before it. */
  lemma {:induction false} HasLastUse(t: set<Row>, r: Row) returns (x: Row)
    requires r in t
    ensures LastUse(t, x) && r.time <= x.time
    ensures x.workspace == r.workspace && x.keySpace == r.keySpace && x.key == r.key
    decreases |set y | y in t && y.time > r.time|
  {
    if LastUse(t, r) {
      x := r;
    } else {
      var y :| y in t && y.workspace == r.workspace && y.keySpace == r.keySpace && y.key == r.key && y.time > r.time;
      var later, later' := set z | z in t && z.time > r.time, set z | z in t && z.time > y.time;
      assert later' <= later - {y};
      Fewer(later', later, y);
      x := HasLastUse(t, y);
    }
  }

  // ---------- ORDER BY ----------

  /** Sorted by (last_used, key_id), each row once.  Rows that tie stand in any order. */
  ghost predicate Sorted(rows: seq<Row>)
  {
    forall i, j :: 0 <= i < j < |rows| ==> rows[i] != rows[j] && !Less(rows[j], rows[i])
  }

  /** What ORDER BY may return for the groups `s`. */
  ghost predicate IsListing(s: set<Row>, rows: seq<Row>)
  {
    Sorted(rows) && forall r :: r in rows <==> r in s
  }

  /** `engine` answers the query without its LIMIT.  The order of ties may differ from cursor to
      cursor, and a drain asks for each cursor once, so every behaviour of the engine is one
      such function. */
  ghost predicate Answers(engine: Cursor -> seq<Row>, all: set<Row>)
  {
    forall c :: IsListing(Beyond(all, c), engine(c))
  }

  /** No two groups share both their last use and their key id. */
  ghost predicate NoTwins(s: set<Row>)
  {
    forall r, x :: r in s && x in s && At(r) == At(x) ==> r == x
  }

  lemma TieOrLess(r: Row, s: Row)
    ensures Less(r, s) || Less(s, r) || At(r) == At(s)
    ensures At(r) == At(s) ==> !Less(r, s)
  {
    StringOrder(r.key, s.key);
  }

  lemma {:induction false} HasLeast(s: set<Row>) returns (m: Row)
    requires s != {}
    ensures m in s && forall x :: x in s ==> !Less(x, m)
    decreases |s|
  {
    var r :| r in s;
    if s == {r} {
      m := r;
      LessAsymmetric(r, r);
    } else {
      var rest := s - {r};
      assert s == rest + {r};
      m := HasLeast(rest);
      LessAsymmetric(r, m);
      if Less(r, m) {
        forall x | x in rest ensures !Less(x, r) {
          if Less(x, r) { AfterTransitive(At(x), r, m); }
        }
        LessAsymmetric(r, r);
        m := r;
      }
    }
  }

  /** Every set of groups can be listed. */
  lemma {:induction false} HasListing(s: set<Row>) returns (rows: seq<Row>)
    ensures IsListing(s, rows)
    decreases |s|
  {
    if s == {} {
      rows := [];
    } else {
      var m := HasLeast(s);
      var rest := HasListing(s - {m});
      rows := [m] + rest;
      forall j | 0 <= j < |rest| ensures rest[j] != m && !Less(rest[j], m) {
        assert rest[j] in s - {m};
      }
    }
  }

  lemma ListingExists(s: set<Row>)
    ensures exists rows :: IsListing(s, rows)
  {
    var rows := HasListing(s);
  }

  ghost function SomeListing(s: set<Row>): (rows: seq<Row>)
    ensures IsListing(s, rows)
  {
    ListingExists(s);
    var rows :| IsListing(s, rows);
    rows
  }

  /** For every table there is an engine that answers the query. */
  lemma EngineExists(all: set<Row>)
    ensures exists engine :: Answers(engine, all)
  {
    var engine: Cursor -> seq<Row> := c => SomeListing(Beyond(all, c));
    assert Answers(engine, all);
  }

  lemma EmptyListing(s: set<Row>, rows: seq<Row>)
    requires IsListing(s, rows)
    ensures rows == [] <==> s == {}
  {
    if rows != [] { assert rows[0] in s; }
    if r :| r in s { assert r in rows; }
  }

  /** Without ties the order leaves no choice. */
  lemma {:induction false} ListingUnique(s: set<Row>, a: seq<Row>, b: seq<Row>)
    requires NoTwins(s) && IsListing(s, a) && IsListing(s, b)
    ensures a == b
    decreases |a|
  {
    EmptyListing(s, a);
    EmptyListing(s, b);
    if a == [] {
    } else {
      var m := a[0];
      assert m in b && b[0] in a;
      TieOrLess(m, b[0]);
      assert m == b[0];
      RestIsListing(s, a);
      RestIsListing(s, b);
      ListingUnique(s - {m}, a[1..], b[1..]);
    }
  }

  lemma RestIsListing(s: set<Row>, rows: seq<Row>)
    requires IsListing(s, rows) && rows != []
    ensures IsListing(s - {rows[0]}, rows[1..])
  {
    forall r ensures r in rows[1..] <==> r in s - {rows[0]} {
      assert r in rows <==> r == rows[0] || r in rows[1..];
    }
  }

  // ---------- LIMIT, and draining a partition ----------

  function Limit(rows: seq<Row>, limit: nat): seq<Row>
  {
    if |rows| <= limit then rows else rows[..limit]
  }

  /** The cursor at the last row of a full page leaves the rows of the listing that are
      strictly after it: those not shown, without the ones that tie with the last shown. */
  lemma PageResumes(all: set<Row>, c: Cursor, rows: seq<Row>, limit: nat)
    requires IsListing(Beyond(all, c), rows) && 0 < limit <= |rows|
    ensures var last := rows[limit - 1];
            && (forall i :: 0 <= i < limit ==> rows[i] !in Beyond(all, At(last)))
            && (forall i :: limit <= i < |rows| ==> (rows[i] in Beyond(all, At(last)) <==> At(rows[i]) != At(last)))
            && Beyond(all, At(last)) <= Beyond(all, c)
            && |Beyond(all, At(last))| < |Beyond(all, c)|
  {
    var last := rows[limit - 1];
    var rest := Beyond(all, At(last));
    assert last in Beyond(all, c);
    LessAsymmetric(last, last);
    forall r | r in rest ensures r in Beyond(all, c) { AfterTransitive(c, last, r); }
    forall i | limit <= i < |rows| ensures rows[i] in rest <==> At(rows[i]) != At(last) {
      assert rows[i] in Beyond(all, c);
      TieOrLess(last, rows[i]);
    }
    assert rest <= Beyond(all, c) - {last};
    Fewer(rest, Beyond(all, c), last);
  }

  /** All pages of a drain, one after the other. */
  ghost function Synced(engine: Cursor -> seq<Row>, all: set<Row>, c: Cursor, limit: nat): seq<Row>
    requires Answers(engine, all) && limit > 0
    decreases |Beyond(all, c)|
  {
    var rows := engine(c);
    assert IsListing(Beyond(all, c), rows);
    if |rows| < limit then rows
    else
      PageResumes(all, c, rows, limit);
      rows[..limit] + Synced(engine, all, At(rows[limit - 1]), limit)
  }

  /** No page of the drain ends between two groups that share last use and key id. */
  ghost predicate NoPageSplits(engine: Cursor -> seq<Row>, all: set<Row>, c: Cursor, limit: nat)
    requires Answers(engine, all) && limit > 0
    decreases |Beyond(all, c)|
  {
    var rows := engine(c);
    assert IsListing(Beyond(all, c), rows);
    if |rows| < limit then true
    else
      PageResumes(all, c, rows, limit);
      && (forall i :: limit <= i < |rows| ==> At(rows[i]) != At(rows[limit - 1]))
      && NoPageSplits(engine, all, At(rows[limit - 1]), limit)
  }

  /** Ties or not, the pages are sorted, show no group twice and nothing but later groups. */
  lemma {:induction false} SyncedSorted(engine: Cursor -> seq<Row>, all: set<Row>, c: Cursor, limit: nat)
    requires Answers(engine, all) && limit > 0
    ensures Sorted(Synced(engine, all, c, limit))
    ensures forall r :: r in Synced(engine, all, c, limit) ==> r in Beyond(all, c)
    decreases |Beyond(all, c)|
  {
    var rows := engine(c);
    assert IsListing(Beyond(all, c), rows);
    if |rows| < limit {
    } else {
      PageResumes(all, c, rows, limit);
      var last := rows[limit - 1];
      var rest := Synced(engine, all, At(last), limit);
      SyncedSorted(engine, all, At(last), limit);
      forall i, j | 0 <= i < limit && 0 <= j < |rest| ensures rows[i] != rest[j] && !Less(rest[j], rows[i]) {
        assert rest[j] in Beyond(all, At(last));
        LessAsymmetric(last, rows[i]);
      }
      assert forall i :: 0 <= i < limit ==> rows[i] in Beyond(all, c);
    }
  }

  /** One page, and what is left for the next. */
  lemma OnePage(engine: Cursor -> seq<Row>, all: set<Row>, c: Cursor, limit: nat, page: seq<Row>)
    requires Answers(engine, all) && limit > 0 && page == Limit(engine(c), limit)
    ensures |page| < limit ==> Synced(engine, all, c, limit) == page
    ensures |page| >= limit ==>
      var c' := At(page[|page| - 1]);
      && Synced(engine, all, c, limit) == page + Synced(engine, all, c', limit)
      && |Beyond(all, c')| < |Beyond(all, c)|
  {
    var rows := engine(c);
    assert IsListing(Beyond(all, c), rows);
    if |page| >= limit {
      assert page == rows[..limit];
      PageResumes(all, c, rows, limit);
    }
  }

  /** Some row has this time and key id. */
  predicate Shown(rows: seq<Row>, c: Cursor)
  {
    rows != [] && (At(rows[0]) == c || Shown(rows[1..], c))
  }

  lemma {:induction false} ShownAt(rows: seq<Row>, i: nat)
    requires i < |rows|
    ensures Shown(rows, At(rows[i]))
  {
    if i == 0 {
    } else {
      ShownAt(rows[1..], i - 1);
    }
  }

  lemma {:induction false} ShownBehind(a: seq<Row>, b: seq<Row>, c: Cursor)
    requires Shown(b, c)
    ensures Shown(a + b, c)
  {
    if a == [] {
      assert a + b == b;
    } else {
      assert (a + b)[1..] == a[1..] + b;
      ShownBehind(a[1..], b, c);
    }
  }

  /** Ties or not, no last use of a key is skipped: a lost group's output, key id and time, is
      that of a group that is shown. */
  lemma {:induction false} SyncedShows(engine: Cursor -> seq<Row>, all: set<Row>, c: Cursor, limit: nat, r: Row)
    requires Answers(engine, all) && limit > 0 && r in Beyond(all, c)
    ensures Shown(Synced(engine, all, c, limit), At(r))
    decreases |Beyond(all, c)|
  {
    var rows, page := engine(c), Limit(engine(c), limit);
    assert IsListing(Beyond(all, c), rows);
    var i :| 0 <= i < |rows| && rows[i] == r;
    OnePage(engine, all, c, limit, page);
    if |rows| < limit {
      ShownAt(rows, i);
    } else {
      var last := rows[limit - 1];
      var rest := Synced(engine, all, At(last), limit);
      if i < limit {
        ShownAt(page + rest, i);
      } else if At(r) == At(last) {
        ShownAt(page + rest, limit - 1);
      } else {
        PageResumes(all, c, rows, limit);
        SyncedShows(engine, all, At(last), limit, r);
        ShownBehind(page, rest, At(r));
      }
    }
  }

  ghost predicate Covers(s: set<Row>, rows: seq<Row>)
  {
    forall r :: r in s ==> r in rows
  }

  lemma CoversPage(s: set<Row>, rest: set<Row>, rows: seq<Row>, limit: nat, tail: seq<Row>)
    requires IsListing(s, rows) && 0 < limit <= |rows| && rest <= s
    requires forall i :: 0 <= i < limit ==> rows[i] !in rest
    requires forall r :: r in tail ==> r in rest
    ensures Covers(s, rows[..limit] + tail)
       <==> (forall i :: limit <= i < |rows| ==> rows[i] in rest) && Covers(rest, tail)
  {
    var shown := rows[..limit] + tail;
    if Covers(s, shown) {
      forall i | limit <= i < |rows| ensures rows[i] in rest {
        assert rows[i] in s && rows[i] in shown;
        assert rows[i] !in rows[..limit];
      }
      forall r | r in rest ensures r in tail {
        assert r in shown;
        assert r !in rows[..limit];
      }
    }
    if (forall i :: limit <= i < |rows| ==> rows[i] in rest) && Covers(rest, tail) {
      forall r | r in s ensures r in shown {
        var i :| 0 <= i < |rows| && rows[i] == r;
        if i < limit { assert rows[..limit][i] == r; }
      }
    }
  }

  /** The pages list every group exactly when no page ends between two groups that share last
      use and key id. */
  lemma {:induction false} DrainIff(engine: Cursor -> seq<Row>, all: set<Row>, c: Cursor, limit: nat)
    requires Answers(engine, all) && limit > 0
    ensures IsListing(Beyond(all, c), Synced(engine, all, c, limit)) <==> NoPageSplits(engine, all, c, limit)
    decreases |Beyond(all, c)|
  {
    var rows := engine(c);
    assert IsListing(Beyond(all, c), rows);
    SyncedSorted(engine, all, c, limit);
    if |rows| < limit {
    } else {
      PageResumes(all, c, rows, limit);
      var c' := At(rows[limit - 1]);
      DrainIff(engine, all, c', limit);
      SyncedSorted(engine, all, c', limit);
      CoversPage(Beyond(all, c), Beyond(all, c'), rows, limit, Synced(engine, all, c', limit));
    }
  }

  lemma {:induction false} NoTwinsNoSplits(engine: Cursor -> seq<Row>, all: set<Row>, c: Cursor, limit: nat)
    requires Answers(engine, all) && limit > 0 && NoTwins(Beyond(all, c))
    ensures NoPageSplits(engine, all, c, limit)
    decreases |Beyond(all, c)|
  {
    var rows := engine(c);
    assert IsListing(Beyond(all, c), rows);
    if |rows| < limit {
    } else {
      PageResumes(all, c, rows, limit);
      forall i | limit <= i < |rows| ensures At(rows[i]) != At(rows[limit - 1]) {
        assert rows[i] in Beyond(all, c) && rows[limit - 1] in Beyond(all, c);
      }
      NoTwinsNoSplits(engine, all, At(rows[limit - 1]), limit);
    }
  }

  /** A limit that lets the first page end between two given twins. */
  lemma SplittingLimit(engine: Cursor -> seq<Row>, all: set<Row>, c: Cursor, r: Row, x: Row) returns (limit: nat)
    requires Answers(engine, all) && r in Beyond(all, c) && x in Beyond(all, c) && r != x && At(r) == At(x)
    ensures limit > 0 && !NoPageSplits(engine, all, c, limit)
  {
    var rows := engine(c);
    assert IsListing(Beyond(all, c), rows);
    assert r in rows && x in rows;
    var i :| 0 <= i < |rows| && rows[i] == r;
    var j :| 0 <= j < |rows| && rows[j] == x;
    limit := if i < j then i + 1 else j + 1;
  }

  /** For whatever engine, every page size drains every group exactly when no two groups share
      last use and key id. */
  lemma EveryLimitIff(engine: Cursor -> seq<Row>, all: set<Row>, c: Cursor)
    requires Answers(engine, all)
    ensures (forall limit: nat :: limit > 0 ==> IsListing(Beyond(all, c), Synced(engine, all, c, limit)))
       <==> NoTwins(Beyond(all, c))
  {
    if NoTwins(Beyond(all, c)) {
      forall limit: nat | limit > 0 ensures IsListing(Beyond(all, c), Synced(engine, all, c, limit)) {
        NoTwinsNoSplits(engine, all, c, limit);
        DrainIff(engine, all, c, limit);
      }
    } else {
      var r, x :| r in Beyond(all, c) && x in Beyond(all, c) && At(r) == At(x) && r != x;
      var limit := SplittingLimit(engine, all, c, r, x);
      DrainIff(engine, all, c, limit);
    }
  }

  /** Together with what a drain from `c` lists, `synced` is the whole. */
  ghost predicate Remains(engine: Cursor -> seq<Row>, all: set<Row>, c: Cursor, limit: nat,
                          synced: seq<Row>, whole: seq<Row>)
    requires Answers(engine, all) && limit > 0
  {
    synced + Synced(engine, all, c, limit) == whole
  }

  lemma NextPage(engine: Cursor -> seq<Row>, all: set<Row>, c: Cursor, limit: nat, page: seq<Row>,
                 synced: seq<Row>, whole: seq<Row>)
    requires Answers(engine, all) && limit > 0 && page == Limit(engine(c), limit)
    requires Remains(engine, all, c, limit, synced, whole)
    ensures |page| == 0 ==> synced == whole
    ensures |page| < limit ==> synced + page == whole
    ensures |page| >= limit ==>
      var c' := At(page[|page| - 1]);
      Remains(engine, all, c', limit, synced + page, whole) && |Beyond(all, c')| < |Beyond(all, c)|
  {
    OnePage(engine, all, c, limit, page);
    if |page| == 0 {
      assert synced + page == synced;
    } else if |page| >= limit {
      ConcatAssociative(synced, page, Synced(engine, all, At(page[|page| - 1]), limit));
    }
  }

  /** The drain loop: query, take the page, move the cursor to its last row; stop after an
      empty or a short page. */
  method Pages(engine: Cursor -> seq<Row>, ghost all: set<Row>, start: Cursor, limit: nat) returns (synced: seq<Row>)
    requires Answers(engine, all) && limit > 0
    ensures synced == Synced(engine, all, start, limit)
  {
    var cursor := start;
    synced := [];
    ghost var whole := Synced(engine, all, start, limit);
    while true
      invariant Remains(engine, all, cursor, limit, synced, whole)
      decreases |Beyond(all, cursor)|
    {
      var page := Limit(engine(cursor), limit);
      NextPage(engine, all, cursor, limit, page, synced, whole);
      if |page| == 0 { break; }
      synced := synced + page;
      if |page| < limit { break; }
      cursor := At(page[|page| - 1]);
    }
  }

  /** In terms of the stored rows only: the list is by time and then key id; each row is the last
      use of its group, due, and no group appears twice; and every key with a stored row that is
      due is listed with a last use that is its group's. */
  ghost predicate ListsLastUses(t: set<Row>, start: Cursor, hash: string -> nat, n: nat, p: nat, synced: seq<Row>)
    requires n > 0
  {
    && (forall i, j :: 0 <= i < j < |synced| ==>
          synced[i].time < synced[j].time
          || (synced[i].time == synced[j].time && !StringLess(synced[j].key, synced[i].key)))
    && (forall i :: 0 <= i < |synced| ==> LastUse(t, synced[i]) && Due(synced[i], start, hash, n, p))
    && (forall i, j :: 0 <= i < j < |synced| ==> !SameGroup(synced[i], synced[j]))
    && (forall r :: r in t && Due(r, start, hash, n, p) ==>
          exists x :: LastUse(t, x) && x.workspace == r.workspace && x.keySpace == r.keySpace && x.key == r.key
                      && Shown(synced, At(x)))
  }

  lemma DrainInTableTerms(t: set<Row>, start: Cursor, hash: string -> nat, n: nat, p: nat, synced: seq<Row>)
    requires n > 0 && Sorted(synced) && forall r :: r in synced ==> r in Later(t, start, hash, n, p)
    requires forall r :: r in Later(t, start, hash, n, p) ==> Shown(synced, At(r))
    ensures ListsLastUses(t, start, hash, n, p, synced)
  {
    forall i | 0 <= i < |synced| ensures LastUse(t, synced[i]) && Due(synced[i], start, hash, n, p) {
      assert synced[i] in synced;
      LaterIff(t, start, hash, n, p, synced[i]);
    }
    forall i, j | 0 <= i < j < |synced|
      ensures synced[i].time < synced[j].time
              || (synced[i].time == synced[j].time && !StringLess(synced[j].key, synced[i].key))
      ensures !SameGroup(synced[i], synced[j])
    {
      assert synced[i] != synced[j] && !Less(synced[j], synced[i]);
    }
    forall r | r in t && Due(r, start, hash, n, p)
      ensures exists x :: LastUse(t, x) && x.workspace == r.workspace && x.keySpace == r.keySpace && x.key == r.key
                          && Shown(synced, At(x))
    {
      var x := HasLastUse(t, r);
      LaterIff(t, start, hash, n, p, x);
    }
  }

  /** What a drain of one partition lists, whatever order the engine gives to ties. */
  method Drain(t: set<Row>, start: Cursor, hash: string -> nat, n: nat, p: nat, limit: nat,
               engine: Cursor -> seq<Row>) returns (synced: seq<Row>)
    requires n > 0 && limit > 0
    requires forall c :: IsListing(Selected(t, c, hash, n, p), engine(c))
    ensures Answers(engine, Latest(Matching(t, hash, n, p)))
    ensures Sorted(synced) && forall r :: r in synced ==> r in Later(t, start, hash, n, p)
    ensures ListsLastUses(t, start, hash, n, p, synced)
    ensures forall r :: r in Later(t, start, hash, n, p) ==> Shown(synced, At(r))
    ensures IsListing(Later(t, start, hash, n, p), synced)
       <==> NoPageSplits(engine, Latest(Matching(t, hash, n, p)), start, limit)
    ensures NoTwins(Later(t, start, hash, n, p)) ==> IsListing(Later(t, start, hash, n, p), synced)
  {
    ghost var all := Latest(Matching(t, hash, n, p));
    SelectedIsBeyond(t, hash, n, p, engine);
    synced := Pages(engine, all, start, limit);
    SyncedSorted(engine, all, start, limit);
    forall r | r in Beyond(all, start) ensures Shown(synced, At(r)) { SyncedShows(engine, all, start, limit, r); }
    DrainInTableTerms(t, start, hash, n, p, synced);
    DrainIff(engine, all, start, limit);
    if NoTwins(Beyond(all, start)) { NoTwinsNoSplits(engine, all, start, limit); }
  }

  lemma SelectedIsBeyond(t: set<Row>, hash: string -> nat, n: nat, p: nat, engine: Cursor -> seq<Row>)
    requires n > 0 && forall c :: IsListing(Selected(t, c, hash, n, p), engine(c))
    ensures Answers(engine, Latest(Matching(t, hash, n, p)))
  {
    var all := Latest(Matching(t, hash, n, p));
    forall c ensures IsListing(Beyond(all, c), engine(c)) { FilterFirst(t, c, hash, n, p); }
  }

  // ---------- Partitions ----------

  /** Every group after the cursor is in exactly one partition. */
  lemma PartitionsCover(t: set<Row>, c: Cursor, hash: string -> nat, n: nat, r: Row)
    requires n > 0
    ensures r in Later(t, c, _ => 0, 1, 0) <==> exists p :: 0 <= p < n && r in Later(t, c, hash, n, p)
    ensures forall p, p' :: r in Later(t, c, hash, n, p) && r in Later(t, c, hash, n, p') ==> p == p'
  {
    var all := Matching(t, _ => 0, 1, 0);
    assert all == t;
    var p := hash(r.key) % n;
    if r in t {
      var part := Matching(t, hash, n, p);
      assert IsLatest(t, r) <==> IsLatest(part, r) by {
        assert forall x :: x in t && SameGroup(x, r) ==> x in part;
      }
      assert r in Later(t, c, _ => 0, 1, 0) <==> r in Later(t, c, hash, n, p);
    }
  }

  /** Two keys of the same id in two workspaces, last used at the same time: with pages of one
      row every drain shows one of them and never the other. */
  lemma TwinIsLost(engine: Cursor -> seq<Row>, hash: string -> nat)
    requires forall c :: IsListing(Selected({Row("w1", "s", "k", 5), Row("w2", "s", "k", 5)}, c, hash, 1, 0), engine(c))
    ensures var t := {Row("w1", "s", "k", 5), Row("w2", "s", "k", 5)};
            var start := Cursor(0, "");
            && Later(t, start, hash, 1, 0) == t
            && Answers(engine, t)
            && |Synced(engine, t, start, 1)| == 1
  {
    var a, b := Row("w1", "s", "k", 5), Row("w2", "s", "k", 5);
    var t, start := {a, b}, Cursor(0, "");
    assert Matching(t, hash, 1, 0) == t && Latest(t) == t;
    SelectedIsBeyond(t, hash, 1, 0, engine);
    assert Beyond(t, start) == t;
    var rows := engine(start);
    assert IsListing(Beyond(t, start), rows);
    assert a in rows && b in rows;
    LessAsymmetric(a, a);
    TieOrLess(a, b);
    TieOrLess(b, a);
    assert rows[0] in t;
    assert Beyond(t, At(rows[0])) == {};
    var rest := engine(At(rows[0]));
    assert IsListing(Beyond(t, At(rows[0])), rest);
    assert forall i :: 0 <= i < |rest| ==> rest[i] in Beyond(t, At(rows[0]));
    assert |rows| >= 1;
    PageResumes(t, start, rows, 1);
    assert Synced(engine, t, At(rows[0]), 1) == rest;
  }
}
