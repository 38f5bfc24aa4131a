/** The deploy usage meter (pkg/clickhouse/instance_meter.go): the aggregation query as a
    function over checkpoint rows.

    A checkpoint is billed against the next one of the same container (the window lead);
    a container's last row leads into a row of column defaults.  Pairs with dt <= 0 or
    dt > maxSampleGap are dropped.  Amounts are exact integers in the meter's raw unit
    (microseconds, byte-milliseconds, bytes).
  */
module InstanceMeter {
  import opened Common

  // maxSampleGap, in milliseconds
  const MAX_GAP: int := 120_000

  /** What the query groups by. */
  datatype Resource = Resource(workspace: string, project: string, environment: string, kind: string, id: string)

  datatype Row = Row(
    resource: Resource,
    container: string,
    ts: int,
    cpu: int,
    egress: int,
    networkAttached: Option<bool>,
    memory: int,
    disk: int)

  // The column defaults that stand in for a missing successor.
  const NO_ROW: Row := Row(Resource("", "", "", "", ""), "", 0, 0, 0, None, 0, 0)

  datatype Meter = Cpu | Egress | Memory | Disk

  // ---------- The query ----------

  function Min(a: int, b: int): int { if a < b then a else b }

  function Max(a: int, b: int): int { if a > b then a else b }

  predicate Attached(r: Row) { r.networkAttached == Some(true) }

  predicate InGap(r: Row, n: Row) { 0 < n.ts - r.ts <= MAX_GAP }

  // What the pair of a row and its successor adds: the growth of a counter, or a level held
  // over the time between.

  function CpuPair(r: Row, n: Row): int
  {
    if InGap(r, n) then Max(0, n.cpu - r.cpu) else 0
  }

  function EgressPair(r: Row, n: Row): int
  {
    if InGap(r, n) && Attached(r) && Attached(n) then Max(0, n.egress - r.egress) else 0
  }

  function Held(level: int, r: Row, n: Row): int
  {
    if InGap(r, n) then level * (n.ts - r.ts) else 0
  }

  function Pair(m: Meter, r: Row, n: Row): int
  {
    match m
    case Cpu => CpuPair(r, n)
    case Egress => EgressPair(r, n)
    case Memory => Held(Min(r.memory, n.memory), r, n)
    case Disk => Held(Min(r.disk, n.disk), r, n)
  }

  /** The window's partition key. */
  function Partition(r: Row): (string, string) { (r.resource.workspace, r.container) }

  /** The window lead: the next row of the same partition, or the column defaults. */
  function Lead(r: Row, rest: seq<Row>): Row
  {
    if rest == [] then NO_ROW
    else if Partition(rest[0]) == Partition(r) then rest[0]
    else Lead(r, rest[1..])
  }

  /** Which rows a sum is over: those of one output group, or those of one container. */
  datatype Pick = OfResource(g: Resource) | OfContainer(p: (string, string))

  predicate Picks(pick: Pick, r: Row)
  {
    match pick
    case OfResource(g) => r.resource == g
    case OfContainer(p) => Partition(r) == p
  }

  /** The sum over the rows that `pick` selects; `rows` are in (ts, event_kind) order. */
  function Total(m: Meter, pick: Pick, rows: seq<Row>): int
  {
    if rows == [] then 0
    else (if Picks(pick, rows[0]) then Pair(m, rows[0], Lead(rows[0], rows[1..])) else 0)
         + Total(m, pick, rows[1..])
  }

  datatype Request = Request(workspace: string, workspaces: seq<string>, start: int, end: int)

  predicate Matches(q: Request, r: Row)
  {
    && q.start <= r.ts < q.end
    && (q.workspace == "" || r.resource.workspace == q.workspace)
    && (q.workspaces == [] || r.resource.workspace in q.workspaces)
  }

  function Where(q: Request, rows: seq<Row>): seq<Row>
  {
    if rows == [] then []
    else (if Matches(q, rows[0]) then [rows[0]] else []) + Where(q, rows[1..])
  }

  /** Billable usage of one resource: the query's output column for that group. */
  function Usage(m: Meter, g: Resource, q: Request, table: seq<Row>): int
  {
    Total(m, OfResource(g), Where(q, table))
  }

  predicate Ordered(rows: seq<Row>)
  {
    forall i, j :: 0 <= i < j < |rows| ==> rows[i].ts <= rows[j].ts
  }

  /** Counters and gauges that are billed as such are not negative.  (Egress is not
      constrained: a detached collector may report anything.) */
  predicate PhysicalRow(r: Row) { r.cpu >= 0 && r.memory >= 0 && r.disk >= 0 }

  predicate Physical(rows: seq<Row>)
  {
    forall i :: 0 <= i < |rows| ==> PhysicalRow(rows[i])
  }

  // ---------- One container at a time ----------

  /** The rows of one container: of one workspace and one container uid. */
  function Only(p: (string, string), rows: seq<Row>): seq<Row>
  {
    if rows == [] then []
    else (if rows[0].resource.workspace == p.0 && rows[0].container == p.1 then [rows[0]] else [])
         + Only(p, rows[1..])
  }

  /** The bill of a single container: its consecutive pairs. */
  function Billed(m: Meter, s: seq<Row>): int
  {
    if |s| < 2 then 0 else Pair(m, s[0], s[1]) + Billed(m, s[1..])
  }

  /** A container's last sample is never billed against the column defaults. */
  lemma LastSampleFree(m: Meter, r: Row)
    requires PhysicalRow(r)
    ensures Pair(m, r, NO_ROW) == 0
  {
    match m
    case Memory => assert Min(r.memory, NO_ROW.memory) == 0;
    case Disk => assert Min(r.disk, NO_ROW.disk) == 0;
    case _ =>
  }

  lemma HeldNonNegative(level: int, r: Row, n: Row)
    requires level >= 0
    ensures Held(level, r, n) >= 0
  {
  }

  lemma PairNonNegative(m: Meter, r: Row, n: Row)
    requires PhysicalRow(r) && PhysicalRow(n)
    ensures Pair(m, r, n) >= 0
  {
    match m
    case Memory => HeldNonNegative(Min(r.memory, n.memory), r, n);
    case Disk => HeldNonNegative(Min(r.disk, n.disk), r, n);
    case _ =>
  }

  lemma {:induction false} LeadIsNextOfContainer(r: Row, rest: seq<Row>)
    ensures var s := Only(Partition(r), rest); Lead(r, rest) == if s == [] then NO_ROW else s[0]
  {
    if rest == [] || Partition(rest[0]) == Partition(r) {
    } else {
      LeadIsNextOfContainer(r, rest[1..]);
    }
  }

  /** However the rows of different containers interleave, each container is billed for its
      own consecutive pairs and nothing else: no pair crosses a restart. */
  lemma {:induction false} ContainerTotal(m: Meter, p: (string, string), rows: seq<Row>)
    requires Physical(rows)
    ensures Total(m, OfContainer(p), rows) == Billed(m, Only(p, rows))
  {
    if rows == [] {
    } else {
      var r, rest := rows[0], rows[1..];
      ContainerTotal(m, p, rest);
      if Partition(r) == p {
        LeadIsNextOfContainer(r, rest);
        BilledCons(m, r, Only(p, rest));
      } else {
        assert Only(p, rows) == Only(p, rest);
      }
    }
  }

  lemma BilledCons(m: Meter, r: Row, s: seq<Row>)
    requires PhysicalRow(r)
    ensures Billed(m, [r] + s) == Pair(m, r, if s == [] then NO_ROW else s[0]) + Billed(m, s)
  {
    LastSampleFree(m, r);
    assert ([r] + s)[1..] == s;
  }

  /** The sum of the bills of several containers. */
  function BillAll(m: Meter, ps: seq<(string, string)>, rows: seq<Row>): int
  {
    if ps == [] then 0 else BillAll(m, ps[1..], rows) + Billed(m, Only(ps[0], rows))
  }

  function TotalAll(m: Meter, ps: seq<(string, string)>, rows: seq<Row>): int
  {
    if ps == [] then 0 else TotalAll(m, ps[1..], rows) + Total(m, OfContainer(ps[0]), rows)
  }

  lemma {:induction false} TotalIsBill(m: Meter, ps: seq<(string, string)>, rows: seq<Row>)
    requires Physical(rows)
    ensures TotalAll(m, ps, rows) == BillAll(m, ps, rows)
  {
    if ps == [] {
    } else {
      TotalIsBill(m, ps[1..], rows);
      ContainerTotal(m, ps[0], rows);
    }
  }

  /** One more row adds its pair once, if its container is among `ps`. */
  lemma {:induction false} RowCountsOnce(m: Meter, ps: seq<(string, string)>, rows: seq<Row>)
    requires rows != [] && forall i, j :: 0 <= i < j < |ps| ==> ps[i] != ps[j]
    ensures TotalAll(m, ps, rows) == TotalAll(m, ps, rows[1..])
      + (if Partition(rows[0]) in ps then Pair(m, rows[0], Lead(rows[0], rows[1..])) else 0)
    decreases |ps|
  {
    if ps == [] {
    } else {
      RowCountsOnce(m, ps[1..], rows);
      assert ps == [ps[0]] + ps[1..];
    }
  }

  lemma {:induction false} TotalNothing(m: Meter, ps: seq<(string, string)>)
    ensures TotalAll(m, ps, []) == 0
  {
    if ps == [] {
    } else {
      TotalNothing(m, ps[1..]);
    }
  }

  /** `ps` are the containers of resource `g`: every row of them is one of `g`, and every row of
      `g` is of one of them. */
  ghost predicate ContainersOf(ps: seq<(string, string)>, g: Resource, rows: seq<Row>)
  {
    && (forall i, j :: 0 <= i < j < |ps| ==> ps[i] != ps[j])
    && (forall i :: 0 <= i < |rows| ==> (rows[i].resource == g <==> Partition(rows[i]) in ps))
  }

  lemma {:induction false} TotalByContainer(m: Meter, g: Resource, ps: seq<(string, string)>, rows: seq<Row>)
    requires ContainersOf(ps, g, rows)
    ensures Total(m, OfResource(g), rows) == TotalAll(m, ps, rows)
    decreases |rows|
  {
    if rows == [] {
      TotalNothing(m, ps);
    } else {
      assert rows[0].resource == g <==> Partition(rows[0]) in ps;
      assert forall i :: 0 <= i < |rows[1..]| ==> rows[1..][i] == rows[i + 1];
      TotalByContainer(m, g, ps, rows[1..]);
      RowCountsOnce(m, ps, rows);
    }
  }

  /** A resource is billed the sum of its containers' own bills, for every meter. */
  lemma UsageByContainer(m: Meter, g: Resource, ps: seq<(string, string)>, q: Request, table: seq<Row>)
    requires Physical(table) && ContainersOf(ps, g, Where(q, table))
    ensures Usage(m, g, q, table) == BillAll(m, ps, Where(q, table))
  {
    WherePhysical(q, table);
    TotalByContainer(m, g, ps, Where(q, table));
    TotalIsBill(m, ps, Where(q, table));
  }

  // ---------- What a bill amounts to ----------

  /** What a gauge shows. */
  function Level(m: Meter, r: Row): int
    requires m.Memory? || m.Disk?
  {
    if m.Memory? then r.memory else r.disk
  }

  lemma {:induction false} BillAdds(m: Meter, a: seq<Row>, b: seq<Row>)
    requires a != [] && b != []
    ensures Billed(m, a + b) == Billed(m, a) + Billed(m, [a[|a| - 1], b[0]]) + Billed(m, b)
  {
    if |a| == 1 {
      assert (a + b)[1..] == b && [a[0], b[0]][1..] == [b[0]];
    } else {
      assert (a + b)[1..] == a[1..] + b;
      BillAdds(m, a[1..], b);
    }
  }

  /** Two samples of one container more than nothing and at most two minutes apart: the rise of
      the counter, for egress if the network was attached at both, and the lower level times the
      milliseconds between.  Anything else is free. */
  lemma TwoSamples(r: Row, n: Row)
    ensures var dt := n.ts - r.ts;
            if 0 < dt <= 120_000 then
              && Billed(Cpu, [r, n]) == (if r.cpu < n.cpu then n.cpu - r.cpu else 0)
              && Billed(Egress, [r, n])
                 == (if r.networkAttached == n.networkAttached == Some(true) && r.egress < n.egress
                     then n.egress - r.egress else 0)
              && Billed(Memory, [r, n]) == (if r.memory < n.memory then r.memory * dt else n.memory * dt)
              && Billed(Disk, [r, n]) == (if r.disk < n.disk then r.disk * dt else n.disk * dt)
            else
              forall m :: Billed(m, [r, n]) == 0
  {
    assert [r, n][1..] == [n];
    forall m ensures Billed(m, [r, n]) == Pair(m, r, n) {}
  }

  /** Samples too far apart, or of one millisecond, separate two bills, for every meter. */
  lemma GapIsFree(m: Meter, a: seq<Row>, b: seq<Row>)
    requires a != [] && b != [] && !(0 < b[0].ts - a[|a| - 1].ts <= 120_000)
    ensures Billed(m, a + b) == Billed(m, a) + Billed(m, b)
  {
    BillAdds(m, a, b);
    TwoSamples(a[|a| - 1], b[0]);
  }

  /** So does a counter that falls, or a detached sample for egress. */
  lemma FallIsFree(a: seq<Row>, b: seq<Row>)
    requires a != [] && b != []
    ensures b[0].cpu <= a[|a| - 1].cpu ==> Billed(Cpu, a + b) == Billed(Cpu, a) + Billed(Cpu, b)
    ensures b[0].egress <= a[|a| - 1].egress || b[0].networkAttached != Some(true)
            || a[|a| - 1].networkAttached != Some(true)
        ==> Billed(Egress, a + b) == Billed(Egress, a) + Billed(Egress, b)
  {
    BillAdds(Cpu, a, b);
    BillAdds(Egress, a, b);
    TwoSamples(a[|a| - 1], b[0]);
  }

  /** The time covered: the intervals between consecutive samples that are not too long. */
  function Covered(s: seq<Row>): int
  {
    if |s| < 2 then 0
    else (if 0 < s[1].ts - s[0].ts <= 120_000 then s[1].ts - s[0].ts else 0) + Covered(s[1..])
  }

  lemma {:induction false} CoveredAll(s: seq<Row>)
    requires s != [] && forall i :: 0 <= i < |s| - 1 ==> 0 <= s[i + 1].ts - s[i].ts <= 120_000
    ensures Covered(s) == s[|s| - 1].ts - s[0].ts
  {
    if |s| < 2 {
    } else {
      assert 0 <= s[0 + 1].ts - s[0].ts <= 120_000;
      forall i | 0 <= i < |s[1..]| - 1 ensures 0 <= s[1..][i + 1].ts - s[1..][i].ts <= 120_000 {
        assert s[1..][i + 1] == s[i + 2] && s[1..][i] == s[i + 1];
        assert 0 <= s[i + 1 + 1].ts - s[i + 1].ts <= 120_000;
      }
      CoveredAll(s[1..]);
    }
  }

  lemma TimesBetween(lo: int, x: int, hi: int, d: int)
    requires lo <= x <= hi && d >= 0
    ensures lo * d <= x * d <= hi * d
  {
    assert (x - lo) * d >= 0 && (hi - x) * d >= 0;
  }

  lemma TimesAdds(x: int, d: int, e: int)
    ensures x * (d + e) == x * d + x * e
  {
  }

  lemma HeldBetween(m: Meter, r: Row, n: Row, lo: int, hi: int)
    requires (m.Memory? || m.Disk?) && lo <= Level(m, r) <= hi && lo <= Level(m, n) <= hi
    ensures var d := if 0 < n.ts - r.ts <= 120_000 then n.ts - r.ts else 0;
            lo * d <= Pair(m, r, n) <= hi * d
  {
    if 0 < n.ts - r.ts <= 120_000 { TimesBetween(lo, Min(Level(m, r), Level(m, n)), hi, n.ts - r.ts); }
  }

  /** A gauge between lo and hi bills between lo and hi times the time covered. */
  lemma {:induction false} GaugeBetween(m: Meter, s: seq<Row>, lo: int, hi: int)
    requires (m.Memory? || m.Disk?) && forall i :: 0 <= i < |s| ==> lo <= Level(m, s[i]) <= hi
    ensures lo * Covered(s) <= Billed(m, s) <= hi * Covered(s)
  {
    if |s| < 2 {
    } else {
      var d := if 0 < s[1].ts - s[0].ts <= 120_000 then s[1].ts - s[0].ts else 0;
      HeldBetween(m, s[0], s[1], lo, hi);
      GaugeBetween(m, s[1..], lo, hi);
      TimesAdds(lo, d, Covered(s[1..]));
      TimesAdds(hi, d, Covered(s[1..]));
    }
  }

  /** A constant gauge bills its level times the time covered; without gaps that is from the
      first sample to the last. */
  lemma ConstantLevel(m: Meter, s: seq<Row>, level: int)
    requires (m.Memory? || m.Disk?) && s != [] && forall i :: 0 <= i < |s| ==> Level(m, s[i]) == level
    ensures Billed(m, s) == level * Covered(s)
    ensures (forall i :: 0 <= i < |s| - 1 ==> 0 <= s[i + 1].ts - s[i].ts <= 120_000)
        ==> Billed(m, s) == level * (s[|s| - 1].ts - s[0].ts)
  {
    GaugeBetween(m, s, level, level);
    if forall i :: 0 <= i < |s| - 1 ==> 0 <= s[i + 1].ts - s[i].ts <= 120_000 { CoveredAll(s); }
  }

  // ---------- CPU: telescoping, and never more than was counted ----------

  ghost predicate CounterUp(s: seq<Row>)
  {
    forall i, j :: 0 <= i < j < |s| ==> s[i].cpu <= s[j].cpu
  }

  predicate Counted(r: Row, n: Row) { r.cpu == n.cpu || InGap(r, n) }

  /** No counter growth falls into a dropped pair. */
  ghost predicate NothingDropped(s: seq<Row>)
  {
    forall i :: 0 <= i < |s| - 1 ==> Counted(s[i], s[i + 1])
  }

  lemma NothingDroppedCons(s: seq<Row>)
    requires |s| >= 2
    ensures NothingDropped(s) <==> Counted(s[0], s[1]) && NothingDropped(s[1..])
  {
    var t := s[1..];
    if Counted(s[0], s[1]) && NothingDropped(t) {
      forall i | 0 <= i < |s| - 1 ensures Counted(s[i], s[i + 1]) {
        if i > 0 { assert Counted(t[i - 1], t[i]); }
      }
    }
    if NothingDropped(s) {
      forall i | 0 <= i < |t| - 1 ensures Counted(t[i], t[i + 1]) {
        assert Counted(s[i + 1], s[i + 2]);
      }
    }
  }

  /** Billed CPU never exceeds last minus first, and equals it exactly when no growth falls
      into a dropped pair. */
  lemma {:induction false} CpuTelescopes(s: seq<Row>)
    requires s != [] && CounterUp(s)
    ensures Billed(Cpu, s) <= s[|s| - 1].cpu - s[0].cpu
    ensures Billed(Cpu, s) == s[|s| - 1].cpu - s[0].cpu <==> NothingDropped(s)
  {
    if |s| < 2 {
    } else {
      CpuTelescopes(s[1..]);
      NothingDroppedCons(s);
      assert s[0].cpu <= s[1].cpu;
    }
  }

  // ---------- Losing samples ----------

  /** What a pair of samples costs, for any way of charging. */
  type Charge = (Row, Row) -> int

  function CpuCharge(): Charge { (r, n) => CpuPair(r, n) }

  function EgressCharge(): Charge { (r, n) => EgressPair(r, n) }

  function GaugeCharge(m: Meter): Charge
    requires m.Memory? || m.Disk?
  {
    (r, n) => Held(Min(Level(m, r), Level(m, n)), r, n)
  }

  function ChargeOf(m: Meter): Charge
  {
    match m
    case Cpu => CpuCharge()
    case Egress => EgressCharge()
    case _ => GaugeCharge(m)
  }

  function Charged(f: Charge, s: seq<Row>): int
  {
    if |s| < 2 then 0 else f(s[0], s[1]) + Charged(f, s[1..])
  }

  lemma {:induction false} BilledIsCharged(m: Meter, s: seq<Row>)
    ensures Billed(m, s) == Charged(ChargeOf(m), s)
  {
    if |s| < 2 {
    } else {
      BilledIsCharged(m, s[1..]);
    }
  }

  /** The charge from sample `a` to sample `b`, step by step. */
  function Stretch(f: Charge, s: seq<Row>, a: nat, b: nat): int
    requires a <= b < |s|
    decreases b - a
  {
    if a == b then 0 else f(s[a], s[a + 1]) + Stretch(f, s, a + 1, b)
  }

  lemma {:induction false} ChargedIsStretch(f: Charge, s: seq<Row>, a: nat)
    requires a < |s|
    ensures Charged(f, s[a..]) == Stretch(f, s, a, |s| - 1)
    decreases |s| - a
  {
    if a == |s| - 1 {
    } else {
      assert s[a..][1..] == s[a + 1..];
      ChargedIsStretch(f, s, a + 1);
    }
  }

  lemma {:induction false} StretchSplits(f: Charge, s: seq<Row>, a: nat, j: nat, b: nat)
    requires a <= j <= b < |s|
    ensures Stretch(f, s, a, b) == Stretch(f, s, a, j) + Stretch(f, s, j, b)
    decreases j - a
  {
    if a == j {
    } else {
      StretchSplits(f, s, a + 1, j, b);
    }
  }

  /** No two samples give a negative amount: always so for the counters, and for the gauges
      where levels are not negative. */
  ghost predicate NoCredit(f: Charge, s: seq<Row>)
  {
    forall i, j :: 0 <= i < j < |s| ==> f(s[i], s[j]) >= 0
  }

  lemma {:induction false} StretchNonNegative(f: Charge, s: seq<Row>, a: nat, b: nat)
    requires NoCredit(f, s) && a <= b < |s|
    ensures Stretch(f, s, a, b) >= 0
    decreases b - a
  {
    if a == b {
    } else {
      StretchNonNegative(f, s, a + 1, b);
    }
  }

  /** The samples from the i-th on that `keep` marks. */
  function KeptFrom(s: seq<Row>, keep: seq<bool>, i: nat): seq<Row>
    requires |keep| == |s| && i <= |s|
    decreases |s| - i
  {
    if i == |s| then [] else (if keep[i] then [s[i]] else []) + KeptFrom(s, keep, i + 1)
  }

  function Kept(s: seq<Row>, keep: seq<bool>): seq<Row>
    requires |keep| == |s|
  {
    KeptFrom(s, keep, 0)
  }

  lemma {:induction false} FirstKept(s: seq<Row>, keep: seq<bool>, i: nat) returns (k: nat)
    requires |keep| == |s| && i <= |s| && KeptFrom(s, keep, i) != []
    ensures i <= k < |s| && KeptFrom(s, keep, i) == KeptFrom(s, keep, k) && KeptFrom(s, keep, i)[0] == s[k]
    decreases |s| - i
  {
    if keep[i] { k := i; } else { k := FirstKept(s, keep, i + 1); }
  }

  /** Going from one sample straight to a later one costs no more than going step by step. */
  ghost predicate SkipsCostLess(f: Charge, s: seq<Row>)
  {
    forall a, b :: 0 <= a < b < |s| ==> f(s[a], s[b]) <= Stretch(f, s, a, b)
  }

  lemma ChargedFirst(f: Charge, r: Row, rest: seq<Row>)
    requires rest != []
    ensures Charged(f, [r] + rest) == f(r, rest[0]) + Charged(f, rest)
  {
    assert ([r] + rest)[1..] == rest;
  }

  lemma ChargedKept(f: Charge, s: seq<Row>, keep: seq<bool>, i: nat)
    requires |keep| == |s| && i < |s|
    ensures var rest := KeptFrom(s, keep, i + 1);
            Charged(f, KeptFrom(s, keep, i)) == Charged(f, rest) + if keep[i] && rest != [] then f(s[i], rest[0]) else 0
  {
    var rest := KeptFrom(s, keep, i + 1);
    if keep[i] {
      assert KeptFrom(s, keep, i) == [s[i]] + rest;
      if rest != [] { ChargedFirst(f, s[i], rest); }
    } else {
      assert KeptFrom(s, keep, i) == rest;
    }
  }

  lemma {:induction false} LosingFrom(f: Charge, s: seq<Row>, keep: seq<bool>, i: nat)
    requires NoCredit(f, s) && SkipsCostLess(f, s) && |keep| == |s| && i < |s|
    ensures Charged(f, KeptFrom(s, keep, i)) <= Stretch(f, s, i, |s| - 1)
    decreases |s| - i
  {
    ChargedKept(f, s, keep, i);
    if KeptFrom(s, keep, i + 1) == [] {
      StretchNonNegative(f, s, i, |s| - 1);
    } else {
      var k := FirstKept(s, keep, i + 1);
      LosingFrom(f, s, keep, k);
      StretchSplits(f, s, i, k, |s| - 1);
      StretchNonNegative(f, s, i, k);
      assert f(s[i], s[k]) <= Stretch(f, s, i, k);
    }
  }

  /** All samples but those between the a-th and the b-th. */
  function CutOut(n: nat, a: nat, b: nat): seq<bool>
  {
    seq(n, x => x <= a || x >= b)
  }

  lemma {:induction false} KeptBehind(s: seq<Row>, a: nat, b: nat, i: nat)
    requires a < b < |s| && a < i <= |s|
    ensures KeptFrom(s, CutOut(|s|, a, b), i) == if i < b then s[b..] else s[i..]
    decreases |s| - i
  {
    if i == |s| {
    } else {
      KeptBehind(s, a, b, i + 1);
      var rest := KeptFrom(s, CutOut(|s|, a, b), i + 1);
      if i < b {
        assert rest == s[b..] && [] + rest == rest;
      } else {
        assert [s[i]] + s[i + 1..] == s[i..];
      }
    }
  }

  lemma {:induction false} ChargedCutOut(f: Charge, s: seq<Row>, a: nat, b: nat, i: nat)
    requires i <= a < b < |s|
    ensures Charged(f, KeptFrom(s, CutOut(|s|, a, b), i))
         == Stretch(f, s, i, a) + f(s[a], s[b]) + Stretch(f, s, b, |s| - 1)
    decreases a - i
  {
    var keep := CutOut(|s|, a, b);
    ChargedKept(f, s, keep, i);
    if i == a {
      KeptBehind(s, a, b, a + 1);
      ChargedIsStretch(f, s, b);
    } else {
      ChargedCutOut(f, s, a, b, i + 1);
      assert KeptFrom(s, keep, i + 1)[0] == s[i + 1];
    }
  }

  lemma ChargedInThree(f: Charge, s: seq<Row>, a: nat, b: nat)
    requires a < b < |s|
    ensures Charged(f, s) == Stretch(f, s, 0, a) + Stretch(f, s, a, b) + Stretch(f, s, b, |s| - 1)
  {
    assert s[0..] == s;
    ChargedIsStretch(f, s, 0);
    StretchSplits(f, s, 0, a, |s| - 1);
    StretchSplits(f, s, a, b, |s| - 1);
  }

  lemma CutOutCosts(f: Charge, s: seq<Row>, a: nat, b: nat)
    requires a < b < |s|
    ensures Charged(f, Kept(s, CutOut(|s|, a, b))) - Charged(f, s) == f(s[a], s[b]) - Stretch(f, s, a, b)
  {
    ChargedInThree(f, s, a, b);
    ChargedCutOut(f, s, a, b, 0);
  }

  lemma LosingCosts(f: Charge, s: seq<Row>, keep: seq<bool>)
    requires NoCredit(f, s) && SkipsCostLess(f, s) && |keep| == |s|
    ensures Charged(f, Kept(s, keep)) <= Charged(f, s)
  {
    if s == [] {
    } else {
      ChargedIsStretch(f, s, 0);
      assert s[0..] == s;
      LosingFrom(f, s, keep, 0);
    }
  }

  /** Exactly when losing samples, whichever, never raises the charge. */
  lemma LosingIff(f: Charge, s: seq<Row>)
    requires NoCredit(f, s)
    ensures (forall keep: seq<bool> :: |keep| == |s| ==> Charged(f, Kept(s, keep)) <= Charged(f, s))
       <==> SkipsCostLess(f, s)
  {
    if SkipsCostLess(f, s) {
      forall keep: seq<bool> | |keep| == |s| ensures Charged(f, Kept(s, keep)) <= Charged(f, s) {
        LosingCosts(f, s, keep);
      }
    } else {
      var a, b :| 0 <= a < b < |s| && f(s[a], s[b]) > Stretch(f, s, a, b);
      CutOutCosts(f, s, a, b);
    }
  }

  /** Losing samples, whichever, never raises the bill of the meter. */
  ghost predicate LossNeverRaises(m: Meter, s: seq<Row>)
  {
    forall keep: seq<bool> :: |keep| == |s| ==> Billed(m, Kept(s, keep)) <= Billed(m, s)
  }

  lemma LossIff(m: Meter, s: seq<Row>)
    requires NoCredit(ChargeOf(m), s)
    ensures LossNeverRaises(m, s) <==> SkipsCostLess(ChargeOf(m), s)
  {
    forall t ensures Billed(m, t) == Charged(ChargeOf(m), t) { BilledIsCharged(m, t); }
    LosingIff(ChargeOf(m), s);
  }

  // ---------- Losing samples: CPU ----------

  /** Some other sample lies within the gap of this one, before or after. */
  ghost predicate HasNeighbour(s: seq<Row>, r: Row)
  {
    exists k :: 0 <= k < |s| && (InGap(r, s[k]) || InGap(s[k], r))
  }

  /** Samples of the same millisecond agree on the counter, or have no sample within the gap.
      (Always so when timestamps strictly increase.) */
  ghost predicate TiesHarmless(s: seq<Row>)
  {
    forall i, j :: 0 <= i < j < |s| && s[i].ts == s[j].ts ==> s[i].cpu == s[j].cpu || !HasNeighbour(s, s[i])
  }

  lemma {:induction false} CpuSkips(s: seq<Row>, a: nat, b: nat)
    requires Ordered(s) && CounterUp(s) && TiesHarmless(s) && a < b < |s|
    ensures CpuPair(s[a], s[b]) <= Stretch(CpuCharge(), s, a, b)
    decreases b - a
  {
    if b == a + 1 {
      assert Stretch(CpuCharge(), s, b, b) == 0;
    } else {
      CpuSkips(s, a + 1, b);
      assert s[a].ts <= s[a + 1].ts <= s[b].ts && s[a].cpu <= s[a + 1].cpu <= s[b].cpu;
      if InGap(s[a], s[b]) {
        assert HasNeighbour(s, s[a]);
        assert s[a + 1].ts == s[b].ts ==> HasNeighbour(s, s[a + 1]) by {
          assert s[a + 1].ts == s[b].ts ==> InGap(s[a], s[a + 1]);
        }
      }
    }
  }

  lemma {:induction false} TiesFree(s: seq<Row>, a: nat, b: nat)
    requires Ordered(s) && a <= b < |s| && s[a].ts == s[b].ts
    ensures Stretch(CpuCharge(), s, a, b) == 0
    decreases b - a
  {
    if a == b {
    } else {
      assert s[a].ts <= s[a + 1].ts && (a + 1 < b ==> s[a + 1].ts <= s[b].ts);
      TiesFree(s, a + 1, b);
    }
  }

  /** The last sample of the millisecond of the i-th. */
  lemma {:induction false} LastOfTie(s: seq<Row>, i: nat) returns (hi: nat)
    requires Ordered(s) && i < |s|
    ensures i <= hi < |s| && s[hi].ts == s[i].ts && (hi + 1 < |s| ==> s[hi + 1].ts > s[i].ts)
    decreases |s| - i
  {
    if i + 1 < |s| && s[i + 1].ts == s[i].ts { hi := LastOfTie(s, i + 1); } else { hi := i; }
  }

  /** The first sample of the millisecond of the i-th. */
  lemma {:induction false} FirstOfTie(s: seq<Row>, i: nat) returns (lo: nat)
    requires Ordered(s) && i < |s|
    ensures lo <= i && s[lo].ts == s[i].ts && (lo > 0 ==> s[lo - 1].ts < s[i].ts)
    decreases i
  {
    if i > 0 && s[i - 1].ts == s[i].ts { lo := FirstOfTie(s, i - 1); } else { lo := i; }
  }

  /** Skipping over the growth within one millisecond bills it after all: from before it ... */
  lemma TieSkippedAfter(s: seq<Row>, i: nat, hi: nat)
    requires Ordered(s) && CounterUp(s) && i < hi < |s| - 1
    requires s[i].ts == s[hi].ts && s[i].cpu < s[hi].cpu && InGap(s[i], s[hi + 1])
    ensures CpuPair(s[i], s[hi + 1]) > Stretch(CpuCharge(), s, i, hi + 1)
  {
    var b := hi + 1;
    TiesFree(s, i, hi);
    StretchSplits(CpuCharge(), s, i, hi, b);
    assert Stretch(CpuCharge(), s, hi, b) == CpuPair(s[hi], s[b]) + Stretch(CpuCharge(), s, b, b);
    assert s[hi].cpu <= s[b].cpu;
  }

  /** ... or to behind it. */
  lemma TieSkippedBefore(s: seq<Row>, lo: nat, j: nat)
    requires Ordered(s) && CounterUp(s) && 1 <= lo < j < |s|
    requires s[lo].ts == s[j].ts && s[lo].cpu < s[j].cpu && InGap(s[lo - 1], s[lo])
    ensures CpuPair(s[lo - 1], s[j]) > Stretch(CpuCharge(), s, lo - 1, j)
  {
    TiesFree(s, lo, j);
    assert s[lo - 1].cpu <= s[lo].cpu;
  }

  lemma HarmfulBefore(s: seq<Row>, i: nat, j: nat, k: nat) returns (a: nat, b: nat)
    requires Ordered(s) && CounterUp(s) && i < j < |s| && k < |s|
    requires s[i].ts == s[j].ts && s[i].cpu < s[j].cpu && InGap(s[i], s[k])
    ensures a < b < |s| && CpuPair(s[a], s[b]) > Stretch(CpuCharge(), s, a, b)
  {
    var hi := LastOfTie(s, j);
    assert hi > j ==> s[j].cpu <= s[hi].cpu;
    assert k > hi && (k > hi + 1 ==> s[hi + 1].ts <= s[k].ts);
    a, b := i, hi + 1;
    TieSkippedAfter(s, i, hi);
  }

  lemma HarmfulBehind(s: seq<Row>, i: nat, j: nat, k: nat) returns (a: nat, b: nat)
    requires Ordered(s) && CounterUp(s) && i < j < |s| && k < |s|
    requires s[i].ts == s[j].ts && s[i].cpu < s[j].cpu && InGap(s[k], s[i])
    ensures a < b < |s| && CpuPair(s[a], s[b]) > Stretch(CpuCharge(), s, a, b)
  {
    var lo := FirstOfTie(s, i);
    assert lo < i ==> s[lo].cpu <= s[i].cpu;
    assert k < lo && (k < lo - 1 ==> s[k].ts <= s[lo - 1].ts);
    a, b := lo - 1, j;
    TieSkippedBefore(s, lo, j);
  }

  lemma HarmfulTie(s: seq<Row>, i: nat, j: nat) returns (a: nat, b: nat)
    requires Ordered(s) && CounterUp(s) && i < j < |s|
    requires s[i].ts == s[j].ts && s[i].cpu != s[j].cpu && HasNeighbour(s, s[i])
    ensures a < b < |s| && CpuPair(s[a], s[b]) > Stretch(CpuCharge(), s, a, b)
  {
    var k :| 0 <= k < |s| && (InGap(s[i], s[k]) || InGap(s[k], s[i]));
    assert s[i].cpu <= s[j].cpu;
    if InGap(s[i], s[k]) {
      a, b := HarmfulBefore(s, i, j, k);
    } else {
      a, b := HarmfulBehind(s, i, j, k);
    }
  }

  /** Exactly when losing samples, whichever, never raises the CPU bill of a trace. */
  lemma LosingCpuIff(s: seq<Row>)
    requires Ordered(s) && CounterUp(s)
    ensures LossNeverRaises(Cpu, s) <==> TiesHarmless(s)
  {
    LossIff(Cpu, s);
    if TiesHarmless(s) {
      forall a, b | 0 <= a < b < |s| ensures CpuPair(s[a], s[b]) <= Stretch(CpuCharge(), s, a, b) {
        CpuSkips(s, a, b);
      }
    } else {
      var i, j :| 0 <= i < j < |s| && s[i].ts == s[j].ts && s[i].cpu != s[j].cpu && HasNeighbour(s, s[i]);
      var a, b := HarmfulTie(s, i, j);
    }
  }

  /** For instance, with two samples in one millisecond, losing one raises the bill from 0 to 10. */
  lemma TieLosesGrowth()
    ensures var row := (t, c) => NO_ROW.(ts := t, cpu := c);
            var s := [row(0, 0), row(0, 10), row(1, 10)];
            Billed(Cpu, s) == 0 && Billed(Cpu, [s[0], s[2]]) == 10
  {
    var a, b, c := NO_ROW, NO_ROW.(cpu := 10), NO_ROW.(ts := 1, cpu := 10);
    assert [a, b, c][1..] == [b, c] && [b, c][1..] == [c] && [a, c][1..] == [c];
    assert Billed(Cpu, [b, c]) == 0;
  }

  // ---------- Egress: detached samples ----------

  /** `truth` is what the counter really stood at: attached samples report it, detached ones
      report anything. */
  ghost predicate Reports(s: seq<Row>, truth: seq<int>)
  {
    && |truth| == |s|
    && (forall i, j :: 0 <= i < j < |s| ==> truth[i] <= truth[j])
    && (forall i :: 0 <= i < |s| && Attached(s[i]) ==> s[i].egress == truth[i])
  }

  /** Billed egress never exceeds the true growth. */
  lemma {:induction false} EgressNeverOvercharges(s: seq<Row>, truth: seq<int>)
    requires s != [] && Reports(s, truth)
    ensures Billed(Egress, s) <= truth[|s| - 1] - truth[0]
  {
    if |s| < 2 {
    } else {
      EgressNeverOvercharges(s[1..], truth[1..]);
      assert truth[0] <= truth[1];
    }
  }

  predicate EgressCounted(r: Row, n: Row, before: int, after: int)
  {
    before == after || (InGap(r, n) && Attached(r) && Attached(n))
  }

  /** It equals the true growth exactly when none of it falls into a pair that is dropped or has
      a detached sample. */
  lemma {:induction false} EgressTelescopes(s: seq<Row>, truth: seq<int>)
    requires s != [] && Reports(s, truth)
    ensures Billed(Egress, s) == truth[|s| - 1] - truth[0]
       <==> forall i :: 0 <= i < |s| - 1 ==> EgressCounted(s[i], s[i + 1], truth[i], truth[i + 1])
  {
    if |s| < 2 {
    } else {
      var t, u := s[1..], truth[1..];
      EgressTelescopes(t, u);
      EgressNeverOvercharges(t, u);
      assert truth[0] <= truth[1];
      assert forall i :: 0 <= i < |t| ==> t[i] == s[i + 1] && u[i] == truth[i + 1];
      assert (forall i :: 0 <= i < |t| - 1 ==> EgressCounted(t[i], t[i + 1], u[i], u[i + 1]))
        <==> forall i :: 1 <= i < |s| - 1 ==> EgressCounted(s[i], s[i + 1], truth[i], truth[i + 1]) by {
        CountedLater(s, truth);
      }
    }
  }

  lemma CountedLater(s: seq<Row>, truth: seq<int>)
    requires |truth| == |s| >= 2
    ensures (forall i :: 0 <= i < |s[1..]| - 1 ==>
               EgressCounted(s[1..][i], s[1..][i + 1], truth[1..][i], truth[1..][i + 1]))
       <==> forall i :: 1 <= i < |s| - 1 ==> EgressCounted(s[i], s[i + 1], truth[i], truth[i + 1])
  {
    var t, u := s[1..], truth[1..];
    if forall i :: 0 <= i < |t| - 1 ==> EgressCounted(t[i], t[i + 1], u[i], u[i + 1]) {
      forall i | 1 <= i < |s| - 1 ensures EgressCounted(s[i], s[i + 1], truth[i], truth[i + 1]) {
        assert EgressCounted(t[i - 1], t[i], u[i - 1], u[i]);
      }
    }
    if forall i :: 1 <= i < |s| - 1 ==> EgressCounted(s[i], s[i + 1], truth[i], truth[i + 1]) {
      forall i | 0 <= i < |t| - 1 ensures EgressCounted(t[i], t[i + 1], u[i], u[i + 1]) {
        assert EgressCounted(s[i + 1], s[i + 2], truth[i + 1], truth[i + 2]);
      }
    }
  }

  /** The counter as the attached samples show it does not fall. */
  ghost predicate AttachedUp(s: seq<Row>)
  {
    forall i, j :: 0 <= i < j < |s| && Attached(s[i]) && Attached(s[j]) ==> s[i].egress <= s[j].egress
  }

  /** Two attached samples in a row whose growth is not billed: detached ones lie between them,
      or they are of one millisecond. */
  ghost predicate Unbilled(s: seq<Row>, p: nat, q: nat)
  {
    && p < q < |s| && Attached(s[p]) && Attached(s[q])
    && (forall j :: p < j < q ==> !Attached(s[j]))
    && (p + 1 < q || s[p].ts == s[q].ts)
  }

  /** Samples `a` and `b` can be billed against each other if those between them are lost. */
  ghost predicate Spans(s: seq<Row>, a: nat, b: nat)
  {
    a < b < |s| && Attached(s[a]) && Attached(s[b]) && InGap(s[a], s[b])
  }

  /** The counter does not grow where growth is not billed, within the gap. */
  ghost predicate StillWhileUnbilled(s: seq<Row>)
  {
    forall a, p, q, b :: 0 <= a <= p < q <= b < |s| && Spans(s, a, b) && Unbilled(s, p, q) ==>
      s[p].egress == s[q].egress
  }

  lemma AdjacentBilled(s: seq<Row>, a: nat, p: nat, b: nat)
    requires Ordered(s) && a <= p < b && Spans(s, a, b)
    requires Attached(s[p]) && Attached(s[p + 1]) && s[p].ts != s[p + 1].ts
    ensures s[p + 1].egress - s[p].egress <= Stretch(EgressCharge(), s, p, p + 1)
  {
    assert (a < p ==> s[a].ts <= s[p].ts) && s[p].ts <= s[p + 1].ts && (p + 1 < b ==> s[p + 1].ts <= s[b].ts);
    assert Stretch(EgressCharge(), s, p + 1, p + 1) == 0;
  }

  lemma UnbilledStill(s: seq<Row>, a: nat, p: nat, q: nat, b: nat)
    requires StillWhileUnbilled(s) && a <= p < q <= b && Spans(s, a, b) && Unbilled(s, p, q)
    ensures s[p].egress == s[q].egress
  {
  }

  /** No sample between `p` and `q` is attached. */
  ghost predicate NoneAttached(s: seq<Row>, p: nat, q: nat)
  {
    forall j :: p < j < q && j < |s| ==> !Attached(s[j])
  }

  lemma {:induction false} NextAttached(s: seq<Row>, p: nat, i: nat, q: nat) returns (j: nat)
    requires p < i <= q < |s| && Attached(s[q]) && NoneAttached(s, p, i)
    ensures p < j <= q && Attached(s[j]) && NoneAttached(s, p, j)
    decreases q - i
  {
    if Attached(s[i]) { j := i; } else { j := NextAttached(s, p, i + 1, q); }
  }

  lemma EgressNonNegative(s: seq<Row>, a: nat, b: nat)
    requires a <= b < |s|
    ensures Stretch(EgressCharge(), s, a, b) >= 0
  {
    StretchNonNegative(EgressCharge(), s, a, b);
  }

  lemma UnbilledGrowth(s: seq<Row>, a: nat, p: nat, q: nat, b: nat)
    requires StillWhileUnbilled(s) && Spans(s, a, b) && a <= p < q <= b && Unbilled(s, p, q)
    ensures s[q].egress - s[p].egress <= Stretch(EgressCharge(), s, p, q)
  {
    UnbilledStill(s, a, p, q, b);
    EgressNonNegative(s, p, q);
  }

  /** The growth from one attached sample to the next is billed. */
  lemma NextBilled(s: seq<Row>, a: nat, p: nat, q: nat, b: nat)
    requires Ordered(s) && StillWhileUnbilled(s) && Spans(s, a, b)
    requires a <= p < q <= b && Attached(s[p]) && Attached(s[q]) && NoneAttached(s, p, q)
    ensures s[q].egress - s[p].egress <= Stretch(EgressCharge(), s, p, q)
  {
    if p + 1 < q || s[p].ts == s[q].ts {
      UnbilledGrowth(s, a, p, q, b);
    } else {
      AdjacentBilled(s, a, p, b);
    }
  }

  /** All growth between two attached samples within a span is billed. */
  lemma {:induction false} GrowthBilled(s: seq<Row>, a: nat, p: nat, q: nat, b: nat)
    requires Ordered(s) && StillWhileUnbilled(s) && Spans(s, a, b)
    requires a <= p <= q <= b && Attached(s[p]) && Attached(s[q])
    ensures s[q].egress - s[p].egress <= Stretch(EgressCharge(), s, p, q)
    decreases q - p
  {
    if p == q {
    } else {
      var j := NextAttached(s, p, p + 1, q);
      NextBilled(s, a, p, j, b);
      GrowthBilled(s, a, j, q, b);
      StretchSplits(EgressCharge(), s, p, j, q);
    }
  }

  /** From an attached sample on, with `i` not before it and none attached in between, no more
      than the growth is billed. */
  lemma {:induction false} GrowthAtMost(s: seq<Row>, l: nat, i: nat, b: nat)
    requires AttachedUp(s) && l <= i <= b < |s| && Attached(s[l]) && Attached(s[b])
    requires forall j :: l < j <= i ==> !Attached(s[j]) || i == b
    ensures i < b ==> Stretch(EgressCharge(), s, i, b) <= s[b].egress - s[l].egress
    decreases b - i
  {
    if i == b {
    } else if i + 1 == b {
      assert Stretch(EgressCharge(), s, b, b) == 0;
      assert s[l].egress <= s[b].egress;
    } else if Attached(s[i + 1]) {
      GrowthAtMost(s, i + 1, i + 1, b);
      assert s[l].egress <= s[i + 1].egress;
    } else {
      GrowthAtMost(s, l, i + 1, b);
    }
  }

  /** Every pair of an unbilled stretch is free. */
  lemma {:induction false} UnbilledFree(s: seq<Row>, p: nat, i: nat, q: nat)
    requires Unbilled(s, p, q) && p <= i <= q
    ensures Stretch(EgressCharge(), s, i, q) == 0
    decreases q - i
  {
    if i == q {
    } else {
      UnbilledFree(s, p, i + 1, q);
      assert !Attached(s[i]) || !Attached(s[i + 1]) || s[i].ts == s[i + 1].ts;
    }
  }

  lemma EgressSkipsCostLess(s: seq<Row>)
    requires Ordered(s) && AttachedUp(s) && StillWhileUnbilled(s)
    ensures SkipsCostLess(EgressCharge(), s)
  {
    forall a, b | 0 <= a < b < |s| ensures EgressPair(s[a], s[b]) <= Stretch(EgressCharge(), s, a, b) {
      EgressNonNegative(s, a, b);
      if Spans(s, a, b) { GrowthBilled(s, a, a, b, b); }
    }
  }

  lemma UnbilledSkipped(s: seq<Row>, a: nat, p: nat, q: nat, b: nat)
    requires AttachedUp(s) && a <= p < q <= b && Spans(s, a, b) && Unbilled(s, p, q) && s[p].egress != s[q].egress
    ensures !SkipsCostLess(EgressCharge(), s)
  {
    var f := EgressCharge();
    UnbilledFree(s, p, p, q);
    GrowthAtMost(s, a, a, p);
    GrowthAtMost(s, q, q, b);
    StretchSplits(f, s, a, p, b);
    StretchSplits(f, s, p, q, b);
    assert s[p].egress < s[q].egress && s[a].egress <= s[b].egress;
    assert f(s[a], s[b]) > Stretch(f, s, a, b);
  }

  /** Exactly when losing samples, whichever, never raises the egress bill of a trace. */
  lemma LosingEgressIff(s: seq<Row>)
    requires Ordered(s) && AttachedUp(s)
    ensures LossNeverRaises(Egress, s) <==> StillWhileUnbilled(s)
  {
    LossIff(Egress, s);
    if StillWhileUnbilled(s) {
      EgressSkipsCostLess(s);
    } else {
      var a, p, q, b :| 0 <= a <= p < q <= b < |s| && Spans(s, a, b) && Unbilled(s, p, q) && s[p].egress != s[q].egress;
      UnbilledSkipped(s, a, p, q, b);
    }
  }

  // ---------- Losing samples: memory and disk ----------

  /** Time passes before or after the i-th sample. */
  predicate Counts(s: seq<Row>, i: nat)
    requires 0 < i < |s| - 1
  {
    s[i - 1].ts < s[i].ts || s[i].ts < s[i + 1].ts
  }

  /** Between two samples within the gap the level is never below both of them, where it
      counts. */
  ghost predicate NoDips(m: Meter, s: seq<Row>)
    requires m.Memory? || m.Disk?
  {
    forall a, i, b :: 0 <= a < i < b < |s| && InGap(s[a], s[b]) && Counts(s, i) ==>
      Level(m, s[i]) >= Min(Level(m, s[a]), Level(m, s[b]))
  }

  lemma HeldGrows(x: int, y: int, r: Row, n: Row)
    requires x <= y
    ensures Held(x, r, n) <= Held(y, r, n)
  {
    HeldNonNegative(y - x, r, n);
    if InGap(r, n) { assert y * (n.ts - r.ts) - x * (n.ts - r.ts) == (y - x) * (n.ts - r.ts); }
  }

  lemma HeldSplits(x: int, r: Row, k: Row, n: Row)
    requires r.ts <= k.ts <= n.ts <= r.ts + MAX_GAP
    ensures Held(x, r, n) == Held(x, r, k) + Held(x, k, n)
  {
    assert x * (n.ts - r.ts) == x * (k.ts - r.ts) + x * (n.ts - k.ts);
  }

  lemma HeldLess(x: int, r: Row, n: Row)
    requires InGap(r, n)
    ensures Held(x - 1, r, n) < Held(x, r, n)
  {
    assert (x - 1) * (n.ts - r.ts) == x * (n.ts - r.ts) - (n.ts - r.ts);
  }

  /** A stretch whose levels are at least x wherever time passes bills at least x for its time. */
  lemma {:induction false} FloorBill(m: Meter, s: seq<Row>, a: nat, b: nat, x: int)
    requires (m.Memory? || m.Disk?) && Ordered(s) && a <= b < |s| && s[b].ts - s[a].ts <= MAX_GAP
    requires forall i :: a <= i < b && s[i].ts < s[i + 1].ts ==> Level(m, s[i]) >= x && Level(m, s[i + 1]) >= x
    ensures Stretch(GaugeCharge(m), s, a, b) >= Held(x, s[a], s[b])
    decreases b - a
  {
    if a == b {
    } else {
      assert s[a].ts <= s[a + 1].ts && (a + 1 < b ==> s[a + 1].ts <= s[b].ts);
      HeldSplits(x, s[a], s[a + 1], s[b]);
      if s[a].ts < s[a + 1].ts { HeldGrows(x, Min(Level(m, s[a]), Level(m, s[a + 1])), s[a], s[a + 1]); }
      FloorBill(m, s, a + 1, b, x);
    }
  }

  /** A stretch of which no two neighbours are both above x bills at most x for its time. */
  lemma {:induction false} CeilingBill(m: Meter, s: seq<Row>, a: nat, b: nat, x: int)
    requires (m.Memory? || m.Disk?) && Ordered(s) && a <= b < |s| && s[b].ts - s[a].ts <= MAX_GAP
    requires forall i :: a <= i < b ==> Level(m, s[i]) <= x || Level(m, s[i + 1]) <= x
    ensures Stretch(GaugeCharge(m), s, a, b) <= Held(x, s[a], s[b])
    decreases b - a
  {
    if a == b {
    } else {
      assert s[a].ts <= s[a + 1].ts && (a + 1 < b ==> s[a + 1].ts <= s[b].ts);
      HeldSplits(x, s[a], s[a + 1], s[b]);
      HeldGrows(Min(Level(m, s[a]), Level(m, s[a + 1])), x, s[a], s[a + 1]);
      CeilingBill(m, s, a + 1, b, x);
    }
  }

  lemma NoDipsFloor(m: Meter, s: seq<Row>, a: nat, b: nat, i: nat)
    requires (m.Memory? || m.Disk?) && NoDips(m, s) && a < b < |s| && InGap(s[a], s[b])
    requires a <= i < b && s[i].ts < s[i + 1].ts
    ensures var x := Min(Level(m, s[a]), Level(m, s[b])); Level(m, s[i]) >= x && Level(m, s[i + 1]) >= x
  {
    assert a < i ==> Counts(s, i);
    assert i + 1 < b ==> Counts(s, i + 1);
  }

  lemma GaugeSkips(m: Meter, s: seq<Row>, a: nat, b: nat)
    requires (m.Memory? || m.Disk?) && Ordered(s) && NoDips(m, s) && a < b < |s| && InGap(s[a], s[b])
    ensures GaugeCharge(m)(s[a], s[b]) <= Stretch(GaugeCharge(m), s, a, b)
  {
    var x := Min(Level(m, s[a]), Level(m, s[b]));
    forall i | a <= i < b && s[i].ts < s[i + 1].ts ensures Level(m, s[i]) >= x && Level(m, s[i + 1]) >= x {
      NoDipsFloor(m, s, a, b, i);
    }
    FloorBill(m, s, a, b, x);
  }

  /** Between samples `a` and `b`, at least one, every level is lower than theirs. */
  ghost predicate Dip(m: Meter, s: seq<Row>, a: nat, b: nat)
    requires m.Memory? || m.Disk?
  {
    && a + 1 < b < |s| && InGap(s[a], s[b])
    && forall j :: a < j < b ==> Level(m, s[j]) < Min(Level(m, s[a]), Level(m, s[b]))
  }

  lemma SkippedDip(m: Meter, s: seq<Row>, a: nat, b: nat)
    requires (m.Memory? || m.Disk?) && Ordered(s) && Dip(m, s, a, b)
    ensures GaugeCharge(m)(s[a], s[b]) > Stretch(GaugeCharge(m), s, a, b)
  {
    var x := Min(Level(m, s[a]), Level(m, s[b]));
    CeilingBill(m, s, a, b, x - 1);
    HeldLess(x, s[a], s[b]);
  }

  /** Around a level lower than both ends there are two samples with only lower ones between. */
  lemma {:induction false} FindDip(m: Meter, s: seq<Row>, a: nat, i: nat, b: nat) returns (a': nat, b': nat)
    requires (m.Memory? || m.Disk?) && Ordered(s) && a < i < b < |s| && InGap(s[a], s[b]) && Counts(s, i)
    requires Level(m, s[i]) < Min(Level(m, s[a]), Level(m, s[b]))
    ensures Dip(m, s, a', b')
    decreases b - a
  {
    if j :| a < j < b && Level(m, s[j]) >= Min(Level(m, s[a]), Level(m, s[b])) {
      assert s[a].ts <= s[j].ts <= s[b].ts;
      if j < i {
        assert (j < i - 1 ==> s[j].ts <= s[i - 1].ts) && s[i - 1].ts <= s[i].ts <= s[i + 1].ts;
        assert i + 1 < b ==> s[i + 1].ts <= s[b].ts;
        a', b' := FindDip(m, s, j, i, b);
      } else {
        assert (a < i - 1 ==> s[a].ts <= s[i - 1].ts) && s[i - 1].ts <= s[i].ts <= s[i + 1].ts;
        assert i + 1 < j ==> s[i + 1].ts <= s[j].ts;
        a', b' := FindDip(m, s, a, i, j);
      }
    } else {
      a', b' := a, b;
    }
  }

  lemma GaugeSkipsCostLess(m: Meter, s: seq<Row>)
    requires (m.Memory? || m.Disk?) && Ordered(s) && NoCredit(GaugeCharge(m), s) && NoDips(m, s)
    ensures SkipsCostLess(GaugeCharge(m), s)
  {
    forall a, b | 0 <= a < b < |s| ensures GaugeCharge(m)(s[a], s[b]) <= Stretch(GaugeCharge(m), s, a, b) {
      if InGap(s[a], s[b]) { GaugeSkips(m, s, a, b); } else { StretchNonNegative(GaugeCharge(m), s, a, b); }
    }
  }

  lemma DipCostsMore(m: Meter, s: seq<Row>)
    requires (m.Memory? || m.Disk?) && Ordered(s) && !NoDips(m, s)
    ensures !SkipsCostLess(GaugeCharge(m), s)
  {
    var a, i, b :| 0 <= a < i < b < |s| && InGap(s[a], s[b]) && Counts(s, i)
                   && Level(m, s[i]) < Min(Level(m, s[a]), Level(m, s[b]));
    var a', b' := FindDip(m, s, a, i, b);
    SkippedDip(m, s, a', b');
  }

  lemma GaugeNoCredit(m: Meter, s: seq<Row>)
    requires (m.Memory? || m.Disk?) && Physical(s)
    ensures NoCredit(GaugeCharge(m), s)
  {
    forall i, j | 0 <= i < j < |s| ensures GaugeCharge(m)(s[i], s[j]) >= 0 {
      HeldNonNegative(Min(Level(m, s[i]), Level(m, s[j])), s[i], s[j]);
    }
  }

  /** Exactly when losing samples, whichever, never raises the memory or the disk bill. */
  lemma LosingGaugeIff(m: Meter, s: seq<Row>)
    requires (m.Memory? || m.Disk?) && Ordered(s) && Physical(s)
    ensures LossNeverRaises(m, s) <==> NoDips(m, s)
  {
    GaugeNoCredit(m, s);
    LossIff(m, s);
    if NoDips(m, s) { GaugeSkipsCostLess(m, s); } else { DipCostsMore(m, s); }
  }

  // ---------- Which rows count ----------

  /** The workspaces a request is about: with no restriction, all. */
  predicate Asked(q: Request, workspace: string)
  {
    (q.workspace == "" || workspace == q.workspace) && (q.workspaces == [] || workspace in q.workspaces)
  }

  lemma {:induction false} WhereIff(q: Request, rows: seq<Row>, r: Row)
    ensures r in Where(q, rows) <==> r in rows && q.start <= r.ts < q.end && Asked(q, r.resource.workspace)
  {
    if rows == [] {
    } else {
      WhereIff(q, rows[1..], r);
      assert rows == [rows[0]] + rows[1..];
    }
  }

  function Everyone(q: Request): Request { q.(workspace := "", workspaces := []) }

  lemma {:induction false} LeadWhere(q: Request, r: Row, rows: seq<Row>)
    requires Asked(q, r.resource.workspace)
    ensures Lead(r, Where(q, rows)) == Lead(r, Where(Everyone(q), rows))
  {
    if rows == [] {
    } else {
      LeadWhere(q, r, rows[1..]);
      LeadCons(r, rows[0], Where(q, rows[1..]));
      LeadCons(r, rows[0], Where(Everyone(q), rows[1..]));
      assert Matches(q, rows[0]) <==> Matches(Everyone(q), rows[0]) && Asked(q, rows[0].resource.workspace);
      assert [] + Where(q, rows[1..]) == Where(q, rows[1..]);
      assert [] + Where(Everyone(q), rows[1..]) == Where(Everyone(q), rows[1..]);
    }
  }

  lemma LeadCons(r: Row, n: Row, rest: seq<Row>)
    ensures Lead(r, [n] + rest)
         == if n.resource.workspace == r.resource.workspace && n.container == r.container then n else Lead(r, rest)
  {
    assert ([n] + rest)[1..] == rest;
  }

  lemma TotalCons(m: Meter, g: Resource, r: Row, rest: seq<Row>)
    ensures Total(m, OfResource(g), [r] + rest)
         == (if r.resource == g then Pair(m, r, Lead(r, rest)) else 0) + Total(m, OfResource(g), rest)
  {
    assert ([r] + rest)[1..] == rest;
  }

  /** Asking for some workspaces only leaves out the others and changes no one's bill. */
  lemma {:induction false} WorkspaceFilter(m: Meter, g: Resource, q: Request, table: seq<Row>)
    ensures Usage(m, g, q, table) == if Asked(q, g.workspace) then Usage(m, g, Everyone(q), table) else 0
  {
    if table == [] {
    } else {
      var r, rest := table[0], table[1..];
      WorkspaceFilter(m, g, q, rest);
      assert Matches(q, r) <==> Matches(Everyone(q), r) && Asked(q, r.resource.workspace);
      TotalCons(m, g, r, Where(q, rest));
      TotalCons(m, g, r, Where(Everyone(q), rest));
      assert [] + Where(q, rest) == Where(q, rest) && [] + Where(Everyone(q), rest) == Where(Everyone(q), rest);
      if Asked(q, r.resource.workspace) { LeadWhere(q, r, rest); }
    }
  }

  // ---------- Cutting the billing window ----------

  /** The pairs that a cut between `a` and `b` separates: for each container, its last row
      of `a` with its first row of `b`. */
  function Straddling(m: Meter, pick: Pick, a: seq<Row>, b: seq<Row>): int
  {
    if a == [] then 0
    else (if Picks(pick, a[0]) && Only(Partition(a[0]), a[1..]) == []
          then Pair(m, a[0], Lead(a[0], b)) else 0)
         + Straddling(m, pick, a[1..], b)
  }

  lemma {:induction false} LeadAcross(r: Row, a: seq<Row>, b: seq<Row>)
    ensures Lead(r, a + b) == if Only(Partition(r), a) == [] then Lead(r, b) else Lead(r, a)
    ensures Only(Partition(r), a) == [] ==> Lead(r, a) == NO_ROW
  {
    if a == [] {
      assert a + b == b;
    } else {
      assert (a + b)[1..] == a[1..] + b;
      LeadAcross(r, a[1..], b);
    }
  }

  /** Billing two adjoining windows apart loses exactly the straddling pairs. */
  lemma {:induction false} CutTotal(m: Meter, pick: Pick, a: seq<Row>, b: seq<Row>)
    requires Physical(a) && Physical(b)
    ensures Total(m, pick, a + b) == Total(m, pick, a) + Total(m, pick, b) + Straddling(m, pick, a, b)
  {
    if a == [] {
      assert a + b == b;
    } else {
      assert (a + b)[1..] == a[1..] + b;
      CutTotal(m, pick, a[1..], b);
      LeadAcross(a[0], a[1..], b);
      LastSampleFree(m, a[0]);
    }
  }

  /** Per container that is one pair: its last row before the cut with its first row after. */
  lemma {:induction false} StraddlingIsOnePair(m: Meter, p: (string, string), a: seq<Row>, b: seq<Row>)
    requires Physical(a)
    ensures Straddling(m, OfContainer(p), a, b) == CutPair(m, Only(p, a), Only(p, b))
  {
    if a == [] {
    } else {
      var rest := Only(p, a[1..]);
      StraddlingIsOnePair(m, p, a[1..], b);
      if Partition(a[0]) != p {
        assert Only(p, a) == rest;
      } else if rest != [] {
        assert Only(p, a) == [a[0]] + rest;
      } else {
        assert Only(p, a) == [a[0]];
        LeadIsNextOfContainer(a[0], b);
        LastSampleFree(m, a[0]);
        StraddlingNone(m, p, a[1..], b);
      }
    }
  }

  function CutPair(m: Meter, x: seq<Row>, y: seq<Row>): int
  {
    if x == [] || y == [] then 0 else Pair(m, x[|x| - 1], y[0])
  }

  lemma {:induction false} StraddlingNone(m: Meter, p: (string, string), a: seq<Row>, b: seq<Row>)
    requires Only(p, a) == []
    ensures Straddling(m, OfContainer(p), a, b) == 0
  {
    if a == [] {
    } else {
      StraddlingNone(m, p, a[1..], b);
    }
  }

  lemma {:induction false} StraddlingNonNegative(m: Meter, pick: Pick, a: seq<Row>, b: seq<Row>)
    requires Physical(a) && Physical(b)
    ensures Straddling(m, pick, a, b) >= 0
  {
    if a == [] {
    } else {
      StraddlingNonNegative(m, pick, a[1..], b);
      LeadPhysical(a[0], b);
      PairNonNegative(m, a[0], Lead(a[0], b));
    }
  }

  lemma {:induction false} LeadPhysical(r: Row, rest: seq<Row>)
    requires Physical(rest)
    ensures PhysicalRow(Lead(r, rest))
  {
    if rest == [] {
    } else {
      LeadPhysical(r, rest[1..]);
    }
  }

  lemma {:induction false} WherePhysical(q: Request, rows: seq<Row>)
    requires Physical(rows)
    ensures Physical(Where(q, rows))
  {
    if rows == [] {
    } else {
      WherePhysical(q, rows[1..]);
    }
  }

  lemma {:induction false} WhereEmpty(q: Request, rows: seq<Row>)
    requires forall i :: 0 <= i < |rows| ==> !Matches(q, rows[i])
    ensures Where(q, rows) == []
  {
    if rows == [] {
    } else {
      assert !Matches(q, rows[0]);
      assert forall i :: 0 <= i < |rows[1..]| ==> rows[1..][i] == rows[i + 1];
      WhereEmpty(q, rows[1..]);
    }
  }

  lemma WhereBefore(q: Request, rows: seq<Row>)
    requires Ordered(rows) && rows != [] && rows[0].ts >= q.end
    ensures Where(q, rows) == [] && Where(q, rows[1..]) == []
  {
    forall i | 0 <= i < |rows| ensures !Matches(q, rows[i]) {
      assert i > 0 ==> rows[0].ts <= rows[i].ts;
    }
    WhereEmpty(q, rows);
    WhereEmpty(q, rows[1..]);
  }

  lemma WhereSkips(q: Request, rows: seq<Row>)
    requires rows != [] && !Matches(q, rows[0])
    ensures Where(q, rows) == Where(q, rows[1..])
  {
  }

  ghost predicate SplitsAt(q: Request, cut: int, rows: seq<Row>)
  {
    Where(q, rows) == Where(q.(end := cut), rows) + Where(q.(start := cut), rows)
  }

  lemma SplitBehind(q: Request, cut: int, rows: seq<Row>)
    requires Ordered(rows) && q.start <= cut <= q.end && rows != [] && rows[0].ts >= cut && SplitsAt(q, cut, rows[1..])
    ensures SplitsAt(q, cut, rows)
  {
    WhereBefore(q.(end := cut), rows);
    assert Matches(q, rows[0]) <==> Matches(q.(start := cut), rows[0]);
    ConcatAssociative([], [], Where(q.(start := cut), rows));
  }

  lemma SplitBefore(q: Request, cut: int, rows: seq<Row>)
    requires q.start <= cut <= q.end && rows != [] && rows[0].ts < cut && SplitsAt(q, cut, rows[1..])
    ensures SplitsAt(q, cut, rows)
  {
    WhereSkips(q.(start := cut), rows);
    if Matches(q, rows[0]) {
      assert Matches(q.(end := cut), rows[0]);
      ConcatAssociative([rows[0]], Where(q.(end := cut), rows[1..]), Where(q.(start := cut), rows[1..]));
    } else {
      WhereSkips(q, rows);
      WhereSkips(q.(end := cut), rows);
    }
  }

  /** In ts order, the rows of the window are those before the cut and then those after. */
  lemma {:induction false} WhereSplits(q: Request, cut: int, rows: seq<Row>)
    requires Ordered(rows) && q.start <= cut <= q.end
    ensures SplitsAt(q, cut, rows)
  {
    if rows == [] {
    } else {
      WhereSplits(q, cut, rows[1..]);
      if rows[0].ts >= cut { SplitBehind(q, cut, rows); } else { SplitBefore(q, cut, rows); }
    }
  }

  /** For every meter and resource: cutting the window at any instant loses exactly one pair
      per container, the one straddling the cut, so the parts never bill more than the
      whole. */
  lemma {:induction false} CutUsage(m: Meter, g: Resource, q: Request, cut: int, table: seq<Row>)
    requires Ordered(table) && Physical(table) && q.start <= cut <= q.end
    ensures var before, after := q.(end := cut), q.(start := cut);
            && Usage(m, g, q, table) == Usage(m, g, before, table) + Usage(m, g, after, table)
                 + Straddling(m, OfResource(g), Where(before, table), Where(after, table))
            && Usage(m, g, before, table) + Usage(m, g, after, table) <= Usage(m, g, q, table)
  {
    var a, b := Where(q.(end := cut), table), Where(q.(start := cut), table);
    WhereSplits(q, cut, table);
    WherePhysical(q.(end := cut), table);
    WherePhysical(q.(start := cut), table);
    CutTotal(m, OfResource(g), a, b);
    StraddlingNonNegative(m, OfResource(g), a, b);
  }

  /** The bills of the windows between consecutive cuts. */
  function Parts(m: Meter, g: Resource, q: Request, cuts: seq<int>, table: seq<Row>): int
    decreases |cuts|
  {
    if cuts == [] then Usage(m, g, q, table)
    else Usage(m, g, q.(end := cuts[0]), table) + Parts(m, g, q.(start := cuts[0]), cuts[1..], table)
  }

  /** However often the window is cut, the parts together never bill more than the whole. */
  lemma {:induction false} PartsNeverExceedWhole(m: Meter, g: Resource, q: Request, cuts: seq<int>, table: seq<Row>)
    requires Ordered(table) && Physical(table)
    requires q.start <= q.end && forall i :: 0 <= i < |cuts| ==> q.start <= cuts[i] <= q.end
    requires forall i, j :: 0 <= i < j < |cuts| ==> cuts[i] <= cuts[j]
    ensures Parts(m, g, q, cuts, table) <= Usage(m, g, q, table)
    decreases |cuts|
  {
    if cuts == [] {
    } else {
      assert forall i :: 0 <= i < |cuts[1..]| ==> cuts[1..][i] == cuts[i + 1];
      PartsNeverExceedWhole(m, g, q.(start := cuts[0]), cuts[1..], table);
      CutUsage(m, g, q, cuts[0], table);
    }
  }
}
