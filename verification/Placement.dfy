/**
 The count-based placement rule that decides where a deleted tablet comes back,
 and what any sequence of delete-and-re-place moves does to the counts.

 A tablet list carries the current assignment in its `disk` fields; the count tables
 the planners work with are the tally of such a list.
 */
module Placement {
  import opened Common
  import opened Sums

  type Disk = string
  type Table = string

  datatype Tablet = Tablet(id: string, table: Table, disk: Disk, size: nat)

  /** One table's dictionary: its disks in insertion order, and a count for each. */
  datatype Row = Row(order: seq<Disk>, count: map<Disk, int>)

  datatype Counts = Counts(rows: map<Table, Row>, overall: map<Disk, int>)

  // ---------- The placement rule ----------

  function Get(m: map<Disk, int>, d: Disk, default: int): int {
    if d in m then m[d] else default
  }

  ghost predicate ValidRow(row: Row) {
    Distinct(row.order) && (set d | d in row.order) == row.count.Keys
  }

  function RowOf(c: Counts, table: Table): Row {
    if table in c.rows then c.rows[table] else Row([], map[])
  }

  /** The table's row once one of its tablets is gone from source; an unknown source is added last. */
  function AfterDelete(row: Row, source: Disk): Row {
    Row(if source in row.count then row.order else row.order + [source],
        row.count[source := Get(row.count, source, 1) - 1])
  }

  /** Per-table count first, overall count second, both after the deletion. */
  function Rank(c: Counts, table: Table, source: Disk, d: Disk): (int, int) {
    (Get(RowOf(c, table).count, d, 1) - (if d == source then 1 else 0),
     if d == source then Get(c.overall, d, 1) - 1 else Get(c.overall, d, 0))
  }

  predicate Before(a: (int, int), b: (int, int)) {
    a.0 < b.0 || (a.0 == b.0 && a.1 < b.1)
  }

  /**
   dest is where a tablet of this table deleted from source is placed again: no disk ranks
   below it, and of the disks that tie with it, it is the first in the table's disk order.
   */
  ghost predicate Places(c: Counts, table: Table, source: Disk, dest: Disk) {
    var order := AfterDelete(RowOf(c, table), source).order;
    exists i :: 0 <= i < |order| && FirstLeastAt(c, table, source, order, i) && order[i] == dest
  }

  ghost predicate FirstLeastAt(c: Counts, table: Table, source: Disk, order: seq<Disk>, i: int)
    requires 0 <= i < |order|
  {
    && (forall j | 0 <= j < i :: Before(Rank(c, table, source, order[i]), Rank(c, table, source, order[j])))
    && (forall j | 0 <= j < |order| :: !Before(Rank(c, table, source, order[j]), Rank(c, table, source, order[i])))
  }

  lemma PlacesUnique(c: Counts, table: Table, source: Disk, d: Disk, e: Disk)
    requires Places(c, table, source, d) && Places(c, table, source, e)
    ensures d == e
  {
    var order := AfterDelete(RowOf(c, table), source).order;
    var i :| 0 <= i < |order| && FirstLeastAt(c, table, source, order, i) && order[i] == d;
    var j :| 0 <= j < |order| && FirstLeastAt(c, table, source, order, j) && order[j] == e;
    assert i == j;
  }

  /**
   The scan over the copied row. The result is never None: the source itself is always an
   entry of the copy, so the callers' test for a missing destination never fires.
   */
  method SimulatePlacement(table: Table, source: Disk, c: Counts) returns (best: Option<Disk>)
    requires ValidRow(RowOf(c, table))
    ensures best.Some? && Places(c, table, source, best.value)
  {
    var simTable := AfterDelete(RowOf(c, table), source);
    var simOverall := c.overall[source := Get(c.overall, source, 1) - 1];
    var bestTable, bestOverall := 0, 0;
    best := None;
    ghost var at := 0;
    for k := 0 to |simTable.order|
      invariant best.None? <==> k == 0
      invariant k > 0 ==> at < k && best.value == simTable.order[at]
      invariant k > 0 ==> (bestTable, bestOverall) == Rank(c, table, source, best.value)
      invariant forall j | 0 <= j < at && k > 0 ::
          Before((bestTable, bestOverall), Rank(c, table, source, simTable.order[j]))
      invariant forall j | 0 <= j < k :: !Before(Rank(c, table, source, simTable.order[j]), (bestTable, bestOverall))
    {
      var disk := simTable.order[k];
      var tc := simTable.count[disk];
      var oc := Get(simOverall, disk, 0);
      assert (tc, oc) == Rank(c, table, source, disk);
      if best.None? || tc < bestTable || (tc == bestTable && oc < bestOverall) {
        best, bestTable, bestOverall := Some(disk), tc, oc;
        at := k;
      }
    }
    assert source in simTable.order;
    assert FirstLeastAt(c, table, source, simTable.order, at);
  }

  // ---------- Tablet lists and their tallies ----------

  /** The disks, and each table's own disk order: what stays fixed while tablets move. */
  datatype Layout = Layout(disks: seq<Disk>, tables: seq<Table>, orders: map<Table, seq<Disk>>)

  ghost predicate ValidLayout(lay: Layout) {
    && Distinct(lay.disks) && Distinct(lay.tables)
    && (forall t | t in lay.tables :: t in lay.orders)
    && (forall t | t in lay.orders :: Distinct(lay.orders[t]) && forall d :: d in lay.orders[t] <==> d in lay.disks)
  }

  ghost predicate Fits(lay: Layout, ts: seq<Tablet>) {
    forall i | 0 <= i < |ts| :: ts[i].table in lay.tables && ts[i].disk in lay.disks
  }

  function IsOf(t: Table, d: Disk): Tablet -> int {
    (x: Tablet) => if x.table == t && x.disk == d then 1 else 0
  }

  function IsOn(d: Disk): Tablet -> int {
    (x: Tablet) => if x.disk == d then 1 else 0
  }

  function SizeOn(d: Disk): Tablet -> int {
    (x: Tablet) => if x.disk == d then x.size else 0
  }

  /** Number of tablets of table t on disk d. */
  function OnTable(ts: seq<Tablet>, t: Table, d: Disk): int { Sum(ts, IsOf(t, d)) }

  function OnDisk(ts: seq<Tablet>, d: Disk): int { Sum(ts, IsOn(d)) }

  function BytesOn(ts: seq<Tablet>, d: Disk): int { Sum(ts, SizeOn(d)) }

  function PerDisk(ts: seq<Tablet>, t: Table): Disk -> int { (d: Disk) => OnTable(ts, t, d) }

  function PerDiskAll(ts: seq<Tablet>): Disk -> int { (d: Disk) => OnDisk(ts, d) }

  function CountMap(order: seq<Disk>, f: Disk -> int): map<Disk, int> { map d | d in order :: f(d) }

  /** The count dictionaries that belong to a tablet list. */
  function Tally(lay: Layout, ts: seq<Tablet>): Counts
    requires forall t | t in lay.tables :: t in lay.orders
  {
    Counts(map t | t in lay.tables :: Row(lay.orders[t], CountMap(lay.orders[t], PerDisk(ts, t))),
           CountMap(lay.disks, PerDiskAll(ts)))
  }

  function Relocated(ts: seq<Tablet>, i: nat, dest: Disk): seq<Tablet>
    requires i < |ts|
  {
    ts[i := ts[i].(disk := dest)]
  }

  lemma RelocatedCounts(ts: seq<Tablet>, i: nat, dest: Disk, t: Table, d: Disk)
    requires i < |ts| && dest != ts[i].disk
    ensures OnTable(Relocated(ts, i, dest), t, d) == OnTable(ts, t, d)
         + (if t != ts[i].table then 0 else if d == ts[i].disk then -1 else if d == dest then 1 else 0)
    ensures OnDisk(Relocated(ts, i, dest), d) == OnDisk(ts, d)
         + (if d == ts[i].disk then -1 else if d == dest then 1 else 0)
    ensures BytesOn(Relocated(ts, i, dest), d) == BytesOn(ts, d)
         + (if d == ts[i].disk then -(ts[i].size as int) else if d == dest then ts[i].size else 0)
  {
    var x := ts[i].(disk := dest);
    SumUpdate(ts, i, x, IsOf(t, d));
    SumUpdate(ts, i, x, IsOn(d));
    SumUpdate(ts, i, x, SizeOn(d));
  }

  lemma CountsNonNegative(ts: seq<Tablet>, t: Table, d: Disk)
    ensures 0 <= OnTable(ts, t, d) && 0 <= OnDisk(ts, d)
    ensures (exists i :: 0 <= i < |ts| && ts[i].table == t && ts[i].disk == d) ==> 1 <= OnTable(ts, t, d)
  {
    SumNonNegative(ts, IsOf(t, d));
    SumNonNegative(ts, IsOn(d));
    if i :| 0 <= i < |ts| && ts[i].table == t && ts[i].disk == d {
      SumWithout(ts, i, IsOf(t, d));
      SumNonNegative(ts[..i] + ts[i + 1..], IsOf(t, d));
    }
  }

  function ShiftOne(m: map<Disk, int>, source: Disk, dest: Disk): map<Disk, int>
    requires source in m && dest in m
  {
    var m' := m[source := m[source] - 1];
    m'[dest := m'[dest] + 1]
  }

  /** The four in-place counter updates a planner makes for one move. */
  function Shift(c: Counts, t: Table, source: Disk, dest: Disk): Counts
    requires t in c.rows && source in c.rows[t].count && dest in c.rows[t].count
    requires source in c.overall && dest in c.overall
  {
    Counts(c.rows[t := c.rows[t].(count := ShiftOne(c.rows[t].count, source, dest))],
           ShiftOne(c.overall, source, dest))
  }

  lemma ShiftCountMap(order: seq<Disk>, f: Disk -> int, g: Disk -> int, s: Disk, d: Disk)
    requires s in order && d in order && s != d
    requires g(s) == f(s) - 1 && g(d) == f(d) + 1
    requires forall e | e in order && e != s && e != d :: g(e) == f(e)
    ensures ShiftOne(CountMap(order, f), s, d) == CountMap(order, g)
  {
  }

  /** Shifting the counters is the same as counting the moved list afresh. */
  lemma ShiftIsTally(lay: Layout, ts: seq<Tablet>, i: nat, dest: Disk)
    requires ValidLayout(lay) && Fits(lay, ts)
    requires i < |ts| && dest in lay.disks && dest != ts[i].disk
    ensures Shift(Tally(lay, ts), ts[i].table, ts[i].disk, dest) == Tally(lay, Relocated(ts, i, dest))
  {
    hide OnTable, OnDisk, Relocated, ShiftOne, CountMap;
    var t, s, next := ts[i].table, ts[i].disk, Relocated(ts, i, dest);
    forall d: Disk ensures PerDisk(next, t)(d) == PerDisk(ts, t)(d) + (if d == s then -1 else if d == dest then 1 else 0) {
      RelocatedCounts(ts, i, dest, t, d);
    }
    forall d: Disk ensures PerDiskAll(next)(d) == PerDiskAll(ts)(d) + (if d == s then -1 else if d == dest then 1 else 0) {
      RelocatedCounts(ts, i, dest, t, d);
    }
    ShiftCountMap(lay.disks, PerDiskAll(ts), PerDiskAll(next), s, dest);
    ShiftCountMap(lay.orders[t], PerDisk(ts, t), PerDisk(next, t), s, dest);
    forall u | u in lay.tables && u != t ensures CountMap(lay.orders[u], PerDisk(ts, u)) == CountMap(lay.orders[u], PerDisk(next, u)) {
      OtherRowSame(lay.orders[u], ts, i, dest, u);
    }
  }

  lemma OtherRowSame(order: seq<Disk>, ts: seq<Tablet>, i: nat, dest: Disk, u: Table)
    requires i < |ts| && dest != ts[i].disk && u != ts[i].table
    ensures CountMap(order, PerDisk(ts, u)) == CountMap(order, PerDisk(Relocated(ts, i, dest), u))
  {
    hide OnTable;
    forall d: Disk ensures PerDisk(Relocated(ts, i, dest), u)(d) == PerDisk(ts, u)(d) {
      RelocatedCounts(ts, i, dest, u, d);
    }
  }

  // ---------- Moves ----------

  /** Deleting tablet i makes it come back on dest. */
  ghost predicate Lands(lay: Layout, ts: seq<Tablet>, i: nat, dest: Disk)
    requires ValidLayout(lay) && i < |ts|
  {
    Places(Tally(lay, ts), ts[i].table, ts[i].disk, dest)
  }

  /** A tablet of table t deleted from s would come back on s. */
  ghost predicate Stuck(lay: Layout, ts: seq<Tablet>, t: Table, s: Disk)
    requires ValidLayout(lay)
  {
    Places(Tally(lay, ts), t, s, s)
  }

  /** One accepted move: some tablet is deleted and comes back on another disk. */
  ghost predicate Accepted(lay: Layout, ts: seq<Tablet>, next: seq<Tablet>)
    requires ValidLayout(lay)
  {
    exists i, dest :: 0 <= i < |ts| && dest != ts[i].disk && Lands(lay, ts, i, dest) && next == Relocated(ts, i, dest)
  }

  /** The disk a tablet is placed on and any other, each at its position in the table's order. */
  lemma Ranked(lay: Layout, ts: seq<Tablet>, t: Table, s: Disk, dest: Disk, d: Disk)
    requires ValidLayout(lay) && t in lay.tables && s in lay.disks && Places(Tally(lay, ts), t, s, dest)
    ensures dest in lay.disks
    ensures d in lay.disks ==> !Before(RankIn(ts, t, s, d), RankIn(ts, t, s, dest))
    ensures d in lay.disks && Position(lay.orders[t], d) < Position(lay.orders[t], dest) ==>
      Before(RankIn(ts, t, s, dest), RankIn(ts, t, s, d))
  {
    hide OnTable, OnDisk, Position, Before;
    var c, order := Tally(lay, ts), lay.orders[t];
    var k :| 0 <= k < |order| && FirstLeastAt(c, t, s, order, k) && order[k] == dest;
    RankIs(lay, ts, t, s, dest);
    PositionOf(order, k);
    if d in lay.disks {
      var n :| 0 <= n < |order| && order[n] == d;
      RankIs(lay, ts, t, s, d);
      PositionOf(order, n);
    }
  }

  /** The two counts that rank disk d when a tablet of table t has left s. */
  function RankIn(ts: seq<Tablet>, t: Table, s: Disk, d: Disk): (int, int) {
    (OnTable(ts, t, d) - (if d == s then 1 else 0), OnDisk(ts, d) - (if d == s then 1 else 0))
  }

  lemma RankIs(lay: Layout, ts: seq<Tablet>, t: Table, s: Disk, d: Disk)
    requires ValidLayout(lay) && t in lay.tables && d in lay.disks
    ensures Rank(Tally(lay, ts), t, s, d) == RankIn(ts, t, s, d)
  {
    hide OnTable, OnDisk;
  }

  /** What an accepted move says about the counts, in plain numbers. */
  lemma LandsFacts(lay: Layout, ts: seq<Tablet>, i: nat, dest: Disk)
    requires ValidLayout(lay) && Fits(lay, ts) && i < |ts| && Lands(lay, ts, i, dest)
    ensures dest in lay.disks
    ensures forall d | d in lay.disks && d != ts[i].disk && dest != ts[i].disk ::
        OnTable(ts, ts[i].table, dest) <= OnTable(ts, ts[i].table, d)
    ensures dest != ts[i].disk ==>
        var (a, b) := (OnTable(ts, ts[i].table, ts[i].disk) - 1, OnTable(ts, ts[i].table, dest));
        b < a || (b == a && (
          OnDisk(ts, dest) < OnDisk(ts, ts[i].disk) - 1
          || (OnDisk(ts, dest) == OnDisk(ts, ts[i].disk) - 1
              && Position(lay.orders[ts[i].table], dest) < Position(lay.orders[ts[i].table], ts[i].disk))))
  {
    hide OnTable, OnDisk, Position, Places, Tally;
    var t, s := ts[i].table, ts[i].disk;
    Ranked(lay, ts, t, s, dest, s);
    if dest != s {
      DifferentPositions(lay.orders[t], dest, s);
      forall d | d in lay.disks && d != s ensures OnTable(ts, t, dest) <= OnTable(ts, t, d) {
        Ranked(lay, ts, t, s, dest, d);
      }
    }
  }

  lemma DifferentPositions(order: seq<Disk>, d: Disk, e: Disk)
    requires Distinct(order) && d in order && e in order && d != e
    ensures Position(order, d) != Position(order, e)
  {
    var i :| 0 <= i < |order| && order[i] == d;
    var j :| 0 <= j < |order| && order[j] == e;
    PositionOf(order, i);
    PositionOf(order, j);
  }

  function Position(order: seq<Disk>, d: Disk): nat {
    if order == [] || order[0] == d then 0 else 1 + Position(order[1..], d)
  }

  lemma {:induction false} PositionOf(order: seq<Disk>, k: nat)
    requires Distinct(order) && k < |order|
    ensures Position(order, order[k]) == k
  {
    if k > 0 {
      assert Distinct(order[1..]);
      PositionOf(order[1..], k - 1);
    }
  }

  // ---------- No cycle ----------

  function Square(ts: seq<Tablet>, t: Table): Disk -> int {
    (d: Disk) => OnTable(ts, t, d) * OnTable(ts, t, d)
  }

  function SquareAll(ts: seq<Tablet>): Disk -> int {
    (d: Disk) => OnDisk(ts, d) * OnDisk(ts, d)
  }

  function Weighted(lay: Layout, ts: seq<Tablet>, t: Table): Disk -> int
    requires t in lay.orders
  {
    (d: Disk) => OnTable(ts, t, d) * Position(lay.orders[t], d)
  }

  function TableSquares(lay: Layout, ts: seq<Tablet>): Table -> int {
    (t: Table) => if t in lay.orders then Sum(lay.orders[t], Square(ts, t)) else 0
  }

  function TableWeights(lay: Layout, ts: seq<Tablet>): Table -> int {
    (t: Table) => if t in lay.orders then Sum(lay.orders[t], Weighted(lay, ts, t)) else 0
  }

  /** How unevenly the tables lie on the disks; then the disks overall; then how late in the disk order. */
  function Unevenness(lay: Layout, ts: seq<Tablet>): int { Sum(lay.tables, TableSquares(lay, ts)) }

  function OverallUnevenness(lay: Layout, ts: seq<Tablet>): int { Sum(lay.disks, SquareAll(ts)) }

  function Lateness(lay: Layout, ts: seq<Tablet>): int { Sum(lay.tables, TableWeights(lay, ts)) }

  lemma PotentialsNonNegative(lay: Layout, ts: seq<Tablet>)
    requires ValidLayout(lay)
    ensures 0 <= Unevenness(lay, ts) && 0 <= OverallUnevenness(lay, ts) && 0 <= Lateness(lay, ts)
  {
    forall t | t in lay.tables ensures 0 <= TableSquares(lay, ts)(t) && 0 <= TableWeights(lay, ts)(t) {
      forall d | d in lay.orders[t] ensures 0 <= Square(ts, t)(d) && 0 <= Weighted(lay, ts, t)(d) {
        CountsNonNegative(ts, t, d);
      }
      SumNonNegative(lay.orders[t], Square(ts, t));
      SumNonNegative(lay.orders[t], Weighted(lay, ts, t));
    }
    SumNonNegative(lay.tables, TableSquares(lay, ts));
    SumNonNegative(lay.tables, TableWeights(lay, ts));
    SumNonNegative(lay.disks, SquareAll(ts));
  }

  /** The exact change of the three potentials under any relocation. */
  lemma PotentialChange(lay: Layout, ts: seq<Tablet>, i: nat, dest: Disk)
    requires ValidLayout(lay) && Fits(lay, ts) && i < |ts| && dest in lay.disks && dest != ts[i].disk
    ensures var (t, s, next) := (ts[i].table, ts[i].disk, Relocated(ts, i, dest));
      && Unevenness(lay, next) - Unevenness(lay, ts) == 2 * (OnTable(ts, t, dest) - OnTable(ts, t, s) + 1)
      && OverallUnevenness(lay, next) - OverallUnevenness(lay, ts) == 2 * (OnDisk(ts, dest) - OnDisk(ts, s) + 1)
      && Lateness(lay, next) - Lateness(lay, ts) == Position(lay.orders[t], dest) - Position(lay.orders[t], s)
  {
    hide OnTable, OnDisk, Position, Relocated, Sum, TableSquares, TableWeights, SquareAll;
    var t, s, next := ts[i].table, ts[i].disk, Relocated(ts, i, dest);
    OverallPotentialChange(lay, ts, i, dest);
    RowPotentialChange(lay, ts, i, dest);
    forall u | u in lay.tables && u != t
      ensures TableSquares(lay, ts)(u) == TableSquares(lay, next)(u)
      ensures TableWeights(lay, ts)(u) == TableWeights(lay, next)(u)
    {
      OtherRowPotentials(lay, ts, i, dest, u);
    }
    SumChangedAt(lay.tables, TableSquares(lay, ts), TableSquares(lay, next), t);
    SumChangedAt(lay.tables, TableWeights(lay, ts), TableWeights(lay, next), t);
  }

  lemma OverallPotentialChange(lay: Layout, ts: seq<Tablet>, i: nat, dest: Disk)
    requires ValidLayout(lay) && Fits(lay, ts) && i < |ts| && dest in lay.disks && dest != ts[i].disk
    ensures OverallUnevenness(lay, Relocated(ts, i, dest)) - OverallUnevenness(lay, ts)
      == 2 * (OnDisk(ts, dest) - OnDisk(ts, ts[i].disk) + 1)
  {
    hide OnDisk, Relocated, Sum;
    var s, next := ts[i].disk, Relocated(ts, i, dest);
    forall d: Disk ensures SquareAll(next)(d) == SquareAll(ts)(d)
      + (if d == s then 1 - 2 * OnDisk(ts, d) else if d == dest then 1 + 2 * OnDisk(ts, d) else 0)
    {
      RelocatedCounts(ts, i, dest, ts[i].table, d);
    }
    SumMoved(lay.disks, SquareAll(ts), SquareAll(next), s, dest);
  }

  lemma RowPotentialChange(lay: Layout, ts: seq<Tablet>, i: nat, dest: Disk)
    requires ValidLayout(lay) && Fits(lay, ts) && i < |ts| && dest in lay.disks && dest != ts[i].disk
    ensures var (t, s, next) := (ts[i].table, ts[i].disk, Relocated(ts, i, dest));
      && TableSquares(lay, next)(t) - TableSquares(lay, ts)(t) == 2 * (OnTable(ts, t, dest) - OnTable(ts, t, s) + 1)
      && TableWeights(lay, next)(t) - TableWeights(lay, ts)(t)
           == Position(lay.orders[t], dest) - Position(lay.orders[t], s)
  {
    hide OnTable, OnDisk, Position, Relocated;
    var t, s, next := ts[i].table, ts[i].disk, Relocated(ts, i, dest);
    forall d: Disk
      ensures Square(next, t)(d) == Square(ts, t)(d)
        + (if d == s then 1 - 2 * OnTable(ts, t, d) else if d == dest then 1 + 2 * OnTable(ts, t, d) else 0)
    {
      RelocatedCounts(ts, i, dest, t, d);
    }
    forall d: Disk
      ensures Weighted(lay, next, t)(d) == Weighted(lay, ts, t)(d)
        + (if d == s then 0 - Position(lay.orders[t], d) else if d == dest then Position(lay.orders[t], d) else 0)
    {
      RelocatedCounts(ts, i, dest, t, d);
    }
    SumMoved(lay.orders[t], Square(ts, t), Square(next, t), s, dest);
    SumMoved(lay.orders[t], Weighted(lay, ts, t), Weighted(lay, next, t), s, dest);
  }

  lemma OtherRowPotentials(lay: Layout, ts: seq<Tablet>, i: nat, dest: Disk, u: Table)
    requires i < |ts| && dest != ts[i].disk && u in lay.orders && u != ts[i].table
    ensures TableSquares(lay, ts)(u) == TableSquares(lay, Relocated(ts, i, dest))(u)
    ensures TableWeights(lay, ts)(u) == TableWeights(lay, Relocated(ts, i, dest))(u)
  {
    hide OnTable, Position, Relocated;
    var next := Relocated(ts, i, dest);
    forall d: Disk ensures OnTable(next, u, d) == OnTable(ts, u, d) {
      RelocatedCounts(ts, i, dest, u, d);
    }
    SumSame(lay.orders[u], Square(ts, u), Square(next, u));
    SumSame(lay.orders[u], Weighted(lay, ts, u), Weighted(lay, next, u));
  }

  ghost predicate LexLess(lay: Layout, next: seq<Tablet>, ts: seq<Tablet>) {
    Unevenness(lay, next) < Unevenness(lay, ts)
    || (Unevenness(lay, next) == Unevenness(lay, ts)
        && (OverallUnevenness(lay, next) < OverallUnevenness(lay, ts)
            || (OverallUnevenness(lay, next) == OverallUnevenness(lay, ts) && Lateness(lay, next) < Lateness(lay, ts))))
  }

  /** Every accepted move, of whichever tablet, lowers the three potentials lexicographically. */
  lemma AcceptedMoveDecreases(lay: Layout, ts: seq<Tablet>, i: nat, dest: Disk)
    requires ValidLayout(lay) && Fits(lay, ts) && i < |ts|
    requires dest != ts[i].disk && Lands(lay, ts, i, dest)
    ensures Fits(lay, Relocated(ts, i, dest)) && LexLess(lay, Relocated(ts, i, dest), ts)
  {
    hide OnTable, OnDisk, Unevenness, OverallUnevenness, Lateness, ValidLayout, Position, Lands;
    LandsFacts(lay, ts, i, dest);
    PotentialChange(lay, ts, i, dest);
  }

  /** No endless sequence of accepted moves exists, however the tablets are picked. */
  lemma MovesCannotGoOnForever(lay: Layout, run: nat -> seq<Tablet>)
    requires ValidLayout(lay) && Fits(lay, run(0))
    ensures exists n: nat :: !Accepted(lay, run(n), run(n + 1))
  {
    var n := FirstRefusal(lay, run, 0);
  }

  lemma {:induction false} FirstRefusal(lay: Layout, run: nat -> seq<Tablet>, from: nat) returns (n: nat)
    requires ValidLayout(lay) && Fits(lay, run(from))
    ensures from <= n && !Accepted(lay, run(n), run(n + 1))
    decreases Unevenness(lay, run(from)), OverallUnevenness(lay, run(from)), Lateness(lay, run(from))
  {
    hide Unevenness, OverallUnevenness, Lateness, ValidLayout, Fits, Lands, Relocated;
    if Accepted(lay, run(from), run(from + 1)) {
      PotentialsNonNegative(lay, run(from));
      PotentialsNonNegative(lay, run(from + 1));
      var i, dest :| 0 <= i < |run(from)| && dest != run(from)[i].disk && Lands(lay, run(from), i, dest)
        && run(from + 1) == Relocated(run(from), i, dest);
      AcceptedMoveDecreases(lay, run(from), i, dest);
      n := FirstRefusal(lay, run, from + 1);
    } else {
      n := from;
    }
  }

  // ---------- Skew ----------

  /** No accepted move raises a table's highest count or lowers its lowest one. */
  lemma SkewOnlyShrinks(lay: Layout, ts: seq<Tablet>, i: nat, dest: Disk, t: Table, low: int, high: int)
    requires ValidLayout(lay) && Fits(lay, ts) && i < |ts|
    requires dest != ts[i].disk && Lands(lay, ts, i, dest)
    requires forall d | d in lay.disks :: low <= OnTable(ts, t, d) <= high
    ensures forall d | d in lay.disks :: low <= OnTable(Relocated(ts, i, dest), t, d) <= high
  {
    hide OnTable, OnDisk, BytesOn, Lands, Relocated;
    LandsFacts(lay, ts, i, dest);
    forall d | d in lay.disks ensures low <= OnTable(Relocated(ts, i, dest), t, d) <= high {
      RelocatedCounts(ts, i, dest, t, d);
    }
  }

  /** Disk d does not draw a tablet of table t away from s. */
  ghost predicate StaysAgainst(lay: Layout, ts: seq<Tablet>, t: Table, s: Disk, d: Disk)
    requires t in lay.orders
  {
    OnTable(ts, t, s) - 1 < OnTable(ts, t, d)
    || (OnTable(ts, t, s) - 1 == OnTable(ts, t, d)
        && (OnDisk(ts, s) - 1 < OnDisk(ts, d)
            || (OnDisk(ts, s) - 1 == OnDisk(ts, d) && Position(lay.orders[t], s) < Position(lay.orders[t], d))))
  }

  /** Exactly when a tablet stays: no disk is better after the deletion, and no earlier disk is as good. */
  lemma StuckIff(lay: Layout, ts: seq<Tablet>, t: Table, s: Disk)
    requires ValidLayout(lay) && t in lay.tables && s in lay.disks
    ensures Stuck(lay, ts, t, s) <==> forall d | d in lay.disks && d != s :: StaysAgainst(lay, ts, t, s, d)
  {
    if Stuck(lay, ts, t, s) {
      StuckMeans(lay, ts, t, s);
    } else if forall d | d in lay.disks && d != s :: StaysAgainst(lay, ts, t, s, d) {
      StuckWhen(lay, ts, t, s);
    }
  }

  lemma StuckMeans(lay: Layout, ts: seq<Tablet>, t: Table, s: Disk)
    requires ValidLayout(lay) && t in lay.tables && s in lay.disks && Stuck(lay, ts, t, s)
    ensures forall d | d in lay.disks && d != s :: StaysAgainst(lay, ts, t, s, d)
  {
    hide OnTable, OnDisk, Position, Places, Tally;
    forall d | d in lay.disks && d != s ensures StaysAgainst(lay, ts, t, s, d) {
      Ranked(lay, ts, t, s, s, d);
      DifferentPositions(lay.orders[t], s, d);
    }
  }

  lemma StuckWhen(lay: Layout, ts: seq<Tablet>, t: Table, s: Disk)
    requires ValidLayout(lay) && t in lay.tables && s in lay.disks
    requires forall d | d in lay.disks && d != s :: StaysAgainst(lay, ts, t, s, d)
    ensures Stuck(lay, ts, t, s)
  {
    hide OnTable, OnDisk, Position;
    var c, order := Tally(lay, ts), lay.orders[t];
    var k :| 0 <= k < |order| && order[k] == s;
    PositionOf(order, k);
    forall j | 0 <= j < |order| && j != k
      ensures !Before(Rank(c, t, s, order[j]), Rank(c, t, s, s))
      ensures j < k ==> Before(Rank(c, t, s, s), Rank(c, t, s, order[j]))
    {
      PositionOf(order, j);
      assert StaysAgainst(lay, ts, t, s, order[j]);
    }
    assert FirstLeastAt(c, t, s, order, k);
  }

  /** A spread of two or more frees every tablet on a fullest disk; equal counts free none. */
  lemma SkewDecidesMovability(lay: Layout, ts: seq<Tablet>, t: Table, s: Disk)
    requires ValidLayout(lay) && t in lay.tables && s in lay.disks
    ensures (exists d :: d in lay.disks && OnTable(ts, t, d) + 2 <= OnTable(ts, t, s)) ==> !Stuck(lay, ts, t, s)
    ensures (forall d | d in lay.disks :: OnTable(ts, t, d) == OnTable(ts, t, s)) ==> Stuck(lay, ts, t, s)
  {
    StuckIff(lay, ts, t, s);
  }

  /** Taking a tablet off s, to anywhere, never frees another tablet that was stuck on s. */
  lemma StuckStaysStuck(lay: Layout, ts: seq<Tablet>, i: nat, dest: Disk, t: Table)
    requires ValidLayout(lay) && Fits(lay, ts) && i < |ts| && dest in lay.disks && dest != ts[i].disk
    requires t in lay.tables && Stuck(lay, ts, t, ts[i].disk)
    ensures Stuck(lay, Relocated(ts, i, dest), t, ts[i].disk)
  {
    hide OnTable, OnDisk, BytesOn;
    var s, next := ts[i].disk, Relocated(ts, i, dest);
    StuckIff(lay, ts, t, s);
    StuckIff(lay, next, t, s);
    forall d | d in lay.disks && d != s ensures StaysAgainst(lay, next, t, s, d) {
      assert StaysAgainst(lay, ts, t, s, d);
      RelocatedCounts(ts, i, dest, t, d);
      RelocatedCounts(ts, i, dest, t, s);
    }
  }
}
