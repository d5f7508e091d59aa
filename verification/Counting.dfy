/** The inventory of a server: its disks, its tablets, the counts built from them, and the candidate lists. */
module Counting {
  import opened Common
  import opened Sums
  import opened Placement
  import opened Plans

  // ---------- Inventory and counts ----------

  /** Disks in discovery order with their df figures (0 where df gave none), and every tablet found. */
  datatype Inventory = Inventory(paths: seq<Disk>, total: map<Disk, nat>, used: map<Disk, nat>, tablets: seq<Tablet>)

  ghost predicate ValidInventory(inv: Inventory) {
    && Distinct(inv.paths)
    && (forall d | d in inv.paths :: d in inv.total && d in inv.used)
    && (forall i | 0 <= i < |inv.tablets| :: inv.tablets[i].disk in inv.paths)
    && UniqueIds(inv.tablets)
  }

  /** The elements of xs, each once, in order of first occurrence: the key order of a dictionary. */
  function FirstSeen(xs: seq<string>): (r: seq<string>)
    ensures Distinct(r) && (forall x :: x in r <==> x in xs)
  {
    if xs == [] then []
    else
      var x, r := xs[|xs| - 1], FirstSeen(xs[..|xs| - 1]);
      assert xs == xs[..|xs| - 1] + [x];
      if x in r then r else r + [x]
  }

  function TablesOf(ts: seq<Tablet>): seq<Table> {
    seq(|ts|, i requires 0 <= i < |ts| => ts[i].table)
  }

  /** The disks of table t's tablets, in list order. */
  function DisksOf(ts: seq<Tablet>, t: Table): seq<Disk> {
    if ts == [] then []
    else DisksOf(ts[..|ts| - 1], t) + (if ts[|ts| - 1].table == t then [ts[|ts| - 1].disk] else [])
  }

  /** The disk orders that counting the inventory produces: disks met in tablets first, then the rest. */
  function LayoutOf(inv: Inventory): Layout {
    Layout(inv.paths, FirstSeen(TablesOf(inv.tablets)),
           map t | t in FirstSeen(TablesOf(inv.tablets)) :: FirstSeen(DisksOf(inv.tablets, t) + inv.paths))
  }

  lemma {:induction false} DisksOfIn(ts: seq<Tablet>, t: Table, paths: seq<Disk>)
    requires forall i | 0 <= i < |ts| :: ts[i].disk in paths
    ensures forall d | d in DisksOf(ts, t) :: d in paths
  {
    if ts != [] {
      DisksOfIn(ts[..|ts| - 1], t, paths);
    }
  }

  lemma LayoutOfValid(inv: Inventory)
    requires ValidInventory(inv)
    ensures ValidLayout(LayoutOf(inv)) && Fits(LayoutOf(inv), inv.tablets) && LayoutOf(inv).disks == inv.paths
  {
    var lay := LayoutOf(inv);
    forall t | t in lay.orders ensures forall d :: d in lay.orders[t] <==> d in lay.disks {
      DisksOfIn(inv.tablets, t, inv.paths);
    }
    forall i | 0 <= i < |inv.tablets| ensures inv.tablets[i].table in lay.tables {
      assert TablesOf(inv.tablets)[i] == inv.tablets[i].table;
    }
  }

  /** One table's row after the first k tablets have been counted and j disks been filled in with 0. */
  function RowSoFar(ts: seq<Tablet>, t: Table, more: seq<Disk>): Row {
    var order := FirstSeen(DisksOf(ts, t) + more);
    Row(order, CountMap(order, PerDisk(ts, t)))
  }

  lemma {:induction false} NoneCounted(ts: seq<Tablet>, t: Table, d: Disk)
    requires d !in DisksOf(ts, t)
    ensures OnTable(ts, t, d) == 0
  {
    if ts != [] {
      NoneCounted(ts[..|ts| - 1], t, d);
      SumAppend(ts[..|ts| - 1], [ts[|ts| - 1]], IsOf(t, d));
      assert ts == ts[..|ts| - 1] + [ts[|ts| - 1]];
    }
  }

  lemma CountOneMore(ts: seq<Tablet>, x: Tablet, t: Table, d: Disk)
    ensures OnTable(ts + [x], t, d) == OnTable(ts, t, d) + (if x.table == t && x.disk == d then 1 else 0)
    ensures OnDisk(ts + [x], d) == OnDisk(ts, d) + (if x.disk == d then 1 else 0)
  {
    SumAppend(ts, [x], IsOf(t, d));
    SumAppend(ts, [x], IsOn(d));
  }

  /** row[d] += 1 on a defaulting dictionary. */
  function Bump(row: Row, d: Disk): Row {
    Row(if d in row.count then row.order else row.order + [d], row.count[d := Get(row.count, d, 0) + 1])
  }

  /** row.setdefault(d, 0) */
  function Fill(row: Row, d: Disk): Row {
    if d in row.count then row else Row(row.order + [d], row.count[d := 0])
  }

  lemma BumpCountMap(order: seq<Disk>, f: Disk -> int, g: Disk -> int, d: Disk)
    requires forall e | e in order && e != d :: g(e) == f(e)
    requires g(d) == (if d in order then f(d) else 0) + 1
    ensures CountMap(if d in order then order else order + [d], g)
      == CountMap(order, f)[d := Get(CountMap(order, f), d, 0) + 1]
  {
  }

  lemma CountedRow(ts: seq<Tablet>, x: Tablet)
    ensures RowSoFar(ts + [x], x.table, []) == Bump(RowSoFar(ts, x.table, []), x.disk)
  {
    hide OnTable, CountMap, FirstSeen;
    assert (ts + [x])[..|ts|] == ts;
    var ds := DisksOf(ts, x.table);
    assert DisksOf(ts + [x], x.table) == ds + [x.disk];
    assert ds + [] == ds && (ds + [x.disk]) + [] == ds + [x.disk];
    forall d: Disk ensures PerDisk(ts + [x], x.table)(d) == PerDisk(ts, x.table)(d) + (if d == x.disk then 1 else 0) {
      CountOneMore(ts, x, x.table, d);
    }
    if x.disk !in ds {
      NoneCounted(ts, x.table, x.disk);
    }
    FirstSeenOneMore(ds, x.disk);
    BumpCountMap(FirstSeen(ds), PerDisk(ts, x.table), PerDisk(ts + [x], x.table), x.disk);
    CountMapKeys(FirstSeen(ds), PerDisk(ts, x.table));
  }

  lemma CountMapKeys(order: seq<Disk>, f: Disk -> int)
    ensures forall d :: d in CountMap(order, f) <==> d in order
  {
  }

  lemma FirstSeenOneMore(ds: seq<string>, d: string)
    ensures FirstSeen(ds + [d]) == if d in FirstSeen(ds) then FirstSeen(ds) else FirstSeen(ds) + [d]
  {
    assert (ds + [d])[..|ds|] == ds;
  }

  lemma UncountedRow(ts: seq<Tablet>, x: Tablet, t: Table)
    requires x.table != t
    ensures RowSoFar(ts + [x], t, []) == RowSoFar(ts, t, [])
  {
    hide OnTable;
    assert (ts + [x])[..|ts|] == ts;
    assert DisksOf(ts + [x], t) == DisksOf(ts, t);
    forall d: Disk ensures PerDisk(ts + [x], t)(d) == PerDisk(ts, t)(d) {
      CountOneMore(ts, x, t, d);
    }
  }

  lemma FilledRow(ts: seq<Tablet>, t: Table, more: seq<Disk>, d: Disk)
    ensures RowSoFar(ts, t, more + [d]) == Fill(RowSoFar(ts, t, more), d)
  {
    hide OnTable;
    var ds := DisksOf(ts, t);
    assert ds + (more + [d]) == (ds + more) + [d];
    FirstSeenOneMore(ds + more, d);
    var row := RowSoFar(ts, t, more);
    if d !in row.count {
      NoneCounted(ts, t, d);
      assert RowSoFar(ts, t, more + [d]).count == row.count[d := 0];
    }
  }

  /** All rows after the tablets ts have been counted and the disks in more been filled in. */
  function RowsSoFar(ts: seq<Tablet>, more: seq<Disk>): map<Table, Row> {
    map t | t in TablesOf(ts) :: RowSoFar(ts, t, more)
  }

  lemma RowsOneMore(ts: seq<Tablet>, x: Tablet)
    ensures RowsSoFar(ts + [x], []) == RowsSoFar(ts, [])[x.table :=
      Bump(if x.table in RowsSoFar(ts, []) then RowsSoFar(ts, [])[x.table] else Row([], map[]), x.disk)]
  {
    hide RowSoFar;
    assert TablesOf(ts + [x]) == TablesOf(ts) + [x.table];
    CountedRow(ts, x);
    if x.table !in TablesOf(ts) {
      FreshRow(ts, x.table);
    }
    forall t | t in TablesOf(ts) && t != x.table ensures RowSoFar(ts + [x], t, []) == RowSoFar(ts, t, []) {
      UncountedRow(ts, x, t);
    }
  }

  lemma RowsFilled(ts: seq<Tablet>, more: seq<Disk>, d: Disk)
    ensures RowsSoFar(ts, more + [d]) == map t | t in RowsSoFar(ts, more) :: Fill(RowsSoFar(ts, more)[t], d)
  {
    hide RowSoFar;
    forall t | t in TablesOf(ts) ensures RowSoFar(ts, t, more + [d]) == Fill(RowSoFar(ts, t, more), d) {
      FilledRow(ts, t, more, d);
    }
  }

  lemma DisksOneMore(paths: seq<Disk>, ts: seq<Tablet>, x: Tablet)
    requires x.disk in paths
    ensures var m := CountMap(paths, PerDiskAll(ts));
      CountMap(paths, PerDiskAll(ts + [x])) == m[x.disk := Get(m, x.disk, 0) + 1]
  {
    hide OnDisk;
    forall d: Disk ensures PerDiskAll(ts + [x])(d) == PerDiskAll(ts)(d) + (if x.disk == d then 1 else 0) {
      CountOneMore(ts, x, x.table, d);
    }
    BumpCountMap(paths, PerDiskAll(ts), PerDiskAll(ts + [x]), x.disk);
  }

  /** Counting the inventory gives the tally of its tablet list, in the order LayoutOf describes. */
  method BuildCounts(inv: Inventory) returns (c: Counts)
    requires ValidInventory(inv)
    ensures ValidLayout(LayoutOf(inv)) && c == Tally(LayoutOf(inv), inv.tablets)
  {
    hide RowsSoFar, CountMap, LayoutOf, Tally, ValidLayout, Bump, Fill, UniqueIds, Distinct, PerDiskAll;
    var overall: map<Disk, int> := map[];
    for k := 0 to |inv.paths|
      invariant overall == map d | d in inv.paths[..k] :: 0
    {
      overall := overall[inv.paths[k] := Get(overall, inv.paths[k], 0)];
    }
    var ts := inv.tablets;
    var rows: map<Table, Row> := map[];
    NothingCounted(inv.paths);
    for k := 0 to |ts|
      invariant overall == CountMap(inv.paths, PerDiskAll(ts[..k]))
      invariant rows == RowsSoFar(ts[..k], [])
    {
      var x := ts[k];
      assert ts[..k + 1] == ts[..k] + [x];
      RowsOneMore(ts[..k], x);
      DisksOneMore(inv.paths, ts[..k], x);
      rows := rows[x.table := Bump(if x.table in rows then rows[x.table] else Row([], map[]), x.disk)];
      overall := overall[x.disk := Get(overall, x.disk, 0) + 1];
    }
    assert ts[..|ts|] == ts;
    for j := 0 to |inv.paths|
      invariant rows == RowsSoFar(ts, inv.paths[..j])
    {
      assert inv.paths[..j + 1] == inv.paths[..j] + [inv.paths[j]];
      RowsFilled(ts, inv.paths[..j], inv.paths[j]);
      rows := map t | t in rows :: Fill(rows[t], inv.paths[j]);
    }
    assert inv.paths[..|inv.paths|] == inv.paths;
    c := Counts(rows, overall);
    TallyFrom(inv);
  }

  lemma NothingCounted(paths: seq<Disk>)
    ensures RowsSoFar([], []) == map[]
    ensures CountMap(paths, PerDiskAll([])) == map d | d in paths :: 0
  {
  }

  lemma {:induction false} NotSeen(ts: seq<Tablet>, t: Table)
    requires t !in TablesOf(ts)
    ensures DisksOf(ts, t) == []
  {
    if ts != [] {
      var rest := ts[..|ts| - 1];
      assert forall i | 0 <= i < |rest| :: TablesOf(rest)[i] == TablesOf(ts)[i];
      assert TablesOf(ts)[|ts| - 1] != t;
      NotSeen(rest, t);
    }
  }

  lemma FreshRow(ts: seq<Tablet>, t: Table)
    requires t !in TablesOf(ts)
    ensures RowSoFar(ts, t, []) == Row([], map[])
  {
    hide OnTable;
    NotSeen(ts, t);
    assert RowSoFar(ts, t, []).count == map[];
  }

  lemma TallyFrom(inv: Inventory)
    requires ValidInventory(inv)
    ensures ValidLayout(LayoutOf(inv))
    ensures Tally(LayoutOf(inv), inv.tablets)
      == Counts(RowsSoFar(inv.tablets, inv.paths), CountMap(inv.paths, PerDiskAll(inv.tablets)))
  {
    hide CountMap, PerDisk, DisksOf;
    LayoutOfValid(inv);
    assert Tally(LayoutOf(inv), inv.tablets).rows == RowsSoFar(inv.tablets, inv.paths);
  }

  // ---------- Candidates, largest first ----------

  function TabletsOn(ts: seq<Tablet>, d: Disk): seq<Tablet> {
    if ts == [] then [] else (if ts[0].disk == d then [ts[0]] else []) + TabletsOn(ts[1..], d)
  }

  function Insert(x: Tablet, s: seq<Tablet>): seq<Tablet> {
    if s == [] || s[0].size <= x.size then [x] + s else [s[0]] + Insert(x, s[1..])
  }

  /** A stable sort by descending size. */
  function SortBySize(ts: seq<Tablet>): seq<Tablet> {
    if ts == [] then [] else Insert(ts[0], SortBySize(ts[1..]))
  }

  function Candidates(inv: Inventory, d: Disk): seq<Tablet> { SortBySize(TabletsOn(inv.tablets, d)) }

  ghost predicate Descending(s: seq<Tablet>) {
    forall i, j | 0 <= i < j < |s| :: s[j].size <= s[i].size
  }

  function OfSize(s: seq<Tablet>, z: nat): seq<Tablet> {
    if s == [] then [] else (if s[0].size == z then [s[0]] else []) + OfSize(s[1..], z)
  }

  lemma {:induction false} InsertFacts(x: Tablet, s: seq<Tablet>)
    requires Descending(s)
    ensures Descending(Insert(x, s)) && |Insert(x, s)| == |s| + 1
    ensures forall y :: y in Insert(x, s) <==> y == x || y in s
  {
    if s != [] && s[0].size > x.size {
      var rest := Insert(x, s[1..]);
      InsertFacts(x, s[1..]);
      assert forall y :: y in s <==> y == s[0] || y in s[1..];
      forall j | 0 <= j < |rest| ensures rest[j].size <= s[0].size {
        assert rest[j] in rest;
      }
    }
  }

  lemma {:induction false} InsertIsStable(x: Tablet, s: seq<Tablet>, z: nat)
    ensures OfSize(Insert(x, s), z) == (if x.size == z then [x] else []) + OfSize(s, z)
  {
    if s == [] || s[0].size <= x.size {
      assert ([x] + s)[1..] == s;
    } else {
      var rest := Insert(x, s[1..]);
      InsertIsStable(x, s[1..], z);
      assert ([s[0]] + rest)[1..] == rest;
      var a, b := if s[0].size == z then [s[0]] else [], if x.size == z then [x] else [];
      assert a == [] || b == [];
      assert a + (b + OfSize(s[1..], z)) == b + (a + OfSize(s[1..], z));
    }
  }

  lemma {:induction false} InsertUnique(x: Tablet, s: seq<Tablet>)
    requires UniqueIds(s) && forall i | 0 <= i < |s| :: s[i].id != x.id
    ensures UniqueIds(Insert(x, s)) && forall y :: y in Insert(x, s) <==> y == x || y in s
  {
    if s != [] && s[0].size > x.size {
      var rest := Insert(x, s[1..]);
      InsertUnique(x, s[1..]);
      assert forall y :: y in s <==> y == s[0] || y in s[1..];
      forall j | 0 <= j < |rest| ensures rest[j].id != s[0].id {
        assert rest[j] in rest;
      }
    }
  }

  /** Sorted, a permutation, and stable: tablets of one size keep their order. */
  lemma {:induction false} SortedBySize(ts: seq<Tablet>, z: nat)
    ensures Descending(SortBySize(ts)) && |SortBySize(ts)| == |ts|
    ensures forall y :: y in SortBySize(ts) <==> y in ts
    ensures OfSize(SortBySize(ts), z) == OfSize(ts, z)
    ensures UniqueIds(ts) ==> UniqueIds(SortBySize(ts))
  {
    if ts != [] {
      SortedBySize(ts[1..], z);
      assert forall y :: y in ts <==> y == ts[0] || y in ts[1..];
      var s := SortBySize(ts[1..]);
      InsertFacts(ts[0], s);
      InsertIsStable(ts[0], s, z);
      if UniqueIds(ts) {
        forall i | 0 <= i < |s| ensures s[i].id != ts[0].id {
          assert s[i] in ts[1..];
        }
        InsertUnique(ts[0], s);
      }
    }
  }

  lemma {:induction false} TabletsOnFacts(ts: seq<Tablet>, d: Disk)
    ensures forall y :: y in TabletsOn(ts, d) <==> y in ts && y.disk == d
    ensures UniqueIds(ts) ==> UniqueIds(TabletsOn(ts, d))
  {
    if ts != [] {
      TabletsOnFacts(ts[1..], d);
      assert forall y :: y in ts <==> y == ts[0] || y in ts[1..];
      var rest := TabletsOn(ts[1..], d);
      if UniqueIds(ts) {
        forall i | 0 <= i < |rest| ensures rest[i].id != ts[0].id {
          assert rest[i] in ts[1..];
        }
      }
    }
  }

  lemma CandidatesFacts(inv: Inventory, d: Disk)
    requires ValidInventory(inv)
    ensures Descending(Candidates(inv, d)) && UniqueIds(Candidates(inv, d))
    ensures forall y :: y in Candidates(inv, d) <==> y in inv.tablets && y.disk == d
  {
    TabletsOnFacts(inv.tablets, d);
    SortedBySize(TabletsOn(inv.tablets, d), 0);
  }
}
