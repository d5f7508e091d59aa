/**
 The three planners. Each works on counters it updates in place as it goes; what they promise
 is stated about the tablet list that the recommended moves produce.
 */
module Planners {
  import opened Common
  import opened Sums
  import opened Placement
  import opened Plans
  import opened Counting

  // ---------- What a recommendation list promises ----------

  ghost predicate PlanFor(inv: Inventory, recs: seq<Move>)
    requires ValidInventory(inv)
  {
    LayoutOfValid(inv);
    IsPlan(LayoutOf(inv), inv.tablets, recs)
  }

  /** After the moves in recs, a tablet of table t deleted from s comes back on s. */
  ghost predicate StuckAfter(inv: Inventory, recs: seq<Move>, t: Table, s: Disk)
    requires ValidInventory(inv)
  {
    LayoutOfValid(inv);
    Stuck(LayoutOf(inv), After(inv.tablets, recs), t, s)
  }

  ghost predicate Recommended(recs: seq<Move>, x: Tablet) {
    exists k :: 0 <= k < |recs| && recs[k].tablet == x
  }

  function Freed(recs: seq<Move>): nat {
    if recs == [] then 0 else Freed(recs[..|recs| - 1]) + recs[|recs| - 1].tablet.size
  }

  /** How many bytes must leave source for its usage to reach the target; None when there is nothing to reach. */
  function Wanted(inv: Inventory, source: Disk, target: Option<real>): Option<real>
    requires source in inv.total && source in inv.used
  {
    if target.None? || inv.total[source] == 0 then None
    else
      var goal := inv.total[source] as real * (target.value / 100.0);
      if inv.used[source] as real > goal then Some(inv.used[source] as real - goal) else None
  }

  ghost predicate Enough(wanted: Option<real>, recs: seq<Move>) {
    wanted.Some? && Freed(recs) as real >= wanted.value
  }

  /**
   The first m candidates of source are settled: each was recommended, or would come straight back
   even after all the recommended moves; and nothing beyond them was recommended.
   */
  ghost predicate Settled(inv: Inventory, source: Disk, recs: seq<Move>, m: nat)
    requires ValidInventory(inv) && m <= |Candidates(inv, source)|
  {
    && (forall k | 0 <= k < |recs| :: recs[k].tablet in Candidates(inv, source)[..m])
    && (forall i | 0 <= i < m :: var x := Candidates(inv, source)[i];
          Recommended(recs, x) || StuckAfter(inv, recs, x.table, source))
  }

  lemma TallyRowValid(lay: Layout, ts: seq<Tablet>, t: Table)
    requires ValidLayout(lay) && t in lay.tables
    ensures ValidRow(RowOf(Tally(lay, ts), t))
  {
    hide PerDisk;
  }

  /** What a planner needs to know when it tries tablet x with counters that are the tally after recs. */
  lemma TryTablet(inv: Inventory, recs: seq<Move>, x: Tablet)
    requires ValidInventory(inv) && PlanFor(inv, recs) && x in inv.tablets
    ensures x.table in LayoutOf(inv).tables && x.disk in inv.paths
    ensures ValidLayout(LayoutOf(inv)) && LayoutOf(inv).disks == inv.paths
    ensures ValidRow(RowOf(Tally(LayoutOf(inv), After(inv.tablets, recs)), x.table))
  {
    hide Tally, After, IsPlan, LayoutOf;
    LayoutOfValid(inv);
    var i :| 0 <= i < |inv.tablets| && inv.tablets[i] == x;
    TallyRowValid(LayoutOf(inv), After(inv.tablets, recs), x.table);
  }

  lemma Accept(inv: Inventory, recs: seq<Move>, x: Tablet, dest: Disk) returns (i: nat)
    requires ValidInventory(inv) && PlanFor(inv, recs) && x in inv.tablets && !Moved(recs, x.id)
    requires dest != x.disk && Places(Tally(LayoutOf(inv), After(inv.tablets, recs)), x.table, x.disk, dest)
    ensures ValidLayout(LayoutOf(inv)) && Fits(LayoutOf(inv), After(inv.tablets, recs))
    ensures PlanFor(inv, recs + [Move(x, x.disk, dest, |recs| + 1)])
    ensures var (before, after) := (After(inv.tablets, recs), After(inv.tablets, recs + [Move(x, x.disk, dest, |recs| + 1)]));
      && i < |before| == |inv.tablets| && before[i] == x && dest in inv.paths && after == Relocated(before, i, dest)
      && Tally(LayoutOf(inv), after) == Shift(Tally(LayoutOf(inv), before), x.table, x.disk, dest)
  {
    hide Tally, Places, Shift, Where, Relocated;
    LayoutOfValid(inv);
    PlanIsExecutable(LayoutOf(inv), inv.tablets, recs);
    i := PlanExtends(LayoutOf(inv), inv.tablets, recs, Move(x, x.disk, dest, |recs| + 1));
  }

  /** One more move off source keeps everything settled that was settled, and settles the moved tablet. */
  lemma SettledStep(inv: Inventory, source: Disk, recs: seq<Move>, m: nat, dest: Disk)
    requires ValidInventory(inv) && PlanFor(inv, recs) && m < |Candidates(inv, source)|
    requires Settled(inv, source, recs, m) && source in inv.paths
    requires var x := Candidates(inv, source)[m];
      !Moved(recs, x.id) && x in inv.tablets && x.disk == source && dest != source
      && Places(Tally(LayoutOf(inv), After(inv.tablets, recs)), x.table, source, dest)
    ensures Settled(inv, source, recs + [Move(Candidates(inv, source)[m], source, dest, |recs| + 1)], m + 1)
  {
    hide Tally, Places, Where, Relocated, After, PlanFor, Candidates, LayoutOf, Stuck;
    var cands := Candidates(inv, source);
    var x := cands[m];
    var next := recs + [Move(x, source, dest, |recs| + 1)];
    var i := Accept(inv, recs, x, dest);
    CandidatesFacts(inv, source);
    assert next[|recs|].tablet == x;
    forall j | 0 <= j < m + 1 ensures Recommended(next, cands[j]) || StuckAfter(inv, next, cands[j].table, source) {
      if j < m {
        if Recommended(recs, cands[j]) {
          var k :| 0 <= k < |recs| && recs[k].tablet == cands[j];
          assert next[k].tablet == cands[j];
        } else {
          assert StuckAfter(inv, recs, cands[j].table, source);
          TryTablet(inv, recs, cands[j]);
          StuckStaysStuck(LayoutOf(inv), After(inv.tablets, recs), i, dest, cands[j].table);
        }
      }
    }
  }

  lemma OneOwner(inv: Inventory, x: Tablet, y: Tablet)
    requires ValidInventory(inv) && x in inv.tablets && y in inv.tablets && x.id == y.id
    ensures x == y
  {
  }

  /** When every candidate is settled, no tablet still on source can be moved away. */
  lemma SettledMeansDone(inv: Inventory, source: Disk, recs: seq<Move>)
    requires ValidInventory(inv) && PlanFor(inv, recs)
    requires forall k | 0 <= k < |recs| :: recs[k].source == source
    requires Settled(inv, source, recs, |Candidates(inv, source)|)
    ensures NothingMovable(inv, source, recs)
  {
    hide Tally, Places, Where, Candidates, LayoutOf, Stuck, UniqueIds, Distinct, ValidLayout, Fits, StuckAfter;
    CandidatesFacts(inv, source);
    LayoutOfValid(inv);
    var now, cands := After(inv.tablets, recs), Candidates(inv, source);
    PlanIsExecutable(LayoutOf(inv), inv.tablets, recs);
    forall i | 0 <= i < |now| && now[i].disk == source ensures StuckAfter(inv, recs, now[i].table, source) {
      forall k | 0 <= k < |recs| ensures recs[k].tablet.id != inv.tablets[i].id {
        assert NextMove(LayoutOf(inv), inv.tablets, recs[..k], recs[k]);
        if recs[k].tablet.id == inv.tablets[i].id {
          OneOwner(inv, recs[k].tablet, inv.tablets[i]);
          assert false;
        }
      }
      assert !Moved(recs, inv.tablets[i].id);
      var j :| 0 <= j < |cands| && cands[j] == inv.tablets[i];
      assert !Recommended(recs, cands[j]);
    }
  }

  ghost predicate NothingMovable(inv: Inventory, source: Disk, recs: seq<Move>)
    requires ValidInventory(inv)
  {
    var now := After(inv.tablets, recs);
    forall i | 0 <= i < |now| && now[i].disk == source :: StuckAfter(inv, recs, now[i].table, source)
  }

  // ---------- Planner for one disk ----------

  /** The state of the scan of source after m candidates. */
  ghost predicate Scan(inv: Inventory, source: Disk, maxRecs: int, wanted: Option<real>, recs: seq<Move>, m: nat)
    requires ValidInventory(inv) && m <= |Candidates(inv, source)|
  {
    && PlanFor(inv, recs) && Settled(inv, source, recs, m)
    && (forall j | 0 <= j < |recs| :: recs[j].source == source)
    && (recs != [] ==> |recs| <= maxRecs)
    && (forall j | 0 <= j < |recs| :: !Enough(wanted, recs[..j]))
  }

  lemma ScanTake(inv: Inventory, source: Disk, maxRecs: int, wanted: Option<real>, recs: seq<Move>, m: nat, dest: Disk)
    requires ValidInventory(inv) && m < |Candidates(inv, source)| && source in inv.paths
    requires Scan(inv, source, maxRecs, wanted, recs, m) && |recs| < maxRecs && !Enough(wanted, recs)
    requires dest != source
      && Places(Tally(LayoutOf(inv), After(inv.tablets, recs)), Candidates(inv, source)[m].table, source, dest)
    ensures var x := Candidates(inv, source)[m];
      var next := recs + [Move(x, source, dest, |recs| + 1)];
      && Scan(inv, source, maxRecs, wanted, next, m + 1) && Freed(next) == Freed(recs) + x.size
      && x in inv.tablets && x.disk == source
      && ShiftReady(Tally(LayoutOf(inv), After(inv.tablets, recs)), x.table, source, dest)
      && Tally(LayoutOf(inv), After(inv.tablets, next))
         == Shift(Tally(LayoutOf(inv), After(inv.tablets, recs)), x.table, source, dest)
  {
    hide Tally, Places, PlanFor, After, Shift, Candidates, LayoutOf, Settled, ShiftReady;
    LayoutOfValid(inv);
    CandidatesFacts(inv, source);
    var x := Candidates(inv, source)[m];
    SettledTablets(inv, source, recs, m);
    NotYetMoved(recs, Candidates(inv, source), m);
    ghost var i := Accept(inv, recs, x, dest);
    SettledStep(inv, source, recs, m, dest);
    ShiftDefined(inv, recs, x, dest);
    var next := recs + [Move(x, source, dest, |recs| + 1)];
    assert next[..|recs|] == recs;
    assert forall j | 0 <= j < |recs| :: next[..j] == recs[..j];
  }

  lemma SettledTablets(inv: Inventory, source: Disk, recs: seq<Move>, m: nat)
    requires ValidInventory(inv) && m <= |Candidates(inv, source)| && Settled(inv, source, recs, m)
    ensures forall j | 0 <= j < |recs| :: recs[j].tablet in Candidates(inv, source)[..m]
  {
    hide Candidates;
  }

  lemma ScanSkip(inv: Inventory, source: Disk, maxRecs: int, wanted: Option<real>, recs: seq<Move>, m: nat)
    requires ValidInventory(inv) && m < |Candidates(inv, source)|
    requires Scan(inv, source, maxRecs, wanted, recs, m)
    requires Places(Tally(LayoutOf(inv), After(inv.tablets, recs)), Candidates(inv, source)[m].table, source, source)
    ensures Scan(inv, source, maxRecs, wanted, recs, m + 1)
  {
    hide Tally, Places, After, Candidates, LayoutOf, PlanFor;
  }

  /** The next candidate has not been moved yet, and the placement rule can be run for it. */
  lemma ScanNext(inv: Inventory, source: Disk, maxRecs: int, wanted: Option<real>, recs: seq<Move>, m: nat)
    requires ValidInventory(inv) && m < |Candidates(inv, source)|
    requires Scan(inv, source, maxRecs, wanted, recs, m)
    ensures !Moved(recs, Candidates(inv, source)[m].id) && ValidLayout(LayoutOf(inv))
    ensures ValidRow(RowOf(Tally(LayoutOf(inv), After(inv.tablets, recs)), Candidates(inv, source)[m].table))
  {
    hide Tally, After, Candidates, LayoutOf, PlanFor;
    CandidatesFacts(inv, source);
    SettledTablets(inv, source, recs, m);
    NotYetMoved(recs, Candidates(inv, source), m);
    TryTablet(inv, recs, Candidates(inv, source)[m]);
  }

  lemma ScanEnds(inv: Inventory, source: Disk, maxRecs: int, wanted: Option<real>, recs: seq<Move>, m: nat)
    requires ValidInventory(inv) && m <= |Candidates(inv, source)|
    requires Scan(inv, source, maxRecs, wanted, recs, m)
    requires m == |Candidates(inv, source)| || |recs| >= maxRecs || Enough(wanted, recs)
    ensures PlanFor(inv, recs) && Settled(inv, source, recs, m)
    ensures forall k | 0 <= k < |recs| :: recs[k].source == source
    ensures recs != [] ==> |recs| <= maxRecs
    ensures forall k | 0 <= k < |recs| :: !Enough(wanted, recs[..k])
    ensures |recs| < maxRecs && !Enough(wanted, recs) ==> NothingMovable(inv, source, recs)
  {
    hide Tally, After, Candidates, LayoutOf, PlanFor, Settled, NothingMovable;
    if m == |Candidates(inv, source)| {
      SettledMeansDone(inv, source, recs);
    }
  }

  /** There is a usage target for source, in percent of its size, and source is above it. */
  ghost predicate AboveTarget(inv: Inventory, source: Disk, target: Option<real>)
    requires source in inv.total && source in inv.used
  {
    target.Some? && inv.total[source] > 0
    && 100.0 * inv.used[source] as real > target.value * inv.total[source] as real
  }

  /** So it is still when the bytes that the moves in recs take off source are gone. */
  ghost predicate StillAbove(inv: Inventory, source: Disk, percent: real, recs: seq<Move>)
    requires source in inv.total && source in inv.used
  {
    var left := inv.used[source] - (BytesOn(inv.tablets, source) - BytesOn(After(inv.tablets, recs), source));
    100.0 * left as real > percent * inv.total[source] as real
  }

  lemma {:induction false} FreedBytes(inv: Inventory, source: Disk, recs: seq<Move>)
    requires ValidInventory(inv) && PlanFor(inv, recs) && forall k | 0 <= k < |recs| :: recs[k].source == source
    ensures BytesOn(inv.tablets, source) - BytesOn(After(inv.tablets, recs), source) == Freed(recs)
  {
    hide Tally, Places, After, LayoutOf, UniqueIds, Fits, Relocated, BytesOn;
    if recs == [] {
      AfterNothing(inv.tablets);
    } else {
      LayoutOfValid(inv);
      var k := |recs| - 1;
      PrefixIsPlan(LayoutOf(inv), inv.tablets, recs, k);
      FreedBytes(inv, source, recs[..k]);
      var i := PlanStep(LayoutOf(inv), inv.tablets, recs, k);
      assert recs[..k + 1] == recs;
      assert NextMove(LayoutOf(inv), inv.tablets, recs[..k], recs[k]);
      RelocatedCounts(After(inv.tablets, recs[..k]), i, recs[k].dest, recs[k].tablet.table, source);
    }
  }

  lemma EnoughIff(inv: Inventory, source: Disk, target: Option<real>, recs: seq<Move>)
    requires ValidInventory(inv) && PlanFor(inv, recs) && forall k | 0 <= k < |recs| :: recs[k].source == source
    requires source in inv.total && source in inv.used
    ensures Enough(Wanted(inv, source, target), recs)
      <==> AboveTarget(inv, source, target) && !StillAbove(inv, source, target.value, recs)
  {
    hide PlanFor, After, BytesOn;
    FreedBytes(inv, source, recs);
    if target.Some? {
      Percent(inv.total[source] as real, target.value);
    }
  }

  lemma Percent(total: real, p: real)
    ensures 100.0 * (total * (p / 100.0)) == p * total
  {}

  lemma StoppingRule(inv: Inventory, source: Disk, target: Option<real>, recs: seq<Move>)
    requires ValidInventory(inv) && PlanFor(inv, recs) && forall k | 0 <= k < |recs| :: recs[k].source == source
    requires source in inv.paths
    requires forall k | 0 <= k < |recs| :: !Enough(Wanted(inv, source, target), recs[..k])
    ensures AboveTarget(inv, source, target) ==>
      forall k | 0 <= k < |recs| :: StillAbove(inv, source, target.value, recs[..k])
    ensures Enough(Wanted(inv, source, target), recs) ==>
      AboveTarget(inv, source, target) && !StillAbove(inv, source, target.value, recs)
  {
    hide Enough, Wanted, StillAbove, IsPlan, LayoutOf, Sum, After;
    LayoutOfValid(inv);
    EnoughIff(inv, source, target, recs);
    forall k | 0 <= k < |recs|
      ensures AboveTarget(inv, source, target) ==> StillAbove(inv, source, target.value, recs[..k])
    {
      PrefixIsPlan(LayoutOf(inv), inv.tablets, recs, k);
      EnoughIff(inv, source, target, recs[..k]);
    }
  }

  /**
   Largest first, the tablets of source that placement would send elsewhere. The result is an executable plan;
   unless a limit stopped the scan, one pass was enough: nothing left on source can be moved.
   */
  method FindMovableTablets(source: Disk, inv: Inventory, counts: Counts, maxRecs: int, target: Option<real>)
    returns (recs: seq<Move>)
    requires ValidInventory(inv) && source in inv.paths
    requires counts == Tally(LayoutOf(inv), inv.tablets)
    ensures PlanFor(inv, recs) && forall k | 0 <= k < |recs| :: recs[k].source == source
    ensures recs != [] ==> |recs| <= maxRecs
    ensures forall k | 0 <= k < |recs| :: !Enough(Wanted(inv, source, target), recs[..k])
    ensures exists m | 0 <= m <= |Candidates(inv, source)| ::
      Settled(inv, source, recs, m)
      && (m == |Candidates(inv, source)| || |recs| >= maxRecs || Enough(Wanted(inv, source, target), recs))
    ensures |recs| < maxRecs && !Enough(Wanted(inv, source, target), recs) ==> NothingMovable(inv, source, recs)
    ensures AboveTarget(inv, source, target) ==>
      forall k | 0 <= k < |recs| :: StillAbove(inv, source, target.value, recs[..k])
    ensures |recs| < maxRecs && !NothingMovable(inv, source, recs) ==>
      AboveTarget(inv, source, target) && !StillAbove(inv, source, target.value, recs)
  {
    hide AboveTarget, StillAbove;
    hide Tally, Places, After, Shift, Candidates, LayoutOf, NothingMovable, PlanFor;
    hide Settled, Scan, Moved, Freed, UniqueIds, Distinct, ValidRow, RowOf;
    var sim := counts;
    var cands := Candidates(inv, source);
    var wanted := Wanted(inv, source, target);
    var moved: set<string> := {};
    var freed := 0;
    recs := [];
    EmptyPlan(inv);
    StartScan(inv, source, maxRecs, wanted);
    var k := 0;
    while k < |cands|
      invariant 0 <= k <= |cands|
      invariant ValidLayout(LayoutOf(inv))
      invariant Scan(inv, source, maxRecs, wanted, recs, k)
      invariant sim == Tally(LayoutOf(inv), After(inv.tablets, recs))
      invariant forall id :: id in moved <==> Moved(recs, id)
      invariant freed == Freed(recs)
    {
      if |recs| >= maxRecs { break; }
      if wanted.Some? && freed as real >= wanted.value { break; }
      var tablet := cands[k];
      ScanNext(inv, source, maxRecs, wanted, recs, k);
      k := k + 1;
      if tablet.id in moved { continue; }
      var dest := SimulatePlacement(tablet.table, source, sim);
      if dest.None? || dest.value == source {
        ScanSkip(inv, source, maxRecs, wanted, recs, k - 1);
        continue;
      }
      ScanTake(inv, source, maxRecs, wanted, recs, k - 1, dest.value);
      MovedOneMore(recs, Move(tablet, source, dest.value, |recs| + 1));
      recs := recs + [Move(tablet, source, dest.value, |recs| + 1)];
      moved := moved + {tablet.id};
      freed := freed + tablet.size;
      sim := Shift(sim, tablet.table, source, dest.value);
    }
    ScanEnds(inv, source, maxRecs, wanted, recs, k);
    StoppingRule(inv, source, target, recs);
  }

  lemma EmptyPlan(inv: Inventory)
    requires ValidInventory(inv)
    ensures ValidLayout(LayoutOf(inv)) && PlanFor(inv, [])
    ensures Tally(LayoutOf(inv), inv.tablets) == Tally(LayoutOf(inv), After(inv.tablets, []))
    ensures forall id :: !Moved([], id)
  {
    hide Tally;
    LayoutOfValid(inv);
    AfterNothing(inv.tablets);
  }

  lemma StartScan(inv: Inventory, source: Disk, maxRecs: int, wanted: Option<real>)
    requires ValidInventory(inv)
    ensures Scan(inv, source, maxRecs, wanted, [], 0) && Freed([]) == 0
  {
    hide PlanFor, Candidates;
    EmptyPlan(inv);
  }

  lemma MovedOneMore(recs: seq<Move>, m: Move)
    ensures forall id :: Moved(recs + [m], id) <==> id == m.tablet.id || Moved(recs, id)
  {
    var next := recs + [m];
    assert next[|recs|] == m;
    assert forall k | 0 <= k < |recs| :: next[k] == recs[k];
    forall id | id == m.tablet.id || Moved(recs, id) ensures Moved(next, id) {
      if id != m.tablet.id {
        var k :| 0 <= k < |recs| && recs[k].tablet.id == id;
        assert next[k].tablet.id == id;
      }
    }
  }

  lemma NotYetMoved(recs: seq<Move>, cands: seq<Tablet>, k: nat)
    requires UniqueIds(cands) && k < |cands|
    requires forall j | 0 <= j < |recs| :: recs[j].tablet in cands[..k]
    ensures !Moved(recs, cands[k].id)
  {
    forall j | 0 <= j < |recs| ensures recs[j].tablet.id != cands[k].id {
      var i :| 0 <= i < k && cands[..k][i] == recs[j].tablet;
      assert cands[i].id != cands[k].id;
    }
  }

  predicate ShiftReady(c: Counts, t: Table, source: Disk, dest: Disk) {
    t in c.rows && source in c.rows[t].count && dest in c.rows[t].count && source in c.overall && dest in c.overall
  }

  lemma ShiftDefined(inv: Inventory, recs: seq<Move>, x: Tablet, dest: Disk)
    requires ValidInventory(inv) && x in inv.tablets && dest in inv.paths
    ensures ShiftReady(Tally(LayoutOf(inv), After(inv.tablets, recs)), x.table, x.disk, dest)
  {
    hide After, LayoutOf, PerDisk, PerDiskAll;
    LayoutOfValid(inv);
    assert dest in LayoutOf(inv).disks;
    var i :| 0 <= i < |inv.tablets| && inv.tablets[i] == x;
  }

  // ---------- Report of what cannot be moved ----------

  datatype Reason = NotFullerThan(sourceCount: int, minOther: int) | OverallTiebreak

  /** The candidates among the first m that would come straight back, in candidate order. */
  ghost function StuckAmong(inv: Inventory, source: Disk, m: nat): seq<Tablet>
    requires ValidInventory(inv) && m <= |Candidates(inv, source)|
  {
    if m == 0 then [] else
      var x := Candidates(inv, source)[m - 1];
      StuckAmong(inv, source, m - 1) + (if StuckAfter(inv, [], x.table, source) then [x] else [])
  }

  /** m is the least count of the table on a disk other than source; the source's own count if there is no other. */
  ghost predicate IsLeastElsewhere(lay: Layout, ts: seq<Tablet>, t: Table, source: Disk, m: int) {
    && (forall d | d in lay.disks && d != source :: m <= OnTable(ts, t, d))
    && ((exists d :: d in lay.disks && d != source && m == OnTable(ts, t, d))
        || ((forall d | d in lay.disks :: d == source) && m == OnTable(ts, t, source)))
  }

  method LeastElsewhere(row: Row, source: Disk, default: int) returns (m: int)
    requires ValidRow(row)
    ensures forall d | d in row.count && d != source :: m <= row.count[d]
    ensures (exists d :: d in row.count && d != source && m == row.count[d])
      || ((forall d | d in row.count :: d == source) && m == default)
  {
    var best: Option<int> := None;
    for k := 0 to |row.order|
      invariant best.None? ==> forall d | d in row.order[..k] :: d == source
      invariant best.Some? ==> exists d :: d in row.count && d != source && best.value == row.count[d]
      invariant best.Some? ==> forall d | d in row.order[..k] && d != source :: best.value <= row.count[d]
    {
      var d := row.order[k];
      assert d in row.count && row.order[..k + 1] == row.order[..k] + [d];
      if d != source && (best.None? || row.count[d] < best.value) {
        best := Some(row.count[d]);
      }
    }
    assert row.order[..|row.order|] == row.order;
    m := if best.Some? then best.value else default;
  }

  /** The reason is the true per-table comparison, and it holds. */
  ghost predicate Justified(inv: Inventory, source: Disk, r: (Tablet, Reason)) {
    && r.0 in inv.tablets && r.1.NotFullerThan?
    && r.1.sourceCount == OnTable(inv.tablets, r.0.table, source)
    && IsLeastElsewhere(LayoutOf(inv), inv.tablets, r.0.table, source, r.1.minOther)
    && r.1.sourceCount - 1 <= r.1.minOther
  }

  lemma StuckReason(inv: Inventory, source: Disk, x: Tablet, m: int)
    requires ValidInventory(inv) && source in inv.paths && x in inv.tablets
    requires StuckAfter(inv, [], x.table, source)
    requires var row := RowOf(Tally(LayoutOf(inv), inv.tablets), x.table);
      (forall d | d in row.count && d != source :: m <= row.count[d])
      && ((exists d :: d in row.count && d != source && m == row.count[d])
          || ((forall d | d in row.count :: d == source) && m == Get(row.count, source, 0)))
    ensures var src := Get(RowOf(Tally(LayoutOf(inv), inv.tablets), x.table).count, source, 0);
      src - 1 <= m && Justified(inv, source, (x, NotFullerThan(src, m)))
  {
    hide OnTable, OnDisk, LayoutOf, Stuck, UniqueIds, Distinct, Position;
    LayoutOfValid(inv);
    AfterNothing(inv.tablets);
    var lay := LayoutOf(inv);
    var i :| 0 <= i < |inv.tablets| && inv.tablets[i] == x;
    StuckMeans(lay, inv.tablets, x.table, source);
    var row := RowOf(Tally(lay, inv.tablets), x.table);
    assert forall d :: d in row.count <==> d in lay.disks;
    assert forall d | d in lay.disks :: row.count[d] == OnTable(inv.tablets, x.table, d);
    if d :| d in row.count && d != source && m == row.count[d] {
      assert StaysAgainst(lay, inv.tablets, x.table, source, d);
    }
  }

  /** Running the placement rule for candidate k on the initial counts decides whether it is stuck. */
  lemma StuckTest(inv: Inventory, source: Disk, k: nat)
    requires ValidInventory(inv) && k < |Candidates(inv, source)|
    ensures var x := Candidates(inv, source)[k];
      && x in inv.tablets && ValidRow(RowOf(Tally(LayoutOf(inv), inv.tablets), x.table))
      && (StuckAfter(inv, [], x.table, source) <==> Places(Tally(LayoutOf(inv), inv.tablets), x.table, source, source))
  {
    hide Tally, After, Candidates, LayoutOf, Places;
    LayoutOfValid(inv);
    AfterNothing(inv.tablets);
    CandidatesFacts(inv, source);
    assert PlanFor(inv, []);
    TryTablet(inv, [], Candidates(inv, source)[k]);
  }

  /**
   The largest stuck tablets of source, in size order; at least one is reported even for a limit below 1.
   The reason given is always the per-table count: the branch that blames the overall tiebreak is dead.
   */
  method FindUnmovableLargest(source: Disk, inv: Inventory, counts: Counts, limit: int)
    returns (results: seq<(Tablet, Reason)>)
    requires ValidInventory(inv) && source in inv.paths
    requires counts == Tally(LayoutOf(inv), inv.tablets)
    ensures var stuck := StuckAmong(inv, source, |Candidates(inv, source)|);
      var cap := if limit < 1 then 1 else limit;
      && |results| == (if |stuck| < cap then |stuck| else cap)
      && forall j | 0 <= j < |results| :: results[j].0 == stuck[j]
    ensures forall j | 0 <= j < |results| :: Justified(inv, source, results[j])
  {
    hide Tally, After, Candidates, LayoutOf, Justified, OnTable, Places, StuckAfter, ValidRow, ValidInventory,
      IsLeastElsewhere;
    var cands := Candidates(inv, source);
    results := [];
    for k := 0 to |cands|
      invariant |results| == |StuckAmong(inv, source, k)| && (results != [] ==> |results| < limit)
      invariant forall j | 0 <= j < |results| :: results[j].0 == StuckAmong(inv, source, k)[j]
      invariant forall j | 0 <= j < |results| :: Justified(inv, source, results[j])
    {
      var x := cands[k];
      StuckTest(inv, source, k);
      var dest := SimulatePlacement(x.table, source, counts);
      if dest.Some? && dest.value == source {
        var row := RowOf(counts, x.table);
        var src := Get(row.count, source, 0);
        var least := LeastElsewhere(row, source, src);
        StuckReason(inv, source, x, least);
        results := results + [(x, if src - 1 <= least then NotFullerThan(src, least) else OverallTiebreak)];
        if |results| >= limit {
          StuckAmongGrows(inv, source, k + 1, |cands|);
          break;
        }
      } else if StuckAfter(inv, [], x.table, source) {
        PlacesUnique(counts, x.table, source, source, dest.value);
      }
    }
  }

  lemma {:induction false} StuckAmongGrows(inv: Inventory, source: Disk, m: nat, n: nat)
    requires ValidInventory(inv) && m <= n <= |Candidates(inv, source)|
    ensures StuckAmong(inv, source, m) <= StuckAmong(inv, source, n)
    decreases n
  {
    hide Candidates, StuckAfter;
    if m < n {
      StuckAmongGrows(inv, source, m, n - 1);
    }
  }

  lemma {:induction false} AmongStuck(inv: Inventory, source: Disk, m: nat)
    requires ValidInventory(inv) && m <= |Candidates(inv, source)|
    ensures forall x | x in StuckAmong(inv, source, m) :: x in inv.tablets && StuckAfter(inv, [], x.table, source)
  {
    hide Candidates, StuckAfter;
    if m > 0 {
      AmongStuck(inv, source, m - 1);
      StuckTest(inv, source, m - 1);
    }
  }

  /** A tablet that comes straight back at the outset: no plan emptying source moves any tablet of its table. */
  lemma StuckIsNeverMoved(inv: Inventory, source: Disk, recs: seq<Move>, x: Tablet)
    requires ValidInventory(inv) && PlanFor(inv, recs) && forall k | 0 <= k < |recs| :: recs[k].source == source
    requires x in inv.tablets && StuckAfter(inv, [], x.table, source)
    ensures forall k | 0 <= k < |recs| :: recs[k].tablet.table != x.table
  {
    hide Tally, Places, After, LayoutOf, Stuck, Fits, UniqueIds;
    LayoutOfValid(inv);
    AfterNothing(inv.tablets);
    EmptyPlan(inv);
    TryTablet(inv, [], x);
    forall k | 0 <= k < |recs| ensures recs[k].tablet.disk == source {
      assert NextMove(LayoutOf(inv), inv.tablets, recs[..k], recs[k]);
    }
    ReportNeverContradictsPlan(LayoutOf(inv), inv.tablets, recs, source, x.table);
  }

  const REPORTED_AT_MOST := 5

  /** What is printed for one disk: the recommendations, and the largest tablets that cannot be moved. */
  method RecommendFor(source: Disk, inv: Inventory, counts: Counts, top: int, target: Option<real>)
    returns (recs: seq<Move>, unmovable: seq<(Tablet, Reason)>)
    requires ValidInventory(inv) && source in inv.paths && counts == Tally(LayoutOf(inv), inv.tablets)
    ensures PlanFor(inv, recs) && |unmovable| <= 5
    ensures forall j | 0 <= j < |unmovable| :: Justified(inv, source, unmovable[j])
    ensures forall j, k | 0 <= j < |unmovable| && 0 <= k < |recs| :: recs[k].tablet.table != unmovable[j].0.table
  {
    hide Tally, Candidates, LayoutOf, PlanFor, Settled, NothingMovable, Justified, StuckAfter, ValidInventory;
    recs := FindMovableTablets(source, inv, counts, top, target);
    unmovable := FindUnmovableLargest(source, inv, counts, REPORTED_AT_MOST);
    AmongStuck(inv, source, |Candidates(inv, source)|);
    forall j | 0 <= j < |unmovable| ensures forall k | 0 <= k < |recs| :: recs[k].tablet.table != unmovable[j].0.table {
      assert unmovable[j].0 in StuckAmong(inv, source, |Candidates(inv, source)|);
      StuckIsNeverMoved(inv, source, recs, unmovable[j].0);
    }
  }
}
