/**
 Plans of delete-and-re-place moves: what it means to carry one out, and what any
 plan keeps, whichever planner made it.
 */
module Plans {
  import opened Common
  import opened Sums
  import opened Placement

  datatype Move = Move(tablet: Tablet, source: Disk, dest: Disk, number: nat)

  ghost predicate UniqueIds(ts: seq<Tablet>) {
    forall i, j | 0 <= i < j < |ts| :: ts[i].id != ts[j].id
  }

  /** Where tablet x is once the moves have been carried out one at a time. */
  function Where(moves: seq<Move>, x: Tablet): Disk {
    if moves == [] then x.disk
    else if moves[|moves| - 1].tablet.id == x.id then moves[|moves| - 1].dest
    else Where(moves[..|moves| - 1], x)
  }

  /** The tablet list once the moves have been carried out. */
  function After(ts: seq<Tablet>, moves: seq<Move>): seq<Tablet> {
    seq(|ts|, i requires 0 <= i < |ts| => ts[i].(disk := Where(moves, ts[i])))
  }

  /**
   m is a correct next move: it is numbered in sequence, leaves the disk the tablet was found on, and
   the placement rule, run on counts rebuilt after the moves done so far, sends the tablet to m.dest.
   */
  ghost predicate NextMove(lay: Layout, all: seq<Tablet>, done: seq<Move>, m: Move)
    requires ValidLayout(lay)
  {
    && m.number == |done| + 1
    && m.tablet in all && m.source == m.tablet.disk && m.dest != m.source
    && Places(Tally(lay, After(all, done)), m.tablet.table, m.source, m.dest)
  }

  ghost predicate IsPlan(lay: Layout, all: seq<Tablet>, moves: seq<Move>)
    requires ValidLayout(lay)
  {
    && (forall k | 0 <= k < |moves| :: NextMove(lay, all, moves[..k], moves[k]))
    && (forall j, k | 0 <= j < k < |moves| :: moves[j].tablet.id != moves[k].tablet.id)
  }

  lemma AfterNothing(ts: seq<Tablet>)
    ensures After(ts, []) == ts
  {
  }

  lemma PrefixIsPlan(lay: Layout, all: seq<Tablet>, moves: seq<Move>, k: nat)
    requires ValidLayout(lay) && IsPlan(lay, all, moves) && k <= |moves|
    ensures IsPlan(lay, all, moves[..k])
  {
    hide Places, Tally, After;
    forall j | 0 <= j < k ensures NextMove(lay, all, moves[..k][..j], moves[..k][j]) {
      assert moves[..k][..j] == moves[..j];
    }
  }

  ghost predicate Moved(moves: seq<Move>, id: string) {
    exists k :: 0 <= k < |moves| && moves[k].tablet.id == id
  }

  lemma PlacesInLayout(lay: Layout, ts: seq<Tablet>, t: Table, s: Disk, d: Disk)
    requires ValidLayout(lay) && t in lay.tables && s in lay.disks
    requires Places(Tally(lay, ts), t, s, d)
    ensures d in lay.disks
  {
    hide OnTable, OnDisk;
  }

  lemma {:induction false} WhereUnmoved(moves: seq<Move>, x: Tablet)
    requires !Moved(moves, x.id)
    ensures Where(moves, x) == x.disk
  {
    if moves != [] {
      var rest := moves[..|moves| - 1];
      assert forall k | 0 <= k < |rest| :: rest[k] == moves[k];
      assert moves[|moves| - 1].tablet.id != x.id;
      WhereUnmoved(rest, x);
    }
  }

  lemma {:induction false} WhereMoved(moves: seq<Move>, k: nat)
    requires forall i, j | 0 <= i < j < |moves| :: moves[i].tablet.id != moves[j].tablet.id
    requires k < |moves|
    ensures Where(moves, moves[k].tablet) == moves[k].dest
  {
    if k < |moves| - 1 {
      WhereMoved(moves[..|moves| - 1], k);
    }
  }

  lemma {:induction false} WhereInLayout(lay: Layout, all: seq<Tablet>, moves: seq<Move>, x: Tablet)
    requires ValidLayout(lay) && Fits(lay, all) && IsPlan(lay, all, moves) && x.disk in lay.disks
    ensures Where(moves, x) in lay.disks
  {
    hide Tally, Places, ValidLayout;
    if moves != [] {
      var k := |moves| - 1;
      PrefixIsPlan(lay, all, moves, k);
      WhereInLayout(lay, all, moves[..k], x);
      assert NextMove(lay, all, moves[..k], moves[k]);
      PlacesInLayout(lay, After(all, moves[..k]), moves[k].tablet.table, moves[k].source, moves[k].dest);
    }
  }

  /** Carrying out a plan loses no tablet, leaves the unmoved ones in place and each moved one where predicted. */
  lemma PlanIsExecutable(lay: Layout, all: seq<Tablet>, moves: seq<Move>)
    requires ValidLayout(lay) && Fits(lay, all) && IsPlan(lay, all, moves)
    ensures Fits(lay, After(all, moves))
    ensures forall i | 0 <= i < |all| ::
        After(all, moves)[i] == all[i].(disk := After(all, moves)[i].disk)
        && (!Moved(moves, all[i].id) ==> After(all, moves)[i] == all[i])
    ensures forall i, k | 0 <= i < |all| && 0 <= k < |moves| && all[i] == moves[k].tablet ::
        After(all, moves)[i].disk == moves[k].dest
  {
    hide Tally, Places, ValidLayout, Where;
    forall i | 0 <= i < |all|
      ensures After(all, moves)[i].disk in lay.disks
      ensures !Moved(moves, all[i].id) ==> After(all, moves)[i] == all[i]
    {
      WhereInLayout(lay, all, moves, all[i]);
      if !Moved(moves, all[i].id) {
        WhereUnmoved(moves, all[i]);
      }
    }
    forall k | 0 <= k < |moves| ensures Where(moves, moves[k].tablet) == moves[k].dest {
      WhereMoved(moves, k);
    }
  }

  /** The effect of one more move on the list: exactly the chosen tablet changes disk. */
  lemma LastMove(all: seq<Tablet>, done: seq<Move>, m: Move) returns (i: nat)
    requires UniqueIds(all) && m.tablet in all && !Moved(done, m.tablet.id)
    ensures i < |all| && all[i] == m.tablet && After(all, done)[i] == m.tablet
    ensures After(all, done + [m]) == Relocated(After(all, done), i, m.dest)
  {
    i :| 0 <= i < |all| && all[i] == m.tablet;
    WhereUnmoved(done, all[i]);
    assert (done + [m])[..|done|] == done;
    forall j | 0 <= j < |all| && j != i ensures all[j].id != all[i].id {
    }
  }

  /** A planner may append a correct next move, and its shifted counters are the tally after it. */
  lemma PlanExtends(lay: Layout, all: seq<Tablet>, done: seq<Move>, m: Move) returns (i: nat)
    requires ValidLayout(lay) && UniqueIds(all) && Fits(lay, all) && IsPlan(lay, all, done)
    requires NextMove(lay, all, done, m) && !Moved(done, m.tablet.id)
    ensures IsPlan(lay, all, done + [m])
    ensures i < |all| && all[i] == m.tablet && |After(all, done)| == |all| && After(all, done)[i] == m.tablet
    ensures m.tablet.table in lay.tables && m.source in lay.disks && m.dest in lay.disks
    ensures After(all, done + [m]) == Relocated(After(all, done), i, m.dest)
    ensures Tally(lay, After(all, done + [m])) == Shift(Tally(lay, After(all, done)), m.tablet.table, m.source, m.dest)
  {
    hide Tally, Places, Where, Relocated, Shift, UniqueIds, ValidLayout;
    PlanIsExecutable(lay, all, done);
    i := LastMove(all, done, m);
    PlacesInLayout(lay, After(all, done), m.tablet.table, m.source, m.dest);
    ShiftIsTally(lay, After(all, done), i, m.dest);
    var moves := done + [m];
    forall k | 0 <= k < |moves| ensures NextMove(lay, all, moves[..k], moves[k]) {
      assert moves[..k] == done[..k];
      assert done[..|done|] == done;
    }
  }

  /** The state before move k, the tablet it takes, and that the placement rule really sends it away. */
  lemma PlanStep(lay: Layout, all: seq<Tablet>, moves: seq<Move>, k: nat) returns (i: nat)
    requires ValidLayout(lay) && UniqueIds(all) && Fits(lay, all) && IsPlan(lay, all, moves) && k < |moves|
    ensures i < |all| == |After(all, moves[..k])| && After(all, moves[..k])[i] == moves[k].tablet
    ensures Fits(lay, After(all, moves[..k])) && Lands(lay, After(all, moves[..k]), i, moves[k].dest)
    ensures moves[k].dest in lay.disks && moves[k].dest != moves[k].tablet.disk
    ensures After(all, moves[..k + 1]) == Relocated(After(all, moves[..k]), i, moves[k].dest)
  {
    hide Tally, Places, Where, After, Fits, Relocated, UniqueIds, ValidLayout;
    PrefixIsPlan(lay, all, moves, k);
    PlanIsExecutable(lay, all, moves[..k]);
    assert NextMove(lay, all, moves[..k], moves[k]);
    assert forall j | 0 <= j < k :: moves[..k][j].tablet.id != moves[k].tablet.id;
    i := PlanExtends(lay, all, moves[..k], moves[k]);
    assert moves[..k] + [moves[k]] == moves[..k + 1];
  }

  /** Along a whole plan no table's highest count rises and no table's lowest count falls. */
  lemma {:induction false} PlanShrinksSkew(lay: Layout, all: seq<Tablet>, moves: seq<Move>, k: nat, t: Table,
      low: int, high: int)
    requires ValidLayout(lay) && UniqueIds(all) && Fits(lay, all) && IsPlan(lay, all, moves) && k <= |moves|
    requires forall d | d in lay.disks :: low <= OnTable(all, t, d) <= high
    ensures forall d | d in lay.disks :: low <= OnTable(After(all, moves[..k]), t, d) <= high
  {
    hide OnTable, Places, Tally, IsPlan, Fits, UniqueIds;
    if k == 0 {
      AfterNothing(all);
      assert moves[..0] == [];
    } else {
      PlanShrinksSkew(lay, all, moves, k - 1, t, low, high);
      var i := PlanStep(lay, all, moves, k - 1);
      SkewOnlyShrinks(lay, After(all, moves[..k - 1]), i, moves[k - 1].dest, t, low, high);
    }
  }

  function BytesPerDisk(ts: seq<Tablet>): Disk -> int { (d: Disk) => BytesOn(ts, d) }

  /** A relocation only shifts counts and bytes between disks. */
  lemma RelocationConserves(lay: Layout, ts: seq<Tablet>, i: nat, dest: Disk, t: Table)
    requires ValidLayout(lay) && Fits(lay, ts) && i < |ts| && dest in lay.disks && dest != ts[i].disk
    ensures Sum(lay.disks, PerDisk(Relocated(ts, i, dest), t)) == Sum(lay.disks, PerDisk(ts, t))
    ensures Sum(lay.disks, PerDiskAll(Relocated(ts, i, dest))) == Sum(lay.disks, PerDiskAll(ts))
    ensures Sum(lay.disks, BytesPerDisk(Relocated(ts, i, dest))) == Sum(lay.disks, BytesPerDisk(ts))
  {
    hide OnTable, OnDisk, BytesOn, Relocated, Sum;
    var s, next := ts[i].disk, Relocated(ts, i, dest);
    forall d: Disk
      ensures PerDisk(next, t)(d) - PerDisk(ts, t)(d)
        == if t != ts[i].table then 0 else if d == s then -1 else if d == dest then 1 else 0
      ensures PerDiskAll(next)(d) - PerDiskAll(ts)(d) == if d == s then -1 else if d == dest then 1 else 0
      ensures BytesPerDisk(next)(d) - BytesPerDisk(ts)(d)
        == if d == s then -(ts[i].size as int) else if d == dest then ts[i].size else 0
    {
      RelocatedCounts(ts, i, dest, t, d);
    }
    SumMoved(lay.disks, PerDisk(ts, t), PerDisk(next, t), s, dest);
    SumMoved(lay.disks, PerDiskAll(ts), PerDiskAll(next), s, dest);
    SumMoved(lay.disks, BytesPerDisk(ts), BytesPerDisk(next), s, dest);
  }

  /** Along a whole plan the totals per table, overall and in bytes stay what they were, and no count gets negative. */
  lemma {:induction false} PlanConserves(lay: Layout, all: seq<Tablet>, moves: seq<Move>, k: nat, t: Table)
    requires ValidLayout(lay) && UniqueIds(all) && Fits(lay, all) && IsPlan(lay, all, moves) && k <= |moves|
    ensures var now := After(all, moves[..k]);
      && Sum(lay.disks, PerDisk(now, t)) == Sum(lay.disks, PerDisk(all, t))
      && Sum(lay.disks, PerDiskAll(now)) == Sum(lay.disks, PerDiskAll(all))
      && Sum(lay.disks, BytesPerDisk(now)) == Sum(lay.disks, BytesPerDisk(all))
      && forall d :: 0 <= OnTable(now, t, d) && 0 <= OnDisk(now, d)
  {
    hide OnTable, OnDisk, Places, Tally, IsPlan, Fits, UniqueIds, Sum, After;
    if k == 0 {
      AfterNothing(all);
      assert moves[..0] == [];
    } else {
      PlanConserves(lay, all, moves, k - 1, t);
      var i := PlanStep(lay, all, moves, k - 1);
      RelocationConserves(lay, After(all, moves[..k - 1]), i, moves[k - 1].dest, t);
    }
    forall d ensures 0 <= OnTable(After(all, moves[..k]), t, d) && 0 <= OnDisk(After(all, moves[..k]), d) {
      CountsNonNegative(After(all, moves[..k]), t, d);
    }
  }

  /** While a plan only takes tablets off s, whatever was stuck on s stays stuck. */
  lemma {:induction false} StuckThroughout(lay: Layout, all: seq<Tablet>, moves: seq<Move>, s: Disk, t: Table,
      from: nat, k: nat)
    requires ValidLayout(lay) && UniqueIds(all) && Fits(lay, all) && IsPlan(lay, all, moves) && from <= k <= |moves|
    requires forall j | 0 <= j < |moves| :: moves[j].tablet.disk == s
    requires t in lay.tables && Stuck(lay, After(all, moves[..from]), t, s)
    ensures Stuck(lay, After(all, moves[..k]), t, s)
    decreases k
  {
    hide OnTable, Places, Tally, IsPlan, Fits, UniqueIds, Stuck, After, Relocated;
    if from < k {
      StuckThroughout(lay, all, moves, s, t, from, k - 1);
      var i := PlanStep(lay, all, moves, k - 1);
      StuckStaysStuck(lay, After(all, moves[..k - 1]), i, moves[k - 1].dest, t);
    }
  }

  /** A tablet reported as unmovable on s: no plan that empties s ever moves a tablet of its table. */
  lemma ReportNeverContradictsPlan(lay: Layout, all: seq<Tablet>, moves: seq<Move>, s: Disk, t: Table)
    requires ValidLayout(lay) && UniqueIds(all) && Fits(lay, all) && IsPlan(lay, all, moves)
    requires forall j | 0 <= j < |moves| :: moves[j].tablet.disk == s
    requires t in lay.tables && Stuck(lay, all, t, s)
    ensures forall k | 0 <= k < |moves| :: moves[k].tablet.table != t
  {
    hide OnTable, Places, Tally, Fits, UniqueIds;
    forall k | 0 <= k < |moves| ensures moves[k].tablet.table != t {
      AfterNothing(all);
      assert moves[..0] == [];
      StuckThroughout(lay, all, moves, s, t, 0, k);
      if moves[k].tablet.table == t {
        assert NextMove(lay, all, moves[..k], moves[k]);
        PlacesUnique(Tally(lay, After(all, moves[..k])), t, s, s, moves[k].dest);
        assert false;
      }
    }
  }
}
