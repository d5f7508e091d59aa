/** The planner that works on all overloaded disks at once, always taking from the most loaded one. */
module BalancePlanner {
  import opened Common
  import opened Sums
  import opened Placement
  import opened Plans
  import opened Counting
  import opened Planners

  // ---------- Load ----------

  predicate HasCapacity(inv: Inventory)
    requires ValidInventory(inv)
  {
    exists d | d in inv.paths :: inv.total[d] > 0
  }

  function Lookup(m: map<Disk, nat>): Disk -> int {
    (d: Disk) => if d in m then m[d] else 0
  }

  function Bytes(inv: Inventory): Disk -> int {
    (d: Disk) => BytesOn(inv.tablets, d)
  }

  /** A disk's load when `bytes` are on it: percent of its capacity, or the bytes themselves without df data. */
  function LoadOf(inv: Inventory, d: Disk, bytes: int): Option<real>
    requires ValidInventory(inv) && d in inv.paths
  {
    if !HasCapacity(inv) then Some(bytes as real)
    else if inv.total[d] == 0 then None
    else Some(bytes as real / inv.total[d] as real * 100.0)
  }

  function TargetLoad(inv: Inventory, target: Option<real>): real
    requires ValidInventory(inv)
  {
    if HasCapacity(inv) then
      if target.Some? then target.value
      else
        var cap := Sum(inv.paths, Lookup(inv.total));
        if cap > 0 then Sum(inv.paths, Lookup(inv.used)) as real / cap as real * 100.0 else 0.0
    else if inv.paths == [] then 0.0
    else Sum(inv.paths, Bytes(inv)) as real / |inv.paths| as real
  }

  /** Bytes attributed to disk d once the moves in recs have been carried out. */
  function BytesAfter(inv: Inventory, recs: seq<Move>, d: Disk): int
    requires ValidInventory(inv) && d in inv.paths
  {
    (if HasCapacity(inv) then inv.used[d] - BytesOn(inv.tablets, d) else 0) + BytesOn(After(inv.tablets, recs), d)
  }

  function LoadAfter(inv: Inventory, recs: seq<Move>, d: Disk): Option<real>
    requires ValidInventory(inv) && d in inv.paths
  {
    LoadOf(inv, d, BytesAfter(inv, recs, d))
  }

  // ---------- What load and target mean ----------

  /** With df data a disk's load times its size is a hundred times its bytes; without, the load is the bytes. */
  lemma LoadMeans(inv: Inventory, d: Disk, bytes: int)
    requires ValidInventory(inv) && d in inv.paths
    ensures (exists e | e in inv.paths :: inv.total[e] > 0) ==>
      if inv.total[d] == 0 then LoadOf(inv, d, bytes).None?
      else LoadOf(inv, d, bytes).Some?
           && LoadOf(inv, d, bytes).value * inv.total[d] as real == 100.0 * bytes as real
    ensures (forall e | e in inv.paths :: inv.total[e] == 0) ==> LoadOf(inv, d, bytes) == Some(bytes as real)
  {}

  /** The bytes on a disk after some moves: those used, less what left, plus what came; without df data, its tablets. */
  lemma BytesAfterMeans(inv: Inventory, recs: seq<Move>, d: Disk)
    requires ValidInventory(inv) && d in inv.paths
    ensures var (before, now) := (BytesOn(inv.tablets, d), BytesOn(After(inv.tablets, recs), d));
      && ((exists e | e in inv.paths :: inv.total[e] > 0) ==> BytesAfter(inv, recs, d) == inv.used[d] - before + now)
      && ((forall e | e in inv.paths :: inv.total[e] == 0) ==> BytesAfter(inv, recs, d) == now)
  {}

  /** A target given is the target; else it is the usage of all disks together, or the bytes per disk. */
  lemma TargetMeans(inv: Inventory, target: Option<real>)
    requires ValidInventory(inv)
    ensures var t := TargetLoad(inv, target);
      var (totals, used) := (SumOf(inv.paths, inv.total), SumOf(inv.paths, inv.used));
      if exists d | d in inv.paths :: inv.total[d] > 0 then
        if target.Some? then t == target.value else totals > 0 && t * totals as real == 100.0 * used as real
      else t * |inv.paths| as real == Sum(inv.tablets, (x: Tablet) => x.size) as real && (inv.paths == [] ==> t == 0.0)
  {
    hide Sum, SumOf, BytesOn;
    if exists d | d in inv.paths :: inv.total[d] > 0 {
      TotalsAdd(inv);
      Quotient(SumOf(inv.paths, inv.used) as real, SumOf(inv.paths, inv.total) as real);
    } else {
      AllBytes(inv.paths, inv.tablets);
      SumSame(inv.paths, Bytes(inv), BytesPerDisk(inv.tablets));
      SumOfNone(Bytes(inv));
      if inv.paths != [] {
        Quotient(Sum(inv.paths, Bytes(inv)) as real, |inv.paths| as real);
      }
    }
  }

  lemma SumOfNone(f: Disk -> int)
    ensures Sum([], f) == 0
  {}

  lemma Quotient(a: real, b: real)
    requires b > 0.0
    ensures a / b * b == a && a / b * 100.0 * b == 100.0 * a
  {
    var q := a / b;
    assert q * b == a;
    assert q * 100.0 * b == 100.0 * (q * b);
  }

  /** If all disks of some size are equally full, the target is how full they are. */
  lemma EquallyFull(inv: Inventory, percent: real)
    requires ValidInventory(inv) && exists d | d in inv.paths :: inv.total[d] > 0
    requires forall d | d in inv.paths :: percent * inv.total[d] as real == 100.0 * inv.used[d] as real
    ensures TargetLoad(inv, None) == percent
  {
    hide Sum, SumOf, TargetLoad;
    TargetMeans(inv, None);
    assert forall d | d in inv.paths :: IsFull(inv.total[d], inv.used[d], percent);
    Proportional(inv.paths, inv.total, inv.used, percent);
    OneQuotient(TargetLoad(inv, None), percent, SumOf(inv.paths, inv.total) as real);
  }

  lemma OneQuotient(a: real, b: real, c: real)
    requires c > 0.0 && a * c == b * c
    ensures a == b
  {
    assert (a - b) * c == 0.0;
  }

  function SumOf(ds: seq<Disk>, m: map<Disk, nat>): nat
    requires forall d | d in ds :: d in m
  {
    if ds == [] then 0 else m[ds[0]] + SumOf(ds[1..], m)
  }

  predicate IsFull(total: nat, used: nat, percent: real) { percent * total as real == 100.0 * used as real }

  lemma {:induction false} Proportional(ds: seq<Disk>, m: map<Disk, nat>, n: map<Disk, nat>, percent: real)
    requires forall d | d in ds :: d in m && d in n && IsFull(m[d], n[d], percent)
    ensures IsFull(SumOf(ds, m), SumOf(ds, n), percent)
  {
    if ds != [] {
      Proportional(ds[1..], m, n, percent);
      hide IsFull;
      Together(percent, m[ds[0]], n[ds[0]], SumOf(ds[1..], m), SumOf(ds[1..], n));
    }
  }

  lemma Together(p: real, a: nat, b: nat, c: nat, d: nat)
    requires IsFull(a, b, p) && IsFull(c, d, p)
    ensures IsFull(a + c, b + d, p)
  {
    assert (a + c) as real == a as real + c as real && (b + d) as real == b as real + d as real;
    assert p * (a as real + c as real) == p * a as real + p * c as real;
  }

  lemma {:induction false} SumOfIsSum(ds: seq<Disk>, m: map<Disk, nat>)
    requires forall d | d in ds :: d in m
    ensures Sum(ds, Lookup(m)) == SumOf(ds, m)
    ensures SumOf(ds, m) > 0 <==> exists d | d in ds :: m[d] > 0
  {
    if ds != [] {
      SumOfIsSum(ds[1..], m);
      assert forall d :: d in ds <==> d == ds[0] || d in ds[1..];
    }
  }

  lemma TotalsAdd(inv: Inventory)
    requires ValidInventory(inv)
    ensures Sum(inv.paths, Lookup(inv.total)) == SumOf(inv.paths, inv.total)
    ensures Sum(inv.paths, Lookup(inv.used)) == SumOf(inv.paths, inv.used)
    ensures SumOf(inv.paths, inv.total) > 0 <==> exists d | d in inv.paths :: inv.total[d] > 0
  {
    SumOfIsSum(inv.paths, inv.total);
    SumOfIsSum(inv.paths, inv.used);
  }

  /** Every tablet's bytes are on exactly one disk. */
  lemma {:induction false} AllBytes(ds: seq<Disk>, ts: seq<Tablet>)
    requires Distinct(ds) && forall i | 0 <= i < |ts| :: ts[i].disk in ds
    ensures Sum(ds, BytesPerDisk(ts)) == Sum(ts, (x: Tablet) => x.size)
  {
    if ts == [] {
      NoBytes(ds);
    } else {
      AllBytes(ds, ts[1..]);
      forall d | d in ds ensures BytesPerDisk(ts)(d) == BytesPerDisk(ts[1..])(d) + if ts[0].disk == d then ts[0].size else 0 {
      }
      SumChangedAt(ds, BytesPerDisk(ts[1..]), BytesPerDisk(ts), ts[0].disk);
    }
  }

  lemma {:induction false} NoBytes(ds: seq<Disk>)
    ensures Sum(ds, BytesPerDisk([])) == 0
  {
    if ds != [] {
      NoBytes(ds[1..]);
    }
  }

  /** Above the target, and above the -1 that the search for the maximum starts from. */
  predicate TooHigh(load: Option<real>, target: real) {
    load.Some? && load.value > target && load.value > -1.0
  }

  // ---------- What the planner promises ----------

  /** x was recommended, or at some point of the plan would have come straight back. */
  ghost predicate Considered(inv: Inventory, recs: seq<Move>, x: Tablet)
    requires ValidInventory(inv)
  {
    Recommended(recs, x) || exists j :: 0 <= j <= |recs| && StuckAfter(inv, recs[..j], x.table, x.disk)
  }

  ghost predicate ConsideredUpTo(inv: Inventory, recs: seq<Move>, d: Disk, m: nat)
    requires ValidInventory(inv) && m <= |Candidates(inv, d)|
  {
    forall i | 0 <= i < m :: Considered(inv, recs, Candidates(inv, d)[i])
  }

  ghost predicate Spent(inv: Inventory, recs: seq<Move>, d: Disk)
    requires ValidInventory(inv)
  {
    ConsideredUpTo(inv, recs, d, |Candidates(inv, d)|)
  }

  /**
   m was the right move to add to the plan done: its source was overloaded, every disk at least as loaded
   that the search meets no later had no candidate left, and so had every larger tablet of its own disk.
   */
  ghost predicate Greedy(inv: Inventory, target: real, done: seq<Move>, m: Move)
    requires ValidInventory(inv)
  {
    && m.source in inv.paths && TooHigh(LoadAfter(inv, done, m.source), target)
    && (forall d | d in inv.paths && TooHigh(LoadAfter(inv, done, d), target)
          && LoadAfter(inv, done, d).value > LoadAfter(inv, done, m.source).value :: Spent(inv, done, d))
    && (forall i, j | 0 <= i < j < |inv.paths| && inv.paths[j] == m.source
          && LoadAfter(inv, done, inv.paths[i]) == LoadAfter(inv, done, m.source) :: Spent(inv, done, inv.paths[i]))
    && exists c :: 0 <= c < |Candidates(inv, m.source)| && Candidates(inv, m.source)[c] == m.tablet
         && ConsideredUpTo(inv, done, m.source, c)
  }

  // ---------- The working state ----------

  ghost predicate Progress(inv: Inventory, recs: seq<Move>, cursor: map<Disk, nat>, exhausted: set<Disk>)
    requires ValidInventory(inv)
  {
    && PlanFor(inv, recs)
    && (forall d | d in inv.paths :: d in cursor && cursor[d] <= |Candidates(inv, d)|
          && ConsideredUpTo(inv, recs, d, cursor[d]))
    && (forall k | 0 <= k < |recs| :: recs[k].tablet.disk in inv.paths
          && recs[k].tablet in Candidates(inv, recs[k].tablet.disk)[..cursor[recs[k].tablet.disk]])
    && (forall d | d in exhausted :: d in inv.paths && cursor[d] == |Candidates(inv, d)|)
  }

  lemma ConsideredLater(inv: Inventory, recs: seq<Move>, m: Move, x: Tablet)
    requires ValidInventory(inv) && Considered(inv, recs, x)
    ensures Considered(inv, recs + [m], x)
  {
    hide StuckAfter;
    var next := recs + [m];
    if Recommended(recs, x) {
      var k :| 0 <= k < |recs| && recs[k].tablet == x;
      assert next[k].tablet == x;
    } else {
      var j :| 0 <= j <= |recs| && StuckAfter(inv, recs[..j], x.table, x.disk);
      assert next[..j] == recs[..j];
    }
  }

  lemma BytesMoved(inv: Inventory, recs: seq<Move>, m: Move, i: nat, d: Disk)
    requires ValidInventory(inv) && d in inv.paths
    requires i < |After(inv.tablets, recs)| && After(inv.tablets, recs)[i] == m.tablet && m.dest != m.tablet.disk
    requires After(inv.tablets, recs + [m]) == Relocated(After(inv.tablets, recs), i, m.dest)
    ensures BytesAfter(inv, recs + [m], d) == BytesAfter(inv, recs, d)
      + (if d == m.tablet.disk then -(m.tablet.size as int) else if d == m.dest then m.tablet.size else 0)
  {
    hide BytesOn, Relocated, HasCapacity, After;
    RelocatedCounts(After(inv.tablets, recs), i, m.dest, m.tablet.table, d);
  }

  /** The candidate under a disk's cursor has not been moved, and the placement rule can be run for it. */
  lemma NextCandidate(inv: Inventory, recs: seq<Move>, cursor: map<Disk, nat>, exhausted: set<Disk>, s: Disk)
    requires ValidInventory(inv) && Progress(inv, recs, cursor, exhausted) && s in inv.paths
    requires cursor[s] < |Candidates(inv, s)|
    ensures var x := Candidates(inv, s)[cursor[s]];
      && x in inv.tablets && x.disk == s && !Moved(recs, x.id) && ValidLayout(LayoutOf(inv))
      && ValidRow(RowOf(Tally(LayoutOf(inv), After(inv.tablets, recs)), x.table))
  {
    hide Tally, After, Candidates, LayoutOf, PlanFor, ConsideredUpTo;
    CandidatesFacts(inv, s);
    var x := Candidates(inv, s)[cursor[s]];
    TryTablet(inv, recs, x);
    forall k | 0 <= k < |recs| ensures recs[k].tablet.id != x.id {
      CandidatesFacts(inv, recs[k].tablet.disk);
      var n :| 0 <= n < cursor[recs[k].tablet.disk]
        && Candidates(inv, recs[k].tablet.disk)[..cursor[recs[k].tablet.disk]][n] == recs[k].tablet;
      if recs[k].tablet.id == x.id {
        OneOwner(inv, recs[k].tablet, x);
        assert false;
      }
    }
  }

  /** The candidate stays: the cursor may pass it. */
  lemma SkipCandidate(inv: Inventory, recs: seq<Move>, cursor: map<Disk, nat>, exhausted: set<Disk>, s: Disk)
    requires ValidInventory(inv) && Progress(inv, recs, cursor, exhausted) && s in inv.paths
    requires cursor[s] < |Candidates(inv, s)| && s !in exhausted
    requires Places(Tally(LayoutOf(inv), After(inv.tablets, recs)), Candidates(inv, s)[cursor[s]].table, s, s)
    ensures Progress(inv, recs, cursor[s := cursor[s] + 1], exhausted)
  {
    hide Tally, Places, After, Candidates, LayoutOf, PlanFor;
    NextCandidate(inv, recs, cursor, exhausted, s);
    assert recs[..|recs|] == recs;
    assert StuckAfter(inv, recs, Candidates(inv, s)[cursor[s]].table, s);
  }

  /** The candidate moves: the plan grows, and the counters and loads follow. */
  lemma TakeCandidate(inv: Inventory, recs: seq<Move>, cursor: map<Disk, nat>, exhausted: set<Disk>, s: Disk,
      dest: Disk)
    requires ValidInventory(inv) && Progress(inv, recs, cursor, exhausted) && s in inv.paths
    requires cursor[s] < |Candidates(inv, s)| && s !in exhausted && dest != s
    requires Places(Tally(LayoutOf(inv), After(inv.tablets, recs)), Candidates(inv, s)[cursor[s]].table, s, dest)
    ensures var x := Candidates(inv, s)[cursor[s]];
      var next := recs + [Move(x, s, dest, |recs| + 1)];
      && Progress(inv, next, cursor[s := cursor[s] + 1], exhausted)
      && ShiftReady(Tally(LayoutOf(inv), After(inv.tablets, recs)), x.table, s, dest)
      && Tally(LayoutOf(inv), After(inv.tablets, next))
         == Shift(Tally(LayoutOf(inv), After(inv.tablets, recs)), x.table, s, dest)
      && dest in inv.paths
      && forall d | d in inv.paths :: BytesAfter(inv, next, d) == BytesAfter(inv, recs, d)
           + (if d == s then -(x.size as int) else if d == dest then x.size else 0)
  {
    hide Tally, Places, After, Candidates, LayoutOf, PlanFor, Relocated, BytesAfter, Considered, Shift;
    NextCandidate(inv, recs, cursor, exhausted, s);
    var x := Candidates(inv, s)[cursor[s]];
    var m := Move(x, s, dest, |recs| + 1);
    var next := recs + [m];
    var i := Accept(inv, recs, x, dest);
    ShiftDefined(inv, recs, x, dest);
    forall d | d in inv.paths ensures BytesAfter(inv, next, d) == BytesAfter(inv, recs, d)
      + (if d == s then -(x.size as int) else if d == dest then x.size else 0)
    {
      BytesMoved(inv, recs, m, i, d);
    }
    forall y | Considered(inv, recs, y) ensures Considered(inv, next, y) {
      ConsideredLater(inv, recs, m, y);
    }
    assert next[|recs|].tablet == x;
    assert Considered(inv, next, x) by { JustMoved(inv, recs, m); }
  }

  lemma JustMoved(inv: Inventory, recs: seq<Move>, m: Move)
    requires ValidInventory(inv)
    ensures Considered(inv, recs + [m], m.tablet)
  {
    assert (recs + [m])[|recs|].tablet == m.tablet;
  }

  // ---------- The planner ----------

  /** s is open and too high, no open disk has a higher load, and no earlier open disk has the same. */
  ghost predicate Picked(inv: Inventory, effective: map<Disk, int>, exhausted: set<Disk>, target: real, s: Disk)
    requires ValidInventory(inv) && s in inv.paths && forall d | d in inv.paths :: d in effective
  {
    var top := LoadOf(inv, s, effective[s]);
    && TooHigh(top, target)
    && (forall d | d in inv.paths && d !in exhausted && LoadOf(inv, d, effective[d]).Some? ::
          LoadOf(inv, d, effective[d]).value <= top.value)
    && (forall i, j | 0 <= i < j < |inv.paths| && inv.paths[j] == s && inv.paths[i] !in exhausted ::
          LoadOf(inv, inv.paths[i], effective[inv.paths[i]]) != top)
  }

  /** The first disk of highest load among those still open and too high. */
  method PickSource(inv: Inventory, effective: map<Disk, int>, exhausted: set<Disk>, target: real)
    returns (best: Option<Disk>)
    requires ValidInventory(inv) && forall d | d in inv.paths :: d in effective
    ensures best.None? ==> forall d | d in inv.paths && d !in exhausted :: !TooHigh(LoadOf(inv, d, effective[d]), target)
    ensures best.Some? ==> best.value in inv.paths && best.value !in exhausted
    ensures best.Some? ==> Picked(inv, effective, exhausted, target, best.value)
  {
    hide HasCapacity, LoadOf;
    best := None;
    var bestVal := -1.0;
    ghost var at := 0;
    for k := 0 to |inv.paths|
      invariant best.None? ==> bestVal == -1.0
      invariant best.Some? ==> at < k && inv.paths[at] == best.value && best.value !in exhausted
      invariant best.Some? ==> LoadOf(inv, best.value, effective[best.value]) == Some(bestVal)
      invariant best.Some? ==> bestVal > target && bestVal > -1.0
      invariant forall i | 0 <= i < k && inv.paths[i] !in exhausted ::
          var load := LoadOf(inv, inv.paths[i], effective[inv.paths[i]]);
          load.Some? ==> load.value <= target || load.value <= bestVal
      invariant best.Some? ==> forall i | 0 <= i < at && inv.paths[i] !in exhausted ::
          LoadOf(inv, inv.paths[i], effective[inv.paths[i]]) != Some(bestVal)
    {
      var d := inv.paths[k];
      if d in exhausted { continue; }
      var val := LoadOf(inv, d, effective[d]);
      if val.None? { continue; }
      if val.value > target && val.value > bestVal {
        bestVal := val.value;
        best := Some(d);
        at := k;
      }
    }
  }

  /** A picked source with an unmoved candidate in hand is a greedy choice. */
  lemma PickIsGreedy(inv: Inventory, recs: seq<Move>, cursor: map<Disk, nat>, exhausted: set<Disk>,
                     effective: map<Disk, int>, target: real, s: Disk, m: Move)
    requires ValidInventory(inv) && Progress(inv, recs, cursor, exhausted) && s in inv.paths
    requires forall d | d in inv.paths :: d in effective && effective[d] == BytesAfter(inv, recs, d)
    requires Picked(inv, effective, exhausted, target, s)
    requires cursor[s] < |Candidates(inv, s)| && m.source == s && m.tablet == Candidates(inv, s)[cursor[s]]
    ensures Greedy(inv, target, recs, m)
  {
    hide HasCapacity, BytesAfter, Candidates, Considered, PlanFor, LoadOf;
    forall d | d in exhausted ensures Spent(inv, recs, d) {
    }
    forall d | d in inv.paths && TooHigh(LoadAfter(inv, recs, d), target)
      && LoadAfter(inv, recs, d).value > LoadAfter(inv, recs, m.source).value
      ensures Spent(inv, recs, d)
    {
      assert d in exhausted;
    }
  }

  ghost predicate GreedyPlan(inv: Inventory, target: real, recs: seq<Move>)
    requires ValidInventory(inv)
  {
    forall k | 0 <= k < |recs| :: Greedy(inv, target, recs[..k], recs[k])
  }

  lemma GreedyExtends(inv: Inventory, target: real, recs: seq<Move>, m: Move)
    requires ValidInventory(inv) && GreedyPlan(inv, target, recs) && Greedy(inv, target, recs, m)
    ensures GreedyPlan(inv, target, recs + [m])
  {
    hide Greedy;
    var next := recs + [m];
    forall k | 0 <= k < |next| ensures Greedy(inv, target, next[..k], next[k]) {
      assert next[..k] == recs[..k];
      assert recs[..|recs|] == recs;
    }
  }

  /** Everything the two loops keep: the counters and loads are those of the list after recs. */
  ghost predicate Working(inv: Inventory, target: real, recs: seq<Move>, cursor: map<Disk, nat>, exhausted: set<Disk>,
                          sim: Counts, effective: map<Disk, int>, moved: set<string>)
    requires ValidInventory(inv)
  {
    && ValidLayout(LayoutOf(inv))
    && Progress(inv, recs, cursor, exhausted) && GreedyPlan(inv, target, recs)
    && sim == Tally(LayoutOf(inv), After(inv.tablets, recs))
    && (forall d | d in inv.paths :: d in effective && effective[d] == BytesAfter(inv, recs, d))
    && (forall id :: id in moved <==> Moved(recs, id))
  }

  lemma WorkingTake(inv: Inventory, target: real, recs: seq<Move>, cursor: map<Disk, nat>, exhausted: set<Disk>,
                    sim: Counts, effective: map<Disk, int>, moved: set<string>, s: Disk, dest: Disk)
    requires ValidInventory(inv) && Working(inv, target, recs, cursor, exhausted, sim, effective, moved)
    requires s in inv.paths && s !in exhausted && Picked(inv, effective, exhausted, target, s)
    requires s in cursor && cursor[s] < |Candidates(inv, s)| && dest != s
    requires Places(sim, Candidates(inv, s)[cursor[s]].table, s, dest)
    ensures var x := Candidates(inv, s)[cursor[s]];
      var e := effective[s := effective[s] - x.size];
      ShiftReady(sim, x.table, s, dest) && dest in e
      && Working(inv, target, recs + [Move(x, s, dest, |recs| + 1)], cursor[s := cursor[s] + 1], exhausted,
                 Shift(sim, x.table, s, dest), e[dest := e[dest] + x.size], moved + {x.id})
  {
    hide Tally, Places, After, Candidates, LayoutOf, Relocated, BytesAfter, Shift, HasCapacity,
      Progress, Greedy, GreedyPlan, LoadOf, Moved, ValidLayout, ShiftReady;
    var x := Candidates(inv, s)[cursor[s]];
    var m := Move(x, s, dest, |recs| + 1);
    TakeCandidate(inv, recs, cursor, exhausted, s, dest);
    PickIsGreedy(inv, recs, cursor, exhausted, effective, target, s, m);
    GreedyExtends(inv, target, recs, m);
    MovedOneMore(recs, m);
  }

  lemma WorkingSkip(inv: Inventory, target: real, recs: seq<Move>, cursor: map<Disk, nat>, exhausted: set<Disk>,
                    sim: Counts, effective: map<Disk, int>, moved: set<string>, s: Disk)
    requires ValidInventory(inv) && Working(inv, target, recs, cursor, exhausted, sim, effective, moved)
    requires s in inv.paths && s !in exhausted && s in cursor && cursor[s] < |Candidates(inv, s)|
    requires Places(sim, Candidates(inv, s)[cursor[s]].table, s, s)
    ensures Working(inv, target, recs, cursor[s := cursor[s] + 1], exhausted, sim, effective, moved)
  {
    hide Tally, Places, After, Candidates, LayoutOf, BytesAfter, Progress, GreedyPlan, Moved, ValidLayout;
    SkipCandidate(inv, recs, cursor, exhausted, s);
  }

  /** What the loops may use before each step. */
  lemma WorkingFacts(inv: Inventory, target: real, recs: seq<Move>, cursor: map<Disk, nat>, exhausted: set<Disk>,
                     sim: Counts, effective: map<Disk, int>, moved: set<string>)
    requires ValidInventory(inv) && Working(inv, target, recs, cursor, exhausted, sim, effective, moved)
    ensures forall d | d in inv.paths :: d in effective && d in cursor
    ensures forall s | s in inv.paths && cursor[s] < |Candidates(inv, s)| ::
      Candidates(inv, s)[cursor[s]].id !in moved && ValidRow(RowOf(sim, Candidates(inv, s)[cursor[s]].table))
  {
    hide Tally, After, Candidates, LayoutOf, BytesAfter, GreedyPlan, Moved, ValidLayout, PlanFor, ConsideredUpTo,
      RowOf, ValidRow;
    forall s | s in inv.paths && cursor[s] < |Candidates(inv, s)|
      ensures Candidates(inv, s)[cursor[s]].id !in moved && ValidRow(RowOf(sim, Candidates(inv, s)[cursor[s]].table))
    {
      NextCandidate(inv, recs, cursor, exhausted, s);
    }
  }

  /**
   An executable plan of greedy choices. If it stops short of maxRecs, every disk still too high
   has had each of its original tablets moved or seen to come straight back.
   */
  method FindBalancedMoves(inv: Inventory, counts: Counts, maxRecs: int, usageTarget: Option<real>)
    returns (recs: seq<Move>)
    requires ValidInventory(inv) && counts == Tally(LayoutOf(inv), inv.tablets)
    ensures PlanFor(inv, recs) && (recs != [] ==> |recs| <= maxRecs)
    ensures GreedyPlan(inv, TargetLoad(inv, usageTarget), recs)
    ensures |recs| < maxRecs ==> forall d | d in inv.paths ::
        TooHigh(LoadAfter(inv, recs, d), TargetLoad(inv, usageTarget)) ==> Spent(inv, recs, d)
  {
    hide Tally, Places, After, Candidates, LayoutOf, PlanFor, BytesAfter, Shift, HasCapacity, Working, Spent,
      Progress, GreedyPlan, LoadOf, TargetLoad, ValidRow, RowOf, Picked, UniqueIds, Distinct;
    var target := TargetLoad(inv, usageTarget);
    var effective: map<Disk, int> := map d | d in inv.paths :: BytesAfter(inv, [], d);
    var cands: map<Disk, seq<Tablet>> := map d | d in inv.paths :: Candidates(inv, d);
    var cursor: map<Disk, nat> := map d | d in inv.paths :: 0;
    var sim := counts;
    var moved: set<string> := {};
    var exhausted: set<Disk> := {};
    recs := [];
    Begin(inv, cursor, target, sim, effective);
    while |recs| < maxRecs
      invariant Working(inv, target, recs, cursor, exhausted, sim, effective, moved)
      invariant recs != [] ==> |recs| <= maxRecs
      decreases maxRecs - |recs|, (set d | d in inv.paths) - exhausted
    {
      WorkingFacts(inv, target, recs, cursor, exhausted, sim, effective, moved);
      var source := PickSource(inv, effective, exhausted, target);
      if source.None? {
        Finish(inv, target, recs, cursor, exhausted, sim, effective, moved);
        return;
      }
      var s := source.value;
      var found := false;
      while cursor[s] < |cands[s]|
        invariant s in inv.paths && s in cursor && s in cands && cands[s] == Candidates(inv, s)
        invariant Working(inv, target, recs, cursor, exhausted, sim, effective, moved)
        decreases |cands[s]| - cursor[s]
      {
        var tablet := cands[s][cursor[s]];
        ghost var before := cursor;
        WorkingFacts(inv, target, recs, before, exhausted, sim, effective, moved);
        cursor := cursor[s := cursor[s] + 1];
        if tablet.id in moved { continue; }
        var dest := SimulatePlacement(tablet.table, s, sim);
        if dest.None? || dest.value == s {
          WorkingSkip(inv, target, recs, before, exhausted, sim, effective, moved, s);
          continue;
        }
        WorkingTake(inv, target, recs, before, exhausted, sim, effective, moved, s, dest.value);
        recs := recs + [Move(tablet, s, dest.value, |recs| + 1)];
        moved := moved + {tablet.id};
        sim := Shift(sim, tablet.table, s, dest.value);
        effective := effective[s := effective[s] - tablet.size];
        effective := effective[dest.value := effective[dest.value] + tablet.size];
        found := true;
        break;
      }
      if !found {
        Exhaust(inv, target, recs, cursor, exhausted, sim, effective, moved, s);
        exhausted := exhausted + {s};
      }
    }
    WorkingPlan(inv, target, recs, cursor, exhausted, sim, effective, moved);
  }

  lemma Begin(inv: Inventory, cursor: map<Disk, nat>, target: real, sim: Counts, effective: map<Disk, int>)
    requires ValidInventory(inv) && cursor == (map d | d in inv.paths :: 0)
    requires sim == Tally(LayoutOf(inv), inv.tablets)
    requires effective == map d | d in inv.paths :: BytesAfter(inv, [], d)
    ensures Working(inv, target, [], cursor, {}, sim, effective, {})
  {
    hide Candidates, Considered, Greedy, PlanFor, Tally, BytesAfter;
    EmptyPlan(inv);
  }

  lemma Exhaust(inv: Inventory, target: real, recs: seq<Move>, cursor: map<Disk, nat>, exhausted: set<Disk>,
                sim: Counts, effective: map<Disk, int>, moved: set<string>, s: Disk)
    requires ValidInventory(inv) && Working(inv, target, recs, cursor, exhausted, sim, effective, moved)
    requires s in inv.paths && s in cursor && cursor[s] >= |Candidates(inv, s)|
    ensures Working(inv, target, recs, cursor, exhausted + {s}, sim, effective, moved)
  {
    hide Candidates, Considered, PlanFor, Tally, After, LayoutOf, ValidLayout, GreedyPlan, BytesAfter;
  }

  lemma WorkingPlan(inv: Inventory, target: real, recs: seq<Move>, cursor: map<Disk, nat>, exhausted: set<Disk>,
                    sim: Counts, effective: map<Disk, int>, moved: set<string>)
    requires ValidInventory(inv) && Working(inv, target, recs, cursor, exhausted, sim, effective, moved)
    ensures PlanFor(inv, recs) && GreedyPlan(inv, target, recs)
  {
    hide Candidates, Considered, PlanFor, Tally, After, LayoutOf, ValidLayout, GreedyPlan, BytesAfter;
  }

  lemma Finish(inv: Inventory, target: real, recs: seq<Move>, cursor: map<Disk, nat>, exhausted: set<Disk>,
               sim: Counts, effective: map<Disk, int>, moved: set<string>)
    requires ValidInventory(inv) && Working(inv, target, recs, cursor, exhausted, sim, effective, moved)
    requires forall d | d in inv.paths && d !in exhausted :: d in effective && !TooHigh(LoadOf(inv, d, effective[d]), target)
    ensures PlanFor(inv, recs) && GreedyPlan(inv, target, recs)
    ensures forall d | d in inv.paths :: TooHigh(LoadAfter(inv, recs, d), target) ==> Spent(inv, recs, d)
  {
    hide Candidates, Considered, PlanFor, Tally, After, LayoutOf, ValidLayout, GreedyPlan, BytesAfter, LoadOf;
    forall d | d in exhausted ensures Spent(inv, recs, d) {
    }
  }
}
