/**
 The tablet statistics accumulator: one TableInfo per table, and the registry all tables share,
 which keeps how many replicas of each tablet were seen in each region and zone.
 */
module TabletReport {
  import opened Common
  import opened Sums
  import opened KeyRanges

  /** A region and zone; Unknown stands for servers that were never registered. */
  datatype Place = Place(region: string, zone: string) | Unknown

  // ---------- Replicas per place ----------

  datatype Replica = Replica(tablet: string, place: Place)

  /** How many of the replicas are of this tablet in this place. */
  function Replicas(log: seq<Replica>, t: string, p: Place): nat {
    if log == [] then 0
    else Replicas(log[..|log| - 1], t, p) + if log[|log| - 1] == Replica(t, p) then 1 else 0
  }

  lemma OneMoreReplica(log: seq<Replica>, r: Replica, t: string, p: Place)
    ensures Replicas(log + [r], t, p) == Replicas(log, t, p) + if r == Replica(t, p) then 1 else 0
  {
    assert (log + [r])[..|log|] == log;
  }

  lemma {:induction false} NoReplicas(log: seq<Replica>, t: string, p: Place)
    ensures Replicas(log, t, p) > 0 <==> Replica(t, p) in log
  {
    if log != [] {
      NoReplicas(log[..|log| - 1], t, p);
      assert log == log[..|log| - 1] + [log[|log| - 1]];
    }
  }

  /** How many of the tablets have exactly k replicas in this place. */
  function WithReplicas(tablets: seq<string>, log: seq<Replica>, p: Place, k: nat): nat {
    if tablets == [] then 0
    else
      WithReplicas(tablets[..|tablets| - 1], log, p, k)
      + if Replicas(log, tablets[|tablets| - 1], p) == k then 1 else 0
  }

  lemma {:induction false} AllHave(tablets: seq<string>, log: seq<Replica>, p: Place, k: nat)
    ensures WithReplicas(tablets, log, p, k) <= |tablets|
    ensures WithReplicas(tablets, log, p, k) == |tablets| <==> forall t | t in tablets :: Replicas(log, t, p) == k
  {
    if tablets != [] {
      var front, last := tablets[..|tablets| - 1], tablets[|tablets| - 1];
      assert tablets == front + [last];
      AllHave(front, log, p, k);
      assert (forall t | t in tablets :: Replicas(log, t, p) == k)
        <==> (forall t | t in front :: Replicas(log, t, p) == k) && Replicas(log, last, p) == k by {
        assert forall t :: t in tablets <==> t in front || t == last;
      }
    }
  }

  /** Bytes of the tablets without any replica in this place. */
  function MissingBytes(tablets: seq<string>, bytes: map<string, int>, log: seq<Replica>, p: Place): int {
    if tablets == [] then 0
    else
      var t := tablets[|tablets| - 1];
      MissingBytes(tablets[..|tablets| - 1], bytes, log, p)
      + if Replicas(log, t, p) == 0 && t in bytes then bytes[t] else 0
  }

  /** A tablet's bytes if no replica of it was seen in this place. */
  function AbsentBytes(bytes: map<string, int>, log: seq<Replica>, p: Place): string -> int {
    (t: string) => if Replica(t, p) !in log && t in bytes then bytes[t] else 0
  }

  lemma {:induction false} MissingIsAbsent(tablets: seq<string>, bytes: map<string, int>, log: seq<Replica>, p: Place)
    ensures MissingBytes(tablets, bytes, log, p) == Sum(tablets, AbsentBytes(bytes, log, p))
  {
    if tablets != [] {
      var front, last := tablets[..|tablets| - 1], tablets[|tablets| - 1];
      MissingIsAbsent(front, bytes, log, p);
      SumAppend(front, [last], AbsentBytes(bytes, log, p));
      assert tablets == front + [last];
      NoReplicas(log, last, p);
    }
  }

  /** The line of the report for one place. */
  datatype Row = Row(place: Place, servers: nat, buckets: seq<nat>, missing: int, tablets: nat, balanced: bool)

  type Counts = map<string, map<Place, nat>>

  function At(counts: Counts, t: string, p: Place): nat {
    if t in counts && p in counts[t] then counts[t][p] else 0
  }

  function Tablets(log: seq<Replica>): set<string> { set r | r in log :: r.tablet }

  ghost predicate Tallies(counts: Counts, log: seq<Replica>) {
    counts.Keys == Tablets(log) && forall t, p :: At(counts, t, p) == Replicas(log, t, p)
  }

  ghost predicate IsMaximum(m: nat, log: seq<Replica>) {
    && (forall t, p :: Replicas(log, t, p) <= m)
    && (m > 0 ==> exists t, p :: Replicas(log, t, p) == m)
  }

  function Counted(counts: Counts, r: Replica): (c: Counts)
    ensures c.Keys == counts.Keys + {r.tablet}
  {
    var before := if r.tablet in counts then counts[r.tablet] else map[];
    counts[r.tablet := before[r.place := At(counts, r.tablet, r.place) + 1]]
  }

  lemma TabletsStep(log: seq<Replica>, r: Replica)
    ensures Tablets(log + [r]) == Tablets(log) + {r.tablet}
  {
    assert forall x :: x in log + [r] <==> x in log || x == r;
    assert r in log + [r];
  }

  lemma TallyStep(counts: Counts, log: seq<Replica>, r: Replica)
    requires Tallies(counts, log)
    ensures Tallies(Counted(counts, r), log + [r])
  {
    hide Replicas, Tablets;
    TabletsStep(log, r);
    forall t, p ensures At(Counted(counts, r), t, p) == Replicas(log + [r], t, p) {
      OneMoreReplica(log, r, t, p);
      assert At(counts, t, p) == Replicas(log, t, p);
    }
  }

  lemma MaximumStep(m: nat, log: seq<Replica>, r: Replica)
    requires IsMaximum(m, log)
    ensures var n := Replicas(log, r.tablet, r.place) + 1;
      IsMaximum(if n > m then n else m, log + [r])
  {
    hide Replicas;
    var n := Replicas(log, r.tablet, r.place) + 1;
    forall t, p ensures Replicas(log + [r], t, p) == Replicas(log, t, p) + if r == Replica(t, p) then 1 else 0 {
      OneMoreReplica(log, r, t, p);
    }
    if n <= m {
      var t, p :| Replicas(log, t, p) == m;
      assert Replicas(log + [r], t, p) == m || Replicas(log + [r], t, p) == m + 1;
      assert Replicas(log + [r], t, p) <= m;
    } else {
      assert Replicas(log + [r], r.tablet, r.place) == n;
    }
  }

  lemma KnownStep(known: seq<string>, t: string)
    requires Distinct(known)
    ensures t !in SetOf(known) ==> Distinct(known + [t]) && SetOf(known + [t]) == SetOf(known) + {t}
    ensures t in SetOf(known) <==> t in known
  {
    assert forall x :: x in known + [t] <==> x in known || x == t;
  }

  lemma AgreeAt(counts: Counts, log: seq<Replica>, t: string, p: Place)
    requires Tallies(counts, log)
    ensures At(counts, t, p) == Replicas(log, t, p)
  {}

  /** What is shared by all tables. */
  class Registry {
    var servers: map<Place, seq<string>>
    var placeOf: map<string, Place>
    var known: seq<string>
    var counts: Counts
    var bytes: map<string, int>
    var bucketMax: nat
    ghost var log: seq<Replica>

    ghost predicate Valid() reads this {
      && Distinct(known) && SetOf(known) == counts.Keys == bytes.Keys
      && Tallies(counts, log) && IsMaximum(bucketMax, log)
    }

    constructor ()
      ensures Valid() && log == [] && servers == map[] && placeOf == map[]
    {
      servers, placeOf, known, counts, bytes, bucketMax, log := map[], map[], [], map[], map[], 0, [];
    }

    method Register(place: Place, uuid: string)
      requires Valid()
      modifies this`servers, this`placeOf
      ensures Valid() && placeOf == old(placeOf)[uuid := place]
      ensures place in servers && servers == old(servers)[place := servers[place]]
      ensures servers[place] == (if place in old(servers) then old(servers)[place] else []) + [uuid]
    {
      servers := servers[place := (if place in servers then servers[place] else []) + [uuid]];
      placeOf := placeOf[uuid := place];
    }

    /** One live replica of a tablet on a server. */
    method Record(t: string, node: string, size: int)
      requires Valid()
      modifies this`known, this`counts, this`bytes, this`bucketMax, this`log
      ensures Valid() && bytes == old(bytes)[t := size]
      ensures log == old(log) + [Replica(t, if node in placeOf then placeOf[node] else Unknown)]
      ensures known == if t in old(known) then old(known) else old(known) + [t]
    {
      hide Tallies, IsMaximum, Distinct, At, Tablets, SetOf, Counted;
      var place := if node in placeOf then placeOf[node] else Unknown;
      TallyStep(counts, log, Replica(t, place));
      MaximumStep(bucketMax, log, Replica(t, place));
      KnownStep(known, t);
      AgreeAt(counts, log, t, place);
      var replicas := At(counts, t, place) + 1;
      if t !in counts {
        known := known + [t];
      }
      counts := Counted(counts, Replica(t, place));
      bytes := bytes[t := size];
      if replicas > bucketMax {
        bucketMax := replicas;
      }
      log := log + [Replica(t, place)];
    }

    /** The report line of one registered place; looking it up leaves the replica counts what they were. */
    method ReportRow(place: Place) returns (row: Row)
      requires Valid() && place in servers
      modifies this`counts
      ensures Valid() && forall t | t in known :: t in counts && place in counts[t]
      ensures Describes(row, place, |servers[place]|, known, bytes, log, bucketMax)
    {
      hide At, Replicas, Tablets, Distinct, SetOf, WithReplicas, MissingBytes, AllAlike, IsMaximum;
      SetDefaults(place);
      var buckets, missing, tablets := FillBuckets(place);
      var balanced := false;
      for i := 1 to bucketMax + 1
        invariant balanced <==> exists j | 1 <= j < i :: buckets[j] == tablets
      {
        if buckets[i] == tablets {
          balanced := true;
        }
      }
      row := Row(place, |servers[place]|, buckets[..], missing, tablets, balanced);
      BucketsAreWhole(buckets[..], known, log, place, bucketMax);
      BalancedMeans(buckets[..], known, log, place, bucketMax);
      MissingIsAbsent(known, bytes, log, place);
      assert balanced <==> exists j | 1 <= j < |buckets[..]| :: buckets[..][j] == tablets;
    }

    /** Gives every known tablet an entry for this place. */
    method SetDefaults(place: Place)
      requires Valid()
      modifies this`counts
      ensures Valid() && forall t | t in known :: t in counts && place in counts[t]
    {
      hide Tallies, IsMaximum, Distinct, WithDefault;
      for i := 0 to |known|
        invariant Valid() && forall j | 0 <= j < i :: known[j] in counts && place in counts[known[j]]
      {
        assert known[i] in SetOf(known);
        DefaultsAgree(counts, log, known[i], place);
        counts := WithDefault(counts, known[i], place);
      }
    }

    method FillBuckets(place: Place) returns (buckets: array<nat>, missing: int, tablets: nat)
      requires Valid()
      ensures fresh(buckets) && buckets.Length == bucketMax + 1
      ensures forall i | 0 <= i <= bucketMax :: buckets[i] == WithReplicas(known, log, place, i)
      ensures missing == MissingBytes(known, bytes, log, place) && tablets == |known|
    {
      hide Replicas, Distinct, SetOf, At, Tablets;
      buckets, missing := new nat[bucketMax + 1](_ => 0), 0;
      tablets := 0;
      while tablets < |known|
        invariant tablets <= |known|
        invariant forall i | 0 <= i <= bucketMax :: buckets[i] == WithReplicas(known[..tablets], log, place, i)
        invariant missing == MissingBytes(known[..tablets], bytes, log, place)
      {
        var t := known[tablets];
        var replicas := At(counts, t, place);
        assert replicas == Replicas(log, t, place);
        assert known[..tablets + 1][..tablets] == known[..tablets];
        if replicas == 0 {
          missing := missing + if t in bytes then bytes[t] else 0;
        }
        if replicas <= bucketMax {
          buckets[replicas] := buckets[replicas] + 1;
        }
        tablets := tablets + 1;
      }
      assert known[..|known|] == known;
    }
  }

  function WithDefault(counts: Counts, t: string, p: Place): Counts
    requires t in counts
  {
    if p in counts[t] then counts else counts[t := counts[t][p := 0]]
  }

  lemma DefaultsAgree(counts: Counts, log: seq<Replica>, t: string, p: Place)
    requires t in counts && Tallies(counts, log)
    ensures Tallies(WithDefault(counts, t, p), log) && WithDefault(counts, t, p).Keys == counts.Keys
    ensures p in WithDefault(counts, t, p)[t]
    ensures forall u | u in counts :: counts[u].Keys <= WithDefault(counts, t, p)[u].Keys
  {
    hide Replicas, Tablets;
    forall u, q ensures At(WithDefault(counts, t, p), u, q) == Replicas(log, u, q) {
      assert At(counts, u, q) == Replicas(log, u, q);
    }
  }

  /** What a report line says about a place. */
  ghost predicate Describes(row: Row, place: Place, servers: nat, known: seq<string>, bytes: map<string, int>,
      log: seq<Replica>, bucketMax: nat) {
    && row.place == place && row.servers == servers && row.tablets == |known|
    && |row.buckets| == bucketMax + 1
    && (forall i | 0 <= i <= bucketMax :: row.buckets[i] == WithReplicas(known, log, place, i))
    && Sum(row.buckets, (x: int) => x) == |known|
    && row.missing == Sum(known, AbsentBytes(bytes, log, place))
    && (row.balanced <==> AllAlike(known, log, place))
  }

  /** There is a tablet, and all tablets have one positive number of replicas. */
  ghost predicate AllAlike(tablets: seq<string>, log: seq<Replica>, p: Place) {
    tablets != [] && Replicas(log, tablets[0], p) > 0
    && forall t | t in tablets :: Replicas(log, t, p) == Replicas(log, tablets[0], p)
  }

  /** Each tablet is in exactly one bucket: the maximum lets none through. */
  lemma {:induction false} BucketsAreWhole(buckets: seq<nat>, tablets: seq<string>, log: seq<Replica>, p: Place, m: nat)
    requires |buckets| == m + 1 && IsMaximum(m, log)
    requires forall i | 0 <= i <= m :: buckets[i] == WithReplicas(tablets, log, p, i)
    ensures Sum(buckets, (x: int) => x) == |tablets|
    decreases |tablets|
  {
    if tablets == [] {
      AllZero(buckets);
    } else {
      var front, last := tablets[..|tablets| - 1], tablets[|tablets| - 1];
      var at := Replicas(log, last, p);
      assert at <= m && buckets[at] > 0;
      BucketsAreWhole(buckets[at := buckets[at] - 1], front, log, p, m);
      SumUpdate(buckets, at, buckets[at] - 1, (x: int) => x);
    }
  }

  lemma BalancedMeans(buckets: seq<nat>, tablets: seq<string>, log: seq<Replica>, p: Place, m: nat)
    requires |buckets| == m + 1 && IsMaximum(m, log) && SetOf(tablets) == Tablets(log)
    requires forall i | 0 <= i <= m :: buckets[i] == WithReplicas(tablets, log, p, i)
    ensures (exists j | 1 <= j < |buckets| :: buckets[j] == |tablets|) <==> AllAlike(tablets, log, p)
  {
    hide Replicas;
    if AllAlike(tablets, log, p) {
      var j := Replicas(log, tablets[0], p);
      AllHave(tablets, log, p, j);
      assert buckets[j] == |tablets|;
    }
    if j :| 1 <= j < |buckets| && buckets[j] == |tablets| {
      AllHave(tablets, log, p, j);
      SomethingSeen(m, log, tablets);
      assert tablets[0] in tablets;
    }
  }

  lemma SomethingSeen(m: nat, log: seq<Replica>, tablets: seq<string>)
    requires m > 0 && IsMaximum(m, log) && SetOf(tablets) == Tablets(log)
    ensures tablets != []
  {
    var t, p :| Replicas(log, t, p) == m;
    NoReplicas(log, t, p);
    assert t in Tablets(log);
  }

  // ---------- One table ----------

  function Sizes(seen: seq<Sighting>): (int, int) {
    if seen == [] then (0, 0)
    else
      var (before, t) := (Sizes(seen[..|seen| - 1]), seen[|seen| - 1].tablet);
      (before.0 + t.sst, before.1 + t.wal)
  }

  lemma SizesStep(seen: seq<Sighting>, s: Sighting)
    ensures Sizes(seen + [s]) == (Sizes(seen).0 + s.tablet.sst, Sizes(seen).1 + s.tablet.wal)
  {
    assert (seen + [s])[..|seen|] == seen;
  }

  function Value(list: seq<nat>, i: nat): nat { if i < |list| then list[i] else 0 }

  ghost predicate RangesOf(list: seq<nat>, seen: seq<Sighting>, w: nat) {
    (w == 0 ==> list == []) && forall i: nat :: Value(list, i) == Count(seen, InRange(w, i))
  }

  lemma RangesStep(list: seq<nat>, seen: seq<Sighting>, w: nat, s: Sighting, longer: seq<nat>)
    requires w > 0 && RangesOf(list, seen, w) && s.tablet.start / w < |longer|
    requires forall i: nat :: Value(longer, i) == Value(list, i)
    ensures RangesOf(longer[s.tablet.start / w := longer[s.tablet.start / w] + 1], seen + [s], w)
  {
    hide Count;
    var at := s.tablet.start / w;
    var after := longer[at := longer[at] + 1];
    forall i: nat ensures Value(after, i) == Count(seen + [s], InRange(w, i)) {
      OneMore(seen, s, InRange(w, i));
      assert Value(longer, i) == Value(list, i) == Count(seen, InRange(w, i));
    }
  }

  lemma NoRanges(list: seq<nat>, seen: seq<Sighting>, more: seq<Sighting>)
    requires RangesOf(list, seen, 0)
    ensures RangesOf(list, more, 0)
  {
    forall i: nat ensures Count(more, InRange(0, i)) == 0 {
      CountZeroIff(more, InRange(0, i));
    }
  }

  lemma NothingRanged(list: seq<nat>, w: nat)
    requires RangesOf(list, [], 0)
    ensures RangesOf(list, [], w)
  {
    forall i: nat ensures Value(list, i) == Count([], InRange(w, i)) {}
  }

  ghost predicate OnNodes(perNode: map<string, nat>, seen: seq<Sighting>) {
    forall n: string :: (if n in perNode then perNode[n] else 0) == Count(seen, OnNode(n))
  }

  lemma NodesStep(perNode: map<string, nat>, seen: seq<Sighting>, s: Sighting)
    requires OnNodes(perNode, seen)
    ensures OnNodes(perNode[s.node := (if s.node in perNode then perNode[s.node] else 0) + 1], seen + [s])
  {
    hide Count;
    forall n: string ensures Count(seen + [s], OnNode(n)) == Count(seen, OnNode(n)) + if n == s.node then 1 else 0 {
      OneMore(seen, s, OnNode(n));
    }
  }

  class TableInfo {
    var totTabletCount: nat
    var uniqTabletsEstimate: int
    var leaderTablets: nat
    var nodeTabletCount: map<string, nat>
    var keysPerTablet: nat
    var keyRangeOverlap: nat
    var unmatchedKeySize: nat
    var sstTotBytes: int
    var walTotBytes: int
    var keyRangeList: seq<nat>
    ghost var seen: seq<Sighting>

    /** Every field is the statistic of that name over the tablets seen so far. */
    ghost predicate Valid() reads this {
      && totTabletCount == |seen| && keysPerTablet == InferredWidth(seen) && uniqTabletsEstimate == InferredCount(seen)
      && leaderTablets == Count(seen, Leads)
      && Tallied(seen) && OnNodes(nodeTabletCount, seen) && (sstTotBytes, walTotBytes) == Sizes(seen)
    }

    ghost predicate Tallied(tablets: seq<Sighting>)
      reads this`keyRangeOverlap, this`unmatchedKeySize, this`keyRangeList, this`keysPerTablet
    {
      && keyRangeOverlap == Count(tablets, Overlaps(keysPerTablet))
      && unmatchedKeySize == Count(tablets, Mismatches(keysPerTablet))
      && RangesOf(keyRangeList, tablets, keysPerTablet)
    }

    constructor ()
      ensures Valid() && seen == []
    {
      totTabletCount, uniqTabletsEstimate, leaderTablets, nodeTabletCount := 0, 0, 0, map[];
      keysPerTablet, keyRangeOverlap, unmatchedKeySize := 0, 0, 0;
      sstTotBytes, walTotBytes, keyRangeList, seen := 0, 0, [], [];
    }

    /** Takes in one tablet of this table as reported by a server; its replica is registered unless tombstoned. */
    method Collect(tablet: Tablet, node: string, registry: Registry)
      requires Valid() && registry.Valid()
      modifies this, registry`known, registry`counts, registry`bytes, registry`bucketMax, registry`log
      ensures Valid() && registry.Valid() && seen == old(seen) + [Sighting(tablet, node)]
      ensures registry.bytes
        == if tablet.tombstoned then old(registry.bytes) else old(registry.bytes)[tablet.uuid := tablet.sst + tablet.wal]
      ensures var place := if node in registry.placeOf then registry.placeOf[node] else Unknown;
        registry.log == old(registry.log) + if tablet.tombstoned then [] else [Replica(tablet.uuid, place)]
    {
      hide OnNodes, RangesOf, Count, Sizes, Tallied, InferredWidth, InferredCount, Distinct, SetOf, Tallies, IsMaximum;
      CollectKeys(tablet, node);
      if tablet.tombstoned {
        return;
      }
      registry.Record(tablet.uuid, node, tablet.sst + tablet.wal);
    }

    /** The statistics of the table alone. */
    method CollectKeys(tablet: Tablet, node: string)
      requires Valid()
      modifies this
      ensures Valid() && seen == old(seen) + [Sighting(tablet, node)]
    {
      hide OnNodes, Tallied, Count, InferredCount, InferredWidth, Sizes;
      ghost var s := Sighting(tablet, node);
      totTabletCount := totTabletCount + 1;
      NodesStep(nodeTabletCount, seen, s);
      nodeTabletCount := nodeTabletCount[node := (if node in nodeTabletCount then nodeTabletCount[node] else 0) + 1];
      SizesStep(seen, s);
      sstTotBytes, walTotBytes := sstTotBytes + tablet.sst, walTotBytes + tablet.wal;
      InferWidth(tablet, s);
      OneMore(seen, s, Leads);
      if tablet.leads {
        leaderTablets := leaderTablets + 1;
      }
      TallyKeys(tablet, s);
      seen := seen + [s];
    }

    /** Settles width and estimate when the first tablet comes; what has been counted so far is unaffected. */
    method InferWidth(tablet: Tablet, ghost s: Sighting)
      requires s.tablet == tablet && keysPerTablet == InferredWidth(seen) && uniqTabletsEstimate == InferredCount(seen)
      requires Tallied(seen)
      modifies this`keysPerTablet, this`uniqTabletsEstimate
      ensures keysPerTablet == InferredWidth(seen + [s]) && uniqTabletsEstimate == InferredCount(seen + [s])
      ensures Tallied(seen)
    {
      hide RangesOf, Count, InferredCount, InferredWidth;
      EstimateIsMadeOnce(seen, s);
      if uniqTabletsEstimate == 0 {
        FirstWidth(s);
        assert seen + [s] == [s];
        NothingRanged(keyRangeList, End(tablet) - tablet.start);
        keysPerTablet := End(tablet) - tablet.start;
        uniqTabletsEstimate := if keysPerTablet > 0 then MAX_KEY / keysPerTablet else -1;
      }
    }

    method TallyKeys(tablet: Tablet, ghost s: Sighting)
      requires s.tablet == tablet && Tallied(seen)
      modifies this`keyRangeOverlap, this`unmatchedKeySize, this`keyRangeList
      ensures Tallied(seen + [s])
    {
      hide RangesOf, Count;
      var end := End(tablet);
      OneMore(seen, s, Mismatches(keysPerTablet));
      if end != MAX_KEY && end - tablet.start != keysPerTablet {
        unmatchedKeySize := unmatchedKeySize + 1;
      }
      OneMore(seen, s, Overlaps(keysPerTablet));
      if keysPerTablet == 0 {
        keyRangeOverlap := keyRangeOverlap + 1;
        NoRanges(keyRangeList, seen, seen + [s]);
      } else {
        if tablet.start % keysPerTablet != 0 {
          keyRangeOverlap := keyRangeOverlap + 1;
        }
        AddToRange(tablet.start / keysPerTablet, s);
      }
    }

    method AddToRange(idx: nat, ghost s: Sighting)
      requires keysPerTablet > 0 && idx == s.tablet.start / keysPerTablet && RangesOf(keyRangeList, seen, keysPerTablet)
      modifies this`keyRangeList
      ensures RangesOf(keyRangeList, seen + [s], keysPerTablet)
    {
      hide RangesOf;
      ghost var shorter := keyRangeList;
      while |keyRangeList| <= idx
        invariant forall i: nat :: Value(keyRangeList, i) == Value(shorter, i)
        decreases idx - |keyRangeList|
      {
        keyRangeList := keyRangeList + [0];
      }
      RangesStep(shorter, seen, keysPerTablet, s, keyRangeList);
      keyRangeList := keyRangeList[idx := keyRangeList[idx] + 1];
    }

    /** How many inferred ranges no tablet starts in, and the first of them. */
    method CountHoles() returns (notFound: nat, first: nat)
      requires Valid()
      ensures notFound == |Holes(seen)|
      ensures notFound > 0 ==> first in Holes(seen) && forall i | i in Holes(seen) :: first <= i
    {
      hide OnNodes, Count;
      notFound, first := 0, 0;
      ghost var found: set<nat> := {};
      var i := 0;
      while i < uniqTabletsEstimate
        invariant 0 <= i && (uniqTabletsEstimate >= 0 ==> i <= uniqTabletsEstimate)
        invariant found == (set j: nat | j in Holes(seen) && j < i) && notFound == |found|
        invariant notFound > 0 ==> first in found && forall j | j in found :: first <= j
      {
        assert Value(keyRangeList, i) == Count(seen, InRange(keysPerTablet, i));
        if i < |keyRangeList| && keyRangeList[i] != 0 {
        } else {
          notFound := notFound + 1;
          if notFound == 1 {
            first := i;
          }
          found := found + {i};
        }
        i := i + 1;
      }
      assert found == Holes(seen);
    }
  }

  lemma FirstWidth(s: Sighting)
    ensures InferredWidth([]) == 0 && InferredWidth([s]) == End(s.tablet) - s.tablet.start
    ensures InferredCount([s]) == if InferredWidth([s]) > 0 then MAX_KEY / InferredWidth([s]) else -1
  {}

  /** The width is inferred from the first tablet and never again; before it nothing was counted. */
  lemma EstimateIsMadeOnce(seen: seq<Sighting>, s: Sighting)
    ensures InferredCount(seen) == 0 <==> seen == []
    ensures seen != [] ==> InferredWidth(seen + [s]) == InferredWidth(seen) && InferredCount(seen + [s]) == InferredCount(seen)
    ensures seen == [] ==> forall q :: Count(seen, q) == 0
  {
    if InferredWidth(seen) > 0 {
      QuotientIff(MAX_KEY, InferredWidth(seen), MAX_KEY / InferredWidth(seen));
    }
  }

  /** With a width, the list of key ranges adds up to the number of tablets. */
  lemma KeyRangesConserve(list: seq<nat>, seen: seq<Sighting>)
    requires InferredWidth(seen) > 0 && RangesOf(list, seen, InferredWidth(seen))
    ensures Sum(list, (x: int) => x) == |seen|
  {
    hide Count;
    var w := InferredWidth(seen);
    forall s | s in seen ensures s.tablet.start / w < |list| {
      var i := s.tablet.start / w;
      CountZeroIff(seen, InRange(w, i));
      assert Holds(InRange(w, i), s);
      assert Value(list, i) == Count(seen, InRange(w, i));
    }
    forall i | 0 <= i < |list| ensures list[i] == Count(seen, InRange(w, i)) {
      assert Value(list, i) == Count(seen, InRange(w, i));
    }
    RangesConserve(seen, w, list);
  }
}
