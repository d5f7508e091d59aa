/**
 Inferring how a table was split from the reports of its tablets: the 16-bit hash space is cut into
 n partitions of width 65535 div n, and the width of the first tablet seen is taken for all of them.
 */
module KeyRanges {
  import opened Common
  import opened Sums

  const MAX_KEY: nat := 0xFFFF

  type Key = k: int | 0 <= k <= MAX_KEY

  /** One tablet as a server reports it. */
  datatype Tablet = Tablet(uuid: string, start: Key, end: Key, leads: bool, tombstoned: bool, sst: int, wal: int)

  datatype Sighting = Sighting(tablet: Tablet, node: string)

  /** An end before the start counts as the start. */
  function End(t: Tablet): Key { if t.end < t.start then t.start else t.end }

  function Width(t: Tablet): nat { End(t) - t.start }

  // ---------- Counting sightings ----------

  datatype Question =
    | Overlaps(width: nat)
    | Mismatches(width: nat)
    | InRange(w: nat, index: nat)
    | Leads
    | OnNode(node: string)

  predicate Holds(q: Question, s: Sighting) {
    match q
    case Overlaps(w) => w == 0 || s.tablet.start % w != 0
    case Mismatches(w) => End(s.tablet) != MAX_KEY && Width(s.tablet) != w
    case InRange(w, i) => w > 0 && s.tablet.start / w == i
    case Leads => s.tablet.leads
    case OnNode(n) => s.node == n
  }

  function Count(seen: seq<Sighting>, q: Question): nat {
    if seen == [] then 0
    else Count(seen[..|seen| - 1], q) + if Holds(q, seen[|seen| - 1]) then 1 else 0
  }

  lemma OneMore(seen: seq<Sighting>, s: Sighting, q: Question)
    ensures Count(seen + [s], q) == Count(seen, q) + if Holds(q, s) then 1 else 0
  {
    assert (seen + [s])[..|seen|] == seen;
  }

  lemma {:induction false} CountZeroIff(seen: seq<Sighting>, q: Question)
    ensures Count(seen, q) == 0 <==> forall s | s in seen :: !Holds(q, s)
  {
    if seen != [] {
      CountZeroIff(seen[..|seen| - 1], q);
      assert seen == seen[..|seen| - 1] + [seen[|seen| - 1]];
    }
  }

  /** Every sighting falls into exactly one range of the list. */
  lemma {:induction false} RangesConserve(seen: seq<Sighting>, w: nat, list: seq<nat>)
    requires w > 0 && forall s | s in seen :: s.tablet.start / w < |list|
    requires forall i | 0 <= i < |list| :: list[i] == Count(seen, InRange(w, i))
    ensures Sum(list, (x: int) => x) == |seen|
  {
    if seen == [] {
      AllZero(list);
    } else {
      var front, last := seen[..|seen| - 1], seen[|seen| - 1];
      assert seen == front + [last];
      var at := last.tablet.start / w;
      assert Holds(InRange(w, at), last);
      var before := list[at := list[at] - 1];
      forall i | 0 <= i < |list| ensures before[i] == Count(front, InRange(w, i)) {
        assert Holds(InRange(w, i), last) <==> i == at;
      }
      RangesConserve(front, w, before);
      SumUpdate(list, at, list[at] - 1, (x: int) => x);
    }
  }

  lemma {:induction false} AllZero(list: seq<nat>)
    requires forall i | 0 <= i < |list| :: list[i] == 0
    ensures Sum(list, (x: int) => x) == 0
  {
    if list != [] {
      AllZero(list[1..]);
    }
  }

  // ---------- What is inferred ----------

  function InferredWidth(seen: seq<Sighting>): nat { if seen == [] then 0 else Width(seen[0].tablet) }

  /** The number of partitions; 0 before any tablet, -1 when the first one has no width. */
  function InferredCount(seen: seq<Sighting>): int {
    if seen == [] then 0
    else if InferredWidth(seen) > 0 then MAX_KEY / InferredWidth(seen)
    else -1
  }

  /** The ranges of the inferred partitioning in which no tablet starts. */
  ghost function Holes(seen: seq<Sighting>): set<nat> {
    set i: nat | i < InferredCount(seen) && Count(seen, InRange(InferredWidth(seen), i)) == 0
  }

  // ---------- How tables are split ----------

  /** t is partition i of n. */
  predicate IsPartition(n: nat, i: nat, t: Tablet)
    requires n > 0
  {
    i < n && t.start == i * (MAX_KEY / n) && t.end == if i == n - 1 then MAX_KEY else (i + 1) * (MAX_KEY / n)
  }

  /** The partitions exist, follow one another, and fill the key space. */
  lemma PartitionsTile(n: nat, i: nat)
    requires i < n <= MAX_KEY
    ensures exists t :: IsPartition(n, i, t)
    ensures forall t | IsPartition(n, i, t) :: (i == 0 ==> t.start == 0) && (i == n - 1 ==> t.end == 0xFFFF)
    ensures forall t, u | IsPartition(n, i, t) && IsPartition(n, i + 1, u) :: t.start < t.end == u.start
  {
    var w := MAX_KEY / n;
    DivideTwice(MAX_KEY, n);
    TimesMonotone(i, n, w);
    TimesMonotone(i + 1, n, w);
    assert (i + 1) * w == i * w + w;
    assert IsPartition(n, i, Tablet("", i * w, if i == n - 1 then MAX_KEY else (i + 1) * w, false, false, 0, 0));
  }

  ghost predicate SplitInto(n: nat, seen: seq<Sighting>)
    requires n > 0
  {
    forall s | s in seen :: exists i: nat :: IsPartition(n, i, s.tablet)
  }

  ghost predicate Seen(n: nat, seen: seq<Sighting>, i: nat)
    requires n > 0
  {
    exists s :: s in seen && IsPartition(n, i, s.tablet)
  }

  ghost function Unseen(n: nat, seen: seq<Sighting>): set<nat>
    requires n > 0
  {
    set i: nat | i < n && !Seen(n, seen, i)
  }

  // ---------- Arithmetic ----------

  lemma MultipleOf(i: nat, w: nat)
    requires w > 0
    ensures i * w / w == i && i * w % w == 0
  {
    QuotientIff(i * w, w, i);
  }

  /** A quotient taken twice gives back the divisor exactly when the remainder is below the quotient. */
  lemma DivideTwice(m: nat, n: nat)
    requires 0 < n <= m
    ensures m / n > 0 && n * (m / n) <= m && m / (m / n) >= n
    ensures m / (m / n) == n <==> m % n < m / n
  {
    var w := m / n;
    QuotientIff(m, n, w);
    if w == 0 {
      assert false;
    }
    QuotientIff(m, w, n);
    assert m == n * w + m % n;
    var e := m / w;
    QuotientIff(m, w, e);
    if e < n {
      TimesMonotone(e + 1, n, w);
    }
  }

  /** The rest left to the last partition gives back n exactly when there is no remainder. */
  lemma LastPartition(m: nat, n: nat)
    requires 0 < n <= m
    ensures m - (n - 1) * (m / n) == m / n + m % n > 0
    ensures m / (m / n + m % n) == n <==> m % n == 0
  {
    DivideTwice(m, n);
    Decompose(m, n);
    LastIsRight(n, m / n, m % n);
  }

  lemma Decompose(m: nat, n: nat)
    requires n > 0
    ensures m == n * (m / n) + m % n && (n - 1) * (m / n) == n * (m / n) - m / n
  {}

  lemma LastIsRight(n: nat, q: nat, r: nat)
    requires r < n && q > 0
    ensures (n * q + r) / (q + r) == n <==> r == 0
  {
    QuotientIff(n * q + r, q + r, n);
    Expand(n, q, r);
    if r > 0 {
      TimesMonotone(2, n, r);
    }
  }

  lemma Expand(n: nat, q: nat, r: nat)
    ensures n * (q + r) == n * q + n * r && (n + 1) * (q + r) == n * q + n * r + q + r
    ensures r == 0 ==> n * r == 0
  {}

  // ---------- Main results ----------

  lemma WidthOfPartition(n: nat, i: nat, t: Tablet)
    requires 0 < n <= MAX_KEY && IsPartition(n, i, t)
    ensures End(t) == t.end
    ensures Width(t) == if i == n - 1 then MAX_KEY - (n - 1) * (MAX_KEY / n) else MAX_KEY / n
    ensures MAX_KEY / n > 0
  {
    DivideTwice(MAX_KEY, n);
    TimesMonotone(i, n - 1, MAX_KEY / n);
  }

  /** The inferred width is that of the split exactly when the first tablet is not the last partition, or all are alike. */
  lemma WidthIsRightIff(n: nat, seen: seq<Sighting>, i: nat)
    requires 0 < n <= MAX_KEY && seen != [] && IsPartition(n, i, seen[0].tablet)
    ensures InferredWidth(seen) == MAX_KEY / n <==> i < n - 1 || MAX_KEY % n == 0
  {
    WidthOfPartition(n, i, seen[0].tablet);
    assert MAX_KEY == n * (MAX_KEY / n) + MAX_KEY % n;
    assert (n - 1) * (MAX_KEY / n) == n * (MAX_KEY / n) - MAX_KEY / n;
  }

  /** The exact condition under which the number of partitions is inferred correctly. */
  lemma CountIsRightIff(n: nat, seen: seq<Sighting>, i: nat)
    requires 0 < n <= MAX_KEY && seen != [] && IsPartition(n, i, seen[0].tablet)
    ensures InferredCount(seen) == n <==> if i < n - 1 then MAX_KEY % n < MAX_KEY / n else MAX_KEY % n == 0
  {
    var w := MAX_KEY / n;
    WidthOfPartition(n, i, seen[0].tablet);
    DivideTwice(MAX_KEY, n);
    LastPartition(MAX_KEY, n);
  }

  /** Up to 255 partitions the condition always holds ... */
  lemma UpTo255(n: nat)
    requires 0 < n <= 255
    ensures MAX_KEY % n < MAX_KEY / n
  {
    QuotientIff(MAX_KEY, n, MAX_KEY / n);
    if MAX_KEY / n < 257 {
      TimesMonotone(MAX_KEY / n + 1, 257, n);
    }
  }

  /** ... and 256 is already one too many: whichever tablet but the last comes first, 257 is inferred. */
  lemma At256(seen: seq<Sighting>, i: nat)
    requires seen != [] && i < 255 && IsPartition(256, i, seen[0].tablet)
    ensures InferredCount(seen) == 257
  {
    WidthOfPartition(256, i, seen[0].tablet);
  }

  lemma StartTellsPartition(n: nat, t: Tablet, i: nat)
    requires 0 < n <= MAX_KEY && exists j: nat :: IsPartition(n, j, t)
    ensures MAX_KEY / n > 0 && (t.start / (MAX_KEY / n) == i <==> IsPartition(n, i, t))
  {
    DivideTwice(MAX_KEY, n);
    var j: nat :| IsPartition(n, j, t);
    MultipleOf(j, MAX_KEY / n);
    MultipleOf(i, MAX_KEY / n);
  }

  lemma InRangeIsPartition(n: nat, seen: seq<Sighting>, i: nat)
    requires 0 < n <= MAX_KEY && SplitInto(n, seen)
    ensures Count(seen, InRange(MAX_KEY / n, i)) == 0 <==> !Seen(n, seen, i)
  {
    hide IsPartition, Count;
    CountZeroIff(seen, InRange(MAX_KEY / n, i));
    forall s | s in seen ensures Holds(InRange(MAX_KEY / n, i), s) <==> IsPartition(n, i, s.tablet) {
      StartTellsPartition(n, s.tablet, i);
    }
  }

  function Interval(lo: nat, hi: nat): (r: set<nat>)
    requires lo <= hi
    ensures forall i :: i in r <==> lo <= i < hi
    ensures |r| == hi - lo
    decreases hi
  {
    if lo == hi then {} else Interval(lo, hi - 1) + {hi - 1}
  }

  /**
   With the width right there is nothing to complain about, and the holes are the partitions no
   tablet of which was seen, next to those inferred in excess.
   */
  lemma HolesAreUnseenPartitions(n: nat, seen: seq<Sighting>)
    requires 0 < n <= MAX_KEY && seen != [] && SplitInto(n, seen) && InferredWidth(seen) == MAX_KEY / n
    ensures Count(seen, Overlaps(MAX_KEY / n)) == 0 && Count(seen, Mismatches(MAX_KEY / n)) == 0
    ensures n <= InferredCount(seen) && Holes(seen) == Unseen(n, seen) + Interval(n, InferredCount(seen))
    ensures |Holes(seen)| == |Unseen(n, seen)| + InferredCount(seen) - n
  {
    hide Count, Seen, SplitInto, Holes, Unseen, InferredCount, InferredWidth;
    NothingOdd(n, seen);
    HoleIff(n, seen, 0);
    forall i: nat
      ensures i in Holes(seen) <==> i in Unseen(n, seen) + Interval(n, InferredCount(seen))
      ensures i in Unseen(n, seen) ==> i < n
    {
      HoleIff(n, seen, i);
    }
    SumOfSizes(Unseen(n, seen), Interval(n, InferredCount(seen)), n);
  }

  lemma SumOfSizes(low: set<nat>, high: set<nat>, n: nat)
    requires (forall i | i in low :: i < n) && forall i | i in high :: n <= i
    ensures |low + high| == |low| + |high|
  {
    assert low !! high;
  }

  lemma HoleIff(n: nat, seen: seq<Sighting>, i: nat)
    requires 0 < n <= MAX_KEY && seen != [] && SplitInto(n, seen) && InferredWidth(seen) == MAX_KEY / n
    ensures n <= InferredCount(seen)
    ensures i in Holes(seen) <==> i in Unseen(n, seen) || n <= i < InferredCount(seen)
    ensures i in Unseen(n, seen) ==> i < n
  {
    hide Count, SplitInto, InferredWidth;
    DivideTwice(MAX_KEY, n);
    InRangeIsPartition(n, seen, i);
    assert Seen(n, seen, i) ==> i < n;
  }

  lemma NothingOdd(n: nat, seen: seq<Sighting>)
    requires 0 < n <= MAX_KEY && SplitInto(n, seen)
    ensures Count(seen, Overlaps(MAX_KEY / n)) == 0 && Count(seen, Mismatches(MAX_KEY / n)) == 0
  {
    var w := MAX_KEY / n;
    DivideTwice(MAX_KEY, n);
    CountZeroIff(seen, Overlaps(w));
    CountZeroIff(seen, Mismatches(w));
    forall s | s in seen ensures !Holds(Overlaps(w), s) && !Holds(Mismatches(w), s) {
      var i: nat :| IsPartition(n, i, s.tablet);
      MultipleOf(i, w);
      WidthOfPartition(n, i, s.tablet);
    }
  }

  /** The promise for tables of up to 255 partitions: right number, no complaint, the holes are the unseen partitions. */
  lemma InferenceIsExact(n: nat, seen: seq<Sighting>, i: nat)
    requires 0 < n <= 255 && seen != [] && SplitInto(n, seen) && IsPartition(n, i, seen[0].tablet)
    requires i < n - 1 || MAX_KEY % n == 0
    ensures InferredWidth(seen) == MAX_KEY / n && InferredCount(seen) == n && Holes(seen) == Unseen(n, seen)
    ensures Count(seen, Overlaps(MAX_KEY / n)) == 0 && Count(seen, Mismatches(MAX_KEY / n)) == 0
  {
    UpTo255(n);
    WidthIsRightIff(n, seen, i);
    CountIsRightIff(n, seen, i);
    HolesAreUnseenPartitions(n, seen);
  }
}
