/**
 The parallel row counter: a table's 64K hash space is cut into equal ranges, shuffled, and
 counted by a pool of workers that talk over unbuffered channels. One state machine step is one
 rendezvous, one query or one channel close; a run is any interleaving of them.
 */
module RowCounter {
  import opened Common
  import opened Sums

  const HASH_SPACE := 64 * 1024
  const SCALE_FACTOR := 6
  const PARALLEL_TASKS := 16
  const TIMEOUT := 1500
  const ERR_COUNT_MAX := 5

  // ---------- Settings and ranges ----------

  function Pow2(n: nat): (r: nat)
    ensures r > 0
  {
    if n == 0 then 1 else 2 * Pow2(n - 1)
  }

  function Truncated(a: nat, b: nat): nat
    requires b > 0
  {
    a / b
  }

  /** 4096 scaled by two to the power scale - 6, truncated. */
  function TasksFor(scale: nat): nat {
    if scale >= SCALE_FACTOR then 4096 * Pow2(scale - SCALE_FACTOR) else Truncated(4096, Pow2(SCALE_FACTOR - scale))
  }

  datatype Settings = Settings(tasks: nat, parallel: nat, timeout: nat, errmax: nat)

  /** Out-of-range flags fall back to their defaults, so the tasks always divide the hash space evenly. */
  method Clamp(scale: int, parallel: int, timeout: int, errmax: int) returns (s: Settings)
    ensures s.tasks > 0 && s.tasks * (HASH_SPACE / s.tasks) == HASH_SPACE
    ensures s.tasks == TasksFor(if 1 <= scale <= 10 then scale else 6)
    ensures s.parallel == (if parallel >= 1 then parallel else 16) >= 1
    ensures s.timeout == if timeout >= 100 then timeout else 1500
    ensures s.errmax == if errmax >= 0 then errmax else 5
  {
    var sc, p, t, e := scale, parallel, timeout, errmax;
    if !(1 <= sc <= 10) { sc := SCALE_FACTOR; }
    if p < 1 { p := PARALLEL_TASKS; }
    if t < 100 { t := TIMEOUT; }
    if e < 0 { e := ERR_COUNT_MAX; }
    TasksDivide(sc);
    s := Settings(TasksFor(sc), p, t, e);
  }

  lemma TasksDivide(scale: nat)
    requires 1 <= scale <= 10
    ensures TasksFor(scale) == Pow2(scale + 6) > 0 && TasksFor(scale) * (HASH_SPACE / TasksFor(scale)) == HASH_SPACE
  {
    assert Pow2(0) == 1 && Pow2(1) == 2 && Pow2(2) == 4 && Pow2(3) == 8 && Pow2(4) == 16 && Pow2(5) == 32;
    assert Pow2(6) == 64 && Pow2(7) == 128 && Pow2(8) == 256 && Pow2(9) == 512 && Pow2(10) == 1024;
    assert Pow2(11) == 2048 && Pow2(12) == 4096 && Pow2(13) == 8192 && Pow2(14) == 16384 && Pow2(15) == 32768;
    assert Pow2(16) == 65536;
  }

  /** How many rows of the table have a given partition hash. */
  type Table = int -> nat

  /** What the count query answers for the inclusive range lo..hi. */
  function RowsIn(table: Table, lo: int, hi: int): nat
    decreases hi - lo + 1
  {
    if lo > hi then 0 else table(lo) + RowsIn(table, lo + 1, hi)
  }

  /** The rows, given by their hashes, that lie in lo..hi. */
  function Within(rows: seq<int>, lo: int, hi: int): seq<int> {
    if rows == [] then [] else (if lo <= rows[0] <= hi then [rows[0]] else []) + Within(rows[1..], lo, hi)
  }

  /** A query's answer is the number of rows in its range. */
  lemma {:induction false} RowsInCounts(table: Table, rows: seq<int>, lo: int, hi: int)
    requires forall h :: table(h) == multiset(rows)[h]
    ensures RowsIn(table, lo, hi) == |Within(rows, lo, hi)|
    decreases |rows|
  {
    if rows == [] {
      NoRows(table, lo, hi);
    } else {
      var fewer: Table := (h: int) => multiset(rows[1..])[h];
      assert rows == [rows[0]] + rows[1..];
      RowsInCounts(fewer, rows[1..], lo, hi);
      OneRowMore(fewer, table, rows[0], lo, hi);
    }
  }

  lemma {:induction false} NoRows(table: Table, lo: int, hi: int)
    requires forall h :: table(h) == 0
    ensures RowsIn(table, lo, hi) == 0
    decreases hi - lo + 1
  {
    if lo <= hi {
      NoRows(table, lo + 1, hi);
    }
  }

  lemma {:induction false} OneRowMore(fewer: Table, more: Table, x: int, lo: int, hi: int)
    requires forall h :: more(h) == fewer(h) + if h == x then 1 else 0
    ensures RowsIn(more, lo, hi) == RowsIn(fewer, lo, hi) + if lo <= x <= hi then 1 else 0
    decreases hi - lo + 1
  {
    if lo <= hi {
      OneRowMore(fewer, more, x, lo + 1, hi);
    }
  }

  lemma {:induction false} AllWithin(rows: seq<int>)
    requires forall i | 0 <= i < |rows| :: 0 <= rows[i] < 65536
    ensures Within(rows, 0, 65535) == rows
  {
    if rows != [] {
      AllWithin(rows[1..]);
    }
  }

  datatype Config = Config(table: Table, rangeSize: nat, errmax: nat)

  function RowsFrom(cfg: Config): int -> int {
    (lbound: int) => RowsIn(cfg.table, lbound, lbound + cfg.rangeSize - 1)
  }

  function Bounds(tasks: nat, rangeSize: nat): seq<int> {
    seq(tasks, i requires 0 <= i < tasks => i * rangeSize)
  }

  method LowerBounds(tasks: nat, rangeSize: nat) returns (lbounds: seq<int>)
    ensures lbounds == Bounds(tasks, rangeSize)
  {
    lbounds := [];
    for i := 0 to tasks
      invariant lbounds == Bounds(i, rangeSize)
    {
      lbounds := lbounds + [i * rangeSize];
    }
  }

  /** Every hash lies in exactly one range. */
  lemma RangesPartition(tasks: nat, rangeSize: nat, h: nat)
    requires tasks * rangeSize == HASH_SPACE && h < HASH_SPACE
    ensures exists i :: 0 <= i < tasks && InRange(i, rangeSize, h)
    ensures forall i, j | 0 <= i < tasks && 0 <= j < tasks && InRange(i, rangeSize, h) && InRange(j, rangeSize, h) :: i == j
  {
    var i := h / rangeSize;
    assert InRange(i, rangeSize, h);
    if i >= tasks {
      assert false;
    }
    forall j | 0 <= j < tasks && InRange(j, rangeSize, h) ensures j == i {
      OneQuotient(h, rangeSize, i, j);
    }
  }

  predicate InRange(i: nat, rangeSize: nat, h: nat) {
    i * rangeSize <= h <= i * rangeSize + rangeSize - 1
  }

  lemma OneQuotient(h: nat, r: nat, i: nat, j: nat)
    requires InRange(i, r, h) && InRange(j, r, h)
    ensures i == j
  {
    TimesMonotone(i + 1, j, r);
    TimesMonotone(j + 1, i, r);
    assert (i + 1) * r == i * r + r && (j + 1) * r == j * r + r;
  }

  lemma {:induction false} RowsSplit(table: Table, lo: int, mid: int, hi: int)
    requires lo <= mid <= hi + 1
    ensures RowsIn(table, lo, hi) == RowsIn(table, lo, mid - 1) + RowsIn(table, mid, hi)
    decreases mid - lo
  {
    if lo < mid {
      RowsSplit(table, lo + 1, mid, hi);
    }
  }

  lemma {:induction false} RangesCoverAll(cfg: Config, tasks: nat)
    ensures Sum(Bounds(tasks, cfg.rangeSize), RowsFrom(cfg)) == RowsIn(cfg.table, 0, tasks * cfg.rangeSize - 1)
  {
    if tasks > 0 {
      RangesCoverAll(cfg, tasks - 1);
      var last := (tasks - 1) * cfg.rangeSize;
      assert last + cfg.rangeSize == tasks * cfg.rangeSize;
      assert Bounds(tasks, cfg.rangeSize) == Bounds(tasks - 1, cfg.rangeSize) + [last];
      SumAppend(Bounds(tasks - 1, cfg.rangeSize), [last], RowsFrom(cfg));
      RowsSplit(cfg.table, 0, last, tasks * cfg.rangeSize - 1);
    }
  }

  // ---------- Shuffle ----------

  function Iota(n: nat): seq<int> {
    seq(n, i requires 0 <= i < n => i)
  }

  function Pick(vals: seq<int>, idx: seq<int>): seq<int>
    requires forall i | 0 <= i < |idx| :: 0 <= idx[i] < |vals|
  {
    seq(|idx|, i requires 0 <= i < |idx| => vals[idx[i]])
  }

  /** The random permutation is a parameter; whatever it is, no lower bound is lost or repeated. */
  method Shuffle(vals: seq<int>, perm: seq<int>) returns (ret: seq<int>)
    requires multiset(perm) == multiset(Iota(|vals|))
    ensures |ret| == |vals| && multiset(ret) == multiset(vals)
  {
    PermInRange(perm, |vals|);
    ret := [];
    for i := 0 to |perm|
      invariant ret == Pick(vals, perm[..i])
    {
      ret := ret + [vals[perm[i]]];
    }
    assert perm[..|perm|] == perm;
    PickPermuted(vals, perm, Iota(|vals|));
    assert Pick(vals, Iota(|vals|)) == vals;
    assert |multiset(perm)| == |multiset(Iota(|vals|))|;
  }

  lemma PermInRange(perm: seq<int>, n: nat)
    requires multiset(perm) == multiset(Iota(n))
    ensures forall i | 0 <= i < |perm| :: 0 <= perm[i] < n
  {
    forall i | 0 <= i < |perm| ensures 0 <= perm[i] < n {
      assert perm[i] in multiset(perm);
      assert perm[i] in Iota(n);
    }
  }

  lemma {:induction false} PickPermuted(vals: seq<int>, xs: seq<int>, ys: seq<int>)
    requires multiset(xs) == multiset(ys)
    requires forall i | 0 <= i < |xs| :: 0 <= xs[i] < |vals|
    requires forall i | 0 <= i < |ys| :: 0 <= ys[i] < |vals|
    ensures multiset(Pick(vals, xs)) == multiset(Pick(vals, ys))
    decreases |xs|
  {
    if xs == [] {
      assert |multiset(xs)| == |ys|;
    } else {
      var i := PermutationWithout(xs, ys);
      var py := Pick(vals, ys);
      PickPermuted(vals, xs[1..], ys[..i] + ys[i + 1..]);
      TakeOut(Pick(vals, xs), 0);
      TakeOut(py, i);
      assert Pick(vals, xs)[..0] + Pick(vals, xs)[1..] == Pick(vals, xs[1..]);
      assert Pick(vals, ys[..i] + ys[i + 1..]) == py[..i] + py[i + 1..];
    }
  }

  // ---------- The machine ----------

  datatype Worker = Idle | Querying(lbound: int) | Sending(count: int) | Exited

  /**
   unsent: what the producer has yet to hand out; tasksClosed, resultsClosed: the two channels;
   finished: the consumer has left its loop (and `done` gets closed).
   */
  datatype State = State(unsent: seq<int>, tasksClosed: bool, workers: seq<Worker>, resultsClosed: bool,
                         count: int, finished: bool, errored: bool, errCount: nat)

  datatype Event =
    | Dispatch(w: nat)              // producer meets an idle worker
    | Answer(w: nat)                // the worker's query succeeds
    | Fail(w: nat, junk: int)       // the worker's query fails, leaving some number behind
    | Deliver(w: nat)               // worker meets the consumer
    | CloseTasks                    // producer closes its channel
    | Exit(w: nat)                  // an idle worker sees the closed channel
    | CloseResults                  // every worker is gone: the closer closes results
    | Finish                        // the consumer sees the closed channel
    | Leave(w: nat)                 // a worker gives up because done is closed

  ghost predicate Enabled(s: State, e: Event) {
    match e
    case Dispatch(w) => w < |s.workers| && s.workers[w].Idle? && s.unsent != [] && !s.tasksClosed
    case Answer(w) => w < |s.workers| && s.workers[w].Querying?
    case Fail(w, _) => w < |s.workers| && s.workers[w].Querying?
    case Deliver(w) => w < |s.workers| && s.workers[w].Sending? && !s.finished
    case CloseTasks => s.unsent == [] && !s.tasksClosed
    case Exit(w) => w < |s.workers| && s.workers[w].Idle? && s.tasksClosed
    case CloseResults => !s.resultsClosed && AllExited(s)
    case Finish => s.resultsClosed && !s.finished
    case Leave(w) => w < |s.workers| && s.workers[w].Sending? && s.finished
  }

  ghost predicate AllExited(s: State) {
    forall w | 0 <= w < |s.workers| :: s.workers[w].Exited?
  }

  function Next(cfg: Config, s: State, e: Event): State
    requires Enabled(s, e)
  {
    match e
    case Dispatch(w) => s.(unsent := s.unsent[1..], workers := s.workers[w := Querying(s.unsent[0])])
    case Answer(w) => s.(workers := s.workers[w := Sending(RowsFrom(cfg)(s.workers[w].lbound))])
    case Fail(w, junk) =>
      var after := s.(workers := s.workers[w := Sending(junk)]);
      if cfg.errmax == 0 || s.errCount < cfg.errmax then after.(errCount := s.errCount + 1, errored := true) else after
    case Deliver(w) => s.(count := s.count + s.workers[w].count, workers := s.workers[w := Idle])
    case CloseTasks => s.(tasksClosed := true)
    case Exit(w) => s.(workers := s.workers[w := Exited])
    case CloseResults => s.(resultsClosed := true)
    case Finish => s.(finished := true)
    case Leave(w) => s.(workers := s.workers[w := Exited])
  }

  ghost predicate Runs(cfg: Config, s: State, events: seq<Event>)
    decreases |events|
  {
    events == [] || (Enabled(s, events[0]) && Runs(cfg, Next(cfg, s, events[0]), events[1..]))
  }

  ghost function Reached(cfg: Config, s: State, events: seq<Event>): State
    requires Runs(cfg, s, events)
    decreases |events|
  {
    if events == [] then s else Reached(cfg, Next(cfg, s, events[0]), events[1..])
  }

  /** errored is global: an earlier table, or the failed lookup of partition columns, may have set it. */
  function Start(bounds: seq<int>, parallel: nat, errored: bool): State {
    State(bounds, false, seq(parallel, _ => Idle), false, 0, false, errored, 0)
  }

  // ---------- Invariant ----------

  function Held(cfg: Config): Worker -> int {
    (w: Worker) => match w
      case Querying(lbound) => RowsFrom(cfg)(lbound)
      case Sending(count) => count
      case _ => 0
  }

  /** Rows counted, plus rows in the workers' hands, plus rows in ranges not handed out yet. */
  function Accounted(cfg: Config, s: State): int {
    s.count + Sum(s.workers, Held(cfg)) + Sum(s.unsent, RowsFrom(cfg))
  }

  ghost predicate Inv(cfg: Config, s: State, total: int) {
    && (s.errored || Accounted(cfg, s) == total)
    && (s.errCount > 0 ==> s.errored)
    && (s.tasksClosed ==> s.unsent == [])
    && (forall w | 0 <= w < |s.workers| && s.workers[w].Exited? :: s.tasksClosed)
    && (s.resultsClosed ==> AllExited(s) && s.tasksClosed)
    && (s.finished ==> s.resultsClosed)
    && |s.workers| > 0
  }

  lemma StepKeepsInv(cfg: Config, s: State, e: Event, total: int)
    requires Inv(cfg, s, total) && Enabled(s, e)
    ensures Inv(cfg, Next(cfg, s, e), total)
    ensures !e.Leave?
    ensures s.errored ==> Next(cfg, s, e).errored
    ensures e.Fail? ==> Next(cfg, s, e).errored
  {
    if e.Dispatch? || e.Answer? || e.Fail? || e.Deliver? || e.Exit? {
      SumUpdate(s.workers, e.w, Next(cfg, s, e).workers[e.w], Held(cfg));
    }
    if e.CloseResults? {
      assert s.workers[0].Exited?;
    }
  }

  /** Before the consumer is done, something can always happen. */
  lemma NeverStuck(cfg: Config, s: State, total: int) returns (e: Event)
    requires Inv(cfg, s, total) && !s.finished
    ensures Enabled(s, e) && !e.Leave?
  {
    if s.resultsClosed {
      e := Finish;
    } else if AllExited(s) {
      e := CloseResults;
    } else {
      var w :| 0 <= w < |s.workers| && !s.workers[w].Exited?;
      match s.workers[w]
      case Querying(_) => e := Answer(w);
      case Sending(_) => e := Deliver(w);
      case Idle => e := if s.tasksClosed then Exit(w) else if s.unsent == [] then CloseTasks else Dispatch(w);
    }
  }

  function Weight(): Worker -> int {
    (w: Worker) => match w
      case Querying(_) => 3
      case Sending(_) => 2
      case Idle => 1
      case Exited => 0
  }

  /** The number of events still to come. */
  function Remaining(s: State): int {
    3 * |s.unsent| + Sum(s.workers, Weight())
      + (if s.tasksClosed then 0 else 1) + (if s.resultsClosed then 0 else 1) + (if s.finished then 0 else 1)
  }

  lemma StepUsesOne(cfg: Config, s: State, e: Event)
    requires Enabled(s, e) && !e.Leave?
    ensures Remaining(Next(cfg, s, e)) == Remaining(s) - 1
  {
    if e.Dispatch? || e.Answer? || e.Fail? || e.Deliver? || e.Exit? {
      SumUpdate(s.workers, e.w, Next(cfg, s, e).workers[e.w], Weight());
    }
  }

  lemma RemainingNonNegative(s: State)
    ensures Remaining(s) >= 0
    ensures Remaining(s) == 0 ==> s.finished
  {
    SumNonNegative(s.workers, Weight());
  }

  lemma {:induction false} FinishedMeansNothingRemains(cfg: Config, s: State, total: int)
    requires Inv(cfg, s, total) && s.finished
    ensures Remaining(s) == 0 && Sum(s.workers, Held(cfg)) == 0 && s.unsent == []
  {
    SumSame(s.workers, Weight(), (w: Worker) => 0);
    SumSame(s.workers, Held(cfg), (w: Worker) => 0);
    SumZero(s.workers);
  }

  lemma {:induction false} SumZero(ws: seq<Worker>)
    ensures Sum(ws, (w: Worker) => 0) == 0
  {
    if ws != [] { SumZero(ws[1..]); }
  }

  /** Any run from an invariant state keeps the invariant, uses one unit per event, and never forgets a failure. */
  lemma {:induction false} RunFacts(cfg: Config, s: State, events: seq<Event>, total: int)
    requires Inv(cfg, s, total) && Runs(cfg, s, events)
    ensures var r := Reached(cfg, s, events);
      Inv(cfg, r, total) && Remaining(r) == Remaining(s) - |events| && (s.errored ==> r.errored)
      && ((exists i :: 0 <= i < |events| && events[i].Fail?) ==> r.errored)
    ensures forall i | 0 <= i < |events| :: !events[i].Leave?
    decreases |events|
  {
    if events != [] {
      StepKeepsInv(cfg, s, events[0], total);
      StepUsesOne(cfg, s, events[0]);
      RunFacts(cfg, Next(cfg, s, events[0]), events[1..], total);
      assert forall i | 0 < i < |events| :: events[i] == events[1..][i - 1];
    }
  }

  function Failures(events: seq<Event>): nat {
    if events == [] then 0 else (if events[0].Fail? then 1 else 0) + Failures(events[1..])
  }

  /** As many failures are printed as there are, up to the limit if there is one. */
  lemma {:induction false} ErrorsArePrinted(cfg: Config, s: State, events: seq<Event>)
    requires Runs(cfg, s, events) && (cfg.errmax > 0 ==> s.errCount <= cfg.errmax)
    ensures var n := s.errCount + Failures(events);
      Reached(cfg, s, events).errCount == if cfg.errmax == 0 || n <= cfg.errmax then n else cfg.errmax
    decreases |events|
  {
    if events != [] {
      ErrorsArePrinted(cfg, Next(cfg, s, events[0]), events[1..]);
    }
  }

  // ---------- Main results ----------

  ghost predicate Launch(cfg: Config, bounds: seq<int>, tasks: nat, parallel: nat) {
    && tasks > 0 && parallel > 0 && tasks * cfg.rangeSize == HASH_SPACE
    && multiset(bounds) == multiset(Bounds(tasks, cfg.rangeSize))
  }

  lemma StartInv(cfg: Config, bounds: seq<int>, tasks: nat, parallel: nat, errored: bool)
    requires Launch(cfg, bounds, tasks, parallel)
    ensures Inv(cfg, Start(bounds, parallel, errored), RowsIn(cfg.table, 0, HASH_SPACE - 1))
    ensures Remaining(Start(bounds, parallel, errored)) == 3 * tasks + parallel + 3
  {
    var s := Start(bounds, parallel, errored);
    SumOfPermutation(bounds, Bounds(tasks, cfg.rangeSize), RowsFrom(cfg));
    RangesCoverAll(cfg, tasks);
    AllIdle(cfg, parallel);
    assert |multiset(bounds)| == |multiset(Bounds(tasks, cfg.rangeSize))|;
  }

  lemma {:induction false} AllIdle(cfg: Config, n: nat)
    ensures Sum(seq(n, _ => Idle), Held(cfg)) == 0 && Sum(seq(n, _ => Idle), Weight()) == n
  {
    if n > 0 {
      AllIdle(cfg, n - 1);
      assert seq(n, _ => Idle)[1..] == seq(n - 1, _ => Idle);
    }
  }

  /** A run in which the consumer finished without the error flag has counted the table exactly. */
  lemma CountIsExact(cfg: Config, bounds: seq<int>, tasks: nat, parallel: nat, errored: bool, events: seq<Event>)
    requires Launch(cfg, bounds, tasks, parallel)
    requires Runs(cfg, Start(bounds, parallel, errored), events)
    ensures var end := Reached(cfg, Start(bounds, parallel, errored), events);
      && (end.finished && !end.errored ==> end.count == RowsIn(cfg.table, 0, HASH_SPACE - 1))
      && ((errored || exists i :: 0 <= i < |events| && events[i].Fail?) ==> end.errored)
  {
    var total := RowsIn(cfg.table, 0, HASH_SPACE - 1);
    StartInv(cfg, bounds, tasks, parallel, errored);
    RunFacts(cfg, Start(bounds, parallel, errored), events, total);
    var end := Reached(cfg, Start(bounds, parallel, errored), events);
    if end.finished {
      FinishedMeansNothingRemains(cfg, end, total);
    }
  }

  /** For a table of these rows, given by their hashes, what is printed is their number. */
  lemma CountIsNumberOfRows(cfg: Config, rows: seq<int>, bounds: seq<int>, tasks: nat, parallel: nat, errored: bool,
      events: seq<Event>)
    requires forall i | 0 <= i < |rows| :: 0 <= rows[i] < 65536
    requires forall h :: cfg.table(h) == multiset(rows)[h]
    requires Launch(cfg, bounds, tasks, parallel) && Runs(cfg, Start(bounds, parallel, errored), events)
    ensures var end := Reached(cfg, Start(bounds, parallel, errored), events);
      end.finished && !end.errored ==> end.count == |rows|
  {
    CountIsExact(cfg, bounds, tasks, parallel, errored, events);
    RowsInCounts(cfg.table, rows, 0, HASH_SPACE - 1);
    AllWithin(rows);
  }

  /**
   No interleaving deadlocks, loops or leaks: a run can be extended exactly until it has 3 events per range,
   one per worker and three closing ones; then all goroutines are gone. No worker ever leaves through done,
   and no result is ever sent on a closed channel.
   */
  lemma PoolAlwaysFinishes(cfg: Config, bounds: seq<int>, tasks: nat, parallel: nat, errored: bool, events: seq<Event>)
    requires Launch(cfg, bounds, tasks, parallel)
    requires Runs(cfg, Start(bounds, parallel, errored), events)
    ensures |events| <= 3 * tasks + parallel + 3
    ensures var end := Reached(cfg, Start(bounds, parallel, errored), events);
      && (end.finished <==> |events| == 3 * tasks + parallel + 3)
      && (end.finished ==> AllExited(end) && end.tasksClosed && end.resultsClosed)
      && (!end.finished ==> exists e :: Enabled(end, e))
      && (end.resultsClosed ==> forall w | 0 <= w < |end.workers| :: !end.workers[w].Sending?)
    ensures forall i | 0 <= i < |events| :: !events[i].Leave?
  {
    var total := RowsIn(cfg.table, 0, HASH_SPACE - 1);
    StartInv(cfg, bounds, tasks, parallel, errored);
    RunFacts(cfg, Start(bounds, parallel, errored), events, total);
    var end := Reached(cfg, Start(bounds, parallel, errored), events);
    RemainingNonNegative(end);
    if end.finished {
      FinishedMeansNothingRemains(cfg, end, total);
    } else {
      var e := NeverStuck(cfg, end, total);
    }
  }

  /** Cutting and shuffling the hash space, as done before the workers start. */
  method PrepareRanges(cfg: Config, s: Settings, perm: seq<int>) returns (bounds: seq<int>)
    requires s.tasks > 0 && s.parallel > 0 && s.tasks * (HASH_SPACE / s.tasks) == HASH_SPACE
    requires cfg.rangeSize == HASH_SPACE / s.tasks && cfg.errmax == s.errmax
    requires multiset(perm) == multiset(Iota(s.tasks))
    ensures Launch(cfg, bounds, s.tasks, s.parallel)
  {
    var ordered := LowerBounds(s.tasks, cfg.rangeSize);
    bounds := Shuffle(ordered, perm);
  }

  // ---------- A whole keyspace ----------

  datatype TableRun = TableRun(cfg: Config, bounds: seq<int>, tasks: nat, parallel: nat, events: seq<Event>)

  ghost predicate Completed(run: TableRun, errored: bool) {
    && Launch(run.cfg, run.bounds, run.tasks, run.parallel)
    && Runs(run.cfg, Start(run.bounds, run.parallel, errored), run.events)
    && End(run, errored).finished
  }

  ghost function End(run: TableRun, errored: bool): State
    requires Runs(run.cfg, Start(run.bounds, run.parallel, errored), run.events)
  {
    Reached(run.cfg, Start(run.bounds, run.parallel, errored), run.events)
  }

  /** Tables are counted one after the other under one global flag; the first error ends the loop. */
  ghost predicate KeyspaceSucceeds(runs: seq<TableRun>, errored: bool) {
    runs == []
    || (Completed(runs[0], errored) && !End(runs[0], errored).errored
        && KeyspaceSucceeds(runs[1..], End(runs[0], errored).errored))
  }

  ghost predicate Exact(run: TableRun)
    requires Runs(run.cfg, Start(run.bounds, run.parallel, false), run.events)
  {
    && End(run, false).count == RowsIn(run.cfg.table, 0, HASH_SPACE - 1)
    && forall i | 0 <= i < |run.events| :: !run.events[i].Fail?
  }

  /** When the keyspace check returns nil, every printed count is exact and no query of any table failed. */
  lemma {:induction false} KeyspaceIsExact(runs: seq<TableRun>, errored: bool)
    requires KeyspaceSucceeds(runs, errored)
    ensures forall k | 0 <= k < |runs| :: Completed(runs[k], false) && Exact(runs[k])
    ensures runs != [] ==> !errored
    decreases |runs|
  {
    if runs != [] {
      var run := runs[0];
      CountIsExact(run.cfg, run.bounds, run.tasks, run.parallel, errored, run.events);
      KeyspaceIsExact(runs[1..], false);
      assert forall k | 0 < k < |runs| :: runs[k] == runs[1..][k - 1];
    }
  }
}
