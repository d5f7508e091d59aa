/**
 The concurrent package uploader: files are cut into parts, up to `limit` parts of a file are
 uploaded at a time, and all uploads of a package draw their retries from one budget.
 */
module Uploader {
  import opened FileParts

  // ---------- All interleavings of the uploads ----------

  /** retries given at the start, parts uploaded at a time, and the number of parts of each file. */
  datatype Config = Config(retries: nat, limit: nat, files: seq<nat>)

  datatype Part = Waiting | Active | Stored | GivenUp

  /** budget is what is left of the retries; the counters are history. */
  datatype State = State(budget: nat, file: nat, parts: seq<Part>, attempts: nat, failures: nat)

  datatype Event =
    | Start(part: nat)      // a goroutine takes the next part
    | Succeed(part: nat)    // an attempt is accepted
    | Fail(part: nat)       // an attempt is refused; under the lock it is retried or the part given up
    | NextFile              // every part is stored

  function Number(parts: seq<Part>, p: Part): nat {
    if parts == [] then 0 else Number(parts[1..], p) + if parts[0] == p then 1 else 0
  }

  function Fresh(cfg: Config, file: nat): seq<Part> {
    if file < |cfg.files| then seq(cfg.files[file], i => Waiting) else []
  }

  function Init(cfg: Config): State { State(cfg.retries, 0, Fresh(cfg, 0), 0, 0) }

  predicate Enabled(cfg: Config, s: State, e: Event) {
    match e
    case Start(i) => i < |s.parts| && s.parts[i] == Waiting && Waiting !in s.parts[..i] && Number(s.parts, Active) < cfg.limit
    case Succeed(i) => i < |s.parts| && s.parts[i] == Active
    case Fail(i) => i < |s.parts| && s.parts[i] == Active
    case NextFile => s.file < |cfg.files| && forall p | p in s.parts :: p == Stored
  }

  function Next(cfg: Config, s: State, e: Event): State
    requires Enabled(cfg, s, e)
  {
    match e
    case Start(i) => s.(parts := s.parts[i := Active])
    case Succeed(i) => s.(parts := s.parts[i := Stored], attempts := s.attempts + 1)
    case Fail(i) =>
      var tried := s.(attempts := s.attempts + 1, failures := s.failures + 1);
      if s.budget > 0 then tried.(budget := s.budget - 1) else tried.(parts := s.parts[i := GivenUp])
    case NextFile => s.(file := s.file + 1, parts := Fresh(cfg, s.file + 1))
  }

  ghost predicate IsRun(cfg: Config, run: seq<State>, events: seq<Event>) {
    && |run| == |events| + 1 && run[0] == Init(cfg)
    && forall i | 0 <= i < |events| :: Enabled(cfg, run[i], events[i]) && run[i + 1] == Next(cfg, run[i], events[i])
  }

  function PartsOf(files: seq<nat>): nat {
    if files == [] then 0 else PartsOf(files[..|files| - 1]) + files[|files| - 1]
  }

  /** Parts of the files already complete. */
  function Before(cfg: Config, s: State): nat
    requires s.file <= |cfg.files|
  {
    PartsOf(cfg.files[..s.file])
  }

  // ---------- What every step keeps ----------

  ghost predicate Inv(cfg: Config, s: State) {
    && s.file <= |cfg.files| && |s.parts| == (if s.file < |cfg.files| then cfg.files[s.file] else 0)
    && s.budget <= cfg.retries
    && s.failures == (cfg.retries - s.budget) + Number(s.parts, GivenUp)
    && (s.budget > 0 ==> Number(s.parts, GivenUp) == 0)
    && s.attempts == Before(cfg, s) + Number(s.parts, Stored) + s.failures
    && Number(s.parts, Active) <= cfg.limit
  }

  lemma {:induction false} NumberUpdate(parts: seq<Part>, i: nat, p: Part, q: Part)
    requires i < |parts|
    ensures Number(parts[i := q], p)
      == Number(parts, p) - (if parts[i] == p then 1 else 0) + if q == p then 1 else 0
  {
    if i > 0 {
      assert parts[i := q][1..] == parts[1..][i - 1 := q];
      NumberUpdate(parts[1..], i - 1, p, q);
    } else {
      assert parts[i := q][1..] == parts[1..];
    }
  }

  lemma {:induction false} NumberAll(parts: seq<Part>)
    ensures Number(parts, Waiting) + Number(parts, Active) + Number(parts, Stored) + Number(parts, GivenUp) == |parts|
  {
    if parts != [] {
      NumberAll(parts[1..]);
    }
  }

  lemma {:induction false} NumberZeroIff(parts: seq<Part>, p: Part)
    ensures Number(parts, p) == 0 <==> p !in parts
  {
    if parts != [] {
      NumberZeroIff(parts[1..], p);
    }
  }

  lemma FreshCounts(cfg: Config, file: nat, p: Part)
    ensures p != Waiting ==> Number(Fresh(cfg, file), p) == 0
  {
    NumberZeroIff(Fresh(cfg, file), p);
  }

  lemma {:induction false} AllStored(parts: seq<Part>)
    requires forall p | p in parts :: p == Stored
    ensures Number(parts, Stored) == |parts|
  {
    NumberZeroIff(parts, Waiting);
    NumberZeroIff(parts, Active);
    NumberZeroIff(parts, GivenUp);
    NumberAll(parts);
  }

  lemma InitHolds(cfg: Config)
    ensures Inv(cfg, Init(cfg))
  {
    FreshCounts(cfg, 0, Active);
    FreshCounts(cfg, 0, Stored);
    FreshCounts(cfg, 0, GivenUp);
    assert cfg.files[..0] == [];
  }

  lemma StepKeepsInv(cfg: Config, s: State, e: Event)
    requires Inv(cfg, s) && Enabled(cfg, s, e)
    ensures Inv(cfg, Next(cfg, s, e))
  {
    hide Number, Fresh;
    match e
    case Start(i) => PartChanges(s.parts, i, Active);
    case Succeed(i) => PartChanges(s.parts, i, Stored);
    case Fail(i) => PartChanges(s.parts, i, GivenUp);
    case NextFile => FileChanges(cfg, s);
  }

  lemma PartChanges(parts: seq<Part>, i: nat, q: Part)
    requires i < |parts|
    ensures forall p | p != parts[i] && p != q :: Number(parts[i := q], p) == Number(parts, p)
    ensures q != parts[i] ==> Number(parts[i := q], q) == Number(parts, q) + 1
    ensures q != parts[i] ==> Number(parts[i := q], parts[i]) == Number(parts, parts[i]) - 1
  {
    forall p ensures Number(parts[i := q], p) - Number(parts, p)
      == (if q == p then 1 else 0) - (if parts[i] == p then 1 else 0)
    {
      NumberUpdate(parts, i, p, q);
    }
  }

  lemma FileChanges(cfg: Config, s: State)
    requires Inv(cfg, s) && Enabled(cfg, s, NextFile)
    ensures Inv(cfg, Next(cfg, s, NextFile))
  {
    AllStored(s.parts);
    NumberAll(s.parts);
    FreshCounts(cfg, s.file + 1, Active);
    FreshCounts(cfg, s.file + 1, Stored);
    FreshCounts(cfg, s.file + 1, GivenUp);
    assert cfg.files[..s.file + 1][..s.file] == cfg.files[..s.file];
  }

  lemma {:induction false} RunKeepsInv(cfg: Config, run: seq<State>, events: seq<Event>, i: nat)
    requires IsRun(cfg, run, events) && i <= |events|
    ensures Inv(cfg, run[i])
    decreases i
  {
    hide Inv, Enabled, Next;
    if i == 0 {
      InitHolds(cfg);
    } else {
      RunKeepsInv(cfg, run, events, i - 1);
      StepKeepsInv(cfg, run[i - 1], events[i - 1]);
    }
  }

  // ---------- Main results ----------

  /** Failed attempts are retried while there is budget, whichever part they belong to. */
  ghost function Excess(cfg: Config, s: State): nat { if s.failures > cfg.retries then s.failures - cfg.retries else 0 }

  lemma {:induction false} PartsOfPrefix(files: seq<nat>, i: nat)
    requires i <= |files|
    ensures PartsOf(files[..i]) + (if i < |files| then files[i] else 0) <= PartsOf(files)
    decreases |files| - i
  {
    if i == |files| {
      assert files[..i] == files;
    } else {
      assert files[..i + 1][..i] == files[..i];
      PartsOfPrefix(files, i + 1);
    }
  }

  /**
   In every reachable state of every interleaving: the budget spent is the number of failures that were
   retried, exactly the failures beyond it cost a part each, and attempts are bounded.
   */
  lemma BudgetIsShared(cfg: Config, run: seq<State>, events: seq<Event>, i: nat)
    requires IsRun(cfg, run, events) && i <= |events|
    ensures var s := run[i];
      && s.budget == cfg.retries - (s.failures - Excess(cfg, s)) && Number(s.parts, GivenUp) == Excess(cfg, s)
      && s.attempts <= PartsOf(cfg.files) + cfg.retries && Number(s.parts, Active) <= cfg.limit
  {
    RunKeepsInv(cfg, run, events, i);
    NumberAll(run[i].parts);
    PartsOfPrefix(cfg.files, run[i].file);
  }

  predicate Complete(cfg: Config, s: State) { s.file == |cfg.files| }

  /** The package is abandoned at a file some part of which was given up once nothing of it is left to do. */
  predicate Abandoned(s: State) { Waiting !in s.parts && Active !in s.parts && GivenUp in s.parts }

  /** No interleaving gets stuck before the package is complete or abandoned. */
  lemma NeverStuck(cfg: Config, s: State) returns (e: Event)
    requires Inv(cfg, s) && cfg.limit > 0 && !Complete(cfg, s) && !Abandoned(s)
    ensures Enabled(cfg, s, e)
  {
    if Active in s.parts {
      var i :| 0 <= i < |s.parts| && s.parts[i] == Active;
      e := Fail(i);
    } else if Waiting in s.parts {
      NumberZeroIff(s.parts, Active);
      var i := FirstWaiting(s.parts);
      e := Start(i);
    } else {
      assert forall p | p in s.parts :: p != Waiting && p != Active && p != GivenUp;
      e := NextFile;
    }
  }

  lemma {:induction false} FirstWaiting(parts: seq<Part>) returns (i: nat)
    requires Waiting in parts
    ensures i < |parts| && parts[i] == Waiting && Waiting !in parts[..i]
  {
    if parts[0] == Waiting {
      i := 0;
    } else {
      assert Waiting in parts[1..];
      i := FirstWaiting(parts[1..]);
      assert parts[..i + 1] == [parts[0]] + parts[1..][..i];
      i := i + 1;
    }
  }

  /** Work left: every step uses some of it. */
  ghost function Measure(cfg: Config, s: State): nat
    requires s.file <= |cfg.files|
  {
    s.budget + 2 * Number(s.parts, Waiting) + Number(s.parts, Active) + Later(cfg, s.file + 1) + |cfg.files| - s.file
  }

  ghost function Later(cfg: Config, file: nat): nat
    decreases |cfg.files| - file
  {
    if file < |cfg.files| then 2 * cfg.files[file] + Later(cfg, file + 1) else 0
  }

  lemma StepUsesWork(cfg: Config, s: State, e: Event)
    requires Inv(cfg, s) && Enabled(cfg, s, e)
    ensures Next(cfg, s, e).file <= |cfg.files| && Measure(cfg, Next(cfg, s, e)) < Measure(cfg, s)
  {
    hide Number;
    match e
    case Start(i) => PartChanges(s.parts, i, Active);
    case Succeed(i) => PartChanges(s.parts, i, Stored);
    case Fail(i) => PartChanges(s.parts, i, GivenUp);
    case NextFile =>
      NumberZeroIff(s.parts, Waiting);
      NumberZeroIff(s.parts, Active);
      FreshCounts(cfg, s.file + 1, Active);
      NumberAll(Fresh(cfg, s.file + 1));
  }

  lemma {:induction false} LaterIsTotal(cfg: Config, i: nat)
    requires i <= |cfg.files|
    ensures Later(cfg, i) + 2 * PartsOf(cfg.files[..i]) == 2 * PartsOf(cfg.files)
    decreases |cfg.files| - i
  {
    if i == |cfg.files| {
      assert cfg.files[..i] == cfg.files;
    } else {
      assert cfg.files[..i + 1][..i] == cfg.files[..i];
      LaterIsTotal(cfg, i + 1);
    }
  }

  /** Every run ends: it has at most two events per part, one per file and one per retry. */
  lemma {:induction false} RunsEnd(cfg: Config, run: seq<State>, events: seq<Event>, i: nat)
    requires IsRun(cfg, run, events) && i <= |events|
    ensures run[i].file <= |cfg.files|
    ensures i + Measure(cfg, run[i]) <= 2 * PartsOf(cfg.files) + |cfg.files| + cfg.retries
    decreases i
  {
    hide Number, PartsOf, Enabled, Next;
    if i == 0 {
      FreshCounts(cfg, 0, Active);
      NumberAll(Fresh(cfg, 0));
      LaterIsTotal(cfg, 0);
      assert cfg.files[..0] == [];
    } else {
      RunsEnd(cfg, run, events, i - 1);
      RunKeepsInv(cfg, run, events, i - 1);
      StepUsesWork(cfg, run[i - 1], events[i - 1]);
    }
  }

  /**
   How a run ends depends only on how many attempts failed, not on the interleaving: the package is
   complete only with every part stored after one good attempt each, and is abandoned exactly
   when there were more failures than retries.
   */
  lemma OutcomeIsDecided(cfg: Config, run: seq<State>, events: seq<Event>)
    requires IsRun(cfg, run, events) && cfg.limit > 0
    requires forall e :: !Enabled(cfg, run[|events|], e)
    ensures var s := run[|events|];
      && (Complete(cfg, s) <==> s.failures <= cfg.retries)
      && (Abandoned(s) <==> s.failures > cfg.retries)
      && (s.failures > cfg.retries ==>
            GivenUp in s.parts && forall k | 0 <= k < |s.parts| :: s.parts[k] == Stored || s.parts[k] == GivenUp)
      && (Complete(cfg, s) ==> s.attempts == PartsOf(cfg.files) + s.failures)
  {
    var s := run[|events|];
    RunKeepsInv(cfg, run, events, |events|);
    if !Complete(cfg, s) && !Abandoned(s) {
      var e := NeverStuck(cfg, s);
    }
    NumberZeroIff(s.parts, GivenUp);
    assert cfg.files[..|cfg.files|] == cfg.files;
  }

  // ---------- One part ----------

  class Package {
    const chunkSize: int
    var retries: nat

    constructor (chunkSize0: int, retries0: nat)
      ensures chunkSize == chunkSize0 && retries == retries0
    {
      chunkSize, retries := chunkSize0, retries0;
    }

    /**
     Uploads one part alone: accepts(k) says whether attempt k would be accepted. It tries until
     one is, or until as many have failed as there were retries and one more.
     */
    method UploadFilePart(partEmpty: bool, urlEmpty: bool, accepts: nat -> bool) returns (ok: bool, attempts: nat)
      modifies this
      ensures partEmpty || urlEmpty ==> !ok && attempts == 0 && retries == old(retries)
      ensures !partEmpty && !urlEmpty ==> attempts > 0 && forall k | 0 <= k < attempts - 1 :: !accepts(k)
      ensures !partEmpty && !urlEmpty ==> ok == accepts(attempts - 1) && retries == old(retries) - (attempts - 1)
      ensures !partEmpty && !urlEmpty && !ok ==> attempts == old(retries) + 1 && retries == 0
    {
      attempts := 0;
      if partEmpty || urlEmpty {
        return false, 0;
      }
      while true
        invariant attempts + retries == old(retries) && forall k | 0 <= k < attempts :: !accepts(k)
        decreases retries
      {
        attempts := attempts + 1;
        if !accepts(attempts - 1) {
          if retries > 0 {
            retries := retries - 1;
            continue;
          }
          return false, attempts;
        }
        break;
      }
      ok := true;
    }
  }

  // ---------- Settings ----------

  const DEFAULT_RETRIES: nat := 5
  const DEFAULT_CONCURRENCY: nat := 10

  function AllowedRetries(asked: nat): nat { if asked > 100 then DEFAULT_RETRIES else asked }

  method ValidateArgs(concurrency: int, retries: nat) returns (limit: nat, allowed: nat)
    ensures 1 <= limit <= 100 && limit == if 1 <= concurrency <= 100 then concurrency else 10
    ensures allowed == AllowedRetries(retries) <= 100
  {
    var c := concurrency;
    if c < 1 || c > 100 {
      c := DEFAULT_CONCURRENCY;
    }
    limit, allowed := c, retries;
    if allowed > 100 {
      allowed := DEFAULT_RETRIES;
    }
  }

  /** "Setting retries to the max of 100" is what happens exactly when there is nothing to set. */
  lemma RetriesAreAsAnnouncedIff(asked: nat)
    ensures AllowedRetries(asked) == (if asked > 100 then 100 else asked) <==> asked <= 100
    ensures AllowedRetries(150) == 5
  {}

  /** The package that is started with these flags for files of these sizes. */
  method Configure(concurrency: int, retries: nat, sizes: seq<nat>, partSize: nat) returns (cfg: Config)
    requires partSize > 0
    ensures cfg.retries == AllowedRetries(retries) && 1 <= cfg.limit <= 100
    ensures |cfg.files| == |sizes| && forall i | 0 <= i < |sizes| :: cfg.files[i] == Ceiling(sizes[i], partSize)
  {
    var limit, allowed := ValidateArgs(concurrency, retries);
    cfg := Config(allowed, limit, seq(|sizes|, i requires 0 <= i < |sizes| => Ceiling(sizes[i], partSize)));
  }

  /** Asking for more than 100 retries, a package survives five failed attempts and no more. */
  lemma ManyRetriesMeanFive(asked: nat, cfg: Config, run: seq<State>, events: seq<Event>)
    requires asked > 100 && cfg.retries == AllowedRetries(asked) && cfg.limit > 0
    requires IsRun(cfg, run, events) && forall e :: !Enabled(cfg, run[|events|], e)
    ensures Complete(cfg, run[|events|]) <==> run[|events|].failures <= 5
  {
    OutcomeIsDecided(cfg, run, events);
  }

  // ---------- Upload URLs ----------

  const BATCH_SIZE: nat := 25

  /** What the service answers to a request: an error, or URLs, each for a part. */
  datatype Answer = Failed | Given(urls: seq<(int, string)>)

  datatype Fetch = Urls(urls: seq<string>) | Error | OutOfRange

  function Entered(urls: seq<string>, given: seq<(int, string)>): Fetch {
    if given == [] then Urls(urls)
    else
      var (before, last) := (Entered(urls, given[..|given| - 1]), given[|given| - 1]);
      if !before.Urls? then before
      else if 1 <= last.0 <= |before.urls| then Urls(before.urls[last.0 - 1 := last.1])
      else OutOfRange
  }

  /** The URLs after n requests, one for every 25th part. */
  function Fetched(parts: nat, service: nat -> Answer, n: nat): Fetch {
    if n == 0 then Urls(seq(parts, i => ""))
    else
      var before := Fetched(parts, service, n - 1);
      if !before.Urls? then before
      else
        match service(1 + (n - 1) * BATCH_SIZE)
        case Failed => Error
        case Given(urls) => Entered(before.urls, urls)
  }

  method GetUploadURLs(parts: nat, service: nat -> Answer) returns (r: Fetch)
    ensures r == Fetched(parts, service, Ceiling(parts, BATCH_SIZE))
  {
    var urls := new string[parts](_ => "");
    var calls := Ceiling(parts, BATCH_SIZE);
    assert urls[..] == seq(parts, i => "");
    for i := 0 to calls
      invariant Fetched(parts, service, i) == Urls(urls[..])
    {
      var answer := service(1 + i * BATCH_SIZE);
      if answer.Failed? {
        NoWayBack(parts, service, i + 1, calls);
        return Error;
      }
      ghost var before := urls[..];
      for k := 0 to |answer.urls|
        invariant Entered(before, answer.urls[..k]) == Urls(urls[..])
      {
        var (part, url) := answer.urls[k];
        assert answer.urls[..k + 1][..k] == answer.urls[..k];
        if !(1 <= part <= parts) {
          StaysOut(before, answer.urls, k + 1);
          NoWayBack(parts, service, i + 1, calls);
          return OutOfRange;
        }
        urls[part - 1] := url;
      }
      assert answer.urls[..|answer.urls|] == answer.urls;
    }
    r := Urls(urls[..]);
  }

  lemma {:induction false} NoWayBack(parts: nat, service: nat -> Answer, i: nat, n: nat)
    requires i <= n && !Fetched(parts, service, i).Urls?
    ensures Fetched(parts, service, n) == Fetched(parts, service, i)
    decreases n
  {
    if i < n {
      NoWayBack(parts, service, i, n - 1);
    }
  }

  lemma {:induction false} StaysOut(urls: seq<string>, given: seq<(int, string)>, k: nat)
    requires k <= |given| && Entered(urls, given[..k]) == OutOfRange
    ensures Entered(urls, given) == OutOfRange
    decreases |given|
  {
    if k < |given| {
      assert given[..|given| - 1][..k] == given[..k];
      StaysOut(urls, given[..|given| - 1], k);
    } else {
      assert given[..k] == given;
    }
  }

  /** Asked for part p, the service names at least the next 25 parts there are, and only ever gives a part's own URL. */
  ghost predicate Serves(parts: nat, service: nat -> Answer, url: nat -> string) {
    forall p: nat | 1 <= p <= parts :: service(p).Given?
      && (forall k | 0 <= k < |service(p).urls| :: Names(service(p).urls[k], parts, url))
      && forall q | p <= q < p + 25 && q <= parts :: (q, url(q)) in service(p).urls
  }

  ghost predicate Names(entry: (int, string), parts: nat, url: nat -> string) {
    1 <= entry.0 <= parts && entry.1 == url(entry.0)
  }

  lemma {:induction false} EnteredOwn(urls: seq<string>, given: seq<(int, string)>, url: nat -> string)
    requires forall k | 0 <= k < |given| :: Names(given[k], |urls|, url)
    ensures var r := Entered(urls, given);
      && r.Urls? && |r.urls| == |urls|
      && forall k | 0 <= k < |urls| :: r.urls[k] == if (k + 1, url(k + 1)) in given then url(k + 1) else urls[k]
  {
    if given != [] {
      var front, last := given[..|given| - 1], given[|given| - 1];
      EnteredOwn(urls, front, url);
      assert given == front + [last] && Names(last, |urls|, url);
    }
  }

  lemma {:induction false} BatchesCover(parts: nat, service: nat -> Answer, url: nat -> string, n: nat)
    requires Serves(parts, service, url) && n <= Ceiling(parts, BATCH_SIZE)
    ensures var r := Fetched(parts, service, n);
      && r.Urls? && |r.urls| == parts
      && forall k | 0 <= k < parts && k < n * BATCH_SIZE :: r.urls[k] == url(k + 1)
  {
    if n > 0 {
      BatchesCover(parts, service, url, n - 1);
      var p, before := 1 + (n - 1) * BATCH_SIZE, Fetched(parts, service, n - 1);
      CeilingIs(parts, BATCH_SIZE);
      EnteredOwn(before.urls, service(p).urls, url);
      forall k | 0 <= k < |before.urls| && k < n * BATCH_SIZE ensures Fetched(parts, service, n).urls[k] == url(k + 1) {
        if k >= (n - 1) * BATCH_SIZE {
          assert p <= k + 1 < p + BATCH_SIZE;
        }
      }
    }
  }

  /** With such a service every part gets its own URL. */
  lemma EveryPartHasItsUrl(parts: nat, service: nat -> Answer, url: nat -> string)
    requires Serves(parts, service, url)
    ensures Fetched(parts, service, Ceiling(parts, BATCH_SIZE)) == Urls(seq(parts, k requires 0 <= k < parts => url(k + 1)))
  {
    CeilingIs(parts, BATCH_SIZE);
    BatchesCover(parts, service, url, Ceiling(parts, BATCH_SIZE));
  }
}
