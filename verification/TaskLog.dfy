/**
 The task log parser: lines, classified already, add steps to a list or change steps in it. Steps
 are objects the list shares with the table of subtask groups.
 */
module TaskLog {
  import opened Common
  import opened Sums

  datatype Status = Created | Initializing | Running | Success | Failure | Unknown | Abort | Aborted | Skipped

  const ALL_STATUSES: seq<Status> := [Created, Initializing, Running, Success, Failure, Unknown, Abort, Aborted, Skipped]

  predicate InProgress(s: Status) { s in {Created, Initializing, Running, Abort} }

  /** Statuses in which a later line about the task still finds it. */
  predicate Open(s: Status) { s in {Created, Initializing, Running} }

  type Time = Option<int>

  datatype Step = Step(name: string, kind: string, group: Option<string>, status: Status, start: Time, end: Time)

  datatype Event =
    | Locked | Unlocking | Received(request: string)
    | AddGroup(group: string)
    | AddTask(task: string)
    | AboutToExecute(task: string)
    | Finished(task: string, status: Status)   // completed with this state, or skipped
    | Failed(task: string, details: string)
    | GroupFailed(group: string)
    | CompletedIn(task: string, elapsed: nat)
    | Exception(kind: string, text: string)
    | Other

  // ---------- Finding steps ----------

  /** A search may be narrowed to steps that did not start yet, or that are open. */
  datatype Among = NotStarted | StillOpen | Any

  predicate In(among: Among, s: Status) {
    match among
    case NotStarted => s in {Created, Initializing}
    case StillOpen => Open(s)
    case Any => true
  }

  datatype Query = ByType(task: string, among: Among) | ByPrefix(prefix: string, among: Among)

  predicate Matches(q: Query, name: string, kind: string, status: Status) {
    && In(q.among, status)
    && match q
       case ByType(t, _) => kind == t || t <= name
       case ByPrefix(p, _) => p <= name || p <= kind
  }

  predicate Found(q: Query, s: Step) { Matches(q, s.name, s.kind, s.status) }

  /** The position of the most recent match, or -1. */
  function LastMatch(steps: seq<Step>, q: Query): int {
    if steps == [] then -1
    else if Found(q, steps[|steps| - 1]) then |steps| - 1
    else LastMatch(steps[..|steps| - 1], q)
  }

  lemma {:induction false} LastMatchIs(steps: seq<Step>, q: Query)
    ensures -1 <= LastMatch(steps, q) < |steps|
    ensures LastMatch(steps, q) >= 0 ==> Found(q, steps[LastMatch(steps, q)])
    ensures forall j | LastMatch(steps, q) < j < |steps| :: !Found(q, steps[j])
  {
    if steps != [] && !Found(q, steps[|steps| - 1]) {
      LastMatchIs(steps[..|steps| - 1], q);
    }
  }

  // ---------- What each line does ----------

  function Later(t: Time, before: Time): Time { if t.Some? then t else before }

  function Began(s: Step, t: Time): Step { s.(status := Running, start := Later(t, s.start)) }

  function Ended(s: Step, status: Status, t: Time): Step { s.(status := status, end := Later(t, s.end)) }

  function ByElapsed(s: Step, elapsed: nat): Step {
    if s.start.Some? && s.end.None? then
      s.(end := Some(s.start.value + elapsed), status := if InProgress(s.status) then Success else s.status)
    else s
  }

  function FailedAsMember(s: Step, group: string, t: Time): Step {
    if s.group == Some(group) && InProgress(s.status) then Ended(s, Failure, t) else s
  }

  function FailGroup(steps: seq<Step>, group: string, t: Time): seq<Step> {
    seq(|steps|, i requires 0 <= i < |steps| => FailedAsMember(steps[i], group, t))
  }

  function EndLast(steps: seq<Step>, q: Query, status: Status, t: Time): seq<Step> {
    LastMatchIs(steps, q);
    var i := LastMatch(steps, q);
    if i < 0 then steps else steps[i := Ended(steps[i], status, t)]
  }

  function Next(steps: seq<Step>, t: Time, e: Event): seq<Step> {
    match e
    case Locked => steps + [Step("Lock Universe", "LockUniverse", None, Success, t, t)]
    case Unlocking => steps + [Step("Unlock Universe", "UnlockUniverse", None, Success, t, t)]
    case Received(r) => steps + [Step("Received " + r + " request", "RequestReceived", None, Success, t, t)]
    case AddGroup(g) => steps + [Step("SubTaskGroup: " + g, "SubTaskGroup", Some(g), Created, t, None)]
    case AddTask(n) => steps + [Step(n, n, None, Created, t, None)]
    case AboutToExecute(n) =>
      var q := ByType(n, NotStarted);
      LastMatchIs(steps, q);
      var i := LastMatch(steps, q);
      if i < 0 then steps + [Step(n, n, None, Running, t, None)] else steps[i := Began(steps[i], t)]
    case Finished(n, status) => EndLast(steps, ByType(n, StillOpen), status, t)
    case Failed(n, _) => EndLast(steps, ByType(n, StillOpen), Failure, t)
    case GroupFailed(g) => EndLast(FailGroup(steps, g, t), ByPrefix(g, StillOpen), Failure, t)
    case CompletedIn(n, elapsed) =>
      var q := ByPrefix(n, Any);
      LastMatchIs(steps, q);
      var i := LastMatch(steps, q);
      if i < 0 then steps else steps[i := ByElapsed(steps[i], elapsed)]
    case Exception(_, _) => steps
    case Other => steps
  }

  function Start(s: string, n: nat): (r: string)
    ensures r <= s && |r| == if |s| <= n then |s| else n
  {
    if |s| <= n then s else s[..n]
  }

  /** What a line adds to the list of errors. */
  function Reported(e: Event): seq<string> {
    match e
    case Failed(n, details) =>
      ["Task " + n + " failed: " + if details == "" then "Unknown error" else Start(details, 100)]
    case GroupFailed(g) => ["SubTaskGroup " + g + " failed"]
    case Exception(kind, text) => [kind + ": " + Start(text, 100)]
    case _ => []
  }

  function AllReported(lines: seq<(Time, Event)>): seq<string> {
    if lines == [] then [] else AllReported(lines[..|lines| - 1]) + Reported(lines[|lines| - 1].1)
  }

  /** A whole log. */
  function Parsed(steps: seq<Step>, lines: seq<(Time, Event)>): seq<Step> {
    if lines == [] then steps
    else
      var (t, e) := lines[|lines| - 1];
      Next(Parsed(steps, lines[..|lines| - 1]), t, e)
  }

  // ---------- Absorbing statuses ----------

  /** What a line may do to a step: identity stays, and a terminal step keeps status, start and any end it has. */
  ghost predicate Evolves(s: Step, u: Step) {
    && u.name == s.name && u.kind == s.kind && u.group == s.group
    && (s.status in {Success, Failure, Unknown, Aborted, Skipped} ==>
          u.status == s.status && u.start == s.start && (s.end.Some? ==> u.end == s.end))
    && (s.status == Abort && u.status != Abort ==> u.status == Failure || (u.status == Success && u.end.Some?))
  }

  /** Steps are only ever added at the end; those that were there evolve. */
  ghost predicate Grows(before: seq<Step>, after: seq<Step>) {
    |before| <= |after| && forall i | 0 <= i < |before| :: Evolves(before[i], after[i])
  }

  lemma EndLastGrows(steps: seq<Step>, q: Query, status: Status, t: Time)
    requires q.among == StillOpen
    ensures Grows(steps, EndLast(steps, q, status, t)) && |EndLast(steps, q, status, t)| == |steps|
  {
    LastMatchIs(steps, q);
  }

  lemma LineGrows(steps: seq<Step>, t: Time, e: Event)
    ensures Grows(steps, Next(steps, t, e))
  {
    hide LastMatch, EndLast;
    match e {
      case AboutToExecute(n) => LastMatchIs(steps, ByType(n, NotStarted));
      case Finished(n, status) => EndLastGrows(steps, ByType(n, StillOpen), status, t);
      case Failed(n, _) => EndLastGrows(steps, ByType(n, StillOpen), Failure, t);
      case GroupFailed(g) => EndLastGrows(FailGroup(steps, g, t), ByPrefix(g, StillOpen), Failure, t);
      case CompletedIn(n, _) => LastMatchIs(steps, ByPrefix(n, Any));
      case _ =>
    }
  }

  /** Over a whole log, whatever its lines: terminal statuses are absorbing, and their end times final. */
  lemma {:induction false} LogGrows(steps: seq<Step>, lines: seq<(Time, Event)>)
    ensures Grows(steps, Parsed(steps, lines))
  {
    hide Next;
    if lines != [] {
      var (t, e) := lines[|lines| - 1];
      LogGrows(steps, lines[..|lines| - 1]);
      LineGrows(Parsed(steps, lines[..|lines| - 1]), t, e);
    }
  }

  /** A failed group leaves none of its steps in progress. */
  lemma FailedGroupIsOver(steps: seq<Step>, t: Time, g: string, i: nat)
    requires i < |steps| && steps[i].group == Some(g)
    ensures var after := Next(steps, t, GroupFailed(g));
      |after| == |steps| && after[i].status !in {Created, Initializing, Running, Abort}
  {
    LastMatchIs(FailGroup(steps, g, t), ByPrefix(g, StillOpen));
  }

  // ---------- Each line in plain words ----------

  /** The last step with property p. */
  ghost predicate IsLast(steps: seq<Step>, i: nat, p: Step -> bool) {
    i < |steps| && p(steps[i]) && forall j | i < j < |steps| :: !p(steps[j])
  }

  /** The last step with property p is replaced; without one, `otherwise` is appended. */
  ghost predicate LastBecomes(before: seq<Step>, after: seq<Step>, p: Step -> bool, f: Step -> Step, otherwise: seq<Step>) {
    if exists s :: s in before && p(s)
    then exists i: nat :: IsLast(before, i, p) && after == before[i := f(before[i])]
    else after == before + otherwise
  }

  /** Every step of the group that is created, initializing, running or being aborted has failed. */
  ghost function MembersFailed(steps: seq<Step>, group: string, t: Time): seq<Step> {
    seq(|steps|, i requires 0 <= i < |steps| =>
      if steps[i].group == Some(group) && steps[i].status in {Created, Initializing, Running, Abort}
      then steps[i].(status := Failure, end := if t.Some? then t else steps[i].end)
      else steps[i])
  }

  /** What a line says about the list, in terms of names, kinds, groups, statuses and times alone. */
  ghost predicate Says(e: Event, t: Time, before: seq<Step>, after: seq<Step>) {
    match e
    case Locked => after == before + [Step("Lock Universe", "LockUniverse", None, Success, t, t)]
    case Unlocking => after == before + [Step("Unlock Universe", "UnlockUniverse", None, Success, t, t)]
    case Received(r) => after == before + [Step("Received " + r + " request", "RequestReceived", None, Success, t, t)]
    case AddGroup(g) => after == before + [Step("SubTaskGroup: " + g, "SubTaskGroup", Some(g), Created, t, None)]
    case AddTask(n) => after == before + [Step(n, n, None, Created, t, None)]
    case AboutToExecute(n) =>
      LastBecomes(before, after,
        (s: Step) => (s.kind == n || n <= s.name) && (s.status == Created || s.status == Initializing),
        (s: Step) => s.(status := Running, start := if t.Some? then t else s.start),
        [Step(n, n, None, Running, t, None)])
    case Finished(n, x) =>
      LastBecomes(before, after,
        (s: Step) => (s.kind == n || n <= s.name) && s.status in {Created, Initializing, Running},
        (s: Step) => s.(status := x, end := if t.Some? then t else s.end), [])
    case Failed(n, _) =>
      LastBecomes(before, after,
        (s: Step) => (s.kind == n || n <= s.name) && s.status in {Created, Initializing, Running},
        (s: Step) => s.(status := Failure, end := if t.Some? then t else s.end), [])
    case GroupFailed(g) =>
      LastBecomes(MembersFailed(before, g, t), after,
        (s: Step) => (g <= s.name || g <= s.kind) && s.status in {Created, Initializing, Running},
        (s: Step) => s.(status := Failure, end := if t.Some? then t else s.end), [])
    case CompletedIn(n, ms) =>
      LastBecomes(before, after, (s: Step) => n <= s.name || n <= s.kind,
        (s: Step) =>
          if s.start.None? || s.end.Some? then s
          else s.(end := Some(s.start.value + ms),
                  status := if s.status in {Created, Initializing, Running, Abort} then Success else s.status), [])
    case Exception(_, _) => after == before
    case Other => after == before
  }

  lemma LineSays(steps: seq<Step>, t: Time, e: Event)
    ensures Says(e, t, steps, Next(steps, t, e))
  {
    hide Says, Next;
    match e {
      case AboutToExecute(_) => BeginSays(steps, t, e);
      case Finished(_, _) => FinishSays(steps, t, e);
      case Failed(_, _) => FailureSays(steps, t, e);
      case GroupFailed(_) => GroupSays(steps, t, e);
      case CompletedIn(_, _) => ElapsedSays(steps, t, e);
      case _ => OtherSays(steps, t, e);
    }
  }

  lemma BeginSays(steps: seq<Step>, t: Time, e: Event)
    requires e.AboutToExecute?
    ensures Says(e, t, steps, Next(steps, t, e))
  {
    hide LastMatch;
    MatchOrNone(steps, ByType(e.task, NotStarted));
  }

  lemma FinishSays(steps: seq<Step>, t: Time, e: Event)
    requires e.Finished?
    ensures Says(e, t, steps, Next(steps, t, e))
  {
    hide LastMatch;
    MatchOrNone(steps, ByType(e.task, StillOpen));
  }

  lemma FailureSays(steps: seq<Step>, t: Time, e: Event)
    requires e.Failed?
    ensures Says(e, t, steps, Next(steps, t, e))
  {
    hide LastMatch;
    MatchOrNone(steps, ByType(e.task, StillOpen));
  }

  lemma GroupSays(steps: seq<Step>, t: Time, e: Event)
    requires e.GroupFailed?
    ensures Says(e, t, steps, Next(steps, t, e))
  {
    hide LastMatch, FailGroup, MembersFailed;
    SameMembers(steps, e.group, t);
    MatchOrNone(FailGroup(steps, e.group, t), ByPrefix(e.group, StillOpen));
  }

  lemma SameMembers(steps: seq<Step>, group: string, t: Time)
    ensures FailGroup(steps, group, t) == MembersFailed(steps, group, t)
  {}

  lemma ElapsedSays(steps: seq<Step>, t: Time, e: Event)
    requires e.CompletedIn?
    ensures Says(e, t, steps, Next(steps, t, e))
  {
    hide LastMatch;
    MatchOrNone(steps, ByPrefix(e.task, Any));
  }

  lemma OtherSays(steps: seq<Step>, t: Time, e: Event)
    requires !e.AboutToExecute? && !e.Finished? && !e.Failed? && !e.GroupFailed? && !e.CompletedIn?
    ensures Says(e, t, steps, Next(steps, t, e))
  {}

  lemma MatchOrNone(steps: seq<Step>, q: Query)
    ensures var i := LastMatch(steps, q);
      && -1 <= i < |steps|
      && (if i < 0 then forall s | s in steps :: !Found(q, s)
          else steps[i] in steps && Found(q, steps[i]) && forall j | i < j < |steps| :: !Found(q, steps[j]))
  {
    LastMatchIs(steps, q);
  }

  /** A task that is added, begun and finished ends as one step with the status and time of its last line. */
  lemma TaskLifeCycle(steps: seq<Step>, n: string, x: Status, a: Time, b: Time, c: Time)
    ensures Parsed(steps, [(a, AddTask(n)), (b, AboutToExecute(n)), (c, Finished(n, x))])
      == steps + [Step(n, n, None, x, if b.Some? then b else a, c)]
  {
    var lines := [(a, AddTask(n)), (b, AboutToExecute(n)), (c, Finished(n, x))];
    assert lines[..2][..1] == lines[..1] && lines[..1][..0] == [];
    assert Parsed(steps, lines[..1]) == steps + [Step(n, n, None, Created, a, None)];
    assert Parsed(steps, lines[..2]) == steps + [Step(n, n, None, Running, if b.Some? then b else a, None)];
  }

  // ---------- The parser over shared objects ----------

  class TaskStep {
    const name: string
    const kind: string
    const group: Option<string>
    var status: Status
    var start: Time
    var end: Time

    constructor (s: Step)
      ensures Data() == s
    {
      name, kind, group := s.name, s.kind, s.group;
      status, start, end := s.status, s.start, s.end;
    }

    function Data(): Step reads this { Step(name, kind, group, status, start, end) }

    method End(status: Status, t: Time)
      modifies this
      ensures Data() == Ended(old(Data()), status, t)
    {
      this.status := status;
      if t.Some? {
        end := t;
      }
    }
  }

  function Members(steps: seq<TaskStep>, group: string): seq<TaskStep> {
    if steps == [] then []
    else
      var last := steps[|steps| - 1];
      Members(steps[..|steps| - 1], group) + if last.group == Some(group) then [last] else []
  }

  lemma MembersStep(steps: seq<TaskStep>, s: TaskStep, g: string)
    ensures Members(steps + [s], g) == Members(steps, g) + if s.group == Some(g) then [s] else []
  {
    assert (steps + [s])[..|steps|] == steps;
  }

  lemma DistinctStep(steps: seq<TaskStep>, s: TaskStep)
    requires Distinct(steps) && s !in steps
    ensures Distinct(steps + [s])
  {}

  lemma {:induction false} MembersAre(steps: seq<TaskStep>, g: string)
    ensures forall s :: s in Members(steps, g) <==> s in steps && s.group == Some(g)
  {
    if steps != [] {
      MembersAre(steps[..|steps| - 1], g);
      assert steps == steps[..|steps| - 1] + [steps[|steps| - 1]];
    }
  }

  lemma OnlyAt(before: seq<Step>, after: seq<Step>, i: nat, data: Step)
    requires i < |before| == |after| && after[i] == data
    requires forall j | 0 <= j < |before| && j != i :: after[j] == before[j]
    ensures after == before[i := data]
  {}

  class YBALogParser {
    var steps: seq<TaskStep>
    var groups: map<string, seq<TaskStep>>
    var errors: seq<string>

    /** The steps are different objects, and each group's list is exactly its steps, in order. */
    ghost predicate Valid() reads this {
      Distinct(steps) && forall g: string :: (if g in groups then groups[g] else []) == Members(steps, g)
    }

    ghost function View(): seq<Step> reads this, steps {
      seq(|steps|, i requires 0 <= i < |steps| reads this, steps => steps[i].Data())
    }

    constructor ()
      ensures Valid() && steps == [] && errors == []
    {
      steps, groups, errors := [], map[], [];
    }

    /** The most recent step that matches, by its position. */
    method Find(q: Query) returns (i: int)
      requires Valid()
      ensures -1 <= i < |steps| && i == LastMatch(View(), q)
    {
      i := |steps| - 1;
      assert View()[..i + 1] == View();
      while i >= 0 && !Matches(q, steps[i].name, steps[i].kind, steps[i].status)
        invariant -1 <= i < |steps| && LastMatch(View(), q) == LastMatch(View()[..i + 1], q)
      {
        assert View()[..i + 1][..i] == View()[..i];
        i := i - 1;
      }
    }

    method Append(data: Step)
      requires Valid()
      modifies this`steps, this`groups
      ensures Valid() && View() == old(View()) + [data] && old(steps) <= steps
      ensures forall s | s in steps :: s in old(steps) || fresh(s)
    {
      hide Members, Distinct;
      var step := new TaskStep(data);
      DistinctStep(steps, step);
      forall g: string ensures Members(steps + [step], g) == Members(steps, g) + if data.group == Some(g) then [step] else [] {
        MembersStep(steps, step, g);
      }
      steps := steps + [step];
      match data.group
      case None =>
      case Some(g) => groups := groups[g := (if g in groups then groups[g] else []) + [step]];
    }

    /** Fails the members of the group that are still in progress, one by one. */
    method FailMembers(group: string, t: Time)
      requires Valid()
      modifies steps
      ensures Valid() && View() == FailGroup(old(View()), group, t)
    {
      hide Members, Distinct;
      MembersAre(steps, group);
      if group !in groups {
        assert forall i | 0 <= i < |steps| :: steps[i].group != Some(group);
        assert View() == FailGroup(View(), group, t);
        return;
      }
      var members := groups[group];
      ghost var before := View();
      for k := 0 to |members|
        invariant forall i | 0 <= i < |steps| ::
          steps[i].Data() == if steps[i] in members[..k] then FailedAsMember(before[i], group, t) else before[i]
      {
        var step := members[k];
        assert step in steps && step.group == Some(group);
        if InProgress(step.status) {
          step.End(Failure, t);
        }
        assert members[..k + 1] == members[..k] + [step];
      }
    }

    method Begin(task: string, t: Time)
      requires Valid()
      modifies this`steps, this`groups, steps
      ensures Valid() && View() == Next(old(View()), t, AboutToExecute(task)) && old(steps) <= steps
      ensures forall s | s in steps :: s in old(steps) || fresh(s)
    {
      var i := Find(ByType(task, NotStarted));
      if i < 0 {
        Append(Step(task, task, None, Running, t, None));
      } else {
        var step := steps[i];
        step.status := Running;
        if t.Some? {
          step.start := t;
        }
        OnlyAt(old(View()), View(), i, Began(old(View())[i], t));
      }
    }

    method Finish(q: Query, status: Status, t: Time)
      requires Valid()
      modifies steps
      ensures Valid() && View() == EndLast(old(View()), q, status, t)
    {
      var i := Find(q);
      if i >= 0 {
        steps[i].End(status, t);
        OnlyAt(old(View()), View(), i, Ended(old(View())[i], status, t));
      }
    }

    method FinishByElapsed(task: string, elapsed: nat)
      requires Valid()
      modifies steps
      ensures Valid() && View() == Next(old(View()), None, CompletedIn(task, elapsed))
    {
      hide Members, Matches;
      var i := Find(ByPrefix(task, Any));
      if i >= 0 && steps[i].start.Some? && steps[i].end.None? {
        var step := steps[i];
        step.end := Some(step.start.value + elapsed);
        if InProgress(step.status) {
          step.status := Success;
        }
        OnlyAt(old(View()), View(), i, ByElapsed(old(View())[i], elapsed));
      }
    }

    method ParseLine(t: Time, e: Event)
      requires Valid()
      modifies this, steps
      ensures Valid() && View() == Next(old(View()), t, e) && old(steps) <= steps
      ensures Says(e, t, old(View()), View())
      ensures errors == old(errors) + Reported(e)
      ensures forall s | s in steps :: s in old(steps) || fresh(s)
    {
      hide Says;
      LineSays(View(), t, e);
      match e {
        case Locked => Append(Step("Lock Universe", "LockUniverse", None, Success, t, t));
        case Unlocking => Append(Step("Unlock Universe", "UnlockUniverse", None, Success, t, t));
        case Received(r) => Append(Step("Received " + r + " request", "RequestReceived", None, Success, t, t));
        case AddGroup(g) => Append(Step("SubTaskGroup: " + g, "SubTaskGroup", Some(g), Created, t, None));
        case AddTask(n) => Append(Step(n, n, None, Created, t, None));
        case AboutToExecute(n) => Begin(n, t);
        case Finished(n, status) => Finish(ByType(n, StillOpen), status, t);
        case Failed(n, details) =>
          Finish(ByType(n, StillOpen), Failure, t);
          errors := errors + ["Task " + n + " failed: " + (if details != "" then Start(details, 100) else "Unknown error")];
        case GroupFailed(g) =>
          FailMembers(g, t);
          Finish(ByPrefix(g, StillOpen), Failure, t);
          errors := errors + ["SubTaskGroup " + g + " failed"];
        case CompletedIn(n, elapsed) => FinishByElapsed(n, elapsed);
        case Exception(kind, text) => errors := errors + [kind + ": " + Start(text, 100)];
        case Other =>
      }
    }

    /** A whole log, line by line. */
    method Parse(lines: seq<(Time, Event)>)
      requires Valid()
      modifies this, steps
      ensures Valid() && View() == Parsed(old(View()), lines) && old(steps) <= steps
      ensures errors == old(errors) + AllReported(lines)
    {
      hide Next, Valid;
      for k := 0 to |lines|
        invariant Valid() && View() == Parsed(old(View()), lines[..k]) && old(steps) <= steps
        invariant errors == old(errors) + AllReported(lines[..k])
        invariant forall s | s in steps :: s in old(steps) || fresh(s)
      {
        assert lines[..k + 1][..k] == lines[..k];
        assert forall i | 0 <= i < |steps| :: steps[i] in old(steps) || fresh(steps[i]);
        ParseLine(lines[k].0, lines[k].1);
      }
      assert lines[..|lines|] == lines;
    }

    /** How many steps have each status, how long the finished ones took, how many task types there are, and the errors. */
    method GetSummary() returns (total: nat, byStatus: map<Status, nat>, duration: int, taskTypes: nat,
        reported: seq<string>)
      requires Valid()
      ensures total == |steps| && duration == TotalDuration(View())
      ensures taskTypes == |set s | s in View() :: s.kind| && reported == errors
      ensures forall x :: (if x in byStatus then byStatus[x] else 0) == WithStatus(View(), x)
      ensures forall x | x in byStatus :: byStatus[x] > 0
    {
      hide WithStatus, TotalDuration, Members, Distinct;
      NothingToSum();
      total, byStatus, duration, reported := |steps|, map[], 0, errors;
      var types: set<string> := {};
      for i := 0 to |steps|
        invariant forall x :: (if x in byStatus then byStatus[x] else 0) == WithStatus(View()[..i], x)
        invariant forall x | x in byStatus :: byStatus[x] > 0
        invariant duration == TotalDuration(View()[..i])
        invariant types == set s | s in View()[..i] :: s.kind
      {
        SummaryStep(View(), i);
        types := types + {steps[i].kind};
        var status := steps[i].status;
        byStatus := byStatus[status := (if status in byStatus then byStatus[status] else 0) + 1];
        if steps[i].start.Some? && steps[i].end.Some? {
          duration := duration + steps[i].end.value - steps[i].start.value;
        }
      }
      assert View()[..|steps|] == View();
      taskTypes := |types|;
    }
  }

  function WithStatus(steps: seq<Step>, x: Status): nat {
    if steps == [] then 0
    else WithStatus(steps[..|steps| - 1], x) + if steps[|steps| - 1].status == x then 1 else 0
  }

  function TotalDuration(steps: seq<Step>): int {
    if steps == [] then 0
    else
      var s := steps[|steps| - 1];
      TotalDuration(steps[..|steps| - 1]) + if s.start.Some? && s.end.Some? then s.end.value - s.start.value else 0
  }

  lemma NothingToSum()
    ensures (forall x :: WithStatus([], x) == 0) && TotalDuration([]) == 0
  {}

  lemma SummaryStep(steps: seq<Step>, i: nat)
    requires i < |steps|
    ensures forall x :: WithStatus(steps[..i + 1], x) == WithStatus(steps[..i], x) + if steps[i].status == x then 1 else 0
    ensures TotalDuration(steps[..i + 1]) == TotalDuration(steps[..i])
      + if steps[i].start.Some? && steps[i].end.Some? then steps[i].end.value - steps[i].start.value else 0
    ensures (set s | s in steps[..i + 1] :: s.kind) == (set s | s in steps[..i] :: s.kind) + {steps[i].kind}
  {
    assert steps[..i + 1][..i] == steps[..i];
    assert steps[..i + 1] == steps[..i] + [steps[i]];
  }

  /** The counts by status add up to the number of steps. */
  lemma {:induction false} StatusesAddUp(steps: seq<Step>)
    ensures Sum(ALL_STATUSES, x => WithStatus(steps, x)) == |steps|
  {
    hide WithStatus, Sum;
    if steps == [] {
      NoStatuses();
    } else {
      var front, last := steps[..|steps| - 1], steps[|steps| - 1];
      StatusesAddUp(front);
      forall x ensures WithStatus(steps, x) == WithStatus(front, x) + if last.status == x then 1 else 0 {
        OneMoreStatus(steps, x);
      }
      OneStatusMore(x => WithStatus(front, x), x => WithStatus(steps, x), last.status);
    }
  }

  lemma OneMoreStatus(steps: seq<Step>, x: Status)
    requires steps != []
    ensures WithStatus(steps, x)
      == WithStatus(steps[..|steps| - 1], x) + if steps[|steps| - 1].status == x then 1 else 0
  {}

  lemma NoStatuses()
    ensures Sum(ALL_STATUSES, x => WithStatus([], x)) == 0
  {
    SumSame(ALL_STATUSES, x => WithStatus([], x), x => 0);
  }

  lemma OneStatusMore(f: Status -> int, g: Status -> int, x: Status)
    requires forall y :: g(y) == f(y) + if x == y then 1 else 0
    ensures Sum(ALL_STATUSES, g) == Sum(ALL_STATUSES, f) + 1
  {
    hide Sum;
    assert x in ALL_STATUSES by {
      assert ALL_STATUSES[0] == Created && ALL_STATUSES[1] == Initializing && ALL_STATUSES[2] == Running;
      assert ALL_STATUSES[3] == Success && ALL_STATUSES[4] == Failure && ALL_STATUSES[5] == Unknown;
      assert ALL_STATUSES[6] == Abort && ALL_STATUSES[7] == Aborted && ALL_STATUSES[8] == Skipped;
    }
    SumChangedAt(ALL_STATUSES, f, g, x);
  }
}
