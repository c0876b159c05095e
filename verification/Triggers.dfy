/** What wakes the subagents: events, and an hourly timer (`main/triggers.py`). */
module Triggers {
  import opened Options
  import opened Store

  /** Times are in microseconds. */
  const MINUTE := 60000000
  const HOUR := 60 * MINUTE
  const PERIODIC_TICK := HOUR

  datatype Trigger = Event(event: string, task: Option<string>) | Periodic(task: Option<string>) | Other

  /** A stored run, as far as the guards read it; a run over its budget is stored with no route. */
  datatype Ran = Ran(team: string, meeting: Option<string>, route: Option<string>, outcome: RunOutcome, at: int,
                     trigger: Trigger)

  /** How a woken run ends: its outcome, and when it is stored; `leaks` is a failure that is a privacy violation. */
  datatype End = End(outcome: RunOutcome, at: int, leaks: bool)

  /** The names of the subagents whose started runs hit a privacy guard. */
  type Violations = seq<string>

  /** What a sweep over subagents has done so far: the runs stored, and the violations to raise at the end. */
  datatype Sweep = Sweep(runs: seq<Ran>, violations: Violations)

  /** A task id is stored when there is one. */
  function TaskKept(task: Option<string>): Option<string> { if task.Some? && task.value != "" then task else None }

  /** The row a woken run leaves. */
  function RowOf(team: string, meeting: Option<string>, route: string, trigger: Trigger, end: End): Ran {
    var kept := if end.outcome.BudgetExceeded? || end.outcome.Unrouted? then None else Some(route);
    Ran(team, meeting, kept, end.outcome, end.at, trigger)
  }

  predicate Counts(r: Ran) { !r.outcome.RunFailed? }

  // ---- The timer ----------------------------------------------------------------------------------------

  function Every(hours: nat): int { hours * HOUR }

  /** The run keeps a tick at `now` from starting another of its kind. */
  predicate Holds(r: Ran, team: string, route: string, since: int) {
    r.team == team && r.meeting.None? && r.route == Some(route) && Counts(r) && r.at >= since && r.trigger.Periodic?
  }

  /** `_ran_periodically`. */
  predicate RanPeriodically(runs: seq<Ran>, team: string, route: string, since: int) {
    exists i | 0 <= i < |runs| :: Holds(runs[i], team, route, since)
  }

  function Since(now: int, hours: nat): int { now - Every(hours) + PERIODIC_TICK / 2 }

  /** A woken run is stored, and its privacy violation kept. */
  function Started(sweep: Sweep, row: Ran, route: string, end: End): Sweep {
    Sweep(sweep.runs + [row],
          if end.outcome.RunFailed? && end.leaks then sweep.violations + [route] else sweep.violations)
  }

  /** What a tick does for one team and one subagent. */
  function Ticked(sweep: Sweep, now: int, team: string, sub: Timed, task: Option<string>, end: End): Sweep {
    if RanPeriodically(sweep.runs, team, sub.name, Since(now, sub.hours)) then sweep
    else Started(sweep, RowOf(team, None, sub.name, Periodic(TaskKept(task)), end), sub.name, end)
  }

  /** A subagent and its period. */
  datatype Timed = Timed(name: string, hours: nat)

  function TickedAll(sweep: Sweep, now: int, team: string, subs: seq<Timed>, task: Option<string>, ends: seq<End>,
                     n: nat): Sweep
    requires n <= |subs| == |ends|
  {
    if n == 0 then sweep
    else Ticked(TickedAll(sweep, now, team, subs, task, ends, n - 1), now, team, subs[n - 1], task, ends[n - 1])
  }

  function TickedTeams(sweep: Sweep, now: int, teams: seq<string>, subs: seq<Timed>, task: Option<string>,
                       ends: seq<seq<End>>, n: nat): Sweep
    requires n <= |teams| == |ends| && forall i | 0 <= i < |ends| :: |ends[i]| == |subs|
  {
    if n == 0 then sweep
    else
      var before := TickedTeams(sweep, now, teams, subs, task, ends, n - 1);
      TickedAll(before, now, teams[n - 1], subs, task, ends[n - 1], |subs|)
  }

  // ---- Events -------------------------------------------------------------------------------------------

  predicate Blocks(r: Ran, event: string, meeting: string, route: string, task: Option<string>) {
    r.meeting == Some(meeting) && r.route == Some(route) && Counts(r) &&
    if task.Some? then (r.trigger.Event? || r.trigger.Periodic?) && r.trigger.task == task
    else r.trigger.Event? && r.trigger.event == event
  }

  /** `_already_ran`. */
  predicate AlreadyRan(runs: seq<Ran>, event: string, meeting: string, route: string, task: Option<string>) {
    exists i | 0 <= i < |runs| :: Blocks(runs[i], event, meeting, route, task)
  }

  /** The meeting an event is about, and its team. */
  datatype About = About(team: string, meeting: string)

  function Woken(sweep: Sweep, event: string, about: About, route: string, task: Option<string>, end: End): Sweep {
    if AlreadyRan(sweep.runs, event, about.meeting, route, task) then sweep
    else Started(sweep, RowOf(about.team, Some(about.meeting), route, Event(event, TaskKept(task)), end), route, end)
  }

  function WokenAll(sweep: Sweep, event: string, about: About, subs: seq<string>, task: Option<string>, ends: seq<End>,
                    n: nat): Sweep
    requires n <= |subs| == |ends|
  {
    if n == 0 then sweep
    else Woken(WokenAll(sweep, event, about, subs, task, ends, n - 1), event, about, subs[n - 1], task, ends[n - 1])
  }

  class Waker {
    var runs: seq<Ran>

    constructor ()
      ensures runs == []
    {
      runs := [];
    }

    /** `on_tick`; `ends[i][j]` is how the run of `subs[j]` for `teams[i]` ends if it is started. */
    method OnTick(now: int, teams: seq<string>, subs: seq<Timed>, task: Option<string>, ends: seq<seq<End>>)
      returns (violations: Violations)
      requires |teams| == |ends| && forall i | 0 <= i < |ends| :: |ends[i]| == |subs|
      modifies this
      ensures Sweep(runs, violations) == TickedTeams(Sweep(old(runs), []), now, teams, subs, task, ends, |teams|)
    {
      hide RanPeriodically, RowOf, TaskKept;
      violations := [];
      for i := 0 to |teams|
        invariant Sweep(runs, violations) == TickedTeams(Sweep(old(runs), []), now, teams, subs, task, ends, i)
      {
        ghost var before := Sweep(runs, violations);
        for j := 0 to |subs|
          invariant Sweep(runs, violations) == TickedAll(before, now, teams[i], subs, task, ends[i], j)
        {
          var sub, end := subs[j], ends[i][j];
          var since := now - Every(sub.hours) + PERIODIC_TICK / 2;
          if RanPeriodically(runs, teams[i], sub.name, since) { continue; }
          runs := runs + [RowOf(teams[i], None, sub.name, Periodic(TaskKept(task)), end)];
          if end.outcome.RunFailed? && end.leaks { violations := violations + [sub.name]; }
        }
      }
    }

    /** `on_event` for a meeting that is there; `woken` are the subagents that asked for the event. */
    method OnEvent(event: string, about: About, woken: seq<string>, task: Option<string>, ends: seq<End>)
      returns (violations: Violations)
      requires |woken| == |ends|
      modifies this
      ensures Sweep(runs, violations) == WokenAll(Sweep(old(runs), []), event, about, woken, task, ends, |woken|)
    {
      violations := [];
      for j := 0 to |woken|
        invariant Sweep(runs, violations) == WokenAll(Sweep(old(runs), []), event, about, woken, task, ends, j)
      {
        if AlreadyRan(runs, event, about.meeting, woken[j], task) { continue; }
        runs := runs + [RowOf(about.team, Some(about.meeting), woken[j], Event(event, TaskKept(task)), ends[j])];
        if ends[j].outcome.RunFailed? && ends[j].leaks { violations := violations + [woken[j]]; }
      }
    }
  }

  // ---- When a run is started ----------------------------------------------------------------------------

  /** What a started run leaves: a row of the team and the meeting, of its route when it has one to store, and its
      violation when it hit a privacy guard. */
  ghost predicate Leaves(before: Sweep, after: Sweep, team: string, meeting: Option<string>, route: string, end: End) {
    && |after.runs| == |before.runs| + 1 && after.runs[..|before.runs|] == before.runs
    && var row := after.runs[|before.runs|];
    && row.team == team && row.meeting == meeting && row.outcome == end.outcome && row.at == end.at
    && (row.route == if end.outcome == Answered || end.outcome == RunFailed then Some(route) else None)
    && after.violations == before.violations + if end.outcome == RunFailed && end.leaks then [route] else []
  }

  /** For one team and subagent a tick starts a run exactly when no run of theirs that the timer started, about no
      meeting, stored at the tick's time less the period plus half an hour or later, has not failed; the run it
      starts is one of the timer's. */
  lemma TickStartsExactly(sweep: Sweep, now: int, team: string, sub: Timed, task: Option<string>, end: End)
    ensures var after := Ticked(sweep, now, team, sub, task, end);
      if exists r :: r in sweep.runs && r.team == team && r.meeting == None && r.route == Some(sub.name)
                     && r.outcome != RunFailed && r.trigger.Periodic?
                     && r.at >= now - sub.hours * 3600000000 + 1800000000
      then after == sweep
      else Leaves(sweep, after, team, None, sub.name, end) && after.runs[|sweep.runs|].trigger.Periodic?
  {
    var since := Since(now, sub.hours);
    if i :| 0 <= i < |sweep.runs| && Holds(sweep.runs[i], team, sub.name, since) { assert sweep.runs[i] in sweep.runs; }
    if r :| r in sweep.runs && Holds(r, team, sub.name, since) {
      var i :| 0 <= i < |sweep.runs| && sweep.runs[i] == r;
    }
  }

  /** A delivery starts a woken subagent exactly when none of its runs about the meeting that has not failed was
      started by the same task, or, when the delivery has no task id, by the same event; the run carries the event
      and the id. */
  lemma DeliveryStartsExactly(sweep: Sweep, event: string, about: About, route: string, task: Option<string>, end: End)
    ensures var after := Woken(sweep, event, about, route, task, end);
      if exists r :: r in sweep.runs && r.meeting == Some(about.meeting) && r.route == Some(route)
                     && r.outcome != RunFailed
                     && StartedBy(r.trigger, event, task)
      then after == sweep
      else Leaves(sweep, after, about.team, Some(about.meeting), route, end)
           && after.runs[|sweep.runs|].trigger == Event(event, if task == Some("") then None else task)
  {
    if i :| 0 <= i < |sweep.runs| && Blocks(sweep.runs[i], event, about.meeting, route, task) {
      assert sweep.runs[i] in sweep.runs;
    }
    if r :| r in sweep.runs && Blocks(r, event, about.meeting, route, task) {
      var i :| 0 <= i < |sweep.runs| && sweep.runs[i] == r;
    }
  }

  /** The same task, of an event or of the timer; without a task id, the same event. */
  ghost predicate StartedBy(trigger: Trigger, event: string, task: Option<string>) {
    if task == None then exists its :: trigger == Event(event, its)
    else trigger == Periodic(task) || exists other :: trigger == Event(other, task)
  }

  // ---- Histories ----------------------------------------------------------------------------------------

  /** What stores runs: the timer, a delivered event, or anyone else. */
  datatype Stir =
    | Ticks(now: int, teams: seq<string>, subs: seq<Timed>, task: Option<string>, timed: seq<seq<End>>)
    | Delivery(event: string, about: About, woken: seq<string>, task: Option<string>, ends: seq<End>)
    | Asked(row: Ran)

  predicate WellFormed(stir: Stir) {
    match stir
    case Ticks(_, teams, subs, _, timed) => |timed| == |teams| && forall i | 0 <= i < |timed| :: |timed[i]| == |subs|
    case Delivery(_, _, woken, _, ends) => |ends| == |woken|
    case Asked(row) => row.trigger.Other?
  }

  /** The stored runs after one stir, the timer's as `OnTick` leaves them and an event's as `OnEvent` does. */
  function After(runs: seq<Ran>, stir: Stir): seq<Ran>
    requires WellFormed(stir)
  {
    match stir
    case Ticks(now, teams, subs, task, timed) =>
      TickedTeams(Sweep(runs, []), now, teams, subs, task, timed, |teams|).runs
    case Delivery(event, about, woken, task, ends) =>
      WokenAll(Sweep(runs, []), event, about, woken, task, ends, |woken|).runs
    case Asked(row) => runs + [row]
  }

  /** The stored runs after the first `n` stirs, from none. */
  function History(stirs: seq<Stir>, n: nat): seq<Ran>
    requires n <= |stirs| && forall k | 0 <= k < |stirs| :: WellFormed(stirs[k])
  {
    if n == 0 then [] else After(History(stirs, n - 1), stirs[n - 1])
  }

  // ---- How far apart periodic runs are ------------------------------------------------------------------

  /** An answered run the timer started. */
  predicate IsPeriodic(r: Ran) { r.trigger.Periodic? && r.meeting.None? && r.outcome.Answered? && r.route.Some? }

  ghost predicate FarApart(runs: seq<Ran>, hours: map<string, nat>, i: int, j: int)
    requires 0 <= i < j < |runs|
  {
    IsPeriodic(runs[i]) && IsPeriodic(runs[j]) && runs[i].team == runs[j].team && runs[i].route == runs[j].route
    && runs[i].route.value in hours
    ==> runs[j].at - runs[i].at > Every(hours[runs[i].route.value]) - PERIODIC_TICK / 2
  }

  /** Any two answered periodic runs of one subagent for one team are more than its period less half a tick apart. */
  ghost predicate Spaced(runs: seq<Ran>, hours: map<string, nat>) {
    forall i, j | 0 <= i < j < |runs| :: FarApart(runs, hours, i, j)
  }

  /** A run is stored no sooner than the tick that started it. */
  lemma TickKeepsSpacing(sweep: Sweep, hours: map<string, nat>, now: int, team: string, sub: Timed,
                         task: Option<string>, end: End)
    requires Spaced(sweep.runs, hours) && sub.name in hours && hours[sub.name] == sub.hours && end.at >= now
    ensures Spaced(Ticked(sweep, now, team, sub, task, end).runs, hours)
  {
    var runs, after := sweep.runs, Ticked(sweep, now, team, sub, task, end).runs;
    forall i, j | 0 <= i < j < |after| ensures FarApart(after, hours, i, j) {
      if j < |runs| {
        assert FarApart(runs, hours, i, j);
      } else {
        assert !Holds(runs[i], team, sub.name, Since(now, sub.hours));
      }
    }
  }

  lemma {:induction false} TicksKeepSpacing(sweep: Sweep, hours: map<string, nat>, now: int, team: string,
                                            subs: seq<Timed>, task: Option<string>, ends: seq<End>, n: nat)
    requires Spaced(sweep.runs, hours) && n <= |subs| == |ends|
    requires forall j | 0 <= j < |subs| ::
      subs[j].name in hours && hours[subs[j].name] == subs[j].hours && ends[j].at >= now
    ensures Spaced(TickedAll(sweep, now, team, subs, task, ends, n).runs, hours)
  {
    if n > 0 {
      TicksKeepSpacing(sweep, hours, now, team, subs, task, ends, n - 1);
      TickKeepsSpacing(TickedAll(sweep, now, team, subs, task, ends, n - 1), hours, now, team, subs[n - 1], task,
                       ends[n - 1]);
    }
  }

  lemma {:induction false} TeamsKeepSpacing(sweep: Sweep, hours: map<string, nat>, now: int, teams: seq<string>,
                                            subs: seq<Timed>, task: Option<string>, ends: seq<seq<End>>, n: nat)
    requires Spaced(sweep.runs, hours) && n <= |teams| == |ends| && forall i | 0 <= i < |ends| :: |ends[i]| == |subs|
    requires forall j | 0 <= j < |subs| :: subs[j].name in hours && hours[subs[j].name] == subs[j].hours
    requires forall i, j | 0 <= i < |ends| && 0 <= j < |subs| :: ends[i][j].at >= now
    ensures Spaced(TickedTeams(sweep, now, teams, subs, task, ends, n).runs, hours)
  {
    if n > 0 {
      TeamsKeepSpacing(sweep, hours, now, teams, subs, task, ends, n - 1);
      TicksKeepSpacing(TickedTeams(sweep, now, teams, subs, task, ends, n - 1), hours, now, teams[n - 1], subs, task,
                       ends[n - 1], |subs|);
    }
  }

  /** A run the timer did not start does not count. */
  lemma OthersKeepSpacing(runs: seq<Ran>, row: Ran, hours: map<string, nat>)
    requires Spaced(runs, hours) && !row.trigger.Periodic?
    ensures Spaced(runs + [row], hours)
  {
    var after := runs + [row];
    forall i, j | 0 <= i < j < |after| ensures FarApart(after, hours, i, j) {
      if j < |runs| { assert FarApart(runs, hours, i, j); }
    }
  }

  lemma {:induction false} EventsKeepSpacing(sweep: Sweep, hours: map<string, nat>, event: string, about: About,
                                             woken: seq<string>, task: Option<string>, ends: seq<End>, n: nat)
    requires Spaced(sweep.runs, hours) && n <= |woken| == |ends|
    ensures Spaced(WokenAll(sweep, event, about, woken, task, ends, n).runs, hours)
  {
    if n > 0 {
      EventsKeepSpacing(sweep, hours, event, about, woken, task, ends, n - 1);
      OthersKeepSpacing(WokenAll(sweep, event, about, woken, task, ends, n - 1).runs,
                        RowOf(about.team, Some(about.meeting), woken[n - 1], Event(event, TaskKept(task)),
                              ends[n - 1]), hours);
    }
  }

  /** A tick knows its subagents' periods, and what it starts is stored no sooner than it came. */
  predicate Punctual(stir: Stir, hours: map<string, nat>)
    requires WellFormed(stir)
  {
    stir.Ticks? ==>
      && (forall j | 0 <= j < |stir.subs| ::
          stir.subs[j].name in hours && hours[stir.subs[j].name] == stir.subs[j].hours)
      && (forall i, j | 0 <= i < |stir.timed| && 0 <= j < |stir.subs| :: stir.timed[i][j].at >= stir.now)
  }

  /** Whatever ticks come, late, early or twice, and whatever events and questions come between them, any two answered
      periodic runs of one subagent for one team are more than its period less half a tick apart. */
  lemma {:induction false} PeriodicRunsStayApart(stirs: seq<Stir>, hours: map<string, nat>, n: nat)
    requires n <= |stirs| && forall k | 0 <= k < |stirs| :: WellFormed(stirs[k])
    requires forall k | 0 <= k < |stirs| :: Punctual(stirs[k], hours)
    ensures Spaced(History(stirs, n), hours)
  {
    if n > 0 {
      PeriodicRunsStayApart(stirs, hours, n - 1);
      var runs := History(stirs, n - 1);
      match stirs[n - 1]
      case Ticks(now, teams, subs, task, timed) =>
        TeamsKeepSpacing(Sweep(runs, []), hours, now, teams, subs, task, timed, |teams|);
      case Delivery(event, about, woken, task, ends) =>
        EventsKeepSpacing(Sweep(runs, []), hours, event, about, woken, task, ends, |woken|);
      case Asked(row) => OthersKeepSpacing(runs, row, hours);
    }
  }

  // ---- One team and one subagent ------------------------------------------------------------------------

  /** The run is one the guard of this team and subagent looks at. */
  predicate Concerns(r: Ran, team: string, route: string) {
    r.team == team && r.route == Some(route) && r.meeting.None? && r.trigger.Periodic?
  }

  function Of(runs: seq<Ran>, team: string, route: string): seq<Ran> {
    if runs == [] then []
    else
      Of(runs[..|runs| - 1], team, route) +
      if Concerns(runs[|runs| - 1], team, route) then [runs[|runs| - 1]] else []
  }

  lemma OfSnoc(runs: seq<Ran>, r: Ran, team: string, route: string)
    ensures Of(runs + [r], team, route) == Of(runs, team, route) + if Concerns(r, team, route) then [r] else []
  {
    assert (runs + [r])[..|runs|] == runs;
  }

  /** The guard sees no more of the stored runs than those. */
  lemma {:induction false} GuardSeesOwn(runs: seq<Ran>, team: string, route: string, since: int)
    ensures RanPeriodically(runs, team, route, since) <==> RanPeriodically(Of(runs, team, route), team, route, since)
  {
    if runs != [] {
      var n := |runs| - 1;
      var front, own := runs[..n], Of(runs[..n], team, route);
      GuardSeesOwn(front, team, route, since);
      RanSnoc(front, runs[n], team, route, since);
      RanSnoc(own, runs[n], team, route, since);
      assert front + [runs[n]] == runs && own + [] == own;
    }
  }

  lemma RanSnoc(runs: seq<Ran>, r: Ran, team: string, route: string, since: int)
    ensures RanPeriodically(runs + [r], team, route, since) <==>
      RanPeriodically(runs, team, route, since) || Holds(r, team, route, since)
  {
    var more := runs + [r];
    if i :| 0 <= i < |runs| && Holds(runs[i], team, route, since) { assert Holds(more[i], team, route, since); }
    if i :| 0 <= i < |more| && Holds(more[i], team, route, since) && i < |runs| {
      assert Holds(runs[i], team, route, since);
    }
    assert more[|runs|] == r;
  }

  /** A tick for one team and one subagent: when it comes, and how the run ends if it starts one. */
  datatype Tick = Tick(now: int, task: Option<string>, end: End)

  function TickRow(team: string, sub: Timed, tick: Tick): Ran {
    RowOf(team, None, sub.name, Periodic(TaskKept(tick.task)), tick.end)
  }

  /** What a tick does to the runs its guard looks at. */
  function Fired(own: seq<Ran>, team: string, sub: Timed, tick: Tick): seq<Ran> {
    var row := TickRow(team, sub, tick);
    if !RanPeriodically(own, team, sub.name, Since(tick.now, sub.hours)) &&
      Concerns(row, team, sub.name) then own + [row] else own
  }

  lemma TickedOwn(sweep: Sweep, now: int, team: string, sub: Timed, task: Option<string>, end: End, mine: string,
                  name: string)
    ensures Of(Ticked(sweep, now, team, sub, task, end).runs, mine, name) ==
      if team == mine && sub.name == name then Fired(Of(sweep.runs, mine, name), team, sub, Tick(now, task, end))
      else Of(sweep.runs, mine, name)
  {
    OfSnoc(sweep.runs, TickRow(team, sub, Tick(now, task, end)), mine, name);
    if team == mine && sub.name == name { GuardSeesOwn(sweep.runs, mine, name, Since(now, sub.hours)); }
  }

  function PlaceOf<T(==)>(xs: seq<T>, x: T): (i: nat)
    ensures i <= |xs| && (i < |xs| ==> xs[i] == x) && forall j | 0 <= j < i :: xs[j] != x
  {
    if xs == [] || xs[0] == x then 0 else 1 + PlaceOf(xs[1..], x)
  }

  ghost predicate NoneTwice<T>(xs: seq<T>) { forall i, j | 0 <= i < j < |xs| :: xs[i] != xs[j] }

  /** No subagent is ticked twice in one sweep, and each has one period. */
  ghost predicate OnePeriod(subs: seq<Timed>, sub: Timed) {
    NoneTwice(subs) && forall j | 0 <= j < |subs| && subs[j].name == sub.name :: subs[j] == sub
  }

  lemma {:induction false} TickedAllOwn(sweep: Sweep, now: int, team: string, subs: seq<Timed>, task: Option<string>,
                                        ends: seq<End>, n: nat, mine: string, sub: Timed)
    requires n <= |subs| == |ends| && OnePeriod(subs, sub)
    ensures var own, at := Of(sweep.runs, mine, sub.name), PlaceOf(subs, sub);
      Of(TickedAll(sweep, now, team, subs, task, ends, n).runs, mine, sub.name) ==
        if team == mine && at < n then Fired(own, mine, sub, Tick(now, task, ends[at])) else own
  {
    hide Of, Fired, Ticked;
    if n > 0 {
      TickedAllOwn(sweep, now, team, subs, task, ends, n - 1, mine, sub);
      TickedOwn(TickedAll(sweep, now, team, subs, task, ends, n - 1), now, team, subs[n - 1], task, ends[n - 1], mine,
                sub.name);
    }
  }

  lemma {:induction false} TickedTeamsOwn(sweep: Sweep, now: int, teams: seq<string>, subs: seq<Timed>,
                                          task: Option<string>, timed: seq<seq<End>>, n: nat, mine: string, sub: Timed)
    requires n <= |teams| == |timed| && (forall i | 0 <= i < |timed| :: |timed[i]| == |subs|) && NoneTwice(teams)
    requires OnePeriod(subs, sub)
    ensures var own, t, at := Of(sweep.runs, mine, sub.name), PlaceOf(teams, mine), PlaceOf(subs, sub);
      Of(TickedTeams(sweep, now, teams, subs, task, timed, n).runs, mine, sub.name) ==
        if t < n && at < |subs| then Fired(own, mine, sub, Tick(now, task, timed[t][at])) else own
  {
    hide Of, Fired, TickedAll, Ticked, OnePeriod;
    if n > 0 {
      TickedTeamsOwn(sweep, now, teams, subs, task, timed, n - 1, mine, sub);
      TickedAllOwn(TickedTeams(sweep, now, teams, subs, task, timed, n - 1), now, teams[n - 1], subs, task,
                   timed[n - 1], |subs|, mine, sub);
    }
  }

  lemma {:induction false} WokenOwn(sweep: Sweep, event: string, about: About, woken: seq<string>, task: Option<string>,
                                    ends: seq<End>, n: nat, mine: string, name: string)
    requires n <= |woken| == |ends|
    ensures Of(WokenAll(sweep, event, about, woken, task, ends, n).runs, mine, name) == Of(sweep.runs, mine, name)
  {
    if n > 0 {
      WokenOwn(sweep, event, about, woken, task, ends, n - 1, mine, name);
      OfSnoc(WokenAll(sweep, event, about, woken, task, ends, n - 1).runs,
             RowOf(about.team, Some(about.meeting), woken[n - 1], Event(event, TaskKept(task)),
                   ends[n - 1]), mine, name);
    }
  }

  /** The tick of this team and subagent in a sweep of the timer, if they are part of it. */
  function TickOf(stir: Stir, team: string, sub: Timed): Option<Tick>
    requires WellFormed(stir)
  {
    if stir.Ticks? && PlaceOf(stir.teams, team) < |stir.teams| && PlaceOf(stir.subs, sub) < |stir.subs|
    then Some(Tick(stir.now, stir.task, stir.timed[PlaceOf(stir.teams, team)][PlaceOf(stir.subs, sub)])) else None
  }

  /** A history whose sweeps know `sub` by its one period. */
  ghost predicate Knows(stirs: seq<Stir>, sub: Timed) {
    forall k | 0 <= k < |stirs| ::
      WellFormed(stirs[k]) && (stirs[k].Ticks? ==> NoneTwice(stirs[k].teams) && OnePeriod(stirs[k].subs, sub))
  }

  /** The ticks of this team and subagent among the first `n` stirs. */
  function TicksOf(stirs: seq<Stir>, n: nat, team: string, sub: Timed): seq<Tick>
    requires n <= |stirs| && forall k | 0 <= k < |stirs| :: WellFormed(stirs[k])
  {
    if n == 0 then []
    else
      TicksOf(stirs, n - 1, team, sub) +
      match TickOf(stirs[n - 1], team, sub) case Some(tick) => [tick] case None => []
  }

  /** The runs their guard looks at, after its ticks. */
  function AfterTicks(team: string, sub: Timed, ticks: seq<Tick>): seq<Ran> {
    if ticks == [] then [] else Fired(AfterTicks(team, sub, ticks[..|ticks| - 1]), team, sub, ticks[|ticks| - 1])
  }

  /** Other teams, other subagents, events and questions are nothing to the timer's runs of this team and subagent. */
  lemma AfterOwn(runs: seq<Ran>, stir: Stir, team: string, sub: Timed)
    requires WellFormed(stir) && (stir.Ticks? ==> NoneTwice(stir.teams) && OnePeriod(stir.subs, sub))
    ensures var own := Of(runs, team, sub.name);
      Of(After(runs, stir), team, sub.name) ==
        match TickOf(stir, team, sub) case Some(tick) => Fired(own, team, sub, tick) case None => own
  {
    hide Of, Fired, TickedTeams, WokenAll, PlaceOf, NoneTwice, OnePeriod;
    match stir
    case Ticks(now, teams, subs, task, timed) =>
      TickedTeamsOwn(Sweep(runs, []), now, teams, subs, task, timed, |teams|, team, sub);
    case Delivery(event, about, woken, task, ends) =>
      WokenOwn(Sweep(runs, []), event, about, woken, task, ends, |woken|, team, sub.name);
    case Asked(row) =>
      OfSnoc(runs, row, team, sub.name);
  }

  lemma AfterOneMore(team: string, sub: Timed, ticks: seq<Tick>, tick: Tick)
    ensures AfterTicks(team, sub, ticks + [tick]) == Fired(AfterTicks(team, sub, ticks), team, sub, tick)
  {
    assert (ticks + [tick])[..|ticks|] == ticks;
  }

  lemma {:induction false} HistoryIsItsTicks(stirs: seq<Stir>, n: nat, team: string, sub: Timed)
    requires n <= |stirs| && Knows(stirs, sub)
    ensures Of(History(stirs, n), team, sub.name) == AfterTicks(team, sub, TicksOf(stirs, n, team, sub))
  {
    if n > 0 {
      hide Fired, TickOf, After, AfterTicks, Of, WellFormed, NoneTwice, OnePeriod;
      HistoryIsItsTicks(stirs, n - 1, team, sub);
      AfterOwn(History(stirs, n - 1), stirs[n - 1], team, sub);
      var ticks, tick := TicksOf(stirs, n - 1, team, sub), TickOf(stirs[n - 1], team, sub);
      if tick.Some? { AfterOneMore(team, sub, ticks, tick.value); } else { assert ticks + [] == ticks; }
    }
  }

  // ---- Which ticks fire ---------------------------------------------------------------------------------

  /** `OnTick`, at stir `k`, comes to this team and subagent and starts a run: the guard, read where the two loops
      have come to, finds none. */
  predicate StartsAt(stirs: seq<Stir>, k: nat, team: string, sub: Timed)
    requires k < |stirs| && forall i | 0 <= i < |stirs| :: WellFormed(stirs[i])
  {
    TickOf(stirs[k], team, sub).Some? &&
    var Ticks(now, teams, subs, task, timed) := stirs[k];
    var t, at := PlaceOf(teams, team), PlaceOf(subs, sub);
    var sweep := TickedTeams(Sweep(History(stirs, k), []), now, teams, subs, task, timed, t);
    !RanPeriodically(TickedAll(sweep, now, team, subs, task, timed[t], at).runs, team, sub.name, Since(now, sub.hours))
  }

  /** Tick `k` starts a run. */
  predicate FiresAt(team: string, sub: Timed, ticks: seq<Tick>, k: nat)
    requires k < |ticks|
  {
    !RanPeriodically(AfterTicks(team, sub, ticks[..k]), team, sub.name, Since(ticks[k].now, sub.hours))
  }

  lemma StartsExactly(stirs: seq<Stir>, k: nat, team: string, sub: Timed, ticks: seq<Tick>)
    requires k < |stirs| && Knows(stirs, sub) && TickOf(stirs[k], team, sub).Some?
    requires var own := TicksOf(stirs, k, team, sub);
      |own| < |ticks| && ticks[..|own|] == own && ticks[|own|] == TickOf(stirs[k], team, sub).value
    ensures StartsAt(stirs, k, team, sub) <==> FiresAt(team, sub, ticks, |TicksOf(stirs, k, team, sub)|)
  {
    var Ticks(now, teams, subs, task, timed) := stirs[k];
    var t, at, first := PlaceOf(teams, team), PlaceOf(subs, sub), Sweep(History(stirs, k), []);
    HistoryIsItsTicks(stirs, k, team, sub);
    TickedTeamsOwn(first, now, teams, subs, task, timed, t, team, sub);
    var sweep := TickedTeams(first, now, teams, subs, task, timed, t);
    TickedAllOwn(sweep, now, team, subs, task, timed[t], at, team, sub);
    GuardSeesOwn(TickedAll(sweep, now, team, subs, task, timed[t], at).runs, team, sub.name, Since(now, sub.hours));
  }

  /** Where tick `j` of this team and subagent stands in the history. */
  lemma {:induction false} StirOf(stirs: seq<Stir>, n: nat, team: string, sub: Timed, j: nat) returns (k: nat)
    requires n <= |stirs| && Knows(stirs, sub) && j < |TicksOf(stirs, n, team, sub)|
    ensures k < n && IsTick(stirs, n, team, sub, k) && |TicksOf(stirs, k, team, sub)| == j
  {
    if j < |TicksOf(stirs, n - 1, team, sub)| { k := StirOf(stirs, n - 1, team, sub, j); } else { k := n - 1; }
    TicksGoOn(stirs, k, n, team, sub);
  }

  /** Stir `k` brings the tick that comes after those before it. */
  ghost predicate IsTick(stirs: seq<Stir>, n: nat, team: string, sub: Timed, k: nat)
    requires n <= |stirs| && forall i | 0 <= i < |stirs| :: WellFormed(stirs[i])
  {
    k < n && TickOf(stirs[k], team, sub).Some? &&
    var own, ticks := TicksOf(stirs, k, team, sub), TicksOf(stirs, n, team, sub);
    |own| < |ticks| && ticks[..|own|] == own && ticks[|own|] == TickOf(stirs[k], team, sub).value
  }

  lemma {:induction false} TicksGoOn(stirs: seq<Stir>, k: nat, n: nat, team: string, sub: Timed)
    requires k <= n <= |stirs| && forall i | 0 <= i < |stirs| :: WellFormed(stirs[i])
    ensures TicksOf(stirs, k, team, sub) <= TicksOf(stirs, n, team, sub)
    ensures k < n && TickOf(stirs[k], team, sub).Some? ==> IsTick(stirs, n, team, sub, k)
  {
    hide TickOf, WellFormed;
    if k < n { TicksGoOn(stirs, k, n - 1, team, sub); }
  }

  /** The tick is less than a quarter of an hour off its mark, and its run is answered and stored no sooner than it. */
  predicate Near(tick: Tick, start: int, k: nat) {
    -15 * MINUTE < tick.now - start - k * HOUR < 15 * MINUTE && tick.end.outcome.Answered? && tick.end.at >= tick.now
  }

  predicate AllNear(ticks: seq<Tick>, start: int) { forall k | 0 <= k < |ticks| :: Near(ticks[k], start, k) }

  /** The run of tick `j` no longer holds back the tick a period later. */
  predicate InTime(sub: Timed, ticks: seq<Tick>, j: nat)
    requires j + sub.hours < |ticks|
  {
    ticks[j].end.at < Since(ticks[j + sub.hours].now, sub.hours)
  }

  lemma OneTickMore(team: string, sub: Timed, ticks: seq<Tick>, m: nat)
    requires 0 < m <= |ticks|
    ensures AfterTicks(team, sub, ticks[..m]) == Fired(AfterTicks(team, sub, ticks[..m - 1]), team, sub, ticks[m - 1])
  {
    assert ticks[..m][..m - 1] == ticks[..m - 1];
  }

  /** A tick before tick `m` started a run that was stored at `since` or later. */
  ghost predicate FiredSince(team: string, sub: Timed, ticks: seq<Tick>, m: nat, since: int)
    requires m <= |ticks|
  {
    exists j: nat :: j < m && FiresAt(team, sub, ticks, j) && ticks[j].end.at >= since
  }

  lemma FiredSinceNext(team: string, sub: Timed, ticks: seq<Tick>, m: nat, since: int)
    requires m < |ticks|
    ensures FiredSince(team, sub, ticks, m + 1, since) <==>
      FiredSince(team, sub, ticks, m, since) || (FiresAt(team, sub, ticks, m) && ticks[m].end.at >= since)
  {
    hide FiresAt;
  }

  lemma {:induction false} RowsAreFired(team: string, sub: Timed, ticks: seq<Tick>, m: nat, since: int)
    requires m <= |ticks| && forall k | 0 <= k < |ticks| :: ticks[k].end.outcome.Answered?
    ensures RanPeriodically(AfterTicks(team, sub, ticks[..m]), team, sub.name, since) <==>
      FiredSince(team, sub, ticks, m, since)
  {
    if m > 0 {
      hide AfterTicks, RanPeriodically, FiredSince;
      RowsAreFired(team, sub, ticks, m - 1, since);
      OneTickMore(team, sub, ticks, m);
      FiredSinceNext(team, sub, ticks, m - 1, since);
      RanSnoc(AfterTicks(team, sub, ticks[..m - 1]), TickRow(team, sub, ticks[m - 1]), team, sub.name, since);
    }
  }

  lemma RemainderIs(n: int, d: int, q: int, r: int)
    requires d > 0 && n == d * q + r && 0 <= r < d
    ensures n % d == r
  {
    var e := n / d - q;
    assert n == d * (n / d) + n % d;
    assert d * e == d * (n / d) - d * q;
    assert e > 0 ==> d * e >= d;
    assert e < 0 ==> d * e <= -d;
  }

  /** Tick `k` is a P-th one. */
  predicate Due(sub: Timed, k: nat)
    requires sub.hours > 0
  {
    k % sub.hours == 0
  }

  lemma NextDue(sub: Timed, j: nat)
    requires sub.hours > 0 && Due(sub, j)
    ensures Due(sub, j + sub.hours)
  {
    var a := j / sub.hours;
    assert sub.hours * (a + 1) == sub.hours * a + sub.hours;
    RemainderIs(j + sub.hours, sub.hours, a + 1, 0);
  }

  lemma DueApart(sub: Timed, j: nat, m: nat)
    requires sub.hours > 0 && Due(sub, j) && Due(sub, m) && j < m
    ensures j + sub.hours <= m
  {
    var a, b := j / sub.hours, m / sub.hours;
    assert sub.hours * (b - a) == sub.hours * b - sub.hours * a;
    assert b - a <= 0 ==> sub.hours * (b - a) <= 0;
    assert b - a >= 1 ==> sub.hours * (b - a) >= sub.hours;
  }

  lemma LastDue(sub: Timed, m: nat) returns (j: nat)
    requires sub.hours > 0 && !Due(sub, m)
    ensures j < m < j + sub.hours && Due(sub, j)
  {
    j := m - m % sub.hours;
    RemainderIs(j, sub.hours, m / sub.hours, 0);
  }

  /** Ticks fire at every P-th, and at no other. */
  ghost predicate EveryPeriod(team: string, sub: Timed, ticks: seq<Tick>, n: nat)
    requires n <= |ticks| && sub.hours > 0
  {
    forall k: nat | k < n :: FiresAt(team, sub, ticks, k) <==> Due(sub, k)
  }

  /** When the ticks before it fired as they should, so does this one. */
  lemma NextInTurn(team: string, sub: Timed, ticks: seq<Tick>, start: int, m: nat)
    requires sub.hours > 0 && m < |ticks| && AllNear(ticks, start)
    requires EveryPeriod(team, sub, ticks, m)
    requires forall j: nat | j + sub.hours <= m && Due(sub, j) :: InTime(sub, ticks, j)
    ensures FiresAt(team, sub, ticks, m) <==> Due(sub, m)
  {
    hide FiresAt, InTime, Due, Since;
    FiresExactly(team, sub, ticks, m);
    if Due(sub, m) {
      forall j: nat | j < m && FiresAt(team, sub, ticks, j) ensures ticks[j].end.at < Since(ticks[m].now, sub.hours) {
        DueApart(sub, j, m);
        OldEnough(sub, ticks, start, j, m);
      }
    } else {
      var j := LastDue(sub, m);
      TooYoung(sub, ticks, start, j, m);
    }
  }

  lemma FiresExactly(team: string, sub: Timed, ticks: seq<Tick>, m: nat)
    requires m < |ticks| && forall k | 0 <= k < |ticks| :: ticks[k].end.outcome.Answered?
    ensures FiresAt(team, sub, ticks, m)
      <==> forall j: nat | j < m && FiresAt(team, sub, ticks, j) :: ticks[j].end.at < Since(ticks[m].now, sub.hours)
  {
    RowsAreFired(team, sub, ticks, m, Since(ticks[m].now, sub.hours));
  }

  lemma OldEnough(sub: Timed, ticks: seq<Tick>, start: int, j: nat, m: nat)
    requires j + sub.hours <= m < |ticks| && InTime(sub, ticks, j)
    requires Near(ticks[j + sub.hours], start, j + sub.hours) && Near(ticks[m], start, m)
    ensures ticks[j].end.at < Since(ticks[m].now, sub.hours)
  {
  }

  lemma TooYoung(sub: Timed, ticks: seq<Tick>, start: int, j: nat, m: nat)
    requires j < m < j + sub.hours && m < |ticks| && Near(ticks[j], start, j) && Near(ticks[m], start, m)
    ensures ticks[j].end.at >= Since(ticks[m].now, sub.hours)
  {
  }

  lemma {:induction false} InTurn(team: string, sub: Timed, ticks: seq<Tick>, start: int, n: nat)
    requires sub.hours > 0 && n <= |ticks| && AllNear(ticks, start)
    requires forall j: nat | j + sub.hours < n && Due(sub, j) :: InTime(sub, ticks, j)
    ensures EveryPeriod(team, sub, ticks, n)
  {
    if n > 0 {
      InTurn(team, sub, ticks, start, n - 1);
      NextInTurn(team, sub, ticks, start, n - 1);
    }
  }

  lemma TicksInTimeExactly(team: string, sub: Timed, ticks: seq<Tick>, start: int)
    requires sub.hours > 0 && AllNear(ticks, start)
    ensures EveryPeriod(team, sub, ticks, |ticks|)
      <==> forall j: nat | j + sub.hours < |ticks| && Due(sub, j) :: InTime(sub, ticks, j)
  {
    hide FiresAt, Due, Since;
    if EveryPeriod(team, sub, ticks, |ticks|) {
      forall j: nat | j + sub.hours < |ticks| && Due(sub, j) ensures InTime(sub, ticks, j) {
        NextDue(sub, j);
        FiresExactly(team, sub, ticks, j + sub.hours);
        assert FiresAt(team, sub, ticks, j) && FiresAt(team, sub, ticks, j + sub.hours);
      }
    } else if forall j: nat | j + sub.hours < |ticks| && Due(sub, j) :: InTime(sub, ticks, j) {
      InTurn(team, sub, ticks, start, |ticks|);
    }
  }

  /** In the history, `OnTick` starts a run of the subagent for the team at every P-th of its ticks and at no other. */
  ghost predicate StartsEveryPeriod(stirs: seq<Stir>, team: string, sub: Timed)
    requires sub.hours > 0 && forall i | 0 <= i < |stirs| :: WellFormed(stirs[i])
  {
    forall k: nat | k < |stirs| && TickOf(stirs[k], team, sub).Some? ::
      StartsAt(stirs, k, team, sub) <==> Due(sub, |TicksOf(stirs, k, team, sub)|)
  }

  lemma StartsAsTicksFire(stirs: seq<Stir>, team: string, sub: Timed)
    requires sub.hours > 0 && Knows(stirs, sub)
    ensures var ticks := TicksOf(stirs, |stirs|, team, sub);
      StartsEveryPeriod(stirs, team, sub) <==> EveryPeriod(team, sub, ticks, |ticks|)
  {
    var n, ticks := |stirs|, TicksOf(stirs, |stirs|, team, sub);
    forall k: nat | k < n && TickOf(stirs[k], team, sub).Some?
      ensures |TicksOf(stirs, k, team, sub)| < |ticks|
      ensures StartsAt(stirs, k, team, sub) <==> FiresAt(team, sub, ticks, |TicksOf(stirs, k, team, sub)|)
    {
      TicksGoOn(stirs, k, n, team, sub);
      StartsExactly(stirs, k, team, sub, ticks);
    }
    if StartsEveryPeriod(stirs, team, sub) {
      forall j: nat | j < |ticks| ensures FiresAt(team, sub, ticks, j) <==> Due(sub, j) {
        var k := StirOf(stirs, n, team, sub, j);
      }
    }
  }

  /** In a history of ticks over any teams and subagents, events and questions, where the ticks of this team and
      subagent are less than a quarter of an hour off their marks and its runs are answered: a period of P hours
      fires at every P-th tick, and at no other, exactly when each run that fired was stored before the time the tick
      a period later looks back to. */
  lemma StoredInTimeExactly(stirs: seq<Stir>, team: string, sub: Timed, start: int)
    requires sub.hours > 0 && Knows(stirs, sub)
    requires AllNear(TicksOf(stirs, |stirs|, team, sub), start)
    ensures var ticks := TicksOf(stirs, |stirs|, team, sub);
      StartsEveryPeriod(stirs, team, sub) <==>
        forall j: nat | j + sub.hours < |ticks| && Due(sub, j) ::
          ticks[j].end.at < ticks[j + sub.hours].now - Every(sub.hours) + PERIODIC_TICK / 2
  {
    hide StartsEveryPeriod, EveryPeriod, TicksOf, Due, NoneTwice, OnePeriod, WellFormed;
    var ticks := TicksOf(stirs, |stirs|, team, sub);
    StartsAsTicksFire(stirs, team, sub);
    TicksInTimeExactly(team, sub, ticks, start);
    assert forall j: nat | j + sub.hours < |ticks| ::
      InTime(sub, ticks, j) <==> ticks[j].end.at < ticks[j + sub.hours].now - Every(sub.hours) + PERIODIC_TICK / 2;
  }

  /** The run, too, is stored less than a quarter of an hour after its tick's mark. */
  predicate OnMark(tick: Tick, start: int, k: nat)
  {
    Near(tick, start, k) && tick.end.at < start + k * HOUR + 15 * MINUTE
  }

  predicate AllOnMark(ticks: seq<Tick>, start: int) { forall k | 0 <= k < |ticks| :: OnMark(ticks[k], start, k) }

  /** So it does whenever ticks and runs are on their marks. */
  lemma FiresEveryPeriod(stirs: seq<Stir>, team: string, sub: Timed, start: int)
    requires sub.hours > 0 && Knows(stirs, sub)
    requires AllOnMark(TicksOf(stirs, |stirs|, team, sub), start)
    ensures StartsEveryPeriod(stirs, team, sub)
  {
    hide StartsEveryPeriod, Due, NoneTwice, OnePeriod;
    var ticks := TicksOf(stirs, |stirs|, team, sub);
    forall j: nat | j + sub.hours < |ticks| && Due(sub, j)
      ensures ticks[j].end.at < ticks[j + sub.hours].now - Every(sub.hours) + PERIODIC_TICK / 2
    {
      assert OnMark(ticks[j], start, j) && OnMark(ticks[j + sub.hours], start, j + sub.hours);
    }
    StoredInTimeExactly(stirs, team, sub, start);
  }

  // ---- A late run ---------------------------------------------------------------------------------------

  /** The run of the first tick is stored `late` after it, any other as its tick comes. */
  function StoredLate(late: nat, k: nat): End { End(Answered, k * HOUR + if k == 0 then late else 0, false) }

  /** One tick an hour on the hour, for a period and an hour. */
  function HourlyTicks(sub: Timed, late: nat): (ticks: seq<Tick>) {
    seq(sub.hours + 2, k requires 0 <= k => Tick(k * HOUR, None, StoredLate(late, k)))
  }

  function HourlyStirs(team: string, sub: Timed, late: nat): (stirs: seq<Stir>)
    ensures forall k | 0 <= k < |stirs| :: WellFormed(stirs[k])
  {
    seq(sub.hours + 2, k requires 0 <= k => Ticks(k * HOUR, [team], [sub], None, [[StoredLate(late, k)]]))
  }

  lemma {:induction false} HourlyAre(team: string, sub: Timed, late: nat, n: nat)
    requires n <= sub.hours + 2
    ensures TicksOf(HourlyStirs(team, sub, late), n, team, sub) == HourlyTicks(sub, late)[..n]
  {
    if n > 0 {
      HourlyAre(team, sub, late, n - 1);
      var ticks := HourlyTicks(sub, late);
      assert ticks[..n] == ticks[..n - 1] + [ticks[n - 1]];
    }
  }

  /** A run stored half an hour late or more makes the period drift to one tick more. */
  lemma LateRunDrifts(team: string, sub: Timed, late: nat)
    requires sub.hours > 0 && late < HOUR + HOUR / 2
    ensures var stirs := HourlyStirs(team, sub, late);
      && |stirs| == sub.hours + 2 && StartsAt(stirs, 0, team, sub)
      && (forall k | 0 < k < sub.hours :: !StartsAt(stirs, k, team, sub))
      && (StartsAt(stirs, sub.hours, team, sub) <==> late < PERIODIC_TICK / 2)
      && (late >= PERIODIC_TICK / 2 ==> StartsAt(stirs, sub.hours + 1, team, sub))
  {
    hide FiresAt, StartsAt;
    var stirs, ticks, p := HourlyStirs(team, sub, late), HourlyTicks(sub, late), sub.hours;
    forall k | 0 <= k < p + 2 ensures StartsAt(stirs, k, team, sub) <==> FiresAt(team, sub, ticks, k) {
      HourlyAre(team, sub, late, k);
      StartsExactly(stirs, k, team, sub, ticks);
    }
    FiresExactly(team, sub, ticks, 0);
    forall k | 0 < k < p ensures !FiresAt(team, sub, ticks, k) { FiresExactly(team, sub, ticks, k); }
    FiresExactly(team, sub, ticks, p);
    FiresExactly(team, sub, ticks, p + 1);
  }

  // ---- Sweeps that overlap ------------------------------------------------------------------------------

  /** A guard that was read and found no run; its sweep has started one. */
  datatype Open = Open(now: int, team: string, sub: Timed)

  /** The stored runs, and for each sweep that has started a run and not stored it, what it read. */
  datatype Race = Race(runs: seq<Ran>, open: map<nat, Open>)

  /** One step of one sweep, or a run stored by anyone else; `Drops` is a sweep that breaks off and stores nothing. */
  datatype Move =
    | Reads(sweep: nat, now: int, team: string, sub: Timed)
    | Stores(sweep: nat, task: Option<string>, end: End)
    | Drops(sweep: nat)
    | Adds(row: Ran)

  /** A sweep does one thing at a time: it reads no guard while it runs a subagent. */
  function Moved(race: Race, move: Move): Race {
    match move
    case Reads(sweep, now, team, sub) =>
      if sweep in race.open || RanPeriodically(race.runs, team, sub.name, Since(now, sub.hours)) then race
      else race.(open := race.open[sweep := Open(now, team, sub)])
    case Stores(sweep, task, end) =>
      if sweep !in race.open then race
      else
        var o := race.open[sweep];
        Race(race.runs + [RowOf(o.team, None, o.sub.name, Periodic(TaskKept(task)), end)], race.open - {sweep})
    case Drops(sweep) => race.(open := race.open - {sweep})
    case Adds(row) => race.(runs := race.runs + [row])
  }

  /** A sweep that nothing falls between does what `OnTick` does. */
  lemma TickIsReadAndStore(sweep: Sweep, w: nat, now: int, team: string, sub: Timed, task: Option<string>, end: End)
    ensures Ticked(sweep, now, team, sub, task, end).runs
      == Moved(Moved(Race(sweep.runs, map[]), Reads(w, now, team, sub)), Stores(w, task, end)).runs
  {
  }

  function RaceOf(moves: seq<Move>, n: nat): Race
    requires n <= |moves|
  {
    if n == 0 then Race([], map[]) else Moved(RaceOf(moves, n - 1), moves[n - 1])
  }

  /** Subagents are known by their periods, a run is stored no sooner than its tick, and only sweeps start periodic
      runs. */
  predicate Proper(race: Race, move: Move, hours: map<string, nat>) {
    match move
    case Reads(_, _, _, sub) => sub.hours > 0 && sub.name in hours && hours[sub.name] == sub.hours
    case Stores(sweep, _, end) => sweep in race.open ==> end.at >= race.open[sweep].now
    case Drops(_) => true
    case Adds(row) => !row.trigger.Periodic?
  }

  predicate SamePair(a: Open, b: Open) { a.team == b.team && a.sub.name == b.sub.name }

  /** Two sweeps run the same subagent for the same team, each having read the guard before the other stored. */
  ghost predicate Overlapping(race: Race) {
    exists v, w :: v in race.open && w in race.open && v != w && SamePair(race.open[v], race.open[w])
  }

  /** The read would still pass. */
  ghost predicate Passes(runs: seq<Ran>, o: Open)
  {
    !RanPeriodically(runs, o.team, o.sub.name, Since(o.now, o.sub.hours))
  }

  /** The runs are apart, and every open read would still pass. */
  ghost predicate Calm(race: Race, hours: map<string, nat>) {
    Spaced(race.runs, hours) && forall w | w in race.open ::
      var o := race.open[w];
      o.sub.hours > 0 && o.sub.name in hours && hours[o.sub.name] == o.sub.hours && Passes(race.runs, o)
  }

  lemma StoreKeepsCalm(race: Race, sweep: nat, task: Option<string>, end: End, hours: map<string, nat>)
    requires Calm(race, hours) && !Overlapping(race) && Proper(race, Stores(sweep, task, end), hours)
    ensures Calm(Moved(race, Stores(sweep, task, end)), hours)
  {
    if sweep in race.open {
      var o, after := race.open[sweep], Moved(race, Stores(sweep, task, end));
      TickKeepsSpacing(Sweep(race.runs, []), hours, o.now, o.team, o.sub, task, end);
      forall w | w in after.open ensures Passes(after.runs, after.open[w]) {
        var p := race.open[w];
        assert !SamePair(p, o);
        RanSnoc(race.runs, after.runs[|race.runs|], p.team, p.sub.name, Since(p.now, p.sub.hours));
      }
    }
  }

  lemma AddKeepsCalm(race: Race, row: Ran, hours: map<string, nat>)
    requires Calm(race, hours) && !row.trigger.Periodic?
    ensures Calm(Moved(race, Adds(row)), hours)
  {
    OthersKeepSpacing(race.runs, row, hours);
    forall w | w in race.open ensures Passes(race.runs + [row], race.open[w]) {
      var o := race.open[w];
      RanSnoc(race.runs, row, o.team, o.sub.name, Since(o.now, o.sub.hours));
    }
  }

  lemma MoveKeepsCalm(race: Race, move: Move, hours: map<string, nat>)
    requires Calm(race, hours) && !Overlapping(race) && Proper(race, move, hours)
    ensures Calm(Moved(race, move), hours)
  {
    hide RanPeriodically, Spaced;
    match move
    case Stores(sweep, task, end) => StoreKeepsCalm(race, sweep, task, end, hours);
    case Adds(row) => AddKeepsCalm(race, row, hours);
    case _ =>
  }

  /** However the steps of any sweeps fall between each other: while no two of them run one subagent for one team at
      once, its answered runs are more than the period less half a tick apart. */
  lemma {:induction false} ApartUnlessOverlapping(moves: seq<Move>, hours: map<string, nat>, n: nat)
    requires n <= |moves| && forall k | 0 <= k < n :: Proper(RaceOf(moves, k), moves[k], hours)
    requires forall k | 0 <= k < n :: !Overlapping(RaceOf(moves, k))
    ensures Calm(RaceOf(moves, n), hours)
  {
    hide Moved, Calm, Overlapping, Proper;
    if n > 0 {
      ApartUnlessOverlapping(moves, hours, n - 1);
      MoveKeepsCalm(RaceOf(moves, n - 1), moves[n - 1], hours);
    } else {
      NothingYet(moves, hours);
    }
  }

  lemma NothingYet(moves: seq<Move>, hours: map<string, nat>)
    ensures Calm(RaceOf(moves, 0), hours)
  {
  }

  /** Two sweeps store what they run, one after the other, and two answered runs stand too close. */
  ghost predicate CanCrowd(race: Race, hours: map<string, nat>) {
    exists first: Move, second: Move :: Crowds(race, hours, first, second)
  }

  ghost predicate Crowds(race: Race, hours: map<string, nat>, first: Move, second: Move) {
    && first.Stores? && second.Stores? && Proper(race, first, hours) && Proper(Moved(race, first), second, hours)
    && !Spaced(Moved(Moved(race, first), second).runs, hours)
  }

  /** Two runs of one subagent can be stored too close together exactly from where two sweeps run it at once. */
  lemma CrowdsExactly(race: Race, hours: map<string, nat>)
    requires Calm(race, hours)
    ensures CanCrowd(race, hours) <==> Overlapping(race)
  {
    hide Spaced, RanPeriodically;
    if Overlapping(race) {
      var v, w :| v in race.open && w in race.open && v != w && SamePair(race.open[v], race.open[w]);
      BothStored(race, hours, v, w);
    } else if CanCrowd(race, hours) {
      var first, second :| Crowds(race, hours, first, second);
      MoveKeepsCalm(race, first, hours);
      NoNewOverlap(race, first);
      MoveKeepsCalm(Moved(race, first), second, hours);
      assert false;
    }
  }

  /** Two sweeps that read the guard of one pair before either has stored a run come to such a state, whenever they
      tick. */
  lemma TwoReadsOverlap(team: string, sub: Timed, now: int, later: int)
    requires sub.hours > 0
    ensures var moves := [Reads(0, now, team, sub), Reads(1, later, team, sub)];
      Overlapping(RaceOf(moves, 2)) && Calm(RaceOf(moves, 2), map[sub.name := sub.hours])
  {
    var moves := [Reads(0, now, team, sub), Reads(1, later, team, sub)];
    var none := Race([], map[]);
    assert RaceOf(moves, 0) == none;
    var first := Moved(none, moves[0]);
    assert RaceOf(moves, 1) == first && first.open == map[0 := Open(now, team, sub)];
    var both := Moved(first, moves[1]);
    assert RaceOf(moves, 2) == both && both.open == map[0 := Open(now, team, sub), 1 := Open(later, team, sub)];
    assert SamePair(both.open[0], both.open[1]);
  }

  lemma NoNewOverlap(race: Race, move: Move)
    requires move.Stores? && !Overlapping(race)
    ensures !Overlapping(Moved(race, move))
  {
    var after := Moved(race, move);
    assert forall v | v in after.open :: v in race.open && after.open[v] == race.open[v];
  }

  lemma BothStored(race: Race, hours: map<string, nat>, v: nat, w: nat)
    requires Calm(race, hours) && v in race.open && w in race.open && v != w && SamePair(race.open[v], race.open[w])
    ensures CanCrowd(race, hours)
  {
    var a, b, n := race.open[v], race.open[w], |race.runs|;
    var end := End(Answered, if a.now < b.now then b.now else a.now, false);
    var first, second := Stores(v, None, end), Stores(w, None, end);
    var after := Moved(Moved(race, first), second).runs;
    assert !FarApart(after, hours, n, n + 1);
    assert Crowds(race, hours, first, second);
  }

  // ---- Deliveries ---------------------------------------------------------------------------------------

  /** The run keeps a redelivery from starting it again: it is stored answered, with its route, and with the task id
      it is looked up by -- an empty id is not stored. */
  predicate Settles(end: End, task: Option<string>) { end.outcome.Answered? && task != Some("") }

  /** A second delivery of an event starts a subagent again exactly when the first found no earlier run and its own
      run does not settle the matter. */
  lemma SecondDeliveryStartsExactly(sweep: Sweep, event: string, about: About, route: string, task: Option<string>,
                                    end: End, again: End)
    ensures var once := Woken(sweep, event, about, route, task, end);
      Woken(once, event, about, route, task, again) != once <==>
        !AlreadyRan(sweep.runs, event, about.meeting, route, task) && !Settles(end, task)
  {
    var once := Woken(sweep, event, about, route, task, end);
    var n := |sweep.runs|;
    if !AlreadyRan(sweep.runs, event, about.meeting, route, task) {
      assert once.runs == sweep.runs + [once.runs[n]];
      assert Blocks(once.runs[n], event, about.meeting, route, task) <==> Settles(end, task);
      assert forall i | 0 <= i < n :: !Blocks(once.runs[i], event, about.meeting, route, task);
    }
    assert |Woken(once, event, about, route, task, again).runs| == |once.runs|
      <==> AlreadyRan(once.runs, event, about.meeting, route, task);
  }
}
