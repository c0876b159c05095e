/** One run of the agent, from its graph's end to its stored row (`main/store.py`). */
module Store {
  import opened Options
  import opened Proposals
  import opened Pending
  import opened L1Actions

  datatype RunOutcome = Answered | Unrouted | BudgetExceeded | RunFailed

  /** What a run keeps of a proposal: never its title, body or arguments. */
  datatype Trace = Trace(kind: string, tool: string, level: Level, evidence: seq<string>)

  /** A row of `agent_runs`. */
  datatype Stored = Stored(team: string, meeting: Option<string>, requestedBy: Option<string>, chat: bool,
                           route: Option<string>, outcome: RunOutcome, proposed: seq<Trace>, actions: seq<Record>)

  /** What a subagent handed back: its proposals, and whether its read was ok. */
  datatype Handed = Handed(proposed: seq<Proposal>, ok: bool)

  /** How the graph ended. */
  datatype GraphEnd = Finished(route: Option<string>, handed: Option<Handed>) | OverBudget | Crashed

  /** Who started the run and about what, and what is declared. */
  datatype Start = Start(team: string, meeting: Option<string>, requestedBy: Option<string>, chat: bool,
                         routeTo: Option<string>, actions: Actions, teamWide: set<string>)

  function TraceOf(p: Proposal): Trace { Trace(p.kind, p.tool, p.level, p.evidence) }

  function TracesOf(proposed: seq<Proposal>): (traces: seq<Trace>)
    ensures |traces| == |proposed| && forall i | 0 <= i < |proposed| :: traces[i] == TraceOf(proposed[i])
  {
    seq(|proposed|, i requires 0 <= i < |proposed| => TraceOf(proposed[i]))
  }

  predicate IsAnswered(graph: GraphEnd) { graph.Finished? && graph.route.Some? && graph.route.value != "" }

  /** The proposals the run has to see to. */
  function ProposedBy(graph: GraphEnd): seq<Proposal> {
    if graph.Finished? && graph.handed.Some? then graph.handed.value.proposed else []
  }

  function OutcomeOf(graph: GraphEnd, raised: bool): RunOutcome {
    if raised then RunFailed else if graph.OverBudget? then BudgetExceeded
    else if IsAnswered(graph) then Answered else Unrouted
  }

  /** The route a run is stored with: a run over its budget has none, and one whose graph broke the one it was woken
      for. */
  function RouteOf(start: Start, graph: GraphEnd): Option<string> {
    match graph
    case Finished(route, _) => route
    case OverBudget => None
    case Crashed => start.routeTo
  }

  function RunOf(id: nat, start: Start, graph: GraphEnd): Run {
    Run(id, start.team, start.meeting, if graph.Finished? then graph.route else None, start.chat)
  }

  function BenchOf(start: Start, meetings: Meetings): Bench {
    Bench(start.actions, Scope(start.team, start.meeting, start.requestedBy), meetings)
  }

  predicate IsTeamWide(start: Start, graph: GraphEnd) {
    graph.Finished? && (if graph.route.Some? then graph.route.value else "") in start.teamWide
  }

  function SettingOf(id: nat, start: Start, graph: GraphEnd, chatRuns: set<nat>, meetings: Meetings): Setting {
    Setting(RunOf(id, start, graph), chatRuns, meetings, start.actions, IsTeamWide(start, graph))
  }

  /** What is stored of how a run ended: that it failed, when anything was raised, whatever the graph did; that it
      went over its budget; that it was answered, by a graph that named a route; or that it found none. */
  lemma OutcomeExactly(start: Start, graph: GraphEnd, raised: bool)
    ensures var outcome := OutcomeOf(graph, raised);
      && (raised <==> outcome == RunFailed)
      && (outcome == BudgetExceeded <==> !raised && graph == OverBudget)
      && (outcome == Answered <==>
          !raised && exists route, handed :: route != "" && graph == Finished(Some(route), handed))
    ensures forall route, handed | graph == Finished(route, handed) :: RouteOf(start, graph) == route
    ensures graph == OverBudget ==> RouteOf(start, graph) == None
    ensures graph == Crashed ==> RouteOf(start, graph) == start.routeTo
    ensures forall route, proposed, ok | graph == Finished(route, Some(Handed(proposed, ok))) ::
      ProposedBy(graph) == proposed
    ensures (forall route, handed :: graph != Finished(route, Some(handed))) ==> ProposedBy(graph) == []
  {
    if graph.Finished? {
      assert graph == Finished(graph.route, graph.handed);
      if graph.route.Some? { assert graph == Finished(Some(graph.route.value), graph.handed); }
      if graph.handed.Some? { assert graph == Finished(graph.route, Some(graph.handed.value)); }
    }
  }

  /** What a run keeps of what was proposed: neither a title nor an argument, and everything else. */
  lemma TracesExactly(proposed: seq<Proposal>, i: nat, title: string, arguments: Arguments)
    requires i < |proposed|
    ensures |TracesOf(proposed)| == |proposed|
    ensures TracesOf(proposed)[i] == Trace(proposed[i].kind, proposed[i].tool, proposed[i].level, proposed[i].evidence)
    ensures TracesOf(proposed[i := proposed[i].(title := title, arguments := arguments)]) == TracesOf(proposed)
  {
  }

  /** What the actions and the queue are told of a run: who it is for and about what, the route its graph ended with,
      and whether the subagent of that route judges the team. */
  lemma SettingExactly(id: nat, start: Start, graph: GraphEnd, chatRuns: set<nat>, meetings: Meetings)
    ensures var s := SettingOf(id, start, graph, chatRuns, meetings);
      && s.run.id == id && s.run.team == start.team && s.run.meeting == start.meeting && s.run.chat == start.chat
      && BenchOf(start, meetings) == Bench(start.actions, Scope(start.team, start.meeting, start.requestedBy), meetings)
      && s.chatRuns == chatRuns && s.meetings == meetings && s.actions == start.actions
      && (forall route, handed | graph == Finished(route, handed) :: s.run.route == route)
      && (graph == OverBudget || graph == Crashed ==> s.run.route == None)
      && (s.teamWide <==> graph.Finished? && ((graph.route == None && "" in start.teamWide)
                                              || exists name :: graph.route == Some(name) && name in start.teamWide))
  {
  }

  /** A privacy guard refused something the run executed. */
  ghost predicate LeakedIn(start: Start, meetings: Meetings, proposed: seq<Proposal>, effects: seq<Effect>)
    requires |effects| == |proposed|
  {
    exists i: nat :: i < |proposed| && LeaksAt(BenchOf(start, meetings), proposed, effects, i)
  }

  // ---- The fate of every proposal -----------------------------------------------------------------------

  /** The ways an answered run can deal with a proposal. */
  datatype Answer = RunsNow | NotDeclaredHere | WaitsForApproval | RefusedHere

  /** The fates proposal `i` met. */
  ghost predicate Met(setting: Setting, proposed: seq<Proposal>, i: nat, answer: Answer)
    requires i < |proposed|
  {
    match answer
    case RunsNow => RunsAtL1(setting.actions, proposed[i])
    case NotDeclaredHere => Undeclared(setting.actions, proposed[i])
    case WaitsForApproval => IsAt(QueuedOf(setting, proposed), i)
    case RefusedHere => IsAt(TurnedOf(setting, proposed), i)
  }

  /** Each proposal of an answered run meets exactly one fate: it is run at L1, queued, refused, or not declared. */
  lemma ExactlyOneFate(setting: Setting, proposed: seq<Proposal>, i: nat)
    requires i < |proposed|
    ensures exists answer ::
      Met(setting, proposed, i, answer) && forall other :: Met(setting, proposed, i, other) ==> other == answer
  {
    NeedingIsQueuedOrRefused(setting, proposed);
    var answer :=
      if RunsAtL1(setting.actions, proposed[i]) then RunsNow
      else if Undeclared(setting.actions, proposed[i]) then NotDeclaredHere
      else if IsAt(QueuedOf(setting, proposed), i) then WaitsForApproval else RefusedHere;
    assert Met(setting, proposed, i, answer);
    forall other ensures Met(setting, proposed, i, other) ==> other == answer {
      match other {
        case RunsNow =>
        case NotDeclaredHere =>
        case WaitsForApproval =>
        case RefusedHere =>
      }
    }
  }

  /** The action was called, and its module gave one of this layer's own reasons as its own. */
  predicate Borrows(bench: Bench, p: Proposal, effect: Effect, reason: Reason) {
    && RunsAtL1(bench.actions, p) && CallOf(bench.actions[p.tool], p.arguments, bench.scope, bench.meetings).Some?
    && effect.Returns? && effect.reason == Some(reason)
  }

  /** What the row records of an L1 proposal tells its fate: not declared exactly when it was not, and kept for approval
      exactly when it was queued or refused, unless a module that was called said so itself. */
  lemma RecordTellsTheFate(setting: Setting, bench: Bench, proposed: seq<Proposal>, i: nat, effect: Effect)
    requires i < |proposed| && proposed[i].level.L1? && bench.actions == setting.actions
    ensures var record, p := RecordOf(bench, proposed[i], effect), proposed[i];
      && (record.reason == Some(NotDeclared) <==>
          Met(setting, proposed, i, NotDeclaredHere) || Borrows(bench, p, effect, NotDeclared))
      && (record.reason == Some(KeptForApproval) <==>
          Met(setting, proposed, i, WaitsForApproval) || Met(setting, proposed, i, RefusedHere)
          || Borrows(bench, p, effect, KeptForApproval))
  {
    hide QueuedOf, TurnedOf, IsAt, ArgumentsOk, FateOf, BindScope, BoundFor;
    NeedingIsQueuedOrRefused(setting, proposed);
    if proposed[i].tool in bench.actions { BindingHasOwnReasons(bench, proposed[i]); }
  }

  /** What `bind_scope` refuses for is neither of the two. */
  lemma BindingHasOwnReasons(bench: Bench, p: Proposal)
    requires p.tool in bench.actions
    ensures var bound := BoundFor(bench.actions[p.tool], p.arguments, bench.scope, bench.meetings);
      bound.Refused? ==> bound.reason != NotDeclared && bound.reason != KeptForApproval
  {
  }

  /** The queue once the run has been seen to: an answered run's proposals are queued, and an answered judgment of the
      team that read well and proposes nothing retires what its subagent left waiting; nothing else changes a row. */
  ghost predicate SeenTo(setting: Setting, graph: GraphEnd, answered: bool, rows: Rows, next: nat, after: Rows,
                         refused: seq<Record>)
  {
    var proposed := ProposedBy(graph);
    if answered && proposed != [] then
      Queued(setting, QueuedOf(setting, proposed), rows, next, after) &&
        refused == Refusals(TurnedOf(setting, proposed))
    else
      refused == [] && after.Keys == rows.Keys && forall id | id in rows ::
        after[id] == if answered && JudgedNothing(setting, graph) && WaitsFromAnother(setting.run, rows[id])
                     then rows[id].(status := Superseded) else rows[id]
  }

  /** A judgment of the team that read well and proposes nothing. */
  ghost predicate JudgedNothing(setting: Setting, graph: GraphEnd) {
    setting.teamWide && exists route :: graph == Finished(route, Some(Handed([], true)))
  }

  // ---- The run ------------------------------------------------------------------------------------------

  class Recorder {
    const desk: Desk
    var runs: map<nat, Stored>
    var nextRun: nat

    constructor (desk: Desk)
      ensures this.desk == desk && runs == map[] && nextRun == 0
    {
      this.desk, runs, nextRun := desk, map[], 0;
    }

    function ChatRuns(): set<nat>
      reads this
    {
      set id | id in runs && runs[id].chat
    }

    ghost predicate Valid()
      reads this, desk
    {
      desk.Valid() && forall id | id in runs :: id < nextRun
    }

    /** `run_and_record`; `effects[i]` is what the action of proposal `i` does if it is called now. */
    method RunAndRecord(start: Start, graph: GraphEnd, effects: seq<Effect>)
      returns (id: nat, raised: bool, calls: seq<Call>, unfinished: seq<Told>, ghost done: seq<Record>,
               ghost refused: seq<Record>)
      requires Valid() && |effects| == |ProposedBy(graph)|
      modifies this, desk`rows, desk`next
      ensures Valid() && id == old(nextRun) && nextRun == id + 1 && runs.Keys == old(runs).Keys + {id}
      ensures forall other | other in old(runs) :: runs[other] == old(runs)[other]
      ensures raised <==> graph.Crashed? || LeakedIn(start, desk.meetings, ProposedBy(graph), effects)
      ensures runs[id] == Stored(start.team, start.meeting, start.requestedBy, start.chat, RouteOf(start, graph),
                                 OutcomeOf(graph, raised), TracesOf(ProposedBy(graph)), done + refused)
      ensures Done(BenchOf(start, desk.meetings), ProposedBy(graph), effects, |effects|, done)
      ensures calls == CallsUpTo(BenchOf(start, desk.meetings), ProposedBy(graph), |effects|)
      ensures unfinished == UnfinishedUpTo(BenchOf(start, desk.meetings), ProposedBy(graph), effects, |effects|)
      ensures SeenTo(SettingOf(id, start, graph, (set r | r in runs && runs[r].chat), desk.meetings), graph,
                     runs[id].outcome.Answered?, old(desk.rows), old(desk.next), desk.rows, refused)
    {
      hide SeenTo, UnfinishedUpTo, CallsUpTo, Done, ViolationsUpTo;
      id := nextRun;
      var proposed := ProposedBy(graph);
      var bench, records, violations := BenchOf(start, desk.meetings), [], [];
      records, violations, unfinished, calls := ExecuteL1(bench, proposed, effects);
      FailsExactlyOnALeak(bench, proposed, effects, |proposed|);
      raised := graph.Crashed? || violations != [];
      var row := Stored(start.team, start.meeting, start.requestedBy, start.chat, RouteOf(start, graph),
                        OutcomeOf(graph, raised), TracesOf(proposed), records);
      runs, nextRun := runs[id := row], id + 1;
      var refusals := SeeTo(SettingOf(id, start, graph, ChatRuns(), desk.meetings), graph, row.outcome.Answered?);
      ghost var chats := ChatRuns();
      runs := runs[id := row.(actions := records + refusals)];
      assert ChatRuns() == chats;
      done, refused := records, refusals;
    }

    /** What an answered run does to the queue. */
    method SeeTo(setting: Setting, graph: GraphEnd, answered: bool) returns (refused: seq<Record>)
      requires Valid() && setting.meetings == desk.meetings && (answered ==> IsAnswered(graph))
      modifies desk`rows, desk`next
      ensures Valid() && SeenTo(setting, graph, answered, old(desk.rows), old(desk.next), desk.rows, refused)
    {
      refused := [];
      if answered {
        if ProposedBy(graph) != [] {
          refused := desk.QueueL2(setting, ProposedBy(graph));
        } else if setting.teamWide && graph.handed.Some? && graph.handed.value.ok {
          assert graph == Finished(graph.route, Some(Handed([], true)));
          desk.RetireTeamWide(setting.run);
        }
      }
    }
  }
}
