/** Plan mode's queue (`main/pending.py`). */
module Pending {

  // Which proposals wait, what they supersede, and who decides them. `Queued` is the queue's meaning said in one step
  // for all the proposals of a run at once; `QueueL2` is the loop, one guarded UPDATE and one INSERT a proposal, and
  // ends in it. The questions about what a run may retire are then answered on the one-step form.

  import opened Options
  import opened Proposals

  datatype Status = Waiting | Approved | Rejected | Superseded | Failed

  /** A row of `agent_pending_actions`; `run` is None once its run was deleted. */
  datatype Row = Row(team: string, meeting: Option<string>, run: Option<nat>, subagent: string, tool: string,
                     kind: string, arguments: Arguments, evidence: seq<string>, scope: string, status: Status,
                     rejectReason: Option<string>, resultOk: Option<bool>, resultReason: Option<Reason>,
                     decidedBy: Option<string>)

  type Rows = map<nat, Row>

  /** A run of the agent, as far as its queue needs it. */
  datatype Run = Run(id: nat, team: string, meeting: Option<string>, route: Option<string>, chat: bool)

  /** What is recorded of a proposal that was run or refused. */
  datatype Record = Record(tool: string, level: Level, ok: bool, reason: Option<Reason>, evidence: seq<string>)

  /** Everything `queue_l2` reads: the run, which stored runs are chats, the meetings, the declared actions, and whether
      the subagent's judgment is the team's. */
  datatype Setting = Setting(run: Run, chatRuns: set<nat>, meetings: Meetings, actions: Actions, teamWide: bool)

  // ---- One proposal -------------------------------------------------------------------------------------

  function SubagentOf(run: Run): string { if run.route.Some? then run.route.value else "" }

  function ScopeFor(route: Option<string>): string {
    if route.Some? && route.value in {"research", "workload", "followup", "report"} then route.value else "any"
  }

  /** `_needs_approval`. */
  predicate NeedsApproval(p: Proposal, actions: Actions) {
    p.level.L2? || (p.tool in actions && actions[p.tool].level.L2?)
  }

  /** Python's truth of an argument that passed the check. */
  predicate Says(v: Value) { (v.Flag? && v.b) || (v.Text? && v.s != "") }

  function OwnMeeting(run: Run): Value { if run.meeting.Some? then Text(run.meeting.value) else Null }

  /** The meeting a proposal is about: the one it names first when the judgment is the team's, else the run's own. */
  function ChosenMeeting(setting: Setting, p: Proposal): Value {
    var named, own := Get(p.arguments, "meeting_id"), OwnMeeting(setting.run);
    if setting.teamWide then (if Says(named) then named else own) else (if Says(own) then own else named)
  }

  /** What becomes of one proposal. */
  datatype Fate = Passed | Turned(reason: Reason) | Queues(meeting: Option<string>)

  function FateOf(setting: Setting, p: Proposal): Fate {
    if !NeedsApproval(p, setting.actions) then Passed
    else if !(IsSubagentName(SubagentOf(setting.run)) && ArgumentsOk(p.arguments)) then Turned(ArgumentRefused)
    else
      var meeting := ChosenMeeting(setting, p);
      if !meeting.Null? && meeting != OwnMeeting(setting.run) && !OfTeam(setting.meetings, meeting, setting.run.team)
      then Turned(MeetingNotFound)
      else Queues(if meeting.Text? then Some(meeting.s) else None)
  }

  function NewRow(setting: Setting, meeting: Option<string>, p: Proposal): Row {
    Row(setting.run.team, meeting, Some(setting.run.id), SubagentOf(setting.run), p.tool, p.kind, p.arguments,
        p.evidence, ScopeFor(setting.run.route), Waiting, None, None, None, None)
  }

  function Refusal(p: Proposal, reason: Reason): Record { Record(p.tool, L2, false, Some(reason), p.evidence) }

  /** `_waiting_before`. */
  predicate WaitingBefore(run: Run, row: Row) {
    row.team == run.team && row.subagent == SubagentOf(run) && row.status.Waiting? &&
    (row.run.None? || row.run.value != run.id)
  }

  /** The narrower conditions of one new row, for `tool` about `meeting`. */
  predicate Narrower(setting: Setting, meeting: Option<string>, tool: string, row: Row) {
    setting.teamWide ||
    (meeting.Some? && row.meeting == meeting &&
     (setting.run.chat ==> (row.run.Some? && row.run.value in setting.chatRuns) || row.tool == tool))
  }

  function Retired(row: Row): Row { row.(status := Superseded) }

  function Supersede(rows: Rows, setting: Setting, meeting: Option<string>, tool: string): Rows {
    map id | id in rows ::
      if WaitingBefore(setting.run, rows[id]) && Narrower(setting, meeting, tool, rows[id])
      then Retired(rows[id]) else rows[id]
  }

  // ---- All the proposals of a run, at once --------------------------------------------------------------

  /** What became of the proposal at `at`. */
  datatype Fated<T> = Fated(at: nat, p: Proposal, what: T)

  /** A queued proposal, and the meeting its row is about. */
  type Kept = Fated<Option<string>>

  /** A refused proposal, and why. */
  type TurnedDown = Fated<Reason>

  /** The queued ones among the first `n` proposals, in order. */
  function QueuedUpTo(setting: Setting, proposed: seq<Proposal>, n: nat): (kept: seq<Kept>)
    requires n <= |proposed|
  {
    if n == 0 then []
    else
      var front := QueuedUpTo(setting, proposed, n - 1);
      match FateOf(setting, proposed[n - 1])
      case Queues(meeting) => front + [Fated(n - 1, proposed[n - 1], meeting)]
      case _ => front
  }

  function TurnedUpTo(setting: Setting, proposed: seq<Proposal>, n: nat): (turned: seq<TurnedDown>)
    requires n <= |proposed|
  {
    if n == 0 then []
    else
      var front := TurnedUpTo(setting, proposed, n - 1);
      match FateOf(setting, proposed[n - 1])
      case Turned(reason) => front + [Fated(n - 1, proposed[n - 1], reason)]
      case _ => front
  }

  function QueuedOf(setting: Setting, proposed: seq<Proposal>): seq<Kept> { QueuedUpTo(setting, proposed, |proposed|) }

  function TurnedOf(setting: Setting, proposed: seq<Proposal>): seq<TurnedDown> {
    TurnedUpTo(setting, proposed, |proposed|)
  }

  function Refusals(turned: seq<TurnedDown>): (records: seq<Record>)
    ensures |records| == |turned|
  {
    seq(|turned|, i requires 0 <= i < |turned| => Refusal(turned[i].p, turned[i].what))
  }

  /** The record of a refused proposal. */
  ghost predicate IsRefusal(t: TurnedDown, record: Record) {
    record == Record(t.p.tool, L2, false, Some(t.what), t.p.evidence)
  }

  /** Each is the proposal at its place among the first `n`, once, in order. */
  ghost predicate FromPlaces<T>(proposed: seq<Proposal>, n: nat, fated: seq<Fated<T>>) {
    && n <= |proposed|
    && (forall j | 0 <= j < |fated| :: fated[j].at < n && fated[j].p == proposed[fated[j].at])
    && (forall j, l | 0 <= j < l < |fated| :: fated[j].at < fated[l].at)
  }

  ghost predicate IsAt<T>(fated: seq<Fated<T>>, i: nat) { exists j :: 0 <= j < |fated| && fated[j].at == i }

  lemma IsAtSnoc<T>(fated: seq<Fated<T>>, last: Fated<T>, i: nat)
    ensures IsAt(fated + [last], i) <==> IsAt(fated, i) || last.at == i
  {
    var more := fated + [last];
    if j :| 0 <= j < |fated| && fated[j].at == i { assert more[j].at == i; }
    if j :| 0 <= j < |more| && more[j].at == i && j < |fated| { assert fated[j].at == i; }
    assert more[|fated|] == last;
  }

  /** The proposal says it is L2, or its module declared its action so. */
  ghost predicate AsksApproval(p: Proposal, actions: Actions) {
    p.level == L2 || exists name :: name in actions && name == p.tool && actions[name].level == L2
  }

  /** Every proposal that says it is L2, or whose action was declared so, is queued once or refused once, never both,
      and no other is either. */
  lemma NeedingIsQueuedOrRefused(setting: Setting, proposed: seq<Proposal>)
    ensures FromPlaces(proposed, |proposed|, QueuedOf(setting, proposed))
    ensures FromPlaces(proposed, |proposed|, TurnedOf(setting, proposed))
    ensures forall i: nat | i < |proposed| :: (AsksApproval(proposed[i], setting.actions)
      <==> IsAt(QueuedOf(setting, proposed), i) || IsAt(TurnedOf(setting, proposed), i))
    ensures forall i: nat | i < |proposed| ::
      !(IsAt(QueuedOf(setting, proposed), i) && IsAt(TurnedOf(setting, proposed), i))
  {
    QueuedPlaces(setting, proposed, |proposed|);
    RefusedPlaces(setting, proposed, |proposed|);
    forall i: nat | i < |proposed|
      ensures AsksApproval(proposed[i], setting.actions)
        <==> IsAt(QueuedOf(setting, proposed), i) || IsAt(TurnedOf(setting, proposed), i)
    {
      assert FateOf(setting, proposed[i]).Passed? <==> !AsksApproval(proposed[i], setting.actions);
    }
  }

  ghost predicate QueuedAt(setting: Setting, proposed: seq<Proposal>, n: nat, i: nat) {
    i < n <= |proposed| && FateOf(setting, proposed[i]).Queues?
  }

  ghost predicate RefusedAt(setting: Setting, proposed: seq<Proposal>, n: nat, i: nat) {
    i < n <= |proposed| && FateOf(setting, proposed[i]).Turned?
  }

  lemma {:induction false} QueuedPlaces(setting: Setting, proposed: seq<Proposal>, n: nat)
    requires n <= |proposed|
    ensures FromPlaces(proposed, n, QueuedUpTo(setting, proposed, n))
    ensures forall i: nat :: IsAt(QueuedUpTo(setting, proposed, n), i) <==> QueuedAt(setting, proposed, n, i)
  {
    if n > 0 {
      QueuedPlaces(setting, proposed, n - 1);
      var front, all := QueuedUpTo(setting, proposed, n - 1), QueuedUpTo(setting, proposed, n);
      forall i: nat ensures IsAt(all, i) <==> QueuedAt(setting, proposed, n, i) {
        assert IsAt(front, i) <==> QueuedAt(setting, proposed, n - 1, i);
        if all != front { IsAtSnoc(front, all[|front|], i); }
      }
    }
  }

  lemma {:induction false} RefusedPlaces(setting: Setting, proposed: seq<Proposal>, n: nat)
    requires n <= |proposed|
    ensures FromPlaces(proposed, n, TurnedUpTo(setting, proposed, n))
    ensures forall i: nat :: IsAt(TurnedUpTo(setting, proposed, n), i) <==> RefusedAt(setting, proposed, n, i)
  {
    if n > 0 {
      RefusedPlaces(setting, proposed, n - 1);
      var front, all := TurnedUpTo(setting, proposed, n - 1), TurnedUpTo(setting, proposed, n);
      forall i: nat ensures IsAt(all, i) <==> RefusedAt(setting, proposed, n, i) {
        assert IsAt(front, i) <==> RefusedAt(setting, proposed, n - 1, i);
        if all != front { IsAtSnoc(front, all[|front|], i); }
      }
    }
  }

  /** Some queued proposal replaces the row. */
  ghost predicate Replaced(setting: Setting, kept: seq<Kept>, row: Row) {
    WaitingBefore(setting.run, row) && exists i :: 0 <= i < |kept| && Replaces(setting, kept[i], row)
  }

  ghost predicate Replaces(setting: Setting, k: Kept, row: Row) { Narrower(setting, k.what, k.p.tool, row) }

  /** The rows after a run has queued `kept` on `rows`, whose next free id was `next`: the old rows, those some queued
      proposal replaces retired, and one waiting row for each queued proposal. */
  ghost predicate Queued(setting: Setting, kept: seq<Kept>, rows: Rows, next: nat, after: Rows) {
    && (forall id: nat :: id in after <==> id in rows || next <= id < next + |kept|)
    && (forall id | id in rows :: OldRow(setting, kept, rows, after, id))
    && (forall i | 0 <= i < |kept| :: Inserted(setting, kept, next, after, i))
  }

  ghost predicate OldRow(setting: Setting, kept: seq<Kept>, rows: Rows, after: Rows, id: nat)
    requires id in rows
  {
    id in after && after[id] == if Replaced(setting, kept, rows[id]) then Retired(rows[id]) else rows[id]
  }

  ghost predicate Inserted(setting: Setting, kept: seq<Kept>, next: nat, after: Rows, i: nat)
    requires i < |kept|
  {
    next + i in after && IsNewRow(setting.run, kept[i], after[next + i])
  }

  /** A queued proposal's row: the run's, as it was proposed, waiting for an approver of its subagent's scope. */
  ghost predicate IsNewRow(run: Run, k: Kept, row: Row) {
    && row.team == run.team && row.meeting == k.what && row.run == Some(run.id)
    && Some(row.subagent) == (if run.route == None then Some("") else run.route)
    && row.tool == k.p.tool && row.kind == k.p.kind && row.arguments == k.p.arguments && row.evidence == k.p.evidence
    && (row.scope == "any" || Some(row.scope) == run.route)
    && (row.scope != "any" <==> run.route in {Some("research"), Some("workload"), Some("followup"), Some("report")})
    && row.status == Waiting && row.rejectReason == None && row.resultOk == None && row.resultReason == None
    && row.decidedBy == None
  }

  ghost predicate Fresh(rows: Rows, next: nat) { forall id | id in rows :: id < next }

  lemma NothingQueued(setting: Setting, rows: Rows, next: nat)
    requires Fresh(rows, next)
    ensures Queued(setting, [], rows, next, rows)
  {
  }

  /** One more proposal, queued as the loop does it: one guarded UPDATE, then one INSERT. */
  lemma QueuesOneMore(setting: Setting, kept: seq<Kept>, rows: Rows, next: nat, before: Rows, k: Kept, after: Rows)
    requires Fresh(rows, next) && Queued(setting, kept, rows, next, before)
    requires after == (if setting.teamWide || k.what.Some? then Supersede(before, setting, k.what, k.p.tool)
                       else before)
      [next + |kept| := NewRow(setting, k.what, k.p)]
    ensures Queued(setting, kept + [k], rows, next, after)
  {
    var kept' := kept + [k];
    forall id | id in rows ensures OldRow(setting, kept', rows, after, id) {
      assert OldRow(setting, kept, rows, before, id);
      StillReplaced(setting, kept, k, rows[id]);
    }
    forall i | 0 <= i < |kept'| ensures Inserted(setting, kept', next, after, i) {
      if i < |kept| { assert Inserted(setting, kept, next, before, i); }
    }
  }

  lemma StillReplaced(setting: Setting, kept: seq<Kept>, k: Kept, row: Row)
    ensures Replaced(setting, kept + [k], row)
      <==> Replaced(setting, kept, row) || (WaitingBefore(setting.run, row) && Replaces(setting, k, row))
  {
    var kept' := kept + [k];
    if Replaced(setting, kept, row) {
      var i :| 0 <= i < |kept| && Replaces(setting, kept[i], row);
      assert Replaces(setting, kept'[i], row);
    }
    if Replaced(setting, kept', row) {
      var i :| 0 <= i < |kept'| && Replaces(setting, kept'[i], row);
      assert i < |kept| ==> Replaces(setting, kept[i], row);
    }
    assert kept'[|kept|] == k;
  }

  /** The meeting a proposal names. */
  ghost predicate Names(p: Proposal, meeting: string) {
    "meeting_id" in p.arguments && p.arguments["meeting_id"] == Text(meeting)
  }

  /** The run's subagent and the proposal's arguments are codes. */
  ghost predicate Fine(setting: Setting, p: Proposal) {
    && OnlyCodes(p.arguments)
    && (forall name | setting.run.route == Some(name) ::
          |name| <= 32 && forall c | c in name :: 'a' <= c <= 'z' || c == '_')
  }

  /** What a queued proposal is known to be: it asks for approval, its arguments are codes, and its row is about just
      the meeting it should be about, which is the run's own or one of the team's. */
  ghost predicate Sound(setting: Setting, k: Kept) {
    && AsksApproval(k.p, setting.actions) && Fine(setting, k.p) && AboutTheRight(setting, k)
    && !NamesAnOutsider(setting, k.p)
    && (k.what.Some? && k.what != setting.run.meeting ==>
          k.what.value in setting.meetings && setting.meetings[k.what.value] == setting.run.team)
  }

  /** When the judgment is the team's, the row is about the meeting the proposal names, if that is not empty, and
      else about the run's own; otherwise it is about the run's own, and, when the run has none, about what the
      proposal names, if it names one. */
  ghost predicate AboutTheRight(setting: Setting, k: Kept) {
    if setting.teamWide then
      && (forall m | Names(k.p, m) && m != "" :: k.what == Some(m))
      && ((forall m | Names(k.p, m) :: m == "") ==> k.what == setting.run.meeting)
    else if setting.run.meeting.Some? && setting.run.meeting.value != "" then k.what == setting.run.meeting
    else
      && (forall m | Names(k.p, m) :: k.what == Some(m))
      && ((forall m :: !Names(k.p, m)) ==> k.what == None)
  }

  lemma {:induction false} QueuedAreSound(setting: Setting, proposed: seq<Proposal>, n: nat)
    requires n <= |proposed|
    ensures forall k | k in QueuedUpTo(setting, proposed, n) :: Sound(setting, k)
  {
    if n > 0 {
      QueuedAreSound(setting, proposed, n - 1);
      if FateOf(setting, proposed[n - 1]).Queues? { QueuedIsSound(setting, n - 1, proposed[n - 1]); }
    }
  }

  lemma FineExactly(setting: Setting, p: Proposal)
    ensures Fine(setting, p) <==> IsSubagentName(SubagentOf(setting.run)) && ArgumentsOk(p.arguments)
  {
    ArgumentsExactly(p.arguments);
    var name := SubagentOf(setting.run);
    assert forall i | 0 <= i < |name| :: name[i] in name;
  }

  lemma QueuedIsSound(setting: Setting, at: nat, p: Proposal)
    requires FateOf(setting, p).Queues?
    ensures Sound(setting, Fated(at, p, FateOf(setting, p).meeting))
  {
    FineExactly(setting, p);
    var named := Get(p.arguments, "meeting_id");
    if named.Text? { assert Names(p, named.s); }
    assert forall m | Names(p, m) :: named == Text(m);
  }

  /** The row would be about what the proposal names, and that is neither the run's own meeting nor one of the
      team's. */
  ghost predicate NamesAnOutsider(setting: Setting, p: Proposal) {
    "meeting_id" in p.arguments && var v, own := p.arguments["meeting_id"], setting.run.meeting;
    && (if setting.teamWide then v != Flag(false) && v != Text("") else own == None || own == Some(""))
    && forall m | v == Text(m) ::
         own != Some(m) && !(m in setting.meetings && setting.meetings[m] == setting.run.team)
  }

  /** A proposal is turned down for its arguments, or, when those are fine, for the meeting it names. */
  ghost predicate RightlyTurned(setting: Setting, t: TurnedDown) {
    && AsksApproval(t.p, setting.actions)
    && (t.what == ArgumentRefused || t.what == MeetingNotFound)
    && (t.what == ArgumentRefused <==> !Fine(setting, t.p))
    && (t.what == MeetingNotFound <==> Fine(setting, t.p) && NamesAnOutsider(setting, t.p))
  }

  lemma {:induction false} TurnedAreRight(setting: Setting, proposed: seq<Proposal>, n: nat)
    requires n <= |proposed|
    ensures forall t | t in TurnedUpTo(setting, proposed, n) :: RightlyTurned(setting, t)
  {
    if n > 0 {
      TurnedAreRight(setting, proposed, n - 1);
      var p := proposed[n - 1];
      if FateOf(setting, p).Turned? { TurnedIsRight(setting, n - 1, p); }
    }
  }

  lemma TurnedIsRight(setting: Setting, at: nat, p: Proposal)
    requires FateOf(setting, p).Turned?
    ensures RightlyTurned(setting, Fated(at, p, FateOf(setting, p).reason))
  {
    FineExactly(setting, p);
    if Fine(setting, p) { assert Get(p.arguments, "meeting_id") != Null; }
  }

  // ---- What a run may retire ----------------------------------------------------------------------------

  /** The row waits, of the run's team and subagent, and is not the run's own; a deleted run's is older than any. */
  ghost predicate WaitsFromAnother(run: Run, row: Row) {
    && row.status == Waiting && row.team == run.team && row.run != Some(run.id)
    && Some(row.subagent) == if run.route == None then Some("") else run.route
  }

  /** What a row must be for the queued proposal to take its place. */
  ghost predicate TakesItsPlace(setting: Setting, k: Kept, row: Row) {
    setting.teamWide
    || (row.meeting != None && row.meeting == k.what
        && (!setting.run.chat || row.tool == k.p.tool || exists r :: r in setting.chatRuns && row.run == Some(r)))
  }

  /** A run retires just the waiting rows, left by others of its team and subagent, that some queued proposal takes the
      place of; every other row stays as it is. */
  lemma RetiresExactly(setting: Setting, kept: seq<Kept>, rows: Rows, next: nat, after: Rows, id: nat)
    requires Queued(setting, kept, rows, next, after) && id in rows
    ensures id in after && after[id] ==
      if WaitsFromAnother(setting.run, rows[id])
         && exists i :: 0 <= i < |kept| && TakesItsPlace(setting, kept[i], rows[id])
      then rows[id].(status := Superseded) else rows[id]
  {
    var row := rows[id];
    assert OldRow(setting, kept, rows, after, id);
    forall i | 0 <= i < |kept| ensures Replaces(setting, kept[i], row) <==> TakesItsPlace(setting, kept[i], row) {}
    assert WaitingBefore(setting.run, row) <==> WaitsFromAnother(setting.run, row);
  }

  /** Whatever a run retires was waiting, for the same team and subagent, and from another run. */
  lemma RetiresOnlyEarlierOwn(setting: Setting, kept: seq<Kept>, rows: Rows, next: nat, after: Rows, id: nat)
    requires Queued(setting, kept, rows, next, after) && id in rows
    ensures id in after && (after[id] != rows[id] ==>
      rows[id].status.Waiting? && rows[id].team == setting.run.team && rows[id].subagent == SubagentOf(setting.run)
      && rows[id].run != Some(setting.run.id) && kept != [] && after[id] == rows[id].(status := Superseded))
  {
    assert OldRow(setting, kept, rows, after, id);
  }

  ghost predicate WaitsFor(row: Row, team: string, subagent: string) {
    row.status.Waiting? && row.team == team && row.subagent == subagent
  }

  /** A judgment of the team that queued anything leaves only its own rows waiting, and all of those. */
  lemma TeamWideLeavesOwn(setting: Setting, kept: seq<Kept>, rows: Rows, next: nat, after: Rows, id: nat)
    requires Queued(setting, kept, rows, next, after) && Fresh(rows, next) && setting.teamWide && kept != []
    requires id in after
    requires forall r | r in rows :: rows[r].run != Some(setting.run.id)
    ensures WaitsFor(after[id], setting.run.team, SubagentOf(setting.run)) <==> next <= id
  {
    if id in rows {
      assert OldRow(setting, kept, rows, after, id);
      assert Replaces(setting, kept[0], rows[id]);
    } else {
      assert Inserted(setting, kept, next, after, id - next);
    }
  }

  /** A chat about meetings retires a row the pipeline left waiting exactly when it queued the same action for the same
      meeting; a row an earlier chat left, exactly when it queued anything for that meeting. */
  lemma ChatRetiresExactly(setting: Setting, kept: seq<Kept>, rows: Rows, next: nat, after: Rows, id: nat)
    requires Queued(setting, kept, rows, next, after) && !setting.teamWide && setting.run.chat
    requires id in rows && WaitsFromAnother(setting.run, rows[id])
    ensures var row := rows[id];
      id in after && (after[id] != row <==> row.meeting.Some? && (exists i ::
        0 <= i < |kept| && About(kept[i], row.meeting)
        && (kept[i].p.tool == row.tool || (row.run.Some? && row.run.value in setting.chatRuns))))
  {
    var row := rows[id];
    assert OldRow(setting, kept, rows, after, id);
    assert Retired(row) != row;
    if i :| 0 <= i < |kept| && About(kept[i], row.meeting) && row.meeting.Some?
            && (kept[i].p.tool == row.tool || (row.run.Some? && row.run.value in setting.chatRuns)) {
      assert Replaces(setting, kept[i], row);
    }
    if Replaced(setting, kept, row) {
      var i :| 0 <= i < |kept| && Replaces(setting, kept[i], row);
      assert About(kept[i], row.meeting);
    }
  }

  ghost predicate About(k: Kept, meeting: Option<string>) { k.what == meeting }

  /** A run of the pipeline about its meeting retires every earlier row of that meeting and no row of another. */
  lemma PipelineRetiresExactly(setting: Setting, kept: seq<Kept>, rows: Rows, next: nat, after: Rows, id: nat)
    requires Queued(setting, kept, rows, next, after) && !setting.teamWide && !setting.run.chat
    requires id in rows && WaitsFromAnother(setting.run, rows[id])
    ensures id in after && (after[id] != rows[id] <==>
      rows[id].meeting.Some? && exists i :: 0 <= i < |kept| && About(kept[i], rows[id].meeting))
  {
    var row := rows[id];
    assert OldRow(setting, kept, rows, after, id);
    assert Retired(row) != row;
    if i :| 0 <= i < |kept| && About(kept[i], row.meeting) && row.meeting.Some? {
      assert Replaces(setting, kept[i], row);
    }
    if Replaced(setting, kept, row) {
      var i :| 0 <= i < |kept| && Replaces(setting, kept[i], row);
      assert About(kept[i], row.meeting);
    }
  }

  /** No doubled card: of the rows that wait for one action about one meeting, those left after a run that queued that
      action for that meeting are the run's own. */
  lemma NoDoubledCard(setting: Setting, kept: seq<Kept>, rows: Rows, next: nat, after: Rows, i: nat, id: nat)
    requires Queued(setting, kept, rows, next, after) && i < |kept| && kept[i].what.Some? && id in after
    requires WaitsFor(after[id], setting.run.team, SubagentOf(setting.run))
    requires after[id].tool == kept[i].p.tool && after[id].meeting == kept[i].what
    ensures after[id].run == Some(setting.run.id)
  {
    if id in rows {
      assert OldRow(setting, kept, rows, after, id);
      if WaitingBefore(setting.run, rows[id]) { assert Replaces(setting, kept[i], rows[id]); }
    } else {
      assert Inserted(setting, kept, next, after, id - next);
    }
  }

  // ---- The desk -----------------------------------------------------------------------------------------

  /** What deciding on a row came to; `Leaks` is the privacy violation raised through `approve`. */
  datatype Decision = Decided(row: Row) | NotFound | NotAnApprover | AlreadyDecided | BadReason | LeaksOut

  datatype Approver = Approver(team: string, user: string, scope: string)

  predicate IsRejectReason(reason: string) { reason in {"wrong_evidence", "not_now", "handled_elsewhere", "other"} }

  /** `approver_scopes`: none for someone who has left the team. */
  function ScopesOf(approvers: set<Approver>, members: set<(string, string)>, team: string, user: string): set<string> {
    set a | a in approvers && a.team == team && a.user == user && (team, user) in members :: a.scope
  }

  /** `_load`: whether the user may decide on the row. */
  function Loads(rows: Rows, approvers: set<Approver>, members: set<(string, string)>, id: nat, user: string): Decision
  {
    if id !in rows then NotFound
    else
      var scopes := ScopesOf(approvers, members, rows[id].team, user);
      if scopes == {} then NotFound
      else if "any" !in scopes && rows[id].scope !in scopes then NotAnApprover
      else Decided(rows[id])
  }

  /** An approver of the row's team for the row's scope, or for any, who is still a member. */
  ghost predicate MayDecide(row: Row, approvers: set<Approver>, members: set<(string, string)>, user: string) {
    && (row.team, user) in members
    && exists a :: a in approvers && a.team == row.team && a.user == user && (a.scope == "any" || a.scope == row.scope)
  }

  /** An approver of the row's team for anything at all, who is still a member. */
  ghost predicate Approves(row: Row, approvers: set<Approver>, members: set<(string, string)>, user: string) {
    (row.team, user) in members && exists a :: a in approvers && a.team == row.team && a.user == user
  }

  /** Who may decide on a row, and what everybody else is told: an approver for other things that they may not, and
      anyone else that there is no such row. */
  lemma LoadsExactly(rows: Rows, approvers: set<Approver>, members: set<(string, string)>, id: nat, user: string)
    ensures Loads(rows, approvers, members, id, user) ==
      if id in rows && MayDecide(rows[id], approvers, members, user) then Decided(rows[id])
      else if id in rows && Approves(rows[id], approvers, members, user) then NotAnApprover
      else NotFound
  {
    if id in rows {
      var scopes := ScopesOf(approvers, members, rows[id].team, user);
      assert forall a | a in approvers && a.team == rows[id].team && a.user == user ::
        (a.team, user) in members ==> a.scope in scopes;
      if s :| s in scopes { assert Approves(rows[id], approvers, members, user); }
    }
  }

  /** The row as its claim leaves it. */
  function ClaimedAs(row: Row, status: Status, user: string, reason: Option<string>): Row {
    row.(status := status, decidedBy := Some(user), rejectReason := if reason.Some? then reason else row.rejectReason)
  }

  /** The row as `approve` leaves it once its action has ended. */
  function SettledAs(row: Row, ok: bool, reason: Option<Reason>): Row {
    row.(status := if ok then Approved else Failed, resultOk := Some(ok),
         resultReason := if ok then None else OwnReason(reason))
  }

  /** The scope a claimed row's action runs under: the row's team and meeting, and the approver. */
  function ApprovalScope(row: Row, user: string): Scope { Scope(row.team, row.meeting, Some(user)) }

  /** How the action of a claimed row ends, given what it does if it is called. */
  function EndingFor(row: Row, user: string, actions: Actions, meetings: Meetings, effect: Effect): Ending {
    if row.tool !in actions then Failing(NotDeclared)
    else RunAction(actions[row.tool], row.arguments, ApprovalScope(row, user), meetings, effect)
  }

  /** The call made for a claimed row, if any. */
  function CallFor(row: Row, user: string, actions: Actions, meetings: Meetings): (call: Option<Call>)
    ensures call.Some? ==> row.tool in actions
  {
    if row.tool !in actions then None else CallOf(actions[row.tool], row.arguments, ApprovalScope(row, user), meetings)
  }

  /** A claimed row as its action's end leaves it: a privacy violation leaves it as it was claimed. */
  function AsLeft(row: Row, ended: Ending): Row {
    match ended
    case Ended(ok, reason, _) => SettledAs(row, ok, reason)
    case Leaked => row
  }

  /** The approver's row is claimed for good, and its action run under the row's team and meeting for the approver.
      How it ended is written down, with no module's sentence; a privacy violation leaves the row approved with no
      result. */
  ghost predicate Acted(row: Row, user: string, actions: Actions, meetings: Meetings, effect: Effect, after: Row,
                        decision: Decision, called: Option<Call>)
  {
    var scope, claimed := Scope(row.team, row.meeting, Some(user)), row.(status := Approved, decidedBy := Some(user));
    if row.tool !in actions then
      && called == None && decision == Decided(after)
      && after == claimed.(status := Failed, resultOk := Some(false), resultReason := Some(NotDeclared))
    else
      && called == CallOf(actions[row.tool], row.arguments, scope, meetings)
      && match RunAction(actions[row.tool], row.arguments, scope, meetings, effect)
         case Leaked => decision == LeaksOut && after == claimed
         case Ended(ok, reason, _) =>
           && decision == Decided(after)
           && (ok ==> after == claimed.(resultOk := Some(true), resultReason := None))
           && (!ok ==> exists kept ::
                 && after == claimed.(status := Failed, resultOk := Some(false), resultReason := kept)
                 && (kept == reason || kept == None)
                 && (kept == None <==> reason == None || exists text :: reason == Some(OfModule(text))))
  }

  /** What the steps of an approval come to is what `Approve` leaves. */
  lemma ActsExactly(row: Row, user: string, actions: Actions, meetings: Meetings, effect: Effect)
    ensures var claimed := ClaimedAs(row, Approved, user, None);
      var ended := EndingFor(claimed, user, actions, meetings, effect);
      var after := AsLeft(claimed, ended);
      Acted(row, user, actions, meetings, effect, after, if ended.Leaked? then LeaksOut else Decided(after),
            CallFor(claimed, user, actions, meetings))
  {
    hide RunAction, CallOf;
    var claimed := ClaimedAs(row, Approved, user, None);
    var ended := EndingFor(claimed, user, actions, meetings, effect);
    if ended.Ended? { OwnReasonExactly(ended.reason); }
  }

  class Desk {
    var rows: Rows
    var next: nat
    var meetings: Meetings
    var approvers: set<Approver>
    var members: set<(string, string)>

    ghost predicate Valid()
      reads this
    {
      Fresh(rows, next)
    }

    method QueueL2(setting: Setting, proposed: seq<Proposal>) returns (refused: seq<Record>)
      requires Valid() && setting.meetings == meetings
      modifies `rows, `next
      ensures Valid() && next == old(next) + |QueuedOf(setting, proposed)|
      ensures Queued(setting, QueuedOf(setting, proposed), old(rows), old(next), rows)
      ensures refused == Refusals(TurnedOf(setting, proposed))
      ensures forall j | 0 <= j < |refused| :: IsRefusal(TurnedOf(setting, proposed)[j], refused[j])
    {
      refused := [];
      NothingQueued(setting, rows, next);
      for n := 0 to |proposed|
        invariant Valid() && next == old(next) + |QueuedUpTo(setting, proposed, n)|
        invariant Queued(setting, QueuedUpTo(setting, proposed, n), old(rows), old(next), rows)
        invariant refused == Refusals(TurnedUpTo(setting, proposed, n))
      {
        var proposal := proposed[n];
        if !NeedsApproval(proposal, setting.actions) { continue; }
        var fine := CheckArguments(proposal.arguments);
        if !(IsSubagentName(SubagentOf(setting.run)) && fine) {
          refused := refused + [Refusal(proposal, ArgumentRefused)];
          continue;
        }
        var meeting := ChosenMeeting(setting, proposal);
        if !meeting.Null? && meeting != OwnMeeting(setting.run) && !OfTeam(meetings, meeting, setting.run.team) {
          refused := refused + [Refusal(proposal, MeetingNotFound)];
          continue;
        }
        Insert(setting, n, if meeting.Text? then Some(meeting.s) else None, proposal, QueuedUpTo(setting, proposed, n),
               old(rows), old(next));
      }
    }

    /** The guarded UPDATE and the INSERT of one proposal. */
    method Insert(setting: Setting, ghost at: nat, meeting: Option<string>, proposal: Proposal,
                  ghost kept: seq<Kept>, ghost start: Rows, ghost first: nat)
      requires Valid() && Fresh(start, first) && next == first + |kept| && Queued(setting, kept, start, first, rows)
      modifies `rows, `next
      ensures Valid() && next == old(next) + 1
      ensures Queued(setting, kept + [Fated(at, proposal, meeting)], start, first, rows)
    {
      ghost var before := rows;
      if setting.teamWide || meeting.Some? {
        rows := Supersede(rows, setting, meeting, proposal.tool);
      }
      rows, next := rows[next := NewRow(setting, meeting, proposal)], next + 1;
      QueuesOneMore(setting, kept, start, first, before, Fated(at, proposal, meeting), rows);
    }

    /** The rows the run's subagent left waiting are retired, and no row is else changed. */
    method RetireTeamWide(run: Run)
      requires Valid()
      modifies `rows
      ensures Valid() && rows.Keys == old(rows).Keys
      ensures forall id | id in rows ::
        rows[id] ==
          if WaitsFromAnother(run, old(rows)[id]) then old(rows)[id].(status := Superseded) else old(rows)[id]
      ensures forall id | id in rows && WaitsFor(rows[id], run.team, SubagentOf(run)) :: rows[id].run == Some(run.id)
    {
      rows := map id | id in rows :: if WaitingBefore(run, rows[id]) then Retired(rows[id]) else rows[id];
    }

    /** `_claim`: out of waiting exactly once; whoever comes later loses. */
    method Claim(id: nat, user: string, status: Status, reason: Option<string>) returns (won: bool)
      requires Valid()
      modifies `rows
      ensures Valid() && won == (id in old(rows) && old(rows)[id].status.Waiting?)
      ensures !won ==> rows == old(rows)
      ensures won ==> rows == old(rows)[id := ClaimedAs(old(rows)[id], status, user, reason)]
      ensures won ==> rows[id] == old(rows)[id].(
                status := status, decidedBy := Some(user),
                rejectReason := if reason == None then old(rows)[id].rejectReason else reason)
    {
      won := id in rows && rows[id].status.Waiting?;
      if won { rows := rows[id := ClaimedAs(rows[id], status, user, reason)]; }
    }

    /** `approve`, `effect` being what the row's action does if it is called. */
    method Approve(id: nat, user: string, actions: Actions, effect: Effect)
      returns (decision: Decision, called: Option<Call>)
      requires Valid()
      modifies `rows
      ensures Valid() && rows.Keys == old(rows).Keys
      ensures forall other | other in rows && other != id :: rows[other] == old(rows)[other]
      ensures !(id in old(rows) && MayDecide(old(rows)[id], approvers, members, user)) ==>
        && rows == old(rows) && called == None
        && decision == if id in old(rows) && Approves(old(rows)[id], approvers, members, user) then NotAnApprover
                       else NotFound
      ensures id in old(rows) && MayDecide(old(rows)[id], approvers, members, user) ==>
        if old(rows)[id].status != Waiting then decision == AlreadyDecided && called == None && rows == old(rows)
        else Acted(old(rows)[id], user, actions, meetings, effect, rows[id], decision, called)
    {
      LoadsExactly(rows, approvers, members, id, user);
      decision, called := Loads(rows, approvers, members, id, user), None;
      if !decision.Decided? { return; }
      var won := Claim(id, user, Approved, None);
      if !won { decision := AlreadyDecided; return; }
      var row := rows[id];
      if row.tool !in actions {
        rows := rows[id := SettledAs(row, false, Some(NotDeclared))];
      } else {
        var action, scope := actions[row.tool], ApprovalScope(row, user);
        called := CallOf(action, row.arguments, scope, meetings);
        var ending := RunAction(action, row.arguments, scope, meetings, effect);
        if ending.Leaked? { decision := LeaksOut; return; }
        rows := rows[id := SettledAs(row, ending.ok, ending.reason)];
      }
      decision := Decided(rows[id]);
    }

    method Reject(id: nat, user: string, reason: string) returns (decision: Decision)
      requires Valid()
      modifies `rows
      ensures Valid() && rows.Keys == old(rows).Keys
      ensures reason !in {"wrong_evidence", "not_now", "handled_elsewhere", "other"} ==>
        decision == BadReason && rows == old(rows)
      ensures reason in {"wrong_evidence", "not_now", "handled_elsewhere", "other"} ==>
        if !(id in old(rows) && MayDecide(old(rows)[id], approvers, members, user)) then
          && rows == old(rows)
          && decision == if id in old(rows) && Approves(old(rows)[id], approvers, members, user) then NotAnApprover
                         else NotFound
        else if old(rows)[id].status != Waiting then decision == AlreadyDecided && rows == old(rows)
        else
          && decision == Decided(rows[id])
          && rows == old(rows)[id := old(rows)[id].(status := Rejected, decidedBy := Some(user),
                                                    rejectReason := Some(reason))]
    {
      if !IsRejectReason(reason) { return BadReason; }
      LoadsExactly(rows, approvers, members, id, user);
      decision := Loads(rows, approvers, members, id, user);
      if !decision.Decided? { return; }
      var won := Claim(id, user, Rejected, Some(reason));
      decision := if won then Decided(rows[id]) else AlreadyDecided;
    }
  }
}
