/** Approvals, runs, deletions and crashes, in any order. */
module Protocol {

  // Each step is one statement: a guarded UPDATE, an INSERT, or one call of a module's write. A run queues by one
  // UPDATE and one INSERT for each proposal, and anything may fall between them; undisturbed they are
  // `Pending.Queued`, as `QueueIsItsStatements` says. What a decider's claim and record write are `Pending.ClaimedAs`
  // and `Pending.AsLeft`, and what is called is `Pending.CallFor`. The history a state carries beside its rows is
  // only for stating what happened.

  import opened Options
  import opened Proposals
  import opened Pending
  import opened L1Actions

  /** How far a decider has come with its row: it has read it, claimed it, or its action has ended. */
  datatype Stage = Loaded | Holding | Ending(ok: bool, reason: Option<Reason>)

  /** A session of `approve` or `reject`; `row` is what it last read. */
  datatype Decider = Decider(id: nat, user: string, stage: Stage, row: Row)

  /** A call of a module's write, with the action as it was declared: for a run's L1 proposal, or for an approved
      row. */
  datatype Made = ByRun(action: Action, call: Call) | ByApproval(id: nat, user: string, action: Action, call: Call)

  /** What has happened: the rows as they were queued, how often each row was claimed, rejected and superseded, and the
      calls made, in order. */
  datatype History = History(queued: Rows, claimed: multiset<nat>, rejected: multiset<nat>, superseded: multiset<nat>,
                             made: seq<Made>)

  datatype State = State(rows: Rows, next: nat, deciders: map<nat, Decider>, past: History)

  datatype Step =
    | Replace(setting: Setting, meeting: Option<string>, tool: string)
    | Add(setting: Setting, proposal: Proposal)
    | Retire(run: Run)
    | RunL1(bench: Bench, proposed: seq<Proposal>, i: nat)
    | Load(session: nat, id: nat, user: string, approvers: set<Approver>, members: set<(string, string)>)
    | Claim(session: nat)
    | Reject(session: nat, reason: string)
    | Execute(session: nat, actions: Actions, meetings: Meetings, effect: Effect)
    | Settle(session: nat)
    | Crash(session: nat)
    | DeleteRun(deleted: nat)
    | DeleteRows(ids: set<nat>)

  const START := State(map[], 0, map[], History(map[], multiset{}, multiset{}, multiset{}, []))

  /** The rows a step has superseded, when it leads from `rows` to `after`. */
  function SupersededBy(rows: Rows, after: Rows): set<nat> {
    set id | id in rows && id in after && !rows[id].status.Superseded? && after[id].status.Superseded?
  }

  /** The guarded UPDATE of a decider: it wins when the row is there and waits. */
  predicate Wins(s: State, session: nat) {
    session in s.deciders && s.deciders[session].id in s.rows && s.rows[s.deciders[session].id].status.Waiting?
  }

  ghost predicate Next(s: State, step: Step, s': State) {
    match step
    case Replace(setting, meeting, tool) =>
      var after := Supersede(s.rows, setting, meeting, tool);
      s' == s.(rows := after, past := s.past.(superseded := s.past.superseded + multiset(SupersededBy(s.rows, after))))
    case Add(setting, p) =>
      FateOf(setting, p).Queues? &&
      var row := NewRow(setting, FateOf(setting, p).meeting, p);
      s' == s.(rows := s.rows[s.next := row], next := s.next + 1,
               past := s.past.(queued := s.past.queued[s.next := row]))
    case Retire(run) =>
      var after: Rows := map id | id in s.rows ::
        if WaitingBefore(run, s.rows[id]) then Retired(s.rows[id]) else s.rows[id];
      s' == s.(rows := after, past := s.past.(superseded := s.past.superseded + multiset(SupersededBy(s.rows, after))))
    case RunL1(bench, proposed, i) =>
      && i < |proposed| && CallAt(bench, proposed, i).Some?
      && var call := ByRun(bench.actions[proposed[i].tool], CallAt(bench, proposed, i).value);
      s' == s.(past := s.past.(made := s.past.made + [call]))
    case Load(session, id, user, approvers, members) =>
      && session !in s.deciders && Loads(s.rows, approvers, members, id, user).Decided?
      && s' == s.(deciders := s.deciders[session := Decider(id, user, Loaded, s.rows[id])])
    case Claim(session) =>
      && session in s.deciders && s.deciders[session].stage.Loaded?
      && s' == if Wins(s, session) then
                 var d := s.deciders[session];
                 var row := ClaimedAs(s.rows[d.id], Approved, d.user, None);
                 s.(rows := s.rows[d.id := row], deciders := s.deciders[session := d.(stage := Holding, row := row)],
                    past := s.past.(claimed := s.past.claimed + multiset{d.id}))
               else s.(deciders := s.deciders - {session})
    case Reject(session, reason) =>
      && session in s.deciders && s.deciders[session].stage.Loaded? && IsRejectReason(reason)
      && s' == if Wins(s, session) then
                 var d := s.deciders[session];
                 s.(rows := s.rows[d.id := ClaimedAs(s.rows[d.id], Rejected, d.user, Some(reason))],
                    deciders := s.deciders - {session}, past := s.past.(rejected := s.past.rejected + multiset{d.id}))
               else s.(deciders := s.deciders - {session})
    case Execute(session, actions, meetings, effect) =>
      session in s.deciders && s.deciders[session].stage.Holding? &&
      var d := s.deciders[session];
      var ended, call := EndingFor(d.row, d.user, actions, meetings, effect), CallFor(d.row, d.user, actions, meetings);
      s' == s.(
        deciders := if ended.Leaked? then s.deciders - {session}
                    else s.deciders[session := d.(stage := Ending(ended.ok, ended.reason))],
        past := s.past.(
          made := s.past.made + if call.Some? then [ByApproval(d.id, d.user, actions[d.row.tool], call.value)] else []))
    case Settle(session) =>
      session in s.deciders && s.deciders[session].stage.Ending? &&
      var d := s.deciders[session];
      s' == s.(rows := if d.id in s.rows then s.rows[d.id := SettledAs(s.rows[d.id], d.stage.ok, d.stage.reason)]
               else s.rows,
               deciders := s.deciders - {session})
    case Crash(session) => s' == s.(deciders := s.deciders - {session})
    case DeleteRun(deleted) =>
      s' == s.(rows := map id | id in s.rows ::
        if s.rows[id].run == Some(deleted) then s.rows[id].(run := None) else s.rows[id])
    case DeleteRows(ids) => s' == s.(rows := s.rows - ids)
  }

  /** A run of the protocol from the empty queue. */
  ghost predicate Behaviour(states: seq<State>, steps: seq<Step>) {
    && |states| == |steps| + 1 && states[0] == START
    && forall k | 0 <= k < |steps| :: StepAt(states, steps, k)
  }

  ghost predicate StepAt(states: seq<State>, steps: seq<Step>, k: nat)
    requires k < |steps| && |states| == |steps| + 1
  {
    Next(states[k], steps[k], states[k + 1])
  }

  // ---- What every step keeps ----------------------------------------------------------------------------

  /** The same work: what is asked for, and for whom. */
  predicate SameWork(a: Row, b: Row) {
    a.team == b.team && a.meeting == b.meeting && a.subagent == b.subagent && a.tool == b.tool && a.kind == b.kind &&
    a.arguments == b.arguments && a.evidence == b.evidence && a.scope == b.scope
  }

  /** How often the row left the queue. */
  function Leaves(past: History, id: nat): nat { past.claimed[id] + past.rejected[id] + past.superseded[id] }

  predicate StatusTells(status: Status, past: History, id: nat) {
    match status
    case Waiting => Leaves(past, id) == 0
    case Approved => past.claimed[id] == 1
    case Failed => past.claimed[id] == 1
    case Rejected => past.rejected[id] == 1
    case Superseded => past.superseded[id] == 1
  }

  ghost predicate RowKept(s: State, id: nat) {
    && Leaves(s.past, id) <= 1 && (s.next <= id ==> Leaves(s.past, id) == 0) && (id in s.past.queued <==> id < s.next)
    && (id in s.rows ==>
          id < s.next && SameWork(s.rows[id], s.past.queued[id]) && StatusTells(s.rows[id].status, s.past, id))
  }

  predicate Owns(d: Decider, id: nat) { d.id == id && !d.stage.Loaded? }

  ghost predicate DeciderKept(s: State, session: nat)
    requires session in s.deciders
  {
    var d := s.deciders[session];
    && d.id < s.next && d.id in s.past.queued && SameWork(d.row, s.past.queued[d.id])
    && (!d.stage.Loaded? ==> s.past.claimed[d.id] == 1)
    && (d.stage.Holding? ==> !CalledFor(s.past.made, d.id))
    && forall other | other in s.deciders && Owns(s.deciders[other], d.id) && !d.stage.Loaded? :: other == session
  }

  /** The write of row `id` has been called. */
  ghost predicate CalledFor(made: seq<Made>, id: nat) { exists i :: 0 <= i < |made| && ForRow(made[i], id) }

  predicate ForRow(m: Made, id: nat) { m.ByApproval? && m.id == id }

  /** A call for a row is what the row was queued for, under its team and meeting, by its claimed approver. */
  ghost predicate MadeKept(past: History, i: nat)
    requires i < |past.made|
  {
    match past.made[i]
    case ByRun(action, call) => action.level.L1? && call.tool == action.name
    case ByApproval(id, user, action, call) =>
      && id in past.queued && past.claimed[id] == 1 && past.rejected[id] == 0 && past.superseded[id] == 0
      && action.name == past.queued[id].tool && CallsFor(past.queued[id], user, action, call)
      && forall j | 0 <= j < |past.made| && ForRow(past.made[j], id) :: j == i
  }

  ghost predicate CallsFor(row: Row, user: string, action: Action, call: Call) {
    exists meetings: Meetings ::
      CallOf(action, row.arguments, Scope(row.team, row.meeting, Some(user)), meetings) == Some(call)
  }

  ghost predicate Kept(s: State) {
    && (forall id: nat :: RowKept(s, id))
    && (forall session | session in s.deciders :: DeciderKept(s, session))
    && (forall i | 0 <= i < |s.past.made| :: MadeKept(s.past, i))
  }

  /** The rows that were queued stay known as they were, and claims are not taken back. */
  ghost predicate Later(past: History, past': History) {
    && (forall id | id in past.queued :: id in past'.queued && past'.queued[id] == past.queued[id])
    && (forall id: nat :: past.claimed[id] <= past'.claimed[id])
  }

  ghost predicate RowsKept(s: State) { forall id: nat :: RowKept(s, id) }

  lemma MadeStays(s: State, s': State)
    requires Kept(s) && RowsKept(s') && Later(s.past, s'.past) && s'.past.made == s.past.made
    ensures forall i | 0 <= i < |s'.past.made| :: MadeKept(s'.past, i)
  {
    forall i | 0 <= i < |s'.past.made| ensures MadeKept(s'.past, i) {
      assert MadeKept(s.past, i);
      if s.past.made[i].ByApproval? {
        var id := s.past.made[i].id;
        assert RowKept(s', id);
        assert s.past.claimed[id] <= s'.past.claimed[id];
      }
    }
  }

  lemma DeciderStays(s: State, s': State, session: nat)
    requires Kept(s) && RowsKept(s') && Later(s.past, s'.past) && s'.past.made == s.past.made && s.next <= s'.next
    requires session in s.deciders && session in s'.deciders && s'.deciders[session] == s.deciders[session]
    requires forall other | other in s'.deciders :: other in s.deciders && s'.deciders[other] == s.deciders[other]
    ensures DeciderKept(s', session)
  {
    assert DeciderKept(s, session);
    var id := s.deciders[session].id;
    assert RowKept(s', id);
    assert s.past.claimed[id] <= s'.past.claimed[id];
  }

  /** A step that only moves rows on, and lets no decider begin or advance. */
  lemma OthersKeep(s: State, s': State)
    requires Kept(s) && RowsKept(s') && Later(s.past, s'.past) && s'.past.made == s.past.made && s.next <= s'.next
    requires forall other | other in s'.deciders :: other in s.deciders && s'.deciders[other] == s.deciders[other]
    ensures Kept(s')
  {
    MadeStays(s, s');
    forall session | session in s'.deciders ensures DeciderKept(s', session) { DeciderStays(s, s', session); }
  }

  lemma ReplaceKeeps(s: State, setting: Setting, meeting: Option<string>, tool: string, s': State)
    requires Kept(s) && Next(s, Replace(setting, meeting, tool), s')
    ensures Kept(s')
  {
    forall id: nat ensures RowKept(s', id) { assert RowKept(s, id); }
    OthersKeep(s, s');
  }

  lemma AddKeeps(s: State, setting: Setting, p: Proposal, s': State)
    requires Kept(s) && Next(s, Add(setting, p), s')
    ensures Kept(s')
  {
    forall id: nat ensures RowKept(s', id) { assert RowKept(s, id); }
    assert RowKept(s, s.next);
    OthersKeep(s, s');
  }

  lemma RetireKeeps(s: State, run: Run, s': State)
    requires Kept(s) && Next(s, Retire(run), s')
    ensures Kept(s')
  {
    forall id: nat ensures RowKept(s', id) { assert RowKept(s, id); }
    OthersKeep(s, s');
  }

  lemma RunL1Keeps(s: State, bench: Bench, proposed: seq<Proposal>, i: nat, s': State)
    requires Kept(s) && Next(s, RunL1(bench, proposed, i), s')
    ensures Kept(s')
  {
    var n := |s.past.made|;
    forall id: nat ensures RowKept(s', id) { assert RowKept(s, id); }
    forall j | 0 <= j < n + 1 ensures MadeKept(s'.past, j) {
      if j < n { assert MadeKept(s.past, j); }
    }
    forall session | session in s'.deciders ensures DeciderKept(s', session) {
      assert DeciderKept(s, session);
    }
  }

  lemma LoadKeeps(s: State, session: nat, id: nat, user: string, approvers: set<Approver>,
                  members: set<(string, string)>, s': State)
    requires Kept(s) && Next(s, Load(session, id, user, approvers, members), s')
    ensures Kept(s')
  {
    forall r: nat ensures RowKept(s', r) { assert RowKept(s, r); }
    MadeStays(s, s');
    forall other | other in s'.deciders ensures DeciderKept(s', other) {
      assert RowKept(s, id);
      if other != session { assert DeciderKept(s, other); }
    }
  }

  lemma ClaimKeeps(s: State, session: nat, s': State)
    requires Kept(s) && Next(s, Claim(session), s')
    ensures Kept(s')
  {
    hide MadeKept, CallsFor, CallFor, EndingFor, ScopesOf;
    if Wins(s, session) {
      var id := s.deciders[session].id;
      forall r: nat ensures RowKept(s', r) { assert RowKept(s, r); }
      MadeStays(s, s');
      assert RowKept(s, id);
      NotYetCalled(s, id);
      forall other | other in s'.deciders ensures DeciderKept(s', other) {
        assert DeciderKept(s, other);
      }
    } else {
      forall r: nat ensures RowKept(s', r) { assert RowKept(s, r); }
      OthersKeep(s, s');
    }
  }

  /** Nothing has been called for a row nobody has claimed. */
  lemma NotYetCalled(s: State, id: nat)
    requires Kept(s) && s.past.claimed[id] == 0
    ensures !CalledFor(s.past.made, id)
  {
    forall i | 0 <= i < |s.past.made| ensures !ForRow(s.past.made[i], id) { assert MadeKept(s.past, i); }
  }

  lemma RejectKeeps(s: State, session: nat, reason: string, s': State)
    requires Kept(s) && Next(s, Reject(session, reason), s')
    ensures Kept(s')
  {
    forall r: nat ensures RowKept(s', r) { assert RowKept(s, r); }
    OthersKeep(s, s');
  }

  lemma CalledForSnoc(made: seq<Made>, m: Made, id: nat)
    ensures CalledFor(made + [m], id) <==> CalledFor(made, id) || ForRow(m, id)
  {
    var more := made + [m];
    if i :| 0 <= i < |made| && ForRow(made[i], id) { assert ForRow(more[i], id); }
    if i :| 0 <= i < |more| && ForRow(more[i], id) && i < |made| { assert ForRow(made[i], id); }
    assert more[|made|] == m;
  }

  /** A first call for a claimed row joins the calls made. */
  lemma MadeGrows(past: History, past': History, m: Made)
    requires past' == past.(made := past.made + [m]) && forall i | 0 <= i < |past.made| :: MadeKept(past, i)
    requires m.ByApproval? && m.id in past.queued && !CalledFor(past.made, m.id)
    requires m.action.name == past.queued[m.id].tool
    requires past.claimed[m.id] == 1 && past.rejected[m.id] == 0 && past.superseded[m.id] == 0
    requires CallsFor(past.queued[m.id], m.user, m.action, m.call)
    ensures forall i | 0 <= i < |past'.made| :: MadeKept(past', i)
  {
    forall i | 0 <= i < |past'.made| ensures MadeKept(past', i) {
      if i < |past.made| {
        assert MadeKept(past, i);
        assert !ForRow(past.made[i], m.id);
      }
    }
  }

  /** The call of the holder is what its row was queued for. */
  lemma HeldCall(s: State, session: nat, actions: Actions, meetings: Meetings)
    requires Kept(s) && session in s.deciders && s.deciders[session].row.tool in actions
    ensures var d := s.deciders[session];
      d.id in s.past.queued && d.row.tool == s.past.queued[d.id].tool &&
      var call := CallFor(d.row, d.user, actions, meetings);
      call.Some? ==> CallsFor(s.past.queued[d.id], d.user, actions[d.row.tool], call.value)
  {
    var d := s.deciders[session];
    assert DeciderKept(s, session);
    assert ApprovalScope(d.row, d.user) == ApprovalScope(s.past.queued[d.id], d.user);
  }

  lemma OtherHolders(s: State, s': State, session: nat, other: nat)
    requires Kept(s) && session in s.deciders && s.deciders[session].stage.Holding?
    requires other in s.deciders && other != session
    requires s'.past.queued == s.past.queued && s'.past.claimed == s.past.claimed && s'.next == s.next
    requires s'.past.made == s.past.made ||
      exists m :: s'.past.made == s.past.made + [m] && m.ByApproval? && m.id == s.deciders[session].id
    requires other in s'.deciders
    requires forall o | o in s'.deciders && o != session :: o in s.deciders && s'.deciders[o] == s.deciders[o]
    requires session in s'.deciders ==> s'.deciders[session].id == s.deciders[session].id
    ensures DeciderKept(s', other)
  {
    assert DeciderKept(s, other);
    assert DeciderKept(s, session);
    if s'.past.made != s.past.made {
      var m :| s'.past.made == s.past.made + [m] && m.ByApproval? && m.id == s.deciders[session].id;
      CalledForSnoc(s.past.made, m, s.deciders[other].id);
    }
  }

  lemma ExecuteKeeps(s: State, session: nat, actions: Actions, meetings: Meetings, effect: Effect, s': State)
    requires Kept(s) && Next(s, Execute(session, actions, meetings, effect), s')
    ensures Kept(s')
  {
    var d := s.deciders[session];
    assert DeciderKept(s, session) && RowKept(s, d.id);
    forall r: nat ensures RowKept(s', r) { assert RowKept(s, r); }
    if s'.past.made != s.past.made {
      HeldCall(s, session, actions, meetings);
      MadeGrows(s.past, s'.past, s'.past.made[|s.past.made|]);
    }
    forall other | other in s'.deciders ensures DeciderKept(s', other) {
      if other != session { OtherHolders(s, s', session, other); }
    }
  }

  lemma SettleKeeps(s: State, session: nat, s': State)
    requires Kept(s) && Next(s, Settle(session), s')
    ensures Kept(s')
  {
    assert DeciderKept(s, session);
    forall r: nat ensures RowKept(s', r) { assert RowKept(s, r); }
    OthersKeep(s, s');
  }

  lemma DeletionKeeps(s: State, s': State, step: Step)
    requires Kept(s) && Next(s, step, s') && (step.Crash? || step.DeleteRun? || step.DeleteRows?)
    ensures Kept(s')
  {
    forall r: nat ensures RowKept(s', r) { assert RowKept(s, r); }
    OthersKeep(s, s');
  }

  lemma NextKeeps(s: State, step: Step, s': State)
    requires Kept(s) && Next(s, step, s')
    ensures Kept(s')
  {
    match step
    case Replace(setting, meeting, tool) => ReplaceKeeps(s, setting, meeting, tool, s');
    case Add(setting, p) => AddKeeps(s, setting, p, s');
    case Retire(run) => RetireKeeps(s, run, s');
    case RunL1(bench, proposed, i) => RunL1Keeps(s, bench, proposed, i, s');
    case Load(session, id, user, approvers, members) => LoadKeeps(s, session, id, user, approvers, members, s');
    case Claim(session) => ClaimKeeps(s, session, s');
    case Reject(session, reason) => RejectKeeps(s, session, reason, s');
    case Execute(session, actions, meetings, effect) => ExecuteKeeps(s, session, actions, meetings, effect, s');
    case Settle(session) => SettleKeeps(s, session, s');
    case Crash(session) => DeletionKeeps(s, s', step);
    case DeleteRun(deleted) => DeletionKeeps(s, s', step);
    case DeleteRows(ids) => DeletionKeeps(s, s', step);
  }

  // ---- Whole behaviours ---------------------------------------------------------------------------------

  lemma StartKeeps()
    ensures Kept(START)
  {
    forall id: nat ensures RowKept(START, id) {}
  }

  lemma {:induction false} BehaviourKeeps(states: seq<State>, steps: seq<Step>, k: nat)
    requires Behaviour(states, steps) && k < |states|
    ensures Kept(states[k])
  {
    if k == 0 {
      StartKeeps();
    } else {
      BehaviourKeeps(states, steps, k - 1);
      assert StepAt(states, steps, k - 1);
      NextKeeps(states[k - 1], steps[k - 1], states[k]);
    }
  }

  /** A row that has left the queue does not come back to it, and a deleted row's id is not used again. */
  ghost predicate Forward(s: State, s': State, id: nat) {
    && (s.past.claimed[id] <= s'.past.claimed[id])
    && (CalledFor(s.past.made, id) ==> CalledFor(s'.past.made, id))
    && (s.next <= s'.next) && (id < s.next && id in s'.rows ==> id in s.rows)
    && (id in s.rows && id in s'.rows && !s.rows[id].status.Waiting? ==> !s'.rows[id].status.Waiting?)
  }

  lemma NextForward(s: State, step: Step, s': State, id: nat)
    requires Kept(s) && Next(s, step, s')
    ensures Forward(s, s', id)
  {
    hide CallsFor, SameWork, NewRow, DeciderKept, MadeKept, EndingFor, CallFor, ScopesOf, FateOf;
    assert RowKept(s, id);
    if CalledFor(s.past.made, id) { CallsStay(s, step, s', id); }
  }

  lemma CallsStay(s: State, step: Step, s': State, id: nat)
    requires Next(s, step, s') && CalledFor(s.past.made, id)
    ensures CalledFor(s'.past.made, id)
  {
    var made, made' := s.past.made, s'.past.made;
    assert |made| <= |made'| && made'[..|made|] == made;
    var i :| 0 <= i < |made| && ForRow(made[i], id);
    assert made'[i] == made'[..|made|][i];
  }

  lemma {:induction false} BehaviourForward(states: seq<State>, steps: seq<Step>, a: nat, b: nat, id: nat)
    requires Behaviour(states, steps) && a <= b < |states|
    ensures Forward(states[a], states[b], id)
    decreases b
  {
    if a < b {
      BehaviourForward(states, steps, a, b - 1, id);
      BehaviourKeeps(states, steps, b - 1);
      BehaviourKeeps(states, steps, a);
      assert RowKept(states[a], id);
      assert StepAt(states, steps, b - 1);
      NextForward(states[b - 1], steps[b - 1], states[b], id);
    }
  }

  /** No row ever returns to waiting. */
  lemma NeverWaitsAgain(states: seq<State>, steps: seq<Step>, a: nat, b: nat, id: nat)
    requires Behaviour(states, steps) && a <= b < |states|
    requires id in states[a].rows && !states[a].rows[id].status.Waiting?
    ensures id in states[b].rows ==> !states[b].rows[id].status.Waiting?
  {
    BehaviourForward(states, steps, a, b, id);
  }

  /** Step `k` is the claim of row `id` that won. */
  ghost predicate ClaimsAt(states: seq<State>, steps: seq<Step>, k: nat, id: nat)
    requires |states| == |steps| + 1
  {
    k < |steps| && steps[k].Claim? && Wins(states[k], steps[k].session) && states[k].deciders[steps[k].session].id == id
  }

  /** Step `k` calls the write of row `id`. */
  ghost predicate CallsAt(states: seq<State>, steps: seq<Step>, k: nat, id: nat)
    requires |states| == |steps| + 1
  {
    k < |steps| && steps[k].Execute? && steps[k].session in states[k].deciders
    && states[k].deciders[steps[k].session].id == id && |states[k].past.made| < |states[k + 1].past.made|
  }

  lemma {:induction false} ClaimWasMade(states: seq<State>, steps: seq<Step>, n: nat, id: nat) returns (k: nat)
    requires Behaviour(states, steps) && n < |states| && states[n].past.claimed[id] > 0
    ensures k < n && ClaimsAt(states, steps, k, id)
  {
    assert StepAt(states, steps, n - 1);
    if states[n - 1].past.claimed[id] > 0 {
      k := ClaimWasMade(states, steps, n - 1, id);
    } else {
      k := n - 1;
    }
  }

  lemma ClaimCounts(states: seq<State>, steps: seq<Step>, k: nat, id: nat)
    requires Behaviour(states, steps) && ClaimsAt(states, steps, k, id)
    ensures states[k].past.claimed[id] == 0 && states[k + 1].past.claimed[id] > 0
  {
    BehaviourKeeps(states, steps, k);
    assert RowKept(states[k], id);
    assert StepAt(states, steps, k);
  }

  /** A row is claimed at most once. */
  lemma ClaimedOnce(states: seq<State>, steps: seq<Step>, j: nat, k: nat, id: nat)
    requires Behaviour(states, steps) && ClaimsAt(states, steps, j, id) && ClaimsAt(states, steps, k, id)
    ensures j == k
  {
    ClaimCounts(states, steps, j, id);
    ClaimCounts(states, steps, k, id);
    if j < k { BehaviourForward(states, steps, j + 1, k, id); }
    if k < j { BehaviourForward(states, steps, k + 1, j, id); }
  }

  lemma CallCounts(states: seq<State>, steps: seq<Step>, k: nat, id: nat)
    requires Behaviour(states, steps) && CallsAt(states, steps, k, id)
    ensures !CalledFor(states[k].past.made, id) && CalledFor(states[k + 1].past.made, id)
    ensures states[k].past.claimed[id] == 1
  {
    BehaviourKeeps(states, steps, k);
    assert DeciderKept(states[k], steps[k].session);
    assert StepAt(states, steps, k);
    var made := states[k].past.made;
    CalledForSnoc(made, states[k + 1].past.made[|made|], id);
  }

  /** Whatever the interleaving, a row's write is called at most once, only after the one claim of that row that won,
      and never for a row that is rejected or superseded before or after. */
  lemma CalledOnceAfterItsClaim(states: seq<State>, steps: seq<Step>, k: nat, id: nat) returns (claim: nat)
    requires Behaviour(states, steps) && CallsAt(states, steps, k, id)
    ensures forall other: nat | CallsAt(states, steps, other, id) :: other == k
    ensures claim < k && ClaimsAt(states, steps, claim, id)
    ensures forall other: nat | ClaimsAt(states, steps, other, id) :: other == claim
    ensures forall n: nat | n < |states| && id in states[n].rows ::
      !states[n].rows[id].status.Rejected? && !states[n].rows[id].status.Superseded?
  {
    CallCounts(states, steps, k, id);
    claim := ClaimWasMade(states, steps, k, id);
    forall other: nat | CallsAt(states, steps, other, id) ensures other == k {
      CallCounts(states, steps, other, id);
      if other < k { BehaviourForward(states, steps, other + 1, k, id); }
      if k < other { BehaviourForward(states, steps, k + 1, other, id); }
    }
    forall other: nat | ClaimsAt(states, steps, other, id) ensures other == claim {
      ClaimedOnce(states, steps, other, claim, id);
    }
    ClaimCounts(states, steps, claim, id);
    forall n: nat | n < |states| && id in states[n].rows
      ensures !states[n].rows[id].status.Rejected? && !states[n].rows[id].status.Superseded?
    {
      ClaimedMeansApproved(states, steps, claim, n, id);
    }
  }

  /** A row that a claim won was neither rejected nor superseded, nor ever will be. */
  lemma ClaimedMeansApproved(states: seq<State>, steps: seq<Step>, claim: nat, n: nat, id: nat)
    requires Behaviour(states, steps) && ClaimsAt(states, steps, claim, id) && n < |states| && id in states[n].rows
    ensures !states[n].rows[id].status.Rejected? && !states[n].rows[id].status.Superseded?
  {
    BehaviourKeeps(states, steps, n);
    assert RowKept(states[n], id);
    ClaimCounts(states, steps, claim, id);
    if n <= claim {
      BehaviourForward(states, steps, n, claim, id);
    } else {
      BehaviourForward(states, steps, claim + 1, n, id);
    }
  }

  /** Across runs and approvals, an action its module declared L2 is only ever called for a claimed row, and then for
      what that row was queued for, under its team and meeting and by its approver. */
  lemma L2OnlyFromAClaimedRow(states: seq<State>, steps: seq<Step>, n: nat, i: nat)
    requires Behaviour(states, steps) && n < |states| && i < |states[n].past.made|
    requires states[n].past.made[i].action.level.L2?
    ensures var m, past := states[n].past.made[i], states[n].past;
      && m.ByApproval? && m.id in past.queued && past.claimed[m.id] == 1
      && m.action.name == past.queued[m.id].tool && CallsFor(past.queued[m.id], m.user, m.action, m.call)
    ensures exists k: nat :: k < n && ClaimsAt(states, steps, k, states[n].past.made[i].id)
  {
    BehaviourKeeps(states, steps, n);
    assert MadeKept(states[n].past, i);
    var k := ClaimWasMade(states, steps, n, states[n].past.made[i].id);
  }

  // ---- Who decides --------------------------------------------------------------------------------------

  /** At step `k` the user loaded row `id`, as a member and an approver of its team for its scope or for any. */
  ghost predicate LoadedBy(states: seq<State>, steps: seq<Step>, k: nat, id: nat, user: string)
    requires |states| == |steps| + 1
  {
    && k < |steps| && steps[k].Load? && steps[k].id == id && steps[k].user == user && id in states[k].rows
    && MayDecide(states[k].rows[id], steps[k].approvers, steps[k].members, user)
  }

  ghost predicate LoadedBefore(states: seq<State>, steps: seq<Step>, n: nat, id: nat, user: string)
    requires |states| == |steps| + 1
  {
    exists k: nat :: k < n && LoadedBy(states, steps, k, id, user)
  }

  lemma LoadedLater(states: seq<State>, steps: seq<Step>, n: nat)
    requires |states| == |steps| + 1 && n < |steps|
    ensures forall id: nat, user | LoadedBefore(states, steps, n, id, user) ::
      LoadedBefore(states, steps, n + 1, id, user)
  {
    hide LoadedBy;
    forall id: nat, user | LoadedBefore(states, steps, n, id, user)
      ensures LoadedBefore(states, steps, n + 1, id, user)
    {
      var k: nat :| k < n && LoadedBy(states, steps, k, id, user);
      assert k < n + 1 && LoadedBy(states, steps, k, id, user);
    }
  }

  /** Whoever is deciding on a row had loaded it so. */
  ghost predicate DecidersLoaded(states: seq<State>, steps: seq<Step>, n: nat)
    requires |states| == |steps| + 1 && n < |states|
  {
    forall session | session in states[n].deciders :: DeciderLoaded(states, steps, n, session)
  }

  ghost predicate DeciderLoaded(states: seq<State>, steps: seq<Step>, n: nat, session: nat)
    requires |states| == |steps| + 1 && n < |states| && session in states[n].deciders
  {
    LoadedBefore(states, steps, n, states[n].deciders[session].id, states[n].deciders[session].user)
  }

  predicate WasDecided(status: Status) { status.Approved? || status.Failed? || status.Rejected? }

  /** A row that was approved, failed or rejected names the user who had loaded it so. */
  ghost predicate RowsLoaded(states: seq<State>, steps: seq<Step>, n: nat)
    requires |states| == |steps| + 1 && n < |states|
  {
    forall id | id in states[n].rows && WasDecided(states[n].rows[id].status) ::
      && states[n].rows[id].decidedBy.Some?
      && LoadedBefore(states, steps, n, id, states[n].rows[id].decidedBy.value)
  }

  /** A row's write was called for a user who had loaded it so. */
  ghost predicate CallsLoaded(states: seq<State>, steps: seq<Step>, n: nat)
    requires |states| == |steps| + 1 && n < |states|
  {
    forall i | 0 <= i < |states[n].past.made| && states[n].past.made[i].ByApproval? ::
      LoadedBefore(states, steps, n, states[n].past.made[i].id, states[n].past.made[i].user)
  }

  lemma LoadsLater(states: seq<State>, steps: seq<Step>, n: nat)
    requires |states| == |steps| + 1 && n < |steps| && StepAt(states, steps, n) && DecidersLoaded(states, steps, n)
    ensures DecidersLoaded(states, steps, n + 1)
  {
    hide LoadedBefore, CallFor, EndingFor, MayDecide, Loads, FateOf, NewRow, Supersede;
    LoadedLater(states, steps, n);
    var m := n + 1;
    forall session | session in states[m].deciders ensures DeciderLoaded(states, steps, m, session) {
      if session in states[n].deciders {
        assert DeciderLoaded(states, steps, n, session);
      } else {
        LoadIsByApprover(states, steps, n);
      }
    }
  }

  lemma LoadIsByApprover(states: seq<State>, steps: seq<Step>, n: nat)
    requires |states| == |steps| + 1 && n < |steps| && StepAt(states, steps, n) && steps[n].Load?
    ensures LoadedBefore(states, steps, n + 1, steps[n].id, steps[n].user)
  {
    LoadsExactly(states[n].rows, steps[n].approvers, steps[n].members, steps[n].id, steps[n].user);
    assert LoadedBy(states, steps, n, steps[n].id, steps[n].user);
  }

  /** A row that was decided on was so before, or the step is a decider's that wins it. */
  lemma DecidedFrom(s: State, step: Step, s': State, id: nat)
    requires Kept(s) && Next(s, step, s') && id in s'.rows && WasDecided(s'.rows[id].status)
    ensures
      || (id in s.rows && WasDecided(s.rows[id].status) && s'.rows[id].decidedBy == s.rows[id].decidedBy)
      || ((step.Claim? || step.Reject?) && step.session in s.deciders && s.deciders[step.session].id == id
          && s'.rows[id].decidedBy == Some(s.deciders[step.session].user))
  {
    hide CallFor, EndingFor, Loads, FateOf, MadeKept, SameWork, SupersededBy, ScopesOf;
    if step.Settle? { assert DeciderKept(s, step.session) && RowKept(s, s.deciders[step.session].id); }
  }

  lemma RowsLater(states: seq<State>, steps: seq<Step>, n: nat)
    requires |states| == |steps| + 1 && n < |steps| && StepAt(states, steps, n) && Kept(states[n])
    requires DecidersLoaded(states, steps, n) && RowsLoaded(states, steps, n)
    ensures RowsLoaded(states, steps, n + 1)
  {
    hide LoadedBefore, Next, Kept, WasDecided;
    LoadedLater(states, steps, n);
    var m := n + 1;
    forall id | id in states[m].rows && WasDecided(states[m].rows[id].status)
      ensures states[m].rows[id].decidedBy.Some?
      ensures LoadedBefore(states, steps, m, id, states[m].rows[id].decidedBy.value)
    {
      DecidedFrom(states[n], steps[n], states[m], id);
      if steps[n].Claim? || steps[n].Reject? {
        assert steps[n].session in states[n].deciders ==> DeciderLoaded(states, steps, n, steps[n].session);
      }
    }
  }

  lemma CallsLater(states: seq<State>, steps: seq<Step>, n: nat)
    requires |states| == |steps| + 1 && n < |steps| && StepAt(states, steps, n)
    requires DecidersLoaded(states, steps, n) && CallsLoaded(states, steps, n)
    ensures CallsLoaded(states, steps, n + 1)
  {
    hide LoadedBefore, EndingFor, MayDecide, Loads, FateOf, NewRow, Supersede, ScopesOf;
    LoadedLater(states, steps, n);
    if steps[n].Execute? { assert DeciderLoaded(states, steps, n, steps[n].session); }
    var made, made' := states[n].past.made, states[n + 1].past.made;
    assert |made| <= |made'| && made'[..|made|] == made;
    forall i | 0 <= i < |made'| && made'[i].ByApproval?
      ensures LoadedBefore(states, steps, n + 1, made'[i].id, made'[i].user)
    {
      if i < |made| { assert made'[i] == made[i]; }
    }
  }

  lemma NobodyLoadedYet(states: seq<State>, steps: seq<Step>)
    requires Behaviour(states, steps)
    ensures DecidersLoaded(states, steps, 0) && RowsLoaded(states, steps, 0) && CallsLoaded(states, steps, 0)
  {
    hide StepAt, LoadedBefore;
  }

  /** In any interleaving, a row is decided upon, and its write called, only for a user who had loaded it as a member
      and as an approver of its team for its scope or for any; and the row names that user. */
  lemma {:induction false} OnlyApproversDecide(states: seq<State>, steps: seq<Step>, n: nat)
    requires Behaviour(states, steps) && n < |states|
    ensures DecidersLoaded(states, steps, n) && RowsLoaded(states, steps, n) && CallsLoaded(states, steps, n)
  {
    if n == 0 {
      NobodyLoadedYet(states, steps);
    } else {
      hide DecidersLoaded, RowsLoaded, CallsLoaded, StepAt, Kept;
      OnlyApproversDecide(states, steps, n - 1);
      BehaviourKeeps(states, steps, n - 1);
      assert StepAt(states, steps, n - 1);
      LoadsLater(states, steps, n - 1);
      RowsLater(states, steps, n - 1);
      CallsLater(states, steps, n - 1);
    }
  }

  // ---- Deciders that do not come to an end --------------------------------------------------------------

  /** Claimed, and nothing recorded of how its action ended. */
  predicate Unsettled(row: Row) { row.status.Approved? && row.resultOk.None? }

  /** A waiting row has no result, and a row somebody has claimed and still holds has none yet. */
  ghost predicate Unrecorded(s: State) {
    && (forall id | id in s.rows && s.rows[id].status.Waiting? :: s.rows[id].resultOk.None?)
    && (forall session |
          session in s.deciders && !s.deciders[session].stage.Loaded? && s.deciders[session].id in s.rows ::
          Unsettled(s.rows[s.deciders[session].id]))
  }

  lemma NextUnrecorded(s: State, step: Step, s': State)
    requires Kept(s) && Unrecorded(s) && Next(s, step, s')
    ensures Unrecorded(s')
  {
    hide Kept, CallFor, EndingFor, FateOf, ScopesOf, DeciderKept, MadeKept, RowKept, SupersededBy;
    forall session | session in s'.deciders && !s'.deciders[session].stage.Loaded? && s'.deciders[session].id in s'.rows
      ensures Unsettled(s'.rows[s'.deciders[session].id])
    {
      HeldAreApart(s, step, session);
    }
  }

  /** Who holds a row holds it alone, and it is no new row. */
  lemma HeldAreApart(s: State, step: Step, session: nat)
    requires Kept(s)
    ensures session in s.deciders ==> s.deciders[session].id < s.next
    ensures step.Settle? && step.session in s.deciders && session in s.deciders && session != step.session
            && !s.deciders[session].stage.Loaded? && !s.deciders[step.session].stage.Loaded?
            ==> s.deciders[step.session].id != s.deciders[session].id
  {
    if session in s.deciders { assert DeciderKept(s, session); }
  }

  lemma {:induction false} BehaviourUnrecorded(states: seq<State>, steps: seq<Step>, k: nat)
    requires Behaviour(states, steps) && k < |states|
    ensures Unrecorded(states[k])
  {
    if k > 0 {
      BehaviourUnrecorded(states, steps, k - 1);
      BehaviourKeeps(states, steps, k - 1);
      assert StepAt(states, steps, k - 1);
      NextUnrecorded(states[k - 1], steps[k - 1], states[k]);
    }
  }

  /** Step `k` ends the decider that holds row `id` before it has recorded anything: it crashes, or its action hits a
      privacy guard. */
  ghost predicate AbandonsAt(states: seq<State>, steps: seq<Step>, k: nat, id: nat)
    requires |states| == |steps| + 1
  {
    k < |steps| && (steps[k].Crash? || steps[k].Execute?) && steps[k].session in states[k].deciders
    && Owns(states[k].deciders[steps[k].session], id) && steps[k].session !in states[k + 1].deciders
  }

  /** Nobody holds the row, which, unless it was deleted, is approved and has no result. */
  ghost predicate Stranded(s: State, id: nat) {
    && id < s.next && (id in s.rows ==> Unsettled(s.rows[id]))
    && forall session | session in s.deciders :: !Owns(s.deciders[session], id)
  }

  lemma OthersDoNotOwn(s: State, session: nat, s': State, id: nat)
    requires Kept(s) && session in s.deciders && Owns(s.deciders[session], id) && s'.deciders == s.deciders - {session}
    ensures forall other | other in s'.deciders :: !Owns(s'.deciders[other], id)
  {
    assert DeciderKept(s, session);
  }

  lemma AbandonedIsStranded(states: seq<State>, steps: seq<Step>, k: nat, id: nat)
    requires Behaviour(states, steps) && AbandonsAt(states, steps, k, id)
    ensures Stranded(states[k + 1], id)
  {
    BehaviourKeeps(states, steps, k);
    BehaviourUnrecorded(states, steps, k);
    assert StepAt(states, steps, k);
    assert DeciderKept(states[k], steps[k].session);
    OthersDoNotOwn(states[k], steps[k].session, states[k + 1], id);
  }

  lemma StrandedStays(s: State, step: Step, s': State, id: nat)
    requires RowKept(s, id) && Next(s, step, s') && Stranded(s, id)
    ensures Stranded(s', id)
  {
  }

  lemma {:induction false} StrandedForGood(states: seq<State>, steps: seq<Step>, a: nat, b: nat, id: nat)
    requires Behaviour(states, steps) && a <= b < |states| && Stranded(states[a], id)
    ensures Stranded(states[b], id) && !CallsAt(states, steps, b, id)
    decreases b
  {
    if a < b {
      StrandedForGood(states, steps, a, b - 1, id);
      BehaviourKeeps(states, steps, b - 1);
      assert RowKept(states[b - 1], id);
      assert StepAt(states, steps, b - 1);
      StrandedStays(states[b - 1], steps[b - 1], states[b], id);
    }
    if b < |steps| { assert StepAt(states, steps, b); }
  }

  /** Once a decider crashed after its claim, or its action hit a privacy guard, the row is approved without a result
      for good, nobody holds it, and its write is not called again. */
  lemma CrashLeavesApproved(states: seq<State>, steps: seq<Step>, k: nat, b: nat, id: nat)
    requires Behaviour(states, steps) && AbandonsAt(states, steps, k, id) && k < b < |states|
    ensures id in states[b].rows ==> states[b].rows[id].status.Approved? && states[b].rows[id].resultOk.None?
    ensures forall session | session in states[b].deciders :: !Owns(states[b].deciders[session], id)
    ensures !CallsAt(states, steps, b, id)
  {
    AbandonedIsStranded(states, steps, k, id);
    StrandedForGood(states, steps, k + 1, b, id);
  }

  lemma StrandedBefore(s: State, step: Step, s': State, id: nat)
    requires Kept(s) && Next(s, step, s') && Stranded(s', id) && id in s'.rows
    ensures id in s.rows
    ensures Stranded(s, id) || ((step.Crash? || step.Execute?) && step.session in s.deciders
                                && Owns(s.deciders[step.session], id) && step.session !in s'.deciders)
  {
    hide CallFor, EndingFor, FateOf, ScopesOf, SameWork, MadeKept;
    assert RowKept(s, id);
    if step.Settle? { assert DeciderKept(s, step.session); }
    if step.Claim? && Wins(s, step.session) { assert step.session in s'.deciders; }
    if session :| session in s.deciders && Owns(s.deciders[session], id) {
      OwnerLeaves(s, step, s', session, id);
    } else {
      assert Unsettled(s.rows[id]);
    }
  }

  lemma OwnerLeaves(s: State, step: Step, s': State, session: nat, id: nat)
    requires Next(s, step, s') && Stranded(s', id) && id in s'.rows && session in s.deciders
    requires Owns(s.deciders[session], id)
    ensures (step.Crash? || step.Execute?) && step.session == session && session !in s'.deciders
  {
    assert session !in s'.deciders || !Owns(s'.deciders[session], id);
  }

  /** A row is approved without a result and held by nobody exactly when its decider came to no end. */
  lemma {:induction false} StrandedExactly(states: seq<State>, steps: seq<Step>, n: nat, id: nat)
    requires Behaviour(states, steps) && n < |states| && id in states[n].rows
    ensures Stranded(states[n], id) <==> exists k: nat :: k < n && AbandonsAt(states, steps, k, id)
  {
    if k: nat :| k < n && AbandonsAt(states, steps, k, id) {
      AbandonedIsStranded(states, steps, k, id);
      StrandedForGood(states, steps, k + 1, n, id);
    }
    if Stranded(states[n], id) && n > 0 {
      BehaviourKeeps(states, steps, n - 1);
      assert StepAt(states, steps, n - 1);
      StrandedBefore(states[n - 1], steps[n - 1], states[n], id);
      if Stranded(states[n - 1], id) {
        StrandedExactly(states, steps, n - 1, id);
      } else {
        assert AbandonsAt(states, steps, n - 1, id);
      }
    }
  }

  // ---- Undisturbed --------------------------------------------------------------------------------------

  /** The steps lead from `s` to `s'`. */
  ghost predicate Leads(s: State, states: seq<State>, steps: seq<Step>, s': State) {
    && |states| == |steps| + 1 && states[0] == s && states[|steps|] == s'
    && forall k | 0 <= k < |steps| :: StepAt(states, steps, k)
  }

  lemma OneMoreStep(s: State, states: seq<State>, steps: seq<Step>, before: State, step: Step, after: State)
    requires Leads(s, states, steps, before) && Next(before, step, after)
    ensures Leads(s, states + [after], steps + [step], after)
  {
    hide Next;
    var states', steps' := states + [after], steps + [step];
    forall k | 0 <= k < |steps'| ensures StepAt(states', steps', k) {
      if k < |steps| { assert StepAt(states, steps, k); }
    }
  }

  /** A run whose statements nothing falls between queues as `Pending.Queued` says. */
  lemma {:induction false} QueueIsItsStatements(s: State, setting: Setting, proposed: seq<Proposal>, n: nat)
    returns (states: seq<State>, steps: seq<Step>, s': State)
    requires n <= |proposed| && Fresh(s.rows, s.next)
    ensures Leads(s, states, steps, s') && s'.deciders == s.deciders
    ensures Queued(setting, QueuedUpTo(setting, proposed, n), s.rows, s.next, s'.rows)
    ensures s'.next == s.next + |QueuedUpTo(setting, proposed, n)| && s'.past.made == s.past.made
  {
    hide Queued, NewRow, Supersede, SupersededBy, Fresh;
    if n == 0 {
      states, steps, s' := [s], [], s;
      NothingQueued(setting, s.rows, s.next);
    } else {
      states, steps, s' := QueueIsItsStatements(s, setting, proposed, n - 1);
      var p, kept := proposed[n - 1], QueuedUpTo(setting, proposed, n - 1);
      if FateOf(setting, p).Queues? {
        var meeting, before, first := FateOf(setting, p).meeting, s'.rows, s';
        if setting.teamWide || meeting.Some? {
          var after := Supersede(before, setting, meeting, p.tool);
          s' := s'.(rows := after,
                    past := s'.past.(superseded := s'.past.superseded + multiset(SupersededBy(before, after))));
          OneMoreStep(s, states, steps, first, Replace(setting, meeting, p.tool), s');
          states, steps := states + [s'], steps + [Replace(setting, meeting, p.tool)];
        }
        var row, replaced := NewRow(setting, meeting, p), s';
        s' := s'.(rows := s'.rows[s'.next := row], next := s'.next + 1,
                  past := s'.past.(queued := s'.past.queued[s'.next := row]));
        OneMoreStep(s, states, steps, replaced, Add(setting, p), s');
        states, steps := states + [s'], steps + [Add(setting, p)];
        QueuesOneMore(setting, kept, s.rows, s.next, before, Fated(n - 1, p, meeting), s'.rows);
      }
    }
  }

  lemma ClaimIsTwoSteps(s: State, session: nat, id: nat, user: string, approvers: set<Approver>,
                        members: set<(string, string)>) returns (s1: State, s2: State)
    requires session !in s.deciders && Loads(s.rows, approvers, members, id, user).Decided?
    requires s.rows[id].status.Waiting?
    ensures Next(s, Load(session, id, user, approvers, members), s1) && Next(s1, Claim(session), s2)
    ensures var row := ClaimedAs(s.rows[id], Approved, user, None);
      s2 == s.(rows := s.rows[id := row], deciders := s.deciders[session := Decider(id, user, Holding, row)],
               past := s.past.(claimed := s.past.claimed + multiset{id}))
  {
    var row := ClaimedAs(s.rows[id], Approved, user, None);
    s1 := s.(deciders := s.deciders[session := Decider(id, user, Loaded, s.rows[id])]);
    s2 := s.(rows := s.rows[id := row], deciders := s.deciders[session := Decider(id, user, Holding, row)],
             past := s.past.(claimed := s.past.claimed + multiset{id}));
    assert s1.deciders[session := Decider(id, user, Holding, row)] == s2.deciders;
  }

  /** What an approval adds to the calls made. */
  function Calls(id: nat, row: Row, user: string, actions: Actions, meetings: Meetings): seq<Made> {
    match CallFor(row, user, actions, meetings)
    case Some(call) => [ByApproval(id, user, actions[row.tool], call)]
    case None => []
  }

  /** The action of a held row ends, and is recorded unless it hit a privacy guard. */
  lemma EndingIsItsSteps(s: State, session: nat, actions: Actions, meetings: Meetings, effect: Effect)
    returns (states: seq<State>, steps: seq<Step>, s': State)
    requires session in s.deciders && s.deciders[session].stage.Holding?
    requires s.deciders[session].id in s.rows && s.rows[s.deciders[session].id] == s.deciders[session].row
    ensures Leads(s, states, steps, s') && s'.deciders == s.deciders - {session}
    ensures var d := s.deciders[session];
      && s'.rows == s.rows[d.id := AsLeft(d.row, EndingFor(d.row, d.user, actions, meetings, effect))]
      && s'.past == s.past.(made := s.past.made + Calls(d.id, d.row, d.user, actions, meetings))
  {
    var d := s.deciders[session];
    var ended := EndingFor(d.row, d.user, actions, meetings, effect);
    var past := s.past.(made := s.past.made + Calls(d.id, d.row, d.user, actions, meetings));
    if ended.Leaked? {
      s' := s.(deciders := s.deciders - {session}, past := past);
      assert s.rows[d.id := d.row] == s.rows;
      states, steps := [s, s'], [Execute(session, actions, meetings, effect)];
    } else {
      var s1 := s.(deciders := s.deciders[session := d.(stage := Ending(ended.ok, ended.reason))], past := past);
      s' := s1.(rows := s1.rows[d.id := SettledAs(d.row, ended.ok, ended.reason)], deciders := s1.deciders - {session});
      assert s1.deciders - {session} == s.deciders - {session};
      states, steps := [s, s1, s'], [Execute(session, actions, meetings, effect), Settle(session)];
    }
  }

  lemma ClaimKeepsTool(row: Row, user: string)
    ensures ClaimedAs(row, Approved, user, None).tool == row.tool
  {
  }

  lemma CallsAre(id: nat, row: Row, user: string, actions: Actions, meetings: Meetings)
    ensures var called := CallFor(row, user, actions, meetings);
      && (called.Some? ==> row.tool in actions)
      && Calls(id, row, user, actions, meetings) ==
           if called == None then [] else [ByApproval(id, user, actions[row.tool], called.value)]
  {
    hide CallFor;
  }

  /** An undisturbed approval is its steps, whatever its action comes to, and leaves the rows and the calls as
      `Desk.Approve` does. */
  lemma ApprovalIsItsSteps(s: State, session: nat, id: nat, user: string, approvers: set<Approver>,
                           members: set<(string, string)>, actions: Actions, meetings: Meetings, effect: Effect)
    returns (states: seq<State>, steps: seq<Step>, s': State)
    requires session !in s.deciders && id in s.rows && MayDecide(s.rows[id], approvers, members, user)
    requires s.rows[id].status == Waiting
    ensures Leads(s, states, steps, s') && s'.deciders == s.deciders
    ensures s'.rows.Keys == s.rows.Keys && s'.rows == s.rows[id := s'.rows[id]]
    ensures exists decision, called: Option<Call> ::
      && Acted(s.rows[id], user, actions, meetings, effect, s'.rows[id], decision, called)
      && (called.Some? ==> s.rows[id].tool in actions)
      && s'.past.made == s.past.made +
           if called == None then [] else [ByApproval(id, user, actions[s.rows[id].tool], called.value)]
  {
    hide Acted, EndingFor, CallFor, AsLeft, Calls, ScopesOf, Loads, Next, ClaimedAs, MayDecide;
    LoadsExactly(s.rows, approvers, members, id, user);
    var s1, s2 := ClaimIsTwoSteps(s, session, id, user, approvers, members);
    states, steps, s' := EndingIsItsSteps(s2, session, actions, meetings, effect);
    var states', steps' := [s, s1] + states, [Load(session, id, user, approvers, members), Claim(session)] + steps;
    forall k | 0 <= k < |steps'| ensures StepAt(states', steps', k) {
      if k >= 2 { assert StepAt(states, steps, k - 2); }
    }
    states, steps := states', steps';
    assert s2.deciders - {session} == s.deciders;
    ActsExactly(s.rows[id], user, actions, meetings, effect);
    ClaimKeepsTool(s.rows[id], user);
    CallsAre(id, ClaimedAs(s.rows[id], Approved, user, None), user, actions, meetings);
  }
}
