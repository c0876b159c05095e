/** What a subagent proposed at L1, run at the end of the run (`main/actions.py`). */
module L1Actions {
  import opened Options
  import opened Proposals
  import opened Pending

  /** Whose actions are run, and under what scope. */
  datatype Bench = Bench(actions: Actions, scope: Scope, meetings: Meetings)

  predicate RunsAtL1(actions: Actions, p: Proposal) {
    p.level.L1? && p.tool in actions && actions[p.tool].level.L1?
  }

  predicate Undeclared(actions: Actions, p: Proposal) { p.level.L1? && p.tool !in actions }

  /** How one L1 proposal ended, given what its action does if it is called. */
  function EndingOf(bench: Bench, p: Proposal, effect: Effect): Ending {
    if p.tool !in bench.actions then Failing(NotDeclared)
    else if !bench.actions[p.tool].level.L1? then Failing(KeptForApproval)
    else RunAction(bench.actions[p.tool], p.arguments, bench.scope, bench.meetings, effect)
  }

  function RecordOf(bench: Bench, p: Proposal, effect: Effect): Record {
    match EndingOf(bench, p, effect)
    case Ended(ok, reason, evidence) => Record(p.tool, L1, ok, OwnReason(reason), evidence)
    case Leaked => Record(p.tool, L1, false, Some(Failure), [])
  }

  /** Where, among the first `n` proposals, the L1 ones stand. */
  function L1At(proposed: seq<Proposal>, n: nat): (at: seq<nat>)
    requires n <= |proposed|
    ensures forall i: nat :: i in at <==> i < n && proposed[i].level.L1?
    ensures forall i, j | 0 <= i < j < |at| :: at[i] < at[j]
  {
    if n == 0 then []
    else
      var front := L1At(proposed, n - 1);
      assert forall j | 0 <= j < |front| :: front[j] in front;
      if proposed[n - 1].level.L1? then front + [n - 1] else front
  }

  predicate LeaksAt(bench: Bench, proposed: seq<Proposal>, effects: seq<Effect>, i: nat)
    requires i < |proposed| == |effects|
  {
    proposed[i].level.L1? && EndingOf(bench, proposed[i], effects[i]).Leaked?
  }

  predicate UnfinishedAt(bench: Bench, proposed: seq<Proposal>, effects: seq<Effect>, i: nat)
    requires i < |proposed| == |effects|
  {
    proposed[i].level.L1? && var ending := EndingOf(bench, proposed[i], effects[i]);
    ending.Leaked? || (!ending.ok && ending.reason != Some(KeptForApproval))
  }

  /** The call made for proposal `i`, if any. */
  function CallAt(bench: Bench, proposed: seq<Proposal>, i: nat): Option<Call>
    requires i < |proposed|
  {
    var p := proposed[i];
    if RunsAtL1(bench.actions, p) then CallOf(bench.actions[p.tool], p.arguments, bench.scope, bench.meetings) else None
  }

  /** The calls made for the first `n` proposals, in order. */
  function CallsUpTo(bench: Bench, proposed: seq<Proposal>, n: nat): seq<Call>
    requires n <= |proposed|
  {
    if n == 0 then []
    else CallsUpTo(bench, proposed, n - 1) + (match CallAt(bench, proposed, n - 1) case Some(c) => [c] case None => [])
  }

  /** What the asker is told of an L1 that did not go through: the proposal's title, and why. */
  datatype Told = Told(title: string, reason: Option<Reason>)

  /** The first `n` proposals are done: a record for each L1 among them, in order. */
  ghost predicate Done(bench: Bench, proposed: seq<Proposal>, effects: seq<Effect>, n: nat, done: seq<Record>)
    requires n <= |proposed| == |effects|
  {
    var at := L1At(proposed, n);
    |done| == |at| && forall j | 0 <= j < |at| ::
      at[j] < |proposed| && done[j] == RecordOf(bench, proposed[at[j]], effects[at[j]])
  }

  /** The names of the actions that hit a privacy guard among the first `n`. */
  function ViolationsUpTo(bench: Bench, proposed: seq<Proposal>, effects: seq<Effect>, n: nat): seq<string>
    requires n <= |proposed| == |effects|
  {
    if n == 0 then []
    else
      ViolationsUpTo(bench, proposed, effects, n - 1) +
      if LeaksAt(bench, proposed, effects, n - 1) then [proposed[n - 1].tool] else []
  }

  function UnfinishedUpTo(bench: Bench, proposed: seq<Proposal>, effects: seq<Effect>, n: nat): seq<Told>
    requires n <= |proposed| == |effects|
  {
    if n == 0 then []
    else
      var front := UnfinishedUpTo(bench, proposed, effects, n - 1);
      var ending := EndingOf(bench, proposed[n - 1], effects[n - 1]);
      if UnfinishedAt(bench, proposed, effects, n - 1)
      then front + [Told(proposed[n - 1].title, if ending.Leaked? then Some(Failure) else ending.reason)]
      else front
  }

  /** `execute_l1`; `violations` non-empty is the `ActionPrivacyViolationError` it raises with the record. */
  method ExecuteL1(bench: Bench, proposed: seq<Proposal>, effects: seq<Effect>)
    returns (done: seq<Record>, violations: seq<string>, unfinished: seq<Told>, calls: seq<Call>)
    requires |effects| == |proposed|
    ensures Done(bench, proposed, effects, |proposed|, done)
    ensures violations == ViolationsUpTo(bench, proposed, effects, |proposed|)
    ensures unfinished == UnfinishedUpTo(bench, proposed, effects, |proposed|)
    ensures calls == CallsUpTo(bench, proposed, |proposed|)
  {
    hide RunAction, CallOf;
    done, violations, unfinished, calls := [], [], [], [];
    for n := 0 to |proposed|
      invariant Done(bench, proposed, effects, n, done)
      invariant violations == ViolationsUpTo(bench, proposed, effects, n)
      invariant unfinished == UnfinishedUpTo(bench, proposed, effects, n)
      invariant calls == CallsUpTo(bench, proposed, n)
    {
      var proposal := proposed[n];
      if !proposal.level.L1? { continue; }
      var ending;
      if proposal.tool !in bench.actions {
        ending := Failing(NotDeclared);
      } else if !bench.actions[proposal.tool].level.L1? {
        ending := Failing(KeptForApproval);
      } else {
        var action := bench.actions[proposal.tool];
        var call := CallOf(action, proposal.arguments, bench.scope, bench.meetings);
        if call.Some? { calls := calls + [call.value]; }
        ending := RunAction(action, proposal.arguments, bench.scope, bench.meetings, effects[n]);
        if ending.Leaked? {
          violations := violations + [action.name];
          ending := Failing(Failure);
        }
      }
      if !ending.ok && ending.reason != Some(KeptForApproval) {
        unfinished := unfinished + [Told(proposal.title, ending.reason)];
      }
      done := done + [Record(proposal.tool, L1, ending.ok, OwnReason(ending.reason), ending.evidence)];
    }
  }

  /** A subagent cannot demote a write: whatever level its proposals claim, every call made here is of an action its
      module declared L1, and it is made for a proposal, under the run's scope. */
  lemma {:induction false} OnlyDeclaredL1IsCalled(bench: Bench, proposed: seq<Proposal>, n: nat)
    requires n <= |proposed|
    ensures forall c | c in CallsUpTo(bench, proposed, n) ::
      c.tool in bench.actions && bench.actions[c.tool].level.L1? &&
      exists i :: 0 <= i < n && proposed[i].tool == c.tool && CallAt(bench, proposed, i) == Some(c)
  {
    if n > 0 { OnlyDeclaredL1IsCalled(bench, proposed, n - 1); }
  }

  /** The run fails loudly exactly when a privacy guard refused something. */
  lemma {:induction false} FailsExactlyOnALeak(bench: Bench, proposed: seq<Proposal>, effects: seq<Effect>, n: nat)
    requires n <= |proposed| == |effects|
    ensures ViolationsUpTo(bench, proposed, effects, n) != [] <==>
      exists i :: 0 <= i < n && LeaksAt(bench, proposed, effects, i)
  {
    if n > 0 { FailsExactlyOnALeak(bench, proposed, effects, n - 1); }
  }
}
