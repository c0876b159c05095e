# Verified model of the agent's approvals, the masking engine and the algorithms beside them

The project models, in Dafny 4.11, the parts of the repository whose behaviour is easy to get wrong and hard to see from
one function: plan mode's approval queue and what runs through it, the masking of personal data, the substitution of names,
research documents and their deletion, and a handful of self-contained algorithms. `dafny verify dfyconfig.toml` checks it.

Code that changes state step by step is modelled by classes and methods with loops, each proved against a function or a
predicate that says what it computes; the properties are lemmas about those functions, or about runs of any length.

| file | models |
|---|---|
| `Proposals.dfy`, `Pending.dfy`, `Actions.dfy`, `Store.dfy` | what may be stored of a proposal, the queue, running L1 proposals, one recorded run |
| `Protocol.dfy` | approvals, rejections, superseding runs, deletions and crashes in any interleaving |
| `Triggers.dfy`, `Ask.dfy` | the timer and event guards in sequence and in overlapping sweeps, the bounded tool loop |
| `Replacement.dfy` | the one lemma library for leftmost, non-overlapping replacement |
| `Overlaps.dfy`, `Masking.dfy` | merging spans, hiding them, masking passes |
| `Reported.dfy`, `PiiReport.dfy`, `MaskingRules.dfy` | reported misses, their repeats, and the rules learned from them |
| `RuleLists.dfy` | a team's rules applied one after the other |
| `Names.dfy` | roster names to placeholders and back |
| `Research.dfy`, `Invitations.dfy` | documents with cascades and a trigger; the invitation state machine |
| `Expressions.dfy`, `Resampler.dfy`, `SpokenNumbers.dfy`, `Glossary.dfy` | the template evaluator, the resampler, the common-subsequence table, the glossary packer |
| `Characters.dfy`, `Options.dfy` | character classes and optional values |

Inputs that come from elsewhere are parameters: what the detectors find, what a module's write does when it is called, what
a graph or a model returns, clocks, tokens, case folding, and which characters are digits. A guarded UPDATE and an INSERT
are one step each. Times are integers, and samples are exact reals.

## Where the code and its documentation part

The model follows the code. The statements below are exact: each is proved in both directions, or comes with an input.

- `mask` says its result is a fixed point. When no pass over that result finds an unmerged e-mail address, it is one exactly
  when one of the first five passes changes nothing (`Masking.FixedPointExactly`); a recogniser that keeps reporting exceeds
  the cap (`Masking.CappedIsNotFixed`). With e-mail addresses found for ever a text can be fixed although no pass ever
  changes nothing (`Masking.EmailsMayWaver`).
- `hide_reported` says every run ends with two mask characters. A run shows two stars side by side exactly when two of its
  hidden characters stand together or its last one is hidden (`Reported.DoubleStarExactly`).
- A reported span can be left standing by its own overlapping copies exactly when it begins with separators its hidden form
  ends with (`PiiReport.ReplacedIsGoneExactly`).
- A learned rule is meant to mask every value of its shape. Its own pass leaves a match of it in some text exactly when it
  has a Latin or digit class at one end only, or when two copies can share the '-' or '.' both its ends have, as `-가A###-`
  does in `-가A000-가A000-` (`MaskingRules.LeavesNoneExactly`; `MaskingRules.SharingRulesAreLearned` gives that rule).
- In a list of rules a later one can free a value an earlier one skipped, by starring out the letter or digit that held it
  back (`RuleLists.FreesExactly` says when). A list of rules of which none reappears and none frees one before it leaves no
  match of any (`RuleLists.AppliedLeavesNone`); for two rules that do not reappear this is exact
  (`RuleLists.TwoRulesExactly`), and the code makes two that fail it (`RuleLists.LaterRuleFreesEarlier`).
- `restore` gives back every text in which none of the placeholders given is written, exactly when nobody on the roster has
  two forms (`Names.RoundTripsExactly`).
- No roster name is meant to be sent, and none of Hangul words is, nor any form of one, but for the placeholders' own word
  (`Names.NoNameIsSent`). Of any other, a form without brackets is in nothing sent exactly when it is no part of the word and
  the number inside the placeholder of anybody on the roster (`Names.FormIsSentExactly`); a member
  named `사람` is sent by name (`Names.TheWordIsSent`).
- The resampler is on time exactly when the input rate is 16 kHz or more (`Resampler.CountExactly`).
- A period of P hours fires every P ticks, rather than drifting, exactly when each run is stored before the time the tick
  P hours later looks back to (`Triggers.StoredInTimeExactly`); a quarter of an hour is always soon enough, and a run half
  an hour late makes it fire at tick P + 1 (`Triggers.LateRunDrifts`).
- An overlapping tick is said to find the run the first one left. It does unless both read the guard before either stores:
  then, and only then, two runs can be stored too close (`Triggers.ApartUnlessOverlapping`, `Triggers.CrowdsExactly`).
- A redelivered event starts a subagent again after a failure, and also after a run over its budget, which is stored with no
  route (`Triggers.SecondDeliveryStartsExactly`).

## Model

| member | source | states |
|---|---|---|
| `Protocol.CalledOnceAfterItsClaim` | agent/src/autune_agent/main/pending.py:264-331 | in every interleaving of deciders, runs, deletions and crashes a row's write is called at most once, only after the one claim of that row that won, and never for a row rejected or superseded at any time |
| `Protocol.NeverWaitsAgain` | agent/src/autune_agent/main/pending.py:276-290 | no row that has left the queue is ever pending again |
| `Protocol.ClaimedOnce` | agent/src/autune_agent/main/pending.py:276-290 | at most one claim of a row ever wins |
| `Protocol.L2OnlyFromAClaimedRow` | agent/src/autune_agent/main/actions.py:207-236 | across runs and approvals, an action declared L2 is called only for a claimed row, and then for what that row was queued for, under its team and meeting and by its approver |
| `Protocol.OnlyApproversDecide` | agent/src/autune_agent/main/pending.py:245-290 | in any interleaving, whoever is deciding on a row, and whoever it was approved, rejected or called for, had loaded it as a member of its team and an approver there for its scope or for any, and the row names them |
| `Protocol.CrashLeavesApproved` | agent/src/autune_agent/main/pending.py:293-323 | once a decider crashes after its claim, or its action hits a privacy guard, the row is approved without a result for good, nobody holds it, and its write is not called again |
| `Protocol.StrandedExactly` | agent/src/autune_agent/main/pending.py:293-323 | a row is approved without a result and held by nobody exactly when its decider crashed after the claim or its action hit a privacy guard |
| `Protocol.ApprovalIsItsSteps` | agent/src/autune_agent/main/pending.py:293-323 | an undisturbed approval is load, claim, call and record, whether its action is declared, fails or hits a privacy guard, and leaves rows and calls as the sequential method does |
| `Protocol.QueueIsItsStatements` | agent/src/autune_agent/main/pending.py:166-205 | a run whose guarded updates and inserts nothing falls between queues as the one-step meaning `Queued` says |
| `Pending.NeedingIsQueuedOrRefused` | agent/src/autune_agent/main/pending.py:97-205 | every proposal that says L2, or whose action was declared so, is queued once or refused once, in order, never both, and no other is either |
| `Pending.QueuedAreSound` | agent/src/autune_agent/main/pending.py:133-165 | a queued proposal has only code-like arguments, and its row is about just one meeting: for a judgment of the team the one it names, if that is not empty, else the run's own; otherwise the run's own, and for a run without one whatever it names, if anything; and that is the run's own or one of the team's |
| `Pending.TurnedAreRight` | agent/src/autune_agent/main/pending.py:129-165 | a proposal is turned down for its arguments exactly when they or the subagent's name are not codes, and otherwise for its meeting exactly when its row would be about one it names that is neither the run's own nor the team's |
| `Pending.RetiresExactly` | agent/src/autune_agent/main/pending.py:79-94 | an earlier row is superseded, and nothing else about it changed, exactly when it waits, is of the run's team and subagent and not its own, and some queued proposal takes its place: any for a judgment of the team, else one about its meeting, and for a chat one of its action too unless a chat left it |
| `Pending.RetiresOnlyEarlierOwn` | agent/src/autune_agent/main/pending.py:79-94 | whatever a run retires was pending, of its team and subagent, and from another run |
| `Pending.TeamWideLeavesOwn` | agent/src/autune_agent/main/pending.py:166-184 | a team-wide run that queued anything leaves pending, of its team and subagent, its own rows and no other |
| `Pending.ChatRetiresExactly` | agent/src/autune_agent/main/pending.py:166-184 | a chat retires a pipeline row exactly when it queued the same action for the same meeting, and an earlier chat's row exactly when it queued anything for that meeting |
| `Pending.PipelineRetiresExactly` | agent/src/autune_agent/main/pending.py:166-184 | a pipeline run retires an earlier row exactly when it queued something for that row's meeting |
| `Pending.NoDoubledCard` | agent/src/autune_agent/main/pending.py:117-124 | after a run queued an action for a meeting, the pending rows for that action and meeting are its own |
| `Pending.Desk.QueueL2` | agent/src/autune_agent/main/pending.py:97-205 | the loop of guarded updates and inserts leaves just the rows of the one-step meaning `Queued`, and returns a record for each refusal |
| `Pending.Desk.RetireTeamWide` | agent/src/autune_agent/main/pending.py:208-226 | retires the earlier waiting rows of the run's team and subagent, changes nothing else, and leaves no such row of another run |
| `Pending.Desk.Claim` | agent/src/autune_agent/main/pending.py:276-290 | wins exactly when the row is there and pending, and changes that row alone |
| `Pending.LoadsExactly` | agent/src/autune_agent/main/pending.py:245-273 | a row is decided on just by a member of its team who is an approver there for its scope or for any; a member who approves only other things is told so, and anyone else that there is no such row |
| `Pending.Desk.Approve` | agent/src/autune_agent/main/pending.py:293-323 | for just those who may decide, a waiting row is claimed, its action called under the row's team and meeting for the approver, and the status, result and reason written down in every case, without any module's sentence |
| `Pending.Desk.Reject` | agent/src/autune_agent/main/pending.py:326-331 | every refusal in its order, and otherwise the row rejected by the approver for the reason |
| `Proposals.CheckArguments` | agent/src/autune_agent/main/pending.py:53-64 | true exactly when every key is a short enum and every value a boolean, an id, a date or a short enum, each spelled out by its parts |
| `Proposals.StoredTextIsCode` | agent/src/autune_agent/main/pending.py:53-64 | a text that may be stored is not empty and holds only ASCII letters, digits, '_' and '-' |
| `Proposals.CallStaysInScope` | agent/src/autune_agent/main/registry.py:325-365 | a call that is made names no other team, no meeting outside the team, the scope's person whoever the proposal names, and everything the function needs |
| `Proposals.BoundExactly` | agent/src/autune_agent/main/registry.py:325-365 | when a call is made and with just which arguments, and otherwise the first of the six reasons it is refused for |
| `Proposals.RunsExactly` | agent/src/autune_agent/main/actions.py:244-276 | a refused proposal calls nothing and fails for its reason; any other makes one call and ends as that does, a raise as a failure and a privacy violation as itself |
| `Proposals.OwnReasonExactly` | agent/src/autune_agent/main/actions.py:239-241 | what is written down of a reason is the reason, and nothing of a module's own sentence |
| `L1Actions.ExecuteL1` | agent/src/autune_agent/main/actions.py:181-236 | one record per L1 proposal in order, the privacy violations, what the asker is told, and the calls made |
| `L1Actions.OnlyDeclaredL1IsCalled` | agent/src/autune_agent/main/actions.py:207-223 | whatever level proposals claim, every call of a run is of an action its module declared L1 |
| `L1Actions.FailsExactlyOnALeak` | agent/src/autune_agent/main/actions.py:219-236 | the run fails exactly when some executed action hit a privacy guard |
| `Store.ExactlyOneFate` | agent/src/autune_agent/main/store.py:102-157 | each proposal of an answered run meets exactly one fate: run at L1, queued, refused, or not declared |
| `Store.RecordTellsTheFate` | agent/src/autune_agent/main/actions.py:207-236 | an L1 record says not declared exactly when it was not, and kept for approval exactly when the proposal was queued or refused, unless a module that was called gave that very reason |
| `Store.OutcomeExactly` | agent/src/autune_agent/main/store.py:49-161 | what outcome, route and proposals are stored, for each way the graph ends and whatever was raised |
| `Store.SettingExactly` | agent/src/autune_agent/main/store.py:102-157 | what the actions and the queue are told: whom and what the run is for, and that the judgment is the team's exactly when the subagent of the route the graph ended with is one that judges the team |
| `Store.TracesExactly` | agent/src/autune_agent/main/store.py:102-157 | of each proposal its kind, action, level and evidence are stored with the run, and neither its title nor its arguments, which change nothing that is stored |
| `Store.Recorder.RunAndRecord` | agent/src/autune_agent/main/store.py:49-161 | the stored run, what it called and told, and the queue afterwards, for a graph that returned, went over budget or broke |
| `Triggers.Waker.OnTick` | agent/src/autune_agent/main/triggers.py:134-180 | for each team and subagent a run is started exactly when no counted periodic run stands since the slack-adjusted period |
| `Triggers.Waker.OnEvent` | agent/src/autune_agent/main/triggers.py:83-131 | each woken subagent not already run for the delivery is started, and privacy violations are kept by name |
| `Triggers.TickStartsExactly` | agent/src/autune_agent/main/triggers.py:150-243 | a tick starts a subagent for a team exactly when no periodic run of theirs about no meeting has been stored since the tick less the period plus half an hour without failing; and the row and the violation the run leaves |
| `Triggers.DeliveryStartsExactly` | agent/src/autune_agent/main/triggers.py:83-131 | a delivery starts a woken subagent exactly when none of its runs about the meeting that did not fail came of the same task, or of the same event when there is no task id; and what it leaves |
| `Triggers.PeriodicRunsStayApart` | agent/src/autune_agent/main/triggers.py:134-180 | in any history of timer sweeps, delivered events and other runs, any two answered periodic runs of one subagent for one team are more than the period less half an hour apart |
| `Triggers.FiresEveryPeriod` | agent/src/autune_agent/main/triggers.py:150-174 | in such a history, with a team's ticks and stored runs of a subagent less than a quarter of an hour off their marks and no failure, a period of P hours starts it at every P-th tick and no other, for any number of ticks, teams and subagents |
| `Triggers.StoredInTimeExactly` | agent/src/autune_agent/main/triggers.py:150-174 | with ticks near their marks and no failure, a period of P hours starts the subagent at every P-th tick and no other if and only if each run it started was stored before the time the tick P hours later looks back to |
| `Triggers.LateRunDrifts` | agent/src/autune_agent/main/triggers.py:38-45 | ticks on the hour start a run at the first and then at tick P exactly when the first run is stored within half an hour, else at tick P + 1, and never before tick P |
| `Triggers.ApartUnlessOverlapping` | agent/src/autune_agent/main/triggers.py:134-180 | when guard reads and stored runs of any sweeps fall between each other in any order, answered periodic runs keep their distance as long as no two sweeps have read the guard of one team and subagent and not yet stored |
| `Triggers.CrowdsExactly` | agent/src/autune_agent/main/triggers.py:134-180 | from such a state two runs can be stored less than that apart exactly when two sweeps have read the guard of one team and subagent at once |
| `Triggers.TwoReadsOverlap` | agent/src/autune_agent/main/triggers.py:38-45 | two sweeps that read the guard one after the other, whenever they tick, come to that state |
| `Triggers.HistoryIsItsTicks` | agent/src/autune_agent/main/triggers.py:232-243 | what the guard of one team and subagent sees of a history is made by their own ticks alone |
| `Triggers.SecondDeliveryStartsExactly` | agent/src/autune_agent/main/triggers.py:246-259 | when a second delivery of an event starts a subagent again, exactly |
| `Ask.Ask` | agent/src/autune_agent/main/ask.py:257-313 | the rounds as played, the budget never passed, at most nine calls, and the answer made of the usable results |
| `Ask.AnswerSpeaksForAll` | agent/src/autune_agent/main/ask.py:297-313 | the answer holds the first five items, as they are dealt, of all the usable results hold, and is marked cut exactly when there are more; it cites each id some usable result cites, once, and is as sure as the least sure of them |
| `Ask.GathersInOrder` | agent/src/autune_agent/main/ask.py:297-304 | results are gathered, and what they cite is listed, in the order they came |
| `Ask.SummariesJoin` | agent/src/autune_agent/main/ask.py:307-310 | the summary is theirs, one after the other with a space between |
| `Ask.LoopIsBounded` | agent/src/autune_agent/main/ask.py:257-296 | at most three calls a round within the budget, at most ten utterances in all, and exactly one response for each call sent back |
| `Ask.EchoHoldsTheCalls` | agent/src/autune_agent/main/ask.py:242-254 | what is echoed holds just the calls that ran, when the model's parts held the calls it returned |
| `Ask.KeptWithinRoom` | agent/src/autune_agent/main/ask.py:195-215 | no more utterances kept than there is room for, no speaker name left in their titles, everything else kept |
| `Ask.KeptExactly` | agent/src/autune_agent/main/ask.py:195-215 | just the items are kept, in order, that are no utterances or have fewer utterances before them than there is room for; an utterance with its title up to the first space, any other as it is |
| `Ask.NumberedExactly` | agent/src/autune_agent/main/ask.py:186-192 | a speaker list comes out the same whatever names it held, each item called after its place |
| `Ask.Quotable` | agent/src/autune_agent/main/ask.py:195-215 | the loop over the items keeps what `Kept` says and counts its utterances |
| `Ask.OrderKeepsEachResult` | agent/src/autune_agent/main/ask.py:300-304 | the interleaving holds every item of every result once, the first of each before the second of any, and within a row in the order of the results |
| `Ask.CutGivesEachOne` | agent/src/autune_agent/results.py:75-80 | cut to five, it still holds the first item of each of up to five results that are not empty |
| `Ask.CallBudget.Spend` | agent/src/autune_agent/main/registry.py:197-200 | a call is spent exactly while the limit is not reached |
| `Overlaps.ResolveOverlaps` | modules/audio/src/autune_audio/masking.py:152-192 | the sweep over the sorted spans computes `Resolved` |
| `Overlaps.CoversTheUnion` | modules/audio/src/autune_audio/masking.py:152-192 | regions come out in order with a real gap between neighbours and cover exactly the union of the inputs |
| `Overlaps.UnmergedExactly` | modules/audio/src/autune_audio/masking.py:182-192 | a region is unmerged exactly when some input equals it, and then has the category of the first such input |
| `Overlaps.OrderDoesNotMatter` | modules/audio/src/autune_audio/masking.py:172-192 | where the regions lie and which are merged does not depend on the order of the inputs |
| `Overlaps.SortedFirst` | modules/audio/src/autune_audio/masking.py:173 | the sort is stable: of equal spans the first stays first |
| `Masking.Hide` | modules/audio/src/autune_audio/masking.py:255-324 | the character loop computes the hidden form of the span, branch by branch |
| `Masking.HidesExactly` | modules/audio/src/autune_audio/masking.py:195-324 | just which characters of a span are left, by category: the first character and the domain of an address; of a number with a known layout the digits its category keeps, if there are more; the first character of a name; separators in a number; and stars for the rest |
| `Masking.HidingOnlyStars` | modules/audio/src/autune_audio/masking.py:255-324 | except for an unmerged e-mail address, hiding keeps the length and every character it does not star |
| `Masking.NumbersLoseADigit` | modules/audio/src/autune_audio/masking.py:195-324 | a numeric span with a digit loses at least one and keeps at most seven, a merged one none |
| `Masking.MaskOnce` | modules/audio/src/autune_audio/masking.py:133-149 | the pass over the regions computes the masked text and counts one category for each |
| `Masking.PassOnlyStars` | modules/audio/src/autune_audio/masking.py:133-149 | without an unmerged e-mail address a pass keeps the length, leaves characters outside the spans alone and puts each span's hidden form in its place |
| `Masking.Mask` | modules/audio/src/autune_audio/masking.py:109-130 | the capped loop gives the text of four passes and counts what was found until a pass changed nothing |
| `Masking.ChangingPassLowers` | modules/audio/src/autune_audio/masking.py:133-149 | a pass that finds no unmerged e-mail address keeps the length and, when it changes the text, strictly lowers the number of characters that are not stars |
| `Masking.PassesComeToRest` | modules/audio/src/autune_audio/masking.py:103-106 | without the cap, once no pass finds an unmerged e-mail address any more, the passes end after no more of them than there are characters to star |
| `Masking.FixedPointExactly` | modules/audio/src/autune_audio/masking.py:109-130 | when no pass over the result finds an unmerged e-mail address, those before being free to, masking the result again changes nothing exactly when one of the first five passes over the text changes nothing |
| `Masking.EmailsMayWaver` | modules/audio/src/autune_audio/masking.py:103-130 | a recogniser of e-mail addresses for which the result is fixed although no pass ever changes nothing, and a pass makes more characters stand |
| `Masking.StoppedIsFixed` | modules/audio/src/autune_audio/masking.py:124-130 | when one of the passes changes nothing the result is a fixed point |
| `Masking.CappedIsNotFixed` | modules/audio/src/autune_audio/masking.py:103-106 | a recogniser and texts for which the capped result is not one |
| `Reported.HideReported` | modules/audio/src/autune_audio/masking.py:327-347 | splitting, starring and joining gives the hidden span |
| `Reported.SpanHides` | modules/audio/src/autune_audio/masking.py:327-347 | nothing but separators is left of the span, and those at its front stand where they stood |
| `Reported.DoubleStarExactly` | modules/audio/src/autune_audio/masking.py:343-345 | when a run shows two stars side by side, exactly |
| `PiiReport.Session.ReportMiss` | modules/audio/src/autune_audio/pii_report.py:63-129 | the refusals in order, each exactly when its case holds; otherwise the span and its repeats starred out in just the utterances meant, the counts, and the rule added; a span that does not survive itself is then nowhere in the meeting |
| `PiiReport.ReplacedIsGoneExactly` | modules/audio/src/autune_audio/pii_report.py:145-149 | replacing leaves no copy in any text exactly when the span does not begin with separators its hidden form ends with |
| `PiiReport.EndsThatGo` | modules/audio/src/autune_audio/pii_report.py:93-100 | a span that begins or ends with a character that is starred does not survive itself |
| `PiiReport.RewrittenIsGone` | modules/audio/src/autune_audio/pii_report.py:102-115 | with the repeats included such a span stands nowhere in the meeting |
| `PiiReport.CountedExactly` | modules/audio/src/autune_audio/pii_report.py:145-149 | the count is that of the replacements: zero exactly when the span does not occur, and every one makes the text longer by what the replacement is longer |
| `MaskingRules.ShapeOf` | modules/audio/src/autune_audio/masking_rules.py:72-97 | the loops compute the shape, or none |
| `MaskingRules.ShapeExactly` | modules/audio/src/autune_audio/masking_rules.py:55-97 | a span gives a shape exactly when the value in it, between whitespace and without the Hangul behind it, has that class at each place, and the shape holds a digit, a Latin letter and four classed characters in at most sixty-four |
| `MaskingRules.Regex` | modules/audio/src/autune_audio/masking_rules.py:100-110 | the pattern's pieces are the maximal runs of the shape |
| `MaskingRules.PiecesReadTheShape` | modules/audio/src/autune_audio/masking_rules.py:100-110 | the counted pieces match exactly where the shape reads, and to its length |
| `MaskingRules.ShapeMatchesItsSpan` | modules/audio/src/autune_audio/masking_rules.py:72-110 | a span that yields a shape is matched in full by its pattern, once its trailing Hangul is dropped |
| `MaskingRules.LeavesNoneExactly` | modules/audio/src/autune_audio/masking_rules.py:100-117 | which shapes leave no match of themselves in any text, exactly, after their own pass: those with a Latin or digit class at both ends or at neither, whose copies cannot share separators |
| `MaskingRules.SharingRulesAreLearned` | modules/audio/src/autune_audio/masking_rules.py:72-97 | the code makes a rule that leaves a match of itself, and without its front separator one that leaves none |
| `RuleLists.FreesExactly` | modules/audio/src/autune_audio/masking_rules.py:100-117 | starring out one rule makes a match of another in some text that had none exactly when a copy of the first, before, behind or on both sides, overlaps it in separators and holds it back by a letter or digit |
| `RuleLists.AppliedLeavesNone` | modules/audio/src/autune_audio/masking_rules.py:113-117 | a list of which no rule reappears and none frees one before it, applied in order, leaves no match of any of its rules |
| `RuleLists.ApplyingTwiceIsOnce` | modules/audio/src/autune_audio/masking_rules.py:113-117 | applying such a list again changes nothing |
| `RuleLists.ClassEndsSettle` | modules/audio/src/autune_audio/masking_rules.py:100-117 | rules that begin and end in Latin or digit classes make such a list, in any order |
| `RuleLists.TwoRulesExactly` | modules/audio/src/autune_audio/masking_rules.py:113-117 | two rules that do not reappear leave no match of either in any text if and only if the second does not free the first |
| `RuleLists.LaterRuleFreesEarlier` | modules/audio/src/autune_audio/masking_rules.py:72-117 | two rules the code makes, neither of which reappears, and a text in which applying both leaves a value of the first |
| `Names.Substitute` | agent/src/autune_agent/live/names.py:84-107 | each form stands for the one name that has it, or for itself when it is shared, and each text is sent with its calls numbered |
| `Names.HasFormExactly` | agent/src/autune_agent/live/names.py:58-81 | what a person is called by, from the words of the name: the name; of Hangul words the words run together, of two the other order and the longer beside a single syllable, of one or more than two with three syllables in all the last two; never less than two characters |
| `Names.WordsExactly` | agent/src/autune_agent/live/names.py:64 | `split` finds just the words a text is made of |
| `Names.RosterExactly` | agent/src/autune_agent/live/names.py:92 | the roster is the names that are not blank, each spelled with single spaces |
| `Names.LongestIsFound` | agent/src/autune_agent/live/names.py:97 | at each place the longest form that stands there is found, so that none is cut off inside a longer one |
| `Names.OnceInOrder` | agent/src/autune_agent/live/names.py:81 | what comes later changes nothing of the forms already listed |
| `Names.NumberedByFirstAppearance` | agent/src/autune_agent/live/names.py:102-105 | one number each, 1 to the number of people |
| `Names.PeopleByFirstCall` | agent/src/autune_agent/live/names.py:102-105 | in the order people are first called, across all texts |
| `Names.SurfaceIsFirstForm` | agent/src/autune_agent/live/names.py:102-107 | each placeholder stands for the form its person was first called by |
| `Names.NoFormIsSent` | agent/src/autune_agent/live/names.py:84-107 | no form that keeps clear of the brackets, the word and the digits is left in what is sent |
| `Names.NoNameIsSent` | agent/src/autune_agent/live/names.py:58-107 | no name of Hangul words on the roster, and no form of one, is left in anything that is sent, unless it is the word of the placeholders |
| `Names.NoFullNameIsSent` | agent/src/autune_agent/live/names.py:78-107 | neither a name of three syllables nor the given name in it is left in anything that is sent |
| `Names.FormIsSentExactly` | agent/src/autune_agent/live/names.py:84-107 | a form without brackets is in nothing that is sent, for any list of texts, exactly when it is no part of the word and number of any placeholder from 1 to the number of people on the roster |
| `Names.TheWordIsSent` | agent/src/autune_agent/live/names.py:84-107 | for somebody called by the word of the placeholders, a text whose sent form holds that name |
| `Names.EachReturnsExactly` | agent/src/autune_agent/live/names.py:102-112 | every call comes back as the form that stood there exactly when nobody was called by two forms |
| `Names.RestoresEachText` | agent/src/autune_agent/live/names.py:84-112 | then each text in which no placeholder that was given is written is restored exactly |
| `Names.RoundTripsExactly` | agent/src/autune_agent/live/names.py:84-112 | all such texts of all lists are restored exactly when nobody on the roster has two forms |
| `Replacement.TraceIsLocal` | modules/audio/src/autune_audio/pii_report.py:145-149 | every output character of a replacement is a kept character or one of a replacement, and the next is the one that comes next there |
| `Research.AlwaysSound` | agent/src/autune_agent/research_store.py:25-103 | in any run of saves, shares and deletions: one proposed document per meeting, no orphan rows, and every cited meeting a source |
| `Research.NoDocumentOutlivesASource` | agent/migrations/20261001_0900_research_documents.py:39-79 | a document that is there has every meeting any of its saves cited still there |
| `Research.Library.SaveResearchDocument` | agent/src/autune_agent/research_store.py:25-89 | the refusals in order; otherwise the proposed document overwritten or begun, and its sources only added to |
| `Research.Library.ShareResearchDocument` | agent/src/autune_agent/research_store.py:92-103 | shared exactly when it is the team's and proposed |
| `Research.Library.DeleteMeeting` | agent/migrations/20261001_0900_research_documents.py:39-79 | the cascades and the trigger, in any order, end, and remove exactly the documents with that source and their sources |
| `Expressions.EvaluatesToItsValue` | docs/design/support.js:205-294 | every fully parenthesised tree, with its own white space at each place in it and around it, evaluates to its value, which is said of the tree without the evaluator: properties of no undefined or null value, each operator's truth, each falsy value, and what the digits of a number are worth |
| `Expressions.Evaluate` | docs/design/support.js:205-235 | the recursion over slices computes `Resolve`, and ends |
| `Expressions.EvaluatePath` | docs/design/support.js:263-294 | the loop over names and keys computes `ResolvePath` |
| `Expressions.FindTopLevelEquality` | docs/design/support.js:247-262 | the loop finds the operator the specification reads |
| `Resampler.CountExactly` | apps/web/public/pcm-worklet.js:39-58 | after every number of inputs floor(16000 n / rate) samples are out, if and only if the rate is 16000 or more |
| `Resampler.SamplesAreBlockMeans` | apps/web/public/pcm-worklet.js:47-57 | each sample is the mean of its block, and the blocks partition the input |
| `Resampler.SampleFits` | apps/web/public/pcm-worklet.js:30-32 | every sample fits an Int16 |
| `Resampler.SampleExactly` | apps/web/public/pcm-worklet.js:30-32 | full scale from 1 and from -1 on, and between them the whole part of the value's share of its side of the scale |
| `Resampler.Pcm16kProcessor.Process` | apps/web/public/pcm-worklet.js:39-59 | frames and partial buffer are exactly the samples of everything heard |
| `Resampler.SplittingChangesNothing` | apps/web/public/pcm-worklet.js:30-59 | two processors that heard the same input, however split, have posted the same frames and hold the same rest |
| `SpokenNumbers.ReadableDigits` | modules/audio/scripts/probe_spoken_numbers.py:74-85 | the rolling row ends with the last entry of the table |
| `SpokenNumbers.SeenExactly` | modules/audio/scripts/probe_spoken_numbers.py:74-78 | what is seen of each character: the digit of a digit syllable, a digit itself, and nothing else |
| `SpokenNumbers.IsLongestCommon` | modules/audio/scripts/probe_spoken_numbers.py:74-85 | that entry is the length of the longest common subsequence: one has it and none is longer |
| `Glossary.EstimateAdds` | modules/audio/src/autune_audio/glossary.py:50-60 | the estimate of a joined text is the sum, less the one run that goes on across the joint |
| `Glossary.EstimateExactly` | modules/audio/src/autune_audio/glossary.py:50-60 | two for each Hangul syllable and four for each run of Latin letters and digits |
| `Glossary.Dedupe` | modules/audio/src/autune_audio/glossary.py:195-215 | the backward loop keeps the values that do not come again, in order |
| `Glossary.LastOnlyAt` | modules/audio/src/autune_audio/glossary.py:195-215 | each kept value stands at the place of its last occurrence |
| `Glossary.EachTermOnce` | modules/audio/src/autune_audio/glossary.py:195-215 | no two kept terms are the same but for case, and every value is the same as one kept |
| `Glossary.BuildPrompt` | modules/audio/src/autune_audio/glossary.py:119-192 | the greedy loop and the order of either channel |
| `Glossary.ListedJoins` | modules/audio/src/autune_audio/glossary.py:192 | between any two terms a comma and a space, and nothing else |
| `Glossary.ReversedAt` | modules/audio/src/autune_audio/glossary.py:180-191 | the other channel gets the terms from the last to the first |
| `Glossary.NothingDroppedFits` | modules/audio/src/autune_audio/glossary.py:180-187 | a term is left out only for want of the room the more important ones left, and would not fit in the end |
| `Glossary.PromptFitsExactly` | modules/audio/src/autune_audio/glossary.py:177-192 | both channels send the same terms, and the prompt is within the budget exactly when its prefix is |
| `Invitations.AlwaysSound` | modules/audio/src/autune_audio/invitations.py:120-295 | in any run a team holds at most fifty rows, one per address and one without an address per inviter |
| `Invitations.EachLinkJoinsOnce` | modules/audio/src/autune_audio/invitations.py:181-231 | a link adds one member at most, strictly before it lapses, and only the account it was made for |
| `Invitations.Registry.Invite` | modules/audio/src/autune_audio/invitations.py:120-178 | who may invite, what is swept and replaced, the limit, and the row made |
| `Invitations.InvitesExactly` | modules/audio/src/autune_audio/invitations.py:120-178 | for a member's invitation just which rows of the team go, when fifty are too many, and the row made, lapsing after seven days, or after an hour when it is for no address |
| `Invitations.Registry.Accept` | modules/audio/src/autune_audio/invitations.py:181-231 | the team joined and the row used up, or the one refusal |
| `Invitations.Registry.Cancel` | modules/audio/src/autune_audio/invitations.py:256-278 | the team's row goes, and nothing else is told apart |
| `Invitations.Registry.ListedExactlyWhileUsable` | modules/audio/src/autune_audio/invitations.py:234-253 | only a member is shown the list, and a row is on it exactly when it is the team's and some account can still accept it |

## Left out

- Invitations.Registry.Pending: returns the listed rows as a set, without their order and the inviters' names.
- Ask.Ask: the compacted text sent to the model, the size it is measured by, and the wording of a failed tool's result.
- L1Actions.ExecuteL1: what the asker is told is the reason, not its Korean wording.
- Triggers.Waker.OnTick: a sweep is one step there; sweeps that overlap are modelled by their guard reads and stored runs (`Triggers.Moved`), without the loops around them.
- Triggers.Waker.OnEvent: the check that the layer is switched on and that the meeting exists, and telling the approvers.
- Names.Substitute: the order in which Python walks the roster set, which nothing depends on; the database query for the roster is a parameter.
- Masking.MaskOnce: what the patterns and the recogniser find is a parameter; spans outside the text are not modelled.
- Resampler.Pcm16kProcessor.Process: floating-point rounding; sums and means are exact reals, and the input rate is a whole number of hertz.
- Expressions.Evaluate: JavaScript's property lookup and loose equality of two values are parameters, and a number is read in exact arithmetic.
- Research.Library.SaveResearchDocument: two saves racing to insert, which the unique index decides.
- Protocol.CalledOnceAfterItsClaim: a statement is one step, and what it wrote is seen at once; row locks, isolation levels and a run whose transaction is rolled back are the database's.
- Collecting declared actions and tools, personal-only and withheld tools, tracing checks, notifications and card previews: plumbing around the modelled functions.
- Cosine similarity of voices, the job guard's threads, corpus statistics, and every HTTP, Slack, Gmail, Gemini and audio-codec path.
