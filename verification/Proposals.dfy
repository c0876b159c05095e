/** Proposals, and actions run under a scope. */
module Proposals {

  // What a subagent proposes, which arguments may be stored, and how a declared action is run under a scope
  // (`main/pending.py`, `main/actions.py`, `main/registry.py`).

  import opened Options
  import opened Characters

  datatype Level = L1 | L2

  /** A value of a proposal's JSON arguments; `Other` is any number, list or object. */
  datatype Value = Null | Flag(b: bool) | Text(s: string) | Other(n: int)

  type Arguments = map<string, Value>

  datatype Proposal = Proposal(kind: string, title: string, tool: string, arguments: Arguments, level: Level,
                               evidence: seq<string>)

  /** What this layer says when something does not go through; `OfModule` is a module's own sentence. */
  datatype Reason =
    | NotDeclared | KeptForApproval | Failure | ArgumentRefused | NoAsker | NoMeeting | UnexpectedArgument
    | OutsideTeam | MeetingNotFound | Missing(names: set<string>) | OfModule(text: string)

  /** `_own`: the reasons that hold no meeting or model text. */
  predicate IsOwn(reason: Option<Reason>) { reason.Some? && !reason.value.OfModule? }

  function OwnReason(reason: Option<Reason>): Option<Reason> { if IsOwn(reason) then reason else None }

  // ---- Which arguments may be stored ------------------------------------------------------------------

  predicate IsEnumChar(c: char) { IsLower(c) || c == '_' }

  /** `[a-z_]{1,32}`. */
  predicate IsEnum(s: string) { 1 <= |s| <= 32 && forall i | 0 <= i < |s| :: IsEnumChar(s[i]) }

  /** `[a-z_]{0,32}`. */
  predicate IsSubagentName(s: string) { |s| <= 32 && forall i | 0 <= i < |s| :: IsEnumChar(s[i]) }

  /** `[a-z]+_[A-Za-z0-9]+`. */
  predicate IsId(s: string) { exists k | 0 <= k < |s| :: SplitsId(s, k) }

  predicate SplitsId(s: string, k: int) {
    && 0 < k < |s| - 1 && s[k] == '_'
    && (forall i | 0 <= i < k :: IsLower(s[i])) && forall i | k < i < |s| :: IsAlnum(s[i])
  }

  /** `[0-9]{4}-[0-9]{2}-[0-9]{2}`. */
  predicate IsDate(s: string) {
    |s| == 10 && s[4] == '-' && s[7] == '-' && forall i | 0 <= i < 10 && i != 4 && i != 7 :: IsAsciiDigit(s[i])
  }

  predicate ShortText(s: string) { IsId(s) || IsDate(s) || IsEnum(s) }

  predicate ValueOk(v: Value) { v.Flag? || (v.Text? && ShortText(v.s)) }

  /** `arguments_ok`: ids, ISO dates, booleans and short lowercase enums; nothing else. */
  predicate ArgumentsOk(arguments: Arguments) {
    forall k | k in arguments :: IsEnum(k) && ValueOk(arguments[k])
  }

  /** 1 to 32 lower-case letters and underscores. */
  ghost predicate EnumText(s: string) { 1 <= |s| <= 32 && forall c | c in s :: 'a' <= c <= 'z' || c == '_' }

  /** A lower-case word, an underscore, and ASCII letters and digits. */
  ghost predicate IdText(s: string) {
    exists word, rest :: s == word + "_" + rest && LowerWord(word) && AlnumWord(rest)
  }

  ghost predicate LowerWord(s: string) { s != [] && forall c | c in s :: 'a' <= c <= 'z' }

  ghost predicate AlnumWord(s: string) {
    s != [] && forall c | c in s :: 'a' <= c <= 'z' || 'A' <= c <= 'Z' || '0' <= c <= '9'
  }

  /** Four digits, two and two, with hyphens between them. */
  ghost predicate DateText(s: string) {
    exists y, m, d :: s == y + "-" + m + "-" + d && DigitsOf(y, 4) && DigitsOf(m, 2) && DigitsOf(d, 2)
  }

  ghost predicate DigitsOf(s: string, n: nat) { |s| == n && forall c | c in s :: '0' <= c <= '9' }

  /** Every key is an enum, and every value a boolean, an id, a date or an enum. */
  ghost predicate OnlyCodes(arguments: Arguments) {
    forall k | k in arguments ::
      && EnumText(k)
      && (arguments[k] in {Flag(true), Flag(false)}
          || exists s :: arguments[k] == Text(s) && (IdText(s) || DateText(s) || EnumText(s)))
  }

  lemma EnumIs(s: string)
    ensures IsEnum(s) <==> EnumText(s)
  {
    forall i | 0 <= i < |s| ensures s[i] in s {}
  }

  lemma IdIs(s: string)
    ensures IsId(s) <==> IdText(s)
  {
    if k :| 0 <= k < |s| && SplitsId(s, k) {
      assert s == s[..k] + "_" + s[k + 1..];
      assert LowerWord(s[..k]) && AlnumWord(s[k + 1..]);
    }
    if word, rest :| s == word + "_" + rest && LowerWord(word) && AlnumWord(rest) {
      forall i | 0 <= i < |word| ensures IsLower(s[i]) { assert s[i] == word[i] && word[i] in word; }
      forall i | |word| < i < |s| ensures IsAlnum(s[i]) {
        assert s[i] == rest[i - |word| - 1] && rest[i - |word| - 1] in rest;
      }
      assert SplitsId(s, |word|);
    }
  }

  lemma DigitsFrom(s: string, i: nat, n: nat)
    requires i + n <= |s| && forall j | i <= j < i + n :: IsAsciiDigit(s[j])
    ensures DigitsOf(s[i..i + n], n)
  {
    var t := s[i..i + n];
    forall c | c in t ensures '0' <= c <= '9' {
      var j :| 0 <= j < n && t[j] == c;
      assert s[i + j] == c;
    }
  }

  lemma DateSplits(s: string)
    requires IsDate(s)
    ensures DateText(s)
  {
    var y, m, d := s[0..4], s[5..7], s[8..10];
    DigitsFrom(s, 0, 4);
    DigitsFrom(s, 5, 2);
    DigitsFrom(s, 8, 2);
    assert s == y + "-" + m + "-" + d;
  }

  lemma DateJoins(s: string, y: string, m: string, d: string)
    requires s == y + "-" + m + "-" + d && DigitsOf(y, 4) && DigitsOf(m, 2) && DigitsOf(d, 2)
    ensures IsDate(s)
  {
    forall i | 0 <= i < 10 && i != 4 && i != 7 ensures IsAsciiDigit(s[i]) {
      if i < 4 { assert s[i] == y[i] && y[i] in y; }
      else if i < 7 { assert s[i] == m[i - 5] && m[i - 5] in m; }
      else { assert s[i] == d[i - 8] && d[i - 8] in d; }
    }
  }

  lemma DateIs(s: string)
    ensures IsDate(s) <==> DateText(s)
  {
    hide IsDate, DigitsOf;
    if IsDate(s) { DateSplits(s); }
    if y, m, d :| s == y + "-" + m + "-" + d && DigitsOf(y, 4) && DigitsOf(m, 2) && DigitsOf(d, 2) {
      DateJoins(s, y, m, d);
    }
  }

  /** The check asks for just that. */
  lemma ArgumentsExactly(arguments: Arguments)
    ensures ArgumentsOk(arguments) <==> OnlyCodes(arguments)
  {
    hide IsEnum, EnumText, IsId, IdText, IsDate, DateText;
    forall k | k in arguments
      ensures IsEnum(k) && ValueOk(arguments[k]) <==>
        && EnumText(k)
        && (arguments[k] in {Flag(true), Flag(false)}
            || exists s :: arguments[k] == Text(s) && (IdText(s) || DateText(s) || EnumText(s)))
    {
      EnumIs(k);
      if arguments[k].Text? {
        var s := arguments[k].s;
        EnumIs(s);
        IdIs(s);
        DateIs(s);
      }
    }
  }

  /** `arguments_ok`, entry by entry. */
  method CheckArguments(arguments: Arguments) returns (ok: bool)
    ensures ok <==> ArgumentsOk(arguments)
    ensures ok <==> OnlyCodes(arguments)
  {
    ArgumentsExactly(arguments);
    var todo := arguments.Keys;
    while todo != {}
      invariant todo <= arguments.Keys
      invariant forall k | k in arguments && k !in todo :: IsEnum(k) && ValueOk(arguments[k])
    {
      var key :| key in todo;
      todo := todo - {key};
      if !IsEnum(key) { return false; }
      var value := arguments[key];
      if value.Flag? { continue; }
      if !value.Text? { return false; }
      if !(IsId(value.s) || IsDate(value.s) || IsEnum(value.s)) { return false; }
    }
    return true;
  }

  predicate IsCodeChar(c: char) { IsAlnum(c) || c == '_' || c == '-' }

  /** No stored argument can be a sentence: it is not empty and every character is an ASCII letter, a digit, '_' or
      '-'. */
  lemma StoredTextIsCode(arguments: Arguments, k: string)
    requires ArgumentsOk(arguments) && k in arguments && arguments[k].Text?
    ensures arguments[k].s != [] && forall i | 0 <= i < |arguments[k].s| :: IsCodeChar(arguments[k].s[i])
  {
    var s := arguments[k].s;
    assert ValueOk(arguments[k]);
    if IsId(s) {
      var at :| 0 <= at < |s| && SplitsId(s, at);
      forall i | 0 <= i < |s| ensures IsCodeChar(s[i]) {}
    }
  }

  // ---- Running a declared action under a scope ---------------------------------------------------------

  /** A module's write: what it was declared as, and what its signature takes. */
  datatype Action = Action(name: string, level: Level, parameters: set<string>, required: set<string>, openEnded: bool)

  /** The declared actions, each under its own name. */
  type Actions = m: map<string, Action> | forall k | k in m :: m[k].name == k witness map[]

  datatype Scope = Scope(team: string, meeting: Option<string>, user: Option<string>)

  /** The meetings there are, and the team of each. */
  type Meetings = map<string, string>

  /** What calling the module's function does. */
  datatype Effect = Returns(ok: bool, reason: Option<Reason>, evidence: seq<string>) | Raises | Leaks

  datatype Bound = Bound(arguments: Arguments) | Refused(reason: Reason)

  function Get(arguments: Arguments, key: string): Value { if key in arguments then arguments[key] else Null }

  predicate OfTeam(meetings: Meetings, meeting: Value, team: string) {
    meeting.Text? && meeting.s in meetings && meetings[meeting.s] == team
  }

  predicate Truthy(meeting: Option<string>) { meeting.Some? && meeting.value != "" }

  /** The arguments with the scope's team and meeting written in, before anything is checked. */
  function Filled(parameters: set<string>, arguments: Arguments, scope: Scope): Arguments {
    var team := if "team_id" in parameters then arguments["team_id" := Text(scope.team)] else arguments;
    if Get(team, "meeting_id").Null? && Truthy(scope.meeting) && "meeting_id" in parameters then
      team["meeting_id" := Text(scope.meeting.value)]
    else team
  }

  /** `bind_scope`. */
  function BindScope(parameters: set<string>, arguments: Arguments, scope: Scope, meetings: Meetings,
                     required: set<string>, openEnded: bool): Bound
  {
    var team := Get(arguments, "team_id");
    if !team.Null? && team != Text(scope.team) then Refused(OutsideTeam)
    else
      var bound := Filled(parameters, arguments, scope);
      var meeting := Get(bound, "meeting_id");
      if !meeting.Null? && !OfTeam(meetings, meeting, scope.team) then Refused(MeetingNotFound)
      else if !openEnded && !(bound.Keys <= parameters) then Refused(UnexpectedArgument)
      else
        var missing := required - bound.Keys;
        if "meeting_id" in missing then Refused(NoMeeting)
        else if missing != {} then Refused(Missing(missing))
        else Bound(bound)
  }

  /** What `run_action` hands to the function: its person is the scope's, whoever the proposal names. */
  function BoundFor(action: Action, arguments: Arguments, scope: Scope, meetings: Meetings): Bound {
    if "user_id" in action.parameters && scope.user.None? then Refused(NoAsker)
    else
      var asked := if "user_id" in action.parameters then arguments["user_id" := Text(scope.user.value)] else arguments;
      BindScope(action.parameters, asked, scope, meetings, action.required, action.openEnded)
  }

  /** How running an action ended; `Leaked` is the privacy violation that is never downgraded. */
  datatype Ending = Ended(ok: bool, reason: Option<Reason>, evidence: seq<string>) | Leaked

  function Failing(reason: Reason): Ending { Ended(false, Some(reason), []) }

  /** `run_action`, given what the function does when it is called. */
  function RunAction(action: Action, arguments: Arguments, scope: Scope, meetings: Meetings, effect: Effect): Ending {
    match BoundFor(action, arguments, scope, meetings)
    case Refused(reason) => Failing(reason)
    case Bound(_) =>
      match effect
      case Returns(ok, reason, evidence) => Ended(ok, reason, evidence)
      case Raises => Failing(Failure)
      case Leaks => Leaked
  }

  /** One call of a module's write. */
  datatype Call = Call(tool: string, arguments: Arguments)

  /** The call `run_action` makes, if it makes one. */
  function CallOf(action: Action, arguments: Arguments, scope: Scope, meetings: Meetings): Option<Call> {
    match BoundFor(action, arguments, scope, meetings)
    case Refused(_) => None
    case Bound(bound) => Some(Call(action.name, bound))
  }

  /** What the function would be handed: the scope's team and person where it takes them, the scope's meeting where
      it takes one and none is named, and everything else as it was proposed. */
  ghost predicate IsHanded(action: Action, arguments: Arguments, scope: Scope, sent: Arguments) {
    var takes := action.parameters;
    && (forall k | k != "team_id" && k != "user_id" && k != "meeting_id" :: SameAt(arguments, sent, k))
    && (if "team_id" in takes then HasAt(sent, "team_id", Text(scope.team)) else SameAt(arguments, sent, "team_id"))
    && (if "user_id" in takes && scope.user != None then HasAt(sent, "user_id", Text(scope.user.value))
        else SameAt(arguments, sent, "user_id"))
    && (if "meeting_id" in takes && !Given(arguments, "meeting_id")
           && scope.meeting != None && scope.meeting != Some("")
        then HasAt(sent, "meeting_id", Text(scope.meeting.value)) else SameAt(arguments, sent, "meeting_id"))
  }

  ghost predicate HasAt(arguments: Arguments, k: string, v: Value) { k in arguments && arguments[k] == v }

  ghost predicate SameAt(a: Arguments, b: Arguments, k: string) {
    (k in a <==> k in b) && (k in a ==> a[k] == b[k])
  }

  ghost predicate Given(arguments: Arguments, k: string) { k in arguments && arguments[k] != Null }

  /** The meeting named there is one of the team. */
  ghost predicate NamesOwn(arguments: Arguments, meetings: Meetings, team: string) {
    exists m :: HasAt(arguments, "meeting_id", Text(m)) && m in meetings && meetings[m] == team
  }

  /** When a call is made and with what, and otherwise what it is refused for, the first of the reasons that there
      are. */
  lemma BoundExactly(action: Action, arguments: Arguments, scope: Scope, meetings: Meetings, sent: Arguments)
    requires IsHanded(action, arguments, scope, sent)
    ensures BoundFor(action, arguments, scope, meetings) ==
      if "user_id" in action.parameters && scope.user == None then Refused(NoAsker)
      else if Given(arguments, "team_id") && arguments["team_id"] != Text(scope.team) then Refused(OutsideTeam)
      else if Given(sent, "meeting_id") && !NamesOwn(sent, meetings, scope.team) then Refused(MeetingNotFound)
      else if !action.openEnded && exists k :: k in sent && k !in action.parameters then Refused(UnexpectedArgument)
      else if "meeting_id" in action.required && "meeting_id" !in sent then Refused(NoMeeting)
      else if exists k :: k in action.required && k !in sent then Refused(Missing(action.required - sent.Keys))
      else Bound(sent)
  {
    hide Filled, IsHanded, OfTeam, NamesOwn;
    if !("user_id" in action.parameters && scope.user == None) {
      var asked :=
        if "user_id" in action.parameters then arguments["user_id" := Text(scope.user.value)] else arguments;
      FilledIs(action, arguments, asked, scope, sent);
      OfTeamIs(sent, meetings, scope.team);
      NotAll(sent.Keys, action.parameters);
      NotAll(action.required, sent.Keys);
    }
  }

  lemma OfTeamIs(sent: Arguments, meetings: Meetings, team: string)
    ensures OfTeam(meetings, Get(sent, "meeting_id"), team) <==> NamesOwn(sent, meetings, team)
  {
    var meeting := Get(sent, "meeting_id");
    if meeting.Text? { assert "meeting_id" in sent && HasAt(sent, "meeting_id", Text(meeting.s)); }
  }

  lemma NotAll(a: set<string>, b: set<string>)
    ensures !(a <= b) <==> exists k :: k in a && k !in b
    ensures a - b != {} <==> exists k :: k in a && k !in b
  {
    if k :| k in a && k !in b { assert k in a - b; }
    if a - b != {} { var k :| k in a - b; }
  }

  lemma FilledIs(action: Action, arguments: Arguments, asked: Arguments, scope: Scope, sent: Arguments)
    requires IsHanded(action, arguments, scope, sent) && !("user_id" in action.parameters && scope.user == None)
    requires asked ==
      if "user_id" in action.parameters then arguments["user_id" := Text(scope.user.value)] else arguments
    ensures Filled(action.parameters, asked, scope) == sent
  {
    var filled := Filled(action.parameters, asked, scope);
    forall k ensures SameAt(filled, sent, k) {
      if k != "team_id" && k != "user_id" && k != "meeting_id" { assert SameAt(arguments, sent, k); }
    }
    assert filled.Keys == sent.Keys by {
      forall k ensures k in filled.Keys <==> k in sent.Keys { assert SameAt(filled, sent, k); }
    }
    forall k | k in filled ensures filled[k] == sent[k] { assert SameAt(filled, sent, k); }
  }

  /** Something always would be handed over. */
  lemma HandedExists(action: Action, arguments: Arguments, scope: Scope) returns (sent: Arguments)
    ensures IsHanded(action, arguments, scope, sent)
  {
    var asked := if "user_id" in action.parameters && scope.user != None
                 then arguments["user_id" := Text(scope.user.value)] else arguments;
    sent := Filled(action.parameters, asked, scope);
  }

  /** A refused proposal fails for its reason and calls nothing; any other makes its one call, and ends as that does. */
  lemma RunsExactly(action: Action, arguments: Arguments, scope: Scope, meetings: Meetings, effect: Effect)
    ensures var ended := RunAction(action, arguments, scope, meetings, effect);
      var call := CallOf(action, arguments, scope, meetings);
      match BoundFor(action, arguments, scope, meetings)
      case Refused(reason) => call == None && ended == Ended(false, Some(reason), [])
      case Bound(sent) =>
        && call == Some(Call(action.name, sent))
        && (effect == Leaks <==> ended == Leaked)
        && (effect == Raises ==> ended == Ended(false, Some(Failure), []))
        && (forall ok, reason, evidence | effect == Returns(ok, reason, evidence) ::
            ended == Ended(ok, reason, evidence))
  {
  }

  /** What is written down of a reason: nothing of a module's own sentence, and every other reason as it is. */
  lemma OwnReasonExactly(reason: Option<Reason>)
    ensures (exists text :: reason == Some(OfModule(text))) ==> OwnReason(reason) == None
    ensures (forall text :: reason != Some(OfModule(text))) ==> OwnReason(reason) == reason
  {
    if reason.Some? && reason.value.OfModule? { assert reason == Some(OfModule(reason.value.text)); }
  }

  /** A call that is made stays in its scope: it names no other team, every meeting it names is the team's, the
      scope's meeting is filled in where none was named, whoever the proposal names the person is the scope's, and
      nothing the function needs is left out. */
  lemma CallStaysInScope(action: Action, arguments: Arguments, scope: Scope, meetings: Meetings)
    requires CallOf(action, arguments, scope, meetings).Some?
    ensures var sent := CallOf(action, arguments, scope, meetings).value.arguments;
      && (Get(sent, "team_id") == Text(scope.team) || Get(sent, "team_id").Null?)
      && ("team_id" in action.parameters ==> Get(sent, "team_id") == Text(scope.team))
      && (Given(sent, "meeting_id") ==> NamesOwn(sent, meetings, scope.team))
      && ("meeting_id" in action.parameters && Truthy(scope.meeting) ==> !Get(sent, "meeting_id").Null?)
      && ("user_id" in action.parameters ==> scope.user.Some? && Get(sent, "user_id") == Text(scope.user.value))
      && action.required <= sent.Keys && (action.openEnded || sent.Keys <= action.parameters)
      && forall k | k in arguments && k !in {"team_id", "meeting_id", "user_id"} :: Get(sent, k) == arguments[k]
  {
    var sent := CallOf(action, arguments, scope, meetings).value.arguments;
    assert action.required - sent.Keys == {};
    assert action.required == action.required * sent.Keys + (action.required - sent.Keys);
  }
}
