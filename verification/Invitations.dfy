/** Team invitations (`invitations.py`): made, accepted, cancelled and swept, one after the other. */
module Invitations {
  import opened Options
  import opened Characters

  /** Times and lifetimes, in microseconds. */
  const LIFETIME := 7 * 24 * 60 * 60 * 1000000
  const LINK_LIFETIME := 60 * 60 * 1000000
  const MAX_PENDING := 50

  /** A row of `aud_team_invitations`; its token stands for the token's hash. */
  datatype Invitation = Invitation(team: string, email: Option<string>, token: string, invitedBy: string, expires: int)

  type Rows = map<nat, Invitation>

  /** An acceptance: by which account, with which address, when, and of which invitation. */
  datatype Join = Join(user: string, address: string, at: int, of: Invitation)

  datatype Table = Table(rows: Rows, next: nat, teams: set<string>, members: set<(string, string)>, issued: set<string>,
                         joins: seq<Join>)

  datatype Invited = NotAMember | TooMany | Made(id: nat)

  /** `normalise`, `lower` being `str.lower`. */
  function Normalised(email: string, lower: string -> string): string { lower(Strip(email)) }

  function Address(email: Option<string>, lower: string -> string): Option<string> {
    match email case None => None case Some(e) => Some(Normalised(e, lower))
  }

  // ---- The operations -----------------------------------------------------------------------------------

  /** A new invitation to `address` by `inviter` replaces the row. */
  predicate Replaces(row: Invitation, address: Option<string>, inviter: string) {
    if address.Some? then row.email == address else row.email.None? && row.invitedBy == inviter
  }

  /** An invitation sweeps the row away: it is the team's, and lapsed or the one replaced. */
  predicate Clears(row: Invitation, team: string, address: Option<string>, inviter: string, now: int) {
    row.team == team && (row.expires <= now || Replaces(row, address, inviter))
  }

  /** The rows an invitation leaves before it adds its own: the team's lapsed ones and the one it replaces are gone. */
  function Cleared(rows: Rows, team: string, address: Option<string>, inviter: string, now: int): Rows {
    map id | id in rows && !Clears(rows[id], team, address, inviter, now) :: rows[id]
  }

  function RowsOf(rows: Rows, team: string): set<nat> { set id | id in rows && rows[id].team == team }

  function NewInvitation(team: string, address: Option<string>, token: string, inviter: string, now: int): Invitation {
    Invitation(team, address, token, inviter, now + if address.Some? then LIFETIME else LINK_LIFETIME)
  }

  /** What `invite` leaves and answers; a refusal leaves the rows cleared, for the caller to keep or roll back. */
  function AfterInvite(t: Table, team: string, address: Option<string>, token: string, inviter: string,
                       now: int): (Table, Invited)
  {
    if (team, inviter) !in t.members then (t, NotAMember)
    else
      var cleared := Cleared(t.rows, team, address, inviter, now);
      if |RowsOf(cleared, team)| >= MAX_PENDING then (t.(rows := cleared), TooMany)
      else (t.(rows := cleared[t.next := NewInvitation(team, address, token, inviter, now)], next := t.next + 1,
               issued := t.issued + {token}), Made(t.next))
  }

  predicate HasToken(rows: Rows, id: nat, token: string) { id in rows && rows[id].token == token }

  /** The row may be accepted by an account with this address at `now`. */
  predicate Usable(t: Table, id: nat, address: string, now: int)
    requires id in t.rows
  {
    var row := t.rows[id];
    now < row.expires && (row.email.None? || row.email.value == address) && row.team in t.teams
  }

  function AfterAccept(t: Table, id: nat, user: string, address: string, now: int): Table
    requires id in t.rows
  {
    t.(rows := t.rows - {id}, members := t.members + {(t.rows[id].team, user)},
       joins := t.joins + [Join(user, address, now, t.rows[id])])
  }

  function NotLapsed(rows: Rows, now: int): Rows { map id | id in rows && now < rows[id].expires :: rows[id] }

  function NotTo(rows: Rows, address: string): Rows
  {
    map id | id in rows && rows[id].email != Some(address) :: rows[id]
  }

  // ---- What is left, row by row -------------------------------------------------------------------------

  /** The row outlasts an invitation by `inviter` to `address`: it is another team's, or has not lapsed and is not
      the one that is replaced -- the one to the same address, or, when there is none, the inviter's own without an
      address. */
  ghost predicate Outlasts(row: Invitation, team: string, address: Option<string>, inviter: string, now: int) {
    row.team != team ||
    (now < row.expires && !(row.email == address && (address == None ==> row.invitedBy == inviter)))
  }

  /** The rows of the team that outlast it. */
  ghost function Outlasting(rows: Rows, team: string, address: Option<string>, inviter: string, now: int): set<nat> {
    set id | id in rows && rows[id].team == team && Outlasts(rows[id], team, address, inviter, now)
  }

  /** Who may invite, what goes, what stays, and what is made: a member's invitation takes the rows that do not
      outlast it away, and, while fewer than fifty of the team's are left, makes one that lapses after seven days, or
      after an hour when it is for no address. */
  lemma InvitesExactly(t: Table, team: string, address: Option<string>, token: string, inviter: string, now: int)
    requires forall id | id in t.rows :: id < t.next
    ensures var (after, answer) := AfterInvite(t, team, address, token, inviter, now);
      if (team, inviter) !in t.members then after == t && answer == NotAMember
      else
        && (forall id | id in t.rows :: id in after.rows <==> Outlasts(t.rows[id], team, address, inviter, now))
        && (forall id | id in t.rows && id in after.rows :: after.rows[id] == t.rows[id])
        && after.teams == t.teams && after.members == t.members && after.joins == t.joins
        && if |Outlasting(t.rows, team, address, inviter, now)| >= 50
           then answer == TooMany && after.rows.Keys <= t.rows.Keys && after.next == t.next && after.issued == t.issued
           else answer == Made(t.next) && t.next in after.rows && after.rows.Keys <= t.rows.Keys + {t.next}
                && after.next == t.next + 1 && after.issued == t.issued + {token}
                && after.rows[t.next] == Invitation(team, address, token, inviter,
                                                    now + if address == None then 3600000000 else 604800000000)
  {
    var cleared := Cleared(t.rows, team, address, inviter, now);
    assert RowsOf(cleared, team) == Outlasting(t.rows, team, address, inviter, now);
  }

  // ---- What the table keeps -----------------------------------------------------------------------------

  predicate SameSlot(a: Invitation, b: Invitation) {
    a.team == b.team && a.email == b.email && (a.email.None? ==> a.invitedBy == b.invitedBy)
  }

  ghost predicate RowSound(t: Table, id: nat)
    requires id in t.rows
  {
    id < t.next && t.rows[id].token in t.issued && !Spent(t.joins, t.rows[id].token)
  }

  ghost predicate Apart(rows: Rows, a: nat, b: nat) {
    a in rows && b in rows && (SameSlot(rows[a], rows[b]) || rows[a].token == rows[b].token) ==> a == b
  }

  /** The token has been accepted. */
  ghost predicate Spent(joins: seq<Join>, token: string) { exists k :: 0 <= k < |joins| && joins[k].of.token == token }

  ghost predicate JoinSound(joins: seq<Join>, issued: set<string>, k: nat)
    requires k < |joins|
  {
    var j := joins[k];
    && j.at < j.of.expires && (j.of.email.None? || j.of.email.value == j.address) && j.of.token in issued
    && forall l | 0 <= l < |joins| && joins[l].of.token == j.of.token :: l == k
  }

  /** A team holds at most fifty rows, one for each address and one without an address for each inviter; live tokens are
      different and unspent; and what was accepted was accepted once, in time, by the account it was for. */
  ghost predicate Sound(t: Table) {
    && (forall id | id in t.rows :: RowSound(t, id))
    && (forall a: nat, b: nat :: Apart(t.rows, a, b))
    && (forall team :: |RowsOf(t.rows, team)| <= MAX_PENDING)
    && (forall k: nat | k < |t.joins| :: JoinSound(t.joins, t.issued, k))
  }

  lemma FewerRows(rows: Rows, fewer: Rows, team: string)
    requires forall id | id in fewer :: id in rows && fewer[id] == rows[id]
    ensures |RowsOf(fewer, team)| <= |RowsOf(rows, team)|
  {
    var more := RowsOf(rows, team) - RowsOf(fewer, team);
    assert RowsOf(rows, team) == RowsOf(fewer, team) + more;
    assert |RowsOf(rows, team)| == |RowsOf(fewer, team)| + |more|;
  }

  /** Rows may go for whatever reason. */
  lemma RemovalKeeps(t: Table, fewer: Rows)
    requires Sound(t) && forall id | id in fewer :: id in t.rows && fewer[id] == t.rows[id]
    ensures Sound(t.(rows := fewer))
  {
    var t' := t.(rows := fewer);
    forall id | id in fewer ensures RowSound(t', id) { assert RowSound(t, id); }
    forall a: nat, b: nat ensures Apart(fewer, a, b) { assert Apart(t.rows, a, b); }
    forall team ensures |RowsOf(fewer, team)| <= MAX_PENDING { FewerRows(t.rows, fewer, team); }
  }

  lemma InviteKeeps(t: Table, team: string, address: Option<string>, token: string, inviter: string, now: int)
    requires Sound(t) && token !in t.issued
    ensures Sound(AfterInvite(t, team, address, token, inviter, now).0)
  {
    if (team, inviter) in t.members {
      var cleared := Cleared(t.rows, team, address, inviter, now);
      var c := t.(rows := cleared);
      RemovalKeeps(t, cleared);
      if |RowsOf(cleared, team)| < MAX_PENDING { AdditionKeeps(c, NewInvitation(team, address, token, inviter, now)); }
    }
  }

  /** A new invitation, where nothing stands in its place and the team has room. */
  lemma AdditionKeeps(t: Table, row: Invitation)
    requires Sound(t) && row.token !in t.issued && |RowsOf(t.rows, row.team)| < MAX_PENDING
    requires forall id | id in t.rows :: !SameSlot(t.rows[id], row)
    ensures Sound(t.(rows := t.rows[t.next := row], next := t.next + 1, issued := t.issued + {row.token}))
  {
    var rows' := t.rows[t.next := row];
    var t' := t.(rows := rows', next := t.next + 1, issued := t.issued + {row.token});
    FreshIsUnspent(t, row.token);
    forall id | id in rows' ensures RowSound(t', id) {
      if id in t.rows { assert RowSound(t, id); }
    }
    forall a: nat, b: nat ensures Apart(rows', a, b) {
      assert Apart(t.rows, a, b);
      if a in t.rows { assert RowSound(t, a); }
      if b in t.rows { assert RowSound(t, b); }
    }
    assert t.next !in t.rows;
    forall team ensures |RowsOf(rows', team)| <= MAX_PENDING { OneMoreRow(t.rows, t.next, row, team); }
    forall k: nat | k < |t'.joins| ensures JoinSound(t'.joins, t'.issued, k) { assert JoinSound(t.joins, t.issued, k); }
  }

  lemma FreshIsUnspent(t: Table, token: string)
    requires Sound(t) && token !in t.issued
    ensures !Spent(t.joins, token)
  {
    forall k: nat | k < |t.joins| ensures t.joins[k].of.token != token { assert JoinSound(t.joins, t.issued, k); }
  }

  lemma OneMoreRow(rows: Rows, id: nat, row: Invitation, team: string)
    requires id !in rows
    ensures |RowsOf(rows[id := row], team)| == |RowsOf(rows, team)| + if row.team == team then 1 else 0
  {
    var before, after := RowsOf(rows, team), RowsOf(rows[id := row], team);
    assert id !in before;
    assert after == if row.team == team then before + {id} else before;
  }

  lemma SpentSnoc(joins: seq<Join>, j: Join, token: string)
    ensures Spent(joins + [j], token) <==> Spent(joins, token) || j.of.token == token
  {
    var more := joins + [j];
    if k :| 0 <= k < |joins| && joins[k].of.token == token { assert more[k].of.token == token; }
    if k :| 0 <= k < |more| && more[k].of.token == token && k < |joins| { assert joins[k].of.token == token; }
    assert more[|joins|] == j;
  }

  lemma AcceptKeeps(t: Table, id: nat, user: string, address: string, now: int)
    requires Sound(t) && id in t.rows && Usable(t, id, address, now)
    ensures Sound(AfterAccept(t, id, user, address, now))
  {
    var t', row := AfterAccept(t, id, user, address, now), t.rows[id];
    RemovalKeeps(t, t.rows - {id});
    assert RowSound(t, id);
    forall other | other in t'.rows ensures RowSound(t', other) {
      assert RowSound(t, other);
      assert Apart(t.rows, id, other);
      SpentSnoc(t.joins, Join(user, address, now, row), t.rows[other].token);
    }
    forall k: nat | k < |t'.joins| ensures JoinSound(t'.joins, t'.issued, k) {
      if k < |t.joins| {
        assert JoinSound(t.joins, t.issued, k);
        assert t.joins[k].of.token != row.token;
      } else {
        forall l | 0 <= l < |t.joins| ensures t.joins[l].of.token != row.token {}
      }
    }
  }

  // ---- Any run of operations ----------------------------------------------------------------------------

  datatype Event =
    | Invite(team: string, invited: Option<string>, token: string, inviter: string, now: int)
    | Accept(id: nat, user: string, address: string, now: int)
    | Cancel(id: nat)
    | Sweep(now: int)
    | Forget(address: string)
    | RowsGo(ids: set<nat>)
    | People(teams: set<string>, members: set<(string, string)>)

  ghost predicate Happens(t: Table, e: Event, t': Table) {
    match e
    case Invite(team, address, token, inviter, now) => token !in t.issued &&
      t' == AfterInvite(t, team, address, token, inviter, now).0
    case Accept(id, user, address, now) => id in t.rows && Usable(t, id, address, now) &&
      t' == AfterAccept(t, id, user, address, now)
    case Cancel(id) => t' == t.(rows := t.rows - {id})
    case Sweep(now) => t' == t.(rows := NotLapsed(t.rows, now))
    case Forget(address) => t' == t.(rows := NotTo(t.rows, address))
    case RowsGo(ids) => t' == t.(rows := t.rows - ids)
    case People(teams, members) => t' == t.(teams := teams, members := members)
  }

  const EMPTY := Table(map[], 0, {}, {}, {}, [])

  ghost predicate HappensAt(states: seq<Table>, events: seq<Event>, k: nat)
    requires k < |events| && |states| == |events| + 1
  {
    Happens(states[k], events[k], states[k + 1])
  }

  ghost predicate History(states: seq<Table>, events: seq<Event>) {
    |states| == |events| + 1 && states[0] == EMPTY && forall k | 0 <= k < |events| :: HappensAt(states, events, k)
  }

  lemma EmptyIsSound()
    ensures Sound(EMPTY)
  {
    forall team ensures |RowsOf(EMPTY.rows, team)| <= MAX_PENDING { assert RowsOf(EMPTY.rows, team) == {}; }
  }

  lemma PeopleKeeps(t: Table, teams: set<string>, members: set<(string, string)>)
    requires Sound(t)
    ensures Sound(t.(teams := teams, members := members))
  {
    var t' := t.(teams := teams, members := members);
    forall id | id in t'.rows ensures RowSound(t', id) { assert RowSound(t, id); }
  }

  lemma {:induction false} AlwaysSound(states: seq<Table>, events: seq<Event>, k: nat)
    requires History(states, events) && k < |states|
    ensures Sound(states[k])
  {
    if k == 0 {
      EmptyIsSound();
    } else {
      AlwaysSound(states, events, k - 1);
      assert HappensAt(states, events, k - 1);
      var t, t' := states[k - 1], states[k];
      match events[k - 1] {
        case Invite(team, address, token, inviter, now) => InviteKeeps(t, team, address, token, inviter, now);
        case Accept(id, user, address, now) => AcceptKeeps(t, id, user, address, now);
        case Cancel(_) => RemovalKeeps(t, t'.rows);
        case Sweep(_) => RemovalKeeps(t, t'.rows);
        case Forget(_) => RemovalKeeps(t, t'.rows);
        case RowsGo(_) => RemovalKeeps(t, t'.rows);
        case People(teams, members) => PeopleKeeps(t, teams, members);
      }
    }
  }

  /** In any run a link adds one member at most, strictly before it lapses, and only the account it was made for. */
  lemma EachLinkJoinsOnce(states: seq<Table>, events: seq<Event>, n: nat, k: nat, l: nat)
    requires History(states, events) && n < |states| && k < |states[n].joins| && l < |states[n].joins|
    ensures var a, b := states[n].joins[k], states[n].joins[l];
      && (a.of.token == b.of.token ==> k == l) && a.at < a.of.expires
      && (a.of.email.Some? ==> a.of.email.value == a.address)
  {
    AlwaysSound(states, events, n);
    assert JoinSound(states[n].joins, states[n].issued, k);
  }

  // ---- The table in place -------------------------------------------------------------------------------

  class Registry {
    var rows: Rows
    var next: nat
    var teams: set<string>
    var members: set<(string, string)>
    ghost var issued: set<string>
    ghost var joins: seq<Join>

    ghost function Value(): Table
      reads this
    {
      Table(rows, next, teams, members, issued, joins)
    }

    ghost predicate Valid()
      reads this
    {
      Sound(Value())
    }

    /** `invite`, `token` being the fresh one it draws. */
    method Invite(team: string, email: Option<string>, inviter: string, now: int, token: string,
                  lower: string -> string)
      returns (answer: Invited)
      requires Valid() && token !in issued
      modifies this
      ensures Valid()
      ensures var address := if email == None then None else Some(lower(Strip(email.value)));
        (Value(), answer) == AfterInvite(old(Value()), team, address, token, inviter, now)
    {
      hide Cleared, RowsOf, Clears, Sound, Strip;
      InviteKeeps(Value(), team, Address(email, lower), token, inviter, now);
      if (team, inviter) !in members { return NotAMember; }
      var address := Address(email, lower);
      rows := Cleared(rows, team, address, inviter, now);
      if |RowsOf(rows, team)| >= MAX_PENDING { return TooMany; }
      var id := next;
      var expires := now + if address.Some? then LIFETIME else LINK_LIFETIME;
      rows := rows[id := Invitation(team, address, token, inviter, expires)];
      next, issued := next + 1, issued + {token};
      return Made(id);
    }

    /** `accept`: the team joined, or the one refusal. */
    method Accept(token: string, user: string, email: string, now: int, lower: string -> string)
      returns (team: Option<string>)
      requires Valid()
      modifies this
      ensures Valid()
      ensures forall id: nat | HasToken(old(rows), id, token) ::
        Usable(old(Value()), id, Normalised(email, lower), now) ==>
          && team == Some(old(rows)[id].team)
          && Value() == AfterAccept(old(Value()), id, user, Normalised(email, lower), now)
      ensures (forall id: nat | HasToken(old(rows), id, token) ::
                 !Usable(old(Value()), id, Normalised(email, lower), now)) ==>
        team == None && Value() == old(Value())
    {
      ghost var t := Value();
      if id: nat :| id in rows && rows[id].token == token {
        var row := rows[id];
        ghost var address := Normalised(email, lower);
        OneHasToken(t, token, id);
        var elsewhere := row.email.Some? && row.email.value != Normalised(email, lower);
        if row.expires <= now || elsewhere || row.team !in teams {
          assert !Usable(t, id, address, now);
          return None;
        }
        assert HasToken(t.rows, id, token) && Usable(t, id, address, now);
        AcceptKeeps(t, id, user, address, now);
        if (row.team, user) !in members { members := members + {(row.team, user)}; }
        rows := rows - {id};
        joins := joins + [Join(user, address, now, row)];
        assert t.members + {(row.team, user)} == members;
        return Some(row.team);
      }
      return None;
    }

    /** `cancel`: whether a row of the team went; someone who is not a member is refused. */
    method Cancel(team: string, id: nat, inviter: string) returns (gone: Option<bool>)
      requires Valid()
      modifies this
      ensures Valid()
      ensures if (team, inviter) !in old(members) then gone == None && Value() == old(Value())
              else gone == Some(id in old(rows) && old(rows)[id].team == team)
                   && Value() == if gone.value then old(Value()).(rows := old(rows) - {id}) else old(Value())
    {
      if (team, inviter) !in members { return None; }
      if id !in rows || rows[id].team != team { return Some(false); }
      RemovalKeeps(Value(), rows - {id});
      rows := rows - {id};
      return Some(true);
    }

    method ForgetExpired(now: int) returns (count: nat)
      requires Valid()
      modifies this
      ensures Valid() && Value() == old(Value()).(rows := rows)
      ensures forall id :: id in rows <==> id in old(rows) && now < old(rows)[id].expires
      ensures forall id | id in rows :: rows[id] == old(rows)[id]
      ensures count == |old(rows)| - |rows|
    {
      var left := NotLapsed(rows, now);
      RemovalKeeps(Value(), left);
      SmallerMap(rows, left);
      count := |rows| - |left|;
      rows := left;
    }

    method ForgetAddress(email: string, lower: string -> string) returns (count: nat)
      requires Valid()
      modifies this
      ensures Valid() && Value() == old(Value()).(rows := rows)
      ensures forall id :: id in rows <==> id in old(rows) && old(rows)[id].email != Some(lower(Strip(email)))
      ensures forall id | id in rows :: rows[id] == old(rows)[id]
      ensures count == |old(rows)| - |rows|
    {
      var left := NotTo(rows, Normalised(email, lower));
      RemovalKeeps(Value(), left);
      SmallerMap(rows, left);
      count := |rows| - |left|;
      rows := left;
    }

    /** `pending`: the team's rows that have not lapsed, or a refusal for someone who is not a member. */
    function Pending(team: string, reader: string, now: int): Option<set<nat>>
      reads this
    {
      if (team, reader) !in members then None
      else Some(set id | id in rows && rows[id].team == team && now < rows[id].expires)
    }

    /** Only a member is shown the list, and a row is on it exactly when it is the team's and some account could still
        accept it. */
    lemma ListedExactlyWhileUsable(team: string, reader: string, now: int, id: nat)
      requires team in teams
      ensures Pending(team, reader, now) == None <==> (team, reader) !in members
      ensures (team, reader) in members ==>
        (id in Pending(team, reader, now).value <==>
           id in rows && rows[id].team == team && exists address :: Usable(Value(), id, address, now))
    {
      if id in rows && rows[id].team == team && now < rows[id].expires {
        assert Usable(Value(), id, if rows[id].email.Some? then rows[id].email.value else "", now);
      }
    }
  }

  lemma OneHasToken(t: Table, token: string, id: nat)
    requires Sound(t) && HasToken(t.rows, id, token)
    ensures forall other: nat | HasToken(t.rows, other, token) :: other == id
  {
    forall other: nat | HasToken(t.rows, other, token) ensures other == id { assert Apart(t.rows, other, id); }
  }

  lemma SmallerMap(rows: Rows, fewer: Rows)
    requires forall id | id in fewer :: id in rows
    ensures |fewer| <= |rows|
  {
    assert rows.Keys == fewer.Keys + (rows.Keys - fewer.Keys);
    assert |rows.Keys| == |fewer.Keys| + |rows.Keys - fewer.Keys|;
  }
}
