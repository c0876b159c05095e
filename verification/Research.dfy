/** Research documents and what deletes them (`research_store.py` and the migration's cascades and trigger). */
module Research {
  import opened Options
  import opened Characters

  datatype Status = Proposed | Approved | Rejected

  datatype Document = Document(team: string, meeting: string, body: string, status: Status)

  /** One row of `agent_research_sources`. */
  datatype Source = Source(document: nat, meeting: string)

  /** A save of `document` cited `utterance`, which was of `meeting`. */
  datatype Citation = Citation(document: nat, utterance: string, meeting: string)

  /** The tables: documents by id and the next free id, their sources, each meeting's team, each utterance's meeting;
      and what was ever cited. */
  datatype Tables = Tables(documents: map<nat, Document>, next: nat, sources: set<Source>,
                           meetings: map<string, string>, utterances: map<string, string>, cited: set<Citation>)

  datatype Outcome = Empty | Leaks | MeetingNotFound | SourceChanged | Saved(document: nat)

  predicate OfTeam(meetings: map<string, string>, meeting: string, team: string) {
    meeting in meetings && meetings[meeting] == team
  }

  /** The utterance is there, in a meeting of the team. */
  predicate Quotable(t: Tables, team: string, utterance: string) {
    utterance in t.utterances && OfTeam(t.meetings, t.utterances[utterance], team)
  }

  /** The meetings of the cited utterances, and the document's own. */
  function SourcesOf(t: Tables, meeting: string, wanted: set<string>): set<string>
    requires forall u | u in wanted :: u in t.utterances
  {
    (set u | u in wanted :: t.utterances[u]) + {meeting}
  }

  /** The meeting's proposed document. */
  predicate IsProposed(t: Tables, meeting: string, id: nat) {
    id in t.documents && t.documents[id].meeting == meeting && t.documents[id].status.Proposed?
  }

  predicate HasProposed(t: Tables, meeting: string) { exists id | id in t.documents :: IsProposed(t, meeting, id) }

  // ---- What the tables keep -----------------------------------------------------------------------------

  ghost predicate DocumentSound(t: Tables, id: nat)
    requires id in t.documents
  {
    var d := t.documents[id];
    id < t.next && OfTeam(t.meetings, d.meeting, d.team) && Source(id, d.meeting) in t.sources
  }

  /** Each row refers to rows that are there, a document and its sources are of one team, a meeting has at most one
      proposed document, and the meeting of everything a document's saves cited is a source of it. */
  ghost predicate Sound(t: Tables) {
    && (forall id | id in t.documents :: DocumentSound(t, id))
    && (forall s | s in t.sources ::
        s.document in t.documents && OfTeam(t.meetings, s.meeting, t.documents[s.document].team))
    && (forall a, b | a in t.documents && b in t.documents
          && t.documents[a].status.Proposed? && t.documents[b].status.Proposed?
          && t.documents[a].meeting == t.documents[b].meeting :: a == b)
    && (forall c | c in t.cited ::
        c.document < t.next && (c.document in t.documents ==> Source(c.document, c.meeting) in t.sources))
    && (forall u | u in t.utterances :: t.utterances[u] in t.meetings)
  }

  // ---- The operations -----------------------------------------------------------------------------------

  /** What a save answers before it writes; `masked` is whether the body passes the privacy guard. */
  function Verdict(t: Tables, team: string, meeting: string, body: string, wanted: set<string>,
                   masked: bool): Option<Outcome>
  {
    if Strip(body) == [] then Some(Empty)
    else if !masked then Some(Leaks)
    else if !OfTeam(t.meetings, meeting, team) then Some(MeetingNotFound)
    else if !(forall u | u in wanted :: Quotable(t, team, u)) then Some(SourceChanged)
    else None
  }

  /** `body` kept as document `id`, which is new or the meeting's proposed one, with its sources added. */
  function Kept(t: Tables, id: nat, team: string, meeting: string, body: string, wanted: set<string>): Tables
    requires forall u | u in wanted :: u in t.utterances
  {
    var document :=
      if id in t.documents then t.documents[id].(body := body) else Document(team, meeting, body, Proposed);
    t.(documents := t.documents[id := document], next := if id == t.next then id + 1 else t.next,
       sources := t.sources + (set m | m in SourcesOf(t, meeting, wanted) :: Source(id, m)),
       cited := t.cited + (set u | u in wanted :: Citation(id, u, t.utterances[u])))
  }

  /** Where the body of a save goes. */
  predicate Target(t: Tables, meeting: string, id: nat) {
    if HasProposed(t, meeting) then IsProposed(t, meeting, id) else id == t.next
  }

  function Shared(t: Tables, id: nat): Tables
    requires id in t.documents
  {
    t.(documents := t.documents[id := t.documents[id].(status := Approved)])
  }

  /** The documents that have the meeting as a source. */
  function Quoting(t: Tables, meeting: string): set<nat>
  {
    set s | s in t.sources && s.meeting == meeting :: s.document
  }

  /** The meeting gone, with its utterances, every document that has it as a source, and all the sources of those. */
  function Deleted(t: Tables, meeting: string): Tables {
    var gone := Quoting(t, meeting);
    t.(documents := t.documents - gone, sources := (set s | s in t.sources && s.document !in gone),
       meetings := t.meetings - {meeting},
       utterances := t.utterances - (set u | u in t.utterances && t.utterances[u] == meeting))
  }

  /** What else may happen to the tables: a meeting is made, an utterance written or rewritten away. */
  function Recorded(t: Tables, utterance: string, meeting: string): Tables
  {
    t.(utterances := t.utterances[utterance := meeting])
  }

  lemma SaveKeeps(t: Tables, id: nat, team: string, meeting: string, body: string, wanted: set<string>)
    requires Sound(t) && Verdict(t, team, meeting, body, wanted, true) == None && Target(t, meeting, id)
    ensures Sound(Kept(t, id, team, meeting, body, wanted))
  {
    var t' := Kept(t, id, team, meeting, body, wanted);
    assert id !in t.documents ==> id == t.next && !HasProposed(t, meeting);
    forall d | d in t'.documents ensures DocumentSound(t', d) {
      if d in t.documents { assert DocumentSound(t, d); }
    }
    forall s | s in t'.sources
      ensures s.document in t'.documents && OfTeam(t'.meetings, s.meeting, t'.documents[s.document].team)
    {
      if s !in t.sources && id in t.documents { assert DocumentSound(t, id); }
    }
    forall a, b | a in t'.documents && b in t'.documents
                  && t'.documents[a].status.Proposed? && t'.documents[b].status.Proposed?
                  && t'.documents[a].meeting == t'.documents[b].meeting
      ensures a == b
    {
      assert a in t.documents ==> DocumentSound(t, a);
      if id !in t.documents && a != id { assert IsProposed(t, t.documents[a].meeting, a); }
      if id !in t.documents && b != id { assert IsProposed(t, t.documents[b].meeting, b); }
    }
    forall c | c in t'.cited
      ensures c.document < t'.next && (c.document in t'.documents ==> Source(c.document, c.meeting) in t'.sources)
    {
      if c in t.cited && c.document !in t.documents { assert c.document < t.next; }
    }
  }

  lemma ShareKeeps(t: Tables, id: nat)
    requires Sound(t) && id in t.documents
    ensures Sound(Shared(t, id))
  {
    var t' := Shared(t, id);
    forall d | d in t'.documents ensures DocumentSound(t', d) { assert DocumentSound(t, d); }
  }

  lemma DeleteKeeps(t: Tables, meeting: string)
    requires Sound(t)
    ensures Sound(Deleted(t, meeting))
  {
    var t', gone := Deleted(t, meeting), Quoting(t, meeting);
    forall d | d in t'.documents ensures DocumentSound(t', d) {
      assert DocumentSound(t, d);
      assert Source(d, t.documents[d].meeting) in t.sources;
    }
    forall s | s in t'.sources
      ensures s.document in t'.documents && OfTeam(t'.meetings, s.meeting, t'.documents[s.document].team)
    {
      assert s in t.sources && s.document !in gone;
    }
  }

  /** No document outlives a meeting it quotes: whatever any save of it cited, that meeting is still there. */
  lemma NoDocumentOutlivesASource(t: Tables, c: Citation)
    requires Sound(t) && c in t.cited && c.document in t.documents
    ensures c.meeting in t.meetings && t.meetings[c.meeting] == t.documents[c.document].team
  {
    assert Source(c.document, c.meeting) in t.sources;
  }

  // ---- Any run of operations ----------------------------------------------------------------------------

  datatype Event =
    | Save(id: nat, team: string, meeting: string, body: string, wanted: set<string>)
    | Share(id: nat)
    | Delete(meeting: string)
    | NewMeeting(meeting: string, team: string)
    | Utter(utterance: string, meeting: string)
    | Unutter(utterance: string)

  ghost predicate Happens(t: Tables, e: Event, t': Tables) {
    match e
    case Save(id, team, meeting, body, wanted) =>
      Verdict(t, team, meeting, body, wanted, true) == None && Target(t, meeting, id) &&
        t' == Kept(t, id, team, meeting, body, wanted)
    case Share(id) => id in t.documents && t.documents[id].status.Proposed? && t' == Shared(t, id)
    case Delete(meeting) => t' == Deleted(t, meeting)
    case NewMeeting(meeting, team) => meeting !in t.meetings && t' == t.(meetings := t.meetings[meeting := team])
    case Utter(utterance, meeting) => meeting in t.meetings && utterance !in t.utterances &&
      t' == Recorded(t, utterance, meeting)
    case Unutter(utterance) => t' == t.(utterances := t.utterances - {utterance})
  }

  const EMPTY := Tables(map[], 0, {}, map[], map[], {})

  ghost predicate History(states: seq<Tables>, events: seq<Event>) {
    |states| == |events| + 1 && states[0] == EMPTY && forall k | 0 <= k < |events| :: HappensAt(states, events, k)
  }

  ghost predicate HappensAt(states: seq<Tables>, events: seq<Event>, k: nat)
    requires k < |events| && |states| == |events| + 1
  {
    Happens(states[k], events[k], states[k + 1])
  }

  lemma NewMeetingKeeps(t: Tables, meeting: string, team: string)
    requires Sound(t) && meeting !in t.meetings
    ensures Sound(t.(meetings := t.meetings[meeting := team]))
  {
    var t' := t.(meetings := t.meetings[meeting := team]);
    forall d | d in t'.documents ensures DocumentSound(t', d) { assert DocumentSound(t, d); }
  }

  lemma UtteranceKeeps(t: Tables, utterances: map<string, string>)
    requires Sound(t) && forall u | u in utterances :: utterances[u] in t.meetings
    ensures Sound(t.(utterances := utterances))
  {
    var t' := t.(utterances := utterances);
    forall d | d in t'.documents ensures DocumentSound(t', d) { assert DocumentSound(t, d); }
  }

  lemma {:induction false} AlwaysSound(states: seq<Tables>, events: seq<Event>, k: nat)
    requires History(states, events) && k < |states|
    ensures Sound(states[k])
  {
    if k > 0 {
      AlwaysSound(states, events, k - 1);
      assert HappensAt(states, events, k - 1);
      var t := states[k - 1];
      match events[k - 1] {
        case Save(id, team, meeting, body, wanted) => SaveKeeps(t, id, team, meeting, body, wanted);
        case Share(id) => ShareKeeps(t, id);
        case Delete(meeting) => DeleteKeeps(t, meeting);
        case NewMeeting(meeting, team) => NewMeetingKeeps(t, meeting, team);
        case Utter(utterance, meeting) => UtteranceKeeps(t, t.utterances[utterance := meeting]);
        case Unutter(utterance) => UtteranceKeeps(t, t.utterances - {utterance});
      }
    }
  }

  // ---- The tables in place ------------------------------------------------------------------------------

  /** A row deletion still to be carried out: a cascade's, or the trigger's. */
  datatype Task = DropDocument(document: nat) | DropSource(source: Source)

  /** What is left of a meeting's cascade: only documents that quote it are being deleted, with their sources, and each
      of those that is still there has a deletion pending. */
  ghost predicate Cascading(documents: map<nat, Document>, sources: set<Source>, tasks: set<Task>, t: Tables,
                            meeting: string)
  {
    var gone := Quoting(t, meeting);
    && (forall d | d in documents :: d in t.documents && documents[d] == t.documents[d])
    && (forall d | d in t.documents && d !in gone :: d in documents)
    && (forall s | s in sources :: s in t.sources) && (forall s | s in t.sources && s.document !in gone :: s in sources)
    && (forall k | k in tasks :: Concerns(k, gone))
    && (forall d | d in documents && d in gone :: DropDocument(d) in tasks || SourcePending(sources, tasks, d))
    && (forall s | s in sources && s.document in gone :: s.document in documents || DropSource(s) in tasks)
  }

  predicate Concerns(k: Task, gone: set<nat>) {
    match k case DropDocument(d) => d in gone case DropSource(s) => s.document in gone
  }

  ghost predicate SourcePending(sources: set<Source>, tasks: set<Task>, d: nat) {
    exists s :: s in sources && s.document == d && DropSource(s) in tasks
  }

  /** The deletions a document's own deletion brings about: its sources', by their foreign key. */
  function SourcesOfDocument(sources: set<Source>, d: nat): set<Task> {
    set s | s in sources && s.document == d :: DropSource(s)
  }

  class Library {
    var documents: map<nat, Document>
    var next: nat
    var sources: set<Source>
    var meetings: map<string, string>
    var utterances: map<string, string>
    ghost var cited: set<Citation>

    ghost function Value(): Tables
      reads this
    {
      Tables(documents, next, sources, meetings, utterances, cited)
    }

    ghost predicate Valid()
      reads this
    {
      Sound(Value())
    }

    /** `save_research_document`; `masked` is what the privacy guard says of the body, and its failure is raised. */
    method SaveResearchDocument(team: string, meeting: string, body: string, ids: seq<string>, masked: bool)
      returns (outcome: Outcome)
      requires Valid()
      modifies this
      ensures Valid()
      ensures var wanted := set u | u in ids;
        match Verdict(old(Value()), team, meeting, body, wanted, masked)
        case Some(refusal) => outcome == refusal && Value() == old(Value())
        case None => outcome.Saved? && Target(old(Value()), meeting, outcome.document)
                     && Value() == Kept(old(Value()), outcome.document, team, meeting, body, wanted)
    {
      if Strip(body) == [] { return Empty; }
      if !masked { return Leaks; }
      if meeting !in meetings || meetings[meeting] != team { return MeetingNotFound; }
      var wanted := set u | u in ids;
      var found := set u | u in wanted && u in utterances && OfTeam(meetings, utterances[u], team);
      FoundAll(found, wanted);
      if |found| < |wanted| {
        assert exists u :: u in wanted && u !in found;
        return SourceChanged;
      }
      ghost var before := Value();
      var id := Keep(team, meeting, body, wanted);
      SaveKeeps(before, id, team, meeting, body, wanted);
      return Saved(id);
    }

    /** The write of a save that nothing refuses: the meeting's proposed document is overwritten, or a new one begun. */
    method Keep(team: string, meeting: string, body: string, wanted: set<string>) returns (id: nat)
      requires Valid() && forall u | u in wanted :: u in utterances
      modifies this
      ensures Target(old(Value()), meeting, id) && Value() == Kept(old(Value()), id, team, meeting, body, wanted)
    {
      ghost var before := Value();
      var quoted := (set u | u in wanted :: utterances[u]) + {meeting};
      var added := quoted;
      if proposed: nat :|
        proposed in documents && documents[proposed].meeting == meeting && documents[proposed].status.Proposed?
      {
        id := proposed;
        assert IsProposed(before, meeting, id);
        documents := documents[id := documents[id].(body := body)];
        var existing := set s | s in sources && s.document == id :: s.meeting;
        added := quoted - existing;
      } else {
        assert !HasProposed(before, meeting);
        assert next !in documents;
        id := next;
        documents, next := documents[id := Document(team, meeting, body, Proposed)], next + 1;
      }
      sources := sources + set m | m in added :: Source(id, m);
      OnlyNewSources(before.sources, id, quoted, added);
      cited := cited + set u | u in wanted :: Citation(id, u, utterances[u]);
    }

    /** `share_research_document`. */
    method ShareResearchDocument(team: string, id: nat) returns (shared: bool)
      requires Valid()
      modifies this
      ensures Valid()
      ensures shared <==> id in old(documents) && old(documents)[id].team == team && old(documents)[id].status.Proposed?
      ensures Value() == if shared then Shared(old(Value()), id) else old(Value())
    {
      if id !in documents || documents[id].team != team { return false; }
      if !documents[id].status.Proposed? { return false; }
      ShareKeeps(Value(), id);
      documents := documents[id := documents[id].(status := Approved)];
      return true;
    }

    /** DELETE FROM meetings: the cascades and the trigger, in whatever order the database carries them out. */
    method DeleteMeeting(meeting: string)
      requires Valid()
      modifies this
      ensures Valid() && Value() == Deleted(old(Value()), meeting)
    {
      ghost var before := Value();
      var tasks := (set d | d in documents && documents[d].meeting == meeting :: DropDocument(d))
        + (set s | s in sources && s.meeting == meeting :: DropSource(s));
      CascadeStarts(before, tasks, meeting);
      DeleteKeeps(before, meeting);
      documents, sources := Cascade(documents, sources, tasks, before, meeting);
      meetings := meetings - {meeting};
      utterances := utterances - (set u | u in utterances && utterances[u] == meeting);
    }
  }

  /** The pending deletions, one after the other, until none is left. */
  method Cascade(documents: map<nat, Document>, sources: set<Source>, tasks: set<Task>, ghost t: Tables,
                 ghost meeting: string)
    returns (documents': map<nat, Document>, sources': set<Source>)
    requires Cascading(documents, sources, tasks, t, meeting)
    ensures documents' == Deleted(t, meeting).documents && sources' == Deleted(t, meeting).sources
  {
    var todo := tasks;
    documents', sources' := documents, sources;
    while todo != {}
      invariant Cascading(documents', sources', todo, t, meeting)
      decreases |documents'.Keys| + |sources'|, |todo|
    {
      documents', sources', todo := CarryOut(documents', sources', todo, t, meeting);
    }
    CascadeEnds(documents', sources', t, meeting);
  }

  lemma FewerKeys<V>(m: map<nat, V>, k: nat)
    requires k in m
    ensures |(m - {k}).Keys| < |m.Keys|
  {
    assert m.Keys == (m - {k}).Keys + {k};
  }

  lemma FewerOf<T>(xs: set<T>, x: T)
    requires x in xs
    ensures |xs - {x}| < |xs|
  {
  }

  /** Any one of the pending deletions, carried out. */
  method CarryOut(documents: map<nat, Document>, sources: set<Source>, tasks: set<Task>, ghost t: Tables,
                  ghost meeting: string)
    returns (documents': map<nat, Document>, sources': set<Source>, tasks': set<Task>)
    requires Cascading(documents, sources, tasks, t, meeting) && tasks != {}
    ensures Cascading(documents', sources', tasks', t, meeting)
    ensures |documents'.Keys| + |sources'| < |documents.Keys| + |sources|
      || (|documents'.Keys| + |sources'| == |documents.Keys| + |sources| && |tasks'| < |tasks|)
  {
    hide Cascading;
    var task :| task in tasks;
    documents', sources', tasks' := documents, sources, tasks - {task};
    if task.DropDocument? && task.document in documents {
      DocumentDrops(documents, sources, tasks, t, meeting, task.document);
      tasks' := tasks' + SourcesOfDocument(sources, task.document);
      documents' := documents - {task.document};
      FewerKeys(documents, task.document);
    } else if task.DropSource? && task.source in sources {
      SourceDrops(documents, sources, tasks, t, meeting, task.source);
      tasks' := tasks' + {DropDocument(task.source.document)};
      sources' := sources - {task.source};
      FewerOf(sources, task.source);
    } else {
      NothingDrops(documents, sources, tasks, t, meeting, task);
      FewerOf(tasks, task);
    }
  }

  lemma OnlyNewSources(sources: set<Source>, id: nat, quoted: set<string>, added: set<string>)
    requires added <= quoted && forall m | m in quoted && m !in added :: Source(id, m) in sources
    ensures sources + (set m | m in added :: Source(id, m)) == sources + (set m | m in quoted :: Source(id, m))
  {
  }

  lemma FoundAll(found: set<string>, wanted: set<string>)
    requires found <= wanted
    ensures |found| <= |wanted| && (|found| == |wanted| <==> found == wanted)
  {
    assert wanted == found + (wanted - found);
    assert |wanted| == |found| + |wanted - found|;
  }

  lemma CascadeStarts(t: Tables, tasks: set<Task>, meeting: string)
    requires Sound(t)
    requires tasks == (set d | d in t.documents && t.documents[d].meeting == meeting :: DropDocument(d))
      + (set s | s in t.sources && s.meeting == meeting :: DropSource(s))
    ensures Cascading(t.documents, t.sources, tasks, t, meeting)
  {
    var gone := Quoting(t, meeting);
    forall k | k in tasks ensures Concerns(k, gone) {
      if k.DropDocument? { assert DocumentSound(t, k.document); }
    }
    forall d | d in t.documents && d in gone ensures DropDocument(d) in tasks || SourcePending(t.sources, tasks, d) {
      assert Source(d, meeting) in t.sources && DropSource(Source(d, meeting)) in tasks;
    }
  }

  lemma DocumentDrops(documents: map<nat, Document>, sources: set<Source>, tasks: set<Task>, t: Tables, meeting: string,
                      d: nat)
    requires Cascading(documents, sources, tasks, t, meeting) && DropDocument(d) in tasks
    ensures Cascading(documents - {d}, sources, tasks - {DropDocument(d)} + SourcesOfDocument(sources, d), t, meeting)
  {
    var tasks' := tasks - {DropDocument(d)} + SourcesOfDocument(sources, d);
    var gone := Quoting(t, meeting);
    assert Concerns(DropDocument(d), gone);
    forall e | e in documents - {d} && e in gone
      ensures DropDocument(e) in tasks' || SourcePending(sources, tasks', e)
    {
      if SourcePending(sources, tasks, e) {
        var s :| s in sources && s.document == e && DropSource(s) in tasks;
        assert DropSource(s) in tasks';
      }
    }
  }

  lemma SourceDrops(documents: map<nat, Document>, sources: set<Source>, tasks: set<Task>, t: Tables, meeting: string,
                    s: Source)
    requires Cascading(documents, sources, tasks, t, meeting) && DropSource(s) in tasks
    ensures Cascading(documents, sources - {s}, tasks - {DropSource(s)} + {DropDocument(s.document)}, t, meeting)
  {
    var sources', tasks' := sources - {s}, tasks - {DropSource(s)} + {DropDocument(s.document)};
    var gone := Quoting(t, meeting);
    assert Concerns(DropSource(s), gone);
    forall e | e in documents && e in gone ensures DropDocument(e) in tasks' || SourcePending(sources', tasks', e) {
      if e != s.document && SourcePending(sources, tasks, e) {
        var x :| x in sources && x.document == e && DropSource(x) in tasks;
        assert x in sources' && DropSource(x) in tasks';
      }
    }
  }

  lemma NothingDrops(documents: map<nat, Document>, sources: set<Source>, tasks: set<Task>, t: Tables, meeting: string,
                     k: Task)
    requires Cascading(documents, sources, tasks, t, meeting) && k in tasks
    requires match k case DropDocument(d) => d !in documents case DropSource(s) => s !in sources
    ensures Cascading(documents, sources, tasks - {k}, t, meeting)
  {
    var tasks', gone := tasks - {k}, Quoting(t, meeting);
    forall e | e in documents && e in gone ensures DropDocument(e) in tasks' || SourcePending(sources, tasks', e) {
      if SourcePending(sources, tasks, e) {
        var x :| x in sources && x.document == e && DropSource(x) in tasks;
        assert x in sources && DropSource(x) in tasks';
      }
    }
  }

  lemma CascadeEnds(documents: map<nat, Document>, sources: set<Source>, t: Tables, meeting: string)
    requires Cascading(documents, sources, {}, t, meeting)
    ensures documents == Deleted(t, meeting).documents && sources == Deleted(t, meeting).sources
  {
    var gone := Quoting(t, meeting);
    forall d | d in documents ensures d !in gone { assert !SourcePending(sources, {}, d); }
    assert documents == t.documents - gone;
    assert forall s | s in sources :: s.document !in gone;
  }
}
