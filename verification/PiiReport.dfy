/** `pii_report`: a reported miss is starred out where it is stored, and so are its exact repeats. */
module PiiReport {
  import opened Options
  import opened Characters
  import opened Replacement
  import opened Reported
  import MaskingRules

  // ---- `str.replace` and `str.count` ------------------------------------------------------------

  function Occurrences(t: string, span: string): (hits: seq<nat>)
    ensures |hits| == |t|
    ensures forall i | 0 <= i < |t| :: hits[i] == if OccursAt(span, t, i) then |span| else 0
  {
    seq(|t|, i requires 0 <= i < |t| => if OccursAt(span, t, i) then |span| else 0)
  }

  function Everywhere(t: string, hidden: string): (put: seq<string>)
    ensures |put| == |t| && forall i | 0 <= i < |t| :: put[i] == hidden
  {
    seq(|t|, i requires 0 <= i < |t| => hidden)
  }

  /** `t.replace(span, hidden)`. */
  function Replaced(t: string, span: string, hidden: string): string
    requires |hidden| > 0
  {
    Sub(t, Occurrences(t, span), Everywhere(t, hidden), 0)
  }

  /** `t.count(span)`. */
  function Counted(t: string, span: string): nat
    requires span != []
  {
    Count(t, Occurrences(t, span), Everywhere(t, span), 0)
  }

  // ---- When a span can come back ------------------------------------------------------------------

  /** The span begins with separators that its hidden form ends with, so two overlapping copies leave one behind. */
  ghost predicate Survives(span: string) {
    exists k: nat :: Overlaps(span, k)
  }

  ghost predicate Overlaps(span: string, k: nat) {
    var hidden := Hidden(span);
    1 <= k <= |span| <= |hidden| && AllLayout(span[..k]) && hidden[|hidden| - k..] == span[..k]
  }

  /** Replacing the span leaves no copy of it in any text, exactly when it does not survive itself. */
  lemma ReplacedIsGoneExactly(span: string)
    requires span != [] && MASK_CHAR !in span && |Hidden(span)| > 0
    ensures (forall t: string :: !Occurs(span, Replaced(t, span, Hidden(span)))) <==> !Survives(span)
  {
    if k: nat :| Overlaps(span, k) {
      Leftover(span, k);
      assert Occurs(span, Replaced(span + span[k..], span, Hidden(span)));
    }
    forall t: string | Occurs(span, Replaced(t, span, Hidden(span))) ensures Survives(span) {
      var p: nat :| OccursAt(span, Replaced(t, span, Hidden(span)), p);
      NoNewCopy(t, span, p);
    }
  }

  lemma Leftover(span: string, k: nat)
    requires span != [] && Overlaps(span, k)
    ensures Occurs(span, Replaced(span + span[k..], span, Hidden(span)))
  {
    hide Hidden, Sub, Count, AllLayout;
    var t, hidden, n := span + span[k..], Hidden(span), |span|;
    var hits, put := Occurrences(t, span), Everywhere(t, hidden);
    assert OccursAt(span, t, 0);
    NoMatchNoChange(t, hits, put, n);
    SubStep(t, hits, put, 0);
    var out := Replaced(t, span, hidden);
    assert out == hidden + span[k..];
    assert OccursAt(span, out, |hidden| - k) by {
      assert out[|hidden| - k..|hidden| - k + n] == hidden[|hidden| - k..] + span[k..];
      assert span == span[..k] + span[k..];
    }
  }

  /** What scanning for the span leaves: `hits` marks its copies, each of which `hidden` replaces. */
  ghost predicate Scanned(t: string, span: string, hidden: string, hits: seq<nat>, put: seq<string>,
                          out: string, o: seq<Origin>)
  {
    && Fits(t, hits, put) && Traced(t, hits, put, out, o)
    && (forall i | 0 <= i < |t| :: put[i] == hidden && hits[i] == if CopyAt(span, t, i) then |span| else 0)
  }

  /** `OccursAt`, character by character. */
  ghost predicate CopyAt(span: string, t: string, i: nat) {
    i + |span| <= |t| && forall j | 0 <= j < |span| :: t[i + j] == span[j]
  }

  /** The span's separators up to `lead` stand in `hidden` as they did, and the character after them is a star. */
  ghost predicate StarsAfter(span: string, hidden: string, lead: nat) {
    && lead < |span| <= |hidden| && hidden[lead] == MASK_CHAR
    && forall j | 0 <= j < lead :: hidden[j] == span[j]
  }

  lemma ScannedReplaced(t: string, span: string, hidden: string)
    returns (hits: seq<nat>, put: seq<string>, out: string, o: seq<Origin>)
    requires span != [] && hidden != []
    ensures out == Replaced(t, span, hidden) && Scanned(t, span, hidden, hits, put, out, o)
  {
    hits, put := Occurrences(t, span), Everywhere(t, hidden);
    out, o := Sub(t, hits, put, 0), Trace(t, hits, put, 0);
    TraceIsLocal(t, hits, put, 0);
    forall i: nat ensures OccursAt(span, t, i) <==> CopyAt(span, t, i) { OccursPointwise(span, t, i); }
  }

  lemma HiddenBegins(span: string, hidden: string)
    requires Hides(span, hidden) && Lead(span) < |span|
    ensures StarsAfter(span, hidden, Lead(span))
  {
    hide Lead;
    var lead := Lead(span);
    forall j | 0 <= j < lead ensures hidden[j] == span[j] { assert hidden[..lead][j] == span[..lead][j]; }
  }

  lemma OnlySeparatorsSurvive(span: string)
    requires span != [] && Lead(span) == |span|
    ensures Survives(span)
  {
    SpanHides(span);
    var hidden, n := Hidden(span), |span|;
    hide Lead, Hidden;
    assert span[..n] == span && hidden[|hidden| - n..] == hidden;
    assert Overlaps(span, n);
  }

  lemma NewCopyOverlaps(t: string, span: string, hidden: string, hits: seq<nat>, put: seq<string>,
                        out: string, o: seq<Origin>, p: nat)
    requires Scanned(t, span, hidden, hits, put, out, o) && Hides(span, hidden) && hidden == Hidden(span)
    requires span != [] && MASK_CHAR !in span && Lead(span) < |span| && CopyAt(span, out, p)
    ensures Survives(span)
  {
    hide Scanned, Hidden, Lead, CopyAt;
    HiddenBegins(span, hidden);
    CopyFromKept(t, span, hidden, Lead(span), hits, put, out, o, p);
    CopyInside(t, span, hidden, hits, put, out, o, p);
    var k := CopyFromPut(t, span, hidden, hits, put, out, o, p);
    assert Overlaps(span, k);
  }

  lemma CopyInside(t: string, span: string, hidden: string, hits: seq<nat>, put: seq<string>,
                   out: string, o: seq<Origin>, p: nat)
    requires Scanned(t, span, hidden, hits, put, out, o) && span != [] && CopyAt(span, out, p)
    ensures p < |o|
  {
  }

  /** A copy of the span in the replaced text can only be made of the end of one hidden span and what follows it. */
  lemma NoNewCopy(t: string, span: string, p: nat)
    requires span != [] && MASK_CHAR !in span && |Hidden(span)| > 0
    requires OccursAt(span, Replaced(t, span, Hidden(span)), p)
    ensures Survives(span)
  {
    hide Hidden, Lead, Hides, Scanned, Replaced, OccursAt, CopyAt, Survives;
    SpanHides(span);
    var hits, put, out, o := ScannedReplaced(t, span, Hidden(span));
    OccursPointwise(span, out, p);
    if Lead(span) == |span| {
      OnlySeparatorsSurvive(span);
    } else {
      NewCopyOverlaps(t, span, Hidden(span), hits, put, out, o, p);
    }
  }

  lemma OccursPointwise(u: string, t: string, p: nat)
    ensures OccursAt(u, t, p) <==> CopyAt(u, t, p)
  {
    if p + |u| <= |t| {
      var w := t[p..p + |u|];
      assert forall j | 0 <= j < |u| :: w[j] == t[p + j];
    }
  }

  lemma KeptIsNoHit(t: string, hits: seq<nat>, put: seq<string>, out: string, o: seq<Origin>, p: nat)
    requires Fits(t, hits, put) && Traced(t, hits, put, out, o) && p < |o| && o[p].Kept?
    ensures o[p].at < |t| && hits[o[p].at] == 0
  {
    assert Tells(t, hits, put, o[p], out[p]);
  }

  /** As far as a copy is made of kept characters, it stood in the text before. */
  lemma KeptPart(t: string, span: string, hits: seq<nat>, put: seq<string>, out: string, o: seq<Origin>, p: nat, k: nat)
    requires Fits(t, hits, put) && Traced(t, hits, put, out, o) && CopyAt(span, out, p) && p < |o| == |out|
    requires 0 < k <= |span| && forall j | p <= j < p + k :: o[j].Kept?
    ensures o[p].at + k <= |t| && forall j | 0 <= j < k :: t[o[p].at + j] == span[j]
  {
    hide Traced, Fits;
    KeptRun(t, hits, put, out, o, p, k - 1);
    forall j | 0 <= j < k ensures t[o[p].at + j] == span[j] {
      KeptRun(t, hits, put, out, o, p, j);
      assert out[p + j] == span[j];
    }
  }

  /** No copy begins in the text itself: it would have stood there before, and been replaced. */
  lemma CopyFromKept(t: string, span: string, hidden: string, lead: nat, hits: seq<nat>, put: seq<string>,
                     out: string, o: seq<Origin>, p: nat)
    requires Scanned(t, span, hidden, hits, put, out, o) && StarsAfter(span, hidden, lead)
    requires span != [] && MASK_CHAR !in span
    requires CopyAt(span, out, p)
    ensures p < |o| && !o[p].Kept?
  {
    CopyInside(t, span, hidden, hits, put, out, o, p);
    assert |o| == |out|;
    hide Traced, Fits;
    if o[p].Kept? {
      var n := |span|;
      var k := FirstPut(o, p, n);
      KeptPart(t, span, hits, put, out, o, p, k);
      if k < n { IntoHidden(t, span, hidden, lead, hits, put, out, o, p, k); }
      KeptIsNoHit(t, hits, put, out, o, p);
    }
  }

  /** Where the copy runs into a hidden span it can hold that span's leading separators only, and those stood
      in the text before. */
  lemma IntoHidden(t: string, span: string, hidden: string, lead: nat, hits: seq<nat>, put: seq<string>,
                   out: string, o: seq<Origin>, p: nat, k: nat)
    requires Scanned(t, span, hidden, hits, put, out, o) && StarsAfter(span, hidden, lead)
    requires MASK_CHAR !in span
    requires CopyAt(span, out, p) && 0 < k < |span|
    requires (forall j | p <= j < p + k :: o[j].Kept?) && o[p + k].Put?
    ensures o[p].at + |span| <= |t|
    ensures forall j | k <= j < |span| :: t[o[p].at + j] == span[j]
  {
    KeptRun(t, hits, put, out, o, p, k - 1);
    var s := o[p].at + k;
    assert o[p + k] == Put(s, 0) && s < |t| && hits[s] > 0 by {
      assert NextAt(t, hits, put, o, p + k - 1);
    }
    assert CopyAt(span, t, s);
    forall j | k <= j < |span| ensures t[o[p].at + j] == span[j] {
      LeadingOnly(t, span, hidden, lead, hits, put, out, o, p, k, s, j);
    }
  }

  lemma LeadingOnly(t: string, span: string, hidden: string, lead: nat, hits: seq<nat>, put: seq<string>,
                    out: string, o: seq<Origin>, p: nat, k: nat, s: nat, j: nat)
    requires Fits(t, hits, put) && Traced(t, hits, put, out, o) && StarsAfter(span, hidden, lead)
    requires MASK_CHAR !in span
    requires CopyAt(span, out, p) && 0 < k <= j < |span|
    requires o[p + k] == Put(s, 0) && s < |t| && put[s] == hidden && CopyAt(span, t, s)
    ensures t[s + (j - k)] == span[j]
  {
    if k + lead < |span| {
      assert out[p + (k + lead)] == span[k + lead];
      PutRun(t, hits, put, out, o, p + k, lead);
    }
    assert j - k < lead;
    PutRun(t, hits, put, out, o, p + k, j - k);
    assert out[p + j] == span[j];
  }

  lemma CopyFromPut(t: string, span: string, hidden: string, hits: seq<nat>, put: seq<string>,
                    out: string, o: seq<Origin>, p: nat) returns (k: nat)
    requires Scanned(t, span, hidden, hits, put, out, o) && Hides(span, hidden)
    requires span != [] && MASK_CHAR !in span && Lead(span) < |span|
    requires CopyAt(span, out, p) && o[p].Put?
    ensures 1 <= k <= |span| && AllLayout(span[..k]) && hidden[|hidden| - k..] == span[..k]
  {
    var x := o[p].offset;
    assert Tells(t, hits, put, o[p], out[p]);
    k := if |hidden| - x < |span| then |hidden| - x else |span|;
    forall j | 0 <= j < k ensures span[j] == hidden[x + j] && IsLayout(span[j]) {
      PutRun(t, hits, put, out, o, p, j);
      assert span[j] in span;
    }
    assert k < |span|;
    assert hidden[|hidden| - k..] == span[..k];
  }

  /** What the report asks of the span it was given: begin or end with a character that goes. */
  lemma EndsThatGo(span: string)
    requires span != [] && (!IsLayout(span[0]) || !IsLayout(span[|span| - 1]))
    ensures !Survives(span)
  {
    var hidden := Hidden(span);
    forall k: nat | 1 <= k <= |span| <= |hidden| ensures !Overlaps(span, k) {
      assert span[..k][0] == span[0] && span[..k][k - 1] == span[k - 1];
      if !IsLayout(span[|span| - 1]) {
        HiddenEnd(span);
        LayoutFacts(MASK_CHAR);
        assert hidden[|hidden| - k..][k - 1] == MASK_CHAR;
      }
    }
  }

  // ---- The stored utterances ------------------------------------------------------------------------

  datatype Utterance = Utterance(meeting: string, text: string)

  datatype Outcome =
    | Masked(utterances: nat, occurrences: nat, rule: Option<string>)
    | MeetingNotFound
    | NotAMember
    | UtteranceNotFound
    | OutsideTheUtterance
    | NothingToMask

  /** A text without a copy is not changed by `str.replace`, and a copy is counted. */
  lemma CountedExactly(t: string, span: string, hidden: string)
    requires span != [] && hidden != []
    ensures Counted(t, span) == Count(t, Occurrences(t, span), Everywhere(t, hidden), 0)
    ensures Counted(t, span) == 0 <==> !Occurs(span, t)
    ensures Counted(t, span) == 0 ==> Replaced(t, span, hidden) == t
    ensures |Replaced(t, span, hidden)| == |t| + Counted(t, span) * (|hidden| - |span|)
  {
    LengthTells(t, Occurrences(t, span), Everywhere(t, hidden), 0, |span|, |hidden|);
    var hits := Occurrences(t, span);
    CountIgnoresPut(t, hits, Everywhere(t, span), Everywhere(t, hidden), 0);
    if p: nat :| OccursAt(span, t, p) {
      CountsAHit(t, hits, Everywhere(t, span), 0, p);
    } else {
      forall p: nat | p < |t| ensures hits[p] == 0 { assert !OccursAt(span, t, p); }
      NoMatchNoChange(t, hits, Everywhere(t, span), 0);
      NoMatchNoChange(t, hits, Everywhere(t, hidden), 0);
      assert t[0..] == t;
    }
  }

  lemma {:induction false} CountIgnoresPut(t: string, hits: seq<nat>, put: seq<string>, put': seq<string>, i: nat)
    requires i <= |t| && Fits(t, hits, put) && Fits(t, hits, put')
    ensures Count(t, hits, put, i) == Count(t, hits, put', i)
    decreases |t| - i
  {
    if i < |t| { CountIgnoresPut(t, hits, put, put', if hits[i] == 0 then i + 1 else i + hits[i]); }
  }

  /** Every replacement makes the text longer by what it is longer than the match. */
  lemma {:induction false} LengthTells(t: string, hits: seq<nat>, put: seq<string>, i: nat, n: nat, m: nat)
    requires i <= |t| && Fits(t, hits, put) && forall p | 0 <= p < |t| :: hits[p] in {0, n} && |put[p]| == m
    ensures |Sub(t, hits, put, i)| == |t| - i + Count(t, hits, put, i) * (m - n)
    decreases |t| - i
  {
    if i < |t| {
      var next := if hits[i] == 0 then i + 1 else i + hits[i];
      LengthTells(t, hits, put, next, n, m);
      if hits[i] > 0 { Distributes(Count(t, hits, put, next), m - n); }
    }
  }

  lemma Distributes(count: int, longer: int)
    ensures (count + 1) * longer == count * longer + longer
  {
  }

  lemma {:induction false} CountsAHit(t: string, hits: seq<nat>, put: seq<string>, i: nat, p: nat)
    requires i <= p < |t| && Fits(t, hits, put) && hits[p] > 0
    ensures Count(t, hits, put, i) > 0
    decreases |t| - i
  {
    if hits[i] == 0 { CountsAHit(t, hits, put, i + 1, p); }
  }

  /** The other utterances of a meeting. */
  function Others(us: map<string, Utterance>, meeting: string, id: string): set<string> {
    set u | u in us && us[u].meeting == meeting && u != id
  }

  lemma OthersAre(us: map<string, Utterance>, meeting: string, id: string, wanted: bool)
    ensures (if wanted then Others(us, meeting, id) else {}) ==
      set u | u in us && wanted && us[u].meeting == meeting && u != id
  {
  }

  /** Those of `ids` that hold the span. */
  ghost function Holding(us: map<string, Utterance>, ids: set<string>, span: string): set<string>
    requires ids <= us.Keys
  {
    set u | u in ids && Occurs(span, us[u].text)
  }

  ghost function TotalCount(us: map<string, Utterance>, ids: set<string>, span: string): nat
    requires ids <= us.Keys && span != []
  {
    if ids == {} then 0 else var u :| u in ids; Counted(us[u].text, span) + TotalCount(us, ids - {u}, span)
  }

  /** The total does not depend on the order the utterances come in. */
  lemma {:induction false} TotalCountPick(us: map<string, Utterance>, ids: set<string>, span: string, u: string)
    requires ids <= us.Keys && span != [] && u in ids
    ensures TotalCount(us, ids, span) == Counted(us[u].text, span) + TotalCount(us, ids - {u}, span)
    decreases |ids|
  {
    var first :| first in ids &&
      TotalCount(us, ids, span) == Counted(us[first].text, span) + TotalCount(us, ids - {first}, span);
    if first != u {
      TotalCountPick(us, ids - {first}, span, u);
      TotalCountPick(us, ids - {u}, span, first);
      assert ids - {first} - {u} == ids - {u} - {first};
    }
  }

  lemma {:induction false} TotalCountSame(us: map<string, Utterance>, us': map<string, Utterance>, ids: set<string>,
                                          span: string)
    requires ids <= us.Keys && ids <= us'.Keys && span != [] && forall u | u in ids :: us[u] == us'[u]
    ensures TotalCount(us, ids, span) == TotalCount(us', ids, span)
    decreases |ids|
  {
    if u :| u in ids {
      TotalCountPick(us, ids, span, u);
      TotalCountPick(us', ids, span, u);
      TotalCountSame(us, us', ids - {u}, span);
    }
  }

  /** The span replaced in the utterances of `ids`, and nowhere else. */
  ghost function Rewritten(us: map<string, Utterance>, ids: set<string>, span: string, hidden: string)
    : map<string, Utterance>
    requires hidden != []
  {
    map u | u in us :: if u in ids then us[u].(text := Replaced(us[u].text, span, hidden)) else us[u]
  }

  /** No utterance of the meeting holds the span. */
  ghost predicate Gone(us: map<string, Utterance>, meeting: string, span: string) {
    forall u | u in us && us[u].meeting == meeting :: !Occurs(span, us[u].text)
  }

  /** With the repeats included, a span that does not survive itself stands nowhere in the meeting. */
  lemma RewrittenIsGone(us: map<string, Utterance>, meeting: string, id: string, span: string, first: string)
    requires id in us && us[id].meeting == meeting
    requires span != [] && MASK_CHAR !in span && Hidden(span) != [] && !Survives(span)
    ensures Gone(Rewritten(us[id := us[id].(text := first)], Others(us, meeting, id) + {id}, span, Hidden(span)),
                 meeting, span)
  {
    ReplacedIsGoneExactly(span);
  }

  lemma OthersUntouched(us: map<string, Utterance>, us': map<string, Utterance>, meeting: string, id: string,
                        span: string)
    requires us.Keys == us'.Keys && id in us && span != [] && us'[id].meeting == us[id].meeting
    requires forall u | u in us && u != id :: us'[u] == us[u]
    ensures var others := Others(us, meeting, id);
      && Others(us', meeting, id) == others
      && TotalCount(us', others, span) == TotalCount(us, others, span)
      && Holding(us', others, span) == Holding(us, others, span)
  {
    TotalCountSame(us, us', Others(us, meeting, id), span);
  }

  lemma RewrittenTwice(us: map<string, Utterance>, id: string, ids: set<string>, span: string, hidden: string)
    requires id in us && id !in ids && hidden != []
    ensures us[id := us[id].(text := Replaced(us[id].text, span, hidden))] == Rewritten(us, {id}, span, hidden)
    ensures Rewritten(Rewritten(us, {id}, span, hidden), ids, span, hidden) == Rewritten(us, ids + {id}, span, hidden)
  {
  }

  /** The utterances of `others` besides those of `todo` have been seen to, and counted. */
  ghost predicate RepeatsDone(us: map<string, Utterance>, others: set<string>, todo: set<string>, span: string,
                              hidden: string, now: map<string, Utterance>, changed: nat, occurrences: nat)
    requires others <= us.Keys && span != [] && hidden != []
  {
    && todo <= others && now == Rewritten(us, others - todo, span, hidden)
    && changed + |Holding(us, todo, span)| == |Holding(us, others, span)|
    && occurrences + TotalCount(us, todo, span) == TotalCount(us, others, span)
  }

  lemma OneRepeatMore(us: map<string, Utterance>, others: set<string>, todo: set<string>, span: string, hidden: string,
                      now: map<string, Utterance>, changed: nat, occurrences: nat, other: string)
    requires others <= us.Keys && span != [] && hidden != []
    requires RepeatsDone(us, others, todo, span, hidden, now, changed, occurrences) && other in todo
    ensures other in now && var found := Counted(us[other].text, span);
      RepeatsDone(us, others, todo - {other}, span, hidden,
                  now[other := us[other].(text := Replaced(us[other].text, span, hidden))],
                  changed + (if found > 0 then 1 else 0), occurrences + found)
  {
    TotalCountPick(us, todo, span, other);
    CountedExactly(us[other].text, span, hidden);
    HoldingStep(us, todo, span, other);
    RewrittenStep(us, others - todo, span, hidden, other);
    assert others - (todo - {other}) == others - todo + {other};
    hide Replaced, Counted, Occurs, TotalCount, Holding, Rewritten;
  }

  lemma HoldingStep(us: map<string, Utterance>, todo: set<string>, span: string, u: string)
    requires todo <= us.Keys && u in todo
    ensures |Holding(us, todo, span)| == |Holding(us, todo - {u}, span)| + if Occurs(span, us[u].text) then 1 else 0
  {
    hide Occurs;
    var fewer := Holding(us, todo - {u}, span);
    assert Holding(us, todo, span) == if Occurs(span, us[u].text) then fewer + {u} else fewer;
  }

  lemma RewrittenStep(us: map<string, Utterance>, ids: set<string>, span: string, hidden: string, u: string)
    requires u in us && hidden != []
    ensures var now := Rewritten(us, ids, span, hidden);
      u in now && now[u := us[u].(text := Replaced(us[u].text, span, hidden))] == Rewritten(us, ids + {u}, span, hidden)
  {
    hide Replaced;
  }

  class Session {
    var teams: map<string, string>            // meeting -> team
    var members: set<(string, string)>        // (team, user)
    var utterances: map<string, Utterance>
    var rules: map<(string, string), string>  // (team, shape) -> category

    /** `_replace_all`. */
    method ReplaceAll(id: string, span: string, hidden: string) returns (count: nat)
      requires id in utterances && span != [] && hidden != []
      modifies this`utterances
      ensures count == Counted(old(utterances)[id].text, span)
      ensures utterances == old(utterances)[id := old(utterances)[id].(
        text := Replaced(old(utterances)[id].text, span, hidden))]
    {
      var text := utterances[id].text;
      CountedExactly(text, span, hidden);
      count := Counted(text, span);
      if count > 0 {
        utterances := utterances[id := utterances[id].(text := Replaced(text, span, hidden))];
      }
    }

    /** The loop over the other utterances of the meeting. */
    method ReplaceInOthers(others: set<string>, span: string, hidden: string) returns (changed: nat, occurrences: nat)
      requires others <= utterances.Keys && span != [] && hidden != []
      modifies this`utterances
      ensures utterances == Rewritten(old(utterances), others, span, hidden)
      ensures changed == |Holding(old(utterances), others, span)|
      ensures occurrences == TotalCount(old(utterances), others, span)
    {
      hide Replaced, Counted, Occurs;
      ghost var us := utterances;
      var todo := others;
      changed, occurrences := 0, 0;
      while todo != {}
        invariant RepeatsDone(us, others, todo, span, hidden, utterances, changed, occurrences)
      {
        var other :| other in todo;
        ghost var done := utterances;
        assert other in utterances && utterances[other] == us[other];
        var found := ReplaceAll(other, span, hidden);
        OneRepeatMore(us, others, todo, span, hidden, done, changed, occurrences, other);
        if found > 0 {
          occurrences := occurrences + found;
          changed := changed + 1;
        }
        todo := todo - {other};
      }
    }

    /** `_add_rule`: the span's shape for the team, kept as it is when the team has it. */
    method AddRule(team: string, span: string, category: string) returns (rule: Option<string>)
      modifies this`rules
      ensures rule == MaskingRules.Shape(span)
      ensures rules == if rule.Some? && (team, rule.value) !in old(rules)
                       then old(rules)[(team, rule.value) := category] else old(rules)
    {
      rule := MaskingRules.ShapeOf(span);
      if rule.Some? && (team, rule.value) !in rules {
        rules := rules[(team, rule.value) := category];
      }
    }

    /** What `report_miss` checks before it changes anything, in its order. */
    function Refusal(meeting: string, id: string, start: int, end: int, reporter: string): Option<Outcome>
      reads this
    {
      if meeting !in teams then Some(MeetingNotFound)
      else if (teams[meeting], reporter) !in members then Some(NotAMember)
      else if id !in utterances || utterances[id].meeting != meeting then Some(UtteranceNotFound)
      else if !(0 <= start < end <= |utterances[id].text|) then Some(OutsideTheUtterance)
      else if Strip(utterances[id].text[start..end]) == [] || MASK_CHAR in utterances[id].text[start..end] then
        Some(NothingToMask)
      else None
    }

    /** The span starred out where it stands, then its repeats. */
    method MaskSpan(meeting: string, id: string, before: string, span: string, after: string, hidden: string,
                    includeSimilar: bool) returns (changed: nat, occurrences: nat)
      requires id in utterances && utterances[id].meeting == meeting && span != [] && hidden != []
      modifies this`utterances
      ensures var us := old(utterances);
        var others := if includeSimilar then Others(us, meeting, id) else {};
        var first := before + hidden + after;
        && utterances == Rewritten(us[id := us[id].(text := first)], others + {id}, span, hidden)
        && changed == 1 + |Holding(us, others, span)|
        && occurrences == 1 + Counted(first, span) + TotalCount(us, others, span)
    {
      ghost var us := utterances;
      var first := before + hidden + after;
      utterances := utterances[id := utterances[id].(text := first)];
      ghost var marked := utterances;
      changed := 1;
      var found := ReplaceAll(id, span, hidden);
      occurrences := 1 + found;
      if includeSimilar {
        var others := Others(utterances, meeting, id);
        OthersUntouched(us, utterances, meeting, id, span);
        RewrittenTwice(marked, id, others, span, hidden);
        var more, repeats := ReplaceInOthers(others, span, hidden);
        changed, occurrences := changed + more, occurrences + repeats;
      }
    }

    /** Mask `text[start:end]` of one utterance, and its exact repeats in the meeting when asked. */
    method ReportMiss(meeting: string, id: string, start: int, end: int, category: string, includeSimilar: bool,
                      reporter: string, addRule: bool) returns (outcome: Outcome)
      modifies this`utterances, this`rules
      ensures !outcome.Masked? ==> utterances == old(utterances) && rules == old(rules)
      ensures
        if meeting !in teams then outcome == MeetingNotFound
        else if (teams[meeting], reporter) !in members then outcome == NotAMember
        else if !(id in old(utterances) && old(utterances)[id].meeting == meeting) then outcome == UtteranceNotFound
        else
          var text := old(utterances)[id].text;
          if start < 0 || end <= start || |text| < end then outcome == OutsideTheUtterance
          else if Blank(text[start..end]) || '*' in text[start..end] then outcome == NothingToMask
          else outcome.Masked?
      ensures outcome.Masked? ==>
        var us := old(utterances);
        var text, others := us[id].text, set u | u in us && includeSimilar && us[u].meeting == meeting && u != id;
        var span := text[start..end];
        var first := text[..start] + Hidden(span) + text[end..];
        && span != [] && Hidden(span) != []
        && utterances == Rewritten(us[id := us[id].(text := first)], others + {id}, span, Hidden(span))
        && outcome.utterances == 1 + |Holding(us, others, span)|
        && outcome.occurrences == 1 + Counted(first, span) + TotalCount(us, others, span)
        && (includeSimilar && !Survives(span) ==> Gone(utterances, meeting, span))
        && outcome.rule == (if addRule then MaskingRules.Shape(span) else None)
      ensures outcome.Masked? ==>
        rules == if outcome.rule.Some? && (teams[meeting], outcome.rule.value) !in old(rules)
                 then old(rules)[(teams[meeting], outcome.rule.value) := category] else old(rules)
    {
      hide Hidden, Rewritten, Holding, TotalCount, Counted, Survives, Others, Gone, MaskingRules.Shape;
      var refusal := Refusal(meeting, id, start, end, reporter);
      if id in utterances && 0 <= start < end <= |utterances[id].text| { StripsBlank(utterances[id].text[start..end]); }
      if refusal.Some? { return refusal.value; }
      var text := utterances[id].text;
      var span := text[start..end];
      OthersAre(utterances, meeting, id, includeSimilar);
      var hidden := HideReported(span);
      SpanHides(span);
      if includeSimilar && !Survives(span) {
        RewrittenIsGone(utterances, meeting, id, span, text[..start] + hidden + text[end..]);
      }
      var changed, occurrences := MaskSpan(meeting, id, text[..start], span, text[end..], hidden, includeSimilar);
      var rule := None;
      if addRule { rule := AddRule(teams[meeting], span, category); }
      return Masked(changed, occurrences, rule);
    }
  }
}
