/** The ask loop (`main/ask.py`): a question answered from a bounded number of tool calls, within the run's budget. */
module Ask {
  import opened Options
  import Names

  const MAX_QUOTED := 10
  const MAX_ROUNDS := 3
  const MAX_CALLS_PER_ROUND := 3
  const MAX_ITEMS := 5

  datatype Item = Item(id: Option<string>, title: string)

  datatype ToolResult = ToolResult(ok: bool, items: seq<Item>, summary: string, evidence: seq<string>, confidence: real)

  /** The failure of a tool that raised, whose wording is left out. */
  const FAILED := ToolResult(false, [], "", [], 0.0)

  datatype Call = Call(name: string, args: map<string, string>)

  /** A part of the model's own turn. */
  datatype Part = FunctionCall(call: Call) | Other(text: string)

  datatype Response = Response(name: string, result: ToolResult)

  datatype Turn = Model(parts: seq<Part>) | User(responses: seq<Response>)

  /** What a call comes to: a result, a tool that raises and so fails, or an error that fails the turn. */
  datatype Reply = Gives(result: ToolResult) | ToolRaises | FailsTheTurn

  /** What the model does in a round: it breaks, it stops calling, or it calls; `parts` are its own, when it kept
      them. */
  datatype Move = Breaks | Leaks | Stops | Calls(calls: seq<Call>, parts: seq<Part>)

  /** A round as it would go: whether the request is too big to send, the model's move, and what each call would come
      to. */
  datatype Round = Round(tooBig: bool, move: Move, replies: seq<Reply>)

  // ---- What is kept of a result -------------------------------------------------------------------------

  predicate IsUtterance(item: Item) { item.id.Some? && |item.id.value| >= 4 && item.id.value[..4] == "utt_" }

  /** `title.split(" ", 1)[0]`. */
  function UpToSpace(t: string): (r: string)
    ensures ' ' !in r && |r| <= |t| && r == t[..|r|]
  {
    if t == [] || t[0] == ' ' then [] else [t[0]] + UpToSpace(t[1..])
  }

  function CutTitle(item: Item): Item { item.(title := UpToSpace(item.title)) }

  /** How many of the first `n` items are utterances. */
  function Utterances(items: seq<Item>, n: nat): nat
    requires n <= |items|
  {
    if n == 0 then 0 else Utterances(items, n - 1) + if IsUtterance(items[n - 1]) then 1 else 0
  }

  /** What is kept of the first `n` items when there is room for `room` utterances. */
  function Kept(items: seq<Item>, n: nat, room: nat): seq<Item>
    requires n <= |items|
  {
    if n == 0 then []
    else if !IsUtterance(items[n - 1]) then Kept(items, n - 1, room) + [items[n - 1]]
    else if Utterances(items, n - 1) >= room then Kept(items, n - 1, room)
    else Kept(items, n - 1, room) + [CutTitle(items[n - 1])]
  }

  function Min(a: nat, b: nat): nat { if a <= b then a else b }

  lemma {:induction false} UtterancesSnoc(items: seq<Item>, item: Item)
    ensures Utterances(items + [item], |items| + 1) == Utterances(items, |items|) + if IsUtterance(item) then 1 else 0
  {
    UtterancesOfPrefix(items, [item], |items|);
  }

  lemma {:induction false} UtterancesOfPrefix(items: seq<Item>, more: seq<Item>, n: nat)
    requires n <= |items|
    ensures Utterances(items + more, n) == Utterances(items, n)
  {
    if n > 0 { UtterancesOfPrefix(items, more, n - 1); }
  }

  /** No more utterances are kept than there is room for, and none of their titles has a word after the first: the
      speaker's name is cut off. Everything else stays. */
  lemma {:induction false} KeptWithinRoom(items: seq<Item>, n: nat, room: nat)
    requires n <= |items|
    ensures var kept := Kept(items, n, room);
      && Utterances(kept, |kept|) == Min(Utterances(items, n), room)
      && (forall i | 0 <= i < |kept| && IsUtterance(kept[i]) :: ' ' !in kept[i].title)
      && |kept| + Utterances(items, n) == n + Utterances(kept, |kept|)
  {
    if n > 0 {
      KeptWithinRoom(items, n - 1, room);
      var front := Kept(items, n - 1, room);
      UtterancesSnoc(front, items[n - 1]);
      UtterancesSnoc(front, CutTitle(items[n - 1]));
    }
  }

  /** The item's id is a text that begins with "utt_". */
  ghost predicate Quotes(item: Item) { exists rest :: item.id == Some("utt_" + rest) }

  /** How many of the first `n` items are so named. */
  ghost function QuotesBefore(items: seq<Item>, n: nat): nat { |set i: nat | i < n && i < |items| && Quotes(items[i])| }

  lemma QuotesIs(item: Item)
    ensures IsUtterance(item) <==> Quotes(item)
  {
    if item.id.Some? && |item.id.value| >= 4 { assert item.id.value == item.id.value[..4] + item.id.value[4..]; }
    if rest :| item.id == Some("utt_" + rest) { assert item.id.value[..4] == "utt_"; }
  }

  lemma QuotesOneMore(items: seq<Item>, n: nat)
    requires n < |items|
    ensures QuotesBefore(items, n + 1) == QuotesBefore(items, n) + if Quotes(items[n]) then 1 else 0
  {
    hide Quotes;
    var before := set i: nat | i < n && i < |items| && Quotes(items[i]);
    var places := set i: nat | i < n + 1 && i < |items| && Quotes(items[i]);
    assert places == before + if Quotes(items[n]) then {n} else {};
  }

  lemma NoneQuoted(items: seq<Item>, n: nat)
    ensures n == 0 ==> QuotesBefore(items, n) == 0
  {
    var places := set i: nat | i < n && i < |items| && Quotes(items[i]);
    if n == 0 { assert places == {}; }
  }

  lemma {:induction false} QuotesAreUtterances(items: seq<Item>, n: nat)
    requires n <= |items|
    ensures QuotesBefore(items, n) == Utterances(items, n)
  {
    hide IsUtterance, Quotes, QuotesBefore;
    if n == 0 {
      NoneQuoted(items, n);
    } else {
      QuotesAreUtterances(items, n - 1);
      QuotesIs(items[n - 1]);
      QuotesOneMore(items, n - 1);
    }
  }

  /** An item is left out when it is an utterance and as many as there is room for stand before it. */
  ghost predicate Stays(items: seq<Item>, room: nat, i: nat)
    requires i < |items|
  {
    Quotes(items[i]) ==> QuotesBefore(items, i) < room
  }

  /** The item as it is kept: an utterance with its title up to the first space, and any other as it is. */
  ghost predicate KeptAs(item: Item, kept: Item) {
    if Quotes(item) then
      && kept.id == item.id && ' ' !in kept.title
      && (item.title == kept.title || exists rest :: item.title == kept.title + " " + rest)
    else kept == item
  }

  lemma {:induction false} UpToSpaceIs(t: string)
    ensures t == UpToSpace(t) || exists rest :: t == UpToSpace(t) + " " + rest
  {
    if t != [] && t[0] != ' ' {
      UpToSpaceIs(t[1..]);
      var head := UpToSpace(t[1..]);
      if rest :| t[1..] == head + " " + rest { assert t == ([t[0]] + head) + " " + rest; }
      assert t == [t[0]] + t[1..];
    } else if t != [] {
      assert t == UpToSpace(t) + " " + t[1..];
    }
  }

  /** `kept` is what stays of the first `n` items, `places` saying where each was. */
  ghost predicate KeptFrom(items: seq<Item>, n: nat, room: nat, kept: seq<Item>, places: seq<nat>) {
    && n <= |items| && |places| == |kept|
    && (forall k, l | 0 <= k < l < |places| :: places[k] < places[l])
    && (forall i: nat :: i in places <==> i < n && Stays(items, room, i))
    && (forall k | 0 <= k < |kept| :: places[k] < n && KeptAs(items[places[k]], kept[k]))
  }

  lemma StaysOut(items: seq<Item>, n: nat, room: nat, kept: seq<Item>, places: seq<nat>)
    requires KeptFrom(items, n, room, kept, places) && n < |items| && !Stays(items, room, n)
    ensures KeptFrom(items, n + 1, room, kept, places)
  {
    hide Stays, KeptAs;
  }

  lemma StaysIn(items: seq<Item>, n: nat, room: nat, kept: seq<Item>, places: seq<nat>, last: Item)
    requires KeptFrom(items, n, room, kept, places) && n < |items| && Stays(items, room, n) && KeptAs(items[n], last)
    ensures KeptFrom(items, n + 1, room, kept + [last], places + [n])
  {
    hide Stays, KeptAs;
    assert forall k | 0 <= k < |places| :: places[k] in places;
  }

  /** Just the items that stay are kept, in order, each as it should be. */
  lemma {:induction false} KeptExactly(items: seq<Item>, n: nat, room: nat) returns (places: seq<nat>)
    requires n <= |items|
    ensures KeptFrom(items, n, room, Kept(items, n, room), places)
  {
    hide IsUtterance, Quotes, QuotesBefore, UpToSpace, KeptFrom;
    if n == 0 {
      places := [];
      NoneKept(items, room);
    } else {
      places := KeptExactly(items, n - 1, room);
      var item, front := items[n - 1], Kept(items, n - 1, room);
      QuotesIs(item);
      QuotesAreUtterances(items, n - 1);
      UpToSpaceIs(item.title);
      if Stays(items, room, n - 1) {
        StaysIn(items, n - 1, room, front, places, if IsUtterance(item) then CutTitle(item) else item);
        places := places + [n - 1];
      } else {
        StaysOut(items, n - 1, room, front, places);
      }
    }
  }

  lemma NoneKept(items: seq<Item>, room: nat)
    ensures KeptFrom(items, 0, room, [], [])
  {
  }

  /** `_quotable`. */
  method Quotable(result: ToolResult, room: nat) returns (kept: ToolResult, quoted: nat)
    ensures kept == result.(items := Kept(result.items, |result.items|, room))
    ensures quoted == Utterances(kept.items, |kept.items|) <= room
  {
    var items: seq<Item> := [];
    quoted := 0;
    for n := 0 to |result.items|
      invariant items == Kept(result.items, n, room) && quoted == Min(Utterances(result.items, n), room)
    {
      var item := result.items[n];
      if IsUtterance(item) {
        if quoted >= room { continue; }
        quoted := quoted + 1;
        item := CutTitle(item);
      }
      items := items + [item];
    }
    kept := result.(items := items);
    KeptWithinRoom(result.items, |result.items|, room);
  }

  // ---- What is sent back --------------------------------------------------------------------------------

  function CallsIn(parts: seq<Part>): seq<Call> {
    if parts == [] then []
    else CallsIn(parts[..|parts| - 1]) + match parts[|parts| - 1] case FunctionCall(c) => [c] case Other(_) => []
  }

  function PartsOf(calls: seq<Call>): (parts: seq<Part>)
    ensures |parts| == |calls| && forall i | 0 <= i < |calls| :: parts[i] == FunctionCall(calls[i])
  {
    seq(|calls|, i requires 0 <= i < |calls| => FunctionCall(calls[i]))
  }

  lemma {:induction false} CallsInPartsOf(calls: seq<Call>)
    ensures CallsIn(PartsOf(calls)) == calls
  {
    if calls != [] {
      var front := calls[..|calls| - 1];
      CallsInPartsOf(front);
      assert PartsOf(calls)[..|calls| - 1] == PartsOf(front);
      assert calls == front + [calls[|calls| - 1]];
    }
  }

  lemma CallsSnoc(parts: seq<Part>, part: Part)
    ensures CallsIn(parts + [part]) == CallsIn(parts) + match part case FunctionCall(c) => [c] case Other(_) => []
  {
    assert (parts + [part])[..|parts|] == parts;
  }

  /** `calls[:MAX_CALLS_PER_ROUND]`. */
  function FirstCalls(calls: seq<Call>): (r: seq<Call>)
    ensures r <= calls && |r| == (if |calls| < 3 then |calls| else 3)
  {
    if |calls| <= MAX_CALLS_PER_ROUND then calls else calls[..MAX_CALLS_PER_ROUND]
  }

  /** The first `n` parts, without the calls past the third. */
  function Cut(parts: seq<Part>, n: nat): seq<Part>
    requires n <= |parts|
  {
    if n == 0 then []
    else
      var front := Cut(parts, n - 1);
      if parts[n - 1].FunctionCall? && |CallsIn(front)| >= MAX_CALLS_PER_ROUND then front else front + [parts[n - 1]]
  }

  function Echoed(parts: seq<Part>, calls: seq<Call>): seq<Part> {
    if parts == [] then PartsOf(calls) else Cut(parts, |parts|)
  }

  /** `_echo`: the model's own parts, cut to the calls that ran. */
  method Echo(parts: seq<Part>, calls: seq<Call>) returns (echoed: seq<Part>)
    ensures echoed == Echoed(parts, calls)
  {
    if parts == [] { return PartsOf(calls); }
    echoed := [];
    var seen := 0;
    for n := 0 to |parts|
      invariant echoed == Cut(parts, n) && seen == |CallsIn(echoed)|
    {
      CallsSnoc(echoed, parts[n]);
      if parts[n].FunctionCall? {
        if seen >= MAX_CALLS_PER_ROUND { continue; }
        seen := seen + 1;
      }
      echoed := echoed + [parts[n]];
    }
  }

  lemma {:induction false} CutKeepsFirstCalls(parts: seq<Part>, n: nat)
    requires n <= |parts|
    ensures CallsIn(Cut(parts, n)) == FirstCalls(CallsIn(parts[..n]))
  {
    if n > 0 {
      hide CallsIn, Cut, FirstCalls;
      CutKeepsFirstCalls(parts, n - 1);
      CutOneMore(parts, n - 1);
      assert parts[..n] == parts[..n - 1] + [parts[n - 1]];
    } else {
      assert parts[..n] == [] && CallsIn([]) == [];
    }
  }

  lemma CutOneMore(parts: seq<Part>, n: nat)
    requires n < |parts| && CallsIn(Cut(parts, n)) == FirstCalls(CallsIn(parts[..n]))
    ensures CallsIn(Cut(parts, n + 1)) == FirstCalls(CallsIn(parts[..n] + [parts[n]]))
  {
    hide CallsIn, FirstCalls;
    CallsSnoc(parts[..n], parts[n]);
    CallsSnoc(Cut(parts, n), parts[n]);
    match parts[n]
    case FunctionCall(c) => FirstCallsSnoc(CallsIn(parts[..n]), c);
    case Other(_) => assert CallsIn(parts[..n]) + [] == CallsIn(parts[..n]) &&
      CallsIn(Cut(parts, n)) + [] == CallsIn(Cut(parts, n));
  }

  lemma FirstCallsSnoc(calls: seq<Call>, call: Call)
    ensures FirstCalls(calls + [call]) ==
      if |FirstCalls(calls)| >= MAX_CALLS_PER_ROUND then FirstCalls(calls) else FirstCalls(calls) + [call]
  {
  }

  /** What is echoed holds just the calls that ran, when the model's parts held the calls it returned. */
  lemma EchoHoldsTheCalls(parts: seq<Part>, returned: seq<Call>)
    requires parts == [] || CallsIn(parts) == returned
    ensures CallsIn(Echoed(parts, FirstCalls(returned))) == FirstCalls(returned)
  {
    CallsInPartsOf(FirstCalls(returned));
    CutKeepsFirstCalls(parts, |parts|);
    assert parts[..|parts|] == parts;
  }

  function ResponsesTo(calls: seq<Call>, results: seq<ToolResult>): (r: seq<Response>)
    requires |calls| == |results|
    ensures |r| == |calls| && forall i | 0 <= i < |r| :: r[i] == Response(calls[i].name, results[i])
  {
    seq(|calls|, i requires 0 <= i < |calls| => Response(calls[i].name, results[i]))
  }

  /** Every call in the model's turn has exactly one response in the turn after it, in the same order. */
  ghost predicate Paired(parts: seq<Part>, responses: seq<Response>) {
    |CallsIn(parts)| == |responses| && forall i | 0 <= i < |responses| :: responses[i].name == CallsIn(parts)[i].name
  }

  ghost predicate PairAt(turns: seq<Turn>, k: int) {
    0 <= 2 * k && 2 * k + 1 < |turns| && turns[2 * k].Model? && turns[2 * k + 1].User?
    && Paired(turns[2 * k].parts, turns[2 * k + 1].responses)
  }

  /** The model's parts, when it kept them, hold the calls it returned. */
  predicate Honest(round: Round) {
    round.move.Calls? ==> round.move.parts == [] || CallsIn(round.move.parts) == round.move.calls
  }

  // ---- The result, interleaved --------------------------------------------------------------------------

  /** The results that have a `row`-th item, from result `j` on: (result, row) for each. */
  function Row(sizes: seq<nat>, row: nat, j: nat): seq<(nat, nat)>
    requires j <= |sizes|
    decreases |sizes| - j
  {
    if j == |sizes| then [] else (if row < sizes[j] then [(j, row)] else []) + Row(sizes, row, j + 1)
  }

  function Largest(sizes: seq<nat>, n: nat): (m: nat)
    requires n <= |sizes|
    ensures forall j | 0 <= j < n :: sizes[j] <= m
  {
    if n == 0 then 0 else if sizes[n - 1] > Largest(sizes, n - 1) then sizes[n - 1] else Largest(sizes, n - 1)
  }

  /** `zip_longest`, row after row, the gaps left out: the first `rows` rows. */
  function Interleaved(sizes: seq<nat>, rows: nat): seq<(nat, nat)> {
    if rows == 0 then [] else Interleaved(sizes, rows - 1) + Row(sizes, rows - 1, 0)
  }

  function Order(sizes: seq<nat>): seq<(nat, nat)> { Interleaved(sizes, Largest(sizes, |sizes|)) }

  ghost predicate Sooner(a: (nat, nat), b: (nat, nat)) { a.1 < b.1 || (a.1 == b.1 && a.0 < b.0) }

  lemma {:induction false} RowHolds(sizes: seq<nat>, row: nat, j: nat)
    requires j <= |sizes|
    ensures forall x :: x in Row(sizes, row, j) <==> j <= x.0 < |sizes| && x.1 == row && row < sizes[x.0]
    ensures forall k, l | 0 <= k < l < |Row(sizes, row, j)| :: Sooner(Row(sizes, row, j)[k], Row(sizes, row, j)[l])
    ensures |Row(sizes, row, j)| <= |sizes| - j
    decreases |sizes| - j
  {
    if j < |sizes| {
      RowHolds(sizes, row, j + 1);
      var rest := Row(sizes, row, j + 1);
      forall k | 0 <= k < |rest| ensures rest[k].0 >= j + 1 && rest[k].1 == row { assert rest[k] in rest; }
    }
  }

  /** Row by row: each item of each result once, in the order of rows and, within a row, of results. */
  lemma {:induction false} InterleavedHolds(sizes: seq<nat>, rows: nat)
    ensures forall x :: x in Interleaved(sizes, rows) <==> x.0 < |sizes| && x.1 < rows && x.1 < sizes[x.0]
    ensures forall k, l | 0 <= k < l < |Interleaved(sizes, rows)| ::
      Sooner(Interleaved(sizes, rows)[k], Interleaved(sizes, rows)[l])
  {
    if rows > 0 {
      InterleavedHolds(sizes, rows - 1);
      RowHolds(sizes, rows - 1, 0);
      var front, row := Interleaved(sizes, rows - 1), Row(sizes, rows - 1, 0);
      forall k, l | 0 <= k < |front| && 0 <= l < |row| ensures Sooner(front[k], row[l]) {
        assert front[k] in front && row[l] in row;
      }
    }
  }

  /** The order holds every item of every result once: the first of each, then the second of each, and so on. */
  lemma OrderKeepsEachResult(sizes: seq<nat>)
    ensures forall x :: x in Order(sizes) <==> x.0 < |sizes| && x.1 < sizes[x.0]
    ensures forall k, l | 0 <= k < l < |Order(sizes)| :: Sooner(Order(sizes)[k], Order(sizes)[l])
  {
    InterleavedHolds(sizes, Largest(sizes, |sizes|));
  }

  lemma {:induction false} FirstRowLeads(sizes: seq<nat>, rows: nat)
    requires rows > 0
    ensures |Row(sizes, 0, 0)| <= |Interleaved(sizes, rows)|
    ensures Interleaved(sizes, rows)[..|Row(sizes, 0, 0)|] == Row(sizes, 0, 0)
  {
    if rows == 1 {
      assert Interleaved(sizes, 1) == [] + Row(sizes, 0, 0);
    } else {
      FirstRowLeads(sizes, rows - 1);
    }
  }

  /** Cut to five, the order still holds the first item of each of up to five results that are not empty. */
  lemma CutGivesEachOne(sizes: seq<nat>, j: nat)
    requires |Row(sizes, 0, 0)| <= MAX_ITEMS && j < |sizes| && sizes[j] > 0
    ensures var order := Order(sizes); (j, 0) in order[..if |order| > MAX_ITEMS then MAX_ITEMS else |order|]
  {
    var order, row := Order(sizes), Row(sizes, 0, 0);
    RowHolds(sizes, 0, 0);
    assert (j, 0) in row;
    FirstRowLeads(sizes, Largest(sizes, |sizes|));
    var k :| 0 <= k < |row| && row[k] == (j, 0);
    assert order[k] == order[..|row|][k];
  }

  // ---- The loop -----------------------------------------------------------------------------------------

  class CallBudget {
    const limit: nat
    var used: nat
    /** The names of the tools that answered. */
    var steps: seq<string>

    constructor (limit: nat)
      ensures this.limit == limit && used == 0 && steps == []
    {
      this.limit, used, steps := limit, 0, [];
    }

    method Spend() returns (spent: bool)
      modifies `used
      ensures spent == (old(used) < limit) && used == old(used) + if spent then 1 else 0
    {
      spent := used < limit;
      if spent { used := used + 1; }
    }
  }

  /** A speaker list, each name replaced by its position. */
  function Numbered(result: ToolResult): (r: ToolResult)
    ensures r.ok == result.ok && |r.items| == |result.items|
    ensures forall i | 0 <= i < |r.items| :: r.items[i].id == result.items[i].id
  {
    result.(items := seq(|result.items|, i requires 0 <= i < |result.items| =>
      result.items[i].(title := "\U{D654}\U{C790} " + Names.Decimal(i + 1))))
  }

  /** A numbered speaker list says nothing of the names it was given: two lists of the same ids come out alike, the
      `i`-th item called after its place, and no two alike. */
  lemma NumberedExactly(a: ToolResult, b: ToolResult)
    requires |a.items| == |b.items| && forall i | 0 <= i < |a.items| :: a.items[i].id == b.items[i].id
    ensures Numbered(a).items == Numbered(b).items
    ensures forall i | 0 <= i < |a.items| :: Numbered(a).items[i].title == "\U{D654}\U{C790} " + Names.Decimal(i + 1)
    ensures forall i, j | 0 <= i < j < |a.items| :: Numbered(a).items[i].title != Numbered(a).items[j].title
    ensures Numbered(a).(items := a.items) == a
  {
    forall i, j | 0 <= i < j < |a.items| ensures Numbered(a).items[i].title != Numbered(a).items[j].title {
      var word, x, y := "\U{D654}\U{C790} ", Names.Decimal(i + 1), Names.Decimal(j + 1);
      if word + x == word + y {
        assert (word + x)[3..] == x && (word + y)[3..] == y;
        Names.DecimalInjective(i + 1, j + 1);
      }
    }
  }

  /** How many utterances the results hold in all. */
  function Quoted(results: seq<ToolResult>): nat {
    if results == [] then 0
    else var last := results[|results| - 1].items; Quoted(results[..|results| - 1]) + Utterances(last, |last|)
  }

  lemma QuotedSnoc(results: seq<ToolResult>, result: ToolResult)
    ensures Quoted(results + [result]) == Quoted(results) + Utterances(result.items, |result.items|)
  {
    assert (results + [result])[..|results|] == results;
  }

  lemma {:induction false} QuotedConcat(a: seq<ToolResult>, b: seq<ToolResult>)
    ensures Quoted(a + b) == Quoted(a) + Quoted(b)
  {
    hide Utterances;
    if b == [] {
      assert a + b == a && Quoted([]) == 0;
    } else {
      hide Quoted;
      var front, last := b[..|b| - 1], b[|b| - 1];
      QuotedConcat(a, front);
      QuotedSnoc(a + front, last);
      QuotedSnoc(front, last);
      assert a + b == a + front + [last] && b == front + [last];
    }
  }

  /** What is kept of a call's result before it is cut to the room left. */
  function RawResult(call: Call, reply: Reply, speakerLists: set<string>): ToolResult {
    var raw := if reply.Gives? then reply.result else FAILED;
    if call.name in speakerLists then Numbered(raw) else raw
  }

  datatype Gathering = Gathering(results: seq<ToolResult>, left: nat)

  /** The results of the first `n` calls, with room for `room` utterances in all. */
  function Given(calls: seq<Call>, replies: seq<Reply>, speakerLists: set<string>, room: nat, n: nat): (g: Gathering)
    requires n <= |calls| <= |replies|
    ensures |g.results| == n && g.left <= room
  {
    if n == 0 then Gathering([], room)
    else
      var before := Given(calls, replies, speakerLists, room, n - 1);
      var raw := RawResult(calls[n - 1], replies[n - 1], speakerLists);
      var kept := Kept(raw.items, |raw.items|, before.left);
      KeptWithinRoom(raw.items, |raw.items|, before.left);
      Gathering(before.results + [raw.(items := kept)], before.left - Utterances(kept, |kept|))
  }

  lemma {:induction false} GivenWithinRoom(calls: seq<Call>, replies: seq<Reply>, speakerLists: set<string>, room: nat,
                                           n: nat)
    requires n <= |calls| <= |replies|
    ensures var g := Given(calls, replies, speakerLists, room, n); Quoted(g.results) == room - g.left
  {
    if n > 0 {
      GivenWithinRoom(calls, replies, speakerLists, room, n - 1);
      var g := Given(calls, replies, speakerLists, room, n);
      QuotedSnoc(Given(calls, replies, speakerLists, room, n - 1).results, g.results[n - 1]);
    }
  }

  /** The `i`-th call of a round fails the turn: the budget is spent, or the error is not one to go on after. */
  predicate FailsAt(replies: seq<Reply>, used: nat, limit: nat, i: nat)
    requires i < |replies|
  {
    used + i >= limit || replies[i].FailsTheTurn?
  }

  predicate RoundFails(calls: seq<Call>, replies: seq<Reply>, used: nat, limit: nat)
    requires |calls| <= |replies|
  {
    exists i: nat :: i < |calls| && FailsAt(replies, used, limit, i)
  }

  /** One round's calls, in order, as long as none fails the turn. */
  method RunCalls(calls: seq<Call>, replies: seq<Reply>, speakerLists: set<string>, budget: CallBudget, room: nat)
    returns (failed: bool, results: seq<ToolResult>, left: nat)
    requires |calls| <= |replies|
    modifies budget
    ensures failed <==> RoundFails(calls, replies, old(budget.used), budget.limit)
    ensures budget.used <= old(budget.used) + |calls|
    ensures budget.used <= budget.limit || budget.used == old(budget.used)
    ensures !failed ==> budget.used == old(budget.used) + |calls|
    ensures !failed ==> Gathering(results, left) == Given(calls, replies, speakerLists, room, |calls|)
  {
    hide Kept, Utterances, Numbered;
    results, left := [], room;
    for i := 0 to |calls|
      invariant budget.used == old(budget.used) + i && (budget.used <= budget.limit || i == 0)
      invariant Gathering(results, left) == Given(calls, replies, speakerLists, room, i)
      invariant forall k: nat | k < i :: !FailsAt(replies, old(budget.used), budget.limit, k)
    {
      var spent := budget.Spend();
      if !spent || replies[i].FailsTheTurn? {
        assert FailsAt(replies, old(budget.used), budget.limit, i);
        return true, results, left;
      }
      var raw := if replies[i].Gives? then replies[i].result else FAILED;
      if replies[i].Gives? { budget.steps := budget.steps + [calls[i].name]; }
      if calls[i].name in speakerLists { raw := Numbered(raw); }
      var result, used := Quotable(raw, left);
      left := left - used;
      results := results + [result];
    }
    failed := false;
  }

  /** How far the loop has come: what it gathered and sent, the room and budget used, and whether it is over or
      raised. */
  datatype Talk = Talk(gathered: seq<ToolResult>, turns: seq<Turn>, room: nat, used: nat, over: bool, raised: bool)

  predicate Playable(round: Round) { round.move.Calls? ==> |round.move.calls| <= |round.replies| }

  /** One round of the loop. */
  function AfterRound(t: Talk, round: Round, speakerLists: set<string>, limit: nat): Talk
    requires Playable(round)
  {
    if t.over then t
    else if round.tooBig || round.move.Breaks? || round.move.Stops? then t.(over := true)
    else if round.move.Leaks? then t.(over := true, raised := true)
    else if round.move.calls == [] then t.(over := true)
    else
      var calls := FirstCalls(round.move.calls);
      if RoundFails(calls, round.replies, t.used, limit) then t.(over := true, raised := true)
      else
        var g := Given(calls, round.replies, speakerLists, t.room, |calls|);
        Talk(t.gathered + g.results,
             t.turns + [Model(Echoed(round.move.parts, calls)), User(ResponsesTo(calls, g.results))],
             g.left, t.used + |calls|, false, false)
  }

  function AfterRounds(rounds: seq<Round>, n: nat, speakerLists: set<string>, limit: nat, used: nat): Talk
    requires n <= |rounds| && forall r | r in rounds :: Playable(r)
  {
    if n == 0 then Talk([], [], MAX_QUOTED, used, false, false)
    else AfterRound(AfterRounds(rounds, n - 1, speakerLists, limit, used), rounds[n - 1], speakerLists, limit)
  }

  function Usable(gathered: seq<ToolResult>): (usable: seq<ToolResult>)
    ensures forall r :: r in usable <==> r in gathered && r.ok
  {
    if gathered == [] then []
    else
      assert gathered == gathered[..|gathered| - 1] + [gathered[|gathered| - 1]];
      Usable(gathered[..|gathered| - 1]) + if gathered[|gathered| - 1].ok then [gathered[|gathered| - 1]] else []
  }

  function Sizes(results: seq<ToolResult>): (sizes: seq<nat>)
    ensures |sizes| == |results| && forall j | 0 <= j < |sizes| :: sizes[j] == |results[j].items|
  {
    seq(|results|, j requires 0 <= j < |results| => |results[j].items|)
  }

  /** The items in interleaved order, cut as every result is. */
  function Answered(usable: seq<ToolResult>): (items: seq<Item>)
    ensures |items| <= MAX_ITEMS
  {
    var order := Order(Sizes(usable));
    OrderKeepsEachResult(Sizes(usable));
    assert forall k | 0 <= k < |order| :: order[k] in order;
    seq(if |order| > MAX_ITEMS then MAX_ITEMS else |order|,
        k requires 0 <= k < |order| => usable[order[k].0].items[order[k].1])
  }

  /** How many items the first `rows` rows hold, from result `j` on. */
  function Held(sizes: seq<nat>, rows: nat, j: nat): nat
    requires j <= |sizes|
    decreases |sizes| - j
  {
    if j == |sizes| then 0 else Min(sizes[j], rows) + Held(sizes, rows, j + 1)
  }

  lemma {:induction false} RowCounts(sizes: seq<nat>, row: nat, j: nat)
    requires j <= |sizes|
    ensures Held(sizes, row, j) + |Row(sizes, row, j)| == Held(sizes, row + 1, j)
    decreases |sizes| - j
  {
    if j < |sizes| { RowCounts(sizes, row, j + 1); }
  }

  lemma {:induction false} NoRowsHoldNothing(sizes: seq<nat>, j: nat)
    requires j <= |sizes|
    ensures Held(sizes, 0, j) == 0
    decreases |sizes| - j
  {
    if j < |sizes| { NoRowsHoldNothing(sizes, j + 1); }
  }

  lemma {:induction false} InterleavedCounts(sizes: seq<nat>, rows: nat)
    ensures |Interleaved(sizes, rows)| == Held(sizes, rows, 0)
  {
    if rows > 0 {
      InterleavedCounts(sizes, rows - 1);
      RowCounts(sizes, rows - 1, 0);
    } else {
      NoRowsHoldNothing(sizes, 0);
    }
  }

  /** How many items the results from `j` on hold. */
  function ItemsFrom(results: seq<ToolResult>, j: nat): nat
    requires j <= |results|
    decreases |results| - j
  {
    if j == |results| then 0 else |results[j].items| + ItemsFrom(results, j + 1)
  }

  lemma {:induction false} AllHeld(results: seq<ToolResult>, rows: nat, j: nat)
    requires j <= |results| && forall i | 0 <= i < |results| :: |results[i].items| <= rows
    ensures Held(Sizes(results), rows, j) == ItemsFrom(results, j)
    decreases |results| - j
  {
    if j < |results| { AllHeld(results, rows, j + 1); }
  }

  lemma OrderCounts(results: seq<ToolResult>)
    ensures |Order(Sizes(results))| == ItemsFrom(results, 0)
  {
    var rows := Largest(Sizes(results), |results|);
    forall i | 0 <= i < |results| ensures |results[i].items| <= rows { assert Sizes(results)[i] <= rows; }
    InterleavedCounts(Sizes(results), rows);
    AllHeld(results, rows, 0);
  }

  // ---- What the answer says of itself -------------------------------------------------------------------

  /** `" ".join` over the summaries. */
  function Summaries(usable: seq<ToolResult>): string {
    if usable == [] then [] else if |usable| == 1 then usable[0].summary
    else Summaries(usable[..|usable| - 1]) + " " + usable[|usable| - 1].summary
  }

  function Cited(usable: seq<ToolResult>): (ids: seq<string>)
    ensures forall e :: e in ids <==> exists r :: r in usable && e in r.evidence
  {
    if usable == [] then []
    else
      var n := |usable| - 1;
      assert usable == usable[..n] + [usable[n]];
      Cited(usable[..n]) + usable[n].evidence
  }

  function Lowest(usable: seq<ToolResult>): (c: real)
    requires usable != []
    ensures (forall r | r in usable :: c <= r.confidence) && exists r :: r in usable && c == r.confidence
  {
    var n := |usable| - 1;
    assert usable == usable[..n] + [usable[n]];
    if n == 0 || usable[n].confidence <= Lowest(usable[..n]) then usable[n].confidence else Lowest(usable[..n])
  }

  datatype Answer =
    | Raised
    | NothingFound
    | Found(items: seq<Item>, truncated: bool, summary: string, evidence: seq<string>, confidence: real)

  function AnswerOf(usable: seq<ToolResult>): Answer {
    if usable == [] then NothingFound
    else
      Found(Answered(usable), |Order(Sizes(usable))| > MAX_ITEMS, Summaries(usable), Names.Once(Cited(usable)),
            Lowest(usable))
  }

  lemma GathersOneMore(a: seq<ToolResult>, last: ToolResult)
    ensures Usable(a + [last]) == Usable(a) + if last.ok then [last] else []
    ensures Cited(a + [last]) == Cited(a) + last.evidence
  {
    assert (a + [last])[..|a|] == a;
  }

  /** Results are gathered, and their evidence cited, in the order they came. */
  lemma {:induction false} GathersInOrder(a: seq<ToolResult>, b: seq<ToolResult>)
    ensures Usable(a + b) == Usable(a) + Usable(b) && Cited(a + b) == Cited(a) + Cited(b)
    ensures |b| == 1 ==> Usable(b) == (if b[0].ok then b else []) && Cited(b) == b[0].evidence
  {
    hide Usable, Cited;
    GathersNothing();
    if b == [] {
      assert a + b == a && Usable(a) + [] == Usable(a) && Cited(a) + [] == Cited(a);
    } else {
      var front, last := b[..|b| - 1], b[|b| - 1];
      GathersInOrder(a, front);
      GathersOneMore(a + front, last);
      GathersOneMore(front, last);
      assert a + b == a + front + [last] && b == front + [last];
    }
  }

  lemma GathersNothing()
    ensures Usable([]) == [] && Cited([]) == []
  {
  }

  /** The summaries, one after the other with a space between. */
  lemma {:induction false} SummariesJoin(a: seq<ToolResult>, b: seq<ToolResult>)
    requires a != [] && b != []
    ensures Summaries(a + b) == Summaries(a) + " " + Summaries(b)
    ensures |b| == 1 ==> Summaries(b) == b[0].summary
  {
    var front, last := b[..|b| - 1], b[|b| - 1];
    assert (a + b)[..|a + b| - 1] == a + front && (a + b)[|a + b| - 1] == last;
    if |b| == 1 {
      assert a + front == a;
    } else {
      SummariesJoin(a, front);
      assert Summaries(a) + " " + Summaries(front) + " " + last.summary
          == Summaries(a) + " " + (Summaries(front) + " " + last.summary);
    }
  }

  /** The answer holds the first five items, as they are dealt, of all that the usable results hold, and says it was
      cut exactly when they hold more; it cites each id some usable result cites, once; and it is as sure as the
      least sure of them. */
  lemma AnswerSpeaksForAll(usable: seq<ToolResult>)
    requires usable != []
    ensures AnswerOf(usable).Found?
    ensures var a, dealt := AnswerOf(usable), Order(Sizes(usable));
      && (forall e :: e in a.evidence <==> exists r :: r in usable && e in r.evidence)
      && (forall i, j | 0 <= i < j < |a.evidence| :: a.evidence[i] != a.evidence[j])
      && (forall r | r in usable :: a.confidence <= r.confidence)
      && (exists r :: r in usable && a.confidence == r.confidence)
      && |dealt| == ItemsFrom(usable, 0) && (a.truncated <==> |dealt| > 5)
      && |a.items| == (if a.truncated then 5 else |dealt|)
      && forall k | 0 <= k < |a.items| :: DealtAt(usable, dealt, a.items, k)
  {
    hide Order, Cited, Lowest, Names.Once, Answered, DealtAt, ItemsFrom, Sizes;
    OrderCounts(usable);
    AnswerIsDealt(usable);
  }

  lemma AnswerIsDealt(usable: seq<ToolResult>)
    ensures var dealt, items := Order(Sizes(usable)), Answered(usable);
      |items| == (if |dealt| > 5 then 5 else |dealt|) && forall k | 0 <= k < |items| :: DealtAt(usable, dealt, items, k)
  {
    hide Order;
    var dealt := Order(Sizes(usable));
    OrderKeepsEachResult(Sizes(usable));
    forall k | 0 <= k < |Answered(usable)| ensures DealtAt(usable, dealt, Answered(usable), k) {
      assert dealt[k] in dealt;
    }
  }

  /** The `k`-th item is the one dealt `k`-th. */
  ghost predicate DealtAt(usable: seq<ToolResult>, dealt: seq<(nat, nat)>, items: seq<Item>, k: nat)
    requires k < |items|
  {
    k < |dealt| && dealt[k].0 < |usable| && dealt[k].1 < |usable[dealt[k].0].items|
    && items[k] == usable[dealt[k].0].items[dealt[k].1]
  }

  /** The turns after the question, in pairs: the model's calls, and a response to each. */
  ghost predicate InPairs(turns: seq<Turn>) {
    |turns| % 2 == 0 && forall k | 0 <= k < |turns| / 2 :: PairAt(turns, k)
  }

  lemma OnePairMore(turns: seq<Turn>, parts: seq<Part>, responses: seq<Response>)
    requires InPairs(turns) && Paired(parts, responses)
    ensures InPairs(turns + [Model(parts), User(responses)])
  {
    var more := turns + [Model(parts), User(responses)];
    forall k | 0 <= k < |more| / 2 ensures PairAt(more, k) {
      if k < |turns| / 2 { assert PairAt(turns, k); }
    }
  }

  /** After `n` rounds: at most three calls a round and never past the budget, at most ten utterances, and every call
      sent back to the model with exactly one response. */
  ghost predicate Bounded(t: Talk, n: nat, limit: nat, used: nat) {
    && t.used <= used + 3 * n && (t.used <= limit || t.used == used)
    && t.room <= 10 && Quoted(t.gathered) == 10 - t.room && InPairs(t.turns)
  }

  /** However the rounds go, the bounds hold, when the model's parts hold the calls it returned. */
  lemma {:induction false} LoopIsBounded(rounds: seq<Round>, n: nat, speakerLists: set<string>, limit: nat, used: nat)
    requires n <= |rounds| && forall r | r in rounds :: Playable(r) && Honest(r)
    ensures Bounded(AfterRounds(rounds, n, speakerLists, limit, used), n, limit, used)
  {
    if n > 0 {
      hide AfterRound, Bounded, Honest, Playable;
      LoopIsBounded(rounds, n - 1, speakerLists, limit, used);
      assert rounds[n - 1] in rounds;
      RoundKeepsBounds(AfterRounds(rounds, n - 1, speakerLists, limit, used), rounds[n - 1], speakerLists, n - 1, limit,
                       used);
    }
  }

  lemma RoundKeepsBounds(t: Talk, round: Round, speakerLists: set<string>, n: nat, limit: nat, used: nat)
    requires Playable(round) && Honest(round) && Bounded(t, n, limit, used)
    ensures Bounded(AfterRound(t, round, speakerLists, limit), n + 1, limit, used)
  {
    hide Given, Echoed, RoundFails, FirstCalls, InPairs, Quoted;
    if !t.over && !round.tooBig && round.move.Calls? && round.move.calls != []
       && !RoundFails(FirstCalls(round.move.calls), round.replies, t.used, limit) {
      RoundIsBounded(t, round, speakerLists, limit);
    }
  }

  lemma RoundIsBounded(t: Talk, round: Round, speakerLists: set<string>, limit: nat)
    requires Playable(round) && Honest(round) && round.move.Calls? && round.move.calls != []
    requires t.room <= MAX_QUOTED && Quoted(t.gathered) == MAX_QUOTED - t.room && InPairs(t.turns)
    requires !RoundFails(FirstCalls(round.move.calls), round.replies, t.used, limit)
    ensures var calls := FirstCalls(round.move.calls);
      var g := Given(calls, round.replies, speakerLists, t.room, |calls|);
      && Quoted(t.gathered + g.results) == MAX_QUOTED - g.left && t.used + |calls| <= limit
      && InPairs(t.turns + [Model(Echoed(round.move.parts, calls)), User(ResponsesTo(calls, g.results))])
  {
    var calls := FirstCalls(round.move.calls);
    var g := Given(calls, round.replies, speakerLists, t.room, |calls|);
    GivenWithinRoom(calls, round.replies, speakerLists, t.room, |calls|);
    QuotedConcat(t.gathered, g.results);
    EchoHoldsTheCalls(round.move.parts, round.move.calls);
    OnePairMore(t.turns, Echoed(round.move.parts, calls), ResponsesTo(calls, g.results));
    assert !FailsAt(round.replies, t.used, limit, |calls| - 1);
  }

  /** One round as `ask` plays it; `over` ends the loop. */
  method PlayRound(round: Round, speakerLists: set<string>, budget: CallBudget, t: Talk) returns (after: Talk)
    requires Playable(round) && !t.over && !t.raised && t.used == budget.used
    modifies budget
    ensures after == AfterRound(t, round, speakerLists, budget.limit) && (!after.raised ==> budget.used == after.used)
    ensures budget.used <= old(budget.used) + MAX_CALLS_PER_ROUND
    ensures budget.used <= budget.limit || budget.used == old(budget.used)
  {
    hide Given, RoundFails, Echoed;
    if round.tooBig { return t.(over := true); }
    match round.move {
      case Breaks => return t.(over := true);
      case Stops => return t.(over := true);
      case Leaks => return t.(over := true, raised := true);
      case Calls(returned, parts) =>
        if returned == [] { return t.(over := true); }
        var calls := FirstCalls(returned);
        var failed, results, left := RunCalls(calls, round.replies, speakerLists, budget, t.room);
        if failed { return t.(over := true, raised := true); }
        var echoed := Echo(parts, calls);
        after := Talk(t.gathered + results, t.turns + [Model(echoed), User(ResponsesTo(calls, results))], left,
                      budget.used, false, false);
    }
  }

  /** `ask`, `rounds` being how each of its rounds would go. */
  method Ask(rounds: seq<Round>, speakerLists: set<string>, budget: CallBudget) returns (answer: Answer, talk: Talk)
    requires |rounds| == MAX_ROUNDS && forall r | r in rounds :: Playable(r)
    modifies budget
    ensures budget.used <= old(budget.used) + 9
    ensures budget.used <= budget.limit || budget.used == old(budget.used)
    ensures talk == AfterRounds(rounds, MAX_ROUNDS, speakerLists, budget.limit, old(budget.used))
    ensures answer == if talk.raised then Raised
                      else AnswerOf(Usable(talk.gathered))
  {
    hide AfterRound;
    talk := Talk([], [], MAX_QUOTED, budget.used, false, false);
    for n := 0 to MAX_ROUNDS
      invariant talk == AfterRounds(rounds, n, speakerLists, budget.limit, old(budget.used))
      invariant !talk.over && !talk.raised && talk.used == budget.used
      invariant budget.used <= old(budget.used) + n * MAX_CALLS_PER_ROUND
      invariant budget.used <= budget.limit || budget.used == old(budget.used)
    {
      assert rounds[n] in rounds;
      talk := PlayRound(rounds[n], speakerLists, budget, talk);
      if talk.raised || talk.over {
        RaisedIsOver(rounds, n + 1, speakerLists, budget.limit, old(budget.used));
        Rests(rounds, n + 1, MAX_ROUNDS, speakerLists, budget.limit, old(budget.used));
        break;
      }
    }
    answer := if talk.raised then Raised else AnswerOf(Usable(talk.gathered));
  }

  lemma {:induction false} RaisedIsOver(rounds: seq<Round>, n: nat, speakerLists: set<string>, limit: nat, used: nat)
    requires n <= |rounds| && forall r | r in rounds :: Playable(r)
    ensures AfterRounds(rounds, n, speakerLists, limit, used).raised ==>
      AfterRounds(rounds, n, speakerLists, limit, used).over
  {
    if n > 0 { RaisedIsOver(rounds, n - 1, speakerLists, limit, used); }
  }

  lemma OverIsOver(t: Talk, round: Round, speakerLists: set<string>, limit: nat)
    requires Playable(round) && t.over
    ensures AfterRound(t, round, speakerLists, limit) == t
  {
  }

  /** Once the loop is over, the rounds that would follow change nothing. */
  lemma {:induction false} Rests(rounds: seq<Round>, n: nat, m: nat, speakerLists: set<string>, limit: nat, used: nat)
    requires n <= m <= |rounds| && forall r | r in rounds :: Playable(r)
    requires AfterRounds(rounds, n, speakerLists, limit, used).over
    ensures AfterRounds(rounds, m, speakerLists, limit, used) == AfterRounds(rounds, n, speakerLists, limit, used)
  {
    hide AfterRound;
    if n < m {
      Rests(rounds, n, m - 1, speakerLists, limit, used);
      assert rounds[m - 1] in rounds;
      OverIsOver(AfterRounds(rounds, m - 1, speakerLists, limit, used), rounds[m - 1], speakerLists, limit);
    }
  }
}
