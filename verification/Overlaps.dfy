/** `masking._resolve_overlaps`: spans sorted, and merged wherever they touch. */
module Overlaps {

  datatype Span = Span(start: int, end: int, category: string)

  /** A span while it is built, with the length of the longest span that went into it. */
  datatype Entry = Entry(start: int, end: int, category: string, longest: int)

  datatype Region = Region(start: int, end: int, category: string, merged: bool)

  predicate Proper(spans: seq<Span>) { forall i | 0 <= i < |spans| :: spans[i].start <= spans[i].end }

  function Length(s: Span): int { s.end - s.start }

  // ---- The stable sort ------------------------------------------------------------------------------------

  /** `a` may stand before `b`: it starts earlier, or at the same place and is at least as long. */
  predicate Before(a: Span, b: Span) { a.start < b.start || (a.start == b.start && Length(a) >= Length(b)) }

  function Inserted(x: Span, rest: seq<Span>): seq<Span> {
    if rest == [] || Before(x, rest[0]) then [x] + rest else [rest[0]] + Inserted(x, rest[1..])
  }

  /** `sorted(spans, key=lambda s: (s[0], -(s[1] - s[0])))`. */
  function Sorted(spans: seq<Span>): seq<Span> {
    if spans == [] then [] else Inserted(spans[0], Sorted(spans[1..]))
  }

  lemma {:induction false} InsertedHolds(x: Span, rest: seq<Span>)
    ensures multiset(Inserted(x, rest)) == multiset(rest) + multiset{x}
  {
    if rest != [] && !Before(x, rest[0]) {
      InsertedHolds(x, rest[1..]);
      assert rest == [rest[0]] + rest[1..];
    }
  }

  /** Sorting keeps every span, as often as it was found. */
  lemma {:induction false} SortedHolds(spans: seq<Span>)
    ensures multiset(Sorted(spans)) == multiset(spans) && |Sorted(spans)| == |spans|
  {
    if spans != [] {
      SortedHolds(spans[1..]);
      InsertedHolds(spans[0], Sorted(spans[1..]));
      assert spans == [spans[0]] + spans[1..];
    }
    assert |multiset(Sorted(spans))| == |multiset(spans)|;
  }

  ghost predicate InOrder(spans: seq<Span>) { forall i, j | 0 <= i < j < |spans| :: Before(spans[i], spans[j]) }

  lemma {:induction false} InsertedInOrder(x: Span, rest: seq<Span>)
    requires InOrder(rest)
    ensures InOrder(Inserted(x, rest))
  {
    if rest != [] && !Before(x, rest[0]) {
      InsertedInOrder(x, rest[1..]);
      InsertedHolds(x, rest[1..]);
      var tail := Inserted(x, rest[1..]);
      forall j | 0 <= j < |tail| ensures Before(rest[0], tail[j]) {
        assert tail[j] in multiset(tail);
        assert tail[j] == x || tail[j] in multiset(rest[1..]);
      }
    }
  }

  lemma {:induction false} SortedInOrder(spans: seq<Span>)
    ensures InOrder(Sorted(spans))
  {
    if spans != [] {
      SortedInOrder(spans[1..]);
      InsertedInOrder(spans[0], Sorted(spans[1..]));
    }
  }

  predicate Covers(s: Span, start: int, end: int) { s.start == start && s.end == end }

  /** The category of the first span that is exactly `start` to `end`; none when there is no such span. */
  function FirstCategory(spans: seq<Span>, start: int, end: int): seq<string> {
    if spans == [] then [] else if Covers(spans[0], start, end) then [spans[0].category]
    else FirstCategory(spans[1..], start, end)
  }

  lemma {:induction false} InsertedFirst(x: Span, rest: seq<Span>, start: int, end: int)
    ensures FirstCategory(Inserted(x, rest), start, end)
      == if Covers(x, start, end) then [x.category] else FirstCategory(rest, start, end)
  {
    if rest != [] && !Before(x, rest[0]) {
      InsertedFirst(x, rest[1..], start, end);
    }
  }

  /** Sorting is stable: of equal spans the one that came first stays first. */
  lemma {:induction false} SortedFirst(spans: seq<Span>, start: int, end: int)
    ensures FirstCategory(Sorted(spans), start, end) == FirstCategory(spans, start, end)
  {
    if spans != [] {
      SortedFirst(spans[1..], start, end);
      InsertedFirst(spans[0], Sorted(spans[1..]), start, end);
    }
  }

  // ---- The sweep ------------------------------------------------------------------------------------------

  /** One span more. */
  function Taken(building: seq<Entry>, s: Span): (r: seq<Entry>)
    ensures |building| <= |r| <= |building| + 1
  {
    var n := |building|;
    if n > 0 && s.start <= building[n - 1].end then
      var e := building[n - 1];
      var longer := Length(s) > e.longest;
      building[n - 1 := Entry(e.start, if e.end >= s.end then e.end else s.end,
                              if longer then s.category else e.category, if longer then Length(s) else e.longest)]
    else building + [Entry(s.start, s.end, s.category, Length(s))]
  }

  function Swept(sorted: seq<Span>, n: nat): seq<Entry>
    requires n <= |sorted|
  {
    if n == 0 then [] else Taken(Swept(sorted, n - 1), sorted[n - 1])
  }

  function RegionOf(e: Entry): Region { Region(e.start, e.end, e.category, e.end - e.start > e.longest) }

  function RegionsOf(building: seq<Entry>): (r: seq<Region>)
    ensures |r| == |building| && forall i | 0 <= i < |r| :: r[i] == RegionOf(building[i])
  {
    seq(|building|, i requires 0 <= i < |building| => RegionOf(building[i]))
  }

  function Resolved(spans: seq<Span>): seq<Region> { RegionsOf(Swept(Sorted(spans), |Sorted(spans)|)) }

  method ResolveOverlaps(spans: seq<Span>) returns (kept: seq<Region>)
    ensures kept == Resolved(spans)
  {
    var sorted, building := Sorted(spans), [];
    for i := 0 to |sorted|
      invariant building == Swept(sorted, i)
    {
      var start, end, category := sorted[i].start, sorted[i].end, sorted[i].category;
      var length := end - start;
      if building != [] && start <= building[|building| - 1].end {
        var entry := building[|building| - 1];
        if length > entry.longest {
          entry := entry.(category := category, longest := length);
        }
        if end > entry.end {
          entry := entry.(end := end);
        }
        building := building[|building| - 1 := entry];
        continue;
      }
      building := building + [Entry(start, end, category, length)];
    }
    kept := RegionsOf(building);
  }

  // ---- What the sweep keeps -------------------------------------------------------------------------------

  predicate Inside(s: Span, e: Entry) { e.start <= s.start && s.end <= e.end }

  /** A real gap between neighbours. */
  ghost predicate GapAfter(b: seq<Entry>, j: nat) { j + 1 < |b| ==> b[j].end < b[j + 1].start }

  /** The point `p`, in half characters, lies on a closed span. */
  ghost predicate On(start: int, end: int, p: int) { 2 * start <= p <= 2 * end }

  ghost predicate SpanOn(spans: seq<Span>, n: nat, p: int) {
    exists k :: 0 <= k < n <= |spans| && On(spans[k].start, spans[k].end, p)
  }

  ghost predicate EntryOn(b: seq<Entry>, p: int) { exists j :: 0 <= j < |b| && On(b[j].start, b[j].end, p) }

  /** Which entry each span went into, and which span gave each entry its category. */
  datatype Source = Source(home: seq<nat>, lead: seq<nat>)

  ghost predicate HomeAt(sorted: seq<Span>, b: seq<Entry>, source: Source, k: nat)
    requires k < |sorted|
  {
    k < |source.home| && source.home[k] < |b| && source.home[k] < |source.lead| &&
    var j := source.home[k];
    Inside(sorted[k], b[j]) && Length(sorted[k]) <= b[j].longest &&
    (k < source.lead[j] ==> Length(sorted[k]) < b[j].longest)
  }

  ghost predicate LeadAt(sorted: seq<Span>, n: nat, b: seq<Entry>, source: Source, j: nat)
    requires j < |b| && n <= |sorted|
  {
    j < |source.lead| && source.lead[j] < n && |source.home| == n && source.home[source.lead[j]] == j &&
    b[j].start <= b[j].end &&
    Length(sorted[source.lead[j]]) == b[j].longest && sorted[source.lead[j]].category == b[j].category
  }

  ghost predicate Explained(sorted: seq<Span>, n: nat, b: seq<Entry>, source: Source) {
    && n <= |sorted| && |source.home| == n && |source.lead| == |b|
    && (forall k: nat | k < n :: HomeAt(sorted, b, source, k))
    && (forall j: nat | j < |b| :: LeadAt(sorted, n, b, source, j))
    && (forall j: nat :: GapAfter(b, j))
    && (forall p | EntryOn(b, p) :: SpanOn(sorted, n, p))
    && (|b| > 0 ==> n > 0 && b[|b| - 1].start <= sorted[n - 1].start)
  }

  lemma OpensNew(sorted: seq<Span>, n: nat, b: seq<Entry>, source: Source, b': seq<Entry>, source': Source)
    requires Proper(sorted) && InOrder(sorted) && Explained(sorted, n, b, source) && n < |sorted|
    requires var s := sorted[n];
      (b == [] || b[|b| - 1].end < s.start) && b' == b + [Entry(s.start, s.end, s.category, Length(s))]
    requires source' == Source(source.home + [|b|], source.lead + [n])
    ensures Explained(sorted, n + 1, b', source')
  {
    forall k: nat | k < n + 1 ensures HomeAt(sorted, b', source', k) {
      if k < n { assert HomeAt(sorted, b, source, k); }
    }
    var m := n + 1;
    forall j: nat | j < |b'| ensures LeadAt(sorted, m, b', source', j) {
      if j < |b| { assert LeadAt(sorted, n, b, source, j); }
    }
    forall j: nat ensures GapAfter(b', j) { assert GapAfter(b, j); }
    forall p | EntryOn(b', p) ensures SpanOn(sorted, n + 1, p) {
      var j :| 0 <= j < |b'| && On(b'[j].start, b'[j].end, p);
      if j < |b| {
        assert EntryOn(b, p);
        var k :| 0 <= k < n <= |sorted| && On(sorted[k].start, sorted[k].end, p);
      }
    }
  }

  lemma JoinsLast(sorted: seq<Span>, n: nat, b: seq<Entry>, source: Source, b': seq<Entry>, source': Source)
    requires Proper(sorted) && InOrder(sorted) && Explained(sorted, n, b, source) && n < |sorted|
    requires b != [] && sorted[n].start <= b[|b| - 1].end && b' == Taken(b, sorted[n])
    requires source' == Source(source.home + [|b| - 1],
      if Length(sorted[n]) > b[|b| - 1].longest then source.lead[|b| - 1 := n] else source.lead)
    ensures Explained(sorted, n + 1, b', source')
  {
    var last := |b| - 1;
    assert Before(sorted[n - 1], sorted[n]);
    assert LeadAt(sorted, n, b, source, last);
    forall k: nat | k < n + 1 ensures HomeAt(sorted, b', source', k) {
      if k < n { assert HomeAt(sorted, b, source, k); }
    }
    var m := n + 1;
    forall j: nat | j < |b'| ensures LeadAt(sorted, m, b', source', j) { assert LeadAt(sorted, n, b, source, j); }
    forall j: nat ensures GapAfter(b', j) { assert GapAfter(b, j); }
    forall p | EntryOn(b', p) ensures SpanOn(sorted, n + 1, p) {
      JoinedOn(sorted, n, b, b', p);
    }
  }

  lemma JoinedOn(sorted: seq<Span>, n: nat, b: seq<Entry>, b': seq<Entry>, p: int)
    requires n < |sorted| && b != [] && sorted[n].start <= b[|b| - 1].end && b' == Taken(b, sorted[n]) && EntryOn(b', p)
    requires forall q | EntryOn(b, q) :: SpanOn(sorted, n, q)
    ensures SpanOn(sorted, n + 1, p)
  {
    var j :| 0 <= j < |b'| && On(b'[j].start, b'[j].end, p);
    if On(b[j].start, b[j].end, p) {
      assert EntryOn(b, p);
      var k :| 0 <= k < n <= |sorted| && On(sorted[k].start, sorted[k].end, p);
    } else {
      assert On(sorted[n].start, sorted[n].end, p);
    }
  }

  lemma {:induction false} SweptExplained(sorted: seq<Span>, n: nat) returns (source: Source)
    requires Proper(sorted) && InOrder(sorted) && n <= |sorted|
    ensures Explained(sorted, n, Swept(sorted, n), source)
  {
    if n == 0 {
      source := Source([], []);
    } else {
      var before := SweptExplained(sorted, n - 1);
      var b, s := Swept(sorted, n - 1), sorted[n - 1];
      if b != [] && s.start <= b[|b| - 1].end {
        source := Source(before.home + [|b| - 1],
          if Length(s) > b[|b| - 1].longest then before.lead[|b| - 1 := n - 1] else before.lead);
        JoinsLast(sorted, n - 1, b, before, Taken(b, s), source);
      } else {
        source := Source(before.home + [|b|], before.lead + [n - 1]);
        OpensNew(sorted, n - 1, b, before, Taken(b, s), source);
      }
    }
  }

  // ---- What comes out -------------------------------------------------------------------------------------

  ghost predicate RegionOn(r: seq<Region>, p: int) { exists j :: 0 <= j < |r| && On(r[j].start, r[j].end, p) }

  ghost predicate Apart(r: seq<Region>, j: nat) { j + 1 < |r| ==> r[j].end < r[j + 1].start }

  ghost predicate Spread(r: seq<Region>) {
    (forall j | 0 <= j < |r| :: r[j].start <= r[j].end) && forall j: nat :: Apart(r, j)
  }

  lemma EntriesApart(b: seq<Entry>, i: nat, j: nat)
    requires i < j < |b| && (forall k: nat :: GapAfter(b, k)) && forall k | 0 <= k < |b| :: b[k].start <= b[k].end
    ensures b[i].end < b[j].start
  {
    if i + 1 < j { EntriesApart(b, i, j - 1); }
    assert GapAfter(b, j - 1);
  }

  lemma PointCovered(spans: seq<Span>, p: int)
    requires Proper(spans)
    ensures RegionOn(Resolved(spans), p) <==> SpanOn(spans, |spans|, p)
  {
    var sorted, n := Sorted(spans), |spans|;
    SortedHolds(spans);
    SortedProper(spans);
    SortedInOrder(spans);
    hide Sorted, Swept;
    var b, r := Swept(sorted, n), Resolved(spans);
    var source := SweptExplained(sorted, n);
    SamePoints(spans, sorted, p);
    SamePoints(sorted, spans, p);
    if RegionOn(r, p) {
      var j :| 0 <= j < |r| && On(r[j].start, r[j].end, p);
      assert On(b[j].start, b[j].end, p);
      assert EntryOn(b, p);
    }
    if SpanOn(sorted, n, p) {
      var k :| 0 <= k < n <= |sorted| && On(sorted[k].start, sorted[k].end, p);
      assert HomeAt(sorted, b, source, k);
      var j := source.home[k];
      assert On(r[j].start, r[j].end, p);
    }
  }

  /** The spans come out in order with a real gap between neighbours, and cover just what the inputs covered. */
  lemma CoversTheUnion(spans: seq<Span>)
    requires Proper(spans)
    ensures Spread(Resolved(spans))
    ensures forall p :: RegionOn(Resolved(spans), p) <==> SpanOn(spans, |spans|, p)
  {
    var sorted, n := Sorted(spans), |spans|;
    SortedHolds(spans);
    SortedProper(spans);
    SortedInOrder(spans);
    hide Sorted, Swept, RegionOn, SpanOn;
    var b, r := Swept(sorted, n), Resolved(spans);
    var source := SweptExplained(sorted, n);
    forall j | 0 <= j < |r| ensures r[j].start <= r[j].end { assert LeadAt(sorted, n, b, source, j); }
    forall j: nat ensures Apart(r, j) { assert GapAfter(b, j); }
    forall p ensures RegionOn(r, p) <==> SpanOn(spans, n, p) { PointCovered(spans, p); }
  }

  lemma SortedProper(spans: seq<Span>)
    requires Proper(spans)
    ensures Proper(Sorted(spans))
  {
    var sorted := Sorted(spans);
    SortedHolds(spans);
    forall i | 0 <= i < |sorted| ensures sorted[i].start <= sorted[i].end {
      assert sorted[i] in multiset(sorted);
      assert sorted[i] in multiset(spans);
    }
  }

  lemma SamePoints(spans: seq<Span>, others: seq<Span>, p: int)
    requires multiset(spans) == multiset(others)
    ensures SpanOn(spans, |spans|, p) ==> SpanOn(others, |others|, p)
  {
    if k :| 0 <= k < |spans| && On(spans[k].start, spans[k].end, p) {
      assert spans[k] in multiset(spans);
      var i :| 0 <= i < |others| && others[i] == spans[k];
    }
  }

  /** Some input is exactly the region. */
  ghost predicate IsInput(spans: seq<Span>, start: int, end: int) { FirstCategory(spans, start, end) != [] }

  lemma {:induction false} FirstCategoryAt(spans: seq<Span>, start: int, end: int, k: nat)
    requires k < |spans| && Covers(spans[k], start, end) && forall i | 0 <= i < k :: !Covers(spans[i], start, end)
    ensures FirstCategory(spans, start, end) == [spans[k].category]
  {
    if k > 0 { FirstCategoryAt(spans[1..], start, end, k - 1); }
  }

  lemma {:induction false} FirstInput(spans: seq<Span>, start: int, end: int) returns (k: nat)
    requires IsInput(spans, start, end)
    ensures k < |spans| && Covers(spans[k], start, end) && forall i | 0 <= i < k :: !Covers(spans[i], start, end)
  {
    if Covers(spans[0], start, end) {
      k := 0;
    } else {
      var rest := FirstInput(spans[1..], start, end);
      k := rest + 1;
      forall i | 0 <= i < k ensures !Covers(spans[i], start, end) { if i > 0 { assert spans[i] == spans[1..][i - 1]; } }
    }
  }

  /** A region is unmerged exactly when some input is that region, and then it has the category of the first such
      input. */
  lemma UnmergedExactly(spans: seq<Span>, j: nat)
    requires Proper(spans) && j < |Resolved(spans)|
    ensures var r := Resolved(spans)[j];
      (!r.merged <==> IsInput(spans, r.start, r.end)) &&
        (!r.merged ==> FirstCategory(spans, r.start, r.end) == [r.category])
  {
    var sorted, n := Sorted(spans), |spans|;
    SortedHolds(spans);
    SortedProper(spans);
    SortedInOrder(spans);
    var b := Swept(sorted, n);
    var source := SweptExplained(sorted, n);
    var start, end, lead := b[j].start, b[j].end, source.lead[j];
    SortedFirst(spans, start, end);
    assert LeadAt(sorted, n, b, source, j) && HomeAt(sorted, b, source, lead);
    if !Resolved(spans)[j].merged {
      forall i: nat | i < lead ensures !Covers(sorted[i], start, end) { EarlierIsShorter(sorted, n, b, source, i, j); }
      FirstCategoryAt(sorted, start, end, lead);
    } else if IsInput(sorted, start, end) {
      var k := FirstInput(sorted, start, end);
      HomeOf(sorted, n, b, source, k, j);
    }
  }

  lemma HomeOf(sorted: seq<Span>, n: nat, b: seq<Entry>, source: Source, k: nat, j: nat)
    requires Proper(sorted) && Explained(sorted, n, b, source) && k < n && j < |b|
    requires Covers(sorted[k], b[j].start, b[j].end)
    ensures source.home[k] == j && Length(sorted[k]) <= b[j].longest
  {
    assert HomeAt(sorted, b, source, k);
    var h := source.home[k];
    forall i: nat | i < |b| ensures b[i].start <= b[i].end { assert LeadAt(sorted, n, b, source, i); }
    if h < j { EntriesApart(b, h, j); }
    if j < h { EntriesApart(b, j, h); }
  }

  lemma EarlierIsShorter(sorted: seq<Span>, n: nat, b: seq<Entry>, source: Source, i: nat, j: nat)
    requires Proper(sorted) && Explained(sorted, n, b, source) && j < |b| && i < source.lead[j] && i < |sorted|
    requires b[j].end - b[j].start <= b[j].longest
    ensures !Covers(sorted[i], b[j].start, b[j].end)
  {
    assert LeadAt(sorted, n, b, source, j) && HomeAt(sorted, b, source, source.lead[j]);
    assert HomeAt(sorted, b, source, i);
    if Covers(sorted[i], b[j].start, b[j].end) { HomeOf(sorted, n, b, source, i, j); }
  }

  // ---- The order of the inputs ----------------------------------------------------------------------------

  lemma RegionsApart(r: seq<Region>, i: nat, j: nat)
    requires Spread(r) && i < j < |r|
    ensures r[i].end < r[j].start
  {
    if i + 1 < j { RegionsApart(r, i, j - 1); }
    assert Apart(r, j - 1);
  }

  /** A point on the list from region `i` on. */
  ghost predicate OnFrom(r: seq<Region>, i: nat, p: int) { exists j :: i <= j < |r| && On(r[j].start, r[j].end, p) }

  /** The first region starts where the covered points start and ends where the first gap begins. */
  lemma FirstRegion(r: seq<Region>, i: nat)
    requires Spread(r) && i < |r|
    ensures forall p | 2 * r[i].start <= p <= 2 * r[i].end :: OnFrom(r, i, p)
    ensures !OnFrom(r, i, 2 * r[i].end + 1) && forall p | p < 2 * r[i].start :: !OnFrom(r, i, p)
    ensures forall p :: OnFrom(r, i + 1, p) <==> OnFrom(r, i, p) && p > 2 * r[i].end
  {
    forall p | 2 * r[i].start <= p <= 2 * r[i].end ensures OnFrom(r, i, p) { assert On(r[i].start, r[i].end, p); }
    forall j | i < j < |r| ensures r[i].end < r[j].start { RegionsApart(r, i, j); }
    forall p ensures OnFrom(r, i + 1, p) <==> OnFrom(r, i, p) && p > 2 * r[i].end {
      if j :| i + 1 <= j < |r| && On(r[j].start, r[j].end, p) { assert OnFrom(r, i, p); }
      if OnFrom(r, i, p) && p > 2 * r[i].end {
        var j :| i <= j < |r| && On(r[j].start, r[j].end, p);
        assert i + 1 <= j;
      }
    }
  }

  /** Only one list of separated regions covers a given set of points. */
  lemma {:induction false} OneCover(a: seq<Region>, b: seq<Region>, i: nat)
    requires Spread(a) && Spread(b) && i <= |a| && i <= |b|
    requires forall p :: OnFrom(a, i, p) <==> OnFrom(b, i, p)
    ensures |a| == |b| && forall j | i <= j < |a| :: a[j].start == b[j].start && a[j].end == b[j].end
    decreases |a| - i
  {
    if i < |a| { FirstRegion(a, i); assert OnFrom(a, i, 2 * a[i].start); }
    if i < |b| { FirstRegion(b, i); assert OnFrom(b, i, 2 * b[i].start); }
    if i < |a| {
      assert OnFrom(b, i, 2 * a[i].start);
      SameFirst(a, b, i);
      var next := i + 1;
      forall p ensures OnFrom(a, next, p) <==> OnFrom(b, next, p) {
        assert OnFrom(a, i, p) <==> OnFrom(b, i, p);
      }
      OneCover(a, b, next);
    }
  }

  lemma SameFirst(a: seq<Region>, b: seq<Region>, i: nat)
    requires Spread(a) && Spread(b) && i < |a| && i < |b|
    requires forall p :: OnFrom(a, i, p) <==> OnFrom(b, i, p)
    ensures a[i].start == b[i].start && a[i].end == b[i].end
  {
    FirstRegion(a, i);
    FirstRegion(b, i);
    assert OnFrom(a, i, 2 * a[i].start) && OnFrom(b, i, 2 * b[i].start);
    assert a[i].start == b[i].start;
    var p, q := 2 * a[i].end + 1, 2 * b[i].end + 1;
    assert !OnFrom(b, i, p) && !OnFrom(a, i, q);
  }

  lemma {:induction false} IsInputOf(spans: seq<Span>, start: int, end: int)
    ensures IsInput(spans, start, end) <==> exists s :: s in multiset(spans) && Covers(s, start, end)
  {
    if spans != [] {
      assert spans == [spans[0]] + spans[1..];
      IsInputOf(spans[1..], start, end);
      if IsInput(spans, start, end) && !Covers(spans[0], start, end) {
        var s :| s in multiset(spans[1..]) && Covers(s, start, end);
        assert s in multiset(spans);
      }
    }
  }

  /** Where the regions lie, and which of them are merged, does not depend on the order the spans were found in. */
  lemma OrderDoesNotMatter(spans: seq<Span>, others: seq<Span>)
    requires Proper(spans) && multiset(spans) == multiset(others)
    ensures var a, b := Resolved(spans), Resolved(others);
      |a| == |b| && forall j | 0 <= j < |a| ::
        a[j].start == b[j].start && a[j].end == b[j].end && a[j].merged == b[j].merged
  {
    forall i | 0 <= i < |others| ensures others[i].start <= others[i].end {
      assert others[i] in multiset(others);
      assert others[i] in multiset(spans);
    }
    var a, b := Resolved(spans), Resolved(others);
    CoversTheUnion(spans);
    CoversTheUnion(others);
    forall p ensures OnFrom(a, 0, p) <==> OnFrom(b, 0, p) {
      SamePoints(spans, others, p);
      SamePoints(others, spans, p);
      assert OnFrom(a, 0, p) <==> RegionOn(a, p);
      assert OnFrom(b, 0, p) <==> RegionOn(b, p);
    }
    OneCover(a, b, 0);
    forall j: nat | j < |a| ensures a[j].merged == b[j].merged {
      UnmergedExactly(spans, j);
      UnmergedExactly(others, j);
      IsInputOf(spans, a[j].start, a[j].end);
      IsInputOf(others, a[j].start, a[j].end);
    }
  }
}
