/** `masking.hide_reported`: how a span a person reported is starred out. */
module Reported {
  import opened Characters

  /** Each character starred, separators left standing. */
  function Starred(run: string): (r: string)
    ensures |r| == |run|
    ensures forall i | 0 <= i < |run| :: r[i] == if IsLayout(run[i]) then run[i] else MASK_CHAR
  {
    seq(|run|, i requires 0 <= i < |run| => if IsLayout(run[i]) then run[i] else MASK_CHAR)
  }

  /** Two stars side by side: what `MaskedText` on the web takes for a redaction. */
  predicate HasDouble(t: string) {
    exists i | 0 <= i < |t| :: DoubleAt(t, i)
  }

  predicate DoubleAt(t: string, i: nat) {
    i + 1 < |t| && t[i] == MASK_CHAR && t[i + 1] == MASK_CHAR
  }

  function HiddenRun(run: string): string {
    var hidden := Starred(run);
    if MASK_CHAR in hidden && !HasDouble(hidden) then hidden + [MASK_CHAR] else hidden
  }

  /** Where the first space stands, or the length of the text. */
  function FirstSpace(t: string): (k: nat)
    ensures k <= |t| && (k < |t| ==> t[k] == ' ') && ' ' !in t[..k]
  {
    if t == [] || t[0] == ' ' then 0
    else
      assert forall c | c in t[..1 + FirstSpace(t[1..])] :: c == t[0] || c in t[1..][..FirstSpace(t[1..])];
      1 + FirstSpace(t[1..])
  }

  /** `span.split(" ")`. */
  function Runs(span: string): (r: seq<string>)
    ensures |r| > 0
    decreases |span|
  {
    var k := FirstSpace(span);
    if k == |span| then [span] else [span[..k]] + Runs(span[k + 1..])
  }

  /** `" ".join(runs)`. */
  function Joined(runs: seq<string>): string {
    if |runs| == 0 then [] else if |runs| == 1 then runs[0] else runs[0] + " " + Joined(runs[1..])
  }

  function HiddenRuns(runs: seq<string>): (r: seq<string>)
    ensures |r| == |runs|
  {
    if runs == [] then [] else [HiddenRun(runs[0])] + HiddenRuns(runs[1..])
  }

  lemma {:induction false} HiddenRunsSnoc(runs: seq<string>, run: string)
    ensures HiddenRuns(runs + [run]) == HiddenRuns(runs) + [HiddenRun(run)]
  {
    if runs != [] {
      HiddenRunsSnoc(runs[1..], run);
      assert (runs + [run])[1..] == runs[1..] + [run];
    }
  }

  /** The hidden span, run by run. */
  function Hidden(span: string): string
    decreases |span|
  {
    var k := FirstSpace(span);
    if k == |span| then HiddenRun(span) else HiddenRun(span[..k]) + " " + Hidden(span[k + 1..])
  }

  method HideReported(span: string) returns (hidden: string)
    ensures hidden == Hidden(span)
  {
    var split := Runs(span);
    var runs: seq<string> := [];
    for i := 0 to |split|
      invariant runs == HiddenRuns(split[..i])
    {
      var h := Starred(split[i]);
      if MASK_CHAR in h && !HasDouble(h) {
        h := h + [MASK_CHAR];
      }
      runs := runs + [h];
      HiddenRunsSnoc(split[..i], split[i]);
      assert split[..i + 1] == split[..i] + [split[i]];
    }
    assert split[..|split|] == split;
    hidden := Joined(runs);
    HiddenIsJoined(span);
  }

  lemma {:induction false} HiddenIsJoined(span: string)
    ensures Joined(HiddenRuns(Runs(span))) == Hidden(span)
    decreases |span|
  {
    hide FirstSpace, HiddenRun, HiddenRuns, Joined;
    var k := FirstSpace(span);
    if k < |span| {
      var first, tail := span[..k], span[k + 1..];
      HiddenIsJoined(tail);
      JoinedStep(first, Runs(tail));
      assert Runs(span) == [first] + Runs(tail);
    } else {
      SingleRun(span);
    }
  }

  lemma SingleRun(run: string)
    ensures Joined(HiddenRuns([run])) == HiddenRun(run)
  {
    assert HiddenRuns([run]) == [HiddenRun(run)];
  }

  lemma JoinedStep(first: string, rest: seq<string>)
    requires |rest| > 0
    ensures Joined(HiddenRuns([first] + rest)) == HiddenRun(first) + " " + Joined(HiddenRuns(rest))
  {
    assert ([first] + rest)[1..] == rest;
    var runs := HiddenRuns([first] + rest);
    assert runs[1..] == HiddenRuns(rest);
  }

  predicate AllLayout(t: string) { forall i | 0 <= i < |t| :: IsLayout(t[i]) }

  /** How many separators the span begins with. */
  function Lead(span: string): (k: nat)
    ensures k <= |span| && AllLayout(span[..k]) && (k < |span| ==> !IsLayout(span[k]))
  {
    if span == [] || !IsLayout(span[0]) then 0 else 1 + Lead(span[1..])
  }

  /** Nothing is left of `span` in `h` but separators, and those at its front stand where they stood. */
  ghost predicate Hides(span: string, h: string) {
    && (forall i | 0 <= i < |h| :: h[i] == MASK_CHAR || IsLayout(h[i]))
    && |h| >= |span| && h[..Lead(span)] == span[..Lead(span)]
    && if Lead(span) < |span| then h[Lead(span)] == MASK_CHAR else h == span
  }

  lemma RunHides(run: string)
    ensures Hides(run, HiddenRun(run))
  {
    LayoutFacts(MASK_CHAR);
    var k, h := Lead(run), Starred(run);
    assert forall i | 0 <= i < k :: run[..k][i] == run[i] == h[i];
    if k == |run| { assert MASK_CHAR !in h; }
  }

  lemma {:induction false} LeadOfJoin(front: string, rest: string)
    ensures Lead(front + " " + rest) == if Lead(front) < |front| then Lead(front) else |front| + 1 + Lead(rest)
  {
    if front != [] {
      LeadOfJoin(front[1..], rest);
      assert (front + " " + rest)[1..] == front[1..] + " " + rest;
    } else {
      assert (front + " " + rest)[1..] == rest;
    }
  }

  lemma {:induction false} SpanHides(span: string)
    ensures Hides(span, Hidden(span))
    decreases |span|
  {
    var k := FirstSpace(span);
    if k < |span| {
      var front, rest := span[..k], span[k + 1..];
      SpanHides(rest);
      RunHides(front);
      assert span == front + " " + rest;
      JoinHides(front, rest, HiddenRun(front), Hidden(rest), span, Hidden(span));
    } else {
      RunHides(span);
    }
  }

  lemma JoinHides(front: string, rest: string, hf: string, hr: string, span: string, h: string)
    requires Hides(front, hf) && Hides(rest, hr)
    requires span == front + " " + rest && h == hf + " " + hr
    ensures Hides(span, h)
  {
    LeadOfJoin(front, rest);
    var k := Lead(span);
    if Lead(front) < |front| {
      assert forall i | 0 <= i < k :: hf[i] == hf[..k][i] == front[..k][i];
    } else {
      assert h[..k] == front + " " + hr[..Lead(rest)];
      assert span[..k] == front + " " + rest[..Lead(rest)];
    }
  }

  lemma HiddenRunEnd(run: string)
    requires run != [] && !IsLayout(run[|run| - 1])
    ensures var h := HiddenRun(run); h != [] && h[|h| - 1] == MASK_CHAR
  {
    hide HasDouble, IsLayout;
  }

  /** A span that ends in a character that goes ends, hidden, in a star. */
  lemma {:induction false} HiddenEnd(span: string)
    requires span != [] && !IsLayout(span[|span| - 1])
    ensures var h := Hidden(span); h != [] && h[|h| - 1] == MASK_CHAR
    decreases |span|
  {
    hide HiddenRun, FirstSpace, IsLayout;
    LayoutFacts(' ');
    var k := FirstSpace(span);
    if k == |span| {
      HiddenRunEnd(span);
    } else {
      assert span[k] == ' ';
      HiddenEnd(span[k + 1..]);
    }
  }

  predicate GoTogether(run: string, i: nat) {
    i + 1 < |run| && !IsLayout(run[i]) && !IsLayout(run[i + 1])
  }

  /** A run with something to hide shows two stars side by side exactly when two of its characters that go
      stand together, or its last one goes: the second star is put at the end of the run, not beside the first. */
  lemma DoubleStarExactly(run: string)
    requires exists i | 0 <= i < |run| :: !IsLayout(run[i])
    ensures HasDouble(HiddenRun(run)) <==>
      !IsLayout(run[|run| - 1]) || exists i | 0 <= i < |run| :: GoTogether(run, i)
  {
    var h, r := Starred(run), HiddenRun(run);
    LayoutFacts(MASK_CHAR);
    var j :| 0 <= j < |run| && !IsLayout(run[j]);
    assert h[j] == MASK_CHAR;
    if i :| 0 <= i < |run| && GoTogether(run, i) {
      assert DoubleAt(h, i);
    } else if !IsLayout(run[|run| - 1]) {
      if !HasDouble(h) { assert DoubleAt(r, |run| - 1); }
    } else {
      assert forall i | 0 <= i < |run| :: DoubleAt(h, i) ==> GoTogether(run, i);
      forall i | 0 <= i < |r| ensures !DoubleAt(r, i) {
        if i + 1 < |run| { assert DoubleAt(r, i) ==> DoubleAt(h, i); }
      }
    }
  }
}
