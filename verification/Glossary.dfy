/** The recogniser's glossary prompt (`glossary.py`): which terms fit a token budget, and in which order they go. */
module Glossary {
  import opened Characters

  // ---- The estimate -------------------------------------------------------------------------------------

  /** The first character of a run of Latin letters and digits stands at `i`. */
  predicate OpensPiece(t: string, i: nat)
    requires i < |t|
  {
    IsAlnum(t[i]) && (i == 0 || !IsAlnum(t[i - 1]))
  }

  /** Four for each run of Latin letters and digits, two for each Hangul syllable, among the first `n` characters. */
  function EstimateUpTo(t: string, n: nat): nat
    requires n <= |t|
  {
    if n == 0 then 0
    else EstimateUpTo(t, n - 1) + (if IsHangul(t[n - 1]) then 2 else 0) + (if OpensPiece(t, n - 1) then 4 else 0)
  }

  /** `estimate_tokens`. */
  function Estimate(t: string): nat { EstimateUpTo(t, |t|) }

  /** A run goes on from the end of `a` into `b`. */
  predicate RunsOn(a: string, b: string) { a != [] && b != [] && IsAlnum(a[|a| - 1]) && IsAlnum(b[0]) }

  lemma {:induction false} EstimateOfFront(a: string, b: string, n: nat)
    requires n <= |a|
    ensures EstimateUpTo(a + b, n) == EstimateUpTo(a, n)
  {
    if n > 0 { EstimateOfFront(a, b, n - 1); }
  }

  lemma {:induction false} EstimateOfBack(a: string, b: string, n: nat)
    requires n <= |b|
    ensures EstimateUpTo(a + b, |a| + n) + (if n > 0 && RunsOn(a, b) then 4 else 0) == Estimate(a) + EstimateUpTo(b, n)
  {
    if n == 0 {
      EstimateOfFront(a, b, |a|);
    } else {
      EstimateOfBack(a, b, n - 1);
      var t, i := a + b, |a| + n - 1;
      assert t[i] == b[n - 1];
      assert i > 0 ==> t[i - 1] == if n == 1 then a[|a| - 1] else b[n - 2];
    }
  }

  /** The estimate of two texts put together is the sum of theirs, less the one run that goes on from one into the
      other. */
  lemma EstimateAdds(a: string, b: string)
    ensures Estimate(a + b) + (if RunsOn(a, b) then 4 else 0) == Estimate(a) + Estimate(b)
  {
    EstimateOfBack(a, b, |b|);
  }

  /** Where the Hangul syllables stand among the first `n` characters. */
  ghost function Syllables(t: string, n: nat): set<nat> {
    set i: nat | i < n && i < |t| && '\U{AC00}' <= t[i] <= '\U{D7A3}'
  }

  ghost predicate LatinOrDigit(c: char) { 'a' <= c <= 'z' || 'A' <= c <= 'Z' || '0' <= c <= '9' }

  ghost predicate BeginsRun(t: string, i: nat) {
    i < |t| && LatinOrDigit(t[i]) && (i > 0 ==> !LatinOrDigit(t[i - 1]))
  }

  /** Where a run of Latin letters and digits begins among them. */
  ghost function Runs(t: string, n: nat): set<nat> { set i: nat | i < n && BeginsRun(t, i) }

  lemma OneSyllableMore(t: string, n: nat)
    requires n < |t|
    ensures |Syllables(t, n + 1)| == |Syllables(t, n)| + if IsHangul(t[n]) then 1 else 0
  {
    assert Syllables(t, n + 1) == Syllables(t, n) + if IsHangul(t[n]) then {n} else {};
  }

  lemma OneRunMore(t: string, n: nat)
    requires n < |t|
    ensures |Runs(t, n + 1)| == |Runs(t, n)| + if OpensPiece(t, n) then 1 else 0
  {
    assert Runs(t, n + 1) == Runs(t, n) + if OpensPiece(t, n) then {n} else {};
  }

  lemma NothingYet(t: string, n: nat)
    ensures n == 0 ==> Syllables(t, n) == {} == Runs(t, n)
  {
  }

  /** The estimate is two for each Hangul syllable and four for each run of Latin letters and digits. */
  lemma {:induction false} EstimateExactly(t: string, n: nat)
    requires n <= |t|
    ensures EstimateUpTo(t, n) == 2 * |Syllables(t, n)| + 4 * |Runs(t, n)|
  {
    hide Syllables, Runs, OpensPiece, IsHangul;
    NothingYet(t, n);
    if n > 0 {
      EstimateExactly(t, n - 1);
      OneSyllableMore(t, n - 1);
      OneRunMore(t, n - 1);
    }
  }

  // ---- Each term once -----------------------------------------------------------------------------------

  /** A later value is the same term. */
  predicate ComesAgain(flat: seq<string>, i: nat, fold: string -> string)
    requires i < |flat|
  {
    exists j | i < j < |flat| :: flat[j] != [] && fold(flat[j]) == fold(flat[i])
  }

  /** The terms, from `i` on, that do not come again, in order. */
  function LastOnly(flat: seq<string>, i: nat, fold: string -> string): seq<string>
    requires i <= |flat|
    decreases |flat| - i
  {
    if i == |flat| then []
    else (if flat[i] != [] && !ComesAgain(flat, i, fold) then [flat[i]] else []) + LastOnly(flat, i + 1, fold)
  }

  function Reversed(terms: seq<string>): (r: seq<string>)
    ensures |r| == |terms|
  {
    if terms == [] then [] else [terms[|terms| - 1]] + Reversed(terms[..|terms| - 1])
  }

  lemma {:induction false} ReversedAt(terms: seq<string>, k: nat)
    requires k < |terms|
    ensures Reversed(terms)[k] == terms[|terms| - 1 - k]
  {
    if k > 0 { ReversedAt(terms[..|terms| - 1], k - 1); }
  }

  lemma ReversedSnoc(terms: seq<string>, term: string)
    ensures Reversed(terms + [term]) == [term] + Reversed(terms)
  {
    assert (terms + [term])[..|terms|] == terms;
  }

  function StripAll(values: seq<string>): (r: seq<string>)
    ensures |r| == |values| && forall i | 0 <= i < |r| :: r[i] == Strip(values[i])
  {
    seq(|values|, i requires 0 <= i < |values| => Strip(values[i]))
  }

  /** The keys of the terms from `i` on. */
  ghost predicate SeenFrom(flat: seq<string>, i: nat, fold: string -> string, seen: set<string>) {
    forall key :: key in seen <==> exists j | i <= j < |flat| :: flat[j] != [] && fold(flat[j]) == key
  }

  lemma SeesOneMore(flat: seq<string>, i: nat, fold: string -> string, seen: set<string>)
    requires i < |flat| && SeenFrom(flat, i + 1, fold, seen)
    ensures flat[i] != [] ==> (fold(flat[i]) in seen <==> ComesAgain(flat, i, fold))
    ensures SeenFrom(flat, i, fold, if flat[i] != [] then seen + {fold(flat[i])} else seen)
    ensures flat[i] != [] && fold(flat[i]) in seen ==> seen + {fold(flat[i])} == seen
  {
  }

  /** `_dedupe`, `fold` being the case folding. */
  method Dedupe(values: seq<string>, fold: string -> string) returns (terms: seq<string>)
    ensures terms == LastOnly(StripAll(values), 0, fold)
  {
    var flat := StripAll(values);
    var seen: set<string>, out: seq<string> := {}, [];
    var i := |flat|;
    while i > 0
      invariant 0 <= i <= |flat| && Reversed(out) == LastOnly(flat, i, fold)
      invariant SeenFrom(flat, i, fold, seen)
    {
      hide SeenFrom, Reversed, ComesAgain;
      i := i - 1;
      var value := flat[i];
      var key := fold(value);
      SeesOneMore(flat, i, fold, seen);
      if value != [] && key !in seen {
        ReversedSnoc(out, value);
        out := out + [value];
        seen := seen + {key};
      }
    }
    terms := Reversed(out);
  }

  /** `terms` are the values at `at`, which are the places, from `i` on, of the values that do not come again. */
  ghost predicate AreLast(flat: seq<string>, i: nat, fold: string -> string, terms: seq<string>, at: seq<nat>) {
    && |at| == |terms|
    && (forall k | 0 <= k < |at| :: i <= at[k] < |flat| && terms[k] == flat[at[k]])
    && (forall k, l | 0 <= k < l < |at| :: at[k] < at[l])
    && (forall j: nat :: j in at <==> i <= j < |flat| && flat[j] != [] && !ComesAgain(flat, j, fold))
  }

  lemma IsLastToo(flat: seq<string>, i: nat, fold: string -> string, terms: seq<string>, at: seq<nat>)
    requires i < |flat| && AreLast(flat, i + 1, fold, terms, at) && flat[i] != [] && !ComesAgain(flat, i, fold)
    ensures AreLast(flat, i, fold, [flat[i]] + terms, [i] + at)
  {
    hide ComesAgain;
  }

  lemma IsNotLast(flat: seq<string>, i: nat, fold: string -> string, terms: seq<string>, at: seq<nat>)
    requires i < |flat| && AreLast(flat, i + 1, fold, terms, at) && (flat[i] == [] || ComesAgain(flat, i, fold))
    ensures AreLast(flat, i, fold, terms, at)
  {
    hide ComesAgain;
  }

  /** What `_dedupe` keeps: the values that are no repeats, each at the place and with the spelling of its last
      occurrence. */
  lemma {:induction false} LastOnlyAt(flat: seq<string>, i: nat, fold: string -> string) returns (at: seq<nat>)
    requires i <= |flat|
    ensures AreLast(flat, i, fold, LastOnly(flat, i, fold), at)
    decreases |flat| - i
  {
    if i == |flat| {
      at := [];
    } else {
      hide ComesAgain, AreLast;
      var rest := LastOnlyAt(flat, i + 1, fold);
      if flat[i] != [] && !ComesAgain(flat, i, fold) {
        at := [i] + rest;
        IsLastToo(flat, i, fold, LastOnly(flat, i + 1, fold), rest);
      } else {
        at := rest;
        assert [] + LastOnly(flat, i + 1, fold) == LastOnly(flat, i + 1, fold);
        IsNotLast(flat, i, fold, LastOnly(flat, i + 1, fold), rest);
      }
    }
  }

  /** No two terms that are kept are the same but for their case, and every value is the same as one that is kept. */
  lemma EachTermOnce(flat: seq<string>, fold: string -> string, terms: seq<string>, at: seq<nat>)
    requires AreLast(flat, 0, fold, terms, at)
    ensures forall k, l | 0 <= k < l < |terms| :: fold(terms[k]) != fold(terms[l])
    ensures forall j | 0 <= j < |flat| && flat[j] != [] ::
      exists k :: 0 <= k < |terms| && fold(terms[k]) == fold(flat[j])
  {
    forall k, l | 0 <= k < l < |terms| ensures fold(terms[k]) != fold(terms[l]) {
      assert at[k] in at && at[l] in at;
    }
    forall j: nat | j < |flat| && flat[j] != []
      ensures exists k :: 0 <= k < |terms| && fold(terms[k]) == fold(flat[j])
    {
      var k := LastPlace(flat, fold, j);
      assert k in at;
      var m :| 0 <= m < |at| && at[m] == k;
      assert fold(terms[m]) == fold(flat[j]);
    }
  }

  lemma {:induction false} LastPlace(flat: seq<string>, fold: string -> string, j: nat) returns (k: nat)
    requires j < |flat| && flat[j] != []
    ensures k < |flat| && flat[k] != [] && fold(flat[k]) == fold(flat[j]) && !ComesAgain(flat, k, fold)
    decreases |flat| - j
  {
    if ComesAgain(flat, j, fold) {
      var l :| j < l < |flat| && flat[l] != [] && fold(flat[l]) == fold(flat[j]);
      k := LastPlace(flat, fold, l);
    } else {
      k := j;
    }
  }

  // ---- What fits ----------------------------------------------------------------------------------------

  /** A term's cost, its separator included. */
  function Cost(term: string): nat { Estimate(term) + 1 }

  datatype Packed = Packed(kept: seq<string>, used: nat)

  /** The first `n` terms of `order`, most important first, packed as far as the budget allows. */
  function Pack(order: seq<string>, n: nat, start: nat, budget: int): Packed
    requires n <= |order|
  {
    if n == 0 then Packed([], start)
    else
      var before := Pack(order, n - 1, start, budget);
      var term := order[n - 1];
      if before.used + Cost(term) > budget then before else Packed(before.kept + [term], before.used + Cost(term))
  }

  /** The framing sentence, up to the terms. */
  const PREFIX := "\U{D68C}\U{C758} \U{B179}\U{CDE8}\U{B85D}. \U{C0AC}\U{C6A9} \U{C6A9}\U{C5B4}: "

  /** `", ".join(terms)`. */
  function Listed(terms: seq<string>): string {
    if terms == [] then []
    else if |terms| == 1 then terms[0] else Listed(terms[..|terms| - 1]) + ", " + terms[|terms| - 1]
  }

  /** A comma and a space stand between any two of the terms, and nothing else is added. */
  lemma {:induction false} ListedJoins(a: seq<string>, b: seq<string>)
    requires a != [] && b != []
    ensures Listed(a + b) == Listed(a) + ", " + Listed(b) && (|b| == 1 ==> Listed(b) == b[0])
  {
    var front, last := b[..|b| - 1], b[|b| - 1];
    assert (a + b)[..|a + b| - 1] == a + front && (a + b)[|a + b| - 1] == last;
    if |b| == 1 {
      assert a + front == a;
    } else {
      ListedJoins(a, front);
      assert Listed(a) + ", " + Listed(front) + ", " + last == Listed(a) + ", " + (Listed(front) + ", " + last);
    }
  }

  function PromptOf(terms: seq<string>): string { PREFIX + Listed(terms) + "." }

  /** `build_prompt`: the values least to most important, for the channel that keeps its tail (`prompt`) or its head. */
  method BuildPrompt(terms: seq<string>, corrections: seq<string>, participants: seq<string>, tail: bool, budget: int,
                     fold: string -> string) returns (text: string, kept: seq<string>)
    ensures var ordered := LastOnly(StripAll(terms + corrections + participants), 0, fold);
      if ordered == [] then text == [] && kept == []
      else kept == Pack(Reversed(ordered), |ordered|, Estimate(PREFIX), budget).kept
           && text == PromptOf(if tail then Reversed(kept) else kept)
  {
    hide LastOnly, StripAll, Estimate;
    var ordered := Dedupe(terms + corrections + participants, fold);
    if ordered == [] { return [], []; }
    var order := Reversed(ordered);
    kept := [];
    var used: nat := Estimate(PREFIX);
    for n := 0 to |order|
      invariant Packed(kept, used) == Pack(order, n, Estimate(PREFIX), budget)
    {
      var cost := Estimate(order[n]) + 1;
      if used + cost > budget { continue; }
      kept := kept + [order[n]];
      used := used + cost;
    }
    text := PREFIX + Listed(if tail then Reversed(kept) else kept) + ".";
  }

  /** A term is left out only because it no longer fits, with the room the more important ones left; and nothing that
      was left out would fit in the end. */
  lemma {:induction false} NothingDroppedFits(order: seq<string>, n: nat, start: nat, budget: int, i: nat)
    requires i < n <= |order|
    ensures order[i] in Pack(order, n, start, budget).kept ||
      Pack(order, i, start, budget).used + Cost(order[i]) > budget
    ensures Pack(order, i, start, budget).used <= Pack(order, n, start, budget).used
    ensures order[i] in Pack(order, n, start, budget).kept ||
      Pack(order, n, start, budget).used + Cost(order[i]) > budget
  {
    if i < n - 1 { NothingDroppedFits(order, n - 1, start, budget, i); }
  }

  function Total(terms: seq<string>): nat {
    if terms == [] then 0 else Total(terms[..|terms| - 1]) + Cost(terms[|terms| - 1])
  }

  lemma {:induction false} PackUses(order: seq<string>, n: nat, start: nat, budget: int)
    requires n <= |order|
    ensures var p := Pack(order, n, start, budget);
      p.used == start + Total(p.kept) && (p.kept == [] || p.used <= budget)
  {
    if n > 0 {
      PackUses(order, n - 1, start, budget);
      var before := Pack(order, n - 1, start, budget);
      assert (before.kept + [order[n - 1]])[..|before.kept|] == before.kept;
    }
  }

  lemma SeparatorIsFree(a: string, b: string)
    ensures Estimate(a + ", " + b) == Estimate(a) + Estimate(b) && Estimate(a + ".") == Estimate(a)
  {
    EstimateAdds(a, ", ");
    EstimateAdds(a + ", ", b);
    EstimateAdds(a, ".");
    assert EstimateUpTo(", ", 1) == 0;
    assert Estimate(", ") == 0;
    assert EstimateUpTo(".", 0) == 0;
    assert Estimate(".") == 0;
  }

  lemma {:induction false} ListedCosts(terms: seq<string>)
    ensures Estimate(Listed(terms)) + |terms| == Total(terms)
  {
    if |terms| == 1 {
      assert terms[..0] == [];
    } else if terms != [] {
      ListedCosts(terms[..|terms| - 1]);
      SeparatorIsFree(Listed(terms[..|terms| - 1]), terms[|terms| - 1]);
    }
  }

  lemma PromptCosts(terms: seq<string>)
    ensures Estimate(PromptOf(terms)) + |terms| == Estimate(PREFIX) + Total(terms)
  {
    ListedCosts(terms);
    assert PREFIX[|PREFIX| - 1] == ' ';
    EstimateAdds(PREFIX, Listed(terms));
    SeparatorIsFree(PREFIX + Listed(terms), []);
  }

  lemma {:induction false} ReversedCosts(terms: seq<string>)
    ensures Total(Reversed(terms)) == Total(terms) && multiset(Reversed(terms)) == multiset(terms)
  {
    if terms != [] {
      var front, last := terms[..|terms| - 1], terms[|terms| - 1];
      ReversedCosts(front);
      TotalOfCons(last, Reversed(front));
      assert terms == front + [last];
    }
  }

  lemma {:induction false} TotalOfCons(term: string, rest: seq<string>)
    ensures Total([term] + rest) == Cost(term) + Total(rest)
  {
    var all := [term] + rest;
    if rest == [] {
      assert all[..0] == [];
    } else {
      assert all[..|all| - 1] == [term] + rest[..|rest| - 1];
      TotalOfCons(term, rest[..|rest| - 1]);
    }
  }

  /** On either channel the same terms go, each as often, and the prompt's own estimate is within the budget exactly
      when the framing sentence's is. */
  lemma PromptFitsExactly(order: seq<string>, budget: int)
    ensures var kept := Pack(order, |order|, Estimate(PREFIX), budget).kept;
      && multiset(Reversed(kept)) == multiset(kept) && Estimate(PromptOf(Reversed(kept))) == Estimate(PromptOf(kept))
      && (Estimate(PromptOf(kept)) <= budget <==> Estimate(PREFIX) <= budget)
  {
    var p := Pack(order, |order|, Estimate(PREFIX), budget);
    PackUses(order, |order|, Estimate(PREFIX), budget);
    ReversedCosts(p.kept);
    PromptCosts(p.kept);
    PromptCosts(Reversed(p.kept));
    EachCostsOne(p.kept);
  }

  lemma {:induction false} EachCostsOne(terms: seq<string>)
    ensures Total(terms) >= |terms|
  {
    if terms != [] { EachCostsOne(terms[..|terms| - 1]); }
  }
}
