/** `masking.mask`: personal data hidden in a text, pass after pass. */
module Masking {
  import opened Options
  import opened Characters
  import opened Reported
  import opened Overlaps

  // ---- Hiding one span ----------------------------------------------------------------------------------

  predicate IsNumeric(category: string) { category in {"phone", "rrn", "card", "account", "digits"} }

  /** What `str.isdigit` answers yes to: no separator and not the star. */
  type Digits = d: set<char> | MASK_CHAR !in d && forall c | c in d :: !IsLayout(c) witness {}

  /** How many of the first `n` characters are digits. */
  function DigitsBefore(value: string, n: nat, digit: Digits): (k: nat)
    requires n <= |value|
    ensures k <= n
  {
    if n == 0 then 0 else DigitsBefore(value, n - 1, digit) + if value[n - 1] in digit then 1 else 0
  }

  function DigitsOf(value: string, n: nat, digit: Digits): (r: string)
    requires n <= |value|
    ensures |r| == DigitsBefore(value, n, digit)
  {
    if n == 0 then [] else DigitsOf(value, n - 1, digit) + if value[n - 1] in digit then [value[n - 1]] else []
  }

  function Positions(lo: int, hi: int): (r: set<int>)
    ensures forall i :: i in r <==> lo <= i < hi
    decreases hi - lo
  {
    if hi <= lo then {} else Positions(lo, hi - 1) + {hi - 1}
  }

  /** `_digits_to_keep`. */
  function DigitsToKeep(category: string, digits: string): set<int> {
    if category == "rrn" then {6}
    else if category == "digits" then {}
    else
      var count := |digits|;
      var positions := Positions(0, count);
      var tail := positions * Positions(count - 4, count);
      var mobile := category == "phone" && count >= 2 && digits[..2] == "01";
      var keep := if mobile then tail + positions * {0, 1, 2} else tail;
      if keep == positions then {} else keep
  }

  lemma LosesOne(category: string, digits: string) returns (k: nat)
    requires |digits| > 0
    ensures k < |digits| && k !in DigitsToKeep(category, digits)
  {
    var keep, positions := DigitsToKeep(category, digits), Positions(0, |digits|);
    if 0 !in keep {
      k := 0;
    } else {
      assert keep <= positions && keep != positions;
      assert positions - keep != {};
      var lost: int :| lost in positions - keep;
      k := lost;
    }
  }

  /** How many of the first `n` digits are kept. */
  ghost function HowMany(keep: set<int>, n: nat): nat {
    if n == 0 then 0 else HowMany(keep, n - 1) + if n - 1 in keep then 1 else 0
  }

  /** Kept among the first `lead` and the last four of `count`, there are no more than that. */
  lemma {:induction false} HeadAndTail(keep: set<int>, lead: nat, count: nat, n: nat)
    requires forall i | i in keep :: i < lead || count - 4 <= i < count
    ensures HowMany(keep, n) <= (if n < lead then n else lead) +
      (if n <= count - 4 then 0 else if n <= count then n - (count - 4) else 4)
  {
    if n > 0 { HeadAndTail(keep, lead, count, n - 1); }
  }

  lemma {:induction false} OnlySix(n: nat)
    ensures HowMany({6}, n) == if n > 6 then 1 else 0
  {
    if n > 0 { OnlySix(n - 1); }
  }

  lemma KeepsAtMostSeven(category: string, digits: string)
    ensures HowMany(DigitsToKeep(category, digits), |digits|) <= 7
  {
    if category == "rrn" { OnlySix(|digits|); }
    else { HeadAndTail(DigitsToKeep(category, digits), 3, |digits|, |digits|); }
  }

  /** Written in two scripts: something is neither a digit nor a separator. */
  predicate Mixed(value: string, digit: Digits) {
    exists i | 0 <= i < |value| :: value[i] !in digit && !IsLayout(value[i])
  }

  function Stars(n: nat): (r: string)
    ensures |r| == n && forall i | 0 <= i < n :: r[i] == MASK_CHAR
  {
    seq(n, i requires 0 <= i => MASK_CHAR)
  }

  function FirstLetter(value: string): string { if value == [] then [] else [value[0]] + Stars(|value| - 1) }

  /** Where the first '@' stands, or the length of the text. */
  function AtSign(value: string): (k: nat)
    ensures k <= |value| && (k < |value| ==> value[k] == '@')
  {
    if value == [] || value[0] == '@' then 0 else 1 + AtSign(value[1..])
  }

  function HiddenEmail(value: string): string {
    var k := AtSign(value);
    (if k == 0 then [] else [value[0]]) + "***@" + if k < |value| then value[k + 1..] else []
  }

  function HiddenNumber(value: string, keep: set<int>, n: nat, digit: Digits): (r: string)
    requires n <= |value|
    ensures |r| == n
  {
    if n == 0 then [] else HiddenNumber(value, keep, n - 1, digit) + [HiddenAt(value, keep, n - 1, digit)]
  }

  function HiddenAt(value: string, keep: set<int>, i: nat, digit: Digits): char
    requires i < |value|
  {
    if value[i] !in digit then (if IsLayout(value[i]) then value[i] else MASK_CHAR)
    else if DigitsBefore(value, i, digit) in keep then value[i] else MASK_CHAR
  }

  predicate IsEmail(category: string, merged: bool) { category == "email" && !merged }

  function HiddenSpan(value: string, category: string, merged: bool, digit: Digits): string {
    if merged then (if IsNumeric(category) then Starred(value) else FirstLetter(value))
    else if category == "email" then HiddenEmail(value)
    else if !IsNumeric(category) then FirstLetter(value)
    else if Mixed(value, digit) then Starred(value)
    else HiddenNumber(value, DigitsToKeep(category, DigitsOf(value, |value|, digit)), |value|, digit)
  }

  /** `_hide`. */
  method Hide(value: string, category: string, merged: bool, digit: Digits) returns (out: string)
    ensures out == HiddenSpan(value, category, merged, digit)
  {
    if merged && IsNumeric(category) { return Starred(value); }
    if merged { return FirstLetter(value); }
    if category == "email" { return HiddenEmail(value); }
    if !IsNumeric(category) { return FirstLetter(value); }
    if Mixed(value, digit) { return Starred(value); }
    var digits := DigitsOf(value, |value|, digit);
    var keep := DigitsToKeep(category, digits);
    out := [];
    var index := 0;
    for i := 0 to |value|
      invariant out == HiddenNumber(value, keep, i, digit) && index == DigitsBefore(value, i, digit)
    {
      var c := value[i];
      if c !in digit {
        out := out + [if IsLayout(c) then c else MASK_CHAR];
        continue;
      }
      out := out + [if index in keep then c else MASK_CHAR];
      index := index + 1;
    }
  }

  /** Each character is unchanged or a star. */
  ghost predicate OnlyStarred(before: string, after: string) {
    |after| == |before| && forall i | 0 <= i < |before| :: StarredAt(before, after, i)
  }

  ghost predicate StarredAt(before: string, after: string, i: int)
    requires 0 <= i < |before| == |after|
  {
    after[i] == before[i] || after[i] == MASK_CHAR
  }

  lemma {:induction false} HiddenNumberAt(value: string, keep: set<int>, n: nat, digit: Digits, i: nat)
    requires i < n <= |value|
    ensures HiddenNumber(value, keep, n, digit)[i] == HiddenAt(value, keep, i, digit)
  {
    if i < n - 1 { HiddenNumberAt(value, keep, n - 1, digit, i); }
  }

  /** Hiding keeps the length and every character it does not star, of every span but an unmerged e-mail address. */
  lemma HidingOnlyStars(value: string, category: string, merged: bool, digit: Digits)
    requires !IsEmail(category, merged)
    ensures OnlyStarred(value, HiddenSpan(value, category, merged, digit))
  {
    var keep := DigitsToKeep(category, DigitsOf(value, |value|, digit));
    forall i: nat | i < |value|
      ensures HiddenNumber(value, keep, |value|, digit)[i] in {value[i], MASK_CHAR}
    {
      HiddenNumberAt(value, keep, |value|, digit, i);
    }
  }

  /** How many of the first `n` characters are digits that still stand. */
  ghost function DigitsStanding(value: string, hidden: string, n: nat, digit: Digits): nat
    requires n <= |value| == |hidden|
  {
    if n == 0 then 0
    else
      DigitsStanding(value, hidden, n - 1, digit) +
      if value[n - 1] in digit && hidden[n - 1] == value[n - 1] then 1 else 0
  }

  lemma {:induction false} StandingAreKept(value: string, keep: set<int>, n: nat, digit: Digits, hidden: string)
    requires n <= |value| && hidden == HiddenNumber(value, keep, |value|, digit)
    ensures DigitsStanding(value, hidden, n, digit) == HowMany(keep, DigitsBefore(value, n, digit))
  {
    if n > 0 {
      StandingAreKept(value, keep, n - 1, digit, hidden);
      HiddenNumberAt(value, keep, |value|, digit, n - 1);
    }
  }

  lemma {:induction false} NoneStanding(value: string, hidden: string, n: nat, digit: Digits)
    requires n <= |value| == |hidden| && forall i | 0 <= i < n && value[i] in digit :: hidden[i] == MASK_CHAR
    ensures DigitsStanding(value, hidden, n, digit) == 0
  {
    if n > 0 { NoneStanding(value, hidden, n - 1, digit); }
  }

  /** The `k`-th digit has a place. */
  lemma {:induction false} DigitAt(value: string, n: nat, digit: Digits, k: nat) returns (i: nat)
    requires n <= |value| && k < DigitsBefore(value, n, digit)
    ensures i < n && value[i] in digit && DigitsBefore(value, i, digit) == k
  {
    if value[n - 1] in digit && DigitsBefore(value, n - 1, digit) == k {
      i := n - 1;
    } else {
      i := DigitAt(value, n - 1, digit, k);
    }
  }

  lemma {:induction false} HasDigit(value: string, n: nat, digit: Digits, i: nat)
    requires i < n <= |value| && value[i] in digit
    ensures DigitsBefore(value, n, digit) > 0
  {
    if i < n - 1 { HasDigit(value, n - 1, digit, i); }
  }

  /** An unmerged numeric span that holds a digit loses one and keeps seven at most; a merged one keeps none. */
  lemma NumbersLoseADigit(value: string, category: string, merged: bool, digit: Digits, at: nat)
    requires IsNumeric(category) && at < |value| && value[at] in digit
    ensures var hidden := HiddenSpan(value, category, merged, digit);
      && |hidden| == |value| && DigitsStanding(value, hidden, |value|, digit) <= (if merged then 0 else 7)
      && exists i :: 0 <= i < |value| && value[i] in digit && hidden[i] == MASK_CHAR
  {
    var hidden, digits := HiddenSpan(value, category, merged, digit), DigitsOf(value, |value|, digit);
    if merged || Mixed(value, digit) {
      NoneStanding(value, hidden, |value|, digit);
    } else {
      var keep := DigitsToKeep(category, digits);
      HasDigit(value, |value|, digit, at);
      var k := LosesOne(category, digits);
      var i := DigitAt(value, |value|, digit, k);
      HiddenNumberAt(value, keep, |value|, digit, i);
      StandingAreKept(value, keep, |value|, digit, hidden);
      KeepsAtMostSeven(category, digits);
    }
  }

  // ---- What stands of a span ----------------------------------------------------------------------------

  /** How many digits stand before place `i`: the number, from 0, of a digit that stands there. */
  ghost function Number(value: string, digit: Digits, i: int): nat {
    |set j | 0 <= j < i && j < |value| && value[j] in digit|
  }

  lemma {:induction false} NumberIsDigitsBefore(value: string, digit: Digits, i: nat)
    requires i <= |value|
    ensures Number(value, digit, i) == DigitsBefore(value, i, digit)
  {
    var places := set j | 0 <= j < i && j < |value| && value[j] in digit;
    if i == 0 {
      assert places == {};
    } else {
      NumberIsDigitsBefore(value, digit, i - 1);
      var before := set j | 0 <= j < i - 1 && j < |value| && value[j] in digit;
      assert places == before + if value[i - 1] in digit then {i - 1} else {};
    }
  }

  /** The digits are a mobile number's: the first is '0' and the second '1'. */
  ghost predicate StartsMobile(value: string, digit: Digits) {
    && (exists i :: 0 <= i < |value| && value[i] in digit && value[i] == '0' && Number(value, digit, i) == 0)
    && (exists i :: 0 <= i < |value| && value[i] in digit && value[i] == '1' && Number(value, digit, i) == 1)
  }

  /** The digit at `i` of a number whose layout is known: of a resident number the seventh; of a run of digits nobody
      knows the shape of, none; of any other, the last four, and of a mobile number the first three as well, provided
      that there are more. */
  ghost predicate DigitStands(value: string, category: string, digit: Digits, i: nat) {
    var n, count := Number(value, digit, i), Number(value, digit, |value|);
    if category == "rrn" then n == 6
    else if category == "digits" then false
    else if category == "phone" && StartsMobile(value, digit) then count > 7 && (n < 3 || n >= count - 4)
    else count > 4 && n >= count - 4
  }

  /** The character at `i` is left as it is; every other is starred. */
  ghost predicate Stands(value: string, category: string, merged: bool, digit: Digits, i: nat)
    requires i < |value|
  {
    if category !in {"phone", "rrn", "card", "account", "digits"} then i == 0
    else if value[i] in digit then
      && !merged && (forall j | 0 <= j < |value| :: value[j] in digit || IsLayout(value[j]))
      && DigitStands(value, category, digit, i)
    else IsLayout(value[i])
  }

  lemma {:induction false} SecondDigit(value: string, digit: Digits, n: nat, i: nat)
    requires i < n <= |value| && value[i] in digit
    ensures var k := DigitsBefore(value, i, digit);
      k < DigitsBefore(value, n, digit) && DigitsOf(value, n, digit)[k] == value[i]
  {
    if i < n - 1 { SecondDigit(value, digit, n - 1, i); }
  }

  lemma MobileExactly(value: string, digit: Digits)
    ensures var digits := DigitsOf(value, |value|, digit);
      |digits| >= 2 && digits[..2] == "01" <==> StartsMobile(value, digit)
  {
    var n, digits := |value|, DigitsOf(value, |value|, digit);
    forall i: nat | i < n ensures Number(value, digit, i) == DigitsBefore(value, i, digit) {
      NumberIsDigitsBefore(value, digit, i);
    }
    forall i: nat | i < n && value[i] in digit
      ensures DigitsBefore(value, i, digit) < |digits| && digits[DigitsBefore(value, i, digit)] == value[i]
    {
      SecondDigit(value, digit, n, i);
    }
    if |digits| >= 2 && digits[..2] == "01" {
      var i := DigitAt(value, n, digit, 0);
      var j := DigitAt(value, n, digit, 1);
      assert digits[0] == digits[..2][0] && digits[1] == digits[..2][1];
    }
  }

  lemma ToKeepExactly(category: string, digits: string, k: nat)
    requires k < |digits|
    ensures k in DigitsToKeep(category, digits) <==>
      if category == "rrn" then k == 6
      else if category == "digits" then false
      else if category == "phone" && |digits| >= 2 && digits[..2] == "01"
      then |digits| > 7 && (k < 3 || k >= |digits| - 4)
      else |digits| > 4 && k >= |digits| - 4
  {
    if category != "rrn" && category != "digits" {
      var count: int := |digits|;
      var positions := Positions(0, count);
      var tail := positions * Positions(count - 4, count);
      var mobile := category == "phone" && count >= 2 && digits[..2] == "01";
      var keep := if mobile then tail + positions * {0, 1, 2} else tail;
      var first := if mobile then 3 else 0;
      if first < count - 4 {
        assert first in positions && first !in keep;
      } else {
        assert forall i | i in positions :: i in keep;
        assert keep == positions;
      }
    }
  }

  lemma KeptExactly(value: string, category: string, digit: Digits, i: nat)
    requires i < |value| && value[i] in digit
    ensures DigitsBefore(value, i, digit) in DigitsToKeep(category, DigitsOf(value, |value|, digit))
      <==> DigitStands(value, category, digit, i)
  {
    hide DigitsToKeep, DigitsOf, DigitsBefore, StartsMobile, Number;
    NumberIsDigitsBefore(value, digit, i);
    NumberIsDigitsBefore(value, digit, |value|);
    MobileExactly(value, digit);
    SecondDigit(value, digit, |value|, i);
    ToKeepExactly(category, DigitsOf(value, |value|, digit), DigitsBefore(value, i, digit));
  }

  /** What is left of a span. Of an unmerged e-mail address: its first character, when the '@' does not come first,
      and the domain. Of anything else: just the characters that stand, everything else being starred. */
  lemma HidesExactly(value: string, category: string, merged: bool, digit: Digits)
    ensures var hidden := HiddenSpan(value, category, merged, digit);
      if category == "email" && !merged then
        && (forall local, domain | value == local + "@" + domain && '@' !in local ::
              hidden == (if local == [] then [] else [local[0]]) + "***@" + domain)
        && ('@' !in value ==> hidden == (if value == [] then [] else [value[0]]) + "***@")
      else
        |hidden| == |value| && forall i | 0 <= i < |value| ::
          hidden[i] == if Stands(value, category, merged, digit, i) then value[i] else '*'
  {
    if category == "email" && !merged {
      forall local, domain | value == local + "@" + domain && '@' !in local
        ensures HiddenSpan(value, category, merged, digit) == (if local == [] then [] else [local[0]]) + "***@" + domain
      {
        AtSignIs(value, |local|);
      }
      if '@' !in value { AtSignIs(value, |value|); }
    } else if IsNumeric(category) && !merged && !Mixed(value, digit) {
      var keep := DigitsToKeep(category, DigitsOf(value, |value|, digit));
      forall i: nat | i < |value|
        ensures HiddenNumber(value, keep, |value|, digit)[i] ==
          if Stands(value, category, merged, digit, i) then value[i] else '*'
      {
        HiddenNumberAt(value, keep, |value|, digit, i);
        if value[i] in digit { KeptExactly(value, category, digit, i); }
      }
    }
  }

  lemma {:induction false} AtSignIs(value: string, k: nat)
    requires k <= |value| && (k < |value| ==> value[k] == '@') && '@' !in value[..k]
    ensures AtSign(value) == k
  {
    if k > 0 {
      assert value[0] == value[..k][0];
      assert value[1..][..k - 1] == value[..k][1..];
      AtSignIs(value[1..], k - 1);
    }
  }

  // ---- One pass -----------------------------------------------------------------------------------------

  /** What finds spans: `privacy.find_pii`, and a recogniser when there is one; and what a digit is. */
  datatype Detectors = Detectors(pii: string -> seq<Span>, recogniser: Option<string -> seq<Span>>, digit: Digits)

  function Found(d: Detectors, t: string): seq<Span> {
    d.pii(t) + match d.recogniser case Some(find) => find(t) case None => []
  }

  ghost predicate InText(t: string, spans: seq<Span>) {
    forall k | 0 <= k < |spans| :: 0 <= spans[k].start <= spans[k].end <= |t|
  }

  /** What is found in a text lies in it. */
  ghost predicate Sane(d: Detectors) { forall t :: InText(t, Found(d, t)) }

  ghost predicate Fits(t: string, regions: seq<Region>) {
    Spread(regions) && forall j | 0 <= j < |regions| :: 0 <= regions[j].start <= regions[j].end <= |t|
  }

  function Regions(d: Detectors, t: string): seq<Region> { Resolved(Found(d, t)) }

  lemma RegionsFit(d: Detectors, t: string)
    requires Sane(d)
    ensures Fits(t, Regions(d, t))
  {
    var spans, r := Found(d, t), Regions(d, t);
    assert InText(t, spans);
    CoversTheUnion(spans);
    forall j | 0 <= j < |r| ensures 0 <= r[j].start <= r[j].end <= |t| {
      assert On(r[j].start, r[j].end, 2 * r[j].start) && On(r[j].start, r[j].end, 2 * r[j].end);
      assert RegionOn(r, 2 * r[j].start) && RegionOn(r, 2 * r[j].end);
      assert SpanOn(spans, |spans|, 2 * r[j].start) && SpanOn(spans, |spans|, 2 * r[j].end);
    }
  }

  function HiddenRegion(t: string, r: Region, digit: Digits): string
    requires 0 <= r.start <= r.end <= |t|
  {
    HiddenSpan(t[r.start..r.end], r.category, r.merged, digit)
  }

  /** The text from `cursor` on, with the regions from `j` on hidden. */
  function MaskedFrom(t: string, regions: seq<Region>, j: nat, cursor: nat, digit: Digits): string
    requires Fits(t, regions) && j <= |regions| && cursor <= |t| && (j < |regions| ==> cursor <= regions[j].start)
    decreases |regions| - j
  {
    if j == |regions| then t[cursor..]
    else
      var r := regions[j];
      assert Apart(regions, j);
      t[cursor..r.start] + HiddenRegion(t, r, digit) + MaskedFrom(t, regions, j + 1, r.end, digit)
  }

  function MaskedText(d: Detectors, t: string): string
    requires Sane(d)
  {
    RegionsFit(d, t);
    MaskedFrom(t, Regions(d, t), 0, 0, d.digit)
  }

  /** The categories of the first `n` regions, counted. */
  function Categories(regions: seq<Region>, n: nat): multiset<string>
    requires n <= |regions|
  {
    if n == 0 then multiset{} else Categories(regions, n - 1) + multiset{regions[n - 1].category}
  }

  /** What a pass counts. */
  function Counted(d: Detectors, t: string): multiset<string> {
    Categories(Regions(d, t), |Regions(d, t)|)
  }

  /** `_mask_once`. */
  method MaskOnce(d: Detectors, t: string) returns (masked: string, counts: multiset<string>)
    requires Sane(d)
    ensures masked == MaskedText(d, t) && counts == Counted(d, t)
  {
    var spans := d.pii(t);
    if d.recogniser.Some? { spans := spans + d.recogniser.value(t); } else { assert spans == spans + []; }
    var kept := ResolveOverlaps(spans);
    RegionsFit(d, t);
    masked, counts := MaskRegions(t, kept, d.digit);
  }

  /** `masked` holds the first `j` regions hidden, and the text up to `cursor`. */
  ghost predicate Reached(t: string, kept: seq<Region>, digit: Digits, j: nat, cursor: nat, masked: string) {
    && Fits(t, kept) && j <= |kept| && cursor <= |t| && (j < |kept| ==> cursor <= kept[j].start)
    && MaskedFrom(t, kept, 0, 0, digit) == masked + MaskedFrom(t, kept, j, cursor, digit)
  }

  lemma ReachesNext(t: string, kept: seq<Region>, digit: Digits, j: nat, cursor: nat, masked: string, hidden: string)
    requires Reached(t, kept, digit, j, cursor, masked) && j < |kept| && hidden == HiddenRegion(t, kept[j], digit)
    ensures Reached(t, kept, digit, j + 1, kept[j].end, masked + t[cursor..kept[j].start] + hidden)
  {
    assert Apart(kept, j);
    var plain, rest := t[cursor..kept[j].start], MaskedFrom(t, kept, j + 1, kept[j].end, digit);
    assert masked + (plain + hidden + rest) == masked + plain + hidden + rest;
  }

  method MaskRegions(t: string, kept: seq<Region>, digit: Digits) returns (masked: string, counts: multiset<string>)
    requires Fits(t, kept)
    ensures masked == MaskedFrom(t, kept, 0, 0, digit) && counts == Categories(kept, |kept|)
  {
    masked, counts := [], multiset{};
    var cursor: nat := 0;
    for j := 0 to |kept|
      invariant Reached(t, kept, digit, j, cursor, masked)
      invariant counts == Categories(kept, j)
    {
      var r := kept[j];
      var hidden := Hide(t[r.start..r.end], r.category, r.merged, digit);
      ReachesNext(t, kept, digit, j, cursor, masked, hidden);
      masked := masked + t[cursor..r.start] + hidden;
      cursor := r.end;
      counts := counts + multiset{r.category};
    }
    masked := masked + t[cursor..];
  }

  /** No unmerged e-mail address is among the regions. */
  ghost predicate NoEmail(regions: seq<Region>)
  {
    forall j | 0 <= j < |regions| :: !IsEmail(regions[j].category, regions[j].merged)
  }

  predicate Within(r: Region, i: int) { r.start <= i < r.end }

  /** Where character `i` stands when it is hidden with its region, and elsewhere itself. */
  ghost predicate CharacterKept(t: string, regions: seq<Region>, digit: Digits, out: string, j: nat, cursor: int,
                                i: int)
    requires Fits(t, regions) && j <= |regions| && 0 <= cursor <= i < |t| && |out| == |t| - cursor
  {
    && ((forall k | j <= k < |regions| :: !Within(regions[k], i)) ==> out[i - cursor] == t[i])
    && forall k | j <= k < |regions| && Within(regions[k], i) ::
         |HiddenRegion(t, regions[k], digit)| == regions[k].end - regions[k].start
         && out[i - cursor] == HiddenRegion(t, regions[k], digit)[i - regions[k].start]
  }

  lemma {:induction false} MaskedFromAt(t: string, regions: seq<Region>, j: nat, cursor: nat, digit: Digits)
    requires Fits(t, regions) && j <= |regions| && cursor <= |t| && (j < |regions| ==> cursor <= regions[j].start)
    requires NoEmail(regions)
    ensures var out := MaskedFrom(t, regions, j, cursor, digit);
      |out| == |t| - cursor && forall i | cursor <= i < |t| :: CharacterKept(t, regions, digit, out, j, cursor, i)
    decreases |regions| - j
  {
    if j < |regions| {
      var r := regions[j];
      assert Apart(regions, j);
      MaskedFromAt(t, regions, j + 1, r.end, digit);
      HidingOnlyStars(t[r.start..r.end], r.category, r.merged, digit);
      var rest := MaskedFrom(t, regions, j + 1, r.end, digit);
      var out := MaskedFrom(t, regions, j, cursor, digit);
      assert out == t[cursor..r.start] + HiddenRegion(t, r, digit) + rest;
      forall i | cursor <= i < |t| ensures CharacterKept(t, regions, digit, out, j, cursor, i) {
        StepKept(t, regions, j, cursor, digit, rest, out, i);
      }
    }
  }

  lemma StepKept(t: string, regions: seq<Region>, j: nat, cursor: nat, digit: Digits, rest: string, out: string, i: int)
    requires Fits(t, regions) && j < |regions| && cursor <= regions[j].start && cursor <= i < |t|
    requires |HiddenRegion(t, regions[j], digit)| == regions[j].end - regions[j].start
    requires |rest| == |t| - regions[j].end
    requires out == t[cursor..regions[j].start] + HiddenRegion(t, regions[j], digit) + rest
    requires regions[j].end <= i ==> CharacterKept(t, regions, digit, rest, j + 1, regions[j].end, i)
    ensures CharacterKept(t, regions, digit, out, j, cursor, i)
  {
    hide HiddenRegion;
    var r := regions[j];
    forall k | j < k < |regions| ensures r.end < regions[k].start { RegionsApart(regions, j, k); }
    if i < r.start {
      assert out[i - cursor] == t[cursor..r.start][i - cursor];
    } else if i < r.end {
      assert out[i - cursor] == HiddenRegion(t, r, digit)[i - r.start];
    } else {
      assert out[i - cursor] == rest[i - r.end];
    }
  }

  /** Every character of `out` is kept as `CharacterKept` says. */
  ghost predicate AllKept(t: string, regions: seq<Region>, digit: Digits, out: string) {
    Fits(t, regions) && |out| == |t| && forall i | 0 <= i < |t| :: CharacterKept(t, regions, digit, out, 0, 0, i)
  }

  lemma EachCharacterStarred(t: string, regions: seq<Region>, digit: Digits, out: string)
    requires AllKept(t, regions, digit, out) && NoEmail(regions)
    ensures OnlyStarred(t, out)
  {
    hide StarredAt, HiddenRegion, CharacterKept;
    forall i | 0 <= i < |t| ensures StarredAt(t, out, i) { CharacterStarred(t, regions, digit, out, i); }
  }

  lemma CharacterStarred(t: string, regions: seq<Region>, digit: Digits, out: string, i: nat)
    requires AllKept(t, regions, digit, out) && NoEmail(regions) && i < |t|
    ensures StarredAt(t, out, i)
  {
    hide HiddenSpan;
    assert CharacterKept(t, regions, digit, out, 0, 0, i);
    if k :| 0 <= k < |regions| && Within(regions[k], i) {
      var r := regions[k];
      HidingOnlyStars(t[r.start..r.end], r.category, r.merged, digit);
      assert StarredAt(t[r.start..r.end], HiddenRegion(t, r, digit), i - r.start);
    }
  }

  lemma RegionStandsHidden(t: string, regions: seq<Region>, digit: Digits, out: string, k: nat)
    requires AllKept(t, regions, digit, out) && NoEmail(regions) && k < |regions|
    ensures out[regions[k].start..regions[k].end] == HiddenRegion(t, regions[k], digit)
  {
    var r := regions[k];
    HidingOnlyStars(t[r.start..r.end], r.category, r.merged, digit);
    var piece, hidden := out[r.start..r.end], HiddenRegion(t, r, digit);
    forall i | 0 <= i < |piece| ensures piece[i] == hidden[i] {
      assert CharacterKept(t, regions, digit, out, 0, 0, r.start + i);
      assert Within(regions[k], r.start + i);
    }
  }

  ghost predicate Outside(regions: seq<Region>, i: int) { forall k | 0 <= k < |regions| :: !Within(regions[k], i) }

  /** With no unmerged e-mail address found, a pass keeps the length, leaves every character outside the spans alone,
      and puts each span's hidden form where the span was, every character of it unchanged or a star. */
  lemma PassOnlyStars(d: Detectors, t: string)
    requires Sane(d) && NoEmail(Regions(d, t))
    ensures var out, regions := MaskedText(d, t), Regions(d, t);
      && OnlyStarred(t, out) && Fits(t, regions)
      && (forall i | 0 <= i < |t| && Outside(regions, i) :: out[i] == t[i])
      && (forall k | 0 <= k < |regions| ::
          out[regions[k].start..regions[k].end] == HiddenRegion(t, regions[k], d.digit))
  {
    RegionsFit(d, t);
    var out, regions := MaskedText(d, t), Regions(d, t);
    MaskedFromAt(t, regions, 0, 0, d.digit);
    assert AllKept(t, regions, d.digit, out);
    EachCharacterStarred(t, regions, d.digit, out);
    forall i | 0 <= i < |t| && Outside(regions, i) ensures out[i] == t[i] {
      assert CharacterKept(t, regions, d.digit, out, 0, 0, i);
    }
    forall k: nat | k < |regions|
      ensures out[regions[k].start..regions[k].end] == HiddenRegion(t, regions[k], d.digit)
    {
      RegionStandsHidden(t, regions, d.digit, out, k);
    }
  }

  // ---- Any step, again and again ------------------------------------------------------------------------

  function Iterate(f: string -> string, t: string, n: nat): string {
    if n == 0 then t else f(Iterate(f, t, n - 1))
  }

  lemma {:induction false} IterateShifts(f: string -> string, t: string, m: nat, n: nat)
    ensures Iterate(f, Iterate(f, t, m), n) == Iterate(f, t, m + n)
  {
    if n > 0 { IterateShifts(f, t, m, n - 1); }
  }

  lemma {:induction false} StaysFixed(f: string -> string, t: string, n: nat)
    requires f(t) == t
    ensures Iterate(f, t, n) == t
  {
    if n > 0 { StaysFixed(f, t, n - 1); }
  }

  /** How many characters are not stars. */
  function NotStars(t: string, n: nat): nat
    requires n <= |t|
  {
    if n == 0 then 0 else NotStars(t, n - 1) + if t[n - 1] == MASK_CHAR then 0 else 1
  }

  function Standing(t: string): nat { NotStars(t, |t|) }

  /** A step that stars or does nothing. */
  ghost predicate Lowers(before: string, after: string) {
    Standing(after) <= Standing(before) && (after != before ==> Standing(after) < Standing(before))
  }

  /** Every step from `t` on stars or does nothing. */
  ghost predicate AlwaysLowers(f: string -> string, t: string) {
    forall n: nat :: Lowers(Iterate(f, t, n), f(Iterate(f, t, n)))
  }

  lemma {:induction false} NeverMoreStanding(f: string -> string, t: string, m: nat, n: nat)
    requires AlwaysLowers(f, t) && m <= n
    ensures Standing(Iterate(f, t, n)) <= Standing(Iterate(f, t, m))
    decreases n
  {
    if m < n {
      NeverMoreStanding(f, t, m, n - 1);
      assert Lowers(Iterate(f, t, n - 1), f(Iterate(f, t, n - 1)));
    }
  }

  lemma {:induction false} ComesToRest(f: string -> string, t: string, n: nat) returns (k: nat)
    requires AlwaysLowers(f, t) && Standing(Iterate(f, t, n)) + n <= Standing(t)
    ensures k <= Standing(t) && f(Iterate(f, t, k)) == Iterate(f, t, k)
    decreases Standing(Iterate(f, t, n))
  {
    var now := Iterate(f, t, n);
    assert Lowers(now, f(now));
    if f(now) == now { k := n; } else {
      assert Iterate(f, t, n + 1) == f(now);
      k := ComesToRest(f, t, n + 1);
    }
  }

  /** `n` steps from a text lead back to it just when one does. */
  lemma FixedExactly(f: string -> string, t: string, n: nat)
    requires AlwaysLowers(f, t) && n > 0
    ensures Iterate(f, t, n) == t <==> f(t) == t
  {
    if f(t) == t {
      StaysFixed(f, t, n);
    } else {
      assert Iterate(f, t, 0) == t && Iterate(f, t, 1) == f(t);
      assert Lowers(Iterate(f, t, 0), f(Iterate(f, t, 0)));
      NeverMoreStanding(f, t, 1, n);
    }
  }

  // ---- Pass after pass ----------------------------------------------------------------------------------

  const MAX_PASSES := 4

  function Pass(d: Detectors): string -> string
    requires Sane(d)
  {
    (t: string) => MaskedText(d, t)
  }

  /** The text after `n` passes. */
  function After(d: Detectors, t: string, n: nat): string
    requires Sane(d)
  {
    Iterate(Pass(d), t, n)
  }

  /** What is counted in at most `n` passes, stopping at the first that changes nothing. */
  function CountedIn(d: Detectors, t: string, n: nat): multiset<string>
    requires Sane(d)
    decreases n
  {
    if n == 0 || MaskedText(d, t) == t then multiset{} else Counted(d, t) + CountedIn(d, MaskedText(d, t), n - 1)
  }

  lemma {:induction false} OneEach(regions: seq<Region>, n: nat)
    requires n <= |regions|
    ensures |Categories(regions, n)| == n
  {
    if n > 0 { OneEach(regions, n - 1); }
  }

  lemma NothingFoundNothingChanged(d: Detectors, t: string)
    requires Sane(d) && Counted(d, t) == multiset{}
    ensures MaskedText(d, t) == t
  {
    OneEach(Regions(d, t), |Regions(d, t)|);
    assert t[0..] == t;
  }

  /** After `pass` passes that all changed the text, `masked` and `total` are what they left. */
  ghost predicate InPass(d: Detectors, t: string, pass: nat, masked: string, total: multiset<string>)
    requires Sane(d)
  {
    pass <= MAX_PASSES && masked == After(d, t, pass) &&
    CountedIn(d, t, MAX_PASSES) == total + CountedIn(d, masked, MAX_PASSES - pass)
  }

  lemma Stops(d: Detectors, t: string, pass: nat, masked: string, total: multiset<string>)
    requires Sane(d) && InPass(d, t, pass, masked, total) && MaskedText(d, masked) == masked
    ensures InPass(d, t, MAX_PASSES, masked, total)
  {
    StaysFixed(Pass(d), masked, MAX_PASSES - pass);
    IterateShifts(Pass(d), t, pass, MAX_PASSES - pass);
  }

  lemma GoesOn(d: Detectors, t: string, pass: nat, masked: string, total: multiset<string>, next: string,
               counts: multiset<string>)
    requires Sane(d) && InPass(d, t, pass, masked, total) && pass < MAX_PASSES
    requires next == MaskedText(d, masked) != masked && counts == Counted(d, masked)
    ensures InPass(d, t, pass + 1, next, total + counts)
  {
  }

  /** `mask`: its text is that of four passes, and it counts what was found until a pass changed nothing. */
  method Mask(d: Detectors, t: string) returns (masked: string, total: multiset<string>)
    requires Sane(d)
    ensures masked == After(d, t, MAX_PASSES) && total == CountedIn(d, t, MAX_PASSES)
  {
    masked, total := t, multiset{};
    for pass := 0 to MAX_PASSES
      invariant InPass(d, t, pass, masked, total)
    {
      var next, counts := MaskOnce(d, masked);
      if counts == multiset{} || next == masked {
        if counts == multiset{} { NothingFoundNothingChanged(d, masked); }
        Stops(d, t, pass, masked, total);
        break;
      }
      GoesOn(d, t, pass, masked, total, next, counts);
      total := total + counts;
      masked := next;
    }
  }

  lemma {:induction false} StarringLowers(before: string, after: string, n: nat)
    requires OnlyStarred(before, after) && n <= |before|
    ensures NotStars(after, n) <= NotStars(before, n)
    ensures before[..n] != after[..n] ==> NotStars(after, n) < NotStars(before, n)
  {
    if n > 0 {
      StarringLowers(before, after, n - 1);
      assert StarredAt(before, after, n - 1);
      assert before[..n] == before[..n - 1] + [before[n - 1]] && after[..n] == after[..n - 1] + [after[n - 1]];
    }
  }

  /** A pass that finds no unmerged e-mail address and changes the text lowers the number of characters that are not
      stars. */
  lemma ChangingPassLowers(d: Detectors, t: string)
    requires Sane(d) && NoEmail(Regions(d, t))
    ensures |MaskedText(d, t)| == |t| && Lowers(t, MaskedText(d, t))
  {
    PassOnlyStars(d, t);
    var out := MaskedText(d, t);
    StarringLowers(t, out, |t|);
    assert t[..|t|] == t && out[..|t|] == out;
  }

  /** No pass from `t` on finds an unmerged e-mail address. */
  ghost predicate NeverEmail(d: Detectors, t: string)
    requires Sane(d)
  {
    forall n: nat :: NoEmail(Regions(d, After(d, t, n)))
  }

  lemma PassesLower(d: Detectors, t: string)
    requires Sane(d) && NeverEmail(d, t)
    ensures AlwaysLowers(Pass(d), t)
  {
    forall n: nat ensures Lowers(Iterate(Pass(d), t, n), Pass(d)(Iterate(Pass(d), t, n))) {
      assert NoEmail(Regions(d, After(d, t, n)));
      ChangingPassLowers(d, After(d, t, n));
    }
  }

  /** Pass `k + 1` changes nothing: the loop's guard. */
  ghost predicate QuietPass(d: Detectors, t: string, k: nat)
    requires Sane(d)
  {
    MaskedText(d, After(d, t, k)) == After(d, t, k)
  }

  /** Without the cap the passes come to rest: once no pass finds an unmerged e-mail address, after no more of them
      than the text then has characters to star. */
  lemma PassesComeToRest(d: Detectors, t: string, m: nat) returns (k: nat)
    requires Sane(d) && NeverEmail(d, After(d, t, m))
    ensures m <= k <= m + Standing(After(d, t, m)) && QuietPass(d, t, k)
  {
    PassesLower(d, After(d, t, m));
    var n := ComesToRest(Pass(d), After(d, t, m), 0);
    k := m + n;
    IterateShifts(Pass(d), t, m, n);
  }

  /** Masking what `mask` returned changes nothing exactly when one of the first five passes over the text does, if
      no pass over what it returned finds an unmerged e-mail address; those before may. */
  lemma FixedPointExactly(d: Detectors, t: string)
    requires Sane(d) && NeverEmail(d, After(d, t, MAX_PASSES))
    ensures var masked := After(d, t, MAX_PASSES);
      After(d, masked, MAX_PASSES) == masked <==> exists k: nat :: k <= MAX_PASSES && QuietPass(d, t, k)
  {
    var masked := After(d, t, MAX_PASSES);
    PassesLower(d, masked);
    FixedExactly(Pass(d), masked, MAX_PASSES);
    assert MaskedText(d, masked) == masked <==> QuietPass(d, t, MAX_PASSES);
    if k: nat :| k <= MAX_PASSES && QuietPass(d, t, k) { StoppedIsFixed(d, t, k); }
  }

  /** When `mask` stops before its cap -- one of its passes changes nothing -- its result is a fixed point, e-mail
      addresses or not. */
  lemma StoppedIsFixed(d: Detectors, t: string, k: nat)
    requires Sane(d) && k <= MAX_PASSES && MaskedText(d, After(d, t, k)) == After(d, t, k)
    ensures var masked := After(d, t, MAX_PASSES); After(d, masked, MAX_PASSES) == masked == After(d, t, k)
  {
    IterateShifts(Pass(d), t, k, MAX_PASSES - k);
    StaysFixed(Pass(d), After(d, t, k), MAX_PASSES - k);
    StaysFixed(Pass(d), After(d, t, k), MAX_PASSES);
  }

  // ---- The cap is reached -------------------------------------------------------------------------------

  /** A recogniser that reports the first '1' it sees, and nothing else. */
  function FirstOne(t: string, i: nat): seq<Span>
    requires i <= |t|
    decreases |t| - i
  {
    if i == |t| then [] else if t[i] == '1' then [Span(i, i + 1, "digits")] else FirstOne(t, i + 1)
  }

  lemma {:induction false} FirstOneAt(t: string, i: nat, k: nat)
    requires i <= k < |t| && t[k] == '1' && forall j | i <= j < k :: t[j] != '1'
    ensures FirstOne(t, i) == [Span(k, k + 1, "digits")]
    decreases k - i
  {
    if i < k { FirstOneAt(t, i + 1, k); }
  }

  lemma {:induction false} FirstOneInText(t: string, i: nat)
    requires i <= |t|
    ensures InText(t, FirstOne(t, i))
    decreases |t| - i
  {
    if i < |t| && t[i] != '1' { FirstOneInText(t, i + 1); }
  }

  function Reporter(): Detectors {
    OneIsADigit();
    Detectors((t: string) => [], Some((t: string) => FirstOne(t, 0)), {'1'})
  }

  lemma OneIsADigit()
    ensures forall c | c in {'1'} :: !IsLayout(c)
  {
    LayoutFacts('1');
  }

  lemma ReporterIsSane()
    ensures Sane(Reporter())
  {
    forall t ensures InText(t, Found(Reporter(), t)) { FirstOneInText(t, 0); }
  }

  /** One pass of the reporter stars the first '1'. */
  lemma ReporterStars(k: nat, rest: string)
    requires Sane(Reporter())
    ensures MaskedText(Reporter(), Stars(k) + "1" + rest) == Stars(k) + "*" + rest
  {
    var d, t := Reporter(), Stars(k) + "1" + rest;
    FirstOneAt(t, 0, k);
    var s := Span(k, k + 1, "digits");
    assert Found(d, t) == [s];
    OneRegion(s);
    var r := Region(k, k + 1, "digits", false);
    assert Regions(d, t) == [r];
    assert t[k..k + 1] == "1";
    OneIsStarred(d.digit);
    RegionsFit(d, t);
    assert MaskedFrom(t, [r], 1, k + 1, d.digit) == t[k + 1..];
    assert MaskedText(d, t) == t[0..k] + "*" + t[k + 1..];
  }

  lemma OneRegion(s: Span)
    ensures Resolved([s]) == [Region(s.start, s.end, s.category, false)]
  {
    assert [s][1..] == [];
    assert Sorted([s]) == [s];
    assert Swept([s], 1) == [Entry(s.start, s.end, s.category, Length(s))];
  }

  lemma OneIsStarred(digit: Digits)
    requires digit == {'1'}
    ensures HiddenSpan("1", "digits", false, digit) == "*"
  {
    var value, keep := "1", DigitsToKeep("digits", DigitsOf("1", 1, digit));
    assert HiddenNumber(value, keep, 1, digit) ==
      HiddenNumber(value, keep, 0, digit) + [HiddenAt(value, keep, 0, digit)];
  }

  function Ones(n: nat): (r: string)
    ensures |r| == n && forall i | 0 <= i < n :: r[i] == '1'
  {
    seq(n, i requires 0 <= i => '1')
  }

  /** `f` stars the first of the ones, and stars stay stars. */
  ghost predicate StarsOne(f: string -> string, k: nat, j: nat)
  {
    f(Stars(k) + "1" + Ones(j)) == Stars(k) + "*" + Ones(j)
  }

  ghost predicate StarsStay(f: string -> string, k: nat) { f(Stars(k)) == Stars(k) }

  ghost predicate StarsOneByOne(f: string -> string) {
    (forall k: nat, j: nat :: StarsOne(f, k, j)) && forall k: nat :: StarsStay(f, k)
  }

  /** `n` passes star the first `n` of `m` ones. */
  lemma {:induction false} StarredOneByOne(f: string -> string, m: nat, n: nat)
    requires StarsOneByOne(f)
    ensures Iterate(f, Ones(m), n) == if n <= m then Stars(n) + Ones(m - n) else Stars(m)
  {
    if n == 0 {
      assert Stars(0) + Ones(m) == Ones(m);
    } else {
      StarredOneByOne(f, m, n - 1);
      if n <= m {
        assert Stars(n - 1) + Ones(m - n + 1) == Stars(n - 1) + "1" + Ones(m - n);
        assert StarsOne(f, n - 1, m - n);
        assert Stars(n - 1) + "*" + Ones(m - n) == Stars(n) + Ones(m - n);
      } else {
        assert Stars(m) + Ones(0) == Stars(m);
        assert StarsStay(f, m);
      }
    }
  }

  lemma CappedRun(f: string -> string, m: nat, n: nat)
    requires StarsOneByOne(f) && m > n > 0
    ensures var masked := Iterate(f, Ones(m), n); masked == Stars(n) + Ones(m - n) && Iterate(f, masked, n) != masked
  {
    StarredOneByOne(f, m, n);
    StarredOneByOne(f, m, n + n);
    IterateShifts(f, Ones(m), n, n);
    assert Iterate(f, Ones(m), n + n)[n] == '*';
  }

  lemma ReporterStarsOneByOne()
    requires Sane(Reporter())
    ensures StarsOneByOne(Pass(Reporter()))
  {
    var f := Pass(Reporter());
    forall k: nat, j: nat ensures StarsOne(f, k, j) { ReporterStars(k, Ones(j)); }
    forall k: nat ensures StarsStay(f, k) { NoOneLeft(k); }
  }

  lemma NoOneLeft(m: nat)
    requires Sane(Reporter())
    ensures MaskedText(Reporter(), Stars(m)) == Stars(m)
  {
    NoOne(Stars(m), 0);
    assert Found(Reporter(), Stars(m)) == [];
    assert Regions(Reporter(), Stars(m)) == [];
    assert Stars(m)[0..] == Stars(m);
  }

  lemma {:induction false} NoOne(t: string, i: nat)
    requires i <= |t| && '1' !in t
    ensures FirstOne(t, i) == []
    decreases |t| - i
  {
    if i < |t| { NoOne(t, i + 1); }
  }

  /** The cap matters: of more ones than it allows passes the reporter has starred one a pass when `mask` returns, and
      masking again changes the text. */
  lemma CappedIsNotFixed(m: nat)
    requires m > MAX_PASSES
    ensures Sane(Reporter())
    ensures var masked := After(Reporter(), Ones(m), MAX_PASSES);
      masked == Stars(4) + Ones(m - 4) && After(Reporter(), masked, MAX_PASSES) != masked
  {
    ReporterIsSane();
    ReporterStarsOneByOne();
    CappedRun(Pass(Reporter()), m, MAX_PASSES);
  }

  // ---- An e-mail address that comes back -----------------------------------------------------------------

  const AS_NAME := "a***@"
  const AS_EMAIL := "a****"

  /** A recogniser that takes the one text for a name and the other for an e-mail address. */
  function Wavering(): Detectors {
    Detectors((t: string) => [], Some((t: string) =>
      if t == AS_NAME then [Span(0, 5, "name")] else if t == AS_EMAIL then [Span(0, 5, "email")] else []), {})
  }

  lemma WaveringIsSane()
    ensures Sane(Wavering())
  {
    forall t ensures InText(t, Found(Wavering(), t)) { assert |AS_NAME| == 5 && |AS_EMAIL| == 5; }
  }

  /** A text that is one span is hidden whole. */
  lemma WholeIsHidden(d: Detectors, t: string, category: string)
    requires Sane(d) && Found(d, t) == [Span(0, |t|, category)]
    ensures MaskedText(d, t) == HiddenSpan(t, category, false, d.digit)
  {
    hide HiddenSpan;
    var s := Span(0, |t|, category);
    OneRegion(s);
    var r := Region(0, |t|, category, false);
    assert Regions(d, t) == [r];
    RegionsFit(d, t);
    assert t[0..|t|] == t && t[0..0] == [] && t[|t|..] == [];
    assert MaskedFrom(t, [r], 1, |t|, d.digit) == [];
    assert MaskedFrom(t, [r], 0, 0, d.digit) == t[0..0] + HiddenRegion(t, r, d.digit) + [];
  }

  lemma WaveringTurns()
    requires Sane(Wavering())
    ensures MaskedText(Wavering(), AS_NAME) == AS_EMAIL && MaskedText(Wavering(), AS_EMAIL) == AS_NAME
  {
    hide MaskedText, Regions;
    var d := Wavering();
    assert AS_NAME[4] == '@' && AS_EMAIL[4] == '*';
    assert Found(d, AS_NAME) == [Span(0, |AS_NAME|, "name")] && Found(d, AS_EMAIL) == [Span(0, |AS_EMAIL|, "email")];
    WholeIsHidden(d, AS_NAME, "name");
    WholeIsHidden(d, AS_EMAIL, "email");
    assert FirstLetter(AS_NAME) == AS_EMAIL;
    NoAtSign(AS_EMAIL);
    assert HiddenEmail(AS_EMAIL) == AS_NAME;
  }

  lemma {:induction false} NoAtSign(value: string)
    requires '@' !in value
    ensures AtSign(value) == |value|
  {
    if value != [] { NoAtSign(value[1..]); }
  }

  lemma {:induction false} WaversOn(n: nat)
    requires Sane(Wavering())
    ensures After(Wavering(), AS_NAME, n) == if n % 2 == 0 then AS_NAME else AS_EMAIL
  {
    hide MaskedText;
    WaveringTurns();
    if n > 0 { WaversOn(n - 1); }
  }

  /** Why e-mail addresses are left aside: with this recogniser masking the result again changes nothing, yet no pass
      ever changes nothing, and a pass makes more characters stand. */
  lemma EmailsMayWaver(k: nat)
    ensures Sane(Wavering())
    ensures var masked := After(Wavering(), AS_NAME, MAX_PASSES); After(Wavering(), masked, MAX_PASSES) == masked
    ensures !QuietPass(Wavering(), AS_NAME, k)
    ensures Standing(MaskedText(Wavering(), AS_EMAIL)) > Standing(AS_EMAIL)
  {
    hide MaskedText;
    WaveringIsSane();
    WaveringTurns();
    WaversOn(MAX_PASSES);
    WaversOn(k);
    assert AS_NAME[4] == '@' && AS_EMAIL[4] == '*';
    assert Standing(AS_NAME) == 2 && Standing(AS_EMAIL) == 1 by { StandingOfEach(); }
  }

  lemma StandingOfEach()
    ensures Standing(AS_NAME) == 2 && Standing(AS_EMAIL) == 1
  {
    assert NotStars(AS_NAME, 1) == 1 && NotStars(AS_NAME, 3) == 1 && NotStars(AS_NAME, 4) == 1;
    assert NotStars(AS_EMAIL, 1) == 1 && NotStars(AS_EMAIL, 3) == 1 && NotStars(AS_EMAIL, 4) == 1;
  }
}
