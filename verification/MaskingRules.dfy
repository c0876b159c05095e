/** `masking_rules`: a team's rules, learned as shapes from reported misses and applied to later text. */
module MaskingRules {
  import opened Options
  import opened Characters
  import opened Replacement
  import opened Reported

  /** One of "-._/:". */
  predicate IsSeparator(c: char) { c == '-' || c == '.' || c == '_' || c == '/' || c == ':' }

  const MIN_CLASSED := 4
  const MAX_SHAPE := 64

  // ---- Shapes -------------------------------------------------------------------------------------

  function Placeholder(c: char): Option<char> {
    if IsAsciiDigit(c) then Some('#')
    else if IsUpper(c) then Some('A')
    else if IsLower(c) then Some('a')
    else if IsHangul(c) then Some('\U{AC00}')
    else None
  }

  /** One character of the shape: its class, or itself when it is a separator. */
  function Classed(c: char): Option<char> {
    if Placeholder(c).Some? then Placeholder(c) else if IsSeparator(c) then Some(c) else None
  }

  function DropHangul(value: string): string {
    if value != [] && IsHangul(value[|value| - 1]) then DropHangul(value[..|value| - 1]) else value
  }

  /** The classes of the first `n` characters, when they are classed characters and separators only. */
  function Classes(value: string, n: nat): (r: Option<string>)
    requires n <= |value|
    ensures r.Some? ==> |r.value| == n && forall i | 0 <= i < n :: Classed(value[i]) == Some(r.value[i])
    ensures r.None? ==> exists i | 0 <= i < n :: Classed(value[i]).None?
  {
    if n == 0 then Some([])
    else
      var rest := Classes(value, n - 1);
      var last := Classed(value[n - 1]);
      if rest.Some? && last.Some? then Some(rest.value + [last.value]) else None
  }

  /** How many of the classes are no separators. */
  function CountClassed(shape: string): nat {
    if shape == [] then 0
    else CountClassed(shape[..|shape| - 1]) + if IsSeparator(shape[|shape| - 1]) then 0 else 1
  }

  predicate MakesRule(shape: string) {
    '#' in shape && ('A' in shape || 'a' in shape) && CountClassed(shape) >= MIN_CLASSED && |shape| <= MAX_SHAPE
  }

  function Shape(span: string): Option<string> {
    var value := DropHangul(Strip(span));
    var classes := Classes(value, |value|);
    if classes.Some? && MakesRule(classes.value) then classes else None
  }

  method ShapeOf(span: string) returns (shape: Option<string>)
    ensures shape == Shape(span)
  {
    var value := Strip(span);
    while value != [] && IsHangul(value[|value| - 1])
      invariant DropHangul(value) == DropHangul(Strip(span))
      decreases |value|
    {
      value := value[..|value| - 1];
    }
    var out: string := [];
    for i := 0 to |value|
      invariant Classes(value, i) == Some(out)
    {
      var placeholder := Placeholder(value[i]);
      if placeholder.Some? {
        out := out + [placeholder.value];
      } else if IsSeparator(value[i]) {
        out := out + [value[i]];
      } else {
        NotClassed(value, i);
        return None;
      }
    }
    var classed := 0;
    for i := 0 to |out|
      invariant classed == CountClassed(out[..i])
    {
      assert out[..i + 1][..i] == out[..i];
      if !IsSeparator(out[i]) { classed := classed + 1; }
    }
    assert out[..|out|] == out;
    if '#' !in out || !('A' in out || 'a' in out) || classed < MIN_CLASSED || |out| > MAX_SHAPE {
      return None;
    }
    return Some(out);
  }

  lemma NotClassed(value: string, i: nat)
    requires i < |value| && Classed(value[i]).None?
    ensures Classes(value, |value|).None?
  {
  }

  /** What a character of the span is in the shape: a digit is '#', a Latin letter 'A' or 'a', a Hangul syllable '가',
      and one of "-._/:" itself. */
  ghost predicate ClassIs(c: char, piece: char) {
    || ('0' <= c <= '9' && piece == '#') || ('A' <= c <= 'Z' && piece == 'A') || ('a' <= c <= 'z' && piece == 'a')
    || ('\U{AC00}' <= c <= '\U{D7A3}' && piece == '\U{AC00}') || (c in "-._/:" && piece == c)
  }

  ghost predicate ClassedAs(value: string, shape: string) {
    |shape| == |value| && forall i | 0 <= i < |value| :: ClassIs(value[i], shape[i])
  }

  /** Where no separator stands. */
  ghost function ClassedPlaces(shape: string): set<nat> { set i: nat | i < |shape| && shape[i] !in "-._/:" }

  /** A digit and a Latin letter, four classed characters or more, and no more than sixty-four in all. */
  ghost predicate RuleLike(shape: string) {
    '#' in shape && ('A' in shape || 'a' in shape) && |ClassedPlaces(shape)| >= 4 && |shape| <= 64
  }

  /** The value stands in the span from `i` to `j`, with nothing but Hangul behind it, and whitespace round it all. */
  ghost predicate ValueAt(span: string, i: nat, j: nat, k: nat) {
    && i < j <= k <= |span| && !IsHangul(span[j - 1]) && (forall x | j <= x < k :: IsHangul(span[x]))
    && (forall x | 0 <= x < i :: IsSpace(span[x])) && (forall x | k <= x < |span| :: IsSpace(span[x]))
  }

  lemma ClassIsClassed(c: char, piece: char)
    ensures Classed(c) == Some(piece) <==> ClassIs(c, piece)
  {
  }

  lemma ClassedPlacesSnoc(front: string, c: char)
    ensures |ClassedPlaces(front + [c])| == |ClassedPlaces(front)| + if IsSeparator(c) then 0 else 1
  {
    var all := ClassedPlaces(front + [c]);
    assert all == ClassedPlaces(front) + if IsSeparator(c) then {} else {|front|};
  }

  lemma {:induction false} ClassedIsCounted(shape: string)
    ensures CountClassed(shape) == |ClassedPlaces(shape)|
  {
    hide ClassedPlaces;
    if shape == [] {
      NoClassedPlaces();
    } else {
      var n := |shape| - 1;
      ClassedIsCounted(shape[..n]);
      ClassedPlacesSnoc(shape[..n], shape[n]);
      assert shape == shape[..n] + [shape[n]];
    }
  }

  lemma NoClassedPlaces()
    ensures ClassedPlaces([]) == {}
  {
  }

  lemma {:induction false} DropsHangul(value: string, j: nat)
    requires 0 < j <= |value| && !IsHangul(value[j - 1]) && forall x | j <= x < |value| :: IsHangul(value[x])
    ensures DropHangul(value) == value[..j]
    decreases |value|
  {
    if j < |value| {
      DropsHangul(value[..|value| - 1], j);
      assert value[..|value| - 1][..j] == value[..j];
    } else {
      assert value[..j] == value;
    }
  }

  lemma {:induction false} DropLeaves(value: string) returns (j: nat)
    ensures j <= |value| && DropHangul(value) == value[..j] && (j > 0 ==> !IsHangul(value[j - 1]))
    ensures forall x | j <= x < |value| :: IsHangul(value[x])
    decreases |value|
  {
    if value != [] && IsHangul(value[|value| - 1]) {
      j := DropLeaves(value[..|value| - 1]);
      assert value[..|value| - 1][..j] == value[..j];
    } else {
      j := |value|;
      assert value[..j] == value;
    }
  }

  /** The value in a span, when it has one, is what is left once whitespace and trailing Hangul are gone. */
  lemma ValueOfSpan(span: string, i: nat, j: nat, k: nat)
    requires ValueAt(span, i, j, k) && !IsSpace(span[i]) && !IsSpace(span[k - 1])
    ensures DropHangul(Strip(span)) == span[i..j]
  {
    hide IsSpace, IsHangul;
    StripsTo(span, i, k);
    var core := span[i..k];
    assert forall x | 0 <= x < |core| :: core[x] == span[i + x];
    DropsHangul(core, j - i);
    assert core[..j - i] == span[i..j];
  }

  lemma NoneSpace(c: char, piece: char)
    requires ClassIs(c, piece)
    ensures !IsSpace(c)
  {
    LayoutFacts(c);
    if c in "-._/:" { OutsideRanges(c as int, SPACES); }
  }

  /** The shape a span becomes a rule as: the classes of its value, when every character has one and they make a
      rule. */
  lemma ShapeExactly(span: string, shape: string)
    ensures Shape(span) == Some(shape) <==>
      RuleLike(shape) && exists i: nat, j: nat, k: nat :: ValueAt(span, i, j, k) && ClassedAs(span[i..j], shape)
  {
    hide IsSpace, IsHangul, Classed, ClassIs;
    ClassedIsCounted(shape);
    if Shape(span) == Some(shape) {
      var i, j, k := ShapeHasValue(span, shape);
    }
    if i: nat, j: nat, k: nat :| ValueAt(span, i, j, k) && ClassedAs(span[i..j], shape) && RuleLike(shape) {
      ValueHasShape(span, shape, i, j, k);
    }
  }

  lemma ShapeHasValue(span: string, shape: string) returns (i: nat, j: nat, k: nat)
    requires Shape(span) == Some(shape)
    ensures ValueAt(span, i, j, k) && ClassedAs(span[i..j], shape)
  {
    hide IsSpace, IsHangul, Classed, ClassIs;
    i, k := StripLeaves(span);
    var core := span[i..k];
    var m := DropLeaves(core);
    j := i + m;
    assert core[..m] == span[i..j];
    assert forall x | 0 <= x < |core| :: core[x] == span[i + x];
    forall x | 0 <= x < m ensures ClassIs(span[i..j][x], shape[x]) { ClassIsClassed(span[i..j][x], shape[x]); }
    assert |shape| > 0;
    forall x | j <= x < k ensures IsHangul(span[x]) { assert core[x - i] == span[x]; }
  }

  lemma ValueHasShape(span: string, shape: string, i: nat, j: nat, k: nat)
    requires ValueAt(span, i, j, k) && ClassedAs(span[i..j], shape) && RuleLike(shape)
    ensures Shape(span) == Some(shape)
  {
    hide IsSpace, IsHangul, Classed, ClassIs;
    var value := span[i..j];
    forall x | 0 <= x < |value| ensures Classed(value[x]) == Some(shape[x]) && !IsSpace(value[x]) {
      ClassIsClassed(value[x], shape[x]);
      NoneSpace(value[x], shape[x]);
    }
    assert value[0] == span[i] && value[j - i - 1] == span[j - 1];
    if k > j { LayoutFacts(span[k - 1]); }
    HangulIsNoSpace(span[k - 1]);
    ValueOfSpan(span, i, j, k);
    ClassedIsCounted(shape);
    var classes := Classes(value, |value|);
    assert classes.Some?;
    assert forall x | 0 <= x < |value| :: classes.value[x] == shape[x];
    assert classes.value == shape;
  }

  lemma HangulIsNoSpace(c: char)
    ensures IsHangul(c) ==> !IsSpace(c)
  {
    LayoutFacts(c);
  }

  // ---- Patterns -----------------------------------------------------------------------------------

  /** What a piece of the pattern matches. `decimal` is what `\d` matches: Unicode's decimal digits. */
  predicate InClass(piece: char, c: char, decimal: set<char>) {
    if piece == '#' then c in decimal
    else if piece == 'A' then IsUpper(c)
    else if piece == 'a' then IsLower(c)
    else if piece == '\U{AC00}' then IsHangul(c)
    else c == piece
  }

  /** Where the run of characters equal to the one at `at`, known to reach `e`, ends. */
  function RunEnd(shape: string, at: nat, e: nat): (r: nat)
    requires at < e <= |shape| && forall i | at <= i < e :: shape[i] == shape[at]
    ensures e <= r <= |shape| && (forall i | at <= i < r :: shape[i] == shape[at])
    ensures r < |shape| ==> shape[r] != shape[at]
    decreases |shape| - e
  {
    if e < |shape| && shape[e] == shape[at] then RunEnd(shape, at, e + 1) else e
  }

  /** The pattern's pieces, `class{count}` each: the maximal runs of the shape. */
  function RunsOf(shape: string, at: nat): seq<(char, nat)>
    requires at <= |shape|
    decreases |shape| - at
  {
    if at == |shape| then []
    else [(shape[at], RunEnd(shape, at, at + 1) - at)] + RunsOf(shape, RunEnd(shape, at, at + 1))
  }

  method Regex(shape: string) returns (parts: seq<(char, nat)>)
    ensures parts == RunsOf(shape, 0)
  {
    parts := [];
    var at := 0;
    while at < |shape|
      invariant at <= |shape| && parts + RunsOf(shape, at) == RunsOf(shape, 0)
    {
      var end := at + 1;
      while end < |shape| && shape[end] == shape[at]
        invariant at < end <= |shape| && forall i | at <= i < end :: shape[i] == shape[at]
        invariant RunEnd(shape, at, end) == RunEnd(shape, at, at + 1)
      {
        end := end + 1;
      }
      var rest := RunsOf(shape, end);
      assert RunsOf(shape, at) == [(shape[at], end - at)] + rest;
      assert parts + ([(shape[at], end - at)] + rest) == parts + [(shape[at], end - at)] + rest;
      parts := parts + [(shape[at], end - at)];
      at := end;
    }
  }

  predicate PieceMatches(piece: char, count: nat, t: string, p: nat, decimal: set<char>) {
    p + count <= |t| && forall i | p <= i < p + count :: InClass(piece, t[i], decimal)
  }

  /** The pattern, piece by piece: where the match that starts at `p` ends, if there is one. */
  function MatchPieces(parts: seq<(char, nat)>, t: string, p: nat, decimal: set<char>): Option<nat>
    decreases |parts|
  {
    if parts == [] then Some(p)
    else if !PieceMatches(parts[0].0, parts[0].1, t, p, decimal) then None
    else MatchPieces(parts[1..], t, p + parts[0].1, decimal)
  }

  /** The shape from `at` on, character by character. */
  predicate ReadsFrom(shape: string, at: nat, t: string, p: nat, decimal: set<char>)
    requires at <= |shape|
  {
    p + (|shape| - at) <= |t| && forall i | at <= i < |shape| :: InClass(shape[i], t[p + (i - at)], decimal)
  }

  /** Grouping the shape into counted runs changes nothing: the pieces match where the shape reads, to its length. */
  lemma {:induction false} PiecesReadTheShape(shape: string, at: nat, t: string, p: nat, decimal: set<char>)
    requires at <= |shape| && p <= |t|
    ensures MatchPieces(RunsOf(shape, at), t, p, decimal)
         == if ReadsFrom(shape, at, t, p, decimal) then Some(p + (|shape| - at)) else None
    decreases |shape| - at
  {
    if at < |shape| {
      var e := RunEnd(shape, at, at + 1);
      var k := e - at;
      if PieceMatches(shape[at], k, t, p, decimal) {
        PiecesReadTheShape(shape, e, t, p + k, decimal);
        ReadsSplit(shape, at, e, t, p, decimal);
      } else if ReadsFrom(shape, at, t, p, decimal) {
        forall i | p <= i < p + k ensures InClass(shape[at], t[i], decimal) {
          assert InClass(shape[at + (i - p)], t[p + (at + (i - p) - at)], decimal);
        }
      }
    }
  }

  lemma ReadsSplit(shape: string, at: nat, e: nat, t: string, p: nat, decimal: set<char>)
    requires at < e <= |shape| && forall i | at <= i < e :: shape[i] == shape[at]
    requires PieceMatches(shape[at], e - at, t, p, decimal)
    ensures ReadsFrom(shape, at, t, p, decimal) <==> ReadsFrom(shape, e, t, p + (e - at), decimal)
  {
    if ReadsFrom(shape, at, t, p, decimal) {
      forall i | e <= i < |shape| ensures InClass(shape[i], t[p + (e - at) + (i - e)], decimal) {
        assert InClass(shape[i], t[p + (i - at)], decimal);
      }
    }
    if ReadsFrom(shape, e, t, p + (e - at), decimal) {
      forall i | at <= i < |shape| ensures InClass(shape[i], t[p + (i - at)], decimal) {
        if i >= e { assert InClass(shape[i], t[p + (e - at) + (i - e)], decimal); }
      }
    }
  }

  /** A span that yields a shape is matched in full by the pattern of that shape, once its trailing Hangul is gone. */
  lemma ShapeMatchesItsSpan(span: string, decimal: set<char>)
    requires Shape(span).Some? && forall c | IsAsciiDigit(c) :: c in decimal
    ensures var value := DropHangul(Strip(span));
      MatchPieces(RunsOf(Shape(span).value, 0), value, 0, decimal) == Some(|value|)
      && MatchAt(Shape(span).value, value, 0, decimal)
  {
    ClassesMatch(DropHangul(Strip(span)), Shape(span).value, decimal);
  }

  lemma ClassesMatch(value: string, shape: string, decimal: set<char>)
    requires |shape| == |value| && forall i | 0 <= i < |value| :: Classed(value[i]) == Some(shape[i])
    requires forall c | IsAsciiDigit(c) :: c in decimal
    ensures MatchPieces(RunsOf(shape, 0), value, 0, decimal) == Some(|value|)
    ensures MatchAt(shape, value, 0, decimal)
  {
    forall i | 0 <= i < |shape| ensures InClass(shape[i], value[0 + (i - 0)], decimal) {
      assert Classed(value[i]) == Some(shape[i]);
    }
    PiecesReadTheShape(shape, 0, value, 0, decimal);
  }

  // ---- Applying rules -------------------------------------------------------------------------------

  /** The pattern matches at `p`, and no letter or digit touches the match. */
  predicate MatchAt(shape: string, t: string, p: nat, decimal: set<char>) {
    && ReadsFrom(shape, 0, t, p, decimal)
    && (p > 0 ==> !IsAlnum(t[p - 1]))
    && (p + |shape| < |t| ==> !IsAlnum(t[p + |shape|]))
  }

  ghost predicate Matches(shape: string, t: string, decimal: set<char>) {
    exists p: nat :: MatchAt(shape, t, p, decimal)
  }

  function Hits(shape: string, t: string, decimal: set<char>): (hits: seq<nat>)
    ensures |hits| == |t|
    ensures forall i | 0 <= i < |t| :: hits[i] == if MatchAt(shape, t, i, decimal) then |shape| else 0
  {
    seq(|t|, i requires 0 <= i < |t| => if MatchAt(shape, t, i, decimal) then |shape| else 0)
  }

  /** What `hide_reported` makes of the match at `i`. */
  function HiddenAt(shape: string, t: string, i: nat): (h: string)
    requires shape != []
    ensures |h| > 0
  {
    if i + |shape| <= |t| then
      SpanHides(t[i..i + |shape|]);
      Hidden(t[i..i + |shape|])
    else [MASK_CHAR]
  }

  function Stars(shape: string, t: string): (put: seq<string>)
    requires shape != []
    ensures |put| == |t| && forall i | 0 <= i < |t| :: put[i] == HiddenAt(shape, t, i)
  {
    seq(|t|, i requires 0 <= i < |t| => HiddenAt(shape, t, i))
  }

  /** A stored shape: never empty. */
  type Rule = s: string | s != [] witness "#"

  /** `_regex(shape).sub(hide_reported, t)`. */
  function Masked(t: string, shape: Rule, decimal: set<char>): string {
    Sub(t, Hits(shape, t, decimal), Stars(shape, t), 0)
  }

  function Applied(t: string, shapes: seq<Rule>, decimal: set<char>): string {
    if shapes == [] then t else Masked(Applied(t, shapes[..|shapes| - 1], decimal), shapes[|shapes| - 1], decimal)
  }

  method Apply(text: string, shapes: seq<Rule>, decimal: set<char>) returns (t: string)
    ensures t == Applied(text, shapes, decimal)
  {
    t := text;
    for i := 0 to |shapes|
      invariant t == Applied(text, shapes[..i], decimal)
    {
      assert shapes[..i + 1][..i] == shapes[..i];
      t := Masked(t, shapes[i], decimal);
    }
    assert shapes[..|shapes|] == shapes;
  }

  /** A character a shape can hold. */
  predicate IsPiece(c: char) { IsAlnumClass(c) || c == '\U{AC00}' || IsSeparator(c) }

  predicate ValidShape(shape: string) { shape != [] && forall i | 0 <= i < |shape| :: IsPiece(shape[i]) }

  /** A Latin or digit class. */
  predicate IsAlnumClass(c: char) { c == '#' || c == 'A' || c == 'a' }

  /** Every rule that is learned is such a shape. */
  lemma LearnedIsValid(span: string, shape: string)
    requires Shape(span) == Some(shape)
    ensures ValidShape(shape)
  {
    forall i | 0 <= i < |shape| ensures IsPiece(shape[i]) {
      assert Classed(DropHangul(Strip(span))[i]) == Some(shape[i]);
    }
  }

  /** Every character `\d` takes for a digit is an ASCII one. */
  predicate AsciiDigits(t: string, decimal: set<char>) {
    forall i | 0 <= i < |t| :: t[i] in decimal ==> IsAsciiDigit(t[i])
  }

  // ---- What scanning leaves -----------------------------------------------------------------------------

  /** The whole text was scanned. */
  ghost predicate Whole(t: string, hits: seq<nat>, put: seq<string>, o: seq<Origin>)
    requires Fits(t, hits, put)
  {
    |o| > 0 ==> |t| > 0 && o[0] == Entry(hits, 0) && Finishes(t, hits, put, o[|o| - 1], |t|)
  }

  /** Unicode's decimal digits: the ASCII ones among them, no separator, no star, no letter or other piece of a
      shape. */
  predicate Decimals(decimal: set<char>) {
    && (forall c | IsAsciiDigit(c) :: c in decimal)
    && (forall c | c in decimal :: c != MASK_CHAR && !IsLayout(c) && !IsPiece(c))
  }

  lemma NoMatchUnmasked(t: string, shape: Rule, decimal: set<char>)
    requires !Matches(shape, t, decimal)
    ensures Masked(t, shape, decimal) == t
  {
    var hits := Hits(shape, t, decimal);
    forall p: nat | p < |t| ensures hits[p] == 0 { assert !MatchAt(shape, t, p, decimal); }
    NoMatchNoChange(t, hits, Stars(shape, t), 0);
  }

  function SampleChar(piece: char): char { if piece == '#' then '0' else piece }

  /** A text the shape reads. */
  function Sample(shape: string): (t: string)
    ensures |t| == |shape| && forall i | 0 <= i < |t| :: t[i] == SampleChar(shape[i])
  {
    seq(|shape|, i requires 0 <= i < |shape| => SampleChar(shape[i]))
  }

  lemma SampleReads(shape: Rule, t: string, p: nat, decimal: set<char>)
    requires ValidShape(shape) && Decimals(decimal)
    requires p + |shape| <= |t| && forall i | 0 <= i < |shape| :: t[p + i] == SampleChar(shape[i])
    ensures ReadsFrom(shape, 0, t, p, decimal)
    ensures IsAlnum(t[p]) == IsAlnumClass(shape[0])
    ensures IsAlnum(t[p + |shape| - 1]) == IsAlnumClass(shape[|shape| - 1])
  {
    forall i | 0 <= i < |shape| ensures InClass(shape[i], t[p + (i - 0)], decimal) {
      assert t[p + i] == SampleChar(shape[i]);
    }
    assert t[p + 0] == SampleChar(shape[0]);
    assert t[p + (|shape| - 1)] == SampleChar(shape[|shape| - 1]);
  }

  /** Of a shape's pieces '-' and '.' alone are left standing. */
  lemma PieceLayout(piece: char)
    requires IsPiece(piece)
    ensures IsLayout(piece) <==> piece == '-' || piece == '.'
  {
    LayoutFacts(piece);
    if piece == '#' || piece == '_' || piece == '/' || piece == ':' {
      OutsideRanges(piece as int, SPACES);
      OutsideRanges(piece as int, SEPARATOR_PUNCTUATION);
    }
  }

  /** What a piece says of the character it matches. */
  lemma PieceTells(piece: char, c: char, decimal: set<char>)
    requires IsPiece(piece) && Decimals(decimal) && InClass(piece, c, decimal)
    ensures c != MASK_CHAR && c != ' ' && (IsLayout(c) <==> IsLayout(piece)) && (IsLayout(piece) ==> c == piece)
    ensures IsAlnum(c) ==> IsAlnumClass(piece)
    ensures IsAlnumClass(piece) && (c in decimal ==> IsAsciiDigit(c)) ==> IsAlnum(c)
  {
    PieceLayout(piece);
    LayoutFacts(c);
  }

  lemma SampleInClass(piece: char, decimal: set<char>)
    requires IsPiece(piece) && Decimals(decimal)
    ensures InClass(piece, SampleChar(piece), decimal) && (IsAlnum(SampleChar(piece)) <==> IsAlnumClass(piece))
    ensures IsLayout(SampleChar(piece)) <==> IsLayout(piece)
  {
    PieceTells(piece, SampleChar(piece), decimal);
  }

  /** Whatever a shape matches is hidden alike. */
  lemma HiddenAlike(shape: Rule, found: string, decimal: set<char>)
    requires ValidShape(shape) && Decimals(decimal) && |found| == |shape| && ReadsFrom(shape, 0, found, 0, decimal)
    ensures Hidden(found) == Hidden(Sample(shape))
  {
    hide Hidden, ReadsFrom, InClass, ValidShape, Decimals, IsPiece;
    var sample := Sample(shape);
    forall i | 0 <= i < |shape|
      ensures found[i] != ' ' && sample[i] != ' ' && Starred(found)[i] == Starred(sample)[i]
    {
      StarredAlike(shape, found, decimal, i);
    }
    assert Starred(found) == Starred(sample);
    SameHidden(found, sample);
  }

  lemma SameHidden(a: string, b: string)
    requires ' ' !in a && ' ' !in b && |a| == |b| && Starred(a) == Starred(b)
    ensures Hidden(a) == Hidden(b)
  {
    assert FirstSpace(a) == |a| && FirstSpace(b) == |b|;
  }

  lemma StarredAlike(shape: Rule, found: string, decimal: set<char>, i: nat)
    requires ValidShape(shape) && Decimals(decimal) && |found| == |shape| && ReadsFrom(shape, 0, found, 0, decimal)
    requires i < |shape|
    ensures found[i] != ' ' && Sample(shape)[i] != ' ' && Starred(found)[i] == Starred(Sample(shape))[i]
  {
    assert InClass(shape[i], found[0 + (i - 0)], decimal);
    PieceTells(shape[i], found[i], decimal);
    SampleInClass(shape[i], decimal);
    PieceTells(shape[i], Sample(shape)[i], decimal);
  }

  /** What scanning marks: the shape's matches, each of which `hid` replaces. */
  ghost predicate Marks(t: string, shape: Rule, decimal: set<char>, hid: string, hits: seq<nat>, put: seq<string>,
                        out: string, o: seq<Origin>)
  {
    && Fits(t, hits, put) && Traced(t, hits, put, out, o) && Whole(t, hits, put, o)
    && (forall i | 0 <= i < |t| :: hits[i] == if MatchAt(shape, t, i, decimal) then |shape| else 0)
    && (forall i | 0 <= i < |t| && hits[i] > 0 :: put[i] == hid)
  }

  lemma ScanAny(t: string, shape: Rule, decimal: set<char>) returns (hits: seq<nat>, put: seq<string>, o: seq<Origin>)
    requires ValidShape(shape) && Decimals(decimal)
    ensures Marks(t, shape, decimal, Hidden(Sample(shape)), hits, put, Masked(t, shape, decimal), o)
  {
    hide InClass, Hidden, Sub, Trace;
    hits, put := Hits(shape, t, decimal), Stars(shape, t);
    o := Trace(t, hits, put, 0);
    TraceIsLocal(t, hits, put, 0);
    TraceEnds(t, hits, put, 0);
    forall i | 0 <= i < |t| && hits[i] > 0 ensures put[i] == Hidden(Sample(shape)) {
      var found := t[i..i + |shape|];
      forall j | 0 <= j < |shape| ensures InClass(shape[j], found[0 + (j - 0)], decimal) {
        assert InClass(shape[j], t[i + (j - 0)], decimal);
      }
      HiddenAlike(shape, found, decimal);
    }
  }

  /** The hidden form of every match: a star for each piece that goes, the separators where they stood, and at most
      one star more. */
  ghost predicate HidesShape(shape: Rule, hid: string) {
    && |shape| <= |hid| <= |shape| + 1 && (|hid| > |shape| ==> hid[|shape|] == MASK_CHAR && !AllLayout(shape))
    && forall i | 0 <= i < |shape| :: hid[i] == if IsLayout(shape[i]) then shape[i] else MASK_CHAR
  }

  lemma HiddenSample(shape: Rule, decimal: set<char>)
    requires ValidShape(shape) && Decimals(decimal)
    ensures HidesShape(shape, Hidden(Sample(shape)))
  {
    var sample := Sample(shape);
    forall i | 0 <= i < |shape|
      ensures sample[i] != ' ' && Starred(sample)[i] == if IsLayout(shape[i]) then shape[i] else MASK_CHAR
    {
      SampleInClass(shape[i], decimal);
      PieceTells(shape[i], sample[i], decimal);
    }
    assert FirstSpace(sample) == |sample|;
  }

  predicate EndsIn(t: string, end: string) { |end| <= |t| && t[|t| - |end|..] == end }

  lemma ReadsAt(shape: Rule, t: string, p: nat, decimal: set<char>, j: nat)
    requires ValidShape(shape) && Decimals(decimal) && ReadsFrom(shape, 0, t, p, decimal) && j < |shape|
    ensures p + j < |t| && InClass(shape[j], t[p + j], decimal)
    ensures t[p + j] != MASK_CHAR && (IsLayout(t[p + j]) <==> IsLayout(shape[j]))
    ensures IsLayout(shape[j]) ==> t[p + j] == shape[j]
    ensures IsAlnum(t[p + j]) ==> IsAlnumClass(shape[j])
    ensures IsAlnumClass(shape[j]) && (t[p + j] in decimal ==> IsAsciiDigit(t[p + j])) ==> IsAlnum(t[p + j])
  {
    assert InClass(shape[j], t[p + (j - 0)], decimal);
    PieceTells(shape[j], t[p + j], decimal);
  }

  lemma AlnumIsNoLayout(c: char)
    ensures IsAlnum(c) ==> !IsLayout(c) && c != MASK_CHAR
  {
    LayoutFacts(c);
  }

  /** No letter or digit stands in what is hidden. */
  lemma HiddenIsFree(shape: Rule, hid: string, i: nat)
    requires HidesShape(shape, hid) && i < |hid|
    ensures !IsAlnum(hid[i])
  {
    AlnumIsNoLayout(hid[i]);
  }

  lemma MatchReads(t: string, shape: string, decimal: set<char>, s: nat)
    requires MatchAt(shape, t, s, decimal)
    ensures ReadsFrom(shape, 0, t, s, decimal)
  {
  }

  lemma MatchGuards(t: string, shape: string, decimal: set<char>, p: nat)
    requires ReadsFrom(shape, 0, t, p, decimal)
    ensures MatchAt(shape, t, p, decimal)
      <==> (p > 0 ==> !IsAlnum(t[p - 1])) && (p + |shape| < |t| ==> !IsAlnum(t[p + |shape|]))
  {
  }

  /** What is marked is a match, and no letter or digit touches it. */
  lemma MarksAt(t: string, v: Rule, decimal: set<char>, hid: string, hits: seq<nat>, put: seq<string>,
                out: string, o: seq<Origin>, s: nat)
    requires Marks(t, v, decimal, hid, hits, put, out, o) && s < |t|
    ensures |hits| == |t| && |o| == |out| && (hits[s] > 0 <==> MatchAt(v, t, s, decimal))
    ensures hits[s] > 0 ==> hits[s] == |v| && s + |v| <= |t| && ReadsFrom(v, 0, t, s, decimal)
    ensures hits[s] > 0 ==> |put| == |t| && put[s] == hid
    ensures hits[s] > 0 ==> (s > 0 ==> !IsAlnum(t[s - 1])) && (s + |v| < |t| ==> !IsAlnum(t[s + |v|]))
  {
  }

  // ---- Where a match in a masked text lies -------------------------------------------------------------------

  /** The match of `w` at `p` of the masked text is the last `k` characters of one hidden match of `v`, then
      characters the text keeps, then the first `l` of another; it read so in the text, from `q` on. */
  ghost predicate LiesAt(t: string, v: Rule, w: Rule, hid: string, hits: seq<nat>, o: seq<Origin>, p: nat, k: nat,
                         l: nat, q: nat)
  {
    && k + l < |w| && k < |v| && l < |v| && p + |w| <= |o| && q + |w| <= |t| == |hits|
    && AllLayout(w[..k]) && EndsIn(hid, w[..k]) && AllLayout(v[..l]) && w[|w| - l..] == v[..l]
    && (forall i: nat | k <= i < |w| - l :: KeptFrom(o, p, q, i))
    && (k > 0 ==> |v| <= q + k && hits[q + k - |v|] > 0 && v[|v| - k..] == w[..k])
    && (l > 0 ==> hits[q + |w| - l] > 0)
  }

  ghost predicate KeptFrom(o: seq<Origin>, p: nat, q: nat, i: nat) { p + i < |o| && o[p + i] == Kept(q + i) }

  lemma TakesNone(w: Rule, hid: string)
    ensures AllLayout(w[..0]) && EndsIn(hid, w[..0])
  {
    assert hid[|hid|..] == w[..0];
  }

  /** Of the separators a hidden match can give, the match takes some of its last ones, or none. */
  lemma FrontOf(t: string, v: Rule, w: Rule, decimal: set<char>, hid: string, hits: seq<nat>, put: seq<string>,
                out: string, o: seq<Origin>, p: nat) returns (k: nat, q: nat)
    requires ValidShape(w) && Decimals(decimal) && HidesShape(v, hid) && !AllLayout(v) && !AllLayout(w)
    requires Marks(t, v, decimal, hid, hits, put, out, o) && ReadsFrom(w, 0, out, p, decimal) && p + |w| <= |o|
    ensures k < |w| && k < |v| && p + k < |o| && AllLayout(w[..k]) && EndsIn(hid, w[..k])
    ensures q + k < |t| && o[p + k] == (if hits[q + k] == 0 then Kept(q + k) else Put(q + k, 0))
    ensures k > 0 ==> |v| <= q + k && hits[q + k - |v|] > 0 && v[|v| - k..] == w[..k]
  {
    hide MatchAt, ReadsFrom, InClass, Whole, AllLayout, EndsIn, Decimals, HidesShape, ValidShape;
    TakesNone(w, hid);
    assert Tells(t, hits, put, o[p], out[p]);
    if o[p].Kept? {
      k, q := 0, o[p].at;
    } else if o[p].offset == 0 {
      k, q := 0, o[p].start;
    } else {
      k := TailOf(t, v, w, decimal, hid, hits, put, out, o, p);
      q := o[p].start + |v| - k;
      PutRun(t, hits, put, out, o, p, k - 1);
      assert NextAt(t, hits, put, o, p + k - 1);
      MarksAt(t, v, decimal, hid, hits, put, out, o, o[p].start);
    }
  }

  lemma TailOf(t: string, v: Rule, w: Rule, decimal: set<char>, hid: string, hits: seq<nat>, put: seq<string>,
               out: string, o: seq<Origin>, p: nat) returns (k: nat)
    requires ValidShape(w) && Decimals(decimal) && HidesShape(v, hid) && !AllLayout(w)
    requires Marks(t, v, decimal, hid, hits, put, out, o) && ReadsFrom(w, 0, out, p, decimal) && p + |w| <= |o|
    requires o[p].Put? && o[p].offset > 0
    ensures 0 < k < |w| && k < |v| && |hid| == |v| && o[p].offset + k == |hid|
    ensures AllLayout(w[..k]) && EndsIn(hid, w[..k]) && v[|v| - k..] == w[..k]
  {
    hide MatchAt, ReadsFrom, InClass, Whole, IsLayout, Decimals;
    var m, x := |w|, o[p].offset;
    assert Tells(t, hits, put, o[p], out[p]);
    k := if |hid| - x < m then |hid| - x else m;
    forall j | 0 <= j < k ensures x + j < |v| && IsLayout(w[j]) && hid[x + j] == w[j] == v[x + j] {
      ReadsAt(w, out, p, decimal, j);
      PutRun(t, hits, put, out, o, p, j);
    }
    assert k < m;
    assert |hid| == |v| by { assert hid[x + (k - 1)] == w[k - 1] && IsLayout(w[k - 1]); LayoutFacts(MASK_CHAR); }
    assert hid[x..] == w[..k] == v[x..];
  }

  /** Where it runs into a hidden match, only that one's leading separators can follow. */
  lemma RunsIn(t: string, v: Rule, w: Rule, decimal: set<char>, hid: string, hits: seq<nat>, put: seq<string>,
               out: string, o: seq<Origin>, p: nat, c: nat, s: nat)
    requires ValidShape(w) && Decimals(decimal) && HidesShape(v, hid) && !AllLayout(v)
    requires Marks(t, v, decimal, hid, hits, put, out, o) && ReadsFrom(w, 0, out, p, decimal) && p + |w| <= |o|
    requires c < |w| && o[p + c] == Put(s, 0)
    ensures s < |t| == |hits| && hits[s] > 0 && |w| - c < |v| && AllLayout(v[..|w| - c]) && w[c..] == v[..|w| - c]
  {
    hide MatchAt, ReadsFrom, InClass, Whole, IsLayout, Decimals;
    var e: nat :| e < |v| && !IsLayout(v[e]);
    assert Tells(t, hits, put, o[p + c], out[p + c]);
    if c + e < |w| {
      PutRun(t, hits, put, out, o, p + c, e);
      ReadsAt(w, out, p, decimal, c + e);
    }
    var l := |w| - c;
    forall j | 0 <= j < l ensures IsLayout(v[..l][j]) && w[c..][j] == v[..l][j] {
      PutRun(t, hits, put, out, o, p + c, j);
      ReadsAt(w, out, p, decimal, c + j);
    }
  }

  /** Some character of the match is kept: the first past the hidden match it may begin in. */
  lemma KeptNext(t: string, v: Rule, w: Rule, decimal: set<char>, hid: string, hits: seq<nat>, put: seq<string>,
                 out: string, o: seq<Origin>, p: nat) returns (k: nat, q: nat)
    requires ValidShape(v) && ValidShape(w) && Decimals(decimal) && HidesShape(v, hid) && !AllLayout(v) && !AllLayout(w)
    requires Marks(t, v, decimal, hid, hits, put, out, o) && ReadsFrom(w, 0, out, p, decimal) && p + |w| <= |o|
    ensures k < |w| && k < |v| && p + k < |o| && AllLayout(w[..k]) && EndsIn(hid, w[..k]) && o[p + k] == Kept(q + k)
    ensures k > 0 ==> |v| <= q + k && q + k - |v| < |hits| && hits[q + k - |v|] > 0 && v[|v| - k..] == w[..k]
  {
    hide *;
    MarkedLengths(t, v, decimal, hid, hits, put, out, o);
    k, q := FrontOf(t, v, w, decimal, hid, hits, put, out, o, p);
    if hits[q + k] > 0 {
      RunsIn(t, v, w, decimal, hid, hits, put, out, o, p, k, q + k);
      AllOfIt(w, k, v);
      assert false;
    }
  }

  /** Where a match of `w` in the text masked by `v` lies. */
  lemma Locate(t: string, v: Rule, w: Rule, decimal: set<char>, hid: string, hits: seq<nat>, put: seq<string>,
               out: string, o: seq<Origin>, p: nat) returns (k: nat, l: nat, q: nat)
    requires ValidShape(v) && ValidShape(w) && Decimals(decimal) && HidesShape(v, hid) && !AllLayout(v) && !AllLayout(w)
    requires Marks(t, v, decimal, hid, hits, put, out, o) && ReadsFrom(w, 0, out, p, decimal)
    ensures LiesAt(t, v, w, hid, hits, o, p, k, l, q) && ReadsFrom(w, 0, t, q, decimal)
  {
    hide *;
    var m := |w|;
    ReadsAt(w, out, p, decimal, m - 1);
    MarkedLengths(t, v, decimal, hid, hits, put, out, o);
    k, q := KeptNext(t, v, w, decimal, hid, hits, put, out, o, p);
    l := m - k - KeptLength(t, hits, put, out, o, p, m, k, q);
    if l > 0 {
      RunsIntoHit(t, hits, put, out, o, p + k, m - l - k);
      RunsIn(t, v, w, decimal, hid, hits, put, out, o, p, m - l, q + m - l);
      MarksAt(t, v, decimal, hid, hits, put, out, o, q + m - l);
    } else {
      NothingOf(v, w);
    }
    LiesThere(t, v, w, hid, hits, o, p, k, l, q);
    ReadThere(t, v, w, decimal, hid, hits, put, out, o, p, k, l, q);
  }

  lemma LiesThere(t: string, v: Rule, w: Rule, hid: string, hits: seq<nat>, o: seq<Origin>, p: nat, k: nat, l: nat,
                  q: nat)
    requires k + l < |w| && k < |v| && l < |v| && p + |w| <= |o| && q + |w| <= |t| == |hits|
    requires AllLayout(w[..k]) && EndsIn(hid, w[..k]) && AllLayout(v[..l]) && w[|w| - l..] == v[..l]
    requires forall i: nat | k <= i < |w| - l :: KeptFrom(o, p, q, i)
    requires k > 0 ==> |v| <= q + k && hits[q + k - |v|] > 0 && v[|v| - k..] == w[..k]
    requires l > 0 ==> hits[q + |w| - l] > 0
    ensures LiesAt(t, v, w, hid, hits, o, p, k, l, q)
  {
  }

  /** How long the kept part of the match is. */
  ghost function KeptLength(t: string, hits: seq<nat>, put: seq<string>, out: string, o: seq<Origin>, p: nat, m: nat,
                            k: nat, q: nat): (c: nat)
    requires Fits(t, hits, put) && Traced(t, hits, put, out, o) && k < m && p + m <= |o| && o[p + k] == Kept(q + k)
    ensures 0 < c <= m - k && q + k + c <= |t| && (forall i: nat | k <= i < k + c :: KeptFrom(o, p, q, i))
    ensures (forall j | p + k <= j < p + k + c :: o[j].Kept?) && (c < m - k ==> o[p + k + c].Put?)
  {
    var c := FirstPut(o, p + k, m - k);
    KeptRun(t, hits, put, out, o, p + k, c - 1);
    assert forall i: nat | k <= i < k + c :: KeptFrom(o, p, q, i) by {
      forall i: nat | k <= i < k + c ensures KeptFrom(o, p, q, i) { KeptRun(t, hits, put, out, o, p + k, i - k); }
    }
    c
  }

  lemma MarkedLengths(t: string, v: Rule, decimal: set<char>, hid: string, hits: seq<nat>, put: seq<string>,
                      out: string, o: seq<Origin>)
    requires Marks(t, v, decimal, hid, hits, put, out, o)
    ensures Fits(t, hits, put) && Traced(t, hits, put, out, o) && |o| == |out| && |hits| == |t| == |put|
  {
  }

  lemma AllOfIt(w: string, k: nat, v: string)
    requires k <= |w| <= k + |v| && AllLayout(w[..k]) && AllLayout(v[..|w| - k]) && w[k..] == v[..|w| - k]
    ensures AllLayout(w)
  {
    forall i | 0 <= i < |w| ensures IsLayout(w[i]) {
      if i < k { assert w[..k][i] == w[i]; } else { assert w[k..][i - k] == v[..|w| - k][i - k]; }
    }
  }

  lemma NothingOf(v: string, w: string)
    ensures AllLayout(v[..0]) && w[|w|..] == v[..0]
  {
  }

  /** The first of a run of kept characters that ends before the match does is followed by a hidden match. */
  lemma RunsIntoHit(t: string, hits: seq<nat>, put: seq<string>, out: string, o: seq<Origin>, p: nat, k: nat)
    requires Fits(t, hits, put) && Traced(t, hits, put, out, o) && k > 0 && p + k < |o|
    requires (forall j | p <= j < p + k :: o[j].Kept?) && o[p + k].Put?
    ensures var s := o[p].at + k; s < |t| && hits[s] > 0 && o[p + k] == Put(s, 0)
  {
    KeptRun(t, hits, put, out, o, p, k - 1);
    assert NextAt(t, hits, put, o, p + k - 1);
    assert Tells(t, hits, put, o[p + k], out[p + k]);
  }

  lemma ReadThere(t: string, v: Rule, w: Rule, decimal: set<char>, hid: string, hits: seq<nat>, put: seq<string>,
                  out: string, o: seq<Origin>, p: nat, k: nat, l: nat, q: nat)
    requires ValidShape(v) && ValidShape(w) && Decimals(decimal) && Marks(t, v, decimal, hid, hits, put, out, o)
    requires ReadsFrom(w, 0, out, p, decimal) && LiesAt(t, v, w, hid, hits, o, p, k, l, q)
    ensures ReadsFrom(w, 0, t, q, decimal)
  {
    forall i | 0 <= i < |w| ensures InClass(w[i], t[q + (i - 0)], decimal) {
      ReadsOneThere(t, v, w, decimal, hid, hits, put, out, o, p, k, l, q, i);
    }
  }

  lemma ReadsOneThere(t: string, v: Rule, w: Rule, decimal: set<char>, hid: string, hits: seq<nat>, put: seq<string>,
                      out: string, o: seq<Origin>, p: nat, k: nat, l: nat, q: nat, i: nat)
    requires ValidShape(v) && ValidShape(w) && Decimals(decimal) && Marks(t, v, decimal, hid, hits, put, out, o)
    requires ReadsFrom(w, 0, out, p, decimal) && LiesAt(t, v, w, hid, hits, o, p, k, l, q) && i < |w|
    ensures InClass(w[i], t[q + i], decimal)
  {
    hide MatchAt, ReadsFrom, Whole, IsLayout, Decimals, Marks;
    MarkedLengths(t, v, decimal, hid, hits, put, out, o);
    var m := |w|;
    if i < k {
      var a := q + k - |v|;
      MarksAt(t, v, decimal, hid, hits, put, out, o, a);
      assert v[|v| - k..][i] == w[..k][i] == w[i];
      ReadsAt(v, t, a, decimal, |v| - k + i);
    } else if i < m - l {
      assert KeptFrom(o, p, q, i);
      ReadsAt(w, out, p, decimal, i);
      assert Tells(t, hits, put, o[p + i], out[p + i]);
    } else {
      var s := q + m - l;
      MarksAt(t, v, decimal, hid, hits, put, out, o, s);
      assert w[m - l..][i - (m - l)] == v[..l][i - (m - l)] == w[i];
      ReadsAt(v, t, s, decimal, i - (m - l));
    }
  }

  /** A letter or digit stood before the match, and does not now: it was the last of a hidden match. */
  lemma FreedInFront(t: string, v: Rule, w: Rule, decimal: set<char>, hid: string, hits: seq<nat>, put: seq<string>,
                     out: string, o: seq<Origin>, p: nat, k: nat, l: nat, q: nat)
    requires ValidShape(v) && ValidShape(w) && Decimals(decimal) && Marks(t, v, decimal, hid, hits, put, out, o)
    requires LiesAt(t, v, w, hid, hits, o, p, k, l, q) && (p > 0 ==> !IsAlnum(out[p - 1])) && q > 0 && IsAlnum(t[q - 1])
    ensures |v| <= q + k && hits[q + k - |v|] > 0 && IsAlnumClass(v[|v| - k - 1])
  {
    hide MatchAt, ReadsFrom, IsLayout, Decimals, InClass;
    if k == 0 {
      assert KeptFrom(o, p, q, 0);
      if p > 0 {
        assert NextAt(t, hits, put, o, p - 1);
        assert Tells(t, hits, put, o[p - 1], out[p - 1]);
        assert Tells(t, hits, put, o[p], out[p]);
      }
    }
    var a := q + k - |v|;
    MarksAt(t, v, decimal, hid, hits, put, out, o, a);
    ReadsAt(v, t, a, decimal, |v| - k - 1);
  }

  lemma FreedBehind(t: string, v: Rule, w: Rule, decimal: set<char>, hid: string, hits: seq<nat>, put: seq<string>,
                    out: string, o: seq<Origin>, p: nat, k: nat, l: nat, q: nat)
    requires ValidShape(v) && ValidShape(w) && Decimals(decimal) && Marks(t, v, decimal, hid, hits, put, out, o)
    requires LiesAt(t, v, w, hid, hits, o, p, k, l, q)
    requires (p + |w| < |out| ==> !IsAlnum(out[p + |w|])) && q + |w| < |t| && IsAlnum(t[q + |w|])
    ensures hits[q + |w| - l] > 0 && IsAlnumClass(v[l])
  {
    hide MatchAt, ReadsFrom, IsLayout, Decimals, InClass;
    var m := |w|;
    if l == 0 {
      assert KeptFrom(o, p, q, m - 1);
      assert NextAt(t, hits, put, o, p + m - 1);
      if p + m < |o| { assert Tells(t, hits, put, o[p + m], out[p + m]); }
    }
    var s := q + m - l;
    MarksAt(t, v, decimal, hid, hits, put, out, o, s);
    ReadsAt(v, t, s, decimal, l);
  }

  /** After a hidden match goes on what no letter or digit begins, and before one what none ends. */
  lemma GoesOnFree(t: string, v: Rule, w: Rule, decimal: set<char>, hid: string, hits: seq<nat>, put: seq<string>,
                   out: string, o: seq<Origin>, q: nat, k: nat)
    requires ValidShape(w) && Decimals(decimal) && AsciiDigits(t, decimal)
    requires Marks(t, v, decimal, hid, hits, put, out, o)
    requires k < |w| && |v| <= q + k < |t| && hits[q + k - |v|] > 0 && ReadsFrom(w, 0, t, q, decimal)
    ensures !IsAlnumClass(w[k])
  {
    hide MatchAt, ReadsFrom, IsLayout, Decimals, InClass, Marks;
    MarksAt(t, v, decimal, hid, hits, put, out, o, q + k - |v|);
    ReadsAt(w, t, q, decimal, k);
  }

  lemma ComesInFree(t: string, v: Rule, w: Rule, decimal: set<char>, hid: string, hits: seq<nat>, put: seq<string>,
                    out: string, o: seq<Origin>, q: nat, l: nat)
    requires ValidShape(w) && Decimals(decimal) && AsciiDigits(t, decimal)
    requires Marks(t, v, decimal, hid, hits, put, out, o)
    requires l < |w| && q + |w| - l < |t| && |hits| == |t| && hits[q + |w| - l] > 0 && ReadsFrom(w, 0, t, q, decimal)
    ensures !IsAlnumClass(w[|w| - l - 1])
  {
    hide MatchAt, ReadsFrom, IsLayout, Decimals, InClass, Marks;
    MarksAt(t, v, decimal, hid, hits, put, out, o, q + |w| - l);
    ReadsAt(w, t, q, decimal, |w| - l - 1);
  }

  /** A separator is all there is of the shape, and nothing is hidden. */
  lemma {:induction false} NothingHidden(t: string, hits: seq<nat>, put: seq<string>, i: nat)
    requires i <= |t| && Fits(t, hits, put) && forall j: nat | j < |t| && hits[j] > 0 :: PutSame(t, hits, put, j)
    ensures Sub(t, hits, put, i) == t[i..]
    decreases |t| - i
  {
    hide Sub;
    if i == |t| {
      SubEnds(t, hits, put);
    } else {
      var k := if hits[i] == 0 then i + 1 else i + hits[i];
      NothingHidden(t, hits, put, k);
      SubStep(t, hits, put, i);
      if hits[i] > 0 { assert PutSame(t, hits, put, i); }
      SlicesJoin(t, i, k);
    }
  }

  lemma SubEnds(t: string, hits: seq<nat>, put: seq<string>)
    requires Fits(t, hits, put)
    ensures Sub(t, hits, put, |t|) == []
  {
  }

  lemma SlicesJoin(t: string, i: nat, k: nat)
    requires i < k <= |t|
    ensures t[i..] == t[i..k] + t[k..] && t[i..i + 1] == [t[i]]
  {
  }

  ghost predicate PutSame(t: string, hits: seq<nat>, put: seq<string>, j: nat) {
    j < |t| == |hits| == |put| && j + hits[j] <= |t| && put[j] == t[j..j + hits[j]]
  }

  lemma SeparatorsStay(t: string, v: Rule, decimal: set<char>)
    requires ValidShape(v) && Decimals(decimal) && AllLayout(v)
    ensures Masked(t, v, decimal) == t
  {
    hide Sub, InClass, Hidden, ReadsFrom;
    var hits, put := Hits(v, t, decimal), Stars(v, t);
    forall j: nat | j < |t| && hits[j] > 0 ensures PutSame(t, hits, put, j) {
      MatchReads(t, v, decimal, j);
      ReadsAt(v, t, j, decimal, |v| - 1);
      SeparatorsKept(t, v, decimal, j);
    }
    HitsInside(t, v, decimal);
    NothingHidden(t, hits, put, 0);
  }

  lemma HitsInside(t: string, v: Rule, decimal: set<char>)
    ensures Fits(t, Hits(v, t, decimal), Stars(v, t))
  {
    hide Hidden, InClass;
  }

  lemma SeparatorsKept(t: string, v: Rule, decimal: set<char>, j: nat)
    requires ValidShape(v) && Decimals(decimal) && AllLayout(v) && ReadsFrom(v, 0, t, j, decimal) && j + |v| <= |t|
    ensures Hidden(t[j..j + |v|]) == t[j..j + |v|]
  {
    hide Hidden, InClass, IsLayout, Decimals;
    var found := t[j..j + |v|];
    forall i | 0 <= i < |v| ensures InClass(v[i], found[0 + (i - 0)], decimal) && found[i] == v[i] {
      ReadsAt(v, t, j, decimal, i);
      assert found[i] == t[j + i];
    }
    HiddenSample(v, decimal);
    HiddenAlike(v, found, decimal);
    HiddenIsShape(v, Hidden(Sample(v)), found);
  }

  lemma HiddenIsShape(v: Rule, hid: string, found: string)
    requires HidesShape(v, hid) && AllLayout(v) && hid == Hidden(Sample(v)) && |found| == |v|
    requires forall i | 0 <= i < |v| :: found[i] == v[i]
    ensures hid == found
  {
  }

  lemma MaskedStaysAscii(t: string, shape: Rule, decimal: set<char>)
    requires ValidShape(shape) && Decimals(decimal) && AsciiDigits(t, decimal)
    ensures AsciiDigits(Masked(t, shape, decimal), decimal)
  {
    hide Hidden, InClass, Masked;
    var out, hid := Masked(t, shape, decimal), Hidden(Sample(shape));
    HiddenSample(shape, decimal);
    var hits, put, o := ScanAny(t, shape, decimal);
    forall i | 0 <= i < |out| ensures out[i] in decimal ==> IsAsciiDigit(out[i]) {
      assert Tells(t, hits, put, o[i], out[i]);
    }
  }

  // ---- Rules that leave a match of themselves -----------------------------------------------------------------

  /** Two copies of what the shape reads can share the `k` separators both its ends have: the first is starred out
      and its last separators stand before the rest of the second, or the first is held back by the letter or digit
      that the second goes on with, and stands free once that is starred out. */
  ghost predicate Shares(shape: Rule, k: nat) {
    && 1 <= k <= |shape| && AllLayout(shape[..k])
    && if k < |shape| && IsAlnumClass(shape[k])
       then shape[|shape| - k..] == shape[..k] && !IsAlnumClass(shape[|shape| - k - 1])
       else EndsIn(Hidden(Sample(shape)), shape[..k])
  }

  /** Which rules leave a match of themselves in some text: those with a Latin or digit class at one end only, and those
      whose copies can share separators. */
  ghost predicate Reappears(shape: Rule) {
    IsAlnumClass(shape[0]) != IsAlnumClass(shape[|shape| - 1]) || exists k: nat :: Shares(shape, k)
  }

  /** A match that scanning leaves makes the rule one that reappears. */
  lemma OnlyReappearing(t: string, shape: Rule, decimal: set<char>, p: nat)
    requires ValidShape(shape) && Decimals(decimal) && AsciiDigits(t, decimal)
    requires MatchAt(shape, Masked(t, shape, decimal), p, decimal)
    ensures Reappears(shape)
  {
    hide Hidden, Masked, InClass, ReadsFrom, HidesShape, Shares, Decimals, IsAlnum;
    var hid, out := Hidden(Sample(shape)), Masked(t, shape, decimal);
    HiddenSample(shape, decimal);
    if AllLayout(shape) {
      WholeIsShared(shape, hid);
    } else {
      var hits, put, o := ScanAny(t, shape, decimal);
      MatchReads(out, shape, decimal, p);
      var k, l, q := Locate(t, shape, shape, decimal, hid, hits, put, out, o, p);
      LeftOver(t, shape, decimal, hid, hits, put, out, o, p, k, l, q);
    }
  }

  lemma LeftOver(t: string, shape: Rule, decimal: set<char>, hid: string, hits: seq<nat>, put: seq<string>,
                 out: string, o: seq<Origin>, p: nat, k: nat, l: nat, q: nat)
    requires ValidShape(shape) && Decimals(decimal) && AsciiDigits(t, decimal) && hid == Hidden(Sample(shape))
    requires Marks(t, shape, decimal, hid, hits, put, out, o) && MatchAt(shape, out, p, decimal)
    requires LiesAt(t, shape, shape, hid, hits, o, p, k, l, q) && ReadsFrom(shape, 0, t, q, decimal)
    ensures Reappears(shape)
  {
    hide Hidden, InClass, ReadsFrom, Decimals, IsAlnum, Marks, IsLayout, AllLayout, EndsIn;
    var n := |shape|;
    if k > 0 {
      GoesOnFree(t, shape, shape, decimal, hid, hits, put, out, o, q, k);
      assert Shares(shape, k);
    } else {
      assert KeptFrom(o, p, q, 0);
      KeptUnmarked(t, shape, decimal, hid, hits, put, out, o, p);
      MatchGuards(t, shape, decimal, q);
      MatchGuards(out, shape, decimal, p) by { MatchReads(out, shape, decimal, p); }
      if q > 0 && IsAlnum(t[q - 1]) {
        FreedInFront(t, shape, shape, decimal, hid, hits, put, out, o, p, k, l, q);
        GoesOnFree(t, shape, shape, decimal, hid, hits, put, out, o, q, k);
      } else {
        FreedBehind(t, shape, shape, decimal, hid, hits, put, out, o, p, k, l, q);
        ComesInFree(t, shape, shape, decimal, hid, hits, put, out, o, q, l);
        if l > 0 { assert Shares(shape, l); }
      }
    }
  }

  /** Where a character was kept nothing matched. */
  lemma KeptUnmarked(t: string, v: Rule, decimal: set<char>, hid: string, hits: seq<nat>, put: seq<string>,
                     out: string, o: seq<Origin>, p: nat)
    requires Marks(t, v, decimal, hid, hits, put, out, o) && p < |o| && o[p].Kept?
    ensures o[p].at < |t| == |hits| && hits[o[p].at] == 0 && !MatchAt(v, t, o[p].at, decimal)
  {
    assert Tells(t, hits, put, o[p], out[p]);
    MarksAt(t, v, decimal, hid, hits, put, out, o, o[p].at);
  }

  lemma WholeIsShared(shape: Rule, hid: string)
    requires HidesShape(shape, hid) && AllLayout(shape) && hid == Hidden(Sample(shape))
    ensures Shares(shape, |shape|)
  {
    hide Hidden, IsLayout;
    assert shape[..|shape|] == shape && hid == shape && hid[0..] == hid;
  }

  /** The sample twice over: the copies touch, so only one of them is starred out, and then the other stands free. */
  function Doubled(shape: Rule): string { Sample(shape) + Sample(shape) }

  lemma DoubledIsAscii(shape: Rule, decimal: set<char>)
    requires ValidShape(shape) && Decimals(decimal)
    ensures AsciiDigits(Doubled(shape), decimal)
  {
    forall i | 0 <= i < |Doubled(shape)| && Doubled(shape)[i] in decimal ensures IsAsciiDigit(Doubled(shape)[i]) {
      var k := if i < |shape| then i else i - |shape|;
      assert Doubled(shape)[i] == SampleChar(shape[k]);
    }
  }

  /** Before the second copy nothing matches: a letter or digit would touch the match. */
  lemma FirstCopyBlocked(shape: Rule, decimal: set<char>, i: nat)
    requires ValidShape(shape) && Decimals(decimal) && IsAlnumClass(shape[0]) && i < |shape|
    ensures !MatchAt(shape, Doubled(shape), i, decimal)
  {
    hide InClass, Decimals, ReadsFrom, Doubled;
    var n, t := |shape|, Doubled(shape);
    DoubledIsAscii(shape, decimal);
    DoubledRepeats(shape, i);
    if ReadsFrom(shape, 0, t, i, decimal) { ReadsAt(shape, t, i, decimal, 0); }
  }

  lemma DoubledRepeats(shape: Rule, i: nat)
    requires i < |shape|
    ensures |Doubled(shape)| == 2 * |shape| && Doubled(shape)[i + |shape|] == Doubled(shape)[i]
  {
  }

  /** What no match starts in is copied. */
  lemma {:induction false} SubSkips(t: string, hits: seq<nat>, put: seq<string>, i: nat, j: nat)
    requires i <= j <= |t| && Fits(t, hits, put) && forall p: nat | i <= p < j :: hits[p] == 0
    ensures Sub(t, hits, put, i) == t[i..j] + Sub(t, hits, put, j)
    decreases j - i
  {
    if i < j {
      SubSkips(t, hits, put, i + 1, j);
    }
  }

  /** One match in a text: everything before it is copied, and so is everything after. */
  lemma OneMatch(t: string, hits: seq<nat>, put: seq<string>, q: nat)
    requires Fits(t, hits, put) && q < |t| && hits[q] > 0
    requires forall p: nat | p < |t| && (p < q || q + hits[q] <= p) :: hits[p] == 0
    ensures Sub(t, hits, put, 0) == t[..q] + put[q] + t[q + hits[q]..]
  {
    hide Sub, Count;
    SubSkips(t, hits, put, 0, q);
    SubStep(t, hits, put, q);
    NoMatchNoChange(t, hits, put, q + hits[q]);
  }

  lemma OnlyMatch(t: string, shape: Rule, decimal: set<char>, a: string, s: string, b: string)
    requires t == a + s + b && |s| == |shape| && MatchAt(shape, t, |a|, decimal)
    requires forall p: nat | p < |a| || (|a| + |s| <= p && p + |s| <= |t|) :: !MatchAt(shape, t, p, decimal)
    ensures Masked(t, shape, decimal) == a + Hidden(s) + b
  {
    hide InClass, Hidden, Sub;
    var hits, put, q := Hits(shape, t, decimal), Stars(shape, t), |a|;
    forall p: nat | p < |t| && (p < q || q + hits[q] <= p) ensures hits[p] == 0 {
      if p + |shape| <= |t| { assert !MatchAt(shape, t, p, decimal); }
    }
    OneMatch(t, hits, put, q);
    assert t[..q] == a && t[q + |s|..] == b && t[q..q + |s|] == s;
    assert put[q] == Hidden(s);
  }

  /** The two copies, each read whole. */
  lemma TwoCopies(shape: Rule, decimal: set<char>)
    requires ValidShape(shape) && Decimals(decimal)
    ensures var n, t := |shape|, Doubled(shape);
      && ReadsFrom(shape, 0, t, 0, decimal) && ReadsFrom(shape, 0, t, n, decimal)
      && IsAlnum(t[n]) == IsAlnumClass(shape[0]) && IsAlnum(t[n - 1]) == IsAlnumClass(shape[n - 1])
  {
    hide *;
    var n, t := |shape|, Doubled(shape);
    DoubledAt(shape);
    SampleReads(shape, t, n, decimal);
    SampleReads(shape, t, 0, decimal);
  }

  lemma DoubledAt(shape: Rule)
    ensures var n, t := |shape|, Doubled(shape);
      |t| == n + n && forall i | 0 <= i < n :: t[0 + i] == SampleChar(shape[i]) && t[n + i] == SampleChar(shape[i])
  {
  }

  /** A shape with a class at its front only leaves the first of two touching copies to match afterwards. */
  lemma FrontClassFails(shape: Rule, decimal: set<char>)
    requires ValidShape(shape) && Decimals(decimal)
    requires IsAlnumClass(shape[0]) && !IsAlnumClass(shape[|shape| - 1])
    ensures Matches(shape, Masked(Doubled(shape), shape, decimal), decimal)
  {
    TwoCopies(shape, decimal);
    forall i: nat | i < |shape| ensures !MatchAt(shape, Doubled(shape), i, decimal) {
      FirstCopyBlocked(shape, decimal, i);
    }
    var s := Sample(shape);
    assert s + s == s + s + [];
    OnlyMatch(s + s, shape, decimal, s, s, []);
    assert s + Hidden(s) + [] == s + Hidden(s);
    StandsFreeInFront(shape, Sample(shape), decimal);
  }

  lemma StandsFreeInFront(shape: Rule, s: string, decimal: set<char>)
    requires ValidShape(shape) && Decimals(decimal) && IsAlnumClass(shape[0]) && s == Sample(shape)
    ensures Matches(shape, s + Hidden(s), decimal)
  {
    hide *;
    var hid, out := Hidden(s), s + Hidden(s);
    HiddenSample(shape, decimal);
    HiddenLength(shape, hid);
    Appended(shape, s, hid);
    SampleReads(shape, out, 0, decimal);
    HiddenIsFree(shape, hid, 0);
    MatchGuards(out, shape, decimal, 0);
    MatchFound(shape, out, 0, decimal);
  }

  lemma Appended(shape: Rule, s: string, hid: string)
    requires s == Sample(shape) && |hid| >= |shape|
    ensures |s| == |shape| && (s + hid)[|s|] == hid[0]
    ensures forall i | 0 <= i < |shape| :: (s + hid)[0 + i] == SampleChar(shape[i])
  {
  }

  lemma HiddenLength(v: Rule, hid: string)
    requires HidesShape(v, hid)
    ensures |v| <= |hid|
  {
  }

  /** Where the second copy starts nothing matches: the last letter or digit of the first would touch the match. */
  lemma SecondCopyBlocked(shape: Rule, decimal: set<char>)
    requires ValidShape(shape) && Decimals(decimal)
    requires !IsAlnumClass(shape[0]) && IsAlnumClass(shape[|shape| - 1])
    ensures MatchAt(shape, Doubled(shape), 0, decimal) && !MatchAt(shape, Doubled(shape), |shape|, decimal)
  {
    TwoCopies(shape, decimal);
  }

  /** A shape with a class at its end only leaves the second of two touching copies to match afterwards. */
  lemma BackClassFails(shape: Rule, decimal: set<char>)
    requires ValidShape(shape) && Decimals(decimal)
    requires !IsAlnumClass(shape[0]) && IsAlnumClass(shape[|shape| - 1])
    ensures Matches(shape, Masked(Doubled(shape), shape, decimal), decimal)
  {
    SecondCopyBlocked(shape, decimal);
    var s := Sample(shape);
    MaskedFirstOfTwo(s + s, shape, s, decimal);
    StandsFreeBehind(shape, s, decimal);
  }

  lemma MaskedFirstOfTwo(t: string, shape: Rule, s: string, decimal: set<char>)
    requires t == s + s && |s| == |shape|
    requires MatchAt(shape, t, 0, decimal) && !MatchAt(shape, t, |s|, decimal)
    ensures Masked(t, shape, decimal) == Hidden(s) + s
  {
    var none: string := [];
    assert t == none + s + s;
    forall p: nat | p < |none| || (|none| + |s| <= p && p + |s| <= |t|) ensures !MatchAt(shape, t, p, decimal) {
      assert p == |s|;
    }
    OnlyMatch(t, shape, decimal, none, s, s);
    assert none + Hidden(s) == Hidden(s);
  }

  lemma StandsFreeBehind(shape: Rule, s: string, decimal: set<char>)
    requires ValidShape(shape) && Decimals(decimal) && IsAlnumClass(shape[|shape| - 1]) && s == Sample(shape)
    ensures Matches(shape, Hidden(s) + s, decimal)
  {
    hide *;
    var hid, out := Hidden(s), Hidden(s) + s;
    var p := |hid|;
    HiddenSample(shape, decimal);
    HiddenLength(shape, hid);
    Preceded(shape, s, hid);
    SampleReads(shape, out, p, decimal);
    HiddenIsFree(shape, hid, p - 1);
    MatchGuards(out, shape, decimal, p);
    MatchFound(shape, out, p, decimal);
  }

  lemma Preceded(shape: Rule, s: string, hid: string)
    requires s == Sample(shape) && |hid| >= |shape|
    ensures |s| == |shape| && (hid + s)[|hid| - 1] == hid[|hid| - 1] && |hid + s| == |hid| + |shape|
    ensures forall i | 0 <= i < |shape| :: (hid + s)[|hid| + i] == SampleChar(shape[i])
  {
  }

  lemma SampledIsAscii(shape: Rule, t: string, decimal: set<char>)
    requires ValidShape(shape) && Decimals(decimal) && forall c | c in t :: c in Sample(shape)
    ensures AsciiDigits(t, decimal)
  {
    forall i | 0 <= i < |t| && t[i] in decimal ensures IsAsciiDigit(t[i]) {
      assert t[i] in Sample(shape);
    }
  }

  lemma SampleMatches(shape: Rule, a: string, b: string, decimal: set<char>)
    requires ValidShape(shape) && Decimals(decimal)
    requires (a != [] ==> !IsAlnum(a[|a| - 1])) && (b != [] ==> !IsAlnum(b[0]))
    ensures MatchAt(shape, a + Sample(shape) + b, |a|, decimal)
  {
    hide InClass, Decimals, ReadsFrom, IsAlnum;
    SampleReads(shape, a + Sample(shape) + b, |a|, decimal);
  }

  /** A text in which one copy is starred out and the end of its hidden form begins another. */
  lemma EndLeaves(shape: Rule, decimal: set<char>, k: nat) returns (t: string)
    requires ValidShape(shape) && Decimals(decimal) && Shares(shape, k) && !(k < |shape| && IsAlnumClass(shape[k]))
    ensures AsciiDigits(t, decimal) && Matches(shape, Masked(t, shape, decimal), decimal)
  {
    hide Hidden, Masked, InClass, Decimals, ReadsFrom, MatchAt, IsAlnum, AsciiDigits;
    var n, s := |shape|, Sample(shape);
    var none, b: string := [], s[k..];
    t := none + s + b;
    assert forall c | c in t :: c in s;
    SampledIsAscii(shape, t, decimal);
    if k < n { SampleInClass(shape[k], decimal); }
    SampleMatches(shape, none, b, decimal);
    OnlyMatch(t, shape, decimal, none, s, b);
    EndStandsFree(shape, decimal, k, none + Hidden(s) + b);
  }

  lemma EndStandsFree(shape: Rule, decimal: set<char>, k: nat, out: string)
    requires ValidShape(shape) && Decimals(decimal) && Shares(shape, k) && !(k < |shape| && IsAlnumClass(shape[k]))
    requires out == [] + Hidden(Sample(shape)) + Sample(shape)[k..]
    ensures Matches(shape, out, decimal)
  {
    hide *;
    var hid := Hidden(Sample(shape));
    HiddenSample(shape, decimal);
    SharesAtMost(shape, hid, k);
    EndLength(shape, hid, k, out);
    var p := |hid| - k;
    forall i: nat | i < |shape| ensures SampledAt(shape, out, p, i) { EndAt(shape, hid, k, out, i); }
    SampledStandsFree(shape, hid, decimal, out, p);
  }

  ghost predicate SampledAt(shape: string, out: string, p: nat, i: nat) {
    i < |shape| && p + i < |out| && out[p + i] == SampleChar(shape[i])
  }

  /** The sample stands behind hidden characters, at the end of the text. */
  lemma SampledStandsFree(shape: Rule, hid: string, decimal: set<char>, out: string, p: nat)
    requires ValidShape(shape) && Decimals(decimal) && HidesShape(shape, hid) && p + |shape| == |out|
    requires p > 0 ==> p - 1 < |hid| && out[p - 1] == hid[p - 1]
    requires forall i: nat | i < |shape| :: SampledAt(shape, out, p, i)
    ensures Matches(shape, out, decimal)
  {
    hide HidesShape, Decimals, ValidShape, Matches, MatchAt, ReadsFrom;
    forall i | 0 <= i < |shape| ensures out[p + i] == SampleChar(shape[i]) { assert SampledAt(shape, out, p, i); }
    SampleReads(shape, out, p, decimal);
    if p > 0 { HiddenIsFree(shape, hid, p - 1); }
    MatchGuards(out, shape, decimal, p);
    MatchFound(shape, out, p, decimal);
  }

  lemma SharesAtMost(shape: Rule, hid: string, k: nat)
    requires Shares(shape, k) && HidesShape(shape, hid)
    ensures 1 <= k <= |shape| <= |hid|
  {
  }

  lemma EndLength(shape: Rule, hid: string, k: nat, out: string)
    requires k <= |shape| <= |hid| && out == [] + hid + Sample(shape)[k..]
    ensures |hid| - k + |shape| == |out| && (|hid| > k ==> out[|hid| - k - 1] == hid[|hid| - k - 1])
  {
  }

  lemma EndAt(shape: Rule, hid: string, k: nat, out: string, i: nat)
    requires ValidShape(shape) && Shares(shape, k) && !(k < |shape| && IsAlnumClass(shape[k])) && i < |shape|
    requires k <= |shape| <= |hid|
    requires hid == Hidden(Sample(shape)) && out == [] + hid + Sample(shape)[k..]
    ensures SampledAt(shape, out, |hid| - k, i)
  {
    hide Hidden, IsLayout;
    if i < k {
      assert hid[|hid| - k..][i] == shape[..k][i];
      PieceLayout(shape[i]);
    }
  }

  /** A text in which one copy is held back by the letter or digit of another, and stands free once that is starred
      out. */
  lemma FrontLeaves(shape: Rule, decimal: set<char>, k: nat) returns (t: string)
    requires ValidShape(shape) && Decimals(decimal) && Shares(shape, k) && k < |shape| && IsAlnumClass(shape[k])
    ensures AsciiDigits(t, decimal) && Matches(shape, Masked(t, shape, decimal), decimal)
  {
    hide Hidden, Masked, InClass, Decimals, ReadsFrom, MatchAt, IsAlnum, AsciiDigits;
    var n, s := |shape|, Sample(shape);
    var none: string, a := [], s[..n - k];
    t := a + s + none;
    assert forall c | c in t :: c in s;
    SampledIsAscii(shape, t, decimal);
    SampleInClass(shape[n - k - 1], decimal);
    SampleMatches(shape, a, none, decimal);
    assert t == a + s;
    forall p: nat | p < |a| || (|a| + |s| <= p && p + |s| <= |t|) ensures !MatchAt(shape, t, p, decimal) {
      HeldBack(shape, t, decimal, k, p);
    }
    OnlyMatch(t, shape, decimal, a, s, none);
    FirstStandsFree(shape, decimal, k, a + Hidden(s) + none);
  }

  lemma FirstStandsFree(shape: Rule, decimal: set<char>, k: nat, out: string)
    requires ValidShape(shape) && Decimals(decimal) && Shares(shape, k) && k < |shape| && IsAlnumClass(shape[k])
    requires out == Sample(shape)[..|shape| - k] + Hidden(Sample(shape)) + []
    ensures Matches(shape, out, decimal)
  {
    hide Hidden, InClass, Decimals, ReadsFrom;
    var n, hid := |shape|, Hidden(Sample(shape));
    HiddenSample(shape, decimal);
    SharedFront(shape, hid, k);
    forall i | 0 <= i < n ensures out[0 + i] == SampleChar(shape[i]) {
      if i >= n - k {
        assert shape[n - k..][i - (n - k)] == shape[..k][i - (n - k)];
        PieceLayout(shape[i]);
      }
    }
    SampleReads(shape, out, 0, decimal);
    HiddenIsFree(shape, hid, k);
    assert out[n] == hid[k];
    assert MatchAt(shape, out, 0, decimal);
  }

  lemma SharedFront(shape: Rule, hid: string, k: nat)
    requires HidesShape(shape, hid) && k < |shape| && AllLayout(shape[..k])
    ensures forall i | 0 <= i < k :: hid[i] == shape[i] && IsLayout(shape[i])
  {
    forall i | 0 <= i < k ensures IsLayout(shape[i]) { assert shape[..k][i] == shape[i]; }
  }

  /** The text repeats itself, so what a copy would go on with is a letter or digit again. */
  lemma HeldBack(shape: Rule, t: string, decimal: set<char>, k: nat, p: nat)
    requires ValidShape(shape) && Decimals(decimal) && Shares(shape, k) && k < |shape| && IsAlnumClass(shape[k])
    requires var s := Sample(shape); t == s[..|shape| - k] + s && AsciiDigits(t, decimal) && p < |shape| - k
    ensures !MatchAt(shape, t, p, decimal)
  {
    hide Hidden, InClass, Decimals, ReadsFrom;
    var n, s := |shape|, Sample(shape);
    if ReadsFrom(shape, 0, t, p, decimal) {
      ReadsAt(shape, t, p, decimal, k);
      assert t[p + n] == s[p + k];
      if p + k >= n - k { assert shape[n - k..][p + k - (n - k)] == shape[..k][p + k - (n - k)]; }
      assert t[p + k] == s[p + k];
    }
  }

  lemma MatchFound(shape: string, t: string, p: nat, decimal: set<char>)
    requires MatchAt(shape, t, p, decimal)
    ensures Matches(shape, t, decimal)
  {
  }

  /** A rule leaves no match of itself in any text exactly when it does not reappear. */
  lemma LeavesNoneExactly(shape: Rule, decimal: set<char>)
    requires ValidShape(shape) && Decimals(decimal)
    ensures (forall t: string | AsciiDigits(t, decimal) :: !Matches(shape, Masked(t, shape, decimal), decimal)) <==>
      !Reappears(shape)
  {
    hide Shares, Masked, Decimals;
    if k: nat :| Shares(shape, k) {
      SharingLeaves(shape, decimal, k);
    } else if IsAlnumClass(shape[0]) != IsAlnumClass(shape[|shape| - 1]) {
      DoubledIsAscii(shape, decimal);
      if IsAlnumClass(shape[0]) { FrontClassFails(shape, decimal); } else { BackClassFails(shape, decimal); }
    } else {
      forall t: string, p: nat | AsciiDigits(t, decimal)
        ensures !MatchAt(shape, Masked(t, shape, decimal), p, decimal)
      {
        if MatchAt(shape, Masked(t, shape, decimal), p, decimal) { OnlyReappearing(t, shape, decimal, p); }
      }
    }
  }

  lemma SharingLeaves(shape: Rule, decimal: set<char>, k: nat)
    requires ValidShape(shape) && Decimals(decimal) && Shares(shape, k)
    ensures exists t: string :: AsciiDigits(t, decimal) && Matches(shape, Masked(t, shape, decimal), decimal)
  {
    if k < |shape| && IsAlnumClass(shape[k]) {
      var t := FrontLeaves(shape, decimal, k);
    } else {
      var t := EndLeaves(shape, decimal, k);
    }
  }

  /** Two rules the code makes: one leaves a match of itself in some text, and the same without its front '-' in
      none. */
  lemma SharingRulesAreLearned(shape: Rule, bare: Rule, decimal: set<char>)
    requires Decimals(decimal) && bare == "\U{AC00}A###-" && shape == "-" + bare
    ensures MakesRule(shape) && ValidShape(shape) && Reappears(shape)
    ensures MakesRule(bare) && ValidShape(bare) && !Reappears(bare)
  {
    hide Shares, MakesRule, ValidShape, Sample, Hidden;
    BareIsLearned(bare);
    assert bare[0] == '\U{AC00}' && bare[|bare| - 1] == '-' && shape[0] == '-' && shape[|shape| - 1] == '-';
    IsLearned("-");
    SharesItsEnds(shape, decimal);
    forall k: nat ensures !Shares(bare, k) { SharesNoFront(bare, k); }
  }

  lemma BareIsLearned(bare: Rule)
    requires bare == "\U{AC00}A###-"
    ensures MakesRule(bare) && ValidShape(bare) && ValidShape("-" + bare)
  {
    hide MakesRule;
    assert [] + "\U{AC00}A###-" == bare;
    IsLearned([]);
    assert IsPiece('\U{AC00}') && IsPiece('A') && IsPiece('#') && IsPiece('-');
    assert bare[1] == 'A' && bare[2] == '#' && bare[3] == '#' && bare[4] == '#';
    forall i | 0 <= i < |bare| ensures IsPiece(bare[i]) {}
    assert forall i | 0 <= i < |"-" + bare| :: i > 0 ==> ("-" + bare)[i] == bare[i - 1];
  }

  lemma IsLearned(front: string)
    requires |front| <= 1
    ensures MakesRule(front + "\U{AC00}A###-")
  {
    var shape, n := front + "\U{AC00}A###-", |front|;
    assert shape[n + 1] == 'A' && shape[n + 2] == '#';
    CountsFive(front);
  }

  lemma SharesNoFront(shape: Rule, k: nat)
    requires IsHangul(shape[0])
    ensures !Shares(shape, k)
  {
    LayoutFacts(shape[0]);
    if 1 <= k <= |shape| { assert shape[..k][0] == shape[0]; }
  }

  lemma CountSnoc(shape: string, piece: char)
    ensures CountClassed(shape + [piece]) == CountClassed(shape) + if IsSeparator(piece) then 0 else 1
  {
    assert (shape + [piece])[..|shape|] == shape;
  }

  lemma {:induction false} AllClassed(shape: string)
    requires forall i | 0 <= i < |shape| :: !IsSeparator(shape[i])
    ensures CountClassed(shape) == |shape|
  {
    if shape != [] { AllClassed(shape[..|shape| - 1]); }
  }

  lemma {:induction false} MoreClassed(front: string, shape: string)
    ensures CountClassed(front + shape) >= CountClassed(shape)
  {
    if shape != [] {
      var n := |shape| - 1;
      MoreClassed(front, shape[..n]);
      assert front + shape == (front + shape[..n]) + [shape[n]] && shape == shape[..n] + [shape[n]];
      CountSnoc(front + shape[..n], shape[n]);
      CountSnoc(shape[..n], shape[n]);
    }
  }

  lemma CountsFive(front: string)
    ensures CountClassed(front + "\U{AC00}A###-") >= 5
  {
    hide CountClassed;
    var five := "\U{AC00}A###";
    assert "\U{AC00}A###-" == five + "-";
    AllClassed(five);
    CountSnoc(five, '-');
    MoreClassed(front, five + "-");
  }

  lemma SharesItsEnds(shape: Rule, decimal: set<char>)
    requires Decimals(decimal) && shape == "-" + "\U{AC00}A###-"
    ensures Shares(shape, 1)
  {
    var sample := Sample(shape);
    forall i | 0 <= i < |shape|
      ensures sample[i] != ' ' && Starred(sample)[i] == (if IsLayout(shape[i]) then shape[i] else MASK_CHAR)
    {
      assert IsPiece(shape[i]);
      SampleInClass(shape[i], decimal);
      PieceTells(shape[i], sample[i], decimal);
    }
    LayoutFacts(shape[1]);
    LayoutFacts(shape[2]);
    assert FirstSpace(sample) == |sample| && DoubleAt(Starred(sample), 1);
    assert Hidden(sample) == Starred(sample);
    assert Starred(sample)[6..] == shape[..1];
  }
}
