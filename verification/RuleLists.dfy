/** `masking_rules.apply`: a team's rules, one after the other. */
module RuleLists {
  import opened Characters
  import opened Replacement
  import opened Reported
  import opened MaskingRules

  // ---- Texts by the pieces they read -------------------------------------------------------------------------

  /** The text reads the pieces one by one, and every digit in it is an ASCII one. */
  ghost predicate Spells(t: string, pieces: string, decimal: set<char>) {
    |t| == |pieces| && AsciiDigits(t, decimal)
    && forall i | 0 <= i < |pieces| :: IsPiece(pieces[i]) && InClass(pieces[i], t[i], decimal)
  }

  /** The shape stands among the pieces, and no Latin or digit class touches it. */
  predicate StandsIn(shape: string, pieces: string, x: nat) {
    && x + |shape| <= |pieces| && pieces[x..x + |shape|] == shape && (x > 0 ==> !IsAlnumClass(pieces[x - 1]))
    && (x + |shape| < |pieces| ==> !IsAlnumClass(pieces[x + |shape|]))
  }

  lemma OnePiece(a: char, b: char, c: char, decimal: set<char>)
    requires IsPiece(a) && IsPiece(b) && Decimals(decimal) && (c in decimal ==> IsAsciiDigit(c))
    requires InClass(a, c, decimal) && InClass(b, c, decimal)
    ensures a == b
  {
  }

  /** In a text that spells them a shape matches just where it stands among the pieces. */
  lemma MatchesWhereItStands(shape: Rule, t: string, pieces: string, decimal: set<char>, x: nat)
    requires ValidShape(shape) && Decimals(decimal) && Spells(t, pieces, decimal)
    ensures MatchAt(shape, t, x, decimal) <==> StandsIn(shape, pieces, x)
  {
    hide IsPiece, InClass, IsAlnumClass, IsAlnum, IsLayout, Decimals;
    ReadsWhereItStands(shape, t, pieces, decimal, x);
    if x + |shape| <= |t| {
      if x > 0 { AlnumBySpelling(t, pieces, decimal, x - 1); }
      if x + |shape| < |t| { AlnumBySpelling(t, pieces, decimal, x + |shape|); }
    }
  }

  lemma AlnumBySpelling(t: string, pieces: string, decimal: set<char>, i: nat)
    requires Decimals(decimal) && Spells(t, pieces, decimal) && i < |t|
    ensures IsAlnum(t[i]) <==> IsAlnumClass(pieces[i])
  {
    PieceTells(pieces[i], t[i], decimal);
  }

  lemma ReadsWhereItStands(shape: Rule, t: string, pieces: string, decimal: set<char>, x: nat)
    requires ValidShape(shape) && Decimals(decimal) && Spells(t, pieces, decimal)
    ensures ReadsFrom(shape, 0, t, x, decimal) <==> x + |shape| <= |pieces| && pieces[x..x + |shape|] == shape
  {
    hide IsPiece, InClass, Decimals;
    if ReadsFrom(shape, 0, t, x, decimal) {
      forall i | 0 <= i < |shape| ensures pieces[x..x + |shape|][i] == shape[i] {
        assert InClass(shape[i], t[x + (i - 0)], decimal);
        OnePiece(shape[i], pieces[x + i], t[x + i], decimal);
      }
    }
    if x + |shape| <= |pieces| && pieces[x..x + |shape|] == shape {
      forall i | 0 <= i < |shape| ensures InClass(shape[i], t[x + (i - 0)], decimal) {
        assert pieces[x..x + |shape|][i] == pieces[x + i];
      }
    }
  }

  lemma SampleSpells(pieces: string, decimal: set<char>)
    requires Decimals(decimal) && forall i | 0 <= i < |pieces| :: IsPiece(pieces[i])
    ensures Spells(Sample(pieces), pieces, decimal)
  {
    forall i | 0 <= i < |pieces| ensures InClass(pieces[i], Sample(pieces)[i], decimal)
    {
      SampleInClass(pieces[i], decimal);
    }
  }

  /** Where a shape stands in a part of the text no letter or digit touches, it matches in the text. */
  lemma MatchesInPart(shape: Rule, t: string, from: nat, end: nat, pieces: string, decimal: set<char>, x: nat)
    requires ValidShape(shape) && Decimals(decimal) && from <= end <= |t| && Spells(t[from..end], pieces, decimal)
    requires StandsIn(shape, pieces, x)
    requires x == 0 && from > 0 ==> !IsAlnum(t[from - 1])
    requires x + |shape| == |pieces| && end < |t| ==> !IsAlnum(t[end])
    ensures MatchAt(shape, t, from + x, decimal)
  {
    hide IsPiece, InClass, IsAlnum, Decimals, Spells;
    var part := t[from..end];
    MatchesWhereItStands(shape, part, pieces, decimal, x);
    assert |part| == |pieces| by { SpelledLength(part, pieces, decimal); }
    forall i | 0 <= i < |shape| ensures InClass(shape[i], t[from + x + (i - 0)], decimal) {
      assert InClass(shape[i], part[x + (i - 0)], decimal);
    }
    if x > 0 { assert part[x - 1] == t[from + x - 1]; }
    if x + |shape| < |pieces| { assert part[x + |shape|] == t[from + x + |shape|]; }
  }

  lemma SpelledLength(t: string, pieces: string, decimal: set<char>)
    requires Spells(t, pieces, decimal)
    ensures |t| == |pieces|
  {
  }

  // ---- When a later rule frees an earlier one ----------------------------------------------------------------

  /** The shape stands nowhere from `lo` on and before `hi`. */
  ghost predicate StandsNowhere(shape: string, pieces: string, lo: nat, hi: nat) {
    forall x: nat | lo <= x < hi :: !StandsIn(shape, pieces, x)
  }

  /** `w` does not stand among the pieces. */
  ghost predicate Clear(w: string, pieces: string) { StandsNowhere(w, pieces, 0, |pieces|) }

  /** The `k` separators a hidden match of `v` ends with begin `w`. */
  ghost predicate EndsAs(v: Rule, w: Rule, k: nat) {
    k < |w| && AllLayout(w[..k]) && EndsIn(Hidden(Sample(v)), w[..k]) && !IsAlnumClass(w[k])
  }

  /** The `l` separators a match of `v` begins with end `w`. */
  ghost predicate BeginsAs(v: Rule, w: Rule, l: nat) {
    l < |w| && l <= |v| && AllLayout(v[..l]) && w[|w| - l..] == v[..l] && !IsAlnumClass(w[|w| - l - 1])
  }

  /** Behind a match of `v`: `w` is held back by its last letter or digit. */
  ghost predicate FreesBehind(v: Rule, w: Rule, k: nat) {
    EndsAs(v, w, k) && var pieces := v + w[k..]; Clear(w, pieces) && StandsNowhere(v, pieces, |v|, |pieces|)
  }

  /** Before a match of `v`: `w` is held back by its first letter or digit. */
  ghost predicate FreesBefore(v: Rule, w: Rule, l: nat) {
    BeginsAs(v, w, l) && var pieces := w[..|w| - l] + v; Clear(w, pieces) && StandsNowhere(v, pieces, 0, |w| - l)
  }

  /** Between two matches of `v`. */
  ghost predicate FreesBetween(v: Rule, w: Rule, k: nat, l: nat) {
    EndsAs(v, w, k) && BeginsAs(v, w, l) && k + l < |w| &&
    var middle := w[k..|w| - l]; var pieces := v + middle + v;
    Clear(w, pieces) && StandsNowhere(v, pieces, |v|, |v| + |middle|)
  }

  /** Starring out `v` can free a match of `w` that was held back. */
  ghost predicate Frees(v: Rule, w: Rule) {
    || (exists k: nat :: FreesBehind(v, w, k))
    || (exists l: nat :: FreesBefore(v, w, l))
    || (exists k: nat, l: nat :: FreesBetween(v, w, k, l))
  }

  /** Where a match of `w` that starring out `v` has freed lies in the text: whether a match of `v` stood before it, and
      whether one stood after. */
  ghost predicate Neighbours(t: string, v: Rule, w: Rule, hits: seq<nat>, k: nat, l: nat, q: nat, before: bool,
                             after: bool)
  {
    && k + l < |w| && k < |v| && l < |v| && q + |w| <= |t| == |hits|
    && (before ==> |v| <= q + k && hits[q + k - |v|] > 0 && v[|v| - k..] == w[..k])
    && (!before ==> k == 0 && (q > 0 ==> !IsAlnum(t[q - 1])))
    && (after ==> q + |w| - l < |t| && hits[q + |w| - l] > 0 && w[|w| - l..] == v[..l])
    && (!after ==> l == 0 && (q + |w| < |t| ==> !IsAlnum(t[q + |w|])))
    && (forall i: nat | q + k <= i < q + |w| - l :: hits[i] == 0)
  }

  lemma FindNeighbours(t: string, v: Rule, w: Rule, decimal: set<char>, hid: string, hits: seq<nat>, put: seq<string>,
                       out: string, o: seq<Origin>, p: nat, k: nat, l: nat, q: nat) returns (before: bool, after: bool)
    requires ValidShape(v) && ValidShape(w) && Decimals(decimal) && AsciiDigits(t, decimal) && hid == Hidden(Sample(v))
    requires Marks(t, v, decimal, hid, hits, put, out, o) && MatchAt(w, out, p, decimal) && !MatchAt(w, t, q, decimal)
    requires LiesAt(t, v, w, hid, hits, o, p, k, l, q) && ReadsFrom(w, 0, t, q, decimal)
    ensures Neighbours(t, v, w, hits, k, l, q, before, after) && (before || after)
    ensures (before ==> EndsAs(v, w, k)) && (after ==> BeginsAs(v, w, l))
  {
    hide Hidden, InClass, ReadsFrom, Decimals, IsAlnum, Marks, IsLayout, AllLayout, EndsIn, ValidShape, IsAlnumClass;
    before, after := k > 0 || (q > 0 && IsAlnum(t[q - 1])), l > 0 || (q + |w| < |t| && IsAlnum(t[q + |w|]));
    MatchReads(out, w, decimal, p);
    MatchGuards(out, w, decimal, p);
    MatchGuards(t, w, decimal, q);
    if q > 0 && IsAlnum(t[q - 1]) { FreedInFront(t, v, w, decimal, hid, hits, put, out, o, p, k, l, q); }
    if q + |w| < |t| && IsAlnum(t[q + |w|]) { FreedBehind(t, v, w, decimal, hid, hits, put, out, o, p, k, l, q); }
    if before { GoesOnFree(t, v, w, decimal, hid, hits, put, out, o, q, k); }
    if after { ComesInFree(t, v, w, decimal, hid, hits, put, out, o, q, l); }
    forall i: nat | q + k <= i < q + |w| - l ensures hits[i] == 0 {
      assert KeptFrom(o, p, q, i - q);
      KeptUnmarked(t, v, decimal, hid, hits, put, out, o, p + (i - q));
    }
    SlicesOfNone(v, w);
  }

  lemma SlicesOfNone(v: string, w: string)
    ensures v[|v|..] == w[..0] && w[|w|..] == v[..0]
  {
  }

  function Part(v: Rule, w: Rule, k: nat, l: nat, before: bool, after: bool): string
    requires k + l <= |w|
  {
    (if before then v else "") + w[k..|w| - l] + if after then v else ""
  }

  /** That part of the text, from the one match of `v` to the other, spells the pieces of the two shapes. */
  lemma PartSpells(t: string, v: Rule, w: Rule, decimal: set<char>, hits: seq<nat>, k: nat, l: nat, q: nat,
                   before: bool, after: bool)
    requires ValidShape(v) && ValidShape(w) && Decimals(decimal) && AsciiDigits(t, decimal)
    requires Neighbours(t, v, w, hits, k, l, q, before, after) && ReadsFrom(w, 0, t, q, decimal)
    requires before ==> ReadsFrom(v, 0, t, q + k - |v|, decimal)
    requires after ==> ReadsFrom(v, 0, t, q + |w| - l, decimal)
    ensures var from, end := if before then q + k - |v| else q, if after then q + |w| - l + |v| else q + |w|;
      from <= end <= |t| && Spells(t[from..end], Part(v, w, k, l, before, after), decimal)
  {
    hide InClass, Decimals, IsAlnum, IsPiece, ReadsFrom, ValidShape, Part;
    var from, end := if before then q + k - |v| else q, if after then q + |w| - l + |v| else q + |w|;
    var pieces := Part(v, w, k, l, before, after);
    PartEnds(t, v, w, decimal, hits, k, l, q, before, after);
    assert |pieces| == end - from by { PartLength(v, w, k, l, before, after); }
    forall i | 0 <= i < |pieces| ensures IsPiece(pieces[i]) && InClass(pieces[i], t[from..end][i], decimal) {
      PartAt(t, v, w, decimal, hits, k, l, q, before, after, i);
    }
    forall i | 0 <= i < |t[from..end]| ensures t[from..end][i] in decimal ==> IsAsciiDigit(t[from..end][i])
    {
      assert t[from..end][i] == t[from + i];
    }
  }

  lemma PartEnds(t: string, v: Rule, w: Rule, decimal: set<char>, hits: seq<nat>, k: nat, l: nat, q: nat, before: bool,
                 after: bool)
    requires Neighbours(t, v, w, hits, k, l, q, before, after) && (after ==> ReadsFrom(v, 0, t, q + |w| - l, decimal))
    ensures var from, end := if before then q + k - |v| else q, if after then q + |w| - l + |v| else q + |w|;
      0 <= from <= end <= |t|
  {
  }

  lemma PartLength(v: Rule, w: Rule, k: nat, l: nat, before: bool, after: bool)
    requires k + l <= |w|
    ensures |Part(v, w, k, l, before, after)| == (if before then |v| else 0) + (|w| - l - k) + if after then |v| else 0
  {
  }

  lemma PartAt(t: string, v: Rule, w: Rule, decimal: set<char>, hits: seq<nat>, k: nat, l: nat, q: nat, before: bool,
               after: bool, i: nat)
    requires ValidShape(v) && ValidShape(w) && Neighbours(t, v, w, hits, k, l, q, before, after)
    requires ReadsFrom(w, 0, t, q, decimal)
    requires before ==> ReadsFrom(v, 0, t, q + k - |v|, decimal)
    requires after ==> ReadsFrom(v, 0, t, q + |w| - l, decimal)
    requires i < |Part(v, w, k, l, before, after)|
    ensures var pieces, from := Part(v, w, k, l, before, after), if before then q + k - |v| else q;
      from + i < |t| && IsPiece(pieces[i]) && InClass(pieces[i], t[from + i], decimal)
  {
    hide *;
    var m, lo := |w| - l - k, if before then |v| else 0;
    NeighbourPlaces(t, v, w, hits, k, l, q, before, after);
    PartIndex(v, w, k, l, before, after, i);
    if i < lo {
      ReadsPiece(v, t, q + k - |v|, decimal, i);
    } else if i < lo + m {
      ReadsPiece(w, t, q, decimal, k + i - lo);
    } else {
      ReadsPiece(v, t, q + |w| - l, decimal, i - lo - m);
    }
  }

  lemma NeighbourPlaces(t: string, v: Rule, w: Rule, hits: seq<nat>, k: nat, l: nat, q: nat, before: bool, after: bool)
    requires Neighbours(t, v, w, hits, k, l, q, before, after)
    ensures k + l < |w| && (before ==> |v| <= q + k) && (!before ==> k == 0)
  {
  }

  lemma ReadsPiece(shape: Rule, t: string, p: nat, decimal: set<char>, j: nat)
    requires ValidShape(shape) && ReadsFrom(shape, 0, t, p, decimal) && j < |shape|
    ensures p + j < |t| && IsPiece(shape[j]) && InClass(shape[j], t[p + j], decimal)
  {
    hide InClass, IsPiece;
    assert InClass(shape[j], t[p + (j - 0)], decimal);
  }

  lemma PartIndex(v: Rule, w: Rule, k: nat, l: nat, before: bool, after: bool, i: nat)
    requires k + l <= |w| && i < |Part(v, w, k, l, before, after)|
    ensures var pieces, m, lo := Part(v, w, k, l, before, after), |w| - l - k, if before then |v| else 0;
      if i < lo then pieces[i] == v[i] else if i < lo + m then pieces[i] == w[k + i - lo]
      else after && i - lo - m < |v| && pieces[i] == v[i - lo - m]
  {
  }

  /** Nothing of `w` stands in that part, and `v` only where it was matched. */
  lemma PartIsClear(t: string, v: Rule, w: Rule, decimal: set<char>, hits: seq<nat>, k: nat, l: nat, q: nat,
                    before: bool, after: bool)
    requires ValidShape(v) && ValidShape(w) && Decimals(decimal) && AsciiDigits(t, decimal) && !Matches(w, t, decimal)
    requires Neighbours(t, v, w, hits, k, l, q, before, after) && ReadsFrom(w, 0, t, q, decimal)
    requires forall i: nat | i < |t| && hits[i] == 0 :: !MatchAt(v, t, i, decimal)
    requires before ==> MatchAt(v, t, q + k - |v|, decimal)
    requires after ==> MatchAt(v, t, q + |w| - l, decimal)
    ensures var pieces, lo := Part(v, w, k, l, before, after), if before then |v| else 0;
      Clear(w, pieces) && StandsNowhere(v, pieces, lo, lo + |w| - l - k)
  {
    hide ReadsFrom, InClass, Decimals, IsAlnum, ValidShape, StandsIn, Spells, Part;
    var from, end := if before then q + k - |v| else q, if after then q + |w| - l + |v| else q + |w|;
    var pieces, lo := Part(v, w, k, l, before, after), if before then |v| else 0;
    if before { MatchReads(t, v, decimal, q + k - |v|); }
    if after { MatchReads(t, v, decimal, q + |w| - l); }
    PartSpells(t, v, w, decimal, hits, k, l, q, before, after);
    forall x: nat | x < |pieces| ensures !StandsIn(w, pieces, x) {
      if StandsIn(w, pieces, x) { MatchesInPart(w, t, from, end, pieces, decimal, x); }
    }
    forall x: nat | lo <= x < lo + |w| - l - k ensures !StandsIn(v, pieces, x) {
      assert q + k <= from + x < q + |w| - l && hits[from + x] == 0;
      if StandsIn(v, pieces, x) { MatchesInPart(v, t, from, end, pieces, decimal, x); }
    }
  }

  /** What masking makes a match of `w`, a text without one holding it back, is freed. */
  lemma OnlyFreed(t: string, v: Rule, w: Rule, decimal: set<char>, p: nat)
    requires ValidShape(v) && ValidShape(w) && Decimals(decimal) && AsciiDigits(t, decimal) && !AllLayout(w)
    requires !Matches(w, t, decimal) && MatchAt(w, Masked(t, v, decimal), p, decimal)
    ensures Frees(v, w)
  {
    hide Hidden, Masked, InClass, ReadsFrom, HidesShape, Decimals, IsAlnum;
    hide Frees, AllLayout, ValidShape, LiesAt, MatchAt;
    var hid, out := Hidden(Sample(v)), Masked(t, v, decimal);
    HiddenSample(v, decimal);
    if AllLayout(v) {
      SeparatorsStay(t, v, decimal);
    } else {
      var hits, put, o := ScanAny(t, v, decimal);
      MatchReads(out, w, decimal, p);
      var k, l, q := Locate(t, v, w, decimal, hid, hits, put, out, o, p);
      var before, after := FindNeighbours(t, v, w, decimal, hid, hits, put, out, o, p, k, l, q);
      MarksAll(t, v, decimal, hid, hits, put, out, o);
      PartIsClear(t, v, w, decimal, hits, k, l, q, before, after);
      FreesByPart(v, w, k, l, before, after);
    }
  }

  lemma MarksAll(t: string, v: Rule, decimal: set<char>, hid: string, hits: seq<nat>, put: seq<string>,
                 out: string, o: seq<Origin>)
    requires Marks(t, v, decimal, hid, hits, put, out, o)
    ensures |hits| == |t| && forall i: nat | i < |t| :: hits[i] > 0 <==> MatchAt(v, t, i, decimal)
  {
    forall i: nat | i < |t| ensures hits[i] > 0 <==> MatchAt(v, t, i, decimal)
    {
      MarksAt(t, v, decimal, hid, hits, put, out, o, i);
    }
  }

  lemma FreesByPart(v: Rule, w: Rule, k: nat, l: nat, before: bool, after: bool)
    requires k + l < |w| && (before || after) && (before ==> EndsAs(v, w, k)) && (after ==> BeginsAs(v, w, l))
    requires (!before ==> k == 0) && (!after ==> l == 0)
    requires var pieces, lo := Part(v, w, k, l, before, after), if before then |v| else 0;
      Clear(w, pieces) && StandsNowhere(v, pieces, lo, lo + |w| - l - k)
    ensures Frees(v, w)
  {
    hide Clear, StandsNowhere, EndsAs, BeginsAs;
    var middle := w[k..|w| - l];
    if before && after {
      assert FreesBetween(v, w, k, l);
    } else if before {
      assert v + middle + "" == v + w[k..];
      assert FreesBehind(v, w, k);
    } else {
      assert "" + middle + v == w[..|w| - l] + v;
      assert FreesBefore(v, w, l);
    }
  }

  // ---- A text that shows it ----------------------------------------------------------------------------------

  lemma SampleOfTwo(a: string, b: string)
    ensures Sample(a + b) == Sample(a) + Sample(b)
  {
  }

  /** What is left of the sample once `v` is starred out. */
  function Left(v: Rule, w: Rule, k: nat, l: nat, before: bool, after: bool): string
    requires k + l <= |w|
  {
    (if before then Hidden(Sample(v)) else "") + Sample(w[k..|w| - l]) + if after then Hidden(Sample(v)) else ""
  }

  lemma StandsInWhatIsLeft(v: Rule, w: Rule, k: nat, l: nat, before: bool, after: bool, decimal: set<char>)
    requires ValidShape(v) && ValidShape(w) && Decimals(decimal) && k + l < |w|
    requires (before ==> EndsAs(v, w, k)) && (after ==> BeginsAs(v, w, l))
    requires (!before ==> k == 0) && (!after ==> l == 0)
    ensures Matches(w, Left(v, w, k, l, before, after), decimal)
  {
    hide *;
    var hid, out, m := Hidden(Sample(v)), Left(v, w, k, l, before, after), |w|;
    var p := if before then |hid| - k else 0;
    HiddenSample(v, decimal);
    HiddenLength(v, hid);
    LeftEnds(v, w, k, l, before, after);
    forall i | 0 <= i < m ensures p + i < |out| && out[p + i] == SampleChar(w[i]) {
      LeftAt(v, w, k, l, before, after, decimal, p, i);
    }
    SampleReads(w, out, p, decimal);
    if p > 0 { HiddenIsFree(v, hid, p - 1); }
    if p + m < |out| { HiddenIsFree(v, hid, l); }
    MatchGuards(out, w, decimal, p);
    MatchFound(w, out, p, decimal);
  }

  lemma LeftEnds(v: Rule, w: Rule, k: nat, l: nat, before: bool, after: bool)
    requires k + l < |w| && |v| <= |Hidden(Sample(v))| && (before ==> EndsAs(v, w, k)) && (after ==> BeginsAs(v, w, l))
    requires (!before ==> k == 0) && (!after ==> l == 0)
    ensures var hid, out, m := Hidden(Sample(v)), Left(v, w, k, l, before, after), |w|;
      var p := if before then |hid| - k else 0;
      && 0 <= p && p + m <= |out| && (p > 0 ==> p - 1 < |hid| && out[p - 1] == hid[p - 1])
      && (p + m < |out| ==> l < |hid| && out[p + m] == hid[l])
  {
    hide Hidden, IsLayout, IsAlnumClass;
  }

  lemma EndAsAt(v: Rule, w: Rule, k: nat, i: nat)
    requires ValidShape(w) && EndsAs(v, w, k) && i < k
    ensures var hid := Hidden(Sample(v)); k <= |hid| && hid[|hid| - k + i] == SampleChar(w[i])
  {
    hide Hidden, IsLayout;
    var hid := Hidden(Sample(v));
    assert hid[|hid| - k..][i] == w[..k][i] == w[i];
    PieceLayout(w[i]);
  }

  lemma BeginAsAt(v: Rule, w: Rule, hid: string, l: nat, j: nat)
    requires ValidShape(w) && BeginsAs(v, w, l) && HidesShape(v, hid) && j < l
    ensures hid[j] == SampleChar(w[|w| - l + j])
  {
    hide IsLayout;
    assert w[|w| - l..][j] == v[..l][j] == w[|w| - l + j] == v[j] && IsLayout(v[j]);
    PieceLayout(v[j]);
  }

  lemma LeftAt(v: Rule, w: Rule, k: nat, l: nat, before: bool, after: bool, decimal: set<char>, p: nat, i: nat)
    requires ValidShape(v) && ValidShape(w) && Decimals(decimal) && k + l < |w| && i < |w|
    requires HidesShape(v, Hidden(Sample(v)))
    requires (before ==> EndsAs(v, w, k)) && (after ==> BeginsAs(v, w, l))
    requires (!before ==> k == 0) && (!after ==> l == 0)
    requires p == if before then |Hidden(Sample(v))| - k else 0
    ensures var out := Left(v, w, k, l, before, after); p + i < |out| && out[p + i] == SampleChar(w[i])
  {
    hide Hidden, InClass, Decimals, IsAlnum, ReadsFrom, HidesShape, IsLayout, IsAlnumClass;
    var hid, m := Hidden(Sample(v)), |w|;
    if i < k {
      EndAsAt(v, w, k, i);
    } else if i < m - l {
      assert w[k..m - l][i - k] == w[i];
    } else {
      HiddenLength(v, hid);
      BeginAsAt(v, w, hid, l, i - (m - l));
    }
  }

  /** Two matches with kept characters between them. */
  lemma TwoMatches(t: string, hits: seq<nat>, put: seq<string>, n: nat, s: nat)
    requires Fits(t, hits, put) && 0 < n <= s && s + n == |t| && hits[0] == n && hits[s] == n
    requires forall p: nat | n <= p < s :: hits[p] == 0
    ensures Sub(t, hits, put, 0) == put[0] + t[n..s] + put[s]
  {
    SubSkips(t, hits, put, n, s);
    SubStep(t, hits, put, 0);
    SubStep(t, hits, put, s);
    assert Sub(t, hits, put, |t|) == [];
    assert Sub(t, hits, put, s) == put[s];
  }

  lemma MaskedTwice(v: Rule, s: string, middle: string, t: string, decimal: set<char>)
    requires t == s + middle + s && |s| == |v| && MatchAt(v, t, 0, decimal) && MatchAt(v, t, |s| + |middle|, decimal)
    requires forall p: nat | |s| <= p < |s| + |middle| :: !MatchAt(v, t, p, decimal)
    ensures Masked(t, v, decimal) == Hidden(s) + middle + Hidden(s)
  {
    hide *;
    SlicesOfTwice(s, middle, t);
    MaskedAtBothEnds(v, s, t, |s| + |middle|, decimal);
  }

  lemma MaskedAtBothEnds(v: Rule, s: string, t: string, at: nat, decimal: set<char>)
    requires |s| == |v| <= at && at + |s| == |t| && t[0..0 + |s|] == s && t[at..at + |s|] == s
    requires MatchAt(v, t, 0, decimal) && MatchAt(v, t, at, decimal)
    requires forall p: nat | |s| <= p < at :: !MatchAt(v, t, p, decimal)
    ensures Masked(t, v, decimal) == Hidden(s) + t[|s|..at] + Hidden(s)
  {
    hide *;
    var hits, put := Hits(v, t, decimal), Stars(v, t);
    HitsInside(t, v, decimal);
    MaskedIsSub(v, t, decimal);
    HitsAtBothEnds(v, t, at, decimal);
    PutAtBothEnds(v, s, t, at);
    TwoMatches(t, hits, put, |v|, at);
  }

  lemma HitsAtBothEnds(v: Rule, t: string, at: nat, decimal: set<char>)
    requires |v| <= at && at + |v| == |t|
    requires MatchAt(v, t, 0, decimal) && MatchAt(v, t, at, decimal)
    requires forall p: nat | |v| <= p < at :: !MatchAt(v, t, p, decimal)
    ensures var hits := Hits(v, t, decimal);
      hits[0] == |v| && hits[at] == |v| && forall p: nat | |v| <= p < at :: hits[p] == 0
  {
    hide MatchAt;
  }

  lemma PutAtBothEnds(v: Rule, s: string, t: string, at: nat)
    requires |s| == |v| <= at && at + |s| == |t| && t[0..0 + |s|] == s && t[at..at + |s|] == s
    ensures Stars(v, t)[0] == Hidden(s) && Stars(v, t)[at] == Hidden(s)
  {
    hide *;
    PutAt(v, t, 0);
    PutAt(v, t, at);
  }

  lemma SlicesOfTwice(s: string, middle: string, t: string)
    requires t == s + middle + s
    ensures var at := |s| + |middle|;
      |t| == at + |s| && t[0..0 + |s|] == s && t[at..at + |s|] == s && t[|s|..at] == middle
  {
  }

  lemma MaskedIsSub(v: Rule, t: string, decimal: set<char>)
    requires Fits(t, Hits(v, t, decimal), Stars(v, t))
    ensures Masked(t, v, decimal) == Sub(t, Hits(v, t, decimal), Stars(v, t), 0)
  {
  }

  lemma PutAt(v: Rule, t: string, i: nat)
    requires i + |v| <= |t|
    ensures |Stars(v, t)| == |t| && Stars(v, t)[i] == Hidden(t[i..i + |v|])
  {
    hide Hidden;
  }

  /** The sample of that part: `w` does not match in it, and scanning it for `v` leaves what it should. */
  lemma MaskedSample(v: Rule, w: Rule, k: nat, l: nat, before: bool, after: bool, decimal: set<char>)
    requires ValidShape(v) && ValidShape(w) && Decimals(decimal) && k + l < |w| && (before || after)
    requires (before ==> EndsAs(v, w, k)) && (after ==> BeginsAs(v, w, l))
    requires (!before ==> k == 0) && (!after ==> l == 0)
    requires var pieces, lo := Part(v, w, k, l, before, after), if before then |v| else 0;
      Clear(w, pieces) && StandsNowhere(v, pieces, lo, lo + |w| - l - k)
    ensures var t := Sample(Part(v, w, k, l, before, after));
      AsciiDigits(t, decimal) && !Matches(w, t, decimal) && Masked(t, v, decimal) == Left(v, w, k, l, before, after)
  {
    hide *;
    var pieces, s, middle := Part(v, w, k, l, before, after), Sample(v), Sample(w[k..|w| - l]);
    var t := Sample(pieces);
    PartIsPieces(v, w, k, l, before, after);
    SampleSpells(pieces, decimal);
    SpelledAscii(t, pieces, decimal);
    NoMatchWhereClear(w, t, pieces, decimal);
    var lo := if before then |v| else 0;
    NoMatchWhereNoneStands(v, t, pieces, decimal, lo, lo + |w| - l - k);
    SampleOfPart(v, w, k, l, before, after);
    LeftOfPart(v, w, k, l, before, after);
    if before {
      StandsFirst(v, w, k, l, after);
      MatchesWhereItStands(v, t, pieces, decimal, 0);
    }
    if after {
      StandsLast(v, w, k, l, before);
      MatchesWhereItStands(v, t, pieces, decimal, |pieces| - |v|);
    }
    if before && after {
      MaskedTwice(v, s, middle, t, decimal);
    } else if before {
      MaskedFirst(v, s, middle, t, decimal);
    } else {
      MaskedLast(v, s, middle, t, decimal);
    }
  }

  lemma PartIsPieces(v: Rule, w: Rule, k: nat, l: nat, before: bool, after: bool)
    requires k + l <= |w| && ValidShape(v) && ValidShape(w)
    ensures var pieces := Part(v, w, k, l, before, after);
      |pieces| == (if before then |v| else 0) + (|w| - l - k) + (if after then |v| else 0)
      && forall i | 0 <= i < |pieces| :: IsPiece(pieces[i])
  {
    hide IsPiece;
  }

  lemma NoMatchWhereNoneStands(v: Rule, t: string, pieces: string, decimal: set<char>, lo: nat, hi: nat)
    requires ValidShape(v) && Decimals(decimal) && Spells(t, pieces, decimal) && StandsNowhere(v, pieces, lo, hi)
    ensures forall p: nat | lo <= p < hi :: !MatchAt(v, t, p, decimal)
  {
    hide Spells, StandsIn, MatchAt, Decimals, ValidShape;
    forall p: nat | lo <= p < hi ensures !MatchAt(v, t, p, decimal) { MatchesWhereItStands(v, t, pieces, decimal, p); }
  }

  lemma SpelledAscii(t: string, pieces: string, decimal: set<char>)
    requires Spells(t, pieces, decimal)
    ensures AsciiDigits(t, decimal)
  {
  }

  lemma NoMatchWhereClear(w: Rule, t: string, pieces: string, decimal: set<char>)
    requires ValidShape(w) && Decimals(decimal) && Spells(t, pieces, decimal) && Clear(w, pieces)
    ensures !Matches(w, t, decimal)
  {
    hide Spells, StandsIn, MatchAt, Decimals, ValidShape;
    SpelledLength(t, pieces, decimal);
    forall p: nat ensures !MatchAt(w, t, p, decimal) {
      MatchesWhereItStands(w, t, pieces, decimal, p);
      if StandsIn(w, pieces, p) { StandsInside(w, pieces, p); }
    }
  }

  lemma StandsInside(w: Rule, pieces: string, p: nat)
    requires StandsIn(w, pieces, p)
    ensures p < |pieces|
  {
  }

  lemma SampleOfPart(v: Rule, w: Rule, k: nat, l: nat, before: bool, after: bool)
    requires k + l <= |w|
    ensures var s, middle := Sample(v), Sample(w[k..|w| - l]);
      Sample(Part(v, w, k, l, before, after)) == (if before then s else "") + middle + if after then s else ""
  {
    SampleOfTwo(if before then v else "", w[k..|w| - l]);
    SampleOfTwo((if before then v else "") + w[k..|w| - l], if after then v else "");
  }

  lemma LeftOfPart(v: Rule, w: Rule, k: nat, l: nat, before: bool, after: bool)
    requires k + l <= |w|
    ensures Left(v, w, k, l, before, after) ==
      (if before then Hidden(Sample(v)) else "") + Sample(w[k..|w| - l]) + if after then Hidden(Sample(v)) else ""
  {
  }

  lemma MaskedFirst(v: Rule, s: string, rest: string, t: string, decimal: set<char>)
    requires t == s + rest + "" && |s| == |v| && MatchAt(v, t, 0, decimal)
    requires forall p: nat | |s| <= p < |s| + |rest| :: !MatchAt(v, t, p, decimal)
    ensures Masked(t, v, decimal) == Hidden(s) + rest + ""
  {
    hide MatchAt, Masked, Hidden;
    var none: string := "";
    assert t == none + s + rest && none + Hidden(s) + rest == Hidden(s) + rest + none;
    OnlyMatch(t, v, decimal, none, s, rest);
  }

  lemma MaskedLast(v: Rule, s: string, front: string, t: string, decimal: set<char>)
    requires t == "" + front + s && |s| == |v| && MatchAt(v, t, |front|, decimal)
    requires forall p: nat | p < |front| :: !MatchAt(v, t, p, decimal)
    ensures Masked(t, v, decimal) == "" + front + Hidden(s)
  {
    hide MatchAt, Masked, Hidden;
    var none: string := "";
    assert t == front + s + none && none + front + Hidden(s) == front + Hidden(s) + none;
    OnlyMatch(t, v, decimal, front, s, none);
  }

  lemma StandsFirst(v: Rule, w: Rule, k: nat, l: nat, after: bool)
    requires k + l < |w| && EndsAs(v, w, k) && (after ==> BeginsAs(v, w, l)) && (!after ==> l == 0)
    ensures StandsIn(v, Part(v, w, k, l, true, after), 0)
  {
    var pieces := Part(v, w, k, l, true, after);
    assert pieces[0..0 + |v|] == v && pieces[|v|] == w[k..|w| - l][0] == w[k];
  }

  lemma LastOfThree(a: string, b: string, c: string)
    requires b != []
    ensures var t := a + b + c; var x := |t| - |c|;
      x > 0 && t[x..x + |c|] == c && t[x - 1] == b[|b| - 1]
  {
  }

  lemma StandsLast(v: Rule, w: Rule, k: nat, l: nat, before: bool)
    requires k + l < |w| && BeginsAs(v, w, l) && (before ==> EndsAs(v, w, k)) && (!before ==> k == 0)
    ensures var pieces := Part(v, w, k, l, before, true); StandsIn(v, pieces, |pieces| - |v|)
  {
    hide EndsAs;
    LastOfThree(if before then v else "", w[k..|w| - l], v);
  }

  lemma FreedIsLeft(v: Rule, w: Rule, k: nat, l: nat, before: bool, after: bool, decimal: set<char>)
    requires ValidShape(v) && ValidShape(w) && Decimals(decimal) && k + l < |w| && (before || after)
    requires (before ==> EndsAs(v, w, k)) && (after ==> BeginsAs(v, w, l))
    requires (!before ==> k == 0) && (!after ==> l == 0)
    requires var pieces, lo := Part(v, w, k, l, before, after), if before then |v| else 0;
      Clear(w, pieces) && StandsNowhere(v, pieces, lo, lo + |w| - l - k)
    ensures var t := Sample(Part(v, w, k, l, before, after));
      AsciiDigits(t, decimal) && !Matches(w, t, decimal) && Matches(w, Masked(t, v, decimal), decimal)
  {
    hide *;
    MaskedSample(v, w, k, l, before, after, decimal);
    StandsInWhatIsLeft(v, w, k, l, before, after, decimal);
  }

  lemma FreedSomewhere(v: Rule, w: Rule, decimal: set<char>) returns (t: string)
    requires ValidShape(v) && ValidShape(w) && Decimals(decimal) && Frees(v, w)
    ensures AsciiDigits(t, decimal) && !Matches(w, t, decimal) && Matches(w, Masked(t, v, decimal), decimal)
  {
    hide EndsAs, BeginsAs, Clear, StandsNowhere, Masked;
    if k: nat, l: nat :| FreesBetween(v, w, k, l) {
      assert k + l < |w|;
      FreedIsLeft(v, w, k, l, true, true, decimal);
      t := Sample(Part(v, w, k, l, true, true));
    } else if k: nat :| FreesBehind(v, w, k) {
      KeepsSome(v, w, k, 0, true, false);
      assert v + w[k..|w| - 0] + "" == v + w[k..];
      FreedIsLeft(v, w, k, 0, true, false, decimal);
      t := Sample(Part(v, w, k, 0, true, false));
    } else {
      var l: nat :| FreesBefore(v, w, l);
      KeepsSome(v, w, 0, l, false, true);
      assert "" + w[0..|w| - l] + v == w[..|w| - l] + v;
      FreedIsLeft(v, w, 0, l, false, true, decimal);
      t := Sample(Part(v, w, 0, l, false, true));
    }
  }

  lemma KeepsSome(v: Rule, w: Rule, k: nat, l: nat, before: bool, after: bool)
    requires (before ==> EndsAs(v, w, k)) && (after ==> BeginsAs(v, w, l))
    requires (!before ==> k == 0) && (!after ==> l == 0) && before != after
    ensures k + l < |w|
  {
  }

  /** Starring out `v` makes a match of `w` in some text without one exactly when it frees it. */
  lemma FreesExactly(v: Rule, w: Rule, decimal: set<char>)
    requires ValidShape(v) && ValidShape(w) && Decimals(decimal) && !AllLayout(w)
    ensures (forall t: string | AsciiDigits(t, decimal) && !Matches(w, t, decimal) ::
             !Matches(w, Masked(t, v, decimal), decimal))
      <==> !Frees(v, w)
  {
    hide Frees, Masked, AsciiDigits, MatchAt;
    if Frees(v, w) {
      var t := FreedSomewhere(v, w, decimal);
    } else {
      forall t: string, p: nat | AsciiDigits(t, decimal) && !Matches(w, t, decimal)
        ensures !MatchAt(w, Masked(t, v, decimal), p, decimal)
      {
        if MatchAt(w, Masked(t, v, decimal), p, decimal) { OnlyFreed(t, v, w, decimal, p); }
      }
    }
  }

  // ---- Lists ---------------------------------------------------------------------------------------------------

  /** No rule reappears, and none frees one before it. */
  ghost predicate Settled(shapes: seq<Rule>) {
    && (forall i | 0 <= i < |shapes| :: ValidShape(shapes[i]) && !Reappears(shapes[i]))
    && (forall i, j | 0 <= i < j < |shapes| :: !Frees(shapes[j], shapes[i]))
  }

  /** Applying the rules leaves no match of any of them. */
  lemma {:induction false} AppliedLeavesNone(t: string, shapes: seq<Rule>, decimal: set<char>)
    requires Settled(shapes) && Decimals(decimal) && AsciiDigits(t, decimal)
    ensures forall i | 0 <= i < |shapes| :: !Matches(shapes[i], Applied(t, shapes, decimal), decimal)
    ensures AsciiDigits(Applied(t, shapes, decimal), decimal)
  {
    hide Frees, Reappears, ValidShape, Masked, Decimals, AsciiDigits, Matches;
    if shapes != [] {
      var front, last := shapes[..|shapes| - 1], shapes[|shapes| - 1];
      var before := Applied(t, front, decimal);
      AppliedLeavesNone(t, front, decimal);
      MaskedStaysAscii(before, last, decimal);
      forall i | 0 <= i < |shapes| ensures !Matches(shapes[i], Masked(before, last, decimal), decimal) {
        LeavesNoneExactly(last, decimal);
        if i < |front| {
          assert shapes[i] == front[i];
          HasAStar(shapes[i], decimal);
          FreesExactly(last, shapes[i], decimal);
        }
      }
    }
  }

  lemma HasAStar(shape: Rule, decimal: set<char>)
    requires ValidShape(shape) && Decimals(decimal) && !Reappears(shape)
    ensures !AllLayout(shape)
  {
    hide Hidden, Decimals;
    if AllLayout(shape) {
      HiddenSample(shape, decimal);
      WholeIsShared(shape, Hidden(Sample(shape)));
    }
  }

  lemma {:induction false} NoneUnapplied(t: string, shapes: seq<Rule>, decimal: set<char>)
    requires forall i | 0 <= i < |shapes| :: !Matches(shapes[i], t, decimal)
    ensures Applied(t, shapes, decimal) == t
  {
    hide Masked, Matches;
    if shapes != [] {
      NoneUnapplied(t, shapes[..|shapes| - 1], decimal);
      NoMatchUnmasked(t, shapes[|shapes| - 1], decimal);
    }
  }

  /** Applying the rules to what they made changes nothing. */
  lemma ApplyingTwiceIsOnce(t: string, shapes: seq<Rule>, decimal: set<char>)
    requires Settled(shapes) && Decimals(decimal) && AsciiDigits(t, decimal)
    ensures Applied(Applied(t, shapes, decimal), shapes, decimal) == Applied(t, shapes, decimal)
  {
    hide Settled, Masked, Applied;
    AppliedLeavesNone(t, shapes, decimal);
    NoneUnapplied(Applied(t, shapes, decimal), shapes, decimal);
  }

  /** Shapes that begin and end in Latin or digit classes make such a list, in any order. */
  lemma ClassEndsSettle(shapes: seq<Rule>, decimal: set<char>)
    requires Decimals(decimal) && forall i | 0 <= i < |shapes| :: EndsInClasses(shapes[i])
    ensures Settled(shapes)
  {
    hide Frees, Reappears, EndsInClasses, ValidShape;
    forall i | 0 <= i < |shapes| ensures ValidShape(shapes[i]) && !Reappears(shapes[i]) { ClassEndsStay(shapes[i]); }
    forall i, j | 0 <= i < j < |shapes| ensures !Frees(shapes[j], shapes[i]) { ClassEndsAreFree(shapes[j], shapes[i]); }
  }

  predicate EndsInClasses(shape: string) {
    ValidShape(shape) && IsAlnumClass(shape[0]) && IsAlnumClass(shape[|shape| - 1])
  }

  lemma ClassEndsStay(shape: Rule)
    requires EndsInClasses(shape)
    ensures ValidShape(shape) && !Reappears(shape)
  {
    hide Hidden;
    PieceLayout(shape[0]);
    forall k: nat ensures !Shares(shape, k) {
      if 1 <= k <= |shape| { assert shape[..k][0] == shape[0]; }
    }
  }

  lemma ClassEndsAreFree(v: Rule, w: Rule)
    requires EndsInClasses(w)
    ensures !Frees(v, w)
  {
    hide Hidden, Clear, StandsNowhere, EndsIn;
    var m := |w|;
    PieceLayout(w[0]);
    PieceLayout(w[m - 1]);
    forall k: nat ensures !EndsAs(v, w, k) {
      if 0 < k < m { assert w[..k][0] == w[0]; }
    }
    forall l: nat ensures !BeginsAs(v, w, l) {
      if 0 < l < m && l <= |v| && w[m - l..] == v[..l] { assert w[m - l..][l - 1] == w[m - 1] == v[..l][l - 1]; }
    }
  }

  /** Two rules that leave nothing of themselves leave nothing of either together, in any text, exactly when the
      second does not free the first. */
  lemma TwoRulesExactly(w: Rule, v: Rule, decimal: set<char>)
    requires ValidShape(w) && ValidShape(v) && !Reappears(w) && !Reappears(v) && Decimals(decimal)
    ensures (forall t: string | AsciiDigits(t, decimal) :: NoneOfEither(t, w, v, decimal)) <==> !Frees(v, w)
  {
    hide Frees, Reappears, ValidShape, Masked, Decimals, AsciiDigits, Matches;
    if Frees(v, w) {
      var t := FreedSomewhere(v, w, decimal);
      NoMatchUnmasked(t, w, decimal);
      AppliedInTurn(t, w, v, decimal);
      assert !NoneOfEither(t, w, v, decimal);
    } else {
      forall t: string | AsciiDigits(t, decimal) ensures NoneOfEither(t, w, v, decimal) {
        AppliedLeavesNone(t, [w, v], decimal);
        assert [w, v][0] == w && [w, v][1] == v;
      }
    }
  }

  ghost predicate NoneOfEither(t: string, w: Rule, v: Rule, decimal: set<char>) {
    var after := Applied(t, [w, v], decimal);
    !Matches(w, after, decimal) && !Matches(v, after, decimal)
  }

  lemma AppliedInTurn(t: string, w: Rule, v: Rule, decimal: set<char>)
    ensures Applied(t, [w, v], decimal) == Masked(Masked(t, w, decimal), v, decimal)
  {
    hide Masked;
    assert [w, v][..1] == [w] && [w][..0] == [];
    assert Applied(t, [w], decimal) == Masked(Applied(t, [], decimal), w, decimal);
  }

  // ---- Two rules the code makes ------------------------------------------------------------------------------

  /** Each of the two leaves nothing of itself, and the second frees the first: in the first's sample followed by the
      second's, a value of the first stays in the clear, held back by the letter the second then stars out. */
  lemma LaterRuleFreesEarlier(w: Rule, v: Rule, decimal: set<char>)
    requires Decimals(decimal) && w == "\U{AC00}A##-" && v == "A###"
    ensures MakesRule(w) && MakesRule(v) && ValidShape(w) && ValidShape(v) && !Reappears(w) && !Reappears(v)
    ensures AsciiDigits("\U{AC00}A00-A000", decimal)
    ensures Matches(w, Applied("\U{AC00}A00-A000", [w, v], decimal), decimal)
  {
    hide Shares, Frees, MakesRule, Masked, Decimals, FreesBefore, Matches, ValidShape, EndsInClasses, Applied;
    AreLearned(w, v);
    forall k: nat ensures !Shares(w, k) { SharesNoFront(w, k); }
    ClassEndsStay(v);
    HeldByTheNext(w, v);
    assert w[0] == '\U{AC00}' && w[|w| - 1] == '-';
    FirstThenSecond(w, v, decimal);
  }

  lemma AreLearned(w: Rule, v: Rule)
    requires w == "\U{AC00}A##-" && v == "A###"
    ensures MakesRule(w) && MakesRule(v) && ValidShape(w) && EndsInClasses(v)
  {
    hide CountClassed;
    assert w[1] == 'A' && w[2] == '#' && v[0] == 'A' && v[1] == '#' && v[3] == '#';
    assert w == w[..4] + "-";
    CountSnoc(w[..4], '-');
    AllClassed(w[..4]);
    AllClassed(v);
  }

  lemma HeldByTheNext(w: Rule, v: Rule)
    requires w == "\U{AC00}A##-" && v == "A###"
    ensures FreesBefore(v, w, 0)
  {
    hide IsLayout;
    var pieces := w[..|w| - 0] + v;
    assert pieces == "\U{AC00}A##-A###";
    forall x: nat | x < |pieces| ensures !StandsIn(w, pieces, x) {
      if x + |w| <= |pieces| { assert pieces[x..x + |w|][0] == pieces[x]; }
    }
    forall x: nat | x < |w| ensures !StandsIn(v, pieces, x) {
      if x + |v| <= |pieces| { assert pieces[x..x + |v|][0] == pieces[x] && pieces[x..x + |v|][3] == pieces[x + 3]; }
    }
  }

  lemma FirstThenSecond(w: Rule, v: Rule, decimal: set<char>)
    requires w == "\U{AC00}A##-" && v == "A###"
    requires ValidShape(w) && ValidShape(v) && Decimals(decimal) && FreesBefore(v, w, 0)
    ensures AsciiDigits("\U{AC00}A00-A000", decimal)
    ensures Matches(w, Applied("\U{AC00}A00-A000", [w, v], decimal), decimal)
  {
    hide BeginsAs, Clear, StandsNowhere, Masked, Decimals, Matches, AsciiDigits, ValidShape, Applied;
    KeepsSome(v, w, 0, 0, false, true);
    var pieces := Part(v, w, 0, 0, false, true);
    assert pieces == w[..|w| - 0] + v;
    var t := Sample(pieces);
    assert t == "\U{AC00}A00-A000";
    FreedIsLeft(v, w, 0, 0, false, true, decimal);
    NoMatchUnmasked(t, w, decimal);
    AppliedInTurn(t, w, v, decimal);
  }
}
