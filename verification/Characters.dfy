// The character classes the masking code reads text by.
module Characters {

  const MASK_CHAR: char := '*'

  /** Whether a code point lies in one of the ranges. */
  predicate InRanges(n: int, ranges: seq<(int, int)>) {
    ranges != [] && (ranges[0].0 <= n <= ranges[0].1 || InRanges(n, ranges[1..]))
  }

  /** What `str.isspace` answers yes to: Unicode's separators and the control characters that break a line or a
      field. */
  const SPACES: seq<(int, int)> := [
    (0x09, 0x0D), (0x1C, 0x20), (0x85, 0x85), (0xA0, 0xA0), (0x1680, 0x1680), (0x2000, 0x200A),
    (0x2028, 0x2029), (0x202F, 0x202F), (0x205F, 0x205F), (0x3000, 0x3000)]

  /** What `masking._layout` keeps beside whitespace: '+' and the detectors' own separators "-.–—)－". */
  const SEPARATOR_PUNCTUATION: seq<(int, int)> := [
    ('+' as int, '+' as int), ('-' as int, '.' as int), (')' as int, ')' as int), (0x2013, 0x2014), (0xFF0D, 0xFF0D)]

  predicate IsSpace(c: char) { InRanges(c as int, SPACES) }

  predicate IsLayout(c: char) { IsSpace(c) || InRanges(c as int, SEPARATOR_PUNCTUATION) }

  /** No range holds a number that is above its end or below its start, range by range. */
  lemma {:induction false} OutsideRanges(n: int, ranges: seq<(int, int)>)
    requires forall i | 0 <= i < |ranges| :: n < ranges[i].0 || ranges[i].1 < n
    ensures !InRanges(n, ranges)
  {
    if ranges != [] { OutsideRanges(n, ranges[1..]); }
  }

  /** Letters, digits and the star are no separators; the space is one. */
  lemma LayoutFacts(c: char)
    ensures IsAlnum(c) || c == MASK_CHAR || IsHangul(c) ==> !IsLayout(c)
    ensures IsLayout(' ') && IsLayout('-') && IsLayout('.')
  {
    if IsAlnum(c) || c == MASK_CHAR || IsHangul(c) {
      OutsideRanges(c as int, SPACES);
      OutsideRanges(c as int, SEPARATOR_PUNCTUATION);
    }
    assert InRanges(' ' as int, SPACES[1..]);
    assert InRanges('-' as int, SEPARATOR_PUNCTUATION[1..]);
    assert InRanges('.' as int, SEPARATOR_PUNCTUATION[1..]);
  }

  predicate IsHangul(c: char) { '\U{AC00}' <= c <= '\U{D7A3}' }

  predicate IsAsciiDigit(c: char) { '0' <= c <= '9' }

  predicate IsUpper(c: char) { 'A' <= c <= 'Z' }

  predicate IsLower(c: char) { 'a' <= c <= 'z' }

  /** The class `[0-9A-Za-z]`. */
  predicate IsAlnum(c: char) { IsAsciiDigit(c) || IsUpper(c) || IsLower(c) }

  /** Whether `u` occurs in `t` at position `p`. */
  predicate OccursAt(u: string, t: string, p: nat) {
    p + |u| <= |t| && t[p..p + |u|] == u
  }

  /** Python's `u in t`. */
  ghost predicate Occurs(u: string, t: string) {
    exists p: nat :: OccursAt(u, t, p)
  }

  /** `str.strip`: the text without the whitespace at both ends. */
  function Strip(t: string): (r: string)
    decreases |t|
  {
    if t != [] && IsSpace(t[0]) then Strip(t[1..])
    else if t != [] && IsSpace(t[|t| - 1]) then Strip(t[..|t| - 1])
    else t
  }

  ghost predicate Blank(t: string) { forall c | c in t :: IsSpace(c) }

  lemma {:induction false} StripsBlank(t: string)
    ensures Strip(t) == [] <==> Blank(t)
    decreases |t|
  {
    hide IsSpace;
    if t != [] && IsSpace(t[0]) {
      StripsBlank(t[1..]);
      assert t == [t[0]] + t[1..];
    } else if t != [] && IsSpace(t[|t| - 1]) {
      StripsBlank(t[..|t| - 1]);
      assert t == t[..|t| - 1] + [t[|t| - 1]];
    } else if t != [] {
      assert t[0] in t;
    }
  }

  /** Stripping takes off the whitespace before the first other character and behind the last, and nothing else. */
  lemma {:induction false} StripsTo(t: string, i: nat, j: nat)
    requires i < j <= |t| && !IsSpace(t[i]) && !IsSpace(t[j - 1])
    requires (forall k | 0 <= k < i :: IsSpace(t[k])) && (forall k | j <= k < |t| :: IsSpace(t[k]))
    ensures Strip(t) == t[i..j]
    decreases |t|
  {
    hide IsSpace;
    if i > 0 {
      StripsTo(t[1..], i - 1, j - 1);
      assert t[1..][i - 1..j - 1] == t[i..j];
    } else if j < |t| {
      StripsTo(t[..|t| - 1], i, j);
      assert t[..|t| - 1][i..j] == t[i..j];
    } else {
      assert t[i..j] == t;
    }
  }

  /** What is left begins and ends with no whitespace, and only whitespace was taken off. */
  lemma {:induction false} StripLeaves(t: string) returns (i: nat, j: nat)
    ensures i <= j <= |t| && Strip(t) == t[i..j]
    ensures (forall k | 0 <= k < i :: IsSpace(t[k])) && (forall k | j <= k < |t| :: IsSpace(t[k]))
    ensures i < j ==> !IsSpace(t[i]) && !IsSpace(t[j - 1])
    decreases |t|
  {
    hide IsSpace;
    if t != [] && IsSpace(t[0]) {
      i, j := StripLeaves(t[1..]);
      assert t[1..][i..j] == t[i + 1..j + 1];
      assert forall k | 1 <= k < |t| :: t[k] == t[1..][k - 1];
      i, j := i + 1, j + 1;
    } else if t != [] && IsSpace(t[|t| - 1]) {
      i, j := StripLeaves(t[..|t| - 1]);
      assert t[..|t| - 1][i..j] == t[i..j];
    } else {
      i, j := 0, |t|;
      assert t[0..|t|] == t;
    }
  }
}
