/** `scripts/probe_spoken_numbers.py`: how many of a number's digits can still be read in a masked text. */
module SpokenNumbers {

  /** The syllables digits are spoken as, zero by two of them. */
  const DIGIT_OF: map<char, char> := map[
    '\U{ACF5}' := '0', '\U{C77C}' := '1', '\U{C774}' := '2', '\U{C0BC}' := '3', '\U{C0AC}' := '4', '\U{C624}' := '5',
    '\U{C721}' := '6', '\U{CE60}' := '7', '\U{D314}' := '8', '\U{AD6C}' := '9', '\U{C601}' := '0']

  /** The digits of the masked text, a digit syllable read as its digit. */
  function Seen(masked: string, digit: set<char>): string {
    if masked == [] then []
    else
      var rest := Seen(masked[1..], digit);
      if masked[0] in DIGIT_OF then [DIGIT_OF[masked[0]]] + rest
      else if masked[0] in digit then [masked[0]] + rest else rest
  }

  /** What is seen is seen character by character: of the ten syllables, and of the other zero, the digit each is; of a
      digit, the digit; and nothing of any other. */
  lemma {:induction false} SeenExactly(a: string, b: string, digit: set<char>, c: char)
    ensures Seen("", digit) == "" && Seen(a + b, digit) == Seen(a, digit) + Seen(b, digit)
    ensures var syllables := "\U{ACF5}\U{C77C}\U{C774}\U{C0BC}\U{C0AC}\U{C624}\U{C721}\U{CE60}\U{D314}\U{AD6C}\U{C601}";
      && |syllables| == 11
      && (forall k | 0 <= k < 11 && c == syllables[k] :: Seen([c], digit) == ["01234567890"[k]])
      && (c !in syllables ==> Seen([c], digit) == if c in digit then [c] else "")
  {
    if a != "" {
      assert (a + b)[1..] == a[1..] + b;
      SeenExactly(a[1..], b, digit, c);
    } else {
      assert a + b == b;
      OneSeen(digit, c);
    }
  }

  lemma OneSeen(digit: set<char>, c: char)
    ensures Seen([c], digit) == if c in DIGIT_OF then [DIGIT_OF[c]] else if c in digit then [c] else ""
  {
    assert [c][1..] == "";
  }

  function Max(a: nat, b: nat): nat { if a >= b then a else b }

  /** The table: what the two prefixes have in common. */
  function Common(a: string, b: string, i: nat, j: nat): nat
    requires i <= |a| && j <= |b|
    decreases i + j
  {
    if i == 0 || j == 0 then 0
    else if a[i - 1] == b[j - 1] then Common(a, b, i - 1, j - 1) + 1
    else Max(Common(a, b, i - 1, j), Common(a, b, i, j - 1))
  }

  /** Row `i` of the table, up to column `n`. */
  ghost predicate IsRow(a: string, b: string, i: nat, row: seq<nat>, n: nat) {
    i <= |a| && n <= |b| && |row| == n + 1 && forall j | 0 <= j <= n :: row[j] == Common(a, b, i, j)
  }

  /** `readable_digits`: the table, one row at a time. */
  method ReadableDigits(masked: string, number: string, digit: set<char>) returns (n: nat)
    ensures var seen := Seen(masked, digit); n == Common(seen, number, |seen|, |number|)
  {
    var a, b := Seen(masked, digit), number;
    var prev: seq<nat> := seq(|b| + 1, _ => 0);
    for i := 0 to |a|
      invariant IsRow(a, b, i, prev, |b|)
    {
      var cur: seq<nat> := [0];
      for j := 0 to |b|
        invariant IsRow(a, b, i + 1, cur, j)
      {
        cur := cur + [if a[i] == b[j] then prev[j] + 1 else Max(prev[j + 1], cur[j])];
      }
      prev := cur;
    }
    n := prev[|prev| - 1];
  }

  /** `s` is read off the first `n` characters of `t`, in order, at the places `at`. */
  ghost predicate ReadAt(s: string, t: string, n: nat, at: seq<nat>) {
    && n <= |t| && |at| == |s|
    && (forall k | 0 <= k < |at| :: at[k] < n && t[at[k]] == s[k])
    && (forall k, l | 0 <= k < l < |at| :: at[k] < at[l])
  }

  /** Something of that length can be read off both. */
  lemma {:induction false} SomeCommon(a: string, b: string, i: nat, j: nat)
    returns (s: string, p: seq<nat>, q: seq<nat>)
    requires i <= |a| && j <= |b|
    ensures ReadAt(s, a, i, p) && ReadAt(s, b, j, q) && |s| == Common(a, b, i, j)
    decreases i + j
  {
    if i == 0 || j == 0 {
      s, p, q := [], [], [];
    } else if a[i - 1] == b[j - 1] {
      s, p, q := SomeCommon(a, b, i - 1, j - 1);
      s, p, q := s + [a[i - 1]], p + [i - 1], q + [j - 1];
    } else if Common(a, b, i - 1, j) >= Common(a, b, i, j - 1) {
      s, p, q := SomeCommon(a, b, i - 1, j);
    } else {
      s, p, q := SomeCommon(a, b, i, j - 1);
    }
  }

  lemma DropLast(s: string, t: string, n: nat, at: seq<nat>, m: nat)
    requires ReadAt(s, t, n, at) && s != [] && at[|at| - 1] <= m <= n
    ensures ReadAt(s[..|s| - 1], t, m, at[..|at| - 1])
  {
  }

  lemma Sooner(s: string, t: string, n: nat, at: seq<nat>, m: nat)
    requires ReadAt(s, t, n, at) && m <= n && (s != [] ==> at[|at| - 1] < m)
    ensures ReadAt(s, t, m, at)
  {
  }

  /** Nothing longer can. */
  lemma {:induction false} NoneLonger(a: string, b: string, i: nat, j: nat, s: string, p: seq<nat>, q: seq<nat>)
    requires ReadAt(s, a, i, p) && ReadAt(s, b, j, q)
    ensures |s| <= Common(a, b, i, j)
    decreases i + j
  {
    if s != [] {
      var last := |s| - 1;
      assert p[last] < i && q[last] < j;
      if a[i - 1] == b[j - 1] {
        DropLast(s, a, i, p, i - 1);
        DropLast(s, b, j, q, j - 1);
        NoneLonger(a, b, i - 1, j - 1, s[..last], p[..last], q[..last]);
      } else if p[last] < i - 1 {
        Sooner(s, a, i, p, i - 1);
        NoneLonger(a, b, i - 1, j, s, p, q);
      } else {
        Sooner(s, b, j, q, j - 1);
        NoneLonger(a, b, i, j - 1, s, p, q);
      }
    }
  }

  ghost predicate ReadsOff(s: string, t: string) { exists at :: ReadAt(s, t, |t|, at) }

  /** The count is the length of the longest text that can be read off both, in order. */
  lemma IsLongestCommon(a: string, b: string)
    ensures exists s :: ReadsOff(s, a) && ReadsOff(s, b) && |s| == Common(a, b, |a|, |b|)
    ensures forall s | ReadsOff(s, a) && ReadsOff(s, b) :: |s| <= Common(a, b, |a|, |b|)
  {
    var s, p, q := SomeCommon(a, b, |a|, |b|);
    assert ReadsOff(s, a) && ReadsOff(s, b);
    forall r | ReadsOff(r, a) && ReadsOff(r, b) ensures |r| <= Common(a, b, |a|, |b|) {
      var p' :| ReadAt(r, a, |a|, p');
      var q' :| ReadAt(r, b, |b|, q');
      NoneLonger(a, b, |a|, |b|, r, p', q');
    }
  }
}
