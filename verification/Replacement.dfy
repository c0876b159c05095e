/** What `re.sub` and `str.replace` do. */
module Replacement {

  // Scan from the left, replace each match, never look inside a replacement. The matches of a pattern in a text are
  // given by position: `hits[i]` is the length of the match that starts at `i`, 0 when none does, and `put[i]` is what
  // stands in for it. `Trace` says where each output character came from, and `TraceIsLocal` is the one lemma the users
  // need: each output character is a kept input character or a character of some replacement, and the next output
  // character is the one that comes next there.

  datatype Origin = Kept(at: nat) | Put(start: nat, offset: nat)

  /** Every match ends inside the text, and nothing is replaced by the empty text. */
  predicate Fits(t: string, hits: seq<nat>, put: seq<string>) {
    |hits| == |t| == |put| &&
    forall i | 0 <= i < |t| :: i + hits[i] <= |t| && |put[i]| > 0
  }

  function Sub(t: string, hits: seq<nat>, put: seq<string>, i: nat): string
    requires i <= |t| && Fits(t, hits, put)
    decreases |t| - i
  {
    if i == |t| then []
    else if hits[i] == 0 then [t[i]] + Sub(t, hits, put, i + 1)
    else put[i] + Sub(t, hits, put, i + hits[i])
  }

  /** How many matches `Sub` replaces. */
  function Count(t: string, hits: seq<nat>, put: seq<string>, i: nat): nat
    requires i <= |t| && Fits(t, hits, put)
    decreases |t| - i
  {
    if i == |t| then 0
    else if hits[i] == 0 then Count(t, hits, put, i + 1)
    else 1 + Count(t, hits, put, i + hits[i])
  }

  ghost function Trace(t: string, hits: seq<nat>, put: seq<string>, i: nat): (r: seq<Origin>)
    requires i <= |t| && Fits(t, hits, put)
    ensures |r| == |Sub(t, hits, put, i)|
    decreases |t| - i
  {
    if i == |t| then []
    else if hits[i] == 0 then [Kept(i)] + Trace(t, hits, put, i + 1)
    else Puts(i, |put[i]|) + Trace(t, hits, put, i + hits[i])
  }

  ghost function Puts(start: nat, n: nat): (r: seq<Origin>)
    ensures |r| == n && forall x | 0 <= x < n :: r[x] == Put(start, x)
  {
    seq(n, x requires 0 <= x => Put(start, x))
  }

  /** What the output holds for the input from position `r` on, `r` being where scanning resumed. */
  ghost function Entry(hits: seq<nat>, r: nat): Origin
    requires r < |hits|
  {
    if hits[r] == 0 then Kept(r) else Put(r, 0)
  }

  /** `o` tells the truth about output character `c`. */
  ghost predicate Tells(t: string, hits: seq<nat>, put: seq<string>, o: Origin, c: char)
    requires Fits(t, hits, put)
  {
    match o
    case Kept(q) => q < |t| && hits[q] == 0 && c == t[q]
    case Put(s, x) => s < |t| && hits[s] > 0 && x < |put[s]| && c == put[s][x]
  }

  /** Where scanning stands once `o` has been written; `None` inside a replacement is the `else` of `Next`. */
  ghost predicate Finishes(t: string, hits: seq<nat>, put: seq<string>, o: Origin, r: nat)
    requires Fits(t, hits, put)
  {
    match o
    case Kept(q) => r == q + 1
    case Put(s, x) => s < |t| && x + 1 == |put[s]| && r == s + hits[s]
  }

  /** `b` stands right after `a` in the output. */
  ghost predicate Next(t: string, hits: seq<nat>, put: seq<string>, a: Origin, b: Origin)
    requires Fits(t, hits, put)
  {
    match a
    case Kept(q) => q + 1 < |t| && b == Entry(hits, q + 1)
    case Put(s, x) =>
      s < |t| &&
      if x + 1 < |put[s]| then b == Put(s, x + 1)
      else s + hits[s] < |t| && b == Entry(hits, s + hits[s])
  }

  lemma {:induction false} TraceTells(t: string, hits: seq<nat>, put: seq<string>, i: nat)
    requires i <= |t| && Fits(t, hits, put)
    ensures forall p | 0 <= p < |Trace(t, hits, put, i)| ::
      Tells(t, hits, put, Trace(t, hits, put, i)[p], Sub(t, hits, put, i)[p])
    decreases |t| - i
  {
    if i < |t| {
      TraceTells(t, hits, put, if hits[i] == 0 then i + 1 else i + hits[i]);
    }
  }

  lemma {:induction false} TraceEnds(t: string, hits: seq<nat>, put: seq<string>, i: nat)
    requires i <= |t| && Fits(t, hits, put)
    ensures var o := Trace(t, hits, put, i);
      && (i < |t| <==> |o| > 0)
      && (|o| > 0 ==> o[0] == Entry(hits, i) && Finishes(t, hits, put, o[|o| - 1], |t|))
    decreases |t| - i
  {
    if i < |t| {
      TraceEnds(t, hits, put, if hits[i] == 0 then i + 1 else i + hits[i]);
    }
  }

  lemma {:induction false} TraceNext(t: string, hits: seq<nat>, put: seq<string>, i: nat, p: nat)
    requires i <= |t| && Fits(t, hits, put)
    requires p + 1 < |Trace(t, hits, put, i)|
    ensures Next(t, hits, put, Trace(t, hits, put, i)[p], Trace(t, hits, put, i)[p + 1])
    decreases |t| - i
  {
    var k := if hits[i] == 0 then i + 1 else i + hits[i];
    var h := if hits[i] == 0 then 1 else |put[i]|;
    if p >= h {
      TraceNext(t, hits, put, k, p - h);
    } else if p == h - 1 {
      TraceEnds(t, hits, put, k);
    }
  }

  /** What stands after the output character at `p`. */
  ghost predicate NextAt(t: string, hits: seq<nat>, put: seq<string>, o: seq<Origin>, p: nat)
    requires Fits(t, hits, put)
  {
    p + 1 < |o| ==> Next(t, hits, put, o[p], o[p + 1])
  }

  /** `o` names the place each character of `out` comes from, and the places follow one another. */
  ghost predicate Traced(t: string, hits: seq<nat>, put: seq<string>, out: string, o: seq<Origin>)
    requires Fits(t, hits, put)
  {
    && |o| == |out|
    && (forall p | 0 <= p < |o| :: Tells(t, hits, put, o[p], out[p]))
    && (forall p: nat :: NextAt(t, hits, put, o, p))
  }

  lemma TraceIsLocal(t: string, hits: seq<nat>, put: seq<string>, i: nat)
    requires i <= |t| && Fits(t, hits, put)
    ensures Traced(t, hits, put, Sub(t, hits, put, i), Trace(t, hits, put, i))
  {
    TraceTells(t, hits, put, i);
    var o := Trace(t, hits, put, i);
    forall p: nat ensures NextAt(t, hits, put, o, p) {
      if p + 1 < |o| { TraceNext(t, hits, put, i, p); }
    }
  }

  /** A text nothing matches in is left as it is. */
  lemma {:induction false} NoMatchNoChange(t: string, hits: seq<nat>, put: seq<string>, i: nat)
    requires i <= |t| && Fits(t, hits, put)
    requires forall p: nat | i <= p < |t| :: hits[p] == 0
    ensures Sub(t, hits, put, i) == t[i..] && Count(t, hits, put, i) == 0
    decreases |t| - i
  {
    if i < |t| {
      NoMatchNoChange(t, hits, put, i + 1);
    }
  }

  /** A run of output characters that are all kept is the same run of the input. */
  lemma {:induction false} KeptRun(t: string, hits: seq<nat>, put: seq<string>, out: string, o: seq<Origin>,
                                   p: nat, j: nat)
    requires Fits(t, hits, put) && Traced(t, hits, put, out, o)
    requires p + j < |o| && forall k | p <= k <= p + j :: o[k].Kept?
    ensures o[p + j] == Kept(o[p].at + j) && o[p].at + j < |t| && out[p + j] == t[o[p].at + j]
  {
    if j > 0 {
      KeptRun(t, hits, put, out, o, p, j - 1);
      assert NextAt(t, hits, put, o, p + j - 1);
    }
    assert Tells(t, hits, put, o[p + j], out[p + j]);
  }

  /** A replacement stands in the output whole, up to where the output is cut. */
  lemma {:induction false} PutRun(t: string, hits: seq<nat>, put: seq<string>, out: string, o: seq<Origin>,
                                  p: nat, j: nat)
    requires Fits(t, hits, put) && Traced(t, hits, put, out, o)
    requires p + j < |o| && o[p].Put? && o[p].start < |t| && o[p].offset + j < |put[o[p].start]|
    ensures o[p + j] == Put(o[p].start, o[p].offset + j)
    ensures out[p + j] == put[o[p].start][o[p].offset + j]
  {
    if j > 0 {
      PutRun(t, hits, put, out, o, p, j - 1);
      assert NextAt(t, hits, put, o, p + j - 1);
    }
    assert Tells(t, hits, put, o[p + j], out[p + j]);
  }

  /** How many characters from `p` on are kept ones, up to `n`. */
  ghost function FirstPut(o: seq<Origin>, p: nat, n: nat): (k: nat)
    requires p + n <= |o|
    ensures k <= n && (forall j | p <= j < p + k :: o[j].Kept?) && (k < n ==> o[p + k].Put?)
    decreases n
  {
    if n == 0 || o[p].Put? then 0 else 1 + FirstPut(o, p + 1, n - 1)
  }

  lemma SubStep(t: string, hits: seq<nat>, put: seq<string>, i: nat)
    requires i < |t| && Fits(t, hits, put)
    ensures Sub(t, hits, put, i) ==
      if hits[i] == 0 then [t[i]] + Sub(t, hits, put, i + 1) else put[i] + Sub(t, hits, put, i + hits[i])
  {
  }
}
