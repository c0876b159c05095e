/** The microphone's resampler (`apps/web/public/pcm-worklet.js`), in exact arithmetic. */
module Resampler {

  // `rate` input samples a second come in; 16000 a second go out, in frames of 3200.

  import opened Options

  const TARGET := 16000
  const FRAME := 3200

  // ---- What has been put out after n inputs -------------------------------------------------------------

  /** What is owed after `n` inputs, in 16000ths of an input: `acc`. */
  function Owed(rate: int, n: nat): int
    requires rate > 0
  {
    if n == 0 then 0
    else
      var now := Owed(rate, n - 1) + TARGET;
      if now >= rate then now - rate else now
  }

  /** Input `n` completes an output sample. */
  predicate Due(rate: int, n: nat)
    requires rate > 0
  {
    Owed(rate, n) + TARGET >= rate
  }

  /** How many samples the first `n` inputs completed. */
  function Completed(rate: int, n: nat): nat
    requires rate > 0
  {
    if n == 0 then 0 else Completed(rate, n - 1) + if Due(rate, n - 1) then 1 else 0
  }

  /** Where the block of the sample under way began. */
  function Began(rate: int, n: nat): (k: nat)
    requires rate > 0
    ensures k <= n
  {
    if n == 0 then 0 else if Due(rate, n - 1) then n else Began(rate, n - 1)
  }

  /** What is owed, in inputs. */
  function InInputs(owed: int): real { owed as real / TARGET as real }

  function Sum(xs: seq<real>, lo: nat, hi: nat): real
    requires lo <= hi <= |xs|
    decreases hi - lo
  {
    if lo == hi then 0.0 else Sum(xs, lo, hi - 1) + xs[hi - 1]
  }

  function Mean(xs: seq<real>, lo: nat, hi: nat): real
    requires lo < hi <= |xs|
  {
    Sum(xs, lo, hi) / (hi - lo) as real
  }

  /** The samples the first `n` inputs completed. */
  function Means(rate: int, xs: seq<real>, n: nat): (out: seq<real>)
    requires rate > 0 && n <= |xs|
    ensures |out| == Completed(rate, n)
  {
    if n == 0 then [] else Means(rate, xs, n - 1) + if Due(rate, n - 1) then [Mean(xs, Began(rate, n - 1), n)] else []
  }

  /** Splitting the input differently changes nothing: what the first inputs gave does not depend on what follows. */
  lemma {:induction false} MeansOfPrefix(rate: int, xs: seq<real>, more: seq<real>, n: nat)
    requires rate > 0 && n <= |xs|
    ensures Means(rate, xs + more, n) == Means(rate, xs, n)
  {
    if n > 0 {
      MeansOfPrefix(rate, xs, more, n - 1);
      SumOfPrefix(xs, more, Began(rate, n - 1), n);
    }
  }

  lemma {:induction false} SumOfPrefix(xs: seq<real>, more: seq<real>, lo: nat, hi: nat)
    requires lo <= hi <= |xs|
    ensures Sum(xs + more, lo, hi) == Sum(xs, lo, hi)
    decreases hi - lo
  {
    if lo < hi { SumOfPrefix(xs, more, lo, hi - 1); }
  }

  // ---- How many, and of which blocks --------------------------------------------------------------------

  /** At 16000 inputs a second or more, what is owed is what is left of `16000 n` once the samples are paid for. */
  lemma {:induction false} OwedIsTheRest(rate: int, n: nat)
    requires rate >= TARGET
    ensures TARGET * n == rate * Completed(rate, n) + Owed(rate, n) && 0 <= Owed(rate, n) < rate
  {
    if n > 0 {
      OwedIsTheRest(rate, n - 1);
      var k := Completed(rate, n - 1);
      assert rate * (k + 1) == rate * k + rate;
    }
  }

  lemma QuotientIs(a: int, b: int, q: int, r: int)
    requires b > 0 && a == b * q + r && 0 <= r < b
    ensures a / b == q
  {
    var d := a / b - q;
    assert a == b * (a / b) + a % b;
    assert b * d == b * (a / b) - b * q;
    assert d > 0 ==> b * d >= b;
    assert d < 0 ==> b * d <= -b;
  }

  /** Below 16000 every input completes a sample. */
  lemma {:induction false} EveryInputIsDue(rate: int, n: nat)
    requires 0 < rate < TARGET
    ensures Owed(rate, n) >= 0 && Due(rate, n) && Completed(rate, n) == n
  {
    if n > 0 { EveryInputIsDue(rate, n - 1); }
  }

  /** After every number of inputs exactly floor(16000 n / rate) samples are out, if and only if the input rate is 16000
      or more. */
  lemma CountExactly(rate: int)
    requires rate > 0
    ensures (forall n: nat :: Completed(rate, n) == TARGET * n / rate) <==> rate >= TARGET
  {
    if rate >= TARGET {
      forall n: nat ensures Completed(rate, n) == TARGET * n / rate {
        OwedIsTheRest(rate, n);
        QuotientIs(TARGET * n, rate, Completed(rate, n), Owed(rate, n));
      }
    } else {
      EveryInputIsDue(rate, rate);
      assert TARGET * rate == rate * TARGET + 0;
      QuotientIs(TARGET * rate, rate, TARGET, 0);
    }
  }

  /** Where each block begins, the one under way last. */
  function Bounds(rate: int, n: nat): (b: seq<nat>)
    requires rate > 0
    ensures |b| == Completed(rate, n) + 1 && b[|b| - 1] == Began(rate, n)
  {
    if n == 0 then [0] else if Due(rate, n - 1) then Bounds(rate, n - 1) + [n] else Bounds(rate, n - 1)
  }

  ghost predicate IsMeanOfBlock(xs: seq<real>, out: seq<real>, b: seq<nat>, k: nat)
    requires |b| == |out| + 1
  {
    k < |out| ==> b[k] < b[k + 1] <= |xs| && out[k] == Mean(xs, b[k], b[k + 1])
  }

  /** The blocks start at the first input, follow one another without gap or overlap up to the one under way, and each
      sample is the mean of its block. */
  lemma {:induction false} SamplesAreBlockMeans(rate: int, xs: seq<real>, n: nat)
    requires rate > 0 && n <= |xs|
    ensures var b := Bounds(rate, n);
      b[0] == 0 && b[|b| - 1] <= n && forall k: nat :: IsMeanOfBlock(xs, Means(rate, xs, n), b, k)
  {
    if n > 0 {
      SamplesAreBlockMeans(rate, xs, n - 1);
      var b, out := Bounds(rate, n), Means(rate, xs, n);
      forall k: nat ensures IsMeanOfBlock(xs, out, b, k) {
        assert IsMeanOfBlock(xs, Means(rate, xs, n - 1), Bounds(rate, n - 1), k);
      }
    }
  }

  // ---- Quantising ---------------------------------------------------------------------------------------

  function Clamped(value: real): real { if value > 1.0 then 1.0 else if value < -1.0 then -1.0 else value }

  /** A number stored in an Int16Array loses its fraction. */
  function Truncated(x: real): int { if x < 0.0 then -((-x).Floor) else x.Floor }

  function Sample(value: real): int {
    var s := Clamped(value);
    Truncated(if s < 0.0 then s * 32768.0 else s * 32767.0)
  }

  /** Every sample fits an Int16, so that storing it wraps nothing around. */
  lemma SampleFits(value: real)
    ensures -32768 <= Sample(value) <= 32767
  {
    var s := Clamped(value);
    if s < 0.0 {
      assert s * 32768.0 >= -32768.0;
      FloorFits(-(s * 32768.0), 32768);
    } else {
      assert s * 32767.0 <= 32767.0;
      FloorFits(s * 32767.0, 32767);
    }
  }

  /** What is stored of a value: full scale from 1 and from -1 on, and between them the whole part of its share of the
      positive or of the negative scale, whatever is behind the point being dropped. */
  lemma SampleExactly(value: real)
    ensures var n := Sample(value);
      if value >= 1.0 then n == 32767
      else if value <= -1.0 then n == -32768
      else if value >= 0.0 then n as real <= value * 32767.0 < (n + 1) as real
      else (n - 1) as real < value * 32768.0 <= n as real
  {
  }

  lemma FloorFits(x: real, top: int)
    requires 0.0 <= x <= top as real
    ensures 0 <= x.Floor <= top
  {
  }

  function Samples(out: seq<real>): (r: seq<int>)
    ensures |r| == |out| && forall i | 0 <= i < |out| :: r[i] == Sample(out[i])
  {
    seq(|out|, i requires 0 <= i < |out| => Sample(out[i]))
  }

  function Flat(frames: seq<seq<int>>): seq<int> {
    if frames == [] then [] else Flat(frames[..|frames| - 1]) + frames[|frames| - 1]
  }

  lemma FlatSnoc(frames: seq<seq<int>>, frame: seq<int>)
    ensures Flat(frames + [frame]) == Flat(frames) + frame
  {
    assert (frames + [frame])[..|frames|] == frames;
  }

  class Pcm16kProcessor {
    const rate: int
    var acc: real
    var sum: real
    var count: nat
    var out: array<int>
    var filled: nat
    /** The frames posted so far. */
    var posted: seq<seq<int>>
    /** The input samples so far, and the output samples so far, before quantising. */
    ghost var heard: seq<real>
    ghost var emitted: seq<real>

    ghost predicate Framed()
      reads this, out
    {
      && out.Length == FRAME && filled < FRAME && (forall i | 0 <= i < |posted| :: |posted[i]| == FRAME)
      && Flat(posted) + out[..filled] == Samples(emitted)
    }

    /** The state is what the input so far makes it: nothing of how it was split into calls is left. */
    ghost predicate Valid()
      reads this, out
    {
      && rate > 0 && Framed() && emitted == Means(rate, heard, |heard|)
      && (rate != TARGET ==> InBlock())
    }

    /** The block under way: what is owed, its sum and its size. */
    ghost predicate InBlock()
      requires rate > 0
      reads this
    {
      var n := |heard|;
      acc == InInputs(Owed(rate, n)) && count == n - Began(rate, n) && sum == Sum(heard, Began(rate, n), n)
    }

    constructor (rate: int)
      requires rate > 0
      ensures Valid() && heard == [] && posted == [] && this.rate == rate && fresh(out)
    {
      this.rate := rate;
      acc, sum, count, filled, posted, heard, emitted := 0.0, 0.0, 0, 0, [], [], [];
      out := new int[FRAME];
    }

    method Emit(value: real)
      requires Framed()
      modifies this`filled, this`posted, this`emitted, out
      ensures Framed() && emitted == old(emitted) + [value]
    {
      emitted := emitted + [value];
      assert Samples(emitted) == Samples(old(emitted)) + [Sample(value)];
      out[filled] := Sample(value);
      filled := filled + 1;
      assert out[..filled] == old(out[..filled]) + [Sample(value)];
      if filled == out.Length {
        FlatSnoc(posted, out[..]);
        assert out[..] == out[..filled];
        posted := posted + [out[..]];
        filled := 0;
      }
    }

    method Process(input: Option<seq<real>>)
      requires Valid()
      modifies this, out
      ensures Valid() && out == old(out) && heard == old(heard) + if input.Some? then input.value else []
    {
      if input.None? { return; }
      var mono := input.value;
      for i := 0 to |mono|
        invariant Valid() && out == old(out) && heard == old(heard) + mono[..i]
      {
        assert old(heard) + mono[..i + 1] == heard + [mono[i]];
        if rate == TARGET { Pass(mono[i]); } else { Take(mono[i]); }
      }
      assert mono[..|mono|] == mono;
    }

    /** One input at 16000 a second. */
    method Pass(x: real)
      requires Valid() && rate == TARGET
      modifies this, out
      ensures Valid() && out == old(out) && heard == old(heard) + [x]
    {
      AlwaysDue(|heard|);
      MeansOfPrefix(rate, heard, [x], |heard|);
      SumOfOne(heard + [x], |heard|);
      heard := heard + [x];
      Emit(x);
    }

    /** One input at another rate. */
    method Take(x: real)
      requires Valid() && rate != TARGET
      modifies this, out
      ensures Valid() && out == old(out) && heard == old(heard) + [x]
    {
      hide Sum, Means, Flat, Samples, Sample;
      ghost var n := |heard|;
      OneMore(rate, heard, x);
      RatioTest(Owed(rate, n), rate);
      heard := heard + [x];
      sum, count, acc := sum + x, count + 1, acc + 1.0;
      var ratio := rate as real / TARGET as real;
      if acc >= ratio {
        acc := acc - ratio;
        Emit(sum / count as real);
        sum, count := 0.0, 0;
      }
    }
  }

  lemma RatioTest(owed: int, rate: int)
    ensures InInputs(owed) + 1.0 == InInputs(owed + TARGET)
    ensures InInputs(owed) + 1.0 >= rate as real / TARGET as real <==> owed + TARGET >= rate
    ensures InInputs(owed) + 1.0 - rate as real / TARGET as real == InInputs(owed + TARGET - rate)
  {
  }

  /** What one more input does to the block under way and to the samples. */
  lemma OneMore(rate: int, xs: seq<real>, x: real)
    requires rate > 0
    ensures var n, ys, k := |xs|, xs + [x], Began(rate, |xs|);
      && Sum(ys, k, n + 1) == Sum(xs, k, n) + x && Sum(ys, n + 1, n + 1) == 0.0
      && Means(rate, ys, n + 1) ==
           if Due(rate, n) then Means(rate, xs, n) + [(Sum(xs, k, n) + x) / (n + 1 - k) as real] else Means(rate, xs, n)
  {
    var n, ys := |xs|, xs + [x];
    MeansOfPrefix(rate, xs, [x], n);
    SumOfPrefix(xs, [x], Began(rate, n), n);
    assert Sum(ys, Began(rate, n), n + 1) == Sum(ys, Began(rate, n), n) + ys[n];
    assert Means(rate, ys, n + 1) ==
      Means(rate, ys, n) + if Due(rate, n) then [Mean(ys, Began(rate, n), n + 1)] else [];
  }

  lemma {:induction false} AlwaysDue(n: nat)
    ensures Owed(TARGET, n) == 0 && Due(TARGET, n) && Began(TARGET, n) == n
  {
    if n > 0 { AlwaysDue(n - 1); }
  }

  lemma SumOfOne(xs: seq<real>, i: nat)
    requires i < |xs|
    ensures Mean(xs, i, i + 1) == xs[i]
  {
    assert Sum(xs, i, i) == 0.0;
  }

  // ---- How the input is split ---------------------------------------------------------------------------

  ghost predicate WholeFrames(frames: seq<seq<int>>) { forall i | 0 <= i < |frames| :: |frames[i]| == FRAME }

  lemma {:induction false} FlatLength(frames: seq<seq<int>>)
    requires WholeFrames(frames)
    ensures |Flat(frames)| == FRAME * |frames|
  {
    if frames != [] { FlatLength(frames[..|frames| - 1]); }
  }

  /** A sequence is cut into whole frames and a rest in one way only. */
  lemma {:induction false} OneFraming(a: seq<seq<int>>, rest: seq<int>, b: seq<seq<int>>, rest': seq<int>)
    requires WholeFrames(a) && WholeFrames(b) && |rest| == |rest'| && Flat(a) + rest == Flat(b) + rest' && |a| == |b|
    ensures a == b && rest == rest'
    decreases |a|
  {
    FlatLength(a);
    FlatLength(b);
    var whole, n := Flat(a) + rest, |Flat(a)|;
    assert whole[..n] == Flat(a) == Flat(b) && whole[n..] == rest == rest';
    if a != [] {
      var last := |a| - 1;
      OneFraming(a[..last], a[last], b[..last], b[last]);
      assert a == a[..last] + [a[last]] && b == b[..last] + [b[last]];
    }
  }

  /** Two processors that heard the same input, however it was split into calls, have posted the same frames and hold
      the same samples for the next. */
  lemma SplittingChangesNothing(a: Pcm16kProcessor, b: Pcm16kProcessor)
    requires a.Valid() && b.Valid() && a.rate == b.rate && a.heard == b.heard
    ensures a.posted == b.posted && a.filled == b.filled && a.out[..a.filled] == b.out[..b.filled]
  {
    FlatLength(a.posted);
    FlatLength(b.posted);
    assert FRAME * |a.posted| + a.filled == FRAME * |b.posted| + b.filled;
    OneFraming(a.posted, a.out[..a.filled], b.posted, b.out[..b.filled]);
  }
}
