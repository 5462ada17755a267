/**
 * `normalize_audio` in `src/logic/utils.py`: every sample divided by the largest
 * magnitude in the buffer plus a small constant, so that silence stays silence and
 * the loudest sample lands just below full scale.
 */
module Normalize {
  import opened Wrappers
  import opened Signal

  /** Added to the peak before dividing, so that a silent buffer is not divided by 0. */
  const Epsilon: real := 0.000000000001

  datatype NormalizeError =
    | EmptyInput  // np.max of an array with no entries raises

  /** `b` has the dimensions of `a`: same number of axes, samples and channels. */
  predicate SameShape(a: Audio, b: Audio)
  {
    a.Mono? == b.Mono? && NumSamples(a) == NumSamples(b) && Channels(a) == Channels(b)
  }

  /** The divisor `np.max(np.abs(audio)) + 1e-12`. */
  function Divisor(a: Audio): (d: real)
    requires WellShaped(a)
    ensures d >= Epsilon
  {
    Peak(ToFrames(a)) + Epsilon
  }

  /** `normalize_audio(audio)`. */
  function NormalizeAudio(a: Audio): (r: Result<Audio, NormalizeError>)
    requires WellShaped(a)
    ensures r.Err? <==> !HasEntries(a)
    ensures r.Ok? ==> WellShaped(r.value) && SameShape(a, r.value)
    ensures r.Ok? ==>
              forall k, c :: 0 <= k < NumSamples(a) && 0 <= c < Channels(a) ==>
                ToFrames(r.value)[k][c] == ToFrames(a)[k][c] / Divisor(a)
  {
    if !HasEntries(a) then Err(EmptyInput)
    else
      var d := Divisor(a);
      match a
      case Mono(s) =>
        var out := seq(|s|, i requires 0 <= i < |s| => s[i] / d);
        Ok(Mono(out))
      case Multi(ch, f) =>
        Ok(Multi(ch, DivFrames(f, d)))
  }

  // Facts about dividing by a positive constant, each proved in isolation.

  lemma DivBelowOne(x: real, d: real)
    requires 0.0 <= x < d
    ensures x / d < 1.0
  {
  }

  lemma DivMonotone(u: real, v: real, d: real)
    requires d > 0.0 && u <= v
    ensures u / d <= v / d
  {
  }

  lemma DivStrict(u: real, v: real, d: real)
    requires d > 0.0 && u < v
    ensures u / d < v / d
  {
  }

  lemma DivSign(x: real, d: real)
    requires d > 0.0
    ensures x / d > 0.0 <==> x > 0.0
    ensures x / d == 0.0 <==> x == 0.0
    ensures x / d < 0.0 <==> x < 0.0
  {
  }

  /** `|x / d| == |x| / d` for a positive `d`. */
  lemma ScaledMagnitude(x: real, d: real)
    requires d > 0.0
    ensures Abs(x / d) == Abs(x) / d
  {
    DivSign(x, d);
    if x < 0.0 {
      assert (-x) / d == -(x / d);
    }
  }

  /** Every normalised sample lies strictly inside (-1, 1). */
  lemma NormalizedBelowOne(a: Audio)
    requires WellShaped(a) && HasEntries(a)
    ensures forall k, c :: 0 <= k < NumSamples(a) && 0 <= c < Channels(a) ==>
              Abs(ToFrames(NormalizeAudio(a).value)[k][c]) < 1.0
  {
    forall k, c | 0 <= k < NumSamples(a) && 0 <= c < Channels(a)
      ensures Abs(ToFrames(NormalizeAudio(a).value)[k][c]) < 1.0
    {
      var x := ToFrames(a)[k][c];
      ScaledMagnitude(x, Divisor(a));
      DivBelowOne(Abs(x), Divisor(a));
    }
  }

  /** Normalising keeps the sign of every sample: positive stays positive, negative
      stays negative and 0 stays 0. */
  lemma NormalizedSign(a: Audio, k: nat, c: nat)
    requires WellShaped(a) && HasEntries(a)
    requires k < NumSamples(a) && c < Channels(a)
    ensures var x := ToFrames(a)[k][c];
            var y := ToFrames(NormalizeAudio(a).value)[k][c];
            (y > 0.0 <==> x > 0.0) && (y == 0.0 <==> x == 0.0) && (y < 0.0 <==> x < 0.0)
  {
    DivSign(ToFrames(a)[k][c], Divisor(a));
  }

  /** Normalising keeps the order of samples: it divides by one positive constant. */
  lemma NormalizedOrder(a: Audio, k1: nat, c1: nat, k2: nat, c2: nat)
    requires WellShaped(a) && HasEntries(a)
    requires k1 < NumSamples(a) && c1 < Channels(a) && k2 < NumSamples(a) && c2 < Channels(a)
    ensures var x := ToFrames(a);
            var y := ToFrames(NormalizeAudio(a).value);
            x[k1][c1] <= x[k2][c2] <==> y[k1][c1] <= y[k2][c2]
  {
    var d := Divisor(a);
    var x1 := ToFrames(a)[k1][c1];
    var x2 := ToFrames(a)[k2][c2];
    var y := ToFrames(NormalizeAudio(a).value);
    assert y[k1][c1] == x1 / d && y[k2][c2] == x2 / d;
    if x1 <= x2 {
      DivMonotone(x1, x2, d);
    } else {
      DivStrict(x2, x1, d);
    }
  }

  /** A silent buffer comes back unchanged (all zeros, no division by zero). */
  lemma SilenceStaysSilent(a: Audio)
    requires WellShaped(a) && HasEntries(a)
    requires forall k, c :: 0 <= k < NumSamples(a) && 0 <= c < Channels(a) ==> ToFrames(a)[k][c] == 0.0
    ensures NormalizeAudio(a) == Ok(a)
  {
    var r := NormalizeAudio(a).value;
    var x := ToFrames(a);
    var y := ToFrames(r);
    forall k, c | 0 <= k < NumSamples(a) && 0 <= c < Channels(a)
      ensures y[k][c] == x[k][c]
    {
      DivSign(x[k][c], Divisor(a));
    }
    SameEntries(a, r);
  }

  /** Two arrays of the same shape with the same entries are the same array. */
  lemma SameEntries(a: Audio, b: Audio)
    requires WellShaped(a) && WellShaped(b) && SameShape(a, b)
    requires forall k, c :: 0 <= k < NumSamples(a) && 0 <= c < Channels(a) ==> ToFrames(b)[k][c] == ToFrames(a)[k][c]
    ensures b == a
  {
    var x := ToFrames(a);
    var y := ToFrames(b);
    match a
    case Mono(s) =>
      forall i | 0 <= i < |s|
        ensures b.samples[i] == s[i]
      {
        assert y[i][0] == x[i][0];
        assert y[i] == [b.samples[i]] && x[i] == [s[i]];
      }
      assert b.samples == s;
    case Multi(ch, f) =>
      forall k | 0 <= k < |f|
        ensures b.frames[k] == f[k]
      {
        assert |b.frames[k]| == |f[k]| == ch;
        forall c | 0 <= c < ch
          ensures b.frames[k][c] == f[k][c]
        {
          assert y[k][c] == x[k][c];
        }
      }
      assert b.frames == f && b.channels == ch;
  }

  /** The largest magnitude after normalising is `M / (M + 1e-12)` for the largest input
      magnitude `M`: 0 for silence, just below 1 otherwise. */
  lemma NormalizedPeak(a: Audio)
    requires WellShaped(a) && HasEntries(a)
    ensures Peak(ToFrames(NormalizeAudio(a).value)) == Peak(ToFrames(a)) / Divisor(a)
  {
    var r := NormalizeAudio(a);
    var x := ToFrames(a);
    var y := ToFrames(r.value);
    var w := Channels(a);
    assert Rectangular(y, w) && |y| == |x|;
    assert forall k, c :: 0 <= k < |x| && 0 <= c < w ==> y[k][c] == x[k][c] / Divisor(a);
    var m := Peak(x);
    var d := Divisor(a);
    assert d == m + Epsilon;
    ScaledPeak(x, y, w, d);
    assert Peak(y) == m / d;
  }

  /** For integer-valued audio (any non-silent 16-bit buffer has a peak of at least 1)
      the loudest normalised sample is within 1e-6 of full scale. */
  lemma NonSilentPeakNearOne(a: Audio)
    requires WellShaped(a) && HasEntries(a) && Peak(ToFrames(a)) >= 1.0
    ensures 0.999999 < Peak(ToFrames(NormalizeAudio(a).value)) < 1.0
  {
    NormalizedPeak(a);
    NearOne(Peak(ToFrames(a)), Divisor(a));
  }

  lemma NearOne(m: real, d: real)
    requires m >= 1.0 && d == m + Epsilon
    ensures 0.999999 < m / d < 1.0
  {
    assert m / d * d == m;
  }

  /** Dividing every entry of a buffer with at least one entry by `d` divides its peak by `d`. */
  lemma ScaledPeak(x: Frames, y: Frames, width: nat, d: real)
    requires Rectangular(x, width) && Rectangular(y, width) && |x| == |y| && |x| > 0 && width > 0
    requires d > 0.0
    requires forall k, c :: 0 <= k < |x| && 0 <= c < width ==> y[k][c] == x[k][c] / d
    ensures Peak(y) == Peak(x) / d
  {
    var m := Peak(x);
    assert |x[0]| > 0;
    var k, c :| 0 <= k < |x| && 0 <= c < |x[k]| && Abs(x[k][c]) == m;
    ScaledMagnitude(x[k][c], d);
    forall k', c' | 0 <= k' < |y| && 0 <= c' < |y[k']|
      ensures Abs(y[k'][c']) <= m / d
    {
      ScaledMagnitude(x[k'][c'], d);
      DivMonotone(Abs(x[k'][c']), m, d);
    }
    PeakIsBound(y, m / d, k, c);
  }

  /** A value that bounds every magnitude in `f` and is reached by one is its peak. */
  lemma PeakIsBound(f: Frames, m: real, k: nat, c: nat)
    requires k < |f| && c < |f[k]| && Abs(f[k][c]) == m
    requires forall k', c' :: 0 <= k' < |f| && 0 <= c' < |f[k']| ==> Abs(f[k'][c']) <= m
    ensures Peak(f) == m
  {
    var p := Peak(f);
    assert m <= p;
    var k', c' :| 0 <= k' < |f| && 0 <= c' < |f[k']| && Abs(f[k'][c']) == p;
  }
}
