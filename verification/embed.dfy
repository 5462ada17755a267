/**
 * The echo embedder of `src/logic/embed.py`: `add_echo` and its dispatcher
 * `embed_echo`.
 *
 * A mono signal is processed as a single-column buffer; an echo is either a
 * single delayed copy (simple mode) or one tap per pattern element
 * (time-spread mode); the buffer is divided by its peak when that exceeds 1,
 * and numpy's `squeeze()` finally drops a one-column channel axis.
 */
module Embed {
  import opened Wrappers
  import opened Signal
  import Codec

  function AddRows(a: seq<real>, b: seq<real>): (r: seq<real>)
    requires |a| == |b|
    ensures |r| == |a|
    ensures forall c :: 0 <= c < |a| ==> r[c] == a[c] + b[c]
  {
    seq(|a|, c requires 0 <= c < |a| => a[c] + b[c])
  }

  function ScaleRow(k: real, a: seq<real>): (r: seq<real>)
    ensures |r| == |a|
    ensures forall c :: 0 <= c < |a| ==> r[c] == k * a[c]
  {
    seq(|a|, c requires 0 <= c < |a| => k * a[c])
  }

  function AddFrames(a: Frames, b: Frames): (r: Frames)
    requires |a| == |b| && forall k :: 0 <= k < |a| ==> |a[k]| == |b[k]|
    ensures |r| == |a|
    ensures forall k :: 0 <= k < |a| ==> r[k] == AddRows(a[k], b[k])
  {
    seq(|a|, k requires 0 <= k < |a| => AddRows(a[k], b[k]))
  }

  function ScaleFrames(s: real, f: Frames): (r: Frames)
    ensures |r| == |f|
    ensures forall k :: 0 <= k < |f| ==> r[k] == ScaleRow(s, f[k])
  {
    seq(|f|, k requires 0 <= k < |f| => ScaleRow(s, f[k]))
  }

  /** The simple echo, written as the source writes it: `y[delta:] += alpha * x[:-delta]`.
      Every row from `delta` on gains `alpha` times the row `delta` earlier, in every
      channel; earlier rows are copied. */
  function SimpleEcho(x: Frames, width: nat, alpha: real, delta: nat): (y: Frames)
    requires Rectangular(x, width) && 0 < delta < |x|
    ensures |y| == |x| && Rectangular(y, width)
    ensures forall k, c {:trigger y[k][c]} :: 0 <= k < |x| && 0 <= c < width ==>
              y[k][c] == (if k < delta then x[k][c] else x[k][c] + alpha * x[k - delta][c])
  {
    x[..delta] + AddFrames(x[delta..], ScaleFrames(alpha, x[..|x| - delta]))
  }

  /** The same slice formulation on one channel. */
  function MonoEcho(s: seq<real>, alpha: real, delta: nat): (y: seq<real>)
    requires 0 < delta < |s|
    ensures |y| == |s|
    ensures forall k {:trigger y[k]} :: 0 <= k < |s| ==> y[k] == (if k < delta then s[k] else s[k] + alpha * s[k - delta])
  {
    s[..delta] + AddRows(s[delta..], ScaleRow(alpha, s[..|s| - delta]))
  }

  /** The simple echo treats every channel on its own: channel `c` of the echoed
      buffer is the mono echo of channel `c`. */
  lemma EchoPerChannel(x: Frames, width: nat, alpha: real, delta: nat, c: nat)
    requires Rectangular(x, width) && 0 < delta < |x| && c < width
    ensures Column(SimpleEcho(x, width, alpha, delta), c) == MonoEcho(Column(x, c), alpha, delta)
  {
    var y := SimpleEcho(x, width, alpha, delta);
    var s := Column(x, c);
    var rhs := MonoEcho(s, alpha, delta);
    MonoEchoEntries(s, rhs, alpha, delta);
    ColumnEcho(x, y, s, Column(y, c), rhs, width, alpha, delta, c);
  }

  /** `MonoEcho`'s entries, split at the delay. */
  lemma MonoEchoEntries(s: seq<real>, rhs: seq<real>, alpha: real, delta: nat)
    requires 0 < delta < |s| && rhs == MonoEcho(s, alpha, delta)
    ensures |rhs| == |s|
    ensures forall k :: 0 <= k < delta ==> rhs[k] == s[k]
    ensures forall k :: delta <= k < |s| ==> rhs[k] == s[k] + alpha * s[k - delta]
  {
    forall k | 0 <= k < |s|
      ensures rhs[k] == (if k < delta then s[k] else s[k] + alpha * s[k - delta])
    {
    }
  }

  /** The pointwise argument behind `EchoPerChannel`, stated over the facts alone. */
  lemma ColumnEcho(x: Frames, y: Frames, s: seq<real>, lhs: seq<real>, rhs: seq<real>,
                   width: nat, alpha: real, delta: nat, c: nat)
    requires Rectangular(x, width) && Rectangular(y, width) && |y| == |x| && 0 < delta < |x| && c < width
    requires forall k, c' {:trigger y[k][c']} :: 0 <= k < |x| && 0 <= c' < width ==>
               y[k][c'] == (if k < delta then x[k][c'] else x[k][c'] + alpha * x[k - delta][c'])
    requires |s| == |x| && forall k :: 0 <= k < |x| ==> s[k] == x[k][c]
    requires |lhs| == |x| && forall k :: 0 <= k < |x| ==> lhs[k] == y[k][c]
    requires |rhs| == |s| && forall k :: 0 <= k < delta ==> rhs[k] == s[k]
    requires forall k :: delta <= k < |s| ==> rhs[k] == s[k] + alpha * s[k - delta]
    ensures lhs == rhs
  {
    forall k | 0 <= k < |x|
      ensures lhs[k] == rhs[k]
    {
      var d := if k < delta then 0.0 else s[k - delta];
      assert k >= delta ==> x[k - delta][c] == d;
      EchoEntry(y[k][c], rhs[k], s[k], d, alpha, k < delta);
    }
  }

  /** One entry of the echo, seen from the buffer and from the channel: both are the
      same sample plus, past the delay, `alpha` times the same earlier sample. */
  lemma EchoEntry(u: real, v: real, xk: real, xd: real, alpha: real, early: bool)
    requires early ==> u == xk && v == xk
    requires !early ==> u == xk + alpha * xd && v == xk + alpha * xd
    ensures u == v
  {
  }

  /** The first `t` taps of the time-spread loop
      `for i in range(t): y[delta + i, :] += alpha * pattern[i] * x[i, :]`.
      Each tap changes a single row, `delta + i`, by `alpha * pattern[i]` times row `i`
      of the original buffer; taps do not compound, since they read `x`, not `y`. */
  function ApplyTaps(x: Frames, width: nat, alpha: real, p: seq<real>, delta: nat, t: nat): (y: Frames)
    requires Rectangular(x, width) && t <= |p| && delta + t <= |x|
    ensures |y| == |x| && Rectangular(y, width)
    ensures forall k, c {:trigger y[k][c]} :: 0 <= k < |x| && 0 <= c < width ==>
              y[k][c] == (if delta <= k < delta + t then x[k][c] + alpha * p[k - delta] * x[k - delta][c]
                          else x[k][c])
  {
    if t == 0 then x
    else
      var y := ApplyTaps(x, width, alpha, p, delta, t - 1);
      var i := t - 1;
      y[delta + i := AddRows(y[delta + i], ScaleRow(alpha * p[i], x[i]))]
  }

  function Min(a: int, b: int): int
  {
    if a <= b then a else b
  }

  /** Time-spread echo: one tap per pattern element that has a row to land on; taps
      past the end of the signal are dropped. */
  function TimeSpreadEcho(x: Frames, width: nat, alpha: real, p: seq<real>, delta: nat): (y: Frames)
    requires Rectangular(x, width) && 0 < delta < |x|
    ensures |y| == |x| && Rectangular(y, width)
    ensures forall k, c {:trigger y[k][c]} :: 0 <= k < |x| && 0 <= c < width ==>
              y[k][c] == (if delta <= k && k - delta < |p| then x[k][c] + alpha * p[k - delta] * x[k - delta][c]
                          else x[k][c])
  {
    ApplyTaps(x, width, alpha, p, delta, Min(|p|, |x| - delta))
  }

  /** The echoed buffer before the peak check: simple mode without a pattern,
      time-spread mode with one. */
  function EchoedFrames(x: Frames, width: nat, alpha: real, delta: nat, pattern: Option<seq<real>>): (y: Frames)
    requires Rectangular(x, width) && 0 < delta < |x|
    ensures |y| == |x| && Rectangular(y, width)
    ensures pattern.None? ==> y == SimpleEcho(x, width, alpha, delta)
    ensures pattern.Some? ==> y == TimeSpreadEcho(x, width, alpha, pattern.value, delta)
  {
    match pattern
    case None => SimpleEcho(x, width, alpha, delta)
    case Some(p) => TimeSpreadEcho(x, width, alpha, p, delta)
  }

  lemma DivBound(v: real, m: real)
    requires m > 0.0 && Abs(v) <= m
    ensures Abs(v / m) <= 1.0
  {
    assert m / m == 1.0;
    if v < 0.0 {
      assert (-v) / m <= m / m;
      assert v / m == -((-v) / m);
    } else {
      assert v / m <= m / m;
    }
  }

  /** `if max|y| > 1: y = y / max|y|`. Afterwards no entry exceeds 1 in magnitude;
      a buffer already within [-1, 1] is left exactly as it is. */
  function Rescale(y: Frames, width: nat): (z: Frames)
    requires Rectangular(y, width)
    ensures |z| == |y| && Rectangular(z, width)
    ensures Peak(y) <= 1.0 ==> z == y
    ensures Peak(y) > 1.0 ==> forall k, c :: 0 <= k < |y| && 0 <= c < width ==> z[k][c] == y[k][c] / Peak(y)
    ensures forall k, c :: 0 <= k < |y| && 0 <= c < width ==> Abs(z[k][c]) <= 1.0
  {
    var m := Peak(y);
    if m > 1.0 then
      var z := DivFrames(y, m);
      assert forall k, c :: 0 <= k < |y| && 0 <= c < width ==> Abs(z[k][c]) <= 1.0 by {
        forall k, c | 0 <= k < |y| && 0 <= c < width
          ensures Abs(z[k][c]) <= 1.0
        {
          DivBound(y[k][c], m);
        }
      }
      z
    else
      WithinUnit(y, width, m);
      y
  }

  /** Every entry of a buffer whose peak is `m <= 1` lies in [-1, 1]. */
  lemma WithinUnit(y: Frames, width: nat, m: real)
    requires Rectangular(y, width) && m == Peak(y) && m <= 1.0
    ensures forall k, c :: 0 <= k < |y| && 0 <= c < width ==> Abs(y[k][c]) <= 1.0
  {
  }

  /** An echo is applied only for a positive delay and a non-zero strength. */
  predicate EchoApplies(alpha: real, delta: int)
  {
    delta > 0 && alpha != 0.0
  }

  /** What `add_echo` needs beyond a well-shaped array. Once an echo is attempted the
      result goes through `squeeze()`, which must not drop the sample axis (at least two
      samples); and the peak check `np.max(np.abs(y))` needs at least one entry. */
  predicate EchoInputOk(data: Audio, alpha: real, delta: int)
  {
    && WellShaped(data)
    && (EchoApplies(alpha, delta) ==> NumSamples(data) >= 2)
    && (EchoApplies(alpha, delta) && delta < NumSamples(data) ==> Channels(data) >= 1)
  }

  /** `add_echo(data, alpha, delta, pattern)`. */
  function AddEcho(data: Audio, alpha: real, delta: int, pattern: Option<seq<real>>): (r: Audio)
    requires EchoInputOk(data, alpha, delta)
    // delta <= 0 or alpha == 0: the input itself
    ensures !EchoApplies(alpha, delta) ==> r == data
    // shape: a mono signal stays mono, a buffer of two or more channels keeps them
    ensures WellShaped(r) && NumSamples(r) == NumSamples(data) && Channels(r) == Channels(data)
    ensures data.Mono? ==> r.Mono?
    ensures data.Multi? && data.channels != 1 ==> r.Multi?
    // delta >= n: the values of the input, through squeeze
    ensures EchoApplies(alpha, delta) && delta >= NumSamples(data) ==> ToFrames(r) == ToFrames(data)
    ensures EchoApplies(alpha, delta) && delta >= NumSamples(data) && !(data.Multi? && data.channels == 1) ==> r == data
    // an applied echo never leaves a sample outside [-1, 1]
    ensures EchoApplies(alpha, delta) && delta < NumSamples(data) ==>
              forall k, c :: 0 <= k < NumSamples(r) && 0 <= c < Channels(r) ==> Abs(ToFrames(r)[k][c]) <= 1.0
  {
    if !EchoApplies(alpha, delta) then data
    else
      var x := ToFrames(data);
      var width := Channels(data);
      if delta >= |x| then
        SqueezeToFrames(data);
        Squeeze(x, width)
      else
        Squeeze(Rescale(EchoedFrames(x, width, alpha, delta, pattern), width), width)
  }

  /** On the echo path the output is the echoed buffer after the peak check. */
  lemma AddEchoBeforeRescale(data: Audio, alpha: real, delta: int, pattern: Option<seq<real>>)
    requires EchoInputOk(data, alpha, delta) && EchoApplies(alpha, delta) && delta < NumSamples(data)
    ensures ToFrames(AddEcho(data, alpha, delta, pattern))
              == Rescale(EchoedFrames(ToFrames(data), Channels(data), alpha, delta, pattern), Channels(data))
  {
  }

  /** An echo that stays within [-1, 1] is returned exactly: the division by the peak
      only happens when some sample would exceed 1. */
  lemma UnclippedEcho(data: Audio, alpha: real, delta: int, pattern: Option<seq<real>>, y: Frames)
    requires EchoInputOk(data, alpha, delta) && EchoApplies(alpha, delta) && delta < NumSamples(data)
    requires y == EchoedFrames(ToFrames(data), Channels(data), alpha, delta, pattern)
    requires forall k, c :: 0 <= k < |y| && 0 <= c < Channels(data) ==> Abs(y[k][c]) <= 1.0
    ensures ToFrames(AddEcho(data, alpha, delta, pattern)) == y
  {
    PeakAtMostOne(y, Channels(data));
  }

  /** What `embed_echo` raises. */
  datatype EmbedError =
    | EmptyAudio    // `print(np.max(audio))` raises on an array with no entries
    | InvalidToken  // `bytes.fromhex` rejects the token

  /** `embed_echo(audio, alpha, delta, watermark)`. The peak of the audio is printed
      first, which raises when the array has no entries. A missing or empty token means
      a simple echo; otherwise the token is decoded (even when the echo turns out to be
      degenerate) and its bits select the taps of a time-spread echo, 1 or 255 each. */
  function EmbedEcho(data: Audio, alpha: real, delta: int, watermark: Option<string>): (r: Result<Audio, EmbedError>)
    requires WellShaped(data) && (HasEntries(data) ==> EchoInputOk(data, alpha, delta))
    ensures r == Err(EmptyAudio) <==> !HasEntries(data)
    ensures r == Err(InvalidToken) <==>
              HasEntries(data) && watermark.Some? && |watermark.value| > 0 && Codec.FromHex(watermark.value).Err?
    ensures HasEntries(data) && (watermark.None? || watermark == Some("")) ==>
              r == Ok(AddEcho(data, alpha, delta, None))
    ensures r.Ok? && watermark.Some? && |watermark.value| > 0 ==>
              r.value == AddEcho(data, alpha, delta, Some(Codec.BitTaps(Codec.FromHex(watermark.value).value)))
  {
    if !HasEntries(data) then Err(EmptyAudio)
    else if watermark.Some? && |watermark.value| > 0 then
      var bipolar :- Codec.WatermarkToBipolar(watermark.value).MapError(_ => InvalidToken);
      Codec.TokenTaps(watermark.value);
      Ok(AddEcho(data, alpha, delta, Some(Codec.TapValues(bipolar))))
    else
      Ok(AddEcho(data, alpha, delta, None))
  }

  /** The token is read only through `bytes.fromhex`: two tokens that decode to the same
      bytes (differing in letter case, or in whitespace between pairs) embed the same
      echo, and fail in the same way. */
  lemma EmbedEchoSameBytes(data: Audio, alpha: real, delta: int, t1: string, t2: string)
    requires WellShaped(data) && (HasEntries(data) ==> EchoInputOk(data, alpha, delta))
    requires |t1| > 0 && |t2| > 0 && Codec.FromHex(t1) == Codec.FromHex(t2)
    ensures EmbedEcho(data, alpha, delta, Some(t1)) == EmbedEcho(data, alpha, delta, Some(t2))
  {
    var r1 := EmbedEcho(data, alpha, delta, Some(t1));
    var r2 := EmbedEcho(data, alpha, delta, Some(t2));
    if r1.Err? {
      assert r1.error == EmptyAudio || r1.error == InvalidToken;
    }
    if r2.Err? {
      assert r2.error == EmptyAudio || r2.error == InvalidToken;
    }
  }

  /** A token made by `generate_watermark` embeds a time-spread echo whose taps are the
      bits of the random bytes behind it, most significant bit first. */
  lemma EmbedGeneratedToken(data: Audio, alpha: real, delta: int, length: int, entropy: seq<Codec.byte>)
    requires WellShaped(data) && HasEntries(data) && EchoInputOk(data, alpha, delta)
    requires length > 0 && length % 8 == 0 && |entropy| == length / 8
    ensures Codec.GenerateWatermark(length, entropy).Ok?
    ensures EmbedEcho(data, alpha, delta, Some(Codec.GenerateWatermark(length, entropy).value))
            == Ok(AddEcho(data, alpha, delta, Some(Codec.BitTaps(entropy))))
  {
    var t := Codec.GenerateWatermark(length, entropy).value;
    assert |t| > 0 && Codec.FromHex(t) == Ok(entropy);
  }

  // ---------------------------------------------------------------------------
  // Worked examples. The signals are parameters fixed by `requires`, so that the
  // verifier reasons about them instead of evaluating every function on literals.

  lemma MonoSimpleFrames(s: seq<real>)
    requires s == [1.0, 0.0, 0.0, 0.0]
    ensures EchoedFrames(ToFrames(Mono(s)), 1, 0.5, 2, None) == [[1.0], [0.0], [0.5], [0.0]]
  {
    var x := ToFrames(Mono(s));
    var y := EchoedFrames(x, 1, 0.5, 2, None);
    assert x == [[1.0], [0.0], [0.0], [0.0]];
    assert |y[0]| == |y[1]| == |y[2]| == |y[3]| == 1;
    assert y[0] == [1.0] && y[1] == [0.0] && y[2] == [0.5] && y[3] == [0.0];
  }

  /** Mono `[1, 0, 0, 0]`, alpha 0.5, delta 2 gives `[1, 0, 0.5, 0]`. */
  lemma MonoSimpleExample(s: seq<real>)
    requires s == [1.0, 0.0, 0.0, 0.0]
    ensures AddEcho(Mono(s), 0.5, 2, None) == Mono([1.0, 0.0, 0.5, 0.0])
  {
    var y: Frames := [[1.0], [0.0], [0.5], [0.0]];
    MonoSimpleFrames(s);
    forall k, c | 0 <= k < |y| && 0 <= c < 1
      ensures Abs(y[k][c]) <= 1.0
    {
      assert k == 0 || k == 1 || k == 2 || k == 3;
    }
    UnclippedEcho(Mono(s), 0.5, 2, None, y);
    MonoFromFrames(AddEcho(Mono(s), 0.5, 2, None), y);
    ExampleColumn(y);
  }

  lemma ExampleColumn(y: Frames)
    requires y == [[1.0], [0.0], [0.5], [0.0]]
    ensures Column(y, 0) == [1.0, 0.0, 0.5, 0.0]
  {
    var col := Column(y, 0);
    assert col[0] == 1.0 && col[1] == 0.0 && col[2] == 0.5 && col[3] == 0.0;
  }

  lemma StereoSimpleFrames(f: Frames)
    requires f == [[1.0, -1.0], [0.5, -0.5], [0.0, 0.0], [0.0, 0.0]]
    ensures EchoedFrames(f, 2, 0.5, 2, None) == [[1.0, -1.0], [0.5, -0.5], [0.5, -0.5], [0.25, -0.25]]
  {
    var y := EchoedFrames(f, 2, 0.5, 2, None);
    assert |y[0]| == |y[1]| == |y[2]| == |y[3]| == 2;
    assert y[0] == [1.0, -1.0] && y[1] == [0.5, -0.5] && y[2] == [0.5, -0.5] && y[3] == [0.25, -0.25];
  }

  /** Stereo `[[1,-1],[0.5,-0.5],[0,0],[0,0]]`, alpha 0.5, delta 2 gives
      `[[1,-1],[0.5,-0.5],[0.5,-0.5],[0.25,-0.25]]`. */
  lemma StereoSimpleExample(f: Frames)
    requires f == [[1.0, -1.0], [0.5, -0.5], [0.0, 0.0], [0.0, 0.0]]
    ensures AddEcho(Multi(2, f), 0.5, 2, None) == Multi(2, [[1.0, -1.0], [0.5, -0.5], [0.5, -0.5], [0.25, -0.25]])
  {
    var y: Frames := [[1.0, -1.0], [0.5, -0.5], [0.5, -0.5], [0.25, -0.25]];
    StereoSimpleFrames(f);
    forall k, c | 0 <= k < |y| && 0 <= c < 2
      ensures Abs(y[k][c]) <= 1.0
    {
      assert k == 0 || k == 1 || k == 2 || k == 3;
    }
    UnclippedEcho(Multi(2, f), 0.5, 2, None, y);
  }

  lemma TimeSpreadTruncationFrames(s: seq<real>, p: seq<real>)
    requires s == [0.5, -0.5, 0.0, 0.0] && p == [1.0, -1.0, 1.0, -1.0, 1.0, -1.0]
    ensures EchoedFrames(ToFrames(Mono(s)), 1, 0.5, 2, Some(p)) == [[0.5], [-0.5], [0.25], [0.25]]
  {
    var x := ToFrames(Mono(s));
    var y := EchoedFrames(x, 1, 0.5, 2, Some(p));
    assert x == [[0.5], [-0.5], [0.0], [0.0]];
    assert |y[0]| == |y[1]| == |y[2]| == |y[3]| == 1;
    assert y[0] == [0.5] && y[1] == [-0.5] && y[2] == [0.25] && y[3] == [0.25];
  }

  /** Mono `[0.5, -0.5, 0, 0]`, pattern `[1, -1, 1, -1, 1, -1]`, alpha 0.5, delta 2 gives
      `[0.5, -0.5, 0.25, 0.25]`: only the first two taps land inside the signal. */
  lemma TimeSpreadTruncationExample(s: seq<real>, p: seq<real>)
    requires s == [0.5, -0.5, 0.0, 0.0] && p == [1.0, -1.0, 1.0, -1.0, 1.0, -1.0]
    ensures AddEcho(Mono(s), 0.5, 2, Some(p)) == Mono([0.5, -0.5, 0.25, 0.25])
  {
    var y: Frames := [[0.5], [-0.5], [0.25], [0.25]];
    TimeSpreadTruncationFrames(s, p);
    forall k, c | 0 <= k < |y| && 0 <= c < 1
      ensures Abs(y[k][c]) <= 1.0
    {
      assert k == 0 || k == 1 || k == 2 || k == 3;
    }
    UnclippedEcho(Mono(s), 0.5, 2, Some(p), y);
    MonoFromFrames(AddEcho(Mono(s), 0.5, 2, Some(p)), y);
  }

  lemma TimeSpreadMonoFrames(s: seq<real>, p: seq<real>)
    requires s == [0.5, -0.5, 0.0, 0.0] && p == [1.0, -1.0]
    ensures EchoedFrames(ToFrames(Mono(s)), 1, 0.5, 1, Some(p)) == [[0.5], [-0.25], [0.25], [0.0]]
  {
    var x := ToFrames(Mono(s));
    var y := EchoedFrames(x, 1, 0.5, 1, Some(p));
    assert x == [[0.5], [-0.5], [0.0], [0.0]];
    assert |y[0]| == |y[1]| == |y[2]| == |y[3]| == 1;
    assert y[0] == [0.5] && y[1] == [-0.25] && y[2] == [0.25] && y[3] == [0.0];
  }

  /** Mono `[0.5, -0.5, 0, 0]`, pattern `[1, -1]`, alpha 0.5, delta 1 gives
      `[0.5, -0.25, 0.25, 0]`. */
  lemma TimeSpreadMonoExample(s: seq<real>, p: seq<real>)
    requires s == [0.5, -0.5, 0.0, 0.0] && p == [1.0, -1.0]
    ensures AddEcho(Mono(s), 0.5, 1, Some(p)) == Mono([0.5, -0.25, 0.25, 0.0])
  {
    var y: Frames := [[0.5], [-0.25], [0.25], [0.0]];
    TimeSpreadMonoFrames(s, p);
    forall k, c | 0 <= k < |y| && 0 <= c < 1
      ensures Abs(y[k][c]) <= 1.0
    {
      assert k == 0 || k == 1 || k == 2 || k == 3;
    }
    UnclippedEcho(Mono(s), 0.5, 1, Some(p), y);
    MonoFromFrames(AddEcho(Mono(s), 0.5, 1, Some(p)), y);
  }

  /** A mono signal is the single column of its buffer. */
  lemma MonoFromFrames(a: Audio, y: Frames)
    requires a.Mono? && ToFrames(a) == y
    ensures a.samples == Column(y, 0)
  {
  }

  /** A buffer whose entries are all within [-1, 1] has peak at most 1. */
  lemma PeakAtMostOne(f: Frames, width: nat)
    requires Rectangular(f, width)
    requires forall k, c :: 0 <= k < |f| && 0 <= c < width ==> Abs(f[k][c]) <= 1.0
    ensures Peak(f) <= 1.0
  {
    if exists k :: 0 <= k < |f| && |f[k]| > 0 {
      var k, c :| 0 <= k < |f| && 0 <= c < |f[k]| && Abs(f[k][c]) == Peak(f);
    }
  }
}
