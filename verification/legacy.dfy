/**
 * `add_echo_to_audio` in `pipelines/EchoMark/features.py`: the older echo routine,
 * written as explicit loops. Each sample from `delta` on gets `alpha` times the
 * sample `delta` earlier in the ORIGINAL signal added to it; on a 2-D buffer each
 * term is also multiplied by a per-sample 0/1 key when keys are generated. There is
 * no rescaling and no check of the arguments.
 *
 * The keys come from numpy's global random generator in the source; here they are a
 * parameter (`None` when `generate_keys` is false).
 */
module Legacy {
  import opened Wrappers
  import opened Signal
  import Embed

  datatype LegacyError =
    | IndexError      // a negative delay runs the loop past the end of the buffer
    | InvalidArgument // empty data or a delay that is not positive (checked variant only)

  /** Generated keys hold one 0 or 1 per sample (`np.random.randint(2)` per row). */
  predicate KeysOk(data: Audio, keys: Option<seq<int>>)
  {
    keys.Some? ==>
      |keys.value| == NumSamples(data) && forall i :: 0 <= i < |keys.value| ==> 0 <= keys.value[i] <= 1
  }

  /** The weight of the echo term at each of `n` samples of a 2-D buffer: `keys[i]`,
      or 1 without keys. */
  function KeyWeights(keys: Option<seq<int>>, n: nat): (w: seq<real>)
    requires keys.Some? ==> |keys.value| == n
    ensures |w| == n
  {
    seq(n, i requires 0 <= i < n => if keys.None? then 1.0 else keys.value[i] as real)
  }

  /** `out` is `s` with the mono loop's echo: `s[k]` before `delta`, and
      `s[k] + alpha * s[k - delta]` from `delta` on, reading the input and not the
      partly updated output. */
  predicate LoopSignal(s: seq<real>, out: seq<real>, alpha: real, delta: nat)
  {
    && |out| == |s|
    && (forall k :: 0 <= k < |s| && k < delta ==> out[k] == s[k])
    && (forall k :: delta <= k < |s| ==> out[k] == s[k] + alpha * s[k - delta])
  }

  /** `y` is `x` with the 2-D loops' echo: entry `k, c` is `x[k][c]` before `delta`
      and `x[k][c] + alpha * x[k - delta][c] * w[k]` from `delta` on. */
  predicate LoopFrames(x: Frames, y: Frames, width: nat, alpha: real, delta: nat, w: seq<real>)
    requires Rectangular(x, width) && |w| == |x|
  {
    && |y| == |x| && Rectangular(y, width)
    && (forall k, c {:trigger y[k][c]} :: 0 <= k < |x| && k < delta && 0 <= c < width ==>
          y[k][c] == x[k][c])
    && (forall k, c {:trigger y[k][c]} :: delta <= k < |x| && 0 <= c < width ==>
          y[k][c] == x[k][c] + alpha * x[k - delta][c] * w[k])
  }

  /** `out` is the loops' result on `data` for a non-negative delay: a mono signal
      takes the mono branch and ignores the keys, a 2-D buffer keeps its channel
      count and weighs each echo term by its sample's key. */
  predicate IsLoopEcho(data: Audio, alpha: real, delta: nat, keys: Option<seq<int>>, out: Audio)
    requires WellShaped(data) && KeysOk(data, keys)
  {
    match data
    case Mono(s) => out.Mono? && LoopSignal(s, out.samples, alpha, delta)
    case Multi(ch, f) =>
      out.Multi? && out.channels == ch && LoopFrames(f, out.frames, ch, alpha, delta, KeyWeights(keys, |f|))
  }

  /** The mono loop: for `i` in `range(delta, n)`, `out[i] += alpha * data[i - delta]`. */
  method EchoMono(s: seq<real>, alpha: real, delta: nat) returns (out: seq<real>)
    ensures LoopSignal(s, out, alpha, delta)
  {
    out := s;
    var i := delta;
    while i < |s|
      invariant delta <= i && (i <= |s| || i == delta)
      invariant |out| == |s|
      invariant forall k :: 0 <= k < |s| && !(delta <= k < i) ==> out[k] == s[k]
      invariant forall k :: delta <= k < i && k < |s| ==> out[k] == s[k] + alpha * s[k - delta]
    {
      out := out[i := out[i] + alpha * s[i - delta]];
      i := i + 1;
    }
  }

  /** The 2-D loops: for each channel, for each `i` in `range(delta, n)`,
      `out[i, channel] += alpha * data[i - delta, channel] * w[i]`. */
  method EchoFrames(f: Frames, width: nat, alpha: real, delta: nat, w: seq<real>) returns (out: Frames)
    requires Rectangular(f, width) && |w| == |f|
    ensures LoopFrames(f, out, width, alpha, delta, w)
  {
    out := f;
    var ch := 0;
    while ch < width
      invariant ch <= width
      invariant |out| == |f| && Rectangular(out, width)
      invariant forall k, c {:trigger out[k][c]} :: 0 <= k < |f| && 0 <= c < width && !(delta <= k && c < ch) ==>
                  out[k][c] == f[k][c]
      invariant forall k, c {:trigger out[k][c]} :: delta <= k < |f| && 0 <= c < ch ==>
                  out[k][c] == f[k][c] + alpha * f[k - delta][c] * w[k]
    {
      out := EchoChannel(f, out, width, alpha, delta, w, ch);
      ch := ch + 1;
    }
  }

  /** The inner loop for one channel: `for i in range(delta, n)`, reading the
      original `data` and accumulating into `out`; every other entry is left alone. */
  method EchoChannel(f: Frames, prev: Frames, width: nat, alpha: real, delta: nat, w: seq<real>, ch: nat)
    returns (out: Frames)
    requires Rectangular(f, width) && |w| == |f| && ch < width
    requires |prev| == |f| && Rectangular(prev, width)
    ensures |out| == |f| && Rectangular(out, width)
    ensures forall k, c {:trigger out[k][c]} :: 0 <= k < |f| && 0 <= c < width && !(delta <= k && c == ch) ==>
              out[k][c] == prev[k][c]
    ensures forall k {:trigger out[k][ch]} :: delta <= k < |f| ==>
              out[k][ch] == prev[k][ch] + alpha * f[k - delta][ch] * w[k]
  {
    out := prev;
    var i := delta;
    while i < |f|
      invariant delta <= i && (i <= |f| || i == delta)
      invariant |out| == |f| && Rectangular(out, width)
      invariant forall k, c {:trigger out[k][c]} ::
                  0 <= k < |f| && 0 <= c < width && !(delta <= k < i && c == ch) ==> out[k][c] == prev[k][c]
      invariant forall k {:trigger out[k][ch]} :: delta <= k < i ==>
                  out[k][ch] == prev[k][ch] + alpha * f[k - delta][ch] * w[k]
    {
      out := SetEntry(out, width, i, ch, out[i][ch] + alpha * f[i - delta][ch] * w[i]);
      i := i + 1;
    }
  }

  /** `f` with entry `i, c` replaced by `v`, as `out[i, c] = v` does in place. */
  function SetEntry(f: Frames, width: nat, i: nat, c: nat, v: real): (g: Frames)
    requires Rectangular(f, width) && i < |f| && c < width
    ensures |g| == |f| && Rectangular(g, width)
    ensures g[i][c] == v
    ensures forall k, c' {:trigger g[k][c']} :: 0 <= k < |f| && 0 <= c' < width && (k != i || c' != c) ==>
              g[k][c'] == f[k][c']
  {
    f[i := f[i][c := v]]
  }

  /** `add_echo_to_audio(data=data, alpha=alpha, delta=delta, ...)` with the generated
      keys supplied as `keys`. A negative delay raises as soon as a loop runs: some
      iteration indexes past the end of the buffer. */
  method AddEchoToAudio(data: Audio, alpha: real, delta: int, keys: Option<seq<int>>)
    returns (r: Result<Audio, LegacyError>)
    requires WellShaped(data) && KeysOk(data, keys)
    ensures r.Err? <==> delta < 0 && Channels(data) > 0
    ensures r.Err? ==> r.error == IndexError
    // with a negative delay and no channel the loops never run
    ensures delta < 0 && Channels(data) == 0 ==> r == Ok(data)
    ensures r.Ok? && delta >= 0 ==> IsLoopEcho(data, alpha, delta, keys, r.value)
  {
    if delta < 0 {
      if Channels(data) > 0 {
        return Err(IndexError);
      }
      return Ok(data);
    }
    match data
    case Mono(s) =>
      var out := EchoMono(s, alpha, delta);
      r := Ok(Mono(out));
    case Multi(width, f) =>
      var out := EchoFrames(f, width, alpha, delta, KeyWeights(keys, |f|));
      r := Ok(Multi(width, out));
  }

  // ---------------------------------------------------------------------------
  // Relation to `add_echo`

  /** Without keys and with `0 < delta < n`, the loops compute exactly `add_echo`'s
      simple-mode echo before its peak check. */
  lemma LoopEchoIsSimpleEcho(data: Audio, alpha: real, delta: nat, out: Audio)
    requires WellShaped(data) && 0 < delta < NumSamples(data)
    requires IsLoopEcho(data, alpha, delta, None, out)
    ensures WellShaped(out)
    ensures ToFrames(out) == Embed.SimpleEcho(ToFrames(data), Channels(data), alpha, delta)
  {
    match data
    case Mono(s) =>
      MonoLoopIsSimpleEcho(s, out.samples, alpha, delta);
    case Multi(ch, f) =>
      UnitWeightsAreSimpleEcho(f, out.frames, ch, alpha, delta, KeyWeights(None, |f|));
  }

  lemma MonoLoopIsSimpleEcho(s: seq<real>, out: seq<real>, alpha: real, delta: nat)
    requires 0 < delta < |s| && LoopSignal(s, out, alpha, delta)
    ensures ToFrames(Mono(out)) == Embed.SimpleEcho(ToFrames(Mono(s)), 1, alpha, delta)
  {
    var x := ToFrames(Mono(s));
    var y := ToFrames(Mono(out));
    var e := Embed.SimpleEcho(x, 1, alpha, delta);
    SimpleEchoRows(s, x, e, alpha, delta);
    SameRows(s, out, y, e, alpha, delta);
  }

  /** A one-column buffer holding the loop's output and one holding the echo's rows
      agree row by row. */
  lemma SameRows(s: seq<real>, out: seq<real>, y: Frames, e: Frames, alpha: real, delta: nat)
    requires LoopSignal(s, out, alpha, delta)
    requires |y| == |s| && forall k :: 0 <= k < |y| ==> y[k] == [out[k]]
    requires |e| == |s| && forall j :: 0 <= j < delta && j < |s| ==> e[j] == [s[j]]
    requires forall j :: delta <= j < |s| ==> e[j] == [s[j] + alpha * s[j - delta]]
    ensures y == e
  {
    forall k | 0 <= k < |y|
      ensures y[k] == e[k]
    {
      if k < delta {
        assert out[k] == s[k];
      } else {
        assert out[k] == s[k] + alpha * s[k - delta];
      }
    }
  }

  /** The rows of the simple echo of a single-column buffer, read off the signal. */
  lemma SimpleEchoRows(s: seq<real>, x: Frames, e: Frames, alpha: real, delta: nat)
    requires 0 < delta < |s| && x == ToFrames(Mono(s)) && e == Embed.SimpleEcho(x, 1, alpha, delta)
    ensures |e| == |s|
    ensures forall j :: 0 <= j < delta && j < |s| ==> e[j] == [s[j]]
    ensures forall j :: delta <= j < |s| ==> e[j] == [s[j] + alpha * s[j - delta]]
  {
    SimpleEchoColumn(x, e, alpha, delta);
    SingleColumnRows(s, x, e, alpha, delta);
  }

  /** The simple echo of a one-column buffer, entry by entry. */
  lemma SimpleEchoColumn(x: Frames, e: Frames, alpha: real, delta: nat)
    requires Rectangular(x, 1) && 0 < delta < |x| && e == Embed.SimpleEcho(x, 1, alpha, delta)
    ensures |e| == |x|
    ensures forall j :: 0 <= j < |x| ==>
              |e[j]| == 1 && e[j][0] == (if j < delta then x[j][0] else x[j][0] + alpha * x[j - delta][0])
  {
    forall j | 0 <= j < |x|
      ensures |e[j]| == 1 && e[j][0] == (if j < delta then x[j][0] else x[j][0] + alpha * x[j - delta][0])
    {
    }
  }

  /** The same, from the entries of the two buffers alone. */
  lemma SingleColumnRows(s: seq<real>, x: Frames, e: Frames, alpha: real, delta: nat)
    requires 0 < delta < |s|
    requires |x| == |s| && forall j :: 0 <= j < |s| ==> x[j] == [s[j]]
    requires |e| == |s| && forall j {:trigger e[j]} :: 0 <= j < |s| ==>
               |e[j]| == 1 && e[j][0] == (if j < delta then x[j][0] else x[j][0] + alpha * x[j - delta][0])
    ensures forall j :: 0 <= j < delta && j < |s| ==> e[j] == [s[j]]
    ensures forall j :: delta <= j < |s| ==> e[j] == [s[j] + alpha * s[j - delta]]
  {
    forall j | 0 <= j < |s|
      ensures e[j] == [if j < delta then s[j] else s[j] + alpha * s[j - delta]]
    {
      var v := if j < delta then s[j] else s[j] + alpha * s[j - delta];
      assert |e[j]| == 1 && e[j][0] == (if j < delta then x[j][0] else x[j][0] + alpha * x[j - delta][0]);
      assert x[j] == [s[j]];
      if delta <= j {
        assert x[j - delta] == [s[j - delta]];
      }
      assert e[j][0] == v;
      SingletonRow(e[j]);
    }
  }

  lemma SingletonRow(r: seq<real>)
    requires |r| == 1
    ensures r == [r[0]]
  {
  }

  lemma UnitWeightsAreSimpleEcho(x: Frames, y: Frames, width: nat, alpha: real, delta: nat, w: seq<real>)
    requires Rectangular(x, width) && 0 < delta < |x| && |w| == |x|
    requires forall k :: 0 <= k < |w| ==> w[k] == 1.0
    requires LoopFrames(x, y, width, alpha, delta, w)
    ensures y == Embed.SimpleEcho(x, width, alpha, delta)
  {
    var e := Embed.SimpleEcho(x, width, alpha, delta);
    forall k | 0 <= k < |y|
      ensures y[k] == e[k]
    {
      forall c | 0 <= c < width
        ensures y[k][c] == e[k][c]
      {
        if k < delta {
          assert y[k][c] == x[k][c];
        } else {
          assert y[k][c] == x[k][c] + alpha * x[k - delta][c] * w[k];
        }
      }
    }
  }

  /** `add_echo` in simple mode is the loop's result, rescaled by its peak when the
      peak exceeds 1, and squeezed. */
  lemma AddEchoIsRescaledLoop(data: Audio, alpha: real, delta: nat, out: Audio)
    requires WellShaped(data) && 0 < delta < NumSamples(data) && Channels(data) >= 1 && alpha != 0.0
    requires IsLoopEcho(data, alpha, delta, None, out)
    ensures Embed.AddEcho(data, alpha, delta, None)
              == Squeeze(Embed.Rescale(ToFrames(out), Channels(data)), Channels(data))
  {
    LoopEchoIsSimpleEcho(data, alpha, delta, out);
  }

  // ---------------------------------------------------------------------------
  // Properties of the loops

  /** With `delta == 0` every sample gets `alpha` times itself (times its key on a
      2-D buffer): without keys the output is `(1 + alpha)` times the input. */
  lemma ZeroDelayScales(data: Audio, alpha: real, out: Audio)
    requires WellShaped(data) && IsLoopEcho(data, alpha, 0, None, out)
    ensures data.Mono? ==> forall k :: 0 <= k < |data.samples| ==> out.samples[k] == (1.0 + alpha) * data.samples[k]
    ensures data.Multi? ==> forall k, c :: 0 <= k < |data.frames| && 0 <= c < data.channels ==>
              out.frames[k][c] == (1.0 + alpha) * data.frames[k][c]
  {
    match data
    case Mono(s) =>
      forall k | 0 <= k < |s|
        ensures out.samples[k] == (1.0 + alpha) * s[k]
      {
        assert out.samples[k] == s[k] + alpha * s[k - 0];
      }
    case Multi(ch, f) =>
      var w := KeyWeights(None, |f|);
      forall k, c | 0 <= k < |f| && 0 <= c < ch
        ensures out.frames[k][c] == (1.0 + alpha) * f[k][c]
      {
        assert w[k] == 1.0;
        assert out.frames[k][c] == f[k][c] + alpha * f[k - 0][c] * w[k];
      }
  }

  /** A delay at or past the end leaves every sample as it was. */
  lemma LongDelayIsIdentity(data: Audio, alpha: real, delta: nat, keys: Option<seq<int>>, out: Audio)
    requires WellShaped(data) && KeysOk(data, keys) && delta >= NumSamples(data)
    requires IsLoopEcho(data, alpha, delta, keys, out)
    ensures out == data
  {
    match data
    case Mono(s) =>
      assert out.samples == s;
    case Multi(ch, f) =>
      FramesUnchanged(f, out.frames, ch, alpha, delta, KeyWeights(keys, |f|));
  }

  /** Keys that are all 0 switch the echo off on a 2-D buffer. */
  lemma ZeroKeysAreIdentity(data: Audio, alpha: real, delta: nat, keys: seq<int>, out: Audio)
    requires WellShaped(data) && data.Multi? && KeysOk(data, Some(keys))
    requires forall i :: 0 <= i < |keys| ==> keys[i] == 0
    requires IsLoopEcho(data, alpha, delta, Some(keys), out)
    ensures out == data
  {
    FramesUnchanged(data.frames, out.frames, data.channels, alpha, delta, KeyWeights(Some(keys), |data.frames|));
  }

  /** The 2-D loops change nothing when no echo term survives: the delay is past the
      end or every weight from `delta` on is 0. */
  lemma FramesUnchanged(x: Frames, y: Frames, width: nat, alpha: real, delta: nat, w: seq<real>)
    requires Rectangular(x, width) && |w| == |x| && LoopFrames(x, y, width, alpha, delta, w)
    requires forall k :: delta <= k < |w| ==> w[k] == 0.0
    ensures y == x
  {
    forall k | 0 <= k < |y|
      ensures y[k] == x[k]
    {
      forall c | 0 <= c < width
        ensures y[k][c] == x[k][c]
      {
        if k >= delta {
          assert y[k][c] == x[k][c] + alpha * x[k - delta][c] * w[k];
        }
      }
    }
  }

  /** The docstring's example: a unit impulse at sample 0 of a 1000-sample mono
      signal, echoed with `alpha = 0.4` and `delta = 100`, has 0.4 at sample 100 and
      0 everywhere else but sample 0. */
  lemma ImpulseExample(s: seq<real>, out: Audio)
    requires |s| == 1000 && s[0] == 1.0 && forall i :: 0 < i < |s| ==> s[i] == 0.0
    requires IsLoopEcho(Mono(s), 0.4, 100, None, out)
    ensures out.samples[0] == 1.0 && out.samples[100] == 0.4
    ensures forall k :: 0 <= k < 1000 && k != 0 && k != 100 ==> out.samples[k] == 0.0
  {
    assert out.samples[100] == s[100] + 0.4 * s[100 - 100];
    forall k | 0 <= k < 1000 && k != 0 && k != 100
      ensures out.samples[k] == 0.0
    {
      if k >= 100 {
        assert out.samples[k] == s[k] + 0.4 * s[k - 100];
      }
    }
  }

  // ---------------------------------------------------------------------------
  // The argument check the docstring promises

  /** The docstring promises a ValueError for empty data or a delay that is not
      positive, which the loops never raise: a zero delay scales the signal and a
      negative one fails with IndexError. This variant performs that check first. */
  method AddEchoToAudioChecked(data: Audio, alpha: real, delta: int, keys: Option<seq<int>>)
    returns (r: Result<Audio, LegacyError>)
    requires WellShaped(data) && KeysOk(data, keys)
    ensures r.Err? <==> NumSamples(data) == 0 || delta <= 0
    ensures r.Err? ==> r.error == InvalidArgument
    ensures r.Ok? ==> delta > 0 && IsLoopEcho(data, alpha, delta, keys, r.value)
  {
    if NumSamples(data) == 0 || delta <= 0 {
      return Err(InvalidArgument);
    }
    r := AddEchoToAudio(data, alpha, delta, keys);
  }

  /** As written, a zero delay is accepted and changes the signal: a unit sample
      comes back as `1 + alpha`. */
  lemma ZeroDelayAccepted(s: seq<real>, out: Audio)
    requires s == [1.0, 0.0]
    requires IsLoopEcho(Mono(s), 0.5, 0, None, out)
    ensures out.samples[0] == 1.5
  {
    assert out.samples[0] == s[0] + 0.5 * s[0 - 0];
  }
}
