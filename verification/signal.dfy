/**
 * Audio buffers as the echo embedder, the detector and the normaliser see them.
 *
 * numpy arrays of samples become immutable sequences of exact reals: a mono
 * signal is a 1-D sequence, a multi-channel signal a [samples, channels]
 * buffer whose row k holds every channel at instant k.
 */
module Signal {

  /** A [samples, channels] buffer: row k holds the value of every channel at instant k. */
  type Frames = seq<seq<real>>

  /** A 1-D (mono) array, or a 2-D array with an explicit channel count (so that an
      array with no samples still has a width). */
  datatype Audio = Mono(samples: seq<real>) | Multi(channels: nat, frames: Frames)

  /** Every row of `f` has `width` entries. */
  predicate Rectangular(f: Frames, width: nat)
  {
    forall k :: 0 <= k < |f| ==> |f[k]| == width
  }

  /** A 2-D audio array is rectangular with its declared channel count. */
  predicate WellShaped(a: Audio)
  {
    a.Multi? ==> Rectangular(a.frames, a.channels)
  }

  /** Length of the first axis (`len(a)` in numpy). */
  function NumSamples(a: Audio): nat
  {
    match a
    case Mono(s) => |s|
    case Multi(_, f) => |f|
  }

  /** Channel count once a mono signal is viewed as a single column. */
  function Channels(a: Audio): nat
  {
    match a
    case Mono(_) => 1
    case Multi(c, _) => c
  }

  /** The array holds at least one sample value: `np.max` of it does not raise. */
  predicate HasEntries(a: Audio)
  {
    NumSamples(a) > 0 && Channels(a) > 0
  }

  /** `x[:, None]` for a mono signal, the buffer itself otherwise. */
  function ToFrames(a: Audio): (f: Frames)
    requires WellShaped(a)
    ensures |f| == NumSamples(a)
    ensures Rectangular(f, Channels(a))
    ensures a.Mono? ==> forall k :: 0 <= k < |f| ==> f[k] == [a.samples[k]]
    ensures a.Multi? ==> f == a.frames
  {
    match a
    case Mono(s) => seq(|s|, k requires 0 <= k < |s| => [s[k]])
    case Multi(_, f) => f
  }

  /** Channel `c` of a buffer, as a 1-D signal. */
  function Column(f: Frames, c: nat): (s: seq<real>)
    requires forall k :: 0 <= k < |f| ==> c < |f[k]|
    ensures |s| == |f|
    ensures forall k :: 0 <= k < |f| ==> s[k] == f[k][c]
  {
    seq(|f|, k requires 0 <= k < |f| => f[k][c])
  }

  /** numpy's `squeeze()` on a [n, width] buffer with at least two rows: a buffer of
      one column drops its channel axis and becomes a mono signal. */
  function Squeeze(f: Frames, width: nat): (a: Audio)
    requires |f| >= 2 && Rectangular(f, width)
    ensures WellShaped(a)
    ensures NumSamples(a) == |f| && Channels(a) == width
    ensures ToFrames(a) == f
    ensures a.Mono? <==> width == 1
  {
    if width == 1 then
      var s := Column(f, 0);
      assert forall k :: 0 <= k < |f| ==> f[k] == [s[k]];
      Mono(s)
    else
      Multi(width, f)
  }

  /** Reshaping to a buffer and squeezing back gives the same array, except that a
      one-column 2-D array comes back 1-D. */
  lemma SqueezeToFrames(a: Audio)
    requires WellShaped(a) && NumSamples(a) >= 2
    ensures !(a.Multi? && a.channels == 1) ==> Squeeze(ToFrames(a), Channels(a)) == a
    ensures a.Multi? && a.channels == 1 ==> Squeeze(ToFrames(a), 1) == Mono(Column(a.frames, 0))
  {
    if a.Mono? {
      var m := Squeeze(ToFrames(a), 1);
      assert m.samples == a.samples;
    }
  }

  function Abs(x: real): real
  {
    if x < 0.0 then -x else x
  }

  function Max(a: real, b: real): real
  {
    if a >= b then a else b
  }

  /** The largest magnitude in a sequence (0 for the empty sequence). */
  function MaxAbs(s: seq<real>): (m: real)
    ensures 0.0 <= m
    ensures forall i :: 0 <= i < |s| ==> Abs(s[i]) <= m
    ensures |s| > 0 ==> exists i :: 0 <= i < |s| && Abs(s[i]) == m
    ensures |s| == 0 ==> m == 0.0
  {
    if |s| == 0 then 0.0
    else
      var m := MaxAbs(s[..|s| - 1]);
      var last := Abs(s[|s| - 1]);
      if last >= m then
        last
      else
        var i :| 0 <= i < |s| - 1 && Abs(s[..|s| - 1][i]) == m;
        assert Abs(s[i]) == m;
        m
  }

  /** `np.max(np.abs(f))`: the largest magnitude in a buffer (0 when it has no entries). */
  function Peak(f: Frames): (m: real)
    ensures 0.0 <= m
    ensures forall k, c :: 0 <= k < |f| && 0 <= c < |f[k]| ==> Abs(f[k][c]) <= m
    ensures (exists k :: 0 <= k < |f| && |f[k]| > 0) ==>
              exists k, c :: 0 <= k < |f| && 0 <= c < |f[k]| && Abs(f[k][c]) == m
    ensures (forall k :: 0 <= k < |f| ==> |f[k]| == 0) ==> m == 0.0
  {
    if |f| == 0 then 0.0
    else
      var init := f[..|f| - 1];
      var m := Peak(init);
      var row := f[|f| - 1];
      var last := MaxAbs(row);
      assert forall k :: 0 <= k < |init| ==> init[k] == f[k];
      if m >= last then
        if exists k :: 0 <= k < |init| && |init[k]| > 0 then
          var k, c :| 0 <= k < |init| && 0 <= c < |init[k]| && Abs(init[k][c]) == m;
          assert Abs(f[k][c]) == m;
          m
        else
          assert |row| > 0 ==> exists c :: 0 <= c < |row| && Abs(row[c]) == m;
          m
      else
        var c :| 0 <= c < |row| && Abs(row[c]) == last;
        assert Abs(f[|f| - 1][c]) == last;
        last
  }

  /** Every entry of `f` divided by `d`. */
  function DivFrames(f: Frames, d: real): (g: Frames)
    requires d != 0.0
    ensures |g| == |f|
    ensures forall k :: 0 <= k < |f| ==> |g[k]| == |f[k]|
    ensures forall k, c :: 0 <= k < |f| && 0 <= c < |f[k]| ==> g[k][c] == f[k][c] / d
  {
    seq(|f|, k requires 0 <= k < |f| => seq(|f[k]|, c requires 0 <= c < |f[k]| => f[k][c] / d))
  }
}
