/**
 * The decision logic of `detect_watermark` in `src/logic/detect.py`.
 *
 * The cepstrum of the audio is an input here (the FFT and logarithm are not
 * modelled). Simple mode looks for the largest cepstrum value in a search
 * window; time-spread mode correlates the cepstrum with the token's tap
 * pattern and also compares the peak with its neighbourhood. Programmer
 * errors raise; an empty analysis window is reported inside the result.
 */
module Detect {
  import opened Wrappers
  import opened Signal
  import Codec

  /** Half-width of the neighbourhood the time-spread peak is compared with. */
  const LocalWindow: nat := 50

  /** Added to the mean magnitude before the SNR division. */
  const SnrEpsilon: real := 0.000000000001

  const EmptySegmentMessage: string := "Cepstrum segment is empty."
  const EmptyCorrelationMessage: string := "Correlation signal is empty."

  /** The tunable arguments of `detect_watermark`. */
  datatype Config = Config(searchStart: int, searchEnd: int, sigmaFactor: real, snrThreshold: real, localRatio: real)

  /** `search_range=(20, 500)`, `sigma_factor=4.0`, `snr_threshold=5.0`, `local_ratio=2.0`. */
  const DefaultConfig: Config := Config(20, 500, 4.0, 5.0, 2.0)

  /** The numeric fields every non-error result carries, whatever the decision. */
  datatype PeakStats = PeakStats(peakIndex: int, peakTime: real, peakValue: real, threshold: real, snrRatio: real)

  /** The result dictionary: `method` and `detected` always; `error` for an empty
      window; the peak statistics otherwise; `local_max` and `correlation_signal` in
      time-spread mode. */
  datatype Detection = Detection(
    mode: string,
    detected: bool,
    error: Option<string>,
    stats: Option<PeakStats>,
    localMax: Option<real>,
    correlation: Option<seq<real>>)

  /** The exceptions `detect_watermark` lets escape. */
  datatype DetectError =
    | NotMono              // audio.ndim != 1
    | EmptyAudio           // the FFT of an empty signal raises
    | MissingToken         // time-spread without expected_watermark_hex
    | BadToken             // bytes.fromhex rejects the token
    | EmptyPattern         // np.correlate rejects an empty pattern
    | PeakIndexOutOfRange  // cepstrum[peak_idx] raises IndexError
    | UnknownMethod        // neither "simple" nor "time-spread"

  /** `{"method": method, "detected": False}`. */
  function Initial(mode: string): Detection
  {
    Detection(mode, false, None, None, None, None)
  }

  // ---------------------------------------------------------------------------
  // Python indexing and slicing

  /** Where a Python slice bound lands in a sequence of length `len`: negative bounds
      count from the end, and both ends are clamped to [0, len]. */
  function SliceBound(i: int, len: nat): (b: nat)
    ensures b <= len
    ensures 0 <= i <= len ==> b == i
    ensures -(len as int) <= i < 0 ==> b == (len as int) + i
    ensures len < i ==> b == len
    ensures i < -(len as int) ==> b == 0
  {
    if i < 0 then (if i + len < 0 then 0 else i + len)
    else if i > len then len
    else i
  }

  /** `s[start:end]`. */
  function PySlice(s: seq<real>, start: int, end: int): (r: seq<real>)
    ensures |r| == if SliceBound(start, |s|) < SliceBound(end, |s|)
                   then SliceBound(end, |s|) - SliceBound(start, |s|) else 0
    ensures forall i :: 0 <= i < |r| ==> r[i] == s[SliceBound(start, |s|) + i]
  {
    var lo := SliceBound(start, |s|);
    var hi := SliceBound(end, |s|);
    if lo < hi then s[lo..hi] else []
  }

  /** For bounds inside the sequence a slice is the ordinary subsequence; a window
      starting at or past the end (or past `end`) is empty. */
  lemma PySliceInRange(s: seq<real>, start: int, end: int)
    requires 0 <= start
    ensures start <= end <= |s| ==> PySlice(s, start, end) == s[start..end]
    ensures start >= |s| || 0 <= end <= start ==> PySlice(s, start, end) == []
  {
  }

  /** `s[i]`: negative indices count from the end; anything else raises IndexError. */
  function PyIndex(s: seq<real>, i: int): (r: Option<real>)
    ensures r.Some? <==> -|s| <= i < |s|
    ensures 0 <= i < |s| ==> r == Some(s[i])
    ensures -|s| <= i < 0 ==> r == Some(s[|s| + i])
  {
    if 0 <= i < |s| then Some(s[i])
    else if -|s| <= i < 0 then Some(s[|s| + i])
    else None
  }

  // ---------------------------------------------------------------------------
  // Statistics

  /** Position `i` holds the largest value of `s`, and no earlier position holds it. */
  predicate FirstMaxAt(s: seq<real>, i: int)
  {
    && 0 <= i < |s|
    && (forall j :: 0 <= j < |s| ==> s[j] <= s[i])
    && (forall j :: 0 <= j < i ==> s[j] < s[i])
  }

  /** `np.argmax`: the position of the largest value, the first one on ties. */
  function ArgMax(s: seq<real>): (i: nat)
    requires |s| > 0
    ensures i < |s|
    ensures forall j :: 0 <= j < |s| ==> s[j] <= s[i]
    ensures forall j :: 0 <= j < i ==> s[j] < s[i]
    ensures FirstMaxAt(s, i)
  {
    if |s| == 1 then 0
    else
      var k := ArgMax(s[..|s| - 1]);
      if s[|s| - 1] > s[k] then |s| - 1 else k
  }

  /** `np.max` of a non-empty sequence. */
  function MaxOf(s: seq<real>): (m: real)
    requires |s| > 0
    ensures forall j :: 0 <= j < |s| ==> s[j] <= m
    ensures exists j :: 0 <= j < |s| && s[j] == m
  {
    s[ArgMax(s)]
  }

  function Sum(s: seq<real>): real
  {
    if |s| == 0 then 0.0 else Sum(s[..|s| - 1]) + s[|s| - 1]
  }

  /** `np.mean`. */
  function Mean(s: seq<real>): real
    requires |s| > 0
  {
    Sum(s) / |s| as real
  }

  function Magnitudes(s: seq<real>): (a: seq<real>)
    ensures |a| == |s|
    ensures forall i :: 0 <= i < |s| ==> a[i] == Abs(s[i])
  {
    seq(|s|, i requires 0 <= i < |s| => Abs(s[i]))
  }

  function SquaredDeviations(s: seq<real>, mu: real): (d: seq<real>)
    ensures |d| == |s|
    ensures forall i :: 0 <= i < |s| ==> d[i] == (s[i] - mu) * (s[i] - mu)
  {
    seq(|s|, i requires 0 <= i < |s| => (s[i] - mu) * (s[i] - mu))
  }

  lemma {:induction false} SumNonNegative(s: seq<real>)
    requires forall i :: 0 <= i < |s| ==> 0.0 <= s[i]
    ensures 0.0 <= Sum(s)
  {
    if |s| > 0 {
      SumNonNegative(s[..|s| - 1]);
    }
  }

  lemma SquareNonNegative(x: real)
    ensures 0.0 <= x * x
  {
  }

  /** `np.mean(np.abs(s))`, never negative. */
  function MeanMagnitude(s: seq<real>): (m: real)
    requires |s| > 0
    ensures 0.0 <= m
  {
    SumNonNegative(Magnitudes(s));
    Mean(Magnitudes(s))
  }

  /** The population variance `np.var` (divisor n), never negative. */
  function PopVariance(s: seq<real>): (v: real)
    requires |s| > 0
    ensures 0.0 <= v
  {
    var d := SquaredDeviations(s, Mean(s));
    assert forall i :: 0 <= i < |d| ==> 0.0 <= d[i] by {
      forall i | 0 <= i < |d|
        ensures 0.0 <= d[i]
      {
        SquareNonNegative(s[i] - Mean(s));
      }
    }
    SumNonNegative(d);
    Mean(d)
  }

  /** `sqrt` is a square root on the non-negative reals. `np.std` is the square root of
      the population variance; the detector takes the root as a parameter. */
  ghost predicate IsSqrt(sqrt: real -> real)
  {
    forall v :: 0.0 <= v ==> 0.0 <= sqrt(v) && sqrt(v) * sqrt(v) == v
  }

  /** `mu + sigma_factor * sigma` over the analysed values. */
  function Threshold(values: seq<real>, cfg: Config, sqrt: real -> real): real
    requires |values| > 0
  {
    Mean(values) + cfg.sigmaFactor * sqrt(PopVariance(values))
  }

  /** With a true square root and a non-negative sigma factor the threshold is never
      below the mean. */
  lemma ThresholdAtLeastMean(values: seq<real>, cfg: Config, sqrt: real -> real)
    requires |values| > 0
    ensures IsSqrt(sqrt) && 0.0 <= cfg.sigmaFactor ==> Mean(values) <= Threshold(values, cfg, sqrt)
  {
    if IsSqrt(sqrt) && 0.0 <= cfg.sigmaFactor {
      var sigma := sqrt(PopVariance(values));
      assert 0.0 <= sigma;
      ProductNonNegative(cfg.sigmaFactor, sigma);
    }
  }

  /** Over a flat sequence, with a square root mapping 0 to 0 (as `np.sqrt` does), the
      threshold is the common value, whatever the sigma factor. */
  lemma FlatThreshold(values: seq<real>, cfg: Config, sqrt: real -> real)
    requires |values| > 0
    ensures sqrt(0.0) == 0.0 && (forall i :: 0 <= i < |values| ==> values[i] == values[0]) ==>
              Threshold(values, cfg, sqrt) == values[0]
  {
    if sqrt(0.0) == 0.0 && (forall i :: 0 <= i < |values| ==> values[i] == values[0]) {
      FlatStatistics(values, values[0]);
      assert Threshold(values, cfg, sqrt) == values[0] + cfg.sigmaFactor * 0.0;
    }
  }

  /** A quotient by a positive divisor has the sign of its dividend. */
  lemma QuotientSign(a: real, d: real)
    requires 0.0 < d
    ensures 0.0 < a / d <==> 0.0 < a
    ensures a / d == 0.0 <==> a == 0.0
  {
    assert (a / d) * d == a;
    if a / d <= 0.0 {
      ProductNonPositive(a / d, d);
    } else {
      ProductPositive(a / d, d);
    }
  }

  lemma ProductNonPositive(a: real, b: real)
    requires a <= 0.0 && 0.0 < b
    ensures a * b <= 0.0
  {
  }

  lemma ProductPositive(a: real, b: real)
    requires 0.0 < a && 0.0 < b
    ensures 0.0 < a * b
  {
  }

  /** `st` holds the statistics the source computes for a peak over `values`:
      `peak_time_s = peak_idx / rate`, `threshold = mu + sigma_factor * sigma` and
      `snr_ratio = peak_val / (mean|values| + 1e-12)`. */
  predicate Describes(st: PeakStats, values: seq<real>, rate: int, cfg: Config, sqrt: real -> real)
    requires |values| > 0 && rate > 0
  {
    && st.peakTime == st.peakIndex as real / rate as real
    && st.threshold == Threshold(values, cfg, sqrt)
    && st.snrRatio == st.peakValue / (MeanMagnitude(values) + SnrEpsilon)
  }

  /** Threshold and SNR over the analysed values (`segment` or `corr`). The threshold is
      at least the mean for a true square root and a non-negative sigma factor, and is
      the common value over a flat sequence; the SNR has the sign of the peak value,
      since its divisor is positive. */
  function PeakStatistics(values: seq<real>, peakIdx: int, peakVal: real, rate: int, cfg: Config, sqrt: real -> real): (st: PeakStats)
    requires |values| > 0 && rate > 0
    ensures st.peakIndex == peakIdx && st.peakValue == peakVal
    ensures Describes(st, values, rate, cfg, sqrt)
    ensures IsSqrt(sqrt) && 0.0 <= cfg.sigmaFactor ==> Mean(values) <= st.threshold
    ensures sqrt(0.0) == 0.0 && (forall i :: 0 <= i < |values| ==> values[i] == values[0]) ==>
              st.threshold == values[0]
    ensures 0.0 < st.snrRatio <==> 0.0 < peakVal
    ensures st.snrRatio == 0.0 <==> peakVal == 0.0
  {
    ThresholdAtLeastMean(values, cfg, sqrt);
    FlatThreshold(values, cfg, sqrt);
    QuotientSign(peakVal, MeanMagnitude(values) + SnrEpsilon);
    PeakStats(
      peakIdx,
      peakIdx as real / rate as real,
      peakVal,
      Threshold(values, cfg, sqrt),
      peakVal / (MeanMagnitude(values) + SnrEpsilon))
  }

  /** The threshold and SNR tests shared by both modes. */
  predicate GlobalTest(st: PeakStats, cfg: Config)
  {
    st.peakValue > st.threshold && st.snrRatio > cfg.snrThreshold
  }

  // ---------------------------------------------------------------------------
  // Correlation

  /** The overlap of `v` with `a` at offset `k`: the sum over `j < n` of
      `a[k + j] * v[j]`. */
  function Overlap(a: seq<real>, k: nat, v: seq<real>, n: nat): real
    requires k + n <= |a| && n <= |v|
  {
    if n == 0 then 0.0 else Overlap(a, k, v, n - 1) + a[k + n - 1] * v[n - 1]
  }

  /** `np.correlate(a, v, mode="valid")` for a pattern no longer than the signal: one
      value per full overlap, `c[k]` being the sum over `j` of `a[k + j] * v[j]`. */
  function Correlate(a: seq<real>, v: seq<real>): (c: seq<real>)
    requires 0 < |v| <= |a|
    ensures |c| == |a| - |v| + 1
    ensures forall k :: 0 <= k < |c| ==> c[k] == Overlap(a, k, v, |v|)
    decreases |a|
  {
    var first := Overlap(a, 0, v, |v|);
    if |a| == |v| then [first]
    else
      var rest := Correlate(a[1..], v);
      ShiftedWindows(a, v, rest);
      [first] + rest
  }

  /** The correlations over `a[1..]` are those over `a`, one position on. */
  lemma ShiftedWindows(a: seq<real>, v: seq<real>, rest: seq<real>)
    requires 0 < |v| < |a| && |rest| == |a| - |v|
    requires forall k :: 0 <= k < |rest| ==> rest[k] == Overlap(a[1..], k, v, |v|)
    ensures forall k :: 0 <= k < |rest| ==> rest[k] == Overlap(a, k + 1, v, |v|)
  {
    forall k | 0 <= k < |rest|
      ensures rest[k] == Overlap(a, k + 1, v, |v|)
    {
      ShiftedOverlap(a, k, v, |v|);
    }
  }

  /** An overlap with `a[1..]` at offset `k` is the overlap with `a` at `k + 1`. */
  lemma {:induction false} ShiftedOverlap(a: seq<real>, k: nat, v: seq<real>, n: nat)
    requires k + 1 + n <= |a| && n <= |v|
    ensures Overlap(a[1..], k, v, n) == Overlap(a, k + 1, v, n)
  {
    if n > 0 {
      ShiftedOverlap(a, k, v, n - 1);
    }
  }

  // ---------------------------------------------------------------------------
  // Local competitiveness

  /** `max(0, peak - win)`. */
  function LocalLow(peak: nat): nat
  {
    if peak >= LocalWindow then peak - LocalWindow else 0
  }

  /** `min(len(corr), peak + win)`: the right window stops short of `peak + win`. */
  function LocalHigh(peak: nat, len: nat): nat
  {
    if peak + LocalWindow <= len then peak + LocalWindow else len
  }

  /** One side of the window around the peak holds no value: `corr[left:peak]` when the
      peak is at `left`, `corr[peak + 1:right]` when the peak is at `right - 1`. */
  predicate SideEmpty(peak: nat, len: nat)
  {
    peak == LocalLow(peak) || peak + 1 >= LocalHigh(peak, len)
  }

  /** `m` is the largest of the neighbourhood values (the peak excluded) and, when a
      side of the window is empty, of the 0 that side contributes. */
  predicate IsLocalMax(corr: seq<real>, peak: nat, m: real)
    requires peak < |corr|
  {
    && (forall j :: LocalLow(peak) <= j < LocalHigh(peak, |corr|) && j != peak ==> corr[j] <= m)
    && (SideEmpty(peak, |corr|) ==> 0.0 <= m)
    && ((exists j :: LocalLow(peak) <= j < LocalHigh(peak, |corr|) && j != peak && corr[j] == m)
        || (SideEmpty(peak, |corr|) && m == 0.0))
  }

  /** The largest correlation value near the peak, the peak itself excluded: each side
      of the window contributes its maximum, or 0 when it is empty. */
  function LocalMax(corr: seq<real>, peak: nat): (m: real)
    requires peak < |corr|
    ensures forall j :: LocalLow(peak) <= j < LocalHigh(peak, |corr|) && j != peak ==> corr[j] <= m
    ensures SideEmpty(peak, |corr|) ==> 0.0 <= m
    ensures !SideEmpty(peak, |corr|) ==>
              exists j :: LocalLow(peak) <= j < LocalHigh(peak, |corr|) && j != peak && corr[j] == m
    ensures IsLocalMax(corr, peak, m)
  {
    var left := LocalLow(peak);
    var right := LocalHigh(peak, |corr|);
    var leftMax := SideMax(corr, left, peak);
    var rightMax := SideMax(corr, peak + 1, right);
    Max(leftMax, rightMax)
  }

  /** `np.max(corr[lo:hi])` for a non-empty side of the window, 0 for an empty one. */
  function SideMax(corr: seq<real>, lo: nat, hi: nat): (m: real)
    requires hi <= |corr|
    ensures forall j :: lo <= j < hi ==> corr[j] <= m
    ensures lo < hi ==> exists j :: lo <= j < hi && corr[j] == m
    ensures lo >= hi ==> m == 0.0
  {
    if lo < hi then
      var side := corr[lo..hi];
      assert forall j :: lo <= j < hi ==> corr[j] == side[j - lo];
      MaxOf(side)
    else 0.0
  }

  /** The characterisation pins the value: a value is the largest of the neighbourhood
      and the empty sides' zeros exactly when it is `LocalMax`. */
  lemma LocalMaxUnique(corr: seq<real>, peak: nat, m: real)
    requires peak < |corr|
    ensures IsLocalMax(corr, peak, m) <==> m == LocalMax(corr, peak)
  {
    var lm := LocalMax(corr, peak);
    if IsLocalMax(corr, peak, m) {
      AtMostOther(corr, peak, m, lm);
      AtMostOther(corr, peak, lm, m);
    }
  }

  /** Of two values that both satisfy the characterisation, the first is at most the
      second: it is either a neighbour value, bounded by the second, or an empty
      side's 0, which the second is at least. */
  lemma AtMostOther(corr: seq<real>, peak: nat, m: real, n: real)
    requires peak < |corr| && IsLocalMax(corr, peak, m) && IsLocalMax(corr, peak, n)
    ensures m <= n
  {
    if exists j :: LocalLow(peak) <= j < LocalHigh(peak, |corr|) && j != peak && corr[j] == m {
      var j :| LocalLow(peak) <= j < LocalHigh(peak, |corr|) && j != peak && corr[j] == m;
      assert corr[j] <= n;
    }
  }

  /** When the peak is the global maximum no neighbour beats it: the local maximum is
      at most the peak value, or 0 when the peak is negative. */
  lemma LocalMaxBelowPeak(corr: seq<real>, peak: nat)
    requires peak < |corr|
    requires forall j :: 0 <= j < |corr| ==> corr[j] <= corr[peak]
    ensures LocalMax(corr, peak) <= Max(corr[peak], 0.0)
  {
  }

  // ---------------------------------------------------------------------------
  // The two modes

  /** Simple mode over `cepstrum[start:end]`. */
  function DetectSimple(cep: seq<real>, rate: int, cfg: Config, sqrt: real -> real): (r: Result<Detection, DetectError>)
    requires rate > 0
    // an empty search window is reported, not raised
    ensures |PySlice(cep, cfg.searchStart, cfg.searchEnd)| == 0 ==>
              r == Ok(Detection("simple", false, Some(EmptySegmentMessage), None, None, None))
    // a non-negative window start never raises
    ensures 0 <= cfg.searchStart ==> r.Ok?
    ensures r.Ok? ==> r.value.mode == "simple" && r.value.localMax.None? && r.value.correlation.None?
    ensures r.Ok? ==> (r.value.error.None? <==> r.value.stats.Some?)
    ensures r.Ok? ==> (r.value.stats.Some? <==> |PySlice(cep, cfg.searchStart, cfg.searchEnd)| > 0)
    ensures r.Ok? && r.value.stats.Some? ==>
              var seg := PySlice(cep, cfg.searchStart, cfg.searchEnd);
              var st := r.value.stats.value;
              && |seg| > 0
              && Describes(st, seg, rate, cfg, sqrt)
              && PyIndex(cep, st.peakIndex) == Some(st.peakValue)
              // `peak_idx - start` is the first maximum of the segment, whatever the sign
              // of `start`; a negative `peak_idx` is then read from the back of the cepstrum
              && FirstMaxAt(seg, st.peakIndex - cfg.searchStart)
              && (r.value.detected <==> st.peakValue > st.threshold && st.snrRatio > cfg.snrThreshold)
  {
    var segment := PySlice(cep, cfg.searchStart, cfg.searchEnd);
    if |segment| == 0 then
      Ok(Initial("simple").(error := Some(EmptySegmentMessage)))
    else
      var peakIdx := ArgMax(segment) + cfg.searchStart;
      match PyIndex(cep, peakIdx)
      case None => Err(PeakIndexOutOfRange)
      case Some(peakVal) =>
        var st := PeakStatistics(segment, peakIdx, peakVal, rate, cfg, sqrt);
        Ok(Initial("simple").(stats := Some(st), detected := GlobalTest(st, cfg)))
  }

  /** With a non-negative window start the simple-mode peak lies in the window the
      slice selects (`[start, end)` cut to the cepstrum, `end` counted from the back
      when negative), is the first position holding the window's largest
      value, and `peak_value` is the cepstrum at that position. */
  lemma SimplePeakLocation(cep: seq<real>, rate: int, cfg: Config, sqrt: real -> real)
    requires rate > 0 && 0 <= cfg.searchStart
    requires |PySlice(cep, cfg.searchStart, cfg.searchEnd)| > 0
    ensures DetectSimple(cep, rate, cfg, sqrt).Ok?
    ensures var st := DetectSimple(cep, rate, cfg, sqrt).value.stats.value;
            && cfg.searchStart <= st.peakIndex < SliceBound(cfg.searchEnd, |cep|)
            && st.peakValue == cep[st.peakIndex]
            && (forall j :: cfg.searchStart <= j < SliceBound(cfg.searchEnd, |cep|) ==> cep[j] <= st.peakValue)
            && (forall j :: cfg.searchStart <= j < st.peakIndex ==> cep[j] < st.peakValue)
  {
    var seg := PySlice(cep, cfg.searchStart, cfg.searchEnd);
    var r := DetectSimple(cep, rate, cfg, sqrt);
    assert r.Ok? && r.value.stats.Some?;
    var st := r.value.stats.value;
    assert SliceBound(cfg.searchStart, |cep|) == cfg.searchStart;
    WindowPeak(cep, seg, cfg.searchStart, SliceBound(cfg.searchEnd, |cep|), st.peakIndex, st.peakValue);
  }

  /** A first maximum of the segment `cep[start..hi]`, found at `idx - start` and read
      back from the cepstrum at `idx`, is the first maximum of that part of `cep`. */
  lemma WindowPeak(cep: seq<real>, seg: seq<real>, start: int, hi: nat, idx: int, v: real)
    requires 0 <= start && start + |seg| == hi <= |cep|
    requires forall i :: 0 <= i < |seg| ==> seg[i] == cep[start + i]
    requires FirstMaxAt(seg, idx - start) && PyIndex(cep, idx) == Some(v)
    ensures start <= idx < hi && v == cep[idx]
    ensures forall j :: start <= j < hi ==> cep[j] <= v
    ensures forall j :: start <= j < idx ==> cep[j] < v
  {
    assert seg[idx - start] == cep[idx];
    forall j | start <= j < hi
      ensures cep[j] <= v
    {
      assert seg[j - start] == cep[j];
    }
    forall j | start <= j < idx
      ensures cep[j] < v
    {
      assert seg[j - start] == cep[j];
    }
  }

  /** Whether the token decodes to a pattern that fits in the cepstrum: `np.correlate`
      is modelled only for patterns no longer than the signal. */
  predicate PatternFits(token: string, len: nat)
  {
    Codec.FromHex(token).Ok? ==> 8 * |Codec.FromHex(token).value| <= len
  }

  /** What the source reports about the correlation `corr`: the peak is the first
      position of its largest value, the statistics describe `corr`, the local maximum
      is taken around that position and never beats the peak (or 0), and detection is the conjunction of the threshold,
      SNR and local-competitiveness tests. */
  predicate ReportsCorrelationPeak(st: PeakStats, lm: real, detected: bool, corr: seq<real>,
                                   rate: int, cfg: Config, sqrt: real -> real)
    requires |corr| > 0 && rate > 0
  {
    && 0 <= st.peakIndex < |corr|
    && st.peakValue == corr[st.peakIndex]
    && (forall j :: 0 <= j < |corr| ==> corr[j] <= st.peakValue)
    && (forall j :: 0 <= j < st.peakIndex ==> corr[j] < st.peakValue)
    && Describes(st, corr, rate, cfg, sqrt)
    && lm == LocalMax(corr, st.peakIndex)
    && lm <= Max(st.peakValue, 0.0)
    && (detected <==>
          st.peakValue > st.threshold && st.snrRatio > cfg.snrThreshold
          && st.peakValue > cfg.localRatio * lm)
  }

  /** The analysis of a non-empty correlation signal. */
  function AnalyseCorrelation(corr: seq<real>, rate: int, cfg: Config, sqrt: real -> real): (d: Detection)
    requires |corr| > 0 && rate > 0
    ensures d.mode == "time-spread" && d.error.None? && d.correlation == Some(corr)
    ensures d.stats.Some? && d.localMax.Some?
    ensures ReportsCorrelationPeak(d.stats.value, d.localMax.value, d.detected, corr, rate, cfg, sqrt)
  {
    var peakIdx := ArgMax(corr);
    var peakVal := corr[peakIdx];
    var st := PeakStatistics(corr, peakIdx, peakVal, rate, cfg, sqrt);
    var lm := LocalMax(corr, peakIdx);
    LocalMaxBelowPeak(corr, peakIdx);
    var d := Initial("time-spread").(
      stats := Some(st),
      localMax := Some(lm),
      detected := GlobalTest(st, cfg) && peakVal > cfg.localRatio * lm,
      correlation := Some(corr));
    assert ReportsCorrelationPeak(st, lm, d.detected, corr, rate, cfg, sqrt);
    d
  }

  /** Time-spread mode: correlate the cepstrum with the token's taps. */
  function DetectTimeSpread(cep: seq<real>, rate: int, token: string, cfg: Config, sqrt: real -> real): (r: Result<Detection, DetectError>)
    requires rate > 0 && PatternFits(token, |cep|)
    ensures r.Err? <==> Codec.FromHex(token).Err? || |Codec.FromHex(token).value| == 0
    ensures Codec.FromHex(token).Err? ==> r == Err(BadToken)
    ensures Codec.FromHex(token).Ok? && |Codec.FromHex(token).value| == 0 ==> r == Err(EmptyPattern)
    // the correlation is never empty, so no error is ever reported in the result
    ensures r.Ok? ==> r.value.mode == "time-spread" && r.value.error.None?
    ensures r.Ok? ==>
              && r.value.correlation.Some?
              && |r.value.correlation.value| == |cep| - 8 * |Codec.FromHex(token).value| + 1
              && r.value.stats.Some? && r.value.localMax.Some?
              && ReportsCorrelationPeak(r.value.stats.value, r.value.localMax.value, r.value.detected,
                                        r.value.correlation.value, rate, cfg, sqrt)
    // the correlation is of the cepstrum with the taps the token's bits select
    ensures r.Ok? ==>
              r.value.correlation == Some(Correlate(cep, Codec.BitTaps(Codec.FromHex(token).value)))
  {
    var bipolar :- Codec.WatermarkToBipolar(token).MapError(_ => BadToken);
    Codec.TokenTaps(token);
    var p := Codec.TapValues(bipolar);
    if |p| == 0 then Err(EmptyPattern)
    else
      var corr := Correlate(cep, p);
      if |corr| == 0 then
        Ok(Initial("time-spread").(error := Some(EmptyCorrelationMessage)))
      else
        Ok(AnalyseCorrelation(corr, rate, cfg, sqrt))
  }

  /** The token is read only through `bytes.fromhex`: two tokens that decode to the same
      bytes give the same time-spread result, error or detection. */
  lemma DetectSameBytes(cep: seq<real>, rate: int, t1: string, t2: string, cfg: Config, sqrt: real -> real)
    requires rate > 0 && PatternFits(t1, |cep|) && Codec.FromHex(t1) == Codec.FromHex(t2)
    ensures PatternFits(t2, |cep|)
    ensures DetectTimeSpread(cep, rate, t1, cfg, sqrt) == DetectTimeSpread(cep, rate, t2, cfg, sqrt)
  {
  }

  /** What `detect_watermark` demands of its caller: the cepstrum belongs to the
      audio, the sample rate is positive, and a time-spread token fits. */
  predicate DetectArgsOk(audio: Audio, cep: seq<real>, rate: int, mode: string, token: Option<string>)
  {
    && (audio.Mono? ==> |cep| == |audio.samples|)
    && rate > 0
    && (mode == "time-spread" && token.Some? ==> PatternFits(token.value, |cep|))
  }

  /** `detect_watermark(audio, rate, method, expected_watermark_hex, ...)` with the
      cepstrum of `audio` supplied as `cep`. */
  function DetectWatermark(audio: Audio, cep: seq<real>, rate: int, mode: string, token: Option<string>,
                           cfg: Config, sqrt: real -> real): (r: Result<Detection, DetectError>)
    requires DetectArgsOk(audio, cep, rate, mode, token)
    ensures audio.Multi? <==> r == Err(NotMono)
    ensures audio.Mono? && |audio.samples| == 0 ==> r == Err(EmptyAudio)
    ensures audio.Mono? && |audio.samples| > 0 && mode != "simple" && mode != "time-spread" ==>
              r == Err(UnknownMethod)
    ensures audio.Mono? && |audio.samples| > 0 && mode == "time-spread" && token.None? ==>
              r == Err(MissingToken)
    // `simple` runs the simple detector, `time-spread` with a token the correlator
    ensures audio.Mono? && |audio.samples| > 0 && mode == "simple" ==>
              r == DetectSimple(cep, rate, cfg, sqrt)
    ensures audio.Mono? && |audio.samples| > 0 && mode == "time-spread" && token.Some? ==>
              r == DetectTimeSpread(cep, rate, token.value, cfg, sqrt)
    // a token `fromhex` rejects, or one without bytes, raises
    ensures r == Err(BadToken) <==>
              audio.Mono? && |audio.samples| > 0 && mode == "time-spread" && token.Some?
              && Codec.FromHex(token.value).Err?
    ensures r == Err(EmptyPattern) <==>
              audio.Mono? && |audio.samples| > 0 && mode == "time-spread" && token.Some?
              && Codec.FromHex(token.value) == Ok([])
    ensures r.Ok? ==> r.value.mode == mode
    // a reported error never comes with a detection
    ensures r.Ok? && r.value.error.Some? ==> !r.value.detected && r.value.stats.None?
    // every other result carries the peak statistics, whatever the decision
    ensures r.Ok? && r.value.error.None? ==>
              r.value.stats.Some?
              && r.value.stats.value.peakTime == r.value.stats.value.peakIndex as real / rate as real
  {
    if !audio.Mono? then Err(NotMono)
    else if |audio.samples| == 0 then Err(EmptyAudio)
    else if mode == "simple" then DetectSimple(cep, rate, cfg, sqrt)
    else if mode == "time-spread" then
      if token.None? then Err(MissingToken)
      else DetectTimeSpread(cep, rate, token.value, cfg, sqrt)
    else Err(UnknownMethod)
  }

  // ---------------------------------------------------------------------------
  // Consequences of the decision rule

  lemma {:induction false} SumConstant(s: seq<real>, c: real)
    requires forall i :: 0 <= i < |s| ==> s[i] == c
    ensures Sum(s) == |s| as real * c
  {
    if |s| > 0 {
      SumConstant(s[..|s| - 1], c);
    }
  }

  /** A flat analysed sequence has mean equal to its value and zero variance. */
  lemma FlatStatistics(s: seq<real>, c: real)
    requires |s| > 0 && forall i :: 0 <= i < |s| ==> s[i] == c
    ensures Mean(s) == c
    ensures PopVariance(s) == 0.0
  {
    SumConstant(s, c);
    var n := |s| as real;
    assert Mean(s) == (n * c) / n;
    assert Mean(s) == c;
    var d := SquaredDeviations(s, Mean(s));
    SumConstant(d, 0.0);
  }

  /** With a square root that maps 0 to 0 (as `np.sqrt` does), a flat search window is
      never a detection, whatever the sigma factor: the peak equals the mean and the
      standard deviation is 0, so the peak cannot exceed the threshold. */
  lemma FlatWindowNotDetected(cep: seq<real>, rate: int, cfg: Config, sqrt: real -> real, c: real)
    requires rate > 0 && sqrt(0.0) == 0.0
    requires forall i :: 0 <= i < |cep| ==> cep[i] == c
    requires DetectSimple(cep, rate, cfg, sqrt).Ok?
    ensures !DetectSimple(cep, rate, cfg, sqrt).value.detected
  {
    var r := DetectSimple(cep, rate, cfg, sqrt);
    var seg := PySlice(cep, cfg.searchStart, cfg.searchEnd);
    if r.value.stats.Some? {
      var st := r.value.stats.value;
      assert |seg| > 0 && st.threshold == Threshold(seg, cfg, sqrt);
      assert PyIndex(cep, st.peakIndex) == Some(st.peakValue);
      FlatSlice(cep, cfg.searchStart, cfg.searchEnd, c);
      FlatThreshold(seg, cfg, sqrt);
    }
  }

  /** Every value of a slice of a flat sequence is the flat value. */
  lemma FlatSlice(cep: seq<real>, start: int, end: int, c: real)
    requires forall i :: 0 <= i < |cep| ==> cep[i] == c
    ensures forall i :: 0 <= i < |PySlice(cep, start, end)| ==> PySlice(cep, start, end)[i] == c
  {
  }

  /** With a true square root and a non-negative sigma factor, the threshold is never
      below the mean, so a detected peak lies strictly above the mean of its window. */
  lemma SimpleDetectionAboveMean(cep: seq<real>, rate: int, cfg: Config, sqrt: real -> real)
    requires rate > 0 && IsSqrt(sqrt) && 0.0 <= cfg.sigmaFactor
    ensures var r := DetectSimple(cep, rate, cfg, sqrt);
            var seg := PySlice(cep, cfg.searchStart, cfg.searchEnd);
            r.Ok? && r.value.detected ==>
              r.value.stats.Some? && |seg| > 0 && r.value.stats.value.peakValue > Mean(seg)
  {
    var seg := PySlice(cep, cfg.searchStart, cfg.searchEnd);
    var r := DetectSimple(cep, rate, cfg, sqrt);
    if r.Ok? && r.value.detected {
      assert r.value.stats.Some? && |seg| > 0;
      ThresholdAtLeastMean(seg, cfg, sqrt);
    }
  }

  /** The default search range `(20, 500)`: a cepstrum of at most 20 values leaves the
      window empty, which is reported; a cepstrum of at least 500 values is searched
      over exactly `cepstrum[20:500]`, and the peak is the largest value there. */
  lemma DefaultSearchWindow(cep: seq<real>, rate: int, sqrt: real -> real)
    requires rate > 0
    ensures |cep| <= 20 ==>
              DetectSimple(cep, rate, DefaultConfig, sqrt)
              == Ok(Detection("simple", false, Some(EmptySegmentMessage), None, None, None))
    ensures 500 <= |cep| ==>
              && PySlice(cep, 20, 500) == cep[20..500]
              && DetectSimple(cep, rate, DefaultConfig, sqrt).Ok?
              && var st := DetectSimple(cep, rate, DefaultConfig, sqrt).value.stats.value;
                 && 20 <= st.peakIndex < 500
                 && st.peakValue == cep[st.peakIndex]
                 && (forall j :: 20 <= j < 500 ==> cep[j] <= st.peakValue)
  {
    PySliceInRange(cep, 20, 500);
    if 500 <= |cep| {
      SimplePeakLocation(cep, rate, DefaultConfig, sqrt);
    }
  }

  /** With a non-negative SNR threshold, a simple-mode detection has a positive peak:
      the SNR divisor is positive, so the SNR has the sign of the peak. */
  lemma SimpleDetectedPeakPositive(cep: seq<real>, rate: int, cfg: Config, sqrt: real -> real)
    requires rate > 0 && 0.0 <= cfg.snrThreshold
    ensures var r := DetectSimple(cep, rate, cfg, sqrt);
            r.Ok? && r.value.detected ==> r.value.stats.Some? && 0.0 < r.value.stats.value.peakValue
  {
    var r := DetectSimple(cep, rate, cfg, sqrt);
    if r.Ok? && r.value.detected {
      var seg := PySlice(cep, cfg.searchStart, cfg.searchEnd);
      assert r.value.stats.Some?;
      var st := r.value.stats.value;
      QuotientSign(st.peakValue, MeanMagnitude(seg) + SnrEpsilon);
    }
  }

  /** With a local ratio of at least 1 and a non-negative SNR threshold, a time-spread
      detection has a positive peak that is strictly above the local maximum, and so
      above every other value in its neighbourhood. */
  lemma DetectedPeakStandsOut(corr: seq<real>, rate: int, cfg: Config, sqrt: real -> real)
    requires |corr| > 0 && rate > 0 && 1.0 <= cfg.localRatio && 0.0 <= cfg.snrThreshold
    ensures var d := AnalyseCorrelation(corr, rate, cfg, sqrt);
            var st := d.stats.value;
            d.detected ==>
              && 0.0 < st.peakValue && d.localMax.value < st.peakValue
              && AboveNeighbours(corr, st.peakIndex, st.peakValue)
  {
    var d := AnalyseCorrelation(corr, rate, cfg, sqrt);
    ReportedPeakStandsOut(d.stats.value, d.localMax.value, d.detected, corr, rate, cfg, sqrt);
  }

  /** `DetectedPeakStandsOut` for any report of a correlation peak. */
  lemma ReportedPeakStandsOut(st: PeakStats, lm: real, detected: bool, corr: seq<real>,
                              rate: int, cfg: Config, sqrt: real -> real)
    requires |corr| > 0 && rate > 0 && ReportsCorrelationPeak(st, lm, detected, corr, rate, cfg, sqrt)
    requires 1.0 <= cfg.localRatio && 0.0 <= cfg.snrThreshold
    ensures detected ==> 0.0 < st.peakValue && lm < st.peakValue
    ensures detected ==> AboveNeighbours(corr, st.peakIndex, st.peakValue)
  {
    if detected {
      DescribedSnr(st, corr, rate, cfg, sqrt);
      PeakStandsOut(corr, st.peakIndex, st.peakValue, lm, st.snrRatio, MeanMagnitude(corr), cfg);
    }
  }

  /** The SNR that `Describes` fixes, as a plain equation. */
  lemma DescribedSnr(st: PeakStats, values: seq<real>, rate: int, cfg: Config, sqrt: real -> real)
    requires |values| > 0 && rate > 0 && Describes(st, values, rate, cfg, sqrt)
    ensures st.snrRatio == st.peakValue / (MeanMagnitude(values) + SnrEpsilon)
  {
  }

  /** The detection facts of `DetectedPeakStandsOut`, with the mean magnitude `mm`
      passed as a plain value. */
  lemma PeakStandsOut(corr: seq<real>, peak: nat, v: real, lm: real, snr: real, mm: real, cfg: Config)
    requires peak < |corr| && lm == LocalMax(corr, peak)
    requires 0.0 <= mm && snr == v / (mm + SnrEpsilon)
    requires 1.0 <= cfg.localRatio && 0.0 <= cfg.snrThreshold
    requires snr > cfg.snrThreshold && v > cfg.localRatio * lm
    ensures 0.0 < v && lm < v && AboveNeighbours(corr, peak, v)
  {
    PeakAboveLocal(v, snr, mm, cfg.snrThreshold, cfg.localRatio, lm);
    LocalMaxBounds(corr, peak, lm, v);
  }

  /** `v` is strictly above every value in the neighbourhood of `peak`, `peak` excluded. */
  predicate AboveNeighbours(corr: seq<real>, peak: nat, v: real)
  {
    forall j :: LocalLow(peak) <= j < LocalHigh(peak, |corr|) && j != peak && j < |corr| ==> corr[j] < v
  }

  /** A value above the local maximum is above every neighbour. */
  lemma LocalMaxBounds(corr: seq<real>, peak: nat, lm: real, v: real)
    requires peak < |corr| && lm == LocalMax(corr, peak) && lm < v
    ensures AboveNeighbours(corr, peak, v)
  {
  }

  /** The arithmetic of a time-spread detection: a peak `v` whose SNR
      `v / (mm + 1e-12)` (with `mm`, a mean magnitude, non-negative) beats a
      non-negative threshold, and which beats `r` times the local maximum `m` for `r`
      at least 1, is positive and above the local maximum. */
  lemma PeakAboveLocal(v: real, snr: real, mm: real, t: real, r: real, m: real)
    requires 0.0 <= mm && snr == v / (mm + SnrEpsilon) && 0.0 <= t && snr > t
    requires 1.0 <= r && v > r * m
    ensures 0.0 < v && m < v
  {
    QuotientSign(v, mm + SnrEpsilon);
    if 0.0 <= m {
      assert m <= r * m;
    }
  }

  lemma ProductNonNegative(a: real, b: real)
    requires 0.0 <= a && 0.0 <= b
    ensures 0.0 <= a * b
  {
  }
}
