# EchoMark core in Dafny

EchoMark hides a watermark in audio by adding faint echoes and finds it again by
looking at the signal's cepstrum. This project models the deterministic core of that
pipeline as pure functions over exact reals and proves what it promises:

- **Watermark codec** (`codec.dfy`): `generate_watermark` turns random bytes into a
  lower-case hex token. `watermark_to_bipolar` turns a token back into a tap pattern
  through `bytes.fromhex`, `np.unpackbits` (most significant bit first) and
  `2 * bits - 1`. That last step is `uint8` arithmetic, so a 0 bit becomes 255.
- **Echo embedder** (`embed.dfy`): `add_echo` and its dispatcher `embed_echo`.
  - A simple echo adds `alpha * x[k - delta]` to every row from `delta` on, in
    every channel.
  - A time-spread echo adds, for each tap `i` that fits, `alpha * pattern[i] * x[i]`
    to the single row `delta + i`.
  - The buffer is divided by its peak when that exceeds 1. numpy's `squeeze()`
    then drops a one-column channel axis.
- **Detector** (`detect.py`'s `detect_watermark`, in `detect.dfy`):
  - Python slicing and indexing, first-occurrence `argmax`, mean and population
    standard deviation, `np.correlate(..., mode="valid")`.
  - The ±50-sample neighbourhood of the time-spread peak.
  - The conjunctive `detected` flag.
  - Which failures raise and which are reported inside the result dictionary.
  - The cepstrum is an input.
- **Normaliser** (`normalize.dfy`): `normalize_audio` divides by `max|a| + 1e-12`.
- **Legacy loop echo** (`legacy.dfy`): `add_echo_to_audio` in
  `pipelines/EchoMark/features.py`, the explicit per-sample loops with optional 0/1
  keys. It is proved equal to `add_echo`'s simple mode before the rescale.

Shared definitions live in `signal.dfy` and `wrappers.dfy`:

- `Audio` is a 1-D signal, or a 2-D `[samples, channels]` buffer with an explicit
  channel count.
- `Frames` is the buffer view that `x[:, None]` gives.
- `Peak` is `np.max(np.abs(.))` and `Squeeze` is numpy's `squeeze()`.
- `Result`/`Option` stand in for exceptions and `None`.

Two behaviours of the code that a reader might not expect, and that the model follows:

- A time-spread tap adds one sample (`y[delta + i] += alpha * p[i] * x[i]`), not a
  shifted copy of the whole signal. The truncation example `[0.5, -0.5, 0, 0]` →
  `[0.5, -0.5, 0.25, 0.25]` agrees with the code and is proved
  (`Embed.TimeSpreadTruncationExample`).
- The bipolar pattern holds 1 and 255, not +1 and −1, because of the `uint8`
  wrap-around.

## Model

| member | source | states |
|---|---|---|
| `Codec.FromHexWithoutSpaces` | src/logic/embed.py:25 | On a string without whitespace, `bytes.fromhex` succeeds exactly when the string is an even number of hex digits, and then yields one byte per two characters. |
| `Codec.FromHex` | src/logic/embed.py:25 | `bytes.fromhex` skips whitespace before each byte pair, reads two hex digits of either case per byte and fails on anything else; a success yields at most one byte per two characters. |
| `Codec.ToHex` | src/logic/embed.py:10 | `bytes.hex()` writes exactly two lower-case hex digits per byte. |
| `Codec.HexRoundTrip` | src/logic/embed.py:10 | The lower-case hex encoding of any bytes decodes back to exactly those bytes. |
| `Codec.UnpackBits` | src/logic/embed.py:26 | `np.unpackbits` gives eight bits per byte; bit `i` is bit `7 - i % 8` of byte `i / 8` (most significant first). |
| `Codec.PackUnpack` | src/logic/embed.py:26 | Unpacking loses nothing: packing the bits again gives back the bytes. |
| `Codec.BitsRoundTrip` | src/logic/embed.py:26 | The 8-bit expansion of a byte, read back as a number, is the byte. |
| `Codec.WatermarkToBipolar` | src/logic/embed.py:24-28 | Succeeds exactly when `fromhex` does. The pattern has 8 taps per byte; tap `i` is 1 when bit `7 - i % 8` of byte `i / 8` is set and 255 otherwise (the `uint8` wrap of `2 * 0 - 1`). |
| `Codec.TokenTaps` | src/logic/embed.py:24-28 | The taps of a decodable token, as reals, are its bytes' bits most significant first, each 1.0 for a set bit and 255.0 for a clear one. |
| `Codec.TokenRoundTrip` | src/logic/embed.py:24-28 | The pattern determines the token: reading taps back as bits and packing them gives the token's bytes in canonical hex. |
| `Codec.GenerateWatermark` | src/logic/embed.py:6-10 | Succeeds exactly for non-negative multiples of 8. Other lengths raise; negative multiples raise in `os.urandom`. The token has `length / 4` lower-case hex digits and decodes to the random bytes. |
| `Codec.ToHexIsHexString` | src/logic/embed.py:10 | `token_hex` output is a well-formed hex string that `fromhex` decodes back to its bytes. |
| `Codec.GeneratedPatternLength` | src/logic/embed.py:6-28 | A generated `length`-bit token decodes to a pattern of exactly `length` taps. |
| `Signal.ToFrames` | src/logic/embed.py:38-40 | `x[:, None]`: a mono signal becomes a one-column buffer with the same samples; a 2-D buffer is itself. |
| `Signal.Squeeze` | src/logic/embed.py:54 | `squeeze()` on at least two rows keeps every value and gives a 1-D signal exactly when there is one column. |
| `Signal.SqueezeToFrames` | src/logic/embed.py:42-43 | The copy returned for `delta >= n` is the input array, except that a one-column 2-D input comes back 1-D. |
| `Signal.Peak` | src/logic/embed.py:50 | `np.max(np.abs(y))` bounds every magnitude and is attained by one entry; it is 0 for a buffer with no entries. |
| `Embed.SimpleEcho` | src/logic/embed.py:45 | `y[delta:] += alpha * x[:-delta]`: rows before `delta` are copied, and row `k >= delta` is `x[k] + alpha * x[k - delta]` in every channel. Length and width are preserved. |
| `Embed.EchoPerChannel` | src/logic/embed.py:45 | The simple echo treats channels independently: each column of the echoed buffer is the one-channel echo of that column. |
| `Embed.ApplyTaps` | src/logic/embed.py:48-49 | After the first `t` loop iterations, exactly rows `delta .. delta + t - 1` have changed, each by `alpha * pattern[i] * x[i]` of the original buffer; taps do not compound. |
| `Embed.TimeSpreadEcho` | src/logic/embed.py:46-49 | Only rows `delta + i` with `i < min(len(pattern), n - delta)` change, each by `alpha * pattern[i] * x[i]`; later taps are dropped. |
| `Embed.Rescale` | src/logic/embed.py:50-52 | When the peak exceeds 1 the buffer is divided by the peak; otherwise it is returned unchanged. Either way every entry ends in [-1, 1]. |
| `Embed.AddEcho` | src/logic/embed.py:31-54 | `delta <= 0` or `alpha == 0` returns the input itself. `delta >= n` returns its values through `squeeze()`. Otherwise every output sample lies in [-1, 1]. Sample count and channel count are kept, and a mono input stays mono. |
| `Embed.UnclippedEcho` | src/logic/embed.py:50-52 | An echo whose samples all stay in [-1, 1] is returned exactly, with no division. |
| `Embed.AddEchoBeforeRescale` | src/logic/embed.py:37-52 | When the echo applies and `delta < n`, the output, viewed as a buffer, is the echoed buffer after the peak check. |
| `Embed.EmbedEcho` | src/logic/embed.py:13-21 | Audio with no entries raises, because the peak printed first is `np.max` of nothing. A missing or empty token gives the simple echo. A token `fromhex` rejects raises. Otherwise the time-spread taps are the token's bytes' bits, most significant first, 1.0 for a set bit and 255.0 for a clear one. |
| `Embed.EmbedEchoSameBytes` | src/logic/embed.py:20-25 | The token is read only through `bytes.fromhex`: two tokens with the same bytes give the same result, error or echo. |
| `Embed.EmbedGeneratedToken` | src/logic/embed.py:6-28 | A token from `generate_watermark` embeds the time-spread echo whose taps are the bits of the random bytes behind it. |
| `Embed.MonoSimpleExample` | src/logic/embed.py:44-45 | Mono `[1, 0, 0, 0]`, alpha 0.5, delta 2 gives `[1, 0, 0.5, 0]`. |
| `Embed.StereoSimpleExample` | src/logic/embed.py:44-45 | A stereo buffer gets the same echo in each channel: `[[1,-1],[0.5,-0.5],[0,0],[0,0]]` gives `[[1,-1],[0.5,-0.5],[0.5,-0.5],[0.25,-0.25]]`. |
| `Embed.TimeSpreadTruncationExample` | src/logic/embed.py:47-49 | A six-tap pattern on four samples with delta 2: only two taps land, giving `[0.5, -0.5, 0.25, 0.25]`. |
| `Embed.TimeSpreadMonoExample` | src/logic/embed.py:47-49 | Pattern `[1, -1]`, delta 1 on `[0.5, -0.5, 0, 0]` gives `[0.5, -0.25, 0.25, 0]`. |
| `Detect.SliceBound` | src/logic/detect.py:42 | A slice bound in `[-len, len]` counts from the end when negative; a bound past the end lands on `len` and one before `-len` on 0. |
| `Detect.PySliceInRange` | src/logic/detect.py:42 | For `0 <= start <= end <= len` the slice is the plain subsequence; a start at or past the end, or an end at or before the start, gives an empty slice. |
| `Detect.PySlice` | src/logic/detect.py:42 | `cepstrum[start:end]` holds the entries between the two resolved bounds, and nothing when they cross. |
| `Detect.PyIndex` | src/logic/detect.py:48 | `cepstrum[i]` succeeds exactly for `-len <= i < len`, counting negative indices from the end. |
| `Detect.ArgMax` | src/logic/detect.py:47 | `np.argmax` returns a position holding the largest value, and no earlier position holds it. |
| `Detect.PeakStatistics` | src/logic/detect.py:50-53 | With a true square root and a non-negative sigma factor the threshold is at least the mean. Over a flat window it is the common value when the root maps 0 to 0. The SNR is positive exactly when the peak is, and 0 exactly when the peak is. |
| `Detect.ThresholdAtLeastMean` | src/logic/detect.py:50-52 | `mu + sigma_factor * sigma` is never below `mu` for a true square root and a non-negative sigma factor. |
| `Detect.FlatThreshold` | src/logic/detect.py:50-52 | Over a constant window the threshold is the constant, whatever the sigma factor, when the root maps 0 to 0. |
| `Detect.Correlate` | src/logic/detect.py:81 | For a pattern no longer than the cepstrum, the valid correlation has `len(cep) - len(p) + 1` values, value `k` being the sum over `j` of `cep[k + j] * p[j]`. |
| `Detect.SideMax` | src/logic/detect.py:99-100 | One side of the window contributes its largest value, or 0 when it is empty. |
| `Detect.LocalMax` | src/logic/detect.py:95-101 | The local maximum bounds every value in `[max(0, peak - 50), min(len, peak + 50))` other than the peak. When both sides are non-empty it is one of those values; when a side is empty it is at least that side's 0, and is either a neighbour value or 0. |
| `Detect.LocalMaxUnique` | src/logic/detect.py:95-101 | Those properties determine the value: a number satisfies them exactly when it is the local maximum. |
| `Detect.LocalMaxBelowPeak` | src/logic/detect.py:95-101 | At the global maximum, the local maximum never exceeds `max(peak_value, 0)`. |
| `Detect.DetectSimple` | src/logic/detect.py:40-66 | An empty search slice is reported in the result with `detected = False`, not raised, and a non-negative start never raises. Otherwise `peak_idx - start` is the first maximum of the segment, for a start of either sign, and `peak_value` is `cepstrum[peak_idx]` with Python's negative indexing. The statistics describe the segment, and `detected` holds exactly when the peak beats the threshold and the SNR beats its threshold. |
| `Detect.SimplePeakLocation` | src/logic/detect.py:47-48 | `start <= peak_idx < min(end, len)`. `peak_value` is the cepstrum there, no value in the window exceeds it, and every lower index in the window holds less. |
| `Detect.AnalyseCorrelation` | src/logic/detect.py:86-120 | On a non-empty correlation the peak is its first maximum, and the statistics describe it. `local_max` is the local maximum of the ±50 window around the peak. `detected` is the conjunction of the threshold, SNR and `peak > local_ratio * local_max` tests. |
| `Detect.DetectTimeSpread` | src/logic/detect.py:77-120 | A token `fromhex` rejects raises, and so does an empty pattern. Otherwise the correlation is `np.correlate` of the cepstrum with the token's bit taps (1 for a set bit, 255 for a clear one, most significant first), with `len(cep) - 8 * bytes + 1` values, and the result reports its peak as above, never an error. |
| `Detect.DetectSameBytes` | src/logic/detect.py:77-81 | The token is read only through `bytes.fromhex`: two tokens with the same bytes give the same time-spread result. |
| `Detect.DetectWatermark` | src/logic/detect.py:5-125 | Non-mono audio raises, as do time-spread without a token and an unknown method. A `simple` call is the simple detector's result, and a `time-spread` call with a token is the correlator's. So a token `fromhex` rejects raises, and so does one with no bytes. The result carries the method name. A reported error never comes with a detection. Every other result carries the peak statistics with `peak_time_s = peak_idx / rate`. |
| `Detect.FlatStatistics` | src/logic/detect.py:50-51 | A constant window has mean equal to the constant and zero population variance. |
| `Detect.FlatWindowNotDetected` | src/logic/detect.py:50-55 | A constant cepstrum is never a simple-mode detection when the square root maps 0 to 0, whatever the sigma factor. |
| `Detect.DefaultSearchWindow` | src/logic/detect.py:10-48 | With the default arguments, a cepstrum of at most 20 values gives the empty-segment result. On one of at least 500 values the search covers exactly `cepstrum[20:500]`, and the peak is the largest value there. |
| `Detect.SimpleDetectedPeakPositive` | src/logic/detect.py:53-55 | With a non-negative SNR threshold, a simple-mode detection has a positive peak. |
| `Detect.DetectedPeakStandsOut` | src/logic/detect.py:92-107 | With a local ratio of at least 1 and a non-negative SNR threshold, a time-spread detection has a positive peak above `local_max`, and so above every other value of its ±50 window. |
| `Detect.SimpleDetectionAboveMean` | src/logic/detect.py:50-55 | With a true square root and a non-negative sigma factor, a detected simple-mode peak lies strictly above the mean of its window. |
| `Normalize.Divisor` | src/logic/utils.py:17 | The divisor `max|a| + 1e-12` is at least `1e-12`, so the division is always defined. |
| `Normalize.NormalizeAudio` | src/logic/utils.py:15-18 | An array with no entries raises (`np.max` of nothing). Otherwise the shape is kept and every sample is divided by `max|a| + 1e-12`. |
| `Normalize.NormalizedBelowOne` | src/logic/utils.py:17-18 | Every normalised sample lies strictly inside (-1, 1). |
| `Normalize.NormalizedSign` | src/logic/utils.py:18 | Every normalised sample has the sign of its input sample, and 0 stays 0. |
| `Normalize.NormalizedOrder` | src/logic/utils.py:18 | Normalising keeps the order between any two samples, in both directions. |
| `Normalize.SilenceStaysSilent` | src/logic/utils.py:17 | An all-zero array comes back unchanged; there is no division by zero. |
| `Normalize.NormalizedPeak` | src/logic/utils.py:17-18 | The output peak is `M / (M + 1e-12)` for the input peak `M`. |
| `Normalize.NonSilentPeakNearOne` | src/logic/utils.py:17-18 | When the input peak is at least 1, the output peak lies in `(0.999999, 1)`. |
| `Legacy.EchoMono` | pipelines/EchoMark/features.py:52-55 | The mono loop leaves samples before `delta` as they were. From `delta` on, each sample gets `alpha` times the input sample `delta` earlier; updates never read an already-updated sample. |
| `Legacy.EchoFrames` | pipelines/EchoMark/features.py:43-50 | The 2-D loops give entry `k, c` the value `x[k][c] + alpha * x[k - delta][c] * w[k]` from `delta` on, and leave it unchanged before. |
| `Legacy.EchoChannel` | pipelines/EchoMark/features.py:46-50 | One channel's loop gives entry `k` of that channel `prev + alpha * x[k - delta] * w[k]` from `delta` on, and changes nothing else. |
| `Legacy.SetEntry` | pipelines/EchoMark/features.py:48 | An in-place `out[i, c] = v` changes that entry and no other. |
| `Legacy.AddEchoToAudio` | pipelines/EchoMark/features.py:6-57 | A negative delay raises IndexError as soon as a loop runs. Otherwise the output has the input's shape. A mono signal gets the mono echo and ignores the keys; a 2-D buffer gets the per-channel echo weighted by its keys. Nothing is rescaled. |
| `Legacy.LoopEchoIsSimpleEcho` | pipelines/EchoMark/features.py:43-55 | Without keys and with `0 < delta < n`, the loops compute exactly `add_echo`'s simple-mode buffer before its peak check, for mono and 2-D input. |
| `Legacy.MonoLoopIsSimpleEcho` | pipelines/EchoMark/features.py:52-55 | The mono loop, viewed as a one-column buffer, is `add_echo`'s simple echo. |
| `Legacy.UnitWeightsAreSimpleEcho` | pipelines/EchoMark/features.py:43-50 | The 2-D loops with all weights 1 are `add_echo`'s simple echo. |
| `Legacy.AddEchoIsRescaledLoop` | pipelines/EchoMark/features.py:41-57 | `add_echo` in simple mode is the loops' output, divided by its peak when that exceeds 1, and squeezed. |
| `Legacy.ZeroDelayScales` | pipelines/EchoMark/features.py:46-55 | Delay 0 without keys multiplies every sample by `1 + alpha`. |
| `Legacy.LongDelayIsIdentity` | pipelines/EchoMark/features.py:46-55 | A delay at or past the end leaves the signal unchanged. |
| `Legacy.ZeroKeysAreIdentity` | pipelines/EchoMark/features.py:47-48 | All-zero keys switch the echo off on a 2-D buffer. |
| `Legacy.FramesUnchanged` | pipelines/EchoMark/features.py:43-50 | The 2-D loops change nothing when every echo term has weight 0 or lies past the end. |
| `Legacy.ImpulseExample` | pipelines/EchoMark/features.py:24-29 | The docstring's example, as the intended call `add_echo_to_audio(data=signal, ...)`. The docstring passes `signal` positionally, which the keyword-only signature rejects with TypeError. A unit impulse in 1000 samples, alpha 0.4, delta 100 gives 0.4 at sample 100 and 0 everywhere except samples 0 and 100. |
| `Legacy.ZeroDelayAccepted` | pipelines/EchoMark/features.py:54-55 | As written, delay 0 is accepted and changes the signal: `[1, 0]` with alpha 0.5 starts with 1.5. |
| `Legacy.AddEchoToAudioChecked` | pipelines/EchoMark/features.py:20-21 | With the argument check the docstring promises, empty data or a non-positive delay is rejected. Every other input gives the loops' result. |

## Left out

- The cepstrum (`fft`, `log`, `ifft`) is not modelled. The detector takes the
  cepstrum of its audio as an input, so properties that depend on the spectrum,
  such as an embedded echo raising the cepstral peak, are not stated.
- Floating point is not modelled. Samples are exact reals, and the `float32`
  conversions in `add_echo` and `normalize_audio` are not represented. Neither is the
  truncation that writing a float into an integer array causes in
  `add_echo_to_audio`. The constants `1e-12` and `1e-10` are exact.
- Normalize.NormalizedBelowOne: the strict bound `|y| < 1` holds for exact reals.
  In floating point `max|a| + 1e-12` rounds to `max|a|` for typical peaks, so the
  loudest sample comes out as exactly ±1.
- Randomness is a parameter. The random bytes of `secrets.token_hex` are
  `GenerateWatermark`'s `entropy`. The keys `np.random.randint(2)` draws, and the seed
  handling, become `AddEchoToAudio`'s `keys`.
- The `print` calls are not modelled as output. The one in `embed_echo` prints
  `np.max(audio)`, which raises on an array with no entries; `EmbedEcho` models that
  failure as `EmptyAudio`. The prints in `add_echo_to_audio` cannot fail.
- The standard deviation's square root is a parameter `sqrt`. Lemmas that need it to
  be a true square root say so in their `requires`.
- Embed.AddEcho: requires at least two samples once an echo is attempted, because
  `squeeze()` on a single row also drops the sample axis. It also requires at least
  one channel when the echo reaches the peak check, because `np.max` of no entries
  raises. Neither case is modelled.
- Signal.Squeeze: models `squeeze()` only for buffers of at least two rows.
- 2-D patterns, which numpy may broadcast against rows, are not modelled; a pattern
  is a 1-D sequence of taps.
- Detect.DetectTimeSpread: requires the decoded pattern to be no longer than the
  cepstrum. `np.correlate` swaps its arguments otherwise, and that case is not
  modelled. The "Correlation signal is empty." result is therefore unreachable in
  the model.
- Detect.DetectWatermark: requires a positive sample rate. With rate 0,
  `peak_idx / rate` raises or yields inf/nan under numpy. A negative rate is accepted
  by the code and gives a negative `peak_time_s` (the same quotient, with its sign
  flipped). Neither case is modelled.
  It requires the time-spread pattern to fit, as `DetectTimeSpread` does.
- Legacy.AddEchoToAudio: the entries written before a negative delay raises
  IndexError are not modelled. They are in a local copy and never returned.
- The `TypeError` the docstring of `add_echo_to_audio` mentions for non-array input
  is not modelled, because the model's input is always an array.
- The user interface, audio and MP3 I/O, dataset download and the DDSP model are
  outside this model.

## Findings

| source | as written | input that shows it | evidently intended | confidence | as-written member | corrected member |
|---|---|---|---|---|---|---|
| pipelines/EchoMark/features.py:20-21 | `add_echo_to_audio` never validates its arguments. Delay 0 is accepted and scales the signal by `1 + alpha`, and a negative delay fails with IndexError instead of ValueError. | `data = [1.0, 0.0]`, `alpha = 0.5`, `delta = 0` returns `[1.5, 0.0]` | A ValueError for empty data or a delay that is not positive, as the docstring states | not executed | `Legacy.ZeroDelayAccepted` | `Legacy.AddEchoToAudioChecked` |
