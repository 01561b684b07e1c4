# Virgo data reduction core in Dafny

Virgo is a spectrometer and radiometer for radio astronomy. A software-defined
radio records an observation as a flat file of float32 power samples. Its
parameters go into a `key=value` header sidecar next to the file. The
`plot` routine then turns the recording into a waterfall:

- rows are integrations and columns are frequency channels;
- warm-up rows are dropped;
- channels in a radio-interference band are blanked;
- dispersion is corrected by rolling columns along time;
- the spectrum and the time series are median-filtered.

The `simulate` routine downloads a survey profile and parses it into
frequency and spectrum columns.

This project models those discrete steps in Dafny and proves what they do.
The modules are:

- `Samples`: a power sample is `NaN` or a real value. The Python exceptions
  raised by the modelled lines are `IndexError`, `ValueError` and
  `ZeroDivisionError`. The module also defines `Result` and `Outcome` wrappers.
- `Waterfall`: the waterfall buffer, as an `array2` for the in-place steps
  and a grid of rows for the specifications. It covers loading with the
  warm-up row drop, RFI channel blanking with Python's negative column
  indices, the `shift` helper (a `np.roll` of one column), and the
  dedispersion loop.
- `Smoothing`: `np.nanmedian` over a window, and the forward-window median
  filter `x[i] = nanmedian(x[i:i+n])` run in place. The filter is proved
  equal to the pure filter over the original buffer.
- `Text`: the Python string operations used by the header and the parser:
  - `split(sep)` and `sep.join`;
  - the substring test;
  - `strip()` with Python's whitespace set;
  - argument-less `split()` on bytes.
- `Header`: the header path derived from the data file name, and the ten
  lines `observe` writes. It also models the `elif` chain in `plot` that
  reads five of the lines back, and proves the write/read round trip.
- `Profile`: `simulate`'s clamp of the velocity limits, and its parser of
  the survey table.
- `Pipeline`: Python's `int()` of a float, the mapping of the RFI band to a
  channel range, and masking of the observation and calibration waterfalls
  with that one range. It also covers the median filters that follow
  dedispersion, with the finding below.

`np.nanmedian` of an even window is the mean of its two middle values, so
the window-3 filter of `[1, 2, 3, 4, 5]` gives `[2, 3, 4, 4.5, 5]`
(`Smoothing.ForwardMedianExample`).

The dedispersion loop is modelled as the code has it. Iteration `t_bin`
rolls **column** `t_bin` along the time axis, for `t_bin` in
`range(subs)`, where `subs` is the number of rows. So more rows than
channels raises `IndexError`, and zero rows with `dm != 0` divides by zero.

## Model

| member | source | states |
|---|---|---|
| Waterfall.Load | virgo/virgo.py:677-684 | zero channels raises ZeroDivisionError; a negative channel count or a size that is not a multiple of it raises ValueError; otherwise rows of exactly `channels` samples, `len/channels - 3` of them, none when the recording has at most 3 rows |
| Waterfall.LoadCells | virgo/virgo.py:681-684 | cell (r, c) of the loaded buffer is flat sample (r + 3) * channels + c: the first three rows are the ones dropped |
| Waterfall.Reshape | virgo/virgo.py:681 | `reshape(-1, channels)` of a flat vector whose length is rows * cols: rows rows of exactly cols samples (the cells themselves are stated by ReshapeCell) |
| Waterfall.ReshapeCell | virgo/virgo.py:681 | the reshape is row-major: row r, column c is flat sample r * cols + c |
| Waterfall.NewWaterfall | virgo/virgo.py:681 | a fresh buffer of the grid's shape holding its cells |
| Waterfall.Blanked | virgo/virgo.py:693-694 | the waterfall with every column named by an index of lo .. stop-1 set to NaN in all rows; it keeps the shape (which cells change is stated by BlankedExactly and BlankChannels) |
| Waterfall.BlankChannels | virgo/virgo.py:693-694 | the blanking loop raises IndexError exactly when some index of the range is not a valid (possibly negative) column index, blanks every column named before that point and leaves every other cell unchanged |
| Waterfall.BlankedExactly | virgo/virgo.py:693-694 | for 0 <= lo <= hi <= channels nothing raises and exactly columns lo .. hi-1 become NaN in every row, every other cell unchanged |
| Waterfall.BlankedIdempotent | virgo/virgo.py:693-694 | blanking the same columns twice gives the same buffer as blanking once |
| Waterfall.WrapIsMod | virgo/virgo.py:618 | the roll's source index is (r + k) mod rows, Python's non-negative remainder |
| Waterfall.RollColumn | virgo/virgo.py:618 | `np.roll(waterfall[:, col], -k)` written back into column col; it keeps the shape (the cells are stated by RollColumnCells) |
| Waterfall.RollColumnCells | virgo/virgo.py:617-618 | after `shift(col, k)` row r of column col holds old row (r + k) mod rows, and every other column is unchanged |
| Waterfall.RollColumnByMultiple | virgo/virgo.py:617-618 | a roll by a multiple of the row count leaves the buffer unchanged |
| Waterfall.RollColumnCompose | virgo/virgo.py:617-618 | rolling by a then by b is rolling by a + b |
| Waterfall.RollColumnInverse | virgo/virgo.py:617-618 | rolling by -k undoes rolling by k |
| Waterfall.RollColumnPermutes | virgo/virgo.py:617-618 | the rolled column holds the same multiset of samples as before |
| Waterfall.Shift | virgo/virgo.py:617-618 | the in-place `shift` on the buffer: an existing column is rolled as RollColumn says; a column index past the last raises IndexError and changes nothing |
| Waterfall.Dedispersed | virgo/virgo.py:729-733 | the waterfall after the first `done` iterations of the dedispersion loop, iteration t rolling column t by its shift count; it keeps the shape (the cells are stated by DedispersedCell) |
| Waterfall.DedispersedCell | virgo/virgo.py:729-733 | after t iterations of the loop, column c < t holds the old column c rolled by its shift count and every later column is untouched: iteration t changes only column t |
| Waterfall.Dedisperse | virgo/virgo.py:726-733 | dm == 0 skips the block and leaves the buffer unchanged; otherwise zero rows raises ZeroDivisionError, more rows than columns raises IndexError after rolling every column, and the buffer is the dedispersed one |
| Smoothing.SortRealsSorted | virgo/virgo.py:765 | sorting the window's values gives them in ascending order, with the same multiset |
| Smoothing.FiniteValues | virgo/virgo.py:765 | the median sees exactly the values of the window that are not NaN, each as often as it occurs in the window |
| Smoothing.MedianIsNaN | virgo/virgo.py:765 | `nanmedian` is NaN exactly when the window is empty or all NaN |
| Smoothing.MedianSplits | virgo/virgo.py:765 | at least half of the window's values are at most the median, and at least half are at least it |
| Smoothing.MedianOfOne | virgo/virgo.py:765 | a one-sample window is its own median |
| Smoothing.NanMedian | virgo/virgo.py:765 | `np.nanmedian`: the middle of the sorted non-NaN values, the mean of the two middle ones for an even count, NaN when there are none (the NaN case is stated by MedianIsNaN, the halves by MedianSplits) |
| Smoothing.MedianOfPermutation | virgo/virgo.py:765 | the median depends only on which values the window holds and how often, not on their order |
| Smoothing.SortedUnique | virgo/virgo.py:765 | two ascending sequences with the same multiset of values are equal, so the sorted values a median reads are unique |
| Smoothing.MedianOfTwo | virgo/virgo.py:765 | a two-value window has the mean of the two as its median, in either order |
| Smoothing.MedianOfMiddleLast | virgo/virgo.py:765 | a three-value window whose middle value comes last has that value as its median |
| Smoothing.PySliceAt | virgo/virgo.py:765 | `x[lo:hi]` is the run of samples from the normalised start to the normalised stop (negative indices counted from the end, both clamped to the length), empty when the stop comes first |
| Smoothing.ForwardMedian | virgo/virgo.py:764-765 | the filter keeps the length of its input |
| Smoothing.ForwardWindow | virgo/virgo.py:765 | for n >= 1 window i is samples i .. min(i + n, len) - 1: truncated at the end, never empty |
| Smoothing.WindowFrom | virgo/virgo.py:765 | a window starting at i reads only samples from index i on |
| Smoothing.SmoothedPrefix | virgo/virgo.py:764-765 | the buffer after the first k iterations of the in-place loop, each window read from the buffer as the earlier iterations left it; it keeps the length (its contents are stated by SmoothedPrefixIsForward) |
| Smoothing.SmoothedPrefixIsForward | virgo/virgo.py:764-765 | after k iterations of the in-place loop, samples 0 .. k-1 hold the medians of the ORIGINAL windows and the rest is untouched |
| Smoothing.InPlaceIsForward | virgo/virgo.py:773-774 | the whole in-place loop equals the pure forward median of the original buffer |
| Smoothing.ForwardMedianKeepsLast | virgo/virgo.py:764-765 | for n >= 1 the last sample is unchanged |
| Smoothing.ForwardMedianInPlace | virgo/virgo.py:764-765 | the in-place loop over a buffer leaves it equal to the forward median of its old contents, for every window length |
| Smoothing.ForwardMedianExample | virgo/virgo.py:764-765 | window 3 over [1, 2, 3, 4, 5] gives [2, 3, 4, 4.5, 5] |
| Text.JoinSplit | virgo/virgo.py:558 | joining the parts of `split(sep)` with sep gives the string back |
| Text.SplitJoin | virgo/virgo.py:558 | splitting a join of separator-free parts gives the parts back |
| Text.SplitLast | virgo/virgo.py:558 | the last part of a split is the text after the last separator |
| Text.Split | virgo/virgo.py:558 | `str.split(sep)` for one separator character: the maximal runs between separators, empty runs included, never an empty list (the round trip with Join is stated by JoinSplit and SplitJoin) |
| Text.Contains | virgo/virgo.py:658-659 | the substring test `key in line`: a key found is no longer than the line; ContainsAt states that it is exactly the substring test |
| Text.ContainsAt | virgo/virgo.py:658-659 | `key in line` holds exactly when the key occurs in the line starting at some index i, that is, line[i .. i + len(key)] is the key |
| Text.StripEnds | virgo/virgo.py:659 | `strip()` removes exactly the leading and trailing whitespace and nothing inside |
| Text.Strip | virgo/virgo.py:659 | `str.strip()`: the text without its leading and trailing whitespace, never longer than the text (what is removed is stated by StripEnds) |
| Text.WordsAreWords | virgo/virgo.py:57 | every word of `split()` is non-empty and holds no whitespace |
| Text.WordsJoin | virgo/virgo.py:57 | `split()` of words joined by single spaces gives the words back |
| Text.Words | virgo/virgo.py:57 | `bytes.split()` with no argument: the maximal runs of non-whitespace; a text starting with a non-space has at least one word |
| Header.HeaderPathReplacesExtension | virgo/virgo.py:558 | the header path is the file name up to its last dot followed by `.header` |
| Header.HeaderPathWithoutDot | virgo/virgo.py:650 | a file name without a dot gives the bare `.header` |
| Header.HeaderPathOfDefault | virgo/virgo.py:558 | `observation.dat` gives `observation.header` |
| Header.HeaderPathOfBareName | virgo/virgo.py:650 | a name with no extension gives `.header` |
| Header.HeaderPath | virgo/virgo.py:558 | the header file name, shared by writer (line 558) and reader (line 650): it always ends in `.header` |
| Header.Lines | virgo/virgo.py:655 | `readlines()` with `rstrip('\n')`: the text cut at each newline, no empty line after a final newline; no line holds a newline |
| Header.HeaderLines | virgo/virgo.py:558-568 | `observe` writes ten lines |
| Header.LinesOfHeader | virgo/virgo.py:655 | reading the written file with `readlines` and `rstrip('\n')` gives back exactly the ten lines |
| Header.Field | virgo/virgo.py:659 | `strip().split('=')[1]` raises IndexError exactly when the stripped line has no `=`; otherwise it is `=`-free text that follows an `=` in the line |
| Header.FieldBetween | virgo/virgo.py:659 | the field is exactly the text between the first `=` of the stripped line and the next `=`, or the end of the line when there is no second one |
| Header.FieldOfSeveral | virgo/virgo.py:659 | a line with several `=` (`a=b=c`) yields only the text between the first two (`b`) |
| Header.KeyLine | virgo/virgo.py:659 | the field of `key=v` for plain v is v |
| Header.Step | virgo/virgo.py:657-667 | one pass of the `elif` chain, in which the first key the line holds sets its variable to the field (stated by StepPicks and StepIgnores); of the exceptions it models, the only one is the field's IndexError (the ValueError of the numeric conversion is left out) |
| Header.ScanHeader | virgo/virgo.py:657-667 | the variables after the loop over all lines, ending at the first line that raises; of the exceptions it models, the only one is IndexError (the ValueError of the numeric conversion is left out) |
| Header.StepIgnores | virgo/virgo.py:658-667 | a line holding none of the five keys changes no variable |
| Header.StepPicks | virgo/virgo.py:658-667 | first match wins: the earliest key of the chain that the line holds selects the variable, which gets the line's field or raises its IndexError |
| Header.KeysInOrder | virgo/virgo.py:658-666 | no key of the chain contains an earlier one, so each key line reaches its own branch |
| Header.ReadHeader | virgo/virgo.py:654-667 | the reading loop gives the fold of the chain over the lines, stopping with the first exception |
| Header.ScanErrSticks | virgo/virgo.py:657-667 | once a line raises, the remaining lines are never read |
| Header.HeaderRoundTrip | virgo/virgo.py:654-667 | reading what `observe` wrote sets mjd, frequency, bandwidth, channels and t_sample to the written values and passes over the dev_args, gain and duration lines, provided dev_args holds no key name |
| Profile.ClampVelocity | virgo/virgo.py:36-39 | the lower limit ends at least -400 and the upper at most 400; a limit changes exactly when it was beyond its own bound, and then becomes that bound; a lower limit above 400 or an upper limit below -400 is kept |
| Profile.ClampIdempotent | virgo/virgo.py:36-39 | clamping clamped limits changes nothing |
| Profile.Data | virgo/virgo.py:51 | the parser reads the response after its first four lines, nothing when it has fewer |
| Profile.Columns | virgo/virgo.py:55-61 | the frequency and spectrum lists have equal length |
| Profile.ColumnsStop | virgo/virgo.py:56-61 | the columns hold field 2 and field 1 of each line up to the first line with fewer than three fields, and stop exactly there |
| Profile.ParseProfile | virgo/virgo.py:50-61 | the parsing loop with its early break yields exactly the columns, of equal length |
| Profile.ColumnsOfRows | virgo/virgo.py:56-61 | lines whose fields are given rows, followed by a short line or nothing, give field 2 and field 1 of every row |
| Profile.ParseTable | virgo/virgo.py:50-61 | a table written as four header lines and space-joined rows of at least three fields parses back to those rows' field 2 and field 1 |
| Pipeline.Trunc | virgo/virgo.py:693 | `int()` truncates toward zero: the result is the integer part, never farther from zero than x |
| Pipeline.TruncMonotone | virgo/virgo.py:693 | truncation keeps order |
| Pipeline.TruncOfInt | virgo/virgo.py:693 | a float holding a whole number truncates to it |
| Pipeline.ChannelOf | virgo/virgo.py:689-690 | the channel of a frequency raises ZeroDivisionError exactly when the bandwidth is 0 |
| Pipeline.PositionMonotone | virgo/virgo.py:689-690 | for a positive bandwidth a higher frequency never has a lower channel position |
| Pipeline.ChannelOfEdges | virgo/virgo.py:689-690 | the lower band edge maps to channel 0 and the upper edge to `channels` |
| Pipeline.ChannelOfInBand | virgo/virgo.py:689-693 | for a positive bandwidth, frequencies inside the band map to channels 0 .. channels, in order |
| Pipeline.RfiRange | virgo/virgo.py:689-693 | the blanking range is the channels of the two RFI edges; it raises exactly when the bandwidth is 0 |
| Pipeline.RfiBandBlanksExactly | virgo/virgo.py:687-694 | an RFI band inside the observed band, low edge first, blanks exactly channels int(rfi_lo) .. int(rfi_hi) - 1 and raises nothing |
| Pipeline.MaskRfi | virgo/virgo.py:687-706 | rfi == [0, 0] changes nothing; otherwise the range is blanked in the observation waterfall, and the SAME range in the calibration waterfall when one is given and the first pass raised nothing |
| Pipeline.Mask | virgo/virgo.py:687-694 | the blanking block on one waterfall: rfi == [0, 0] changes nothing; otherwise it raises ZeroDivisionError exactly when the bandwidth is 0, may raise IndexError, keeps the shape and sets each cell either to NaN or leaves it unchanged |
| Pipeline.MaskIdempotent | virgo/virgo.py:687-694 | masking an already masked waterfall with the same band gives it back unchanged |
| Pipeline.LoadAndMask | virgo/virgo.py:681-706 | lines 681-706 in order: a load error of the observation raises first; otherwise the observation is loaded into a fresh buffer and masked, and only when that raised nothing is the calibration file loaded (raising its own load error) and masked with the same band |
| Pipeline.SpectrumWindowAsWritten | virgo/virgo.py:729-733 | as written, the window the spectrum filter reads differs from the caller's n only after a dedispersion that ran, and is then one of the shift counts |
| Pipeline.ClobberedWindow | virgo/virgo.py:732 | with n = 0, dm = 1 and a last shift count of 3, the spectrum filter runs with window 3 and changes [1, 5, 2] into [2, 3.5, 2] |
| Pipeline.DedisperseAndSmooth | virgo/virgo.py:726-774 | dedispersion as Dedisperse states, then when it raised nothing the spectrum is filtered with the caller's n (only with a calibration file and n != 0) and the time series with m (only when m != 0) |

## Left out

- Floating point: samples, frequencies and medians are exact reals. float32 storage, rounding, infinities, and NaN in the velocity limits or the RFI band are not modelled.
- The scaling of the loaded samples by `offset/bins` is not modelled. Nor is `bins = int(t_sample*bandwidth/channels)`, apart from its division by `channels`.
- Waterfall.Dedisperse: the shift counts are an input. The dispersion delay law that computes them (frequency axis, `deltaF`, `4149*dm*...`) is floating-point arithmetic.
- The time-averaged spectrum, the time series, calibration division, `SNR`, `decibel`, the `polyfit` slope correction and the `best_fit` Gaussian are not modelled. `Pipeline.DedisperseAndSmooth` takes the spectrum and the time series as given buffers. Line 763 applies `SNR` again to a copy of the spectrum, and the method's `spectrum` is that copy (`spectrum_clean`), whatever values `SNR` gave it.
- Pipeline.MaskRfi: the calibration waterfall arrives already loaded. `Pipeline.LoadAndMask` performs both loads (lines 681 and 697) with `Waterfall.Load` and then calls it.
- Header: values are the text `str()` produced. The `float()`/`int()` conversions of the reader (lines 659-667) are not modelled. So `Header.Step` and `Header.ScanHeader` do not raise the ValueError that `float()` or `int()` raises on a field that is not a number, for instance a `dev_args` line holding `channels`; their only exception is the IndexError of the field. Neither is the later NameError when a key is missing (unset variables are `None`).
- Header.Lines: `readlines` is modelled as a split at `\n`. Text-mode newline translation of `\r\n` and `\r` is not modelled.
- Header.HeaderRoundTrip: holds for parameters whose numeric text has no `=`, no whitespace and no key name, and whose `dev_args` has no newline and no key name. Outside that, the reader may pick up a wrong variable, which the model's Step shows but the round trip does not cover.
- Profile.ParseProfile: takes the response's lines. `bytes.splitlines` is not modelled, and fields stay text. A field that `float()` rejects raises ValueError in `simulate`, which the model does not capture.
- The `obs_parameters` dictionary path of `plot`, file I/O (`np.fromfile`, header file, CSV and FITS export), the network download in `simulate`, SDR acquisition, astropy coordinates and all plotting are not modelled.

## Findings

| source | as written | input that shows it | evidently intended | confidence | as-written member | corrected member |
|---|---|---|---|---|---|---|
| virgo/virgo.py:732 | the dedispersion loop stores each shift count in `n`. That is the name of the spectrum median window parameter, so the filter at lines 762-765 (and the plot branches at 866 and 880) read the last shift count | `n=0` (no smoothing asked), `dm=1`, one integration whose shift count is 3, the buffer `spectrum_clean` built at line 763 holds `[1, 5, 2]`: the loop at lines 764-765 filters it with window 3 into `[2, 3.5, 2]` | the shift count kept in its own variable; the spectrum filtered with the caller's `n`, only when `n != 0` | not executed; high | Pipeline.ClobberedWindow | Pipeline.DedisperseAndSmooth |
