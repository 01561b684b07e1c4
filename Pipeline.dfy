/** The glue of `plot` around the buffer operations: the frequency-to-channel
    mapping of the RFI band, the masking of both the observation and the
    calibration waterfall with the same channel range, and the median
    smoothing that follows dedispersion. */
module Pipeline {
  import opened Samples
  import opened Waterfall
  import opened Smoothing

  // ------------------------------------------------------------ Python int()

  /** Python's `int(x)` for a float: truncation toward zero. */
  function Trunc(x: real): (t: int)
    ensures x >= 0.0 ==> t >= 0 && t as real <= x < t as real + 1.0
    ensures x < 0.0 ==> t <= 0 && t as real - 1.0 < x <= t as real
  {
    if x >= 0.0 then x.Floor else -((-x).Floor)
  }

  /** Truncation keeps order. */
  lemma TruncMonotone(x: real, y: real)
    requires x <= y
    ensures Trunc(x) <= Trunc(y)
  {
    if x >= 0.0 {
      assert Trunc(x) as real <= x <= y < Trunc(y) as real + 1.0;
    } else if y < 0.0 {
      assert Trunc(x) as real - 1.0 < x <= y <= Trunc(y) as real;
    }
  }

  /** A float holding a whole number truncates to that number. */
  lemma TruncOfInt(k: int)
    ensures Trunc(k as real) == k
  {
    if k < 0 {
      assert -(k as real) == (-k) as real;
    }
  }

  // ------------------------------------------------- RFI band to channels

  /** `channels*(f - (frequency - bandwidth/2))/bandwidth`: the position of
      frequency f in a band of `channels` channels centred on `frequency`,
      counted in channels from the lower band edge. */
  function Position(f: real, frequency: real, bandwidth: real, channels: nat): real
    requires bandwidth != 0.0
  {
    channels as real * (f - (frequency - bandwidth / 2.0)) / bandwidth
  }

  /** `int(channels*(f - (frequency - bandwidth/2))/bandwidth)`: the channel
      a frequency f falls in; a zero bandwidth divides by zero. */
  function ChannelOf(f: real, frequency: real, bandwidth: real, channels: nat): (r: Result<int>)
    ensures r.Err? <==> bandwidth == 0.0
    ensures r.Err? ==> r.error == ZeroDivisionError
  {
    if bandwidth == 0.0 then Err(ZeroDivisionError)
    else Ok(Trunc(Position(f, frequency, bandwidth, channels)))
  }

  /** The lower band edge maps to channel 0 and the upper one to `channels`. */
  lemma ChannelOfEdges(frequency: real, bandwidth: real, channels: nat)
    requires bandwidth != 0.0
    ensures ChannelOf(frequency - bandwidth / 2.0, frequency, bandwidth, channels) == Ok(0)
    ensures ChannelOf(frequency + bandwidth / 2.0, frequency, bandwidth, channels) == Ok(channels)
  {
    TruncOfInt(0);
    TruncOfInt(channels);
    PositionOfEdges(frequency, bandwidth, channels);
  }

  /** The band edges sit at positions 0 and `channels`. */
  lemma PositionOfEdges(frequency: real, bandwidth: real, channels: nat)
    requires bandwidth != 0.0
    ensures Position(frequency - bandwidth / 2.0, frequency, bandwidth, channels) == 0.0
    ensures Position(frequency + bandwidth / 2.0, frequency, bandwidth, channels) == channels as real
  {
    var c := channels as real;
    assert frequency + bandwidth / 2.0 - (frequency - bandwidth / 2.0) == bandwidth;
    assert c * bandwidth / bandwidth == c;
  }

  /** For a positive bandwidth, a higher frequency never has a lower position. */
  lemma PositionMonotone(f: real, g: real, frequency: real, bandwidth: real, channels: nat)
    requires bandwidth > 0.0 && f <= g
    ensures Position(f, frequency, bandwidth, channels) <= Position(g, frequency, bandwidth, channels)
  {
    var c := channels as real;
    var low := frequency - bandwidth / 2.0;
    assert c * (f - low) <= c * (g - low) by {
      assert c * (g - low) - c * (f - low) == c * (g - f);
    }
  }

  /** For a positive bandwidth, a frequency inside the band maps to a channel
      between 0 and `channels`, and a higher frequency never maps to a lower
      channel. */
  lemma ChannelOfInBand(f: real, g: real, frequency: real, bandwidth: real, channels: nat)
    requires bandwidth > 0.0
    requires frequency - bandwidth / 2.0 <= f <= g <= frequency + bandwidth / 2.0
    ensures 0 <= ChannelOf(f, frequency, bandwidth, channels).value
    ensures ChannelOf(f, frequency, bandwidth, channels).value <= ChannelOf(g, frequency, bandwidth, channels).value
    ensures ChannelOf(g, frequency, bandwidth, channels).value <= channels
  {
    var low := frequency - bandwidth / 2.0;
    var high := frequency + bandwidth / 2.0;
    PositionMonotone(low, f, frequency, bandwidth, channels);
    PositionMonotone(f, g, frequency, bandwidth, channels);
    PositionMonotone(g, high, frequency, bandwidth, channels);
    PositionOfEdges(frequency, bandwidth, channels);
    TruncMonotone(0.0, Position(f, frequency, bandwidth, channels));
    TruncMonotone(Position(f, frequency, bandwidth, channels), Position(g, frequency, bandwidth, channels));
    TruncMonotone(Position(g, frequency, bandwidth, channels), channels as real);
    TruncOfInt(0);
    TruncOfInt(channels);
  }

  /** The channel range `range(int(rfi_lo), int(rfi_hi))` of an RFI band. */
  function RfiRange(rfi: (real, real), frequency: real, bandwidth: real, channels: nat): (r: Result<(int, int)>)
    ensures r.Err? <==> bandwidth == 0.0
    ensures r.Ok? ==> Ok(r.value.0) == ChannelOf(rfi.0, frequency, bandwidth, channels)
    ensures r.Ok? ==> Ok(r.value.1) == ChannelOf(rfi.1, frequency, bandwidth, channels)
  {
    match ChannelOf(rfi.0, frequency, bandwidth, channels)
    case Err(e) => Err(e)
    case Ok(lo) =>
      match ChannelOf(rfi.1, frequency, bandwidth, channels)
      case Err(e) => Err(e)
      case Ok(hi) => Ok((lo, hi))
  }

  /** An RFI band inside the observed band, low edge first, blanks exactly the
      channels from int(rfi_lo) up to int(rfi_hi) - 1 and raises nothing. */
  lemma RfiBandBlanksExactly(g: Grid, rfi: (real, real), frequency: real, bandwidth: real, channels: nat)
    requires Rectangular(g, channels) && bandwidth > 0.0
    requires frequency - bandwidth / 2.0 <= rfi.0 <= rfi.1 <= frequency + bandwidth / 2.0
    ensures var (lo, hi) := RfiRange(rfi, frequency, bandwidth, channels).value;
      && 0 <= lo <= hi <= channels
      && BlankFits(lo, hi, channels) && BlankStop(lo, hi, channels) == hi
      && forall r, c :: 0 <= r < |g| && 0 <= c < channels ==>
           Blanked(g, channels, lo, hi)[r][c] == (if lo <= c < hi then NaN else g[r][c])
  {
    ChannelOfInBand(rfi.0, rfi.1, frequency, bandwidth, channels);
    var (lo, hi) := RfiRange(rfi, frequency, bandwidth, channels).value;
    BlankedExactly(g, channels, lo, hi);
  }

  /** The RFI masking block on one waterfall, as a value: the outcome and the
      cells it leaves. Nothing happens for `rfi == [0, 0]`; otherwise the
      band's channel range is blanked, up to the index that raises. */
  function Mask(g: Grid, cols: nat, rfi: (real, real), frequency: real, bandwidth: real): (r: (Outcome, Grid))
    requires Rectangular(g, cols)
    ensures |r.1| == |g| && Rectangular(r.1, cols)
    ensures r.0 == Fail(ZeroDivisionError) <==> rfi != (0.0, 0.0) && bandwidth == 0.0
    ensures r.0 == Pass || r.0 == Fail(ZeroDivisionError) || r.0 == Fail(IndexError)
    ensures rfi == (0.0, 0.0) ==> r == (Pass, g)
    ensures forall i, c :: 0 <= i < |g| && 0 <= c < cols ==> r.1[i][c] == g[i][c] || r.1[i][c] == NaN
  {
    if rfi == (0.0, 0.0) then (Pass, g)
    else
      match RfiRange(rfi, frequency, bandwidth, cols)
      case Err(e) => (Fail(e), g)
      case Ok((lo, hi)) =>
        (if BlankFits(lo, hi, cols) then Pass else Fail(IndexError), Blanked(g, cols, lo, BlankStop(lo, hi, cols)))
  }

  /** Masking a masked waterfall again changes nothing more, and its outcome
      does not depend on the cells. */
  lemma MaskIdempotent(g: Grid, cols: nat, rfi: (real, real), frequency: real, bandwidth: real)
    requires Rectangular(g, cols)
    ensures var m := Mask(g, cols, rfi, frequency, bandwidth);
      Mask(m.1, cols, rfi, frequency, bandwidth) == m
  {
    if rfi != (0.0, 0.0) && bandwidth != 0.0 {
      var (lo, hi) := RfiRange(rfi, frequency, bandwidth, cols).value;
      BlankedIdempotent(g, cols, lo, BlankStop(lo, hi, cols));
    }
  }

  /** The RFI masking of `plot`: unless `rfi` is [0, 0], map the band to a
      channel range and blank it in the observation waterfall, then, when a
      calibration file is given, blank the same range in the calibration
      waterfall. An error stops the block where it is raised. */
  method MaskRfi(w: array2<Sample>, cal: array2<Sample>, withCal: bool, rfi: (real, real),
                 frequency: real, bandwidth: real) returns (res: Outcome)
    requires w != cal && cal.Length1 == w.Length1
    modifies w, cal
    ensures rfi == (0.0, 0.0) ==> res == Pass && Cells(w) == old(Cells(w))
    ensures rfi != (0.0, 0.0) && bandwidth == 0.0 ==> res == Fail(ZeroDivisionError) && Cells(w) == old(Cells(w))
    ensures rfi != (0.0, 0.0) && bandwidth != 0.0 ==>
      var (lo, hi) := RfiRange(rfi, frequency, bandwidth, w.Length1).value;
      && res == (if BlankFits(lo, hi, w.Length1) then Pass else Fail(IndexError))
      && Cells(w) == Blanked(old(Cells(w)), w.Length1, lo, BlankStop(lo, hi, w.Length1))
      && Cells(cal) == (if withCal && res == Pass
                        then Blanked(old(Cells(cal)), w.Length1, lo, BlankStop(lo, hi, w.Length1))
                        else old(Cells(cal)))
    ensures rfi == (0.0, 0.0) || bandwidth == 0.0 ==> Cells(cal) == old(Cells(cal))
    ensures (res, Cells(w)) == Mask(old(Cells(w)), w.Length1, rfi, frequency, bandwidth)
    ensures Cells(cal) == if withCal && res == Pass
                          then Mask(old(Cells(cal)), w.Length1, rfi, frequency, bandwidth).1
                          else old(Cells(cal))
  {
    if rfi == (0.0, 0.0) {
      return Pass;
    }
    var range := RfiRange(rfi, frequency, bandwidth, w.Length1);
    if range.Err? {
      return Fail(range.error);
    }
    var (lo, hi) := range.value;
    res := BlankChannels(w, lo, hi);
    if res == Pass && withCal {
      var calRes := BlankChannels(cal, lo, hi);
    }
  }

  /** Lines 679-706 of `plot` in order: load the observation waterfall, mask
      it, then, when a calibration file is given, load the calibration
      waterfall and mask it with the same range. The first error ends the
      block; the calibration file is read only after the observation was
      masked without one. */
  method LoadAndMask(obs: seq<Sample>, withCal: bool, calSamples: seq<Sample>, channels: int,
                     rfi: (real, real), frequency: real, bandwidth: real)
    returns (res: Outcome, w: array2<Sample>, cal: array2<Sample>)
    ensures Load(obs, channels).Err? ==> res == Fail(Load(obs, channels).error)
    ensures Load(obs, channels).Ok? ==>
      var (o, masked) := Mask(Load(obs, channels).value, channels, rfi, frequency, bandwidth);
      && fresh(w) && w.Length1 == channels && Cells(w) == masked
      && (o != Pass || !withCal ==> res == o)
      && (o == Pass && withCal && Load(calSamples, channels).Err? ==>
            res == Fail(Load(calSamples, channels).error))
      && (o == Pass && withCal && Load(calSamples, channels).Ok? ==>
            res == Pass && fresh(cal) &&
            Cells(cal) == Mask(Load(calSamples, channels).value, channels, rfi, frequency, bandwidth).1)
  {
    var loaded := Load(obs, channels);
    if loaded.Err? {
      res := Fail(loaded.error);
      w := new Sample[0, 0];
      cal := new Sample[0, 0];
      return;
    }
    var cols: nat := channels;
    w := NewWaterfall(loaded.value, cols);
    var calLoaded := Load(calSamples, channels);
    var calOk := withCal && calLoaded.Ok?;
    if calOk {
      cal := NewWaterfall(calLoaded.value, cols);
    } else {
      cal := new Sample[0, cols];
    }
    res := MaskRfi(w, cal, calOk, rfi, frequency, bandwidth);
    if res == Pass && withCal && !calOk {
      res := Fail(calLoaded.error);
    }
  }

  // ----------------------------------------- smoothing after dedispersion

  /** The spectrum median window the smoothing block of `plot` reads, as
      written: the dedispersion loop assigns each shift count to `n`, the same
      name as the window parameter, so after a dedispersion that ran it holds
      the last shift count instead of the window the caller asked for. */
  function SpectrumWindowAsWritten(n: int, dm: real, shifts: seq<int>): (window: int)
    ensures dm == 0.0 || |shifts| == 0 ==> window == n
    ensures window != n ==> dm != 0.0 && window in shifts
  {
    if dm != 0.0 && |shifts| > 0 then shifts[|shifts| - 1] else n
  }

  /** With n = 0 the caller asks for no spectrum smoothing; with dm = 1 and a
      last shift of 3 the block runs anyway, with window 3, and changes the
      buffer `spectrum_clean` that line 763 builds, here holding [1, 5, 2],
      into [2, 3.5, 2]. */
  lemma ClobberedWindow(spectrum: seq<Sample>)
    requires spectrum == [Val(1.0), Val(5.0), Val(2.0)]
    ensures SpectrumWindowAsWritten(0, 1.0, [3]) == 3
    ensures ForwardMedian(spectrum, 3) == [Val(2.0), Val(3.5), Val(2.0)]
    ensures ForwardMedian(spectrum, 3) != spectrum
  {
    assert PySlice(spectrum, 0, 3) == spectrum;
    assert PySlice(spectrum, 1, 4) == [Val(5.0), Val(2.0)];
    assert PySlice(spectrum, 2, 5) == [Val(2.0)];
    MedianOfMiddleLast(1.0, 5.0, 2.0);
    MedianOfTwo(5.0, 2.0);
    MedianOfOne(Val(2.0));
    ForwardMedianAt(spectrum, 3, 0);
    ForwardMedianAt(spectrum, 3, 1);
    ForwardMedianAt(spectrum, 3, 2);
  }

  /** Dedispersion followed by both median filters, with the spectrum filter
      reading the window the caller passed: when a calibration file is given
      and `n != 0`, smooth the buffer `spectrum_clean` with window n; when
      `m != 0`, smooth the time series with window m. Both buffers are given:
      `spectrum_clean` is the copy of the spectrum that line 763 passes
      through `SNR` again, and computing it and the time series from the
      waterfall is floating-point arithmetic outside this model. */
  method DedisperseAndSmooth(w: array2<Sample>, dm: real, shifts: seq<int>, withCal: bool, n: int, m: int,
                             spectrum: array<Sample>, power: array<Sample>) returns (res: Outcome)
    requires |shifts| == w.Length0 && spectrum != power
    modifies w, spectrum, power
    ensures res == (if dm == 0.0 then Pass else DedispersionOutcome(w.Length0, w.Length1))
    ensures dm == 0.0 ==> Cells(w) == old(Cells(w))
    ensures dm != 0.0 ==> Cells(w) == Dedispersed(old(Cells(w)), w.Length1, shifts, Min(w.Length0, w.Length1))
    ensures spectrum[..] == (if res == Pass && withCal && n != 0 then ForwardMedian(old(spectrum[..]), n)
                             else old(spectrum[..]))
    ensures power[..] == (if res == Pass && m != 0 then ForwardMedian(old(power[..]), m) else old(power[..]))
  {
    res := Dedisperse(w, dm, shifts);
    if res != Pass {
      return;
    }
    if withCal && n != 0 {
      ForwardMedianInPlace(spectrum, n);
    }
    if m != 0 {
      ForwardMedianInPlace(power, m);
    }
  }
}
