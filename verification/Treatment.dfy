/** What the audio treatment task computes and reports on one full window. */
module Treatment {
  import opened Complex
  import opened Dft
  import opened Peak
  import opened Silence
  import opened Words
  import Fft

  const FFT_BUFFER_SIZE := 8192
  const LEFT_CANAL := 4096
  const SAMPLING := 48000.0

  /** The samples at the even places of a window (data_t is uint16_t). */
  function Left(x: seq<uint16>): seq<real> {
    seq(|x| / 2, (j: nat) requires j < |x| / 2 => x[2 * j] as real)
  }

  /** Two channels in turn, the left one first: only that one is heard. */
  lemma LeftOfInterleaved(x: seq<uint16>, l: seq<uint16>, r: seq<uint16>)
    requires |l| == |r| && |x| == 2 * |l|
    requires forall j | 0 <= j < |l| :: x[2 * j] == l[j] && x[2 * j + 1] == r[j]
    ensures |Left(x)| == |l| && forall j | 0 <= j < |l| :: Left(x)[j] == l[j] as real
  {}

  lemma LeftCanalIsPowerOfTwo()
    ensures PowerOfTwo(LEFT_CANAL)
  {}

  lemma TransformPower(x: seq<real>, w: Cplx, k: nat)
    requires k < |x|
    ensures |Transform(Window(x), w)| == |Spectral(x, w)| == |x|
    ensures var z := Transform(Window(x), w)[k]; Spectral(x, w)[k] == z.re * z.re + z.im * z.im
  {}

  /** One full window: keep the left channel l, transform it in place, scan the lower half of
      the power spectrum, and report the bin and its alleged frequency. */
  method ReportWindow(x: array<uint16>, buf: array<Cplx>, out: array<Cplx>, power: array<real>, w: Cplx)
    returns (maxIndex: nat, principalFreq: real, ghost l: seq<real>)
    requires x.Length == FFT_BUFFER_SIZE && buf != out
    requires buf.Length == out.Length == power.Length == LEFT_CANAL
    requires HalfTurn(w, LEFT_CANAL)
    modifies buf, out, power
    ensures |l| == 4096 && forall j | 0 <= j < 4096 :: l[j] == x[2 * j] as real
    ensures buf[..] == Transform(Window(l), w)
    ensures IsPeak(Spectral(l, w), maxIndex)
    ensures principalFreq * 16384.0 == maxIndex as real * 48000.0
    ensures principalFreq * 4096.0 == maxIndex as real * 48000.0 <==> PeriodTwo(l)
  {
    hide Mul, Add, Pow, Bin, HalfTurn, PowerOfTwo, Transform, Norm2, Spectral, PeriodTwo;
    l := Left(x[..]);
    ghost var samples := Window(l);
    var i := 0;
    while i < LEFT_CANAL
      invariant i <= LEFT_CANAL
      invariant buf[..i] == samples[..i]
    {
      AddZero(FromReal(x[i * 2] as real));
      buf[i] := Add(FromReal(x[i * 2] as real), ZERO);
      i := i + 1;
    }
    LeftCanalIsPowerOfTwo();
    assert buf[..LEFT_CANAL] == samples;
    Fft.Fft(buf, out, LEFT_CANAL, w);
    assert buf[..] == buf[..LEFT_CANAL];
    SpectralAt(l, w, 0);

    ghost var p := Spectral(l, w);
    var maxPower := 0.0;
    maxIndex := 0;
    i := 1;
    while i < LEFT_CANAL / 2
      invariant 1 <= i <= LEFT_CANAL / 2
      invariant buf[..] == Transform(samples, w)
      invariant maxIndex < i
      invariant if maxIndex == 0 then maxPower == 0.0 else maxPower == p[maxIndex] > 0.0
      invariant forall k | 1 <= k < maxIndex :: p[k] < maxPower
      invariant forall k | 1 <= k < i :: p[k] <= maxPower
    {
      TransformPower(l, w, i);
      var re, im := buf[i].re, buf[i].im;
      power[i] := re * re + im * im;
      if power[i] > maxPower {
        maxPower := power[i];
        maxIndex := i;
      }
      i := i + 1;
    }
    principalFreq := maxIndex as real * SAMPLING / 8192.0 / 2.0;
    ReportedFrequency(l, w, maxIndex, principalFreq);
  }

  /** Bin k of 4096 samples at 48 kHz stands for k*48000/4096 Hz. For every window the reported
      frequency is that of the reported bin exactly when the left channel has period two;
      otherwise it is a quarter of it. */
  lemma ReportedFrequency(l: seq<real>, w: Cplx, maxIndex: nat, principalFreq: real)
    requires |l| == 4096 && HalfTurn(w, 4096)
    requires IsPeak(Spectral(l, w), maxIndex)
    requires principalFreq * 16384.0 == maxIndex as real * 48000.0
    ensures principalFreq * 4096.0 == maxIndex as real * 48000.0 <==> PeriodTwo(l)
  {
    hide Spectral, HalfTurn, PeriodTwo, IsPeak;
    LeftCanalIsPowerOfTwo();
    SilentIffPeriodTwo(l, w);
    if PeriodTwo(l) { PeakUnique(Spectral(l, w), maxIndex, 0); }
  }

  /** The concrete case: with one nonzero sample at the start of the left channel, and any
      right channel, bin 1 is reported, so the frequency reported is wrong. */
  lemma ClickMisreported(x: seq<uint16>, w: Cplx)
    requires |x| == FFT_BUFFER_SIZE && HalfTurn(w, LEFT_CANAL)
    requires x[0] == 1 && forall j | 0 < j < LEFT_CANAL :: x[2 * j] == 0
    ensures IsPeak(Spectral(Left(x), w), 1)
    ensures !PeriodTwo(Left(x))
  {
    hide Spectral, HalfTurn, IsPeak, PeriodTwo;
    ClickPeak(Left(x), w);
  }
}
