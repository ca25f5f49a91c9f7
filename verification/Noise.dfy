/** The report survives disturbances, in particular the rounding of a tone to 16-bit samples. */
module Noise {
  import opened Complex
  import opened Sums
  import opened Dft
  import opened Spectrum
  import opened Conservation
  import opened Peak
  import opened Tones
  import opened Treatment
  import opened Words

  // ----- a disturbance is weak in every bin -----

  lemma {:induction false} EnergyNonnegative(x: seq<Cplx>)
    ensures Energy(x) >= 0.0
  {
    hide Norm2;
    if |x| > 0 {
      EnergyNonnegative(x[..|x| - 1]);
      Norm2Positive(x[|x| - 1]);
    }
  }

  lemma {:induction false} EnergyAtLeast(x: seq<Cplx>, k: nat)
    requires k < |x|
    ensures Norm2(x[k]) <= Energy(x)
  {
    hide Norm2;
    var m := |x| - 1;
    EnergyNonnegative(x[..m]);
    Norm2Positive(x[m]);
    if k < m { EnergyAtLeast(x[..m], k); }
  }

  /** By Parseval no bin of a disturbance exceeds n times its energy. */
  lemma DisturbanceBound(d: seq<Cplx>, w: Cplx, k: nat)
    requires PowerOfTwo(|d|) && HalfTurn(w, |d|) && k < |d|
    ensures Norm2(Bin(d, w, k)) <= |d| as real * Energy(d)
  {
    hide Bin, Norm2, Energy, HalfTurn, PowerOfTwo;
    Parseval(d, w);
    EnergyAtLeast(Transform(d, w), k);
  }

  lemma BinAdds(x: seq<Cplx>, y: seq<Cplx>, d: seq<Cplx>, w: Cplx, k: nat)
    requires |x| == |y| == |d| && forall j | 0 <= j < |x| :: x[j] == Add(y[j], d[j])
    ensures Bin(x, w, k) == Add(Bin(y, w, k), Bin(d, w, k))
  {
    hide Mul, Add, Pow, Sum;
    var n, z := |x|, Pow(w, k);
    BinIsEval(x, w, k);
    BinIsEval(y, w, k);
    BinIsEval(d, w, k);
    var f, g := Monomial(y, z), Monomial(d, z);
    forall j: nat | j < n ensures Monomial(x, z)(j) == Plus(f, g)(j) { MulAdd(Pow(z, j), y[j], d[j]); }
    SumExt(n, Monomial(x, z), Plus(f, g));
    SumPlus(n, f, g);
  }

  /** A strong value stays stronger than the disturbance added to it. */
  lemma StaysStrong(p: Cplx, q: Cplx, bound: real)
    requires Norm2(q) <= bound && 4.0 * bound < Norm2(p)
    ensures Norm2(Add(p, q)) > bound
  {
    SumAndDifference(Add(p, q), q);
    hide Norm2, Add, Sub;
    AddThenSub(p, q);
    Norm2Positive(Add(Add(p, q), q));
  }

  lemma SumAndDifference(a: Cplx, b: Cplx)
    ensures Norm2(Add(a, b)) + Norm2(Sub(a, b)) == 2.0 * (Norm2(a) + Norm2(b))
  {}

  lemma AddThenSub(p: Cplx, q: Cplx)
    ensures Sub(Add(p, q), q) == p
  {}

  // ----- a disturbed tone is still reported -----

  /** The difference of two windows. */
  function Difference(x: seq<real>, y: seq<real>): seq<real>
    requires |x| == |y|
  {
    seq(|x|, (j: nat) requires j < |x| => x[j] - y[j])
  }

  lemma DisturbedBin(x: seq<real>, y: seq<real>, w: Cplx, k: nat)
    requires PowerOfTwo(|x|) && HalfTurn(w, |x|) && |x| == |y| && k < |x|
    ensures
      var q := Bin(Window(Difference(x, y)), w, k);
      && Bin(Window(x), w, k) == Add(Bin(Window(y), w, k), q)
      && Norm2(q) <= |x| as real * Energy(Window(Difference(x, y)))
  {
    hide Bin, Norm2, Energy, HalfTurn, PowerOfTwo;
    var d := Difference(x, y);
    BinAdds(Window(x), Window(y), Window(d), w, k);
    DisturbanceBound(Window(d), w, k);
  }

  /** The bins of a single tone: n times the amplitude at m, nothing at the other scanned bins. */
  lemma ToneBins(y: seq<real>, w: Cplx, a: seq<Cplx>, c: real, m: nat, k: nat)
    requires PowerOfTwo(|y|) && |y| >= 2 && HalfTurn(w, |y|) && IsMix(y, w, a, c) && OnlyTone(a, m)
    requires 0 < k < |a|
    ensures k != m ==> Bin(Window(y), w, k) == ZERO
    ensures k == m ==> Norm2(Bin(Window(y), w, k)) == (|y| as real * |y| as real) * Norm2(a[m])
  {
    hide Bin, Mul, Norm2, IsMix, HalfTurn, PowerOfTwo, Conj;
    BinOfMix(y, w, a, c, k);
    var n := FromReal(|y| as real);
    ConjZero();
    Units(n);
    Norm2Mul(Conj(a[k]), n);
    Norm2Conj(a[k]);
    Norm2Real(|y| as real);
    RealMulComm(Norm2(a[k]), |y| as real * |y| as real);
  }

  lemma ConjZero()
    ensures Conj(ZERO) == ZERO
  {}

  lemma RealMulComm(a: real, b: real)
    ensures a * b == b * a
  {}

  lemma StrongerThan(n: real, energy: real, power: real, bound: real, bin: real)
    requires n > 0.0 && 4.0 * energy < n * power
    requires bound == n * energy && bin == (n * n) * power
    ensures 4.0 * bound < bin
  {
    var gap := n * power - 4.0 * energy;
    ProductPositive(n, gap, bin - 4.0 * bound);
  }

  /** A tone is reported, whatever is added to its samples, as long as the energy of what is
      added stays below a quarter of n times the squared amplitude. */
  lemma DisturbedToneReported(x: seq<real>, y: seq<real>, w: Cplx, a: seq<Cplx>, c: real, m: nat, r: nat)
    requires PowerOfTwo(|x|) && |x| >= 2 && HalfTurn(w, |x|) && |y| == |x|
    requires IsMix(y, w, a, c) && OnlyTone(a, m)
    requires 4.0 * Energy(Window(Difference(x, y))) < |x| as real * Norm2(a[m])
    ensures IsPeak(Spectral(x, w), r) <==> r == m
  {
    hide *;
    var n, energy := |x| as real, Energy(Window(Difference(x, y)));
    ToneFits(y, w, a, c, m);
    SpectralLength(x, w);
    StrongerThan(n, energy, Norm2(a[m]), n * energy, (n * n) * Norm2(a[m]));
    EnergyNonnegative(Window(Difference(x, y)));
    forall k: nat | 0 < k < |a|
      ensures if k == m then Spectral(x, w)[k] > n * energy else Spectral(x, w)[k] <= n * energy
    {
      SpectralAt(x, w, k);
      DisturbedBin(x, y, w, k);
      ToneBins(y, w, a, c, m, k);
      if k == m {
        StaysStrong(Bin(Window(y), w, k), Bin(Window(Difference(x, y)), w, k), n * energy);
      } else {
        AddZero(Bin(Window(Difference(x, y)), w, k));
      }
    }
    ScaledNonnegative(n, energy);
    PeakByGap(Spectral(x, w), m, n * energy);
    if IsPeak(Spectral(x, w), r) { PeakUnique(Spectral(x, w), r, m); }
  }

  lemma ToneFits(y: seq<real>, w: Cplx, a: seq<Cplx>, c: real, m: nat)
    requires IsMix(y, w, a, c) && OnlyTone(a, m)
    ensures |y| == 2 * |a| && 0 < m < |a|
  {}

  lemma ScaledNonnegative(n: real, e: real)
    requires n > 0.0 && e >= 0.0
    ensures n * e >= 0.0
  {}

  lemma PeakByGap(p: seq<real>, m: nat, bound: real)
    requires 0 < m < |p| / 2 && bound >= 0.0
    requires forall k: nat | 0 < k < |p| / 2 :: if k == m then p[k] > bound else p[k] <= bound
    ensures IsPeak(p, m)
  {}

  // ----- rounding -----

  lemma {:induction false} BoundedEnergy(x: seq<Cplx>, q: real)
    requires forall j | 0 <= j < |x| :: Norm2(x[j]) <= q
    ensures Energy(x) <= Times(|x|, q)
  {
    hide Norm2, Times;
    if |x| == 0 {
      TimesNone(q);
    } else {
      BoundedEnergy(x[..|x| - 1], q);
      TimesNext(|x| - 1, q);
    }
  }

  lemma TimesNone(q: real)
    ensures Times(0, q) == 0.0
  {}

  lemma TimesNext(m: nat, q: real)
    ensures Times(m + 1, q) == Times(m, q) + q
  {
    OneMore(m as real, (m + 1) as real, q);
  }

  lemma OneMore(m: real, n: real, q: real)
    requires n == m + 1.0
    ensures n * q == m * q + q
  {}

  lemma SquareBound(x: real, e: real, p: real, q: real)
    requires -e <= x <= e && p == x * x && q == e * e
    ensures p <= q
  {
    assert q - p == (e - x) * (e + x);
  }

  lemma SmallNorm(r: real, e: real, q: real)
    requires -e <= r <= e && q == e * e
    ensures Norm2(FromReal(r)) <= q
  {
    hide Norm2;
    Norm2Real(r);
    SquareBound(r, e, Norm2(FromReal(r)), q);
  }

  lemma SmallSamplesSmallEnergy(d: seq<real>, e: real, q: real)
    requires q == e * e && forall j | 0 <= j < |d| :: -e <= d[j] <= e
    ensures Energy(Window(d)) <= Times(|d|, q)
  {
    hide Norm2, Energy, Times;
    forall j | 0 <= j < |d| ensures Norm2(Window(d)[j]) <= q { SmallNorm(d[j], e, q); }
    BoundedEnergy(Window(d), q);
  }

  /** A tone whose squared amplitude exceeds 4*e^2 is reported from samples that are off by
      at most e each. */
  lemma RoundedToneReported(x: seq<real>, y: seq<real>, e: real, w: Cplx, a: seq<Cplx>, c: real, m: nat, r: nat)
    requires PowerOfTwo(|x|) && |x| >= 2 && HalfTurn(w, |x|) && |y| == |x|
    requires IsMix(y, w, a, c) && OnlyTone(a, m)
    requires e >= 0.0 && forall j | 0 <= j < |x| :: -e <= x[j] - y[j] <= e
    requires Norm2(a[m]) > 4.0 * (e * e)
    ensures IsPeak(Spectral(x, w), r) <==> r == m
  {
    hide Energy, Norm2, IsMix, IsPeak, HalfTurn, PowerOfTwo, Spectral;
    SmallSamplesSmallEnergy(Difference(x, y), e, e * e);
    Quarter(|x| as real, Energy(Window(Difference(x, y))), e * e, Norm2(a[m]));
    DisturbedToneReported(x, y, w, a, c, m, r);
  }

  lemma Quarter(n: real, energy: real, q: real, power: real)
    requires n > 0.0 && energy <= n * q && power > 4.0 * q
    ensures 4.0 * energy < n * power
  {
    ProductPositive(n, power - 4.0 * q, n * power - 4.0 * (n * q));
  }

  /** For the task: a window whose left channel is a tone at bin m, with any constant and
      alternation, rounded to the nearest 16-bit samples, is reported as m when the squared
      amplitude exceeds one. */
  lemma SampledToneReported(x: seq<uint16>, l: seq<uint16>, right: seq<uint16>, y: seq<real>, w: Cplx,
          a: seq<Cplx>, c: real, m: nat, r: nat)
    requires |x| == FFT_BUFFER_SIZE && |l| == |right| == |y| == LEFT_CANAL && HalfTurn(w, LEFT_CANAL)
    requires forall j | 0 <= j < LEFT_CANAL :: x[2 * j] == l[j] && x[2 * j + 1] == right[j]
    requires IsMix(y, w, a, c) && OnlyTone(a, m) && Norm2(a[m]) > 1.0
    requires forall j | 0 <= j < LEFT_CANAL :: -0.5 <= l[j] as real - y[j] <= 0.5
    ensures IsPeak(Spectral(Left(x), w), r) <==> r == m
  {
    hide Norm2, IsMix, IsPeak, HalfTurn, Spectral, Left;
    LeftCanalIsPowerOfTwo();
    LeftOfInterleaved(x, l, right);
    RoundedToneReported(Left(x), y, 0.5, w, a, c, m, r);
  }

  /** The whole way from the interleaved samples to the report. */
  method HearTone(x: array<uint16>, buf: array<Cplx>, out: array<Cplx>, power: array<real>, w: Cplx,
          ghost y: seq<real>, ghost a: seq<Cplx>, ghost c: real, ghost m: nat)
    returns (maxIndex: nat, principalFreq: real)
    requires x.Length == FFT_BUFFER_SIZE && buf != out && |y| == LEFT_CANAL
    requires buf.Length == out.Length == power.Length == LEFT_CANAL
    requires HalfTurn(w, LEFT_CANAL)
    requires IsMix(y, w, a, c) && OnlyTone(a, m) && Norm2(a[m]) > 1.0
    requires forall j | 0 <= j < LEFT_CANAL :: -0.5 <= x[2 * j] as real - y[j] <= 0.5
    modifies buf, out, power
    ensures maxIndex == m && principalFreq * 16384.0 == m as real * 48000.0
  {
    hide Norm2, IsMix, IsPeak, HalfTurn, Spectral, Left, Transform;
    ghost var l;
    maxIndex, principalFreq, l := ReportWindow(x, buf, out, power, w);
    LeftCanalIsPowerOfTwo();
    RoundedToneReported(l, y, 0.5, w, a, c, m, maxIndex);
  }
}
