/** The peak of a power spectrum, as the audio treatment task looks for it. */
module Peak {
  import opened Complex
  import opened Sums
  import opened Dft
  import opened Spectrum

  /** Real samples as the task stores them in its complex buffer. */
  function Window(x: seq<real>): seq<Cplx> { seq(|x|, (j: nat) requires j < |x| => FromReal(x[j])) }

  /** The power of every bin of a window. */
  function Spectral(x: seq<real>, w: Cplx): seq<real> {
    seq(|x|, (k: nat) => Norm2(Bin(Window(x), w, k)))
  }

  /** r is what the scan over bins 1 .. n/2-1 reports: the first bin of greatest power,
      or 0 when every scanned bin is silent. */
  ghost predicate IsPeak(p: seq<real>, r: nat) {
    if r == 0 then
      forall i | 1 <= i < |p| / 2 :: p[i] <= 0.0
    else
      && r < |p| / 2
      && p[r] > 0.0
      && (forall i | 1 <= i < r :: p[i] < p[r])
      && (forall i | 1 <= i < |p| / 2 :: p[i] <= p[r])
  }

  lemma PeakUnique(p: seq<real>, r: nat, s: nat)
    requires IsPeak(p, r) && IsPeak(p, s)
    ensures r == s
  {}

  // ----- real windows -----

  /** Conjugate roots: on the unit circle, w^(n-m) is the conjugate of w^m. */
  lemma ConjRoot(w: Cplx, n: nat, m: nat)
    requires n >= 2 && n % 2 == 0 && HalfTurn(w, n) && m <= n
    ensures Conj(Pow(w, m)) == Pow(w, n - m)
  {
    var u, v := Pow(w, m), Pow(w, n - m);
    HalfTurnSquare(w, n);
    RootModulus(w, n);
    hide *;
    PowAdd(w, m, n - m);
    Norm2Conj(u);
    MulAssoc(Conj(u), u, v);
    Units(Conj(u));
    UnitReal(v);
  }

  lemma UnitReal(v: Cplx)
    ensures Mul(FromReal(1.0), v) == v
  {}

  lemma EvalConj(x: seq<real>, z: Cplx)
    ensures Eval(Window(x), Conj(z)) == Conj(Eval(Window(x), z))
  {
    hide Mul, Pow, Sum;
    forall j: nat | j < |x| ensures Monomial(Window(x), Conj(z))(j) == Conj(Monomial(Window(x), z)(j)) {
      PowConj(z, j);
      ConjMul(FromReal(x[j]), Pow(z, j));
      ConjReal(x[j]);
    }
    SumConj(|x|, Monomial(Window(x), z), Monomial(Window(x), Conj(z)));
  }

  lemma ConjReal(r: real)
    ensures Conj(FromReal(r)) == FromReal(r)
  {}

  /** The upper half of the spectrum mirrors the lower half. */
  lemma ConjSymmetry(x: seq<real>, w: Cplx, k: nat)
    requires |x| >= 2 && |x| % 2 == 0 && HalfTurn(w, |x|) && k <= |x|
    ensures Bin(Window(x), w, |x| - k) == Conj(Bin(Window(x), w, k))
  {
    hide *;
    BinIsEval(Window(x), w, k);
    BinIsEval(Window(x), w, |x| - k);
    ConjRoot(w, |x|, k);
    EvalConj(x, Pow(w, k));
  }

  lemma PowerMirror(x: seq<real>, w: Cplx, k: nat)
    requires |x| >= 2 && |x| % 2 == 0 && HalfTurn(w, |x|) && 0 < k < |x|
    ensures Spectral(x, w)[|x| - k] == Spectral(x, w)[k] >= 0.0
  {
    hide *;
    SpectralAt(x, w, k);
    SpectralAt(x, w, |x| - k);
    ConjSymmetry(x, w, k);
    Norm2Conj(Bin(Window(x), w, k));
    Norm2Positive(Bin(Window(x), w, k));
  }

  lemma SpectralLength(x: seq<real>, w: Cplx)
    ensures |Spectral(x, w)| == |x|
  {}

  lemma SpectralAt(x: seq<real>, w: Cplx, k: nat)
    requires k < |x|
    ensures |Spectral(x, w)| == |x| && Spectral(x, w)[k] == Norm2(Bin(Window(x), w, k))
  {}

  /** Scanning half the bins is enough: the reported bin is at least as strong as every
      bin except DC and Nyquist, and 0 is reported exactly when all of those are silent. */
  lemma HalfScanSuffices(x: seq<real>, w: Cplx, r: nat)
    requires |x| >= 2 && |x| % 2 == 0 && HalfTurn(w, |x|)
    requires IsPeak(Spectral(x, w), r)
    ensures forall k | 0 < k < |x| && k != |x| / 2 && r != 0 :: Spectral(x, w)[k] <= Spectral(x, w)[r]
    ensures r == 0 <==> forall k | 0 < k < |x| && k != |x| / 2 :: Spectral(x, w)[k] == 0.0
  {
    var p, n := Spectral(x, w), |x|;
    assert |p| == n;
    hide Spectral, HalfTurn;
    forall k: nat | 0 < k < n && k != n / 2
      ensures r != 0 ==> p[k] <= p[r]
      ensures r == 0 ==> p[k] == 0.0
    {
      var l := if k < n / 2 then k else n - k;
      PowerMirror(x, w, k);
      assert 1 <= l < n / 2 && p[l] == p[k];
    }
  }

  // ----- changes of the window that do not move the peak -----

  /** The peak depends on the scanned powers only up to a common positive factor. */
  lemma PeakScaled(p: seq<real>, q: seq<real>, f: real, r: nat)
    requires |p| == |q| && f > 0.0
    requires forall i | 1 <= i < |p| / 2 :: q[i] == f * p[i]
    ensures IsPeak(p, r) <==> IsPeak(q, r)
  {}

  /** Adding a constant to every sample leaves every scanned bin as it was. */
  lemma BinDc(x: seq<Cplx>, y: seq<Cplx>, w: Cplx, c: Cplx, k: nat)
    requires PowerOfTwo(|x|) && |x| >= 2 && HalfTurn(w, |x|) && 0 < k < |x| == |y|
    requires forall j | 0 <= j < |x| :: y[j] == Add(x[j], c)
    ensures Bin(y, w, k) == Bin(x, w, k)
  {
    hide Mul, Add, Pow, Sum, HalfTurn, PowerOfTwo;
    var n, z := |x|, Pow(w, k);
    BinIsEval(x, w, k);
    BinIsEval(y, w, k);
    var f, g := Monomial(x, z), Scaled(c, Powers(z));
    forall j: nat | j < n ensures Monomial(y, z)(j) == Plus(f, g)(j) {
      MulAdd(Pow(z, j), x[j], c);
    }
    SumExt(n, Monomial(y, z), Plus(f, g));
    SumPlus(n, f, g);
    SumScaled(n, c, Powers(z));
    Orthogonal(w, n, k);
    Units(c);
    AddZero(Sum(n, f));
  }

  /** Rotating the window by one multiplies bin k by a unit. */
  lemma BinRotateOne(x: seq<Cplx>, w: Cplx, k: nat)
    requires |x| >= 1 && Pow(w, |x|) == ONE
    ensures Mul(Pow(w, k), Bin(x[1..] + [x[0]], w, k)) == Bin(x, w, k)
  {
    hide Mul, Add, Pow, Sum;
    var n, z, y := |x|, Pow(w, k), x[1..] + [x[0]];
    BinIsEval(x, w, k);
    BinIsEval(y, w, k);
    var f, g := Monomial(x, z), Scaled(z, Monomial(y, z));
    SumScaled(n, z, Monomial(y, z));
    forall j: nat | j < n - 1 ensures g(j) == f(1 + j) {
      PowNext(z, j);
      MulSwap(z, y[j], Pow(z, j));
    }
    SumConcat(1, n - 1, f, g);
    SumEnds(n - 1, f, g);
    assert g(n - 1) == f(0) by {
      PowNext(z, n - 1);
      MulSwap(z, x[0], Pow(z, n - 1));
      PowPow(w, k, n);
      PowPow(w, n, k);
      PowOne(k);
      assert k * n == n * k;
      PowZero(z);
    }
    AddComm(f(0), Sum(n - 1, g));
  }

  lemma PowNext(z: Cplx, j: nat)
    ensures Mul(z, Pow(z, j)) == Pow(z, j + 1)
  {}

  lemma AddComm(a: Cplx, b: Cplx)
    ensures Add(a, b) == Add(b, a)
  {}

  lemma SumEnds(m: nat, f: nat -> Cplx, g: nat -> Cplx)
    ensures Sum(1, f) == f(0)
    ensures Sum(m + 1, g) == Add(Sum(m, g), g(m))
  {}

  function Rotate(x: seq<real>, s: nat): seq<real>
    requires s <= |x|
  {
    x[s..] + x[..s]
  }

  lemma {:induction false} RotatePower(x: seq<real>, w: Cplx, s: nat, k: nat)
    requires |x| >= 2 && |x| % 2 == 0 && HalfTurn(w, |x|) && s <= |x| && k < |x|
    ensures Spectral(Rotate(x, s), w)[k] == Spectral(x, w)[k]
  {
    if s == 0 {
      assert Rotate(x, 0) == x;
    } else {
      var y, z := Rotate(x, s - 1), Rotate(x, s);
      RotatePower(x, w, s - 1, k);
      HalfTurnSquare(w, |x|);
      RootModulus(w, |x|);
      hide Mul, Norm2, Pow, Bin, HalfTurn;
      assert Window(z) == Window(y)[1..] + [Window(y)[0]];
      BinRotateOne(Window(y), w, k);
      Norm2Mul(Pow(w, k), Bin(Window(z), w, k));
    }
  }

  /** The report does not change when a constant is added to all samples ... */
  lemma PeakIgnoresOffset(x: seq<real>, c: real, w: Cplx, r: nat)
    requires PowerOfTwo(|x|) && |x| >= 2 && HalfTurn(w, |x|)
    ensures IsPeak(Spectral(x, w), r) <==> IsPeak(Spectral(seq(|x|, (j: nat) requires j < |x| => x[j] + c), w), r)
  {
    var y := seq(|x|, (j: nat) requires j < |x| => x[j] + c);
    forall k | 1 <= k < |x| / 2 ensures Spectral(y, w)[k] == 1.0 * Spectral(x, w)[k] {
      BinDc(Window(x), Window(y), w, FromReal(c), k);
    }
    PeakScaled(Spectral(x, w), Spectral(y, w), 1.0, r);
  }

  /** ... nor when the window is rotated ... */
  lemma PeakIgnoresRotation(x: seq<real>, s: nat, w: Cplx, r: nat)
    requires |x| >= 2 && |x| % 2 == 0 && HalfTurn(w, |x|) && s <= |x|
    ensures IsPeak(Spectral(x, w), r) <==> IsPeak(Spectral(Rotate(x, s), w), r)
  {
    forall k | 1 <= k < |x| / 2 ensures Spectral(Rotate(x, s), w)[k] == 1.0 * Spectral(x, w)[k] {
      RotatePower(x, w, s, k);
    }
    PeakScaled(Spectral(x, w), Spectral(Rotate(x, s), w), 1.0, r);
  }

  /** ... nor when all samples are multiplied by the same nonzero number. */
  lemma {:induction false} PeakIgnoresGain(x: seq<real>, c: real, w: Cplx, r: nat)
    requires c != 0.0
    ensures IsPeak(Spectral(x, w), r) <==> IsPeak(Spectral(seq(|x|, (j: nat) requires j < |x| => c * x[j]), w), r)
  {
    hide IsPeak, Norm2, Bin, Spectral;
    var y := seq(|x|, (j: nat) requires j < |x| => c * x[j]);
    SpectralLength(x, w);
    SpectralLength(y, w);
    forall k | 1 <= k < |x| / 2 ensures Spectral(y, w)[k] == (c * c) * Spectral(x, w)[k] {
      SpectralAt(x, w, k);
      SpectralAt(y, w, k);
      BinGain(x, y, c, w, k);
    }
    SquarePositive(c, c * c);
    PeakScaled(Spectral(x, w), Spectral(y, w), c * c, r);
  }

  lemma BinGain(x: seq<real>, y: seq<real>, c: real, w: Cplx, k: nat)
    requires |x| == |y| && forall j | 0 <= j < |x| :: y[j] == c * x[j]
    ensures Norm2(Bin(Window(y), w, k)) == (c * c) * Norm2(Bin(Window(x), w, k))
  {
    hide Mul, Pow, Sum, Norm2;
    BinIsEval(Window(x), w, k);
    BinIsEval(Window(y), w, k);
    var z := Pow(w, k);
    var f, g := Monomial(Window(x), z), Monomial(Window(y), z);
    forall j: nat | j < |x| ensures g(j) == Scaled(FromReal(c), f)(j) {
      RealMul(c, x[j]);
      assert Window(y)[j] == Mul(FromReal(c), Window(x)[j]);
      MulAssoc(FromReal(c), FromReal(x[j]), Pow(z, j));
    }
    SumExt(|x|, g, Scaled(FromReal(c), f));
    SumScaled(|x|, FromReal(c), f);
    Norm2Mul(FromReal(c), Bin(Window(x), w, k));
    Norm2Real(c);
  }

  lemma RealMul(a: real, b: real)
    ensures Mul(FromReal(a), FromReal(b)) == FromReal(a * b)
  {}

  lemma Norm2Real(c: real)
    ensures Norm2(FromReal(c)) == c * c
  {}
}
