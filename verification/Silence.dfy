/** Which windows the task hears nothing in: it reports bin 0 exactly on those of period two. */
module Silence {
  import opened Complex
  import opened Sums
  import opened Dft
  import opened Spectrum
  import opened Peak

  /** Every sample is repeated two places later: a constant plus an alternation. */
  ghost predicate PeriodTwo(x: seq<real>) { forall i, j | 0 <= i < j < |x| && j == i + 2 :: x[i] == x[j] }

  // ----- silence forces period two -----

  lemma SumOfTwo(h: nat, f: nat -> Cplx)
    requires h > 0 && forall k | 0 <= k < 2 * h && k != 0 && k != h :: f(k) == ZERO
    ensures Sum(2 * h, f) == Add(f(0), f(h))
  {
    hide Sum, Add;
    var tail := (k: nat) => f(h + k);
    SumConcat(h, h, f, tail);
    SumSingle(h, f, 0);
    SumSingle(h, tail, 0);
  }

  /** What is left of the inverse transform when only bins 0 and n/2 are nonzero. */
  lemma TwoBins(x: seq<Cplx>, w: Cplx, i: nat)
    requires |x| >= 2 && |x| % 2 == 0 && HalfTurn(w, |x|)
    requires forall k | 0 < k < |x| && k != |x| / 2 :: x[k] == ZERO
    ensures Bin(x, w, i) == Add(x[0], Mul(x[|x| / 2], if i % 2 == 0 then ONE else MINUS_ONE))
  {
    hide Mul, Add, Pow, Sum;
    var h, f := |x| / 2, Term(x, w, i);
    forall k: nat | k < 2 * h && k != 0 && k != h ensures f(k) == ZERO { Units(Pow(w, k * i)); }
    SumOfTwo(h, f);
    PowZero(w);
    Units(x[0]);
    PowPow(w, h, i);
    PowMinusOne(i);
    assert 0 * i == 0;
  }

  lemma MirrorParity(n: nat, j: nat)
    requires n % 2 == 0 && j < n
    ensures Mirror(n, Mirror(n, j)) == j && Mirror(n, j) % 2 == j % 2
  {}

  lemma SilentHasPeriodTwo(x: seq<real>, w: Cplx)
    requires PowerOfTwo(|x|) && |x| >= 2 && HalfTurn(w, |x|)
    requires forall k | 0 < k < |x| && k != |x| / 2 :: Bin(Window(x), w, k) == ZERO
    ensures PeriodTwo(x)
  {
    hide Mul, Pow, Bin, HalfTurn, PowerOfTwo;
    var n, y := |x|, Transform(Window(x), w);
    EvenLength(n);
    forall i, j | 0 <= i < j < n && j == i + 2 ensures x[i] == x[j] {
      MirrorParity(n, i);
      MirrorParity(n, j);
      TwiceBin(Window(x), w, Mirror(n, i));
      TwiceBin(Window(x), w, Mirror(n, j));
      TwoBins(y, w, Mirror(n, i));
      TwoBins(y, w, Mirror(n, j));
      ScaleCancel(n as real, Window(x)[i], Window(x)[j]);
    }
  }

  // ----- period two is silent -----

  /** The root has no smaller period than the window. */
  lemma NoShorterPeriod(w: Cplx, n: nat, m: nat)
    requires PowerOfTwo(n) && HalfTurn(w, n) && 0 < m < n
    ensures Pow(w, m) != ONE
  {
    hide *;
    Orthogonal(w, n, m);
    OnesSum(n);
    PositiveIsNotZero(n as real);
  }

  lemma PositiveIsNotZero(r: real)
    requires r > 0.0
    ensures FromReal(r) != ZERO
  {}

  lemma MulLessOne(v: Cplx, b: Cplx)
    ensures Mul(Sub(v, ONE), b) == Sub(Mul(v, b), b)
  {}

  lemma SubZero(a: Cplx, b: Cplx)
    ensures Sub(a, b) == ZERO <==> a == b
  {}

  lemma FixedIsZero(v: Cplx, b: Cplx)
    requires Mul(v, b) == b && v != ONE
    ensures b == ZERO
  {
    hide *;
    var d := Sub(v, ONE);
    MulLessOne(v, b);
    SubZero(v, ONE);
    SubZero(b, b);
    Norm2Mul(d, b);
    Norm2Positive(d);
    Norm2Positive(b);
    if b != ZERO { ProductPositive(Norm2(d), Norm2(b), Norm2(ZERO)); }
  }

  lemma {:induction false} PeriodTwoAt(x: seq<real>, j: nat)
    requires PeriodTwo(x) && j < |x|
    ensures x[j] == x[j % 2]
  {
    if j >= 2 { PeriodTwoAt(x, j - 2); }
  }

  lemma PeriodTwoIsSilent(x: seq<real>, w: Cplx, k: nat)
    requires PowerOfTwo(|x|) && |x| >= 2 && HalfTurn(w, |x|) && PeriodTwo(x) && 0 < k < |x| / 2
    ensures Bin(Window(x), w, k) == ZERO
  {
    hide Mul, Pow, Bin, HalfTurn, PowerOfTwo;
    var n, y := |x|, Window(x);
    var y1 := y[1..] + [y[0]];
    PeriodTwoAt(x, n - 2);
    PeriodTwoAt(x, n - 1);
    EvenLength(n);
    HalfTurnSquare(w, n);
    assert y1[1..] + [y1[0]] == y;
    BinRotateOne(y, w, k);
    BinRotateOne(y1, w, k);
    var u, b := Pow(w, k), Bin(y, w, k);
    MulAssoc(u, u, b);
    PowAdd(w, k, k);
    NoShorterPeriod(w, n, k + k);
    FixedIsZero(Mul(u, u), b);
  }

  /** The task reports bin 0, "nothing heard", exactly on the windows of period two. */
  lemma SilentIffPeriodTwo(x: seq<real>, w: Cplx)
    requires PowerOfTwo(|x|) && |x| >= 2 && HalfTurn(w, |x|)
    ensures IsPeak(Spectral(x, w), 0) <==> PeriodTwo(x)
  {
    hide Bin, Norm2, HalfTurn, PowerOfTwo, PeriodTwo;
    var n, p := |x|, Spectral(x, w);
    EvenLength(n);
    forall k: nat | k < n ensures p[k] == 0.0 <==> Bin(Window(x), w, k) == ZERO {
      Norm2Positive(Bin(Window(x), w, k));
    }
    if IsPeak(p, 0) {
      HalfScanSuffices(x, w, 0);
      SilentHasPeriodTwo(x, w);
    }
    if PeriodTwo(x) {
      forall k | 1 <= k < n / 2 ensures p[k] == 0.0 { PeriodTwoIsSilent(x, w, k); }
    }
  }

  /** A single click is heard in every bin. */
  lemma ClickIsEverywhere(x: seq<real>, w: Cplx, k: nat)
    requires k < |x| && x[0] == 1.0 && forall j | 0 < j < |x| :: x[j] == 0.0
    ensures Spectral(x, w)[k] == 1.0
  {
    hide Mul, Add, Pow, Sum, Norm2;
    var f := Term(Window(x), w, k);
    forall j: nat | j < |x| && j != 0 ensures f(j) == ZERO { Units(Pow(w, j * k)); }
    SumSingle(|x|, f, 0);
    PowZero(w);
    assert 0 * k == 0;
    Units(ONE);
    Norm2One();
  }

  lemma FlatPeak(p: seq<real>)
    requires |p| >= 4 && forall k: nat | k < |p| :: p[k] == 1.0
    ensures IsPeak(p, 1)
  {}

  lemma ClickPeak(x: seq<real>, w: Cplx)
    requires |x| >= 4 && x[0] == 1.0 && forall j | 0 < j < |x| :: x[j] == 0.0
    ensures IsPeak(Spectral(x, w), 1) && !PeriodTwo(x)
  {
    assert x[0] != x[2];
    hide Spectral, IsPeak;
    SpectralLength(x, w);
    forall k: nat | k < |x| ensures Spectral(x, w)[k] == 1.0 { ClickIsEverywhere(x, w, k); }
    FlatPeak(Spectral(x, w));
  }
}
