/** Every real window is a sum of tones and an alternation; the task reports the loudest tone. */
module Tones {
  import opened Complex
  import opened Sums
  import opened Dft
  import opened Spectrum
  import opened Peak

  /** Sample j of the tone at bin m with complex amplitude a[m]. */
  function ToneTerm(w: Cplx, a: seq<Cplx>, j: nat): nat -> Cplx {
    (m: nat) => Add(Mul(At(a, m), Pow(w, j * m)), Conj(Mul(At(a, m), Pow(w, j * m))))
  }

  /** Sample j of the sum of the tones at bins 0 .. |a|-1. */
  function Mix(w: Cplx, a: seq<Cplx>, j: nat): Cplx { Sum(|a|, ToneTerm(w, a, j)) }

  /** A constant that changes sign from sample to sample: the tone at bin n/2. */
  function Alternating(c: real, j: nat): real { if j % 2 == 0 then c else -c }

  /** x is the sum of the tones a and the alternation c; a[0] is its constant part. */
  ghost predicate IsMix(x: seq<real>, w: Cplx, a: seq<Cplx>, c: real) {
    && |x| == 2 * |a|
    && forall j: nat | j < |x| :: FromReal(x[j]) == Add(Mix(w, a, j), FromReal(Alternating(c, j)))
  }

  /** What the tone at bin m puts into sample j of bin k. */
  function Share(n: nat, w: Cplx, a: seq<Cplx>, k: nat): (nat, nat) -> Cplx
    requires |a| <= n
  {
    (j: nat, m: nat) =>
      if m < |a| then
        Add(Mul(a[m], Powers(Pow(w, m + k))(j)), Mul(Conj(a[m]), Powers(Pow(w, n - m + k))(j)))
      else
        ZERO
  }

  lemma RootsMultiply(w: Cplx, p: nat, q: nat, j: nat)
    ensures Mul(Pow(Pow(w, p), j), Pow(Pow(w, q), j)) == Pow(Pow(w, p + q), j)
  {
    hide *;
    PowPow(w, p, j);
    PowPow(w, q, j);
    PowPow(w, p + q, j);
    PowAdd(w, p * j, q * j);
    assert p * j + q * j == (p + q) * j;
  }

  lemma ConjRootPow(w: Cplx, n: nat, m: nat, j: nat)
    requires n >= 2 && n % 2 == 0 && HalfTurn(w, n) && m <= n
    ensures Conj(Pow(w, j * m)) == Pow(Pow(w, n - m), j)
  {
    hide *;
    ConjRoot(w, n, m);
    PowPow(w, m, j);
    assert m * j == j * m;
    PowConj(Pow(w, m), j);
  }

  lemma {:induction false} ToneShare(n: nat, w: Cplx, a: seq<Cplx>, k: nat, j: nat, m: nat)
    requires n >= 2 && n % 2 == 0 && HalfTurn(w, n) && m < |a| <= n
    ensures Mul(Pow(Pow(w, k), j), ToneTerm(w, a, j)(m)) == Share(n, w, a, k)(j, m)
  {
    hide Mul, Add, Conj, Pow, HalfTurn;
    var c, u := Pow(Pow(w, k), j), Pow(w, j * m);
    ConjMul(a[m], u);
    MulAdd(c, Mul(a[m], u), Mul(Conj(a[m]), Conj(u)));
    MulSwap(c, a[m], u);
    MulSwap(c, Conj(a[m]), Conj(u));
    MulComm(c, u);
    MulComm(c, Conj(u));
    ConjRootPow(w, n, m, j);
    RootsMultiply(w, m, k, j);
    RootsMultiply(w, n - m, k, j);
    PowPow(w, m, j);
    assert m * j == j * m;
  }

  /** What sample j of the tones contributes to bin k. */
  function ToneMonomial(w: Cplx, a: seq<Cplx>, k: nat): nat -> Cplx {
    (j: nat) => Mul(Mix(w, a, j), Powers(Pow(w, k))(j))
  }

  lemma ShareRow(n: nat, w: Cplx, a: seq<Cplx>, k: nat, j: nat)
    requires n >= 2 && n % 2 == 0 && HalfTurn(w, n) && |a| <= n
    ensures Sum(|a|, Row(Share(n, w, a, k), j)) == ToneMonomial(w, a, k)(j)
  {
    hide Mul, Add, Conj, Pow, HalfTurn, Sum;
    var c, row := Pow(Pow(w, k), j), Row(Share(n, w, a, k), j);
    forall m: nat | m < |a| ensures row(m) == Scaled(c, ToneTerm(w, a, j))(m) {
      ToneShare(n, w, a, k, j, m);
    }
    SumExt(|a|, row, Scaled(c, ToneTerm(w, a, j)));
    SumScaled(|a|, c, ToneTerm(w, a, j));
    MulComm(c, Mix(w, a, j));
    assert Powers(Pow(w, k))(j) == c;
    assert ToneMonomial(w, a, k)(j) == Mul(Mix(w, a, j), c);
  }

  /** The tones' part of bin k of a window of n samples. */
  function TonePart(n: nat, a: seq<Cplx>, k: nat): Cplx {
    if k >= |a| then ZERO
    else Mul(if k == 0 then Add(a[0], Conj(a[0])) else Conj(a[k]), FromReal(n as real))
  }

  lemma ShareColumn(n: nat, w: Cplx, a: seq<Cplx>, k: nat, m: nat)
    requires PowerOfTwo(n) && n >= 2 && HalfTurn(w, n) && 2 * |a| == n && m < |a| && k <= |a|
    ensures Sum(n, Row(Flip(Share(n, w, a, k)), m)) == if m == k then TonePart(n, a, k) else ZERO
  {
    hide Mul, Add, Conj, Pow, HalfTurn, Sum, PowerOfTwo;
    var f, g := Scaled(a[m], Powers(Pow(w, m + k))), Scaled(Conj(a[m]), Powers(Pow(w, n - m + k)));
    forall j: nat | j < n ensures Row(Flip(Share(n, w, a, k)), m)(j) == Plus(f, g)(j) {
      assert Flip(Share(n, w, a, k))(m, j) == Share(n, w, a, k)(j, m);
    }
    SumExt(n, Row(Flip(Share(n, w, a, k)), m), Plus(f, g));
    SumPlus(n, f, g);
    SumScaled(n, a[m], Powers(Pow(w, m + k)));
    SumScaled(n, Conj(a[m]), Powers(Pow(w, n - m + k)));
    RootSum(w, n, m + k);
    RootSum(w, n, n - m + k);
    Units(a[m]);
    Units(Conj(a[m]));
    MulAdd(FromReal(n as real), a[m], Conj(a[m]));
    AddZero(Mul(Conj(a[m]), FromReal(n as real)));
    AddZero(ZERO);
  }

  lemma TonesTogether(n: nat, w: Cplx, a: seq<Cplx>, k: nat)
    requires PowerOfTwo(n) && n >= 2 && HalfTurn(w, n) && 2 * |a| == n && k <= |a|
    ensures Sum(n, ToneMonomial(w, a, k)) == TonePart(n, a, k)
  {
    hide Mul, Add, Conj, Pow, HalfTurn, Sum, PowerOfTwo;
    EvenLength(n);
    var t := Share(n, w, a, k);
    forall j: nat | j < n ensures ToneMonomial(w, a, k)(j) == Rows(|a|, t)(j) { ShareRow(n, w, a, k, j); }
    SumExt(n, ToneMonomial(w, a, k), Rows(|a|, t));
    SumSwap(n, |a|, t);
    forall m: nat | m < |a| ensures Rows(n, Flip(t))(m) == (if m == k then TonePart(n, a, k) else ZERO) {
      ShareColumn(n, w, a, k, m);
    }
    SumSingle(|a|, Rows(n, Flip(t)), k);
  }

  lemma AlternatingTerm(n: nat, w: Cplx, c: real, k: nat, j: nat)
    requires n >= 2 && HalfTurn(w, n)
    ensures Mul(FromReal(Alternating(c, j)), Pow(Pow(w, k), j)) == Mul(FromReal(c), Pow(Pow(w, n / 2 + k), j))
  {
    hide Mul, Pow;
    var z := Pow(Pow(w, k), j);
    RootsMultiply(w, n / 2, k, j);
    PowMinusOne(j);
    Units(z);
    SignMoves(c, z);
  }

  lemma SignMoves(c: real, z: Cplx)
    ensures Mul(FromReal(-c), z) == Mul(FromReal(c), Mul(MINUS_ONE, z))
  {}

  /** Bin k <= n/2 of a mix: its own tone, or the alternation at n/2, and nothing else. */
  lemma BinOfMix(x: seq<real>, w: Cplx, a: seq<Cplx>, c: real, k: nat)
    requires PowerOfTwo(|x|) && |x| >= 2 && HalfTurn(w, |x|) && IsMix(x, w, a, c) && k <= |a|
    ensures Bin(Window(x), w, k)
         == if k == |a| then Mul(FromReal(c), FromReal(|x| as real)) else TonePart(|x|, a, k)
  {
    hide Mul, Add, Conj, Pow, HalfTurn, Sum, PowerOfTwo, Mix, Alternating, TonePart;
    var n, h, z := |x|, |a|, Pow(w, k);
    BinIsEval(Window(x), w, k);
    var f, g := ToneMonomial(w, a, k), Scaled(FromReal(c), Powers(Pow(w, h + k)));
    forall j: nat | j < n ensures Monomial(Window(x), z)(j) == Plus(f, g)(j) {
      assert Window(x)[j] == Add(Mix(w, a, j), FromReal(Alternating(c, j)));
      MulAdd(Pow(z, j), Mix(w, a, j), FromReal(Alternating(c, j)));
      assert Powers(z)(j) == Pow(z, j);
      assert f(j) == Mul(Mix(w, a, j), Pow(z, j));
      assert g(j) == Mul(FromReal(c), Pow(Pow(w, h + k), j));
      AlternatingTerm(n, w, c, k, j);
    }
    SumExt(n, Monomial(Window(x), z), Plus(f, g));
    SumPlus(n, f, g);
    SumScaled(n, FromReal(c), Powers(Pow(w, h + k)));
    RootSum(w, n, h + k);
    Units(FromReal(c));
    TonesTogether(n, w, a, k);
    NoTonePart(n, a);
    AddZero(Sum(n, f));
    AddZero(Mul(FromReal(c), FromReal(n as real)));
  }

  lemma NoTonePart(n: nat, a: seq<Cplx>)
    ensures TonePart(n, a, |a|) == ZERO
  {}

  function Loudness(a: seq<Cplx>): seq<real> { seq(2 * |a|, (m: nat) => Norm2(At(a, m))) }

  /** On any mix the task reports the first loudest tone; constant and alternation are not heard. */
  lemma {:induction false} LoudestToneReported(x: seq<real>, w: Cplx, a: seq<Cplx>, c: real, r: nat)
    requires PowerOfTwo(|x|) && |x| >= 2 && HalfTurn(w, |x|) && IsMix(x, w, a, c)
    ensures IsPeak(Spectral(x, w), r) <==> IsPeak(Loudness(a), r)
  {
    hide Norm2, Mul, Bin, Pow, Conj, HalfTurn, PowerOfTwo, IsPeak, IsMix;
    var n := |x| as real;
    MixLength(x, w, a, c);
    forall k | 1 <= k < |a| ensures Spectral(x, w)[k] == (n * n) * Loudness(a)[k] {
      BinOfMix(x, w, a, c, k);
      Norm2Mul(Conj(a[k]), FromReal(n));
      Norm2Conj(a[k]);
      Norm2Real(n);
    }
    SquarePositive(n, n * n);
    PeakScaled(Loudness(a), Spectral(x, w), n * n, r);
  }

  lemma MixLength(x: seq<real>, w: Cplx, a: seq<Cplx>, c: real)
    requires IsMix(x, w, a, c)
    ensures |x| == 2 * |a|
  {}

  /** A single tone at bin m, among a constant and an alternation. */
  predicate OnlyTone(a: seq<Cplx>, m: nat) {
    0 < m < |a| && a[m] != ZERO && forall i | 0 < i < |a| && i != m :: a[i] == ZERO
  }

  lemma LoudnessOfOne(a: seq<Cplx>, m: nat)
    requires OnlyTone(a, m)
    ensures IsPeak(Loudness(a), m)
  {
    hide Norm2;
    Norm2Positive(a[m]);
  }

  /** In particular a single tone at bin m is reported as m, and only as m. */
  lemma ToneReported(x: seq<real>, w: Cplx, a: seq<Cplx>, c: real, m: nat, r: nat)
    requires PowerOfTwo(|x|) && |x| >= 2 && HalfTurn(w, |x|) && IsMix(x, w, a, c) && OnlyTone(a, m)
    ensures IsPeak(Spectral(x, w), r) <==> r == m
  {
    hide *;
    LoudestToneReported(x, w, a, c, r);
    LoudnessOfOne(a, m);
    if IsPeak(Loudness(a), r) { PeakUnique(Loudness(a), r, m); }
  }
}
