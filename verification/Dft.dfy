/** The discrete Fourier transform as a plain sum, and the radix-2 split of that sum. */
module Dft {
  import opened Complex
  import opened Sums

  function At(x: seq<Cplx>, j: nat): Cplx { if j < |x| then x[j] else ZERO }

  /** The j-th term of bin k. */
  function Term(x: seq<Cplx>, w: Cplx, k: nat): nat -> Cplx {
    (j: nat) => Mul(At(x, j), Pow(w, j * k))
  }

  /** Bin k: the sum over j of x[j] * w^(j*k). */
  function Bin(x: seq<Cplx>, w: Cplx, k: nat): Cplx { Sum(|x|, Term(x, w, k)) }

  function Transform(x: seq<Cplx>, w: Cplx): seq<Cplx> { seq(|x|, (k: nat) => Bin(x, w, k)) }

  ghost predicate PowerOfTwo(n: nat) {
    n == 1 || (n > 1 && n % 2 == 0 && PowerOfTwo(n / 2))
  }

  lemma EvenLength(n: nat)
    requires PowerOfTwo(n) && n >= 2
    ensures n % 2 == 0
  {}

  /** w^(n/2) == -1: what the code's twiddle base exp(-2*pi*I/n) satisfies. */
  ghost predicate HalfTurn(w: Cplx, n: nat) { n >= 2 ==> Pow(w, n / 2) == MINUS_ONE }

  lemma MinusISquared()
    ensures Mul(Cplx(0.0, -1.0), Cplx(0.0, -1.0)) == MINUS_ONE
  {}

  /** For instance exp(-2*pi*I/4) == -I. */
  lemma QuarterTurn()
    ensures HalfTurn(Cplx(0.0, -1.0), 4)
  {
    hide Mul, Pow;
    MinusISquared();
    PowTwo(Cplx(0.0, -1.0));
  }

  /** A single sample is its own transform. */
  lemma TransformOne(x: seq<Cplx>, z: Cplx)
    requires |x| <= 1
    ensures Transform(x, z) == x
  {}

  // ----- radix-2 split -----

  function Evens(x: seq<Cplx>): seq<Cplx> { seq(|x| / 2, (j: nat) => At(x, 2 * j)) }

  function Odds(x: seq<Cplx>): seq<Cplx> { seq(|x| / 2, (j: nat) => At(x, 2 * j + 1)) }

  /** The j-th term of the polynomial with coefficients x, at z. */
  function Monomial(x: seq<Cplx>, z: Cplx): nat -> Cplx {
    (j: nat) => Mul(At(x, j), Pow(z, j))
  }

  function Eval(x: seq<Cplx>, z: Cplx): Cplx { Sum(|x|, Monomial(x, z)) }

  /** Bin k evaluates the samples, as a polynomial, at w^k. */
  lemma BinIsEval(x: seq<Cplx>, w: Cplx, k: nat)
    ensures Bin(x, w, k) == Eval(x, Pow(w, k))
  {
    hide Mul, Pow;
    forall j: nat | j < |x| ensures Term(x, w, k)(j) == Monomial(x, Pow(w, k))(j) {
      PowPow(w, k, j);
      assert k * j == j * k;
    }
    SumExt(|x|, Term(x, w, k), Monomial(x, Pow(w, k)));
  }

  lemma SquarePow(z: Cplx, j: nat)
    ensures Pow(Mul(z, z), j) == Pow(z, 2 * j)
    ensures Mul(z, Pow(Mul(z, z), j)) == Pow(z, 2 * j + 1)
  {
    PowPow(z, 2, j);
    PowTwo(z);
  }

  lemma EvalSplit(x: seq<Cplx>, z: Cplx)
    requires |x| % 2 == 0
    ensures Eval(x, z) == Add(Eval(Evens(x), Mul(z, z)), Mul(z, Eval(Odds(x), Mul(z, z))))
  {
    hide Mul, Add, Pow, Sum;
    var h, y := |x| / 2, Mul(z, z);
    var whole, even, odd := Monomial(x, z), Monomial(Evens(x), y), Monomial(Odds(x), y);
    var turned := Scaled(z, odd);
    forall j: nat | j < h ensures even(j) == whole(2 * j) && turned(j) == whole(2 * j + 1) {
      SquarePow(z, j);
      MulSwap(z, x[2 * j + 1], Pow(y, j));
    }
    SumEvenOdd(h, whole, even, turned);
    SumScaled(h, z, odd);
  }

  /** With an even length and w^(n/2) == -1, the squared root serves both halves. */
  lemma HalfTurnSquare(w: Cplx, n: nat)
    requires n >= 2 && n % 2 == 0 && HalfTurn(w, n)
    ensures Pow(w, n) == ONE
    ensures PowerOfTwo(n) ==> HalfTurn(Pow(w, 2), n / 2)
  {
    hide Mul, Pow;
    PowPow(w, n / 2, 2);
    PowMinusOne(2);
    if PowerOfTwo(n) && n / 2 >= 2 {
      assert PowerOfTwo(n / 2);
      PowPow(w, 2, n / 2 / 2);
      assert 2 * (n / 2 / 2) == n / 2;
    }
  }

  lemma HalfBins(x: seq<Cplx>, w: Cplx, k: nat, z: Cplx)
    requires Mul(z, z) == Pow(w, 2 * k)
    ensures Bin(x, Pow(w, 2), k) == Eval(x, Mul(z, z))
  {
    PowPow(w, 2, k);
    BinIsEval(x, Pow(w, 2), k);
  }

  /** The butterfly: two half-size bins give bins k and k + n/2. */
  lemma Butterfly(x: seq<Cplx>, w: Cplx, k: nat)
    requires |x| >= 2 && |x| % 2 == 0 && HalfTurn(w, |x|) && k < |x| / 2
    ensures
      var e, o := Bin(Evens(x), Pow(w, 2), k), Bin(Odds(x), Pow(w, 2), k);
      && Bin(x, w, k) == Add(e, Mul(Pow(w, k), o))
      && Bin(x, w, k + |x| / 2) == Sub(e, Mul(Pow(w, k), o))
  {
    hide Mul, Pow, Bin, Eval;
    var h, z := |x| / 2, Pow(w, k);
    var u := Pow(w, k + h);
    assert u == Mul(z, MINUS_ONE) by { PowAdd(w, k, h); }
    assert Mul(u, u) == Mul(z, z) by {
      MulMiddle(z, MINUS_ONE, z, MINUS_ONE);
      Units(MINUS_ONE);
      Units(Mul(z, z));
    }
    assert Mul(z, z) == Pow(w, 2 * k) by { PowAdd(w, k, k); }
    HalfBins(Evens(x), w, k, z);
    HalfBins(Odds(x), w, k, z);
    var o := Bin(Odds(x), Pow(w, 2), k);
    BinIsEval(x, w, k);
    EvalSplit(x, z);
    BinIsEval(x, w, k + h);
    EvalSplit(x, u);
    MulComm(z, MINUS_ONE);
    MulAssoc(MINUS_ONE, z, o);
    Units(Mul(z, o));
  }
}
