/** What the transform does to a whole window: orthogonality, inversion, energy, symmetry. */
module Spectrum {
  import opened Complex
  import opened Sums
  import opened Dft

  // ----- orthogonality of the powers of the root -----

  function Powers(z: Cplx): nat -> Cplx { (k: nat) => Pow(z, k) }

  /** The first 2h powers sum to (1 + z^h) times the first h. */
  lemma PowerSumDoubles(z: Cplx, h: nat)
    ensures Sum(2 * h, Powers(z)) == Mul(Add(ONE, Pow(z, h)), Sum(h, Powers(z)))
  {
    hide Mul, Add, Pow, Sum;
    var tail := Scaled(Pow(z, h), Powers(z));
    forall j: nat | j < h ensures tail(j) == Powers(z)(h + j) { PowAdd(z, h, j); }
    SumConcat(h, h, Powers(z), tail);
    SumScaled(h, Pow(z, h), Powers(z));
    MulAdd(Sum(h, Powers(z)), ONE, Pow(z, h));
    Units(Sum(h, Powers(z)));
  }

  /** Over a full window the powers of w^m cancel, unless m is zero. */
  lemma {:induction false} Orthogonal(w: Cplx, n: nat, m: nat)
    requires PowerOfTwo(n) && HalfTurn(w, n) && 0 < m < n
    ensures Sum(n, Powers(Pow(w, m))) == ZERO
    decreases n
  {
    hide Mul, Add, Sum, Pow;
    var h, z := n / 2, Pow(w, m);
    PowerSumDoubles(z, h);
    if m % 2 == 0 {
      HalfTurnSquare(w, n);
      Orthogonal(Pow(w, 2), h, m / 2);
      PowPow(w, 2, m / 2);
      Units(Add(ONE, Pow(z, h)));
    } else {
      PowPow(w, m, h);
      PowPow(w, h, m);
      PowMinusOne(m);
      assert m * h == h * m;
      assert Pow(z, h) == MINUS_ONE;
      OneMinusOne();
      Units(Sum(h, Powers(z)));
    }
  }

  lemma OneMinusOne()
    ensures Add(ONE, MINUS_ONE) == ZERO
  {}

  /** The sum of (w^m)^k over a window: n when m is a whole number of turns, else 0. */
  lemma {:induction false} RootSum(w: Cplx, n: nat, m: nat)
    requires PowerOfTwo(n) && n >= 2 && HalfTurn(w, n) && m < 2 * n
    ensures Sum(n, Powers(Pow(w, m))) == if m == 0 || m == n then FromReal(n as real) else ZERO
  {
    assert n % 2 == 0;
    hide *;
    HalfTurnSquare(w, n);
    if m == 0 || m == n {
      PowZero(w);
      OnesSum(n);
    } else if m < n {
      Orthogonal(w, n, m);
    } else {
      PowWrap(w, n, m - n);
      Orthogonal(w, n, m - n);
    }
  }

  /** Exponents of the root count modulo the window length. */
  lemma PowWrap(w: Cplx, n: nat, e: nat)
    requires Pow(w, n) == ONE
    ensures Pow(w, n + e) == Pow(w, e)
  {
    hide Mul, Pow;
    PowAdd(w, n, e);
    Units(Pow(w, e));
  }

  lemma OnesSum(n: nat)
    ensures Sum(n, Powers(ONE)) == FromReal(n as real)
  {
    hide Mul, Pow, Sum;
    forall k: nat | k < n ensures Powers(ONE)(k) == ONE { PowOne(k); }
    SumConst(n, Powers(ONE), ONE);
    Units(FromReal(n as real));
  }

  lemma PowZero(w: Cplx)
    ensures Pow(w, 0) == ONE
  {}

  // ----- inversion -----

  /** Summed over k then i, x[i] * w^(i*k) * w^(k*j) is bin j of the transformed window. */
  function TwiceTerm(x: seq<Cplx>, w: Cplx, j: nat): (nat, nat) -> Cplx {
    (k: nat, i: nat) => Mul(At(x, i), Powers(Pow(w, i + j))(k))
  }

  lemma TwiceRow(x: seq<Cplx>, w: Cplx, j: nat, k: nat)
    requires k < |x|
    ensures Sum(|x|, Row(TwiceTerm(x, w, j), k)) == Term(Transform(x, w), w, j)(k)
  {
    hide Mul, Pow, Sum;
    var c := Pow(w, k * j);
    forall i: nat | i < |x| ensures Row(TwiceTerm(x, w, j), k)(i) == Scaled(c, Term(x, w, k))(i) {
      RootProduct(w, i, j, k);
      MulSwap(c, x[i], Pow(w, i * k));
    }
    SumExt(|x|, Row(TwiceTerm(x, w, j), k), Scaled(c, Term(x, w, k)));
    SumScaled(|x|, c, Term(x, w, k));
    MulComm(c, Bin(x, w, k));
  }

  lemma RootProduct(w: Cplx, i: nat, j: nat, k: nat)
    ensures Pow(Pow(w, i + j), k) == Mul(Pow(w, k * j), Pow(w, i * k))
  {
    hide Mul, Pow;
    PowPow(w, i + j, k);
    assert (i + j) * k == k * j + i * k;
    PowAdd(w, k * j, i * k);
  }

  lemma TwiceColumn(x: seq<Cplx>, w: Cplx, j: nat, i: nat)
    requires PowerOfTwo(|x|) && |x| >= 2 && HalfTurn(w, |x|) && i < |x| && j < |x|
    ensures Sum(|x|, Row(Flip(TwiceTerm(x, w, j)), i))
         == if i + j == 0 || i + j == |x| then Mul(FromReal(|x| as real), x[i]) else ZERO
  {
    hide Mul, Pow, Sum, PowerOfTwo, HalfTurn;
    var powers := Powers(Pow(w, i + j));
    forall k: nat | k < |x| ensures Row(Flip(TwiceTerm(x, w, j)), i)(k) == Scaled(x[i], powers)(k) {
      assert Flip(TwiceTerm(x, w, j))(i, k) == TwiceTerm(x, w, j)(k, i);
    }
    SumExt(|x|, Row(Flip(TwiceTerm(x, w, j)), i), Scaled(x[i], powers));
    SumScaled(|x|, x[i], powers);
    RootSum(w, |x|, i + j);
    MulComm(x[i], FromReal(|x| as real));
    Units(x[i]);
  }

  /** The position that the transform, applied twice, sends position j to. */
  function Mirror(n: nat, j: nat): nat
    requires j < n
  {
    if j == 0 then 0 else n - j
  }

  lemma TwiceBin(x: seq<Cplx>, w: Cplx, j: nat)
    requires PowerOfTwo(|x|) && |x| >= 2 && HalfTurn(w, |x|) && j < |x|
    ensures Bin(Transform(x, w), w, j) == Mul(FromReal(|x| as real), x[Mirror(|x|, j)])
  {
    hide Mul, Pow, Sum, PowerOfTwo, HalfTurn;
    var n, t := |x|, TwiceTerm(x, w, j);
    forall k: nat | k < n ensures Term(Transform(x, w), w, j)(k) == Rows(n, t)(k) { TwiceRow(x, w, j, k); }
    SumExt(n, Term(Transform(x, w), w, j), Rows(n, t));
    SumSwap(n, n, t);
    forall i: nat | i < n && i != Mirror(n, j) ensures Rows(n, Flip(t))(i) == ZERO { TwiceColumn(x, w, j, i); }
    TwiceColumn(x, w, j, Mirror(n, j));
    SumSingle(n, Rows(n, Flip(t)), Mirror(n, j));
  }

  /** Running the transform on its own output gives the window back, mirrored and scaled. */
  lemma TransformTwice(x: seq<Cplx>, w: Cplx)
    requires PowerOfTwo(|x|) && HalfTurn(w, |x|)
    ensures forall j: nat | j < |x| ::
      Transform(Transform(x, w), w)[j] == Mul(FromReal(|x| as real), x[Mirror(|x|, j)])
  {
    hide Mul, Pow;
    if |x| == 1 {
      TransformOne(x, w);
      Units(x[0]);
    } else {
      forall j: nat | j < |x| ensures Transform(Transform(x, w), w)[j] == Mul(FromReal(|x| as real), x[Mirror(|x|, j)]) {
        TwiceBin(x, w, j);
      }
    }
  }

  /** Hence no information is lost: two windows with the same spectrum are equal. */
  lemma TransformInjective(x: seq<Cplx>, y: seq<Cplx>, w: Cplx)
    requires PowerOfTwo(|x|) && HalfTurn(w, |x|)
    requires |y| == |x| && Transform(x, w) == Transform(y, w)
    ensures x == y
  {
    hide Mul, Pow, Transform;
    var n := |x|;
    TransformTwice(x, w);
    TransformTwice(y, w);
    forall j: nat | j < n ensures x[j] == y[j] {
      var i := Mirror(n, j);
      assert Mirror(n, i) == j;
      assert Mul(FromReal(n as real), x[Mirror(n, i)]) == Mul(FromReal(n as real), y[Mirror(n, i)]);
      ScaleCancel(n as real, x[j], y[j]);
    }
  }

  lemma ScaleCancel(r: real, a: Cplx, b: Cplx)
    requires r > 0.0 && Mul(FromReal(r), a) == Mul(FromReal(r), b)
    ensures a == b
  {}

  // ----- modulus of the root -----

  function RealPow(r: real, e: nat): real { if e == 0 then 1.0 else r * RealPow(r, e - 1) }

  lemma {:induction false} Norm2Pow(w: Cplx, e: nat)
    ensures Norm2(Pow(w, e)) == RealPow(Norm2(w), e)
  {
    hide Mul, Norm2;
    if e == 0 {
      assert Norm2(ONE) == 1.0 by { Norm2One(); }
    } else {
      Norm2Pow(w, e - 1);
      Norm2Mul(w, Pow(w, e - 1));
    }
  }

  lemma Norm2One()
    ensures Norm2(ONE) == 1.0 == Norm2(MINUS_ONE)
  {}

  /** A nonnegative number with a power equal to one is one. */
  lemma {:induction false} RealPowOrder(r: real, e: nat)
    requires r >= 0.0 && e >= 1
    ensures r < 1.0 ==> 0.0 <= RealPow(r, e) < 1.0
    ensures r > 1.0 ==> RealPow(r, e) > 1.0
  {
    if e == 1 {
      assert RealPow(r, 1) == r * RealPow(r, 0);
    } else {
      RealPowOrder(r, e - 1);
      ProductOrder(r, RealPow(r, e - 1), RealPow(r, e));
    }
  }

  lemma ProductOrder(r: real, q: real, p: real)
    requires r >= 0.0 && p == r * q
    ensures r < 1.0 && 0.0 <= q < 1.0 ==> 0.0 <= p < 1.0
    ensures r > 1.0 && q > 1.0 ==> p > 1.0
  {
    if r < 1.0 && 0.0 <= q < 1.0 {
      assert (1.0 - r) * q >= 0.0;
    }
    if r > 1.0 && q > 1.0 {
      assert (r - 1.0) * q > 0.0;
    }
  }

  /** The root lies on the unit circle: this follows from w^(n/2) == -1 alone. */
  lemma RootModulus(w: Cplx, n: nat)
    requires n >= 2 && HalfTurn(w, n)
    ensures Norm2(w) == 1.0
    ensures forall e: nat :: Norm2(Pow(w, e)) == 1.0
  {
    hide Mul, Pow, Norm2;
    Norm2Positive(w);
    Norm2Pow(w, n / 2);
    Norm2One();
    RealPowOrder(Norm2(w), n / 2);
    forall e: nat ensures Norm2(Pow(w, e)) == 1.0 {
      Norm2Pow(w, e);
      RealPowOne(e);
    }
  }

  lemma {:induction false} RealPowOne(e: nat)
    ensures RealPow(1.0, e) == 1.0
  {
    if e > 0 { RealPowOne(e - 1); }
  }
}
