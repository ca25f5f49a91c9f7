/** Exact complex numbers: the repository's `double complex` without rounding. */
module Complex {

  datatype Cplx = Cplx(re: real, im: real)

  const ZERO := Cplx(0.0, 0.0)
  const ONE := Cplx(1.0, 0.0)
  const MINUS_ONE := Cplx(-1.0, 0.0)

  function Add(a: Cplx, b: Cplx): Cplx { Cplx(a.re + b.re, a.im + b.im) }

  function Sub(a: Cplx, b: Cplx): Cplx { Cplx(a.re - b.re, a.im - b.im) }

  function Mul(a: Cplx, b: Cplx): Cplx {
    Cplx(a.re * b.re - a.im * b.im, a.re * b.im + a.im * b.re)
  }

  function Conj(a: Cplx): Cplx { Cplx(a.re, -a.im) }

  function FromReal(r: real): Cplx { Cplx(r, 0.0) }

  /** Squared modulus: what the treatment task calls the power of a bin. */
  function Norm2(a: Cplx): real { a.re * a.re + a.im * a.im }

  function Pow(w: Cplx, e: nat): Cplx {
    if e == 0 then ONE else Mul(w, Pow(w, e - 1))
  }

  // ----- ring laws -----

  lemma MulComm(a: Cplx, b: Cplx)
    ensures Mul(a, b) == Mul(b, a)
  {}

  lemma MulAssoc(a: Cplx, b: Cplx, c: Cplx)
    ensures Mul(Mul(a, b), c) == Mul(a, Mul(b, c))
  {}

  lemma MulSwap(a: Cplx, b: Cplx, c: Cplx)
    ensures Mul(a, Mul(b, c)) == Mul(b, Mul(a, c))
  {}

  lemma MulMiddle(a: Cplx, b: Cplx, c: Cplx, d: Cplx)
    ensures Mul(Mul(a, b), Mul(c, d)) == Mul(Mul(a, c), Mul(b, d))
  {}

  lemma MulAdd(a: Cplx, b: Cplx, c: Cplx)
    ensures Mul(a, Add(b, c)) == Add(Mul(a, b), Mul(a, c))
    ensures Mul(Add(b, c), a) == Add(Mul(b, a), Mul(c, a))
  {}

  lemma AddMiddle(a: Cplx, b: Cplx, c: Cplx, d: Cplx)
    ensures Add(Add(a, b), Add(c, d)) == Add(Add(a, c), Add(b, d))
  {}

  lemma AddZero(a: Cplx)
    ensures Add(ZERO, a) == a == Add(a, ZERO)
  {}

  lemma Units(a: Cplx)
    ensures Mul(ONE, a) == a == Mul(a, ONE)
    ensures Mul(ZERO, a) == ZERO == Mul(a, ZERO)
    ensures Mul(MINUS_ONE, a) == Sub(ZERO, a)
  {}

  // ----- conjugation and modulus -----

  lemma ConjMul(a: Cplx, b: Cplx)
    ensures Conj(Mul(a, b)) == Mul(Conj(a), Conj(b))
  {}

  lemma Norm2Mul(a: Cplx, b: Cplx)
    ensures Norm2(Mul(a, b)) == Norm2(a) * Norm2(b)
  {}

  lemma Norm2Conj(a: Cplx)
    ensures Mul(Conj(a), a) == FromReal(Norm2(a))
    ensures Norm2(Conj(a)) == Norm2(a)
  {}

  lemma ProductPositive(x: real, y: real, p: real)
    requires x > 0.0 && y > 0.0 && p == x * y
    ensures p > 0.0
  {}

  lemma SquarePositive(x: real, p: real)
    requires p == x * x
    ensures p >= 0.0
    ensures x != 0.0 ==> p > 0.0
  {
    if x > 0.0 {
      ProductPositive(x, x, p);
    } else if x < 0.0 {
      ProductPositive(-x, -x, p);
    }
  }

  lemma Norm2Positive(a: Cplx)
    ensures Norm2(a) >= 0.0
    ensures a != ZERO ==> Norm2(a) > 0.0
    ensures Norm2(ZERO) == 0.0
  {
    var p, q := a.re * a.re, a.im * a.im;
    assert Norm2(a) == p + q;
    SquarePositive(a.re, p);
    SquarePositive(a.im, q);
  }

  // ----- powers -----

  lemma PowTwo(w: Cplx)
    ensures Pow(w, 1) == w
    ensures Pow(w, 2) == Mul(w, w)
  {}

  lemma {:induction false} PowAdd(w: Cplx, a: nat, b: nat)
    ensures Pow(w, a + b) == Mul(Pow(w, a), Pow(w, b))
  {
    hide Mul;
    if a == 0 {
      Units(Pow(w, b));
    } else {
      PowAdd(w, a - 1, b);
      MulAssoc(w, Pow(w, a - 1), Pow(w, b));
    }
  }

  lemma {:induction false} PowPow(w: Cplx, a: nat, b: nat)
    ensures Pow(Pow(w, a), b) == Pow(w, a * b)
  {
    hide Mul;
    if b == 0 {
      assert a * b == 0;
    } else {
      PowPow(w, a, b - 1);
      PowAdd(w, a, a * (b - 1));
      assert a + a * (b - 1) == a * b;
    }
  }

  lemma {:induction false} PowOne(e: nat)
    ensures Pow(ONE, e) == ONE
  {
    hide Mul;
    if e > 0 {
      PowOne(e - 1);
      Units(ONE);
    }
  }

  lemma {:induction false} PowMinusOne(e: nat)
    ensures Pow(MINUS_ONE, e) == if e % 2 == 0 then ONE else MINUS_ONE
  {
    hide Mul;
    if e == 0 {
    } else {
      PowMinusOne(e - 1);
      if e % 2 == 0 {
        assert Pow(MINUS_ONE, e) == Mul(MINUS_ONE, MINUS_ONE);
        assert Mul(MINUS_ONE, MINUS_ONE) == ONE by { Units(MINUS_ONE); }
      } else {
        assert Pow(MINUS_ONE, e) == Mul(MINUS_ONE, ONE);
        assert Mul(MINUS_ONE, ONE) == MINUS_ONE by { Units(MINUS_ONE); }
      }
    }
  }

  lemma {:induction false} PowConj(w: Cplx, e: nat)
    ensures Pow(Conj(w), e) == Conj(Pow(w, e))
  {
    hide Mul;
    if e == 0 {
    } else {
      PowConj(w, e - 1);
      ConjMul(w, Pow(w, e - 1));
    }
  }
}
