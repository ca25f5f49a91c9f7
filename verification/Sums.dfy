/** Finite sums of complex numbers. */
module Sums {
  import opened Complex

  function Sum(n: nat, f: nat -> Cplx): Cplx {
    if n == 0 then ZERO else Add(Sum(n - 1, f), f(n - 1))
  }

  function Scaled(c: Cplx, f: nat -> Cplx): nat -> Cplx { (i: nat) => Mul(c, f(i)) }

  function Plus(f: nat -> Cplx, g: nat -> Cplx): nat -> Cplx { (i: nat) => Add(f(i), g(i)) }

  lemma {:induction false} SumExt(n: nat, f: nat -> Cplx, g: nat -> Cplx)
    requires forall i | 0 <= i < n :: f(i) == g(i)
    ensures Sum(n, f) == Sum(n, g)
  {
    if n > 0 { SumExt(n - 1, f, g); }
  }

  lemma {:induction false} SumPlus(n: nat, f: nat -> Cplx, g: nat -> Cplx)
    ensures Sum(n, Plus(f, g)) == Add(Sum(n, f), Sum(n, g))
  {
    if n > 0 {
      SumPlus(n - 1, f, g);
      AddMiddle(Sum(n - 1, f), Sum(n - 1, g), f(n - 1), g(n - 1));
    }
  }

  lemma {:induction false} SumScaled(n: nat, c: Cplx, f: nat -> Cplx)
    ensures Sum(n, Scaled(c, f)) == Mul(c, Sum(n, f))
  {
    hide Mul;
    if n == 0 {
      Units(c);
    } else {
      SumScaled(n - 1, c, f);
      MulAdd(c, Sum(n - 1, f), f(n - 1));
    }
  }

  lemma {:induction false} SumEvenOdd(h: nat, f: nat -> Cplx, even: nat -> Cplx, odd: nat -> Cplx)
    requires forall j | 0 <= j < h :: even(j) == f(2 * j) && odd(j) == f(2 * j + 1)
    ensures Sum(2 * h, f) == Add(Sum(h, even), Sum(h, odd))
  {
    if h > 0 {
      SumEvenOdd(h - 1, f, even, odd);
      assert Sum(2 * h, f) == Add(Add(Sum(2 * h - 2, f), f(2 * h - 2)), f(2 * h - 1));
      assert even(h - 1) == f(2 * h - 2) && odd(h - 1) == f(2 * h - 1);
    }
  }

  /** Splits a sum after its first `a` terms. */
  lemma {:induction false} SumConcat(a: nat, b: nat, f: nat -> Cplx, tail: nat -> Cplx)
    requires forall j | 0 <= j < b :: tail(j) == f(a + j)
    ensures Sum(a + b, f) == Add(Sum(a, f), Sum(b, tail))
  {
    if b == 0 {
      Units(Sum(a, f));
    } else {
      SumConcat(a, b - 1, f, tail);
      assert tail(b - 1) == f(a + b - 1);
    }
  }

  /** A sum with at most one nonzero term. */
  lemma {:induction false} SumSingle(n: nat, f: nat -> Cplx, at: nat)
    requires forall i | 0 <= i < n && i != at :: f(i) == ZERO
    ensures Sum(n, f) == if at < n then f(at) else ZERO
  {
    hide Add;
    if n > 0 {
      SumSingle(n - 1, f, at);
      AddZero(f(n - 1));
      AddZero(Sum(n - 1, f));
    }
  }

  lemma {:induction false} SumConj(n: nat, f: nat -> Cplx, g: nat -> Cplx)
    requires forall i | 0 <= i < n :: g(i) == Conj(f(i))
    ensures Sum(n, g) == Conj(Sum(n, f))
  {
    if n > 0 { SumConj(n - 1, f, g); }
  }

  /** n equal terms. */
  lemma {:induction false} SumConst(n: nat, f: nat -> Cplx, c: Cplx)
    requires forall i | 0 <= i < n :: f(i) == c
    ensures Sum(n, f) == Mul(FromReal(n as real), c)
  {
    if n > 0 {
      SumConst(n - 1, f, c);
      assert Mul(FromReal(n as real), c) == Add(Mul(FromReal((n - 1) as real), c), c) by {
        MulAdd(c, FromReal((n - 1) as real), ONE);
        Units(c);
        assert FromReal(n as real) == Add(FromReal((n - 1) as real), ONE);
      }
    }
  }

  /** Row sums of a two-variable term. */
  function Rows(m: nat, t: (nat, nat) -> Cplx): nat -> Cplx { (i: nat) => Sum(m, Row(t, i)) }

  function Row(t: (nat, nat) -> Cplx, i: nat): nat -> Cplx { (j: nat) => t(i, j) }

  function Flip(t: (nat, nat) -> Cplx): (nat, nat) -> Cplx { (i: nat, j: nat) => t(j, i) }

  lemma {:induction false} SumSwap(n: nat, m: nat, t: (nat, nat) -> Cplx)
    ensures Sum(n, Rows(m, t)) == Sum(m, Rows(n, Flip(t)))
  {
    if n == 0 {
      forall j | 0 <= j < m ensures Rows(0, Flip(t))(j) == ZERO {}
      SumSingle(m, Rows(0, Flip(t)), m);
    } else {
      SumSwap(n - 1, m, t);
      var before, last := Rows(n - 1, Flip(t)), Row(t, n - 1);
      forall j | 0 <= j < m ensures Rows(n, Flip(t))(j) == Plus(before, last)(j) {
        assert Row(Flip(t), j)(n - 1) == t(n - 1, j);
      }
      SumExt(m, Rows(n, Flip(t)), Plus(before, last));
      SumPlus(m, before, last);
    }
  }
}
