/** The in-place, strided, ping-pong transform of fft_utils.c. */
module Fft {
  import opened Complex
  import opened Dft
  import opened Words

  /** The k-th index of the residue class that starts at o with the given stride. */
  function Index(o: nat, k: nat, step: nat): nat { o + k * step }

  /** The m elements of s at o, o + step, o + 2*step, ... */
  function Strided(s: seq<Cplx>, o: nat, step: nat, m: nat): seq<Cplx> {
    seq(m, (k: nat) => At(s, Index(o, k, step)))
  }

  /** i modulo step, by repeated subtraction. */
  function Residue(i: nat, step: nat): nat
    requires step > 0
  {
    if i < step then i else Residue(i - step, step)
  }

  predicate InClass(i: nat, o: nat, step: nat, n: nat)
    requires step > 0
  {
    i < n && Residue(i, step) == o
  }

  // ----- index arithmetic -----

  lemma {:induction false} ResidueIndex(o: nat, k: nat, step: nat)
    requires o < step
    ensures Residue(Index(o, k, step), step) == o
  {
    if k > 0 { ResidueIndex(o, k - 1, step); }
  }

  lemma IndexBound(o: nat, k: nat, step: nat, m: nat)
    requires o < step && k < m
    ensures Index(o, k, step) < step * m
  {
    assert (m - 1 - k) * step >= 0;
    assert (m - 1) * step == (m - 1 - k) * step + k * step;
  }

  lemma IndexSplit(o: nat, k: nat, step: nat)
    ensures Index(o, k, 2 * step) == Index(o, 2 * k, step)
    ensures Index(o + step, k, 2 * step) == Index(o, 2 * k + 1, step)
  {}

  /** A class splits into two disjoint classes of twice the stride. */
  lemma {:induction false} ClassSplit(i: nat, o: nat, step: nat)
    requires o < step
    ensures Residue(i, 2 * step) == o || Residue(i, 2 * step) == o + step <==> Residue(i, step) == o
  {
    if i >= 2 * step {
      ClassSplit(i - 2 * step, o, step);
      assert Residue(i, step) == Residue(i - step, step) == Residue(i - 2 * step, step);
    }
  }

  lemma StridedAt(s: seq<Cplx>, o: nat, step: nat, m: nat, k: nat)
    requires k < m
    ensures |Strided(s, o, step, m)| == m && Strided(s, o, step, m)[k] == At(s, Index(o, k, step))
  {}

  lemma StridedSplit(s: seq<Cplx>, o: nat, step: nat, h: nat)
    ensures Strided(s, o, 2 * step, h) == Evens(Strided(s, o, step, 2 * h))
    ensures Strided(s, o + step, 2 * step, h) == Odds(Strided(s, o, step, 2 * h))
  {
    forall k: nat | k < h
      ensures Strided(s, o, 2 * step, h)[k] == Evens(Strided(s, o, step, 2 * h))[k]
      ensures Strided(s, o + step, 2 * step, h)[k] == Odds(Strided(s, o, step, 2 * h))[k]
    {
      IndexSplit(o, k, step);
    }
  }

  /** A view depends only on the elements of its class. */
  lemma StridedFrame(s: seq<Cplx>, t: seq<Cplx>, o: nat, step: nat, m: nat, n: nat)
    requires o < step && step * m == n && n <= |s| == |t|
    requires forall i: nat | InClass(i, o, step, n) :: s[i] == t[i]
    ensures Strided(s, o, step, m) == Strided(t, o, step, m)
  {
    forall k: nat | k < m ensures Strided(s, o, step, m)[k] == Strided(t, o, step, m)[k] {
      ResidueIndex(o, k, step);
      IndexBound(o, k, step, m);
      assert InClass(Index(o, k, step), o, step, n);
    }
  }

  lemma StridedWhole(s: seq<Cplx>, n: nat)
    requires n <= |s|
    ensures Strided(s, 0, 1, n) == s[..n]
  {}

  lemma IndexInjective(o: nat, step: nat)
    requires step > 0
    ensures forall k: nat, l: nat :: Index(o, k, step) == Index(o, l, step) ==> k == l
  {
    forall k: nat, l: nat | Index(o, k, step) == Index(o, l, step) ensures k == l {
      assert step * (k - l) == 0;
      Multiple(step, k - l);
    }
  }

  /** The loop variable of the butterfly loop at its q-th iteration. */
  function Counter(step: nat, q: nat): nat { 2 * (step * q) }

  lemma CounterStep(step: nat, h: nat, q: nat)
    requires step > 0
    ensures Counter(step, q + 1) == Counter(step, q) + 2 * step
    ensures Counter(step, h) == step * (2 * h)
    ensures Counter(step, q) < Counter(step, h) <==> q < h
  {}

  /** Where iteration q reads and writes. */
  lemma LoopIndices(o: nat, step: nat, h: nat, q: nat, i: nat, n: nat)
    requires o < step && q < h && i == Counter(step, q) && n == Counter(step, h)
    ensures o + i == Index(o, q, 2 * step) && o + i + step == Index(o + step, q, 2 * step)
    ensures o + i / 2 == Index(o, q, step)
    ensures o + (i + n) / 2 == Index(o, q + h, step)
  {}

  /** exp(-I*pi*i/n) is the (i/2)-th power of the root w, and the q-th of w^step. */
  lemma Twiddle(w: Cplx, step: nat, q: nat, i: nat)
    requires i == Counter(step, q)
    ensures Pow(w, i / 2) == Pow(Pow(w, step), q)
  {
    PowPow(w, step, q);
  }

  lemma LoopBounds(o: nat, step: nat, h: nat, q: nat, n: nat)
    requires o < step && q < h && n == Counter(step, h)
    ensures Index(o, q, 2 * step) < n && Index(o + step, q, 2 * step) < n
    ensures InClass(Index(o, q, step), o, step, n)
    ensures InClass(Index(o, q + h, step), o, step, n)
  {
    CounterStep(step, h, q);
    ResidueIndex(o, q, step);
    ResidueIndex(o, q + h, step);
    IndexBound(o, q, step, 2 * h);
    IndexBound(o, q + h, step, 2 * h);
    IndexSplit(o, q, step);
    IndexBound(o, 2 * q, step, 2 * h);
    IndexBound(o, 2 * q + 1, step, 2 * h);
  }

  /** The classes of the two recursive calls, at offsets o and p, and the caller's class. */
  lemma SubClasses(o: nat, p: nat, step: nat, two: nat, n: nat)
    requires o < step && p == o + step && two == 2 * step
    ensures forall i: nat | !InClass(i, o, step, n) :: !InClass(i, o, two, n) && !InClass(i, p, two, n)
    ensures forall i: nat | InClass(i, o, two, n) :: i < n && !InClass(i, p, two, n)
    ensures forall i: nat | InClass(i, p, two, n) :: i < n && !InClass(i, o, two, n)
  {
    forall i: nat ensures Residue(i, two) == o || Residue(i, two) == p <==> Residue(i, step) == o {
      ClassSplit(i, o, step);
    }
  }

  lemma OneClass(n: nat)
    ensures forall i: nat :: InClass(i, 0, 1, n) <==> i < n
  {
    forall i: nat ensures Residue(i, 1) == 0 { ResidueIndex(0, i, 1); }
  }

  // ----- the code -----

  ghost predicate Combined(s: seq<Cplx>, e: seq<Cplx>, d: seq<Cplx>, z: Cplx, o: nat, step: nat, q: nat)
    requires q <= |e| == |d|
  {
    forall k: nat | k < q ::
      && At(s, Index(o, k, step)) == Add(e[k], Mul(Pow(z, k), d[k]))
      && At(s, Index(o, k + |e|, step)) == Sub(e[k], Mul(Pow(z, k), d[k]))
  }

  lemma CombineNone(s: seq<Cplx>, e: seq<Cplx>, d: seq<Cplx>, z: Cplx, o: nat, step: nat)
    requires |e| == |d|
    ensures Combined(s, e, d, z, o, step, 0)
  {}

  lemma CombineOne(s: seq<Cplx>, e: seq<Cplx>, d: seq<Cplx>, z: Cplx, o: nat, step: nat, q: nat)
    requires step > 0 && q < |e| == |d| && Combined(s, e, d, z, o, step, q)
    requires Index(o, q, step) < |s| && Index(o, q + |e|, step) < |s|
    ensures
      var t := Mul(Pow(z, q), d[q]);
      Combined(s[Index(o, q, step) := Add(e[q], t)][Index(o, q + |e|, step) := Sub(e[q], t)], e, d, z, o, step, q + 1)
  {
    hide Index, Mul, Pow, Add, Sub;
    IndexInjective(o, step);
  }

  /** Combining the transforms of the even and odd samples gives the whole transform. */
  lemma CombinedIsTransform(s: seq<Cplx>, x: seq<Cplx>, z: Cplx, o: nat, step: nat)
    requires |x| >= 2 && |x| % 2 == 0 && HalfTurn(z, |x|)
    requires Combined(s, Transform(Evens(x), Pow(z, 2)), Transform(Odds(x), Pow(z, 2)), z, o, step, |x| / 2)
    ensures Strided(s, o, step, |x|) == Transform(x, z)
  {
    hide Mul, Pow, Add, Sub, Index, Bin;
    var h := |x| / 2;
    forall k: nat | k < |x| ensures Strided(s, o, step, |x|)[k] == Transform(x, z)[k] {
      if k < h {
        Butterfly(x, z, k);
      } else {
        Butterfly(x, z, k - h);
        assert At(s, Index(o, k - h, step)) == At(s, Index(o, k - h, step));
      }
    }
  }

  /** Outside the class of o, s is what it was. */
  ghost predicate Untouched(s: seq<Cplx>, was: seq<Cplx>, o: nat, step: nat, n: nat)
    requires step > 0
  {
    |s| == |was| && forall i: nat | i < |s| && !InClass(i, o, step, n) :: s[i] == was[i]
  }

  lemma UntouchedSame(s: seq<Cplx>, o: nat, step: nat, n: nat)
    requires step > 0
    ensures Untouched(s, s, o, step, n)
  {}

  lemma UntouchedMeans(s: seq<Cplx>, was: seq<Cplx>, o: nat, step: nat, n: nat)
    requires step > 0 && Untouched(s, was, o, step, n)
    ensures forall i: nat | i < |s| && !InClass(i, o, step, n) :: s[i] == was[i]
  {}

  lemma UntouchedStep(s: seq<Cplx>, was: seq<Cplx>, o: nat, step: nat, n: nat,
          a: nat, u: Cplx, b: nat, v: Cplx)
    requires step > 0 && Untouched(s, was, o, step, n)
    requires a < |s| && b < |s| && InClass(a, o, step, n) && InClass(b, o, step, n)
    ensures Untouched(s[a := u][b := v], was, o, step, n)
  {}

  /** One iteration of the butterfly loop, on the contents s of buf and t of out. */
  lemma Iteration(s: seq<Cplx>, t: seq<Cplx>, was: seq<Cplx>, n: nat, step: nat, o: nat, w: Cplx,
          h: nat, q: nat, i: nat, e: seq<Cplx>, d: seq<Cplx>)
    requires o < step && n == Counter(step, h) && n <= |s| && n <= |t| && q <= h
    requires i == Counter(step, q) && i < n
    requires e == Strided(t, o, 2 * step, h) && d == Strided(t, o + step, 2 * step, h) && |e| == |d| == h
    requires Combined(s, e, d, Pow(w, step), o, step, q) && Untouched(s, was, o, step, n)
    ensures q < h && i + 2 * step == Counter(step, q + 1)
    ensures o + i < |t| && o + i + step < |t| && o + i / 2 < |s| && o + (i + n) / 2 < |s|
    ensures
      var m := Mul(Pow(w, i / 2), t[o + i + step]);
      var next := s[o + i / 2 := Add(t[o + i], m)][o + (i + n) / 2 := Sub(t[o + i], m)];
      Combined(next, e, d, Pow(w, step), o, step, q + 1) && Untouched(next, was, o, step, n)
  {
    hide *;
    CounterStep(step, h, q);
    LoopIndices(o, step, h, q, i, n);
    LoopBounds(o, step, h, q, n);
    ClassBound(Index(o, q, step), o, step, n);
    ClassBound(Index(o, q + h, step), o, step, n);
    Twiddle(w, step, q, i);
    CombineOne(s, e, d, Pow(w, step), o, step, q);
    AtIs(t, Index(o, q, 2 * step));
    AtIs(t, Index(o + step, q, 2 * step));
    StridedAt(t, o, 2 * step, h, q);
    StridedAt(t, o + step, 2 * step, h, q);
    var m := Mul(Pow(w, i / 2), t[o + i + step]);
    UntouchedStep(s, was, o, step, n, Index(o, q, step), Add(t[o + i], m), Index(o, q + h, step), Sub(t[o + i], m));
  }

  lemma ClassBound(i: nat, o: nat, step: nat, n: nat)
    requires step > 0 && InClass(i, o, step, n)
    ensures i < n
  {}

  lemma AtIs(s: seq<Cplx>, j: nat)
    requires j < |s|
    ensures At(s, j) == s[j]
  {}

  /** The butterfly loop of `_fft`. */
  method Combine(buf: array<Cplx>, out: array<Cplx>, n: nat, step: nat, o: nat, w: Cplx, ghost h: nat)
    requires buf != out && n <= buf.Length && n <= out.Length
    requires o < step && n == Counter(step, h)
    modifies buf
    ensures Combined(buf[..], Strided(out[..], o, 2 * step, h), Strided(out[..], o + step, 2 * step, h),
                     Pow(w, step), o, step, h)
    ensures forall i: nat | i < buf.Length && !InClass(i, o, step, n) :: buf[i] == old(buf[i])
  {
    ghost var e, d := Strided(out[..], o, 2 * step, h), Strided(out[..], o + step, 2 * step, h);
    hide Mul, Pow, Add, Sub, Combined, Counter, InClass, Strided, Untouched;
    CombineNone(buf[..], e, d, Pow(w, step), o, step);
    CounterStep(step, h, 0);
    UntouchedSame(buf[..], o, step, n);
    var i := 0;
    ghost var q := 0;
    while i < n
      invariant q <= h && i == Counter(step, q)
      invariant Combined(buf[..], e, d, Pow(w, step), o, step, q)
      invariant Untouched(buf[..], old(buf[..]), o, step, n)
      decreases h - q
    {
      ghost var before := buf[..];
      Iteration(before, out[..], old(buf[..]), n, step, o, w, h, q, i, e, d);
      var t := Mul(Pow(w, i / 2), out[o + i + step]);
      buf[o + i / 2] := Add(out[o + i], t);
      buf[o + (i + n) / 2] := Sub(out[o + i], t);
      assert buf[..] == before[o + i / 2 := Add(out[o + i], t)][o + (i + n) / 2 := Sub(out[o + i], t)];
      i := i + 2 * step;
      q := q + 1;
    }
    CounterStep(step, h, q);
    UntouchedMeans(buf[..], old(buf[..]), o, step, n);
  }

  /** The recursive calls get a class of half the size, for which the root still fits. */
  lemma Halve(w: Cplx, n: nat, step: nat, m: nat)
    requires 0 < step < n == step * m && (m == 0 || PowerOfTwo(m)) && HalfTurn(Pow(w, step), m)
    ensures m >= 2 && m % 2 == 0 && PowerOfTwo(m / 2)
    ensures n == step * (2 * (m / 2)) == step * 2 * (m / 2)
    ensures HalfTurn(Pow(w, step * 2), m / 2)
  {
    hide Pow;
    var h := m / 2;
    assert m > 1;
    assert m == 2 * h && step * (2 * h) == step * 2 * h;
    PowPow(w, step, 2);
    HalfTurnSquare(Pow(w, step), m);
  }

  lemma LastLevel(n: nat, step: nat, m: nat)
    requires step > 0 && n == step * m <= step
    ensures m <= 1
  {
    assert step * (m - 1) <= 0;
  }

  lemma ViewLengths(s: seq<Cplx>, o: nat, step: nat, m: nat)
    ensures |Strided(s, o, step, m)| == m
    ensures |Transform(Evens(Strided(s, o, step, m)), ONE)| == m / 2
    ensures |Transform(Odds(Strided(s, o, step, m)), ONE)| == m / 2
  {}

  /** `_fft` on the class of o: afterwards the view of buf is the transform of what it
      was, and nothing outside the class has changed in either array. */
  method FftStep(buf: array<Cplx>, out: array<Cplx>, n: nat, step: nat, o: nat, w: Cplx, ghost m: nat)
    requires buf != out && n <= buf.Length && n <= out.Length
    requires o < step && n == step * m && (m == 0 || PowerOfTwo(m))
    requires HalfTurn(Pow(w, step), m)
    requires Strided(buf[..], o, step, m) == Strided(out[..], o, step, m)
    modifies buf, out
    ensures Strided(buf[..], o, step, m) == Transform(old(Strided(buf[..], o, step, m)), Pow(w, step))
    ensures forall i: nat | i < buf.Length && !InClass(i, o, step, n) :: buf[i] == old(buf[i])
    ensures forall i: nat | i < out.Length && !InClass(i, o, step, n) :: out[i] == old(out[i])
    decreases m
  {
    hide *;
    ghost var x := Strided(buf[..], o, step, m);
    ViewLengths(buf[..], o, step, m);
    if step < n {
      ghost var h, two := m / 2, step * 2;
      Halve(w, n, step, m);
      StridedSplit(buf[..], o, step, h);
      StridedSplit(out[..], o, step, h);
      SubClasses(o, o + step, step, two, n);
      ghost var buf0, out0 := buf[..], out[..];

      FftStep(out, buf, n, step * 2, o, w, h);
      ghost var out1 := out[..];
      StridedFrame(buf0, buf[..], o + step, two, h, n);
      StridedFrame(out0, out1, o + step, two, h, n);

      FftStep(out, buf, n, step * 2, o + step, w, h);
      StridedFrame(out1, out[..], o, two, h, n);

      CounterStep(step, h, 0);
      Combine(buf, out, n, step, o, w, h);
      PowPow(w, step, 2);
      CombinedIsTransform(buf[..], x, Pow(w, step), o, step);
    } else {
      LastLevel(n, step, m);
      TransformOne(x, Pow(w, step));
    }
  }

  method Fft(buf: array<Cplx>, out: array<Cplx>, n: nat, w: Cplx)
    requires buf != out && n <= buf.Length && n <= out.Length
    requires (n == 0 || PowerOfTwo(n)) && HalfTurn(w, n)
    modifies buf, out
    ensures buf[..n] == Transform(old(buf[..n]), w)
    ensures buf[n..] == old(buf[n..]) && out[n..] == old(out[n..])
  {
    hide InClass, Strided, Transform, Pow, PowerOfTwo, HalfTurn;
    var i := 0;
    while i < n
      invariant i <= n
      invariant buf[..] == old(buf[..])
      invariant out[..i] == buf[..i] && out[n..] == old(out[n..])
    {
      out[i] := buf[i];
      i := i + 1;
    }
    StridedWhole(buf[..], n);
    StridedWhole(out[..], n);
    PowTwo(w);
    OneClass(n);
    FftStep(buf, out, n, 1, 0, w, n);
    StridedWhole(buf[..], n);
  }
}
