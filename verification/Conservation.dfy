/** Energy conservation: the transform multiplies the energy of a window by its length. */
module Conservation {
  import opened Complex
  import opened Dft
  import opened Spectrum

  function Energy(x: seq<Cplx>): real {
    if |x| == 0 then 0.0 else Energy(x[..|x| - 1]) + Norm2(x[|x| - 1])
  }

  lemma {:induction false} EnergyConcat(s: seq<Cplx>, t: seq<Cplx>)
    ensures Energy(s + t) == Energy(s) + Energy(t)
  {
    hide Norm2;
    if t == [] {
      assert s + t == s;
    } else {
      EnergyConcat(s, t[..|t| - 1]);
      assert (s + t)[..|s + t| - 1] == s + t[..|t| - 1];
    }
  }

  lemma {:induction false} EnergySplit(x: seq<Cplx>)
    requires |x| % 2 == 0
    ensures Energy(x) == Energy(Evens(x)) + Energy(Odds(x))
  {
    hide Norm2;
    if |x| > 0 {
      var y, h := x[..|x| - 2], |x| / 2;
      EnergySplit(y);
      assert x[..|x| - 1][..|x| - 2] == y;
      assert Evens(x)[..h - 1] == Evens(y) && Evens(x)[h - 1] == x[|x| - 2];
      assert Odds(x)[..h - 1] == Odds(y) && Odds(x)[h - 1] == x[|x| - 1];
    }
  }

  lemma {:induction false} EnergyPairs(lo: seq<Cplx>, hi: seq<Cplx>, e: seq<Cplx>, o: seq<Cplx>)
    requires |lo| == |hi| == |e| == |o|
    requires forall k | 0 <= k < |e| :: Norm2(lo[k]) + Norm2(hi[k]) == 2.0 * (Norm2(e[k]) + Norm2(o[k]))
    ensures Energy(lo) + Energy(hi) == 2.0 * (Energy(e) + Energy(o))
  {
    hide Norm2;
    if |e| > 0 {
      var m := |e| - 1;
      EnergyPairs(lo[..m], hi[..m], e[..m], o[..m]);
    }
  }

  /** One butterfly doubles the energy of its two inputs. */
  lemma Parallelogram(a: Cplx, u: Cplx, b: Cplx)
    requires Norm2(u) == 1.0
    ensures Norm2(Add(a, Mul(u, b))) + Norm2(Sub(a, Mul(u, b))) == 2.0 * (Norm2(a) + Norm2(b))
  {}

  lemma ButterflyEnergy(x: seq<Cplx>, w: Cplx, k: nat)
    requires |x| >= 2 && |x| % 2 == 0 && HalfTurn(w, |x|) && k < |x| / 2
    ensures Norm2(Bin(x, w, k)) + Norm2(Bin(x, w, k + |x| / 2))
         == 2.0 * (Norm2(Bin(Evens(x), Pow(w, 2), k)) + Norm2(Bin(Odds(x), Pow(w, 2), k)))
  {
    RootModulus(w, |x|);
    hide *;
    Butterfly(x, w, k);
    Parallelogram(Bin(Evens(x), Pow(w, 2), k), Pow(w, k), Bin(Odds(x), Pow(w, 2), k));
  }

  /** The last butterfly stage doubles the energy of the two half-size spectra. */
  lemma StageEnergy(x: seq<Cplx>, w: Cplx)
    requires |x| >= 2 && |x| % 2 == 0 && HalfTurn(w, |x|)
    ensures Energy(Transform(x, w))
         == 2.0 * (Energy(Transform(Evens(x), Pow(w, 2))) + Energy(Transform(Odds(x), Pow(w, 2))))
  {
    hide Norm2, Pow, Energy, HalfTurn, Bin;
    var h, y := |x| / 2, Transform(x, w);
    var e, o := Transform(Evens(x), Pow(w, 2)), Transform(Odds(x), Pow(w, 2));
    var lo, hi := y[..h], y[h..];
    forall k: nat | k < h ensures Norm2(lo[k]) + Norm2(hi[k]) == 2.0 * (Norm2(e[k]) + Norm2(o[k])) {
      ButterflyEnergy(x, w, k);
    }
    EnergyPairs(lo, hi, e, o);
    EnergyConcat(lo, hi);
    assert lo + hi == y;
  }

  function Times(n: nat, e: real): real { n as real * e }

  lemma DoubleTimes(h: nat, a: real, b: real)
    ensures 2.0 * (Times(h, a) + Times(h, b)) == Times(2 * h, a + b)
  {}

  lemma {:induction false} EnergyScales(x: seq<Cplx>, w: Cplx)
    requires PowerOfTwo(|x|) && HalfTurn(w, |x|)
    ensures Energy(Transform(x, w)) == Times(|x|, Energy(x))
    decreases |x|
  {
    if |x| == 1 {
      TransformOne(x, w);
    } else {
      var h := |x| / 2;
      assert |x| >= 2 && |x| == 2 * h && |Evens(x)| == |Odds(x)| == h && PowerOfTwo(h);
      hide *;
      HalfTurnSquare(w, |x|);
      EnergyScales(Evens(x), Pow(w, 2));
      EnergyScales(Odds(x), Pow(w, 2));
      EnergySplit(x);
      StageEnergy(x, w);
      DoubleTimes(h, Energy(Evens(x)), Energy(Odds(x)));
    }
  }

  /** Parseval: the energy of the spectrum is the window length times that of the samples. */
  lemma Parseval(x: seq<Cplx>, w: Cplx)
    requires PowerOfTwo(|x|) && HalfTurn(w, |x|)
    ensures Energy(Transform(x, w)) == |x| as real * Energy(x)
  {
    EnergyScales(x, w);
  }
}
