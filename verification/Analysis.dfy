/** Every real window is a mix: its own spectrum supplies the tones. */
module Analysis {
  import opened Complex
  import opened Sums
  import opened Dft
  import opened Spectrum
  import opened Peak
  import opened Tones

  // ----- mixes are real -----

  lemma {:induction false} SumIsReal(n: nat, f: nat -> Cplx)
    requires forall i | 0 <= i < n :: f(i).im == 0.0
    ensures Sum(n, f).im == 0.0
  {
    if n > 0 { SumIsReal(n - 1, f); }
  }

  lemma MixIsReal(w: Cplx, a: seq<Cplx>, j: nat)
    ensures Mix(w, a, j) == FromReal(Mix(w, a, j).re)
  {
    hide Mul, Pow;
    forall m: nat | m < |a| ensures ToneTerm(w, a, j)(m).im == 0.0 {
      assert ToneTerm(w, a, j)(m) == Add(Mul(a[m], Pow(w, j * m)), Conj(Mul(a[m], Pow(w, j * m))));
    }
    SumIsReal(|a|, ToneTerm(w, a, j));
  }

  /** The samples of the mix of tones a and alternation c. */
  function Synthesis(w: Cplx, a: seq<Cplx>, c: real): seq<real> {
    seq(2 * |a|, (j: nat) => Mix(w, a, j).re + Alternating(c, j))
  }

  lemma SynthesisIsMix(w: Cplx, a: seq<Cplx>, c: real)
    ensures IsMix(Synthesis(w, a, c), w, a, c)
  {
    hide Mix;
    var x := Synthesis(w, a, c);
    forall j: nat | j < |x| ensures FromReal(x[j]) == Add(Mix(w, a, j), FromReal(Alternating(c, j))) {
      MixIsReal(w, a, j);
    }
  }

  // ----- reading the tones off the spectrum -----

  function Divided(z: Cplx, r: real): Cplx
    requires r != 0.0
  {
    Cplx(z.re / r, z.im / r)
  }

  lemma DividedBack(z: Cplx, r: real)
    requires r != 0.0
    ensures Mul(Divided(z, r), FromReal(r)) == z
  {
    Quotient(z.re, r);
    Quotient(z.im, r);
  }

  lemma Quotient(p: real, r: real)
    requires r != 0.0
    ensures p / r * r == p
  {}

  /** The tone amplitudes of a window; the constant part is split evenly with its conjugate. */
  function ToneAmplitudes(x: seq<real>, w: Cplx): seq<Cplx> {
    seq(|x| / 2, (k: nat) requires k < |x| / 2 =>
      var z := Divided(Conj(Bin(Window(x), w, k)), |x| as real);
      if k == 0 then Divided(z, 2.0) else z)
  }

  function AlternatingAmplitude(x: seq<real>, w: Cplx): real
    requires |x| > 0
  {
    Bin(Window(x), w, |x| / 2).re / |x| as real
  }

  /** The constant bin and the bin at n/2 are real. */
  lemma EndBinsReal(x: seq<real>, w: Cplx)
    requires |x| >= 2 && |x| % 2 == 0 && HalfTurn(w, |x|)
    ensures Bin(Window(x), w, 0) == FromReal(Bin(Window(x), w, 0).re)
    ensures Bin(Window(x), w, |x| / 2) == FromReal(Bin(Window(x), w, |x| / 2).re)
  {
    hide Bin, Pow, HalfTurn;
    var n := |x|;
    HalfTurnSquare(w, n);
    PowZero(w);
    BinIsEval(Window(x), w, 0);
    BinIsEval(Window(x), w, n);
    ConjSymmetry(x, w, 0);
    ConjSymmetry(x, w, n / 2);
    SelfConj(Bin(Window(x), w, 0));
    SelfConj(Bin(Window(x), w, n / 2));
  }

  lemma SelfConj(z: Cplx)
    ensures z == Conj(z) ==> z == FromReal(z.re)
  {}

  lemma HalvesAdd(z: Cplx, r: real)
    requires r != 0.0 && z == FromReal(z.re)
    ensures
      var half := Divided(Divided(Conj(z), r), 2.0);
      Mul(Add(half, Conj(half)), FromReal(r)) == z
  {
    Quotient(z.re, r);
  }

  /** The synthesis of a window's tones has the window's bins up to n/2. */
  lemma SameLowBin(x: seq<real>, w: Cplx, k: nat)
    requires PowerOfTwo(|x|) && |x| >= 2 && HalfTurn(w, |x|) && k <= |x| / 2
    ensures
      Bin(Window(Synthesis(w, ToneAmplitudes(x, w), AlternatingAmplitude(x, w))), w, k) == Bin(Window(x), w, k)
  {
    hide Bin, Mul, Add, Conj, Divided, HalfTurn, PowerOfTwo, IsMix;
    EvenLength(|x|);
    var n, a, c := |x| as real, ToneAmplitudes(x, w), AlternatingAmplitude(x, w);
    var y := Synthesis(w, a, c);
    SynthesisIsMix(w, a, c);
    BinOfMix(y, w, a, c, k);
    var z := Bin(Window(x), w, k);
    EndBinsReal(x, w);
    if k == |a| {
      Quotient(z.re, n);
      RealMul(c, n);
    } else if k == 0 {
      HalvesAdd(z, n);
    } else {
      DividedBack(z, n);
      ConjDivided(z, n);
    }
  }

  lemma ConjDivided(z: Cplx, r: real)
    requires r != 0.0
    ensures Conj(Divided(Conj(z), r)) == Divided(z, r)
  {}

  lemma SynthesisLength(x: seq<real>, w: Cplx)
    requires |x| > 0 && |x| % 2 == 0
    ensures |Synthesis(w, ToneAmplitudes(x, w), AlternatingAmplitude(x, w))| == |x|
    ensures |ToneAmplitudes(x, w)| == |x| / 2
  {}

  /** Every real window is the mix of the tones read off its spectrum. */
  lemma EveryWindowIsMix(x: seq<real>, w: Cplx)
    requires PowerOfTwo(|x|) && |x| >= 2 && HalfTurn(w, |x|)
    ensures IsMix(x, w, ToneAmplitudes(x, w), AlternatingAmplitude(x, w))
  {
    hide Bin, HalfTurn, PowerOfTwo, Synthesis, ToneAmplitudes, AlternatingAmplitude, IsMix;
    EvenLength(|x|);
    var a, c := ToneAmplitudes(x, w), AlternatingAmplitude(x, w);
    var n, y := |x|, Synthesis(w, a, c);
    SynthesisLength(x, w);
    SynthesisIsMix(w, a, c);
    forall k: nat | k < n ensures Transform(Window(y), w)[k] == Transform(Window(x), w)[k] {
      if k <= n / 2 {
        SameLowBin(x, w, k);
      } else {
        SameLowBin(x, w, n - k);
        ConjSymmetry(x, w, n - k);
        ConjSymmetry(y, w, n - k);
      }
    }
    TransformInjective(Window(y), Window(x), w);
    forall j: nat | j < n ensures y[j] == x[j] { assert Window(y)[j] == Window(x)[j]; }
    assert y == x;
  }
}
