/** For which window lengths `_fft` stays inside its arrays. */
module FftBounds {
  import opened Dft
  import opened Fft

  /** The loop of the call at (step, o) and of all the calls below it touch only indices
      below n: the loop reads o + i and o + i + step, and writes o + i/2 and o + (i + n)/2. */
  ghost predicate StaysInside(n: nat, step: nat, o: nat)
    requires step > 0
    decreases n - step
  {
    step < n ==>
      && (forall q: nat | Counter(step, q) < n ::
            o + Counter(step, q) + step < n && o + (Counter(step, q) + n) / 2 < n)
      && StaysInside(n, 2 * step, o)
      && StaysInside(n, 2 * step, o + step)
  }

  lemma OddEdge(step: nat, q: nat)
    ensures step * (2 * q + 1) == Counter(step, q) + step
  {}

  /** The last call of every level, at offset step - 1, forces the next factor of two. */
  lemma {:induction false} InsideForcesPower(n: nat, step: nat, m: nat)
    requires m >= 1 && step > 0 && n == step * m && StaysInside(n, step, step - 1)
    ensures PowerOfTwo(m)
    decreases m
  {
    if m > 1 {
      var q := m / 2;
      CounterStep(step, q, q);
      assert step < n by { assert step * m >= step * 2; }
      if m % 2 == 1 {
        OddEdge(step, q);
        assert false;
      }
      assert n == 2 * step * q by { assert step * (2 * q) == 2 * step * q; }
      InsideForcesPower(n, 2 * step, q);
    }
  }

  lemma {:induction false} PowerStaysInside(n: nat, step: nat, m: nat, o: nat)
    requires o < step && n == step * m && PowerOfTwo(m)
    ensures StaysInside(n, step, o)
    decreases m
  {
    if m > 1 {
      var h := m / 2;
      assert m == 2 * h && PowerOfTwo(h);
      CounterStep(step, h, h);
      forall q: nat | Counter(step, q) < n
        ensures o + Counter(step, q) + step < n && o + (Counter(step, q) + n) / 2 < n
      {
        CounterStep(step, h, q);
        LoopIndices(o, step, h, q, Counter(step, q), n);
        LoopBounds(o, step, h, q, n);
      }
      assert n == 2 * step * h by { assert step * (2 * h) == 2 * step * h; }
      PowerStaysInside(n, 2 * step, h, o);
      PowerStaysInside(n, 2 * step, h, o + step);
    } else {
      assert m == 1;
    }
  }

  /** A nonempty window is processed inside its arrays exactly when its length is a power of two. */
  lemma InsideIffPowerOfTwo(n: nat)
    requires n > 0
    ensures StaysInside(n, 1, 0) <==> PowerOfTwo(n)
  {
    if StaysInside(n, 1, 0) { InsideForcesPower(n, 1, n); }
    if PowerOfTwo(n) { PowerStaysInside(n, 1, n, 0); }
  }
}
