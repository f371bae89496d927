/**
 Polynomial string hashes. Both hash routines of the repository fold a string left
 to right with `h = base * h + c`; `Horner` is that fold over unbounded integers, and
 `PolySum` the polynomial it denotes, `Σ w[k] * base^(|w|-1-k)`.
 */
module Hashing {
  import opened Text

  function Pow(b: int, e: nat): int
    decreases e
  {
    if e == 0 then 1 else Pow(b, e - 1) * b
  }

  /** `h = base * h + c` over the characters of `w`, without any reduction. */
  function Horner(w: seq<Char>, base: int): int
    decreases |w|
  {
    if |w| == 0 then 0 else Horner(w[..|w| - 1], base) * base + w[|w| - 1]
  }

  /** The polynomial `Σ_k w[k] * base^(|w|-1-k)`. */
  function PolySum(w: seq<Char>, base: int): int
    decreases |w|
  {
    if |w| == 0 then 0 else w[0] * Pow(base, |w| - 1) + PolySum(w[1..], base)
  }

  lemma {:induction false} PolySumAppend(w: seq<Char>, c: Char, base: int)
    ensures PolySum(w + [c], base) == PolySum(w, base) * base + c
    decreases |w|
  {
    if |w| == 0 {
      assert PolySum([c], base) == c * Pow(base, 0) + PolySum([], base);
    } else {
      var n := |w|;
      assert (w + [c])[1..] == w[1..] + [c];
      PolySumAppend(w[1..], c, base);
      calc {
        PolySum(w + [c], base);
        w[0] * Pow(base, n) + PolySum(w[1..] + [c], base);
        w[0] * Pow(base, n) + PolySum(w[1..], base) * base + c;
        { assert w[0] * Pow(base, n) == (w[0] * Pow(base, n - 1)) * base; }
        (w[0] * Pow(base, n - 1) + PolySum(w[1..], base)) * base + c;
        PolySum(w, base) * base + c;
      }
    }
  }

  /** The fold computes the polynomial: `Horner(w, b) == Σ w[k] * b^(|w|-1-k)`. */
  lemma {:induction false} HornerIsPolySum(w: seq<Char>, base: int)
    ensures Horner(w, base) == PolySum(w, base)
    decreases |w|
  {
    if |w| > 0 {
      var front := w[..|w| - 1];
      HornerIsPolySum(front, base);
      PolySumAppend(front, w[|w| - 1], base);
      assert front + [w[|w| - 1]] == w;
    }
  }

  /** Reducing the accumulator modulo `M` before each step does not change the
      final residue, so a fold that reduces at every step computes `Horner % M`. */
  lemma FoldStepMod(a: int, base: int, c: int, M: int)
    requires M > 0
    ensures (base * (a % M) + c) % M == (base * a + c) % M
  {
    var q := a / M;
    assert a == q * M + a % M;
    assert base * a + c == (base * q) * M + (base * (a % M) + c);
    ShiftMod(base * (a % M) + c, base * q, M);
  }

  lemma ShiftMod(x: int, k: int, M: int)
    requires M > 0
    ensures (k * M + x) % M == x % M
  {
    var q := x / M;
    assert x == q * M + x % M;
    assert k * M + x == (k + q) * M + x % M;
    ModUnique(k * M + x, k + q, x % M, M);
  }

  /** Euclidean division has exactly one quotient and remainder. */
  lemma ModUnique(y: int, q: int, r: int, M: int)
    requires M > 0 && 0 <= r < M && y == q * M + r
    ensures y % M == r
  {
    var d := q - y / M;
    assert y == (y / M) * M + y % M;
    assert d * M == y % M - r;
    assert d > 0 ==> d * M >= M;
    assert d < 0 ==> d * M <= -M;
  }
}
