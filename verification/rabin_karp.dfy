/**
 The Rabin-Karp matcher of `stringsearch.c`: `rk_hash` folds a string with base 33
 in 32-bit `unsigned` arithmetic, and `rk_search` hashes every window afresh and
 confirms a hash hit by comparing all but the last character.
 */
module RabinKarp {
  import opened Text
  import opened Hashing
  import opened PositionBuffer

  /** `unsigned` arithmetic wraps modulo 2^32. */
  const Word: int := 0x1_0000_0000
  const Base: int := 33

  /** `rk_hash`: `h = 33 * h + c` over `src`, reduced modulo 2^32 at every step.
      (The source returns the `unsigned` value converted to `int`; that conversion
      is injective, so comparing the converted values compares these.) */
  method RkHash(src: seq<Char>) returns (h: int)
    ensures 0 <= h < Word
    ensures h == PolySum(src, Base) % Word
    ensures h == Horner(src, Base) % Word
  {
    h := 0;
    var k := 0;
    while k < |src|
      invariant 0 <= k <= |src|
      invariant h == Horner(src[..k], Base) % Word
    {
      FoldStepMod(Horner(src[..k], Base), Base, src[k], Word);
      assert src[..k + 1][..k] == src[..k];
      h := (Base * h + src[k]) % Word;
      k := k + 1;
    }
    assert src[..k] == src;
    HornerIsPolySum(src, Base);
  }

  /** Why comparing only the first `|term| - 1` characters suffices: two windows
      of equal length with equal hashes and equal fronts have equal last
      characters, since both lie in 0..127 and agree modulo 2^32. */
  lemma HashConfirmsLast(w: seq<Char>, u: seq<Char>)
    requires |w| == |u| >= 1 && w[..|w| - 1] == u[..|u| - 1]
    requires Horner(w, Base) % Word == Horner(u, Base) % Word
    ensures w == u
  {
    var front := w[..|w| - 1];
    var a, b := w[|w| - 1], u[|u| - 1];
    var H := Horner(front, Base) * Base;
    assert Horner(w, Base) == H + a;
    assert Horner(u, Base) == H + b;
    EqualResidues(H + a, H + b, Word);
    assert w == front + [a];
    assert u == front + [b];
  }

  /** Equal residues modulo `M` of numbers closer than `M` mean equal numbers. */
  lemma EqualResidues(x: int, y: int, M: int)
    requires M > 0 && x % M == y % M && -M < x - y < M
    ensures x == y
  {
    var d := x / M - y / M;
    assert x == (x / M) * M + x % M;
    assert y == (y / M) * M + y % M;
    assert x - y == d * M;
    assert d > 0 ==> d * M >= M;
    assert d < 0 ==> d * M <= -M;
  }

  /** A window is an occurrence exactly when `rk_search` records it: its hash
      equals the pattern's and its first `|term| - 1` characters equal the
      pattern's. */
  lemma HitIffOccurrence(text: seq<Char>, term: seq<Char>, i: int)
    requires |term| >= 1 && 0 <= i && i + |term| <= |text|
    ensures IsOccurrence(text, term, i) <==>
              Horner(text[i..i + |term|], Base) % Word == Horner(term, Base) % Word
              && text[i..i + |term| - 1] == term[..|term| - 1]
  {
    var w := text[i..i + |term|];
    assert w[..|w| - 1] == text[i..i + |term| - 1];
    if Horner(w, Base) % Word == Horner(term, Base) % Word && text[i..i + |term| - 1] == term[..|term| - 1] {
      HashConfirmsLast(w, term);
    }
  }

  /** `rk_search`: every window start `0 <= i <= |text| - |term|` in turn; a
      window whose hash equals the pattern's and whose first `|term| - 1`
      characters compare equal (`memcmp`) is recorded. It records exactly the
      occurrences, in increasing order. The pattern must be non-empty: with
      `term_len == 0` the `memcmp` length `term_len - 1` wraps around. */
  method RkSearch(text: seq<Char>, term: seq<Char>) returns (c: int, buf: PosArray)
    requires |term| >= 1
    ensures Valid(buf) && Zeroed(buf) && c == |Items(buf)|
    ensures Items(buf) == Occurrences(text, term)
  {
    var n := |term|;
    var hsub := RkHash(term);
    buf := Empty();
    var i := 0;
    while i < |text| - n + 1
      invariant 0 <= i && (i <= |text| - n + 1 || i == 0)
      invariant Valid(buf) && Zeroed(buf) && Items(buf) == OccBelow(text, term, i)
    {
      var hw := RkHash(text[i..i + n]);
      HitIffOccurrence(text, term, i);
      if hw == hsub {
        if text[i..i + n - 1] == term[..n - 1] {
          buf := Append(buf, i);
        }
      }
      i := i + 1;
    }
    c := buf.count;
  }
}
