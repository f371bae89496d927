/**
 The stand-alone Rabin-Karp demonstration `rk_string_search.cpp`: hashes base
 `d = 0xff` modulo `prime = 17` in `uint64_t` arithmetic, a rolling update of the
 window hash, and `verifyMatch` to confirm every hash hit.

 Since 255 = 15 * 17, the base vanishes modulo the prime: every window hash is
 just its last character modulo 17, and the rolling update lands on that value
 whatever the previous hash was, even when the unsigned subtraction wraps.
 */
module RollingDemo {
  import opened Text
  import opened Hashing

  const Prime: int := 17
  const D: int := 0xff
  /** `uint64_t` arithmetic wraps modulo 2^64. */
  const Word64: int := 0x1_0000_0000_0000_0000

  /** `verifyMatch(T, start, end, P)`: false when `end - start` is not the length of
      `P`, otherwise whether `T[start..end]` spells `P`, compared one character at a
      time. */
  method VerifyMatch(T: seq<Char>, start: nat, end: nat, P: seq<Char>) returns (r: bool)
    requires start <= end
    requires end - start == |P| ==> end <= |T|
    ensures end - start != |P| ==> !r
    ensures end - start == |P| ==> (r <==> T[start..end] == P)
    ensures end - start == |P| ==> (r <==> IsOccurrence(T, P, start))
  {
    if end - start != |P| {
      return false;
    }
    var s := start;
    var index := 0;
    while s < end
      invariant start <= s <= end && index == s - start
      invariant T[start..s] == P[..index]
    {
      if P[index] != T[s] {
        assert T[start..end][index] != P[index];
        return false;
      }
      assert T[start..s + 1] == T[start..s] + [T[s]];
      assert P[..index + 1] == P[..index] + [P[index]];
      s := s + 1;
      index := index + 1;
    }
    assert P[..index] == P;
    return true;
  }

  /** Any string with at least one character hashes, base 255 modulo 17, to its
      last character modulo 17. */
  lemma HashIsLast(w: seq<Char>)
    requires |w| >= 1
    ensures Horner(w, D) % Prime == w[|w| - 1] % Prime
  {
    var front := Horner(w[..|w| - 1], D);
    assert Horner(w, D) == (front * 15) * Prime + w[|w| - 1];
    ShiftMod(w[|w| - 1], front * 15, Prime);
  }

  /** The first loop of `main` (lines 42-54): `p` and `t` hash `P` and the first
      `|P|` characters of `T`, and `h` is `d^(m-1) mod prime` (1 when `m == 0`).
      No intermediate exceeds `17 * 255 + 127`, so `uint64_t` never wraps here. */
  method InitHashes(T: seq<Char>, P: seq<Char>) returns (p: int, t: int, h: int)
    requires |P| <= |T|
    ensures p == Horner(P, D) % Prime
    ensures t == Horner(T[..|P|], D) % Prime
    ensures h == if |P| == 0 then 1 else Pow(D, |P| - 1) % Prime
    ensures 0 <= p < Prime && 0 <= t < Prime && 0 <= h < Word64
  {
    var m := |P|;
    h, p, t := 1, 0, 0;
    var i := 0;
    while i < m
      invariant 0 <= i <= m
      invariant p == Horner(P[..i], D) % Prime
      invariant t == Horner(T[..i], D) % Prime
      invariant h == if i == 0 then 1 else Pow(D, if i < m then i else i - 1) % Prime
    {
      FoldStepMod(Horner(P[..i], D), D, P[i], Prime);
      FoldStepMod(Horner(T[..i], D), D, T[i], Prime);
      assert P[..i + 1][..i] == P[..i];
      assert T[..i + 1][..i] == T[..i];
      p := (p * D + P[i]) % Prime;
      t := (t * D + T[i]) % Prime;
      if i < m - 1 {
        PowStepMod(i, h);
        h := (h * D) % Prime;
      }
      i := i + 1;
    }
    assert P[..m] == P;
  }

  lemma PowStepMod(i: nat, h: int)
    requires h == (if i == 0 then 1 else Pow(D, i) % Prime)
    ensures (h * D) % Prime == Pow(D, i + 1) % Prime
  {
    if i > 0 {
      FoldStepMod(Pow(D, i), D, 0, Prime);
    }
  }

  /** One rolling step (lines 65-68): take `out` times `h` away from `t` in
      `uint64_t` (wrapping when it goes below zero), then multiply by `d` and add
      `incoming`, reducing modulo the prime after each step. The result is `incoming` modulo
      the prime for every earlier `t`, because `d` is a multiple of it. */
  function Slide(t: int, h: int, out: Char, incoming: Char): (r: int)
    requires 0 <= t < Word64 && 0 <= h < Word64
    ensures 0 <= r < Prime
    ensures r == incoming % Prime
  {
    var removed := (out * h) % Prime;
    var t1 := ((t - removed) % Word64) % Prime;
    var t2 := (D * t1) % Prime;
    ShiftMod(0, 15 * t1, Prime);
    assert t2 == 0;
    (t2 + incoming) % Prime
  }

  /** The rolling step gives the hash of the next window: after window
      `T[s..s + m]`, sliding out `T[s]` and in `T[s + m]` yields the hash of
      `T[s + 1..s + m + 1]`. */
  lemma SlideIsNextWindow(T: seq<Char>, s: nat, m: nat, t: int, h: int)
    requires m >= 1 && s + m < |T|
    requires 0 <= t < Word64 && 0 <= h < Word64
    ensures Slide(t, h, T[s], T[s + m]) == Horner(T[s + 1..s + m + 1], D) % Prime
  {
    HashIsLast(T[s + 1..s + m + 1]);
  }

  /** The do-while loop of `main` (lines 57-70): every window start `s` from 0 to
      `n - m` goes through the test `p == t && verifyMatch(T, s, s + m, P)` and the
      matching starts are collected (the source prints them). The slide past the
      last window reads `T[n]`, the string's terminating NUL. Every reported start
      is an occurrence, and with a non-empty pattern exactly the occurrences are
      reported, in increasing order. */
  method RollingSearch(T: seq<Char>, P: seq<Char>) returns (matches: seq<int>)
    requires |P| <= |T|
    ensures forall k :: 0 <= k < |matches| ==> IsOccurrence(T, P, matches[k])
    ensures StrictlyIncreasing(matches)
    ensures |P| >= 1 ==> matches == Occurrences(T, P)
  {
    var m := |P|;
    var n := |T|;
    var p, t, h := InitHashes(T, P);
    if m >= 1 {
      HashIsLast(P);
      HashIsLast(T[..m]);
    }
    matches := [];
    var s := 0;
    while s <= n - m
      invariant 0 <= s <= n - m + 1
      invariant 0 <= t < Prime
      invariant m >= 1 ==> p == P[m - 1] % Prime && t == CharAt(T, s + m - 1) % Prime
      invariant forall k :: 0 <= k < |matches| ==> IsOccurrence(T, P, matches[k]) && matches[k] < s
      invariant StrictlyIncreasing(matches)
      invariant m >= 1 ==> matches == OccBelow(T, P, s)
    {
      if p == t {
        var ok := VerifyMatch(T, s, s + m, P);
        if ok {
          matches := matches + [s];
        }
      } else {
        assert m >= 1 ==> P[m - 1] != T[s + m - 1];
        assert m >= 1 ==> T[s..s + m][m - 1] != P[m - 1];
      }
      t := Slide(t, h, CharAt(T, s), CharAt(T, s + m));
      s := s + 1;
    }
  }
}
