/**
 The vocabulary shared by every matcher: characters, occurrences of a pattern in a
 text, and the ordered list of all occurrence offsets that each matcher must report.
 */
module Text {

  /** Number of columns of the automaton's transition table (MAX_ALPHA). */
  const MaxAlpha: int := 256

  /** A `char` of the text or pattern. The C code uses signed `char`; only the
      non-negative half 0..127 is modelled, where signed and unsigned agree. */
  type Char = c: int | 0 <= c < 128

  /** The text contains no NUL byte. */
  predicate NoNul(s: seq<Char>) {
    forall k :: 0 <= k < |s| ==> s[k] != 0
  }

  /** The character a C routine reads at index `k` of a NUL-terminated string:
      the terminator is read at `k == |s|` (and beyond, in this model). */
  function CharAt(s: seq<Char>, k: nat): Char {
    if k < |s| then s[k] else 0
  }

  /** `term` occurs in `text` starting at offset `p`. */
  ghost predicate IsOccurrence(text: seq<Char>, term: seq<Char>, p: int) {
    0 <= p && p + |term| <= |text| && text[p..p + |term|] == term
  }

  /** `u` is a suffix of `w`. Words over `int` so that the automaton can append
      any of its 256 column values. */
  ghost predicate EndsWith(w: seq<int>, u: seq<int>) {
    |u| <= |w| && forall t :: 0 <= t < |u| ==> w[|w| - |u| + t] == u[t]
  }

  ghost predicate StrictlyIncreasing(s: seq<int>) {
    forall a, b :: 0 <= a < b < |s| ==> s[a] < s[b]
  }

  /** A value below every element of an increasing sequence can go in front. */
  lemma PrependIncreasing(x: int, s: seq<int>)
    requires StrictlyIncreasing(s) && forall j :: 0 <= j < |s| ==> x < s[j]
    ensures StrictlyIncreasing([x] + s)
  {
  }

  /** The occurrence offsets below `k`, in increasing order. */
  ghost function OccBelow(text: seq<Char>, term: seq<Char>, k: int): seq<int>
    decreases k
  {
    if k <= 0 then []
    else
      var rest := OccBelow(text, term, k - 1);
      if IsOccurrence(text, term, k - 1) then rest + [k - 1] else rest
  }

  /** `OccBelow(k)` holds exactly the occurrence offsets in `[0, k)`, each once,
      in increasing order. */
  lemma {:induction false} OccBelowSpec(text: seq<Char>, term: seq<Char>, k: int)
    ensures forall p :: p in OccBelow(text, term, k) <==> 0 <= p < k && IsOccurrence(text, term, p)
    ensures StrictlyIncreasing(OccBelow(text, term, k))
    ensures forall j :: 0 <= j < |OccBelow(text, term, k)| ==> OccBelow(text, term, k)[j] < k
    decreases k
  {
    if k > 0 {
      OccBelowSpec(text, term, k - 1);
      var rest := OccBelow(text, term, k - 1);
      if IsOccurrence(text, term, k - 1) {
        assert OccBelow(text, term, k) == rest + [k - 1];
      } else {
        assert OccBelow(text, term, k) == rest;
      }
    }
  }

  /** Every occurrence offset of `term` in `text`, in increasing order. */
  ghost function Occurrences(text: seq<Char>, term: seq<Char>): seq<int> {
    OccBelow(text, term, |text| - |term| + 1)
  }

  /** Offsets in `[lo, hi)` that are not occurrences add nothing to `OccBelow`. */
  lemma {:induction false} OccBelowStable(text: seq<Char>, term: seq<Char>, lo: int, hi: int)
    requires lo <= hi
    requires forall p :: lo <= p < hi ==> !IsOccurrence(text, term, p)
    ensures OccBelow(text, term, lo) == OccBelow(text, term, hi)
    decreases hi - lo
  {
    if lo < hi {
      OccBelowStable(text, term, lo, hi - 1);
    }
  }

  /** An occurrence at `p` is the same thing as `term` being a suffix of the first
      `p + |term|` characters of `text`. */
  lemma OccurrenceIsSuffix(text: seq<Char>, term: seq<Char>, p: int)
    requires 0 <= p && p + |term| <= |text|
    ensures IsOccurrence(text, term, p) <==> EndsWith(text[..p + |term|], term)
  {
    if EndsWith(text[..p + |term|], term) {
      forall t | 0 <= t < |term|
        ensures text[p..p + |term|][t] == term[t]
      {
        assert text[..p + |term|][p + t] == term[t];
      }
    }
  }
}
