/**
 The cross-check at the end of `search_file` in `stringsearch.c`: the three
 matchers run over the same text, and their results are compared count against
 count and position against position. The comparison is a pure function here; what
 the C code prints becomes fields of a `Report`.
 */
module Harness {
  import opened Text
  import opened PositionBuffer
  import Kmp
  import RabinKarp
  import Automaton

  /** What `search_file` reports. `noMatch` holds, in the order rk, kmp, am, whether
      that matcher's count was `<= 0` ("error searching"); `countMismatch` is the
      "error!" line; `badTerms` the indices of the "search term %d error" lines,
      in the order they are printed. */
  datatype Report = Report(noMatch: seq<bool>, countMismatch: bool, badTerms: seq<int>)

  /** The block of a position array holds its count. */
  predicate Sized(b: PosArray) {
    b.count <= |b.slots|
  }

  /** Index `i` of the kmp array disagrees with rk or am: `kp_pos_array[i]` is
      compared with whatever slot `i` of the other arrays holds, recorded offset
      or not. An index past the end of another array's block (a read C leaves
      undefined) counts as a disagreement. */
  ghost predicate TermDiffers(kp: PosArray, rk: PosArray, am: PosArray, i: int)
    requires 0 <= i < |kp.slots|
  {
    i >= |rk.slots| || i >= |am.slots| || kp.slots[i] != rk.slots[i] || kp.slots[i] != am.slots[i]
  }

  /** The loop `for (i = 0; i < kp_found; i++)` from index `i` on. */
  function BadTermsFrom(kp: PosArray, rk: PosArray, am: PosArray, i: nat): (r: seq<int>)
    requires Sized(kp) && i <= kp.count
    decreases kp.count - i
  {
    if i == kp.count then []
    else if i >= |rk.slots| || i >= |am.slots| || kp.slots[i] != rk.slots[i] || kp.slots[i] != am.slots[i] then
      [i] + BadTermsFrom(kp, rk, am, i + 1)
    else BadTermsFrom(kp, rk, am, i + 1)
  }

  /** The loop prints exactly the indices from `i` up to `kp_found` whose slots
      disagree, in increasing order. */
  lemma {:induction false} BadTermsFromSpec(kp: PosArray, rk: PosArray, am: PosArray, i: nat)
    requires Sized(kp) && i <= kp.count
    ensures forall j :: j in BadTermsFrom(kp, rk, am, i) <==> i <= j < kp.count && TermDiffers(kp, rk, am, j)
    ensures StrictlyIncreasing(BadTermsFrom(kp, rk, am, i))
    decreases kp.count - i
  {
    if i < kp.count {
      BadTermsFromSpec(kp, rk, am, i + 1);
      var rest := BadTermsFrom(kp, rk, am, i + 1);
      assert forall t :: 0 <= t < |rest| ==> rest[t] in rest;
    }
  }

  /** The comparison of lines 238-246, given the three position arrays. */
  function Compare(rk: PosArray, kp: PosArray, am: PosArray): (r: Report)
    requires Sized(rk) && Sized(kp) && Sized(am)
    ensures |r.noMatch| == 3
    ensures r.noMatch[0] <==> rk.count == 0
    ensures r.noMatch[1] <==> kp.count == 0
    ensures r.noMatch[2] <==> am.count == 0
    ensures r.countMismatch <==> kp.count != rk.count || kp.count != am.count
    ensures forall i :: i in r.badTerms <==> 0 <= i < kp.count && TermDiffers(kp, rk, am, i)
    ensures StrictlyIncreasing(r.badTerms)
  {
    BadTermsFromSpec(kp, rk, am, 0);
    Report([rk.count <= 0, kp.count <= 0, am.count <= 0],
           kp.count != rk.count || kp.count != am.count,
           BadTermsFrom(kp, rk, am, 0))
  }

  /** Nothing printed as an error about the comparison. */
  predicate Agreed(r: Report) {
    !r.countMismatch && r.badTerms == []
  }

  /** The check is exact: it stays silent if and only if the three matchers
      recorded the same offsets. */
  lemma AgreedIffEqual(rk: PosArray, kp: PosArray, am: PosArray)
    requires Sized(rk) && Sized(kp) && Sized(am)
    ensures Agreed(Compare(rk, kp, am)) <==> Items(kp) == Items(rk) && Items(kp) == Items(am)
  {
    var r := Compare(rk, kp, am);
    if Agreed(r) {
      forall i | 0 <= i < kp.count
        ensures Items(kp)[i] == Items(rk)[i] && Items(kp)[i] == Items(am)[i]
      {
        assert i !in r.badTerms;
      }
    }
    if Items(kp) == Items(rk) && Items(kp) == Items(am) {
      forall i | 0 <= i < kp.count
        ensures !TermDiffers(kp, rk, am, i)
      {
        assert Items(kp)[i] == Items(rk)[i] && Items(kp)[i] == Items(am)[i];
      }
    }
    assert |r.badTerms| > 0 ==> r.badTerms[0] in r.badTerms;
  }

  /** Past the count of rk and am, but inside their blocks, the comparison meets
      the zero `calloc` left there: such an index is reported exactly when the
      kmp offset is not 0. */
  lemma PastCountReadsZero(rk: PosArray, kp: PosArray, am: PosArray, i: int)
    requires 0 <= i < |kp.slots| && rk.count <= i < |rk.slots| && am.count <= i < |am.slots|
    requires Zeroed(rk) && Zeroed(am)
    ensures TermDiffers(kp, rk, am, i) <==> kp.slots[i] != 0
  {
  }

  /** `search_file` with the file contents given as `text`: runs rk, kmp and am
      and compares them. Rabin-Karp needs a non-empty pattern. With the corrected
      KMP all three return exactly the occurrences, so the comparison never
      reports an error, and "error searching" appears exactly when there is no
      occurrence. */
  method SearchFile(text: seq<Char>, term: seq<Char>) returns (report: Report)
    requires |term| >= 1
    ensures Agreed(report)
    ensures report.noMatch == [Occurrences(text, term) == [], Occurrences(text, term) == [], Occurrences(text, term) == []]
  {
    var rkFound, rkPos := RabinKarp.RkSearch(text, term);
    var kpFound, kpPos := Kmp.KmpSearchFixed(text, term);
    var amFound, amPos := Automaton.AmSearch(text, term);
    report := Compare(rkPos, kpPos, amPos);
    AgreedIffEqual(rkPos, kpPos, amPos);
  }

  /** The text "abbababb" and the pattern "abbabb" of the KMP counterexample. */
  const CounterText: seq<Char> := [97, 98, 98, 97, 98, 97, 98, 98]
  const CounterTerm: seq<Char> := [97, 98, 98, 97, 98, 98]

  /** With the KMP loop as written, the check does fire on the counterexample:
      kmp records the one offset 2 while the text holds no occurrence, so rk and
      am record nothing and leave slot 0 at `calloc`'s zero; then both "error!"
      and "search term 0 error" appear. */
  lemma AsWrittenCaught(rk: PosArray, kp: PosArray, am: PosArray)
    requires Valid(rk) && Zeroed(rk) && Items(rk) == []
    requires Valid(am) && Zeroed(am) && Items(am) == []
    requires Valid(kp) && Items(kp) == [2]
    ensures Kmp.KmpScan(CounterText, CounterTerm, Kmp.FailureTable(CounterTerm, |CounterTerm|), 0, 0) == [2]
    ensures Occurrences(CounterText, CounterTerm) == []
    ensures var r := Compare(rk, kp, am); r.countMismatch && r.badTerms == [0]
  {
    Kmp.AsWrittenFalsePositive();
    Kmp.CounterexampleNoOccurrence(CounterText, CounterTerm);
    assert kp.slots[0] == Items(kp)[0];
    BadTermsFromSpec(kp, rk, am, 0);
    assert BadTermsFrom(kp, rk, am, 1) == [];
  }

  /** One kmp offset `x` against none from the others: "error!" appears, and
      "search term 0 error" appears exactly when `x` is not 0, because rk's and
      am's slot 0 still holds `calloc`'s zero. */
  lemma LoneKmpOffset(x: int)
    ensures Compare(Empty(), Append(Empty(), x), Empty()).countMismatch
    ensures Compare(Empty(), Append(Empty(), x), Empty()).badTerms == if x == 0 then [] else [0]
  {
    var kp := Append(Empty(), x);
    assert kp.slots[0] == x;
    assert BadTermsFrom(kp, Empty(), Empty(), 1) == [];
  }
}
