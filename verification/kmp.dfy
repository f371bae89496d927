/**
 The Knuth-Morris-Pratt matcher of `stringsearch.c`: the failure table built by
 `kmp_table`, the scan of `kmp_search` exactly as written, and the scan with the
 textbook shift, which reports precisely the occurrences.
 */
module Kmp {
  import opened Text
  import opened PositionBuffer

  /** `W[..k]` is a border of `W[..j]`: it is both a prefix and a suffix of it. */
  ghost predicate IsBorder(W: seq<Char>, j: int, k: int) {
    0 <= k <= j <= |W| && forall t :: 0 <= t < k ==> W[t] == W[j - k + t]
  }

  /** Largest border of `W[..j]` no longer than `k`. */
  ghost function LongestBorderUpTo(W: seq<Char>, j: int, k: int): (r: int)
    requires 0 <= k <= j <= |W|
    ensures 0 <= r <= k && IsBorder(W, j, r)
    ensures forall b :: r < b <= k ==> !IsBorder(W, j, b)
    decreases k
  {
    if k == 0 || IsBorder(W, j, k) then k else LongestBorderUpTo(W, j, k - 1)
  }

  /** Length of the longest proper border of the non-empty prefix `W[..j]`. */
  ghost function LongestBorder(W: seq<Char>, j: int): (r: int)
    requires 1 <= j <= |W|
    ensures 0 <= r < j && IsBorder(W, j, r)
    ensures forall b :: r < b < j ==> !IsBorder(W, j, b)
  {
    LongestBorderUpTo(W, j, j - 1)
  }

  /** The table `kmp_table` leaves behind when its loop runs while `pos < limit`:
      `len + 2` entries from `calloc`, entry 0 is -1, entry 1 is 0, entries
      `2 <= pos < limit` hold the longest proper border of `W[..pos]`, and all
      the others keep the zero `calloc` gave them. */
  ghost function FailureTable(W: seq<Char>, limit: int): seq<int>
  {
    seq(|W| + 2, k requires 0 <= k < |W| + 2 =>
      if k == 0 then -1
      else if 2 <= k < limit && k <= |W| then LongestBorder(W, k)
      else 0)
  }

  /** What a scan needs of a table to terminate: every fallback is shorter than
      the match it replaces, and only entry 0 is negative. */
  ghost predicate ShiftSafe(T: seq<int>, n: int) {
    |T| == n + 2 && n >= 0 && T[0] == -1 && forall k :: 1 <= k <= n ==> 0 <= T[k] < k
  }

  lemma BorderShrink(W: seq<Char>, j: int, k: int)
    requires IsBorder(W, j + 1, k) && k >= 1
    ensures IsBorder(W, j, k - 1) && W[k - 1] == W[j]
  {
    assert W[k - 1] == W[j + 1 - k + (k - 1)];
  }

  lemma BorderExtend(W: seq<Char>, j: int, k: int)
    requires IsBorder(W, j, k) && j < |W| && W[k] == W[j]
    ensures IsBorder(W, j + 1, k + 1)
  {
  }

  /** For two borders `c <= b` of `W[..j]`, `W[..c]` is a border of `W[..b]`,
      and conversely every border of the border `W[..b]` is a border of `W[..j]`. */
  lemma BorderOfBorder(W: seq<Char>, j: int, b: int, c: int)
    requires IsBorder(W, j, b) && 0 <= c <= b
    ensures IsBorder(W, b, c) <==> IsBorder(W, j, c)
  {
    if IsBorder(W, b, c) {
      forall t | 0 <= t < c
        ensures W[t] == W[j - c + t]
      {
        assert W[t] == W[b - c + t];
        assert W[b - c + t] == W[j - b + (b - c + t)];
      }
    }
    if IsBorder(W, j, c) {
      forall t | 0 <= t < c
        ensures W[t] == W[b - c + t]
      {
        assert W[t] == W[j - c + t];
        assert W[b - c + t] == W[j - b + (b - c + t)];
      }
    }
  }

  /** The longest proper border is the unique proper border with no longer one. */
  lemma LongestBorderIs(W: seq<Char>, j: int, r: int)
    requires 1 <= j <= |W| && 0 <= r < j && IsBorder(W, j, r)
    requires forall b :: r < b < j ==> !IsBorder(W, j, b)
    ensures LongestBorder(W, j) == r
  {
  }

  /** The loop of `kmp_table`, run while `pos < limit`. The source runs it with
      `limit == |W|`; the corrected matcher also fills entry `|W|`. Entry `pos`
      receives the longest proper border of `W[..pos]`, computed from the borders
      already known: the candidate `cnd` always is a proper border of `W[..pos-1]`
      and no border of `W[..pos]` is longer than `cnd + 1`. */
  method BuildFailureTable(W: seq<Char>, limit: int) returns (T: seq<int>)
    requires limit == |W| || limit == |W| + 1
    ensures |T| == |W| + 2 && T[0] == -1 && T[1] == 0
    ensures forall k :: 1 <= k < limit ==> T[k] == LongestBorder(W, k)
    ensures forall k :: 2 <= k < |W| + 2 && (k >= limit || k > |W|) ==> T[k] == 0
    ensures T == FailureTable(W, limit)
  {
    T := seq(|W| + 2, _ => 0);
    T := T[0 := -1][1 := 0];
    var pos, cnd := 2, 0;
    while pos < limit
      invariant 2 <= pos && (pos <= limit || pos == 2)
      invariant 0 <= cnd
      invariant FilledUpTo(W, T, pos)
      invariant pos <= |W| ==> Candidate(W, pos, cnd)
      decreases limit - pos, cnd
    {
      if W[pos - 1] == W[cnd] {
        CandidateExtends(W, pos, cnd);
        FillStep(W, T, pos, cnd + 1);
        T := T[pos := cnd + 1];
        pos, cnd := pos + 1, cnd + 1;
      } else if cnd > 0 {
        CandidateFallsBack(W, pos, cnd, if cnd == 1 then 0 else T[cnd]);
        cnd := T[cnd];
      } else {
        CandidateResets(W, pos);
        FillStep(W, T, pos, 0);
        T := T[pos := 0];
        pos := pos + 1;
      }
    }
    if |W| >= 1 {
      assert LongestBorder(W, 1) == 0;
    }
    TableIsFailureTable(W, limit, T);
  }

  /** The table while `kmp_table` runs: entries `2 <= k < pos` are filled with
      the longest proper borders, and every later entry is still 0. */
  ghost predicate FilledUpTo(W: seq<Char>, T: seq<int>, pos: int) {
    |T| == |W| + 2 && T[0] == -1 && T[1] == 0
    && (forall k :: 2 <= k < pos && k <= |W| ==> T[k] == LongestBorder(W, k))
    && (forall k :: 2 <= k < |W| + 2 && pos <= k ==> T[k] == 0)
  }

  /** Writing the longest border of `W[..pos]` at `pos` fills one more entry. */
  lemma FillStep(W: seq<Char>, T: seq<int>, pos: int, v: int)
    requires 2 <= pos <= |W| && FilledUpTo(W, T, pos) && v == LongestBorder(W, pos)
    ensures FilledUpTo(W, T[pos := v], pos + 1)
  {
  }

  /** The loop invariant of `kmp_table` about `cnd`: it is a proper border of
      `W[..pos-1]`, and no border of `W[..pos]` is longer than `cnd + 1`. */
  ghost predicate Candidate(W: seq<Char>, pos: int, cnd: int) {
    1 <= pos <= |W| && 0 <= cnd < pos - 1 && IsBorder(W, pos - 1, cnd)
    && forall k :: cnd + 1 < k < pos ==> !IsBorder(W, pos, k)
  }

  /** `W[pos-1] == W[cnd]`: the entry is `cnd + 1` and the candidate grows. */
  lemma CandidateExtends(W: seq<Char>, pos: int, cnd: int)
    requires Candidate(W, pos, cnd) && W[pos - 1] == W[cnd]
    ensures LongestBorder(W, pos) == cnd + 1
    ensures pos + 1 <= |W| ==> Candidate(W, pos + 1, cnd + 1)
  {
    BorderExtend(W, pos - 1, cnd);
    LongestBorderIs(W, pos, cnd + 1);
    var next := pos + 1;
    forall k | cnd + 2 < k < next && next <= |W|
      ensures !IsBorder(W, next, k)
    {
      if IsBorder(W, next, k) {
        BorderShrink(W, pos, k);
      }
    }
  }

  /** A mismatch with `cnd > 0`: the next candidate is the longest proper border
      of the candidate itself. */
  lemma CandidateFallsBack(W: seq<Char>, pos: int, cnd: int, next: int)
    requires Candidate(W, pos, cnd) && W[pos - 1] != W[cnd] && cnd > 0
    requires next == LongestBorder(W, cnd)
    ensures Candidate(W, pos, next)
  {
    BorderOfBorder(W, pos - 1, cnd, next);
    forall k | next + 1 < k < pos
      ensures !IsBorder(W, pos, k)
    {
      if IsBorder(W, pos, k) {
        BorderShrink(W, pos - 1, k);
        if k < cnd + 1 {
          BorderOfBorder(W, pos - 1, cnd, k - 1);
        }
      }
    }
  }

  /** A mismatch with `cnd == 0`: the entry is 0 and the candidate stays 0. */
  lemma CandidateResets(W: seq<Char>, pos: int)
    requires Candidate(W, pos, 0) && W[pos - 1] != W[0]
    ensures LongestBorder(W, pos) == 0
    ensures pos + 1 <= |W| ==> Candidate(W, pos + 1, 0)
  {
    forall k | 0 < k < pos
      ensures !IsBorder(W, pos, k)
    {
      if IsBorder(W, pos, k) {
        BorderShrink(W, pos - 1, k);
      }
    }
    LongestBorderIs(W, pos, 0);
    var next := pos + 1;
    forall k | 1 < k < next && next <= |W|
      ensures !IsBorder(W, next, k)
    {
      if IsBorder(W, next, k) {
        BorderShrink(W, pos, k);
      }
    }
  }

  lemma TableIsFailureTable(W: seq<Char>, limit: int, T: seq<int>)
    requires limit == |W| || limit == |W| + 1
    requires |T| == |W| + 2 && T[0] == -1 && T[1] == 0
    requires forall k :: 1 <= k < limit ==> T[k] == LongestBorder(W, k)
    requires forall k :: 2 <= k < |W| + 2 && (k >= limit || k > |W|) ==> T[k] == 0
    ensures T == FailureTable(W, limit)
  {
  }

  /** Both tables the matchers use satisfy what a scan needs to terminate. */
  lemma FailureTableShiftSafe(W: seq<Char>, limit: int)
    requires limit == |W| || limit == |W| + 1
    ensures ShiftSafe(FailureTable(W, limit), |W|)
  {
  }

  /** The loop of `kmp_search` exactly as written, from window start `m` with `i`
      characters of the window taken as matched: the offsets it records from here
      on. On a mismatch it sets `i = T[i]` first and then advances `m` by
      `i - T[i]` of the NEW `i`. After a full match `i == |term|` and the next
      comparison meets the pattern's NUL terminator, which a NUL-free text never
      equals. */
  function KmpScan(text: seq<Char>, term: seq<Char>, T: seq<int>, m: nat, i: nat): seq<int>
    requires NoNul(text) && ShiftSafe(T, |term|) && i <= |term|
    decreases |text| - m, |term| - i
  {
    if m + i >= |text| then []
    else if CharAt(term, i) == text[m + i] then
      if i == |term| - 1 then [m] + KmpScan(text, term, T, m, i + 1)
      else KmpScan(text, term, T, m, i + 1)
    else if T[i] > -1 then
      var f := T[i];
      KmpScan(text, term, T, m + (f - T[f]), f)
    else
      KmpScan(text, term, T, m + 1, 0)
  }

  /** The as-written scan terminates with offsets that are strictly increasing,
      no smaller than the window start, and each followed by room for the whole
      pattern; after a full match (`i == |term|`) they lie strictly beyond `m`. */
  lemma {:induction false} KmpScanBounds(text: seq<Char>, term: seq<Char>, T: seq<int>, m: nat, i: nat)
    requires NoNul(text) && ShiftSafe(T, |term|) && i <= |term|
    ensures var r := KmpScan(text, term, T, m, i);
            && (forall j :: 0 <= j < |r| ==> m <= r[j] && r[j] + |term| <= |text|)
            && (i == |term| >= 1 ==> forall j :: 0 <= j < |r| ==> m < r[j])
            && StrictlyIncreasing(r)
    decreases |text| - m, |term| - i
  {
    var r := KmpScan(text, term, T, m, i);
    if m + i >= |text| {
      assert r == [];
    } else if CharAt(term, i) == text[m + i] {
      KmpScanBounds(text, term, T, m, i + 1);
      var rest := KmpScan(text, term, T, m, i + 1);
      if i == |term| - 1 {
        assert r == [m] + rest;
        PrependIncreasing(m, rest);
      } else {
        assert r == rest;
      }
    } else if T[i] > -1 {
      var f := T[i];
      KmpScanBounds(text, term, T, m + (f - T[f]), f);
      assert r == KmpScan(text, term, T, m + (f - T[f]), f);
    } else {
      KmpScanBounds(text, term, T, m + 1, 0);
      assert r == KmpScan(text, term, T, m + 1, 0);
    }
  }

  /** `kmp_search` as written: builds the table, scans, and records every offset
      into a growable position array. The recorded offsets are strictly
      increasing and each leaves room for the whole pattern, but they are NOT
      always occurrences (see `AsWrittenFalsePositive`). */
  method KmpSearch(text: seq<Char>, term: seq<Char>) returns (c: int, buf: PosArray)
    requires NoNul(text)
    ensures Valid(buf) && c == |Items(buf)|
    ensures Items(buf) == KmpScan(text, term, FailureTable(term, |term|), 0, 0)
    ensures StrictlyIncreasing(Items(buf))
    ensures forall j :: 0 <= j < c ==> 0 <= Items(buf)[j] && Items(buf)[j] + |term| <= |text|
  {
    var T := BuildFailureTable(term, |term|);
    FailureTableShiftSafe(term, |term|);
    buf := ScanAsWritten(text, term, T);
    c := buf.count;
  }

  /** The loop of `kmp_search` (lines 80-98) over a given table: for any table
      whose fallbacks keep the shift positive, the loop terminates and records
      strictly increasing offsets, each with room for the whole pattern. */
  method ScanAsWritten(text: seq<Char>, term: seq<Char>, T: seq<int>) returns (buf: PosArray)
    requires NoNul(text) && ShiftSafe(T, |term|)
    ensures Valid(buf) && Items(buf) == KmpScan(text, term, T, 0, 0)
    ensures StrictlyIncreasing(Items(buf))
    ensures forall j :: 0 <= j < |Items(buf)| ==> 0 <= Items(buf)[j] && Items(buf)[j] + |term| <= |text|
  {
    buf := Empty();
    var m, i := 0, 0;
    while m + i < |text|
      invariant i <= |term| && Valid(buf)
      invariant Items(buf) + KmpScan(text, term, T, m, i) == KmpScan(text, term, T, 0, 0)
      decreases |text| - m, |term| - i
    {
      ghost var rest := KmpScan(text, term, T, m, i);
      if CharAt(term, i) == text[m + i] {
        if i == |term| - 1 {
          assert rest == [m] + KmpScan(text, term, T, m, i + 1);
          buf := Append(buf, m);
        } else {
          assert rest == KmpScan(text, term, T, m, i + 1);
        }
        i := i + 1;
      } else if T[i] > -1 {
        assert rest == KmpScan(text, term, T, m + (T[i] - T[T[i]]), T[i]);
        i := T[i];
        m := m + (i - T[i]);
      } else {
        assert rest == KmpScan(text, term, T, m + 1, 0);
        i := 0;
        m := m + 1;
      }
    }
    KmpScanBounds(text, term, T, 0, 0);
  }

  /** Pattern "abbabb" against text "abbababb": the as-written scan records offset
      2, where the text reads "bababb". After five characters match and the sixth
      does not, `i` falls back to 2 and `m` moves by `2 - T[2] == 2`, so the scan
      resumes as though "ab" were already matched at offset 2, where "ba" stands. */
  lemma AsWrittenFalsePositive()
    ensures var text := [97, 98, 98, 97, 98, 97, 98, 98];
            var term := [97, 98, 98, 97, 98, 98];
            && KmpScan(text, term, FailureTable(term, |term|), 0, 0) == [2]
            && !IsOccurrence(text, term, 2)
            && Occurrences(text, term) == []
  {
    var text: seq<Char> := [97, 98, 98, 97, 98, 97, 98, 98];
    var term: seq<Char> := [97, 98, 98, 97, 98, 98];
    var T := [-1, 0, 0, 0, 1, 2, 0, 0];
    CounterexampleTable(term, T);
    FailureTableShiftSafe(term, |term|);
    CounterexampleScan(text, term, T);
    CounterexampleNoOccurrence(text, term);
  }

  lemma CounterexampleScan(text: seq<Char>, term: seq<Char>, T: seq<int>)
    requires text == [97, 98, 98, 97, 98, 97, 98, 98] && term == [97, 98, 98, 97, 98, 98]
    requires T == [-1, 0, 0, 0, 1, 2, 0, 0]
    ensures NoNul(text) && ShiftSafe(T, |term|)
    ensures KmpScan(text, term, T, 0, 0) == [2]
  {
    assert NoNul(text);
    CounterexampleResume(text, term, T);
    assert KmpScan(text, term, T, 0, 0) == KmpScan(text, term, T, 0, 1);
    assert KmpScan(text, term, T, 0, 1) == KmpScan(text, term, T, 0, 2);
    assert KmpScan(text, term, T, 0, 2) == KmpScan(text, term, T, 0, 3);
    assert KmpScan(text, term, T, 0, 3) == KmpScan(text, term, T, 0, 4);
    assert KmpScan(text, term, T, 0, 4) == KmpScan(text, term, T, 0, 5);
    assert KmpScan(text, term, T, 0, 5) == KmpScan(text, term, T, 2, 2);
  }

  /** The scan resumed at offset 2 with two characters taken as matched. */
  lemma CounterexampleResume(text: seq<Char>, term: seq<Char>, T: seq<int>)
    requires text == [97, 98, 98, 97, 98, 97, 98, 98] && term == [97, 98, 98, 97, 98, 98]
    requires T == [-1, 0, 0, 0, 1, 2, 0, 0]
    ensures NoNul(text) && ShiftSafe(T, |term|)
    ensures KmpScan(text, term, T, 2, 2) == [2]
  {
    assert NoNul(text);
    assert KmpScan(text, term, T, 2, 2) == KmpScan(text, term, T, 2, 3);
    assert KmpScan(text, term, T, 2, 3) == KmpScan(text, term, T, 2, 4);
    assert KmpScan(text, term, T, 2, 4) == KmpScan(text, term, T, 2, 5);
    assert KmpScan(text, term, T, 2, 5) == [2] + KmpScan(text, term, T, 2, 6);
  }

  lemma CounterexampleNoOccurrence(text: seq<Char>, term: seq<Char>)
    requires text == [97, 98, 98, 97, 98, 97, 98, 98] && term == [97, 98, 98, 97, 98, 98]
    ensures Occurrences(text, term) == [] && !IsOccurrence(text, term, 2)
  {
    assert !IsOccurrence(text, term, 0) by { assert text[0..6][5] != term[5]; }
    assert !IsOccurrence(text, term, 1) by { assert text[1..7][0] != term[0]; }
    assert !IsOccurrence(text, term, 2) by { assert text[2..8][0] != term[0]; }
    OccBelowStable(text, term, 0, 3);
  }

  /** The as-written failure table of "abbabb". */
  lemma CounterexampleTable(term: seq<Char>, T: seq<int>)
    requires term == [97, 98, 98, 97, 98, 98] && T == [-1, 0, 0, 0, 1, 2, 0, 0]
    ensures FailureTable(term, |term|) == T
  {
    assert !IsBorder(term, 2, 1) by { assert term[0] != term[1]; }
    LongestBorderIs(term, 2, 0);
    assert !IsBorder(term, 3, 1) by { assert term[0] != term[2]; }
    assert !IsBorder(term, 3, 2) by { assert term[0] != term[1]; }
    LongestBorderIs(term, 3, 0);
    assert !IsBorder(term, 4, 2) by { assert term[0] != term[2]; }
    assert !IsBorder(term, 4, 3) by { assert term[0] != term[1]; }
    assert IsBorder(term, 4, 1);
    LongestBorderIs(term, 4, 1);
    assert !IsBorder(term, 5, 3) by { assert term[0] != term[2]; }
    assert !IsBorder(term, 5, 4) by { assert term[0] != term[1]; }
    assert IsBorder(term, 5, 2);
    LongestBorderIs(term, 5, 2);
  }

  /** The first `i` characters of the window at `m` equal those of the pattern. */
  ghost predicate MatchedAt(text: seq<Char>, term: seq<Char>, m: int, i: int) {
    0 <= m && 0 <= i <= |term| && m + i <= |text|
    && forall t :: 0 <= t < i ==> text[m + t] == term[t]
  }

  /** The corrected `kmp_search`: the table also holds the longest proper border of
      the whole pattern, and the scan uses the textbook shift. It records exactly
      the occurrences, overlapping ones included. */
  method KmpSearchFixed(text: seq<Char>, term: seq<Char>) returns (c: int, buf: PosArray)
    requires |term| >= 1
    ensures Valid(buf) && c == |Items(buf)|
    ensures Items(buf) == Occurrences(text, term)
  {
    var T := BuildFailureTable(term, |term| + 1);
    buf := ScanFixed(text, term, T);
    c := buf.count;
  }

  /** The table of the corrected scan: `T[0] == -1` and, for every `1 <= k <= |term|`,
      `T[k]` is the longest proper border of `term[..k]`. */
  ghost predicate FixedTable(term: seq<Char>, T: seq<int>) {
    |T| == |term| + 2 && T[0] == -1
    && forall k :: 1 <= k <= |term| ==> T[k] == LongestBorder(term, k)
  }

  /** The offsets below this window start have all been decided. */
  ghost function Decided(m: int, i: int, n: int): int {
    if i == n then m + 1 else m
  }

  /** The scan with the textbook shift: on a mismatch, or after a full match, the
      window moves by `i - T[i]` of the CURRENT `i` before `i` falls back to
      `T[i]`. */
  method ScanFixed(text: seq<Char>, term: seq<Char>, T: seq<int>) returns (buf: PosArray)
    requires |term| >= 1 && FixedTable(term, T)
    ensures Valid(buf) && Items(buf) == Occurrences(text, term)
  {
    var n := |term|;
    buf := Empty();
    var m, i := 0, 0;
    while m + i < |text|
      invariant MatchedAt(text, term, m, i)
      invariant Valid(buf)
      invariant Items(buf) == OccBelow(text, term, Decided(m, i, n))
      decreases |text| - m, n - i
    {
      if i < n && term[i] == text[m + i] {
        MatchStep(text, term, m, i);
        i := i + 1;
        if i == n {
          buf := Append(buf, m);
        }
      } else {
        MismatchStep(text, term, T, m, i);
        if T[i] > -1 {
          m := m + (i - T[i]);
          i := T[i];
        } else {
          i := 0;
          m := m + 1;
        }
      }
    }
    ScanEnd(text, term, m, i);
  }

  /** When the window runs off the text, every occurrence has been decided. */
  lemma ScanEnd(text: seq<Char>, term: seq<Char>, m: int, i: int)
    requires |term| >= 1 && MatchedAt(text, term, m, i) && m + i >= |text|
    ensures OccBelow(text, term, Decided(m, i, |term|)) == Occurrences(text, term)
  {
    var n := |term|;
    if i < n {
      OccBelowStable(text, term, |text| - n + 1, m);
    }
  }

  /** One more matching character: when it completes the pattern, the window at
      `m` is the next occurrence. */
  lemma MatchStep(text: seq<Char>, term: seq<Char>, m: int, i: int)
    requires MatchedAt(text, term, m, i) && i < |term| && m + i < |text| && term[i] == text[m + i]
    ensures MatchedAt(text, term, m, i + 1)
    ensures OccBelow(text, term, Decided(m, i + 1, |term|)) ==
              OccBelow(text, term, Decided(m, i, |term|)) + (if i + 1 == |term| then [m] else [])
  {
    var n := |term|;
    forall t | 0 <= t < i + 1
      ensures text[m + t] == term[t]
    {
    }
    if i + 1 == n {
      assert IsOccurrence(text, term, m) by {
        forall t | 0 <= t < n
          ensures text[m..m + n][t] == term[t]
        {
          assert text[m + t] == term[t];
        }
      }
      assert OccBelow(text, term, m + 1) == OccBelow(text, term, m) + [m];
    }
  }

  /** A mismatch (or a full match) in the corrected scan: the window moves forward
      and no occurrence is passed. */
  lemma MismatchStep(text: seq<Char>, term: seq<Char>, T: seq<int>, m: int, i: int)
    requires |term| >= 1 && FixedTable(term, T)
    requires MatchedAt(text, term, m, i) && m + i < |text|
    requires i < |term| ==> term[i] != text[m + i]
    ensures T[i] > -1 ==> 0 <= T[i] < i && MatchedAt(text, term, m + (i - T[i]), T[i])
    ensures T[i] > -1 ==> OccBelow(text, term, Decided(m, i, |term|)) == OccBelow(text, term, m + (i - T[i]))
    ensures T[i] <= -1 ==> i == 0 && MatchedAt(text, term, m + 1, 0)
    ensures T[i] <= -1 ==> OccBelow(text, term, Decided(m, i, |term|)) == OccBelow(text, term, m + 1)
  {
    if i == 0 {
      Fallback(text, term, m, i, -1);
    } else {
      Fallback(text, term, m, i, T[i]);
    }
  }

  /** A mismatch at `i` (or a full match, `i == |term|`) moves the window by
      `i - b` without passing an unreported occurrence, where `b` is the longest
      proper border of `term[..i]`, or -1 when `i == 0`. */
  lemma Fallback(text: seq<Char>, term: seq<Char>, m: int, i: int, b: int)
    requires |term| >= 1 && MatchedAt(text, term, m, i) && m + i < |text|
    requires i < |term| ==> term[i] != text[m + i]
    requires if i == 0 then b == -1 else b == LongestBorder(term, i)
    ensures MatchedAt(text, term, m + (i - b), if b < 0 then 0 else b)
    ensures OccBelow(text, term, if i == |term| then m + 1 else m) == OccBelow(text, term, m + (i - b))
  {
    var n := |term|;
    var base := if i == n then m + 1 else m;
    assert i < n ==> !IsOccurrence(text, term, m) by {
      if i < n && m + n <= |text| {
        assert text[m..m + n][i] != term[i];
      }
    }
    if i == 0 {
      OccBelowStable(text, term, m, m + 1);
    } else {
      SkipSound(text, term, m, i, b);
      OccBelowStable(text, term, base, m + (i - b));
    }
  }

  /** Window starts strictly between `m` and `m + i - b` are not occurrences when
      the window at `m` matches `i` characters and `b` is the longest proper
      border of `term[..i]`: an occurrence there would be a longer proper border.
      The window at `m + i - b` then matches its first `b` characters. */
  lemma SkipSound(text: seq<Char>, term: seq<Char>, m: int, i: int, b: int)
    requires MatchedAt(text, term, m, i) && 1 <= i
    requires b == LongestBorder(term, i)
    ensures forall p :: m < p < m + i - b ==> !IsOccurrence(text, term, p)
    ensures MatchedAt(text, term, m + (i - b), b)
  {
    OccurrenceInsideIsBorder(text, term, m, i);
    forall t | 0 <= t < b
      ensures text[m + (i - b) + t] == term[t]
    {
      assert text[m + (i - b + t)] == term[i - b + t];
    }
  }

  /** An occurrence starting at `p` inside a window at `m` that matches `i`
      characters makes the last `m + i - p` of those characters a border of
      `term[..i]`. */
  lemma OccurrenceInsideIsBorder(text: seq<Char>, term: seq<Char>, m: int, i: int)
    requires MatchedAt(text, term, m, i)
    ensures forall p :: m < p < m + i && IsOccurrence(text, term, p) ==> IsBorder(term, i, m + i - p)
  {
    forall p | m < p < m + i && IsOccurrence(text, term, p)
      ensures IsBorder(term, i, m + i - p)
    {
      var k := m + i - p;
      forall t | 0 <= t < k
        ensures term[t] == term[i - k + t]
      {
        assert text[p..p + |term|][t] == term[t];
        assert text[m + (p - m + t)] == term[p - m + t];
      }
    }
  }
}
