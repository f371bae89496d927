/**
 The finite-automaton matcher of `stringsearch.c`. State `k` means "the last `k`
 characters read spell `term[..k]`"; `am_nextstate` computes the successor of a
 state on one input value, `am_table` tabulates it for every state and all 256
 values, and `am_search` runs the table over the text in one pass.
 */
module Automaton {
  import opened Text
  import opened PositionBuffer

  /** `term[..k]` is a suffix of the word `w`. */
  ghost predicate IsOverlap(term: seq<Char>, w: seq<int>, k: int) {
    0 <= k <= |term| && EndsWith(w, term[..k])
  }

  /** `k` is the length of the longest prefix of `term` that is a suffix of `w`. */
  ghost predicate IsLongestOverlap(term: seq<Char>, w: seq<int>, k: int) {
    IsOverlap(term, w, k) && forall j :: k < j <= |term| ==> !IsOverlap(term, w, j)
  }

  /** `am_nextstate`: the longest prefix of `term` that is a suffix of
      `term[..state]` followed by `x`. It tries `state + 1` first, then each
      shorter length `ns`, checking that `term[ns-1] == x` and that
      `term[..ns-1]` ends `term[..state]`; 0 if none fits. */
  method NextState(term: seq<Char>, state: int, x: int) returns (ns: int)
    requires 0 <= state <= |term| && 0 <= x < MaxAlpha
    ensures IsLongestOverlap(term, term[..state] + [x], ns)
    ensures 0 <= ns <= state + 1
  {
    ghost var w := term[..state] + [x];
    if state < |term| && x == term[state] {
      assert term[..state + 1] == w;
      return state + 1;
    }
    assert forall j :: state < j <= |term| ==> !IsOverlap(term, w, j);
    ns := state;
    while ns > 0
      invariant 0 <= ns <= state
      invariant forall j :: ns < j <= |term| ==> !IsOverlap(term, w, j)
    {
      if term[ns - 1] == x {
        var i := CommonPrefix(term, state, ns);
        if i == ns - 1 {
          forall t | 0 <= t < ns
            ensures w[|w| - ns + t] == term[..ns][t]
          {
          }
          return ns;
        }
        assert w[|w| - ns + i] != term[..ns][i];
      } else {
        assert w[|w| - ns + (ns - 1)] != term[..ns][ns - 1];
      }
      ns := ns - 1;
    }
    assert IsOverlap(term, w, 0);
  }

  /** Row `s` of the transition table: one successor state for each of the 256
      input values, each the longest overlap after reading that value in state `s`. */
  ghost predicate IsRow(term: seq<Char>, s: int, row: seq<int>)
    requires 0 <= s <= |term|
  {
    |row| == MaxAlpha &&
    forall x :: 0 <= x < MaxAlpha ==>
      0 <= row[x] <= |term| && IsLongestOverlap(term, term[..s] + [x], row[x])
  }

  /** The whole transition table: one row per state `0..|term|`. */
  ghost predicate IsTable(term: seq<Char>, table: seq<seq<int>>) {
    |table| == |term| + 1 && forall s :: 0 <= s <= |term| ==> IsRow(term, s, table[s])
  }

  /** The inner loop of `am_nextstate` (lines 148-150): how many leading
      characters of `term[..ns-1]` agree with the last `ns - 1` characters of
      `term[..state]`, stopping at the first disagreement. */
  method CommonPrefix(term: seq<Char>, state: int, ns: int) returns (i: int)
    requires 1 <= ns <= state <= |term|
    ensures 0 <= i <= ns - 1
    ensures forall t :: 0 <= t < i ==> term[t] == term[state - ns + 1 + t]
    ensures i < ns - 1 ==> term[i] != term[state - ns + 1 + i]
  {
    i := 0;
    while i < ns - 1 && term[i] == term[state - ns + 1 + i]
      invariant 0 <= i <= ns - 1
      invariant forall t :: 0 <= t < i ==> term[t] == term[state - ns + 1 + t]
    {
      i := i + 1;
    }
  }

  /** `am_table`: row `state` for every `0 <= state <= |term|`, column `x` for
      every `0 <= x < 256`, each entry the successor state `am_nextstate` gives. */
  method BuildTable(term: seq<Char>) returns (table: seq<seq<int>>)
    ensures IsTable(term, table)
  {
    table := [];
    var state := 0;
    while state <= |term|
      invariant 0 <= state <= |term| + 1 && |table| == state
      invariant forall s :: 0 <= s < state ==> IsRow(term, s, table[s])
    {
      var row := BuildRow(term, state);
      table := table + [row];
      state := state + 1;
    }
  }

  /** The inner loop of `am_table` (one state, every input value). */
  method BuildRow(term: seq<Char>, state: int) returns (row: seq<int>)
    requires 0 <= state <= |term|
    ensures IsRow(term, state, row)
  {
    row := [];
    var x := 0;
    while x < MaxAlpha
      invariant 0 <= x <= MaxAlpha && |row| == x
      invariant forall y :: 0 <= y < x ==>
                  0 <= row[y] <= |term| && IsLongestOverlap(term, term[..state] + [y], row[y])
    {
      var next := NextState(term, state, x);
      row := row + [next];
      x := x + 1;
    }
  }

  /** Reading one more value: the longest overlap of `w + [x]` is the table
      entry of the longest overlap of `w`. This is why one table lookup per text
      character keeps the state exact. */
  lemma StepOverlap(term: seq<Char>, w: seq<int>, s: int, x: int, r: int)
    requires IsLongestOverlap(term, w, s)
    requires IsLongestOverlap(term, term[..s] + [x], r)
    ensures IsLongestOverlap(term, w + [x], r)
  {
    ExtendOverlap(term, w, s, x, r);
    OverlapsAfterStep(term, w, s, x);
  }

  /** An overlap of `term[..s] + [x]` is an overlap of `w + [x]` when `term[..s]`
      ends `w`. */
  lemma ExtendOverlap(term: seq<Char>, w: seq<int>, s: int, x: int, r: int)
    requires IsOverlap(term, w, s) && IsOverlap(term, term[..s] + [x], r)
    ensures IsOverlap(term, w + [x], r)
  {
    var u := term[..s] + [x];
    var w' := w + [x];
    forall t | 0 <= t < r
      ensures w'[|w'| - r + t] == term[..r][t]
    {
      assert u[|u| - r + t] == term[..r][t];
      if t < r - 1 {
        assert w[|w| - s + (s - r + 1 + t)] == term[..s][s - r + 1 + t];
      }
    }
  }

  /** Every overlap of `w + [x]` is an overlap of `term[..s] + [x]`, where `s` is
      the longest overlap of `w`: so nothing is lost by remembering only `s`. */
  lemma OverlapsAfterStep(term: seq<Char>, w: seq<int>, s: int, x: int)
    requires IsLongestOverlap(term, w, s)
    ensures forall j :: IsOverlap(term, w + [x], j) ==> IsOverlap(term, term[..s] + [x], j)
  {
    forall j | IsOverlap(term, w + [x], j)
      ensures IsOverlap(term, term[..s] + [x], j)
    {
      if j >= 1 {
        DropLastOverlap(term, w, x, j);
        assert j - 1 <= s;
        TransferOverlap(term, w, s, x, j);
      } else {
        assert term[..0] == [];
      }
    }
  }

  /** Removing the last value of `w + [x]` shortens an overlap by one. */
  lemma DropLastOverlap(term: seq<Char>, w: seq<int>, x: int, j: int)
    requires 1 <= j && IsOverlap(term, w + [x], j)
    ensures IsOverlap(term, w, j - 1) && term[j - 1] == x
  {
    var w' := w + [x];
    var j1 := j - 1;
    forall t | 0 <= t < j1
      ensures w[|w| - j1 + t] == term[..j1][t]
    {
      assert w'[|w'| - j + t] == term[..j][t];
    }
    assert w'[|w'| - j + j1] == term[..j][j1];
  }

  /** An overlap `j - 1` of `w` no longer than the overlap `s` is also an overlap
      of `term[..s]`, so appending `x == term[j-1]` gives an overlap `j` of
      `term[..s] + [x]`. */
  lemma TransferOverlap(term: seq<Char>, w: seq<int>, s: int, x: int, j: int)
    requires IsOverlap(term, w, s) && 1 <= j <= s + 1 && j <= |term|
    requires IsOverlap(term, w, j - 1) && term[j - 1] == x
    ensures IsOverlap(term, term[..s] + [x], j)
  {
    var u := term[..s] + [x];
    var j1 := j - 1;
    forall t | 0 <= t < j
      ensures u[|u| - j + t] == term[..j][t]
    {
      if t < j1 {
        assert w[|w| - j1 + t] == term[..j1][t];
        assert w[|w| - s + (s - j1 + t)] == term[..s][s - j1 + t];
      }
    }
  }

  /** The state is `|term|` exactly when the text read so far ends with `term`. */
  lemma AcceptIffSuffix(term: seq<Char>, w: seq<int>, s: int)
    requires IsLongestOverlap(term, w, s)
    ensures s == |term| <==> EndsWith(w, term)
  {
    assert term[..|term|] == term;
    assert EndsWith(w, term) ==> IsOverlap(term, w, |term|);
  }

  /** After reading `text[..i + 1]` in state `s`, the window ending at `i` is an
      occurrence exactly when `s` is accepting; so the occurrences below the next
      window start grow by that window when, and only when, `s == |term|`. */
  lemma AcceptStep(text: seq<Char>, term: seq<Char>, i: int, s: int)
    requires |term| >= 1 && 0 <= i < |text|
    requires IsLongestOverlap(term, text[..i + 1], s)
    ensures OccBelow(text, term, i - |term| + 2) ==
              OccBelow(text, term, i - |term| + 1) + (if s == |term| then [i - |term| + 1] else [])
  {
    var n := |term|;
    AcceptIffSuffix(term, text[..i + 1], s);
    if i + 1 >= n {
      var p := i - n + 1;
      OccurrenceIsSuffix(text, term, p);
      assert text[..i + 1] == text[..p + n];
    } else {
      assert !EndsWith(text[..i + 1], term);
    }
  }

  /** One lookup `table[state][text[i]]` in a correct table keeps the state the
      longest overlap of the text read so far. */
  lemma TableStep(text: seq<Char>, term: seq<Char>, table: seq<seq<int>>, i: int, state: int)
    requires IsTable(term, table) && 0 <= i < |text|
    requires IsLongestOverlap(term, text[..i], state)
    ensures 0 <= state <= |term| && |table[state]| == MaxAlpha
    ensures 0 <= table[state][text[i]] <= |term|
    ensures IsLongestOverlap(term, text[..i + 1], table[state][text[i]])
  {
    assert IsRow(term, state, table[state]);
    StepOverlap(term, text[..i], state, text[i], table[state][text[i]]);
    assert text[..i + 1] == text[..i] + [text[i]];
  }

  /** `am_search`: builds the table and scans the text once, recording
      `i - |term| + 1` whenever the state reaches `|term|`; the state is never
      reset, so overlapping occurrences are all found. With an empty pattern
      every state is accepting and `i + 1` is recorded for every `i`. */
  method AmSearch(text: seq<Char>, term: seq<Char>) returns (c: int, buf: PosArray)
    ensures Valid(buf) && Zeroed(buf) && c == |Items(buf)|
    ensures |term| >= 1 ==> Items(buf) == Occurrences(text, term)
    ensures |term| == 0 ==> Items(buf) == seq(|text|, k => k + 1)
  {
    var table := BuildTable(term);
    buf := Scan(text, term, table);
    c := buf.count;
  }

  /** The loop of `am_search` (lines 186-195) over a given table. After reading
      `text[..i]` the state is the longest prefix of `term` ending there. */
  method Scan(text: seq<Char>, term: seq<Char>, table: seq<seq<int>>) returns (buf: PosArray)
    requires IsTable(term, table)
    ensures Valid(buf) && Zeroed(buf)
    ensures |term| >= 1 ==> Items(buf) == Occurrences(text, term)
    ensures |term| == 0 ==> Items(buf) == seq(|text|, k => k + 1)
  {
    var n := |term|;
    buf := Empty();
    var state := 0;
    var i := 0;
    while i < |text|
      invariant 0 <= i <= |text| && 0 <= state <= n
      invariant IsLongestOverlap(term, text[..i], state)
      invariant Valid(buf) && Zeroed(buf)
      invariant n >= 1 ==> Items(buf) == OccBelow(text, term, i - n + 1)
      invariant n == 0 ==> Items(buf) == seq(i, k => k + 1)
    {
      TableStep(text, term, table, i, state);
      state := table[state][text[i]];
      buf := Record(text, term, i, state, buf);
      i := i + 1;
    }
  }

  /** Lines 188-193 after the state for `text[i]` is known: on an accepting state
      record `i - |term| + 1`. This adds exactly the occurrence ending at `i`, if
      there is one; with an empty pattern it adds `i + 1`. */
  method Record(text: seq<Char>, term: seq<Char>, i: int, state: int, buf: PosArray) returns (b: PosArray)
    requires 0 <= i < |text| && IsLongestOverlap(term, text[..i + 1], state)
    requires Valid(buf) && Zeroed(buf)
    requires |term| >= 1 ==> Items(buf) == OccBelow(text, term, i - |term| + 1)
    requires |term| == 0 ==> Items(buf) == seq(i, k => k + 1)
    ensures Valid(b) && Zeroed(b)
    ensures |term| >= 1 ==> Items(b) == OccBelow(text, term, i - |term| + 2)
    ensures |term| == 0 ==> Items(b) == seq(i + 1, k => k + 1)
  {
    var n := |term|;
    if n >= 1 {
      AcceptStep(text, term, i, state);
    }
    b := buf;
    if state == n {
      b := Append(buf, i - n + 1);
      assert n == 0 ==> Items(buf) + [i + 1] == seq(i + 1, k => k + 1);
    }
  }
}
