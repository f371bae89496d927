# Exact substring search: three matchers and their cross-check

A Dafny model of the exact-substring-matching engine in `Search/stringsearch.c`.
The engine has three independent matchers over a text and a non-empty pattern:

- Knuth-Morris-Pratt: `kmp_table` and `kmp_search`;
- Rabin-Karp, with a base-33 hash in 32-bit `unsigned` arithmetic: `rk_hash` and `rk_search`;
- a finite automaton with a `(term_len + 1) x 256` transition table: `am_nextstate`, `am_table` and `am_search`.

Each matcher appends 0-based match offsets to a growable position array.
`search_file` then compares the three results, count against count and offset against offset.

The model also covers the stand-alone rolling-hash demonstration in `Search/rk_string_search.cpp`.
That part models `verifyMatch`, plus the hash set-up and sliding-window loop of its `main`.

Modules:

| file | module | models |
|---|---|---|
| `text.dfy` | `Text` | characters, the C string terminator, and the reference notion of an occurrence (`IsOccurrence`, `Occurrences`) |
| `position_buffer.dfy` | `PositionBuffer` | the `pos_array` / `c` / `l` bookkeeping (DEFAULT_LEN 32, REALLOC_INC 8) |
| `hashing.dfy` | `Hashing` | the Horner fold `h = base * h + c` and the polynomial it computes |
| `kmp.dfy` | `Kmp` | the failure table, the scan as written, and a corrected scan |
| `rabin_karp.dfy` | `RabinKarp` | `rk_hash` modulo 2^32 and `rk_search` |
| `automaton.dfy` | `Automaton` | `am_nextstate`, `am_table` and `am_search` |
| `harness.dfy` | `Harness` | the comparison in `search_file` |
| `rolling_demo.dfy` | `RollingDemo` | `verifyMatch` and the rolling hash (base 255, modulo 17, in `uint64_t`) |

Characters are integers 0..127. The reference definition is `Occurrences(text, term)`, the increasing sequence of every `p` with `text[p..p + |term|] == term`. `RabinKarp.RkSearch`, `Automaton.AmSearch`, `Kmp.KmpSearchFixed` and `RollingDemo.RollingSearch` are each proved to return exactly `Occurrences`. The as-written `Kmp.KmpSearch` is not, because it can report an offset that is not an occurrence (see Findings).

Edge cases, as the code handles them:

- The code rejects neither an empty pattern nor a pattern longer than the text:
  - `am_search` with an empty pattern records `i + 1` for every text position `i`;
  - `kmp_search` with an empty pattern records nothing;
  - `rk_search` with a pattern longer than the text records nothing.

  The model does the same. Only `rk_search` gets the precondition `|term| >= 1`, because its `memcmp` length `term_len - 1` wraps around for an empty pattern.
- `search_file` (stringsearch.c:238-246) reports any disagreement between the three matchers as an error. `kmp_search` as written can disagree with the other two (see Findings).
- The offset comparison in `search_file` reads slot `i` of every array for each `i < kp_found`, also past `rk_found` or `am_found`. There the slot still holds the zero `calloc` wrote, so a lone kmp offset 0 draws no "search term 0 error". The model compares whole slot arrays and keeps that behaviour.

## Model

| member | source | states |
|---|---|---|
| PositionBuffer.Empty | Search/stringsearch.c:73-76 | a fresh position array has DEFAULT_LEN (32) slots, records nothing, and satisfies the capacity invariant `c < l` |
| PositionBuffer.Append | Search/stringsearch.c:83-87 | recording an offset keeps `c < l`, puts the offset after all earlier ones, and grows the array by exactly REALLOC_INC slots, if and only if `c + 1 >= l` |
| Kmp.BuildFailureTable | Search/stringsearch.c:49-66 | `T[0] == -1` and `T[1] == 0`; every entry `1 <= k < len` is the length of the longest proper border of `W[..k]`; entries `len` and `len + 1` stay 0 from `calloc` |
| Kmp.CandidateExtends | Search/stringsearch.c:60-61 | when `W[pos-1] == W[cnd]`, `cnd + 1` is the longest border of `W[..pos]`, and the candidate invariant holds at `pos + 1` |
| Kmp.CandidateFallsBack | Search/stringsearch.c:62-63 | on a mismatch with `cnd > 0`, falling back to `T[cnd]` skips no border candidate |
| Kmp.CandidateResets | Search/stringsearch.c:64-65 | on a mismatch with `cnd == 0`, the longest border of `W[..pos]` is 0 |
| Kmp.KmpScanBounds | Search/stringsearch.c:80-98 | the scan as written terminates; the offsets it records are strictly increasing, each leaves room for the whole pattern in the text, and after a full match each lies beyond the current window start |
| Kmp.ScanAsWritten | Search/stringsearch.c:80-98 | for any table whose fallbacks keep the shift positive, the loop terminates and records strictly increasing offsets, each with room for the whole pattern in the text |
| Kmp.KmpSearch | Search/stringsearch.c:69-103 | the returned count is the number of recorded offsets; the offsets are increasing and in range |
| Kmp.CounterexampleTable | Search/stringsearch.c:49-66 | the failure table of "abbabb" is `[-1, 0, 0, 0, 1, 2, 0, 0]` |
| Kmp.AsWrittenFalsePositive | Search/stringsearch.c:90-92 | on pattern "abbabb" and text "abbababb", the scan as written records offset 2, which is not an occurrence; the text contains no occurrence at all |
| Kmp.SkipSound | Search/stringsearch.c:90-92 | after `i` matched characters, moving the window by `i - T[i]` skips no occurrence and keeps `T[i]` characters matched |
| Kmp.MatchStep | Search/stringsearch.c:81-88 | one more matching character extends the matched prefix; when it completes the pattern, the window start is exactly the next occurrence |
| Kmp.MismatchStep | Search/stringsearch.c:89-96 | in the corrected scan, a mismatch or a full match moves the window strictly forward, keeps the matched prefix and passes no occurrence |
| Kmp.ScanEnd | Search/stringsearch.c:80 | when `m + i` reaches the end of the text, every occurrence has already been recorded |
| Kmp.Fallback | Search/stringsearch.c:89-96 | a mismatch, or a full match, followed by the textbook shift keeps the matched-prefix invariant and loses no occurrence |
| Kmp.ScanFixed | Search/stringsearch.c:80-98 | with the textbook shift and the border of the whole pattern as `T[len]`, the loop records exactly the occurrences, in order |
| Kmp.KmpSearchFixed | Search/stringsearch.c:69-103 | the corrected `kmp_search` returns exactly the occurrences of a non-empty pattern |
| Hashing.HornerIsPolySum | Search/stringsearch.c:109-110 | the fold `h = 33 * h + c` computes the polynomial `Σ src[k] * 33^(len-1-k)` |
| Hashing.FoldStepMod | Search/stringsearch.c:109-110 | reducing the accumulator modulo `M` at every step leaves the final residue unchanged |
| RabinKarp.RkHash | Search/stringsearch.c:105-113 | `rk_hash` is the base-33 polynomial of the string modulo 2^32 |
| RabinKarp.HashConfirmsLast | Search/stringsearch.c:125-126 | two windows with equal hashes and equal first `len - 1` characters are equal |
| RabinKarp.HitIffOccurrence | Search/stringsearch.c:124-133 | a window is recorded (hash hit plus `memcmp` of `term_len - 1` bytes) if and only if it is an occurrence |
| RabinKarp.RkSearch | Search/stringsearch.c:115-137 | `rk_search` returns exactly the occurrences of a non-empty pattern, in increasing order, with the returned count equal to their number |
| Automaton.NextState | Search/stringsearch.c:139-157 | `am_nextstate` returns the longest prefix of the pattern that is a suffix of `term[..state]` followed by `x`; it is at most `state + 1` |
| Automaton.CommonPrefix | Search/stringsearch.c:148-150 | the inner loop stops at the first index where `term[..ns-1]` and the last `ns - 1` characters of `term[..state]` differ, and all earlier indices agree |
| Automaton.BuildRow | Search/stringsearch.c:164-165 | each row has 256 entries, each in `[0, term_len]` and each the longest overlap for that input value |
| Automaton.BuildTable | Search/stringsearch.c:159-166 | `am_table` fills all `(term_len + 1) x 256` entries with the successor state |
| Automaton.StepOverlap | Search/stringsearch.c:186-187 | one table lookup per text character turns the longest overlap of the text read so far into the longest overlap after one more character |
| Automaton.OverlapsAfterStep | Search/stringsearch.c:186-187 | every prefix of the pattern that ends the text read so far plus one character also ends `term[..state]` plus that character, so the state alone determines the next one |
| Automaton.TableStep | Search/stringsearch.c:187 | a lookup in a correct table stays within bounds and gives the longest overlap after one more character |
| Automaton.AcceptIffSuffix | Search/stringsearch.c:188 | the state equals `term_len` exactly when the text read so far ends with the pattern |
| Automaton.AcceptStep | Search/stringsearch.c:188-193 | recording `i - term_len + 1` on an accepting state adds exactly the occurrence ending at `i`, if there is one |
| Automaton.Record | Search/stringsearch.c:188-193 | recording on an accepting state adds exactly the occurrence ending at `i`, if there is one (`i + 1` for an empty pattern), and leaves the slots past the count zero |
| Automaton.Scan | Search/stringsearch.c:186-195 | the scan loop records exactly the occurrences, overlapping ones included; with an empty pattern it records `i + 1` for every position `i` |
| Automaton.AmSearch | Search/stringsearch.c:168-202 | `am_search` returns exactly the occurrences of a non-empty pattern, and `1, ..., len` for an empty one |
| Harness.BadTermsFromSpec | Search/stringsearch.c:243-246 | the loop flags exactly the indices `i < kp_found` where kmp's slot differs from rk's or am's slot, recorded offset or not, in increasing order |
| Harness.Compare | Search/stringsearch.c:219-246 | the report flags "error searching" for each matcher with no result, "error!" exactly when the counts differ, and exactly the indices below `kp_found` whose slots disagree |
| Harness.AgreedIffEqual | Search/stringsearch.c:238-246 | the comparison is silent if and only if all three matchers recorded the same offsets |
| Harness.PastCountReadsZero | Search/stringsearch.c:243-244 | at an index past rk's and am's counts but inside their blocks, the comparison meets `calloc`'s zero: the index is reported exactly when kmp's offset there is not 0 |
| Harness.SearchFile | Search/stringsearch.c:204-258 | with the corrected KMP, the three matchers always agree, and "error searching" appears exactly when the pattern does not occur |
| Harness.LoneKmpOffset | Search/stringsearch.c:238-246 | one kmp offset `x` against none from the others always triggers "error!", and triggers the error line for index 0 exactly when `x` is not 0 |
| Harness.AsWrittenCaught | Search/stringsearch.c:238-246 | on the counterexample input the as-written KMP records offset 2 and the text holds no occurrence; with rk's and am's arrays empty as `calloc` left them, the comparison reports both "error!" and "search term 0 error" |
| RollingDemo.VerifyMatch | Search/rk_string_search.cpp:15-30 | `verifyMatch` is false when `end - start` differs from the pattern length, and otherwise true exactly when `T[start..end]` is an occurrence of `P` |
| RollingDemo.InitHashes | Search/rk_string_search.cpp:39-54 | `p` and `t` are the base-255 hashes modulo 17 of `P` and of `T[..m]`; `h` is `255^(m-1) mod 17` (1 for `m == 0`); all three are below 17 |
| RollingDemo.PowStepMod | Search/rk_string_search.cpp:50-53 | the step `h = (h * d) % prime` takes `d^i mod prime` to `d^(i+1) mod prime` |
| RollingDemo.HashIsLast | Search/rk_string_search.cpp:48-49 | because 255 = 15 * 17, the hash of a non-empty string is its last character modulo 17 |
| RollingDemo.Slide | Search/rk_string_search.cpp:65-68 | the rolling step, including the unsigned wrap of `t - remove_val`, yields a value below 17 equal to the incoming character modulo 17 |
| RollingDemo.SlideIsNextWindow | Search/rk_string_search.cpp:65-68 | sliding out `T[s]` and in `T[s + m]` yields the hash of the next window |
| RollingDemo.RollingSearch | Search/rk_string_search.cpp:57-70 | every reported window is an occurrence; reports come in increasing order; for a non-empty pattern, exactly the occurrences are reported |

## Left out

- `read_file` (file open, `mmap`, copy): the text is a parameter.
- `rdtscl` timing, every `printf`/`perror`/`std::cerr` line, and both `main` functions: the model keeps only the logic these lines report on.
- Allocation failure (`calloc`/`malloc`/`realloc` returning NULL, and the `-1` returns): the model has no memory allocation. The automaton table is a sequence of rows, and freeing is not modelled.
- Characters 128..255: with a signed `char`, `table[state][text[i]]` indexes with a negative value. Characters are restricted to 0..127.
- Kmp.KmpSearch: requires a text without NUL characters. After a full match the scan compares against the pattern's terminator. A NUL in the text would match the terminator and read past the pattern.
- Kmp.KmpSearch: states only bounds and ordering of the as-written scan. Its completeness (no occurrence missed) is not proved, and its soundness does not hold (see Findings).
- RabinKarp.RkSearch: requires a non-empty pattern, because `memcmp` with length `term_len - 1` wraps around for an empty one.
- RabinKarp.RkHash: the conversion of the `unsigned` hash to `int` is not modelled. Equality of the converted values is equality of the unsigned ones.
- RollingDemo.VerifyMatch: requires `start <= end`. The `size_t` wrap of `end - start` for `end < start` is not modelled.
- RollingDemo.RollingSearch: requires `m <= n`; for `m > n` the bound `n - m` wraps and the loop reads past the string. For an empty pattern it claims soundness only. Which offsets are then reported depends on `T[s-1] % 17`.
- Harness.BadTermsFromSpec, Harness.Compare: an index past the end of rk's or am's allocated block is an out-of-bounds read in C. The model counts such an index as a disagreement. Slots inside the block but past the count are compared as they are, which is `calloc`'s zero.
- PositionBuffer.Append: the slots `realloc` adds are indeterminate in C and are modelled as 0. They are read only when kmp reports more offsets than a matcher whose array has already grown beyond DEFAULT_LEN slots.
- Harness.SearchFile: uses the corrected KMP. With the as-written KMP, the agreement promise fails (`Harness.AsWrittenCaught`).
- `MatrixMultiply/main.cpp` and `Search/main.cpp`: drivers over headers that are not part of this model, with floating point, command-line handling and printing only.

## Findings

| source | as written | input that shows it | evidently intended | confidence | as-written member | corrected member |
|---|---|---|---|---|---|---|
| Search/stringsearch.c:90-92 | on a mismatch the code sets `i = table[i]` first. It then moves `m` by `i - table[i]` of the new `i`, so the window advances by `f - T[f]` with `f = T[i]` instead of `i - T[i]`. | pattern "abbabb", text "abbababb": offset 2 is reported, but the text holds no occurrence | the textbook shift: `m += i - T[i]` and then `i = T[i]`. After a full match, `T[len]` must hold the longest border of the whole pattern, so that overlapping occurrences are not skipped. | not executed | Kmp.AsWrittenFalsePositive | Kmp.KmpSearchFixed |
