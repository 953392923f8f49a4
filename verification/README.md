# QS/QV engine core in Dafny

This project models the pure core of the QS/QV event engine. It has three
parts.

- **GF(2) canonicalisation** (`gf2_canonicalizer.py`):
  - validating QS events, which are ascending 5-tuples over the domain [1, 39] by default;
  - building the binary presence matrix, one row per event and one column per domain value;
  - reducing an integer matrix modulo 2;
  - building the complement ("hole") matrix.
- **Row-pattern lattice** (`pattern_lattice.py`):
  - encoding each row as a string key;
  - counting keys in an insertion-ordered histogram;
  - ranking the keys into lattice levels by descending count.
- **Row statistics** (`additive_combinatorics.py`):
  - exclusive-or differences between consecutive rows;
  - the total of all entries, and the numbers of all-zero and all-one rows.

Matrices are `Matrix(rows, width)`, with an explicit column count. This way a
matrix with no rows still has a width, as `np.zeros((0, n))` does.

The histogram is a sequence of (key, count) pairs in insertion order. The
Python dict it models keeps insertion order, and the tie-break of the lattice
levels depends on that order.

Operations that raise `ValueError` in Python return `Result.Failure`. The
validator returns `Option`, because as written it can fall off its end and
return `None`.

Files and modules:

| file | module | what it holds |
|---|---|---|
| `wrappers.dfy` | `Wrappers` | `Option` and `Result` |
| `matrices.dfy` | `Matrices` | the matrix type, the shape and binary predicates, row sums |
| `gf2_canonicalizer.dfy` | `Gf2Canonicalizer` | the validator as written and a corrected validator; the presence matrix, GF(2) reduction and complement |
| `pattern_lattice.dfy` | `PatternLattice` | row keys, the histogram, lattice levels |
| `additive_combinatorics.dfy` | `AdditiveCombinatorics` | event differences, pattern counts |
| `scenarios.dfy` | `Scenarios` | worked examples over the default domain [1, 39], derived from the contracts |

Notes on modelling:

- **Modulo.** Python's `%` floors. For the divisor 2 it agrees with Dafny's
  Euclidean `%`, so `to_gf2` is `x % 2`.
- **Exclusive or.** NumPy's `^` on integers is written out as a
  two's-complement exclusive or on unbounded integers. `XorBits` ties it to an
  independent bitwise reference `Bit(x, k)`: every bit of the result is the
  sum modulo 2 of the operands' bits, negatives included. The
  `astype(np.uint8)` that follows it is `x % 256`.
- **Row keys.** `str(int(b))` is Python's decimal rendering, including a minus
  sign. This lets the model show that keys of non-binary rows can collide.
- **Level sort.** `sorted(..., key=count, reverse=True)` is stable. It is
  modelled as an insertion sort of histogram positions under a strict total
  order: higher count first, then earlier position. This is exactly the order
  a stable descending sort produces.

## Model

Source paths are relative to the repository root.

| member | source | states |
|---|---|---|
| Matrices.BinaryRowSumCountsOnes | sovereign_qs_qv_system_v2/sovereign_qs_qv_engine/additive_combinatorics.py:20 | A binary row's sum is its number of 1 entries, between 0 and the row length |
| Matrices.ComplementaryRowSums | sovereign_qs_qv_system_v2/sovereign_qs_qv_engine/gf2_canonicalizer.py:155 | Two rows whose entries add up to 1 cell by cell have sums that add up to the row length |
| Gf2Canonicalizer.HasOutOfRange | sovereign_qs_qv_system_v2/sovereign_qs_qv_engine/gf2_canonicalizer.py:53 | The range test fires iff some value lies below the minimum or above the maximum |
| Gf2Canonicalizer.HasDescent | sovereign_qs_qv_system_v2/sovereign_qs_qv_engine/gf2_canonicalizer.py:56 | The ordering test fires iff the event is not strictly ascending, i.e. some adjacent pair has the earlier value ≥ the later |
| Gf2Canonicalizer.SizedEventIssues | sovereign_qs_qv_system_v2/sovereign_qs_qv_engine/gf2_canonicalizer.py:53-57 | A correctly sized event gets a range issue iff a value is out of range, and an ordering issue iff it is not strictly ascending. Both can fire, range first. At most two reports, all at the event's index, none about length |
| Gf2Canonicalizer.LengthIssues | sovereign_qs_qv_system_v2/sovereign_qs_qv_engine/gf2_canonicalizer.py:49-51 | Each wrongly sized event in a span gets one length issue. It carries that event's index and actual length, in input order |
| Gf2Canonicalizer.ValidateLoop | sovereign_qs_qv_system_v2/sovereign_qs_qv_engine/gf2_canonicalizer.py:48-59 | From a given index the loop yields None iff no later event has the expected length. Otherwise it yields the issues so far, one length issue per skipped event, then the range/order checks of the first correctly sized event |
| Gf2Canonicalizer.ValidateQsEvents | sovereign_qs_qv_system_v2/sovereign_qs_qv_engine/gf2_canonicalizer.py:47-59 | As written: None iff no event has the expected length, including empty input. Otherwise: the length issues of the events before the first correctly sized one, then that event's checks, and nothing after it |
| Gf2Canonicalizer.ValidateReportsUpToFirstSized | sovereign_qs_qv_system_v2/sovereign_qs_qv_engine/gf2_canonicalizer.py:48-59 | With k the first correctly sized event: the result is present and no reported index exceeds k. Report i, for i < k, is event i's length issue |
| Gf2Canonicalizer.EventIssues | sovereign_qs_qv_system_v2/sovereign_qs_qv_engine/gf2_canonicalizer.py:49-57 | One event has no issues iff it has the right length, its values in range and is strictly ascending. A wrong length gives exactly one length issue and skips the other checks; a right length gives exactly the range and order issues of `SizedEventIssues` |
| Gf2Canonicalizer.ValidateAllEvents | sovereign_qs_qv_system_v2/sovereign_qs_qv_engine/gf2_canonicalizer.py:47-58 | Corrected validator: a report is about event i and lists one of its issues iff that issue is among event i's own issues, for every event. Indices are valid and in input order |
| Gf2Canonicalizer.ValidateAllEventsInCheckOrder | sovereign_qs_qv_system_v2/sovereign_qs_qv_engine/gf2_canonicalizer.py:47-58 | Two reports of the corrected validator about the same event are its range issue followed by its order issue, so no issue is repeated and the checks report in the order they run |
| Gf2Canonicalizer.ValidateAllEventsEmptyIffWellFormed | sovereign_qs_qv_system_v2/sovereign_qs_qv_engine/gf2_canonicalizer.py:47-58 | The corrected validator reports nothing iff every event is well formed |
| Gf2Canonicalizer.AsWrittenAgreesOnPrefix | sovereign_qs_qv_system_v2/sovereign_qs_qv_engine/gf2_canonicalizer.py:48-59 | The validator as written returns exactly what the corrected one reports for the events up to and including the first correctly sized one |
| Gf2Canonicalizer.LengthIssuesAgree | sovereign_qs_qv_system_v2/sovereign_qs_qv_engine/gf2_canonicalizer.py:49-51 | On a prefix of wrongly sized events the corrected validator reports exactly their length issues |
| Gf2Canonicalizer.NoSizedEventLosesReports | sovereign_qs_qv_system_v2/sovereign_qs_qv_engine/gf2_canonicalizer.py:48-59 | When no event has the expected length, the validator as written returns None. The corrected one reports one length issue per event |
| Gf2Canonicalizer.EarlyReturnHidesLaterIssue | sovereign_qs_qv_system_v2/sovereign_qs_qv_engine/gf2_canonicalizer.py:59 | On [[1,2,3,4,5],[5,4,3,2,1]] the validator as written reports nothing. The corrected one reports the ordering issue of event 1 |
| Gf2Canonicalizer.MarkValues | sovereign_qs_qv_system_v2/sovereign_qs_qv_engine/gf2_canonicalizer.py:95-101 | Marking the values from position j succeeds iff none of them is out of range. On success, cell c becomes 1 iff value min + c occurs, otherwise it is unchanged. On failure it names the first out-of-range value and its event |
| Gf2Canonicalizer.PresenceRow | sovereign_qs_qv_system_v2/sovereign_qs_qv_engine/gf2_canonicalizer.py:94-101 | One event's row has the domain size, and cell c is 1 iff value min + c occurs in the event, else 0. It fails exactly when some value is out of range, naming the first such value |
| Gf2Canonicalizer.PresenceRows | sovereign_qs_qv_system_v2/sovereign_qs_qv_engine/gf2_canonicalizer.py:93-102 | One row per event in event order. The first event that fails aborts the whole construction with that event's error |
| Gf2Canonicalizer.BuildPresenceMatrix | sovereign_qs_qv_system_v2/sovereign_qs_qv_engine/gf2_canonicalizer.py:90-108 | Succeeds iff every value of every event is in range. Then: a binary matrix with one row per event and width max − min + 1 (also with no events), entry [i][c] 1 iff min + c occurs in event i. On failure: the first out-of-range value of the first failing event, and no matrix |
| Gf2Canonicalizer.PresenceRowSumIsDistinctCount | sovereign_qs_qv_system_v2/sovereign_qs_qv_engine/gf2_canonicalizer.py:94-101 | A presence row sums to the number of distinct values of its event: repeated values set the same cell |
| Gf2Canonicalizer.AscendingDistinctCount | sovereign_qs_qv_system_v2/sovereign_qs_qv_engine/gf2_canonicalizer.py:56 | A strictly ascending event has as many distinct values as entries |
| Gf2Canonicalizer.ValidatedEventsHaveFullRows | sovereign_qs_qv_system_v2/sovereign_qs_qv_engine/gf2_canonicalizer.py:90-102 | Events the corrected validator accepts always build a presence matrix, and each row holds exactly tuple-size ones |
| Gf2Canonicalizer.ToGf2 | sovereign_qs_qv_system_v2/sovereign_qs_qv_engine/gf2_canonicalizer.py:127 | The result has the input's shape, is binary, and each entry is congruent to the input entry modulo 2. That makes it the floor modulo, also for negative inputs |
| Gf2Canonicalizer.ToGf2FixesBinary | sovereign_qs_qv_system_v2/sovereign_qs_qv_engine/gf2_canonicalizer.py:127 | A binary matrix is unchanged by the reduction |
| Gf2Canonicalizer.ToGf2Idempotent | sovereign_qs_qv_system_v2/sovereign_qs_qv_engine/gf2_canonicalizer.py:127 | Reducing twice is the same as reducing once |
| Gf2Canonicalizer.ToGf2OfNegatives | sovereign_qs_qv_system_v2/sovereign_qs_qv_engine/gf2_canonicalizer.py:127 | [-1, -2, -3, 4] reduces to [1, 0, 1, 0] |
| Gf2Canonicalizer.Entries | sovereign_qs_qv_system_v2/sovereign_qs_qv_engine/gf2_canonicalizer.py:149 | `np.unique`: the set of values occurring in some row; it lies within {0, 1} iff the matrix is binary |
| Gf2Canonicalizer.BuildComplementMatrix | sovereign_qs_qv_system_v2/sovereign_qs_qv_engine/gf2_canonicalizer.py:149-156 | Fails iff some entry is not 0 or 1, reporting every distinct value of the matrix. Otherwise the result has the same shape and each entry plus the input entry is 1 |
| Gf2Canonicalizer.ComplementDisjointAndCovering | sovereign_qs_qv_system_v2/sovereign_qs_qv_engine/gf2_canonicalizer.py:155 | The complement of a binary matrix is binary. No cell is 1 in both matrices, and every cell is 1 in one of them |
| Gf2Canonicalizer.ComplementInvolution | sovereign_qs_qv_system_v2/sovereign_qs_qv_engine/gf2_canonicalizer.py:149-156 | Complementing a binary matrix twice gives it back |
| PatternLattice.DecimalString | sovereign_qs_qv_system_v2/sovereign_qs_qv_engine/pattern_lattice.py:10 | `str(int)` is non-empty and starts with '-' iff the number is negative. It is one character iff the number is 0..9, and that character is its digit |
| PatternLattice.EncodeRowPattern | sovereign_qs_qv_system_v2/sovereign_qs_qv_engine/pattern_lattice.py:8-11 | The key is at least as long as the row. For a binary row it has the row's length, and character k is '1' or '0' as entry k is 1 or 0 |
| PatternLattice.EncodeInjectiveOnBinaryRows | sovereign_qs_qv_system_v2/sovereign_qs_qv_engine/pattern_lattice.py:10 | Two binary rows have equal keys iff the rows are equal |
| PatternLattice.NonBinaryRowsCollide | sovereign_qs_qv_system_v2/sovereign_qs_qv_engine/pattern_lattice.py:10 | Off binary rows the key is not injective: [1, 10] and [11, 0] both encode to "110" |
| PatternLattice.KeyIndex | sovereign_qs_qv_system_v2/sovereign_qs_qv_engine/pattern_lattice.py:19 | Returns the position of the key's entry, or the histogram's length iff the key is absent. No earlier entry has the key |
| PatternLattice.Increment | sovereign_qs_qv_system_v2/sovereign_qs_qv_engine/pattern_lattice.py:19 | An existing key keeps its position and gains one; a new key is appended with count 1. Every other entry is unchanged, keys stay distinct, and the total grows by one |
| PatternLattice.IncrementKeepsHistogram | sovereign_qs_qv_system_v2/sovereign_qs_qv_engine/pattern_lattice.py:16-19 | Counting one more key turns the histogram of a key sequence into the histogram of the extended sequence. That covers the keys, counts, total and first-occurrence order |
| PatternLattice.HistogramOf | sovereign_qs_qv_system_v2/sovereign_qs_qv_engine/pattern_lattice.py:16-19 | Counting keys left to right gives their histogram: distinct keys, exactly the keys that occur, each count the key's multiplicity, total the number of keys, keys in first-occurrence order |
| PatternLattice.RowKeys | sovereign_qs_qv_system_v2/sovereign_qs_qv_engine/pattern_lattice.py:17-18 | One key per row, in row order, each the row's encoding. In a binary matrix two rows have the same key iff they are equal |
| PatternLattice.BuildPatternHistogram | sovereign_qs_qv_system_v2/sovereign_qs_qv_engine/pattern_lattice.py:14-21 | Keys are exactly the encoded rows, each once, in order of first occurrence. Each count is the number of rows with that key, at least 1, and the counts sum to the number of rows |
| PatternLattice.InsertPosition | sovereign_qs_qv_system_v2/sovereign_qs_qv_engine/pattern_lattice.py:29 | Inserting a later position into a sorted ordering keeps it sorted by (count descending, position ascending) and adds exactly that position |
| PatternLattice.SortPositions | sovereign_qs_qv_system_v2/sovereign_qs_qv_engine/pattern_lattice.py:29 | The first n positions, each exactly once, sorted by count descending with ties in dict order |
| PatternLattice.AssignLatticeLevels | sovereign_qs_qv_system_v2/sovereign_qs_qv_engine/pattern_lattice.py:24-34 | One pair per histogram entry, so empty iff the histogram is empty. Pair i carries level i; the keys are those of the histogram, each once. An earlier pair has a larger count, or an equal count and an earlier dict position |
| PatternLattice.SortedOrderUnique | sovereign_qs_qv_system_v2/sovereign_qs_qv_engine/pattern_lattice.py:29 | Two orderings of the same positions, both sorted by (count descending, position ascending), are equal |
| PatternLattice.LevelOrderIsTheSortedOrder | sovereign_qs_qv_system_v2/sovereign_qs_qv_engine/pattern_lattice.py:29-32 | Any listing of all histogram positions sorted by that order is the order the levels are assigned in |
| AdditiveCombinatorics.Xor | sovereign_qs_qv_system_v2/sovereign_qs_qv_engine/additive_combinatorics.py:14 | The exclusive or is 0 iff the operands are equal. On bits it is the usual table |
| AdditiveCombinatorics.XorBits | sovereign_qs_qv_system_v2/sovereign_qs_qv_engine/additive_combinatorics.py:14 | Bit k of the two's-complement result is the sum modulo 2 of bit k of each operand, for all integers and every k, against the independent reference `Bit` |
| AdditiveCombinatorics.XorCancels | sovereign_qs_qv_system_v2/sovereign_qs_qv_engine/additive_combinatorics.py:14 | For all integers, (a ^ b) ^ b == a |
| AdditiveCombinatorics.ToUint8 | sovereign_qs_qv_system_v2/sovereign_qs_qv_engine/additive_combinatorics.py:14 | The uint8 cast lands in 0..255, differs from its input by a multiple of 256 (wrap-around modulo 256), and leaves values already in that range unchanged |
| AdditiveCombinatorics.ComputeEventDifferences | sovereign_qs_qv_system_v2/sovereign_qs_qv_engine/additive_combinatorics.py:8-15 | Same width as the input. With at most one row there are no rows, otherwise one fewer row than the input. Row i is the uint8 cast of the exclusive or of rows i + 1 and i |
| AdditiveCombinatorics.DifferencesOfBinaryRows | sovereign_qs_qv_system_v2/sovereign_qs_qv_engine/additive_combinatorics.py:14 | For a binary matrix the differences are binary. Difference row i is all zero iff rows i and i + 1 are equal, and row i + 1 is recovered as difference ^ row i |
| AdditiveCombinatorics.CountRowsAllEqualTo | sovereign_qs_qv_system_v2/sovereign_qs_qv_engine/additive_combinatorics.py:21-22 | Counting rows row by row gives the number of rows whose every entry equals v, at most the number of rows |
| AdditiveCombinatorics.TotalOnes | sovereign_qs_qv_system_v2/sovereign_qs_qv_engine/additive_combinatorics.py:20 | `matrix.sum()`: for a binary matrix the sum of all entries is the number of 1 cells |
| AdditiveCombinatorics.BinaryTotalBounded | sovereign_qs_qv_system_v2/sovereign_qs_qv_engine/additive_combinatorics.py:20 | For a binary matrix the sum of all entries lies between 0 and rows × columns |
| AdditiveCombinatorics.BasicPatternCounts | sovereign_qs_qv_system_v2/sovereign_qs_qv_engine/additive_combinatorics.py:18-28 | The all-zero and all-one counts are the numbers of rows whose every entry is 0 (resp. 1), each at most the number of rows. For a binary matrix the total is the number of 1 cells, between 0 and rows × columns |
| AdditiveCombinatorics.ZeroAndOneRowsBounded | sovereign_qs_qv_system_v2/sovereign_qs_qv_engine/additive_combinatorics.py:21-22 | With at least one column, all-zero plus all-one rows is at most the number of rows |
| AdditiveCombinatorics.ZeroWidthRowsCountTwice | sovereign_qs_qv_system_v2/sovereign_qs_qv_engine/additive_combinatorics.py:21-22 | With zero columns every row counts as both all zero and all one (vacuous `all`) |
| AdditiveCombinatorics.ComplementSwapsPatternCounts | sovereign_qs_qv_system_v2/sovereign_qs_qv_engine/additive_combinatorics.py:20-22 | For a binary matrix, its complement's all-one count is its all-zero count and vice versa, and the two totals add up to rows × columns |
| AdditiveCombinatorics.ComplementaryTotals | sovereign_qs_qv_system_v2/sovereign_qs_qv_engine/additive_combinatorics.py:20 | Two matrices whose entries add up to 1 cell by cell have totals adding up to rows × columns |
| Scenarios.OneEventPresence | sovereign_qs_qv_system_v2/sovereign_qs_qv_engine/gf2_canonicalizer.py:90-108 | [1,2,3,4,5] over [1,39] gives one row of width 39 with exactly the first five cells set |
| Scenarios.OneEventComplement | sovereign_qs_qv_system_v2/sovereign_qs_qv_engine/gf2_canonicalizer.py:149-156 | The complement of that row has the first five cells clear and the rest set |
| Scenarios.DescendingEventReportsOrder | sovereign_qs_qv_system_v2/sovereign_qs_qv_engine/gf2_canonicalizer.py:56-57 | [5,4,3,2,1] gets exactly one ordering issue, at index 0 |
| Scenarios.OutOfRangeEventReported | sovereign_qs_qv_system_v2/sovereign_qs_qv_engine/gf2_canonicalizer.py:53-54 | [1,2,3,4,40] with maximum 39 gets exactly one range issue, at index 0 |
| Scenarios.OutOfRangeEventRejected | sovereign_qs_qv_system_v2/sovereign_qs_qv_engine/gf2_canonicalizer.py:95-99 | Building the presence matrix of [1,2,3,4,40] fails on the value 40 in that event |
| Scenarios.RepeatedRowHistogram | sovereign_qs_qv_system_v2/sovereign_qs_qv_engine/pattern_lattice.py:14-21 | Rows [1,0], [1,0], [0,1] give the histogram ("10", 2), ("01", 1) |
| Scenarios.RepeatedRowRanksFirst | sovereign_qs_qv_system_v2/sovereign_qs_qv_engine/pattern_lattice.py:24-34 | That histogram gives the levels ("10", 0), ("01", 1) |

## Left out

- `provenance_layer.py`: file-system checks, streamed reads and hashing. It is I/O and a foreign cryptographic library, with no logic of its own to verify.
- `quantumization_operator.py` and `exclusion_predictor.py`: placeholders that ignore their input. They return a zero-width matrix or an empty list.
- `__init__.py`: an export list only.
- Message texts: validator issues are the enumeration `LengthIssue(found) | RangeIssue | OrderIssue` without the formatted strings. Errors carry their data (the offending value and event, or the value set) rather than the message.
- Gf2Canonicalizer.BuildPresenceMatrix: requires `value_min <= value_max + 1`. The bound `value_max == value_min - 1` is modelled: the domain is empty, the rows have width 0, and any value is out of range. A still smaller maximum gives a negative row size, which NumPy rejects; that case is not modelled. The validator has no such requirement.
- Gf2Canonicalizer.ToGf2: entries are unbounded integers. The `int64` cast before the reduction, which wraps values outside 64 bits, is not modelled.
- NumPy dtypes: `uint8` storage of the presence and complement matrices is not modelled separately. Their entries are 0 or 1, which `uint8` holds exactly. Matrices are integer-valued; float input to `^` or `%` is not modelled.
- Iterables: `events` is a finite sequence. A one-shot iterator, which `build_presence_matrix` would consume, is not modelled.
- AdditiveCombinatorics.BasicPatternCounts: the total is defined as the sum of all entries for any matrix. The contract characterises it only for binary matrices, as the number of 1 cells.
- PatternLattice.AssignLatticeLevels: requires distinct keys, which every Python dict has and every histogram built here has. Counts are natural numbers (`Histogram` in `pattern_lattice.dfy`), whereas the signature `Dict[str, int]` admits negative counts. The histograms `build_pattern_histogram` produces only hold positive counts; a negative count passed by another caller is not modelled.
- Ties between equal counts follow dict (first-occurrence) order, as the code does. A lexicographic tie-break on the key is not modelled, because the code does not use one.

## Findings

| source | as written | input that shows it | evidently intended | confidence | as-written member | corrected member |
|---|---|---|---|---|---|---|
| sovereign_qs_qv_system_v2/sovereign_qs_qv_engine/gf2_canonicalizer.py:59 | `return issues` is inside the `for` loop. The validator stops after the first correctly sized event, and returns `None` when no event has the expected length (including no events) | `[[1,2,3,4,5],[5,4,3,2,1]]` with bounds 1..39 and size 5: no issues, although event 1 is descending; `[]` gives `None` | Every event is checked and the list of all issues is returned after the loop | high (not executed) | Gf2Canonicalizer.ValidateQsEvents, Gf2Canonicalizer.EarlyReturnHidesLaterIssue, Gf2Canonicalizer.NoSizedEventLosesReports | Gf2Canonicalizer.ValidateAllEvents, Gf2Canonicalizer.ValidateAllEventsEmptyIffWellFormed, Gf2Canonicalizer.ValidatedEventsHaveFullRows |
