# Minimum-cost string alignment

A Dafny model of the aligner in `Aligner/Aligner.py`. The program aligns two strings with the
weighted Levenshtein distance of Jurafsky and Martin (Fig. 2.21). An insertion or a deletion
costs 1. A substitution costs 2, and a match costs 0.

- `compute_backpointers` fills a cost table `dp` and a backpointer table over the
  `(|s0|+1) x (|s1|+1)` grid. Ties are broken in the order substitution, deletion, insertion.
- `align` walks the backpointers from the last cell back to the origin. It emits one column
  per step, then reverses the two lists and joins each into a padded string.

Layout:

- `Wrappers.dfy`: `Option` and `Result`.
- `Aligner.dfy`: the operations.
  - `SubstCost`.
  - The recurrence `MinCost` that specifies the cost table.
  - `Backpointer`, the cell the table records.
  - The filling methods over `array2` tables: `FillTables`, `FillEdges`, `FillRow`, `FillCell`.
  - `ComputeBackpointers`, with its error path for an absent input.
  - `Walk`, the backward walk as a function.
  - `Align`, the walking method, proved equal to `Walk` followed by rendering.
- `AlignerExamples.dfy`: the padded strings the code returns for "ab"/"ba", for "ba"/"ab" and
  for "around"/"rounded".
- `AlignerProperties.dfy`: what the aligner promises, proved about the specification functions.
  - The walk is an alignment of the two inputs.
  - Its cost is the table's final value.
  - No alignment is cheaper.
  - Plus the identity case, the edges, the symmetry of the cost and the tie-break.

Modelling choices:

- Both tables are pre-sized two-dimensional arrays. The source uses auto-vivifying
  dictionaries, but it only touches cells inside the grid. The origin's backpointer is
  never written, so it stays `None`.
- The walk emits `Option<char>` columns, where `None` is a gap. The gap is turned into the
  space character only when the result is rendered (`Render`). This is why a gap and a
  literal space in the input can be told apart in the proofs.
- A Python `None` string is modelled as `Option<string>.None`. The exception it raises becomes
  `Result.Failure(InvalidInput)`.

## Model

| member | source | states |
|---|---|---|
| Aligner.SubstCost | Aligner/Aligner.py:91-96 | the cost is 0 exactly when the two characters are equal; it is 0 or 2 |
| Aligner.Min3 | Aligner/Aligner.py:62 | the result is no larger than any of the three arguments and equals one of them |
| Aligner.MinCost | Aligner/Aligner.py:46-63 | the value `dp[i][j]` the fill computes, defined by the source's recurrence; it carries no contract of its own, and its properties are stated by `MinCostBounds`, `MinCostZeroIff`, `MinCostSymmetric`, `NoAlignmentIsCheaper` and `WalkCost` |
| Aligner.Backpointer | Aligner/Aligner.py:65-71 | the recorded cell is one of the three neighbours a move can come from, so it is strictly closer to the origin |
| Aligner.InteriorCell | Aligner/Aligner.py:58-71 | an interior cell's cost is the cheapest of its deletion, insertion and substitution candidates, and its backpointer is the first of substitution, deletion, insertion attaining it |
| Aligner.FillEdges | Aligner/Aligner.py:46-53 | afterwards column 0 holds i and points up, and row 0 holds j and points left |
| Aligner.FillCell | Aligner/Aligner.py:58-71 | writing one interior cell keeps every cell reached so far equal to `MinCost` and `Backpointer` |
| Aligner.FillRow | Aligner/Aligner.py:57-71 | after row i every cell of rows 0..i holds its final cost and backpointer |
| Aligner.FillTables | Aligner/Aligner.py:42-71 | every cell of `dp` equals `MinCost`; the backpointer table is `Built`: the origin is empty and every other cell holds `Backpointer` |
| Aligner.ComputeBackpointers | Aligner/Aligner.py:35-86 | fails with `InvalidInput` exactly when either string is absent; otherwise returns a fresh table that is `Built` for the two strings |
| Aligner.Walk | Aligner/Aligner.py:124-141 | the walk's two sides always have equal length |
| Aligner.WalkLast | Aligner/Aligner.py:131-141 | each step moves back by one row, one column or both; it appends the character of each side whose index moves and a gap on a side that stays |
| Aligner.Reverse | Aligner/Aligner.py:143-144 | the result has the same length, and element k is element `\|s\|-1-k` of the input |
| Aligner.Render | Aligner/Aligner.py:136-144 | the printed side: one character per column, a gap written as a space; it carries no contract of its own, and `AlignIdentical`, `AlignAbBa`, `AlignBaAb` and `AlignAroundRounded` state what it yields |
| Aligner.Align | Aligner/Aligner.py:117-146 | on any well-formed table the two returned strings are the rendered sides of `Walk` from the last cell; they have equal length |
| AlignerProperties.MinCostBounds | Aligner/Aligner.py:46-62 | a cell costs at least the difference of the two prefix lengths and at most their sum |
| AlignerProperties.MinCostZeroIff | Aligner/Aligner.py:46-62 | a cell costs 0 if and only if the two prefixes are equal |
| AlignerProperties.MinCostSymmetric | Aligner/Aligner.py:46-62 | the cost of (s0, s1) at (i, j) equals the cost of (s1, s0) at (j, i) |
| AlignerProperties.BackpointerTieBreak | Aligner/Aligner.py:65-71 | an interior backpointer is diagonal if and only if substitution attains the cell's cost; it is vertical if and only if deletion does and substitution does not; otherwise it is horizontal, and insertion attains the cost |
| AlignerProperties.BackpointerStep | Aligner/Aligner.py:58-71 | a cell's cost is the cost of the cell it points to plus the cost of that one step |
| AlignerProperties.TieBreakPrefersDeletion | Aligner/Aligner.py:65-71 | between "ab" and "ba", in both orders, the last cell records a deletion |
| AlignerExamples.AlignAbBa | Aligner/Aligner.py:100-146 | on the table built for "ab" and "ba" the code returns " ab" over "ba " |
| AlignerExamples.AlignBaAb | Aligner/Aligner.py:100-146 | on the table built for "ba" and "ab" the code returns " ba" over "ab " |
| AlignerExamples.SwappedInputsAreNotMirrored | Aligner/Aligner.py:65-71 | swapping the inputs does not swap the two returned strings: for "ab"/"ba" neither side of the swapped run equals the other side of the original run |
| AlignerExamples.AroundRoundedCost | Aligner/Aligner.py:56-63 | the whole cost table of "around" against "rounded", cell by cell |
| AlignerExamples.AroundRoundedBackpointer | Aligner/Aligner.py:65-71 | the backpointers along the path the walk takes for "around" against "rounded" |
| AlignerExamples.AlignAroundRounded | Aligner/Aligner.py:105-107 | on the table built for "around" and "rounded" the code returns "aroun  d" over " rounded", not the docstring's "around  " over " rounded"; the final cost is 3 |
| AlignerProperties.WalkErasesTop | Aligner/Aligner.py:131-141 | erasing the gaps of the first side of the walk from (i, j) gives `s0[..i]` |
| AlignerProperties.WalkErasesBottom | Aligner/Aligner.py:131-141 | erasing the gaps of the second side gives `s1[..j]` |
| AlignerProperties.WalkHasNoEmptyColumn | Aligner/Aligner.py:131-139 | no column of the walk is a gap on both sides |
| AlignerProperties.WalkIsAlignment | Aligner/Aligner.py:124-141 | on any well-formed table the walk is an alignment of the two prefixes |
| AlignerProperties.WalkCost | Aligner/Aligner.py:124-141 | on the table of the two strings, the walk from (i, j) costs exactly `MinCost` at (i, j) |
| AlignerProperties.MinCostBelowStep | Aligner/Aligner.py:58-62 | a cell never costs more than a neighbour plus the cost of the column leading from that neighbour |
| AlignerProperties.NoAlignmentIsCheaper | Aligner/Aligner.py:56-62 | no alignment of `s0[..i]` with `s1[..j]` costs less than `MinCost` at (i, j) |
| AlignerProperties.OptimalAlignment | Aligner/Aligner.py:10 | the alignment read off the built table aligns the two inputs, costs the table's final value, and is no dearer than any other alignment |
| AlignerProperties.IdenticalInputs | Aligner/Aligner.py:65-67 | aligning a string with itself walks the diagonal and pairs every character with itself |
| AlignerProperties.AlignIdentical | Aligner/Aligner.py:143-144 | aligning a string with itself returns the string on both sides, at cost 0 |
| AlignerProperties.WalkAlongFirstRow | Aligner/Aligner.py:50-53 | along row 0 the walk is only insertions: gaps above, the prefix of `s1` below |
| AlignerProperties.WalkAlongFirstColumn | Aligner/Aligner.py:46-49 | along column 0 the walk is only deletions: the prefix of `s0` above, gaps below |

## Left out

- `print_alignment`, `main` and the command-line handling: console output and argument parsing.
- The `dp` table is not returned by `compute_backpointers`. `ComputeBackpointers` discards it
  the same way; `FillTables` states its contents.
- On a missing backpointer `align` breaks out of its loop instead of raising
  (Aligner/Aligner.py:126-128). The model follows the code. `Align` requires a well-formed
  table, and every table `ComputeBackpointers` builds is one, so the case cannot arise on a
  built table.
- Align: its `requires` asks for a well-formed table. On a hand-made table, the source would
  stop early at a missing entry or take its `else` branch for a non-neighbour; that behaviour
  is not modelled.
- Aligning B with A is not in general the mirror image of aligning A with B. Only the cost
  is symmetric (`MinCostSymmetric`). `SwappedInputsAreNotMirrored` shows that "ab"/"ba"
  gives " ab" over "ba ", while "ba"/"ab" gives " ba" over "ab ".
- The docstring's example (Aligner/Aligner.py:105-107) does not match the code. The code
  returns "aroun  d" over " rounded" (`AlignAroundRounded`). That the docstring's own pair
  is also an alignment of cost 3 is not proved.
- Character equality is exact `char` equality: no Unicode normalisation and no encoding.
- The auto-vivifying dictionaries (`defaultdict`) are replaced by pre-sized arrays. Reading
  a missing key would yield `0`; that only matters for the unreachable `break` above.
