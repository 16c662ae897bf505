# Levenshtein distance and edit-operation backtrace

A Dafny model of `levenshtein.py`, which has two functions:

- `levenshtein(s, t)` builds the dynamic-programming matrix `d`. Cell `d[i][k]` is the edit distance between the first `i` characters of the source `s` and the first `k` characters of the target `t`.
- `trace_operations(s, t, d)` walks back through that matrix from the bottom-right cell. It lists one operation per step:
  - `"a:b"` for a substitution, or a match when the two characters are equal;
  - `":b"` for an insertion;
  - `"a:"` for a deletion.

The project has seven modules:

- `Python` (python.dfy): the Python built-ins the backtrace relies on.
  - List and string subscription. A negative index counts from the end; anything else out of range raises IndexError.
  - `min` over a list.
  - `list.index`.
- `EditScript` (edit_script.dfy): the operations, how each one is rendered as text, and what a script consumes from the source and produces in the target.
  - `Cost` counts the operations that are real edits.
  - `Transforms(ops, src, dst)` says a script turns `src` into `dst`.
- `EditDistance` (edit_distance.dfy): `Lev`, the distance defined by the usual recursion over prefixes, with its properties:
  - bounds;
  - zero exactly on equal prefixes;
  - symmetry;
  - no script is cheaper than the distance.
- `Matrix` (matrix.dfy): the method `Levenshtein`, which fills the matrix with the same four loops as the Python function. It is proved to produce the prefix distances.
- `Backtrace` (backtrace.dfy): the backtrace exactly as the Python loop runs it.
  - Row `-1` and `s[-1]` read the last row and character, as Python does.
  - A run that subscripts out of range ends in `IndexError`.
  - `Walk` is the recursive reading of the loop.
  - The method `TraceOperations` is the loop itself, proved equal to `Walk`.
- `FixedTrace` (fixed_trace.dfy): the backtrace as documented ("the path of minimum editing operations"). It uses the same tie-break, but on the first row it only inserts and on the first column it only deletes.
  - It is proved to return a script that turns the source into the target at exactly the distance.
  - Every run of the original loop that stays inside the matrix is shown to return this same script.
- `Scenarios` (scenarios.dfy): worked examples on the matrix `levenshtein` builds, including the inputs on which the original loop goes wrong.

`trace_operations` is documented as reconstructing the path of minimum editing operations. On the boundary the code does something else:

- With an empty source (or an empty target) the path would be pure insertions (or pure deletions).
- The code instead reads `s[-1]` (or `t[-1]`) and raises IndexError.
- When the path reaches the first row early, it reads the last row as row `-1` and can return a script that does not turn the source into the target.
- Likewise, when the path reaches the first column early, it reads the last column as column `-1`.

The model follows the code. See "## Findings".

## Model

| member | source | states |
|---|---|---|
| Python.Index | levenshtein.py:42-52 | A subscript succeeds exactly when it lies in `-len..len-1`. It then yields the element counted from the front (non-negative) or from the back (negative). |
| Python.Index2 | levenshtein.py:42 | `d[i][k]` succeeds exactly when the row subscript is in range for the list of rows and the column subscript is in range for that row. It then yields the cell at the two positions, each counted from the back when negative. |
| Python.Min | levenshtein.py:43 | `min(values)` is one of the values and no larger than any of them. |
| Python.IndexOf | levenshtein.py:43 | `values.index(v)` finds `v` exactly when it occurs, at a position holding `v` with no earlier occurrence. Otherwise Python raises ValueError, modelled as `None`. |
| Python.FirstMin | levenshtein.py:43 | `values.index(min(values))` is the position of a smallest value, with every earlier value strictly larger. So the earliest of several equal minima wins. |
| EditScript.Render | levenshtein.py:45-52 | The text of an operation is what it consumes from the source, then a colon, then what it produces in the target: `s[i-1]+":"+t[k-1]`, `":"+t[k-1]` and `s[i-1]+":"`. |
| EditScript.RenderRoundTrip | levenshtein.py:45-52 | The text of an operation reads back as that operation, except for deleting a colon. `"::"` is both deleting and inserting a colon, so the rendering is not injective. |
| EditScript.ParseRoundTrip | levenshtein.py:45-52 | Every text that reads as an operation is exactly that operation's rendering. |
| EditScript.MatchesTransform | levenshtein.py:44-47 | Matching every character of a string turns it into itself, with no edits. |
| EditDistance.Min3 | levenshtein.py:25-27 | `min` of three values is one of them and no larger than any of them. |
| EditDistance.LevAtLeastGap | levenshtein.py:5-8 | The distance between prefixes of lengths `i` and `k` is at least `abs(i - k)`. |
| EditDistance.LevAtMostLonger | levenshtein.py:5-8 | The distance between prefixes of lengths `i` and `k` is at most `max(i, k)`. |
| EditDistance.LevZeroIff | levenshtein.py:5-8 | The distance is zero if and only if the two prefixes are equal. |
| EditDistance.LevSymmetric | levenshtein.py:5-8 | Swapping source and target does not change the distance. |
| EditDistance.LevLowerBound | levenshtein.py:5-8 | Every script that turns a source prefix into a target prefix makes at least as many edits as their distance. So the distance is a minimum. |
| Matrix.Levenshtein | levenshtein.py:13-27 | The filled matrix has `len(s)+1` rows of `len(t)+1` cells and holds its indices on the first row and column. Every inner cell is the cheapest of diagonal plus substitution price, up plus one and left plus one. Combined with `Matrix.DistanceMatrixIsLev`, every cell is the prefix distance. |
| Matrix.DistanceMatrixIsLev | levenshtein.py:16-27 | Any matrix with the boundary and the recurrence of lines 16-27 holds the prefix distance in every cell. |
| Matrix.Transposed | levenshtein.py:13-27 | The matrix for `(t, s)` is the transpose of the matrix for `(s, t)`, so the distance is symmetric. |
| Matrix.CellBounds | levenshtein.py:13-27 | Every cell is non-negative, at least the difference of its indices and at most the larger index. |
| Matrix.DistanceZeroIff | levenshtein.py:11 | The last cell is zero exactly when the two strings are equal. |
| Backtrace.StepAt | levenshtein.py:42-53 | One iteration either raises or returns indices that are no larger. Their sum is strictly smaller, and they never go below `-len - 1`, so the loop terminates. The emitted operation uses only characters of the two strings. |
| Backtrace.Trace | levenshtein.py:38-55 | The list `trace_operations` collects, or IndexError. Every operation in it uses only characters of the source (for what it consumes) and of the target (for what it produces), even when the run reads a wrapped-around subscript. |
| Backtrace.WalkUnroll | levenshtein.py:41-54 | The operation of one iteration ends up in front of every operation found after it. |
| Backtrace.TraceOperations | levenshtein.py:38-55 | The loop returns the rendering of the recursive backtrace, or raises IndexError exactly when the recursive backtrace does. |
| Backtrace.InteriorStep | levenshtein.py:42-53 | Away from the first row and column an iteration never raises. It substitutes exactly when the diagonal is no larger than left and up, inserts exactly when left is smaller than the diagonal and no larger than up, and deletes exactly when up is smaller than both. |
| Backtrace.InteriorStepOptimal | levenshtein.py:42-53 | On a distance matrix an inner iteration lands inside the matrix, on a neighbour whose value plus the price of the emitted operation (0 for a match, else 1) is the current cell. |
| Backtrace.IdenticalTrace | levenshtein.py:42-47 | For a string against itself, the backtrace stays on the diagonal and returns `c:c` for every character, in order. |
| FixedTrace.TraceFixedTransforms | levenshtein.py:30-36 | The corrected backtrace consumes exactly the source and produces exactly the target. |
| FixedTrace.TraceFixedCost | levenshtein.py:30-36 | The corrected backtrace from any cell makes exactly as many edits as that cell says. |
| FixedTrace.TraceFixedOptimal | levenshtein.py:30-36 | The corrected backtrace turns the source into the target with exactly the distance's number of edits. |
| FixedTrace.TraceFixedMinimal | levenshtein.py:30-36 | No script that turns the source into the target makes fewer edits than the corrected backtrace. |
| FixedTrace.EmptySourceInserts | levenshtein.py:41-53 | With an empty source the corrected backtrace inserts every target character, in order. |
| FixedTrace.EmptyTargetDeletes | levenshtein.py:41-53 | With an empty target the corrected backtrace deletes every source character, in order. |
| FixedTrace.InMatrixStep | levenshtein.py:42-53 | An iteration of the original loop that stays inside the matrix takes the same step as the corrected backtrace. |
| FixedTrace.InMatrixWalkAgrees | levenshtein.py:41-54 | A run of the original loop that stays inside the matrix returns exactly the corrected backtrace. |
| FixedTrace.InMatrixTraceOptimal | levenshtein.py:30-55 | A run of `trace_operations` that stays inside the matrix succeeds and returns a script that turns the source into the target with exactly the distance's number of edits. |
| FixedTrace.IdenticalStaysInMatrix | levenshtein.py:41-53 | For a string against itself, the original loop stays inside the matrix from every diagonal cell, so `FixedTrace.InMatrixTraceOptimal` applies to that whole family of inputs. |
| Scenarios.EmptySourceRaises | levenshtein.py:41-45 | With an empty source and a non-empty target the first iteration picks the diagonal and reads `s[-1]`, so the call raises IndexError. |
| Scenarios.EmptyTargetRaises | levenshtein.py:41-45 | With a non-empty source and an empty target the first iteration picks the diagonal and reads `t[-1]`, so the call raises IndexError. |
| Scenarios.WrappedScript | levenshtein.py:41-54 | For `"ab"` and `"bxab"` the loop reads the last row as row `-1` and returns `a:b b:x a:a b:b`, which does not turn `"ab"` into `"bxab"`. |
| Scenarios.WrappedScriptCorrected | levenshtein.py:41-54 | For `"ab"` and `"bxab"` the corrected backtrace returns `:b :x a:a b:b`: it inserts on the first row. |
| Scenarios.WrappedColumnScript | levenshtein.py:41-54 | For `"bxab"` and `"ab"` the loop reads the last column as column `-1` and returns `b:a x:b a:a b:b`, which does not turn `"bxab"` into `"ab"`. |
| Scenarios.WrappedColumnScriptCorrected | levenshtein.py:41-54 | For `"bxab"` and `"ab"` the corrected backtrace returns `b: x: a:a b:b`: it deletes on the first column. |
| Scenarios.OneSubstitution | levenshtein.py:13-55 | `"a"` against `"b"` has distance 1, and the backtrace is `["a:b"]`: the diagonal is the strict minimum of `[0, 1, 1]`. |
| Scenarios.SwappedPair | levenshtein.py:13-55 | `"ab"` against `"ba"` has distance 2, and the backtrace is `["a:b", "b:a"]`: two substitutions rather than a deletion and an insertion, because at `(2, 2)` the diagonal wins the three-way tie `[1, 1, 1]`. |
| Scenarios.KittenSitting | levenshtein.py:13-27 | `"kitten"` against `"sitting"` has distance 3. |
| Scenarios.FlawLawn | levenshtein.py:13-27 | `"flaw"` against `"lawn"` has distance 2. |

## Left out

- The command-line glue (levenshtein.py:58-70): argument parsing, reading the word-pair file, splitting on tabs and printing. It is I/O with no logic of its own.
- Backtrace.TraceOperations: requires the matrix to have `len(s)+1` rows of `len(t)+1` cells. The docstring says `d` is the Levenshtein matrix; for other shapes the Python function would read whatever the lists hold, and the model does not describe that.
- Backtrace.StepAt: requires the same shape, for the same reason.
- The triangle inequality of the distance is not proved. It is not needed to describe either function.
- Characters are Dafny `char` compared by equality only. The Python program indexes code points; no Unicode normalisation or grapheme handling is involved in either.
- Python integers are unbounded, so are Dafny's, and nothing wraps around.
- The backtrace for `"abc"` against `"abc"` is covered by the general `Backtrace.IdenticalTrace`. The distances of `"kitten"`/`"sitting"` and `"flaw"`/`"lawn"` are stated, but not their backtraces.

## Findings

| source | as written | input that shows it | evidently intended | confidence | as-written member | corrected member |
|---|---|---|---|---|---|---|
| levenshtein.py:41-45 | With `i == 0` and `k > 0` the loop still computes the diagonal and reads `s[i-1]`, which is `s[-1]` | `s = ""`, `t = "abc"`: the diagonal wins the first comparison and `s[-1]` raises IndexError | `[":a", ":b", ":c"]`, one insertion per target character | high; not executed | Scenarios.EmptySourceRaises | FixedTrace.EmptySourceInserts |
| levenshtein.py:41-45 | With `k == 0` and `i > 0` the loop reads `t[k-1]`, which is `t[-1]` | `s = "abc"`, `t = ""`: the diagonal wins the first comparison and `t[-1]` raises IndexError | `["a:", "b:", "c:"]`, one deletion per source character | high; not executed | Scenarios.EmptyTargetRaises | FixedTrace.EmptyTargetDeletes |
| levenshtein.py:41-53 | On the first row the diagonal and up neighbours are read from row `-1`, the last row, and can win the comparison | `s = "ab"`, `t = "bxab"`: the call returns `a:b b:x a:a b:b`, which consumes `"abab"` | `:b :x a:a b:b`, insertions only once the source is used up | high; not executed | Scenarios.WrappedScript | FixedTrace.TraceFixedOptimal |
| levenshtein.py:41-53 | On the first column the diagonal and left neighbours are read from column `-1`, the last column, and can win the comparison | `s = "bxab"`, `t = "ab"`: the call returns `b:a x:b a:a b:b`, which produces `"abab"` | `b: x: a:a b:b`, deletions only once the target is used up | high; not executed | Scenarios.WrappedColumnScript | FixedTrace.TraceFixedOptimal |
