/**
  The backtrace as its documentation describes it: a path of minimum editing
  operations from the bottom-right cell to the top-left one. It follows the
  same tie-break as `trace_operations` on inner cells, and on the first row
  (or first column) it only inserts (or only deletes) instead of reading the
  wrapped-around neighbours.

  A run of the original loop that never leaves the matrix through a negative
  index is exactly this backtrace, so everything proved here about the
  corrected backtrace holds of those runs too.
 */
module FixedTrace {
  import opened Python
  import opened EditScript
  import opened EditDistance
  import opened Matrix
  import opened Backtrace

  /** The move taken from cell `(i, k)`: on the first row always left, on
      the first column always up, elsewhere the first minimum of diagonal,
      left and up. */
  function FixedMove(d: seq<seq<int>>, i: nat, k: nat): (move: nat)
    requires 1 <= i + k
    requires i < |d| && forall r :: 0 <= r < |d| ==> k < |d[r]|
    ensures move <= Up
    ensures i == 0 ==> move == Left
    ensures k == 0 ==> move == Up
  {
    if i == 0 then Left
    else if k == 0 then Up
    else FirstMin([d[i - 1][k - 1], d[i][k - 1], d[i - 1][k]])
  }

  /** One step of the corrected backtrace from cell `(i, k)`: the operation
      and the cell it moves to. The operation consumes exactly the source
      characters and produces exactly the target characters between that
      cell and this one. */
  function FixedStep(s: string, t: string, d: seq<seq<int>>, i: nat, k: nat): (step: Step)
    requires IsGrid(d, |s| + 1, |t| + 1)
    requires i <= |s| && k <= |t| && 1 <= i + k
    ensures 0 <= step.i <= i && 0 <= step.k <= k && step.i + step.k < i + k
    ensures SourcePart(step.op) == s[step.i..i] && TargetPart(step.op) == t[step.k..k]
  {
    var move := FixedMove(d, i, k);
    if move == Diagonal then Step(Sub(s[i - 1], t[k - 1]), i - 1, k - 1)
    else if move == Left then Step(Ins(t[k - 1]), i, k - 1)
    else Step(Del(s[i - 1]), i - 1, k)
  }

  /** The operations from cell `(i, k)` back to the top-left cell, in
      left-to-right order. */
  function TraceFixed(s: string, t: string, d: seq<seq<int>>, i: nat, k: nat): seq<Op>
    requires IsGrid(d, |s| + 1, |t| + 1)
    requires i <= |s| && k <= |t|
    decreases i + k
  {
    if i == 0 && k == 0 then []
    else
      var step := FixedStep(s, t, d, i, k);
      TraceFixed(s, t, d, step.i, step.k) + [step.op]
  }

  /** The corrected backtrace consumes exactly the source prefix and
      produces exactly the target prefix. */
  lemma {:induction false} TraceFixedTransforms(s: string, t: string, d: seq<seq<int>>, i: nat, k: nat)
    requires IsGrid(d, |s| + 1, |t| + 1)
    requires i <= |s| && k <= |t|
    ensures Transforms(TraceFixed(s, t, d, i, k), s[..i], t[..k])
    decreases i + k
  {
    if !(i == 0 && k == 0) {
      var step := FixedStep(s, t, d, i, k);
      var rest := TraceFixed(s, t, d, step.i, step.k);
      TraceFixedTransforms(s, t, d, step.i, step.k);
      TransformsSnoc(rest, step.op, s[..step.i], t[..step.k]);
      assert s[..step.i] + SourcePart(step.op) == s[..i];
      assert t[..step.k] + TargetPart(step.op) == t[..k];
    }
  }

  /** The tie-break lands on a neighbour from which the cell is reached at
      the price of the operation: the first minimum of diagonal, left and up
      is an optimal predecessor in the recurrence. */
  lemma FirstMinIsOptimal(diag: int, left: int, up: int, cost: nat, v: int)
    requires cost <= 1
    requires v == Min3(diag + cost, up + 1, left + 1)
    ensures FirstMin([diag, left, up]) == Diagonal ==> v == diag + cost
    ensures FirstMin([diag, left, up]) == Left ==> v == left + 1
    ensures FirstMin([diag, left, up]) == Up ==> v == up + 1
  {
    var values := [diag, left, up];
    assert values[0] == diag && values[1] == left && values[2] == up;
  }

  /** On a distance matrix, every step of the corrected backtrace moves to
      a cell whose value plus the price of the operation is the current cell:
      nothing for a match, one for any other operation. */
  lemma FixedStepOptimal(s: string, t: string, d: seq<seq<int>>, i: nat, k: nat)
    requires IsDistanceMatrix(s, t, d)
    requires i <= |s| && k <= |t| && 1 <= i + k
    ensures var step := FixedStep(s, t, d, i, k);
            d[i][k] == d[step.i][step.k] + (if IsMatch(step.op) then 0 else 1)
  {
    if i >= 1 && k >= 1 {
      assert InnerCell(s, t, d, i, k);
      FirstMinIsOptimal(d[i - 1][k - 1], d[i][k - 1], d[i - 1][k], SubstCost(s[i - 1], t[k - 1]), d[i][k]);
    }
  }

  /** On a distance matrix the corrected backtrace costs exactly the cell it
      starts from. */
  lemma {:induction false} TraceFixedCost(s: string, t: string, d: seq<seq<int>>, i: nat, k: nat)
    requires IsDistanceMatrix(s, t, d)
    requires i <= |s| && k <= |t|
    ensures Cost(TraceFixed(s, t, d, i, k)) == d[i][k]
    decreases i + k
  {
    if !(i == 0 && k == 0) {
      var step := FixedStep(s, t, d, i, k);
      FixedStepOptimal(s, t, d, i, k);
      TraceFixedCost(s, t, d, step.i, step.k);
      var ops := TraceFixed(s, t, d, i, k);
      assert ops[..|ops| - 1] == TraceFixed(s, t, d, step.i, step.k);
    }
  }

  /** The corrected backtrace of the whole strings transforms the source
      into the target with exactly as many edits as their distance. */
  lemma {:induction false} TraceFixedOptimal(s: string, t: string, d: seq<seq<int>>)
    requires IsDistanceMatrix(s, t, d)
    ensures Transforms(TraceFixed(s, t, d, |s|, |t|), s, t)
    ensures Cost(TraceFixed(s, t, d, |s|, |t|)) == Lev(s, t, |s|, |t|)
  {
    assert s[..|s|] == s && t[..|t|] == t;
    TraceFixedTransforms(s, t, d, |s|, |t|);
    TraceFixedCost(s, t, d, |s|, |t|);
    CellIsLev(s, t, d, |s|, |t|);
  }

  /** No script that transforms the source into the target makes fewer
      edits than the corrected backtrace. */
  lemma {:induction false} TraceFixedMinimal(s: string, t: string, d: seq<seq<int>>, other: seq<Op>)
    requires IsDistanceMatrix(s, t, d)
    requires Transforms(other, s, t)
    ensures Cost(TraceFixed(s, t, d, |s|, |t|)) <= Cost(other)
  {
    assert s[..|s|] == s && t[..|t|] == t;
    TraceFixedOptimal(s, t, d);
    LevLowerBound(s, t, |s|, |t|, other);
  }

  /** With an empty source the corrected backtrace inserts every target
      character, in order. */
  lemma EmptySourceInserts(t: string, d: seq<seq<int>>)
    requires IsGrid(d, 1, |t| + 1)
    ensures TraceFixed("", t, d, 0, |t|) == Insertions(t)
  {
    EmptySourceInsertsFrom(t, d, |t|);
    assert t[..|t|] == t;
  }

  lemma {:induction false} EmptySourceInsertsFrom(t: string, d: seq<seq<int>>, k: nat)
    requires IsGrid(d, 1, |t| + 1)
    requires k <= |t|
    ensures TraceFixed("", t, d, 0, k) == Insertions(t[..k])
    decreases k
  {
    if k > 0 {
      EmptySourceInsertsFrom(t, d, k - 1);
      InsertionsSnoc(t, k);
    }
  }

  /** With an empty target the corrected backtrace deletes every source
      character, in order. */
  lemma EmptyTargetDeletes(s: string, d: seq<seq<int>>)
    requires IsGrid(d, |s| + 1, 1)
    ensures TraceFixed(s, "", d, |s|, 0) == Deletions(s)
  {
    EmptyTargetDeletesFrom(s, d, |s|);
    assert s[..|s|] == s;
  }

  lemma {:induction false} EmptyTargetDeletesFrom(s: string, d: seq<seq<int>>, i: nat)
    requires IsGrid(d, |s| + 1, 1)
    requires i <= |s|
    ensures TraceFixed(s, "", d, i, 0) == Deletions(s[..i])
    decreases i
  {
    if i > 0 {
      EmptyTargetDeletesFrom(s, d, i - 1);
      DeletionsSnoc(s, i);
    }
  }

  /** A run of the original loop from `(i, k)` stays in the matrix when every
      step succeeds and lands on a cell of the matrix (no index below zero). */
  predicate StaysInMatrix(s: string, t: string, d: seq<seq<int>>, i: nat, k: nat)
    requires IsGrid(d, |s| + 1, |t| + 1)
    requires i <= |s| && k <= |t|
    decreases i + k
  {
    || (i == 0 && k == 0)
    || (&& StepAt(s, t, d, i, k).Ok?
        && var step := StepAt(s, t, d, i, k).value;
        && 0 <= step.i && 0 <= step.k
        && StaysInMatrix(s, t, d, step.i, step.k))
  }

  /** A step of the original loop that stays in the matrix is the step of
      the corrected backtrace. */
  lemma InMatrixStep(s: string, t: string, d: seq<seq<int>>, i: nat, k: nat)
    requires IsGrid(d, |s| + 1, |t| + 1)
    requires i <= |s| && k <= |t| && 1 <= i + k
    requires StepAt(s, t, d, i, k).Ok?
    requires 0 <= StepAt(s, t, d, i, k).value.i && 0 <= StepAt(s, t, d, i, k).value.k
    ensures StepAt(s, t, d, i, k).value == FixedStep(s, t, d, i, k)
  {
  }

  /** A run of the original loop that stays in the matrix returns the corrected backtrace. */
  lemma {:induction false} InMatrixWalkAgrees(s: string, t: string, d: seq<seq<int>>, i: nat, k: nat)
    requires IsGrid(d, |s| + 1, |t| + 1)
    requires i <= |s| && k <= |t|
    requires StaysInMatrix(s, t, d, i, k)
    ensures Walk(s, t, d, i, k) == Ok(TraceFixed(s, t, d, i, k))
    decreases i + k
  {
    if !(i == 0 && k == 0) {
      var step := StepAt(s, t, d, i, k).value;
      InMatrixStep(s, t, d, i, k);
      InMatrixWalkAgrees(s, t, d, step.i, step.k);
      WalkSucceeds(s, t, d, i, k, step, TraceFixed(s, t, d, step.i, step.k));
    }
  }

  /** A run of `trace_operations` on a distance matrix that stays in the
      matrix returns a script that transforms the source into the target
      using exactly as many edits as the distance in the bottom-right cell. */
  lemma {:induction false} InMatrixTraceOptimal(s: string, t: string, d: seq<seq<int>>)
    requires IsDistanceMatrix(s, t, d)
    requires StaysInMatrix(s, t, d, |s|, |t|)
    ensures Trace(s, t, d).Ok?
    ensures Transforms(Trace(s, t, d).value, s, t)
    ensures Cost(Trace(s, t, d).value) == Lev(s, t, |s|, |t|)
  {
    InMatrixWalkAgrees(s, t, d, |s|, |t|);
    TraceFixedOptimal(s, t, d);
  }

  /** On a string against itself the original loop stays on the diagonal,
      so it never leaves the matrix. */
  lemma {:induction false} IdenticalStaysInMatrix(s: string, d: seq<seq<int>>, i: nat)
    requires IsDistanceMatrix(s, s, d)
    requires i <= |s|
    ensures StaysInMatrix(s, s, d, i, i)
    decreases i
  {
    if i > 0 {
      DiagonalOfEqual(s, d, i);
      InteriorStep(s, s, d, i, i);
      IdenticalStaysInMatrix(s, d, i - 1);
    }
  }
}
