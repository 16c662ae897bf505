/**
  The backtrace of `trace_operations(s, t, d)`, exactly as the loop runs it
  in Python: start at the bottom-right cell, compare the diagonal, left and
  upper neighbours, take the first minimum, emit an operation and put it in
  front of the ones found so far, until both indices are at most zero.

  Python subscription lets an index of -1 (or less) through: it counts from
  the end of the list or string, or raises IndexError. The model keeps that
  behaviour; `IndexError` is the outcome of a run that raises.
 */
module Backtrace {
  import opened Python
  import opened EditScript
  import opened EditDistance
  import opened Matrix

  datatype Result<+T> = Ok(value: T) | IndexError

  /** One iteration of the loop: the operation it emits and the indices it
      leaves behind. */
  datatype Step = Step(op: Op, i: int, k: int)

  /** The candidates of the loop's comparison, in the order Python lists
      them: diagonal, left (insertion), up (deletion). */
  const Diagonal := 0
  const Left := 1
  const Up := 2

  /** An operation whose source character comes from `s` and whose target
      character comes from `t`. */
  predicate DrawsFrom(op: Op, s: string, t: string) {
    match op
    case Sub(a, b) => a in s && b in t
    case Ins(b) => b in t
    case Del(a) => a in s
  }

  /** One iteration of the loop body at indices `(i, k)`. */
  function StepAt(s: string, t: string, d: seq<seq<int>>, i: int, k: int): (r: Result<Step>)
    requires IsGrid(d, |s| + 1, |t| + 1)
    ensures r.Ok? ==> DrawsFrom(r.value.op, s, t)
    ensures r.Ok? ==> -|s| - 1 <= r.value.i && -|t| - 1 <= r.value.k
    ensures r.Ok? ==> r.value.i <= i && r.value.k <= k && r.value.i + r.value.k < i + k
  {
    var diag, left, up := Index2(d, i - 1, k - 1), Index2(d, i, k - 1), Index2(d, i - 1, k);
    if diag.None? || left.None? || up.None? then IndexError
    else
      var minimum := FirstMin([diag.value, left.value, up.value]);
      if minimum == Diagonal then
        var a, b := Index(s, i - 1), Index(t, k - 1);
        if a.None? || b.None? then IndexError else Ok(Step(Sub(a.value, b.value), i - 1, k - 1))
      else if minimum == Left then
        var b := Index(t, k - 1);
        if b.None? then IndexError else Ok(Step(Ins(b.value), i, k - 1))
      else
        var a := Index(s, i - 1);
        if a.None? then IndexError else Ok(Step(Del(a.value), i - 1, k))
  }

  /** The operations the loop collects from indices `(i, k)` on, in the
      order they end up in the list: each new one goes in front. */
  function Walk(s: string, t: string, d: seq<seq<int>>, i: int, k: int): (r: Result<seq<Op>>)
    requires IsGrid(d, |s| + 1, |t| + 1)
    requires -|s| - 1 <= i && -|t| - 1 <= k
    ensures r.Ok? ==> forall j :: 0 <= j < |r.value| ==> DrawsFrom(r.value[j], s, t)
    decreases i + k + |s| + |t| + 2
  {
    if i <= 0 && k <= 0 then Ok([])
    else
      match StepAt(s, t, d, i, k)
      case IndexError => IndexError
      case Ok(step) =>
        match Walk(s, t, d, step.i, step.k)
        case IndexError => IndexError
        case Ok(earlier) => Ok(earlier + [step.op])
  }

  /** The list `trace_operations` returns, or the IndexError it raises.
      Even a run that reads through a wrapped-around subscript only ever
      emits characters of the two strings. */
  function Trace(s: string, t: string, d: seq<seq<int>>): (r: Result<seq<Op>>)
    requires IsGrid(d, |s| + 1, |t| + 1)
    ensures r.Ok? ==> forall j :: 0 <= j < |r.value| ==> DrawsFrom(r.value[j], s, t)
  {
    Walk(s, t, d, |s|, |t|)
  }

  /** The rendered form of a result. */
  function RenderResult(r: Result<seq<Op>>): Result<seq<string>> {
    match r
    case Ok(ops) => Ok(RenderAll(ops))
    case IndexError => IndexError
  }

  /** `later` put behind what a walk returns, or the walk's error. */
  function Then(r: Result<seq<Op>>, later: seq<Op>): Result<seq<Op>> {
    match r
    case Ok(ops) => Ok(ops + later)
    case IndexError => IndexError
  }

  /** A walk whose first step raises raises. */
  lemma WalkRaises(s: string, t: string, d: seq<seq<int>>, i: int, k: int)
    requires IsGrid(d, |s| + 1, |t| + 1)
    requires -|s| - 1 <= i && -|t| - 1 <= k
    requires !(i <= 0 && k <= 0)
    requires StepAt(s, t, d, i, k) == IndexError
    ensures Walk(s, t, d, i, k) == IndexError
  {
  }

  /** Unrolling one iteration of the loop: the operation of the first step
      goes in front of everything collected after it. */
  lemma WalkUnroll(s: string, t: string, d: seq<seq<int>>, i: int, k: int, step: Step, later: seq<Op>)
    requires IsGrid(d, |s| + 1, |t| + 1)
    requires -|s| - 1 <= i && -|t| - 1 <= k
    requires !(i <= 0 && k <= 0)
    requires StepAt(s, t, d, i, k) == Ok(step)
    ensures -|s| - 1 <= step.i && -|t| - 1 <= step.k
    ensures Then(Walk(s, t, d, i, k), later) == Then(Walk(s, t, d, step.i, step.k), [step.op] + later)
  {
    match Walk(s, t, d, step.i, step.k)
    case IndexError =>
    case Ok(earlier) =>
      assert earlier + [step.op] + later == earlier + ([step.op] + later);
  }

  /** `trace_operations(s, t, d)` with its loop: the rendered operations in
      left-to-right order, or IndexError. */
  method TraceOperations(s: string, t: string, d: seq<seq<int>>) returns (r: Result<seq<string>>)
    requires IsGrid(d, |s| + 1, |t| + 1)
    ensures r == RenderResult(Trace(s, t, d))
  {
    var backtrace: seq<string> := [];
    ghost var ops: seq<Op> := [];
    var i, k := |s|, |t|;
    match Trace(s, t, d) {
      case Ok(all) => assert all + [] == all;
      case IndexError =>
    }
    while !(i <= 0 && k <= 0)
      invariant -|s| - 1 <= i <= |s| && -|t| - 1 <= k <= |t|
      invariant backtrace == RenderAll(ops)
      invariant Trace(s, t, d) == Then(Walk(s, t, d, i, k), ops)
      decreases i + k + |s| + |t| + 2
    {
      var step := StepAt(s, t, d, i, k);
      if step.IndexError? {
        WalkRaises(s, t, d, i, k);
        return IndexError;
      }
      var op := step.value.op;
      WalkUnroll(s, t, d, i, k, step.value, ops);
      i, k := step.value.i, step.value.k;
      RenderAllCons(op, ops);
      backtrace := [Render(op)] + backtrace;
      ops := [op] + ops;
    }
    assert [] + ops == ops;
    r := Ok(backtrace);
  }

  /** Away from the first row and column, a step reads no wrapped-around
      subscript, never raises, and takes the first minimum of diagonal, left
      and up: the diagonal wins every tie, and left wins a tie with up. */
  lemma InteriorStep(s: string, t: string, d: seq<seq<int>>, i: int, k: int)
    requires IsGrid(d, |s| + 1, |t| + 1)
    requires 1 <= i <= |s| && 1 <= k <= |t|
    ensures StepAt(s, t, d, i, k).Ok?
    ensures var diag, left, up := d[i - 1][k - 1], d[i][k - 1], d[i - 1][k];
            var step := StepAt(s, t, d, i, k).value;
            && (step == Step(Sub(s[i - 1], t[k - 1]), i - 1, k - 1) <==> diag <= left && diag <= up)
            && (step == Step(Ins(t[k - 1]), i, k - 1) <==> left < diag && left <= up)
            && (step == Step(Del(s[i - 1]), i - 1, k) <==> up < diag && up < left)
  {
    var values := [d[i - 1][k - 1], d[i][k - 1], d[i - 1][k]];
    assert Index2(d, i - 1, k - 1) == Some(values[0]);
    assert Index2(d, i, k - 1) == Some(values[1]);
    assert Index2(d, i - 1, k) == Some(values[2]);
    var m := FirstMin(values);
    assert m == Diagonal <==> values[0] <= values[1] && values[0] <= values[2];
    assert m == Left <==> values[1] < values[0] && values[1] <= values[2];
  }

  /** On a distance matrix, an inner step always moves to a neighbour from
      which the current cell is reached at the price of the emitted
      operation: nothing for a match, one for any other operation. */
  lemma InteriorStepOptimal(s: string, t: string, d: seq<seq<int>>, i: int, k: int)
    requires IsDistanceMatrix(s, t, d)
    requires 1 <= i <= |s| && 1 <= k <= |t|
    ensures StepAt(s, t, d, i, k).Ok?
    ensures var step := StepAt(s, t, d, i, k).value;
            && 0 <= step.i && 0 <= step.k
            && d[i][k] == d[step.i][step.k] + (if IsMatch(step.op) then 0 else 1)
  {
    InteriorStep(s, t, d, i, k);
    assert InnerCell(s, t, d, i, k);
  }

  /** A walk whose first step succeeds and whose remainder succeeds
      succeeds, with the first step's operation last. */
  lemma WalkSucceeds(s: string, t: string, d: seq<seq<int>>, i: int, k: int, step: Step, earlier: seq<Op>)
    requires IsGrid(d, |s| + 1, |t| + 1)
    requires -|s| - 1 <= i && -|t| - 1 <= k
    requires !(i <= 0 && k <= 0)
    requires StepAt(s, t, d, i, k) == Ok(step)
    requires Walk(s, t, d, step.i, step.k) == Ok(earlier)
    ensures Walk(s, t, d, i, k) == Ok(earlier + [step.op])
  {
  }

  /** On equal strings, the diagonal neighbour of a diagonal cell is the
      only zero among the three neighbours. */
  lemma DiagonalOfEqual(s: string, d: seq<seq<int>>, i: nat)
    requires IsDistanceMatrix(s, s, d)
    requires 1 <= i <= |s|
    ensures d[i - 1][i - 1] == 0 && d[i][i - 1] >= 1 && d[i - 1][i] >= 1
  {
    CellIsLev(s, s, d, i - 1, i - 1);
    LevZeroIff(s, s, i - 1, i - 1);
    CellBounds(s, s, d, i, i - 1);
    CellBounds(s, s, d, i - 1, i);
  }

  /** On equal strings every step is a match on the diagonal. */
  lemma {:induction false} IdenticalWalk(s: string, d: seq<seq<int>>, i: nat)
    requires IsDistanceMatrix(s, s, d)
    requires i <= |s|
    ensures Walk(s, s, d, i, i) == Ok(Matches(s[..i]))
    decreases i
  {
    if i > 0 {
      var op := Sub(s[i - 1], s[i - 1]);
      DiagonalOfEqual(s, d, i);
      InteriorStep(s, s, d, i, i);
      IdenticalWalk(s, d, i - 1);
      WalkSucceeds(s, s, d, i, i, Step(op, i - 1, i - 1), Matches(s[..i - 1]));
      MatchesSnoc(s, i);
    }
  }

  /** The backtrace of a string against itself lists `c:c` for every
      character `c`, in order. */
  lemma IdenticalTrace(s: string, d: seq<seq<int>>)
    requires IsDistanceMatrix(s, s, d)
    ensures Trace(s, s, d) == Ok(Matches(s))
    ensures RenderResult(Trace(s, s, d)) == Ok(seq(|s|, j requires 0 <= j < |s| => [s[j]] + ":" + [s[j]]))
  {
    IdenticalWalk(s, d, |s|);
    assert s[..|s|] == s;
    assert RenderAll(Matches(s)) == seq(|s|, j requires 0 <= j < |s| => [s[j]] + ":" + [s[j]]);
  }
}
