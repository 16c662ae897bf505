/**
  What `trace_operations` does on particular inputs, on the matrix
  `levenshtein` builds: the boundary cases in which the loop reads a
  wrapped-around subscript (and raises IndexError, or returns a wrong script),
  and a few worked examples.
 */
module Scenarios {
  import opened Python
  import opened EditScript
  import opened Matrix
  import opened Backtrace
  import opened FixedTrace

  /** With an empty source and a non-empty target the first iteration reads
      `s[-1]` and raises, instead of returning one insertion per target
      character. */
  lemma EmptySourceRaises(t: string, d: seq<seq<int>>)
    requires IsDistanceMatrix("", t, d)
    requires |t| >= 1
    ensures Trace("", t, d) == IndexError
  {
  }

  /** With a non-empty source and an empty target the first iteration reads
      `t[-1]` and raises, instead of returning one deletion per source
      character. */
  lemma EmptyTargetRaises(s: string, d: seq<seq<int>>)
    requires IsDistanceMatrix(s, "", d)
    requires |s| >= 1
    ensures Trace(s, "", d) == IndexError
  {
  }

  /** One differing character: distance one, one substitution. */
  lemma OneSubstitution(d: seq<seq<int>>)
    requires IsDistanceMatrix("a", "b", d)
    ensures d[1][1] == 1
    ensures RenderResult(Trace("a", "b", d)) == Ok(["a:b"])
  {
    assert d[1][1] == 1 by {
      assert InnerCell("a", "b", d, 1, 1);
    }
    assert d[0][0] == 0 && d[1][0] == 1 && d[0][1] == 1;
    InteriorStep("a", "b", d, 1, 1);
    assert StepAt("a", "b", d, 1, 1) == Ok(Step(Sub('a', 'b'), 0, 0));
    assert Walk("a", "b", d, 0, 0) == Ok([]);
    WalkSucceeds("a", "b", d, 1, 1, Step(Sub('a', 'b'), 0, 0), []);
    assert [] + [Sub('a', 'b')] == [Sub('a', 'b')];
    assert Trace("a", "b", d) == Walk("a", "b", d, 1, 1);
    assert Render(Sub('a', 'b')) == "a:b";
    assert RenderAll([Sub('a', 'b')]) == ["a:b"];
  }

  /** Two swapped characters: distance two, and the backtrace substitutes
      both rather than deleting one and inserting it again. */
  lemma SwappedPair(d: seq<seq<int>>)
    requires IsDistanceMatrix("ab", "ba", d)
    ensures d[2][2] == 2
    ensures RenderResult(Trace("ab", "ba", d)) == Ok(["a:b", "b:a"])
  {
    var s, t := "ab", "ba";
    assert d[0][0] == 0 && d[1][0] == 1 && d[2][0] == 2 && d[0][1] == 1 && d[0][2] == 2;
    assert d[1][1] == 1 by { assert InnerCell(s, t, d, 1, 1); }
    assert d[1][2] == 1 by { assert InnerCell(s, t, d, 1, 2); }
    assert d[2][1] == 1 by { assert InnerCell(s, t, d, 2, 1); }
    assert d[2][2] == 2 by { assert InnerCell(s, t, d, 2, 2); }
    var first, second := Sub('a', 'b'), Sub('b', 'a');
    InteriorStep(s, t, d, 1, 1);
    assert StepAt(s, t, d, 1, 1) == Ok(Step(first, 0, 0));
    InteriorStep(s, t, d, 2, 2);
    assert StepAt(s, t, d, 2, 2) == Ok(Step(second, 1, 1));
    assert Walk(s, t, d, 0, 0) == Ok([]);
    WalkSucceeds(s, t, d, 1, 1, Step(first, 0, 0), []);
    assert [] + [first] == [first];
    WalkSucceeds(s, t, d, 2, 2, Step(second, 1, 1), [first]);
    assert [first] + [second] == [first, second];
    assert Trace(s, t, d) == Walk(s, t, d, 2, 2);
    assert Render(first) == "a:b" && Render(second) == "b:a";
    assert RenderAll([first, second]) == ["a:b", "b:a"];
  }

  /** The upper half of the matrix for "kitten" and "sitting". */
  lemma KittenUpperRows(d: seq<seq<int>>)
    requires IsDistanceMatrix("kitten", "sitting", d)
    ensures d[3][0] == 3 && d[3][1] == 3 && d[3][2] == 2 && d[3][3] == 1 && d[3][4] == 2 && d[3][5] == 3 && d[3][6] == 4 && d[3][7] == 5
  {
    var s, t := "kitten", "sitting";
    assert d[1][0] == 1 && d[2][0] == 2 && d[3][0] == 3;
    assert forall k :: 0 <= k <= 7 ==> d[0][k] == k;
    assert d[1][1] == 1 by { assert InnerCell(s, t, d, 1, 1); }
    assert d[1][2] == 2 by { assert InnerCell(s, t, d, 1, 2); }
    assert d[1][3] == 3 by { assert InnerCell(s, t, d, 1, 3); }
    assert d[1][4] == 4 by { assert InnerCell(s, t, d, 1, 4); }
    assert d[1][5] == 5 by { assert InnerCell(s, t, d, 1, 5); }
    assert d[1][6] == 6 by { assert InnerCell(s, t, d, 1, 6); }
    assert d[1][7] == 7 by { assert InnerCell(s, t, d, 1, 7); }
    assert d[2][1] == 2 by { assert InnerCell(s, t, d, 2, 1); }
    assert d[2][2] == 1 by { assert InnerCell(s, t, d, 2, 2); }
    assert d[2][3] == 2 by { assert InnerCell(s, t, d, 2, 3); }
    assert d[2][4] == 3 by { assert InnerCell(s, t, d, 2, 4); }
    assert d[2][5] == 4 by { assert InnerCell(s, t, d, 2, 5); }
    assert d[2][6] == 5 by { assert InnerCell(s, t, d, 2, 6); }
    assert d[2][7] == 6 by { assert InnerCell(s, t, d, 2, 7); }
    assert d[3][1] == 3 by { assert InnerCell(s, t, d, 3, 1); }
    assert d[3][2] == 2 by { assert InnerCell(s, t, d, 3, 2); }
    assert d[3][3] == 1 by { assert InnerCell(s, t, d, 3, 3); }
    assert d[3][4] == 2 by { assert InnerCell(s, t, d, 3, 4); }
    assert d[3][5] == 3 by { assert InnerCell(s, t, d, 3, 5); }
    assert d[3][6] == 4 by { assert InnerCell(s, t, d, 3, 6); }
    assert d[3][7] == 5 by { assert InnerCell(s, t, d, 3, 7); }
  }

  /** The classic example: turning "kitten" into "sitting" takes three
      edits. */
  lemma KittenSitting(d: seq<seq<int>>)
    requires IsDistanceMatrix("kitten", "sitting", d)
    ensures d[6][7] == 3
  {
    var s, t := "kitten", "sitting";
    KittenUpperRows(d);
    assert d[4][0] == 4 && d[5][0] == 5 && d[6][0] == 6;
    assert d[4][1] == 4 by { assert InnerCell(s, t, d, 4, 1); }
    assert d[4][2] == 3 by { assert InnerCell(s, t, d, 4, 2); }
    assert d[4][3] == 2 by { assert InnerCell(s, t, d, 4, 3); }
    assert d[4][4] == 1 by { assert InnerCell(s, t, d, 4, 4); }
    assert d[4][5] == 2 by { assert InnerCell(s, t, d, 4, 5); }
    assert d[4][6] == 3 by { assert InnerCell(s, t, d, 4, 6); }
    assert d[4][7] == 4 by { assert InnerCell(s, t, d, 4, 7); }
    assert d[5][1] == 5 by { assert InnerCell(s, t, d, 5, 1); }
    assert d[5][2] == 4 by { assert InnerCell(s, t, d, 5, 2); }
    assert d[5][3] == 3 by { assert InnerCell(s, t, d, 5, 3); }
    assert d[5][4] == 2 by { assert InnerCell(s, t, d, 5, 4); }
    assert d[5][5] == 2 by { assert InnerCell(s, t, d, 5, 5); }
    assert d[5][6] == 3 by { assert InnerCell(s, t, d, 5, 6); }
    assert d[5][7] == 4 by { assert InnerCell(s, t, d, 5, 7); }
    assert d[6][1] == 6 by { assert InnerCell(s, t, d, 6, 1); }
    assert d[6][2] == 5 by { assert InnerCell(s, t, d, 6, 2); }
    assert d[6][3] == 4 by { assert InnerCell(s, t, d, 6, 3); }
    assert d[6][4] == 3 by { assert InnerCell(s, t, d, 6, 4); }
    assert d[6][5] == 3 by { assert InnerCell(s, t, d, 6, 5); }
    assert d[6][6] == 2 by { assert InnerCell(s, t, d, 6, 6); }
    assert d[6][7] == 3 by { assert InnerCell(s, t, d, 6, 7); }
  }

  /** Turning "flaw" into "lawn" takes two edits. */
  lemma FlawLawn(d: seq<seq<int>>)
    requires IsDistanceMatrix("flaw", "lawn", d)
    ensures d[4][4] == 2
  {
    var s, t := "flaw", "lawn";
    assert d[1][0] == 1 && d[2][0] == 2 && d[3][0] == 3;
    assert d[0][1] == 1 && d[0][2] == 2 && d[0][3] == 3 && d[0][4] == 4;
    assert d[1][1] == 1 by { assert InnerCell(s, t, d, 1, 1); }
    assert d[1][2] == 2 by { assert InnerCell(s, t, d, 1, 2); }
    assert d[1][3] == 3 by { assert InnerCell(s, t, d, 1, 3); }
    assert d[1][4] == 4 by { assert InnerCell(s, t, d, 1, 4); }
    assert d[2][1] == 1 by { assert InnerCell(s, t, d, 2, 1); }
    assert d[2][2] == 2 by { assert InnerCell(s, t, d, 2, 2); }
    assert d[2][3] == 3 by { assert InnerCell(s, t, d, 2, 3); }
    assert d[2][4] == 4 by { assert InnerCell(s, t, d, 2, 4); }
    assert d[3][1] == 2 by { assert InnerCell(s, t, d, 3, 1); }
    assert d[3][2] == 1 by { assert InnerCell(s, t, d, 3, 2); }
    assert d[3][3] == 2 by { assert InnerCell(s, t, d, 3, 3); }
    assert d[3][4] == 3 by { assert InnerCell(s, t, d, 3, 4); }
    assert d[4][1] == 3 by { assert InnerCell(s, t, d, 4, 1); }
    assert d[4][2] == 2 by { assert InnerCell(s, t, d, 4, 2); }
    assert d[4][3] == 1 by { assert InnerCell(s, t, d, 4, 3); }
    assert d[4][4] == 2 by { assert InnerCell(s, t, d, 4, 4); }
  }

  /** The cells of the matrix for "ab" and "bxab" that the backtrace
      reads. */
  lemma WrappedCells(d: seq<seq<int>>)
    requires IsDistanceMatrix("ab", "bxab", d)
    ensures d[1][0] == 1 && d[2][0] == 2 && d[0][1] == 1 && d[0][2] == 2 && d[0][3] == 3
    ensures d[1][1] == 1 && d[1][2] == 2 && d[1][3] == 2 && d[1][4] == 3
    ensures d[2][1] == 1 && d[2][2] == 2 && d[2][3] == 3
  {
    var s, t := "ab", "bxab";
    assert d[1][0] == 1 && d[2][0] == 2 && d[0][1] == 1 && d[0][2] == 2 && d[0][3] == 3 && d[0][4] == 4;
    assert d[1][1] == 1 by { assert InnerCell(s, t, d, 1, 1); }
    assert d[1][2] == 2 by { assert InnerCell(s, t, d, 1, 2); }
    assert d[1][3] == 2 by { assert InnerCell(s, t, d, 1, 3); }
    assert d[1][4] == 3 by { assert InnerCell(s, t, d, 1, 4); }
    assert d[2][1] == 1 by { assert InnerCell(s, t, d, 2, 1); }
    assert d[2][2] == 2 by { assert InnerCell(s, t, d, 2, 2); }
    assert d[2][3] == 3 by { assert InnerCell(s, t, d, 2, 3); }
  }

  /** The four iterations of the loop for "ab" and "bxab": two matches on
      inner cells, then two substitutions read through the wrapped-around
      row `-1` and characters `s[-1]` and `s[-2]`. */
  lemma WrappedSteps(d: seq<seq<int>>)
    requires IsDistanceMatrix("ab", "bxab", d)
    ensures StepAt("ab", "bxab", d, 2, 4) == Ok(Step(Sub('b', 'b'), 1, 3))
    ensures StepAt("ab", "bxab", d, 1, 3) == Ok(Step(Sub('a', 'a'), 0, 2))
    ensures StepAt("ab", "bxab", d, 0, 2) == Ok(Step(Sub('b', 'x'), -1, 1))
    ensures StepAt("ab", "bxab", d, -1, 1) == Ok(Step(Sub('a', 'b'), -2, 0))
  {
    var s, t := "ab", "bxab";
    WrappedCells(d);
    InteriorStep(s, t, d, 2, 4);
    InteriorStep(s, t, d, 1, 3);
    assert StepAt(s, t, d, 0, 2) == Ok(Step(Sub('b', 'x'), -1, 1)) by {
      var values := [d[2][1], d[0][1], d[2][2]];
      assert Index2(d, -1, 1) == Some(values[0]);
      assert Index2(d, 0, 1) == Some(values[1]);
      assert Index2(d, -1, 2) == Some(values[2]);
      assert FirstMin(values) == Diagonal;
    }
    assert StepAt(s, t, d, -1, 1) == Ok(Step(Sub('a', 'b'), -2, 0)) by {
      var values := [d[1][0], d[2][0], d[1][1]];
      assert Index2(d, -2, 0) == Some(values[0]);
      assert Index2(d, -1, 0) == Some(values[1]);
      assert Index2(d, -2, 1) == Some(values[2]);
      assert FirstMin(values) == Diagonal;
    }
  }

  /** When the path reaches the first row early, the loop reads row `-1`
      (the last row) and `s[-1]` instead of inserting, and returns without an
      error a script that consumes the source twice over: for "ab" and
      "bxab" it returns `a:b b:x a:a b:b`, which does not turn "ab" into
      "bxab". */
  lemma WrappedScript(d: seq<seq<int>>)
    requires IsDistanceMatrix("ab", "bxab", d)
    ensures Trace("ab", "bxab", d) == Ok([Sub('a', 'b'), Sub('b', 'x'), Sub('a', 'a'), Sub('b', 'b')])
    ensures !Transforms(Trace("ab", "bxab", d).value, "ab", "bxab")
  {
    var s, t := "ab", "bxab";
    var op1, op2, op3, op4 := Sub('a', 'b'), Sub('b', 'x'), Sub('a', 'a'), Sub('b', 'b');
    WrappedSteps(d);
    assert Walk(s, t, d, -2, 0) == Ok([]);
    WalkSucceeds(s, t, d, -1, 1, Step(op1, -2, 0), []);
    assert [] + [op1] == [op1];
    WalkSucceeds(s, t, d, 0, 2, Step(op2, -1, 1), [op1]);
    assert [op1] + [op2] == [op1, op2];
    WalkSucceeds(s, t, d, 1, 3, Step(op3, 0, 2), [op1, op2]);
    assert [op1, op2] + [op3] == [op1, op2, op3];
    WalkSucceeds(s, t, d, 2, 4, Step(op4, 1, 3), [op1, op2, op3]);
    assert [op1, op2, op3] + [op4] == [op1, op2, op3, op4];
    assert Trace(s, t, d) == Walk(s, t, d, 2, 4);
    assert Sources([op1]) == "a" by {
      assert [op1][..0] == [];
    }
    assert Sources([op1, op2]) == "ab" by {
      assert [op1, op2][..1] == [op1];
    }
    assert Sources([op1, op2, op3]) == "aba" by {
      assert [op1, op2, op3][..2] == [op1, op2];
    }
    assert Sources([op1, op2, op3, op4]) == "abab" by {
      assert [op1, op2, op3, op4][..3] == [op1, op2, op3];
    }
  }

  /** On the same input the corrected backtrace inserts `b` and `x` on the
      first row and then matches `a` and `b`. */
  lemma WrappedScriptCorrected(d: seq<seq<int>>)
    requires IsDistanceMatrix("ab", "bxab", d)
    ensures TraceFixed("ab", "bxab", d, 2, 4) == [Ins('b'), Ins('x'), Sub('a', 'a'), Sub('b', 'b')]
    ensures RenderAll(TraceFixed("ab", "bxab", d, 2, 4)) == [":b", ":x", "a:a", "b:b"]
  {
    var s, t := "ab", "bxab";
    WrappedCells(d);
    assert FixedStep(s, t, d, 2, 4) == Step(Sub('b', 'b'), 1, 3) by {
      assert FirstMin([d[1][3], d[2][3], d[1][4]]) == Diagonal;
    }
    assert FixedStep(s, t, d, 1, 3) == Step(Sub('a', 'a'), 0, 2) by {
      assert FirstMin([d[0][2], d[1][2], d[0][3]]) == Diagonal;
    }
    assert TraceFixed(s, t, d, 0, 2) == [Ins('b'), Ins('x')];
    assert Render(Ins('b')) == ":b" && Render(Ins('x')) == ":x";
    assert Render(Sub('a', 'a')) == "a:a" && Render(Sub('b', 'b')) == "b:b";
  }

  /** The cells of the matrix for "bxab" and "ab" that the backtrace
      reads. */
  lemma WrappedColumnCells(d: seq<seq<int>>)
    requires IsDistanceMatrix("bxab", "ab", d)
    ensures d[1][0] == 1 && d[2][0] == 2 && d[3][0] == 3 && d[0][1] == 1 && d[0][2] == 2
    ensures d[1][1] == 1 && d[1][2] == 1 && d[2][1] == 2 && d[2][2] == 2
    ensures d[3][1] == 2 && d[3][2] == 3 && d[4][1] == 3
  {
    var s, t := "bxab", "ab";
    assert d[1][0] == 1 && d[2][0] == 2 && d[3][0] == 3 && d[4][0] == 4 && d[0][1] == 1 && d[0][2] == 2;
    assert d[1][1] == 1 by { assert InnerCell(s, t, d, 1, 1); }
    assert d[1][2] == 1 by { assert InnerCell(s, t, d, 1, 2); }
    assert d[2][1] == 2 by { assert InnerCell(s, t, d, 2, 1); }
    assert d[2][2] == 2 by { assert InnerCell(s, t, d, 2, 2); }
    assert d[3][1] == 2 by { assert InnerCell(s, t, d, 3, 1); }
    assert d[3][2] == 3 by { assert InnerCell(s, t, d, 3, 2); }
    assert d[4][1] == 3 by { assert InnerCell(s, t, d, 4, 1); }
  }

  /** The four iterations of the loop for "bxab" and "ab": two matches on
      inner cells, then two substitutions read through the wrapped-around
      column `-1` and characters `t[-1]` and `t[-2]`. */
  lemma WrappedColumnSteps(d: seq<seq<int>>)
    requires IsDistanceMatrix("bxab", "ab", d)
    ensures StepAt("bxab", "ab", d, 4, 2) == Ok(Step(Sub('b', 'b'), 3, 1))
    ensures StepAt("bxab", "ab", d, 3, 1) == Ok(Step(Sub('a', 'a'), 2, 0))
    ensures StepAt("bxab", "ab", d, 2, 0) == Ok(Step(Sub('x', 'b'), 1, -1))
    ensures StepAt("bxab", "ab", d, 1, -1) == Ok(Step(Sub('b', 'a'), 0, -2))
  {
    var s, t := "bxab", "ab";
    WrappedColumnCells(d);
    InteriorStep(s, t, d, 4, 2);
    InteriorStep(s, t, d, 3, 1);
    assert StepAt(s, t, d, 2, 0) == Ok(Step(Sub('x', 'b'), 1, -1)) by {
      var values := [d[1][2], d[2][2], d[1][0]];
      assert Index2(d, 1, -1) == Some(values[0]);
      assert Index2(d, 2, -1) == Some(values[1]);
      assert Index2(d, 1, 0) == Some(values[2]);
      assert FirstMin(values) == Diagonal;
    }
    assert StepAt(s, t, d, 1, -1) == Ok(Step(Sub('b', 'a'), 0, -2)) by {
      var values := [d[0][1], d[1][1], d[0][2]];
      assert Index2(d, 0, -2) == Some(values[0]);
      assert Index2(d, 1, -2) == Some(values[1]);
      assert Index2(d, 0, -1) == Some(values[2]);
      assert FirstMin(values) == Diagonal;
    }
  }

  /** When the path reaches the first column early, the loop reads column
      `-1` (the last column) and `t[-1]` instead of deleting, and returns
      without an error a script that produces the target twice over: for
      "bxab" and "ab" it returns `b:a x:b a:a b:b`, which does not turn
      "bxab" into "ab". */
  lemma WrappedColumnScript(d: seq<seq<int>>)
    requires IsDistanceMatrix("bxab", "ab", d)
    ensures Trace("bxab", "ab", d) == Ok([Sub('b', 'a'), Sub('x', 'b'), Sub('a', 'a'), Sub('b', 'b')])
    ensures !Transforms(Trace("bxab", "ab", d).value, "bxab", "ab")
  {
    var s, t := "bxab", "ab";
    var op1, op2, op3, op4 := Sub('b', 'a'), Sub('x', 'b'), Sub('a', 'a'), Sub('b', 'b');
    WrappedColumnSteps(d);
    assert Walk(s, t, d, 0, -2) == Ok([]);
    WalkSucceeds(s, t, d, 1, -1, Step(op1, 0, -2), []);
    assert [] + [op1] == [op1];
    WalkSucceeds(s, t, d, 2, 0, Step(op2, 1, -1), [op1]);
    assert [op1] + [op2] == [op1, op2];
    WalkSucceeds(s, t, d, 3, 1, Step(op3, 2, 0), [op1, op2]);
    assert [op1, op2] + [op3] == [op1, op2, op3];
    WalkSucceeds(s, t, d, 4, 2, Step(op4, 3, 1), [op1, op2, op3]);
    assert [op1, op2, op3] + [op4] == [op1, op2, op3, op4];
    assert Trace(s, t, d) == Walk(s, t, d, 4, 2);
    assert Targets([op1]) == "a" by {
      assert [op1][..0] == [];
    }
    assert Targets([op1, op2]) == "ab" by {
      assert [op1, op2][..1] == [op1];
    }
    assert Targets([op1, op2, op3]) == "aba" by {
      assert [op1, op2, op3][..2] == [op1, op2];
    }
    assert Targets([op1, op2, op3, op4]) == "abab" by {
      assert [op1, op2, op3, op4][..3] == [op1, op2, op3];
    }
  }

  /** On the same input the corrected backtrace deletes `b` and `x` on the
      first column and then matches `a` and `b`. */
  lemma WrappedColumnScriptCorrected(d: seq<seq<int>>)
    requires IsDistanceMatrix("bxab", "ab", d)
    ensures TraceFixed("bxab", "ab", d, 4, 2) == [Del('b'), Del('x'), Sub('a', 'a'), Sub('b', 'b')]
    ensures RenderAll(TraceFixed("bxab", "ab", d, 4, 2)) == ["b:", "x:", "a:a", "b:b"]
  {
    var s, t := "bxab", "ab";
    WrappedColumnCells(d);
    assert FixedStep(s, t, d, 4, 2) == Step(Sub('b', 'b'), 3, 1) by {
      assert FirstMin([d[3][1], d[4][1], d[3][2]]) == Diagonal;
    }
    assert FixedStep(s, t, d, 3, 1) == Step(Sub('a', 'a'), 2, 0) by {
      assert FirstMin([d[2][0], d[3][0], d[2][1]]) == Diagonal;
    }
    assert TraceFixed(s, t, d, 2, 0) == [Del('b'), Del('x')];
    assert Render(Del('b')) == "b:" && Render(Del('x')) == "x:";
    assert Render(Sub('a', 'a')) == "a:a" && Render(Sub('b', 'b')) == "b:b";
  }
}
