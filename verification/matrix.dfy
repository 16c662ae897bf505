/**
  The dynamic-programming matrix of prefix distances. Cell `d[i][k]` holds
  the distance between the first `i` characters of the source and the first
  `k` characters of the target; the bottom-right cell is the distance between
  the whole strings.
 */
module Matrix {
  import opened EditDistance

  /** A list of `rows` lists, each of length `cols`. */
  predicate IsGrid(d: seq<seq<int>>, rows: nat, cols: nat) {
    |d| == rows && forall r :: 0 <= r < |d| ==> |d[r]| == cols
  }

  /** The shape of a Levenshtein matrix for source `s` and target `t`, with
      its indices on the first column and the first row. */
  predicate Bordered(s: string, t: string, d: seq<seq<int>>) {
    && IsGrid(d, |s| + 1, |t| + 1)
    && (forall i :: 0 <= i <= |s| ==> d[i][0] == i)
    && (forall k :: 0 <= k <= |t| ==> d[0][k] == k)
  }

  /** The shape, the boundary row and column, and the recurrence of a
      Levenshtein matrix for source `s` and target `t`. */
  predicate IsDistanceMatrix(s: string, t: string, d: seq<seq<int>>) {
    && Bordered(s, t, d)
    && (forall i, k :: 1 <= i <= |s| && 1 <= k <= |t| ==> InnerCell(s, t, d, i, k))
  }

  /** An inner cell is the cheapest of its diagonal, upper and left
      neighbours plus the price of the step from there. */
  predicate InnerCell(s: string, t: string, d: seq<seq<int>>, i: nat, k: nat)
    requires IsGrid(d, |s| + 1, |t| + 1)
    requires 1 <= i <= |s| && 1 <= k <= |t|
  {
    d[i][k] == Min3(d[i - 1][k - 1] + SubstCost(s[i - 1], t[k - 1]),
                    d[i - 1][k] + 1,
                    d[i][k - 1] + 1)
  }

  /** The boundary and the recurrence pin every cell down: each one is the
      distance between the corresponding prefixes. */
  lemma {:induction false} DistanceMatrixIsLev(s: string, t: string, d: seq<seq<int>>)
    requires IsDistanceMatrix(s, t, d)
    ensures forall i, k :: 0 <= i <= |s| && 0 <= k <= |t| ==> d[i][k] == Lev(s, t, i, k)
  {
    forall i, k | 0 <= i <= |s| && 0 <= k <= |t|
      ensures d[i][k] == Lev(s, t, i, k)
    {
      CellIsLev(s, t, d, i, k);
    }
  }

  lemma {:induction false} CellIsLev(s: string, t: string, d: seq<seq<int>>, i: nat, k: nat)
    requires IsDistanceMatrix(s, t, d)
    requires i <= |s| && k <= |t|
    ensures d[i][k] == Lev(s, t, i, k)
    decreases i + k
  {
    if i > 0 && k > 0 {
      assert InnerCell(s, t, d, i, k);
      CellIsLev(s, t, d, i - 1, k - 1);
      CellIsLev(s, t, d, i - 1, k);
      CellIsLev(s, t, d, i, k - 1);
    }
  }

  /** Every inner cell before `(i, k)` in row-major order holds the distance
      between its prefixes. */
  predicate FilledBefore(s: string, t: string, d: seq<seq<int>>, i: nat, k: nat)
    requires IsGrid(d, |s| + 1, |t| + 1)
  {
    forall r, c {:trigger d[r][c]} :: 1 <= r <= |s| && 1 <= c <= |t| && (r < i || (r == i && c < k)) ==>
      d[r][c] == Lev(s, t, r, c)
  }

  /** The value the inner loop body of `levenshtein(s, t)` stores in cell
      `(i, k)` is the distance between the prefixes. */
  lemma FillValue(s: string, t: string, d: seq<seq<int>>, i: nat, k: nat)
    requires Bordered(s, t, d)
    requires 1 <= i <= |s| && 1 <= k <= |t|
    requires FilledBefore(s, t, d, i, k)
    ensures Min3(d[i - 1][k - 1] + SubstCost(s[i - 1], t[k - 1]), d[i - 1][k] + 1, d[i][k - 1] + 1)
            == Lev(s, t, i, k)
  {
  }

  /** Storing the prefix distance in cell `(i, k)` keeps the boundary and
      extends the filled region by that cell. */
  lemma FillFrame(s: string, t: string, d: seq<seq<int>>, i: nat, k: nat, v: int)
    requires Bordered(s, t, d)
    requires 1 <= i <= |s| && 1 <= k <= |t|
    requires FilledBefore(s, t, d, i, k)
    requires v == Lev(s, t, i, k)
    ensures Bordered(s, t, d[i := d[i][k := v]])
    ensures FilledBefore(s, t, d[i := d[i][k := v]], i, k + 1)
  {
  }

  /** Builds the matrix as `levenshtein(s, t)` does: a zero matrix, then the
      first column, then the first row, then every inner cell row by row. */
  method Levenshtein(s: string, t: string) returns (d: seq<seq<int>>)
    ensures IsDistanceMatrix(s, t, d)
  {
    var rows := |s| + 1;
    var cols := |t| + 1;
    d := seq(rows, _ => seq(cols, _ => 0));
    var i := 1;
    while i < rows
      invariant 1 <= i <= rows
      invariant IsGrid(d, rows, cols)
      invariant forall r :: 0 <= r < i ==> d[r][0] == r
      invariant forall c :: 0 <= c < cols ==> d[0][c] == 0
    {
      d := d[i := d[i][0 := i]];
      i := i + 1;
    }
    var k := 1;
    while k < cols
      invariant 1 <= k <= cols
      invariant IsGrid(d, rows, cols)
      invariant forall r :: 0 <= r < rows ==> d[r][0] == r
      invariant forall c :: 0 <= c < k ==> d[0][c] == c
    {
      d := d[0 := d[0][k := k]];
      k := k + 1;
    }
    i := 1;
    while i < rows
      invariant 1 <= i <= rows
      invariant Bordered(s, t, d)
      invariant FilledBefore(s, t, d, i, 1)
    {
      k := 1;
      while k < cols
        invariant 1 <= k <= cols
        invariant Bordered(s, t, d)
        invariant FilledBefore(s, t, d, i, k)
      {
        var cost := if s[i - 1] == t[k - 1] then 0 else 1;
        var v := Min3(d[i - 1][k - 1] + cost, d[i - 1][k] + 1, d[i][k - 1] + 1);
        FillValue(s, t, d, i, k);
        FillFrame(s, t, d, i, k, v);
        d := d[i := d[i][k := v]];
        k := k + 1;
      }
      i := i + 1;
    }
    assert FilledBefore(s, t, d, rows, 1);
    LevCellsMakeDistanceMatrix(s, t, d);
  }

  /** A grid whose every cell is the prefix distance is a distance matrix. */
  lemma LevCellsMakeDistanceMatrix(s: string, t: string, d: seq<seq<int>>)
    requires IsGrid(d, |s| + 1, |t| + 1)
    requires forall i, k :: 0 <= i <= |s| && 0 <= k <= |t| ==> d[i][k] == Lev(s, t, i, k)
    ensures IsDistanceMatrix(s, t, d)
  {
  }

  /** The matrix for the swapped strings is the transpose, so in particular
      the distance does not depend on the order of the strings. */
  lemma Transposed(s: string, t: string, d: seq<seq<int>>, e: seq<seq<int>>)
    requires IsDistanceMatrix(s, t, d) && IsDistanceMatrix(t, s, e)
    ensures forall i, k :: 0 <= i <= |s| && 0 <= k <= |t| ==> d[i][k] == e[k][i]
    ensures d[|s|][|t|] == e[|t|][|s|]
  {
    DistanceMatrixIsLev(s, t, d);
    DistanceMatrixIsLev(t, s, e);
    forall i, k | 0 <= i <= |s| && 0 <= k <= |t|
      ensures d[i][k] == e[k][i]
    {
      LevSymmetric(s, t, i, k);
    }
  }

  /** Every cell lies between the difference of the prefix lengths and the
      longer prefix length; in particular no cell is negative. */
  lemma CellBounds(s: string, t: string, d: seq<seq<int>>, i: nat, k: nat)
    requires IsDistanceMatrix(s, t, d)
    requires i <= |s| && k <= |t|
    ensures 0 <= d[i][k]
    ensures i - k <= d[i][k] && k - i <= d[i][k] && d[i][k] <= Max(i, k)
  {
    CellIsLev(s, t, d, i, k);
    LevAtLeastGap(s, t, i, k);
    LevAtMostLonger(s, t, i, k);
  }

  /** The bottom-right cell is zero exactly when the strings are equal. */
  lemma DistanceZeroIff(s: string, t: string, d: seq<seq<int>>)
    requires IsDistanceMatrix(s, t, d)
    ensures d[|s|][|t|] == 0 <==> s == t
  {
    DistanceMatrixIsLev(s, t, d);
    LevZeroIff(s, t, |s|, |t|);
    assert s[..|s|] == s && t[..|t|] == t;
  }
}
