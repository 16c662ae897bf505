/**
  The Levenshtein distance between prefixes, defined by the usual recursion:
  the distance from an empty prefix is the length of the other one, and
  otherwise it is the cheapest of substituting (free when the last characters
  agree), deleting the last source character, or inserting the last target
  character.
 */
module EditDistance {
  import opened EditScript

  /** The smallest of three integers, as Python's `min(x, y, z)`. */
  function Min3(x: int, y: int, z: int): (m: int)
    ensures m <= x && m <= y && m <= z
    ensures m == x || m == y || m == z
  {
    if x <= y && x <= z then x else if y <= z then y else z
  }

  /** The price of putting `b` where `a` was: nothing when they are equal. */
  function SubstCost(a: char, b: char): nat {
    if a == b then 0 else 1
  }

  /** The edit distance between the first `i` characters of `s` and the
      first `k` characters of `t`. */
  function Lev(s: string, t: string, i: nat, k: nat): nat
    requires i <= |s| && k <= |t|
    decreases i + k
  {
    if i == 0 then k
    else if k == 0 then i
    else Min3(Lev(s, t, i - 1, k - 1) + SubstCost(s[i - 1], t[k - 1]),
              Lev(s, t, i - 1, k) + 1,
              Lev(s, t, i, k - 1) + 1)
  }

  function Max(x: int, y: int): int {
    if x <= y then y else x
  }

  /** The distance is at least the difference of the lengths. */
  lemma {:induction false} LevAtLeastGap(s: string, t: string, i: nat, k: nat)
    requires i <= |s| && k <= |t|
    ensures i - k <= Lev(s, t, i, k) && k - i <= Lev(s, t, i, k)
    decreases i + k
  {
    if i > 0 && k > 0 {
      LevAtLeastGap(s, t, i - 1, k - 1);
      LevAtLeastGap(s, t, i - 1, k);
      LevAtLeastGap(s, t, i, k - 1);
    }
  }

  /** The distance is at most the longer length. */
  lemma {:induction false} LevAtMostLonger(s: string, t: string, i: nat, k: nat)
    requires i <= |s| && k <= |t|
    ensures Lev(s, t, i, k) <= Max(i, k)
    decreases i + k
  {
    if i > 0 && k > 0 {
      LevAtMostLonger(s, t, i - 1, k - 1);
    }
  }

  /** The distance is zero exactly when the two prefixes are equal. */
  lemma {:induction false} LevZeroIff(s: string, t: string, i: nat, k: nat)
    requires i <= |s| && k <= |t|
    ensures Lev(s, t, i, k) == 0 <==> s[..i] == t[..k]
    decreases i + k
  {
    if i > 0 && k > 0 {
      LevZeroIff(s, t, i - 1, k - 1);
      assert s[..i] == s[..i - 1] + [s[i - 1]];
      assert t[..k] == t[..k - 1] + [t[k - 1]];
      if Lev(s, t, i, k) == 0 {
        assert Lev(s, t, i - 1, k - 1) == 0 && s[i - 1] == t[k - 1];
      }
      if s[..i] == t[..k] {
        assert s[i - 1] == s[..i][i - 1] == t[..k][k - 1] == t[k - 1];
        assert s[..i - 1] == s[..i][..i - 1] == t[..k][..k - 1] == t[..k - 1];
      }
    }
  }

  /** Swapping the strings does not change the distance. */
  lemma {:induction false} LevSymmetric(s: string, t: string, i: nat, k: nat)
    requires i <= |s| && k <= |t|
    ensures Lev(s, t, i, k) == Lev(t, s, k, i)
    decreases i + k
  {
    if i > 0 && k > 0 {
      LevSymmetric(s, t, i - 1, k - 1);
      LevSymmetric(s, t, i - 1, k);
      LevSymmetric(s, t, i, k - 1);
    }
  }

  /** The last operation of a script for `s[..i]` and `t[..k]` consumes
      the last character of the source prefix and produces the last character
      of the target prefix (as far as it consumes or produces anything); the
      rest of the script is one for the prefixes without them. */
  lemma LastOp(s: string, t: string, i: nat, k: nat, ops: seq<Op>)
    requires i <= |s| && k <= |t|
    requires Transforms(ops, s[..i], t[..k]) && |ops| > 0
    ensures var last := ops[|ops| - 1];
            && |SourcePart(last)| <= i && |TargetPart(last)| <= k
            && (last.Sub? || last.Del? ==> last.a == s[i - 1])
            && (last.Sub? || last.Ins? ==> last.b == t[k - 1])
            && Transforms(ops[..|ops| - 1], s[..i - |SourcePart(last)|], t[..k - |TargetPart(last)|])
  {
  }

  /** The recurrence bounds the distance by that of the prefixes without
      what one operation consumes and produces, plus the operation's price. */
  lemma LevStep(s: string, t: string, i: nat, k: nat, op: Op)
    requires i <= |s| && k <= |t|
    requires |SourcePart(op)| <= i && |TargetPart(op)| <= k
    requires op.Sub? || op.Del? ==> op.a == s[i - 1]
    requires op.Sub? || op.Ins? ==> op.b == t[k - 1]
    ensures Lev(s, t, i, k) <= Lev(s, t, i - |SourcePart(op)|, k - |TargetPart(op)|) + (if IsMatch(op) then 0 else 1)
  {
  }

  /** No script that turns the first `i` characters of `s` into the first
      `k` characters of `t` costs less than their distance. */
  lemma {:induction false} LevLowerBound(s: string, t: string, i: nat, k: nat, ops: seq<Op>)
    requires i <= |s| && k <= |t|
    requires Transforms(ops, s[..i], t[..k])
    ensures Lev(s, t, i, k) <= Cost(ops)
    decreases |ops|
  {
    if |ops| > 0 {
      var rest, last := ops[..|ops| - 1], ops[|ops| - 1];
      LastOp(s, t, i, k, ops);
      LevStep(s, t, i, k, last);
      LevLowerBound(s, t, i - |SourcePart(last)|, k - |TargetPart(last)|, rest);
    }
  }
}
