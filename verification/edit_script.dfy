/**
  Edit operations and edit scripts. A backtrace produces one operation per
  step and renders it as text: `"a:b"` for a substitution (or a match, when
  the two characters are equal), `":b"` for an insertion and `"a:"` for a
  deletion. A script read left to right consumes the source from its first
  character and produces the target from its first character.
 */
module EditScript {
  import opened Python

  datatype Op =
    | Sub(a: char, b: char)   // substitution, or no edit when a == b
    | Ins(b: char)            // insert b into the target
    | Del(a: char)            // delete a from the source

  /** A substitution of a character by itself: no edit at all. */
  predicate IsMatch(op: Op) {
    op.Sub? && op.a == op.b
  }

  /** The text form of an operation: what it consumes from the source, a
      colon, and what it produces in the target. */
  function Render(op: Op): (text: string)
    ensures text == SourcePart(op) + ":" + TargetPart(op)
  {
    match op
    case Sub(a, b) => [a] + ":" + [b]
    case Ins(b) => ":" + [b]
    case Del(a) => [a] + ":"
  }

  /** Reads back the text form of an operation. A two-character text with a
      colon in front reads as an insertion. */
  function Parse(text: string): Option<Op> {
    if |text| == 3 && text[1] == ':' then Some(Sub(text[0], text[2]))
    else if |text| == 2 && text[0] == ':' then Some(Ins(text[1]))
    else if |text| == 2 && text[1] == ':' then Some(Del(text[0]))
    else None
  }

  /** The rendering can be read back exactly for every operation except the
      deletion of a colon, whose text `"::"` is also that of inserting one. */
  lemma RenderRoundTrip(op: Op)
    ensures Parse(Render(op)) == Some(op) <==> op != Del(':')
    ensures Render(Del(':')) == Render(Ins(':'))
  {
  }

  /** Every text that reads as an operation is that operation's rendering. */
  lemma ParseRoundTrip(text: string, op: Op)
    requires Parse(text) == Some(op)
    ensures Render(op) == text
  {
  }

  /** The renderings of a whole script, in the same order. */
  function RenderAll(ops: seq<Op>): (r: seq<string>)
    ensures |r| == |ops|
    ensures forall j :: 0 <= j < |ops| ==> r[j] == Render(ops[j])
  {
    seq(|ops|, j requires 0 <= j < |ops| => Render(ops[j]))
  }

  /** Rendering a script with one more operation in front. */
  lemma RenderAllCons(op: Op, ops: seq<Op>)
    ensures RenderAll([op] + ops) == [Render(op)] + RenderAll(ops)
  {
  }

  /** What an operation consumes from the source. */
  function SourcePart(op: Op): string {
    match op
    case Sub(a, _) => [a]
    case Ins(_) => []
    case Del(a) => [a]
  }

  /** What an operation produces in the target. */
  function TargetPart(op: Op): string {
    match op
    case Sub(_, b) => [b]
    case Ins(b) => [b]
    case Del(_) => []
  }

  /** The source characters a script consumes, in order. */
  function Sources(ops: seq<Op>): string {
    if |ops| == 0 then [] else Sources(ops[..|ops| - 1]) + SourcePart(ops[|ops| - 1])
  }

  /** The target characters a script produces, in order. */
  function Targets(ops: seq<Op>): string {
    if |ops| == 0 then [] else Targets(ops[..|ops| - 1]) + TargetPart(ops[|ops| - 1])
  }

  /** The number of operations in a script that are real edits (not matches). */
  function Cost(ops: seq<Op>): nat {
    if |ops| == 0 then 0 else Cost(ops[..|ops| - 1]) + (if IsMatch(ops[|ops| - 1]) then 0 else 1)
  }

  /** A script transforms `src` into `dst` when it consumes exactly `src`
      and produces exactly `dst`. */
  predicate Transforms(ops: seq<Op>, src: string, dst: string) {
    Sources(ops) == src && Targets(ops) == dst
  }

  /** The script that keeps every character of `s`. */
  function Matches(s: string): (ops: seq<Op>)
    ensures |ops| == |s|
    ensures forall j :: 0 <= j < |s| ==> ops[j] == Sub(s[j], s[j])
  {
    seq(|s|, j requires 0 <= j < |s| => Sub(s[j], s[j]))
  }

  /** The script that inserts every character of `s`. */
  function Insertions(s: string): (ops: seq<Op>)
    ensures |ops| == |s|
    ensures forall j :: 0 <= j < |s| ==> ops[j] == Ins(s[j])
  {
    seq(|s|, j requires 0 <= j < |s| => Ins(s[j]))
  }

  /** The script that deletes every character of `s`. */
  function Deletions(s: string): (ops: seq<Op>)
    ensures |ops| == |s|
    ensures forall j :: 0 <= j < |s| ==> ops[j] == Del(s[j])
  {
    seq(|s|, j requires 0 <= j < |s| => Del(s[j]))
  }

  /** Appending one operation appends what it consumes and produces. */
  lemma TransformsSnoc(ops: seq<Op>, op: Op, src: string, dst: string)
    requires Transforms(ops, src, dst)
    ensures Transforms(ops + [op], src + SourcePart(op), dst + TargetPart(op))
  {
  }

  /** Keeping one more character keeps one more match. */
  lemma MatchesSnoc(s: string, i: nat)
    requires 1 <= i <= |s|
    ensures Matches(s[..i]) == Matches(s[..i - 1]) + [Sub(s[i - 1], s[i - 1])]
  {
  }

  /** Inserting one more character. */
  lemma InsertionsSnoc(s: string, i: nat)
    requires 1 <= i <= |s|
    ensures Insertions(s[..i]) == Insertions(s[..i - 1]) + [Ins(s[i - 1])]
  {
  }

  /** Deleting one more character. */
  lemma DeletionsSnoc(s: string, i: nat)
    requires 1 <= i <= |s|
    ensures Deletions(s[..i]) == Deletions(s[..i - 1]) + [Del(s[i - 1])]
  {
  }

  /** Keeping every character transforms a string into itself at no cost. */
  lemma {:induction false} MatchesTransform(s: string)
    ensures Transforms(Matches(s), s, s)
    ensures Cost(Matches(s)) == 0
    decreases |s|
  {
    if |s| > 0 {
      var init := s[..|s| - 1];
      MatchesTransform(init);
      var ops := Matches(s);
      assert ops[..|ops| - 1] == Matches(init);
      assert s == init + [s[|s| - 1]];
    }
  }
}
