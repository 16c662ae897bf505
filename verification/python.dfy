/**
  The few Python built-ins the backtrace relies on, with the semantics Python
  gives them: subscription of a list or string (negative indices count from the
  end, anything else out of range raises IndexError), `min` over a list of
  integers, and `list.index`, which finds the first occurrence of a value.
 */
module Python {

  datatype Option<+T> = None | Some(value: T)

  /** The position a subscript `j` denotes in a list of length `len`: a
      negative subscript counts back from the end. */
  function Position(j: int, len: nat): int {
    if j < 0 then len + j else j
  }

  /** `xs[j]` for a Python list or string. `None` stands for IndexError. */
  function Index<T>(xs: seq<T>, j: int): (r: Option<T>)
    ensures r.Some? <==> -|xs| <= j < |xs|
    ensures r.Some? ==> 0 <= Position(j, |xs|) < |xs| && r.value == xs[Position(j, |xs|)]
  {
    if 0 <= j < |xs| then Some(xs[j])
    else if -|xs| <= j < 0 then Some(xs[|xs| + j])
    else None
  }

  /** `d[i][k]` for a list of lists: both subscriptions must succeed. */
  function Index2<T>(d: seq<seq<T>>, i: int, k: int): (r: Option<T>)
    ensures r.Some? <==> -|d| <= i < |d| && -|d[Position(i, |d|)]| <= k < |d[Position(i, |d|)]|
    ensures r.Some? ==> r.value == d[Position(i, |d|)][Position(k, |d[Position(i, |d|)]|)]
  {
    match Index(d, i)
    case None => None
    case Some(row) => Index(row, k)
  }

  /** `min(xs)` for a non-empty list of integers. */
  function Min(xs: seq<int>): (m: int)
    requires |xs| > 0
    ensures m in xs
    ensures forall j :: 0 <= j < |xs| ==> m <= xs[j]
  {
    if |xs| == 1 then xs[0]
    else
      var rest := Min(xs[1..]);
      if xs[0] <= rest then xs[0] else rest
  }

  /** `xs.index(v)`: the position of the first occurrence of `v`; `None`
      stands for the ValueError Python raises when `v` does not occur. */
  function IndexOf<T(==)>(xs: seq<T>, v: T): (r: Option<nat>)
    ensures r.Some? <==> v in xs
    ensures r.Some? ==> r.value < |xs| && xs[r.value] == v
    ensures r.Some? ==> forall j :: 0 <= j < r.value ==> xs[j] != v
  {
    if |xs| == 0 then None
    else if xs[0] == v then Some(0)
    else
      match IndexOf(xs[1..], v)
      case None => None
      case Some(j) => Some(j + 1)
  }

  /** `xs.index(min(xs))`: the position of the first minimum. */
  function FirstMin(xs: seq<int>): (r: nat)
    requires |xs| > 0
    ensures r < |xs|
    ensures forall j :: 0 <= j < |xs| ==> xs[r] <= xs[j]
    ensures forall j :: 0 <= j < r ==> xs[r] < xs[j]
  {
    IndexOf(xs, Min(xs)).value
  }
}
