/** Index normalisation shared by every container: Ruby-style, inclusive,
    negative-aware indices turned into concrete zero-based positions. */
module Indexing {

  datatype Option<+T> = None | Some(value: T)

  datatype Result<+T> = Ok(value: T) | Err(msg: string)

  /** Absolute value, as used by DropFirstN, ShiftN and FirstN. */
  function Abs(n: int): (r: nat)
    ensures r == n || r == -n
  {
    if n < 0 then -n else n
  }

  /** The negative of the absolute value, as used by DropLastN, PopN and LastN. */
  function AbsNeg(n: int): (r: int)
    ensures r <= 0 && (r == n || r == -n)
  {
    if n < 0 then n else -n
  }

  /** "Convert to positive notation": a negative index counts from the end. */
  function Shift(len: nat, i: int): (r: int)
    ensures i < 0 ==> r == len + i
    ensures i >= 0 ==> r == i
  {
    if i < 0 then len + i else i
  }

  /** Point lookup: the position addressed by `i`, or -1 when `i` lies
      outside [-len, len). Never clamps. */
  function AbsIndex(len: nat, i: int): (r: int)
    ensures r == -1 || 0 <= r < len
    ensures r != -1 <==> -(len as int) <= i < len
    ensures 0 <= i < len ==> r == i
    ensures -(len as int) <= i < 0 ==> r == len + i
  {
    var k := Shift(len, i);
    if 0 <= k < len then k else -1
  }

  function Max(a: int, b: int): int { if a < b then b else a }
  function Min(a: int, b: int): int { if a < b then a else b }

  /** What an inclusive index pair selects. */
  datatype Bounds =
    | Range(lo: nat, hi: nat)  // the half-open window [lo, hi)
    | Exclusive                // start lies after end once shifted: nothing to get
    | Invalid                  // the final Go slice expression s[lo:hi] would panic

  /** The inclusive-range arithmetic written out in NSlice.Slice and NSlice.Copy:
      shift negatives by `len`, give up when start exceeds end, clamp start up to 0
      and end down to len-1, then make the end exclusive. The start is never
      clamped from above and the end never from below, so a window that ends up
      reversed is an invalid slice expression. */
  function Window(len: nat, i: int, j: int): (b: Bounds)
    ensures b.Exclusive? <==> Shift(len, i) > Shift(len, j)
    ensures b.Invalid? <==>
      Shift(len, i) <= Shift(len, j) && (Shift(len, i) > len || Shift(len, j) < -1)
    ensures b.Range? ==> b.lo <= b.hi <= len
    ensures b.Range? ==> b.lo == Max(0, Shift(len, i)) && b.hi == Min(len, Shift(len, j) + 1)
  {
    var i1 := Shift(len, i);
    var j1 := Shift(len, j);
    if i1 > j1 then Exclusive
    else
      var i2 := if i1 < 0 then 0 else i1;
      var j2 := if j1 >= len then len - 1 else j1;
      if i2 <= j2 + 1 then Range(i2, j2 + 1) else Invalid
  }

  /** absIndices: no index selects everything, two indices select their
      inclusive window; any other count, a start after the end, or a window
      that would not be a valid slice expression is an error. */
  function AbsIndices(len: nat, indices: seq<int>): (r: Result<(nat, nat)>)
    ensures r.Ok? ==> r.value.0 <= r.value.1 <= len
    ensures |indices| == 0 ==> r == Ok((0, len))
    ensures |indices| != 0 && |indices| != 2 ==> r.Err?
    ensures |indices| == 2 ==> (r.Ok? <==> Window(len, indices[0], indices[1]).Range?)
    ensures |indices| == 2 && r.Ok? ==>
      r.value == (Window(len, indices[0], indices[1]).lo, Window(len, indices[0], indices[1]).hi)
  {
    if |indices| == 0 then Ok((0, len))
    else if |indices| != 2 then Err("invalid number of indices")
    else
      match Window(len, indices[0], indices[1])
      case Range(lo, hi) => Ok((lo, hi))
      case Exclusive => Err("mutually exclusive indices")
      case Invalid => Err("indices out of bounds")
  }

  /** Slice(0, -1) selects the whole of a non-empty collection. */
  lemma WholeWindow(len: nat)
    requires len > 0
    ensures Window(len, 0, -1) == Range(0, len)
  {
  }

  /** The two-index window of the single index `i` is the one position `i` addresses. */
  lemma {:induction false} PointWindow(len: nat, i: int)
    requires AbsIndex(len, i) != -1
    ensures Window(len, i, i) == Range(AbsIndex(len, i), AbsIndex(len, i) + 1)
  {
  }

  /** An index that addresses no element selects nothing as a one-element
      window: either the window is not a valid range or it is empty. */
  lemma OutsidePointWindow(len: nat, i: int)
    requires AbsIndex(len, i) == -1
    ensures Window(len, i, i).Range? ==> Window(len, i, i).lo == Window(len, i, i).hi
  {
  }

  /** The window [0, n-1] of the first n positions holds min(n, len) of them. */
  lemma FirstNWindow(len: nat, n: nat)
    requires n > 0
    ensures Window(len, 0, n - 1) == Range(0, Min(n, len))
  {
  }

  /** The window [-n, -1] of the last n positions holds min(n, len) of them. */
  lemma LastNWindow(len: nat, n: nat)
    requires n > 0
    ensures Window(len, -(n as int), -1) == Range(len - Min(n, len), len)
  {
  }
}
