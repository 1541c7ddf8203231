/** IntSlice: an `[]int` mutated in place, with inclusive, negative-aware
    indexing. The Go pointer receiver becomes a class whose one field `s`
    is the current contents; every mutator reassigns it. */
module IntSlices {
  import opened Indexing
  import opened Seqs

  /** An `interface{}` argument: an int, or a value of any other dynamic type. */
  datatype Elem = Int(v: int) | Other

  /** A slice-typed `interface{}` argument: an IntSlice, *IntSlice, []int or
      *[]int holding `xs` (a nil IntSlice or []int holds none), a nil *IntSlice
      or *[]int, whose dereference panics, or anything else. */
  datatype IntsArg = Ints(xs: seq<int>) | NilPtr | NotInts

  /** The failures SetE reports. */
  datatype SetError = OutOfBounds | WrongType

  /** The elements an IntsArg contributes; a nil pointer or an unsupported type
      contributes none. */
  function ArgElems(slice: IntsArg): seq<int>
  {
    if slice.Ints? then slice.xs else []
  }

  /** Whether some int among `elems` occurs in `s`. */
  function ContainsAnyOf(s: seq<int>, elems: seq<Elem>): (r: bool)
    ensures r <==> exists k :: 0 <= k < |elems| && elems[k].Int? && elems[k].v in s
  {
    if elems == [] then false
    else if elems[0].Int? && elems[0].v in s then true
    else
      assert forall k :: 1 <= k < |elems| ==> elems[1..][k - 1] == elems[k];
      ContainsAnyOf(s, elems[1..])
  }

  /** Whether `s` and `xs` share an element. */
  function SharesAny(s: seq<int>, xs: seq<int>): (r: bool)
    ensures r <==> exists k :: 0 <= k < |xs| && xs[k] in s
  {
    if xs == [] then false
    else if xs[0] in s then true
    else
      assert forall k :: 1 <= k < |xs| ==> xs[1..][k - 1] == xs[k];
      SharesAny(s, xs[1..])
  }

  /** One iteration of UniqM's loop: with the first k elements de-duplicated,
      the next one is deleted exactly when it occurred before. */
  lemma DedupLoopStep(s0: seq<int>, k: nat, cur: seq<int>)
    requires k < |s0| && cur == Dedup(s0[..k]) + s0[k..]
    ensures |Dedup(s0[..k])| < |cur| && cur[|Dedup(s0[..k])|] == s0[k]
    ensures s0[k] in s0[..k] ==>
      cur[..|Dedup(s0[..k])|] + cur[|Dedup(s0[..k])| + 1..] == Dedup(s0[..k + 1]) + s0[k + 1..]
    ensures s0[k] !in s0[..k] ==> cur == Dedup(s0[..k + 1]) + s0[k + 1..]
  {
    var done, rest := Dedup(s0[..k]), s0[k..];
    DedupStep(s0, k);
    DropHead(done, rest);
    assert rest == [s0[k]] + s0[k + 1..];
    SeqAssoc(done, [s0[k]], s0[k + 1..]);
  }

  class IntSlice {
    var s: seq<int>

    /** NewIntSlice / NewIntSliceV. */
    constructor (elems: seq<int>)
      ensures s == elems
    {
      s := elems;
    }

    // -------------------------------------------------------------------------
    // Queries
    // -------------------------------------------------------------------------

    /** The element `i` addresses, counting from the end when `i` is negative. */
    function At(i: int): (r: Option<int>)
      reads this
      ensures 0 <= i < |s| ==> r == Some(s[i])
      ensures -|s| <= i < 0 ==> r == Some(s[|s| + i])
      ensures i < -|s| || |s| <= i ==> r == None
    {
      var k := AbsIndex(|s|, i);
      if k == -1 then None else Some(s[k])
    }

    /** Non-empty, and (when values are given) holding one of the given ints;
        a value of another type never matches. */
    function Any(elems: seq<Elem>): (r: bool)
      reads this
      ensures r <==> (|s| > 0 &&
        (elems == [] || exists k :: 0 <= k < |elems| && elems[k].Int? && elems[k].v in s))
    {
      if |s| == 0 then false
      else if |elems| == 0 then true
      else ContainsAnyOf(s, elems)
    }

    /** Non-empty and sharing an element with the given slice; an unsupported
        argument type shares nothing. A nil pointer argument panics unless the
        receiver is empty, which is answered before the argument is looked at. */
    function AnyS(slice: IntsArg): (r: Result<bool>)
      reads this
      ensures r.Err? <==> |s| > 0 && slice.NilPtr?
      ensures r.Ok? ==> (r.value <==> |s| > 0 && slice.Ints? && exists k :: 0 <= k < |slice.xs| && slice.xs[k] in s)
    {
      if |s| == 0 then Ok(false)
      else if slice.NilPtr? then Err("nil pointer dereference")
      else Ok(SharesAny(s, ArgElems(slice)))
    }

    /** The elements of the inclusive window the indices select, in fresh storage:
        everything for no indices, nothing for an empty slice or unusable indices. */
    function Copy(indices: seq<int>): (r: seq<int>)
      reads this
      ensures |s| == 0 || AbsIndices(|s|, indices).Err? ==> r == []
      ensures |s| > 0 && AbsIndices(|s|, indices).Ok? ==>
        |r| == AbsIndices(|s|, indices).value.1 - AbsIndices(|s|, indices).value.0 &&
        forall k :: 0 <= k < |r| ==> r[k] == s[AbsIndices(|s|, indices).value.0 + k]
    {
      if |s| == 0 then []
      else
        match AbsIndices(|s|, indices)
        case Err(_) => []
        case Ok((i, j)) => s[i..j]
    }

    /** Copy() copies everything. */
    lemma CopyAll()
      ensures Copy([]) == s
    {
    }

    /** Copy(i, j) of two addressable indices is elements i through j, both included. */
    lemma CopyInclusive(i: int, j: int)
      requires AbsIndex(|s|, i) != -1 && AbsIndex(|s|, j) != -1
      requires AbsIndex(|s|, i) <= AbsIndex(|s|, j)
      ensures Copy([i, j]) == s[AbsIndex(|s|, i)..AbsIndex(|s|, j) + 1]
    {
    }

    /** Indices past either end are moved within bounds: Copy(i, j) with i before
        the start and j past the end copies everything. */
    lemma CopyClamped(i: int, j: int)
      requires |s| > 0 && i < -|s| && j >= |s|
      ensures Copy([i, j]) == s
    {
    }

    /** The position of the first element equal to `elem`, or -1. */
    method Index(elem: Elem) returns (loc: int)
      ensures loc == -1 <==> !(elem.Int? && elem.v in s)
      ensures loc != -1 ==> 0 <= loc < |s| && s[loc] == elem.v && elem.v !in s[..loc]
    {
      loc := -1;
      if |s| == 0 {
        return;
      }
      var i := 0;
      while i < |s|
        invariant 0 <= i <= |s|
        invariant !(elem.Int? && elem.v in s[..i])
      {
        if elem == Int(s[i]) {
          return i;
        }
        assert s[..i + 1] == s[..i] + [s[i]];
        i := i + 1;
      }
      assert s[..i] == s;
    }

    /** The number of elements the selector accepts. */
    method CountW(sel: int -> bool) returns (cnt: nat)
      ensures cnt == |Select(s, sel, true)|
    {
      cnt := 0;
      if |s| == 0 {
        return;
      }
      var i := 0;
      while i < |s|
        invariant 0 <= i <= |s|
        invariant cnt == |Select(s[..i], sel, true)|
      {
        SelectSnoc(s[..i], s[i], sel, true);
        assert s[..i + 1] == s[..i] + [s[i]];
        if sel(s[i]) {
          cnt := cnt + 1;
        }
        i := i + 1;
      }
      assert s[..i] == s;
    }

    /** The number of elements equal to `elem`; zero for a non-int. */
    method Count(elem: Elem) returns (cnt: nat)
      ensures cnt == if elem.Int? then multiset(s)[elem.v] else 0
    {
      cnt := 0;
      if elem.Int? {
        var sel := x => x == elem.v;
        cnt := CountW(sel);
        SelectCount(s, sel, elem.v);
      }
    }

    /** Runs `action` on the elements in order and stops at the first error,
        which it returns. */
    method EachE<E>(action: int -> Option<E>) returns (err: Option<E>)
      ensures err.None? <==> forall k :: 0 <= k < |s| ==> action(s[k]).None?
      ensures err.Some? ==> exists k :: 0 <= k < |s| && action(s[k]) == err &&
                                        forall m :: 0 <= m < k ==> action(s[m]).None?
    {
      err := None;
      var i := 0;
      while i < |s|
        invariant 0 <= i <= |s|
        invariant forall m :: 0 <= m < i ==> action(s[m]).None?
        invariant err.None?
      {
        err := action(s[i]);
        if err.Some? {
          return;
        }
        i := i + 1;
      }
    }

    /** A reversed copy; the receiver is untouched. */
    function Reverse(): (r: seq<int>)
      reads this
      ensures |r| == |s| && forall k :: 0 <= k < |s| ==> r[k] == s[|s| - 1 - k]
    {
      ReversedIndex(s);
      if |s| < 2 then s else Reversed(s)
    }

    /** An ascending copy; the receiver is untouched. */
    function Sort(): (r: seq<int>)
      reads this
      ensures Ascending(r) && multiset(r) == multiset(s)
    {
      if |s| < 2 then s else SortAsc(s)
    }

    /** A descending copy; the receiver is untouched. */
    function SortReverse(): (r: seq<int>)
      reads this
      ensures Descending(r) && multiset(r) == multiset(s)
    {
      if |s| < 2 then s
      else
        ReversedAscending(SortAsc(s));
        ReversedMultiset(SortAsc(s));
        Reversed(SortAsc(s))
    }

    /** A copy of the receiver's distinct values followed by the argument's new
        ones, each kept at its first occurrence. */
    function Union(slice: IntsArg): (r: Result<seq<int>>)
      reads this
      ensures r.Err? <==> slice.NilPtr?
      ensures r.Ok? ==> r.value == Dedup(s + ArgElems(slice))
      ensures r.Ok? ==> forall x :: x in r.value <==> x in s || x in ArgElems(slice)
      ensures r.Ok? ==> NoDup(r.value) && Dedup(s) <= r.value
    {
      if slice.NilPtr? then Err("nil pointer dereference")
      else
        DedupAppendPrefix(s, ArgElems(slice));
        DedupSpec(s + ArgElems(slice));
        Ok(Dedup(s + ArgElems(slice)))
    }

    /** A new slice of the distinct values, each at its first occurrence, built by
        appending every value the seen-set reports as new. */
    method Uniq() returns (r: seq<int>)
      ensures r == Dedup(s)
    {
      if |s| < 2 {
        DedupOfNoDup(s);
        return s;
      }
      r := [];
      var seen: set<int> := {};
      var i := 0;
      while i < |s|
        invariant 0 <= i <= |s|
        invariant r == Dedup(s[..i])
        invariant forall x :: x in seen <==> x in s[..i]
      {
        DedupSnoc(s[..i], s[i]);
        assert s[..i + 1] == s[..i] + [s[i]];
        if s[i] !in seen {
          seen := seen + {s[i]};
          r := r + [s[i]];
        }
        i := i + 1;
      }
      assert s[..i] == s;
    }

    // -------------------------------------------------------------------------
    // Growing and overwriting
    // -------------------------------------------------------------------------

    /** Appends an int; any other value is ignored. */
    method Append(elem: Elem)
      modifies this
      ensures s == old(s) + (if elem.Int? then [elem.v] else [])
    {
      if elem.Int? {
        s := s + [elem.v];
      }
    }

    /** Appends the elements of a supported slice type; anything else is ignored,
        and a nil pointer panics with nothing appended. */
    method ConcatM(slice: IntsArg) returns (panicked: bool)
      modifies this
      ensures panicked <==> slice.NilPtr?
      ensures s == old(s) + ArgElems(slice)
    {
      match slice
      case Ints(xs) => s := s + xs; panicked := false;
      case NilPtr => panicked := true;
      case NotInts => panicked := false;
    }

    /** Inserts before the element a non-negative index addresses, or after the
        element a negative one addresses, so -1 appends. An index that addresses
        nothing, or a non-int, leaves the slice as it was; an empty slice appends. */
    method Insert(i: int, elem: Elem)
      modifies this
      ensures |old(s)| == 0 ==> s == old(s) + (if elem.Int? then [elem.v] else [])
      ensures |old(s)| > 0 && (AbsIndex(|old(s)|, i) == -1 || elem.Other?) ==> s == old(s)
      ensures elem.Int? && 0 <= i < |old(s)| ==> s == old(s)[..i] + [elem.v] + old(s)[i..]
      ensures elem.Int? && -|old(s)| <= i < 0 ==>
        s == old(s)[..|old(s)| + i + 1] + [elem.v] + old(s)[|old(s)| + i + 1..]
    {
      if |s| == 0 {
        Append(elem);
        return;
      }
      var j := AbsIndex(|s|, i);
      if j == -1 {
        return;
      }
      if i < 0 {
        j := j + 1;
      }
      if elem.Int? {
        var x := elem.v;
        if j == 0 {
          s := [x] + s;
        } else if j < |s| {
          s := s[..j] + [x] + s[j..];
        } else {
          s := s + [x];
        }
      }
    }

    /** Overwrites the element `i` addresses. An index that addresses nothing is
        reported before the type of the value is looked at. */
    method SetE(i: int, elem: Elem) returns (err: Option<SetError>)
      modifies this
      ensures AbsIndex(|old(s)|, i) == -1 ==> err == Some(OutOfBounds) && s == old(s)
      ensures AbsIndex(|old(s)|, i) != -1 && elem.Other? ==> err == Some(WrongType) && s == old(s)
      ensures AbsIndex(|old(s)|, i) != -1 && elem.Int? ==>
        err == None && s == old(s)[AbsIndex(|old(s)|, i) := elem.v]
    {
      var k := AbsIndex(|s|, i);
      if k == -1 {
        return Some(OutOfBounds);
      }
      if elem.Int? {
        s := s[k := elem.v];
        err := None;
      } else {
        err := Some(WrongType);
      }
    }

    /** SetE with the error discarded. */
    method Set(i: int, elem: Elem)
      modifies this
      ensures AbsIndex(|old(s)|, i) == -1 || elem.Other? ==> s == old(s)
      ensures AbsIndex(|old(s)|, i) != -1 && elem.Int? ==> s == old(s)[AbsIndex(|old(s)|, i) := elem.v]
    {
      var _ := SetE(i, elem);
    }

    /** Exchanges two elements; any index outside [0, len) makes it a no-op. */
    method Swap(i: int, j: int)
      modifies this
      ensures |old(s)| >= 2 && 0 <= i < |old(s)| && 0 <= j < |old(s)| ==>
        s == old(s)[i := old(s)[j]][j := old(s)[i]]
      ensures !(|old(s)| >= 2 && 0 <= i < |old(s)| && 0 <= j < |old(s)|) ==> s == old(s)
    {
      if |s| < 2 || i < 0 || j < 0 || i >= |s| || j >= |s| {
        return;
      }
      s := s[i := s[j]][j := s[i]];
    }

    // -------------------------------------------------------------------------
    // Removing
    // -------------------------------------------------------------------------

    /** Deletes the inclusive window the indices select, keeping the rest in
        order: everything for no indices; nothing for an empty slice or
        unusable indices. */
    method Drop(indices: seq<int>)
      modifies this
      ensures |old(s)| == 0 || AbsIndices(|old(s)|, indices).Err? ==> s == old(s)
      ensures |old(s)| > 0 && AbsIndices(|old(s)|, indices).Ok? ==>
        s == old(s)[..AbsIndices(|old(s)|, indices).value.0] +
             old(s)[AbsIndices(|old(s)|, indices).value.1..]
    {
      if |s| == 0 {
        return;
      }
      var w := AbsIndices(|s|, indices);
      if w.Err? {
        return;
      }
      var (i, j) := w.value;
      var n := j - i;
      if i + n < |s| {
        s := s[..i] + s[i + n..];
      } else {
        s := s[..i];
      }
    }

    /** Deletes everything. */
    method Clear()
      modifies this
      ensures s == []
    {
      Drop([]);
    }

    /** Deletes the element `i` addresses, if any. */
    method DropAt(i: int)
      modifies this
      ensures AbsIndex(|old(s)|, i) == -1 ==> s == old(s)
      ensures AbsIndex(|old(s)|, i) != -1 ==>
        s == old(s)[..AbsIndex(|old(s)|, i)] + old(s)[AbsIndex(|old(s)|, i) + 1..]
    {
      if AbsIndex(|s|, i) == -1 {
        OutsidePointWindow(|s|, i);
      } else {
        PointWindow(|s|, i);
      }
      Drop([i, i]);
    }

    method DropFirst()
      modifies this
      ensures s == if old(s) == [] then [] else old(s)[1..]
    {
      Drop([0, 0]);
    }

    /** Deletes the first |n| elements, or all of them when there are fewer. */
    method DropFirstN(n: int)
      modifies this
      ensures s == old(s)[Min(Abs(n), |old(s)|)..]
    {
      if n == 0 {
        return;
      }
      FirstNWindow(|s|, Abs(n));
      Drop([0, Abs(n) - 1]);
    }

    method DropLast()
      modifies this
      ensures s == if old(s) == [] then [] else old(s)[..|old(s)| - 1]
    {
      Drop([-1, -1]);
    }

    /** Deletes the last |n| elements, or all of them when there are fewer. */
    method DropLastN(n: int)
      modifies this
      ensures s == old(s)[..|old(s)| - Min(Abs(n), |old(s)|)]
    {
      if n == 0 {
        return;
      }
      LastNWindow(|s|, Abs(n));
      Drop([AbsNeg(n), -1]);
    }

    /** Deletes every element the selector accepts. Mirrors the index loop that
        steps back after each deletion; `k` counts the original elements seen. */
    method DropW(sel: int -> bool)
      modifies this
      ensures s == Select(old(s), sel, false)
    {
      if |s| == 0 {
        return;
      }
      ghost var s0 := s;
      ghost var k := 0;
      var l := |s|;
      var i := 0;
      while i < l
        invariant 0 <= k <= |s0| && l == |s|
        invariant s == Select(s0[..k], sel, false) + s0[k..]
        invariant i == |Select(s0[..k], sel, false)|
        decreases l - i
      {
        ghost var done, rest := Select(s0[..k], sel, false), s0[k..];
        SelectStep(s0, k, sel, false);
        DropHead(done, rest);
        assert rest == [s0[k]] + s0[k + 1..];
        if sel(s[i]) {
          assert AbsIndex(|s|, i) == i;
          DropAt(i);
          l := l - 1;
          i := i - 1;
        } else {
          SeqAssoc(done, [s0[k]], s0[k + 1..]);
        }
        i := i + 1;
        k := k + 1;
      }
      assert s0[..k] == s0;
    }

    /** Deletes every element the selector accepts and returns them in order. */
    method TakeW(sel: int -> bool) returns (r: seq<int>)
      modifies this
      ensures r == Select(old(s), sel, true)
      ensures s == Select(old(s), sel, false)
    {
      r := [];
      if |s| == 0 {
        return;
      }
      ghost var s0 := s;
      ghost var k := 0;
      var l := |s|;
      var i := 0;
      while i < l
        invariant 0 <= k <= |s0| && l == |s|
        invariant s == Select(s0[..k], sel, false) + s0[k..]
        invariant r == Select(s0[..k], sel, true)
        invariant i == |Select(s0[..k], sel, false)|
        decreases l - i
      {
        ghost var done, rest := Select(s0[..k], sel, false), s0[k..];
        SelectStep(s0, k, sel, false);
        SelectStep(s0, k, sel, true);
        DropHead(done, rest);
        assert rest == [s0[k]] + s0[k + 1..];
        if sel(s[i]) {
          assert AbsIndex(|s|, i) == i;
          r := r + [s[i]];
          DropAt(i);
          l := l - 1;
          i := i - 1;
        } else {
          SeqAssoc(done, [s0[k]], s0[k + 1..]);
        }
        i := i + 1;
        k := k + 1;
      }
      assert s0[..k] == s0;
    }

    /** Keeps the first occurrence of every value, in order. Mirrors the index
        loop that deletes each value the seen-set already holds. */
    method UniqM()
      modifies this
      ensures s == Dedup(old(s))
    {
      if |s| < 2 {
        DedupOfNoDup(s);
        return;
      }
      ghost var s0 := s;
      ghost var k := 0;
      var seen: set<int> := {};
      var l := |s|;
      var i := 0;
      while i < l
        invariant 0 <= k <= |s0| && l == |s|
        invariant s == Dedup(s0[..k]) + s0[k..]
        invariant i == |Dedup(s0[..k])|
        invariant forall x :: x in seen <==> x in s0[..k]
        decreases l - i
      {
        DedupLoopStep(s0, k, s);
        assert s0[..k + 1] == s0[..k] + [s0[k]];
        assert s[i] == s0[k] && (s0[k] in seen <==> s0[k] in s0[..k]);
        var first := s[i] !in seen;
        seen := seen + {s[i]};
        if !first {
          assert AbsIndex(|s|, i) == i;
          DropAt(i);
          l := l - 1;
          i := i - 1;
        }
        i := i + 1;
        k := k + 1;
      }
      assert s0[..k] == s0;
    }

    /** Appends the argument's elements, then keeps first occurrences. */
    method UnionM(slice: IntsArg) returns (panicked: bool)
      modifies this
      ensures panicked <==> slice.NilPtr?
      ensures panicked ==> s == old(s)
      ensures !panicked ==> s == Dedup(old(s) + ArgElems(slice))
    {
      panicked := ConcatM(slice);
      if !panicked {
        UniqM();
      }
    }

    /** Removes the inclusive window the indices select and returns it. */
    method Take(indices: seq<int>) returns (r: seq<int>)
      modifies this
      ensures r == old(Copy(indices))
      ensures |old(s)| == 0 || AbsIndices(|old(s)|, indices).Err? ==> r == [] && s == old(s)
      ensures |old(s)| > 0 && AbsIndices(|old(s)|, indices).Ok? ==>
        var lo := AbsIndices(|old(s)|, indices).value.0;
        lo <= |s| && old(s) == s[..lo] + r + s[lo..]
    {
      r := Copy(indices);
      ghost var s0 := s;
      Drop(indices);
      if |s0| > 0 && AbsIndices(|s0|, indices).Ok? {
        var (lo, hi) := AbsIndices(|s0|, indices).value;
        assert r == s0[lo..hi];
        assert s[..lo] == s0[..lo] && s[lo..] == s0[hi..];
        assert s0 == s0[..lo] + s0[lo..hi] + s0[hi..];
      }
    }

    /** Removes the element `i` addresses and returns it; None changes nothing. */
    method TakeAt(i: int) returns (r: Option<int>)
      modifies this
      ensures r == old(At(i))
      ensures r.None? ==> s == old(s)
      ensures r.Some? ==>
        var k := AbsIndex(|old(s)|, i);
        k <= |s| && old(s) == s[..k] + [r.value] + s[k..]
    {
      r := At(i);
      ghost var s0 := s;
      DropAt(i);
      if r.Some? {
        var k := AbsIndex(|s0|, i);
        assert s[..k] == s0[..k] && s[k..] == s0[k + 1..];
        assert s0 == s0[..k] + [s0[k]] + s0[k + 1..];
      }
    }

    /** Removes the last element and returns it; None on an empty slice. */
    method Pop() returns (r: Option<int>)
      modifies this
      ensures r.None? <==> old(s) == []
      ensures old(s) == s + (if r.Some? then [r.value] else [])
    {
      r := At(-1);
      DropLast();
    }

    /** Removes the last |n| elements (all when fewer) and returns them in order. */
    method PopN(n: int) returns (r: seq<int>)
      modifies this
      ensures |r| == Min(Abs(n), |old(s)|)
      ensures old(s) == s + r
    {
      if n == 0 {
        return [];
      }
      ghost var s0 := s;
      LastNWindow(|s|, Abs(n));
      r := Copy([AbsNeg(n), -1]);
      DropLastN(n);
      assert r == s0[|s0| - Min(Abs(n), |s0|)..];
    }

    /** Removes the first element and returns it; None on an empty slice. */
    method Shift() returns (r: Option<int>)
      modifies this
      ensures r.None? <==> old(s) == []
      ensures old(s) == (if r.Some? then [r.value] else []) + s
    {
      r := At(0);
      DropFirst();
    }

    /** Removes the first |n| elements (all when fewer) and returns them in order. */
    method ShiftN(n: int) returns (r: seq<int>)
      modifies this
      ensures |r| == Min(Abs(n), |old(s)|)
      ensures old(s) == r + s
    {
      if n == 0 {
        return [];
      }
      ghost var s0 := s;
      FirstNWindow(|s|, Abs(n));
      r := Copy([0, Abs(n) - 1]);
      DropFirstN(n);
      assert r == s0[..Min(Abs(n), |s0|)];
    }

    /** Reverses in place with a two-pointer swap loop. */
    method ReverseM()
      modifies this
      ensures s == Reversed(old(s))
    {
      if |s| == 0 {
        return;
      }
      ghost var s0 := s;
      var i, j := 0, |s| - 1;
      while i < j
        invariant 0 <= i <= j + 1 && j == |s0| - 1 - i && |s| == |s0|
        invariant forall k :: 0 <= k < i ==> s[k] == s0[|s0| - 1 - k]
        invariant forall k :: j < k < |s0| ==> s[k] == s0[|s0| - 1 - k]
        invariant forall k :: i <= k <= j ==> s[k] == s0[k]
      {
        Swap(i, j);
        i, j := i + 1, j - 1;
      }
      ReversedIndex(s0);
      assert forall k :: 0 <= k < |s| ==> s[k] == Reversed(s0)[k];
    }

    /** Sorts in place, ascending. */
    method SortM()
      modifies this
      ensures Ascending(s) && multiset(s) == multiset(old(s))
    {
      if |s| < 2 {
        return;
      }
      s := SortAsc(s);
    }

    /** Sorts in place, descending. */
    method SortReverseM()
      modifies this
      ensures Descending(s) && multiset(s) == multiset(old(s))
    {
      if |s| < 2 {
        return;
      }
      var sorted := SortAsc(s);
      ReversedAscending(sorted);
      ReversedMultiset(sorted);
      s := Reversed(sorted);
    }
  }
}
