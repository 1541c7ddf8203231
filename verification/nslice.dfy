/** NSlice: a type-erased slice. The underlying Go slice `o` is either unset
    (the Nil slice) or a slice of one element type; `len` caches its length.
    The dynamic types the fast paths care about (bool, int, string) are kept
    apart from every other named type, and `[]interface{}` is the type TAny. */
module NSlices {
  import opened Indexing

  /** The element type of an underlying slice. */
  datatype Type = TBool | TInt | TStr | TNamed(name: string) | TAny

  /** A non-nil dynamic value. Slice and array values are not among them. */
  datatype Value = Bool(b: bool) | Int(i: int) | Str(s: string) | Named(typeName: string, id: int)

  /** Why an operation panics instead of returning. */
  datatype Panic =
    | CantAppend   // Append / NewSliceV: value not assignable to the element type
    | CantConcat   // AppendS: slice of another element type
    | CantInsert   // Insert: value not assignable to the element type
    | CantSet      // Set: value not assignable to the element type
    | CantCompare  // Any: value of another type
    | OutOfBounds  // Set: index addresses nothing
    | SliceBounds  // a Go slice expression out of range
    | NilItem      // NewSliceV: a nil after the element type was fixed

  datatype Outcome<+T> = Done(value: T) | Panicked(reason: Panic)

  /** What a (new) NSlice holds: no type for the Nil slice. */
  datatype Contents = Contents(typ: Option<Type>, elems: seq<Value>)

  /** A Go slice handed to AppendS: its static element type and its elements. */
  datatype TypedSlice = TypedSlice(elemType: Type, elems: seq<Value>)

  function TypeOf(v: Value): (t: Type)
    ensures t != TAny
  {
    match v
    case Bool(_) => TBool
    case Int(_) => TInt
    case Str(_) => TStr
    case Named(n, _) => TNamed(n)
  }

  /** Whether the value may be stored in a slice of element type `t`. */
  predicate Assignable(v: Value, t: Type)
  {
    t == TAny || TypeOf(v) == t
  }

  predicate AllAssignable(vs: seq<Value>, t: Type)
  {
    forall k :: 0 <= k < |vs| ==> Assignable(vs[k], t)
  }

  predicate WellTyped(c: Contents)
  {
    (c.typ.None? ==> c.elems == []) && (c.typ.Some? ==> AllAssignable(c.elems, c.typ.value))
  }

  /** The element type of the empty slice newEmptySlice builds from an existing
      underlying slice: none (a nil slice) gives []interface{}; a non-empty
      []interface{} takes the type of its first element; any other keeps its type. */
  function NewEmptyType(typ: Option<Type>, o: seq<Value>): (t: Type)
    ensures typ.None? ==> t == TAny
    ensures typ.Some? && typ.value != TAny ==> t == typ.value
    ensures typ == Some(TAny) && o != [] ==> t == TypeOf(o[0])
  {
    if typ.None? then TAny
    else if typ.value == TAny && |o| > 0 then TypeOf(o[0])
    else typ.value
  }

  /** The element type newEmptySlice gives for a slice argument. */
  function SliceElemType(x: TypedSlice): (t: Type)
    ensures x.elemType != TAny ==> t == x.elemType
    ensures x.elemType == TAny && x.elems == [] ==> t == TAny
  {
    if x.elemType == TAny && |x.elems| > 0 then TypeOf(x.elems[0]) else x.elemType
  }

  predicate IsFast(t: Type)
  {
    t == TBool || t == TInt || t == TStr
  }

  /** The search loop of Any. `ok` is whether the last value looked at had the
      element type. On the bool/int/string fast paths a value of another type
      ends the search with a panic; on the reflection path it ends the search,
      and panics only when no value has matched the type yet. */
  function AnyScan(o: seq<Value>, t: Type, objs: seq<Value>, fast: bool, ok: bool): (r: Outcome<bool>)
    ensures r == Done(true) ==> exists k :: 0 <= k < |objs| && objs[k] in o
    ensures objs != [] && (forall k :: 0 <= k < |objs| ==> TypeOf(objs[k]) == t) ==>
      r == Done(exists k :: 0 <= k < |objs| && objs[k] in o)
    ensures objs != [] && TypeOf(objs[0]) != t && (fast || !ok) ==> r == Panicked(CantCompare)
    ensures FirstMisfit(objs, t) < |objs| ==>
      r == (if exists k :: 0 <= k < FirstMisfit(objs, t) && objs[k] in o then Done(true)
            else if fast || (!ok && FirstMisfit(objs, t) == 0) then Panicked(CantCompare)
            else Done(false))
  {
    if objs == [] then
      if ok then Done(false) else Panicked(CantCompare)
    else if TypeOf(objs[0]) != t then
      if fast || !ok then Panicked(CantCompare) else Done(false)
    else if objs[0] in o then
      Done(true)
    else
      var r := AnyScan(o, t, objs[1..], fast, true);
      assert forall k :: 1 <= k < |objs| ==> objs[1..][k - 1] == objs[k];
      r
  }

  /** The position of the first value whose type is not `t`, or |objs| when
      every value has type `t`. */
  function FirstMisfit(objs: seq<Value>, t: Type): (m: nat)
    ensures m <= |objs|
    ensures forall k :: 0 <= k < m ==> TypeOf(objs[k]) == t
    ensures m < |objs| ==> TypeOf(objs[m]) != t
  {
    if objs == [] || TypeOf(objs[0]) != t then 0
    else
      assert forall k :: 1 <= k < |objs| ==> objs[1..][k - 1] == objs[k];
      1 + FirstMisfit(objs[1..], t)
  }

  /** The number of nils NewSliceV skips before the first value. */
  function LeadingNils(items: seq<Option<Value>>): (n: nat)
    ensures n <= |items|
    ensures forall k :: 0 <= k < n ==> items[k].None?
    ensures n < |items| ==> items[n].Some?
  {
    if items == [] || items[0].Some? then 0
    else
      assert forall k :: 1 <= k < |items| ==> items[1..][k - 1] == items[k];
      1 + LeadingNils(items[1..])
  }

  /** NewSliceV: skips leading nils, takes the element type from the first
      value and appends every item from there on; a later nil, or a value of
      another type, panics. No items, or only nils, give the Nil slice. */
  method NewSliceV(items: seq<Option<Value>>) returns (r: Outcome<Contents>)
    ensures LeadingNils(items) == |items| ==> r == Done(Contents(None, []))
    ensures LeadingNils(items) < |items| ==>
      var first := LeadingNils(items);
      var t := TypeOf(items[first].value);
      (r.Done? <==> forall k :: first <= k < |items| ==> items[k].Some? && TypeOf(items[k].value) == t) &&
      (r.Done? ==> r.value.typ == Some(t) && |r.value.elems| == |items| - first &&
                   forall k :: 0 <= k < |r.value.elems| ==> Some(r.value.elems[k]) == items[first + k])
    ensures r.Done? ==> WellTyped(r.value)
  {
    if |items| == 0 {
      return Done(Contents(None, []));
    }
    ghost var first := LeadingNils(items);
    var typ: Option<Type> := None;
    var acc: seq<Value> := [];
    for i := 0 to |items|
      invariant i <= first ==> typ.None? && acc == []
      invariant i > first ==> first < |items| && typ == Some(TypeOf(items[first].value))
      invariant i > first ==> |acc| == i - first
      invariant forall k :: 0 <= k < |acc| ==> Some(acc[k]) == items[first + k]
      invariant forall k :: first <= k < i ==> items[k].Some? && TypeOf(items[k].value) == TypeOf(items[first].value)
    {
      if typ.None? && items[i].Some? {
        typ := Some(TypeOf(items[i].value));
      }
      if typ.Some? {
        if items[i].None? {
          return Panicked(NilItem);
        }
        if TypeOf(items[i].value) != typ.value {
          return Panicked(CantAppend);
        }
        acc := acc + [items[i].value];
      }
    }
    return Done(Contents(typ, acc));
  }

  class NSlice {
    var typ: Option<Type>   // None: the underlying slice is unset
    var o: seq<Value>
    var len: int

    /** `len` is the element count; the Nil slice holds nothing; every element
        fits the element type. */
    predicate Valid()
      reads this
    {
      len == |o| && WellTyped(Contents(typ, o))
    }

    /** NewSlice of nothing: the Nil slice. */
    constructor ()
      ensures Valid() && typ.None? && o == []
    {
      typ, o, len := None, [], 0;
    }

    /** An NSlice holding the given contents (what NewSliceV returns). */
    constructor FromContents(c: Contents)
      requires WellTyped(c)
      ensures Valid() && typ == c.typ && o == c.elems
    {
      typ, o, len := c.typ, c.elems, |c.elems|;
    }

    // -------------------------------------------------------------------------
    // Queries
    // -------------------------------------------------------------------------

    function Nil(): (r: bool)
      reads this
      requires Valid()
      ensures r <==> typ.None?
      ensures r ==> o == []
    {
      typ.None?
    }

    function Len(): (r: int)
      reads this
      requires Valid()
      ensures r == |o|
    {
      if Nil() then 0 else len
    }

    function Empty(): (r: bool)
      reads this
      requires Valid()
      ensures r <==> |o| == 0
    {
      Nil() || len == 0
    }

    /** The element `i` addresses, counting from the end when negative. */
    function At(i: int): (r: Option<Value>)
      reads this
      requires Valid()
      ensures 0 <= i < |o| ==> r == Some(o[i])
      ensures -|o| <= i < 0 ==> r == Some(o[|o| + i])
      ensures i < -|o| || |o| <= i ==> r == None
    {
      if Nil() then None
      else
        var k := AbsIndex(len, i);
        if k == -1 then None else Some(o[k])
    }

    /** Non-empty, and (when values are given) holding one of them. */
    function Any(objs: seq<Value>): (r: Outcome<bool>)
      reads this
      requires Valid()
      ensures |o| == 0 ==> r == Done(false)
      ensures |o| > 0 && objs == [] ==> r == Done(true)
      ensures r == Done(true) ==> |o| > 0 && (objs == [] || exists k :: 0 <= k < |objs| && objs[k] in o)
      ensures |o| > 0 && objs != [] && (forall k :: 0 <= k < |objs| ==> TypeOf(objs[k]) == typ.value) ==>
        r == Done(exists k :: 0 <= k < |objs| && objs[k] in o)
      ensures |o| > 0 && objs != [] && TypeOf(objs[0]) != typ.value ==> r == Panicked(CantCompare)
      ensures |o| > 0 && objs != [] && typ == Some(TAny) ==> r == Panicked(CantCompare)
      ensures |o| > 0 && FirstMisfit(objs, typ.value) < |objs| ==>
        var m := FirstMisfit(objs, typ.value);
        r == (if exists k :: 0 <= k < m && objs[k] in o then Done(true)
              else if IsFast(typ.value) || m == 0 then Panicked(CantCompare)
              else Done(false))
    {
      if Nil() || len == 0 then Done(false)
      else if |objs| == 0 then Done(true)
      else AnyScan(o, typ.value, objs, IsFast(typ.value), false)
    }

    /** With no values, Any reports exactly whether the slice holds anything. */
    lemma AnyNoArgs()
      requires Valid()
      ensures Any([]) == Done(!Empty())
    {
    }

    /** Bool false orders before true, ints and strings by value; out-of-range
        indices and other element types compare as not less. */
    function Less(i: int, j: int): (r: bool)
      reads this
      requires Valid()
      ensures r ==> 0 <= i < |o| && 0 <= j < |o| && o[i] != o[j]
      ensures 0 <= i < |o| && 0 <= j < |o| && typ == Some(TBool) ==> (r <==> !o[i].b && o[j].b)
      ensures 0 <= i < |o| && 0 <= j < |o| && typ == Some(TInt) ==> (r <==> o[i].i < o[j].i)
      ensures 0 <= i < |o| && 0 <= j < |o| && typ == Some(TStr) ==> (r <==> StrLess(o[i].s, o[j].s))
      ensures typ.Some? && !IsFast(typ.value) ==> !r
    {
      if Nil() || len < 2 || i < 0 || j < 0 || i >= len || j >= len then false
      else
        match typ.value
        case TBool => !o[i].b && o[j].b
        case TInt => o[i].i < o[j].i
        case TStr => StrLess(o[i].s, o[j].s)
        case _ => false
    }

    /** Elements i..j inclusive, as Slice and Copy compute them, for a
        non-empty slice. */
    function Window2(i: int, j: int): (r: Outcome<Contents>)
      reads this
      requires Valid() && |o| > 0
    {
      match Window(|o|, i, j)
      case Exclusive => Done(Contents(Some(NewEmptyType(typ, o)), []))
      case Invalid => Panicked(SliceBounds)
      case Range(lo, hi) => Done(Contents(typ, o[lo..hi]))
    }

    /** The inclusive window i..j (sharing storage in Go). Indices are shifted by
        len when negative; a start after the end gives an empty slice; the start
        is raised to 0 and the end lowered to len-1; a window still reversed after
        that is a slice-bounds panic. */
    function Slice(i: int, j: int): (r: Outcome<Contents>)
      reads this
      requires Valid()
      ensures |o| == 0 || Shift(|o|, i) > Shift(|o|, j) ==>
        r == Done(Contents(Some(NewEmptyType(typ, o)), []))
      ensures r.Panicked? <==> |o| > 0 && Window(|o|, i, j).Invalid?
      ensures r.Done? && |o| > 0 && Shift(|o|, i) <= Shift(|o|, j) ==>
        r.value.typ == typ &&
        r.value.elems == o[Max(0, Shift(|o|, i))..Min(|o|, Shift(|o|, j) + 1)]
      ensures r.Done? ==> WellTyped(r.value)
    {
      if len == 0 then Done(Contents(Some(NewEmptyType(typ, o)), []))
      else Window2(i, j)
    }

    /** Slice(i, j) of two addressable indices is elements i through j, both included. */
    lemma SliceInclusive(i: int, j: int)
      requires Valid()
      requires AbsIndex(|o|, i) != -1 && AbsIndex(|o|, j) != -1 && AbsIndex(|o|, i) <= AbsIndex(|o|, j)
      ensures Slice(i, j) == Done(Contents(typ, o[AbsIndex(|o|, i)..AbsIndex(|o|, j) + 1]))
    {
    }

    /** Slice(0, -1) is everything. */
    lemma SliceAll()
      requires Valid() && |o| > 0
      ensures Slice(0, -1) == Done(Contents(typ, o))
    {
      WholeWindow(|o|);
      assert o[0..|o|] == o;
    }

    /** A deep copy of the inclusive window: no index copies everything, one
        index copies nothing, two work as Slice, more than two are ignored. */
    function Copy(indices: seq<int>): (r: Outcome<Contents>)
      reads this
      requires Valid()
      ensures |o| == 0 || |indices| == 1 ==> r == Done(Contents(Some(NewEmptyType(typ, o)), []))
      ensures |o| > 0 && |indices| != 1 && |indices| != 2 ==> r == Done(Contents(typ, o))
      ensures |indices| == 2 ==> r == Slice(indices[0], indices[1])
      ensures r.Done? ==> WellTyped(r.value)
    {
      if len == 0 || |indices| == 1 then Done(Contents(Some(NewEmptyType(typ, o)), []))
      else
        var i := if |indices| == 2 then indices[0] else 0;
        var j := if |indices| == 2 then indices[1] else len - 1;
        FirstNWindow(|o|, |o|);
        assert o[0..|o|] == o;
        Window2(i, j)
    }

    /** FirstN as written: Slice(0, |n|-1). For n == 0 that is Slice(0, -1). */
    function FirstN(n: int): (r: Outcome<Contents>)
      reads this
      requires Valid()
      ensures n != 0 ==> r == Done(Contents(if |o| == 0 then Some(NewEmptyType(typ, o)) else typ,
                                            o[..Min(Abs(n), |o|)]))
    {
      var j := if n < 0 then -n - 1 else n - 1;
      if n == 0 then Slice(0, j)
      else FirstNWindow(|o|, Abs(n)); Slice(0, j)
    }

    /** LastN as written: Slice(-|n|, -1). For n == 0 that is Slice(0, -1). */
    function LastN(n: int): (r: Outcome<Contents>)
      reads this
      requires Valid()
      ensures n != 0 ==> r == Done(Contents(if |o| == 0 then Some(NewEmptyType(typ, o)) else typ,
                                            o[|o| - Min(Abs(n), |o|)..]))
    {
      var i := if n < 0 then n else -n;
      if n == 0 then Slice(i, -1)
      else
        LastNWindow(|o|, Abs(n));
        assert o[|o| - Min(Abs(n), |o|)..|o|] == o[|o| - Min(Abs(n), |o|)..];
        Slice(i, -1)
    }

    /** FirstN(0) and LastN(0) of a non-empty slice return every element
        instead of none. */
    lemma FirstLastNZero()
      requires Valid() && |o| > 0
      ensures FirstN(0) == Done(Contents(typ, o)) && LastN(0) == Done(Contents(typ, o))
    {
      SliceAll();
    }

    /** The first min(|n|, len) elements, n == 0 included. */
    function FirstNFixed(n: int): (r: Outcome<Contents>)
      reads this
      requires Valid()
      ensures r.Done? && r.value.elems == o[..Min(Abs(n), |o|)]
      ensures r.Done? ==> WellTyped(r.value)
    {
      if n == 0 then Done(Contents(Some(NewEmptyType(typ, o)), [])) else FirstN(n)
    }

    /** The last min(|n|, len) elements, n == 0 included. */
    function LastNFixed(n: int): (r: Outcome<Contents>)
      reads this
      requires Valid()
      ensures r.Done? && r.value.elems == o[|o| - Min(Abs(n), |o|)..]
      ensures r.Done? ==> WellTyped(r.value)
    {
      if n == 0 then Done(Contents(Some(NewEmptyType(typ, o)), [])) else LastN(n)
    }

    // -------------------------------------------------------------------------
    // Growing
    // -------------------------------------------------------------------------

    /** Appends one value. The Nil slice first takes the value's type; a value
        the element type cannot hold panics before anything changes. */
    method Append(item: Value) returns (failure: Option<Panic>)
      requires Valid()
      modifies this
      ensures Valid()
      ensures old(typ).None? ==> failure.None? && typ == Some(TypeOf(item)) && o == [item]
      ensures old(typ).Some? && Assignable(item, old(typ).value) ==>
        failure.None? && typ == old(typ) && o == old(o) + [item]
      ensures old(typ).Some? && !Assignable(item, old(typ).value) ==>
        failure == Some(CantAppend) && typ == old(typ) && o == old(o)
    {
      if Nil() {
        typ, o, len := Some(TypeOf(item)), [], 0;
      }
      if !Assignable(item, typ.value) {
        return Some(CantAppend);
      }
      o := o + [item];
      len := len + 1;
      return None;
    }

    /** Appends the values one by one; a panic stops the loop with the values
        before it already appended. */
    method AppendV(items: seq<Value>) returns (failure: Option<Panic>)
      requires Valid()
      modifies this
      ensures Valid()
      ensures old(typ).None? && items == [] ==> typ.None? && o == []
      ensures old(typ).Some? || items != [] ==>
        var t := if old(typ).Some? then old(typ).value else TypeOf(items[0]);
        typ == Some(t) &&
        (failure.None? <==> AllAssignable(items, t)) &&
        (failure.None? ==> o == old(o) + items) &&
        (failure.Some? ==>
           failure == Some(CantAppend) &&
           exists k :: 0 <= k < |items| && !Assignable(items[k], t) && o == old(o) + items[..k])
    {
      failure := None;
      ghost var t := if typ.Some? then typ.value else if items != [] then TypeOf(items[0]) else TAny;
      for k := 0 to |items|
        invariant Valid()
        invariant k == 0 ==> typ == old(typ) && o == old(o)
        invariant k > 0 ==> typ == Some(t) && o == old(o) + items[..k]
        invariant AllAssignable(items[..k], t)
        invariant failure.None?
      {
        failure := Append(items[k]);
        if failure.Some? {
          assert !Assignable(items[k], t) && o == old(o) + items[..k];
          assert !AllAssignable(items, t);
          return;
        }
        assert items[..k + 1] == items[..k] + [items[k]];
      }
      assert items[..|items|] == items;
      assert AllAssignable(items, t);
    }

    /** Appends a whole slice of exactly the element type. The Nil slice first
        becomes an empty slice of the argument's element type (this happens
        even when the append then panics). */
    method AppendS(x: TypedSlice) returns (failure: Option<Panic>)
      requires Valid() && AllAssignable(x.elems, x.elemType)
      modifies this
      ensures Valid()
      ensures var t := if old(typ).Some? then old(typ).value else SliceElemType(x);
        var base := if old(typ).Some? then old(o) else [];
        typ == Some(t) &&
        (t == x.elemType ==> failure.None? && o == base + x.elems) &&
        (t != x.elemType ==> failure == Some(CantConcat) && o == base)
    {
      if Nil() {
        typ, o, len := Some(SliceElemType(x)), [], 0;
      }
      if typ.value != x.elemType {
        return Some(CantConcat);
      }
      o := o + x.elems;
      len := len + |x.elems|;
      return None;
    }

    /** Inserts before the element a non-negative index addresses, or after the
        element a negative one addresses, as written: on the reflection path an
        insert at the front builds a one-element slice of the value's own type,
        which cannot be joined to an []interface{} slice. */
    method InsertAsWritten(i: int, obj: Value) returns (failure: Option<Panic>)
      requires Valid()
      modifies this
      ensures Valid()
      ensures old(typ).Some? ==> typ == old(typ)
      ensures old(typ) == Some(TAny) && old(|o|) > 0 ==> (failure == Some(CantInsert) <==> i == 0)
      ensures failure.Some? ==> o == old(o)
    {
      if Nil() {
        failure := Append(obj);
        return;
      }
      var j := AbsIndex(len, i);
      if j == -1 {
        return None;
      }
      if i < 0 {
        j := j + 1;
      }
      var fits := if IsFast(typ.value) || j == 0 then TypeOf(obj) == typ.value else Assignable(obj, typ.value);
      if !fits {
        return Some(CantInsert);
      }
      o := o[..j] + [obj] + o[j..];
      len := len + 1;
      return None;
    }

    /** Inserts before the element a non-negative index addresses, or after the
        element a negative one addresses (so -1 appends). The Nil slice appends;
        an index that addresses nothing changes nothing (an empty slice included);
        a value the element type cannot hold panics. */
    method Insert(i: int, obj: Value) returns (failure: Option<Panic>)
      requires Valid()
      modifies this
      ensures Valid()
      ensures old(typ).None? ==> failure.None? && typ == Some(TypeOf(obj)) && o == [obj]
      ensures old(typ).Some? ==> typ == old(typ)
      ensures old(typ).Some? && AbsIndex(old(|o|), i) == -1 ==> failure.None? && o == old(o)
      ensures old(typ).Some? && AbsIndex(old(|o|), i) != -1 && !Assignable(obj, old(typ).value) ==>
        failure == Some(CantInsert) && o == old(o)
      ensures old(typ).Some? && Assignable(obj, old(typ).value) && 0 <= i < old(|o|) ==>
        failure.None? && o == old(o)[..i] + [obj] + old(o)[i..]
      ensures old(typ).Some? && Assignable(obj, old(typ).value) && -old(|o|) <= i < 0 ==>
        failure.None? && o == old(o)[..old(|o|) + i + 1] + [obj] + old(o)[old(|o|) + i + 1..]
    {
      if Nil() {
        failure := Append(obj);
        return;
      }
      var j := AbsIndex(len, i);
      if j == -1 {
        return None;
      }
      if i < 0 {
        j := j + 1;
      }
      if !Assignable(obj, typ.value) {
        return Some(CantInsert);
      }
      o := o[..j] + [obj] + o[j..];
      len := len + 1;
      return None;
    }

    /** On an []interface{} slice Insert at the front takes any value. */
    method PrependAny(obj: Value) returns (failure: Option<Panic>)
      requires Valid() && typ == Some(TAny) && |o| > 0
      modifies this
      ensures Valid() && failure.None? && o == [obj] + old(o)
    {
      failure := Insert(0, obj);
    }

    /** Insert(0, obj). */
    method Prepend(obj: Value) returns (failure: Option<Panic>)
      requires Valid()
      modifies this
      ensures Valid()
      ensures old(typ).None? ==> failure.None? && typ == Some(TypeOf(obj)) && o == [obj]
      ensures old(typ).Some? ==> typ == old(typ)
      ensures old(|o|) > 0 && Assignable(obj, old(typ).value) ==> failure.None? && o == [obj] + old(o)
      ensures old(|o|) > 0 && !Assignable(obj, old(typ).value) ==> failure == Some(CantInsert) && o == old(o)
      ensures old(typ).Some? && old(|o|) == 0 ==> failure.None? && o == old(o)
    {
      failure := Insert(0, obj);
    }

    // -------------------------------------------------------------------------
    // Overwriting and reordering
    // -------------------------------------------------------------------------

    /** Overwrites the element `i` addresses. The Nil slice ignores it; an index
        that addresses nothing panics before the value's type is looked at. */
    method Set(i: int, obj: Value) returns (failure: Option<Panic>)
      requires Valid()
      modifies this
      ensures Valid() && typ == old(typ)
      ensures old(typ).None? ==> failure.None? && o == old(o)
      ensures old(typ).Some? && AbsIndex(old(|o|), i) == -1 ==> failure == Some(OutOfBounds) && o == old(o)
      ensures old(typ).Some? && AbsIndex(old(|o|), i) != -1 && !Assignable(obj, old(typ).value) ==>
        failure == Some(CantSet) && o == old(o)
      ensures old(typ).Some? && AbsIndex(old(|o|), i) != -1 && Assignable(obj, old(typ).value) ==>
        failure.None? && o == old(o)[AbsIndex(old(|o|), i) := obj]
    {
      if Nil() {
        return None;
      }
      var k := AbsIndex(len, i);
      if k == -1 {
        return Some(OutOfBounds);
      }
      if !Assignable(obj, typ.value) {
        return Some(CantSet);
      }
      o := o[k := obj];
      return None;
    }

    /** Exchanges two elements; any index outside [0, len) makes it a no-op. */
    method Swap(i: int, j: int)
      requires Valid()
      modifies this
      ensures Valid() && typ == old(typ)
      ensures 0 <= i < old(|o|) && 0 <= j < old(|o|) ==> o == old(o)[i := old(o)[j]][j := old(o)[i]]
      ensures !(0 <= i < old(|o|) && 0 <= j < old(|o|)) ==> o == old(o)
    {
      if Nil() || len < 2 || i < 0 || j < 0 || i >= len || j >= len {
        return;
      }
      o := o[i := o[j]][j := o[i]];
    }

    // -------------------------------------------------------------------------
    // Removing
    // -------------------------------------------------------------------------

    /** Empties the slice, keeping it non-Nil; an []interface{} slice takes the
        type of its first element. */
    method Clear()
      requires Valid()
      modifies this
      ensures Valid() && o == []
      ensures typ == if old(typ).None? then None else Some(NewEmptyType(old(typ), old(o)))
    {
      if !Nil() {
        typ, o, len := Some(NewEmptyType(typ, o)), [], 0;
      }
    }

    /** Deletes the element `i` addresses, if any. */
    method Drop(i: int)
      requires Valid()
      modifies this
      ensures Valid() && typ == old(typ)
      ensures AbsIndex(old(|o|), i) == -1 ==> o == old(o)
      ensures AbsIndex(old(|o|), i) != -1 ==>
        o == old(o)[..AbsIndex(old(|o|), i)] + old(o)[AbsIndex(old(|o|), i) + 1..]
    {
      if Nil() {
        return;
      }
      var k := AbsIndex(len, i);
      if k == -1 {
        return;
      }
      if k + 1 < |o| {
        o := o[..k] + o[k + 1..];
      } else {
        o := o[..k];
      }
      len := len - 1;
    }

    /** Deletes the element `i` addresses and returns it (None: nothing changes). */
    method Take(i: int) returns (r: Option<Value>)
      requires Valid()
      modifies this
      ensures Valid() && typ == old(typ)
      ensures r == old(At(i))
      ensures r.None? ==> o == old(o)
      ensures r.Some? ==>
        var k := AbsIndex(old(|o|), i);
        k <= |o| && old(o) == o[..k] + [r.value] + o[k..]
    {
      r := At(i);
      if r.None? {
        return;
      }
      var k := AbsIndex(len, i);
      ghost var o0 := o;
      if k + 1 < |o| {
        o := o[..k] + o[k + 1..];
      } else {
        o := o[..k];
      }
      len := len - 1;
      assert o[..k] == o0[..k] && o[k..] == o0[k + 1..];
      assert o0 == o0[..k] + [o0[k]] + o0[k + 1..];
    }

    /** Deletes the first n elements. n == 0 and the Nil slice are no-ops; more
        than len leaves an empty, non-Nil slice; a negative n is an invalid
        slice expression. */
    method DropFirstN(n: int) returns (failure: Option<Panic>)
      requires Valid()
      modifies this
      ensures Valid()
      ensures n == 0 || old(typ).None? ==> failure.None? && typ == old(typ) && o == old(o)
      ensures n < 0 && old(typ).Some? ==> failure == Some(SliceBounds) && typ == old(typ) && o == old(o)
      ensures 0 < n <= old(|o|) ==> failure.None? && typ == old(typ) && o == old(o)[n..]
      ensures n > old(|o|) && old(typ).Some? ==>
        failure.None? && typ == Some(NewEmptyType(old(typ), old(o))) && o == []
    {
      if n == 0 || Nil() {
        return None;
      }
      if len >= n {
        if n < 0 {
          return Some(SliceBounds);
        }
        o := o[n..];
        len := len - n;
      } else {
        typ, o, len := Some(NewEmptyType(typ, o)), [], 0;
      }
      return None;
    }

    /** DropFirstN(1). */
    method DropFirst()
      requires Valid()
      modifies this
      ensures Valid()
      ensures old(|o|) > 0 ==> typ == old(typ) && o == old(o)[1..]
      ensures old(|o|) == 0 ==> o == [] && typ == if old(typ).None? then None else Some(NewEmptyType(old(typ), old(o)))
    {
      var _ := DropFirstN(1);
    }

    /** Deletes the last n elements, with the cases of DropFirstN. */
    method DropLastN(n: int) returns (failure: Option<Panic>)
      requires Valid()
      modifies this
      ensures Valid()
      ensures n == 0 || old(typ).None? ==> failure.None? && typ == old(typ) && o == old(o)
      ensures n < 0 && old(typ).Some? ==> failure == Some(SliceBounds) && typ == old(typ) && o == old(o)
      ensures 0 < n <= old(|o|) ==> failure.None? && typ == old(typ) && o == old(o)[..old(|o|) - n]
      ensures n > old(|o|) && old(typ).Some? ==>
        failure.None? && typ == Some(NewEmptyType(old(typ), old(o))) && o == []
    {
      if n == 0 || Nil() {
        return None;
      }
      if len >= n {
        if n < 0 {
          return Some(SliceBounds);
        }
        o := o[..len - n];
        len := len - n;
      } else {
        typ, o, len := Some(NewEmptyType(typ, o)), [], 0;
      }
      return None;
    }

    /** DropLastN(1). */
    method DropLast()
      requires Valid()
      modifies this
      ensures Valid()
      ensures old(|o|) > 0 ==> typ == old(typ) && o == old(o)[..old(|o|) - 1]
      ensures old(|o|) == 0 ==> o == [] && typ == if old(typ).None? then None else Some(NewEmptyType(old(typ), old(o)))
    {
      var _ := DropLastN(1);
    }
  }

  /** Prepending to the []interface{} slice holding 1, as written, panics. */
  method PrependToAnySliceAsWritten() returns (failure: Option<Panic>)
    ensures failure == Some(CantInsert)
  {
    var p := new NSlice.FromContents(Contents(Some(TAny), [Int(1)]));
    failure := p.InsertAsWritten(0, Int(2));
  }

  /** Prepending to the []interface{} slice holding 1 gives [2, 1]. */
  method PrependToAnySlice() returns (failure: Option<Panic>, elems: seq<Value>)
    ensures failure.None? && elems == [Int(2), Int(1)]
  {
    var p := new NSlice.FromContents(Contents(Some(TAny), [Int(1)]));
    failure := p.Prepend(Int(2));
    elems := p.o;
  }

  /** Go's `<` on strings: lexicographic, a proper prefix first. */
  predicate StrLess(a: string, b: string)
    ensures StrLess(a, b) ==> a != b
  {
    if a == [] then b != []
    else if b == [] then false
    else if a[0] != b[0] then a[0] < b[0]
    else StrLess(a[1..], b[1..])
  }

  /** StrLess is a strict order: never both ways, never reflexive. */
  lemma {:induction false} StrLessAsymmetric(a: string, b: string)
    ensures !(StrLess(a, b) && StrLess(b, a))
    ensures !StrLess(a, a)
  {
    if a != [] && b != [] && a[0] == b[0] {
      StrLessAsymmetric(a[1..], b[1..]);
    }
    if a != [] {
      StrLessAsymmetric(a[1..], a[1..]);
    }
  }
}
