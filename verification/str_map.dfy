/** strMapN: a string-keyed map of loosely typed values, merged by precedence
    and read along dot-separated paths. */
module StrMaps {
  import opened Indexing
  import opened Strs

  /** A map entry: a string, a nested map, an []interface{}, a
      []map[string]interface{}, or anything else. */
  datatype Value =
    | Text(s: string)
    | Map(m: map<string, Value>)
    | List(xs: seq<Value>)
    | MapList(ms: seq<map<string, Value>>)
    | Other(id: int)

  // ---------------------------------------------------------------------------
  // Merging
  // ---------------------------------------------------------------------------

  /** The value the merge gives key `k`: b's value wins, except that two nested
      maps are merged in turn. */
  function MergedAt(a: map<string, Value>, b: map<string, Value>, k: string): Value
    requires k in a || k in b
    decreases Map(a), 0
  {
    if k !in b then a[k]
    else if k in a && a[k].Map? && b[k].Map? then Map(Merged(a[k].m, b[k].m))
    else b[k]
  }

  /** mergeMap's result, defined key by key. */
  function Merged(a: map<string, Value>, b: map<string, Value>): (r: map<string, Value>)
    ensures r.Keys == a.Keys + b.Keys
    ensures forall k :: k in a && k !in b ==> r[k] == a[k]
    ensures forall k :: k in b && !(k in a && a[k].Map? && b[k].Map?) ==> r[k] == b[k]
    decreases Map(a), 1
  {
    map k | k in a.Keys + b.Keys :: MergedAt(a, b, k)
  }

  /** Merging in nothing changes nothing, and merging into nothing gives the
      other map: the shortcuts at the top of mergeMap agree with the general case. */
  lemma MergedEmpty(a: map<string, Value>)
    ensures Merged(a, map[]) == a && Merged(map[], a) == a
  {
  }

  /** Merging a map into itself gives the map back. */
  lemma {:induction false} MergedIdempotent(a: map<string, Value>)
    ensures Merged(a, a) == a
    decreases Map(a)
  {
    forall k | k in a
      ensures Merged(a, a)[k] == a[k]
    {
      if a[k].Map? {
        MergedIdempotent(a[k].m);
      }
    }
  }

  /** mergeMap(a, b): b takes precedence. Both empty gives a new empty map, one
      side empty gives the other; otherwise every key of b is written into a. */
  method MergeMap(a: map<string, Value>, b: map<string, Value>) returns (r: map<string, Value>)
    ensures r == Merged(a, b)
    decreases Map(a)
  {
    if |a| == 0 && |b| == 0 {
      return map[];
    }
    if |a| == 0 {
      MergedEmpty(b);
      return b;
    }
    if |b| == 0 {
      MergedEmpty(a);
      return a;
    }
    r := a;
    var todo := b.Keys;
    while todo != {}
      invariant todo <= b.Keys
      invariant r.Keys == a.Keys + (b.Keys - todo)
      invariant forall k :: k in r && k !in b.Keys - todo ==> r[k] == a[k]
      invariant forall k :: k in b.Keys - todo ==> r[k] == MergedAt(a, b, k)
      decreases todo
    {
      var k :| k in todo;
      if k !in r {
        r := r[k := b[k]];
      } else if b[k].Map? && r[k].Map? {
        var sub := MergeMap(r[k].m, b[k].m);
        r := r[k := Map(sub)];
      } else {
        r := r[k := b[k]];
      }
      todo := todo - {k};
    }
  }

  /** Merge: the maps folded in left to right, nils skipped. */
  function MergeAll(acc: map<string, Value>, items: seq<Option<map<string, Value>>>): (r: map<string, Value>)
    ensures acc.Keys <= r.Keys
    ensures forall i :: 0 <= i < |items| && items[i].Some? ==> items[i].value.Keys <= r.Keys
    decreases |items|
  {
    if items == [] then acc
    else
      var next := if items[0].Some? then Merged(acc, items[0].value) else acc;
      var r := MergeAll(next, items[1..]);
      assert forall i :: 1 <= i < |items| ==> items[1..][i - 1] == items[i];
      r
  }

  /** The last map that holds a plain value at a key decides it. */
  lemma {:induction false} MergeAllLastWins(acc: map<string, Value>, items: seq<Option<map<string, Value>>>, i: nat, k: string)
    requires i < |items| && items[i].Some? && k in items[i].value && !items[i].value[k].Map?
    requires forall j :: i < j < |items| && items[j].Some? ==> k !in items[j].value
    ensures MergeAll(acc, items)[k] == items[i].value[k]
    decreases |items|
  {
    var next := if items[0].Some? then Merged(acc, items[0].value) else acc;
    assert forall j :: 1 <= j < |items| ==> items[1..][j - 1] == items[j];
    if i == 0 {
      MergeAllAvoids(next, items[1..], k);
    } else {
      MergeAllLastWins(next, items[1..], i - 1, k);
    }
  }

  /** Maps without the key leave it as it was. */
  lemma {:induction false} MergeAllAvoids(acc: map<string, Value>, items: seq<Option<map<string, Value>>>, k: string)
    requires k in acc
    requires forall j :: 0 <= j < |items| && items[j].Some? ==> k !in items[j].value
    ensures MergeAll(acc, items)[k] == acc[k]
    decreases |items|
  {
    if items != [] {
      var next := if items[0].Some? then Merged(acc, items[0].value) else acc;
      assert forall j :: 1 <= j < |items| ==> items[1..][j - 1] == items[j];
      MergeAllAvoids(next, items[1..], k);
    }
  }

  // ---------------------------------------------------------------------------
  // The map object
  // ---------------------------------------------------------------------------

  class StrMap {
    var v: map<string, Value>

    /** NewStrMap. */
    constructor ()
      ensures v == map[]
    {
      v := map[];
    }

    /** M: wraps an existing map. */
    constructor FromMap(other: map<string, Value>)
      ensures v == other
    {
      v := other;
    }

    /** Add: sets one key, leaving every other key as it was. */
    method Add(key: string, value: Value)
      modifies this
      ensures v == old(v)[key := value]
    {
      v := v[key := value];
    }

    /** Add of another map object stores its map. */
    method AddMap(key: string, value: StrMap)
      modifies this
      ensures v == old(v)[key := Map(old(value.v))]
    {
      v := v[key := Map(value.v)];
    }

    /** Merge: merges the maps in, left to right, skipping nils; later maps
        take precedence. */
    method Merge(items: seq<Option<map<string, Value>>>)
      modifies this
      ensures v == MergeAll(old(v), items)
    {
      for i := 0 to |items|
        invariant MergeAll(old(v), items) == MergeAll(v, items[i..])
      {
        assert items[i..][1..] == items[i + 1..];
        if items[i].Some? {
          v := MergeMap(v, items[i].value);
        }
      }
    }

    /** MergeN: Merge of the maps other map objects hold. Merging the receiver
        into itself merges its current map, which changes nothing. */
    method MergeN(items: seq<StrMap?>)
      modifies this
      ensures v == MergeAll(old(v), old(Held(items)))
    {
      ghost var held := Held(items);
      for i := 0 to |items|
        invariant MergeAll(old(v), held) == MergeAll(v, held[i..])
        invariant forall j :: i <= j < |items| && items[j] != null && items[j] != this ==> held[j] == Some(items[j].v)
        invariant forall j :: i <= j < |items| && items[j] == this ==> held[j] == Some(map[])
        invariant forall j :: i <= j < |items| && items[j] == null ==> held[j] == None
      {
        assert held[i..][1..] == held[i + 1..];
        if items[i] != null {
          if items[i] == this {
            MergedIdempotent(v);
            MergedEmpty(v);
          }
          v := MergeMap(v, items[i].v);
        }
      }
    }

    /** The maps the objects hold, reading the receiver's entry as empty (the
        receiver merged into itself is a no-op). */
    function Held(items: seq<StrMap?>): (r: seq<Option<map<string, Value>>>)
      reads this, set x | x in items && x != null
      ensures |r| == |items|
      ensures forall i :: 0 <= i < |items| && items[i] == null ==> r[i] == None
      ensures forall i :: 0 <= i < |items| && items[i] != null && items[i] != this ==> r[i] == Some(items[i].v)
      ensures forall i :: 0 <= i < |items| && items[i] == this ==> r[i] == Some(map[])
    {
      if items == [] then []
      else
        var first := if items[0] == null then None else if items[0] == this then Some(map[]) else Some(items[0].v);
        [first] + Held(items[1..])
    }
  }

  // ---------------------------------------------------------------------------
  // Path lookups
  // ---------------------------------------------------------------------------

  /** The first segment of a dotted path. */
  function Head(path: string): string
  {
    Split(path, ".")[0]
  }

  /** The segments after the first, joined again. */
  function Tail(path: string): string
  {
    Join(Split(path, ".")[1..], ".")
  }

  /** A key followed by a dot and a path splits into that key and that path. */
  lemma PathCons(k: string, rest: string)
    requires !Contains(k, ".")
    ensures Head(k + "." + rest) == k && Tail(k + "." + rest) == rest
    ensures |Split(k + "." + rest, ".")| > 1
  {
    var p := k + "." + rest;
    assert MatchAt(p, ".", |k|);
    forall j | 0 <= j < |k|
      ensures !MatchAt(p, ".", j)
    {
      assert p[j..j + 1] == k[j..j + 1];
      assert !MatchAt(k, ".", j);
    }
    var i := Find(p, ".").value;
    assert i == |k|;
    SplitAtFirst(p, ".", i);
    assert p[..i] == k && p[i + 1..] == rest;
    JoinSplit(rest, ".");
    assert Split(p, ".")[1..] == Split(rest, ".");
  }

  /** A key without a dot is a path of one segment. */
  lemma PathSingle(k: string)
    requires !Contains(k, ".")
    ensures Split(k, ".") == [k]
  {
  }

  /** Str: walks the path through nested maps and returns the first string
      reached; a missing key or a value of another kind gives "". A path that
      runs out on a map goes on with the empty key. */
  function StrAt(m: map<string, Value>, path: string): (r: string)
    ensures Head(path) !in m ==> r == ""
    decreases Map(m)
  {
    var k := Head(path);
    if k !in m then ""
    else
      match m[k]
      case Text(s) => s
      case Map(x) => StrAt(x, Tail(path))
      case _ => ""
  }

  /** Str of `k.rest` finds the string at `k`, or descends into the map at `k`
      with `rest`, or gives "". */
  lemma StrAtCons(m: map<string, Value>, k: string, rest: string)
    requires !Contains(k, ".")
    ensures k !in m ==> StrAt(m, k + "." + rest) == ""
    ensures k in m && m[k].Text? ==> StrAt(m, k + "." + rest) == m[k].s
    ensures k in m && m[k].Map? ==> StrAt(m, k + "." + rest) == StrAt(m[k].m, rest)
    ensures k in m && !m[k].Text? && !m[k].Map? ==> StrAt(m, k + "." + rest) == ""
  {
    PathCons(k, rest);
  }

  /** Str of a single key is the string stored under it, if any. */
  lemma StrAtKey(m: map<string, Value>, k: string)
    requires !Contains(k, ".")
    ensures k in m && m[k].Text? ==> StrAt(m, k) == m[k].s
    ensures (k !in m || (!m[k].Text? && !m[k].Map?)) ==> StrAt(m, k) == ""
  {
    PathSingle(k);
  }

  /** StrMap: walks the path through nested maps and returns the map at its
      end; a missing key or a non-map value anywhere gives an empty map. */
  function StrMapAt(m: map<string, Value>, path: string): (r: map<string, Value>)
    ensures !(Head(path) in m && m[Head(path)].Map?) ==> r == map[]
    decreases Map(m)
  {
    var keys := Split(path, ".");
    var k := keys[0];
    if k in m && m[k].Map? then
      if |keys| > 1 then StrMapAt(m[k].m, Join(keys[1..], ".")) else m[k].m
    else map[]
  }

  /** StrMap of `k.rest` descends into the map at `k` with `rest`. */
  lemma StrMapAtCons(m: map<string, Value>, k: string, rest: string)
    requires !Contains(k, ".")
    ensures k in m && m[k].Map? ==> StrMapAt(m, k + "." + rest) == StrMapAt(m[k].m, rest)
    ensures !(k in m && m[k].Map?) ==> StrMapAt(m, k + "." + rest) == map[]
  {
    PathCons(k, rest);
  }

  /** StrMap of a single key is the map stored under it. */
  lemma StrMapAtKey(m: map<string, Value>, k: string)
    requires !Contains(k, ".")
    ensures k in m && m[k].Map? ==> StrMapAt(m, k) == m[k].m
  {
    PathSingle(k);
  }

  /** unCastStrMapSlice's result: each map as an element, in order. */
  function Uncast(ms: seq<map<string, Value>>): (r: seq<Value>)
    ensures |r| == |ms| && forall i :: 0 <= i < |ms| ==> r[i] == Map(ms[i])
  {
    seq(|ms|, i requires 0 <= i < |ms| => Map(ms[i]))
  }

  /** unCastStrMapSlice: appends each map in turn. */
  method UnCastStrMapSlice(ms: seq<map<string, Value>>) returns (r: seq<Value>)
    ensures r == Uncast(ms)
  {
    r := [];
    for i := 0 to |ms|
      invariant r == Uncast(ms[..i])
    {
      r := r + [Map(ms[i])];
    }
    assert ms[..|ms|] == ms;
  }

  /** Slice: walks the path like Str; an []interface{} leaf is returned as it
      is, a []map leaf element by element, anything else as nil (None). */
  function SliceAt(m: map<string, Value>, path: string): (r: Option<seq<Value>>)
    ensures Head(path) !in m ==> r == None
    decreases Map(m)
  {
    var k := Head(path);
    if k !in m then None
    else
      match m[k]
      case Map(x) => SliceAt(x, Tail(path))
      case MapList(ms) => Some(Uncast(ms))
      case List(xs) => Some(xs)
      case _ => None
  }

  /** Slice of a single key is the list stored under it. */
  lemma SliceAtKey(m: map<string, Value>, k: string)
    requires !Contains(k, ".")
    ensures k in m && m[k].List? ==> SliceAt(m, k) == Some(m[k].xs)
    ensures k in m && m[k].MapList? ==> SliceAt(m, k) == Some(Uncast(m[k].ms))
    ensures k in m && (m[k].Text? || m[k].Other?) ==> SliceAt(m, k) == None
  {
    PathSingle(k);
  }

  /** Slice of `k.rest` descends into the map at `k` with `rest`. */
  lemma SliceAtCons(m: map<string, Value>, k: string, rest: string)
    requires !Contains(k, ".")
    ensures k in m && m[k].Map? ==> SliceAt(m, k + "." + rest) == SliceAt(m[k].m, rest)
  {
    PathCons(k, rest);
  }

  /** The list element StrMapByName is looking for: a map whose field `k` is
      the string `v`. */
  predicate Names(x: Value, k: string, v: string)
  {
    x.Map? && k in x.m && x.m[k] == Text(v)
  }

  /** StrMapByName: the first map in the list at `key` whose field `k` is the
      string `v`, else an empty map. */
  method StrMapByName(m: map<string, Value>, key: string, k: string, v: string) returns (r: map<string, Value>)
    ensures var xs := if SliceAt(m, key).Some? then SliceAt(m, key).value else [];
      ((exists i :: 0 <= i < |xs| && Names(xs[i], k, v)) ==>
         exists i :: 0 <= i < |xs| && Names(xs[i], k, v) && r == xs[i].m &&
           forall j :: 0 <= j < i ==> !Names(xs[j], k, v)) &&
      ((forall i :: 0 <= i < |xs| ==> !Names(xs[i], k, v)) ==> r == map[])
  {
    r := map[];
    var slice := SliceAt(m, key);
    var xs := if slice.Some? then slice.value else [];
    for i := 0 to |xs|
      invariant forall j :: 0 <= j < i ==> !Names(xs[j], k, v)
      invariant r == map[]
    {
      if xs[i].Map? && k in xs[i].m && xs[i].m[k] == Text(v) {
        return xs[i].m;
      }
    }
  }
}
