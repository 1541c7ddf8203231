/** Reference definitions over plain sequences that the containers' mutators
    are proved against: selection by a predicate, first-occurrence
    de-duplication, reversal and sorting. */
module Seqs {

  // ---------------------------------------------------------------------------
  // Selection by a predicate (DropW, TakeW, Select)
  // ---------------------------------------------------------------------------

  /** The elements of `s` on which `p` answers `want`, in their original order. */
  function Select<T>(s: seq<T>, p: T -> bool, want: bool): (r: seq<T>)
    ensures |r| <= |s|
    ensures forall k :: 0 <= k < |r| ==> p(r[k]) == want
  {
    if s == [] then []
    else
      assert s == s[..|s| - 1] + [s[|s| - 1]];
      Select(s[..|s| - 1], p, want) + (if p(s[|s| - 1]) == want then [s[|s| - 1]] else [])
  }

  /** Selecting after one more element extends the selection by that element or by nothing. */
  lemma SelectSnoc<T>(s: seq<T>, x: T, p: T -> bool, want: bool)
    ensures Select(s + [x], p, want) == Select(s, p, want) + (if p(x) == want then [x] else [])
  {
    assert (s + [x])[..|s + [x]| - 1] == s;
  }

  /** One more element of `s` consumed by a selection loop. */
  lemma SelectStep<T>(s: seq<T>, k: nat, p: T -> bool, want: bool)
    requires k < |s|
    ensures Select(s[..k + 1], p, want) == Select(s[..k], p, want) + (if p(s[k]) == want then [s[k]] else [])
  {
    assert s[..k + 1] == s[..k] + [s[k]];
    SelectSnoc(s[..k], s[k], p, want);
  }

  /** Deleting the element at position |done| of `done + rest` deletes the head of `rest`. */
  lemma DropHead<T>(done: seq<T>, rest: seq<T>)
    requires rest != []
    ensures (done + rest)[|done|] == rest[0]
    ensures (done + rest)[..|done|] + (done + rest)[|done| + 1..] == done + rest[1..]
  {
    assert (done + rest)[..|done|] == done;
    assert (done + rest)[|done| + 1..] == rest[1..];
  }

  lemma SeqAssoc<T>(a: seq<T>, b: seq<T>, c: seq<T>)
    ensures a + (b + c) == (a + b) + c
  {
  }

  /** The matching and the non-matching elements together are exactly the original elements. */
  lemma {:induction false} SelectPartition<T>(s: seq<T>, p: T -> bool)
    ensures multiset(Select(s, p, true)) + multiset(Select(s, p, false)) == multiset(s)
  {
    if s != [] {
      var init, x := s[..|s| - 1], s[|s| - 1];
      SelectPartition(init, p);
      assert s == init + [x];
    }
  }

  /** An element is selected exactly when it occurs in `s` and `p` gives the wanted verdict. */
  lemma {:induction false} SelectMembers<T>(s: seq<T>, p: T -> bool, want: bool, x: T)
    ensures x in Select(s, p, want) <==> x in s && p(x) == want
  {
    if s != [] {
      var init := s[..|s| - 1];
      SelectMembers(init, p, want, x);
      assert s == init + [s[|s| - 1]];
    }
  }

  /** Selecting the elements equal to `y` keeps as many elements as `s` has copies of `y`. */
  lemma {:induction false} SelectCount<T>(s: seq<T>, p: T -> bool, y: T)
    requires forall x :: p(x) <==> x == y
    ensures |Select(s, p, true)| == multiset(s)[y]
  {
    if s != [] {
      var init := s[..|s| - 1];
      SelectCount(init, p, y);
      assert s == init + [s[|s| - 1]];
    }
  }

  // ---------------------------------------------------------------------------
  // First-occurrence de-duplication (Uniq, UniqM)
  // ---------------------------------------------------------------------------

  predicate NoDup<T(==)>(s: seq<T>)
  {
    forall a, b :: 0 <= a < b < |s| ==> s[a] != s[b]
  }

  /** `s` with every element after its first occurrence removed. */
  function Dedup<T(==,!new)>(s: seq<T>): (r: seq<T>)
    ensures |r| <= |s|
  {
    if s == [] then []
    else
      var init, x := s[..|s| - 1], s[|s| - 1];
      if x in init then Dedup(init) else Dedup(init) + [x]
  }

  /** De-duplication drops no value entirely, adds none, and leaves no duplicate. */
  lemma {:induction false} DedupSpec<T(!new)>(s: seq<T>)
    ensures forall x :: x in Dedup(s) <==> x in s
    ensures NoDup(Dedup(s))
  {
    if s != [] {
      var init, x := s[..|s| - 1], s[|s| - 1];
      assert s == init + [x];
      DedupSpec(init);
    }
  }

  lemma DedupSnoc<T(!new)>(s: seq<T>, x: T)
    ensures Dedup(s + [x]) == if x in s then Dedup(s) else Dedup(s) + [x]
  {
    assert (s + [x])[..|s|] == s;
  }

  /** One more element of `s` consumed by a de-duplication loop. */
  lemma DedupStep<T(!new)>(s: seq<T>, k: nat)
    requires k < |s|
    ensures Dedup(s[..k + 1]) == if s[k] in s[..k] then Dedup(s[..k]) else Dedup(s[..k]) + [s[k]]
  {
    assert s[..k + 1] == s[..k] + [s[k]];
    DedupSnoc(s[..k], s[k]);
  }

  /** A duplicate-free sequence is its own de-duplication. */
  lemma {:induction false} DedupOfNoDup<T(!new)>(s: seq<T>)
    requires NoDup(s)
    ensures Dedup(s) == s
  {
    if s != [] {
      var init, x := s[..|s| - 1], s[|s| - 1];
      assert NoDup(init);
      DedupOfNoDup(init);
      forall a | 0 <= a < |init|
        ensures init[a] != x
      {
        assert s[a] != s[|s| - 1];
      }
    }
  }

  /** De-duplicating twice is de-duplicating once. */
  lemma DedupIdempotent<T(!new)>(s: seq<T>)
    ensures Dedup(Dedup(s)) == Dedup(s)
  {
    DedupSpec(s);
    DedupOfNoDup(Dedup(s));
  }

  /** The position of the first occurrence of `x` in `s`. */
  function FirstIndex<T(==)>(s: seq<T>, x: T): (k: nat)
    requires x in s
    ensures k < |s| && s[k] == x
    ensures forall m :: 0 <= m < k ==> s[m] != x
  {
    if s[0] == x then 0
    else
      assert x in s[1..] by { var a :| 0 <= a < |s| && s[a] == x; assert s[1..][a - 1] == x; }
      1 + FirstIndex(s[1..], x)
  }

  /** Appending leaves the first occurrence of a value already present where it was. */
  lemma FirstIndexPrefix<T>(s: seq<T>, x: T, y: T)
    requires y in s
    ensures y in s + [x] && FirstIndex(s + [x], y) == FirstIndex(s, y)
  {
    var k := FirstIndex(s, y);
    assert (s + [x])[k] == y;
  }

  /** De-duplication keeps values in the order of their first occurrences. */
  lemma {:induction false} DedupKeepsFirstOrder<T(!new)>(s: seq<T>, a: nat, b: nat)
    requires a < b < |Dedup(s)|
    ensures Dedup(s)[a] in s && Dedup(s)[b] in s
    ensures FirstIndex(s, Dedup(s)[a]) < FirstIndex(s, Dedup(s)[b])
  {
    DedupSpec(s);
    var init, x := s[..|s| - 1], s[|s| - 1];
    assert s == init + [x];
    var d := Dedup(init);
    DedupSpec(init);
    var u, v := Dedup(s)[a], Dedup(s)[b];
    assert u == d[a] && u in init;
    FirstIndexPrefix(init, x, u);
    if x !in init && b == |d| {
      assert v == x;
      assert s[|init|] == v;
    } else {
      assert v == d[b] && v in init;
      FirstIndexPrefix(init, x, v);
      DedupKeepsFirstOrder(init, a, b);
    }
  }

  /** De-duplicating a longer sequence keeps the de-duplication of its prefix
      as a prefix: a union lists the receiver's distinct values first. */
  lemma {:induction false} DedupAppendPrefix<T(!new)>(a: seq<T>, b: seq<T>)
    ensures Dedup(a) <= Dedup(a + b)
  {
    if b == [] {
      assert a + b == a;
    } else {
      var b', x := b[..|b| - 1], b[|b| - 1];
      assert a + b == (a + b') + [x];
      DedupAppendPrefix(a, b');
      DedupSnoc(a + b', x);
    }
  }

  // ---------------------------------------------------------------------------
  // Reversal (Reverse, ReverseM)
  // ---------------------------------------------------------------------------

  function Reversed<T>(s: seq<T>): (r: seq<T>)
    ensures |r| == |s|
  {
    if s == [] then [] else [s[|s| - 1]] + Reversed(s[..|s| - 1])
  }

  /** Position k of the reversal holds position |s|-1-k of the original. */
  lemma {:induction false} ReversedAt<T>(s: seq<T>, k: nat)
    requires k < |s|
    ensures Reversed(s)[k] == s[|s| - 1 - k]
  {
    if k > 0 {
      ReversedAt(s[..|s| - 1], k - 1);
    }
  }

  lemma ReversedIndex<T>(s: seq<T>)
    ensures forall k :: 0 <= k < |s| ==> Reversed(s)[k] == s[|s| - 1 - k]
  {
    forall k | 0 <= k < |s|
      ensures Reversed(s)[k] == s[|s| - 1 - k]
    {
      ReversedAt(s, k);
    }
  }

  /** Reversing twice gives the original back. */
  lemma ReversedInvolution<T>(s: seq<T>)
    ensures Reversed(Reversed(s)) == s
  {
    forall k | 0 <= k < |s|
      ensures Reversed(Reversed(s))[k] == s[k]
    {
      ReversedAt(Reversed(s), k);
      ReversedAt(s, |s| - 1 - k);
    }
  }

  /** Reversal is a permutation. */
  lemma {:induction false} ReversedMultiset<T>(s: seq<T>)
    ensures multiset(Reversed(s)) == multiset(s)
  {
    if s != [] {
      ReversedMultiset(s[..|s| - 1]);
      assert s == s[..|s| - 1] + [s[|s| - 1]];
    }
  }

  // ---------------------------------------------------------------------------
  // Sorting (Sort, SortM, SortReverse, SortReverseM)
  // ---------------------------------------------------------------------------

  predicate Ascending(s: seq<int>)
  {
    forall a, b :: 0 <= a < b < |s| ==> s[a] <= s[b]
  }

  predicate Descending(s: seq<int>)
  {
    forall a, b :: 0 <= a < b < |s| ==> s[a] >= s[b]
  }

  function InsertSorted(x: int, s: seq<int>): (r: seq<int>)
    requires Ascending(s)
    ensures Ascending(r)
    ensures multiset(r) == multiset(s) + multiset{x}
    ensures |r| == |s| + 1 && (r[0] == x || (|s| > 0 && r[0] == s[0]))
  {
    if s == [] || x <= s[0] then [x] + s
    else
      assert s == [s[0]] + s[1..];
      var t := InsertSorted(x, s[1..]);
      assert s[0] <= t[0];
      [s[0]] + t
  }

  /** The ascending arrangement of the elements of `s`. */
  function SortAsc(s: seq<int>): (r: seq<int>)
    ensures Ascending(r)
    ensures multiset(r) == multiset(s)
  {
    if s == [] then []
    else
      assert s == [s[0]] + s[1..];
      InsertSorted(s[0], SortAsc(s[1..]))
  }

  /** The head of an ascending sequence is its least element. */
  lemma AscendingHead(a: seq<int>, x: int)
    requires Ascending(a) && x in multiset(a)
    ensures a[0] <= x
  {
    var i :| 0 <= i < |a| && a[i] == x;
  }

  /** Equal multisets with equal heads have equal tails. */
  lemma MultisetTails(a: seq<int>, b: seq<int>)
    requires a != [] && b != [] && a[0] == b[0] && multiset(a) == multiset(b)
    ensures multiset(a[1..]) == multiset(b[1..])
  {
    var h := a[0];
    assert a == [h] + a[1..] && b == [h] + b[1..];
    forall y
      ensures multiset(a[1..])[y] == multiset(b[1..])[y]
    {
      assert multiset(a)[y] == multiset{h}[y] + multiset(a[1..])[y];
      assert multiset(b)[y] == multiset{h}[y] + multiset(b[1..])[y];
    }
  }

  /** A sequence has exactly one ascending arrangement, so the outcome of any
      correct sort is determined by its input. */
  lemma {:induction false} AscendingUnique(a: seq<int>, b: seq<int>)
    requires Ascending(a) && Ascending(b) && multiset(a) == multiset(b)
    ensures a == b
  {
    if a != [] {
      assert b != [] by { assert a[0] in multiset(b); }
      AscendingHead(b, a[0]);
      AscendingHead(a, b[0]);
      MultisetTails(a, b);
      AscendingUnique(a[1..], b[1..]);
      assert a == [a[0]] + a[1..] && b == [b[0]] + b[1..];
    }
  }

  /** Reversing an ascending sequence gives a descending one. */
  lemma ReversedAscending(s: seq<int>)
    requires Ascending(s)
    ensures Descending(Reversed(s))
  {
    forall a, b | 0 <= a < b < |s|
      ensures Reversed(s)[a] >= Reversed(s)[b]
    {
      ReversedAt(s, a);
      ReversedAt(s, b);
    }
  }
}
