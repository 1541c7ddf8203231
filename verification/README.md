# n: sequence containers, nested string maps and string helpers

This project models the core of the Go package `n` in Dafny. The package's
containers share Ruby-style indexing. Indices are inclusive, and a negative
index counts from the end. The project has six modules:

- `Indexing` covers the index rules every container shares. `absIndex` finds
  the position a single index addresses. `absIndices` and the inline window
  arithmetic of `NSlice.Slice`/`NSlice.Copy` turn a pair of indices into a
  half-open window, or report that the pair selects nothing or would be an
  invalid Go slice expression. `absIndex`, `absIndices`, `abs`, `absNeg`,
  `NewIntMapBool` and `strSliceN` are not part of this model's source files:
  their behaviour is reconstructed from how their callers use them. That
  includes the choice to report an index pair that gives an invalid window as
  an error.
- `Seqs` holds the specification functions the containers are proved against:
  - `Select`, a filter;
  - `Dedup`, first occurrences in order;
  - `Reversed`;
  - `Ascending`/`Descending` and `SortAsc`.
- `IntSlices` models `IntSlice`, an `[]int` changed in place. It is a class
  over a `seq<int>`.
- `NSlices` models `NSlice`, the type-erased slice. The class holds:
  - the element type of the underlying slice, with no type meaning the Nil slice;
  - the elements;
  - the cached `len`.

  Its invariant `Valid()` says three things: `len` is the element count, the
  Nil slice is empty, and every element fits the element type. The
  bool/int/string fast paths and the reflection path are one model. A panic is
  a `Panic` value returned beside the state Go leaves behind.
- `Strs` models `strN` and the `strings` functions it relies on: `Index`,
  `Split`, `Join`, `TrimLeftFunc`/`TrimRightFunc` with `unicode.IsSpace`, and
  `strconv.Itoa`.
- `StrMaps` models `strMapN`. It covers the precedence merge `mergeMap`,
  `Merge`/`MergeN`, and the dotted-path lookups `Str`, `StrMap`, `Slice` and
  `StrMapByName`, over a `Value` datatype. The lookups take the map `m.v` as an
  argument.

## Model

| member | source | states |
|---|---|---|
| Indexing.AbsIndex | slice_int.go:114-124 | An index in [0,len) is itself and one in [-len,0) is len+i; anything else is -1, never clamped. |
| Indexing.Window | slice.go:488-517 | After shifting negatives, start > end selects nothing. Otherwise the start is raised to 0 and the end lowered to len-1, giving [max(0,i), min(len,j+1)); a start beyond len or an end below -1 is an invalid slice expression. |
| Indexing.AbsIndices | slice_int.go:168-183 | No index is the whole range, two indices are their window, any other count or a non-range window is an error; a result is a window within [0,len]. |
| Indexing.FirstNWindow | slice.go:819-825 | The window [0, n-1] holds the first min(n, len) positions. |
| Indexing.LastNWindow | slice.go:934-940 | The window [-n, -1] holds the last min(n, len) positions. |
| Seqs.SelectPartition | slice_int.go:266-279 | The selected and the rejected elements of a sequence together are a permutation of it. |
| Seqs.SelectMembers | slice_int.go:266-279 | A value survives the filter exactly when it occurs in the sequence and the selector gives the wanted verdict, so DropW keeps exactly the rejected values and TakeW takes exactly the accepted ones. |
| Seqs.SelectCount | slice_int.go:186-191 | Selecting by equality with y keeps exactly as many elements as y occurs. |
| Seqs.DedupSpec | slice_int.go:783-795 | Dedup keeps every value that occurs and only those, and has no duplicates. |
| Seqs.DedupKeepsFirstOrder | slice_int.go:783-795 | Dedup orders values by their first occurrence in the input. |
| Seqs.DedupIdempotent | slice_int.go:799-813 | Deduplicating twice is deduplicating once. |
| Seqs.DedupAppendPrefix | slice_int.go:771-779 | Dedup of a sequence is a prefix of Dedup of that sequence extended. |
| Seqs.ReversedInvolution | slice_int.go:573-589 | Reversing twice gives the sequence back. |
| Seqs.ReversedMultiset | slice_int.go:573-589 | Reversal is a permutation. |
| Seqs.SortAsc | slice_int.go:677-691 | The sort is ascending and a permutation of its input. |
| Seqs.AscendingUnique | slice_int.go:677-691 | Two ascending permutations of the same values are equal, so the sorted result is determined. |
| Seqs.ReversedAscending | slice_int.go:694-708 | Reversing an ascending sequence gives a descending one. |
| IntSlices.IntSlice.constructor | slice_int.go:16-19 | The new IntSlice holds the given ints. |
| IntSlices.IntSlice.At | slice_int.go:114-124 | Element i for 0 <= i < len, element len+i for -len <= i < 0, nothing otherwise. |
| IntSlices.IntSlice.Any | slice_int.go:35-56 | With no arguments: non-empty. Otherwise: non-empty and one of the int arguments occurs. |
| IntSlices.IntSlice.AnyS | slice_int.go:61-84 | An empty receiver gives false. Otherwise a nil *[]int or *IntSlice argument panics on the dereference. Any other result is true exactly when the argument is a supported slice sharing an element with the receiver. |
| IntSlices.IntSlice.Copy | slice_int.go:168-183 | An empty slice or an invalid index list copies nothing; otherwise the copy is exactly the normalised inclusive window. |
| IntSlices.IntSlice.CopyAll | slice_int.go:168-183 | Copy() is the whole slice. |
| IntSlices.IntSlice.CopyInclusive | slice_int.go:168-183 | Copy(i, j) of two addressable indices is elements i through j, both included. |
| IntSlices.IntSlice.CopyClamped | slice_int.go:168-183 | Indices beyond both ends clamp to the whole slice. |
| IntSlices.IntSlice.Index | slice_int.go:412-423 | -1 exactly when the int does not occur; otherwise the position of its first occurrence. |
| IntSlices.IntSlice.CountW | slice_int.go:194-204 | The count is the number of elements the selector accepts. |
| IntSlices.IntSlice.Count | slice_int.go:186-191 | The count is the multiplicity of the int; 0 for a non-int. |
| IntSlices.IntSlice.EachE | slice_int.go:295-306 | No error exactly when the action succeeds on every element; otherwise the error is the first failing element's. |
| IntSlices.IntSlice.Reverse | slice_int.go:573-578 | The result is the elements in reverse order; the receiver is unchanged. |
| IntSlices.IntSlice.Sort | slice_int.go:677-682 | The result is an ascending permutation of the elements. |
| IntSlices.IntSlice.SortReverse | slice_int.go:694-699 | The result is a descending permutation of the elements. |
| IntSlices.IntSlice.Union | slice_int.go:771-773 | A nil pointer argument panics. Otherwise the result is Dedup of the receiver followed by the argument's ints: each value of either side exactly once, at its first occurrence, so the receiver's values come first and the argument's new values follow in argument order. |
| IntSlices.IntSlice.Uniq | slice_int.go:783-795 | The loop with its seen-set returns Dedup of the elements. |
| IntSlices.IntSlice.Append | slice_int.go:92-100 | An int is appended; any other value changes nothing. |
| IntSlices.IntSlice.ConcatM | slice_int.go:144-159 | The ints of a supported slice argument are appended in order. A nil pointer argument panics with nothing appended. Any other argument changes nothing. |
| IntSlices.IntSlice.Insert | slice_int.go:430-455 | Inserts before element i for i >= 0 and after element len+i for i < 0 (-1 appends); an empty slice appends; a bad index or a non-int changes nothing. |
| IntSlices.IntSlice.SetE | slice_int.go:614-630 | A bad index is an out-of-bounds error, a non-int a type error, each changing nothing; otherwise only the addressed slot changes. |
| IntSlices.IntSlice.Set | slice_int.go:607-610 | SetE with the error dropped. |
| IntSlices.IntSlice.Swap | slice_int.go:725-730 | Exchanges two in-range elements; any other index changes nothing. |
| IntSlices.IntSlice.Drop | slice_int.go:211-230 | Removes exactly the normalised inclusive window and keeps the rest in order; an empty slice or an invalid index list changes nothing. |
| IntSlices.IntSlice.Clear | slice_int.go:127-134 | Drop() empties the slice. |
| IntSlices.IntSlice.DropAt | slice_int.go:234-236 | Removes the one element the index addresses, if any. |
| IntSlices.IntSlice.DropFirst | slice_int.go:239-241 | Removes the first element of a non-empty slice. |
| IntSlices.IntSlice.DropFirstN | slice_int.go:244-249 | Removes the first min(abs(n), len) elements. |
| IntSlices.IntSlice.DropLast | slice_int.go:252-254 | Removes the last element of a non-empty slice. |
| IntSlices.IntSlice.DropLastN | slice_int.go:257-262 | Removes the last min(abs(n), len) elements. |
| IntSlices.IntSlice.DropW | slice_int.go:266-279 | What remains is exactly the rejected elements, in order. |
| IntSlices.IntSlice.TakeW | slice_int.go:752-767 | Returns the accepted elements in order and leaves the rejected ones in order. |
| IntSlices.IntSlice.UniqM | slice_int.go:799-813 | The in-place loop leaves Dedup of the old elements. |
| IntSlices.IntSlice.UnionM | slice_int.go:777-779 | A nil pointer argument panics with the receiver unchanged. Otherwise the receiver becomes Dedup of its elements followed by the argument's. |
| IntSlices.IntSlice.Take | slice_int.go:737-741 | Returns what Copy would; the removed window spliced back into the remainder gives the original. |
| IntSlices.IntSlice.TakeAt | slice_int.go:745-749 | Returns what At would; that element spliced back gives the original. |
| IntSlices.IntSlice.Pop | slice_int.go:551-555 | Nothing exactly when empty; remainder plus the popped element is the original. |
| IntSlices.IntSlice.PopN | slice_int.go:558-565 | Takes min(abs(n), len) elements off the end; remainder plus them is the original. |
| IntSlices.IntSlice.Shift | slice_int.go:633-637 | Nothing exactly when empty; the shifted element plus the remainder is the original. |
| IntSlices.IntSlice.ShiftN | slice_int.go:640-647 | Takes min(abs(n), len) elements off the front; them plus the remainder is the original. |
| IntSlices.IntSlice.ReverseM | slice_int.go:581-589 | The two-pointer swap loop leaves the reversal of the old elements. |
| IntSlices.IntSlice.SortM | slice_int.go:685-691 | Leaves an ascending permutation of the old elements. |
| IntSlices.IntSlice.SortReverseM | slice_int.go:702-708 | Leaves a descending permutation of the old elements. |
| NSlices.NewEmptyType | slice.go:128-162 | A nil slice gives []interface{}; a non-empty []interface{} takes its first element's type; any other slice keeps its type. |
| NSlices.NewSliceV | slice.go:93-123 | Leading nils are skipped and the first value fixes the type; no items or only nils give the Nil slice; it succeeds exactly when every later item is a non-nil value of that type, and then holds them in order. |
| NSlices.NSlice.Nil | slice.go:1018-1023 | Nil exactly when no underlying slice is set, and then it holds nothing. |
| NSlices.NSlice.Len | slice.go:949-954 | The length is the element count, 0 for the Nil slice. |
| NSlices.NSlice.Empty | slice.go:796-801 | Empty exactly when it holds no element (Nil or len == 0). |
| NSlices.NSlice.At | slice.go:432-452 | Element i for 0 <= i < len, element len+i for -len <= i < 0, nothing otherwise. |
| NSlices.NSlice.Any | slice.go:170-249 | Empty gives false and no arguments give true. With all arguments of the element type, true exactly when one occurs. Otherwise, at the first argument of another type: true if an earlier argument occurs; else a panic on the bool/int/string fast paths or when it is the first argument (so any argument to an []interface{} slice panics); else false on the reflection path. |
| NSlices.NSlice.AnyNoArgs | slice.go:170-180 | Any() is exactly non-emptiness. |
| NSlices.NSlice.Less | slice.go:962-986 | Only two in-range, different elements can be less. Bools order false before true, and ints and strings by value. Other element types are never less. |
| NSlices.StrLessAsymmetric | slice.go:962-986 | String order is irreflexive and never holds both ways. |
| NSlices.NSlice.Slice | slice.go:1113-1161 | An empty slice, or a start after the end, gives an empty slice of the derived type. The window is an error exactly when invalid. Otherwise it keeps the element type and holds [max(0,i), min(len,j+1)). |
| NSlices.NSlice.SliceInclusive | slice.go:1113-1161 | Slice(i, j) of two addressable indices is elements i through j inclusive. |
| NSlices.NSlice.SliceAll | slice.go:1113-1161 | Slice(0, -1) is everything. |
| NSlices.NSlice.Copy | slice.go:477-540 | An empty slice or one index copies nothing; no index or more than two copy everything; two indices give what Slice gives. |
| NSlices.NSlice.FirstN | slice.go:819-825 | For n != 0, the first min(abs(n), len) elements. |
| NSlices.NSlice.LastN | slice.go:934-940 | For n != 0, the last min(abs(n), len) elements. |
| NSlices.NSlice.FirstLastNZero | slice.go:819-825 | FirstN(0) and LastN(0) of a non-empty slice return every element. |
| NSlices.NSlice.FirstNFixed | slice.go:819-825 | The first min(abs(n), len) elements for every n, 0 included. |
| NSlices.NSlice.LastNFixed | slice.go:934-940 | The last min(abs(n), len) elements for every n, 0 included. |
| NSlices.NSlice.constructor | slice.go:54-86 | NewSlice of nothing is the Nil slice. |
| NSlices.NSlice.FromContents | slice.go:93-123 | The NSlice holding what NewSliceV computed. |
| NSlices.NSlice.Append | slice.go:325-361 | The Nil slice takes the item's type and holds just the item. A fitting item is appended. Any other item panics with nothing changed. |
| NSlices.NSlice.AppendV | slice.go:370-375 | The type is fixed by the receiver or the first item. No panic exactly when every item fits; then all are appended in order. A panic leaves the items before the first misfit appended. |
| NSlices.NSlice.AppendS | slice.go:385-424 | The Nil slice first becomes an empty slice of the argument's derived type. An argument of exactly the element type is appended; any other panics. |
| NSlices.NSlice.InsertAsWritten | slice.go:836-916 | On a non-empty []interface{} slice, Insert panics exactly when the index is 0, and nothing changes. |
| NSlices.NSlice.Insert | slice.go:836-916 | The corrected half of the slice.go:897-901 finding: index 0 of an []interface{} slice takes any value here, where InsertAsWritten panics. The Nil slice appends. An index that addresses nothing changes nothing. A misfit panics unchanged. Otherwise the value goes before element i for i >= 0, or after element len+i for i < 0. |
| NSlices.NSlice.PrependAny | slice.go:1050-1052 | The corrected half of the slice.go:897-901 finding, since it uses the corrected Insert (the code as written panics here). Prepending to a non-empty []interface{} slice puts the value first. |
| NSlices.NSlice.Prepend | slice.go:1050-1052 | The corrected half of the slice.go:897-901 finding, since it uses the corrected Insert: on a non-empty []interface{} slice the code as written panics instead. The Nil slice takes the value's type and holds just it. On a non-empty slice, a fitting value goes before the first element and a misfit panics with nothing changed. An empty non-Nil slice is unchanged. |
| NSlices.PrependToAnySliceAsWritten | slice.go:897-901 | Prepending 2 to the []interface{} slice [1] as written panics. |
| NSlices.PrependToAnySlice | slice.go:1050-1052 | Prepending 2 to the []interface{} slice [1] gives [2, 1]. |
| NSlices.NSlice.Set | slice.go:1060-1095 | The Nil slice ignores it. A bad index panics out of bounds and a misfit panics, each with nothing changed. Otherwise only the addressed slot changes. |
| NSlices.NSlice.Swap | slice.go:1196-1215 | Exchanges two in-range elements; any other index changes nothing. |
| NSlices.NSlice.Clear | slice.go:457-462 | Leaves an empty, non-Nil slice of the derived type; the Nil slice stays Nil. |
| NSlices.NSlice.Drop | slice.go:548-590 | Removes the element the index addresses, keeping order and type; otherwise nothing changes. |
| NSlices.NSlice.Take | slice.go:1223-1266 | Returns what At would; that element spliced back into the remainder gives the original. |
| NSlices.NSlice.DropFirstN | slice.go:628-654 | n == 0 or Nil: no change. A negative n panics. 0 < n <= len drops the first n. n > len leaves an empty, non-Nil slice of the derived type. |
| NSlices.NSlice.DropFirst | slice.go:597-621 | Drops the first element; an empty slice becomes an empty slice of the derived type. |
| NSlices.NSlice.DropLastN | slice.go:692-718 | n == 0 or Nil: no change. A negative n panics. 0 < n <= len drops the last n. n > len leaves an empty, non-Nil slice of the derived type. |
| NSlices.NSlice.DropLast | slice.go:661-685 | Drops the last element; an empty slice becomes an empty slice of the derived type. |
| Strs.Find | str.go:124-144 | strings.Index, which strings.Split (str.go:125) and SplitOn rely on: the first position where the separator occurs, or nothing exactly when it does not occur. |
| Strs.ContainsAny | str.go:52-59 | True exactly when some target occurs; false for no targets. |
| Strs.HasAnyPrefix | str.go:67-74 | True exactly when some target is a prefix; false for no targets. |
| Strs.HasAnySuffix | str.go:77-84 | True exactly when some target is a suffix; false for no targets. |
| Strs.SpaceLeft | str.go:111-121 | The longest whitespace prefix. |
| Strs.TrimSpaceLeft | str.go:157-159 | A suffix of the string whose first character is not whitespace, with only whitespace dropped. |
| Strs.SpaceLeftTrimSpaceLeft | str.go:111-121 | SpaceLeft(s) + TrimSpaceLeft(s) == s. |
| Strs.TrimSpaceRight | str.go:162-164 | A prefix of the string whose last character is not whitespace, with only whitespace dropped. |
| Strs.TrimSpace | str.go:152-154 | The result is the part of the string right after its leading whitespace, and only whitespace follows it. It neither starts nor ends with whitespace, so it is exactly the string with both whitespace runs removed. |
| Strs.Empty | str.go:62-64 | True exactly when every character is whitespace. |
| Strs.TrimPrefix | str.go:147-149 | Removes one leading occurrence when present, else nothing. |
| Strs.TrimSuffix | str.go:167-169 | Removes one trailing occurrence when present, else nothing. |
| Strs.TrimPrefixSuffixInverse | str.go:147-169 | Trimming undoes prepending or appending the same text once. |
| Strs.Split | str.go:124-126 | A non-empty separator always gives at least one piece. |
| Strs.JoinSplit | str.go:124-126 | Joining the pieces with the separator restores the string. |
| Strs.SplitPiecesAvoidSep | str.go:124-126 | No piece contains the separator. |
| Strs.SplitOn | str.go:130-144 | The empty string gives two empty parts. Its partner lemma SplitOnParts states the other cases. |
| Strs.SplitOnParts | str.go:130-144 | The parts concatenate to the string. Without the delimiter it is (s, ""). Otherwise the first part is the text before the first delimiter plus the delimiter, and the second is everything after it. |
| Strs.A | str.go:16-29 | A string is kept. Bytes become the string with one character of the same code per byte. An int gives "". Any other value gives its rendering. |
| Strs.AIntLosesValue | str.go:16-29 | A of an int is "", which no longer reads back as the int. |
| Strs.AFixed | str.go:16-29 | A with the int rendered, so its text reads back as the int; other arguments as A. |
| Strs.ItoaRoundTrip | str.go:16-29 | Parsing the decimal rendering of an int gives the int. |
| Strs.YamlType | str.go:175-186 | A lone quote panics. A value that starts and ends with a quote (not necessarily matching) is the inner text. "true"/"false" are bools. Anything else, a value quoted at one end only included, is a number when it parses as one and otherwise stays unchanged. |
| Strs.YamlQuoteRoundTrip | str.go:175-186 | Quoting any text and reading it back gives the text. |
| StrMaps.Merged | map.go:179-204 | The keys are the union. Keys only in a keep a's value. b's value wins except where both values are maps. |
| StrMaps.MergedEmpty | map.go:180-187 | Merging with an empty map gives the other map, matching mergeMap's shortcuts. |
| StrMaps.MergedIdempotent | map.go:179-204 | Merging a map into itself gives it back. |
| StrMaps.MergeMap | map.go:179-204 | The key-by-key loop, in whatever order it visits b's keys, computes Merged. |
| StrMaps.MergeAll | map.go:63-70 | Every key of the accumulator and of each merged map is in the result. |
| StrMaps.MergeAllLastWins | map.go:63-70 | The last map that holds a plain value at a key decides it. |
| StrMaps.MergeAllAvoids | map.go:63-70 | A key no merged map holds keeps its value. |
| StrMaps.StrMap.constructor | map.go:16-18 | NewStrMap is empty. |
| StrMaps.StrMap.FromMap | map.go:21-23 | M wraps the given map. |
| StrMaps.StrMap.Add | map.go:31-39 | Sets one key and leaves the others. |
| StrMaps.StrMap.AddMap | map.go:31-39 | Adding a map object stores its map. |
| StrMaps.StrMap.Merge | map.go:63-70 | The map becomes the left-to-right merge of the non-nil arguments. |
| StrMaps.StrMap.MergeN | map.go:74-81 | The map becomes the left-to-right merge of the non-nil objects' maps; merging the receiver into itself changes nothing. |
| StrMaps.PathCons | map.go:102-116 | A dotless key, a dot and a path split into that key and that path. |
| StrMaps.StrAt | map.go:102-116 | A missing first key gives "". |
| StrMaps.StrAtCons | map.go:102-116 | Str of k.rest: "" for a missing k, the string at k, a descent into the map at k with rest, or "" for another kind. |
| StrMaps.StrAtKey | map.go:102-116 | Str of a dotless key is the string under it, "" when missing or neither a string nor a map. |
| StrMaps.StrMapAt | map.go:119-134 | Unless the first key holds a map, the result is empty. |
| StrMaps.StrMapAtCons | map.go:119-134 | StrMap of k.rest descends into the map at k, else is empty. |
| StrMaps.StrMapAtKey | map.go:119-134 | StrMap of a dotless key is the map under it. |
| StrMaps.Uncast | map.go:207-214 | Each map becomes one element, in order. |
| StrMaps.UnCastStrMapSlice | map.go:207-214 | The append loop computes Uncast. |
| StrMaps.SliceAt | map.go:84-99 | A missing first key gives nil. |
| StrMaps.SliceAtKey | map.go:84-99 | A list leaf is returned as is, a []map leaf element by element, a string or other leaf as nil. |
| StrMaps.SliceAtCons | map.go:84-99 | Slice of k.rest descends into the map at k with rest. |
| StrMaps.StrMapByName | map.go:137-149 | The first map element of the list at the key whose field is that string; an empty map when none is. |

## Left out

- A nil `*IntSlice`, `*NSlice` or `*strMapN` receiver is not modelled: a
  class instance always exists.
- Storage sharing is not modelled. Containers hold `seq` and `map` values, so
  the model does not capture three things: that `NSlice.Slice` shares the
  original's storage while `Copy` does not; the capacity of Go slices; and
  that `mergeMap` writes into its first argument, which the caller then sees.
- Go's fixed-width `int` is not modelled; `n * -1` of the most negative int is
  not considered.
- Strings are sequences of characters rather than UTF-8 bytes. `string([]byte)`
  maps each byte to the character with the same code, which is exact for ASCII
  only.
- Exact panic and error texts are not modelled. A panic is its `Panic` kind.
- The reflection paths of NSlice are modelled through the element type. The
  element type is an abstract `Type` rather than the `reflect.SliceOf`/`MakeSlice`
  construction, and named types other than bool, int and string are
  `TNamed(name)`.
- Slice- and array-valued items are outside the model: `Value` has no slice or
  array values. So `newEmptySlice`'s slice branch (slice.go:140-144) is not
  modelled where Append, Insert and Prepend of such an item reach it on the Nil
  slice: Go builds a slice of the item's element type there and then panics,
  for example on `Append([]int{1})`. An item written as `Named("[]int", _)`
  would instead be appended.
- NSlices.NSlice.Less: the `Comparable` interface and `Object.Less` are not
  modelled, so named element types are never less.
- NSlices.NSlice.DropLastN: a negative n is modelled as a panic. In Go,
  `o[:len-n]` with n < 0 panics only when it runs past the capacity.
- Strs.YamlType: `strconv.ParseFloat(s, 32)` is the parameter `isFloat`. The
  float value is represented by the accepted text.
- Strs.A: the `%v` rendering of other values is supplied with the argument.
- These operations outside the modelled core are not modelled:
  - IntSlice: AnyW, AppendV, Concat, Each/EachI/EachIE/EachIR/EachIRE/EachR/EachRE,
    Empty, First, FirstN, Join, Last, LastN, Len, Less, Map, Nil, O, Pair,
    Prepend, Select, Single, Slice and String.
  - NSlice: AnyS, Each, EachE, First, Last, O, Pair, Single and Sort.
  - strN: B, Contains, HasPrefix, HasSuffix, Len, Q and Replace.
  - strMapN: Any, Equals, Len, M, Q, StrMapSlice, StrSlice and
    castStrMapSlice.
- The tar and os helpers, export.go and slice_ref.go are not part of this
  model.

## Findings

| source | as written | input that shows it | evidently intended | confidence | as-written member | corrected member |
|---|---|---|---|---|---|---|
| slice.go:819-825, slice.go:934-940 | FirstN(0) is Slice(0, -1) and LastN(0) is Slice(0, -1): every element | FirstN(0) or LastN(0) on a non-empty NSlice | the first/last min(abs(n), len) elements, none for n = 0 | high, not executed | NSlices.NSlice.FirstLastNZero | NSlices.NSlice.FirstNFixed |
| slice.go:897-901 | Insert at position 0 on the reflection path builds a one-element slice of the value's own type, and reflect.AppendSlice panics when that type differs from the receiver's []interface{} element type | Prepend(2) on an []interface{} NSlice holding 1 | insert the value first, as Insert does at any other position of an []interface{} slice | high, not executed | NSlices.PrependToAnySliceAsWritten | NSlices.NSlice.Insert |
| str.go:23-24 | the int case computes strconv.Itoa(x) and drops it, so A(5) holds "" | A(5) | A(5) holds "5" | high, not executed | Strs.AIntLosesValue | Strs.AFixed |
