/** strN: an immutable string wrapper. Every helper returns a new value, so
    each one is a function over `string`. Go strings are byte sequences; here a
    string is a sequence of characters (runes). */
module Strs {
  import opened Indexing

  // ---------------------------------------------------------------------------
  // Searching
  // ---------------------------------------------------------------------------

  /** `sep` occurs in `s` starting at position `i`. */
  predicate MatchAt(s: string, sep: string, i: int)
  {
    0 <= i && i + |sep| <= |s| && s[i..i + |sep|] == sep
  }

  /** strings.Contains. */
  predicate Contains(s: string, sep: string)
  {
    exists i :: 0 <= i <= |s| && MatchAt(s, sep, i)
  }

  /** strings.HasSuffix. */
  predicate HasSuffix(s: string, suffix: string)
  {
    |suffix| <= |s| && s[|s| - |suffix|..] == suffix
  }

  /** A match in s[1..] is a match in s one position later. */
  lemma MatchShift(s: string, sep: string)
    requires s != []
    ensures forall i :: 0 < i ==> (MatchAt(s, sep, i) <==> MatchAt(s[1..], sep, i - 1))
  {
    forall i | 0 < i
      ensures MatchAt(s, sep, i) <==> MatchAt(s[1..], sep, i - 1)
    {
      if i + |sep| <= |s| {
        assert s[1..][i - 1..i - 1 + |sep|] == s[i..i + |sep|];
      }
    }
  }

  /** strings.Index: the first position where `sep` occurs. */
  function Find(s: string, sep: string): (r: Option<nat>)
    ensures r.Some? ==> MatchAt(s, sep, r.value) && forall j :: 0 <= j < r.value ==> !MatchAt(s, sep, j)
    ensures r.None? <==> !Contains(s, sep)
    decreases |s|
  {
    if |s| < |sep| then None
    else if s[..|sep|] == sep then Some(0)
    else
      MatchShift(s, sep);
      assert !MatchAt(s, sep, 0);
      match Find(s[1..], sep)
      case None =>
        None
      case Some(i) =>
        assert MatchAt(s, sep, i + 1);
        Some(i + 1)
  }

  /** ContainsAny: some target occurs in `s`; never for no targets. */
  function ContainsAny(s: string, targets: seq<string>): (r: bool)
    ensures r <==> exists k :: 0 <= k < |targets| && Contains(s, targets[k])
  {
    if targets == [] then false
    else
      assert forall k :: 1 <= k < |targets| ==> targets[1..][k - 1] == targets[k];
      Contains(s, targets[0]) || ContainsAny(s, targets[1..])
  }

  /** HasAnyPrefix: some target is a prefix of `s`; never for no targets. */
  function HasAnyPrefix(s: string, prefixes: seq<string>): (r: bool)
    ensures r <==> exists k :: 0 <= k < |prefixes| && prefixes[k] <= s
  {
    if prefixes == [] then false
    else
      assert forall k :: 1 <= k < |prefixes| ==> prefixes[1..][k - 1] == prefixes[k];
      prefixes[0] <= s || HasAnyPrefix(s, prefixes[1..])
  }

  /** HasAnySuffix: some target is a suffix of `s`; never for no targets. */
  function HasAnySuffix(s: string, suffixes: seq<string>): (r: bool)
    ensures r <==> exists k :: 0 <= k < |suffixes| && HasSuffix(s, suffixes[k])
  {
    if suffixes == [] then false
    else
      assert forall k :: 1 <= k < |suffixes| ==> suffixes[1..][k - 1] == suffixes[k];
      HasSuffix(s, suffixes[0]) || HasAnySuffix(s, suffixes[1..])
  }

  // ---------------------------------------------------------------------------
  // Trimming
  // ---------------------------------------------------------------------------

  /** unicode.IsSpace: the Latin-1 spaces and the White_Space code points above. */
  predicate IsSpace(c: char)
  {
    c == '\t' || c == '\n' || c == '\U{000B}' || c == '\U{000C}' || c == '\r' || c == ' ' ||
    c == '\U{0085}' || c == '\U{00A0}' || c == '\U{1680}' || ('\U{2000}' <= c <= '\U{200A}') ||
    c == '\U{2028}' || c == '\U{2029}' || c == '\U{202F}' || c == '\U{205F}' || c == '\U{3000}'
  }

  predicate AllSpace(s: string)
  {
    forall k :: 0 <= k < |s| ==> IsSpace(s[k])
  }

  /** SpaceLeft: the longest prefix of whitespace. */
  function SpaceLeft(s: string): (r: string)
    ensures r <= s && AllSpace(r)
    ensures |r| < |s| ==> !IsSpace(s[|r|])
  {
    if s == [] || !IsSpace(s[0]) then []
    else [s[0]] + SpaceLeft(s[1..])
  }

  /** strings.TrimLeftFunc(s, unicode.IsSpace). */
  function TrimSpaceLeft(s: string): (r: string)
    ensures |r| <= |s| && r == s[|s| - |r|..]
    ensures AllSpace(s[..|s| - |r|])
    ensures r != [] ==> !IsSpace(r[0])
  {
    if s != [] && IsSpace(s[0]) then TrimSpaceLeft(s[1..]) else s
  }

  /** The whitespace SpaceLeft returns and the rest TrimSpaceLeft returns make
      up the whole string. */
  lemma {:induction false} SpaceLeftTrimSpaceLeft(s: string)
    ensures SpaceLeft(s) + TrimSpaceLeft(s) == s
  {
    if s != [] && IsSpace(s[0]) {
      SpaceLeftTrimSpaceLeft(s[1..]);
    }
  }

  /** strings.TrimRightFunc(s, unicode.IsSpace). */
  function TrimSpaceRight(s: string): (r: string)
    ensures r <= s && AllSpace(s[|r|..])
    ensures r != [] ==> !IsSpace(r[|r| - 1])
  {
    if s != [] && IsSpace(s[|s| - 1]) then TrimSpaceRight(s[..|s| - 1]) else s
  }

  /** strings.TrimSpace. */
  function TrimSpace(s: string): (r: string)
    ensures |SpaceLeft(s)| + |r| <= |s| && r == s[|SpaceLeft(s)|..|SpaceLeft(s)| + |r|]
    ensures AllSpace(s[|SpaceLeft(s)| + |r|..])
    ensures r != [] ==> !IsSpace(r[0]) && !IsSpace(r[|r| - 1])
  {
    TrimmedMiddle(s, TrimSpaceLeft(s), TrimSpaceRight(TrimSpaceLeft(s)));
    TrimSpaceRight(TrimSpaceLeft(s))
  }

  /** The trimmed text sits right after the leading whitespace, and only
      whitespace follows it. */
  lemma TrimmedMiddle(s: string, t: string, r: string)
    requires t == TrimSpaceLeft(s) && r <= t && AllSpace(t[|r|..])
    ensures |SpaceLeft(s)| + |r| <= |s| && r == s[|SpaceLeft(s)|..|SpaceLeft(s)| + |r|]
    ensures AllSpace(s[|SpaceLeft(s)| + |r|..])
  {
    SpaceLeftTrimSpaceLeft(s);
    var n := |SpaceLeft(s)|;
    assert t == s[n..];
    assert t[|r|..] == s[n + |r|..];
  }

  /** Empty: nothing but whitespace. */
  function Empty(s: string): (r: bool)
    ensures r <==> AllSpace(s)
  {
    var t := TrimSpaceLeft(s);
    assert t != [] ==> TrimSpaceRight(t) != [];
    assert AllSpace(s) ==> t == [];
    TrimSpace(s) == ""
  }

  /** strings.TrimPrefix: drops one leading occurrence, when there is one. */
  function TrimPrefix(s: string, prefix: string): (r: string)
    ensures prefix <= s ==> prefix + r == s
    ensures !(prefix <= s) ==> r == s
  {
    if prefix <= s then s[|prefix|..] else s
  }

  /** strings.TrimSuffix: drops one trailing occurrence, when there is one. */
  function TrimSuffix(s: string, suffix: string): (r: string)
    ensures HasSuffix(s, suffix) ==> r + suffix == s
    ensures !HasSuffix(s, suffix) ==> r == s
  {
    if HasSuffix(s, suffix) then s[..|s| - |suffix|] else s
  }

  /** TrimPrefix and TrimSuffix undo prepending and appending, once. */
  lemma TrimPrefixSuffixInverse(prefix: string, t: string, suffix: string)
    ensures TrimPrefix(prefix + t, prefix) == t
    ensures TrimSuffix(t + suffix, suffix) == t
  {
    assert prefix <= prefix + t;
    assert (t + suffix)[|t|..] == suffix;
  }

  // ---------------------------------------------------------------------------
  // Splitting and joining
  // ---------------------------------------------------------------------------

  /** strings.Split with an empty separator: one piece per character. */
  function Explode(s: string): (r: seq<string>)
    ensures |r| == |s| && forall k :: 0 <= k < |r| ==> r[k] == [s[k]]
  {
    if s == [] then [] else [[s[0]]] + Explode(s[1..])
  }

  /** strings.Split: the pieces between the non-overlapping occurrences of
      `sep`, taken left to right. */
  function Split(s: string, sep: string): (r: seq<string>)
    ensures sep != [] ==> |r| >= 1
    decreases |s|
  {
    if sep == [] then Explode(s)
    else
      match Find(s, sep)
      case None => [s]
      case Some(i) => [s[..i]] + Split(s[i + |sep|..], sep)
  }

  /** strings.Join. */
  function Join(parts: seq<string>, sep: string): (r: string)
    ensures |parts| == 1 ==> r == parts[0]
  {
    if parts == [] then ""
    else if |parts| == 1 then parts[0]
    else parts[0] + sep + Join(parts[1..], sep)
  }

  /** A split at the first separator: the piece before it, then the split of
      what follows it. */
  lemma SplitAtFirst(s: string, sep: string, i: nat)
    requires sep != [] && Find(s, sep) == Some(i)
    ensures s == s[..i] + sep + s[i + |sep|..]
    ensures Split(s, sep) == [s[..i]] + Split(s[i + |sep|..], sep)
  {
    assert MatchAt(s, sep, i);
    var a, m, b := s[..i], s[i..i + |sep|], s[i + |sep|..];
    assert m == sep;
    assert s == a + m + b;
  }

  lemma JoinCons(a: string, tail: seq<string>, sep: string)
    requires tail != []
    ensures Join([a] + tail, sep) == a + sep + Join(tail, sep)
  {
    assert ([a] + tail)[1..] == tail;
  }

  /** Joining the pieces of a split with the same separator restores the string. */
  lemma {:induction false} JoinSplit(s: string, sep: string)
    ensures Join(Split(s, sep), sep) == s
    decreases |s|
  {
    if sep == [] {
      JoinExplode(s);
    } else if Find(s, sep).Some? {
      var i := Find(s, sep).value;
      var rest := s[i + |sep|..];
      SplitAtFirst(s, sep, i);
      JoinSplit(rest, sep);
      JoinCons(s[..i], Split(rest, sep), sep);
    }
  }

  lemma {:induction false} JoinExplode(s: string)
    ensures Join(Explode(s), "") == s
  {
    if |s| > 1 {
      JoinExplode(s[1..]);
      assert Explode(s)[1..] == Explode(s[1..]);
    }
  }

  /** No piece of a split holds the separator. */
  lemma {:induction false} SplitPiecesAvoidSep(s: string, sep: string)
    requires sep != []
    ensures forall k :: 0 <= k < |Split(s, sep)| ==> !Contains(Split(s, sep)[k], sep)
    decreases |s|
  {
    if Find(s, sep).Some? {
      var i := Find(s, sep).value;
      var rest := s[i + |sep|..];
      var tail := Split(rest, sep);
      assert Split(s, sep) == [s[..i]] + tail;
      SplitPiecesAvoidSep(rest, sep);
      forall j | MatchAt(s[..i], sep, j)
        ensures false
      {
        assert s[..i][j..j + |sep|] == s[j..j + |sep|];
        assert MatchAt(s, sep, j);
      }
    } else {
      assert Split(s, sep) == [s];
    }
  }

  /** SplitOn: the first piece of the split with `delim` put back when the
      string holds it, and the other pieces joined again. */
  function SplitOn(s: string, delim: string): (r: (string, string))
    ensures s == "" ==> r == ("", "")
  {
    if s == "" then ("", "")
    else
      var parts := Split(s, delim);
      var first := parts[0] + (if Contains(s, delim) then delim else "");
      var second := if |parts| > 1 then Join(parts[1..], delim) else "";
      (first, second)
  }

  lemma SplitOnEmptyDelim(s: string)
    requires s != ""
    ensures SplitOn(s, "") == ([s[0]], s[1..])
  {
    assert MatchAt(s, "", 0);
    var parts := Split(s, "");
    assert parts == Explode(s);
    assert parts[0] + "" == [s[0]];
    if |s| > 1 {
      JoinExplode(s[1..]);
      assert parts[1..] == Explode(s[1..]);
    }
  }

  lemma SplitOnNotFound(s: string, delim: string)
    requires delim != [] && !Contains(s, delim)
    ensures SplitOn(s, delim) == (s, "")
  {
    if s != "" {
      assert Find(s, delim).None?;
      var parts := Split(s, delim);
      assert parts == [s];
      assert parts[0] + "" == s;
    }
  }

  lemma SplitOnFound(s: string, delim: string, i: nat)
    requires s != "" && delim != [] && Find(s, delim) == Some(i)
    ensures SplitOn(s, delim) == (s[..i] + delim, s[i + |delim|..])
  {
    var rest := s[i + |delim|..];
    SplitAtFirst(s, delim, i);
    JoinSplit(rest, delim);
    assert Split(s, delim)[1..] == Split(rest, delim);
  }

  /** SplitOn gives the text up to and including the first `delim`, and the
      rest: the two parts always make up the string, and a string without
      `delim` is all first part. */
  lemma SplitOnParts(s: string, delim: string)
    ensures SplitOn(s, delim).0 + SplitOn(s, delim).1 == s
    ensures !Contains(s, delim) ==> SplitOn(s, delim) == (s, "")
    ensures delim != [] && Contains(s, delim) ==>
      var i := Find(s, delim).value;
      SplitOn(s, delim) == (s[..i] + delim, s[i + |delim|..])
  {
    if s == "" {
    } else if delim == [] {
      SplitOnEmptyDelim(s);
      assert MatchAt(s, delim, 0);
      assert s == [s[0]] + s[1..];
    } else if Find(s, delim).Some? {
      var i := Find(s, delim).value;
      SplitOnFound(s, delim, i);
      SplitAtFirst(s, delim, i);
    } else {
      SplitOnNotFound(s, delim);
    }
  }

  // ---------------------------------------------------------------------------
  // Building a strN
  // ---------------------------------------------------------------------------

  /** The decimal digits of a natural number. */
  function NatToDecimal(n: nat): (r: string)
    ensures |r| > 0 && forall k :: 0 <= k < |r| ==> '0' <= r[k] <= '9'
  {
    if n < 10 then [(48 + n) as char] else NatToDecimal(n / 10) + [(48 + n % 10) as char]
  }

  /** strconv.Itoa. */
  function Itoa(n: int): (r: string)
    ensures |r| > 0
  {
    if n < 0 then "-" + NatToDecimal(-n) else NatToDecimal(n)
  }

  predicate AllDigits(s: string)
  {
    forall k :: 0 <= k < |s| ==> '0' <= s[k] <= '9'
  }

  function DecimalToNat(s: string): (n: nat)
    requires AllDigits(s)
  {
    if s == [] then 0 else 10 * DecimalToNat(s[..|s| - 1]) + (s[|s| - 1] as int - 48)
  }

  /** Reads back an optional minus sign followed by at least one digit. */
  function ParseDecimal(s: string): (r: Option<int>)
  {
    if |s| > 1 && s[0] == '-' && AllDigits(s[1..]) then Some(0 - DecimalToNat(s[1..]))
    else if |s| > 0 && AllDigits(s) then Some(DecimalToNat(s))
    else None
  }

  lemma {:induction false} DecimalRoundTrip(n: nat)
    ensures DecimalToNat(NatToDecimal(n)) == n
  {
    if n >= 10 {
      DecimalRoundTrip(n / 10);
      var r := NatToDecimal(n);
      assert r[..|r| - 1] == NatToDecimal(n / 10);
    }
  }

  lemma ParseNatToDecimal(n: nat)
    ensures ParseDecimal(NatToDecimal(n)) == Some(n)
  {
    var r := NatToDecimal(n);
    DecimalRoundTrip(n);
    assert AllDigits(r) && r[0] != '-';
  }

  lemma ParseNegDecimal(n: nat)
    ensures ParseDecimal("-" + NatToDecimal(n)) == Some(-(n as int))
  {
    var d := NatToDecimal(n);
    var r := "-" + d;
    DecimalRoundTrip(n);
    assert r[0] == '-' && r[1..] == d;
    assert AllDigits(r[1..]);
  }

  /** Itoa is undone by ParseDecimal. */
  lemma ItoaRoundTrip(n: int)
    ensures ParseDecimal(Itoa(n)) == Some(n)
  {
    if n < 0 {
      ParseNegDecimal(-n);
    } else {
      ParseNatToDecimal(n);
    }
  }

  /** What A is handed: a string, a byte slice, an int, or any other value
      together with its `%v` rendering. */
  datatype Arg = AStr(s: string) | ABytes(b: seq<bv8>) | AInt(n: int) | AOther(rendered: string)

  /** string([]byte): each byte becomes the character of the same code. */
  function BytesToString(b: seq<bv8>): (r: string)
    ensures |r| == |b| && forall k :: 0 <= k < |b| ==> r[k] as int == b[k] as int
  {
    if b == [] then "" else [b[0] as char] + BytesToString(b[1..])
  }

  /** A as written: the rendering of an int is computed and dropped. */
  function A(x: Arg): (r: string)
    ensures x.AStr? ==> r == x.s
    ensures x.ABytes? ==> r == BytesToString(x.b)
    ensures x.AInt? ==> r == ""
    ensures x.AOther? ==> r == x.rendered
  {
    match x
    case AStr(s) => s
    case ABytes(b) => BytesToString(b)
    case AInt(_) => ""
    case AOther(rendered) => rendered
  }

  /** A of an int holds nothing, so its text no longer reads back as the int. */
  lemma AIntLosesValue(n: int)
    ensures A(AInt(n)) == "" && ParseDecimal(A(AInt(n))) == None
  {
  }

  /** A with the int rendered in decimal. */
  function AFixed(x: Arg): (r: string)
    ensures x.AInt? ==> ParseDecimal(r) == Some(x.n)
    ensures !x.AInt? ==> r == A(x)
  {
    match x
    case AInt(n) => ItoaRoundTrip(n); Itoa(n)
    case _ => A(x)
  }

  // ---------------------------------------------------------------------------
  // YAML scalars
  // ---------------------------------------------------------------------------

  /** What YamlType returns: the inner text of a quoted value, a bool, a value
      strconv.ParseFloat accepts, or the text unchanged. */
  datatype Yaml = YStr(s: string) | YBool(b: bool) | YNumber(text: string)

  predicate IsQuote(c: char)
  {
    c == '"' || c == '\''
  }

  /** The quote test YamlType makes at the start. */
  lemma QuotePrefixTest(s: string)
    ensures HasAnyPrefix(s, ["\"", "'"]) <==> s != [] && IsQuote(s[0])
  {
    var quotes := ["\"", "'"];
    assert quotes[1..] == ["'"] && quotes[1..][1..] == [];
    assert HasAnyPrefix(s, quotes) == ("\"" <= s || "'" <= s);
    if s != [] {
      assert "\"" <= s <==> s[0] == '"';
      assert "'" <= s <==> s[0] == '\'';
    }
  }

  /** The quote test YamlType makes at the end. */
  lemma QuoteSuffixTest(s: string)
    ensures HasAnySuffix(s, ["\"", "'"]) <==> s != [] && IsQuote(s[|s| - 1])
  {
    var quotes := ["\"", "'"];
    assert quotes[1..] == ["'"] && quotes[1..][1..] == [];
    assert HasAnySuffix(s, quotes) == (HasSuffix(s, "\"") || HasSuffix(s, "'"));
    if s != [] {
      assert HasSuffix(s, "\"") <==> s[|s| - 1] == '"';
      assert HasSuffix(s, "'") <==> s[|s| - 1] == '\'';
    }
  }

  /** YamlType. `isFloat` stands for strconv.ParseFloat(s, 32) succeeding. A
      value that both starts and ends with a quote loses its first and last
      characters (the quotes need not match); a lone quote is a slice-bounds
      panic. */
  function YamlType(s: string, isFloat: string -> bool): (r: Result<Yaml>)
    ensures r.Err? <==> s == "\"" || s == "'"
    ensures |s| >= 2 && IsQuote(s[0]) && IsQuote(s[|s| - 1]) ==> r == Ok(YStr(s[1..|s| - 1]))
    ensures s == "true" ==> r == Ok(YBool(true))
    ensures s == "false" ==> r == Ok(YBool(false))
    ensures !(|s| >= 1 && IsQuote(s[0]) && IsQuote(s[|s| - 1])) && s != "true" && s != "false" ==>
      r == Ok(if isFloat(s) then YNumber(s) else YStr(s))
  {
    var quotes := ["\"", "'"];
    QuotePrefixTest(s);
    QuoteSuffixTest(s);
    if HasAnyPrefix(s, quotes) && HasAnySuffix(s, quotes) then
      if |s| < 2 then Err("slice bounds out of range") else Ok(YStr(s[1..|s| - 1]))
    else if s == "true" || s == "false" then Ok(YBool(s == "true"))
    else if isFloat(s) then Ok(YNumber(s))
    else Ok(YStr(s))
  }

  /** Quoting any text and reading it back as YAML gives the text. */
  lemma YamlQuoteRoundTrip(t: string, isFloat: string -> bool)
    ensures YamlType("\"" + t + "\"", isFloat) == Ok(YStr(t))
    ensures YamlType("'" + t + "'", isFloat) == Ok(YStr(t))
  {
    var d := "\"" + t + "\"";
    var q := "'" + t + "'";
    assert d[1..|d| - 1] == t;
    assert q[1..|q| - 1] == t;
  }
}
