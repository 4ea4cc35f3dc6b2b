/**
 Character classes, string helpers and leftmost search shared by every other module.

 Strings are `seq<char>`. Character classes follow Python's `str` methods and `re`
 classes restricted to ASCII: a non-ASCII character is neither a word character nor
 whitespace here, and lower-casing leaves it unchanged.
 */
module Text {

  datatype Option<+T> = None | Some(value: T)

  datatype Result<+T, +E> = Success(value: T) | Failure(error: E)

  /** Python truthiness of an optional string: present and non-empty. */
  predicate Truthy(o: Option<string>) {
    o.Some? && o.value != ""
  }

  /** `o or fallback` for an optional string. */
  function OrElse(o: Option<string>, fallback: string): (r: string)
    ensures Truthy(o) ==> r == o.value
    ensures !Truthy(o) ==> r == fallback
  {
    if Truthy(o) then o.value else fallback
  }

  // ---------------------------------------------------------------------------
  // Character classes

  /** `str.isspace` / regex `\s` on ASCII: tab, newline, vertical tab, form feed,
      carriage return, the four information separators and space. */
  predicate IsSpace(c: char) {
    (9 <= c as int <= 13) || (28 <= c as int <= 32)
  }

  predicate IsDigit(c: char) { '0' <= c <= '9' }

  predicate IsUpper(c: char) { 'A' <= c <= 'Z' }

  predicate IsLower(c: char) { 'a' <= c <= 'z' }

  predicate IsLetter(c: char) { IsUpper(c) || IsLower(c) }

  /** Regex `\w` on ASCII. */
  predicate IsWordChar(c: char) { IsLetter(c) || IsDigit(c) || c == '_' }

  function LowerChar(c: char): (r: char)
    ensures !IsUpper(r)
    ensures IsUpper(c) ==> r as int == c as int + 32
    ensures !IsUpper(c) ==> r == c
  {
    if IsUpper(c) then (c as int + 32) as char else c
  }

  /** `str.lower` on ASCII. */
  function Lower(s: string): (r: string)
    ensures |r| == |s|
    ensures forall i :: 0 <= i < |s| ==> r[i] == LowerChar(s[i])
  {
    seq(|s|, i requires 0 <= i < |s| => LowerChar(s[i]))
  }

  /** Case-insensitive equality, as regex `re.IGNORECASE` compares ASCII text. */
  predicate EqualsIgnoreCase(a: string, b: string) {
    Lower(a) == Lower(b)
  }

  predicate AllDigits(s: string) {
    forall i :: 0 <= i < |s| ==> IsDigit(s[i])
  }

  predicate NoSpace(s: string) {
    forall i :: 0 <= i < |s| ==> !IsSpace(s[i])
  }

  // ---------------------------------------------------------------------------
  // Prefixes, occurrences and leftmost search

  predicate StartsWith(s: string, prefix: string) {
    |prefix| <= |s| && s[..|prefix|] == prefix
  }

  /** One differing character rules a prefix out. */
  lemma DiffersAt(s: string, prefix: string, k: nat)
    requires k < |prefix| && (k < |s| ==> s[k] != prefix[k])
    ensures !StartsWith(s, prefix)
  {
    if |prefix| <= |s| {
      assert s[..|prefix|][k] == s[k];
    }
  }

  /** `prefix` occurs in `s` at position `i`, compared case-insensitively. */
  predicate OccursAtIgnoreCase(s: string, prefix: string, i: nat) {
    i + |prefix| <= |s| && Lower(s[i..i + |prefix|]) == Lower(prefix)
  }

  /** Where `prefix` occurs ignoring case, each character agrees with it ignoring case. */
  lemma OccursAtIgnoreCaseChar(s: string, prefix: string, i: nat, k: nat)
    requires OccursAtIgnoreCase(s, prefix, i) && k < |prefix|
    ensures LowerChar(s[i + k]) == LowerChar(prefix[k])
  {
    assert Lower(s[i..i + |prefix|])[k] == Lower(prefix)[k];
  }

  /** A match ignoring case is still one at the start of a slice that begins there. */
  lemma OccursAtIgnoreCaseSlice(s: string, prefix: string, i: nat, j: nat)
    requires OccursAtIgnoreCase(s, prefix, i) && i + |prefix| <= j <= |s|
    ensures OccursAtIgnoreCase(s[i..j], prefix, 0)
  {
    assert s[i..j][0..|prefix|] == s[i..i + |prefix|];
  }

  /** A character absent from every position of a stretch is absent from its slice. */
  lemma SliceAvoids(s: string, i: nat, j: nat, c: char)
    requires i <= j <= |s|
    requires forall k :: i <= k < j ==> s[k] != c
    ensures c !in s[i..j]
  {
    assert forall k :: 0 <= k < j - i ==> s[i..j][k] == s[i + k];
  }

  predicate OccursAt(s: string, needle: string, i: nat) {
    i + |needle| <= |s| && s[i..i + |needle|] == needle
  }

  /** Python's `needle in s` for strings. */
  predicate Contains(s: string, needle: string) {
    exists i: nat | i <= |s| :: OccursAt(s, needle, i)
  }

  lemma EmptyOccursEverywhere(s: string)
    ensures Contains(s, "")
  {
    assert OccursAt(s, "", 0);
  }

  lemma ContainsSelf(s: string)
    ensures Contains(s, s)
  {
    assert OccursAt(s, s, 0);
  }

  /** The leftmost `k` in `from..to` that satisfies `P`: the way a regex search
      settles on the first position where its whole pattern matches. */
  function FindFirst(P: nat -> bool, lo: nat, hi: nat): (r: Option<nat>)
    decreases hi - lo
    ensures r.Some? ==> lo <= r.value <= hi && P(r.value)
    ensures r.Some? ==> forall k :: lo <= k < r.value ==> !P(k)
    ensures r.None? ==> forall k :: lo <= k <= hi ==> !P(k)
  {
    if lo > hi then None
    else if P(lo) then Some(lo)
    else FindFirst(P, lo + 1, hi)
  }

  /** First index at or after `i` whose character is not whitespace (or `|s|`). */
  function SkipSpaces(s: string, i: nat): (j: nat)
    requires i <= |s|
    decreases |s| - i
    ensures i <= j <= |s|
    ensures forall k :: i <= k < j ==> IsSpace(s[k])
    ensures j < |s| ==> !IsSpace(s[j])
  {
    if i == |s| || !IsSpace(s[i]) then i else SkipSpaces(s, i + 1)
  }

  /** First index at or after `i` whose character is not a digit (or `|s|`). */
  function SkipDigits(s: string, i: nat): (j: nat)
    requires i <= |s|
    decreases |s| - i
    ensures i <= j <= |s|
    ensures forall k :: i <= k < j ==> IsDigit(s[k])
    ensures j < |s| ==> !IsDigit(s[j])
  {
    if i == |s| || !IsDigit(s[i]) then i else SkipDigits(s, i + 1)
  }

  /** First index at or after `i` whose character is whitespace (or `|s|`). */
  function SkipNonSpaces(s: string, i: nat): (j: nat)
    requires i <= |s|
    decreases |s| - i
    ensures i <= j <= |s|
    ensures forall k :: i <= k < j ==> !IsSpace(s[k])
    ensures j < |s| ==> IsSpace(s[j])
  {
    if i == |s| || IsSpace(s[i]) then i else SkipNonSpaces(s, i + 1)
  }

  /** First index at or after `i` whose character is not a word character (or `|s|`). */
  function SkipWordChars(s: string, i: nat): (j: nat)
    requires i <= |s|
    decreases |s| - i
    ensures i <= j <= |s|
    ensures forall k :: i <= k < j ==> IsWordChar(s[k])
    ensures j < |s| ==> !IsWordChar(s[j])
  {
    if i == |s| || !IsWordChar(s[i]) then i else SkipWordChars(s, i + 1)
  }

  /** First index at or after `i` whose character is not in `cs` (or `|s|`). */
  function SkipIn(s: string, i: nat, cs: set<char>): (j: nat)
    requires i <= |s|
    decreases |s| - i
    ensures i <= j <= |s|
    ensures forall k :: i <= k < j ==> s[k] in cs
    ensures j < |s| ==> s[j] !in cs
  {
    if i == |s| || s[i] !in cs then i else SkipIn(s, i + 1, cs)
  }

  /** First index at or after `i` whose character is in `cs` (or `|s|`). */
  function SkipNotIn(s: string, i: nat, cs: set<char>): (j: nat)
    requires i <= |s|
    decreases |s| - i
    ensures i <= j <= |s|
    ensures forall k :: i <= k < j ==> s[k] !in cs
    ensures j < |s| ==> s[j] in cs
  {
    if i == |s| || s[i] in cs then i else SkipNotIn(s, i + 1, cs)
  }

  // ---------------------------------------------------------------------------
  // Stripping

  /** Python `str.rstrip(chars)`. */
  function RStripChars(s: string, cs: set<char>): (r: string)
    decreases |s|
    ensures |r| <= |s| && r == s[..|r|]
    ensures r != [] ==> r[|r| - 1] !in cs
    ensures forall k :: |r| <= k < |s| ==> s[k] in cs
  {
    if s == [] || s[|s| - 1] !in cs then s else RStripChars(s[..|s| - 1], cs)
  }

  /** Python `str.rstrip()`. */
  function RStrip(s: string): (r: string)
    decreases |s|
    ensures |r| <= |s| && r == s[..|r|]
    ensures r != [] ==> !IsSpace(r[|r| - 1])
    ensures forall k :: |r| <= k < |s| ==> IsSpace(s[k])
  {
    if s == [] || !IsSpace(s[|s| - 1]) then s else RStrip(s[..|s| - 1])
  }

  /** Python `str.strip()`. */
  function Strip(s: string): (r: string)
    ensures r == RStrip(s[SkipSpaces(s, 0)..])
    ensures r != [] ==> !IsSpace(r[0]) && !IsSpace(r[|r| - 1])
  {
    RStrip(s[SkipSpaces(s, 0)..])
  }

  /** A string without surrounding whitespace strips to itself. */
  lemma StripTrimmed(s: string)
    requires s != [] && !IsSpace(s[0]) && !IsSpace(s[|s| - 1])
    ensures Strip(s) == s
  {
    assert SkipSpaces(s, 0) == 0;
    assert s[0..] == s;
  }

  /** Leading whitespace followed by a non-space character is skipped exactly. */
  lemma {:induction false} SkipSpacesPrefix(pre: string, rest: string, i: nat)
    requires i <= |pre|
    requires forall k :: 0 <= k < |pre| ==> IsSpace(pre[k])
    requires rest != [] && !IsSpace(rest[0])
    ensures SkipSpaces(pre + rest, i) == |pre|
    decreases |pre| - i
  {
    var s := pre + rest;
    if i < |pre| {
      assert s[i] == pre[i];
      SkipSpacesPrefix(pre, rest, i + 1);
    } else {
      assert s[i] == rest[0];
    }
  }

  /** A needle with a character the string lacks does not occur in it. */
  lemma MissingCharNotContained(s: string, needle: string, c: char)
    requires c in needle && c !in s
    ensures !Contains(s, needle)
  {
  }

  /** Leading whitespace in front of a trimmed string is all `strip()` removes. */
  lemma StripPadded(pre: string, x: string)
    requires forall k :: 0 <= k < |pre| ==> IsSpace(pre[k])
    requires x != [] && !IsSpace(x[0]) && !IsSpace(x[|x| - 1])
    ensures Strip(pre + x) == x
  {
    SkipSpacesPrefix(pre, x, 0);
    assert (pre + x)[|pre|..] == x;
  }

  /** Python `s[:n]` for a non-negative `n`. */
  function Take<T>(s: seq<T>, n: nat): (r: seq<T>)
    ensures |r| == if n < |s| then n else |s|
    ensures r == s[..|r|]
  {
    if n < |s| then s[..n] else s
  }

  // ---------------------------------------------------------------------------
  // Splitting and joining

  /** Python `str.split()` with no argument: the maximal runs of non-whitespace. */
  function Words(s: string): (ws: seq<string>)
    decreases |s|
    ensures forall k :: 0 <= k < |ws| ==> ws[k] != [] && NoSpace(ws[k])
  {
    if s == [] then []
    else if IsSpace(s[0]) then Words(s[1..])
    else
      var j := SkipNonSpaces(s, 0);
      [s[..j]] + Words(s[j..])
  }

  /** Python `sep.join(parts)`. */
  function Join(sep: string, parts: seq<string>): (r: string)
    decreases |parts|
  {
    if parts == [] then ""
    else if |parts| == 1 then parts[0]
    else parts[0] + sep + Join(sep, parts[1..])
  }

  /** A prefix one longer is the prefix with the next element appended. */
  lemma PrefixSnoc<T>(s: seq<T>, i: nat)
    requires i < |s|
    ensures s[..i + 1] == s[..i] + [s[i]]
  {
  }

  /** A non-empty slice is its first element followed by the rest. */
  lemma SliceCons<T>(s: seq<T>, i: nat, j: nat)
    requires i < j <= |s|
    ensures s[i..j] == [s[i]] + s[i + 1..j]
  {
  }

  /** A sequence is its prefix followed by the rest. */
  lemma TakeDropJoin<T>(s: seq<T>, i: nat)
    requires i <= |s|
    ensures s[..i] + s[i..] == s
  {
  }

  /** An index into the left part of a concatenation. */
  lemma IndexLeft<T>(a: seq<T>, b: seq<T>, i: nat)
    requires i < |a|
    ensures (a + b)[i] == a[i]
  {
  }

  /** An index into the right part of a concatenation. */
  lemma IndexRight<T>(a: seq<T>, b: seq<T>, i: nat)
    requires |a| <= i < |a| + |b|
    ensures (a + b)[i] == b[i - |a|]
  {
  }

  /** The four parts of a concatenation, sliced back out of it. */
  lemma FourParts<T>(a: seq<T>, b: seq<T>, c: seq<T>, d: seq<T>)
    ensures var w := a + b + c + d;
      && w[..|a|] == a
      && w[|a|..|a| + |b|] == b
      && w[|a| + |b|..|a| + |b| + |c|] == c
      && w[|a| + |b| + |c|..|a| + |b| + |c| + |d|] == d
  {
    var w := a + b + c + d;
    assert w[..|a|] == a;
    assert w[|a|..|a| + |b|] == b;
    assert w[|a| + |b|..|a| + |b| + |c|] == c;
    assert w[|a| + |b| + |c|..|a| + |b| + |c| + |d|] == d;
  }

  lemma AppendAssociative<T>(a: seq<T>, b: seq<T>, c: seq<T>)
    ensures a + (b + c) == (a + b) + c
  {
  }

  /** Joining two non-empty lists puts one separator between their joins. */
  lemma {:induction false} JoinConcat(sep: string, a: seq<string>, b: seq<string>)
    requires a != [] && b != []
    ensures Join(sep, a + b) == Join(sep, a) + sep + Join(sep, b)
    decreases |a|
  {
    if |a| == 1 {
      assert (a + b)[1..] == b;
    } else {
      assert (a + b)[1..] == a[1..] + b;
      JoinConcat(sep, a[1..], b);
    }
  }

  /** `f(x)` for each `x` of `xs`, concatenated in order. */
  function FlatMap<T, U>(xs: seq<T>, f: T -> seq<U>): seq<U>
    decreases |xs|
  {
    if xs == [] then [] else FlatMap(xs[..|xs| - 1], f) + f(xs[|xs| - 1])
  }

  lemma FlatMapOfPrefix<T, U>(xs: seq<T>, k: nat, f: T -> seq<U>)
    requires k < |xs|
    ensures FlatMap(xs[..k + 1], f) == FlatMap(xs[..k], f) + f(xs[k])
  {
    assert xs[..k + 1][..k] == xs[..k];
  }

  /** Mapping a concatenation concatenates the mappings. */
  lemma {:induction false} FlatMapAppend<T, U>(a: seq<T>, c: seq<T>, f: T -> seq<U>)
    ensures FlatMap(a + c, f) == FlatMap(a, f) + FlatMap(c, f)
    decreases |c|
  {
    if c == [] {
      assert a + c == a;
    } else {
      var c' := c[..|c| - 1];
      var ac := a + c;
      assert ac[..|ac| - 1] == a + c';
      assert ac[|ac| - 1] == c[|c| - 1];
      FlatMapAppend(a, c', f);
      AppendAssociative(FlatMap(a, f), FlatMap(c', f), f(c[|c| - 1]));
    }
  }

  /** The mapping of `xs` around its `k`-th element. */
  lemma {:induction false} FlatMapAround<T, U>(xs: seq<T>, k: nat, f: T -> seq<U>)
    requires k < |xs|
    ensures FlatMap(xs, f) == FlatMap(xs[..k], f) + f(xs[k]) + FlatMap(xs[k + 1..], f)
  {
    TakeDropJoin(xs, k + 1);
    FlatMapAppend(xs[..k + 1], xs[k + 1..], f);
    FlatMapOfPrefix(xs, k, f);
  }

  /** An element of any one mapped piece is an element of the whole mapping. */
  lemma FlatMapHas<T, U>(xs: seq<T>, f: T -> seq<U>, j: nat, u: U)
    requires j < |xs| && u in f(xs[j])
    ensures u in FlatMap(xs, f)
  {
    FlatMapAround(xs, j, f);
  }

  /** A character in none of the parts nor in the separator is not in their join. */
  lemma {:induction false} JoinKeepsOut(sep: string, parts: seq<string>, c: char)
    requires c !in sep
    requires forall k :: 0 <= k < |parts| ==> c !in parts[k]
    ensures c !in Join(sep, parts)
    decreases |parts|
  {
    if |parts| > 1 {
      JoinKeepsOut(sep, parts[1..], c);
    }
  }

  /** Python `s.split(sep)` for a one-character separator. */
  function SplitOn(s: string, sep: char): (parts: seq<string>)
    decreases |s|
    ensures |parts| >= 1
    ensures forall k :: 0 <= k < |parts| ==> sep !in parts[k]
  {
    var j := SkipNotIn(s, 0, {sep});
    if j == |s| then [s] else [s[..j]] + SplitOn(s[j + 1..], sep)
  }

  lemma {:induction false} SplitJoinRoundTrip(parts: seq<string>, sep: char)
    requires |parts| >= 1
    requires forall k :: 0 <= k < |parts| ==> sep !in parts[k]
    ensures SplitOn(Join([sep], parts), sep) == parts
  {
    var s := Join([sep], parts);
    var p := parts[0];
    assert forall k :: 0 <= k < |p| ==> p[k] != sep;
    if |parts| == 1 {
      assert s == p;
      assert SkipNotIn(s, 0, {sep}) == |s|;
    } else {
      var rest := Join([sep], parts[1..]);
      assert s == p + [sep] + rest;
      assert SkipNotIn(s, 0, {sep}) == |p| by {
        SkipNotInStopsAt(s, 0, |p|, {sep});
      }
      assert s[..|p|] == p;
      assert s[|p| + 1..] == rest;
      SplitJoinRoundTrip(parts[1..], sep);
    }
  }

  lemma SkipNotInStopsAt(s: string, i: nat, j: nat, cs: set<char>)
    requires i <= j < |s|
    requires forall k :: i <= k < j ==> s[k] !in cs
    requires s[j] in cs
    ensures SkipNotIn(s, i, cs) == j
    decreases j - i
  {
    if i < j {
      SkipNotInStopsAt(s, i + 1, j, cs);
    }
  }

  // ---------------------------------------------------------------------------
  // Numbers

  function DigitValue(c: char): (d: nat)
    requires IsDigit(c)
    ensures d < 10
  {
    c as int - '0' as int
  }

  /** Python `int(s)` for a non-empty string of ASCII digits. */
  function DigitsToNat(s: string): (n: nat)
    requires AllDigits(s)
    decreases |s|
  {
    if s == [] then 0 else DigitsToNat(s[..|s| - 1]) * 10 + DigitValue(s[|s| - 1])
  }

  /** Python `str(n)` for a natural number. */
  function NatToString(n: nat): (s: string)
    decreases n
    ensures s != [] && AllDigits(s)
  {
    var d := (n % 10 + '0' as int) as char;
    if n < 10 then [d] else NatToString(n / 10) + [d]
  }

  /** Python `str(i)` for any integer. */
  function IntToString(i: int): (s: string)
    ensures s != []
    ensures i >= 0 ==> s == NatToString(i)
    ensures i < 0 ==> s[0] == '-' && s[1..] == NatToString(-i)
  {
    if i < 0 then "-" + NatToString(-i) else NatToString(i)
  }

  lemma {:induction false} NatToStringRoundTrip(n: nat)
    ensures DigitsToNat(NatToString(n)) == n
  {
    var s := NatToString(n);
    var d := (n % 10 + '0' as int) as char;
    assert s[|s| - 1] == d;
    if n >= 10 {
      assert s[..|s| - 1] == NatToString(n / 10);
      NatToStringRoundTrip(n / 10);
    } else {
      assert s[..|s| - 1] == [];
    }
  }

  // ---------------------------------------------------------------------------
  // Substring removal

  /** Python `s.replace(pattern, "")`: every non-overlapping occurrence, scanned
      left to right, removed. */
  function RemoveAll(s: string, pattern: string): (r: string)
    requires pattern != []
    decreases |s|
    ensures |r| <= |s|
  {
    if s == [] then []
    else if StartsWith(s, pattern) then RemoveAll(s[|pattern|..], pattern)
    else [s[0]] + RemoveAll(s[1..], pattern)
  }

  lemma {:induction false} RemoveAllAbsent(s: string, pattern: string)
    requires pattern != []
    requires !Contains(s, pattern)
    ensures RemoveAll(s, pattern) == s
  {
    if s != [] {
      assert !OccursAt(s, pattern, 0);
      assert !StartsWith(s, pattern);
      forall i: nat | OccursAt(s[1..], pattern, i) ensures false {
        assert s[1..][i..i + |pattern|] == s[i + 1..i + 1 + |pattern|];
        assert OccursAt(s, pattern, i + 1);
      }
      RemoveAllAbsent(s[1..], pattern);
    }
  }
}
