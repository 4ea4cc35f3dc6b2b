/**
 Grouping entries by year and ordering them newest first.

 Both markdown generators collect their entries in a dictionary keyed by year, in
 input order, then list the years in decreasing order and, within a year, the
 entries by decreasing entry number (Python's `sorted(..., reverse=True)`). The
 functions here are those dictionaries and orderings, for any entry type: `yearOf`
 gives the key an entry is filed under, `None` for an entry that is not filed.
 */
module Grouping {
  import opened Text

  // ---------------------------------------------------------------------------
  // Sorting by a key, largest first

  /** `s` is in non-increasing order of `key`. */
  predicate Descending<T>(s: seq<T>, key: T -> int) {
    forall i, j :: 0 <= i < j < |s| ==> key(s[i]) >= key(s[j])
  }

  predicate NoDuplicates<T(==)>(s: seq<T>) {
    forall i, j :: 0 <= i < j < |s| ==> s[i] != s[j]
  }

  /** The first position whose key is at most `k`. */
  function FirstAtMost<T>(s: seq<T>, k: int, key: T -> int): (p: nat)
    decreases |s|
    ensures p <= |s|
    ensures forall q :: 0 <= q < p ==> key(s[q]) > k
    ensures p < |s| ==> key(s[p]) <= k
  {
    if s == [] || key(s[0]) <= k then 0 else 1 + FirstAtMost(s[1..], k, key)
  }

  /** `x` placed before the first element whose key is not larger: among equal
      keys the inserted element comes first. */
  function Insert<T>(x: T, s: seq<T>, key: T -> int): (r: seq<T>)
    ensures |r| == |s| + 1
  {
    var p := FirstAtMost(s, key(x), key);
    s[..p] + [x] + s[p..]
  }

  lemma InsertKeepsElements<T>(x: T, s: seq<T>, key: T -> int)
    ensures multiset(Insert(x, s, key)) == multiset(s) + multiset{x}
  {
    var p := FirstAtMost(s, key(x), key);
    assert s == s[..p] + s[p..];
  }

  lemma InsertKeepsOrder<T>(x: T, s: seq<T>, key: T -> int)
    requires Descending(s, key)
    ensures Descending(Insert(x, s, key), key)
  {
    var p := FirstAtMost(s, key(x), key);
    var r := Insert(x, s, key);
    forall i, j | 0 <= i < j < |r| ensures key(r[i]) >= key(r[j]) {
      if j < p {
        assert r[i] == s[i] && r[j] == s[j];
      } else if j == p {
        assert r[i] == s[i] && r[j] == x;
      } else if i < p {
        assert r[i] == s[i] && r[j] == s[j - 1];
      } else if i == p {
        assert r[i] == x && r[j] == s[j - 1];
        assert key(s[p]) <= key(x);
      } else {
        assert r[i] == s[i - 1] && r[j] == s[j - 1];
      }
    }
  }

  /** Python's `sorted(s, key=key, reverse=True)`, as insertion from the back. */
  function SortDescending<T>(s: seq<T>, key: T -> int): (r: seq<T>)
    decreases |s|
    ensures |r| == |s|
    ensures multiset(r) == multiset(s)
    ensures Descending(r, key)
  {
    if s == [] then []
    else
      var rest := SortDescending(s[1..], key);
      InsertKeepsElements(s[0], rest, key);
      InsertKeepsOrder(s[0], rest, key);
      assert s == [s[0]] + s[1..];
      Insert(s[0], rest, key)
  }

  lemma SortedHasSameMembers<T>(s: seq<T>, key: T -> int, x: T)
    ensures x in SortDescending(s, key) <==> x in s
  {
    assert x in multiset(SortDescending(s, key)) <==> x in multiset(s);
  }

  lemma InsertKeepsDistinct<T>(x: T, s: seq<T>, key: T -> int)
    requires NoDuplicates(s) && x !in s
    ensures NoDuplicates(Insert(x, s, key))
  {
    var p := FirstAtMost(s, key(x), key);
    var r := Insert(x, s, key);
    forall i, j | 0 <= i < j < |r| ensures r[i] != r[j] {
      if j < p {
        assert r[i] == s[i] && r[j] == s[j];
      } else if j == p {
        assert r[i] == s[i] && r[j] == x;
      } else if i < p {
        assert r[i] == s[i] && r[j] == s[j - 1];
      } else if i == p {
        assert r[i] == x && r[j] == s[j - 1];
      } else {
        assert r[i] == s[i - 1] && r[j] == s[j - 1];
      }
    }
  }

  /** Sorting distinct elements keeps them distinct. */
  lemma {:induction false} SortKeepsDistinct<T>(s: seq<T>, key: T -> int)
    requires NoDuplicates(s)
    ensures NoDuplicates(SortDescending(s, key))
    decreases |s|
  {
    if s != [] {
      var rest := SortDescending(s[1..], key);
      SortKeepsDistinct(s[1..], key);
      SortedHasSameMembers(s[1..], key, s[0]);
      InsertKeepsDistinct(s[0], rest, key);
    }
  }

  /** The elements of `s` whose key is `k`, in their order in `s`. */
  function WithKey<T>(s: seq<T>, key: T -> int, k: int): (r: seq<T>)
    decreases |s|
    ensures |r| <= |s|
    ensures forall i :: 0 <= i < |r| ==> key(r[i]) == k
  {
    if s == [] then [] else (if key(s[0]) == k then [s[0]] else []) + WithKey(s[1..], key, k)
  }

  lemma {:induction false} WithKeyAppend<T>(a: seq<T>, b: seq<T>, key: T -> int, k: int)
    ensures WithKey(a + b, key, k) == WithKey(a, key, k) + WithKey(b, key, k)
    decreases |a|
  {
    if a == [] {
      assert a + b == b;
    } else {
      assert (a + b)[0] == a[0] && (a + b)[1..] == a[1..] + b;
      WithKeyAppend(a[1..], b, key, k);
    }
  }

  lemma {:induction false} WithKeyAbove<T>(s: seq<T>, key: T -> int, k: int)
    requires forall i :: 0 <= i < |s| ==> key(s[i]) > k
    ensures WithKey(s, key, k) == []
    decreases |s|
  {
    if s != [] {
      WithKeyAbove(s[1..], key, k);
    }
  }

  /** Inserting `x` puts it ahead of the elements that share its key. */
  lemma InsertStable<T>(x: T, s: seq<T>, key: T -> int, k: int)
    ensures WithKey(Insert(x, s, key), key, k) == (if key(x) == k then [x] else []) + WithKey(s, key, k)
  {
    var p := FirstAtMost(s, key(x), key);
    assert s == s[..p] + s[p..];
    assert [x][1..] == [];
    WithKeyAppend(s[..p] + [x], s[p..], key, k);
    WithKeyAppend(s[..p], [x], key, k);
    WithKeyAppend(s[..p], s[p..], key, k);
    if key(x) == k {
      WithKeyAbove(s[..p], key, k);
    }
  }

  /** The sort is stable: the elements that share a key keep their input order,
      as Python's `sorted(..., reverse=True)` keeps them. */
  lemma {:induction false} SortStable<T>(s: seq<T>, key: T -> int, k: int)
    ensures WithKey(SortDescending(s, key), key, k) == WithKey(s, key, k)
    decreases |s|
  {
    if s != [] {
      SortStable(s[1..], key, k);
      InsertStable(s[0], SortDescending(s[1..], key), key, k);
    }
  }

  // ---------------------------------------------------------------------------
  // Filing by year

  /** The keys of the year dictionary, in the order they were first filed. */
  function YearKeys<T>(ps: seq<T>, yearOf: T -> Option<int>): (ys: seq<int>)
    decreases |ps|
  {
    if ps == [] then []
    else
      var ys := YearKeys(ps[..|ps| - 1], yearOf);
      var y := yearOf(ps[|ps| - 1]);
      if y.Some? && y.value !in ys then ys + [y.value] else ys
  }

  /** The list filed under year `y`, in input order. */
  function InYear<T>(ps: seq<T>, yearOf: T -> Option<int>, y: int): seq<T>
    decreases |ps|
  {
    if ps == [] then []
    else InYear(ps[..|ps| - 1], yearOf, y) + (if yearOf(ps[|ps| - 1]) == Some(y) then [ps[|ps| - 1]] else [])
  }

  /** A year is a key exactly when some entry is filed under it; no key repeats. */
  lemma {:induction false} YearKeysAreTheYears<T>(ps: seq<T>, yearOf: T -> Option<int>)
    ensures NoDuplicates(YearKeys(ps, yearOf))
    ensures forall y :: y in YearKeys(ps, yearOf) <==> exists k :: 0 <= k < |ps| && yearOf(ps[k]) == Some(y)
    decreases |ps|
  {
    if ps != [] {
      var init := ps[..|ps| - 1];
      YearKeysAreTheYears(init, yearOf);
      forall y ensures y in YearKeys(ps, yearOf) <==> exists k :: 0 <= k < |ps| && yearOf(ps[k]) == Some(y) {
        if y in YearKeys(ps, yearOf) {
          if y in YearKeys(init, yearOf) {
            var k :| 0 <= k < |init| && yearOf(init[k]) == Some(y);
            assert ps[k] == init[k];
          } else {
            assert yearOf(ps[|ps| - 1]) == Some(y);
          }
        }
        if exists k :: 0 <= k < |ps| && yearOf(ps[k]) == Some(y) {
          var k :| 0 <= k < |ps| && yearOf(ps[k]) == Some(y);
          if k < |init| {
            assert init[k] == ps[k];
          }
        }
      }
    }
  }

  /** A year that is not a key has an empty list. */
  lemma {:induction false} InYearEmpty<T>(ps: seq<T>, yearOf: T -> Option<int>, y: int)
    requires y !in YearKeys(ps, yearOf)
    ensures InYear(ps, yearOf, y) == []
    decreases |ps|
  {
    if ps != [] {
      var init := ps[..|ps| - 1];
      assert y !in YearKeys(init, yearOf);
      InYearEmpty(init, yearOf, y);
    }
  }

  /** An entry is in the list of year `y` exactly when it is one of `ps` filed under `y`. */
  lemma {:induction false} InYearMembers<T>(ps: seq<T>, yearOf: T -> Option<int>, y: int, x: T)
    ensures x in InYear(ps, yearOf, y) <==> x in ps && yearOf(x) == Some(y)
    decreases |ps|
  {
    if ps != [] {
      var init := ps[..|ps| - 1];
      InYearMembers(init, yearOf, y, x);
      assert ps == init + [ps[|ps| - 1]];
    }
  }

  function Identity(y: int): int { y }

  /** The year sections as printed: the years newest first, each with its entries
      by decreasing `key`. */
  function YearSections<T>(ps: seq<T>, yearOf: T -> Option<int>, key: T -> int): (r: seq<(int, seq<T>)>)
    ensures |r| == |YearKeys(ps, yearOf)|
  {
    var years := SortDescending(YearKeys(ps, yearOf), Identity);
    seq(|years|, j requires 0 <= j < |years| => (years[j], SortDescending(InYear(ps, yearOf, years[j]), key)))
  }

  /** The `j`-th section: the `j`-th year in decreasing order, with its list sorted. */
  lemma YearSectionAt<T>(ps: seq<T>, yearOf: T -> Option<int>, key: T -> int, j: nat)
    requires j < |YearSections(ps, yearOf, key)|
    ensures var years := SortDescending(YearKeys(ps, yearOf), Identity);
      j < |years| && YearSections(ps, yearOf, key)[j] == (years[j], SortDescending(InYear(ps, yearOf, years[j]), key))
  {
  }

  /** The sections come in strictly decreasing year. */
  lemma YearSectionsNewestFirst<T>(ps: seq<T>, yearOf: T -> Option<int>, key: T -> int)
    ensures var r := YearSections(ps, yearOf, key);
      forall i, j :: 0 <= i < j < |r| ==> r[i].0 > r[j].0
  {
    var r := YearSections(ps, yearOf, key);
    var keys := YearKeys(ps, yearOf);
    var years := SortDescending(keys, Identity);
    YearKeysAreTheYears(ps, yearOf);
    SortKeepsDistinct(keys, Identity);
    forall i, j | 0 <= i < j < |r| ensures r[i].0 > r[j].0 {
      YearSectionAt(ps, yearOf, key, i);
      YearSectionAt(ps, yearOf, key, j);
      assert Identity(years[i]) >= Identity(years[j]);
      assert years[i] != years[j];
    }
  }

  /** The `j`-th section lists by decreasing key exactly the entries filed under its year. */
  lemma YearSectionContents<T>(ps: seq<T>, yearOf: T -> Option<int>, key: T -> int, j: nat, x: T)
    requires j < |YearSections(ps, yearOf, key)|
    ensures var r := YearSections(ps, yearOf, key);
      && Descending(r[j].1, key)
      && (x in r[j].1 <==> x in ps && yearOf(x) == Some(r[j].0))
  {
    var r := YearSections(ps, yearOf, key);
    YearSectionAt(ps, yearOf, key, j);
    SortedHasSameMembers(InYear(ps, yearOf, r[j].0), key, x);
    InYearMembers(ps, yearOf, r[j].0, x);
  }

  /** Every filed entry's year has a section. */
  lemma YearSectionsCoverYears<T>(ps: seq<T>, yearOf: T -> Option<int>, key: T -> int, k: nat)
    requires k < |ps| && yearOf(ps[k]).Some?
    ensures var r := YearSections(ps, yearOf, key);
      exists j :: 0 <= j < |r| && r[j].0 == yearOf(ps[k]).value
  {
    var r := YearSections(ps, yearOf, key);
    var keys := YearKeys(ps, yearOf);
    var years := SortDescending(keys, Identity);
    var y := yearOf(ps[k]).value;
    YearKeysAreTheYears(ps, yearOf);
    assert y in keys;
    SortedHasSameMembers(keys, Identity, y);
    var j :| 0 <= j < |years| && years[j] == y;
    YearSectionAt(ps, yearOf, key, j);
    assert r[j].0 == y;
  }
}
