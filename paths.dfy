/** Project file paths and the alphabetical order the service sorts them by. */
module Paths {

  import opened Linq

  /** A project file path, as the solution file lists it. */
  type Path = string

  /** Ordinal string comparison: `a` sorts no later than `b`, comparing character codes
      left to right, a proper prefix first. */
  predicate AtMost(a: Path, b: Path)
  {
    a == [] || (b != [] && (a[0] < b[0] || (a[0] == b[0] && AtMost(a[1..], b[1..]))))
  }

  lemma {:induction false} AtMostReflexive(a: Path)
    ensures AtMost(a, a)
  {
    if a != [] { AtMostReflexive(a[1..]); }
  }

  lemma {:induction false} AtMostTotal(a: Path, b: Path)
    ensures AtMost(a, b) || AtMost(b, a)
  {
    if a != [] && b != [] && a[0] == b[0] { AtMostTotal(a[1..], b[1..]); }
  }

  lemma {:induction false} AtMostAntisymmetric(a: Path, b: Path)
    requires AtMost(a, b) && AtMost(b, a)
    ensures a == b
  {
    if a != [] && b != [] {
      AtMostAntisymmetric(a[1..], b[1..]);
      assert a == [a[0]] + a[1..] && b == [b[0]] + b[1..];
    }
  }

  lemma {:induction false} AtMostTransitive(a: Path, b: Path, c: Path)
    requires AtMost(a, b) && AtMost(b, c)
    ensures AtMost(a, c)
  {
    if a != [] && b != [] && c != [] && a[0] == b[0] && b[0] == c[0] {
      AtMostTransitive(a[1..], b[1..], c[1..]);
    }
  }

  /** Each path sorts no later than the one after it. */
  predicate Ascending(s: seq<Path>)
  {
    forall i :: 0 < i < |s| ==> AtMost(s[i - 1], s[i])
  }

  /** In an ascending sequence every path sorts no later than every path after it. */
  lemma {:induction false} AscendingOrdered(s: seq<Path>, i: nat, j: nat)
    requires Ascending(s) && i <= j < |s|
    ensures AtMost(s[i], s[j])
    decreases j - i
  {
    if i == j {
      AtMostReflexive(s[i]);
    } else {
      AscendingOrdered(s, i, j - 1);
      AtMostTransitive(s[i], s[j - 1], s[j]);
    }
  }

  /** Inserts `x` into an ascending sequence, before the first element it does not follow. */
  function Insert(x: Path, s: seq<Path>): (r: seq<Path>)
    requires Ascending(s)
    ensures Ascending(r)
    ensures multiset(r) == multiset(s) + multiset{x}
    ensures |r| == |s| + 1
    ensures r[0] == x || (s != [] && r[0] == s[0])
  {
    if s == [] then [x]
    else if AtMost(x, s[0]) then [x] + s
    else
      AtMostTotal(x, s[0]);
      assert s == [s[0]] + s[1..];
      [s[0]] + Insert(x, s[1..])
  }

  /** `SortAlphabetically`, the R5T.Magyar extension the remove loop iterates in: the paths in
      ascending order. Its comparer is not part of this model; the ordinal order stands in. */
  function SortAlphabetically(s: seq<Path>): (r: seq<Path>)
    ensures Ascending(r)
    ensures multiset(r) == multiset(s)
    ensures |r| == |s|
  {
    if s == [] then []
    else
      assert s == [s[0]] + s[1..];
      Insert(s[0], SortAlphabetically(s[1..]))
  }

  /** Sorting keeps exactly the paths it was given. */
  lemma SortAlphabeticallyMembers(s: seq<Path>)
    ensures forall p :: p in SortAlphabetically(s) <==> p in s
  {
    var r := SortAlphabetically(s);
    forall p ensures p in r <==> p in s {
      assert p in r <==> p in multiset(r);
      assert p in s <==> p in multiset(s);
    }
  }

  /** Sorting paths that occur once each still lists every path once. */
  lemma SortAlphabeticallyStrict(s: seq<Path>)
    requires Distinct(s)
    ensures Distinct(SortAlphabetically(s))
  {
    PermutationDistinct(s, SortAlphabetically(s));
  }
}
