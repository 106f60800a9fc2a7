/** The sequence operators the service uses: LINQ's `Except`, and removing a set of entries. */
module Linq {

  /** No element occurs twice. */
  predicate Distinct<T(==, !new)>(s: seq<T>)
  {
    forall i, j :: 0 <= i < j < |s| ==> s[i] != s[j]
  }

  lemma HeadIsMember<T>(s: seq<T>)
    ensures s != [] ==> s[0] in s
  {
  }

  /** The elements of a sequence, as a set. */
  function Elements<T(==, !new)>(s: seq<T>): set<T>
  {
    set x | x in s
  }

  /** Enumerates `first`, yielding each element not yet in `seen` and then adding it to `seen`:
      the loop behind `Enumerable.Except`, whose hash set starts out holding the second sequence. */
  function ExceptFrom<T(==, !new)>(first: seq<T>, seen: set<T>): (r: seq<T>)
    ensures forall x :: x in r <==> x in first && x !in seen
    ensures Distinct(r)
  {
    if first == [] then []
    else if first[0] in seen then ExceptFrom(first[1..], seen)
    else
      var rest := ExceptFrom(first[1..], seen + {first[0]});
      assert first[0] !in rest;
      [first[0]] + rest
  }

  /** `first.Except(second)`: the distinct elements of `first` that are not in `second`,
      in the order of their first occurrence in `first`. */
  function Except<T(==, !new)>(first: seq<T>, second: seq<T>): (r: seq<T>)
    ensures forall x :: x in r <==> x in first && x !in second
    ensures Distinct(r)
  {
    ExceptFrom(first, Elements(second))
  }

  lemma {:induction false} ExceptFromSnoc<T(!new)>(first: seq<T>, seen: set<T>, x: T)
    ensures ExceptFrom(first + [x], seen)
         == ExceptFrom(first, seen) + (if x in first || x in seen then [] else [x])
    decreases |first|
  {
    if first == [] {
      assert first + [x] == [x];
      assert ExceptFrom([x], seen + {x}) == [];
    } else {
      var h, t := first[0], first[1..];
      assert (first + [x])[0] == h && (first + [x])[1..] == t + [x];
      assert x in first <==> x == h || x in t by {
        assert first == [h] + t;
      }
      if h in seen {
        ExceptFromSnoc(t, seen, x);
      } else {
        ExceptFromSnoc(t, seen + {h}, x);
        assert ExceptFrom(first + [x], seen) == [h] + ExceptFrom(t + [x], seen + {h});
        assert ExceptFrom(first, seen) == [h] + ExceptFrom(t, seen + {h});
      }
    }
  }

  /** Order of first occurrence: appending an element to `first` appends it to the result
      exactly when it is new to `first` and absent from `second`. */
  lemma ExceptSnoc<T(!new)>(first: seq<T>, second: seq<T>, x: T)
    ensures Except(first + [x], second)
         == Except(first, second) + (if x in first || x in second then [] else [x])
  {
    ExceptFromSnoc(first, Elements(second), x);
  }

  /** The entries of `s` that are not in `drop`, in their original order. */
  function Without<T(==, !new)>(s: seq<T>, drop: set<T>): (r: seq<T>)
    ensures forall x :: x in r <==> x in s && x !in drop
    ensures |r| <= |s|
  {
    if s == [] then []
    else if s[0] in drop then Without(s[1..], drop)
    else [s[0]] + Without(s[1..], drop)
  }

  /** Dropping `a` and then `b` is dropping both at once. */
  lemma {:induction false} WithoutTwice<T(!new)>(s: seq<T>, a: set<T>, b: set<T>)
    ensures Without(Without(s, a), b) == Without(s, a + b)
  {
    if s != [] {
      WithoutTwice(s[1..], a, b);
    }
  }

  /** Dropping entries that do not occur changes nothing. */
  lemma {:induction false} WithoutAbsent<T(!new)>(s: seq<T>, drop: set<T>)
    requires forall x :: x in drop ==> x !in s
    ensures Without(s, drop) == s
  {
    if s != [] {
      WithoutAbsent(s[1..], drop);
      assert s == [s[0]] + s[1..];
    }
  }

  lemma {:induction false} WithoutDistinct<T(!new)>(s: seq<T>, drop: set<T>)
    requires Distinct(s)
    ensures Distinct(Without(s, drop))
  {
    if s != [] {
      assert Distinct(s[1..]) by {
        forall i, j | 0 <= i < j < |s[1..]| ensures s[1..][i] != s[1..][j] {
          assert s[1..][i] == s[i + 1] && s[1..][j] == s[j + 1];
        }
      }
      WithoutDistinct(s[1..], drop);
      assert s[0] !in s[1..];
    }
  }

  /** On a sequence without repeats, `Except` keeps exactly the entries not in `second`,
      in their original order. */
  lemma ExceptOfDistinct<T(!new)>(first: seq<T>, second: seq<T>)
    requires Distinct(first)
    ensures Except(first, second) == Without(first, Elements(second))
  {
    ExceptFromOfDistinct(first, Elements(second));
  }

  lemma {:induction false} ExceptFromOfDistinct<T(!new)>(first: seq<T>, seen: set<T>)
    requires Distinct(first)
    ensures ExceptFrom(first, seen) == Without(first, seen)
    decreases |first|
  {
    if first != [] {
      var h, t := first[0], first[1..];
      assert Distinct(t) by {
        forall i, j | 0 <= i < j < |t| ensures t[i] != t[j] {
          assert t[i] == first[i + 1] && t[j] == first[j + 1];
        }
      }
      if h in seen {
        ExceptFromOfDistinct(t, seen);
      } else {
        ExceptFromOfDistinct(t, seen + {h});
        assert h !in t;
        WithoutTwice(t, seen, {h});
        WithoutAbsent(Without(t, seen), {h});
      }
    }
  }

  lemma DistinctConcat<T(!new)>(a: seq<T>, b: seq<T>)
    requires Distinct(a) && Distinct(b)
    requires forall x :: x in b ==> x !in a
    ensures Distinct(a + b)
  {
    forall i, j | 0 <= i < j < |a + b| ensures (a + b)[i] != (a + b)[j] {
      if j < |a| {
        assert (a + b)[i] == a[i] && (a + b)[j] == a[j];
      } else if i < |a| {
        assert (a + b)[i] == a[i] && (a + b)[j] == b[j - |a|];
        assert b[j - |a|] in b;
      } else {
        assert (a + b)[i] == b[i - |a|] && (a + b)[j] == b[j - |a|];
      }
    }
  }

  lemma DistinctSplit<T(!new)>(a: seq<T>, b: seq<T>)
    requires Distinct(a + b)
    ensures Distinct(a) && Distinct(b)
    ensures forall p :: p in b ==> p !in a
  {
    forall i, j | 0 <= i < j < |a| ensures a[i] != a[j] {
      assert (a + b)[i] == a[i] && (a + b)[j] == a[j];
    }
    forall i, j | 0 <= i < j < |b| ensures b[i] != b[j] {
      assert (a + b)[|a| + i] == b[i] && (a + b)[|a| + j] == b[j];
    }
    forall p | p in b ensures p !in a {
      var j :| 0 <= j < |b| && b[j] == p;
      forall i | 0 <= i < |a| ensures a[i] != p {
        assert (a + b)[i] == a[i] && (a + b)[|a| + j] == b[j];
      }
    }
  }

  /** In a sequence without repeats every element occurs once. */
  lemma {:induction false} DistinctMultiplicity<T(!new)>(s: seq<T>, x: T)
    requires Distinct(s)
    ensures multiset(s)[x] <= 1
  {
    if s != [] {
      var h, t := s[0], s[1..];
      assert s == [h] + t;
      assert Distinct(t) by {
        forall i, j | 0 <= i < j < |t| ensures t[i] != t[j] {
          assert t[i] == s[i + 1] && t[j] == s[j + 1];
        }
      }
      DistinctMultiplicity(t, x);
      assert h !in t;
      assert multiset(s) == multiset{h} + multiset(t);
    }
  }

  /** A rearrangement of a sequence without repeats has no repeats. */
  lemma PermutationDistinct<T(!new)>(a: seq<T>, b: seq<T>)
    requires Distinct(a) && multiset(a) == multiset(b)
    ensures Distinct(b)
  {
    forall i, j | 0 <= i < j < |b| ensures b[i] != b[j] {
      if b[i] == b[j] {
        assert b == b[..j] + b[j..];
        assert b[i] in b[..j] && b[j] in b[j..];
        assert multiset(b) == multiset(b[..j]) + multiset(b[j..]);
        DistinctMultiplicity(a, b[i]);
        assert false;
      }
    }
  }
}
