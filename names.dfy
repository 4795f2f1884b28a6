/**
 * Python's ordering of `str` values and `sorted()` on a list of file names.
 */
module NameOrder {

  /**
   * Python's `a < b` on strings: the first differing character decides by code point,
   * and a proper prefix comes first.
   */
  predicate LexLess(a: string, b: string)
    decreases |a|
  {
    |b| > 0 && (|a| == 0 || a[0] < b[0] || (a[0] == b[0] && LexLess(a[1..], b[1..])))
  }

  predicate LexLessEq(a: string, b: string)
  {
    a == b || LexLess(a, b)
  }

  lemma {:induction false} LexLessIrreflexive(a: string)
    decreases |a|
    ensures !LexLess(a, a)
  {
    if |a| > 0 {
      LexLessIrreflexive(a[1..]);
    }
  }

  lemma {:induction false} LexLessAsymmetric(a: string, b: string)
    decreases |a|
    ensures !(LexLess(a, b) && LexLess(b, a))
  {
    if |a| > 0 && |b| > 0 && a[0] == b[0] {
      LexLessAsymmetric(a[1..], b[1..]);
    }
  }

  lemma {:induction false} LexLessTransitive(a: string, b: string, c: string)
    requires LexLess(a, b) && LexLess(b, c)
    decreases |a|
    ensures LexLess(a, c)
  {
    if |a| > 0 && a[0] == b[0] && b[0] == c[0] {
      LexLessTransitive(a[1..], b[1..], c[1..]);
    }
  }

  lemma {:induction false} LexLessTotal(a: string, b: string)
    decreases |a|
    ensures a == b || LexLess(a, b) || LexLess(b, a)
  {
    if |a| > 0 && |b| > 0 && a[0] == b[0] {
      LexLessTotal(a[1..], b[1..]);
      if a[1..] == b[1..] {
        assert a == [a[0]] + a[1..] && b == [b[0]] + b[1..];
      }
    }
  }

  /** A common prefix does not change the order. */
  lemma {:induction false} LexLessCommonPrefix(p: string, a: string, b: string)
    decreases |p|
    ensures LexLess(p + a, p + b) <==> LexLess(a, b)
  {
    if p != [] {
      assert (p + a)[1..] == p[1..] + a && (p + b)[1..] == p[1..] + b;
      LexLessCommonPrefix(p[1..], a, b);
    } else {
      assert p + a == a && p + b == b;
    }
  }

  predicate Sorted(s: seq<string>)
  {
    forall i, j :: 0 <= i < j < |s| ==> LexLessEq(s[i], s[j])
  }

  /** Every name of `s` is at or after `y`. */
  predicate AllAtLeast(y: string, s: seq<string>)
  {
    forall k :: 0 <= k < |s| ==> LexLessEq(y, s[k])
  }

  /** A lower bound of a list bounds every list holding only its names. */
  lemma LowerBoundByMultiset(y: string, s: seq<string>, t: seq<string>)
    requires AllAtLeast(y, s) && multiset(t) <= multiset(s)
    ensures AllAtLeast(y, t)
  {
    forall k | 0 <= k < |t|
      ensures LexLessEq(y, t[k])
    {
      assert t[k] in multiset(t);
      var i :| 0 <= i < |s| && s[i] == t[k];
    }
  }

  /** A name at or before every name of a sorted list can go in front of it. */
  lemma ConsSorted(y: string, t: seq<string>)
    requires Sorted(t) && AllAtLeast(y, t)
    ensures Sorted([y] + t)
  {
    var r := [y] + t;
    forall i, j | 0 <= i < j < |r|
      ensures LexLessEq(r[i], r[j])
    {
      if i > 0 {
        assert r[i] == t[i - 1] && r[j] == t[j - 1];
      } else {
        assert r[j] == t[j - 1];
      }
    }
  }

  /** A name at or before the head of a sorted list is at or before all of it. */
  lemma BelowHead(x: string, s: seq<string>)
    requires Sorted(s) && s != [] && LexLessEq(x, s[0])
    ensures AllAtLeast(x, s)
  {
    forall k | 0 <= k < |s|
      ensures LexLessEq(x, s[k])
    {
      if k > 0 && x != s[0] && s[0] != s[k] {
        LexLessTransitive(x, s[0], s[k]);
      }
    }
  }

  /** Inserting a name into a sorted list at its place. */
  function Insert(x: string, s: seq<string>): (r: seq<string>)
    requires Sorted(s)
    ensures Sorted(r) && multiset(r) == multiset(s) + multiset{x}
  {
    if s == [] then [x]
    else if LexLessEq(x, s[0]) then
      BelowHead(x, s);
      ConsSorted(x, s);
      [x] + s
    else
      var tail := Insert(x, s[1..]);
      InsertBehind(x, s, tail);
      [s[0]] + tail
  }

  /** The head of a sorted list goes in front of the insertion into its tail when `x` is past it. */
  lemma InsertBehind(x: string, s: seq<string>, tail: seq<string>)
    requires Sorted(s) && s != [] && !LexLessEq(x, s[0])
    requires Sorted(tail) && multiset(tail) == multiset(s[1..]) + multiset{x}
    ensures Sorted([s[0]] + tail) && multiset([s[0]] + tail) == multiset(s) + multiset{x}
  {
    var rest := s[1..];
    assert AllAtLeast(s[0], rest) by {
      assert forall k :: 0 <= k < |rest| ==> rest[k] == s[k + 1];
    }
    LexLessTotal(x, s[0]);
    assert AllAtLeast(s[0], rest + [x]) by {
      assert forall k :: 0 <= k < |rest| ==> (rest + [x])[k] == rest[k];
    }
    LowerBoundByMultiset(s[0], rest + [x], tail);
    ConsSorted(s[0], tail);
    assert s == [s[0]] + rest;
  }

  /** `sorted(names)`: the same names, in Python's string order. */
  function SortNames(names: seq<string>): (r: seq<string>)
    ensures Sorted(r) && multiset(r) == multiset(names)
  {
    if names == [] then []
    else
      var r := Insert(names[|names| - 1], SortNames(names[..|names| - 1]));
      assert names == names[..|names| - 1] + [names[|names| - 1]];
      r
  }

  /**
   * A sorted list is determined by its multiset of names: `sorted` has exactly one
   * possible result whatever algorithm computes it.
   */
  lemma {:induction false} SortedUnique(a: seq<string>, b: seq<string>)
    requires Sorted(a) && Sorted(b) && multiset(a) == multiset(b)
    decreases |a|
    ensures a == b
  {
    if a != [] {
      SortedHeads(a, b);
      var x := a[0];
      assert multiset(a) == multiset{x} + multiset(a[1..]) by {
        assert a == [x] + a[1..];
      }
      assert multiset(b) == multiset{x} + multiset(b[1..]) by {
        assert b == [x] + b[1..];
      }
      assert multiset(a[1..]) == multiset(b[1..]) by {
        assert multiset(a[1..]) == multiset(a) - multiset{x};
        assert multiset(b[1..]) == multiset(b) - multiset{x};
      }
      assert Sorted(a[1..]) && Sorted(b[1..]);
      SortedUnique(a[1..], b[1..]);
      assert a == [x] + a[1..] && b == [x] + b[1..];
    }
  }

  /** Two sorted lists with the same names start with the same (least) name. */
  lemma SortedHeads(a: seq<string>, b: seq<string>)
    requires Sorted(a) && Sorted(b) && multiset(a) == multiset(b) && a != []
    ensures b != [] && a[0] == b[0]
  {
    var x := a[0];
    assert x in multiset(b);
    var y := b[0];
    assert y in multiset(a);
    var i :| 0 <= i < |b| && b[i] == x;
    var j :| 0 <= j < |a| && a[j] == y;
    assert LexLessEq(y, x) && LexLessEq(x, y);
    if x != y {
      LexLessAsymmetric(x, y);
    }
  }

  /** Sorting a list that is already in order returns it unchanged. */
  lemma SortOfSorted(names: seq<string>)
    requires Sorted(names)
    ensures SortNames(names) == names
  {
    SortedUnique(SortNames(names), names);
  }

  /** In a sorted list a name comes before every name it is less than. */
  lemma SortedPlacesBefore(s: seq<string>, x: string, y: string)
    requires Sorted(s) && LexLess(x, y)
    ensures forall i, j :: 0 <= i < |s| && 0 <= j < |s| && s[i] == x && s[j] == y ==> i < j
  {
    LexLessIrreflexive(x);
    LexLessAsymmetric(x, y);
  }

  /** Sorting puts name `a` of a list before name `b` whenever it is the lesser. */
  lemma SortPlacesBefore(names: seq<string>, a: nat, b: nat)
    requires a < |names| && b < |names| && LexLess(names[a], names[b])
    ensures var sorted := SortNames(names);
      names[a] in sorted && names[b] in sorted &&
      forall i, j :: 0 <= i < |sorted| && 0 <= j < |sorted| && sorted[i] == names[a] && sorted[j] == names[b] ==> i < j
  {
    var sorted := SortNames(names);
    assert names[a] in multiset(names) && names[b] in multiset(names);
    SortedPlacesBefore(sorted, names[a], names[b]);
  }
}
