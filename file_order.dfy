/**
  The order in which annotation files are visited: Python's `sorted` on the
  list of paths that `glob` returns, which compares strings code point by
  code point, a proper prefix coming first.
*/
module FileOrder {

  /** Python's `a <= b` on strings. */
  predicate Le(a: string, b: string)
    decreases |a|
  {
    a == [] || (b != [] && (a[0] < b[0] || (a[0] == b[0] && Le(a[1..], b[1..]))))
  }

  lemma {:induction false} LeReflexive(a: string)
    ensures Le(a, a)
    decreases |a|
  {
    if a != [] {
      LeReflexive(a[1..]);
    }
  }

  lemma {:induction false} LeTotal(a: string, b: string)
    ensures Le(a, b) || Le(b, a)
    decreases |a|
  {
    if a != [] && b != [] && a[0] == b[0] {
      LeTotal(a[1..], b[1..]);
    }
  }

  lemma {:induction false} LeTransitive(a: string, b: string, c: string)
    requires Le(a, b) && Le(b, c)
    ensures Le(a, c)
    decreases |a|
  {
    if a != [] && a[0] == b[0] && b[0] == c[0] {
      LeTransitive(a[1..], b[1..], c[1..]);
    }
  }

  lemma {:induction false} LeAntisymmetric(a: string, b: string)
    requires Le(a, b) && Le(b, a)
    ensures a == b
    decreases |a|
  {
    if a != [] {
      LeAntisymmetric(a[1..], b[1..]);
      assert a == [a[0]] + a[1..] && b == [b[0]] + b[1..];
    }
  }

  predicate Sorted(s: seq<string>) {
    forall i, j :: 0 <= i < j < |s| ==> Le(s[i], s[j])
  }

  /** Insert `x` into a sorted list, before the first element it does not exceed. */
  function Insert(x: string, s: seq<string>): (r: seq<string>)
    ensures |r| == |s| + 1
  {
    if s == [] then [x]
    else if Le(x, s[0]) then [x] + s
    else [s[0]] + Insert(x, s[1..])
  }

  /** Inserting adds `x` once and keeps every other path. */
  lemma {:induction false} InsertContents(x: string, s: seq<string>)
    ensures multiset(Insert(x, s)) == multiset(s) + multiset{x}
    decreases |s|
  {
    if s != [] && !Le(x, s[0]) {
      InsertContents(x, s[1..]);
      assert s == [s[0]] + s[1..];
      assert Insert(x, s) == [s[0]] + Insert(x, s[1..]);
    }
  }

  /** A path no greater than any element of a sorted list can go in front of it. */
  lemma ConsSorted(y: string, t: seq<string>)
    requires Sorted(t)
    requires forall j :: 0 <= j < |t| ==> Le(y, t[j])
    ensures Sorted([y] + t)
  {
    var r := [y] + t;
    forall i, j | 0 <= i < j < |r| ensures Le(r[i], r[j]) {
      assert r[j] == t[j - 1];
      if i > 0 { assert r[i] == t[i - 1]; }
    }
  }

  /** Inserting into a sorted list keeps it sorted. */
  lemma {:induction false} InsertSorted(x: string, s: seq<string>)
    requires Sorted(s)
    ensures Sorted(Insert(x, s))
    decreases |s|
  {
    if s == [] {
    } else if Le(x, s[0]) {
      forall j | 0 <= j < |s| ensures Le(x, s[j]) {
        if j > 0 { LeTransitive(x, s[0], s[j]); }
      }
      ConsSorted(x, s);
    } else {
      var t := s[1..];
      var r' := Insert(x, t);
      assert Sorted(t);
      InsertSorted(x, t);
      InsertContents(x, t);
      LeTotal(x, s[0]);
      forall j | 0 <= j < |r'| ensures Le(s[0], r'[j]) {
        assert r'[j] in multiset(r');
        if r'[j] != x {
          assert r'[j] in multiset(t);
          var k :| 0 <= k < |t| && t[k] == r'[j];
          assert t[k] == s[k + 1];
        }
      }
      ConsSorted(s[0], r');
    }
  }

  /** `sorted(paths)`: the paths in ascending order, each kept as often as listed. */
  function SortPaths(s: seq<string>): (r: seq<string>)
    ensures |r| == |s|
  {
    if s == [] then [] else Insert(s[0], SortPaths(s[1..]))
  }

  /** Sorting keeps every path as often as it is listed. */
  lemma {:induction false} SortPathsContents(s: seq<string>)
    ensures multiset(SortPaths(s)) == multiset(s)
    decreases |s|
  {
    if s != [] {
      SortPathsContents(s[1..]);
      InsertContents(s[0], SortPaths(s[1..]));
      assert s == [s[0]] + s[1..];
    }
  }

  /** The visiting order is ascending. */
  lemma {:induction false} SortPathsSorted(s: seq<string>)
    ensures Sorted(SortPaths(s))
    decreases |s|
  {
    if s != [] {
      SortPathsSorted(s[1..]);
      InsertSorted(s[0], SortPaths(s[1..]));
    }
  }

  /** The head of a sorted list is no greater than anything in it. */
  lemma SortedHeadLe(a: seq<string>, y: string)
    requires Sorted(a) && y in multiset(a)
    ensures a != [] && Le(a[0], y)
  {
    assert y in a;
    var j :| 0 <= j < |a| && a[j] == y;
    if j > 0 { assert Le(a[0], a[j]); } else { LeReflexive(y); }
  }

  /** Dropping the head of a list removes one copy of it. */
  lemma DropHead(a: seq<string>)
    requires a != []
    ensures multiset(a[1..]) == multiset(a) - multiset{a[0]}
    ensures a == [a[0]] + a[1..]
  {
    assert a == [a[0]] + a[1..];
  }

  /** Two sorted lists holding the same paths are the same list. */
  lemma {:induction false} SortedUnique(a: seq<string>, b: seq<string>)
    requires Sorted(a) && Sorted(b) && multiset(a) == multiset(b)
    ensures a == b
    decreases |a|
  {
    if a == [] {
      assert |multiset(b)| == 0;
    } else {
      assert a[0] in multiset(a);
      SortedHeadLe(b, a[0]);
      SortedHeadLe(a, b[0]);
      LeAntisymmetric(a[0], b[0]);
      DropHead(a);
      DropHead(b);
      assert Sorted(a[1..]) && Sorted(b[1..]);
      SortedUnique(a[1..], b[1..]);
    }
  }

  /**
    The visiting order depends only on which files the directory holds, not
    on the order in which `glob` happens to list them.
  */
  lemma VisitOrderIgnoresListingOrder(a: seq<string>, b: seq<string>)
    requires multiset(a) == multiset(b)
    ensures SortPaths(a) == SortPaths(b)
  {
    SortPathsSorted(a);
    SortPathsSorted(b);
    SortPathsContents(a);
    SortPathsContents(b);
    SortedUnique(SortPaths(a), SortPaths(b));
  }
}
