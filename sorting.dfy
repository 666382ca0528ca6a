/** Go's string order (byte-wise, which on code points is lexicographic order)
    and the sorted key lists that `sort.Sort(StringList(...))` and `fmt`'s map
    printing produce. */
module Sorting {

  /** Go's `a < b` on strings. */
  predicate Less(a: string, b: string)
    decreases |a|
  {
    if |a| == 0 then |b| > 0
    else if |b| == 0 then false
    else if a[0] != b[0] then a[0] < b[0]
    else Less(a[1..], b[1..])
  }

  lemma {:induction false} LessIrreflexive(a: string)
    ensures !Less(a, a)
    decreases |a|
  {
    if |a| > 0 {
      LessIrreflexive(a[1..]);
    }
  }

  lemma {:induction false} LessAsymmetric(a: string, b: string)
    ensures Less(a, b) ==> !Less(b, a)
    decreases |a|
  {
    if |a| > 0 && |b| > 0 && a[0] == b[0] {
      LessAsymmetric(a[1..], b[1..]);
    }
  }

  lemma {:induction false} LessTransitive(a: string, b: string, c: string)
    requires Less(a, b) && Less(b, c)
    ensures Less(a, c)
    decreases |a|
  {
    if |a| > 0 && |b| > 0 && |c| > 0 && a[0] == b[0] && b[0] == c[0] {
      LessTransitive(a[1..], b[1..], c[1..]);
    }
  }

  lemma {:induction false} LessTotal(a: string, b: string)
    ensures a == b || Less(a, b) || Less(b, a)
    decreases |a|
  {
    if |a| > 0 && |b| > 0 && a[0] == b[0] {
      LessTotal(a[1..], b[1..]);
      if a[1..] == b[1..] {
        assert a == [a[0]] + a[1..] && b == [b[0]] + b[1..];
      }
    }
  }

  lemma LessFacts()
    ensures forall a, b :: Less(a, b) ==> !Less(b, a)
    ensures forall a :: !Less(a, a)
    ensures forall a, b, c :: Less(a, b) && Less(b, c) ==> Less(a, c)
    ensures forall a, b :: a == b || Less(a, b) || Less(b, a)
  {
    forall a, b ensures Less(a, b) ==> !Less(b, a) { LessAsymmetric(a, b); }
    forall a ensures !Less(a, a) { LessIrreflexive(a); }
    forall a, b, c | Less(a, b) && Less(b, c) ensures Less(a, c) { LessTransitive(a, b, c); }
    forall a, b ensures a == b || Less(a, b) || Less(b, a) { LessTotal(a, b); }
  }

  /** Ascending, possibly with repeats. */
  predicate Sorted(s: seq<string>)
  {
    forall i, j :: 0 <= i < j < |s| ==> !Less(s[j], s[i])
  }

  /** Ascending without repeats. */
  predicate StrictlySorted(s: seq<string>)
  {
    forall i, j :: 0 <= i < j < |s| ==> Less(s[i], s[j])
  }

  predicate Distinct<T(==)>(s: seq<T>)
  {
    forall i, j :: 0 <= i < j < |s| ==> s[i] != s[j]
  }

  function Insert(x: string, s: seq<string>): (r: seq<string>)
    requires Sorted(s)
    ensures Sorted(r)
    ensures multiset(r) == multiset(s) + multiset{x}
  {
    if |s| == 0 then [x]
    else if !Less(s[0], x) then
      InsertFront(x, s);
      [x] + s
    else
      var t := Insert(x, s[1..]);
      InsertBehind(x, s, t);
      [s[0]] + t
  }

  lemma InsertFront(x: string, s: seq<string>)
    requires Sorted(s) && |s| > 0 && !Less(s[0], x)
    ensures Sorted([x] + s)
  {
    LessFacts();
    assert forall j :: 0 <= j < |s| ==> !Less(s[j], s[0]);
  }

  lemma InsertBehind(x: string, s: seq<string>, t: seq<string>)
    requires Sorted(s) && |s| > 0 && Less(s[0], x)
    requires Sorted(t) && multiset(t) == multiset(s[1..]) + multiset{x}
    ensures Sorted([s[0]] + t)
    ensures multiset([s[0]] + t) == multiset(s) + multiset{x}
  {
    assert s == [s[0]] + s[1..];
    LessFacts();
    forall j | 0 <= j < |t| ensures !Less(t[j], s[0]) {
      assert t[j] in multiset(t);
      if t[j] != x {
        assert t[j] in multiset(s[1..]);
        var k :| 0 <= k < |s[1..]| && s[1..][k] == t[j];
        assert s[k + 1] == t[j];
      }
    }
  }

  /** sort.Sort(StringList(s)) as insertion sort: the sorted permutation of `s`. */
  function SortSeq(s: seq<string>): (r: seq<string>)
    ensures Sorted(r)
    ensures multiset(r) == multiset(s)
  {
    if |s| == 0 then [] else
      assert s == [s[0]] + s[1..];
      Insert(s[0], SortSeq(s[1..]))
  }

  lemma SortedDistinctIsStrict(s: seq<string>)
    requires Sorted(s) && Distinct(s)
    ensures StrictlySorted(s)
  {
    LessFacts();
  }

  lemma DistinctMultiset(a: seq<string>, b: seq<string>)
    requires multiset(a) == multiset(b) && Distinct(a)
    ensures Distinct(b)
  {
    if !Distinct(b) {
      var i, j :| 0 <= i < j < |b| && b[i] == b[j];
      var x := b[i];
      assert multiset(b)[x] >= 2 by {
        assert b == b[..i] + [x] + b[i + 1..j] + [x] + b[j + 1..];
      }
      CountInDistinct(a, x);
    }
  }

  lemma {:induction false} CountInDistinct(a: seq<string>, x: string)
    requires Distinct(a)
    ensures multiset(a)[x] <= 1
    decreases |a|
  {
    if |a| > 0 {
      assert a == [a[0]] + a[1..];
      CountInDistinct(a[1..], x);
      if a[0] == x {
        assert x !in a[1..];
      }
    }
  }

  /** The least element of a non-empty set of strings. */
  function Least(s: set<string>): (m: string)
    requires s != {}
    ensures m in s && forall y :: y in s && y != m ==> Less(m, y)
  {
    LeastExists(s);
    LessFacts();
    var m :| m in s && forall y :: y in s && y != m ==> Less(m, y);
    m
  }

  lemma {:induction false} LeastExists(s: set<string>)
    requires s != {}
    ensures exists m :: m in s && forall y :: y in s && y != m ==> Less(m, y)
    decreases |s|
  {
    var x :| x in s;
    var rest := s - {x};
    if rest == {} {
      forall y | y in s ensures y == x {
        assert y == x || y in rest;
      }
    } else {
      assert |rest| < |s|;
      LeastExists(rest);
      var m :| m in rest && forall y :: y in rest && y != m ==> Less(m, y);
      LeastOfInsert(rest, x, m);
      assert rest + {x} == s;
    }
  }

  lemma LeastOfInsert(rest: set<string>, x: string, m: string)
    requires m in rest && x !in rest
    requires forall y :: y in rest && y != m ==> Less(m, y)
    ensures exists n :: n in rest + {x} && forall y :: y in rest + {x} && y != n ==> Less(n, y)
  {
    if Less(x, m) {
      forall y | y in rest + {x} && y != x ensures Less(x, y) {
        if y != m { LessTransitive(x, m, y); }
      }
      assert x in rest + {x};
    } else {
      LessTotal(x, m);
      forall y | y in rest + {x} && y != m ensures Less(m, y) {
        if y == x { assert Less(m, x); }
      }
      assert m in rest + {x};
    }
  }

  /** The elements of a set of strings in ascending order. */
  function SortedSet(s: set<string>): (r: seq<string>)
    ensures StrictlySorted(r)
    ensures |r| == |s|
    ensures forall x :: x in r <==> x in s
    decreases |s|
  {
    if s == {} then []
    else
      var m := Least(s);
      var t := SortedSet(s - {m});
      assert forall j :: 0 <= j < |t| ==> t[j] in s - {m};
      [m] + t
  }

  /** Two strictly ascending lists with the same elements are equal. */
  lemma {:induction false} StrictlySortedUnique(a: seq<string>, b: seq<string>)
    requires StrictlySorted(a) && StrictlySorted(b)
    requires forall x :: x in a <==> x in b
    ensures a == b
    decreases |a|
  {
    LessFacts();
    assert |a| > 0 ==> a[0] in b;
    assert |b| > 0 ==> b[0] in a;
    if |a| > 0 && |b| > 0 {
      var k :| 0 <= k < |b| && b[k] == a[0];
      assert !Less(a[0], b[0]);
      var l :| 0 <= l < |a| && a[l] == b[0];
      assert !Less(b[0], a[0]);
      forall x ensures x in a[1..] <==> x in b[1..] {
        if x in a[1..] {
          var i :| 1 <= i < |a| && a[i] == x;
          assert Less(a[0], x);
          assert x in b;
        }
        if x in b[1..] {
          var i :| 1 <= i < |b| && b[i] == x;
          assert Less(b[0], x);
          assert x in a;
        }
      }
      StrictlySortedUnique(a[1..], b[1..]);
      assert a == [a[0]] + a[1..] && b == [b[0]] + b[1..];
    }
  }

  /** Sorting a duplicate-free list yields the ascending list of its
      elements. */
  lemma SortSeqOfDistinct(s: seq<string>)
    requires Distinct(s)
    ensures SortSeq(s) == SortedSet(set x | x in s)
  {
    var r := SortSeq(s);
    DistinctMultiset(s, r);
    SortedDistinctIsStrict(r);
    forall x ensures x in r <==> x in (set y | y in s) {
      assert x in r <==> x in multiset(r);
      assert x in s <==> x in multiset(s);
    }
    StrictlySortedUnique(r, SortedSet(set x | x in s));
  }
  /** Sorting keeps the set of elements. */
  lemma SortSeqElements(s: seq<string>)
    ensures (set x | x in SortSeq(s)) == set x | x in s
  {
    var r := SortSeq(s);
    forall x ensures x in r <==> x in s {
      assert x in r <==> x in multiset(r);
      assert x in s <==> x in multiset(s);
    }
  }

  /** The elements of `s` that satisfy `p`, in order. */
  function Filter(s: seq<string>, p: string -> bool): (r: seq<string>)
    ensures forall x :: x in r <==> x in s && p(x)
  {
    if |s| == 0 then []
    else Filter(s[..|s| - 1], p) + (if p(s[|s| - 1]) then [s[|s| - 1]] else [])
  }

  /** Filtering an ascending list keeps it ascending. */
  lemma {:induction false} FilterStrictlySorted(s: seq<string>, p: string -> bool)
    requires StrictlySorted(s)
    ensures StrictlySorted(Filter(s, p))
  {
    if |s| > 0 {
      var init := s[..|s| - 1];
      assert StrictlySorted(init);
      FilterStrictlySorted(init, p);
      var f := Filter(init, p);
      forall i | 0 <= i < |f| ensures Less(f[i], s[|s| - 1]) {
        assert f[i] in init;
      }
    }
  }

  /** Filtering the ascending list of a set is the ascending list of the
      subset. */
  lemma FilterSortedSet(ks: set<string>, p: string -> bool)
    ensures Filter(SortedSet(ks), p) == SortedSet(set x | x in ks && p(x))
  {
    FilterStrictlySorted(SortedSet(ks), p);
    StrictlySortedUnique(Filter(SortedSet(ks), p), SortedSet(set x | x in ks && p(x)));
  }

  /** Adding an element above all others appends it. */
  lemma SortedSetAppend(s: set<string>, x: string)
    requires x !in s && forall y :: y in s ==> Less(y, x)
    ensures SortedSet(s + {x}) == SortedSet(s) + [x]
  {
    var t := SortedSet(s);
    var r := t + [x];
    forall i | 0 <= i < |t| ensures Less(t[i], x) {
      assert t[i] in s;
    }
    AppendAbove(t, x);
    assert forall y :: y in r <==> y in s + {x};
    StrictlySortedUnique(r, SortedSet(s + {x}));
  }

  lemma AppendAbove(t: seq<string>, x: string)
    requires StrictlySorted(t) && forall i :: 0 <= i < |t| ==> Less(t[i], x)
    ensures StrictlySorted(t + [x])
  {
    var r := t + [x];
    forall i, j | 0 <= i < j < |r| ensures Less(r[i], r[j]) {
      assert r[i] == t[i];
      if j < |t| {
        assert r[j] == t[j];
      }
    }
  }

  /** A duplicate-free list is as long as the set of its elements. */
  lemma {:induction false} DistinctCard<T>(s: seq<T>)
    requires Distinct(s)
    ensures |set x | x in s| == |s|
  {
    if |s| > 0 {
      var init := s[..|s| - 1];
      DistinctCard(init);
      assert (set x | x in s) == (set x | x in init) + {s[|s| - 1]};
    }
  }

  /** A subset is no larger, and a proper subset is smaller. */
  lemma {:induction false} SubsetCard<T>(a: set<T>, b: set<T>)
    requires a <= b
    ensures |a| <= |b|
    ensures a != b ==> |a| < |b|
    decreases |b|
  {
    if b != {} {
      var x :| x in b;
      SubsetCard(a - {x}, b - {x});
      if x in a {
        assert a == (a - {x}) + {x};
      } else {
        assert a - {x} == a;
      }
    }
  }
}
