/** List, set, path and paging helpers of the web server (web/utils.go). */
module Utils {
  import opened GoStrings
  import opened Sorting

  // ----- fileName -----

  /** `fileName`: the last "/"-separated component, cut at its first ".". */
  function FileName(fname: string): string
  {
    var f := Last(Split(fname, '/'));
    Split(f, '.')[0]
  }

  /** The name never contains a "/" or a ".". */
  lemma FileNameFree(fname: string)
    ensures '/' !in FileName(fname) && '.' !in FileName(fname)
  {
    var parts := Split(fname, '/');
    SplitPartsFree(fname, '/');
    assert Last(parts) in parts;
    var f := Last(parts);
    SplitPartsFree(f, '.');
    assert Split(f, '.')[0] in Split(f, '.');
    SplitFirstIsPrefix(f, '.');
  }

  /** `fileName(dir + "/" + base + "." + ext)` is `base`. */
  lemma FileNameOfPath(dir: string, base: string, ext: string)
    requires '/' !in base && '/' !in ext && '.' !in base
    ensures FileName(dir + "/" + base + "." + ext) == base
  {
    var f := base + "." + ext;
    assert dir + "/" + base + "." + ext == dir + ['/'] + f;
    SplitLastAfter(dir, '/', f);
    IndexAfterFree(base, '.', ext);
  }

  // ----- FindInList, InList -----

  /** `FindInList`: a scan that stops at the first equal element. */
  method FindInList(a: string, arr: seq<string>) returns (found: bool)
    ensures found <==> a in arr
  {
    var i := 0;
    while i < |arr|
      invariant 0 <= i <= |arr|
      invariant a !in arr[..i]
    {
      if arr[i] == a {
        return true;
      }
      assert arr[..i + 1] == arr[..i] + [arr[i]];
      i := i + 1;
    }
    assert arr[..i] == arr;
    return false;
  }

  /** Number of elements of `s` equal to `a`. */
  function Occurrences<T(==)>(a: T, s: seq<T>): nat
  {
    if |s| == 0 then 0 else Occurrences(a, s[..|s| - 1]) + (if s[|s| - 1] == a then 1 else 0)
  }

  lemma {:induction false} OccurrencesPositive<T>(a: T, s: seq<T>)
    ensures Occurrences(a, s) > 0 <==> a in s
    decreases |s|
  {
    if |s| > 0 {
      assert s == s[..|s| - 1] + [s[|s| - 1]];
      OccurrencesPositive(a, s[..|s| - 1]);
    }
  }

  /** `InList`: counts the equal elements, then tests the count. */
  method InList<T(==)>(a: T, list: seq<T>) returns (present: bool)
    ensures present <==> a in list
  {
    var check := 0;
    var i := 0;
    while i < |list|
      invariant 0 <= i <= |list|
      invariant check == Occurrences(a, list[..i])
    {
      if list[i] == a {
        check := check + 1;
      }
      assert list[..i + 1][..i] == list[..i];
      i := i + 1;
    }
    assert list[..i] == list;
    OccurrencesPositive(a, list);
    present := check != 0;
  }

  // ----- MapKeys -----

  /** `MapKeys`: every key once, ascending. */
  method MapKeys<V>(rec: map<string, V>) returns (keys: seq<string>)
    ensures keys == SortedSet(rec.Keys)
  {
    var remaining := rec.Keys;
    var collected: seq<string> := [];
    while remaining != {}
      invariant remaining <= rec.Keys
      invariant Distinct(collected)
      invariant forall x :: x in collected <==> x in rec.Keys && x !in remaining
      decreases |remaining|
    {
      var k :| k in remaining;
      collected := collected + [k];
      remaining := remaining - {k};
    }
    assert (set x | x in collected) == rec.Keys;
    SortSeqOfDistinct(collected);
    keys := SortSeq(collected);
  }

  // ----- EqualLists, CheckEntries -----

  /** Every element of `l1` occurs in `l2`. */
  predicate Covered(l1: seq<string>, l2: seq<string>)
  {
    forall x :: x in l1 ==> x in l2
  }

  /** `EqualLists`: coverage plus equal length. */
  method EqualLists(l1: seq<string>, l2: seq<string>) returns (equal: bool)
    ensures equal <==> Covered(l1, l2) && |l1| == |l2|
  {
    var count := 0;
    var i := 0;
    while i < |l1|
      invariant 0 <= i <= |l1|
      invariant count == i
      invariant Covered(l1[..i], l2)
    {
      var present := InList(l1[i], l2);
      if present {
        count := count + 1;
      } else {
        return false;
      }
      assert l1[..i + 1] == l1[..i] + [l1[i]];
      i := i + 1;
    }
    assert l1[..i] == l1;
    equal := |l2| == count;
  }

  /** EqualLists is not multiset equality: ["a", "a"] and ["a", "b"] pass
      its test. */
  lemma EqualListsIgnoresMultiplicity()
    ensures Covered(["a", "a"], ["a", "b"]) && |["a", "a"]| == |["a", "b"]|
    ensures multiset(["a", "a"]) != multiset(["a", "b"])
  {
    assert multiset(["a", "a"])["b"] == 0;
    assert multiset(["a", "b"])["b"] == 1;
  }

  /** The elements of `l1` that occur in `l2`, in order (`out`). */
  function CoveredPart(l1: seq<string>, l2: seq<string>): seq<string>
  {
    if |l1| == 0 then []
    else CoveredPart(l1[..|l1| - 1], l2) + (if l1[|l1| - 1] in l2 then [l1[|l1| - 1]] else [])
  }

  lemma {:induction false} CoveredPartLength(l1: seq<string>, l2: seq<string>)
    ensures |CoveredPart(l1, l2)| <= |l1|
    ensures |CoveredPart(l1, l2)| == |l1| <==> Covered(l1, l2)
    decreases |l1|
  {
    if |l1| > 0 {
      var init := l1[..|l1| - 1];
      assert l1 == init + [l1[|l1| - 1]];
      CoveredPartLength(init, l2);
    }
  }

  /** `CheckEntries`: collects the covered elements and compares counts. */
  method CheckEntries(l1: seq<string>, l2: seq<string>) returns (ok: bool)
    ensures ok <==> Covered(l1, l2)
  {
    var out: seq<string> := [];
    var i := 0;
    while i < |l1|
      invariant 0 <= i <= |l1|
      invariant out == CoveredPart(l1[..i], l2)
    {
      var present := InList(l1[i], l2);
      if present {
        out := out + [l1[i]];
      }
      assert l1[..i + 1][..i] == l1[..i];
      i := i + 1;
    }
    assert l1[..i] == l1;
    CoveredPartLength(l1, l2);
    ok := |out| == |l1|;
  }

  // ----- List2Set -----

  /** First occurrences of `s`, in order. */
  function Dedup<T(==)>(s: seq<T>): seq<T>
  {
    if |s| == 0 then []
    else
      var d := Dedup(s[..|s| - 1]);
      if s[|s| - 1] in d then d else d + [s[|s| - 1]]
  }

  /** Index of the first occurrence of `x` in `s`. */
  function FirstIndex<T(==)>(x: T, s: seq<T>): (i: nat)
    requires x in s
    ensures i < |s| && s[i] == x && x !in s[..i]
  {
    if s[0] == x then 0
    else
      assert s == [s[0]] + s[1..];
      var j := FirstIndex(x, s[1..]);
      assert s[..j + 1] == [s[0]] + s[1..][..j];
      j + 1
  }

  lemma {:induction false} DedupMember<T>(s: seq<T>, y: T)
    ensures y in Dedup(s) <==> y in s
    decreases |s|
  {
    if |s| > 0 {
      var init := s[..|s| - 1];
      assert s == init + [s[|s| - 1]];
      DedupMember(init, y);
    }
  }

  lemma {:induction false} DedupDistinct<T>(s: seq<T>)
    ensures Distinct(Dedup(s))
    decreases |s|
  {
    if |s| > 0 {
      var init := s[..|s| - 1];
      DedupDistinct(init);
    }
  }

  lemma {:induction false} DedupOrder<T>(s: seq<T>, i: int, j: int)
    requires 0 <= i < j < |Dedup(s)|
    ensures Dedup(s)[i] in s && Dedup(s)[j] in s
    ensures FirstIndex(Dedup(s)[i], s) < FirstIndex(Dedup(s)[j], s)
    decreases |s|
  {
    var init := s[..|s| - 1];
    var x := s[|s| - 1];
    assert s == init + [x];
    var d := Dedup(init);
    DedupMember(s, Dedup(s)[i]);
    DedupMember(s, Dedup(s)[j]);
    DedupMember(init, Dedup(s)[i]);
    if j < |d| {
      DedupOrder(init, i, j);
      DedupMember(init, Dedup(s)[j]);
      FirstIndexPrefix(d[i], init, s);
      FirstIndexPrefix(d[j], init, s);
    } else {
      assert x !in d && Dedup(s)[j] == x;
      DedupMember(init, x);
      assert s[..|s| - 1] == init;
      FirstIndexUnique(x, s, |s| - 1);
      FirstIndexPrefix(d[i], init, s);
    }
  }

  /** Dedup has no repeats, the members of its input, and keeps them in
      order of first occurrence. */
  lemma DedupSpec<T>(s: seq<T>)
    ensures Distinct(Dedup(s))
    ensures forall x :: x in Dedup(s) <==> x in s
    ensures forall i, j :: 0 <= i < j < |Dedup(s)| ==>
      FirstIndex(Dedup(s)[i], s) < FirstIndex(Dedup(s)[j], s)
  {
    DedupDistinct(s);
    forall x ensures x in Dedup(s) <==> x in s {
      DedupMember(s, x);
    }
    forall i, j | 0 <= i < j < |Dedup(s)|
      ensures FirstIndex(Dedup(s)[i], s) < FirstIndex(Dedup(s)[j], s)
    {
      DedupOrder(s, i, j);
    }
  }

  lemma FirstIndexPrefix<T>(y: T, init: seq<T>, s: seq<T>)
    requires y in init && |init| <= |s| && s[..|init|] == init
    ensures FirstIndex(y, s) == FirstIndex(y, init)
  {
    var i := FirstIndex(y, init);
    assert s[i] == init[i];
    assert s[..i] == init[..i];
    FirstIndexUnique(y, s, i);
  }

  /** The first occurrence is the only index with no earlier occurrence. */
  lemma FirstIndexUnique<T>(x: T, s: seq<T>, k: nat)
    requires k < |s| && s[k] == x && x !in s[..k]
    ensures FirstIndex(x, s) == k
  {
    var f := FirstIndex(x, s);
    assert forall j :: 0 <= j < k ==> s[..k][j] == s[j];
    assert forall j :: 0 <= j < f ==> s[..f][j] == s[j];
  }

  /** `List2Set`: keeps an element when it is not yet in the output. */
  method List2Set<T(==)>(arr: seq<T>) returns (out: seq<T>)
    ensures out == Dedup(arr)
  {
    out := [];
    var i := 0;
    while i < |arr|
      invariant 0 <= i <= |arr|
      invariant out == Dedup(arr[..i])
    {
      var present := InList(arr[i], out);
      if !present {
        out := out + [arr[i]];
      }
      assert arr[..i + 1][..i] == arr[..i];
      i := i + 1;
    }
    assert arr[..i] == arr;
  }

  /** ["a", "b", "c", "a"] has three distinct members. */
  lemma List2SetExample()
    ensures Dedup(["a", "b", "c", "a"]) == ["a", "b", "c"]
  {
    var s := ["a", "b", "c", "a"];
    assert s[..3] == ["a", "b", "c"];
    assert ["a", "b", "c"][..2] == ["a", "b"];
    assert ["a", "b"][..1] == ["a"];
    assert ["a"][..0] == [];
    assert Dedup(["a"]) == ["a"];
    assert Dedup(["a", "b"]) == ["a", "b"];
    assert Dedup(["a", "b", "c"]) == ["a", "b", "c"];
  }

  // ----- Expire -----

  /** `Expire(expire)` at clock reading `now`: a value printed with ten
      characters is already a timestamp, anything else is a duration. */
  function Expire(expire: int, now: int): int
  {
    if |Itoa(expire)| == 10 then expire else now + expire
  }

  /** The printed length is ten exactly for ten-digit positive values and
      for nine-digit negative ones. */
  lemma ExpireTimestampRange(expire: int, now: int)
    ensures Expire(expire, now) ==
      if (1_000_000_000 <= expire < 10_000_000_000) || (-1_000_000_000 < expire <= -100_000_000)
      then expire else now + expire
  {
    assert Pow10(9) == 1_000_000_000 && Pow10(10) == 10_000_000_000 && Pow10(8) == 100_000_000 by {
      assert Pow10(1) == 10;
    }
    if expire >= 0 {
      NatTextLength(expire, 10);
    } else {
      NatTextLength(-expire, 9);
    }
  }

  // ----- pagination, makeURL -----

  /** The 1-based first and last result numbers shown on a page. */
  function PageBounds(nres: int, startIdx: int, limit: int): (int, int)
  {
    (if nres > 0 then startIdx + 1 else startIdx,
     if nres > startIdx + limit then startIdx + limit else nres)
  }

  /** On a page that starts inside the results, the shown range holds
      exactly min(limit, nres - startIdx) results. */
  lemma PageBoundsWindow(nres: int, startIdx: int, limit: int)
    requires 0 <= startIdx < nres && limit > 0
    ensures var (first, last) := PageBounds(nres, startIdx, limit);
      1 <= first <= last <= nres &&
      last - first + 1 == (if limit < nres - startIdx then limit else nres - startIdx)
  {
  }

  /** The start index of the last page: the largest multiple of `limit`
      below `nres`. */
  function LastPageStart(nres: int, limit: int): int
    requires limit > 0
  {
    if nres <= 0 then 0 else ((nres - 1) / limit) * limit
  }

  lemma LastPageStartIsLastMultiple(nres: int, limit: int)
    requires limit > 0 && nres > 0
    ensures var j := LastPageStart(nres, limit);
      0 <= j < nres <= j + limit && j % limit == 0
  {
    var q := (nres - 1) / limit;
    assert (nres - 1) == q * limit + (nres - 1) % limit;
    MulMod(q, limit);
  }

  lemma DivBounds(a: int, b: int, q: int)
    requires b > 0 && q * b <= a < q * b + b
    ensures a / b == q
  {
    var d := a / b;
    var m := a % b;
    assert a == d * b + m && 0 <= m < b;
    var x := d - q;
    assert x * b == d * b - q * b;
    MulBetween(x, b);
  }

  lemma MulBetween(x: int, b: int)
    requires b > 0 && -b < x * b < b
    ensures x == 0
  {
    assert x >= 1 ==> x * b >= b;
    assert x <= -1 ==> x * b <= -b;
  }

  lemma MulMod(q: int, b: int)
    requires b > 0
    ensures (q * b) % b == 0
  {
    DivBounds(q * b, b, q);
  }

  /** The index `makeURL` puts into the link of the given type. */
  function PageIndex(urlType: string, startIdx: int, limit: int, nres: int): int
    requires urlType == "last" && nres > 0 ==> limit > 0
  {
    if urlType == "first" then 0
    else if urlType == "prev" then (if startIdx != 0 then startIdx - limit else 0)
    else if urlType == "next" then startIdx + limit
    else if urlType == "last" then (if nres <= 0 then 0 else LastPageStart(nres, limit))
    else 0
  }

  function PageURL(url: string, idx: int, limit: int): string
  {
    url + "&amp;idx=" + Itoa(idx) + "&&amp;limit=" + Itoa(limit)
  }

  /** The loop of `makeURL`'s "last" branch. */
  method LastPageIndex(limit: int, nres: int) returns (j: int)
    requires nres > 0 ==> limit > 0
    ensures j == (if nres <= 0 then 0 else LastPageStart(nres, limit))
  {
    j := 0;
    var i := 0;
    ghost var n := 0;
    while i < nres
      invariant 0 <= n && 0 <= i
      invariant nres > 0 ==> i == n * limit
      invariant nres <= 0 ==> n == 0
      invariant n == 0 ==> i == 0 && j == 0
      invariant n > 0 ==> j == (n - 1) * limit && j < nres
      decreases nres - i
    {
      if i > nres {
        break;
      }
      j := i;
      assert (n + 1) * limit == n * limit + limit;
      i := i + limit;
      n := n + 1;
    }
    if nres > 0 {
      assert n > 0;
      assert n * limit == (n - 1) * limit + limit;
      DivBounds(nres - 1, limit, n - 1);
      assert LastPageStart(nres, limit) == (n - 1) * limit;
    }
  }

  /** The value of `i` in `makeURL`'s "last" loop after `n` passes, leaving
      the loop's `i < nres` and `i > nres` tests aside. */
  function LastLoopCounter(limit: int, n: nat): int
  {
    if n == 0 then 0 else LastLoopCounter(limit, n - 1) + limit
  }

  /** With a page size of at most 0 and at least one result the counter
      stays below `nres` after any number of passes, so the loop ends
      neither by its condition nor by its `break`. */
  lemma {:induction false} LastLoopNeverEnds(limit: int, nres: int, n: nat)
    requires limit <= 0 && nres > 0
    ensures LastLoopCounter(limit, n) <= 0 < nres
  {
    if n > 0 {
      LastLoopNeverEnds(limit, nres, n - 1);
    }
  }

  /** `makeURL`: the page link of the given type. */
  method MakeURL(url: string, urlType: string, startIdx: int, limit: int, nres: int) returns (out: string)
    requires urlType == "last" && nres > 0 ==> limit > 0
    ensures out == PageURL(url, PageIndex(urlType, startIdx, limit, nres), limit)
  {
    var idx := 0;
    if urlType == "first" {
      idx := 0;
    } else if urlType == "prev" {
      if startIdx != 0 {
        idx := startIdx - limit;
      } else {
        idx := 0;
      }
    } else if urlType == "next" {
      idx := startIdx + limit;
    } else if urlType == "last" {
      idx := LastPageIndex(limit, nres);
    }
    out := PageURL(url, idx, limit);
  }

  // ----- fullPath -----

  /** `fullPath` with the working directory as a parameter (None when it
      cannot be determined): relative names are joined to it. */
  function FullPath(fname: string, wd: Option<string>): string
  {
    if HasPrefix(fname, "/") then fname
    else if wd.Some? then wd.value + "/" + fname
    else fname
  }

  /** Absolute names are kept; with an absolute working directory every
      result is absolute, so applying `fullPath` twice changes nothing. */
  lemma FullPathAbsolute(fname: string, wd: Option<string>)
    requires wd.Some? ==> HasPrefix(wd.value, "/")
    ensures HasPrefix(fname, "/") ==> FullPath(fname, wd) == fname
    ensures wd.Some? ==> HasPrefix(FullPath(fname, wd), "/")
    ensures FullPath(FullPath(fname, wd), wd) == FullPath(fname, wd)
  {
    if wd.Some? && !HasPrefix(fname, "/") {
      assert (wd.value + "/" + fname)[..1] == wd.value[..1];
    }
  }
}
