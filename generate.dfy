/** The Python values the schema generator handles, and `clean_nones`
    (GenerateSchema/generate_schema.py). Floats are not modelled. */
module GenerateSchema {
  datatype PyValue =
    | PNone
    | PBool(b: bool)
    | PInt(i: int)
    | PStr(s: string)
    | PList(items: seq<PyValue>)
    | PDict(entries: map<PyValue, PyValue>)

  /** The elements of a list that are not None, in order. */
  function NotNone(xs: seq<PyValue>): (ys: seq<PyValue>)
    ensures forall y :: y in ys ==> y in xs && y != PNone
    ensures forall x :: x in xs && x != PNone ==> x in ys
  {
    if |xs| == 0 then []
    else (if xs[0] == PNone then [] else [xs[0]]) + NotNone(xs[1..])
  }

  /** `clean_nones`: a list keeps its non-None elements, a dict its entries
      whose value is not None, both cleaned in turn; any other value is
      returned as it is. */
  function CleanNones(v: PyValue): (r: PyValue)
    ensures !v.PList? && !v.PDict? ==> r == v
    ensures v.PList? <==> r.PList?
    ensures v.PDict? ==> r.PDict? && forall k :: k in r.entries <==> k in v.entries && v.entries[k] != PNone
  {
    match v
    case PList(xs) =>
      var ys := NotNone(xs);
      PList(seq(|ys|, i requires 0 <= i < |ys| => assert ys[i] in xs; CleanNones(ys[i])))
    case PDict(d) =>
      PDict(map k | k in d && d[k] != PNone :: CleanNones(d[k]))
    case _ => v
  }

  /** No None stands inside a list or a dict, at any depth. */
  predicate NoneFree(v: PyValue)
  {
    match v
    case PList(xs) => forall i :: 0 <= i < |xs| ==> xs[i] != PNone && NoneFree(xs[i])
    case PDict(d) => forall k :: k in d ==> d[k] != PNone && NoneFree(d[k])
    case _ => true
  }

  /** The result of `clean_nones` holds no None inside any list or dict. */
  lemma {:induction false} CleanNonesNoneFree(v: PyValue)
    ensures NoneFree(CleanNones(v))
  {
    match v
    case PList(xs) =>
      var ys := NotNone(xs);
      var r := CleanNones(v);
      forall i | 0 <= i < |r.items| ensures r.items[i] != PNone && NoneFree(r.items[i]) {
        assert ys[i] in xs;
        CleanNonesNoneFree(ys[i]);
        NotNoneStaysNotNone(ys[i]);
      }
    case PDict(d) =>
      var r := CleanNones(v);
      forall k | k in r.entries ensures r.entries[k] != PNone && NoneFree(r.entries[k]) {
        CleanNonesNoneFree(d[k]);
        NotNoneStaysNotNone(d[k]);
      }
    case _ =>
  }

  /** Cleaning never turns a value into None. */
  lemma NotNoneStaysNotNone(v: PyValue)
    ensures v != PNone ==> CleanNones(v) != PNone
  {
  }

  lemma {:induction false} NotNoneOfNoneFree(xs: seq<PyValue>)
    requires forall i :: 0 <= i < |xs| ==> xs[i] != PNone
    ensures NotNone(xs) == xs
  {
    if |xs| > 0 {
      NotNoneOfNoneFree(xs[1..]);
    }
  }

  /** A value without None inside is left alone. */
  lemma {:induction false} CleanNonesFixed(v: PyValue)
    requires NoneFree(v)
    ensures CleanNones(v) == v
  {
    match v
    case PList(xs) =>
      NotNoneOfNoneFree(xs);
      var r := CleanNones(v);
      assert |r.items| == |xs|;
      forall i | 0 <= i < |xs| ensures r.items[i] == xs[i] {
        CleanNonesFixed(xs[i]);
      }
    case PDict(d) =>
      var r := CleanNones(v);
      forall k | k in d ensures r.entries[k] == d[k] {
        CleanNonesFixed(d[k]);
      }
      assert r.entries == d;
    case _ =>
  }

  /** Cleaning twice is cleaning once. */
  lemma CleanNonesIdempotent(v: PyValue)
    ensures CleanNones(CleanNones(v)) == CleanNones(v)
  {
    CleanNonesNoneFree(v);
    CleanNonesFixed(CleanNones(v));
  }

  lemma {:induction false} NotNoneConcat(a: seq<PyValue>, b: seq<PyValue>)
    ensures NotNone(a + b) == NotNone(a) + NotNone(b)
  {
    if |a| > 0 {
      assert (a + b)[1..] == a[1..] + b;
      NotNoneConcat(a[1..], b);
    } else {
      assert a + b == b;
    }
  }

  /** The surviving list elements keep their relative order: cleaning a
      concatenation concatenates the cleaned parts. */
  lemma CleanNonesConcat(a: seq<PyValue>, b: seq<PyValue>)
    ensures CleanNones(PList(a + b)).items == CleanNones(PList(a)).items + CleanNones(PList(b)).items
  {
    NotNoneConcat(a, b);
  }

  /** A single element: None is dropped, anything else is cleaned. */
  lemma CleanNonesSingle(x: PyValue)
    ensures CleanNones(PList([x])).items == if x == PNone then [] else [CleanNones(x)]
  {
    assert NotNone([x]) == (if x == PNone then [] else [x]) + NotNone([]);
  }
}

/** The key/value dictionaries of the example generator
    (GenerateSchema/gen_json_example.py). A dict is a `map`; the insertion
    order Python keeps is not modelled. */
module GenJsonExample {
  import opened GenerateSchema
  import opened GoStrings

  /** Lists and dicts cannot be dict keys (Python raises TypeError). */
  predicate Hashable(v: PyValue)
  {
    !v.PList? && !v.PDict?
  }

  /** `dict(zip(it, it))` over the first `n` pairs of `a`, inserted from the
      left; the first unhashable key aborts. */
  function Pairs(a: seq<PyValue>, n: nat): Option<map<PyValue, PyValue>>
    requires 2 * n <= |a|
  {
    if n == 0 then Some(map[])
    else match Pairs(a, n - 1)
      case None => None
      case Some(m) =>
        if Hashable(a[2 * n - 2]) then Some(m[a[2 * n - 2] := a[2 * n - 1]]) else None
  }

  /** `Convert`: consecutive elements become key and value; a trailing
      unpaired element is dropped. */
  function Convert(a: seq<PyValue>): Option<map<PyValue, PyValue>>
  {
    Pairs(a, |a| / 2)
  }

  /** The keys of the first `n` pairs. */
  ghost function PairKeys(a: seq<PyValue>, n: nat): set<PyValue>
    requires 2 * n <= |a|
  {
    set i | 0 <= i < n :: a[2 * i]
  }

  /** The pairs build a dict exactly when every key is hashable, and then
      its keys are the pairs' keys and each key maps to the value of its
      last pair. */
  lemma PairsContents(a: seq<PyValue>, n: nat)
    requires 2 * n <= |a|
    ensures Pairs(a, n).Some? <==> forall i :: 0 <= i < n ==> Hashable(a[2 * i])
    ensures Pairs(a, n).Some? ==> Pairs(a, n).value.Keys == PairKeys(a, n)
    ensures Pairs(a, n).Some? ==> forall i :: 0 <= i < n && (forall j :: i < j < n ==> a[2 * j] != a[2 * i]) ==>
      Pairs(a, n).value[a[2 * i]] == a[2 * i + 1]
  {
    PairsDefined(a, n);
    if Pairs(a, n).Some? {
      PairsKeys(a, n);
      PairsLast(a, n);
    }
  }

  lemma {:induction false} PairsDefined(a: seq<PyValue>, n: nat)
    requires 2 * n <= |a|
    ensures Pairs(a, n).Some? <==> forall i :: 0 <= i < n ==> Hashable(a[2 * i])
  {
    if n > 0 {
      PairsDefined(a, n - 1);
      assert 2 * (n - 1) == 2 * n - 2;
      if Pairs(a, n).Some? {
        assert Pairs(a, n - 1).Some? && Hashable(a[2 * n - 2]);
        forall i | 0 <= i < n ensures Hashable(a[2 * i]) {
          if i == n - 1 { assert 2 * i == 2 * n - 2; }
        }
      } else if Pairs(a, n - 1).None? {
        var i :| 0 <= i < n - 1 && !Hashable(a[2 * i]);
        assert !Hashable(a[2 * i]);
      } else {
        assert !Hashable(a[2 * (n - 1)]);
      }
    }
  }

  lemma {:induction false} PairsKeys(a: seq<PyValue>, n: nat)
    requires 2 * n <= |a| && Pairs(a, n).Some?
    ensures Pairs(a, n).value.Keys == PairKeys(a, n)
  {
    if n > 0 {
      PairsKeys(a, n - 1);
      var k := a[2 * n - 2];
      forall x ensures x in PairKeys(a, n) <==> x in PairKeys(a, n - 1) || x == k {
        if x in PairKeys(a, n) && x != k {
          var i :| 0 <= i < n && a[2 * i] == x;
          assert i < n - 1;
        }
        if x == k { assert a[2 * (n - 1)] == k; }
      }
    }
  }

  lemma {:induction false} PairsLast(a: seq<PyValue>, n: nat)
    requires 2 * n <= |a| && Pairs(a, n).Some?
    ensures forall i :: 0 <= i < n && (forall j :: i < j < n ==> a[2 * j] != a[2 * i]) ==>
      a[2 * i] in Pairs(a, n).value && Pairs(a, n).value[a[2 * i]] == a[2 * i + 1]
  {
    if n > 0 {
      PairsLast(a, n - 1);
      var m := Pairs(a, n - 1).value;
      var k := a[2 * n - 2];
      assert Pairs(a, n).value == m[k := a[2 * n - 1]];
      forall i | 0 <= i < n && (forall j :: i < j < n ==> a[2 * j] != a[2 * i])
        ensures a[2 * i] in Pairs(a, n).value && Pairs(a, n).value[a[2 * i]] == a[2 * i + 1]
      {
        if i < n - 1 {
          assert a[2 * (n - 1)] != a[2 * i];
        } else {
          assert 2 * i == 2 * n - 2;
        }
      }
    }
  }

  /** `Convert(a)` maps `a[2i]` to `a[2i+1]` when no later pair repeats the
      key: the later pair wins. */
  lemma ConvertLaterWins(a: seq<PyValue>, i: nat)
    requires 2 * i + 1 < |a|
    requires Convert(a).Some?
    requires forall j :: i < j < |a| / 2 ==> a[2 * j] != a[2 * i]
    ensures a[2 * i] in Convert(a).value
    ensures Convert(a).value[a[2 * i]] == a[2 * i + 1]
  {
    PairsContents(a, |a| / 2);
  }

  /** A repeated key keeps the value of its later pair. */
  lemma ConvertRepeatedKey(k: PyValue, v1: PyValue, v2: PyValue)
    requires Hashable(k)
    ensures Convert([k, v1, k, v2]) == Some(map[k := v2])
  {
    var a := [k, v1, k, v2];
    assert Pairs(a, 1) == Some(map[k := v1]);
    assert Pairs(a, 2) == Some(map[k := v1][k := v2]);
    assert map[k := v1][k := v2] == map[k := v2];
  }

  lemma {:induction false} PairsPrefix(a: seq<PyValue>, b: seq<PyValue>, n: nat)
    requires 2 * n <= |a|
    ensures Pairs(a + b, n) == Pairs(a, n)
  {
    if n > 0 {
      PairsPrefix(a, b, n - 1);
      assert (a + b)[2 * n - 2] == a[2 * n - 2] && (a + b)[2 * n - 1] == a[2 * n - 1];
    }
  }

  /** A trailing unpaired element is dropped. */
  lemma ConvertTrailing(a: seq<PyValue>, x: PyValue)
    requires |a| % 2 == 0
    ensures Convert(a + [x]) == Convert(a)
  {
    PairsPrefix(a, [x], |a| / 2);
  }

  /** `dict.fromkeys(ks, None)`: every key, in order, mapped to None. */
  function FromKeys(ks: seq<PyValue>): Option<map<PyValue, PyValue>>
  {
    if |ks| == 0 then Some(map[])
    else match FromKeys(ks[..|ks| - 1])
      case None => None
      case Some(m) =>
        if Hashable(ks[|ks| - 1]) then Some(m[ks[|ks| - 1] := PNone]) else None
  }

  /** The key dictionary holds one entry per distinct key, each None. */
  lemma {:induction false} FromKeysContents(ks: seq<PyValue>)
    ensures FromKeys(ks).Some? <==> forall i :: 0 <= i < |ks| ==> Hashable(ks[i])
    ensures FromKeys(ks).Some? ==> FromKeys(ks).value.Keys == set k | k in ks
    ensures FromKeys(ks).Some? ==> forall k :: k in FromKeys(ks).value ==> FromKeys(ks).value[k] == PNone
  {
    if |ks| > 0 {
      var init := ks[..|ks| - 1];
      FromKeysContents(init);
      assert ks == init + [ks[|ks| - 1]];
      assert (set k | k in ks) == (set k | k in init) + {ks[|ks| - 1]};
    }
  }

  /** Each key followed by None. */
  function WithNones(ks: seq<PyValue>): (a: seq<PyValue>)
    ensures |a| == 2 * |ks|
    ensures forall i :: 0 <= i < |ks| ==> a[2 * i] == ks[i] && a[2 * i + 1] == PNone
  {
    if |ks| == 0 then [] else WithNones(ks[..|ks| - 1]) + [ks[|ks| - 1], PNone]
  }

  /** `dict.fromkeys(ks, None)` is `Convert` of the keys interleaved with None. */
  lemma {:induction false} FromKeysConvert(ks: seq<PyValue>)
    ensures FromKeys(ks) == Convert(WithNones(ks))
  {
    PairsWithNones(ks, |ks|);
    assert ks[..|ks|] == ks;
  }

  lemma {:induction false} PairsWithNones(ks: seq<PyValue>, n: nat)
    requires n <= |ks|
    ensures Pairs(WithNones(ks), n) == FromKeys(ks[..n])
  {
    if n > 0 {
      PairsWithNones(ks, n - 1);
      var a := WithNones(ks);
      assert a[2 * n - 2] == ks[n - 1] && a[2 * n - 1] == PNone;
      var p := ks[..n];
      assert p[..|p| - 1] == ks[..n - 1];
      assert p[|p| - 1] == ks[n - 1];
      assert FromKeys(p) == match FromKeys(ks[..n - 1])
        case None => None
        case Some(m) => if Hashable(ks[n - 1]) then Some(m[ks[n - 1] := PNone]) else None;
    } else {
      assert ks[..0] == [];
    }
  }
}
