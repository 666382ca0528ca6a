/** The per-value rules of the web server's record validator: a schema
    record, the type check `validSchemaType` and the enumeration check
    `validDataValue` (web/schema.go). */
module SchemaTypes {
  import opened GoStrings
  import opened Sorting
  import opened GoValues

  /** One entry of a schema file. `Value`, when present, lists the values
      allowed for the key. */
  datatype SchemaRecord = SchemaRecord(
    Key: string,
    Type: string,
    Optional: bool,
    Multiple: bool,
    Section: string,
    Value: Value,
    Placeholder: string,
    Description: string)

  /** `validSchemaType(stype, v)`: does the dynamic type of `v` fit the
      declared type `stype`? */
  function ValidSchemaType(stype: string, v: Value): bool
  {
    if (IsIntZero(v) || IsFloat64Zero(v)) && (Contains(stype, "int") || Contains(stype, "float")) then
      true
    else
      var etype := TypeTag(v);
      var sv := Format(v);
      var vtype := TypeName(v);
      if stype == "int64" && vtype == "float64" && !Contains(sv, ".") then true
      else if stype == "list_float" && vtype == "[]interface {}" then true
      else if stype == "list_float" && vtype == "[]string" && sv == "[]" then true
      else if sv == "" && etype != "string" then false
      else stype == etype
  }

  /** A `[]string` prints as "[]" exactly when it is empty or holds one
      empty string. */
  lemma EmptyListText(xs: seq<string>)
    ensures Format(VStrList(xs)) == "[]" <==> xs == [] || xs == [""]
  {
    if |xs| >= 2 {
      JoinCons(xs[0], xs[1..], " ");
      assert xs == [xs[0]] + xs[1..];
    }
  }

  /** The cases in which `validSchemaType` accepts, stated on the value's
      constructor rather than on its printed forms. */
  lemma ValidSchemaTypeCases(stype: string, v: Value)
    requires v.VFloat? ==> v.text != ""
    ensures ValidSchemaType(stype, v) <==>
      ((IsIntZero(v) || IsFloat64Zero(v)) && (Contains(stype, "int") || Contains(stype, "float")))
      || (stype == "int64" && v.VFloat? && v.fkind == Float64 && '.' !in v.text)
      || (stype == "list_float" && v.VAnyList?)
      || (stype == "list_float" && v.VStrList? && (v.strs == [] || v.strs == [""]))
      || stype == TypeTag(v)
  {
    FormatEmpty(v);
    if v.VFloat? {
      ContainsChar(v.text, '.');
    }
    if v.VStrList? {
      EmptyListText(v.strs);
    }
    assert TypeName(v) == "float64" <==> v.VFloat? && v.fkind == Float64;
    assert TypeName(v) == "[]interface {}" <==> v.VAnyList?;
    assert TypeName(v) == "[]string" <==> v.VStrList?;
  }

  /** No value passes the declared type "list": the type tags are list_str,
      list_int and list_float. */
  lemma PlainListNeverValid(v: Value)
    ensures !ValidSchemaType("list", v)
  {
    ContainsNeedsChar("list", "int", 'n');
    ContainsNeedsChar("list", "float", 'f');
  }

  /** A `float64` passes the declared type "float" only when it is zero:
      the tag of a `float64` is "float64". */
  lemma FloatRejectsFloat64(text: string, isZero: bool)
    ensures ValidSchemaType("float", VFloat(Float64, text, isZero)) <==> isZero
  {
    assert OccursAt("float", "float", 0);
  }

  /** The zero exemption: a Go `int` 0 or `float64` 0 passes every declared
      type that mentions int or float. */
  lemma ZeroPassesNumericTypes(stype: string, v: Value)
    requires IsIntZero(v) || IsFloat64Zero(v)
    requires Contains(stype, "int") || Contains(stype, "float")
    ensures ValidSchemaType(stype, v)
  {
  }

  /** A `float64` printed without a dot passes "int64". */
  lemma IntegralFloatPassesInt64(text: string, isZero: bool)
    requires '.' !in text
    ensures ValidSchemaType("int64", VFloat(Float64, text, isZero))
  {
    ContainsChar(text, '.');
  }

  // ----- validDataValue -----

  datatype Verdict = Accepted | Rejected | Panicked

  /** The allowed values of an enumeration as strings: `%v` of each entry,
      blanks trimmed. */
  function EnumStrings(items: seq<Value>): (r: seq<string>)
    ensures |r| == |items|
  {
    seq(|items|, i requires 0 <= i < |items| => TrimBlanks(Format(items[i])))
  }

  /** Every string of `xs` split on single blanks, in order. */
  function SplitWords(xs: seq<string>): seq<string>
  {
    if |xs| == 0 then [] else SplitWords(xs[..|xs| - 1]) + Split(xs[|xs| - 1], ' ')
  }

  /** The strings a list input is checked by (`rvalues`): split words of a
      `[]string`, `%v` of each element of a `[]interface{}`, nothing for
      other slices. */
  function ListElements(v: Value): seq<string>
  {
    match v
    case VStrList(xs) => SplitWords(xs)
    case VAnyList(items) => seq(|items|, i requires 0 <= i < |items| => Format(items[i]))
    case _ => []
  }

  /** How many entries of `values` equal `x`. */
  function Matches(x: string, values: seq<string>): nat
  {
    if |values| == 0 then 0
    else Matches(x, values[..|values| - 1]) + (if values[|values| - 1] == x then 1 else 0)
  }

  /** How many (element, entry) pairs are equal (`len(matchArr)`). */
  function PairMatches(rs: seq<string>, values: seq<string>): nat
  {
    if |rs| == 0 then 0 else PairMatches(rs[..|rs| - 1], values) + Matches(rs[|rs| - 1], values)
  }

  /** What `validDataValue(rec, v)` decides; `Panicked` is the failed
      assertion of a non-list enumeration to `[]any`. */
  function DataValueVerdict(rec: SchemaRecord, v: Value): Verdict
  {
    if !HasPrefix(rec.Type, "list") || rec.Value == VNil then Accepted
    else if !rec.Value.VAnyList? then Panicked
    else
      var values := EnumStrings(rec.Value.items);
      if IsSlice(v) then
        var rs := ListElements(v);
        if PairMatches(rs, values) == |rs| then Accepted else Rejected
      else if v.VString? && v.s in values then Accepted
      else Rejected
  }

  method ValidDataValue(rec: SchemaRecord, v: Value) returns (verdict: Verdict)
    ensures verdict == DataValueVerdict(rec, v)
  {
    if !HasPrefix(rec.Type, "list") || rec.Value == VNil {
      return Accepted;
    }
    if !rec.Value.VAnyList? {
      return Panicked;
    }
    var values := CollectEnum(rec.Value.items);
    if IsSlice(v) {
      var rvalues := CollectElements(v);
      var matches := CountPairs(rvalues, values);
      verdict := if matches == |rvalues| then Accepted else Rejected;
    } else {
      var matched := ScalarMatch(v, values);
      verdict := if matched then Accepted else Rejected;
    }
  }

  /** The loop that compares a scalar input with each allowed string. */
  method ScalarMatch(v: Value, values: seq<string>) returns (matched: bool)
    ensures matched <==> v.VString? && v.s in values
  {
    matched := false;
    var j := 0;
    while j < |values|
      invariant 0 <= j <= |values|
      invariant matched <==> v.VString? && v.s in values[..j]
    {
      if v == VString(values[j]) {
        matched := true;
      }
      assert values[..j + 1] == values[..j] + [values[j]];
      j := j + 1;
    }
    assert values[..j] == values;
  }

  /** The loop that gathers the trimmed enumeration strings. */
  method CollectEnum(enum: seq<Value>) returns (values: seq<string>)
    ensures values == EnumStrings(enum)
  {
    values := [];
    ghost var want := EnumStrings(enum);
    var i := 0;
    while i < |enum|
      invariant 0 <= i <= |enum|
      invariant values == want[..i]
    {
      values := values + [TrimBlanks(Format(enum[i]))];
      assert want[..i + 1] == want[..i] + [want[i]];
      i := i + 1;
    }
    assert want[..i] == want;
  }

  /** The nested loops that append one `true` per equal pair. */
  method CountPairs(rvalues: seq<string>, values: seq<string>) returns (matches: nat)
    ensures matches == PairMatches(rvalues, values)
  {
    matches := 0;
    var j := 0;
    while j < |rvalues|
      invariant 0 <= j <= |rvalues|
      invariant matches == PairMatches(rvalues[..j], values)
    {
      var k := 0;
      var inner := 0;
      while k < |values|
        invariant 0 <= k <= |values|
        invariant inner == Matches(rvalues[j], values[..k])
      {
        if rvalues[j] == values[k] {
          inner := inner + 1;
        }
        assert values[..k + 1][..k] == values[..k];
        k := k + 1;
      }
      assert values[..k] == values;
      assert rvalues[..j + 1][..j] == rvalues[..j];
      matches := matches + inner;
      j := j + 1;
    }
    assert rvalues[..j] == rvalues;
  }

  /** The loop that gathers `rvalues` from a slice input. */
  method CollectElements(v: Value) returns (rvalues: seq<string>)
    ensures rvalues == ListElements(v)
  {
    rvalues := [];
    match v {
      case VStrList(xs) =>
        rvalues := CollectWords(xs);
      case VAnyList(items) =>
        rvalues := CollectFormats(items);
      case _ =>
    }
  }

  /** A `[]string` input: every string split on blanks, word by word. */
  method CollectWords(xs: seq<string>) returns (rvalues: seq<string>)
    ensures rvalues == SplitWords(xs)
  {
    rvalues := [];
    var i := 0;
    while i < |xs|
      invariant 0 <= i <= |xs|
      invariant rvalues == SplitWords(xs[..i])
    {
      var words := Split(xs[i], ' ');
      var k := 0;
      while k < |words|
        invariant 0 <= k <= |words|
        invariant rvalues == SplitWords(xs[..i]) + words[..k]
      {
        rvalues := rvalues + [words[k]];
        assert words[..k + 1] == words[..k] + [words[k]];
        k := k + 1;
      }
      assert words[..k] == words;
      assert xs[..i + 1][..i] == xs[..i];
      i := i + 1;
    }
    assert xs[..i] == xs;
  }

  /** A `[]any` input: the `%v` text of every element. */
  method CollectFormats(items: seq<Value>) returns (rvalues: seq<string>)
    ensures rvalues == ListElements(VAnyList(items))
  {
    rvalues := [];
    var i := 0;
    while i < |items|
      invariant 0 <= i <= |items|
      invariant |rvalues| == i
      invariant forall k :: 0 <= k < i ==> rvalues[k] == Format(items[k])
    {
      rvalues := rvalues + [Format(items[i])];
      i := i + 1;
    }
  }

  lemma {:induction false} MatchesCount(x: string, values: seq<string>)
    ensures x !in values ==> Matches(x, values) == 0
    ensures Distinct(values) && x in values ==> Matches(x, values) == 1
    ensures x in values ==> Matches(x, values) >= 1
    decreases |values|
  {
    if |values| > 0 {
      var init := values[..|values| - 1];
      assert values == init + [values[|values| - 1]];
      MatchesCount(x, init);
      if Distinct(values) {
        assert Distinct(init);
        if values[|values| - 1] == x {
          assert x !in init;
        }
      }
    }
  }

  /** With a duplicate-free enumeration, the pair count equals the number of
      elements exactly when every element is allowed. */
  lemma {:induction false} PairMatchesAllAllowed(rs: seq<string>, values: seq<string>)
    requires Distinct(values)
    ensures PairMatches(rs, values) <= |rs|
    ensures PairMatches(rs, values) == |rs| <==> forall x :: x in rs ==> x in values
    decreases |rs|
  {
    if |rs| > 0 {
      var init := rs[..|rs| - 1];
      var x := rs[|rs| - 1];
      assert rs == init + [x];
      PairMatchesAllAllowed(init, values);
      MatchesCount(x, values);
    }
  }

  /** An element outside the enumeration contributes no pair, so with a
      duplicate-free enumeration a list holding it is rejected. */
  lemma ListWithForeignValueRejected(rec: SchemaRecord, v: Value, x: string)
    requires HasPrefix(rec.Type, "list") && rec.Value.VAnyList?
    requires Distinct(EnumStrings(rec.Value.items))
    requires IsSlice(v) && x in ListElements(v) && x !in EnumStrings(rec.Value.items)
    ensures DataValueVerdict(rec, v) == Rejected
  {
    PairMatchesAllAllowed(ListElements(v), EnumStrings(rec.Value.items));
  }

  /** The enumeration check, stated as membership when the enumeration has
      no repeated entries. */
  lemma DataValueMembership(rec: SchemaRecord, v: Value)
    requires HasPrefix(rec.Type, "list") && rec.Value.VAnyList?
    requires Distinct(EnumStrings(rec.Value.items))
    ensures IsSlice(v) ==>
      (DataValueVerdict(rec, v) == Accepted <==>
        forall x :: x in ListElements(v) ==> x in EnumStrings(rec.Value.items))
    ensures !IsSlice(v) ==>
      (DataValueVerdict(rec, v) == Accepted <==> v.VString? && v.s in EnumStrings(rec.Value.items))
  {
    PairMatchesAllAllowed(ListElements(v), EnumStrings(rec.Value.items));
  }

  /** A repeated enumeration entry lets a foreign element through: the
      enumeration ["3A", "3A"] accepts the list ["3A", "foo"]. */
  lemma EnumEntryOfString(x: Value)
    requires x.VString? && ' ' !in x.s
    ensures TrimBlanks(Format(x)) == x.s
  {
    TrimBlanksNoBlank(x.s);
  }

  lemma RepeatedEnumAdmitsForeign()
    ensures DataValueVerdict(
      SchemaRecord("ListKey", "list_str", false, true, "", VAnyList([VString("3A"), VString("3A")]), "", ""),
      VStrList(["3A", "foo"])) == Accepted
  {
    RepeatedEnumAdmits("ListKey", "list_str", "3A", "foo");
  }

  /** With the enumeration [a, a], the list [a, f] passes although f is not
      allowed: the two pairs (a, a) make up the count. */
  lemma RepeatedEnumAdmits(key: string, typ: string, a: string, f: string)
    requires HasPrefix(typ, "list") && ' ' !in a && ' ' !in f && a != f
    ensures DataValueVerdict(
      SchemaRecord(key, typ, false, true, "", VAnyList([VString(a), VString(a)]), "", ""),
      VStrList([a, f])) == Accepted
  {
    var items := [VString(a), VString(a)];
    EnumEntryOfString(items[0]);
    EnumEntryOfString(items[1]);
    assert EnumStrings(items) == [a, a];
    SplitWordsOfWords(a, f);
    RepeatedPairCount(a, f);
  }

  lemma SplitWordsOfWords(a: string, f: string)
    requires ' ' !in a && ' ' !in f
    ensures SplitWords([a, f]) == [a, f]
  {
    SplitNoSeparator(a, ' ');
    SplitNoSeparator(f, ' ');
    var rs := [a, f];
    assert rs[..1] == [a] && [a][..0] == [];
    assert SplitWords([a]) == SplitWords([]) + Split(a, ' ');
    assert SplitWords(rs) == SplitWords(rs[..1]) + Split(f, ' ');
  }

  lemma RepeatedPairCount(a: string, f: string)
    requires a != f
    ensures PairMatches([a, f], [a, a]) == 2
  {
    var vs := [a, a];
    var rs := [a, f];
    assert vs[..1] == [a] && [a][..0] == [];
    assert Matches(a, [a]) == Matches(a, []) + 1;
    assert Matches(a, vs) == Matches(a, [a]) + 1;
    MatchesCount(f, vs);
    assert rs[..1] == [a];
    assert PairMatches([a], vs) == 2 by {
      assert [a][..0] == [];
    }
  }

  /** With the enumeration ["3A", "3B"], the list ["3A", "foo"] is
      rejected and ["3A", "3B"] accepted. */
  lemma BeamlineEnumExample()
    ensures DataValueVerdict(
      SchemaRecord("ListKey", "list_str", false, true, "", VAnyList([VString("3A"), VString("3B")]), "", ""),
      VAnyList([VString("3A"), VString("foo")])) == Rejected
    ensures DataValueVerdict(
      SchemaRecord("ListKey", "list_str", false, true, "", VAnyList([VString("3A"), VString("3B")]), "", ""),
      VAnyList([VString("3A"), VString("3B")])) == Accepted
  {
    TwoEntryEnum("ListKey", "list_str", "3A", "3B", "foo");
  }

  /** With two distinct blank-free enumeration entries a and b, the list
      [a, f] of a foreign f is rejected and [a, b] accepted. */
  lemma TwoEntryEnum(key: string, typ: string, a: string, b: string, f: string)
    requires HasPrefix(typ, "list") && ' ' !in a && ' ' !in b && a != b && f != a && f != b
    ensures DataValueVerdict(
      SchemaRecord(key, typ, false, true, "", VAnyList([VString(a), VString(b)]), "", ""),
      VAnyList([VString(a), VString(f)])) == Rejected
    ensures DataValueVerdict(
      SchemaRecord(key, typ, false, true, "", VAnyList([VString(a), VString(b)]), "", ""),
      VAnyList([VString(a), VString(b)])) == Accepted
  {
    var rec := SchemaRecord(key, typ, false, true, "", VAnyList([VString(a), VString(b)]), "", "");
    TwoEntryStrings(rec.Value.items, a, b);
    TwoElements(a, f);
    TwoElements(a, b);
    ListWithForeignValueRejected(rec, VAnyList([VString(a), VString(f)]), f);
    DataValueMembership(rec, VAnyList([VString(a), VString(b)]));
  }

  lemma TwoEntryStrings(items: seq<Value>, a: string, b: string)
    requires items == [VString(a), VString(b)] && ' ' !in a && ' ' !in b && a != b
    ensures EnumStrings(items) == [a, b] && Distinct([a, b])
  {
    EnumEntryOfString(items[0]);
    EnumEntryOfString(items[1]);
  }

  lemma TwoElements(a: string, b: string)
    ensures ListElements(VAnyList([VString(a), VString(b)])) == [a, b]
  {
  }
}
