/** The record helpers of the document-store layer (web/mongo.go): dotted
    path lookup in nested records, the single-entry and integer accessors,
    the text rendering of a record and the error record. The database calls
    themselves are not part of this model. */
module Mongo {
  import opened GoStrings
  import opened GoValues
  import opened Sorting
  import Utils

  // ----- GetValue -----

  /** A looked-up value, or the panic of `v[0]` on an empty `[]interface{}`
      or of the `.(Record)` assertion on its first element. */
  datatype Lookup = Found(v: Value) | Panic

  /** The path after the first '.'-separated segment is shorter than the
      path. */
  lemma TailShorter(key: string)
    requires |Split(key, '.')| > 1
    ensures |Join(Split(key, '.')[1..], ".")| < |key|
  {
    var keys := Split(key, '.');
    JoinSplit(key, '.');
    assert keys == [keys[0]] + keys[1..];
    JoinCons(keys[0], keys[1..], ".");
  }

  /** `GetValue`: a key without '.' is looked up directly (nil when
      absent); a dotted key descends through the record, the first row of a
      `[]Record`, or the first element of a `[]interface{}` holding a
      record, and any other stop gives "". The two recursive calls of the
      source agree, since joining a single segment gives the segment. */
  function GetValue(rec: Record, key: string): (r: Lookup)
    ensures '.' !in key ==> r == Found(if key in rec then rec[key] else VNil)
    decreases |key|
  {
    var keys := Split(key, '.');
    if |keys| > 1 then
      if keys[0] !in rec then Found(VString(""))
      else
        var rest := Join(keys[1..], ".");
        TailShorter(key);
        match rec[keys[0]]
        case VRecord(m) => GetValue(m, rest)
        case VRecordList(rows) => if |rows| > 0 then GetValue(rows[0].fields, rest) else Found(VString(""))
        case VAnyList(items) =>
          if |items| == 0 then Panic
          else if items[0] == VNil then Found(VString(""))
          else if items[0].VRecord? then GetValue(items[0].rec, rest)
          else Panic
        case _ => Found(VString(""))
    else
      SplitSingle(key);
      Found(if key in rec then rec[key] else VNil)
  }

  /** One '.'-free split part is the whole string, and a string without '.'
      gives one part. */
  lemma SplitSingle(key: string)
    ensures |Split(key, '.')| == 1 ==> Split(key, '.')[0] == key
    ensures '.' !in key ==> |Split(key, '.')| == 1
  {
    if '.' !in key {
      SplitNoSeparator(key, '.');
    }
    if |Split(key, '.')| == 1 {
      JoinSplit(key, '.');
    }
  }

  /** One step of a dotted lookup: the head segment `a` selects the value
      the rest of the path is looked up in. */
  lemma GetValueStep(rec: Record, a: string, rest: string)
    requires '.' !in a
    ensures a !in rec ==> GetValue(rec, a + "." + rest) == Found(VString(""))
    ensures a in rec && rec[a].VRecord? ==> GetValue(rec, a + "." + rest) == GetValue(rec[a].rec, rest)
    ensures a in rec && rec[a].VRecordList? ==>
      GetValue(rec, a + "." + rest) ==
        (if |rec[a].rows| > 0 then GetValue(rec[a].rows[0].fields, rest) else Found(VString("")))
    ensures a in rec && rec[a].VAnyList? && rec[a].items == [] ==> GetValue(rec, a + "." + rest) == Panic
    ensures a in rec && !rec[a].VRecord? && !rec[a].VRecordList? && !rec[a].VAnyList? ==>
      GetValue(rec, a + "." + rest) == Found(VString(""))
  {
    DottedSplit(a, rest);
  }

  /** A path whose head segment is `a` splits into `a` and the parts of the
      rest, which join back to the rest. */
  lemma DottedSplit(a: string, rest: string)
    requires '.' !in a
    ensures var keys := Split(a + "." + rest, '.');
      |keys| > 1 && keys[0] == a && Join(keys[1..], ".") == rest
  {
    var key := a + "." + rest;
    assert key == a + ['.'] + rest;
    IndexAfterFree(a, '.', rest);
    assert key[..|a|] == a && key[|a| + 1..] == rest;
    var keys := Split(key, '.');
    assert keys == [a] + Split(rest, '.');
    assert keys[1..] == Split(rest, '.');
    JoinSplit(rest, '.');
  }

  /** A two-level path reaches a value nested in a sub-record. */
  lemma GetValueNested(a: string, b: string, v: Value)
    requires '.' !in a && '.' !in b
    ensures GetValue(map[a := VRecord(map[b := v])], a + "." + b) == Found(v)
  {
    GetValueStep(map[a := VRecord(map[b := v])], a, b);
  }

  /** A `[]interface{}` whose first element is not a record makes a dotted
      lookup panic. */
  lemma GetValueAnyListPanics(rec: Record, a: string, rest: string)
    requires '.' !in a && a in rec && rec[a].VAnyList? && |rec[a].items| > 0
    requires rec[a].items[0] != VNil && !rec[a].items[0].VRecord?
    ensures GetValue(rec, a + "." + rest) == Panic
  {
    DottedSplit(a, rest);
  }

  // ----- singleEntry, GetIntValue, GetInt64Value -----

  /** `singleEntry`: the first element of a `[]interface{}` (a panic when
      it is empty), any other value itself. */
  function SingleEntry(v: Value): (r: Lookup)
    ensures !v.VAnyList? ==> r == Found(v)
    ensures v.VAnyList? && |v.items| > 0 ==> r == Found(v.items[0])
    ensures r == Panic <==> v == VAnyList([])
  {
    match v
    case VAnyList(items) => if |items| == 0 then Panic else Found(items[0])
    case _ => Found(v)
  }

  datatype IntLookup = IntFound(i: int) | CastError | IntPanic

  /** The `.(int)` / `.(int64)` assertion on a looked-up value: the value
      only when its dynamic type is exactly `kind`. */
  function IntOfKind(l: Lookup, kind: IntKind): (r: IntLookup)
    ensures r.IntFound? <==> l.Found? && l.v.VInt? && l.v.kind == kind
    ensures r.IntFound? ==> r.i == l.v.i
    ensures r == IntPanic <==> l == Panic
  {
    match l
    case Panic => IntPanic
    case Found(v) => if v.VInt? && v.kind == kind then IntFound(v.i) else CastError
  }

  /** `GetIntValue`. */
  function GetIntValue(rec: Record, key: string): IntLookup
  {
    IntOfKind(GetValue(rec, key), GoInt)
  }

  /** `GetInt64Value`. */
  function GetInt64Value(rec: Record, key: string): IntLookup
  {
    IntOfKind(GetValue(rec, key), Int64)
  }

  /** The two accessors never both succeed: an `int64` value is not an
      `int` and the other way round. */
  lemma IntAccessorsExclusive(rec: Record, key: string)
    ensures !(GetIntValue(rec, key).IntFound? && GetInt64Value(rec, key).IntFound?)
    ensures '.' !in key && key in rec && rec[key] == VInt(Int64, 5) ==>
      GetIntValue(rec, key) == CastError && GetInt64Value(rec, key) == IntFound(5)
  {
  }

  // ----- ToString -----

  /** The cells of a `[]interface{}`: each `%v` text, all but the last
      followed by ','. */
  function ListCells(items: seq<Value>): (r: seq<string>)
    ensures |r| == |items|
  {
    seq(|items|, i requires 0 <= i < |items| => Format(items[i]) + (if i == |items| - 1 then "" else ","))
  }

  /** The line of key `k`. `floatText` stands for the `%d`/`%f` rendering
      of a `float64`. */
  function Line(k: string, v: Value, floatText: Value -> string): string
  {
    match v
    case VInt(_, i) => k + ":" + Itoa(i)
    case VFloat(Float64, _, _) => k + ":" + floatText(v)
    case VAnyList(items) => k + ":" + "[" + Join(ListCells(items), " ") + "]"
    case _ => k + ":" + Format(v)
  }

  /** The lines for the keys `ks` in order, "_id" left out. */
  function Lines(r: Record, ks: seq<string>, floatText: Value -> string): seq<string>
    requires forall k :: k in ks ==> k in r
  {
    if |ks| == 0 then []
    else
      var k := ks[|ks| - 1];
      Lines(r, ks[..|ks| - 1], floatText) + (if k == "_id" then [] else [Line(k, r[k], floatText)])
  }

  /** Rendering one more key of `ks`. */
  lemma LinesSnoc(r: Record, ks: seq<string>, i: nat, floatText: Value -> string)
    requires i < |ks| && forall k :: k in ks ==> k in r
    ensures Lines(r, ks[..i + 1], floatText) ==
      Lines(r, ks[..i], floatText) + (if ks[i] == "_id" then [] else [Line(ks[i], r[ks[i]], floatText)])
  {
    assert ks[..i + 1][..i] == ks[..i];
  }

  /** `Record.ToString`. */
  method ToString(r: Record, floatText: Value -> string) returns (s: string)
    ensures s == Join(Lines(r, SortedSet(r.Keys), floatText), "\n")
  {
    var keys := Utils.MapKeys(r);
    var out: seq<string> := [];
    var i := 0;
    while i < |keys|
      invariant 0 <= i <= |keys|
      invariant out == Lines(r, keys[..i], floatText)
    {
      var k := keys[i];
      LinesSnoc(r, keys, i, floatText);
      if k != "_id" {
        out := out + [Line(k, r[k], floatText)];
      }
      i := i + 1;
    }
    assert keys[..|keys|] == keys;
    s := Join(out, "\n");
  }

  /** The line of every key of `ks`, in order. */
  function AllLines(r: Record, ks: seq<string>, floatText: Value -> string): (ls: seq<string>)
    requires forall k :: k in ks ==> k in r
    ensures |ls| == |ks|
  {
    seq(|ks|, i requires 0 <= i < |ks| => Line(ks[i], r[ks[i]], floatText))
  }

  predicate NotId(k: string)
  {
    k != "_id"
  }

  /** Leaving out "_id" while rendering is rendering the filtered keys. */
  lemma {:induction false} LinesFiltered(r: Record, ks: seq<string>, floatText: Value -> string)
    requires forall k :: k in ks ==> k in r
    ensures Lines(r, ks, floatText) == AllLines(r, Filter(ks, NotId), floatText)
  {
    if |ks| > 0 {
      var init := ks[..|ks| - 1];
      LinesFiltered(r, init, floatText);
      var f := Filter(init, NotId);
      assert Filter(ks, NotId) == f + (if NotId(ks[|ks| - 1]) then [ks[|ks| - 1]] else []);
    }
  }

  /** `ToString` renders one line per key other than "_id", in ascending
      key order. */
  lemma ToStringLines(r: Record, floatText: Value -> string)
    ensures var ks := SortedSet(r.Keys - {"_id"});
      Lines(r, SortedSet(r.Keys), floatText) == AllLines(r, ks, floatText) &&
      |Lines(r, SortedSet(r.Keys), floatText)| == |r.Keys - {"_id"}|
  {
    var all := SortedSet(r.Keys);
    LinesFiltered(r, all, floatText);
    var ks := FilteredKeys(r.Keys);
    assert Filter(all, NotId) == ks;
  }

  /** The keys other than "_id" in ascending order. */
  lemma FilteredKeysOf(keys: set<string>)
    ensures Filter(SortedSet(keys), NotId) == SortedSet(keys - {"_id"})
  {
    var all := SortedSet(keys);
    var f := Filter(all, NotId);
    var ks := SortedSet(keys - {"_id"});
    FilterStrictlySorted(all, NotId);
    forall x ensures x in f <==> x in ks {
      assert x in f <==> x in all && NotId(x);
    }
    StrictlySortedUnique(f, ks);
  }

  function FilteredKeys(keys: set<string>): (ks: seq<string>)
    ensures ks == Filter(SortedSet(keys), NotId)
  {
    FilteredKeysOf(keys);
    SortedSet(keys - {"_id"})
  }

  /** Splitting the text at newlines gives the lines back when none of
      them holds a newline. */
  lemma ToStringSplit(r: Record, floatText: Value -> string)
    requires |r.Keys - {"_id"}| >= 1
    requires forall l :: l in Lines(r, SortedSet(r.Keys), floatText) ==> '\n' !in l
    ensures Split(Join(Lines(r, SortedSet(r.Keys), floatText), "\n"), '\n') == Lines(r, SortedSet(r.Keys), floatText)
  {
    ToStringLines(r, floatText);
    SplitJoin(Lines(r, SortedSet(r.Keys), floatText), '\n');
  }

  // ----- ErrorRecord -----

  /** `html.EscapeString` on one character. */
  function EscapeChar(c: char): string
  {
    if c == '<' then "&lt;"
    else if c == '>' then "&gt;"
    else if c == '&' then "&amp;"
    else if c == '\'' then "&#39;"
    else if c == '"' then "&#34;"
    else [c]
  }

  /** `html.EscapeString`. */
  function Escape(s: string): string
  {
    if |s| == 0 then "" else EscapeChar(s[0]) + Escape(s[1..])
  }

  /** Escaped text holds no markup delimiter or quote, and text without the
      five special characters is kept as it is. */
  lemma EscapeSafe(s: string)
    ensures '<' !in Escape(s) && '>' !in Escape(s) && '"' !in Escape(s) && '\'' !in Escape(s)
    ensures ('<' !in s && '>' !in s && '&' !in s && '\'' !in s && '"' !in s) ==> Escape(s) == s
  {
    EscapeNoMarkup(s);
    if '<' !in s && '>' !in s && '&' !in s && '\'' !in s && '"' !in s {
      EscapeKeepsPlain(s);
    }
  }

  lemma EscapeCharSafe(c: char)
    ensures '<' !in EscapeChar(c) && '>' !in EscapeChar(c) && '"' !in EscapeChar(c) && '\'' !in EscapeChar(c)
  {
  }

  lemma {:induction false} EscapeNoMarkup(s: string)
    ensures '<' !in Escape(s) && '>' !in Escape(s) && '"' !in Escape(s) && '\'' !in Escape(s)
    decreases |s|
  {
    if |s| > 0 {
      EscapeNoMarkup(s[1..]);
      EscapeCharSafe(s[0]);
      var e := Escape(s);
      assert e == EscapeChar(s[0]) + Escape(s[1..]);
      forall c | c in e ensures c in EscapeChar(s[0]) || c in Escape(s[1..]) {
        var i :| 0 <= i < |e| && e[i] == c;
        if i >= |EscapeChar(s[0])| {
          assert Escape(s[1..])[i - |EscapeChar(s[0])|] == c;
        }
      }
    }
  }

  lemma {:induction false} EscapeKeepsPlain(s: string)
    requires '<' !in s && '>' !in s && '&' !in s && '\'' !in s && '"' !in s
    ensures Escape(s) == s
    decreases |s|
  {
    if |s| > 0 {
      EscapeKeepsPlain(s[1..]);
      assert EscapeChar(s[0]) == [s[0]];
      assert s == [s[0]] + s[1..];
    }
  }

  /** `ErrorRecord`: exactly the keys error, type and code, the texts
      escaped and the code as a Go `int`. */
  method ErrorRecord(msg: string, etype: string, ecode: int) returns (erec: Record)
    ensures erec.Keys == {"error", "type", "code"}
    ensures erec["error"] == VString(Escape(msg)) && erec["type"] == VString(Escape(etype))
    ensures erec["code"] == VInt(GoInt, ecode)
  {
    erec := map[];
    erec := erec["error" := VString(Escape(msg))];
    erec := erec["type" := VString(Escape(etype))];
    erec := erec["code" := VInt(GoInt, ecode)];
  }
}
