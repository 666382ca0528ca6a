/** The query translator of the web server (web/query.go): a user query is
    a MongoDB JSON spec, a list of `key:value` pairs or free text, and
    becomes the filter handed to MongoDB, with its keys resolved to the
    schemas' canonical keys and its values turned into anchored,
    case-insensitive regular expressions.

    The decoded JSON spec, the lower-cased key index the schemas built and
    the float pattern (not part of this model) are parameters. */
module Query {
  import opened GoStrings
  import opened GoValues
  import opened Patterns

  /** A value of the filter handed to MongoDB. */
  datatype Term =
    | Literal(v: Value)
    | ObjectId(hex: string)                    // primitive.ObjectID
    | Regex(pattern: string, options: string)  // {"$regex": pattern, "$options": options}

  type Filter = map<string, Term>

  /** What `ParseQuery` returns: a filter or the error it reports. */
  datatype QueryResult =
    | EmptyQuery    // "empty query"
    | DecodeError   // json.Unmarshal failed
    | IdPanic       // the `_id` of a JSON spec is not a string: the type assertion panics
    | Spec(filter: Filter)

  predicate IsHexDigit(c: char)
  {
    IsDigit(c) || ('a' <= c <= 'f') || ('A' <= c <= 'F')
  }

  /** primitive.ObjectIDFromHex succeeds: 24 hexadecimal digits. */
  predicate IsObjectIdHex(s: string)
  {
    |s| == 24 && forall i :: 0 <= i < |s| ==> IsHexDigit(s[i])
  }

  // ----- convertType -----

  /** The comma-separated pieces of `s`, each trimmed of blanks. */
  function Pieces(s: string): (r: seq<string>)
    ensures |r| == |Split(s, ',')|
    ensures forall i :: 0 <= i < |r| ==> r[i] == TrimBlanks(Split(s, ',')[i])
  {
    var parts := Split(s, ',');
    seq(|parts|, i requires 0 <= i < |parts| => TrimBlanks(parts[i]))
  }

  /** `convertType`: a string becomes an `int` when it reads as one, else
      a `float64` when the float pattern and `parseFloat` accept it, else a
      list of its trimmed comma pieces when it holds a comma; every other
      value is kept. `parseFloat` gives the `%v` text of the float and
      whether it is zero. */
  function ConvertType(v: Value, isFloat: string -> bool, parseFloat: string -> Option<(string, bool)>): (r: Value)
    ensures !v.VString? ==> r == v
    ensures r.VInt? && !v.VInt? ==> v.VString? && Atoi(v.s) == Some(r.i) && r.kind == GoInt
    ensures r.VStrList? && !v.VStrList? ==>
      v.VString? && ',' in v.s && |r.strs| == |Split(v.s, ',')| == Count(v.s, ',') + 1 &&
      forall i :: 0 <= i < |r.strs| ==> r.strs[i] == TrimBlanks(Split(v.s, ',')[i])
    ensures v.VString? && !r.VInt? && !r.VFloat? && !r.VStrList? ==> r == v && ',' !in v.s
  {
    match v
    case VString(s) =>
      if PatternInt(s) && Atoi(s).Some? then VInt(GoInt, Atoi(s).value)
      else if isFloat(s) && parseFloat(s).Some? then VFloat(Float64, parseFloat(s).value.0, parseFloat(s).value.1)
      else if ',' in s then
        CountSplit(s, ',');
        VStrList(Pieces(s))
      else v
    case _ => v
  }

  /** The decimal text of any 64-bit integer converts back to that integer. */
  lemma ConvertIntText(n: int, isFloat: string -> bool, parseFloat: string -> Option<(string, bool)>)
    requires MinInt64 <= n <= MaxInt64
    ensures ConvertType(VString(Itoa(n)), isFloat, parseFloat) == VInt(GoInt, n)
  {
    PatternIntItoa(n);
    AtoiItoa(n);
  }

  /** The pieces of a comma-joined list of blank-free, comma-free words
      come back as the words, when the text reads as no number. */
  lemma ConvertListText(words: seq<string>, isFloat: string -> bool, parseFloat: string -> Option<(string, bool)>)
    requires |words| >= 2
    requires forall w :: w in words ==> ',' !in w && ' ' !in w
    requires !isFloat(Join(words, ","))
    ensures ConvertType(VString(Join(words, ",")), isFloat, parseFloat) == VStrList(words)
  {
    JoinedWords(words);
    PiecesOfWords(words);
  }

  /** A comma-joined list holds a comma and reads as no integer. */
  lemma JoinedWords(words: seq<string>)
    requires |words| >= 2
    requires forall w :: w in words ==> ',' !in w
    ensures ',' in Join(words, ",") && !PatternInt(Join(words, ","))
  {
    var s := Join(words, ",");
    JoinCons(words[0], words[1..], ",");
    assert words == [words[0]] + words[1..];
    assert s[|words[0]|] == ',';
    PatternIntChars(s);
    if |words[0]| == 0 {
      assert s[0] == ',' && !DigitOrMinus(s[0]);
    } else {
      assert !IsDigit(s[|words[0]|]);
    }
  }

  /** The trimmed comma pieces of a joined list of blank-free words. */
  lemma PiecesOfWords(words: seq<string>)
    requires |words| >= 1
    requires forall w :: w in words ==> ',' !in w && ' ' !in w
    ensures Pieces(Join(words, ",")) == words
  {
    var s := Join(words, ",");
    SplitJoin(words, ',');
    assert Split(s, ',') == words;
    forall i | 0 <= i < |words| ensures TrimBlanks(words[i]) == words[i] {
      assert words[i] in words;
      TrimBlanksNoBlank(words[i]);
    }
    var p := Pieces(s);
    assert |p| == |words|;
    assert forall i :: 0 <= i < |p| ==> p[i] == words[i];
  }

  /** "-" passes the integer pattern, but Atoi rejects it, so it stays a
      string unless it reads as a float. */
  lemma ConvertMinusSign(isFloat: string -> bool, parseFloat: string -> Option<(string, bool)>)
    requires !isFloat("-")
    ensures ConvertType(VString("-"), isFloat, parseFloat) == VString("-")
  {
    assert PatternInt("-");
    assert Atoi("-") == None by {
      assert "-"[1..] == "";
    }
  }

  // ----- the key:value tokenizer -----

  /** The pairs read from the segments after `arr[i]`, with `key` still
      waiting for its value and `acc` the pairs read so far: a segment
      before the last one gives the waiting key all its words but the last,
      which becomes the next key; the last segment is the waiting key's
      whole value. */
  function TokensFrom(arr: seq<string>, i: nat, key: string, acc: map<string, string>): map<string, string>
    requires i + 1 < |arr|
    decreases |arr| - i
  {
    var seg := arr[i + 1];
    if i + 2 == |arr| then acc[key := seg]
    else
      var vals := Split(seg, ' ');
      TokensFrom(arr, i + 1, Last(vals), acc[key := Join(vals[..|vals| - 1], " ")])
  }

  /** The pairs a query holding a ':' consists of. */
  function Tokens(query: string): map<string, string>
    requires ':' in query
  {
    var arr := Split(query, ':');
    assert |arr| >= 2 by {
      assert IndexOf(query, ':') >= 0;
    }
    TokensFrom(arr, 0, arr[0], map[])
  }

  /** The tokenizer as the source writes it: the loop ends at the first
      segment that is textually equal to the last one. */
  function TokensAsWrittenFrom(arr: seq<string>, i: nat, key: string, acc: map<string, string>): map<string, string>
    requires i + 1 < |arr|
    decreases |arr| - i
  {
    var seg := arr[i + 1];
    if seg == Last(arr) then acc[key := seg]
    else
      var vals := Split(seg, ' ');
      TokensAsWrittenFrom(arr, i + 1, Last(vals), acc[key := Join(vals[..|vals| - 1], " ")])
  }

  function TokensAsWritten(query: string): map<string, string>
    requires ':' in query
  {
    var arr := Split(query, ':');
    assert |arr| >= 2 by {
      assert IndexOf(query, ':') >= 0;
    }
    TokensAsWrittenFrom(arr, 0, arr[0], map[])
  }

  /** The two agree unless a segment before the last equals the last. */
  lemma {:induction false} TokensAgreeFrom(arr: seq<string>, i: nat, key: string, acc: map<string, string>)
    requires i + 1 < |arr|
    requires forall j :: i + 1 <= j < |arr| - 1 ==> arr[j] != Last(arr)
    ensures TokensAsWrittenFrom(arr, i, key, acc) == TokensFrom(arr, i, key, acc)
    decreases |arr| - i
  {
    if i + 2 < |arr| {
      var vals := Split(arr[i + 1], ' ');
      TokensAgreeFrom(arr, i + 1, Last(vals), acc[key := Join(vals[..|vals| - 1], " ")]);
    }
  }

  /** No ':'-separated segment strictly between the first and the last is
      textually equal to the last one. */
  predicate NoRepeatedLast(query: string) {
    var arr := Split(query, ':');
    forall j :: 1 <= j < |arr| - 1 ==> arr[j] != Last(arr)
  }

  /** On such queries the loop as written and the corrected tokenizer give
      the same pairs. */
  lemma TokensAgree(query: string)
    requires ':' in query && NoRepeatedLast(query)
    ensures TokensAsWritten(query) == Tokens(query)
  {
    var arr := Split(query, ':');
    assert |arr| >= 2 by {
      assert IndexOf(query, ':') >= 0;
    }
    TokensAgreeFrom(arr, 0, arr[0], map[]);
  }

  /** "k:x y:x y" means k = "x" and y = "x y", but the middle segment "x y"
      equals the last one, so the loop as written stops after k. */
  lemma TokensAsWrittenStopsEarly()
    ensures TokensAsWritten("k:x y:x y") == map["k" := "x y"]
    ensures Tokens("k:x y:x y") == map["k" := "x", "y" := "x y"]
  {
    AsWrittenRepeat("k", "x y");
    assert "k" + ":" + "x y" + ":" + "x y" == "k:x y:x y";
    EarlyStopIntended();
  }

  /** With the middle segment equal to the last, the loop as written stops
      after the first key, which takes the whole middle segment. */
  lemma AsWrittenRepeat(k: string, v: string)
    requires ':' !in k && ':' !in v
    ensures ':' in k + ":" + v + ":" + v
    ensures TokensAsWritten(k + ":" + v + ":" + v) == map[k := v]
  {
    SplitThree(k, v, v);
    assert (k + ":" + v + ":" + v)[|k|] == ':';
  }

  lemma EarlyStopIntended()
    ensures Tokens("k:x y:x y") == map["k" := "x", "y" := "x y"]
  {
    IntendedRepeat("k", "x", "y", "x y");
    assert "k" + ":" + "x y" + ":" + "x y" == "k:x y:x y";
  }

  /** With the middle segment "x y" equal to the last, the intended
      tokenizer still gives k = x and y = "x y". */
  lemma IntendedRepeat(k: string, x: string, y: string, v: string)
    requires ':' !in k && ' ' !in k && ':' !in x && ':' !in y && ' ' !in y
    requires v == x + " " + y
    ensures ':' in k + ":" + v + ":" + v
    ensures Tokens(k + ":" + v + ":" + v) == map[k := x][y := v]
  {
    TokensTwo(k, x, y, v);
    assert k + ":" + (x + " " + y + ":" + v) == k + ":" + v + ":" + v;
  }

  // ----- queries rendered from pairs -----

  /** The ':'-separated segments of "k0:v0 k1:v1 ... kn:vn". */
  function Segments(ks: seq<string>, vs: seq<string>): (r: seq<string>)
    requires |ks| == |vs| >= 1
    ensures |r| == |ks| + 1
    ensures r[0] == ks[0] && r[|ks|] == Last(vs)
    ensures forall j :: 0 <= j < |ks| - 1 ==> r[j + 1] == vs[j] + " " + ks[j + 1]
  {
    [ks[0]] + seq(|ks| - 1, j requires 0 <= j < |ks| - 1 => vs[j] + " " + ks[j + 1]) + [Last(vs)]
  }

  function Render(ks: seq<string>, vs: seq<string>): string
    requires |ks| == |vs| >= 1
  {
    Join(Segments(ks, vs), ":")
  }

  /** The map the pairs denote: a later pair wins over an earlier one. */
  function Pairs(ks: seq<string>, vs: seq<string>): map<string, string>
    requires |ks| == |vs|
  {
    if |ks| == 0 then map[]
    else Pairs(ks[..|ks| - 1], vs[..|vs| - 1])[Last(ks) := Last(vs)]
  }

  /** Keys hold neither ':' nor ' ', values no ':'. */
  predicate WellFormedPairs(ks: seq<string>, vs: seq<string>)
  {
    |ks| == |vs| >= 1 &&
    (forall k :: k in ks ==> ':' !in k && ' ' !in k) &&
    (forall v :: v in vs ==> ':' !in v)
  }

  lemma {:induction false} TokensRenderFrom(ks: seq<string>, vs: seq<string>, j: nat)
    requires WellFormedPairs(ks, vs) && j < |ks|
    ensures TokensFrom(Segments(ks, vs), j, ks[j], Pairs(ks[..j], vs[..j])) == Pairs(ks, vs)
    decreases |ks| - j
  {
    var arr := Segments(ks, vs);
    var acc := Pairs(ks[..j], vs[..j]);
    assert ks[..j + 1][..j] == ks[..j] && vs[..j + 1][..j] == vs[..j];
    assert Pairs(ks[..j + 1], vs[..j + 1]) == acc[ks[j] := vs[j]];
    if j + 1 == |ks| {
      assert ks[..j + 1] == ks && vs[..j + 1] == vs;
    } else {
      assert ks[j + 1] in ks && vs[j] in vs;
      var vals := Split(vs[j] + " " + ks[j + 1], ' ');
      SplitSnoc(vs[j], ' ', ks[j + 1]);
      assert vals == Split(vs[j], ' ') + [ks[j + 1]];
      assert vals[..|vals| - 1] == Split(vs[j], ' ');
      JoinSplit(vs[j], ' ');
      TokensRenderFrom(ks, vs, j + 1);
    }
  }

  /** The tokenizer reads back the pairs of any rendered query: every key
      gets its value, and a repeated key keeps its last value. */
  lemma TokensRender(ks: seq<string>, vs: seq<string>)
    requires WellFormedPairs(ks, vs)
    ensures ':' in Render(ks, vs)
    ensures Tokens(Render(ks, vs)) == Pairs(ks, vs)
  {
    var arr := Segments(ks, vs);
    var q := Render(ks, vs);
    SegmentsFree(ks, vs);
    SplitJoin(arr, ':');
    assert Split(q, ':') == arr;
    if ':' !in q {
      SplitNoSeparator(q, ':');
      assert false;
    }
    assert ks[..0] == [] && vs[..0] == [];
    TokensRenderFrom(ks, vs, 0);
  }

  lemma SegmentsFree(ks: seq<string>, vs: seq<string>)
    requires WellFormedPairs(ks, vs)
    ensures forall p :: p in Segments(ks, vs) ==> ':' !in p
  {
    var arr := Segments(ks, vs);
    forall p | p in arr ensures ':' !in p {
      var j :| 0 <= j < |arr| && arr[j] == p;
      if j == 0 {
        assert ks[0] in ks;
      } else if j == |ks| {
        assert Last(vs) in vs;
      } else {
        assert vs[j - 1] in vs && ks[j] in ks;
      }
    }
  }

  lemma TokensOne(k0: string, v0: string)
    requires ':' !in k0 && ' ' !in k0 && ':' !in v0
    ensures ':' in k0 + ":" + v0
    ensures Tokens(k0 + ":" + v0) == map[k0 := v0]
  {
    var ks, vs := [k0], [v0];
    assert WellFormedPairs(ks, vs);
    TokensRender(ks, vs);
    assert Segments(ks, vs) == [k0] + [v0];
    JoinCons(k0, [v0], ":");
    assert Pairs(ks, vs) == map[k0 := v0] by {
      assert ks[..0] == [] && vs[..0] == [];
    }
  }

  lemma TokensTwo(k0: string, v0: string, k1: string, v1: string)
    requires ':' !in k0 && ' ' !in k0 && ':' !in v0
    requires ':' !in k1 && ' ' !in k1 && ':' !in v1
    ensures ':' in k0 + ":" + (v0 + " " + k1 + ":" + v1)
    ensures Tokens(k0 + ":" + (v0 + " " + k1 + ":" + v1)) == map[k0 := v0][k1 := v1]
  {
    var ks, vs := [k0, k1], [v0, v1];
    assert WellFormedPairs(ks, vs);
    TokensRender(ks, vs);
    var arr := Segments(ks, vs);
    var m := v0 + " " + k1;
    assert arr == [k0] + ([m] + [v1]);
    JoinCons(m, [v1], ":");
    JoinCons(k0, [m] + [v1], ":");
    assert Render(ks, vs) == k0 + ":" + (m + ":" + v1);
    PairsSnoc([], [], k0, v0);
    PairsSnoc([k0], [v0], k1, v1);
  }

  lemma TokensThree(k0: string, v0: string, k1: string, v1: string, k2: string, v2: string)
    requires ':' !in k0 && ' ' !in k0 && ':' !in v0
    requires ':' !in k1 && ' ' !in k1 && ':' !in v1
    requires ':' !in k2 && ' ' !in k2 && ':' !in v2
    ensures ':' in k0 + ":" + (v0 + " " + k1 + ":" + (v1 + " " + k2 + ":" + v2))
    ensures Tokens(k0 + ":" + (v0 + " " + k1 + ":" + (v1 + " " + k2 + ":" + v2))) ==
      map[k0 := v0][k1 := v1][k2 := v2]
  {
    var ks, vs := [k0, k1, k2], [v0, v1, v2];
    assert WellFormedPairs(ks, vs);
    TokensRender(ks, vs);
    var arr := Segments(ks, vs);
    var m1, m2 := v0 + " " + k1, v1 + " " + k2;
    assert arr == [k0] + ([m1] + ([m2] + [v2]));
    JoinCons(m2, [v2], ":");
    JoinCons(m1, [m2] + [v2], ":");
    JoinCons(k0, [m1] + ([m2] + [v2]), ":");
    assert Render(ks, vs) == k0 + ":" + (m1 + ":" + (m2 + ":" + v2));
    PairsSnoc([], [], k0, v0);
    assert [] + [k0] == [k0] && [] + [v0] == [v0];
    PairsSnoc([k0], [v0], k1, v1);
    assert [k0] + [k1] == [k0, k1] && [v0] + [v1] == [v0, v1];
    PairsSnoc([k0, k1], [v0, v1], k2, v2);
    assert [k0, k1] + [k2] == ks && [v0, v1] + [v2] == vs;
  }

  lemma PairsSnoc(ks: seq<string>, vs: seq<string>, k: string, v: string)
    requires |ks| == |vs|
    ensures Pairs(ks + [k], vs + [v]) == Pairs(ks, vs)[k := v]
  {
    assert (ks + [k])[..|ks|] == ks && (vs + [v])[..|vs|] == vs;
  }

  /** The tests' queries. */
  lemma TokensQuery1()
    ensures Tokens("user:test") == map["user" := "test"]
  {
    TokensOne("user", "test");
    assert "user" + ":" + "test" == "user:test";
  }

  lemma TokensQuery2()
    ensures Tokens("user:test attr:bla foo") == map["user" := "test", "attr" := "bla foo"]
  {
    TokensTwo("user", "test", "attr", "bla foo");
    Query2Text();
  }

  lemma Query2Text()
    ensures "user" + ":" + ("test" + " " + "attr" + ":" + "bla foo") == "user:test attr:bla foo"
  {
  }

  lemma TokensQuery3()
    ensures Tokens("user:test attr:bla foo keys:v1 v2") ==
      map["user" := "test", "attr" := "bla foo", "keys" := "v1 v2"]
  {
    TokensThree("user", "test", "attr", "bla foo", "keys", "v1 v2");
    Query3Text();
  }

  lemma Query3Text()
    ensures "user" + ":" + ("test" + " " + "attr" + ":" + ("bla foo" + " " + "keys" + ":" + "v1 v2"))
      == "user:test attr:bla foo keys:v1 v2"
  {
  }

  /** A segment of one word hands the waiting key the empty value. */
  lemma TokensSingleWord()
    ensures Tokens("a:b:c") == map["a" := "", "b" := "c"]
  {
    TokensOneWord("a", "b", "c");
    assert "a" + ":" + "b" + ":" + "c" == "a:b:c";
  }

  lemma TokensOneWord(a: string, b: string, c: string)
    requires ':' !in a && ':' !in b && ':' !in c && ' ' !in b
    ensures ':' in a + ":" + b + ":" + c
    ensures Tokens(a + ":" + b + ":" + c) == map[a := ""][b := c]
  {
    var q := a + ":" + b + ":" + c;
    SplitThree(a, b, c);
    assert q[|a|] == ':';
    SplitNoSeparator(b, ' ');
    assert Split(b, ' ')[..0] == [];
    var arr := [a, b, c];
    assert TokensFrom(arr, 1, b, map[a := ""]) == map[a := ""][b := c];
  }

  /** The `key:value` loop of `ParseQuery`. */
  method Tokenize(query: string) returns (spec: map<string, string>)
    requires ':' in query
    ensures spec == Tokens(query)
  {
    var arr := Split(query, ':');
    assert |arr| >= 2 by {
      assert IndexOf(query, ':') >= 0;
    }
    var vals: seq<string>;
    var key := arr[0];
    spec := map[];
    var i := 0;
    while i < |arr|
      invariant i + 1 < |arr|
      invariant TokensFrom(arr, i, key, spec) == Tokens(query)
      decreases |arr| - i
    {
      if |arr| > i + 1 {
        vals := Split(arr[i + 1], ' ');
        if i + 2 == |arr| {
          spec := spec[key := arr[i + 1]];
          break;
        }
        if |vals| > 0 {
          var values := Join(vals[..|vals| - 1], " ");
          spec := spec[key := values];
          key := vals[|vals| - 1];
        } else {
          assert false;
        }
      } else {
        assert false;
      }
      i := i + 1;
    }
  }

  // ----- adjustQuery -----

  /** The key `adjustQuery` files a pair under: `_id` stays, a key whose
      lower-case form is indexed becomes the canonical key, any other key
      stays. */
  function Target(k: string, index: map<string, string>): string
  {
    if k == "_id" then k
    else if ToLower(k) in index then index[ToLower(k)]
    else k
  }

  /** `adjustQuery` keeps the pair: no operator key, and an `_id` only when
      it reads as an ObjectID. */
  predicate Kept(k: string, v: Value)
  {
    !HasPrefix(k, "$") && (k == "_id" ==> v.VString? && IsObjectIdHex(v.s))
  }

  /** The value a kept pair gets: the ObjectID of an `_id`, the value
      itself for an unresolved key or a number, and otherwise an anchored
      case-insensitive regular expression of its `%v` text. */
  function AdjustedTerm(k: string, v: Value, index: map<string, string>, isFloat: string -> bool): Term
  {
    if k == "_id" && v.VString? then ObjectId(v.s)
    else if k != "_id" && ToLower(k) in index then
      var sval := Format(v);
      if PatternInt(sval) || isFloat(sval) then Literal(v) else Regex("^" + sval + "$", "i")
    else Literal(v)
  }

  /** The targets of the kept pairs of `spec` in `done`. */
  ghost function Targets(spec: map<string, Value>, done: set<string>, index: map<string, string>): set<string>
    requires done <= spec.Keys
  {
    set k | k in done && Kept(k, spec[k]) :: Target(k, index)
  }

  /** The entry at `t` is the adjusted value of some kept pair of `done`
      filed there. */
  ghost predicate FiledFrom(nspec: Filter, spec: map<string, Value>, done: set<string>,
                            index: map<string, string>, isFloat: string -> bool, t: string)
    requires done <= spec.Keys && t in nspec
  {
    exists k :: k in done && Kept(k, spec[k]) && Target(k, index) == t &&
      nspec[t] == AdjustedTerm(k, spec[k], index, isFloat)
  }

  /** `nspec` is the adjusted form of the pairs of `spec` in `done`: one
      entry per target of a kept pair, each the adjusted value of some
      kept pair filed there. Which pair wins when two share a target
      depends on Go's map order. */
  ghost predicate AdjustedFrom(nspec: Filter, spec: map<string, Value>, done: set<string>,
                               index: map<string, string>, isFloat: string -> bool)
    requires done <= spec.Keys
  {
    nspec.Keys == Targets(spec, done, index) &&
    forall t :: t in nspec ==> FiledFrom(nspec, spec, done, index, isFloat, t)
  }

  lemma TargetsStep(spec: map<string, Value>, done: set<string>, k: string, index: map<string, string>)
    requires done <= spec.Keys && k in spec
    ensures Targets(spec, done + {k}, index) ==
      Targets(spec, done, index) + (if Kept(k, spec[k]) then {Target(k, index)} else {})
  {
    var d := done + {k};
    forall u | u in Targets(spec, d, index)
      ensures u in Targets(spec, done, index) || (Kept(k, spec[k]) && u == Target(k, index))
    {
      var k2 :| k2 in d && Kept(k2, spec[k2]) && Target(k2, index) == u;
      if k2 != k { assert u in Targets(spec, done, index); }
    }
    forall u | u in Targets(spec, done, index) ensures u in Targets(spec, d, index) {
      var k2 :| k2 in done && Kept(k2, spec[k2]) && Target(k2, index) == u;
      assert k2 in d;
    }
    if Kept(k, spec[k]) {
      assert k in d;
    }
  }

  lemma AdjustStep(nspec: Filter, spec: map<string, Value>, done: set<string>, k: string,
                   index: map<string, string>, isFloat: string -> bool)
    requires done <= spec.Keys && k in spec && k !in done
    requires AdjustedFrom(nspec, spec, done, index, isFloat)
    ensures AdjustedFrom(AdjustPair(nspec, k, spec[k], index, isFloat), spec, done + {k}, index, isFloat)
  {
    var d := done + {k};
    var n2 := AdjustPair(nspec, k, spec[k], index, isFloat);
    TargetsStep(spec, done, k, index);
    forall u | u in n2 ensures FiledFrom(n2, spec, d, index, isFloat, u) {
      if Kept(k, spec[k]) && u == Target(k, index) {
        assert k in d && n2[u] == AdjustedTerm(k, spec[k], index, isFloat);
      } else {
        assert u in nspec && n2[u] == nspec[u];
        assert FiledFrom(nspec, spec, done, index, isFloat, u);
        var k2 :| k2 in done && Kept(k2, spec[k2]) && Target(k2, index) == u &&
          nspec[u] == AdjustedTerm(k2, spec[k2], index, isFloat);
        assert k2 in d;
      }
    }
  }

  lemma AdjustedNothing(spec: map<string, Value>, index: map<string, string>, isFloat: string -> bool)
    ensures AdjustedFrom(map[], spec, {}, index, isFloat)
  {
    assert Targets(spec, {}, index) == {};
  }

  /** One pass of the loop of `adjustQuery`. */
  function AdjustPair(nspec: Filter, k: string, v: Value, index: map<string, string>, isFloat: string -> bool): Filter
  {
    if Kept(k, v) then nspec[Target(k, index) := AdjustedTerm(k, v, index, isFloat)] else nspec
  }

  /** `adjustQuery`: the one `_id` type assertion needs a string there. */
  method AdjustQuery(spec: map<string, Value>, index: map<string, string>, isFloat: string -> bool)
    returns (nspec: Filter)
    requires "_id" in spec ==> spec["_id"].VString?
    ensures AdjustedFrom(nspec, spec, spec.Keys, index, isFloat)
  {
    nspec := map[];
    var remaining := spec.Keys;
    ghost var done: set<string> := {};
    AdjustedNothing(spec, index, isFloat);
    while remaining != {}
      invariant remaining <= spec.Keys && done == spec.Keys - remaining
      invariant AdjustedFrom(nspec, spec, done, index, isFloat)
      decreases |remaining|
    {
      var kkk :| kkk in remaining;
      var val := spec[kkk];
      AdjustStep(nspec, spec, done, kkk, index, isFloat);
      nspec := AdjustOne(nspec, kkk, val, index, isFloat);
      remaining := remaining - {kkk};
      done := done + {kkk};
    }
  }

  /** The body of the loop of `adjustQuery`, for the pair `kkk`, `val`. */
  method AdjustOne(nspec: Filter, kkk: string, val: Value, index: map<string, string>, isFloat: string -> bool)
    returns (out: Filter)
    requires kkk == "_id" ==> val.VString?
    ensures out == AdjustPair(nspec, kkk, val, index, isFloat)
  {
    out := nspec;
    if HasPrefix(kkk, "$") {
      PairDropped(nspec, kkk, val, index, isFloat);
      return;
    }
    if kkk == "_id" {
      PairId(nspec, val, index, isFloat);
      if IsObjectIdHex(val.s) {
        out := out["_id" := ObjectId(val.s)];
      }
      return;
    }
    var lower := ToLower(kkk);
    if lower in index {
      var key := index[lower];
      var sval := Format(val);
      PairResolved(nspec, kkk, val, index, isFloat);
      if PatternInt(sval) || isFloat(sval) {
        out := out[key := Literal(val)];
      } else {
        out := out[key := Regex("^" + sval + "$", "i")];
      }
    } else {
      PairUnresolved(nspec, kkk, val, index, isFloat);
      out := out[kkk := Literal(val)];
    }
  }

  lemma PairDropped(nspec: Filter, k: string, v: Value, index: map<string, string>, isFloat: string -> bool)
    requires HasPrefix(k, "$")
    ensures AdjustPair(nspec, k, v, index, isFloat) == nspec
  {
  }

  lemma PairId(nspec: Filter, v: Value, index: map<string, string>, isFloat: string -> bool)
    requires v.VString?
    ensures AdjustPair(nspec, "_id", v, index, isFloat) ==
      if IsObjectIdHex(v.s) then nspec["_id" := ObjectId(v.s)] else nspec
  {
    assert !HasPrefix("_id", "$") by { assert "_id"[..1][0] == '_'; }
    assert Target("_id", index) == "_id";
  }

  lemma PairResolved(nspec: Filter, k: string, v: Value, index: map<string, string>, isFloat: string -> bool)
    requires !HasPrefix(k, "$") && k != "_id" && ToLower(k) in index
    ensures AdjustPair(nspec, k, v, index, isFloat) ==
      var sval := Format(v);
      nspec[index[ToLower(k)] := if PatternInt(sval) || isFloat(sval) then Literal(v) else Regex("^" + sval + "$", "i")]
  {
    assert Kept(k, v) && Target(k, index) == index[ToLower(k)];
  }

  lemma PairUnresolved(nspec: Filter, k: string, v: Value, index: map<string, string>, isFloat: string -> bool)
    requires !HasPrefix(k, "$") && k != "_id" && ToLower(k) !in index
    ensures AdjustPair(nspec, k, v, index, isFloat) == nspec[k := Literal(v)]
  {
    assert Kept(k, v) && Target(k, index) == k;
  }

  /** A pair that no other kept pair shares a target with is filed
      deterministically. */
  lemma AdjustedUnique(nspec: Filter, spec: map<string, Value>, k: string,
                       index: map<string, string>, isFloat: string -> bool)
    requires AdjustedFrom(nspec, spec, spec.Keys, index, isFloat)
    requires k in spec && Kept(k, spec[k])
    requires forall k2 :: k2 in spec && Kept(k2, spec[k2]) && Target(k2, index) == Target(k, index) ==> k2 == k
    ensures Target(k, index) in nspec
    ensures nspec[Target(k, index)] == AdjustedTerm(k, spec[k], index, isFloat)
  {
    var t := Target(k, index);
    assert t in Targets(spec, spec.Keys, index);
    assert FiledFrom(nspec, spec, spec.Keys, index, isFloat, t);
    var k2 :| k2 in spec.Keys && Kept(k2, spec[k2]) && Target(k2, index) == t &&
      nspec[t] == AdjustedTerm(k2, spec[k2], index, isFloat);
  }

  /** Operator keys are always dropped, so a spec of operators only (the
      free-text `$text` search) adjusts to the empty filter. */
  lemma AdjustedOperators(nspec: Filter, spec: map<string, Value>, index: map<string, string>, isFloat: string -> bool)
    requires AdjustedFrom(nspec, spec, spec.Keys, index, isFloat)
    requires forall k :: k in spec ==> HasPrefix(k, "$")
    ensures nspec == map[]
  {
    assert forall k :: k in spec ==> !Kept(k, spec[k]);
    assert Targets(spec, spec.Keys, index) == {};
  }

  // ----- ParseQuery -----

  /** The filter a query with `{` is decoded to: every value as decoded,
      but an `_id` that reads as an ObjectID. */
  function JsonFilter(spec: map<string, Value>): (f: Filter)
    ensures f.Keys == spec.Keys
    ensures forall k :: k in f && k != "_id" ==> f[k] == Literal(spec[k])
  {
    var lit := map k | k in spec :: Literal(spec[k]);
    if "_id" in spec && spec["_id"].VString? && IsObjectIdHex(spec["_id"].s)
    then lit["_id" := ObjectId(spec["_id"].s)]
    else lit
  }

  function StringSpec(m: map<string, string>): (r: map<string, Value>)
    ensures r.Keys == m.Keys
  {
    map k | k in m :: VString(m[k])
  }

  /** `ParseQuery`. `decoded` is json.Unmarshal's reading of the query,
      None when it fails; `index` is the lower-cased schema key index. */
  method ParseQuery(query: string, decoded: Option<map<string, Value>>, index: map<string, string>,
                    isFloat: string -> bool) returns (r: QueryResult)
    ensures r == EmptyQuery <==> TrimSpace(query) == ""
    ensures TrimSpace(query) != "" && '{' in query ==>
      (r == DecodeError <==> decoded.None?) &&
      (r == IdPanic <==> decoded.Some? && "_id" in decoded.value && !decoded.value["_id"].VString?) &&
      (r.Spec? ==> decoded.Some? && r.filter == JsonFilter(decoded.value))
    ensures TrimSpace(query) != "" && '{' !in query && ':' in query ==>
      r.Spec? && AdjustedFrom(r.filter, StringSpec(Tokens(query)), Tokens(query).Keys, index, isFloat)
    ensures TrimSpace(query) != "" && '{' !in query && ':' in query && NoRepeatedLast(query) ==>
      r.Spec? && AdjustedFrom(r.filter, StringSpec(TokensAsWritten(query)), TokensAsWritten(query).Keys, index, isFloat)
    ensures TrimSpace(query) != "" && '{' !in query && ':' !in query ==> r == Spec(map[])
  {
    if TrimSpace(query) == "" {
      return EmptyQuery;
    }
    if '{' in query {
      if decoded.None? {
        return DecodeError;
      }
      var spec := decoded.value;
      if "_id" in spec {
        if !spec["_id"].VString? {
          return IdPanic;
        }
      }
      return Spec(JsonFilter(spec));
    }
    var spec: map<string, Value>;
    if ':' in query {
      var pairs := Tokenize(query);
      if NoRepeatedLast(query) {
        TokensAgree(query);
      }
      spec := StringSpec(pairs);
      var nspec := AdjustQuery(spec, index, isFloat);
      return Spec(nspec);
    } else {
      spec := map["$text" := VMap(map["$search" := VString(query)])];
      var nspec := AdjustQuery(spec, index, isFloat);
      AdjustedOperators(nspec, spec, index, isFloat);
      return Spec(nspec);
    }
  }

  /** A resolved key whose value prints as an integer keeps the value:
      numbers are matched exactly, not as patterns. */
  lemma AdjustedIntegerValue(k: string, n: int, index: map<string, string>, isFloat: string -> bool)
    requires k != "_id" && ToLower(k) in index
    ensures AdjustedTerm(k, VString(Itoa(n)), index, isFloat) == Literal(VString(Itoa(n)))
    ensures AdjustedTerm(k, VInt(GoInt, n), index, isFloat) == Literal(VInt(GoInt, n))
  {
    PatternIntItoa(n);
  }

  /** Keys no schema knows pass through with their values unchanged. */
  lemma AdjustedUnknownKeys(f: Filter, spec: map<string, Value>, index: map<string, string>, isFloat: string -> bool)
    requires AdjustedFrom(f, spec, spec.Keys, index, isFloat)
    requires forall k :: k in spec ==> !HasPrefix(k, "$") && k != "_id" && ToLower(k) !in index
    ensures f == map k | k in spec :: Literal(spec[k])
  {
    assert forall k :: k in spec ==> Kept(k, spec[k]) && Target(k, index) == k;
    assert f.Keys == spec.Keys;
    forall t | t in f ensures f[t] == Literal(spec[t]) {
      assert FiledFrom(f, spec, spec.Keys, index, isFloat, t);
      var k :| k in spec.Keys && Kept(k, spec[k]) && Target(k, index) == t &&
        f[t] == AdjustedTerm(k, spec[k], index, isFloat);
    }
  }
}
