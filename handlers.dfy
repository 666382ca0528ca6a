/** The record-shaping parts of the web handlers (web/handlers.go): how a
    submitted form value is parsed by its schema type (`parseValue`), how a
    submitted form becomes a record (`processForm`), and what a form field
    offers for editing (`formEntry`). Form values arrive as Go's
    `url.Values`, a map from key to the list of submitted strings. */
module Handlers {
  import opened GoStrings
  import opened GoValues
  import opened SchemaTypes
  import Schemas
  import Utils
  import Helpers

  // ----- parseValue -----

  datatype FormError = NoSuchKey | NotBool | NotInt | NotFloat | UnknownType

  /** A parsed value, or the value `parseValue` returns beside its error,
      or the panic of `items[0]` on an empty list. */
  datatype FormValue = Parsed(v: Value) | Failed(fallback: Value, why: FormError) | IndexPanic

  /** The list types whose items are kept as submitted. */
  predicate KeepsItems(t: string)
  {
    t == "list_str" || HasPrefix(t, "list_int") || HasPrefix(t, "list_float")
  }

  /** `parseValue` for the schema map `m`. An unknown key passes only as an
      empty string for a skipped key in test mode. `parseFloat` stands for
      `strconv.ParseFloat`, giving the `%v` text of the float and whether it
      is zero. */
  function ParseValue(m: map<string, SchemaRecord>, key: string, items: seq<string>, testMode: bool,
                      parseFloat: string -> Option<(string, bool)>): (r: FormValue)
    ensures key !in m ==> (r.Parsed? <==> testMode && key in Schemas.SkipKeys)
    ensures key !in m && r.Parsed? ==> r.v == VString("")
    ensures r.Failed? && r.why == NoSuchKey <==> key !in m && !(testMode && key in Schemas.SkipKeys)
    ensures r.IndexPanic? ==> items == [] && key in m && !KeepsItems(m[key].Type)
  {
    if key !in m then
      if testMode && key in Schemas.SkipKeys then Parsed(VString("")) else Failed(VBool(false), NoSuchKey)
    else
      var t := m[key].Type;
      if KeepsItems(t) then Parsed(VStrList(items))
      else if t == "string" then
        if |items| == 0 then IndexPanic else Parsed(VString(items[0]))
      else if t == "bool" then
        if |items| == 0 then IndexPanic
        else match ParseBool(items[0])
          case Some(b) => Parsed(VBool(b))
          case None => Failed(VBool(false), NotBool)
      else if HasPrefix(t, "int") then
        if |items| == 0 then IndexPanic
        else match ParseInt(items[0])
          case Some(n) => Parsed(VInt(Int64, n))
          case None => Failed(VInt(GoInt, 0), NotInt)
      else if HasPrefix(t, "float") then
        if |items| == 0 then IndexPanic
        else match parseFloat(items[0])
          case Some(f) => Parsed(VFloat(Float64, f.0, f.1))
          case None => Failed(VInt(GoInt, 0), NotFloat)
      else Failed(VInt(GoInt, 0), UnknownType)
  }

  /** A string differing from `p` at a position of `p` does not start
      with `p`. */
  lemma PrefixDiffers(s: string, p: string, i: nat)
    requires i < |p| && (i < |s| ==> s[i] != p[i])
    ensures !HasPrefix(s, p)
  {
  }

  /** List types keep the submitted items, a string takes the first one. */
  lemma ParseKeepsText(m: map<string, SchemaRecord>, key: string, items: seq<string>, testMode: bool,
                       parseFloat: string -> Option<(string, bool)>)
    requires key in m
    ensures KeepsItems(m[key].Type) ==> ParseValue(m, key, items, testMode, parseFloat) == Parsed(VStrList(items))
    ensures m[key].Type == "string" && |items| >= 1 ==>
      ParseValue(m, key, items, testMode, parseFloat) == Parsed(VString(items[0]))
  {
    PrefixDiffers("string", "list_int", 0);
    PrefixDiffers("string", "list_float", 0);
  }

  /** A bool field reads back the `%v` text of either flag. */
  lemma ParseBoolText(m: map<string, SchemaRecord>, key: string, b: bool, rest: seq<string>, testMode: bool,
                      parseFloat: string -> Option<(string, bool)>)
    requires key in m && m[key].Type == "bool"
    ensures ParseValue(m, key, [Format(VBool(b))] + rest, testMode, parseFloat) == Parsed(VBool(b))
  {
    PrefixDiffers("bool", "list_int", 0);
    PrefixDiffers("bool", "list_float", 0);
  }

  /** A type starting with "int" is parsed as an integer. */
  lemma IntTypeBranch(t: string)
    requires HasPrefix(t, "int")
    ensures !KeepsItems(t) && t != "string" && t != "bool"
  {
    assert t[0] == "int"[0];
    PrefixDiffers(t, "list_int", 0);
    PrefixDiffers(t, "list_float", 0);
  }

  /** An integer field reads back the decimal text of any 64-bit value. */
  lemma ParseIntText(m: map<string, SchemaRecord>, key: string, n: int, rest: seq<string>, testMode: bool,
                     parseFloat: string -> Option<(string, bool)>)
    requires key in m && HasPrefix(m[key].Type, "int")
    requires MinInt64 <= n <= MaxInt64
    ensures ParseValue(m, key, [Itoa(n)] + rest, testMode, parseFloat) == Parsed(VInt(Int64, n))
  {
    IntTypeBranch(m[key].Type);
    AtoiItoa(n);
  }

  /** Types no branch handles, such as "list" and "boolean", are errors. */
  lemma ParseUnhandledTypes(m: map<string, SchemaRecord>, key: string, items: seq<string>, testMode: bool,
                            parseFloat: string -> Option<(string, bool)>)
    requires key in m && m[key].Type in ["list", "boolean"]
    ensures ParseValue(m, key, items, testMode, parseFloat) == Failed(VInt(GoInt, 0), UnknownType)
  {
    if m[key].Type == "list" {
      PrefixDiffers("list", "list_int", 4);
      PrefixDiffers("list", "list_float", 4);
      PrefixDiffers("list", "int", 0);
      PrefixDiffers("list", "float", 0);
    } else {
      PrefixDiffers("boolean", "list_int", 0);
      PrefixDiffers("boolean", "list_float", 0);
      PrefixDiffers("boolean", "int", 0);
      PrefixDiffers("boolean", "float", 0);
    }
  }

  /** What a form yields for "list_str", "string", "bool" and "int64"
      fields has the type the validator expects; for "int" and "list_int"
      fields it never has, since integers are parsed as `int64` and lists
      stay `[]string`. */
  lemma ParsedTypes(m: map<string, SchemaRecord>, key: string, items: seq<string>, testMode: bool,
                    parseFloat: string -> Option<(string, bool)>)
    requires key in m && ParseValue(m, key, items, testMode, parseFloat).Parsed?
    ensures m[key].Type in ["list_str", "string", "bool", "int64"] ==>
      ValidSchemaType(m[key].Type, ParseValue(m, key, items, testMode, parseFloat).v)
    ensures m[key].Type in ["int", "list_int"] ==>
      !ValidSchemaType(m[key].Type, ParseValue(m, key, items, testMode, parseFloat).v)
  {
    var t := m[key].Type;
    var v := ParseValue(m, key, items, testMode, parseFloat).v;
    if t in ["list_str", "string", "bool", "int64"] {
      ParsedValid(m, key, items, testMode, parseFloat);
    } else if t in ["int", "list_int"] {
      ParsedInvalid(m, key, items, testMode, parseFloat);
    }
  }

  lemma ParsedValid(m: map<string, SchemaRecord>, key: string, items: seq<string>, testMode: bool,
                    parseFloat: string -> Option<(string, bool)>)
    requires key in m && ParseValue(m, key, items, testMode, parseFloat).Parsed?
    requires m[key].Type in ["list_str", "string", "bool", "int64"]
    ensures ValidSchemaType(m[key].Type, ParseValue(m, key, items, testMode, parseFloat).v)
  {
    var t := m[key].Type;
    var v := ParseValue(m, key, items, testMode, parseFloat).v;
    if t == "string" || t == "bool" {
      PrefixDiffers(t, "list_int", 0);
      PrefixDiffers(t, "list_float", 0);
    } else if t == "int64" {
      assert HasPrefix(t, "int") by {
        assert t[..3] == "int";
      }
      IntTypeBranch(t);
      assert v.VInt? && v.kind == Int64;
      ItoaNonEmpty(v.i);
    }
  }

  lemma ParsedInvalid(m: map<string, SchemaRecord>, key: string, items: seq<string>, testMode: bool,
                      parseFloat: string -> Option<(string, bool)>)
    requires key in m && ParseValue(m, key, items, testMode, parseFloat).Parsed?
    requires m[key].Type in ["int", "list_int"]
    ensures !ValidSchemaType(m[key].Type, ParseValue(m, key, items, testMode, parseFloat).v)
  {
    var t := m[key].Type;
    var v := ParseValue(m, key, items, testMode, parseFloat).v;
    if t == "int" {
      assert HasPrefix(t, "int") by {
        assert t[..3] == "int";
      }
      IntTypeBranch(t);
      assert v.VInt? && v.kind == Int64;
      ItoaNonEmpty(v.i);
    } else {
      assert HasPrefix(t, "list_int");
      assert v.VStrList?;
    }
  }

  // ----- processForm -----

  /** The schema name a form names: absent gives "", an empty list panics. */
  function SchemaNameOf(form: map<string, seq<string>>): Option<string>
  {
    if "SchemaName" !in form then Some("")
    else if |form["SchemaName"]| == 0 then None
    else Some(form["SchemaName"][0])
  }

  /** The position of the first configured file whose path contains the
      name, or the number of files when none does. */
  function FirstContaining(files: seq<string>, name: string): (i: nat)
    ensures i <= |files|
    ensures i < |files| ==> Contains(files[i], name)
    ensures forall j :: 0 <= j < i ==> !Contains(files[j], name)
  {
    if |files| == 0 then 0
    else if Contains(files[0], name) then 0
    else 1 + FirstContaining(files[1..], name)
  }

  /** The schema file a form selects, "" when no configured file matches. */
  function SchemaFileFor(files: seq<string>, name: string): string
  {
    var i := FirstContaining(files, name);
    if i < |files| then files[i] else ""
  }

  /** Every path contains the empty name, so a form without a schema name
      takes the first configured file. */
  lemma EmptyNamePicksFirst(files: seq<string>)
    requires |files| >= 1
    ensures SchemaFileFor(files, "") == files[0]
  {
    assert OccursAt(files[0], "", 0);
  }

  /** The search of `processForm` over the configured schema files. */
  method SelectSchemaFile(files: seq<string>, name: string) returns (fname: string)
    ensures fname == SchemaFileFor(files, name)
  {
    fname := "";
    var i := 0;
    while i < |files|
      invariant 0 <= i <= |files|
      invariant forall j :: 0 <= j < i ==> !Contains(files[j], name)
    {
      if Contains(files[i], name) {
        assert FirstContaining(files, name) == i by {
          FirstContainingAt(files, name, i);
        }
        return files[i];
      }
      i := i + 1;
    }
    assert FirstContaining(files, name) == |files| by {
      FirstContainingAt(files, name, |files|);
    }
  }

  /** The first match is at `i` when nothing before `i` matches and `i`
      matches or ends the list. */
  lemma {:induction false} FirstContainingAt(files: seq<string>, name: string, i: nat)
    requires i <= |files|
    requires forall j :: 0 <= j < i ==> !Contains(files[j], name)
    requires i < |files| ==> Contains(files[i], name)
    ensures FirstContaining(files, name) == i
    decreases i
  {
    if i > 0 {
      assert !Contains(files[0], name);
      assert forall j :: 0 <= j < i - 1 ==> files[1..][j] == files[j + 1];
      FirstContainingAt(files[1..], name, i - 1);
    }
  }

  datatype FormOutcome =
    | FormOk
    | NamePanic                                   // an empty SchemaName list
    | FormLoadFailed(load: Schemas.LoadOutcome)
    | KeyPanic(key: string)                       // an empty list for a key that needs one item
    | KeyRejected(key: string, why: FormError)

  /** Every form key but SchemaName with what `parseValue` makes of it. */
  function Parses(m: map<string, SchemaRecord>, form: map<string, seq<string>>, testMode: bool,
                  parseFloat: string -> Option<(string, bool)>): (ps: map<string, FormValue>)
    ensures ps.Keys == form.Keys - {"SchemaName"}
  {
    map k | k in form.Keys && k != "SchemaName" :: ParseValue(m, k, form[k], testMode, parseFloat)
  }

  /** A key `processForm` does not stop at: parsed, or failed on an
      optional schema key. */
  predicate Tolerated(m: map<string, SchemaRecord>, k: string, r: FormValue)
  {
    r.Parsed? || (r.Failed? && k in m && m[k].Optional)
  }

  /** The value stored for a tolerated key. */
  function Stored(r: FormValue): Value
  {
    match r
    case Parsed(v) => v
    case Failed(fallback, _) => fallback
    case IndexPanic => VNil
  }

  /** The outcome of filling a record from the parsed form `ps`: complete
      exactly when every key is tolerated, and then holding every key's
      stored value over the initial `Date`; otherwise stopped at a key that
      panics or is not tolerated. */
  predicate FillResult(m: map<string, SchemaRecord>, ps: map<string, FormValue>, now: int,
                       outcome: FormOutcome, rec: Record)
  {
    "Date" in rec &&
    (outcome == FormOk <==> forall k :: k in ps ==> Tolerated(m, k, ps[k])) &&
    (outcome == FormOk ==>
      rec.Keys == ps.Keys + {"Date"} &&
      (forall k :: k in ps ==> rec[k] == Stored(ps[k])) &&
      ("Date" !in ps ==> rec["Date"] == VInt(Int64, now))) &&
    (outcome.KeyPanic? ==> outcome.key in ps && ps[outcome.key].IndexPanic?) &&
    (outcome.KeyRejected? ==>
      outcome.key in ps && ps[outcome.key].Failed? && !Tolerated(m, outcome.key, ps[outcome.key]) &&
      outcome.why == ps[outcome.key].why) &&
    (outcome == FormOk || outcome.KeyPanic? || outcome.KeyRejected?)
  }

  /** The second loop of `processForm`, over the form keys in any order. */
  method FillRecord(m: map<string, SchemaRecord>, form: map<string, seq<string>>, testMode: bool,
                    parseFloat: string -> Option<(string, bool)>, now: int)
    returns (outcome: FormOutcome, rec: Record)
    ensures FillResult(m, Parses(m, form, testMode, parseFloat), now, outcome, rec)
  {
    ghost var ps := Parses(m, form, testMode, parseFloat);
    rec := map["Date" := VInt(Int64, now)];
    var remaining := form.Keys - {"SchemaName"};
    assert FillInv(m, ps, now, rec, ps.Keys - remaining);
    while remaining != {}
      invariant remaining <= ps.Keys
      invariant FillInv(m, ps, now, rec, ps.Keys - remaining)
      decreases |remaining|
    {
      var k :| k in remaining;
      ghost var visited := ps.Keys - remaining;
      remaining := remaining - {k};
      assert ps.Keys - remaining == visited + {k};
      var stop, o, next := VisitKey(m, form, k, testMode, parseFloat, now, ps, rec, visited);
      if stop {
        return o, rec;
      }
      rec := next;
    }
    outcome := FormOk;
    Completed(m, ps, now, rec, ps.Keys - remaining);
  }

  /** One pass of the loop of `FillRecord`, for the form key `k`. */
  method VisitKey(m: map<string, SchemaRecord>, form: map<string, seq<string>>, k: string, testMode: bool,
                  parseFloat: string -> Option<(string, bool)>, now: int,
                  ghost ps: map<string, FormValue>, rec: Record, ghost visited: set<string>)
    returns (stop: bool, outcome: FormOutcome, next: Record)
    requires ps == Parses(m, form, testMode, parseFloat)
    requires FillInv(m, ps, now, rec, visited) && k in ps && k !in visited
    ensures stop ==> FillResult(m, ps, now, outcome, rec)
    ensures !stop ==> next == rec[k := Stored(ps[k])] && FillInv(m, ps, now, next, visited + {k})
  {
    var val := ParseValue(m, k, form[k], testMode, parseFloat);
    assert val == ps[k];
    stop, outcome := Visit(m, k, val);
    next := rec;
    if stop {
      Stopped(m, ps, now, outcome, rec);
      return;
    }
    FillStep(m, ps, now, rec, visited, k);
    next := rec[k := Stored(val)];
  }

  /** The loop invariant of `FillRecord`: the visited keys are tolerated
      and stored over the initial `Date`. */
  ghost predicate FillInv(m: map<string, SchemaRecord>, ps: map<string, FormValue>, now: int,
                          rec: Record, visited: set<string>)
  {
    visited <= ps.Keys &&
    (forall k :: k in visited ==> Tolerated(m, k, ps[k])) &&
    "Date" in rec && (forall x :: x in rec <==> x in visited || x == "Date") &&
    (forall k :: k in visited ==> rec[k] == Stored(ps[k])) &&
    ("Date" !in visited ==> rec["Date"] == VInt(Int64, now))
  }

  lemma FillStep(m: map<string, SchemaRecord>, ps: map<string, FormValue>, now: int,
                 rec: Record, visited: set<string>, k: string)
    requires FillInv(m, ps, now, rec, visited)
    requires k in ps && k !in visited && Tolerated(m, k, ps[k])
    ensures FillInv(m, ps, now, rec[k := Stored(ps[k])], visited + {k})
  {
  }

  /** What `processForm` does with one parsed key: store it, or stop with
      the error when the key is mandatory or unknown. */
  method Visit(m: map<string, SchemaRecord>, k: string, val: FormValue) returns (stop: bool, outcome: FormOutcome)
    ensures stop <==> !Tolerated(m, k, val)
    ensures stop && val.IndexPanic? ==> outcome == KeyPanic(k)
    ensures stop && !val.IndexPanic? ==> val.Failed? && outcome == KeyRejected(k, val.why)
  {
    stop, outcome := false, FormOk;
    if val.IndexPanic? {
      return true, KeyPanic(k);
    }
    if val.Failed? {
      if k in m {
        if !m[k].Optional {
          return true, KeyRejected(k, val.why);
        }
      } else {
        return true, KeyRejected(k, val.why);
      }
    }
  }

  /** Stopping at a key that panics or is not tolerated. */
  lemma Stopped(m: map<string, SchemaRecord>, ps: map<string, FormValue>, now: int,
                outcome: FormOutcome, rec: Record)
    requires "Date" in rec
    requires outcome.KeyPanic? || outcome.KeyRejected?
    requires outcome.key in ps && !Tolerated(m, outcome.key, ps[outcome.key])
    requires outcome.KeyPanic? ==> ps[outcome.key].IndexPanic?
    requires outcome.KeyRejected? ==> ps[outcome.key].Failed? && outcome.why == ps[outcome.key].why
    ensures FillResult(m, ps, now, outcome, rec)
  {
  }

  /** Finishing the loop with every key visited. */
  lemma Completed(m: map<string, SchemaRecord>, ps: map<string, FormValue>, now: int, rec: Record,
                  visited: set<string>)
    requires FillInv(m, ps, now, rec, visited) && visited == ps.Keys
    ensures FillResult(m, ps, now, FormOk, rec)
  {
    assert rec.Keys == ps.Keys + {"Date"};
  }

  /** `processForm`: the record starts with `Date`, the schema is the first
      configured file naming the submitted schema name, and the form keys
      other than SchemaName are parsed by it. */
  method ProcessForm(mgr: Schemas.SchemaManager, index: Schemas.SchemaKeyIndex,
                     form: map<string, seq<string>>, files: seq<string>, testMode: bool,
                     parseFloat: string -> Option<(string, bool)>, now: int, wd: Option<string>,
                     interval: int, disk: Schemas.Disk, configured: map<string, seq<string>>)
    returns (outcome: FormOutcome, rec: Record)
    requires index.Valid()
    modifies mgr, index
    ensures index.Valid()
    ensures "Date" in rec
    ensures outcome == NamePanic <==> SchemaNameOf(form).None?
    ensures SchemaNameOf(form).Some? ==>
      var path := Utils.FullPath(SchemaFileFor(files, SchemaNameOf(form).value), wd);
      (outcome.FormLoadFailed? <==>
        !Schemas.Fresh(old(mgr.entries), path, now, interval) &&
        Schemas.SchemaLoadOutcome(path, disk) != Schemas.LoadOk) &&
      (outcome.FormLoadFailed? ==> rec == map["Date" := VInt(Int64, now)]) &&
      (!outcome.FormLoadFailed? ==>
        path in mgr.entries && mgr.entries[path].schema != null &&
        var m := mgr.entries[path].schema.schemaMap;
        FillResult(m, Parses(m, form, testMode, parseFloat), now, outcome, rec))
  {
    rec := map["Date" := VInt(Int64, now)];
    var sname := "";
    if "SchemaName" in form {
      if |form["SchemaName"]| == 0 {
        return NamePanic, rec;
      }
      sname := form["SchemaName"][0];
    }
    var fname := SelectSchemaFile(files, sname);
    var schema, loaded := mgr.Load(fname, wd, now, interval, disk, configured, index);
    if loaded != Schemas.LoadOk {
      return FormLoadFailed(loaded), rec;
    }
    outcome, rec := FillRecord(schema.schemaMap, form, testMode, parseFloat, now);
  }

  // ----- formEntry -----

  predicate ListType(t: string)
  {
    t == "list_str" || t == "list_int" || t == "list_float" || t == "list"
  }

  predicate BoolType(t: string)
  {
    t == "bool" || t == "boolean"
  }

  /** The choices of a bool field: the current value first when it is the
      Go value `true`, "false" first otherwise. */
  function BoolChoices(v: Value): seq<string>
  {
    if v == VBool(true) then ["", "true", "false"] else ["", "false", "true"]
  }

  /** A bool field offers an empty choice and both flags, with the current
      flag preselected after the empty one. */
  lemma BoolChoicesOrder(v: Value)
    ensures |BoolChoices(v)| == 3 && BoolChoices(v)[0] == ""
    ensures multiset(BoolChoices(v)) == multiset(["", "true", "false"])
    ensures v.VBool? ==> BoolChoices(v)[1] == Format(v) && BoolChoices(v)[2] == Format(VBool(!v.b))
  {
    if v != VBool(true) {
      assert multiset(["", "false", "true"]) == multiset(["", "true", "false"]) by {
        assert ["", "false", "true"] == [""] + ["false"] + ["true"];
        assert ["", "true", "false"] == [""] + ["true"] + ["false"];
      }
    }
  }

  /** The `Value` a field of the section shows, for a schema record `r`. */
  function EntryValue(r: SchemaRecord): Value
  {
    if ListType(r.Type) then
      (if r.Value.VAnyList? then VStrList(Helpers.FormatAll(r.Value.items)) else VStrList([]))
    else if BoolType(r.Type) then VStrList(BoolChoices(r.Value))
    else if r.Value == VNil then VString("")
    else if r.Value.VAnyList? then VStrList(Helpers.FormatAll(r.Value.items))
    else VString(Format(r.Value))
  }

  /** `formEntry`'s template data for key `k` in section `s`. Keys of
      another section, or not in the schema, keep the defaults. */
  method FormEntry(smap: map<string, SchemaRecord>, k: string, s: string, required: string)
    returns (data: map<string, Value>)
    ensures {"Key", "Value", "Placeholder", "Description", "Required", "Type", "Multiple"} <= data.Keys
    ensures data["Key"] == VString(k) && data["Required"] == VString(required) && data["Type"] == VString("text")
    ensures ("Class" in data <==> required != "") && (required != "" ==> data["Class"] == VString("is-req"))
    ensures !(k in smap && smap[k].Section == s) ==>
      data.Keys == {"Key", "Value", "Placeholder", "Description", "Required", "Type", "Multiple"} +
        (if required != "" then {"Class"} else {}) &&
      data["Value"] == VString("") && data["Multiple"] == VString("") &&
      data["Description"] == VString("") && data["Placeholder"] == VString("")
    ensures k in smap && smap[k].Section == s ==>
      var r := smap[k];
      data.Keys == {"Key", "Value", "Placeholder", "Description", "Required", "Type", "Multiple"} +
        (if required != "" then {"Class"} else {}) +
        (if ListType(r.Type) || BoolType(r.Type) then {"List"} else {}) &&
      ("List" in data ==> data["List"] == VBool(true)) &&
      data["Value"] == EntryValue(r) &&
      data["Multiple"] == VString(if r.Multiple then "multiple" else "") &&
      data["Description"] == VString(if r.Description == "" then "Not Available" else r.Description) &&
      data["Placeholder"] == VString(r.Placeholder)
  {
    data := map["Key" := VString(k), "Value" := VString(""), "Placeholder" := VString(""),
                "Description" := VString(""), "Required" := VString(required)];
    if required != "" {
      data := data["Class" := VString("is-req")];
    }
    data := data["Type" := VString("text")];
    data := data["Multiple" := VString("")];
    if k in smap {
      var r := smap[k];
      if r.Section == s {
        var list, v := EntryFor(r);
        if list {
          data := data["List" := VBool(true)];
        }
        data := data["Value" := v];
        if r.Multiple {
          data := data["Multiple" := VString("multiple")];
        }
        var desc := r.Description;
        if desc == "" {
          desc := "Not Available";
        }
        data := data["Description" := VString(desc)];
        data := data["Placeholder" := VString(r.Placeholder)];
      }
    }
  }

  /** The value branches of `formEntry`: whether the field is a list, and
      the value it shows (the empty text when the schema gives none). */
  method EntryFor(r: SchemaRecord) returns (list: bool, v: Value)
    ensures list <==> ListType(r.Type) || BoolType(r.Type)
    ensures v == EntryValue(r)
  {
    list, v := false, VString("");
    if ListType(r.Type) {
      list := true;
      var vals := ListText(r.Value);
      v := VStrList(vals);
    } else if BoolType(r.Type) {
      list := true;
      v := VStrList(BoolChoices(r.Value));
    } else if r.Value != VNil {
      if r.Value.VAnyList? {
        var vals := ListText(r.Value);
        v := VStrList(vals);
      } else {
        v := VString(Format(r.Value));
      }
    }
  }

  /** The `%v` texts of a `[]any`, nothing for any other value. */
  method ListText(v: Value) returns (vals: seq<string>)
    ensures v.VAnyList? ==> vals == Helpers.FormatAll(v.items)
    ensures !v.VAnyList? ==> vals == []
  {
    vals := [];
    if v.VAnyList? {
      var i := 0;
      while i < |v.items|
        invariant 0 <= i <= |v.items|
        invariant |vals| == i && forall j :: 0 <= j < i ==> vals[j] == Format(v.items[j])
      {
        vals := vals + [Format(v.items[i])];
        i := i + 1;
      }
    }
  }

  // ----- the page size of a search -----

  /** The page size `SearchHandler` reads from the "limit" form value:
      whatever integer the text holds, 50 when it holds none. */
  function SearchLimit(text: string): int
  {
    if Atoi(text).Some? then Atoi(text).value else 50
  }

  /** `/search?limit=0&query=...` with at least one matching record: the
      page size 0 reaches the "last" loop of `makeURL`, whose counter then
      stays below the number of results, so the request never completes. */
  lemma ZeroLimitNeverEnds(nrec: int, n: nat)
    requires nrec > 0
    ensures SearchLimit("0") == 0
    ensures Utils.LastLoopCounter(SearchLimit("0"), n) < nrec
  {
    AtoiItoa(0);
    Utils.LastLoopNeverEnds(0, nrec, n);
  }

  /** The page size with a range guard: a positive integer is kept, any
      other text gives the default 50. */
  function PageLimit(text: string): (limit: int)
    ensures limit > 0
    ensures limit == SearchLimit(text) <==> SearchLimit(text) > 0
    ensures SearchLimit(text) <= 0 ==> limit == 50
  {
    if Atoi(text).Some? && Atoi(text).value > 0 then Atoi(text).value else 50
  }

  /** With the guarded page size the "last" link of a non-empty result
      points at the start of a page holding the last result. */
  lemma PageLimitLastPage(text: string, nres: int)
    requires nres > 0
    ensures var limit := PageLimit(text);
      var j := Utils.PageIndex("last", 0, limit, nres);
      0 <= j < nres <= j + limit && j % limit == 0
  {
    Utils.LastPageStartIsLastMultiple(nres, PageLimit(text));
  }
}
