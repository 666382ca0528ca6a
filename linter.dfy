/** The stand-alone schema checker (web/schemas/main.go): it decodes a schema
    file into schema records, rejecting unknown fields, and stops at the
    first record whose type is not one of the known types or whose listed
    values do not fit that type. */
module SchemaLinter {
  import opened GoStrings
  import opened GoValues
  import opened SchemaTypes
  import Utils

  /** The types a schema record may declare. */
  const Types: seq<string> := [
    "int", "int32", "int64", "uint8", "uint16", "uint32",
    "float", "float32", "float64",
    "string", "bool",
    "list_str", "list_int", "list_float"]

  /** `checkTypeValues(rtype, v)`: the checker's own type test. Unlike the
      server's it lets every empty string through and has no rule for a
      `[]string` printing as "[]". */
  function CheckTypeValues(rtype: string, v: Value): bool
  {
    if v == VNil then true
    else if (IsIntZero(v) || IsFloat64Zero(v)) && (Contains(rtype, "int") || Contains(rtype, "float")) then true
    else if v == VString("") then true
    else
      var rt := if rtype == "str" then "string" else rtype;
      var etype := TypeTag(v);
      var sv := Format(v);
      var vtype := TypeName(v);
      if rt == "int64" && vtype == "float64" && !Contains(sv, ".") then true
      else if rt == "list_float" && vtype == "[]interface {}" then true
      else rt == etype
  }

  /** The accepted cases, stated on the value's constructor. */
  lemma CheckTypeValuesCases(rtype: string, v: Value)
    ensures CheckTypeValues(rtype, v) <==>
      v == VNil
      || ((IsIntZero(v) || IsFloat64Zero(v)) && (Contains(rtype, "int") || Contains(rtype, "float")))
      || v == VString("")
      || (rtype == "int64" && v.VFloat? && v.fkind == Float64 && '.' !in v.text)
      || (rtype == "list_float" && v.VAnyList?)
      || (rtype == "str" && TypeTag(v) == "string")
      || (rtype != "str" && rtype == TypeTag(v))
  {
    if v.VFloat? {
      ContainsChar(v.text, '.');
    }
    assert TypeName(v) == "float64" <==> v.VFloat? && v.fkind == Float64;
    assert TypeName(v) == "[]interface {}" <==> v.VAnyList?;
  }

  /** A JSON number other than zero fits "float64", and "int64" when it
      prints without a decimal point; every other type rejects it. */
  lemma JsonNumberTypes(rtype: string, text: string)
    ensures CheckTypeValues(rtype, VFloat(Float64, text, false)) <==>
      rtype == "float64" || (rtype == "int64" && '.' !in text)
  {
    CheckTypeValuesCases(rtype, VFloat(Float64, text, false));
  }

  // ----- decoding the schema file -----

  /** A schema file's JSON document: a top-level array of elements, or any
      other value. */
  datatype JsonDoc = JArray(elems: seq<JsonElem>) | JOther(v: Value)

  /** An array element: an object with its members in file order, or any
      other value. */
  datatype JsonElem = JObject(members: seq<(string, Value)>) | JNonObject(v: Value)

  const ZeroRecord := SchemaRecord("", "", false, false, "", VNil, "", "")

  /** The JSON names of SchemaRecord's fields. */
  const FieldNames: seq<string> := ["key", "type", "optional", "multiple", "section", "value", "placeholder", "description"]

  /** Decoding one object member into the record. Names match a field
      regardless of case; null leaves a string or bool field as it is; a
      value of the wrong JSON type or an unknown name is an error. */
  function SetField(rec: SchemaRecord, name: string, v: Value): Option<SchemaRecord>
  {
    SetLowered(rec, ToLower(name), v)
  }

  /** Decoding a member whose name is already in lower case. */
  function SetLowered(rec: SchemaRecord, n: string, v: Value): Option<SchemaRecord>
  {
    if n == "value" then Some(rec.(Value := v))
    else if n == "optional" || n == "multiple" then
      if v == VNil then Some(rec)
      else if v.VBool? then Some(if n == "optional" then rec.(Optional := v.b) else rec.(Multiple := v.b))
      else None
    else if n == "key" || n == "type" || n == "section" || n == "placeholder" || n == "description" then
      if v == VNil then Some(rec)
      else if v.VString? then Some(WithString(rec, n, v.s))
      else None
    else None
  }

  function WithString(rec: SchemaRecord, n: string, s: string): SchemaRecord
  {
    if n == "key" then rec.(Key := s)
    else if n == "type" then rec.(Type := s)
    else if n == "section" then rec.(Section := s)
    else if n == "placeholder" then rec.(Placeholder := s)
    else rec.(Description := s)
  }

  /** Decoding an object's members in order, later members overriding
      earlier ones. */
  function DecodeMembers(rec: SchemaRecord, members: seq<(string, Value)>): Option<SchemaRecord>
    decreases |members|
  {
    if |members| == 0 then Some(rec)
    else
      match SetField(rec, members[0].0, members[0].1)
      case None => None
      case Some(r) => DecodeMembers(r, members[1..])
  }

  function DecodeElems(elems: seq<JsonElem>): Option<seq<SchemaRecord>>
    decreases |elems|
  {
    if |elems| == 0 then Some([])
    else
      var first := match elems[0]
        case JObject(members) => DecodeMembers(ZeroRecord, members)
        case JNonObject(v) => if v == VNil then Some(ZeroRecord) else None;
      match first
      case None => None
      case Some(r) =>
        match DecodeElems(elems[1..])
        case None => None
        case Some(rest) => Some([r] + rest)
  }

  /** `decoder.Decode(&records)` with unknown fields disallowed; None is
      the error result. A null document decodes to no records. */
  function DecodeRecords(doc: JsonDoc): Option<seq<SchemaRecord>>
  {
    match doc
    case JArray(elems) => DecodeElems(elems)
    case JOther(v) => if v == VNil then Some([]) else None
  }

  /** A member whose name is not a field name makes the whole object fail. */
  lemma {:induction false} UnknownMemberRejected(rec: SchemaRecord, members: seq<(string, Value)>, i: nat)
    requires i < |members| && ToLower(members[i].0) !in FieldNames
    ensures DecodeMembers(rec, members) == None
    decreases |members|
  {
    if i > 0 {
      match SetField(rec, members[0].0, members[0].1)
      case None =>
      case Some(r) =>
        UnknownMemberRejected(r, members[1..], i - 1);
    }
  }

  /** The members a record is written with. */
  function Members(r: SchemaRecord): seq<(string, Value)>
  {
    [("key", VString(r.Key)), ("type", VString(r.Type)), ("optional", VBool(r.Optional)),
     ("multiple", VBool(r.Multiple)), ("section", VString(r.Section)), ("value", r.Value),
     ("placeholder", VString(r.Placeholder)), ("description", VString(r.Description))]
  }

  /** Decoding a record's members gives back the record, whatever record
      decoding starts from. */
  lemma DecodeMembersRoundTrip(start: SchemaRecord, r: SchemaRecord)
    ensures DecodeMembers(start, Members(r)) == Some(r)
  {
    var m := Members(r);
    var rs := Stages(start, r);
    StagesStep(start, r);
    var k := 8;
    while k > 0
      invariant 0 <= k <= 8
      invariant DecodeMembers(rs[k], m[k..]) == Some(r)
    {
      k := k - 1;
      assert m[k..][0] == m[k] && m[k..][1..] == m[k + 1..];
    }
  }

  /** The record after each member of `Members(r)` is decoded. */
  function Stages(start: SchemaRecord, r: SchemaRecord): seq<SchemaRecord>
  {
    var r1 := start.(Key := r.Key);
    var r2 := r1.(Type := r.Type);
    var r3 := r2.(Optional := r.Optional);
    var r4 := r3.(Multiple := r.Multiple);
    var r5 := r4.(Section := r.Section);
    var r6 := r5.(Value := r.Value);
    var r7 := r6.(Placeholder := r.Placeholder);
    [start, r1, r2, r3, r4, r5, r6, r7, r]
  }

  lemma StagesStep(start: SchemaRecord, r: SchemaRecord)
    ensures |Stages(start, r)| == 9 && Stages(start, r)[8] == r
    ensures forall k :: 0 <= k < 8 ==>
      SetField(Stages(start, r)[k], Members(r)[k].0, Members(r)[k].1) == Some(Stages(start, r)[k + 1])
  {
    var rs := Stages(start, r);
    var m := Members(r);
    forall k | 0 <= k < 8 ensures SetField(rs[k], m[k].0, m[k].1) == Some(rs[k + 1]) {
      if k == 0 { StageKey(rs[0], r.Key); }
      else if k == 1 { StageType(rs[1], r.Type); }
      else if k == 2 { StageBool(rs[2], "optional", r.Optional); }
      else if k == 3 { StageBool(rs[3], "multiple", r.Multiple); }
      else if k == 4 { StageSection(rs[4], r.Section); }
      else if k == 5 { StageValue(rs[5], r.Value); }
      else if k == 6 { StagePlaceholder(rs[6], r.Placeholder); }
      else { StageDescription(rs[7], r.Description); }
    }
  }

  lemma StageKey(rec: SchemaRecord, s: string)
    ensures SetField(rec, "key", VString(s)) == Some(rec.(Key := s))
  {
    ToLowerOfLower("key");
    assert SetLowered(rec, "key", VString(s)) == Some(rec.(Key := s));
  }

  lemma StageType(rec: SchemaRecord, s: string)
    ensures SetField(rec, "type", VString(s)) == Some(rec.(Type := s))
  {
    ToLowerOfLower("type");
    assert SetLowered(rec, "type", VString(s)) == Some(rec.(Type := s));
  }

  lemma StageSection(rec: SchemaRecord, s: string)
    ensures SetField(rec, "section", VString(s)) == Some(rec.(Section := s))
  {
    ToLowerOfLower("section");
    assert SetLowered(rec, "section", VString(s)) == Some(rec.(Section := s));
  }

  lemma StagePlaceholder(rec: SchemaRecord, s: string)
    ensures SetField(rec, "placeholder", VString(s)) == Some(rec.(Placeholder := s))
  {
    ToLowerOfLower("placeholder");
    assert SetLowered(rec, "placeholder", VString(s)) == Some(rec.(Placeholder := s));
  }

  lemma StageDescription(rec: SchemaRecord, s: string)
    ensures SetField(rec, "description", VString(s)) == Some(rec.(Description := s))
  {
    ToLowerOfLower("description");
    assert SetLowered(rec, "description", VString(s)) == Some(rec.(Description := s));
  }

  lemma StageBool(rec: SchemaRecord, n: string, b: bool)
    requires n == "optional" || n == "multiple"
    ensures SetField(rec, n, VBool(b)) ==
      Some(if n == "optional" then rec.(Optional := b) else rec.(Multiple := b))
  {
    ToLowerOfLower(n);
    assert SetLowered(rec, n, VBool(b)) ==
      Some(if n == "optional" then rec.(Optional := b) else rec.(Multiple := b));
  }

  lemma StageValue(rec: SchemaRecord, v: Value)
    ensures SetField(rec, "value", v) == Some(rec.(Value := v))
  {
    ToLowerOfLower("value");
    assert SetLowered(rec, "value", v) == Some(rec.(Value := v));
  }

  lemma LowerFieldNames()
    ensures forall n :: n in FieldNames ==> ToLower(n) == n
  {
    forall n | n in FieldNames ensures ToLower(n) == n {
      ToLowerOfLower(n);
    }
  }

  /** Names match regardless of case, and a repeated member overrides the
      earlier one. */
  lemma DecodeMembersExample()
    ensures DecodeMembers(ZeroRecord, [("Type", VString("int")), ("TYPE", VString("float"))])
      == Some(ZeroRecord.(Type := "float"))
  {
    var m := [("Type", VString("int")), ("TYPE", VString("float"))];
    assert ToLower("Type") == "type" && ToLower("TYPE") == "type";
    assert m[1..] == [("TYPE", VString("float"))];
  }

  // ----- checking the records -----

  datatype RecordVerdict = RecordOk | TypeUnknown | ValuesMismatch

  /** One element of a value list under a non-list type: empty strings are
      skipped, and under "bool" the element only selects which boolean is
      tested. */
  predicate ElementPasses(rtype: string, v: Value)
  {
    v == VString("")
    || (if rtype == "bool" then CheckTypeValues(rtype, VBool(v == VString("true")))
        else CheckTypeValues(rtype, v))
  }

  /** The element type of a list type: "list_" removed wherever it occurs. */
  function ElementType(rtype: string): string
  {
    ReplaceAll(rtype, "list_", "")
  }

  /** The checks applied to one record. */
  function RecordCheck(rec: SchemaRecord): RecordVerdict
  {
    if rec.Type !in Types then TypeUnknown
    else if rec.Value.VAnyList? then
      var items := rec.Value.items;
      if HasPrefix(rec.Type, "list_") then
        if forall j :: 0 <= j < |items| ==> CheckTypeValues(ElementType(rec.Type), items[j]) then RecordOk
        else ValuesMismatch
      else if forall j :: 0 <= j < |items| ==> ElementPasses(rec.Type, items[j]) then RecordOk
      else ValuesMismatch
    else if CheckTypeValues(rec.Type, rec.Value) then RecordOk
    else ValuesMismatch
  }

  /** One record, as the loop body checks it. */
  method CheckRecord(rec: SchemaRecord) returns (verdict: RecordVerdict)
    ensures verdict == RecordCheck(rec)
  {
    var known := Utils.InList(rec.Type, Types);
    if !known {
      return TypeUnknown;
    }
    if rec.Value.VAnyList? {
      var ok: bool;
      if HasPrefix(rec.Type, "list_") {
        ok := CheckElements(ElementType(rec.Type), rec.Value.items);
      } else {
        ok := CheckScalarElements(rec.Type, rec.Value.items);
      }
      return if ok then RecordOk else ValuesMismatch;
    }
    if !CheckTypeValues(rec.Type, rec.Value) {
      return ValuesMismatch;
    }
    return RecordOk;
  }

  /** The elements of a value list under a list type. */
  method CheckElements(rtype: string, items: seq<Value>) returns (ok: bool)
    ensures ok <==> forall j :: 0 <= j < |items| ==> CheckTypeValues(rtype, items[j])
  {
    var i := 0;
    while i < |items|
      invariant 0 <= i <= |items|
      invariant forall j :: 0 <= j < i ==> CheckTypeValues(rtype, items[j])
    {
      if !CheckTypeValues(rtype, items[i]) {
        return false;
      }
      i := i + 1;
    }
    return true;
  }

  /** The elements of a value list under a non-list type. */
  method CheckScalarElements(rtype: string, items: seq<Value>) returns (ok: bool)
    ensures ok <==> forall j :: 0 <= j < |items| ==> ElementPasses(rtype, items[j])
  {
    var i := 0;
    while i < |items|
      invariant 0 <= i <= |items|
      invariant forall j :: 0 <= j < i ==> ElementPasses(rtype, items[j])
    {
      if items[i] != VString("") {
        var passes: bool;
        if rtype == "bool" {
          var vb := false;
          if items[i] == VString("true") {
            vb := true;
          }
          passes := CheckTypeValues(rtype, VBool(vb));
        } else {
          passes := CheckTypeValues(rtype, items[i]);
        }
        if !passes {
          return false;
        }
      }
      i := i + 1;
    }
    return true;
  }

  /** The schema file as the checker finds it. */
  datatype LintFile = Unopenable | Malformed | Parsed(doc: JsonDoc)

  /** How a run ends: every fatal log is an error outcome, naming the
      0-based index of the offending record. */
  datatype LintResult = LintOk | CannotRead | DecodeFailed | UnknownType(index: nat) | ValueMismatch(index: nat)

  /** The outcome of checking records[i..]. */
  function FirstFailure(records: seq<SchemaRecord>, i: nat): LintResult
    requires i <= |records|
    decreases |records| - i
  {
    if i == |records| then LintOk
    else match RecordCheck(records[i])
      case RecordOk => FirstFailure(records, i + 1)
      case TypeUnknown => UnknownType(i)
      case ValuesMismatch => ValueMismatch(i)
  }

  function LintSpec(file: LintFile): LintResult
  {
    match file
    case Unopenable => CannotRead
    case Malformed => DecodeFailed
    case Parsed(doc) =>
      match DecodeRecords(doc)
      case None => DecodeFailed
      case Some(records) => FirstFailure(records, 0)
  }

  /** `validate`: decode, then check the records in order, stopping at the
      first failure. */
  method Validate(file: LintFile) returns (result: LintResult)
    ensures result == LintSpec(file)
  {
    if file.Unopenable? {
      return CannotRead;
    }
    if file.Malformed? {
      return DecodeFailed;
    }
    var decoded := DecodeRecords(file.doc);
    if decoded.None? {
      return DecodeFailed;
    }
    var records := decoded.value;
    var i := 0;
    while i < |records|
      invariant 0 <= i <= |records|
      invariant FirstFailure(records, 0) == FirstFailure(records, i)
    {
      var verdict := CheckRecord(records[i]);
      if verdict == TypeUnknown {
        return UnknownType(i);
      } else if verdict == ValuesMismatch {
        return ValueMismatch(i);
      }
      i := i + 1;
    }
    return LintOk;
  }

  /** FirstFailure reports the first failing record, and LintOk exactly
      when every record passes. */
  lemma {:induction false} FirstFailureSpec(records: seq<SchemaRecord>, i: nat)
    requires i <= |records|
    ensures FirstFailure(records, i) == LintOk <==>
      forall j :: i <= j < |records| ==> RecordCheck(records[j]) == RecordOk
    ensures FirstFailure(records, i).UnknownType? ==>
      var k := FirstFailure(records, i).index;
      i <= k < |records| && RecordCheck(records[k]) == TypeUnknown &&
      forall j :: i <= j < k ==> RecordCheck(records[j]) == RecordOk
    ensures FirstFailure(records, i).ValueMismatch? ==>
      var k := FirstFailure(records, i).index;
      i <= k < |records| && RecordCheck(records[k]) == ValuesMismatch &&
      forall j :: i <= j < k ==> RecordCheck(records[j]) == RecordOk
    ensures !FirstFailure(records, i).CannotRead? && !FirstFailure(records, i).DecodeFailed?
    decreases |records| - i
  {
    if i < |records| {
      FirstFailureSpec(records, i + 1);
    }
  }

  /** A list of values under "bool" always passes: each element is either
      skipped or turned into a boolean first. */
  lemma BoolListAlwaysPasses(rec: SchemaRecord)
    requires rec.Type == "bool" && rec.Value.VAnyList?
    ensures RecordCheck(rec) == RecordOk
  {
  }

  /** Element types of the three list types. */
  lemma ListElementTypes()
    ensures ElementType("list_str") == "str"
    ensures ElementType("list_int") == "int"
    ensures ElementType("list_float") == "float"
  {
    assert "list_str"[..5] == "list_";
    assert "list_int"[..5] == "list_";
    assert "list_float"[..5] == "list_";
    assert "list_str"[5..] == "str" && "list_int"[5..] == "int" && "list_float"[5..] == "float";
    assert ReplaceAll("str", "list_", "") == "str";
    assert ReplaceAll("int", "list_", "") == "int";
    assert ReplaceAll("float", "list_", "") == "float";
  }

  /** A "list_str" list of strings passes. */
  lemma StringListPasses(rec: SchemaRecord)
    requires rec.Type == "list_str" && rec.Value.VAnyList?
    requires forall j :: 0 <= j < |rec.Value.items| ==> rec.Value.items[j].VString?
    ensures RecordCheck(rec) == RecordOk
  {
    ListElementTypes();
    assert HasPrefix("list_str", "list_");
  }

  /** Under "list_int" and "list_float" a value list holding a JSON number
      other than zero is rejected: JSON numbers decode as float64 and the
      element types are "int" and "float". */
  lemma ListNumberRejected(rec: SchemaRecord, j: nat, text: string)
    requires rec.Type == "list_int" || rec.Type == "list_float"
    requires rec.Value.VAnyList? && j < |rec.Value.items|
    requires rec.Value.items[j] == VFloat(Float64, text, false)
    ensures RecordCheck(rec) == ValuesMismatch
  {
    ListElementTypes();
    assert HasPrefix(rec.Type, "list_");
    JsonNumberTypes(ElementType(rec.Type), text);
  }

  /** Types the checker does not know, although the server's type switch
      reports some of them. */
  lemma UnlistedTypes()
    ensures "list" !in Types && "uint64" !in Types && "int8" !in Types && "int16" !in Types && "str" !in Types
  {
  }
}
