/** Go's `any` as the web server and the schema linter see it: the dynamic
    values that JSON/YAML decoding, form parsing and the query parser produce,
    with `fmt`'s `%v` and `%T` renderings and the runtime type tag that the
    validators compare with a schema's declared type.

    Floats stay abstract: a float carries its Go kind, the text `%v` prints
    for it and whether it compares equal to zero. */
module GoValues {
  import opened GoStrings
  import opened Sorting

  datatype IntKind = GoInt | Int8 | Int16 | Int32 | Int64 | Uint | Uint8 | Uint16 | Uint32 | Uint64

  datatype FloatKind = Float32 | Float64

  datatype Value =
    | VNil
    | VBool(b: bool)
    | VInt(kind: IntKind, i: int)
    | VFloat(fkind: FloatKind, text: string, isZero: bool)
    | VString(s: string)
    | VStrList(strs: seq<string>)             // []string
    | VAnyList(items: seq<Value>)             // []interface{}
    | VIntList(ints: seq<int>)                // []int
    | VFloatList(lkind: FloatKind, texts: seq<string>)  // []float32, []float64
    | VRecord(rec: map<string, Value>)        // main.Record
    | VRecordList(rows: seq<Row>)             // []main.Record
    | VMap(fields: map<string, Value>)        // map[string]interface{}

  /** An element of a `[]main.Record`. */
  datatype Row = Row(fields: map<string, Value>)

  /** main.Record */
  type Record = map<string, Value>

  /** Go's `v == 0` on an interface: true only for the untyped constant's
      default type, `int`. */
  predicate IsIntZero(v: Value)
  {
    v == VInt(GoInt, 0)
  }

  /** Go's `v == 0.` on an interface: true only for a `float64` zero. */
  predicate IsFloat64Zero(v: Value)
  {
    v.VFloat? && v.fkind == Float64 && v.isZero
  }

  function IntKindName(k: IntKind): string
  {
    match k
    case GoInt => "int"
    case Int8 => "int8"
    case Int16 => "int16"
    case Int32 => "int32"
    case Int64 => "int64"
    case Uint => "uint"
    case Uint8 => "uint8"
    case Uint16 => "uint16"
    case Uint32 => "uint32"
    case Uint64 => "uint64"
  }

  function FloatKindName(k: FloatKind): string
  {
    match k
    case Float32 => "float32"
    case Float64 => "float64"
  }

  /** `fmt.Sprintf("%T", v)` */
  function TypeName(v: Value): string
  {
    match v
    case VNil => "<nil>"
    case VBool(_) => "bool"
    case VInt(k, _) => IntKindName(k)
    case VFloat(k, _, _) => FloatKindName(k)
    case VString(_) => "string"
    case VStrList(_) => "[]string"
    case VAnyList(_) => "[]interface {}"
    case VIntList(_) => "[]int"
    case VFloatList(k, _) => "[]" + FloatKindName(k)
    case VRecord(_) => "main.Record"
    case VRecordList(_) => "[]main.Record"
    case VMap(_) => "map[string]interface {}"
  }

  /** `fmt.Sprintf("%v", v)`: slices print their elements separated by
      blanks inside brackets, maps print `k:v` pairs in ascending key order
      inside `map[...]`. */
  function Format(v: Value): string
  {
    match v
    case VNil => "<nil>"
    case VBool(b) => if b then "true" else "false"
    case VInt(_, i) => Itoa(i)
    case VFloat(_, text, _) => text
    case VString(s) => s
    case VStrList(xs) => "[" + Join(xs, " ") + "]"
    case VAnyList(items) =>
      "[" + Join(seq(|items|, i requires 0 <= i < |items| => Format(items[i])), " ") + "]"
    case VIntList(xs) => "[" + Join(seq(|xs|, i requires 0 <= i < |xs| => Itoa(xs[i])), " ") + "]"
    case VFloatList(_, texts) => "[" + Join(texts, " ") + "]"
    case VRecord(m) =>
      var ks := SortedSet(m.Keys);
      "map[" + Join(seq(|ks|, i requires 0 <= i < |ks| => ks[i] + ":" + Format(m[ks[i]])), " ") + "]"
    case VRecordList(rows) =>
      "[" + Join(seq(|rows|, i requires 0 <= i < |rows| =>
        var m := rows[i].fields;
        var ks := SortedSet(m.Keys);
        "map[" + Join(seq(|ks|, j requires 0 <= j < |ks| => ks[j] + ":" + Format(m[ks[j]])), " ") + "]"), " ") + "]"
    case VMap(m) =>
      var ks := SortedSet(m.Keys);
      "map[" + Join(seq(|ks|, i requires 0 <= i < |ks| => ks[i] + ":" + Format(m[ks[i]])), " ") + "]"
  }

  /** The runtime type tag the validators' type switch assigns (`etype`);
      dynamic types the switch does not list get "". */
  function TypeTag(v: Value): string
  {
    match v
    case VBool(_) => "bool"
    case VInt(k, _) =>
      if k == Uint || k == Uint8 then "" else IntKindName(k)
    case VFloat(k, _, _) => if k == Float32 then "float" else "float64"
    case VString(_) => "string"
    case VStrList(_) => "list_str"
    case VAnyList(_) => "list_str"
    case VIntList(_) => "list_int"
    case VFloatList(_, _) => "list_float"
    case _ => ""
  }

  /** `%T` of a Go slice value starts with "[]" exactly for the slice
      constructors. */
  predicate IsSlice(v: Value)
  {
    v.VStrList? || v.VAnyList? || v.VIntList? || v.VFloatList? || v.VRecordList?
  }

  lemma SliceTypeNames(v: Value)
    ensures HasPrefix(TypeName(v), "[]") <==> IsSlice(v)
  {
    if v.VFloatList? {
      assert TypeName(v)[..2] == "[]";
    } else if IsSlice(v) {
      assert TypeName(v)[..2] == "[]";
    } else {
      assert TypeName(v)[0] != '[';
    }
  }

  /** The text `%v` prints is empty only for the empty string (floats
      always print at least one character in Go). */
  lemma FormatEmpty(v: Value)
    requires v.VFloat? ==> v.text != ""
    ensures Format(v) == "" <==> v == VString("")
  {
    match v
    case VInt(_, i) =>
      ItoaNonEmpty(i);
    case _ =>
  }

  lemma ItoaNonEmpty(i: int)
    ensures |Itoa(i)| >= 1
  {
  }
}
