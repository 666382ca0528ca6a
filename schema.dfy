/** The web server's schema store (web/schema.go): loading a schema file into
    a map from key to schema record, the process-wide index of lower-cased
    schema keys, the key and section listings and the record validator. */
module Schemas {
  import opened GoStrings
  import opened Sorting
  import opened GoValues
  import opened SchemaTypes
  import Utils

  /** Record keys the validator does not look at. */
  const SkipKeys: seq<string> := ["User", "Date", "Description", "SchemaName", "SchemaFile", "Schema"]

  // ----- YAML documents -----

  /** A YAML mapping with keys of any scalar type, in document order. */
  datatype YamlMap = YamlMap(entries: seq<(Value, YamlNode)>)

  /** A YAML value: a nested mapping or anything else. */
  datatype YamlNode = YLeaf(v: Value) | YNested(m: YamlMap)

  /** `convertYaml`: keys become their `%v` text and nested mappings are
      converted recursively. Two keys with the same text are resolved in
      favour of the later entry, document order standing in for Go's
      map order. */
  function ConvertYaml(m: YamlMap): map<string, Value>
    decreases m, 1
  {
    ConvertPrefix(m, |m.entries|)
  }

  function ConvertPrefix(m: YamlMap, n: nat): map<string, Value>
    requires n <= |m.entries|
    decreases m, 0, n
  {
    if n == 0 then map[]
    else ConvertPrefix(m, n - 1)[Format(m.entries[n - 1].0) := ConvertNode(m, n - 1)]
  }

  function ConvertNode(m: YamlMap, i: nat): Value
    requires i < |m.entries|
    decreases m, 0, 0
  {
    match m.entries[i].1
    case YLeaf(x) => x
    case YNested(sub) =>
      assert sub < m.entries[i].1;
      VMap(ConvertYaml(sub))
  }

  /** The converted map has one key per distinct key text, and each holds the
      converted value of the last entry with that text. */
  lemma ConvertPrefixSpec(m: YamlMap, n: nat)
    requires n <= |m.entries|
    ensures ConvertPrefix(m, n).Keys == set i | 0 <= i < n :: Format(m.entries[i].0)
    ensures forall i :: 0 <= i < n && LastWithText(m, n, i) ==>
      ConvertPrefix(m, n)[Format(m.entries[i].0)] == ConvertNode(m, i)
  {
    ConvertPrefixKeys(m, n);
    ConvertPrefixLast(m, n);
  }

  /** The key texts of the first n entries. */
  ghost function KeyTexts(m: YamlMap, n: nat): set<string>
    requires n <= |m.entries|
  {
    set i | 0 <= i < n :: Format(m.entries[i].0)
  }

  lemma KeyTextsStep(m: YamlMap, n: nat)
    requires 0 < n <= |m.entries|
    ensures KeyTexts(m, n) == KeyTexts(m, n - 1) + {Format(m.entries[n - 1].0)}
  {
    var k := Format(m.entries[n - 1].0);
    forall x | x in KeyTexts(m, n) ensures x in KeyTexts(m, n - 1) + {k} {
      var i :| 0 <= i < n && Format(m.entries[i].0) == x;
      if i < n - 1 { assert x in KeyTexts(m, n - 1); }
    }
    forall x | x in KeyTexts(m, n - 1) ensures x in KeyTexts(m, n) {
      var i :| 0 <= i < n - 1 && Format(m.entries[i].0) == x;
      assert Format(m.entries[i].0) in KeyTexts(m, n);
    }
    assert Format(m.entries[n - 1].0) in KeyTexts(m, n);
  }

  lemma {:induction false} ConvertPrefixKeys(m: YamlMap, n: nat)
    requires n <= |m.entries|
    ensures ConvertPrefix(m, n).Keys == KeyTexts(m, n)
  {
    if n > 0 {
      ConvertPrefixKeys(m, n - 1);
      KeyTextsStep(m, n);
    }
  }

  lemma {:induction false} ConvertPrefixLast(m: YamlMap, n: nat)
    requires n <= |m.entries|
    ensures forall i :: 0 <= i < n && LastWithText(m, n, i) ==>
      Format(m.entries[i].0) in ConvertPrefix(m, n) &&
      ConvertPrefix(m, n)[Format(m.entries[i].0)] == ConvertNode(m, i)
  {
    if n > 0 {
      ConvertPrefixLast(m, n - 1);
      forall i | 0 <= i < n && LastWithText(m, n, i)
        ensures Format(m.entries[i].0) in ConvertPrefix(m, n) &&
          ConvertPrefix(m, n)[Format(m.entries[i].0)] == ConvertNode(m, i)
      {
        if i < n - 1 {
          assert Format(m.entries[n - 1].0) != Format(m.entries[i].0);
          assert LastWithText(m, n - 1, i);
        }
      }
    }
  }

  /** Entry i is the last of the first n entries with its key text. */
  predicate LastWithText(m: YamlMap, n: nat, i: nat)
    requires i < n <= |m.entries|
  {
    forall j :: i < j < n ==> Format(m.entries[j].0) != Format(m.entries[i].0)
  }

  lemma ConvertYamlSpec(m: YamlMap)
    ensures ConvertYaml(m).Keys == set i | 0 <= i < |m.entries| :: Format(m.entries[i].0)
    ensures forall i :: 0 <= i < |m.entries| && LastWithText(m, |m.entries|, i) ==>
      ConvertYaml(m)[Format(m.entries[i].0)] == ConvertNode(m, i)
  {
    ConvertPrefixSpec(m, |m.entries|);
  }

  /** What holds whatever order the entries are visited in: each key's value
      is the converted value of some entry with that key text, and an entry
      whose text no other entry shares keeps its own converted value. */
  lemma ConvertYamlAnyOrder(m: YamlMap)
    ensures forall k :: k in ConvertYaml(m) ==>
      exists i :: 0 <= i < |m.entries| && Format(m.entries[i].0) == k && ConvertYaml(m)[k] == ConvertNode(m, i)
    ensures forall i :: 0 <= i < |m.entries| && UniqueText(m, i) ==>
      Format(m.entries[i].0) in ConvertYaml(m) && ConvertYaml(m)[Format(m.entries[i].0)] == ConvertNode(m, i)
  {
    var n := |m.entries|;
    ConvertYamlSpec(m);
    forall k | k in ConvertYaml(m)
      ensures exists i :: 0 <= i < n && Format(m.entries[i].0) == k && ConvertYaml(m)[k] == ConvertNode(m, i)
    {
      assert k in KeyTexts(m, n);
      var i := LastIndexWithText(m, n, k);
    }
    forall i | 0 <= i < n && UniqueText(m, i)
      ensures Format(m.entries[i].0) in ConvertYaml(m) && ConvertYaml(m)[Format(m.entries[i].0)] == ConvertNode(m, i)
    {
      assert LastWithText(m, n, i);
      assert Format(m.entries[i].0) in KeyTexts(m, n);
    }
  }

  /** No other entry of the mapping has entry i's key text. */
  predicate UniqueText(m: YamlMap, i: nat)
    requires i < |m.entries|
  {
    forall j :: 0 <= j < |m.entries| && j != i ==> Format(m.entries[j].0) != Format(m.entries[i].0)
  }

  /** A key text of the first n entries has a last entry carrying it. */
  lemma {:induction false} LastIndexWithText(m: YamlMap, n: nat, k: string) returns (i: nat)
    requires n <= |m.entries| && k in KeyTexts(m, n)
    ensures i < n && Format(m.entries[i].0) == k && LastWithText(m, n, i)
  {
    if Format(m.entries[n - 1].0) == k {
      i := n - 1;
    } else {
      var i0 :| 0 <= i0 < n && Format(m.entries[i0].0) == k;
      assert k in KeyTexts(m, n - 1);
      i := LastIndexWithText(m, n - 1, k);
    }
  }

  /** A string field of a YAML record: absent is "", a non-string panics. */
  predicate WellTypedString(m: map<string, Value>, f: string)
  {
    f in m ==> m[f].VString?
  }

  /** The fields the projection asserts have their asserted types. */
  predicate WellTypedYaml(m: map<string, Value>)
  {
    WellTypedString(m, "key") && WellTypedString(m, "type") &&
    WellTypedString(m, "description") && WellTypedString(m, "placeholder") &&
    ("optional" in m ==> m["optional"].VBool?)
  }

  function StringOf(m: map<string, Value>, f: string): string
  {
    if f in m && m[f].VString? then m[f].s else ""
  }

  /** Projecting a converted YAML record onto a schema record; None is the
      panic of a failed type assertion. Only key, type, optional,
      description and placeholder are taken over. */
  function ProjectYaml(m: map<string, Value>): (r: Option<SchemaRecord>)
    ensures r.Some? <==> WellTypedYaml(m)
    ensures r.Some? ==> !r.value.Multiple && r.value.Section == "" && r.value.Value == VNil
    ensures r.Some? ==> r.value.Key == StringOf(m, "key") && r.value.Type == StringOf(m, "type")
  {
    if !WellTypedYaml(m) then None
    else Some(SchemaRecord(
      StringOf(m, "key"), StringOf(m, "type"),
      if "optional" in m then m["optional"].b else false,
      false, "", VNil,
      StringOf(m, "placeholder"), StringOf(m, "description")))
  }

  /** All YAML records projected, or None when one of them panics. */
  function ProjectAll(ys: seq<YamlMap>): Option<seq<SchemaRecord>>
  {
    if |ys| == 0 then Some([])
    else
      match ProjectAll(ys[..|ys| - 1])
      case None => None
      case Some(rs) =>
        match ProjectYaml(ConvertYaml(ys[|ys| - 1]))
        case None => None
        case Some(r) => Some(rs + [r])
  }

  /** The YAML branch's loop. */
  method DecodeYaml(ys: seq<YamlMap>) returns (ok: bool, records: seq<SchemaRecord>)
    ensures ok <==> ProjectAll(ys).Some?
    ensures ok ==> records == ProjectAll(ys).value
  {
    records := [];
    var i := 0;
    while i < |ys|
      invariant 0 <= i <= |ys|
      invariant ProjectAll(ys[..i]) == Some(records)
    {
      assert ys[..i + 1][..i] == ys[..i];
      var r := ProjectYaml(ConvertYaml(ys[i]));
      if r.None? {
        PanicPropagates(ys, i + 1);
        return false, records;
      }
      records := records + [r.value];
      i := i + 1;
    }
    assert ys[..i] == ys;
    return true, records;
  }

  /** A panic in a prefix is a panic of the whole list. */
  lemma {:induction false} PanicPropagates(ys: seq<YamlMap>, n: nat)
    requires n <= |ys| && ProjectAll(ys[..n]).None?
    ensures ProjectAll(ys).None?
    decreases |ys| - n
  {
    if n < |ys| {
      assert ys[..n + 1][..n] == ys[..n];
      PanicPropagates(ys, n + 1);
    } else {
      assert ys[..n] == ys;
    }
  }

  // ----- the key map -----

  /** `smap[r.Key] = r` over the records in order: the last record with a
      given key wins. */
  function ByKey(records: seq<SchemaRecord>): map<string, SchemaRecord>
  {
    if |records| == 0 then map[]
    else ByKey(records[..|records| - 1])[records[|records| - 1].Key := records[|records| - 1]]
  }

  /** Every record key has exactly one entry, the last record with that key,
      and each entry is filed under its own key. */
  lemma ByKeySpec(records: seq<SchemaRecord>)
    ensures ByKey(records).Keys == set i | 0 <= i < |records| :: records[i].Key
    ensures forall k :: k in ByKey(records) ==> ByKey(records)[k].Key == k
    ensures forall i :: 0 <= i < |records| && LastWithKey(records, i) ==>
      ByKey(records)[records[i].Key] == records[i]
  {
    ByKeyDomain(records);
    ByKeyFiled(records);
    forall i | 0 <= i < |records| && LastWithKey(records, i)
      ensures ByKey(records)[records[i].Key] == records[i]
    {
      ByKeyLast(records, i);
    }
  }

  /** No later record has the same key as record i. */
  predicate LastWithKey(records: seq<SchemaRecord>, i: nat)
    requires i < |records|
  {
    forall j :: i < j < |records| ==> records[j].Key != records[i].Key
  }

  lemma {:induction false} ByKeyDomain(records: seq<SchemaRecord>)
    ensures ByKey(records).Keys == set i | 0 <= i < |records| :: records[i].Key
  {
    if |records| > 0 {
      var init := records[..|records| - 1];
      ByKeyDomain(init);
      var a := set i | 0 <= i < |init| :: init[i].Key;
      var b := set i | 0 <= i < |records| :: records[i].Key;
      forall x | x in b ensures x in a + {records[|records| - 1].Key} {
        var i :| 0 <= i < |records| && records[i].Key == x;
        if i < |init| {
          assert init[i] == records[i];
        }
      }
      forall x | x in a ensures x in b {
        var i :| 0 <= i < |init| && init[i].Key == x;
        assert records[i] == init[i];
      }
    }
  }

  lemma {:induction false} ByKeyFiled(records: seq<SchemaRecord>)
    ensures forall k :: k in ByKey(records) ==> ByKey(records)[k].Key == k
  {
    if |records| > 0 {
      ByKeyFiled(records[..|records| - 1]);
    }
  }

  lemma {:induction false} ByKeyLast(records: seq<SchemaRecord>, i: nat)
    requires i < |records| && LastWithKey(records, i)
    ensures records[i].Key in ByKey(records) && ByKey(records)[records[i].Key] == records[i]
  {
    var n := |records|;
    if i < n - 1 {
      var init := records[..n - 1];
      assert init[i] == records[i];
      assert LastWithKey(init, i) by {
        forall j | i < j < |init| ensures init[j].Key != init[i].Key {
          assert init[j] == records[j];
        }
      }
      ByKeyLast(init, i);
      assert records[n - 1].Key != records[i].Key;
    }
  }

  /** The loop that fills `smap`. */
  method BuildMap(records: seq<SchemaRecord>) returns (smap: map<string, SchemaRecord>)
    ensures smap == ByKey(records)
  {
    smap := map[];
    var i := 0;
    while i < |records|
      invariant 0 <= i <= |records|
      invariant smap == ByKey(records[..i])
    {
      assert records[..i + 1][..i] == records[..i];
      smap := smap[records[i].Key := records[i]];
      i := i + 1;
    }
    assert records[..i] == records;
  }

  // ----- the schema key index -----

  /** `_schemaKeys`: lower-cased key to the key as some schema spells it. */
  class SchemaKeyIndex {
    var keys: map<string, string>

    ghost predicate Valid()
      reads this
    {
      forall lk :: lk in keys ==> ToLower(keys[lk]) == lk
    }

    constructor()
      ensures keys == map[] && Valid()
    {
      keys := map[];
    }

    /** The index loop of `Schema.Load`: a key is added under its lower-cased
        form unless the key itself, as spelled, is already an index entry. */
    method Register(smap: map<string, SchemaRecord>)
      requires Valid()
      modifies this
      ensures Valid()
      ensures keys.Keys == old(keys).Keys + LowerKeys(smap)
      ensures forall lk :: lk in keys ==>
        (lk in old(keys) && keys[lk] == old(keys)[lk]) || keys[lk] in SpelledKeys(smap)
      ensures forall lk :: lk in old(keys) && SpelledOnlyAs(smap, lk) ==> keys[lk] == old(keys)[lk]
    {
      var cur := IndexAll(keys, smap);
      RegisterDone(keys, cur, smap);
      keys := cur;
    }
  }

  /** The loop of `Register` over the schema records, in any order. */
  method IndexAll(start: map<string, string>, smap: map<string, SchemaRecord>) returns (cur: map<string, string>)
    requires LowerClosed(start)
    ensures RegisterInv(start, cur, smap, smap.Keys)
  {
    cur := start;
    var remaining := smap.Keys;
    ghost var done: set<string> := {};
    RegisterStart(start, smap);
    while remaining != {}
      invariant remaining == smap.Keys - done
      invariant RegisterInv(start, cur, smap, done)
      decreases |remaining|
    {
      var k :| k in remaining;
      RegisterStep(start, cur, smap, done, k);
      cur := AddIndexKey(cur, smap[k].Key);
      remaining := remaining - {k};
      done := done + {k};
    }
    RegisterAll(start, cur, smap, done);
  }

  lemma RegisterStart(start: map<string, string>, smap: map<string, SchemaRecord>)
    requires LowerClosed(start)
    ensures RegisterInv(start, start, smap, {})
  {
    assert LowerKeysOf(smap, {}) == {};
  }

  lemma RegisterAll(start: map<string, string>, keys: map<string, string>,
                    smap: map<string, SchemaRecord>, done: set<string>)
    requires RegisterInv(start, keys, smap, done) && smap.Keys - done == {}
    ensures RegisterInv(start, keys, smap, smap.Keys)
  {
    forall x | x in smap.Keys ensures x in done {
      assert x !in smap.Keys - done;
    }
    assert done == smap.Keys;
  }

  /** Lower-case names map to spellings that lower-case to them. */
  predicate LowerClosed(keys: map<string, string>)
  {
    forall lk :: lk in keys ==> ToLower(keys[lk]) == lk
  }

  /** One step of the index loop. */
  function AddIndexKey(keys: map<string, string>, key: string): map<string, string>
  {
    if key in keys then keys else keys[ToLower(key) := key]
  }

  /** What the index loop keeps, starting from `start`, once the records
      under `done` are registered. */
  ghost predicate RegisterInv(start: map<string, string>, keys: map<string, string>,
                              smap: map<string, SchemaRecord>, done: set<string>)
  {
    done <= smap.Keys &&
    LowerClosed(keys) &&
    keys.Keys == start.Keys + LowerKeysOf(smap, done) &&
    (forall lk :: lk in keys ==>
      (lk in start && keys[lk] == start[lk]) || keys[lk] in SpelledKeys(smap)) &&
    (forall lk :: lk in start && SpelledOnlyAs(smap, lk) ==> keys[lk] == start[lk])
  }

  lemma RegisterDone(start: map<string, string>, keys: map<string, string>,
                     smap: map<string, SchemaRecord>)
    requires RegisterInv(start, keys, smap, smap.Keys)
    ensures LowerClosed(keys)
    ensures keys.Keys == start.Keys + LowerKeys(smap)
    ensures forall lk :: lk in keys ==>
      (lk in start && keys[lk] == start[lk]) || keys[lk] in SpelledKeys(smap)
    ensures forall lk :: lk in start && SpelledOnlyAs(smap, lk) ==> keys[lk] == start[lk]
  {
  }

  lemma RegisterStep(start: map<string, string>, keys: map<string, string>,
                     smap: map<string, SchemaRecord>, done: set<string>, k: string)
    requires RegisterInv(start, keys, smap, done) && k in smap
    ensures RegisterInv(start, AddIndexKey(keys, smap[k].Key), smap, done + {k})
  {
    var key := smap[k].Key;
    LowerKeysOfAdd(smap, done, k);
    assert key in SpelledKeys(smap);
    if key in keys {
      LowerEntry(key, keys[key]);
    } else {
      var after := keys[ToLower(key) := key];
      forall lk | lk in start && SpelledOnlyAs(smap, lk) ensures lk != ToLower(key) {
        assert ToLower(key) == lk ==> key == lk;
      }
      assert LowerClosed(after);
    }
  }

  function LowerKeysOf(smap: map<string, SchemaRecord>, ks: set<string>): set<string>
    requires ks <= smap.Keys
  {
    set k | k in ks :: ToLower(smap[k].Key)
  }

  lemma LowerKeysOfAdd(smap: map<string, SchemaRecord>, ks: set<string>, k: string)
    requires ks <= smap.Keys && k in smap
    ensures LowerKeysOf(smap, ks + {k}) == LowerKeysOf(smap, ks) + {ToLower(smap[k].Key)}
  {
  }

  /** An index entry's name is in lower case. */
  lemma LowerEntry(lk: string, canonical: string)
    requires ToLower(canonical) == lk
    ensures ToLower(lk) == lk
  {
    ToLowerIdempotent(canonical);
  }

  function LowerKeys(smap: map<string, SchemaRecord>): set<string>
  {
    LowerKeysOf(smap, smap.Keys)
  }

  function SpelledKeys(smap: map<string, SchemaRecord>): set<string>
  {
    set k | k in smap :: smap[k].Key
  }

  /** Every key of `smap` that lower-cases to `lk` is spelled `lk`. */
  predicate SpelledOnlyAs(smap: map<string, SchemaRecord>, lk: string)
  {
    forall k :: k in smap && ToLower(smap[k].Key) == lk ==> smap[k].Key == lk
  }

  // ----- files -----

  /** What a path holds: nothing readable, or bytes seen through each
      decoder (None when that decoder reports an error). */
  datatype DiskFile =
    | Unreadable
    | Contents(json: Option<seq<SchemaRecord>>, yaml: Option<seq<YamlMap>>,
               webKeys: Option<map<string, seq<string>>>)

  /** The file system: `os.Stat` succeeds for exactly the listed paths. */
  type Disk = map<string, DiskFile>

  datatype LoadOutcome =
    | LoadOk
    | OpenFailed | JsonFailed | YamlFailed | YamlPanic | UnsupportedFormat
    | SideFileFailed   // the side file exists but cannot be read
    | SideFileFatal    // the side file does not decode: the process exits

  datatype Decoded = Records(rs: seq<SchemaRecord>) | Failed(outcome: LoadOutcome)

  /** Opening and decoding the schema file, the format chosen by the name's
      suffix. */
  function DecodeSchemaFile(fname: string, disk: Disk): (d: Decoded)
    ensures d.Failed? ==> d.outcome != LoadOk && d.outcome != SideFileFailed && d.outcome != SideFileFatal
  {
    if fname !in disk || disk[fname].Unreadable? then Failed(OpenFailed)
    else if HasSuffix(fname, "json") then
      match disk[fname].json
      case None => Failed(JsonFailed)
      case Some(rs) => Records(rs)
    else if HasSuffix(fname, "yaml") || HasSuffix(fname, "yml") then
      match disk[fname].yaml
      case None => Failed(YamlFailed)
      case Some(ys) =>
        match ProjectAll(ys)
        case None => Failed(YamlPanic)
        case Some(rs) => Records(rs)
    else Failed(UnsupportedFormat)
  }

  /** The opening and decoding steps of `Schema.Load`. */
  method ReadSchemaFile(fname: string, disk: Disk) returns (d: Decoded)
    ensures d == DecodeSchemaFile(fname, disk)
  {
    if fname !in disk || disk[fname].Unreadable? {
      return Failed(OpenFailed);
    }
    var file := disk[fname];
    if HasSuffix(fname, "json") {
      if file.json.None? {
        return Failed(JsonFailed);
      }
      return Records(file.json.value);
    } else if HasSuffix(fname, "yaml") || HasSuffix(fname, "yml") {
      if file.yaml.None? {
        return Failed(YamlFailed);
      }
      var ok, records := DecodeYaml(file.yaml.value);
      if !ok {
        return Failed(YamlPanic);
      }
      return Records(records);
    }
    return Failed(UnsupportedFormat);
  }

  /** What `Schema.Load` reports for a file. */
  function SchemaLoadOutcome(fname: string, disk: Disk): LoadOutcome
  {
    match DecodeSchemaFile(fname, disk)
    case Failed(o) => o
    case Records(_) =>
      var side := SideFileName(fname);
      if side !in disk then LoadOk
      else if disk[side].Unreadable? then SideFileFailed
      else if disk[side].webKeys.None? then SideFileFatal
      else LoadOk
  }

  /** The web section file that goes with a schema file. */
  function SideFileName(fname: string): string
  {
    Split(fname, '.')[0] + "_web.json"
  }

  /** Configured web section keys restricted to the schema's keys. */
  function FilterKnown(values: seq<string>, known: set<string>): (r: seq<string>)
    ensures forall x :: x in r <==> x in values && x in known
  {
    if |values| == 0 then []
    else
      var last := values[|values| - 1];
      FilterKnown(values[..|values| - 1], known) + (if last in known then [last] else [])
  }

  function DefaultWebKeys(configured: map<string, seq<string>>, smap: map<string, SchemaRecord>): map<string, seq<string>>
  {
    map name | name in configured :: FilterKnown(configured[name], smap.Keys)
  }

  /** The else branch of the side-file step. */
  method FilterWebKeys(configured: map<string, seq<string>>, smap: map<string, SchemaRecord>)
    returns (webKeys: map<string, seq<string>>)
    ensures webKeys == DefaultWebKeys(configured, smap)
  {
    var skeys := Utils.MapKeys(smap);
    assert forall x :: x in skeys <==> x in smap;
    webKeys := map[];
    var remaining := configured.Keys;
    while remaining != {}
      invariant remaining <= configured.Keys
      invariant webKeys.Keys == configured.Keys - remaining
      invariant forall name :: name in webKeys ==> webKeys[name] == FilterKnown(configured[name], smap.Keys)
      decreases |remaining|
    {
      var name :| name in remaining;
      var vals := KnownValues(configured[name], skeys, smap);
      webKeys := webKeys[name := vals];
      remaining := remaining - {name};
    }
    DefaultWebKeysEq(webKeys, configured, smap);
  }

  lemma DefaultWebKeysEq(webKeys: map<string, seq<string>>, configured: map<string, seq<string>>,
                         smap: map<string, SchemaRecord>)
    requires webKeys.Keys == configured.Keys
    requires forall name :: name in webKeys ==> webKeys[name] == FilterKnown(configured[name], smap.Keys)
    ensures webKeys == DefaultWebKeys(configured, smap)
  {
  }

  /** The inner loop: the values that are schema keys. */
  method KnownValues(values: seq<string>, skeys: seq<string>, smap: map<string, SchemaRecord>)
    returns (vals: seq<string>)
    requires forall x :: x in skeys <==> x in smap
    ensures vals == FilterKnown(values, smap.Keys)
  {
    vals := [];
    var i := 0;
    while i < |values|
      invariant 0 <= i <= |values|
      invariant vals == FilterKnown(values[..i], smap.Keys)
    {
      var known := Utils.InList(values[i], skeys);
      assert values[..i + 1][..i] == values[..i];
      if known {
        vals := vals + [values[i]];
      }
      i := i + 1;
    }
    assert values[..i] == values;
  }

  // ----- a schema -----

  class Schema {
    var fileName: string
    var schemaMap: map<string, SchemaRecord>
    var webSectionKeys: map<string, seq<string>>

    /** Every entry is filed under its own key, as loading leaves it. */
    ghost predicate Valid()
      reads this
    {
      forall k :: k in schemaMap ==> schemaMap[k].Key == k
    }

    constructor(fname: string)
      ensures fileName == fname && schemaMap == map[] && webSectionKeys == map[]
    {
      fileName := fname;
      schemaMap := map[];
      webSectionKeys := map[];
    }

    /** `Schema.Load`, reading `disk` and, when the side file is missing,
        the configured web section keys. */
    method Load(disk: Disk, configured: map<string, seq<string>>, index: SchemaKeyIndex)
      returns (outcome: LoadOutcome)
      requires index.Valid()
      modifies this, index
      ensures index.Valid() && fileName == old(fileName)
      ensures outcome == SchemaLoadOutcome(fileName, disk)
      ensures DecodeSchemaFile(fileName, disk).Failed? ==>
        outcome == DecodeSchemaFile(fileName, disk).outcome &&
        schemaMap == old(schemaMap) && webSectionKeys == old(webSectionKeys) && index.keys == old(index.keys)
      ensures DecodeSchemaFile(fileName, disk).Records? ==>
        var smap := ByKey(DecodeSchemaFile(fileName, disk).rs);
        var side := SideFileName(fileName);
        schemaMap == smap && Valid() &&
        index.keys.Keys == old(index.keys).Keys + LowerKeys(smap) &&
        (side !in disk ==> outcome == LoadOk && webSectionKeys == DefaultWebKeys(configured, smap)) &&
        (side in disk && disk[side].Unreadable? ==> outcome == SideFileFailed && webSectionKeys == old(webSectionKeys)) &&
        (side in disk && disk[side].Contents? && disk[side].webKeys.None? ==>
          outcome == SideFileFatal && webSectionKeys == old(webSectionKeys)) &&
        (side in disk && disk[side].Contents? && disk[side].webKeys.Some? ==>
          outcome == LoadOk && webSectionKeys == disk[side].webKeys.value)
    {
      var fname := fileName;
      var decoded := ReadSchemaFile(fname, disk);
      if decoded.Failed? {
        return decoded.outcome;
      }
      var records := decoded.rs;
      fileName := fname;
      var smap := BuildMap(records);
      ByKeySpec(records);
      schemaMap := smap;
      index.Register(smap);
      var path := SideFileName(fname);
      if path in disk {
        var side := disk[path];
        if side.Unreadable? {
          return SideFileFailed;
        }
        if side.webKeys.None? {
          return SideFileFatal;
        }
        webSectionKeys := side.webKeys.value;
      } else {
        webSectionKeys := FilterWebKeys(configured, smap);
      }
      return LoadOk;
    }

    /** `Schema.Keys`: every schema key once, ascending. */
    method Keys() returns (keys: seq<string>)
      ensures keys == SortedSet(schemaMap.Keys)
    {
      keys := SortedKeys(schemaMap, AllKeys);
      assert KeySet(schemaMap, AllKeys) == schemaMap.Keys;
    }

    /** `Schema.OptionalKeys`: the keys of optional records, ascending. */
    method OptionalKeys() returns (keys: seq<string>)
      ensures keys == SortedSet(KeySet(schemaMap, OptionalOnly))
    {
      keys := SortedKeys(schemaMap, OptionalOnly);
    }

    /** `Schema.MandatoryKeys`: the keys of mandatory records, ascending. */
    method MandatoryKeys() returns (keys: seq<string>)
      ensures keys == SortedSet(KeySet(schemaMap, MandatoryOnly))
    {
      keys := SortedKeys(schemaMap, MandatoryOnly);
    }

    /** `Schema.Validate` over the loaded map. The record's keys are visited in
        an unspecified order, so an invalid record may be reported through any
        of its failing keys; each kind of report names a key that fails in
        that way. */
    method Validate(rec: Record) returns (result: Validation)
      ensures result == Conforms <==> Conforming(schemaMap, rec)
      ensures result.UnknownKey? ==>
        result.key in rec && result.key !in SkipKeys && result.key !in schemaMap
      ensures result.InvalidKey? ==>
        result.key in rec && result.key !in SkipKeys && result.key in schemaMap &&
        schemaMap[result.key].Key != result.key
      ensures result.BadType? ==>
        result.key in rec && result.key !in SkipKeys && result.key in schemaMap &&
        !ValidSchemaType(schemaMap[result.key].Type, rec[result.key])
      ensures result.BadValue? ==>
        result.key in rec && result.key !in SkipKeys && result.key in schemaMap &&
        DataValueVerdict(schemaMap[result.key], rec[result.key]) == Rejected
      ensures result.ValuePanic? ==>
        result.key in rec && result.key !in SkipKeys && result.key in schemaMap &&
        DataValueVerdict(schemaMap[result.key], rec[result.key]) == Panicked
      ensures result.MissingKeys? ==>
        (forall k :: k in rec ==> KeyPasses(schemaMap, k, rec[k])) &&
        result.missing == SortedSet(Unfilled(schemaMap, rec)) && result.missing != []
    {
      var keys := Keys();
      var failure, mkeys := ScanKeys(schemaMap, keys, rec);
      if failure.Some? {
        FailureReported(schemaMap, rec, failure.value);
        return failure.value;
      }
      var smkeys := MandatoryKeys();
      MandatoryCollected(schemaMap, rec, mkeys);
      if |mkeys| != |smkeys| {
        var missing := MissingFrom(smkeys, mkeys);
        MissingReported(schemaMap, rec, smkeys, mkeys, missing);
        return MissingKeys(missing);
      }
      return Conforms;
    }

    /** `Schema.Sections(Config.SchemaSections)`. Without configured sections
        the non-empty section of every record is listed, once per record, in
        an unspecified order. With configured sections the list is the
        configured one followed by the other sections, ascending and once
        each. */
    method Sections(configured: seq<string>) returns (sections: seq<string>)
      ensures |configured| == 0 ==>
        forall x :: multiset(sections)[x] == |SectionedKeys(schemaMap, schemaMap.Keys, x)|
      ensures |configured| == 0 ==> (set x | x in sections) == SectionSet(schemaMap)
      ensures |configured| > 0 ==>
        sections == configured + SortedSet(SectionSet(schemaMap) - set x | x in configured)
    {
      var raw := CollectSections(schemaMap);
      if |configured| == 0 {
        return raw;
      }
      var sorted := SortSeq(raw);
      SortSeqElements(raw);
      sections := AppendAbsent(configured, sorted);
    }

    /** `Schema.SectionKeys(Config.SchemaSections)`: the loaded web section
        keys, extended for every listed section with that section's keys
        (ascending) that its list does not already hold. */
    method SectionKeys(configured: seq<string>) returns (smap: map<string, seq<string>>)
      ensures smap.Keys == webSectionKeys.Keys +
        set x | x in ListedSections(schemaMap, configured) && SectionMembers(schemaMap, x) != {}
      ensures forall x :: x in smap ==>
        smap[x] == SectionEntry(webSectionKeys, schemaMap, x, x in ListedSections(schemaMap, configured))
    {
      var sections := Sections(configured);
      var allKeys := Keys();
      SectionsListed(schemaMap, configured, sections);
      smap := SectionWalk(webSectionKeys, schemaMap, sections, allKeys);
    }
  }

  /** The loop of `SectionKeys`: every section of `sections` in turn is
      filled in, starting from the web section keys. */
  method SectionWalk(web: map<string, seq<string>>, m: map<string, SchemaRecord>,
                     sections: seq<string>, allKeys: seq<string>) returns (smap: map<string, seq<string>>)
    requires StrictlySorted(allKeys) && forall x :: x in allKeys <==> x in m
    ensures SectionMapAfter(smap, web, m, set x | x in sections)
  {
    smap := web;
    ghost var done: set<string> := {};
    assert SectionMapAfter(smap, web, m, done) by {
      assert (set y | y in done && SectionMembers(m, y) != {}) == {};
    }
    var i := 0;
    while i < |sections|
      invariant 0 <= i <= |sections|
      invariant done == set x | x in sections[..i]
      invariant SectionMapAfter(smap, web, m, done)
    {
      SectionMapStep(smap, web, m, done, sections[i]);
      smap := FillSection(smap, sections[i], allKeys, m);
      ghost var pre := sections[..i];
      ghost var pre1 := sections[..i + 1];
      assert pre1 == pre + [sections[i]];
      assert (set x | x in pre1) == (set x | x in pre) + {sections[i]};
      done := done + {sections[i]};
      i := i + 1;
    }
    assert sections[..i] == sections;
  }

  /** The sections `Sections` returns are the listed sections. */
  lemma SectionsListed(m: map<string, SchemaRecord>, configured: seq<string>, sections: seq<string>)
    requires |configured| == 0 ==> (set x | x in sections) == SectionSet(m)
    requires |configured| > 0 ==>
      sections == configured + SortedSet(SectionSet(m) - set x | x in configured)
    ensures (set x | x in sections) == ListedSections(m, configured)
  {
    if |configured| > 0 {
      var rest := SortedSet(SectionSet(m) - set x | x in configured);
      forall x ensures x in sections <==> x in configured || x in rest {
      }
    }
  }

  // ----- listing keys -----

  datatype KeyFilter = AllKeys | OptionalOnly | MandatoryOnly

  /** The keys of the records a listing selects. */
  function KeySet(m: map<string, SchemaRecord>, f: KeyFilter): set<string>
  {
    match f
    case AllKeys => m.Keys
    case OptionalOnly => set k | k in m && m[k].Optional
    case MandatoryOnly => set k | k in m && !m[k].Optional
  }

  /** The map-iteration loop of the key listings. */
  method CollectKeys(m: map<string, SchemaRecord>, f: KeyFilter) returns (ks: seq<string>)
    ensures Distinct(ks)
    ensures forall x :: x in ks <==> x in KeySet(m, f)
  {
    ks := [];
    var remaining := m.Keys;
    while remaining != {}
      invariant remaining <= m.Keys
      invariant Distinct(ks)
      invariant forall x :: x in ks <==> x in KeySet(m, f) && x !in remaining
      decreases |remaining|
    {
      var k :| k in remaining;
      var r := m[k];
      var selected := match f
        case AllKeys => true
        case OptionalOnly => r.Optional
        case MandatoryOnly => !r.Optional;
      if selected {
        ks := ks + [k];
      }
      remaining := remaining - {k};
    }
  }

  /** A listing followed by `sort.Sort`. */
  method SortedKeys(m: map<string, SchemaRecord>, f: KeyFilter) returns (keys: seq<string>)
    ensures keys == SortedSet(KeySet(m, f))
  {
    var ks := CollectKeys(m, f);
    keys := SortSeq(ks);
    SortSeqOfDistinct(ks);
    assert (set x | x in ks) == KeySet(m, f);
  }

  /** Optional and mandatory keys split the key list. */
  lemma KeyListsPartition(m: map<string, SchemaRecord>)
    ensures forall x :: x in SortedSet(m.Keys) <==>
      x in SortedSet(KeySet(m, OptionalOnly)) || x in SortedSet(KeySet(m, MandatoryOnly))
    ensures forall x :: !(x in SortedSet(KeySet(m, OptionalOnly)) && x in SortedSet(KeySet(m, MandatoryOnly)))
    ensures |SortedSet(KeySet(m, OptionalOnly))| + |SortedSet(KeySet(m, MandatoryOnly))| == |m|
  {
    var o := KeySet(m, OptionalOnly);
    var q := KeySet(m, MandatoryOnly);
    assert o + q == m.Keys && o * q == {};
  }

  // ----- validation -----

  datatype Validation =
    | Conforms
    | UnknownKey(key: string)
    | InvalidKey(key: string)
    | BadType(key: string)
    | BadValue(key: string)
    | ValuePanic(key: string)
    | MissingKeys(missing: seq<string>)

  /** A record key is skipped, or is a schema key filed under itself whose
      value has the declared type and an allowed value. */
  predicate KeyPasses(m: map<string, SchemaRecord>, k: string, v: Value)
  {
    k in SkipKeys ||
    (k in m && m[k].Key == k && ValidSchemaType(m[k].Type, v) && DataValueVerdict(m[k], v) == Accepted)
  }

  /** Mandatory schema keys the record does not supply (a skip key never
      counts as supplied). */
  function Unfilled(m: map<string, SchemaRecord>, rec: Record): set<string>
  {
    set k | k in m && !m[k].Optional && (k !in rec || k in SkipKeys)
  }

  predicate Conforming(m: map<string, SchemaRecord>, rec: Record)
  {
    (forall k :: k in rec ==> KeyPasses(m, k, rec[k])) && Unfilled(m, rec) == {}
  }

  /** After the key loop the collected mandatory keys are the mandatory keys
      minus the unfilled ones, so their count tells whether any is missing. */
  lemma MandatoryCollected(m: map<string, SchemaRecord>, rec: Record, mkeys: seq<string>)
    requires forall k :: k in rec ==> KeyPasses(m, k, rec[k])
    requires Distinct(mkeys)
    requires forall x :: x in mkeys <==> x in rec && x !in SkipKeys && x in m && !m[x].Optional
    ensures (|mkeys| == |KeySet(m, MandatoryOnly)|) <==> Unfilled(m, rec) == {}
  {
    var got := set x | x in mkeys;
    var all := KeySet(m, MandatoryOnly);
    DistinctCard(mkeys);
    assert got <= all;
    assert Unfilled(m, rec) == all - got;
    SubsetCard(got, all);
    if Unfilled(m, rec) == {} {
      forall x | x in all ensures x in got {
        assert x !in all - got;
      }
      assert got == all;
    } else {
      assert got != all;
      assert |got| < |all|;
    }
  }

  /** The loop of `Validate` over the record's keys: the first failing key
      met, or the mandatory keys the record supplies. */
  method ScanKeys(m: map<string, SchemaRecord>, keys: seq<string>, rec: Record)
    returns (failure: Option<Validation>, mkeys: seq<string>)
    requires forall x :: x in keys <==> x in m
    ensures failure.Some? ==> !failure.value.Conforms? && !failure.value.MissingKeys?
    ensures failure.Some? ==> ReportsFailure(m, rec, failure.value)
    ensures failure.None? ==> forall k :: k in rec ==> KeyPasses(m, k, rec[k])
    ensures failure.None? ==> Distinct(mkeys)
    ensures failure.None? ==> forall x :: x in mkeys <==>
      x in rec && x !in SkipKeys && x in m && !m[x].Optional
  {
    mkeys := [];
    var remaining := rec.Keys;
    while remaining != {}
      invariant remaining <= rec.Keys
      invariant forall k :: k in rec && k !in remaining ==> KeyPasses(m, k, rec[k])
      invariant Distinct(mkeys)
      invariant forall x :: x in mkeys <==>
        x in rec && x !in remaining && x !in SkipKeys && x in m && !m[x].Optional
      decreases |remaining|
    {
      var k :| k in remaining;
      var v := rec[k];
      remaining := remaining - {k};
      var skip := Utils.InList(k, SkipKeys);
      if skip {
        continue;
      }
      var known := Utils.InList(k, keys);
      if !known {
        return Some(UnknownKey(k)), mkeys;
      }
      var r := m[k];
      if r.Key != k {
        return Some(InvalidKey(k)), mkeys;
      }
      if !ValidSchemaType(r.Type, v) {
        return Some(BadType(k)), mkeys;
      }
      var verdict := ValidDataValue(r, v);
      if verdict == Rejected {
        return Some(BadValue(k)), mkeys;
      }
      if verdict == Panicked {
        return Some(ValuePanic(k)), mkeys;
      }
      if !r.Optional {
        mkeys := mkeys + [k];
      }
    }
    return None, mkeys;
  }

  /** The failure a per-key report names really happens at that key. */
  predicate ReportsFailure(m: map<string, SchemaRecord>, rec: Record, v: Validation)
  {
    match v
    case Conforms => false
    case MissingKeys(_) => false
    case UnknownKey(k) => k in rec && k !in SkipKeys && k !in m
    case InvalidKey(k) => k in rec && k !in SkipKeys && k in m && m[k].Key != k
    case BadType(k) => k in rec && k !in SkipKeys && k in m && !ValidSchemaType(m[k].Type, rec[k])
    case BadValue(k) => k in rec && k !in SkipKeys && k in m && DataValueVerdict(m[k], rec[k]) == Rejected
    case ValuePanic(k) => k in rec && k !in SkipKeys && k in m && DataValueVerdict(m[k], rec[k]) == Panicked
  }

  /** The mandatory keys absent from the collected ones are the unfilled
      keys, ascending. */
  lemma MissingReported(m: map<string, SchemaRecord>, rec: Record, smkeys: seq<string>,
                        mkeys: seq<string>, missing: seq<string>)
    requires forall k :: k in rec ==> KeyPasses(m, k, rec[k])
    requires forall x :: x in mkeys <==> x in rec && x !in SkipKeys && x in m && !m[x].Optional
    requires smkeys == SortedSet(KeySet(m, MandatoryOnly))
    requires (|mkeys| == |KeySet(m, MandatoryOnly)|) <==> Unfilled(m, rec) == {}
    requires |mkeys| != |smkeys|
    requires forall x :: x in missing <==> x in smkeys && x !in mkeys
    requires StrictlySorted(smkeys) ==> StrictlySorted(missing)
    ensures !Conforming(m, rec)
    ensures missing == SortedSet(Unfilled(m, rec)) && missing != []
  {
    assert forall x :: x in missing <==> x in Unfilled(m, rec);
    StrictlySortedUnique(missing, SortedSet(Unfilled(m, rec)));
  }

  /** A reported failure names a key that does not pass, in the way the
      report says. */
  lemma FailureReported(m: map<string, SchemaRecord>, rec: Record, v: Validation)
    requires ReportsFailure(m, rec, v)
    ensures !Conforming(m, rec) && !v.Conforms? && !v.MissingKeys?
    ensures v.UnknownKey? ==> v.key in rec && v.key !in SkipKeys && v.key !in m
    ensures v.InvalidKey? ==> v.key in rec && v.key !in SkipKeys && v.key in m && m[v.key].Key != v.key
    ensures v.BadType? ==>
      v.key in rec && v.key !in SkipKeys && v.key in m && !ValidSchemaType(m[v.key].Type, rec[v.key])
    ensures v.BadValue? ==>
      v.key in rec && v.key !in SkipKeys && v.key in m && DataValueVerdict(m[v.key], rec[v.key]) == Rejected
    ensures v.ValuePanic? ==>
      v.key in rec && v.key !in SkipKeys && v.key in m && DataValueVerdict(m[v.key], rec[v.key]) == Panicked
  {
    assert !KeyPasses(m, v.key, rec[v.key]);
  }

  /** The loop collecting the mandatory keys the record lacks, in the order
      of `smkeys`. */
  method MissingFrom(smkeys: seq<string>, mkeys: seq<string>) returns (missing: seq<string>)
    ensures forall x :: x in missing <==> x in smkeys && x !in mkeys
    ensures StrictlySorted(smkeys) ==> StrictlySorted(missing)
  {
    missing := [];
    var i := 0;
    while i < |smkeys|
      invariant 0 <= i <= |smkeys|
      invariant forall x :: x in missing <==> x in smkeys[..i] && x !in mkeys
      invariant StrictlySorted(smkeys) ==> StrictlySorted(missing)
    {
      AboveSortedPrefix(smkeys, i, missing);
      var present := Utils.InList(smkeys[i], mkeys);
      if !present {
        missing := missing + [smkeys[i]];
      }
      i := i + 1;
    }
    assert smkeys[..i] == smkeys;
  }

  /** An element of an ascending list is above every list drawn from its
      predecessors. */
  lemma AboveSortedPrefix(s: seq<string>, i: nat, t: seq<string>)
    requires i < |s|
    ensures s[..i + 1] == s[..i] + [s[i]]
    ensures StrictlySorted(s) && StrictlySorted(t) && (forall y :: y in t ==> y in s[..i]) ==>
      StrictlySorted(t + [s[i]])
  {
    assert s[..i + 1] == s[..i] + [s[i]];
    if StrictlySorted(s) && StrictlySorted(t) && (forall y :: y in t ==> y in s[..i]) {
      forall j | 0 <= j < |t| ensures Less(t[j], s[i]) {
        assert t[j] in s[..i];
      }
      AppendAbove(t, s[i]);
    }
  }

  // ----- sections -----

  /** The map-iteration loop of `Sections`: one entry per record with a
      non-empty section. */
  method CollectSections(m: map<string, SchemaRecord>) returns (raw: seq<string>)
    ensures forall x :: multiset(raw)[x] == |SectionedKeys(m, m.Keys, x)|
    ensures (set x | x in raw) == SectionSet(m)
  {
    raw := [];
    var remaining := m.Keys;
    CollectedNone(m);
    while remaining != {}
      invariant remaining <= m.Keys
      invariant SectionsCollected(m, m.Keys - remaining, raw)
      decreases |remaining|
    {
      var k :| k in remaining;
      ghost var done := m.Keys - remaining;
      CollectedStep(m, done, raw, k);
      if m[k].Section != "" {
        raw := raw + [m[k].Section];
      }
      remaining := remaining - {k};
      assert m.Keys - remaining == done + {k};
    }
    assert m.Keys - remaining == m.Keys;
  }

  /** `raw` lists the sections of the records under `done`, once per record. */
  ghost predicate SectionsCollected(m: map<string, SchemaRecord>, done: set<string>, raw: seq<string>)
  {
    (forall x :: multiset(raw)[x] == |SectionedKeys(m, done, x)|) &&
    (set x | x in raw) == SectionsOf(m, done)
  }

  lemma CollectedNone(m: map<string, SchemaRecord>)
    ensures SectionsCollected(m, {}, [])
  {
    forall x ensures multiset([])[x] == |SectionedKeys(m, {}, x)| {
      assert SectionedKeys(m, {}, x) == {};
    }
  }

  lemma CollectedStep(m: map<string, SchemaRecord>, done: set<string>, raw: seq<string>, k: string)
    requires SectionsCollected(m, done, raw) && k in m && k !in done
    ensures SectionsCollected(m, done + {k}, if m[k].Section != "" then raw + [m[k].Section] else raw)
  {
    SectionedKeysStep(m, done, k);
    if m[k].Section != "" {
      var next := raw + [m[k].Section];
      assert (set x | x in next) == (set x | x in raw) + {m[k].Section};
      assert multiset(next) == multiset(raw) + multiset{m[k].Section};
    }
  }

  /** The keys among `ks` whose record has the non-empty section `x`. */
  function SectionedKeys(m: map<string, SchemaRecord>, ks: set<string>, x: string): set<string>
  {
    set k | k in ks && k in m && m[k].Section != "" && m[k].Section == x
  }

  /** The non-empty sections of the records under `ks`. */
  function SectionsOf(m: map<string, SchemaRecord>, ks: set<string>): set<string>
  {
    set k | k in ks && k in m && m[k].Section != "" :: m[k].Section
  }

  function SectionSet(m: map<string, SchemaRecord>): set<string>
  {
    SectionsOf(m, m.Keys)
  }

  lemma SectionedKeysStep(m: map<string, SchemaRecord>, done: set<string>, k: string)
    requires k in m && k !in done
    ensures forall x :: (|SectionedKeys(m, done + {k}, x)| ==
      |SectionedKeys(m, done, x)| + (if m[k].Section != "" && m[k].Section == x then 1 else 0))
    ensures SectionsOf(m, done + {k}) ==
      SectionsOf(m, done) + (if m[k].Section != "" then {m[k].Section} else {})
  {
    forall x ensures |SectionedKeys(m, done + {k}, x)| ==
      |SectionedKeys(m, done, x)| + (if m[k].Section != "" && m[k].Section == x then 1 else 0)
    {
      if m[k].Section != "" && m[k].Section == x {
        assert SectionedKeys(m, done + {k}, x) == SectionedKeys(m, done, x) + {k};
      } else {
        assert SectionedKeys(m, done + {k}, x) == SectionedKeys(m, done, x);
      }
    }
  }

  /** The loop over sorted sections that appends those not yet listed. */
  method AppendAbsent(configured: seq<string>, sorted: seq<string>) returns (out: seq<string>)
    requires Sorted(sorted)
    ensures out == configured + SortedSet((set x | x in sorted) - set x | x in configured)
  {
    out := configured;
    ghost var tail: seq<string> := [];
    var i := 0;
    while i < |sorted|
      invariant 0 <= i <= |sorted|
      invariant out == configured + tail
      invariant StrictlySorted(tail)
      invariant forall y :: y in tail <==> y in sorted[..i] && y !in configured
    {
      AppendSortedStep(sorted, i, tail);
      var listed := Utils.InList(sorted[i], out);
      if !listed {
        out := out + [sorted[i]];
        tail := tail + [sorted[i]];
      }
      i := i + 1;
    }
    assert sorted[..i] == sorted;
    StrictlySortedUnique(tail, SortedSet((set x | x in sorted) - set x | x in configured));
  }

  lemma AppendSortedStep(sorted: seq<string>, i: nat, tail: seq<string>)
    requires Sorted(sorted) && i < |sorted|
    requires StrictlySorted(tail) && forall y :: y in tail ==> y in sorted[..i]
    ensures sorted[..i + 1] == sorted[..i] + [sorted[i]]
    ensures sorted[i] !in tail ==> StrictlySorted(tail + [sorted[i]])
  {
    assert sorted[..i + 1] == sorted[..i] + [sorted[i]];
    if sorted[i] !in tail {
      forall j | 0 <= j < |tail| ensures Less(tail[j], sorted[i]) {
        assert tail[j] in sorted[..i];
        var k :| 0 <= k < i && sorted[k] == tail[j];
        LessFacts();
      }
      AppendAbove(tail, sorted[i]);
    }
  }

  /** The sections `SectionKeys` walks through, as a set. */
  function ListedSections(m: map<string, SchemaRecord>, configured: seq<string>): set<string>
  {
    if |configured| > 0 then (set x | x in configured) + SectionSet(m) else SectionSet(m)
  }

  /** The keys whose record is in section `x`. */
  function SectionMembers(m: map<string, SchemaRecord>, x: string): set<string>
  {
    set k | k in m && m[k].Section == x
  }

  /** The list a section ends with. */
  function SectionEntry(web: map<string, seq<string>>, m: map<string, SchemaRecord>,
                        x: string, walked: bool): seq<string>
  {
    var base := if x in web then web[x] else [];
    if walked then base + Extension(m, x, base) else base
  }

  /** The keys of section x a list lacks, ascending. */
  function Extension(m: map<string, SchemaRecord>, x: string, list: seq<string>): seq<string>
  {
    SortedSet(SectionMembers(m, x) - set k | k in list)
  }

  /** `smap` is the section map once the sections in `done` have been
      walked through. */
  predicate SectionMapAfter(smap: map<string, seq<string>>, web: map<string, seq<string>>,
                            m: map<string, SchemaRecord>, done: set<string>)
  {
    smap.Keys == web.Keys + (set y | y in done && SectionMembers(m, y) != {}) &&
    forall y :: y in smap ==> smap[y] == SectionEntry(web, m, y, y in done)
  }

  /** Walking through one more section fills in exactly that section. */
  lemma SectionMapStep(cur: map<string, seq<string>>, web: map<string, seq<string>>,
                       m: map<string, SchemaRecord>, done: set<string>, x: string)
    requires SectionMapAfter(cur, web, m, done)
    ensures SectionMapAfter(Filled(cur, m, x), web, m, done + {x})
  {
    FilledAt(cur, web, m, done, x);
    FilledKeys(cur, web, m, done, x);
    FilledEntries(cur, web, m, done, x);
  }

  lemma FilledKeys(cur: map<string, seq<string>>, web: map<string, seq<string>>,
                   m: map<string, SchemaRecord>, done: set<string>, x: string)
    requires cur.Keys == web.Keys + (set y | y in done && SectionMembers(m, y) != {})
    requires x in Filled(cur, m, x) <==> x in web || SectionMembers(m, x) != {}
    ensures Filled(cur, m, x).Keys == web.Keys + (set y | y in done + {x} && SectionMembers(m, y) != {})
  {
    var filled := Filled(cur, m, x);
    FilledOthers(cur, m, x);
    var keys := web.Keys + (set y | y in done + {x} && SectionMembers(m, y) != {});
    forall y ensures y in filled <==> y in keys {
      if y != x {
        assert y in cur <==> y in web.Keys + (set z | z in done && SectionMembers(m, z) != {});
      }
    }
  }

  lemma FilledEntries(cur: map<string, seq<string>>, web: map<string, seq<string>>,
                      m: map<string, SchemaRecord>, done: set<string>, x: string)
    requires forall y :: y in cur ==> cur[y] == SectionEntry(web, m, y, y in done)
    requires x in Filled(cur, m, x) ==> Filled(cur, m, x)[x] == SectionEntry(web, m, x, true)
    ensures forall y :: y in Filled(cur, m, x) ==> Filled(cur, m, x)[y] == SectionEntry(web, m, y, y in done + {x})
  {
    var filled := Filled(cur, m, x);
    FilledOthers(cur, m, x);
    forall y | y in filled ensures filled[y] == SectionEntry(web, m, y, y in done + {x}) {
      if y != x {
        assert filled[y] == cur[y];
        assert (y in done) == (y in done + {x});
      }
    }
  }

  /** The entry of the section being filled. */
  lemma FilledAt(cur: map<string, seq<string>>, web: map<string, seq<string>>,
                 m: map<string, SchemaRecord>, done: set<string>, x: string)
    requires SectionMapAfter(cur, web, m, done)
    ensures x in Filled(cur, m, x) <==> x in web || SectionMembers(m, x) != {}
    ensures x in Filled(cur, m, x) ==> Filled(cur, m, x)[x] == SectionEntry(web, m, x, true)
  {
    var members := SectionMembers(m, x);
    var base := if x in web then web[x] else [];
    var entry := base + Extension(m, x, base);
    assert x in cur <==> x in web || (x in done && members != {});
    if x in done {
      if x in cur {
        assert cur[x] == entry;
        SortedSetCovers(base, members, cur[x]);
        assert Extension(m, x, cur[x]) == [];
      }
    } else {
      if x in cur {
        assert cur[x] == base;
      } else if members != {} {
        assert base == [] && (members - set k | k in base) == members;
      }
    }
  }

  /** Filling section x changes no other entry. */
  lemma FilledOthers(cur: map<string, seq<string>>, m: map<string, SchemaRecord>, x: string)
    ensures forall y :: y != x ==> (y in Filled(cur, m, x) <==> y in cur)
    ensures forall y :: y != x && y in cur ==> Filled(cur, m, x)[y] == cur[y]
  {
  }

  /** A list extended by the sorted missing members holds every member. */
  lemma SortedSetCovers(base: seq<string>, members: set<string>, ext: seq<string>)
    requires ext == base + SortedSet(members - set k | k in base)
    ensures members - (set k | k in ext) == {}
  {
    forall k | k in members ensures k in ext {
      if k !in base {
        assert k in SortedSet(members - set k | k in base);
      }
    }
  }

  /** One pass of the inner loop of `SectionKeys`. */
  function Filled(cur: map<string, seq<string>>, m: map<string, SchemaRecord>, x: string): map<string, seq<string>>
  {
    if x in cur then cur[x := cur[x] + Extension(m, x, cur[x])]
    else if SectionMembers(m, x) != {} then cur[x := SortedSet(SectionMembers(m, x))]
    else cur
  }

  /** Walking through the sorted keys for one section. */
  method FillSection(cur: map<string, seq<string>>, sect: string, allKeys: seq<string>,
                     m: map<string, SchemaRecord>) returns (smap: map<string, seq<string>>)
    requires StrictlySorted(allKeys) && forall x :: x in allKeys <==> x in m
    ensures smap == Filled(cur, m, sect)
  {
    ghost var base := if sect in cur then cur[sect] else [];
    ghost var added: seq<string> := [];
    smap := cur;
    var j := 0;
    assert base + added == base;
    assert sect in cur ==> cur[sect := base + added] == cur;
    assert allKeys[..0] == [];
    while j < |allKeys|
      invariant 0 <= j <= |allKeys|
      invariant SectionFill(cur, sect, base, added, smap)
      invariant StrictlySorted(added)
      invariant forall y :: y in added <==> y in allKeys[..j] && y in m && m[y].Section == sect && y !in base
    {
      var k := allKeys[j];
      SectionWalkStep(allKeys, j, m, sect, base, added);
      smap, added := AddSectionKey(cur, sect, m, k, smap, base, added);
      j := j + 1;
    }
    assert allKeys[..j] == allKeys;
    FillSectionDone(cur, m, sect, smap, added);
  }

  /** The keys collected after the first `j` sorted keys: those of the
      section not in its old list, ascending. */
  lemma SectionWalkStep(allKeys: seq<string>, j: nat, m: map<string, SchemaRecord>, sect: string,
                        base: seq<string>, before: seq<string>)
    requires StrictlySorted(allKeys) && (forall x :: x in allKeys <==> x in m) && j < |allKeys|
    requires StrictlySorted(before)
    requires forall y :: y in before <==> y in allKeys[..j] && y in m && m[y].Section == sect && y !in base
    ensures allKeys[j] in m && allKeys[j] !in before
    ensures var k := allKeys[j];
      var after := if m[k].Section == sect && k !in base then before + [k] else before;
      StrictlySorted(after) &&
      forall y :: y in after <==> y in allKeys[..j + 1] && y in m && m[y].Section == sect && y !in base
  {
    var k := allKeys[j];
    AboveSortedPrefix(allKeys, j, before);
    assert k !in allKeys[..j] by {
      assert forall i :: 0 <= i < j ==> Less(allKeys[i], allKeys[j]);
      LessIrreflexive(k);
    }
  }

  /** How the map being filled relates to the starting one: the section,
      if present or once one key is added, holds its old keys and the added
      ones. */
  ghost predicate SectionFill(cur: map<string, seq<string>>, sect: string, base: seq<string>,
                              added: seq<string>, smap: map<string, seq<string>>)
  {
    (sect in cur || added != [] ==> smap == cur[sect := base + added]) &&
    (sect !in cur && added == [] ==> smap == cur)
  }

  /** One key of the walk: a key of the section that the section's list
      does not hold yet is appended, creating the list if need be. */
  method AddSectionKey(cur: map<string, seq<string>>, sect: string, m: map<string, SchemaRecord>,
                       k: string, smap: map<string, seq<string>>, ghost base: seq<string>,
                       ghost added: seq<string>)
    returns (next: map<string, seq<string>>, ghost added2: seq<string>)
    requires k in m && k !in added
    requires base == (if sect in cur then cur[sect] else [])
    requires SectionFill(cur, sect, base, added, smap)
    ensures added2 == (if m[k].Section == sect && k !in base then added + [k] else added)
    ensures SectionFill(cur, sect, base, added2, next)
  {
    next, added2 := smap, added;
    if m[k].Section == sect {
      if sect in smap {
        var skeys := smap[sect];
        assert skeys == base + added;
        var present := Utils.InList(k, skeys);
        if !present {
          next := smap[sect := skeys + [k]];
          assert skeys + [k] == base + (added + [k]);
          added2 := added + [k];
        }
      } else {
        assert base == [] && added == [] && smap == cur;
        next := smap[sect := [k]];
        assert [k] == base + (added + [k]);
        added2 := added + [k];
      }
    }
  }

  lemma FillSectionDone(cur: map<string, seq<string>>, m: map<string, SchemaRecord>, sect: string,
                        smap: map<string, seq<string>>, added: seq<string>)
    requires var base := if sect in cur then cur[sect] else [];
      StrictlySorted(added) &&
      (forall y :: y in added <==> y in SectionMembers(m, sect) && y !in base) &&
      (sect in cur || added != [] ==> smap == cur[sect := base + added]) &&
      (sect !in cur && added == [] ==> smap == cur)
    ensures smap == Filled(cur, m, sect)
  {
    var base := if sect in cur then cur[sect] else [];
    var newKeys := SectionMembers(m, sect) - set k | k in base;
    var ext := SortedSet(newKeys);
    assert forall x :: x in added <==> x in ext;
    StrictlySortedUnique(added, ext);
    if sect !in cur {
      assert newKeys == SectionMembers(m, sect);
      if added == [] {
        assert |newKeys| == |ext| == 0;
      } else {
        assert newKeys != {} by {
          assert added[0] in newKeys;
        }
        assert base + added == added;
      }
    } else {
      assert Extension(m, sect, cur[sect]) == ext;
    }
  }

  // ----- the schema manager -----

  /** `SchemaObject`: a schema and the time it was loaded. */
  datatype SchemaObject = SchemaObject(schema: Schema?, loadTime: int)

  /** A usable cache entry for `path`. */
  predicate Fresh(entries: map<string, SchemaObject>, path: string, now: int, interval: int)
  {
    path in entries && entries[path].schema != null && now - entries[path].loadTime < interval
  }

  /** An entry for `path` old enough to wipe the whole cache. */
  predicate Stale(entries: map<string, SchemaObject>, path: string, now: int, interval: int)
  {
    path in entries && entries[path].schema != null && now - entries[path].loadTime > interval
  }

  /** The cache after a successful reload of `path` at `now`. */
  function Renewed(entries: map<string, SchemaObject>, path: string, now: int, interval: int,
                   schema: Schema): map<string, SchemaObject>
  {
    (if Stale(entries, path, now, interval) then map[] else entries)[path := SchemaObject(schema, now)]
  }

  /** An entry exactly as old as the renew interval is reloaded without
      wiping the other entries. */
  lemma RenewAtInterval(entries: map<string, SchemaObject>, path: string, now: int, interval: int,
                        schema: Schema)
    requires path in entries && entries[path].schema != null && now - entries[path].loadTime == interval
    ensures !Fresh(entries, path, now, interval)
    ensures forall p :: p in entries && p != path ==>
      p in Renewed(entries, path, now, interval, schema) &&
      Renewed(entries, path, now, interval, schema)[p] == entries[p]
  {
  }

  /** Only the requested path's own entry can wipe the cache. */
  lemma RenewKeepsOthers(entries: map<string, SchemaObject>, path: string, now: int, interval: int,
                         schema: Schema)
    requires !Stale(entries, path, now, interval)
    ensures Renewed(entries, path, now, interval, schema) == entries[path := SchemaObject(schema, now)]
  {
  }

  class SchemaManager {
    var entries: map<string, SchemaObject>

    constructor()
      ensures entries == map[]
    {
      entries := map[];
    }

    /** `SchemaManager.Load` at time `now` with renew interval `interval`,
        the working directory `wd` resolving relative names. */
    method Load(fname: string, wd: Option<string>, now: int, interval: int, disk: Disk,
                configured: map<string, seq<string>>, index: SchemaKeyIndex)
      returns (schema: Schema, outcome: LoadOutcome)
      requires index.Valid()
      modifies this, index
      ensures index.Valid()
      ensures var path := Utils.FullPath(fname, wd);
        Fresh(old(entries), path, now, interval) ==>
          schema == old(entries)[path].schema && outcome == LoadOk &&
          entries == old(entries) && index.keys == old(index.keys)
      ensures var path := Utils.FullPath(fname, wd);
        !Fresh(old(entries), path, now, interval) ==>
          fresh(schema) && schema.fileName == path &&
          outcome == SchemaLoadOutcome(path, disk) &&
          (outcome != LoadOk ==> entries == old(entries)) &&
          (outcome == LoadOk ==> entries == Renewed(old(entries), path, now, interval, schema))
      ensures var path := Utils.FullPath(fname, wd);
        !Fresh(old(entries), path, now, interval) && DecodeSchemaFile(path, disk).Failed? ==>
          schema.schemaMap == map[] && schema.webSectionKeys == map[] && index.keys == old(index.keys)
      ensures var path := Utils.FullPath(fname, wd);
        !Fresh(old(entries), path, now, interval) && DecodeSchemaFile(path, disk).Records? ==>
          var smap := ByKey(DecodeSchemaFile(path, disk).rs);
          var side := SideFileName(path);
          schema.schemaMap == smap && schema.Valid() &&
          index.keys.Keys == old(index.keys).Keys + LowerKeys(smap) &&
          (side !in disk ==> schema.webSectionKeys == DefaultWebKeys(configured, smap)) &&
          (side in disk && (disk[side].Unreadable? || disk[side].webKeys.None?) ==> schema.webSectionKeys == map[]) &&
          (side in disk && disk[side].Contents? && disk[side].webKeys.Some? ==>
            schema.webSectionKeys == disk[side].webKeys.value)
    {
      var path := Utils.FullPath(fname, wd);
      if path in entries {
        var sobj := entries[path];
        if sobj.schema != null && now - sobj.loadTime < interval {
          return sobj.schema, LoadOk;
        }
      }
      schema := new Schema(path);
      outcome := schema.Load(disk, configured, index);
      if outcome != LoadOk {
        return;
      }
      if path in entries {
        var sobj := entries[path];
        if sobj.schema != null && now - sobj.loadTime > interval {
          entries := map[];
        }
      }
      entries := entries[path := SchemaObject(schema, now)];
    }
  }
}
