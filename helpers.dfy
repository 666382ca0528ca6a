/** The request helpers of the web server (web/helpers.go): the user name
    carried by the session cookie, validation of a record against a cached
    schema, and the enrichment `insertData` applies to a record before it
    is stored. The storage calls themselves (`InsertFiles`, `MongoUpsert`)
    are outcomes passed in. */
module Helpers {
  import opened GoStrings
  import opened GoValues
  import Schemas
  import Utils
  import Patterns

  // ----- username -----

  datatype UserResult =
    | User(name: string)
    | NoCookie          // the request has no auth-session cookie
    | Undecryptable     // the cookie does not split into two parts

  /** `username`: in test mode every request is the user "test"; otherwise
      the cookie value must split on '-' into exactly two parts, the first
      of which is the user. */
  function Username(testMode: bool, cookie: Option<string>): (r: UserResult)
    ensures testMode ==> r == User("test")
    ensures !testMode && cookie.None? ==> r == NoCookie
    ensures !testMode && cookie.Some? ==>
      (r.User? <==> Count(cookie.value, '-') == 1) &&
      (r.User? ==> '-' !in r.name && HasPrefix(cookie.value, r.name + "-"))
  {
    if testMode then User("test")
    else match cookie
      case None => NoCookie
      case Some(s) =>
        CountSplit(s, '-');
        var arr := Split(s, '-');
        if |arr| != 2 then Undecryptable
        else
          var i := IndexOf(s, '-');
          assert i >= 0 && arr[0] == s[..i] by {
            if i < 0 {
              SplitNoSeparator(s, '-');
            }
          }
          assert s[..i + 1] == arr[0] + "-";
          User(arr[0])
  }

  /** The session cookie the authentication handler writes: the user name
      and the `%v` text of the authentication flag, joined by '-'. */
  function CookieValue(user: string, authenticated: bool): string
  {
    user + "-" + Format(VBool(authenticated))
  }

  /** Reading back a written cookie gives its user exactly when the user
      name holds no '-'. */
  lemma CookieRoundTrip(user: string, authenticated: bool)
    ensures Username(false, Some(CookieValue(user, authenticated))) == User(user) <==> '-' !in user
  {
    var flag := Format(VBool(authenticated));
    var s := CookieValue(user, authenticated);
    assert '-' !in flag;
    assert s == user + ['-'] + flag;
    assert s == user + (['-'] + flag);
    if '-' !in user {
      SplitSnoc(user, '-', flag);
      SplitNoSeparator(user, '-');
      assert Split(s, '-') == [user, flag];
    } else {
      CountConcat(user, ['-'] + flag, '-');
      CountConcat(['-'], flag, '-');
      CountFree(flag, '-');
      assert Count(['-'], '-') == 1;
      assert Count(user, '-') >= 1 by {
        CountFreeConverse(user, '-');
      }
      assert Count(s, '-') >= 2;
    }
  }

  /** A string holding the character counts it at least once. */
  lemma {:induction false} CountFreeConverse(s: string, c: char)
    requires c in s
    ensures Count(s, c) >= 1
    decreases |s|
  {
    if s[0] != c {
      assert c in s[1..];
      CountFreeConverse(s[1..], c);
    }
  }

  // ----- validateData -----

  datatype CheckOutcome =
    | NoSchemaFound
    | NilSchema                                  // a cached entry without a schema
    | RecordRejected(why: Schemas.Validation)
    | RecordAccepted

  /** `validateData`: the record is checked against the schema the manager
      holds under exactly `sname`. */
  method ValidateData(mgr: Schemas.SchemaManager, sname: string, rec: Record) returns (r: CheckOutcome)
    ensures r == NoSchemaFound <==> sname !in mgr.entries
    ensures r == NilSchema <==> sname in mgr.entries && mgr.entries[sname].schema == null
    ensures r == RecordAccepted <==>
      sname in mgr.entries && mgr.entries[sname].schema != null &&
      Schemas.Conforming(mgr.entries[sname].schema.schemaMap, rec)
    ensures r.RecordRejected? ==> r.why != Schemas.Conforms
  {
    if sname !in mgr.entries {
      return NoSchemaFound;
    }
    var schema := mgr.entries[sname].schema;
    if schema == null {
      return NilSchema;
    }
    var v := schema.Validate(rec);
    if v != Schemas.Conforms {
      return RecordRejected(v);
    }
    return RecordAccepted;
  }

  // ----- insertData -----

  /** What `insertData` cannot compute itself: the `USER` variable, the
      value `schemaName(sname)` gives, the four random suffixes drawn for
      missing dataset components, the generated `did`, and whether the files
      database and the document store accept the insertion. */
  datatype Environment = Environment(
    user: string,
    schemaLabel: string,
    cycleDraw: string, beamlineDraw: string, btrDraw: string, sampleDraw: string,
    newDid: string,
    filesStored: bool,
    upserted: bool)

  datatype InsertOutcome =
    | LoadFailed(load: Schemas.LoadOutcome)
    | CheckFailed(check: CheckOutcome)
    | AssertionPanic(key: string)   // `v.(string)` on a value of another type
    | NoFiles(path: string)
    | BadDataset(dataset: string)   // `InsertFiles` cannot split the dataset
    | FilesFailed
    | UpsertFailed
    | Inserted

  /** The bookkeeping keys set before anything else: `Date` only when
      absent, then the schema file and the schema name. */
  function Stamped(rec: Record, sname: string, schemaLabel: string, now: int): (r: Record)
    ensures r.Keys == rec.Keys + {"Date", "SchemaFile", "Schema"}
    ensures "Date" in rec ==> r["Date"] == rec["Date"]
    ensures "Date" !in rec ==> r["Date"] == VInt(Int64, now)
    ensures r["SchemaFile"] == VString(sname) && r["Schema"] == VString(schemaLabel)
    ensures forall k :: k in rec && k !in {"Date", "SchemaFile", "Schema"} ==> r[k] == rec[k]
  {
    var dated := if "Date" in rec then rec else rec["Date" := VInt(Int64, now)];
    dated["SchemaFile" := VString(sname)]["Schema" := VString(schemaLabel)]
  }

  /** `filepath.Join("/tmp", user)`. */
  function TmpDir(user: string): string
  {
    if user == "" then "/tmp" else "/tmp/" + user
  }

  /** A component of the dataset: the record's string, or the prefixed
      random draw when the key is absent; None when the value is not a
      string. */
  function Component(rec: Record, key: string, prefix: string, draw: string): Option<string>
  {
    if key !in rec then Some(prefix + draw)
    else if rec[key].VString? then Some(rec[key].s)
    else None
  }

  /** The `%v` text of every element. */
  function FormatAll(items: seq<Value>): (r: seq<string>)
    ensures |r| == |items| && forall i :: 0 <= i < |items| ==> r[i] == Format(items[i])
  {
    seq(|items|, i requires 0 <= i < |items| => Format(items[i]))
  }

  /** The beamline component of a present `Beamline`: a string as it is,
      a list joined by '-', any other value "". */
  function BeamlineOf(v: Value): string
  {
    match v
    case VString(s) => s
    case VStrList(xs) => Join(xs, "-")
    case VAnyList(items) => Join(FormatAll(items), "-")
    case _ => ""
  }

  /** A list of names without '-' can be recovered from the beamline
      component. */
  lemma BeamlineSplit(xs: seq<string>)
    requires |xs| >= 1 && forall x :: x in xs ==> '-' !in x
    ensures Split(BeamlineOf(VStrList(xs)), '-') == xs
  {
    SplitJoin(xs, '-');
  }

  /** The beamline computation of `insertData`, with its loop over a
      `[]any`. */
  method Beamline(v: Value) returns (b: string)
    ensures b == BeamlineOf(v)
  {
    match v {
      case VString(s) => b := s;
      case VStrList(xs) => b := Join(xs, "-");
      case VAnyList(items) =>
        var values: seq<string> := [];
        var i := 0;
        while i < |items|
          invariant 0 <= i <= |items|
          invariant |values| == i && forall j :: 0 <= j < i ==> values[j] == Format(items[j])
        {
          values := values + [Format(items[i])];
          i := i + 1;
        }
        assert values == FormatAll(items);
        b := Join(values, "-");
      case _ => b := "";
    }
  }

  datatype Fields = Fields(path: string, cycle: string, beamline: string, btr: string, sample: string)

  datatype Gathering = Gathered(f: Fields) | NotString(key: string)

  /** The data location and the four dataset components, in the order
      `insertData` reads them, so a failed type assertion names the first
      key that is not a string. `Beamline` never fails. The default
      location is `/tmp/$USER` when it exists on `disk`, else `/tmp`. */
  function Gather(rec: Record, disk: Schemas.Disk, env: Environment): Gathering
  {
    var path :=
      if "DataLocationRaw" !in rec then
        (var d := TmpDir(env.user); Some(if d in disk then d else "/tmp"))
      else if rec["DataLocationRaw"].VString? then Some(rec["DataLocationRaw"].s)
      else None;
    var cycle := Component(rec, "Cycle", "Cycle-", env.cycleDraw);
    var beamline := if "Beamline" in rec then BeamlineOf(rec["Beamline"]) else "beamline-" + env.beamlineDraw;
    var btr := Component(rec, "BTR", "btr-", env.btrDraw);
    var sample := Component(rec, "SampleName", "sample-", env.sampleDraw);
    if path.None? then NotString("DataLocationRaw")
    else if cycle.None? then NotString("Cycle")
    else if btr.None? then NotString("BTR")
    else if sample.None? then NotString("SampleName")
    else Gathered(Fields(path.value, cycle.value, beamline, btr.value, sample.value))
  }

  /** The dataset name "/cycle/beamline/btr/sample". */
  function Dataset(f: Fields): string
  {
    "/" + f.cycle + "/" + f.beamline + "/" + f.btr + "/" + f.sample
  }

  /** The dataset name is the components joined by '/' after an empty
      first part. */
  lemma DatasetJoin(f: Fields)
    ensures Dataset(f) == Join(["", f.cycle, f.beamline, f.btr, f.sample], "/")
  {
    JoinCons(f.btr, [f.sample], "/");
    assert [f.btr] + [f.sample] == [f.btr, f.sample];
    JoinCons(f.beamline, [f.btr, f.sample], "/");
    assert [f.beamline] + [f.btr, f.sample] == [f.beamline, f.btr, f.sample];
    JoinCons(f.cycle, [f.beamline, f.btr, f.sample], "/");
    assert [f.cycle] + [f.beamline, f.btr, f.sample] == [f.cycle, f.beamline, f.btr, f.sample];
    JoinCons("", [f.cycle, f.beamline, f.btr, f.sample], "/");
    assert [""] + [f.cycle, f.beamline, f.btr, f.sample] == ["", f.cycle, f.beamline, f.btr, f.sample];
  }

  /** `InsertFiles` splits the dataset back on '/': it finds five parts
      exactly when no component holds a '/', and then the components are
      the parts after the empty first one. */
  lemma DatasetSplit(f: Fields)
    ensures |Split(Dataset(f), '/')| == 5 <==>
      '/' !in f.cycle && '/' !in f.beamline && '/' !in f.btr && '/' !in f.sample
    ensures '/' !in f.cycle && '/' !in f.beamline && '/' !in f.btr && '/' !in f.sample ==>
      Split(Dataset(f), '/') == ["", f.cycle, f.beamline, f.btr, f.sample]
  {
    var parts := ["", f.cycle, f.beamline, f.btr, f.sample];
    DatasetJoin(f);
    CountSplit(Dataset(f), '/');
    DatasetCount(f);
    if '/' !in f.cycle && '/' !in f.beamline && '/' !in f.btr && '/' !in f.sample {
      SplitJoin(parts, '/');
    }
  }

  /** The slashes of the dataset name: four of its own and those of the
      components. */
  lemma DatasetCount(f: Fields)
    ensures Count(Dataset(f), '/') ==
      4 + Count(f.cycle, '/') + Count(f.beamline, '/') + Count(f.btr, '/') + Count(f.sample, '/')
    ensures Count(f.cycle, '/') == 0 <==> '/' !in f.cycle
    ensures Count(f.beamline, '/') == 0 <==> '/' !in f.beamline
    ensures Count(f.btr, '/') == 0 <==> '/' !in f.btr
    ensures Count(f.sample, '/') == 0 <==> '/' !in f.sample
  {
    var d := Dataset(f);
    CountConcat("/" + f.cycle + "/" + f.beamline + "/" + f.btr + "/", f.sample, '/');
    CountConcat("/" + f.cycle + "/" + f.beamline + "/" + f.btr, "/", '/');
    CountConcat("/" + f.cycle + "/" + f.beamline + "/", f.btr, '/');
    CountConcat("/" + f.cycle + "/" + f.beamline, "/", '/');
    CountConcat("/" + f.cycle + "/", f.beamline, '/');
    CountConcat("/" + f.cycle, "/", '/');
    CountConcat("/", f.cycle, '/');
    assert Count("/", '/') == 1;
    CountZero(f.cycle, '/');
    CountZero(f.beamline, '/');
    CountZero(f.btr, '/');
    CountZero(f.sample, '/');
  }

  lemma CountZero(s: string, c: char)
    ensures Count(s, c) == 0 <==> c !in s
  {
    if c in s {
      CountFreeConverse(s, c);
    } else {
      CountFree(s, c);
    }
  }

  /** The dataset name of word-like components matches `PatternDataset`. */
  lemma DatasetMatches(f: Fields)
    requires Patterns.DatasetWord(f.cycle) && Patterns.DatasetWord(f.beamline)
    requires Patterns.DatasetWord(f.btr) && Patterns.DatasetWord(f.sample)
    ensures Patterns.PatternDataset(Dataset(f))
  {
    Patterns.DatasetPath("", f.cycle, f.beamline, f.btr, "/" + f.sample);
    assert "" + "/" == "/";
    var head := "/" + f.cycle + "/" + f.beamline + "/" + f.btr;
    assert "" + "/" + f.cycle + "/" + f.beamline + "/" + f.btr == head;
    assert Dataset(f) == head + "/" + f.sample;
    assert head + "/" + f.sample == head + ("/" + f.sample);
  }

  /** The record and the outcome of the steps of `insertData` that follow
      a successful validation. */
  function Enriched(sname: string, rec: Record, now: int, disk: Schemas.Disk, env: Environment):
    (r: (InsertOutcome, Record))
    ensures rec.Keys + {"Date", "SchemaFile", "Schema"} <= r.1.Keys
    ensures r.0 != Inserted ==> r.0 != UpsertFailed ==> "did" in rec ==> r.1["did"] == rec["did"]
    ensures r.0 == Inserted || r.0 == UpsertFailed ==>
      "did" in r.1 && ("did" in rec ==> r.1["did"] == rec["did"]) &&
      ("did" !in rec ==> r.1["did"] == VString(env.newDid))
    ensures r.0 == Inserted ==> env.filesStored && env.upserted
    ensures "Date" in r.1 && ("Date" in rec ==> r.1["Date"] == rec["Date"])
    ensures r.1["SchemaFile"] == VString(sname)
  {
    var base := Stamped(rec, sname, env.schemaLabel, now);
    match Gather(rec, disk, env)
    case NotString(k) => (AssertionPanic(k), base)
    case Gathered(f) =>
      var ds := Dataset(f);
      var withDs := base["dataset" := VString(ds)];
      if f.path !in disk then (NoFiles(f.path), withDs)
      else
        var withPath := withDs["path" := VString(f.path)];
        if "did" in rec && !rec["did"].VString? then (AssertionPanic("did"), withPath)
        else
          var did := if "did" in rec then rec["did"].s else env.newDid;
          if |Split(ds, '/')| != 5 then (BadDataset(ds), withPath)
          else if !env.filesStored then (FilesFailed, withPath)
          else (if env.upserted then Inserted else UpsertFailed, withPath["did" := VString(did)])
  }

  /** The stamped keys are not read by `Gather`. */
  lemma GatherStamped(rec: Record, sname: string, schemaLabel: string, now: int, disk: Schemas.Disk,
                      env: Environment)
    ensures Gather(Stamped(rec, sname, schemaLabel, now), disk, env) == Gather(rec, disk, env)
  {
    var st := Stamped(rec, sname, schemaLabel, now);
    assert SameKey(st, rec, "DataLocationRaw");
    assert SameKey(st, rec, "Cycle");
    assert SameKey(st, rec, "Beamline");
    assert SameKey(st, rec, "BTR");
    assert SameKey(st, rec, "SampleName");
    GatherAgree(st, rec, disk, env);
  }

  /** The two records agree on key `k`. */
  predicate SameKey(r1: Record, r2: Record, k: string)
  {
    (k in r1 <==> k in r2) && (k in r1 ==> r1[k] == r2[k])
  }

  /** `Gather` reads only the five location and dataset keys. */
  lemma GatherAgree(r1: Record, r2: Record, disk: Schemas.Disk, env: Environment)
    requires SameKey(r1, r2, "DataLocationRaw") && SameKey(r1, r2, "Cycle") && SameKey(r1, r2, "Beamline")
    requires SameKey(r1, r2, "BTR") && SameKey(r1, r2, "SampleName")
    ensures Gather(r1, disk, env) == Gather(r2, disk, env)
  {
  }

  /** The data location and dataset components read from the record, with
      the same type assertions `insertData` makes. */
  method ReadFields(rec: Record, disk: Schemas.Disk, env: Environment) returns (g: Gathering)
    ensures g == Gather(rec, disk, env)
  {
    var path: string;
    if "DataLocationRaw" in rec {
      if !rec["DataLocationRaw"].VString? {
        return NotString("DataLocationRaw");
      }
      path := rec["DataLocationRaw"].s;
    } else {
      path := TmpDir(env.user);
      if path !in disk {
        path := "/tmp";
      }
    }
    var cycle, beamline, btr, sample: string;
    if "Cycle" in rec {
      if !rec["Cycle"].VString? {
        return NotString("Cycle");
      }
      cycle := rec["Cycle"].s;
    } else {
      cycle := "Cycle-" + env.cycleDraw;
    }
    if "Beamline" in rec {
      beamline := Beamline(rec["Beamline"]);
    } else {
      beamline := "beamline-" + env.beamlineDraw;
    }
    if "BTR" in rec {
      if !rec["BTR"].VString? {
        return NotString("BTR");
      }
      btr := rec["BTR"].s;
    } else {
      btr := "btr-" + env.btrDraw;
    }
    if "SampleName" in rec {
      if !rec["SampleName"].VString? {
        return NotString("SampleName");
      }
      sample := rec["SampleName"].s;
    } else {
      sample := "sample-" + env.sampleDraw;
    }
    g := Gathered(Fields(path, cycle, beamline, btr, sample));
  }

  /** The enrichment steps of `insertData`, updating the record in place
      as the source does. */
  method Enrich(sname: string, rec: Record, now: int, disk: Schemas.Disk, env: Environment)
    returns (outcome: InsertOutcome, out: Record)
    ensures (outcome, out) == Enriched(sname, rec, now, disk, env)
  {
    out := rec;
    if "Date" !in out {
      out := out["Date" := VInt(Int64, now)];
    }
    out := out["SchemaFile" := VString(sname)];
    out := out["Schema" := VString(env.schemaLabel)];
    assert out == Stamped(rec, sname, env.schemaLabel, now);
    var g := ReadFields(out, disk, env);
    GatherStamped(rec, sname, env.schemaLabel, now, disk, env);
    if g.NotString? {
      return AssertionPanic(g.key), out;
    }
    var path, cycle, beamline, btr, sample := g.f.path, g.f.cycle, g.f.beamline, g.f.btr, g.f.sample;
    var dataset := "/" + cycle + "/" + beamline + "/" + btr + "/" + sample;
    assert Gather(rec, disk, env) == g && dataset == Dataset(g.f);
    out := out["dataset" := VString(dataset)];
    if path !in disk {
      return NoFiles(path), out;
    }
    out := out["path" := VString(path)];
    var did: string;
    if "did" !in out {
      did := env.newDid;
    } else {
      if !out["did"].VString? {
        return AssertionPanic("did"), out;
      }
      did := out["did"].s;
    }
    var arr := Split(dataset, '/');
    if |arr| != 5 {
      return BadDataset(dataset), out;
    }
    if !env.filesStored {
      return FilesFailed, out;
    }
    out := out["did" := VString(did)];
    outcome := if env.upserted then Inserted else UpsertFailed;
  }

  /** `insertData` as written: the schema is loaded, and so cached under
      its full path, but the record is validated against the entry filed
      under the name as given. A relative name that was not cached under
      itself is never found. */
  method InsertDataAsWritten(mgr: Schemas.SchemaManager, index: Schemas.SchemaKeyIndex, sname: string,
                             rec: Record, wd: Option<string>, now: int, interval: int, disk: Schemas.Disk,
                             configured: map<string, seq<string>>, env: Environment)
    returns (outcome: InsertOutcome, out: Record)
    requires index.Valid()
    modifies mgr, index
    ensures index.Valid()
    ensures outcome.LoadFailed? || outcome.CheckFailed? ==> out == rec
    ensures !HasPrefix(sname, "/") && wd.Some? && sname !in old(mgr.entries) ==>
      outcome.LoadFailed? || outcome == CheckFailed(NoSchemaFound)
  {
    var schema, loaded := mgr.Load(sname, wd, now, interval, disk, configured, index);
    if loaded != Schemas.LoadOk {
      return LoadFailed(loaded), rec;
    }
    if !HasPrefix(sname, "/") && wd.Some? && sname !in old(mgr.entries) {
      RelativeNotFiled(old(mgr.entries), sname, wd, now, interval, schema);
    }
    outcome, out := ValidateAndEnrich(mgr, sname, sname, rec, now, disk, env);
  }

  /** A relative name joined to a working directory is not the name
      itself, so renewing the joined path leaves the name unfiled. */
  lemma RelativeNotFiled(entries: map<string, Schemas.SchemaObject>, sname: string, wd: Option<string>,
                         now: int, interval: int, schema: Schemas.Schema)
    requires !HasPrefix(sname, "/") && wd.Some? && sname !in entries
    ensures Utils.FullPath(sname, wd) != sname
    ensures sname !in Schemas.Renewed(entries, Utils.FullPath(sname, wd), now, interval, schema)
  {
    assert |Utils.FullPath(sname, wd)| > |sname|;
  }

  /** `insertData` validating against the entry the load just left under
      the full path, so a loaded schema is always found and only the
      record's own faults stop the insertion. */
  method InsertData(mgr: Schemas.SchemaManager, index: Schemas.SchemaKeyIndex, sname: string,
                    rec: Record, wd: Option<string>, now: int, interval: int, disk: Schemas.Disk,
                    configured: map<string, seq<string>>, env: Environment)
    returns (outcome: InsertOutcome, out: Record)
    requires index.Valid()
    modifies mgr, index
    ensures index.Valid()
    ensures outcome.LoadFailed? || outcome.CheckFailed? ==> out == rec
    ensures var path := Utils.FullPath(sname, wd);
      outcome.LoadFailed? <==>
        !Schemas.Fresh(old(mgr.entries), path, now, interval) && Schemas.SchemaLoadOutcome(path, disk) != Schemas.LoadOk
    ensures var path := Utils.FullPath(sname, wd);
      !outcome.LoadFailed? ==>
        path in mgr.entries && mgr.entries[path].schema != null &&
        (outcome.CheckFailed? <==> !Schemas.Conforming(mgr.entries[path].schema.schemaMap, rec)) &&
        (outcome.CheckFailed? ==> outcome.check.RecordRejected?) &&
        (!outcome.CheckFailed? ==> (outcome, out) == Enriched(sname, rec, now, disk, env))
  {
    var path := Utils.FullPath(sname, wd);
    var schema, loaded := mgr.Load(sname, wd, now, interval, disk, configured, index);
    if loaded != Schemas.LoadOk {
      return LoadFailed(loaded), rec;
    }
    outcome, out := ValidateAndEnrich(mgr, path, sname, rec, now, disk, env);
  }

  /** The steps of `insertData` after the load: validation against the
      entry filed under `key`, then the enrichment. */
  method ValidateAndEnrich(mgr: Schemas.SchemaManager, key: string, sname: string, rec: Record,
                           now: int, disk: Schemas.Disk, env: Environment)
    returns (outcome: InsertOutcome, out: Record)
    ensures !outcome.LoadFailed?
    ensures outcome.CheckFailed? ==> out == rec
    ensures key !in mgr.entries ==> outcome == CheckFailed(NoSchemaFound)
    ensures key in mgr.entries && mgr.entries[key].schema != null ==>
      (outcome.CheckFailed? <==> !Schemas.Conforming(mgr.entries[key].schema.schemaMap, rec)) &&
      (outcome.CheckFailed? ==> outcome.check.RecordRejected?)
    ensures !outcome.CheckFailed? ==> (outcome, out) == Enriched(sname, rec, now, disk, env)
  {
    var check := ValidateData(mgr, key, rec);
    if check != RecordAccepted {
      return CheckFailed(check), rec;
    }
    outcome, out := Enrich(sname, rec, now, disk, env);
  }

  /** The mismatch for the configured name "schemas/test.json" served from
      "/srv": the load files the schema under "/srv/schemas/test.json",
      where a lookup of the name as given does not look. */
  lemma RelativeNameMissed(schema: Schemas.Schema)
    ensures var path := Utils.FullPath("schemas/test.json", Some("/srv"));
      path == "/srv/schemas/test.json" &&
      "schemas/test.json" !in Schemas.Renewed(map[], path, 0, 600, schema) &&
      path in Schemas.Renewed(map[], path, 0, 600, schema)
  {
    assert "schemas/test.json"[0] == 's';
    assert !HasPrefix("schemas/test.json", "/");
  }
}
