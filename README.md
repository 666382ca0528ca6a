# CHESS data management: schema-driven records and queries

This project models the core of the CHESS metadata service in Dafny. The
service stores experiment metadata records in a document database and checks
them against per-beamline schema files. It models and proves:

- the schema store: the per-path schema cache with its renew interval, the
  loading of a schema file into a key map, the global lower-case key index,
  and the key and section listings;
- the record validator: the type rules of `validSchemaType`, the enumeration
  rule of `validDataValue` and the mandatory-key check of `Validate`, plus the
  offline schema checker with its own type rules;
- the query translator: the empty, JSON and `key:value` branches of
  `ParseQuery`, the key resolution and regular-expression wrapping of
  `adjustQuery`, the type inference of `convertType`, and the server's regular
  expressions as string predicates;
- the record-shaping helpers: the cookie user name, the validation lookup, the
  enrichment and dataset name of `insertData`, the form parsing of
  `parseValue` and `processForm`, the form-entry choices, the dotted record
  lookup, the record rendering, the error record and the list, set, paging and
  path helpers;
- the URL base path of the server, `clean_nones` and the example-dictionary
  builders of the schema generator, and the poll back-off of the web page.

Go's `any` is a closed datatype (`GoValues.Value`) with one constructor per
dynamic type the code distinguishes. A float is carried only as its kind, its
`%v` text and whether it is zero. A Go map that the code iterates over is a
Dafny `map`, and every loop over one picks its keys in no fixed order
(`var k :| k in remaining`). Their contracts therefore say what holds for
every order. Examples are `Schemas.Schema.Validate` (which failing key is
reported is left open) and `Query.AdjustQuery` (which of two keys resolving
to the same schema key wins is left open).

The outside world is passed in as parameters:

- the clock reading `now` and the renew interval;
- the working directory;
- the file system, as a map from path to the decoded views of the file;
- the configured schema files, sections and web section keys;
- the test-mode flag;
- the float parser and float pattern;
- the random draws;
- the outcomes of the two storage calls.

The repository's call sites do not always agree with the definitions they call
(`insertData`, `ParseQuery`, `MongoUpsert`); the model follows the definitions.

Some consequences proved along the way:

- A form value for a schema key of type `int` or `list_int` is parsed to an
  `int64` or a `[]string`. So `validSchemaType` rejects such a parsed value
  for every input (`Handlers.ParsedTypes`).
- The declared type `list` never validates (`SchemaTypes.PlainListNeverValid`).
- A mandatory schema key that is also a skip key can never be supplied
  (`Schemas.Unfilled`, used by `Schemas.Schema.Validate`).

## Model

| member | source | states |
|---|---|---|
| Schemas.SchemaManager.Load | web/schema.go:55-86 | a fresh entry (non-nil, younger than the interval) is returned and nothing changes; otherwise the file at the full path is loaded, a failure leaves the cache as it was, and a success files `{schema, now}` under the path after wiping the cache only when the path's own entry is older than the interval; the reloaded schema carries `Schema.Load`'s contents for the full path (records keyed by key, lower-cased keys added to the shared index even when the side file then fails, web keys from the side file or the defaults, none when the side file fails) |
| Schemas.RenewAtInterval | web/schema.go:60-83 | an entry exactly as old as the interval is reloaded, and every other entry survives |
| Schemas.RenewKeepsOthers | web/schema.go:74-83 | unless the requested path's own entry is older than the interval, a reload only sets that path's entry |
| Schemas.Schema.Load | web/schema.go:116-227 | the format follows the name's suffix; a failed open or decode changes nothing; otherwise the key map is the records by key, the index gains the lower-cased keys, and the web section keys come from the side file or, when it is absent, from the configured keys restricted to schema keys |
| Schemas.DecodeSchemaFile | web/schema.go:116-169 | a decode failure is never reported as success or as a side-file error |
| Schemas.ReadSchemaFile | web/schema.go:116-169 | the open/read/decode steps give exactly the decoded records or the load error |
| Schemas.ConvertYamlSpec | web/schema.go:551-562 | `convertYaml` has one key per distinct `%v` key text, holding the converted value of the last entry with that text |
| Schemas.ConvertPrefixSpec | web/schema.go:551-562 | the same for every prefix of the mapping's entries |
| Schemas.ConvertYamlAnyOrder | web/schema.go:551-562 | whatever the visiting order, every key's value is the converted value of some entry with that key text, and an entry whose text no other entry shares keeps its own converted value |
| Schemas.ProjectYaml | web/schema.go:147-163 | a YAML record projects iff its key, type, description and placeholder are strings and optional a bool; multiple, section and value stay zero |
| Schemas.DecodeYaml | web/schema.go:139-164 | the YAML loop yields every projected record in order, or fails when any projection panics |
| Schemas.PanicPropagates | web/schema.go:147-164 | a panicking record anywhere fails the whole list |
| Schemas.ByKeySpec | web/schema.go:171-174 | the key map has one entry per distinct record key, each filed under its own key and equal to the last record with that key |
| Schemas.ByKeyDomain | web/schema.go:171-174 | the key map's keys are exactly the records' keys |
| Schemas.ByKeyLast | web/schema.go:171-174 | a record with no later duplicate is the entry for its key |
| Schemas.BuildMap | web/schema.go:171-176 | the loop builds exactly the records-by-key map |
| Schemas.SchemaKeyIndex.Register | web/schema.go:178-186 | the index only grows: it gains exactly the lower-cased schema keys, old entries keep their value unless a new key lower-cases to them, and new values are schema keys as spelled |
| Schemas.LowerEntry | web/schema.go:184 | every index name is itself in lower case |
| Schemas.FilterKnown | web/schema.go:215-222 | a configured section keeps exactly its values that are schema keys |
| Schemas.FilterWebKeys | web/schema.go:209-224 | the default web section keys are the configured ones restricted to schema keys |
| Schemas.KnownValues | web/schema.go:216-221 | the inner loop keeps the values found among the schema keys, in order |
| Schemas.Schema.Keys | web/schema.go:302-312 | every schema key once, ascending |
| Schemas.Schema.OptionalKeys | web/schema.go:315-329 | the keys of optional records, ascending |
| Schemas.Schema.MandatoryKeys | web/schema.go:332-346 | the keys of mandatory records, ascending |
| Schemas.CollectKeys | web/schema.go:307-309 | the map loop lists each selected key exactly once |
| Schemas.SortedKeys | web/schema.go:302-346 | a listing followed by the sort is the ascending list of the selected keys |
| Schemas.KeyListsPartition | web/schema.go:302-346 | optional and mandatory keys are disjoint, their union is the key list, and their lengths add up to the number of keys |
| Schemas.Schema.Validate | web/schema.go:230-299 | success iff every non-skip record key is a schema key filed under itself whose value passes both value checks and no mandatory key is missing; each error names a record key that really fails in the way reported; missing keys are reported ascending |
| Schemas.ScanKeys | web/schema.go:241-279 | the record loop stops at a key that really fails, or collects exactly the supplied mandatory keys |
| Schemas.MandatoryCollected | web/schema.go:274-286 | after the loop, the count of collected mandatory keys equals the count of schema mandatory keys iff none is missing |
| Schemas.MissingFrom | web/schema.go:286-293 | the missing keys are the mandatory keys not collected, ascending |
| Schemas.Schema.Sections | web/schema.go:349-375 | without configured sections, each non-empty record section once per record; with them, the configured list followed by the other sections ascending |
| Schemas.CollectSections | web/schema.go:354-360 | the map loop lists each record's non-empty section, once per record |
| Schemas.AppendAbsent | web/schema.go:361-372 | the configured list followed by the sorted sections it lacks, each once |
| Schemas.SectionsListed | web/schema.go:349-375 | the sections returned are exactly the listed sections |
| Schemas.Schema.SectionKeys | web/schema.go:378-412 | the section map holds the web section keys and every listed section with members; a walked section's list is its web list extended by its missing member keys ascending |
| Schemas.SectionWalk | web/schema.go:395-410 | the loop over the sections fills in each listed section |
| Schemas.FillSection | web/schema.go:396-409 | the loop over the sorted keys for one section fills in exactly that section |
| SchemaTypes.ValidSchemaTypeCases | web/schema.go:480-548 | acceptance iff an `int`/`float64` zero meets a type naming int or float, or an integral `float64` meets int64, or a `[]any` or empty `[]string` meets list_float, or the type equals the runtime tag |
| SchemaTypes.EmptyListText | web/schema.go:537-539 | a `[]string` prints as "[]" iff it is empty or holds one empty string |
| SchemaTypes.PlainListNeverValid | web/schema.go:489-524 | no value passes the declared type "list" |
| SchemaTypes.FloatRejectsFloat64 | web/schema.go:508-511 | a `float64` passes "float" only when it is zero |
| SchemaTypes.ZeroPassesNumericTypes | web/schema.go:482-486 | an `int` or `float64` zero passes every type naming int or float |
| SchemaTypes.IntegralFloatPassesInt64 | web/schema.go:530-532 | a `float64` printed without a dot passes int64 |
| SchemaTypes.EnumStrings | web/schema.go:422-424 | one trimmed `%v` string per enumeration entry |
| SchemaTypes.ValidDataValue | web/schema.go:416-477 | the verdict is the specified enumeration verdict, including the panic of a non-list enumeration |
| SchemaTypes.CollectEnum | web/schema.go:418-424 | the loop gathers exactly the enumeration strings |
| SchemaTypes.CollectElements | web/schema.go:434-446 | a `[]string` input is split on blanks, a `[]any` input printed element by element |
| SchemaTypes.CountPairs | web/schema.go:447-454 | the nested loops count the equal (element, entry) pairs |
| SchemaTypes.ScalarMatch | web/schema.go:465-470 | a scalar matches iff it is a string equal to an enumeration string |
| SchemaTypes.MatchesCount | web/schema.go:447-454 | an absent element has no match, and with a duplicate-free enumeration a present one has exactly one |
| SchemaTypes.PairMatchesAllAllowed | web/schema.go:447-463 | with a duplicate-free enumeration the pair count equals the element count iff every element is allowed |
| SchemaTypes.DataValueMembership | web/schema.go:416-477 | with a duplicate-free enumeration a list passes iff all its elements are allowed, and a scalar iff it is an allowed string |
| SchemaTypes.ListWithForeignValueRejected | web/helpers_test.go:26-46 | a list holding a value outside a duplicate-free enumeration is rejected |
| SchemaTypes.RepeatedEnumAdmitsForeign | web/schema.go:447-463 | with a repeated enumeration entry the count can reach the element count although an element is foreign |
| SchemaTypes.BeamlineEnumExample | web/helpers_test.go:26-46 | with the enumeration ["3A","3B"], ["3A","foo"] is rejected and ["3A","3B"] accepted |
| GoValues.SliceTypeNames | web/schema.go:429-430 | `%T` starts with "[]" exactly for slice values |
| GoValues.FormatEmpty | web/schema.go:541 | `%v` prints "" only for the empty string |
| SchemaLinter.CheckTypeValuesCases | web/schemas/main.go:123-189 | acceptance iff nil, a numeric zero under a type naming int or float, "", an integral `float64` under int64, a `[]any` under list_float, or the type ("str" read as "string") equals the runtime tag |
| SchemaLinter.JsonNumberTypes | web/schemas/main.go:140-185 | a non-zero JSON number fits "float64", and "int64" when printed without a dot, and no other type |
| SchemaLinter.UnknownMemberRejected | web/schemas/main.go:61-65 | an object member that names no record field fails the decoding |
| SchemaLinter.DecodeMembersRoundTrip | web/schemas/main.go:22-31 | decoding the members a record is written with gives the record back |
| SchemaLinter.DecodeMembersExample | web/schemas/main.go:61-65 | member names match regardless of case and a repeated member overrides the earlier one |
| SchemaLinter.CheckRecord | web/schemas/main.go:67-119 | one record's verdict: type not in `Types`, a value mismatch, or ok |
| SchemaLinter.CheckElements | web/schemas/main.go:74-84 | under a list type, ok iff every element fits the element type |
| SchemaLinter.CheckScalarElements | web/schemas/main.go:85-111 | under a non-list type, ok iff every non-"" element passes; a bool type maps each element to a bool first |
| SchemaLinter.Validate | web/schemas/main.go:46-121 | an unreadable or undecodable file is an error; otherwise the first failing record is reported, or success |
| SchemaLinter.FirstFailureSpec | web/schemas/main.go:67-120 | success iff every record passes; a reported failure is at the first failing record |
| SchemaLinter.BoolListAlwaysPasses | web/schemas/main.go:94-103 | a value list under "bool" always passes |
| SchemaLinter.ListElementTypes | web/schemas/main.go:77 | the element types of list_str, list_int and list_float are str, int and float |
| SchemaLinter.StringListPasses | web/schemas/main.go:74-84 | a list_str list of strings passes |
| SchemaLinter.ListNumberRejected | web/schemas/main.go:74-84 | a non-zero JSON number in a list_int or list_float list is a mismatch |
| SchemaLinter.UnlistedTypes | web/schemas/main.go:34-39 | list, uint64, int8, int16 and str are not known types |
| Query.ParseQuery | web/query.go:55-113 | empty after trimming iff the empty-query error; a query with `{` is only JSON-decoded (error iff decoding fails, `_id` replaced when it reads as an ObjectID, no adjustment); a `key:value` query is tokenized by the corrected tokenizer and adjusted, which is also the adjustment of the loop as written whenever no middle segment repeats the last; a free-text query adjusts to the empty filter |
| Query.Tokenize | web/query.go:81-107 | the tokenizer loop yields the pairs the query denotes |
| Query.TokensRender | web/query.go:81-107 | tokenizing any rendered `k0:v0 k1:v1 ...` query gives back the pairs, a repeated key keeping its last value |
| Query.TokensQuery3 | web/query_test.go:9-48 | `user:test attr:bla foo keys:v1 v2` gives user "test", attr "bla foo" and keys "v1 v2" |
| Query.TokensQuery2 | web/query_test.go:9-48 | `user:test attr:bla foo` gives user "test" and attr "bla foo" |
| Query.TokensQuery1 | web/query_test.go:9-48 | `user:test` gives user "test" |
| Query.TokensSingleWord | web/query.go:93-96 | a one-word segment hands the waiting key "", so `a:b:c` gives a "" and b "c" |
| Query.TokensAgreeFrom | web/query.go:89-92 | the loop as written agrees with the intended one unless an earlier segment equals the last |
| Query.TokensAgree | web/query.go:82-107 | when no segment between the first and the last equals the last, the loop as written and the corrected tokenizer give the same pairs |
| Query.TokensAsWrittenStopsEarly | web/query.go:89-92 | on `k:x y:x y` the loop as written yields only k "x y", where the pairs are k "x", y "x y" |
| Query.AsWrittenRepeat | web/query.go:89-92 | for any key k and any ':'-free value v, the loop as written on `k:v:v` stops at once and gives only k = v |
| Query.IntendedRepeat | web/query.go:82-107 | on `k:v:v` with v = x + " " + y (k and y free of ':' and ' ', x free of ':'), the corrected tokenizer gives k = x and y = v even though the middle segment equals the last |
| Query.AdjustQuery | web/query.go:116-150 | the result is the adjustment of every pair: operator keys dropped, `_id` kept only as an ObjectID, resolved keys renamed with literal or regex values, unresolved keys passed through |
| Query.AdjustOne | web/query.go:119-145 | one loop pass files the pair's adjusted term under its target key, or drops it |
| Query.AdjustedUnique | web/query.go:131-144 | a kept pair whose target no other kept pair shares ends up under its target with its adjusted term |
| Query.AdjustedOperators | web/query.go:108-122 | a spec of `$` keys only (the free-text search) adjusts to the empty filter |
| Query.AdjustedIntegerValue | web/query.go:133-135 | a resolved key whose value prints as an integer keeps the value literally |
| Query.AdjustedUnknownKeys | web/query.go:141-144 | keys no schema knows pass through with their values |
| Query.JsonFilter | web/query.go:62-74 | the JSON filter has the decoded keys, all values as decoded but `_id` |
| Query.ConvertType | web/query.go:23-51 | non-strings are unchanged; a string becomes its Atoi integer, else a float, else (holding ',') its trimmed comma pieces, else stays itself |
| Query.ConvertIntText | web/query.go:28-33 | the decimal text of any 64-bit integer converts to that integer |
| Query.ConvertListText | web/query.go:40-46 | a comma-joined list of blank-free words that reads as no number converts to the words |
| Query.ConvertMinusSign | web/query.go:28-33 | "-" passes the integer pattern but stays a string |
| Query.Pieces | web/query.go:41-44 | one trimmed piece per comma-separated part |
| Patterns.PatternIntChars | web/regexp.go:13 | PatternInt iff non-empty, first a digit or '-', the rest digits |
| Patterns.PatternIntOneBranch | web/regexp.go:13 | the one-character alternative is subsumed by the other |
| Patterns.PatternIntItoa | web/regexp.go:13 | the decimal text of every integer matches |
| Patterns.PatternIntExamples | web/regexp_test.go:7-14 | "1", "-", "-12" match; "bla", "1-", "" do not |
| Patterns.PatternRunDigit | web/regexp.go:25 | PatternRun matches iff the text holds a digit |
| Patterns.PatternRunExamples | web/regexp_test.go:48-54 | "123" matches and "bla" does not |
| Patterns.DatasetPath | web/regexp.go:19 | any text containing "/x/y/z" of three words matches PatternDataset |
| Patterns.DatasetNeedsSlash | web/regexp.go:19 | a PatternDataset match needs a '/' |
| Patterns.PatternDatasetExamples | web/regexp_test.go:32-38 | "/a/b/c" matches and "bla" does not |
| Patterns.FileSuffix | web/regexp.go:22 | every PatternFile match ends in ".root" |
| Patterns.FilePath | web/regexp.go:22 | `dir/name.root` matches when the name starts with a word character and no newline occurs |
| Patterns.PatternFileExamples | web/regexp_test.go:40-46 | "/tmp/file.root" matches; "bla" and "/tmp/file.txt" do not |
| Patterns.UrlShortest | web/regexp.go:16 | a scheme directly followed by a final-class character is a match |
| Patterns.UrlNeedsScheme | web/regexp.go:16 | a PatternUrl match is at least eight characters long |
| Patterns.PatternUrlExamples | web/regexp.go:16 | "http://abc.com" and "https://x" match; "bla" and "http://" do not |
| Utils.FileNameFree | web/utils.go:32-37 | `fileName` holds neither '/' nor '.' |
| Utils.FileNameOfPath | web/utils.go:32-37 | `fileName(dir/base.ext)` is base |
| Utils.FindInList | web/utils.go:102-109 | true iff the probe occurs in the list |
| Utils.InList | web/utils.go:112-123 | true iff the probe occurs in the list |
| Utils.OccurrencesPositive | web/utils.go:112-123 | the count is positive iff the probe occurs |
| Utils.MapKeys | web/utils.go:126-133 | every record key once, ascending |
| Utils.EqualLists | web/utils.go:136-149 | true iff every element of the first list is in the second and the lengths agree |
| Utils.EqualListsIgnoresMultiplicity | web/utils.go:136-149 | ["a","a"] and ["a","b"] pass although their multisets differ |
| Utils.CheckEntries | web/utils.go:152-164 | true iff every element of the first list occurs in the second |
| Utils.CoveredPartLength | web/utils.go:152-164 | the collected elements number as many as the first list iff it is covered |
| Utils.List2Set | web/utils.go:201-209 | the output is the first occurrences in order |
| Utils.DedupSpec | web/utils.go:201-209 | no duplicates, exactly the input's members, in order of first occurrence |
| Utils.List2SetExample | web/utils_test.go:50-56 | ["a","b","c","a"] gives ["a","b","c"] |
| Utils.ExpireTimestampRange | web/utils.go:167-173 | `Expire` returns its argument iff its decimal text has ten characters, else `now + expire` |
| Utils.PageBoundsWindow | web/utils.go:457-467 | a page inside the results shows `min(limit, nres - startIdx)` results starting at `startIdx + 1` |
| Utils.LastPageStartIsLastMultiple | web/utils.go:489-497 | the last page starts at the largest multiple of `limit` below `nres` |
| Utils.LastPageIndex | web/utils.go:489-497 | the loop yields 0 without results, else the last page start |
| Utils.MakeURL | web/utils.go:476-501 | the link carries index 0 for first, `startIdx - limit` (0 at the start) for prev, `startIdx + limit` for next, the last page start for last |
| Utils.LastLoopNeverEnds | web/utils.go:489-494 | with a page size of at most 0 and at least one result, the loop counter stays below the number of results after any number of passes, so the "last" loop never ends |
| Utils.FullPathAbsolute | web/utils.go:511-519 | absolute names are kept, every result is absolute under an absolute working directory, and applying it twice changes nothing |
| Helpers.Username | web/helpers.go:27-50 | test mode gives "test"; no cookie is an error; otherwise a user iff the value holds exactly one '-', the user being the part before it |
| Helpers.CookieRoundTrip | web/handlers.go:142 | reading back a written `user-<flag>` cookie gives the user iff it holds no '-' |
| Helpers.ValidateData | web/helpers.go:134-147 | no schema iff the name is not a cache key; accepted iff the cached schema exists and the record conforms to it |
| Helpers.Stamped | web/helpers.go:191-195 | Date added only when absent, SchemaFile set to the name, Schema to its label, other keys unchanged |
| Helpers.Beamline | web/helpers.go:214-229 | a string beamline as it is, a list joined by '-' |
| Helpers.BeamlineSplit | web/helpers.go:214-226 | a list of names without '-' is recovered from the beamline |
| Helpers.ReadFields | web/helpers.go:197-239 | the location and dataset components, a non-string value of a present key being a failed assertion, missing ones drawn |
| Helpers.GatherStamped | web/helpers.go:191-239 | the stamped keys do not affect the components read |
| Helpers.DatasetSplit | web/filesdb.go:148-155 | the dataset name splits on '/' into 5 parts iff no component holds '/', and then gives back the components |
| Helpers.DatasetJoin | web/helpers.go:240-242 | the dataset name is the components joined by '/' after an empty first part |
| Helpers.DatasetCount | web/helpers.go:240-242 | the name holds four slashes of its own plus those of the components |
| Helpers.DatasetMatches | web/helpers.go:240-242 | word-like components give a name matching PatternDataset |
| Helpers.Enriched | web/helpers.go:191-276 | the record keeps every key, Date only added, SchemaFile the name, an existing did reused, and insertion succeeds only when the files and the upsert are stored |
| Helpers.Enrich | web/helpers.go:191-276 | the in-place enrichment steps give exactly the specified outcome and record |
| Helpers.InsertData | web/helpers.go:179-276 | a failed load or validation stops before the record changes; otherwise the record is enriched |
| Helpers.InsertDataAsWritten | web/helpers.go:179-190 | as written: a relative name not yet cached is never found by the validation lookup |
| Helpers.RelativeNotFiled | web/helpers.go:181-188 | renewing the joined path leaves a relative name unfiled |
| Helpers.RelativeNameMissed | web/helpers.go:181-188 | "schemas/test.json" under "/srv" is filed as "/srv/schemas/test.json" and not under its own name |
| Handlers.ParseValue | web/handlers.go:548-586 | an unknown key parses only in test mode for a skip key, else a no-key error; an empty item list panics only where an item is read |
| Handlers.ParseKeepsText | web/handlers.go:556-563 | list_str and the list_int/list_float types keep the items; string takes the first |
| Handlers.ParseBoolText | web/handlers.go:564-570 | a bool field reads back either flag's text |
| Handlers.ParseIntText | web/handlers.go:571-576 | an int-prefixed field reads back any 64-bit integer's text as an `int64` |
| Handlers.ParseUnhandledTypes | web/handlers.go:584-585 | "list" and "boolean" are parse errors |
| Handlers.ParsedTypes | web/handlers.go:556-576 | parsed list_str, string, bool and int64 values pass `validSchemaType`; parsed int and list_int values never do |
| Handlers.FirstContaining | web/handlers.go:601-606 | the first file containing the name, or the end |
| Handlers.SelectSchemaFile | web/handlers.go:600-606 | the loop picks the first configured file containing the name, "" if none |
| Handlers.EmptyNamePicksFirst | web/handlers.go:593-606 | an empty schema name picks the first file |
| Handlers.ZeroLimitNeverEnds | web/handlers.go:180-203 | the form value "0" is read as page size 0, and with at least one record the "last" loop it reaches never ends |
| Handlers.PageLimit | web/handlers.go:180-183 | the guarded page size is always positive; it is the page size as read exactly when that is positive, else the default 50 |
| Handlers.PageLimitLastPage | web/utils.go:489-497 | with the guarded page size the "last" link of a non-empty result is a page start below the number of results whose page holds the last result |
| Handlers.Visit | web/handlers.go:621-637 | a key stops the loop iff its value neither parsed nor failed on an optional key |
| Handlers.FillRecord | web/handlers.go:614-638 | every tolerated key stores its value or fallback next to Date, or the loop stops at a key that panics or is mandatory or unknown |
| Handlers.ProcessForm | web/handlers.go:589-641 | Date first; the schema is the first file naming SchemaName; a load failure returns just Date; otherwise the form keys but SchemaName are filled |
| Handlers.BoolChoicesOrder | web/handlers.go:367-373 | the choices are "", then the current flag, then the other; always the three values |
| Handlers.FormEntry | web/handlers.go:340-402 | the defaults for a key outside the section; otherwise list, bool and scalar values, the multiple flag, the description (or "Not Available") and the placeholder |
| Handlers.ListText | web/handlers.go:356-366 | the `%v` texts of a `[]any`, nothing for other values |
| Mongo.GetValue | web/mongo.go:112-113 | a key without '.' gives the record's value or nil |
| Mongo.GetValueStep | web/mongo.go:78-111 | a missing head gives ""; a record recurses; a record list uses its first row or gives ""; an empty `[]any` panics; other values give "" |
| Mongo.GetValueNested | web/mongo.go:87-110 | a two-level path reaches a value in a sub-record |
| Mongo.GetValueAnyListPanics | web/mongo.go:96-99 | a `[]any` whose first element is not a record panics |
| Mongo.SingleEntry | web/mongo.go:117-124 | the first element of a `[]any`, a panic when empty, any other value itself |
| Mongo.IntOfKind | web/mongo.go:141-158 | the value only when its dynamic type is exactly `int` or `int64`, else an error |
| Mongo.ToString | web/mongo.go:35-66 | the lines for the sorted keys, "_id" left out, joined by newlines |
| Mongo.ToStringLines | web/mongo.go:35-66 | one line per key other than "_id", in ascending order |
| Mongo.LinesFiltered | web/mongo.go:37-40 | skipping "_id" while rendering is rendering the filtered keys |
| Mongo.ToStringSplit | web/mongo.go:65 | splitting the text at newlines gives back the lines when none holds one |
| Mongo.ErrorRecord | web/mongo.go:69-75 | exactly the keys error, type and code, the texts escaped and the code the given `int` |
| Mongo.EscapeSafe | web/mongo.go:71-72 | escaped text holds no `<`, `>`, `"` or `'`, and text without the five special characters is unchanged |
| Server.BasePath | web/server.go:78-90 | an empty base leaves the route; a base gives a result starting with "/" |
| Server.BasePathSuffix | web/server.go:80-87 | the route follows a "/", without its own leading slash |
| Server.BasePathPrefix | web/server.go:84-87 | the result starts with the base, given a leading "/" if it has none |
| Server.BasePathLeadingSlash | web/server.go:80-83 | with a base, one leading slash of the route makes no difference |
| Server.BasePathOneSlash | web/server.go:80-83 | only one slash is removed: "//x" under "data" gives "/data//x" |
| GenerateSchema.CleanNones | GenerateSchema/generate_schema.py:23-37 | lists stay lists and dicts dicts, a dict keeps exactly its keys with non-None values, other values are unchanged |
| GenerateSchema.CleanNonesNoneFree | GenerateSchema/generate_schema.py:23-35 | no None remains inside any list or dict at any depth |
| GenerateSchema.CleanNonesFixed | GenerateSchema/generate_schema.py:23-37 | a value without None inside is returned unchanged |
| GenerateSchema.CleanNonesIdempotent | GenerateSchema/generate_schema.py:23-37 | cleaning twice is cleaning once |
| GenerateSchema.CleanNonesConcat | GenerateSchema/generate_schema.py:28-29 | surviving list elements keep their relative order |
| GenerateSchema.CleanNonesSingle | GenerateSchema/generate_schema.py:28-29 | a None element is dropped, any other is cleaned |
| GenJsonExample.PairsContents | GenerateSchema/gen_json_example.py:35-38 | the pairs build a dict iff every key is hashable; its keys are the pairs' keys, each holding its last pair's value |
| GenJsonExample.ConvertLaterWins | GenerateSchema/gen_json_example.py:35-38 | `a[2i]` maps to `a[2i+1]` unless a later pair repeats the key |
| GenJsonExample.ConvertRepeatedKey | GenerateSchema/gen_json_example.py:35-38 | a repeated key keeps the later value |
| GenJsonExample.ConvertTrailing | GenerateSchema/gen_json_example.py:35-38 | a trailing unpaired element is dropped |
| GenJsonExample.FromKeysContents | GenerateSchema/gen_json_example.py:53-55 | one entry per distinct key, each None |
| GenJsonExample.FromKeysConvert | GenerateSchema/gen_json_example.py:53-55 | `dict.fromkeys(ks, None)` equals `Convert` of the keys interleaved with None |
| AjaxUtils.NextWait | web/js/ajax_utils.js:6-13 | the new wait is `wait + 4000` below the limit, 2000 at the limit and the limit otherwise, including NaN, so it never exceeds 10000 |
| AjaxUtils.WaitCycle | web/js/ajax_utils.js:9-13 | from 2000 the waits cycle 2000, 6000, 10000 forever |
| AjaxUtils.ReachesLimit | web/js/ajax_utils.js:9-13 | from any whole-number wait the limit is reached after finitely many polls |

## Left out

- File, network and database I/O are not modelled. The file system is a map from path to what reading and decoding it gives. JSON and YAML decoding are taken as already done.
- Logging and the `Config.Verbose` output are not modelled.
- The storage calls `InsertFiles` and `MongoUpsert` are left out. Their success is an input to `Helpers.Enrich`.
- `InsertFiles` is defined with a different signature than `insertData` uses. The model follows the call.
- The clock (`time.Now`, `time.Since`) is the parameter `now`, read once per call.
- `randomString`, `uuid.NewRandom` and the millisecond fallback are drawn values in `Helpers.Environment`.
- Floating point is abstract. `strconv.ParseFloat`, `IsFloat` and `PatternFloat` are parameters; `PatternFloat` is not defined in any of the repository's files given here. The `%d`/`%f` rendering of floats in `ToString` is the parameter `floatText`.
- `filepath.Join` in `fullPath` and in the `/tmp/$USER` default is a plain join with "/"; `filepath.Clean` is not modelled.
- `strings.ToLower` folds ASCII letters only; Unicode case mapping is not modelled.
- `primitive.ObjectIDFromHex` is modelled as "24 hexadecimal digits"; the ObjectID value is the hex string.
- `Validate`, `Keys`, `MandatoryKeys`, `Sections` and `SectionKeys` re-run `Schema.Load` in the source. The model checks them against the map that is already loaded.
- The first loop of `processForm` stops at the key "SchemaName". It is modelled as a map lookup, which gives the same result.
- `log.Fatal` in the side-file decode of `Schema.Load` and in the schema checker ends the process. It is modelled as an error outcome.
- Query.ParseQuery: built on the corrected tokenizer (see Findings), so on a query whose middle segment equals the last it gives the intended pairs, not the truncated ones the loop as written gives; its contract states the as-written result only for queries without such a repeat.
- Utils.LastPageIndex, Utils.MakeURL: require a positive page size whenever there are results, because the source's loop does not end otherwise (see Findings); the counter is an unbounded integer, so the 64-bit wrap-around that would end the loop with a negative page size after about 2^63 / |limit| passes is not modelled.
- Schemas.ConvertYaml, Schemas.ConvertYamlSpec, Schemas.ConvertPrefixSpec: when distinct YAML keys print to the same `%v` text, Go's randomised map order decides which value is kept; the model takes the entries in document order and keeps the last one. Schemas.ConvertYamlAnyOrder states what holds for every order.
- Go panics are modelled as outcome values, not as the end of the process: the failed type assertions in `Schemas.ProjectYaml` and `Helpers.ReadFields`, the index into an empty `[]interface{}` in `Mongo.SingleEntry` and `Mongo.GetValue` (the `Panic` lookup), the failed list assertion in `SchemaTypes.ValidDataValue` (the `Panicked` verdict), the failed string assertion on `_id` in `Query.ParseQuery` (`IdPanic`) and the `items[0]` of an empty list in `Handlers.ParseValue` (`IndexPanic`).
- The appends in `Sections` may write through the configured slice's backing array. This aliasing is not modelled.
- The unsynchronised globals `_smgr` and `_schemaKeys`, and goroutine use, are not modelled.
- Template rendering, the HTTP handlers, routing, authentication, Kerberos and metrics are left out, and so is the HTML text of `makeURL` beyond its index and limit.
- Python: floats and NaN are not part of `PyValue`. Keys are compared structurally, so `True`/`1`/`1.0` key collisions are not modelled. A dict is a `map`, so insertion order is not kept.
- JavaScript: `parseInt` is its result, an integer or NaN. The precision limits of JavaScript numbers are not modelled.
- Schemas.Schema.Validate: which failing key is reported depends on Go's map order, so the contract says only that the reported key fails in the reported way.
- Query.AdjustQuery: when two spec keys resolve to the same schema key, which value wins depends on Go's map order, so the contract leaves it open.
- Schemas.Schema.Sections: without configured sections the order of the sections depends on Go's map order, so the contract states their multiset.

## Findings

| source | as written | input that shows it | evidently intended | confidence | as-written member | corrected member |
|---|---|---|---|---|---|---|
| web/query.go:89-92 | the tokenizer stops at the first segment whose text equals the last segment and gives that key the whole last segment | `k:x y:x y` gives only k = "x y" | the last segment is recognised by position, giving k = "x", y = "x y" | not executed | Query.TokensAsWrittenStopsEarly | Query.Tokenize, Query.ParseQuery |
| web/helpers.go:181-188 | `insertData` loads the schema under `fullPath(sname)` but `validateData` looks up the raw `sname` | a relative name "schemas/test.json" with working directory "/srv" and an empty cache gives "No schema found" | the record is validated against the schema just loaded | not executed | Helpers.InsertDataAsWritten | Helpers.InsertData |
| web/utils.go:489-494 | the "last" loop of `makeURL` steps by the page size, which `SearchHandler` reads from the request with no range check (web/handlers.go:180-183) | `/search?limit=0&query=...` with at least one matching record never returns | a page size of at most 0 is refused and replaced by the default 50 | not executed | Utils.LastLoopNeverEnds, Handlers.ZeroLimitNeverEnds | Handlers.PageLimit, Utils.LastPageIndex |
