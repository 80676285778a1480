/**
 * The configuration checks: `validate_config` against the template of required fields,
 * `set_resolution` and `build_extended_config` deriving the chunking sizes, and
 * `_sanitize_config` bounding the length of every key and string at any depth.
 *
 * A configuration is a JSON object. Python's `bool` is a subclass of `int`, so a flag passes
 * an `int` type test and compares as 0 or 1; the model keeps both facts.
 */
module Config {
  import opened Wrappers
  import Text
  import Seqs
  import Sorting

  /** A JSON value as `json.load` returns it; an object keeps its keys in order. */
  datatype Json =
    | Null
    | Flag(b: bool)
    | Num(n: int)
    | Real(r: real)
    | Str(s: string)
    | List(items: seq<Json>)
    | Dict(entries: seq<(string, Json)>)

  /** The keys of an object, in order. */
  function Keys(entries: seq<(string, Json)>): (ks: seq<string>)
    ensures |ks| == |entries| && forall i :: 0 <= i < |entries| ==> ks[i] == entries[i].0
  {
    seq(|entries|, i requires 0 <= i < |entries| => entries[i].0)
  }

  /** `config[k]`: the last value written under `k`. */
  function Lookup(entries: seq<(string, Json)>, k: string): (r: Option<Json>)
    ensures r.None? <==> k !in Keys(entries)
    ensures r.Some? ==> exists i :: 0 <= i < |entries| && entries[i] == (k, r.value)
  {
    if entries == [] then None
    else
      var last := entries[|entries| - 1];
      var init := entries[..|entries| - 1];
      assert forall x :: x in Keys(entries) <==> x in Keys(init) || x == last.0 by {
        assert forall i :: 0 <= i < |init| ==> Keys(entries)[i] == Keys(init)[i];
        assert Keys(entries) == Keys(init) + [last.0];
      }
      if last.0 == k then Some(last.1)
      else
        var r := Lookup(init, k);
        assert r.Some? ==> exists i :: 0 <= i < |init| && init[i] == (k, r.value);
        r
  }

  // ------------------------------------------------------------ validate_config

  /** The two Python types the template asks for. */
  datatype Kind = Text | Whole

  /** One entry of `CONFIG_TEMPLATE`. */
  datatype Field = Field(
    name: string,
    required: bool,
    kind: Kind,
    allowed: Option<seq<Json>>,
    range: Option<(int, int)>,
    allowEmpty: bool)

  const Template: seq<Field> := [
    Field("api_key", true, Text, None, None, false),
    Field("api", true, Text, Some([Str("openai")]), None, false),
    Field("doc_parser_tool", true, Text, None, None, true),
    Field("model", true, Text, Some([Str("gpt-5-mini"), Str("gpt-4o"), Str("gpt-4o-2024-11-20")]), None, false),
    Field("llm_timeout", true, Whole, None, Some((20, 120)), false),
    Field("max_concurrent_requests", true, Whole, None, Some((1, 100)), false)
  ]

  function Names(fs: seq<Field>): (ns: seq<string>)
    ensures |ns| == |fs| && forall i :: 0 <= i < |fs| ==> ns[i] == fs[i].name
  {
    seq(|fs|, i requires 0 <= i < |fs| => fs[i].name)
  }

  /** What `validate_config` reports. */
  datatype Problem =
    | Missing(fields: seq<string>)        // every missing required field, in template order
    | Unrecognized(fields: seq<string>)   // every unknown key, sorted
    | Bad(field: string, check: Check)     // the first check the field's value fails

  /** The per-field checks, in the order they run. */
  datatype Check = WrongType | Blank | NotAllowed | OutOfRange

  /** `isinstance(value, spec["type"])`; a flag is an `int`. */
  predicate HasType(k: Kind, v: Json) {
    match k
    case Text => v.Str?
    case Whole => v.Num? || v.Flag?
  }

  /** `min_val <= value <= max_val` for a number (a flag counts as 0 or 1). */
  predicate InRange(lo: int, hi: int, v: Json) {
    match v
    case Num(n) => lo <= n <= hi
    case Flag(b) => lo <= (if b then 1 else 0) <= hi
    case Real(r) => lo as real <= r <= hi as real
    case _ => true
  }

  /** The checks of one field, in the order the loop runs them; each field reports at most once. */
  function FieldProblem(f: Field, v: Json): (p: Option<Problem>)
    ensures p.Some? ==> p.value.Bad? && p.value.field == f.name
  {
    if !HasType(f.kind, v) then Some(Bad(f.name, WrongType))
    else if !f.allowEmpty && v == Str("") then Some(Bad(f.name, Blank))
    else if f.allowed.Some? && v !in f.allowed.value then Some(Bad(f.name, NotAllowed))
    else if f.range.Some? && !InRange(f.range.value.0, f.range.value.1, v) then Some(Bad(f.name, OutOfRange))
    else None
  }

  /** A value the template accepts: all four conditions at once. */
  predicate Acceptable(f: Field, v: Json) {
    && HasType(f.kind, v)
    && (f.allowEmpty || v != Str(""))
    && (f.allowed.None? || v in f.allowed.value)
    && (f.range.None? || InRange(f.range.value.0, f.range.value.1, v))
  }

  /** A field reports a problem exactly when its value is not acceptable. */
  lemma FieldProblemAcceptable(f: Field, v: Json)
    ensures FieldProblem(f, v).None? <==> Acceptable(f, v)
  {
  }

  /** The required fields of `fs` that `config` lacks, in order. */
  function MissingFields(fs: seq<Field>, config: seq<(string, Json)>): (ms: seq<string>)
    ensures forall m :: m in ms <==> exists f :: f in fs && f.required && f.name == m && m !in Keys(config)
  {
    if fs == [] then []
    else
      assert forall f :: f in fs <==> f == fs[0] || f in fs[1..];
      (if fs[0].required && fs[0].name !in Keys(config) then [fs[0].name] else []) + MissingFields(fs[1..], config)
  }

  /** A key the template `fs` does not know (`config_file` is let through when asked). */
  predicate Unknown(fs: seq<Field>, k: string, ignoreConfigFile: bool) {
    k !in Names(fs) && !(ignoreConfigFile && k == "config_file")
  }

  /** The unknown keys of `config`, sorted, each once. */
  function Extras(fs: seq<Field>, config: seq<(string, Json)>, ignoreConfigFile: bool): (xs: seq<string>)
    ensures Sorting.StrictlySorted(xs, Sorting.StrLess)
    ensures forall k :: k in xs <==> k in Keys(config) && Unknown(fs, k, ignoreConfigFile)
  {
    Sorting.SortedStrings(Seqs.Filter(Keys(config), (k: string) => Unknown(fs, k, ignoreConfigFile)))
  }

  /** The problems of the fields `fs`, in order. */
  function FieldProblems(fs: seq<Field>, config: seq<(string, Json)>): (ps: seq<Problem>)
    requires forall f :: f in fs ==> f.name in Keys(config)
    ensures |ps| <= |fs|
    ensures forall p :: p in ps ==> p.Bad? && exists f :: f in fs && p.field == f.name
  {
    if fs == [] then []
    else
      var p := FieldProblem(fs[0], Lookup(config, fs[0].name).value);
      var rest := FieldProblems(fs[1..], config);
      assert forall f :: f in fs[1..] ==> f in fs;
      (if p.Some? then [p.value] else []) + rest
  }

  /** Every field of `fs` is required. */
  predicate AllRequired(fs: seq<Field>) {
    forall f :: f in fs ==> f.required
  }

  /** The checks of `validate_config` against the template `fs` (whose fields are all required, as
      they are in `CONFIG_TEMPLATE`): `None` when the configuration is valid, otherwise its problems. */
  function ValidateWith(fs: seq<Field>, config: seq<(string, Json)>, ignoreConfigFile: bool): (r: Option<seq<Problem>>)
    requires AllRequired(fs)
    ensures r.Some? ==> r.value != []
  {
    var missing := MissingFields(fs, config);
    if missing != [] then Some([Missing(missing)])
    else
      var extra := Extras(fs, config, ignoreConfigFile);
      if extra != [] then Some([Unrecognized(extra)])
      else
        var ps := FieldProblems(fs, config);
        if ps == [] then None else Some(ps)
  }

  /** Every template field is required. */
  lemma TemplateRequired()
    ensures AllRequired(Template)
  {
  }

  /** The template's field names are distinct. */
  lemma TemplateNamesDistinct()
    ensures NamesOnce(Template)
  {
  }

  /** `validate_config`. */
  function Validate(config: seq<(string, Json)>, ignoreConfigFile: bool): (r: Option<seq<Problem>>)
    ensures r.Some? ==> r.value != []
  {
    TemplateRequired();
    ValidateWith(Template, config, ignoreConfigFile)
  }

  /** A configuration the checks against `fs` accept: every field present with an acceptable value,
      and no other key. */
  ghost predicate Valid(fs: seq<Field>, config: seq<(string, Json)>, ignoreConfigFile: bool) {
    && (forall f :: f in fs ==> Lookup(config, f.name).Some? && Acceptable(f, Lookup(config, f.name).value))
    && (forall k :: k in Keys(config) ==> !Unknown(fs, k, ignoreConfigFile))
  }

  /** The field checks find nothing exactly when every value is acceptable. */
  lemma {:induction false} FieldProblemsNone(fs: seq<Field>, config: seq<(string, Json)>)
    requires forall f :: f in fs ==> f.name in Keys(config)
    ensures FieldProblems(fs, config) == [] <==> forall f :: f in fs ==> Acceptable(f, Lookup(config, f.name).value)
  {
    if fs != [] {
      assert forall f :: f in fs <==> f == fs[0] || f in fs[1..];
      FieldProblemsNone(fs[1..], config);
      FieldProblemAcceptable(fs[0], Lookup(config, fs[0].name).value);
    }
  }

  /** Every field with a problem has it reported. */
  lemma {:induction false} FieldProblemsReported(fs: seq<Field>, config: seq<(string, Json)>)
    requires forall f :: f in fs ==> f.name in Keys(config)
    ensures forall f :: f in fs && FieldProblem(f, Lookup(config, f.name).value).Some? ==>
      FieldProblem(f, Lookup(config, f.name).value).value in FieldProblems(fs, config)
  {
    if fs != [] {
      assert forall f :: f in fs <==> f == fs[0] || f in fs[1..];
      FieldProblemsReported(fs[1..], config);
    }
  }

  /** Distinct names. */
  ghost predicate NamesOnce(fs: seq<Field>) {
    forall i, j :: 0 <= i < j < |fs| ==> fs[i].name != fs[j].name
  }

  /** No field is reported twice. */
  ghost predicate ReportedOnce(ps: seq<Problem>) {
    forall i, j :: 0 <= i < j < |ps| && ps[i].Bad? && ps[j].Bad? ==> ps[i].field != ps[j].field
  }

  lemma ReportedOnceCons(p: Problem, ps: seq<Problem>)
    requires ReportedOnce(ps)
    requires p.Bad? && forall q :: q in ps && q.Bad? ==> q.field != p.field
    ensures ReportedOnce([p] + ps)
  {
    var r := [p] + ps;
    forall i, j | 0 <= i < j < |r| && r[i].Bad? && r[j].Bad? ensures r[i].field != r[j].field {
      assert r[j] == ps[j - 1];
      if i > 0 {
        assert r[i] == ps[i - 1];
      }
    }
  }

  /** With distinct field names, no field is reported twice. */
  lemma {:induction false} FieldProblemsOnce(fs: seq<Field>, config: seq<(string, Json)>)
    requires forall f :: f in fs ==> f.name in Keys(config)
    requires NamesOnce(fs)
    ensures ReportedOnce(FieldProblems(fs, config))
  {
    if fs != [] {
      var rest := fs[1..];
      assert forall f :: f in rest ==> f in fs;
      assert NamesOnce(rest) by {
        forall i, j | 0 <= i < j < |rest| ensures rest[i].name != rest[j].name {
          assert rest[i] == fs[i + 1] && rest[j] == fs[j + 1];
        }
      }
      FieldProblemsOnce(rest, config);
      var tail := FieldProblems(rest, config);
      forall q | q in tail && q.Bad? ensures q.field != fs[0].name {
        var f :| f in rest && q.field == f.name;
        var k :| 0 <= k < |rest| && rest[k] == f;
        assert fs[k + 1] == f;
      }
      var p := FieldProblem(fs[0], Lookup(config, fs[0].name).value);
      if p.Some? {
        ReportedOnceCons(p.value, tail);
      } else {
        assert FieldProblems(fs, config) == tail;
      }
    }
  }

  lemma NoneMissing(fs: seq<Field>, config: seq<(string, Json)>)
    requires forall f :: f in fs ==> f.name in Keys(config)
    ensures MissingFields(fs, config) == []
  {
  }

  lemma NoneUnknown(fs: seq<Field>, config: seq<(string, Json)>, ignoreConfigFile: bool)
    requires forall k :: k in Keys(config) ==> !Unknown(fs, k, ignoreConfigFile)
    ensures Extras(fs, config, ignoreConfigFile) == []
  {
    Seqs.SameMembersEmpty(Extras(fs, config, ignoreConfigFile), []);
  }

  /** A missing field yields exactly one problem, naming every missing field; otherwise no problem is
      about missing fields. */
  lemma ValidateMissing(fs: seq<Field>, config: seq<(string, Json)>, ignoreConfigFile: bool)
    requires AllRequired(fs)
    ensures var r := ValidateWith(fs, config, ignoreConfigFile);
      && ((exists f :: f in fs && f.name !in Keys(config)) <==> r.Some? && r.value[0].Missing?)
      && (r.Some? && r.value[0].Missing? ==>
            |r.value| == 1 && forall m :: m in r.value[0].fields <==> m in Names(fs) && m !in Keys(config))
  {
    var missing := MissingFields(fs, config);
    if missing == [] {
      forall f | f in fs ensures f.name in Keys(config) {
        assert f.name !in Keys(config) ==> f.name in missing;
      }
      var r := ValidateWith(fs, config, ignoreConfigFile);
      if r.Some? {
        assert r.value[0] in r.value;
      }
    } else {
      assert missing[0] in missing;
    }
  }

  /** With no field missing, unknown keys yield exactly one problem listing each of them once,
      sorted; `config_file` counts as unknown only without the flag. */
  lemma ValidateUnknown(fs: seq<Field>, config: seq<(string, Json)>, ignoreConfigFile: bool)
    requires AllRequired(fs)
    requires forall f :: f in fs ==> f.name in Keys(config)
    ensures var r := ValidateWith(fs, config, ignoreConfigFile);
      && ((exists k :: k in Keys(config) && Unknown(fs, k, ignoreConfigFile)) <==> r.Some? && r.value[0].Unrecognized?)
      && (r.Some? && r.value[0].Unrecognized? ==>
            && |r.value| == 1
            && Sorting.StrictlySorted(r.value[0].fields, Sorting.StrLess)
            && forall k :: k in r.value[0].fields <==> k in Keys(config) && Unknown(fs, k, ignoreConfigFile))
  {
    NoneMissing(fs, config);
    var r := ValidateWith(fs, config, ignoreConfigFile);
    var extra := Extras(fs, config, ignoreConfigFile);
    if extra == [] {
      forall k | k in Keys(config) ensures !Unknown(fs, k, ignoreConfigFile) {
        assert Unknown(fs, k, ignoreConfigFile) ==> k in extra;
      }
      if r.Some? {
        assert r.value[0] in r.value;
      }
    } else {
      assert extra[0] in extra;
    }
  }

  /** The checks return `None` exactly for the valid configurations. */
  lemma ValidateNone(fs: seq<Field>, config: seq<(string, Json)>, ignoreConfigFile: bool)
    requires AllRequired(fs)
    ensures ValidateWith(fs, config, ignoreConfigFile).None? <==> Valid(fs, config, ignoreConfigFile)
  {
    var missing := MissingFields(fs, config);
    if missing == [] {
      FieldProblemsNone(fs, config);
      var extra := Extras(fs, config, ignoreConfigFile);
      if extra != [] {
        assert extra[0] in extra;
      }
    } else {
      assert missing[0] in missing;
    }
  }

  /** Once keys are in order, every field with a problem is reported, each field at most once. */
  lemma ValidateFields(fs: seq<Field>, config: seq<(string, Json)>, ignoreConfigFile: bool)
    requires AllRequired(fs)
    requires NamesOnce(fs)
    requires forall f :: f in fs ==> f.name in Keys(config)
    requires forall k :: k in Keys(config) ==> !Unknown(fs, k, ignoreConfigFile)
    ensures var r := ValidateWith(fs, config, ignoreConfigFile);
      var ps := if r.Some? then r.value else [];
      && (forall f :: f in fs && FieldProblem(f, Lookup(config, f.name).value).Some? ==>
            FieldProblem(f, Lookup(config, f.name).value).value in ps)
      && (forall p :: p in ps ==> p.Bad? && p.field in Names(fs))
      && ReportedOnce(ps)
  {
    NoneMissing(fs, config);
    NoneUnknown(fs, config, ignoreConfigFile);
    FieldProblemsReported(fs, config);
    FieldProblemsOnce(fs, config);
  }

  /** The order of the checks shows: a blank `int` is a type error, a blank model name is blank before
      it is unknown, a flag is an `int` and is 1, and a float is not an `int`. */
  lemma CheckOrder()
    ensures FieldProblem(Template[4], Str("")) == Some(Bad("llm_timeout", WrongType))
    ensures FieldProblem(Template[3], Str("")) == Some(Bad("model", Blank))
    ensures FieldProblem(Template[4], Flag(true)) == Some(Bad("llm_timeout", OutOfRange))
    ensures FieldProblem(Template[5], Flag(true)) == None
    ensures FieldProblem(Template[4], Real(60.0)) == Some(Bad("llm_timeout", WrongType))
    ensures FieldProblem(Template[2], Str("")) == None
  {
  }

  /** `validate_config` returns `None` exactly for the valid configurations. */
  lemma ValidateAccepts(config: seq<(string, Json)>, ignoreConfigFile: bool)
    ensures Validate(config, ignoreConfigFile).None? <==> Valid(Template, config, ignoreConfigFile)
  {
    TemplateRequired();
    ValidateNone(Template, config, ignoreConfigFile);
  }

  // ------------------------------------------------------------ set_resolution, build_extended_config

  /** A configuration after loading, as a dictionary. */
  type Settings = map<string, Json>

  /** Why `set_resolution` raises: a key it reads is missing (`KeyError`) or is not a number
      (`TypeError`). */
  datatype SetupError = MissingKey(key: string) | NotNumber(key: string)

  /** A number as Python compares and adds it (a flag is 0 or 1). */
  function AsNumber(v: Json): Option<real> {
    match v
    case Num(n) => Some(n as real)
    case Flag(b) => Some(if b then 1.0 else 0.0)
    case Real(r) => Some(r)
    case _ => None
  }

  /** Python's `int()` on a number: truncation toward zero. */
  function Trunc(x: real): (n: int)
    ensures n as real <= x < n as real + 1.0 || n as real - 1.0 < x <= n as real
    ensures x >= 0.0 ==> n >= 0
  {
    if x >= 0.0 then x.Floor else -((-x).Floor)
  }

  /** The number stored under `key`. */
  function Read(c: Settings, key: string): (r: Result<real, SetupError>)
    ensures r.Success? <==> key in c && AsNumber(c[key]).Some?
  {
    if key !in c then Failure(MissingKey(key))
    else match AsNumber(c[key])
      case None => Failure(NotNumber(key))
      case Some(x) => Success(x)
  }

  /** The token budget with padding: twice the chunk with `padding` chunks on each side. */
  function PaddedBudget(chunk: real, padding: real): int {
    2 * Trunc(chunk + 2.0 * padding * chunk)
  }

  /** The token budget without padding: three times the chunk with the overlap on each side. */
  function OverlapBudget(chunk: real): int {
    3 * Trunc(chunk + 2.0 * 100.0)
  }

  /** The presets of `set_resolution`. */
  function Preset(c: Settings, resolution: string): Settings {
    if resolution == "normal" then c["resolution_state" := Str("normal")]["chunk_size" := Num(1000)]["padding_size" := Num(0)]
    else if resolution == "high" then c["resolution_state" := Str("high")]["chunk_size" := Num(300)]["padding_size" := Num(1)]
    else c
  }

  /** The second half of `set_resolution`: the token budget from the sizes. */
  function Derive(c: Settings): (r: Result<Settings, SetupError>)
    ensures r.Success? <==> Read(c, "padding_size").Success? && Read(c, "chunk_size").Success?
    ensures r.Success? ==> r.value.Keys == c.Keys + {"max_tokens"} + (if Read(c, "padding_size").value > 0.0 then {} else {"overlap"})
    ensures r.Success? ==> forall k :: k in c && k != "overlap" && k != "max_tokens" ==> r.value[k] == c[k]
  {
    match Read(c, "padding_size")
    case Failure(e) => Failure(e)
    case Success(padding) =>
      match Read(c, "chunk_size")
      case Failure(e) => Failure(e)
      case Success(chunk) =>
        if padding > 0.0 then Success(c["max_tokens" := Num(PaddedBudget(chunk, padding))])
        else Success(c["overlap" := Num(100)]["max_tokens" := Num(OverlapBudget(chunk))])
  }

  /** `set_resolution`: the "normal" and "high" presets set the chunk and padding sizes; then the
      token budget is derived from them: twice the chunk with its padding when padding is on,
      otherwise three times the chunk with an overlap of 100 on each side. */
  function SetResolution(c: Settings, resolution: string): (r: Result<Settings, SetupError>)
    ensures resolution == "normal" ==> r.Success? && r.value == c["resolution_state" := Str("normal")]
      ["chunk_size" := Num(1000)]["padding_size" := Num(0)]["overlap" := Num(100)]["max_tokens" := Num(3600)]
    ensures resolution == "high" ==> r.Success? && r.value == c["resolution_state" := Str("high")]
      ["chunk_size" := Num(300)]["padding_size" := Num(1)]["max_tokens" := Num(1800)]
  {
    Derive(Preset(c, resolution))
  }

  /** Deriving the budget again from the same sizes gives the same settings. */
  lemma DeriveAgain(c: Settings)
    requires Derive(c).Success?
    ensures Derive(Derive(c).value) == Derive(c)
  {
    var r := Derive(c).value;
    assert Read(r, "padding_size") == Read(c, "padding_size");
    assert Read(r, "chunk_size") == Read(c, "chunk_size");
    Rewrite(r, "max_tokens", r["max_tokens"]);
    if "overlap" in r {
      Rewrite(r, "overlap", r["overlap"]);
    }
  }

  /** A preset applied to settings that already have it changes nothing. */
  lemma PresetAgain(c: Settings, resolution: string)
    requires Derive(Preset(c, resolution)).Success?
    ensures Preset(Derive(Preset(c, resolution)).value, resolution) == Derive(Preset(c, resolution)).value
  {
    var r := Derive(Preset(c, resolution)).value;
    if resolution == "normal" {
      Rewrite(r, "resolution_state", Str("normal"));
      Rewrite(r, "chunk_size", Num(1000));
      Rewrite(r, "padding_size", Num(0));
    } else if resolution == "high" {
      Rewrite(r, "resolution_state", Str("high"));
      Rewrite(r, "chunk_size", Num(300));
      Rewrite(r, "padding_size", Num(1));
    }
  }

  /** Writing a value that is already there changes nothing. */
  lemma Rewrite(m: Settings, k: string, v: Json)
    requires k in m && m[k] == v
    ensures m[k := v] == m
  {
  }

  /** Setting the same resolution again changes nothing. */
  lemma SetResolutionIdempotent(c: Settings, resolution: string)
    requires SetResolution(c, resolution).Success?
    ensures SetResolution(SetResolution(c, resolution).value, resolution) == SetResolution(c, resolution)
  {
    PresetAgain(c, resolution);
    DeriveAgain(Preset(c, resolution));
  }

  /** Any other resolution keeps the sizes and fails exactly when one of them is missing or not a
      number; every key but the overlap and the token budget is kept. */
  lemma SetResolutionOther(c: Settings, resolution: string)
    requires resolution != "normal" && resolution != "high"
    ensures var r := SetResolution(c, resolution);
      && (r.Success? <==> Read(c, "padding_size").Success? && Read(c, "chunk_size").Success?)
      && (r.Success? ==> forall k :: k in c && k != "overlap" && k != "max_tokens" ==> k in r.value && r.value[k] == c[k])
      && (r.Success? ==> "max_tokens" in r.value && r.value["max_tokens"].Num?)
  {
  }

  /** The internal settings `build_extended_config` adds. */
  const Internal: Settings := map[
    "temperature" := Num(0),
    "top_p" := Real(0.3),
    "output_folder" := Str("output_graphs"),
    "internal_data_dir" := Str("data_cache"),
    "temp_txt_file" := Str("tmp.dat"),
    "db_filename" := Str("data.dat"),
    "optimization_on" := Flag(true)]

  /** `build_extended_config`: the user's settings with the internal ones over them, at the normal
      resolution. */
  function BuildExtended(c: Option<Settings>): (r: Option<Settings>)
    ensures r.None? <==> c.None?
  {
    match c
    case None => None
    case Some(user) => Some(SetResolution(user + Internal, "normal").value)
  }

  /** The normal preset leaves every key outside the sizes as it was and fixes the sizes. */
  lemma NormalSpec(u: Settings)
    ensures var r := SetResolution(u, "normal").value;
      && (forall k :: k in u && k !in SizeKeys ==> k in r && r[k] == u[k])
      && r["chunk_size"] == Num(1000) && r["padding_size"] == Num(0)
      && r["overlap"] == Num(100) && r["max_tokens"] == Num(3600)
  {
  }

  /** The internal settings never collide with the sizes. */
  lemma InternalApart()
    ensures Internal.Keys !! SizeKeys
  {
  }

  /** Overlaying settings apart from the sizes and then setting the normal resolution keeps the
      overlay and the untouched user keys. */
  lemma OverlaySpec(c: Settings, over: Settings)
    requires over.Keys !! SizeKeys
    ensures var r := SetResolution(c + over, "normal").value;
      && (forall k :: k in c && k !in over && k !in SizeKeys ==> k in r && r[k] == c[k])
      && (forall k :: k in over ==> k in r && r[k] == over[k])
  {
    NormalSpec(c + over);
  }

  /** An extended configuration keeps every user key that is not internal or a size, has the internal
      values, and the normal sizes. */
  lemma BuildExtendedSpec(c: Settings)
    ensures var r := BuildExtended(Some(c)).value;
      && (forall k :: k in c && k !in Internal && k !in SizeKeys ==> k in r && r[k] == c[k])
      && (forall k :: k in Internal ==> k in r && r[k] == Internal[k])
      && r["chunk_size"] == Num(1000) && r["padding_size"] == Num(0)
      && r["overlap"] == Num(100) && r["max_tokens"] == Num(3600)
  {
    InternalApart();
    OverlaySpec(c, Internal);
    NormalSpec(c + Internal);
  }

  /** The keys `set_resolution` may write. */
  const SizeKeys: set<string> := {"resolution_state", "chunk_size", "padding_size", "overlap", "max_tokens"}

  /** Why `_sanitize_config` refuses a configuration: the dotted path of the offending entry. */
  datatype Violation = KeyTooLong(path: string) | ValueTooLong(path: string)

  /** The number of entries or items a container has; scalars have none. */
  function Width(v: Json): nat {
    match v
    case Dict(es) => |es|
    case List(items) => |items|
    case _ => 0
  }

  /** The path of a child: `parent.key` inside an object, `parent[i]` inside a list. */
  function KeyPath(parent: string, k: string): string {
    parent + "." + k
  }

  function IndexPath(parent: string, i: nat): string {
    parent + "[" + Text.NatToString(i) + "]"
  }

  /** A child checked on its own: a container is searched recursively, a string is measured,
      anything else passes. */
  function ChildOversize(x: Json, km: nat, vm: nat, p: string): (r: Option<Violation>)
    decreases x, 1, 0
  {
    if x.Dict? || x.List? then Oversize(x, km, vm, p, 0)
    else if x.Str? && |x.s| > vm then Some(ValueTooLong(p))
    else None
  }

  /** The first violation among the children of `v` from position `from` on, in iteration order;
      inside an object the key is checked before its value. */
  function Oversize(v: Json, km: nat, vm: nat, path: string, from: nat): (r: Option<Violation>)
    decreases v, 0, Width(v) - from
  {
    if from >= Width(v) then None
    else
      match v
      case Dict(es) =>
        var k := es[from].0;
        if |k| > km then Some(KeyTooLong(KeyPath(path, k)))
        else
          var inner := ChildOversize(es[from].1, km, vm, KeyPath(path, k));
          if inner.Some? then inner else Oversize(v, km, vm, path, from + 1)
      case List(items) =>
        var inner := ChildOversize(items[from], km, vm, IndexPath(path, from));
        if inner.Some? then inner else Oversize(v, km, vm, path, from + 1)
  }

  /** `_sanitize_config` with its default limits: keys up to 128 characters, strings up to 1024. */
  function SanitizeConfig(c: Json): (r: Option<Violation>)
    ensures Below(r, "root")
  {
    OversizePath(c, 128, 1024, "root", 0);
    Oversize(c, 128, 1024, "root", 0)
  }

  /** Every key and every string below `v` is within the limits; a string at the top is not
      measured, since only children are. */
  predicate Fits(v: Json, km: nat, vm: nat)
    decreases v, 0
  {
    match v
    case Dict(es) => forall e | e in es :: |e.0| <= km && ChildFits(e.1, km, vm)
    case List(items) => forall x | x in items :: ChildFits(x, km, vm)
    case _ => true
  }

  predicate ChildFits(x: Json, km: nat, vm: nat)
    decreases x, 1
  {
    if x.Dict? || x.List? then Fits(x, km, vm) else !(x.Str? && |x.s| > vm)
  }

  /** The children of `v` from `from` on fit. */
  predicate FitsFrom(v: Json, km: nat, vm: nat, from: nat) {
    match v
    case Dict(es) => forall i | from <= i < |es| :: |es[i].0| <= km && ChildFits(es[i].1, km, vm)
    case List(items) => forall i | from <= i < |items| :: ChildFits(items[i], km, vm)
    case _ => true
  }

  /** No violation is reported exactly when everything fits. */
  lemma {:induction false} OversizeNoneIffFits(v: Json, km: nat, vm: nat, path: string, from: nat)
    ensures Oversize(v, km, vm, path, from).None? <==> FitsFrom(v, km, vm, from)
    decreases v, 0, Width(v) - from
  {
    if from < Width(v) {
      OversizeNoneIffFits(v, km, vm, path, from + 1);
      match v
      case Dict(es) =>
        ChildNoneIffFits(es[from].1, km, vm, KeyPath(path, es[from].0));
      case List(items) =>
        ChildNoneIffFits(items[from], km, vm, IndexPath(path, from));
    }
  }

  lemma {:induction false} ChildNoneIffFits(x: Json, km: nat, vm: nat, p: string)
    ensures ChildOversize(x, km, vm, p).None? <==> ChildFits(x, km, vm)
    decreases x, 1
  {
    if x.Dict? || x.List? {
      OversizeNoneIffFits(x, km, vm, p, 0);
      FitsFromZero(x, km, vm);
    }
  }

  /** Fitting from the first child is fitting. */
  lemma FitsFromZero(v: Json, km: nat, vm: nat)
    ensures FitsFrom(v, km, vm, 0) <==> Fits(v, km, vm)
  {
    match v
    case Dict(es) =>
      if FitsFrom(v, km, vm, 0) {
        forall e | e in es ensures |e.0| <= km && ChildFits(e.1, km, vm) {
          var i :| 0 <= i < |es| && es[i] == e;
        }
      }
    case List(items) =>
      if FitsFrom(v, km, vm, 0) {
        forall x | x in items ensures ChildFits(x, km, vm) {
          var i :| 0 <= i < |items| && items[i] == x;
        }
      }
    case _ =>
  }

  /** `_sanitize_config` accepts exactly the configurations whose keys and strings all fit. */
  lemma SanitizeConfigAccepts(c: Json)
    ensures SanitizeConfig(c).None? <==> Fits(c, 128, 1024)
  {
    OversizeNoneIffFits(c, 128, 1024, "root", 0);
    FitsFromZero(c, 128, 1024);
  }

  /** A reported violation names a path below the container it was found in. */
  lemma {:induction false} OversizePath(v: Json, km: nat, vm: nat, path: string, from: nat)
    ensures Below(Oversize(v, km, vm, path, from), path)
    decreases v, 0, Width(v) - from
  {
    if from < Width(v) {
      if Oversize(v, km, vm, path, from) == Oversize(v, km, vm, path, from + 1) {
        OversizePath(v, km, vm, path, from + 1);
      } else {
        match v
        case Dict(es) =>
          var k := es[from].0;
          if |k| > km {
            assert KeyPath(path, k)[..|path|] == path;
          } else {
            ChildPath(es[from].1, km, vm, KeyPath(path, k));
            PrefixChain(ChildOversize(es[from].1, km, vm, KeyPath(path, k)), path, "." + k);
          }
        case List(items) =>
          ChildPath(items[from], km, vm, IndexPath(path, from));
          PrefixChain(ChildOversize(items[from], km, vm, IndexPath(path, from)), path, "[" + Text.NatToString(from) + "]");
      }
    }
  }

  /** A reported path, if any, extends `p` strictly. */
  predicate Below(r: Option<Violation>, p: string) {
    r.Some? ==> Text.StartsWith(r.value.path, p) && |r.value.path| > |p|
  }

  /** A reported path, if any, extends `p` or is `p`. */
  predicate AtOrBelow(r: Option<Violation>, p: string) {
    r.Some? ==> Text.StartsWith(r.value.path, p)
  }

  /** A path below `p + t`, with `t` not empty, is strictly below `p`. */
  lemma PrefixChain(r: Option<Violation>, p: string, t: string)
    requires t != []
    requires AtOrBelow(r, p + t)
    ensures Below(r, p)
  {
    if r.Some? {
      assert r.value.path[..|p|] == (p + t)[..|p|];
    }
  }

  lemma {:induction false} ChildPath(x: Json, km: nat, vm: nat, p: string)
    ensures AtOrBelow(ChildOversize(x, km, vm, p), p)
    decreases x, 1
  {
    if x.Dict? || x.List? {
      OversizePath(x, km, vm, p, 0);
    }
  }

  /** Raising the limits never turns an accepted configuration into a refused one. */
  lemma {:induction false} FitsMonotone(v: Json, km: nat, vm: nat, km2: nat, vm2: nat)
    requires km <= km2 && vm <= vm2 && Fits(v, km, vm)
    ensures Fits(v, km2, vm2)
    decreases v, 0
  {
    match v
    case Dict(es) =>
      forall e | e in es ensures |e.0| <= km2 && ChildFits(e.1, km2, vm2) {
        ChildFitsMonotone(e.1, km, vm, km2, vm2);
      }
    case List(items) =>
      forall x | x in items ensures ChildFits(x, km2, vm2) {
        ChildFitsMonotone(x, km, vm, km2, vm2);
      }
    case _ =>
  }

  lemma {:induction false} ChildFitsMonotone(x: Json, km: nat, vm: nat, km2: nat, vm2: nat)
    requires km <= km2 && vm <= vm2 && ChildFits(x, km, vm)
    ensures ChildFits(x, km2, vm2)
    decreases x, 1
  {
    if x.Dict? || x.List? {
      FitsMonotone(x, km, vm, km2, vm2);
    }
  }

  /** Within one entry the key is measured before the value, and the path names the nesting. */
  lemma SanitizeConfigOrder(k: string, s: string)
    requires |s| > 1024
    ensures |k| > 128 ==> SanitizeConfig(Dict([(k, Str(s))])) == Some(KeyTooLong("root." + k))
    ensures |k| <= 128 ==> SanitizeConfig(Dict([(k, List([Str(s)]))])) == Some(ValueTooLong("root." + k + "[0]"))
    ensures SanitizeConfig(Str(s)) == None
  {
    assert KeyPath("root", k) == "root." + k;
    var d := Dict([(k, Str(s))]);
    assert Oversize(d, 128, 1024, "root", 0) == if |k| > 128 then Some(KeyTooLong(KeyPath("root", k))) else Some(ValueTooLong(KeyPath("root", k)));
    if |k| <= 128 {
      var inner := List([Str(s)]);
      assert Text.NatToString(0) == "0";
      assert IndexPath(KeyPath("root", k), 0) == "root." + k + "[0]";
      assert Oversize(inner, 128, 1024, KeyPath("root", k), 0) == Some(ValueTooLong(IndexPath(KeyPath("root", k), 0)));
      assert ChildOversize(inner, 128, 1024, KeyPath("root", k)) == Some(ValueTooLong("root." + k + "[0]"));
    }
  }
}
