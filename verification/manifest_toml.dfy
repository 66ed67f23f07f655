/**
  Turning a deserialised TOML manifest into the manifest data model
  (src/manifest_toml.rs). The input is what `toml::from_str` yields for the
  manifest text: either an error, or the top-level table with each entry of
  the `values` and `templates` sections already matched against the shapes
  below.
*/
module ManifestToml {
  import opened Wrappers
  import opened BTreeMap
  import M = Manifest

  /** An entry of the `values` section: a plain string, or a table with a
      `prompt` string. */
  datatype TemplateValueToml =
    | Direct(text: string)
    | User(prompt: string)

  /** An entry of the `templates` section. */
  datatype TemplateToml = TemplateToml(source: Option<string>, destination: Option<string>)

  datatype ManifestToml = ManifestToml(
    values: map<string, TemplateValueToml>,
    templates: map<string, TemplateToml>)

  /** The top-level table as the TOML text gives it: either section may be
      missing. */
  datatype TomlTable = TomlTable(
    values: Option<map<string, TemplateValueToml>>,
    templates: Option<map<string, TemplateToml>>)

  /** Text that `toml::from_str` rejects; what it says is not modelled. */
  datatype TomlError = TomlError(message: string)

  /** `#[serde(default)]`: a missing section is an empty map, a present one
      is kept as it is. */
  function WithDefaults(table: TomlTable): (doc: ManifestToml)
    ensures table.values.None? ==> doc.values == map[]
    ensures table.values.Some? ==> doc.values == table.values.value
    ensures table.templates.None? ==> doc.templates == map[]
    ensures table.templates.Some? ==> doc.templates == table.templates.value
  {
    ManifestToml(
      match table.values case Some(vs) => vs case None => map[],
      match table.templates case Some(ts) => ts case None => map[])
  }

  /** The `match` inside the closure passed to `map`: each form of parsed
      value becomes the same form of `TemplateValue` with the same text. */
  function Converted(v: TemplateValueToml): (r: M.TemplateValue)
    ensures r.Direct? <==> v.Direct?
    ensures v.Direct? ==> r.text == v.text
    ensures v.User? ==> r.prompt == v.prompt
  {
    match v
    case Direct(val) => M.Direct(val)
    case User(prompt) => M.User(prompt)
  }

  /** `.map(...)` over the iterator: the closure keeps each key, so the
      converted entries carry the same keys, still in ascending order when
      the input was. */
  function ConvertEntries(es: seq<(string, TemplateValueToml)>): (r: seq<(string, M.TemplateValue)>)
    ensures KeysOf(r) == KeysOf(es)
    ensures StrictlyAscending(es) ==> StrictlyAscending(r)
  {
    var r := seq(|es|, i requires 0 <= i < |es| => (es[i].0, Converted(es[i].1)));
    assert KeysOf(r) == KeysOf(es) by {
      forall x | x in KeysOf(es)
        ensures x in KeysOf(r)
      {
        var i :| 0 <= i < |es| && es[i].0 == x;
        assert r[i].0 == x;
      }
    }
    r
  }

  /** `values.iter().map(...).collect()`: walk the parsed values in key
      order, convert each entry, and insert the results into a new map. The
      result has exactly the input's keys, one entry per input entry, and
      under every key the same form with the same text. */
  function ConvertValues(values: map<string, TemplateValueToml>): (r: map<string, M.TemplateValue>)
    ensures r.Keys == values.Keys
    ensures |r| == |values|
    ensures forall k :: k in values ==> r[k] == Converted(values[k])
  {
    var es := Entries(values);
    ConvertedInOrder(values, es);
    Collect(ConvertEntries(es))
  }

  /** Converting the entries listed in key order keeps their keys distinct,
      so collecting them keeps every one. */
  lemma ConvertedInOrder(values: map<string, TemplateValueToml>, es: seq<(string, TemplateValueToml)>)
    requires InKeyOrder(es, values)
    ensures Collect(ConvertEntries(es)).Keys == values.Keys
    ensures forall k :: k in values ==>
      k in Collect(ConvertEntries(es)) && Collect(ConvertEntries(es))[k] == Converted(values[k])
  {
    var converted := ConvertEntries(es);
    AscendingIsDistinct(converted);
    forall k | k in values
      ensures k in Collect(converted) && Collect(converted)[k] == Converted(values[k])
    {
      assert k in KeysOf(es);
      var i :| 0 <= i < |es| && es[i].0 == k;
      assert converted[i] == (k, Converted(values[k]));
      CollectAt(converted, i);
    }
  }

  /** `parse_manifest_toml` after `toml::from_str`: an error from the TOML
      reader is passed on unchanged; otherwise the manifest has the converted
      values, no templates whatever the `templates` section holds, and the
      given base path. */
  function ParseManifestToml(parsed: Result<TomlTable, TomlError>, basePath: M.PathBuf): (r: Result<M.Manifest, TomlError>)
    ensures parsed.Failure? ==> r == Failure(parsed.error)
    ensures parsed.Success? ==> r.Success?
    ensures r.Success? ==> r.value.basePath == basePath && r.value.templates == map[]
    ensures r.Success? ==> r.value.values.Keys == WithDefaults(parsed.value).values.Keys
    ensures r.Success? ==> |r.value.values| == |WithDefaults(parsed.value).values|
    ensures r.Success? ==> forall k :: k in r.value.values ==>
      var v := WithDefaults(parsed.value).values[k];
      && (v.Direct? <==> r.value.values[k].Direct?)
      && (v.Direct? ==> r.value.values[k].text == v.text)
      && (v.User? ==> r.value.values[k].prompt == v.prompt)
  {
    match parsed
    case Failure(e) => Failure(e)
    case Success(table) =>
      var doc := WithDefaults(table);
      Success(M.Manifest(basePath, ConvertValues(doc.values), map[]))
  }

  /** The `templates` section has no effect: two tables with the same
      `values` section give the same manifest. */
  lemma TemplatesSectionIgnored(t1: TomlTable, t2: TomlTable, basePath: M.PathBuf)
    requires WithDefaults(t1).values == WithDefaults(t2).values
    ensures ParseManifestToml(Success(t1), basePath) == ParseManifestToml(Success(t2), basePath)
  {
  }

  /** Empty manifest text: the table has neither section, and the manifest
      has no values and no templates. */
  lemma EmptyManifest(basePath: M.PathBuf)
    ensures ParseManifestToml(Success(TomlTable(None, None)), basePath)
         == Success(M.Manifest(basePath, map[], map[]))
  {
  }

  /** The manifest with `my_value = "stuff"` and
      `my_other_value = "other stuff"` under `[values]`: exactly those two
      names, each a `Direct` value with its text. */
  lemma StringValues(basePath: M.PathBuf)
    ensures
      var table := TomlTable(Some(map["my_value" := Direct("stuff"), "my_other_value" := Direct("other stuff")]), None);
      var r := ParseManifestToml(Success(table), basePath);
      && r.Success?
      && r.value.values.Keys == {"my_value", "my_other_value"}
      && r.value.values["my_value"] == M.Direct("stuff")
      && r.value.values["my_other_value"] == M.Direct("other stuff")
  {
  }
}
