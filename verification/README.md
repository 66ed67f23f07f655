# Clicker manifest conversion, modelled in Dafny

Clicker is a file and directory templater driven by a TOML manifest. A
manifest declares named values and named templates. A value is either a
literal string (`name = "text"`) or a table with a `prompt` string: such a
value is to be given by the user, on the command line or interactively, and
`prompt` is the question to ask. The code implements neither route. A
template has an optional `source` and an optional `destination`.

This project models the step that turns the deserialised manifest into
Clicker's `Manifest` data model (`parse_manifest_toml` after
`toml::from_str`):

- `wrappers.dfy`: `Option` and `Result`.
- `manifest.dfy` (module `Manifest`): the target types `Manifest`,
  `TemplateValue` and `Template`. They are datatypes, so equality is
  field by field, as with the derived `PartialEq`. The one difference is
  `base_path`, which is kept as text (see "Left out").
- `btree_map.dfy` (module `BTreeMap`): the parts of Rust's
  `BTreeMap<String, _>` that the conversion relies on. `String`'s ordering
  is lexicographic over Unicode scalar values, which is the same as over
  UTF-8 bytes. `iter()` yields the entries in ascending key order
  (`Entries`). `collect()` inserts the yielded pairs one at a time into an
  empty map (`Collect`). Collecting a map's own entries gives back that map
  (`CollectEntries`).
- `manifest_toml.dfy` (module `ManifestToml`): the TOML-side shapes
  `ManifestToml`, `TemplateValueToml` and `TemplateToml`.
  `#[serde(default)]` is modelled by `WithDefaults`. The conversion itself
  is `ParseManifestToml`.

`ParseManifestToml` takes the result of reading the TOML text: an error, or
the top-level table with either section possibly missing. An error is
passed through unchanged, like the `?` on `toml::from_str`. The values
section becomes the output `values` map through the same
`iter().map(...).collect()` pipeline the code uses. The templates section is
read and then dropped: the output `templates` map is always empty.

The code builds a `Manifest` without the `base_path` field that
`src/manifest.rs:7` declares. The model keeps the field. `ParseManifestToml`
takes the base path as a parameter and stores it unchanged. It never
resolves or canonicalises it.

The code builds no `Template` from the templates section. It implements no
value resolution, prompting, substitution or deployment.

## Model

| member | source | states |
|---|---|---|
| `Manifest.TemplateValueForms` | src/manifest.rs:19-26 | a template value is exactly one of `Direct(text)` or `User { prompt }`; two values are equal iff they have the same form and the same string |
| `Manifest.TemplateFields` | src/manifest.rs:28-35 | `source` and `destination` can each be present or absent independently; templates are equal iff all four fields are |
| `Manifest.ManifestEquality` | src/manifest.rs:5-11 | manifests are equal iff base path, values map and templates map are |
| `BTreeMap.Entries` | src/manifest_toml.rs:32-34 | iterating a map yields each entry exactly once, as many entries as the map has, with keys in strictly ascending `String` order |
| `BTreeMap.Collect` | src/manifest_toml.rs:46 | collecting pairs gives a map whose key set is exactly the set of keys in the pairs |
| `BTreeMap.CollectAt` | src/manifest_toml.rs:46 | when the keys are distinct, every collected pair is present in the result with its value (no insertion is lost) |
| `BTreeMap.CollectEntries` | src/manifest_toml.rs:32-46 | collecting a map's own entries in iteration order gives back that same map |
| `BTreeMap.KeyLeReflexive` | src/manifest_toml.rs:34 | the key order (`Ord` for `String`, lexicographic by code point) is reflexive: every key is `<=` itself |
| `BTreeMap.KeyLeTotal` | src/manifest_toml.rs:34 | the key order is total: of any two keys, one is `<=` the other |
| `BTreeMap.KeyLeAntisymmetric` | src/manifest_toml.rs:34 | the key order is antisymmetric: two keys each `<=` the other are equal |
| `BTreeMap.KeyLeTransitive` | src/manifest_toml.rs:34 | the key order is transitive |
| `BTreeMap.MinKey` | src/manifest_toml.rs:34 | for a non-empty key set, returns a member that is `<=` every key in the set under `String` ordering |
| `BTreeMap.EntriesStartAtMinKey` | src/manifest_toml.rs:34 | the first entry `iter()` yields from a non-empty map has the least key |
| `ManifestToml.WithDefaults` | src/manifest_toml.rs:7-13 | a missing `values` or `templates` section becomes an empty map; a present one is kept unchanged |
| `ManifestToml.Converted` | src/manifest_toml.rs:35-44 | a `Direct` entry stays `Direct` with the same text, and a `User` entry stays `User` with the same prompt |
| `ManifestToml.ConvertEntries` | src/manifest_toml.rs:34-45 | the closure keeps each key: the mapped entries carry exactly the input entries' keys, and they stay in strictly ascending key order when the input was |
| `ManifestToml.ConvertValues` | src/manifest_toml.rs:32-46 | the output values map has exactly the input's key set and the same size, and under every key the converted form of the input's value |
| `ManifestToml.ConvertedInOrder` | src/manifest_toml.rs:32-46 | converting key-ordered entries keeps their keys distinct, so collecting them keeps every key with its converted value |
| `ManifestToml.ParseManifestToml` | src/manifest_toml.rs:28-49 | a TOML read error is returned unchanged. Otherwise the result is a manifest with the same value keys and count, the same form and string under each key, no templates, and the given base path |
| `ManifestToml.TemplatesSectionIgnored` | src/manifest_toml.rs:47 | two tables with the same `values` section give the same manifest, whatever their `templates` sections hold |
| `ManifestToml.EmptyManifest` | src/manifest_toml.rs:56-65 | a table with neither section gives a manifest with empty `values` and empty `templates` |
| `ManifestToml.StringValues` | src/manifest_toml.rs:67-86 | `my_value = "stuff"` and `my_other_value = "other stuff"` give exactly those two keys, holding `Direct("stuff")` and `Direct("other stuff")` |

## Left out

- `toml::from_str` and serde's untagged matching of value entries (src/manifest_toml.rs:16, 29) are foreign parsing code. The model starts from what they produce, and a read error is only an opaque `TomlError`.
- `ParseManifestToml` takes that parse result in place of the manifest text, plus the base path the code leaves out. It does not model which TOML texts are rejected.
- `failure::Error` plumbing and the unused `ManifestError` (src/manifest.rs:13-17).
- src/main.rs: argument parsing, console output and the `unwrap` on the template lookup. It calls `parse_manifest_file` and `Manifest::template_by_name`, and neither src/manifest.rs nor src/manifest_toml.rs defines them. `parse_manifest_file` is not part of this model.
- src/deploy.rs: directory listing and console output. These are filesystem I/O, and they depend on `Template::source_path`, which `src/manifest.rs` does not define.
- `base_path` resolution and canonicalisation: nothing in the code computes it.
- `Manifest.ManifestEquality`: base paths compare as text. Rust's `PathBuf` compares by path components, so `a/b`, `a/b/`, `a//b` and `a/./b` are equal in Rust but different here. Nothing in the conversion compares or builds paths, so the model keeps the text.
- `Manifest.TemplateFields`: the same holds for a template's `base_path`.
- Value resolution, prompting, placeholder substitution and conflict policies: the code implements none of them.
