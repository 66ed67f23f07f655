/**
  The manifest data model (src/manifest.rs): the named values and named
  templates a manifest declares, both keyed by name in ordered maps.
  Equality on all three types is structural, as Rust's derived `PartialEq`
  is.
*/
module Manifest {
  import opened Wrappers

  /** A `PathBuf`, kept as its text; nothing here resolves or canonicalises it. */
  type PathBuf = string

  /** A value that templates may refer to. */
  datatype TemplateValue =
    | Direct(text: string)    // given literally in the manifest
    | User(prompt: string)    // given by the user, on the command line or interactively;
                              // `prompt` is the question to ask

  /** One named deployable unit; `source` and `destination` are each optional. */
  datatype Template = Template(
    basePath: PathBuf,
    name: string,
    source: Option<string>,
    destination: Option<string>)

  datatype Manifest = Manifest(
    basePath: PathBuf,
    values: map<string, TemplateValue>,
    templates: map<string, Template>)

  /** A template value takes exactly one of its two forms, and two values
      are equal exactly when they have the same form and the same text. */
  lemma TemplateValueForms(a: TemplateValue, b: TemplateValue)
    ensures a.Direct? != a.User?
    ensures a == b <==> ((a.Direct? && b.Direct? && a.text == b.text)
                      || (a.User? && b.User? && a.prompt == b.prompt))
  {
  }

  /** Any combination of present and absent `source` and `destination`
      makes a template, and templates are equal exactly field by field. */
  lemma TemplateFields(t: Template, u: Template, source: Option<string>, destination: Option<string>)
    ensures t.(source := source, destination := destination).source == source
    ensures t.(source := source, destination := destination).destination == destination
    ensures t == u <==> (t.basePath == u.basePath && t.name == u.name
                      && t.source == u.source && t.destination == u.destination)
  {
  }

  /** Two manifests are equal exactly when their base paths, value maps and
      template maps are. */
  lemma ManifestEquality(a: Manifest, b: Manifest)
    ensures a == b <==> a.basePath == b.basePath && a.values == b.values && a.templates == b.templates
  {
  }
}
