/** The CLI's data shapes: project configuration, the component registry and package.json. */
module Types {
  import opened Util

  /** The project configuration kept in `bna.json`. */
  datatype Config = Config(
    typescript: bool,
    tailwind: bool,
    src: string,
    components: string,
    utils: string,
    lib: string,
    hooks: string,
    theme: string)

  /** One file a component installs: a path relative to the components directory and a template id. */
  datatype FileSpec = FileSpec(path: string, template: string)

  /** One registry value; `devDependencies` is an optional field. */
  datatype ComponentEntry = ComponentEntry(
    name: string,
    files: seq<FileSpec>,
    dependencies: seq<string>,
    devDependencies: Option<seq<string>>)

  /** A JSON object keyed by component name: `keys` is the key order of `Object.keys`. */
  datatype RegistryData = RegistryData(keys: seq<string>, entries: map<string, ComponentEntry>) {
    predicate WellFormed() {
      Distinct(keys) && entries.Keys == set k | k in keys
    }
  }

  /** A JSON object has each key once, in one order. */
  type Registry = r: RegistryData | r.WellFormed() witness RegistryData([], map[])

  /** The parts of a package.json the dependency manager reads or rewrites; `others` stands for
      every other top-level field. */
  datatype PackageJson = PackageJson(
    dependencies: Option<map<string, string>>,
    devDependencies: Option<map<string, string>>,
    peerDependencies: Option<map<string, string>>,
    scripts: Option<map<string, string>>,
    others: map<string, string>)
}
