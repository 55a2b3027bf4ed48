/** The component registry: the built-in table and the rule for preferring a local registry file. */
module Registry {
  import opened Util
  import opened Types
  import opened Environment

  /** The registry keys of the built-in table, in declaration order. */
  const BuiltInKeys: seq<string> :=
    ["button", "input", "card", "modal", "avatar", "badge", "switch", "spinner", "toast", "checkbox"]

  /** A built-in entry: one file `ui/<key>.tsx` generated from template `<key>.template.tsx`, and
      an empty dev-dependency list. */
  /** The template id of a built-in component's single file. */
  function TemplateId(key: string): string {
    key + ".template.tsx"
  }

  function BuiltInEntry(key: string, name: string, deps: seq<string>): ComponentEntry {
    ComponentEntry(name, [FileSpec("ui/" + key + ".tsx", TemplateId(key))], deps, Some([]))
  }

  function BuiltInEntries(): map<string, ComponentEntry> {
    map[
      "button" := BuiltInEntry("button", "Button", []),
      "input" := BuiltInEntry("input", "Input", []),
      "card" := BuiltInEntry("card", "Card", []),
      "modal" := BuiltInEntry("modal", "Modal", ["react-native-reanimated", "react-native-gesture-handler"]),
      "avatar" := BuiltInEntry("avatar", "Avatar", ["expo-image"]),
      "badge" := BuiltInEntry("badge", "Badge", []),
      "switch" := BuiltInEntry("switch", "Switch", []),
      "spinner" := BuiltInEntry("spinner", "Spinner", ["react-native-reanimated"]),
      "toast" := BuiltInEntry("toast", "Toast", ["react-native-reanimated"]),
      "checkbox" := BuiltInEntry("checkbox", "Checkbox", ["@expo/vector-icons"])
    ]
  }

  lemma BuiltInWellFormed()
    ensures RegistryData(BuiltInKeys, BuiltInEntries()).WellFormed()
  {
    var k := BuiltInKeys;
    assert |k[0]| == 6 && |k[1]| == 5 && |k[2]| == 4 && |k[3]| == 5 && |k[4]| == 6;
    assert |k[5]| == 5 && |k[6]| == 6 && |k[7]| == 7 && |k[8]| == 5 && |k[9]| == 8;
    assert k[0][0] != k[4][0] && k[0][0] != k[6][0] && k[4][0] != k[6][0];
    assert k[1][0] != k[3][0] && k[1][0] != k[5][0] && k[1][0] != k[8][0];
    assert k[3][0] != k[5][0] && k[3][0] != k[8][0] && k[5][0] != k[8][0];
    assert BuiltInEntries().Keys == set x | x in k;
  }

  /** `getBuiltInRegistry`: the ten built-in components. */
  function BuiltInRegistry(): (r: Registry)
    ensures r.keys == BuiltInKeys && r.entries == BuiltInEntries()
  {
    BuiltInWellFormed();
    RegistryData(BuiltInKeys, BuiltInEntries())
  }

  /** Every built-in component installs exactly its own `ui/<key>.tsx` from `<key>.template.tsx`,
      has no dev dependencies, and only modal, avatar, spinner, toast and checkbox need packages. */
  lemma BuiltInShape()
    ensures |BuiltInRegistry().keys| == 10
    ensures forall k :: k in BuiltInRegistry().entries ==>
      BuiltInRegistry().entries[k]
        == BuiltInEntry(k, BuiltInRegistry().entries[k].name, BuiltInRegistry().entries[k].dependencies)
  {
    var m := BuiltInEntries();
    forall k | k in m
      ensures m[k] == BuiltInEntry(k, m[k].name, m[k].dependencies)
    {
      assert k in BuiltInKeys;
    }
  }

  /** `getComponentRegistry`: the registry file at `registryPath` when it exists and reads as a
      registry, otherwise the built-in table. */
  function GetComponentRegistry(files: Files, dirs: set<Path>, registryPath: Path): (r: Registry)
    ensures r != BuiltInRegistry() ==>
      registryPath in files && files[registryPath].Json? && files[registryPath].doc.RegistryDoc?
      && r == files[registryPath].doc.registry
  {
    if Present(files, dirs, registryPath) && registryPath in files && files[registryPath].Json?
       && files[registryPath].doc.RegistryDoc?
    then files[registryPath].doc.registry
    else BuiltInRegistry()
  }

  /** The local file wins exactly when it reads as a registry document; a missing or
      unparsable file falls back to the built-in table. The model keeps the registry document
      apart from other JSON documents, so it does not follow a file that parses as JSON of
      another shape, which the source takes as its registry unchecked. */
  lemma RegistryChoice(files: Files, dirs: set<Path>, registryPath: Path)
    ensures (registryPath in files && files[registryPath].Json? && files[registryPath].doc.RegistryDoc?)
      ==> GetComponentRegistry(files, dirs, registryPath) == files[registryPath].doc.registry
    ensures !(registryPath in files && files[registryPath].Json? && files[registryPath].doc.RegistryDoc?)
      ==> GetComponentRegistry(files, dirs, registryPath) == BuiltInRegistry()
  {
  }

  /** Some file of a component is present at its path joined under `dir`. */
  predicate HasAnyFile(files: Files, dirs: set<Path>, dir: Path, specs: seq<FileSpec>) {
    exists i :: 0 <= i < |specs| && Present(files, dirs, Join(dir, specs[i].path))
  }
}
