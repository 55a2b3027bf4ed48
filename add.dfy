/** The `add` command: validate the requested names against the registry, refuse to overwrite
    existing components, install the union of their dependencies, then write their files. */
module AddCommand {
  import opened Util
  import opened Types
  import opened Environment
  import opened DependencyManager
  import opened TemplateEngine
  import opened Registry
  import opened ConfigManager

  // ---------------------------------------------------------------------------------------------
  // Component source generation

  /** The template ids with a dedicated generator, in the order of the dispatch. */
  const TemplateIds: seq<string> := [
    TemplateId("button"), TemplateId("input"), TemplateId("card"), TemplateId("modal"),
    TemplateId("avatar"), TemplateId("badge"), TemplateId("switch"), TemplateId("spinner"),
    TemplateId("toast"), TemplateId("checkbox")]

  /** Stand-ins for the fixed sources the ten generators return. */
  const ButtonSource: string := "<generateButtonTemplate>"
  const InputSource: string := "<generateInputTemplate>"
  const CardSource: string := "<generateCardTemplate>"
  const ModalSource: string := "<generateModalTemplate>"
  const AvatarSource: string := "<generateAvatarTemplate>"
  const BadgeSource: string := "<generateBadgeTemplate>"
  const SwitchSource: string := "<generateSwitchTemplate>"
  const SpinnerSource: string := "<generateSpinnerTemplate>"
  const ToastSource: string := "<generateToastTemplate>"
  const CheckboxSource: string := "<generateCheckboxTemplate>"

  /** `generateComponentContent`: the generator chosen by template id, or the generic skeleton
      named after the component, which is used exactly for ids without a generator. */
  function GenerateComponentContent(componentName: string, template: string): (c: string)
    ensures c == CreateComponentTemplate(componentName) <==> template !in TemplateIds
  {
    SkeletonIsLong(componentName);
    if template == TemplateId("button") then ButtonSource
    else if template == TemplateId("input") then InputSource
    else if template == TemplateId("card") then CardSource
    else if template == TemplateId("modal") then ModalSource
    else if template == TemplateId("avatar") then AvatarSource
    else if template == TemplateId("badge") then BadgeSource
    else if template == TemplateId("switch") then SwitchSource
    else if template == TemplateId("spinner") then SpinnerSource
    else if template == TemplateId("toast") then ToastSource
    else if template == TemplateId("checkbox") then CheckboxSource
    else CreateComponentTemplate(componentName)
  }

  /** A generator's output does not depend on the component name. */
  lemma ContentDispatch(componentName: string, template: string)
    ensures template in TemplateIds ==> forall other: string ::
      GenerateComponentContent(other, template) == GenerateComponentContent(componentName, template)
  {
  }

  /** The skeleton is longer than any generator stand-in. */
  lemma SkeletonIsLong(name: string)
    ensures |CreateComponentTemplate(name)| > 100
  {
  }

  /** Every built-in component has a dedicated generator, so none falls back to the skeleton. */
  lemma BuiltInUsesGenerators()
    ensures forall k :: k in BuiltInRegistry().entries ==>
      forall f :: f in BuiltInRegistry().entries[k].files ==> f.template in TemplateIds
  {
    BuiltInShape();
    forall k, f | k in BuiltInRegistry().entries && f in BuiltInRegistry().entries[k].files
      ensures f.template in TemplateIds
    {
      assert k in BuiltInKeys;
      assert f.template == TemplateId(k);
    }
  }

  // ---------------------------------------------------------------------------------------------
  // Validation

  /** The requested names that are registry keys, in request order. */
  function Known(names: seq<string>, reg: Types.Registry): seq<string>
    decreases |names|
  {
    if names == [] then []
    else Known(names[..|names| - 1], reg) + (if names[|names| - 1] in reg.entries then [names[|names| - 1]] else [])
  }

  /** The requested names that are not registry keys, in request order. */
  function Unknown(names: seq<string>, reg: Types.Registry): seq<string>
    decreases |names|
  {
    if names == [] then []
    else Unknown(names[..|names| - 1], reg) + (if names[|names| - 1] !in reg.entries then [names[|names| - 1]] else [])
  }

  predicate AllKnown(names: seq<string>, reg: Types.Registry) {
    forall i :: 0 <= i < |names| ==> names[i] in reg.entries
  }

  /** The two lists split the request: a name is known iff it is a key, unknown iff it is not,
      and every requested occurrence lands in exactly one of them. */
  lemma {:induction false} ValidationSplits(names: seq<string>, reg: Types.Registry)
    ensures |Known(names, reg)| + |Unknown(names, reg)| == |names|
    ensures forall n :: n in Known(names, reg) <==> n in names && n in reg.entries
    ensures forall n :: n in Unknown(names, reg) <==> n in names && n !in reg.entries
    decreases |names|
  {
    if names != [] {
      var init := names[..|names| - 1];
      ValidationSplits(init, reg);
      assert names == init + [names[|names| - 1]];
    }
  }

  /** With nothing unknown every requested name is a key, and the known list is the request. */
  lemma {:induction false} NothingUnknown(names: seq<string>, reg: Types.Registry)
    ensures Unknown(names, reg) == [] <==> AllKnown(names, reg)
    ensures AllKnown(names, reg) ==> Known(names, reg) == names
    decreases |names|
  {
    if names != [] {
      var init := names[..|names| - 1];
      NothingUnknown(init, reg);
      if AllKnown(names, reg) {
        AllKnownInit(names, reg);
      }
      if Unknown(names, reg) == [] {
        assert Unknown(init, reg) == [];
        forall i | 0 <= i < |names| ensures names[i] in reg.entries {
          if i < |init| {
            assert names[i] == init[i];
          }
        }
      }
    }
  }

  /** The validation loop: names found in the registry go to `toAdd`, the rest to `missing`,
      both in request order. */
  method ValidateNames(names: seq<string>, reg: Types.Registry) returns (toAdd: seq<string>, missing: seq<string>)
    ensures toAdd == Known(names, reg) && missing == Unknown(names, reg)
  {
    toAdd, missing := [], [];
    var i := 0;
    while i < |names|
      invariant 0 <= i <= |names|
      invariant toAdd == Known(names[..i], reg) && missing == Unknown(names[..i], reg)
    {
      assert names[..i + 1][..i] == names[..i];
      if names[i] in reg.entries {
        toAdd := toAdd + [names[i]];
      } else {
        missing := missing + [names[i]];
      }
      i := i + 1;
    }
    assert names[..i] == names;
  }

  // ---------------------------------------------------------------------------------------------
  // Validation as written: a property lookup on a plain object

  /** `registry[componentName]` is truthy: an own key, or an inherited prototype member. */
  predicate LookupTruthyAsWritten(reg: Types.Registry, name: string) {
    name in reg.entries || name in PrototypeNames
  }

  /** The names the validation loop as written reports as not found. */
  function UnknownAsWritten(names: seq<string>, reg: Types.Registry): seq<string>
    decreases |names|
  {
    if names == [] then []
    else UnknownAsWritten(names[..|names| - 1], reg) + (if !LookupTruthyAsWritten(reg, names[|names| - 1]) then [names[|names| - 1]] else [])
  }

  /** Asking for "constructor" against the built-in registry: it is no component, yet the lookup
      as written finds something, so it is not reported and the run goes on with a function in
      place of a registry entry. Own-key membership reports it. */
  lemma PrototypeNameSlipsThrough()
    ensures "constructor" !in BuiltInRegistry().entries
    ensures UnknownAsWritten(["constructor"], BuiltInRegistry()) == []
    ensures Unknown(["constructor"], BuiltInRegistry()) == ["constructor"]
  {
    assert "constructor" !in BuiltInKeys by {
      assert forall i :: 0 <= i < |BuiltInKeys| ==> |BuiltInKeys[i]| != |"constructor"|;
    }
    assert ["constructor"][..0] == [];
  }

  // ---------------------------------------------------------------------------------------------
  // The "already exists" gate

  /** The components flagged as already present, once per requested occurrence, in order. */
  function Existing(files: Files, dirs: set<Path>, config: Config, reg: Types.Registry, names: seq<string>): seq<string>
    requires AllKnown(names, reg)
    decreases |names|
  {
    if names == [] then []
    else
      var n := names[|names| - 1];
      Existing(files, dirs, config, reg, names[..|names| - 1])
        + (if HasAnyFile(files, dirs, config.components, reg.entries[n].files) then [n] else [])
  }

  /** A component is flagged iff at least one of its files is present at
      `join(config.components, file.path)`; nothing is flagged twice per request. */
  lemma {:induction false} ExistingIff(files: Files, dirs: set<Path>, config: Config, reg: Types.Registry,
                                       names: seq<string>)
    requires AllKnown(names, reg)
    ensures |Existing(files, dirs, config, reg, names)| <= |names|
    ensures forall n :: n in Existing(files, dirs, config, reg, names) <==>
      n in names && HasAnyFile(files, dirs, config.components, reg.entries[n].files)
    decreases |names|
  {
    if names != [] {
      var init := names[..|names| - 1];
      assert AllKnown(init, reg) by {
        forall i | 0 <= i < |init| ensures init[i] in reg.entries {
          assert init[i] == names[i];
        }
      }
      ExistingIff(files, dirs, config, reg, init);
      assert names == init + [names[|names| - 1]];
    }
  }

  /** The gate's nested loop: for each component, its files are checked until one exists. */
  method FindExisting(host: Host, config: Config, reg: Types.Registry, toAdd: seq<string>) returns (existing: seq<string>)
    requires AllKnown(toAdd, reg)
    ensures existing == Existing(host.files, host.dirs, config, reg, toAdd)
  {
    existing := [];
    var i := 0;
    while i < |toAdd|
      invariant 0 <= i <= |toAdd|
      invariant AllKnown(toAdd[..i], reg)
      invariant existing == Existing(host.files, host.dirs, config, reg, toAdd[..i])
    {
      var specs := reg.entries[toAdd[i]].files;
      var j := 0;
      var found := false;
      while j < |specs|
        invariant 0 <= j <= |specs|
        invariant !found ==> forall jj :: 0 <= jj < j ==> !Present(host.files, host.dirs, Join(config.components, specs[jj].path))
        invariant found ==> HasAnyFile(host.files, host.dirs, config.components, specs)
      {
        if host.Exists(Join(config.components, specs[j].path)) {
          found := true;
          break;
        }
        j := j + 1;
      }
      assert found <==> HasAnyFile(host.files, host.dirs, config.components, specs);
      assert toAdd[..i + 1][..i] == toAdd[..i];
      if found {
        existing := existing + [toAdd[i]];
      }
      i := i + 1;
    }
    assert toAdd[..i] == toAdd;
  }

  // ---------------------------------------------------------------------------------------------
  // Dependency unions

  /** Adding `xs` to an insertion-ordered set: each new value is appended once, in order. */
  function AddNew(acc: seq<string>, xs: seq<string>): seq<string>
    decreases |xs|
  {
    if xs == [] then acc
    else
      var a := AddNew(acc, xs[..|xs| - 1]);
      if xs[|xs| - 1] in a then a else a + [xs[|xs| - 1]]
  }

  function Elements(s: seq<string>): set<string> {
    set x | x in s
  }

  lemma {:induction false} AddNewContents(acc: seq<string>, xs: seq<string>)
    requires Distinct(acc)
    ensures Distinct(AddNew(acc, xs))
    ensures Elements(AddNew(acc, xs)) == Elements(acc) + Elements(xs)
    ensures |AddNew(acc, xs)| >= |acc| && AddNew(acc, xs)[..|acc|] == acc
    decreases |xs|
  {
    if xs != [] {
      var init := xs[..|xs| - 1];
      var x := xs[|xs| - 1];
      AddNewContents(acc, init);
      assert xs == init + [x];
      assert Elements(xs) == Elements(init) + {x};
      var a := AddNew(acc, init);
      assert Elements(a + [x]) == Elements(a) + {x};
    }
  }

  /** The packages a component needs at run time, and for development (absent counts as none). */
  function RuntimeDeps(e: ComponentEntry): seq<string> { e.dependencies }

  function DevDeps(e: ComponentEntry): seq<string> { e.devDependencies.GetOr([]) }

  /** The runtime packages of the requested components, deduplicated in first-seen order. */
  function RuntimeUnion(reg: Types.Registry, names: seq<string>): seq<string>
    requires AllKnown(names, reg)
    decreases |names|
  {
    if names == [] then []
    else AddNew(RuntimeUnion(reg, names[..|names| - 1]), RuntimeDeps(reg.entries[names[|names| - 1]]))
  }

  function DevUnion(reg: Types.Registry, names: seq<string>): seq<string>
    requires AllKnown(names, reg)
    decreases |names|
  {
    if names == [] then []
    else AddNew(DevUnion(reg, names[..|names| - 1]), DevDeps(reg.entries[names[|names| - 1]]))
  }

  /** Reference definition: every package some requested component declares. */
  function DeclaredRuntime(reg: Types.Registry, names: seq<string>): set<string>
    requires AllKnown(names, reg)
    decreases |names|
  {
    if names == [] then {}
    else DeclaredRuntime(reg, names[..|names| - 1]) + Elements(RuntimeDeps(reg.entries[names[|names| - 1]]))
  }

  function DeclaredDev(reg: Types.Registry, names: seq<string>): set<string>
    requires AllKnown(names, reg)
    decreases |names|
  {
    if names == [] then {}
    else DeclaredDev(reg, names[..|names| - 1]) + Elements(DevDeps(reg.entries[names[|names| - 1]]))
  }

  lemma AllKnownInit(names: seq<string>, reg: Types.Registry)
    requires names != [] && AllKnown(names, reg)
    ensures AllKnown(names[..|names| - 1], reg)
  {
    var init := names[..|names| - 1];
    forall i | 0 <= i < |init| ensures init[i] in reg.entries {
      assert init[i] == names[i];
    }
  }

  /** Each install list holds every declared package exactly once. */
  lemma {:induction false} UnionsAreDeclared(reg: Types.Registry, names: seq<string>)
    requires AllKnown(names, reg)
    ensures Distinct(RuntimeUnion(reg, names)) && Elements(RuntimeUnion(reg, names)) == DeclaredRuntime(reg, names)
    ensures Distinct(DevUnion(reg, names)) && Elements(DevUnion(reg, names)) == DeclaredDev(reg, names)
    decreases |names|
  {
    if names != [] {
      var init := names[..|names| - 1];
      AllKnownInit(names, reg);
      UnionsAreDeclared(reg, init);
      var e := reg.entries[names[|names| - 1]];
      AddNewContents(RuntimeUnion(reg, init), RuntimeDeps(e));
      AddNewContents(DevUnion(reg, init), DevDeps(e));
    }
  }

  /** The collection loops: each component's lists are added to insertion-ordered sets. */
  method CollectDependencies(reg: Types.Registry, toAdd: seq<string>) returns (deps: seq<string>, devDeps: seq<string>)
    requires AllKnown(toAdd, reg)
    ensures deps == RuntimeUnion(reg, toAdd) && devDeps == DevUnion(reg, toAdd)
  {
    deps, devDeps := [], [];
    var i := 0;
    while i < |toAdd|
      invariant 0 <= i <= |toAdd|
      invariant AllKnown(toAdd[..i], reg)
      invariant deps == RuntimeUnion(reg, toAdd[..i]) && devDeps == DevUnion(reg, toAdd[..i])
    {
      var e := reg.entries[toAdd[i]];
      assert toAdd[..i + 1][..i] == toAdd[..i];
      var runtime := RuntimeDeps(e);
      var start := deps;
      var j := 0;
      while j < |runtime|
        invariant 0 <= j <= |runtime|
        invariant deps == AddNew(start, runtime[..j])
      {
        assert runtime[..j + 1][..j] == runtime[..j];
        if runtime[j] !in deps {
          deps := deps + [runtime[j]];
        }
        j := j + 1;
      }
      assert runtime[..j] == runtime;
      var dev := DevDeps(e);
      start := devDeps;
      j := 0;
      while j < |dev|
        invariant 0 <= j <= |dev|
        invariant devDeps == AddNew(start, dev[..j])
      {
        assert dev[..j + 1][..j] == dev[..j];
        if dev[j] !in devDeps {
          devDeps := devDeps + [dev[j]];
        }
        j := j + 1;
      }
      assert dev[..j] == dev;
      i := i + 1;
    }
    assert toAdd[..i] == toAdd;
  }

  // ---------------------------------------------------------------------------------------------
  // Installs and writes

  /** The writes of one component: each file, in order, to its path under the components
      directory, with its generated source. */
  function ComponentWrites(name: string, entry: ComponentEntry, config: Config): (plan: seq<Write>)
    ensures |plan| == |entry.files|
  {
    seq(|entry.files|, i requires 0 <= i < |entry.files| =>
      (Join(config.components, entry.files[i].path), GenerateComponentContent(name, entry.files[i].template)))
  }

  /** The writes of a run: component by component in request order. */
  function WritePlan(reg: Types.Registry, names: seq<string>, config: Config): seq<Write>
    requires AllKnown(names, reg)
    decreases |names|
  {
    if names == [] then []
    else
      var n := names[|names| - 1];
      WritePlan(reg, names[..|names| - 1], config) + ComponentWrites(n, reg.entries[n], config)
  }

  lemma {:induction false} WritePlanAppend(reg: Types.Registry, a: seq<string>, b: seq<string>, config: Config)
    requires AllKnown(a + b, reg)
    ensures AllKnown(a, reg) && AllKnown(b, reg)
    ensures WritePlan(reg, a + b, config) == WritePlan(reg, a, config) + WritePlan(reg, b, config)
    decreases |b|
  {
    assert AllKnown(a, reg) by {
      forall i | 0 <= i < |a| ensures a[i] in reg.entries {
        assert a[i] == (a + b)[i];
      }
    }
    assert AllKnown(b, reg) by {
      forall i | 0 <= i < |b| ensures b[i] in reg.entries {
        assert b[i] == (a + b)[|a| + i];
      }
    }
    if b != [] {
      var init := b[..|b| - 1];
      assert (a + b)[..|a + b| - 1] == a + init;
      WritePlanAppend(reg, a, init, config);
    } else {
      assert a + b == a;
    }
  }

  /** Every write goes to `join(config.components, file.path)` of a requested component's file. */
  lemma {:induction false} WritePlanTargets(reg: Types.Registry, names: seq<string>, config: Config)
    requires AllKnown(names, reg)
    ensures forall w :: w in WritePlan(reg, names, config) ==>
      exists n, f :: n in names && f in reg.entries[n].files && w == (Join(config.components, f.path),
        GenerateComponentContent(n, f.template))
    decreases |names|
  {
    if names != [] {
      var init := names[..|names| - 1];
      var n := names[|names| - 1];
      AllKnownInit(names, reg);
      WritePlanTargets(reg, init, config);
      var cw := ComponentWrites(n, reg.entries[n], config);
      forall w | w in WritePlan(reg, names, config)
        ensures exists n', f :: (n' in names && f in reg.entries[n'].files
          && w == (Join(config.components, f.path), GenerateComponentContent(n', f.template)))
      {
        if w in WritePlan(reg, init, config) {
          var n', f :| n' in init && f in reg.entries[n'].files
            && w == (Join(config.components, f.path), GenerateComponentContent(n', f.template));
          assert n' in names;
        } else {
          assert w in cw;
          var i :| 0 <= i < |cw| && cw[i] == w;
          assert reg.entries[n].files[i] in reg.entries[n].files;
        }
      }
    }
  }

  /** `addSingleComponent`: the component's files are written in order; a failed write is
      rethrown and the files written before it stay. */
  method AddSingleComponent(host: Host, name: string, entry: ComponentEntry, config: Config) returns (r: Outcome)
    modifies host`files
    ensures (host.files, r.Pass?) == WriteSeq(old(host.files), ComponentWrites(name, entry, config), host.unwritable)
  {
    var plan := ComponentWrites(name, entry, config);
    var i := 0;
    while i < |entry.files|
      invariant 0 <= i <= |entry.files|
      invariant WriteSeq(old(host.files), plan, host.unwritable) == WriteSeq(host.files, plan[i..], host.unwritable)
    {
      var file := entry.files[i];
      var targetPath := Join(config.components, file.path);
      var content := GenerateComponentContent(name, file.template);
      assert plan[i..][0] == (targetPath, content) && plan[i..][1..] == plan[i + 1..];
      var written := host.WriteFile(targetPath, content);
      if written.Fail? {
        return Fail("Failed to add " + name + ": " + written.error);
      }
      i := i + 1;
    }
    assert plan[i..] == [];
    return Pass;
  }

  // ---------------------------------------------------------------------------------------------
  // The whole run

  datatype AddResult =
    | Added
    | NotFound(missing: seq<string>, available: seq<string>)
    | AlreadyExist(existing: seq<string>)
    | InstallFailed
    | WriteFailed

  /** The installs and then the writes, on a snapshot: writes start only once every install
      has succeeded. */
  function InstallAndWrite(files: Files, dirs: set<Path>, log: seq<string>, unwritable: set<Path>,
                           failing: set<string>, names: seq<string>, reg: Types.Registry,
                           config: Config): (Files, seq<string>, AddResult)
    requires AllKnown(names, reg)
  {
    var run := InstallRun(DetectedManager(files, dirs, ""), RuntimeUnion(reg, names), DevUnion(reg, names), failing);
    if !run.1 then (files, log + run.0, InstallFailed)
    else
      var written := WriteSeq(files, WritePlan(reg, names, config), unwritable);
      (written.0, log + run.0, if written.1 then Added else WriteFailed)
  }

  /** `addComponents` on a snapshot: the files and the command log afterwards, and the result.
      Installs use the package manager detected in the project root. */
  function AddSpec(files: Files, dirs: set<Path>, log: seq<string>, unwritable: set<Path>,
                   failing: set<string>, names: seq<string>, reg: Types.Registry, config: Config,
                   overwrite: bool): (Files, seq<string>, AddResult)
  {
    var unknown := Unknown(names, reg);
    if unknown != [] then (files, log, NotFound(unknown, reg.keys))
    else
      NothingUnknown(names, reg);
      var existing := Existing(files, dirs, config, reg, names);
      if !overwrite && existing != [] then (files, log, AlreadyExist(existing))
      else InstallAndWrite(files, dirs, log, unwritable, failing, names, reg, config)
  }

  /** Any unknown name aborts the whole batch: every unknown name is reported in request order
      with the registry's keys, and nothing is installed or written, valid names included. */
  lemma UnknownAborts(files: Files, dirs: set<Path>, log: seq<string>, unwritable: set<Path>,
                      failing: set<string>, names: seq<string>, reg: Types.Registry, config: Config,
                      overwrite: bool)
    requires !AllKnown(names, reg)
    ensures var result := AddSpec(files, dirs, log, unwritable, failing, names, reg, config, overwrite);
      && result.0 == files && result.1 == log
      && result.2 == NotFound(Unknown(names, reg), reg.keys)
      && |result.2.missing| >= 1
      && forall n :: n in result.2.missing <==> n in names && n !in reg.entries
  {
    NothingUnknown(names, reg);
    ValidationSplits(names, reg);
  }

  /** Without overwrite, one present file of one requested component stops the run before any
      install or write; the flagged components are exactly those with a present file. */
  lemma ExistingStops(files: Files, dirs: set<Path>, log: seq<string>, unwritable: set<Path>,
                      failing: set<string>, names: seq<string>, reg: Types.Registry, config: Config)
    requires AllKnown(names, reg)
    requires exists n :: n in names && HasAnyFile(files, dirs, config.components, reg.entries[n].files)
    ensures var result := AddSpec(files, dirs, log, unwritable, failing, names, reg, config, false);
      && result.0 == files && result.1 == log && result.2.AlreadyExist?
      && forall n :: n in result.2.existing <==>
           n in names && HasAnyFile(files, dirs, config.components, reg.entries[n].files)
  {
    NothingUnknown(names, reg);
    ExistingIff(files, dirs, config, reg, names);
  }

  /** Installs precede writes: the log grows only by the install commands, and a failed install
      leaves every file as it was. */
  lemma InstallsBeforeWrites(files: Files, dirs: set<Path>, log: seq<string>, unwritable: set<Path>,
                             failing: set<string>, names: seq<string>, reg: Types.Registry, config: Config)
    requires AllKnown(names, reg)
    ensures var result := InstallAndWrite(files, dirs, log, unwritable, failing, names, reg, config);
      var run := InstallRun(DetectedManager(files, dirs, ""), RuntimeUnion(reg, names), DevUnion(reg, names), failing);
      && result.1 == log + run.0
      && (result.2 == InstallFailed <==> !run.1)
      && (result.2 == InstallFailed ==> result.0 == files)
  {
  }

  /** A run that passes the gate succeeds exactly when every install succeeds and every target is
      writable, and then every planned file holds its generated source; a failed write keeps the
      files written before it. */
  lemma AddOutcome(files: Files, dirs: set<Path>, log: seq<string>, unwritable: set<Path>,
                   failing: set<string>, names: seq<string>, reg: Types.Registry, config: Config)
    requires AllKnown(names, reg)
    ensures var result := InstallAndWrite(files, dirs, log, unwritable, failing, names, reg, config);
      var plan := WritePlan(reg, names, config);
      var run := InstallRun(DetectedManager(files, dirs, ""), RuntimeUnion(reg, names), DevUnion(reg, names), failing);
      && (result.2 == Added <==> run.1 && AllWritable(plan, unwritable))
      && (result.2 == Added ==> result.0 == ApplyWrites(files, plan))
      && (result.2 == WriteFailed ==> exists k :: (0 <= k < |plan| && plan[k].0 in unwritable
            && result.0 == ApplyWrites(files, plan[..k])))
  {
    var plan := WritePlan(reg, names, config);
    var run := InstallRun(DetectedManager(files, dirs, ""), RuntimeUnion(reg, names), DevUnion(reg, names), failing);
    var result := InstallAndWrite(files, dirs, log, unwritable, failing, names, reg, config);
    WriteSeqSucceeds(files, plan, unwritable);
    if run.1 {
      var written := WriteSeq(files, plan, unwritable);
      assert result == (written.0, log + run.0, if written.1 then Added else WriteFailed);
      if !written.1 {
        WriteSeqStops(files, plan, unwritable);
        var k :| 0 <= k < |plan| && plan[k].0 in unwritable
          && (forall i :: 0 <= i < k ==> plan[i].0 !in unwritable)
          && written.0 == ApplyWrites(files, plan[..k]);
        assert 0 <= k < |plan| && plan[k].0 in unwritable && result.0 == ApplyWrites(files, plan[..k]);
        assert !AllWritable(plan, unwritable);
      }
    } else {
      assert result.2 == InstallFailed;
    }
  }

  /** The two `installDependencies` calls, each detecting the package manager in the root. */
  method RunInstalls(host: Host, deps: seq<string>, devDeps: seq<string>) returns (ok: bool)
    modifies host`execLog
    ensures var run := InstallRun(DetectedManager(host.files, host.dirs, ""), deps, devDeps, host.failingCommands);
      host.execLog == old(host.execLog) + run.0 && ok == run.1
  {
    var installed := InstallDependencies(host, deps, false, None, "");
    if installed.Fail? {
      return false;
    }
    installed := InstallDependencies(host, devDeps, true, None, "");
    return installed.Pass?;
  }

  /** One step of the write loop: the next component's writes extend the run, and a failure there
      is the failure of the whole plan. */
  lemma WriteStep(start: Files, reg: Types.Registry, toAdd: seq<string>, i: nat, config: Config,
                  unwritable: set<Path>, before: Files, after: Files, ok: bool)
    requires i < |toAdd| && AllKnown(toAdd, reg) && AllKnown(toAdd[..i], reg)
    requires WriteSeq(start, WritePlan(reg, toAdd[..i], config), unwritable) == (before, true)
    requires (after, ok) == WriteSeq(before, ComponentWrites(toAdd[i], reg.entries[toAdd[i]], config), unwritable)
    ensures AllKnown(toAdd[..i + 1], reg)
    ensures ok ==> WriteSeq(start, WritePlan(reg, toAdd[..i + 1], config), unwritable) == (after, true)
    ensures !ok ==> WriteSeq(start, WritePlan(reg, toAdd, config), unwritable) == (after, false)
  {
    PlanStep(reg, toAdd, i, config);
    WriteSeqConcat(start, WritePlan(reg, toAdd[..i], config),
                   ComponentWrites(toAdd[i], reg.entries[toAdd[i]], config), unwritable);
    if !ok {
      FailedPrefixFailsPlan(start, reg, toAdd, i + 1, config, unwritable);
    }
  }

  /** The plan for one more name is the plan so far followed by that component's writes. */
  lemma PlanStep(reg: Types.Registry, toAdd: seq<string>, i: nat, config: Config)
    requires i < |toAdd| && AllKnown(toAdd, reg)
    ensures AllKnown(toAdd[..i], reg) && AllKnown(toAdd[..i + 1], reg)
    ensures WritePlan(reg, toAdd[..i + 1], config)
      == WritePlan(reg, toAdd[..i], config) + ComponentWrites(toAdd[i], reg.entries[toAdd[i]], config)
  {
    var p := toAdd[..i + 1];
    assert p[|p| - 1] == toAdd[i];
    assert p[..|p| - 1] == toAdd[..i];
  }

  /** Once the writes for a prefix of the names fail, the writes for all of them fail the same way. */
  lemma FailedPrefixFailsPlan(start: Files, reg: Types.Registry, toAdd: seq<string>, j: nat, config: Config,
                              unwritable: set<Path>)
    requires j <= |toAdd| && AllKnown(toAdd, reg) && AllKnown(toAdd[..j], reg)
    requires !WriteSeq(start, WritePlan(reg, toAdd[..j], config), unwritable).1
    ensures WriteSeq(start, WritePlan(reg, toAdd, config), unwritable)
      == WriteSeq(start, WritePlan(reg, toAdd[..j], config), unwritable)
  {
    assert toAdd == toAdd[..j] + toAdd[j..];
    WritePlanAppend(reg, toAdd[..j], toAdd[j..], config);
    WriteSeqConcat(start, WritePlan(reg, toAdd[..j], config), WritePlan(reg, toAdd[j..], config), unwritable);
  }

  /** The loop over the components to add: each is written by `addSingleComponent`, and the first
      failure ends the run. */
  method WriteComponents(host: Host, toAdd: seq<string>, reg: Types.Registry, config: Config) returns (ok: bool)
    requires AllKnown(toAdd, reg)
    modifies host`files
    ensures (host.files, ok) == WriteSeq(old(host.files), WritePlan(reg, toAdd, config), host.unwritable)
  {
    var i := 0;
    while i < |toAdd|
      invariant 0 <= i <= |toAdd|
      invariant AllKnown(toAdd[..i], reg)
      invariant WriteSeq(old(host.files), WritePlan(reg, toAdd[..i], config), host.unwritable) == (host.files, true)
    {
      var n := toAdd[i];
      ghost var before := host.files;
      var added := AddSingleComponent(host, n, reg.entries[n], config);
      WriteStep(old(host.files), reg, toAdd, i, config, host.unwritable, before, host.files, added.Pass?);
      if added.Fail? {
        return false;
      }
      i := i + 1;
    }
    assert toAdd[..i] == toAdd;
    return true;
  }

  /** `addComponents`: validation, the existing gate, the installs and the writes, with the state
      and result the specification gives. */
  method AddComponents(host: Host, names: seq<string>, reg: Types.Registry, config: Config, overwrite: bool)
    returns (r: AddResult)
    modifies host`files, host`execLog
    ensures (host.files, host.execLog, r)
      == AddSpec(old(host.files), host.dirs, old(host.execLog), host.unwritable, host.failingCommands,
                 names, reg, config, overwrite)
  {
    var toAdd, missing := ValidateNames(names, reg);
    if |missing| > 0 {
      return NotFound(missing, reg.keys);
    }
    NothingUnknown(names, reg);
    if !overwrite {
      var existing := FindExisting(host, config, reg, toAdd);
      if |existing| > 0 {
        return AlreadyExist(existing);
      }
    }
    var deps, devDeps := CollectDependencies(reg, toAdd);
    var installed := RunInstalls(host, deps, devDeps);
    if !installed {
      return InstallFailed;
    }
    var written := WriteComponents(host, toAdd, reg, config);
    return if written then Added else WriteFailed;
  }

  // ---------------------------------------------------------------------------------------------
  // The command

  datatype CommandResult = NoConfig | Ran(result: AddResult)

  /** `--all` requests exactly the registry's keys, in key order; none of them is unknown. */
  lemma AllRequestsEveryKey(reg: Types.Registry)
    ensures AllKnown(reg.keys, reg)
    ensures Unknown(reg.keys, reg) == [] && Known(reg.keys, reg) == reg.keys
  {
    assert AllKnown(reg.keys, reg) by {
      forall i | 0 <= i < |reg.keys| ensures reg.keys[i] in reg.entries {
        assert reg.keys[i] in reg.keys;
      }
    }
    NothingUnknown(reg.keys, reg);
  }

  /** `addCommand`: without a configuration nothing happens; otherwise the registry is chosen and
      the requested names, or every key with `--all`, are added. */
  method AddCommandRun(host: Host, store: ConfigStore, components: seq<string>, all: bool,
                       overwrite: bool, registryPath: Path) returns (r: CommandResult)
    modifies store, host`files, host`execLog
    ensures var config := if old(store.config).Some? then old(store.config) else old(StoredConfig(host, ""));
      && (config.None? ==> r == NoConfig && host.files == old(host.files) && host.execLog == old(host.execLog))
      && (config.Some? ==>
            var reg := GetComponentRegistry(old(host.files), host.dirs, registryPath);
            var result := AddSpec(old(host.files), host.dirs, old(host.execLog), host.unwritable,
                                  host.failingCommands, if all then reg.keys else components, reg,
                                  config.value, overwrite);
            host.files == result.0 && host.execLog == result.1 && r == Ran(result.2))
      && store.config == config
  {
    var config := store.GetConfig(host, "");
    if config.None? {
      return NoConfig;
    }
    var registry := GetComponentRegistry(host.files, host.dirs, registryPath);
    var requested := if all then registry.keys else components;
    var result := AddComponents(host, requested, registry, config.value, overwrite);
    return Ran(result);
  }
}
