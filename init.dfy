/** The non-interactive part of `init`: store the default configuration, create the directory
    layout, write the theme, utility, hook and type files, install the fixed dependencies, add the
    project configuration files and replace `App.tsx`, in that order, stopping at the first failure. */
module InitCommand {
  import opened Util
  import opened Types
  import opened Environment
  import opened DependencyManager
  import opened ConfigManager

  // ---------------------------------------------------------------------------------------------
  // Directories

  /** The directories `createDirectoryStructure` ensures, in order. */
  function InitDirectories(config: Config): seq<Path> {
    [config.src, config.components, Join(config.components, "ui"), Join(config.components, "layout"),
     config.lib, config.utils, config.hooks, config.theme, Join(config.src, "constants"),
     Join(config.src, "types")]
  }

  /** A run of `ensureDir` calls that stops at the first failure: the directories afterwards and
      whether every call succeeded. */
  function EnsureSeq(ds: set<Path>, plan: seq<Path>, unwritable: set<Path>): (set<Path>, bool)
    decreases |plan|
  {
    if plan == [] then (ds, true)
    else if plan[0] in unwritable then (ds, false)
    else EnsureSeq(ds + {plan[0]}, plan[1..], unwritable)
  }

  /** The run succeeds iff no directory is unwritable, and then adds exactly the planned ones; it
      never removes a directory. */
  lemma {:induction false} EnsureSeqResult(ds: set<Path>, plan: seq<Path>, unwritable: set<Path>)
    ensures EnsureSeq(ds, plan, unwritable).1 <==> forall i :: 0 <= i < |plan| ==> plan[i] !in unwritable
    ensures EnsureSeq(ds, plan, unwritable).1 ==> EnsureSeq(ds, plan, unwritable).0 == ds + set p | p in plan
    ensures ds <= EnsureSeq(ds, plan, unwritable).0 <= ds + set p | p in plan
    decreases |plan|
  {
    if plan != [] && plan[0] !in unwritable {
      EnsureSeqResult(ds + {plan[0]}, plan[1..], unwritable);
      assert forall i :: 1 <= i < |plan| ==> plan[i] == plan[1..][i - 1];
      assert (set p | p in plan) == {plan[0]} + set p | p in plan[1..];
    }
  }

  /** `createDirectoryStructure`: each directory in turn; a failure is rethrown. */
  method CreateDirectoryStructure(host: Host, config: Config) returns (r: Outcome)
    modifies host`dirs
    ensures (host.dirs, r.Pass?) == EnsureSeq(old(host.dirs), InitDirectories(config), host.unwritable)
  {
    var directories := InitDirectories(config);
    var i := 0;
    while i < |directories|
      invariant 0 <= i <= |directories|
      invariant EnsureSeq(old(host.dirs), directories, host.unwritable)
        == EnsureSeq(host.dirs, directories[i..], host.unwritable)
    {
      assert directories[i..][0] == directories[i] && directories[i..][1..] == directories[i + 1..];
      var ensured := host.EnsureDir(directories[i]);
      if ensured.Fail? {
        return ensured;
      }
      i := i + 1;
    }
    assert directories[i..] == [];
    return Pass;
  }

  // ---------------------------------------------------------------------------------------------
  // Theme, utility, hook and type files

  /** Stand-ins for the fixed sources `init` generates. */
  const ThemeIndexSource: string := "<theme/index.ts>"
  const CnSource: string := "<utils/cn.ts>"
  const ColorsSource: string := "<utils/colors.ts>"
  const UtilsIndexSource: string := "<utils/index.ts>"
  const UseThemeSource: string := "<hooks/useTheme.ts>"
  const UseColorSchemeSource: string := "<hooks/useColorScheme.ts>"
  const HooksIndexSource: string := "<hooks/index.ts>"
  const ThemeContextSource: string := "<lib/theme-context.tsx>"
  const TypesSource: string := "<types/index.ts>"

  function ThemeWrites(config: Config): seq<Write> {
    [(Join(config.theme, "index.ts"), ThemeIndexSource)]
  }

  function UtilityWrites(config: Config): seq<Write> {
    [(Join(config.utils, "cn.ts"), CnSource), (Join(config.utils, "colors.ts"), ColorsSource),
     (Join(config.utils, "index.ts"), UtilsIndexSource)]
  }

  function HookWrites(config: Config): seq<Write> {
    [(Join(config.hooks, "useTheme.ts"), UseThemeSource),
     (Join(config.hooks, "useColorScheme.ts"), UseColorSchemeSource),
     (Join(config.hooks, "index.ts"), HooksIndexSource),
     (Join(config.lib, "theme-context.tsx"), ThemeContextSource)]
  }

  function TypeWrites(config: Config): seq<Write> {
    [(Join(Join(config.src, "types"), "index.ts"), TypesSource)]
  }

  /** The files `copyTemplateFiles` writes, in order. */
  function InitFilePlan(config: Config): seq<Write> {
    ThemeWrites(config) + UtilityWrites(config) + HookWrites(config) + TypeWrites(config)
  }

  /** `p` names an entry directly inside one of `ds`. */
  ghost predicate Inside(p: Path, ds: seq<Path>) {
    exists d, name :: d in ds && p == Join(d, name)
  }

  /** Every generated file lands directly inside one of the directories created before it. */
  lemma FilesInsideInitDirectories(config: Config)
    ensures forall i :: 0 <= i < |InitFilePlan(config)| ==>
      Inside(InitFilePlan(config)[i].0, InitDirectories(config))
  {
    var ds := InitDirectories(config);
    ThemeInside(config);
    UtilityInside(config);
    HookInside(config);
    TypeInside(config);
    var plan := InitFilePlan(config);
    forall i | 0 <= i < |plan| ensures Inside(plan[i].0, ds) {
      assert plan[i] in plan;
    }
  }

  lemma InsideWitness(d: Path, name: Path, ds: seq<Path>)
    requires d in ds
    ensures Inside(Join(d, name), ds)
  {
  }

  /** The theme index goes into the theme directory. */
  lemma ThemeInside(config: Config)
    ensures forall w :: w in ThemeWrites(config) ==> Inside(w.0, InitDirectories(config))
  {
    var ds := InitDirectories(config);
    assert ds[7] == config.theme;
    InsideWitness(config.theme, "index.ts", ds);
  }

  /** The utility files go into the utils directory. */
  lemma UtilityInside(config: Config)
    ensures forall w :: w in UtilityWrites(config) ==> Inside(w.0, InitDirectories(config))
  {
    var ds := InitDirectories(config);
    var u := UtilityWrites(config);
    assert ds[5] == config.utils;
    WriteInside(u[0], config.utils, "cn.ts", ds);
    WriteInside(u[1], config.utils, "colors.ts", ds);
    WriteInside(u[2], config.utils, "index.ts", ds);
    assert u == [u[0], u[1], u[2]];
  }

  /** The hooks go into the hooks directory and the theme context into lib. */
  lemma HookInside(config: Config)
    ensures forall w :: w in HookWrites(config) ==> Inside(w.0, InitDirectories(config))
  {
    var ds := InitDirectories(config);
    var h := HookWrites(config);
    assert ds[6] == config.hooks && ds[4] == config.lib;
    WriteInside(h[0], config.hooks, "useTheme.ts", ds);
    WriteInside(h[1], config.hooks, "useColorScheme.ts", ds);
    WriteInside(h[2], config.hooks, "index.ts", ds);
    WriteInside(h[3], config.lib, "theme-context.tsx", ds);
    assert h == [h[0], h[1], h[2], h[3]];
  }

  /** A write whose path is `name` joined onto one of `ds` lies inside `ds`. */
  lemma WriteInside(w: Write, d: Path, name: Path, ds: seq<Path>)
    requires d in ds && w.0 == Join(d, name)
    ensures Inside(w.0, ds)
  {
    InsideWitness(d, name, ds);
  }

  /** The type declarations go into `src/types`. */
  lemma TypeInside(config: Config)
    ensures forall w :: w in TypeWrites(config) ==> Inside(w.0, InitDirectories(config))
  {
    var ds := InitDirectories(config);
    assert ds[9] == Join(config.src, "types");
    InsideWitness(Join(config.src, "types"), "index.ts", ds);
  }

  /** The first write of a run either fails there or leaves the rest of the run to go. */
  lemma WriteSeqFirst(fs: Files, w: Write, rest: seq<Write>, unwritable: set<Path>)
    ensures WriteSeq(fs, [w] + rest, unwritable)
      == if w.0 in unwritable then (fs, false) else WriteSeq(fs[w.0 := Text(w.1)], rest, unwritable)
  {
    assert ([w] + rest)[0] == w && ([w] + rest)[1..] == rest;
  }

  /** `createThemeFiles`. */
  method CreateThemeFiles(host: Host, config: Config) returns (r: Outcome)
    modifies host`files
    ensures (host.files, r.Pass?) == WriteSeq(old(host.files), ThemeWrites(config), host.unwritable)
  {
    WriteSeqFirst(host.files, ThemeWrites(config)[0], [], host.unwritable);
    r := host.WriteFile(Join(config.theme, "index.ts"), ThemeIndexSource);
  }

  /** `createUtilityFiles`: `cn.ts`, `colors.ts`, then `index.ts`; a failure is rethrown. */
  method CreateUtilityFiles(host: Host, config: Config) returns (r: Outcome)
    modifies host`files
    ensures (host.files, r.Pass?) == WriteSeq(old(host.files), UtilityWrites(config), host.unwritable)
  {
    var plan := UtilityWrites(config);
    WriteSeqFirst(host.files, plan[0], plan[1..], host.unwritable);
    r := host.WriteFile(plan[0].0, plan[0].1);
    if r.Fail? {
      return;
    }
    WriteSeqFirst(host.files, plan[1], plan[2..], host.unwritable);
    r := host.WriteFile(plan[1].0, plan[1].1);
    if r.Fail? {
      return;
    }
    WriteSeqFirst(host.files, plan[2], [], host.unwritable);
    r := host.WriteFile(plan[2].0, plan[2].1);
  }

  /** `createHookFiles`: the two hooks, their index, then the theme context; a failure is rethrown. */
  method CreateHookFiles(host: Host, config: Config) returns (r: Outcome)
    modifies host`files
    ensures (host.files, r.Pass?) == WriteSeq(old(host.files), HookWrites(config), host.unwritable)
  {
    var plan := HookWrites(config);
    WriteSeqFirst(host.files, plan[0], plan[1..], host.unwritable);
    r := host.WriteFile(plan[0].0, plan[0].1);
    if r.Fail? {
      return;
    }
    WriteSeqFirst(host.files, plan[1], plan[2..], host.unwritable);
    r := host.WriteFile(plan[1].0, plan[1].1);
    if r.Fail? {
      return;
    }
    WriteSeqFirst(host.files, plan[2], plan[3..], host.unwritable);
    r := host.WriteFile(plan[2].0, plan[2].1);
    if r.Fail? {
      return;
    }
    WriteSeqFirst(host.files, plan[3], [], host.unwritable);
    r := host.WriteFile(plan[3].0, plan[3].1);
  }

  /** `createTypeFiles`. */
  method CreateTypeFiles(host: Host, config: Config) returns (r: Outcome)
    modifies host`files
    ensures (host.files, r.Pass?) == WriteSeq(old(host.files), TypeWrites(config), host.unwritable)
  {
    WriteSeqFirst(host.files, TypeWrites(config)[0], [], host.unwritable);
    r := host.WriteFile(Join(Join(config.src, "types"), "index.ts"), TypesSource);
  }

  /** `copyTemplateFiles`: the theme, utility, hook and type files, in that order. */
  method CopyInitFiles(host: Host, config: Config) returns (r: Outcome)
    modifies host`files
    ensures (host.files, r.Pass?) == WriteSeq(old(host.files), InitFilePlan(config), host.unwritable)
  {
    var themes, utilities, hooks, types := ThemeWrites(config), UtilityWrites(config), HookWrites(config), TypeWrites(config);
    WriteSeqConcat(host.files, themes, utilities + hooks + types, host.unwritable);
    assert InitFilePlan(config) == themes + (utilities + hooks + types);
    r := CreateThemeFiles(host, config);
    if r.Fail? {
      return;
    }
    WriteSeqConcat(host.files, utilities, hooks + types, host.unwritable);
    assert utilities + hooks + types == utilities + (hooks + types);
    r := CreateUtilityFiles(host, config);
    if r.Fail? {
      return;
    }
    WriteSeqConcat(host.files, hooks, types, host.unwritable);
    r := CreateHookFiles(host, config);
    if r.Fail? {
      return;
    }
    r := CreateTypeFiles(host, config);
  }

  // ---------------------------------------------------------------------------------------------
  // Dependencies

  /** The packages `init` installs. */
  const InitRuntimeDeps: seq<string> := [
    "react-native-vector-icons", "@react-native-async-storage/async-storage",
    "react-native-safe-area-context", "react-native-gesture-handler", "@react-native-community/slider"]

  const InitDevDeps: seq<string> := ["@types/react-native-vector-icons", "babel-plugin-module-resolver"]

  /** `installDependencies` in `init`: the runtime list, then the dev list in a separate dev call,
      each with the detected package manager; a failure is rethrown. */
  method InstallInitDependencies(host: Host) returns (r: Outcome)
    modifies host`execLog
    ensures var run := InstallRun(DetectedManager(host.files, host.dirs, ""), InitRuntimeDeps, InitDevDeps, host.failingCommands);
      host.execLog == old(host.execLog) + run.0 && (r.Pass? <==> run.1)
  {
    var installed := InstallDependencies(host, InitRuntimeDeps, false, None, "");
    if installed.Fail? {
      return installed;
    }
    installed := InstallDependencies(host, InitDevDeps, true, None, "");
    return installed;
  }

  /** `init` always issues exactly two install commands when both succeed: the five runtime
      packages without the dev flag, then the two dev packages with it. */
  lemma InitInstallsTwice(pm: PackageManager, failing: set<string>)
    ensures var (ran, ok) := InstallRun(pm, InitRuntimeDeps, InitDevDeps, failing);
      && 1 <= |ran| <= 2 && ran[0] == InstallCommand(pm, InitRuntimeDeps, false)
      && (ok ==> ran == [InstallCommand(pm, InitRuntimeDeps, false), InstallCommand(pm, InitDevDeps, true)])
  {
    InstallRunShape(pm, InitRuntimeDeps, InitDevDeps, failing);
  }

  // ---------------------------------------------------------------------------------------------
  // Project configuration files and App.tsx

  const TsconfigPath: Path := "tsconfig.json"
  const MetroPath: Path := "metro.config.js"
  const BabelPath: Path := "babel.config.js"
  const GitignorePath: Path := ".gitignore"
  const ReadmePath: Path := "README.md"
  const AppPath: Path := "App.tsx"

  const TsconfigSource: string := "<tsconfig.json>"
  const MetroSource: string := "<metro.config.js>"
  const BabelSource: string := "<babel.config.js>"
  const GitignoreSource: string := "<.gitignore>"
  const ReadmeSource: string := "<README.md>"
  const AppSource: string := "<App.tsx>"

  /** `tsconfig.json` is written only when absent, and so is `.gitignore`. */
  function TsconfigWrite(files: Files, dirs: set<Path>): seq<Write> {
    if Present(files, dirs, TsconfigPath) then [] else [(TsconfigPath, TsconfigSource)]
  }

  function GitignoreWrite(files: Files, dirs: set<Path>): seq<Write> {
    if Present(files, dirs, GitignorePath) then [] else [(GitignorePath, GitignoreSource)]
  }

  /** The writes of `setupAdditionalConfigs`, in order: the TypeScript configuration if absent, the
      Metro and Babel configurations, `.gitignore` if absent, and the README. */
  function ConfigWrites(files: Files, dirs: set<Path>): seq<Write> {
    TsconfigWrite(files, dirs)
      + ([(MetroPath, MetroSource)]
      + ([(BabelPath, BabelSource)]
      + (GitignoreWrite(files, dirs) + [(ReadmePath, ReadmeSource)])))
  }

  /** `setupAdditionalConfigs`. The `.gitignore` probe follows the Metro and Babel writes, which
      cannot create it. */
  method SetupAdditionalConfigs(host: Host) returns (r: Outcome)
    modifies host`files
    ensures (host.files, r.Pass?) == WriteSeq(old(host.files), ConfigWrites(old(host.files), host.dirs), host.unwritable)
  {
    ghost var git := GitignoreWrite(host.files, host.dirs);
    ghost var afterBabel := git + [(ReadmePath, ReadmeSource)];
    ghost var afterMetro := [(BabelPath, BabelSource)] + afterBabel;
    ghost var afterTsconfig := [(MetroPath, MetroSource)] + afterMetro;
    ghost var plan := ConfigWrites(host.files, host.dirs);
    assert plan == TsconfigWrite(host.files, host.dirs) + afterTsconfig;
    if !host.Exists(TsconfigPath) {
      WriteSeqFirst(host.files, (TsconfigPath, TsconfigSource), afterTsconfig, host.unwritable);
      r := host.WriteFile(TsconfigPath, TsconfigSource);
      if r.Fail? {
        return;
      }
    } else {
      assert plan == afterTsconfig;
    }
    assert WriteSeq(old(host.files), plan, host.unwritable) == WriteSeq(host.files, afterTsconfig, host.unwritable);
    WriteSeqFirst(host.files, (MetroPath, MetroSource), afterMetro, host.unwritable);
    r := host.WriteFile(MetroPath, MetroSource);
    if r.Fail? {
      return;
    }
    WriteSeqFirst(host.files, (BabelPath, BabelSource), afterBabel, host.unwritable);
    r := host.WriteFile(BabelPath, BabelSource);
    if r.Fail? {
      return;
    }
    assert GitignorePath != TsconfigPath && GitignorePath != MetroPath && GitignorePath != BabelPath;
    if !host.Exists(GitignorePath) {
      assert afterBabel == [(GitignorePath, GitignoreSource)] + [(ReadmePath, ReadmeSource)];
      WriteSeqFirst(host.files, (GitignorePath, GitignoreSource), [(ReadmePath, ReadmeSource)], host.unwritable);
      r := host.WriteFile(GitignorePath, GitignoreSource);
      if r.Fail? {
        return;
      }
    } else {
      assert afterBabel == [(ReadmePath, ReadmeSource)];
    }
    WriteSeqFirst(host.files, (ReadmePath, ReadmeSource), [], host.unwritable);
    r := host.WriteFile(ReadmePath, ReadmeSource);
  }

  /** When every target is writable: an existing `tsconfig.json` or `.gitignore` keeps its
      content, a missing one gets the generated one, and the Metro and Babel configurations and
      the README are written over whatever was there. */
  lemma ConfigWritesPreserve(files: Files, dirs: set<Path>, unwritable: set<Path>)
    requires TsconfigPath !in unwritable && MetroPath !in unwritable && BabelPath !in unwritable
    requires GitignorePath !in unwritable && ReadmePath !in unwritable
    ensures var after := WriteSeq(files, ConfigWrites(files, dirs), unwritable);
      && after.1
      && (TsconfigPath in files ==> TsconfigPath in after.0 && after.0[TsconfigPath] == files[TsconfigPath])
      && (GitignorePath in files ==> GitignorePath in after.0 && after.0[GitignorePath] == files[GitignorePath])
      && (!Present(files, dirs, TsconfigPath) ==> TsconfigPath in after.0 && after.0[TsconfigPath] == Text(TsconfigSource))
      && (!Present(files, dirs, GitignorePath) ==> GitignorePath in after.0 && after.0[GitignorePath] == Text(GitignoreSource))
      && MetroPath in after.0 && after.0[MetroPath] == Text(MetroSource)
      && BabelPath in after.0 && after.0[BabelPath] == Text(BabelSource)
      && ReadmePath in after.0 && after.0[ReadmePath] == Text(ReadmeSource)
  {
    var git := GitignoreWrite(files, dirs);
    var afterBabel := git + [(ReadmePath, ReadmeSource)];
    var afterMetro := [(BabelPath, BabelSource)] + afterBabel;
    var afterTsconfig := [(MetroPath, MetroSource)] + afterMetro;
    var f1 := if Present(files, dirs, TsconfigPath) then files else files[TsconfigPath := Text(TsconfigSource)];
    if !Present(files, dirs, TsconfigPath) {
      WriteSeqFirst(files, (TsconfigPath, TsconfigSource), afterTsconfig, unwritable);
      assert ConfigWrites(files, dirs) == [(TsconfigPath, TsconfigSource)] + afterTsconfig;
    } else {
      assert ConfigWrites(files, dirs) == afterTsconfig;
    }
    var f2 := f1[MetroPath := Text(MetroSource)];
    var f3 := f2[BabelPath := Text(BabelSource)];
    WriteSeqFirst(f1, (MetroPath, MetroSource), afterMetro, unwritable);
    WriteSeqFirst(f2, (BabelPath, BabelSource), afterBabel, unwritable);
    var f4 := if Present(files, dirs, GitignorePath) then f3 else f3[GitignorePath := Text(GitignoreSource)];
    if !Present(files, dirs, GitignorePath) {
      WriteSeqFirst(f3, (GitignorePath, GitignoreSource), [(ReadmePath, ReadmeSource)], unwritable);
    } else {
      assert afterBabel == [(ReadmePath, ReadmeSource)];
    }
    WriteSeqFirst(f4, (ReadmePath, ReadmeSource), [], unwritable);
    assert [(ReadmePath, ReadmeSource)] == [(ReadmePath, ReadmeSource)] + [];
    assert WriteSeq(files, ConfigWrites(files, dirs), unwritable) == WriteSeq(f1, afterTsconfig, unwritable);
    assert WriteSeq(f3, afterBabel, unwritable) == WriteSeq(f4, [(ReadmePath, ReadmeSource)], unwritable);
    assert WriteSeq(files, ConfigWrites(files, dirs), unwritable) == (f4[ReadmePath := Text(ReadmeSource)], true);
    assert MetroPath != BabelPath && MetroPath != GitignorePath && MetroPath != ReadmePath && MetroPath != TsconfigPath;
    assert BabelPath != GitignorePath && BabelPath != ReadmePath && BabelPath != TsconfigPath;
    assert GitignorePath != ReadmePath && GitignorePath != TsconfigPath && TsconfigPath != ReadmePath;
  }

  // ---------------------------------------------------------------------------------------------
  // The whole setup

  /** The step a setup stopped at. */
  datatype InitStep = ConfigStep | DirectoryStep | FileStep | InstallStep | ConfigFileStep | AppStep

  datatype InitOutcome = Completed | FailedAt(step: InitStep)

  /** The state after the setup, on a snapshot: files, directories, command log, outcome. */
  datatype InitState = InitState(files: Files, dirs: set<Path>, log: seq<string>, outcome: InitOutcome)

  /** The steps after the installs: the configuration files, then `App.tsx`. */
  function AfterInstalls(files: Files, dirs: set<Path>, log: seq<string>, unwritable: set<Path>): (s: InitState)
    ensures s.dirs == dirs && s.log == log
    ensures s.outcome in {Completed, FailedAt(ConfigFileStep), FailedAt(AppStep)}
  {
    var (files5, configsOk) := WriteSeq(files, ConfigWrites(files, dirs), unwritable);
    if !configsOk then InitState(files5, dirs, log, FailedAt(ConfigFileStep))
    else
      var (files6, appOk) := WriteSeq(files5, [(AppPath, AppSource)], unwritable);
      InitState(files6, dirs, log, if appOk then Completed else FailedAt(AppStep))
  }

  /** The steps after the directories: the generated files, the installs, then the rest. */
  function AfterDirectories(files: Files, dirs: set<Path>, log: seq<string>, unwritable: set<Path>,
                            failing: set<string>): (s: InitState)
    ensures s.dirs == dirs
    ensures s.outcome == FailedAt(FileStep) ==> s.log == log
    ensures s.outcome != FailedAt(ConfigStep) && s.outcome != FailedAt(DirectoryStep)
  {
    var (files3, filesOk) := WriteSeq(files, InitFilePlan(DefaultConfig()), unwritable);
    if !filesOk then InitState(files3, dirs, log, FailedAt(FileStep))
    else
      var (ran, installOk) := InstallRun(DetectedManager(files3, dirs, ""), InitRuntimeDeps, InitDevDeps, failing);
      if !installOk then InitState(files3, dirs, log + ran, FailedAt(InstallStep))
      else AfterInstalls(files3, dirs, log + ran, unwritable)
  }

  /** `initCommand` from the configuration step on, in the project directory. */
  function InitSpec(files: Files, dirs: set<Path>, log: seq<string>, unwritable: set<Path>,
                    failing: set<string>): InitState
  {
    var configPath := Join("", ConfigFile);
    if configPath in unwritable then InitState(files, dirs, log, FailedAt(ConfigStep))
    else
      var files1 := files[configPath := Json(ConfigDoc(DefaultConfig()))];
      var (dirs2, dirsOk) := EnsureSeq(dirs, InitDirectories(DefaultConfig()), unwritable);
      if !dirsOk then InitState(files1, dirs2, log, FailedAt(DirectoryStep))
      else AfterDirectories(files1, dirs2, log, unwritable, failing)
  }

  /** The configuration is stored before anything else: if it cannot be, no directory, file or
      command follows; no command runs before every directory exists and every file is written. */
  lemma InitOrder(files: Files, dirs: set<Path>, log: seq<string>, unwritable: set<Path>, failing: set<string>)
    ensures var s := InitSpec(files, dirs, log, unwritable, failing);
      && (s.outcome == FailedAt(ConfigStep) <==> Join("", ConfigFile) in unwritable)
      && (s.outcome == FailedAt(ConfigStep) ==> s.files == files && s.dirs == dirs && s.log == log)
      && (s.outcome == FailedAt(DirectoryStep) || s.outcome == FailedAt(FileStep) ==> s.log == log)
      && (s.outcome != FailedAt(ConfigStep) && s.outcome != FailedAt(DirectoryStep) ==>
            forall d :: d in InitDirectories(DefaultConfig()) ==> d in s.dirs)
  {
    if Join("", ConfigFile) !in unwritable {
      EnsureSeqResult(dirs, InitDirectories(DefaultConfig()), unwritable);
    }
  }

  /** A completed setup ran exactly the two install commands and wrote `App.tsx`. */
  lemma InitCompleted(files: Files, dirs: set<Path>, log: seq<string>, unwritable: set<Path>, failing: set<string>)
    requires InitSpec(files, dirs, log, unwritable, failing).outcome == Completed
    ensures var s := InitSpec(files, dirs, log, unwritable, failing);
      && AppPath in s.files && s.files[AppPath] == Text(AppSource)
      && |s.log| == |log| + 2
  {
    var files1 := files[Join("", ConfigFile) := Json(ConfigDoc(DefaultConfig()))];
    var dirs2 := EnsureSeq(dirs, InitDirectories(DefaultConfig()), unwritable).0;
    var files3 := WriteSeq(files1, InitFilePlan(DefaultConfig()), unwritable).0;
    InstallRunShape(DetectedManager(files3, dirs2, ""), InitRuntimeDeps, InitDevDeps, failing);
    var ran := InstallRun(DetectedManager(files3, dirs2, ""), InitRuntimeDeps, InitDevDeps, failing).0;
    AppWritten(files3, dirs2, log + ran, unwritable);
  }

  lemma AppWritten(files: Files, dirs: set<Path>, log: seq<string>, unwritable: set<Path>)
    requires AfterInstalls(files, dirs, log, unwritable).outcome == Completed
    ensures var s := AfterInstalls(files, dirs, log, unwritable);
      AppPath in s.files && s.files[AppPath] == Text(AppSource)
  {
    var files5 := WriteSeq(files, ConfigWrites(files, dirs), unwritable).0;
    WriteSeqFirst(files5, (AppPath, AppSource), [], unwritable);
    assert [(AppPath, AppSource)] == [(AppPath, AppSource)] + [];
  }

  /** `updateAppTsx`: `App.tsx` is written whether or not it existed; a missing one only warns. */
  method UpdateAppTsx(host: Host) returns (r: Outcome, warnedMissing: bool)
    modifies host`files
    ensures warnedMissing == !Present(old(host.files), host.dirs, AppPath)
    ensures (host.files, r.Pass?) == WriteSeq(old(host.files), [(AppPath, AppSource)], host.unwritable)
  {
    warnedMissing := !host.Exists(AppPath);
    WriteSeqFirst(host.files, (AppPath, AppSource), [], host.unwritable);
    assert [(AppPath, AppSource)] == [(AppPath, AppSource)] + [];
    r := host.WriteFile(AppPath, AppSource);
  }

  /** In an existing project, a missing `app.json` and `expo.json` only draw a warning. */
  function NotExpoWarning(files: Files, dirs: set<Path>, existingProject: bool): bool {
    existingProject && !Present(files, dirs, "app.json") && !Present(files, dirs, "expo.json")
  }

  datatype InitReport = InitReport(warnedNotExpo: bool, outcome: InitOutcome)

  /** `initCommand` in the project directory: the Expo check, then the six steps in order. */
  method InitCommandRun(host: Host, store: ConfigStore, existingProject: bool) returns (report: InitReport)
    modifies store, host`files, host`dirs, host`execLog
    ensures var s := InitSpec(old(host.files), old(host.dirs), old(host.execLog), host.unwritable, host.failingCommands);
      && report == InitReport(NotExpoWarning(old(host.files), old(host.dirs), existingProject), s.outcome)
      && host.files == s.files && host.dirs == s.dirs && host.execLog == s.log
      && (s.outcome != FailedAt(ConfigStep) ==> store.config == Some(DefaultConfig()))
  {
    var warned := existingProject && !host.Exists("app.json") && !host.Exists("expo.json");
    var config := store.InitConfig(host, "");
    if config.Err? {
      return InitReport(warned, FailedAt(ConfigStep));
    }
    var step := CreateDirectoryStructure(host, config.value);
    if step.Fail? {
      return InitReport(warned, FailedAt(DirectoryStep));
    }
    step := CopyInitFiles(host, config.value);
    if step.Fail? {
      return InitReport(warned, FailedAt(FileStep));
    }
    step := InstallInitDependencies(host);
    if step.Fail? {
      return InitReport(warned, FailedAt(InstallStep));
    }
    step := SetupAdditionalConfigs(host);
    if step.Fail? {
      return InitReport(warned, FailedAt(ConfigFileStep));
    }
    var appWarned;
    step, appWarned := UpdateAppTsx(host);
    return InitReport(warned, if step.Pass? then Completed else FailedAt(AppStep));
  }
}
