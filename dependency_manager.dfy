/** Package-manager detection, install-command construction and package.json queries/updates. */
module DependencyManager {
  import opened Util
  import opened Types
  import opened Environment

  datatype PackageManager = Npm | Yarn | Pnpm

  /** Lockfiles in the order detection checks them. */
  const LockFiles: seq<(string, PackageManager)> :=
    [("pnpm-lock.yaml", Pnpm), ("yarn.lock", Yarn), ("package-lock.json", Npm)]

  /** The manager detection picks in `cwd`, as a specification for callers. */
  function DetectedManager(files: Files, dirs: set<Path>, cwd: Path): PackageManager {
    if Present(files, dirs, Join(cwd, "pnpm-lock.yaml")) then Pnpm
    else if Present(files, dirs, Join(cwd, "yarn.lock")) then Yarn
    else Npm
  }

  /** `detectPackageManager`: the first lockfile present decides (pnpm, then yarn, then npm);
      with none present the answer is npm. */
  method DetectPackageManager(host: Host, cwd: Path) returns (pm: PackageManager)
    ensures pm == Pnpm <==> host.Exists(Join(cwd, "pnpm-lock.yaml"))
    ensures pm == Yarn <==> !host.Exists(Join(cwd, "pnpm-lock.yaml")) && host.Exists(Join(cwd, "yarn.lock"))
    ensures pm == Npm <==> !host.Exists(Join(cwd, "pnpm-lock.yaml")) && !host.Exists(Join(cwd, "yarn.lock"))
    ensures pm == DetectedManager(host.files, host.dirs, cwd)
  {
    assert LockFiles[0] == ("pnpm-lock.yaml", Pnpm) && LockFiles[1] == ("yarn.lock", Yarn);
    assert LockFiles[2] == ("package-lock.json", Npm);
    var i := 0;
    while i < |LockFiles|
      invariant 0 <= i <= |LockFiles|
      invariant forall j :: 0 <= j < i ==> !host.Exists(Join(cwd, LockFiles[j].0))
    {
      if host.Exists(Join(cwd, LockFiles[i].0)) {
        return LockFiles[i].1;
      }
      i := i + 1;
    }
    return Npm;
  }

  /** The three leading words of an install command: the manager, its install verb and its
      dependency-kind flag (empty for a yarn or pnpm runtime install). */
  function WordsOf(pm: PackageManager, dev: bool): (string, string, string) {
    match pm
    case Npm => ("npm", "install", if dev then "--save-dev" else "--save")
    case Yarn => ("yarn", "add", if dev then "--dev" else "")
    case Pnpm => ("pnpm", "add", if dev then "--save-dev" else "")
  }

  /** The one shell command that installs `deps` with `pm`: the three leading words and the
      packages, each followed by a single space. */
  function InstallCommand(pm: PackageManager, deps: seq<string>, dev: bool): (command: string)
    ensures StartsWith(command, WordsOf(pm, dev).0 + " " + WordsOf(pm, dev).1 + " ")
    ensures EndsWith(command, " " + JoinWith(deps, " "))
  {
    var (manager, verb, flag) := WordsOf(pm, dev);
    var head := manager + " " + verb + " ";
    var command := head + flag + " " + JoinWith(deps, " ");
    assert command == head + (flag + " " + JoinWith(deps, " "));
    assert command == (head + flag) + (" " + JoinWith(deps, " "));
    command
  }

  /** `getInstallCommands`: exactly one command per call. */
  function GetInstallCommands(pm: PackageManager, deps: seq<string>, dev: bool): (commands: seq<string>)
    ensures |commands| == 1
  {
    [InstallCommand(pm, deps, dev)]
  }

  /** Reads an install command back: the manager, the packages and whether it is a dev install. */
  function ParseInstallCommand(command: string): Option<(PackageManager, seq<string>, bool)> {
    var w := SplitOnSpace(command);
    if |w| < 4 then None
    else if w[0] == "npm" && w[1] == "install" && w[2] == "--save-dev" then Some((Npm, w[3..], true))
    else if w[0] == "npm" && w[1] == "install" && w[2] == "--save" then Some((Npm, w[3..], false))
    else if w[0] == "yarn" && w[1] == "add" && w[2] == "--dev" then Some((Yarn, w[3..], true))
    else if w[0] == "yarn" && w[1] == "add" && w[2] == "" then Some((Yarn, w[3..], false))
    else if w[0] == "pnpm" && w[1] == "add" && w[2] == "--save-dev" then Some((Pnpm, w[3..], true))
    else if w[0] == "pnpm" && w[1] == "add" && w[2] == "" then Some((Pnpm, w[3..], false))
    else None
  }

  /** An install command names its manager, carries exactly the requested packages in order,
      single-space separated, and shows whether it is a dev install. */
  lemma InstallCommandRoundTrip(pm: PackageManager, deps: seq<string>, dev: bool)
    requires |deps| >= 1
    requires forall i :: 0 <= i < |deps| ==> ' ' !in deps[i]
    ensures ParseInstallCommand(InstallCommand(pm, deps, dev)) == Some((pm, deps, dev))
  {
    CommandWords(pm, deps, dev);
    ParseLeadingWords(InstallCommand(pm, deps, dev), pm, deps, dev);
  }

  /** An install command splits into its three leading words and then the packages. */
  lemma CommandWords(pm: PackageManager, deps: seq<string>, dev: bool)
    requires |deps| >= 1
    requires forall i :: 0 <= i < |deps| ==> ' ' !in deps[i]
    ensures SplitOnSpace(InstallCommand(pm, deps, dev))
      == [WordsOf(pm, dev).0, WordsOf(pm, dev).1, WordsOf(pm, dev).2] + deps
  {
    var joined := JoinWith(deps, " ");
    var (a, b, c) := WordsOf(pm, dev);
    assert a + " " + b + " " + c + " " + joined == a + " " + (b + " " + (c + " " + joined));
    SplitJoin(deps);
    SplitThreeWords(a, b, c, joined);
  }

  /** A command whose words are a manager's three leading words followed by packages parses back. */
  lemma ParseLeadingWords(command: string, pm: PackageManager, deps: seq<string>, dev: bool)
    requires |deps| >= 1
    requires SplitOnSpace(command) == [WordsOf(pm, dev).0, WordsOf(pm, dev).1, WordsOf(pm, dev).2] + deps
    ensures ParseInstallCommand(command) == Some((pm, deps, dev))
  {
    var w := SplitOnSpace(command);
    assert w[3..] == deps;
    assert w[0] == WordsOf(pm, dev).0 && w[1] == WordsOf(pm, dev).1 && w[2] == WordsOf(pm, dev).2;
    match pm {
      case Npm =>
        assert w[0] == "npm" && w[1] == "install";
        if !dev {
          assert w[2] == "--save" && |w[2]| != |"--save-dev"|;
        }
      case Yarn =>
        assert w[0] == "yarn" && w[0] != "npm";
      case Pnpm =>
        assert w[0] == "pnpm" && w[0] != "npm" && w[0] != "yarn";
    }
  }


  lemma SplitThreeWords(a: string, b: string, c: string, rest: string)
    requires ' ' !in a && ' ' !in b && ' ' !in c
    ensures SplitOnSpace(a + " " + (b + " " + (c + " " + rest))) == [a, b, c] + SplitOnSpace(rest)
  {
    SplitFirstWord(c, rest);
    SplitFirstWord(b, c + " " + rest);
    SplitFirstWord(a, b + " " + (c + " " + rest));
  }

  /** The manager used for an install: the explicit choice, else detection in `cwd`. */
  function ChosenManager(files: Files, dirs: set<Path>, packageManager: Option<PackageManager>,
                         cwd: Path): PackageManager
  {
    packageManager.GetOr(DetectedManager(files, dirs, cwd))
  }

  /** `installDependencies`: nothing at all for an empty list; otherwise exactly one command for the
      chosen manager is run, and its failure is rethrown. */
  method InstallDependencies(host: Host, deps: seq<string>, dev: bool,
                             packageManager: Option<PackageManager>, cwd: Path) returns (r: Outcome)
    modifies host`execLog
    ensures |deps| == 0 ==> r == Pass && host.execLog == old(host.execLog)
    ensures |deps| > 0 ==>
      var command := InstallCommand(ChosenManager(host.files, host.dirs, packageManager, cwd), deps, dev);
      && host.execLog == old(host.execLog) + [command]
      && (r.Pass? <==> command !in host.failingCommands)
  {
    if |deps| == 0 {
      return Pass;
    }
    var pm: PackageManager;
    if packageManager.Some? {
      pm := packageManager.value;
    } else {
      pm := DetectPackageManager(host, cwd);
    }
    var commands := GetInstallCommands(pm, deps, dev);
    assert pm == ChosenManager(host.files, host.dirs, packageManager, cwd);
    var i := 0;
    while i < |commands|
      invariant 0 <= i <= |commands|
      invariant host.execLog == old(host.execLog) + commands[..i]
      invariant forall j :: 0 <= j < i ==> commands[j] !in host.failingCommands
    {
      var ran := host.Exec(commands[i]);
      if ran.Fail? {
        return ran;
      }
      i := i + 1;
    }
    assert commands[0] !in host.failingCommands;
    return Pass;
  }

  /** A section lookup: `section?.[name]`. */
  function Lookup(section: Option<map<string, string>>, name: string): Option<string> {
    if section.Some? && name in section.value then Some(section.value[name]) else None
  }

  /** JavaScript truthiness of a looked-up version string. */
  predicate Truthy(v: Option<string>) {
    v.Some? && v.value != ""
  }

  /** The package.json in `cwd`, when there is one that reads as a package document. */
  function ReadPackageJson(host: Host, cwd: Path): Option<PackageJson>
    reads host`files, host`dirs
  {
    var path := Join(cwd, "package.json");
    if !host.Exists(path) then None
    else match host.ReadJson(path)
      case Ok(PackageDoc(pkg)) => Some(pkg)
      case _ => None
  }

  /** A non-empty entry for `name` in dependencies, devDependencies or peerDependencies. */
  predicate ListedIn(pkg: PackageJson, name: string) {
    Truthy(Lookup(pkg.dependencies, name)) || Truthy(Lookup(pkg.devDependencies, name))
    || Truthy(Lookup(pkg.peerDependencies, name))
  }

  /** `isPackageInstalled`: a truthy entry in dependencies, devDependencies or peerDependencies;
      false when package.json is missing or unreadable. A package counts only when one of the
      three sections lists it under its own name. */
  function IsPackageInstalled(host: Host, name: string, cwd: Path): (installed: bool)
    reads host`files, host`dirs
    ensures ReadPackageJson(host, cwd).None? ==> !installed
    ensures installed ==> var pkg := ReadPackageJson(host, cwd).value;
      || (pkg.dependencies.Some? && name in pkg.dependencies.value)
      || (pkg.devDependencies.Some? && name in pkg.devDependencies.value)
      || (pkg.peerDependencies.Some? && name in pkg.peerDependencies.value)
  {
    match ReadPackageJson(host, cwd)
    case None => false
    case Some(pkg) => ListedIn(pkg, name)
  }

  /** `getInstalledVersion`: the first truthy entry of dependencies, devDependencies,
      peerDependencies, in that order; none when there is none or no readable package.json. */
  function GetInstalledVersion(host: Host, name: string, cwd: Path): (version: Option<string>)
    reads host`files, host`dirs
    ensures version.Some? ==> version.value != ""
    ensures ReadPackageJson(host, cwd).None? ==> version.None?
    ensures ReadPackageJson(host, cwd).Some? ==>
      var pkg := ReadPackageJson(host, cwd).value;
      var dep := Lookup(pkg.dependencies, name);
      var dev := Lookup(pkg.devDependencies, name);
      var peer := Lookup(pkg.peerDependencies, name);
      && (Truthy(dep) ==> version == dep)
      && (!Truthy(dep) && Truthy(dev) ==> version == dev)
      && (!Truthy(dep) && !Truthy(dev) ==> version == if Truthy(peer) then peer else None)
  {
    match ReadPackageJson(host, cwd)
    case None => None
    case Some(pkg) =>
      if Truthy(Lookup(pkg.dependencies, name)) then Lookup(pkg.dependencies, name)
      else if Truthy(Lookup(pkg.devDependencies, name)) then Lookup(pkg.devDependencies, name)
      else if Truthy(Lookup(pkg.peerDependencies, name)) then Lookup(pkg.peerDependencies, name)
      else None
  }

  /** `section?.[name]` as written is truthy for a non-empty own entry and, in a present section
      without an own entry, for any member every plain object inherits. */
  predicate TruthyAsWritten(section: Option<map<string, string>>, name: string) {
    Truthy(Lookup(section, name))
    || (section.Some? && name !in section.value && name in PrototypeNames)
  }

  /** The test `isPackageInstalled` applies to a read package document, as written. */
  predicate ListedInAsWritten(pkg: PackageJson, name: string) {
    TruthyAsWritten(pkg.dependencies, name) || TruthyAsWritten(pkg.devDependencies, name)
    || TruthyAsWritten(pkg.peerDependencies, name)
  }

  /** A package.json with an empty dependencies section: as written, "constructor" counts as
      installed (and `getInstalledVersion` would report a function as its version), though no
      section lists it; the model's own-key lookup does not count it. */
  lemma PrototypeNameInstalledAsWritten(pkg: PackageJson)
    requires pkg.dependencies == Some(map[])
    ensures ListedInAsWritten(pkg, "constructor")
    ensures !((pkg.dependencies.Some? && "constructor" in pkg.dependencies.value)
              || (pkg.devDependencies.Some? && "constructor" in pkg.devDependencies.value)
              || (pkg.peerDependencies.Some? && "constructor" in pkg.peerDependencies.value))
      ==> !ListedIn(pkg, "constructor")
  {
    assert "constructor" in PrototypeNames;
  }

  /** A package counts as installed exactly when a version is reported for it. */
  lemma InstalledIffVersioned(host: Host, name: string, cwd: Path)
    ensures IsPackageInstalled(host, name, cwd) <==> GetInstalledVersion(host, name, cwd).Some?
  {
  }

  /** The sections `updatePackageJson` may be given. */
  datatype PackageUpdates = PackageUpdates(
    dependencies: Option<map<string, string>>,
    devDependencies: Option<map<string, string>>,
    scripts: Option<map<string, string>>)

  /** `{ ...old, ...update }` when an update is provided, else the section untouched. */
  ghost predicate SpreadMerged(before: Option<map<string, string>>, update: Option<map<string, string>>,
                               merged: Option<map<string, string>>)
  {
    if update.None? then merged == before
    else
      && merged.Some?
      && merged.value.Keys == before.GetOr(map[]).Keys + update.value.Keys
      && (forall k :: k in update.value ==> merged.value[k] == update.value[k])
      && (forall k :: k in before.GetOr(map[]) && k !in update.value ==> merged.value[k] == before.value[k])
  }

  /** The package document after the update: each provided section merged with the update's keys
      winning; other sections and top-level fields unchanged. */
  function MergeUpdates(pkg: PackageJson, updates: PackageUpdates): (merged: PackageJson)
    ensures SpreadMerged(pkg.dependencies, updates.dependencies, merged.dependencies)
    ensures SpreadMerged(pkg.devDependencies, updates.devDependencies, merged.devDependencies)
    ensures SpreadMerged(pkg.scripts, updates.scripts, merged.scripts)
    ensures merged.peerDependencies == pkg.peerDependencies && merged.others == pkg.others
  {
    var withDeps :=
      if updates.dependencies.Some?
      then pkg.(dependencies := Some(pkg.dependencies.GetOr(map[]) + updates.dependencies.value))
      else pkg;
    var withDev :=
      if updates.devDependencies.Some?
      then withDeps.(devDependencies := Some(pkg.devDependencies.GetOr(map[]) + updates.devDependencies.value))
      else withDeps;
    if updates.scripts.Some?
    then withDev.(scripts := Some(pkg.scripts.GetOr(map[]) + updates.scripts.value))
    else withDev
  }

  /** `updatePackageJson`: read, merge in place, write back; a read or write failure is rethrown
      and leaves the file as it was. */
  method UpdatePackageJson(host: Host, updates: PackageUpdates, cwd: Path) returns (r: Outcome)
    modifies host`files
    ensures var path := Join(cwd, "package.json");
      var read := old(host.ReadJson(path));
      && (r.Pass? <==> read.Ok? && read.value.PackageDoc? && path !in host.unwritable)
      && host.files == if r.Pass? then old(host.files)[path := Json(PackageDoc(MergeUpdates(read.value.package, updates)))]
                       else old(host.files)
  {
    var path := Join(cwd, "package.json");
    var read := host.ReadJson(path);
    if read.Err? || !read.value.PackageDoc? {
      return Fail("Failed to update package.json: could not read " + path);
    }
    var pkg := read.value.package;
    if updates.dependencies.Some? {
      pkg := pkg.(dependencies := Some(pkg.dependencies.GetOr(map[]) + updates.dependencies.value));
    }
    if updates.devDependencies.Some? {
      pkg := pkg.(devDependencies := Some(pkg.devDependencies.GetOr(map[]) + updates.devDependencies.value));
    }
    if updates.scripts.Some? {
      pkg := pkg.(scripts := Some(pkg.scripts.GetOr(map[]) + updates.scripts.value));
    }
    var written := host.WriteJson(path, PackageDoc(pkg));
    if written.Fail? {
      return Fail("Failed to update package.json: " + written.error);
    }
    return Pass;
  }

  /** The install commands of a run, and whether all of them succeeded: the runtime list first if
      non-empty, then the dev list if non-empty; a failing command ends the run. */
  function InstallRun(pm: PackageManager, runtime: seq<string>, dev: seq<string>, failing: set<string>): (seq<string>, bool) {
    var first := if |runtime| > 0 then [InstallCommand(pm, runtime, false)] else [];
    if |runtime| > 0 && first[0] in failing then (first, false)
    else
      var second := if |dev| > 0 then [InstallCommand(pm, dev, true)] else [];
      (first + second, !(|dev| > 0 && second[0] in failing))
  }

  /** At most two install commands, the runtime union without the dev flag first, then the dev
      union with it; a failing command stops the run, and only a fully successful run goes on. */
  lemma InstallRunShape(pm: PackageManager, runtime: seq<string>, dev: seq<string>, failing: set<string>)
    ensures var (ran, ok) := InstallRun(pm, runtime, dev, failing);
      && |ran| <= 2
      && (forall i :: 0 <= i < |ran| ==>
            ran[i] == InstallCommand(pm, runtime, false) || ran[i] == InstallCommand(pm, dev, true))
      && (|runtime| > 0 ==> |ran| >= 1 && ran[0] == InstallCommand(pm, runtime, false))
      && (ok <==> forall i :: 0 <= i < |ran| ==> ran[i] !in failing)
      && (ok ==> |ran| == (if |runtime| > 0 then 1 else 0) + (if |dev| > 0 then 1 else 0))
  {
    var first := if |runtime| > 0 then [InstallCommand(pm, runtime, false)] else [];
    var second := if |dev| > 0 then [InstallCommand(pm, dev, true)] else [];
    if !(|runtime| > 0 && first[0] in failing) {
      var ran := first + second;
      assert forall i :: 0 <= i < |first| ==> ran[i] == first[i];
      assert forall i :: |first| <= i < |ran| ==> ran[i] == second[i - |first|];
      if |dev| > 0 && second[0] in failing {
        assert ran[|first|] in failing;
      }
    }
  }
}
