/** The project configuration store: `bna.json` in the project root, cached after the first
    successful read. */
module ConfigManager {
  import opened Util
  import opened Types
  import opened Environment

  const ConfigFile: string := "bna.json"

  /** The configuration `init` writes: TypeScript without Tailwind, every directory of the layout
      under `src`, and utils and theme under `lib`. */
  function DefaultConfig(): (c: Config)
    ensures c.typescript && !c.tailwind
    ensures StartsWith(c.components, c.src + "/") && StartsWith(c.lib, c.src + "/")
      && StartsWith(c.hooks, c.src + "/") && StartsWith(c.utils, c.lib + "/")
      && StartsWith(c.theme, c.lib + "/")
  {
    Config(
      typescript := true,
      tailwind := false,
      src := "src",
      components := "src/components",
      utils := "src/lib/utils",
      lib := "src/lib",
      hooks := "src/hooks",
      theme := "src/lib/theme")
  }

  /** What reading `bna.json` in `cwd` yields when nothing is cached: the stored configuration,
      or nothing when the file is missing or does not parse as a configuration document. */
  function StoredConfig(host: Host, cwd: Path): Option<Config>
    reads host`files, host`dirs
  {
    var path := Join(cwd, ConfigFile);
    if !host.Exists(path) then None
    else match host.ReadJson(path)
      case Ok(ConfigDoc(c)) => Some(c)
      case _ => None
  }

  function ResolveComponentPath(componentPath: Path, config: Config): Path {
    Join(config.components, componentPath)
  }

  function ResolveUtilsPath(config: Config): Path { config.utils }

  function ResolveLibPath(config: Config): Path { config.lib }

  function ResolveHooksPath(config: Config): Path { config.hooks }

  function ResolveThemePath(config: Config): Path { config.theme }

  /** Component paths resolve under the components directory; the other resolvers hand back their
      configured directory unchanged. */
  lemma ResolversFollowConfig(config: Config, componentPath: Path)
    ensures config.components != "" ==>
      ResolveComponentPath(componentPath, config) == config.components + "/" + componentPath
    ensures config.components == "" ==> ResolveComponentPath(componentPath, config) == componentPath
    ensures ResolveUtilsPath(config) == config.utils && ResolveLibPath(config) == config.lib
    ensures ResolveHooksPath(config) == config.hooks && ResolveThemePath(config) == config.theme
  {
  }

  /** The configuration manager: `config` is its in-memory cache. */
  class ConfigStore {
    var config: Option<Config>

    constructor ()
      ensures config == None
    {
      config := None;
    }

    /** `getConfig`: a cached configuration is returned without touching the filesystem, whatever
        `cwd` is; otherwise the stored one is read and cached, and a missing or unreadable file
        gives nothing and leaves the cache empty. */
    method GetConfig(host: Host, cwd: Path) returns (r: Option<Config>)
      modifies this
      ensures old(config).Some? ==> r == old(config) && config == old(config)
      ensures old(config).None? ==> r == StoredConfig(host, cwd) && config == r
    {
      if config.Some? {
        return config;
      }
      var path := Join(cwd, ConfigFile);
      if host.Exists(path) {
        var read := host.ReadJson(path);
        if read.Ok? && read.value.ConfigDoc? {
          config := Some(read.value.config);
          return config;
        }
        return None;
      }
      return None;
    }

    /** `setConfig`: the cache is updated only after the write succeeds; a failed write is
        rethrown and leaves the cache as it was. */
    method SetConfig(host: Host, c: Config, cwd: Path) returns (r: Outcome)
      modifies this, host`files
      ensures r.Pass? <==> Join(cwd, ConfigFile) !in host.unwritable
      ensures host.files == if r.Pass? then old(host.files)[Join(cwd, ConfigFile) := Json(ConfigDoc(c))]
                            else old(host.files)
      ensures config == if r.Pass? then Some(c) else old(config)
    {
      var path := Join(cwd, ConfigFile);
      var written := host.WriteJson(path, ConfigDoc(c));
      if written.Fail? {
        return Fail("Failed to save config: " + written.error);
      }
      config := Some(c);
      return Pass;
    }

    /** `initConfig`: stores the default configuration and returns it; afterwards `GetConfig`
        returns that same value. */
    method InitConfig(host: Host, cwd: Path) returns (r: Result<Config>)
      modifies this, host`files
      ensures r.Ok? <==> Join(cwd, ConfigFile) !in host.unwritable
      ensures r.Ok? ==> r.value == DefaultConfig() && config == Some(DefaultConfig())
      ensures host.files == if r.Ok? then old(host.files)[Join(cwd, ConfigFile) := Json(ConfigDoc(DefaultConfig()))]
                            else old(host.files)
      ensures r.Err? ==> config == old(config)
    {
      var c := DefaultConfig();
      var saved := SetConfig(host, c, cwd);
      if saved.Fail? {
        return Err(saved.error);
      }
      return Ok(c);
    }
  }
}
