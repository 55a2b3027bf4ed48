# bna UI: install workflow and core utilities, modelled in Dafny

This project models the `bna` command-line tool of the ahmedbna/ui repository, plus the small pure
utilities of its core package. The CLI commands modelled are:

- `bna add`: validates the requested component names against a component registry. It refuses the
  whole batch if any name is unknown. Unless `--overwrite` is given, it stops without changes if
  a component's file already exists. Otherwise it installs the union of the components' runtime dependencies and then dev
  dependencies, and writes every component file in request order.
- `bna list`: works out which registry components are installed (some declared file is present)
  and prints the aligned report with totals and a hint.
- `bna init`, after its prompts: writes the configuration, creates the ten directories, writes the
  generated theme, utility, hook and type files, installs the fixed packages, writes the project
  configuration files and replaces `App.tsx`.

These commands use four helpers:

- the configuration store (`bna.json` and its in-memory cache);
- the dependency manager (lockfile detection, install commands, `package.json` lookups and
  updates);
- the template engine (`{{ KEY }}` substitution, template-path rewriting, the component skeleton);
- the component registry (a local registry file or the built-in ten-entry table).

From the core package the project models:

- the hex colour helpers;
- style merging and breakpoint selection;
- the theme provider's colour-scheme state and theme merge.

The filesystem is the `Environment.Host` class. It holds a map from paths to entries, a set of
directories and a log of shell commands run. Two fixed sets fix its environment: the paths where a
write fails and the commands that exit non-zero. Paths are relative to the project root, which is
written `""`.

The Dafny files are:

- util, types, environment;
- config_manager, dependency_manager, template_engine, registry;
- add, list, init;
- color_utils, styles, theme_provider.

Each state-changing operation is a method. Its `ensures` ties the new state to a specification
function, for example `WriteSeq`, `AddSpec` or `InitSpec`. The properties are lemmas about those
functions.

## Model

| member | source | states |
|---|---|---|
| Util.PadEnd | packages/cli/src/commands/list.ts:42 | padding keeps the name as a prefix and fills only with spaces, one per missing UTF-16 code unit, never truncating |
| Util.PadEndUnits | packages/cli/src/commands/list.ts:42 | the padded name is exactly the width in UTF-16 code units, or the name itself when it is already that long |
| Environment.Host.ReadJson | packages/cli/src/utils/file-operations.ts:58-64 | reading JSON succeeds iff the path holds a JSON document |
| Environment.Host.ReadText | packages/cli/src/utils/file-operations.ts:16-22 | reading text succeeds iff the path holds a text file |
| Environment.Host.WriteFile | packages/cli/src/utils/file-operations.ts:24-31 | a write succeeds iff the path is writable; then only that path changes, otherwise nothing does |
| Environment.Host.WriteJson | packages/cli/src/utils/file-operations.ts:66-73 | the same for a JSON document |
| Environment.Host.CopyFile | packages/cli/src/utils/file-operations.ts:33-40 | a copy succeeds iff the source exists and the target is writable; the target then holds the source's entry |
| Environment.Host.EnsureDir | packages/cli/src/utils/file-operations.ts:42-48 | the directory is added iff it is writable |
| Environment.Host.Exec | packages/cli/src/utils/dependency-manager.ts:49-51 | every command run is appended to the log; it fails iff it is a failing command |
| Environment.WriteSeqSucceeds | packages/cli/src/commands/add.ts:274-282 | a run of writes that rethrows on failure succeeds iff no target is unwritable, and then performs every write in order |
| Environment.WriteSeqStops | packages/cli/src/commands/add.ts:285-288 | a failed run stops at its first unwritable target, and the writes before it stay on disk |
| Environment.WriteSeqConcat | packages/cli/src/commands/init.ts:193-205 | running two groups of writes is the first group followed, only if it succeeded, by the second |
| Environment.WriteSeqAfter | packages/cli/src/commands/add.ts:274-282 | after k successful writes the rest of the run starts from their result |
| ConfigManager.DefaultConfig | packages/cli/src/utils/config-manager.ts:44-55 | the default configuration uses TypeScript without Tailwind and puts components, lib and hooks under `src` and utils and theme under `src/lib` |
| ConfigManager.ResolversFollowConfig | packages/cli/src/utils/config-manager.ts:63-81 | a component path resolves under the components directory; the other resolvers return their configured directory |
| ConfigManager.ConfigStore.constructor | packages/cli/src/utils/config-manager.ts:10 | the cache starts empty |
| ConfigManager.ConfigStore.GetConfig | packages/cli/src/utils/config-manager.ts:12-30 | a cached configuration is returned whatever `cwd` is; otherwise the stored `bna.json` is read and cached, and a missing or unreadable file gives nothing and leaves the cache empty |
| ConfigManager.ConfigStore.SetConfig | packages/cli/src/utils/config-manager.ts:32-42 | the cache changes only after the write succeeds; a failed write leaves cache and files as they were |
| ConfigManager.ConfigStore.InitConfig | packages/cli/src/utils/config-manager.ts:57-61 | on success the default configuration is stored, returned and cached, so the next `GetConfig` returns it |
| DependencyManager.DetectPackageManager | packages/cli/src/utils/dependency-manager.ts:13-29 | pnpm iff `pnpm-lock.yaml` exists, else yarn iff `yarn.lock` exists, else npm, whether or not `package-lock.json` exists |
| DependencyManager.InstallCommand | packages/cli/src/utils/dependency-manager.ts:66-74 | a command starts with the manager and its install verb and ends with the packages joined by single spaces |
| DependencyManager.GetInstallCommands | packages/cli/src/utils/dependency-manager.ts:61-78 | exactly one command per call |
| DependencyManager.InstallCommandRoundTrip | packages/cli/src/utils/dependency-manager.ts:66-74 | an install command parses back to its manager, the exact package list in order and the dev flag, so the words are single-space separated and the flag is `--save-dev`/`--save`, `--dev`/none, `--save-dev`/none |
| DependencyManager.InstallDependencies | packages/cli/src/utils/dependency-manager.ts:31-59 | an empty list runs nothing; otherwise one command for the explicit manager or the detected one is run, and the call fails iff that command fails |
| DependencyManager.IsPackageInstalled | packages/cli/src/utils/dependency-manager.ts:80-99 | false without a readable `package.json`; a package counts only when one of the three sections has an entry of that name |
| DependencyManager.GetInstalledVersion | packages/cli/src/utils/dependency-manager.ts:101-121 | a reported version is non-empty; none without a readable `package.json`; otherwise the first truthy entry of `dependencies`, `devDependencies`, `peerDependencies`, in that order, or none |
| DependencyManager.PrototypeNameInstalledAsWritten | packages/cli/src/utils/dependency-manager.ts:92-94 | with an empty `dependencies` section the lookup as written counts "constructor" as installed, though no section lists it; the own-name lookup does not |
| DependencyManager.InstalledIffVersioned | packages/cli/src/utils/dependency-manager.ts:80-121 | a package counts as installed iff a version is reported for it |
| DependencyManager.MergeUpdates | packages/cli/src/utils/dependency-manager.ts:136-152 | each provided section is the union of old and update keys with update values winning; sections not provided, `peerDependencies` and all other fields are unchanged |
| DependencyManager.UpdatePackageJson | packages/cli/src/utils/dependency-manager.ts:123-158 | succeeds iff `package.json` reads as a package document and is writable; then it holds the merged document, otherwise files are unchanged |
| DependencyManager.InstallRunShape | packages/cli/src/commands/add.ts:248-258 | at most two installs, the runtime list first without the dev flag, then the dev list with it; the run succeeds iff no command run failed, and then both non-empty lists were installed |
| TemplateEngine.InterpolateVariables | packages/cli/src/utils/template-engine.ts:15-28 | the loop result is the entry-order substitution of every variable |
| TemplateEngine.InterpolateIdentity | packages/cli/src/utils/template-engine.ts:19-27 | with no variables, or content without `{{`, the output equals the input |
| TemplateEngine.ReplaceAll | packages/cli/src/utils/template-engine.ts:23-24 | the global replace leaves content without `{{` unchanged, whatever the value |
| TemplateEngine.Fill | packages/cli/src/utils/template-engine.ts:23-24 | exactly the placeholders for the key become the value, everything else is kept in place |
| TemplateEngine.SpaceRunStops | packages/cli/src/utils/template-engine.ts:23 | the greedy `\s*` consumes only whitespace and stops at the first character that is not whitespace |
| TemplateEngine.MatchAtBounds | packages/cli/src/utils/template-engine.ts:23 | a match starting at a position covers more than the two opening braces and stays inside the text |
| TemplateEngine.OtherHoleNoMatch | packages/cli/src/utils/template-engine.ts:23 | no backtracking choice of leading spaces lets the pattern for one plain name match a placeholder for another |
| TemplateEngine.Expand | packages/cli/src/utils/template-engine.ts:24 | a replacement value without `$` is inserted as it is |
| TemplateEngine.LiteralPasses | packages/cli/src/utils/template-engine.ts:23-24 | literal text with no "{{" inside and no "{" at its end is copied by the scan, which goes on after it |
| TemplateEngine.OwnHoleReplaced | packages/cli/src/utils/template-engine.ts:23-24 | `{{`, spaces, the key, spaces, `}}` becomes the expansion of the value, with `$&`, `$$`, `` $` `` and `$'` seeing the placeholder and the text around it, and the scan resumes after it |
| TemplateEngine.DollarPatterns | packages/cli/src/utils/template-engine.ts:24 | a value of `$&` puts the placeholder back and a value of `$$` inserts one dollar sign |
| TemplateEngine.OtherHoleKept | packages/cli/src/utils/template-engine.ts:23-24 | a placeholder for a different plain name is copied unchanged |
| TemplateEngine.ReplaceAllLiteral | packages/cli/src/utils/template-engine.ts:23-24 | literal text with no "{{" inside and no "{" at its end passes through the replace unchanged |
| TemplateEngine.RenderedFrom | packages/cli/src/utils/template-engine.ts:23-24 | the scan over a rendered template replaces each placeholder of the key by its expansion and keeps every other segment |
| TemplateEngine.FillInPlain | packages/cli/src/utils/template-engine.ts:24 | with a value free of `$`, every expansion is the value itself |
| TemplateEngine.ReplaceRendered | packages/cli/src/utils/template-engine.ts:22-25 | substituting one variable in a template made of text and placeholders replaces every placeholder of that name, however spaced, by its expansion, and nothing else; a value free of `$` is inserted as it is |
| TemplateEngine.InterpolateRendered | packages/cli/src/utils/template-engine.ts:19-27 | with plain names and values free of braces and `$`, interpolation fills the template's placeholders variable by variable in entry order |
| TemplateEngine.FillAllFirst | packages/cli/src/utils/template-engine.ts:22-25 | a placeholder takes the value of the first variable of its name; later ones find nothing left to replace |
| TemplateEngine.GetTemplateVariables | packages/cli/src/utils/template-engine.ts:42-52 | seven variables with pairwise different names, the first the TypeScript flag as "true"/"false" and the last the theme path |
| TemplateEngine.TemplateVariablesPlain | packages/cli/src/utils/template-engine.ts:42-52 | the seven variable names are plain names and, for brace-free paths, no value introduces a brace |
| TemplateEngine.PlaceholderBecomesValue | packages/cli/src/utils/template-engine.ts:42-52 | a spaced `THEME_PATH` placeholder becomes the configured theme path and a `TYPESCRIPT` placeholder becomes "true"/"false" |
| TemplateEngine.TargetName | packages/cli/src/utils/template-engine.ts:63 | the target name is the relative path unchanged iff it holds no ".template", and otherwise nine characters shorter |
| TemplateEngine.TargetNameOfTemplate | packages/cli/src/utils/template-engine.ts:63-65 | `x.template.tsx` and `x.template.ts` are template files and are written to `x.tsx` and `x.ts` |
| TemplateEngine.CopyPlanFrame | packages/cli/src/utils/template-engine.ts:61-70 | paths that are no file's target keep their entry |
| TemplateEngine.CopyPlanWritesFile | packages/cli/src/utils/template-engine.ts:61-70 | after a successful copy, every file's target holds its interpolated source text (a template) or its source entry (any other file), unless a later file has the same target or an earlier one overwrote its source |
| TemplateEngine.CopyTemplateFiles | packages/cli/src/utils/template-engine.ts:54-71 | templates are interpolated and other files copied, in order, stopping at the first failure |
| TemplateEngine.CreateComponentTemplate | packages/cli/src/utils/template-engine.ts:97-121 | the name appears as the props-interface prefix and again as the function name, and the skeleton grows by three characters per character of the name |
| TemplateEngine.ComponentTemplateInjective | packages/cli/src/utils/template-engine.ts:97-121 | different names give different skeletons |
| Registry.BuiltInRegistry | packages/cli/src/commands/add.ts:72-185 | the built-in table has its ten keys in declaration order and their entries |
| Registry.BuiltInWellFormed | packages/cli/src/commands/add.ts:72-185 | the built-in table has each key once |
| Registry.BuiltInShape | packages/cli/src/commands/list.ts:84-197 | each built-in component installs `ui/<key>.tsx` from `<key>.template.tsx` and has no dev dependencies |
| Registry.GetComponentRegistry | packages/cli/src/commands/add.ts:53-70 | anything other than the built-in table comes from the local registry file |
| Registry.RegistryChoice | packages/cli/src/commands/list.ts:65-82 | the local file is used iff it reads as a registry document; a missing or unparsable file falls back to the built-in table |
| AddCommand.GenerateComponentContent | packages/cli/src/commands/add.ts:291-320 | the generic skeleton is used iff the template id is not one of the ten known ids |
| AddCommand.BuiltInUsesGenerators | packages/cli/src/commands/add.ts:72-185 | every built-in file uses one of the ten known template ids |
| AddCommand.ValidationSplits | packages/cli/src/commands/add.ts:197-206 | every requested name lands in exactly one list: known iff it is a registry key, missing iff it is not |
| AddCommand.NothingUnknown | packages/cli/src/commands/add.ts:208 | nothing is missing iff every name is a key, and then all names are added in request order |
| AddCommand.ValidateNames | packages/cli/src/commands/add.ts:193-206 | the loop returns the known and the missing names in request order |
| AddCommand.ExistingIff | packages/cli/src/commands/add.ts:218-228 | a component is flagged existing iff one of its files exists under the components directory, and at most once per request |
| AddCommand.FindExisting | packages/cli/src/commands/add.ts:219-228 | the nested loop with `break` computes exactly that list |
| AddCommand.AddNewContents | packages/cli/src/commands/add.ts:242-244 | adding to a set keeps first-seen order, adds no duplicate and yields the union |
| AddCommand.UnionsAreDeclared | packages/cli/src/commands/add.ts:238-246 | the runtime and dev install lists hold each package once and exactly the packages declared by the components, with an absent dev list counting as empty |
| AddCommand.CollectDependencies | packages/cli/src/commands/add.ts:238-246 | the loops compute those two lists |
| AddCommand.ComponentWrites | packages/cli/src/commands/add.ts:274-282 | one write per declared file |
| AddCommand.WritePlanAppend | packages/cli/src/commands/add.ts:261-263 | writes follow the components in request order |
| AddCommand.WritePlanTargets | packages/cli/src/commands/add.ts:274-281 | every write goes to `join(components, file.path)` with that file's generated content |
| AddCommand.AddSingleComponent | packages/cli/src/commands/add.ts:266-289 | a component's files are written in order and the first failure is rethrown |
| AddCommand.UnknownAborts | packages/cli/src/commands/add.ts:208-215 | any unknown name aborts with every unknown name in request order and every registry key listed, and with no install and no write, even for the valid names |
| AddCommand.ExistingStops | packages/cli/src/commands/add.ts:230-234 | without overwrite, an existing component stops the run before any install or write, and the report names exactly the existing ones |
| AddCommand.InstallsBeforeWrites | packages/cli/src/commands/add.ts:248-258 | installs happen first; a failing install ends the run with the files untouched |
| AddCommand.AddOutcome | packages/cli/src/commands/add.ts:260-263 | the run adds everything iff the installs succeed and every target is writable; a failed write leaves the earlier writes in place |
| AddCommand.RunInstalls | packages/cli/src/commands/add.ts:248-258 | the two install calls run the detected manager's commands of the install run |
| AddCommand.WriteComponents | packages/cli/src/commands/add.ts:260-263 | the component loop performs the write plan, stopping at the first failure |
| AddCommand.AddComponents | packages/cli/src/commands/add.ts:187-264 | files, log and outcome are those of the specification of the whole batch |
| AddCommand.AllRequestsEveryKey | packages/cli/src/commands/add.ts:37-40 | with `--all` the request is the registry's key list, all known, none missing |
| AddCommand.AddCommandRun | packages/cli/src/commands/add.ts:25-51 | without a configuration nothing changes; otherwise the batch runs on the key list or the given names; the store's cache ends holding the configuration read |
| ListCommand.ComputeInstalled | packages/cli/src/commands/list.ts:20-32 | the nested loop with `break` computes the installed set, which is empty without a configuration |
| ListCommand.InstalledWithinRegistry | packages/cli/src/commands/list.ts:21-53 | a component is installed iff it is a registry key with a file present; the installed count never exceeds the total |
| ListCommand.MaxKeyLength | packages/cli/src/commands/list.ts:35-37 | the column width is at least every key's `.length` in UTF-16 code units and equals the longest key's |
| ListCommand.SurrogateKeyWidth | packages/cli/src/commands/list.ts:35-42 | a key outside the Basic Multilingual Plane counts two code units: with keys "\u{1F600}" and "ab" the width is 2 and the emoji key is not padded |
| ListCommand.DepsSuffixShown | packages/cli/src/commands/list.ts:43-46 | the dependency note appears iff there are dependencies, and lists them joined by ", " |
| ListCommand.RowLayout | packages/cli/src/commands/list.ts:40-48 | a row is the status mark, a space, the name padded to the width, " - " and the display name; everything before the separator is the width plus two code units |
| ListCommand.Rows | packages/cli/src/commands/list.ts:39-49 | one row per registry key |
| ListCommand.ColumnsAligned | packages/cli/src/commands/list.ts:35-48 | for a width that fits every key, as MaxKeyLength's does, every row's separator starts after the same number of UTF-16 code units |
| ListCommand.ReportShape | packages/cli/src/commands/list.ts:39-58 | the rows come in key order between the break and the totals; the hint closes the report iff nothing is installed |
| ListCommand.NoConfigShowsHint | packages/cli/src/commands/list.ts:21-22 | without a configuration the report ends with the hint |
| ListCommand.BuildRows | packages/cli/src/commands/list.ts:39-49 | the display loop produces the rows |
| ListCommand.ListCommandRun | packages/cli/src/commands/list.ts:11-63 | the printed lines are the report for the chosen registry and the installed set; the store's cache ends holding the configuration read |
| InitCommand.EnsureSeqResult | packages/cli/src/commands/init.ts:179-187 | the directory loop succeeds iff every directory is creatable; then all of them exist |
| InitCommand.CreateDirectoryStructure | packages/cli/src/commands/init.ts:163-188 | the ten directories from the configuration are ensured in order, and the first failure is rethrown |
| InitCommand.FilesInsideInitDirectories | packages/cli/src/commands/init.ts:214 | every generated file lies directly inside one of the ten directories |
| InitCommand.CreateThemeFiles | packages/cli/src/commands/init.ts:213-353 | writes `theme/index.ts` |
| InitCommand.CreateUtilityFiles | packages/cli/src/commands/init.ts:355-440 | writes `cn.ts`, `colors.ts` and `index.ts` under utils, in that order |
| InitCommand.CreateHookFiles | packages/cli/src/commands/init.ts:442-567 | writes `useTheme.ts`, `useColorScheme.ts` and `index.ts` under hooks, then `theme-context.tsx` under lib |
| InitCommand.CreateTypeFiles | packages/cli/src/commands/init.ts:569-596 | writes `src/types/index.ts` |
| InitCommand.CopyInitFiles | packages/cli/src/commands/init.ts:190-211 | the four groups are written in order, and the first failure stops the step |
| InitCommand.InstallInitDependencies | packages/cli/src/commands/init.ts:598-623 | the fixed runtime list is installed, then the dev list with the dev flag |
| InitCommand.InitInstallsTwice | packages/cli/src/commands/init.ts:601-616 | the five runtime packages are always installed first, and a successful step ran exactly the two installs |
| InitCommand.SetupAdditionalConfigs | packages/cli/src/commands/init.ts:625-911 | writes tsconfig if absent, metro and babel, `.gitignore` if absent, then the README |
| InitCommand.ConfigWritesPreserve | packages/cli/src/commands/init.ts:627-910 | an existing tsconfig or `.gitignore` keeps its content, absent ones are created, and metro, babel and README are always overwritten |
| InitCommand.AfterInstalls | packages/cli/src/commands/init.ts:120-123 | the last two steps change neither directories nor log |
| InitCommand.AfterDirectories | packages/cli/src/commands/init.ts:114-123 | a failure while writing files happens before any install |
| InitCommand.InitOrder | packages/cli/src/commands/init.ts:107-123 | the configuration is written first, and if it fails nothing else happens; nothing is installed before the files are written; after the directory step all ten directories exist |
| InitCommand.InitCompleted | packages/cli/src/commands/init.ts:107-126 | a completed setup ran exactly two installs and left the new `App.tsx` |
| InitCommand.AppWritten | packages/cli/src/commands/init.ts:990 | `App.tsx` is replaced whenever the last steps complete |
| InitCommand.UpdateAppTsx | packages/cli/src/commands/init.ts:914-996 | a warning iff `App.tsx` was missing; the file is then written unconditionally |
| InitCommand.InitCommandRun | packages/cli/src/commands/init.ts:93-123 | the Expo warning iff an existing project has neither `app.json` nor `expo.json`, then the six steps in order, as the specification of the run states |
| ColorUtils.HexValue | packages/core/src/utils/color-utils.ts:14-16 | a hex digit's value is below 16 |
| ColorUtils.HexToRgb | packages/core/src/utils/color-utils.ts:8-19 | succeeds iff the text is an optional `#` and exactly six hex digits of either case, and then every channel lies in 0..255 |
| ColorUtils.ToHexSplit | packages/core/src/utils/color-utils.ts:25 | printing `hi * 16^k + lo` in base 16 prints `hi` and then the k padded digits of `lo` |
| ColorUtils.RgbToHexDigits | packages/core/src/utils/color-utils.ts:24-26 | for channels in 0..255 the result is `#` and two lowercase digits per channel |
| ColorUtils.RgbRoundTrip | packages/core/src/utils/color-utils.ts:8-26 | parsing a formatted colour gives its channels back |
| ColorUtils.HexRoundTrip | packages/core/src/utils/color-utils.ts:8-26 | formatting a parsed colour gives its six digits in lower case behind a `#` |
| ColorUtils.IsValidHex | packages/core/src/utils/color-utils.ts:84-86 | a valid colour starts with `#` |
| ColorUtils.ValidHexVersusParse | packages/core/src/utils/color-utils.ts:84-86 | for a colour starting with `#`, `hexToRgb` succeeds iff it is valid and seven characters long; a valid four-character one such as `#abc` does not parse |
| ColorUtils.LightenChannel | packages/core/src/utils/color-utils.ts:46-48 | a lightened channel stays in 0..255 and, for a non-negative percentage, does not drop |
| ColorUtils.DarkenChannel | packages/core/src/utils/color-utils.ts:61-63 | a darkened channel stays between 0 and its old value |
| ColorUtils.AddAlpha | packages/core/src/utils/color-utils.ts:31-36 | unparsable input is returned unchanged; a parsable colour gives an `rgba(` string ending in the alpha and `)` |
| ColorUtils.Lighten | packages/core/src/utils/color-utils.ts:41-51 | unparsable input is returned unchanged; otherwise the result parses, its channels are at most 255 and, for a non-negative percentage, no darker than the input's |
| ColorUtils.Darken | packages/core/src/utils/color-utils.ts:56-66 | unparsable input is returned unchanged; otherwise the result parses and its channels lie between 0 and the input's |
| ColorUtils.GetContrastColor | packages/core/src/utils/color-utils.ts:71-79 | the contrast colour is black or white, black for unparsable input, and white iff the colour parses and its luminance is at most one half |
| ColorUtils.ContrastOfBlackAndWhite | packages/core/src/utils/color-utils.ts:71-79 | black gets white as its contrast colour and white gets black |
| Styles.MergeStyles | packages/core/src/utils/cn.ts:9-16 | no arguments give the empty object; a truthy last argument gives each of its keys its value |
| Styles.MergeAppend | packages/core/src/utils/cn.ts:9-16 | merging two runs of arguments is spreading the second run's merge over the first's |
| Styles.FalsyIgnored | packages/core/src/utils/cn.ts:13 | a falsy argument anywhere changes nothing |
| Styles.MergeKeys | packages/core/src/utils/cn.ts:12-15 | the result has exactly the keys of the truthy arguments |
| Styles.LastWins | packages/core/src/utils/cn.ts:14 | a key takes its value from the last truthy argument that has it |
| Styles.NoTruthyIsEmpty | packages/core/src/utils/cn.ts:12-15 | with no truthy argument the result is the empty object |
| Styles.CreateResponsiveStyle | packages/core/src/utils/cn.ts:21-31 | `large` from width 768 when given, else `medium` from 480 when given, else `small`; the height never matters |
| Styles.ResponsiveBands | packages/core/src/utils/cn.ts:26-30 | with all variants the widths below 480, from 480 below 768, and from 768 select small, medium and large; without variants the selector is constant |
| ThemeProvider.EffectiveScheme | packages/core/src/providers/ThemeProvider.tsx:43-44 | the device's scheme when the choice is system, else the choice, never system |
| ThemeProvider.Opposite | packages/core/src/providers/ThemeProvider.tsx:72-74 | the opposite appearance differs |
| ThemeProvider.ToggleFlipsEffective | packages/core/src/providers/ThemeProvider.tsx:70-76 | a toggle always stores an explicit choice, the opposite of the scheme that was in effect, and a second toggle restores that scheme |
| ThemeProvider.MergeSection | packages/core/src/providers/ThemeProvider.tsx:55-62 | a merged section has the base and custom keys, custom values winning, and an absent customisation leaves it alone |
| ThemeProvider.ApplyCustomization | packages/core/src/providers/ThemeProvider.tsx:52-64 | no customisation gives the base theme |
| ThemeProvider.ResolveTheme | packages/core/src/providers/ThemeProvider.tsx:42-64 | without a customisation the theme is the dark base theme when the scheme in effect is dark and the light one otherwise |
| ThemeProvider.ThemeSelection | packages/core/src/providers/ThemeProvider.tsx:47-64 | the base theme and customisation of the scheme in effect are used; without a customisation for it, or with one setting no section, the theme is that base theme |
| ThemeProvider.CustomColorsWin | packages/core/src/providers/ThemeProvider.tsx:55 | customised colours keep every base key and take the custom value wherever one is set |
| ThemeProvider.ThemeState.constructor | packages/core/src/providers/ThemeProvider.tsx:33-40 | the initial choice is the given default, or system without one |
| ThemeProvider.ThemeState.CurrentTheme | packages/core/src/providers/ThemeProvider.tsx:42-64 | without customisations the published theme is the dark or light base theme for the scheme in effect |
| ThemeProvider.ThemeState.SetColorScheme | packages/core/src/providers/ThemeProvider.tsx:66-68 | stores the given choice |
| ThemeProvider.ThemeState.ToggleColorScheme | packages/core/src/providers/ThemeProvider.tsx:70-76 | stores the explicit opposite of the scheme in effect |

## Left out

- Interactive prompts, `createExpoProject`, `process.exit`, `process.chdir` and the project-name handling of `initCommand` (init.ts:17-105) are out of scope. `InitCommandRun` starts in the project directory with the existing-project flag as an input.
- Logger, spinner and console output are not modelled. The exception is the `list` report, which is modelled as the lines printed through `logger.log` and `logger.break`. Its `logger.info` header (list.ts:13), with the colour prefix `info` adds, is not part of `ListReport`.
- Shell execution is a log of command strings, and a command fails iff it is in the host's failing set. Output and exit codes are not modelled.
- `getTemplateFiles` is not modelled, because it tells files from directories by whether listing throws. `CopyTemplateFiles` takes the relative file names as input.
- The unused `REGISTRY_URL` constants are dead code.
- The registry file location (`__dirname`-relative) is the `registryPath` parameter.
- File contents of generated files are distinct stand-in constants. This covers the ten `generate*Template` bodies, the literal bodies in init.ts, and the built-in registry's display names and dependency lists beyond their shape.
- JSON files hold decoded documents of one of three kinds: a configuration, a package document or a registry. Serialisation, `JSON.parse` errors, and text read back from a JSON file are not modelled. `readJsonFile` does not check the shape of what it parses, so the source uses a JSON file of another shape as it is; the model has no such document.
- Registry.GetComponentRegistry: a registry file that parses as JSON of another shape is taken as the registry by the source, unchecked. The model falls back to the built-in table instead, because it has no value for such a document.
- Registry.RegistryChoice: the same; its fallback case covers a file of another shape, which the source would use.
- ConfigManager.ConfigStore.GetConfig: a `bna.json` that parses as JSON of another shape is cached and returned by the source as it is. The model treats it as no configuration.
- ConfigManager.StoredConfig: the same; it gives nothing for a file of another shape.
- DependencyManager.ReadPackageJson: a `package.json` that parses as JSON of another shape (an array, `null`, sections that are not string maps) is used as it is by the source. The model treats it as unreadable.
- DependencyManager.IsPackageInstalled: a `package.json` of another shape counts as no package document. The source reads it as it is, and a `null` one throws inside the `try`, giving false.
- DependencyManager.GetInstalledVersion: the same for a `package.json` of another shape; the source gives null for a `null` one.
- DependencyManager.UpdatePackageJson: fails on a `package.json` of another shape. The source spreads the update over whatever it parsed.
- DependencyManager.IsPackageInstalled: the model looks names up among a section's own entries. The source's lookup also finds members every JavaScript object inherits, such as "constructor"; see Findings.
- DependencyManager.GetInstalledVersion: the same own-entry lookup; for an inherited name the source reports a function as the version.
- `writeFile` and `copyFile` also create missing parent directories. The model does not record those directories.
- Path normalisation of `.` and `..` segments is not modelled; `Join` only inserts a `/`.
- Environment.Join: `path.join` with an empty directory and other edge cases are only modelled for the relative paths the CLI builds.
- TemplateEngine.SegmentOk: a template's literal text may not contain "{{" nor end in "{" before a placeholder. JSX double braces (`style={{ … }}`) in a template are therefore not covered by `ReplaceRendered` and `InterpolateRendered`; `ReplaceAll` itself handles them.
- TemplateEngine.InterpolateRendered: requires values without `$`. A value with `$` is expanded by `ReplaceAll` as `String.prototype.replace` does, and its expansion may carry text from around the placeholder, so entry-order filling no longer describes the result.
- TemplateEngine.PlaceholderBecomesValue: requires configuration paths without `$`, for the same reason.
- TemplateEngine.ReplaceRendered: its `Fill` form holds for values without `$`; for other values only the expansion form is stated.
- A component key or variable name containing regular-expression metacharacters is not modelled. `TemplateEngine.ReplaceRendered` and its relatives require plain names, which holds for the seven fixed variable names.
- `String(value)` for non-string template values is not modelled; values are already text.
- ListCommand.MaxKeyLength: `Math.max()` of an empty registry is `-Infinity`, and `padEnd` then pads nothing. The model uses 0, which pads nothing too.
- Floating point is not modelled:
  - `lighten` and `darken` take integer percentages and round exactly, with halves up as `Math.round` does;
  - `getContrastColor` compares luminance in exact arithmetic, so a colour whose binary-float luminance sits exactly at one half may differ.
- ColorUtils.RgbToHex: defined only for channels in 0..255. Outside that range the source's `<<` and `toString(16)` give a malformed string.
- ColorUtils.Lighten and ColorUtils.Darken require percentage ≥ -100 and ≥ 0 respectively. Percentages outside those ranges drive a channel outside 0..255, into the malformed-string case above.
- ColorUtils.AddAlpha: the alpha number's decimal formatting is not modelled. The alpha is passed as the text JavaScript would print.
- Styles: style values are an abstract type. A falsy argument (`undefined`, `null`, `false`) is written `None`.
- Styles.CreateResponsiveStyle: a provided but falsy `medium` or `large` (a `0` or an empty string) counts as absent, so it is written `None`.
- ThemeProvider: React rendering, context and `useColorScheme` are not modelled. The device's scheme is a parameter.
- ThemeProvider: the concrete light and dark themes are static data and are constructor parameters.
- ThemeProvider: customisation keys other than the five sections are ignored, as the source ignores them.
- `useTheme`, the theme data files and all UI components are not modelled.

## Findings

| source | as written | input that shows it | evidently intended | confidence | as-written member | corrected member |
|---|---|---|---|---|---|---|
| packages/cli/src/utils/dependency-manager.ts:92-94 | `packageJson.dependencies?.[packageName]` is a property lookup, truthy for names inherited from `Object.prototype` | `isPackageInstalled("constructor")` with `{"dependencies": {}}` in package.json returns true, and `getInstalledVersion` returns a function | a package is installed iff a section lists it under its own name | not executed | DependencyManager.PrototypeNameInstalledAsWritten | DependencyManager.IsPackageInstalled |
| packages/cli/src/commands/add.ts:198 | `registry[componentName]` is a property lookup, which is truthy for names inherited from `Object.prototype` | `bna add constructor` with the built-in registry: the name is not reported as missing, so validation passes it on and the later `componentConfig.files` access fails | a name is valid iff it is one of the registry's own keys | not executed | AddCommand.PrototypeNameSlipsThrough | AddCommand.ValidationSplits |
