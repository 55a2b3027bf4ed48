/** The `list` command: which registry components are installed, and the report printed for them. */
module ListCommand {
  import opened Util
  import opened Types
  import opened Environment
  import opened Registry
  import opened ConfigManager

  // ---------------------------------------------------------------------------------------------
  // The installed set

  /** The components counted as installed: with a configuration, those registry entries with at
      least one declared file present under the components directory; without one, none. */
  function InstalledSpec(files: Files, dirs: set<Path>, config: Option<Config>, reg: Types.Registry): set<string> {
    if config.None? then {}
    else set k | k in reg.entries && HasAnyFile(files, dirs, config.value.components, reg.entries[k].files)
  }

  /** The installed keys among the first keys of the registry. */
  function InstalledAmong(files: Files, dirs: set<Path>, dir: Path, reg: Types.Registry, ks: seq<string>): set<string> {
    set k | k in ks && k in reg.entries && HasAnyFile(files, dirs, dir, reg.entries[k].files)
  }

  /** The installed-set loop: for each registry entry, its files are probed until one exists. */
  method ComputeInstalled(host: Host, config: Option<Config>, reg: Types.Registry) returns (installed: set<string>)
    ensures installed == InstalledSpec(host.files, host.dirs, config, reg)
  {
    installed := {};
    if config.None? {
      return;
    }
    var dir := config.value.components;
    var i := 0;
    while i < |reg.keys|
      invariant 0 <= i <= |reg.keys|
      invariant installed == InstalledAmong(host.files, host.dirs, dir, reg, reg.keys[..i])
    {
      var name := reg.keys[i];
      assert name in reg.entries;
      var specs := reg.entries[name].files;
      var j := 0;
      var found := false;
      while j < |specs|
        invariant 0 <= j <= |specs|
        invariant !found ==> forall jj :: 0 <= jj < j ==> !Present(host.files, host.dirs, Join(dir, specs[jj].path))
        invariant found ==> HasAnyFile(host.files, host.dirs, dir, specs)
      {
        if host.Exists(Join(dir, specs[j].path)) {
          found := true;
          break;
        }
        j := j + 1;
      }
      assert reg.keys[..i + 1] == reg.keys[..i] + [name];
      if found {
        installed := installed + {name};
      }
      i := i + 1;
    }
    assert reg.keys[..i] == reg.keys;
  }

  /** A key of the registry is installed iff some of its files is present; nothing else is
      installed, so the installed count never exceeds the total count. */
  lemma InstalledWithinRegistry(files: Files, dirs: set<Path>, config: Option<Config>, reg: Types.Registry)
    ensures forall k :: k in InstalledSpec(files, dirs, config, reg) <==>
      config.Some? && k in reg.keys && HasAnyFile(files, dirs, config.value.components, reg.entries[k].files)
    ensures |InstalledSpec(files, dirs, config, reg)| <= |reg.keys|
  {
    var installed := InstalledSpec(files, dirs, config, reg);
    var keySet := set k | k in reg.keys;
    assert installed <= keySet;
    DistinctCardinality(reg.keys);
    SubsetCardinality(installed, keySet);
  }

  lemma {:induction false} DistinctCardinality(s: seq<string>)
    requires Distinct(s)
    ensures |set k | k in s| == |s|
    decreases |s|
  {
    if s != [] {
      var init := s[..|s| - 1];
      var x := s[|s| - 1];
      assert Distinct(init);
      DistinctCardinality(init);
      assert s == init + [x];
      assert (set k | k in s) == (set k | k in init) + {x};
      assert x !in init;
    }
  }

  lemma SubsetCardinality(a: set<string>, b: set<string>)
    requires a <= b
    ensures |a| <= |b|
  {
    assert b == a + (b - a);
  }

  // ---------------------------------------------------------------------------------------------
  // The report

  /** `Math.max` over a list of lengths; 0 for none. */
  function MaxOf(ws: seq<nat>): (m: nat)
    ensures forall i :: 0 <= i < |ws| ==> ws[i] <= m
    ensures ws != [] ==> exists i :: 0 <= i < |ws| && ws[i] == m
    decreases |ws|
  {
    if ws == [] then 0
    else
      var rest := MaxOf(ws[1..]);
      assert forall i :: 1 <= i < |ws| ==> ws[i] == ws[1..][i - 1];
      if ws[0] >= rest then ws[0] else rest
  }

  /** The keys' `.length`, in UTF-16 code units. */
  function KeyLengths(keys: seq<string>): (ws: seq<nat>)
    ensures |ws| == |keys|
  {
    seq(|keys|, i requires 0 <= i < |keys| => Utf16Length(keys[i]))
  }

  /** `Math.max(...keys.map(name => name.length))`: the width of the name column. */
  function MaxKeyLength(keys: seq<string>): (m: nat)
    ensures forall i :: 0 <= i < |keys| ==> Utf16Length(keys[i]) <= m
    ensures keys != [] ==> exists i :: 0 <= i < |keys| && Utf16Length(keys[i]) == m
  {
    var ws := KeyLengths(keys);
    assert forall i :: 0 <= i < |keys| ==> ws[i] == Utf16Length(keys[i]);
    MaxOf(ws)
  }

  /** A key outside the Basic Multilingual Plane counts twice: with keys "\U{1F600}" and "ab"
      the column is two code units wide and the emoji key gets no padding. */
  lemma SurrogateKeyWidth()
    ensures MaxKeyLength(["\U{1F600}", "ab"]) == 2
    ensures PadEnd("\U{1F600}", 2) == "\U{1F600}"
  {
    assert Utf16Length("ab") == 2 by {
      assert "ab"[1..] == "b";
      assert "b"[1..] == [];
    }
    assert Utf16Length("\U{1F600}") == 2 by {
      assert "\U{1F600}"[1..] == [];
    }
    assert ["\U{1F600}", "ab"][1..] == ["ab"];
    assert ["ab"][1..] == [];
  }

  function StatusMark(installed: bool): char {
    if installed then '\U{2705}' else '\U{2B1C}'
  }

  /** The dependency note after a component's display name. */
  function DepsSuffix(deps: seq<string>): string {
    if |deps| > 0 then " (deps: " + JoinWith(deps, ", ") + ")" else ""
  }

  /** The note is shown exactly for components with dependencies, and lists them joined by ", "
      between " (deps: " and ")". */
  lemma DepsSuffixShown(deps: seq<string>)
    ensures DepsSuffix(deps) != "" <==> |deps| > 0
    ensures |deps| > 0 ==> var s := DepsSuffix(deps);
      && StartsWith(s, " (deps: ") && s[|s| - 1] == ')' && s[8..|s| - 1] == JoinWith(deps, ", ")
  {
    if |deps| > 0 {
      var s := DepsSuffix(deps);
      var joined := JoinWith(deps, ", ");
      assert |" (deps: "| == 8;
      assert s[..8] == " (deps: ";
      assert s[8..|s| - 1] == joined;
    }
  }

  /** One report row: the status mark, the padded name, the display name and the note. */
  function Row(name: string, title: string, deps: seq<string>, installed: bool, width: nat): string {
    var mark := [StatusMark(installed)];
    var column := PadEnd(name, width);
    mark + " " + column + " - " + title + DepsSuffix(deps)
  }

  /** With the column at least as wide as the name in code units, the separator " - " of every
      row follows the mark, a space and `width` code units of padded name, and the display name
      follows it. */
  lemma RowLayout(name: string, title: string, deps: seq<string>, installed: bool, width: nat)
    requires Utf16Length(name) <= width
    ensures var row := Row(name, title, deps, installed, width);
      var c := |name| + width - Utf16Length(name);
      && |row| >= c + 5 + |title|
      && row[0] == StatusMark(installed)
      && row[2..2 + |name|] == name
      && Utf16Length(row[..2 + c]) == width + 2
      && row[2 + c..5 + c] == " - "
      && row[5 + c..5 + c + |title|] == title
      && SeparatorAfter(row, c, width)
  {
    var mark := [StatusMark(installed)];
    var column := PadEnd(name, width);
    var c := |name| + width - Utf16Length(name);
    assert |column| == c;
    Slots(mark, " ", column, " - ", title, DepsSuffix(deps));
    assert column[..|name|] == name;
    assert (mark + " " + column)[2..2 + |name|] == column[..|name|];
    var row := Row(name, title, deps, installed, width);
    assert row[..2 + c] == mark + " " + column;
    PadEndUnits(name, width);
    Utf16Concat(mark, " ");
    Utf16Concat(mark + " ", column);
    assert Utf16Length(mark) == 1 by { assert mark[1..] == []; }
    assert Utf16Length(" ") == 1 by { assert " "[1..] == []; }
  }

  lemma Slots(a: string, b: string, c: string, d: string, e: string, f: string)
    ensures var s := a + b + c + d + e + f;
      var i := |a| + |b|;
      && s[..|a|] == a
      && s[i..i + |c|] == c
      && s[i + |c|..i + |c| + |d|] == d
      && s[i + |c| + |d|..i + |c| + |d| + |e|] == e
      && (a + b + c)[i..i + |c|] == c
  {
  }

  /** The rows of the registry in key order. */
  function Rows(reg: Types.Registry, installed: set<string>, width: nat): (rows: seq<string>)
    ensures |rows| == |reg.keys|
  {
    seq(|reg.keys|, i requires 0 <= i < |reg.keys| =>
      var k := reg.keys[i];
      assert k in reg.entries;
      Row(k, reg.entries[k].name, reg.entries[k].dependencies, k in installed, width))
  }

  /** The separator " - " of `row` starts after `c` characters of name column, which are
      `width` code units. */
  predicate SeparatorAfter(row: string, c: int, width: nat) {
    0 <= c && |row| >= c + 5 && Utf16Length(row[..2 + c]) == width + 2 && row[2 + c..5 + c] == " - "
  }

  /** Padding every name column to a width that fits every key, as MaxKeyLength's does, makes
      every separator start after the same number of code units, which is what aligns the
      columns on screen. */
  lemma ColumnsAligned(reg: Types.Registry, installed: set<string>, w: nat)
    requires forall i :: 0 <= i < |reg.keys| ==> Utf16Length(reg.keys[i]) <= w
    ensures var rows := Rows(reg, installed, w);
      forall i :: 0 <= i < |rows| ==>
        SeparatorAfter(rows[i], |reg.keys[i]| + w - Utf16Length(reg.keys[i]), w)
  {
    forall i | 0 <= i < |reg.keys|
      ensures SeparatorAfter(Rows(reg, installed, w)[i], |reg.keys[i]| + w - Utf16Length(reg.keys[i]), w)
    {
      RowSeparator(reg, installed, w, i);
    }
  }

  /** Row `i` has its separator after `width` code units whenever its key fits the width. */
  lemma RowSeparator(reg: Types.Registry, installed: set<string>, width: nat, i: nat)
    requires i < |reg.keys| && Utf16Length(reg.keys[i]) <= width
    ensures SeparatorAfter(Rows(reg, installed, width)[i],
      |reg.keys[i]| + width - Utf16Length(reg.keys[i]), width)
  {
    var k := reg.keys[i];
    assert k in reg.entries;
    var e := reg.entries[k];
    RowLayout(k, e.name, e.dependencies, k in installed, width);
  }

  const Hint: string := "\U{1F4A1} Add your first component with: bna add button"

  function CountLine(title: string, n: nat): string {
    title + NatToString(n) + " components"
  }

  /** The lines `listCommand` prints through `log` and `break`, in order. */
  function ListReport(reg: Types.Registry, installed: set<string>): seq<string> {
    [""] + Rows(reg, installed, MaxKeyLength(reg.keys))
      + ["", CountLine("Total: ", |reg.keys|), CountLine("Installed: ", |installed|)]
      + (if |installed| == 0 then ["", Hint] else [])
  }

  /** One row per key between the header break and the totals; the hint closes the report
      exactly when nothing is installed. */
  lemma ReportShape(reg: Types.Registry, installed: set<string>)
    ensures var report := ListReport(reg, installed);
      && |report| == |reg.keys| + 4 + (if |installed| == 0 then 2 else 0)
      && report[1..1 + |reg.keys|] == Rows(reg, installed, MaxKeyLength(reg.keys))
      && report[|reg.keys| + 2] == CountLine("Total: ", |reg.keys|)
      && report[|reg.keys| + 3] == CountLine("Installed: ", |installed|)
      && (|installed| == 0 ==> report[|report| - 1] == Hint)
  {
    var rows := Rows(reg, installed, MaxKeyLength(reg.keys));
    var head := [""] + rows;
    var totals := ["", CountLine("Total: ", |reg.keys|), CountLine("Installed: ", |installed|)];
    var hint: seq<string> := if |installed| == 0 then ["", Hint] else [];
    var report := ListReport(reg, installed);
    assert report == (head + totals) + hint;
    assert |head| == |reg.keys| + 1;
    assert (head + totals)[|reg.keys| + 2] == totals[1];
    assert (head + totals)[|reg.keys| + 3] == totals[2];
    assert report[1..1 + |reg.keys|] == head[1..] == rows;
  }

  /** Without a configuration nothing is installed, so the report ends with the hint. */
  lemma NoConfigShowsHint(files: Files, dirs: set<Path>, reg: Types.Registry)
    ensures var report := ListReport(reg, InstalledSpec(files, dirs, None, reg));
      report[|report| - 1] == Hint
  {
    ReportShape(reg, {});
  }

  /** The display loop: one row per registry entry, in key order. */
  method BuildRows(reg: Types.Registry, installed: set<string>, width: nat) returns (rows: seq<string>)
    ensures rows == Rows(reg, installed, width)
  {
    rows := [];
    var i := 0;
    while i < |reg.keys|
      invariant 0 <= i <= |reg.keys|
      invariant rows == Rows(reg, installed, width)[..i]
    {
      var name := reg.keys[i];
      assert name in reg.entries;
      var entry := reg.entries[name];
      rows := rows + [Row(name, entry.name, entry.dependencies, name in installed, width)];
      i := i + 1;
    }
  }

  /** `listCommand`: the registry (local file or built-in table), the configuration, the installed
      set, then the report row by row. */
  method ListCommandRun(host: Host, store: ConfigStore, registryPath: Path) returns (lines: seq<string>)
    modifies store
    ensures var config := if old(store.config).Some? then old(store.config) else StoredConfig(host, "");
      var reg := GetComponentRegistry(host.files, host.dirs, registryPath);
      lines == ListReport(reg, InstalledSpec(host.files, host.dirs, config, reg)) && store.config == config
  {
    var registry := GetComponentRegistry(host.files, host.dirs, registryPath);
    var config := store.GetConfig(host, "");
    var installed := ComputeInstalled(host, config, registry);
    var rows := BuildRows(registry, installed, MaxKeyLength(registry.keys));
    lines := [""] + rows + ["", CountLine("Total: ", |registry.keys|), CountLine("Installed: ", |installed|)];
    if |installed| == 0 {
      lines := lines + ["", Hint];
    }
    assert lines == ListReport(registry, installed);
  }
}
