/** The machine the CLI runs on: an abstract filesystem and a log of executed shell commands.

    Paths are relative to the process's working directory (the project root), written "".
    JSON files hold their decoded document; every other file holds text. */
module Environment {
  import opened Util
  import opened Types

  type Path = string

  /** `path.join(dir, p)` for the relative paths the CLI builds; normalisation of "." and ".."
      segments is not modelled. */
  function Join(dir: Path, p: Path): Path {
    if dir == "" then p else dir + "/" + p
  }

  datatype Document =
    | ConfigDoc(config: Config)
    | RegistryDoc(registry: Registry)
    | PackageDoc(package: PackageJson)

  datatype Entry = Text(text: string) | Json(doc: Document)

  type Files = map<Path, Entry>

  /** `fileOps.exists` on a snapshot: a file or a directory is there. */
  predicate Present(files: Files, dirs: set<Path>, p: Path) {
    p in files || p in dirs
  }

  /** A planned text write: target path and contents. */
  type Write = (Path, string)

  /** The files after performing every write of `plan`, in order. */
  function ApplyWrites(fs: Files, plan: seq<Write>): Files
    decreases |plan|
  {
    if plan == [] then fs else ApplyWrites(fs[plan[0].0 := Text(plan[0].1)], plan[1..])
  }

  /** Writes `plan` in order and stops at the first write that fails (its path is in `unwritable`):
      the files afterwards, and whether every write succeeded. */
  function WriteSeq(fs: Files, plan: seq<Write>, unwritable: set<Path>): (Files, bool)
    decreases |plan|
  {
    if plan == [] then (fs, true)
    else if plan[0].0 in unwritable then (fs, false)
    else WriteSeq(fs[plan[0].0 := Text(plan[0].1)], plan[1..], unwritable)
  }

  /** No target of `plan` is unwritable. */
  predicate AllWritable(plan: seq<Write>, unwritable: set<Path>) {
    forall i :: 0 <= i < |plan| ==> plan[i].0 !in unwritable
  }

  /** A run of writes succeeds iff no target is unwritable, and then it performs all of them. */
  lemma {:induction false} WriteSeqSucceeds(fs: Files, plan: seq<Write>, unwritable: set<Path>)
    ensures WriteSeq(fs, plan, unwritable).1 <==> AllWritable(plan, unwritable)
    ensures WriteSeq(fs, plan, unwritable).1 ==> WriteSeq(fs, plan, unwritable).0 == ApplyWrites(fs, plan)
    decreases |plan|
  {
    if plan != [] && plan[0].0 !in unwritable {
      var fs' := fs[plan[0].0 := Text(plan[0].1)];
      WriteSeqSucceeds(fs', plan[1..], unwritable);
      assert forall i :: 1 <= i < |plan| ==> plan[i] == plan[1..][i - 1];
    }
  }

  /** After `k` successful writes, the rest of the run starts from their result. */
  lemma {:induction false} WriteSeqAfter(fs: Files, plan: seq<Write>, k: nat, unwritable: set<Path>)
    requires k <= |plan|
    requires forall i :: 0 <= i < k ==> plan[i].0 !in unwritable
    ensures WriteSeq(fs, plan, unwritable) == WriteSeq(ApplyWrites(fs, plan[..k]), plan[k..], unwritable)
    decreases k
  {
    if k > 0 {
      var fs' := fs[plan[0].0 := Text(plan[0].1)];
      assert forall i :: 0 <= i < k - 1 ==> plan[1..][i] == plan[i + 1];
      WriteSeqAfter(fs', plan[1..], k - 1, unwritable);
      assert plan[..k][0] == plan[0] && plan[..k][1..] == plan[1..][..k - 1];
      assert plan[1..][k - 1..] == plan[k..];
    }
  }

  /** A run of two plans is the first run followed, if it succeeded, by the second. */
  lemma {:induction false} WriteSeqConcat(fs: Files, a: seq<Write>, b: seq<Write>, unwritable: set<Path>)
    ensures WriteSeq(fs, a + b, unwritable)
      == if WriteSeq(fs, a, unwritable).1 then WriteSeq(WriteSeq(fs, a, unwritable).0, b, unwritable)
         else WriteSeq(fs, a, unwritable)
    decreases |a|
  {
    if a == [] {
      assert a + b == b;
    } else {
      assert (a + b)[0] == a[0] && (a + b)[1..] == a[1..] + b;
      if a[0].0 !in unwritable {
        WriteSeqConcat(fs[a[0].0 := Text(a[0].1)], a[1..], b, unwritable);
      }
    }
  }

  /** A failed run stops at its first unwritable target, and every write before it stays. */
  lemma {:induction false} WriteSeqStops(fs: Files, plan: seq<Write>, unwritable: set<Path>)
    requires !WriteSeq(fs, plan, unwritable).1
    ensures exists k :: (0 <= k < |plan| && plan[k].0 in unwritable
      && (forall i :: 0 <= i < k ==> plan[i].0 !in unwritable)
      && WriteSeq(fs, plan, unwritable).0 == ApplyWrites(fs, plan[..k]))
    decreases |plan|
  {
    if plan[0].0 in unwritable {
      assert plan[..0] == [];
      assert ApplyWrites(fs, plan[..0]) == fs;
    } else {
      var fs' := fs[plan[0].0 := Text(plan[0].1)];
      WriteSeqStops(fs', plan[1..], unwritable);
      var k :| 0 <= k < |plan[1..]| && plan[1..][k].0 in unwritable
        && (forall i :: 0 <= i < k ==> plan[1..][i].0 !in unwritable)
        && WriteSeq(fs', plan[1..], unwritable).0 == ApplyWrites(fs', plan[1..][..k]);
      assert plan[..k + 1][0] == plan[0] && plan[..k + 1][1..] == plan[1..][..k];
      assert plan[k + 1] == plan[1..][k];
      assert forall i :: 1 <= i < k + 1 ==> plan[i] == plan[1..][i - 1];
    }
  }

  /** Writing the first `k + 1` entries is writing the first `k` and then entry `k`. */
  lemma {:induction false} ApplyWritesSnoc(fs: Files, plan: seq<Write>, k: nat)
    requires k < |plan|
    ensures ApplyWrites(fs, plan[..k + 1]) == ApplyWrites(fs, plan[..k])[plan[k].0 := Text(plan[k].1)]
    decreases k
  {
    if k > 0 {
      var fs' := fs[plan[0].0 := Text(plan[0].1)];
      ApplyWritesSnoc(fs', plan[1..], k - 1);
      assert plan[..k + 1][1..] == plan[1..][..k];
      assert plan[..k][1..] == plan[1..][..k - 1];
    }
  }

  /** The filesystem and process environment: files and directories, the shell commands run so
      far, the paths where a write fails and the commands that exit non-zero. */
  class Host {
    var files: Files
    var dirs: set<Path>
    var execLog: seq<string>
    const unwritable: set<Path>
    const failingCommands: set<string>

    constructor (files0: Files, dirs0: set<Path>, unwritable0: set<Path>, failing0: set<string>)
      ensures files == files0 && dirs == dirs0 && execLog == []
      ensures unwritable == unwritable0 && failingCommands == failing0
    {
      files, dirs, execLog := files0, dirs0, [];
      unwritable, failingCommands := unwritable0, failing0;
    }

    /** `fileOps.exists`. */
    predicate Exists(p: Path)
      reads this`files, this`dirs
    {
      Present(files, dirs, p)
    }

    /** `fileOps.readJsonFile`: fails on a missing path and on a file that is not a JSON document. */
    function ReadJson(p: Path): (r: Result<Document>)
      reads this`files
      ensures r.Ok? <==> p in files && files[p].Json?
    {
      if p in files && files[p].Json? then Ok(files[p].doc) else Err("Failed to read JSON file " + p)
    }

    /** `fileOps.readFile`: fails on a missing path; JSON documents are not serialised back to text. */
    function ReadText(p: Path): (r: Result<string>)
      reads this`files
      ensures r.Ok? <==> p in files && files[p].Text?
    {
      if p in files && files[p].Text? then Ok(files[p].text) else Err("Failed to read file " + p)
    }

    /** `fileOps.writeFile`. */
    method WriteFile(p: Path, content: string) returns (r: Outcome)
      modifies this`files
      ensures r.Pass? <==> p !in unwritable
      ensures files == if p in unwritable then old(files) else old(files)[p := Text(content)]
    {
      if p in unwritable {
        r := Fail("Failed to write file " + p);
      } else {
        files := files[p := Text(content)];
        r := Pass;
      }
    }

    /** `fileOps.writeJsonFile`. */
    method WriteJson(p: Path, doc: Document) returns (r: Outcome)
      modifies this`files
      ensures r.Pass? <==> p !in unwritable
      ensures files == if p in unwritable then old(files) else old(files)[p := Json(doc)]
    {
      if p in unwritable {
        r := Fail("Failed to write JSON file " + p);
      } else {
        files := files[p := Json(doc)];
        r := Pass;
      }
    }

    /** `fileOps.copyFile`: the target receives the source's entry unchanged. */
    method CopyFile(src: Path, dst: Path) returns (r: Outcome)
      modifies this`files
      ensures r.Pass? <==> src in old(files) && dst !in unwritable
      ensures files == if r.Pass? then old(files)[dst := old(files)[src]] else old(files)
    {
      if src !in files || dst in unwritable {
        r := Fail("Failed to copy file from " + src + " to " + dst);
      } else {
        files := files[dst := files[src]];
        r := Pass;
      }
    }

    /** `fileOps.ensureDir`. */
    method EnsureDir(p: Path) returns (r: Outcome)
      modifies this`dirs
      ensures r.Pass? <==> p !in unwritable
      ensures dirs == if p in unwritable then old(dirs) else old(dirs) + {p}
    {
      if p in unwritable {
        r := Fail("Failed to create directory " + p);
      } else {
        dirs := dirs + {p};
        r := Pass;
      }
    }

    /** Runs a shell command to completion; a non-zero exit becomes a thrown error. */
    method Exec(command: string) returns (r: Outcome)
      modifies this`execLog
      ensures execLog == old(execLog) + [command]
      ensures r.Pass? <==> command !in failingCommands
    {
      execLog := execLog + [command];
      r := if command in failingCommands then Fail("Command failed: " + command) else Pass;
    }
  }
}
