/**
 The tree scanner `scan_folder`: walks a folder, skips editor lock files (names
 starting with `~$`) and records every other file under its joined path.

 The directory walk, the existence test of the root, the path join and the
 operating-system calls behind `get_file_info` are outside this model: they are
 given as parameters.
 */
module Scanner {
  import opened Records

  /** One step of `os.walk`: a directory and the names of the files directly in it. */
  datatype WalkStep = WalkStep(root: string, files: seq<string>)

  /** The calls `get_file_info` makes on a path: its last component (`path.name`),
      its stat call and its file test. */
  datatype FileSystem = FileSystem(
    baseName: string -> string,
    stat: string -> StatOutcome,
    isFile: string -> bool)

  /** `get_file_info` on the joined path `p`: the record depends on the path alone. */
  function GetFileInfo(fs: FileSystem, p: string): (r: FileRecord)
    ensures r.relpath == p && r.name == fs.baseName(p) && r.isFile == fs.isFile(p)
    ensures r.error.Some? <==> fs.stat(p).StatFailed?
    ensures r.error.Some? ==> r.size == None && r.modified == None
  {
    FileInfo(fs.baseName(p), p, fs.isFile(p), fs.stat(p))
  }

  /** Editor lock files, skipped by the scan: `name.startswith("~$")`. */
  predicate IsLockFile(name: string): (r: bool)
    ensures r <==> |name| >= 2 && name[0] == '~' && name[1] == '$'
  {
    "~$" <= name
  }

  /** The paths that the files of one directory contribute. */
  ghost function DirPaths(root: string, files: seq<string>, join: (string, string) -> string): (paths: set<string>)
  {
    set j | 0 <= j < |files| && !IsLockFile(files[j]) :: join(root, files[j])
  }

  /** The paths that a whole walk contributes: one per walked file that is not
      a lock file. */
  ghost function WalkPaths(walk: seq<WalkStep>, join: (string, string) -> string): (paths: set<string>)
  {
    set i, j | 0 <= i < |walk| && 0 <= j < |walk[i].files| && !IsLockFile(walk[i].files[j])
      :: join(walk[i].root, walk[i].files[j])
  }

  /** The map after the inner loop has visited `files` in one directory. */
  function AddFiles(acc: Snapshot, root: string, files: seq<string>,
                    join: (string, string) -> string, fs: FileSystem): (results: Snapshot)
    decreases |files|
  {
    if files == [] then acc
    else
      var before := AddFiles(acc, root, files[..|files| - 1], join, fs);
      var fname := files[|files| - 1];
      if IsLockFile(fname) then before
      else
        var fpath := join(root, fname);
        before[fpath := GetFileInfo(fs, fpath)]
  }

  /** The map after the outer loop has visited the steps of `walk`. */
  function Collected(walk: seq<WalkStep>, join: (string, string) -> string,
                     fs: FileSystem): (results: Snapshot)
    decreases |walk|
  {
    if walk == [] then map[]
    else
      var last := walk[|walk| - 1];
      AddFiles(Collected(walk[..|walk| - 1], join, fs), last.root, last.files, join, fs)
  }

  /** One directory adds exactly its non-lock files' paths, each with its own record. */
  lemma {:induction false} AddFilesContents(acc: Snapshot, root: string, files: seq<string>,
                                            join: (string, string) -> string, fs: FileSystem)
    requires forall p :: p in acc ==> acc[p] == GetFileInfo(fs, p)
    ensures AddFiles(acc, root, files, join, fs).Keys == acc.Keys + DirPaths(root, files, join)
    ensures forall p :: p in AddFiles(acc, root, files, join, fs) ==>
      AddFiles(acc, root, files, join, fs)[p] == GetFileInfo(fs, p)
    decreases |files|
  {
    if files != [] {
      var n := |files| - 1;
      var front := files[..n];
      AddFilesContents(acc, root, front, join, fs);
      forall p
        ensures p in DirPaths(root, files, join) <==>
          p in DirPaths(root, front, join) || (!IsLockFile(files[n]) && p == join(root, files[n]))
      {
        if p in DirPaths(root, files, join) {
          var j :| 0 <= j < |files| && !IsLockFile(files[j]) && join(root, files[j]) == p;
          if j < n {
            assert front[j] == files[j];
          }
        }
        if p in DirPaths(root, front, join) {
          var j :| 0 <= j < |front| && !IsLockFile(front[j]) && join(root, front[j]) == p;
          assert files[j] == front[j];
        }
      }
    }
  }

  /** A walk's paths are those of all steps but the last, plus the last step's. */
  lemma WalkPathsSplit(walk: seq<WalkStep>, join: (string, string) -> string)
    requires walk != []
    ensures WalkPaths(walk, join) ==
      WalkPaths(walk[..|walk| - 1], join) + DirPaths(walk[|walk| - 1].root, walk[|walk| - 1].files, join)
  {
  }

  /** The scan's keys are exactly the walked non-lock files' paths, each mapped to
      the record of that path. */
  lemma {:induction false} CollectedContents(walk: seq<WalkStep>, join: (string, string) -> string,
                                             fs: FileSystem)
    ensures Collected(walk, join, fs).Keys == WalkPaths(walk, join)
    ensures forall p :: p in Collected(walk, join, fs) ==> Collected(walk, join, fs)[p] == GetFileInfo(fs, p)
    decreases |walk|
  {
    if walk != [] {
      var n := |walk| - 1;
      CollectedContents(walk[..n], join, fs);
      AddFilesContents(Collected(walk[..n], join, fs), walk[n].root, walk[n].files, join, fs);
      WalkPathsSplit(walk, join);
    }
  }

  /** `scan_folder`: fails when the root does not exist; otherwise fills the result
      map in nested loops over the walk, skipping lock files. */
  method ScanFolder(folderPath: string, rootExists: bool, walk: seq<WalkStep>,
                    join: (string, string) -> string, fs: FileSystem)
    returns (r: Result<Snapshot>)
    ensures r.Err? <==> !rootExists
    ensures r.Err? ==> r.error == FileNotFound(folderPath)
    ensures r.Ok? ==> r.value == Collected(walk, join, fs)
    ensures r.Ok? ==> r.value.Keys == WalkPaths(walk, join)
    ensures r.Ok? ==> forall p :: p in r.value ==> r.value[p] == GetFileInfo(fs, p)
    ensures r.Ok? ==> forall p :: p in r.value ==>
      r.value[p].relpath == p && (r.value[p].error.Some? <==> fs.stat(p).StatFailed?)
  {
    if !rootExists {
      return Err(FileNotFound(folderPath));
    }
    var results: Snapshot := map[];
    for i := 0 to |walk|
      invariant results == Collected(walk[..i], join, fs)
    {
      var step := walk[i];
      assert walk[..i + 1][..i] == walk[..i];
      ghost var before := results;
      for j := 0 to |step.files|
        invariant results == AddFiles(before, step.root, step.files[..j], join, fs)
      {
        var fname := step.files[j];
        assert step.files[..j + 1][..j] == step.files[..j];
        if IsLockFile(fname) {
          continue;
        }
        var fpath := join(step.root, fname);
        results := results[fpath := GetFileInfo(fs, fpath)];
      }
      assert step.files[..|step.files|] == step.files;
    }
    assert walk[..|walk|] == walk;
    CollectedContents(walk, join, fs);
    return Ok(results);
  }

  /** A lock file's path is not among the scan's keys, provided no other walked
      file joins to the same path (true of `Path(root) / fname`, whose last
      component is `fname`). */
  lemma LockFileNeverKept(walk: seq<WalkStep>, join: (string, string) -> string,
                          fs: FileSystem, i: nat, j: nat)
    requires i < |walk| && j < |walk[i].files| && IsLockFile(walk[i].files[j])
    requires forall i2, j2 ::
               0 <= i2 < |walk| && 0 <= j2 < |walk[i2].files| && !IsLockFile(walk[i2].files[j2]) ==>
                 join(walk[i2].root, walk[i2].files[j2]) != join(walk[i].root, walk[i].files[j])
    ensures join(walk[i].root, walk[i].files[j]) !in Collected(walk, join, fs)
  {
    CollectedContents(walk, join, fs);
  }

  /** Every walked file that is not a lock file is among the scan's keys, with
      `get_file_info`'s record for its joined path. */
  lemma EveryOtherFileKept(walk: seq<WalkStep>, join: (string, string) -> string,
                           fs: FileSystem, i: nat, j: nat)
    requires i < |walk| && j < |walk[i].files| && !IsLockFile(walk[i].files[j])
    ensures join(walk[i].root, walk[i].files[j]) in Collected(walk, join, fs)
    ensures Collected(walk, join, fs)[join(walk[i].root, walk[i].files[j])]
      == GetFileInfo(fs, join(walk[i].root, walk[i].files[j]))
  {
    CollectedContents(walk, join, fs);
  }

  /** A folder holding `a.txt` and the lock file `~$lock.tmp` scans to `a.txt` alone. */
  lemma LockFileScenario(fs: FileSystem)
    ensures Collected([WalkStep("root", ["a.txt", "~$lock.tmp"])], (r, f) => r + "/" + f, fs)
      == map["root/a.txt" := GetFileInfo(fs, "root/a.txt")]
  {
    var join := (r, f) => r + "/" + f;
    var files := ["a.txt", "~$lock.tmp"];
    var walk := [WalkStep("root", files)];
    assert walk[..0] == [] && files[..1] == ["a.txt"] && ["a.txt"][..0] == [];
    assert "a.txt"[0] == 'a';
    assert !IsLockFile("a.txt") && IsLockFile("~$lock.tmp");
    assert join("root", "a.txt") == "root/a.txt";
    calc {
      Collected(walk, join, fs);
      AddFiles(map[], "root", files, join, fs);
      AddFiles(map[], "root", ["a.txt"], join, fs);
      AddFiles(map[], "root", [], join, fs)["root/a.txt" := GetFileInfo(fs, "root/a.txt")];
    }
  }
}
