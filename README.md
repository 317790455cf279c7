# Folder forensics: snapshot-and-diff engine in Dafny

This project models the engine under the folder-forensics dashboard (`app.py`).
The engine has four parts:

- **Scanner** (`scan_folder`): walks a folder. It skips editor lock files, whose names start with `~$`, and maps every other file's joined path to its metadata record.
- **Metadata record** (`get_file_info`): a record holds a formatted size and timestamps. When the stat call fails, those fields are all absent and an error message is stored instead.
- **Size units** (`human_readable_size`): divides a byte count by 1024 until it is below 1024, and picks B, KB, MB, GB, TB or PB.
- **Differ** (`compare`): sorts the paths of a baseline snapshot and a current snapshot into `added`, `deleted`, `changed` and `unchanged`.

The baseline store (`save_baseline_for`, `load_baseline_for`) is modelled as a class holding one baseline per folder string.

Modules, one per component:

- `Records` (`records.dfy`): `Option`, `Result`, `FileRecord`, `Snapshot`, the record builder `FileInfo` and the change rule `Differs`.
- `PathOrder` (`path_order.dfy`): Python's order on `str`. It also holds `SortedListOf`, meaning "the sorted list of a set", and `SortPaths`, which models `sorted(list(...))` of a set.
- `Differ` (`differ.dfy`): `Compare`, its specification `IsDiffOf` and the lemmas about it.
- `SizeUnits` (`size_units.dfy`): `HumanReadableSize` and the unit rule `IsUnitFor`.
- `Scanner` (`scanner.dfy`): `ScanFolder`, its loop specification `Collected`, and the lemmas about which keys appear.
- `Baselines` (`baselines.dfy`): the `BaselineStore` class.

How the source is represented:

- `compare`'s `unchanged` list is the field `unaltered` of `DiffResult`, because `unchanged` is a reserved word in Dafny.
- The order `Less` compares code points, and a proper prefix comes first. That is Python's order on `str`.
- `human_readable_size` divides a float. Division by 1024 is exact for byte counts below 2^53, and every count of at least 2^50 ends in PB. So exact `real` division makes the same unit choices for every count. It gives the same scaled number for counts below 2^53.

Where the code and the design description disagree, the model follows the code:

- The description says a record whose stat failed never counts as changed beyond being present or absent. In the code, `compare` checks `size` and `modified` with `!=`. So a failed record (`None`) against a readable one (a size text) is reported as changed. `Records.FailedAgainstReadableDiffers` states this.
- On success, the code stores `""` for a timestamp that cannot be formatted (`timestamp`, app.py:78-82). It does not store an absent value. `Stat` therefore carries plain strings.

## Model

| member | source | states |
|---|---|---|
| `Records.FileInfo` | app.py:94-116 | The record keeps name, path and file flag. `error` is present exactly when the stat call failed. In that case size and all three timestamps are absent. On success, size and modification time are the stat's formatted texts. |
| `Records.Differs` | app.py:171 | Two records count as a change exactly when their (size, modified) pairs differ. Differing records are never identical. |
| `Records.FailedStatsNeverDiffer` | app.py:171 | Two records whose stat calls both failed never count as changed, whatever their messages say. |
| `Records.FailedAgainstReadableDiffers` | app.py:171 | A failed record against a record with a size is always a change, in both directions. |
| `PathOrder.LessTotal` | app.py:162-164 | Any two distinct paths are ordered one way or the other. This is what makes the sorted lists unique. |
| `PathOrder.LessTransitive` | app.py:162-164 | The path order is transitive. |
| `PathOrder.LeastExists` | app.py:162-164 | Every non-empty set of paths has a least path. |
| `PathOrder.SortPaths` | app.py:162-164 | `sorted(list(keys))` returns a strictly increasing list whose members are exactly the set's members. |
| `PathOrder.SortedListLength` | app.py:162-164 | The sorted list of a set has exactly one entry per member. |
| `PathOrder.SortedListUnique` | app.py:162-164 | A set has only one sorted list, so the output is deterministic. |
| `Differ.Compare` | app.py:157-175 | `added` is the sorted list of current-only paths. `deleted` is the sorted list of baseline-only paths. `changed` is the sorted list of common paths whose size or modified text differs. `unchanged` is the sorted list of the other common paths. |
| `Differ.Partition` | app.py:157-175 | Every path of either snapshot is in exactly one of the four lists, nothing else is in any list, and no list repeats a path. |
| `Differ.ChangedRule` | app.py:169-174 | A common path is in `changed` iff its size or its modified value differs. It is in `unchanged` iff both agree. An absent value equals an absent value. |
| `Differ.Deterministic` | app.py:157-175 | Two results for the same pair of snapshots are equal. |
| `Differ.CompareWithItself` | app.py:157-175 | Comparing a snapshot with itself gives empty `added`, `deleted` and `changed`. `unchanged` is the sorted list of its paths. |
| `Differ.CompareFromEmpty` | app.py:162-164 | Against an empty baseline, `added` is the sorted list of all current paths and the other lists are empty. |
| `Differ.CompareToEmpty` | app.py:162-164 | Against an empty current scan, `deleted` is the sorted list of all baseline paths and the other lists are empty. |
| `Differ.ModifiedTimeChange` | app.py:171 | Same size "1.00 KB", modification time moved by five seconds: the result is exactly `changed = ["f.txt"]`. |
| `Differ.FileReplaced` | app.py:162-163 | `old.txt` only in the baseline and `new.txt` only in the current scan: the result is exactly `added = ["new.txt"]` and `deleted = ["old.txt"]`. |
| `SizeUnits.HumanReadableSize` | app.py:84-91 | `None` gives `None`. Otherwise the unit is the first of B..TB whose limit 1024^(k+1) exceeds the size, or PB. The number shown times 1024^k equals the byte count. |
| `SizeUnits.UnitUnique` | app.py:87-91 | At most one unit satisfies the unit rule for a size. |
| `SizeUnits.PetabytesExactly` | app.py:87-91 | PB is chosen exactly when the size is at least 1024^5. |
| `SizeUnits.ShownValueInRange` | app.py:87-91 | Below PB the number shown is under 1024. From KB on it is at least 1. |
| `SizeUnits.Thresholds` | app.py:87-91 | 1023 bytes is B, 1024 is KB, 1024^5 - 1 is TB and 1024^5 is PB. |
| `Scanner.IsLockFile` | app.py:127 | A name is a lock file exactly when its first two characters are `~` and `$`. |
| `Scanner.GetFileInfo` | app.py:94-116 | The record for a joined path has that path as `relpath`, `path.name` as name and the file test's flag. `error` is set exactly when its stat call failed, and then size and modification time are absent. |
| `Scanner.AddFilesContents` | app.py:125-131 | One directory adds exactly the joined paths of its non-lock files, each mapped to `get_file_info`'s record for that path. |
| `Scanner.CollectedContents` | app.py:124-131 | After the whole walk, the keys are exactly the joined paths of the walked non-lock files, each mapped to `get_file_info`'s record for that path. |
| `Scanner.ScanFolder` | app.py:119-132 | Fails with `FileNotFound(folder)` iff the root does not exist. Otherwise the result is what the nested loops build: the keys are exactly the walked non-lock files' paths. Each maps to `get_file_info`'s record for that path, whose `relpath` is the key and whose `error` is set exactly when the stat call failed. |
| `Scanner.LockFileNeverKept` | app.py:127-128 | A `~$` file's joined path is not a key, provided no non-lock walked file joins to the same path. `Path(root) / fname` meets this, because its last component is `fname`. |
| `Scanner.EveryOtherFileKept` | app.py:125-131 | Every walked file whose name does not start with `~$` is a key under its joined path, with `get_file_info`'s record for that path. |
| `Scanner.LockFileScenario` | app.py:127-131 | A folder holding `a.txt` and `~$lock.tmp` scans to `root/a.txt` alone. |
| `Baselines.BaselineStore.Save` | app.py:135-144 | Replaces the folder's baseline with (folder, creation time, files) and leaves every other folder's baseline unchanged. |
| `Baselines.BaselineStore.Load` | app.py:148-154 | Gives `None` iff the folder has no baseline. Otherwise it gives the stored baseline, which is recorded under that folder string. |
| `Baselines.SaveThenLoad` | app.py:135-154 | Loading right after a save returns exactly what was saved. A different folder string's baseline is untouched. |

## Left out

- The Streamlit interface, styling, buttons and table rendering (app.py:1-67, 181-276) are presentation only.
- `safe_name_hash` (SHA-1 of the folder string) is a foreign call. The store is keyed by the folder string itself, which assumes no two folder strings collide.
- Baseline files, JSON encoding, `BASE_DIR.mkdir` and `datetime.now()` are I/O. The creation time is a parameter of `Save`. A baseline file that is missing keys or malformed is not modelled.
- `timestamp` and the `stat`/`is_file` calls in `get_file_info` are operating-system calls. `FileInfo` takes their outcome (`StatOutcome`, `isFile`) as parameters.
- `Scanner.ScanFolder`: `path.name`, the stat call and `path.is_file()` come from a `FileSystem` parameter. The source's `except` branch calls `path.is_file()` again (app.py:114), and that call can itself raise. So "a failed stat never aborts the scan" is assumed, not modelled.
- Python strings can hold lone surrogate code points. `os.walk` produces them (U+DC80 to U+DCFF) for file-name bytes that are not valid UTF-8. Dafny's `char` cannot hold them, so such paths are outside the model of the scan and of the path order.
- `os.walk` is given as a sequence of (directory, file names) steps. Its traversal order and its silent skipping of unreadable directories are therefore part of the input.
- `Path(root) / fname` and `Path.exists()` are parameters (`join`, `rootExists`) of `ScanFolder`.
- `SizeUnits.HumanReadableSize`: the `.2f` decimal rendering of the number is not modelled. The method returns the exact scaled number and the unit.
- `PathOrder.SortPaths`: Python's `sorted` is modelled by repeatedly taking the least remaining path. Only its result is meant to match, not its algorithm.
