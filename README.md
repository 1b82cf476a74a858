# BackupPaths: a verified model of the backup script's core

The backup script keeps one `BackupPaths` object with four parts:

- the target directories;
- the named groups of source paths to back up;
- their total size;
- a problem record with five lists: non-string paths, non-absolute paths,
  nonexistent paths, failed targets and other messages.

Two setters validate a path list and only then commit it. Validation runs
three ordered checks. The first fails on an empty value or a value that is not
a list, and it looks only at the value itself. The second fails on non-string
elements. The third fails on paths that are not absolute or do not exist. The
second and third checks append every offender before they decide, and they
decide on the accumulated lists, which are never cleared. The
`paths` setter validates every group and then adds up the `st_size` of every
listed path. `make_backup` walks the targets. A target whose volume, named by
the first two characters of its path, has no more free bytes than the backup
size is recorded as failed and skipped. Every other target gets one
subdirectory per group, made only when absent, and each listed path is copied
into it with `copy2`. `copy2` is applied to each listed path as it is, so
directories are not copied recursively or merged. Empty and non-list values are
recorded only as the texts 'no dirs' and 'dirs is not list' under 'other'.

Modules:

- `Paths`: `os.path.join` and `os.path.basename` with POSIX rules, and the
  two-character volume prefix.
- `Os`: the filesystem as an object (`Os.FileSystem`).
  - `isabs`, `st_size` and the free bytes of a volume are fixed oracle
    functions.
  - `exists` asks a set of existing paths.
  - `mkdir` and `copy2` add to that set and append an event to a ghost trace.
  - `Os.Disk` is the value view of that state.
- `Config`: the parsed configuration and the problem record as datatypes.
  - A configuration value is a list of elements or some other value with a
    Python truth value.
  - An element is a string or an opaque non-string.
- `Validation`: `__validate_path_list` as a function of the record it starts
  from, the `paths` setter's loop over groups, and their properties.
- `Sizes`: the size sum and its properties.
- `Run`: `make_backup` as a function of the filesystem it starts from, and
  what it copies and which directories it makes.
- `BuScript`: the class `BackupPaths` itself. Its fields are reassigned in
  place, its loops carry invariants, and each method is proved against the
  functions above.

## Model

| member | source | states |
|---|---|---|
| BuScript.BackupPaths.constructor | bu_script.py:13-21 | no targets, no groups, size 0, and five empty problem lists |
| BuScript.BackupPaths.SetTarget | bu_script.py:27-31 | the record and the outcome are those of validation; on success the targets become the list's paths, a non-empty list of absolute paths that exist; on failure the targets are unchanged; the problem lists only grow |
| BuScript.BackupPaths.SetPaths | bu_script.py:37-43 | groups are validated in mapping order and the first failure stops the loop; only when all pass are the groups replaced and the size recomputed; every committed group is non-empty, with absolute paths that exist; a failure leaves groups and size unchanged; the problem lists only grow |
| BuScript.BackupPaths.ValidatePathList | bu_script.py:45-67 | the new record and the outcome are exactly `Validation.Validate` of the old record |
| BuScript.BackupPaths.RecordNonStrings | bu_script.py:53-55 | the first pass appends the non-string elements, in list order, and changes nothing else |
| BuScript.BackupPaths.RecordBadPaths | bu_script.py:59-63 | the second pass appends the non-absolute paths and the missing paths, each in list order, and changes nothing else |
| BuScript.BackupPaths.CalcBackupSize | bu_script.py:72-76 | the stored size is the sum over groups of the sum of `st_size` over the group's paths |
| BuScript.BackupPaths.CalcFreeMemory | bu_script.py:79-82 | the free bytes of the first two characters of the directory, or of the whole path when it is shorter |
| BuScript.BackupPaths.MakeBackup | bu_script.py:84-92 | exactly the targets that lack room are appended to the failed targets, in order; the filesystem ends as `Run.RunDisk` of where it started; the problem lists only grow |
| BuScript.BackupPaths.BackupTo | bu_script.py:90-92 | for one target with room, the groups in mapping order: each subdirectory made, then filled |
| BuScript.BackupPaths.MakeBackupSubdir | bu_script.py:94-100 | returns `join(root_dir, name)` and makes that directory only when it does not exist |
| BuScript.BackupPaths.CopyToSubdir | bu_script.py:102-106 | one `copy2` per listed path into the subdirectory, in list order |
| Os.FileSystem.MakeDir | bu_script.py:99 | `os.mkdir` is called only on an absent path, which then exists and is logged |
| Os.FileSystem.Copy | bu_script.py:106 | `copy2` into a directory creates the source's base name in it and is logged |
| Paths.JoinShape | bu_script.py:97 | a rooted name replaces the root; otherwise the join is the root, at most one separator, then the name |
| Paths.JoinInjective | bu_script.py:97 | distinct relative group names give distinct subdirectories of one target |
| Paths.BaseNameSuffix | bu_script.py:106 | the name `copy2` gives the copy is the longest separator-free suffix of the source |
| Paths.SameVolume | bu_script.py:81 | two targets that agree on their first two characters share one free-space figure |
| Validation.NonStringsMembers | bu_script.py:53-55 | an element is recorded as non-string iff it is in the list and is not a string; none is recorded iff all are strings |
| Validation.NonAbsoluteMembers | bu_script.py:59-61 | a path is recorded as non-absolute iff it is listed and not absolute |
| Validation.MissingMembers | bu_script.py:59-63 | a path is recorded as nonexistent iff it is listed and does not exist |
| Validation.EmptyOrNotListRejected | bu_script.py:46-51 | a falsy value appends 'no dirs', a truthy non-list appends 'dirs is not list', both raise `Exception`, and nothing else changes |
| Validation.TypeCheck | bu_script.py:53-57 | every non-string element is appended in order; a type error is raised iff the accumulated list is non-empty, and then no other list changes |
| Validation.PathChecks | bu_script.py:59-67 | once the type check passes, exactly the non-absolute and the missing paths are appended; the non-absolute error wins over the not-found error; success iff both lists stay empty |
| Validation.AcceptedPaths | bu_script.py:59-67 | the paths of a list that passes are absolute and exist |
| Validation.OkIff | bu_script.py:45-67 | validation succeeds iff no offender was recorded before and the value is a non-empty list of absolute, existing strings; success leaves the record unchanged |
| Validation.StaleOffendersFail | bu_script.py:56-67 | offenders left by an earlier call make every later call fail |
| Validation.FailureIsSticky | bu_script.py:53-67 | after a call fails on an offender, every later call fails, whatever its input |
| Validation.OnlyAppends | bu_script.py:45-67 | validation only appends: each old list is a prefix of the new one |
| Validation.ValidateAllExtends | bu_script.py:40-41 | the `paths` setter's loop only appends: each old list is a prefix of the new one |
| Validation.ValidateAllOkIff | bu_script.py:40-41 | all groups pass iff there are none, or the record is clean and every group is acceptable; then the record is unchanged |
| Validation.ValidateAllStops | bu_script.py:40-41 | after the first failing group, later groups change nothing |
| Validation.AllOkShape | bu_script.py:40-43 | when all groups pass, every group is a non-empty list of absolute, existing string paths |
| Sizes.TotalSizeOfAllPaths | bu_script.py:72-76 | the backup size is the sum of `st_size` over every path of every group |
| Sizes.AllPathsMembers | bu_script.py:74-75 | a path is counted iff some group lists it |
| Sizes.TotalSizePermutation | bu_script.py:72-76 | the size does not depend on the order of the groups |
| Run.InsufficientMembers | bu_script.py:85-88 | a target is recorded as failed iff it is a target and its volume's free bytes are at most the backup size |
| Run.CapacityBoundary | bu_script.py:87 | free bytes equal to the size fail; one byte more passes |
| Run.SubdirIdempotent | bu_script.py:95-100 | a second call to make the same subdirectory changes nothing, and the subdirectory exists after the first |
| Run.CopyAllCopies | bu_script.py:103-106 | copying a list adds exactly one copy per path into the subdirectory, in list order |
| Run.SubdirCopies | bu_script.py:95-100 | making a subdirectory copies nothing |
| Run.GroupsCopies | bu_script.py:90-92 | a target with room receives exactly its planned copies, group by group, path by path |
| Run.RunCopies | bu_script.py:84-92 | the run makes exactly the planned copies of the targets with room, in target order; a failed target gets none and later targets are still served |
| Run.PlannedCopiesMembers | bu_script.py:90-92 | a planned copy for a target is exactly a listed path copied into its group's subdirectory |
| Run.PlannedRunMembers | bu_script.py:84-92 | a copy happens iff it is of a listed path into a group's subdirectory of a target with room |
| Run.CopyAllGrows | bu_script.py:103-106 | copying a list makes no directory |
| Run.SubdirGrows | bu_script.py:95-100 | making a subdirectory makes only that one, and only when it is absent |
| Run.GroupsGrows | bu_script.py:90-92 | one target makes only its groups' subdirectories, each only when absent, and all of them exist afterwards |
| Run.RunGrows | bu_script.py:84-92 | the run makes only subdirectories of targets with room, each only when absent; what exists afterwards is what existed plus what the run created; every such subdirectory exists at the end |
| Run.NoDirMadeTwice | bu_script.py:98-99 | under that guarantee no path is made twice |
| Run.RunMakesNoDirTwice | bu_script.py:84-100 | the run only appends to the event log, and among the events it adds no path is made twice |

## Left out

- Loading the YAML configuration at module level and the `main` function: file input, a third-party parser, float formatting and printing. The model starts from the parsed configuration, given as `Config.Entry` values in mapping order.
- All printing. This includes the loop that prints each path's `st_size` at the end of validation and the print of the total size.
- The `target` and `paths` getters. They return a field unchanged.
- The errors the library calls can raise themselves: `OSError` from `stat`, `disk_usage`, `mkdir` and `copy2`, and `copy2` refusing a directory as its source. Each call is modelled as succeeding.
- Os.FileSystem.Copy: models `copy2` into an existing directory only. It does not model a destination that is an existing file, or metadata.
- Paths.Join and Paths.BaseName follow POSIX rules. The Windows rules, with drive letters and backslashes, are not modelled.
- Os.FileSystem: paths are compared as strings. Two spellings of one file, such as `/a/g` and `/a/./g`, a path through a symbolic link, a doubled separator, or a different letter case on Windows, are two paths in the model. With targets such as `/a` and `/a/.`, the model then logs a `mkdir` that the program skips, because there `os.path.exists` already sees the directory. "No path is made twice" is therefore a statement about path strings, not about directories.
- Os.FileSystem: the free bytes of a volume are fixed for the whole run. Copies to one target do not reduce the free space seen by a later target on the same volume.
- Config.Entry: keys are strings. A non-string key in the configuration mapping is not modelled.
- The exception messages, other than the two texts appended to the 'other' list.
- BuScript.BackupPaths: the fields hold value copies. The setters at bu_script.py:31 and :43 keep the caller's own list and dict, and the getters hand those same objects back out. A caller that mutates them afterwards changes the targets or groups that `make_backup` uses without validation, while the stored size keeps its old value. The model does not capture this aliasing.
- BuScript.BackupPaths.MakeBackup keeps the inner loop over groups in a helper method, `BuScript.BackupPaths.BackupTo`, so that each proof stays small. The order of calls is unchanged.
- BuScript.BackupPaths.ValidatePathList keeps its two passes in the helper methods `RecordNonStrings` and `RecordBadPaths` for the same reason. Each helper appends in place exactly as the inline loop does.
