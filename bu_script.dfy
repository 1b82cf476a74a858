/** The `BackupPaths` class: the destinations, the groups to back up, their
    total size and the record of problems, changed in place by two guarded
    setters and by the backup itself. Each method is proved against the
    functions of Validation, Sizes and Run. */
module BuScript {
  import opened Paths
  import opened Os
  import opened Config
  import opened Validation
  import opened Sizes
  import opened Run

  class BackupPaths {
    var targets: seq<Path>
    var groups: seq<SourceGroup>
    var backupSize: nat
    var problems: Problems

    constructor ()
      ensures targets == [] && groups == [] && backupSize == 0
      ensures problems == NO_PROBLEMS
    {
      targets := [];
      groups := [];
      backupSize := 0;
      problems := NO_PROBLEMS;
    }

    /** The `target` setter: validate, and only then replace the targets. */
    method SetTarget(pathList: Value, fs: FileSystem) returns (outcome: Outcome)
      modifies this`problems, this`targets
      ensures (problems, outcome) == Validate(old(problems), pathList, fs.isAbs, fs.existing)
      ensures outcome == Ok ==> pathList.List? && AllStrings(pathList.items) && targets == Texts(pathList.items)
      ensures outcome == Ok ==> targets != [] && forall t <- targets :: fs.isAbs(t) && t in fs.existing
      ensures outcome != Ok ==> targets == old(targets)
      ensures Extends(old(problems), problems)
    {
      outcome := ValidatePathList(pathList, fs);
      OnlyAppends(old(problems), pathList, fs.isAbs, fs.existing);
      if outcome == Ok {
        OkIff(old(problems), pathList, fs.isAbs, fs.existing);
        AcceptedPaths(pathList, fs.isAbs, fs.existing);
        targets := Texts(pathList.items);
      }
    }

    /** The `paths` setter: validate every group in mapping order, stopping at
        the first failure; only when all pass compute the size and replace
        the groups. */
    method SetPaths(toBackup: seq<Entry>, fs: FileSystem) returns (outcome: Outcome)
      modifies this`problems, this`groups, this`backupSize
      ensures (problems, outcome) == ValidateAll(old(problems), Values(toBackup), fs.isAbs, fs.existing)
      ensures outcome == Ok ==> PathLists(toBackup) && groups == ToGroups(toBackup)
      ensures outcome == Ok ==> forall g <- groups :: g.paths != [] && forall q <- g.paths :: fs.isAbs(q) && q in fs.existing
      ensures outcome == Ok ==> backupSize == TotalSize(groups, fs.statSize)
      ensures outcome != Ok ==> groups == old(groups) && backupSize == old(backupSize)
      ensures Extends(old(problems), problems)
    {
      var values := Values(toBackup);
      ghost var start := problems;
      ValidateAllExtends(start, values, fs.isAbs, fs.existing);
      var i := 0;
      while i < |values|
        invariant 0 <= i <= |values|
        invariant ValidateAll(start, values[..i], fs.isAbs, fs.existing) == (problems, Ok)
        invariant groups == old(groups) && backupSize == old(backupSize)
      {
        assert ValidateAll(start, values[..i + 1], fs.isAbs, fs.existing) ==
          Validate(problems, values[i], fs.isAbs, fs.existing) by {
          assert values[..i + 1][..i] == values[..i];
        }
        outcome := ValidatePathList(values[i], fs);
        if outcome != Ok {
          assert ValidateAll(start, values, fs.isAbs, fs.existing) == (problems, outcome) by {
            ValidateAllStops(start, values[..i + 1], values[i + 1..], fs.isAbs, fs.existing);
            assert values[..i + 1] + values[i + 1..] == values;
          }
          return;
        }
        i := i + 1;
      }
      assert values[..i] == values;
      AllOkShape(old(problems), toBackup, fs.isAbs, fs.existing);
      var gs := ToGroups(toBackup);
      CalcBackupSize(gs, fs);
      groups := gs;
      outcome := Ok;
    }

    /** `__validate_path_list`: the three ordered checks, each a full pass
        that appends every offender before it decides. */
    method ValidatePathList(pathList: Value, fs: FileSystem) returns (outcome: Outcome)
      modifies this`problems
      ensures (problems, outcome) == Validate(old(problems), pathList, fs.isAbs, fs.existing)
    {
      ghost var before := problems;
      if !Truthy(pathList) {
        problems := problems.(other := problems.other + [NO_DIRS]);
        return Raised(Exception);
      }
      if !pathList.List? {
        problems := problems.(other := problems.other + [DIRS_NOT_LIST]);
        return Raised(Exception);
      }
      var items := pathList.items;
      RecordNonStrings(items);
      if problems.nonStr != [] {
        TypeCheck(before, pathList, fs.isAbs, fs.existing);
        return Raised(TypeError);
      }

      assert problems == before && AllStrings(items) by {
        NonStringsMembers(items);
      }
      var paths := Texts(items);
      RecordBadPaths(paths, fs);
      PathChecks(before, pathList, fs.isAbs, fs.existing);
      if problems.nonAbs != [] {
        return Raised(ValueError);
      }
      if problems.nonExistent != [] {
        return Raised(FileNotFoundError);
      }
      return Ok;
    }

    /** The first pass of `__validate_path_list`: append every element that
        is not a string, in list order. */
    method RecordNonStrings(items: seq<Elem>)
      modifies this`problems
      ensures problems == old(problems).(nonStr := old(problems).nonStr + NonStrings(items))
    {
      for i := 0 to |items|
        invariant problems == old(problems).(nonStr := old(problems).nonStr + NonStrings(items[..i]))
      {
        assert NonStrings(items[..i + 1]) == NonStrings(items[..i]) + (if items[i].Str? then [] else [items[i]]) by {
          assert items[..i + 1][..i] == items[..i];
        }
        if !items[i].Str? {
          problems := problems.(nonStr := problems.nonStr + [items[i]]);
        }
      }
      assert items[..|items|] == items;
    }

    /** The second pass of `__validate_path_list`: in one walk over the list,
        append each path that is not absolute and each path that does not
        exist. */
    method RecordBadPaths(paths: seq<Path>, fs: FileSystem)
      modifies this`problems
      ensures problems == old(problems).(
        nonAbs := old(problems).nonAbs + NonAbsolute(paths, fs.isAbs),
        nonExistent := old(problems).nonExistent + Missing(paths, fs.existing))
    {
      ghost var start := problems;
      var isAbs, existing := fs.isAbs, fs.existing;
      for i := 0 to |paths|
        invariant problems == start.(
          nonAbs := start.nonAbs + NonAbsolute(paths[..i], isAbs),
          nonExistent := start.nonExistent + Missing(paths[..i], existing))
      {
        var path := paths[i];
        assert NonAbsolute(paths[..i + 1], isAbs) ==
          NonAbsolute(paths[..i], isAbs) + (if isAbs(path) then [] else [path]) by {
          assert paths[..i + 1][..i] == paths[..i];
        }
        assert Missing(paths[..i + 1], existing) ==
          Missing(paths[..i], existing) + (if path in existing then [] else [path]) by {
          assert paths[..i + 1][..i] == paths[..i];
        }
        if !isAbs(path) {
          problems := problems.(nonAbs := problems.nonAbs + [path]);
        }
        if path !in existing {
          problems := problems.(nonExistent := problems.nonExistent + [path]);
        }
      }
      assert paths[..|paths|] == paths;
    }

    /** `__calc_backup_size`: add up each group's sum of sizes. */
    method CalcBackupSize(toBackup: seq<SourceGroup>, fs: FileSystem)
      modifies this`backupSize
      ensures backupSize == TotalSize(toBackup, fs.statSize)
    {
      var size := 0;
      for i := 0 to |toBackup|
        invariant size == TotalSize(toBackup[..i], fs.statSize)
      {
        TotalSizeAppend(toBackup[..i], [toBackup[i]], fs.statSize);
        assert toBackup[..i + 1] == toBackup[..i] + [toBackup[i]];
        assert TotalSize([toBackup[i]], fs.statSize) == SumSizes(toBackup[i].paths, fs.statSize);
        size := size + SumSizes(toBackup[i].paths, fs.statSize);
      }
      assert toBackup[..|toBackup|] == toBackup;
      backupSize := size;
    }

    /** `__calc_free_memory`: the free bytes of the volume named by the first
        two characters of the directory. */
    static function CalcFreeMemory(fs: FileSystem, directory: Path): (free: nat)
      ensures |directory| >= 2 ==> free == fs.freeBytes(directory[..2])
      ensures |directory| < 2 ==> free == fs.freeBytes(directory)
    {
      fs.freeBytes(VolumeOf(directory))
    }

    /** `make_backup`: for each target in order, record it as failed and move
        on when its volume has no more free bytes than the backup size;
        otherwise make each group's subdirectory and copy the group into it. */
    method MakeBackup(fs: FileSystem)
      modifies this`problems, fs
      ensures problems == old(problems).(failedTargets :=
        old(problems).failedTargets + Insufficient(targets, backupSize, fs.freeBytes))
      ensures fs.View() == RunDisk(old(fs.View()), targets, groups, backupSize, fs.freeBytes)
      ensures Extends(old(problems), problems)
    {
      ghost var start, recorded, free := fs.View(), problems, fs.freeBytes;
      var ts, size := targets, backupSize;
      for i := 0 to |ts|
        invariant problems == recorded.(failedTargets :=
          recorded.failedTargets + Insufficient(ts[..i], size, free))
        invariant fs.View() == RunDisk(start, ts[..i], groups, size, free)
      {
        var dir := ts[i];
        assert Insufficient(ts[..i + 1], size, free) ==
          Insufficient(ts[..i], size, free) + (if Lacks(dir, size, free) then [dir] else []) by {
          assert ts[..i + 1][..i] == ts[..i];
        }
        assert RunDisk(start, ts[..i + 1], groups, size, free) ==
          var before := RunDisk(start, ts[..i], groups, size, free);
          if Lacks(dir, size, free) then before else GroupsDisk(before, dir, groups) by {
          assert ts[..i + 1][..i] == ts[..i];
        }
        var freeMem := CalcFreeMemory(fs, dir);
        if freeMem <= size {
          problems := problems.(failedTargets := problems.failedTargets + [dir]);
          continue;
        }
        BackupTo(fs, dir);
      }
      assert ts[..|ts|] == ts;
    }

    /** The inner loop of `make_backup`: for each group in mapping order, make
        its subdirectory of `dir` and copy the group into it. */
    method BackupTo(fs: FileSystem, dir: Path)
      modifies fs
      ensures fs.View() == GroupsDisk(old(fs.View()), dir, groups)
    {
      ghost var start := fs.View();
      var gs := groups;
      for j := 0 to |gs|
        invariant fs.View() == GroupsDisk(start, dir, gs[..j])
      {
        var g := gs[j];
        assert GroupsDisk(start, dir, gs[..j + 1]) ==
          CopyAll(Subdir(GroupsDisk(start, dir, gs[..j]), g.name, dir), g.paths, Join(dir, g.name)) by {
          assert gs[..j + 1][..j] == gs[..j];
        }
        var subdir := MakeBackupSubdir(fs, g.name, dir);
        CopyToSubdir(fs, subdir, g.paths);
      }
      assert gs[..|gs|] == gs;
    }

    /** `__make_backup_subdir`: join the name to the root and make that
        directory unless it exists. */
    static method MakeBackupSubdir(fs: FileSystem, name: string, rootDir: Path) returns (subdir: Path)
      modifies fs
      ensures subdir == Join(rootDir, name)
      ensures fs.View() == Subdir(old(fs.View()), name, rootDir)
    {
      subdir := Join(rootDir, name);
      if subdir !in fs.existing {
        fs.MakeDir(subdir);
      }
    }

    /** `__copy_to_subdir`: copy each path of the list into the directory, in
        list order. */
    static method CopyToSubdir(fs: FileSystem, subdir: Path, filelist: seq<Path>)
      modifies fs
      ensures fs.View() == CopyAll(old(fs.View()), filelist, subdir)
    {
      for i := 0 to |filelist|
        invariant fs.View() == CopyAll(old(fs.View()), filelist[..i], subdir)
      {
        assert filelist[..i + 1][..i] == filelist[..i];
        fs.Copy(filelist[i], subdir);
      }
      assert filelist[..|filelist|] == filelist;
    }
  }
}
