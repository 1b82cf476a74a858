/** The operating system as the backup script sees it. The library calls it
    makes are oracles: `isabs`, the `st_size` of `os.stat` and the free bytes
    of `shutil.disk_usage` are fixed functions, `os.path.exists` asks the set
    of existing paths, and `os.mkdir` and `shutil.copy2` add to that set and
    leave an event in a trace. */
module Os {
  import opened Paths

  /** What the script asked the filesystem to do. */
  datatype Event =
    | MadeDir(path: Path)             // os.mkdir(path)
    | Copied(src: Path, into: Path)   // shutil.copy2(src, into), `into` a directory

  /** The path an event brings into existence: the new directory, or the copy
      placed in the directory under the source's base name. */
  function Created(e: Event): Path {
    match e
    case MadeDir(p) => p
    case Copied(src, into) => Join(into, BaseName(src))
  }

  /** A value view of the filesystem: the paths that exist and the events so far. */
  datatype Disk = Disk(existing: set<Path>, log: seq<Event>)

  /** os.mkdir(p): the directory exists afterwards. */
  function Mkdir(d: Disk, p: Path): Disk {
    Disk(d.existing + {p}, d.log + [MadeDir(p)])
  }

  /** shutil.copy2(src, into) with `into` a directory: the copy exists
      afterwards under the source's base name. */
  function Copy2(d: Disk, src: Path, into: Path): Disk {
    var e := Copied(src, into);
    Disk(d.existing + {Created(e)}, d.log + [e])
  }

  class FileSystem {
    const isAbs: Path -> bool       // os.path.isabs
    const statSize: Path -> nat     // os.stat(path).st_size
    const freeBytes: Path -> nat    // shutil.disk_usage(volume).free
    var existing: set<Path>         // os.path.exists
    ghost var log: seq<Event>

    constructor (isAbs: Path -> bool, statSize: Path -> nat, freeBytes: Path -> nat, existing: set<Path>)
      ensures this.isAbs == isAbs && this.statSize == statSize && this.freeBytes == freeBytes
      ensures View() == Disk(existing, [])
    {
      this.isAbs := isAbs;
      this.statSize := statSize;
      this.freeBytes := freeBytes;
      this.existing := existing;
      this.log := [];
    }

    ghost function View(): Disk
      reads this
    {
      Disk(existing, log)
    }

    /** os.mkdir, which refuses a path that already exists. */
    method MakeDir(p: Path)
      requires p !in existing
      modifies this
      ensures View() == Mkdir(old(View()), p)
    {
      existing := existing + {p};
      log := log + [MadeDir(p)];
    }

    /** shutil.copy2 into an existing directory. */
    method Copy(src: Path, into: Path)
      modifies this
      ensures View() == Copy2(old(View()), src, into)
    {
      existing := existing + {Created(Copied(src, into))};
      log := log + [Copied(src, into)];
    }
  }
}
