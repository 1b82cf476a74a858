/** `BackupPaths.make_backup` as a function of the filesystem it starts from:
    the capacity test per target, and for every target with room one
    subdirectory per group, made only when absent, and one copy per listed
    path. The lemmas say which copies happen, in which order, and which
    directories are made. */
module Run {
  import opened Paths
  import opened Os
  import opened Config

  /** `free_mem <= self.__backup_size`: the target's volume has no more free
      bytes than the backup needs, so equality counts as too little. */
  predicate Lacks(t: Path, size: nat, free: Path -> nat) {
    free(VolumeOf(t)) <= size
  }

  /** The targets that go into 'failed_targets', in target order. */
  function Insufficient(ts: seq<Path>, size: nat, free: Path -> nat): seq<Path>
    decreases |ts|
  {
    if ts == [] then []
    else
      var t := ts[|ts| - 1];
      Insufficient(ts[..|ts| - 1], size, free) + (if Lacks(t, size, free) then [t] else [])
  }

  /** A target is recorded as failed exactly when its volume lacks room. */
  lemma {:induction false} InsufficientMembers(ts: seq<Path>, size: nat, free: Path -> nat)
    ensures forall t :: t in Insufficient(ts, size, free) <==> t in ts && Lacks(t, size, free)
    decreases |ts|
  {
    if ts != [] {
      InsufficientMembers(ts[..|ts| - 1], size, free);
      assert ts == ts[..|ts| - 1] + [ts[|ts| - 1]];
    }
  }

  /** Free space equal to the backup size is not enough; one byte more is. */
  lemma CapacityBoundary(t: Path, size: nat, free: Path -> nat)
    ensures free(VolumeOf(t)) == size ==> Lacks(t, size, free)
    ensures free(VolumeOf(t)) == size + 1 ==> !Lacks(t, size, free)
  {
  }

  /** `__make_backup_subdir(name, root_dir)`: make `join(root_dir, name)`
      unless it exists. */
  function Subdir(d: Disk, name: string, root: Path): Disk {
    var sub := Join(root, name);
    if sub in d.existing then d else Mkdir(d, sub)
  }

  /** A second call finds the subdirectory the first one made. */
  lemma SubdirIdempotent(d: Disk, name: string, root: Path)
    ensures Subdir(Subdir(d, name, root), name, root) == Subdir(d, name, root)
    ensures Join(root, name) in Subdir(d, name, root).existing
  {
  }

  /** `__copy_to_subdir(subdir, filelist)`: copy each path in list order. */
  function CopyAll(d: Disk, files: seq<Path>, into: Path): Disk
    decreases |files|
  {
    if files == [] then d
    else Copy2(CopyAll(d, files[..|files| - 1], into), files[|files| - 1], into)
  }

  /** The groups of one target with room, in mapping order. */
  function GroupsDisk(d: Disk, root: Path, gs: seq<SourceGroup>): Disk
    decreases |gs|
  {
    if gs == [] then d
    else
      var g := gs[|gs| - 1];
      CopyAll(Subdir(GroupsDisk(d, root, gs[..|gs| - 1]), g.name, root), g.paths, Join(root, g.name))
  }

  /** The filesystem after make_backup has walked the targets `ts`. */
  function RunDisk(d: Disk, ts: seq<Path>, gs: seq<SourceGroup>, size: nat, free: Path -> nat): Disk
    decreases |ts|
  {
    if ts == [] then d
    else
      var before := RunDisk(d, ts[..|ts| - 1], gs, size, free);
      var t := ts[|ts| - 1];
      if Lacks(t, size, free) then before else GroupsDisk(before, t, gs)
  }

  // ---------------------------------------------------------------------
  // Which copies happen

  /** The copy events of a trace, in order. */
  function Copies(log: seq<Event>): seq<Event> {
    if log == [] then []
    else (if log[0].Copied? then [log[0]] else []) + Copies(log[1..])
  }

  lemma {:induction false} CopiesAppend(a: seq<Event>, b: seq<Event>)
    ensures Copies(a + b) == Copies(a) + Copies(b)
  {
    if a == [] {
      assert a + b == b;
    } else {
      var head := if a[0].Copied? then [a[0]] else [];
      assert (a + b)[0] == a[0];
      assert (a + b)[1..] == a[1..] + b;
      assert Copies(a + b) == head + Copies(a[1..] + b);
      CopiesAppend(a[1..], b);
      assert Copies(a) == head + Copies(a[1..]);
    }
  }

  /** One copy per path into `into`, in list order. */
  function CopyEvents(files: seq<Path>, into: Path): seq<Event> {
    seq(|files|, k requires 0 <= k < |files| => Copied(files[k], into))
  }

  /** The copies one target should receive: every path of every group into
      that group's subdirectory, group after group. */
  function PlannedCopies(root: Path, gs: seq<SourceGroup>): seq<Event>
    decreases |gs|
  {
    if gs == [] then []
    else
      var g := gs[|gs| - 1];
      PlannedCopies(root, gs[..|gs| - 1]) + CopyEvents(g.paths, Join(root, g.name))
  }

  /** The copies the whole run should make: those of each target with room,
      target after target; a target that lacks room receives none. */
  function PlannedRun(ts: seq<Path>, gs: seq<SourceGroup>, size: nat, free: Path -> nat): seq<Event>
    decreases |ts|
  {
    if ts == [] then []
    else
      var t := ts[|ts| - 1];
      PlannedRun(ts[..|ts| - 1], gs, size, free) + (if Lacks(t, size, free) then [] else PlannedCopies(t, gs))
  }

  lemma {:induction false} CopyAllCopies(d: Disk, files: seq<Path>, into: Path)
    ensures Copies(CopyAll(d, files, into).log) == Copies(d.log) + CopyEvents(files, into)
    decreases |files|
  {
    if files != [] {
      var init := files[..|files| - 1];
      var last := files[|files| - 1];
      CopyAllCopies(d, init, into);
      CopiesAppend(CopyAll(d, init, into).log, [Copied(last, into)]);
      assert Copies([Copied(last, into)]) == [Copied(last, into)];
      assert CopyEvents(files, into) == CopyEvents(init, into) + [Copied(last, into)];
    }
  }

  lemma SubdirCopies(d: Disk, name: string, root: Path)
    ensures Copies(Subdir(d, name, root).log) == Copies(d.log)
  {
    var sub := Join(root, name);
    if sub !in d.existing {
      CopiesAppend(d.log, [MadeDir(sub)]);
      assert Copies([MadeDir(sub)]) == [];
    }
  }

  /** The last group adds the copies of its own list into its subdirectory. */
  lemma LastGroupCopies(d: Disk, root: Path, gs: seq<SourceGroup>)
    requires gs != []
    ensures Copies(GroupsDisk(d, root, gs).log) ==
      Copies(GroupsDisk(d, root, gs[..|gs| - 1]).log) +
      CopyEvents(gs[|gs| - 1].paths, Join(root, gs[|gs| - 1].name))
  {
    var g := gs[|gs| - 1];
    var d1 := GroupsDisk(d, root, gs[..|gs| - 1]);
    var d2 := Subdir(d1, g.name, root);
    SubdirCopies(d1, g.name, root);
    CopyAllCopies(d2, g.paths, Join(root, g.name));
  }

  /** One target with room receives exactly its planned copies, in order. */
  lemma {:induction false} GroupsCopies(d: Disk, root: Path, gs: seq<SourceGroup>)
    ensures Copies(GroupsDisk(d, root, gs).log) == Copies(d.log) + PlannedCopies(root, gs)
    decreases |gs|
  {
    if gs != [] {
      GroupsCopies(d, root, gs[..|gs| - 1]);
      LastGroupCopies(d, root, gs);
    }
  }

  /** The last target adds its own planned copies to those made before it,
      or nothing when it lacks room. */
  lemma LastTargetCopies(d: Disk, ts: seq<Path>, gs: seq<SourceGroup>, size: nat, free: Path -> nat)
    requires ts != []
    ensures Copies(RunDisk(d, ts, gs, size, free).log) ==
      Copies(RunDisk(d, ts[..|ts| - 1], gs, size, free).log) +
      (if Lacks(ts[|ts| - 1], size, free) then [] else PlannedCopies(ts[|ts| - 1], gs))
  {
    var t := ts[|ts| - 1];
    if !Lacks(t, size, free) {
      GroupsCopies(RunDisk(d, ts[..|ts| - 1], gs, size, free), t, gs);
    }
  }

  /** make_backup copies exactly the planned copies of the targets with room,
      in target order, then group order, then list order; a target that
      lacks room gets no copy, and later targets are still served. */
  lemma {:induction false} RunCopies(d: Disk, ts: seq<Path>, gs: seq<SourceGroup>, size: nat, free: Path -> nat)
    ensures Copies(RunDisk(d, ts, gs, size, free).log) == Copies(d.log) + PlannedRun(ts, gs, size, free)
    decreases |ts|
  {
    if ts != [] {
      RunCopies(d, ts[..|ts| - 1], gs, size, free);
      LastTargetCopies(d, ts, gs, size, free);
    }
  }

  /** The copies into one directory are exactly those of the listed paths. */
  lemma CopyEventsMembers(files: seq<Path>, into: Path)
    ensures forall e :: e in CopyEvents(files, into) <==> exists q :: q in files && e == Copied(q, into)
  {
    var here := CopyEvents(files, into);
    forall e ensures e in here <==> exists q :: q in files && e == Copied(q, into) {
      if e in here {
        var k :| 0 <= k < |here| && here[k] == e;
        assert files[k] in files;
      }
      if exists q :: q in files && e == Copied(q, into) {
        var q :| q in files && e == Copied(q, into);
        var k :| 0 <= k < |files| && files[k] == q;
        assert here[k] == e;
      }
    }
  }

  /** Each planned copy of one target is of a listed path into the
      subdirectory of its group, and each such copy is planned. */
  lemma {:induction false} PlannedCopiesMembers(root: Path, gs: seq<SourceGroup>)
    ensures forall e :: e in PlannedCopies(root, gs) <==>
      exists g, q :: g in gs && q in g.paths && e == Copied(q, Join(root, g.name))
    decreases |gs|
  {
    if gs != [] {
      var g := gs[|gs| - 1];
      PlannedCopiesMembers(root, gs[..|gs| - 1]);
      CopyEventsMembers(g.paths, Join(root, g.name));
      assert gs == gs[..|gs| - 1] + [g];
    }
  }

  /** Each planned copy is of a listed path into the subdirectory of its
      group under a target with room, and each such copy is planned. */
  lemma {:induction false} PlannedRunMembers(ts: seq<Path>, gs: seq<SourceGroup>, size: nat, free: Path -> nat)
    ensures forall e :: e in PlannedRun(ts, gs, size, free) <==>
      exists t, g, q :: t in ts && !Lacks(t, size, free) && g in gs && q in g.paths && e == Copied(q, Join(t, g.name))
    decreases |ts|
  {
    if ts != [] {
      var t := ts[|ts| - 1];
      PlannedRunMembers(ts[..|ts| - 1], gs, size, free);
      PlannedCopiesMembers(t, gs);
      assert ts == ts[..|ts| - 1] + [t];
    }
  }

  // ---------------------------------------------------------------------
  // Which directories are made

  /** The paths the events of a trace bring into existence. */
  function CreatedBy(ev: seq<Event>): set<Path> {
    if ev == [] then {} else {Created(ev[0])} + CreatedBy(ev[1..])
  }

  lemma {:induction false} CreatedByAppend(a: seq<Event>, b: seq<Event>)
    ensures CreatedBy(a + b) == CreatedBy(a) + CreatedBy(b)
  {
    if a == [] {
      assert a + b == b;
    } else {
      assert (a + b)[1..] == a[1..] + b;
      CreatedByAppend(a[1..], b);
    }
  }

  lemma {:induction false} CreatedByMembers(ev: seq<Event>)
    ensures forall i :: 0 <= i < |ev| ==> Created(ev[i]) in CreatedBy(ev)
  {
    if ev != [] {
      CreatedByMembers(ev[1..]);
      assert forall i :: 1 <= i < |ev| ==> ev[i] == ev[1..][i - 1];
    }
  }

  /** Every directory made by the events `ev` is one of `allowed`, and did
      not exist when it was made: not before them and not through an earlier
      one of them. */
  ghost predicate FreshMkdirs(before: set<Path>, ev: seq<Event>, allowed: set<Path>) {
    forall i :: 0 <= i < |ev| && ev[i].MadeDir? ==>
      ev[i].path in allowed && ev[i].path !in before + CreatedBy(ev[..i])
  }

  /** `d2` follows `d1` by appending events that make only allowed, absent
      directories, and the paths that exist are the old ones and those the
      events created. */
  ghost predicate Grows(d1: Disk, d2: Disk, allowed: set<Path>) {
    && d1.log <= d2.log
    && d2.existing == d1.existing + CreatedBy(d2.log[|d1.log|..])
    && FreshMkdirs(d1.existing, d2.log[|d1.log|..], allowed)
  }

  lemma GrowsRefl(d: Disk, allowed: set<Path>)
    ensures Grows(d, d, allowed)
  {
    assert d.log[|d.log|..] == [];
  }

  lemma GrowsMkdir(d: Disk, p: Path, allowed: set<Path>)
    requires p !in d.existing && p in allowed
    ensures Grows(d, Mkdir(d, p), allowed)
  {
    var d2 := Mkdir(d, p);
    assert d2.log[|d.log|..] == [MadeDir(p)];
    assert [MadeDir(p)][..0] == [];
    assert CreatedBy([MadeDir(p)]) == {p};
  }

  lemma GrowsCopy(d: Disk, src: Path, into: Path, allowed: set<Path>)
    ensures Grows(d, Copy2(d, src, into), allowed)
  {
    var d2 := Copy2(d, src, into);
    assert d2.log[|d.log|..] == [Copied(src, into)];
    assert CreatedBy([Copied(src, into)]) == {Created(Copied(src, into))};
  }

  lemma GrowsTrans(d1: Disk, d2: Disk, d3: Disk, allowed: set<Path>)
    requires Grows(d1, d2, allowed) && Grows(d2, d3, allowed)
    ensures Grows(d1, d3, allowed)
  {
    var a := d2.log[|d1.log|..];
    var b := d3.log[|d2.log|..];
    var ab := d3.log[|d1.log|..];
    assert ab == a + b;
    CreatedByAppend(a, b);
    forall i | 0 <= i < |ab| && ab[i].MadeDir?
      ensures ab[i].path in allowed && ab[i].path !in d1.existing + CreatedBy(ab[..i])
    {
      if i < |a| {
        assert ab[i] == a[i] && ab[..i] == a[..i];
      } else {
        var j := i - |a|;
        assert ab[i] == b[j];
        assert ab[..i] == a + b[..j];
        CreatedByAppend(a, b[..j]);
      }
    }
  }

  lemma GrowsWiden(d1: Disk, d2: Disk, allowed: set<Path>, wider: set<Path>)
    requires Grows(d1, d2, allowed) && allowed <= wider
    ensures Grows(d1, d2, wider)
  {
  }

  lemma {:induction false} CopyAllGrows(d: Disk, files: seq<Path>, into: Path, allowed: set<Path>)
    ensures Grows(d, CopyAll(d, files, into), allowed)
    decreases |files|
  {
    if files == [] {
      GrowsRefl(d, allowed);
    } else {
      var mid := CopyAll(d, files[..|files| - 1], into);
      CopyAllGrows(d, files[..|files| - 1], into, allowed);
      GrowsCopy(mid, files[|files| - 1], into, allowed);
      GrowsTrans(d, mid, CopyAll(d, files, into), allowed);
    }
  }

  lemma SubdirGrows(d: Disk, name: string, root: Path, allowed: set<Path>)
    requires Join(root, name) in allowed
    ensures Grows(d, Subdir(d, name, root), allowed)
  {
    if Join(root, name) in d.existing {
      GrowsRefl(d, allowed);
    } else {
      GrowsMkdir(d, Join(root, name), allowed);
    }
  }

  /** One target with room: only its groups' subdirectories are made, each
      only when absent, and afterwards all of them exist. */
  lemma {:induction false} GroupsGrows(d: Disk, root: Path, gs: seq<SourceGroup>, allowed: set<Path>)
    requires forall g <- gs :: Join(root, g.name) in allowed
    ensures Grows(d, GroupsDisk(d, root, gs), allowed)
    ensures forall g <- gs :: Join(root, g.name) in GroupsDisk(d, root, gs).existing
    decreases |gs|
  {
    if gs == [] {
      GrowsRefl(d, allowed);
    } else {
      var init := gs[..|gs| - 1];
      var g := gs[|gs| - 1];
      assert gs == init + [g];
      GroupsGrows(d, root, init, allowed);
      var d1 := GroupsDisk(d, root, init);
      var d2 := Subdir(d1, g.name, root);
      var d3 := CopyAll(d2, g.paths, Join(root, g.name));
      SubdirGrows(d1, g.name, root, allowed);
      CopyAllGrows(d2, g.paths, Join(root, g.name), allowed);
      GrowsTrans(d1, d2, d3, allowed);
      GrowsTrans(d, d1, d3, allowed);
    }
  }

  /** The subdirectories a run may make: one per group under each target
      with room. */
  function PlannedSubdirs(ts: seq<Path>, gs: seq<SourceGroup>, size: nat, free: Path -> nat): set<Path> {
    set t, g | t in ts && g in gs && !Lacks(t, size, free) :: Join(t, g.name)
  }

  /** make_backup makes only the subdirectories of targets with room, each
      only if it did not exist at that moment, so never twice; what exists
      afterwards is what existed before plus what the run created; and every
      group's subdirectory under every target with room exists afterwards. */
  lemma {:induction false} RunGrows(d: Disk, ts: seq<Path>, gs: seq<SourceGroup>, size: nat, free: Path -> nat)
    ensures Grows(d, RunDisk(d, ts, gs, size, free), PlannedSubdirs(ts, gs, size, free))
    ensures forall t, g :: t in ts && g in gs && !Lacks(t, size, free) ==>
      Join(t, g.name) in RunDisk(d, ts, gs, size, free).existing
    decreases |ts|
  {
    var allowed := PlannedSubdirs(ts, gs, size, free);
    if ts == [] {
      GrowsRefl(d, allowed);
    } else {
      var init := ts[..|ts| - 1];
      var t := ts[|ts| - 1];
      assert ts == init + [t];
      RunGrows(d, init, gs, size, free);
      var d1 := RunDisk(d, init, gs, size, free);
      GrowsWiden(d, d1, PlannedSubdirs(init, gs, size, free), allowed);
      if !Lacks(t, size, free) {
        GroupsGrows(d1, t, gs, allowed);
        GrowsTrans(d, d1, GroupsDisk(d1, t, gs), allowed);
      }
    }
  }

  /** Under the run's freshness guarantee no path string is made twice. */
  lemma NoDirMadeTwice(before: set<Path>, ev: seq<Event>, allowed: set<Path>)
    requires FreshMkdirs(before, ev, allowed)
    ensures forall i, j :: 0 <= i < j < |ev| && ev[i].MadeDir? && ev[j].MadeDir? ==> ev[i].path != ev[j].path
  {
    forall i, j | 0 <= i < j < |ev| && ev[i].MadeDir? && ev[j].MadeDir?
      ensures ev[i].path != ev[j].path
    {
      CreatedByMembers(ev[..j]);
      assert ev[..j][i] == ev[i];
    }
  }

  /** Over a whole run: no path string is made twice. */
  lemma RunMakesNoDirTwice(d: Disk, ts: seq<Path>, gs: seq<SourceGroup>, size: nat, free: Path -> nat)
    ensures d.log <= RunDisk(d, ts, gs, size, free).log
    ensures var ev := RunDisk(d, ts, gs, size, free).log[|d.log|..];
      forall i, j :: 0 <= i < j < |ev| && ev[i].MadeDir? && ev[j].MadeDir? ==> ev[i].path != ev[j].path
  {
    RunGrows(d, ts, gs, size, free);
    var after := RunDisk(d, ts, gs, size, free);
    NoDirMadeTwice(d.existing, after.log[|d.log|..], PlannedSubdirs(ts, gs, size, free));
  }
}
