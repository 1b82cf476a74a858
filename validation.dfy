/** `BackupPaths.__validate_path_list` as a function of the problem record it
    starts from, and the properties of its three ordered checks. */
module Validation {
  import opened Paths
  import opened Config

  /** The elements of a list that are not strings, in list order. */
  function NonStrings(items: seq<Elem>): seq<Elem>
    decreases |items|
  {
    if items == [] then []
    else
      var e := items[|items| - 1];
      NonStrings(items[..|items| - 1]) + (if e.Str? then [] else [e])
  }

  /** The paths that are not absolute, in list order. */
  function NonAbsolute(paths: seq<Path>, isAbs: Path -> bool): seq<Path>
    decreases |paths|
  {
    if paths == [] then []
    else
      var q := paths[|paths| - 1];
      NonAbsolute(paths[..|paths| - 1], isAbs) + (if isAbs(q) then [] else [q])
  }

  /** The paths that do not exist, in list order. */
  function Missing(paths: seq<Path>, existing: set<Path>): seq<Path>
    decreases |paths|
  {
    if paths == [] then []
    else
      var q := paths[|paths| - 1];
      Missing(paths[..|paths| - 1], existing) + (if q in existing then [] else [q])
  }

  /** The type check records exactly the non-string elements. */
  lemma {:induction false} NonStringsMembers(items: seq<Elem>)
    ensures forall e :: e in NonStrings(items) <==> e in items && !e.Str?
    ensures NonStrings(items) == [] <==> AllStrings(items)
    decreases |items|
  {
    if items != [] {
      NonStringsMembers(items[..|items| - 1]);
      assert items == items[..|items| - 1] + [items[|items| - 1]];
    }
  }

  /** A type check that records nothing has seen only strings. */
  lemma NoNonStrings(items: seq<Elem>)
    requires NonStrings(items) == []
    ensures AllStrings(items)
  {
    NonStringsMembers(items);
  }

  /** The absoluteness check records exactly the paths that are not absolute. */
  lemma {:induction false} NonAbsoluteMembers(paths: seq<Path>, isAbs: Path -> bool)
    ensures forall q :: q in NonAbsolute(paths, isAbs) <==> q in paths && !isAbs(q)
    decreases |paths|
  {
    if paths != [] {
      NonAbsoluteMembers(paths[..|paths| - 1], isAbs);
      assert paths == paths[..|paths| - 1] + [paths[|paths| - 1]];
    }
  }

  /** The existence check records exactly the paths that do not exist. */
  lemma {:induction false} MissingMembers(paths: seq<Path>, existing: set<Path>)
    ensures forall q :: q in Missing(paths, existing) <==> q in paths && q !in existing
    decreases |paths|
  {
    if paths != [] {
      MissingMembers(paths[..|paths| - 1], existing);
      assert paths == paths[..|paths| - 1] + [paths[|paths| - 1]];
    }
  }

  /** `__validate_path_list(path_list)` run on the problem record `p`: the new
      record and whether it returned or what it raised. */
  function Validate(p: Problems, v: Value, isAbs: Path -> bool, existing: set<Path>): (Problems, Outcome) {
    if !Truthy(v) then
      (p.(other := p.other + [NO_DIRS]), Raised(Exception))
    else if !v.List? then
      (p.(other := p.other + [DIRS_NOT_LIST]), Raised(Exception))
    else
      var p1 := p.(nonStr := p.nonStr + NonStrings(v.items));
      if p1.nonStr != [] then
        (p1, Raised(TypeError))
      else
        NoNonStrings(v.items);
        var paths := Texts(v.items);
        var p2 := p1.(nonAbs := p1.nonAbs + NonAbsolute(paths, isAbs),
                      nonExistent := p1.nonExistent + Missing(paths, existing));
        if p2.nonAbs != [] then (p2, Raised(ValueError))
        else if p2.nonExistent != [] then (p2, Raised(FileNotFoundError))
        else (p2, Ok)
  }

  /** A falsy value fails with 'no dirs' and a truthy value that is not a list
      with 'dirs is not list', before any element is looked at; nothing else
      in the record changes. */
  lemma EmptyOrNotListRejected(p: Problems, v: Value, isAbs: Path -> bool, existing: set<Path>)
    requires !Truthy(v) || !v.List?
    ensures Validate(p, v, isAbs, existing) ==
      (p.(other := p.other + [if Truthy(v) then DIRS_NOT_LIST else NO_DIRS]), Raised(Exception))
  {
  }

  /** The type check scans the whole list and appends every non-string element
      in list order; it fails with a type error exactly when the accumulated
      list is not empty, and then neither absoluteness nor existence is
      examined. */
  lemma TypeCheck(p: Problems, v: Value, isAbs: Path -> bool, existing: set<Path>)
    requires v.List? && v.items != []
    ensures Validate(p, v, isAbs, existing).0.nonStr == p.nonStr + NonStrings(v.items)
    ensures forall e :: e in Validate(p, v, isAbs, existing).0.nonStr[|p.nonStr|..] <==> e in v.items && !e.Str?
    ensures Validate(p, v, isAbs, existing).1 == Raised(TypeError) <==> p.nonStr != [] || !AllStrings(v.items)
    ensures Validate(p, v, isAbs, existing).1 == Raised(TypeError) ==>
      Validate(p, v, isAbs, existing).0 == p.(nonStr := p.nonStr + NonStrings(v.items))
  {
    NonStringsMembers(v.items);
    var q := Validate(p, v, isAbs, existing).0;
    assert q.nonStr[|p.nonStr|..] == NonStrings(v.items);
  }

  /** Once the type check passes, one pass records every non-absolute path and
      every missing path, and nothing else; a non-absolute path, even an
      earlier one, wins over a missing one. */
  lemma PathChecks(p: Problems, v: Value, isAbs: Path -> bool, existing: set<Path>)
    requires v.List? && v.items != [] && p.nonStr == [] && AllStrings(v.items)
    ensures var r := Validate(p, v, isAbs, existing);
      && r.0 == p.(nonAbs := p.nonAbs + NonAbsolute(Texts(v.items), isAbs),
                   nonExistent := p.nonExistent + Missing(Texts(v.items), existing))
      && (forall q :: q in r.0.nonAbs[|p.nonAbs|..] <==> q in Texts(v.items) && !isAbs(q))
      && (forall q :: q in r.0.nonExistent[|p.nonExistent|..] <==> q in Texts(v.items) && q !in existing)
      && (r.1 == Raised(ValueError) <==> r.0.nonAbs != [])
      && (r.1 == Raised(FileNotFoundError) <==> r.0.nonAbs == [] && r.0.nonExistent != [])
      && (r.1 == Ok <==> r.0.nonAbs == [] && r.0.nonExistent == [])
  {
    NonStringsMembers(v.items);
    NonAbsoluteMembers(Texts(v.items), isAbs);
    MissingMembers(Texts(v.items), existing);
    var r := Validate(p, v, isAbs, existing);
    assert r.0.nonAbs[|p.nonAbs|..] == NonAbsolute(Texts(v.items), isAbs);
    assert r.0.nonExistent[|p.nonExistent|..] == Missing(Texts(v.items), existing);
  }

  /** No offender of the three checks has been recorded. */
  predicate Clean(p: Problems) {
    p.nonStr == [] && p.nonAbs == [] && p.nonExistent == []
  }

  /** A non-empty list of absolute string paths that all exist. */
  predicate Acceptable(v: Value, isAbs: Path -> bool, existing: set<Path>) {
    v.List? && v.items != [] && forall e <- v.items :: e.Str? && isAbs(e.path) && e.path in existing
  }

  /** The paths of an acceptable list are absolute and exist. */
  lemma AcceptedPaths(v: Value, isAbs: Path -> bool, existing: set<Path>)
    requires Acceptable(v, isAbs, existing)
    ensures AllStrings(v.items)
    ensures Texts(v.items) != [] && forall q <- Texts(v.items) :: isAbs(q) && q in existing
  {
    assert AllStrings(v.items);
    var paths := Texts(v.items);
    forall q <- paths ensures isAbs(q) && q in existing {
      var k :| 0 <= k < |paths| && paths[k] == q;
      assert v.items[k] in v.items;
    }
  }

  /** Validation passes exactly when no offender has been recorded before and
      the value is a non-empty list of absolute, existing string paths; a
      pass leaves the record as it was. */
  lemma OkIff(p: Problems, v: Value, isAbs: Path -> bool, existing: set<Path>)
    ensures Validate(p, v, isAbs, existing).1 == Ok <==> Clean(p) && Acceptable(v, isAbs, existing)
    ensures Validate(p, v, isAbs, existing).1 == Ok ==> Validate(p, v, isAbs, existing).0 == p
  {
    if v.List? && v.items != [] {
      NonStringsMembers(v.items);
      if AllStrings(v.items) {
        var paths := Texts(v.items);
        NonAbsoluteMembers(paths, isAbs);
        MissingMembers(paths, existing);
        if NonAbsolute(paths, isAbs) != [] {
          assert NonAbsolute(paths, isAbs)[0] in NonAbsolute(paths, isAbs);
        }
        if Missing(paths, existing) != [] {
          assert Missing(paths, existing)[0] in Missing(paths, existing);
        }
        assert forall e <- v.items :: e.path in paths by {
          forall e <- v.items ensures e.path in paths {
            var k :| 0 <= k < |v.items| && v.items[k] == e;
            assert paths[k] == e.path;
          }
        }
        assert forall q <- paths :: Str(q) in v.items by {
          forall q <- paths ensures Str(q) in v.items {
            var k :| 0 <= k < |paths| && paths[k] == q;
            assert v.items[k] == Str(q);
          }
        }
      }
    }
  }

  /** Offenders recorded by an earlier call make every later call fail,
      whatever it is given. */
  lemma StaleOffendersFail(p: Problems, v: Value, isAbs: Path -> bool, existing: set<Path>)
    requires p.nonStr != [] || p.nonAbs != [] || p.nonExistent != []
    ensures Validate(p, v, isAbs, existing).1.Raised?
  {
    OkIff(p, v, isAbs, existing);
  }

  /** A call that fails on an offending path (rather than on an empty or
      non-list value) poisons the record: every later call fails too. */
  lemma {:induction false} FailureIsSticky(p: Problems, v: Value, w: Value, isAbs: Path -> bool, existing: set<Path>)
    requires Validate(p, v, isAbs, existing).1.Raised?
    requires Validate(p, v, isAbs, existing).1.kind != Exception
    ensures Validate(Validate(p, v, isAbs, existing).0, w, isAbs, existing).1.Raised?
  {
    var q := Validate(p, v, isAbs, existing).0;
    assert q.nonStr != [] || q.nonAbs != [] || q.nonExistent != [];
    StaleOffendersFail(q, w, isAbs, existing);
  }

  /** Validation only appends to the problem lists. */
  lemma OnlyAppends(p: Problems, v: Value, isAbs: Path -> bool, existing: set<Path>)
    ensures Extends(p, Validate(p, v, isAbs, existing).0)
  {
  }

  /** The `paths` setter's loop: every group is validated in order and the
      first failure ends it. */
  function ValidateAll(p: Problems, vs: seq<Value>, isAbs: Path -> bool, existing: set<Path>): (Problems, Outcome)
    decreases |vs|
  {
    if vs == [] then (p, Ok)
    else
      var r := ValidateAll(p, vs[..|vs| - 1], isAbs, existing);
      if r.1.Raised? then r else Validate(r.0, vs[|vs| - 1], isAbs, existing)
  }

  /** The `paths` setter's loop only appends to the problem lists too. */
  lemma {:induction false} ValidateAllExtends(p: Problems, vs: seq<Value>, isAbs: Path -> bool, existing: set<Path>)
    ensures Extends(p, ValidateAll(p, vs, isAbs, existing).0)
    decreases |vs|
  {
    if vs != [] {
      ValidateAllExtends(p, vs[..|vs| - 1], isAbs, existing);
      var r := ValidateAll(p, vs[..|vs| - 1], isAbs, existing);
      OnlyAppends(r.0, vs[|vs| - 1], isAbs, existing);
    }
  }

  /** All groups pass exactly when each passes against the starting record,
      and then the record is unchanged. */
  lemma {:induction false} ValidateAllOkIff(p: Problems, vs: seq<Value>, isAbs: Path -> bool, existing: set<Path>)
    ensures ValidateAll(p, vs, isAbs, existing).1 == Ok <==>
      vs == [] || (Clean(p) && forall v <- vs :: Acceptable(v, isAbs, existing))
    ensures ValidateAll(p, vs, isAbs, existing).1 == Ok ==> ValidateAll(p, vs, isAbs, existing).0 == p
    decreases |vs|
  {
    if vs != [] {
      var init, last := vs[..|vs| - 1], vs[|vs| - 1];
      var r := ValidateAll(p, init, isAbs, existing);
      ValidateAllOkIff(p, init, isAbs, existing);
      assert forall v <- init :: v in vs;
      if r.1.Raised? {
        assert ValidateAll(p, vs, isAbs, existing) == r;
        assert init != [];
      } else {
        assert ValidateAll(p, vs, isAbs, existing) == Validate(p, last, isAbs, existing);
        OkIff(p, last, isAbs, existing);
        assert forall v <- vs :: v in init || v == last by {
          forall v <- vs ensures v in init || v == last {
            var k :| 0 <= k < |vs| && vs[k] == v;
            if k < |vs| - 1 {
              assert init[k] == v;
            }
          }
        }
      }
    }
  }

  /** After the first failure the remaining groups are not examined. */
  lemma {:induction false} ValidateAllStops(p: Problems, vs: seq<Value>, ws: seq<Value>, isAbs: Path -> bool, existing: set<Path>)
    requires ValidateAll(p, vs, isAbs, existing).1.Raised?
    ensures ValidateAll(p, vs + ws, isAbs, existing) == ValidateAll(p, vs, isAbs, existing)
    decreases |ws|
  {
    if ws == [] {
      assert vs + ws == vs;
    } else {
      var init := ws[..|ws| - 1];
      ValidateAllStops(p, vs, init, isAbs, existing);
      assert (vs + ws)[..|vs + ws| - 1] == vs + init;
    }
  }

  /** When every group passes, every group is a non-empty list of absolute
      paths that exist. */
  lemma AllOkShape(p: Problems, config: seq<Entry>, isAbs: Path -> bool, existing: set<Path>)
    requires ValidateAll(p, Values(config), isAbs, existing).1 == Ok
    ensures PathLists(config)
    ensures forall g <- ToGroups(config) :: g.paths != [] && forall q <- g.paths :: isAbs(q) && q in existing
  {
    ValidateAllOkIff(p, Values(config), isAbs, existing);
    forall i | 0 <= i < |config|
      ensures config[i].value.List? && AllStrings(config[i].value.items)
    {
      assert Values(config)[i] in Values(config);
    }
    var gs := ToGroups(config);
    forall g <- gs ensures g.paths != [] && forall q <- g.paths :: isAbs(q) && q in existing {
      var i :| 0 <= i < |gs| && gs[i] == g;
      assert Values(config)[i] in Values(config);
      AcceptedPaths(config[i].value, isAbs, existing);
    }
  }
}
