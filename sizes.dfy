/** The size accounting of `BackupPaths.__calc_backup_size`: the `st_size` of
    every listed path, summed over every group. A directory contributes its
    own `st_size`, not that of its contents. */
module Sizes {
  import opened Paths
  import opened Config

  /** sum([os.stat(path).st_size for path in path_list]) */
  function SumSizes(paths: seq<Path>, size: Path -> nat): nat {
    if paths == [] then 0 else size(paths[0]) + SumSizes(paths[1..], size)
  }

  /** The sizes of every group, each summed over its own list. */
  function TotalSize(groups: seq<SourceGroup>, size: Path -> nat): nat {
    if groups == [] then 0 else SumSizes(groups[0].paths, size) + TotalSize(groups[1..], size)
  }

  /** Every listed path of every group, group after group. */
  function AllPaths(groups: seq<SourceGroup>): seq<Path> {
    if groups == [] then [] else groups[0].paths + AllPaths(groups[1..])
  }

  lemma {:induction false} SumSizesAppend(a: seq<Path>, b: seq<Path>, size: Path -> nat)
    ensures SumSizes(a + b, size) == SumSizes(a, size) + SumSizes(b, size)
  {
    if a == [] {
      assert a + b == b;
    } else {
      assert (a + b)[1..] == a[1..] + b;
      SumSizesAppend(a[1..], b, size);
    }
  }

  lemma {:induction false} TotalSizeAppend(gs: seq<SourceGroup>, hs: seq<SourceGroup>, size: Path -> nat)
    ensures TotalSize(gs + hs, size) == TotalSize(gs, size) + TotalSize(hs, size)
  {
    if gs == [] {
      assert gs + hs == hs;
    } else {
      assert (gs + hs)[1..] == gs[1..] + hs;
      TotalSizeAppend(gs[1..], hs, size);
    }
  }

  /** The backup size is the sum of `st_size` over every path of every group. */
  lemma {:induction false} TotalSizeOfAllPaths(gs: seq<SourceGroup>, size: Path -> nat)
    ensures TotalSize(gs, size) == SumSizes(AllPaths(gs), size)
  {
    if gs != [] {
      TotalSizeOfAllPaths(gs[1..], size);
      SumSizesAppend(gs[0].paths, AllPaths(gs[1..]), size);
    }
  }

  /** A path is counted exactly when some group lists it. */
  lemma {:induction false} AllPathsMembers(gs: seq<SourceGroup>)
    ensures forall q :: q in AllPaths(gs) <==> exists g :: g in gs && q in g.paths
  {
    if gs != [] {
      AllPathsMembers(gs[1..]);
      assert gs == [gs[0]] + gs[1..];
    }
  }

  /** Taking one group out of the list takes out exactly its own size. */
  lemma TotalSizeWithout(hs: seq<SourceGroup>, k: nat, size: Path -> nat)
    requires k < |hs|
    ensures TotalSize(hs, size) == SumSizes(hs[k].paths, size) + TotalSize(hs[..k] + hs[k + 1..], size)
  {
    assert hs == hs[..k] + ([hs[k]] + hs[k + 1..]);
    TotalSizeAppend(hs[..k], [hs[k]] + hs[k + 1..], size);
    assert ([hs[k]] + hs[k + 1..])[1..] == hs[k + 1..];
    TotalSizeAppend(hs[..k], hs[k + 1..], size);
  }

  /** Where the first element of `xs` sits in a rearrangement `ys`, and what
      is left of both once it is taken out. */
  lemma FindFirst<T>(xs: seq<T>, ys: seq<T>) returns (k: nat)
    requires xs != [] && multiset(xs) == multiset(ys)
    ensures k < |ys| && ys[k] == xs[0]
    ensures multiset(xs[1..]) == multiset(ys[..k] + ys[k + 1..])
  {
    assert xs[0] in multiset(ys);
    k :| 0 <= k < |ys| && ys[k] == xs[0];
    assert xs == [xs[0]] + xs[1..];
    assert multiset(xs[1..]) == multiset(xs) - multiset{xs[0]};
    assert ys == ys[..k] + [ys[k]] + ys[k + 1..];
    assert multiset(ys) == multiset(ys[..k]) + multiset{ys[k]} + multiset(ys[k + 1..]);
  }

  /** The order of the groups does not matter: any rearrangement of them
      gives the same size. */
  lemma {:induction false} TotalSizePermutation(gs: seq<SourceGroup>, hs: seq<SourceGroup>, size: Path -> nat)
    requires multiset(gs) == multiset(hs)
    ensures TotalSize(gs, size) == TotalSize(hs, size)
    decreases |gs|
  {
    if gs == [] {
      assert multiset(hs) == multiset{};
    } else {
      var k := FindFirst(gs, hs);
      TotalSizePermutation(gs[1..], hs[..k] + hs[k + 1..], size);
      TotalSizeWithout(hs, k, size);
    }
  }
}
