/** The pure parts of path handling that the backup script relies on:
    `os.path.join` and `os.path.basename` (both as posixpath defines them for
    two components) and the two-character prefix by which the script looks up
    the free space of a destination's volume. */
module Paths {

  type Path = string

  const SEP: char := '/'

  /** A path that begins at the root; join discards everything before it. */
  predicate Rooted(p: Path) {
    |p| > 0 && p[0] == SEP
  }

  /** os.path.join(a, b). */
  function Join(a: Path, b: Path): Path {
    if Rooted(b) then b
    else if a == [] || a[|a| - 1] == SEP then a + b
    else a + [SEP] + b
  }

  /** A rooted `b` replaces `a`; otherwise the result starts with `a`, ends
      with `b`, and holds at most one separator between them, only where `a`
      does not already end with one. */
  lemma JoinShape(a: Path, b: Path)
    ensures Rooted(b) ==> Join(a, b) == b
    ensures !Rooted(b) ==>
      && |a| + |b| <= |Join(a, b)| <= |a| + 1 + |b|
      && a <= Join(a, b)
      && Join(a, b)[|Join(a, b)| - |b|..] == b
      && (|Join(a, b)| == |a| + 1 + |b| <==> a != [] && a[|a| - 1] != SEP)
      && (|Join(a, b)| == |a| + 1 + |b| ==> Join(a, b)[|a|] == SEP)
  {
  }

  /** Under one root, distinct relative names give distinct joined paths:
      every group of a backup gets its own subdirectory of a target. */
  lemma JoinInjective(a: Path, b1: Path, b2: Path)
    requires !Rooted(b1) && !Rooted(b2)
    requires Join(a, b1) == Join(a, b2)
    ensures b1 == b2
  {
    JoinShape(a, b1);
    JoinShape(a, b2);
    var r := Join(a, b1);
    var k := if a == [] || a[|a| - 1] == SEP then |a| else |a| + 1;
    assert b1 == r[k..];
    assert b2 == r[k..];
  }

  /** os.path.basename(p): what follows the last separator of `p`. */
  function BaseName(p: Path): Path {
    if p == [] || p[|p| - 1] == SEP then []
    else BaseName(p[..|p| - 1]) + [p[|p| - 1]]
  }

  /** The base name is the longest suffix of the path without a separator. */
  lemma {:induction false} BaseNameSuffix(p: Path)
    ensures |BaseName(p)| <= |p| && BaseName(p) == p[|p| - |BaseName(p)|..]
    ensures SEP !in BaseName(p)
    ensures |BaseName(p)| < |p| ==> p[|p| - |BaseName(p)| - 1] == SEP
  {
    if p != [] && p[|p| - 1] != SEP {
      var init := p[..|p| - 1];
      BaseNameSuffix(init);
      assert p[|p| - |BaseName(p)|..] == init[|init| - |BaseName(init)|..] + [p[|p| - 1]];
    }
  }

  /** directory[:2]: the first two characters of a path, or the whole path
      when it is shorter (Python slicing stops at the end). The script takes
      this prefix for the volume, as a drive letter such as "C:" would be. */
  function VolumeOf(dir: Path): Path {
    if |dir| < 2 then dir else dir[..2]
  }

  /** Two destinations that agree on their first two characters are looked up
      as the same volume, whatever follows. */
  lemma SameVolume(a: Path, b: Path)
    requires |a| >= 2 && |b| >= 2 && a[0] == b[0] && a[1] == b[1]
    ensures VolumeOf(a) == VolumeOf(b)
  {
    assert VolumeOf(a) == [a[0], a[1]];
    assert VolumeOf(b) == [b[0], b[1]];
  }
}
