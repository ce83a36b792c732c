/** Paths and the filesystem the handlers look at.  A path is the sequence of
    its components, already resolved (no `.`, `..` or symlinks left), and the
    filesystem is a snapshot mapping each existing path to its node. */
module Paths {
  import opened Strings

  type Path = seq<string>

  /** One existing path.  A directory lists its children's names in the order
      `iterdir` yields them.  Size and modification time are the strings the
      listing shows, already formatted. */
  datatype Node =
    | File(size: string, modified: string)
    | Dir(entries: seq<string>, size: string, modified: string)

  type FileSystem = map<Path, Node>

  /** Every name a directory lists exists as its child. */
  predicate WellFormed(fs: FileSystem)
  {
    forall p, k :: p in fs && fs[p].Dir? && 0 <= k < |fs[p].entries| ==> p + [fs[p].entries[k]] in fs
  }

  predicate IsDir(fs: FileSystem, p: Path)
  {
    p in fs && fs[p].Dir?
  }

  /** `PurePath.is_relative_to`: `base` is a component-wise prefix of `p`. */
  predicate IsRelativeTo(p: Path, base: Path)
    ensures IsRelativeTo(p, base) <==> exists r :: base + r == p
  {
    if |base| <= |p| && p[..|base|] == base then
      assert base + p[|base|..] == p;
      true
    else
      false
  }

  /** `PurePath.relative_to`, for a path that is relative to `base`. */
  function RelativeTo(p: Path, base: Path): (r: Path)
    requires IsRelativeTo(p, base)
    ensures base + r == p
    ensures |r| == |p| - |base|
  {
    p[|base|..]
  }

  /** `str()` of a relative path: components joined by `/`, and `.` for
      the empty path.  Splitting the text on `/` gives the components back. */
  function PathString(p: Path): (s: string)
    ensures p == [] ==> s == "."
    ensures p != [] && NoSeparator(p, '/') ==> Split(s, '/') == p
  {
    if p == [] then "."
    else
      assert NoSeparator(p, '/') ==> Split(Join(p, '/'), '/') == p by {
        if NoSeparator(p, '/') {
          SplitJoin(p, '/');
        }
      }
      Join(p, '/')
  }

  /** Containment is an order on paths: reflexive and transitive. */
  lemma RelativeToIsOrder(a: Path, b: Path, c: Path)
    ensures IsRelativeTo(a, a)
    ensures IsRelativeTo(a, b) && IsRelativeTo(b, c) ==> IsRelativeTo(a, c)
  {

  }

  /** Containment compares whole components: `srv/data2/x` is not inside
      `srv/data`, although one text is a prefix of the other. */
  lemma ContainmentIsNotTextPrefix()
    ensures !IsRelativeTo(["srv", "data2", "x"], ["srv", "data"])
    ensures PathString(["srv", "data"]) == PathString(["srv", "data2", "x"])[..8]
  {
    assert ["srv", "data2", "x"][..2][1] == "data2" && |"data2"| != |"data"|;
  }
}
