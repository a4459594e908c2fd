/**
  Filesystem paths as segment sequences: `PathBuf::join`, and where the
  operating system ends up when it follows a path with '.' and '..'.
*/
module Paths {
  import Strings

  /** A path: whether it starts at the root, and its non-empty segments. */
  datatype Path = Path(absolute: bool, segments: seq<string>)

  /** The non-empty parts, in order. */
  function NonEmpty(parts: seq<string>): (r: seq<string>)
    ensures forall i :: 0 <= i < |r| ==> r[i] != "" && exists j :: 0 <= j < |parts| && parts[j] == r[i]
    decreases |parts|
  {
    if parts == [] then []
    else if parts[0] == "" then NonEmpty(parts[1..])
    else [parts[0]] + NonEmpty(parts[1..])
  }

  /** The segments of a path string: repeated '/' separators collapse. */
  function Segments(s: string): (segs: seq<string>)
    ensures forall i :: 0 <= i < |segs| ==> segs[i] != "" && '/' !in segs[i]
  {
    NonEmpty(Strings.Split(s, '/'))
  }

  /** The path a string denotes. */
  function Parse(s: string): Path
  {
    Path(|s| > 0 && s[0] == '/', Segments(s))
  }

  /** `PathBuf::join`: an absolute argument replaces the path, a relative one extends it. */
  function Join(base: Path, s: string): (p: Path)
    ensures !Parse(s).absolute ==> p == Path(base.absolute, base.segments + Segments(s))
    ensures Parse(s).absolute ==> p == Parse(s)
  {
    var q := Parse(s);
    if q.absolute then q else Path(base.absolute, base.segments + q.segments)
  }

  /**
    Following `segs` from the directory `dir` (given by its segments from
    the root): '.' stays, '..' goes up, and '..' at the root stays there.
  */
  function Walk(dir: seq<string>, segs: seq<string>): (loc: seq<string>)
    ensures |loc| <= |dir| + |segs|
    decreases |segs|
  {
    if segs == [] then dir
    else if segs[0] == "." then Walk(dir, segs[1..])
    else if segs[0] == ".." then Walk(if dir == [] then [] else dir[..|dir| - 1], segs[1..])
    else Walk(dir + [segs[0]], segs[1..])
  }

  /** The directory entry an absolute path names, from the root: its names, never '.' or '..'. */
  function Location(p: Path): (loc: seq<string>)
    requires p.absolute
    ensures |loc| <= |p.segments|
    ensures forall i :: 0 <= i < |loc| ==> loc[i] != "." && loc[i] != ".."
  {
    WalkNames([], p.segments);
    Walk([], p.segments)
  }

  /** `canonicalize`, symbolic links aside: the absolute path of the location itself. */
  function Canonicalize(p: Path): (c: Path)
    requires p.absolute
    ensures c.absolute && Location(c) == Location(p)
    ensures c.segments == Location(p)
    ensures forall i :: 0 <= i < |c.segments| ==> c.segments[i] != "." && c.segments[i] != ".."
  {
    WalkPlain([], Location(p));
    Path(true, Location(p))
  }

  /** A segment that names a child entry: not empty, no '/', not '.' or '..'. */
  predicate PlainSegment(s: string)
  {
    s != "" && '/' !in s && s != "." && s != ".."
  }

  /** Whether `prefix` is a leading part of `s`. */
  predicate IsPrefix(prefix: seq<string>, s: seq<string>)
  {
    |prefix| <= |s| && s[..|prefix|] == prefix
  }

  /** Following plain segments only descends. */
  lemma {:induction false} WalkPlain(dir: seq<string>, segs: seq<string>)
    requires forall i :: 0 <= i < |segs| ==> segs[i] != "." && segs[i] != ".."
    ensures Walk(dir, segs) == dir + segs
    decreases |segs|
  {
    if segs != [] {
      WalkPlain(dir + [segs[0]], segs[1..]);
      assert dir + [segs[0]] + segs[1..] == dir + segs;
    }
  }

  /** A location never holds a '.' or '..' segment. */
  lemma {:induction false} WalkNames(dir: seq<string>, segs: seq<string>)
    requires forall i :: 0 <= i < |dir| ==> dir[i] != "." && dir[i] != ".."
    ensures forall i :: 0 <= i < |Walk(dir, segs)| ==> Walk(dir, segs)[i] != "." && Walk(dir, segs)[i] != ".."
    decreases |segs|
  {
    if segs != [] {
      if segs[0] == "." {
        WalkNames(dir, segs[1..]);
      } else if segs[0] == ".." {
        WalkNames(if dir == [] then [] else dir[..|dir| - 1], segs[1..]);
      } else {
        WalkNames(dir + [segs[0]], segs[1..]);
      }
    }
  }

  /** Following two segment lists in turn is following their concatenation. */
  lemma {:induction false} WalkAppend(dir: seq<string>, first: seq<string>, second: seq<string>)
    ensures Walk(dir, first + second) == Walk(Walk(dir, first), second)
    decreases |first|
  {
    if first == [] {
      assert first + second == second;
    } else {
      assert (first + second)[0] == first[0];
      assert (first + second)[1..] == first[1..] + second;
      var next := if first[0] == "." then dir
                  else if first[0] == ".." then (if dir == [] then [] else dir[..|dir| - 1])
                  else dir + [first[0]];
      WalkAppend(next, first[1..], second);
    }
  }

  /** A plain segment string is that one segment. */
  lemma SegmentsOfPlain(s: string)
    requires PlainSegment(s)
    ensures Segments(s) == [s]
  {
    Strings.SplitWithoutSep(s, '/');
    assert NonEmpty([s]) == [s] + NonEmpty([]);
  }
}
