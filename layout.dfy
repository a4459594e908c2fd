/**
  Where a package's artifacts land on disk: the data directory, the raw
  zip path, and the extraction path of each archive entry.
*/
module Layout {
  import opened Wrappers
  import opened Config
  import opened Paths
  import Strings

  /**
    The data directory: the directory part `configDir` of the configuration
    file path, resolved against the working directory `cwd` and
    canonicalized, joined with `local_dir`. Canonicalizing the empty path
    fails, so a configuration path without a directory part gives None.
  */
  function DataDir(cwd: Path, configDir: string, localDir: string): (d: Option<Path>)
    requires cwd.absolute
    ensures d.None? <==> configDir == ""
    ensures d.Some? ==> d.value.absolute
  {
    if configDir == "" then None
    else Some(Join(Canonicalize(Join(cwd, configDir)), localDir))
  }

  /**
    Where the data directory lies: a relative `local_dir` is followed from
    the configuration file's directory, an absolute one is taken as it is.
  */
  lemma DataDirLocation(cwd: Path, configDir: string, localDir: string)
    requires cwd.absolute && configDir != ""
    ensures Join(cwd, configDir).absolute
    ensures !Parse(localDir).absolute ==>
      Location(DataDir(cwd, configDir, localDir).value) == Walk(Location(Join(cwd, configDir)), Segments(localDir))
    ensures Parse(localDir).absolute ==> DataDir(cwd, configDir, localDir).value == Parse(localDir)
  {
    var base := Canonicalize(Join(cwd, configDir));
    if !Parse(localDir).absolute {
      WalkAppend([], base.segments, Segments(localDir));
    }
  }

  /** A plain `local_dir` names a child of the configuration file's directory. */
  lemma DataDirPlain(cwd: Path, configDir: string, localDir: string)
    requires cwd.absolute && configDir != "" && PlainSegment(localDir)
    ensures Location(DataDir(cwd, configDir, localDir).value) == Location(Join(cwd, configDir)) + [localDir]
  {
    SegmentsOfPlain(localDir);
    DataDirLocation(cwd, configDir, localDir);
    WalkPlain(Location(Join(cwd, configDir)), [localDir]);
  }

  /**
    The defaults: configuration file "./cpi-sync.json", whose directory part
    is ".", and `local_dir` "." put the data directory at the working directory.
  */
  lemma DataDirDefault(cwd: Path)
    requires cwd.absolute
    ensures Location(DataDir(cwd, ".", ".").value) == Location(cwd)
  {
    DotIsHere(cwd);
    DataDirLocation(cwd, ".", ".");
  }

  /** Joining "." names the same directory. */
  lemma DotIsHere(dir: Path)
    requires dir.absolute
    ensures Segments(".") == ["."] && !Parse(".").absolute
    ensures Location(Join(dir, ".")) == Location(dir)
  {
    Strings.SplitWithoutSep(".", '/');
    assert NonEmpty(["."]) == ["."] + NonEmpty([]);
    WalkAppend([], dir.segments, ["."]);
  }

  /**
    A configuration path without a directory part, such as "cpi-sync.json",
    has the directory part "": its data directory cannot be computed.
  */
  lemma BareConfigNameFails(cwd: Path, localDir: string)
    requires cwd.absolute
    ensures DataDir(cwd, "", localDir).None?
  {
  }

  /**
    The data directory with a bare configuration file name read as the
    working directory, as "./cpi-sync.json" is: it always exists, and a
    relative `local_dir` is followed from the working directory.
  */
  function IntendedDataDir(cwd: Path, configDir: string, localDir: string): (d: Path)
    requires cwd.absolute
    ensures d.absolute
    ensures configDir != "" ==> DataDir(cwd, configDir, localDir) == Some(d)
    ensures configDir == "" && !Parse(localDir).absolute ==> Location(d) == Walk(Location(cwd), Segments(localDir))
  {
    if configDir == "" then
      DotIsHere(cwd);
      DataDirLocation(cwd, ".", localDir);
      DataDir(cwd, ".", localDir).value
    else DataDir(cwd, configDir, localDir).value
  }

  /**
    Raw mode: `data_dir/package_id/(artifact_id + ".zip")`. The ids come
    from the server unchecked: an absolute artifact id replaces the whole path.
  */
  function RawTarget(dataDir: Path, packageId: string, artifactId: string): (p: Path)
    requires dataDir.absolute
    ensures p.absolute
    ensures !Parse(packageId).absolute && !Parse(artifactId + ".zip").absolute ==>
      p.segments == dataDir.segments + Segments(packageId) + Segments(artifactId + ".zip")
    ensures Parse(artifactId + ".zip").absolute ==> p == Parse(artifactId + ".zip")
  {
    Join(Join(dataDir, packageId), artifactId + ".zip")
  }

  /** Extract mode: the directory of one artifact, under the canonicalized data directory. */
  function ArtifactDir(dataDir: Path, packageId: string, artifactId: string): (p: Path)
    requires dataDir.absolute
    ensures p.absolute
    ensures !Parse(packageId).absolute && !Parse(artifactId).absolute ==>
      p.segments == Canonicalize(dataDir).segments + Segments(packageId) + Segments(artifactId)
  {
    Join(Join(Canonicalize(dataDir), packageId), artifactId)
  }

  /** Extract mode: the target of the archive entry whose enclosed name is `name`. */
  function ExtractTarget(dataDir: Path, packageId: string, artifactId: string, name: string): (p: Path)
    requires dataDir.absolute
    ensures p.absolute
    ensures !Parse(name).absolute ==> p.segments == ArtifactDir(dataDir, packageId, artifactId).segments + Segments(name)
  {
    Join(ArtifactDir(dataDir, packageId, artifactId), name)
  }

  /** Whether following `segs` from `depth` levels below a directory never climbs above it. */
  predicate StaysBelow(segs: seq<string>, depth: nat)
    decreases |segs|
  {
    if segs == [] then true
    else if segs[0] == ".." then depth > 0 && StaysBelow(segs[1..], depth - 1)
    else if segs[0] == "." then StaysBelow(segs[1..], depth)
    else StaysBelow(segs[1..], depth + 1)
  }

  /**
    The contract assumed of the zip reader's `enclosed_name`: a name is
    returned only when it has no NUL, is relative, and no prefix of it
    climbs above the archive root.
  */
  predicate Enclosed(name: string): (ok: bool)
    ensures ok ==> '\0' !in name && !Parse(name).absolute
    ensures ok && Segments(name) != [] ==> Segments(name)[0] != ".."
  {
    '\0' !in name && !Parse(name).absolute && StaysBelow(Segments(name), 0)
  }

  /** A walk that never climbs above its start keeps the start as a prefix. */
  lemma {:induction false} WalkStaysBelow(base: seq<string>, extra: seq<string>, segs: seq<string>)
    requires StaysBelow(segs, |extra|)
    ensures IsPrefix(base, Walk(base + extra, segs))
    decreases |segs|
  {
    if segs != [] {
      if segs[0] == "." {
        WalkStaysBelow(base, extra, segs[1..]);
      } else if segs[0] == ".." {
        assert (base + extra)[..|base + extra| - 1] == base + extra[..|extra| - 1];
        WalkStaysBelow(base, extra[..|extra| - 1], segs[1..]);
      } else {
        assert base + extra + [segs[0]] == base + (extra + [segs[0]]);
        WalkStaysBelow(base, extra + [segs[0]], segs[1..]);
      }
    }
  }

  /** Every enclosed entry is written inside its artifact's directory, whatever the ids are. */
  lemma ExtractTargetContained(dataDir: Path, packageId: string, artifactId: string, name: string)
    requires dataDir.absolute && Enclosed(name)
    ensures IsPrefix(Location(ArtifactDir(dataDir, packageId, artifactId)), Location(ExtractTarget(dataDir, packageId, artifactId, name)))
  {
    var dir := ArtifactDir(dataDir, packageId, artifactId);
    WalkAppend([], dir.segments, Segments(name));
    WalkStaysBelow(Location(dir), [], Segments(name));
    assert Location(dir) + [] == Location(dir);
  }

  /** With plain ids, both modes write under `<data dir>/<package id>`, exactly as named. */
  lemma PlainIdsLayout(dataDir: Path, packageId: string, artifactId: string)
    requires dataDir.absolute && PlainSegment(packageId) && PlainSegment(artifactId)
    ensures Location(RawTarget(dataDir, packageId, artifactId)) == Location(dataDir) + [packageId, artifactId + ".zip"]
    ensures Location(ArtifactDir(dataDir, packageId, artifactId)) == Location(dataDir) + [packageId, artifactId]
  {
    var zip := artifactId + ".zip";
    assert '/' !in zip by {
      forall i | 0 <= i < |zip| ensures zip[i] != '/' {
        if i < |artifactId| { assert zip[i] == artifactId[i]; }
      }
    }
    SegmentsOfPlain(packageId);
    SegmentsOfPlain(artifactId);
    SegmentsOfPlain(zip);
    WalkAppend([], dataDir.segments, [packageId, zip]);
    WalkPlain(Location(dataDir), [packageId, zip]);
    var canon := Canonicalize(dataDir);
    WalkAppend([], canon.segments, [packageId, artifactId]);
    WalkPlain(Location(canon), [packageId, artifactId]);
    assert dataDir.segments + [packageId] + [zip] == dataDir.segments + [packageId, zip];
    assert canon.segments + [packageId] + [artifactId] == canon.segments + [packageId, artifactId];
  }

  /**
    With plain ids and a name of plain segments `segs`, the entry lands at
    `<data dir>/<package>/<artifact>/<segs>`.
  */
  lemma PlainExtractLayout(dataDir: Path, packageId: string, artifactId: string, name: string, segs: seq<string>)
    requires dataDir.absolute && PlainSegment(packageId) && PlainSegment(artifactId)
    requires !Parse(name).absolute && Segments(name) == segs
    requires forall i :: 0 <= i < |segs| ==> PlainSegment(segs[i])
    ensures Location(ExtractTarget(dataDir, packageId, artifactId, name)) ==
      Location(dataDir) + [packageId, artifactId] + segs
  {
    PlainIdsLayout(dataDir, packageId, artifactId);
    var dir := ArtifactDir(dataDir, packageId, artifactId);
    WalkAppend([], dir.segments, segs);
    WalkPlain(Location(dir), segs);
  }

  /** Raw mode stores artifact "Art1" of package "PKG1" at `<data dir>/PKG1/Art1.zip`. */
  lemma RawScenario(dataDir: Path)
    requires dataDir.absolute
    ensures Location(RawTarget(dataDir, "PKG1", "Art1")) == Location(dataDir) + ["PKG1", "Art1.zip"]
  {
    ScenarioIdsPlain();
    PlainIdsLayout(dataDir, "PKG1", "Art1");
    ZipFileName();
  }

  /*
    The scenario lemmas below keep each fact about a string literal in a
    lemma of its own: unfolding Split on several literals at once is more
    than the solver can afford in one proof.
  */

  /** The scenario ids are plain segments. */
  lemma ScenarioIdsPlain()
    ensures PlainSegment("PKG1") && PlainSegment("Art1")
  {
  }

  /** The zip file name of artifact "Art1". */
  lemma ZipFileName()
    ensures "Art1" + ".zip" == "Art1.zip"
  {
  }

  /** Entry name "a.txt" is one segment. */
  lemma FlatEntrySegments()
    ensures Segments("a.txt") == ["a.txt"]
  {
    assert PlainSegment("a.txt");
    SegmentsOfPlain("a.txt");
  }

  /** Entry name "dir/b.txt" is two segments. */
  lemma NestedEntrySegments()
    ensures Segments("dir/b.txt") == ["dir", "b.txt"]
  {
    var d, b := "dir", "b.txt";
    assert '/' !in d && '/' !in b;
    assert "dir/b.txt" == d + ['/'] + b;
    Strings.SplitAfterHead(d, b, '/');
    Strings.SplitWithoutSep(b, '/');
    assert Strings.Split("dir/b.txt", '/') == [d, b];
    assert NonEmpty([b]) == [b] + NonEmpty([]);
    assert NonEmpty([d, b]) == [d] + NonEmpty([b]);
  }

  /** Extracting entry "a.txt" of artifact "Art1" in package "PKG1" writes `<data dir>/PKG1/Art1/a.txt`. */
  lemma ExtractFlatScenario(dataDir: Path)
    requires dataDir.absolute
    ensures Location(ExtractTarget(dataDir, "PKG1", "Art1", "a.txt")) == Location(dataDir) + ["PKG1", "Art1", "a.txt"]
  {
    FlatEntrySegments();
    ScenarioIdsPlain();
    assert PlainSegment("a.txt");
    PlainExtractLayout(dataDir, "PKG1", "Art1", "a.txt", ["a.txt"]);
  }

  /** Extracting entry "dir/b.txt" of artifact "Art1" in package "PKG1" writes `<data dir>/PKG1/Art1/dir/b.txt`. */
  lemma ExtractNestedScenario(dataDir: Path)
    requires dataDir.absolute
    ensures Location(ExtractTarget(dataDir, "PKG1", "Art1", "dir/b.txt")) ==
      Location(dataDir) + ["PKG1", "Art1", "dir", "b.txt"]
  {
    NestedEntrySegments();
    NestedEntryRelative();
    ScenarioIdsPlain();
    NestedEntryPlain();
    PlainExtractLayout(dataDir, "PKG1", "Art1", "dir/b.txt", ["dir", "b.txt"]);
    NestedConcat(Location(dataDir));
  }

  /** Entry name "dir/b.txt" is relative. */
  lemma NestedEntryRelative()
    ensures !Parse("dir/b.txt").absolute
  {
    assert "dir/b.txt"[0] == 'd';
  }

  /** Both segments of "dir/b.txt" are plain. */
  lemma NestedEntryPlain()
    ensures forall i :: 0 <= i < |["dir", "b.txt"]| ==> PlainSegment(["dir", "b.txt"][i])
  {
    assert PlainSegment("dir") && PlainSegment("b.txt");
  }

  /** The nested target's segments, regrouped. */
  lemma NestedConcat(loc: seq<string>)
    ensures loc + ["PKG1", "Art1"] + ["dir", "b.txt"] == loc + ["PKG1", "Art1", "dir", "b.txt"]
  {
    var ids, segs := ["PKG1", "Art1"], ["dir", "b.txt"];
    assert ids + segs == ["PKG1", "Art1", "dir", "b.txt"];
    assert loc + ids + segs == loc + (ids + segs);
  }

  /** `target` is where the enclosed entry `name` is written, inside the artifact directory. */
  predicate WrittenEntry(dataDir: Path, packageId: string, artifactId: string, name: string, target: Path)
    requires dataDir.absolute
  {
    Enclosed(name) && target == ExtractTarget(dataDir, packageId, artifactId, name) &&
    IsPrefix(Location(ArtifactDir(dataDir, packageId, artifactId)), Location(target))
  }

  /**
    The extract-mode loop over the archive entries, in archive order. An
    entry without an enclosed name aborts it; the entries before it have
    been written by then.
  */
  method ExtractEntries(dataDir: Path, packageId: string, artifactId: string, names: seq<string>)
    returns (written: seq<Path>, failure: Option<SyncError>)
    requires dataDir.absolute
    ensures |written| <= |names|
    ensures forall i :: 0 <= i < |written| ==>
      Enclosed(names[i]) && written[i] == ExtractTarget(dataDir, packageId, artifactId, names[i]) &&
      IsPrefix(Location(ArtifactDir(dataDir, packageId, artifactId)), Location(written[i]))
    ensures failure.None? ==> |written| == |names|
    ensures failure.Some? ==>
      |written| < |names| && !Enclosed(names[|written|]) && failure.value == UnsafeEntryName(names[|written|])
  {
    written := [];
    for i := 0 to |names|
      invariant |written| == i
      invariant forall j :: 0 <= j < i ==> WrittenEntry(dataDir, packageId, artifactId, names[j], written[j])
    {
      if !Enclosed(names[i]) {
        return written, Some(UnsafeEntryName(names[i]));
      }
      var target := ExtractTarget(dataDir, packageId, artifactId, names[i]);
      ExtractTargetContained(dataDir, packageId, artifactId, names[i]);
      assert WrittenEntry(dataDir, packageId, artifactId, names[i], target);
      written := written + [target];
    }
    failure := None;
  }

  /**
    Storing one downloaded artifact: raw mode writes one zip file; extract
    mode needs a readable archive (`entries` is None when it is not one)
    and writes each entry. Returns the paths written, in order.
  */
  method StoreArtifact(mode: ZipExtraction, dataDir: Path, packageId: string, artifactId: string,
                       entries: Option<seq<string>>)
    returns (written: seq<Path>, failure: Option<SyncError>)
    requires dataDir.absolute
    ensures mode == Disabled ==> written == [RawTarget(dataDir, packageId, artifactId)] && failure == None
    ensures mode == Enabled && entries.None? ==> written == [] && failure == Some(ArchiveCorrupt)
    ensures mode == Enabled && entries.Some? ==>
      |written| <= |entries.value| &&
      (forall i :: 0 <= i < |written| ==>
        Enclosed(entries.value[i]) && written[i] == ExtractTarget(dataDir, packageId, artifactId, entries.value[i])) &&
      (failure.None? <==> forall i :: 0 <= i < |entries.value| ==> Enclosed(entries.value[i])) &&
      (failure.None? ==> |written| == |entries.value|) &&
      (failure.Some? ==>
         |written| < |entries.value| && !Enclosed(entries.value[|written|]) &&
         failure.value == UnsafeEntryName(entries.value[|written|]))
    ensures mode == Enabled ==> forall i :: 0 <= i < |written| ==>
      written[i].absolute && IsPrefix(Location(ArtifactDir(dataDir, packageId, artifactId)), Location(written[i]))
  {
    match mode {
      case Disabled =>
        written, failure := [RawTarget(dataDir, packageId, artifactId)], None;
      case Enabled =>
        match entries {
          case None =>
            written, failure := [], Some(ArchiveCorrupt);
          case Some(names) =>
            written, failure := ExtractEntries(dataDir, packageId, artifactId, names);
        }
    }
  }
}
