/** The helpers of `file_utilities.rs`: platform path escaping, listing the
    regular files of a directory, and moving a file. The module is not
    declared by `main.rs`, so nothing else here depends on it. */
module FileUtilities {
  import opened Paths
  import opened Sequences

  /** The two `cfg(target_os)` variants of `long_path`. */
  datatype Platform = Windows | OtherOs

  /** The Windows extended-length prefix `\\?\`, four characters. */
  const ExtendedPrefix: string := "\\\\?\\"

  /** `long_path`: on Windows the display text behind `\\?\`, which lifts the
      260-character path limit; elsewhere the display text itself. */
  function LongPath(platform: Platform, p: Path): (s: string)
    ensures platform == Windows ==> |s| == |p.display| + 4 && s[..4] == ['\\', '\\', '?', '\\'] && s[4..] == p.display
    ensures platform == OtherOs ==> s == p.display
  {
    match platform
    case Windows => ExtendedPrefix + p.display
    case OtherOs => p.display
  }

  /** `long_path` loses nothing: two paths get the same text exactly when
      their display texts are equal, on either platform. */
  lemma LongPathInjective(platform: Platform, a: Path, b: Path)
    ensures LongPath(platform, a) == LongPath(platform, b) <==> a.display == b.display
  {
  }

  /** The arguments `move_file` passes to `fs::rename`: source and
      destination, both through `long_path`. */
  function RenameArguments(platform: Platform, source: Path, destination: Path): (r: (string, string))
    ensures platform == OtherOs ==> r == (source.display, destination.display)
    ensures platform == Windows ==> r == (ExtendedPrefix + source.display, ExtendedPrefix + destination.display)
  {
    (LongPath(platform, source), LongPath(platform, destination))
  }

  /** Stripping the four-character prefix from both rename arguments on
      Windows gives back the display texts of source and destination. */
  lemma RenameArgumentsRoundTrip(source: Path, destination: Path)
    ensures RenameArguments(Windows, source, destination).0[4..] == source.display
    ensures RenameArguments(Windows, source, destination).1[4..] == destination.display
  {
  }

  /** What `fs::metadata` returned for a directory entry. */
  datatype Metadata = MetadataErr | Metadata(isFile: bool)

  datatype DirEntry = DirEntry(path: Path, metadata: Metadata)

  /** `fs::metadata(path).map_or(false, |v| v.is_file())`. */
  predicate IsRegularFile(e: DirEntry)
  {
    e.metadata.Metadata? && e.metadata.isFile
  }

  function EntryPaths(entries: seq<DirEntry>): seq<Path>
  {
    MapSeq(entries, (e: DirEntry) => e.path)
  }

  /** `get_files_in_dir` over the entries `read_dir` yields: the regular
      files, in iteration order; entries whose metadata cannot be read are
      dropped. The i-th entry, when it is a regular file, is kept at the
      position given by the number of regular files before it. */
  function FilesInDir(entries: seq<DirEntry>): (r: seq<Path>)
    ensures IsSubsequence(r, EntryPaths(entries))
    ensures forall p :: p in r <==> exists i :: 0 <= i < |entries| && IsRegularFile(entries[i]) && entries[i].path == p
    ensures forall i :: 0 <= i < |entries| && IsRegularFile(entries[i]) ==>
      RegularCount(entries[..i]) < |r| && r[RegularCount(entries[..i])] == entries[i].path
    decreases |entries|
  {
    if entries == [] then []
    else
      var rest := FilesInDir(entries[1..]);
      assert EntryPaths(entries)[1..] == EntryPaths(entries[1..]);
      assert forall i :: 1 <= i < |entries| ==> entries[1..][i - 1] == entries[i];
      assert forall i :: 1 <= i <= |entries| ==>
        RegularCount(entries[..i]) == (if IsRegularFile(entries[0]) then 1 else 0) + RegularCount(entries[1..][..i - 1]) by {
        forall i | 1 <= i <= |entries|
          ensures RegularCount(entries[..i]) == (if IsRegularFile(entries[0]) then 1 else 0) + RegularCount(entries[1..][..i - 1])
        {
          assert entries[..i][1..] == entries[1..][..i - 1];
        }
      }
      if IsRegularFile(entries[0]) then
        assert ([entries[0].path] + rest)[1..] == rest;
        [entries[0].path] + rest
      else rest
  }

  /** The number of entries kept is the number that are regular files. */
  function RegularCount(entries: seq<DirEntry>): (n: nat)
    ensures n <= |entries|
  {
    if entries == [] then 0 else (if IsRegularFile(entries[0]) then 1 else 0) + RegularCount(entries[1..])
  }

  lemma {:induction false} FilesInDirCount(entries: seq<DirEntry>)
    ensures |FilesInDir(entries)| == RegularCount(entries)
    decreases |entries|
  {
    if entries != [] {
      FilesInDirCount(entries[1..]);
    }
  }
}
