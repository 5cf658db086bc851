/** The whole pass of `main` after listing: hash every listed file with the
    program's read loop, group by digest, and plan the relocation of every
    group with more than one member. */
module Scan {
  import opened Paths
  import opened Hashing
  import opened Grouping
  import opened Relocation

  /** The program's per-file digest: `digest` over the whole-buffer feed. */
  function ProgramDigest(digest: seq<byte> -> seq<byte>): seq<ReadResult> -> Digest
  {
    results => FileDigest(digest, results)
  }

  function DuplicatePlan(target: Path, files: seq<ScannedFile>, digest: seq<byte> -> seq<byte>): map<Digest, Relocation>
  {
    Plan(target, Group(files, ProgramDigest(digest)))
  }

  /** The path is the source of some planned move. */
  predicate IsMoved(plan: map<Digest, Relocation>, p: Path)
  {
    exists key, j :: key in plan && 0 <= j < |plan[key].moves| && plan[key].moves[j].source == p
  }

  /** The fate of one listed file, when the listing names each path once: a
      move of it is planned if and only if it was opened and at least one
      other opened file has the same digest; that planned move targets the
      folder of its own digest, under its own name. */
  lemma FileFate(target: Path, files: seq<ScannedFile>, digest: seq<byte> -> seq<byte>, i: nat)
    requires i < |files|
    requires forall a, b :: 0 <= a < b < |files| ==> files[a].path != files[b].path
    ensures IsMoved(DuplicatePlan(target, files, digest), files[i].path)
        <==> files[i].io.Opened?
             && |Members(files, FileDigest(digest, files[i].io.results), ProgramDigest(digest))| > 1
    ensures files[i].io.Opened? && IsMoved(DuplicatePlan(target, files, digest), files[i].path) ==>
      var key := FileDigest(digest, files[i].io.results);
      && key in DuplicatePlan(target, files, digest)
      && (exists j :: 0 <= j < |DuplicatePlan(target, files, digest)[key].moves|
           && DuplicatePlan(target, files, digest)[key].moves[j]
              == Move(files[i].path, Destination(DuplicateDir(target.display, key), files[i].path)))
  {
    var fd := ProgramDigest(digest);
    var groups := Group(files, fd);
    var plan := DuplicatePlan(target, files, digest);
    ExactlyOneGroup(files, fd, i);
    if IsMoved(plan, files[i].path) {
      var key, j :| key in plan && 0 <= j < |plan[key].moves| && plan[key].moves[j].source == files[i].path;
      GroupKey(files, fd, key);
      assert files[i].path in groups[key];
      assert Lands(files[i], key, fd);
    }
    if files[i].io.Opened? {
      var key := fd(files[i].io.results);
      assert key == FileDigest(digest, files[i].io.results);
      GroupKey(files, fd, key);
      if |Members(files, key, fd)| > 1 {
        assert key in plan;
        var j :| 0 <= j < |groups[key]| && groups[key][j] == files[i].path;
        assert plan[key].moves[j].source == files[i].path;
      }
    }
  }

  /** Grouping three files where A and B deliver the same reads and C
      hashes differently gives one two-member group and one singleton. */
  lemma TwoOfThreeGroups(a: Path, b: Path, c: Path, same: seq<ReadResult>, other: seq<ReadResult>, digest: seq<byte> -> seq<byte>)
    requires FileDigest(digest, other) != FileDigest(digest, same)
    ensures Group([ScannedFile(a, Opened(same)), ScannedFile(b, Opened(same)), ScannedFile(c, Opened(other))], ProgramDigest(digest))
      == map[FileDigest(digest, same) := [a, b], FileDigest(digest, other) := [c]]
  {
    var fd := ProgramDigest(digest);
    var key := FileDigest(digest, same);
    var files := [ScannedFile(a, Opened(same)), ScannedFile(b, Opened(same)), ScannedFile(c, Opened(other))];
    assert fd(same) == key && fd(other) != key;
    var first := files[..1];
    var firstTwo := files[..2];
    assert first[..0] == [] && first[0] == files[0];
    assert firstTwo[..1] == first && firstTwo[1] == files[1];
    assert files[..|files| - 1] == firstTwo && files[|files| - 1] == files[2];
    assert Group(first, fd) == Insert(map[], key, a);
    assert Group(firstTwo, fd) == Insert(map[key := [a]], key, b);
    assert [a] + [b] == [a, b];
    assert map[key := [a]][key := [a] + [b]] == map[key := [a, b]];
    assert Group(firstTwo, fd) == map[key := [a, b]];
    assert Group(files, fd) == Insert(map[key := [a, b]], fd(other), c);
  }

  /** Three distinct files A, B, C where A and B deliver the same reads and C
      hashes differently: exactly one folder is planned, with planned moves of
      A then B into it, and no move of C is planned. */
  lemma TwoOfThreeDuplicates(target: Path, a: Path, b: Path, c: Path,
                             same: seq<ReadResult>, other: seq<ReadResult>, digest: seq<byte> -> seq<byte>)
    requires c != a && c != b
    requires FileDigest(digest, other) != FileDigest(digest, same)
    ensures var key := FileDigest(digest, same);
      var plan := DuplicatePlan(target, [ScannedFile(a, Opened(same)), ScannedFile(b, Opened(same)), ScannedFile(c, Opened(other))], digest);
      && plan.Keys == {key}
      && plan[key].dir == DuplicateDir(target.display, key)
      && plan[key].moves == [Move(a, Destination(plan[key].dir, a)), Move(b, Destination(plan[key].dir, b))]
      && !IsMoved(plan, c)
  {
    var key := FileDigest(digest, same);
    var files := [ScannedFile(a, Opened(same)), ScannedFile(b, Opened(same)), ScannedFile(c, Opened(other))];
    TwoOfThreeGroups(a, b, c, same, other, digest);
    var groups := Group(files, ProgramDigest(digest));
    assert groups[key] == [a, b] && |groups[FileDigest(digest, other)]| == 1;
    var plan := DuplicatePlan(target, files, digest);
    assert plan.Keys == {key};
    assert |plan[key].moves| == 2;
  }
}
