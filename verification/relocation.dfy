/** The second half of the program's `main`: from the digest map it picks the
    groups with more than one member, names a folder
    `<target>/duplicates/<lowercase hex of the digest>` for each, and plans a
    move of every member there under its own file name. The plan is what the
    program would attempt for each selected group if the `expect_err` on the
    folder creation did not panic. The order in which the
    `HashMap` is iterated is unspecified, so the plan is a map keyed by
    digest rather than a sequence. */
module Relocation {
  import opened Paths
  import opened Grouping
  import Hex

  /** `format!("{}/duplicates/{}", target_dir.display(), hash_hex)`. */
  function DuplicateDir(target: string, key: Digest): string
  {
    target + "/duplicates/" + Hex.Encode(key)
  }

  /** The name a member's planned move uses: its final component, or the empty
      text when the path has no final component or it is not valid UTF-8. */
  function NameText(p: Path): (name: string)
    ensures p.fileName.Some? && p.fileName.value.Utf8Name? ==> name == p.fileName.value.text
    ensures p.fileName.None? || p.fileName.value.NonUtf8Name? ==> name == ""
  {
    match p.fileName
    case None => ""
    case Some(NonUtf8Name(_)) => ""
    case Some(Utf8Name(text)) => text
  }

  /** `format!("{}/{}", duplicate_dir, name)`. */
  function Destination(dir: string, p: Path): string
  {
    dir + "/" + NameText(p)
  }

  /** One planned move: `copy` from `source` to `destination`, then
      `remove_file` on `source`. */
  datatype Move = Move(source: Path, destination: string)

  /** Everything done for one duplicate group. */
  datatype Relocation = Relocation(dir: string, moves: seq<Move>)

  function MovesInto(dir: string, members: seq<Path>): (r: seq<Move>)
    ensures |r| == |members|
    ensures forall i :: 0 <= i < |members| ==> r[i].source == members[i]
    ensures forall i :: 0 <= i < |members| ==> r[i].destination == Destination(dir, members[i])
  {
    seq(|members|, i requires 0 <= i < |members| => Move(members[i], Destination(dir, members[i])))
  }

  /** The relocations of one scan: a group gets a folder and moves if and
      only if it has more than one member; its moves take the members in
      group order into that folder. */
  function Plan(target: Path, groups: Groups): (r: map<Digest, Relocation>)
    ensures forall key :: key in r <==> key in groups && |groups[key]| > 1
    ensures forall key :: key in r ==> r[key].dir == DuplicateDir(target.display, key)
    ensures forall key :: key in r ==> |r[key].moves| == |groups[key]|
    ensures forall key, i :: key in r && 0 <= i < |r[key].moves| ==>
      r[key].moves[i] == Move(groups[key][i], Destination(r[key].dir, groups[key][i]))
  {
    map key | key in groups && |groups[key]| > 1 ::
      Relocation(DuplicateDir(target.display, key), MovesInto(DuplicateDir(target.display, key), groups[key]))
  }

  /** Each duplicate folder sits directly under `<target>/duplicates/`: its
      name is lowercase hex, twice as long as the digest, with no `/`; and
      two digests share a folder only if they are equal. */
  lemma DuplicateDirShape(target: string, key: Digest, other: Digest)
    ensures var dir := DuplicateDir(target, key);
      && |dir| == |target| + 12 + 2 * |key|
      && dir[..|target| + 12] == target + "/duplicates/"
      && forall i :: |target| + 12 <= i < |dir| ==> Hex.IsLowerHexDigit(dir[i]) && dir[i] != '/'
    ensures DuplicateDir(target, key) == DuplicateDir(target, other) <==> key == other
  {
    var dir := DuplicateDir(target, key);
    var h := Hex.Encode(key);
    assert dir == (target + "/duplicates/") + h;
    forall i | |target| + 12 <= i < |dir|
      ensures Hex.IsLowerHexDigit(dir[i]) && dir[i] != '/'
    {
      assert dir[i] == h[i - |target| - 12];
    }
    Hex.EncodeInjective(key, other);
    if DuplicateDir(target, key) == DuplicateDir(target, other) {
      var h' := Hex.Encode(other);
      assert h == dir[|target| + 12..];
      assert h' == DuplicateDir(target, other)[|target| + 12..];
    }
  }

  /** A member lands directly inside its group's folder, under its own name,
      or at `<dir>/` itself when the name falls back to empty text. */
  lemma DestinationInDir(dir: string, p: Path)
    ensures Destination(dir, p)[..|dir| + 1] == dir + "/"
    ensures Destination(dir, p)[|dir| + 1..] == NameText(p)
    ensures Destination(dir, p) == dir + "/" <==> NameText(p) == ""
  {
  }

  /** The result of one file's `copy` or `remove_file` call. */
  datatype IoOutcome = Done | Failed

  /** Where a file's content exists after its move step. */
  datatype Placement = Placement(atSource: bool, atDestination: bool)

  /** The move step as the program writes it: `copy`, then `remove_file`
      whatever the copy did. */
  function MoveAsWritten(copy: IoOutcome, remove: IoOutcome): (r: Placement)
    ensures r.atDestination <==> copy == Done
    ensures r.atSource <==> remove == Failed
  {
    Placement(remove == Failed, copy == Done)
  }

  /** When the copy fails and the removal succeeds, the file exists nowhere. */
  lemma CopyFailureLosesFile()
    ensures MoveAsWritten(Failed, Done) == Placement(false, false)
  {
  }

  /** The move step as evidently intended: the source is removed only after
      the copy succeeded. */
  function MoveIntended(copy: IoOutcome, remove: IoOutcome): Placement
  {
    match copy
    case Failed => Placement(true, false)
    case Done => Placement(remove == Failed, true)
  }

  /** With the intended move no file is ever lost, a successful copy and
      removal relocate it, and a failed copy leaves it where it was; it
      differs from the program only where the program loses the file. */
  lemma MoveIntendedKeepsFile(copy: IoOutcome, remove: IoOutcome)
    ensures MoveIntended(copy, remove).atSource || MoveIntended(copy, remove).atDestination
    ensures MoveIntended(copy, remove) == Placement(false, true) <==> copy == Done && remove == Done
    ensures copy == Failed ==> MoveIntended(copy, remove) == Placement(true, false)
    ensures MoveIntended(copy, remove) != MoveAsWritten(copy, remove) <==> copy == Failed && remove == Done
  {
  }
}
