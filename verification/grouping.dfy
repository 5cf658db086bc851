/** The grouping pass of the duplicate finder: a fold over the listed files,
    in listing order, that opens each file, hashes it and appends its path to
    the entry of the digest map keyed by the finalized digest. How a file's
    read results become a digest is a parameter `fileDigest`, so the facts
    here hold for the program's hashing step and for any other. */
module Grouping {
  import opened Paths
  import opened Hashing
  import opened Sequences

  /** What opening a file produced: an error, or the results of the `read`
      calls made on it. */
  datatype FileIo = OpenFailed | Opened(results: seq<ReadResult>)

  /** One listed file together with what happened when it was opened and read. */
  datatype ScannedFile = ScannedFile(path: Path, io: FileIo)

  type Digest = seq<byte>

  /** The program's `HashMap<Vec<u8>, Vec<PathBuf>>`. */
  type Groups = map<Digest, seq<Path>>

  /** `entry(key).and_modify(|v| v.push(path)).or_insert(vec![path])`. */
  function Insert(groups: Groups, key: Digest, path: Path): (r: Groups)
    ensures r.Keys == groups.Keys + {key}
    ensures r[key] == (if key in groups then groups[key] else []) + [path]
    ensures forall k :: k in groups && k != key ==> r[k] == groups[k]
  {
    if key in groups then groups[key := groups[key] + [path]] else groups[key := [path]]
  }

  /** The body of the `for_each`: a file that fails to open is reported and
      skipped; an opened one is hashed and inserted. */
  function Step(groups: Groups, file: ScannedFile, fileDigest: seq<ReadResult> -> Digest): Groups
  {
    match file.io
    case OpenFailed => groups
    case Opened(results) => Insert(groups, fileDigest(results), file.path)
  }

  /** The digest map after the `for_each` has visited `files` in order,
      starting from the empty map: a left fold of `Step`. */
  function Group(files: seq<ScannedFile>, fileDigest: seq<ReadResult> -> Digest): Groups
    decreases |files|
  {
    if files == [] then map[]
    else Step(Group(files[..|files| - 1], fileDigest), files[|files| - 1], fileDigest)
  }

  /** The file was opened and its finalized digest is `key`. */
  predicate Lands(file: ScannedFile, key: Digest, fileDigest: seq<ReadResult> -> Digest)
  {
    file.io.Opened? && fileDigest(file.io.results) == key
  }

  /** Reference definition of a group: the paths of the files that land on
      `key`, in listing order. */
  function Members(files: seq<ScannedFile>, key: Digest, fileDigest: seq<ReadResult> -> Digest): seq<Path>
    decreases |files|
  {
    if files == [] then []
    else (if Lands(files[0], key, fileDigest) then [files[0].path] else []) + Members(files[1..], key, fileDigest)
  }

  function PathsOf(files: seq<ScannedFile>): seq<Path>
  {
    MapSeq(files, (f: ScannedFile) => f.path)
  }

  /** The number of files that were opened. */
  function OpenedCount(files: seq<ScannedFile>): (n: nat)
    ensures n <= |files|
  {
    if files == [] then 0 else (if files[0].io.Opened? then 1 else 0) + OpenedCount(files[1..])
  }

  lemma {:induction false} MembersAppend(files: seq<ScannedFile>, file: ScannedFile, key: Digest, fileDigest: seq<ReadResult> -> Digest)
    ensures Members(files + [file], key, fileDigest)
         == Members(files, key, fileDigest) + (if Lands(file, key, fileDigest) then [file.path] else [])
    decreases |files|
  {
    var tail := if Lands(file, key, fileDigest) then [file.path] else [];
    if files == [] {
      assert files + [file] == [file];
      assert [file][1..] == [];
      assert Members([file], key, fileDigest) == tail + [];
    } else {
      var xs := files + [file];
      var head := if Lands(files[0], key, fileDigest) then [files[0].path] else [];
      assert xs[0] == files[0];
      assert xs[1..] == files[1..] + [file];
      MembersAppend(files[1..], file, key, fileDigest);
      assert Members(xs, key, fileDigest) == head + (Members(files[1..], key, fileDigest) + tail);
      assert Members(files, key, fileDigest) == head + Members(files[1..], key, fileDigest);
    }
  }

  /** The fold builds exactly the reference groups: a digest is a key of the
      map if and only if some opened file hashes to it, and its entry lists
      the paths of those files in listing order. */
  lemma {:induction false} GroupIsMembers(files: seq<ScannedFile>, fileDigest: seq<ReadResult> -> Digest)
    ensures forall key :: key in Group(files, fileDigest) <==> Members(files, key, fileDigest) != []
    ensures forall key :: key in Group(files, fileDigest) ==> Group(files, fileDigest)[key] == Members(files, key, fileDigest)
    decreases |files|
  {
    if files != [] {
      var init := files[..|files| - 1];
      var last := files[|files| - 1];
      assert files == init + [last];
      GroupIsMembers(init, fileDigest);
      forall key
        ensures Members(files, key, fileDigest)
             == Members(init, key, fileDigest) + (if Lands(last, key, fileDigest) then [last.path] else [])
      {
        MembersAppend(init, last, key, fileDigest);
      }
    }
  }

  lemma {:induction false} MembersSubsequence(files: seq<ScannedFile>, key: Digest, fileDigest: seq<ReadResult> -> Digest)
    ensures IsSubsequence(Members(files, key, fileDigest), PathsOf(files))
    decreases |files|
  {
    if files != [] {
      MembersSubsequence(files[1..], key, fileDigest);
      var rest := Members(files[1..], key, fileDigest);
      assert PathsOf(files) == [files[0].path] + PathsOf(files[1..]);
      assert ([files[0].path] + rest)[1..] == rest;
      assert ([files[0].path] + PathsOf(files[1..]))[1..] == PathsOf(files[1..]);
      if !Lands(files[0], key, fileDigest) {
        assert Members(files, key, fileDigest) == rest;
      }
    }
  }

  /** Some listed file with path `p` was opened and hashes to `key`. */
  predicate LandsWithPath(files: seq<ScannedFile>, key: Digest, fileDigest: seq<ReadResult> -> Digest, p: Path)
  {
    exists i :: 0 <= i < |files| && Lands(files[i], key, fileDigest) && files[i].path == p
  }

  lemma {:induction false} MembersContain(files: seq<ScannedFile>, key: Digest, fileDigest: seq<ReadResult> -> Digest, p: Path)
    ensures p in Members(files, key, fileDigest) <==> LandsWithPath(files, key, fileDigest, p)
    decreases |files|
  {
    if files != [] {
      MembersContain(files[1..], key, fileDigest, p);
      var rest := Members(files[1..], key, fileDigest);
      if p in rest {
        var j :| 0 <= j < |files[1..]| && Lands(files[1..][j], key, fileDigest) && files[1..][j].path == p;
        assert files[j + 1] == files[1..][j];
      }
      if LandsWithPath(files, key, fileDigest, p) {
        var i :| 0 <= i < |files| && Lands(files[i], key, fileDigest) && files[i].path == p;
        if i > 0 {
          assert files[1..][i - 1] == files[i];
        }
      }
    }
  }

  /** One key of `GroupIsMembers`, without the quantifiers. */
  lemma GroupKey(files: seq<ScannedFile>, fileDigest: seq<ReadResult> -> Digest, key: Digest)
    ensures key in Group(files, fileDigest) <==> Members(files, key, fileDigest) != []
    ensures key in Group(files, fileDigest) ==> Group(files, fileDigest)[key] == Members(files, key, fileDigest)
  {
    GroupIsMembers(files, fileDigest);
  }

  /** Each group lists the paths of the opened files with its digest, in the
      order the files were listed: it is a subsequence of the listing. */
  lemma GroupOrder(files: seq<ScannedFile>, fileDigest: seq<ReadResult> -> Digest, key: Digest)
    requires key in Group(files, fileDigest)
    ensures IsSubsequence(Group(files, fileDigest)[key], PathsOf(files))
    ensures forall p :: p in Group(files, fileDigest)[key] <==> LandsWithPath(files, key, fileDigest, p)
  {
    GroupKey(files, fileDigest, key);
    MembersSubsequence(files, key, fileDigest);
    forall p
      ensures p in Group(files, fileDigest)[key] <==> LandsWithPath(files, key, fileDigest, p)
    {
      MembersContain(files, key, fileDigest, p);
    }
  }

  /** Partition: when the listing names each path once, an opened file's path
      is in the group of its own digest and in no other group; a file that
      failed to open is in no group. */
  lemma ExactlyOneGroup(files: seq<ScannedFile>, fileDigest: seq<ReadResult> -> Digest, i: nat)
    requires i < |files|
    requires forall a, b :: 0 <= a < b < |files| ==> files[a].path != files[b].path
    ensures files[i].io.Opened? ==> fileDigest(files[i].io.results) in Group(files, fileDigest)
    ensures forall key :: key in Group(files, fileDigest) ==>
      (files[i].path in Group(files, fileDigest)[key] <==> Lands(files[i], key, fileDigest))
  {
    var groups := Group(files, fileDigest);
    if files[i].io.Opened? {
      var own := fileDigest(files[i].io.results);
      GroupKey(files, fileDigest, own);
      MembersContain(files, own, fileDigest, files[i].path);
    }
    forall key | key in groups
      ensures files[i].path in groups[key] <==> Lands(files[i], key, fileDigest)
    {
      GroupKey(files, fileDigest, key);
      MembersContain(files, key, fileDigest, files[i].path);
      if files[i].path in groups[key] {
        var j :| 0 <= j < |files| && Lands(files[j], key, fileDigest) && files[j].path == files[i].path;
        assert j == i;
      }
    }
  }

  /** Files that fail to open change nothing: grouping only the opened files
      gives the same map. */
  function OpenedOnly(files: seq<ScannedFile>): (r: seq<ScannedFile>)
    ensures forall f :: f in r <==> f in files && f.io.Opened?
    ensures |r| == OpenedCount(files)
  {
    if files == [] then []
    else (if files[0].io.Opened? then [files[0]] else []) + OpenedOnly(files[1..])
  }

  lemma {:induction false} MembersOfOpenedOnly(files: seq<ScannedFile>, key: Digest, fileDigest: seq<ReadResult> -> Digest)
    ensures Members(OpenedOnly(files), key, fileDigest) == Members(files, key, fileDigest)
    decreases |files|
  {
    if files != [] {
      MembersOfOpenedOnly(files[1..], key, fileDigest);
      if files[0].io.Opened? {
        assert ([files[0]] + OpenedOnly(files[1..]))[1..] == OpenedOnly(files[1..]);
      } else {
        assert OpenedOnly(files) == OpenedOnly(files[1..]);
        assert !Lands(files[0], key, fileDigest);
        assert Members(files, key, fileDigest) == Members(files[1..], key, fileDigest);
      }
    }
  }

  lemma FailedOpensIgnored(files: seq<ScannedFile>, fileDigest: seq<ReadResult> -> Digest)
    ensures Group(OpenedOnly(files), fileDigest) == Group(files, fileDigest)
  {
    var g1 := Group(OpenedOnly(files), fileDigest);
    var g2 := Group(files, fileDigest);
    forall key | key in g1 || key in g2
      ensures key in g1 && key in g2 && g1[key] == g2[key]
    {
      GroupKey(files, fileDigest, key);
      GroupKey(OpenedOnly(files), fileDigest, key);
      MembersOfOpenedOnly(files, key, fileDigest);
    }
    assert g1.Keys == g2.Keys;
  }

  /** The number of paths held by all groups together. */
  ghost function TotalSize(groups: Groups): nat
    decreases |groups|
  {
    if groups == map[] then 0
    else
      var k :| k in groups;
      |groups[k]| + TotalSize(groups - {k})
  }

  lemma {:induction false} TotalSizeAnyKey(groups: Groups, key: Digest)
    requires key in groups
    ensures TotalSize(groups) == |groups[key]| + TotalSize(groups - {key})
    decreases |groups|
  {
    var k :| k in groups && TotalSize(groups) == |groups[k]| + TotalSize(groups - {k});
    if k != key {
      var both := groups - {k} - {key};
      assert groups - {k} - {key} == groups - {key} - {k};
      TotalSizeAnyKey(groups - {k}, key);
      TotalSizeAnyKey(groups - {key}, k);
    }
  }

  lemma InsertAddsOne(groups: Groups, key: Digest, path: Path)
    ensures TotalSize(Insert(groups, key, path)) == TotalSize(groups) + 1
  {
    var r := Insert(groups, key, path);
    TotalSizeAnyKey(r, key);
    if key in groups {
      TotalSizeAnyKey(groups, key);
      assert r - {key} == groups - {key};
    } else {
      assert r - {key} == groups;
    }
  }

  lemma {:induction false} OpenedCountAppend(files: seq<ScannedFile>, file: ScannedFile)
    ensures OpenedCount(files + [file]) == OpenedCount(files) + (if file.io.Opened? then 1 else 0)
    decreases |files|
  {
    if files == [] {
      assert [file][1..] == [];
    } else {
      assert (files + [file])[1..] == files[1..] + [file];
      OpenedCountAppend(files[1..], file);
    }
  }

  /** Every opened file adds exactly one path to exactly one group, so the
      groups together hold as many paths as files were opened, which is at
      most the number of files listed. */
  lemma {:induction false} GroupTotal(files: seq<ScannedFile>, fileDigest: seq<ReadResult> -> Digest)
    ensures TotalSize(Group(files, fileDigest)) == OpenedCount(files)
    ensures TotalSize(Group(files, fileDigest)) <= |files|
    decreases |files|
  {
    if files != [] {
      var init := files[..|files| - 1];
      var last := files[|files| - 1];
      assert files == init + [last];
      GroupTotal(init, fileDigest);
      OpenedCountAppend(init, last);
      if last.io.Opened? {
        InsertAddsOne(Group(init, fileDigest), fileDigest(last.io.results), last.path);
      }
    }
  }
}
