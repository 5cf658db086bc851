# find_duplicates_rs — a Dafny model of the hash-grouping pass

This project models the core of `find_duplicates_rs`, a small program that
lists the regular files of one directory and hashes each with Blake2b. It
groups the files by digest. For every group with more than one member it
plans a move of the members into `<target>/duplicates/<lowercase hex digest>/`.
The model describes these planned moves: what the program would attempt for
each selected group if the folder creation at src/main.rs:58 did not panic.
As written, that line's panic ends the run at the first group whose folder
is created or already exists; which groups come before it depends on the
unspecified `HashMap` order, and no planned copy can succeed (see "## Left out" and "## Findings"). The helpers of
`src/file_utilities.rs` are modelled on their own, because `main.rs` does
not declare that module.

Modules:

- `Hashing` (`hashing.dfy`) models the read loop of one opened file. It has a
  32768-byte buffer and reads until a zero-byte read or an error. After every
  non-empty read, the whole buffer is fed to the hasher, stale bytes included.
  Blake2b is not modelled: a digest is `digest(bytes fed)` for a function
  `digest` that is passed in.
- `Grouping` (`grouping.dfy`) is the `for_each` over the listed files. It is
  a left fold that builds the `HashMap<Vec<u8>, Vec<PathBuf>>`. It is
  checked against a reference definition that filters the listing per digest.
- `Hex` (`hex.dfy`) is `hex::encode`: lowercase base16 (section 8 of RFC 4648).
  It comes with a decoder for the round trip.
- `Relocation` (`relocation.dfy`) picks the groups with more than one member.
  It builds their folder names and the destination of each member, and it
  models the copy-then-remove move step.
- `Scan` (`scan.dfy`) composes hashing, grouping and relocation the way
  `main` does.
- `FileUtilities` (`file_utilities.dfy`) covers both `cfg` variants of
  `long_path`, the filter of `get_files_in_dir`, and the rename arguments of
  `move_file`.
- `Paths` (`paths.dfy`), `Sequences` (`sequences.dfy`) and `Wrappers`
  (`wrappers.dfy`) hold shared definitions. A path is
  modelled by its display text and its final component; a final component
  that is not valid UTF-8 keeps its raw units, so two entries of one
  directory are different paths even when they display alike.

Three behaviours of the code differ from what a reader of the program's purpose
might expect. In each case the model follows the code:

- A read error does not discard the digest. The loop `break`s, and the digest
  of the blocks fed so far is finalized and inserted
  (`Hashing.ReadErrorActsAsEndOfFile`).
- Folder names are lowercase hex of the digest, not a URL-safe base64 variant.
- Blake2b's output is 64 bytes, not 32. The model leaves the digest width
  open.

The interactive refresh/quit review loop and the restore-on-abort workflow
are not implemented by the program's source, so they are not modelled.

## Model

| member | source | states |
|---|---|---|
| Hashing.BlocksFed | src/main.rs:32-43 | the loop hashes one block for each read before the first zero-byte or failed read; every block it hashes comes from a non-empty read, and the read that ends the loop comes right after them |
| Hashing.HashedInputLength | src/main.rs:30-36 | the hasher receives exactly 32768 bytes per non-empty read; its input is empty (an empty file hashes as `digest([])`) exactly when no non-empty read happened |
| Hashing.BlockStartsWithReadBytes | src/main.rs:33-36 | the i-th 32768-byte block fed to the hasher starts with the bytes the i-th read stored |
| Hashing.StaleBytesFromPreviousRead | src/main.rs:30-36 | in every later block, the bytes past the i-th read's own bytes repeat the previous block at the same offsets: what the earlier reads left in the buffer is hashed again |
| Hashing.FirstBlockPadding | src/main.rs:30-36 | past the bytes of the first read, the first block is the zeros the buffer was allocated with: the block is not cut at `n` |
| Hashing.ReadErrorActsAsEndOfFile | src/main.rs:38-44 | a failed read ends the loop just as end of file does: later reads are never made, and the digest of the blocks fed so far is still finalized |
| Hashing.TrailingZerosCollide | src/main.rs:30-36 | the file holding byte 1 and the file holding bytes 1, 0 differ in content, yet the hasher receives the same input for both |
| Hashing.FullReadsCollide | src/main.rs:30-36 | for any full first read `x` with `x[1] == 5`, the files `x + [7]` and `x + [7, 5]`, read as `x` then the rest, fill the buffer on every read but the last, differ in content, yet the hasher receives the same input for both: stale bytes collide even for regular-file reads |
| Hashing.EarlierReadBytesCollide | src/main.rs:30-36 | the files [1, 2, 3] (read as [1, 2], [3]) and [1, 2, 3, 2] (read as [1, 2], [3, 2]) differ in content, yet the hasher receives the same input for both |
| Hashing.SameContentSameDigest | src/main.rs:30-44 | two files with the same content, each read so that every read but the last fills the buffer, hand the hasher the same input and so get the same digest |
| Hashing.SplitReadsDiffer | src/main.rs:30-36 | the content [1, 2] read in one call and read as [1] then [2] hands the hasher one block and two blocks: the digest depends on how the reads split the content |
| Hashing.IntendedInputIsContent | src/main.rs:30-36 | with the fix `hasher.update(&buffer[..n])`, the hasher receives exactly the file content; two files get equal input if and only if their contents are equal |
| Grouping.Insert | src/main.rs:45-47 | `entry().and_modify().or_insert()` adds the digest as a key and appends the path at the end of that key's list; every other entry is unchanged |
| Grouping.GroupIsMembers | src/main.rs:27-51 | a digest is a key of the map if and only if some opened file hashes to it; its list is the paths of those files in listing order |
| Grouping.GroupOrder | src/main.rs:27-47 | each group is a subsequence of the listing (scan order is kept); a path is in the group exactly when an opened file with that path has that digest |
| Grouping.ExactlyOneGroup | src/main.rs:28-49 | groups partition the opened files: an opened file is in the group of its own digest and in no other group; a file that failed to open is in no group |
| Grouping.FailedOpensIgnored | src/main.rs:49 | grouping only the files that opened gives the same map, so a failed open leaves the map unchanged |
| Grouping.GroupTotal | src/main.rs:26-51 | the groups together hold as many paths as files were opened, which is at most the number of files listed |
| Hex.Encode | src/main.rs:56 | the folder name has twice as many characters as the digest has bytes, all of them in `0-9a-f` |
| Hex.DecodeEncode | src/main.rs:56 | decoding the folder name gives back the digest |
| Hex.EncodeInjective | src/main.rs:56 | two digests have the same folder name if and only if they are equal |
| Relocation.NameText | src/main.rs:59-66 | a member's name is its UTF-8 final component; the name is empty text when there is no final component or it is not valid UTF-8 |
| Relocation.Plan | src/main.rs:54-66 | a group gets a folder and moves if and only if it has more than one member; the folder is `target/duplicates/hex(digest)`; the moves take the members in group order, each to the folder under its own name |
| Relocation.DuplicateDirShape | src/main.rs:56-57 | a duplicate folder is `target + "/duplicates/"` followed by 2·\|digest\| lowercase hex characters and no `/`; distinct digests get distinct folders |
| Relocation.DestinationInDir | src/main.rs:70 | a destination is the folder, then `/`, then the member's name; it is the folder path plus `/` exactly when the name is empty text |
| Relocation.MoveAsWritten | src/main.rs:70-75 | the copy decides whether the content reaches the destination; the removal decides whether it stays at the source, whatever the copy did |
| Relocation.CopyFailureLosesFile | src/main.rs:70-75 | when the copy fails and the removal succeeds, the file exists nowhere |
| Relocation.MoveIntendedKeepsFile | src/main.rs:70-75 | if the source is removed only after a successful copy, the file always exists somewhere; it is relocated exactly when both calls succeed; this differs from the program only where the program loses the file |
| Scan.FileFate | src/main.rs:27-70 | when each listed path is distinct, a file is the source of a planned move if and only if it opened and another opened file has the same digest; that move targets its own digest's folder under its own name |
| Scan.TwoOfThreeGroups | src/main.rs:27-51 | two files with the same reads and a third whose digest differs give one group holding the first two in listing order and one group holding the third |
| Scan.TwoOfThreeDuplicates | src/main.rs:27-66 | for three distinct files, A and B with the same reads and C that hashes differently, exactly one folder is planned, with planned moves of A then B into it; no move is planned for C |
| FileUtilities.LongPath | src/file_utilities.rs:4-14 | on Windows, the result is the 4-character prefix `\\?\` followed by the display text; elsewhere, it is the display text unchanged |
| FileUtilities.LongPathInjective | src/file_utilities.rs:4-14 | on either platform, two paths give the same `long_path` text if and only if their display texts are equal |
| FileUtilities.RenameArguments | src/file_utilities.rs:23-25 | `move_file` renames `long_path(source)` to `long_path(destination)`: the display texts behind `\\?\` on Windows, the plain display texts elsewhere |
| FileUtilities.RenameArgumentsRoundTrip | src/file_utilities.rs:23-25 | stripping the 4-character prefix from both Windows rename arguments gives back the source and destination display texts |
| FileUtilities.FilesInDir | src/file_utilities.rs:16-21 | the result is a subsequence of the directory entries (iteration order is kept); a path is in it if and only if its metadata was read and reports a regular file; each regular-file entry is kept at the position given by the number of regular files before it, so the result is fixed entry by entry even when paths repeat |
| FileUtilities.FilesInDirCount | src/file_utilities.rs:18-20 | the number of paths kept equals the number of entries whose metadata reports a regular file |

## Left out

- Blake2b is not modelled. It comes from a foreign crate, so the digest is a function parameter, and its 64-byte output width is not assumed.
- No filesystem call is modelled (`read_dir`, `metadata`, `File::open`, `read`, `create_dir_all`, `copy`, `remove_file`, `rename`). The model takes each call's outcome as input data: `FileIo`, `ReadResult`, `Metadata`, `IoOutcome`.
- The listing at src/main.rs:19-24 is the same filter as `get_files_in_dir`, which `FileUtilities.FilesInDir` models. `Scan` takes the listed files as its input.
- The end of a sequence of read results is treated as end of file. A real file always ends with a zero-byte read.
- `Hashing.Chunk` bounds one read to the buffer size. That is the guarantee of Rust's `Read::read`, not an extra demand.
- Hashing.Overwrite: assumes a read that returns `n` writes the first `n` bytes of the buffer and leaves the rest untouched. `File::read` does so, since it passes the buffer to `read(2)` or `ReadFile`, but the `Read` trait does not promise it. `Hashing.StaleBytesFromPreviousRead`, `Hashing.EarlierReadBytesCollide`, `Hashing.FullReadsCollide` and the second Findings row rest on it.
- `create_dir_all(..).expect_err(..)` (src/main.rs:58) panics when the folder is created or already exists. Moves happen only when creation failed. This panic is not modelled.
- The `unwrap`/`expect` panics are not modelled (src/main.rs:19, 22; src/file_utilities.rs:17-18, 24).
- Command-line parsing (structopt) and all `println!` status output are left out.
- The iteration order of the `HashMap` over groups is unspecified, so the plan is a map keyed by digest. Nothing is stated about the order of groups.
- The non-Windows `long_path` returns `path.display()`, which is a `Display` value, not a `String`. As written it does not type-check. It is modelled as the display text.
- Hashing.SameContentSameDigest: assumes every read but the last fills the 32768-byte buffer, as reads of a regular file normally do; `Read::read` does not promise it, and `Hashing.SplitReadsDiffer` shows that without it equal content can get different digests.
- Grouping.ExactlyOneGroup: assumes the listing names each path once. `read_dir` of one directory yields entries with different final components, and a model path keeps the raw units of a non-UTF-8 name, so such a listing meets the condition even when two names display alike. A path listed twice with different read outcomes could land in two groups.
- Scan.FileFate: assumes the same distinct-paths condition as `Grouping.ExactlyOneGroup`.
- Scan.FileFate: speaks of planned moves only. In the program as written no planned copy can succeed: `expect_err` at src/main.rs:58 panics whenever the folder exists, so line 70 is reached only when the folder could not be created, and every copy into it fails.
- Scan.TwoOfThreeDuplicates: the moves of A and B are planned, not performed, for the same reason as in `Scan.FileFate`.
- Relocation.Plan: holds the moves the program would attempt for every selected group if src/main.rs:58 did not panic. As written, the `expect_err` panic ends the `for_each` over the map at the first group whose folder is created or already exists, so moves are attempted only for groups reached before it whose folder creation failed; which groups those are depends on the unspecified map order.
- The interactive refresh/quit review loop and the restoration of files are not present in the program's source, so they are not modelled.

## Findings

| source | as written | input that shows it | evidently intended | confidence | as-written member | corrected member |
|---|---|---|---|---|---|---|
| src/main.rs:36 | `hasher.update(buffer)` hashes the whole 32768-byte buffer after every read, including bytes past `n` left over from the allocation or from earlier reads | a file holding the single byte 1 and a file holding the bytes 1, 0, each read in one call: both hash the same block, so they are grouped as duplicates and planned for relocation | `hasher.update(&buffer[..n])`, so the digest depends on the content only | high; not executed | Hashing.TrailingZerosCollide | Hashing.IntendedInputIsContent |
| src/main.rs:33-36 | the stale bytes hashed after a later read are those the previous read left in the buffer | a 32768-byte first read `x` with `x[1] == 5`, followed by the read [7] in one file and [7, 5] in the other: every read but the last fills the buffer, the contents differ, and both hash the same two blocks (with short reads, [1, 2] then [3] against [1, 2] then [3, 2] collide the same way) | `hasher.update(&buffer[..n])`, so the digest depends on the content only | high; not executed | Hashing.FullReadsCollide | Hashing.IntendedInputIsContent |
| src/main.rs:70-75 | `remove_file` runs even when the `copy` before it failed | a copy that fails while the removal succeeds. Examples: a member whose name falls back to empty text (destination `<dir>/`), or a folder that could not be created (the only case that gets past line 58). The file is deleted without a copy | remove the source only after a successful copy | high; not executed | Relocation.CopyFailureLosesFile | Relocation.MoveIntendedKeepsFile |

`Grouping` is generic over how a file's read results become a digest, so all of its lemmas also hold for the intended hashing of `Hashing.IntendedHashedInput`. `Scan` composes the program as written.
