/** The per-file hashing step of the duplicate finder: an opened file is read
    into one fixed 32 KiB buffer until a read reports zero bytes or fails, and
    after every non-empty read the WHOLE buffer is handed to the incremental
    hasher. The hasher itself (Blake2b) is not modelled: an incremental hasher
    that is updated with blocks b1, ..., bn and then finalized yields
    `digest(b1 + ... + bn)`, so the model computes the concatenated input
    and leaves `digest` a parameter. */
module Hashing {

  newtype byte = x: int | 0 <= x < 256

  /** Size of the read buffer, `[0u8; 32768]`. */
  const BufferSize: nat := 32768

  /** What one `read` call may deliver: never more bytes than the buffer holds. */
  type Chunk = s: seq<byte> | |s| <= BufferSize witness []

  /** The outcome of one `read` call: `Ok(n)` with the `n` bytes it stored at
      the front of the buffer, or an error. */
  datatype ReadResult = Bytes(data: Chunk) | ReadErr

  /** The buffer as it is allocated, before the first read. */
  function ZeroBuffer(): (z: seq<byte>)
    ensures |z| == BufferSize
    ensures forall i :: 0 <= i < |z| ==> z[i] == 0
  {
    seq(BufferSize, i => 0)
  }

  /** The buffer after a read stored `data` at its front: the bytes past
      `|data|` are whatever the earlier reads left there. */
  function Overwrite(buffer: seq<byte>, data: Chunk): (r: seq<byte>)
    requires |buffer| == BufferSize
    ensures |r| == BufferSize
    ensures r[..|data|] == data
    ensures r[|data|..] == buffer[|data|..]
  {
    data + buffer[|data|..]
  }

  /** True when a read result ends the read loop: a zero-byte read or an error. */
  predicate Stops(r: ReadResult)
  {
    r.ReadErr? || |r.data| == 0
  }

  /** The number of reads whose buffer reaches the hasher: the reads before
      the first one that stops the loop. The end of the sequence of read
      results counts as end of file. */
  function BlocksFed(results: seq<ReadResult>): (n: nat)
    ensures n <= |results|
    ensures forall i :: 0 <= i < n ==> !Stops(results[i])
    ensures n < |results| ==> Stops(results[n])
  {
    if results == [] || Stops(results[0]) then 0 else 1 + BlocksFed(results[1..])
  }

  /** The bytes handed to the hasher by the read loop, starting from the
      buffer contents `buffer`. */
  function Feed(results: seq<ReadResult>, buffer: seq<byte>): seq<byte>
    requires |buffer| == BufferSize
    decreases |results|
  {
    if results == [] || Stops(results[0]) then []
    else
      var next := Overwrite(buffer, results[0].data);
      next + Feed(results[1..], next)
  }

  /** Everything the hasher of one opened file is updated with. */
  function HashedInput(results: seq<ReadResult>): seq<byte>
  {
    Feed(results, ZeroBuffer())
  }

  /** The finalized digest of one opened file. */
  function FileDigest(digest: seq<byte> -> seq<byte>, results: seq<ReadResult>): seq<byte>
  {
    digest(HashedInput(results))
  }

  /** The bytes the reads deliver before the loop stops: the file content as
      far as it was read. */
  function Content(results: seq<ReadResult>): seq<byte>
  {
    if results == [] || Stops(results[0]) then [] else results[0].data + Content(results[1..])
  }

  lemma {:induction false} FeedLength(results: seq<ReadResult>, buffer: seq<byte>)
    requires |buffer| == BufferSize
    ensures |Feed(results, buffer)| == BufferSize * BlocksFed(results)
    decreases |results|
  {
    if results == [] || Stops(results[0]) {
    } else {
      FeedLength(results[1..], Overwrite(buffer, results[0].data));
    }
  }

  /** Exactly one full buffer is hashed per non-empty read, so a file whose
      first read reports end of file (an empty file) is hashed as the empty
      input. */
  lemma HashedInputLength(results: seq<ReadResult>)
    ensures |HashedInput(results)| == BufferSize * BlocksFed(results)
    ensures HashedInput(results) == [] <==> BlocksFed(results) == 0
  {
    FeedLength(results, ZeroBuffer());
  }

  lemma {:induction false} FeedBlock(results: seq<ReadResult>, buffer: seq<byte>, i: nat)
    requires |buffer| == BufferSize
    requires i < BlocksFed(results)
    ensures |Feed(results, buffer)| == BufferSize * BlocksFed(results)
    ensures Feed(results, buffer)[i * BufferSize .. i * BufferSize + |results[i].data|] == results[i].data
    decreases i
  {
    FeedLength(results, buffer);
    var next := Overwrite(buffer, results[0].data);
    var f := Feed(results, buffer);
    assert f == next + Feed(results[1..], next);
    if i == 0 {
      assert f[..|results[0].data|] == next[..|results[0].data|];
    } else {
      FeedBlock(results[1..], next, i - 1);
      var tail := Feed(results[1..], next);
      var lo := (i - 1) * BufferSize;
      assert i * BufferSize == lo + BufferSize;
      assert f[BufferSize..] == tail;
      assert f[lo + BufferSize .. lo + BufferSize + |results[i].data|] == tail[lo .. lo + |results[i].data|];
    }
  }

  /** The i-th block handed to the hasher begins with the bytes of the i-th
      read. */
  lemma BlockStartsWithReadBytes(results: seq<ReadResult>, i: nat)
    requires i < BlocksFed(results)
    ensures |HashedInput(results)| == BufferSize * BlocksFed(results)
    ensures HashedInput(results)[i * BufferSize .. i * BufferSize + |results[i].data|] == results[i].data
  {
    FeedBlock(results, ZeroBuffer(), i);
  }

  lemma {:induction false} FeedStaleBytes(results: seq<ReadResult>, buffer: seq<byte>, i: nat, j: nat)
    requires |buffer| == BufferSize
    requires 0 < i < BlocksFed(results)
    requires |results[i].data| <= j < BufferSize
    ensures |Feed(results, buffer)| == BufferSize * BlocksFed(results)
    ensures Feed(results, buffer)[i * BufferSize + j] == Feed(results, buffer)[(i - 1) * BufferSize + j]
    decreases i
  {
    FeedLength(results, buffer);
    var next := Overwrite(buffer, results[0].data);
    var f := Feed(results, buffer);
    var tail := Feed(results[1..], next);
    assert f == next + tail;
    FeedLength(results[1..], next);
    if i == 1 {
      var rest := results[1..];
      var next2 := Overwrite(next, rest[0].data);
      assert rest[0] == results[1];
      assert tail == next2 + Feed(rest[1..], next2);
      assert f[BufferSize + j] == next2[j];
      assert next2[j] == next2[|results[1].data|..][j - |results[1].data|];
    } else {
      FeedStaleBytes(results[1..], next, i - 1, j);
      assert results[1..][i - 1] == results[i];
      var lo := (i - 2) * BufferSize;
      assert (i - 1) * BufferSize == lo + BufferSize;
      assert i * BufferSize == lo + 2 * BufferSize;
      assert f[i * BufferSize + j] == tail[(i - 1) * BufferSize + j];
      assert f[(i - 1) * BufferSize + j] == tail[lo + j];
    }
  }

  /** Every later block is padded with what the previous read left in the
      buffer: past the bytes of the i-th read, the i-th block repeats the
      (i-1)-th block. */
  lemma StaleBytesFromPreviousRead(results: seq<ReadResult>, i: nat)
    requires 0 < i < BlocksFed(results)
    ensures |HashedInput(results)| == BufferSize * BlocksFed(results)
    ensures var h := HashedInput(results);
      var n := |results[i].data|;
      h[i * BufferSize + n .. (i + 1) * BufferSize] == h[(i - 1) * BufferSize + n .. i * BufferSize]
  {
    HashedInputLength(results);
    var h := HashedInput(results);
    var n := |results[i].data|;
    var stale := h[i * BufferSize + n .. (i + 1) * BufferSize];
    var earlier := h[(i - 1) * BufferSize + n .. i * BufferSize];
    forall k | 0 <= k < BufferSize - n
      ensures stale[k] == earlier[k]
    {
      FeedStaleBytes(results, ZeroBuffer(), i, n + k);
    }
  }

  /** The first block is padded with the zeros the buffer was allocated with,
      not cut at the number of bytes read. */
  lemma FirstBlockPadding(results: seq<ReadResult>)
    requires 0 < BlocksFed(results)
    ensures BufferSize <= |HashedInput(results)|
    ensures forall j :: |results[0].data| <= j < BufferSize ==> HashedInput(results)[j] == 0
  {
  }

  lemma {:induction false} FeedStops(prefix: seq<ReadResult>, stop: ReadResult, rest: seq<ReadResult>, buffer: seq<byte>)
    requires |buffer| == BufferSize
    requires Stops(stop)
    ensures Feed(prefix + [stop] + rest, buffer) == Feed(prefix, buffer)
    decreases |prefix|
  {
    var s := prefix + [stop] + rest;
    if prefix == [] {
      assert s[0] == stop;
    } else {
      assert s[0] == prefix[0];
      assert s[1..] == prefix[1..] + [stop] + rest;
      if !Stops(prefix[0]) {
        FeedStops(prefix[1..], stop, rest, Overwrite(buffer, prefix[0].data));
      }
    }
  }

  /** A failed read ends the loop exactly as end of file does: the reads after
      it are never made, and the digest of the blocks fed so far is still
      finalized. */
  lemma ReadErrorActsAsEndOfFile(prefix: seq<ReadResult>, rest: seq<ReadResult>, rest': seq<ReadResult>)
    ensures HashedInput(prefix + [ReadErr] + rest) == HashedInput(prefix + [Bytes([])] + rest')
    ensures HashedInput(prefix + [ReadErr] + rest) == HashedInput(prefix)
  {
    FeedStops(prefix, ReadErr, rest, ZeroBuffer());
    FeedStops(prefix, Bytes([]), rest', ZeroBuffer());
  }

  /** Every read before the last one that is fed fills the whole buffer, as
      reads of a regular file do until its end. */
  predicate FullReads(results: seq<ReadResult>)
  {
    forall i :: 0 <= i < BlocksFed(results) - 1 ==> |results[i].data| == BufferSize
  }

  lemma ContentStart(results: seq<ReadResult>)
    ensures BlocksFed(results) == 0 <==> Content(results) == []
    ensures 0 < BlocksFed(results) ==> Content(results) == results[0].data + Content(results[1..])
    ensures 1 < BlocksFed(results) ==> |Content(results)| > |results[0].data|
  {
  }

  lemma {:induction false} FullReadsFeed(a: seq<ReadResult>, b: seq<ReadResult>, buffer: seq<byte>)
    requires |buffer| == BufferSize
    requires FullReads(a) && FullReads(b)
    requires Content(a) == Content(b)
    ensures Feed(a, buffer) == Feed(b, buffer)
    decreases |a|
  {
    ContentStart(a);
    ContentStart(b);
    if BlocksFed(a) != 0 {
      var x := a[0].data;
      var y := b[0].data;
      var c := Content(a);
      ContentStart(a[1..]);
      ContentStart(b[1..]);
      if 1 < BlocksFed(a) && 1 < BlocksFed(b) {
        assert |x| == BufferSize && |y| == BufferSize;
        assert x == c[..BufferSize] && y == c[..BufferSize];
      } else if 1 < BlocksFed(a) || 1 < BlocksFed(b) {
        assert false;
      } else {
        assert BlocksFed(a[1..]) == 0 && BlocksFed(b[1..]) == 0;
        assert Content(a) == x + [] == x;
        assert Content(b) == y + [] == y;
      }
      assert x == y;
      assert Content(a[1..]) == c[|x|..] == Content(b[1..]);
      forall i | 0 <= i < BlocksFed(a[1..]) - 1
        ensures |a[1..][i].data| == BufferSize
      {
        assert a[1..][i] == a[i + 1];
      }
      forall i | 0 <= i < BlocksFed(b[1..]) - 1
        ensures |b[1..][i].data| == BufferSize
      {
        assert b[1..][i] == b[i + 1];
      }
      FullReadsFeed(a[1..], b[1..], Overwrite(buffer, x));
    }
  }

  /** Files with the same content get the same digest as long as every read
      but the last fills the buffer: the hasher input, and so the digest,
      depends on the content only. */
  lemma SameContentSameDigest(digest: seq<byte> -> seq<byte>, a: seq<ReadResult>, b: seq<ReadResult>)
    requires FullReads(a) && FullReads(b)
    requires Content(a) == Content(b)
    ensures HashedInput(a) == HashedInput(b)
    ensures FileDigest(digest, a) == FileDigest(digest, b)
  {
    FullReadsFeed(a, b, ZeroBuffer());
  }

  /** Without full reads the digest depends on how the reads split the
      content: [1, 2] read in one call and read as [1] then [2] hand the
      hasher one block and two blocks. */
  lemma SplitReadsDiffer()
    ensures Content([Bytes([1, 2])]) == Content([Bytes([1]), Bytes([2])])
    ensures |HashedInput([Bytes([1, 2])])| == BufferSize
    ensures |HashedInput([Bytes([1]), Bytes([2])])| == 2 * BufferSize
  {
  }

  /** As written, the hasher input is not a function of the file content:
      a one-byte file [1] and a two-byte file [1, 0], each read in one call,
      hand the hasher the same 32 KiB block, so they get the same digest. */
  lemma TrailingZerosCollide()
    ensures Content([Bytes([1])]) != Content([Bytes([1, 0])])
    ensures HashedInput([Bytes([1])]) == HashedInput([Bytes([1, 0])])
  {
  }

  /** Bytes left over from an earlier read collide too: the file [1, 2, 3]
      read as [1, 2] then [3], and the file [1, 2, 3, 2] read as [1, 2] then
      [3, 2], hand the hasher the same two blocks. */
  lemma EarlierReadBytesCollide()
    ensures Content([Bytes([1, 2]), Bytes([3])]) != Content([Bytes([1, 2]), Bytes([3, 2])])
    ensures HashedInput([Bytes([1, 2]), Bytes([3])]) == HashedInput([Bytes([1, 2]), Bytes([3, 2])])
  {
  }

  /** Stale bytes collide even when every read but the last fills the
      buffer: after a full first read `x` with `x[1] == 5`, the files
      `x + [7]` and `x + [7, 5]` hand the hasher the same two blocks. */
  lemma FullReadsCollide(x: Chunk)
    requires |x| == BufferSize && x[1] == 5
    ensures FullReads([Bytes(x), Bytes([7])]) && FullReads([Bytes(x), Bytes([7, 5])])
    ensures Content([Bytes(x), Bytes([7])]) != Content([Bytes(x), Bytes([7, 5])])
    ensures HashedInput([Bytes(x), Bytes([7])]) == HashedInput([Bytes(x), Bytes([7, 5])])
  {
    var a := [Bytes(x), Bytes([7])];
    var b := [Bytes(x), Bytes([7, 5])];
    assert a[1..] == [Bytes([7])] && b[1..] == [Bytes([7, 5])];
    assert a[1..][1..] == [] && b[1..][1..] == [];
    assert BlocksFed(a) == 2 && BlocksFed(b) == 2;
    assert Content(a[1..]) == [7] + [];
    assert Content(b[1..]) == [7, 5] + [];
    assert |Content(a)| == BufferSize + 1 && |Content(b)| == BufferSize + 2;
    var first := Overwrite(ZeroBuffer(), x);
    assert first == x;
    var sa := Overwrite(first, [7]);
    var sb := Overwrite(first, [7, 5]);
    assert sa == sb by {
      forall k | 0 <= k < BufferSize
        ensures sa[k] == sb[k]
      {
        if k >= 2 {
          assert sa[k] == x[k] == sb[k];
        }
      }
    }
    assert HashedInput(a) == first + Feed(a[1..], first) == first + sa;
    assert HashedInput(b) == first + Feed(b[1..], first) == first + sb;
  }

  /** The hasher input the program evidently intends: after each read only
      the `n` bytes it stored, `buffer[..n]`, are fed. */
  function IntendedFeed(results: seq<ReadResult>, buffer: seq<byte>): seq<byte>
    requires |buffer| == BufferSize
    decreases |results|
  {
    if results == [] || Stops(results[0]) then []
    else
      var next := Overwrite(buffer, results[0].data);
      next[..|results[0].data|] + IntendedFeed(results[1..], next)
  }

  function IntendedHashedInput(results: seq<ReadResult>): seq<byte>
  {
    IntendedFeed(results, ZeroBuffer())
  }

  lemma {:induction false} IntendedFeedIsContent(results: seq<ReadResult>, buffer: seq<byte>)
    requires |buffer| == BufferSize
    ensures IntendedFeed(results, buffer) == Content(results)
    decreases |results|
  {
    if results == [] || Stops(results[0]) {
    } else {
      IntendedFeedIsContent(results[1..], Overwrite(buffer, results[0].data));
    }
  }

  /** With the intended feed the hasher sees exactly the bytes read, so two
      files get the same hasher input if and only if they have the same
      content, however the reads split it and whatever stale bytes the buffer
      holds. */
  lemma IntendedInputIsContent(a: seq<ReadResult>, b: seq<ReadResult>)
    ensures IntendedHashedInput(a) == Content(a)
    ensures IntendedHashedInput(a) == IntendedHashedInput(b) <==> Content(a) == Content(b)
  {
    IntendedFeedIsContent(a, ZeroBuffer());
    IntendedFeedIsContent(b, ZeroBuffer());
  }
}
