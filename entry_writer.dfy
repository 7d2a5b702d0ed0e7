/**
 * The per-file entry writer `archive_file`: describe the file in an entry
 * header (stat size, regular-file type, permissions 0644, the path as
 * given), write the header, then stream the body in reads of at most 8192
 * bytes until a read returns zero or less.
 *
 * `stat` and `read` are oracles: the stat size is a parameter, and the
 * file's bytes plus a list of per-call read limits fix what each `read`
 * returns. The return codes of the archive writes are never consulted, so
 * they are not modelled.
 */
module EntryWriter {
  import opened ArchiveBase

  /** The size of the stack buffer each `read` fills. */
  const BUFFER_SIZE: nat := 8192

  /** libarchive's file-type bits for a regular file (AE_IFREG, octal 0100000). */
  const AE_IFREG: int := 0x8000

  /** The permission bits every created entry carries (octal 0644). */
  const CREATE_PERM: int := 0x1A4

  datatype EntryHeader = EntryHeader(pathname: string, size: int, fileType: int, perm: int)

  /** What one `read(fd, buff, 8192)` returns with `remaining` bytes left in
      the file, given the oracle's `limit` for that call: a negative limit is
      a failing read (-1); otherwise the count is the smallest of the buffer
      size, the bytes left and the limit, so a limit can make the read short
      but never longer than POSIX allows. */
  function ReadCount(remaining: nat, limit: int): (n: int)
    ensures limit < 0 <==> n == -1
    ensures limit >= 0 ==> 0 <= n
    ensures n <= BUFFER_SIZE && n <= remaining
    ensures limit >= 0 ==> (n == 0 <==> remaining == 0 || limit == 0)
  {
    if limit < 0 then -1
    else if remaining <= limit && remaining <= BUFFER_SIZE then remaining
    else if limit <= BUFFER_SIZE then limit
    else BUFFER_SIZE
  }

  /** The oracle's limit for the k-th read; past its end every read is a full
      one. */
  function LimitAt(limits: seq<int>, k: nat): int
  {
    if k < |limits| then limits[k] else BUFFER_SIZE
  }

  /** The bytes of the chunks, in order. */
  function Concat(chunks: seq<seq<byte>>): seq<byte>
    decreases |chunks|
  {
    if |chunks| == 0 then [] else chunks[0] + Concat(chunks[1..])
  }

  /** Reference definition of the body loop: the chunks written when the
      file is read from byte `pos` on, starting with the oracle's k-th read.
      A read returning zero or less ends the body. */
  function ReadChunks(content: seq<byte>, limits: seq<int>, pos: nat, k: nat): seq<seq<byte>>
    requires pos <= |content|
    decreases |content| - pos
  {
    var n := ReadCount(|content| - pos, LimitAt(limits, k));
    if n <= 0 then [] else [content[pos..pos + n]] + ReadChunks(content, limits, pos + n, k + 1)
  }

  /** `archive_file` as the source runs it: the header, then a `while` loop
      that writes what each read returned until a read returns zero or less. */
  method ArchiveFile(name: string, statSize: int, content: seq<byte>, readLimits: seq<int>)
    returns (header: EntryHeader, chunks: seq<seq<byte>>)
    ensures header == EntryHeader(name, statSize, AE_IFREG, CREATE_PERM)
    ensures chunks == ReadChunks(content, readLimits, 0, 0)
  {
    header := EntryHeader(name, statSize, AE_IFREG, CREATE_PERM);
    chunks := [];
    var pos := 0;
    var len := ReadCount(|content|, LimitAt(readLimits, 0));
    while len > 0
      invariant 0 <= pos <= |content|
      invariant chunks + ReadChunks(content, readLimits, pos, |chunks|) == ReadChunks(content, readLimits, 0, 0)
      invariant len == ReadCount(|content| - pos, LimitAt(readLimits, |chunks|))
      decreases |content| - pos
    {
      ghost var rest := ReadChunks(content, readLimits, pos + len, |chunks| + 1);
      assert chunks + ([content[pos..pos + len]] + rest) == (chunks + [content[pos..pos + len]]) + rest;
      chunks := chunks + [content[pos..pos + len]];
      pos := pos + len;
      len := ReadCount(|content| - pos, LimitAt(readLimits, |chunks|));
    }
  }

  /** The written chunks hold between 1 and 8192 bytes each and, put
      together, are the file's bytes from `pos` on, in file order, up to
      where the reads stopped. */
  lemma {:induction false} ChunksFollowFile(content: seq<byte>, limits: seq<int>, pos: nat, k: nat)
    requires pos <= |content|
    decreases |content| - pos
    ensures var cs := ReadChunks(content, limits, pos, k);
      (forall i :: 0 <= i < |cs| ==> 0 < |cs[i]| <= BUFFER_SIZE) &&
      pos + |Concat(cs)| <= |content| && Concat(cs) == content[pos..pos + |Concat(cs)|]
  {
    var n := ReadCount(|content| - pos, LimitAt(limits, k));
    if n > 0 {
      ChunksFollowFile(content, limits, pos + n, k + 1);
      var cs := ReadChunks(content, limits, pos, k);
      var rest := ReadChunks(content, limits, pos + n, k + 1);
      assert cs[1..] == rest;
      assert content[pos..pos + n + |Concat(rest)|] == content[pos..pos + n] + content[pos + n..pos + n + |Concat(rest)|];
    }
  }

  /** When no read fails or comes back empty before the end of the file, the
      chunks put together are the whole rest of the file: every byte is
      written once, in order. */
  lemma {:induction false} WholeFileWritten(content: seq<byte>, limits: seq<int>, pos: nat, k: nat)
    requires pos <= |content|
    requires forall j :: k <= j < |limits| ==> limits[j] > 0
    decreases |content| - pos
    ensures Concat(ReadChunks(content, limits, pos, k)) == content[pos..]
  {
    var n := ReadCount(|content| - pos, LimitAt(limits, k));
    if n > 0 {
      WholeFileWritten(content, limits, pos + n, k + 1);
      assert content[pos..] == content[pos..pos + n] + content[pos + n..];
    } else {
      assert LimitAt(limits, k) > 0;
    }
  }

  /** A failing read (or a first read of an empty file) leaves the entry
      with its header and no body. */
  lemma NoBodyAfterFailedRead(content: seq<byte>, limits: seq<int>)
    requires (|limits| > 0 && limits[0] < 0) || |content| == 0
    ensures ReadChunks(content, limits, 0, 0) == []
  {
  }
}
