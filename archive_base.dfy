/**
 * Values shared by every part of the archive engine: bytes, libarchive's
 * status codes, the blocks and headers that cross the libarchive interface,
 * the runtime-error log of the host VM, and the "$/$" path join.
 */
module ArchiveBase {

  newtype byte = b: int | 0 <= b < 256

  datatype Option<T> = None | Some(value: T)

  // Status codes returned by libarchive calls, as libarchive's archive.h
  // defines them. The engine only compares against EOF, OK and WARN; the
  // ordering EOF > OK > RETRY > WARN > FAILED > FATAL is what its
  // three-tier severity rule relies on.
  const EOF: int := 1
  const OK: int := 0
  const RETRY: int := -10
  const WARN: int := -20
  const FAILED: int := -25
  const FATAL: int := -30

  /** A body block as libarchive hands it over: the bytes (their count is the
      block size) and the absolute offset of the block inside the entry. */
  datatype Block = Block(data: seq<byte>, offset: int)

  /** One runtime error raised on the host VM. The engine reports the current
      diagnostic of a libarchive handle, so a report records which handle's
      diagnostic it carries: the archive being read, or the disk writer. */
  datatype Report =
    | ReadError
    | WriteError
    | PathMissing(path: string)

  /** The "$/$" join used both by the directory walker and by the output-root
      remap of extraction. */
  function JoinPath(dir: string, name: string): string
  {
    dir + "/" + name
  }

  /** A joined path is the directory, one separator, and the name, in that
      order: each part can be read back at a known position. */
  lemma JoinPathParts(dir: string, name: string)
    ensures var p := JoinPath(dir, name);
      |p| == |dir| + 1 + |name| &&
      p[..|dir|] == dir && p[|dir|] == '/' && p[|dir| + 1..] == name
  {
  }

  /** Splitting a joined path at the directory's length gives back both parts,
      so a join never loses or merges information. */
  lemma JoinPathInjective(d1: string, n1: string, d2: string, n2: string)
    requires |d1| == |d2|
    requires JoinPath(d1, n1) == JoinPath(d2, n2)
    ensures d1 == d2 && n1 == n2
  {
    var p := JoinPath(d1, n1);
    JoinPathParts(d1, n1);
    JoinPathParts(d2, n2);
    assert d1 == p[..|d1|] == d2;
    assert n1 == p[|d1| + 1..] == n2;
  }

  /** A joined path extends its directory: its first |dir| + 1 characters are
      the directory and the separator. */
  lemma JoinPathExtends(dir: string, name: string)
    ensures IsPrefix(dir + "/", JoinPath(dir, name))
  {
  }

  predicate IsPrefix(a: string, b: string)
  {
    |a| <= |b| && b[..|a|] == a
  }

  /** Prefixes compose: a prefix of a prefix is a prefix. */
  lemma PrefixTransitive(a: string, b: string, c: string)
    requires IsPrefix(a, b) && IsPrefix(b, c)
    ensures IsPrefix(a, c)
  {
  }
}
