/**
 * The directory walker `archive_directory` and its caller `archive_create`.
 *
 * The filesystem is a finite tree. A directory lists its entries in
 * `readdir` order; each entry carries its name, whether `readdir` typed it
 * DT_DIR, and the node it leads to. Since `d_type` and the node can
 * disagree (DT_UNKNOWN, symbolic links), both are kept. The observable
 * result of a walk is the ordered list of paths handed to `archive_file`
 * and the runtime errors raised on the host VM. What `stat`, `open` and
 * `read` see at a path is a separate oracle, used by `archive_create` when
 * it hands each path to the entry writer.
 */
module Walker {
  import opened ArchiveBase
  import opened EntryWriter

  /** What `opendir` and `fopen` find at a path: a directory, a file that
      opens for reading, or something neither call can open. */
  datatype Node =
    | Directory(entries: seq<DirEntry>)
    | Regular
    | Unopenable

  datatype DirEntry = DirEntry(name: string, dirType: bool, node: Node)

  datatype WalkOutcome = WalkOutcome(paths: seq<string>, reports: seq<Report>)

  function Join(a: WalkOutcome, b: WalkOutcome): WalkOutcome
  {
    WalkOutcome(a.paths + b.paths, a.reports + b.reports)
  }

  predicate IsDotName(name: string)
  {
    name == "." || name == ".."
  }

  /** Reference definition of the walk of `path`, which leads to `node`. */
  function Walk(node: Node, path: string): WalkOutcome
    decreases node, 2
  {
    match node
    case Directory(entries) => WalkEntries(node, path, 0)
    case Regular => WalkOutcome([path], [])
    case Unopenable => WalkOutcome([], [PathMissing(path)])
  }

  /** The walk of directory `dir`'s entries from the i-th on. */
  function WalkEntries(dir: Node, path: string, i: nat): WalkOutcome
    requires dir.Directory? && i <= |dir.entries|
    decreases dir, 1, |dir.entries| - i
  {
    if i == |dir.entries| then WalkOutcome([], [])
    else Join(Visit(dir, path, i), WalkEntries(dir, path, i + 1))
  }

  /** What the i-th entry of directory `dir` contributes. */
  function Visit(dir: Node, path: string, i: nat): WalkOutcome
    requires dir.Directory? && i < |dir.entries|
    decreases dir, 0, 0
  {
    var e := dir.entries[i];
    assert e in dir.entries;
    if e.dirType then
      if IsDotName(e.name) then WalkOutcome([], [])
      else Walk(e.node, JoinPath(path, e.name))
    else WalkOutcome([JoinPath(path, e.name)], [])
  }

  /** `archive_directory` as the source runs it: a file root is archived as
      one entry, an unopenable root is reported, and a directory is read
      entry by entry, recursing into DT_DIR entries other than "." and "..".
      After reporting an unopenable root the source goes on to call
      `readdir` on a null handle; the model stops there instead. */
  method ArchiveDirectory(node: Node, directory: string) returns (paths: seq<string>, reports: seq<Report>)
    ensures WalkOutcome(paths, reports) == Walk(node, directory)
    decreases node, 1
  {
    paths, reports := [], [];
    if !node.Directory? {
      if node.Regular? {
        paths := [directory];
        return;
      }
      reports := [PathMissing(directory)];
      return;
    }
    var i := 0;
    while i < |node.entries|
      invariant 0 <= i <= |node.entries|
      invariant Join(WalkOutcome(paths, reports), WalkEntries(node, directory, i)) == WalkEntries(node, directory, 0)
    {
      ghost var rest := WalkEntries(node, directory, i + 1);
      ghost var paths0, reports0 := paths, reports;
      var visitPaths, visitReports := VisitEntry(node, directory, i);
      paths, reports := paths + visitPaths, reports + visitReports;
      assert (paths0 + visitPaths) + rest.paths == paths0 + (visitPaths + rest.paths);
      assert (reports0 + visitReports) + rest.reports == reports0 + (visitReports + rest.reports);
      i := i + 1;
    }
  }

  /** One pass of the `readdir` loop in `archive_directory`: "." and ".."
      typed DT_DIR are skipped, any other DT_DIR entry is walked
      recursively, and every other entry is handed to the entry writer. */
  method VisitEntry(node: Node, directory: string, i: nat) returns (paths: seq<string>, reports: seq<Report>)
    requires node.Directory? && i < |node.entries|
    ensures WalkOutcome(paths, reports) == Visit(node, directory, i)
    decreases node, 0
  {
    var e := node.entries[i];
    assert e in node.entries;
    if e.dirType {
      if e.name == "." || e.name == ".." {
        paths, reports := [], [];
      } else {
        paths, reports := ArchiveDirectory(e.node, JoinPath(directory, e.name));
      }
    } else {
      paths, reports := [JoinPath(directory, e.name)], [];
    }
  }

  /** What `stat`, `open` and `read` see at a path: the stat size, the bytes
      of the file, and the read limits of the entry writer's oracle. */
  datatype FileView = FileView(statSize: int, content: seq<byte>, readLimits: seq<int>)

  /** One entry appended to the archive being created. */
  datatype ArchivedEntry = ArchivedEntry(header: EntryHeader, chunks: seq<seq<byte>>)

  /** `archive_create`: walk the input and append one entry per path the walk
      hands over, then report success. The results of opening and closing
      the output archive are never consulted, so the call returns true
      whatever the walk and the entry writer do. Every path is handed to the entry
      writer in walk order; the walk never looks at what the entry writer
      did, so making all the walk's decisions first and writing the entries
      afterwards gives the same archive as interleaving them. */
  method ArchiveCreate(input: string, root: Node, files: string -> FileView)
    returns (ok: bool, archive: seq<ArchivedEntry>, reports: seq<Report>)
    ensures ok
    ensures reports == Walk(root, input).reports
    ensures |archive| == |Walk(root, input).paths|
    ensures forall k :: 0 <= k < |archive| ==>
      var path := Walk(root, input).paths[k];
      archive[k] == ArchivedEntry(
        EntryHeader(path, files(path).statSize, AE_IFREG, CREATE_PERM),
        ReadChunks(files(path).content, files(path).readLimits, 0, 0))
  {
    var paths;
    paths, reports := ArchiveDirectory(root, input);
    archive := [];
    var k := 0;
    while k < |paths|
      invariant 0 <= k <= |paths| && |archive| == k
      invariant forall j :: 0 <= j < k ==>
        archive[j] == ArchivedEntry(
          EntryHeader(paths[j], files(paths[j]).statSize, AE_IFREG, CREATE_PERM),
          ReadChunks(files(paths[j]).content, files(paths[j]).readLimits, 0, 0))
    {
      var view := files(paths[k]);
      var header, chunks := ArchiveFile(paths[k], view.statSize, view.content, view.readLimits);
      archive := archive + [ArchivedEntry(header, chunks)];
      k := k + 1;
    }
    ok := true;
  }

  /** A root that is not a directory: a file that opens is archived as
      exactly one entry named by the root path; anything else is reported
      as missing and archives nothing. */
  lemma WalkNonDirectoryRoot(node: Node, path: string)
    requires !node.Directory?
    ensures node.Regular? ==> Walk(node, path) == WalkOutcome([path], [])
    ensures node.Unopenable? ==> Walk(node, path) == WalkOutcome([], [PathMissing(path)])
  {
  }

  /** Every path handed over while walking directory `dir` from its i-th entry
      lies under the directory: it starts with the directory path and '/'. */
  lemma {:induction false} WalkEntriesUnder(dir: Node, path: string, i: nat)
    requires dir.Directory? && i <= |dir.entries|
    decreases dir, 0, |dir.entries| - i
    ensures forall x :: x in WalkEntries(dir, path, i).paths ==> IsPrefix(path + "/", x)
  {
    if i < |dir.entries| {
      WalkEntriesUnder(dir, path, i + 1);
      var e := dir.entries[i];
      assert e in dir.entries;
      var q := JoinPath(path, e.name);
      JoinPathExtends(path, e.name);
      if e.dirType && !IsDotName(e.name) {
        WalkUnder(e.node, q);
        forall x | x in Walk(e.node, q).paths
          ensures IsPrefix(path + "/", x)
        {
          if x != q {
            assert IsPrefix(q, q + "/");
            PrefixTransitive(q, q + "/", x);
            PrefixTransitive(path + "/", q, x);
          }
        }
      }
    }
  }

  /** Every path the walk of `path` hands over is `path` itself (a file root)
      or lies under it; under a directory, always the latter. */
  lemma {:induction false} WalkUnder(node: Node, path: string)
    decreases node, 1
    ensures forall x :: x in Walk(node, path).paths ==> x == path || IsPrefix(path + "/", x)
    ensures node.Directory? ==> forall x :: x in Walk(node, path).paths ==> IsPrefix(path + "/", x)
  {
    if node.Directory? {
      WalkEntriesUnder(node, path, 0);
    }
  }

  lemma {:induction false} WalkEntriesSplit(es1: seq<DirEntry>, es2: seq<DirEntry>, path: string, i: nat)
    requires i <= |es1|
    decreases |es1| - i
    ensures WalkEntries(Directory(es1 + es2), path, i) ==
      Join(WalkEntries(Directory(es1), path, i), WalkEntries(Directory(es2), path, 0))
  {
    if i < |es1| {
      WalkEntriesSplit(es1, es2, path, i + 1);
      assert (es1 + es2)[i] == es1[i];
      var v := Visit(Directory(es1), path, i);
      var a := WalkEntries(Directory(es1), path, i + 1);
      var b := WalkEntries(Directory(es2), path, 0);
      assert Join(v, Join(a, b)) == Join(Join(v, a), b);
    } else {
      WalkEntriesShift(es1, es2, path, 0);
    }
  }

  lemma {:induction false} WalkEntriesShift(es1: seq<DirEntry>, es2: seq<DirEntry>, path: string, j: nat)
    requires j <= |es2|
    decreases |es2| - j
    ensures WalkEntries(Directory(es1 + es2), path, |es1| + j) == WalkEntries(Directory(es2), path, j)
  {
    if j < |es2| {
      WalkEntriesShift(es1, es2, path, j + 1);
      assert (es1 + es2)[|es1| + j] == es2[j];
    }
  }

  /** The walk is depth-first in `readdir` order: walking a directory whose
      listing is `es1` followed by `es2` hands over the paths (and raises the
      errors) of `es1` first, then those of `es2`. */
  lemma WalkListingSplit(es1: seq<DirEntry>, es2: seq<DirEntry>, path: string)
    ensures Walk(Directory(es1 + es2), path) == Join(Walk(Directory(es1), path), Walk(Directory(es2), path))
  {
    WalkEntriesSplit(es1, es2, path, 0);
  }

  lemma WalkSingleEntry(e: DirEntry, path: string)
    ensures Walk(Directory([e]), path) ==
      if !e.dirType then WalkOutcome([JoinPath(path, e.name)], [])
      else if IsDotName(e.name) then WalkOutcome([], [])
      else Walk(e.node, JoinPath(path, e.name))
  {
    var d := Directory([e]);
    assert WalkEntries(d, path, 1) == WalkOutcome([], []);
    assert Walk(d, path) == Join(Visit(d, path, 0), WalkEntries(d, path, 1));
  }

  lemma WalkAround(es1: seq<DirEntry>, e: DirEntry, es2: seq<DirEntry>, path: string)
    ensures Walk(Directory(es1 + [e] + es2), path) ==
      Join(Join(Walk(Directory(es1), path), Walk(Directory([e]), path)), Walk(Directory(es2), path))
  {
    WalkListingSplit(es1 + [e], es2, path);
    WalkListingSplit(es1, [e], path);
  }

  /** "." and ".." are skipped when they are DT_DIR entries: inserting one
      anywhere in a listing changes nothing. */
  lemma WalkSkipsDotDirectories(es1: seq<DirEntry>, e: DirEntry, es2: seq<DirEntry>, path: string)
    requires e.dirType && IsDotName(e.name)
    ensures Walk(Directory(es1 + [e] + es2), path) == Walk(Directory(es1 + es2), path)
  {
    WalkAround(es1, e, es2, path);
    WalkSingleEntry(e, path);
    WalkListingSplit(es1, es2, path);
  }

  /** An entry not typed DT_DIR (whatever its name, "." included) is handed
      to the entry writer as `directory/name`, between what the entries
      before and after it contribute. */
  lemma WalkHandsOverFile(es1: seq<DirEntry>, e: DirEntry, es2: seq<DirEntry>, path: string)
    requires !e.dirType
    ensures Walk(Directory(es1 + [e] + es2), path).paths ==
      Walk(Directory(es1), path).paths + [JoinPath(path, e.name)] + Walk(Directory(es2), path).paths
  {
    WalkAround(es1, e, es2, path);
    WalkSingleEntry(e, path);
  }

  /** Any other DT_DIR entry is walked recursively as `directory/name`, in
      its place in the listing. */
  lemma WalkRecursesIntoDirectory(es1: seq<DirEntry>, e: DirEntry, es2: seq<DirEntry>, path: string)
    requires e.dirType && !IsDotName(e.name)
    ensures Walk(Directory(es1 + [e] + es2), path) ==
      Join(Join(Walk(Directory(es1), path), Walk(e.node, JoinPath(path, e.name))), Walk(Directory(es2), path))
  {
    WalkAround(es1, e, es2, path);
    WalkSingleEntry(e, path);
  }

  /** Two entries of one listing with different names get different paths:
      the child path `dir/name` determines the name it was built from. */
  lemma SiblingPathsDistinct(dir: Node, path: string, i: nat, j: nat)
    requires dir.Directory? && i < |dir.entries| && j < |dir.entries|
    requires dir.entries[i].name != dir.entries[j].name
    ensures JoinPath(path, dir.entries[i].name) != JoinPath(path, dir.entries[j].name)
  {
    if JoinPath(path, dir.entries[i].name) == JoinPath(path, dir.entries[j].name) {
      JoinPathInjective(path, dir.entries[i].name, path, dir.entries[j].name);
    }
  }
}
