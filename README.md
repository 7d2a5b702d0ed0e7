# Archive engine of the Lit `Archive` library, in Dafny

This project models the archive engine in `src/lit_archive.c`. It packs a
directory tree into an archive stream (`Archive.create`) and unpacks an archive
stream onto disk (`Archive.extract`). The model covers four pieces of control
logic:

- **Block copier** (`copy_data`). It pulls body blocks from the archive being
  read and pushes them unchanged to the disk writer. It stops at end-of-entry,
  at a read error or at a write error.
- **Extraction loop** (`archive_extract`). It opens the archive, then handles
  each entry in turn: read the header, move the pathname under the output
  root when one is given, write the header, copy the body, finish the entry.
  After each step it applies libarchive's three-tier rule:
  - a code below `ARCHIVE_OK` raises a runtime error on the host VM;
  - a code below `ARCHIVE_WARN` makes the call return false.
- **Entry writer** (`archive_file`). It writes a header with the stat size, the
  regular-file type, permissions 0644 and the path as given. It then writes the
  body in reads of at most 8192 bytes.
- **Directory walker** (`archive_directory`, called by `archive_create`). It
  recurses depth-first in `readdir` order. It builds `directory/name` paths,
  skips `.` and `..` among directory entries, and archives a root that is a
  file as one entry.

libarchive, the filesystem and the Lit VM are oracles. Each library call
becomes an input value:

- the return code of opening the archive;
- per entry: header code, pathname, size, header-write code, body stream,
  finish code;
- per body read: read code, block, write code;
- the directory tree, with each entry's `d_type`;
- per file: stat size, bytes and per-read limits.

What the model observes is:

- the returned boolean;
- the runtime errors raised, in order. Each one records whose diagnostic it
  carries: the reader's, the disk writer's, or "path does not exist";
- the calls made on the disk writer, in order: header with its pathname, each
  block, finish;
- the list of paths handed to the entry writer, and the entries it appends.

The status codes keep libarchive's values: `EOF` 1, `OK` 0, `RETRY` -10, `WARN`
-20, `FAILED` -25, `FATAL` -30. The code compares raw integers against `OK` and
`WARN`, and the model does the same.

Modules, one file each:

- `archive_base.dfy`: `ArchiveBase`, with bytes, status codes, blocks, reports
  and the `"$/$"` join.
- `block_copy.dfy`: `BlockCopy`, the copier.
- `extract.dfy`: `Extraction`, with the per-entry round and the loop.
- `extract_facts.dfy`: `ExtractFacts`, the properties of extraction.
- `entry_writer.dfy`: `EntryWriter`, for `archive_file`.
- `walker.dfy`: `Walker`, for `archive_directory` and `archive_create`.

Each loop and each step of an extraction round is a method, proved equal to a
reference function:

- `CopyData` equals `Copy`;
- `ExtractEntry` and `WriteEntry` equal `EntryStep` and `WriteStep`;
- `ArchiveExtract` equals `Extract` (built on `RunFrom`);
- `ArchiveFile` produces `ReadChunks`;
- `ArchiveDirectory` equals `Walk`, and `VisitEntry` equals `Visit`.

The lemmas state what the source promises about those functions.

Behaviour the code has that a reader might not expect:

- Opening the archive for extraction fails on any nonzero code. The call then
  returns false without raising anything.
- A header write below OK, WARN included, is reported and the body is skipped.
  It never ends the call by itself: the entry is still finished, and the finish
  code decides.
- A body block that fails to write is reported twice, both times with the disk
  writer's diagnostic: once by the copier (line 28) and once by the loop
  (line 88).
- A body block that fails to read is reported once, by the loop. That report
  carries the disk writer's diagnostic, not the reader's.
- The entry writer ignores every write result. It cannot fail.
- `archive_create` returns true whatever the walk and the entry writer do.
- No stream is closed on an early return. The model makes no claim about
  closing.

## Model

| member | source | states |
|---|---|---|
| `ArchiveBase.JoinPathParts` | src/lit_archive.c:174 | the `"$/$"` join is the directory, one `/`, then the name; each part can be read back at a known position |
| `ArchiveBase.JoinPathExtends` | src/lit_archive.c:166-171 | the path built for a child starts with the parent directory followed by `/` |
| `BlockCopy.CopyData` | src/lit_archive.c:9-32 | the copy loop returns the same code, delivers the same blocks to the writer and raises the same errors as the reference copier `Copy` |
| `BlockCopy.CopyForwardsPrefix` | src/lit_archive.c:15-31 | after n blocks that were read and written successfully, the writer has received exactly those n blocks (same bytes, size and offset) in read order, and the copy then goes on from step n |
| `BlockCopy.CopyStopsAtEof` | src/lit_archive.c:16-19 | end-of-entry after n forwarded blocks: the copier returns OK, raises nothing, and the writer received exactly those n blocks |
| `BlockCopy.CopyStopsAtReadError` | src/lit_archive.c:21-23 | a read code below OK is returned unchanged and is not reported; the writer received only the earlier blocks |
| `BlockCopy.CopyStopsAtWriteError` | src/lit_archive.c:25-30 | a write code below OK is reported with the writer's diagnostic and returned at once; the failed block is the last one the writer received |
| `BlockCopy.CopyReadsNoFurther` | src/lit_archive.c:15-31 | the outcome depends only on the reads up to the one that ended the copy; no read follows a failed write |
| `Extraction.WriteEntry` | src/lit_archive.c:80-104 | header write, conditional body copy and finish, with their severity checks, match the reference `WriteStep` |
| `Extraction.ExtractEntry` | src/lit_archive.c:62-104 | one round of the loop (header read, severity check, remap, write part) matches the reference `EntryStep` |
| `Extraction.ArchiveExtract` | src/lit_archive.c:57-112 | the whole call (open check, then the `for (;;)` loop left by `break` or `return`) returns the boolean, raises the errors and makes the disk-writer calls of the reference `Extract` |
| `Extraction.RunPrefix` | src/lit_archive.c:61-105 | after n rounds that each let the loop go on, the outcome is what those rounds raised and wrote, followed by the run from round n |
| `Extraction.RunSucceeds` | src/lit_archive.c:61-112 | if the loop reaches a header read returning EOF (or runs out of headers) after n continuing rounds, the call returns true with exactly those rounds' errors and disk calls |
| `Extraction.RunAborts` | src/lit_archive.c:61-105 | if round n ends the call, it returns false with exactly what rounds 0..n raised and wrote |
| `ExtractFacts.FirstStop` | src/lit_archive.c:61-105 | finds the first round that does not let the loop go on: every earlier round continues, and the one found (if any) stops |
| `ExtractFacts.EntryAtEofIffEofHeader` | src/lit_archive.c:62-66 | a round ends the loop successfully exactly when its header read returned EOF |
| `ExtractFacts.ExtractOpenFailure` | src/lit_archive.c:57-59 | any nonzero code from opening returns false, raises nothing and touches no entry |
| `ExtractFacts.ExtractTrueIffEof` | src/lit_archive.c:57-112 | the call returns true if and only if opening returned OK and the loop stopped at a header read returning EOF (or at the end of the headers) |
| `ExtractFacts.ExtractStopsAtFatal` | src/lit_archive.c:68-104 | when entry n ends the call, it returns false with what entries 0..n raised and wrote, and any entries after n leave the outcome unchanged |
| `ExtractFacts.CopyReportsOnlyWriter` | src/lit_archive.c:27-29 | the copier raises at most one error, and it carries the writer's diagnostic |
| `ExtractFacts.WriteStepReportsWriter` | src/lit_archive.c:80-100 | every error raised after the header is accepted carries the disk writer's diagnostic |
| `ExtractFacts.EntryHeaderTiers` | src/lit_archive.c:62-80 | for a header read other than EOF, both directions hold: the reader's diagnostic is raised first if and only if the code is below OK, and nothing reaches the disk writer if and only if the code is below WARN (then the call returns false); otherwise the first disk call writes the remapped pathname |
| `ExtractFacts.EntryHeaderWriteFailure` | src/lit_archive.c:80-104 | a header write below OK, WARN included, is reported and the body is skipped whatever the size; the entry is still finished and the finish code alone decides (report below OK, return false below WARN) |
| `ExtractFacts.EntryWithoutBody` | src/lit_archive.c:84-104 | an entry with size 0 or less gets its header and its finish only; the finish code decides |
| `ExtractFacts.EntryBodyOnlyWhen` | src/lit_archive.c:82-85 | a body block reaches the disk writer only if the header read was at least WARN, the header write returned at least OK and the size is positive |
| `ExtractFacts.EntryBodyTiers` | src/lit_archive.c:84-104 | the copied blocks reach the disk writer right after the header. A copy code below OK is reported with the disk writer's diagnostic. Below WARN the call returns false without finishing the entry. Otherwise the entry is finished and the finish code decides |
| `ExtractFacts.BodyWriteFailureReportedTwice` | src/lit_archive.c:85-93 | a body block that fails to write raises the disk writer's diagnostic twice, and the call returns false when the code is below WARN |
| `ExtractFacts.BodyReadFailureReportsWriter` | src/lit_archive.c:85-93 | a body block that fails to read raises one error, carrying the disk writer's diagnostic rather than the reader's; the call returns false when the code is below WARN |
| `ExtractFacts.RemapWithoutRoot` | src/lit_archive.c:76-78 | with no output root the entry pathname is left unchanged |
| `ExtractFacts.RemapUnderRoot` | src/lit_archive.c:76-78 | with an output root the pathname starts with `root/`, and the original pathname follows it unchanged |
| `EntryWriter.ReadCount` | src/lit_archive.c:131-135 | one `read` into the 8192-byte buffer returns -1 exactly when it fails; otherwise it returns no more than 8192 bytes and no more than remain, and 0 only at end of file or when the read is cut short to nothing |
| `EntryWriter.ArchiveFile` | src/lit_archive.c:115-140 | the header has the given path, the stat size, the regular-file type and permissions 0644; the body chunks are exactly what the reference `ReadChunks` reads, ending at the first read that returns 0 or less |
| `EntryWriter.ChunksFollowFile` | src/lit_archive.c:131-136 | every written chunk holds 1 to 8192 bytes, and the chunks put together are a prefix of the file's bytes, in file order |
| `EntryWriter.WholeFileWritten` | src/lit_archive.c:131-136 | when no read fails or is cut short to nothing, the chunks put together are the whole file |
| `EntryWriter.NoBodyAfterFailedRead` | src/lit_archive.c:130-136 | a failing first read, or an empty file, leaves the entry with its header and no body |
| `Walker.ArchiveDirectory` | src/lit_archive.c:142-179 | the recursive walk hands the entry writer the same paths, in the same order, and raises the same errors as the reference `Walk` |
| `Walker.VisitEntry` | src/lit_archive.c:161-174 | one pass of the `readdir` loop contributes exactly what the reference `Visit` gives: nothing for a DT_DIR `.` or `..`, the recursive walk of any other DT_DIR entry, and `dir/name` for every other entry |
| `Walker.ArchiveCreate` | src/lit_archive.c:181-200 | creation always returns true; it raises the walk's errors and appends one entry per path handed over, in walk order, each with that path's header and the chunks read from that path |
| `Walker.WalkNonDirectoryRoot` | src/lit_archive.c:147-156 | a root that is not a directory but opens as a file is archived as exactly one entry named by the root path; anything else raises "does not exist" and archives nothing |
| `Walker.WalkEntriesUnder` | src/lit_archive.c:158-176 | every path handed over while reading a directory starts with that directory and `/` |
| `Walker.WalkUnder` | src/lit_archive.c:142-179 | every path the walk hands over is the root itself (a file root) or lies under `root/`; under a directory root always the latter |
| `Walker.WalkListingSplit` | src/lit_archive.c:158-176 | the walk is depth-first in `readdir` order: for a listing `es1` followed by `es2`, the paths and errors of `es1` come first, then those of `es2` |
| `Walker.WalkSingleEntry` | src/lit_archive.c:159-175 | a one-entry listing adds: `dir/name` for an entry not typed DT_DIR; nothing for a DT_DIR `.` or `..`; otherwise the walk of `dir/name` |
| `Walker.WalkSkipsDotDirectories` | src/lit_archive.c:161-164 | inserting a DT_DIR `.` or `..` anywhere in a listing changes nothing |
| `Walker.WalkHandsOverFile` | src/lit_archive.c:173-175 | an entry not typed DT_DIR, whatever its name, is handed to the entry writer as `dir/name`, between the paths of the entries before it and after it |
| `Walker.WalkRecursesIntoDirectory` | src/lit_archive.c:165-172 | any other DT_DIR entry is walked recursively as `dir/name`, in its place in the listing |
| `Walker.SiblingPathsDistinct` | src/lit_archive.c:166-174 | two entries of one listing with different names are handed over, or walked, under different paths |

## Left out

- libarchive internals are not modelled: the gzip filter, the restricted pax
  format, format and compression detection, the disk writer's options (time,
  permissions, ACLs, file flags) and the standard user and group lookup. Their
  calls (lines 44-55, 190-192) are foreign, and their results are never
  consulted. The block size 10240 passed when opening is not modelled either.
- Real filesystem I/O (`opendir`, `readdir`, `fopen`, `stat`, `open`, `read`,
  `close`) is replaced by the tree and the per-file oracle. A finite tree cannot
  express symbolic-link loops or unbounded recursion.
- A directory that exists but that `opendir` cannot open is modelled as
  whatever `fopen` makes of it. If `fopen` opens it, it is `Regular`; if not, it
  is `Unopenable`.
- `Walker.ArchiveDirectory`: after it reports an unopenable path, the source
  goes on to call `readdir` on a null handle, which is undefined behaviour. The
  model stops walking that path after the report.
- `Walker.ArchiveCreate`: returns true even after the walk has raised a
  `PathMissing` report. In the source, a missing input path or a nested
  directory entry that neither `opendir` nor `fopen` can open leads to
  `readdir` on a null handle, which is undefined behaviour; returning true
  there is the model's own choice.
- `Walker.ArchiveCreate` runs the whole walk first and writes the entries
  afterwards. The source interleaves the two. The walk never depends on what
  the entry writer did, so the archive comes out the same.
- The Lit VM binding is not modelled: `LIT_METHOD`, argument checking and
  conversion, the memory of `lit_string_format`, `archive_open_library` and the
  program in `src/test.c`. The optional output root is an `Option`. Raising a
  runtime error appends to the report log and returns.
- Releasing resources is not modelled: closing and freeing the streams, the
  entry and the file descriptor. The source closes the streams only on the
  success path (lines 107-110). The model makes no claim that they are always
  released.
- The variable-length path buffer and `strcpy` (lines 166-171) are modelled as
  string concatenation.
- A stat size that `stat` leaves unset because the file cannot be stat'ed is not
  modelled: the stat size is always an input.
- The diagnostic text of a runtime error is not modelled. A report records only
  whose diagnostic it carries.
- Error codes are compared as integers, as the source does. They are not
  wrapped in a three-variant severity type.
