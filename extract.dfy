/**
 * The extraction loop of `archive_extract`: open the archive, then for each
 * entry read its header, optionally move it under an output root, write the
 * header to disk, copy the body, and finish the entry, applying libarchive's
 * three-tier severity rule after each step.
 *
 * The archive reader and the disk writer are oracles. Opening is one return
 * code; each EntryRecord holds everything the library answers for one entry.
 * An entry list that is used up reads as end-of-archive. The observable
 * result is the returned boolean, the runtime errors raised on the host VM,
 * and the calls made on the disk writer.
 */
module Extraction {
  import opened ArchiveBase
  import opened BlockCopy

  /** The library's answers for one entry: the code of
      `archive_read_next_header`, the pathname and size it carries, the code
      of `archive_write_header`, the body stream, and the code of
      `archive_write_finish_entry`. */
  datatype EntryRecord = EntryRecord(
    headerCode: int,
    pathname: string,
    size: int,
    writeHeaderCode: int,
    body: seq<CopyStep>,
    finishCode: int)

  /** A call made on the disk writer. */
  datatype DiskEvent =
    | WriteHeader(pathname: string)
    | WriteBlock(block: Block)
    | FinishEntry

  /** How one round of the loop ends: end-of-archive, on to the next entry,
      or the whole call returns false. */
  datatype Verdict = AtEof | NextEntry | Abort

  datatype EntryOutcome = EntryOutcome(verdict: Verdict, reports: seq<Report>, disk: seq<DiskEvent>)

  datatype ExtractOutcome = ExtractOutcome(ok: bool, reports: seq<Report>, disk: seq<DiskEvent>)

  /** The pathname an entry is written under: `output/original` with an output
      root, the original pathname without one. */
  function Remap(output: Option<string>, pathname: string): string
  {
    match output
    case None => pathname
    case Some(root) => JoinPath(root, pathname)
  }

  /** The runtime error raised for a code, when the code is below OK. */
  function ReportBelowOk(code: int, report: Report): seq<Report>
  {
    if code < OK then [report] else []
  }

  function BlockEvents(bs: seq<Block>): seq<DiskEvent>
  {
    seq(|bs|, k requires 0 <= k < |bs| => WriteBlock(bs[k]))
  }

  /** The finishing step of an entry, after what it raised and wrote so far:
      a code below OK is reported, and one below WARN ends the call. */
  function Finish(e: EntryRecord, reports: seq<Report>, disk: seq<DiskEvent>): EntryOutcome
  {
    EntryOutcome(
      if e.finishCode < WARN then Abort else NextEntry,
      reports + ReportBelowOk(e.finishCode, WriteError),
      disk + [FinishEntry])
  }

  /** Reference definition of an entry once its header has been accepted:
      write the header under `pathname`, copy the body when the header write
      succeeded and the entry is not empty, then finish the entry. */
  function WriteStep(e: EntryRecord, pathname: string): EntryOutcome
  {
    var d1 := [WriteHeader(pathname)];
    if e.writeHeaderCode < OK then Finish(e, [WriteError], d1)
    else if e.size > 0 then
      var c := Copy(e.body);
      var r2 := c.reports + ReportBelowOk(c.code, WriteError);
      var d2 := d1 + BlockEvents(c.written);
      if c.code < WARN then EntryOutcome(Abort, r2, d2) else Finish(e, r2, d2)
    else Finish(e, [], d1)
  }

  /** Reference definition of one round of the extraction loop. */
  function EntryStep(e: EntryRecord, output: Option<string>): EntryOutcome
  {
    if e.headerCode == EOF then EntryOutcome(AtEof, [], [])
    else
      var r1 := ReportBelowOk(e.headerCode, ReadError);
      if e.headerCode < WARN then EntryOutcome(Abort, r1, [])
      else
        var w := WriteStep(e, Remap(output, e.pathname));
        EntryOutcome(w.verdict, r1 + w.reports, w.disk)
  }

  /** The outcome of every round, entry by entry, as if each were reached. */
  function Rounds(entries: seq<EntryRecord>, output: Option<string>): seq<EntryOutcome>
  {
    seq(|entries|, k requires 0 <= k < |entries| => EntryStep(entries[k], output))
  }

  /** Reference definition of the loop over the rounds' outcomes, from round
      i on: stop at the first round that does not let the loop go on. */
  function RunFrom(rounds: seq<EntryOutcome>, i: nat): ExtractOutcome
    requires i <= |rounds|
    decreases |rounds| - i
  {
    if i == |rounds| then ExtractOutcome(true, [], [])
    else
      var st := rounds[i];
      match st.verdict
      case AtEof => ExtractOutcome(true, [], [])
      case Abort => ExtractOutcome(false, st.reports, st.disk)
      case NextEntry =>
        var rest := RunFrom(rounds, i + 1);
        ExtractOutcome(rest.ok, st.reports + rest.reports, st.disk + rest.disk)
  }

  function Run(entries: seq<EntryRecord>, output: Option<string>): ExtractOutcome
  {
    RunFrom(Rounds(entries, output), 0)
  }

  /** Reference definition of the whole call: any nonzero code from opening
      the archive returns false before any entry is looked at. */
  function Extract(openCode: int, entries: seq<EntryRecord>, output: Option<string>): ExtractOutcome
  {
    if openCode != OK then ExtractOutcome(false, [], []) else Run(entries, output)
  }

  /** The runtime errors raised, in order, by the first n rounds. */
  function ReportsOf(rounds: seq<EntryOutcome>, n: nat): seq<Report>
    requires n <= |rounds|
  {
    if n == 0 then [] else ReportsOf(rounds, n - 1) + rounds[n - 1].reports
  }

  /** The disk-writer calls made, in order, by the first n rounds. */
  function DiskOf(rounds: seq<EntryOutcome>, n: nat): seq<DiskEvent>
    requires n <= |rounds|
  {
    if n == 0 then [] else DiskOf(rounds, n - 1) + rounds[n - 1].disk
  }

  /** Every round before position n lets the loop go on. */
  predicate ContinuesThrough(rounds: seq<EntryOutcome>, n: nat)
    requires n <= |rounds|
  {
    forall j :: 0 <= j < n ==> rounds[j].verdict == NextEntry
  }

  /** Lines 80-104 of the loop: write the header, copy the body, finish the
      entry, with the severity checks after each. */
  method WriteEntry(e: EntryRecord, pathname: string)
    returns (verdict: Verdict, reports: seq<Report>, disk: seq<DiskEvent>)
    ensures EntryOutcome(verdict, reports, disk) == WriteStep(e, pathname)
  {
    reports, disk := [], [WriteHeader(pathname)];
    var r := e.writeHeaderCode;
    if r < OK {
      reports := reports + [WriteError];
    } else if e.size > 0 {
      var written, copyReports;
      r, written, copyReports := CopyData(e.body);
      reports := reports + copyReports;
      disk := disk + BlockEvents(written);
      if r < OK {
        reports := reports + [WriteError];
      }
      if r < WARN {
        return Abort, reports, disk;
      }
    }
    r := e.finishCode;
    disk := disk + [FinishEntry];
    if r < OK {
      reports := reports + [WriteError];
    }
    verdict := if r < WARN then Abort else NextEntry;
  }

  /** One round of the `for (;;)` loop of `archive_extract`: read the next
      header, apply the severity rule, remap the pathname, and hand the entry
      to WriteEntry. The runtime errors raised and the disk-writer calls made
      are returned in order, for the loop to append to the call's log. */
  method ExtractEntry(e: EntryRecord, output: Option<string>)
    returns (verdict: Verdict, reports: seq<Report>, disk: seq<DiskEvent>)
    ensures EntryOutcome(verdict, reports, disk) == EntryStep(e, output)
  {
    reports, disk := [], [];
    var r := e.headerCode;
    if r == EOF {
      return AtEof, reports, disk;
    }
    if r < OK {
      reports := reports + [ReadError];
    }
    if r < WARN {
      return Abort, reports, disk;
    }
    var pathname := e.pathname;
    if output.Some? {
      pathname := JoinPath(output.value, pathname);
    }
    var writeReports;
    verdict, writeReports, disk := WriteEntry(e, pathname);
    reports := reports + writeReports;
  }

  /** `archive_extract` as the source runs it: an endless loop left by
      `break` at end-of-archive or by `return` on a fatal code. */
  method ArchiveExtract(openCode: int, entries: seq<EntryRecord>, output: Option<string>)
    returns (ok: bool, reports: seq<Report>, disk: seq<DiskEvent>)
    ensures ExtractOutcome(ok, reports, disk) == Extract(openCode, entries, output)
  {
    reports, disk := [], [];
    if openCode != OK {
      return false, reports, disk;
    }
    ghost var rounds := Rounds(entries, output);
    var i := 0;
    while true
      invariant 0 <= i <= |entries|
      invariant ContinuesThrough(rounds, i)
      invariant reports == ReportsOf(rounds, i) && disk == DiskOf(rounds, i)
      decreases |entries| - i
    {
      if i == |entries| {
        break;
      }
      var verdict, stepReports, stepDisk := ExtractEntry(entries[i], output);
      if verdict == AtEof {
        break;
      }
      reports, disk := reports + stepReports, disk + stepDisk;
      if verdict == Abort {
        RunAborts(rounds, i);
        return false, reports, disk;
      }
      i := i + 1;
    }
    RunSucceeds(rounds, i);
    ok := true;
  }

  /** The loop after n rounds that all let it go on: what they raised and
      wrote, followed by the run from round n. */
  lemma {:induction false} RunPrefix(rounds: seq<EntryOutcome>, n: nat)
    requires n <= |rounds| && ContinuesThrough(rounds, n)
    ensures RunFrom(rounds, 0) == ExtractOutcome(RunFrom(rounds, n).ok,
      ReportsOf(rounds, n) + RunFrom(rounds, n).reports,
      DiskOf(rounds, n) + RunFrom(rounds, n).disk)
  {
    if n > 0 {
      RunPrefix(rounds, n - 1);
      var st := rounds[n - 1];
      var rest := RunFrom(rounds, n);
      assert RunFrom(rounds, n - 1) == ExtractOutcome(rest.ok, st.reports + rest.reports, st.disk + rest.disk);
      assert ReportsOf(rounds, n) + rest.reports == ReportsOf(rounds, n - 1) + (st.reports + rest.reports);
      assert DiskOf(rounds, n) + rest.disk == DiskOf(rounds, n - 1) + (st.disk + rest.disk);
    }
  }

  /** The loop returns true when, after n rounds that all let it go on, the
      next round is end-of-archive (or there is none). */
  lemma RunSucceeds(rounds: seq<EntryOutcome>, n: nat)
    requires n <= |rounds| && ContinuesThrough(rounds, n)
    requires n == |rounds| || rounds[n].verdict == AtEof
    ensures RunFrom(rounds, 0) == ExtractOutcome(true, ReportsOf(rounds, n), DiskOf(rounds, n))
  {
    RunPrefix(rounds, n);
  }

  /** When round n ends the call, it returns false with exactly what rounds
      0..n raised and wrote: no later entry is touched. */
  lemma RunAborts(rounds: seq<EntryOutcome>, n: nat)
    requires n < |rounds| && ContinuesThrough(rounds, n)
    requires rounds[n].verdict == Abort
    ensures RunFrom(rounds, 0) == ExtractOutcome(false, ReportsOf(rounds, n + 1), DiskOf(rounds, n + 1))
  {
    RunPrefix(rounds, n);
  }
}
