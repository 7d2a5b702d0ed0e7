/**
 * What `archive_extract` promises, stated over the reference definitions of
 * the Extract module: the three-tier severity rule after each step, the
 * header-write quirk, the output-root remap, and how the call ends.
 */
module ExtractFacts {
  import opened ArchiveBase
  import opened BlockCopy
  import opened Extraction

  /** The round at which the loop stops: the first round that does not let
      it go on, or the number of rounds when every one does. */
  function FirstStop(rounds: seq<EntryOutcome>, i: nat): (n: nat)
    requires i <= |rounds|
    decreases |rounds| - i
    ensures i <= n <= |rounds|
    ensures forall j :: i <= j < n ==> rounds[j].verdict == NextEntry
    ensures n < |rounds| ==> rounds[n].verdict != NextEntry
  {
    if i == |rounds| || rounds[i].verdict != NextEntry then i else FirstStop(rounds, i + 1)
  }

  /** A round is end-of-archive exactly when its header read returned EOF. */
  lemma EntryAtEofIffEofHeader(e: EntryRecord, output: Option<string>)
    ensures EntryStep(e, output).verdict == AtEof <==> e.headerCode == EOF
  {
  }

  /** If opening the archive returns any nonzero code, the call returns false
      having raised nothing and touched no entry. */
  lemma ExtractOpenFailure(openCode: int, entries: seq<EntryRecord>, output: Option<string>)
    requires openCode != OK
    ensures Extract(openCode, entries, output) == ExtractOutcome(false, [], [])
  {
  }

  /** The call returns true exactly when the archive opened and the loop
      stopped because the next header read returned EOF (or there was none). */
  lemma ExtractTrueIffEof(openCode: int, entries: seq<EntryRecord>, output: Option<string>)
    ensures var n := FirstStop(Rounds(entries, output), 0);
      Extract(openCode, entries, output).ok <==>
        openCode == OK && (n == |entries| || entries[n].headerCode == EOF)
  {
    var rounds := Rounds(entries, output);
    var n := FirstStop(rounds, 0);
    if openCode == OK {
      if n == |entries| {
        RunSucceeds(rounds, n);
      } else {
        EntryAtEofIffEofHeader(entries[n], output);
        if entries[n].headerCode == EOF {
          RunSucceeds(rounds, n);
        } else {
          RunAborts(rounds, n);
        }
      }
    }
  }

  lemma {:induction false} ReportsAndDiskAgree(r1: seq<EntryOutcome>, r2: seq<EntryOutcome>, n: nat)
    requires n <= |r1| && n <= |r2|
    requires forall j :: 0 <= j < n ==> r1[j] == r2[j]
    ensures ReportsOf(r1, n) == ReportsOf(r2, n) && DiskOf(r1, n) == DiskOf(r2, n)
  {
    if n > 0 {
      ReportsAndDiskAgree(r1, r2, n - 1);
    }
  }

  /** When entry n ends the call with false, the call returns false with what
      entries 0..n raised and wrote, and whatever entries follow n, the
      outcome is the same: no later entry is touched. */
  lemma ExtractStopsAtFatal(openCode: int, entries: seq<EntryRecord>, output: Option<string>, n: nat, later: seq<EntryRecord>)
    requires openCode == OK && n < |entries|
    requires ContinuesThrough(Rounds(entries, output), n)
    requires EntryStep(entries[n], output).verdict == Abort
    ensures Extract(openCode, entries, output) ==
      ExtractOutcome(false, ReportsOf(Rounds(entries, output), n + 1), DiskOf(Rounds(entries, output), n + 1))
    ensures Extract(openCode, entries[..n + 1] + later, output) == Extract(openCode, entries, output)
  {
    var rounds := Rounds(entries, output);
    var cut := entries[..n + 1] + later;
    var roundsCut := Rounds(cut, output);
    assert forall j :: 0 <= j <= n ==> cut[j] == entries[j];
    assert forall j :: 0 <= j <= n ==> roundsCut[j] == rounds[j];
    RunAborts(rounds, n);
    RunAborts(roundsCut, n);
    ReportsAndDiskAgree(rounds, roundsCut, n + 1);
  }

  /** Everything WriteStep reports carries the disk writer's diagnostic. */
  lemma WriteStepReportsWriter(e: EntryRecord, pathname: string)
    ensures forall k :: 0 <= k < |WriteStep(e, pathname).reports| ==> WriteStep(e, pathname).reports[k] == WriteError
  {
    var c := Copy(e.body);
    assert c.reports == [] || c.reports == [WriteError] by {
      if c.reports != [] {
        CopyReportsOnlyWriter(e.body);
      }
    }
  }

  lemma {:induction false} CopyReportsOnlyWriter(steps: seq<CopyStep>)
    ensures Copy(steps).reports == [] || Copy(steps).reports == [WriteError]
  {
    if |steps| > 0 && Forwards(steps[0]) {
      CopyReportsOnlyWriter(steps[1..]);
    }
  }

  /** Severity after reading a header: a code below OK is reported with the
      reader's diagnostic, a code below WARN ends the call before the disk
      writer is called, and a WARN-tier code lets the entry be written under
      its (remapped) pathname. */
  lemma EntryHeaderTiers(e: EntryRecord, output: Option<string>)
    requires e.headerCode != EOF
    ensures var st := EntryStep(e, output);
      ((|st.reports| > 0 && st.reports[0] == ReadError) <==> e.headerCode < OK) &&
      (st.disk == [] <==> e.headerCode < WARN) &&
      (e.headerCode < WARN ==> st.verdict == Abort) &&
      (e.headerCode >= WARN ==> st.disk[0] == WriteHeader(Remap(output, e.pathname)))
  {
    WriteStepReportsWriter(e, Remap(output, e.pathname));
  }

  /** A header write below OK (WARN included) is reported and the body is
      skipped whatever the entry size, but it never ends the call by itself:
      the entry is still finished and the finish code alone decides. */
  lemma EntryHeaderWriteFailure(e: EntryRecord, output: Option<string>)
    requires e.headerCode != EOF && e.headerCode >= WARN && e.writeHeaderCode < OK
    ensures EntryStep(e, output) == EntryOutcome(
      if e.finishCode < WARN then Abort else NextEntry,
      ReportBelowOk(e.headerCode, ReadError) + [WriteError] + ReportBelowOk(e.finishCode, WriteError),
      [WriteHeader(Remap(output, e.pathname)), FinishEntry])
  {
  }

  /** An entry whose header was written but whose size is not positive gets
      header and finish only; the finish code decides. */
  lemma EntryWithoutBody(e: EntryRecord, output: Option<string>)
    requires e.headerCode != EOF && e.headerCode >= WARN && e.writeHeaderCode >= OK && e.size <= 0
    ensures EntryStep(e, output) == EntryOutcome(
      if e.finishCode < WARN then Abort else NextEntry,
      ReportBelowOk(e.headerCode, ReadError) + ReportBelowOk(e.finishCode, WriteError),
      [WriteHeader(Remap(output, e.pathname)), FinishEntry])
  {
  }

  /** A body block reaches the disk writer only when the header read was
      above the fatal tier, the header write returned at least OK, and the
      entry size is positive. */
  lemma EntryBodyOnlyWhen(e: EntryRecord, output: Option<string>)
    ensures var st := EntryStep(e, output);
      forall k :: 0 <= k < |st.disk| && st.disk[k].WriteBlock? ==>
        e.headerCode != EOF && e.headerCode >= WARN && e.writeHeaderCode >= OK && e.size > 0
  {
  }

  /** Severity after copying the body: the blocks the copier forwarded reach
      the disk writer right after the header; a copy code below OK is
      reported with the disk writer's diagnostic; below WARN the call ends
      without finishing the entry; otherwise the entry is finished and the
      finish code decides. */
  lemma EntryBodyTiers(e: EntryRecord, output: Option<string>)
    requires e.headerCode != EOF && e.headerCode >= WARN && e.writeHeaderCode >= OK && e.size > 0
    ensures var st := EntryStep(e, output);
      var c := Copy(e.body);
      var head := [WriteHeader(Remap(output, e.pathname))] + BlockEvents(c.written);
      var reports := ReportBelowOk(e.headerCode, ReadError) + c.reports + ReportBelowOk(c.code, WriteError);
      if c.code < WARN then
        st == EntryOutcome(Abort, reports, head)
      else
        st == EntryOutcome(if e.finishCode < WARN then Abort else NextEntry,
          reports + ReportBelowOk(e.finishCode, WriteError), head + [FinishEntry])
  {
  }

  /** A body block the disk writer rejects is reported twice with the disk
      writer's diagnostic: once by the copier and once by the loop. */
  lemma BodyWriteFailureReportedTwice(e: EntryRecord, output: Option<string>, n: nat)
    requires e.headerCode != EOF && e.headerCode >= WARN && e.writeHeaderCode >= OK && e.size > 0
    requires n < |e.body| && forall k :: 0 <= k < n ==> Forwards(e.body[k])
    requires e.body[n].readCode != EOF && e.body[n].readCode >= OK && e.body[n].writeCode < OK
    ensures var st := EntryStep(e, output);
      var w := e.body[n].writeCode;
      st.reports == ReportBelowOk(e.headerCode, ReadError) + [WriteError, WriteError] +
        (if w < WARN then [] else ReportBelowOk(e.finishCode, WriteError)) &&
      (w < WARN ==> st.verdict == Abort)
  {
    CopyStopsAtWriteError(e.body, n);
    EntryBodyTiers(e, output);
  }

  /** A body block the reader fails to deliver is reported once, and with the
      disk writer's diagnostic rather than the reader's: the copier passes
      the code back without reporting, and the loop reports the writer. */
  lemma BodyReadFailureReportsWriter(e: EntryRecord, output: Option<string>, n: nat)
    requires e.headerCode != EOF && e.headerCode >= WARN && e.writeHeaderCode >= OK && e.size > 0
    requires n < |e.body| && forall k :: 0 <= k < n ==> Forwards(e.body[k])
    requires e.body[n].readCode != EOF && e.body[n].readCode < OK
    ensures var st := EntryStep(e, output);
      var r := e.body[n].readCode;
      st.reports == ReportBelowOk(e.headerCode, ReadError) + [WriteError] +
        (if r < WARN then [] else ReportBelowOk(e.finishCode, WriteError)) &&
      (r < WARN ==> st.verdict == Abort)
  {
    CopyStopsAtReadError(e.body, n);
    EntryBodyTiers(e, output);
  }

  /** Without an output root the pathname is left as it is. */
  lemma RemapWithoutRoot(pathname: string)
    ensures Remap(None, pathname) == pathname
  {
  }

  /** With an output root the pathname becomes root, '/', original: it lies
      under the root and the original can be read back from it. */
  lemma RemapUnderRoot(root: string, pathname: string)
    ensures var p := Remap(Some(root), pathname);
      IsPrefix(root + "/", p) && p[|root| + 1..] == pathname
  {
    JoinPathParts(root, pathname);
    JoinPathExtends(root, pathname);
  }
}
