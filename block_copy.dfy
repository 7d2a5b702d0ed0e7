/**
 * The block copier `copy_data`: pull blocks from an archive being read and
 * push them, unchanged, to the disk writer, until end-of-entry, a read error
 * or a write error.
 *
 * The two libarchive handles are oracles. Each CopyStep is one round of the
 * loop: the code `archive_read_data_block` returns with the block it hands
 * over, and the code `archive_write_data_block` returns if that block is
 * forwarded. A step list that is used up reads as end-of-entry.
 */
module BlockCopy {
  import opened ArchiveBase

  datatype CopyStep = CopyStep(readCode: int, block: Block, writeCode: int)

  /** What one run of the copier amounts to: the code it returns, the blocks
      the writer received in order, the runtime errors it raised, and how many
      read calls it made. */
  datatype CopyOutcome = CopyOutcome(code: int, written: seq<Block>, reports: seq<Report>, readCalls: nat)

  /** A step the copier forwards and then carries on from. */
  predicate Forwards(s: CopyStep)
  {
    s.readCode != EOF && s.readCode >= OK && s.writeCode >= OK
  }

  function Blocks(steps: seq<CopyStep>): (bs: seq<Block>)
  {
    seq(|steps|, k requires 0 <= k < |steps| => steps[k].block)
  }

  /** The outcome of a copy that first forwarded `done` and then went on as `o`. */
  function After(done: seq<Block>, o: CopyOutcome): CopyOutcome
  {
    CopyOutcome(o.code, done + o.written, o.reports, |done| + o.readCalls)
  }

  /** Reference definition of the copier, one step at a time. */
  function Copy(steps: seq<CopyStep>): CopyOutcome
    decreases |steps|
  {
    if |steps| == 0 then CopyOutcome(OK, [], [], 1)
    else
      var s := steps[0];
      if s.readCode == EOF then CopyOutcome(OK, [], [], 1)
      else if s.readCode < OK then CopyOutcome(s.readCode, [], [], 1)
      else if s.writeCode < OK then CopyOutcome(s.writeCode, [s.block], [WriteError], 1)
      else After([s.block], Copy(steps[1..]))
  }

  /** `copy_data` as the source runs it: an endless loop left by `return`. */
  method CopyData(steps: seq<CopyStep>) returns (r: int, written: seq<Block>, reports: seq<Report>)
    ensures r == Copy(steps).code
    ensures written == Copy(steps).written
    ensures reports == Copy(steps).reports
  {
    var i := 0;
    written, reports := [], [];
    while true
      invariant 0 <= i <= |steps|
      invariant forall k :: 0 <= k < i ==> Forwards(steps[k])
      invariant written == Blocks(steps[..i]) && reports == []
      decreases |steps| - i
    {
      var step := if i < |steps| then steps[i] else CopyStep(EOF, Block([], 0), OK);
      r := step.readCode;
      if r == EOF {
        CopyStopsAtEof(steps, i);
        return OK, written, reports;
      }
      if r < OK {
        CopyStopsAtReadError(steps, i);
        return;
      }
      r := step.writeCode;
      written := written + [step.block];
      assert Blocks(steps[..i + 1]) == written;
      if r < OK {
        reports := reports + [WriteError];
        CopyStopsAtWriteError(steps, i);
        return;
      }
      i := i + 1;
    }
  }

  /** Every step the copier forwards and carries on from reaches the writer
      unchanged and in read order: the run is the prefix's blocks followed by
      the run on the rest. */
  lemma {:induction false} CopyForwardsPrefix(steps: seq<CopyStep>, n: nat)
    requires n <= |steps|
    requires forall k :: 0 <= k < n ==> Forwards(steps[k])
    ensures Copy(steps) == After(Blocks(steps[..n]), Copy(steps[n..]))
  {
    if n > 0 {
      var rest := steps[1..];
      CopyForwardsPrefix(rest, n - 1);
      assert rest[n - 1..] == steps[n..];
      assert Blocks(steps[..n]) == [steps[0].block] + Blocks(rest[..n - 1]);
    } else {
      assert steps[..0] == [] && steps[0..] == steps;
    }
  }

  /** End-of-entry (or an exhausted stream) after n forwarded blocks: the
      copier returns OK, raises nothing, and the writer got exactly those
      n blocks. */
  lemma CopyStopsAtEof(steps: seq<CopyStep>, n: nat)
    requires n <= |steps|
    requires forall k :: 0 <= k < n ==> Forwards(steps[k])
    requires n == |steps| || steps[n].readCode == EOF
    ensures Copy(steps) == CopyOutcome(OK, Blocks(steps[..n]), [], n + 1)
  {
    CopyForwardsPrefix(steps, n);
  }

  /** A read error after n forwarded blocks is returned unchanged and is not
      reported by the copier. */
  lemma CopyStopsAtReadError(steps: seq<CopyStep>, n: nat)
    requires n < |steps|
    requires forall k :: 0 <= k < n ==> Forwards(steps[k])
    requires steps[n].readCode != EOF && steps[n].readCode < OK
    ensures Copy(steps) == CopyOutcome(steps[n].readCode, Blocks(steps[..n]), [], n + 1)
  {
    CopyForwardsPrefix(steps, n);
  }

  /** A writer result below OK on block n is reported with the writer's
      diagnostic and returned at once: that block was the last one handed to
      the writer and no further read was made. */
  lemma CopyStopsAtWriteError(steps: seq<CopyStep>, n: nat)
    requires n < |steps|
    requires forall k :: 0 <= k < n ==> Forwards(steps[k])
    requires steps[n].readCode != EOF && steps[n].readCode >= OK && steps[n].writeCode < OK
    ensures Copy(steps) == CopyOutcome(steps[n].writeCode, Blocks(steps[..n + 1]), [WriteError], n + 1)
  {
    CopyForwardsPrefix(steps, n);
    assert Blocks(steps[..n + 1]) == Blocks(steps[..n]) + [steps[n].block];
  }

  /** The copier never looks past the read that ended it: whatever the stream
      would have produced afterwards, the outcome is the same. */
  lemma {:induction false} CopyReadsNoFurther(steps: seq<CopyStep>, later: seq<CopyStep>)
    requires Copy(steps).readCalls <= |steps|
    ensures Copy(steps[..Copy(steps).readCalls] + later) == Copy(steps)
  {
    var n := Copy(steps).readCalls;
    var s := steps[0];
    var cut := steps[..n] + later;
    assert cut[0] == s;
    if s.readCode != EOF && s.readCode >= OK && s.writeCode >= OK {
      var rest := steps[1..];
      CopyReadsNoFurther(rest, later);
      assert cut[1..] == rest[..Copy(rest).readCalls] + later;
    }
  }
}
