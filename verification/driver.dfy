/** The run over the whole file in batch mode: lines are taken in one by
    one, queued lines are buffered, and the buffer is translated and
    emitted when it is full, on the last line and on every hundredth line.
    `RunBatch` is the loop as the source writes it; `RunInOrder` is the
    corrected loop that also empties the buffer before a passed-through
    line.

    The loop is stated over the line-level operations it calls (`Ops`), so
    that what is proved about its bookkeeping holds whatever those
    operations compute; `BatchOps` plugs in the translator's own. */
module Driver {
  import opened Text
  import opened Codec
  import opened Pipeline
  import opened Lines

  /** The line-level operations the loop calls: taking in a line, its
      skipped-code count, and for a buffer of queued lines the translations,
      the counters and the pauses of translating it. */
  datatype Ops = Ops(
    intake: (string, nat) -> Intake,
    skipped: string -> nat,
    translations: seq<QueuedLine> -> map<Key, string>,
    flushStats: (Stats, seq<QueuedLine>) -> Stats,
    flushPauses: seq<QueuedLine> -> nat)

  /** The translator's own operations. */
  function BatchOps(svc: Service): Ops {
    Ops((line: string, n: nat) => IntakeLine(line, n),
        (line: string) => IntakeSkipped(line),
        (ps: seq<QueuedLine>) => Translations(ps, svc),
        (st: Stats, ps: seq<QueuedLine>) => PendingStats(st, ps, svc),
        (ps: seq<QueuedLine>) => PendingPauses(ps))
  }

  /** Output so far, buffered lines, counters and pauses taken. */
  datatype RunState = RunState(results: seq<string>, pending: seq<QueuedLine>, stats: Stats, pauses: nat)

  function Start(st: Stats, pauses: nat): RunState {
    RunState([], [], st, pauses)
  }

  /** The buffer is processed when it holds a full batch, on the last line,
      or on a line number that is a multiple of 100. */
  predicate ShouldFlush(count: nat, lineNum: nat, total: nat): (r: bool)
    ensures r <==> count >= BatchSize || lineNum == total || lineNum % FlushEvery == 0
  {
    FlushLineIsMod(lineNum);
    count >= BatchSize || lineNum == total || FlushLine(lineNum)
  }

  /** `lineNum % 100 == 0`, counted down a hundred at a time
      (FlushLineIsMod). */
  predicate FlushLine(lineNum: nat)
    decreases lineNum
  {
    if lineNum < FlushEvery then lineNum == 0 else FlushLine(lineNum - FlushEvery)
  }

  lemma {:induction false} FlushLineIsMod(lineNum: nat)
    ensures FlushLine(lineNum) <==> lineNum % FlushEvery == 0
    decreases lineNum
  {
    if lineNum >= FlushEvery {
      FlushLineIsMod(lineNum - FlushEvery);
    }
  }

  /** Translate the buffered lines and append them to the output. */
  function Flush(s: RunState, ops: Ops): (r: RunState)
    ensures r.pending == [] && |r.results| == |s.results| + |s.pending|
  {
    RunState(s.results + RewriteAll(s.pending, ops.translations(s.pending)), [],
             ops.flushStats(s.stats, s.pending), s.pauses + ops.flushPauses(s.pending))
  }

  /** One iteration of the source's loop: the line taken in, its skipped
      spans counted, and the result handled by Advance. */
  function Step(s: RunState, line: string, lineNum: nat, total: nat, ops: Ops): RunState {
    var st := s.stats.(skippedCode := s.stats.skippedCode + ops.skipped(line));
    Advance(s.(stats := st), ops.intake(line, lineNum), lineNum, total, ops)
  }

  /** A line that passes through goes to the output; a queued line joins
      the buffer, which is flushed when it is due. */
  function Advance(s: RunState, intake: Intake, lineNum: nat, total: nat, ops: Ops): RunState {
    match intake
    case Verbatim(l) => s.(results := s.results + [l])
    case Pending(p) =>
      var s1 := s.(pending := s.pending + [p]);
      if ShouldFlush(|s1.pending|, lineNum, total) && s1.pending != [] then Flush(s1, ops) else s1
  }

  /** One iteration in terms of what the line was taken in as and how
      many of its spans were skipped. */
  lemma StepAdvances(s: RunState, line: string, lineNum: nat, total: nat, ops: Ops, intake: Intake, skipped: nat)
    requires ops.intake(line, lineNum) == intake && ops.skipped(line) == skipped
    ensures Step(s, line, lineNum, total, ops)
      == Advance(s.(stats := s.stats.(skippedCode := s.stats.skippedCode + skipped)), intake, lineNum, total, ops)
  {
  }

  /** How the translator takes in a line. */
  lemma BatchOpsIntake(svc: Service, line: string, lineNum: nat)
    ensures BatchOps(svc).intake(line, lineNum) == IntakeLine(line, lineNum)
    ensures BatchOps(svc).skipped(line) == IntakeSkipped(line)
  {
  }

  /** One iteration of the translator's batch driver, given what the line
      was taken in as and the state after it was handled. */
  lemma StepByIntake(s: RunState, line: string, lineNum: nat, total: nat, svc: Service,
                     processed: Intake, taken: Stats, r: RunState)
    requires processed == IntakeLine(line, lineNum)
    requires taken == s.stats.(skippedCode := s.stats.skippedCode + IntakeSkipped(line))
    requires r == Advance(s.(stats := taken), processed, lineNum, total, BatchOps(svc))
    ensures r == Step(s, line, lineNum, total, BatchOps(svc))
  {
    BatchOpsIntake(svc, line, lineNum);
    StepAdvances(s, line, lineNum, total, BatchOps(svc), processed, IntakeSkipped(line));
  }

  /** A flush with the translator's operations. */
  lemma FlushBatchOps(s: RunState, svc: Service)
    ensures Flush(s, BatchOps(svc))
      == RunState(s.results + RewritePending(s.pending, svc), [],
                  PendingStats(s.stats, s.pending, svc), s.pauses + PendingPauses(s.pending))
  {
  }

  /** The state after the first k lines, numbered from 1. */
  function RunBatch(lines: seq<string>, k: nat, init: RunState, ops: Ops): RunState
    requires k <= |lines|
    decreases k
  {
    if k == 0 then init
    else Step(RunBatch(lines, k - 1, init, ops), lines[k - 1], k, |lines|, ops)
  }

  /** The buffer never reaches a full batch between iterations. */
  lemma {:induction false} PendingBelowBatch(lines: seq<string>, k: nat, init: RunState, ops: Ops)
    requires k <= |lines| && |init.pending| < BatchSize
    ensures |RunBatch(lines, k, init, ops).pending| < BatchSize
    decreases k
  {
    if k > 0 {
      PendingBelowBatch(lines, k - 1, init, ops);
      StepBelowBatch(RunBatch(lines, k - 1, init, ops), lines[k - 1], k, |lines|, ops);
    }
  }

  /** One iteration never leaves a full batch in the buffer. */
  lemma StepBelowBatch(s: RunState, line: string, lineNum: nat, total: nat, ops: Ops)
    requires |s.pending| < BatchSize
    ensures |Step(s, line, lineNum, total, ops).pending| < BatchSize
  {
  }

  /** One iteration moves one line into the output or the buffer. */
  lemma StepCounts(s: RunState, line: string, lineNum: nat, total: nat, ops: Ops)
    ensures |Step(s, line, lineNum, total, ops).results| + |Step(s, line, lineNum, total, ops).pending|
      == |s.results| + |s.pending| + 1
  {
  }

  /** After k lines every line is either in the output or in the buffer:
      nothing is duplicated and, while the loop runs, nothing is lost. */
  lemma {:induction false} LinesAccounted(lines: seq<string>, k: nat, init: RunState, ops: Ops)
    requires k <= |lines|
    ensures |RunBatch(lines, k, init, ops).results| + |RunBatch(lines, k, init, ops).pending|
      == |init.results| + |init.pending| + k
    decreases k
  {
    if k > 0 {
      LinesAccounted(lines, k - 1, init, ops);
      StepCounts(RunBatch(lines, k - 1, init, ops), lines[k - 1], k, |lines|, ops);
    }
  }

  /** When the file's last line is queued, the last iteration flushes the
      buffer and the output has one line per input line. */
  lemma CompleteWhenLastLineQueued(lines: seq<string>, st: Stats, ops: Ops)
    requires lines != [] && ops.intake(lines[|lines| - 1], |lines|).Pending?
    ensures RunBatch(lines, |lines|, Start(st, 0), ops).pending == []
    ensures |RunBatch(lines, |lines|, Start(st, 0), ops).results| == |lines|
  {
    LinesAccounted(lines, |lines|, Start(st, 0), ops);
  }

  /** The translator takes in a line that does not pass through as queued. */
  lemma BatchIntakeQueues(line: string, n: nat, svc: Service)
    requires !PassesThrough(line)
    ensures BatchOps(svc).intake(line, n).Pending?
  {
  }

  lemma BatchIntakePasses(line: string, n: nat, svc: Service)
    requires PassesThrough(line)
    ensures BatchOps(svc).intake(line, n) == Verbatim(line)
  {
  }

  lemma QueuedLine()
    ensures !PassesThrough("x\n")
  {
    RStripTrimmed("x");
    assert RStrip("x\n") == "x" by {
      assert "x\n"[..1] == "x";
    }
    LStripTrimmed("x");
  }

  lemma BlankLine()
    ensures PassesThrough("\n")
  {
    assert RStrip("\n") == [];
  }

  /** A file that ends on a passed-through line loses the lines still in the
      buffer: the first line is queued, the second is written at once, and
      the loop ends without flushing the first. */
  lemma TrailingBufferDropped(a: string, b: string, ops: Ops)
    requires ops.intake(a, 1).Pending? && ops.intake(b, 2) == Verbatim(b)
    ensures RunBatch([a, b], 2, Start(NoStats, 0), ops).results == [b]
    ensures |RunBatch([a, b], 2, Start(NoStats, 0), ops).pending| == 1
  {
    var lines := [a, b];
    assert RunBatch(lines, 0, Start(NoStats, 0), ops) == Start(NoStats, 0);
    assert !ShouldFlush(1, 1, 2);
  }

  /** The translator's own loop drops the queued line "x\n" of the file
      ["x\n", "\n"] and writes only the blank line. */
  lemma BatchDropsTrailingBuffer(svc: Service)
    ensures RunBatch(["x\n", "\n"], 2, Start(NoStats, 0), BatchOps(svc)).results == ["\n"]
  {
    QueuedLine();
    BlankLine();
    BatchIntakeQueues("x\n", 1, svc);
    BatchIntakePasses("\n", 2, svc);
    TrailingBufferDropped("x\n", "\n", BatchOps(svc));
  }

  /** A passed-through line overtakes the buffered line before it: of three
      lines of which only the second passes through, the second comes out
      first. */
  lemma PassedLineOvertakes(a: string, b: string, c: string, ops: Ops)
    requires ops.intake(a, 1).Pending? && ops.intake(b, 2) == Verbatim(b) && ops.intake(c, 3).Pending?
    ensures RunBatch([a, b, c], 3, Start(NoStats, 0), ops).results[0] == b
    ensures |RunBatch([a, b, c], 3, Start(NoStats, 0), ops).results| == 3
  {
    var lines := [a, b, c];
    assert RunBatch(lines, 0, Start(NoStats, 0), ops) == Start(NoStats, 0);
    assert !ShouldFlush(1, 1, 3);
    var s2 := RunBatch(lines, 2, Start(NoStats, 0), ops);
    assert s2.results == [b] && |s2.pending| == 1;
    assert ShouldFlush(2, 3, 3);
  }

  // ------------------------------------------------------ corrected loop

  /** The loop with the buffer emptied before a passed-through line. */
  function StepInOrder(s: RunState, line: string, lineNum: nat, total: nat, ops: Ops): RunState {
    match ops.intake(line, lineNum)
    case Verbatim(l) =>
      var f := if s.pending != [] then Flush(s, ops) else s;
      f.(results := f.results + [l], stats := f.stats.(skippedCode := f.stats.skippedCode + ops.skipped(line)))
    case Pending(p) => Step(s, line, lineNum, total, ops)
  }

  /** A passed-through line that counts no skipped span, in the corrected
      loop: the buffer is flushed first, then the line is written. */
  lemma InOrderPassed(s: RunState, line: string, lineNum: nat, total: nat, ops: Ops, l: string)
    requires ops.intake(line, lineNum) == Verbatim(l) && ops.skipped(line) == 0
    ensures var f := if s.pending != [] then Flush(s, ops) else s;
      StepInOrder(s, line, lineNum, total, ops) == f.(results := f.results + [l])
  {
  }

  /** A queued line in the corrected loop of the translator. */
  lemma InOrderQueuedByIntake(s: RunState, line: string, lineNum: nat, total: nat, svc: Service,
                              p: QueuedLine, taken: Stats, r: RunState)
    requires IntakeLine(line, lineNum) == Pending(p)
    requires taken == s.stats.(skippedCode := s.stats.skippedCode + IntakeSkipped(line))
    requires r == Advance(s.(stats := taken), Pending(p), lineNum, total, BatchOps(svc))
    ensures r == StepInOrder(s, line, lineNum, total, BatchOps(svc))
  {
    BatchOpsIntake(svc, line, lineNum);
    StepByIntake(s, line, lineNum, total, svc, Pending(p), taken, r);
  }

  function RunInOrder(lines: seq<string>, k: nat, init: RunState, ops: Ops): RunState
    requires k <= |lines|
    decreases k
  {
    if k == 0 then init
    else StepInOrder(RunInOrder(lines, k - 1, init, ops), lines[k - 1], k, |lines|, ops)
  }

  /** The corrected loop leaves nothing in the buffer. */
  lemma InOrderDrains(lines: seq<string>, init: RunState, ops: Ops)
    requires init.pending == []
    ensures RunInOrder(lines, |lines|, init, ops).pending == []
  {
    if lines != [] {
      var k := |lines|;
      var s := RunInOrder(lines, k - 1, init, ops);
      if ops.intake(lines[k - 1], k).Pending? {
        assert ShouldFlush(|s.pending| + 1, k, k);
      }
    }
  }

  /** `out` is line p rewritten with some choice of translations. */
  ghost predicate IsRewriteOf(out: string, p: QueuedLine) {
    exists m: map<Key, string> :: out == RewriteLine(p, m)
  }

  /** Output line i stands for input line i. */
  ghost predicate Aligned(lines: seq<string>, results: seq<string>, ops: Ops)
  {
    && |results| <= |lines|
    && forall i | 0 <= i < |results| ::
         match ops.intake(lines[i], i + 1)
         case Verbatim(l) => results[i] == l
         case Pending(p) => IsRewriteOf(results[i], p)
  }

  /** The buffer holds exactly the lines right after the output, in order. */
  ghost predicate BufferFollows(lines: seq<string>, s: RunState, ops: Ops)
  {
    && |s.results| + |s.pending| <= |lines|
    && forall j | 0 <= j < |s.pending| ::
         ops.intake(lines[|s.results| + j], |s.results| + j + 1) == Pending(s.pending[j])
  }

  lemma FlushAligned(lines: seq<string>, s: RunState, ops: Ops)
    requires Aligned(lines, s.results, ops) && BufferFollows(lines, s, ops)
    ensures Aligned(lines, Flush(s, ops).results, ops)
  {
    var f := Flush(s, ops);
    var m := ops.translations(s.pending);
    forall i | 0 <= i < |f.results|
      ensures match ops.intake(lines[i], i + 1)
              case Verbatim(l) => f.results[i] == l
              case Pending(p) => IsRewriteOf(f.results[i], p)
    {
      if i >= |s.results| {
        var j := i - |s.results|;
        assert ops.intake(lines[i], i + 1) == Pending(s.pending[j]);
        assert f.results[i] == RewriteLine(s.pending[j], m);
      } else {
        assert f.results[i] == s.results[i];
      }
    }
  }

  lemma StepInOrderAligned(lines: seq<string>, s: RunState, k: nat, ops: Ops)
    requires 0 < k <= |lines| && |s.results| + |s.pending| == k - 1
    requires Aligned(lines, s.results, ops) && BufferFollows(lines, s, ops)
    ensures var r := StepInOrder(s, lines[k - 1], k, |lines|, ops);
      && |r.results| + |r.pending| == k
      && Aligned(lines, r.results, ops)
      && BufferFollows(lines, r, ops)
  {
    match ops.intake(lines[k - 1], k)
    case Verbatim(l) => PassedStepAligned(lines, s, k, l, ops);
    case Pending(p) => QueuedStepAligned(lines, s, k, p, ops);
  }

  /** A passed-through line is written after the flushed buffer. */
  lemma PassedStepAligned(lines: seq<string>, s: RunState, k: nat, l: string, ops: Ops)
    requires 0 < k <= |lines| && |s.results| + |s.pending| == k - 1
    requires Aligned(lines, s.results, ops) && BufferFollows(lines, s, ops)
    requires ops.intake(lines[k - 1], k) == Verbatim(l)
    ensures var r := StepInOrder(s, lines[k - 1], k, |lines|, ops);
      && r.pending == [] && |r.results| == k
      && Aligned(lines, r.results, ops)
  {
    var f := if s.pending != [] then Flush(s, ops) else s;
    if s.pending != [] {
      FlushAligned(lines, s, ops);
    }
    var r := StepInOrder(s, lines[k - 1], k, |lines|, ops);
    assert r.results == f.results + [l];
    forall i | 0 <= i < |r.results|
      ensures match ops.intake(lines[i], i + 1)
              case Verbatim(l) => r.results[i] == l
              case Pending(p) => IsRewriteOf(r.results[i], p)
    {
      if i < k - 1 {
        assert r.results[i] == f.results[i];
      }
    }
  }

  /** A queued line joins the end of the buffer, which may then be flushed. */
  lemma QueuedStepAligned(lines: seq<string>, s: RunState, k: nat, p: QueuedLine, ops: Ops)
    requires 0 < k <= |lines| && |s.results| + |s.pending| == k - 1
    requires Aligned(lines, s.results, ops) && BufferFollows(lines, s, ops)
    requires ops.intake(lines[k - 1], k) == Pending(p)
    ensures var r := StepInOrder(s, lines[k - 1], k, |lines|, ops);
      && |r.results| + |r.pending| == k
      && Aligned(lines, r.results, ops)
      && BufferFollows(lines, r, ops)
  {
    var line := lines[k - 1];
    var st := s.stats.(skippedCode := s.stats.skippedCode + ops.skipped(line));
    var s1 := s.(pending := s.pending + [p], stats := st);
    assert BufferFollows(lines, s1, ops) by {
      forall j | 0 <= j < |s1.pending|
        ensures ops.intake(lines[|s1.results| + j], |s1.results| + j + 1) == Pending(s1.pending[j])
      {
        if j < |s.pending| {
          assert s1.pending[j] == s.pending[j];
        }
      }
    }
    assert StepInOrder(s, line, k, |lines|, ops)
      == if ShouldFlush(|s1.pending|, k, |lines|) && s1.pending != [] then Flush(s1, ops) else s1;
    if ShouldFlush(|s1.pending|, k, |lines|) && s1.pending != [] {
      FlushAligned(lines, s1, ops);
    }
  }

  /** The corrected loop keeps the output aligned with the input: line i
      of the output is input line i passed through, or input line i
      rewritten, and the buffer holds the lines right after the output. */
  lemma {:induction false} InOrderAligned(lines: seq<string>, k: nat, st: Stats, ops: Ops)
    requires k <= |lines|
    ensures var s := RunInOrder(lines, k, Start(st, 0), ops);
      && |s.results| + |s.pending| == k
      && Aligned(lines, s.results, ops)
      && BufferFollows(lines, s, ops)
    decreases k
  {
    if k > 0 {
      InOrderAligned(lines, k - 1, st, ops);
      StepInOrderAligned(lines, RunInOrder(lines, k - 1, Start(st, 0), ops), k, ops);
    }
  }

  /** The corrected loop ends with an empty buffer and one output line per
      input line, each aligned with its input line. */
  lemma InOrderComplete(lines: seq<string>, st: Stats, ops: Ops)
    ensures var s := RunInOrder(lines, |lines|, Start(st, 0), ops);
      && s.pending == [] && |s.results| == |lines| && Aligned(lines, s.results, ops)
  {
    InOrderAligned(lines, |lines|, st, ops);
    if lines != [] {
      var k := |lines|;
      InOrderAligned(lines, k - 1, st, ops);
      var s := RunInOrder(lines, k - 1, Start(st, 0), ops);
      if ops.intake(lines[k - 1], k).Pending? {
        assert ShouldFlush(|s.pending| + 1, k, k);
      }
    }
  }

  /** On a queued line the two loops take the same step. */
  lemma StepsAgree(s: RunState, line: string, n: nat, total: nat, ops: Ops)
    requires ops.intake(line, n).Pending?
    ensures StepInOrder(s, line, n, total, ops) == Step(s, line, n, total, ops)
  {
  }

  /** Runs that agree up to a queued line agree after it. */
  lemma RunsAgreeStep(lines: seq<string>, k: nat, init: RunState, ops: Ops)
    requires 0 < k <= |lines| && ops.intake(lines[k - 1], k).Pending?
    requires RunInOrder(lines, k - 1, init, ops) == RunBatch(lines, k - 1, init, ops)
    ensures RunInOrder(lines, k, init, ops) == RunBatch(lines, k, init, ops)
  {
    StepsAgree(RunBatch(lines, k - 1, init, ops), lines[k - 1], k, |lines|, ops);
  }

  /** Where no line passes through, the two loops agree. */
  lemma {:induction false} InOrderAgrees(lines: seq<string>, k: nat, init: RunState, ops: Ops)
    requires k <= |lines|
    requires forall i | 0 <= i < |lines| :: ops.intake(lines[i], i + 1).Pending?
    ensures RunInOrder(lines, k, init, ops) == RunBatch(lines, k, init, ops)
    decreases k
  {
    if k > 0 {
      InOrderAgrees(lines, k - 1, init, ops);
      RunsAgreeStep(lines, k, init, ops);
    }
  }
}
