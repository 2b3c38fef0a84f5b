/** The translator object: it owns the run's counters and carries out each
    step imperatively. Every method is proved to compute what the matching
    specification function says, and to move the counters as that
    function says. */
module Translator {
  import opened Text
  import opened Classifier
  import opened Scanner
  import opened Codec
  import opened Rewrite
  import opened Chunking
  import opened Pipeline
  import opened Lines
  import opened Driver

  class AutoTranslator {
    /** The calls to the external translation command. */
    const svc: Service
    var stats: Stats
    /** Pauses taken so far; each one is a sleep of half a second. */
    ghost var pauses: nat

    /** A fresh translator over the given external command, with every
        counter at zero. */
    constructor(oracle: Oracle)
      ensures svc == ServiceOf(oracle) && stats == NoStats && pauses == 0
    {
      svc := ServiceOf(oracle);
      stats := NoStats;
      pauses := 0;
    }

    /** One text through a single translation call, with its counters. */
    method TranslateText(text: string) returns (r: string)
      modifies this
      ensures r == TranslateTextValue(text, svc)
      ensures stats == RecordText(old(stats), TextStatusOf(text, svc)) && pauses == old(pauses)
    {
      stats := stats.(totalProcessed := stats.totalProcessed + 1);
      if IsBlank(text) {
        BlankTextStatus(text, svc);
        stats := stats.(emptyInput := stats.emptyInput + 1);
        return text;
      }
      var outcome := svc.single(text);
      match outcome
      case Err(e) =>
        FailedTextStatus(text, svc, e);
        if IsTimeoutError(e) {
          stats := stats.(errors := stats.errors + 1);
        } else {
          stats := stats.(failed := stats.failed + 1);
        }
        r := text;
      case Ok(t) =>
        TranslatedTextStatus(text, svc, t);
        // A validated single translation is never empty, so the source's
        // empty-output branch is not reached here.
        stats := stats.(success := stats.success + 1);
        r := t;
    }

    /** One chunk of queued spans: a batch call, or on its failure one
        single call per span; the result is keyed by line number and text. */
    method ProcessBatchTranslation(items: seq<BatchItem>) returns (m: map<Key, string>)
      modifies this
      ensures m == ChunkMap(items, svc)
      ensures stats == ChunkStats(old(stats), items, svc) && pauses == old(pauses)
    {
      if items == [] {
        return map[];
      }
      ChunkIsOutcome(stats, items, svc);
      var outcome := svc.batch(Texts(items));
      match outcome
      case Ok(ts) =>
        OutcomeOnOk(stats, items, ts, svc);
        stats := stats.(batchSuccess := stats.batchSuccess + 1,
                        totalProcessed := stats.totalProcessed + |items|,
                        success := stats.success + |ts|);
        m := ZipTranslations(Keys(items), ts);
      case Err(e) =>
        OutcomeOnErr(stats, items, e, svc);
        OutcomeStatsOnErr(stats, items, e, svc);
        stats := stats.(batchFailed := stats.batchFailed + 1,
                        fallbackIndividual := stats.fallbackIndividual + |items|);
        m := TranslateEach(items);
    }

    /** The result dict of a successful batch call, filled key by key. */
    method ZipTranslations(keys: seq<Key>, ts: seq<string>) returns (m: map<Key, string>)
      requires |keys| == |ts|
      ensures m == ZipMap(keys, ts)
    {
      m := map[];
      var i := 0;
      while i < |keys|
        invariant 0 <= i <= |keys|
        invariant m == ZipMap(keys[..i], ts[..i])
      {
        ZipMapStep(keys, ts, i);
        m := m[keys[i] := ts[i]];
        i := i + 1;
      }
      assert keys[..|keys|] == keys && ts[..|keys|] == ts;
    }

    /** The fallback of a failed batch call: one single call per span, in
        item order. */
    method TranslateEach(items: seq<BatchItem>) returns (m: map<Key, string>)
      modifies this
      ensures m == ZipMap(Keys(items), FallbackValues(items, svc))
      ensures stats == FallbackStats(old(stats), items, svc) && pauses == old(pauses)
    {
      var keys := Keys(items);
      ghost var vals := FallbackValues(items, svc);
      ghost var statuses := Statuses(items, svc);
      m := map[];
      var i := 0;
      while i < |items|
        invariant 0 <= i <= |items|
        invariant m == ZipMap(keys[..i], vals[..i])
        invariant stats == RecordAll(old(stats), statuses[..i])
        invariant pauses == old(pauses)
      {
        ZipMapStep(keys, vals, i);
        RecordAllStep(old(stats), statuses, i);
        FallbackAt(items, svc, i);
        StatusAt(items, svc, i);
        var t := TranslateText(items[i].text);
        m := m[keys[i] := t];
        i := i + 1;
      }
      assert keys[..|items|] == keys && vals[..|items|] == vals && statuses[..|items|] == statuses;
      assert stats == RecordAll(old(stats), Statuses(items, svc));
    }

    // ------------------------------------------------------ line intake

    /** Batch-mode intake of one line: pass it through, or queue it with
        the spans to translate, counting every other span as skipped code. */
    method ProcessLine(line: string, lineNum: nat) returns (r: Intake)
      modifies this
      ensures r == IntakeLine(line, lineNum)
      ensures stats == old(stats).(skippedCode := old(stats).skippedCode + IntakeSkipped(line))
      ensures pauses == old(pauses)
    {
      if PassesThrough(line) {
        IntakePassed(line, lineNum);
        r := Verbatim(line);
      } else {
        var p := QueueMatches(line, lineNum);
        r := Pending(p);
      }
    }

    /** A line that does not pass through: its matches, and the ones chosen
        for translation. */
    method QueueMatches(line: string, lineNum: nat) returns (p: QueuedLine)
      requires !PassesThrough(line)
      modifies this
      ensures IntakeLine(line, lineNum) == Pending(p)
      ensures stats == old(stats).(skippedCode := old(stats).skippedCode + IntakeSkipped(line))
      ensures pauses == old(pauses)
    {
      var original := RStrip(line);
      var ms := FindQuotes(original);
      var chosen := SelectSpans(original, ms);
      IntakeQueued(line, lineNum, original, ms, chosen);
      p := PendingLine(lineNum, original, ms, chosen);
    }

    /** The matches worth translating, in order; every other match is
        counted once as skipped code. */
    method SelectSpans(original: string, ms: seq<Match>) returns (chosen: seq<Match>)
      modifies this
      ensures chosen == Chosen(original, ms)
      ensures stats == old(stats).(skippedCode := old(stats).skippedCode + SkippedCount(original, ms))
      ensures pauses == old(pauses)
    {
      ghost var mask := QueuedMask(original, ms);
      chosen := [];
      var i := 0;
      while i < |ms|
        invariant 0 <= i <= |ms|
        invariant chosen == Filter(ms[..i], mask[..i])
        invariant stats == old(stats).(skippedCode := old(stats).skippedCode + CountUnset(mask[..i]))
        invariant pauses == old(pauses)
      {
        chosen := SelectNext(old(stats), original, ms, i, chosen);
        i := i + 1;
      }
      assert ms[..|ms|] == ms && mask[..|ms|] == mask;
    }

    /** One match of the selection loop: queued, or counted as skipped code. */
    method SelectNext(ghost st0: Stats, original: string, ms: seq<Match>, i: nat, chosen: seq<Match>)
      returns (chosen': seq<Match>)
      requires i < |ms|
      requires chosen == Filter(ms[..i], QueuedMask(original, ms)[..i])
      requires stats == st0.(skippedCode := st0.skippedCode + CountUnset(QueuedMask(original, ms)[..i]))
      modifies this
      ensures chosen' == Filter(ms[..i + 1], QueuedMask(original, ms)[..i + 1])
      ensures stats == st0.(skippedCode := st0.skippedCode + CountUnset(QueuedMask(original, ms)[..i + 1]))
      ensures pauses == old(pauses)
    {
      FilterStep(ms, QueuedMask(original, ms), i);
      QueuedMaskAt(original, ms, i);
      if Queued(original, ms[i]) {
        chosen' := chosen + [ms[i]];
      } else {
        chosen' := chosen;
        stats := stats.(skippedCode := stats.skippedCode + 1);
      }
    }

    /** Sequential mode for one line: every match is replaced by its single
        translation, or kept when it is code, as `re.sub` with a callback. */
    method ProcessLineSequential(line: string) returns (r: string)
      modifies this
      ensures r == SequentialLine(line, svc)
      ensures stats == SequentialLineStats(old(stats), line, svc) && pauses == old(pauses)
    {
      if PassesThrough(line) {
        return line;
      }
      var original := RStrip(line);
      var ms := FindQuotes(original);
      var vals := TranslateMatches(original, ms);
      r := SubstituteAll(original, ms, vals);
      r := r + "\n";
    }

    /** The replacement of each match, left to right: skipped code keeps its
        text, anything else goes through one single translation. */
    method TranslateMatches(original: string, ms: seq<Match>) returns (vals: seq<string>)
      modifies this
      ensures vals == SequentialValues(original, ms, svc)
      ensures stats == RecordSequential(old(stats), SequentialOutcomes(original, ms, svc))
      ensures pauses == old(pauses)
    {
      vals := [];
      var i := 0;
      while i < |ms|
        invariant 0 <= i <= |ms|
        invariant vals == SequentialValues(original, ms[..i], svc)
        invariant stats == RecordSequential(old(stats), SequentialOutcomes(original, ms[..i], svc))
        invariant pauses == old(pauses)
      {
        SequentialStep(original, ms, svc, i);
        RecordSequentialSnoc(old(stats), SequentialOutcomes(original, ms[..i], svc), SequentialOutcome(original, ms[i], svc));
        var v := TranslateMatch(original, ms[i]);
        vals := vals + [v];
        i := i + 1;
      }
      assert ms[..|ms|] == ms;
    }

    /** The callback for one match: its single translation, or the text
        kept as it is and counted as skipped code. */
    method TranslateMatch(original: string, m: Match) returns (v: string)
      modifies this
      ensures v == SequentialValue(original, m, svc)
      ensures var o := SequentialOutcome(original, m, svc);
        stats == if o.None? then old(stats).(skippedCode := old(stats).skippedCode + 1) else RecordText(old(stats), o.value)
      ensures pauses == old(pauses)
    {
      if Accepted(original, m) {
        v := TranslateText(m.content);
      } else {
        stats := stats.(skippedCode := stats.skippedCode + 1);
        v := m.content;
      }
    }

    // ------------------------------------------------ the buffered lines

    /** The queued spans of the buffered lines as batch items, line after
        line and span after span. */
    method CollectItems(pending: seq<QueuedLine>) returns (items: seq<BatchItem>)
      ensures items == AllItems(pending)
    {
      items := [];
      var i := 0;
      while i < |pending|
        invariant 0 <= i <= |pending|
        invariant items == AllItems(pending[..i])
      {
        var p := pending[i];
        var j := 0;
        while j < |p.chosen|
          invariant 0 <= j <= |p.chosen|
          invariant items == AllItems(pending[..i]) + LineItems(p)[..j]
        {
          assert LineItems(p)[..j + 1] == LineItems(p)[..j] + [BatchItem(p.chosen[j].content, p.lineNum, p.chosen[j])];
          items := items + [BatchItem(p.chosen[j].content, p.lineNum, p.chosen[j])];
          j := j + 1;
        }
        assert LineItems(p)[..j] == LineItems(p);
        AllItemsStep(pending, i);
        i := i + 1;
      }
      assert pending[..i] == pending;
    }

    /** The items translated chunk by chunk, the maps merged in order, with
        a pause after every full chunk. */
    method TranslateChunks(items: seq<BatchItem>) returns (all: map<Key, string>)
      modifies this
      ensures all == MergeMaps(Chunks(items, BatchSize), svc)
      ensures stats == MergeStats(old(stats), Chunks(items, BatchSize), svc)
      ensures pauses == old(pauses) + CountFull(Chunks(items, BatchSize), BatchSize)
    {
      all := map[];
      ghost var done: seq<seq<BatchItem>> := [];
      var i := 0;
      assert items[0..] == items;
      while i < |items|
        invariant 0 <= i <= |items|
        invariant Chunks(items, BatchSize) == done + Chunks(items[i..], BatchSize)
        invariant all == MergeMaps(done, svc)
        invariant stats == MergeStats(old(stats), done, svc)
        invariant pauses == old(pauses) + CountFull(done, BatchSize)
      {
        var j := if i + BatchSize <= |items| then i + BatchSize else |items|;
        ChunksAdvance(items, BatchSize, i, done);
        all := TranslateNextChunk(old(stats), old(pauses), done, all, items[i..j]);
        done := done + [items[i..j]];
        i := j;
      }
      ChunksDone(items, BatchSize, done);
    }

    /** One pass of the chunk loop: the chunk's translations merged into
        the result dict, and a pause after a full chunk. */
    method TranslateNextChunk(ghost st0: Stats, ghost p0: nat, ghost done: seq<seq<BatchItem>>,
                              all: map<Key, string>, batch: seq<BatchItem>)
      returns (all': map<Key, string>)
      modifies this
      requires all == MergeMaps(done, svc)
      requires stats == MergeStats(st0, done, svc)
      requires pauses == p0 + CountFull(done, BatchSize)
      ensures all' == MergeMaps(done + [batch], svc)
      ensures stats == MergeStats(st0, done + [batch], svc)
      ensures pauses == p0 + CountFull(done + [batch], BatchSize)
    {
      MergeSnoc(st0, done, batch, svc);
      CountFullSnoc(done, batch, BatchSize);
      var m := ProcessBatchTranslation(batch);
      all' := all + m;
      if |batch| >= BatchSize {
        pauses := pauses + 1;
      }
    }

    /** Every buffered line rewritten with the translations. */
    method RewriteLines(pending: seq<QueuedLine>, all: map<Key, string>) returns (out: seq<string>)
      ensures out == RewriteAll(pending, all)
    {
      out := [];
      var i := 0;
      while i < |pending|
        invariant 0 <= i <= |pending|
        invariant |out| == i && forall k | 0 <= k < i :: out[k] == RewriteLine(pending[k], all)
      {
        var p := pending[i];
        var line := ApplyDescending(p.original, p.chosen, ChosenValues(p, all));
        out := out + [line + "\n"];
        i := i + 1;
      }
    }

    /** The buffer of queued lines translated and rewritten: one output
        line per buffered line, in order. */
    method ProcessPendingLines(pending: seq<QueuedLine>) returns (out: seq<string>)
      modifies this
      ensures out == RewritePending(pending, svc)
      ensures stats == PendingStats(old(stats), pending, svc)
      ensures pauses == old(pauses) + PendingPauses(pending)
    {
      var items := CollectItems(pending);
      var all := TranslateChunks(items);
      out := RewriteLines(pending, all);
    }

    // ------------------------------------------------------- the driver

    /** One iteration of the batch driver. */
    method BatchStep(results: seq<string>, pending: seq<QueuedLine>, line: string, lineNum: nat, total: nat)
      returns (results': seq<string>, pending': seq<QueuedLine>)
      modifies this
      ensures RunState(results', pending', stats, pauses)
        == Step(RunState(results, pending, old(stats), old(pauses)), line, lineNum, total, BatchOps(svc))
    {
      var processed := ProcessLine(line, lineNum);
      ghost var taken := stats;
      results', pending' := AdvanceBatch(results, pending, processed, lineNum, total);
      StepByIntake(RunState(results, pending, old(stats), old(pauses)), line, lineNum, total, svc,
                   processed, taken, RunState(results', pending', stats, pauses));
    }

    /** What the driver does with a line once it is taken in. */
    method AdvanceBatch(results: seq<string>, pending: seq<QueuedLine>, processed: Intake, lineNum: nat, total: nat)
      returns (results': seq<string>, pending': seq<QueuedLine>)
      modifies this
      ensures RunState(results', pending', stats, pauses)
        == Advance(RunState(results, pending, old(stats), old(pauses)), processed, lineNum, total, BatchOps(svc))
    {
      match processed
      case Verbatim(l) =>
        results', pending' := results + [l], pending;
      case Pending(p) =>
        results', pending' := QueueLine(results, pending, p, lineNum, total);
    }

    /** A queued line joins the buffer, which is flushed when it holds a
        full batch, at the last line and every hundred lines. */
    method QueueLine(results: seq<string>, pending: seq<QueuedLine>, p: QueuedLine, lineNum: nat, total: nat)
      returns (results': seq<string>, pending': seq<QueuedLine>)
      modifies this
      ensures var s1 := RunState(results, pending + [p], old(stats), old(pauses));
        RunState(results', pending', stats, pauses)
          == if ShouldFlush(|s1.pending|, lineNum, total) then Flush(s1, BatchOps(svc)) else s1
    {
      results', pending' := results, pending + [p];
      ghost var s1 := RunState(results, pending', stats, pauses);
      FlushLineIsMod(lineNum);
      var full := |pending'| >= BatchSize || lineNum == total || lineNum % FlushEvery == 0;
      assert full == ShouldFlush(|pending'|, lineNum, total);
      if full && pending' != [] {
        FlushBatchOps(s1, svc);
        var batch := ProcessPendingLines(pending');
        results', pending' := results + batch, [];
      }
    }

    /** The batch driver over the lines of a file, as written: the buffer
        is flushed only from the queued-line branch. */
    method RunBatchMode(lines: seq<string>) returns (results: seq<string>)
      modifies this
      ensures var s := RunBatch(lines, |lines|, Start(old(stats), old(pauses)), BatchOps(svc));
        results == s.results && stats == s.stats && pauses == s.pauses
    {
      results := [];
      var pending: seq<QueuedLine> := [];
      var i := 0;
      while i < |lines|
        invariant 0 <= i <= |lines|
        invariant RunState(results, pending, stats, pauses)
          == RunBatch(lines, i, Start(old(stats), old(pauses)), BatchOps(svc))
      {
        results, pending := BatchStep(results, pending, lines[i], i + 1, |lines|);
        i := i + 1;
      }
    }

    /** One iteration of the corrected batch driver: before a passed-through
        line is written, the buffered lines are flushed. */
    method BatchStepInOrder(results: seq<string>, pending: seq<QueuedLine>, line: string, lineNum: nat, total: nat)
      returns (results': seq<string>, pending': seq<QueuedLine>)
      modifies this
      ensures RunState(results', pending', stats, pauses)
        == StepInOrder(RunState(results, pending, old(stats), old(pauses)), line, lineNum, total, BatchOps(svc))
    {
      ghost var s := RunState(results, pending, stats, pauses);
      var processed := ProcessLine(line, lineNum);
      ghost var taken := stats;
      match processed
      case Verbatim(l) =>
        IntakeVerbatim(line, lineNum);
        BatchOpsIntake(svc, line, lineNum);
        InOrderPassed(s, line, lineNum, total, BatchOps(svc), l);
        results', pending' := PassLine(results, pending, l);
      case Pending(p) =>
        results', pending' := QueueLine(results, pending, p, lineNum, total);
        InOrderQueuedByIntake(s, line, lineNum, total, svc, p, taken, RunState(results', pending', stats, pauses));
    }

    /** A passed-through line written after the buffered lines. */
    method PassLine(results: seq<string>, pending: seq<QueuedLine>, l: string)
      returns (results': seq<string>, pending': seq<QueuedLine>)
      modifies this
      ensures var s := RunState(results, pending, old(stats), old(pauses));
        var f := if pending != [] then Flush(s, BatchOps(svc)) else s;
        RunState(results', pending', stats, pauses) == f.(results := f.results + [l])
    {
      results', pending' := FlushBuffer(results, pending);
      results' := results' + [l];
    }

    /** The buffered lines, if any, translated and appended to the output. */
    method FlushBuffer(results: seq<string>, pending: seq<QueuedLine>)
      returns (results': seq<string>, pending': seq<QueuedLine>)
      modifies this
      ensures var s := RunState(results, pending, old(stats), old(pauses));
        RunState(results', pending', stats, pauses) == if pending != [] then Flush(s, BatchOps(svc)) else s
    {
      results', pending' := results, pending;
      if pending != [] {
        FlushBatchOps(RunState(results, pending, stats, pauses), svc);
        var batch := ProcessPendingLines(pending);
        results', pending' := results + batch, [];
      }
    }

    /** The corrected batch driver: it writes every line of the file, in
        input order (Driver.InOrderComplete). */
    method RunBatchModeInOrder(lines: seq<string>) returns (results: seq<string>)
      modifies this
      ensures var s := RunInOrder(lines, |lines|, Start(old(stats), old(pauses)), BatchOps(svc));
        results == s.results && stats == s.stats && pauses == s.pauses && s.pending == []
    {
      results := [];
      var pending: seq<QueuedLine> := [];
      var i := 0;
      while i < |lines|
        invariant 0 <= i <= |lines|
        invariant RunState(results, pending, stats, pauses)
          == RunInOrder(lines, i, Start(old(stats), old(pauses)), BatchOps(svc))
      {
        results, pending := BatchStepInOrder(results, pending, lines[i], i + 1, |lines|);
        i := i + 1;
      }
      InOrderDrains(lines, Start(old(stats), old(pauses)), BatchOps(svc));
    }

    /** The sequential driver: each line processed on its own, with a pause
        after every line. */
    method RunSequentialMode(lines: seq<string>) returns (results: seq<string>)
      modifies this
      ensures results == SequentialRun(lines, svc)
      ensures stats == SequentialRunStats(old(stats), lines, svc)
      ensures pauses == old(pauses) + |lines|
    {
      results := [];
      var i := 0;
      while i < |lines|
        invariant 0 <= i <= |lines|
        invariant results == SequentialRun(lines[..i], svc)
        invariant stats == SequentialRunStats(old(stats), lines[..i], svc)
        invariant pauses == old(pauses) + i
      {
        SequentialRunStep(old(stats), lines, svc, i);
        var r := ProcessLineSequential(lines[i]);
        results := results + [r];
        pauses := pauses + 1;
        i := i + 1;
        assert results == SequentialRun(lines[..i], svc);
        assert stats == SequentialRunStats(old(stats), lines[..i], svc);
      }
      assert lines[..i] == lines;
    }
  }
}
