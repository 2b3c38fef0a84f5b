/** One line of the script: how it is taken in (passed through, or queued
    with the spans to translate), how a queued line is rewritten once the
    translations are known, and how the sequential mode rewrites a line. */
module Lines {
  import opened Text
  import opened Classifier
  import opened Scanner
  import opened Codec
  import opened Rewrite
  import opened Chunking
  import opened Pipeline

  /** Blank lines and lines that begin with `#` or `$` once stripped are
      written out as they came in, line ending included. */
  predicate PassesThrough(line: string) {
    var t := Strip(RStrip(line));
    t == [] || StartsWith(t, "#") || StartsWith(t, "$")
  }

  /** The classifier accepts the span. (Scanner matches always start inside
      the line; the first conjunct only keeps the classifier's precondition.) */
  predicate Accepted(original: string, m: Match) {
    m.start <= |original| && ShouldTranslate(original, m.start, m.content)
  }

  /** In batch mode a span is queued when the classifier accepts it and its
      text is not blank. */
  predicate Queued(original: string, m: Match) {
    Accepted(original, m) && !IsBlank(m.content)
  }

  /** The spans whose flag is set, in order. */
  function Filter(ms: seq<Match>, keep: seq<bool>): (r: seq<Match>)
    requires |keep| == |ms|
    ensures |r| <= |ms|
    decreases |ms|
  {
    if ms == [] then []
    else
      var n := |ms| - 1;
      var rest := Filter(ms[..n], keep[..n]);
      if keep[n] then rest + [ms[n]] else rest
  }

  function CountUnset(keep: seq<bool>): nat
    decreases |keep|
  {
    if keep == [] then 0 else CountUnset(keep[..|keep| - 1]) + (if keep[|keep| - 1] then 0 else 1)
  }

  /** Only flagged spans are kept. */
  lemma {:induction false} FilterMembers(ms: seq<Match>, keep: seq<bool>)
    requires |keep| == |ms|
    ensures forall m | m in Filter(ms, keep) :: exists j | 0 <= j < |ms| :: keep[j] && ms[j] == m
    decreases |ms|
  {
    if ms != [] {
      var n := |ms| - 1;
      var rest := Filter(ms[..n], keep[..n]);
      FilterMembers(ms[..n], keep[..n]);
      forall m | m in Filter(ms, keep) ensures exists j | 0 <= j < |ms| :: keep[j] && ms[j] == m {
        if m in rest {
          var j :| 0 <= j < n && keep[..n][j] && ms[..n][j] == m;
          assert keep[j] && ms[j] == m;
        } else {
          assert keep[n] && ms[n] == m;
        }
      }
    }
  }

  /** Every span is either kept or counted as unset, never both, and no
      flagged span is lost. */
  lemma {:induction false} FilterPartition(ms: seq<Match>, keep: seq<bool>)
    requires |keep| == |ms|
    ensures |Filter(ms, keep)| + CountUnset(keep) == |ms|
    ensures forall j | 0 <= j < |ms| && keep[j] :: ms[j] in Filter(ms, keep)
    decreases |ms|
  {
    if ms != [] {
      var n := |ms| - 1;
      var rest := Filter(ms[..n], keep[..n]);
      FilterPartition(ms[..n], keep[..n]);
      assert CountUnset(keep) == CountUnset(keep[..n]) + (if keep[n] then 0 else 1);
      assert Filter(ms, keep) == if keep[n] then rest + [ms[n]] else rest;
      forall j | 0 <= j < |ms| && keep[j] ensures ms[j] in Filter(ms, keep) {
        if j < n {
          assert ms[..n][j] == ms[j] && keep[..n][j];
          assert ms[j] in rest;
        }
      }
    }
  }

  /** Kept spans all end by `bound` when every span does. */
  lemma {:induction false} FilterBounded(ms: seq<Match>, keep: seq<bool>, bound: nat)
    requires |keep| == |ms|
    requires forall j | 0 <= j < |ms| :: ms[j].end <= bound
    ensures forall i | 0 <= i < |Filter(ms, keep)| :: Filter(ms, keep)[i].end <= bound
    decreases |ms|
  {
    if ms != [] {
      var n := |ms| - 1;
      FilterBounded(ms[..n], keep[..n], bound);
    }
  }

  lemma WellFormedPrefix(line: string, ms: seq<Match>, n: nat)
    requires WellFormed(line, ms) && n <= |ms|
    ensures WellFormed(line, ms[..n])
  {
    var pre := ms[..n];
    forall i, j | 0 <= i < j < |pre| ensures pre[i].end <= pre[j].start {
      assert pre[i] == ms[i] && pre[j] == ms[j];
    }
    forall i | 0 <= i < |pre| ensures IsQuoted(line, pre[i]) && pre[i].start <= pre[i].end <= |line| {
      assert pre[i] == ms[i];
    }
  }

  lemma WellFormedSnoc(line: string, rest: seq<Match>, m: Match)
    requires WellFormed(line, rest) && IsQuoted(line, m)
    requires forall i | 0 <= i < |rest| :: rest[i].end <= m.start
    ensures WellFormed(line, rest + [m])
  {
    var r := rest + [m];
    forall i, j | 0 <= i < j < |r| ensures r[i].end <= r[j].start {
      if j < |rest| {
        assert r[i] == rest[i] && r[j] == rest[j];
      } else {
        assert r[i] == rest[i] && r[j] == m;
      }
    }
    forall i | 0 <= i < |r| ensures IsQuoted(line, r[i]) && r[i].start <= r[i].end <= |line| {
      if i < |rest| {
        assert r[i] == rest[i];
      }
    }
  }

  /** The kept spans keep the scanner's order and stay genuine matches. */
  lemma {:induction false} FilterWellFormed(line: string, ms: seq<Match>, keep: seq<bool>)
    requires |keep| == |ms| && WellFormed(line, ms)
    ensures WellFormed(line, Filter(ms, keep))
    decreases |ms|
  {
    if ms != [] {
      var n := |ms| - 1;
      var pre := ms[..n];
      WellFormedPrefix(line, ms, n);
      FilterWellFormed(line, pre, keep[..n]);
      if keep[n] {
        forall j | 0 <= j < |pre| ensures pre[j].end <= ms[n].start {
          assert pre[j] == ms[j];
        }
        FilterBounded(pre, keep[..n], ms[n].start);
        WellFormedSnoc(line, Filter(pre, keep[..n]), ms[n]);
      }
    }
  }

  /** One more span of the intake loop. */
  lemma FilterStep(ms: seq<Match>, keep: seq<bool>, i: nat)
    requires |keep| == |ms| && i < |ms|
    ensures keep[i] ==> Filter(ms[..i + 1], keep[..i + 1]) == Filter(ms[..i], keep[..i]) + [ms[i]]
    ensures !keep[i] ==> Filter(ms[..i + 1], keep[..i + 1]) == Filter(ms[..i], keep[..i])
    ensures CountUnset(keep[..i + 1]) == CountUnset(keep[..i]) + (if keep[i] then 0 else 1)
  {
    assert ms[..i + 1][..i] == ms[..i] && keep[..i + 1][..i] == keep[..i];
  }

  function QueuedMask(original: string, ms: seq<Match>): (r: seq<bool>)
    ensures |r| == |ms|
  {
    seq(|ms|, i requires 0 <= i < |ms| => Queued(original, ms[i]))
  }

  /** Entry i of the mask says whether match i is queued. */
  lemma QueuedMaskAt(original: string, ms: seq<Match>, i: nat)
    requires i < |ms|
    ensures QueuedMask(original, ms)[i] == Queued(original, ms[i])
  {
  }

  /** The queued spans, in scan order. */
  function Chosen(original: string, ms: seq<Match>): seq<Match> {
    Filter(ms, QueuedMask(original, ms))
  }

  /** How many spans were not queued; each one counts as skipped code. */
  function SkippedCount(original: string, ms: seq<Match>): nat {
    CountUnset(QueuedMask(original, ms))
  }

  // ------------------------------------------------- batch-mode line intake

  /** A line waiting for its translations. */
  datatype PendingLine = PendingLine(lineNum: nat, original: string, matches: seq<Match>, chosen: seq<Match>)

  predicate ValidPending(p: PendingLine) {
    WellFormed(p.original, p.chosen)
  }

  /** A pending line whose chosen spans are genuine, ordered matches. */
  type QueuedLine = p: PendingLine | ValidPending(p) witness PendingLine(0, [], [], [])

  /** What taking in one line yields in batch mode. */
  datatype Intake = Verbatim(line: string) | Pending(p: QueuedLine)

  function IntakeLine(line: string, lineNum: nat): (r: Intake)
    ensures r.Pending? ==> r.p.lineNum == lineNum
  {
    if PassesThrough(line) then Verbatim(line)
    else
      var original := RStrip(line);
      var ms := FindQuotes(original);
      FilterWellFormed(original, ms, QueuedMask(original, ms));
      Pending(PendingLine(lineNum, original, ms, Chosen(original, ms)))
  }

  /** Skipped-code count of taking in one line. */
  function IntakeSkipped(line: string): nat {
    if PassesThrough(line) then 0
    else SkippedCount(RStrip(line), FindQuotes(RStrip(line)))
  }

  /** Blank, comment and `$` lines come back as they are, counting nothing. */
  lemma IntakePassed(line: string, lineNum: nat)
    requires PassesThrough(line)
    ensures IntakeLine(line, lineNum) == Verbatim(line) && IntakeSkipped(line) == 0
  {
  }

  /** Only the lines that pass through come back as they are. */
  lemma IntakeVerbatim(line: string, lineNum: nat)
    requires IntakeLine(line, lineNum).Verbatim?
    ensures PassesThrough(line) && IntakeLine(line, lineNum).line == line && IntakeSkipped(line) == 0
  {
  }

  /** A line that does not pass through is queued as its trailing-stripped
      text, its matches and the matches chosen from them. */
  lemma IntakeQueued(line: string, lineNum: nat, original: string, ms: seq<Match>, chosen: seq<Match>)
    requires !PassesThrough(line) && original == RStrip(line) && ms == FindQuotes(original)
    requires chosen == Chosen(original, ms)
    ensures ValidPending(PendingLine(lineNum, original, ms, chosen))
    ensures IntakeLine(line, lineNum) == Pending(PendingLine(lineNum, original, ms, chosen))
    ensures IntakeSkipped(line) == SkippedCount(original, ms)
  {
    FilterWellFormed(original, ms, QueuedMask(original, ms));
  }

  /** Each match is either chosen or counted once as skipped; the chosen
      ones are exactly the matches the classifier queues. */
  lemma ChosenAccounts(original: string, ms: seq<Match>)
    ensures |Chosen(original, ms)| + SkippedCount(original, ms) == |ms|
    ensures forall m | m in ms && Queued(original, m) :: m in Chosen(original, ms)
    ensures forall m | m in Chosen(original, ms) :: m in ms && Queued(original, m)
  {
    var mask := QueuedMask(original, ms);
    FilterPartition(ms, mask);
    FilterMembers(ms, mask);
    var r := Filter(ms, mask);
    forall m | m in r ensures m in ms && Queued(original, m) {
      var j :| 0 <= j < |ms| && mask[j] && ms[j] == m;
      QueuedMaskAt(original, ms, j);
    }
    forall m | m in ms && Queued(original, m) ensures m in r {
      var j :| 0 <= j < |ms| && ms[j] == m;
      QueuedMaskAt(original, ms, j);
    }
  }

  /** A line that does not pass through is queued with the trailing
      whitespace removed; each of its matches is either queued for
      translation or counted once as skipped code, and every match that the
      classifier accepts and that is not blank is queued. */
  lemma IntakeAccounts(line: string, lineNum: nat)
    requires !PassesThrough(line)
    ensures var p := IntakeLine(line, lineNum).p;
      && p.original == RStrip(line)
      && p.matches == FindQuotes(p.original)
      && |p.chosen| + IntakeSkipped(line) == |p.matches|
      && (forall m | m in p.matches && Queued(p.original, m) :: m in p.chosen)
      && (forall m | m in p.chosen :: m in p.matches && Queued(p.original, m))
  {
    var original := RStrip(line);
    var ms := FindQuotes(original);
    IntakeQueued(line, lineNum, original, ms, Chosen(original, ms));
    ChosenAccounts(original, ms);
  }

  // ------------------------------------------- rewriting the queued lines

  /** The queued spans of one line as batch items, in span order. */
  function LineItems(p: PendingLine): (r: seq<BatchItem>)
    ensures |r| == |p.chosen|
    ensures forall j | 0 <= j < |r| :: r[j] == BatchItem(p.chosen[j].content, p.lineNum, p.chosen[j])
  {
    seq(|p.chosen|, j requires 0 <= j < |p.chosen| => BatchItem(p.chosen[j].content, p.lineNum, p.chosen[j]))
  }

  /** All queued spans of the buffered lines, line after line. */
  function AllItems(ps: seq<PendingLine>): seq<BatchItem>
    decreases |ps|
  {
    if ps == [] then [] else AllItems(ps[..|ps| - 1]) + LineItems(ps[|ps| - 1])
  }

  /** The chunks' maps merged in order: a later entry wins. */
  function MergeMaps(chunks: seq<seq<BatchItem>>, svc: Service): map<Key, string>
    decreases |chunks|
  {
    if chunks == [] then map[]
    else MergeMaps(chunks[..|chunks| - 1], svc) + ChunkMap(chunks[|chunks| - 1], svc)
  }

  function MergeStats(st: Stats, chunks: seq<seq<BatchItem>>, svc: Service): Stats
    decreases |chunks|
  {
    if chunks == [] then st
    else ChunkStats(MergeStats(st, chunks[..|chunks| - 1], svc), chunks[|chunks| - 1], svc)
  }

  function PendingChunks(ps: seq<PendingLine>): seq<seq<BatchItem>> {
    Chunks(AllItems(ps), BatchSize)
  }

  /** Every translation obtained for the buffered lines. */
  function Translations(ps: seq<PendingLine>, svc: Service): map<Key, string> {
    MergeMaps(PendingChunks(ps), svc)
  }

  /** Counters after translating the buffered lines. */
  function PendingStats(st: Stats, ps: seq<PendingLine>, svc: Service): Stats {
    MergeStats(st, PendingChunks(ps), svc)
  }

  /** Pauses taken while translating the buffered lines: one after each full chunk. */
  function PendingPauses(ps: seq<PendingLine>): nat {
    CountFull(PendingChunks(ps), BatchSize)
  }

  /** One more buffered line's items. */
  lemma AllItemsStep(ps: seq<PendingLine>, i: nat)
    requires i < |ps|
    ensures AllItems(ps[..i + 1]) == AllItems(ps[..i]) + LineItems(ps[i])
  {
    assert ps[..i + 1][..i] == ps[..i];
  }

  /** One more chunk merged in. */
  lemma MergeSnoc(st: Stats, chunks: seq<seq<BatchItem>>, c: seq<BatchItem>, svc: Service)
    ensures MergeMaps(chunks + [c], svc) == MergeMaps(chunks, svc) + ChunkMap(c, svc)
    ensures MergeStats(st, chunks + [c], svc) == ChunkStats(MergeStats(st, chunks, svc), c, svc)
  {
    assert (chunks + [c])[..|chunks|] == chunks;
  }

  /** `dict.get(key, default)`. */
  function Lookup(m: map<Key, string>, key: Key, default: string): string {
    if key in m then m[key] else default
  }

  /** The text that goes back between the quotes of each queued span. */
  function ChosenValues(p: PendingLine, m: map<Key, string>): (r: seq<string>)
    ensures |r| == |p.chosen|
    ensures forall j | 0 <= j < |r| :: r[j] == Lookup(m, (p.lineNum, p.chosen[j].content), p.chosen[j].content)
  {
    seq(|p.chosen|, j requires 0 <= j < |p.chosen| => Lookup(m, (p.lineNum, p.chosen[j].content), p.chosen[j].content))
  }

  /** A queued line with its spans replaced, and a line ending. */
  function RewriteLine(p: QueuedLine, m: map<Key, string>): string {
    SpliceFrom(p.original, 0, p.chosen, ChosenValues(p, m)) + "\n"
  }

  /** Every buffered line rewritten with the same translations. */
  function RewriteAll(ps: seq<QueuedLine>, m: map<Key, string>): (r: seq<string>)
    ensures |r| == |ps|
  {
    seq(|ps|, i requires 0 <= i < |ps| => RewriteLine(ps[i], m))
  }

  /** The buffered lines, rewritten: one output line per buffered line. */
  function RewritePending(ps: seq<QueuedLine>, svc: Service): seq<string> {
    RewriteAll(ps, Translations(ps, svc))
  }

  /** The merged map has an entry for exactly the items of the chunks. */
  lemma {:induction false} MergeMapsKeys(chunks: seq<seq<BatchItem>>, svc: Service)
    ensures MergeMaps(chunks, svc).Keys == set it | it in Flatten(chunks) :: KeyOf(it)
    decreases |chunks|
  {
    if chunks != [] {
      var n := |chunks| - 1;
      assert chunks == chunks[..n] + [chunks[n]];
      FlattenSnoc(chunks[..n], chunks[n]);
      MergeMapsKeys(chunks[..n], svc);
      ChunkMapKeys(chunks[n], svc);
      var c := chunks[n];
      assert (set i | 0 <= i < |c| :: KeyOf(c[i])) == set it | it in c :: KeyOf(it) by {
        forall it | it in c ensures KeyOf(it) in set i | 0 <= i < |c| :: KeyOf(c[i]) {
          var i :| 0 <= i < |c| && c[i] == it;
        }
      }
    }
  }

  lemma {:induction false} AllItemsContains(ps: seq<PendingLine>, i: nat, j: nat)
    requires i < |ps| && j < |ps[i].chosen|
    ensures LineItems(ps[i])[j] in AllItems(ps)
    decreases |ps|
  {
    var n := |ps| - 1;
    if i < n {
      AllItemsContains(ps[..n], i, j);
    } else {
      assert AllItems(ps) == AllItems(ps[..n]) + LineItems(ps[n]);
    }
  }

  /** Every queued span of every buffered line gets a translation entry under
      its own line number and text, so the rewrite never falls back to the
      lookup's default. */
  lemma TranslationsCoverSpans(ps: seq<PendingLine>, svc: Service, i: nat, j: nat)
    requires i < |ps| && j < |ps[i].chosen|
    ensures (ps[i].lineNum, ps[i].chosen[j].content) in Translations(ps, svc)
  {
    var items := AllItems(ps);
    ChunksCover(items, BatchSize);
    MergeMapsKeys(PendingChunks(ps), svc);
    AllItemsContains(ps, i, j);
    assert KeyOf(LineItems(ps[i])[j]) == (ps[i].lineNum, ps[i].chosen[j].content);
  }

  /** Every entry of the merged map is a translation of its key's text. */
  lemma {:induction false} MergeMapsOrigin(chunks: seq<seq<BatchItem>>, svc: Service, key: Key)
    requires key in MergeMaps(chunks, svc)
    ensures TranslationOf(key.1, MergeMaps(chunks, svc)[key], svc)
    decreases |chunks|
  {
    var n := |chunks| - 1;
    if key in ChunkMap(chunks[n], svc) {
      ChunkMapOrigin(chunks[n], svc, key);
    } else {
      MergeMapsOrigin(chunks[..n], svc, key);
    }
  }

  /** What a buffered line's span is rewritten to is a translation of the
      span's own text: the text kept, its single translation, or its
      translation at its position in a successful batch call. The lookup's
      default is never what decides it, since every span has an entry. */
  lemma ChosenValueOrigin(ps: seq<PendingLine>, svc: Service, i: nat, j: nat)
    requires i < |ps| && j < |ps[i].chosen|
    ensures var key := (ps[i].lineNum, ps[i].chosen[j].content);
      && key in Translations(ps, svc)
      && ChosenValues(ps[i], Translations(ps, svc))[j] == Translations(ps, svc)[key]
      && TranslationOf(ps[i].chosen[j].content, ChosenValues(ps[i], Translations(ps, svc))[j], svc)
  {
    TranslationsCoverSpans(ps, svc, i, j);
    MergeMapsOrigin(PendingChunks(ps), svc, (ps[i].lineNum, ps[i].chosen[j].content));
  }

  /** A line whose spans all come back as their own text (no entry, or an
      entry equal to the text) is written out unchanged apart from its
      trailing whitespace, which becomes a single line ending. */
  lemma UntranslatedLineUnchanged(p: QueuedLine, m: map<Key, string>)
    requires forall j | 0 <= j < |p.chosen| ::
      Lookup(m, (p.lineNum, p.chosen[j].content), p.chosen[j].content) == p.chosen[j].content
    ensures RewriteLine(p, m) == p.original + "\n"
  {
    SpliceIdentity(p.original, 0, p.chosen, ChosenValues(p, m));
  }

  lemma {:induction false} MergeStatsAccounts(st: Stats, chunks: seq<seq<BatchItem>>, svc: Service)
    requires forall i | 0 <= i < |chunks| :: chunks[i] != []
    ensures var st' := MergeStats(st, chunks, svc);
      && st'.totalProcessed == st.totalProcessed + |Flatten(chunks)|
      && Outcomes(st') == Outcomes(st) + |Flatten(chunks)|
      && st'.skippedCode == st.skippedCode
      && st'.batchSuccess + st'.batchFailed == st.batchSuccess + st.batchFailed + |chunks|
    decreases |chunks|
  {
    if chunks != [] {
      var n := |chunks| - 1;
      assert chunks == chunks[..n] + [chunks[n]];
      FlattenSnoc(chunks[..n], chunks[n]);
      MergeStatsAccounts(st, chunks[..n], svc);
      ChunkStatsAccounts(MergeStats(st, chunks[..n], svc), chunks[n], svc);
    }
  }

  /** Translating the buffered lines processes every queued span exactly
      once, gives each one outcome, makes one batch call per chunk and
      leaves the skipped-code counter alone. */
  lemma PendingStatsAccounts(st: Stats, ps: seq<PendingLine>, svc: Service)
    ensures var st' := PendingStats(st, ps, svc);
      && st'.totalProcessed == st.totalProcessed + |AllItems(ps)|
      && Outcomes(st') == Outcomes(st) + |AllItems(ps)|
      && st'.skippedCode == st.skippedCode
      && st'.batchSuccess + st'.batchFailed == st.batchSuccess + st.batchFailed + |PendingChunks(ps)|
  {
    var items := AllItems(ps);
    ChunksShape(items, BatchSize);
    ChunksCover(items, BatchSize);
    MergeStatsAccounts(st, PendingChunks(ps), svc);
  }

  /** The pauses are the whole multiples of the batch size among the queued spans. */
  lemma PendingPausesCount(ps: seq<PendingLine>)
    ensures PendingPauses(ps) * BatchSize <= |AllItems(ps)| < (PendingPauses(ps) + 1) * BatchSize
  {
    CountFullChunks(AllItems(ps), BatchSize);
  }

  // ------------------------------------------------------ sequential mode

  /** The sequential mode's replacement for one match: skipped code keeps
      its text, anything else goes through a single translation attempt,
      blank or not. */
  function SequentialValue(original: string, m: Match, svc: Service): string {
    if Accepted(original, m) then TranslateTextValue(m.content, svc)
    else m.content
  }

  function SequentialValues(original: string, ms: seq<Match>, svc: Service): (r: seq<string>)
    ensures |r| == |ms|
    decreases |ms|
  {
    if ms == [] then []
    else SequentialValues(original, ms[..|ms| - 1], svc) + [SequentialValue(original, ms[|ms| - 1], svc)]
  }

  function SequentialLine(line: string, svc: Service): string {
    if PassesThrough(line) then line
    else
      var original := RStrip(line);
      var ms := FindQuotes(original);
      SpliceFrom(original, 0, ms, SequentialValues(original, ms, svc)) + "\n"
  }

  /** What the sequential mode does with each match: None when it is
      skipped as code, the status of its single attempt otherwise. */
  function SequentialOutcomes(original: string, ms: seq<Match>, svc: Service): (r: seq<Option<TextStatus>>)
    ensures |r| == |ms|
    decreases |ms|
  {
    if ms == [] then []
    else SequentialOutcomes(original, ms[..|ms| - 1], svc) + [SequentialOutcome(original, ms[|ms| - 1], svc)]
  }

  function SequentialOutcome(original: string, m: Match, svc: Service): Option<TextStatus> {
    if Accepted(original, m) then Some(TextStatusOf(m.content, svc)) else None
  }

  /** Match i is replaced and counted by its own attempt. */
  lemma {:induction false} SequentialAt(original: string, ms: seq<Match>, svc: Service, i: nat)
    requires i < |ms|
    ensures SequentialValues(original, ms, svc)[i] == SequentialValue(original, ms[i], svc)
    ensures SequentialOutcomes(original, ms, svc)[i] == SequentialOutcome(original, ms[i], svc)
  {
    SequentialValueAt(original, ms, svc, i);
    SequentialOutcomeAt(original, ms, svc, i);
  }

  lemma {:induction false} SequentialValueAt(original: string, ms: seq<Match>, svc: Service, i: nat)
    requires i < |ms|
    ensures SequentialValues(original, ms, svc)[i] == SequentialValue(original, ms[i], svc)
    decreases |ms|
  {
    var n := |ms| - 1;
    if i < n {
      SequentialValueAt(original, ms[..n], svc, i);
      assert ms[..n][i] == ms[i];
    }
  }

  lemma {:induction false} SequentialOutcomeAt(original: string, ms: seq<Match>, svc: Service, i: nat)
    requires i < |ms|
    ensures SequentialOutcomes(original, ms, svc)[i] == SequentialOutcome(original, ms[i], svc)
    decreases |ms|
  {
    var n := |ms| - 1;
    if i < n {
      SequentialOutcomeAt(original, ms[..n], svc, i);
      assert ms[..n][i] == ms[i];
    }
  }

  /** One more match of the sequential loop. */
  lemma SequentialStep(original: string, ms: seq<Match>, svc: Service, i: nat)
    requires i < |ms|
    ensures SequentialValues(original, ms[..i + 1], svc)
      == SequentialValues(original, ms[..i], svc) + [SequentialValue(original, ms[i], svc)]
    ensures SequentialOutcomes(original, ms[..i + 1], svc)
      == SequentialOutcomes(original, ms[..i], svc) + [SequentialOutcome(original, ms[i], svc)]
  {
    assert ms[..i + 1][..i] == ms[..i];
  }

  /** Counters after the sequential mode's matches, one after the other. */
  function RecordSequential(st: Stats, outs: seq<Option<TextStatus>>): Stats
    decreases |outs|
  {
    if outs == [] then st
    else
      var st' := RecordSequential(st, outs[..|outs| - 1]);
      match outs[|outs| - 1]
      case None => st'.(skippedCode := st'.skippedCode + 1)
      case Some(status) => RecordText(st', status)
  }

  lemma RecordSequentialSnoc(st: Stats, outs: seq<Option<TextStatus>>, o: Option<TextStatus>)
    ensures RecordSequential(st, outs + [o]) ==
      var st' := RecordSequential(st, outs);
      if o.None? then st'.(skippedCode := st'.skippedCode + 1) else RecordText(st', o.value)
  {
    assert (outs + [o])[..|outs|] == outs;
  }

  function SequentialLineStats(st: Stats, line: string, svc: Service): Stats {
    if PassesThrough(line) then st
    else RecordSequential(st, SequentialOutcomes(RStrip(line), FindQuotes(RStrip(line)), svc))
  }

  /** Counters after a sequential run over the given lines. */
  function SequentialRunStats(st: Stats, lines: seq<string>, svc: Service): Stats
    decreases |lines|
  {
    if lines == [] then st
    else SequentialLineStats(SequentialRunStats(st, lines[..|lines| - 1], svc), lines[|lines| - 1], svc)
  }

  /** Each line processed on its own by f, in order. */
  function MapLines(f: string -> string, lines: seq<string>): (r: seq<string>)
    ensures |r| == |lines|
    decreases |lines|
  {
    if lines == [] then []
    else MapLines(f, lines[..|lines| - 1]) + [f(lines[|lines| - 1])]
  }

  lemma {:induction false} MapLinesAt(f: string -> string, lines: seq<string>, i: nat)
    requires i < |lines|
    ensures MapLines(f, lines)[i] == f(lines[i])
    decreases |lines|
  {
    var n := |lines| - 1;
    if i < n {
      MapLinesAt(f, lines[..n], i);
      assert lines[..n][i] == lines[i];
    }
  }

  /** The output of a sequential run (SequentialRunAt). */
  function SequentialRun(lines: seq<string>, svc: Service): (r: seq<string>) {
    MapLines(line => SequentialLine(line, svc), lines)
  }

  /** Output line i of the sequential run is input line i processed. */
  lemma SequentialRunAt(lines: seq<string>, svc: Service, i: nat)
    requires i < |lines|
    ensures |SequentialRun(lines, svc)| == |lines|
    ensures SequentialRun(lines, svc)[i] == SequentialLine(lines[i], svc)
  {
    MapLinesAt(line => SequentialLine(line, svc), lines, i);
  }

  /** One more line of the sequential run. */
  lemma SequentialRunStep(st: Stats, lines: seq<string>, svc: Service, i: nat)
    requires i < |lines|
    ensures SequentialRun(lines[..i + 1], svc) == SequentialRun(lines[..i], svc) + [SequentialLine(lines[i], svc)]
    ensures SequentialRunStats(st, lines[..i + 1], svc)
      == SequentialLineStats(SequentialRunStats(st, lines[..i], svc), lines[i], svc)
  {
    assert lines[..i + 1][..i] == lines[..i];
    assert SequentialRun(lines[..i + 1], svc) == MapLines(line => SequentialLine(line, svc), lines[..i + 1]);
  }

  /** In sequential mode each match is either skipped or processed, once. */
  lemma {:induction false} RecordSequentialAccounts(st: Stats, outs: seq<Option<TextStatus>>)
    ensures var st' := RecordSequential(st, outs);
      && st'.skippedCode + st'.totalProcessed == st.skippedCode + st.totalProcessed + |outs|
      && Outcomes(st') - st'.totalProcessed == Outcomes(st) - st.totalProcessed
      && st'.batchSuccess == st.batchSuccess && st'.batchFailed == st.batchFailed
    decreases |outs|
  {
    if outs != [] {
      var n := |outs| - 1;
      RecordSequentialAccounts(st, outs[..n]);
      if outs[n].Some? {
        RecordTextAccounts(RecordSequential(st, outs[..n]), outs[n].value);
      }
    }
  }

  /** A line none of whose matches the classifier accepts comes out of the
      sequential mode as it went in, apart from its trailing whitespace. */
  lemma SequentialSkippedLineUnchanged(line: string, svc: Service)
    requires !PassesThrough(line)
    requires forall m | m in FindQuotes(RStrip(line)) :: !Accepted(RStrip(line), m)
    ensures SequentialLine(line, svc) == RStrip(line) + "\n"
  {
    var original := RStrip(line);
    var ms := FindQuotes(original);
    forall i | 0 <= i < |ms| ensures SequentialValues(original, ms, svc)[i] == ms[i].content {
      assert ms[i] in ms;
      SequentialAt(original, ms, svc, i);
    }
    SpliceIdentity(original, 0, ms, SequentialValues(original, ms, svc));
  }
}
