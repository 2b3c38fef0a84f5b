/** Specification functions for the batch translation pipeline: what each
    step of the translator computes and how it moves the run's counters.
    The class in module Translator runs these steps imperatively and is
    proved to agree with them. */
module Pipeline {
  import opened Text
  import opened Classifier
  import opened Scanner
  import opened Codec
  import opened Rewrite
  import opened Chunking

  /** Items per batch call. */
  const BatchSize: nat := 5
  /** The driver also flushes on every line number that is a multiple of this. */
  const FlushEvery: nat := 100

  /** The run's counters. */
  datatype Stats = Stats(
    success: nat, failed: nat, emptyInput: nat, emptyOutput: nat, errors: nat,
    skippedCode: nat, totalProcessed: nat,
    batchSuccess: nat, batchFailed: nat, fallbackIndividual: nat)

  const NoStats := Stats(0, 0, 0, 0, 0, 0, 0, 0, 0, 0)

  /** The five per-text outcome counters together. */
  function Outcomes(st: Stats): nat {
    st.success + st.failed + st.emptyInput + st.emptyOutput + st.errors
  }

  // ------------------------------------------------- the translator calls

  /** The two ways of calling the external translator, each with its reply
      validation: one text at a time, or one batch of texts. */
  datatype Calls = Calls(
    single: string -> Result<string, SingleError>,
    batch: seq<string> -> Result<seq<string>, BatchError>)

  /** What the reply validation guarantees: a single translation is
      non-empty and trimmed, and a successful batch has one non-empty,
      trimmed translation per text of a non-empty batch. */
  ghost predicate Validated(c: Calls) {
    && (forall t :: c.single(t).Ok? ==> c.single(t).value != [] && IsTrimmed(c.single(t).value))
    && (forall ts :: c.batch(ts).Ok? ==> ts != [] && |c.batch(ts).value| == |ts|)
    && (forall ts :: c.batch(ts).Ok? ==>
          forall i | 0 <= i < |ts| :: c.batch(ts).value[i] != [] && IsTrimmed(c.batch(ts).value[i]))
  }

  type Service = c: Calls | Validated(c)
    witness Calls(t => Err(SingleTimeout), ts => Err(EmptyBatch))

  /** The calls the program makes: the external translator behind the
      codec of the single and the batch request. */
  function ServiceOf(oracle: Oracle): (s: Service)
    ensures forall t :: s.single(t) == TranslateSingle(t, oracle)
    ensures forall ts :: s.batch(ts) == TranslateBatch(ts, oracle)
  {
    Calls(t => TranslateSingle(t, oracle), ts => TranslateBatch(ts, oracle))
  }

  // ------------------------------------------------- translating one text

  /** Which counter a single translation attempt moves. */
  datatype TextStatus = EmptyInputStatus | TimeoutStatus | FailedStatus | EmptyOutputStatus | SuccessStatus

  function TextStatusOf(text: string, svc: Service): TextStatus {
    if IsBlank(text) then EmptyInputStatus
    else match svc.single(text)
      case Err(e) => if IsTimeoutError(e) then TimeoutStatus else FailedStatus
      case Ok(t) => if t == [] then EmptyOutputStatus else SuccessStatus
  }

  /** The text a single translation attempt yields: the translation, or the
      input unchanged when the input is blank or the call failed. */
  function TranslateTextValue(text: string, svc: Service): (r: string)
    ensures r == text || svc.single(text) == Ok(r)
    ensures IsBlank(text) ==> r == text
  {
    if IsBlank(text) then text
    else match svc.single(text)
      case Err(_) => text
      case Ok(t) => if t == [] then text else t
  }

  function RecordText(st: Stats, status: TextStatus): Stats {
    var st := st.(totalProcessed := st.totalProcessed + 1);
    match status
    case EmptyInputStatus => st.(emptyInput := st.emptyInput + 1)
    case TimeoutStatus => st.(errors := st.errors + 1)
    case FailedStatus => st.(failed := st.failed + 1)
    case EmptyOutputStatus => st.(emptyOutput := st.emptyOutput + 1)
    case SuccessStatus => st.(success := st.success + 1)
  }

  /** A single attempt gives back either the input itself or a validated
      translation, and it is counted a success exactly when the input is
      not blank and the call gave a translation. The empty-output branch
      cannot be reached: a validated translation is never empty. */
  lemma TranslateTextOutcome(text: string, svc: Service)
    ensures var r := TranslateTextValue(text, svc);
      r == text || svc.single(text) == Ok(r)
    ensures TextStatusOf(text, svc) == SuccessStatus <==>
      !IsBlank(text) && svc.single(text).Ok?
    ensures TextStatusOf(text, svc) != EmptyOutputStatus
    ensures TextStatusOf(text, svc) != SuccessStatus ==> TranslateTextValue(text, svc) == text
  {
  }

  /** A blank text is not sent and comes back unchanged. */
  lemma BlankTextStatus(text: string, svc: Service)
    requires IsBlank(text)
    ensures TextStatusOf(text, svc) == EmptyInputStatus && TranslateTextValue(text, svc) == text
  {
  }

  /** A failed call leaves the text unchanged; the error decides whether it
      counts as a timeout. */
  lemma FailedTextStatus(text: string, svc: Service, e: SingleError)
    requires !IsBlank(text) && svc.single(text) == Err(e)
    ensures TextStatusOf(text, svc) == (if IsTimeoutError(e) then TimeoutStatus else FailedStatus)
    ensures TranslateTextValue(text, svc) == text
  {
  }

  /** A successful call yields its translation. */
  lemma TranslatedTextStatus(text: string, svc: Service, t: string)
    requires !IsBlank(text) && svc.single(text) == Ok(t)
    ensures TextStatusOf(text, svc) == SuccessStatus && TranslateTextValue(text, svc) == t
  {
  }

  /** Each attempt moves the processed total and exactly one outcome counter
      by one, and leaves the code and batch counters alone. */
  lemma RecordTextAccounts(st: Stats, status: TextStatus)
    ensures var st' := RecordText(st, status);
      && st'.totalProcessed == st.totalProcessed + 1
      && Outcomes(st') == Outcomes(st) + 1
      && st'.skippedCode == st.skippedCode
      && st'.batchSuccess == st.batchSuccess && st'.batchFailed == st.batchFailed
      && st'.fallbackIndividual == st.fallbackIndividual
  {
  }

  // ------------------------------------------------- translating one chunk

  /** One queued span: its text, its line number and where it sits. */
  datatype BatchItem = BatchItem(text: string, lineNum: nat, span: Match)

  /** Results are keyed by line number and text, never by text alone. */
  type Key = (nat, string)

  function KeyOf(it: BatchItem): Key {
    (it.lineNum, it.text)
  }

  function Texts(items: seq<BatchItem>): (r: seq<string>)
    ensures |r| == |items| && forall i | 0 <= i < |items| :: r[i] == items[i].text
  {
    seq(|items|, i requires 0 <= i < |items| => items[i].text)
  }

  function Keys(items: seq<BatchItem>): (r: seq<Key>)
    ensures |r| == |items| && forall i | 0 <= i < |items| :: r[i] == KeyOf(items[i])
  {
    seq(|items|, i requires 0 <= i < |items| => KeyOf(items[i]))
  }

  /** `for k, v in zip(keys, vals): m[k] = v` starting from an empty dict. */
  function ZipMap(keys: seq<Key>, vals: seq<string>): map<Key, string>
    requires |keys| == |vals|
    decreases |keys|
  {
    if keys == [] then map[]
    else ZipMap(keys[..|keys| - 1], vals[..|vals| - 1])[keys[|keys| - 1] := vals[|vals| - 1]]
  }

  /** The dict built by zipping has exactly the given keys. */
  lemma {:induction false} ZipMapKeys(keys: seq<Key>, vals: seq<string>)
    requires |keys| == |vals|
    ensures ZipMap(keys, vals).Keys == set i | 0 <= i < |keys| :: keys[i]
    decreases |keys|
  {
    if keys != [] {
      var n := |keys| - 1;
      ZipMapKeys(keys[..n], vals[..n]);
      assert ZipMap(keys, vals).Keys == ZipMap(keys[..n], vals[..n]).Keys + {keys[n]};
      assert (set i | 0 <= i < |keys| :: keys[i]) == (set i | 0 <= i < n :: keys[..n][i]) + {keys[n]};
    }
  }

  /** A key that does not occur again later holds its own value: a later
      repeat of a key overwrites the earlier entry. */
  lemma {:induction false} ZipMapValue(keys: seq<Key>, vals: seq<string>, i: nat)
    requires |keys| == |vals| && i < |keys|
    requires forall j | i < j < |keys| :: keys[j] != keys[i]
    ensures keys[i] in ZipMap(keys, vals) && ZipMap(keys, vals)[keys[i]] == vals[i]
    decreases |keys|
  {
    var n := |keys| - 1;
    if i < n {
      forall j | i < j < n ensures keys[..n][j] != keys[..n][i] {
        assert keys[..n][j] == keys[j];
      }
      ZipMapValue(keys[..n], vals[..n], i);
      assert keys[..n][i] == keys[i] && vals[..n][i] == vals[i];
      assert keys[n] != keys[i];
    }
  }

  /** One more step of the zip loop. */
  lemma ZipMapStep(keys: seq<Key>, vals: seq<string>, i: nat)
    requires |keys| == |vals| && i < |keys|
    ensures ZipMap(keys[..i + 1], vals[..i + 1]) == ZipMap(keys[..i], vals[..i])[keys[i] := vals[i]]
  {
    assert keys[..i + 1][..i] == keys[..i] && vals[..i + 1][..i] == vals[..i];
  }

  /** The fallback translations, one single attempt per item, in item
      order (FallbackAt gives each one). */
  function FallbackValues(items: seq<BatchItem>, svc: Service): (r: seq<string>)
    ensures |r| == |items|
    decreases |items|
  {
    if items == [] then []
    else FallbackValues(items[..|items| - 1], svc) + [TranslateTextValue(items[|items| - 1].text, svc)]
  }

  /** The result map of one chunk: the batch translations when the batch
      call succeeds, the per-item fallback translations otherwise. */
  function ChunkMap(items: seq<BatchItem>, svc: Service): map<Key, string> {
    if items == [] then map[]
    else OutcomeMap(items, svc.batch(Texts(items)), svc)
  }

  function OutcomeMap(items: seq<BatchItem>, outcome: Result<seq<string>, BatchError>, svc: Service): map<Key, string>
    requires outcome.Ok? ==> |outcome.value| == |items|
  {
    match outcome
    case Ok(ts) => ZipMap(Keys(items), ts)
    case Err(_) => ZipMap(Keys(items), FallbackValues(items, svc))
  }

  /** The status of each item's single attempt, in item order. */
  function Statuses(items: seq<BatchItem>, svc: Service): (r: seq<TextStatus>)
    ensures |r| == |items|
    decreases |items|
  {
    if items == [] then []
    else Statuses(items[..|items| - 1], svc) + [TextStatusOf(items[|items| - 1].text, svc)]
  }

  /** The fallback of item i is its own single attempt. */
  lemma {:induction false} FallbackAt(items: seq<BatchItem>, svc: Service, i: nat)
    requires i < |items|
    ensures FallbackValues(items, svc)[i] == TranslateTextValue(items[i].text, svc)
    decreases |items|
  {
    var n := |items| - 1;
    if i < n {
      FallbackAt(items[..n], svc, i);
      assert items[..n][i] == items[i];
    }
  }

  /** The status of item i is that of its own single attempt. */
  lemma {:induction false} StatusAt(items: seq<BatchItem>, svc: Service, i: nat)
    requires i < |items|
    ensures Statuses(items, svc)[i] == TextStatusOf(items[i].text, svc)
    decreases |items|
  {
    var n := |items| - 1;
    if i < n {
      StatusAt(items[..n], svc, i);
      assert items[..n][i] == items[i];
    }
  }

  /** Counters after recording the given attempts one after the other. */
  function RecordAll(st: Stats, statuses: seq<TextStatus>): Stats
    decreases |statuses|
  {
    if statuses == [] then st
    else RecordText(RecordAll(st, statuses[..|statuses| - 1]), statuses[|statuses| - 1])
  }

  /** One more recorded attempt. */
  lemma RecordAllStep(st: Stats, statuses: seq<TextStatus>, i: nat)
    requires i < |statuses|
    ensures RecordAll(st, statuses[..i + 1]) == RecordText(RecordAll(st, statuses[..i]), statuses[i])
  {
    assert statuses[..i + 1][..i] == statuses[..i];
  }

  /** Counters after the per-item fallback attempts, in item order. */
  function FallbackStats(st: Stats, items: seq<BatchItem>, svc: Service): Stats {
    RecordAll(st, Statuses(items, svc))
  }

  /** Counters after a batch call over n texts that gave `parts` translations. */
  function BatchSucceeded(st: Stats, n: nat, parts: nat): Stats {
    st.(batchSuccess := st.batchSuccess + 1,
        totalProcessed := st.totalProcessed + n,
        success := st.success + parts)
  }

  /** Counters after a failed batch call over n texts, before the fallback. */
  function BatchFailed(st: Stats, n: nat): Stats {
    st.(batchFailed := st.batchFailed + 1,
        fallbackIndividual := st.fallbackIndividual + n)
  }

  function ChunkStats(st: Stats, items: seq<BatchItem>, svc: Service): Stats {
    if items == [] then st
    else OutcomeStats(st, items, svc.batch(Texts(items)), svc)
  }

  function OutcomeStats(st: Stats, items: seq<BatchItem>, outcome: Result<seq<string>, BatchError>, svc: Service): Stats
    requires outcome.Ok? ==> |outcome.value| == |items|
  {
    match outcome
    case Ok(ts) => BatchSucceeded(st, |items|, |ts|)
    case Err(_) => FallbackStats(BatchFailed(st, |items|), items, svc)
  }

  lemma ChunkIsOutcome(st: Stats, items: seq<BatchItem>, svc: Service)
    requires items != []
    ensures ChunkMap(items, svc) == OutcomeMap(items, svc.batch(Texts(items)), svc)
    ensures ChunkStats(st, items, svc) == OutcomeStats(st, items, svc.batch(Texts(items)), svc)
  {
  }

  /** A successful batch call maps each key to its translation and counts
      every item as processed and every part as a success. */
  lemma OutcomeOnOk(st: Stats, items: seq<BatchItem>, ts: seq<string>, svc: Service)
    requires |ts| == |items|
    ensures OutcomeMap(items, Ok(ts), svc) == ZipMap(Keys(items), ts)
    ensures OutcomeStats(st, items, Ok(ts), svc) == BatchSucceeded(st, |items|, |ts|)
  {
  }

  /** A failed batch call falls back to one single attempt per item. */
  lemma OutcomeOnErr(st: Stats, items: seq<BatchItem>, e: BatchError, svc: Service)
    ensures OutcomeMap(items, Err(e), svc) == ZipMap(Keys(items), FallbackValues(items, svc))
  {
  }

  lemma OutcomeStatsOnErr(st: Stats, items: seq<BatchItem>, e: BatchError, svc: Service)
    ensures OutcomeStats(st, items, Err(e), svc) == FallbackStats(BatchFailed(st, |items|), items, svc)
  {
  }

  /** Every item of the chunk gets a map entry and nothing else does. */
  lemma ChunkMapKeys(items: seq<BatchItem>, svc: Service)
    ensures ChunkMap(items, svc).Keys == set i | 0 <= i < |items| :: KeyOf(items[i])
  {
    if items != [] {
      var ks := Keys(items);
      assert (set i | 0 <= i < |ks| :: ks[i]) == set i | 0 <= i < |items| :: KeyOf(items[i]);
      var outcome := svc.batch(Texts(items));
      if outcome.Ok? {
        ZipMapKeys(ks, outcome.value);
      } else {
        ZipMapKeys(ks, FallbackValues(items, svc));
      }
    }
  }

  /** After a successful batch call, an item whose key does not recur later
      in the chunk maps to the translation at its own position. */
  lemma ChunkMapOnSuccess(items: seq<BatchItem>, svc: Service, ts: seq<string>, i: nat)
    requires svc.batch(Texts(items)) == Ok(ts) && i < |items|
    requires forall j | i < j < |items| :: KeyOf(items[j]) != KeyOf(items[i])
    ensures KeyOf(items[i]) in ChunkMap(items, svc) && ChunkMap(items, svc)[KeyOf(items[i])] == ts[i]
  {
    assert |ts| == |items|;
    assert ChunkMap(items, svc) == OutcomeMap(items, Ok(ts), svc);
    OutcomeMapOnSuccess(items, ts, svc, i);
  }

  lemma OutcomeMapOnSuccess(items: seq<BatchItem>, ts: seq<string>, svc: Service, i: nat)
    requires |ts| == |items| && i < |items|
    requires forall j | i < j < |items| :: KeyOf(items[j]) != KeyOf(items[i])
    ensures KeyOf(items[i]) in OutcomeMap(items, Ok(ts), svc)
    ensures OutcomeMap(items, Ok(ts), svc)[KeyOf(items[i])] == ts[i]
  {
    var ks := Keys(items);
    forall j | i < j < |ks| ensures ks[j] != ks[i] {
    }
    ZipMapValue(ks, ts, i);
  }

  /** After a failed batch call every entry is the item's own single
      attempt: its validated single translation or its unchanged text. */
  lemma ChunkMapOnFailure(items: seq<BatchItem>, svc: Service, key: Key)
    requires items != [] && svc.batch(Texts(items)).Err?
    requires key in ChunkMap(items, svc)
    ensures ChunkMap(items, svc)[key] == TranslateTextValue(key.1, svc)
    ensures ChunkMap(items, svc)[key] == key.1 || svc.single(key.1) == Ok(ChunkMap(items, svc)[key])
  {
    var ks := Keys(items);
    var vs := FallbackValues(items, svc);
    assert ChunkMap(items, svc) == ZipMap(ks, vs);
    ZipMapKeys(ks, vs);
    var i :| 0 <= i < |ks| && ks[i] == key;
    var last := LastIndexOf(ks, i);
    ZipMapValue(ks, vs, last);
    FallbackAt(items, svc, last);
    TranslateTextOutcome(key.1, svc);
  }

  /** `v` is what the translator may put in place of `text`: the text
      itself, its single translation, or its translation at the same
      position of a successful batch call. */
  ghost predicate TranslationOf(text: string, v: string, svc: Service) {
    || v == text
    || svc.single(text) == Ok(v)
    || exists ts: seq<string>, k | 0 <= k < |ts| && ts[k] == text ::
         svc.batch(ts).Ok? && svc.batch(ts).value[k] == v
  }

  /** Every entry of a chunk's map is a translation of its key's text: the
      batch translation at a position holding that key, or the text's own
      single attempt. */
  lemma ChunkMapOrigin(items: seq<BatchItem>, svc: Service, key: Key)
    requires key in ChunkMap(items, svc)
    ensures TranslationOf(key.1, ChunkMap(items, svc)[key], svc)
  {
    var outcome := svc.batch(Texts(items));
    if outcome.Err? {
      ChunkMapOnFailure(items, svc, key);
    } else {
      var ts := outcome.value;
      var ks := Keys(items);
      assert ChunkMap(items, svc) == ZipMap(ks, ts);
      ZipMapKeys(ks, ts);
      var i :| 0 <= i < |ks| && ks[i] == key;
      var last := LastIndexOf(ks, i);
      ZipMapValue(ks, ts, last);
      assert Texts(items)[last] == key.1;
    }
  }

  /** The last position holding the same key as position i. */
  lemma LastIndexOf(ks: seq<Key>, i: nat) returns (last: nat)
    requires i < |ks|
    ensures i <= last < |ks| && ks[last] == ks[i]
    ensures forall j | last < j < |ks| :: ks[j] != ks[last]
    decreases |ks| - i
  {
    if j :| i < j < |ks| && ks[j] == ks[i] {
      last := LastIndexOf(ks, j);
    } else {
      last := i;
    }
  }

  lemma {:induction false} RecordAllAccounts(st: Stats, statuses: seq<TextStatus>)
    ensures var st' := RecordAll(st, statuses);
      && st'.totalProcessed == st.totalProcessed + |statuses|
      && Outcomes(st') == Outcomes(st) + |statuses|
      && st'.skippedCode == st.skippedCode
      && st'.batchSuccess == st.batchSuccess && st'.batchFailed == st.batchFailed
      && st'.fallbackIndividual == st.fallbackIndividual
    decreases |statuses|
  {
    if statuses != [] {
      var n := |statuses| - 1;
      RecordAllAccounts(st, statuses[..n]);
      RecordTextAccounts(RecordAll(st, statuses[..n]), statuses[n]);
    }
  }

  /** Counters after one chunk: a success adds one batch success and counts
      every item as a success; a failure adds one batch failure, counts every
      item as a fallback, and gives every item exactly one outcome. Either
      way every item is processed once. */
  lemma ChunkStatsAccounts(st: Stats, items: seq<BatchItem>, svc: Service)
    requires items != []
    ensures var st' := ChunkStats(st, items, svc);
      && st'.totalProcessed == st.totalProcessed + |items|
      && Outcomes(st') == Outcomes(st) + |items|
      && st'.skippedCode == st.skippedCode
      && (svc.batch(Texts(items)).Ok? ==>
            && st'.batchSuccess == st.batchSuccess + 1 && st'.batchFailed == st.batchFailed
            && st'.success == st.success + |items|
            && st'.fallbackIndividual == st.fallbackIndividual)
      && (svc.batch(Texts(items)).Err? ==>
            && st'.batchFailed == st.batchFailed + 1 && st'.batchSuccess == st.batchSuccess
            && st'.fallbackIndividual == st.fallbackIndividual + |items|)
  {
    var outcome := svc.batch(Texts(items));
    assert ChunkStats(st, items, svc) == OutcomeStats(st, items, outcome, svc);
    OutcomeStatsAccounts(st, items, outcome, svc);
  }

  lemma OutcomeStatsAccounts(st: Stats, items: seq<BatchItem>, outcome: Result<seq<string>, BatchError>, svc: Service)
    requires outcome.Ok? ==> |outcome.value| == |items|
    ensures var st' := OutcomeStats(st, items, outcome, svc);
      && st'.totalProcessed == st.totalProcessed + |items|
      && Outcomes(st') == Outcomes(st) + |items|
      && st'.skippedCode == st.skippedCode
      && (outcome.Ok? ==>
            && st'.batchSuccess == st.batchSuccess + 1 && st'.batchFailed == st.batchFailed
            && st'.success == st.success + |items|
            && st'.fallbackIndividual == st.fallbackIndividual)
      && (outcome.Err? ==>
            && st'.batchFailed == st.batchFailed + 1 && st'.batchSuccess == st.batchSuccess
            && st'.fallbackIndividual == st.fallbackIndividual + |items|)
  {
    if outcome.Err? {
      var st0 := BatchFailed(st, |items|);
      var statuses := Statuses(items, svc);
      assert OutcomeStats(st, items, outcome, svc) == RecordAll(st0, statuses);
      RecordAllAccounts(st0, statuses);
    } else {
      var st' := OutcomeStats(st, items, outcome, svc);
      assert st' == st.(batchSuccess := st.batchSuccess + 1, totalProcessed := st.totalProcessed + |items|,
                        success := st.success + |items|);
    }
  }
}
