/** The batch wire codec and the single-call result check: how several texts
    are packed into one request to the external translator, and how its
    reply is validated and split back into one translation per text. The
    external `trans` process is an oracle from request string to outcome. */
module Codec {
  import opened Text

  const Separator: string := "|~|~|"
  const MaxBatchChars: nat := 1000

  /** What running the external translator on one request string gave. */
  datatype CallOutcome =
    | Exited(code: int, stdout: string, stderr: string)
    | TimedOut
    | Raised(message: string)

  /** The external translator, called with the request text. */
  type Oracle = string -> CallOutcome

  datatype Result<T, E> = Ok(value: T) | Err(error: E)

  /** Why a batch call gave no usable translations. */
  datatype BatchError =
    | EmptyBatch
    | BatchTooLong(length: nat)
    | SeparatorCollision
    | BatchCommandFailed
    | EmptyBatchResult
    | SeparatorLost
    | CountMismatch(expected: nat, got: nat)
    | BatchTimeout
    | BatchUnexpected

  /** Why a single call gave no usable translation. */
  datatype SingleError =
    | CommandFailed(detail: string)
    | CommandFailedSilently    // non-zero exit with nothing on either stream
    | EmptyOrErrorResult
    | SingleTimeout
    | SingleUnexpected(detail: string)

  // ---------------------------------------------------------------- encoding

  /** Some text already holds the separator. */
  predicate HasCollision(texts: seq<string>) {
    exists k | 0 <= k < |texts| :: Contains(texts[k], Separator)
  }

  /** The request string for a batch, or the reason no call is made. The
      checks run in order: empty batch, character budget, collision. */
  function EncodeBatch(texts: seq<string>): (r: Result<string, BatchError>)
    ensures r == Err(EmptyBatch) <==> texts == []
    ensures r.Err? && r.error.BatchTooLong? <==> texts != [] && |Join(texts, Separator)| > MaxBatchChars
    ensures r == Err(SeparatorCollision) <==>
      texts != [] && |Join(texts, Separator)| <= MaxBatchChars && HasCollision(texts)
    ensures r.Ok? ==> r.value == Join(texts, Separator) && |r.value| <= MaxBatchChars
  {
    if |texts| == 0 then Err(EmptyBatch)
    else
      var combined := Join(texts, Separator);
      if |combined| > MaxBatchChars then Err(BatchTooLong(|combined|))
      else if HasCollision(texts) then Err(SeparatorCollision)
      else Ok(combined)
  }

  // ---------------------------------------------------------------- decoding

  /** The spellings of the separator tried, in order, when the exact one is
      missing from the reply. */
  function SeparatorVariants(): (vs: seq<string>)
    ensures forall k | 0 <= k < |vs| :: vs[k] != []
  {
    [Lower(Separator), Upper(Separator), " " + Separator + " ", " " + Separator, Separator + " "]
  }

  /** The first of `vs` that occurs in `s`. */
  function FirstContained(s: string, vs: seq<string>): (r: Option<string>)
    ensures r.Some? ==> r.value in vs && Contains(s, r.value)
    ensures r.Some? ==> exists k | 0 <= k < |vs| :: vs[k] == r.value && forall j | 0 <= j < k :: !Contains(s, vs[j])
    ensures r.None? <==> forall k | 0 <= k < |vs| :: !Contains(s, vs[k])
  {
    if vs == [] then None
    else if Contains(s, vs[0]) then Some(vs[0])
    else
      var r := FirstContained(s, vs[1..]);
      assert forall k | 1 <= k < |vs| :: vs[k] == vs[1..][k - 1];
      assert r.Some? ==> exists k | 0 <= k < |vs| :: vs[k] == r.value && forall j | 0 <= j < k :: !Contains(s, vs[j]) by {
        if r.Some? {
          var k :| 0 <= k < |vs[1..]| && vs[1..][k] == r.value && forall j | 0 <= j < k :: !Contains(s, vs[1..][j]);
          assert vs[k + 1] == r.value;
          forall j | 0 <= j < k + 1 ensures !Contains(s, vs[j]) {
            if j > 0 { assert vs[j] == vs[1..][j - 1]; }
          }
        }
      }
      r
  }

  /** The separator the reply is split on: the exact one if present,
      otherwise the first variant present. */
  function ChooseSeparator(reply: string): (r: Option<string>)
    ensures r.Some? ==> r.value != [] && Contains(reply, r.value)
    ensures Contains(reply, Separator) ==> r == Some(Separator)
    ensures r.None? <==>
      !Contains(reply, Separator) && forall k | 0 <= k < |SeparatorVariants()| :: !Contains(reply, SeparatorVariants()[k])
  {
    if Contains(reply, Separator) then Some(Separator)
    else FirstContained(reply, SeparatorVariants())
  }

  /** `[p.strip() for p in parts if p.strip()]`. */
  function CleanParts(parts: seq<string>): (r: seq<string>)
    ensures |r| <= |parts|
    ensures forall i | 0 <= i < |r| :: r[i] != [] && IsTrimmed(r[i])
  {
    if parts == [] then []
    else
      var rest := CleanParts(parts[1..]);
      StripFixesTrimmed(parts[0]);
      if Strip(parts[0]) == [] then rest else [Strip(parts[0])] + rest
  }

  /** Split the stripped stdout of a successful batch call into exactly
      `expected` trimmed, non-empty translations, or reject it. */
  function DecodeBatch(reply: string, expected: nat): (r: Result<seq<string>, BatchError>)
    ensures r.Ok? ==> |r.value| == expected
    ensures r.Ok? ==> forall i | 0 <= i < expected :: r.value[i] != [] && IsTrimmed(r.value[i])
  {
    if reply == [] then Err(EmptyBatchResult)
    else match ChooseSeparator(reply)
      case None => Err(SeparatorLost)
      case Some(sep) =>
        var parts := CleanParts(Split(reply, sep));
        if |parts| != expected then Err(CountMismatch(expected, |parts|)) else Ok(parts)
  }

  /** Validate the outcome of the batch call. */
  function BatchReply(o: CallOutcome, expected: nat): (r: Result<seq<string>, BatchError>)
    ensures r.Ok? ==> o.Exited? && o.code == 0 && |r.value| == expected
    ensures r.Ok? ==> forall i | 0 <= i < expected :: r.value[i] != [] && IsTrimmed(r.value[i])
  {
    match o
    case Exited(code, out, err) =>
      if code != 0 then Err(BatchCommandFailed) else DecodeBatch(Strip(out), expected)
    case TimedOut => Err(BatchTimeout)
    case Raised(_) => Err(BatchUnexpected)
  }

  /** One batch call: encode, call the translator once, decode. A successful
      result has one trimmed, non-empty translation per input text. */
  function TranslateBatch(texts: seq<string>, oracle: Oracle): (r: Result<seq<string>, BatchError>)
    ensures r.Ok? ==> texts != [] && |r.value| == |texts|
    ensures r.Ok? ==> forall i | 0 <= i < |texts| :: r.value[i] != [] && IsTrimmed(r.value[i])
  {
    match EncodeBatch(texts)
    case Err(e) => Err(e)
    case Ok(combined) => BatchReply(oracle(combined), |texts|)
  }

  // ------------------------------------------------------------ single call

  /** Validate the outcome of a single-text call. */
  function SingleReply(o: CallOutcome): (r: Result<string, SingleError>)
    ensures r.Ok? ==> o.Exited? && o.code == 0 && r.value == Strip(o.stdout)
    ensures r.Ok? ==> r.value != [] && IsTrimmed(r.value)
    ensures r.Ok? ==> !Contains(Lower(r.value), "error") && !Contains(Lower(r.value), "failed")
  {
    match o
    case Exited(code, out, err) =>
      if code != 0 then
        if Strip(err) != [] then Err(CommandFailed(Strip(err)))
        else if Strip(out) != [] then Err(CommandFailed(Strip(out)))
        else Err(CommandFailedSilently)
      else
        var t := Strip(out);
        StripFixesTrimmed(out);
        if t == [] || Contains(Lower(t), "error") || Contains(Lower(t), "failed")
        then Err(EmptyOrErrorResult)
        else Ok(t)
    case TimedOut => Err(SingleTimeout)
    case Raised(m) => Err(SingleUnexpected(m))
  }

  /** One single call: the text is sent as it is, and the outcome validated. */
  function TranslateSingle(text: string, oracle: Oracle): (r: Result<string, SingleError>)
    ensures r.Ok? ==> oracle(text).Exited? && oracle(text).code == 0
    ensures r.Ok? ==> r.value != [] && IsTrimmed(r.value)
    ensures r.Ok? ==> !Contains(Lower(r.value), "error") && !Contains(Lower(r.value), "failed")
    ensures r.Ok? ==> r.value == Strip(oracle(text).stdout)
    ensures oracle(text).TimedOut? ==> r == Err(SingleTimeout)
  {
    SingleReply(oracle(text))
  }

  /** The error text the caller inspects. */
  function ErrorMessage(e: SingleError): string {
    match e
    case CommandFailed(d) => d
    case CommandFailedSilently => "Translation command failed"
    case EmptyOrErrorResult => "Empty or error in translation result"
    case SingleTimeout => "Translation timeout (25s)"
    case SingleUnexpected(d) => "Unexpected error: " + d
  }

  /** `"timeout" in error.lower()`: such failures are counted as errors,
      all others as failures. Read off each kind of error: of the fixed
      messages only the timeout one mentions it, and the other two kinds
      depend on the detail text they carry
      (TimeoutErrorByMessage shows this is the check on the message). */
  predicate IsTimeoutError(e: SingleError) {
    match e
    case CommandFailed(d) => MentionsTimeout(d)
    case CommandFailedSilently => false
    case EmptyOrErrorResult => false
    case SingleTimeout => true
    case SingleUnexpected(d) => MentionsTimeout(d)
  }

  /** "timeout" occurs in the lower-cased text: a scan from the left
      (MentionsTimeoutContains shows it is Python's `"timeout" in s.lower()`).
      The scan is its own predicate, so that an occurrence of
      MentionsTimeout is unfolded one step at a time, only where a proof
      asks for it. */
  predicate MentionsTimeout(s: string)
    decreases |s|, 1
  {
    TimeoutScan(s)
  }

  predicate TimeoutScan(s: string)
    decreases |s|, 0
  {
    s != [] && (LowerPrefix(s, "timeout") || MentionsTimeout(s[1..]))
  }

  /** `s` starts with `pat` once lower-cased, compared character by character. */
  predicate LowerPrefix(s: string, pat: string)
    decreases |pat|
  {
    pat == [] || (s != [] && LowerChar(s[0]) == pat[0] && LowerPrefix(s[1..], pat[1..]))
  }

  // ---------------------------------------------------------------- lemmas

  /** When encoding fails no request is sent: the result is the encoding
      error whatever the translator would have answered. */
  lemma EncodeFailureSendsNothing(texts: seq<string>, o1: Oracle, o2: Oracle)
    requires EncodeBatch(texts).Err?
    ensures TranslateBatch(texts, o1) == TranslateBatch(texts, o2) == Err(EncodeBatch(texts).error)
  {
  }

  /** A blank reply is rejected, whatever the batch. */
  lemma BlankReplyRejected(out: string, err: string, expected: nat)
    requires IsBlank(out)
    ensures BatchReply(Exited(0, out, err), expected) == Err(EmptyBatchResult)
  {
    BlankIffStripEmpty(out);
  }

  lemma ContainsInside(s: string, a: string, p: string, b: string)
    requires Contains(s, a + p + b)
    ensures Contains(s, p)
  {
    var w := a + p + b;
    var i :| 0 <= i <= |s| - |w| && OccursAt(s, i, w);
    var j := i + |a|;
    forall t | 0 <= t < |p| ensures s[j..j + |p|][t] == p[t] {
      assert s[j + t] == s[i..i + |w|][|a| + t];
      assert w[|a| + t] == p[t];
    }
    assert s[j..j + |p|] == p;
    assert OccursAt(s, j, p);
  }

  /** The separator has no cased letters, so lower() and upper() give it back. */
  lemma SeparatorHasNoCase()
    ensures Lower(Separator) == Separator && Upper(Separator) == Separator
  {
  }

  /** The space-padded variants contain the separator itself, and the case
      variants are the separator: a reply that lost the exact separator is
      always rejected. */
  lemma SeparatorMustSurvive(reply: string, expected: nat)
    requires reply != [] && !Contains(reply, Separator)
    ensures DecodeBatch(reply, expected) == Err(SeparatorLost)
  {
    VariantsAbsent(reply);
  }

  /** Without the exact separator no variant occurs either. */
  lemma VariantsAbsent(reply: string)
    requires !Contains(reply, Separator)
    ensures forall k | 0 <= k < |SeparatorVariants()| :: !Contains(reply, SeparatorVariants()[k])
  {
    SeparatorHasNoCase();
    PaddedAbsent(reply, " ", " ");
    PaddedAbsent(reply, " ", "");
    PaddedAbsent(reply, "", " ");
    var vs := SeparatorVariants();
    assert vs[3] == " " + Separator + "";
    assert vs[4] == "" + Separator + " ";
  }

  lemma PaddedAbsent(reply: string, a: string, b: string)
    requires !Contains(reply, Separator)
    ensures !Contains(reply, a + Separator + b)
  {
    if Contains(reply, a + Separator + b) {
      ContainsInside(reply, a, Separator, b);
    }
  }

  lemma {:induction false} JoinEndsWithLast(parts: seq<string>, sep: string)
    requires parts != []
    ensures EndsWith(Join(parts, sep), parts[|parts| - 1])
    decreases |parts|
  {
    if |parts| > 1 {
      var rest := parts[1..];
      assert rest[|rest| - 1] == parts[|parts| - 1];
      JoinEndsWithLast(rest, sep);
      var j := Join(parts, sep);
      var jr := Join(rest, sep);
      assert j == parts[0] + sep + jr;
      assert j[|j| - |jr|..] == jr;
    }
  }

  /** A join of trimmed texts whose first and last are non-empty is trimmed. */
  lemma JoinTrimmed(parts: seq<string>, sep: string)
    requires parts != [] && parts[0] != [] && parts[|parts| - 1] != []
    requires IsTrimmed(parts[0]) && IsTrimmed(parts[|parts| - 1])
    ensures IsTrimmed(Join(parts, sep))
  {
    var j := Join(parts, sep);
    var last := parts[|parts| - 1];
    JoinEndsWithLast(parts, sep);
    assert j[|j| - 1] == j[|j| - |last|..][|last| - 1];
    if |parts| > 1 {
      assert j == parts[0] + sep + Join(parts[1..], sep);
    }
    assert j[0] == parts[0][0];
  }

  lemma {:induction false} CleanPartsKeepsTrimmed(parts: seq<string>)
    requires forall i | 0 <= i < |parts| :: parts[i] != [] && IsTrimmed(parts[i])
    ensures CleanParts(parts) == parts
    decreases |parts|
  {
    if parts != [] {
      StripFixesTrimmed(parts[0]);
      CleanPartsKeepsTrimmed(parts[1..]);
    }
  }

  /** The list comprehension one part at a time: a blank part is dropped,
      any other part is kept, stripped, in front of the rest. */
  lemma CleanPartsCons(p: string, ps: seq<string>)
    ensures CleanParts([p] + ps) == (if IsBlank(p) then [] else [Strip(p)]) + CleanParts(ps)
  {
    assert ([p] + ps)[1..] == ps;
    BlankIffStripEmpty(p);
  }

  /** Cleaning distributes over concatenation, so parts keep their order. */
  lemma {:induction false} CleanPartsAppend(a: seq<string>, b: seq<string>)
    ensures CleanParts(a + b) == CleanParts(a) + CleanParts(b)
    decreases |a|
  {
    if a == [] {
      assert a + b == b;
    } else {
      assert (a + b)[0] == a[0];
      assert (a + b)[1..] == a[1..] + b;
      CleanPartsAppend(a[1..], b);
    }
  }

  /** A blank segment, such as the empty one between two adjacent
      separators, disappears from the cleaned parts and shifts nothing. */
  lemma CleanPartsDropsBlank(a: seq<string>, p: string, b: seq<string>)
    requires IsBlank(p)
    ensures CleanParts(a + [p] + b) == CleanParts(a + b)
  {
    assert a + [p] + b == a + ([p] + b);
    CleanPartsAppend(a, [p] + b);
    CleanPartsCons(p, b);
    CleanPartsAppend(a, b);
  }

  /** A zero-exit reply whose stripped text is non-empty and mentions
      neither `error` nor `failed` is accepted as that stripped text. */
  lemma SingleReplyAccepts(out: string, err: string)
    requires !IsBlank(out)
    requires !Contains(Lower(Strip(out)), "error") && !Contains(Lower(Strip(out)), "failed")
    ensures SingleReply(Exited(0, out, err)) == Ok(Strip(out))
  {
    BlankIffStripEmpty(out);
  }

  /** A non-zero exit is always a command failure: with the stripped error
      output when there is one, else the stripped standard output, else the
      default message. */
  lemma SingleReplyFails(code: int, out: string, err: string)
    requires code != 0
    ensures SingleReply(Exited(code, out, err)) ==
      if !IsBlank(err) then Err(CommandFailed(Strip(err)))
      else if !IsBlank(out) then Err(CommandFailed(Strip(out)))
      else Err(CommandFailedSilently)
  {
    BlankIffStripEmpty(err);
    BlankIffStripEmpty(out);
  }

  /** Single-call round trip: when the translator echoes its input, a
      trimmed, non-empty text that mentions neither `error` nor `failed`
      comes back unchanged. */
  lemma SingleEchoRoundTrip(text: string, err: string)
    requires text != [] && IsTrimmed(text)
    requires !Contains(Lower(text), "error") && !Contains(Lower(text), "failed")
    ensures TranslateSingle(text, s => Exited(0, s, err)) == Ok(text)
  {
    StripFixesTrimmed(text);
    BlankIffStripEmpty(text);
    SingleReplyAccepts(text, err);
  }

  /** The join of texts with no separator inside any of them passes every
      encoding check when it fits the budget. */
  lemma EncodeAccepts(texts: seq<string>)
    requires texts != [] && |Join(texts, Separator)| <= MaxBatchChars
    requires forall k | 0 <= k < |texts| :: BoundaryClean(texts[k], Separator)
    ensures EncodeBatch(texts) == Ok(Join(texts, Separator))
  {
    forall k | 0 <= k < |texts| ensures !Contains(texts[k], Separator) {
      BoundaryCleanHasNoSeparator(texts[k], Separator);
    }
  }

  /** The decoder takes a join of at least two trimmed, non-empty, boundary-
      clean texts back to the texts. */
  lemma DecodeJoin(texts: seq<string>)
    requires |texts| >= 2
    requires forall k | 0 <= k < |texts| :: texts[k] != [] && IsTrimmed(texts[k])
    requires forall k | 0 <= k < |texts| :: BoundaryClean(texts[k], Separator)
    ensures DecodeBatch(Join(texts, Separator), |texts|) == Ok(texts)
  {
    var combined := Join(texts, Separator);
    assert combined == texts[0] + Separator + Join(texts[1..], Separator);
    FirstSeparatorAfter(texts[0], Separator, Join(texts[1..], Separator));
    FindFromContains(combined, Separator);
    assert ChooseSeparator(combined) == Some(Separator);
    SplitJoin(texts, Separator);
    CleanPartsKeepsTrimmed(texts);
  }

  /** Round trip: when the translator echoes the request, the batch comes
      back as the original texts, provided there are at least two texts,
      each trimmed and non-empty, no separator begins inside any text (not
      even one running into the following separator), and the request fits
      the budget. */
  lemma EchoRoundTrip(texts: seq<string>, err: string)
    requires |texts| >= 2
    requires forall k | 0 <= k < |texts| :: texts[k] != [] && IsTrimmed(texts[k])
    requires forall k | 0 <= k < |texts| :: BoundaryClean(texts[k], Separator)
    requires |Join(texts, Separator)| <= MaxBatchChars
    ensures TranslateBatch(texts, s => Exited(0, s, err)) == Ok(texts)
  {
    var combined := Join(texts, Separator);
    EncodeAccepts(texts);
    JoinTrimmed(texts, Separator);
    StripFixesTrimmed(combined);
    DecodeJoin(texts);
  }

  /** A one-text batch never survives an echo: its request holds no
      separator, so the reply has none and is rejected. */
  lemma OneTextEchoRejected(t: string, err: string)
    requires t != [] && IsTrimmed(t) && |t| <= MaxBatchChars && !Contains(t, Separator)
    ensures TranslateBatch([t], s => Exited(0, s, err)) == Err(SeparatorLost)
  {
    assert Join([t], Separator) == t;
    assert !HasCollision([t]);
    StripFixesTrimmed(t);
    SeparatorMustSurvive(t, 1);
  }

  lemma StraddleJoin()
    ensures Join(["a|~", "b"], Separator) == "a|~|~|~|b"
  {
  }

  lemma StraddleSplit()
    ensures Split("a|~|~|~|b", Separator) == ["a", "~|b"]
  {
    var c := "a|~|~|~|b";
    assert c[0..5] != Separator by { assert c[0] != Separator[0]; }
    assert c[1..6] == Separator;
    assert FindFrom(c, Separator, 0) == Some(1);
    assert c[6..] == "~|b";
    assert c[..1] == "a";
    assert FindFrom("~|b", Separator, 0) == None;
    assert Split("~|b", Separator) == ["~|b"];
    assert Split(c, Separator) == [c[..1]] + Split(c[6..], Separator);
  }

  lemma StraddleStrip()
    ensures Strip("a|~|~|~|b") == "a|~|~|~|b"
    ensures Strip("a") == "a" && Strip("~|b") == "~|b"
  {
    var c := "a|~|~|~|b";
    assert !IsSpace(c[0]) && !IsSpace(c[|c| - 1]);
    LStripTrimmed(c);
    RStripTrimmed(c);
    assert !IsSpace("a"[0]);
    LStripTrimmed("a");
    RStripTrimmed("a");
    var d := "~|b";
    assert !IsSpace(d[0]) && !IsSpace(d[|d| - 1]);
    LStripTrimmed(d);
    RStripTrimmed(d);
  }

  lemma StraddleEncode()
    ensures EncodeBatch(["a|~", "b"]) == Ok("a|~|~|~|b")
  {
    var texts := ["a|~", "b"];
    StraddleJoin();
    assert !Contains(texts[0], Separator) && !Contains(texts[1], Separator);
    assert !HasCollision(texts);
  }

  lemma StraddleDecode()
    ensures DecodeBatch("a|~|~|~|b", 2) == Ok(["a", "~|b"])
  {
    var c := "a|~|~|~|b";
    StraddleSplit();
    StraddleStrip();
    assert OccursAt(c, 1, Separator);
    assert ChooseSeparator(c) == Some(Separator);
    assert CleanParts(["~|b"]) == ["~|b"];
    assert CleanParts(["a", "~|b"]) == ["a", "~|b"];
  }

  /** The collision check looks at each text alone, so a text ending in "|~"
      lets a separator occurrence straddle the join point: the echo of
      ["a|~", "b"] passes every check and decodes, misaligned, to
      ["a", "~|b"]. */
  lemma StraddlingSeparatorMisaligns()
    ensures TranslateBatch(["a|~", "b"], s => Exited(0, s, "")) == Ok(["a", "~|b"])
  {
    StraddleEncode();
    StraddleStrip();
    StraddleDecode();
  }

  // -------------------------------------------- corrected collision check

  /** Some text lets a separator begin inside it, possibly one that runs on
      into the separator written after it in the request. */
  predicate Straddles(texts: seq<string>) {
    exists k | 0 <= k < |texts| :: !BoundaryClean(texts[k], Separator)
  }

  /** The request with the collision check the decoder relies on: a batch
      is sent only when no separator can begin inside any of its texts, so
      the request splits back into exactly the texts. It refuses every
      batch the check as written refuses. */
  function EncodeBatchChecked(texts: seq<string>): (r: Result<string, BatchError>)
    ensures r.Ok? ==> texts != [] && Split(r.value, Separator) == texts
    ensures r.Ok? ==> r == EncodeBatch(texts)
  {
    if |texts| == 0 then Err(EmptyBatch)
    else
      var combined := Join(texts, Separator);
      if |combined| > MaxBatchChars then Err(BatchTooLong(|combined|))
      else if Straddles(texts) then Err(SeparatorCollision)
      else
        SplitJoin(texts, Separator);
        EncodeAccepts(texts);
        Ok(combined)
  }

  /** The corrected check refuses the straddling batch. */
  lemma StraddleRejected()
    ensures EncodeBatchChecked(["a|~", "b"]) == Err(SeparatorCollision)
  {
    StraddleJoin();
    var t := "a|~";
    assert (t + Separator)[1..1 + |Separator|] == Separator;
    assert OccursAt(t + Separator, 1, Separator);
    assert ["a|~", "b"][0] == t;
  }

  /** Whatever the corrected check sends, an echoing translator's reply
      decodes back to the texts, each at its own position. */
  lemma CheckedEchoRoundTrip(texts: seq<string>)
    requires |texts| >= 2
    requires forall k | 0 <= k < |texts| :: texts[k] != [] && IsTrimmed(texts[k])
    requires EncodeBatchChecked(texts).Ok?
    ensures DecodeBatch(EncodeBatchChecked(texts).value, |texts|) == Ok(texts)
  {
    DecodeJoin(texts);
  }

  lemma LowerSlice(s: string, a: nat, b: nat)
    requires a <= b <= |s|
    ensures Lower(s)[a..b] == Lower(s[a..b])
  {
  }

  lemma {:induction false} LowerPrefixOccurs(s: string, pat: string)
    ensures LowerPrefix(s, pat) <==> OccursAt(Lower(s), 0, pat)
    decreases |pat|
  {
    if pat != [] && s != [] {
      LowerPrefixOccurs(s[1..], pat[1..]);
      LowerSlice(s, 1, |s|);
      if |pat| <= |s| {
        assert Lower(s)[0..|pat|] == [LowerChar(s[0])] + Lower(s[1..])[0..|pat| - 1];
        assert pat == [pat[0]] + pat[1..];
      }
    }
  }

  lemma {:induction false} MentionsTimeoutContains(s: string)
    ensures MentionsTimeout(s) <==> Contains(Lower(s), "timeout")
    decreases |s|
  {
    assert MentionsTimeout(s) == TimeoutScan(s);
    if s != [] {
      LowerPrefixOccurs(s, "timeout");
      MentionsTimeoutContains(s[1..]);
      LowerSlice(s, 1, |s|);
      forall i | 0 <= i
        ensures OccursAt(Lower(s[1..]), i, "timeout") <==> OccursAt(Lower(s), i + 1, "timeout")
      {
        if i + 8 <= |s| {
          assert Lower(s[1..])[i..i + 7] == Lower(s)[i + 1..i + 8];
        }
      }
      if Contains(Lower(s), "timeout") && !OccursAt(Lower(s), 0, "timeout") {
        var i :| 0 <= i <= |Lower(s)| - 7 && OccursAt(Lower(s), i, "timeout");
        assert OccursAt(Lower(s[1..]), i - 1, "timeout");
      }
    }
  }

  /** The kind-by-kind timeout check agrees with looking for "timeout" in
      the lower-cased error message. */
  lemma TimeoutErrorByMessage(e: SingleError)
    ensures IsTimeoutError(e) <==> Contains(Lower(ErrorMessage(e)), "timeout")
  {
    match e
    case CommandFailed(d) => MentionsTimeoutContains(d);
    case CommandFailedSilently => SilentFailureNoTimeout();
    case EmptyOrErrorResult => EmptyResultNoTimeout();
    case SingleTimeout => TimeoutIsRecognised();
    case SingleUnexpected(d) =>
      MentionsTimeoutContains(d);
      UnexpectedPrefixNoTimeout(d);
  }

  /** Where "timeout" occurs, its third letter is an 'm'. */
  lemma TimeoutThirdLetter(s: string, i: int)
    requires OccursAt(Lower(s), i, "timeout")
    ensures LowerChar(s[i + 2]) == 'm' && LowerChar(s[i]) == 't' && LowerChar(s[i + 1]) == 'i'
  {
    assert Lower(s)[i..i + 7][2] == 'm' && Lower(s)[i..i + 7][0] == 't' && Lower(s)[i..i + 7][1] == 'i';
  }

  lemma EmptyResultNoTimeout()
    ensures !Contains(Lower(ErrorMessage(EmptyOrErrorResult)), "timeout")
  {
    var m := ErrorMessage(EmptyOrErrorResult);
    forall i | 0 <= i <= |m| - 7 ensures !OccursAt(Lower(m), i, "timeout") {
      if OccursAt(Lower(m), i, "timeout") {
        TimeoutThirdLetter(m, i);
        assert false;
      }
    }
  }

  lemma SilentFailureNoTimeout()
    ensures !Contains(Lower(ErrorMessage(CommandFailedSilently)), "timeout")
  {
    var m := ErrorMessage(CommandFailedSilently);
    forall i | 0 <= i <= |m| - 7 ensures !OccursAt(Lower(m), i, "timeout") {
      if OccursAt(Lower(m), i, "timeout") {
        TimeoutThirdLetter(m, i);
        assert false;
      }
    }
  }

  /** The fixed prefix of the unexpected-error message cannot contribute to
      an occurrence of "timeout". */
  lemma UnexpectedPrefixNoTimeout(d: string)
    ensures Contains(Lower("Unexpected error: " + d), "timeout") <==> Contains(Lower(d), "timeout")
  {
    var p := "Unexpected error: ";
    var s := p + d;
    if Contains(Lower(s), "timeout") {
      var i :| 0 <= i <= |Lower(s)| - 7 && OccursAt(Lower(s), i, "timeout");
      if i < |p| {
        NotInPrefix(d, i);
        assert false;
      }
      ShiftOccurrence(p, d, i - |p|);
    }
    if Contains(Lower(d), "timeout") {
      var i :| 0 <= i <= |Lower(d)| - 7 && OccursAt(Lower(d), i, "timeout");
      ShiftOccurrence(p, d, i);
    }
  }

  lemma NotInPrefix(d: string, i: nat)
    requires i < 18
    ensures !OccursAt(Lower("Unexpected error: " + d), i, "timeout")
  {
    var s := "Unexpected error: " + d;
    if OccursAt(Lower(s), i, "timeout") {
      TimeoutThirdLetter(s, i);
      assert false;
    }
  }

  lemma ShiftOccurrence(p: string, d: string, i: nat)
    ensures OccursAt(Lower(p + d), i + |p|, "timeout") <==> OccursAt(Lower(d), i, "timeout")
  {
    if i + 7 <= |d| {
      assert Lower(p + d)[i + |p|..i + |p| + 7] == Lower(d)[i..i + 7];
    }
  }

  /** The timeout message is recognised as a timeout by its text. */
  lemma TimeoutIsRecognised()
    ensures Contains(Lower(ErrorMessage(SingleTimeout)), "timeout")
  {
    var m := ErrorMessage(SingleTimeout);
    assert m[12..19] == "timeout";
    LowerSlice(m, 12, 19);
    assert Lower("timeout") == "timeout";
    assert OccursAt(Lower(m), 12, "timeout");
  }
}
