/** The quoted-span scanner: the left-to-right matches of the pattern
    `"([^"]*)"` over one line, as re.finditer produces them. */
module Scanner {
  import opened Text

  /** One match: `start` is the index of the opening quote, `end` is one past
      the closing quote, `content` is the text between them (group 1). */
  datatype Match = Match(start: nat, end: nat, content: string)

  /** Spans lie inside the line, in increasing order, without overlap. */
  predicate Disjoint(line: string, ms: seq<Match>) {
    && (forall i | 0 <= i < |ms| :: ms[i].start <= ms[i].end <= |line|)
    && (forall i, j | 0 <= i < j < |ms| :: ms[i].end <= ms[j].start)
  }

  /** `m` is a genuine match of the pattern in `line`. */
  predicate IsQuoted(line: string, m: Match) {
    && m.start + 2 <= m.end <= |line|
    && line[m.start] == '"' && line[m.end - 1] == '"'
    && m.content == line[m.start + 1..m.end - 1]
    && '"' !in m.content
  }

  predicate WellFormed(line: string, ms: seq<Match>) {
    Disjoint(line, ms) && forall i | 0 <= i < |ms| :: IsQuoted(line, ms[i])
  }

  /** Index of the next quote character at or after `from`. */
  function NextQuote(s: string, from: nat): (r: Option<nat>)
    ensures r.Some? ==> from <= r.value < |s| && s[r.value] == '"'
    decreases |s| - from
  {
    if from >= |s| then None
    else if s[from] == '"' then Some(from)
    else NextQuote(s, from + 1)
  }

  /** No quote lies between `from` and the one found. */
  lemma {:induction false} NextQuoteFirst(s: string, from: nat, p: nat)
    requires NextQuote(s, from) == Some(p)
    ensures forall j | from <= j < p :: s[j] != '"'
    decreases |s| - from
  {
    if s[from] != '"' {
      NextQuoteFirst(s, from + 1, p);
    }
  }

  /** A quote at `j` is found, or an earlier one is. */
  lemma {:induction false} NextQuoteAtMost(s: string, from: nat, j: nat)
    requires from <= j < |s| && s[j] == '"'
    ensures NextQuote(s, from).Some? && NextQuote(s, from).value <= j
    decreases j - from
  {
    if s[from] != '"' {
      NextQuoteAtMost(s, from + 1, j);
    }
  }

  /** The matches that start at or after `from`. An opening quote with no
      closing quote ends the scan: no later quote exists to pair with. */
  function ScanFrom(s: string, from: nat): seq<Match>
    decreases |s| - from
  {
    match NextQuote(s, from)
    case None => []
    case Some(p) =>
      match NextQuote(s, p + 1)
      case None => []
      case Some(q) => [Match(p, q + 1, s[p + 1..q])] + ScanFrom(s, q + 1)
  }

  /** The scan yields genuine quoted spans, in order and without overlap,
      all starting at or after `from`. */
  lemma {:induction false} ScanWellFormed(s: string, from: nat)
    ensures WellFormed(s, ScanFrom(s, from))
    ensures forall i | 0 <= i < |ScanFrom(s, from)| :: from <= ScanFrom(s, from)[i].start
    decreases |s| - from
  {
    match NextQuote(s, from)
    case None =>
    case Some(p) =>
      match NextQuote(s, p + 1)
      case None =>
      case Some(q) =>
        var m := Match(p, q + 1, s[p + 1..q]);
        var rest := ScanFrom(s, q + 1);
        ScanWellFormed(s, q + 1);
        NextQuoteFirst(s, p + 1, q);
        QuoteFreeBetween(s, p, q);
        PrependMatch(s, m, rest);
        ScanStep(s, from, p, q);
        var r := [m] + rest;
        forall i | 0 <= i < |r| ensures from <= r[i].start {
          if i > 0 { assert r[i] == rest[i - 1]; }
        }
  }

  lemma QuoteFreeBetween(s: string, p: nat, q: nat)
    requires p < q < |s|
    requires forall j | p + 1 <= j < q :: s[j] != '"'
    ensures '"' !in s[p + 1..q]
  {
    var t := s[p + 1..q];
    forall k | 0 <= k < |t| ensures t[k] != '"' {
      assert t[k] == s[p + 1 + k];
    }
  }

  lemma PrependMatch(s: string, m: Match, rest: seq<Match>)
    requires IsQuoted(s, m) && WellFormed(s, rest)
    requires forall i | 0 <= i < |rest| :: m.end <= rest[i].start
    ensures WellFormed(s, [m] + rest)
  {
    var r := [m] + rest;
    forall i, j | 0 <= i < j < |r| ensures r[i].end <= r[j].start {
      if i > 0 {
        assert r[i] == rest[i - 1] && r[j] == rest[j - 1];
      } else {
        assert r[j] == rest[j - 1];
      }
    }
    forall i | 0 <= i < |r| ensures IsQuoted(s, r[i]) {
      if i > 0 { assert r[i] == rest[i - 1]; }
    }
  }

  /** re.finditer(r'"([^"]*)"', line). */
  function FindQuotes(line: string): (r: seq<Match>)
    ensures WellFormed(line, r)
  {
    ScanWellFormed(line, 0);
    ScanFrom(line, 0)
  }

  /** Position j holds the opening or the closing quote of one of `ms`. */
  predicate Covers(ms: seq<Match>, j: nat) {
    exists i | 0 <= i < |ms| :: ms[i].start == j || ms[i].end == j + 1
  }

  lemma CoversCons(m: Match, rest: seq<Match>, j: nat)
    requires Covers(rest, j)
    ensures Covers([m] + rest, j)
  {
    var i :| 0 <= i < |rest| && (rest[i].start == j || rest[i].end == j + 1);
    assert ([m] + rest)[i + 1] == rest[i];
  }

  /** The first match found from `from` on opens at the next quote and closes
      at the quote after it. */
  lemma ScanStep(s: string, from: nat, p: nat, q: nat)
    requires NextQuote(s, from) == Some(p) && NextQuote(s, p + 1) == Some(q)
    ensures ScanFrom(s, from) == [Match(p, q + 1, s[p + 1..q])] + ScanFrom(s, q + 1)
  {
  }

  lemma CoversHead(m: Match, rest: seq<Match>, j: nat)
    requires m.start == j || m.end == j + 1
    ensures Covers([m] + rest, j)
  {
    assert ([m] + rest)[0] == m;
  }

  /** Every quote character from `from` on, except a last unpaired one, is
      the opening or the closing quote of some match: the scanner loses no
      quoted span. */
  lemma {:induction false} ScanCoversQuotes(s: string, from: nat, j: nat, k: nat)
    requires from <= j < k < |s| && s[j] == '"' && s[k] == '"'
    ensures Covers(ScanFrom(s, from), j)
    decreases |s| - from
  {
    NextQuoteAtMost(s, from, j);
    var p := NextQuote(s, from).value;
    if p == j {
      NextQuoteAtMost(s, p + 1, k);
      var q := NextQuote(s, p + 1).value;
      ScanStep(s, from, p, q);
      CoversHead(Match(p, q + 1, s[p + 1..q]), ScanFrom(s, q + 1), j);
    } else {
      NextQuoteAtMost(s, p + 1, j);
      var q := NextQuote(s, p + 1).value;
      ScanStep(s, from, p, q);
      if q == j {
        CoversHead(Match(p, q + 1, s[p + 1..q]), ScanFrom(s, q + 1), j);
      } else {
        ScanCoversQuotes(s, q + 1, j, k);
        CoversCons(Match(p, q + 1, s[p + 1..q]), ScanFrom(s, q + 1), j);
      }
    }
  }
}
