/** The line rewriter: put a quoted translation in place of each chosen span
    of a line, copying the text between spans unchanged. */
module Rewrite {
  import opened Scanner

  function Quote(v: string): string {
    "\"" + v + "\""
  }

  /** The spans are disjoint and none starts before `pos`. */
  predicate SplicableFrom(line: string, pos: nat, spans: seq<Match>) {
    pos <= |line| && Disjoint(line, spans) && (spans != [] ==> pos <= spans[0].start)
  }

  /** Reference definition of a rewritten line, read left to right from
      `pos`: the text between consecutive spans is copied verbatim and span
      i becomes Quote(vals[i]). */
  function SpliceFrom(line: string, pos: nat, spans: seq<Match>, vals: seq<string>): string
    requires |spans| == |vals| && SplicableFrom(line, pos, spans)
    decreases |spans|
  {
    if spans == [] then line[pos..]
    else line[pos..spans[0].start] + Quote(vals[0]) + SpliceFrom(line, spans[0].end, spans[1..], vals[1..])
  }

  lemma DisjointTail(line: string, spans: seq<Match>, k: nat)
    requires Disjoint(line, spans) && k <= |spans|
    ensures Disjoint(line, spans[k..])
  {
    var t := spans[k..];
    forall i, j | 0 <= i < j < |t| ensures t[i].end <= t[j].start {
      assert t[i] == spans[k + i] && t[j] == spans[k + j];
    }
  }

  /** Moving the starting point forward over untouched text. */
  lemma {:induction false} SpliceShift(line: string, p: nat, q: nat, spans: seq<Match>, vals: seq<string>)
    requires |spans| == |vals| && SplicableFrom(line, p, spans)
    requires p <= q <= |line| && (spans != [] ==> q <= spans[0].start)
    ensures SplicableFrom(line, q, spans)
    ensures SpliceFrom(line, p, spans, vals) == line[p..q] + SpliceFrom(line, q, spans, vals)
  {
    if spans != [] {
      var s0 := spans[0].start;
      DisjointTail(line, spans, 1);
      var rest := SpliceFrom(line, spans[0].end, spans[1..], vals[1..]);
      assert SpliceFrom(line, p, spans, vals) == line[p..s0] + Quote(vals[0]) + rest;
      assert SpliceFrom(line, q, spans, vals) == line[q..s0] + Quote(vals[0]) + rest;
      assert line[p..s0] == line[p..q] + line[q..s0];
    } else {
      assert line[p..] == line[p..q] + line[q..];
    }
  }

  lemma SliceThree(s: string, a: nat, b: nat, c: nat)
    requires a <= b <= c <= |s|
    ensures s[a..] == s[a..b] + s[b..c] + s[c..]
  {
  }

  /** A genuine match is its content between two quotes. */
  lemma QuotedSpan(line: string, m: Match)
    requires IsQuoted(line, m)
    ensures line[m.start..m.end] == Quote(m.content)
  {
    assert line[m.start..m.end] == [line[m.start]] + line[m.start + 1..m.end - 1] + [line[m.end - 1]];
  }

  /** Replacing every span by its own content, quoted, gives the line back:
      text that is not translated comes out byte for byte. */
  lemma {:induction false} SpliceIdentity(line: string, pos: nat, spans: seq<Match>, vals: seq<string>)
    requires |spans| == |vals| && SplicableFrom(line, pos, spans)
    requires forall i | 0 <= i < |spans| :: IsQuoted(line, spans[i]) && vals[i] == spans[i].content
    ensures SpliceFrom(line, pos, spans, vals) == line[pos..]
    decreases |spans|
  {
    if spans != [] {
      var m := spans[0];
      DisjointTail(line, spans, 1);
      forall i | 0 <= i < |spans| - 1
        ensures IsQuoted(line, spans[1..][i]) && vals[1..][i] == spans[1..][i].content
      {
        assert spans[1..][i] == spans[i + 1] && vals[1..][i] == vals[i + 1];
      }
      SpliceIdentity(line, m.end, spans[1..], vals[1..]);
      assert SpliceFrom(line, pos, spans, vals)
          == line[pos..m.start] + Quote(vals[0]) + line[m.end..];
      assert IsQuoted(line, m) && vals[0] == m.content;
      QuotedSpan(line, m);
      SliceThree(line, pos, m.start, m.end);
    }
  }

  /** Span i is the next one replaced, reading from `pos`. */
  lemma SpliceUnfold(line: string, pos: nat, spans: seq<Match>, vals: seq<string>, i: nat)
    requires |spans| == |vals| && i < |spans| && SplicableFrom(line, pos, spans[i..])
    ensures SplicableFrom(line, spans[i].end, spans[i + 1..])
    ensures SpliceFrom(line, pos, spans[i..], vals[i..])
      == line[pos..spans[i].start] + Quote(vals[i]) + SpliceFrom(line, spans[i].end, spans[i + 1..], vals[i + 1..])
  {
    DisjointTail(line, spans[i..], 1);
    assert spans[i..][1..] == spans[i + 1..] && vals[i..][1..] == vals[i + 1..];
    if i + 1 < |spans| {
      assert spans[i..][0].end <= spans[i..][1].start;
    }
  }

  /** `re.sub` with a replacement per match: the line is rebuilt left to
      right, each span giving way to its quoted value. */
  method SubstituteAll(line: string, spans: seq<Match>, vals: seq<string>) returns (out: string)
    requires |spans| == |vals| && Disjoint(line, spans)
    ensures out == SpliceFrom(line, 0, spans, vals)
  {
    out := [];
    var pos: nat := 0;
    var i := 0;
    while i < |spans|
      invariant 0 <= i <= |spans|
      invariant SplicableFrom(line, pos, spans[i..])
      invariant out + SpliceFrom(line, pos, spans[i..], vals[i..]) == SpliceFrom(line, 0, spans, vals)
    {
      SpliceUnfold(line, pos, spans, vals, i);
      out := out + line[pos..spans[i].start] + Quote(vals[i]);
      pos := spans[i].end;
      i := i + 1;
    }
    assert spans[i..] == [] && vals[i..] == [];
    out := out + line[pos..];
  }

  /** The rewrite loop of the source: spans are visited in descending start
      order (the spans come from the scanner in increasing order, so the
      descending sort is the reverse), and each one is replaced in the
      current buffer at its original offsets. Visiting the later span first
      keeps every earlier offset valid, so the result is the left-to-right
      reference splice. */
  method ApplyDescending(line: string, spans: seq<Match>, vals: seq<string>) returns (out: string)
    requires |spans| == |vals| && Disjoint(line, spans)
    ensures out == SpliceFrom(line, 0, spans, vals)
  {
    out := line;
    var k := |spans|;
    DisjointTail(line, spans, k);
    while k > 0
      invariant 0 <= k <= |spans|
      invariant Disjoint(line, spans[k..])
      invariant SplicableFrom(line, 0, spans[k..])
      invariant out == SpliceFrom(line, 0, spans[k..], vals[k..])
      decreases k
    {
      var m := spans[k - 1];
      DisjointTail(line, spans, k - 1);
      assert spans[k - 1..][1..] == spans[k..];
      assert vals[k - 1..][1..] == vals[k..];
      assert spans[k..] != [] ==> m.end <= spans[k..][0].start;
      SpliceShift(line, 0, m.end, spans[k..], vals[k..]);
      assert out == line[..m.end] + SpliceFrom(line, m.end, spans[k..], vals[k..]);
      assert out[..m.start] == line[..m.start];
      assert out[m.end..] == SpliceFrom(line, m.end, spans[k..], vals[k..]);
      out := out[..m.start] + Quote(vals[k - 1]) + out[m.end..];
      k := k - 1;
    }
  }
}
