/** String primitives with the meaning Python's str methods give them:
    strip/rstrip, lower/upper, `in`, startswith/endswith, split and join. */
module Text {

  datatype Option<T> = None | Some(value: T)

  /** Python's str.isspace() for a single character. */
  predicate IsSpace(c: char) {
    c == ' ' || ('\t' <= c <= '\r') || ('\U{1C}' <= c <= '\U{1F}')
    || c == '\U{85}' || c == '\U{A0}' || c == '\U{1680}'
    || ('\U{2000}' <= c <= '\U{200A}') || c == '\U{2028}' || c == '\U{2029}'
    || c == '\U{202F}' || c == '\U{205F}' || c == '\U{3000}'
  }

  function LStrip(s: string): (r: string)
    ensures |r| <= |s| && r == s[|s| - |r|..]
    ensures forall i | 0 <= i < |s| - |r| :: IsSpace(s[i])
    ensures r == [] || !IsSpace(r[0])
  {
    if s != [] && IsSpace(s[0]) then LStrip(s[1..]) else s
  }

  /** Python's str.rstrip() with no argument. */
  function RStrip(s: string): (r: string)
    ensures |r| <= |s| && r == s[..|r|]
    ensures forall i | |r| <= i < |s| :: IsSpace(s[i])
    ensures r == [] || !IsSpace(r[|r| - 1])
  {
    if s != [] && IsSpace(s[|s| - 1]) then RStrip(s[..|s| - 1]) else s
  }

  /** Python's str.strip() with no argument. */
  function Strip(s: string): string {
    RStrip(LStrip(s))
  }

  /** `not s.strip()`: the string is empty or made of white space only
      (BlankIffStripEmpty). */
  predicate IsBlank(s: string)
    decreases |s|
  {
    s == [] || (IsSpace(s[0]) && IsBlank(s[1..]))
  }

  /** A string that strip() leaves alone. */
  predicate IsTrimmed(s: string) {
    s == [] || (!IsSpace(s[0]) && !IsSpace(s[|s| - 1]))
  }

  lemma LStripTrimmed(s: string)
    requires s == [] || !IsSpace(s[0])
    ensures LStrip(s) == s
  {
  }

  lemma RStripTrimmed(s: string)
    requires s == [] || !IsSpace(s[|s| - 1])
    ensures RStrip(s) == s
  {
  }

  /** strip() returns exactly the trimmed strings unchanged, and its result is trimmed. */
  lemma StripFixesTrimmed(s: string)
    ensures IsTrimmed(Strip(s))
    ensures Strip(s) == s <==> IsTrimmed(s)
  {
    var l := LStrip(s);
    var r := RStrip(l);
    if r != [] {
      assert r[0] == l[0];
    }
    if IsTrimmed(s) {
      LStripTrimmed(s);
      RStripTrimmed(s);
    }
  }

  /** strip() is idempotent. */
  lemma StripIdempotent(s: string)
    ensures Strip(Strip(s)) == Strip(s)
  {
    StripFixesTrimmed(s);
    StripFixesTrimmed(Strip(s));
  }

  /** A string is blank exactly when every character is white space. */
  lemma {:induction false} BlankIffAllSpace(s: string)
    ensures IsBlank(s) <==> forall i | 0 <= i < |s| :: IsSpace(s[i])
    decreases |s|
  {
    if s != [] {
      BlankIffAllSpace(s[1..]);
      assert forall i | 1 <= i < |s| :: s[i] == s[1..][i - 1];
    }
  }

  /** Blank is what strip() empties. */
  lemma BlankIffStripEmpty(s: string)
    ensures IsBlank(s) <==> Strip(s) == []
  {
    BlankIffAllSpace(s);
    var r := LStrip(s);
    if r != [] {
      assert s[|s| - |r|] == r[0];
    }
  }

  function LowerChar(c: char): char {
    if 'A' <= c <= 'Z' then (c as int + 32) as char else c
  }

  function UpperChar(c: char): char {
    if 'a' <= c <= 'z' then (c as int - 32) as char else c
  }

  /** Python's str.lower(), restricted to the ASCII letters. */
  function Lower(s: string): (r: string)
    ensures |r| == |s|
    ensures forall i | 0 <= i < |s| :: r[i] == LowerChar(s[i])
  {
    seq(|s|, i requires 0 <= i < |s| => LowerChar(s[i]))
  }

  /** Python's str.upper(), restricted to the ASCII letters. */
  function Upper(s: string): (r: string)
    ensures |r| == |s|
    ensures forall i | 0 <= i < |s| :: r[i] == UpperChar(s[i])
  {
    seq(|s|, i requires 0 <= i < |s| => UpperChar(s[i]))
  }

  predicate StartsWith(s: string, prefix: string) {
    |prefix| <= |s| && s[..|prefix|] == prefix
  }

  predicate EndsWith(s: string, suffix: string) {
    |suffix| <= |s| && s[|s| - |suffix|..] == suffix
  }

  /** `pat` occurs in `s` starting at index i. */
  predicate OccursAt(s: string, i: int, pat: string) {
    0 <= i && i + |pat| <= |s| && s[i..i + |pat|] == pat
  }

  /** Python's `pat in s`. */
  predicate Contains(s: string, pat: string) {
    exists i | 0 <= i <= |s| - |pat| :: OccursAt(s, i, pat)
  }

  /** The leftmost occurrence of `pat` at or after `from` (str.find). */
  function FindFrom(s: string, pat: string, from: nat): (r: Option<nat>)
    requires pat != []
    ensures r.Some? ==> from <= r.value && OccursAt(s, r.value, pat)
    ensures r.Some? ==> forall j | from <= j < r.value :: !OccursAt(s, j, pat)
    ensures r.None? ==> forall j | from <= j :: !OccursAt(s, j, pat)
    decreases |s| - from
  {
    if from + |pat| > |s| then None
    else if OccursAt(s, from, pat) then Some(from)
    else FindFrom(s, pat, from + 1)
  }

  /** FindFrom agrees with Contains. */
  lemma FindFromContains(s: string, pat: string)
    requires pat != []
    ensures FindFrom(s, pat, 0).Some? <==> Contains(s, pat)
  {
    var r := FindFrom(s, pat, 0);
    if r.Some? {
      assert OccursAt(s, r.value, pat);
    }
  }

  /** Python's s.split(sep) for a non-empty separator: cut at the leftmost
      non-overlapping occurrences. */
  function Split(s: string, sep: string): (r: seq<string>)
    requires sep != []
    ensures |r| >= 1
    decreases |s|
  {
    match FindFrom(s, sep, 0)
    case None => [s]
    case Some(i) => [s[..i]] + Split(s[i + |sep|..], sep)
  }

  /** Python's sep.join(parts). */
  function Join(parts: seq<string>, sep: string): string
    decreases |parts|
  {
    if |parts| == 0 then []
    else if |parts| == 1 then parts[0]
    else parts[0] + sep + Join(parts[1..], sep)
  }

  /** No occurrence of `sep` begins inside `t`, not even one that runs on into
      a separator written right after `t`. */
  predicate BoundaryClean(t: string, sep: string) {
    forall i | 0 <= i < |t| :: !OccursAt(t + sep, i, sep)
  }

  lemma BoundaryCleanHasNoSeparator(t: string, sep: string)
    requires sep != [] && BoundaryClean(t, sep)
    ensures !Contains(t, sep)
  {
    forall i | 0 <= i <= |t| - |sep|
      ensures !OccursAt(t, i, sep)
    {
      assert !OccursAt(t + sep, i, sep);
      assert (t + sep)[i..i + |sep|] == t[i..i + |sep|];
    }
  }

  /** The first separator in `t + sep + rest` is the one written after `t`. */
  lemma FirstSeparatorAfter(t: string, sep: string, rest: string)
    requires sep != [] && BoundaryClean(t, sep)
    ensures FindFrom(t + sep + rest, sep, 0) == Some(|t|)
  {
    var s := t + sep + rest;
    assert s[|t|..|t| + |sep|] == sep;
    assert OccursAt(s, |t|, sep);
    forall j | 0 <= j < |t|
      ensures !OccursAt(s, j, sep)
    {
      assert !OccursAt(t + sep, j, sep);
      assert s[j..j + |sep|] == (t + sep)[j..j + |sep|];
    }
  }

  /** Splitting a join gives the parts back when no part lets a separator
      begin inside it. */
  lemma {:induction false} SplitJoin(parts: seq<string>, sep: string)
    requires sep != [] && parts != []
    requires forall k | 0 <= k < |parts| :: BoundaryClean(parts[k], sep)
    ensures Split(Join(parts, sep), sep) == parts
    decreases |parts|
  {
    if |parts| == 1 {
      BoundaryCleanHasNoSeparator(parts[0], sep);
      FindFromContains(parts[0], sep);
    } else {
      var t := parts[0];
      var rest := Join(parts[1..], sep);
      var s := t + sep + rest;
      FirstSeparatorAfter(t, sep, rest);
      assert s[..|t|] == t;
      assert s[|t| + |sep|..] == rest;
      SplitJoin(parts[1..], sep);
      assert parts == [t] + parts[1..];
    }
  }
}
