/** The span classifier: decides whether a quoted span of a Ren'Py script
    line is prose to translate or a code/asset reference to leave alone. */
module Classifier {
  import opened Text

  /** Statement openers and inline-code markers; a span whose preceding text
      starts with one of them is not translated. */
  const SkipKeywords: seq<string> := [
    "show ", "scene ", "play ", "stop ", "queue ",
    "image ", "define ", "transform ", "screen ",
    "jump ", "call ", "return", "menu:", "if ",
    "python:", "init ", "label ", "with ",
    "hide ", "at ", "as ", "$", "pause",
    "nvl ", "window ", "voice ", "sound ",
    "music ", "audio ", "renpy.", "camera "
  ]

  /** Asset file endings; a span ending in one of them names a file. */
  const AssetExtensions: seq<string> := [".png", ".jpg", ".mp3", ".ogg", ".wav"]

  /** The line up to the opening quote, stripped and lower-cased. */
  function BeforeQuote(line: string, start: nat): string
    requires start <= |line|
  {
    Lower(Strip(line[..start]))
  }

  /** The keyword loop: does `s` start with the lower-cased form of some
      keyword? (StartsWithAnyMeans) */
  function StartsWithAny(s: string, keywords: seq<string>): bool
    decreases |keywords|
  {
    keywords != [] && (StartsWith(s, Lower(keywords[0])) || StartsWithAny(s, keywords[1..]))
  }

  lemma {:induction false} StartsWithAnyMeans(s: string, keywords: seq<string>)
    ensures StartsWithAny(s, keywords) <==> exists k | 0 <= k < |keywords| :: StartsWith(s, Lower(keywords[k]))
    decreases |keywords|
  {
    if keywords != [] {
      StartsWithAnyMeans(s, keywords[1..]);
      assert forall k | 1 <= k < |keywords| :: keywords[k] == keywords[1..][k - 1];
    }
  }

  /** str.endswith with a tuple of suffixes (EndsWithAnyMeans). */
  function EndsWithAny(s: string, suffixes: seq<string>): bool
    decreases |suffixes|
  {
    suffixes != [] && (EndsWith(s, suffixes[0]) || EndsWithAny(s, suffixes[1..]))
  }

  lemma {:induction false} EndsWithAnyMeans(s: string, suffixes: seq<string>)
    ensures EndsWithAny(s, suffixes) <==> exists k | 0 <= k < |suffixes| :: EndsWith(s, suffixes[k])
    decreases |suffixes|
  {
    if suffixes != [] {
      EndsWithAnyMeans(s, suffixes[1..]);
      assert forall k | 1 <= k < |suffixes| :: suffixes[k] == suffixes[1..][k - 1];
    }
  }

  /** Does the span content look like an asset file or a path? */
  predicate LooksLikeAsset(content: string) {
    EndsWithAny(content, AssetExtensions) || '/' in content || '\\' in content
  }

  /** Decide translate (true) or skip (false) for the span of `line` whose
      opening quote is at `start` and whose text between the quotes is
      `content` (ShouldTranslateRules lists every skip rule). */
  function ShouldTranslate(line: string, start: nat, content: string): (r: bool)
    requires start <= |line|
    ensures r ==> !LooksLikeAsset(content)
    ensures r ==> '$' !in BeforeQuote(line, start) && !EndsWith(BeforeQuote(line, start), ":")
  {
    var before := BeforeQuote(line, start);
    if StartsWithAny(before, SkipKeywords) then false
    else if '$' in before then false
    else if EndsWith(before, ":") then false
    else if EndsWith(before, "old") then false
    else !LooksLikeAsset(content)
  }

  /** A span is skipped exactly when one of the rules fires. */
  lemma ShouldTranslateRules(line: string, start: nat, content: string)
    requires start <= |line|
    ensures !ShouldTranslate(line, start, content) <==>
      || (exists k | 0 <= k < |SkipKeywords| :: StartsWith(BeforeQuote(line, start), Lower(SkipKeywords[k])))
      || '$' in BeforeQuote(line, start)
      || EndsWith(BeforeQuote(line, start), ":")
      || EndsWith(BeforeQuote(line, start), "old")
      || (exists k | 0 <= k < |AssetExtensions| :: EndsWith(content, AssetExtensions[k]))
      || '/' in content || '\\' in content
  {
    StartsWithAnyMeans(BeforeQuote(line, start), SkipKeywords);
    EndsWithAnyMeans(content, AssetExtensions);
  }

  /** The decision reads nothing but the line up to the quote and the span
      text: later spans, earlier decisions and the rest of the line cannot
      change it. */
  lemma ShouldTranslateLocal(line1: string, start1: nat, line2: string, start2: nat, content: string)
    requires start1 <= |line1| && start2 <= |line2|
    requires line1[..start1] == line2[..start2]
    ensures ShouldTranslate(line1, start1, content) == ShouldTranslate(line2, start2, content)
  {
  }

  /** A span is never translated when the text before it, once stripped,
      starts with a `show` statement. */
  lemma ShowStatementSkipped(line: string, start: nat, content: string)
    requires start <= |line|
    requires StartsWith(Strip(line[..start]), "show ")
    ensures !ShouldTranslate(line, start, content)
  {
    var s := Strip(line[..start]);
    LowerShow();
    LowerKeepsPrefix(s, "show ");
    StartsWithFirst(BeforeQuote(line, start), SkipKeywords);
  }

  lemma LowerShow()
    ensures Lower("show ") == "show "
  {
  }

  /** Lower-casing keeps a prefix that has no capitals. */
  lemma LowerKeepsPrefix(s: string, p: string)
    requires StartsWith(s, p) && Lower(p) == p
    ensures StartsWith(Lower(s), p)
  {
    assert Lower(s)[..|p|] == Lower(s[..|p|]);
  }

  lemma StartsWithFirst(s: string, keywords: seq<string>)
    requires keywords != [] && StartsWith(s, Lower(keywords[0]))
    ensures StartsWithAny(s, keywords)
  {
  }

  /** Any span whose content ends in `.png` is skipped, wherever it stands. */
  lemma PngAssetSkipped(line: string, start: nat, content: string)
    requires start <= |line|
    requires EndsWith(content, ".png")
    ensures !ShouldTranslate(line, start, content)
  {
    assert EndsWith(content, AssetExtensions[0]);
  }

  /** A span at the very start of a line, with no slash, backslash or asset
      ending, is translated: no rule about the preceding text can fire on
      an empty prefix. */
  lemma LeadingProseTranslated(line: string, content: string)
    requires !LooksLikeAsset(content)
    ensures ShouldTranslate(line, 0, content)
  {
    assert line[..0] == [];
    assert BeforeQuote(line, 0) == [];
    NoKeywordEmpty(SkipKeywords);
  }

  /** The empty text starts with no non-empty keyword. */
  lemma {:induction false} NoKeywordEmpty(keywords: seq<string>)
    requires forall k | 0 <= k < |keywords| :: keywords[k] != []
    ensures !StartsWithAny([], keywords)
    decreases |keywords|
  {
    if keywords != [] {
      assert Lower(keywords[0]) != [];
      NoKeywordEmpty(keywords[1..]);
    }
  }
}
