/**
 * The regular expressions of the analyzer as explicit predicates on the first
 * characters of a surface word. Python's `\w` is not fixed here: it is a
 * parameter `isWordChar` wherever the symbol class needs it.
 */
module Patterns {
  import opened Wrappers

  predicate IsLower(c: char) { 'a' <= c <= 'z' }

  predicate IsUpper(c: char) { 'A' <= c <= 'Z' }

  /** `[a-z]` under `re.IGNORECASE`, on ASCII letters. */
  predicate IsLetter(c: char) { IsLower(c) || IsUpper(c) }

  /** The punctuation class `“ ” , . ? ! ( ) — " : ' -` of the PUNCT and SYM patterns. */
  predicate IsPunct(c: char) {
    c in {'\U{201C}', '\U{201D}', ',', '.', '?', '!', '(', ')', '\U{2014}', '"', ':', '\'', '-'}
  }

  ghost predicate All(t: string, p: char -> bool) {
    forall k :: 0 <= k < |t| ==> p(t[k])
  }

  /** Length of the longest prefix of `s` whose characters satisfy `p` (a greedy `[...]*`). */
  function LeadingRun(s: string, p: char -> bool): (n: nat)
    ensures n <= |s|
    ensures All(s[..n], p)
    ensures n == |s| || !p(s[n])
    decreases |s|
  {
    if |s| == 0 || !p(s[0]) then 0
    else
      var m := LeadingRun(s[1..], p);
      assert s[..m + 1] == [s[0]] + s[1..][..m];
      m + 1
  }

  /** A run of `p`-characters of length `i` is exactly the leading run. */
  lemma LeadingRunIs(s: string, p: char -> bool, i: nat)
    requires i <= |s| && All(s[..i], p)
    requires i == |s| || !p(s[i])
    ensures LeadingRun(s, p) == i
  {
    var n := LeadingRun(s, p);
    if n < i {
      CharOfAll(s[..i], p, n);
    } else if i < n {
      CharOfAll(s[..n], p, i);
    }
  }

  lemma CharOfAll(t: string, p: char -> bool, k: int)
    requires All(t, p) && 0 <= k < |t|
    ensures p(t[k])
  {
  }

  /** The unanchored-at-the-end pattern `[a-z]+-[a-z]+` at the start of `s`, as the regex reads it. */
  ghost predicate ReduplicationPrefixAt(s: string, i: int, j: int) {
    0 < i && i + 1 < j <= |s| && All(s[..i], IsLower) && s[i] == '-' && All(s[i + 1..j], IsLower)
  }

  /**
   * `re.compile(r'([a-z]+)(\-)([a-z]+)').match(s)`: a lower-case run, a hyphen,
   * and at least one more lower-case letter at the start; whatever follows is
   * not looked at.
   */
  predicate StartsLikeReduplication(s: string)
  {
    var n := LeadingRun(s, IsLower);
    0 < n && n + 1 < |s| && s[n] == '-' && IsLower(s[n + 1])
  }

  lemma StartsLikeReduplicationMatchesRegex(s: string)
    ensures StartsLikeReduplication(s) <==> exists i, j :: ReduplicationPrefixAt(s, i, j)
  {
    var n := LeadingRun(s, IsLower);
    if StartsLikeReduplication(s) {
      assert s[n + 1..n + 2] == [s[n + 1]];
      assert ReduplicationPrefixAt(s, n, n + 2);
    }
    if exists i, j :: ReduplicationPrefixAt(s, i, j) {
      var i, j :| ReduplicationPrefixAt(s, i, j);
      LeadingRunIs(s, IsLower, i);
      CharOfAll(s[i + 1..j], IsLower, 0);
    }
  }

  /** `first-second`, two non-empty runs of letters around one hyphen. */
  ghost predicate IsHyphenatedAt(body: string, i: int) {
    0 < i < |body| - 1 && body[i] == '-' && All(body[..i], IsLetter) && All(body[i + 1..], IsLetter)
  }

  /**
   * `re.search(r'^([a-z]+)(\-)([a-z]+)$', s, re.IGNORECASE)`: the whole word is
   * letters, a hyphen and letters; as `$` also matches before a final line
   * break, one trailing `\n` is allowed.
   */
  ghost predicate MatchesReduplication(s: string) {
    Hyphenated(s) || (|s| > 0 && s[|s| - 1] == '\n' && Hyphenated(s[..|s| - 1]))
  }

  ghost predicate Hyphenated(body: string) {
    exists i :: IsHyphenatedAt(body, i)
  }

  /** The two groups of the anchored reduplication pattern, when it matches. */
  function ReduplicationHalves(s: string): (r: Option<(string, string)>)
    ensures r.Some? <==> MatchesReduplication(s)
    ensures r.Some? ==>
      var (first, second) := r.value;
      && |first| > 0 && All(first, IsLetter)
      && |second| > 0 && All(second, IsLetter)
      && (s == first + "-" + second || s == first + "-" + second + "\n")
  {
    var body := if |s| > 0 && s[|s| - 1] == '\n' then s[..|s| - 1] else s;
    var n := LeadingRun(body, IsLetter);
    if 0 < n < |body| - 1 && body[n] == '-' && LeadingRun(body[n + 1..], IsLetter) == |body| - n - 1 then
      var first, second := body[..n], body[n + 1..];
      assert second[..|second|] == second;
      assert IsHyphenatedAt(body, n);
      assert body == first + "-" + second;
      Some((first, second))
    else
      HyphenatedAtRun(body, n);
      NotHyphenatedWithLineBreak(s);
      None
  }

  /** If `body` splits as letters-hyphen-letters, the hyphen ends the leading letter run. */
  lemma HyphenatedAtRun(body: string, n: nat)
    requires n == LeadingRun(body, IsLetter)
    ensures Hyphenated(body) ==> IsHyphenatedAt(body, n)
  {
    if Hyphenated(body) {
      var i :| IsHyphenatedAt(body, i);
      LeadingRunIs(body, IsLetter, i);
    }
  }

  /** A word ending in a line break is not itself letters-hyphen-letters. */
  lemma NotHyphenatedWithLineBreak(s: string)
    ensures |s| > 0 && s[|s| - 1] == '\n' ==> !Hyphenated(s)
  {
    forall i | 0 < i < |s| - 1 && s[|s| - 1] == '\n'
      ensures !IsHyphenatedAt(s, i)
    {
      assert s[i + 1..][|s| - i - 2] == s[|s| - 1];
    }
  }

  /** Joining two letter runs with a hyphen gives back exactly those runs as the groups. */
  lemma ReduplicationHalvesOfJoin(first: string, second: string)
    requires |first| > 0 && All(first, IsLetter)
    requires |second| > 0 && All(second, IsLetter)
    ensures ReduplicationHalves(first + "-" + second) == Some((first, second))
  {
    var s := first + "-" + second;
    assert s[|s| - 1] == second[|second| - 1];
    CharOfAll(second, IsLetter, |second| - 1);
    assert s[..|first|] == first;
    assert s[|first| + 1..] == second;
    LeadingRunIs(s, IsLetter, |first|);
  }

  /** Case is ignored in the full pattern: `bata-Bata` splits into `bata` and `Bata`. */
  lemma MixedCaseHalves(first: string, second: string)
    requires first == "bata" && second == "Bata"
    ensures ReduplicationHalves(first + "-" + second) == Some((first, second))
  {
    assert All(first, IsLetter) && All(second, IsLetter);
    ReduplicationHalvesOfJoin(first, second);
  }
}
