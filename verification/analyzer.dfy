/**
 * The analyzer front end (`BaseAnalyzer.analyze`). The transducer is an
 * oracle `lookup` from a word to its reply, already cut by the two characters
 * of the final escaped line break; alternative analyses in a reply are
 * separated by the two characters backslash and `n`.
 */
module Analyzer {
  import opened Wrappers
  import opened Errors
  import opened Strings
  import opened Parser
  import opened Disambiguation
  import opened Reduplication
  import opened Classifier

  /** The escaped line break between alternative analyses: a backslash followed by `n`. */
  const LineBreak: string := "\\n"

  /** The configured analyzer: the transducer and the `disambiguate` flag, absent unless given. */
  datatype Analyzer = Analyzer(lookup: string -> string, disambiguate: Option<bool>)

  /** `__init__`: only the `disambiguate` keyword is kept; every other keyword is dropped. */
  function FromKeywords(lookup: string -> string, kwargs: map<string, bool>): (a: Analyzer)
    ensures a.lookup == lookup
    ensures a.disambiguate.Some? <==> "disambiguate" in kwargs
    ensures a.disambiguate.Some? ==> a.disambiguate.value == kwargs["disambiguate"]
  {
    Analyzer(lookup, if "disambiguate" in kwargs then Some(kwargs["disambiguate"]) else None)
  }

  /** Keywords other than `disambiguate` make no difference. */
  lemma OtherKeywordsIgnored(lookup: string -> string, kwargs: map<string, bool>, key: string, value: bool)
    requires key != "disambiguate"
    ensures FromKeywords(lookup, kwargs[key := value]) == FromKeywords(lookup, kwargs)
  {
  }

  ghost predicate Distinct(xs: seq<string>) {
    forall i, j :: 0 <= i < j < |xs| ==> xs[i] != xs[j]
  }

  /** `list(set(xs))`, with the order fixed to first occurrence. */
  function Dedup(xs: seq<string>): (r: seq<string>)
    ensures Distinct(r)
    ensures forall x :: x in r <==> x in xs
    ensures |r| <= |xs|
  {
    if |xs| == 0 then []
    else
      var d := Dedup(xs[..|xs| - 1]);
      var last := xs[|xs| - 1];
      assert xs == xs[..|xs| - 1] + [last];
      if last in d then d else d + [last]
  }

  /** Removing duplicates from a list without any leaves it unchanged. */
  lemma {:induction false} DedupOfDistinct(xs: seq<string>)
    requires Distinct(xs)
    ensures Dedup(xs) == xs
  {
    if |xs| > 0 {
      var init := xs[..|xs| - 1];
      assert Distinct(init);
      DedupOfDistinct(init);
      assert xs[|xs| - 1] !in init;
      assert init + [xs[|xs| - 1]] == xs;
    }
  }

  /** Removing duplicates twice is the same as once. */
  lemma DedupIdempotent(xs: seq<string>)
    ensures Dedup(Dedup(xs)) == Dedup(xs)
  {
    DedupOfDistinct(Dedup(xs));
  }

  /** The transducer's reply, or the unknown-word analysis when it has none. */
  function Reply(a: Analyzer, word: string, isWordChar: char -> bool): (r: Result<string, Error>)
    ensures a.lookup(word) != Unknown ==> r == Success(a.lookup(word))
    ensures a.lookup(word) == Unknown ==> r == AnalyzeUnknown(word, a.lookup, isWordChar)
    ensures r.Success? ==> r.value != Unknown
  {
    var reply := a.lookup(word);
    if reply == Unknown then AnalyzeUnknown(word, a.lookup, isWordChar) else Success(reply)
  }

  /**
   * The distinct analyses `analyze` returns, before joining: the reply's
   * alternatives without duplicates, narrowed by the disambiguator when the
   * flag is set and there is more than one. A missing flag is an error once
   * the reply is in.
   */
  function AnalyzeLines(a: Analyzer, word: string, isWordChar: char -> bool): (r: Result<seq<string>, Error>)
    ensures r.Success? ==> Reply(a, word, isWordChar).Success? && a.disambiguate.Some?
    ensures Reply(a, word, isWordChar).Failure? ==> r == Failure(Reply(a, word, isWordChar).error)
    ensures a.disambiguate.None? && Reply(a, word, isWordChar).Success? ==> r == Failure(MissingFlag("disambiguate"))
    ensures a.disambiguate.Some? && Reply(a, word, isWordChar).Success? ==>
      var lines := Dedup(Split(Reply(a, word, isWordChar).value, LineBreak));
      && (!a.disambiguate.value || |lines| <= 1 ==> r == Success(lines))
      && (a.disambiguate.value && |lines| > 1 ==> r == Disambiguate(lines))
    ensures r.Success? ==>
      var pieces := Split(Reply(a, word, isWordChar).value, LineBreak);
      && |r.value| >= 1
      && Distinct(r.value)
      && (forall l :: l in r.value ==> l in pieces)
      && (a.disambiguate == Some(true) ==> |r.value| <= 2)
      && (a.disambiguate == Some(false) ==> forall l :: l in r.value <==> l in pieces)
  {
    var analysis :- Reply(a, word, isWordChar);
    var lines := Dedup(Split(analysis, LineBreak));
    if a.disambiguate.None? then Failure(MissingFlag("disambiguate"))
    else if a.disambiguate.value && |lines| > 1 then
      var kept :- Disambiguate(lines);
      assert |lines| != 2 ==> kept == lines[..2];
      Success(kept)
    else Success(lines)
  }

  /** Alternatives taken from the split reply, joined again, split back into exactly themselves. */
  lemma JoinedLinesSplitBack(lines: seq<string>, reply: string)
    requires |lines| >= 1
    requires forall l :: l in lines ==> l in Split(reply, LineBreak)
    ensures Split(Join(lines, LineBreak), LineBreak) == lines
  {
    SplitSpec(reply, LineBreak);
    forall k | 0 <= k < |lines|
      ensures !Contains(lines[k], LineBreak)
    {
      assert lines[k] in Split(reply, LineBreak);
    }
    SplitOfJoin(lines, LineBreak);
  }

  /**
   * `analyze`: the remaining analyses joined by the escaped line break. The
   * answer splits back into exactly those analyses.
   */
  function Analyze(a: Analyzer, word: string, isWordChar: char -> bool): (r: Result<string, Error>)
    ensures r.Success? <==> AnalyzeLines(a, word, isWordChar).Success?
    ensures r.Failure? ==> r.error == AnalyzeLines(a, word, isWordChar).error
    ensures r.Success? ==> Split(r.value, LineBreak) == AnalyzeLines(a, word, isWordChar).value
  {
    var lines :- AnalyzeLines(a, word, isWordChar);
    JoinedLinesSplitBack(lines, Reply(a, word, isWordChar).value);
    Success(Join(lines, LineBreak))
  }

  /**
   * Without disambiguation the answer holds every alternative of the reply
   * exactly once. This does not depend on the order duplicates are removed in.
   */
  lemma EveryAnalysisOnce(a: Analyzer, word: string, isWordChar: char -> bool)
    requires a.disambiguate == Some(false) && Reply(a, word, isWordChar).Success?
    ensures Analyze(a, word, isWordChar).Success?
    ensures var answer := Split(Analyze(a, word, isWordChar).value, LineBreak);
      && Distinct(answer)
      && forall l :: l in answer <==> l in Split(Reply(a, word, isWordChar).value, LineBreak)
  {
  }

  /** Without disambiguation, a known word whose reply repeats no analysis gets that reply back unchanged. */
  lemma KnownWordUnchanged(a: Analyzer, word: string, isWordChar: char -> bool)
    requires a.lookup(word) != Unknown && a.disambiguate == Some(false)
    requires Distinct(Split(a.lookup(word), LineBreak))
    ensures Analyze(a, word, isWordChar) == Success(a.lookup(word))
  {
    var pieces := Split(a.lookup(word), LineBreak);
    DedupOfDistinct(pieces);
    SplitSpec(a.lookup(word), LineBreak);
  }

  /** A word with one analysis is never touched by the disambiguator. */
  lemma SingleAnalysisUnchanged(a: Analyzer, word: string, isWordChar: char -> bool)
    requires a.disambiguate.Some?
    requires Reply(a, word, isWordChar).Success?
    requires !Contains(Reply(a, word, isWordChar).value, LineBreak)
    ensures Analyze(a, word, isWordChar) == Reply(a, word, isWordChar)
  {
    var reply := Reply(a, word, isWordChar).value;
    SplitSpec(reply, LineBreak);
    assert Dedup([reply]) == [reply];
  }

  /** An unknown capitalised word comes back as a proper noun. */
  lemma UnknownNameExample(a: Analyzer, word: string)
    requires word == "Maria"
    requires a.lookup(word) == Unknown && a.disambiguate.Some?
    ensures Analyze(a, word, AsciiWordChar) == Success("Maria+PROPN")
  {
    MariaExample(word, a.lookup);
    var reply := "Maria+PROPN";
    assert '\\' !in reply;
    MissingCharNoPair(reply, LineBreak);
    SingleAnalysisUnchanged(a, word, AsciiWordChar);
  }

  /** A reply of two different analyses without backslashes splits into those two, already free of repeats. */
  lemma TwoAnalysesReply(reply: string, first: string, second: string)
    requires reply == first + LineBreak + second && first != second
    requires '\\' !in first && '\\' !in second
    ensures Dedup(Split(reply, LineBreak)) == [first, second]
  {
    MissingCharNoPair(first, LineBreak);
    MissingCharNoPair(second, LineBreak);
    assert Join([first, second], LineBreak) == reply;
    SplitOfJoin([first, second], LineBreak);
    assert Distinct([first, second]);
    DedupOfDistinct([first, second]);
  }

  /**
   * With disambiguation on, a reply of two tagged analyses whose lemmas
   * differ in length is answered with the one with the longer lemma.
   */
  lemma AmbiguousReplyResolved(a: Analyzer, word: string, first: string, second: string)
    requires a.lookup(word) == first + LineBreak + second && a.disambiguate == Some(true)
    requires first != second && '\\' !in first && '\\' !in second
    requires Postag(first).Success? && Postag(second).Success?
    requires |Lemma(first)| != |Lemma(second)|
    ensures Analyze(a, word, AsciiWordChar) == Success(if |Lemma(first)| > |Lemma(second)| then first else second)
  {
    var reply := a.lookup(word);
    assert reply != Unknown by {
      assert reply[|first|] == '\\';
    }
    assert Reply(a, word, AsciiWordChar) == Success(reply);
    TwoAnalysesReply(reply, first, second);
    LongerLemmaWins(first, second);
  }
}
