/**
 * Choosing between candidate analyses of one word (`__analyze_ambiguity`).
 * Only a pair is actually resolved; from a longer list the first two
 * candidates come back untouched. Every candidate must still carry a tag.
 */
module Disambiguation {
  import opened Wrappers
  import opened Errors
  import opened Parser

  /** `[__get_postag(text) for text in analysis]`: the tags, in order, when every candidate has one. */
  function Postags(cands: seq<string>): (r: Result<seq<string>, Error>)
    ensures r.Success? <==> forall k :: 0 <= k < |cands| ==> Postag(cands[k]).Success?
    ensures r.Success? ==> |r.value| == |cands|
    ensures r.Success? ==> forall k :: 0 <= k < |cands| ==> Postag(cands[k]) == Success(r.value[k])
    ensures r.Failure? ==> r.error.MalformedAnalysis?
    decreases |cands|
  {
    if |cands| == 0 then Success([])
    else
      var head :- Postag(cands[0]);
      var tail :- Postags(cands[1..]);
      Success([head] + tail)
  }

  /** The comprehension stops at the first candidate without a tag, and its error names that candidate. */
  lemma {:induction false} PostagsFailsAtFirst(cands: seq<string>)
    requires Postags(cands).Failure?
    ensures exists k :: (0 <= k < |cands| && Postags(cands) == Failure(MalformedAnalysis(cands[k]))
      && Postag(cands[k]).Failure? && forall m :: 0 <= m < k ==> Postag(cands[m]).Success?)
    decreases |cands|
  {
    if Postag(cands[0]).Success? {
      var rest := cands[1..];
      PostagsFailsAtFirst(rest);
      var k :| 0 <= k < |rest| && Postags(rest) == Failure(MalformedAnalysis(rest[k]))
        && Postag(rest[k]).Failure? && forall m :: 0 <= m < k ==> Postag(rest[m]).Success?;
      assert Postags(cands) == Postags(rest);
      assert rest[k] == cands[k + 1];
      forall m | 0 <= m < k + 1 ensures Postag(cands[m]).Success? {
        if m > 0 { assert cands[m] == rest[m - 1]; }
      }
    }
  }

  /** Python's `list.index`: the first position of `x`, or `ValueError` when it is absent. */
  function ListIndex(xs: seq<string>, x: string): (r: Result<nat, Error>)
    ensures r.Success? <==> x in xs
    ensures r.Success? ==> r.value < |xs| && xs[r.value] == x && x !in xs[..r.value]
    ensures r.Failure? ==> r.error == TagNotFound(x)
  {
    if x !in xs then Failure(TagNotFound(x))
    else if xs[0] == x then Success(0)
    else
      var i := ListIndex(xs[1..], x).value;
      assert xs[..i + 1] == [xs[0]] + xs[1..][..i];
      Success(i + 1)
  }

  /** Which candidate of a pair the tie-break rules delete. */
  function DiscardedIndex(lemmas: seq<string>, tags: seq<string>): (idx: Result<nat, Error>)
    requires |lemmas| == 2 && |tags| == 2
    ensures idx.Success? ==> idx.value < 2
  {
    if |lemmas[0]| != |lemmas[1]| then
      // prefer the affixed word, whose lemma is longer
      Success(if |lemmas[0]| < |lemmas[1]| then 0 else 1)
    else if tags[0] in ["AUX", "ADP"] && tags[1] in ["AUX", "ADP"] then
      ListIndex(tags, "ADP")
    else if tags[0] in ["ADV", "VERB"] && tags[1] in ["ADV", "VERB"] then
      ListIndex(tags, "VERB")
    else
      Success(1)
  }

  /**
   * The pair rules on candidates `a` and `b` with tags `ta` and `tb`: the
   * longer lemma wins; on equal lengths AUX beats ADP and ADV beats VERB, two
   * ADP or two VERB lose the first, two AUX or two ADV find no tag to delete,
   * and any other pair keeps the first.
   */
  function ResolvePair(a: string, b: string, ta: string, tb: string): (r: Result<string, Error>)
    ensures r.Failure? <==> |Lemma(a)| == |Lemma(b)| && ta == tb && ta in {"AUX", "ADV"}
    ensures r.Success? ==> r.value == a || r.value == b
    ensures |Lemma(a)| > |Lemma(b)| ==> r == Success(a)
    ensures |Lemma(a)| < |Lemma(b)| ==> r == Success(b)
    ensures |Lemma(a)| == |Lemma(b)| ==>
      && ({ta, tb} == {"AUX", "ADP"} ==> r == Success(if ta == "AUX" then a else b))
      && ({ta, tb} == {"ADV", "VERB"} ==> r == Success(if ta == "ADV" then a else b))
      && (ta == tb && ta in {"ADP", "VERB"} ==> r == Success(b))
      && (ta == tb && ta in {"AUX", "ADV"} ==> r == Failure(TagNotFound(if ta == "AUX" then "ADP" else "VERB")))
      && (!({ta, tb} <= {"AUX", "ADP"}) && !({ta, tb} <= {"ADV", "VERB"}) ==> r == Success(a))
  {
    var pair := [a, b];
    var idx :- DiscardedIndex([Lemma(a), Lemma(b)], [ta, tb]);
    var rest := pair[..idx] + pair[idx + 1..];
    Success(rest[0])
  }

  /** All candidates carry a tag. */
  ghost predicate AllTagged(cands: seq<string>) {
    forall k :: 0 <= k < |cands| ==> Postag(cands[k]).Success?
  }

  /**
   * `__analyze_ambiguity`: every candidate must carry a tag; a pair is reduced
   * to the one candidate the pair rules keep, any other list to its first two.
   */
  function Disambiguate(cands: seq<string>): (r: Result<seq<string>, Error>)
    ensures r.Success? ==> AllTagged(cands)
    ensures !AllTagged(cands) ==> r.Failure? && r.error.MalformedAnalysis?
    ensures AllTagged(cands) && |cands| != 2 ==> r == Success((if |cands| < 2 then cands else cands[..2]))
    ensures r.Success? && |cands| == 2 ==> |r.value| == 1 && r.value[0] in cands
    ensures AllTagged(cands) && r.Failure? ==>
      && |cands| == 2
      && |Lemma(cands[0])| == |Lemma(cands[1])|
      && Postag(cands[0]) == Postag(cands[1])
      && Postag(cands[0]).value in {"AUX", "ADV"}
  {
    var tags :- Postags(cands);
    if |cands| == 2 then
      var kept :- ResolvePair(cands[0], cands[1], tags[0], tags[1]);
      Success([kept])
    else
      Success((if |cands| < 2 then cands else cands[..2]))
  }

  /** On a tagged pair, disambiguation is the pair rule applied to the two tags. */
  lemma DisambiguatePair(a: string, b: string)
    requires Postag(a).Success? && Postag(b).Success?
    ensures var kept := ResolvePair(a, b, Postag(a).value, Postag(b).value);
      Disambiguate([a, b]) == if kept.Success? then Success([kept.value]) else Failure(kept.error)
  {
    var cands := [a, b];
    assert cands[0] == a && cands[1] == b;
    var tags := Postags(cands);
    assert tags.Success?;
    assert Postag(cands[0]) == Success(tags.value[0]) && Postag(cands[1]) == Success(tags.value[1]);
    assert tags.value == [Postag(a).value, Postag(b).value];
  }

  /** With lemmas of different lengths the longer one survives, in either order. */
  lemma LongerLemmaWins(a: string, b: string)
    requires Postag(a).Success? && Postag(b).Success?
    requires |Lemma(a)| != |Lemma(b)|
    ensures Disambiguate([a, b]) == Success([if |Lemma(a)| > |Lemma(b)| then a else b])
    ensures Disambiguate([b, a]) == Disambiguate([a, b])
  {
    DisambiguatePair(a, b);
    DisambiguatePair(b, a);
  }

  /** The tag pairs the tie-break rules order: AUX over ADP and ADV over VERB. */
  predicate RankedPair(winner: string, loser: string) {
    (winner == "AUX" && loser == "ADP") || (winner == "ADV" && loser == "VERB")
  }

  /** On equal lemma lengths AUX beats ADP and ADV beats VERB, in either order. */
  lemma TieBreakIgnoresOrder(a: string, b: string)
    requires Postag(a).Success? && Postag(b).Success?
    requires |Lemma(a)| == |Lemma(b)|
    requires RankedPair(Postag(a).value, Postag(b).value)
    ensures Disambiguate([a, b]) == Success([a])
    ensures Disambiguate([b, a]) == Success([a])
  {
    var ta, tb := Postag(a).value, Postag(b).value;
    DisambiguatePair(a, b);
    DisambiguatePair(b, a);
    if ta == "AUX" {
      assert {ta, tb} == {"AUX", "ADP"} && {tb, ta} == {"AUX", "ADP"};
    } else {
      assert {ta, tb} == {"ADV", "VERB"} && {tb, ta} == {"ADV", "VERB"};
    }
  }

  /** Three tagged candidates are not resolved: the first two come back as they are. */
  lemma ThreeUnresolved(a: string, b: string, c: string)
    requires Postag(a).Success? && Postag(b).Success? && Postag(c).Success?
    ensures Disambiguate([a, b, c]) == Success([a, b])
  {
    assert [a, b, c][1..] == [b, c];
    assert Postags([b, c]).Success? by {
      assert [b, c][1..] == [c];
      assert [c][1..] == [];
    }
    assert [a, b, c][..2] == [a, b];
  }

  /** A plain `stem+TAG` analysis, as the examples use. */
  lemma Tagged(raw: string, stem: string, tag: string)
    requires raw == stem + "+" + tag
    requires '+' !in stem && '+' !in tag && '_' !in raw
    ensures Lemma(raw) == stem && Postag(raw) == Success(tag)
  {
    assert raw == stem + "+" + tag + "";
    ParseWithoutUnderscore(stem, tag, "");
  }

  /** The bare stem `sulat` as a noun and the affixed `magsulat` as a verb. */
  lemma SulatForms(noun: string, verb: string)
    requires noun == "sulat+NOUN" && verb == "magsulat+VERB"
    ensures Lemma(noun) == "sulat" && Postag(noun) == Success("NOUN")
    ensures Lemma(verb) == "magsulat" && Postag(verb) == Success("VERB")
  {
    NounTagged(noun);
    Tagged(verb, "magsulat", "VERB");
  }

  /** The noun alone, so that each sample string enters its own proof. */
  lemma NounTagged(noun: string)
    requires noun == "sulat+NOUN"
    ensures Lemma(noun) == "sulat" && Postag(noun) == Success("NOUN")
  {
    Tagged(noun, "sulat", "NOUN");
  }

  lemma SaTagged(raw: string, tag: string)
    requires raw == "sa+" + tag && (tag == "ADP" || tag == "AUX")
    ensures Lemma(raw) == "sa" && Postag(raw) == Success(tag)
  {
    Tagged(raw, "sa", tag);
  }

  /** `sulat` against the affixed `magsulat`: the longer lemma wins. */
  lemma AffixLengthExample(a: string, b: string)
    requires a == "sulat+NOUN" && b == "magsulat+VERB"
    ensures Disambiguate([a, b]) == Success([b])
  {
    SulatForms(a, b);
    LongerLemmaWins(a, b);
  }

  lemma AuxOverAdpExample(a: string, b: string)
    requires a == "sa+ADP" && b == "sa+AUX"
    ensures Disambiguate([a, b]) == Success([b])
  {
    SaTagged(a, "ADP");
    SaTagged(b, "AUX");
    TieBreakIgnoresOrder(b, a);
  }

  lemma ThreeCandidatesExample(a: string, b: string, c: string)
    requires a == "sulat+NOUN" && b == "magsulat+VERB" && c == "sa+ADP"
    ensures Disambiguate([a, b, c]) == Success([a, b])
  {
    SulatForms(a, b);
    SaTagged(c, "ADP");
    ThreeUnresolved(a, b, c);
  }
}
