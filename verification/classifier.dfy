/**
 * Words the transducer does not know (`__analyze_unknown`): a reduplicated
 * form is tried first; otherwise the word is tagged from its shape and
 * returned as `surface+TAG` plus its feature tags.
 */
module Classifier {
  import opened Wrappers
  import opened Errors
  import opened Strings
  import opened Parser
  import opened Patterns
  import opened Reduplication

  /** Function words the analyzer tags as proper nouns. */
  const ProperNounWords: seq<string> := ["of", "the", "n't", "'s", "'m"]

  /** `[A-Z]+[a-z]*` matched at the start: an upper-case ASCII first letter. */
  predicate StartsUpper(surface: string) {
    |surface| > 0 && IsUpper(surface[0])
  }

  /** The PUNCT pattern matched at the start. */
  predicate StartsPunct(surface: string) {
    |surface| > 0 && IsPunct(surface[0])
  }

  /** The SYM pattern matched at the start: neither a word character nor punctuation. */
  predicate StartsSymbol(surface: string, isWordChar: char -> bool) {
    |surface| > 0 && !isWordChar(surface[0]) && !IsPunct(surface[0])
  }

  /** The tag an unknown word gets, by the first pattern that matches. */
  function ClassTag(surface: string, isWordChar: char -> bool): (tag: string)
    ensures tag == "PROPN" <==> StartsUpper(surface) || surface in ProperNounWords
    ensures tag == "PUNCT" <==> !StartsUpper(surface) && surface !in ProperNounWords && StartsPunct(surface)
    ensures tag == "SYM" <==>
      !StartsUpper(surface) && surface !in ProperNounWords && StartsSymbol(surface, isWordChar)
    ensures tag in {"PROPN", "PUNCT", "SYM", "X"}
  {
    if StartsUpper(surface) then "PROPN"
    else if surface in ProperNounWords then "PROPN"
    else if StartsPunct(surface) then "PUNCT"
    else if StartsSymbol(surface, isWordChar) then "SYM"
    else "X"
  }

  /**
   * `__get_feature_tags`: the feature list (only `Foreign=Yes`, for X), sorted
   * and joined with `+`, with a leading `+` when it is not empty.
   */
  function FeatureTags(tag: string): (feats: string)
    ensures feats == "" <==> tag != "X"
    ensures feats != "" ==> feats[0] == '+' && '+' !in feats[1..] && '_' !in feats
  {
    var features := if tag == "X" then ["Foreign=Yes"] else [];
    var joined := Join(features, "+");
    if joined == "" then "" else "+" + joined
  }

  /** The analysis made from the word's shape: `surface+TAG` followed by the tag's features. */
  function ShapeAnalysis(surface: string, isWordChar: char -> bool): (analysis: string)
    ensures |analysis| > |surface| && analysis[|surface|] == '+'
  {
    var tag := ClassTag(surface, isWordChar);
    surface + "+" + tag + FeatureTags(tag)
  }

  /**
   * `__analyze_unknown`: the reduplication reading when the word starts like
   * one and it yields an answer, otherwise `surface+TAG` with its features.
   * The answer is never the unknown marker.
   */
  function AnalyzeUnknown(surface: string, lookup: string -> string, isWordChar: char -> bool): (r: Result<string, Error>)
    ensures r.Success? ==> r.value != Unknown
    ensures r.Failure? ==> StartsLikeReduplication(surface) && r == Redup(surface, lookup)
    ensures StartsLikeReduplication(surface) && Redup(surface, lookup) != Success(Unknown) ==> r == Redup(surface, lookup)
    ensures !StartsLikeReduplication(surface) || Redup(surface, lookup) == Success(Unknown) ==>
      r == Success(ShapeAnalysis(surface, isWordChar))
  {
    var fromRedup :- if StartsLikeReduplication(surface) then Redup(surface, lookup) else Success(Unknown);
    if fromRedup != Unknown then Success(fromRedup)
    else Success(ShapeAnalysis(surface, isWordChar))
  }

  /** The four tags and their feature suffixes hold no separator that would confuse the parser. */
  lemma TagShape(tag: string)
    requires tag in {"PROPN", "PUNCT", "SYM", "X"}
    ensures |tag| > 0 && tag[0] != '_' && '+' !in tag
    ensures '_' !in tag + FeatureTags(tag)
  {
  }

  /** `surface+tail` holds neither clitic marker when only the surface could hold `_` and it neither holds `+` nor ends in `_`. */
  lemma NoMarkersAround(surface: string, tail: string)
    requires '+' !in surface
    requires |surface| == 0 || surface[|surface| - 1] != '_'
    requires |tail| > 0 && '_' !in tail
    ensures !Contains(surface + "+" + tail, Proclitic)
    ensures !Contains(surface + "+" + tail, Enclitic)
  {
    var s := surface + "+" + tail;
    forall i | 0 <= i < |s| - 1
      ensures s[i] != '+' || s[i + 1] != '_'
      ensures s[i] != '_' || s[i + 1] != '+'
    {
      if i < |surface| {
        assert s[i] == surface[i];
        if i + 1 < |surface| {
          assert s[i + 1] == surface[i + 1];
        } else {
          assert s[i + 1] == '+';
        }
      } else if i == |surface| {
        assert s[i + 1] == tail[0];
      } else {
        assert s[i] == tail[i - |surface| - 1];
        assert s[i + 1] == tail[i - |surface|];
      }
    }
    NoAdjacentPair(s, Proclitic);
    NoAdjacentPair(s, Enclitic);
  }

  /** `surface+tag` followed by features parses back, when only the surface could hold `_` and it neither holds `+` nor ends in `_`. */
  lemma PlainAnalysisParses(surface: string, tag: string, feats: string)
    requires '+' !in surface
    requires |surface| == 0 || surface[|surface| - 1] != '_'
    requires |tag| > 0 && '+' !in tag && '_' !in tag + feats
    requires feats == "" || feats[0] == '+'
    ensures Lemma(surface + "+" + tag + feats) == surface
    ensures Postag(surface + "+" + tag + feats) == Success(tag)
  {
    NoMarkersAround(surface, tag + feats);
    var raw := surface + "+" + tag + feats;
    assert raw + "" == raw == surface + "+" + (tag + feats);
    ParseCliticWrapped("", surface, tag, feats, "");
    assert "" + surface + "+" + tag + feats + "" == raw;
  }

  /**
   * The shape tag of an unknown word survives a round trip through the
   * parser: a surface without `+` that does not end in `_` is read back as
   * the lemma, and the tag as the part of speech.
   */
  lemma ShapeAnalysisParses(surface: string, tag: string)
    requires tag in {"PROPN", "PUNCT", "SYM", "X"}
    requires '+' !in surface
    requires |surface| == 0 || surface[|surface| - 1] != '_'
    ensures Lemma(surface + "+" + tag + FeatureTags(tag)) == surface
    ensures Postag(surface + "+" + tag + FeatureTags(tag)) == Success(tag)
  {
    TagShape(tag);
    PlainAnalysisParses(surface, tag, FeatureTags(tag));
  }

  /** When the reduplication reading gives nothing, the fallback analysis parses back to the surface and its shape tag. */
  lemma UnknownAnalysisParses(surface: string, lookup: string -> string, isWordChar: char -> bool)
    requires !StartsLikeReduplication(surface) || Redup(surface, lookup) == Success(Unknown)
    requires '+' !in surface
    requires |surface| == 0 || surface[|surface| - 1] != '_'
    ensures AnalyzeUnknown(surface, lookup, isWordChar).Success?
    ensures Lemma(AnalyzeUnknown(surface, lookup, isWordChar).value) == surface
    ensures Postag(AnalyzeUnknown(surface, lookup, isWordChar).value) == Success(ClassTag(surface, isWordChar))
  {
    ShapeAnalysisParses(surface, ClassTag(surface, isWordChar));
  }

  /** A surface ending in `_` loses its tag: the `_+` it forms with the separator reads as an enclitic marker. */
  lemma TrailingUnderscoreHidesTag(analysis: string)
    requires analysis == "a_+X+Foreign=Yes"
    ensures Postag(analysis).Failure?
  {
    var core, enc := "a", "_+X+Foreign=Yes";
    assert analysis == "" + core + enc;
    NoAdjacentPair(core + enc, Proclitic);
    NoAdjacentPair(core, Enclitic);
    StripCliticsOfParts("", core, enc);
    PostagSpec(analysis);
  }

  /** A surface holding `+` is cut there: `C++` as a proper noun reads back as lemma `C` with an empty tag. */
  lemma PlusInSurfaceSplitsIt(analysis: string)
    requires analysis == "C+++PROPN"
    ensures Lemma(analysis) == "C"
    ensures Postag(analysis) == Success("")
  {
    assert analysis == "C" + "+" + "" + "++PROPN";
    ParseWithoutUnderscore("C", "", "++PROPN");
  }

  /** A non-empty word that is no proper noun is PUNCT, SYM or X by its first character alone. */
  lemma FirstCharDecides(surface: string, isWordChar: char -> bool)
    requires |surface| > 0 && !StartsUpper(surface) && surface !in ProperNounWords
    ensures ClassTag(surface, isWordChar) ==
      if IsPunct(surface[0]) then "PUNCT"
      else if isWordChar(surface[0]) then "X"
      else "SYM"
  {
  }

  /** `\w` on ASCII text: letters, digits and the underscore. */
  predicate AsciiWordChar(c: char) {
    IsLetter(c) || ('0' <= c <= '9') || c == '_'
  }

  lemma MariaExample(surface: string, lookup: string -> string)
    requires surface == "Maria"
    ensures AnalyzeUnknown(surface, lookup, AsciiWordChar) == Success("Maria+PROPN")
  {
    assert !IsLower(surface[0]);
    assert !StartsLikeReduplication(surface);
    assert ClassTag(surface, AsciiWordChar) == "PROPN";
    assert surface + "+" + "PROPN" + "" == "Maria+PROPN";
  }

  /** The boundary between the two classes of non-word characters: `%` is a symbol, `.` punctuation. */
  lemma SymbolPunctExample(sym: string, punct: string, lookup: string -> string)
    requires sym == "%" && punct == "."
    ensures AnalyzeUnknown(sym, lookup, AsciiWordChar) == Success("%+SYM")
    ensures AnalyzeUnknown(punct, lookup, AsciiWordChar) == Success(".+PUNCT")
  {
    assert !IsLower(sym[0]) && !IsLower(punct[0]);
    assert !StartsLikeReduplication(sym) && !StartsLikeReduplication(punct);
    assert sym !in ProperNounWords && punct !in ProperNounWords;
    assert ClassTag(sym, AsciiWordChar) == "SYM";
    assert ClassTag(punct, AsciiWordChar) == "PUNCT";
    assert sym + "+" + "SYM" + "" == "%+SYM";
    assert punct + "+" + "PUNCT" + "" == ".+PUNCT";
  }

  /** The one feature the classifier adds. */
  lemma ForeignFeature()
    ensures FeatureTags("X") == "+Foreign=Yes"
  {
    assert Join(["Foreign=Yes"], "+") == "Foreign=Yes";
  }

  lemma XyzIsForeign(surface: string)
    requires surface == "xyz"
    ensures !StartsLikeReduplication(surface)
    ensures ClassTag(surface, AsciiWordChar) == "X"
  {
    assert surface[..3] == surface;
    LeadingRunIs(surface, IsLower, 3);
    assert surface !in ProperNounWords;
  }

  /** A lower-case word the transducer does not know, with no hyphen, is foreign. */
  lemma ForeignExample(surface: string, lookup: string -> string)
    requires surface == "xyz"
    ensures AnalyzeUnknown(surface, lookup, AsciiWordChar) == Success("xyz+X+Foreign=Yes")
  {
    XyzIsForeign(surface);
    ForeignFeature();
    assert surface + "+" + "X" + "+Foreign=Yes" == "xyz+X+Foreign=Yes";
  }
}
