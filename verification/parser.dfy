/**
 * Reading the lemma and the part-of-speech tag out of one transducer analysis
 * such as `ko+_bahay+NOUN_+ng`: the proclitic part up to the last `+_` and the
 * enclitic part from the first `_+` are dropped, and what is left is split on
 * `+` into lemma, tag and features.
 */
module Parser {
  import opened Wrappers
  import opened Strings
  import opened Errors

  /** Ends a proclitic, which is discarded with everything before it. */
  const Proclitic: string := "+_"
  /** Starts an enclitic, which is discarded with everything after it. */
  const Enclitic: string := "_+"

  /** Where the kept part of an analysis starts: just after the last proclitic marker. */
  function ProcliticEnd(raw: string): nat {
    |raw| - |AfterLast(raw, Proclitic)|
  }

  lemma ProcliticEndSpec(raw: string)
    ensures ProcliticEnd(raw) <= |raw|
    ensures ProcliticEnd(raw) == 0 || OccursAt(raw, Proclitic, ProcliticEnd(raw) - 2)
    ensures forall j :: OccursAt(raw, Proclitic, j) ==> j + 2 <= ProcliticEnd(raw)
    ensures !Contains(raw[ProcliticEnd(raw)..], Proclitic)
  {
    var kept := AfterLast(raw, Proclitic);
    AfterLastSpec(raw, Proclitic);
    assert raw[ProcliticEnd(raw)..] == kept;
    forall j | OccursAt(raw, Proclitic, j) ensures j + 2 <= ProcliticEnd(raw) {
      AfterLastFollowsEveryOccurrence(raw, Proclitic, j);
    }
  }

  /** The analysis without its clitics (`__trim_analysis` before its final split). */
  function StripClitics(raw: string): (core: string) {
    BeforeFirst(AfterLast(raw, Proclitic), Enclitic)
  }

  /**
   * What `StripClitics` keeps is the part of `raw` that starts after the last
   * `+_` and stops at the first `_+` after that, or at the end.
   */
  lemma StripCliticsSpec(raw: string)
    ensures ProcliticEnd(raw) + |StripClitics(raw)| <= |raw|
    ensures StripClitics(raw) == raw[ProcliticEnd(raw)..ProcliticEnd(raw) + |StripClitics(raw)|]
    ensures !Contains(StripClitics(raw), Enclitic)
    ensures var stop := ProcliticEnd(raw) + |StripClitics(raw)|;
      stop == |raw| || OccursAt(raw, Enclitic, stop)
  {
    var tail := AfterLast(raw, Proclitic);
    AfterLastSpec(raw, Proclitic);
    BeforeFirstSpec(tail, Enclitic);
    PrefixOfSuffix(raw, ProcliticEnd(raw), tail, StripClitics(raw));
  }

  lemma PrefixOfSuffix(raw: string, start: nat, tail: string, core: string)
    requires start + |tail| == |raw| && IsSuffix(tail, raw)
    requires IsPrefix(core, tail)
    requires core == tail || OccursAt(tail, Enclitic, |core|)
    ensures start + |core| <= |raw|
    ensures core == raw[start..start + |core|]
    ensures start + |core| == |raw| || OccursAt(raw, Enclitic, start + |core|)
  {
    assert tail == raw[start..];
    if core != tail {
      assert raw[start + |core|..start + |core| + 2] == tail[|core|..|core| + 2];
    }
  }

  /** `__trim_analysis`: the clitic-free analysis split on `+` into lemma, tag and features. */
  function Segments(raw: string): (segs: seq<string>)
    ensures |segs| >= 1
  {
    Split(StripClitics(raw), "+")
  }

  lemma SegmentsSpec(raw: string)
    ensures Join(Segments(raw), "+") == StripClitics(raw)
    ensures forall k :: 0 <= k < |Segments(raw)| ==> '+' !in Segments(raw)[k]
    ensures |Segments(raw)| >= 2 <==> '+' in StripClitics(raw)
  {
    var segs := Segments(raw);
    SplitSpec(StripClitics(raw), "+");
    forall k | 0 <= k < |segs| ensures '+' !in segs[k] {
      ContainsChar(segs[k], '+');
    }
    ContainsChar(StripClitics(raw), '+');
  }

  /** `__get_lemma`: segment 0. Never fails, since a split has at least one piece. */
  function Lemma(raw: string): (stem: string) {
    Segments(raw)[0]
  }

  /** The lemma is the clitic-free analysis up to its first `+`. */
  lemma LemmaSpec(raw: string)
    ensures '+' !in Lemma(raw)
    ensures IsPrefix(Lemma(raw), StripClitics(raw))
    ensures |Lemma(raw)| == |StripClitics(raw)| || StripClitics(raw)[|Lemma(raw)|] == '+'
  {
    var segs := Segments(raw);
    SegmentsSpec(raw);
    if |segs| >= 2 {
      assert StripClitics(raw) == segs[0] + "+" + Join(segs[1..], "+");
    }
  }

  /**
   * `__get_postag`: segment 1. When there is none, Python's list indexing
   * raises `IndexError`, modelled as an error that names the analysis.
   */
  function Postag(raw: string): (r: Result<string, Error>)
    ensures r.Failure? ==> r.error == MalformedAnalysis(raw)
  {
    var segs := Segments(raw);
    if |segs| < 2 then Failure(MalformedAnalysis(raw)) else Success(segs[1])
  }

  /**
   * The tag exists exactly when the clitic-free analysis has a `+`; it is the
   * text between the first `+` and the next `+` or the end.
   */
  lemma PostagSpec(raw: string)
    ensures Postag(raw).Success? <==> '+' in StripClitics(raw)
    ensures Postag(raw).Success? ==> '+' !in Postag(raw).value
    ensures Postag(raw).Success? ==> IsPrefix(Lemma(raw) + "+" + Postag(raw).value, StripClitics(raw))
    ensures Postag(raw).Success? ==>
      var n := |Lemma(raw) + "+" + Postag(raw).value|;
      n == |StripClitics(raw)| || StripClitics(raw)[n] == '+'
  {
    var segs := Segments(raw);
    SegmentsSpec(raw);
    if |segs| >= 2 {
      JoinFirstTwo(segs, "+");
    }
  }

  /** With no `+_` after a final proclitic marker, the kept part starts right after that marker. */
  lemma ProcliticEndAfter(pro: string, body: string)
    requires pro == "" || (|pro| >= 2 && pro[|pro| - 2..] == Proclitic)
    requires !Contains(body, Proclitic)
    ensures ProcliticEnd(pro + body) == |pro|
  {
    var raw := pro + body;
    ProcliticEndSpec(raw);
    LastMarkerEnd(pro, body, raw, ProcliticEnd(raw));
  }

  lemma LastMarkerEnd(pro: string, body: string, raw: string, start: nat)
    requires raw == pro + body
    requires pro == "" || (|pro| >= 2 && pro[|pro| - 2..] == Proclitic)
    requires !Contains(body, Proclitic)
    requires start <= |raw|
    requires start == 0 || OccursAt(raw, Proclitic, start - 2)
    requires forall j :: OccursAt(raw, Proclitic, j) ==> j + 2 <= start
    ensures start == |pro|
  {
    if pro != "" {
      assert raw[|pro| - 2..|pro|] == pro[|pro| - 2..];
      PairAt(raw, Proclitic, |pro| - 2);
      PairAt(pro, Proclitic, |pro| - 2);
    }
    PairAt(raw, Proclitic, start - 2);
    PairAt(body, Proclitic, start - 2 - |pro|);
  }

  /** The clitic-free part is what lies between a final proclitic and a leading enclitic. */
  lemma StripCliticsOfParts(pro: string, core: string, enc: string)
    requires pro == "" || (|pro| >= 2 && pro[|pro| - 2..] == Proclitic)
    requires enc == "" || (|enc| >= 2 && enc[..2] == Enclitic)
    requires !Contains(core + enc, Proclitic)
    requires !Contains(core, Enclitic)
    ensures StripClitics(pro + core + enc) == core
  {
    var raw := pro + core + enc;
    assert raw == pro + (core + enc);
    ProcliticEndAfter(pro, core + enc);
    var tail := AfterLast(raw, Proclitic);
    AfterLastSpec(raw, Proclitic);
    assert tail == raw[|pro|..] == core + enc;
    var kept := BeforeFirst(tail, Enclitic);
    BeforeFirstSpec(tail, Enclitic);
    FirstMarkerStart(core, enc, tail, kept);
  }

  lemma FirstMarkerStart(core: string, enc: string, tail: string, kept: string)
    requires tail == core + enc
    requires enc == "" || (|enc| >= 2 && enc[..2] == Enclitic)
    requires !Contains(core, Enclitic)
    requires IsPrefix(kept, tail)
    requires kept == tail || OccursAt(tail, Enclitic, |kept|)
    requires forall j :: OccursAt(tail, Enclitic, j) ==> |kept| <= j
    ensures kept == core
  {
    if enc != "" {
      assert enc[0] == Enclitic[0] && enc[1] == Enclitic[1];
      PairAt(tail, Enclitic, |core|);
    }
    PairAt(tail, Enclitic, |kept|);
    PairAt(core, Enclitic, |kept|);
    assert kept == tail[..|kept|];
  }

  /** Segment 0 and segment 1 of a clitic-free analysis `stem+tag[+...]`. */
  lemma LemmaAndTagOfCore(raw: string, stem: string, tag: string, rest: string)
    requires StripClitics(raw) == stem + "+" + tag + rest
    requires '+' !in stem && '+' !in tag
    requires rest == "" || rest[0] == '+'
    ensures Lemma(raw) == stem
    ensures Postag(raw) == Success(tag)
  {
    var r := Postag(raw);
    LemmaSpec(raw);
    PostagSpec(raw);
    assert '+' in StripClitics(raw) by {
      assert StripClitics(raw)[|stem|] == '+';
    }
    FirstTwoSegments(StripClitics(raw), stem, tag, rest, Lemma(raw), r.value);
  }

  lemma FirstTwoSegments(core: string, stem: string, tag: string, rest: string, l: string, t: string)
    requires core == stem + "+" + tag + rest
    requires '+' !in stem && '+' !in tag
    requires rest == "" || rest[0] == '+'
    requires '+' !in l && IsPrefix(l, core) && (|l| == |core| || core[|l|] == '+')
    requires '+' !in t && IsPrefix(l + "+" + t, core)
    requires |l + "+" + t| == |core| || core[|l + "+" + t|] == '+'
    ensures l == stem && t == tag
  {
    assert core[|stem|] == '+';
    PrefixUpToChar(core, '+', l, stem);
    var after := core[|stem| + 1..];
    assert after == tag + rest;
    assert core[..|stem| + 1 + |t|] == stem + "+" + t;
    assert after[..|t|] == t;
    PrefixUpToChar(after, '+', t, tag);
  }

  /**
   * Parsing `pro stem+tag feats enc`, where `pro` is empty or ends with the
   * last `+_`, and `enc` is empty or starts with the first `_+`: the lemma is
   * `stem` and the tag is `tag`.
   */
  lemma ParseCliticWrapped(pro: string, stem: string, tag: string, feats: string, enc: string)
    requires pro == "" || (|pro| >= 2 && pro[|pro| - 2..] == Proclitic)
    requires enc == "" || (|enc| >= 2 && enc[..2] == Enclitic)
    requires '+' !in stem && '+' !in tag
    requires feats == "" || feats[0] == '+'
    requires !Contains(stem + "+" + tag + feats + enc, Proclitic)
    requires !Contains(stem + "+" + tag + feats, Enclitic)
    ensures Lemma(pro + stem + "+" + tag + feats + enc) == stem
    ensures Postag(pro + stem + "+" + tag + feats + enc) == Success(tag)
  {
    var core := stem + "+" + tag + feats;
    var raw := pro + stem + "+" + tag + feats + enc;
    assert raw == pro + core + enc;
    assert core + enc == stem + "+" + tag + feats + enc;
    StripCliticsOfParts(pro, core, enc);
    LemmaAndTagOfCore(raw, stem, tag, feats);
  }

  /** An analysis `stem+tag[+...]` with no underscore at all has no clitics to strip. */
  lemma ParseWithoutUnderscore(stem: string, tag: string, feats: string)
    requires '+' !in stem && '+' !in tag
    requires feats == "" || feats[0] == '+'
    requires '_' !in stem + "+" + tag + feats
    ensures Lemma(stem + "+" + tag + feats) == stem
    ensures Postag(stem + "+" + tag + feats) == Success(tag)
  {
    var s := stem + "+" + tag + feats;
    MissingCharNoPair(s, Proclitic);
    MissingCharNoPair(s, Enclitic);
    StripCliticsOfPlain(s);
    LemmaAndTagOfCore(s, stem, tag, feats);
  }

  /*
   * The example lemmas of this project take their sample strings as
   * parameters pinned by `requires x == "..."` rather than writing the
   * literals into the `ensures`: each literal then enters a proof once, which
   * keeps the examples well within the solver's resource limit.
   */

  /** `ko+_bahay+NOUN_+ng`: both clitics are removed before the lemma and tag are read. */
  lemma ParseExample(raw: string)
    requires raw == "ko+_bahay+NOUN_+ng"
    ensures Lemma(raw) == "bahay"
    ensures Postag(raw) == Success("NOUN")
  {
    var body := "bahay+NOUN";
    NoAdjacentPair(body + "_+ng", Proclitic);
    NoAdjacentPair(body, Enclitic);
    assert body + "_+ng" == "bahay" + "+" + "NOUN" + "" + "_+ng";
    assert body == "bahay" + "+" + "NOUN" + "";
    assert raw == "ko+_" + "bahay" + "+" + "NOUN" + "" + "_+ng";
    ParseCliticWrapped("ko+_", "bahay", "NOUN", "", "_+ng");
  }

  /** An analysis with neither clitic marker is kept whole. */
  lemma StripCliticsOfPlain(raw: string)
    requires !Contains(raw, Proclitic) && !Contains(raw, Enclitic)
    ensures StripClitics(raw) == raw
  {
    assert raw + "" == raw;
    assert "" + raw + "" == raw;
    StripCliticsOfParts("", raw, "");
  }

  lemma NoTagExample(raw: string)
    requires raw == "bahay"
    ensures Postag(raw) == Failure(MalformedAnalysis(raw))
  {
    NoAdjacentPair(raw, Proclitic);
    NoAdjacentPair(raw, Enclitic);
    StripCliticsOfPlain(raw);
    PostagSpec(raw);
    assert '+' !in raw;
  }
}
