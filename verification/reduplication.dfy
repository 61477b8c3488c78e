/**
 * Reduplicated words (`__analyze_redup`): `first-second` takes the analysis of
 * its first half when both halves share a lemma or the second half is unknown,
 * and a noun analysis is turned from singular into plural.
 */
module Reduplication {
  import opened Wrappers
  import opened Errors
  import opened Parser
  import opened Patterns

  /** The reply the transducer gives for a word it cannot analyse. */
  const Unknown: string := "???"

  /** The singular number feature; its last four letters are what the substitution rewrites. */
  const NumberSing: string := "+Number=Sing"

  /** `Sing` starts at `i` right after `+Number=`: a match of the lookbehind pattern. */
  predicate SingAt(s: string, i: int) {
    8 <= i && i + 4 <= |s| && s[i - 8..i + 4] == NumberSing
  }

  /** Reference for the substitution, one character at a time: inside a rewritten `Sing` the matching letter of `Plur`, elsewhere the original. */
  function PluralChar(s: string, k: nat): char
    requires k < |s|
  {
    if SingAt(s, k) then 'P'
    else if SingAt(s, k - 1) then 'l'
    else if SingAt(s, k - 2) then 'u'
    else if SingAt(s, k - 3) then 'r'
    else s[k]
  }

  /** The substitution scanning `s` from `i`; the lookbehind reads the original text before `i`. */
  function PluraliseFrom(s: string, i: nat): (r: string)
    requires i <= |s|
    ensures |r| == |s| - i
    decreases |s| - i
  {
    if i == |s| then ""
    else if SingAt(s, i) then "Plur" + PluraliseFrom(s, i + 4)
    else [s[i]] + PluraliseFrom(s, i + 1)
  }

  /** `re.sub(r'(?<=\+Number=)Sing', 'Plur', s)`. */
  function Pluralise(s: string): (r: string)
    ensures |r| == |s|
  {
    PluraliseFrom(s, 0)
  }

  /** Two rewritten words never overlap. */
  lemma SingApart(s: string, i: int, j: int)
    requires SingAt(s, i) && i < j < i + 4
    ensures !SingAt(s, j)
  {
    assert s[j] == s[i - 8..i + 4][j - i + 8];
    assert 8 <= j && j + 4 <= |s| ==> s[j - 8..j + 4][8] == s[j];
  }

  /** Inside a rewritten word the reference spells `Plur`. */
  lemma PluralCharInRewrite(s: string, i: int, k: int)
    requires SingAt(s, i) && i <= k < i + 4
    ensures PluralChar(s, k) == "Plur"[k - i]
  {
    if k > i { SingApart(s, i, k); }
    if k > i + 1 { SingApart(s, i, k - 1); }
    if k > i + 2 { SingApart(s, i, k - 2); }
  }

  /** Indexing past a prefix of known length. */
  lemma IndexAfterPrefix(r: string, p: string, t: string, j: int)
    requires r == p + t && |p| <= j < |r|
    ensures r[j] == t[j - |p|]
  {
  }

  /** Indexing inside a prefix. */
  lemma IndexInPrefix(r: string, p: string, t: string, j: int)
    requires r == p + t && 0 <= j < |p|
    ensures r[j] == p[j]
  {
  }

  /** At a `Sing` the scan writes `Plur` and continues four characters on. */
  lemma PluraliseFromRewrite(s: string, i: nat)
    requires SingAt(s, i)
    ensures PluraliseFrom(s, i) == "Plur" + PluraliseFrom(s, i + 4)
  {
  }

  /** Inside a `Sing` rewritten at `i` the scan and the reference both spell `Plur`. */
  lemma RewriteInside(s: string, i: nat, k: nat)
    requires SingAt(s, i) && i <= k < i + 4
    ensures PluraliseFrom(s, i)[k - i] == PluralChar(s, k)
  {
    PluraliseFromRewrite(s, i);
    IndexInPrefix(PluraliseFrom(s, i), "Plur", PluraliseFrom(s, i + 4), k - i);
    PluralCharInRewrite(s, i, k);
  }

  /** Past a `Sing` rewritten at `i` the scan continues from `i + 4`. */
  lemma RewriteAfter(s: string, i: nat, k: nat)
    requires SingAt(s, i) && i + 4 <= k < |s|
    requires PluraliseFrom(s, i + 4)[k - i - 4] == PluralChar(s, k)
    ensures PluraliseFrom(s, i)[k - i] == PluralChar(s, k)
  {
    PluraliseFromRewrite(s, i);
    IndexAfterPrefix(PluraliseFrom(s, i), "Plur", PluraliseFrom(s, i + 4), k - i);
  }

  /** A character outside every rewritten word is copied. */
  lemma KeepHere(s: string, i: nat)
    requires i < |s|
    requires !SingAt(s, i) && !SingAt(s, i - 1) && !SingAt(s, i - 2) && !SingAt(s, i - 3)
    ensures PluraliseFrom(s, i)[0] == PluralChar(s, i)
  {
    assert PluraliseFrom(s, i) == [s[i]] + PluraliseFrom(s, i + 1);
  }

  /** Past a copied character the scan continues from `i + 1`. */
  lemma KeepAfter(s: string, i: nat, k: nat)
    requires !SingAt(s, i) && i < k < |s|
    requires PluraliseFrom(s, i + 1)[k - i - 1] == PluralChar(s, k)
    ensures PluraliseFrom(s, i)[k - i] == PluralChar(s, k)
  {
    var t := PluraliseFrom(s, i + 1);
    assert PluraliseFrom(s, i) == [s[i]] + t;
    IndexAfterPrefix(PluraliseFrom(s, i), [s[i]], t, k - i);
  }

  /** One character of the scan from `i` agrees with the reference, when no rewritten word straddles `i`. */
  lemma {:induction false} PluraliseFromChar(s: string, i: nat, k: nat)
    requires i <= k < |s|
    requires !SingAt(s, i - 1) && !SingAt(s, i - 2) && !SingAt(s, i - 3)
    ensures PluraliseFrom(s, i)[k - i] == PluralChar(s, k)
    decreases |s| - i, 1
  {
    if SingAt(s, i) {
      RewriteCase(s, i, k);
    } else {
      KeepCase(s, i, k);
    }
  }

  /** `PluraliseFromChar` when a `Sing` is rewritten at `i`. */
  lemma {:induction false} RewriteCase(s: string, i: nat, k: nat)
    requires i <= k < |s| && SingAt(s, i)
    ensures PluraliseFrom(s, i)[k - i] == PluralChar(s, k)
    decreases |s| - i, 0
  {
    if k < i + 4 {
      RewriteInside(s, i, k);
    } else {
      SingApart(s, i, i + 1);
      SingApart(s, i, i + 2);
      SingApart(s, i, i + 3);
      PluraliseFromChar(s, i + 4, k);
      RewriteAfter(s, i, k);
    }
  }

  /** `PluraliseFromChar` when the character at `i` is copied. */
  lemma {:induction false} KeepCase(s: string, i: nat, k: nat)
    requires i <= k < |s|
    requires !SingAt(s, i) && !SingAt(s, i - 1) && !SingAt(s, i - 2) && !SingAt(s, i - 3)
    ensures PluraliseFrom(s, i)[k - i] == PluralChar(s, k)
    decreases |s| - i, 0
  {
    if k == i {
      KeepHere(s, i);
    } else {
      PluraliseFromChar(s, i + 1, k);
      KeepAfter(s, i, k);
    }
  }

  /** The scan agrees with the character-wise reference everywhere. */
  lemma PluraliseSpec(s: string)
    ensures forall k :: 0 <= k < |s| ==> Pluralise(s)[k] == PluralChar(s, k)
  {
    forall k | 0 <= k < |s|
      ensures Pluralise(s)[k] == PluralChar(s, k)
    {
      PluraliseFromChar(s, 0, k);
    }
  }

  /** Without a singular number feature the text is left alone. */
  lemma PluraliseWithoutSing(s: string)
    requires forall i :: !SingAt(s, i)
    ensures Pluralise(s) == s
  {
    PluraliseSpec(s);
  }

  /** `Sing` can only be rewritten where an `S` stands. */
  lemma SingAtStartsWithS(s: string, i: int)
    requires SingAt(s, i)
    ensures s[i] == 'S'
  {
    assert s[i] == s[i - 8..i + 4][8];
  }

  /** The usual shape of a noun reply: a trailing `+Number=Sing` becomes `+Number=Plur`. */
  lemma PluraliseFinalSing(p: string)
    requires 'S' !in p
    ensures Pluralise(p + "+Number=Sing") == p + "+Number=Plur"
  {
    var s := p + NumberSing;
    var n := |p| + 8;
    var t := p + "+Number=Plur";
    forall m | 0 <= m < n
      ensures !SingAt(s, m)
    {
      if m < |p| {
        assert s[m] == p[m];
      } else {
        assert s[m] == "+Number="[m - |p|];
      }
      if SingAt(s, m) {
        SingAtStartsWithS(s, m);
      }
    }
    assert s[n - 8..n + 4] == NumberSing;
    assert SingAt(s, n);
    PluraliseSpec(s);
    forall k | 0 <= k < |s|
      ensures Pluralise(s)[k] == t[k]
    {
      if k < n {
        assert PluralChar(s, k) == s[k];
        if k < |p| {
          assert s[k] == p[k] == t[k];
        }
      } else {
        PluralCharInRewrite(s, n, k);
      }
    }
  }

  /**
   * `__analyze_redup`: the unknown marker unless the word is `first-second`
   * with an analysable first half whose lemma the second half shares (or the
   * second half is unknown); then the first half's reply, pluralised for nouns.
   */
  function Redup(surface: string, lookup: string -> string): (r: Result<string, Error>)
    ensures !MatchesReduplication(surface) ==> r == Success(Unknown)
    ensures r.Failure? ==>
      && ReduplicationHalves(surface).Some?
      && r.error == MalformedAnalysis(lookup(ReduplicationHalves(surface).value.0))
  {
    match ReduplicationHalves(surface)
    case None => Success(Unknown)
    case Some((first, second)) =>
      var known := lookup(first);
      var other := lookup(second);
      if known == Unknown then Success(Unknown)
      else if Lemma(known) == Lemma(other) || other == Unknown then
        var tag :- Postag(known);
        Success(if tag == "NOUN" then Pluralise(known) else known)
      else Success(Unknown)
  }

  /**
   * An answer other than the unknown marker always comes from the first half:
   * its reply is known, the halves agree on the lemma or the second half is
   * unknown, and the reply is returned as is or, for a noun, pluralised.
   */
  lemma RedupFromFirstHalf(surface: string, lookup: string -> string)
    requires Redup(surface, lookup).Success? && Redup(surface, lookup).value != Unknown
    ensures ReduplicationHalves(surface).Some?
    ensures var (first, second) := ReduplicationHalves(surface).value;
      var known := lookup(first);
      && known != Unknown
      && (Lemma(known) == Lemma(lookup(second)) || lookup(second) == Unknown)
      && Postag(known).Success?
      && Redup(surface, lookup).value == (if Postag(known).value == "NOUN" then Pluralise(known) else known)
  {
  }

  /** A halved word whose first half is unknown, or whose halves have different lemmas, stays unknown. */
  lemma RedupRejects(surface: string, lookup: string -> string, first: string, second: string)
    requires ReduplicationHalves(surface) == Some((first, second))
    requires lookup(first) == Unknown
          || (Lemma(lookup(first)) != Lemma(lookup(second)) && lookup(second) != Unknown)
    ensures Redup(surface, lookup) == Success(Unknown)
  {
  }

  /**
   * The decision table read forwards: when the first half is known and the
   * halves share a lemma, or the second half is unknown, the word takes the
   * first half's reply, pluralised when it is a noun; a reply without a tag
   * is the error, and it names that reply.
   */
  lemma RedupKeepsFirst(surface: string, lookup: string -> string, first: string, second: string)
    requires ReduplicationHalves(surface) == Some((first, second))
    requires lookup(first) != Unknown
    requires Lemma(lookup(first)) == Lemma(lookup(second)) || lookup(second) == Unknown
    ensures Postag(lookup(first)).Success? ==>
      Redup(surface, lookup) == Success(
        if Postag(lookup(first)).value == "NOUN" then Pluralise(lookup(first)) else lookup(first))
    ensures Postag(lookup(first)).Failure? ==> Redup(surface, lookup) == Failure(MalformedAnalysis(lookup(first)))
  {
  }

  /** A word said twice, `w-w`, takes the analysis of `w`, in the plural when `w` is a noun. */
  lemma RedupOfRepeatedWord(w: string, lookup: string -> string, tag: string)
    requires |w| > 0 && All(w, IsLetter)
    requires lookup(w) != Unknown && Postag(lookup(w)) == Success(tag)
    ensures Redup(w + "-" + w, lookup) == Success(if tag == "NOUN" then Pluralise(lookup(w)) else lookup(w))
  {
    ReduplicationHalvesOfJoin(w, w);
  }

  lemma BibigTag(reply: string)
    requires reply == "bibig+NOUN+Number=Sing"
    ensures Postag(reply) == Success("NOUN")
  {
    assert reply == "bibig" + "+" + "NOUN" + "+Number=Sing";
    ParseWithoutUnderscore("bibig", "NOUN", "+Number=Sing");
  }

  lemma BibigPlural(reply: string)
    requires reply == "bibig+NOUN+Number=Sing"
    ensures Pluralise(reply) == "bibig+NOUN+Number=Plur"
  {
    var p := "bibig+NOUN";
    assert 'S' !in p;
    assert reply == p + "+Number=Sing";
    PluraliseFinalSing(p);
  }

  lemma BibigLetters(w: string)
    requires w == "bibig"
    ensures |w| > 0 && All(w, IsLetter)
  {
  }

  /** `bibig-bibig`: the noun analysis of `bibig`, in the plural. */
  lemma BibigExample(w: string, lookup: string -> string)
    requires w == "bibig" && lookup(w) == "bibig+NOUN+Number=Sing"
    ensures Redup(w + "-" + w, lookup) == Success("bibig+NOUN+Number=Plur")
  {
    BibigTag(lookup(w));
    BibigPlural(lookup(w));
    BibigLetters(w);
    RedupOfRepeatedWord(w, lookup, "NOUN");
  }
}
