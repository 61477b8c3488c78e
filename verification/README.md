# UMAbi analyzer core, modelled in Dafny

UMAbi is a morphological analyzer built around a foma finite-state
transducer, which does the analysis itself. Around it, `BaseAnalyzer` in
`umabi/analyzer.py` adds four pieces of logic, and this project models and
proves properties of all four:

- **Parser** (`parser.dfy`): reads one transducer analysis such as
  `ko+_bahay+NOUN_+ng`.
  - The proclitic part up to the last `+_` is dropped.
  - The enclitic part from the first `_+` is dropped.
  - The rest is split on `+` into lemma, tag and features.
  - An analysis with no tag is an error (Python's `IndexError`).
- **Disambiguator** (`disambiguation.dfy`): resolves a pair of candidate
  analyses.
  - The longer lemma wins.
  - On a tie in lemma length, AUX beats ADP and ADV beats VERB.
  - Two ADP or two VERB lose the first candidate; two AUX or two ADV are an
    error (see "Tie-break rules" below).
  - Any other pair keeps the first candidate.
  - From three or more candidates the first two come back unresolved.
- **Reduplication** (`reduplication.dfy`, `patterns.dfy`): a hyphenated word
  `first-second` takes the analysis of `first` when both halves share a lemma
  or `second` is unknown. For a noun the analysis is made plural:
  `+Number=Sing` becomes `+Number=Plur`.
- **Unknown-word classifier** (`classifier.dfy`): a word the transducer does
  not know is tagged from its shape as PROPN, PUNCT, SYM or X. X also gets
  the feature `Foreign=Yes`.

`analyzer.dfy` ties these together the way `analyze` does:
- it takes the transducer's reply, or the unknown-word analysis;
- it splits the reply at the escaped line break (a backslash followed by `n`)
  and removes duplicates;
- it disambiguates when configured to;
- it joins the result back together.

Supporting modules:
- `strings.dfy`: Python's `split`, `join` and `find`, with their
  correctness lemmas.
- `wrappers.dfy`: `Option` and `Result`.
- `errors.dfy`: the three exceptions the code can raise, as data.

Outside inputs become parameters:
- The transducer is the function `lookup`. It maps a word to the reply
  already cut by `[:-2]`, or to `???` for an unknown word.
- Python's `\w` is the predicate `isWordChar`.
- The `disambiguate` keyword is an `Option<bool>`. `None` means the keyword
  was not given, which the code reports as a `KeyError`.

Where the code does more or other than its own comments and pattern names
suggest, the model follows the code:
- **Tie-break rules:** the comments read `# Choose AUX over ADP`
  (umabi/analyzer.py:71) and `# Choose ADV over VERB` (:75). The tests
  `all(postag in ['AUX', 'ADP'] ...)` and `all(postag in ['ADV', 'VERB'] ...)`
  also match two ADP, two AUX, two ADV or two VERB. With two ADP or two VERB
  the first candidate is deleted. With two AUX or two ADV, `list.index`
  raises `ValueError`. The contract of `Disambiguation.ResolvePair` states
  all of these cases.
- **Case in the full reduplication pattern:** it is matched with
  `re.IGNORECASE`, so the halves may hold upper-case letters.
- **Line break in the full reduplication pattern:** its `$` also accepts
  one trailing line break.
- **Trigger pattern:** the pattern that starts the reduplication attempt is
  case-sensitive. It is anchored only at the start of the word.
- **Duplicate removal:** `list(set(...))` leaves the order unspecified. The
  model fixes first-seen order, and some properties rely on it:
  `Analyzer.KnownWordUnchanged` (the reply comes back in its own order), the
  three-candidate case, and which candidate of an equal-length pair with
  unranked tags survives. `Analyzer.EveryAnalysisOnce` and
  `Analyzer.AmbiguousReplyResolved` hold for any order.
- **Parser round trip:** it holds only for surfaces without `+` that do not
  end in `_`. The lemmas `Classifier.TrailingUnderscoreHidesTag` and
  `Classifier.PlusInSurfaceSplitsIt` show that both conditions are needed.

## Model

Where a function's properties are quantified, its contract is stated in a
companion lemma named after it: `Strings.SplitSpec` is the contract of
`Strings.Split`, `Parser.LemmaSpec` of `Parser.Lemma`,
`Parser.StripCliticsSpec` of `Parser.StripClitics`,
`Reduplication.PluraliseSpec` of `Reduplication.Pluralise`, and
`Patterns.StartsLikeReduplicationMatchesRegex` of
`Patterns.StartsLikeReduplication`. `Classifier.ShapeAnalysis` (the
`surface+TAG` analysis of umabi/analyzer.py:147-148) is described by
`Classifier.ShapeAnalysisParses` and `Classifier.AnalyzeUnknown`. The table
names those lemmas.

| member | source | states |
|---|---|---|
| Strings.SplitSpec | umabi/analyzer.py:50-52 | `split` loses nothing: joining the pieces gives the text back. No piece holds the separator. There is more than one piece exactly when the text holds it. The first piece ends at or before the first occurrence. |
| Strings.IndexOfFirst | umabi/analyzer.py:50-51 | the search reports the first occurrence of the separator, and `None` only when it occurs at no index |
| Strings.IndexOfSpec | umabi/analyzer.py:50-51 | the search finds nothing exactly when the text does not contain the separator |
| Strings.AfterLastSpec | umabi/analyzer.py:50 | `split("+_")[-1]` is a suffix of the analysis without `+_`, and it is the whole analysis or follows a `+_` |
| Strings.BeforeFirstSpec | umabi/analyzer.py:51 | `split("_+")[0]` is a prefix without `_+`. It is the whole text or stops at a `_+`, and every `_+` lies at or after its end. |
| Strings.SplitOfJoin | umabi/analyzer.py:41-46 | splitting a join of separator-free pieces gives back exactly those pieces |
| Parser.ProcliticEndSpec | umabi/analyzer.py:50 | the kept part starts just after the last `+_`: every `+_` ends at or before that point, and none follows it |
| Parser.StripCliticsSpec | umabi/analyzer.py:48-51 | the clitic-free part is the contiguous stretch after the last `+_`, up to the next `_+` or the end; it holds no `_+` |
| Parser.SegmentsSpec | umabi/analyzer.py:48-52 | the segments join back with `+` to the clitic-free part, hold no `+`, and number two or more exactly when that part has a `+` |
| Parser.LemmaSpec | umabi/analyzer.py:57-58 | the lemma is the clitic-free part up to its first `+`, or all of it |
| Parser.Postag | umabi/analyzer.py:54-55 | a missing tag is reported as an error that names the analysis |
| Parser.PostagSpec | umabi/analyzer.py:54-55 | the tag exists exactly when the clitic-free part has a `+`, and it is the text between the first `+` and the next `+` or the end |
| Parser.ParseCliticWrapped | umabi/analyzer.py:48-58 | for `pro stem+tag feats enc` with clitics on either side, the lemma is `stem` and the tag is `tag` |
| Parser.ParseWithoutUnderscore | umabi/analyzer.py:48-58 | an analysis `stem+tag[+features]` without `_` parses back to `stem` and `tag` |
| Parser.ParseExample | umabi/analyzer.py:48-58 | `ko+_bahay+NOUN_+ng` has lemma `bahay` and tag NOUN |
| Parser.NoTagExample | umabi/analyzer.py:54-55 | `bahay` alone has no tag and is an error |
| Disambiguation.Postags | umabi/analyzer.py:62-63 | collecting the tags succeeds exactly when every candidate has one, in order; otherwise it fails, and `Disambiguation.PostagsFailsAtFirst` shows the error names the first candidate without one |
| Disambiguation.ListIndex | umabi/analyzer.py:72-78 | `list.index` gives the first position of the item, and `ValueError` when it is absent |
| Disambiguation.ResolvePair | umabi/analyzer.py:66-80 | the pair rules case by case. The longer lemma wins. Otherwise AUX beats ADP and ADV beats VERB. Two ADP or two VERB keep the second. Two AUX or two ADV fail. Any other pair keeps the first. |
| Disambiguation.Disambiguate | umabi/analyzer.py:60-81 | an untagged candidate is an error. A pair shrinks to one of its members, and an error on a tagged pair means equal lemma lengths with AUX/AUX or ADV/ADV. Any other list gives its first two. |
| Disambiguation.LongerLemmaWins | umabi/analyzer.py:67-70 | with lemmas of different length the longer one is kept, whichever order the pair comes in |
| Disambiguation.TieBreakIgnoresOrder | umabi/analyzer.py:71-78 | on equal lemma lengths AUX is kept over ADP and ADV over VERB in either order |
| Disambiguation.AffixLengthExample | umabi/analyzer.py:67-70 | `sulat+NOUN`, `magsulat+VERB` resolve to `magsulat+VERB` |
| Disambiguation.AuxOverAdpExample | umabi/analyzer.py:71-74 | `sa+ADP`, `sa+AUX` resolve to `sa+AUX` |
| Disambiguation.ThreeCandidatesExample | umabi/analyzer.py:65-66 | three tagged candidates come back as their first two, unchanged |
| Patterns.StartsLikeReduplicationMatchesRegex | umabi/analyzer.py:120 | the character scan agrees with `[a-z]+-[a-z]+` matched at the start of the word |
| Patterns.ReduplicationHalves | umabi/analyzer.py:85-92 | the groups exist exactly when the whole word is letters, a hyphen and letters, with one optional final line break. The two groups are non-empty letter runs that rebuild the word. |
| Patterns.ReduplicationHalvesOfJoin | umabi/analyzer.py:85-92 | two letter runs joined by a hyphen come back as exactly those two groups |
| Patterns.MixedCaseHalves | umabi/analyzer.py:85-89 | case is ignored: `bata-Bata` has the groups `bata` and `Bata` |
| Reduplication.PluraliseSpec | umabi/analyzer.py:113-114 | the left-to-right substitution agrees, character by character, with the reference: each `Sing` right after `+Number=` becomes `Plur` and nothing else changes |
| Reduplication.PluraliseWithoutSing | umabi/analyzer.py:114 | a text with no `+Number=Sing` is left unchanged |
| Reduplication.PluraliseFinalSing | umabi/analyzer.py:113-114 | a trailing `+Number=Sing` after a prefix without `S` becomes `+Number=Plur` |
| Reduplication.Redup | umabi/analyzer.py:83-116 | a word that is not `letters-letters` stays unknown. The only possible error is a first-half reply without a tag, and the error names that reply. |
| Reduplication.RedupKeepsFirst | umabi/analyzer.py:98-116 | when the first half is known, and the halves share a lemma or the second half is unknown, the word gets the first half's reply, pluralised exactly for a noun. A reply without a tag is an error naming it. |
| Reduplication.RedupFromFirstHalf | umabi/analyzer.py:98-116 | any known answer is the reply for the first half. That reply is known, and the halves share a lemma or the second half is unknown. A noun reply is made plural. |
| Reduplication.RedupRejects | umabi/analyzer.py:98-111 | an unknown first half, or two known halves with different lemmas, leave the word unknown |
| Reduplication.RedupOfRepeatedWord | umabi/analyzer.py:83-116 | `w-w` gets the analysis of `w`, pluralised exactly when it is a noun |
| Reduplication.BibigExample | umabi/analyzer.py:83-116 | `bibig-bibig` with `bibig+NOUN+Number=Sing` for `bibig` gives `bibig+NOUN+Number=Plur` |
| Classifier.ClassTag | umabi/analyzer.py:121-145 | PROPN exactly for an upper-case first letter or a listed word. Otherwise PUNCT for a punctuation first character, then SYM for a first character that is neither a word character nor punctuation, else X. |
| Classifier.FeatureTags | umabi/analyzer.py:151-162 | there is a feature suffix exactly for X; it starts with `+` and contains no further `+` |
| Classifier.AnalyzeUnknown | umabi/analyzer.py:118-149 | the answer is never the unknown marker. When the word starts like a reduplication, any Redup result other than `???`, success or error, is returned as it is. When the word does not start like a reduplication, or the attempt gives `???`, the answer is `surface+TAG` with its features. |
| Classifier.ShapeAnalysisParses | umabi/analyzer.py:147-148 | `surface+TAG[+Foreign=Yes]` parses back to the surface and the tag, when the surface has no `+` and does not end in `_` |
| Classifier.UnknownAnalysisParses | umabi/analyzer.py:129-149 | when reduplication gives nothing, the synthesized analysis parses back to the surface and its shape tag |
| Classifier.TrailingUnderscoreHidesTag | umabi/analyzer.py:147-148 | `a_+X+Foreign=Yes` has no readable tag |
| Classifier.PlusInSurfaceSplitsIt | umabi/analyzer.py:147-148 | `C+++PROPN` reads back as lemma `C` with an empty tag |
| Classifier.FirstCharDecides | umabi/analyzer.py:142-145 | for a word that is not a proper noun, the first character alone decides. Punctuation gives PUNCT, a word character gives X, and anything else gives SYM, so PUNCT and SYM are disjoint and cover every non-word character. |
| Classifier.MariaExample | umabi/analyzer.py:138-139 | `Maria` is `Maria+PROPN` |
| Classifier.SymbolPunctExample | umabi/analyzer.py:142-145 | `%` is `%+SYM` and `.` is `.+PUNCT` |
| Classifier.ForeignExample | umabi/analyzer.py:137-160 | `xyz` is `xyz+X+Foreign=Yes` |
| Analyzer.FromKeywords | umabi/analyzer.py:15-20 | the flag is set exactly when the `disambiguate` keyword is given, to its value |
| Analyzer.OtherKeywordsIgnored | umabi/analyzer.py:18-20 | any other keyword makes no difference |
| Analyzer.Dedup | umabi/analyzer.py:41 | the result has no repeats and holds exactly the elements of the input |
| Analyzer.DedupOfDistinct | umabi/analyzer.py:41 | a list without repeats is unchanged |
| Analyzer.DedupIdempotent | umabi/analyzer.py:41 | removing duplicates twice is the same as once |
| Analyzer.Reply | umabi/analyzer.py:35-39 | a known reply is used as is. For `???` the unknown-word analysis is used, with its errors. The reply in use is never the unknown marker. |
| Analyzer.AnalyzeLines | umabi/analyzer.py:33-45 | errors from the reply pass through, and a missing flag is a `KeyError` once the reply is in. With the flag off, or at most one distinct analysis, the distinct analyses come back. With the flag on and several, the disambiguator's result comes back. Any result is non-empty, has no repeats and holds only the reply's alternatives, at most two with disambiguation. |
| Analyzer.Analyze | umabi/analyzer.py:33-46 | `analyze` succeeds exactly when the line computation does, with its error otherwise. The joined answer splits back into exactly the analyses it was made of. |
| Analyzer.KnownWordUnchanged | umabi/analyzer.py:33-46 | without disambiguation, a known word whose reply repeats no analysis gets the reply back unchanged |
| Analyzer.EveryAnalysisOnce | umabi/analyzer.py:41-46 | without disambiguation the answer holds every alternative of the reply exactly once, whatever order duplicates are removed in |
| Analyzer.SingleAnalysisUnchanged | umabi/analyzer.py:41-46 | a reply with a single analysis is returned as it is, whatever the flag |
| Analyzer.UnknownNameExample | umabi/analyzer.py:35-46 | an unknown `Maria` is answered `Maria+PROPN` |
| Analyzer.AmbiguousReplyResolved | umabi/analyzer.py:41-46 | with disambiguation on, a reply of two different tagged analyses whose lemmas differ in length is answered with the one with the longer lemma |

## Left out

- `__get_analysis` (umabi/analyzer.py:22-31) is not modelled. It writes a script to a temporary file, sets its mode, runs the `foma` process and escapes the output with `repr`. The model replaces it by the `lookup` function, which gives the reply already cut by `[:-2]`. Process failures are therefore not modelled.
- `BIN_FILE` and the `bin_file` argument only choose the transducer, so they are part of `lookup`.
- Python's `\w` is the parameter `isWordChar`: its Unicode tables are not modelled. The examples use an ASCII instance.
- `re.IGNORECASE` on `[a-z]` is modelled on ASCII letters only. Python also lets it match a few non-ASCII letters, such as the Kelvin sign and the dotted capital I; these are not modelled.
- `Analyzer.Dedup` fixes first-seen order where `set` leaves the order unspecified.
- The `disambiguate` keyword is modelled as a boolean. Python would accept any value and test its truthiness.
- `__get_feature_tags` sorts its feature list, but that list never holds more than one feature, so the model leaves the sort out. The unused `analysis` argument is left out too.
- The second lookup in `__analyze_redup` happens even when the first half is unknown. As `lookup` is a pure function, that order has no effect in the model.
