/**
 * Python's `str.split(sep)` and `sep.join(parts)` on `seq<char>`, with the
 * facts the analyzer relies on: splitting and re-joining gives the text back,
 * no piece contains the separator, and for the two-character separators the
 * analyzer uses (`+_`, `_+`, and the escaped line break) the first piece ends
 * at the first occurrence and the last piece starts after the last one.
 */
module Strings {
  import opened Wrappers

  /** `sep` occurs in `s` starting at index `i`. */
  ghost predicate OccursAt(s: string, sep: string, i: int) {
    0 <= i && i + |sep| <= |s| && s[i..i + |sep|] == sep
  }

  ghost predicate Contains(s: string, sep: string) {
    exists i :: OccursAt(s, sep, i)
  }

  /** `sep` has two distinct characters, so two occurrences never overlap. */
  ghost predicate IsPairSeparator(sep: string) {
    |sep| == 2 && sep[0] != sep[1]
  }

  ghost predicate IsPrefix(p: string, s: string) {
    |p| <= |s| && s[..|p|] == p
  }

  ghost predicate IsSuffix(p: string, s: string) {
    |p| <= |s| && s[|s| - |p|..] == p
  }

  lemma OccursAtTail(s: string, sep: string, j: int)
    requires |s| > 0 && j >= 0
    ensures OccursAt(s, sep, j + 1) <==> OccursAt(s[1..], sep, j)
  {
    if j + 1 + |sep| <= |s| {
      assert s[1..][j..j + |sep|] == s[j + 1..j + 1 + |sep|];
    }
  }

  /** Index of the first occurrence of `sep` in `s` (Python's `str.find`, with `None` for -1). */
  function IndexOf(s: string, sep: string): (r: Option<nat>)
    requires |sep| > 0
    ensures r.Some? ==> r.value + |sep| <= |s|
    decreases |s|
  {
    if |s| < |sep| then None
    else if s[..|sep|] == sep then Some(0)
    else
      match IndexOf(s[1..], sep)
      case None => None
      case Some(i) => Some(i + 1)
  }

  /** `IndexOf` finds nothing exactly when there is nothing to find. */
  lemma IndexOfSpec(s: string, sep: string)
    requires |sep| > 0
    ensures IndexOf(s, sep).None? <==> !Contains(s, sep)
  {
    IndexOfFirst(s, sep);
    if IndexOf(s, sep).Some? {
      assert OccursAt(s, sep, IndexOf(s, sep).value);
    }
  }

  /** The occurrence `IndexOf` reports is the first one, and `None` means there is none at any index. */
  lemma {:induction false} IndexOfFirst(s: string, sep: string)
    requires |sep| > 0
    ensures IndexOf(s, sep).Some? ==> OccursAt(s, sep, IndexOf(s, sep).value)
    ensures IndexOf(s, sep).Some? ==>
      forall j :: 0 <= j < IndexOf(s, sep).value ==> !OccursAt(s, sep, j)
    ensures IndexOf(s, sep).None? ==> forall j :: !OccursAt(s, sep, j)
    decreases |s|
  {
    if |s| < |sep| {
      assert IndexOf(s, sep) == None;
    } else if s[..|sep|] == sep {
      assert IndexOf(s, sep) == Some(0);
      assert s[0..|sep|] == s[..|sep|];
    } else {
      assert !OccursAt(s, sep, 0) by {
        assert s[0..|sep|] == s[..|sep|];
      }
      IndexOfFirst(s[1..], sep);
      match IndexOf(s[1..], sep)
      case None =>
        assert IndexOf(s, sep) == None;
        forall j ensures !OccursAt(s, sep, j) {
          if j > 0 {
            OccursAtTail(s, sep, j - 1);
          }
        }
      case Some(i) =>
        assert IndexOf(s, sep) == Some(i + 1);
        OccursAtTail(s, sep, i);
        forall j | 0 <= j < i + 1 ensures !OccursAt(s, sep, j) {
          if j > 0 {
            OccursAtTail(s, sep, j - 1);
          }
        }
    }
  }

  /** Python's `sep.join(parts)`. */
  function Join(parts: seq<string>, sep: string): (joined: string) {
    if |parts| == 0 then ""
    else if |parts| == 1 then parts[0]
    else parts[0] + sep + Join(parts[1..], sep)
  }

  /** The first two pieces of a join, followed by the rest when there is more. */
  lemma JoinFirstTwo(parts: seq<string>, sep: string)
    requires |parts| >= 2
    ensures Join(parts, sep) ==
      parts[0] + sep + parts[1] + (if |parts| == 2 then "" else sep + Join(parts[2..], sep))
  {
    assert parts[1..][1..] == parts[2..];
  }

  /** Python's `s.split(sep)`: cut at every occurrence, scanning left to right. */
  function Split(s: string, sep: string): (parts: seq<string>)
    requires |sep| > 0
    ensures |parts| >= 1
    decreases |s|
  {
    match IndexOf(s, sep)
    case None => [s]
    case Some(i) => [s[..i]] + Split(s[i + |sep|..], sep)
  }

  /**
   * Splitting loses nothing (joining the pieces gives `s` back), no piece
   * holds the separator, there is more than one piece exactly when `s` holds
   * the separator, and the first piece ends at the first occurrence.
   */
  lemma SplitSpec(s: string, sep: string)
    requires |sep| > 0
    ensures Join(Split(s, sep), sep) == s
    ensures forall k :: 0 <= k < |Split(s, sep)| ==> !Contains(Split(s, sep)[k], sep)
    ensures |Split(s, sep)| == 1 <==> !Contains(s, sep)
    ensures forall j :: OccursAt(s, sep, j) ==> |Split(s, sep)[0]| <= j
  {
    SplitJoin(s, sep);
    SplitPiecesFree(s, sep);
    IndexOfFirst(s, sep);
    IndexOfSpec(s, sep);
  }

  lemma {:induction false} SplitJoin(s: string, sep: string)
    requires |sep| > 0
    ensures Join(Split(s, sep), sep) == s
    decreases |s|
  {
    IndexOfFirst(s, sep);
    IndexOfSpec(s, sep);
    match IndexOf(s, sep)
    case None =>
    case Some(i) =>
      var head, tail := s[..i], s[i + |sep|..];
      var rest := Split(tail, sep);
      var parts := Split(s, sep);
      assert parts == [head] + rest;
      assert |parts| >= 2 && parts[0] == head && parts[1..] == rest;
      assert Join(parts, sep) == head + sep + Join(rest, sep);
      SplitJoin(tail, sep);
      assert s[i..i + |sep|] == sep;
      assert s == head + s[i..i + |sep|] + tail;
  }

  lemma {:induction false} SplitPiecesFree(s: string, sep: string)
    requires |sep| > 0
    ensures forall k :: 0 <= k < |Split(s, sep)| ==> !Contains(Split(s, sep)[k], sep)
    decreases |s|
  {
    IndexOfFirst(s, sep);
    IndexOfSpec(s, sep);
    var parts := Split(s, sep);
    match IndexOf(s, sep)
    case None =>
    case Some(i) =>
      var rest := Split(s[i + |sep|..], sep);
      SplitPiecesFree(s[i + |sep|..], sep);
      PrefixFreeBeforeFirst(s, sep, i);
      assert parts == [s[..i]] + rest;
      forall k | 0 <= k < |parts| ensures !Contains(parts[k], sep) {
        assert k > 0 ==> parts[k] == rest[k - 1];
      }
  }

  /** The text before the first occurrence of `sep` holds no occurrence. */
  lemma PrefixFreeBeforeFirst(s: string, sep: string, i: nat)
    requires |sep| > 0 && i + |sep| <= |s|
    requires forall j :: 0 <= j < i ==> !OccursAt(s, sep, j)
    ensures !Contains(s[..i], sep)
  {
    forall j | OccursAt(s[..i], sep, j) ensures false {
      assert s[..i][j..j + |sep|] == s[j..j + |sep|];
      assert OccursAt(s, sep, j);
    }
  }

  /** Python's `s.split(sep)[0]`. */
  function BeforeFirst(s: string, sep: string): (r: string)
    requires |sep| > 0
    ensures |r| <= |s|
  {
    SplitSpec(s, sep);
    var parts := Split(s, sep);
    assert |parts| >= 2 ==> s == parts[0] + sep + Join(parts[1..], sep);
    parts[0]
  }

  /** `BeforeFirst` keeps the text before the first occurrence, or all of `s` when there is none. */
  lemma BeforeFirstSpec(s: string, sep: string)
    requires |sep| > 0
    ensures IsPrefix(BeforeFirst(s, sep), s)
    ensures !Contains(BeforeFirst(s, sep), sep)
    ensures BeforeFirst(s, sep) == s || OccursAt(s, sep, |BeforeFirst(s, sep)|)
    ensures forall j :: OccursAt(s, sep, j) ==> |BeforeFirst(s, sep)| <= j
  {
    SplitSpec(s, sep);
    var parts := Split(s, sep);
    if |parts| >= 2 {
      assert s == parts[0] + sep + Join(parts[1..], sep);
    }
  }

  lemma {:induction false} JoinSnoc(parts: seq<string>, p: string, sep: string)
    requires |parts| >= 1
    ensures Join(parts + [p], sep) == Join(parts, sep) + sep + p
    decreases |parts|
  {
    if |parts| == 1 {
      assert parts + [p] == [parts[0], p];
    } else {
      assert (parts + [p])[1..] == parts[1..] + [p];
      JoinSnoc(parts[1..], p, sep);
    }
  }

  /** Python's `s.split(sep)[-1]`. */
  function AfterLast(s: string, sep: string): (r: string)
    requires |sep| > 0
    ensures |r| <= |s|
  {
    LastPieceSpec(s, sep);
    var parts := Split(s, sep);
    parts[|parts| - 1]
  }

  /** `AfterLast` keeps a separator-free suffix that is all of `s` or follows an occurrence. */
  lemma AfterLastSpec(s: string, sep: string)
    requires |sep| > 0
    ensures IsSuffix(AfterLast(s, sep), s)
    ensures !Contains(AfterLast(s, sep), sep)
    ensures AfterLast(s, sep) == s || OccursAt(s, sep, |s| - |AfterLast(s, sep)| - |sep|)
  {
    LastPieceSpec(s, sep);
  }

  lemma LastPieceSpec(s: string, sep: string)
    requires |sep| > 0
    ensures var r := Split(s, sep)[|Split(s, sep)| - 1];
      && IsSuffix(r, s)
      && !Contains(r, sep)
      && (r == s || OccursAt(s, sep, |s| - |r| - |sep|))
  {
    SplitSpec(s, sep);
    var parts := Split(s, sep);
    var n := |parts|;
    if n >= 2 {
      JoinSnoc(parts[..n - 1], parts[n - 1], sep);
      assert parts[..n - 1] + [parts[n - 1]] == parts;
      var init, r := Join(parts[..n - 1], sep), parts[n - 1];
      assert s == init + sep + r;
      assert s[|s| - |r|..] == r;
      assert s[|init|..|init| + |sep|] == sep;
    }
    assert !Contains(parts[n - 1], sep);
  }

  /**
   * For a separator of two distinct characters, what `AfterLast` keeps lies
   * after every occurrence: it removes everything up to the LAST one.
   */
  lemma AfterLastFollowsEveryOccurrence(s: string, sep: string, j: int)
    requires IsPairSeparator(sep)
    requires OccursAt(s, sep, j)
    ensures j + 2 <= |s| - |AfterLast(s, sep)|
  {
    AfterLastSpec(s, sep);
    OccurrenceBeforeFreeSuffix(s, sep, AfterLast(s, sep), j);
  }

  lemma OccurrenceBeforeFreeSuffix(s: string, sep: string, r: string, j: int)
    requires IsPairSeparator(sep)
    requires IsSuffix(r, s) && !Contains(r, sep)
    requires r == s || OccursAt(s, sep, |s| - |r| - 2)
    requires OccursAt(s, sep, j)
    ensures j + 2 <= |s| - |r|
  {
    var start := |s| - |r|;
    if j >= start {
      assert r[j - start..j - start + 2] == s[j..j + 2];
      assert OccursAt(r, sep, j - start);
    }
  }

  /** A two-character separator joined between separator-free pieces is found right after the first piece. */
  lemma FirstOccurrenceInJoin(p: string, sep: string, rest: string)
    requires IsPairSeparator(sep)
    requires !Contains(p, sep)
    ensures IndexOf(p + sep + rest, sep) == Some(|p|)
  {
    var s := p + sep + rest;
    IndexOfFirst(s, sep);
    IndexOfSpec(s, sep);
    assert s[|p|..|p| + 2] == sep;
    assert OccursAt(s, sep, |p|);
    forall j | 0 <= j < |p| ensures !OccursAt(s, sep, j) {
      if j + 2 <= |p| {
        assert p[j..j + 2] == s[j..j + 2];
        assert !OccursAt(p, sep, j);
      } else {
        assert s[j + 1] == sep[0];
      }
    }
  }

  /** Splitting joined separator-free pieces gives the pieces back. */
  lemma {:induction false} SplitOfJoin(parts: seq<string>, sep: string)
    requires IsPairSeparator(sep)
    requires |parts| >= 1
    requires forall k :: 0 <= k < |parts| ==> !Contains(parts[k], sep)
    ensures Split(Join(parts, sep), sep) == parts
    decreases |parts|
  {
    if |parts| == 1 {
      assert Join(parts, sep) == parts[0];
      IndexOfFirst(parts[0], sep);
      IndexOfSpec(parts[0], sep);
    } else {
      var rest := Join(parts[1..], sep);
      var s := parts[0] + sep + rest;
      FirstOccurrenceInJoin(parts[0], sep, rest);
      assert s[..|parts[0]|] == parts[0];
      assert s[|parts[0]| + 2..] == rest;
      SplitOfJoin(parts[1..], sep);
      assert [parts[0]] + parts[1..] == parts;
    }
  }

  /** For a one-character separator, containing it is plain membership. */
  lemma ContainsChar(s: string, c: char)
    ensures Contains(s, [c]) <==> c in s
  {
    if c in s {
      var i :| 0 <= i < |s| && s[i] == c;
      assert s[i..i + 1] == [c];
      assert OccursAt(s, [c], i);
    }
    if Contains(s, [c]) {
      var i :| OccursAt(s, [c], i);
      assert s[i] == s[i..i + 1][0];
    }
  }

  /** An occurrence of a two-character separator, read character by character. */
  lemma PairAt(s: string, sep: string, i: int)
    requires |sep| == 2
    ensures OccursAt(s, sep, i) <==> 0 <= i && i + 2 <= |s| && s[i] == sep[0] && s[i + 1] == sep[1]
  {
    if 0 <= i && i + 2 <= |s| {
      assert s[i..i + 2] == [s[i], s[i + 1]];
    }
  }

  /** A two-character separator is absent when no adjacent pair of characters spells it. */
  lemma NoAdjacentPair(s: string, sep: string)
    requires |sep| == 2
    requires forall i :: 0 <= i < |s| - 1 ==> s[i] != sep[0] || s[i + 1] != sep[1]
    ensures !Contains(s, sep)
  {
    forall i ensures !OccursAt(s, sep, i) {
      PairAt(s, sep, i);
    }
  }

  /** A two-character separator is absent when one of its characters is. */
  lemma MissingCharNoPair(s: string, sep: string)
    requires |sep| == 2 && (sep[0] !in s || sep[1] !in s)
    ensures !Contains(s, sep)
  {
    forall i ensures !OccursAt(s, sep, i) {
      PairAt(s, sep, i);
    }
  }

  /** Two prefixes of `s` that each stop at the end or just before a `c`, and hold no `c`, are equal. */
  lemma PrefixUpToChar(s: string, c: char, a: string, b: string)
    requires IsPrefix(a, s) && IsPrefix(b, s) && c !in a && c !in b
    requires |a| == |s| || s[|a|] == c
    requires |b| == |s| || s[|b|] == c
    ensures a == b
  {
    if |a| < |b| {
      CharOfPrefix(b, s, |a|);
    } else if |b| < |a| {
      CharOfPrefix(a, s, |b|);
    }
  }

  lemma CharOfPrefix(p: string, s: string, k: int)
    requires IsPrefix(p, s) && 0 <= k < |p|
    ensures p[k] == s[k]
  {
    assert p[k] == s[..|p|][k];
  }
}
