/**
  The parts of Python's `str` semantics that the camera pipeline relies on:
  `str.find`, slicing `s[a:b]` with negative and out-of-range bounds,
  `str.replace`, `str.strip()` and the `in` operator. Strings are sequences of
  Unicode code points, as they are in Python 3.
 */
module PyStr {

  /** `sub` occurs in `s` at index `i`. */
  predicate OccursAt(s: string, sub: string, i: int) {
    0 <= i && i + |sub| <= |s| && s[i..i + |sub|] == sub
  }

  /** `sub` occurs somewhere in `s`: the meaning of Python's `sub in s`. */
  ghost predicate IsInfix(sub: string, s: string) {
    exists i :: OccursAt(s, sub, i)
  }

  /** The search behind `str.find`, scanning from index `i` to the right. */
  function FindFrom(s: string, sub: string, i: nat): (r: int)
    requires i <= |s|
    ensures r == -1 || (i <= r <= |s| && OccursAt(s, sub, r))
    ensures forall j :: i <= j && (r == -1 || j < r) ==> !OccursAt(s, sub, j)
    decreases |s| - i
  {
    if OccursAt(s, sub, i) then i
    else if i == |s| then -1
    else FindFrom(s, sub, i + 1)
  }

  /** Python's `s.find(sub)`: the lowest index of an occurrence, or -1. */
  function Find(s: string, sub: string): (r: int)
    ensures -1 <= r <= |s|
    ensures r == -1 <==> forall j :: !OccursAt(s, sub, j)
    ensures r != -1 ==> OccursAt(s, sub, r) && forall j :: j < r ==> !OccursAt(s, sub, j)
  {
    FindFrom(s, sub, 0)
  }

  /** Python's `sub in s`. */
  predicate Contains(s: string, sub: string) {
    Find(s, sub) != -1
  }

  lemma ContainsIsInfix(s: string, sub: string)
    ensures Contains(s, sub) <==> IsInfix(sub, s)
  {
    if Contains(s, sub) {
      assert OccursAt(s, sub, Find(s, sub));
    }
  }

  /** How Python normalises one slice bound against a length `n`. */
  function SliceBound(i: int, n: nat): (k: nat)
    ensures k <= n
    ensures 0 <= i <= n ==> k == i
    ensures i < 0 && 0 <= i + n ==> k == n + i
    ensures i > n ==> k == n
    ensures i + n < 0 ==> k == 0
  {
    if i < 0 then (if i + n < 0 then 0 else i + n)
    else if i > n then n
    else i
  }

  /** Python's `s[start:stop]`: negative bounds count from the end, bounds
      past either end are clamped, and a start at or past the stop gives "". */
  function Slice(s: string, start: int, stop: int): (r: string)
    ensures |r| <= |s|
    ensures exists lo :: OccursAt(s, r, lo)
    ensures 0 <= start <= stop <= |s| ==> r == s[start..stop]
    ensures 0 <= stop <= start ==> r == []
    ensures 0 <= start && stop < 0 <= stop + |s| ==>
              r == if start < stop + |s| then s[start..stop + |s|] else []
  {
    var lo, hi := SliceBound(start, |s|), SliceBound(stop, |s|);
    if lo >= hi then
      assert OccursAt(s, [], 0);
      []
    else
      assert OccursAt(s, s[lo..hi], lo);
      s[lo..hi]
  }

  /** The first occurrence is where `find` says it is. */
  lemma FindAt(s: string, sub: string, i: int)
    requires OccursAt(s, sub, i) && forall j :: 0 <= j < i ==> !OccursAt(s, sub, j)
    ensures Find(s, sub) == i
  {
  }

  /** Python's `s.replace(pat, rep)` for a non-empty `pat`, the way CPython does
      it: find the first occurrence, keep what precedes it, emit the
      replacement, and carry on after the occurrence, so occurrences are
      replaced from left to right and never overlap. */
  function Replace(s: string, pat: string, rep: string): (r: string)
    requires |pat| > 0
    ensures |rep| <= |pat| ==> |r| <= |s|
    decreases |s|
  {
    var i := Find(s, pat);
    if i == -1 then s
    else s[..i] + rep + Replace(s[i + |pat|..], pat, rep)
  }

  /** With no occurrence of `pat`, `replace` returns `s` itself. */
  lemma ReplaceAbsent(s: string, pat: string, rep: string)
    requires |pat| > 0 && forall j :: !OccursAt(s, pat, j)
    ensures Replace(s, pat, rep) == s
  {
  }

  /** A pattern holding a character that `s` lacks does not occur in `s`. */
  lemma AbsentCharNoOccurrence(s: string, pat: string, c: char)
    requires c in pat && c !in s
    ensures forall j :: !OccursAt(s, pat, j)
  {
    var k :| 0 <= k < |pat| && pat[k] == c;
    forall j ensures !OccursAt(s, pat, j) {
      if 0 <= j && j + |pat| <= |s| {
        assert s[j..j + |pat|][k] == s[j + k];
      }
    }
  }

  /** Replacing a pattern that holds a character `s` lacks changes nothing. */
  lemma ReplaceAbsentChar(s: string, pat: string, rep: string, c: char)
    requires |pat| > 0 && c in pat && c !in s
    ensures Replace(s, pat, rep) == s
  {
    AbsentCharNoOccurrence(s, pat, c);
    ReplaceAbsent(s, pat, rep);
  }

  /** `s` with every `c` deleted. */
  function RemoveAll(s: string, c: char): (r: string)
    ensures |r| <= |s|
    ensures forall i :: 0 <= i < |r| ==> r[i] != c
  {
    if s == [] then []
    else if s[0] == c then RemoveAll(s[1..], c)
    else [s[0]] + RemoveAll(s[1..], c)
  }

  /** Deleting characters introduces none: a character `s` lacks stays absent. */
  lemma {:induction false} RemoveAllKeepsMissing(s: string, c: char, d: char)
    requires forall i :: 0 <= i < |s| ==> s[i] != d
    ensures forall i :: 0 <= i < |RemoveAll(s, c)| ==> RemoveAll(s, c)[i] != d
  {
    if s != [] {
      assert forall i :: 0 <= i < |s[1..]| ==> s[1..][i] == s[i + 1];
      RemoveAllKeepsMissing(s[1..], c, d);
    }
  }

  /** A one-character pattern occurs exactly where that character stands. */
  lemma OccursChar(s: string, c: char, j: int)
    requires 0 <= j < |s|
    ensures OccursAt(s, [c], j) <==> s[j] == c
  {
    assert s[j..j + 1][0] == s[j];
  }

  /** Deleting a character `s` lacks keeps `s`. */
  lemma {:induction false} RemoveAllAbsent(s: string, c: char)
    requires forall j :: 0 <= j < |s| ==> s[j] != c
    ensures RemoveAll(s, c) == s
  {
    if s != [] {
      assert forall j :: 0 <= j < |s[1..]| ==> s[1..][j] == s[j + 1];
      RemoveAllAbsent(s[1..], c);
      assert [s[0]] + s[1..] == s;
    }
  }

  /** Deleting `c` up to and including its first occurrence at `i`. */
  lemma {:induction false} RemoveAllAtFirst(s: string, c: char, i: nat)
    requires i < |s| && s[i] == c && forall j :: 0 <= j < i ==> s[j] != c
    ensures RemoveAll(s, c) == s[..i] + RemoveAll(s[i + 1..], c)
    decreases i
  {
    if i == 0 {
      assert s[..0] + RemoveAll(s[1..], c) == RemoveAll(s[1..], c);
    } else {
      AfterHeadNoC(s, c, i);
      RemoveAllAtFirst(s[1..], c, i - 1);
      RemoveAllRegroup(s, c, i);
    }
  }

  lemma AfterHeadNoC(s: string, c: char, i: nat)
    requires 0 < i < |s| && s[i] == c && forall j :: 0 <= j < i ==> s[j] != c
    ensures s[1..][i - 1] == c && forall j :: 0 <= j < i - 1 ==> s[1..][j] != c
  {
    assert forall j :: 0 <= j < i - 1 ==> s[1..][j] == s[j + 1];
  }

  lemma RemoveAllRegroup(s: string, c: char, i: nat)
    requires 0 < i < |s| && s[0] != c
    requires RemoveAll(s[1..], c) == s[1..][..i - 1] + RemoveAll(s[1..][i..], c)
    ensures RemoveAll(s, c) == s[..i] + RemoveAll(s[i + 1..], c)
  {
    var t := s[1..];
    assert t[i..] == s[i + 1..];
    assert s[..i] == [s[0]] + t[..i - 1];
  }

  /** Replacing a one-character pattern by "" deletes every occurrence of it. */
  lemma {:induction false} ReplaceCharIsRemoval(s: string, c: char)
    ensures Replace(s, [c], "") == RemoveAll(s, c)
    decreases |s|
  {
    var i := Find(s, [c]);
    if i == -1 {
      forall j | 0 <= j < |s| ensures s[j] != c {
        OccursChar(s, c, j);
      }
      RemoveAllAbsent(s, c);
    } else {
      OccursChar(s, c, i);
      forall j | 0 <= j < i ensures s[j] != c {
        OccursChar(s, c, j);
      }
      RemoveAllAtFirst(s, c, i);
      ReplaceCharIsRemoval(s[i + 1..], c);
      assert s[..i] + "" == s[..i];
    }
  }

  /** The 29 characters of Python's `str.isspace()`, listed one by one. */
  const SpaceChars: string :=
    "\t\n\U{0B}\U{0C}\r\U{1C}\U{1D}\U{1E}\U{1F} \U{85}\U{A0}\U{1680}"
    + "\U{2000}\U{2001}\U{2002}\U{2003}\U{2004}\U{2005}\U{2006}\U{2007}\U{2008}\U{2009}\U{200A}"
    + "\U{2028}\U{2029}\U{202F}\U{205F}\U{3000}"

  /** Python's `str.isspace()` for one character, by ranges: the characters
      `str.strip()` removes. */
  predicate IsSpace(c: char) {
    || '\t' <= c <= '\r'
    || '\U{1C}' <= c <= ' '
    || c == '\U{85}' || c == '\U{A0}' || c == '\U{1680}'
    || '\U{2000}' <= c <= '\U{200A}'
    || c == '\U{2028}' || c == '\U{2029}' || c == '\U{202F}' || c == '\U{205F}' || c == '\U{3000}'
  }

  /** The ranges of `IsSpace` cover exactly the listed characters. */
  lemma IsSpaceListed(c: char)
    ensures IsSpace(c) <==> c in SpaceChars
  {
  }

  /** The number of whitespace characters `s` starts with. */
  function LeadingSpace(s: string): (n: nat)
    ensures n <= |s|
    ensures forall k :: 0 <= k < n ==> IsSpace(s[k])
    ensures n < |s| ==> !IsSpace(s[n])
  {
    if s == [] || !IsSpace(s[0]) then 0
    else 1 + LeadingSpace(s[1..])
  }

  /** The number of whitespace characters `s` ends with. */
  function TrailingSpace(s: string): (n: nat)
    ensures n <= |s|
    ensures forall k :: |s| - n <= k < |s| ==> IsSpace(s[k])
    ensures n < |s| ==> !IsSpace(s[|s| - n - 1])
  {
    if s == [] || !IsSpace(s[|s| - 1]) then 0
    else 1 + TrailingSpace(s[..|s| - 1])
  }

  /** Python's `s.strip()`: the infix of `s` left after removing leading and
      trailing whitespace; it neither starts nor ends with whitespace. */
  function Strip(s: string): (r: string)
    ensures r == [] || (!IsSpace(r[0]) && !IsSpace(r[|r| - 1]))
    ensures exists lo :: OccursAt(s, r, lo)
                         && (forall k :: 0 <= k < lo ==> IsSpace(s[k]))
                         && (forall k :: lo + |r| <= k < |s| ==> IsSpace(s[k]))
  {
    var lead := LeadingSpace(s);
    var rest := s[lead..];
    var trail := TrailingSpace(rest);
    var r := rest[..|rest| - trail];
    assert OccursAt(s, r, lead);
    assert forall k :: lead + |r| <= k < |s| ==> s[k] == rest[k - lead];
    r
  }
}
