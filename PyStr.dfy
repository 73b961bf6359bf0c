/**
  The Python string operations the backend agents apply to model output:
  str.strip() with no argument, str.find, str.count and str.replace, all on
  Python's code-point strings (here seq<char>).
*/
module PyStr {
  import opened Wrappers

  // ---------------------------------------------------------------------------
  // str.strip()
  // ---------------------------------------------------------------------------

  /** Python's str.isspace() for one code point: exactly the characters that
      str.strip() with no argument removes. */
  predicate IsSpace(c: char) {
    || ('\t' <= c <= '\r')
    || ('\U{1C}' <= c <= '\U{1F}')
    || c == ' '
    || c == '\U{85}'
    || c == '\U{A0}'
    || c == '\U{1680}'
    || ('\U{2000}' <= c <= '\U{200A}')
    || c == '\U{2028}'
    || c == '\U{2029}'
    || c == '\U{202F}'
    || c == '\U{205F}'
    || c == '\U{3000}'
  }

  /** s[lo..hi] is all whitespace. */
  predicate AllSpaceIn(s: string, lo: int, hi: int) {
    0 <= lo && hi <= |s| && forall k :: lo <= k < hi ==> IsSpace(s[k])
  }

  /** `t` is what remains of `s` once the leading and trailing whitespace is
      cut, `i` whitespace characters from the start: a slice of `s` with only
      whitespace outside it that neither starts nor ends with whitespace. */
  predicate IsStripAt(s: string, t: string, i: nat) {
    && i + |t| <= |s|
    && s[i..i + |t|] == t
    && AllSpaceIn(s, 0, i)
    && AllSpaceIn(s, i + |t|, |s|)
    && (|t| == 0 || (!IsSpace(t[0]) && !IsSpace(t[|t| - 1])))
  }

  ghost predicate IsStripOf(s: string, t: string) {
    exists i: nat :: IsStripAt(s, t, i)
  }

  /** The forward scan of str.strip(): the number of leading whitespace characters. */
  function LeadingSpace(s: string): (n: nat)
    ensures n <= |s| && AllSpaceIn(s, 0, n)
    ensures n == |s| || !IsSpace(s[n])
    decreases |s|
  {
    if |s| > 0 && IsSpace(s[0]) then
      var m := LeadingSpace(s[1..]);
      assert forall k :: 1 <= k < m + 1 ==> IsSpace(s[k]) by {
        forall k | 1 <= k < m + 1 ensures IsSpace(s[k]) {
          assert s[k] == s[1..][k - 1];
        }
      }
      assert m < |s| - 1 ==> s[m + 1] == s[1..][m];
      m + 1
    else 0
  }

  /** The backward scan of str.strip(): the index at which the trailing
      whitespace begins. */
  function TrailingStart(s: string): (n: nat)
    ensures n <= |s| && AllSpaceIn(s, n, |s|)
    ensures n == 0 || !IsSpace(s[n - 1])
    decreases |s|
  {
    if |s| > 0 && IsSpace(s[|s| - 1]) then
      var u := s[..|s| - 1];
      var m := TrailingStart(u);
      assert forall k :: m <= k < |s| - 1 ==> IsSpace(s[k]) by {
        forall k | m <= k < |s| - 1 ensures IsSpace(s[k]) {
          assert s[k] == u[k];
        }
      }
      assert m > 0 ==> s[m - 1] == u[m - 1];
      m
    else |s|
  }

  /** Only one count of leading whitespace has the scan's stopping property. */
  lemma LeadingSpaceUnique(s: string, i: nat)
    requires i <= |s| && AllSpaceIn(s, 0, i) && (i == |s| || !IsSpace(s[i]))
    ensures LeadingSpace(s) == i
  {
  }

  /** Only one start of trailing whitespace has the backward scan's stopping property. */
  lemma TrailingStartUnique(s: string, j: nat)
    requires j <= |s| && AllSpaceIn(s, j, |s|) && (j == 0 || !IsSpace(s[j - 1]))
    ensures TrailingStart(s) == j
  {
  }

  /** str.strip(): scan forward over whitespace, then backward down to where
      the forward scan stopped. */
  function Strip(s: string): (r: string)
    ensures IsStripOf(s, r)
  {
    var i := LeadingSpace(s);
    if i == |s| then
      assert IsStripAt(s, [], |s|);
      []
    else
      var j := TrailingStart(s);
      assert i < j;
      var r := s[i..j];
      assert IsStripAt(s, r, i) by {
        assert r[0] == s[i] && r[|r| - 1] == s[j - 1];
      }
      r
  }

  /** The stripped text is determined by `s`: any slice with the properties
      of IsStripAt is the one Strip returns. */
  lemma StripUnique(s: string, t: string, i: nat)
    requires IsStripAt(s, t, i)
    ensures t == Strip(s)
  {
    if |t| == 0 {
      assert AllSpaceIn(s, 0, |s|) by {
        forall k | 0 <= k < |s| ensures IsSpace(s[k]) {
          if k < i { assert AllSpaceIn(s, 0, i); } else { assert AllSpaceIn(s, i, |s|); }
        }
      }
      LeadingSpaceUnique(s, |s|);
    } else {
      assert s[i] == t[0] && s[i + |t| - 1] == t[|t| - 1];
      LeadingSpaceUnique(s, i);
      TrailingStartUnique(s, i + |t|);
    }
  }

  /** Stripping twice is stripping once. */
  lemma StripIdempotent(s: string)
    ensures Strip(Strip(s)) == Strip(s)
  {
    var t := Strip(s);
    assert t[0..0 + |t|] == t;
    assert IsStripAt(t, t, 0);
    StripUnique(t, t, 0);
  }

  // ---------------------------------------------------------------------------
  // str.find, str.count, str.replace
  // ---------------------------------------------------------------------------

  /** `pattern` occurs in `s` starting at index `i`. */
  predicate OccursAt(s: string, pattern: string, i: nat) {
    i + |pattern| <= |s| && forall k :: 0 <= k < |pattern| ==> s[i + k] == pattern[k]
  }

  ghost predicate Contains(s: string, pattern: string) {
    exists i: nat :: OccursAt(s, pattern, i)
  }

  /** An occurrence at j > 0 in s is one at j - 1 in s[1..]. */
  lemma OccursShift(s: string, pattern: string, j: nat)
    requires 0 < j <= |s|
    ensures OccursAt(s, pattern, j) <==> OccursAt(s[1..], pattern, j - 1)
  {
    var u := s[1..];
    if OccursAt(s, pattern, j) {
      assert forall k :: 0 <= k < |pattern| ==> u[j - 1 + k] == pattern[k];
    }
    if OccursAt(u, pattern, j - 1) {
      assert forall k :: 0 <= k < |pattern| ==> s[j + k] == pattern[k];
    }
  }

  /** An occurrence at the start splits the text into the pattern and the rest. */
  lemma StartsWith(s: string, pattern: string)
    requires OccursAt(s, pattern, 0)
    ensures s == pattern + s[|pattern|..]
  {
    assert s[..|pattern|] == pattern;
  }

  /** An occurrence at j in the suffix from `start` is one at start + j in s. */
  lemma OccursInSuffix(s: string, pattern: string, start: nat, j: nat)
    requires start <= |s|
    ensures OccursAt(s[start..], pattern, j) <==> OccursAt(s, pattern, start + j)
  {
    var t := s[start..];
    if OccursAt(t, pattern, j) {
      assert forall k :: 0 <= k < |pattern| ==> s[start + j + k] == pattern[k];
    }
    if OccursAt(s, pattern, start + j) {
      assert forall k :: 0 <= k < |pattern| ==> t[j + k] == pattern[k];
    }
  }

  /** str.find(pattern, start): the lowest index from `start` on at which
      `pattern` occurs, or None for -1. */
  function Find(s: string, pattern: string, start: nat): (r: Option<nat>)
    requires start <= |s|
    ensures r.Some? ==> start <= r.value && OccursAt(s, pattern, r.value)
    decreases |s| - start
  {
    if OccursAt(s, pattern, start) then Some(start)
    else if start == |s| then None
    else Find(s, pattern, start + 1)
  }

  /** What find returns is the first occurrence from `start`, and it finds
      nothing only when there is nothing from `start` on. */
  lemma {:induction false} FindFirst(s: string, pattern: string, start: nat)
    requires start <= |s|
    ensures Find(s, pattern, start).Some? ==>
      forall j: nat :: start <= j < Find(s, pattern, start).value ==> !OccursAt(s, pattern, j)
    ensures Find(s, pattern, start).None? <==> forall j: nat :: start <= j ==> !OccursAt(s, pattern, j)
    decreases |s| - start
  {
    if !OccursAt(s, pattern, start) && start < |s| {
      FindFirst(s, pattern, start + 1);
    }
  }

  /** Searching the whole text finds nothing exactly when the pattern is absent. */
  lemma FindAbsent(s: string, pattern: string)
    ensures Find(s, pattern, 0).None? <==> !Contains(s, pattern)
  {
    FindFirst(s, pattern, 0);
  }

  /** str.count: the number of non-overlapping occurrences of `pattern`,
      scanned left to right; an empty pattern counts |s| + 1 times. */
  function Count(s: string, pattern: string): nat
    decreases |s|
  {
    if |pattern| == 0 then |s| + 1
    else if |s| == 0 then 0
    else if OccursAt(s, pattern, 0) then 1 + Count(s[|pattern|..], pattern)
    else Count(s[1..], pattern)
  }

  /** str.replace(pattern, replacement): every non-overlapping occurrence of
      `pattern`, scanned left to right, is replaced. An empty pattern matches
      before every character and at the end. */
  function Replace(s: string, pattern: string, replacement: string): string
    decreases |s|
  {
    if |pattern| == 0 then
      if |s| == 0 then replacement else replacement + [s[0]] + Replace(s[1..], pattern, replacement)
    else if |s| == 0 then []
    else if OccursAt(s, pattern, 0) then replacement + Replace(s[|pattern|..], pattern, replacement)
    else [s[0]] + Replace(s[1..], pattern, replacement)
  }

  /** A second, independent definition of replace for a non-empty pattern,
      the way CPython computes it with find: from `start`, copy the text up to
      the next occurrence, then the replacement, and go on after it. */
  function ReplaceFrom(s: string, pattern: string, replacement: string, start: nat): string
    requires |pattern| > 0 && start <= |s|
    decreases |s| - start
  {
    match Find(s, pattern, start)
    case None => s[start..]
    case Some(i) => Splice(s[start..i], replacement, ReplaceFrom(s, pattern, replacement, i + |pattern|))
  }

  /** The text before an occurrence, the replacement, and what follows.
      A function of its own rather than inline in ReplaceFrom, so that
      unfolding ReplaceFrom does not also expose the concatenation; the
      lemmas open it only where they need it. */
  function Splice(before: string, replacement: string, after: string): string {
    before + replacement + after
  }

  /** Each occurrence changes the length by |replacement| - |pattern|. */
  lemma {:induction false} ReplaceLength(s: string, pattern: string, replacement: string)
    ensures |Replace(s, pattern, replacement)| == |s| + Count(s, pattern) * (|replacement| - |pattern|)
    decreases |s|
  {
    var d := |replacement| - |pattern|;
    if |pattern| == 0 {
      if |s| > 0 {
        var tail := Replace(s[1..], pattern, replacement);
        ReplaceLength(s[1..], pattern, replacement);
        assert |tail| == |s| - 1 + |s| * d;
        MulStep(|s|, d);
      }
    } else if |s| > 0 && OccursAt(s, pattern, 0) {
      var rest := s[|pattern|..];
      var c := Count(rest, pattern);
      ReplaceLength(rest, pattern, replacement);
      assert |Replace(rest, pattern, replacement)| == |rest| + c * d;
      MulStep(c, d);
    } else if |s| > 0 {
      ReplaceLength(s[1..], pattern, replacement);
    }
  }

  lemma MulStep(c: int, d: int)
    ensures (c + 1) * d == c * d + d
  {
  }

  /** A pattern counts zero times exactly when it does not occur. */
  lemma {:induction false} CountZeroIffAbsent(s: string, pattern: string)
    ensures Count(s, pattern) == 0 <==> !Contains(s, pattern)
    decreases |s|
  {
    if |pattern| == 0 {
      assert OccursAt(s, pattern, 0);
    } else if |s| == 0 {
      assert forall j: nat :: !OccursAt(s, pattern, j);
    } else if OccursAt(s, pattern, 0) {
    } else {
      CountZeroIffAbsent(s[1..], pattern);
      ContainsTail(s, pattern);
    }
  }

  /** When the pattern does not start `s`, it occurs in `s` iff it occurs in s[1..]. */
  lemma ContainsTail(s: string, pattern: string)
    requires |s| > 0 && !OccursAt(s, pattern, 0)
    ensures Contains(s, pattern) <==> Contains(s[1..], pattern)
  {
    if Contains(s, pattern) {
      var j: nat :| OccursAt(s, pattern, j);
      OccursShift(s, pattern, j);
    }
    if Contains(s[1..], pattern) {
      var j: nat :| OccursAt(s[1..], pattern, j);
      OccursShift(s, pattern, j + 1);
      assert OccursAt(s, pattern, j + 1);
    }
  }

  /** Replacing a pattern that does not occur leaves the string unchanged. */
  lemma {:induction false} ReplaceAbsent(s: string, pattern: string, replacement: string)
    requires |pattern| > 0 && !Contains(s, pattern)
    ensures Replace(s, pattern, replacement) == s
    decreases |s|
  {
    if |s| > 0 {
      assert !OccursAt(s, pattern, 0);
      ContainsTail(s, pattern);
      ReplaceAbsent(s[1..], pattern, replacement);
    }
  }

  /** Replacing a pattern by itself leaves the string unchanged. */
  lemma {:induction false} ReplaceBySelf(s: string, pattern: string)
    ensures Replace(s, pattern, pattern) == s
    decreases |s|
  {
    if |pattern| == 0 {
      if |s| > 0 {
        ReplaceBySelf(s[1..], pattern);
        assert s == [s[0]] + s[1..];
      }
    } else if |s| == 0 {
    } else if OccursAt(s, pattern, 0) {
      ReplaceBySelf(s[|pattern|..], pattern);
      StartsWith(s, pattern);
    } else {
      ReplaceBySelf(s[1..], pattern);
      assert s == [s[0]] + s[1..];
    }
  }

  /** Where the pattern does not start the text, its first character is copied. */
  lemma ReplaceStepMiss(s: string, pattern: string, replacement: string)
    requires |pattern| > 0 && |s| > 0 && !OccursAt(s, pattern, 0)
    ensures Replace(s, pattern, replacement) == [s[0]] + Replace(s[1..], pattern, replacement)
  {
  }

  /** Where the pattern starts the text, it is replaced and the scan goes on after it. */
  lemma ReplaceStepHit(s: string, pattern: string, replacement: string)
    requires |pattern| > 0 && OccursAt(s, pattern, 0)
    ensures Replace(s, pattern, replacement) == replacement + Replace(s[|pattern|..], pattern, replacement)
  {
  }

  /** No occurrence before i in s means none before i - 1 in s[1..]. */
  lemma NoOccurrenceShift(s: string, pattern: string, i: nat)
    requires 0 < i <= |s|
    requires forall j: nat :: j < i ==> !OccursAt(s, pattern, j)
    ensures forall j: nat :: j < i - 1 ==> !OccursAt(s[1..], pattern, j)
  {
    forall j: nat | j < i - 1 ensures !OccursAt(s[1..], pattern, j) {
      OccursShift(s, pattern, j + 1);
    }
  }

  /** The text before the first occurrence is copied unchanged. */
  lemma {:induction false} ReplaceSkipsPrefix(s: string, pattern: string, replacement: string, i: nat)
    requires |pattern| > 0 && i <= |s|
    requires forall j: nat :: j < i ==> !OccursAt(s, pattern, j)
    ensures Replace(s, pattern, replacement) == s[..i] + Replace(s[i..], pattern, replacement)
    decreases i
  {
    if i == 0 {
      assert s[..0] == [] && s[0..] == s;
    } else {
      var u := s[1..];
      assert !OccursAt(s, pattern, 0);
      ReplaceStepMiss(s, pattern, replacement);
      NoOccurrenceShift(s, pattern, i);
      ReplaceSkipsPrefix(u, pattern, replacement, i - 1);
      DropDrop(s, 1, i - 1);
      PrependToPrefix(s, i, Replace(s[i..], pattern, replacement));
    }
  }

  lemma PrependToPrefix<T>(s: seq<T>, i: nat, rest: seq<T>)
    requires 0 < i <= |s|
    ensures [s[0]] + (s[1..][..i - 1] + rest) == s[..i] + rest
  {
    ConcatAssoc([s[0]], s[1..][..i - 1], rest);
    assert [s[0]] + s[1..][..i - 1] == s[..i];
  }


  /** Where the pattern does not occur at `start`, the find-based definition
      copies that character and goes on from the next one. */
  lemma ReplaceFromMiss(s: string, pattern: string, replacement: string, start: nat)
    requires |pattern| > 0 && start < |s| && !OccursAt(s, pattern, start)
    ensures ReplaceFrom(s, pattern, replacement, start) == [s[start]] + ReplaceFrom(s, pattern, replacement, start + 1)
  {
    assert Find(s, pattern, start) == Find(s, pattern, start + 1);
    match Find(s, pattern, start + 1)
    case None =>
      assert s[start..] == [s[start]] + s[start + 1..];
    case Some(i) =>
      var rest := ReplaceFrom(s, pattern, replacement, i + |pattern|);
      var u := s[start + 1..i];
      assert s[start..i] == [s[start]] + u;
      ReplaceFromAt(s, pattern, replacement, start, i);
      ReplaceFromAt(s, pattern, replacement, start + 1, i);
      calc {
        ReplaceFrom(s, pattern, replacement, start);
        Splice([s[start]] + u, replacement, rest);
        ([s[start]] + u) + replacement + rest;
        { ConcatAssoc([s[start]], u, replacement); }
        ([s[start]] + (u + replacement)) + rest;
        { ConcatAssoc([s[start]], u + replacement, rest); }
        [s[start]] + (u + replacement + rest);
        [s[start]] + Splice(u, replacement, rest);
        [s[start]] + ReplaceFrom(s, pattern, replacement, start + 1);
      }
  }

  /** Where the pattern occurs at `start`, the find-based definition emits the
      replacement and goes on after the occurrence. */
  lemma ReplaceFromHit(s: string, pattern: string, replacement: string, start: nat)
    requires |pattern| > 0 && start <= |s| && OccursAt(s, pattern, start)
    ensures ReplaceFrom(s, pattern, replacement, start) == replacement + ReplaceFrom(s, pattern, replacement, start + |pattern|)
  {
    var rest := ReplaceFrom(s, pattern, replacement, start + |pattern|);
    assert Find(s, pattern, start) == Some(start);
    ReplaceFromAt(s, pattern, replacement, start, start);
    assert s[start..start] == [];
    assert Splice([], replacement, rest) == replacement + rest;
  }

  /** Unfolding the find-based definition at an occurrence found from `start`. */
  lemma ReplaceFromAt(s: string, pattern: string, replacement: string, start: nat, i: nat)
    requires |pattern| > 0 && start <= |s| && Find(s, pattern, start) == Some(i)
    ensures i + |pattern| <= |s|
    ensures ReplaceFrom(s, pattern, replacement, start) == Splice(s[start..i], replacement, ReplaceFrom(s, pattern, replacement, i + |pattern|))
  {
  }

  lemma DropDrop<T>(s: seq<T>, a: nat, b: nat)
    requires a + b <= |s|
    ensures s[a..][b..] == s[a + b..]
  {
  }

  lemma ConcatAssoc<T>(a: seq<T>, b: seq<T>, c: seq<T>)
    ensures a + (b + c) == (a + b) + c
  {
  }

  /** An occurrence at `start` takes both definitions past it in one step. */
  lemma AgreesAfterHit(s: string, pattern: string, replacement: string, start: nat)
    requires |pattern| > 0 && start <= |s| && OccursAt(s, pattern, start)
    ensures Replace(s[start..], pattern, replacement) == ReplaceFrom(s, pattern, replacement, start)
    decreases |s| - start, 0
  {
    ReplaceFromAgrees(s, pattern, replacement, start + |pattern|);
    var t := s[start..];
    OccursInSuffix(s, pattern, start, 0);
    ReplaceStepHit(t, pattern, replacement);
    DropDrop(s, start, |pattern|);
    ReplaceFromHit(s, pattern, replacement, start);
  }

  /** A character at `start` that does not begin an occurrence is copied by both. */
  lemma AgreesAfterMiss(s: string, pattern: string, replacement: string, start: nat)
    requires |pattern| > 0 && start < |s| && !OccursAt(s, pattern, start)
    ensures Replace(s[start..], pattern, replacement) == ReplaceFrom(s, pattern, replacement, start)
    decreases |s| - start, 0
  {
    ReplaceFromAgrees(s, pattern, replacement, start + 1);
    var t := s[start..];
    OccursInSuffix(s, pattern, start, 0);
    ReplaceStepMiss(t, pattern, replacement);
    DropDrop(s, start, 1);
    ReplaceFromMiss(s, pattern, replacement, start);
  }

  /** At the end of the text both definitions give the empty string. */
  lemma AgreesAtEnd(s: string, pattern: string, replacement: string)
    requires |pattern| > 0
    ensures Replace(s[|s|..], pattern, replacement) == ReplaceFrom(s, pattern, replacement, |s|)
  {
    assert Find(s, pattern, |s|) == None;
  }

  /** The scanning definition of replace, applied to the text from `start`,
      agrees with the find-based one. */
  lemma {:induction false} ReplaceFromAgrees(s: string, pattern: string, replacement: string, start: nat)
    requires |pattern| > 0 && start <= |s|
    ensures Replace(s[start..], pattern, replacement) == ReplaceFrom(s, pattern, replacement, start)
    decreases |s| - start, 1
  {
    if OccursAt(s, pattern, start) {
      AgreesAfterHit(s, pattern, replacement, start);
    } else if start == |s| {
      AgreesAtEnd(s, pattern, replacement);
    } else {
      AgreesAfterMiss(s, pattern, replacement, start);
    }
  }

  /** str.replace agrees with the find-based definition on the whole text. */
  lemma ReplaceAgreesWithFind(s: string, pattern: string, replacement: string)
    requires |pattern| > 0
    ensures Replace(s, pattern, replacement) == ReplaceFrom(s, pattern, replacement, 0)
  {
    ReplaceFromAgrees(s, pattern, replacement, 0);
    assert s[0..] == s;
  }
}
