/** Python string primitives the core relies on: `str.lower`, the `in`
    substring test, the regex classes `\w` and `\s`, `str.strip`, and the
    notion of an order-preserving subsequence used to state what a
    character filter keeps. */
module Text {

  /** Python's `str.isspace()` set, which is also what the regex class `\s`
      (on `str` patterns) and `str.strip()` with no argument use. */
  predicate IsSpace(c: char) {
    || ('\t' <= c <= '\r')                 // tab, line feed, vertical tab, form feed, carriage return
    || ('\U{1C}' <= c <= '\U{1F}')         // file, group, record and unit separators
    || c == ' ' || c == '\U{85}' || c == '\U{A0}' || c == '\U{1680}'
    || ('\U{2000}' <= c <= '\U{200A}')
    || c == '\U{2028}' || c == '\U{2029}' || c == '\U{202F}' || c == '\U{205F}' || c == '\U{3000}'
  }

  /** The regex class `\w`, restricted to ASCII: letters, digits and underscore. */
  predicate IsWordChar(c: char) {
    ('a' <= c <= 'z') || ('A' <= c <= 'Z') || ('0' <= c <= '9') || c == '_'
  }

  /** A character the pattern `[^\w\s]` does not delete. */
  predicate IsQueryChar(c: char) {
    IsWordChar(c) || IsSpace(c)
  }

  predicate AllSpace(s: string) {
    forall i :: 0 <= i < |s| ==> IsSpace(s[i])
  }

  predicate AllQueryChars(s: string) {
    forall i :: 0 <= i < |s| ==> IsQueryChar(s[i])
  }

  /** No whitespace at either end. */
  predicate Trimmed(s: string) {
    s == [] || (!IsSpace(s[0]) && !IsSpace(s[|s| - 1]))
  }

  // ---------------------------------------------------------------------------
  // Case folding

  function LowerChar(c: char): char {
    if 'A' <= c <= 'Z' then (c as int + 32) as char else c
  }

  /** `str.lower()` on ASCII letters; every other character is kept. */
  function Lower(s: string): (r: string)
    ensures |r| == |s|
    ensures forall i :: 0 <= i < |s| && 'A' <= s[i] <= 'Z' ==> r[i] as int == s[i] as int + 32
    ensures forall i :: 0 <= i < |s| && !('A' <= s[i] <= 'Z') ==> r[i] == s[i]
  {
    seq(|s|, i requires 0 <= i < |s| => LowerChar(s[i]))
  }

  predicate IsLowerCase(s: string) {
    forall i :: 0 <= i < |s| ==> !('A' <= s[i] <= 'Z')
  }

  /** Lowering yields a lower-case string, and a lower-case string is its own
      lowering; together they make `Lower` idempotent. */
  lemma LowerIsLowerCase(s: string)
    ensures IsLowerCase(Lower(s))
    ensures IsLowerCase(s) ==> Lower(s) == s
    ensures Lower(Lower(s)) == Lower(s)
  {
    var l := Lower(s);
    assert forall i :: 0 <= i < |l| ==> l[i] == LowerChar(s[i]);
    assert Lower(l) == l by {
      forall i | 0 <= i < |l|
        ensures Lower(l)[i] == l[i]
      {
        assert LowerChar(l[i]) == l[i];
      }
    }
  }

  // ---------------------------------------------------------------------------
  // Substrings

  /** `needle` occurs in `hay` starting at index `i`. */
  ghost predicate OccursAt<T>(hay: seq<T>, needle: seq<T>, i: int) {
    0 <= i && i + |needle| <= |hay| && hay[i..i + |needle|] == needle
  }

  /** Python's `needle in hay` on strings, as a left-to-right scan. */
  predicate Contains<T(==)>(hay: seq<T>, needle: seq<T>)
    ensures |needle| == 0 ==> Contains(hay, needle)
    ensures Contains(hay, needle) ==> |needle| <= |hay|
    decreases |hay|
  {
    |needle| <= |hay| && (hay[..|needle|] == needle || Contains(hay[1..], needle))
  }

  /** The scan finds `needle` exactly when it occurs at some index of `hay`. */
  lemma {:induction false} ContainsIff<T>(hay: seq<T>, needle: seq<T>)
    ensures Contains(hay, needle) <==> exists i :: OccursAt(hay, needle, i)
    decreases |hay|
  {
    if |needle| > |hay| {
      assert forall i :: !OccursAt(hay, needle, i);
    } else if hay[..|needle|] == needle {
      assert OccursAt(hay, needle, 0);
    } else {
      var tail := hay[1..];
      ContainsIff(tail, needle);
      if Contains(tail, needle) {
        var j :| OccursAt(tail, needle, j);
        assert hay[j + 1..j + 1 + |needle|] == tail[j..j + |needle|];
        assert OccursAt(hay, needle, j + 1);
      }
      if i :| OccursAt(hay, needle, i) {
        assert i != 0;
        assert tail[i - 1..i - 1 + |needle|] == hay[i..i + |needle|];
        assert OccursAt(tail, needle, i - 1);
      }
    }
  }

  /** A substring of a substring is a substring. */
  lemma ContainsTransitive<T>(hay: seq<T>, mid: seq<T>, needle: seq<T>)
    requires Contains(hay, mid) && Contains(mid, needle)
    ensures Contains(hay, needle)
  {
    ContainsIff(hay, mid);
    ContainsIff(mid, needle);
    var i :| OccursAt(hay, mid, i);
    var j :| OccursAt(mid, needle, j);
    forall k | 0 <= k < |needle|
      ensures hay[i + j + k] == needle[k]
    {
      assert hay[i + j + k] == hay[i..i + |mid|][j + k];
      assert needle[k] == mid[j..j + |needle|][k];
    }
    assert OccursAt(hay, needle, i + j);
    ContainsIff(hay, needle);
  }

  // ---------------------------------------------------------------------------
  // Subsequences

  /** `a` can be obtained from `b` by deleting elements, keeping the order of
      the rest. */
  predicate IsSubsequence<T(==)>(a: seq<T>, b: seq<T>)
    decreases |b|
  {
    |a| == 0 || (|b| > 0 && ((a[0] == b[0] && IsSubsequence(a[1..], b[1..])) || IsSubsequence(a, b[1..])))
  }

  lemma {:induction false} SubsequenceTransitive<T>(a: seq<T>, b: seq<T>, c: seq<T>)
    requires IsSubsequence(a, b) && IsSubsequence(b, c)
    ensures IsSubsequence(a, c)
    decreases |c|
  {
    if |a| == 0 {
    } else if IsSubsequence(b, c[1..]) {
      SubsequenceTransitive(a, b, c[1..]);
    } else {
      assert b[0] == c[0] && IsSubsequence(b[1..], c[1..]);
      if a[0] == b[0] && IsSubsequence(a[1..], b[1..]) {
        SubsequenceTransitive(a[1..], b[1..], c[1..]);
      } else {
        SubsequenceTransitive(a, b[1..], c[1..]);
      }
    }
  }

  /** Every contiguous slice is a subsequence. */
  lemma {:induction false} SliceIsSubsequence<T>(s: seq<T>, i: nat, j: nat)
    requires i <= j <= |s|
    ensures IsSubsequence(s[i..j], s)
    decreases |s|
  {
    if i == j {
    } else if i == 0 {
      var t := s[1..];
      assert s[i..j][1..] == t[0..j - 1] by {
        assert forall k :: 0 <= k < j - 1 ==> s[i..j][1..][k] == s[k + 1] == t[0..j - 1][k];
      }
      SliceIsSubsequence(t, 0, j - 1);
    } else {
      var t := s[1..];
      assert s[i..j] == t[i - 1..j - 1] by {
        assert forall k :: 0 <= k < j - i ==> s[i..j][k] == s[i + k] == t[i - 1..j - 1][k];
      }
      SliceIsSubsequence(t, i - 1, j - 1);
    }
  }

  // ---------------------------------------------------------------------------
  // Character filters

  /** `re.sub(r'[^\w\s]', '', s)`: delete every character that is neither a
      word character nor whitespace. */
  function QueryChars(s: string): (r: string)
    ensures AllQueryChars(r)
    ensures |r| <= |s|
  {
    if |s| == 0 then []
    else if IsQueryChar(s[0]) then [s[0]] + QueryChars(s[1..])
    else QueryChars(s[1..])
  }

  /** Counted character by character, the filter keeps every occurrence of
      a word or whitespace character and nothing else. */
  lemma {:induction false} QueryCharsCounts(s: string)
    ensures forall c :: multiset(QueryChars(s))[c] == if IsQueryChar(c) then multiset(s)[c] else 0
    decreases |s|
  {
    if |s| > 0 {
      QueryCharsCounts(s[1..]);
      assert s == [s[0]] + s[1..];
      assert multiset(s) == multiset([s[0]]) + multiset(s[1..]);
      if IsQueryChar(s[0]) {
        assert multiset(QueryChars(s)) == multiset([s[0]]) + multiset(QueryChars(s[1..]));
      }
    }
  }

  /** The filter keeps the order of what it keeps. */
  lemma {:induction false} QueryCharsIsSubsequence(s: string)
    ensures IsSubsequence(QueryChars(s), s)
    decreases |s|
  {
    if |s| > 0 {
      QueryCharsIsSubsequence(s[1..]);
      var r := QueryChars(s);
      if IsQueryChar(s[0]) {
        assert r == [s[0]] + QueryChars(s[1..]);
        assert r[0] == s[0] && r[1..] == QueryChars(s[1..]);
      } else {
        assert r == QueryChars(s[1..]);
      }
    }
  }

  /** A string with nothing to delete passes the filter unchanged. */
  lemma {:induction false} QueryCharsIdentity(s: string)
    requires AllQueryChars(s)
    ensures QueryChars(s) == s
    decreases |s|
  {
    if |s| > 0 {
      QueryCharsIdentity(s[1..]);
      assert s == [s[0]] + s[1..];
    }
  }

  lemma {:induction false} QueryCharsConcat(a: string, b: string)
    ensures QueryChars(a + b) == QueryChars(a) + QueryChars(b)
    decreases |a|
  {
    if |a| > 0 {
      assert (a + b)[0] == a[0] && (a + b)[1..] == a[1..] + b;
      QueryCharsConcat(a[1..], b);
    } else {
      assert a + b == b;
    }
  }

  /** The word characters of `s`, in order: the characters a search query
      derived from `s` is meant to keep. */
  function WordChars(s: string): string {
    if |s| == 0 then []
    else if IsWordChar(s[0]) then [s[0]] + WordChars(s[1..])
    else WordChars(s[1..])
  }

  lemma {:induction false} WordCharsConcat(a: string, b: string)
    ensures WordChars(a + b) == WordChars(a) + WordChars(b)
    decreases |a|
  {
    if |a| > 0 {
      assert (a + b)[1..] == a[1..] + b;
      WordCharsConcat(a[1..], b);
    } else {
      assert a + b == b;
    }
  }

  lemma {:induction false} WordCharsOfSpace(s: string)
    requires AllSpace(s)
    ensures WordChars(s) == []
    decreases |s|
  {
    if |s| > 0 {
      WordCharsOfSpace(s[1..]);
    }
  }

  /** Deleting the characters `[^\w\s]` loses no word character. */
  lemma {:induction false} QueryCharsKeepsWordChars(s: string)
    ensures WordChars(QueryChars(s)) == WordChars(s)
    decreases |s|
  {
    if |s| > 0 {
      QueryCharsKeepsWordChars(s[1..]);
    }
  }

  // ---------------------------------------------------------------------------
  // Stripping whitespace

  /** `s` is `r` with only whitespace around it, `r` starting at index `i`. */
  ghost predicate SpacePadded(s: string, r: string, i: int) {
    && 0 <= i && i + |r| <= |s|
    && s[i..i + |r|] == r
    && (forall k :: 0 <= k < i ==> IsSpace(s[k]))
    && (forall k :: i + |r| <= k < |s| ==> IsSpace(s[k]))
  }

  /** The scan from `from` over leading whitespace: the index of the first
      non-space character at or after `from`, or `|s|`. */
  function SkipSpaces(s: string, from: nat): (n: nat)
    requires from <= |s|
    ensures from <= n <= |s|
    ensures forall k :: from <= k < n ==> IsSpace(s[k])
    ensures n == |s| || !IsSpace(s[n])
    decreases |s| - from
  {
    if from < |s| && IsSpace(s[from]) then SkipSpaces(s, from + 1) else from
  }

  /** The scan down from `hi` over trailing whitespace, not below `lo`: the
      end of the last non-space character in `s[lo..hi]`, or `lo`. */
  function SkipSpacesBack(s: string, lo: nat, hi: nat): (m: nat)
    requires lo <= hi <= |s|
    ensures lo <= m <= hi
    ensures forall k :: m <= k < hi ==> IsSpace(s[k])
    ensures m == lo || !IsSpace(s[m - 1])
    decreases hi
  {
    if lo < hi && IsSpace(s[hi - 1]) then SkipSpacesBack(s, lo, hi - 1) else hi
  }

  /** `str.strip()`: the result has no whitespace at either end, and `s` is
      the result with only whitespace around it. */
  function Strip(s: string): (r: string)
    ensures Trimmed(r)
    ensures exists i :: SpacePadded(s, r, i)
  {
    var i := SkipSpaces(s, 0);
    var j := SkipSpacesBack(s, i, |s|);
    assert SpacePadded(s, s[i..j], i);
    s[i..j]
  }

  /** A string has only one trimmed core: any trimmed `r` that `s` pads with
      whitespace is `Strip(s)`. */
  lemma StripUnique(s: string, r: string, i: int)
    requires Trimmed(r) && SpacePadded(s, r, i)
    ensures Strip(s) == r
  {
    var q := Strip(s);
    var j :| SpacePadded(s, q, j);
    TrimmedCoreUnique(s, r, i, q, j);
  }

  lemma TrimmedCoreUnique(s: string, r: string, i: int, q: string, j: int)
    requires Trimmed(r) && SpacePadded(s, r, i)
    requires Trimmed(q) && SpacePadded(s, q, j)
    ensures r == q
  {
    if |r| > 0 && |q| > 0 {
      // The first non-space character of `s` starts both cores, and the last
      // one ends both.
      assert s[i] == r[0] && s[j] == q[0];
      assert i == j;
      assert s[i + |r| - 1] == r[|r| - 1] && s[j + |q| - 1] == q[|q| - 1];
      assert |r| == |q|;
    }
  }

  /** A trimmed string is its own stripping. */
  lemma StripTrimmed(s: string)
    requires Trimmed(s)
    ensures Strip(s) == s
  {
    assert s[0..|s|] == s;
    StripUnique(s, s, 0);
  }

  /** Stripping keeps every word character (only whitespace is removed). */
  lemma StripKeepsWordChars(s: string)
    ensures WordChars(Strip(s)) == WordChars(s)
  {
    var r := Strip(s);
    var i :| SpacePadded(s, r, i);
    var lead, trail := s[..i], s[i + |r|..];
    assert AllSpace(lead);
    assert AllSpace(trail) by {
      assert forall k :: 0 <= k < |trail| ==> trail[k] == s[i + |r| + k];
    }
    assert s == lead + r + trail;
    WordCharsConcat(lead + r, trail);
    WordCharsConcat(lead, r);
    WordCharsOfSpace(lead);
    WordCharsOfSpace(trail);
  }

  /** Stripping yields a contiguous piece, hence a subsequence, of its input. */
  lemma StripIsSubsequence(s: string)
    ensures IsSubsequence(Strip(s), s)
  {
    var r := Strip(s);
    var i :| SpacePadded(s, r, i);
    SliceIsSubsequence(s, i, i + |r|);
  }

  /** Stripping removes whitespace only: every other character keeps all
      its occurrences. */
  lemma StripKeepsCounts(s: string)
    ensures forall c :: !IsSpace(c) ==> multiset(Strip(s))[c] == multiset(s)[c]
  {
    var r := Strip(s);
    var i :| SpacePadded(s, r, i);
    var lead, trail := s[..i], s[i + |r|..];
    assert s == lead + r + trail;
    assert multiset(s) == multiset(lead) + multiset(r) + multiset(trail);
    forall c | !IsSpace(c)
      ensures multiset(r)[c] == multiset(s)[c]
    {
      assert c !in lead;
      assert c !in trail;
    }
  }

  /** Stripping a string of word and whitespace characters leaves one. */
  lemma StripKeepsQueryChars(s: string)
    requires AllQueryChars(s)
    ensures AllQueryChars(Strip(s))
  {
    var i := SkipSpaces(s, 0);
    var j := SkipSpacesBack(s, i, |s|);
    assert forall k :: 0 <= k < j - i ==> s[i..j][k] == s[i + k];
  }
}
