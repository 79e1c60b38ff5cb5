/**
 * String operations the source takes from the JavaScript library, written out:
 * substring search (`indexOf`, `includes`, `startsWith`), `trim` with the
 * ECMAScript white-space set, and `split("\n")`.  Strings are sequences of
 * Dafny characters, which are Unicode scalar values, not the UTF-16 code units
 * of a JavaScript string: indices and lengths count characters, and a
 * character outside the Basic Multilingual Plane is one position here where
 * JavaScript sees two (see `Text.Trim` and `SessionHistory.Title` under
 * "Left out" in the README).
 */
module Text {
  import opened Types

  /** `pat` occurs in `s` starting at index `i`. */
  predicate IsAt(s: string, pat: string, i: int) {
    0 <= i && i + |pat| <= |s| && s[i..i + |pat|] == pat
  }

  /** The first index at or after `from` where `pat` occurs (`s.indexOf(pat, from)`). */
  function FindFrom(s: string, pat: string, from: nat): (r: Option<nat>)
    decreases |s| - from
    ensures r.Some? ==> from <= r.value && IsAt(s, pat, r.value)
  {
    if from + |pat| > |s| then None
    else if IsAt(s, pat, from) then Some(from)
    else FindFrom(s, pat, from + 1)
  }

  /** The occurrence `FindFrom` returns is the first one at or after `from`. */
  lemma {:induction false} FindFromFirst(s: string, pat: string, from: nat, k: nat)
    requires FindFrom(s, pat, from) == Some(k)
    ensures forall j :: from <= j < k ==> !IsAt(s, pat, j)
    decreases |s| - from
  {
    if from < k {
      FindFromFirst(s, pat, from + 1, k);
    }
  }

  /** `FindFrom` finds nothing only when `pat` does not occur at or after `from`. */
  lemma {:induction false} FindFromNone(s: string, pat: string, from: nat)
    ensures FindFrom(s, pat, from).None? ==> forall j :: from <= j ==> !IsAt(s, pat, j)
    decreases |s| - from
  {
    if from + |pat| <= |s| && !IsAt(s, pat, from) {
      FindFromNone(s, pat, from + 1);
    }
  }

  /** An occurrence at `k` with none between `from` and `k` is the one `FindFrom` returns. */
  lemma {:induction false} FindFromFinds(s: string, pat: string, from: nat, k: nat)
    requires from <= k && IsAt(s, pat, k)
    requires forall j :: from <= j < k ==> !IsAt(s, pat, j)
    ensures FindFrom(s, pat, from) == Some(k)
    decreases k - from
  {
    if from < k {
      FindFromFinds(s, pat, from + 1, k);
    }
  }

  /** `s.includes(pat)` */
  function Contains(s: string, pat: string): bool
  {
    FindFrom(s, pat, 0).Some?
  }

  /** `includes` holds exactly when `pat` occurs somewhere in `s`. */
  lemma ContainsIff(s: string, pat: string)
    ensures Contains(s, pat) <==> exists j :: IsAt(s, pat, j)
  {
    FindFromNone(s, pat, 0);
  }

  /** The first index at or after `from` holding `c`, or `|s|` when there is none. */
  function IndexOf(s: string, c: char, from: nat): (k: nat)
    requires from <= |s|
    decreases |s| - from
    ensures from <= k <= |s|
    ensures k < |s| ==> s[k] == c
  {
    if from == |s| || s[from] == c then from else IndexOf(s, c, from + 1)
  }

  /** No `c` lies between `from` and the index `IndexOf` returns. */
  lemma {:induction false} IndexOfFirst(s: string, c: char, from: nat)
    requires from <= |s|
    ensures forall j :: from <= j < IndexOf(s, c, from) ==> s[j] != c
    decreases |s| - from
  {
    if from < |s| && s[from] != c {
      IndexOfFirst(s, c, from + 1);
    }
  }

  /** The index of a `c` with none between `from` and it (or `|s|` with none at all) is what `IndexOf` returns. */
  lemma {:induction false} IndexOfFinds(s: string, c: char, from: nat, k: nat)
    requires from <= k <= |s| && (k < |s| ==> s[k] == c)
    requires forall j :: from <= j < k ==> s[j] != c
    ensures IndexOf(s, c, from) == k
    decreases k - from
  {
    if from < k {
      IndexOfFinds(s, c, from + 1, k);
    }
  }

  /** The two quote characters of the `["']` class. */
  predicate IsQuote(c: char) {
    c == '"' || c == '\''
  }

  /** The first index at or after `from` holding a quote character, or `|s|`. */
  function QuoteIndex(s: string, from: nat): (k: nat)
    requires from <= |s|
    decreases |s| - from
    ensures from <= k <= |s|
    ensures k < |s| ==> IsQuote(s[k])
  {
    if from == |s| || IsQuote(s[from]) then from else QuoteIndex(s, from + 1)
  }

  /** No quote character lies between `from` and the index `QuoteIndex` returns. */
  lemma {:induction false} QuoteIndexFirst(s: string, from: nat)
    requires from <= |s|
    ensures forall j :: from <= j < QuoteIndex(s, from) ==> !IsQuote(s[j])
    decreases |s| - from
  {
    if from < |s| && !IsQuote(s[from]) {
      QuoteIndexFirst(s, from + 1);
    }
  }

  /** The index of a quote with none between `from` and it (or `|s|`) is what `QuoteIndex` returns. */
  lemma {:induction false} QuoteIndexFinds(s: string, from: nat, k: nat)
    requires from <= k <= |s| && (k < |s| ==> IsQuote(s[k]))
    requires forall j :: from <= j < k ==> !IsQuote(s[j])
    ensures QuoteIndex(s, from) == k
    decreases k - from
  {
    if from < k {
      QuoteIndexFinds(s, from + 1, k);
    }
  }

  /**
   * ECMAScript WhiteSpace and LineTerminator code points, the characters `trim`
   * removes: U+0009 to U+000D, space, U+00A0, U+1680, U+2000 to U+200A,
   * U+2028, U+2029, U+202F, U+205F, U+3000 and U+FEFF.
   */
  predicate IsSpace(c: char) {
    || '\t' <= c <= '\r'
    || c == ' ' || c == '\U{00A0}' || c == '\U{1680}'
    || '\U{2000}' <= c <= '\U{200A}'
    || c == '\U{2028}' || c == '\U{2029}' || c == '\U{202F}' || c == '\U{205F}'
    || c == '\U{3000}' || c == '\U{FEFF}'
  }

  /** The first index at or after `i` that does not hold white space, or `|s|`. */
  function SkipSpaces(s: string, i: nat): (k: nat)
    requires i <= |s|
    ensures i <= k <= |s|
    decreases |s| - i
  {
    if i < |s| && IsSpace(s[i]) then SkipSpaces(s, i + 1) else i
  }

  /** Scanning back from `j`, but not past `lo`: the index after the last character that is not white space, or `lo`. */
  function BackSpaces(s: string, lo: nat, j: nat): (k: nat)
    requires lo <= j <= |s|
    ensures lo <= k <= j
    decreases j - lo
  {
    if lo < j && IsSpace(s[j - 1]) then BackSpaces(s, lo, j - 1) else j
  }

  /** Where `trim` starts keeping: past the leading white space. */
  function TrimStartIndex(s: string): nat {
    SkipSpaces(s, 0)
  }

  /** Where `trim` stops keeping: before the trailing white space. */
  function TrimEndIndex(s: string): (b: nat)
    ensures TrimStartIndex(s) <= b <= |s|
  {
    BackSpaces(s, TrimStartIndex(s), |s|)
  }

  /** `s.trim()`: white space removed from both ends. */
  function Trim(s: string): (r: string)
    ensures |r| <= |s|
  {
    s[TrimStartIndex(s)..TrimEndIndex(s)]
  }

  /** `SkipSpaces` passes only white space and stops at the first other character. */
  lemma {:induction false} SkipSpacesStops(s: string, i: nat)
    requires i <= |s|
    ensures forall j :: i <= j < SkipSpaces(s, i) ==> IsSpace(s[j])
    ensures SkipSpaces(s, i) < |s| ==> !IsSpace(s[SkipSpaces(s, i)])
    decreases |s| - i
  {
    if i < |s| && IsSpace(s[i]) {
      SkipSpacesStops(s, i + 1);
    }
  }

  /** `BackSpaces` passes only white space and stops after the last other character. */
  lemma {:induction false} BackSpacesStops(s: string, lo: nat, j: nat)
    requires lo <= j <= |s|
    ensures forall m :: BackSpaces(s, lo, j) <= m < j ==> IsSpace(s[m])
    ensures BackSpaces(s, lo, j) > lo ==> !IsSpace(s[BackSpaces(s, lo, j) - 1])
    decreases j - lo
  {
    if lo < j && IsSpace(s[j - 1]) {
      BackSpacesStops(s, lo, j - 1);
    }
  }

  /**
   * What `trim` keeps is a slice of `s` that neither starts nor ends with
   * white space, and what it drops before and after that slice is white space.
   */
  lemma TrimMargins(s: string)
    ensures var a := TrimStartIndex(s); var b := TrimEndIndex(s); var r := Trim(s);
      && a <= b <= |s| && r == s[a..b]
      && (forall i :: 0 <= i < a ==> IsSpace(s[i]))
      && (forall i :: b <= i < |s| ==> IsSpace(s[i]))
      && (r == [] || (!IsSpace(r[0]) && !IsSpace(r[|r| - 1])))
  {
    var a := TrimStartIndex(s);
    SkipSpacesStops(s, 0);
    BackSpacesStops(s, a, |s|);
  }

  /**
   * `trim` is characterised by its margins: a slice with only white space
   * around it and none at its two ends is exactly what `trim` keeps.
   */
  lemma TrimUnique(s: string, a: nat, b: nat)
    requires a <= b <= |s|
    requires forall i :: 0 <= i < a ==> IsSpace(s[i])
    requires forall i :: b <= i < |s| ==> IsSpace(s[i])
    requires a < b ==> !IsSpace(s[a]) && !IsSpace(s[b - 1])
    ensures Trim(s) == s[a..b]
  {
    TrimMargins(s);
    var a', b' := TrimStartIndex(s), TrimEndIndex(s);
    if a < b {
      assert a' == a by {
        if a' < a {
          assert false;
        }
      }
      assert b' == b by {
        if b' < b {
          assert false;
        }
        if b' > b {
          assert false;
        }
      }
    } else {
      assert a' == b' by {
        if a' < b' {
          assert false;
        }
      }
    }
  }

  /** `trim` gives the empty string exactly for all-white-space text. */
  lemma TrimEmpty(s: string)
    ensures Trim(s) == [] <==> forall i :: 0 <= i < |s| ==> IsSpace(s[i])
  {
    TrimMargins(s);
    if forall i :: 0 <= i < |s| ==> IsSpace(s[i]) {
      TrimUnique(s, |s|, |s|);
    }
  }

  /** No element of `lines` holds a line feed. */
  predicate SingleLines(lines: seq<string>) {
    forall i :: 0 <= i < |lines| ==> '\n' !in lines[i]
  }

  /** `parts.join("\n")` for a non-empty list of pieces. */
  function JoinLines(parts: seq<string>): string
    requires |parts| >= 1
  {
    if |parts| == 1 then parts[0] else parts[0] + "\n" + JoinLines(parts[1..])
  }

  /** `s.split("\n")`: the pieces between line feeds, always at least one. */
  function SplitLines(s: string): (parts: seq<string>)
    decreases |s|
    ensures |parts| >= 1
  {
    var k := IndexOf(s, '\n', 0);
    if k == |s| then [s] else [s[..k]] + SplitLines(s[k + 1..])
  }

  /** Splitting gives pieces free of line feeds. */
  lemma {:induction false} SplitLinesSingle(s: string)
    ensures SingleLines(SplitLines(s))
    decreases |s|
  {
    var k := IndexOf(s, '\n', 0);
    IndexOfFirst(s, '\n', 0);
    assert '\n' !in s[..k];
    if k < |s| {
      SplitLinesSingle(s[k + 1..]);
    }
  }

  /** The pieces of a split join back into the text. */
  lemma {:induction false} SplitLinesJoin(s: string)
    ensures JoinLines(SplitLines(s)) == s
    decreases |s|
  {
    var k := IndexOf(s, '\n', 0);
    if k < |s| {
      var rest := s[k + 1..];
      var parts := [s[..k]] + SplitLines(rest);
      assert SplitLines(s) == parts;
      assert parts[1..] == SplitLines(rest);
      SplitLinesJoin(rest);
      SplitAround(s, k);
    }
  }

  /** A text is what comes before index `k`, the character at `k`, and what comes after. */
  lemma SplitAround(s: string, k: nat)
    requires k < |s|
    ensures s == s[..k] + [s[k]] + s[k + 1..]
  {
  }

  /** Joining pieces free of line feeds and splitting again gives the pieces back. */
  lemma {:induction false} JoinLinesSplit(parts: seq<string>)
    requires |parts| >= 1 && SingleLines(parts)
    ensures SplitLines(JoinLines(parts)) == parts
    decreases |parts|
  {
    var s := JoinLines(parts);
    var x := parts[0];
    assert '\n' !in x;
    if |parts| == 1 {
      IndexOfFinds(s, '\n', 0, |s|);
    } else {
      var rest := parts[1..];
      assert s == x + "\n" + JoinLines(rest);
      assert forall j :: 0 <= j < |x| ==> s[j] == x[j];
      IndexOfFinds(s, '\n', 0, |x|);
      assert s[..|x|] == x && s[|x| + 1..] == JoinLines(rest);
      JoinLinesSplit(rest);
      assert parts == [x] + rest;
    }
  }

  /** A text determines its pieces: joining is injective on pieces free of line feeds. */
  lemma JoinLinesInjective(a: seq<string>, b: seq<string>)
    requires |a| >= 1 && |b| >= 1 && SingleLines(a) && SingleLines(b)
    requires JoinLines(a) == JoinLines(b)
    ensures a == b
  {
    JoinLinesSplit(a);
    JoinLinesSplit(b);
  }

  /** Joining two lists is joining each, with a line feed between. */
  lemma {:induction false} JoinLinesAppend(a: seq<string>, b: seq<string>)
    requires |a| >= 1 && |b| >= 1
    ensures JoinLines(a + b) == JoinLines(a) + "\n" + JoinLines(b)
    decreases |a|
  {
    if |a| == 1 {
      assert (a + b)[1..] == b;
    } else {
      assert (a + b)[1..] == a[1..] + b;
      JoinLinesAppend(a[1..], b);
    }
  }

  /** All pieces of `parts` joined together. */
  function Concat(parts: seq<string>): string {
    if parts == [] then "" else Concat(parts[..|parts| - 1]) + parts[|parts| - 1]
  }

  /**
   * A pattern whose first character occurs nowhere else in it cannot overlap a
   * later occurrence of that character: an occurrence starting before index
   * `c` ends at or before `c`.
   */
  lemma OccurrenceEndsBefore(s: string, pat: string, j: int, c: int)
    requires |pat| > 0 && forall i :: 0 < i < |pat| ==> pat[i] != pat[0]
    requires 0 <= c < |s| && s[c] == pat[0] && j < c
    ensures IsAt(s, pat, j) ==> j + |pat| <= c
  {
    if 0 <= j && c < j + |pat| <= |s| {
      assert s[j..j + |pat|][c - j] != pat[c - j];
    }
  }

  /** An occurrence of `a + b` is an occurrence of `a` followed by one of `b`. */
  lemma IsAtSplit(s: string, a: string, b: string, i: int)
    requires IsAt(s, a + b, i)
    ensures IsAt(s, a, i) && IsAt(s, b, i + |a|)
  {
    assert s[i..i + |a|] == (a + b)[..|a|];
    assert s[i + |a|..i + |a| + |b|] == (a + b)[|a|..];
  }

  /** An occurrence of `a` followed by one of `b` is an occurrence of `a + b`. */
  lemma IsAtJoin(s: string, a: string, b: string, i: int)
    requires IsAt(s, a, i) && IsAt(s, b, i + |a|)
    ensures IsAt(s, a + b, i)
  {
    assert s[i..i + |a| + |b|] == s[i..i + |a|] + s[i + |a|..i + |a| + |b|];
  }

  /** An occurrence in a prefix of a text is an occurrence in the text. */
  lemma IsAtExtend(s: string, more: string, pat: string, i: int)
    requires IsAt(s, pat, i)
    ensures IsAt(s + more, pat, i)
  {
    assert (s + more)[i..i + |pat|] == s[i..i + |pat|];
  }

  /** An occurrence inside the second part of `s + t` is one in `t`. */
  lemma IsAtSuffix(s: string, t: string, pat: string, i: int)
    requires |s| <= i
    ensures IsAt(s + t, pat, i) ==> IsAt(t, pat, i - |s|)
  {
    if IsAt(s + t, pat, i) {
      assert (s + t)[i..i + |pat|] == t[i - |s|..i - |s| + |pat|];
    }
  }

  /** One mismatching character rules an occurrence out. */
  lemma MismatchNotAt(s: string, pat: string, i: int, d: int)
    requires 0 <= d < |pat| && 0 <= i && (i + d < |s| ==> s[i + d] != pat[d])
    ensures !IsAt(s, pat, i)
  {
    if i + |pat| <= |s| {
      assert s[i..i + |pat|][d] == s[i + d];
    }
  }

  /** A text built around a pattern holds it where it was put. */
  lemma IsAtMiddle(a: string, pat: string, b: string)
    ensures IsAt(a + pat + b, pat, |a|)
  {
    assert (a + pat + b)[|a|..|a| + |pat|] == pat;
  }
}
