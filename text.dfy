/**
 * The Python string primitives both tools lean on: the whitespace class,
 * str.strip(), str.splitlines(), str.replace(), str.join(), decimal numbers
 * and the code-point ordering of str comparisons.
 */
module Text {
  import opened Outcomes

  /** str.isspace(), which is also the class `\s` stands for in a str pattern. */
  predicate IsSpace(c: char) {
    if c < '\U{85}' then '\t' <= c <= ' ' && (c <= '\r' || '\U{1c}' <= c)
    else IsWideSpace(c)
  }

  /** The whitespace characters from U+0085 on: NEL, NBSP, OGHAM SPACE MARK, U+2000..U+200A and a few more. */
  predicate IsWideSpace(c: char) {
    if c < '\U{2000}' then c == '\U{85}' || c == '\U{a0}' || c == '\U{1680}'
    else c <= '\U{200a}' || c == '\U{2028}' || c == '\U{2029}' || c == '\U{202f}' || c == '\U{205f}' || c == '\U{3000}'
  }

  /** The line boundaries str.splitlines() recognises ("\r\n" is one boundary). */
  predicate IsLineBreak(c: char) {
    if c < '\U{85}' then '\n' <= c <= '\U{1e}' && (c <= '\r' || '\U{1c}' <= c)
    else c == '\U{85}' || c == '\U{2028}' || c == '\U{2029}'
  }

  predicate IsDigit(c: char) { '0' <= c <= '9' }

  predicate StartsWith(s: string, prefix: string) {
    |prefix| <= |s| && s[..|prefix|] == prefix
  }

  predicate EndsWith(s: string, suffix: string) {
    |suffix| <= |s| && s[|s| - |suffix|..] == suffix
  }

  /** `p` occurs in `s` at index `i`. */
  predicate StartsAt(s: string, i: nat, p: string) {
    i + |p| <= |s| && s[i..i + |p|] == p
  }

  /** Python's `t in s` for strings: `t` is a substring of `s`. */
  predicate Contains(s: string, t: string)
    decreases |s|
  {
    StartsWith(s, t) || (s != [] && Contains(s[1..], t))
  }

  /** Index of the first non-whitespace character at or after `i`, or `|s|`. */
  function SkipWhitespace(s: string, i: nat): (k: nat)
    requires i <= |s|
    ensures i <= k <= |s|
    ensures forall j :: i <= j < k ==> IsSpace(s[j])
    ensures k < |s| ==> !IsSpace(s[k])
    decreases |s| - i
  {
    if i < |s| && IsSpace(s[i]) then SkipWhitespace(s, i + 1) else i
  }

  /** End of `s[lo..hi]` once its trailing whitespace is cut off. */
  function TrimEnd(s: string, lo: nat, hi: nat): (k: nat)
    requires lo <= hi <= |s|
    ensures lo <= k <= hi
    ensures forall j :: k <= j < hi ==> IsSpace(s[j])
    ensures k > lo ==> !IsSpace(s[k - 1])
    decreases hi
  {
    if hi > lo && IsSpace(s[hi - 1]) then TrimEnd(s, lo, hi - 1) else hi
  }

  /** str.strip() with no argument: drops the whitespace at both ends and nothing else. */
  function Strip(s: string): (r: string)
    ensures r == [] || (!IsSpace(r[0]) && !IsSpace(r[|r| - 1]))
  {
    var i := SkipWhitespace(s, 0);
    var j := TrimEnd(s, i, |s|);
    s[i..j]
  }

  /** What Strip keeps is one slice of `s`, with only whitespace around it. */
  lemma StripIsSlice(s: string)
    ensures exists i, j :: 0 <= i <= j <= |s| && Strip(s) == s[i..j]
              && (forall k :: 0 <= k < i ==> IsSpace(s[k]))
              && (forall k :: j <= k < |s| ==> IsSpace(s[k]))
  {
    var i := SkipWhitespace(s, 0);
    var j := TrimEnd(s, i, |s|);
    assert Strip(s) == s[i..j];
  }

  /** A string Strip leaves alone is exactly one without whitespace at either end. */
  lemma StripFixedPoint(s: string)
    ensures Strip(s) == s <==> (s == [] || (!IsSpace(s[0]) && !IsSpace(s[|s| - 1])))
  {
    if s != [] && !IsSpace(s[0]) && !IsSpace(s[|s| - 1]) {
      assert SkipWhitespace(s, 0) == 0;
      assert TrimEnd(s, 0, |s|) == |s|;
    }
  }

  /** Index of the first `' '`-free position at or after `i` (the regex ` *`). */
  function SkipSpaces(s: string, i: nat): (k: nat)
    requires i <= |s|
    ensures i <= k <= |s|
    ensures forall j :: i <= j < k ==> s[j] == ' '
    ensures k < |s| ==> s[k] != ' '
    decreases |s| - i
  {
    if i < |s| && s[i] == ' ' then SkipSpaces(s, i + 1) else i
  }

  /** A string of `n` spaces. */
  function Spaces(n: nat): (r: string)
    ensures |r| == n && forall i :: 0 <= i < n ==> r[i] == ' '
  {
    seq(n, _ => ' ')
  }

  /** End of the run of non-whitespace characters starting at `i` (the regex `\S*`). */
  function SkipNonSpace(s: string, i: nat): (k: nat)
    requires i <= |s|
    ensures i <= k <= |s|
    ensures forall j :: i <= j < k ==> !IsSpace(s[j])
    ensures k < |s| ==> IsSpace(s[k])
    decreases |s| - i
  {
    if i < |s| && !IsSpace(s[i]) then SkipNonSpace(s, i + 1) else i
  }

  /** Index of the first `c` at or after `i`, or `|s|` when there is none. */
  function IndexFrom(s: string, c: char, i: nat): (k: nat)
    requires i <= |s|
    ensures i <= k <= |s|
    ensures forall j :: i <= j < k ==> s[j] != c
    ensures k < |s| ==> s[k] == c
    decreases |s| - i
  {
    if i < |s| && s[i] != c then IndexFrom(s, c, i + 1) else i
  }

  /** A character that does not occur is found at the end. */
  lemma IndexFromAbsent(s: string, c: char)
    requires c !in s
    ensures IndexFrom(s, c, 0) == |s|
  {
  }

  /** The last index in [lo, hi) whose character satisfies `p`. */
  function LastWhere(s: string, lo: nat, hi: nat, p: char -> bool): (r: Option<nat>)
    requires hi <= |s|
    ensures r.Some? ==> lo <= r.value < hi && p(s[r.value])
    ensures r.Some? ==> forall j :: r.value < j < hi ==> !p(s[j])
    ensures r.None? ==> forall j :: lo <= j < hi ==> !p(s[j])
    decreases hi
  {
    if hi <= lo then None
    else if p(s[hi - 1]) then Some(hi - 1)
    else LastWhere(s, lo, hi - 1, p)
  }

  /** The last position in `lo..hi` satisfying `p` is the one after which none does. */
  lemma LastWhereIs(s: string, lo: nat, hi: nat, p: char -> bool, k: nat)
    requires lo <= k < hi <= |s| && p(s[k])
    requires forall j :: k < j < hi ==> !p(s[j])
    ensures LastWhere(s, lo, hi, p) == Some(k)
  {
  }

  /** str.replace(a, b) for single characters. */
  function ReplaceChar(s: string, a: char, b: char): (r: string)
    ensures |r| == |s|
    ensures forall i :: 0 <= i < |s| ==> r[i] == if s[i] == a then b else s[i]
  {
    if s == [] then [] else [if s[0] == a then b else s[0]] + ReplaceChar(s[1..], a, b)
  }

  /** str.replace(pat, rep): non-overlapping occurrences, left to right. */
  function ReplaceAll(s: string, pat: string, rep: string): string
    requires pat != []
    decreases |s|
  {
    if s == [] then []
    else if StartsWith(s, pat) then rep + ReplaceAll(s[|pat|..], pat, rep)
    else [s[0]] + ReplaceAll(s[1..], pat, rep)
  }

  /** ''.join(parts) */
  function Concat(parts: seq<string>): string {
    if parts == [] then [] else Concat(parts[..|parts| - 1]) + parts[|parts| - 1]
  }

  /** Concatenation regrouped, stated over plain variables so that callers need not reprove it on large terms. */
  lemma AppendAssoc(a: string, b: string, c: string)
    ensures a + (b + c) == (a + b) + c
  {
  }

  /** The first `c` at or after `i` is at `e` when nothing before it is a `c`. */
  lemma IndexFromAt(s: string, c: char, i: nat, e: nat)
    requires i <= e < |s| && s[e] == c
    requires forall j :: i <= j < e ==> s[j] != c
    ensures IndexFrom(s, c, i) == e
  {
  }

  /** The run of spaces from `i` ends at `k` when everything before `k` is a space and `s[k]` is not. */
  lemma SkipSpacesTo(s: string, i: nat, k: nat)
    requires i <= k < |s| && s[k] != ' '
    requires forall j :: i <= j < k ==> s[j] == ' '
    ensures SkipSpaces(s, i) == k
  {
  }

  /** A `c` found inside `a` is found at the same place in `a + b`. */
  lemma IndexFromInPrefix(a: string, b: string, c: char, i: nat)
    requires i <= |a| && IndexFrom(a, c, i) < |a|
    ensures IndexFrom(a + b, c, i) == IndexFrom(a, c, i)
  {
    var e := IndexFrom(a, c, i);
    forall j | i <= j < e
      ensures (a + b)[j] != c
    {
      assert (a + b)[j] == a[j];
    }
    assert (a + b)[e] == a[e];
    IndexFromAt(a + b, c, i, e);
  }

  /** A run of spaces that ends inside `a` ends at the same place in `a + b`. */
  lemma SkipSpacesInPrefix(a: string, b: string, i: nat)
    requires i <= |a| && SkipSpaces(a, i) < |a|
    ensures SkipSpaces(a + b, i) == SkipSpaces(a, i)
  {
    var k := SkipSpaces(a, i);
    forall j | i <= j < k
      ensures (a + b)[j] == ' '
    {
      assert (a + b)[j] == a[j];
    }
    assert (a + b)[k] == a[k];
    SkipSpacesTo(a + b, i, k);
  }

  /** Two adjacent slices make up the longer one. */
  lemma SliceSplit(s: string, i: nat, e: nat)
    requires i <= e <= |s|
    ensures s[i..e] + s[e..] == s[i..]
  {
  }

  /** Joining two runs of pieces one after the other. */
  lemma {:induction false} ConcatAppend(a: seq<string>, b: seq<string>)
    ensures Concat(a + b) == Concat(a) + Concat(b)
    decreases |b|
  {
    if b == [] {
      assert a + b == a;
    } else {
      assert (a + b)[..|a + b| - 1] == a + b[..|b| - 1];
      ConcatAppend(a, b[..|b| - 1]);
    }
  }

  /** sep.join(parts) */
  function Join(parts: seq<string>, sep: string): string {
    if parts == [] then []
    else if |parts| == 1 then parts[0]
    else Join(parts[..|parts| - 1], sep) + sep + parts[|parts| - 1]
  }

  /** The string with every `' '` removed: two strings that differ only in spaces agree here. */
  function Unspaced(s: string): string {
    if s == [] then [] else (if s[0] == ' ' then [] else [s[0]]) + Unspaced(s[1..])
  }

  lemma {:induction false} UnspacedAppend(a: string, b: string)
    ensures Unspaced(a + b) == Unspaced(a) + Unspaced(b)
    decreases |a|
  {
    if a == [] {
      assert a + b == b;
    } else {
      assert (a + b)[0] == a[0] && (a + b)[1..] == a[1..] + b;
      UnspacedAppend(a[1..], b);
    }
  }

  lemma {:induction false} UnspacedOfSpaces(s: string)
    requires forall i :: 0 <= i < |s| ==> s[i] == ' '
    ensures Unspaced(s) == []
  {
    if s != [] {
      UnspacedOfSpaces(s[1..]);
    }
  }

  /** Index of the first line boundary in `s`, or `|s|`. */
  function LineEnd(s: string): (i: nat)
    ensures i <= |s|
    ensures forall j :: 0 <= j < i ==> !IsLineBreak(s[j])
    ensures i < |s| ==> IsLineBreak(s[i])
  {
    if s == [] || IsLineBreak(s[0]) then 0 else 1 + LineEnd(s[1..])
  }

  /** str.splitlines(): no trailing empty line, "\r\n" taken as one boundary. */
  function SplitLines(s: string): seq<string>
    decreases |s|, 1
  {
    if s == [] then [] else SplitLinesAt(s, LineEnd(s))
  }

  /** The lines of `s` once its first line has been found to end at `i`. */
  function SplitLinesAt(s: string, i: nat): seq<string>
    requires i <= |s|
    decreases |s|, 0
  {
    if i == |s| then [s]
    else
      var next := if s[i] == '\r' && i + 1 < |s| && s[i + 1] == '\n' then i + 2 else i + 1;
      [s[..i]] + SplitLines(s[next..])
  }

  /** `t` holds no line boundary. */
  predicate NoLineBreak(t: string) {
    forall j :: 0 <= j < |t| ==> !IsLineBreak(t[j])
  }

  /** No piece str.splitlines() returns contains a line boundary. */
  lemma {:induction false} SplitLinesHaveNoBreaks(s: string)
    ensures forall k :: 0 <= k < |SplitLines(s)| ==> NoLineBreak(SplitLines(s)[k])
    decreases |s|
  {
    if s != [] {
      var i := LineEnd(s);
      if i < |s| {
        var next := if s[i] == '\r' && i + 1 < |s| && s[i + 1] == '\n' then i + 2 else i + 1;
        var head := s[..i];
        var rest := SplitLines(s[next..]);
        SplitLinesUnfold(s, i, next);
        assert NoLineBreak(head) by {
          forall j | 0 <= j < |head|
            ensures !IsLineBreak(head[j])
          {
            assert head[j] == s[j];
          }
        }
        SplitLinesHaveNoBreaks(s[next..]);
        forall k | 0 <= k < |SplitLines(s)|
          ensures NoLineBreak(SplitLines(s)[k])
        {
          if k > 0 {
            assert SplitLines(s)[k] == rest[k - 1];
          }
        }
      }
    }
  }

  /** A text with a line boundary at `i` splits into its first line and the lines after the boundary. */
  lemma SplitLinesUnfold(s: string, i: nat, next: nat)
    requires s != [] && i == LineEnd(s) < |s|
    requires next == if s[i] == '\r' && i + 1 < |s| && s[i + 1] == '\n' then i + 2 else i + 1
    ensures SplitLines(s) == [s[..i]] + SplitLines(s[next..])
  {
    assert SplitLinesAt(s, i) == [s[..i]] + SplitLines(s[next..]);
  }

  /** A non-empty text without a line boundary is a single line. */
  lemma SplitLinesOfOneLine(s: string)
    requires s != [] && NoLineBreak(s)
    ensures SplitLines(s) == [s]
  {
    assert LineEnd(s) == |s|;
    assert SplitLinesAt(s, |s|) == [s];
  }

  function DigitChar(d: nat): (c: char)
    requires d < 10
    ensures IsDigit(c)
  {
    ('0' as int + d) as char
  }

  /** The decimal text of a natural number, as f'{n}' and str(n) write it. */
  function NatToString(n: nat): (r: string)
    ensures r != [] && forall i :: 0 <= i < |r| ==> IsDigit(r[i])
    ensures n >= 10 ==> r[0] != '0'
  {
    if n < 10 then [DigitChar(n)] else NatToString(n / 10) + [DigitChar(n % 10)]
  }

  /** The value of a string of decimal digits. */
  function DigitsValue(s: string): nat
    requires forall i :: 0 <= i < |s| ==> IsDigit(s[i])
  {
    if s == [] then 0
    else
      assert IsDigit(s[|s| - 1]);
      DigitsValue(s[..|s| - 1]) * 10 + (s[|s| - 1] as int - '0' as int)
  }

  lemma {:induction false} NatToStringRoundTrip(n: nat)
    ensures DigitsValue(NatToString(n)) == n
  {
    if n >= 10 {
      NatToStringRoundTrip(n / 10);
      var s := NatToString(n);
      assert s[..|s| - 1] == NatToString(n / 10);
    }
  }

  /** Python's `a < b` on str: code-point lexicographic order, a proper prefix first. */
  predicate StrLess(a: string, b: string)
    decreases |a|
  {
    if a == [] then b != []
    else if b == [] then false
    else if a[0] != b[0] then a[0] < b[0]
    else StrLess(a[1..], b[1..])
  }

  lemma {:induction false} StrLessIrreflexive(a: string)
    ensures !StrLess(a, a)
    decreases |a|
  {
    if a != [] {
      StrLessIrreflexive(a[1..]);
    }
  }

  lemma {:induction false} StrLessTransitive(a: string, b: string, c: string)
    requires StrLess(a, b) && StrLess(b, c)
    ensures StrLess(a, c)
    decreases |a|
  {
    if a != [] && b != [] && c != [] && a[0] == b[0] && b[0] == c[0] {
      StrLessTransitive(a[1..], b[1..], c[1..]);
    }
  }

  lemma {:induction false} StrLessTotal(a: string, b: string)
    requires a != b
    ensures StrLess(a, b) || StrLess(b, a)
    decreases |a|
  {
    if a != [] && b != [] && a[0] == b[0] {
      assert a == [a[0]] + a[1..] && b == [b[0]] + b[1..];
      StrLessTotal(a[1..], b[1..]);
    }
  }

  lemma {:induction false} StrLessAsymmetric(a: string, b: string)
    requires StrLess(a, b)
    ensures !StrLess(b, a)
  {
    if StrLess(b, a) {
      StrLessTransitive(a, b, a);
      StrLessIrreflexive(a);
    }
  }
}
