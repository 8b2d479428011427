/**
 * The part of Python's `re` module the tools use, for one hand-written pattern
 * at a time. A pattern is given by its matcher: what it matches at the very
 * start of a string (length of the match and its first group), already with
 * the regex engine's greedy/lazy choice made. `SubAll` is re.sub's left-to-right
 * scan over the string and `Search` is re.search.
 */
module Scan {
  import opened Outcomes
  import opened Text

  /** A match at the start of the text: how many characters it spans and its group 1. */
  datatype Hit = Hit(len: nat, group: string)

  /** A replacement template: optionally group 1 (`\1`), then literal text. */
  datatype Replacement = Replacement(keepGroup: bool, text: string)

  /** `r'\1'` */
  const KeepGroup := Replacement(true, "")

  function Expand(h: Hit, r: Replacement): string {
    (if r.keepGroup then h.group else "") + r.text
  }

  /** The pattern matches a non-empty prefix of `s`. */
  predicate Matches(m: string -> Option<Hit>, s: string) {
    m(s).Some? && 0 < m(s).value.len <= |s|
  }

  /** re.sub(pattern, replacement, s): every non-overlapping match, leftmost first, is replaced. */
  function SubAll(m: string -> Option<Hit>, s: string, r: Replacement): string
    decreases |s|
  {
    if s == [] then []
    else if Matches(m, s) then Expand(m(s).value, r) + SubAll(m, s[m(s).value.len..], r)
    else [s[0]] + SubAll(m, s[1..], r)
  }

  /** re.search(pattern, s): the match at the leftmost position where there is one. */
  function Search(m: string -> Option<Hit>, s: string): (h: Option<Hit>)
    ensures h.Some? <==> exists i :: 0 <= i < |s| && Matches(m, s[i..])
    decreases |s|
  {
    if s == [] then None
    else if Matches(m, s) then
      assert s[0..] == s;
      m(s)
    else
      var h := Search(m, s[1..]);
      assert forall i :: 1 <= i < |s| ==> s[i..] == s[1..][i - 1..];
      if h.Some? then
        var i :| 0 <= i < |s[1..]| && Matches(m, s[1..][i..]);
        assert s[i + 1..] == s[1..][i..];
        h
      else h
  }

  /** re.search returns the match at the first position where the pattern matches. */
  lemma {:induction false} SearchFirst(m: string -> Option<Hit>, s: string, k: nat)
    requires k < |s| && Matches(m, s[k..])
    requires forall i :: 0 <= i < k ==> !Matches(m, s[i..])
    ensures Search(m, s) == m(s[k..])
    decreases k
  {
    assert s[0..] == s;
    if k > 0 {
      forall i | 0 <= i < k - 1
        ensures !Matches(m, s[1..][i..])
      {
        assert s[1..][i..] == s[i + 1..];
      }
      assert s[1..][k - 1..] == s[k..];
      SearchFirst(m, s[1..], k - 1);
    }
  }

  /** What re.search returns is the pattern's match at some position of the text. */
  lemma {:induction false} SearchIsAHit(m: string -> Option<Hit>, s: string)
    requires Search(m, s).Some?
    ensures exists i :: 0 <= i < |s| && Search(m, s) == m(s[i..])
    decreases |s|
  {
    if Matches(m, s) {
      assert s[0..] == s;
    } else {
      SearchIsAHit(m, s[1..]);
      var i :| 0 <= i < |s[1..]| && Search(m, s[1..]) == m(s[1..][i..]);
      assert s[1..][i..] == s[i + 1..];
    }
  }

  /** Where nothing matches before `k`, the first `k` characters pass through unchanged. */
  lemma {:induction false} SubAllSkip(m: string -> Option<Hit>, s: string, r: Replacement, k: nat)
    requires k <= |s|
    requires forall i :: 0 <= i < k ==> !Matches(m, s[i..])
    ensures SubAll(m, s, r) == s[..k] + SubAll(m, s[k..], r)
    decreases k
  {
    if k > 0 {
      assert !Matches(m, s[0..]);
      assert s[0..] == s;
      forall i | 0 <= i < k - 1
        ensures !Matches(m, s[1..][i..])
      {
        assert s[1..][i..] == s[i + 1..];
      }
      SubAllSkip(m, s[1..], r, k - 1);
      assert s[1..][k - 1..] == s[k..];
      assert s[..k] == [s[0]] + s[1..][..k - 1];
    }
  }

  /** A text in which the pattern never matches comes back unchanged. */
  lemma SubAllNoMatch(m: string -> Option<Hit>, s: string, r: Replacement)
    requires forall i :: 0 <= i < |s| ==> !Matches(m, s[i..])
    ensures SubAll(m, s, r) == s
  {
    SubAllSkip(m, s, r, |s|);
    assert s[|s|..] == [];
  }

  /** Every match the scan could find in `s` ends by index `q` at the latest. */
  ghost predicate MatchesEndBy(m: string -> Option<Hit>, s: string, q: nat) {
    forall i :: 0 <= i < |s| && Matches(m, s[i..]) ==> i + m(s[i..]).value.len <= q
  }

  lemma MatchesEndByDrop(m: string -> Option<Hit>, s: string, q: nat, n: nat)
    requires n <= q && n <= |s| && MatchesEndBy(m, s, q)
    ensures MatchesEndBy(m, s[n..], q - n)
  {
    forall i | 0 <= i < |s| - n && Matches(m, s[n..][i..])
      ensures i + m(s[n..][i..]).value.len <= q - n
    {
      assert s[n..][i..] == s[n + i..];
    }
  }

  lemma NothingEndsByZero(m: string -> Option<Hit>, s: string)
    requires MatchesEndBy(m, s, 0)
    ensures forall i :: 0 <= i < |s| ==> !Matches(m, s[i..])
  {
  }

  /**
   * When every match ends by index `q` at the latest, the text from `q` on is
   * kept verbatim at the end of the result.
   */
  lemma {:induction false} SubAllKeepsTail(m: string -> Option<Hit>, s: string, r: Replacement, q: nat)
    requires q <= |s| && MatchesEndBy(m, s, q)
    ensures EndsWith(SubAll(m, s, r), s[q..])
    decreases |s|
  {
    if q == 0 {
      NothingEndsByZero(m, s);
      SubAllNoMatch(m, s, r);
    } else {
      var n := if Matches(m, s) then m(s).value.len else 1;
      assert n <= q by {
        assert s[0..] == s;
      }
      MatchesEndByDrop(m, s, q, n);
      SubAllKeepsTail(m, s[n..], r, q - n);
      assert s[n..][q - n..] == s[q..];
    }
  }

  /**
   * A substitution whose every match only drops spaces around what it keeps
   * (`' *(tok) *'` replaced by `\1`) removes spaces and nothing else.
   */
  lemma {:induction false} SubAllOnlyRemovesSpaces(m: string -> Option<Hit>, s: string, r: Replacement)
    requires forall t :: Matches(m, t) ==> Unspaced(t[..m(t).value.len]) == Unspaced(Expand(m(t).value, r))
    ensures Unspaced(SubAll(m, s, r)) == Unspaced(s)
    decreases |s|
  {
    if s != [] {
      if Matches(m, s) {
        var n := m(s).value.len;
        SubAllOnlyRemovesSpaces(m, s[n..], r);
        UnspacedAppend(Expand(m(s).value, r), SubAll(m, s[n..], r));
        assert s == s[..n] + s[n..];
        UnspacedAppend(s[..n], s[n..]);
      } else {
        SubAllOnlyRemovesSpaces(m, s[1..], r);
        UnspacedAppend([s[0]], SubAll(m, s[1..], r));
        assert s == [s[0]] + s[1..];
        UnspacedAppend([s[0]], s[1..]);
      }
    }
  }

  /**
   * The first and last characters survive a substitution whose matches keep
   * the token they are anchored on, when those characters are not spaces.
   */
  ghost predicate KeepsEnds(m: string -> Option<Hit>, r: Replacement) {
    forall t :: Matches(m, t) ==>
      var e := Expand(m(t).value, r);
      (t[0] != ' ' ==> e != [] && e[0] == t[0]) &&
      (m(t).value.len == |t| && t[|t| - 1] != ' ' ==> e != [] && e[|e| - 1] == t[|t| - 1])
  }

  lemma {:induction false} SubAllKeepsEnds(m: string -> Option<Hit>, s: string, r: Replacement)
    requires KeepsEnds(m, r)
    requires s != [] && s[0] != ' ' && s[|s| - 1] != ' '
    ensures var o := SubAll(m, s, r); o != [] && o[0] == s[0] && o[|o| - 1] == s[|s| - 1]
    decreases |s|
  {
    if Matches(m, s) {
      var n := m(s).value.len;
      if n < |s| {
        SubAllKeepsLast(m, s[n..], r);
      }
    } else if |s| > 1 {
      SubAllKeepsLast(m, s[1..], r);
    }
  }

  lemma {:induction false} SubAllKeepsLast(m: string -> Option<Hit>, s: string, r: Replacement)
    requires KeepsEnds(m, r)
    requires s != [] && s[|s| - 1] != ' '
    ensures var o := SubAll(m, s, r); o != [] && o[|o| - 1] == s[|s| - 1]
    decreases |s|
  {
    if Matches(m, s) {
      var n := m(s).value.len;
      if n < |s| {
        SubAllKeepsLast(m, s[n..], r);
      }
    } else if |s| > 1 {
      SubAllKeepsLast(m, s[1..], r);
    }
  }
}
