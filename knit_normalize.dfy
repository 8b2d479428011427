/**
 * The per-line normaliser of the Lua bundler, `get_stripped_source`
 * (tools/luaknit.py:37-73): comments are cut, the line is trimmed, spaces
 * around operators are squeezed out of quote-free lines (and around `=` in a
 * quoted `name = 'value'` line), and lines that end up empty are not yielded.
 */
module KnitNormalize {
  import opened Outcomes
  import opened Text
  import opened Scan

  predicate IsQuote(c: char) { c == '"' || c == '\'' }

  predicate HasQuote(s: string) {
    exists i :: 0 <= i < |s| && IsQuote(s[i])
  }

  /** re.sub(r'^ *--.*', '', line): from a leading `--` on, up to the first '\n', the line is gone. */
  function DropCommentLine(line: string): string {
    var k := SkipSpaces(line, 0);
    if StartsAt(line, k, "--") then line[IndexFrom(line, '\n', k + 2)..] else line
  }

  /** The leftmost `--` at or after `i` with no quote anywhere after it, or `|s|`. */
  function TrailingCommentStart(s: string, i: nat): (k: nat)
    requires i <= |s|
    ensures i <= k <= |s|
    ensures k < |s| ==> StartsAt(s, k, "--") && !HasQuote(s[k + 2..])
    ensures forall j :: i <= j < k ==> !(StartsAt(s, j, "--") && !HasQuote(s[j + 2..]))
    decreases |s| - i
  {
    if i == |s| then i
    else if StartsAt(s, i, "--") && !HasQuote(s[i + 2..]) then i
    else TrailingCommentStart(s, i + 1)
  }

  /** re.sub(r'''--[^'"]*$''', '', line): a `--` with no quote after it starts a comment. */
  function DropTrailingComment(line: string): string {
    line[..TrailingCommentStart(line, 0)]
  }

  /** The line without comments and trimmed: what the whitespace squeezing starts from. */
  function Trimmed(raw: string): string {
    Strip(DropTrailingComment(DropCommentLine(raw)))
  }

  // ' *(==|<=|>=|~=|\.\.) *'
  function MatchOperatorPair(t: string): Option<Hit> {
    var k := SkipSpaces(t, 0);
    if k + 2 <= |t| && t[k..k + 2] in {"==", "<=", ">=", "~=", ".."} then
      Some(Hit(SkipSpaces(t, k + 2), t[k..k + 2]))
    else None
  }

  // The class [=<>+\-*/,|&%()]
  const OperatorChars := "=<>+-*/,|&%()"

  // ' *([=<>+\-*/,|&%()]) *'
  function MatchOperatorChar(t: string): Option<Hit> {
    var k := SkipSpaces(t, 0);
    if k < |t| && t[k] in OperatorChars then Some(Hit(SkipSpaces(t, k + 1), [t[k]])) else None
  }

  // ' *= *'
  function MatchEquals(t: string): Option<Hit> {
    var k := SkipSpaces(t, 0);
    if k < |t| && t[k] == '=' then Some(Hit(SkipSpaces(t, k + 1), "=")) else None
  }

  const ToEquals := Replacement(false, "=")

  /**
   * re.search(r'''^[^'"]+=[^=]+$''', line): the last `=` has a quote-free,
   * non-empty text before it and a non-empty text after it.
   */
  predicate IsSimpleAssignment(s: string) {
    var e := LastWhere(s, 0, |s|, c => c == '=');
    e.Some? && 0 < e.value && e.value + 1 < |s| && !HasQuote(s[..e.value])
  }

  /**
   * The whitespace squeezing applied to a trimmed, comment-free line
   * (tools/luaknit.py:63-70). It only ever removes spaces: with the spaces
   * left out, the result spells the same text as the line.
   */
  function Squeezed(line: string): (r: string)
    ensures Unspaced(r) == Unspaced(line)
  {
    OperatorMatchesOnlyDropSpaces();
    if !HasQuote(line) then
      var paired := SubAll(MatchOperatorPair, line, KeepGroup);
      SubAllOnlyRemovesSpaces(MatchOperatorPair, line, KeepGroup);
      SubAllOnlyRemovesSpaces(MatchOperatorChar, paired, KeepGroup);
      SubAll(MatchOperatorChar, paired, KeepGroup)
    else if IsSimpleAssignment(line) then
      SubAllOnlyRemovesSpaces(MatchEquals, line, ToEquals);
      SubAll(MatchEquals, line, ToEquals)
    else
      line
  }

  /**
   * A line holding a quote is squeezed only when it is a simple assignment;
   * any other quoted line, such as one with no `=` at all, is kept as it is.
   */
  lemma QuotedLineKept(line: string)
    requires HasQuote(line)
    ensures !IsSimpleAssignment(line) ==> Squeezed(line) == line
    ensures (forall i :: 0 <= i < |line| ==> line[i] != '=') ==> Squeezed(line) == line
  {
    if forall i :: 0 <= i < |line| ==> line[i] != '=' {
      assert LastWhere(line, 0, |line|, c => c == '=').None?;
    }
  }

  /**
   * One physical line as get_stripped_source turns it out; "" means the line
   * is skipped. A line that is kept neither starts nor ends with whitespace.
   */
  function NormalizeLine(raw: string): (r: string)
    ensures r == [] || (!IsSpace(r[0]) && !IsSpace(r[|r| - 1]))
  {
    var line := Trimmed(raw);
    if line != [] then
      SqueezedKeepsEnds(line);
      Squeezed(line)
    else
      assert !HasQuote(line);
      assert SubAll(MatchOperatorPair, line, KeepGroup) == [];
      Squeezed(line)
  }

  /** A match made of spaces, a token and spaces spells the token once the spaces are gone. */
  lemma SpacedTokenUnspaced(t: string, k: nat, w: nat, e: nat)
    requires k + w <= e <= |t|
    requires forall j :: 0 <= j < k ==> t[j] == ' '
    requires forall j :: k + w <= j < e ==> t[j] == ' '
    ensures Unspaced(t[..e]) == Unspaced(t[k..k + w])
  {
    assert t[..e] == t[..k] + t[k..k + w] + t[k + w..e];
    UnspacedAppend(t[..k] + t[k..k + w], t[k + w..e]);
    UnspacedAppend(t[..k], t[k..k + w]);
    UnspacedOfSpaces(t[..k]);
    var tail := t[k + w..e];
    forall j | 0 <= j < |tail|
      ensures tail[j] == ' '
    {
      assert tail[j] == t[k + w + j];
    }
    UnspacedOfSpaces(tail);
  }

  lemma OperatorMatchesOnlyDropSpaces()
    ensures forall t :: Matches(MatchOperatorPair, t) ==>
      Unspaced(t[..MatchOperatorPair(t).value.len]) == Unspaced(Expand(MatchOperatorPair(t).value, KeepGroup))
    ensures forall t :: Matches(MatchOperatorChar, t) ==>
      Unspaced(t[..MatchOperatorChar(t).value.len]) == Unspaced(Expand(MatchOperatorChar(t).value, KeepGroup))
    ensures forall t :: Matches(MatchEquals, t) ==>
      Unspaced(t[..MatchEquals(t).value.len]) == Unspaced(Expand(MatchEquals(t).value, ToEquals))
  {
    forall t | Matches(MatchOperatorPair, t)
      ensures Unspaced(t[..MatchOperatorPair(t).value.len]) == Unspaced(Expand(MatchOperatorPair(t).value, KeepGroup))
    {
      var k := SkipSpaces(t, 0);
      SpacedTokenUnspaced(t, k, 2, SkipSpaces(t, k + 2));
    }
    forall t | Matches(MatchOperatorChar, t)
      ensures Unspaced(t[..MatchOperatorChar(t).value.len]) == Unspaced(Expand(MatchOperatorChar(t).value, KeepGroup))
    {
      var k := SkipSpaces(t, 0);
      SpacedTokenUnspaced(t, k, 1, SkipSpaces(t, k + 1));
      assert t[k..k + 1] == [t[k]];
    }
    forall t | Matches(MatchEquals, t)
      ensures Unspaced(t[..MatchEquals(t).value.len]) == Unspaced(Expand(MatchEquals(t).value, ToEquals))
    {
      var k := SkipSpaces(t, 0);
      SpacedTokenUnspaced(t, k, 1, SkipSpaces(t, k + 1));
      assert t[k..k + 1] == "=";
    }
  }

  lemma OperatorMatchesKeepEnds()
    ensures KeepsEnds(MatchOperatorPair, KeepGroup)
    ensures KeepsEnds(MatchOperatorChar, KeepGroup)
    ensures KeepsEnds(MatchEquals, ToEquals)
  {
  }

  /** Squeezing keeps the first and last characters of a line that does not start or end with a space. */
  lemma SqueezedKeepsEnds(line: string)
    requires line != [] && line[0] != ' ' && line[|line| - 1] != ' '
    ensures var r := Squeezed(line); r != [] && r[0] == line[0] && r[|r| - 1] == line[|line| - 1]
  {
    OperatorMatchesKeepEnds();
    if !HasQuote(line) {
      SubAllKeepsEnds(MatchOperatorPair, line, KeepGroup);
      SubAllKeepsEnds(MatchOperatorChar, SubAll(MatchOperatorPair, line, KeepGroup), KeepGroup);
    } else if IsSimpleAssignment(line) {
      SubAllKeepsEnds(MatchEquals, line, ToEquals);
    }
  }

  /**
   * Nothing from a quote on is ever touched: on a line holding a quote, the
   * text from any quote to the end of the line comes out verbatim at the end.
   */
  lemma QuotedTailKept(raw: string, q: nat)
    requires q < |Trimmed(raw)| && IsQuote(Trimmed(raw)[q])
    ensures EndsWith(NormalizeLine(raw), Trimmed(raw)[q..])
  {
    var line := Trimmed(raw);
    assert NormalizeLine(raw) == Squeezed(line);
    SqueezedQuotedTail(line, q);
  }

  /** Squeezing a line with a quote keeps everything from that quote on. */
  lemma SqueezedQuotedTail(line: string, q: nat)
    requires q < |line| && IsQuote(line[q])
    ensures EndsWith(Squeezed(line), line[q..])
  {
    assert HasQuote(line);
    if IsSimpleAssignment(line) {
      assert Squeezed(line) == SubAll(MatchEquals, line, ToEquals);
      EqualsEndBeforeQuote(line, q);
      SubAllKeepsTail(MatchEquals, line, ToEquals, q);
    } else {
      assert Squeezed(line) == line;
      assert line[q..] == line[|line| - |line[q..]|..];
    }
  }

  /** In a simple assignment, every ` *= *` match ends before any quote. */
  lemma EqualsEndBeforeQuote(line: string, q: nat)
    requires IsSimpleAssignment(line) && q < |line| && IsQuote(line[q])
    ensures forall i :: 0 <= i < |line| && Matches(MatchEquals, line[i..]) ==> i + MatchEquals(line[i..]).value.len <= q
  {
    var e := LastWhere(line, 0, |line|, c => c == '=').value;
    assert q > e;
    forall i | 0 <= i < |line| && Matches(MatchEquals, line[i..])
      ensures i + MatchEquals(line[i..]).value.len <= q
    {
      var t := line[i..];
      var k := SkipSpaces(t, 0);
      assert line[i + k] == '=';
      var n := SkipSpaces(t, k + 1);
    }
  }

  /**
   * No space stands next to an operator character: the tight form `a=b+c`
   * the second squeezing pass of tools/luaknit.py:66-67 leaves behind.
   */
  predicate OperatorsTight(s: string) {
    forall i :: 0 <= i < |s| - 1 ==>
      !(s[i] == ' ' && s[i + 1] in OperatorChars) && !(s[i] in OperatorChars && s[i + 1] == ' ')
  }

  /** Putting `c` in front keeps the tight form unless it sets a space against an operator. */
  lemma TightCons(c: char, s: string)
    requires OperatorsTight(s)
    requires s != [] ==> !(c == ' ' && s[0] in OperatorChars) && !(c in OperatorChars && s[0] == ' ')
    ensures OperatorsTight([c] + s)
  {
    var t := [c] + s;
    forall i | 0 <= i < |t| - 1
      ensures !(t[i] == ' ' && t[i + 1] in OperatorChars) && !(t[i] in OperatorChars && t[i + 1] == ' ')
    {
      if i > 0 {
        assert t[i] == s[i - 1] && t[i + 1] == s[i];
      }
    }
  }

  /** A space just before a ` *[op] *` match belongs to that match. */
  lemma SpaceJoinsOperatorMatch(s: string)
    ensures s != [] && s[0] == ' ' && Matches(MatchOperatorChar, s[1..]) ==> Matches(MatchOperatorChar, s)
  {
    if s != [] && s[0] == ' ' && Matches(MatchOperatorChar, s[1..]) {
      var k := SkipSpaces(s[1..], 0);
      forall j | 0 <= j < k + 1
        ensures s[j] == ' '
      {
        if j > 0 {
          assert s[j] == s[1..][j - 1];
        }
      }
      assert s[k + 1] == s[1..][k];
      SkipSpacesTo(s, 0, k + 1);
    }
  }

  /**
   * The first character the operator pass puts out is a space only when the
   * input starts with an unmatched space, and an operator only when it
   * starts with a match.
   */
  lemma OperatorPassHead(s: string)
    requires s != []
    ensures var o := SubAll(MatchOperatorChar, s, KeepGroup);
      o != [] && (o[0] == ' ' ==> s[0] == ' ' && !Matches(MatchOperatorChar, s)) &&
      (o[0] in OperatorChars ==> Matches(MatchOperatorChar, s))
  {
    if Matches(MatchOperatorChar, s) {
      var h := MatchOperatorChar(s).value;
      assert Expand(h, KeepGroup) == [s[SkipSpaces(s, 0)]];
    }
  }

  /** After the operator pass, whatever its input, no space is left next to an operator character. */
  lemma {:induction false} OperatorPassTight(s: string)
    ensures OperatorsTight(SubAll(MatchOperatorChar, s, KeepGroup))
    decreases |s|
  {
    if s != [] {
      OperatorPassHead(s);
      if Matches(MatchOperatorChar, s) {
        var h := MatchOperatorChar(s).value;
        var c := s[SkipSpaces(s, 0)];
        var rest := s[h.len..];
        assert Expand(h, KeepGroup) == [c];
        assert SubAll(MatchOperatorChar, s, KeepGroup) == [c] + SubAll(MatchOperatorChar, rest, KeepGroup);
        OperatorPassTight(rest);
        if rest != [] {
          assert rest[0] == s[h.len];
          OperatorPassHead(rest);
        }
        TightCons(c, SubAll(MatchOperatorChar, rest, KeepGroup));
      } else {
        var rest := s[1..];
        assert SubAll(MatchOperatorChar, s, KeepGroup) == [s[0]] + SubAll(MatchOperatorChar, rest, KeepGroup);
        OperatorPassTight(rest);
        if rest != [] {
          OperatorPassHead(rest);
          SpaceJoinsOperatorMatch(s);
        }
        TightCons(s[0], SubAll(MatchOperatorChar, rest, KeepGroup));
      }
    }
  }

  /** A squeezed line without quotes has no space next to any character of OperatorChars. */
  lemma SqueezedOperatorsTight(line: string)
    requires !HasQuote(line)
    ensures OperatorsTight(Squeezed(line))
  {
    OperatorPassTight(SubAll(MatchOperatorPair, line, KeepGroup));
  }

  /** The same for a whole normalised line whose trimmed text has no quote. */
  lemma NormalizedOperatorsTight(raw: string)
    requires !HasQuote(Trimmed(raw))
    ensures OperatorsTight(NormalizeLine(raw))
  {
    SqueezedOperatorsTight(Trimmed(raw));
  }

  /** No ` *= *` match starts anywhere in a text without `=`. */
  lemma NoEqualsMatch(s: string)
    requires forall j :: 0 <= j < |s| ==> s[j] != '='
    ensures forall i :: 0 <= i < |s| ==> !Matches(MatchEquals, s[i..])
  {
    forall i | 0 <= i < |s|
      ensures !Matches(MatchEquals, s[i..])
    {
      var k := SkipSpaces(s[i..], 0);
      if k < |s[i..]| {
        assert s[i..][k] == s[i + k];
      }
    }
  }

  /** Spaces, `=`, spaces and then a non-space: one ` *= *` match covers the run up to that non-space. */
  lemma EqualsRunMatch(g1: nat, g2: nat, rhs: string)
    requires rhs != [] && rhs[0] != ' '
    ensures var u := Spaces(g1) + "=" + Spaces(g2) + rhs;
      MatchEquals(u) == Some(Hit(g1 + 1 + g2, "=")) && u[g1 + 1 + g2..] == rhs
  {
    var u := Spaces(g1) + "=" + Spaces(g2) + rhs;
    assert u[g1] == '=';
    SkipSpacesTo(u, 0, g1);
    assert u[g1 + 1 + g2] == rhs[0];
    SkipSpacesTo(u, g1 + 1, g1 + 1 + g2);
  }

  /** Spaces, `=`, spaces and a text without `=` that starts with a non-space squeeze to `=` and that text. */
  lemma EqualsRunSqueezed(g1: nat, g2: nat, rhs: string)
    requires rhs != [] && rhs[0] != ' '
    requires forall j :: 0 <= j < |rhs| ==> rhs[j] != '='
    ensures SubAll(MatchEquals, Spaces(g1) + "=" + Spaces(g2) + rhs, ToEquals) == "=" + rhs
  {
    var u := Spaces(g1) + "=" + Spaces(g2) + rhs;
    var h := Hit(g1 + 1 + g2, "=");
    EqualsRunMatch(g1, g2, rhs);
    assert Expand(h, ToEquals) == "=";
    assert SubAll(MatchEquals, u, ToEquals) == "=" + SubAll(MatchEquals, rhs, ToEquals);
    NoEqualsMatch(rhs);
    SubAllNoMatch(MatchEquals, rhs, ToEquals);
  }

  /** No ` *= *` match starts inside a text without `=` that ends in a non-space, whatever follows it. */
  lemma NoEqualsMatchBefore(lhs: string, u: string)
    requires lhs != [] && lhs[|lhs| - 1] != ' '
    requires forall j :: 0 <= j < |lhs| ==> lhs[j] != '='
    ensures forall i :: 0 <= i < |lhs| ==> !Matches(MatchEquals, (lhs + u)[i..])
  {
    forall i | 0 <= i < |lhs|
      ensures !Matches(MatchEquals, (lhs + u)[i..])
    {
      var t := (lhs + u)[i..];
      var k := SkipSpaces(t, 0);
      assert t[|lhs| - 1 - i] == lhs[|lhs| - 1];
      assert t[k] == lhs[i + k];
    }
  }

  /** `lhs + Spaces(g1) + "=" + Spaces(g2) + rhs` is a simple assignment when `lhs` has no quote and `rhs` no `=`. */
  lemma SpacedAssignmentIsSimple(lhs: string, g1: nat, g2: nat, rhs: string)
    requires lhs != [] && !HasQuote(lhs)
    requires rhs != [] && forall j :: 0 <= j < |rhs| ==> rhs[j] != '='
    ensures IsSimpleAssignment(lhs + Spaces(g1) + "=" + Spaces(g2) + rhs)
  {
    var line := lhs + Spaces(g1) + "=" + Spaces(g2) + rhs;
    var e := |lhs| + g1;
    assert line[e] == '=';
    forall j | e < j < |line|
      ensures line[j] != '='
    {
      if j <= e + g2 {
        assert line[j] == ' ';
      } else {
        assert line[j] == rhs[j - e - 1 - g2];
      }
    }
    LastWhereIs(line, 0, |line|, c => c == '=', e);
    forall j | 0 <= j < e
      ensures !IsQuote(line[..e][j])
    {
      if j < |lhs| {
        assert line[..e][j] == lhs[j];
      } else {
        assert line[..e][j] == ' ';
      }
    }
  }

  /**
   * A simple assignment holding a quote loses exactly the spaces around its
   * `=`: `lhs = rhs` comes out as `lhs=rhs`, with every other character,
   * spaces inside `lhs` and `rhs` included, kept.
   */
  lemma SimpleAssignmentSqueezed(lhs: string, g1: nat, g2: nat, rhs: string)
    requires lhs != [] && !HasQuote(lhs) && lhs[|lhs| - 1] != ' '
    requires forall j :: 0 <= j < |lhs| ==> lhs[j] != '='
    requires rhs != [] && HasQuote(rhs) && rhs[0] != ' '
    requires forall j :: 0 <= j < |rhs| ==> rhs[j] != '='
    ensures Squeezed(lhs + Spaces(g1) + "=" + Spaces(g2) + rhs) == lhs + "=" + rhs
  {
    var u := Spaces(g1) + "=" + Spaces(g2) + rhs;
    var line := lhs + Spaces(g1) + "=" + Spaces(g2) + rhs;
    assert line == lhs + u;
    SpacedAssignmentIsSimple(lhs, g1, g2, rhs);
    assert HasQuote(line) by {
      var q :| 0 <= q < |rhs| && IsQuote(rhs[q]);
      assert line[|line| - |rhs| + q] == rhs[q];
    }
    assert Squeezed(line) == SubAll(MatchEquals, line, ToEquals);
    NoEqualsMatchBefore(lhs, u);
    SubAllSkip(MatchEquals, line, ToEquals, |lhs|);
    assert line[..|lhs|] == lhs && line[|lhs|..] == u;
    EqualsRunSqueezed(g1, g2, rhs);
  }

  /** A line of optional spaces then `--` (with no line break in it) yields nothing. */
  lemma CommentLineDropped(raw: string)
    requires StartsAt(raw, SkipSpaces(raw, 0), "--")
    requires forall j :: 0 <= j < |raw| ==> raw[j] != '\n'
    ensures NormalizeLine(raw) == ""
  {
    var k := SkipSpaces(raw, 0);
    assert IndexFrom(raw, '\n', k + 2) == |raw|;
    assert DropCommentLine(raw) == [];
    assert Trimmed(raw) == [];
    assert !HasQuote([]);
    assert SubAll(MatchOperatorPair, [], KeepGroup) == [];
  }

  /** A physical line number paired with the normalised text get_stripped_source yields. */
  datatype NumberedLine = NumberedLine(number: nat, text: string)

  /** NormalizeLine applied to every physical line. */
  function NormalizeAll(raws: seq<string>): (r: seq<string>)
    ensures |r| == |raws| && forall i :: 0 <= i < |raws| ==> r[i] == NormalizeLine(raws[i])
  {
    seq(|raws|, i requires 0 <= i < |raws| => NormalizeLine(raws[i]))
  }

  /** The non-empty normal forms among `norm`, numbered from `n` by position. */
  function NonEmptyFrom(norm: seq<string>, n: nat): seq<NumberedLine> {
    if norm == [] then []
    else (if norm[0] != "" then [NumberedLine(n, norm[0])] else []) + NonEmptyFrom(norm[1..], n + 1)
  }

  /** The `k`-th yielded line is a non-empty entry of `norm`, numbered by its position from `n`. */
  lemma {:induction false} NonEmptyFromSound(norm: seq<string>, n: nat, k: nat)
    requires k < |NonEmptyFrom(norm, n)|
    ensures n <= NonEmptyFrom(norm, n)[k].number < n + |norm|
    ensures NonEmptyFrom(norm, n)[k].text == norm[NonEmptyFrom(norm, n)[k].number - n] != ""
  {
    var rest := NonEmptyFrom(norm[1..], n + 1);
    var head := if norm[0] != "" then [NumberedLine(n, norm[0])] else [];
    assert NonEmptyFrom(norm, n) == head + rest;
    if k >= |head| {
      NonEmptyFromSound(norm[1..], n + 1, k - |head|);
      assert norm[1..][rest[k - |head|].number - (n + 1)] == norm[rest[k - |head|].number - n];
    }
  }

  /** Line numbers increase strictly along the yielded lines. */
  lemma {:induction false} NonEmptyFromOrdered(norm: seq<string>, n: nat, k: nat, l: nat)
    requires k < l < |NonEmptyFrom(norm, n)|
    ensures NonEmptyFrom(norm, n)[k].number < NonEmptyFrom(norm, n)[l].number
  {
    var rest := NonEmptyFrom(norm[1..], n + 1);
    var head := if norm[0] != "" then [NumberedLine(n, norm[0])] else [];
    assert NonEmptyFrom(norm, n) == head + rest;
    NonEmptyFromSound(norm[1..], n + 1, l - |head|);
    if k >= |head| {
      NonEmptyFromOrdered(norm[1..], n + 1, k - |head|, l - |head|);
    }
  }

  /** No entry with a non-empty normal form is skipped. */
  lemma {:induction false} NonEmptyFromComplete(norm: seq<string>, n: nat, j: nat)
    requires j < |norm| && norm[j] != ""
    ensures NumberedLine(n + j, norm[j]) in NonEmptyFrom(norm, n)
  {
    var rest := NonEmptyFrom(norm[1..], n + 1);
    var head := if norm[0] != "" then [NumberedLine(n, norm[0])] else [];
    assert NonEmptyFrom(norm, n) == head + rest;
    if j > 0 {
      assert norm[1..][j - 1] == norm[j];
      NonEmptyFromComplete(norm[1..], n + 1, j - 1);
    }
  }

  /** The lines get_stripped_source yields for the physical lines `raws` (numbered from 1). */
  function Stripped(raws: seq<string>): seq<NumberedLine> {
    NonEmptyFrom(NormalizeAll(raws), 1)
  }

  /**
   * The `k`-th yielded line carries a physical line number (from 1) and that
   * line's normal form, which is not empty.
   */
  lemma StrippedSound(raws: seq<string>, k: nat)
    requires k < |Stripped(raws)|
    ensures 1 <= Stripped(raws)[k].number <= |raws|
    ensures Stripped(raws)[k].text == NormalizeLine(raws[Stripped(raws)[k].number - 1]) != ""
  {
    NonEmptyFromSound(NormalizeAll(raws), 1, k);
  }

  /** The yielded lines come in file order, no line twice. */
  lemma StrippedOrdered(raws: seq<string>, k: nat, l: nat)
    requires k < l < |Stripped(raws)|
    ensures Stripped(raws)[k].number < Stripped(raws)[l].number
  {
    NonEmptyFromOrdered(NormalizeAll(raws), 1, k, l);
  }

  /** Every physical line whose normal form is not empty is yielded. */
  lemma StrippedComplete(raws: seq<string>, j: nat)
    requires j < |raws| && NormalizeLine(raws[j]) != ""
    ensures NumberedLine(j + 1, NormalizeLine(raws[j])) in Stripped(raws)
  {
    NonEmptyFromComplete(NormalizeAll(raws), 1, j);
  }

  /** One step of the generator: entry `i` is yielded when it is not empty, then the rest follows. */
  lemma NonEmptyFromStep(norm: seq<string>, i: nat, lines: seq<NumberedLine>, line: string)
    requires i < |norm| && line == norm[i]
    ensures lines + NonEmptyFrom(norm[i..], i + 1)
      == (if line != "" then lines + [NumberedLine(i + 1, line)] else lines) + NonEmptyFrom(norm[i + 1..], i + 2)
  {
    assert norm[i..][1..] == norm[i + 1..];
  }

  /** The step of the generator for physical line `i`: yielded when its normal form is not empty. */
  lemma StrippedStep(raws: seq<string>, i: nat, lines: seq<NumberedLine>)
    requires i < |raws| && lines + NonEmptyFrom(NormalizeAll(raws)[i..], i + 1) == Stripped(raws)
    ensures NormalizeLine(raws[i]) != "" ==>
      (lines + [NumberedLine(i + 1, NormalizeLine(raws[i]))]) + NonEmptyFrom(NormalizeAll(raws)[i + 1..], i + 2) == Stripped(raws)
    ensures NormalizeLine(raws[i]) == "" ==>
      lines + NonEmptyFrom(NormalizeAll(raws)[i + 1..], i + 2) == Stripped(raws)
  {
    NonEmptyFromStep(NormalizeAll(raws), i, lines, NormalizeLine(raws[i]));
  }

  /** The loop of get_stripped_source over the physical lines of a file. */
  method StripLines(raws: seq<string>) returns (lines: seq<NumberedLine>)
    ensures lines == Stripped(raws)
  {
    lines := [];
    var i := 0;
    assert NormalizeAll(raws)[i..] == NormalizeAll(raws);
    while i < |raws|
      invariant 0 <= i <= |raws|
      invariant lines + NonEmptyFrom(NormalizeAll(raws)[i..], i + 1) == Stripped(raws)
    {
      StrippedStep(raws, i, lines);
      var line := NormalizeLine(raws[i]);
      if line != "" {
        lines := lines + [NumberedLine(i + 1, line)];
      }
      i := i + 1;
    }
    assert NormalizeAll(raws)[i..] == [];
  }

  /**
   * get_stripped_source over a file's text (after the two whole-file comment and
   * metadata passes): its lines as str.splitlines() cuts them, normalised.
   */
  method GetStrippedSource(contents: string) returns (lines: seq<NumberedLine>)
    ensures lines == Stripped(SplitLines(contents))
  {
    lines := StripLines(SplitLines(contents));
  }
}
