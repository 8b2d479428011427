/**
 * How the Lua bundler recognises `require` calls in a normalised line and
 * rewrites them (tools/luaknit.py:94, 143-150). Each regular expression is
 * written out as a matcher with the regex engine's backtracking resolved.
 */
module KnitRequire {
  import opened Outcomes
  import opened Text
  import opened Scan
  import opened KnitNormalize

  /** A static require: group 1 (what precedes the string) and group 2 (the module name). */
  datatype StaticRequire = StaticRequire(head: string, submodule: string)

  /** What the bundler does with a line, decided in the order the source tries the patterns. */
  datatype LineKind = Static(req: StaticRequire) | Dynamic(expr: string) | Plain

  /** Index after the run of `' '` and `'('` starting at `i` (the class `[ (]*`). */
  function SkipSpacesParens(s: string, i: nat): (k: nat)
    requires i <= |s|
    ensures i <= k <= |s|
    ensures forall j :: i <= j < k ==> s[j] == ' ' || s[j] == '('
    ensures k < |s| ==> s[k] != ' ' && s[k] != '('
    decreases |s| - i
  {
    if i < |s| && (s[i] == ' ' || s[i] == '(') then SkipSpacesParens(s, i + 1) else i
  }

  /**
   * `["'](\S+)["']` at the start of `t`: a quote, then the longest run of
   * non-whitespace that is followed by a quote. Returns the closing quote's index.
   */
  function QuotedName(t: string): (j: Option<nat>)
    ensures j.Some? ==> 2 <= j.value < |t| && IsQuote(t[0]) && IsQuote(t[j.value])
    ensures j.Some? ==> forall k :: 1 <= k < j.value ==> !IsSpace(t[k])
  {
    if t != [] && IsQuote(t[0]) then LastWhere(t, 2, SkipNonSpace(t, 1), IsQuote) else None
  }

  /** ` *\(? *["'](\S+)["']` at the start of `t`: the module name of a static require. */
  function RequireTail(t: string): Option<string> {
    var a := SkipSpaces(t, 0);
    var b := if a < |t| && t[a] == '(' then SkipSpaces(t, a + 1) else a;
    var j := QuotedName(t[b..]);
    if j.Some? then Some(t[b + 1..b + j.value]) else None
  }

  /** `require` at `k` followed by a call tail: group 1 runs up to the end of `require`. */
  function RequireAt(line: string, k: nat): Option<StaticRequire>
    requires k <= |line|
  {
    if StartsAt(line, k, "require") && RequireTail(line[k + 7..]).Some? then
      Some(StaticRequire(line[..k + 7], RequireTail(line[k + 7..]).value))
    else None
  }

  /** The alternative `[^=]*= *require`, which can only end its `[^=]*` at the first `=`. */
  function AssignedAlternative(line: string): Option<StaticRequire> {
    AssignedAfter(line, IndexFrom(line, '=', 0))
  }

  /** The first alternative once its `[^=]*=` has ended at `e`: ` *require` after it. */
  function AssignedAfter(line: string, e: nat): Option<StaticRequire>
    requires e <= |line|
  {
    if e < |line| then RequireAt(line, SkipSpaces(line, e + 1)) else None
  }

  /** The alternative ` *require`. */
  function BareAlternative(line: string): Option<StaticRequire> {
    RequireAt(line, SkipSpaces(line, 0))
  }

  /**
   * re.search(r'''^([^=]*= *require| *require) *\(? *["'](\S+)["']''', line):
   * the first alternative is tried first, then the second from the start of the line.
   */
  function MatchStaticRequire(line: string): (r: Option<StaticRequire>)
    ensures r.Some? ==> IsModuleName(r.value.submodule)
    ensures r.Some? ==> StartsWith(line, r.value.head) && EndsWith(r.value.head, "require")
  {
    var m := AssignedAlternative(line);
    AlternativesShape(line);
    if m.Some? then m else BareAlternative(line)
  }

  /** A static match found in `line`: group 1 is a prefix of it ending in `require`, group 2 a module name. */
  predicate StaticShape(line: string, m: Option<StaticRequire>) {
    m.Some? ==>
      IsModuleName(m.value.submodule) && StartsWith(line, m.value.head) && EndsWith(m.value.head, "require")
  }

  /** What either alternative of the static pattern finds. */
  lemma AlternativesShape(line: string)
    ensures StaticShape(line, AssignedAlternative(line)) && StaticShape(line, BareAlternative(line))
  {
    var e := IndexFrom(line, '=', 0);
    if e < |line| {
      RequireAtShape(line, SkipSpaces(line, e + 1));
    }
    RequireAtShape(line, SkipSpaces(line, 0));
  }

  /** What `RequireAt` finds: the line up to `require` as group 1, and a module name. */
  lemma RequireAtShape(line: string, k: nat)
    requires k <= |line|
    ensures StaticShape(line, RequireAt(line, k))
  {
    if RequireAt(line, k).Some? {
      RequireTailShape(line[k + 7..]);
      var head := line[..k + 7];
      assert head[|head| - 7..] == line[k..k + 7];
    }
  }

  /** A module name found after `require` is not empty and holds no whitespace. */
  lemma RequireTailShape(t: string)
    ensures RequireTail(t).Some? ==> IsModuleName(RequireTail(t).value)
  {
    var a := SkipSpaces(t, 0);
    var b := if a < |t| && t[a] == '(' then SkipSpaces(t, a + 1) else a;
    var u := t[b..];
    if QuotedName(u).Some? {
      var j := QuotedName(u).value;
      assert RequireTail(t) == Some(u[1..j]) by {
        assert b + j < |t|;
        forall k | 0 <= k < j - 1
          ensures t[b + 1..b + j][k] == u[1..j][k]
        {
          assert t[b + 1..b + j][k] == t[b + 1 + k] == u[1 + k];
        }
        assert t[b + 1..b + j] == u[1..j];
      }
      QuotedNameShape(u);
    }
  }

  /** The text between the quotes of a quoted name is a module name. */
  lemma QuotedNameShape(u: string)
    ensures QuotedName(u).Some? ==> IsModuleName(u[1..QuotedName(u).value])
  {
    if QuotedName(u).Some? {
      var j := QuotedName(u).value;
      forall i | 0 <= i < j - 1
        ensures !IsSpace(u[1..j][i])
      {
        assert u[1..j][i] == u[i + 1];
      }
    }
  }

  /** Whether the value of the static require is assigned: `'=' in m.group(1)`. */
  predicate IsAssigned(req: StaticRequire) {
    '=' in req.head
  }

  /** ` *= *require` at the start of `t`: the index just after `require`. */
  function AssignRequire(t: string): (k: Option<nat>)
    ensures k.Some? ==> 8 <= k.value <= |t|
  {
    var a := SkipSpaces(t, 0);
    if a < |t| && t[a] == '=' then
      var c := SkipSpaces(t, a + 1);
      if StartsAt(t, c, "require") then Some(c + 7) else None
    else None
  }

  /** ` *\(([^"']\S+)\)` at the start of `u`: the argument of a dynamic require. */
  function DynamicArgument(u: string): Option<Hit> {
    var d := SkipSpaces(u, 0);
    if d + 1 < |u| && u[d] == '(' && !IsQuote(u[d + 1]) then
      var j := LastWhere(u, d + 3, SkipNonSpace(u, d + 2), c => c == ')');
      if j.Some? then Some(Hit(j.value + 1, u[d + 1..j.value])) else None
    else None
  }

  /** `= *require *\(([^"']\S+)\)` at the start of `t`; group 1 is the argument expression. */
  function MatchDynamicRequire(t: string): (r: Option<Hit>)
    ensures r.Some? ==> t != [] && t[0] == '=' && r.value.len <= |t|
    ensures r.Some? ==>
      (|r.value.group| >= 2 && !IsQuote(r.value.group[0])
       && forall i :: 1 <= i < |r.value.group| ==> !IsSpace(r.value.group[i]))
  {
    var k := AssignRequire(t);
    AssignedArgumentShape(t);
    if t != [] && t[0] == '=' && k.Some? && DynamicArgument(t[k.value..]).Some? then
      var h := DynamicArgument(t[k.value..]).value;
      Some(Hit(k.value + h.len, h.group))
    else None
  }

  /** What `DynamicArgument` finds: `[^"']\S+` inside the parentheses, within the text. */
  lemma DynamicArgumentShape(u: string)
    ensures DynamicArgument(u).Some? ==>
      var h := DynamicArgument(u).value;
      h.len <= |u| && |h.group| >= 2 && !IsQuote(h.group[0])
      && forall i :: 1 <= i < |h.group| ==> !IsSpace(h.group[i])
  {
    if DynamicArgument(u).Some? {
      var d := SkipSpaces(u, 0);
      var j := LastWhere(u, d + 3, SkipNonSpace(u, d + 2), c => c == ')').value;
      var g := u[d + 1..j];
      forall i | 1 <= i < |g|
        ensures !IsSpace(g[i])
      {
        assert g[i] == u[d + 1 + i];
      }
    }
  }

  /** The dynamic argument after ` *= *require`, when there is one. */
  lemma AssignedArgumentShape(t: string)
    ensures AssignRequire(t).Some? && DynamicArgument(t[AssignRequire(t).value..]).Some? ==>
      var h := DynamicArgument(t[AssignRequire(t).value..]).value;
      AssignRequire(t).value + h.len <= |t| && |h.group| >= 2 && !IsQuote(h.group[0])
      && forall i :: 1 <= i < |h.group| ==> !IsSpace(h.group[i])
  {
    if AssignRequire(t).Some? {
      DynamicArgumentShape(t[AssignRequire(t).value..]);
    }
  }

  /**
   * The classification of tools/luaknit.py:94 and 141: static first, then
   * dynamic. A static require needs a quote on the line and carries a module
   * name; a dynamic one carries an expression of two or more non-space
   * characters that does not start with a quote.
   */
  function Classify(line: string): (r: LineKind)
    ensures NoQuote(line) ==> !r.Static?
    ensures r.Static? ==> IsModuleName(r.req.submodule)
    ensures r.Dynamic? ==>
      (|r.expr| >= 2 && !IsQuote(r.expr[0]) && forall i :: 1 <= i < |r.expr| ==> !IsSpace(r.expr[i]))
  {
    StaticNeedsQuote(line);
    var m := MatchStaticRequire(line);
    if m.Some? then Static(m.value)
    else
      var d := Search(MatchDynamicRequire, line);
      if d.Some? then
        SearchIsAHit(MatchDynamicRequire, line);
        Dynamic(d.value.group)
      else Plain
  }

  /** `[ (]+["']\S+["']\)?` at the start of `u`: the length it spans. */
  function StaticCallTail(u: string): Option<nat> {
    var p := SkipSpacesParens(u, 0);
    var j := QuotedName(u[p..]);
    if p > 0 && j.Some? then
      var e := p + j.value + 1;
      Some(if e < |u| && u[e] == ')' then e + 1 else e)
    else None
  }

  /** ` *(= *require[ (]+["']\S+["']\)?)` at the start of `t`. */
  function MatchStaticCall(t: string): Option<Hit> {
    var k := AssignRequire(t);
    if k.Some? && StaticCallTail(t[k.value..]).Some? then
      Some(Hit(k.value + StaticCallTail(t[k.value..]).value, ""))
    else None
  }

  /**
   * re.sub(...static pattern..., '=' + subsymbol, line): every match starts
   * with ` *=`, so a line without `=` comes out unchanged.
   */
  function RewriteStatic(line: string, subsymbol: string): (r: string)
    ensures '=' !in line ==> r == line
  {
    StaticCallStartsWithAssignment();
    NoEqualsNoRewrite(MatchStaticCall, line, Replacement(false, "=" + subsymbol));
    SubAll(MatchStaticCall, line, Replacement(false, "=" + subsymbol))
  }

  /** A pattern that starts with ` *= *require` rewrites nothing in a text without `=`. */
  lemma NoEqualsNoRewrite(m: string -> Option<Hit>, line: string, r: Replacement)
    requires StartsWithAssignment(m)
    ensures '=' !in line ==> SubAll(m, line, r) == line
  {
    if '=' !in line {
      forall i | 0 <= i < |line|
        ensures !Matches(m, line[i..])
      {
        var t := line[i..];
        if AssignRequire(t).Some? {
          AssignRequireNeedsEquals(t);
        }
      }
      SubAllNoMatch(m, line, r);
    }
  }

  /** ` *\(\S+\)` at the start of `u`: the length it spans. */
  function DynamicCallTail(u: string): Option<nat> {
    var d := SkipSpaces(u, 0);
    if d < |u| && u[d] == '(' then
      var j := LastWhere(u, d + 2, SkipNonSpace(u, d + 1), c => c == ')');
      if j.Some? then Some(j.value + 1) else None
    else None
  }

  /** ` *(= *require *\(\S+\))` at the start of `t`. */
  function MatchDynamicCall(t: string): Option<Hit> {
    var k := AssignRequire(t);
    if k.Some? && DynamicCallTail(t[k.value..]).Some? then
      Some(Hit(k.value + DynamicCallTail(t[k.value..]).value, ""))
    else None
  }

  /** The Lua that looks the module's block up by name at run time. */
  function LoadExpr(expr: string): string {
    "=load(\"return __mod_\" .. " + expr + ":gsub(\"%.\", \"_\"))()"
  }

  /** re.sub(...dynamic pattern..., rewrite, line): a line without `=` comes out unchanged. */
  function RewriteDynamic(line: string, expr: string): (r: string)
    ensures '=' !in line ==> r == line
  {
    DynamicCallStartsWithAssignment();
    NoEqualsNoRewrite(MatchDynamicCall, line, Replacement(false, LoadExpr(expr)));
    SubAll(MatchDynamicCall, line, Replacement(false, LoadExpr(expr)))
  }

  /** The two usual ways a module string follows `require`: ` 'x'` and `('x')`. */
  datatype CallForm = SpaceForm | ParenForm

  function Opening(f: CallForm): string {
    match f
    case SpaceForm => " "
    case ParenForm => "("
  }

  function Closing(f: CallForm): string {
    match f
    case SpaceForm => ""
    case ParenForm => ")"
  }

  /** The quoted module string: a quote, the name, the same quote. */
  function Quoted(q: char, name: string): string {
    [q] + name + [q]
  }

  /** A module name a require can carry: non-empty, without whitespace. */
  predicate IsModuleName(name: string) {
    name != [] && forall i :: 0 <= i < |name| ==> !IsSpace(name[i])
  }

  /** The quoted name, closed by its own quote, when nothing glued to it holds another quote. */
  lemma QuotedNameOf(q: char, name: string, rest: string)
    requires IsQuote(q) && IsModuleName(name)
    requires rest == [] || IsSpace(rest[0]) || (rest[0] == ')' && (|rest| == 1 || IsSpace(rest[1])))
    ensures QuotedName(Quoted(q, name) + rest) == Some(|name| + 1)
  {
    var t := Quoted(q, name) + rest;
    var e := |name| + 1;
    forall k | 1 <= k < e
      ensures !IsSpace(t[k])
    {
      assert t[k] == name[k - 1];
    }
    assert t[e] == q;
    var r := SkipNonSpace(t, 1);
    if rest != [] {
      assert t[e + 1] == rest[0];
      if !IsSpace(rest[0]) && |rest| > 1 {
        assert t[e + 2] == rest[1];
      }
    }
    assert r == e + 1 || r == e + 2;
  }

  /** After `require`, either call form yields the quoted name as group 2. */
  lemma RequireTailOfCall(f: CallForm, q: char, name: string)
    requires IsQuote(q) && IsModuleName(name)
    ensures RequireTail(Opening(f) + Quoted(q, name) + Closing(f)) == Some(name)
  {
    var t := Opening(f) + Quoted(q, name) + Closing(f);
    assert t[1..] == Quoted(q, name) + Closing(f);
    assert t[1] == q;
    if f == ParenForm {
      assert SkipSpaces(t, 0) == 0;
      assert SkipSpaces(t, 1) == 1;
    } else {
      assert SkipSpaces(t, 0) == 1;
    }
    QuotedNameOf(q, name, Closing(f));
    assert t[2..|name| + 2] == name;
  }

  /** Without an `=` the first alternative cannot match. */
  lemma AssignedAlternativeNeedsEquals(line: string)
    requires '=' !in line
    ensures AssignedAlternative(line) == None
  {
    IndexFromAbsent(line, '=');
  }

  /** An indented `require` followed by a call tail matches the second alternative. */
  lemma BareAlternativeOf(n: nat, call: string, name: string)
    requires RequireTail(call) == Some(name)
    ensures BareAlternative(Spaces(n) + "require" + call) == Some(StaticRequire(Spaces(n) + "require", name))
  {
    var head := Spaces(n) + "require";
    var line := head + call;
    assert SkipSpaces(line, 0) == n by {
      SkipSpacesTo(line, 0, n);
    }
    assert |head| == n + 7 && head[n..] == "require";
    RequireAtOf(head, call, name);
  }

  /**
   * A bare static require (`require 'x'` or `require('x')`, indented or not, on
   * a line without `=`) is recognised as such, with the module name between
   * the quotes, and is not assigned: the bundler emits no line for it.
   */
  lemma BareRequireIsStatic(n: nat, f: CallForm, q: char, name: string)
    requires IsQuote(q) && IsModuleName(name) && '=' !in name
    ensures var line := Spaces(n) + "require" + Opening(f) + Quoted(q, name) + Closing(f);
      MatchStaticRequire(line) == Some(StaticRequire(Spaces(n) + "require", name))
      && !IsAssigned(MatchStaticRequire(line).value)
  {
    var head := Spaces(n) + "require";
    var call := Opening(f) + Quoted(q, name) + Closing(f);
    assert Spaces(n) + "require" + Opening(f) + Quoted(q, name) + Closing(f) == head + call;
    assert '=' !in head by {
      forall i | 0 <= i < |head|
        ensures head[i] != '='
      {
      }
    }
    assert AssignedAlternative(head + call) == None by {
      assert '=' !in call by {
        forall i | 0 <= i < |call|
          ensures call[i] != '='
        {
          if 2 <= i < |name| + 2 {
            assert call[i] == name[i - 2];
          }
        }
      }
      AssignedAlternativeNeedsEquals(head + call);
    }
    assert BareAlternative(head + call) == Some(StaticRequire(head, name)) by {
      RequireTailOfCall(f, q, name);
      BareAlternativeOf(n, call, name);
    }
  }

  /** ` *= *require` can only start where the first non-space character is `=`. */
  lemma AssignRequireNeedsEquals(t: string)
    requires AssignRequire(t).Some?
    ensures SkipSpaces(t, 0) < |t| && t[SkipSpaces(t, 0)] == '='
  {
  }

  /** Every match of the two rewriting patterns starts with ` *= *require`. */
  ghost predicate StartsWithAssignment(m: string -> Option<Hit>) {
    forall t :: m(t).Some? ==> AssignRequire(t).Some?
  }

  lemma StaticCallStartsWithAssignment()
    ensures StartsWithAssignment(MatchStaticCall)
  {
  }

  lemma DynamicCallStartsWithAssignment()
    ensures StartsWithAssignment(MatchDynamicCall)
  {
  }

  /**
   * A pattern that starts with ` *=` finds nothing inside a left-hand side that
   * holds no `=` and does not end in a space.
   */
  lemma NoMatchInTarget(m: string -> Option<Hit>, lhs: string, rest: string)
    requires StartsWithAssignment(m)
    requires lhs != [] && '=' !in lhs && lhs[|lhs| - 1] != ' '
    ensures forall i :: 0 <= i < |lhs| ==> !Matches(m, (lhs + rest)[i..])
  {
    forall i | 0 <= i < |lhs|
      ensures !Matches(m, (lhs + rest)[i..])
    {
      var t := (lhs + rest)[i..];
      assert t[|lhs| - 1 - i] == lhs[|lhs| - 1];
      var k := SkipSpaces(t, 0);
      assert k <= |lhs| - 1 - i;
      assert t[k] == lhs[i + k];
      if AssignRequire(t).Some? {
        AssignRequireNeedsEquals(t);
      }
    }
  }

  /** `<spaces>=<spaces>require` followed by anything. */
  lemma AssignRequireOf(g1: nat, g2: nat, u: string)
    ensures var t := Spaces(g1) + "=" + Spaces(g2) + "require" + u;
      AssignRequire(t) == Some(g1 + g2 + 8) && t[g1 + g2 + 8..] == u
  {
    var t := Spaces(g1) + "=" + Spaces(g2) + "require" + u;
    var c := g1 + 1 + g2;
    assert SkipSpaces(t, 0) == g1 && t[g1] == '=' by {
      assert t[g1] == '=';
    }
    assert SkipSpaces(t, g1 + 1) == c by {
      assert t[c] == 'r';
    }
    assert StartsAt(t, c, "require") by {
      assert t[c..c + 7] == "require";
    }
    assert t[c + 7..] == u;
  }

  /** ` 'x'` or `('x')` is one whole match of the static call tail. */
  lemma StaticCallTailOf(f: CallForm, q: char, name: string)
    requires IsQuote(q) && IsModuleName(name)
    ensures var u := Opening(f) + Quoted(q, name) + Closing(f);
      StaticCallTail(u) == Some(|u|)
  {
    var u := Opening(f) + Quoted(q, name) + Closing(f);
    assert SkipSpacesParens(u, 0) == 1 by {
      assert u[1] == q;
    }
    assert u[1..] == Quoted(q, name) + Closing(f);
    QuotedNameOf(q, name, Closing(f));
    if f == ParenForm {
      assert u[|name| + 3] == ')';
    }
  }

  /** `<spaces>=<spaces>require 'x'` or `...require('x')` is one whole match of the static rewrite. */
  lemma StaticCallMatchesWhole(g1: nat, g2: nat, f: CallForm, q: char, name: string)
    requires IsQuote(q) && IsModuleName(name)
    ensures var t := Spaces(g1) + "=" + Spaces(g2) + "require" + (Opening(f) + Quoted(q, name) + Closing(f));
      MatchStaticCall(t) == Some(Hit(|t|, ""))
  {
    var call := Opening(f) + Quoted(q, name) + Closing(f);
    var t := Spaces(g1) + "=" + Spaces(g2) + "require" + call;
    var k := g1 + g2 + 8;
    assert AssignRequire(t) == Some(k) && t[k..] == call by {
      AssignRequireOf(g1, g2, call);
    }
    StaticCallTailOf(f, q, name);
    assert |t| == k + |call|;
    MatchStaticCallOf(t, k, call);
  }

  lemma MatchStaticCallOf(t: string, k: nat, call: string)
    requires AssignRequire(t) == Some(k) && t[k..] == call
    requires StaticCallTail(call) == Some(|call|)
    ensures MatchStaticCall(t) == Some(Hit(|t|, ""))
  {
  }

  /**
   * When the pattern matches the whole text after a left-hand side that it
   * cannot match in, re.sub replaces exactly that text.
   */
  lemma RewriteAfterTarget(m: string -> Option<Hit>, lhs: string, t: string, r: Replacement)
    requires StartsWithAssignment(m)
    requires lhs != [] && '=' !in lhs && lhs[|lhs| - 1] != ' '
    requires t != [] && m(t).Some? && m(t).value.len == |t|
    ensures SubAll(m, lhs + t, r) == lhs + Expand(m(t).value, r)
  {
    var line := lhs + t;
    NoMatchInTarget(m, lhs, t);
    SubAllSkip(m, line, r, |lhs|);
    assert line[..|lhs|] == lhs && line[|lhs|..] == t;
    assert t[|t|..] == [];
  }

  /** A whole-tail match that keeps no group is replaced by the replacement text alone. */
  lemma RewriteToText(m: string -> Option<Hit>, lhs: string, t: string, text: string)
    requires StartsWithAssignment(m)
    requires lhs != [] && '=' !in lhs && lhs[|lhs| - 1] != ' '
    requires t != [] && m(t) == Some(Hit(|t|, ""))
    ensures SubAll(m, lhs + t, Replacement(false, text)) == lhs + text
  {
    RewriteAfterTarget(m, lhs, t, Replacement(false, text));
    assert Expand(m(t).value, Replacement(false, text)) == text;
  }

  /** A head ending in `require`, then a call tail: the head is group 1 and the tail gives the name. */
  lemma RequireAtOf(head: string, call: string, name: string)
    requires |head| >= 7 && head[|head| - 7..] == "require"
    requires RequireTail(call) == Some(name)
    ensures RequireAt(head + call, |head| - 7) == Some(StaticRequire(head, name))
  {
    var line := head + call;
    var k := |head| - 7;
    assert line[k..k + 7] == head[k..];
    assert line[..k + 7] == head;
    assert line[k + 7..] == call;
  }

  /**
   * A head whose first `=` is at `e` and which ends in spaces and `require`,
   * then a call tail: the first alternative matches with the head as group 1.
   */
  lemma AssignedHeadOf(head: string, call: string, name: string, e: nat)
    requires e + 8 <= |head| && IndexFrom(head, '=', 0) == e
    requires SkipSpaces(head, e + 1) == |head| - 7 && head[|head| - 7..] == "require"
    requires RequireTail(call) == Some(name)
    ensures AssignedAlternative(head + call) == Some(StaticRequire(head, name))
  {
    var line := head + call;
    assert IndexFrom(line, '=', 0) == e by {
      IndexFromInPrefix(head, call, '=', 0);
    }
    assert SkipSpaces(line, e + 1) == |head| - 7 by {
      SkipSpacesInPrefix(head, call, e + 1);
    }
    RequireAtOf(head, call, name);
    AssignedAlternativeIs(line, e, |head| - 7, Some(StaticRequire(head, name)));
  }

  /** With its first `=` at `e` and the spaces after it ending at `k`, the first alternative is what `require` at `k` gives. */
  lemma AssignedAlternativeIs(line: string, e: nat, k: nat, r: Option<StaticRequire>)
    requires e < |line| && IndexFrom(line, '=', 0) == e && e + 1 <= k <= |line| && SkipSpaces(line, e + 1) == k
    requires RequireAt(line, k) == r
    ensures AssignedAlternative(line) == r
  {
    assert AssignedAfter(line, e) == RequireAt(line, k);
  }

  /** `lhs<spaces>=<spaces>require` followed by a call tail matches the first alternative. */
  lemma AssignedAlternativeOf(lhs: string, g1: nat, g2: nat, call: string, name: string)
    requires '=' !in lhs
    requires RequireTail(call) == Some(name)
    ensures var head := lhs + Spaces(g1) + "=" + Spaces(g2) + "require";
      AssignedAlternative(head + call) == Some(StaticRequire(head, name))
  {
    var head := lhs + Spaces(g1) + "=" + Spaces(g2) + "require";
    var e := |lhs| + g1;
    var k := e + 1 + g2;
    assert IndexFrom(head, '=', 0) == e by {
      NoAssignBeforeSpaces(lhs, g1);
      var pre := lhs + Spaces(g1);
      assert head == pre + ("=" + Spaces(g2) + "require");
      forall i | 0 <= i < e
        ensures head[i] != '='
      {
        assert head[i] == pre[i];
      }
      IndexFromAt(head, '=', 0, e);
    }
    assert SkipSpaces(head, e + 1) == k by {
      var sp := Spaces(g2);
      assert head == (lhs + Spaces(g1) + "=") + (sp + "require");
      forall j | e + 1 <= j < k
        ensures head[j] == ' '
      {
        assert head[j] == sp[j - e - 1];
      }
      assert head[k] == 'r';
      SkipSpacesTo(head, e + 1, k);
    }
    assert |head| == k + 7 && head[k..] == "require";
    AssignedHeadOf(head, call, name, e);
  }

  /**
   * An assigned static require, `lhs = require 'x'` or `lhs = require('x')`, is
   * recognised with the module name between the quotes, counts as assigned,
   * and is rewritten to `lhs=<symbol>`.
   */
  lemma AssignedRequireRewritten(lhs: string, g1: nat, g2: nat, f: CallForm, q: char, name: string, symbol: string)
    requires IsQuote(q) && IsModuleName(name)
    requires lhs != [] && '=' !in lhs && lhs[|lhs| - 1] != ' '
    ensures var line := lhs + Spaces(g1) + "=" + Spaces(g2) + "require" + Opening(f) + Quoted(q, name) + Closing(f);
      MatchStaticRequire(line) == Some(StaticRequire(lhs + Spaces(g1) + "=" + Spaces(g2) + "require", name))
      && IsAssigned(MatchStaticRequire(line).value)
      && RewriteStatic(line, symbol) == lhs + "=" + symbol
  {
    var head := lhs + Spaces(g1) + "=" + Spaces(g2) + "require";
    var call := Opening(f) + Quoted(q, name) + Closing(f);
    var t := Spaces(g1) + "=" + Spaces(g2) + "require" + call;
    var line := lhs + Spaces(g1) + "=" + Spaces(g2) + "require" + Opening(f) + Quoted(q, name) + Closing(f);
    assert line == head + call;
    assert line == lhs + t;
    assert MatchStaticRequire(line) == Some(StaticRequire(head, name)) by {
      RequireTailOfCall(f, q, name);
      AssignedAlternativeOf(lhs, g1, g2, call, name);
    }
    assert '=' in head by {
      assert head[|lhs| + g1] == '=';
    }
    assert RewriteStatic(line, symbol) == lhs + "=" + symbol by {
      StaticCallMatchesWhole(g1, g2, f, q, name);
      StaticRewriteOf(lhs, t, symbol);
    }
  }

  lemma StaticRewriteOf(lhs: string, t: string, symbol: string)
    requires lhs != [] && '=' !in lhs && lhs[|lhs| - 1] != ' '
    requires MatchStaticCall(t) == Some(Hit(|t|, ""))
    ensures RewriteStatic(lhs + t, symbol) == lhs + "=" + symbol
  {
    StaticCallStartsWithAssignment();
    RewriteToText(MatchStaticCall, lhs, t, "=" + symbol);
  }

  /** No quote character anywhere in `s`. */
  predicate NoQuote(s: string) {
    forall i :: 0 <= i < |s| ==> !IsQuote(s[i])
  }

  /** An argument the dynamic pattern accepts: two or more non-space characters, here without quotes. */
  predicate IsDynamicExpr(expr: string) {
    |expr| >= 2 && NoQuote(expr) && forall i :: 0 <= i < |expr| ==> !IsSpace(expr[i])
  }

  lemma RequireTailNeedsQuote(u: string)
    requires NoQuote(u)
    ensures RequireTail(u) == None
  {
    var a := SkipSpaces(u, 0);
    var b := if a < |u| && u[a] == '(' then SkipSpaces(u, a + 1) else a;
    if b < |u| {
      assert u[b..][0] == u[b];
    }
  }

  lemma RequireAtNeedsQuote(line: string, k: nat)
    requires k <= |line| && NoQuote(line)
    ensures RequireAt(line, k) == None
  {
    if k + 7 <= |line| {
      var u := line[k + 7..];
      forall i | 0 <= i < |u|
        ensures !IsQuote(u[i])
      {
        assert u[i] == line[k + 7 + i];
      }
      RequireTailNeedsQuote(u);
    }
  }

  /** The static pattern needs a quote: a line without one is never a static require. */
  lemma StaticNeedsQuote(line: string)
    ensures NoQuote(line) ==> MatchStaticRequire(line) == None
  {
    if NoQuote(line) {
      var e := IndexFrom(line, '=', 0);
      if e < |line| {
        RequireAtNeedsQuote(line, SkipSpaces(line, e + 1));
      }
      RequireAtNeedsQuote(line, SkipSpaces(line, 0));
    }
  }

  /** `<spaces>(expr)` is one whole match of the dynamic argument, with `expr` as group 1. */
  lemma DynamicArgumentOf(g3: nat, expr: string)
    requires IsDynamicExpr(expr)
    ensures var u := Spaces(g3) + "(" + expr + ")";
      DynamicArgument(u) == Some(Hit(|u|, expr))
  {
    var u := Spaces(g3) + "(" + expr + ")";
    assert SkipSpaces(u, 0) == g3 by {
      assert u[g3] == '(';
    }
    assert u[g3 + 1] == expr[0];
    assert SkipNonSpace(u, g3 + 2) == |u| by {
      forall i | g3 + 2 <= i < |u|
        ensures !IsSpace(u[i])
      {
        if i < |u| - 1 {
          assert u[i] == expr[i - g3 - 1];
        }
      }
    }
    assert u[|u| - 1] == ')';
    assert u[g3 + 1..|u| - 1] == expr;
  }

  /** `<spaces>(expr)` is one whole match of the dynamic call tail. */
  lemma DynamicCallTailOf(g3: nat, expr: string)
    requires IsDynamicExpr(expr)
    ensures var u := Spaces(g3) + "(" + expr + ")";
      DynamicCallTail(u) == Some(|u|)
  {
    var u := Spaces(g3) + "(" + expr + ")";
    assert SkipSpaces(u, 0) == g3 by {
      assert u[g3] == '(';
    }
    assert SkipNonSpace(u, g3 + 1) == |u| by {
      forall i | g3 + 1 <= i < |u|
        ensures !IsSpace(u[i])
      {
        if i < |u| - 1 {
          assert u[i] == expr[i - g3 - 1];
        }
      }
    }
    assert u[|u| - 1] == ')';
  }

  lemma MatchDynamicRequireOf(t: string, k: nat, u: string, expr: string)
    requires t != [] && t[0] == '=' && AssignRequire(t) == Some(k) && t[k..] == u
    requires DynamicArgument(u) == Some(Hit(|u|, expr))
    ensures MatchDynamicRequire(t) == Some(Hit(|t|, expr))
  {
  }

  lemma MatchDynamicCallOf(t: string, k: nat, u: string)
    requires AssignRequire(t) == Some(k) && t[k..] == u
    requires DynamicCallTail(u) == Some(|u|)
    ensures MatchDynamicCall(t) == Some(Hit(|t|, ""))
  {
  }

  /** `=<spaces>require<spaces>(expr)` is one whole match of the dynamic detection pattern. */
  lemma DynamicRequireMatchesWhole(g2: nat, g3: nat, expr: string)
    requires IsDynamicExpr(expr)
    ensures var t := "=" + Spaces(g2) + "require" + (Spaces(g3) + "(" + expr + ")");
      MatchDynamicRequire(t) == Some(Hit(|t|, expr))
  {
    var u := Spaces(g3) + "(" + expr + ")";
    var t := "=" + Spaces(g2) + "require" + u;
    var k := g2 + 8;
    assert AssignRequire(t) == Some(k) && t[k..] == u by {
      AssignRequireOf(0, g2, u);
      assert Spaces(0) + "=" == "=";
    }
    DynamicArgumentOf(g3, expr);
    assert |t| == k + |u|;
    assert t[0] == '=';
    MatchDynamicRequireOf(t, k, u, expr);
  }

  /** `<spaces>=<spaces>require<spaces>(expr)` is one whole match of the dynamic rewrite. */
  lemma DynamicCallMatchesWhole(g1: nat, g2: nat, g3: nat, expr: string)
    requires IsDynamicExpr(expr)
    ensures var t := Spaces(g1) + "=" + Spaces(g2) + "require" + (Spaces(g3) + "(" + expr + ")");
      MatchDynamicCall(t) == Some(Hit(|t|, ""))
  {
    var u := Spaces(g3) + "(" + expr + ")";
    var t := Spaces(g1) + "=" + Spaces(g2) + "require" + u;
    var k := g1 + g2 + 8;
    assert AssignRequire(t) == Some(k) && t[k..] == u by {
      AssignRequireOf(g1, g2, u);
    }
    DynamicCallTailOf(g3, expr);
    assert |t| == k + |u|;
    MatchDynamicCallOf(t, k, u);
  }

  /** re.search finds the dynamic require at the first `=` when it matches there. */
  lemma DynamicSearchAt(line: string, e: nat, expr: string)
    requires e < |line| && '=' !in line[..e]
    requires MatchDynamicRequire(line[e..]) == Some(Hit(|line| - e, expr))
    ensures Search(MatchDynamicRequire, line) == Some(Hit(|line| - e, expr))
  {
    forall i | 0 <= i < e
      ensures !Matches(MatchDynamicRequire, line[i..])
    {
      assert line[i..][0] == line[..e][i];
    }
    SearchFirst(MatchDynamicRequire, line, e);
  }

  lemma DynamicRewriteOf(lhs: string, t: string, expr: string)
    requires lhs != [] && '=' !in lhs && lhs[|lhs| - 1] != ' '
    requires MatchDynamicCall(t) == Some(Hit(|t|, ""))
    ensures RewriteDynamic(lhs + t, expr) == lhs + LoadExpr(expr)
  {
    DynamicCallStartsWithAssignment();
    RewriteToText(MatchDynamicCall, lhs, t, LoadExpr(expr));
  }

  /**
   * An assigned dynamic require, `lhs = require(expr)`, is classified as dynamic
   * with `expr` as its argument and is rewritten to a run-time lookup of the
   * module's block by the value of `expr`.
   */
  lemma DynamicRequireRewritten(lhs: string, g1: nat, g2: nat, g3: nat, expr: string)
    requires lhs != [] && '=' !in lhs && lhs[|lhs| - 1] != ' ' && NoQuote(lhs)
    requires IsDynamicExpr(expr)
    ensures var line := lhs + Spaces(g1) + "=" + Spaces(g2) + "require" + Spaces(g3) + "(" + expr + ")";
      Classify(line) == Dynamic(expr)
      && RewriteDynamic(line, expr) == lhs + LoadExpr(expr)
  {
    var u := Spaces(g3) + "(" + expr + ")";
    var t := Spaces(g1) + "=" + Spaces(g2) + "require" + u;
    var line := lhs + Spaces(g1) + "=" + Spaces(g2) + "require" + Spaces(g3) + "(" + expr + ")";
    assert line == lhs + t;
    assert line == (lhs + Spaces(g1)) + ("=" + Spaces(g2) + "require" + u);
    assert Classify(line) == Dynamic(expr) by {
      DynamicClassified(lhs, g1, g2, g3, expr, line);
    }
    assert RewriteDynamic(line, expr) == lhs + LoadExpr(expr) by {
      DynamicCallMatchesWhole(g1, g2, g3, expr);
      DynamicRewriteOf(lhs, t, expr);
    }
  }

  lemma DynamicClassified(lhs: string, g1: nat, g2: nat, g3: nat, expr: string, line: string)
    requires lhs != [] && '=' !in lhs && NoQuote(lhs)
    requires IsDynamicExpr(expr)
    requires line == (lhs + Spaces(g1)) + ("=" + Spaces(g2) + "require" + (Spaces(g3) + "(" + expr + ")"))
    ensures Classify(line) == Dynamic(expr)
  {
    assert MatchStaticRequire(line) == None by {
      DynamicLineHasNoQuote(lhs, g1, g2, g3, expr, line);
      StaticNeedsQuote(line);
    }
    var pre := lhs + Spaces(g1);
    var d := "=" + Spaces(g2) + "require" + (Spaces(g3) + "(" + expr + ")");
    NoAssignBeforeSpaces(lhs, g1);
    assert MatchDynamicRequire(d) == Some(Hit(|d|, expr)) by {
      DynamicRequireMatchesWhole(g2, g3, expr);
    }
    DynamicFoundAfter(pre, d, expr, line);
    ClassifyDynamicOf(line, Hit(|d|, expr));
  }

  lemma ClassifyDynamicOf(line: string, h: Hit)
    requires MatchStaticRequire(line) == None && Search(MatchDynamicRequire, line) == Some(h)
    ensures Classify(line) == Dynamic(h.group)
  {
  }

  lemma DynamicLineHasNoQuote(lhs: string, g1: nat, g2: nat, g3: nat, expr: string, line: string)
    requires NoQuote(lhs) && NoQuote(expr)
    requires line == (lhs + Spaces(g1)) + ("=" + Spaces(g2) + "require" + (Spaces(g3) + "(" + expr + ")"))
    ensures NoQuote(line)
  {
    forall i | 0 <= i < |line|
      ensures !IsQuote(line[i])
    {
      if i < |lhs| {
        assert line[i] == lhs[i];
      } else if |line| - |expr| - 1 <= i < |line| - 1 {
        assert line[i] == expr[i - (|line| - |expr| - 1)];
      }
    }
  }

  lemma NoAssignBeforeSpaces(lhs: string, g1: nat)
    requires '=' !in lhs
    ensures '=' !in lhs + Spaces(g1)
  {
    var pre := lhs + Spaces(g1);
    forall i | 0 <= i < |pre|
      ensures pre[i] != '='
    {
      if i < |lhs| {
        assert pre[i] == lhs[i];
      }
    }
  }

  /** Behind a prefix without `=`, a whole match of the dynamic pattern is what re.search finds. */
  lemma DynamicFoundAfter(pre: string, d: string, expr: string, line: string)
    requires '=' !in pre && d != [] && line == pre + d
    requires MatchDynamicRequire(d) == Some(Hit(|d|, expr))
    ensures Search(MatchDynamicRequire, line) == Some(Hit(|d|, expr))
  {
    assert line[|pre|..] == d;
    assert line[..|pre|] == pre;
    DynamicSearchAt(line, |pre|, expr);
  }
}
