/**
 * Version numbers of the ReaPack release tool (tools/mkreapack.py):
 * `parsever`, `get_latest_from_manifest` and `gen_reapack_version`.
 *
 * A result of `None` from these functions stands for the Python exception the
 * tool stops with (an `int()` of something that is not a number, or the last
 * element of an empty list).
 */
module ReapackVersion {
  import opened Outcomes
  import opened Text
  import opened Scan

  predicate AllDigits(s: string) {
    forall i :: 0 <= i < |s| ==> IsDigit(s[i])
  }

  /**
   * int(s) on a str: surrounding whitespace is ignored, one optional sign, then
   * ASCII decimal digits. A negative result needs a '-' in the text.
   */
  function ParseInt(s: string): (r: Option<int>)
    ensures r.Some? && r.value < 0 ==> '-' in s
  {
    var t := Strip(s);
    if t == [] then None
    else if t[0] == '-' || t[0] == '+' then
      var d := t[1..];
      if d != [] && AllDigits(d) then
        assert t[0] in s by {
          assert t == s[SkipWhitespace(s, 0)..TrimEnd(s, SkipWhitespace(s, 0), |s|)];
          assert t[0] == s[SkipWhitespace(s, 0)];
        }
        var n: int := DigitsValue(d);
        Some(if t[0] == '-' then -n else n)
      else None
    else if AllDigits(t) then Some(DigitsValue(t))
    else None
  }

  /** f'{n}' / str(n) for any integer. */
  function IntToString(n: int): string {
    if n < 0 then "-" + NatToString(-n) else NatToString(n)
  }

  /** A text of digits alone is its decimal value. */
  lemma ParseDigits(d: string)
    requires d != [] && AllDigits(d)
    ensures ParseInt(d) == Some(DigitsValue(d))
  {
    assert !IsSpace(d[0]) && !IsSpace(d[|d| - 1]);
    StripFixedPoint(d);
  }

  /** A `-` followed by digits is the negated decimal value of the digits. */
  lemma ParseNegativeDigits(d: string)
    requires d != [] && AllDigits(d)
    ensures ParseInt("-" + d) == Some(-(DigitsValue(d) as int))
  {
    var s := "-" + d;
    assert s[0] == '-' && s[|s| - 1] == d[|d| - 1] && !IsSpace(d[|d| - 1]);
    StripFixedPoint(s);
    assert s[1..] == d;
  }

  /** int() reads back what str() writes. */
  lemma IntToStringRoundTrip(n: int)
    ensures ParseInt(IntToString(n)) == Some(n)
  {
    var d := NatToString(if n < 0 then -n else n);
    NatToStringRoundTrip(if n < 0 then -n else n);
    if n < 0 {
      ParseNegativeDigits(d);
    } else {
      ParseDigits(d);
    }
  }

  /** The class `[.-]` re.split cuts a version at. */
  predicate IsVersionSep(c: char) { c == '.' || c == '-' }

  predicate NoVersionSep(s: string) {
    forall i :: 0 <= i < |s| ==> !IsVersionSep(s[i])
  }

  /** re.split(r'[.-]', v): the pieces between separators, one more piece than there are separators. */
  function SplitVersion(v: string): (r: seq<string>)
    ensures r != []
    ensures forall k :: 0 <= k < |r| ==> NoVersionSep(r[k])
  {
    if v == [] then [[]]
    else
      var rest := SplitVersion(v[1..]);
      if IsVersionSep(v[0]) then [[]] + rest
      else [[v[0]] + rest[0]] + rest[1..]
  }

  /** A text without separators is one piece. */
  lemma {:induction false} SplitVersionPlain(a: string)
    requires NoVersionSep(a)
    ensures SplitVersion(a) == [a]
  {
    if a != [] {
      SplitVersionPlain(a[1..]);
      assert [a[0]] + a[1..] == a;
    }
  }

  /** Every '.' and every '-' is a cut: the pieces on either side are split independently. */
  lemma {:induction false} SplitVersionAppend(a: string, c: char, b: string)
    requires IsVersionSep(c)
    ensures SplitVersion(a + [c] + b) == SplitVersion(a) + SplitVersion(b)
  {
    if a == [] {
      assert a + [c] + b == [c] + b;
      assert ([c] + b)[1..] == b;
    } else {
      assert (a + [c] + b)[0] == a[0];
      assert (a + [c] + b)[1..] == a[1..] + [c] + b;
      SplitVersionAppend(a[1..], c, b);
    }
  }

  /** [parse(p) for p in pieces]: `None` as soon as one piece does not parse. */
  function ParseEach(pieces: seq<string>, parse: string -> Option<int>): Option<seq<int>> {
    if pieces == [] then Some([])
    else
      var head := parse(pieces[0]);
      var rest := ParseEach(pieces[1..], parse);
      if head.Some? && rest.Some? then Some([head.value] + rest.value) else None
  }

  /** The list comprehension succeeds exactly when every piece parses, and then holds their values in order. */
  lemma {:induction false} ParseEachValues(pieces: seq<string>, parse: string -> Option<int>)
    ensures ParseEach(pieces, parse).Some? <==> forall k :: 0 <= k < |pieces| ==> parse(pieces[k]).Some?
    ensures ParseEach(pieces, parse).Some? ==>
              |ParseEach(pieces, parse).value| == |pieces|
              && forall k :: 0 <= k < |pieces| ==> parse(pieces[k]) == Some(ParseEach(pieces, parse).value[k])
  {
    if pieces != [] {
      ParseEachValues(pieces[1..], parse);
      assert forall k :: 1 <= k < |pieces| ==> pieces[1..][k - 1] == pieces[k];
    }
  }

  lemma {:induction false} ParseEachAppend(a: seq<string>, b: seq<string>, parse: string -> Option<int>)
    requires ParseEach(a, parse).Some? && ParseEach(b, parse).Some?
    ensures ParseEach(a + b, parse) == Some(ParseEach(a, parse).value + ParseEach(b, parse).value)
  {
    var y := ParseEach(b, parse).value;
    if a == [] {
      assert a + b == b;
      assert [] + y == y;
    } else {
      var t := a[1..];
      assert a == [a[0]] + t;
      assert a + b == [a[0]] + (t + b);
      ParseEachCons(a[0], t, parse);
      ParseEachAppend(t, b, parse);
      ParseEachCons(a[0], t + b, parse);
      var h := parse(a[0]).value;
      var x := ParseEach(t, parse).value;
      assert [h] + (x + y) == ([h] + x) + y;
    }
  }

  /** One piece in front: its value goes in front of the others'. */
  lemma ParseEachCons(p: string, t: seq<string>, parse: string -> Option<int>)
    ensures ParseEach([p] + t, parse)
      == if parse(p).Some? && ParseEach(t, parse).Some? then Some([parse(p).value] + ParseEach(t, parse).value) else None
  {
    assert ([p] + t)[0] == p && ([p] + t)[1..] == t;
  }



  /** parsever(v): the integers between the separators; none of them is negative. */
  function ParseVersion(v: string): (r: Option<seq<int>>)
    ensures r.Some? ==> r.value != []
    ensures r.Some? ==> forall k :: 0 <= k < |r.value| ==> r.value[k] >= 0
  {
    var pieces := SplitVersion(v);
    var r := ParseEach(pieces, ParseInt);
    if r.Some? then
      ParseEachValues(pieces, ParseInt);
      assert forall k :: 0 <= k < |pieces| ==> '-' !in pieces[k];
      r
    else r
  }

  /**
   * parsever(v) succeeds exactly when every `.`/`-`-separated part is a
   * decimal number, and then holds one value per part, in order.
   */
  lemma ParseVersionPieces(v: string)
    ensures ParseVersion(v).Some? <==> forall k :: 0 <= k < |SplitVersion(v)| ==> ParseInt(SplitVersion(v)[k]).Some?
    ensures ParseVersion(v).Some? ==> |ParseVersion(v).value| == |SplitVersion(v)|
    ensures ParseVersion(v).Some? ==>
      forall k :: 0 <= k < |SplitVersion(v)| ==> ParseInt(SplitVersion(v)[k]) == Some(ParseVersion(v).value[k])
  {
    assert ParseVersion(v) == ParseEach(SplitVersion(v), ParseInt);
    ParseEachValues(SplitVersion(v), ParseInt);
  }

  /** The version a list of numbers is written as, dot-separated. */
  function FormatVersion(parts: seq<nat>): string
    requires parts != []
  {
    if |parts| == 1 then NatToString(parts[0])
    else FormatVersion(parts[..|parts| - 1]) + "." + NatToString(parts[|parts| - 1])
  }

  lemma NumberIsOnePart(n: nat)
    ensures SplitVersion(NatToString(n)) == [NatToString(n)]
    ensures ParseEach([NatToString(n)], ParseInt) == Some([n])
  {
    var d := NatToString(n);
    SplitVersionPlain(d);
    IntToStringRoundTrip(n);
    assert [d][0] == d && [d][1..] == [];
    assert ParseEach([d][1..], ParseInt) == Some([]);
    assert [n] + [] == [n];
  }

  /** A number alone is a one-part version. */
  lemma NumberVersion(n: nat)
    ensures ParseVersion(NatToString(n)) == Some([n])
  {
    NumberIsOnePart(n);
  }

  /** A separator and a number after a version add that number at the end. */
  lemma VersionAppendPart(v: string, c: char, n: nat)
    requires IsVersionSep(c) && ParseVersion(v).Some?
    ensures ParseVersion(v + [c] + NatToString(n)) == Some(ParseVersion(v).value + [n])
  {
    NumberIsOnePart(n);
    SplitVersionAppend(v, c, NatToString(n));
    ParseEachAppend(SplitVersion(v), [NatToString(n)], ParseInt);
    assert ParseEach(SplitVersion(v), ParseInt).value == ParseVersion(v).value;
  }

  /** parsever reads back every dotted version written from a list of numbers. */
  lemma {:induction false} VersionRoundTrip(parts: seq<nat>)
    requires parts != []
    ensures ParseVersion(FormatVersion(parts)) == Some(parts)
    decreases |parts|
  {
    var last := parts[|parts| - 1];
    if |parts| == 1 {
      NumberVersion(last);
      assert [last] == parts;
    } else {
      var init := parts[..|parts| - 1];
      var f := FormatVersion(init);
      VersionRoundTrip(init);
      assert ParseVersion(f + ['.'] + NatToString(last)) == Some(init + [last]) by {
        VersionAppendPart(f, '.', last);
      }
      assert FormatVersion(parts) == f + ['.'] + NatToString(last);
      assert init + [last] == parts;
    }
  }

  /** A '-' suffix is one more number at the end of the parsed version. */
  lemma VersionWithSuffix(v: string, n: nat)
    requires ParseVersion(v).Some?
    ensures ParseVersion(v + "-" + NatToString(n)) == Some(ParseVersion(v).value + [n])
  {
    VersionAppendPart(v, '-', n);
    assert v + "-" + NatToString(n) == v + ['-'] + NatToString(n);
  }

  /** A version with one more part: `v` then separator `c` then the digit `d`. */
  lemma VersionAppendDigit(v: string, c: char, d: nat, w: string)
    requires IsVersionSep(c) && d < 10 && ParseVersion(v).Some?
    requires w == v + [c, DigitChar(d)]
    ensures ParseVersion(w) == Some(ParseVersion(v).value + [d])
  {
    VersionAppendPart(v, c, d);
    assert v + [c] + NatToString(d) == w;
  }

  /** The example of the tool: "2.3.0-1" is [2, 3, 0, 1]. */
  lemma ParseVersionExample(v: string)
    requires v == "2.3.0-1"
    ensures ParseVersion(v) == Some([2, 3, 0, 1])
  {
    var major := v[..1];
    assert ParseVersion(major) == Some([2]) by {
      NumberVersion(2);
      assert NatToString(2) == major;
    }
    VersionAppendDigit(major, '.', 3, v[..3]);
    VersionAppendDigit(v[..3], '.', 0, v[..5]);
    VersionAppendDigit(v[..5], '-', 1, v);
    assert [2] + [3] + [0] + [1] == [2, 3, 0, 1];
  }

  /** Python's `a < b` on lists of ints: the first difference decides, a proper prefix comes first. */
  predicate ListLess(a: seq<int>, b: seq<int>)
    decreases |a|
  {
    if a == [] then b != []
    else if b == [] then false
    else if a[0] != b[0] then a[0] < b[0]
    else ListLess(a[1..], b[1..])
  }

  lemma {:induction false} ListLessExtend(p: seq<int>, n: int)
    ensures ListLess(p, p + [n])
  {
    if p != [] {
      assert (p + [n])[1..] == p[1..] + [n];
      ListLessExtend(p[1..], n);
    }
  }

  lemma {:induction false} ListLessBump(p: seq<int>, n: int)
    ensures ListLess(p + [n], p + [n + 1])
  {
    if p != [] {
      assert (p + [n])[1..] == p[1..] + [n];
      assert (p + [n + 1])[1..] == p[1..] + [n + 1];
      ListLessBump(p[1..], n);
    }
  }

  /** v.split('.')[0]: the text before the first '.'. */
  function Major(v: string): (r: string)
    ensures StartsWith(v, r) && '.' !in r
    ensures |r| < |v| ==> v[|r|] == '.'
  {
    v[..IndexFrom(v, '.', 0)]
  }

  /** The sort key of get_latest_from_manifest: int(v.split('.')[0]). */
  function MajorKey(v: string): Option<int> {
    ParseInt(Major(v))
  }

  /**
   * The position sorted(...)[-1] comes from: a largest key, and the last one
   * among equal keys because Python's sort is stable.
   */
  function LastLargest(keys: seq<int>): (r: nat)
    requires keys != []
    ensures r < |keys|
    ensures forall j :: 0 <= j < |keys| ==> keys[j] <= keys[r]
    ensures forall j :: r < j < |keys| ==> keys[j] < keys[r]
  {
    if |keys| == 1 then 0
    else
      var i := LastLargest(keys[..|keys| - 1]);
      assert forall j :: 0 <= j < |keys| - 1 ==> keys[..|keys| - 1][j] == keys[j];
      if keys[i] <= keys[|keys| - 1] then |keys| - 1 else i
  }

  /**
   * get_latest_from_manifest on the MANIFEST text (`None`: no such file). It
   * fails when the file is missing, has no line, or has a line whose major is
   * not a number; otherwise it picks one of its lines.
   */
  function LatestFromManifest(manifest: Option<string>): (r: Option<string>)
    ensures r.Some? <==> manifest.Some? && SplitLines(manifest.value) != [] && ParseEach(SplitLines(manifest.value), MajorKey).Some?
    ensures r.Some? ==> r.value in SplitLines(manifest.value)
  {
    if manifest.None? then None
    else
      var lines := SplitLines(manifest.value);
      var keys := ParseEach(lines, MajorKey);
      if lines == [] || keys.None? then None
      else
        ParseEachValues(lines, MajorKey);
        Some(lines[LastLargest(keys.value)])
  }

  /**
   * The line get_latest_from_manifest picks has the largest major of all, and
   * no later line has the same major: sorted() is stable, so [-1] is the last
   * of the equals in file order.
   */
  lemma LatestHasLargestMajor(manifest: Option<string>)
    requires LatestFromManifest(manifest).Some?
    ensures var lines := SplitLines(manifest.value);
            var keys := ParseEach(lines, MajorKey).value;
            |keys| == |lines|
            && exists i :: 0 <= i < |lines| && LatestFromManifest(manifest).value == lines[i]
                           && (forall j :: 0 <= j < |lines| ==> keys[j] <= keys[i])
                           && (forall j :: i < j < |lines| ==> keys[j] < keys[i])
  {
    var lines := SplitLines(manifest.value);
    var keys := ParseEach(lines, MajorKey).value;
    assert |keys| == |lines| && keys != [] by {
      ParseEachValues(lines, MajorKey);
    }
    assert LatestFromManifest(manifest) == Some(lines[LastLargest(keys)]);
    LastLargestPicked(lines, keys);
  }

  /** The line at `LastLargest(keys)`, for keys one per line, is one with a largest key and no later equal. */
  lemma LastLargestPicked(lines: seq<string>, keys: seq<int>)
    requires |keys| == |lines| && keys != []
    ensures exists i :: 0 <= i < |lines| && lines[LastLargest(keys)] == lines[i]
                        && (forall j :: 0 <= j < |lines| ==> keys[j] <= keys[i])
                        && (forall j :: i < j < |lines| ==> keys[j] < keys[i])
  {
    var i := LastLargest(keys);
    assert lines[LastLargest(keys)] == lines[i];
  }

  const VersionTag := "<version"
  const NameAttr := "name=\""

  /** The lazy `.*?name="` after `<version`, a '"'-free character following: no line break in between. */
  function NameFrom(t: string, j: nat): (r: Option<nat>)
    requires j <= |t|
    ensures r.Some? ==> j <= r.value && StartsAt(t, r.value, NameAttr) && r.value + 6 < |t| && t[r.value + 6] != '"'
    ensures r.Some? ==> forall q :: j <= q < r.value ==> t[q] != '\n'
    decreases |t| - j
  {
    if j >= |t| then None
    else if StartsAt(t, j, NameAttr) && j + 6 < |t| && t[j + 6] != '"' then Some(j)
    else if t[j] == '\n' then None
    else NameFrom(t, j + 1)
  }

  /** The pattern `<version.*?name="([^"]+)` at the start of `t`; its group is the version name. */
  function VersionNameAt(t: string): (r: Option<Hit>)
    ensures r.Some? ==> StartsWith(t, VersionTag) && 0 < r.value.len <= |t|
    ensures r.Some? ==> r.value.group != [] && '"' !in r.value.group
  {
    if !StartsWith(t, VersionTag) then None
    else
      match NameFrom(t, 8)
      case None => None
      case Some(p) =>
        var g := IndexFrom(t, '"', p + 6);
        Some(Hit(g, t[p + 6..g]))
  }

  /** The name of the first `<version name="...">` in the index: the latest release it lists. */
  function FindVersionName(xml: string): (r: Option<string>)
    ensures r.Some? ==> r.value != [] && '"' !in r.value
  {
    match Search(VersionNameAt, xml)
    case None => None
    case Some(h) =>
      SearchIsAHit(VersionNameAt, xml);
      Some(h.group)
  }

  /** `<version name="v"` followed by anything: the pattern matches it with group `v`. */
  lemma VersionNameOf(v: string, rest: string)
    requires v != [] && '"' !in v
    ensures VersionNameAt("<version name=\"" + v + "\"" + rest) == Some(Hit(15 + |v|, v))
  {
    var t := "<version name=\"" + v + "\"" + rest;
    assert StartsWith(t, VersionTag);
    assert !StartsAt(t, 8, NameAttr) by {
      assert t[8] == ' ';
    }
    assert StartsAt(t, 9, NameAttr) && t[15] == v[0];
    assert NameFrom(t, 9) == Some(9);
    assert forall q :: 15 <= q < 15 + |v| ==> t[q] == v[q - 15];
    assert t[15 + |v|] == '"';
    assert t[15..15 + |v|] == v;
  }

  /** The first `<version name="v"` of the index is the one found. */
  lemma FindsFirstVersionName(pre: string, v: string, rest: string)
    requires v != [] && '"' !in v
    requires forall i :: 0 <= i < |pre| ==> !StartsAt(pre + ("<version name=\"" + v + "\"" + rest), i, VersionTag)
    ensures FindVersionName(pre + ("<version name=\"" + v + "\"" + rest)) == Some(v)
  {
    var t := "<version name=\"" + v + "\"" + rest;
    var xml := pre + t;
    VersionNameOf(v, rest);
    assert xml[|pre|..] == t;
    forall i | 0 <= i < |pre|
      ensures !Matches(VersionNameAt, xml[i..])
    {
      if Matches(VersionNameAt, xml[i..]) {
        assert StartsWith(xml[i..], VersionTag) && |VersionTag| == 8;
        assert xml[i..][..8] == xml[i..i + 8];
        assert StartsAt(xml, i, VersionTag);
        assert false;
      }
    }
    SearchFirst(VersionNameAt, xml, |pre|);
  }

  /**
   * The part of gen_reapack_version that compares the latest MANIFEST version
   * with the last release: `None` when either is not a parsable version.
   */
  function NextVersion(latest: string, reapack: string): (r: Option<string>)
    ensures r.Some? <==> ParseVersion(latest).Some? && ParseVersion(reapack).Some?
    ensures r.Some? ==> StartsWith(r.value, latest)
    ensures r.Some? ==>
      var pm := ParseVersion(latest).value;
      var pr := ParseVersion(reapack).value;
      (ListLess(pr, pm) ==> r.value == latest)
      && (!ListLess(pr, pm) && |pr| == 3 ==> r.value == latest + "-1")
      && (!ListLess(pr, pm) && |pr| != 3 ==> r.value == latest + "-" + IntToString(pr[|pr| - 1] + 1))
  {
    match (ParseVersion(latest), ParseVersion(reapack))
    case (Some(pm), Some(pr)) =>
      if ListLess(pr, pm) then Some(latest)
      else if |pr| == 3 then Some(latest + "-1")
      else Some(latest + "-" + IntToString(pr[|pr| - 1] + 1))
    case _ => None
  }

  /**
   * gen_reapack_version: the version of the new release, from the index (with
   * the old releases already pruned) and the MANIFEST text.
   */
  function GenReapackVersion(xml: string, manifest: Option<string>): (r: Option<string>)
    ensures r.Some? ==> LatestFromManifest(manifest).Some? && StartsWith(r.value, LatestFromManifest(manifest).value)
  {
    match LatestFromManifest(manifest)
    case None => None
    case Some(latest) =>
      match FindVersionName(xml)
      case None => Some(latest)
      case Some(reapack) => NextVersion(latest, reapack)
  }

  /** With no earlier release in the index, the MANIFEST version is used unchanged. */
  lemma FirstReleaseUsesManifest(xml: string, manifest: Option<string>)
    requires FindVersionName(xml).None?
    ensures GenReapackVersion(xml, manifest) == LatestFromManifest(manifest)
  {
  }

  /**
   * The version the new release gets, read back by parsever: the MANIFEST
   * version itself when it is newer than the last release; otherwise the
   * MANIFEST version with one more number, 1 over a plain three-part release
   * and one more than the last release's final number otherwise.
   */
  lemma NextVersionNumbers(latest: string, reapack: string)
    requires ParseVersion(latest).Some? && ParseVersion(reapack).Some?
    ensures var pm := ParseVersion(latest).value;
            var pr := ParseVersion(reapack).value;
            var r := NextVersion(latest, reapack);
            r.Some?
            && (ListLess(pr, pm) ==> ParseVersion(r.value) == Some(pm))
            && (!ListLess(pr, pm) ==>
                  ParseVersion(r.value) == Some(pm + [if |pr| == 3 then 1 else pr[|pr| - 1] + 1]))
  {
    var pr := ParseVersion(reapack).value;
    if |pr| == 3 {
      VersionWithSuffix(latest, 1);
      assert NatToString(1) == "1";
      assert latest + "-1" == latest + "-" + NatToString(1);
    } else {
      VersionWithSuffix(latest, pr[|pr| - 1] + 1);
    }
  }

  /**
   * Each rebuild of the same MANIFEST version gets a version that sorts after
   * the previous release: after "2.3.0" comes "2.3.0-1", after "2.3.0-n" comes
   * "2.3.0-(n+1)", and a newer MANIFEST version is newer by itself.
   */
  lemma NextVersionIsNewer(latest: string, reapack: string)
    requires ParseVersion(latest).Some? && ParseVersion(reapack).Some?
    requires var pm := ParseVersion(latest).value;
             var pr := ParseVersion(reapack).value;
             ListLess(pr, pm) || (|pr| == 3 && pr == pm) || (|pr| != 3 && pr == pm + [pr[|pr| - 1]])
    ensures var r := NextVersion(latest, reapack);
            r.Some? && ParseVersion(r.value).Some? && ListLess(ParseVersion(reapack).value, ParseVersion(r.value).value)
  {
    var pm := ParseVersion(latest).value;
    var pr := ParseVersion(reapack).value;
    NextVersionNumbers(latest, reapack);
    if !ListLess(pr, pm) {
      if |pr| == 3 {
        ListLessExtend(pm, 1);
      } else {
        ListLessBump(pm, pr[|pr| - 1]);
      }
    }
  }
}
