/**
 * The changelog of a ReaPack release (tools/mkreapack.py): `get_manifest_versions`
 * reads a MANIFEST file into a set of versions and `gen_changelog` writes one
 * section per major API version, newest first.
 *
 * Files are given by their text (`None`: the file cannot be opened), already
 * with the line-ending translation of Python's text mode applied.
 */
module ReapackChangelog {
  import opened Outcomes
  import opened Text
  import opened ReapackVersion

  /**
   * Iterating over a text file: each line up to and including its '\n', the
   * last one possibly without. Put back together they are the whole text.
   */
  function FileLines(s: string): (r: seq<string>)
    ensures Concat(r) == s
    ensures forall k :: 0 <= k < |r| ==> r[k] != []
    decreases |s|
  {
    if s == [] then []
    else
      var i := IndexFrom(s, '\n', 0);
      var j := if i < |s| then i + 1 else |s|;
      var rest := FileLines(s[j..]);
      ConcatAppend([s[..j]], rest);
      assert Concat([s[..j]]) == s[..j] by {
        assert [s[..j]][..0] == [];
      }
      assert s[..j] + s[j..] == s;
      [s[..j]] + rest
  }

  /** What get_manifest_versions returns: the stripped lines of the file, or nothing when it is missing. */
  function VersionSet(manifest: Option<string>): set<string> {
    if manifest.None? then {} else set l | l in FileLines(manifest.value) :: Strip(l)
  }

  /** get_manifest_versions: one set element per line, whitespace at both ends dropped. */
  method ManifestVersions(manifest: Option<string>) returns (versions: set<string>)
    ensures versions == VersionSet(manifest)
  {
    versions := {};
    if manifest.Some? {
      var lines := FileLines(manifest.value);
      for i := 0 to |lines|
        invariant versions == set l | l in lines[..i] :: Strip(l)
      {
        assert lines[..i + 1] == lines[..i] + [lines[i]];
        versions := versions + {Strip(lines[i])};
      }
      assert lines[..|lines|] == lines;
    }
  }

  /** A MANIFEST written one version per line. */
  function ManifestText(vs: seq<string>): string {
    if vs == [] then [] else vs[0] + "\n" + ManifestText(vs[1..])
  }

  /** Text with no whitespace at either end, which str.strip() leaves alone. */
  predicate IsStripped(v: string) {
    v == [] || (!IsSpace(v[0]) && !IsSpace(v[|v| - 1]))
  }

  /** Stripping a line with its '\n' gives back the line. */
  lemma StripLine(v: string)
    requires IsStripped(v)
    ensures Strip(v + "\n") == v
  {
    var s := v + "\n";
    if v == [] {
      assert SkipWhitespace(s, 0) == 1;
    } else {
      assert SkipWhitespace(s, 0) == 0;
      assert TrimEnd(s, 0, |s| - 1) == |v|;
      assert s[..|v|] == v;
    }
  }

  /** The lines of a MANIFEST written one version per line are those versions, each with its '\n'. */
  lemma {:induction false} FileLinesOfManifest(vs: seq<string>)
    requires forall k :: 0 <= k < |vs| ==> '\n' !in vs[k]
    ensures |FileLines(ManifestText(vs))| == |vs|
    ensures forall k :: 0 <= k < |vs| ==> FileLines(ManifestText(vs))[k] == vs[k] + "\n"
  {
    if vs != [] {
      var x := vs[0];
      var rest := ManifestText(vs[1..]);
      var s := ManifestText(vs);
      assert s == x + "\n" + rest;
      assert IndexFrom(s, '\n', 0) == |x| by {
        assert forall q :: 0 <= q < |x| ==> s[q] == x[q];
        assert s[|x|] == '\n';
      }
      assert s[..|x| + 1] == x + "\n";
      assert s[|x| + 1..] == rest;
      FileLinesOfManifest(vs[1..]);
    }
  }

  predicate ManifestWritable(vs: seq<string>) {
    forall k :: 0 <= k < |vs| ==> '\n' !in vs[k] && IsStripped(vs[k])
  }

  lemma ReadVersionsWereWritten(vs: seq<string>)
    requires ManifestWritable(vs)
    ensures forall x :: x in VersionSet(Some(ManifestText(vs))) ==> x in vs
  {
    var lines := FileLines(ManifestText(vs));
    FileLinesOfManifest(vs);
    forall x | x in VersionSet(Some(ManifestText(vs)))
      ensures x in vs
    {
      var k :| 0 <= k < |lines| && Strip(lines[k]) == x;
      StripLine(vs[k]);
    }
  }

  lemma WrittenVersionsAreRead(vs: seq<string>)
    requires ManifestWritable(vs)
    ensures forall x :: x in vs ==> x in VersionSet(Some(ManifestText(vs)))
  {
    var lines := FileLines(ManifestText(vs));
    FileLinesOfManifest(vs);
    forall x | x in vs
      ensures x in VersionSet(Some(ManifestText(vs)))
    {
      var k :| 0 <= k < |vs| && vs[k] == x;
      StripLine(vs[k]);
      assert lines[k] in lines;
    }
  }

  /**
   * get_manifest_versions reads back the versions of a MANIFEST written one per
   * line, when none of them has whitespace at its ends or a line break inside.
   */
  lemma ManifestVersionsRoundTrip(vs: seq<string>)
    requires ManifestWritable(vs)
    ensures VersionSet(Some(ManifestText(vs))) == set v | v in vs
  {
    ReadVersionsWereWritten(vs);
    WrittenVersionsAreRead(vs);
  }

  /** Strictly descending in Python's str order. */
  predicate Descending(r: seq<string>) {
    forall i, j :: 0 <= i < j < |r| ==> StrLess(r[j], r[i])
  }

  /** `m` is the largest element of `s` in Python's str order. */
  predicate IsLargest(s: set<string>, m: string) {
    m in s && forall y :: y in s ==> !StrLess(m, y)
  }

  /** A non-empty set of strings has a largest element. */
  lemma {:induction false} LargestExists(s: set<string>)
    requires s != {}
    ensures exists m :: IsLargest(s, m)
    decreases |s|
  {
    var x :| x in s;
    if s - {x} == {} {
      assert s == {x};
      StrLessIrreflexive(x);
      assert IsLargest(s, x);
    } else {
      LargestExists(s - {x});
      var m :| IsLargest(s - {x}, m);
      if StrLess(m, x) {
        forall y | y in s
          ensures !StrLess(x, y)
        {
          if y == x {
            StrLessIrreflexive(x);
          } else if StrLess(x, y) {
            StrLessTransitive(m, x, y);
          }
        }
        assert IsLargest(s, x);
      } else {
        assert IsLargest(s, m);
      }
    }
  }

  /** The order is total, so a set has only one largest element. */
  lemma LargestUnique(s: set<string>)
    ensures forall a, b :: IsLargest(s, a) && IsLargest(s, b) ==> a == b
  {
    forall a, b | IsLargest(s, a) && IsLargest(s, b)
      ensures a == b
    {
      if a != b {
        StrLessTotal(a, b);
      }
    }
  }

  /** sorted(s, reverse=True) of a set of strings: every element once, largest first. */
  function SortDescending(s: set<string>): (r: seq<string>)
    ensures Descending(r)
    ensures |r| == |s| && forall x :: x in r <==> x in s
    decreases |s|
  {
    if s == {} then []
    else
      LargestExists(s);
      LargestUnique(s);
      var m :| IsLargest(s, m);
      var rest := SortDescending(s - {m});
      var r := [m] + rest;
      assert forall j :: 0 < j < |r| ==> r[j] == rest[j - 1];
      forall j | 0 < j < |r|
        ensures StrLess(r[j], r[0])
      {
        assert r[j] in s - {m};
        StrLessTotal(m, r[j]);
      }
      r
  }

  const Intro := "This REAPER Toolkit bundle includes the following major API versions:\n"
  const NoChanges := "No changes to this API version in this release.\n"
  const MinorFixes := "* Minor fixes\n"
  const Outro := "\nFor a complete historical change log, visit https://reapertoolkit.dev/changelog\n"

  function Heading(ver: string): string {
    "# " + ver + "\n"
  }

  /**
   * The stripped CHANGELOG.md of the version's major directory; "" when there
   * is no such file. `changelogs` maps a major directory to its CHANGELOG.md.
   */
  function Changes(ver: string, changelogs: map<string, string>): (r: string)
    ensures IsStripped(r)
  {
    if Major(ver) in changelogs then Strip(changelogs[Major(ver)]) else ""
  }

  /**
   * The lines written for one MANIFEST version, ending with an empty line: its
   * heading and the fixed note when the version was already released; the
   * major's changelog text instead of the heading when there is one; the
   * heading and "* Minor fixes" otherwise.
   */
  function Section(ver: string, reapack: set<string>, changelogs: map<string, string>): (r: seq<string>)
    ensures 2 <= |r| <= 3 && r[|r| - 1] == ""
  {
    if ver in reapack then [Heading(ver), NoChanges, ""]
    else
      var changes := Changes(ver, changelogs);
      if changes == "" then [Heading(ver), MinorFixes, ""] else [changes, ""]
  }

  /** The blocks of lines `f` gives for each of `vs`, one after the other. */
  function ConcatMap(f: string -> seq<string>, vs: seq<string>): seq<string> {
    if vs == [] then []
    else ConcatMap(f, vs[..|vs| - 1]) + f(vs[|vs| - 1])
  }

  lemma ConcatMapStep(f: string -> seq<string>, vs: seq<string>, i: nat)
    requires i < |vs|
    ensures ConcatMap(f, vs[..i + 1]) == ConcatMap(f, vs[..i]) + f(vs[i])
  {
    assert vs[..i + 1][..i] == vs[..i];
  }

  /** The blocks of two runs of versions one after the other. */
  lemma {:induction false} ConcatMapAppend(f: string -> seq<string>, a: seq<string>, b: seq<string>)
    ensures ConcatMap(f, a + b) == ConcatMap(f, a) + ConcatMap(f, b)
    decreases |b|
  {
    if b == [] {
      assert a + b == a;
    } else {
      assert (a + b)[..|a + b| - 1] == a + b[..|b| - 1];
      ConcatMapAppend(f, a, b[..|b| - 1]);
    }
  }

  /** The sections of the given versions, in their order. */
  function Sections(vs: seq<string>, reapack: set<string>, changelogs: map<string, string>): seq<string> {
    ConcatMap(v => Section(v, reapack, changelogs), vs)
  }

  /**
   * The section of the k-th version starts right after the sections of the
   * versions before it: every version gets its own block of lines, in the order
   * of the versions.
   */
  lemma SectionAt(vs: seq<string>, k: nat, reapack: set<string>, changelogs: map<string, string>)
    requires k < |vs|
    ensures var all := Sections(vs, reapack, changelogs);
            var p := |Sections(vs[..k], reapack, changelogs)|;
            var sec := Section(vs[k], reapack, changelogs);
            p + |sec| <= |all| && all[p..p + |sec|] == sec
  {
    var f := v => Section(v, reapack, changelogs);
    assert vs == vs[..k + 1] + vs[k + 1..];
    ConcatMapAppend(f, vs[..k + 1], vs[k + 1..]);
    ConcatMapStep(f, vs, k);
  }

  /** Each version's section has two or three lines, so the sections of `vs` have two or three per version. */
  lemma {:induction false} SectionsLength(vs: seq<string>, reapack: set<string>, changelogs: map<string, string>)
    ensures 2 * |vs| <= |Sections(vs, reapack, changelogs)| <= 3 * |vs|
    decreases |vs|
  {
    if vs != [] {
      var init := vs[..|vs| - 1];
      SectionsLength(init, reapack, changelogs);
      assert Sections(vs, reapack, changelogs)
        == Sections(init, reapack, changelogs) + Section(vs[|vs| - 1], reapack, changelogs);
    }
  }

  /**
   * The lines gen_changelog joins, for the MANIFEST and reapack-manifest version
   * sets: the intro first, the outro last, and between them a section of two or
   * three lines for every MANIFEST version.
   */
  function ChangelogLines(manifest: set<string>, reapack: set<string>, changelogs: map<string, string>): (r: seq<string>)
    ensures 2 + 2 * |manifest| <= |r| <= 2 + 3 * |manifest|
    ensures r[0] == Intro && r[|r| - 1] == Outro
  {
    SectionsLength(SortDescending(manifest), reapack, changelogs);
    [Intro] + Sections(SortDescending(manifest), reapack, changelogs) + [Outro]
  }

  /**
   * One turn of gen_changelog's loop: the heading, then the note, the fixed
   * "* Minor fixes" line, or the changelog text written over the heading, then
   * an empty line.
   */
  method AddSection(lines: seq<string>, ver: string, reapack: set<string>, changelogs: map<string, string>)
    returns (out: seq<string>)
    ensures out == lines + Section(ver, reapack, changelogs)
  {
    out := lines + [Heading(ver)];
    if ver in reapack {
      out := out + [NoChanges];
    } else {
      var changes := Changes(ver, changelogs);
      if changes == "" {
        out := out + [MinorFixes];
      } else {
        out := out[|out| - 1 := changes];
      }
    }
    out := out + [""];
  }

  /** The loop of gen_changelog over the versions, newest first, after the introduction line. */
  method AddSections(sorted: seq<string>, reapack: set<string>, changelogs: map<string, string>)
    returns (lines: seq<string>)
    ensures lines == [Intro] + Sections(sorted, reapack, changelogs)
  {
    lines := [Intro];
    for i := 0 to |sorted|
      invariant lines == [Intro] + Sections(sorted[..i], reapack, changelogs)
    {
      lines := AddSection(lines, sorted[i], reapack, changelogs);
      ConcatMapStep(v => Section(v, reapack, changelogs), sorted, i);
    }
    assert sorted[..|sorted|] == sorted;
  }

  /**
   * gen_changelog: reads both manifests, then writes the introduction, the
   * section of every MANIFEST version from the newest down, and the closing
   * line, joined by line breaks.
   */
  method GenChangelog(reapackManifest: Option<string>, manifest: Option<string>, changelogs: map<string, string>)
    returns (text: string)
    ensures text == Join(ChangelogLines(VersionSet(manifest), VersionSet(reapackManifest), changelogs), "\n")
  {
    var reapack := ManifestVersions(reapackManifest);
    var versions := ManifestVersions(manifest);
    var lines := AddSections(SortDescending(versions), reapack, changelogs);
    lines := lines + [Outro];
    text := Join(lines, "\n");
  }
}
